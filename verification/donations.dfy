/**
 * `DonationService`: input validation, the simulated payment round trip and
 * the two summaries the donation screen shows. Amounts are `real` (the
 * source's `Decimal`), times are seconds. The simulated server's 90% coin
 * toss, the transaction `UUID()` and the clock are parameters; the delayed
 * main-queue updates are applied in the same step as the answer.
 */
module Donations {
  import opened Common

  datatype DonationError = InvalidAmount | InvalidPaymentToken | NetworkError | ServerError | Unknown

  /** `errorDescription`, which `localizedDescription` shows. */
  function ErrorDescription(e: DonationError): string {
    match e
    case InvalidAmount => "Invalid donation amount"
    case InvalidPaymentToken => "Invalid payment token"
    case NetworkError => "Network connection error"
    case ServerError => "Server error occurred"
    case Unknown => "An unknown error occurred"
  }

  /** Each error reads differently. */
  lemma DescriptionsDistinct(a: DonationError, b: DonationError)
    requires a != b
    ensures ErrorDescription(a) != ErrorDescription(b)
  {
    assert ErrorDescription(a)[0] != ErrorDescription(b)[0] || ErrorDescription(a)[1] != ErrorDescription(b)[1]
        || ErrorDescription(a)[12] != ErrorDescription(b)[12];
  }

  datatype DonationResult = DonationResult(
    success: bool,
    transactionId: Option<string>,
    error: Option<DonationError>,
    amount: real,
    timestamp: int)

  /** The service's published state. */
  datatype DonationState = DonationState(
    isProcessing: bool,
    lastDonationResult: Option<DonationResult>,
    error: Option<string>)

  const Idle := DonationState(false, None, None)

  /** What the returned publisher delivers. */
  datatype Outcome = Rejected(err: DonationError) | Succeeded(result: DonationResult)

  /**
   * `makeDonation(amount:paymentToken:)` through to the publisher's answer.
   * Processing starts and the error clears first; a non-positive amount,
   * then an empty token, fail at once and leave `isProcessing` set;
   * otherwise the simulated server (`approved`) records a successful result
   * or publishes the server error.
   */
  function MakeDonation(st: DonationState, amount: real, paymentToken: string,
                        approved: bool, transactionId: string, now: int): (r: (DonationState, Outcome))
    ensures amount <= 0.0 ==> r == (st.(isProcessing := true, error := None), Rejected(InvalidAmount))
    ensures amount > 0.0 && paymentToken == "" ==>
      r == (st.(isProcessing := true, error := None), Rejected(InvalidPaymentToken))
    ensures amount > 0.0 && paymentToken != "" && approved ==>
      && r.1.Succeeded? && r.1.result.success && r.1.result.error.None?
      && r.1.result.amount == amount && r.1.result.timestamp == now
      && r.1.result.transactionId == Some(transactionId)
      && r.0 == DonationState(false, Some(r.1.result), None)
    ensures amount > 0.0 && paymentToken != "" && !approved ==>
      r == (DonationState(false, st.lastDonationResult, Some(ErrorDescription(ServerError))), Rejected(ServerError))
  {
    var started := st.(isProcessing := true, error := None);
    if amount <= 0.0 then (started, Rejected(InvalidAmount))
    else if paymentToken == "" then (started, Rejected(InvalidPaymentToken))
    else if approved then
      var result := DonationResult(true, Some(transactionId), None, amount, now);
      (started.(lastDonationResult := Some(result), isProcessing := false), Succeeded(result))
    else
      (started.(error := Some(ErrorDescription(ServerError)), isProcessing := false), Rejected(ServerError))
  }

  /** A rejected input leaves the spinner on: `isProcessing` is set before the checks and never cleared. */
  lemma RejectionKeepsProcessing(st: DonationState, amount: real, paymentToken: string,
                                 approved: bool, transactionId: string, now: int)
    requires amount <= 0.0 || paymentToken == ""
    ensures MakeDonation(st, amount, paymentToken, approved, transactionId, now).0.isProcessing
  {
  }

  const ApplePayTokenPrefix: string := "apple_pay_token_"

  /** `makeDonationWithApplePay(amount:)`: a simulated token built from a fresh UUID. */
  function DonateWithApplePay(st: DonationState, amount: real, tokenUuid: string,
                              approved: bool, transactionId: string, now: int): (r: (DonationState, Outcome))
    ensures r == MakeDonation(st, amount, ApplePayTokenPrefix + tokenUuid, approved, transactionId, now)
    ensures r.1 != Rejected(InvalidPaymentToken)
  {
    MakeDonation(st, amount, ApplePayTokenPrefix + tokenUuid, approved, transactionId, now)
  }

  /** `makeDonationWithStripe(amount:paymentMethodId:)`: the method id is the token. */
  function DonateWithStripe(st: DonationState, amount: real, paymentMethodId: string,
                            approved: bool, transactionId: string, now: int): (r: (DonationState, Outcome))
    ensures r == MakeDonation(st, amount, paymentMethodId, approved, transactionId, now)
    ensures paymentMethodId == "" && amount > 0.0 ==> r.1 == Rejected(InvalidPaymentToken)
  {
    MakeDonation(st, amount, paymentMethodId, approved, transactionId, now)
  }

  const Day: int := 24 * 60 * 60

  /** `hasRecentDonation`: the last result, successful or not, is less than a day old. */
  predicate HasRecentDonation(st: DonationState, now: int) {
    st.lastDonationResult.Some? && now - st.lastDonationResult.value.timestamp < Day
  }

  /** `totalDonated`: the last amount if it succeeded, else 0. It does not add up donations. */
  function TotalDonated(st: DonationState): (r: real)
    ensures st.lastDonationResult.None? || !st.lastDonationResult.value.success ==> r == 0.0
    ensures st.lastDonationResult.Some? && st.lastDonationResult.value.success ==> r == st.lastDonationResult.value.amount
  {
    match st.lastDonationResult
    case None => 0.0
    case Some(res) => if res.success then res.amount else 0.0
  }

  /**
   * After an approved donation, the screen shows a recent donation for the
   * next 86,400 seconds and a total equal to that amount, whatever was given before.
   */
  lemma ApprovedDonationSummaries(st: DonationState, amount: real, paymentToken: string,
                                  transactionId: string, now: int, later: int)
    requires amount > 0.0 && paymentToken != ""
    ensures var s := MakeDonation(st, amount, paymentToken, true, transactionId, now).0;
      && TotalDonated(s) == amount
      && (HasRecentDonation(s, later) <==> later - now < 86400)
  {
  }

  /** Two approved donations total the second amount only. */
  lemma TotalIsNotCumulative(a1: real, a2: real, token: string, tx1: string, tx2: string, t1: int, t2: int)
    requires a1 > 0.0 && a2 > 0.0 && token != ""
    ensures var s1 := MakeDonation(Idle, a1, token, true, tx1, t1).0;
      TotalDonated(MakeDonation(s1, a2, token, true, tx2, t2).0) == a2
  {
  }

  /** A refused donation keeps the previous result, so the summaries do not change. */
  lemma RefusedKeepsSummaries(st: DonationState, amount: real, paymentToken: string,
                              approved: bool, transactionId: string, now: int, later: int)
    requires !(amount > 0.0 && paymentToken != "" && approved)
    ensures var s := MakeDonation(st, amount, paymentToken, approved, transactionId, now).0;
      TotalDonated(s) == TotalDonated(st) && (HasRecentDonation(s, later) <==> HasRecentDonation(st, later))
  {
  }
}
