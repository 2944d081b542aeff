/**
 * `WeeklyView`: the book of the week, searched on Google Books with a
 * letter chosen by the ISO week number and cached per week. The week
 * number, the fetch's reply, the `randomElement()` choice and the cache
 * (the app's user defaults) are parameters; a cached entry that does not
 * decode is an entry holding `None`.
 */
module WeeklyPick {
  import opened Common
  import opened Text
  import opened Books
  import GoogleBooks

  const Letters: string := "abcdefghijklmnopqrstuvwxyz"

  /** `weeklySearchTerm()`: the letter at `week % 26`. */
  function SearchTerm(week: nat): (r: string)
    ensures |r| == 1 && 'a' <= r[0] <= 'z'
    ensures r[0] as int - 'a' as int == week % 26
  {
    [Letters[week % |Letters|]]
  }

  /** Weeks 26 apart search the same letter; distinct weeks within 26 of each other do not. */
  lemma SearchTermPeriodic(w1: nat, w2: nat)
    ensures w1 % 26 == w2 % 26 ==> SearchTerm(w1) == SearchTerm(w2)
    ensures w1 % 26 != w2 % 26 ==> SearchTerm(w1) != SearchTerm(w2)
  {
    if SearchTerm(w1) == SearchTerm(w2) {
      assert SearchTerm(w1)[0] == SearchTerm(w2)[0];
    }
  }

  const CachePrefix: string := "weeklyBook-"

  /** The user-defaults key `"weeklyBook-\(currentWeek)"`. */
  function CacheKey(week: nat): (r: string)
    ensures |r| > |CachePrefix| && r[..|CachePrefix|] == CachePrefix
    ensures r[|CachePrefix|..] == NatToString(week)
  {
    CachePrefix + NatToString(week)
  }

  /** Different weeks never share a cache entry. */
  lemma CacheKeyInjective(w1: nat, w2: nat)
    requires CacheKey(w1) == CacheKey(w2)
    ensures w1 == w2
  {
    assert NatToString(w1) == CacheKey(w1)[|CachePrefix|..];
    NatToStringRoundTrip(w1);
    NatToStringRoundTrip(w2);
  }

  /** The cache: absent, undecodable (`None`) or a decodable book. */
  type Cache = map<string, Option<Book>>

  /** The book built from the chosen volume: like the lookup service's, but the default author is "Unknown". */
  function WeeklyBookFrom(item: GoogleBooks.GoogleBook): (b: Book)
    ensures b.authors == item.volumeInfo.authors.GetOr(["Unknown"])
    ensures b == GoogleBooks.FromVolume(item).(authors := b.authors)
    ensures item.volumeInfo.authors.Some? ==> b == GoogleBooks.FromVolume(item)
  {
    GoogleBooks.FromVolume(item).(authors := item.volumeInfo.authors.GetOr(["Unknown"]))
  }

  /**
   * `fetchWeeklyBook(completion:)` once the reply is in: a failure, a
   * response without items or with none gives nil; otherwise the book built
   * from the item `randomElement()` picked, here index `choice`.
   */
  function FetchWeeklyBook(reply: Reply<GoogleBooks.GoogleBooksResponse>, choice: nat): (r: Option<Book>)
    requires reply.Received? && reply.value.items.Some? && |reply.value.items.value| > 0 ==>
      choice < |reply.value.items.value|
    ensures r.Some? <==> reply.Received? && reply.value.items.Some? && |reply.value.items.value| > 0
    ensures r.Some? ==> r.value == WeeklyBookFrom(reply.value.items.value[choice])
  {
    match reply
    case Failed(_) => None
    case Received(response) =>
      match response.items
      case None => None
      case Some(items) => if |items| == 0 then None else Some(WeeklyBookFrom(items[choice]))
  }

  datatype WeeklyState = WeeklyState(book: Option<Book>, isLoading: bool)

  /** What `loadWeeklyBook(forceRefresh:)` leaves behind, and whether it went to the network. */
  datatype Loaded = Loaded(state: WeeklyState, cache: Cache, fetched: bool)

  /** A decodable entry for this week is cached. */
  predicate CacheHit(cache: Cache, week: nat) {
    CacheKey(week) in cache && cache[CacheKey(week)].Some?
  }

  /**
   * `loadWeeklyBook(forceRefresh:)` once any fetch has answered with
   * `fetchResult`: without `forceRefresh` a decodable cached book is shown
   * and nothing is fetched; otherwise the fetched book is shown and, only
   * when there is one, cached under the week's key.
   */
  function LoadWeeklyBook(st: WeeklyState, cache: Cache, week: nat, forceRefresh: bool,
                          fetchResult: Option<Book>): (r: Loaded)
    ensures !r.state.isLoading
    ensures r.fetched <==> forceRefresh || !CacheHit(cache, week)
    ensures !r.fetched ==> r.state.book == cache[CacheKey(week)] && r.cache == cache
    ensures r.fetched ==> r.state.book == fetchResult
    ensures r.fetched && fetchResult.Some? ==> r.cache == cache[CacheKey(week) := fetchResult]
    ensures r.fetched && fetchResult.None? ==> r.cache == cache
  {
    var key := CacheKey(week);
    if !forceRefresh && CacheHit(cache, week) then
      Loaded(WeeklyState(cache[key], false), cache, false)
    else
      var cache' := if fetchResult.Some? then cache[key := fetchResult] else cache;
      Loaded(WeeklyState(fetchResult, false), cache', true)
  }

  /**
   * After a fetch that produced a book, reopening the view in the same week
   * shows that book without fetching, whatever a new fetch would return.
   */
  lemma SecondLoadHitsCache(st: WeeklyState, cache: Cache, week: nat, forceRefresh: bool,
                            b: Book, later: Option<Book>)
    requires LoadWeeklyBook(st, cache, week, forceRefresh, Some(b)).fetched
    ensures var first := LoadWeeklyBook(st, cache, week, forceRefresh, Some(b));
      var second := LoadWeeklyBook(first.state, first.cache, week, false, later);
      !second.fetched && second.state.book == Some(b) && second.cache == first.cache
  {
  }

  /** A forced refresh always fetches and shows the fetched result. */
  lemma ForceRefreshFetches(st: WeeklyState, cache: Cache, week: nat, fetchResult: Option<Book>)
    ensures LoadWeeklyBook(st, cache, week, true, fetchResult).fetched
    ensures LoadWeeklyBook(st, cache, week, true, fetchResult).state.book == fetchResult
  {
  }

  /** Loading one week never touches another week's entry. */
  lemma OtherWeeksUntouched(st: WeeklyState, cache: Cache, week: nat, other: nat, forceRefresh: bool,
                            fetchResult: Option<Book>)
    requires other != week
    ensures var r := LoadWeeklyBook(st, cache, week, forceRefresh, fetchResult);
      (CacheKey(other) in r.cache <==> CacheKey(other) in cache)
      && (CacheKey(other) in cache ==> r.cache[CacheKey(other)] == cache[CacheKey(other)])
  {
    if CacheKey(other) == CacheKey(week) {
      CacheKeyInjective(other, week);
    }
  }
}
