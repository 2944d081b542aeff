/**
 * `CalendarChallengeService`: the published pick of the current month. The
 * clock's month name ("MMMM") and year, and the new record's `UUID()`, are
 * parameters; the background and main-queue hops are collapsed into one step.
 */
module CalendarChallenge {
  import opened Common
  import BookStore

  datatype ChallengeState = ChallengeState(
    currentMonthlyBook: Option<BookStore.MonthlyBook>,
    isLoading: bool,
    error: Option<string>)

  /** `loadCurrentMonthlyBook()`: publish whatever the store holds for this month. */
  function LoadCurrentMonthlyBook(st: ChallengeState, store: BookStore.Store,
                                  clockMonth: string, clockYear: int): (r: ChallengeState)
    ensures !r.isLoading && r.error.None?
    ensures r.currentMonthlyBook.Some? ==>
      r.currentMonthlyBook.value in store.monthly
      && r.currentMonthlyBook.value.month == Some(clockMonth) && r.currentMonthlyBook.value.year == clockYear
    ensures r.currentMonthlyBook.None? <==>
      forall i :: 0 <= i < |store.monthly| ==> !BookStore.InSlot(clockMonth, clockYear)(store.monthly[i])
  {
    ChallengeState(BookStore.FetchCurrentMonthlyBook(store, clockMonth, clockYear), false, None)
  }

  /** The record `setMonthlyBook` builds: stamped with the clock's month and year. */
  function NewMonthlyBook(title: string, author: string, coverURL: Option<string>, description: Option<string>,
                          clockMonth: string, clockYear: int, newId: string): (mb: BookStore.MonthlyBook)
    ensures mb.id == Some(newId) && mb.title == Some(title) && mb.author == Some(author)
    ensures mb.month == Some(clockMonth) && mb.year == clockYear
    ensures mb.coverURL == coverURL && mb.bookDescription == description
  {
    BookStore.MonthlyBook(Some(newId), Some(title), Some(author), coverURL, Some(clockMonth), clockYear, description)
  }

  /**
   * `setMonthlyBook(title:author:coverURL:description:)`: the store replaces
   * this month's pick and the new record is published.
   */
  function SetMonthlyBook(st: ChallengeState, store: BookStore.Store,
                          title: string, author: string, coverURL: Option<string>, description: Option<string>,
                          clockMonth: string, clockYear: int, newId: string): (r: (ChallengeState, BookStore.Store))
    ensures r.0.currentMonthlyBook.Some? && !r.0.isLoading && r.0.error.None?
    ensures r.0.currentMonthlyBook.value.month == Some(clockMonth) && r.0.currentMonthlyBook.value.year == clockYear
    ensures r.1 == BookStore.SetMonthlyBook(store, r.0.currentMonthlyBook.value)
    ensures r.1.books == store.books && r.1.logs == store.logs
  {
    var mb := NewMonthlyBook(title, author, coverURL, description, clockMonth, clockYear, newId);
    (ChallengeState(Some(mb), false, None), BookStore.SetMonthlyBook(store, mb))
  }

  /** `updateMonthlyBook(...)` is `setMonthlyBook(...)`. */
  function UpdateMonthlyBook(st: ChallengeState, store: BookStore.Store,
                             title: string, author: string, coverURL: Option<string>, description: Option<string>,
                             clockMonth: string, clockYear: int, newId: string): (r: (ChallengeState, BookStore.Store))
    ensures r == SetMonthlyBook(st, store, title, author, coverURL, description, clockMonth, clockYear, newId)
  {
    SetMonthlyBook(st, store, title, author, coverURL, description, clockMonth, clockYear, newId)
  }

  function IsRecord(mb: BookStore.MonthlyBook): BookStore.MonthlyBook -> bool {
    (m: BookStore.MonthlyBook) => m == mb
  }

  /**
   * `deleteCurrentMonthlyBook()`: without a published pick nothing happens;
   * otherwise its record leaves the store and the pick is cleared. Core Data
   * deletes by object identity; here the first equal record goes.
   */
  function DeleteCurrentMonthlyBook(st: ChallengeState, store: BookStore.Store): (r: (ChallengeState, BookStore.Store))
    ensures st.currentMonthlyBook.None? ==> r == (st, store)
    ensures st.currentMonthlyBook.Some? ==> r.0 == st.(currentMonthlyBook := None)
    ensures r.1.books == store.books && r.1.logs == store.logs
    ensures st.currentMonthlyBook.Some? && st.currentMonthlyBook.value in store.monthly ==>
      |r.1.monthly| == |store.monthly| - 1
    ensures forall i :: 0 <= i < |store.monthly| && Some(store.monthly[i]) != st.currentMonthlyBook ==>
      store.monthly[i] in r.1.monthly
  {
    match st.currentMonthlyBook
    case None => (st, store)
    case Some(mb) =>
      var monthly :=
        match FirstIndex(store.monthly, IsRecord(mb))
        case Some(i) => BookStore.RemoveAt(store.monthly, i)
        case None => store.monthly;
      assert mb in store.monthly ==> Exists(store.monthly, IsRecord(mb)) by {
        if mb in store.monthly {
          var i :| 0 <= i < |store.monthly| && store.monthly[i] == mb;
          assert IsRecord(mb)(store.monthly[i]);
        }
      }
      (st.(currentMonthlyBook := None), store.(monthly := monthly))
  }

  /** `hasCurrentMonthlyBook`. */
  predicate HasCurrentMonthlyBook(st: ChallengeState) {
    st.currentMonthlyBook.Some?
  }

  /** With one record per month, a freshly set pick is what the next load publishes. */
  lemma SetThenLoad(st: ChallengeState, store: BookStore.Store,
                    title: string, author: string, coverURL: Option<string>, description: Option<string>,
                    clockMonth: string, clockYear: int, newId: string)
    requires BookStore.UniqueSlots(store.monthly)
    ensures var (st', store') := SetMonthlyBook(st, store, title, author, coverURL, description, clockMonth, clockYear, newId);
      LoadCurrentMonthlyBook(st', store', clockMonth, clockYear) == st'
  {
    var mb := NewMonthlyBook(title, author, coverURL, description, clockMonth, clockYear, newId);
    BookStore.SetThenFetch(store, mb, clockMonth);
  }

  /** Deleting the published pick of a store with one record per month leaves nothing to load. */
  lemma DeleteThenLoad(st: ChallengeState, store: BookStore.Store, clockMonth: string, clockYear: int)
    requires BookStore.UniqueSlots(store.monthly)
    requires st.currentMonthlyBook.Some? && st.currentMonthlyBook.value in store.monthly
    requires st.currentMonthlyBook.value.month == Some(clockMonth) && st.currentMonthlyBook.value.year == clockYear
    ensures var (st', store') := DeleteCurrentMonthlyBook(st, store);
      !HasCurrentMonthlyBook(st') && !HasCurrentMonthlyBook(LoadCurrentMonthlyBook(st', store', clockMonth, clockYear))
  {
    var mb := st.currentMonthlyBook.value;
    var p := BookStore.InSlot(clockMonth, clockYear);
    assert Exists(store.monthly, IsRecord(mb)) by {
      var i :| 0 <= i < |store.monthly| && store.monthly[i] == mb;
      assert IsRecord(mb)(store.monthly[i]);
    }
    var i := FirstIndex(store.monthly, IsRecord(mb)).value;
    assert |Filter(store.monthly, p)| <= 1;
    BookStore.RemoveOnlyAccepted(store.monthly, i, p);
    var store' := DeleteCurrentMonthlyBook(st, store).1;
    assert store'.monthly == BookStore.RemoveAt(store.monthly, i);
  }
}
