/**
 * `ReadingTrackerView`: the log list under a time filter, each row's labels
 * and Remove button, and the simple "Add Reading Log" sheet that picks a
 * book from the daily service's seed pool. The starts of the current month
 * and year are parameters.
 */
module TrackerScreen {
  import opened Common
  import opened Text
  import opened Books
  import opened BookStore
  import ReadingTracker

  /** `TimeFilter`. */
  datatype TimeFilter = AllTime | ThisYear | ThisMonth

  function DisplayName(f: TimeFilter): string {
    match f
    case AllTime => "All Time"
    case ThisYear => "This Year"
    case ThisMonth => "This Month"
  }

  /** `filteredLogs`: the whole list, or the tracker's this-year or this-month view. */
  function FilteredLogs(t: ReadingTracker.Tracker, filter: TimeFilter, startOfYear: Date, startOfMonth: Date): (r: seq<ReadingLog>)
    ensures filter == AllTime ==> r == t.readingLogs
    ensures forall k :: 0 <= k < |r| ==> r[k] in t.readingLogs
    ensures filter == ThisYear ==> r == ReadingTracker.BooksReadSince(t, startOfYear)
    ensures filter == ThisMonth ==> r == ReadingTracker.BooksReadSince(t, startOfMonth)
  {
    match filter
    case AllTime => t.readingLogs
    case ThisYear => ReadingTracker.BooksReadSince(t, startOfYear)
    case ThisMonth => ReadingTracker.BooksReadSince(t, startOfMonth)
  }

  /** Narrowing the filter never shows more logs: month within year within all time. */
  lemma FiltersNest(t: ReadingTracker.Tracker, startOfYear: Date, startOfMonth: Date)
    requires startOfYear <= startOfMonth
    ensures |FilteredLogs(t, ThisMonth, startOfYear, startOfMonth)| <= |FilteredLogs(t, ThisYear, startOfYear, startOfMonth)|
    ensures |FilteredLogs(t, ThisYear, startOfYear, startOfMonth)| <= |FilteredLogs(t, AllTime, startOfYear, startOfMonth)|
    ensures FilteredLogs(t, ThisMonth, startOfYear, startOfMonth)
         == Filter(FilteredLogs(t, ThisYear, startOfYear, startOfMonth), ReadingTracker.FinishedSince(startOfMonth))
  {
    ReadingTracker.MonthWithinYear(t, startOfYear, startOfMonth);
  }

  /** An undated log appears under "All Time" only. */
  lemma UndatedOnlyInAllTime(t: ReadingTracker.Tracker, log: ReadingLog, startOfYear: Date, startOfMonth: Date)
    requires log.dateFinished.None?
    ensures log !in FilteredLogs(t, ThisYear, startOfYear, startOfMonth)
    ensures log !in FilteredLogs(t, ThisMonth, startOfYear, startOfMonth)
  {
    var y := FilteredLogs(t, ThisYear, startOfYear, startOfMonth);
    var m := FilteredLogs(t, ThisMonth, startOfYear, startOfMonth);
    assert forall k :: 0 <= k < |y| ==> y[k].dateFinished.Some?;
    assert forall k :: 0 <= k < |m| ==> m[k].dateFinished.Some?;
  }

  /** A row's title: the book's title, "Unknown Book" without a book or title. */
  function RowTitle(store: Store, log: ReadingLog): (r: string)
    requires log.book.Some? ==> log.book.value < |store.books|
    ensures log.book.None? ==> r == "Unknown Book"
    ensures log.book.Some? && store.books[log.book.value].title.Some? ==> r == store.books[log.book.value].title.value
    ensures log.book.Some? && store.books[log.book.value].title.None? ==> r == "Unknown Book"
  {
    match log.book
    case None => "Unknown Book"
    case Some(h) => store.books[h].title.GetOr("Unknown Book")
  }

  /** A row's byline: "by " and the authors joined with ", ", or "Unknown Author". */
  function RowByline(store: Store, log: ReadingLog): (r: string)
    requires log.book.Some? ==> log.book.value < |store.books|
    ensures |r| >= 3 && r[..3] == "by "
    ensures log.book.None? ==> r == "by " + UnknownAuthor
    ensures log.book.Some? && store.books[log.book.value].authors.Some? ==>
      r == "by " + Join(store.books[log.book.value].authors.value, ", ")
    ensures log.book.Some? && store.books[log.book.value].authors.None? ==> r == "by " + UnknownAuthor
  {
    var authors :=
      match log.book
      case None => UnknownAuthor
      case Some(h) =>
        match store.books[h].authors
        case None => UnknownAuthor
        case Some(names) => Join(names, ", ");
    "by " + authors
  }

  /** A logged book's row shows its title and sole author as stored by `createBook`. */
  lemma RowShowsLoggedBook(store: Store, b: Book, dateFinished: Date, notes: Option<string>, logId: string)
    requires |b.authors| == 1
    ensures var (s1, h) := CreateBook(store, b);
      var s2 := BookStore.AddReadingLog(s1, h, dateFinished, notes, logId);
      !Exists(store.books, HasId(b.id)) ==>
        RowTitle(s2, s2.logs[|s2.logs| - 1]) == b.title
        && RowByline(s2, s2.logs[|s2.logs| - 1]) == "by " + b.authors[0]
  {
  }

  /** The row's Remove button. */
  function RemoveRow(t: ReadingTracker.Tracker, store: Store, seedCount: nat, log: ReadingLog): (r: (ReadingTracker.Tracker, Store))
    ensures forall k :: 0 <= k < |r.1.logs| ==> r.1.logs[k].id != log.id
    ensures forall i :: 0 <= i < |store.logs| && store.logs[i].id != log.id ==> store.logs[i] in r.1.logs
    ensures KeepsInOrder(r.1.logs, store.logs, ReadingTracker.NotId(log.id))
    ensures r.1.books == store.books
  {
    ReadingTracker.RemoveReadingLog(t, store, seedCount, log.id)
  }

  /**
   * Removing a row that is on screen deletes exactly that row's position
   * when log ids are distinct: `remove(atOffsets:)` of its one index.
   */
  lemma RemoveRowAtIndex(t: ReadingTracker.Tracker, store: Store, seedCount: nat, k: nat)
    requires k < |store.logs| && ReadingTracker.DistinctLogIds(store.logs)
    ensures RemoveRow(t, store, seedCount, store.logs[k]).1.logs == RemoveAtOffsets(store.logs, {k})
  {
    var id := store.logs[k].id;
    ReadingTracker.RemoveIsRemoveAtOffsets(t, store, seedCount, id);
    assert (set i: nat | i < |store.logs| && store.logs[i].id == id) == {k};
  }

  /** The seed-pool picker: choosing row `i` selects that seed book. */
  function PickSeedBook(seedBooks: seq<Book>, i: nat): (r: Option<Book>)
    requires i < |seedBooks|
    ensures r == Some(seedBooks[i]) && r.value in seedBooks
  {
    Some(seedBooks[i])
  }

  /**
   * "Add Reading Log" on the sheet: disabled without a selected book;
   * otherwise logs it with empty notes sent as nil.
   */
  function AddFromSheet(t: ReadingTracker.Tracker, store: Store, seedCount: nat, selected: Option<Book>,
                        dateFinished: Date, notes: string, logId: string): (r: (ReadingTracker.Tracker, Store))
    ensures selected.None? ==> r == (t, store)
    ensures selected.Some? ==>
      && |r.1.logs| == |store.logs| + 1
      && r.1.logs[|store.logs|].dateFinished == Some(dateFinished)
      && (r.1.logs[|store.logs|].notes.None? <==> notes == "")
      && r.1.logs[|store.logs|].notes == (if notes == "" then None else Some(notes))
      && r.1.logs[|store.logs|].book.Some? && r.1.logs[|store.logs|].book.value < |r.1.books|
      && r.1.books[r.1.logs[|store.logs|].book.value].id == Some(selected.value.id)
      && ReadingTracker.IsBookRead(r.1, selected.value).1
      && r.0.totalReadCount == |store.logs| + 1
  {
    match selected
    case None => (t, store)
    case Some(b) =>
      var n := if notes == "" then None else Some(notes);
      ReadingTracker.ReadAfterAdd(t, store, seedCount, b, b, dateFinished, n, logId);
      ReadingTracker.AddReadingLog(t, store, seedCount, b, dateFinished, n, logId)
  }
}
