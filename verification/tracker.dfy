/**
 * `ReadingTrackerService`: the published list of reading logs, the read
 * count, the progress ratio against the seed pool and the checklist, on top
 * of the store. The background fetch and its main-queue hop are collapsed:
 * a reload is modelled once it has completed.
 */
module ReadingTracker {
  import opened Common
  import opened Books
  import opened BookStore

  /** `ChecklistProgress`; the ratio is a real number here. */
  datatype ChecklistProgress = ChecklistProgress(
    readCount: int,
    unreadCount: int,
    totalCount: int,
    percentComplete: real)

  /** `read / total`, or 0 when there is nothing to read. */
  function Ratio(read: int, total: int): (r: real)
    ensures total <= 0 ==> r == 0.0
    ensures total > 0 ==> r * (total as real) == read as real
  {
    if total > 0 then (read as real) / (total as real) else 0.0
  }

  lemma RatioBounds(read: int, total: int)
    requires 0 <= read <= total
    ensures 0.0 <= Ratio(read, total) <= 1.0
    ensures total > 0 ==> (Ratio(read, total) == 1.0 <==> read == total)
  {
    if total > 0 {
      var r := Ratio(read, total);
      var t := total as real;
      assert r * t == read as real;
    }
  }

  /** `ChecklistProgress.init(readCount:totalCount:)`. */
  function NewChecklistProgress(readCount: int, totalCount: int): (p: ChecklistProgress)
    ensures p.readCount == readCount && p.totalCount == totalCount
    ensures p.readCount + p.unreadCount == p.totalCount
    ensures p.totalCount <= 0 ==> p.percentComplete == 0.0
    ensures p.totalCount > 0 ==> p.percentComplete * (totalCount as real) == readCount as real
    ensures 0 <= readCount <= totalCount ==> 0.0 <= p.percentComplete <= 1.0 && p.unreadCount >= 0
  {
    RatioBounds(if 0 <= readCount <= totalCount then readCount else 0, if 0 <= readCount <= totalCount then totalCount else 0);
    ChecklistProgress(readCount, totalCount - readCount, totalCount, Ratio(readCount, totalCount))
  }

  /**
   * Nothing clamps the checklist: once there are more logs than seed books
   * the ratio passes 1 and the unread count goes negative.
   */
  lemma ChecklistNotClamped(readCount: int, totalCount: int)
    requires 0 < totalCount < readCount
    ensures NewChecklistProgress(readCount, totalCount).percentComplete > 1.0
    ensures NewChecklistProgress(readCount, totalCount).unreadCount < 0
  {
    var p := NewChecklistProgress(readCount, totalCount);
    assert p.percentComplete * (totalCount as real) == readCount as real;
  }

  /** The published state of the service. */
  datatype Tracker = Tracker(
    readingLogs: seq<ReadingLog>,
    totalReadCount: int,
    progressPercent: real,
    checklistProgress: ChecklistProgress,
    isLoading: bool,
    error: Option<string>)

  const InitialTracker := Tracker([], 0, 0.0, NewChecklistProgress(0, 0), false, None)

  /** `updateProgress()`; `seedCount` is the daily service's `totalSeedBooksCount`. */
  function UpdateProgress(t: Tracker, seedCount: nat): (r: Tracker)
    ensures r.readingLogs == t.readingLogs && r.isLoading == t.isLoading && r.error == t.error
    ensures r.totalReadCount == |t.readingLogs|
    ensures seedCount == 0 ==> r.progressPercent == 0.0
    ensures seedCount > 0 ==> r.progressPercent * (seedCount as real) == |t.readingLogs| as real
    ensures r.checklistProgress.readCount == |t.readingLogs| && r.checklistProgress.totalCount == seedCount
    ensures r.checklistProgress.percentComplete == r.progressPercent
  {
    var n := |t.readingLogs|;
    t.(totalReadCount := n,
       progressPercent := Ratio(n, seedCount),
       checklistProgress := NewChecklistProgress(n, seedCount))
  }

  /** `loadReadingLogs()` once the fetch has been applied on the main queue. */
  function LoadReadingLogs(t: Tracker, store: Store, seedCount: nat): (r: Tracker)
    ensures multiset(r.readingLogs) == multiset(store.logs) && NewestFirst(r.readingLogs)
    ensures r.totalReadCount == |store.logs|
    ensures !r.isLoading && r.error.None?
    ensures r == UpdateProgress(r, seedCount)
  {
    UpdateProgress(t.(readingLogs := FetchReadingLogs(store), isLoading := false, error := None), seedCount)
  }

  /**
   * `addReadingLog(for:dateFinished:notes:)`: find or create the book, add
   * a log for it (`logId` is the fresh UUID), reload. Returns the new
   * tracker state and the new store.
   */
  function AddReadingLog(t: Tracker, store: Store, seedCount: nat, book: Book,
                         dateFinished: Date, notes: Option<string>, logId: string): (r: (Tracker, Store))
    ensures |r.1.logs| == |store.logs| + 1 && r.1.logs[..|store.logs|] == store.logs
    ensures |r.1.books| >= |store.books| && r.1.books[..|store.books|] == store.books
    ensures var log := r.1.logs[|store.logs|];
      && log.dateFinished == Some(dateFinished) && log.notes == notes && log.id == logId
      && log.book.Some? && log.book.value < |r.1.books| && r.1.books[log.book.value].id == Some(book.id)
    ensures (r.1.books, r.1.logs[|store.logs|].book) == (CreateBook(store, book).0.books, Some(CreateBook(store, book).1))
    ensures r.0.totalReadCount == |store.logs| + 1
    ensures r.0 == LoadReadingLogs(t, r.1, seedCount)
    ensures r.1.monthly == store.monthly
    ensures Valid(store) ==> Valid(r.1)
  {
    var (s1, h) := CreateBook(store, book);
    var s2 := BookStore.AddReadingLog(s1, h, dateFinished, notes, logId);
    (LoadReadingLogs(t, s2, seedCount), s2)
  }

  /** The log is not the one with this id. */
  function NotId(id: string): ReadingLog -> bool {
    (log: ReadingLog) => log.id != id
  }

  /** Log ids are UUIDs: no two logs share one. */
  predicate DistinctLogIds(logs: seq<ReadingLog>) {
    forall i, j :: 0 <= i < j < |logs| ==> logs[i].id != logs[j].id
  }

  /**
   * `removeReadingLog(_:)`: the log is deleted from the store and the list
   * is reloaded.
   */
  function RemoveReadingLog(t: Tracker, store: Store, seedCount: nat, logId: string): (r: (Tracker, Store))
    ensures r.1.books == store.books && r.1.monthly == store.monthly
    ensures forall k :: 0 <= k < |r.1.logs| ==> r.1.logs[k].id != logId && r.1.logs[k] in store.logs
    ensures forall i :: 0 <= i < |store.logs| && store.logs[i].id != logId ==> store.logs[i] in r.1.logs
    ensures KeepsInOrder(r.1.logs, store.logs, NotId(logId))
    ensures r.0 == LoadReadingLogs(t, r.1, seedCount)
  {
    var s := store.(logs := Filter(store.logs, NotId(logId)));
    FilterKeepsInOrder(store.logs, NotId(logId));
    (LoadReadingLogs(t, s, seedCount), s)
  }

  /**
   * Removing by id is `remove(atOffsets:)` at the positions of the logs
   * with that id: the other logs stay, each once and in order.
   */
  lemma RemoveIsRemoveAtOffsets(t: Tracker, store: Store, seedCount: nat, logId: string)
    ensures RemoveReadingLog(t, store, seedCount, logId).1.logs
         == RemoveAtOffsets(store.logs, set i: nat | i < |store.logs| && store.logs[i].id == logId)
  {
    FilterIsRemoveAtOffsets(store.logs, NotId(logId));
    assert Failing(store.logs, NotId(logId)) == set i: nat | i < |store.logs| && store.logs[i].id == logId;
  }

  /** With distinct ids, removing the log of one id drops exactly one entry. */
  lemma {:induction false} RemoveUniqueId(logs: seq<ReadingLog>, k: nat)
    requires DistinctLogIds(logs) && k < |logs|
    ensures |Filter(logs, NotId(logs[k].id))| == |logs| - 1
    decreases |logs|
  {
    var p := NotId(logs[k].id);
    if k == 0 {
      assert forall i :: 0 <= i < |logs[1..]| ==> p(logs[1..][i]) by {
        forall i | 0 <= i < |logs[1..]|
          ensures p(logs[1..][i])
        {
          assert logs[1..][i] == logs[i + 1];
        }
      }
      FilterKeepsAll(logs[1..], p);
    } else {
      assert DistinctLogIds(logs[1..]) by {
        forall i, j | 0 <= i < j < |logs[1..]|
          ensures logs[1..][i].id != logs[1..][j].id
        {
          assert logs[1..][i] == logs[i + 1] && logs[1..][j] == logs[j + 1];
        }
      }
      assert logs[1..][k - 1] == logs[k];
      RemoveUniqueId(logs[1..], k - 1);
      assert p(logs[0]);
    }
  }

  /** Adding then reloading grows the count by one; removing a present log shrinks it by one. */
  lemma AddAndRemoveCounts(t: Tracker, store: Store, seedCount: nat, book: Book,
                           dateFinished: Date, notes: Option<string>, logId: string, k: nat)
    requires DistinctLogIds(store.logs) && k < |store.logs|
    ensures AddReadingLog(t, store, seedCount, book, dateFinished, notes, logId).0.totalReadCount
         == |store.logs| + 1
    ensures RemoveReadingLog(t, store, seedCount, store.logs[k].id).0.totalReadCount
         == |store.logs| - 1
  {
    RemoveUniqueId(store.logs, k);
  }

  /**
   * `isBookRead(_:)`: as a side effect the book is created in the store;
   * the answer is whether some log points at that stored book.
   */
  function IsBookRead(store: Store, book: Book): (r: (Store, bool))
    ensures r.0 == CreateBook(store, book).0
    ensures r.1 <==> exists i :: 0 <= i < |store.logs| && store.logs[i].book == Some(CreateBook(store, book).1)
  {
    var (s1, h) := CreateBook(store, book);
    HasLogsIffLogged(s1, h);
    (s1, |FetchReadingLogsFor(s1, h)| > 0)
  }

  /** A book's fetched log list is non-empty exactly when some log refers to it. */
  lemma HasLogsIffLogged(s: Store, h: Handle)
    ensures |FetchReadingLogsFor(s, h)| > 0 <==> exists i :: 0 <= i < |s.logs| && s.logs[i].book == Some(h)
  {
    var f := Filter(s.logs, ForBook(h));
    FilterNonEmpty(s.logs, ForBook(h));
    assert |FetchReadingLogsFor(s, h)| == |f| by {
      assert |multiset(FetchReadingLogsFor(s, h))| == |multiset(f)|;
    }
  }

  /** After logging a book, the book counts as read, whoever asks with the same id. */
  lemma ReadAfterAdd(t: Tracker, store: Store, seedCount: nat, book: Book, again: Book,
                     dateFinished: Date, notes: Option<string>, logId: string)
    requires SameBook(book, again)
    ensures IsBookRead(AddReadingLog(t, store, seedCount, book, dateFinished, notes, logId).1, again).1
  {
    var (s1, h) := CreateBook(store, book);
    var s2 := AddReadingLog(t, store, seedCount, book, dateFinished, notes, logId).1;
    assert s2.books == s1.books;
    CreateBookIdempotent(store, book, again);
    assert CreateBook(s2, again).1 == h by {
      assert CreateBook(s1, again) == (s1, h);
      assert FirstIndex(s2.books, HasId(again.id)) == FirstIndex(s1.books, HasId(again.id));
    }
    assert s2.logs[|store.logs|].book == Some(h);
  }

  /** A store with no logs reports every book unread. */
  lemma NothingReadWithoutLogs(store: Store, book: Book)
    requires |store.logs| == 0
    ensures !IsBookRead(store, book).1
  {
  }

  /** `getReadingLogs(for:)`: creates the book, then its logs newest first. */
  function GetReadingLogs(store: Store, book: Book): (r: (Store, seq<ReadingLog>))
    ensures r.0 == CreateBook(store, book).0
    ensures NewestFirst(r.1)
    ensures forall k :: 0 <= k < |r.1| ==> r.1[k].book == Some(CreateBook(store, book).1)
    ensures |r.1| > 0 <==> IsBookRead(store, book).1
  {
    var (s1, h) := CreateBook(store, book);
    var logs := FetchReadingLogsFor(s1, h);
    assert |logs| > 0 <==> IsBookRead(store, book).1;
    (s1, logs)
  }

  /** `hasReadBooks`. */
  predicate HasReadBooks(t: Tracker) {
    t.totalReadCount > 0
  }

  /** After a reload, the tracker has read books exactly when the store holds a log. */
  lemma HasReadBooksAfterLoad(t: Tracker, store: Store, seedCount: nat)
    ensures HasReadBooks(LoadReadingLogs(t, store, seedCount)) <==> |store.logs| > 0
  {
  }

  /** `recentReads`: the first five logs of the newest-first list. */
  function RecentReads(t: Tracker): (r: seq<ReadingLog>)
    ensures |r| <= 5
    ensures |r| == if |t.readingLogs| < 5 then |t.readingLogs| else 5
    ensures r == t.readingLogs[..|r|]
  {
    Take(t.readingLogs, 5)
  }

  /** The log has a finish date at or after `start`. */
  function FinishedSince(start: Date): ReadingLog -> bool {
    (log: ReadingLog) => log.dateFinished.Some? && log.dateFinished.value >= start
  }

  /**
   * `getBooksReadThisMonth()` and `getBooksReadThisYear()`: the loaded logs
   * finished at or after `start`, which is the start of the current
   * calendar month or year. Undated logs are dropped; there is no upper
   * bound.
   */
  function BooksReadSince(t: Tracker, start: Date): (r: seq<ReadingLog>)
    ensures forall k :: 0 <= k < |r| ==> r[k].dateFinished.Some? && r[k].dateFinished.value >= start
    ensures KeepsInOrder(r, t.readingLogs, FinishedSince(start))
  {
    FilterKeepsInOrder(t.readingLogs, FinishedSince(start));
    Filter(t.readingLogs, FinishedSince(start))
  }

  /**
   * Adding a log finished before `start` leaves the list unchanged; adding
   * one finished at or after it appends it.
   */
  lemma BooksReadSinceAppend(t: Tracker, start: Date, log: ReadingLog)
    ensures BooksReadSince(t.(readingLogs := t.readingLogs + [log]), start)
         == BooksReadSince(t, start) + (if FinishedSince(start)(log) then [log] else [])
  {
    FilterAppend(t.readingLogs, [log], FinishedSince(start));
  }

  /**
   * A later start keeps a sub-list: with the year starting no later than
   * the month, this month's logs are this year's logs filtered again, in
   * the same order.
   */
  lemma MonthWithinYear(t: Tracker, startOfYear: Date, startOfMonth: Date)
    requires startOfYear <= startOfMonth
    ensures BooksReadSince(t, startOfMonth)
         == Filter(BooksReadSince(t, startOfYear), FinishedSince(startOfMonth))
    ensures |BooksReadSince(t, startOfMonth)| <= |BooksReadSince(t, startOfYear)|
  {
    FilterOfFilter(t.readingLogs, FinishedSince(startOfYear), FinishedSince(startOfMonth));
  }
}
