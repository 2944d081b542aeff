/**
 * The logic inside `DiscoverView`: the monthly challenge card's "already
 * read" check and "Mark as Read" button, today's pick section, the size of
 * the recommendation and popular rows, and `SeedBooksLoader`. The tracker's
 * logs point at stored books through the store. The shuffle is a parameter
 * (any permutation of the pool), as are the fresh `UUID()`s and the clock.
 */
module Discover {
  import opened Common
  import opened Books
  import opened BookStore
  import ReadingTracker
  import DailyBooks

  /** Every log's book handle resolves in the store. */
  predicate Resolvable(store: Store, logs: seq<ReadingLog>) {
    forall i :: 0 <= i < |logs| && logs[i].book.Some? ==> logs[i].book.value < |store.books|
  }

  /**
   * `log.book?.toBook().title`: no book gives nil; a stored book gives its
   * title or "Unknown Title".
   */
  function LoggedTitle(store: Store, log: ReadingLog): (r: Option<string>)
    requires log.book.Some? ==> log.book.value < |store.books|
    ensures r.None? <==> log.book.None?
    ensures r.Some? ==> r.value == ToBook(store.books[log.book.value], "").title
  {
    match log.book
    case None => None
    case Some(h) => Some(store.books[h].title.GetOr(UnknownTitle))
  }

  /** `MonthlyBookDiscoverCard.isBookRead`: some log's book has the pick's title. */
  predicate MonthlyCardRead(store: Store, logs: seq<ReadingLog>, mb: MonthlyBook)
    requires Resolvable(store, logs)
  {
    exists i :: 0 <= i < |logs| && LoggedTitle(store, logs[i]) == mb.title
  }

  /** The matching is by title alone: any logged book with the pick's title makes the card read. */
  lemma TitleMatchIgnoresId(store: Store, logs: seq<ReadingLog>, mb: MonthlyBook, i: nat)
    requires Resolvable(store, logs) && i < |logs| && logs[i].book.Some?
    requires mb.title == store.books[logs[i].book.value].title && mb.title.Some?
    ensures MonthlyCardRead(store, logs, mb)
  {
    assert LoggedTitle(store, logs[i]) == mb.title;
  }

  /** The temporary book `markAsRead()` logs: a fresh id and the pick's fields with defaults. */
  function CardBook(mb: MonthlyBook, newId: string): (b: Book)
    ensures b.id == newId && b.title == mb.title.GetOr(UnknownTitle) && b.authors == [mb.author.GetOr(UnknownAuthor)]
    ensures b.description == mb.bookDescription && b.thumbnail == mb.coverURL
    ensures b.pageCount.None? && b.categories.None? && b.ageRange.None?
  {
    Book(newId, mb.title.GetOr(UnknownTitle), [mb.author.GetOr(UnknownAuthor)],
         mb.bookDescription, mb.coverURL, None, None, None)
  }

  /**
   * The "Mark as Read" button: when the card is already read nothing
   * happens; otherwise `markAsRead()` logs the card's book, finished now.
   */
  function MarkButton(t: ReadingTracker.Tracker, store: Store, seedCount: nat, mb: MonthlyBook,
                      newId: string, logId: string, now: Date): (r: (ReadingTracker.Tracker, Store))
    requires Valid(store) && Resolvable(store, t.readingLogs)
    ensures MonthlyCardRead(store, t.readingLogs, mb) ==> r == (t, store)
    ensures !MonthlyCardRead(store, t.readingLogs, mb) ==>
      && |r.1.logs| == |store.logs| + 1
      && r.1.logs[|store.logs|].dateFinished == Some(now) && r.1.logs[|store.logs|].notes.None?
      && r.1.logs[|store.logs|].id == logId
      && r.1.logs[|store.logs|].book == Some(CreateBook(store, CardBook(mb, newId)).1)
      && r.1.books == CreateBook(store, CardBook(mb, newId)).0.books
      && r.1.books[CreateBook(store, CardBook(mb, newId)).1].id == Some(newId)
      && r.0 == ReadingTracker.LoadReadingLogs(t, r.1, seedCount)
    ensures Valid(r.1) && Resolvable(r.1, r.0.readingLogs)
  {
    if MonthlyCardRead(store, t.readingLogs, mb) then (t, store)
    else
      var r := ReadingTracker.AddReadingLog(t, store, seedCount, CardBook(mb, newId), now, None, logId);
      LoadedResolvable(r.1, r.0.readingLogs);
      r
  }

  /** Logs read back from a valid store resolve in it. */
  lemma LoadedResolvable(store: Store, logs: seq<ReadingLog>)
    requires Valid(store) && multiset(logs) == multiset(store.logs)
    ensures Resolvable(store, logs)
  {
    forall i | 0 <= i < |logs| && logs[i].book.Some?
      ensures logs[i].book.value < |store.books|
    {
      assert logs[i] in multiset(store.logs);
      var j :| 0 <= j < |store.logs| && store.logs[j] == logs[i];
    }
  }

  /** The log just added, as the reloaded tracker lists it. */
  lemma NewLogListed(t: ReadingTracker.Tracker, store: Store, seedCount: nat, b: Book,
                     now: Date, logId: string)
    ensures var r := ReadingTracker.AddReadingLog(t, store, seedCount, b, now, None, logId);
      r.1.logs[|store.logs|] in r.0.readingLogs
  {
    var r := ReadingTracker.AddReadingLog(t, store, seedCount, b, now, None, logId);
    assert r.1.logs[|store.logs|] in multiset(r.1.logs);
  }

  /** Marking a titled pick as read (with a fresh book id) makes the card read. */
  lemma MarkTitledThenRead(t: ReadingTracker.Tracker, store: Store, seedCount: nat, mb: MonthlyBook,
                           newId: string, logId: string, now: Date)
    requires Valid(store) && Resolvable(store, t.readingLogs)
    requires mb.title.Some? && !Exists(store.books, HasId(newId))
    ensures var r := MarkButton(t, store, seedCount, mb, newId, logId, now);
      MonthlyCardRead(r.1, r.0.readingLogs, mb)
  {
    var r := MarkButton(t, store, seedCount, mb, newId, logId, now);
    if !MonthlyCardRead(store, t.readingLogs, mb) {
      var b := CardBook(mb, newId);
      NewLogListed(t, store, seedCount, b, now, logId);
      var log := r.1.logs[|store.logs|];
      var i :| 0 <= i < |r.0.readingLogs| && r.0.readingLogs[i] == log;
      assert r.1.books[log.book.value] == NewStoredBook(b);
      assert LoggedTitle(r.1, r.0.readingLogs[i]) == mb.title;
    }
  }

  /** Every log points at a book. */
  predicate AllLogsHaveBooks(logs: seq<ReadingLog>) {
    forall i :: 0 <= i < |logs| ==> logs[i].book.Some?
  }

  /**
   * As written, a pick without a title is never shown as read once every log
   * has a book: the logged book's title is "Unknown Title", which is not nil.
   * So the button stays enabled and each tap logs the pick again.
   */
  lemma UntitledPickNeverRead(t: ReadingTracker.Tracker, store: Store, seedCount: nat, mb: MonthlyBook,
                              newId: string, logId: string, now: Date)
    requires Valid(store) && Resolvable(store, t.readingLogs)
    requires mb.title.None? && AllLogsHaveBooks(t.readingLogs) && AllLogsHaveBooks(store.logs)
    ensures var r := MarkButton(t, store, seedCount, mb, newId, logId, now);
      && |r.1.logs| == |store.logs| + 1
      && !MonthlyCardRead(r.1, r.0.readingLogs, mb)
  {
    var r := MarkButton(t, store, seedCount, mb, newId, logId, now);
    assert !MonthlyCardRead(store, t.readingLogs, mb);
    var logs := r.0.readingLogs;
    forall i | 0 <= i < |logs|
      ensures logs[i].book.Some?
    {
      assert logs[i] in multiset(r.1.logs);
      var j :| 0 <= j < |r.1.logs| && r.1.logs[j] == logs[i];
      if j < |store.logs| {
        assert r.1.logs[j] == store.logs[j];
      }
    }
  }

  /** The corrected check: compare with the title the logged book would carry. */
  predicate MonthlyCardReadFixed(store: Store, logs: seq<ReadingLog>, mb: MonthlyBook)
    requires Resolvable(store, logs)
  {
    exists i :: 0 <= i < |logs| && LoggedTitle(store, logs[i]) == Some(mb.title.GetOr(UnknownTitle))
  }

  /** The button guarded by the corrected check. */
  function MarkButtonFixed(t: ReadingTracker.Tracker, store: Store, seedCount: nat, mb: MonthlyBook,
                           newId: string, logId: string, now: Date): (r: (ReadingTracker.Tracker, Store))
    requires Valid(store) && Resolvable(store, t.readingLogs)
    ensures MonthlyCardReadFixed(store, t.readingLogs, mb) ==> r == (t, store)
    ensures !MonthlyCardReadFixed(store, t.readingLogs, mb) ==>
      r == ReadingTracker.AddReadingLog(t, store, seedCount, CardBook(mb, newId), now, None, logId)
    ensures Valid(r.1) && Resolvable(r.1, r.0.readingLogs)
  {
    if MonthlyCardReadFixed(store, t.readingLogs, mb) then (t, store)
    else
      var r := ReadingTracker.AddReadingLog(t, store, seedCount, CardBook(mb, newId), now, None, logId);
      LoadedResolvable(r.1, r.0.readingLogs);
      r
  }

  /** With the corrected check every pick, titled or not, reads as read after one tap, and a second tap does nothing. */
  lemma MarkFixedThenRead(t: ReadingTracker.Tracker, store: Store, seedCount: nat, mb: MonthlyBook,
                          newId: string, newId2: string, logId: string, logId2: string, now: Date, later: Date)
    requires Valid(store) && Resolvable(store, t.readingLogs)
    requires !Exists(store.books, HasId(newId))
    ensures var r := MarkButtonFixed(t, store, seedCount, mb, newId, logId, now);
      && MonthlyCardReadFixed(r.1, r.0.readingLogs, mb)
      && MarkButtonFixed(r.0, r.1, seedCount, mb, newId2, logId2, later) == r
  {
    var r := MarkButtonFixed(t, store, seedCount, mb, newId, logId, now);
    if !MonthlyCardReadFixed(store, t.readingLogs, mb) {
      var b := CardBook(mb, newId);
      NewLogListed(t, store, seedCount, b, now, logId);
      var log := r.1.logs[|store.logs|];
      var i :| 0 <= i < |r.0.readingLogs| && r.0.readingLogs[i] == log;
      assert r.1.books[log.book.value] == NewStoredBook(b);
      assert LoggedTitle(r.1, r.0.readingLogs[i]) == Some(mb.title.GetOr(UnknownTitle));
    }
  }

  /** What today's pick section shows. */
  datatype PickSection = LoadingPick | PickCard(book: Book, isRead: bool) | NoPick

  /**
   * Today's pick: a spinner while loading, otherwise the daily book with
   * the tracker's `isBookRead`, which creates the book in the store.
   */
  function TodaysPick(daily: DailyBooks.DailyState, store: Store): (r: (PickSection, Store))
    ensures daily.isLoading ==> r == (LoadingPick, store)
    ensures !daily.isLoading && daily.dailyBook.None? ==> r == (NoPick, store)
    ensures !daily.isLoading && daily.dailyBook.Some? ==>
      r.0 == PickCard(daily.dailyBook.value, ReadingTracker.IsBookRead(store, daily.dailyBook.value).1)
      && r.1 == CreateBook(store, daily.dailyBook.value).0
  {
    if daily.isLoading then (LoadingPick, store)
    else
      match daily.dailyBook
      case None => (NoPick, store)
      case Some(b) =>
        var (s1, read) := ReadingTracker.IsBookRead(store, b);
        (PickCard(b, read), s1)
  }

  /** The card's "mark as read" logs the daily book, finished now, without notes. */
  function MarkTodaysPick(t: ReadingTracker.Tracker, store: Store, seedCount: nat, b: Book,
                          logId: string, now: Date): (r: (ReadingTracker.Tracker, Store))
    ensures |r.1.logs| == |store.logs| + 1
    ensures ReadingTracker.IsBookRead(r.1, b).1
    ensures TodaysPick(DailyBooks.DailyState([b], Some(b), false, None), r.1).0 == PickCard(b, true)
  {
    ReadingTracker.ReadAfterAdd(t, store, seedCount, b, b, now, None, logId);
    ReadingTracker.AddReadingLog(t, store, seedCount, b, now, None, logId)
  }

  /** `SeedBooksLoader.loadSeedBooks()`: the decoded pool, or nothing on any failure. */
  function LoadSeedBooks(res: DailyBooks.SeedResource): (r: seq<Book>)
    ensures res.Decoded? ==> r == res.books
    ensures !res.Decoded? ==> r == []
  {
    match res
    case Decoded(books) => books
    case _ => []
  }

  /** Unlike the daily service, this loader has no built-in fallback pool. */
  lemma LoaderHasNoFallback(res: DailyBooks.SeedResource)
    ensures res.Decoded? ==> LoadSeedBooks(res) == DailyBooks.SeedsFrom(res)
    ensures !res.Decoded? ==> |LoadSeedBooks(res)| == 0 && |DailyBooks.SeedsFrom(res)| == 5
  {
  }

  /** `Array(allBooks.shuffled().prefix(n))`; `shuffled` is any permutation of the pool. */
  function ShuffledPrefix(pool: seq<Book>, shuffled: seq<Book>, n: nat): (r: seq<Book>)
    requires multiset(shuffled) == multiset(pool)
    ensures |r| == if |pool| < n then |pool| else n
    ensures multiset(r) <= multiset(pool)
    ensures forall k :: 0 <= k < |r| ==> r[k] in pool
  {
    var m := if |shuffled| < n then |shuffled| else n;
    assert shuffled == shuffled[..m] + shuffled[m..];
    assert multiset(shuffled) == multiset(shuffled[..m]) + multiset(shuffled[m..]);
    assert |multiset(shuffled)| == |multiset(pool)|;
    forall k | 0 <= k < m
      ensures shuffled[..m][k] in pool
    {
      assert shuffled[..m][k] in multiset(shuffled);
    }
    shuffled[..m]
  }

  /** The recommendations row: at most 5 books of the pool. */
  function Recommendations(pool: seq<Book>, shuffled: seq<Book>): (r: seq<Book>)
    requires multiset(shuffled) == multiset(pool)
    ensures |r| <= 5 && multiset(r) <= multiset(pool)
  {
    ShuffledPrefix(pool, shuffled, 5)
  }

  /** The popular row: at most 4 books of the pool. */
  function PopularBooks(pool: seq<Book>, shuffled: seq<Book>): (r: seq<Book>)
    requires multiset(shuffled) == multiset(pool)
    ensures |r| <= 4 && multiset(r) <= multiset(pool)
  {
    ShuffledPrefix(pool, shuffled, 4)
  }

  /** No book occurs twice. */
  predicate NoRepeats(s: seq<Book>) {
    forall i, j :: 0 <= i < j < |s| ==> s[i] != s[j]
  }

  /** A pool without repeats gives rows without repeats. */
  lemma RowsHaveNoRepeats(pool: seq<Book>, shuffled: seq<Book>, n: nat)
    requires multiset(shuffled) == multiset(pool) && NoRepeats(pool)
    ensures NoRepeats(ShuffledPrefix(pool, shuffled, n))
  {
    var r := ShuffledPrefix(pool, shuffled, n);
    forall i, j | 0 <= i < j < |r|
      ensures r[i] != r[j]
    {
      if r[i] == r[j] {
        var x := r[i];
        assert r == r[..i] + [x] + r[i + 1..];
        assert r[i + 1..] == r[i + 1..j] + [x] + r[j + 1..];
        assert multiset(r)[x] >= 2;
        OnceInPool(pool, x);
        assert false;
      }
    }
  }

  /** In a pool without repeats a book occurs at most once. */
  lemma {:induction false} OnceInPool(pool: seq<Book>, x: Book)
    requires NoRepeats(pool)
    ensures multiset(pool)[x] <= 1
  {
    if |pool| > 0 {
      assert pool == [pool[0]] + pool[1..];
      OnceInPool(pool[1..], x);
      if pool[0] == x {
        assert x !in pool[1..];
      }
    }
  }
}
