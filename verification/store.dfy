/**
 * The persistent store behind the tracker (`CoreDataManager`): a table of
 * books, a table of reading logs and a table of monthly picks. The Core Data
 * context is a value here; every operation returns the new store. A stored
 * book is identified by its position in the book table (its `Handle`), which
 * is what a log's `book` relationship points at.
 */
module BookStore {
  import opened Common
  import opened Books

  /** A point in time (Foundation's `Date`), in seconds. */
  type Date = int

  /** The identity of a stored book: its index in `Store.books`. */
  type Handle = nat

  datatype ReadingLog = ReadingLog(
    id: string,
    dateFinished: Option<Date>,
    notes: Option<string>,
    book: Option<Handle>)

  datatype MonthlyBook = MonthlyBook(
    id: Option<string>,
    title: Option<string>,
    author: Option<string>,
    coverURL: Option<string>,
    month: Option<string>,
    year: int,
    bookDescription: Option<string>)

  datatype Store = Store(
    books: seq<StoredBook>,
    logs: seq<ReadingLog>,
    monthly: seq<MonthlyBook>)

  /** Every log's book relationship points at a stored book. */
  predicate Valid(s: Store) {
    forall i :: 0 <= i < |s.logs| && s.logs[i].book.Some? ==> s.logs[i].book.value < |s.books|
  }

  // ---------------------------------------------------------------- books

  /** The stored book has the given id. */
  function HasId(id: string): StoredBook -> bool {
    (sb: StoredBook) => sb.id == Some(id)
  }

  /** The record `createBook` inserts: a missing page count is stored as 0. */
  function NewStoredBook(b: Book): StoredBook {
    StoredBook(
      Some(b.id), Some(b.title), Some(b.authors), b.description, b.thumbnail,
      b.pageCount.GetOr(0), b.categories, b.ageRange)
  }

  /**
   * `createBook(from:)`: the first stored book with the same id if there is
   * one, otherwise a new record appended to the book table.
   */
  function CreateBook(s: Store, b: Book): (r: (Store, Handle))
    ensures r.1 < |r.0.books| && r.0.books[r.1].id == Some(b.id)
    ensures r.0.logs == s.logs && r.0.monthly == s.monthly
    ensures |r.0.books| >= |s.books| && r.0.books[..|s.books|] == s.books
    ensures Exists(s.books, HasId(b.id)) ==> r.0 == s
    ensures Exists(s.books, HasId(b.id)) ==> forall j :: 0 <= j < r.1 ==> s.books[j].id != Some(b.id)
    ensures !Exists(s.books, HasId(b.id)) ==> |r.0.books| == |s.books| + 1 && r.1 == |s.books|
    ensures Valid(s) ==> Valid(r.0)
  {
    match FirstIndex(s.books, HasId(b.id))
    case Some(i) => (s, i)
    case None => (s.(books := s.books + [NewStoredBook(b)]), |s.books|)
  }

  /** Creating the same book (by id) twice leaves one record: the second call finds the first. */
  lemma CreateBookIdempotent(s: Store, b: Book, again: Book)
    requires SameBook(b, again)
    ensures CreateBook(CreateBook(s, b).0, again) == CreateBook(s, b)
  {
    var (s1, h) := CreateBook(s, b);
    var h2 := FirstIndex(s1.books, HasId(again.id));
    assert HasId(again.id)(s1.books[h]);
    if !Exists(s.books, HasId(b.id)) {
      assert forall j :: 0 <= j < |s.books| ==> !HasId(b.id)(s.books[j]);
      assert h2 == Some(h);
    }
  }

  /**
   * A freshly created record converts back to the same book, except that a
   * page count that is missing or not positive comes back as nil.
   */
  lemma CreateBookRoundTrip(s: Store, b: Book, freshId: string)
    requires !Exists(s.books, HasId(b.id))
    ensures ToBook(CreateBook(s, b).0.books[CreateBook(s, b).1], freshId)
         == b.(pageCount := if b.pageCount.Some? && b.pageCount.value > 0 then b.pageCount else None)
  {
  }

  // ---------------------------------------------------------------- logs

  /**
   * `addReadingLog(for:dateFinished:notes:)`. `id` stands for the fresh
   * `UUID()`; the book is an existing stored book.
   */
  function AddReadingLog(s: Store, book: Handle, dateFinished: Date, notes: Option<string>, id: string): (r: Store)
    requires book < |s.books|
    ensures r.books == s.books && r.monthly == s.monthly
    ensures |r.logs| == |s.logs| + 1 && r.logs[..|s.logs|] == s.logs
    ensures r.logs[|s.logs|].book == Some(book) && r.logs[|s.logs|].dateFinished == Some(dateFinished)
    ensures r.logs[|s.logs|].notes == notes && r.logs[|s.logs|].id == id
    ensures Valid(s) ==> Valid(r)
  {
    s.(logs := s.logs + [ReadingLog(id, Some(dateFinished), notes, Some(book))])
  }

  /** `a` may precede `b` when sorting by `dateFinished` descending; a missing date sorts last. */
  predicate NotOlder(a: Option<Date>, b: Option<Date>) {
    b.None? || (a.Some? && a.value >= b.value)
  }

  function InOrder(a: ReadingLog, b: ReadingLog): bool {
    NotOlder(a.dateFinished, b.dateFinished)
  }

  /** Newest first: every log is at least as recent as every later one. */
  predicate NewestFirst(logs: seq<ReadingLog>) {
    forall i, j :: 0 <= i < j < |logs| ==> InOrder(logs[i], logs[j])
  }

  lemma NewestFirstIsPairwise(logs: seq<ReadingLog>)
    ensures NewestFirst(logs) <==> Pairwise(logs, InOrder)
  {
  }

  lemma NewestFirstTail(logs: seq<ReadingLog>)
    requires NewestFirst(logs) && |logs| > 0
    ensures NewestFirst(logs[1..])
  {
    forall i, j | 0 <= i < j < |logs[1..]|
      ensures InOrder(logs[1..][i], logs[1..][j])
    {
      assert logs[1..][i] == logs[i + 1] && logs[1..][j] == logs[j + 1];
    }
  }

  /** Inserts `x` before the first log it may precede; among equal dates `x` goes first. */
  function InsertLog(x: ReadingLog, sorted: seq<ReadingLog>): (r: seq<ReadingLog>)
    requires NewestFirst(sorted)
    ensures NewestFirst(r)
    ensures |r| == |sorted| + 1
    ensures multiset(r) == multiset(sorted) + multiset{x}
    decreases |sorted|
  {
    if |sorted| == 0 || InOrder(x, sorted[0]) then
      [x] + sorted
    else
      NewestFirstTail(sorted);
      var rest := InsertLog(x, sorted[1..]);
      assert sorted == [sorted[0]] + sorted[1..];
      assert forall k :: 0 <= k < |rest| ==> InOrder(sorted[0], rest[k]) by {
        forall k | 0 <= k < |rest|
          ensures InOrder(sorted[0], rest[k])
        {
          assert rest[k] in multiset(rest);
          if rest[k] != x {
            assert rest[k] in multiset(sorted[1..]);
            var m :| 0 <= m < |sorted[1..]| && sorted[1..][m] == rest[k];
            assert sorted[m + 1] == rest[k];
          }
        }
      }
      [sorted[0]] + rest
  }

  /**
   * The order a fetch sorted by `dateFinished` descending returns: a stable
   * insertion sort, so logs with equal dates keep their table order.
   */
  function SortNewestFirst(logs: seq<ReadingLog>): (r: seq<ReadingLog>)
    ensures NewestFirst(r)
    ensures |r| == |logs|
    ensures multiset(r) == multiset(logs)
    decreases |logs|
  {
    if |logs| == 0 then []
    else
      assert logs == [logs[0]] + logs[1..];
      InsertLog(logs[0], SortNewestFirst(logs[1..]))
  }

  /** `fetchReadingLogs()`: every log, newest first. */
  function FetchReadingLogs(s: Store): (r: seq<ReadingLog>)
    ensures NewestFirst(r)
    ensures multiset(r) == multiset(s.logs)
  {
    SortNewestFirst(s.logs)
  }

  /** The log belongs to the given stored book. */
  function ForBook(h: Handle): ReadingLog -> bool {
    (log: ReadingLog) => log.book == Some(h)
  }

  /**
   * `fetchReadingLogs(for:)`: the book's logs, newest first, which are the
   * full newest-first list with the other books' logs taken out.
   */
  function FetchReadingLogsFor(s: Store, h: Handle): (r: seq<ReadingLog>)
    ensures NewestFirst(r)
    ensures forall k :: 0 <= k < |r| ==> r[k].book == Some(h)
    ensures multiset(r) == multiset(Filter(s.logs, ForBook(h)))
    ensures r == Filter(FetchReadingLogs(s), ForBook(h))
  {
    FilterOfSort(s.logs, ForBook(h));
    SortNewestFirst(Filter(s.logs, ForBook(h)))
  }

  lemma NewestFirstFilter(sorted: seq<ReadingLog>, p: ReadingLog -> bool)
    requires NewestFirst(sorted)
    ensures NewestFirst(Filter(sorted, p))
  {
    NewestFirstIsPairwise(sorted);
    FilterPairwise(sorted, p, InOrder);
    NewestFirstIsPairwise(Filter(sorted, p));
  }

  /** Inserting then filtering is filtering then inserting (if `x` passes). */
  lemma {:induction false} FilterInsert(x: ReadingLog, sorted: seq<ReadingLog>, p: ReadingLog -> bool)
    requires NewestFirst(sorted)
    ensures NewestFirst(Filter(sorted, p))
    ensures Filter(InsertLog(x, sorted), p)
         == if p(x) then InsertLog(x, Filter(sorted, p)) else Filter(sorted, p)
    decreases |sorted|
  {
    NewestFirstFilter(sorted, p);
    var f := Filter(sorted, p);
    if |sorted| == 0 || InOrder(x, sorted[0]) {
      assert ([x] + sorted)[1..] == sorted;
      if p(x) && |f| > 0 {
        var k :| 0 <= k < |sorted| && sorted[k] == f[0];
        assert InOrder(sorted[0], sorted[k]) || k == 0;
      }
    } else {
      NewestFirstTail(sorted);
      FilterInsert(x, sorted[1..], p);
      var rest := InsertLog(x, sorted[1..]);
      assert ([sorted[0]] + rest)[1..] == rest;
      var ft := Filter(sorted[1..], p);
      if p(sorted[0]) {
        assert f == [sorted[0]] + ft;
        if p(x) {
          NewestFirstFilter(sorted[1..], p);
          assert ([sorted[0]] + ft)[1..] == ft;
        }
      }
    }
  }

  /** Sorting commutes with filtering: both give the same sequence. */
  lemma {:induction false} FilterOfSort(logs: seq<ReadingLog>, p: ReadingLog -> bool)
    ensures Filter(SortNewestFirst(logs), p) == SortNewestFirst(Filter(logs, p))
    decreases |logs|
  {
    if |logs| > 0 {
      var tail := SortNewestFirst(logs[1..]);
      FilterInsert(logs[0], tail, p);
      FilterOfSort(logs[1..], p);
      var ft := Filter(logs[1..], p);
      if p(logs[0]) {
        assert ([logs[0]] + ft)[1..] == ft;
      }
    }
  }

  /** Adding a log adds exactly that log to the fetched list. */
  lemma FetchAfterAdd(s: Store, book: Handle, dateFinished: Date, notes: Option<string>, id: string)
    requires book < |s.books|
    ensures multiset(FetchReadingLogs(AddReadingLog(s, book, dateFinished, notes, id)))
         == multiset(FetchReadingLogs(s)) + multiset{ReadingLog(id, Some(dateFinished), notes, Some(book))}
  {
  }

  // ------------------------------------------------------- monthly books

  /** The predicate `month == %@ AND year == %d`: a nil month never matches. */
  function InSlot(month: string, year: int): MonthlyBook -> bool {
    (m: MonthlyBook) => m.month == Some(month) && m.year == year
  }

  /** `fetchMonthlyBook(for:year:)`: the first record of that month and year. */
  function FetchMonthlyBook(s: Store, month: string, year: int): (r: Option<MonthlyBook>)
    ensures r.Some? ==> r.value in s.monthly && r.value.month == Some(month) && r.value.year == year
    ensures r.None? <==> forall i :: 0 <= i < |s.monthly| ==> !InSlot(month, year)(s.monthly[i])
  {
    var found := Filter(s.monthly, InSlot(month, year));
    if |found| == 0 then None else Some(found[0])
  }

  /**
   * `fetchCurrentMonthlyBook()`: the record for the clock's month name and
   * year, which are parameters here.
   */
  function FetchCurrentMonthlyBook(s: Store, clockMonth: string, clockYear: int): (r: Option<MonthlyBook>)
    ensures r == FetchMonthlyBook(s, clockMonth, clockYear)
    ensures r.Some? ==> r.value.month == Some(clockMonth) && r.value.year == clockYear
  {
    FetchMonthlyBook(s, clockMonth, clockYear)
  }

  function RemoveAt<T>(xs: seq<T>, i: nat): (r: seq<T>)
    requires i < |xs|
    ensures |r| == |xs| - 1
    ensures forall j :: 0 <= j < |xs| && j != i ==> xs[j] in r
  {
    var r := xs[..i] + xs[i + 1..];
    assert forall j :: 0 <= j < i ==> r[j] == xs[j];
    assert forall j :: i < j < |xs| ==> r[j - 1] == xs[j];
    r
  }

  /** The table with its first record of the slot deleted (if there is one). */
  function DeleteFirstInSlot(monthly: seq<MonthlyBook>, month: string, year: int): (r: seq<MonthlyBook>)
    ensures |r| == |monthly| - (if Exists(monthly, InSlot(month, year)) then 1 else 0)
    ensures forall i :: 0 <= i < |monthly| && !InSlot(month, year)(monthly[i]) ==> monthly[i] in r
  {
    match FirstIndex(monthly, InSlot(month, year))
    case Some(i) => RemoveAt(monthly, i)
    case None => monthly
  }

  /**
   * `setMonthlyBook(_:)`: deletes the first record of the same month (a nil
   * month is looked up as "") and year, then inserts the new record.
   */
  function SetMonthlyBook(s: Store, mb: MonthlyBook): (r: Store)
    ensures r.books == s.books && r.logs == s.logs
    ensures |r.monthly| > 0 && r.monthly[|r.monthly| - 1] == mb
    ensures forall i :: 0 <= i < |s.monthly| && !InSlot(mb.month.GetOr(""), mb.year)(s.monthly[i])
              ==> s.monthly[i] in r.monthly
    ensures |r.monthly| == |s.monthly| + (if Exists(s.monthly, InSlot(mb.month.GetOr(""), mb.year)) then 0 else 1)
  {
    s.(monthly := DeleteFirstInSlot(s.monthly, mb.month.GetOr(""), mb.year) + [mb])
  }

  /** No month and year has two records. */
  ghost predicate UniqueSlots(monthly: seq<MonthlyBook>) {
    forall month: string, year: int :: |Filter(monthly, InSlot(month, year))| <= 1
  }

  /** Deleting a record that a test rejects does not change what the test keeps. */
  lemma RemoveRejected(xs: seq<MonthlyBook>, i: nat, p: MonthlyBook -> bool)
    requires i < |xs| && !p(xs[i])
    ensures Filter(RemoveAt(xs, i), p) == Filter(xs, p)
  {
    var a, b, c := xs[..i], [xs[i]], xs[i + 1..];
    FilterDropsAll(b, p);
    assert xs == a + b + c;
    assert RemoveAt(xs, i) == a + c;
    FilterAppend3(a, b, c, p);
    FilterAppend(a, c, p);
  }

  /** Deleting the only record a test accepts leaves nothing for it. */
  lemma RemoveOnlyAccepted(xs: seq<MonthlyBook>, i: nat, p: MonthlyBook -> bool)
    requires i < |xs| && p(xs[i]) && |Filter(xs, p)| <= 1
    ensures Filter(RemoveAt(xs, i), p) == []
  {
    var a, b, c := xs[..i], [xs[i]], xs[i + 1..];
    assert Filter(b, p) == b by {
      assert b[1..] == [];
    }
    assert xs == a + b + c;
    assert RemoveAt(xs, i) == a + c;
    FilterAppend3(a, b, c, p);
    FilterAppend(a, c, p);
  }

  /** Deleting a record of one slot leaves every other slot's records as they were. */
  lemma DeleteKeepsOtherSlot(monthly: seq<MonthlyBook>, key: string, keyYear: int, month: string, year: int)
    requires key != month || keyYear != year
    ensures Filter(DeleteFirstInSlot(monthly, key, keyYear), InSlot(month, year))
         == Filter(monthly, InSlot(month, year))
  {
    match FirstIndex(monthly, InSlot(key, keyYear))
    case Some(i) =>
      assert InSlot(key, keyYear)(monthly[i]);
      RemoveRejected(monthly, i, InSlot(month, year));
    case None =>
  }

  /** With at most one record in the slot, deleting the first leaves none. */
  lemma DeleteEmptiesSlot(monthly: seq<MonthlyBook>, month: string, year: int)
    requires |Filter(monthly, InSlot(month, year))| <= 1
    ensures Filter(DeleteFirstInSlot(monthly, month, year), InSlot(month, year)) == []
  {
    var p := InSlot(month, year);
    match FirstIndex(monthly, p)
    case Some(i) =>
      RemoveOnlyAccepted(monthly, i, p);
    case None =>
      FilterDropsAll(monthly, p);
  }

  /** Writing a month's pick touches no other month's pick. */
  lemma SetMonthlyBookOtherSlot(s: Store, mb: MonthlyBook, month: string, year: int)
    requires mb.month.GetOr("") != month || mb.year != year
    ensures Filter(SetMonthlyBook(s, mb).monthly, InSlot(month, year)) == Filter(s.monthly, InSlot(month, year))
    ensures FetchMonthlyBook(SetMonthlyBook(s, mb), month, year) == FetchMonthlyBook(s, month, year)
  {
    var p := InSlot(month, year);
    var kept := DeleteFirstInSlot(s.monthly, mb.month.GetOr(""), mb.year);
    DeleteKeepsOtherSlot(s.monthly, mb.month.GetOr(""), mb.year, month, year);
    assert !p(mb);
    FilterAppend(kept, [mb], p);
  }

  /** With one record per slot, a write is read back by the next fetch of its slot. */
  lemma SetThenFetch(s: Store, mb: MonthlyBook, month: string)
    requires UniqueSlots(s.monthly)
    requires mb.month == Some(month)
    ensures Filter(SetMonthlyBook(s, mb).monthly, InSlot(month, mb.year)) == [mb]
    ensures FetchMonthlyBook(SetMonthlyBook(s, mb), month, mb.year) == Some(mb)
  {
    var p := InSlot(month, mb.year);
    assert |Filter(s.monthly, p)| <= 1;
    var kept := DeleteFirstInSlot(s.monthly, month, mb.year);
    DeleteEmptiesSlot(s.monthly, month, mb.year);
    FilterAppend(kept, [mb], p);
  }

  /** Writing a pick with a month keeps every slot down to one record. */
  lemma SetMonthlyBookKeepsUnique(s: Store, mb: MonthlyBook)
    requires UniqueSlots(s.monthly)
    requires mb.month.Some?
    ensures UniqueSlots(SetMonthlyBook(s, mb).monthly)
  {
    var r := SetMonthlyBook(s, mb);
    forall month: string, year: int
      ensures |Filter(r.monthly, InSlot(month, year))| <= 1
    {
      if mb.month.value == month && mb.year == year {
        SetThenFetch(s, mb, month);
      } else {
        SetMonthlyBookOtherSlot(s, mb, month, year);
      }
    }
  }
}
