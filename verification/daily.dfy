/**
 * `DailyBookService`: the book of the day is picked from the seed pool by
 * hashing the day's "yyyy-MM-dd" key. The hash (Swift's `String.hashValue`,
 * seeded per process) is a parameter, so "the same day gives the same book"
 * holds for one hash function, that is, within one run of the app.
 */
module DailyBooks {
  import opened Common
  import opened Text
  import opened Books

  /** `abs(seed)`; Swift's `abs` traps on `Int.min`, which the callers exclude. */
  function Abs(x: int): (r: nat)
    ensures r == x || r == -x
  {
    if x < 0 then -x else x
  }

  /** The hash of a day key is a 64-bit value other than `Int.min`, so `abs` does not trap. */
  predicate HashFits(hash: string -> int, dayKey: string) {
    MinInt64 < hash(dayKey) <= MaxInt64
  }

  /** `abs(seed) % count`: always a valid index into a pool of `count` books. */
  function PickIndex(seed: int, count: nat): (i: nat)
    requires count > 0
    ensures i < count
    ensures (seed >= 0 ==> i == seed % count) && (seed < 0 ==> i == (-seed) % count)
  {
    Abs(seed) % count
  }

  /**
   * `getBookForDate(_:)`: nil for an empty pool (checked before hashing),
   * otherwise the book at the hashed index.
   */
  function GetBookForDate(pool: seq<Book>, hash: string -> int, dayKey: string): (r: Option<Book>)
    requires |pool| > 0 ==> HashFits(hash, dayKey)
    ensures r.None? <==> |pool| == 0
    ensures r.Some? ==> r.value in pool
    ensures r.Some? ==> r.value == pool[PickIndex(hash(dayKey), |pool|)]
  {
    if |pool| == 0 then None
    else Some(pool[PickIndex(hash(dayKey), |pool|)])
  }

  /**
   * The book depends on the day key only through its hash: two keys that
   * hash alike, in particular two moments of one day (which format to the
   * same key), get the same book.
   */
  lemma SameHashSameBook(pool: seq<Book>, hash: string -> int, day1: string, day2: string)
    requires |pool| > 0 && HashFits(hash, day1)
    requires hash(day1) == hash(day2)
    ensures GetBookForDate(pool, hash, day1).Some?
    ensures GetBookForDate(pool, hash, day1) == GetBookForDate(pool, hash, day2)
  {
  }

  /** No book appears twice in the pool. */
  predicate DistinctBooks(pool: seq<Book>) {
    forall i, j :: 0 <= i < j < |pool| ==> pool[i] != pool[j]
  }

  /**
   * In a pool without repeats, two days get the same book exactly when the
   * absolute values of their hashes leave the same remainder modulo the
   * pool size.
   */
  lemma SameBookIffSameRemainder(pool: seq<Book>, hash: string -> int, day1: string, day2: string)
    requires |pool| > 0 && HashFits(hash, day1) && HashFits(hash, day2)
    requires DistinctBooks(pool)
    ensures GetBookForDate(pool, hash, day1) == GetBookForDate(pool, hash, day2)
        <==> Abs(hash(day1)) % |pool| == Abs(hash(day2)) % |pool|
  {
    var i1 := PickIndex(hash(day1), |pool|);
    var i2 := PickIndex(hash(day2), |pool|);
    if i1 != i2 {
      if i1 < i2 {
        assert pool[i1] != pool[i2];
      } else {
        assert pool[i2] != pool[i1];
      }
    }
  }

  /** Where the bundled "SeedBooks.json" resource comes from. */
  datatype SeedResource = Missing | Undecodable | Decoded(books: seq<Book>)

  /** The observable state of the service; `isLoading` and `error` as published. */
  datatype DailyState = DailyState(
    seedBooks: seq<Book>,
    dailyBook: Option<Book>,
    isLoading: bool,
    error: Option<string>)

  /** One bundled classic; the long descriptions below are written as concatenated pieces. */
  function Book5(id: string, title: string, author: string, description: string,
                 pages: nat, categories: seq<string>, ageRange: string): (b: Book)
    ensures b.id == id && b.authors == [author] && b.pageCount == Some(pages)
  {
    Book(id, title, [author], Some(description), None, Some(pages), Some(categories), Some(ageRange))
  }

  function Gatsby(): (b: Book)
    ensures b.id == "1" && b.pageCount == Some(180)
  {
    Book5("1", "The Great Gatsby", "F. Scott Fitzgerald",
          ("A story of the" + " fabulously wealthy" + " Jay Gatsby and his" + " love for the" + " beautiful Daisy" + " Buchanan."),
          180, ["Fiction", "Classic"], "Adult")
  }

  function Mockingbird(): (b: Book)
    ensures b.id == "2" && b.pageCount == Some(281)
  {
    Book5("2", "To Kill a Mockingbird", "Harper Lee",
          ("The story of young" + " Scout Finch and her" + " father Atticus in a" + " racially divided" + " Alabama town."),
          281, ["Fiction", "Classic"], "Young Adult")
  }

  function NineteenEightyFour(): (b: Book)
    ensures b.id == "3" && b.pageCount == Some(328)
  {
    Book5("3", "1984", "George Orwell",
          ("A dystopian novel" + " about" + " totalitarianism and" + " surveillance" + " society."),
          328, ["Fiction", "Dystopian"], "Adult")
  }

  function PrideAndPrejudice(): (b: Book)
    ensures b.id == "4" && b.pageCount == Some(432)
  {
    Book5("4", "Pride and Prejudice", "Jane Austen",
          ("A romantic novel of" + " manners that" + " follows the" + " emotional" + " development of" + " Elizabeth Bennet."),
          432, ["Fiction", "Romance"], "Adult")
  }

  function Hobbit(): (b: Book)
    ensures b.id == "5" && b.pageCount == Some(366)
  {
    Book5("5", "The Hobbit", "J.R.R. Tolkien",
          ("A fantasy novel" + " about Bilbo" + " Baggins' journey" + " with thirteen" + " dwarves."),
          366, ["Fantasy", "Adventure"], "All Ages")
  }

  /** `createDefaultSeedBooks()`: the five built-in classics. */
  function DefaultSeedBooks(): (r: seq<Book>)
    ensures |r| == 5
    ensures r[0].id == "1" && r[1].id == "2" && r[2].id == "3" && r[3].id == "4" && r[4].id == "5"
    ensures forall i :: 0 <= i < |r| ==> r[i].pageCount.Some? && r[i].pageCount.value > 0
  {
    [Gatsby(), Mockingbird(), NineteenEightyFour(), PrideAndPrejudice(), Hobbit()]
  }

  /** The five fallback ids are pairwise distinct. */
  lemma DefaultSeedIdsDistinct()
    ensures DistinctIds(DefaultSeedBooks())
  {
    var r := DefaultSeedBooks();
    assert forall i :: 0 <= i < 5 ==> r[i].id == [DigitChar(i + 1)];
  }

  /** The pool `loadSeedBooks()` installs: the decoded books, or the defaults on any failure. */
  function SeedsFrom(res: SeedResource): (r: seq<Book>)
    ensures res.Decoded? ==> r == res.books
    ensures !res.Decoded? ==> r == DefaultSeedBooks() && |r| == 5
  {
    if res.Decoded? then res.books else DefaultSeedBooks()
  }

  function LoadSeedBooks(st: DailyState, res: SeedResource): (r: DailyState)
    ensures r == st.(seedBooks := SeedsFrom(res))
  {
    st.(seedBooks := SeedsFrom(res))
  }

  /**
   * `loadDailyBook()`, once its main-queue update has run. An empty pool
   * only reloads the seeds and returns, leaving the published state alone.
   */
  function LoadDailyBook(st: DailyState, res: SeedResource, hash: string -> int, todayKey: string): (r: DailyState)
    requires |st.seedBooks| > 0 ==> HashFits(hash, todayKey)
    ensures |st.seedBooks| == 0 ==> r == st.(seedBooks := SeedsFrom(res))
    ensures |st.seedBooks| > 0 ==> r.seedBooks == st.seedBooks
    ensures |st.seedBooks| > 0 ==> r.dailyBook == GetBookForDate(st.seedBooks, hash, todayKey)
    ensures |st.seedBooks| > 0 ==> !r.isLoading && r.error.None?
  {
    if |st.seedBooks| == 0 then LoadSeedBooks(st, res)
    else
      var selected := st.seedBooks[PickIndex(hash(todayKey), |st.seedBooks|)];
      st.(dailyBook := Some(selected), isLoading := false, error := None)
  }

  /** `refreshDailyBook()` is `loadDailyBook()`. */
  function RefreshDailyBook(st: DailyState, res: SeedResource, hash: string -> int, todayKey: string): (r: DailyState)
    requires |st.seedBooks| > 0 ==> HashFits(hash, todayKey)
    ensures r == LoadDailyBook(st, res, hash, todayKey)
  {
    LoadDailyBook(st, res, hash, todayKey)
  }

  /** `hasDailyBook`. */
  predicate HasDailyBook(st: DailyState) {
    st.dailyBook.Some?
  }

  /** `totalSeedBooksCount`. */
  function TotalSeedBooksCount(st: DailyState): nat {
    |st.seedBooks|
  }

  /** The service's initializer: load the seeds, then the book of the day. */
  function Init(res: SeedResource, hash: string -> int, todayKey: string): (r: DailyState)
    requires |SeedsFrom(res)| > 0 ==> HashFits(hash, todayKey)
    ensures r.seedBooks == SeedsFrom(res)
    ensures HasDailyBook(r) <==> TotalSeedBooksCount(r) > 0
    ensures HasDailyBook(r) ==> r.dailyBook == GetBookForDate(r.seedBooks, hash, todayKey)
  {
    LoadDailyBook(LoadSeedBooks(DailyState([], None, false, None), res), res, hash, todayKey)
  }

  /** A missing or broken resource still gives a pool of five and a book of the day. */
  lemma FallbackAlwaysHasBook(res: SeedResource, hash: string -> int, todayKey: string)
    requires !res.Decoded? && HashFits(hash, todayKey)
    ensures TotalSeedBooksCount(Init(res, hash, todayKey)) == 5
    ensures HasDailyBook(Init(res, hash, todayKey))
  {
  }

  /** Loading again on the same day changes nothing once a book is picked. */
  lemma ReloadSameDayIsStable(st: DailyState, res: SeedResource, hash: string -> int, todayKey: string)
    requires |st.seedBooks| > 0 && HashFits(hash, todayKey)
    ensures LoadDailyBook(LoadDailyBook(st, res, hash, todayKey), res, hash, todayKey)
         == LoadDailyBook(st, res, hash, todayKey)
  {
  }

  /**
   * On an empty pool the first load only restores the seeds; it takes a
   * second load (a refresh) to publish a book.
   */
  lemma EmptyPoolNeedsSecondLoad(st: DailyState, res: SeedResource, hash: string -> int, todayKey: string)
    requires |st.seedBooks| == 0 && !HasDailyBook(st)
    requires |SeedsFrom(res)| > 0 && HashFits(hash, todayKey)
    ensures !HasDailyBook(LoadDailyBook(st, res, hash, todayKey))
    ensures HasDailyBook(RefreshDailyBook(LoadDailyBook(st, res, hash, todayKey), res, hash, todayKey))
  {
  }
}
