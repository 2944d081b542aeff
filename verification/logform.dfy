/**
 * `AddReadingLogView`: the form that logs a finished book, chosen by search,
 * by scanning or typed in by hand, with a date, an optional 1-5 star rating
 * and optional notes. Lookups and the search are split into a start and a
 * "finished" step whose answers are parameters; the manual book's `UUID()` is
 * a parameter too.
 */
module ReadingLogForm {
  import opened Common
  import opened Text
  import opened Books
  import BookStore
  import ReadingTracker

  /** `LogMethod`. */
  datatype LogMethod = Search | ScanIsbn | ManualEntry

  function MethodTitle(m: LogMethod): string {
    match m
    case Search => "Search"
    case ScanIsbn => "Scan ISBN"
    case ManualEntry => "Manual Entry"
  }

  datatype Form = Form(
    selectedMethod: LogMethod,
    searchQuery: string,
    searchResults: seq<Book>,
    selectedBook: Option<Book>,
    isSearching: bool,
    scannedISBN: string,
    manualTitle: string,
    manualAuthor: string,
    manualPages: string,
    dateFinished: BookStore.Date,
    rating: int,
    notes: string)

  /** A fresh form: search, nothing selected, no rating, finished now. */
  function NewForm(now: BookStore.Date): (f: Form)
    ensures f.selectedMethod == Search && f.selectedBook.None? && f.rating == 0 && f.dateFinished == now
    ensures RatingInRange(f)
  {
    Form(Search, "", [], None, false, "", "", "", "", now, 0, "")
  }

  /** The rating is 0 (none) or a number of stars from 1 to 5. */
  predicate RatingInRange(f: Form) {
    0 <= f.rating <= 5
  }

  /** The star buttons 1...5: tapping the current rating clears it, any other star sets it. */
  function TapStar(f: Form, star: int): (r: Form)
    requires 1 <= star <= 5
    ensures r == f.(rating := r.rating)
    ensures r.rating == star <==> f.rating != star
    ensures r.rating != star ==> r.rating == 0
    ensures RatingInRange(r)
  {
    f.(rating := if f.rating == star then 0 else star)
  }

  /** A star is drawn filled when it is at most the rating. */
  predicate StarFilled(f: Form, star: int) {
    star <= f.rating
  }

  /** After tapping star `s` on a different rating, exactly stars 1...s are filled. */
  lemma TapFillsUpToStar(f: Form, star: int, other: int)
    requires 1 <= star <= 5 && f.rating != star && 1 <= other <= 5
    ensures StarFilled(TapStar(f, star), other) <==> other <= star
  {
  }

  /** Tapping the same star twice restores an empty rating or that star's rating. */
  lemma TapTwice(f: Form, star: int)
    requires 1 <= star <= 5 && (f.rating == 0 || f.rating == star)
    ensures TapStar(TapStar(f, star), star) == f
  {
  }

  /** "Clear", shown only while there is a rating. */
  function ClearRating(f: Form): (r: Form)
    requires f.rating > 0
    ensures r.rating == 0 && r == f.(rating := 0)
  {
    f.(rating := 0)
  }

  /** `resetBookSelection()`: the rating, notes and date stay. */
  function ResetBookSelection(f: Form): (r: Form)
    ensures r.selectedBook.None? && r.searchQuery == "" && r.searchResults == [] && r.scannedISBN == ""
    ensures r.manualTitle == "" && r.manualAuthor == "" && r.manualPages == ""
    ensures r.selectedMethod == f.selectedMethod && r.rating == f.rating && r.notes == f.notes
    ensures r.dateFinished == f.dateFinished && r.isSearching == f.isSearching
  {
    f.(selectedBook := None, searchQuery := "", searchResults := [], scannedISBN := "",
       manualTitle := "", manualAuthor := "", manualPages := "")
  }

  /** A method button. */
  function ChooseMethod(f: Form, m: LogMethod): (r: Form)
    ensures r.selectedMethod == m && r.selectedBook.None? && r.rating == f.rating && r.notes == f.notes
  {
    ResetBookSelection(f.(selectedMethod := m))
  }

  /** "Try Manual Entry" after a failed scan: switches method without a reset. */
  function TryManualEntry(f: Form): (r: Form)
    ensures r == f.(selectedMethod := ManualEntry)
  {
    f.(selectedMethod := ManualEntry)
  }

  /** "Scan Another". */
  function ScanAnother(f: Form): (r: Form)
    ensures r == f.(scannedISBN := "", selectedBook := None)
  {
    f.(scannedISBN := "", selectedBook := None)
  }

  /** `canSave`. */
  predicate CanSave(f: Form) {
    if f.selectedMethod == ManualEntry then f.manualTitle != "" && f.manualAuthor != ""
    else f.selectedBook.Some?
  }

  /** `searchBooks()` up to the request. */
  function StartSearch(f: Form): (r: Form)
    ensures f.searchQuery == "" ==> r == f
    ensures f.searchQuery != "" ==> r == f.(isSearching := true, searchResults := [])
  {
    if f.searchQuery == "" then f else f.(isSearching := true, searchResults := [])
  }

  /** The search's answer for `query`: applied only while that is still the query. */
  function SearchFinished(f: Form, query: string, books: seq<Book>): (r: Form)
    ensures f.searchQuery == query ==> r.searchResults == books && !r.isSearching
    ensures f.searchQuery != query ==> r == f
  {
    if f.searchQuery == query then f.(searchResults := books, isSearching := false) else f
  }

  /**
   * An answer that arrives after the query was edited is dropped, and so is
   * its clearing of `isSearching`: the spinner stays until another search
   * for the current query answers.
   */
  lemma StaleAnswerKeepsSpinner(f: Form, query: string, edited: string, books: seq<Book>)
    requires f.searchQuery == query && query != "" && edited != query
    ensures var r := SearchFinished(StartSearch(f).(searchQuery := edited), query, books);
      r.isSearching && r.searchResults == []
  {
  }

  /**
   * `handleScannedISBN(_:)` once the lookups have answered: Open Library
   * first, then Google Books; two misses leave the selection alone.
   */
  function HandleScannedISBN(f: Form, isbn: string, openLibrary: Option<Book>, google: Option<Book>): (r: Form)
    ensures r.scannedISBN == isbn
    ensures openLibrary.Some? ==> r.selectedBook == openLibrary
    ensures openLibrary.None? ==> r.selectedBook == if google.Some? then google else f.selectedBook
    ensures r == f.(scannedISBN := isbn, selectedBook := r.selectedBook)
  {
    var f' := f.(scannedISBN := isbn);
    if openLibrary.Some? then f'.(selectedBook := openLibrary)
    else if google.Some? then f'.(selectedBook := google)
    else f'
  }

  /** What `saveReadingLog()` hands to the tracker, rating included. */
  datatype SaveRequest = SaveRequest(book: Book, dateFinished: BookStore.Date, rating: Option<int>, notes: Option<string>)

  /**
   * `saveReadingLog()`: manual entry builds a new book (fresh id, one author,
   * pages parsed with `Int(_:)`); the other methods need a selected book and
   * do nothing without one. A zero rating and empty notes are sent as nil.
   */
  function SaveReadingLog(f: Form, newBookId: string): (r: Option<SaveRequest>)
    ensures r.None? <==> f.selectedMethod != ManualEntry && f.selectedBook.None?
    ensures r.Some? && f.selectedMethod == ManualEntry ==>
      var b := r.value.book;
      b.id == newBookId && b.title == f.manualTitle && b.authors == [f.manualAuthor]
      && b.pageCount == ParseInt(f.manualPages) && b.description.None? && b.thumbnail.None?
    ensures r.Some? && f.selectedMethod != ManualEntry ==> r.value.book == f.selectedBook.value
    ensures r.Some? ==> r.value.dateFinished == f.dateFinished
    ensures r.Some? ==> (r.value.rating.Some? <==> f.rating > 0) && (r.value.rating.Some? ==> r.value.rating.value == f.rating)
    ensures r.Some? ==> (r.value.notes.None? <==> f.notes == "") && (r.value.notes.Some? ==> r.value.notes.value == f.notes)
  {
    var rating := if f.rating > 0 then Some(f.rating) else None;
    var notes := if f.notes == "" then None else Some(f.notes);
    if f.selectedMethod == ManualEntry then
      var b := Book(newBookId, f.manualTitle, [f.manualAuthor], None, None, ParseInt(f.manualPages), None, None);
      Some(SaveRequest(b, f.dateFinished, rating, notes))
    else
      match f.selectedBook
      case None => None
      case Some(b) => Some(SaveRequest(b, f.dateFinished, rating, notes))
  }

  /** Whenever Save is enabled, saving produces a request. */
  lemma CanSaveMeansRequest(f: Form, newBookId: string)
    requires CanSave(f)
    ensures SaveReadingLog(f, newBookId).Some?
  {
  }

  /** Typed page counts are read back exactly; anything unparsable is dropped. */
  lemma ManualPagesRoundTrip(f: Form, pages: int, newBookId: string)
    requires f.selectedMethod == ManualEntry && f.manualPages == IntToString(pages)
    requires MinInt64 <= pages <= MaxInt64
    ensures SaveReadingLog(f, newBookId).value.book.pageCount == Some(pages)
  {
    IntToStringRoundTrip(pages);
  }

  /**
   * The request reaches `addReadingLog(for:dateFinished:notes:)`, which has
   * no rating parameter: the rating is not stored.
   */
  function SubmitToTracker(f: Form, t: ReadingTracker.Tracker, store: BookStore.Store, seedCount: nat,
                           newBookId: string, logId: string): (r: (ReadingTracker.Tracker, BookStore.Store))
    ensures SaveReadingLog(f, newBookId).None? ==> r == (t, store)
    ensures SaveReadingLog(f, newBookId).Some? ==>
      var req := SaveReadingLog(f, newBookId).value;
      && |r.1.logs| == |store.logs| + 1
      && r.1.logs[|store.logs|].dateFinished == Some(req.dateFinished)
      && r.1.logs[|store.logs|].notes == req.notes
      && ReadingTracker.IsBookRead(r.1, req.book).1
  {
    match SaveReadingLog(f, newBookId)
    case None => (t, store)
    case Some(req) =>
      ReadingTracker.ReadAfterAdd(t, store, seedCount, req.book, req.book, req.dateFinished, req.notes, logId);
      ReadingTracker.AddReadingLog(t, store, seedCount, req.book, req.dateFinished, req.notes, logId)
  }

  /**
   * Each manual save draws a new book id, so logging the same typed book
   * twice stores it twice.
   */
  lemma ManualEntryStoresNewBook(f: Form, t: ReadingTracker.Tracker, store: BookStore.Store, seedCount: nat,
                                 newBookId: string, logId: string)
    requires f.selectedMethod == ManualEntry
    requires !Exists(store.books, BookStore.HasId(newBookId))
    ensures |SubmitToTracker(f, t, store, seedCount, newBookId, logId).1.books| == |store.books| + 1
  {
  }
}
