/**
 * `EnhancedMonthlyPickEditor`: staff choose this month's pick by search, by
 * scanning an ISBN or by typing it in, and save it through the calendar
 * service. Lookups are split into a start and a "finished" step whose answers
 * are parameters.
 */
module MonthlyPickEditor {
  import opened Common
  import opened Text
  import opened Books
  import BookStore
  import CalendarChallenge

  /** `BookSelectionMethod`. */
  datatype SelectionMethod = Search | Scan | Manual

  function MethodTitle(m: SelectionMethod): (r: string)
    ensures |r| > 0
  {
    match m
    case Search => "Search"
    case Scan => "Scan"
    case Manual => "Manual"
  }

  function MethodIcon(m: SelectionMethod): (r: string)
    ensures |r| > 0
  {
    match m
    case Search => "magnifyingglass"
    case Scan => "barcode.viewfinder"
    case Manual => "pencil"
  }

  /** The three buttons carry distinct labels and distinct icons. */
  lemma MethodLabelsDistinct(a: SelectionMethod, b: SelectionMethod)
    requires a != b
    ensures MethodTitle(a) != MethodTitle(b) && MethodIcon(a) != MethodIcon(b)
  {
    assert MethodTitle(a)[0] != MethodTitle(b)[0] || |MethodTitle(a)| != |MethodTitle(b)|;
    assert MethodIcon(a)[0] != MethodIcon(b)[0];
  }

  datatype Editor = Editor(
    selectedMethod: SelectionMethod,
    searchQuery: string,
    searchResults: seq<Book>,
    selectedBook: Option<Book>,
    isSearching: bool,
    manualTitle: string,
    manualAuthor: string,
    manualDescription: string,
    manualCoverURL: string,
    scannedISBN: string,
    scannedBook: Option<Book>,
    selectedMonth: int,
    selectedYear: int)

  /** A fresh editor: search mode, everything empty, month and year from the clock. */
  function NewEditor(clockMonthNumber: int, clockYear: int): (e: Editor)
    ensures e.selectedMethod == Search && e.selectedBook.None?
    ensures e.selectedMonth == clockMonthNumber && e.selectedYear == clockYear
  {
    Editor(Search, "", [], None, false, "", "", "", "", "", None, clockMonthNumber, clockYear)
  }

  /** The pickers offer months 1...12 and years 2024...2030. */
  predicate MonthInPicker(m: int) { 1 <= m <= 12 }
  predicate YearInPicker(y: int) { 2024 <= y <= 2030 }

  function SelectMonth(e: Editor, m: int): (r: Editor)
    requires MonthInPicker(m)
    ensures r.selectedMonth == m && r == e.(selectedMonth := r.selectedMonth)
  {
    e.(selectedMonth := m)
  }

  function SelectYear(e: Editor, y: int): (r: Editor)
    requires YearInPicker(y)
    ensures r.selectedYear == y && r == e.(selectedYear := r.selectedYear)
  {
    e.(selectedYear := y)
  }

  /** `resetBookSelection()`: clears every book field; method, month and year stay. */
  function ResetBookSelection(e: Editor): (r: Editor)
    ensures r.selectedBook.None? && r.scannedBook.None? && r.searchResults == []
    ensures r.searchQuery == "" && r.scannedISBN == ""
    ensures r.manualTitle == "" && r.manualAuthor == "" && r.manualDescription == "" && r.manualCoverURL == ""
    ensures r.selectedMethod == e.selectedMethod && r.isSearching == e.isSearching
    ensures r.selectedMonth == e.selectedMonth && r.selectedYear == e.selectedYear
  {
    e.(selectedBook := None, searchQuery := "", searchResults := [], scannedISBN := "",
       scannedBook := None, manualTitle := "", manualAuthor := "", manualDescription := "", manualCoverURL := "")
  }

  /** A method button: switch method and reset the selection. */
  function ChooseMethod(e: Editor, m: SelectionMethod): (r: Editor)
    ensures r.selectedMethod == m && r.selectedBook.None?
    ensures r.selectedMonth == e.selectedMonth && r.selectedYear == e.selectedYear
  {
    ResetBookSelection(e.(selectedMethod := m))
  }

  /** `canSave`: manual entry needs a title and an author, the other methods a selected book. */
  predicate CanSave(e: Editor) {
    if e.selectedMethod == Manual then e.manualTitle != "" && e.manualAuthor != ""
    else e.selectedBook.Some?
  }

  /** Right after a method switch only manual entry with typed fields could be saved, and no field is typed yet. */
  lemma NothingToSaveAfterSwitch(e: Editor, m: SelectionMethod)
    ensures !CanSave(ChooseMethod(e, m))
  {
  }

  /** `searchBooks()` up to the request: an empty query does nothing. */
  function StartSearch(e: Editor): (r: Editor)
    ensures e.searchQuery == "" ==> r == e
    ensures e.searchQuery != "" ==> r == e.(isSearching := true, searchResults := [])
  {
    if e.searchQuery == "" then e else e.(isSearching := true, searchResults := [])
  }

  /** The search's answer arrives. */
  function SearchFinished(e: Editor, books: seq<Book>): (r: Editor)
    ensures r == e.(searchResults := books, isSearching := false)
  {
    e.(searchResults := books, isSearching := false)
  }

  /**
   * `handleScannedISBN(_:)` once the lookups have answered: Open Library
   * first, then Google Books; two misses leave the selection alone.
   */
  function HandleScannedISBN(e: Editor, isbn: string, openLibrary: Option<Book>, google: Option<Book>): (r: Editor)
    ensures r.scannedISBN == isbn
    ensures openLibrary.Some? ==> r.selectedBook == openLibrary && r.scannedBook == openLibrary
    ensures openLibrary.None? && google.Some? ==> r.selectedBook == google && r.scannedBook == google
    ensures openLibrary.None? && google.None? ==> r == e.(scannedISBN := isbn)
  {
    var e' := e.(scannedISBN := isbn);
    if openLibrary.Some? then e'.(scannedBook := openLibrary, selectedBook := openLibrary)
    else if google.Some? then e'.(scannedBook := google, selectedBook := google)
    else e'
  }

  /** The four values `saveMonthlyPick()` hands to the calendar service. */
  datatype PickFields = PickFields(title: string, author: string, coverURL: Option<string>, description: Option<string>)

  function EmptyToNone(s: string): (r: Option<string>)
    ensures r.None? <==> s == ""
    ensures r.Some? ==> r.value == s
  {
    if s == "" then None else Some(s)
  }

  /**
   * The fields `saveMonthlyPick()` sends: a selected book wins whatever the
   * method (authors joined with ", "); otherwise the manual fields, with
   * empty description and cover sent as nil.
   */
  function SaveFields(e: Editor): (r: PickFields)
    ensures e.selectedBook.Some? ==>
      var b := e.selectedBook.value;
      r.title == b.title && r.coverURL == b.thumbnail && r.description == b.description
      && r.author == Join(b.authors, ", ")
    ensures e.selectedBook.None? ==>
      r.title == e.manualTitle && r.author == e.manualAuthor
      && (r.description.None? <==> e.manualDescription == "")
      && (r.coverURL.None? <==> e.manualCoverURL == "")
      && (r.description.Some? ==> r.description.value == e.manualDescription)
      && (r.coverURL.Some? ==> r.coverURL.value == e.manualCoverURL)
  {
    match e.selectedBook
    case Some(b) => PickFields(b.title, Join(b.authors, ", "), b.thumbnail, b.description)
    case None => PickFields(e.manualTitle, e.manualAuthor, EmptyToNone(e.manualCoverURL), EmptyToNone(e.manualDescription))
  }

  /** Saving a savable manual entry sends a non-empty title and author. */
  lemma ManualSaveHasTitleAndAuthor(e: Editor)
    requires e.selectedMethod == Manual && CanSave(e) && e.selectedBook.None?
    ensures SaveFields(e).title != "" && SaveFields(e).author != ""
  {
  }

  /**
   * A lookup answering after the switch to manual entry leaves a selected
   * book behind, and the save sends that book rather than the typed fields.
   */
  lemma LateScanOverridesManualEntry(e: Editor, isbn: string, found: Book)
    requires e.selectedMethod == Manual && CanSave(e) && e.manualTitle != found.title
    ensures var e' := HandleScannedISBN(e, isbn, Some(found), None);
      CanSave(e') && e'.selectedMethod == Manual && SaveFields(e').title == found.title && SaveFields(e').title != e'.manualTitle
  {
  }

  /**
   * `saveMonthlyPick()` as written: the calendar service stamps the record
   * with the clock's month and year; the editor's month and year pickers
   * are never read.
   */
  function SaveMonthlyPick(e: Editor, st: CalendarChallenge.ChallengeState, store: BookStore.Store,
                           clockMonth: string, clockYear: int, newId: string): (r: (CalendarChallenge.ChallengeState, BookStore.Store))
    ensures r.0.currentMonthlyBook.Some?
    ensures r.0.currentMonthlyBook.value.month == Some(clockMonth) && r.0.currentMonthlyBook.value.year == clockYear
    ensures r.0.currentMonthlyBook.value.title == Some(SaveFields(e).title)
    ensures r.1 == BookStore.SetMonthlyBook(store, r.0.currentMonthlyBook.value)
  {
    var f := SaveFields(e);
    CalendarChallenge.SetMonthlyBook(st, store, f.title, f.author, f.coverURL, f.description, clockMonth, clockYear, newId)
  }

  /** `DateFormatter().monthSymbols` in an English locale. */
  const MonthSymbols: seq<string> := ["January", "February", "March", "April", "May", "June",
    "July", "August", "September", "October", "November", "December"]

  function MonthName(m: int): (r: string)
    requires MonthInPicker(m)
    ensures r == MonthSymbols[m - 1]
  {
    MonthSymbols[m - 1]
  }

  /** Distinct picker months have distinct names. */
  lemma MonthNamesDistinct(a: int, b: int)
    requires MonthInPicker(a) && MonthInPicker(b) && a != b
    ensures MonthName(a) != MonthName(b)
  {
    var s := MonthSymbols;
    assert forall i, j :: 0 <= i < j < 12 ==> s[i] != s[j] by {
      assert s[0][0] == 'J' && s[1][0] == 'F' && s[2][..3] == "Mar" && s[3][..2] == "Ap";
      assert s[4][..3] == "May" && s[5][..3] == "Jun" && s[6][..3] == "Jul" && s[7][..2] == "Au";
      assert s[8][0] == 'S' && s[9][0] == 'O' && s[10][0] == 'N' && s[11][0] == 'D';
    }
  }

  /**
   * Picking another month than the clock's and saving does not give that
   * month a pick: its slot in the store is exactly as before.
   */
  lemma SavedPickIgnoresSelectedMonth(e: Editor, st: CalendarChallenge.ChallengeState, store: BookStore.Store,
                                      clockMonth: string, clockYear: int, newId: string)
    requires MonthInPicker(e.selectedMonth)
    requires MonthName(e.selectedMonth) != clockMonth
    ensures var store' := SaveMonthlyPick(e, st, store, clockMonth, clockYear, newId).1;
      BookStore.FetchMonthlyBook(store', MonthName(e.selectedMonth), e.selectedYear)
      == BookStore.FetchMonthlyBook(store, MonthName(e.selectedMonth), e.selectedYear)
  {
    var mb := SaveMonthlyPick(e, st, store, clockMonth, clockYear, newId).0.currentMonthlyBook.value;
    BookStore.SetMonthlyBookOtherSlot(store, mb, MonthName(e.selectedMonth), e.selectedYear);
  }

  /**
   * The save the pickers promise: the record is stamped with the selected
   * month's name and the selected year.
   */
  function SaveMonthlyPickForSelection(e: Editor, st: CalendarChallenge.ChallengeState, store: BookStore.Store,
                                       newId: string): (r: (CalendarChallenge.ChallengeState, BookStore.Store))
    requires MonthInPicker(e.selectedMonth)
    ensures r.0.currentMonthlyBook.Some?
    ensures r.0.currentMonthlyBook.value.month == Some(MonthName(e.selectedMonth))
    ensures r.0.currentMonthlyBook.value.year == e.selectedYear
    ensures r.1 == BookStore.SetMonthlyBook(store, r.0.currentMonthlyBook.value)
  {
    SaveMonthlyPick(e, st, store, MonthName(e.selectedMonth), e.selectedYear, newId)
  }

  /** With one record per month, the corrected save is what a fetch of the selected month returns. */
  lemma SaveForSelectionThenFetch(e: Editor, st: CalendarChallenge.ChallengeState, store: BookStore.Store, newId: string)
    requires MonthInPicker(e.selectedMonth)
    requires BookStore.UniqueSlots(store.monthly)
    ensures var (st', store') := SaveMonthlyPickForSelection(e, st, store, newId);
      BookStore.FetchMonthlyBook(store', MonthName(e.selectedMonth), e.selectedYear) == st'.currentMonthlyBook
  {
    var mb := SaveMonthlyPickForSelection(e, st, store, newId).0.currentMonthlyBook.value;
    BookStore.SetThenFetch(store, mb, MonthName(e.selectedMonth));
  }
}
