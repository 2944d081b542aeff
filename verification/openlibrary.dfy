/**
 * `OpenLibraryService`: ISBN lookup and title search against Open Library.
 * The network round trip is a parameter, a `Reply` that either failed
 * (transport or JSON decoding, with the error's description) or carries the
 * decoded response; the main-queue updates of `isLoading` and `error` are
 * applied in the same step.
 */
module OpenLibrary {
  import opened Common
  import opened Text
  import opened Books
  import opened Isbn

  /** `OpenLibraryBook` as decoded; each author object reduced to its `name`. */
  datatype OpenLibraryBook = OpenLibraryBook(
    title: string,
    authorNames: Option<seq<string>>,
    description: Option<string>,
    covers: Option<seq<int>>,
    pagesMedian: Option<int>,
    subjects: Option<seq<string>>,
    key: string)

  /** `OpenLibraryResponse`, a dictionary keyed by bibkey. */
  type OpenLibraryResponse = map<string, OpenLibraryBook>

  datatype SearchDoc = SearchDoc(
    key: string,
    title: string,
    authorName: Option<seq<string>>,
    description: Option<seq<string>>,
    coverId: Option<int>,
    pagesMedian: Option<int>,
    subject: Option<seq<string>>)

  /** The service's published `isLoading` and `error`. */
  datatype ServiceState = ServiceState(isLoading: bool, error: Option<string>)

  const CoverPrefix: string := "https://covers.openlibrary.org/b/id/"
  const CoverSuffix: string := "-M.jpg"
  const InvalidIsbnMessage: string := "Invalid ISBN format"

  /** `getCoverURL(for:)`: nil without a cover id, else the medium-size cover address. */
  function CoverURL(coverId: Option<int>): (r: Option<string>)
    ensures r.None? <==> coverId.None?
    ensures r.Some? ==>
      && |r.value| > |CoverPrefix| + |CoverSuffix|
      && r.value[..|CoverPrefix|] == CoverPrefix
      && r.value[|r.value| - |CoverSuffix|..] == CoverSuffix
  {
    match coverId
    case None => None
    case Some(id) => Some(CoverPrefix + IntToString(id) + CoverSuffix)
  }

  /** The cover id can be read back from the address between prefix and suffix. */
  lemma CoverURLRoundTrip(id: int)
    requires MinInt64 <= id <= MaxInt64
    ensures var u := CoverURL(Some(id)).value;
      ParseInt(u[|CoverPrefix|..|u| - |CoverSuffix|]) == Some(id)
  {
    var u := CoverURL(Some(id)).value;
    assert u[|CoverPrefix|..|u| - |CoverSuffix|] == IntToString(id);
    IntToStringRoundTrip(id);
  }

  /** The bibkey the response is indexed by. */
  function IsbnKey(cleaned: string): (r: string)
    ensures |r| == 5 + |cleaned| && r[..5] == "ISBN:" && r[5..] == cleaned
  {
    "ISBN:" + cleaned
  }

  /** The `Book` built from a bibkey entry. */
  function FromOpenLibrary(ol: OpenLibraryBook): (b: Book)
    ensures b.id == ol.key && b.title == ol.title
    ensures b.authors == ol.authorNames.GetOr([UnknownAuthor])
    ensures b.description == ol.description && b.pageCount == ol.pagesMedian && b.categories == ol.subjects
    ensures b.thumbnail.Some? <==> ol.covers.Some? && |ol.covers.value| > 0
    ensures b.thumbnail.Some? ==> b.thumbnail == CoverURL(Some(ol.covers.value[0]))
    ensures b.ageRange.None?
  {
    var first := if ol.covers.Some? && |ol.covers.value| > 0 then Some(ol.covers.value[0]) else None;
    Book(ol.key, ol.title, ol.authorNames.GetOr([UnknownAuthor]), ol.description,
         CoverURL(first), ol.pagesMedian, ol.subjects, None)
  }

  /** The thumbnail names the first cover id, whatever the other covers are. */
  lemma ThumbnailIsFirstCover(ol: OpenLibraryBook)
    requires ol.covers.Some? && |ol.covers.value| > 0
    requires MinInt64 <= ol.covers.value[0] <= MaxInt64
    ensures var u := FromOpenLibrary(ol).thumbnail.value;
      ParseInt(u[|CoverPrefix|..|u| - |CoverSuffix|]) == Some(ol.covers.value[0])
  {
    CoverURLRoundTrip(ol.covers.value[0]);
  }

  /**
   * `fetchBookByISBN(_:)`: the ISBN is cleaned; nothing left gives nil and
   * "Invalid ISBN format" without a request; a failed request gives nil and
   * a "Failed to fetch book" error; otherwise the entry under
   * "ISBN:<cleaned>", or nil when the response has none.
   */
  function FetchBookByISBN(isbn: string, reply: Reply<OpenLibraryResponse>): (r: (Option<Book>, ServiceState))
    ensures !r.1.isLoading
    ensures CleanISBN(isbn) == "" ==> r == (None, ServiceState(false, Some(InvalidIsbnMessage)))
    ensures CleanISBN(isbn) != "" && reply.Failed? ==>
      r.0.None? && r.1.error == Some("Failed to fetch book: " + reply.description)
    ensures CleanISBN(isbn) != "" && reply.Received? ==> r.1.error.None?
    ensures r.0.Some? <==> CleanISBN(isbn) != "" && reply.Received? && IsbnKey(CleanISBN(isbn)) in reply.value
    ensures r.0.Some? ==> r.0.value == FromOpenLibrary(reply.value[IsbnKey(CleanISBN(isbn))])
  {
    var cleaned := CleanISBN(isbn);
    if cleaned == "" then (None, ServiceState(false, Some(InvalidIsbnMessage)))
    else
      match reply
      case Failed(description) => (None, ServiceState(false, Some("Failed to fetch book: " + description)))
      case Received(response) =>
        var key := IsbnKey(cleaned);
        if key in response then (Some(FromOpenLibrary(response[key])), ServiceState(false, None))
        else (None, ServiceState(false, None))
  }

  /** The lookup only sees the cleaned ISBN: a hyphenated ISBN and its digits find the same book. */
  lemma FetchSeesCleanedIsbn(isbn: string, reply: Reply<OpenLibraryResponse>)
    ensures FetchBookByISBN(isbn, reply) == FetchBookByISBN(CleanISBN(isbn), reply)
  {
    CleanIdempotent(isbn);
  }

  /** An entry stored under a clean ISBN's bibkey is what the lookup returns. */
  lemma FetchFindsEntry(isbn: string, ol: OpenLibraryBook, rest: OpenLibraryResponse)
    requires AllIsbnChars(isbn) && isbn != ""
    ensures FetchBookByISBN(isbn, Received(rest[IsbnKey(isbn) := ol])).0 == Some(FromOpenLibrary(ol))
  {
    CleanKeepsCleanText(isbn);
  }

  function FromSearchDoc(doc: SearchDoc): (b: Book)
    ensures b.id == doc.key && b.title == doc.title
    ensures b.authors == doc.authorName.GetOr([UnknownAuthor])
    ensures b.description.Some? <==> doc.description.Some? && |doc.description.value| > 0
    ensures b.description.Some? ==> b.description.value == doc.description.value[0]
    ensures b.thumbnail == CoverURL(doc.coverId)
    ensures b.pageCount == doc.pagesMedian && b.categories == doc.subject && b.ageRange.None?
  {
    var desc := if doc.description.Some? && |doc.description.value| > 0 then Some(doc.description.value[0]) else None;
    Book(doc.key, doc.title, doc.authorName.GetOr([UnknownAuthor]), desc,
         CoverURL(doc.coverId), doc.pagesMedian, doc.subject, None)
  }

  /**
   * `searchBooks(query:)`: one book per returned document, in order; a failed
   * request gives no books and a "Failed to search books" error.
   */
  function SearchBooks(reply: Reply<seq<SearchDoc>>): (r: (seq<Book>, ServiceState))
    ensures !r.1.isLoading
    ensures reply.Failed? ==> r.0 == [] && r.1.error == Some("Failed to search books: " + reply.description)
    ensures reply.Received? ==>
      && r.1.error.None? && |r.0| == |reply.value|
      && forall i :: 0 <= i < |r.0| ==> r.0[i] == FromSearchDoc(reply.value[i])
  {
    match reply
    case Failed(description) => ([], ServiceState(false, Some("Failed to search books: " + description)))
    case Received(docs) =>
      (seq(|docs|, i requires 0 <= i < |docs| => FromSearchDoc(docs[i])), ServiceState(false, None))
  }

  /** The search results keep the documents' keys as ids, in the same order. */
  lemma SearchKeepsKeys(docs: seq<SearchDoc>)
    ensures Ids(SearchBooks(Received(docs)).0) == seq(|docs|, i requires 0 <= i < |docs| => docs[i].key)
  {
  }
}
