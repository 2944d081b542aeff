/**
 * `BookAPI`: search and ISBN lookup against the Google Books volumes
 * endpoint. The request's outcome is a `Reply` parameter; the debug logging
 * is not modelled.
 */
module GoogleBooks {
  import opened Common
  import opened Text
  import opened Books
  import opened Isbn

  datatype VolumeInfo = VolumeInfo(
    title: string,
    authors: Option<seq<string>>,
    description: Option<string>,
    imageLinks: Option<ImageLinks>,
    pageCount: Option<int>,
    categories: Option<seq<string>>)

  datatype ImageLinks = ImageLinks(thumbnail: Option<string>)

  datatype GoogleBook = GoogleBook(id: string, volumeInfo: VolumeInfo)

  datatype GoogleBooksResponse = GoogleBooksResponse(items: Option<seq<GoogleBook>>)

  /** `replacingOccurrences(of: "http://", with: "https://")` on a thumbnail address. */
  function Secure(url: string): string {
    ReplaceAll(url, "http://", "https://")
  }

  /** A plain-http thumbnail is upgraded to https, the rest of the address untouched. */
  lemma SecureUpgradesHttp(rest: string)
    requires !Contains(rest, "http://")
    ensures Secure("http://" + rest) == "https://" + rest
  {
    ReplaceAllLeading("http://", "https://", rest);
    ReplaceAllWithoutOccurrence(rest, "http://", "https://");
  }

  /** An address without "http://" in it is left alone. */
  lemma SecureKeepsOtherAddresses(url: string)
    requires !Contains(url, "http://")
    ensures Secure(url) == url
  {
    ReplaceAllWithoutOccurrence(url, "http://", "https://");
  }

  /** The `Book` built from one volume: default author, https thumbnail, no price or age range. */
  function FromVolume(item: GoogleBook): (b: Book)
    ensures b.id == item.id && b.title == item.volumeInfo.title
    ensures b.authors == item.volumeInfo.authors.GetOr([UnknownAuthor])
    ensures b.description == item.volumeInfo.description
    ensures b.thumbnail.Some? <==> item.volumeInfo.imageLinks.Some? && item.volumeInfo.imageLinks.value.thumbnail.Some?
    ensures b.thumbnail.Some? ==> b.thumbnail.value == Secure(item.volumeInfo.imageLinks.value.thumbnail.value)
    ensures b.pageCount == item.volumeInfo.pageCount && b.categories == item.volumeInfo.categories
    ensures b.ageRange.None?
  {
    var info := item.volumeInfo;
    var thumb :=
      if info.imageLinks.Some? && info.imageLinks.value.thumbnail.Some?
      then Some(Secure(info.imageLinks.value.thumbnail.value)) else None;
    Book(item.id, info.title, info.authors.GetOr([UnknownAuthor]), info.description,
         thumb, info.pageCount, info.categories, None)
  }

  /**
   * `searchBooks(query:completion:)`: every returned volume becomes a book
   * (the `compactMap` closure never yields nil); a failure or a response
   * without `items` gives no books.
   */
  function SearchBooks(reply: Reply<GoogleBooksResponse>): (r: seq<Book>)
    ensures reply.Failed? || reply.value.items.None? ==> r == []
    ensures reply.Received? && reply.value.items.Some? ==>
      && |r| == |reply.value.items.value|
      && forall i :: 0 <= i < |r| ==> r[i] == FromVolume(reply.value.items.value[i])
  {
    match reply
    case Failed(_) => []
    case Received(response) =>
      match response.items
      case None => []
      case Some(items) => seq(|items|, i requires 0 <= i < |items| => FromVolume(items[i]))
  }

  /**
   * `fetchBookInfo(isbn:completion:)`: nil for an ISBN with nothing left
   * after cleaning, for a failed request and for an empty or missing item
   * list; otherwise the first volume.
   */
  function FetchBookInfo(isbn: string, reply: Reply<GoogleBooksResponse>): (r: Option<Book>)
    ensures CleanISBN(isbn) == "" ==> r.None?
    ensures r.Some? <==>
      CleanISBN(isbn) != "" && reply.Received? && reply.value.items.Some? && |reply.value.items.value| > 0
    ensures r.Some? ==> r.value == FromVolume(reply.value.items.value[0])
  {
    if CleanISBN(isbn) == "" then None
    else
      match reply
      case Failed(_) => None
      case Received(response) =>
        if response.items.Some? && |response.items.value| > 0 then Some(FromVolume(response.items.value[0]))
        else None
  }

  /** The ISBN lookup answers with the first result the same query would list. */
  lemma FetchIsFirstSearchResult(isbn: string, reply: Reply<GoogleBooksResponse>)
    requires CleanISBN(isbn) != ""
    ensures FetchBookInfo(isbn, reply).Some? <==> |SearchBooks(reply)| > 0
    ensures FetchBookInfo(isbn, reply).Some? ==> FetchBookInfo(isbn, reply).value == SearchBooks(reply)[0]
  {
  }
}
