/**
 * The `Book` record (declared identically in both app targets) with its
 * id-only equality, and the persisted `CoreDataBook` with its `toBook()`
 * conversion.
 */
module Books {
  import opened Common

  /** A catalog book. The `price` field (a Double) is not modelled. */
  datatype Book = Book(
    id: string,
    title: string,
    authors: seq<string>,
    description: Option<string>,
    thumbnail: Option<string>,
    pageCount: Option<int>,
    categories: Option<seq<string>>,
    ageRange: Option<string>)

  /** Swift's `==` on `Book`: only the ids are compared. */
  predicate SameBook(a: Book, b: Book) {
    a.id == b.id
  }

  /** `books.contains(book)`, which uses `==` and therefore compares ids. */
  predicate ContainsBook(books: seq<Book>, b: Book) {
    exists i :: 0 <= i < |books| && SameBook(books[i], b)
  }

  /** The ids of `books`, in order. */
  function Ids(books: seq<Book>): (r: seq<string>)
    ensures |r| == |books|
    ensures forall i :: 0 <= i < |books| ==> r[i] == books[i].id
  {
    seq(|books|, i requires 0 <= i < |books| => books[i].id)
  }

  /** No two entries share an id. */
  predicate DistinctIds(books: seq<Book>) {
    forall i, j :: 0 <= i < j < |books| ==> books[i].id != books[j].id
  }

  lemma SameBookIsIdEquality(a: Book, b: Book)
    ensures SameBook(a, b) <==> a.id == b.id
    ensures SameBook(a, b) ==> SameBook(b, a)
  {
  }

  /** `==` on books is an equivalence relation. */
  lemma SameBookIsEquivalence(a: Book, b: Book, c: Book)
    ensures SameBook(a, a)
    ensures SameBook(a, b) <==> SameBook(b, a)
    ensures SameBook(a, b) && SameBook(b, c) ==> SameBook(a, c)
  {
  }

  /** Changing any field other than the id never changes equality. */
  lemma SameBookIgnoresOtherFields(b: Book, other: Book)
    ensures SameBook(b, other.(id := b.id))
    ensures SameBook(b, other) <==> other.(id := b.id) == other
  {
  }

  /** `contains` on a book array is membership of the id. */
  lemma ContainsIsIdMembership(books: seq<Book>, b: Book)
    ensures ContainsBook(books, b) <==> b.id in Ids(books)
  {
    var ids := Ids(books);
    if b.id in ids {
      var i :| 0 <= i < |ids| && ids[i] == b.id;
      assert SameBook(books[i], b);
    }
  }

  /** The persisted book: every attribute is optional, `pageCount` is a plain integer. */
  datatype StoredBook = StoredBook(
    id: Option<string>,
    title: Option<string>,
    authors: Option<seq<string>>,
    description: Option<string>,
    thumbnail: Option<string>,
    pageCount: int,
    categories: Option<seq<string>>,
    ageRange: Option<string>)

  const UnknownTitle: string := "Unknown Title"
  const UnknownAuthor: string := "Unknown Author"

  /**
   * `CoreDataBook.toBook()`. `freshId` stands for the `UUID().uuidString`
   * used when the stored id is missing.
   */
  function ToBook(s: StoredBook, freshId: string): (r: Book)
    ensures s.id.Some? ==> r.id == s.id.value
    ensures s.id.None? ==> r.id == freshId
    ensures s.title.None? ==> r.title == UnknownTitle
    ensures s.authors.None? ==> r.authors == [UnknownAuthor]
    ensures s.title.Some? ==> r.title == s.title.value
    ensures s.authors.Some? ==> r.authors == s.authors.value
    ensures r.pageCount.Some? <==> s.pageCount > 0
    ensures r.pageCount.Some? ==> r.pageCount.value == s.pageCount
    ensures r.description == s.description && r.thumbnail == s.thumbnail
    ensures r.categories == s.categories && r.ageRange == s.ageRange
  {
    Book(
      s.id.GetOr(freshId),
      s.title.GetOr(UnknownTitle),
      s.authors.GetOr([UnknownAuthor]),
      s.description,
      s.thumbnail,
      if s.pageCount > 0 then Some(s.pageCount) else None,
      s.categories,
      s.ageRange)
  }
}
