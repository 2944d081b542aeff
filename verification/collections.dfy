/**
 * `CollectionViewModel`: named collections of books, each with its own id,
 * and the flat list of books fetched by ISBN. A new collection's `UUID()` is
 * passed in as `newId`.
 */
module Collections {
  import opened Common
  import opened Books

  datatype Collection = Collection(id: string, name: string, books: seq<Book>)

  datatype CollectionState = CollectionState(collections: seq<Collection>, books: seq<Book>)

  const DefaultCollectionName: string := "Default"

  /** `if !books.contains(book) { books.append(book) }`: membership is by id. */
  function AppendIfAbsent(books: seq<Book>, b: Book): (r: seq<Book>)
    ensures ContainsBook(r, b)
    ensures ContainsBook(books, b) ==> r == books
    ensures !ContainsBook(books, b) ==> |r| == |books| + 1 && r[..|books|] == books
    ensures DistinctIds(books) ==> DistinctIds(r)
  {
    if ContainsBook(books, b) then books
    else
      var r := books + [b];
      assert SameBook(r[|books|], b);
      r
  }

  /** Appending a book twice, or a second book with the same id, is appending it once. */
  lemma AppendIfAbsentIdempotent(books: seq<Book>, b: Book, again: Book)
    requires SameBook(b, again)
    ensures AppendIfAbsent(AppendIfAbsent(books, b), again) == AppendIfAbsent(books, b)
  {
    var r := AppendIfAbsent(books, b);
    var i :| 0 <= i < |r| && SameBook(r[i], b);
    assert SameBook(r[i], again);
  }

  /** `fetchBook(from:)` once the lookup has answered; nil leaves the list alone. */
  function FetchBook(st: CollectionState, fetched: Option<Book>): (r: CollectionState)
    ensures r.collections == st.collections
    ensures fetched.None? ==> r == st
    ensures fetched.Some? ==> ContainsBook(r.books, fetched.value)
    ensures fetched.Some? ==> r.books == AppendIfAbsent(st.books, fetched.value)
    ensures DistinctIds(st.books) ==> DistinctIds(r.books)
    ensures |st.books| <= |r.books| <= |st.books| + 1
  {
    match fetched
    case None => st
    case Some(b) => st.(books := AppendIfAbsent(st.books, b))
  }

  function Named(name: string): Collection -> bool {
    (c: Collection) => c.name == name
  }

  function WithId(id: string): Collection -> bool {
    (c: Collection) => c.id == id
  }

  /** No two collections share a name. */
  predicate UniqueNames(cs: seq<Collection>) {
    forall i, j :: 0 <= i < j < |cs| ==> cs[i].name != cs[j].name
  }

  /** No collection holds two books with the same id. */
  predicate BooksDistinct(cs: seq<Collection>) {
    forall i :: 0 <= i < |cs| ==> DistinctIds(cs[i].books)
  }

  /** `addCollection(name:)`: a new empty collection unless the name is taken. */
  function AddCollection(cs: seq<Collection>, name: string, newId: string): (r: seq<Collection>)
    ensures Exists(cs, Named(name)) ==> r == cs
    ensures !Exists(cs, Named(name)) ==> r == cs + [Collection(newId, name, [])]
    ensures Exists(r, Named(name))
    ensures UniqueNames(cs) ==> UniqueNames(r)
    ensures BooksDistinct(cs) ==> BooksDistinct(r)
  {
    if Exists(cs, Named(name)) then cs
    else
      var r := cs + [Collection(newId, name, [])];
      assert Named(name)(r[|cs|]);
      r
  }

  /** Adding the same name twice is adding it once, whatever id the second call draws. */
  lemma AddCollectionIdempotent(cs: seq<Collection>, name: string, id1: string, id2: string)
    ensures AddCollection(AddCollection(cs, name, id1), name, id2) == AddCollection(cs, name, id1)
  {
  }

  /**
   * `addBookToCollection(_:collectionID:)`: add the book to the first
   * collection with that id unless it is already there; an unknown id
   * appends a fresh "Default" collection holding just the book.
   */
  function AddBookToCollection(cs: seq<Collection>, b: Book, collectionId: string, newId: string): (r: seq<Collection>)
    ensures !Exists(cs, WithId(collectionId)) ==> r == cs + [Collection(newId, DefaultCollectionName, [b])]
    ensures Exists(cs, WithId(collectionId)) ==> |r| == |cs|
    ensures Exists(cs, WithId(collectionId)) ==>
      var i := FirstIndex(cs, WithId(collectionId)).value;
      && r[i].id == cs[i].id && r[i].name == cs[i].name
      && r[i].books == AppendIfAbsent(cs[i].books, b)
      && forall j :: 0 <= j < |cs| && j != i ==> r[j] == cs[j]
    ensures BooksDistinct(cs) ==> BooksDistinct(r)
  {
    match FirstIndex(cs, WithId(collectionId))
    case Some(i) => cs[i := cs[i].(books := AppendIfAbsent(cs[i].books, b))]
    case None => cs + [Collection(newId, DefaultCollectionName, [b])]
  }

  /**
   * The "Default" fallback skips the name check: two misses in a row add two
   * collections called "Default".
   */
  lemma RepeatedMissesDuplicateDefault(cs: seq<Collection>, b: Book, missing: string, id1: string, id2: string)
    requires !Exists(cs, WithId(missing)) && id1 != missing
    ensures var r := AddBookToCollection(AddBookToCollection(cs, b, missing, id1), b, missing, id2);
      |r| == |cs| + 2 && r[|cs|].name == DefaultCollectionName && r[|cs| + 1].name == DefaultCollectionName
  {
    var r1 := AddBookToCollection(cs, b, missing, id1);
    assert !Exists(r1, WithId(missing)) by {
      assert forall k :: 0 <= k < |cs| ==> r1[k] == cs[k];
    }
  }

  /** Offsets a removal may use: Swift traps on an offset past the end. */
  predicate OffsetsWithin(offsets: set<nat>, n: nat) {
    forall o :: o in offsets ==> o < n
  }

  /** The offsets are valid for the first collection with the id, if there is one. */
  predicate OffsetsFitCollection(cs: seq<Collection>, collectionId: string, offsets: set<nat>) {
    match FirstIndex(cs, WithId(collectionId))
    case Some(i) => OffsetsWithin(offsets, |cs[i].books|)
    case None => true
  }

  /** The survivors of `remove(atOffsets:)` come from distinct positions, so distinct ids stay distinct. */
  lemma RemoveAtOffsetsKeepsDistinct(books: seq<Book>, offsets: set<nat>)
    requires OffsetsWithin(offsets, |books|) && DistinctIds(books)
    ensures DistinctIds(RemoveAtOffsets(books, offsets))
  {
    var kept := KeptIndices(|books|, offsets);
    var r := RemoveAtOffsets(books, offsets);
    forall i, j | 0 <= i < j < |r|
      ensures r[i].id != r[j].id
    {
      assert r[i] == books[kept[i]] && r[j] == books[kept[j]];
      assert kept[i] < kept[j];
    }
  }

  /**
   * `removeBooks(at:from:)`: the books at the offsets leave the first
   * collection with that id; an unknown id changes nothing.
   */
  function RemoveBooks(cs: seq<Collection>, offsets: set<nat>, collectionId: string): (r: seq<Collection>)
    requires OffsetsFitCollection(cs, collectionId, offsets)
    ensures !Exists(cs, WithId(collectionId)) ==> r == cs
    ensures |r| == |cs|
    ensures Exists(cs, WithId(collectionId)) ==>
      var i := FirstIndex(cs, WithId(collectionId)).value;
      && r[i].id == cs[i].id && r[i].name == cs[i].name
      && |r[i].books| + |offsets| == |cs[i].books|
      && (forall k :: 0 <= k < |cs[i].books| && k !in offsets ==> cs[i].books[k] in r[i].books)
      && PicksAt(r[i].books, cs[i].books, KeptIndices(|cs[i].books|, offsets))
      && forall j :: 0 <= j < |cs| && j != i ==> r[j] == cs[j]
    ensures BooksDistinct(cs) ==> BooksDistinct(r)
  {
    match FirstIndex(cs, WithId(collectionId))
    case Some(i) =>
      var kept := RemoveAtOffsets(cs[i].books, offsets);
      assert forall k :: 0 <= k < |cs[i].books| && k !in offsets ==> cs[i].books[k] in kept by {
        forall k | 0 <= k < |cs[i].books| && k !in offsets
          ensures cs[i].books[k] in kept
        {
          var idx := KeptIndices(|cs[i].books|, offsets);
          var m :| 0 <= m < |idx| && idx[m] == k;
          assert kept[m] == cs[i].books[k];
        }
      }
      assert DistinctIds(cs[i].books) ==> DistinctIds(kept) by {
        if DistinctIds(cs[i].books) {
          RemoveAtOffsetsKeepsDistinct(cs[i].books, offsets);
        }
      }
      cs[i := cs[i].(books := kept)]
    case None => cs
  }

  /** `deleteCollections(at:)`: drops the collections at the offsets and keeps the rest in order. */
  function DeleteCollections(cs: seq<Collection>, offsets: set<nat>): (r: seq<Collection>)
    requires OffsetsWithin(offsets, |cs|)
    ensures |r| + |offsets| == |cs|
    ensures |r| == |KeptIndices(|cs|, offsets)|
    ensures forall k :: 0 <= k < |r| ==> r[k] == cs[KeptIndices(|cs|, offsets)[k]]
    ensures forall i :: 0 <= i < |cs| && i !in offsets ==> cs[i] in r
  {
    var r := RemoveAtOffsets(cs, offsets);
    var idx := KeptIndices(|cs|, offsets);
    assert forall i :: 0 <= i < |cs| && i !in offsets ==> cs[i] in r by {
      forall i | 0 <= i < |cs| && i !in offsets
        ensures cs[i] in r
      {
        var m :| 0 <= m < |idx| && idx[m] == i;
        assert r[m] == cs[i];
      }
    }
    r
  }

  /** Removing no books from a collection changes nothing. */
  lemma RemoveNoBooks(cs: seq<Collection>, collectionId: string)
    ensures RemoveBooks(cs, {}, collectionId) == cs
  {
    if Exists(cs, WithId(collectionId)) {
      var i := FirstIndex(cs, WithId(collectionId)).value;
      var books := cs[i].books;
      var kept := RemoveAtOffsets(books, {});
      forall k | 0 <= k < |books|
        ensures kept[k] == books[k]
      {
        KeptIndicesIdentity(|books|, k);
      }
      assert kept == books;
      assert cs[i := cs[i].(books := kept)] == cs;
    }
  }

  /** Every position below `n`: the offsets of a full swipe selection. */
  function AllPositions(n: nat): (r: set<nat>)
    ensures |r| == n
    ensures forall k: int :: k in r <==> 0 <= k < n
    decreases n
  {
    if n == 0 then {} else AllPositions(n - 1) + {n - 1}
  }

  /**
   * Removing every position of a collection empties it; the other
   * collections keep their books.
   */
  lemma RemoveAllBooks(cs: seq<Collection>, collectionId: string, i: nat)
    requires i < |cs| && FirstIndex(cs, WithId(collectionId)) == Some(i)
    ensures RemoveBooks(cs, AllPositions(|cs[i].books|), collectionId)[i].books == []
    ensures forall j :: 0 <= j < |cs| && j != i ==> RemoveBooks(cs, AllPositions(|cs[i].books|), collectionId)[j] == cs[j]
  {
  }

  /** Deleting no offsets changes nothing. */
  lemma DeleteNothing(cs: seq<Collection>)
    ensures DeleteCollections(cs, {}) == cs
  {
    var r := DeleteCollections(cs, {});
    var idx := KeptIndices(|cs|, {});
    assert |r| == |cs|;
    forall k | 0 <= k < |cs|
      ensures r[k] == cs[k]
    {
      KeptIndicesIdentity(|cs|, k);
    }
  }

  /** With nothing removed, the kept indices are 0, 1, ..., n-1. */
  lemma {:induction false} KeptIndicesIdentity(n: nat, k: nat)
    requires k < n
    ensures |KeptIndices(n, {})| == n && KeptIndices(n, {})[k] == k
    decreases n
  {
    KeptIndicesCount(n, {});
    if k < n - 1 {
      KeptIndicesIdentity(n - 1, k);
    }
  }
}
