/**
 * The scan session of `EnhancedBarcodeScannerView`: the list of scanned
 * ISBNs, each with its lookup status and whether its book was added to a
 * collection. Every `ScannedBookItem` draws a fresh `UUID()` when it is
 * built; here the session hands out ids from a counter, so freshness is
 * visible. Dates are parameters.
 */
module ScanSession {
  import opened Common
  import opened Books
  import opened Collections
  import Isbn
  import OpenLibrary
  import GoogleBooks

  type Date = int

  datatype ScanStatus = Scanning | Found | NotFound | Error

  datatype ScannedBookItem = ScannedBookItem(
    id: nat,
    isbn: string,
    book: Option<Book>,
    status: ScanStatus,
    addedToCollection: bool,
    dateScanned: Date)

  datatype Session = Session(
    items: seq<ScannedBookItem>,
    nextId: nat,
    currentScannedCode: string,
    isProcessing: bool)

  /** Item ids are distinct and below the counter; ISBNs are distinct. */
  predicate Valid(s: Session) {
    && (forall k :: 0 <= k < |s.items| ==> s.items[k].id < s.nextId)
    && (forall k, l :: 0 <= k < l < |s.items| ==> s.items[k].id != s.items[l].id)
    && (forall k, l :: 0 <= k < l < |s.items| ==> s.items[k].isbn != s.items[l].isbn)
  }

  const EmptySession := Session([], 0, "", false)

  function WithIsbn(isbn: string): ScannedBookItem -> bool {
    (it: ScannedBookItem) => it.isbn == isbn
  }

  function WithItemId(id: nat): ScannedBookItem -> bool {
    (it: ScannedBookItem) => it.id == id
  }

  /**
   * `handleScannedCode(_:)` up to the lookup: an ISBN already in the list
   * changes only the current code; a new one is appended as `.scanning`.
   */
  function HandleScannedCode(s: Session, code: string, now: Date): (r: Session)
    ensures r.currentScannedCode == code
    ensures Exists(s.items, WithIsbn(code)) ==> r == s.(currentScannedCode := code)
    ensures !Exists(s.items, WithIsbn(code)) ==>
      && |r.items| == |s.items| + 1 && r.items[..|s.items|] == s.items
      && r.items[|s.items|] == ScannedBookItem(s.nextId, code, None, Scanning, false, now)
      && r.isProcessing
    ensures Valid(s) ==> Valid(r)
  {
    if Exists(s.items, WithIsbn(code)) then s.(currentScannedCode := code)
    else
      var r := s.(items := s.items + [ScannedBookItem(s.nextId, code, None, Scanning, false, now)],
                  nextId := s.nextId + 1,
                  currentScannedCode := code,
                  isProcessing := true);
      assert Valid(s) ==> Valid(r) by {
        if Valid(s) {
          forall k | 0 <= k < |s.items|
            ensures r.items[k].isbn != code
          {
            assert !WithIsbn(code)(s.items[k]);
          }
        }
      }
      r
  }

  /**
   * `updateScannedBook(isbn:book:status:)`: the first item with the ISBN is
   * rebuilt with the new book and status, keeping its added flag and date;
   * the rebuilt item has a fresh id.
   */
  function UpdateScannedBook(s: Session, isbn: string, book: Option<Book>, status: ScanStatus): (r: Session)
    ensures |r.items| == |s.items| && r.currentScannedCode == s.currentScannedCode
    ensures !Exists(s.items, WithIsbn(isbn)) ==> r == s
    ensures Exists(s.items, WithIsbn(isbn)) ==>
      var i := FirstIndex(s.items, WithIsbn(isbn)).value;
      && r.items[i].isbn == isbn && r.items[i].book == book && r.items[i].status == status
      && r.items[i].addedToCollection == s.items[i].addedToCollection
      && r.items[i].dateScanned == s.items[i].dateScanned
      && forall k :: 0 <= k < |s.items| && k != i ==> r.items[k] == s.items[k]
    ensures Valid(s) && Exists(s.items, WithIsbn(isbn)) ==>
      var i := FirstIndex(s.items, WithIsbn(isbn)).value;
      forall k :: 0 <= k < |s.items| ==> s.items[k].id != r.items[i].id
    ensures forall k :: 0 <= k < |s.items| ==> r.items[k].isbn == s.items[k].isbn
    ensures Valid(s) ==> Valid(r)
  {
    match FirstIndex(s.items, WithIsbn(isbn))
    case None => s
    case Some(i) =>
      var old_ := s.items[i];
      var rebuilt := ScannedBookItem(s.nextId, isbn, book, status, old_.addedToCollection, old_.dateScanned);
      Rebuild(s, i, rebuilt)
  }

  /** Replaces the item at `i` by `rebuilt`, which took the counter's id and keeps the ISBN. */
  function Rebuild(s: Session, i: nat, rebuilt: ScannedBookItem): (r: Session)
    requires i < |s.items| && rebuilt.id == s.nextId && rebuilt.isbn == s.items[i].isbn
    ensures r.items == s.items[i := rebuilt] && r.nextId == s.nextId + 1
    ensures r.currentScannedCode == s.currentScannedCode && r.isProcessing == s.isProcessing
    ensures Valid(s) ==> Valid(r)
    ensures Valid(s) ==> forall k :: 0 <= k < |s.items| ==> s.items[k].id != rebuilt.id
  {
    s.(items := s.items[i := rebuilt], nextId := s.nextId + 1)
  }

  /**
   * The lookup's answer: Open Library first, then Google Books; either hit
   * marks the item found, two misses mark it not found.
   */
  function LookupFinished(s: Session, code: string, openLibrary: Option<Book>, google: Option<Book>): (r: Session)
    ensures !r.isProcessing
    ensures |r.items| == |s.items|
    ensures Exists(s.items, WithIsbn(code)) ==>
      var i := FirstIndex(s.items, WithIsbn(code)).value;
      && (r.items[i].status == Found <==> openLibrary.Some? || google.Some?)
      && (r.items[i].status == Found ==> r.items[i].book.Some?)
      && (r.items[i].status != Found ==> r.items[i].status == NotFound && r.items[i].book.None?)
      && (openLibrary.Some? ==> r.items[i].book == openLibrary)
      && (openLibrary.None? && google.Some? ==> r.items[i].book == google)
      && forall j :: 0 <= j < |s.items| && j != i ==> r.items[j] == s.items[j]
    ensures !Exists(s.items, WithIsbn(code)) ==> r.items == s.items
    ensures Valid(s) ==> Valid(r)
  {
    var r :=
      if openLibrary.Some? then UpdateScannedBook(s, code, openLibrary, Found)
      else if google.Some? then UpdateScannedBook(s, code, google, Found)
      else UpdateScannedBook(s, code, None, NotFound);
    r.(isProcessing := false)
  }

  /** The lookup chain of `handleScannedCode(_:)` fed with the two services' replies. */
  function LookupReplies(s: Session, code: string,
                         openLibraryReply: Reply<OpenLibrary.OpenLibraryResponse>,
                         googleReply: Reply<GoogleBooks.GoogleBooksResponse>): (r: Session)
    ensures r == LookupFinished(s, code, OpenLibrary.FetchBookByISBN(code, openLibraryReply).0,
                                GoogleBooks.FetchBookInfo(code, googleReply))
    ensures Valid(s) ==> Valid(r)
  {
    LookupFinished(s, code, OpenLibrary.FetchBookByISBN(code, openLibraryReply).0,
                   GoogleBooks.FetchBookInfo(code, googleReply))
  }

  /** A code with no ISBN character in it is marked not found whatever the services answer. */
  lemma UnreadableCodeNotFound(s: Session, code: string, now: Date,
                               openLibraryReply: Reply<OpenLibrary.OpenLibraryResponse>,
                               googleReply: Reply<GoogleBooks.GoogleBooksResponse>)
    requires Isbn.CleanISBN(code) == ""
    requires !Exists(s.items, WithIsbn(code))
    ensures var r := LookupReplies(HandleScannedCode(s, code, now), code, openLibraryReply, googleReply);
      |r.items| == |s.items| + 1 && r.items[|s.items|].status == NotFound && r.items[|s.items|].isbn == code
      && !r.isProcessing
  {
    var h := HandleScannedCode(s, code, now);
    assert FirstIndex(h.items, WithIsbn(code)) == Some(|s.items|) by {
      assert WithIsbn(code)(h.items[|s.items|]);
      assert forall j :: 0 <= j < |s.items| ==> h.items[j] == s.items[j];
    }
  }

  /** Rebuilds `item` (looked up by its id) with the added flag set. */
  function MarkAdded(s: Session, item: ScannedBookItem): (r: Session)
    ensures |r.items| == |s.items| && r.currentScannedCode == s.currentScannedCode
    ensures r.isProcessing == s.isProcessing
    ensures !Exists(s.items, WithItemId(item.id)) ==> r == s
    ensures Exists(s.items, WithItemId(item.id)) ==>
      var i := FirstIndex(s.items, WithItemId(item.id)).value;
      && r.items[i] == item.(id := s.nextId, addedToCollection := true)
      && forall k :: 0 <= k < |s.items| && k != i ==> r.items[k] == s.items[k]
    ensures Valid(s) && (Exists(s.items, WithItemId(item.id)) ==> s.items[FirstIndex(s.items, WithItemId(item.id)).value] == item)
      ==> Valid(r)
  {
    match FirstIndex(s.items, WithItemId(item.id))
    case None => s
    case Some(i) =>
      var rebuilt := ScannedBookItem(s.nextId, item.isbn, item.book, item.status, true, item.dateScanned);
      if item.isbn == s.items[i].isbn then Rebuild(s, i, rebuilt)
      else s.(items := s.items[i := rebuilt], nextId := s.nextId + 1)
  }

  /**
   * `ScannedBookItem` draws its id on construction, so marking an item
   * added gives it an id no item of a valid session had before.
   */
  lemma MarkAddedGivesFreshId(s: Session, item: ScannedBookItem)
    requires Valid(s) && Exists(s.items, WithItemId(item.id))
    ensures var i := FirstIndex(s.items, WithItemId(item.id)).value;
      && MarkAdded(s, item).items[i].id != item.id
      && forall k :: 0 <= k < |s.items| ==> s.items[k].id != MarkAdded(s, item).items[i].id
  {
  }

  /**
   * `addToCollection(_:)`: without a selected collection or without a book
   * nothing happens; otherwise the book goes into the collection and the
   * item is marked added. Returns the session and the collections.
   */
  function AddToCollection(s: Session, cs: seq<Collection>, selected: Option<string>,
                           item: ScannedBookItem, newCollectionId: string): (r: (Session, seq<Collection>))
    ensures |r.0.items| == |s.items|
    ensures selected.None? || item.book.None? ==> r == (s, cs)
    ensures selected.Some? && item.book.Some? ==>
      r.1 == AddBookToCollection(cs, item.book.value, selected.value, newCollectionId)
    ensures selected.Some? && item.book.Some? && Exists(s.items, WithItemId(item.id)) ==>
      var i := FirstIndex(s.items, WithItemId(item.id)).value;
      r.0.items[i].addedToCollection && r.0.items[i].isbn == item.isbn && r.0.items[i].book == item.book
  {
    if selected.None? || item.book.None? then (s, cs)
    else
      var cs' := AddBookToCollection(cs, item.book.value, selected.value, newCollectionId);
      (MarkAdded(s, item), cs')
  }

  /** Found, not yet added, and holding a book: what "Add All Found" acts on. */
  predicate Pending(it: ScannedBookItem) {
    it.status == Found && !it.addedToCollection && it.book.Some?
  }

  /** `after` is `before` marked added under a new id. */
  predicate MarkedCopy(before: ScannedBookItem, after: ScannedBookItem) {
    after == before.(id := after.id, addedToCollection := true)
  }

  /**
   * The first `k` items of the snapshot `s` have been handled in `r`: the
   * pending ones are marked copies, the rest are untouched, and so is every
   * item from `k` on.
   */
  predicate Processed(s: Session, r: Session, k: nat) {
    && Valid(r) && |r.items| == |s.items| && k <= |s.items|
    && (forall j :: k <= j < |s.items| ==> r.items[j] == s.items[j])
    && (forall j :: 0 <= j < k && !Pending(s.items[j]) ==> r.items[j] == s.items[j])
    && (forall j :: 0 <= j < k && Pending(s.items[j]) ==> MarkedCopy(s.items[j], r.items[j]))
  }

  /** The selected collection `c` holds the book of every pending item before `k`. */
  predicate Collected(s: Session, rcs: seq<Collection>, sel: string, c: nat, k: nat) {
    && FirstIndex(rcs, WithId(sel)) == Some(c)
    && forall j :: 0 <= j < k && j < |s.items| && Pending(s.items[j]) ==> ContainsBook(rcs[c].books, s.items[j].book.value)
  }

  /** Marking the pending item at `k` extends the handled prefix by one. */
  lemma MarkPendingStep(s: Session, r: Session, k: nat)
    requires Processed(s, r, k) && k < |s.items| && Pending(s.items[k])
    ensures Processed(s, MarkAdded(r, s.items[k]), k + 1)
  {
    IdLocatesItem(r, k);
    var r' := MarkAdded(r, s.items[k]);
    assert r'.items[k] == s.items[k].(id := r.nextId, addedToCollection := true);
  }

  /**
   * `addAllFoundBooksToCollection()`: walks a snapshot of the list; every
   * found, not-added item with a book goes into the selected collection and
   * is marked added. The k-th item may use `newCollectionIds[k]` should the
   * selected collection be gone.
   */
  method AddAllFoundBooksToCollection(s: Session, cs: seq<Collection>, selected: Option<string>,
                                      newCollectionIds: seq<string>)
    returns (r: Session, rcs: seq<Collection>)
    requires Valid(s)
    requires |newCollectionIds| >= |s.items|
    ensures selected.None? ==> r == s && rcs == cs
    ensures Valid(r) && |r.items| == |s.items|
    ensures selected.Some? ==> forall k :: 0 <= k < |r.items| ==> !Pending(r.items[k])
    ensures forall k :: 0 <= k < |s.items| && !Pending(s.items[k]) ==> r.items[k] == s.items[k]
    ensures selected.Some? ==> forall k :: 0 <= k < |s.items| && Pending(s.items[k]) ==> MarkedCopy(s.items[k], r.items[k])
    ensures selected.Some? && Exists(cs, WithId(selected.value)) ==>
      var c := FirstIndex(cs, WithId(selected.value)).value;
      && FirstIndex(rcs, WithId(selected.value)) == Some(c)
      && forall k :: 0 <= k < |s.items| && Pending(s.items[k]) ==> ContainsBook(rcs[c].books, s.items[k].book.value)
  {
    if selected.None? {
      return s, cs;
    }
    var sel := selected.value;
    var hasSel := Exists(cs, WithId(sel));
    var c: nat := if hasSel then FirstIndex(cs, WithId(sel)).value else 0;
    r, rcs := s, cs;
    var k := 0;
    while k < |s.items|
      invariant 0 <= k <= |s.items|
      invariant Processed(s, r, k)
      invariant hasSel ==> Collected(s, rcs, sel, c, k)
    {
      var item := s.items[k];
      if item.status == Found && !item.addedToCollection && item.book.Some? {
        var before := rcs;
        rcs := AddBookToCollection(rcs, item.book.value, sel, newCollectionIds[k]);
        if hasSel {
          AddKeepsCollected(s, before, rcs, sel, c, k, newCollectionIds[k]);
        }
        MarkPendingStep(s, r, k);
        r := MarkAdded(r, item);
      }
      k := k + 1;
    }
    assert forall j :: 0 <= j < |r.items| ==> !Pending(r.items[j]) by {
      forall j | 0 <= j < |r.items|
        ensures !Pending(r.items[j])
      {
        if Pending(s.items[j]) {
          assert MarkedCopy(s.items[j], r.items[j]);
        }
      }
    }
  }

  /** With distinct ids, looking an item up by its own id finds its position. */
  lemma IdLocatesItem(s: Session, k: nat)
    requires Valid(s) && k < |s.items|
    ensures FirstIndex(s.items, WithItemId(s.items[k].id)) == Some(k)
  {
    assert WithItemId(s.items[k].id)(s.items[k]);
  }

  /** Adding the pending item's book to the selected collection extends `Collected` by one. */
  lemma AddKeepsCollected(s: Session, before: seq<Collection>, after: seq<Collection>,
                          sel: string, c: nat, k: nat, nid: string)
    requires k < |s.items| && Pending(s.items[k])
    requires Collected(s, before, sel, c, k)
    requires after == AddBookToCollection(before, s.items[k].book.value, sel, nid)
    ensures Collected(s, after, sel, c, k + 1)
  {
    assert Exists(before, WithId(sel));
    forall x: Book | ContainsBook(before[c].books, x)
      ensures ContainsBook(after[c].books, x)
    {
      var i :| 0 <= i < |before[c].books| && SameBook(before[c].books[i], x);
      assert after[c].books[i] == before[c].books[i];
    }
    assert WithId(sel)(after[c]);
    assert forall j :: 0 <= j < c ==> after[j] == before[j];
  }

  /** `removeScannedBook(_:)`: every item with that id goes; the rest keep their order. */
  function RemoveScannedBook(s: Session, itemId: nat): (r: Session)
    ensures forall k :: 0 <= k < |r.items| ==> r.items[k].id != itemId && r.items[k] in s.items
    ensures forall k :: 0 <= k < |s.items| && s.items[k].id != itemId ==> s.items[k] in r.items
    ensures KeepsInOrder(r.items, s.items, NotItemId(itemId))
    ensures r == s.(items := r.items)
    ensures Valid(s) ==> Valid(r)
  {
    var r := s.(items := Filter(s.items, NotItemId(itemId)));
    FilterKeepsInOrder(s.items, NotItemId(itemId));
    assert Valid(s) ==> Valid(r) by {
      if Valid(s) {
        ValidFilter(s, NotItemId(itemId));
      }
    }
    r
  }

  /** Removing by id is `remove(atOffsets:)` at the positions of the items with that id. */
  lemma RemoveScannedIsRemoveAtOffsets(s: Session, itemId: nat)
    ensures RemoveScannedBook(s, itemId).items
         == RemoveAtOffsets(s.items, set i: nat | i < |s.items| && s.items[i].id == itemId)
  {
    var offsets := set i: nat | i < |s.items| && s.items[i].id == itemId;
    assert RemoveScannedBook(s, itemId).items == Filter(s.items, NotItemId(itemId));
    FilterIsRemoveAtOffsets(s.items, NotItemId(itemId));
    assert Failing(s.items, NotItemId(itemId)) == offsets;
  }

  /** Scanning a new item and then removing it gives back the list before the scan. */
  lemma RemoveUndoesAppend(s: Session, item: ScannedBookItem)
    requires Valid(s) && item.id >= s.nextId
    ensures RemoveScannedBook(s.(items := s.items + [item]), item.id).items == s.items
  {
    FilterAppend(s.items, [item], NotItemId(item.id));
    FilterKeepsAll(s.items, NotItemId(item.id));
  }

  function NotItemId(id: nat): ScannedBookItem -> bool {
    (it: ScannedBookItem) => it.id != id
  }

  function NotNotFound(it: ScannedBookItem): bool {
    it.status != NotFound
  }

  function DifferentIdAndIsbn(a: ScannedBookItem, b: ScannedBookItem): bool {
    a.id != b.id && a.isbn != b.isbn
  }

  /** Filtering the list keeps the session valid. */
  lemma ValidFilter(s: Session, p: ScannedBookItem -> bool)
    requires Valid(s)
    ensures Valid(s.(items := Filter(s.items, p)))
  {
    var f := Filter(s.items, p);
    assert Pairwise(s.items, DifferentIdAndIsbn) by {
      forall k, l | 0 <= k < l < |s.items|
        ensures DifferentIdAndIsbn(s.items[k], s.items[l])
      {
      }
    }
    FilterPairwise(s.items, p, DifferentIdAndIsbn);
    forall k | 0 <= k < |f|
      ensures f[k].id < s.nextId
    {
      var j :| 0 <= j < |s.items| && s.items[j] == f[k];
    }
    forall k, l | 0 <= k < l < |f|
      ensures f[k].id != f[l].id && f[k].isbn != f[l].isbn
    {
      assert DifferentIdAndIsbn(f[k], f[l]);
    }
  }

  /** `clearAllScans()`. */
  function ClearAllScans(s: Session): (r: Session)
    ensures r.items == [] && Valid(r)
    ensures r.nextId == s.nextId
  {
    s.(items := [])
  }

  /** "Remove Not Found" is `remove(atOffsets:)` at the positions of the not-found items. */
  lemma RemoveNotFoundIsRemoveAtOffsets(s: Session)
    ensures RemoveNotFound(s).items
         == RemoveAtOffsets(s.items, set i: nat | i < |s.items| && s.items[i].status == NotFound)
  {
    FilterIsRemoveAtOffsets(s.items, NotNotFound);
    assert Failing(s.items, NotNotFound) == set i: nat | i < |s.items| && s.items[i].status == NotFound;
  }

  /** The "Remove Not Found" bulk action: the not-found items go, the rest keep their order. */
  function RemoveNotFound(s: Session): (r: Session)
    ensures forall k :: 0 <= k < |r.items| ==> r.items[k].status != NotFound && r.items[k] in s.items
    ensures forall k :: 0 <= k < |s.items| && s.items[k].status != NotFound ==> s.items[k] in r.items
    ensures |r.items| == |s.items| - NotFoundCount(s)
    ensures KeepsInOrder(r.items, s.items, NotNotFound)
    ensures Valid(s) ==> Valid(r)
  {
    var r := s.(items := Filter(s.items, NotNotFound));
    FilterKeepsInOrder(s.items, NotNotFound);
    assert Valid(s) ==> Valid(r) by {
      if Valid(s) {
        ValidFilter(s, NotNotFound);
      }
    }
    CountSplit(s.items, IsNotFound, NotNotFound);
    r
  }

  function IsFound(it: ScannedBookItem): bool { it.status == Found }
  function IsNotFound(it: ScannedBookItem): bool { it.status == NotFound }
  function IsAdded(it: ScannedBookItem): bool { it.addedToCollection }

  /** The header badges. */
  function ScannedCount(s: Session): nat { |s.items| }
  function FoundCount(s: Session): nat { Count(s.items, IsFound) }
  function NotFoundCount(s: Session): nat { Count(s.items, IsNotFound) }
  function AddedCount(s: Session): nat { Count(s.items, IsAdded) }

  /** Two tests that never both hold count no more than the whole list between them. */
  lemma {:induction false} CountDisjoint(xs: seq<ScannedBookItem>, p: ScannedBookItem -> bool, q: ScannedBookItem -> bool)
    requires forall x :: !(p(x) && q(x))
    ensures Count(xs, p) + Count(xs, q) <= |xs|
    decreases |xs|
  {
    if |xs| > 0 {
      CountDisjoint(xs[1..], p, q);
    }
  }

  /** A test and its negation split the list exactly. */
  lemma {:induction false} CountSplit(xs: seq<ScannedBookItem>, p: ScannedBookItem -> bool, q: ScannedBookItem -> bool)
    requires forall x :: q(x) <==> !p(x)
    ensures Count(xs, p) + Count(xs, q) == |xs|
    decreases |xs|
  {
    if |xs| > 0 {
      CountSplit(xs[1..], p, q);
    }
  }

  /** Each badge is at most the scanned count, and found plus not found never exceeds it. */
  lemma HeaderCountsBounded(s: Session)
    ensures FoundCount(s) <= ScannedCount(s) && NotFoundCount(s) <= ScannedCount(s)
    ensures AddedCount(s) <= ScannedCount(s)
    ensures FoundCount(s) + NotFoundCount(s) <= ScannedCount(s)
  {
    CountDisjoint(s.items, IsFound, IsNotFound);
  }

  /** "Add All Found" is enabled with a selected collection and a found item not yet added. */
  predicate AddAllEnabled(s: Session, selected: Option<string>) {
    selected.Some? && exists k :: 0 <= k < |s.items| && s.items[k].status == Found && !s.items[k].addedToCollection
  }

  /** Once every found item carries a book, "Add All Found" disables itself after running. */
  method AddAllThenDisabled(s: Session, cs: seq<Collection>, selected: Option<string>, newCollectionIds: seq<string>)
    returns (r: Session, rcs: seq<Collection>)
    requires Valid(s) && |newCollectionIds| >= |s.items| && selected.Some?
    requires forall k :: 0 <= k < |s.items| && s.items[k].status == Found ==> s.items[k].book.Some?
    ensures !AddAllEnabled(r, selected)
    ensures Valid(r) && |r.items| == |s.items|
  {
    r, rcs := AddAllFoundBooksToCollection(s, cs, selected, newCollectionIds);
    forall k | 0 <= k < |r.items| && r.items[k].status == Found
      ensures r.items[k].addedToCollection
    {
      if !Pending(s.items[k]) {
        assert r.items[k] == s.items[k];
      } else {
        assert MarkedCopy(s.items[k], r.items[k]);
      }
    }
  }
}
