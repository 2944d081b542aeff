/**
 * `ReadingListService`: the reader's saved books, deduplicated by id.
 * Persisting the list to user defaults is not modelled.
 */
module ReadingList {
  import opened Common
  import opened Books

  function HasBookId(id: string): Book -> bool {
    (b: Book) => b.id == id
  }

  function OtherId(id: string): Book -> bool {
    (b: Book) => b.id != id
  }

  /** `isInReadingList(_:)`: some entry has the book's id. */
  predicate IsInReadingList(list: seq<Book>, b: Book) {
    Exists(list, HasBookId(b.id))
  }

  /** Membership by id is exactly `contains` under the id-only `==`. */
  lemma IsInIsContains(list: seq<Book>, b: Book)
    ensures IsInReadingList(list, b) <==> ContainsBook(list, b)
  {
    if ContainsBook(list, b) {
      var i :| 0 <= i < |list| && SameBook(list[i], b);
      assert HasBookId(b.id)(list[i]);
    }
  }

  /** `addToReadingList(_:)`: appended at the end unless the id is already there. */
  function AddToReadingList(list: seq<Book>, b: Book): (r: seq<Book>)
    ensures IsInReadingList(r, b)
    ensures IsInReadingList(list, b) ==> r == list
    ensures !IsInReadingList(list, b) ==> |r| == |list| + 1 && r[..|list|] == list && r[|list|] == b
    ensures DistinctIds(list) ==> DistinctIds(r)
  {
    if IsInReadingList(list, b) then list
    else
      var r := list + [b];
      assert HasBookId(b.id)(r[|list|]);
      assert DistinctIds(list) ==> DistinctIds(r) by {
        if DistinctIds(list) {
          forall i, j | 0 <= i < j < |r|
            ensures r[i].id != r[j].id
          {
            if j == |list| {
              assert !HasBookId(b.id)(list[i]);
            }
          }
        }
      }
      r
  }

  /** `removeFromReadingList(_:)`: every entry with the id goes; the rest keep their order. */
  function RemoveFromReadingList(list: seq<Book>, b: Book): (r: seq<Book>)
    ensures !IsInReadingList(r, b)
    ensures forall k :: 0 <= k < |r| ==> r[k] in list
    ensures forall i :: 0 <= i < |list| && list[i].id != b.id ==> list[i] in r
    ensures KeepsInOrder(r, list, OtherId(b.id))
    ensures DistinctIds(list) ==> DistinctIds(r)
    ensures !IsInReadingList(list, b) ==> r == list
  {
    var r := Filter(list, OtherId(b.id));
    FilterKeepsInOrder(list, OtherId(b.id));
    assert DistinctIds(list) ==> DistinctIds(r) by {
      if DistinctIds(list) {
        DistinctIdsIsPairwise(list);
        FilterPairwise(list, OtherId(b.id), DifferentIds);
        DistinctIdsIsPairwise(r);
      }
    }
    assert !IsInReadingList(list, b) ==> r == list by {
      if !IsInReadingList(list, b) {
        FilterKeepsAll(list, OtherId(b.id));
      }
    }
    r
  }

  /**
   * Removing a book is `remove(atOffsets:)` at the positions of the entries
   * with its id; with distinct ids that is at most one position.
   */
  lemma RemoveIsRemoveAtOffsets(list: seq<Book>, b: Book)
    ensures RemoveFromReadingList(list, b)
         == RemoveAtOffsets(list, set i: nat | i < |list| && list[i].id == b.id)
  {
    FilterIsRemoveAtOffsets(list, OtherId(b.id));
    assert Failing(list, OtherId(b.id)) == set i: nat | i < |list| && list[i].id == b.id;
  }

  function DifferentIds(a: Book, b: Book): bool {
    a.id != b.id
  }

  lemma DistinctIdsIsPairwise(list: seq<Book>)
    ensures DistinctIds(list) <==> Pairwise(list, DifferentIds)
  {
  }

  /** Removing one id keeps the membership of every other id. */
  lemma RemoveKeepsOtherIds(list: seq<Book>, b: Book)
    ensures var r := RemoveFromReadingList(list, b);
      forall c: Book :: c.id != b.id ==> (IsInReadingList(r, c) <==> IsInReadingList(list, c))
  {
    var r := RemoveFromReadingList(list, b);
    forall c: Book | c.id != b.id
      ensures IsInReadingList(r, c) <==> IsInReadingList(list, c)
    {
      if IsInReadingList(list, c) {
        var i :| 0 <= i < |list| && HasBookId(c.id)(list[i]);
        var k :| 0 <= k < |r| && r[k] == list[i];
        assert HasBookId(c.id)(r[k]);
      }
      if IsInReadingList(r, c) {
        var k :| 0 <= k < |r| && HasBookId(c.id)(r[k]);
        var i :| 0 <= i < |list| && list[i] == r[k];
        assert HasBookId(c.id)(list[i]);
      }
    }
  }

  /** `toggleReadingListStatus(_:)`. */
  function ToggleReadingListStatus(list: seq<Book>, b: Book): (r: seq<Book>)
    ensures IsInReadingList(r, b) <==> !IsInReadingList(list, b)
    ensures DistinctIds(list) ==> DistinctIds(r)
    ensures forall c: Book :: c.id != b.id ==> (IsInReadingList(r, c) <==> IsInReadingList(list, c))
  {
    if IsInReadingList(list, b) then
      RemoveKeepsOtherIds(list, b);
      var r := RemoveFromReadingList(list, b);
      r
    else
      var r := AddToReadingList(list, b);
      assert forall c: Book :: c.id != b.id ==> (IsInReadingList(r, c) <==> IsInReadingList(list, c)) by {
        forall c: Book | c.id != b.id
          ensures IsInReadingList(r, c) <==> IsInReadingList(list, c)
        {
          if IsInReadingList(list, c) {
            var i :| 0 <= i < |list| && HasBookId(c.id)(list[i]);
            assert r[i] == list[i];
          }
        }
      }
      r
  }

  /** Toggling twice restores membership of every id. */
  lemma ToggleTwiceRestoresMembership(list: seq<Book>, b: Book, c: Book)
    ensures IsInReadingList(ToggleReadingListStatus(ToggleReadingListStatus(list, b), b), c)
        <==> IsInReadingList(list, c)
  {
  }

  /** ...but not the position: a first entry toggled twice moves to the end. */
  lemma ToggleTwiceMovesToEnd(list: seq<Book>)
    requires DistinctIds(list) && |list| >= 2
    ensures ToggleReadingListStatus(ToggleReadingListStatus(list, list[0]), list[0]) == list[1..] + [list[0]]
    ensures ToggleReadingListStatus(ToggleReadingListStatus(list, list[0]), list[0]) != list
  {
    var b := list[0];
    assert IsInReadingList(list, b) by {
      assert HasBookId(b.id)(list[0]);
    }
    var once := RemoveFromReadingList(list, b);
    assert forall i :: 0 <= i < |list[1..]| ==> OtherId(b.id)(list[1..][i]) by {
      forall i | 0 <= i < |list[1..]|
        ensures OtherId(b.id)(list[1..][i])
      {
        assert list[1..][i] == list[i + 1];
      }
    }
    FilterKeepsAll(list[1..], OtherId(b.id));
    assert once == list[1..];
    assert (list[1..] + [b])[0] == list[1] != list[0];
  }
}
