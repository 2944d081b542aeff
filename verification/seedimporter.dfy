/**
 * `SeedImporterView`: the staff screen listing the daily service's seed
 * pool with a search box. Deleting, importing and adding are placeholders
 * in the app and leave the pool as it is. The locale-aware
 * `localizedCaseInsensitiveContains` is a parameter `matches(text, query)`.
 */
module SeedImporter {
  import opened Common
  import opened Text
  import opened Books
  import BookStore
  import ReadingTracker

  /** The book's title or one of its authors matches the query. */
  function MatchesQuery(query: string, matches: (string, string) -> bool): Book -> bool {
    (b: Book) => matches(b.title, query) || exists k :: 0 <= k < |b.authors| && matches(b.authors[k], query)
  }

  /** `filteredBooks`: the whole pool for an empty query, else the matching books in pool order. */
  function FilteredBooks(pool: seq<Book>, searchText: string, matches: (string, string) -> bool): (r: seq<Book>)
    ensures searchText == "" ==> r == pool
    ensures forall k :: 0 <= k < |r| ==> r[k] in pool
    ensures searchText != "" ==> forall k :: 0 <= k < |r| ==> MatchesQuery(searchText, matches)(r[k])
    ensures searchText != "" ==>
      forall i :: 0 <= i < |pool| && MatchesQuery(searchText, matches)(pool[i]) ==> pool[i] in r
    ensures searchText != "" ==> KeepsInOrder(r, pool, MatchesQuery(searchText, matches))
  {
    FilterKeepsInOrder(pool, MatchesQuery(searchText, matches));
    if searchText == "" then pool else Filter(pool, MatchesQuery(searchText, matches))
  }

  /**
   * A book added to the end of the pool shows at the end of the list exactly
   * when it matches the query (or the query is empty); the rows above do
   * not move.
   */
  lemma FilteredBooksAppend(pool: seq<Book>, b: Book, searchText: string, matches: (string, string) -> bool)
    ensures FilteredBooks(pool + [b], searchText, matches)
         == FilteredBooks(pool, searchText, matches)
            + (if searchText == "" || MatchesQuery(searchText, matches)(b) then [b] else [])
  {
    FilterAppend(pool, [b], MatchesQuery(searchText, matches));
  }

  /** A book listed under some author matching the query is found by that query. */
  lemma AuthorMatchFinds(pool: seq<Book>, i: nat, k: nat, searchText: string, matches: (string, string) -> bool)
    requires i < |pool| && k < |pool[i].authors| && searchText != ""
    requires matches(pool[i].authors[k], searchText)
    ensures pool[i] in FilteredBooks(pool, searchText, matches)
  {
    assert MatchesQuery(searchText, matches)(pool[i]);
  }

  /** Searching twice with the same query finds nothing new: the filter is idempotent. */
  lemma FilterTwice(pool: seq<Book>, searchText: string, matches: (string, string) -> bool)
    ensures FilteredBooks(FilteredBooks(pool, searchText, matches), searchText, matches)
         == FilteredBooks(pool, searchText, matches)
  {
    if searchText != "" {
      var p := MatchesQuery(searchText, matches);
      FilterOfFilter(pool, p, p);
    }
  }

  /** `deleteBooks(at:)`: not implemented, the pool is unchanged whatever the offsets. */
  function DeleteBooks(pool: seq<Book>, offsets: set<nat>): (r: seq<Book>)
    ensures r == pool
  {
    pool
  }

  const ImportPlaceholderMessage: string := "Import functionality coming soon!"

  /** `importBooks()`: whatever was pasted, the alert shows the placeholder message. */
  function ImportBooks(importText: string): (message: string)
    ensures message == ImportPlaceholderMessage
  {
    ImportPlaceholderMessage
  }

  /** "OK" on the import alert dismisses the sheet only when the message mentions "success". */
  predicate OkDismisses(message: string) {
    Contains(message, "success")
  }

  /** The placeholder message never mentions "success", so the import sheet stays open after OK. */
  lemma ImportNeverDismisses(importText: string)
    ensures !OkDismisses(ImportBooks(importText))
  {
    var m := ImportPlaceholderMessage;
    assert forall j :: 0 <= j < |m| - 1 ==> !(m[j] == 's' && m[j + 1] == 'u');
    forall k: nat | k <= |m|
      ensures !OccursAt(m, "success", k)
    {
      if k + 7 <= |m| {
        assert m[k..k + 7][0] == m[k] && m[k..k + 7][1] == m[k + 1];
      }
    }
  }

  /** "Add Book"'s "Add to Seed Books" needs a title and authors. */
  predicate AddSeedBookEnabled(title: string, authors: string) {
    title != "" && authors != ""
  }

  /** `addBook()`: not implemented, the pool is unchanged. */
  function AddSeedBook(pool: seq<Book>, title: string, authors: string): (r: seq<Book>)
    requires AddSeedBookEnabled(title, authors)
    ensures r == pool
  {
    pool
  }

  /**
   * Drawing a row asks `isBookRead(_:)`, which goes through `createBook`:
   * a seed book not yet stored is inserted into the store just by being
   * listed, and shows as unread.
   */
  lemma RowRenderStoresBook(store: BookStore.Store, b: Book)
    requires BookStore.Valid(store)
    requires !Exists(store.books, BookStore.HasId(b.id))
    ensures var (store', read) := ReadingTracker.IsBookRead(store, b);
      |store'.books| == |store.books| + 1 && !read
  {
    var (s1, h) := BookStore.CreateBook(store, b);
    assert h == |store.books|;
    assert forall i :: 0 <= i < |store.logs| ==> store.logs[i].book != Some(h);
  }
}
