/**
 * `BookCoverView` (the reader app's copy): the list of cover addresses to
 * try, in order, and the cursor that moves to the next one when an image
 * fails to load. Percent-encoding for a URL query is a parameter `encode`
 * (it never fails on a Swift string); the frame size is given as the
 * integers `Int(width)` and `Int(height)`.
 */
module CoverFallback {
  import opened Common
  import opened Text
  import opened Books

  const GoogleCoverPrefix: string := "https://books.google.com/books/content/images/frontcover/"
  const OpenLibraryTitlePrefix: string := "https://covers.openlibrary.org/b/title/"

  const SizeQuery: string := "?fife=w"
  const LargeSuffix: string := "-L.jpg"

  /** The Google Books front-cover address for the book id at the given size. */
  function GoogleCoverURL(id: string, width: int, height: int): (r: string)
    ensures |r| > |GoogleCoverPrefix| + |id| + |SizeQuery|
    ensures r[..|GoogleCoverPrefix|] == GoogleCoverPrefix
    ensures r[|GoogleCoverPrefix|..|GoogleCoverPrefix| + |id|] == id
  {
    GoogleCoverPrefix + (id + SizeText(width, height))
  }

  /** The size part of a Google cover address: "?fife=w<width>-h<height>". */
  function SizeText(width: int, height: int): (r: string)
    ensures |r| > |SizeQuery| && r[..|SizeQuery|] == SizeQuery
  {
    SizeQuery + IntToString(width) + "-h" + IntToString(height)
  }

  /** The Open Library large cover looked up by the encoded title. */
  function OpenLibraryTitleURL(encodedTitle: string): (r: string)
    ensures |r| == |OpenLibraryTitlePrefix| + |encodedTitle| + |LargeSuffix|
    ensures r[..|OpenLibraryTitlePrefix|] == OpenLibraryTitlePrefix
    ensures r[|OpenLibraryTitlePrefix|..|r| - |LargeSuffix|] == encodedTitle
    ensures r[|r| - |LargeSuffix|..] == LargeSuffix
  {
    OpenLibraryTitlePrefix + encodedTitle + LargeSuffix
  }

  /** The character is `c`. */
  function IsChar(c: char): char -> bool {
    (x: char) => x == c
  }

  /** `s` split before its first `c`, or nothing when `s` has no `c`. */
  function SplitBefore(s: string, c: char): (r: Option<(string, string)>)
    ensures r.Some? ==> r.value.0 + r.value.1 == s && |r.value.1| > 0 && r.value.1[0] == c
    ensures r.Some? ==> forall k :: 0 <= k < |r.value.0| ==> r.value.0[k] != c
    ensures r.None? ==> forall k :: 0 <= k < |s| ==> s[k] != c
  {
    match FirstIndex(s, IsChar(c))
    case None => None
    case Some(i) =>
      assert s[..i] + s[i..] == s;
      Some((s[..i], s[i..]))
  }

  /** Splitting `a + b` before `c` when `a` has no `c` and `b` starts with it. */
  lemma SplitBeforeAppend(a: string, b: string, c: char)
    requires forall k :: 0 <= k < |a| ==> a[k] != c
    requires |b| > 0 && b[0] == c
    ensures SplitBefore(a + b, c) == Some((a, b))
  {
    assert (a + b)[|a|] == c;
  }

  /** Reads the width and height back out of "?fife=w<width>-h<height>". */
  function ReadSizeQuery(query: string): Option<(int, int)> {
    if |query| < |SizeQuery| || query[..|SizeQuery|] != SizeQuery then None
    else
      match SplitBefore(query[|SizeQuery|..], '-')
      case None => None
      case Some((w, rest)) =>
        if |rest| < 2 || rest[1] != 'h' then None
        else
          match (ParseInt(w), ParseInt(rest[2..]))
          case (Some(width), Some(height)) => Some((width, height))
          case _ => None
  }

  /**
   * Reads the book id, width and height back out of a Google cover address:
   * the id runs up to the first '?', the width up to the first '-' after
   * "?fife=w", and the height follows "-h".
   */
  function ReadGoogleCover(u: string): Option<(string, int, int)> {
    if |u| < |GoogleCoverPrefix| || u[..|GoogleCoverPrefix|] != GoogleCoverPrefix then None
    else
      match SplitBefore(u[|GoogleCoverPrefix|..], '?')
      case None => None
      case Some((id, query)) =>
        match ReadSizeQuery(query)
        case None => None
        case Some((width, height)) => Some((id, width, height))
  }

  /** A non-negative width and any height are read back from the size query. */
  lemma SizeQueryRoundTrip(width: int, height: int)
    requires 0 <= width <= MaxInt64 && MinInt64 <= height <= MaxInt64
    ensures ReadSizeQuery(SizeText(width, height)) == Some((width, height))
  {
    var w := IntToString(width);
    var h := IntToString(height);
    var query := SizeQuery + w + "-h" + h;
    assert query[..|SizeQuery|] == SizeQuery;
    assert query[|SizeQuery|..] == w + ("-h" + h);
    assert forall k :: 0 <= k < |w| ==> w[k] != '-' by {
      assert AllDigits(w);
    }
    SplitBeforeAppend(w, "-h" + h, '-');
    assert ("-h" + h)[2..] == h;
    IntToStringRoundTrip(width);
    IntToStringRoundTrip(height);
  }

  /**
   * The Google cover address names the book and the frame: an id without
   * '?' and a non-negative width are read back exactly.
   */
  lemma GoogleCoverRoundTrip(id: string, width: int, height: int)
    requires forall k :: 0 <= k < |id| ==> id[k] != '?'
    requires 0 <= width <= MaxInt64 && MinInt64 <= height <= MaxInt64
    ensures ReadGoogleCover(GoogleCoverURL(id, width, height)) == Some((id, width, height))
  {
    SizeQueryRoundTrip(width, height);
    ReadAfterPrefix(GoogleCoverURL(id, width, height), id, SizeText(width, height), width, height);
  }

  /** After the prefix, an id without '?' is split off and the rest is read as the size query. */
  lemma ReadAfterPrefix(u: string, id: string, query: string, width: int, height: int)
    requires u == GoogleCoverPrefix + (id + query)
    requires forall k :: 0 <= k < |id| ==> id[k] != '?'
    requires |query| > 0 && query[0] == '?'
    requires ReadSizeQuery(query) == Some((width, height))
    ensures ReadGoogleCover(u) == Some((id, width, height))
  {
    assert u[..|GoogleCoverPrefix|] == GoogleCoverPrefix;
    assert u[|GoogleCoverPrefix|..] == id + query;
    SplitBeforeAppend(id, query, '?');
  }

  /** The encoded title is read back from the Open Library address between prefix and suffix. */
  function ReadOpenLibraryTitle(u: string): Option<string> {
    if |u| < |OpenLibraryTitlePrefix| + |LargeSuffix| then None
    else if u[..|OpenLibraryTitlePrefix|] != OpenLibraryTitlePrefix then None
    else if u[|u| - |LargeSuffix|..] != LargeSuffix then None
    else Some(u[|OpenLibraryTitlePrefix|..|u| - |LargeSuffix|])
  }

  /** Every encoded title survives the Open Library address. */
  lemma OpenLibraryTitleRoundTrip(encodedTitle: string)
    ensures ReadOpenLibraryTitle(OpenLibraryTitleURL(encodedTitle)) == Some(encodedTitle)
  {
  }

  /** The book has a non-empty thumbnail address. */
  predicate HasThumbnail(b: Book) {
    b.thumbnail.Some? && b.thumbnail.value != ""
  }

  /**
   * `potentialCoverURLs`: the non-empty thumbnail, then the Google cover
   * when the book has a first author, then the Open Library cover by title.
   */
  function PotentialCoverURLs(b: Book, width: int, height: int, encode: string -> string): (r: seq<string>)
    ensures |r| == 1 + (if HasThumbnail(b) then 1 else 0) + (if |b.authors| > 0 then 1 else 0)
    ensures r[|r| - 1] == OpenLibraryTitleURL(encode(b.title))
    ensures HasThumbnail(b) ==> r[0] == b.thumbnail.value
    ensures |b.authors| > 0 ==> r[|r| - 2] == GoogleCoverURL(b.id, width, height)
  {
    var thumb := if HasThumbnail(b) then [b.thumbnail.value] else [];
    var google := if |b.authors| > 0 then [GoogleCoverURL(b.id, width, height)] else [];
    thumb + google + [OpenLibraryTitleURL(encode(b.title))]
  }

  /** The cursor over the candidates and the "all failed" flag. */
  datatype CoverState = CoverState(index: int, failed: bool)

  const Fresh := CoverState(0, false)

  /** `tryNextImage()`: the next candidate while there is one, else give up. */
  function TryNextImage(st: CoverState, count: nat): (r: CoverState)
    ensures st.index < count - 1 ==> r == CoverState(st.index + 1, st.failed)
    ensures st.index >= count - 1 ==> r == CoverState(st.index, true)
    ensures count > 0 && 0 <= st.index < count ==> 0 <= r.index < count
  {
    if st.index < count - 1 then st.(index := st.index + 1) else st.(failed := true)
  }

  /** The placeholder shows when there is nothing to try or every candidate failed. */
  predicate ShowsPlaceholder(urls: seq<string>, st: CoverState) {
    |urls| == 0 || st.failed
  }

  /** `n` load failures in a row. */
  function Failures(st: CoverState, count: nat, n: nat): CoverState
    decreases n
  {
    if n == 0 then st else Failures(TryNextImage(st, count), count, n - 1)
  }

  /**
   * From a fresh view, the first `k` failures walk through the candidates in
   * order; the failure of the last one shows the placeholder.
   */
  lemma {:induction false} FailuresWalkInOrder(st: CoverState, count: nat, n: nat)
    requires count > 0 && 0 <= st.index < count && !st.failed
    ensures st.index + n < count ==> Failures(st, count, n) == CoverState(st.index + n, false)
    ensures st.index + n >= count ==> Failures(st, count, n) == CoverState(count - 1, true)
    decreases n
  {
    if n > 0 {
      if st.index < count - 1 {
        FailuresWalkInOrder(CoverState(st.index + 1, false), count, n - 1);
      } else {
        StaysFailed(CoverState(st.index, true), count, n - 1);
      }
    }
  }

  /** Once failed, further failures change nothing. */
  lemma {:induction false} StaysFailed(st: CoverState, count: nat, n: nat)
    requires st.failed && st.index >= count - 1
    ensures Failures(st, count, n) == st
    decreases n
  {
    if n > 0 {
      StaysFailed(TryNextImage(st, count), count, n - 1);
    }
  }

  /** Every book has at least the title cover to try, so a fresh cover view never starts on the placeholder. */
  lemma FreshViewTriesFirstCandidate(b: Book, width: int, height: int, encode: string -> string)
    ensures !ShowsPlaceholder(PotentialCoverURLs(b, width, height, encode), Fresh)
  {
  }

  /**
   * After `n` failures the view loads candidate `n`, in list order; the
   * placeholder appears exactly after as many failures as there are candidates.
   */
  lemma PlaceholderAfterAllFail(b: Book, width: int, height: int, encode: string -> string, n: nat)
    ensures var urls := PotentialCoverURLs(b, width, height, encode);
      (ShowsPlaceholder(urls, Failures(Fresh, |urls|, n)) <==> n >= |urls|)
      && (n < |urls| ==> Failures(Fresh, |urls|, n).index == n)
  {
    var urls := PotentialCoverURLs(b, width, height, encode);
    FailuresWalkInOrder(Fresh, |urls|, n);
  }
}
