/**
 * The ISBN clean-up both lookup services apply before building a request:
 * `isbn.replacingOccurrences(of: "[^0-9X]", with: "", options: .regularExpression)`,
 * which keeps the decimal digits and the upper-case check character `X`.
 */
module Isbn {
  import opened Common
  import opened Text

  /** A character the pattern `[0-9X]` matches. */
  function IsIsbnChar(c: char): bool {
    IsDigit(c) || c == 'X'
  }

  predicate AllIsbnChars(s: string) {
    forall i :: 0 <= i < |s| ==> IsIsbnChar(s[i])
  }

  /** Every character outside `[0-9X]` deleted, the rest kept in order. */
  function CleanISBN(isbn: string): (r: string)
    ensures AllIsbnChars(r)
    ensures |r| <= |isbn|
    ensures forall i :: 0 <= i < |isbn| && IsIsbnChar(isbn[i]) ==> isbn[i] in r
    ensures multiset(r) <= multiset(isbn)
  {
    Filter(isbn, IsIsbnChar)
  }

  /** Text made only of `[0-9X]` is already clean. */
  lemma CleanKeepsCleanText(s: string)
    requires AllIsbnChars(s)
    ensures CleanISBN(s) == s
  {
    FilterKeepsAll(s, IsIsbnChar);
  }

  /** Cleaning twice is cleaning once. */
  lemma CleanIdempotent(isbn: string)
    ensures CleanISBN(CleanISBN(isbn)) == CleanISBN(isbn)
  {
    CleanKeepsCleanText(CleanISBN(isbn));
  }

  /** A separator between two groups vanishes: cleaning "978-0..." is cleaning "9780...". */
  lemma CleanDropsSeparator(a: string, sep: char, b: string)
    requires !IsIsbnChar(sep)
    ensures CleanISBN(a + [sep] + b) == CleanISBN(a) + CleanISBN(b)
  {
    var m := [sep];
    FilterDropsAll(m, IsIsbnChar);
    FilterAppend3(a, m, b, IsIsbnChar);
  }
}
