/**
 * The input buffer and the character classes the scanner relies on.
 *
 * The source works on a NUL-terminated `const char*`. Here the buffer is a
 * sequence without NUL characters and the terminator is implicit: `At` yields
 * '\0' at (and beyond) the end, just as dereferencing the terminator does.
 */
module Text {

  /** A buffer: no character of it is the terminator. */
  type Text = s: seq<char> | '\0' !in s

  /** The character under a cursor; the implicit terminator at the end. */
  function At(s: Text, i: nat): (c: char)
    ensures c == '\0' <==> i >= |s|
    ensures i < |s| ==> c == s[i]
  {
    if i < |s| then s[i] else '\0'
  }

  /**
   * C `isspace` in the "C" locale. The source also calls `isSpace` from a
   * string-utility header that is not part of this model; it is assumed to
   * classify the same six characters.
   */
  predicate IsSpace(c: char) {
    c == ' ' || c == '\t' || c == '\n' || c == '\U{0B}' || c == '\U{0C}' || c == '\r'
  }

  /** C `isdigit` (and the utility header's `isDigit`): an ASCII decimal digit. */
  predicate IsDigit(c: char) {
    '0' <= c <= '9'
  }

  /** C `isalpha` in the "C" locale: an ASCII letter. */
  predicate IsAlpha(c: char) {
    ('a' <= c <= 'z') || ('A' <= c <= 'Z')
  }

  /**
   * The first position at or after `k` whose character satisfies `stop`, or the
   * end of the buffer when there is none. Every scanning loop of the source
   * that advances a cursor "while the character is not X" is an instance.
   */
  function ScanUntil(s: Text, k: nat, stop: char -> bool): (r: nat)
    requires k <= |s|
    ensures k <= r <= |s|
    ensures forall m :: k <= m < r ==> !stop(s[m])
    ensures r < |s| ==> stop(s[r])
    decreases |s| - k
  {
    if k == |s| || stop(s[k]) then k else ScanUntil(s, k + 1, stop)
  }

  /** Any position that is the first stopping point from `k` is the one ScanUntil finds. */
  lemma ScanUntilIs(s: Text, k: nat, stop: char -> bool, j: nat)
    requires k <= j <= |s|
    requires forall m :: k <= m < j ==> !stop(s[m])
    requires j < |s| ==> stop(s[j])
    ensures ScanUntil(s, k, stop) == j
  {
  }

  /** Adjacent slices join into one. */
  lemma SliceJoin(s: seq<char>, i: nat, j: nat, k: nat)
    requires i <= j <= k <= |s|
    ensures s[i..k] == s[i..j] + s[j..k]
  {
  }

  /** A slice grown by the next character. */
  lemma SliceSnoc(s: seq<char>, i: nat, j: nat)
    requires i <= j < |s|
    ensures s[i..j + 1] == s[i..j] + [s[j]]
  {
  }

  /** A slice that holds a concatenation holds each part in turn. */
  lemma SplitSlice(s: seq<char>, j: nat, x: seq<char>, a: seq<char>, b: seq<char>)
    requires j + |x| <= |s| && s[j..j + |x|] == x && x == a + b
    ensures |x| == |a| + |b| && s[j..j + |a|] == a && s[j + |a|..j + |x|] == b
  {
    assert s[j..j + |a|] == x[..|a|];
    assert s[j + |a|..j + |x|] == x[|a|..];
  }

  /** A slice that holds a concatenation, with its bounds given, holds each part in turn. */
  lemma SliceParts(s: seq<char>, j: nat, k: nat, a: seq<char>, b: seq<char>)
    requires j <= k <= |s| && s[j..k] == a + b
    ensures k == j + |a| + |b| && s[j..j + |a|] == a && s[j + |a|..k] == b
  {
    SplitSlice(s, j, a + b, a, b);
  }

  /** A character of the buffer from `j` on is in the suffix from `j`. */
  lemma InSuffix(s: seq<char>, j: nat, p: nat)
    requires j <= p < |s|
    ensures s[p] in s[j..]
  {
    assert s[j..][p - j] == s[p];
  }

  /** A character in a later suffix is in an earlier one. */
  lemma InLongerSuffix(s: seq<char>, j: nat, k: nat, c: char)
    requires j <= k <= |s| && c in s[k..]
    ensures c in s[j..]
  {
    assert s[k..] == s[j..][k - j..];
  }

  /** The back of a concatenation is its second part. */
  lemma SuffixOfJoin(a: seq<char>, b: seq<char>)
    ensures (a + b)[|a|..] == b
  {
  }

  /** A suffix of a suffix is a suffix. */
  lemma SuffixOfSuffix(s: seq<char>, p: nat, q: nat)
    requires p + q <= |s|
    ensures s[p..][q..] == s[p + q..]
  {
  }

  /** The front of a concatenation is its first part. */
  lemma PrefixOfJoin(a: seq<char>, b: seq<char>)
    ensures (a + b)[..|a|] == a
  {
  }
}
