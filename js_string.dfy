/**
 * The JavaScript string operations the extractor relies on: `trim()`,
 * `split(c)[0]`, and the regular-expression classes `\s` and `\d`.
 * Strings are sequences of Unicode scalar values.
 */
module JsString {

  /** The ECMAScript WhiteSpace and LineTerminator code points, matched by
      both `\s` and `String.prototype.trim`. */
  predicate IsWhitespace(c: char)
  {
    var n := c as int;
    n == 0x09 || n == 0x0A || n == 0x0B || n == 0x0C || n == 0x0D || n == 0x20
    || n == 0xA0 || n == 0x1680 || (0x2000 <= n <= 0x200A)
    || n == 0x2028 || n == 0x2029 || n == 0x202F || n == 0x205F
    || n == 0x3000 || n == 0xFEFF
  }

  /** The regular-expression class `\d`: ASCII digits only. */
  predicate IsDigit(c: char)
  {
    '0' <= c <= '9'
  }

  ghost predicate All(s: string, p: char -> bool)
  {
    forall i :: 0 <= i < |s| ==> p(s[i])
  }

  /** End of the run of characters satisfying `p` that starts at `i`. */
  function SpanFrom(s: string, p: char -> bool, i: nat): (n: nat)
    requires i <= |s|
    ensures i <= n <= |s|
    ensures forall k :: i <= k < n ==> p(s[k])
    ensures n < |s| ==> !p(s[n])
    decreases |s| - i
  {
    if i < |s| && p(s[i]) then SpanFrom(s, p, i + 1) else i
  }

  /** Start of the run of characters satisfying `p` that ends at `j`. */
  function SpanBackFrom(s: string, p: char -> bool, j: nat): (n: nat)
    requires j <= |s|
    ensures n <= j
    ensures forall k :: n <= k < j ==> p(s[k])
    ensures 0 < n ==> !p(s[n - 1])
  {
    if 0 < j && p(s[j - 1]) then SpanBackFrom(s, p, j - 1) else j
  }

  /** Length of the longest prefix of `s` whose characters all satisfy `p`. */
  function Span(s: string, p: char -> bool): (n: nat)
    ensures n <= |s|
    ensures forall i :: 0 <= i < n ==> p(s[i])
    ensures n < |s| ==> !p(s[n])
  {
    SpanFrom(s, p, 0)
  }

  /** Length of the longest suffix of `s` whose characters all satisfy `p`. */
  function SpanFromEnd(s: string, p: char -> bool): (n: nat)
    ensures n <= |s|
    ensures forall i :: |s| - n <= i < |s| ==> p(s[i])
    ensures n < |s| ==> !p(s[|s| - n - 1])
  {
    |s| - SpanBackFrom(s, p, |s|)
  }

  function TrimStart(s: string): string
  {
    s[Span(s, IsWhitespace)..]
  }

  function TrimEnd(s: string): string
  {
    s[..|s| - SpanFromEnd(s, IsWhitespace)]
  }

  /** A string with no whitespace at either end. */
  ghost predicate IsTrimmed(r: string)
  {
    r == [] || (!IsWhitespace(r[0]) && !IsWhitespace(r[|r| - 1]))
  }

  /** `s.trim()`: the result has no whitespace at either end. */
  function Trim(s: string): (r: string)
    ensures IsTrimmed(r)
  {
    var t := TrimStart(s);
    var r := TrimEnd(t);
    assert r != [] ==> r[0] == t[0] && r[|r| - 1] == t[|t| - SpanFromEnd(t, IsWhitespace) - 1];
    r
  }

  lemma TrimStartSplits(s: string)
    ensures s == s[..Span(s, IsWhitespace)] + TrimStart(s)
    ensures All(s[..Span(s, IsWhitespace)], IsWhitespace)
  {
  }

  lemma TrimEndSplits(t: string)
    ensures t == TrimEnd(t) + t[|TrimEnd(t)|..]
    ensures All(t[|TrimEnd(t)|..], IsWhitespace)
  {
  }

  /** `Trim` removes whitespace only: the input is its result padded on
      both sides with whitespace. */
  lemma TrimRemovesPadding(s: string)
    ensures exists p, q :: s == p + Trim(s) + q && All(p, IsWhitespace) && All(q, IsWhitespace)
  {
    var t := TrimStart(s);
    TrimStartSplits(s);
    TrimEndSplits(t);
    var p, r, q := s[..Span(s, IsWhitespace)], TrimEnd(t), t[|TrimEnd(t)|..];
    assert s == p + r + q;
  }

  /** `Span` is determined by its postcondition. */
  lemma SpanExact(s: string, p: char -> bool, k: nat)
    requires k <= |s| && forall i :: 0 <= i < k ==> p(s[i])
    requires k < |s| ==> !p(s[k])
    ensures Span(s, p) == k
  {
  }

  /** `SpanFromEnd` is determined by its postcondition. */
  lemma SpanFromEndExact(s: string, p: char -> bool, k: nat)
    requires k <= |s| && forall i :: |s| - k <= i < |s| ==> p(s[i])
    requires k < |s| ==> !p(s[|s| - k - 1])
    ensures SpanFromEnd(s, p) == k
  {
  }

  /** `Trim` is the unique decomposition of a string into whitespace, a
      trimmed core and whitespace. */
  lemma TrimUnique(p: string, r: string, q: string)
    requires All(p, IsWhitespace) && All(q, IsWhitespace)
    requires IsTrimmed(r)
    ensures Trim(p + r + q) == r
  {
    var s := p + r + q;
    if r == [] {
      assert s == p + q;
      assert s[..|s|] == s;
      SpanExact(s, IsWhitespace, |s|);
      assert s[|s|..] == [];
    } else {
      assert s[..|p|] == p;
      assert s[|p|] == r[0];
      SpanExact(s, IsWhitespace, |p|);
      var t := s[|p|..];
      assert t == r + q;
      assert t[|t| - |q|..] == q;
      assert t[|t| - |q| - 1] == r[|r| - 1];
      SpanFromEndExact(t, IsWhitespace, |q|);
      assert t[..|t| - |q|] == r;
    }
  }

  /** Trimming the leading whitespace first does not change the result. */
  lemma TrimAfterTrimStart(s: string)
    ensures Trim(TrimStart(s)) == Trim(s)
  {
    var t := TrimStart(s);
    SpanExact(t, IsWhitespace, 0);
    assert TrimStart(t) == t;
  }

  lemma TrimIdempotent(s: string)
    ensures Trim(Trim(s)) == Trim(s)
  {
    TrimUnique([], Trim(s), []);
    assert [] + Trim(s) + [] == Trim(s);
  }

  /** `s.split(c)[0]`: the part of `s` before the first `c`, or all of `s`. */
  function BeforeFirst(s: string, c: char): (r: string)
    ensures r <= s
    ensures c !in r
    ensures |r| < |s| ==> s[|r|] == c
  {
    s[..Span(s, x => x != c)]
  }

  /** `split(c)[0]` of text whose first `c` follows `v`. */
  lemma BeforeFirstAt(v: string, c: char, w: string)
    requires c !in v
    ensures BeforeFirst(v + [c] + w, c) == v
  {
    var s := v + [c] + w;
    SpanExact(s, x => x != c, |v|);
    assert s[..|v|] == v;
  }

  /** `split(c)[0]` of text without `c` is the whole text. */
  lemma BeforeFirstAbsent(s: string, c: char)
    requires c !in s
    ensures BeforeFirst(s, c) == s
  {
    SpanExact(s, x => x != c, |s|);
    assert s[..|s|] == s;
  }
}
