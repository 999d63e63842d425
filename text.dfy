/**
 * Character classes and the leftmost-match searches that the extension's regular
 * expressions perform. Both the PHP and the JavaScript side use them; every search
 * here is the deterministic reading of one regular expression of the source.
 */
module Text {
  import opened Wrappers

  predicate IsAsciiDigit(c: char) { '0' <= c <= '9' }

  function AsciiLower(c: char): char
  {
    if 'A' <= c <= 'Z' then (c as int + 32) as char else c
  }

  /** Equality under ASCII case folding: what the `i` flag does to an ASCII literal. */
  predicate SameIgnoringCase(a: char, b: char)
  {
    AsciiLower(a) == AsciiLower(b)
  }

  /** The literal `lit` occurs in `s` at position `i`, case-folded when `ci` holds. */
  predicate LitAt(s: string, i: nat, lit: string, ci: bool)
  {
    i + |lit| <= |s| &&
    forall k :: 0 <= k < |lit| ==> (if ci then SameIgnoringCase(s[i + k], lit[k]) else s[i + k] == lit[k])
  }

  predicate StartsWith(s: string, lit: string) { LitAt(s, 0, lit, false) }

  predicate StartsWithIgnoringCase(s: string, lit: string) { LitAt(s, 0, lit, true) }

  /** The leftmost index in `[from, to)` that satisfies `ok`: how a regex engine picks its match start. */
  function FirstIndex(lo: nat, hi: nat, ok: nat -> bool): (r: Option<nat>)
    requires lo <= hi
    decreases hi - lo
    ensures r.Some? ==> lo <= r.value < hi && ok(r.value)
    ensures r.Some? ==> forall j :: lo <= j < r.value ==> !ok(j)
    ensures r.None? ==> forall j :: lo <= j < hi ==> !ok(j)
  {
    if lo == hi then None
    else if ok(lo) then Some(lo)
    else FirstIndex(lo + 1, hi, ok)
  }

  /** The end of the longest run of characters satisfying `p` that starts at `k`. */
  function SpanEnd(s: string, k: nat, p: char -> bool): (e: nat)
    requires k <= |s|
    decreases |s| - k
    ensures k <= e <= |s|
    ensures forall j :: k <= j < e ==> p(s[j])
    ensures e < |s| ==> !p(s[e])
  {
    if k == |s| || !p(s[k]) then k else SpanEnd(s, k + 1, p)
  }

  /** The run of `p` characters from `k` ends at the first position that is not one. */
  lemma SpanEndIs(s: string, k: nat, p: char -> bool, e: nat)
    requires k <= e <= |s|
    requires forall j :: k <= j < e ==> p(s[j])
    requires e < |s| ==> !p(s[e])
    ensures SpanEnd(s, k, p) == e
  {
  }

  /** The start of the run of `p` characters that ends at `e`. */
  function SpanStart(s: string, e: nat, p: char -> bool): (b: nat)
    requires e <= |s|
    decreases e
    ensures b <= e
    ensures forall j :: b <= j < e ==> p(s[j])
    ensures b > 0 ==> !p(s[b - 1])
  {
    if e == 0 || !p(s[e - 1]) then e else SpanStart(s, e - 1, p)
  }

  /** `lit` followed by at least one character outside `stops` occurs at `i`. */
  predicate RunMatchAt(s: string, i: nat, lit: string, ci: bool, stops: set<char>)
  {
    LitAt(s, i, lit, ci) && i + |lit| < |s| && s[i + |lit|] !in stops
  }

  /**
   * The regular expression `lit[^stops]+` searched anywhere in `s`: the leftmost
   * match, the character run taken greedily. The result is the match with its first
   * `capStart` characters dropped (so the capture group can start inside the literal).
   */
  function SearchRun(s: string, lit: string, ci: bool, capStart: nat, stops: set<char>): (r: Option<string>)
    requires capStart <= |lit|
    ensures r.None? <==> forall i :: 0 <= i < |s| ==> !RunMatchAt(s, i, lit, ci, stops)
    ensures r.Some? ==> |r.value| > |lit| - capStart
    ensures r.Some? ==> forall k :: |lit| - capStart <= k < |r.value| ==> r.value[k] !in stops
  {
    var ok := (i: nat) => RunMatchAt(s, i, lit, ci, stops);
    match FirstIndex(0, |s|, ok)
    case None =>
      assert forall i :: 0 <= i < |s| ==> !RunMatchAt(s, i, lit, ci, stops) by {
        forall i | 0 <= i < |s| ensures !RunMatchAt(s, i, lit, ci, stops) { assert !ok(i); }
      }
      None
    case Some(i) => Some(s[i + capStart .. SpanEnd(s, i + |lit|, (c: char) => c !in stops)])
  }

  /** When the leftmost match starts at `i` and its run ends at `e`, the search yields exactly that match. */
  lemma SearchRunFinds(s: string, lit: string, ci: bool, capStart: nat, stops: set<char>, i: nat, e: nat)
    requires capStart <= |lit| && i < |s| && RunMatchAt(s, i, lit, ci, stops)
    requires forall j :: 0 <= j < i ==> !RunMatchAt(s, j, lit, ci, stops)
    requires i + |lit| <= e <= |s| && (forall k :: i + |lit| <= k < e ==> s[k] !in stops) && (e < |s| ==> s[e] in stops)
    ensures SearchRun(s, lit, ci, capStart, stops) == Some(s[i + capStart .. e])
  {
    var ok := (j: nat) => RunMatchAt(s, j, lit, ci, stops);
    var f := FirstIndex(0, |s|, ok);
    assert ok(i);
    assert f == Some(i);
    SpanEndIs(s, i + |lit|, (c: char) => c !in stops, e);
  }

  /**
   * A path that starts with `lit` (in any case, when `ci`) and goes on with a run free
   * of `stops`: the search matches at the start and takes the whole rest.
   */
  lemma SearchRunAtStart(p: string, x: string, lit: string, ci: bool, capStart: nat, stops: set<char>)
    requires capStart <= |lit| && |p| == |lit| && LitAt(p, 0, lit, ci)
    requires x != [] && forall k :: 0 <= k < |x| ==> x[k] !in stops
    ensures SearchRun(p + x, lit, ci, capStart, stops) == Some(p[capStart..] + x)
  {
    var s := p + x;
    assert forall k :: 0 <= k < |p| ==> s[k] == p[k];
    assert forall k :: |p| <= k < |s| ==> s[k] == x[k - |p|];
    assert LitAt(s, 0, lit, ci);
    assert s[|lit|] == x[0];
    assert RunMatchAt(s, 0, lit, ci, stops);
    assert forall k :: |lit| <= k < |s| ==> s[k] !in stops;
    SearchRunFinds(s, lit, ci, capStart, stops, 0, |s|);
    assert s[capStart..|s|] == p[capStart..] + x;
  }

  /** A JavaScript line terminator, which `.` in a regular expression does not match. */
  predicate IsLineTerminator(c: char)
  {
    c == '\n' || c == '\r' || c == '\U{2028}' || c == '\U{2029}'
  }

  /** Every character replaced by `to` that equals `from` (PHP `str_replace`, JS `replace(/x/g, y)`). */
  function ReplaceChar(s: string, from: char, to: char): (r: string)
    ensures |r| == |s|
    ensures forall i :: 0 <= i < |s| ==> r[i] == if s[i] == from then to else s[i]
  {
    seq(|s|, i requires 0 <= i < |s| => if s[i] == from then to else s[i])
  }

  /** After replacing every `from` by a different `to`, no `from` is left. */
  lemma ReplaceCharRemoves(s: string, from: char, to: char)
    requires from != to
    ensures from !in ReplaceChar(s, from, to)
  {
    var r := ReplaceChar(s, from, to);
    assert forall i :: 0 <= i < |r| ==> r[i] != from;
  }

  /** Replacing by `to` introduces no character other than `to`. */
  lemma ReplaceCharKeepsAbsent(s: string, from: char, to: char, c: char)
    requires c !in s && c != to
    ensures c !in ReplaceChar(s, from, to)
  {
    var r := ReplaceChar(s, from, to);
    assert forall i :: 0 <= i < |r| ==> r[i] != c;
  }

  /** True when `sub` occurs somewhere in `s` (the CSS `*=` attribute test). */
  predicate Contains(s: string, sub: string)
    decreases |s|
  {
    StartsWith(s, sub) || (|s| > 0 && Contains(s[1..], sub))
  }
}
