/**
 * The server's DB-key normaliser, normalizeDbKeyFromMaybeUrlOrName in
 * includes/Hooks.php: it turns a bare file name, a `File:` title, or a direct or
 * thumbnail asset URL into the file's DB key. The source reassigns one variable
 * step by step; each step is a function here and the normaliser is their composition.
 * The input is the string after html_entity_decode() (an input without `&` is the
 * same before and after it).
 */
module DbKey {
  import opened Text
  import opened PhpText

  /** Where the `^:?\s*` part of the namespace pattern stops matching. */
  function NamespaceStart(s: string): (k: nat)
    ensures k <= |s|
  {
    SpanEnd(s, if |s| > 0 && s[0] == ':' then 1 else 0, IsPcreSpace)
  }

  /** `s` matches `/^:?\s*File:/i`. */
  predicate HasNamespacePrefix(s: string)
  {
    LitAt(s, NamespaceStart(s), "File:", true)
  }

  /** preg_replace('/^:?\s*File:/i', '', $s): one leading namespace removed, if any. */
  function StripNamespace(s: string): (r: string)
    ensures |r| <= |s| && r == s[|s| - |r|..]
    ensures !HasNamespacePrefix(s) ==> r == s
  {
    if HasNamespacePrefix(s) then s[NamespaceStart(s) + 5..] else s
  }

  /** Where the last segment of `s` starts: just after its last `/`, or at 0. */
  function SegmentStart(s: string): (k: nat)
    ensures k <= |s|
    ensures forall j :: k <= j < |s| ==> s[j] != '/'
    ensures k > 0 ==> s[k - 1] == '/'
  {
    if |s| == 0 then 0
    else if s[|s| - 1] == '/' then |s|
    else SegmentStart(s[..|s| - 1])
  }

  /** end(explode('/', $s)): the text after the last `/`, or all of `s` when it has none. */
  function LastSegment(s: string): (r: string)
    ensures '/' !in r
  {
    var k := SegmentStart(s);
    assert forall j :: 0 <= j < |s| - k ==> s[k..][j] != '/';
    s[k..]
  }

  /** `s` matches `/^\d+px-/`. */
  predicate HasThumbPrefix(s: string)
  {
    var d := SpanEnd(s, 0, IsAsciiDigit);
    d > 0 && LitAt(s, d, "px-", false)
  }

  /** preg_replace('/^\d+px-/', '', $s): one leading thumbnail width removed, if any. */
  function StripThumbPrefix(s: string): (r: string)
    ensures |r| <= |s| && r == s[|s| - |r|..]
    ensures !HasThumbPrefix(s) ==> r == s
  {
    if HasThumbPrefix(s) then s[SpanEnd(s, 0, IsAsciiDigit) + 3..] else s
  }

  /** str_replace(' ', '_', $s). */
  function Underscored(s: string): string
  {
    ReplaceChar(s, ' ', '_')
  }

  /** The normaliser before its final space replacement: the bare file-name part. */
  function FileNamePart(raw: string): (s: string)
    ensures '/' !in s
  {
    var a := LastSegment(StripNamespace(RawUrlDecode(Trim(raw))));
    var s := StripThumbPrefix(a);
    SuffixKeepsAbsent(a, s, '/');
    s
  }

  /** A suffix has no character that the whole string lacks. */
  lemma SuffixKeepsAbsent(a: string, s: string, c: char)
    requires c !in a && |s| <= |a| && s == a[|a| - |s|..]
    ensures c !in s
  {
    assert forall j :: 0 <= j < |s| ==> s[j] == a[|a| - |s| + j];
  }

  /**
   * normalizeDbKeyFromMaybeUrlOrName. Whatever the input, the key it yields has no
   * path separator and no space: only the last path segment survives and every
   * space becomes an underscore.
   */
  function NormalizeDbKey(raw: string): (key: string)
    ensures '/' !in key
    ensures ' ' !in key
  {
    var s := FileNamePart(raw);
    ReplaceCharRemoves(s, ' ', '_');
    ReplaceCharKeepsAbsent(s, ' ', '_', '/');
    Underscored(s)
  }

  /** A file name that every representation below reduces to unchanged. */
  predicate PlainFileName(n: string)
  {
    |n| > 0 && '/' !in n && '%' !in n &&
    !IsTrimChar(n[0]) && !IsTrimChar(n[|n| - 1]) &&
    !HasNamespacePrefix(n) && !HasThumbPrefix(n)
  }

  predicate AllDigits(w: string)
  {
    forall i :: 0 <= i < |w| ==> IsAsciiDigit(w[i])
  }

  lemma LastSegmentWithoutSlash(s: string)
    requires '/' !in s
    ensures LastSegment(s) == s
  {
    var k := SegmentStart(s);
    assert s[0..] == s;
  }

  lemma {:induction false} LastSegmentAfterSlash(p: string, n: string)
    requires '/' !in n
    ensures LastSegment(p + "/" + n) == n
  {
    if |n| > 0 {
      var s := p + "/" + n;
      assert s[..|s| - 1] == p + "/" + n[..|n| - 1];
      LastSegmentAfterSlash(p, n[..|n| - 1]);
      assert n == n[..|n| - 1] + [n[|n| - 1]];
    }
  }

  lemma ThumbPrefixLength(w: string, n: string)
    requires |w| > 0 && AllDigits(w)
    ensures SpanEnd(w + "px-" + n, 0, IsAsciiDigit) == |w|
    ensures HasThumbPrefix(w + "px-" + n)
    ensures StripThumbPrefix(w + "px-" + n) == n
  {
    var s := w + "px-" + n;
    assert forall j :: 0 <= j < |w| ==> IsAsciiDigit(s[j]);
    assert !IsAsciiDigit(s[|w|]);
    assert s[|w| + 3..] == n;
  }

  lemma NoNamespaceOnSlashOrDigit(s: string)
    requires |s| > 0 && (s[0] == '/' || IsAsciiDigit(s[0]))
    ensures NamespaceStart(s) == 0
    ensures !HasNamespacePrefix(s)
  {
    assert !IsPcreSpace(s[0]);
    assert "File:"[0] == 'F';
    assert !SameIgnoringCase(s[0], 'F');
  }

  /** The steps of NormalizeDbKey, for inputs whose trim and decode change nothing. */
  lemma NormalizeSteps(s: string, n: string)
    requires s == [] || (!IsTrimChar(s[0]) && !IsTrimChar(s[|s| - 1]))
    requires '%' !in s
    requires LastSegment(StripNamespace(s)) == n
    ensures NormalizeDbKey(s) == Underscored(StripThumbPrefix(n))
  {
    TrimKeepsUntrimmed(s);
  }

  lemma StripFileNamespace(n: string)
    ensures StripNamespace("File:" + n) == n
  {
    var s := "File:" + n;
    assert NamespaceStart(s) == 0 by { assert !IsPcreSpace(s[0]); }
    assert LitAt(s, 0, "File:", true);
    assert s[5..] == n;
  }

  lemma StripLinkNamespace(n: string)
    ensures StripNamespace(":File:" + n) == n
  {
    var s := ":File:" + n;
    assert NamespaceStart(s) == 1 by { assert !IsPcreSpace(s[1]); }
    assert LitAt(s, 1, "File:", true);
    assert s[6..] == n;
  }

  /** A namespace prefix before a name that trim and rawurldecode leave alone gives such a string again. */
  lemma PrefixedUntouched(p: string, n: string)
    requires p == "File:" || p == ":File:"
    requires '%' !in n && (n == [] || !IsTrimChar(n[|n| - 1]))
    ensures var s := p + n; !IsTrimChar(s[0]) && !IsTrimChar(s[|s| - 1]) && '%' !in s
  {
    var s := p + n;
    assert s[0] == p[0];
    assert n != [] ==> s[|s| - 1] == n[|n| - 1];
    assert n == [] ==> s[|s| - 1] == ':';
    assert forall k :: 0 <= k < |s| ==> s[k] == if k < |p| then p[k] else n[k - |p|];
  }

  /**
   * A leading `File:` is removed exactly once: the rest of the title is kept even
   * when it starts with `File:` again.
   */
  lemma NamespaceStrippedOnce(n: string)
    requires '/' !in n && '%' !in n && !HasThumbPrefix(n)
    requires n == [] || !IsTrimChar(n[|n| - 1])
    ensures NormalizeDbKey("File:" + n) == Underscored(n)
  {
    StripFileNamespace(n);
    LastSegmentWithoutSlash(n);
    PrefixedUntouched("File:", n);
    NormalizeSteps("File:" + n, n);
  }

  /** The same for a `:File:` link target. */
  lemma LinkNamespaceStrippedOnce(n: string)
    requires '/' !in n && '%' !in n && !HasThumbPrefix(n)
    requires n == [] || !IsTrimChar(n[|n| - 1])
    ensures NormalizeDbKey(":File:" + n) == Underscored(n)
  {
    StripLinkNamespace(n);
    LastSegmentWithoutSlash(n);
    PrefixedUntouched(":File:", n);
    NormalizeSteps(":File:" + n, n);
  }

  /**
   * A leading `<digits>px-` is removed exactly once: a second width prefix in the
   * rest of the name stays.
   */
  lemma ThumbPrefixStrippedOnce(w: string, n: string)
    requires |w| > 0 && AllDigits(w)
    requires '/' !in n && '%' !in n
    requires n == [] || !IsTrimChar(n[|n| - 1])
    ensures NormalizeDbKey(w + "px-" + n) == Underscored(n)
  {
    var s := w + "px-" + n;
    assert !IsTrimChar(s[0]);
    assert |n| == 0 ==> s[|s| - 1] == '-';
    assert |n| > 0 ==> s[|s| - 1] == n[|n| - 1];
    assert '%' !in s;
    NoNamespaceOnSlashOrDigit(s);
    assert '/' !in s;
    LastSegmentWithoutSlash(s);
    ThumbPrefixLength(w, n);
    NormalizeSteps(s, s);
  }

  lemma DirectUrlKey(n: string, dirs: string)
    requires PlainFileName(n) && '%' !in dirs
    ensures NormalizeDbKey("/" + dirs + "/" + n) == Underscored(n)
  {
    var s := "/" + dirs + "/" + n;
    assert s[|s| - 1] == n[|n| - 1];
    assert '%' !in s;
    NoNamespaceOnSlashOrDigit(s);
    LastSegmentAfterSlash("/" + dirs, n);
    NormalizeSteps(s, n);
  }

  lemma ThumbUrlKey(n: string, dirs: string, w: string)
    requires PlainFileName(n) && '%' !in dirs
    requires |w| > 0 && AllDigits(w)
    ensures NormalizeDbKey("/" + dirs + "/" + w + "px-" + n) == Underscored(n)
  {
    var s := "/" + dirs + "/" + w + "px-" + n;
    var f := w + "px-" + n;
    assert s[|s| - 1] == n[|n| - 1];
    assert '%' !in s;
    NoNamespaceOnSlashOrDigit(s);
    assert s == "/" + dirs + "/" + f;
    assert '/' !in f;
    LastSegmentAfterSlash("/" + dirs, f);
    ThumbPrefixLength(w, n);
    NormalizeSteps(s, f);
  }

  /**
   * Every representation of one file that the server meets (bare name, `File:`
   * title, `:File:` link target, direct asset URL, thumbnail URL with a width
   * prefix) normalises to the same DB key.
   */
  lemma EveryFormGivesTheSameKey(n: string, dirs: string, w: string)
    requires PlainFileName(n) && '%' !in dirs
    requires |w| > 0 && AllDigits(w)
    ensures NormalizeDbKey(n) == Underscored(n)
    ensures NormalizeDbKey("File:" + n) == Underscored(n)
    ensures NormalizeDbKey(":File:" + n) == Underscored(n)
    ensures NormalizeDbKey("/" + dirs + "/" + n) == Underscored(n)
    ensures NormalizeDbKey("/" + dirs + "/" + w + "px-" + n) == Underscored(n)
  {
    LastSegmentWithoutSlash(n);
    NormalizeSteps(n, n);
    NamespaceStrippedOnce(n);
    LinkNamespaceStrippedOnce(n);
    DirectUrlKey(n, dirs);
    ThumbUrlKey(n, dirs, w);
  }
}
