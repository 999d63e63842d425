/**
 * The JavaScript values and built-ins that both client scripts rely on: the strict
 * truthiness test `isTruthy`, decodeURIComponent and its non-throwing wrapper
 * `decodeSafe`, and the two MediaWiki objects the scripts consult, which are inputs
 * here: mw.Title.newFromText(...).getPrefixedText() is the oracle `newFromText`
 * (None when it yields null or throws) and `new mw.Uri(href)` is the oracle
 * `parseUri` (None when it throws).
 */
module JsValues {
  import opened Wrappers
  import opened Text
  import opened PhpText

  /** The configuration values the scripts read through mw.config.get. */
  datatype JsValue = JUndefined | JNull | JBool(b: bool) | JNumber(n: real) | JString(s: string)

  /** isTruthy: exactly true, 1, '1' and 'true' count; nothing else does. */
  predicate IsTruthy(v: JsValue)
  {
    v == JBool(true) || v == JNumber(1.0) || v == JString("1") || v == JString("true")
  }

  /** JavaScript's own ToBoolean. */
  predicate ToBoolean(v: JsValue)
  {
    match v
    case JUndefined => false
    case JNull => false
    case JBool(b) => b
    case JNumber(n) => n != 0.0
    case JString(s) => s != ""
  }

  /** isTruthy is stricter than JavaScript truthiness: a string counts only as "1" or "true". */
  lemma IsTruthyIsStrict(v: JsValue, s: string)
    ensures IsTruthy(v) ==> ToBoolean(v)
    ensures IsTruthy(JString(s)) <==> s == "1" || s == "true"
    ensures !IsTruthy(JString("yes")) && ToBoolean(JString("yes"))
    ensures !IsTruthy(JNumber(2.0)) && ToBoolean(JNumber(2.0))
  {
  }

  /** The parts of an mw.Uri the scripts read: `query.title` (None when absent) and `path`. */
  datatype Uri = Uri(queryTitle: Option<string>, path: string)

  /** A string-or-null result that JavaScript treats as true: present and not empty. */
  predicate Present(t: Option<string>)
  {
    t.Some? && t.value != ""
  }

  /** normalizeFileTitle / normalizeTitleText: null for the empty string, else the oracle's answer. */
  function NormalizeTitle(newFromText: string -> Option<string>, t: string): (r: Option<string>)
    ensures t == "" ==> r.None?
    ensures t != "" ==> r == newFromText(t)
  {
    if t == "" then None else newFromText(t)
  }

  /* ---------------- decodeURIComponent ---------------- */

  /** The byte that the escape `%XX` at `i` spells, if there is one. */
  function EscapeAt(s: string, i: nat): (r: Option<nat>)
    ensures r.Some? ==> i + 3 <= |s| && s[i] == '%' && r.value < 256
  {
    if i + 3 <= |s| && s[i] == '%' && IsHexDigit(s[i + 1]) && IsHexDigit(s[i + 2])
    then Some(HexValue(s[i + 1]) * 16 + HexValue(s[i + 2]))
    else None
  }

  /** The length of the UTF-8 sequence that byte `b` starts; 0 when `b` cannot start one. */
  function Utf8Length(b: nat): (n: nat)
    ensures n <= 4
  {
    if b < 0x80 then 1
    else if 0xC0 <= b < 0xE0 then 2
    else if 0xE0 <= b < 0xF0 then 3
    else if 0xF0 <= b < 0xF8 then 4
    else 0
  }

  /** The six payload bits of the continuation-byte escape at `i` (`%80` to `%BF`). */
  function ContinuationAt(s: string, i: nat): (r: Option<nat>)
    ensures r.Some? ==> i + 3 <= |s| && r.value < 64
  {
    match EscapeAt(s, i)
    case None => None
    case Some(b) => if 0x80 <= b < 0xC0 then Some(b - 0x80) else None
  }

  /** The code point a valid UTF-8 sequence of length `n` may encode: no overlong form, no surrogate. */
  predicate ValidCodePoint(n: nat, cp: nat)
  {
    (n == 2 && 0x80 <= cp) ||
    (n == 3 && 0x800 <= cp && !(0xD800 <= cp <= 0xDFFF)) ||
    (n == 4 && 0x10000 <= cp <= 0x10FFFF)
  }

  /**
   * The character that the escapes starting at `i` encode as UTF-8, and where they
   * end; None wherever decodeURIComponent throws a URIError.
   */
  function DecodeEscape(s: string, i: nat): (r: Option<(char, nat)>)
    ensures r.Some? ==> i + 3 <= r.value.1 <= |s|
  {
    match EscapeAt(s, i)
    case None => None
    case Some(b) =>
      var n := Utf8Length(b);
      if n == 0 then None
      else if n == 1 then Some((b as char, i + 3))
      else
        var c1 := ContinuationAt(s, i + 3);
        var c2 := if n >= 3 then ContinuationAt(s, i + 6) else Some(0);
        var c3 := if n == 4 then ContinuationAt(s, i + 9) else Some(0);
        if c1.None? || c2.None? || c3.None? then None
        else
          var cp := if n == 2 then (b - 0xC0) * 64 + c1.value
                    else if n == 3 then (b - 0xE0) * 4096 + c1.value * 64 + c2.value
                    else (b - 0xF0) * 262144 + c1.value * 4096 + c2.value * 64 + c3.value;
          if ValidCodePoint(n, cp) then Some((cp as char, i + 3 * n)) else None
  }

  /** decodeURIComponent applied to `s[i..]`. */
  function DecodeFrom(s: string, i: nat): (r: Option<string>)
    requires i <= |s|
    decreases |s| - i
    ensures (forall k :: i <= k < |s| ==> s[k] != '%') ==> r == Some(s[i..])
    ensures r.Some? ==> |r.value| <= |s| - i
  {
    if i == |s| then assert s[i..] == []; Some([])
    else if s[i] != '%' then
      match DecodeFrom(s, i + 1)
      case None => None
      case Some(rest) =>
        assert [s[i]] + s[i + 1..] == s[i..];
        Some([s[i]] + rest)
    else
      match DecodeEscape(s, i)
      case None => None
      case Some((c, j)) =>
        match DecodeFrom(s, j)
        case None => None
        case Some(rest) => Some([c] + rest)
  }

  /**
   * decodeURIComponent as the abstract operation Decode of ECMA-262 defines it with an
   * empty reserved set: every escape sequence is decoded, a malformed escape or an
   * invalid UTF-8 sequence is an error (None).
   */
  function DecodeUriComponent(s: string): (r: Option<string>)
    ensures '%' !in s ==> r == Some(s)
    ensures r.Some? ==> |r.value| <= |s|
  {
    assert s[0..] == s;
    DecodeFrom(s, 0)
  }

  /** decodeSafe: the decoded text, or the input itself when decoding throws. */
  function DecodeSafe(s: string): (r: string)
    ensures DecodeUriComponent(s).None? ==> r == s
    ensures '%' !in s ==> r == s
  {
    match DecodeUriComponent(s)
    case None => s
    case Some(d) => d
  }

  /** A `%` that does not start an escape makes decoding fail, wherever it is. */
  lemma {:induction false} BadEscapeFails(s: string, i: nat, p: nat)
    requires i <= p < |s| && s[p] == '%' && EscapeAt(s, p).None?
    requires forall k :: i <= k < p ==> s[k] != '%'
    decreases p - i
    ensures DecodeFrom(s, i).None?
  {
    if i < p {
      BadEscapeFails(s, i + 1, p);
    }
  }

  /** A lone `%`, or one followed by anything but two hex digits, yields a URIError. */
  lemma MalformedEscapeFails(prefix: string, rest: string)
    requires '%' !in prefix
    requires !(|rest| >= 2 && IsHexDigit(rest[0]) && IsHexDigit(rest[1]))
    ensures DecodeUriComponent(prefix + "%" + rest).None?
    ensures DecodeSafe(prefix + "%" + rest) == prefix + "%" + rest
  {
    var s := prefix + "%" + rest;
    assert s[|prefix|] == '%';
    assert forall k :: 0 <= k < |prefix| ==> s[k] == prefix[k];
    BadEscapeFails(s, 0, |prefix|);
  }

  /** An ASCII escape: `%2F` is `/`. */
  lemma DecodeAsciiExample()
    ensures DecodeUriComponent("%2F") == Some("/")
  {
    var s := "%2F";
    assert EscapeAt(s, 0) == Some(0x2F);
    assert DecodeEscape(s, 0) == Some(('/', 3));
    assert DecodeFrom(s, 3) == Some([]);
    assert ['/'] + [] == "/";
  }

  /** A two-byte UTF-8 sequence: `%C3%A9` is `é`. */
  lemma DecodeUtf8Example()
    ensures DecodeUriComponent("%C3%A9") == Some("é")
  {
    var s := "%C3%A9";
    assert EscapeAt(s, 0) == Some(0xC3);
    assert EscapeAt(s, 3) == Some(0xA9);
    assert ContinuationAt(s, 3) == Some(0x29);
    assert DecodeEscape(s, 0) == Some(('é', 6));
    assert DecodeFrom(s, 6) == Some([]);
    assert ['é'] + [] == "é";
  }

  /** A lead byte without its continuation bytes is an error, and decodeSafe keeps the input. */
  lemma TruncatedSequenceExample()
    ensures DecodeUriComponent("%E9").None? && DecodeSafe("%E9") == "%E9"
  {
    var s := "%E9";
    assert EscapeAt(s, 0) == Some(0xE9);
    assert EscapeAt(s, 3).None?;
  }
}
