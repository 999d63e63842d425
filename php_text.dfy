/**
 * The PHP string built-ins that the server side uses: trim(), rawurldecode(), the
 * truthiness of strings, and PCRE's `\s` and `\d` classes. A PHP string is a byte
 * string; here it is a `string` whose characters stand for bytes.
 */
module PhpText {
  import opened Text

  /** The characters that trim() removes by default: " \t\n\r\0\x0B". */
  predicate IsTrimChar(c: char)
  {
    c == ' ' || c == '\t' || c == '\n' || c == '\r' || c == '\0' || c == '\U{0B}'
  }

  /** PCRE's `\s` without the `u` flag: space, \t, \n, \v, \f, \r. */
  predicate IsPcreSpace(c: char)
  {
    c == ' ' || c == '\t' || c == '\n' || c == '\U{0B}' || c == '\U{0C}' || c == '\r'
  }

  /** ltrim(): the leading trim characters removed. */
  function TrimLeft(s: string): (r: string)
    ensures |r| <= |s| && r == s[|s| - |r|..]
    ensures r == [] || !IsTrimChar(r[0])
    ensures forall k :: 0 <= k < |s| - |r| ==> IsTrimChar(s[k])
  {
    s[SpanEnd(s, 0, IsTrimChar)..]
  }

  /** rtrim(): the trailing trim characters removed. */
  function TrimRight(s: string): (r: string)
    ensures |r| <= |s| && r == s[..|r|]
    ensures r == [] || !IsTrimChar(r[|r| - 1])
    ensures forall k :: |r| <= k < |s| ==> IsTrimChar(s[k])
  {
    s[..SpanStart(s, |s|, IsTrimChar)]
  }

  /** PHP trim() with its default character list. */
  function Trim(s: string): (r: string)
    ensures r == [] || (!IsTrimChar(r[0]) && !IsTrimChar(r[|r| - 1]))
  {
    TrimRight(TrimLeft(s))
  }

  /** rtrim() keeps a string that does not end in a trim character. */
  lemma TrimRightKeeps(s: string)
    requires s == [] || !IsTrimChar(s[|s| - 1])
    ensures TrimRight(s) == s
  {
    assert s[..|s|] == s;
  }

  lemma TrimKeepsUntrimmed(s: string)
    requires s == [] || (!IsTrimChar(s[0]) && !IsTrimChar(s[|s| - 1]))
    ensures Trim(s) == s
  {
  }

  /** The strings PHP converts to false: "" and "0". */
  predicate IsFalsyString(s: string)
  {
    s == "" || s == "0"
  }

  predicate IsHexDigit(c: char)
  {
    IsAsciiDigit(c) || 'a' <= c <= 'f' || 'A' <= c <= 'F'
  }

  function HexValue(c: char): (v: nat)
    requires IsHexDigit(c)
    ensures v < 16
  {
    if IsAsciiDigit(c) then c as int - '0' as int
    else if 'a' <= c <= 'f' then c as int - 'a' as int + 10
    else c as int - 'A' as int + 10
  }

  /**
   * rawurldecode(): every `%` followed by two hex digits becomes the byte they spell;
   * every other character, a lone or malformed `%` included, is copied.
   */
  function RawUrlDecode(s: string): (r: string)
    ensures |r| <= |s|
    ensures '%' !in s ==> r == s
  {
    if |s| == 0 then []
    else if s[0] == '%' && |s| >= 3 && IsHexDigit(s[1]) && IsHexDigit(s[2]) then
      [(HexValue(s[1]) * 16 + HexValue(s[2])) as char] + RawUrlDecode(s[3..])
    else
      [s[0]] + RawUrlDecode(s[1..])
  }

  /**
   * A string that PHP turns into an integer when it is used as an array key:
   * "0", or an optional "-" and a decimal numeral without leading zeros.
   */
  predicate IsIntegerKey(s: string)
  {
    s == "0" ||
    (var d := if |s| > 0 && s[0] == '-' then 1 else 0;
     d < |s| && s[d] != '0' && forall k :: d <= k < |s| ==> IsAsciiDigit(s[k]))
  }

  /** The PHP values that option arrays and validation callbacks carry here. */
  datatype PhpValue = PNull | PBool(b: bool) | PInt(i: int) | PStr(s: string)

  /** A (bool) cast: null, false, 0, "" and "0" are false; every other value is true. */
  predicate ToBool(v: PhpValue)
  {
    match v
    case PNull => false
    case PBool(b) => b
    case PInt(i) => i != 0
    case PStr(s) => !IsFalsyString(s)
  }
}
