/**
 * JSON text as serde_json writes it: string literals with serde_json's
 * escapes, and unsigned integers in decimal. The reader here accepts what
 * a JSON parser accepts inside a string literal, except surrogate pairs.
 */
module Json {
  import opened Wrappers
  import opened Text
  import opened Seqs

  /** A lower-case hexadecimal digit, as serde_json writes `\u00XX`. */
  function HexDigit(n: nat): (c: char)
    requires n < 16
  {
    if n < 10 then (n + '0' as int) as char else (n - 10 + 'a' as int) as char
  }

  /** The value of a hexadecimal digit of either case. */
  function HexValue(c: char): (r: Option<nat>)
    ensures r.Some? ==> r.value < 16
  {
    if '0' <= c <= '9' then Some(c as int - '0' as int)
    else if 'a' <= c <= 'f' then Some(c as int - 'a' as int + 10)
    else if 'A' <= c <= 'F' then Some(c as int - 'A' as int + 10)
    else None
  }

  /**
   * serde_json's escape for one character inside a string literal: the
   * quote and the backslash, the five control characters that have short
   * escapes, `\u00XX` for the other control characters, and every other
   * character (non-ASCII included) written as itself.
   */
  function EscapeChar(c: char): (r: string)
    ensures |r| >= 1
    ensures r[0] == '\\' || (r == [c] && c != '"' && c as int >= 0x20)
  {
    var n := c as int;
    if c == '"' then "\\\""
    else if c == '\\' then "\\\\"
    else if n == 0x08 then "\\b"
    else if n == 0x0C then "\\f"
    else if c == '\n' then "\\n"
    else if c == '\r' then "\\r"
    else if c == '\t' then "\\t"
    else if n < 0x20 then "\\u00" + [HexDigit(n / 16), HexDigit(n % 16)]
    else [c]
  }

  function Escape(s: string): string {
    if s == [] then [] else EscapeChar(s[0]) + Escape(s[1..])
  }

  /** A string as a JSON string literal. */
  function Quote(s: string): string {
    "\"" + Escape(s) + "\""
  }

  /**
   * Reads the character an escape stands for; `t` is what follows the
   * backslash. Returns the character and how many characters of `t` the
   * escape used.
   */
  function Unescape(t: string): (r: Option<(char, nat)>)
    requires |t| >= 1
    ensures r.Some? ==> 1 <= r.value.1 <= |t|
  {
    match t[0]
    case '"' => Some(('"', 1))
    case '\\' => Some(('\\', 1))
    case '/' => Some(('/', 1))
    case 'b' => Some((0x08 as char, 1))
    case 'f' => Some((0x0C as char, 1))
    case 'n' => Some(('\n', 1))
    case 'r' => Some(('\r', 1))
    case 't' => Some(('\t', 1))
    case 'u' =>
      if |t| < 5 then None
      else
        var h := [HexValue(t[1]), HexValue(t[2]), HexValue(t[3]), HexValue(t[4])];
        if h[0].None? || h[1].None? || h[2].None? || h[3].None? then None
        else
          var v := h[0].value * 4096 + h[1].value * 256 + h[2].value * 16 + h[3].value;
          if 0xD800 <= v < 0xE000 then None else Some((v as char, 5))
    case _ => None
  }

  /**
   * Reads the inside of a string literal up to its closing quote. Returns
   * the text and what follows the quote, or `None` for an unterminated
   * literal, a bad escape or a raw control character.
   */
  function ReadString(s: string): (r: Option<(string, string)>)
    decreases |s|
    ensures r.Some? ==> |r.value.1| < |s|
  {
    if s == [] then None
    else if s[0] == '"' then Some(([], s[1..]))
    else if s[0] == '\\' then
      if |s| < 2 then None
      else match Unescape(s[1..])
        case None => None
        case Some((c, n)) =>
          match ReadString(s[1 + n..])
          case None => None
          case Some((t, rest)) => Some(([c] + t, rest))
    else if (s[0] as int) < 0x20 then None
    else match ReadString(s[1..])
      case None => None
      case Some((t, rest)) => Some(([s[0]] + t, rest))
  }

  /** The leading run of decimal digits of `s`, and what follows it. */
  function SpanDigits(s: string): (r: (string, string))
    ensures IsDigits(r.0) && r.0 + r.1 == s
    ensures r.1 != [] ==> !('0' <= r.1[0] <= '9')
  {
    if s == [] || !('0' <= s[0] <= '9') then ([], s)
    else
      var (d, rest) := SpanDigits(s[1..]);
      var digits := [s[0]] + d;
      assert forall i :: 1 <= i < |digits| ==> digits[i] == d[i - 1];
      assert digits + rest == [s[0]] + (d + rest);
      assert s == [s[0]] + s[1..];
      (digits, rest)
  }

  lemma HexDigitValue(n: nat)
    requires n < 16
    ensures HexValue(HexDigit(n)) == Some(n)
  {
  }

  /** A control character's `\u00XX` escape reads back as that character. */
  lemma UnicodeEscapeReads(c: char, rest: string)
    requires (c as int) < 0x20
    ensures var n := c as int;
      Unescape(['u', '0', '0', HexDigit(n / 16), HexDigit(n % 16)] + rest) == Some((c, 5))
  {
    var n := c as int;
    HexDigitValue(n / 16);
    HexDigitValue(n % 16);
    var t := ['u', '0', '0', HexDigit(n / 16), HexDigit(n % 16)] + rest;
    assert t[3] == HexDigit(n / 16) && t[4] == HexDigit(n % 16);
    assert (n / 16) * 16 + n % 16 == n;
  }

  /** Reading an escaped character, then the rest, is reading the rest with that character in front. */
  lemma ReadEscapedChar(c: char, tail: string)
    ensures ReadString(EscapeChar(c) + tail) ==
      match ReadString(tail)
      case None => None
      case Some((t, rest)) => Some(([c] + t, rest))
  {
    var e := EscapeChar(c);
    var s := e + tail;
    var n := c as int;
    if e == [c] {
      assert s[1..] == tail;
    } else {
      assert s[0] == '\\';
      if n < 0x20 && c != '\n' && c != '\r' && c != '\t' && n != 0x08 && n != 0x0C {
        assert s[1..] == ['u', '0', '0', HexDigit(n / 16), HexDigit(n % 16)] + tail;
        UnicodeEscapeReads(c, tail);
        assert s[6..] == tail;
      } else {
        assert |e| == 2;
        assert s[2..] == tail;
      }
    }
  }

  /** A quoted string reads back as itself: `ReadString` undoes `Escape` up to the closing quote. */
  lemma {:induction false} ReadEscaped(s: string, rest: string)
    ensures ReadString(Escape(s) + "\"" + rest) == Some((s, rest))
  {
    if s == [] {
      assert Escape(s) + "\"" + rest == "\"" + rest;
      assert ("\"" + rest)[1..] == rest;
    } else {
      ReadEscaped(s[1..], rest);
      AppendAssoc(Escape(s[1..]), "\"", rest);
      AppendAssoc(Escape(s), "\"", rest);
      ReadEscapedStep(s, "\"" + rest, rest);
    }
  }

  /** One step of `ReadEscaped`: the escaped first character is read back before the rest. */
  lemma ReadEscapedStep(s: string, close: string, rest: string)
    requires s != []
    requires ReadString(Escape(s[1..]) + close) == Some((s[1..], rest))
    ensures ReadString(Escape(s) + close) == Some((s, rest))
  {
    assert Escape(s) + close == EscapeChar(s[0]) + (Escape(s[1..]) + close);
    ReadEscapedChar(s[0], Escape(s[1..]) + close);
    assert s == [s[0]] + s[1..];
  }

  /** Digits followed by a non-digit split where the digits end. */
  lemma {:induction false} SpanDigitsOf(d: string, tail: string)
    requires IsDigits(d) && (tail == [] || !('0' <= tail[0] <= '9'))
    ensures SpanDigits(d + tail) == (d, tail)
  {
    if d != [] {
      assert (d + tail)[1..] == d[1..] + tail;
      SpanDigitsOf(d[1..], tail);
      assert d == [d[0]] + d[1..];
    } else {
      assert d + tail == tail;
    }
  }
}
