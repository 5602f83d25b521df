/**
 * UTF-8 as Rust uses it: the encoding of a `String` into bytes, and
 * `std::str::from_utf8`, which accepts exactly the well-formed byte
 * sequences (no overlong forms, no surrogates, nothing above U+10FFFF).
 * Rust measures string lengths and `find` positions in these bytes.
 */
module Utf8 {
  import opened Wrappers
  import opened Seqs

  type Byte = x: int | 0 <= x < 256

  /** The number of bytes UTF-8 spends on `c`. */
  function Width(c: char): (w: nat)
    ensures 1 <= w <= 4
  {
    var n := c as int;
    if n < 0x80 then 1 else if n < 0x800 then 2 else if n < 0x10000 then 3 else 4
  }

  /** `str::len`: the byte length of the UTF-8 encoding of `s`. */
  function ByteLen(s: string): nat {
    if s == [] then 0 else Width(s[0]) + ByteLen(s[1..])
  }

  function EncodeChar(c: char): (r: seq<Byte>)
    ensures |r| == Width(c)
  {
    var n := c as int;
    if n < 0x80 then [n]
    else if n < 0x800 then [0xC0 + n / 64, 0x80 + n % 64]
    else if n < 0x10000 then [0xE0 + n / 4096, 0x80 + (n / 64) % 64, 0x80 + n % 64]
    else [0xF0 + n / 262144, 0x80 + (n / 4096) % 64, 0x80 + (n / 64) % 64, 0x80 + n % 64]
  }

  /** The bytes of a Rust `String`. */
  function Encode(s: string): seq<Byte> {
    if s == [] then [] else EncodeChar(s[0]) + Encode(s[1..])
  }

  predicate IsCont(b: int) {
    0x80 <= b <= 0xBF
  }

  /**
   * Decodes the character at the head of `b`, returning it with the number
   * of bytes it occupies, or `None` when the head is not well-formed.
   */
  function DecodeFirst(b: seq<Byte>): (r: Option<(char, nat)>)
    requires |b| > 0
    ensures r.Some? ==> 1 <= r.value.1 <= |b|
  {
    var b0 := b[0] as int;
    if b0 < 0x80 then Some((b0 as char, 1))
    else if 0xC2 <= b0 <= 0xDF then
      if |b| >= 2 && IsCont(b[1]) then
        Some((Join2(b0, b[1]) as char, 2))
      else None
    else if 0xE0 <= b0 <= 0xEF then
      if |b| >= 3 && IsCont(b[1]) && IsCont(b[2])
         && (b0 != 0xE0 || b[1] >= 0xA0) && (b0 != 0xED || b[1] <= 0x9F)
      then
        Some((Join3(b0, b[1], b[2]) as char, 3))
      else None
    else if 0xF0 <= b0 <= 0xF4 then
      if |b| >= 4 && IsCont(b[1]) && IsCont(b[2]) && IsCont(b[3])
         && (b0 != 0xF0 || b[1] >= 0x90) && (b0 != 0xF4 || b[1] <= 0x8F)
      then
        Some((Join4(b0, b[1], b[2], b[3]) as char, 4))
      else None
    else None
  }

  /** The code point a two-, three- or four-byte sequence carries. */
  function Join2(b0: int, b1: int): int {
    (b0 - 0xC0) * 64 + (b1 - 0x80)
  }

  function Join3(b0: int, b1: int, b2: int): int {
    (b0 - 0xE0) * 4096 + (b1 - 0x80) * 64 + (b2 - 0x80)
  }

  function Join4(b0: int, b1: int, b2: int, b3: int): int {
    (b0 - 0xF0) * 262144 + (b1 - 0x80) * 4096 + (b2 - 0x80) * 64 + (b3 - 0x80)
  }

  /** `std::str::from_utf8`: the string the bytes spell, or `None` when they are not UTF-8. */
  function Decode(b: seq<Byte>): Option<string>
    decreases |b|
  {
    if b == [] then Some([])
    else match DecodeFirst(b)
      case None => None
      case Some((c, n)) =>
        match Decode(b[n..])
        case None => None
        case Some(rest) => Some([c] + rest)
  }

  /** The byte length of a string is the length of its encoding. */
  lemma {:induction false} ByteLenIsEncodedLength(s: string)
    ensures ByteLen(s) == |Encode(s)|
  {
    if s != [] {
      ByteLenIsEncodedLength(s[1..]);
    }
  }

  lemma {:induction false} ByteLenAppend(a: string, b: string)
    ensures ByteLen(a + b) == ByteLen(a) + ByteLen(b)
  {
    if a == [] {
      assert a + b == b;
    } else {
      assert (a + b)[1..] == a[1..] + b;
      ByteLenAppend(a[1..], b);
    }
  }

  /** A string has at least as many bytes as characters, so a nonempty one has at least one byte. */
  lemma {:induction false} ByteLenAtLeastLength(s: string)
    ensures ByteLen(s) >= |s|
  {
    if s != [] {
      ByteLenAtLeastLength(s[1..]);
    }
  }

  /** An ASCII string has one byte per character. */
  lemma {:induction false} ByteLenOfAscii(s: string)
    requires forall i :: 0 <= i < |s| ==> s[i] as int < 0x80
    ensures ByteLen(s) == |s|
  {
    if s != [] {
      assert forall i :: 0 <= i < |s[1..]| ==> s[1..][i] == s[i + 1];
      ByteLenOfAscii(s[1..]);
    }
  }

  lemma Split2(n: int)
    requires 0x80 <= n < 0x800
    ensures 0xC2 <= 0xC0 + n / 64 <= 0xDF && Join2(0xC0 + n / 64, 0x80 + n % 64) == n
  {
  }

  lemma Split3(n: int)
    requires 0x800 <= n < 0x10000 && !(0xD800 <= n < 0xE000)
    ensures var b0, b1, b2 := 0xE0 + n / 4096, 0x80 + (n / 64) % 64, 0x80 + n % 64;
      && 0xE0 <= b0 <= 0xEF && IsCont(b1) && IsCont(b2)
      && (b0 != 0xE0 || b1 >= 0xA0) && (b0 != 0xED || b1 <= 0x9F)
      && Join3(b0, b1, b2) == n
  {
    var q := n / 64;
    assert n == q * 64 + n % 64;
    assert q == (q / 64) * 64 + q % 64;
    assert n / 4096 == q / 64;
  }

  lemma Split4(n: int)
    requires 0x10000 <= n <= 0x10FFFF
    ensures var b0, b1, b2, b3 := 0xF0 + n / 262144, 0x80 + (n / 4096) % 64, 0x80 + (n / 64) % 64, 0x80 + n % 64;
      && 0xF0 <= b0 <= 0xF4 && IsCont(b1) && IsCont(b2) && IsCont(b3)
      && (b0 != 0xF0 || b1 >= 0x90) && (b0 != 0xF4 || b1 <= 0x8F)
      && Join4(b0, b1, b2, b3) == n
  {
    var q := n / 64;
    var q2 := q / 64;
    assert n == q * 64 + n % 64;
    assert q == q2 * 64 + q % 64;
    assert q2 == (q2 / 64) * 64 + q2 % 64;
    assert n / 4096 == q2;
    assert n / 262144 == q2 / 64;
  }

  /** Decoding the encoding of one character reads back that character and nothing after it. */
  lemma DecodeFirstOfEncodeChar(c: char, rest: seq<Byte>)
    ensures DecodeFirst(EncodeChar(c) + rest) == Some((c, Width(c)))
  {
    var n := c as int;
    var b := EncodeChar(c) + rest;
    if n < 0x80 {
    } else if n < 0x800 {
      Split2(n);
    } else if n < 0x10000 {
      Split3(n);
    } else {
      Split4(n);
    }
  }

  /** Every string survives the trip through its bytes: `from_utf8(s.as_bytes()) == Ok(s)`. */
  lemma {:induction false} DecodeEncode(s: string)
    ensures Decode(Encode(s)) == Some(s)
  {
    if s != [] {
      var b := Encode(s);
      assert b == EncodeChar(s[0]) + Encode(s[1..]);
      DecodeFirstOfEncodeChar(s[0], Encode(s[1..]));
      assert b[Width(s[0])..] == Encode(s[1..]);
      DecodeEncode(s[1..]);
      assert s == [s[0]] + s[1..];
    }
  }

  lemma Join2Splits(b0: int, b1: int)
    requires 0xC2 <= b0 <= 0xDF && IsCont(b1)
    ensures var n := Join2(b0, b1); 0x80 <= n < 0x800 && n / 64 == b0 - 0xC0 && n % 64 == b1 - 0x80
  {
  }

  lemma Join3Splits(b0: int, b1: int, b2: int)
    requires 0xE0 <= b0 <= 0xEF && IsCont(b1) && IsCont(b2)
    requires (b0 != 0xE0 || b1 >= 0xA0)
    ensures var n := Join3(b0, b1, b2);
      && 0x800 <= n < 0x10000
      && n / 4096 == b0 - 0xE0 && (n / 64) % 64 == b1 - 0x80 && n % 64 == b2 - 0x80
  {
    var n := Join3(b0, b1, b2);
    var q := (b0 - 0xE0) * 64 + (b1 - 0x80);
    assert n == q * 64 + (b2 - 0x80);
    assert n / 64 == q;
    assert q / 64 == b0 - 0xE0;
  }

  lemma Join4Splits(b0: int, b1: int, b2: int, b3: int)
    requires 0xF0 <= b0 <= 0xF4 && IsCont(b1) && IsCont(b2) && IsCont(b3)
    requires (b0 != 0xF0 || b1 >= 0x90)
    ensures var n := Join4(b0, b1, b2, b3);
      && 0x10000 <= n
      && n / 262144 == b0 - 0xF0 && (n / 4096) % 64 == b1 - 0x80
      && (n / 64) % 64 == b2 - 0x80 && n % 64 == b3 - 0x80
  {
    var n := Join4(b0, b1, b2, b3);
    var q2 := (b0 - 0xF0) * 64 + (b1 - 0x80);
    var q := q2 * 64 + (b2 - 0x80);
    assert n == q * 64 + (b3 - 0x80);
    assert n / 64 == q;
    assert q / 64 == q2;
    assert n / 4096 == q2;
    assert q2 / 64 == b0 - 0xF0;
  }

  /** A well-formed head re-encodes to exactly the bytes it was read from. */
  lemma EncodeCharOfDecodeFirst(b: seq<Byte>)
    requires |b| > 0 && DecodeFirst(b).Some?
    ensures EncodeChar(DecodeFirst(b).value.0) == b[..DecodeFirst(b).value.1]
  {
    var b0 := b[0] as int;
    if b0 < 0x80 {
    } else if b0 <= 0xDF {
      Join2Splits(b0, b[1]);
    } else if b0 <= 0xEF {
      Join3Splits(b0, b[1], b[2]);
    } else {
      Join4Splits(b0, b[1], b[2], b[3]);
    }
  }

  /** Accepted bytes are a well-formed head followed by accepted bytes. */
  lemma DecodeStep(b: seq<Byte>)
    requires b != [] && Decode(b).Some?
    ensures DecodeFirst(b).Some? && Decode(b[DecodeFirst(b).value.1..]).Some?
    ensures Decode(b).value == [DecodeFirst(b).value.0] + Decode(b[DecodeFirst(b).value.1..]).value
  {
  }

  /** Bytes that `from_utf8` accepts are exactly the encoding of the string it returns. */
  lemma {:induction false} EncodeDecode(b: seq<Byte>)
    requires Decode(b).Some?
    ensures Encode(Decode(b).value) == b
    decreases |b|
  {
    if b != [] {
      DecodeStep(b);
      var n := DecodeFirst(b).value.1;
      EncodeDecode(b[n..]);
      EncodeDecodeStep(b, n);
    }
  }

  /** One step of `EncodeDecode`: the first character re-encodes to the bytes it was decoded from. */
  lemma EncodeDecodeStep(b: seq<Byte>, n: nat)
    requires b != [] && Decode(b).Some? && DecodeFirst(b).Some? && n == DecodeFirst(b).value.1
    requires Decode(b[n..]).Some? && Encode(Decode(b[n..]).value) == b[n..]
    ensures Encode(Decode(b).value) == b
  {
    DecodeStep(b);
    var c := DecodeFirst(b).value.0;
    EncodeCharOfDecodeFirst(b);
    EncodeCons(c, Decode(b[n..]).value);
    TakeDrop(b, n);
  }

  lemma EncodeCons(c: char, t: string)
    ensures Encode([c] + t) == EncodeChar(c) + Encode(t)
  {
    assert ([c] + t)[1..] == t;
  }


  /** `from_utf8` refuses a lone continuation byte, a lone 0xFF and an overlong encoding of `/`. */
  lemma DecodeRejects()
    ensures Decode([0x80]).None?
    ensures Decode([0xFF]).None?
    ensures Decode([0xC0, 0xAF]).None?
    ensures Decode([0xED, 0xA0, 0x80]).None?
  {
  }
}
