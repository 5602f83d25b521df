/**
 * Character classes and string helpers shared by the model: Rust's
 * `char::is_whitespace`, Rust's `str::to_lowercase` (restricted to the Latin
 * blocks the data set uses), SQLite's built-in `LOWER()`, prefix and
 * substring search, and decimal rendering of naturals.
 */
module Text {
  import opened Wrappers

  /** Rust's `char::is_whitespace`: the Unicode `White_Space` property. */
  predicate IsWhitespace(c: char) {
    var n := c as int;
    || (0x09 <= n <= 0x0D) || n == 0x20 || n == 0x85 || n == 0xA0 || n == 0x1680
    || (0x2000 <= n <= 0x200A) || n == 0x2028 || n == 0x2029 || n == 0x202F
    || n == 0x205F || n == 0x3000
  }

  predicate NoWhitespace(s: string) {
    forall i :: 0 <= i < |s| ==> !IsWhitespace(s[i])
  }

  predicate AllWhitespace(s: string) {
    forall i :: 0 <= i < |s| ==> IsWhitespace(s[i])
  }

  /**
   * The lowercase mapping of one character, as Rust's `char::to_lowercase`
   * gives it for ASCII, Latin-1 Supplement and Latin Extended-A (the blocks
   * holding every Turkish letter). Capital I with dot above lowers to two
   * characters, `i` followed by the combining dot above U+0307. Characters
   * outside these blocks are left as they are.
   */
  function LowerChar(c: char): (r: seq<char>)
    ensures 1 <= |r| <= 2
  {
    var n := c as int;
    if 'A' <= c <= 'Z' then [(n + 32) as char]
    else if 0xC0 <= n <= 0xDE && n != 0xD7 then [(n + 32) as char]
    else if n == 0x130 then ['i', 0x307 as char]
    else if n == 0x178 then [0xFF as char]
    else if (0x100 <= n <= 0x12F || 0x132 <= n <= 0x137 || 0x14A <= n <= 0x177) && n % 2 == 0 then
      [(n + 1) as char]
    else if (0x139 <= n <= 0x148 || 0x179 <= n <= 0x17E) && n % 2 == 1 then
      [(n + 1) as char]
    else [c]
  }

  /** A character that lowercasing leaves alone. */
  predicate IsLower(c: char) {
    LowerChar(c) == [c]
  }

  predicate AllLower(s: string) {
    forall i :: 0 <= i < |s| ==> IsLower(s[i])
  }

  /** Rust's `str::to_lowercase`: every character replaced by its lowercase mapping. */
  function Lower(s: string): string {
    if s == [] then [] else LowerChar(s[0]) + Lower(s[1..])
  }

  /** Every character a lowercase mapping produces is itself already lowercase. */
  lemma LowerCharIsLower(c: char)
    ensures AllLower(LowerChar(c))
  {
  }

  /** Lowercasing leaves whitespace alone and never turns anything else into whitespace or `-`. */
  lemma LowerCharClasses(c: char)
    ensures IsWhitespace(c) ==> LowerChar(c) == [c]
    ensures !IsWhitespace(c) ==> NoWhitespace(LowerChar(c))
    ensures '-' in LowerChar(c) ==> c == '-'
  {
  }

  lemma {:induction false} LowerAppend(a: string, b: string)
    ensures Lower(a + b) == Lower(a) + Lower(b)
  {
    if a == [] {
      assert a + b == b;
    } else {
      assert (a + b)[1..] == a[1..] + b;
      LowerAppend(a[1..], b);
    }
  }

  /** The result of lowercasing is lowercase. */
  lemma {:induction false} LowerIsLower(s: string)
    ensures AllLower(Lower(s))
  {
    if s != [] {
      LowerIsLower(s[1..]);
      LowerCharIsLower(s[0]);
      var r := Lower(s);
      assert r == LowerChar(s[0]) + Lower(s[1..]);
      forall i | 0 <= i < |r|
        ensures IsLower(r[i])
      {
        if i < |LowerChar(s[0])| {
          assert r[i] == LowerChar(s[0])[i];
        } else {
          assert r[i] == Lower(s[1..])[i - |LowerChar(s[0])|];
        }
      }
    }
  }

  /** Lowercasing a string that is already lowercase changes nothing. */
  lemma {:induction false} LowerOfLower(s: string)
    requires AllLower(s)
    ensures Lower(s) == s
  {
    if s != [] {
      assert IsLower(s[0]);
      assert AllLower(s[1..]) by {
        forall i | 0 <= i < |s[1..]| ensures IsLower(s[1..][i]) {
          assert s[1..][i] == s[i + 1];
        }
      }
      LowerOfLower(s[1..]);
      assert s == [s[0]] + s[1..];
    }
  }

  /** Rust's `to_lowercase` is idempotent on the modelled blocks. */
  lemma LowerIdempotent(s: string)
    ensures Lower(Lower(s)) == Lower(s)
  {
    LowerIsLower(s);
    LowerOfLower(Lower(s));
  }

  /** Lowercasing maps whitespace-free strings to whitespace-free strings. */
  lemma {:induction false} LowerKeepsNoWhitespace(s: string)
    requires NoWhitespace(s)
    ensures NoWhitespace(Lower(s))
  {
    if s != [] {
      assert NoWhitespace(s[1..]) by {
        forall i | 0 <= i < |s[1..]| ensures !IsWhitespace(s[1..][i]) {
          assert s[1..][i] == s[i + 1];
        }
      }
      LowerKeepsNoWhitespace(s[1..]);
      LowerCharClasses(s[0]);
      var r := Lower(s);
      assert r == LowerChar(s[0]) + Lower(s[1..]);
      forall i | 0 <= i < |r| ensures !IsWhitespace(r[i]) {
        if i < |LowerChar(s[0])| {
          assert r[i] == LowerChar(s[0])[i];
        } else {
          assert r[i] == Lower(s[1..])[i - |LowerChar(s[0])|];
        }
      }
    }
  }

  /** Lowercasing leaves a string of whitespace alone. */
  lemma {:induction false} LowerOfWhitespace(w: string)
    requires AllWhitespace(w)
    ensures Lower(w) == w
  {
    if w != [] {
      LowerCharClasses(w[0]);
      assert AllWhitespace(w[1..]) by {
        forall i | 0 <= i < |w[1..]| ensures IsWhitespace(w[1..][i]) {
          assert w[1..][i] == w[i + 1];
        }
      }
      LowerOfWhitespace(w[1..]);
      assert w == [w[0]] + w[1..];
    }
  }

  /** Lowercasing introduces a `-` only where the input had one. */
  lemma {:induction false} LowerNoDash(s: string)
    requires '-' !in s
    ensures '-' !in Lower(s)
  {
    if s != [] {
      assert s == [s[0]] + s[1..];
      LowerNoDash(s[1..]);
      LowerCharClasses(s[0]);
    }
  }

  /** SQLite's built-in `LOWER()`: folds ASCII `A`-`Z` only, every other character stays. */
  function AsciiLowerChar(c: char): (r: char)
    ensures 'A' <= c <= 'Z' ==> 'a' <= r <= 'z' && r as int - c as int == 32
    ensures !('A' <= c <= 'Z') ==> r == c
  {
    if 'A' <= c <= 'Z' then (c as int + 32) as char else c
  }

  function AsciiLower(s: string): (r: string)
    ensures |r| == |s|
    ensures forall i :: 0 <= i < |s| ==> r[i] == AsciiLowerChar(s[i])
  {
    if s == [] then [] else [AsciiLowerChar(s[0])] + AsciiLower(s[1..])
  }

  lemma AsciiLowerIdempotent(s: string)
    ensures AsciiLower(AsciiLower(s)) == AsciiLower(s)
  {
  }

  /** `s` starts with `p` (Rust's `str::starts_with`). */
  predicate IsPrefix(p: string, s: string) {
    |p| <= |s| && s[..|p|] == p
  }

  /** `q` occurs in `s` at character index `i`. */
  predicate OccursAt(s: string, q: string, i: int) {
    0 <= i && i + |q| <= |s| && s[i..i + |q|] == q
  }

  /** The first index at or after `from` where `q` occurs in `s`. */
  function FindFrom(s: string, q: string, from: nat): (r: Option<nat>)
    decreases |s| - from
    ensures r.Some? ==> from <= r.value && OccursAt(s, q, r.value)
    ensures r.Some? ==> forall j :: from <= j < r.value ==> !OccursAt(s, q, j)
    ensures r.None? ==> forall j :: from <= j ==> !OccursAt(s, q, j)
  {
    if from + |q| > |s| then None
    else if s[from..from + |q|] == q then Some(from)
    else FindFrom(s, q, from + 1)
  }

  /** Rust's `str::find`, on character indices: the first occurrence of `q` in `s`. */
  function Find(s: string, q: string): (r: Option<nat>)
    ensures r.Some? ==> OccursAt(s, q, r.value) && forall j :: 0 <= j < r.value ==> !OccursAt(s, q, j)
    ensures r.None? ==> forall j :: !OccursAt(s, q, j)
  {
    FindFrom(s, q, 0)
  }

  function DigitChar(d: nat): (c: char)
    requires d < 10
    ensures '0' <= c <= '9'
  {
    (d + '0' as int) as char
  }

  predicate IsDigits(s: string) {
    forall i :: 0 <= i < |s| ==> '0' <= s[i] <= '9'
  }

  /** Decimal rendering of a natural, as Rust's `{}` formats an integer. */
  function NatToString(n: nat): (s: string)
    ensures 1 <= |s| && IsDigits(s)
    ensures |s| > 1 ==> s[0] != '0'
  {
    if n < 10 then [DigitChar(n)] else NatToString(n / 10) + [DigitChar(n % 10)]
  }

  /** Reads a string of decimal digits back as a natural. */
  function ParseDigits(s: string): nat
    requires IsDigits(s)
  {
    if s == [] then 0 else 10 * ParseDigits(s[..|s| - 1]) + (s[|s| - 1] as int - '0' as int)
  }

  /** Rendering a natural in decimal loses nothing: reading it back gives the same number. */
  lemma {:induction false} ParseNatToString(n: nat)
    ensures ParseDigits(NatToString(n)) == n
  {
    if n >= 10 {
      var s := NatToString(n);
      assert s[..|s| - 1] == NatToString(n / 10);
      ParseNatToString(n / 10);
    }
  }

  /** Distinct naturals render as distinct strings. */
  lemma NatToStringInjective(m: nat, n: nat)
    ensures NatToString(m) == NatToString(n) ==> m == n
  {
    ParseNatToString(m);
    ParseNatToString(n);
  }
}
