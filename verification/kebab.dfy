/**
 * `to_kebab_case` (src/core/str.rs): lowercase the text, split it on runs of
 * whitespace, and join the words with `-`. No diacritics are folded: `Ç`
 * becomes `ç`, not `c`.
 */
module Kebab {
  import opened Text
  import opened Seqs

  /** The length of the run of non-whitespace characters at the head of `s`. */
  function TokenLen(s: string): (n: nat)
    ensures n <= |s|
    ensures forall i :: 0 <= i < n ==> !IsWhitespace(s[i])
    ensures n < |s| ==> IsWhitespace(s[n])
  {
    if s == [] || IsWhitespace(s[0]) then 0 else 1 + TokenLen(s[1..])
  }

  /** Rust's `str::split_whitespace`: the maximal runs of non-whitespace characters, in order. */
  function Words(s: string): (ws: seq<string>)
    ensures forall i :: 0 <= i < |ws| ==> ws[i] != [] && NoWhitespace(ws[i])
    decreases |s|
  {
    if s == [] then []
    else if IsWhitespace(s[0]) then Words(s[1..])
    else
      var n := TokenLen(s);
      [s[..n]] + Words(s[n..])
  }

  /** `[T]::join(sep)`: the words with `sep` between neighbours. */
  function Join(ws: seq<string>, sep: string): string {
    if ws == [] then []
    else if |ws| == 1 then ws[0]
    else ws[0] + sep + Join(ws[1..], sep)
  }

  function ToKebabCase(s: string): (r: string)
    ensures NoWhitespace(r)
    ensures AllLower(r)
  {
    var ws := Words(Lower(s));
    JoinNoWhitespace(ws);
    WordsAreFrom(Lower(s));
    LowerIsLower(s);
    JoinLower(ws, Lower(s));
    Join(ws, "-")
  }

  /** Every word `Words` returns is a run of characters of `s`. */
  predicate WordsFrom(ws: seq<string>, s: string) {
    forall i, j :: 0 <= i < |ws| && 0 <= j < |ws[i]| ==> ws[i][j] in s
  }

  lemma {:induction false} WordsAreFrom(s: string)
    ensures WordsFrom(Words(s), s)
    decreases |s|
  {
    if s != [] {
      if IsWhitespace(s[0]) {
        WordsAreFrom(s[1..]);
      } else {
        var n := TokenLen(s);
        WordsAreFrom(s[n..]);
        var ws := Words(s);
        assert ws == [s[..n]] + Words(s[n..]);
        forall i, j | 0 <= i < |ws| && 0 <= j < |ws[i]| ensures ws[i][j] in s {
          if i == 0 {
            assert ws[0][j] == s[j];
          } else {
            assert ws[i] == Words(s[n..])[i - 1];
            assert ws[i][j] in s[n..];
          }
        }
      }
    }
  }

  lemma {:induction false} JoinNoWhitespace(ws: seq<string>)
    requires forall i :: 0 <= i < |ws| ==> NoWhitespace(ws[i])
    ensures NoWhitespace(Join(ws, "-"))
  {
    if |ws| > 1 {
      JoinNoWhitespace(ws[1..]);
      var r := Join(ws, "-");
      var t := Join(ws[1..], "-");
      assert r == ws[0] + "-" + t;
      forall i | 0 <= i < |r| ensures !IsWhitespace(r[i]) {
        if i < |ws[0]| {
          assert r[i] == ws[0][i];
        } else if i > |ws[0]| {
          assert r[i] == t[i - |ws[0]| - 1];
        }
      }
    }
  }

  lemma JoinLower(ws: seq<string>, s: string)
    requires WordsFrom(ws, s) && AllLower(s)
    ensures AllLower(Join(ws, "-"))
  {
    JoinChars(ws);
  }

  /** Every character of a joined string comes from a word or is the separator. */
  lemma {:induction false} JoinChars(ws: seq<string>)
    ensures forall k :: 0 <= k < |Join(ws, "-")| ==>
      Join(ws, "-")[k] == '-' || exists i, j :: 0 <= i < |ws| && 0 <= j < |ws[i]| && ws[i][j] == Join(ws, "-")[k]
  {
    if |ws| > 1 {
      JoinChars(ws[1..]);
      var r := Join(ws, "-");
      var t := Join(ws[1..], "-");
      assert r == ws[0] + "-" + t;
      forall k | 0 <= k < |r|
        ensures r[k] == '-' || exists i, j :: 0 <= i < |ws| && 0 <= j < |ws[i]| && ws[i][j] == r[k]
      {
        if k < |ws[0]| {
          assert ws[0][k] == r[k];
        } else if k > |ws[0]| {
          assert r[k] == t[k - |ws[0]| - 1];
          if t[k - |ws[0]| - 1] != '-' {
            var i, j :| 0 <= i < |ws[1..]| && 0 <= j < |ws[1..][i]| && ws[1..][i][j] == t[k - |ws[0]| - 1];
            assert ws[i + 1][j] == r[k];
          }
        }
      }
    } else if |ws| == 1 {
      var r := Join(ws, "-");
      forall k | 0 <= k < |r|
        ensures exists i, j :: 0 <= i < |ws| && 0 <= j < |ws[i]| && ws[i][j] == r[k]
      {
        assert ws[0][k] == r[k];
      }
    }
  }

  /** A word followed by nothing or by whitespace is read as one token. */
  lemma {:induction false} WordsOfTokenThen(t: string, u: string)
    requires t != [] && NoWhitespace(t)
    requires u == [] || IsWhitespace(u[0])
    ensures Words(t + u) == [t] + Words(u)
  {
    var s := t + u;
    TokenLenOf(t, u);
    assert s[..|t|] == t;
    assert s[|t|..] == u;
  }

  lemma {:induction false} TokenLenOf(t: string, u: string)
    requires NoWhitespace(t)
    requires u == [] || IsWhitespace(u[0])
    ensures TokenLen(t + u) == |t|
    decreases |t|
  {
    if t == [] {
      assert t + u == u;
    } else {
      assert (t + u)[1..] == t[1..] + u;
      assert NoWhitespace(t[1..]) by {
        forall i | 0 <= i < |t[1..]| ensures !IsWhitespace(t[1..][i]) {
          assert t[1..][i] == t[i + 1];
        }
      }
      TokenLenOf(t[1..], u);
    }
  }

  /** Whitespace at the head of a string is skipped. */
  lemma {:induction false} WordsSkipsWhitespace(w: string, b: string)
    requires AllWhitespace(w)
    ensures Words(w + b) == Words(b)
    decreases |w|
  {
    if w != [] {
      assert (w + b)[1..] == w[1..] + b;
      assert AllWhitespace(w[1..]) by {
        forall i | 0 <= i < |w[1..]| ensures IsWhitespace(w[1..][i]) {
          assert w[1..][i] == w[i + 1];
        }
      }
      WordsSkipsWhitespace(w[1..], b);
    } else {
      assert w + b == b;
    }
  }

  /** A run of whitespace separates words exactly: the words of the two sides, concatenated. */
  lemma {:induction false} WordsAcrossWhitespace(a: string, w: string, b: string)
    requires w != [] && AllWhitespace(w)
    ensures Words(a + w + b) == Words(a) + Words(b)
    decreases |a|
  {
    var s := a + w + b;
    if a == [] {
      assert s == w + b;
      WordsSkipsWhitespace(w, b);
    } else if IsWhitespace(a[0]) {
      assert s[1..] == a[1..] + w + b;
      WordsAcrossWhitespace(a[1..], w, b);
    } else {
      var n := TokenLen(a);
      var t, rest := a[..n], a[n..];
      assert a == t + rest;
      assert t[0] == a[0];
      WordsAcrossWhitespace(rest, w, b);
      WordsAcrossToken(t, rest, w, b);
    }
  }

  /** The step for a text that starts with a word: that word comes first on both sides. */
  lemma WordsAcrossToken(t: string, rest: string, w: string, b: string)
    requires t != [] && NoWhitespace(t)
    requires rest == [] || IsWhitespace(rest[0])
    requires w != [] && AllWhitespace(w)
    requires Words(rest + w + b) == Words(rest) + Words(b)
    ensures Words(t + rest + w + b) == Words(t + rest) + Words(b)
  {
    HeadWordThenTail(t, rest, w, b);
    WordsOfTokenThen(t, rest);
    ConsAppend(t, Words(rest), Words(b));
  }


  /** A word followed by text that starts with whitespace is the first of its words. */
  lemma HeadWordThenTail(t: string, rest: string, w: string, b: string)
    requires t != [] && NoWhitespace(t)
    requires rest == [] || IsWhitespace(rest[0])
    requires w != [] && AllWhitespace(w)
    ensures Words(t + rest + w + b) == [t] + Words(rest + w + b)
  {
    var tail := rest + w + b;
    assert tail != [] && IsWhitespace(tail[0]) by {
      if rest == [] { assert tail[0] == w[0]; } else { assert tail[0] == rest[0]; }
    }
    assert t + rest + w + b == t + tail;
    WordsOfTokenThen(t, tail);
  }

  /** The words of a lowercased string are the lowercased words. */
  function LowerAll(ws: seq<string>): (r: seq<string>)
    ensures |r| == |ws|
    ensures forall i :: 0 <= i < |ws| ==> r[i] == Lower(ws[i])
  {
    if ws == [] then [] else [Lower(ws[0])] + LowerAll(ws[1..])
  }

  lemma {:induction false} WordsOfLower(s: string)
    ensures Words(Lower(s)) == LowerAll(Words(s))
    decreases |s|
  {
    if s != [] {
      assert s == [s[0]] + s[1..];
      LowerAppend([s[0]], s[1..]);
      assert Lower([s[0]]) == LowerChar(s[0]);
      LowerCharClasses(s[0]);
      if IsWhitespace(s[0]) {
        assert Lower(s) == [s[0]] + Lower(s[1..]);
        WordsSkipsWhitespace([s[0]], Lower(s[1..]));
        WordsOfLower(s[1..]);
      } else {
        var n := TokenLen(s);
        var t, u := s[..n], s[n..];
        assert s == t + u;
        assert t[0] == s[0];
        WordsOfLower(u);
        WordsOfLowerToken(t, u);
      }
    }
  }

  /** The step of `WordsOfLower` for text that starts with a word. */
  lemma WordsOfLowerToken(t: string, u: string)
    requires t != [] && NoWhitespace(t)
    requires u == [] || IsWhitespace(u[0])
    requires Words(Lower(u)) == LowerAll(Words(u))
    ensures Words(Lower(t + u)) == LowerAll(Words(t + u))
  {
    LowerAppend(t, u);
    LowerKeepsNoWhitespace(t);
    LowerKeepsShape(t, u);
    WordsOfTokenThen(Lower(t), Lower(u));
    WordsOfTokenThen(t, u);
    LowerAllCons(t, Words(u));
  }

  /** Lowering keeps a word non-empty and a whitespace head whitespace. */
  lemma LowerKeepsShape(t: string, u: string)
    requires t != []
    requires u == [] || IsWhitespace(u[0])
    ensures Lower(t) != []
    ensures Lower(u) == [] || IsWhitespace(Lower(u)[0])
  {
    assert t == [t[0]] + t[1..];
    LowerAppend([t[0]], t[1..]);
    if u != [] {
      assert u == [u[0]] + u[1..];
      LowerAppend([u[0]], u[1..]);
      LowerCharClasses(u[0]);
    }
  }

  lemma LowerAllCons(t: string, ws: seq<string>)
    ensures LowerAll([t] + ws) == [Lower(t)] + LowerAll(ws)
  {
    assert ([t] + ws)[1..] == ws;
  }

  /** Kebab case of blank text is empty, and only blank text gives the empty string. */
  lemma KebabEmptyIffBlank(s: string)
    ensures ToKebabCase(s) == [] <==> AllWhitespace(s)
  {
    WordsOfLower(s);
    WordsEmptyIffBlank(s);
    JoinEmptyIffNoWords(Words(Lower(s)));
  }

  lemma {:induction false} WordsEmptyIffBlank(s: string)
    ensures Words(s) == [] <==> AllWhitespace(s)
    decreases |s|
  {
    if s != [] {
      WordsEmptyIffBlank(s[1..]);
      if IsWhitespace(s[0]) {
        if AllWhitespace(s[1..]) {
          assert AllWhitespace(s) by {
            forall i | 0 <= i < |s| ensures IsWhitespace(s[i]) {
              if i > 0 { assert s[i] == s[1..][i - 1]; }
            }
          }
        } else {
          var i :| 0 <= i < |s[1..]| && !IsWhitespace(s[1..][i]);
          assert !IsWhitespace(s[i + 1]);
        }
      }
    }
  }

  lemma {:induction false} JoinEmptyIffNoWords(ws: seq<string>)
    requires forall i :: 0 <= i < |ws| ==> ws[i] != []
    ensures Join(ws, "-") == [] <==> ws == []
  {
  }

  /** The number of `-` characters in a string. */
  function Dashes(s: string): nat {
    multiset(s)['-']
  }

  /** No `-` at either end and no two `-` side by side. */
  predicate DashesSeparate(r: string) {
    && (r != [] ==> r[0] != '-' && r[|r| - 1] != '-')
    && forall i :: 0 <= i < |r| - 1 ==> !(r[i] == '-' && r[i + 1] == '-')
  }

  lemma {:induction false} JoinDashes(ws: seq<string>)
    requires forall i :: 0 <= i < |ws| ==> ws[i] != [] && '-' !in ws[i]
    ensures DashesSeparate(Join(ws, "-"))
    ensures ws != [] ==> Dashes(Join(ws, "-")) == |ws| - 1
  {
    if |ws| == 1 {
      assert Join(ws, "-") == ws[0];
      assert multiset(ws[0])['-'] == 0;
    } else if |ws| > 1 {
      JoinDashes(ws[1..]);
      var t := Join(ws[1..], "-");
      var r := Join(ws, "-");
      assert r == ws[0] + "-" + t;
      assert multiset(ws[0])['-'] == 0;
      assert multiset(r) == multiset(ws[0]) + multiset("-") + multiset(t);
      assert t != [];
      forall i | 0 <= i < |r| - 1 ensures !(r[i] == '-' && r[i + 1] == '-') {
        if i < |ws[0]| - 1 {
          assert r[i] == ws[0][i];
        } else if i == |ws[0]| - 1 {
          assert r[i] == ws[0][i];
        } else if i == |ws[0]| {
          assert r[i + 1] == t[0];
        } else {
          assert r[i] == t[i - |ws[0]| - 1] && r[i + 1] == t[i - |ws[0]|];
        }
      }
      assert r[0] == ws[0][0];
      assert r[|r| - 1] == t[|t| - 1];
    }
  }

  /**
   * Without a `-` in the input, every `-` of the result separates two words:
   * none at either end, none doubled, and one fewer than the input has words.
   */
  lemma KebabDashes(s: string)
    requires '-' !in s
    ensures DashesSeparate(ToKebabCase(s))
    ensures Dashes(ToKebabCase(s)) == if Words(s) == [] then 0 else |Words(s)| - 1
  {
    var ws := Words(Lower(s));
    LowerNoDash(s);
    WordsAreFrom(Lower(s));
    WordsOfLower(s);
    forall i, j | 0 <= i < |ws| && 0 <= j < |ws[i]| ensures ws[i][j] != '-' {
      assert ws[i][j] in Lower(s);
    }
    JoinDashes(ws);
  }

  /** Runs of whitespace collapse: any nonempty run between two parts gives the same result. */
  lemma KebabCollapsesWhitespace(u: string, w1: string, w2: string, v: string)
    requires w1 != [] && AllWhitespace(w1)
    requires w2 != [] && AllWhitespace(w2)
    ensures ToKebabCase(u + w1 + v) == ToKebabCase(u + w2 + v)
  {
    LowerAppend(u + w1, v);
    LowerAppend(u, w1);
    LowerAppend(u + w2, v);
    LowerAppend(u, w2);
    LowerOfWhitespace(w1);
    LowerOfWhitespace(w2);
    WordsAcrossWhitespace(Lower(u), w1, Lower(v));
    WordsAcrossWhitespace(Lower(u), w2, Lower(v));
  }

  /** Converting twice is converting once. */
  lemma KebabIdempotent(s: string)
    ensures ToKebabCase(ToKebabCase(s)) == ToKebabCase(s)
  {
    var r := ToKebabCase(s);
    LowerOfLower(r);
    if r != [] {
      WordsOfTokenThen(r, []);
      assert r + [] == r;
    } else {
      assert Words(r) == [];
    }
  }

  lemma LowerCay(a: string)
    requires a == "\U{C7}ay"
    ensures Lower(a) == "\U{E7}ay" && NoWhitespace(Lower(a)) && Lower(a) != []
  {
    assert Lower("\U{C7}ay") == "\U{E7}ay";
  }

  lemma LowerKahve(b: string)
    requires b == "Kahve"
    ensures Lower(b) == "kahve" && NoWhitespace(Lower(b)) && Lower(b) != []
  {
    assert Lower("Kahve") == "kahve";
  }

  /** Two words with whitespace between them split into exactly those two. */
  lemma TwoWords(x: string, w: string, y: string)
    requires x != [] && NoWhitespace(x) && y != [] && NoWhitespace(y)
    requires w != [] && AllWhitespace(w)
    ensures Words(x + w + y) == [x, y]
  {
    WordsAcrossWhitespace(x, w, y);
    WordsOfTokenThen(x, []);
    WordsOfTokenThen(y, []);
    assert x + [] == x;
    assert y + [] == y;
  }

  /** Lowering distributes over a word, a whitespace run and a word. */
  lemma LowerThree(a: string, w: string, b: string)
    requires AllWhitespace(w)
    ensures Lower(a + w + b) == Lower(a) + w + Lower(b)
  {
    LowerOfWhitespace(w);
    LowerAppend(a + w, b);
    LowerAppend(a, w);
  }

  /** "Çay  Kahve" becomes "çay-kahve": lowered, one separator, no diacritic folding. */
  lemma KebabExample(s: string, a: string, w: string, b: string)
    requires a == "\U{C7}ay" && w == "  " && b == "Kahve" && s == a + w + b
    ensures ToKebabCase(s) == "\U{E7}ay-kahve"
  {
    LowerCay(a);
    LowerKahve(b);
    var la, lb := Lower(a), Lower(b);
    LowerThree(a, w, b);
    TwoWords(la, w, lb);
    assert Join([la, lb], "-") == la + "-" + lb;
  }
}
