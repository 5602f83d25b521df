/**
 * The relevance ranker `sort_foods_by_relevance` and the mode gate of
 * `get_search_food_handler` (src/api/search.rs).
 *
 * Rust measures the match position and the description length in UTF-8
 * bytes. Strings here are sequences of characters, so both are converted
 * with `ByteLen`. Searching characters finds the same first occurrence as
 * searching bytes, because UTF-8 never lets a character's encoding start in
 * the middle of another's.
 */
module Search {
  import opened Wrappers
  import opened Text
  import opened Utf8
  import opened Foods
  import opened Seqs
  import opened Sorting

  /** The score of a description that starts with the query. */
  const PrefixScore: nat := 20

  /** `a.saturating_sub(b)` on unsigned integers. */
  function SaturatingSub(a: nat, b: nat): nat {
    if a >= b then a - b else 0
  }

  /** The position score `10 * len.saturating_sub(pos) / len.max(1)`, on `usize`, rounding down. */
  function PositionScore(pos: nat, len: nat): nat {
    10 * SaturatingSub(len, pos) / (if len >= 1 then len else 1)
  }

  /** The lowercased description contains the lowercased query (Rust's `find` returns `Some`). */
  ghost predicate Contains(description: string, query: string) {
    exists j :: OccursAt(Lower(description), Lower(query), j)
  }

  /**
   * The score of one description, or `None` when the description (lowercased)
   * does not contain the query (lowercased): such a food is dropped.
   */
  function Score(description: string, query: string): (r: Option<nat>)
    ensures r.Some? <==> Contains(description, query)
    ensures r == Some(PrefixScore) <==> IsPrefix(Lower(query), Lower(description))
    ensures r.Some? && r.value != PrefixScore ==> r.value <= 9
  {
    var q := Lower(query);
    var d := Lower(description);
    if IsPrefix(q, d) then
      PrefixOccurs(d, q);
      Some(PrefixScore)
    else
      match Find(d, q)
      case Some(i) =>
        NonPrefixBelowTen(d, q, i);
        Some(PositionScore(ByteLen(d[..i]), ByteLen(d)))
      case None => None
  }

  lemma PrefixOccurs(d: string, q: string)
    requires IsPrefix(q, d)
    ensures exists j :: OccursAt(d, q, j)
  {
    assert d[0..|q|] == d[..|q|];
    assert OccursAt(d, q, 0);
  }

  /** A match that is not at the start scores at most 9. */
  lemma NonPrefixBelowTen(d: string, q: string, i: nat)
    requires OccursAt(d, q, i) && !IsPrefix(q, d)
    ensures PositionScore(ByteLen(d[..i]), ByteLen(d)) <= 9
  {
    assert i != 0;
    var p, len := ByteLen(d[..i]), ByteLen(d);
    ByteLenAtLeastLength(d[..i]);
    assert d == d[..i] + d[i..];
    ByteLenAppend(d[..i], d[i..]);
    assert 1 <= p <= len;
    DivBelow(10 * (len - p), len, 10);
  }

  lemma DivBelow(a: nat, d: nat, k: nat)
    requires d >= 1 && a < k * d
    ensures a / d < k
  {
  }

  lemma MulMonotone(d: nat, x: nat, y: nat)
    requires x <= y
    ensures d * x <= d * y
  {
  }

  lemma DivMonotone(a: nat, b: nat, d: nat)
    requires d >= 1 && a <= b
    ensures a / d <= b / d
  {
    if a / d > b / d {
      assert a == d * (a / d) + a % d;
      assert b == d * (b / d) + b % d;
      MulMonotone(d, b / d + 1, a / d);
    }
  }

  /** For a fixed length, a later first occurrence never scores higher. */
  lemma PositionScoreAntitone(p1: nat, p2: nat, len: nat)
    requires p1 <= p2
    ensures PositionScore(p1, len) >= PositionScore(p2, len)
  {
    DivMonotone(10 * SaturatingSub(len, p2), 10 * SaturatingSub(len, p1), if len >= 1 then len else 1);
  }

  /** An empty query is a prefix of everything, so every food scores 20. */
  lemma EmptyQueryScoresTwenty(description: string)
    ensures Score(description, "") == Some(PrefixScore)
  {
    assert Lower("") == "";
  }

  /**
   * A food that matches without being a prefix match is scored from its
   * first occurrence: `p` its byte offset, `L` the byte length of the
   * lowercased description.
   */
  lemma FirstOccurrenceScore(description: string, query: string, i: nat)
    requires !IsPrefix(Lower(query), Lower(description))
    requires OccursAt(Lower(description), Lower(query), i)
    requires forall j :: 0 <= j < i ==> !OccursAt(Lower(description), Lower(query), j)
    ensures var d := Lower(description);
      Score(description, query) == Some(PositionScore(ByteLen(d[..i]), ByteLen(d)))
  {
    var d, q := Lower(description), Lower(query);
    var k := Find(d, q).value;
    assert !(k < i) && !(i < k);
  }

  /** The rank by which foods are ordered: the score of a matching food. */
  function Rank(f: Food, query: string): nat {
    match Score(f.description, query)
    case Some(s) => s
    case None => 0
  }

  predicate Matches(f: Food, query: string) {
    Score(f.description, query).Some?
  }

  /** The foods that contain the query, in input order (the `filter_map`). */
  function Matching(foods: seq<Food>, query: string): (r: seq<Food>)
    ensures |r| <= |foods|
    ensures forall f :: f in r <==> f in foods && Matches(f, query)
    ensures forall f :: multiset(r)[f] == if Matches(f, query) then multiset(foods)[f] else 0
  {
    if foods == [] then []
    else
      MultisetCons(foods);
      if Matches(foods[0], query) then [foods[0]] + Matching(foods[1..], query)
      else Matching(foods[1..], query)
  }

  /** The sort key: a food's score for the query. */
  function RankKey(query: string): Food -> nat {
    f => Rank(f, query)
  }

  /**
   * What `sort_unstable_by` promises: the output is a reordering of the
   * matching foods with scores non-increasing. Equal scores may come in any
   * order.
   */
  predicate IsRanking(foods: seq<Food>, query: string, out: seq<Food>) {
    multiset(out) == multiset(Matching(foods, query)) && SortedDesc(out, RankKey(query))
  }

  /**
   * `sort_foods_by_relevance`: the matching foods ordered by score, highest
   * first. This is one admissible outcome of the unstable sort (it happens to
   * keep ties in input order).
   */
  function SortFoodsByRelevance(foods: seq<Food>, query: string): (r: seq<Food>)
    ensures IsRanking(foods, query, r)
  {
    Sort(Matching(foods, query), RankKey(query))
  }

  /** No food ranks above a prefix match. */
  lemma RankAtMostPrefix(f: Food, query: string)
    ensures Rank(f, query) <= PrefixScore
  {
  }

  /** A ranking holds exactly the matching foods, no more than the input, and orders prefix matches first. */
  lemma RankingShape(foods: seq<Food>, query: string, out: seq<Food>)
    requires IsRanking(foods, query, out)
    ensures |out| <= |foods|
    ensures forall f :: f in out <==> f in foods && Matches(f, query)
    ensures forall i, j ::
      (0 <= i < |out| && 0 <= j < |out| && Rank(out[j], query) == PrefixScore && Rank(out[i], query) != PrefixScore)
      ==> j < i
  {
    RankingMembers(foods, query, out);
    var key := RankKey(query);
    forall i | 0 <= i < |out| ensures key(out[i]) <= PrefixScore {
      RankAtMostPrefix(out[i], query);
    }
    TopKeysFirst(out, key, PrefixScore);
  }

  lemma RankingMembers(foods: seq<Food>, query: string, out: seq<Food>)
    requires multiset(out) == multiset(Matching(foods, query))
    ensures |out| <= |foods|
    ensures forall f :: f in out <==> f in foods && Matches(f, query)
  {
    assert |multiset(out)| == |multiset(Matching(foods, query))|;
    forall f ensures f in out <==> f in foods && Matches(f, query) {
      assert f in out <==> f in multiset(out);
      assert f in Matching(foods, query) <==> f in multiset(Matching(foods, query));
    }
  }

  /** The tie order is not fixed: two foods with equal scores may come out either way round. */
  lemma TiesMayComeEitherWay(x: Food, y: Food, query: string)
    requires Matches(x, query) && Matches(y, query) && Rank(x, query) == Rank(y, query)
    ensures IsRanking([x, y], query, [x, y]) && IsRanking([x, y], query, [y, x])
  {
    MatchingTwo(x, y, query);
    SwapTwo(x, y);
    var key := RankKey(query);
    EqualKeysBothOrders(x, y, key);
  }

  lemma MatchingTwo(x: Food, y: Food, q: string)
    requires Matches(x, q) && Matches(y, q)
    ensures Matching([x, y], q) == [x, y]
  {
    var foods := [x, y];
    forall i | 0 <= i < |foods| ensures Matches(foods[i], q) {
      assert foods[i] == x || foods[i] == y;
    }
    MatchingAll(foods, q);
  }

  /** Any two rankings of one input list carry the same scores, position by position. */
  lemma RankingScoresDetermined(foods: seq<Food>, query: string, o1: seq<Food>, o2: seq<Food>)
    requires IsRanking(foods, query, o1) && IsRanking(foods, query, o2)
    ensures |o1| == |o2|
    ensures forall i :: 0 <= i < |o1| ==> Rank(o1[i], query) == Rank(o2[i], query)
  {
    SortedKeysUnique(o1, o2, RankKey(query));
  }

  predicate LowerAsciiLetters(s: string) {
    forall i :: 0 <= i < |s| ==> 'a' <= s[i] <= 'z'
  }

  /** A capitalised ASCII word lowers to the same word with its first letter lowered. */
  lemma LowerOfCapitalised(c: char, rest: string)
    requires 'A' <= c <= 'Z' && LowerAsciiLetters(rest)
    ensures Lower([c] + rest) == [(c as int + 32) as char] + rest
  {
    assert [c] + rest == [c] + ([c] + rest)[1..];
    assert AllLower(rest) by {
      forall i | 0 <= i < |rest| ensures IsLower(rest[i]) {
        assert 'a' <= rest[i] <= 'z';
      }
    }
    LowerOfLower(rest);
    assert ([c] + rest)[1..] == rest;
  }

  /** A match of a nonempty query starts with the query's first character. */
  lemma OccursAtHead(s: string, q: string, j: int)
    requires OccursAt(s, q, j) && |q| > 0
    ensures s[j] == q[0]
  {
    assert s[j..j + |q|][0] == s[j];
  }

  /** A nonempty query cannot occur before the first position holding its first character. */
  lemma NoEarlierOccurrence(s: string, q: string, i: nat)
    requires |q| > 0 && i <= |s|
    requires forall j :: 0 <= j < i ==> s[j] != q[0]
    ensures forall j :: 0 <= j < i ==> !OccursAt(s, q, j)
  {
    forall j | 0 <= j < i ensures !OccursAt(s, q, j) {
      if OccursAt(s, q, j) { OccursAtHead(s, q, j); }
    }
  }

  /** Lowering the example words: only the capital is affected. */
  lemma LowerKarpuz(d: string)
    requires d == "Karpuz"
    ensures Lower(d) == "karpuz"
  {
    var rest := d[1..];
    assert d == [d[0]] + rest;
    assert LowerAsciiLetters(rest);
    LowerOfCapitalised(d[0], rest);
  }

  lemma LowerMakarna(d: string)
    requires d == "Makarna"
    ensures Lower(d) == "makarna"
  {
    var rest := d[1..];
    assert d == [d[0]] + rest;
    assert LowerAsciiLetters(rest);
    LowerOfCapitalised(d[0], rest);
  }

  lemma LowerPortakal(d: string)
    requires d == "Portakal"
    ensures Lower(d) == "portakal"
  {
    var rest := d[1..];
    assert d == [d[0]] + rest;
    assert LowerAsciiLetters(rest);
    LowerOfCapitalised(d[0], rest);
  }

  lemma LowerKa(q: string)
    requires q == "ka"
    ensures Lower(q) == "ka"
  {
    assert AllLower(q) by {
      forall i | 0 <= i < |q| ensures IsLower(q[i]) {}
    }
    LowerOfLower(q);
  }

  /** Where "ka" sits in "makarna": not at the start, first at 2, in a 7-byte string. */
  lemma MakarnaOccurrence(ld: string, lq: string)
    requires ld == "makarna" && lq == "ka"
    ensures !IsPrefix(lq, ld) && OccursAt(ld, lq, 2)
    ensures forall j :: 0 <= j < 2 ==> !OccursAt(ld, lq, j)
    ensures ByteLen(ld[..2]) == 2 && ByteLen(ld) == 7
  {
    assert ld[0] != lq[0];
    assert ld[2..4] == lq;
    NoEarlierOccurrence(ld, lq, 2);
    ByteLenOfAscii(ld[..2]);
    ByteLenOfAscii(ld);
  }

  /** Where "ka" sits in "portakal": not at the start, first at 5, in an 8-byte string. */
  lemma PortakalOccurrence(ld: string, lq: string)
    requires ld == "portakal" && lq == "ka"
    ensures !IsPrefix(lq, ld) && OccursAt(ld, lq, 5)
    ensures forall j :: 0 <= j < 5 ==> !OccursAt(ld, lq, j)
    ensures ByteLen(ld[..5]) == 5 && ByteLen(ld) == 8
  {
    assert ld[0] != lq[0];
    assert ld[5..7] == lq;
    NoEarlierOccurrence(ld, lq, 5);
    ByteLenOfAscii(ld[..5]);
    ByteLenOfAscii(ld);
  }

  /** The worked example "ka": Karpuz is a prefix match. */
  lemma ScoreKarpuz(d: string, q: string)
    requires Lower(d) == "karpuz" && Lower(q) == "ka"
    ensures Score(d, q) == Some(20)
  {
    assert IsPrefix(Lower(q), Lower(d));
  }

  /** Makarna first contains "ka" at byte 2 of 7: 10 * 5 / 7 = 7. */
  lemma ScoreMakarna(d: string, q: string)
    requires Lower(d) == "makarna" && Lower(q) == "ka"
    ensures Score(d, q) == Some(7)
  {
    MakarnaOccurrence(Lower(d), Lower(q));
    FirstOccurrenceScore(d, q, 2);
    assert PositionScore(2, 7) == 7;
  }

  /** Portakal first contains "ka" at byte 5 of 8: 10 * 3 / 8 = 3. */
  lemma ScorePortakal(d: string, q: string)
    requires Lower(d) == "portakal" && Lower(q) == "ka"
    ensures Score(d, q) == Some(3)
  {
    PortakalOccurrence(Lower(d), Lower(q));
    FirstOccurrenceScore(d, q, 5);
    assert PositionScore(5, 8) == 3;
  }

  /** When every food matches, the filter keeps the list as it is. */
  lemma {:induction false} MatchingAll(foods: seq<Food>, query: string)
    requires forall i :: 0 <= i < |foods| ==> Matches(foods[i], query)
    ensures Matching(foods, query) == foods
  {
    if foods != [] {
      MatchingAll(foods[1..], query);
      assert foods == [foods[0]] + foods[1..];
    }
  }

  /** Three matching foods with strictly decreasing ranks `a > b > c` have one ranking only. */
  lemma DistinctRanksFixOrder(a: Food, b: Food, c: Food, q: string)
    requires Matches(a, q) && Matches(b, q) && Matches(c, q)
    requires Rank(a, q) > Rank(b, q) > Rank(c, q)
    ensures forall out :: IsRanking([a, c, b], q, out) ==> out == [a, b, c]
  {
    var key := RankKey(q);
    assert key(a) > key(b) > key(c);
    MatchingThree(a, c, b, q);
    forall out | IsRanking([a, c, b], q, out) ensures out == [a, b, c] {
      assert multiset(out) == multiset([a, b, c]);
      StrictKeysFixOrder(a, b, c, out, key);
    }
  }

  lemma MatchingThree(x: Food, y: Food, z: Food, q: string)
    requires Matches(x, q) && Matches(y, q) && Matches(z, q)
    ensures Matching([x, y, z], q) == [x, y, z]
    ensures multiset([x, y, z]) == multiset([x, z, y])
  {
    var foods := [x, y, z];
    forall i | 0 <= i < |foods| ensures Matches(foods[i], q) {
      assert foods[i] == x || foods[i] == y || foods[i] == z;
    }
    MatchingAll(foods, q);
    SwapLastTwo(x, y, z);
  }


  /**
   * Query "ka" over Karpuz, Portakal, Makarna: scores 20, 3 and 7, so every
   * ranking is Karpuz, Makarna, Portakal.
   */
  lemma WorkedExample(k: Food, p: Food, m: Food, q: string)
    requires k.description == "Karpuz" && p.description == "Portakal" && m.description == "Makarna"
    requires q == "ka"
    ensures Score(k.description, q) == Some(20)
    ensures Score(m.description, q) == Some(7)
    ensures Score(p.description, q) == Some(3)
    ensures forall out :: IsRanking([k, p, m], q, out) ==> out == [k, m, p]
    ensures SortFoodsByRelevance([k, p, m], q) == [k, m, p]
  {
    LowerKa(q);
    LowerKarpuz(k.description);
    LowerMakarna(m.description);
    LowerPortakal(p.description);
    ScoreKarpuz(k.description, q);
    ScoreMakarna(m.description, q);
    ScorePortakal(p.description, q);
    DistinctRanksFixOrder(k, m, p, q);
  }

  datatype SearchParams = SearchParams(query: string, mode: string, limit: nat)

  /** An error answer: the status code and the plain-text message. */
  datatype SearchError = SearchError(status: nat, message: string)

  const InvalidQueryMessage := "Ge\U{E7}ersiz sorgu!"
  const NoResultMessage := "Yemek ararken sonu\U{E7} bulunamad\U{131}"

  /** The modes the handler serves: "description" or "name", compared after Rust's lowercasing. */
  predicate ModeAccepted(mode: string) {
    Lower(mode) == "description" || Lower(mode) == "name"
  }

  /**
   * `get_search_food_handler`. `lookup` stands for the store's substring
   * search `search_food_by_description_wild(query, limit)`, which is not
   * part of this model; it is only consulted for an accepted mode.
   */
  function SearchFoodHandler(params: SearchParams, lookup: (string, nat) -> Result<seq<Food>, string>)
    : (r: Result<seq<Food>, SearchError>)
    ensures !ModeAccepted(params.mode) ==> r == Err(SearchError(400, InvalidQueryMessage))
    ensures ModeAccepted(params.mode) && lookup(params.query, params.limit).Err? ==>
      r == Err(SearchError(404, NoResultMessage))
    ensures ModeAccepted(params.mode) && lookup(params.query, params.limit).Ok? ==>
      r.Ok? && IsRanking(lookup(params.query, params.limit).value, params.query, r.value)
  {
    if ModeAccepted(params.mode) then
      match lookup(params.query, params.limit)
      case Ok(foods) => Ok(SortFoodsByRelevance(foods, params.query))
      case Err(_) => Err(SearchError(404, NoResultMessage))
    else Err(SearchError(400, InvalidQueryMessage))
  }

  lemma ModeName(mode: string)
    requires mode == "NAME"
    ensures ModeAccepted(mode)
  {
    assert Lower("NAME") == "name";
  }

  lemma ModeTag(mode: string)
    requires mode == "tag"
    ensures !ModeAccepted(mode)
  {
    assert Lower("tag") == "tag";
  }

  lemma LowerLength(s: string)
    ensures |Lower(s)| >= |s|
  {
  }

  /**
   * The gate ignores ASCII case, but a Turkish capital dotted I lowers to
   * two characters, so "DESCR\U{130}PT\U{130}ON" is refused, as "tag" is.
   */
  lemma ModeExamples(upper: string, tag: string, dotted: string)
    requires upper == "NAME" && tag == "tag" && dotted == "DESCR\U{130}PT\U{130}ON"
    ensures ModeAccepted(upper) && !ModeAccepted(tag) && !ModeAccepted(dotted)
  {
    ModeName(upper);
    ModeTag(tag);
    var p, q := dotted[..5], dotted[6..];
    assert dotted == p + [dotted[5]] + q;
    DottedCapitalWidens(p, q);
  }

  /** Lowering text around one dotted capital I gives at least two more characters than the rest. */
  lemma DottedCapitalWidens(p: string, q: string)
    ensures |Lower(p + ['\U{130}'] + q)| >= |p| + |q| + 2
  {
    var c := '\U{130}';
    LowerAppend(p + [c], q);
    LowerAppend(p, [c]);
    LowerLength(p);
    LowerLength(q);
    assert Lower([c]) == ['i', 0x307 as char];
  }

}
