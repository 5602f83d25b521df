/**
 * The endpoint directory (src/api/endpoints.rs): a `BTreeMap` from a fixed
 * name to a URL under the API's base address. A `BTreeMap` keeps its keys
 * in ascending order, which is the order `Json` writes them in; here it is
 * a list of pairs kept strictly ascending by key.
 */
module Endpoints {
  import opened Wrappers
  import opened Seqs

  type Entries = seq<(string, string)>

  /** `str`'s ordering: lexicographic by bytes, which for UTF-8 is lexicographic by code point. */
  predicate Less(a: string, b: string)
    decreases |a|
  {
    if a == [] then b != []
    else if b == [] then false
    else if a[0] != b[0] then a[0] < b[0]
    else Less(a[1..], b[1..])
  }

  lemma {:induction false} LessIrreflexive(a: string)
    ensures !Less(a, a)
    decreases |a|
  {
    if a != [] {
      LessIrreflexive(a[1..]);
    }
  }

  lemma {:induction false} LessTrichotomy(a: string, b: string)
    ensures a == b || Less(a, b) || Less(b, a)
    decreases |a|
  {
    if a != [] && b != [] && a[0] == b[0] {
      LessTrichotomy(a[1..], b[1..]);
      if a[1..] == b[1..] {
        assert a == [a[0]] + a[1..] && b == [b[0]] + b[1..];
      }
    }
  }

  lemma {:induction false} LessTransitive(a: string, b: string, c: string)
    requires Less(a, b) && Less(b, c)
    ensures Less(a, c)
    decreases |a|
  {
    if a != [] && b != [] && c != [] && a[0] == b[0] == c[0] {
      LessTransitive(a[1..], b[1..], c[1..]);
    }
  }

  lemma {:induction false} LessAsymmetric(a: string, b: string)
    requires Less(a, b)
    ensures !Less(b, a)
    decreases |a|
  {
    if a != [] && b != [] && a[0] == b[0] {
      LessAsymmetric(a[1..], b[1..]);
    }
  }

  /** Keys strictly ascend, so no key appears twice. */
  predicate Ascending(m: Entries) {
    forall i, j :: 0 <= i < j < |m| ==> Less(m[i].0, m[j].0)
  }

  function Keys(m: Entries): set<string> {
    set i | 0 <= i < |m| :: m[i].0
  }

  /** `BTreeMap::get`. */
  function Get(m: Entries, k: string): (r: Option<string>)
    ensures r.Some? <==> k in Keys(m)
  {
    if m == [] then None
    else if m[0].0 == k then Some(m[0].1)
    else
      var r := Get(m[1..], k);
      assert Keys(m) == {m[0].0} + Keys(m[1..]) by {
        forall x | x in Keys(m) ensures x in {m[0].0} + Keys(m[1..]) {
          var i :| 0 <= i < |m| && m[i].0 == x;
          if i > 0 { assert m[1..][i - 1].0 == x; }
        }
        forall x | x in Keys(m[1..]) ensures x in Keys(m) {
          var i :| 0 <= i < |m[1..]| && m[1..][i].0 == x;
          assert m[i + 1].0 == x;
        }
      }
      r
  }

  /** `BTreeMap::insert`: the key now maps to the value; every other key is as before; keys stay ascending. */
  function Insert(m: Entries, k: string, v: string): (r: Entries)
    requires Ascending(m)
    ensures Ascending(r)
    ensures Keys(r) == Keys(m) + {k}
    ensures Get(r, k) == Some(v)
    ensures forall k' :: k' != k ==> Get(r, k') == Get(m, k')
  {
    if m == [] then
      KeysCons((k, v), []);
      assert Keys(m) == {};
      [(k, v)]
    else if m[0].0 == k then
      InsertReplaces(m, v);
      [(k, v)] + m[1..]
    else if Less(k, m[0].0) then
      InsertInFront(m, k, v);
      [(k, v)] + m
    else
      LessTrichotomy(k, m[0].0);
      var rest := Insert(m[1..], k, v);
      InsertBehind(m, k, v, rest);
      [m[0]] + rest
  }

  lemma InsertReplaces(m: Entries, v: string)
    requires Ascending(m) && m != []
    ensures var r := [(m[0].0, v)] + m[1..];
      && Ascending(r) && Keys(r) == Keys(m) + {m[0].0} && Get(r, m[0].0) == Some(v)
      && forall k' :: k' != m[0].0 ==> Get(r, k') == Get(m, k')
  {
    var k := m[0].0;
    var r := [(k, v)] + m[1..];
    KeysCons((k, v), m[1..]);
    KeysCons(m[0], m[1..]);
    assert m == [m[0]] + m[1..];
    assert r[1..] == m[1..];
    forall i, j | 0 <= i < j < |r| ensures Less(r[i].0, r[j].0) {
      assert r[j] == m[j];
      if i > 0 { assert r[i] == m[i]; }
    }
  }

  lemma InsertInFront(m: Entries, k: string, v: string)
    requires Ascending(m) && m != [] && Less(k, m[0].0)
    ensures var r := [(k, v)] + m;
      && Ascending(r) && Keys(r) == Keys(m) + {k} && Get(r, k) == Some(v)
      && forall k' :: k' != k ==> Get(r, k') == Get(m, k')
  {
    var r := [(k, v)] + m;
    KeysCons((k, v), m);
    forall i, j | 0 <= i < j < |r| ensures Less(r[i].0, r[j].0) {
      if i == 0 && j > 1 {
        LessTransitive(k, m[0].0, m[j - 1].0);
      }
    }
    assert r[1..] == m;
  }

  lemma InsertBehind(m: Entries, k: string, v: string, rest: Entries)
    requires Ascending(m) && m != [] && Less(m[0].0, k)
    requires Ascending(rest) && Keys(rest) == Keys(m[1..]) + {k}
    requires Get(rest, k) == Some(v) && forall k' :: k' != k ==> Get(rest, k') == Get(m[1..], k')
    ensures var r := [m[0]] + rest;
      && Ascending(r) && Keys(r) == Keys(m) + {k} && Get(r, k) == Some(v)
      && forall k' :: k' != k ==> Get(r, k') == Get(m, k')
  {
    var r := [m[0]] + rest;
    KeysCons(m[0], rest);
    KeysCons(m[0], m[1..]);
    assert m == [m[0]] + m[1..];
    HeadBelowRest(m, k, rest);
    AscendingCons(m[0], rest);
    assert r[1..] == rest;
    LessIrreflexive(k);
    assert m[0].0 != k;
  }

  /** The head of an ascending list is below every key of a list holding its other keys and one above it. */
  lemma HeadBelowRest(m: Entries, k: string, rest: Entries)
    requires Ascending(m) && m != [] && Less(m[0].0, k)
    requires Keys(rest) == Keys(m[1..]) + {k}
    ensures forall j :: 0 <= j < |rest| ==> Less(m[0].0, rest[j].0)
  {
    forall j | 0 <= j < |rest| ensures Less(m[0].0, rest[j].0) {
      assert rest[j].0 in Keys(rest);
      if rest[j].0 != k {
        var i :| 0 <= i < |m[1..]| && m[1..][i].0 == rest[j].0;
        assert m[i + 1].0 == rest[j].0;
      }
    }
  }

  /** An entry below every key of an ascending list can go in front of it. */
  lemma AscendingCons(p: (string, string), rest: Entries)
    requires Ascending(rest) && forall j :: 0 <= j < |rest| ==> Less(p.0, rest[j].0)
    ensures Ascending([p] + rest)
  {
    var r := [p] + rest;
    forall i, j | 0 <= i < j < |r| ensures Less(r[i].0, r[j].0) {
      assert r[j] == rest[j - 1];
      if i > 0 { assert r[i] == rest[i - 1]; }
    }
  }

  lemma KeysCons(p: (string, string), m: Entries)
    ensures Keys([p] + m) == {p.0} + Keys(m)
  {
    var r := [p] + m;
    forall x | x in Keys(r) ensures x in {p.0} + Keys(m) {
      var i :| 0 <= i < |r| && r[i].0 == x;
      if i > 0 { assert m[i - 1].0 == x; }
    }
    forall x | x in Keys(m) ensures x in Keys(r) {
      var i :| 0 <= i < |m| && m[i].0 == x;
      assert r[i + 1].0 == x;
    }
    assert r[0].0 == p.0;
  }

  /** `format!("{}/{}", base, suffix)`. */
  function Url(base: string, suffix: string): string {
    base + "/" + suffix
  }

  const HealthKey := "api_health_url"
  const ListKey := "list_all_foods_url"
  const FoodKey := "get_food_url"
  const SearchKey := "search_food_url"

  const HealthPath := "health"
  const ListPath := "foods/list"
  const FoodPath := "food/{slug}"
  const SearchPath := "foods/search?q={query}&mode={description, tag}&limit={limit}"

  /** Strings whose first characters differ are ordered by those characters. */
  lemma LessByFirst(a: string, b: string)
    requires a != [] && b != [] && a[0] < b[0]
    ensures Less(a, b) && !Less(b, a) && a != b
  {
  }

  /** The four names in ascending order: health, food, list, search. */
  lemma KeyOrder()
    ensures Less(HealthKey, FoodKey) && !Less(FoodKey, HealthKey) && HealthKey != FoodKey
    ensures Less(FoodKey, ListKey) && !Less(ListKey, FoodKey) && FoodKey != ListKey
    ensures Less(ListKey, SearchKey) && !Less(SearchKey, ListKey) && ListKey != SearchKey
    ensures Less(HealthKey, ListKey) && !Less(ListKey, HealthKey) && HealthKey != ListKey
    ensures Less(HealthKey, SearchKey) && !Less(SearchKey, HealthKey) && HealthKey != SearchKey
    ensures Less(FoodKey, SearchKey) && !Less(SearchKey, FoodKey) && FoodKey != SearchKey
  {
    LessByFirst(HealthKey, FoodKey);
    LessByFirst(FoodKey, ListKey);
    LessByFirst(ListKey, SearchKey);
    LessByFirst(HealthKey, ListKey);
    LessByFirst(HealthKey, SearchKey);
    LessByFirst(FoodKey, SearchKey);
  }

  /** `get_endpoints`: the four inserts, in the order the source makes them. */
  function GetEndpoints(base: string): (r: Entries)
    ensures Ascending(r)
  {
    var m0: Entries := [];
    var m1 := Insert(m0, HealthKey, Url(base, HealthPath));
    var m2 := Insert(m1, ListKey, Url(base, ListPath));
    var m3 := Insert(m2, FoodKey, Url(base, FoodPath));
    Insert(m3, SearchKey, Url(base, SearchPath))
  }

  /**
   * Inserting keys `h < f < l < s` in the order h, l, f, s yields them in
   * ascending order.
   */
  lemma FourInserts(h: (string, string), f: (string, string), l: (string, string), q: (string, string))
    requires Less(h.0, f.0) && Less(f.0, l.0) && Less(l.0, q.0)
    ensures Insert(Insert(Insert(Insert([], h.0, h.1), l.0, l.1), f.0, f.1), q.0, q.1) == [h, f, l, q]
  {
    LessTransitive(h.0, f.0, l.0);
    LessTransitive(f.0, l.0, q.0);
    LessTransitive(h.0, l.0, q.0);
    InsertIntoEmpty(h);
    InsertSecond(h, l);
    InsertMiddle(h, f, l);
    InsertLast(h, f, l, q);
  }

  lemma InsertIntoEmpty(a: (string, string))
    ensures Insert([], a.0, a.1) == [a]
  {
  }

  lemma InsertSecond(a: (string, string), b: (string, string))
    requires Less(a.0, b.0)
    ensures Ascending([a]) && Insert([a], b.0, b.1) == [a, b]
  {
    InsertBehindHead([a], b.0, b.1);
    assert [a][1..] == [];
  }

  lemma InsertMiddle(a: (string, string), b: (string, string), c: (string, string))
    requires Less(a.0, b.0) && Less(b.0, c.0) && Less(a.0, c.0)
    ensures Ascending([a, c]) && Insert([a, c], b.0, b.1) == [a, b, c]
  {
    InsertBehindHead([a, c], b.0, b.1);
    assert [a, c][1..] == [c];
    InsertBeforeHead([c], b.0, b.1);
  }

  lemma InsertLast(a: (string, string), b: (string, string), c: (string, string), d: (string, string))
    requires Less(a.0, b.0) && Less(b.0, c.0) && Less(a.0, c.0)
    requires Less(c.0, d.0) && Less(b.0, d.0) && Less(a.0, d.0)
    ensures Ascending([a, b, c]) && Insert([a, b, c], d.0, d.1) == [a, b, c, d]
  {
    var m := [a, b, c];
    assert Ascending(m);
    forall j | 0 <= j < |m| ensures Less(m[j].0, d.0) {
      assert m[j] == a || m[j] == b || m[j] == c;
    }
    InsertAtEnd(m, d);
    assert m + [d] == [a, b, c, d];
  }

  /** A key above every key of the list goes at its end. */
  lemma {:induction false} InsertAtEnd(m: Entries, d: (string, string))
    requires Ascending(m) && forall j :: 0 <= j < |m| ==> Less(m[j].0, d.0)
    ensures Insert(m, d.0, d.1) == m + [d]
    decreases |m|
  {
    if m != [] {
      InsertBehindHead(m, d.0, d.1);
      var tail := m[1..];
      forall j | 0 <= j < |tail| ensures Less(tail[j].0, d.0) {
        assert tail[j] == m[j + 1];
      }
      InsertAtEnd(tail, d);
      ConsAppend(m[0], tail, [d]);
      assert m == [m[0]] + tail;
    }
  }

  /** A key above the head goes behind it. */
  lemma InsertBehindHead(m: Entries, k: string, v: string)
    requires Ascending(m) && m != [] && Less(m[0].0, k)
    ensures Ascending(m[1..])
    ensures Insert(m, k, v) == [m[0]] + Insert(m[1..], k, v)
  {
    LessAsymmetric(m[0].0, k);
    LessIrreflexive(k);
    TailAscending(m);
  }

  /** A key below the head goes in front of it. */
  lemma InsertBeforeHead(m: Entries, k: string, v: string)
    requires Ascending(m) && m != [] && Less(k, m[0].0)
    ensures Insert(m, k, v) == [(k, v)] + m
  {
    LessIrreflexive(k);
  }

  /**
   * Two ascending lists that agree on every key are the same list: the map
   * is determined by its contents, whatever order the inserts came in.
   */
  lemma {:induction false} AscendingUnique(a: Entries, b: Entries)
    requires Ascending(a) && Ascending(b)
    requires forall k :: Get(a, k) == Get(b, k)
    ensures a == b
    decreases |a|
  {
    if a == [] || b == [] {
      if a != [] {
        assert Get(a, a[0].0).Some?;
        assert false;
      } else if b != [] {
        assert Get(b, b[0].0).Some?;
        assert false;
      }
    } else {
      MinKey(a);
      MinKey(b);
      assert a[0].0 in Keys(b) by { assert Get(a, a[0].0).Some?; }
      assert b[0].0 in Keys(a) by { assert Get(b, b[0].0).Some?; }
      if a[0].0 != b[0].0 {
        LessAsymmetric(a[0].0, b[0].0);
        assert false;
      }
      assert a[0].1 == Get(a, a[0].0).value == Get(b, b[0].0).value == b[0].1;
      TailLacksHead(a);
      TailLacksHead(b);
      forall k ensures Get(a[1..], k) == Get(b[1..], k) {
        if k != a[0].0 {
          assert Get(a, k) == Get(a[1..], k);
          assert Get(b, k) == Get(b[1..], k);
        }
      }
      TailAscending(a);
      TailAscending(b);
      AscendingUnique(a[1..], b[1..]);
      assert a == [a[0]] + a[1..] && b == [b[0]] + b[1..];
    }
  }

  /** The first key is below every other key. */
  lemma MinKey(m: Entries)
    requires Ascending(m) && m != []
    ensures forall x :: x in Keys(m) && x != m[0].0 ==> Less(m[0].0, x)
  {
  }

  lemma TailAscending(m: Entries)
    requires Ascending(m) && m != []
    ensures Ascending(m[1..])
  {
    forall i, j | 0 <= i < j < |m[1..]| ensures Less(m[1..][i].0, m[1..][j].0) {
      assert m[1..][i] == m[i + 1] && m[1..][j] == m[j + 1];
    }
  }

  lemma TailLacksHead(m: Entries)
    requires Ascending(m) && m != []
    ensures Get(m[1..], m[0].0).None?
  {
    if m[0].0 in Keys(m[1..]) {
      var i :| 0 <= i < |m[1..]| && m[1..][i].0 == m[0].0;
      assert Less(m[0].0, m[i + 1].0);
      LessIrreflexive(m[0].0);
    }
  }

  /** The insert order does not matter: the directory is the same map whichever way round the keys go in. */
  lemma InsertOrderIrrelevant(m: Entries, k1: string, v1: string, k2: string, v2: string)
    requires Ascending(m) && k1 != k2
    ensures Insert(Insert(m, k1, v1), k2, v2) == Insert(Insert(m, k2, v2), k1, v1)
  {
    var a := Insert(Insert(m, k1, v1), k2, v2);
    var b := Insert(Insert(m, k2, v2), k1, v1);
    forall k ensures Get(a, k) == Get(b, k) {}
    AscendingUnique(a, b);
  }

  /** The order `Json` writes the directory in: alphabetical by name. */
  lemma EndpointsOrder(base: string)
    ensures GetEndpoints(base) == [
      (HealthKey, Url(base, HealthPath)),
      (FoodKey, Url(base, FoodPath)),
      (ListKey, Url(base, ListPath)),
      (SearchKey, Url(base, SearchPath))]
  {
    KeyOrder();
    FourInserts((HealthKey, Url(base, HealthPath)), (FoodKey, Url(base, FoodPath)),
      (ListKey, Url(base, ListPath)), (SearchKey, Url(base, SearchPath)));
  }

  /** Each name leads to its URL under the base address. */
  lemma EndpointsLookup(base: string)
    ensures Get(GetEndpoints(base), HealthKey) == Some(Url(base, HealthPath))
    ensures Get(GetEndpoints(base), ListKey) == Some(Url(base, ListPath))
    ensures Get(GetEndpoints(base), FoodKey) == Some(Url(base, FoodPath))
    ensures Get(GetEndpoints(base), SearchKey) == Some(Url(base, SearchPath))
    ensures Keys(GetEndpoints(base)) == {HealthKey, FoodKey, ListKey, SearchKey}
  {
    EndpointsOrder(base);
    KeyOrder();
    FourLookups((HealthKey, Url(base, HealthPath)), (FoodKey, Url(base, FoodPath)),
      (ListKey, Url(base, ListPath)), (SearchKey, Url(base, SearchPath)));
  }

  /** Looking up in a list of four distinct keys. */
  lemma FourLookups(h: (string, string), f: (string, string), l: (string, string), q: (string, string))
    requires h.0 != f.0 && h.0 != l.0 && h.0 != q.0 && f.0 != l.0 && f.0 != q.0 && l.0 != q.0
    ensures var m := [h, f, l, q];
      && Get(m, h.0) == Some(h.1) && Get(m, f.0) == Some(f.1)
      && Get(m, l.0) == Some(l.1) && Get(m, q.0) == Some(q.1)
      && Keys(m) == {h.0, f.0, l.0, q.0}
  {
    var m := [h, f, l, q];
    assert m[1..] == [f, l, q] && m[1..][1..] == [l, q] && m[1..][1..][1..] == [q];
    assert Get([q], q.0) == Some(q.1);
    assert Get([l, q], l.0) == Some(l.1) && Get([l, q], q.0) == Get([q], q.0);
    assert Get([f, l, q], l.0) == Get([l, q], l.0) && Get([f, l, q], q.0) == Get([l, q], q.0);
    assert Get(m, l.0) == Get([f, l, q], l.0) && Get(m, q.0) == Get([f, l, q], q.0);
    assert forall x :: x in Keys(m) ==> x == m[0].0 || x == m[1].0 || x == m[2].0 || x == m[3].0;
    assert m[0].0 in Keys(m) && m[1].0 in Keys(m) && m[2].0 in Keys(m) && m[3].0 in Keys(m);
  }
}
