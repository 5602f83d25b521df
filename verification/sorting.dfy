/**
 * Ordering a sequence by a natural-number key, highest first, as
 * `sort_unstable_by(|a, b| b.key.cmp(&a.key))` does. Only the key order is
 * promised; which of two equal-key elements comes first is not.
 */
module Sorting {

  /** Keys never increase from one position to a later one. */
  predicate SortedDesc<T>(s: seq<T>, key: T -> nat) {
    forall i, j :: 0 <= i < j < |s| ==> key(s[i]) >= key(s[j])
  }

  function Insert<T(==)>(x: T, sorted: seq<T>, key: T -> nat): (r: seq<T>)
    requires SortedDesc(sorted, key)
    ensures SortedDesc(r, key)
    ensures multiset(r) == multiset(sorted) + multiset{x}
    ensures sorted == [] ==> r == [x]
    ensures sorted != [] ==> r[0] == x || r[0] == sorted[0]
  {
    if sorted == [] then [x]
    else if key(x) >= key(sorted[0]) then [x] + sorted
    else
      var rest := Insert(x, sorted[1..], key);
      assert sorted == [sorted[0]] + sorted[1..];
      HeadStaysFirst(x, sorted, rest, key);
      [sorted[0]] + rest
  }

  /** An element ranked below the head goes behind it, and the head stays in front of the rest. */
  lemma HeadStaysFirst<T>(x: T, sorted: seq<T>, rest: seq<T>, key: T -> nat)
    requires sorted != [] && SortedDesc(sorted, key) && key(x) < key(sorted[0])
    requires SortedDesc(rest, key) && multiset(rest) == multiset(sorted[1..]) + multiset{x}
    ensures SortedDesc([sorted[0]] + rest, key)
  {
    forall j | 0 <= j < |rest| ensures key(sorted[0]) >= key(rest[j]) {
      assert rest[j] in multiset(rest);
      if rest[j] != x {
        assert rest[j] in multiset(sorted[1..]);
        var i :| 0 <= i < |sorted[1..]| && sorted[1..][i] == rest[j];
        assert sorted[i + 1] == rest[j];
      }
    }
    var r := [sorted[0]] + rest;
    forall i, j | 0 <= i < j < |r| ensures key(r[i]) >= key(r[j]) {
      assert r[j] == rest[j - 1];
      if i > 0 { assert r[i] == rest[i - 1]; }
    }
  }

  /** Insertion sort: one of the orders `sort_unstable_by` may produce. */
  function Sort<T(==)>(s: seq<T>, key: T -> nat): (r: seq<T>)
    ensures SortedDesc(r, key)
    ensures multiset(r) == multiset(s)
  {
    if s == [] then []
    else
      assert s == [s[0]] + s[1..];
      Insert(s[0], Sort(s[1..], key), key)
  }

  /** The head of a descending sequence has the largest key of all its elements. */
  lemma HeadIsMax<T>(s: seq<T>, key: T -> nat, y: T)
    requires SortedDesc(s, key) && y in multiset(s)
    ensures key(s[0]) >= key(y)
  {
    var m :| 0 <= m < |s| && s[m] == y;
  }

  /** Taking one element out of a descending sequence leaves it descending. */
  lemma RemoveKeepsSorted<T>(b: seq<T>, k: nat, key: T -> nat)
    requires k < |b| && SortedDesc(b, key)
    ensures SortedDesc(b[..k] + b[k + 1..], key)
    ensures multiset(b[..k] + b[k + 1..]) == multiset(b) - multiset{b[k]}
  {
    var b' := b[..k] + b[k + 1..];
    assert b == b[..k] + [b[k]] + b[k + 1..];
    forall i, j | 0 <= i < j < |b'| ensures key(b'[i]) >= key(b'[j]) {
      var i0 := if i < k then i else i + 1;
      var j0 := if j < k then j else j + 1;
      assert b'[i] == b[i0] && b'[j] == b[j0];
    }
  }

  /** Every element up to one that ties with the head ties with the head too. */
  lemma PlateauBeforeK<T>(b: seq<T>, key: T -> nat, k: nat)
    requires k < |b| && SortedDesc(b, key) && key(b[k]) == key(b[0])
    ensures forall i :: 0 <= i <= k ==> key(b[i]) == key(b[0])
  {
    forall i | 0 < i < k ensures key(b[i]) == key(b[0]) {
      assert key(b[0]) >= key(b[i]) >= key(b[k]);
    }
  }

  /**
   * After taking the head off `a` and the tying element `b[k]` out of `b`,
   * agreement of the rests gives agreement of the whole.
   */
  lemma RealignKeys<T>(a: seq<T>, b: seq<T>, k: nat, key: T -> nat)
    requires 0 < |a| == |b| && k < |b|
    requires key(a[0]) == key(b[0])
    requires forall i :: 0 <= i <= k ==> key(b[i]) == key(b[0])
    requires forall i :: 0 <= i < |a| - 1 ==> key(a[1..][i]) == key((b[..k] + b[k + 1..])[i])
    ensures forall i :: 0 <= i < |a| ==> key(a[i]) == key(b[i])
  {
    var b' := b[..k] + b[k + 1..];
    forall i | 0 < i < |a| ensures key(a[i]) == key(b[i]) {
      assert key(a[1..][i - 1]) == key(b'[i - 1]);
      assert a[1..][i - 1] == a[i];
      if i <= k {
        assert b'[i - 1] == b[i - 1];
      } else {
        assert b'[i - 1] == b[i];
      }
    }
  }

  /** Two descending orderings of the same elements agree on the key at every position. */
  lemma {:induction false} SortedKeysUnique<T>(a: seq<T>, b: seq<T>, key: T -> nat)
    requires multiset(a) == multiset(b) && SortedDesc(a, key) && SortedDesc(b, key)
    ensures |a| == |b|
    ensures forall i :: 0 <= i < |a| ==> key(a[i]) == key(b[i])
    decreases |a|
  {
    assert |multiset(a)| == |multiset(b)|;
    if a != [] {
      assert a[0] in multiset(b);
      assert b[0] in multiset(a);
      HeadIsMax(a, key, b[0]);
      HeadIsMax(b, key, a[0]);
      var top := key(a[0]);
      var k :| 0 <= k < |b| && b[k] == a[0];
      var b' := b[..k] + b[k + 1..];
      RemoveKeepsSorted(b, k, key);
      assert a == [a[0]] + a[1..];
      assert multiset(a[1..]) == multiset(a) - multiset{a[0]};
      assert SortedDesc(a[1..], key) by {
        forall i, j | 0 <= i < j < |a| - 1 ensures key(a[1..][i]) >= key(a[1..][j]) {
          assert a[1..][i] == a[i + 1] && a[1..][j] == a[j + 1];
        }
      }
      SortedKeysUnique(a[1..], b', key);
      PlateauBeforeK(b, key, k);
      RealignKeys(a, b, k, key);
    }
  }

  /** Two elements with equal keys are in descending order either way round. */
  lemma EqualKeysBothOrders<T>(x: T, y: T, key: T -> nat)
    requires key(x) == key(y)
    ensures SortedDesc([x, y], key) && SortedDesc([y, x], key)
  {
  }

  /** With three strictly ordered keys there is exactly one descending order. */
  lemma StrictKeysFixOrder<T>(a: T, b: T, c: T, out: seq<T>, key: T -> nat)
    requires key(a) > key(b) > key(c)
    requires multiset(out) == multiset([a, b, c]) && SortedDesc(out, key)
    ensures out == [a, b, c]
  {
    var expected := [a, b, c];
    assert SortedDesc(expected, key);
    SortedKeysUnique(out, expected, key);
    forall i | 0 <= i < 3 ensures out[i] == expected[i] {
      assert out[i] in multiset(expected);
    }
  }

  /** When no key exceeds `top`, everything in front of an element with key `top` has key `top` too. */
  lemma TopKeysFirst<T>(s: seq<T>, key: T -> nat, top: nat)
    requires SortedDesc(s, key)
    requires forall i :: 0 <= i < |s| ==> key(s[i]) <= top
    ensures forall i, j :: 0 <= i <= j < |s| && key(s[j]) == top ==> key(s[i]) == top
  {
    forall i, j | 0 <= i <= j < |s| && key(s[j]) == top ensures key(s[i]) == top {
      assert key(s[i]) >= key(s[j]);
    }
  }
}
