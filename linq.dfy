/**
 * The LINQ-to-objects operators the search engine relies on, over sequences:
 * `GroupBy` (with `ToDictionary`), `Where`-by-key, `Intersect` and `Except`.
 * Each is given the meaning LINQ documents for it: grouping keeps source order,
 * the set operators yield distinct elements in order of first occurrence.
 */
module Linq {

  /** No element occurs twice. */
  ghost predicate NoDups<T>(s: seq<T>) {
    forall i, j :: 0 <= i < j < |s| ==> s[i] != s[j]
  }

  /** The position of the first occurrence of `x` in `s`. */
  function FirstIndex<T(==)>(s: seq<T>, x: T): (i: nat)
    requires x in s
    ensures i < |s| && s[i] == x && x !in s[..i]
  {
    if s[0] == x then 0
    else
      var j := FirstIndex(s[1..], x);
      assert s[..j + 1] == [s[0]] + s[1..][..j];
      1 + j
  }

  /** Appending elements does not move the first occurrence of an element already present. */
  lemma {:induction false} FirstIndexAppend<T>(s: seq<T>, t: seq<T>, x: T)
    requires x in s
    ensures FirstIndex(s + t, x) == FirstIndex(s, x)
  {
    if s[0] != x {
      assert (s + t)[1..] == s[1..] + t;
      assert x in s[1..];
      FirstIndexAppend(s[1..], t, x);
    }
  }

  /** The elements of `xs` whose key is `k`, in their order in `xs` (the group of `k`). */
  function WithKey<T, K(==)>(xs: seq<T>, key: T -> K, k: K): (r: seq<T>)
    ensures |r| <= |xs|
    ensures forall i :: 0 <= i < |r| ==> key(r[i]) == k
  {
    if xs == [] then []
    else
      var last := xs[|xs| - 1];
      WithKey(xs[..|xs| - 1], key, k) + (if key(last) == k then [last] else [])
  }

  /** A group holds each element of the source with that key as often as the source does, and nothing else. */
  lemma {:induction false} WithKeyMultiset<T, K>(xs: seq<T>, key: T -> K, k: K, x: T)
    ensures multiset(WithKey(xs, key, k))[x] == if key(x) == k then multiset(xs)[x] else 0
  {
    if xs != [] {
      var init, last := xs[..|xs| - 1], xs[|xs| - 1];
      assert xs == init + [last];
      WithKeyMultiset(init, key, k, x);
    }
  }

  /** Membership in a group: exactly the source elements with that key. */
  lemma WithKeyMembers<T, K>(xs: seq<T>, key: T -> K, k: K)
    ensures forall x :: x in WithKey(xs, key, k) ==> x in xs && key(x) == k
    ensures forall x :: x in xs && key(x) == k ==> x in WithKey(xs, key, k)
  {
    forall x ensures x in WithKey(xs, key, k) <==> x in xs && key(x) == k {
      WithKeyMultiset(xs, key, k, x);
    }
  }

  /** A non-empty group has a witness in the source. */
  lemma {:induction false} WithKeyNonEmpty<T, K>(xs: seq<T>, key: T -> K, k: K)
    ensures WithKey(xs, key, k) != [] ==> exists i :: 0 <= i < |xs| && key(xs[i]) == k
  {
    if xs != [] {
      var init := xs[..|xs| - 1];
      WithKeyNonEmpty(init, key, k);
      assert forall i :: 0 <= i < |init| ==> xs[i] == init[i];
    }
  }

  /** A sequence without duplicates holds each of its elements exactly once. */
  lemma {:induction false} NoDupsMultiset<T>(s: seq<T>, x: T)
    requires NoDups(s)
    ensures multiset(s)[x] == if x in s then 1 else 0
  {
    if s != [] {
      var init := s[..|s| - 1];
      assert s == init + [s[|s| - 1]];
      assert NoDups(init);
      NoDupsMultiset(init, x);
    }
  }

  /** Two duplicate-free sequences with the same elements are permutations of each other. */
  lemma SameElementsSameMultiset<T>(a: seq<T>, b: seq<T>)
    requires NoDups(a) && NoDups(b)
    requires forall x :: x in a <==> x in b
    ensures multiset(a) == multiset(b)
    ensures |a| == |b|
  {
    forall x ensures multiset(a)[x] == multiset(b)[x] {
      NoDupsMultiset(a, x);
      NoDupsMultiset(b, x);
    }
    assert multiset(a) == multiset(b);
    assert |multiset(a)| == |a| && |multiset(b)| == |b|;
  }

  /** The distinct keys of `xs`, in order of first appearance: the key order of LINQ `GroupBy`. */
  function GroupKeys<T, K(==,!new)>(xs: seq<T>, key: T -> K): (ks: seq<K>)
    ensures forall k :: k in ks <==> exists i :: 0 <= i < |xs| && key(xs[i]) == k
    ensures NoDups(ks)
  {
    if xs == [] then []
    else
      var init := xs[..|xs| - 1];
      var ks := GroupKeys(init, key);
      var k := key(xs[|xs| - 1]);
      assert forall i :: 0 <= i < |init| ==> xs[i] == init[i];
      if k in ks then ks else ks + [k]
  }

  /**
   * `GroupBy(key).ToDictionary(g => g.Key, g => g.ToArray())`: one entry per key
   * that occurs, mapped to that key's group in source order.
   */
  function GroupBy<T, K(==,!new)>(xs: seq<T>, key: T -> K): (m: map<K, seq<T>>)
    ensures forall k :: k in m <==> exists i :: 0 <= i < |xs| && key(xs[i]) == k
    ensures forall k :: k in m ==> m[k] == WithKey(xs, key, k)
  {
    if xs == [] then map[]
    else
      var init, last := xs[..|xs| - 1], xs[|xs| - 1];
      var m := GroupBy(init, key);
      GroupByStepKeys(xs, init, key, m.Keys);
      forall k | k !in m ensures WithKey(init, key, k) == [] {
        WithKeyNonEmpty(init, key, k);
      }
      GroupByStepGroups(xs, init, key, m);
      m[key(last) := (if key(last) in m then m[key(last)] else []) + [last]]
  }

  /** The inductive step of `GroupBy`'s key set: the last element's key joins it. */
  lemma GroupByStepKeys<T, K(!new)>(xs: seq<T>, init: seq<T>, key: T -> K, ks: set<K>)
    requires xs != [] && init == xs[..|xs| - 1]
    requires forall k :: k in ks <==> exists i :: 0 <= i < |init| && key(init[i]) == k
    ensures forall k :: k in ks || k == key(xs[|xs| - 1]) <==> exists i :: 0 <= i < |xs| && key(xs[i]) == k
  {
    forall k ensures k in ks || k == key(xs[|xs| - 1]) <==> exists i :: 0 <= i < |xs| && key(xs[i]) == k {
      if exists i :: 0 <= i < |xs| && key(xs[i]) == k {
        var i :| 0 <= i < |xs| && key(xs[i]) == k;
        if i < |init| {
          assert init[i] == xs[i];
        }
      }
      if k in ks {
        var i :| 0 <= i < |init| && key(init[i]) == k;
        assert xs[i] == init[i];
      }
    }
  }

  /** The inductive step of `GroupBy`'s groups: the last element joins its key's group, opening it if need be. */
  lemma GroupByStepGroups<T, K>(xs: seq<T>, init: seq<T>, key: T -> K, m: map<K, seq<T>>)
    requires xs != [] && init == xs[..|xs| - 1]
    requires forall k :: k in m ==> m[k] == WithKey(init, key, k)
    requires forall k :: k !in m ==> WithKey(init, key, k) == []
    ensures var last := xs[|xs| - 1];
      var m' := m[key(last) := (if key(last) in m then m[key(last)] else []) + [last]];
      forall k :: k in m' ==> m'[k] == WithKey(xs, key, k)
  {
    var last := xs[|xs| - 1];
    var m' := m[key(last) := (if key(last) in m then m[key(last)] else []) + [last]];
    forall k | k in m' ensures m'[k] == WithKey(xs, key, k) {
      assert WithKey(xs, key, k) == WithKey(init, key, k) + (if key(last) == k then [last] else []);
    }
  }

  /** Every element lies in the group of its own key and in no other group. */
  lemma GroupByPartition<T, K(!new)>(xs: seq<T>, key: T -> K, x: T)
    requires x in xs
    ensures key(x) in GroupBy(xs, key) && x in GroupBy(xs, key)[key(x)]
    ensures forall k :: k in GroupBy(xs, key) && x in GroupBy(xs, key)[k] ==> k == key(x)
  {
    var m := GroupBy(xs, key);
    var i :| 0 <= i < |xs| && xs[i] == x;
    assert key(xs[i]) == key(x);
    WithKeyMembers(xs, key, key(x));
    forall k | k in m && x in m[k] ensures k == key(x) {
      WithKeyMembers(xs, key, k);
    }
  }

  /**
   * Distinct elements of `a` whose membership in `b` equals `keep`, in order of
   * first occurrence in `a`. With `keep` this is LINQ `Intersect`, without it `Except`.
   */
  function Retain<T(==,!new)>(a: seq<T>, b: seq<T>, keep: bool): (r: seq<T>)
    ensures forall x :: x in r ==> x in a && (x in b) == keep
    ensures forall x :: x in a && (x in b) == keep ==> x in r
    ensures NoDups(r)
    ensures forall i, j :: 0 <= i < j < |r| ==> FirstIndex(a, r[i]) < FirstIndex(a, r[j])
  {
    if a == [] then []
    else
      var init, x := a[..|a| - 1], a[|a| - 1];
      var r := Retain(init, b, keep);
      assert a == init + [x];
      RetainStep(init, x, r);
      if (x in b) == keep && x !in r then r + [x] else r
  }

  /** The inductive step of `Retain`: extending its result with the next first occurrence keeps it ordered. */
  lemma RetainStep<T>(init: seq<T>, x: T, r: seq<T>)
    requires forall y :: y in r ==> y in init
    requires forall i, j :: 0 <= i < j < |r| ==> FirstIndex(init, r[i]) < FirstIndex(init, r[j])
    ensures forall i, j :: 0 <= i < j < |r| ==> FirstIndex(init + [x], r[i]) < FirstIndex(init + [x], r[j])
    ensures x !in init ==> forall i :: 0 <= i < |r| ==> FirstIndex(init + [x], r[i]) < FirstIndex(init + [x], x)
  {
    forall y | y in init ensures FirstIndex(init + [x], y) == FirstIndex(init, y) {
      FirstIndexAppend(init, [x], y);
    }
    if x !in init {
      assert FirstIndex(init + [x], x) == |init|;
    }
  }

  /** LINQ `a.Intersect(b)`. */
  function Intersect<T(==,!new)>(a: seq<T>, b: seq<T>): (r: seq<T>)
    ensures forall x :: x in r ==> x in a && x in b
    ensures forall x :: x in a && x in b ==> x in r
  {
    Retain(a, b, true)
  }

  /** LINQ `a.Except(b)`. */
  function Except<T(==,!new)>(a: seq<T>, b: seq<T>): (r: seq<T>)
    ensures forall x :: x in r ==> x in a && x !in b
    ensures forall x :: x in a && x !in b ==> x in r
  {
    Retain(a, b, false)
  }
}
