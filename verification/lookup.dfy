/**
 * Searches over the store's tables. Records carry increasing integer ids, and the
 * ORM's default order is by id, so "the first matching record" is the smallest
 * matching key and a search result is the ascending list of matching keys.
 */
module Lookup {
  import opened Wrappers

  /** Smallest key in [lo, hi) whose value satisfies `p`: a search with `limit=1`. */
  function FirstKey<V>(m: map<nat, V>, p: V -> bool, lo: nat, hi: nat): (r: Option<nat>)
    ensures r.Some? ==> lo <= r.value < hi && r.value in m && p(m[r.value])
    ensures r.Some? ==> forall k :: lo <= k < r.value && k in m ==> !p(m[k])
    ensures r.None? <==> forall k :: lo <= k < hi && k in m ==> !p(m[k])
    decreases hi - lo
  {
    if lo >= hi then None
    else if lo in m && p(m[lo]) then Some(lo)
    else FirstKey(m, p, lo + 1, hi)
  }

  /** All keys in [lo, hi) whose value satisfies `p`, ascending: a search without limit. */
  function KeysWhere<V>(m: map<nat, V>, p: V -> bool, lo: nat, hi: nat): (r: seq<nat>)
    ensures forall i :: 0 <= i < |r| ==> lo <= r[i] < hi && r[i] in m && p(m[r[i]])
    ensures forall i, j :: 0 <= i < j < |r| ==> r[i] < r[j]
    ensures forall k :: lo <= k < hi && k in m && p(m[k]) ==> k in r
    decreases hi - lo
  {
    if lo >= hi then []
    else if lo in m && p(m[lo]) then [lo] + KeysWhere(m, p, lo + 1, hi)
    else KeysWhere(m, p, lo + 1, hi)
  }

  /** The elements of `s` that satisfy `p`, in order: Python's list comprehension with a condition. */
  function Filter<T>(s: seq<T>, p: T -> bool): (r: seq<T>)
    ensures |r| <= |s|
    ensures forall i :: 0 <= i < |r| ==> r[i] in s && p(r[i])
    ensures forall i :: 0 <= i < |s| && p(s[i]) ==> s[i] in r
    decreases |s|
  {
    if |s| == 0 then []
    else if p(s[0]) then [s[0]] + Filter(s[1..], p)
    else Filter(s[1..], p)
  }

  /** Filtering by `p` and by its negation splits a sequence without losing or duplicating elements. */
  lemma {:induction false} FilterSplit<T>(s: seq<T>, p: T -> bool)
    ensures |Filter(s, p)| + |Filter(s, x => !p(x))| == |s|
    decreases |s|
  {
    if |s| > 0 {
      FilterSplit(s[1..], p);
    }
  }

  /** An empty filter result means no element passes. */
  lemma FilterEmpty<T>(s: seq<T>, p: T -> bool)
    requires |Filter(s, p)| == 0
    ensures forall x :: x in s ==> !p(x)
  {
    forall x | x in s ensures !p(x) {
      var i :| 0 <= i < |s| && s[i] == x;
    }
  }

  /** Being a prefix is transitive. */
  lemma PrefixTrans<T>(a: seq<T>, b: seq<T>, c: seq<T>)
    requires |a| <= |b| <= |c| && c[..|b|] == b && b[..|a|] == a
    ensures c[..|a|] == a
  {
    assert c[..|a|] == c[..|b|][..|a|];
  }

  /** Strictly increasing: a list of record ids in the ORM's default order. */
  predicate Ascending(s: seq<nat>) {
    forall i, j :: 0 <= i < j < |s| ==> s[i] < s[j]
  }

  /** Filtering an ascending list of keys leaves it ascending. */
  lemma {:induction false} FilterKeepsOrder(s: seq<nat>, p: nat -> bool)
    requires Ascending(s)
    ensures Ascending(Filter(s, p))
    decreases |s|
  {
    if |s| > 0 {
      var tail := s[1..];
      assert Ascending(tail) by {
        forall i, j | 0 <= i < j < |tail| ensures tail[i] < tail[j] {
          assert tail[i] == s[i + 1] && tail[j] == s[j + 1];
        }
      }
      FilterKeepsOrder(tail, p);
      var rest := Filter(tail, p);
      if p(s[0]) {
        forall k | 0 <= k < |rest|
          ensures s[0] < rest[k]
        {
          assert rest[k] in tail;
          var j :| 0 <= j < |tail| && tail[j] == rest[k];
          assert s[j + 1] == rest[k];
        }
        ConsAscending(s[0], rest);
      }
    }
  }

  /** A key below every key of an ascending list extends it at the front. */
  lemma ConsAscending(x: nat, r: seq<nat>)
    requires Ascending(r) && forall k :: 0 <= k < |r| ==> x < r[k]
    ensures Ascending([x] + r)
  {
    var c := [x] + r;
    forall i, j | 0 <= i < j < |c| ensures c[i] < c[j] {
      assert c[j] == r[j - 1];
      if i > 0 {
        assert c[i] == r[i - 1];
      }
    }
  }

  /** Distinct elements of `s` in order of first appearance: the recordset union of `mapped`. */
  function Dedup<T(==)>(s: seq<T>): (r: seq<T>)
    ensures forall i :: 0 <= i < |r| ==> r[i] in s
    ensures forall i :: 0 <= i < |s| ==> s[i] in r
    ensures forall i, j :: 0 <= i < j < |r| ==> r[i] != r[j]
    decreases |s|
  {
    if |s| == 0 then []
    else
      var rest := Dedup(s[..|s| - 1]);
      if s[|s| - 1] in rest then rest else rest + [s[|s| - 1]]
  }
}
