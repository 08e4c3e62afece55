/**
 * The sibling sort of `setRoutes`: `tmpRoutes.sort((a, b) => key(b) - key(a))`
 * orders a level by descending effective key (`meta?.sort || 1`).
 * `Array.prototype.sort` is stable (ECMA-262, 2023 edition, section 23.1.3.30,
 * required since ES2019), so siblings with equal keys keep their order.
 *
 * The reference definition is a stable insertion sort, `SortDesc`.  What
 * "a stable descending sort of s" means is stated independently by
 * `IsStableSortOf`; `SortDescIsStableSort` shows that `SortDesc` is one and
 * `StableSortUnique` shows that there is only one, so whatever algorithm the
 * engine runs, its result is `SortDesc(s)`.
 */
module StableSort {
  import opened Routes

  /** Non-increasing effective key from left to right. */
  predicate SortedDesc(s: seq<Route>)
  {
    forall i, j :: 0 <= i < j < |s| ==> EffectiveSort(s[i]) >= EffectiveSort(s[j])
  }

  /** The subsequence of `s` whose effective key is `k`, in the order of `s`. */
  function WithKey(s: seq<Route>, k: int): seq<Route>
  {
    if s == [] then []
    else WithKey(s[..|s| - 1], k) + (if EffectiveSort(s[|s| - 1]) == k then [s[|s| - 1]] else [])
  }

  /**
   * `r` is a stable descending sort of `s`: sorted, and for every key the
   * siblings carrying it appear in `r` exactly as, and in the order, they
   * appear in `s`.
   */
  ghost predicate IsStableSortOf(r: seq<Route>, s: seq<Route>)
  {
    SortedDesc(r) && forall k :: WithKey(r, k) == WithKey(s, k)
  }

  /** Inserts `x` after every element of `t` whose key is at least its own. */
  function Insert(x: Route, t: seq<Route>): (u: seq<Route>)
    ensures |u| == |t| + 1
  {
    if t == [] || EffectiveSort(t[|t| - 1]) >= EffectiveSort(x) then t + [x]
    else Insert(x, t[..|t| - 1]) + [t[|t| - 1]]
  }

  /** Stable insertion sort, descending by effective key. */
  function SortDesc(s: seq<Route>): (r: seq<Route>)
    ensures |r| == |s|
  {
    if s == [] then [] else Insert(s[|s| - 1], SortDesc(s[..|s| - 1]))
  }

  lemma {:induction false} InsertPerm(x: Route, t: seq<Route>)
    ensures multiset(Insert(x, t)) == multiset(t) + multiset{x}
  {
    if t != [] && EffectiveSort(t[|t| - 1]) < EffectiveSort(x) {
      var n := |t| - 1;
      InsertPerm(x, t[..n]);
      assert t == t[..n] + [t[n]];
    }
  }

  /** The sort is a permutation of its input. */
  lemma {:induction false} SortDescPerm(s: seq<Route>)
    ensures multiset(SortDesc(s)) == multiset(s)
  {
    if s != [] {
      var n := |s| - 1;
      SortDescPerm(s[..n]);
      InsertPerm(s[n], SortDesc(s[..n]));
      assert s == s[..n] + [s[n]];
    }
  }

  lemma WithKeyAppend(a: seq<Route>, x: Route, k: int)
    ensures WithKey(a + [x], k) == WithKey(a, k) + (if EffectiveSort(x) == k then [x] else [])
  {
    assert (a + [x])[..|a|] == a;
  }

  /** Everything `WithKey` keeps comes from `s` and carries key `k`. */
  lemma {:induction false} WithKeyMember(s: seq<Route>, k: int, e: Route)
    requires e in WithKey(s, k)
    ensures e in s && EffectiveSort(e) == k
  {
    var n := |s| - 1;
    if e in WithKey(s[..n], k) {
      WithKeyMember(s[..n], k, e);
    }
  }

  lemma SortedAppend(p: seq<Route>, l: Route)
    requires SortedDesc(p)
    requires forall e :: e in p ==> EffectiveSort(e) >= EffectiveSort(l)
    ensures SortedDesc(p + [l])
  {
    var u := p + [l];
    forall i, j | 0 <= i < j < |u|
      ensures EffectiveSort(u[i]) >= EffectiveSort(u[j])
    {
      if j == |p| {
        assert u[i] in p;
      } else {
        assert u[i] == p[i] && u[j] == p[j];
      }
    }
  }

  lemma {:induction false} InsertSorted(x: Route, t: seq<Route>)
    requires SortedDesc(t)
    ensures SortedDesc(Insert(x, t))
  {
    if t == [] || EffectiveSort(t[|t| - 1]) >= EffectiveSort(x) {
      SortedAppend(t, x);
    } else {
      var n := |t| - 1;
      var l := t[n];
      var p := Insert(x, t[..n]);
      InsertSorted(x, t[..n]);
      InsertPerm(x, t[..n]);
      forall e | e in p
        ensures EffectiveSort(e) >= EffectiveSort(l)
      {
        assert e in multiset(p);
        if e != x {
          assert e in multiset(t[..n]);
        }
      }
      SortedAppend(p, l);
    }
  }

  lemma {:induction false} InsertWithKey(x: Route, t: seq<Route>, k: int)
    ensures WithKey(Insert(x, t), k) == WithKey(t, k) + (if EffectiveSort(x) == k then [x] else [])
  {
    if t == [] || EffectiveSort(t[|t| - 1]) >= EffectiveSort(x) {
      WithKeyAppend(t, x, k);
    } else {
      var n := |t| - 1;
      InsertWithKey(x, t[..n], k);
      WithKeyAppend(Insert(x, t[..n]), t[n], k);
      assert t == t[..n] + [t[n]];
      WithKeyAppend(t[..n], t[n], k);
    }
  }

  /** The reference sort is a stable descending sort of its input. */
  lemma {:induction false} SortDescIsStableSort(s: seq<Route>)
    ensures IsStableSortOf(SortDesc(s), s)
  {
    if s != [] {
      var n := |s| - 1;
      SortDescIsStableSort(s[..n]);
      InsertSorted(s[n], SortDesc(s[..n]));
      forall k
        ensures WithKey(SortDesc(s), k) == WithKey(s, k)
      {
        InsertWithKey(s[n], SortDesc(s[..n]), k);
      }
    }
  }

  lemma LastWithKey(s: seq<Route>)
    ensures s != [] ==> WithKey(s, EffectiveSort(s[|s| - 1])) != []
  {
  }

  /** In a sorted sequence, the last element has the smallest key of any element. */
  lemma LastKeyBound(r1: seq<Route>, r2: seq<Route>)
    requires r1 != [] && r2 != [] && SortedDesc(r2)
    requires WithKey(r1, EffectiveSort(r1[|r1| - 1])) == WithKey(r2, EffectiveSort(r1[|r1| - 1]))
    ensures EffectiveSort(r1[|r1| - 1]) >= EffectiveSort(r2[|r2| - 1])
  {
    var m := EffectiveSort(r1[|r1| - 1]);
    var w := WithKey(r2, m);
    LastWithKey(r1);
    assert w != [];
    var e := w[|w| - 1];
    WithKeyMember(r2, m, e);
    var i :| 0 <= i < |r2| && r2[i] == e;
    if i < |r2| - 1 {
      assert EffectiveSort(r2[i]) >= EffectiveSort(r2[|r2| - 1]);
    }
  }

  /** Two sorted sequences that agree key by key are equal. */
  lemma {:induction false} SortedSameKeysEqual(r1: seq<Route>, r2: seq<Route>)
    requires SortedDesc(r1) && SortedDesc(r2)
    requires forall k :: WithKey(r1, k) == WithKey(r2, k)
    ensures r1 == r2
    decreases |r1| + |r2|
  {
    LastWithKey(r1);
    LastWithKey(r2);
    if r1 != [] && r2 != [] {
      var n1, n2 := |r1| - 1, |r2| - 1;
      var x, y := r1[n1], r2[n2];
      LastKeyBound(r1, r2);
      LastKeyBound(r2, r1);
      var m := EffectiveSort(x);
      assert WithKey(r1, m) == WithKey(r1[..n1], m) + [x];
      assert WithKey(r2, m) == WithKey(r2[..n2], m) + [y];
      assert EffectiveSort(y) == m;
      var w := WithKey(r1, m);
      assert w[|w| - 1] == x;
      assert w == WithKey(r2, m);
      assert w[|w| - 1] == y;
      forall k
        ensures WithKey(r1[..n1], k) == WithKey(r2[..n2], k)
      {
        var a, b := WithKey(r1[..n1], k), WithKey(r2[..n2], k);
        var c := if EffectiveSort(x) == k then [x] else [];
        assert WithKey(r1, k) == a + c;
        assert WithKey(r2, k) == b + c;
        assert a == (a + c)[..|a|];
        assert b == (b + c)[..|b|];
      }
      SortedSameKeysEqual(r1[..n1], r2[..n2]);
      assert r1 == r1[..n1] + [x];
      assert r2 == r2[..n2] + [y];
    }
  }

  /** A stable descending sort of a sequence is unique. */
  lemma StableSortUnique(r1: seq<Route>, r2: seq<Route>, s: seq<Route>)
    requires IsStableSortOf(r1, s) && IsStableSortOf(r2, s)
    ensures r1 == r2
  {
    SortedSameKeysEqual(r1, r2);
  }

  /** Hence any stable descending sort of `s` is the reference sort. */
  lemma StableSortIsSortDesc(r: seq<Route>, s: seq<Route>)
    requires IsStableSortOf(r, s)
    ensures r == SortDesc(s)
  {
    SortDescIsStableSort(s);
    StableSortUnique(r, SortDesc(s), s);
  }

  /** Sorting a sorted level changes nothing. */
  lemma SortDescOfSorted(s: seq<Route>)
    requires SortedDesc(s)
    ensures SortDesc(s) == s
  {
    StableSortIsSortDesc(s, s);
  }
}
