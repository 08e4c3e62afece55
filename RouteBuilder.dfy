/**
 * `initRoute` / `setRoutes` as the source runs them: the level's array is
 * sorted in place, a shallow copy is taken, an index loop walks the sorted
 * array, pushes truthy keep-alive names onto one accumulator shared by the
 * whole recursion and rewrites the children of every node that has some.
 *
 * The copy shares its node objects with the caller's array, so writing a
 * node's `children` through the copy changes the caller's node too.  Nodes
 * are values here; the model writes the updated node into both arrays, which
 * is what the caller observes.
 */
module RouteBuilder {
  import opened Routes
  import opened StableSort
  import opened RouteTree

  /** Where the inner loop of `SortInPlace` stops, `Insert` puts `x`. */
  lemma {:induction false} InsertAt(x: Route, t: seq<Route>, j: nat)
    requires j <= |t|
    requires j == 0 || EffectiveSort(t[j - 1]) >= EffectiveSort(x)
    requires forall m :: j <= m < |t| ==> EffectiveSort(t[m]) < EffectiveSort(x)
    ensures Insert(x, t) == t[..j] + [x] + t[j..]
    decreases |t| - j
  {
    if j == |t| {
      assert t[..j] == t && t[j..] == [];
    } else {
      var n := |t| - 1;
      var p := t[..n];
      assert Insert(x, t) == Insert(x, p) + [t[n]] by {
        assert EffectiveSort(t[n]) < EffectiveSort(x);
      }
      assert Insert(x, p) == p[..j] + [x] + p[j..] by {
        InsertAt(x, p, j);
      }
      assert p[..j] == t[..j];
      assert p[j..] + [t[n]] == t[j..];
    }
  }

  /** After the shift loop of `InsertInto`, writing `x` at slot `j` yields `Insert(x, t)`. */
  lemma InsertPlaced(b: seq<Route>, t: seq<Route>, x: Route, j: nat)
    requires j <= |t| < |b|
    requires j == 0 || EffectiveSort(t[j - 1]) >= EffectiveSort(x)
    requires forall m :: 0 <= m < j ==> b[m] == t[m]
    requires forall m :: j < m <= |t| ==> b[m] == t[m - 1] && EffectiveSort(b[m]) < EffectiveSort(x)
    ensures b[j := x][..|t| + 1] == Insert(x, t)
  {
    forall m | j <= m < |t|
      ensures EffectiveSort(t[m]) < EffectiveSort(x)
    {
      assert b[m + 1] == t[m];
    }
    InsertAt(x, t, j);
    var u := t[..j] + [x] + t[j..];
    var c := b[j := x][..|t| + 1];
    forall m | 0 <= m <= |t|
      ensures c[m] == u[m]
    {
      if m < j {
        assert u[m] == t[m];
      } else if m > j {
        assert u[m] == t[m - 1];
      }
    }
    assert c == u;
  }

  /** One step of insertion sort: moves `a[i]` into the stably sorted place among `a[..i]`. */
  method InsertInto(a: array<Route>, i: nat)
    requires i < a.Length
    modifies a
    ensures a[..i + 1] == Insert(old(a[i]), old(a[..i]))
    ensures forall m :: i < m < a.Length ==> a[m] == old(a[m])
  {
    var x := a[i];
    var kx := EffectiveSort(x);
    ghost var t := a[..i];
    var j := i;
    while j > 0 && EffectiveSort(a[j - 1]) < kx
      invariant 0 <= j <= i
      invariant forall m :: 0 <= m < j ==> a[m] == t[m]
      invariant forall m :: j < m <= i ==> a[m] == t[m - 1] && EffectiveSort(a[m]) < kx
      invariant forall m :: i < m < a.Length ==> a[m] == old(a[m])
    {
      a[j] := a[j - 1];
      j := j - 1;
    }
    ghost var b := a[..];
    a[j] := x;
    assert a[..] == b[j := x];
    InsertPlaced(b, t, x, j);
  }

  /** Sorting one more element of a prefix inserts it into the sorted prefix. */
  lemma SortPrefixStep(s: seq<Route>, i: nat)
    requires i < |s|
    ensures SortDesc(s[..i + 1]) == Insert(s[i], SortDesc(s[..i]))
  {
    assert s[..i + 1][..i] == s[..i];
  }

  /** `tmpRoutes.sort(...)`: a stable in-place sort, here insertion sort. */
  method SortInPlace(a: array<Route>)
    modifies a
    ensures a[..] == SortDesc(old(a[..]))
  {
    ghost var s := a[..];
    var i := 0;
    while i < a.Length
      invariant 0 <= i <= a.Length
      invariant a[..i] == SortDesc(s[..i])
      invariant forall m :: i <= m < a.Length ==> a[m] == s[m]
    {
      InsertInto(a, i);
      SortPrefixStep(s, i);
      i := i + 1;
    }
    assert s[..a.Length] == s;
  }

  /** Growing a prefix by one node appends that node's preorder names. */
  lemma KeepAlivePrefixStep(s: seq<Route>, k: nat)
    requires k < |s|
    ensures KeepAliveNames(s[..k + 1]) == KeepAliveNames(s[..k]) + NodeKeepAlive(s[k])
  {
    assert s[..k + 1] == s[..k] + [s[k]];
    KeepAliveAppend(s[..k], s[k]);
  }

  /** The state of one `initRoute` run: the shared keep-alive accumulator. */
  class Builder {
    var keepAliveName: seq<string>

    constructor ()
      ensures keepAliveName == []
    {
      keepAliveName := [];
    }

    /**
     * One call of `setRoutes(tmpRoutes)`.  Afterwards the caller's array holds
     * the normalised level, the returned copy holds the same nodes, and the
     * accumulator has grown by the preorder keep-alive names of that level.
     * `depth` bounds the height of the forest; it only serves termination.
     */
    method SetRoutes(tmpRoutes: array<Route>, ghost depth: nat) returns (cloneData: array<Route>)
      requires Height(tmpRoutes[..]) <= depth
      modifies this, tmpRoutes
      decreases depth, 2
      ensures fresh(cloneData)
      ensures tmpRoutes[..] == RouteTree.SetRoutes(old(tmpRoutes[..]))
      ensures cloneData[..] == tmpRoutes[..]
      ensures keepAliveName == old(keepAliveName) + KeepAliveNames(tmpRoutes[..])
    {
      ghost var input := tmpRoutes[..];
      SortInPlace(tmpRoutes);
      ghost var sorted := tmpRoutes[..];
      forall m | 0 <= m < |sorted|
        ensures NodeHeight(sorted[m]) <= depth
      {
        SortDescPerm(input);
        assert sorted[m] in multiset(input);
        ChildHeight(input, sorted[m]);
      }
      var n := tmpRoutes.Length;
      cloneData := new Route[n](i requires 0 <= i < n reads tmpRoutes => tmpRoutes[i]);
      VisitLevel(tmpRoutes, cloneData, sorted, depth);
      ghost var target := RouteTree.SetRoutes(input);
      assert tmpRoutes[..] == target by {
        forall m | 0 <= m < n
          ensures tmpRoutes[m] == target[m]
        {
        }
      }
    }

    /**
     * The `for (const key in tmpRoutes)` loop of `setRoutes` over an already
     * sorted level: every node is visited in index order.
     */
    method VisitLevel(tmpRoutes: array<Route>, cloneData: array<Route>, ghost sorted: seq<Route>, ghost depth: nat)
      requires tmpRoutes != cloneData
      requires tmpRoutes[..] == sorted && cloneData[..] == sorted
      requires forall m :: 0 <= m < |sorted| ==> NodeHeight(sorted[m]) <= depth
      modifies this, tmpRoutes, cloneData
      decreases depth, 1
      ensures forall m :: 0 <= m < |sorted| ==> tmpRoutes[m] == Process(sorted[m])
      ensures cloneData[..] == tmpRoutes[..]
      ensures keepAliveName == old(keepAliveName) + KeepAliveNames(tmpRoutes[..])
    {
      ghost var names0 := keepAliveName;
      ghost var done := seq(|sorted|, i requires 0 <= i < |sorted| => Process(sorted[i]));
      var n := tmpRoutes.Length;
      var key := 0;
      while key < n
        invariant 0 <= key <= n
        invariant cloneData[..] == tmpRoutes[..]
        invariant forall m :: 0 <= m < key ==> tmpRoutes[m] == done[m]
        invariant forall m :: key <= m < n ==> tmpRoutes[m] == sorted[m]
        invariant keepAliveName == names0 + KeepAliveNames(done[..key])
      {
        VisitAt(tmpRoutes, cloneData, key, depth);
        KeepAlivePrefixStep(done, key);
        key := key + 1;
      }
      assert tmpRoutes[..] == done;
      assert done[..n] == done;
    }

    /**
     * The loop body of `setRoutes` for index `key`: push the node's truthy
     * keep-alive name, then, if it has children, normalise them (their names
     * follow) and store the result as the node's children.  The node object
     * is shared by both arrays, so both see the new children.
     */
    method VisitAt(tmpRoutes: array<Route>, cloneData: array<Route>, key: nat, ghost depth: nat)
      requires key < tmpRoutes.Length == cloneData.Length && tmpRoutes != cloneData
      requires cloneData[key] == tmpRoutes[key]
      requires NodeHeight(tmpRoutes[key]) <= depth
      modifies this, tmpRoutes, cloneData
      decreases depth, 0
      ensures tmpRoutes[key] == cloneData[key] == Process(old(tmpRoutes[key]))
      ensures forall m :: 0 <= m < tmpRoutes.Length && m != key ==>
        tmpRoutes[m] == old(tmpRoutes[m]) && cloneData[m] == old(cloneData[m])
      ensures keepAliveName == old(keepAliveName) + NodeKeepAlive(tmpRoutes[key])
    {
      var node := tmpRoutes[key];
      if HasKeepAlive(node) {
        keepAliveName := keepAliveName + [node.meta.keepAliveName.value];
      }
      if HasChildren(node) {
        var kids := new Route[|node.children|](i requires 0 <= i < |node.children| => node.children[i]);
        assert kids[..] == node.children;
        var res := SetRoutes(kids, depth - 1);
        cloneData[key] := node.(children := res[..]);
        tmpRoutes[key] := cloneData[key];
      }
    }
  }

  /**
   * `initRoute`: normalise the root's children with a fresh accumulator.
   * Returns what the source publishes to the route store and to the global
   * keep-alive list; the root's children array is left normalised as well.
   */
  method InitRoute(rootChildren: array<Route>) returns (res: seq<Route>, names: seq<string>)
    modifies rootChildren
    ensures res == RouteTree.SetRoutes(old(rootChildren[..]))
    ensures rootChildren[..] == res
    ensures names == KeepAliveNames(res)
  {
    var b := new Builder();
    var out := b.SetRoutes(rootChildren, Height(rootChildren[..]));
    res := out[..];
    names := b.keepAliveName;
  }
}
