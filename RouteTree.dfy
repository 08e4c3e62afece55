/**
 * `setRoutes` as a function on route values: sort a level, then give every
 * node whose `children` list is non-empty the processed version of that list.
 * `KeepAliveNames` is the list the shared `keepAliveName` accumulator receives:
 * a preorder walk (a node before its subtree, siblings left to right) of the
 * truthy `meta.keepAliveName` values.  Applied to the tree `SetRoutes`
 * returns, it visits siblings in sorted order, as the source's loop does.
 */
module RouteTree {
  import opened Routes
  import opened StableSort

  /** One level of `setRoutes`: the level sorted, each node then processed. */
  function SetRoutes(level: seq<Route>): (out: seq<Route>)
    decreases level, 1
    ensures |out| == |level|
  {
    var sorted := SortDesc(level);
    seq(|sorted|, i requires 0 <= i < |sorted| =>
      SortDescPerm(level);
      assert sorted[i] in multiset(level);
      Process(sorted[i]))
  }

  /** The loop body for one node: `children?.length` decides whether it is rewritten. */
  function Process(r: Route): Route
    decreases r, 0
  {
    if HasChildren(r) then r.(children := SetRoutes(r.children)) else r
  }

  /** Preorder list of truthy keep-alive names of a level, siblings left to right. */
  function KeepAliveNames(level: seq<Route>): seq<string>
    decreases level, 0
  {
    if level == [] then []
    else
      assert level[|level| - 1] in level;
      KeepAliveNames(level[..|level| - 1]) + NodeKeepAlive(level[|level| - 1])
  }

  /** A node's own truthy name, then the names of its subtree. */
  function NodeKeepAlive(r: Route): seq<string>
    decreases r, 1
  {
    OwnKeepAlive(r) + KeepAliveNames(r.children)
  }

  /** Number of nodes whose `meta.keepAliveName` is truthy, counted independently of any order. */
  function NamedCount(level: seq<Route>): nat
    decreases level, 0
  {
    if level == [] then 0
    else
      assert level[|level| - 1] in level;
      NamedCount(level[..|level| - 1]) + NodeNamed(level[|level| - 1])
  }

  function NodeNamed(r: Route): nat
    decreases r, 1
  {
    (if HasKeepAlive(r) then 1 else 0) + NamedCount(r.children)
  }

  /** Total number of nodes in a forest. */
  function NodeCount(level: seq<Route>): nat
    decreases level, 0
  {
    if level == [] then 0
    else
      assert level[|level| - 1] in level;
      NodeCount(level[..|level| - 1]) + NodeSize(level[|level| - 1])
  }

  function NodeSize(r: Route): nat
    decreases r, 1
  {
    1 + NodeCount(r.children)
  }

  /** Depth of a forest: 0 when empty, else one more than the deepest child forest. */
  function Height(level: seq<Route>): nat
    decreases level, 0
  {
    if level == [] then 0
    else
      assert level[|level| - 1] in level;
      Max(Height(level[..|level| - 1]), NodeHeight(level[|level| - 1]))
  }

  function NodeHeight(r: Route): nat
    decreases r, 1
  {
    1 + Height(r.children)
  }

  function Max(a: nat, b: nat): nat
  {
    if a < b then b else a
  }

  /** Every level of the forest is sorted. */
  ghost predicate Normalized(level: seq<Route>)
  {
    SortedDesc(level) && forall i :: 0 <= i < |level| ==> Normalized(level[i].children)
  }

  /** Two nodes agree on everything but their children. */
  predicate SameNode(a: Route, b: Route)
  {
    a.path == b.path && a.name == b.name && a.meta == b.meta
  }

  // ---------------------------------------------------------------------------
  // Shape of one level

  /**
   * The returned level is the sorted level, node by node: no field but
   * `children` changes, a node with children gets its children processed, a
   * node without keeps them (empty) as they were.
   */
  lemma SetRoutesShape(level: seq<Route>)
    ensures var out, sorted := SetRoutes(level), SortDesc(level);
      |out| == |sorted| &&
      forall i :: 0 <= i < |out| ==>
        SameNode(out[i], sorted[i]) &&
        (HasChildren(sorted[i]) ==> out[i].children == SetRoutes(sorted[i].children)) &&
        (!HasChildren(sorted[i]) ==> out[i] == sorted[i])
  {
  }

  /**
   * Whatever stable descending sort the engine runs, the returned level is
   * that sort of the input with each node processed.
   */
  lemma SetRoutesIsProcessedStableSort(level: seq<Route>, r: seq<Route>)
    requires IsStableSortOf(r, level)
    ensures |SetRoutes(level)| == |r|
    ensures forall i :: 0 <= i < |r| ==> SetRoutes(level)[i] == Process(r[i])
  {
    StableSortIsSortDesc(r, level);
  }

  /** The returned level is non-increasing in the effective key. */
  lemma SetRoutesSorted(level: seq<Route>)
    ensures SortedDesc(SetRoutes(level))
  {
    var out, sorted := SetRoutes(level), SortDesc(level);
    SortDescIsStableSort(level);
    forall i, j | 0 <= i < j < |out|
      ensures EffectiveSort(out[i]) >= EffectiveSort(out[j])
    {
      assert out[i] == Process(sorted[i]) && out[j] == Process(sorted[j]);
    }
  }

  /** Every level of the returned tree is sorted. */
  lemma {:induction false} SetRoutesNormalized(level: seq<Route>)
    ensures Normalized(SetRoutes(level))
    decreases level, 1
  {
    var out, sorted := SetRoutes(level), SortDesc(level);
    SetRoutesSorted(level);
    forall i | 0 <= i < |out|
      ensures Normalized(out[i].children)
    {
      SortDescPerm(level);
      assert sorted[i] in multiset(level);
      ProcessNormalized(sorted[i]);
    }
  }

  lemma {:induction false} ProcessNormalized(r: Route)
    ensures Normalized(Process(r).children)
    decreases r, 0
  {
    if HasChildren(r) {
      SetRoutesNormalized(r.children);
    } else {
      assert r.children == [];
    }
  }

  /** A tree whose every level is already sorted is left as it is. */
  lemma {:induction false} NormalizedFixpoint(level: seq<Route>)
    requires Normalized(level)
    ensures SetRoutes(level) == level
    decreases level, 1
  {
    SortDescOfSorted(level);
    var out := SetRoutes(level);
    forall i | 0 <= i < |level|
      ensures out[i] == level[i]
    {
      ProcessFixpoint(level[i]);
    }
  }

  lemma {:induction false} ProcessFixpoint(r: Route)
    requires Normalized(r.children)
    ensures Process(r) == r
    decreases r, 0
  {
    if HasChildren(r) {
      NormalizedFixpoint(r.children);
    }
  }

  /** Running the normaliser on its own output (a rebuild) changes nothing. */
  lemma SetRoutesIdempotent(level: seq<Route>)
    ensures SetRoutes(SetRoutes(level)) == SetRoutes(level)
  {
    SetRoutesNormalized(level);
    NormalizedFixpoint(SetRoutes(level));
  }

  // ---------------------------------------------------------------------------
  // Node count

  lemma NodeCountAppend(a: seq<Route>, x: Route)
    ensures NodeCount(a + [x]) == NodeCount(a) + NodeSize(x)
  {
    assert (a + [x])[..|a|] == a;
  }

  lemma {:induction false} NodeCountInsert(x: Route, t: seq<Route>)
    ensures NodeCount(Insert(x, t)) == NodeCount(t) + NodeSize(x)
  {
    if t == [] || EffectiveSort(t[|t| - 1]) >= EffectiveSort(x) {
      NodeCountAppend(t, x);
    } else {
      var n := |t| - 1;
      NodeCountInsert(x, t[..n]);
      NodeCountAppend(Insert(x, t[..n]), t[n]);
    }
  }

  lemma {:induction false} NodeCountSort(s: seq<Route>)
    ensures NodeCount(SortDesc(s)) == NodeCount(s)
  {
    if s != [] {
      var n := |s| - 1;
      NodeCountSort(s[..n]);
      NodeCountInsert(s[n], SortDesc(s[..n]));
    }
  }

  lemma {:induction false} NodeCountPointwise(a: seq<Route>, b: seq<Route>)
    requires |a| == |b|
    requires forall i :: 0 <= i < |a| ==> NodeSize(a[i]) == NodeSize(b[i])
    ensures NodeCount(a) == NodeCount(b)
  {
    if a != [] {
      NodeCountPointwise(a[..|a| - 1], b[..|b| - 1]);
    }
  }

  /** The normaliser neither adds nor drops nodes. */
  lemma {:induction false} SetRoutesNodeCount(level: seq<Route>)
    ensures NodeCount(SetRoutes(level)) == NodeCount(level)
    decreases level, 1
  {
    var out, sorted := SetRoutes(level), SortDesc(level);
    forall i | 0 <= i < |out|
      ensures NodeSize(out[i]) == NodeSize(sorted[i])
    {
      SortDescPerm(level);
      assert sorted[i] in multiset(level);
      ProcessNodeSize(sorted[i]);
    }
    NodeCountPointwise(out, sorted);
    NodeCountSort(level);
  }

  lemma {:induction false} ProcessNodeSize(r: Route)
    ensures NodeSize(Process(r)) == NodeSize(r)
    decreases r, 0
  {
    if HasChildren(r) {
      SetRoutesNodeCount(r.children);
    }
  }

  // ---------------------------------------------------------------------------
  // Depth

  lemma HeightAppend(a: seq<Route>, x: Route)
    ensures Height(a + [x]) == Max(Height(a), NodeHeight(x))
  {
    assert (a + [x])[..|a|] == a;
  }

  lemma {:induction false} HeightInsert(x: Route, t: seq<Route>)
    ensures Height(Insert(x, t)) == Max(Height(t), NodeHeight(x))
  {
    if t == [] || EffectiveSort(t[|t| - 1]) >= EffectiveSort(x) {
      HeightAppend(t, x);
    } else {
      var n := |t| - 1;
      HeightInsert(x, t[..n]);
      HeightAppend(Insert(x, t[..n]), t[n]);
    }
  }

  lemma {:induction false} HeightSort(s: seq<Route>)
    ensures Height(SortDesc(s)) == Height(s)
  {
    if s != [] {
      var n := |s| - 1;
      HeightSort(s[..n]);
      HeightInsert(s[n], SortDesc(s[..n]));
    }
  }

  lemma {:induction false} HeightPointwise(a: seq<Route>, b: seq<Route>)
    requires |a| == |b|
    requires forall i :: 0 <= i < |a| ==> NodeHeight(a[i]) == NodeHeight(b[i])
    ensures Height(a) == Height(b)
  {
    if a != [] {
      HeightPointwise(a[..|a| - 1], b[..|b| - 1]);
    }
  }

  /** The normaliser keeps the depth of the tree. */
  lemma {:induction false} SetRoutesHeight(level: seq<Route>)
    ensures Height(SetRoutes(level)) == Height(level)
    decreases level, 1
  {
    var out, sorted := SetRoutes(level), SortDesc(level);
    forall i | 0 <= i < |out|
      ensures NodeHeight(out[i]) == NodeHeight(sorted[i])
    {
      SortDescPerm(level);
      assert sorted[i] in multiset(level);
      ProcessNodeHeight(sorted[i]);
    }
    HeightPointwise(out, sorted);
    HeightSort(level);
  }

  lemma {:induction false} ProcessNodeHeight(r: Route)
    ensures NodeHeight(Process(r)) == NodeHeight(r)
    decreases r, 0
  {
    if HasChildren(r) {
      SetRoutesHeight(r.children);
    }
  }

  /** A child forest is strictly shallower than the forest holding its parent. */
  lemma {:induction false} ChildHeight(level: seq<Route>, x: Route)
    requires x in level
    ensures Height(x.children) < Height(level)
  {
    var n := |level| - 1;
    if x != level[n] {
      ChildHeight(level[..n], x);
    }
  }

  // ---------------------------------------------------------------------------
  // Keep-alive names

  lemma KeepAliveAppend(a: seq<Route>, x: Route)
    ensures KeepAliveNames(a + [x]) == KeepAliveNames(a) + NodeKeepAlive(x)
  {
    assert (a + [x])[..|a|] == a;
  }

  /** Appending a node adds its names to the multiset. */
  lemma KeepAliveAppendMultiset(a: seq<Route>, x: Route)
    ensures multiset(KeepAliveNames(a + [x])) == multiset(KeepAliveNames(a)) + multiset(NodeKeepAlive(x))
  {
    KeepAliveAppend(a, x);
  }

  lemma {:induction false} KeepAliveInsert(x: Route, t: seq<Route>)
    ensures multiset(KeepAliveNames(Insert(x, t))) == multiset(KeepAliveNames(t)) + multiset(NodeKeepAlive(x))
  {
    if t == [] || EffectiveSort(t[|t| - 1]) >= EffectiveSort(x) {
      KeepAliveAppendMultiset(t, x);
    } else {
      var n := |t| - 1;
      var p, l := t[..n], t[n];
      var u := Insert(x, p);
      var mp, ml, mx := multiset(KeepAliveNames(p)), multiset(NodeKeepAlive(l)), multiset(NodeKeepAlive(x));
      assert Insert(x, t) == u + [l];
      assert t == p + [l];
      assert multiset(KeepAliveNames(u)) == mp + mx by {
        KeepAliveInsert(x, p);
      }
      assert multiset(KeepAliveNames(u + [l])) == mp + mx + ml by {
        KeepAliveAppendMultiset(u, l);
      }
      assert multiset(KeepAliveNames(p + [l])) == mp + ml by {
        KeepAliveAppendMultiset(p, l);
      }
    }
  }

  lemma {:induction false} KeepAliveSort(s: seq<Route>)
    ensures multiset(KeepAliveNames(SortDesc(s))) == multiset(KeepAliveNames(s))
  {
    if s != [] {
      var n := |s| - 1;
      KeepAliveSort(s[..n]);
      KeepAliveInsert(s[n], SortDesc(s[..n]));
    }
  }

  lemma {:induction false} KeepAlivePointwise(a: seq<Route>, b: seq<Route>)
    requires |a| == |b|
    requires forall i :: 0 <= i < |a| ==> multiset(NodeKeepAlive(a[i])) == multiset(NodeKeepAlive(b[i]))
    ensures multiset(KeepAliveNames(a)) == multiset(KeepAliveNames(b))
  {
    if a != [] {
      KeepAlivePointwise(a[..|a| - 1], b[..|b| - 1]);
    }
  }

  /**
   * The names collected from the returned tree are those of the declared
   * tree, one entry per occurrence, only their order differs.
   */
  lemma {:induction false} SetRoutesKeepAlive(level: seq<Route>)
    ensures multiset(KeepAliveNames(SetRoutes(level))) == multiset(KeepAliveNames(level))
    decreases level, 1
  {
    var out, sorted := SetRoutes(level), SortDesc(level);
    forall i | 0 <= i < |out|
      ensures multiset(NodeKeepAlive(out[i])) == multiset(NodeKeepAlive(sorted[i]))
    {
      SortDescPerm(level);
      assert sorted[i] in multiset(level);
      ProcessKeepAlive(sorted[i]);
    }
    KeepAlivePointwise(out, sorted);
    KeepAliveSort(level);
  }

  lemma {:induction false} ProcessKeepAlive(r: Route)
    ensures multiset(NodeKeepAlive(Process(r))) == multiset(NodeKeepAlive(r))
    decreases r, 0
  {
    if HasChildren(r) {
      SetRoutesKeepAlive(r.children);
    }
  }

  /** Every collected name is non-empty: falsy names are never pushed. */
  lemma {:induction false} KeepAliveTruthy(level: seq<Route>)
    ensures forall n :: n in KeepAliveNames(level) ==> n != ""
    decreases level, 0
  {
    if level != [] {
      var last := level[|level| - 1];
      assert last in level;
      KeepAliveTruthy(level[..|level| - 1]);
      NodeKeepAliveTruthy(last);
    }
  }

  lemma {:induction false} NodeKeepAliveTruthy(r: Route)
    ensures forall n :: n in NodeKeepAlive(r) ==> n != ""
    decreases r, 1
  {
    KeepAliveTruthy(r.children);
  }

  /** No de-duplication: one entry per node with a truthy `keepAliveName`. */
  lemma {:induction false} KeepAliveCount(level: seq<Route>)
    ensures |KeepAliveNames(level)| == NamedCount(level)
    decreases level, 0
  {
    if level != [] {
      var n := |level| - 1;
      KeepAliveCount(level[..n]);
      NodeKeepAliveCount(level[n]);
    }
  }

  lemma {:induction false} NodeKeepAliveCount(r: Route)
    ensures |NodeKeepAlive(r)| == NodeNamed(r)
    decreases r, 1
  {
    KeepAliveCount(r.children);
  }

  /** Hence the list built from the returned tree has exactly that many entries. */
  lemma SetRoutesKeepAliveCount(level: seq<Route>)
    ensures |KeepAliveNames(SetRoutes(level))| == NamedCount(level)
  {
    SetRoutesKeepAlive(level);
    KeepAliveCount(level);
    assert |multiset(KeepAliveNames(SetRoutes(level)))| == |multiset(KeepAliveNames(level))|;
  }
}
