/**
 * Concrete runs of the normaliser on small route tables, among them the
 * children of the `/dev` route in `src/config/router/dev.ts`.
 */
module Examples {
  import opened Wrappers
  import opened Routes
  import opened StableSort
  import opened RouteTree

  function Leaf(name: string, sort: Option<int>, keepAlive: Option<string>): Route
  {
    Route("/" + name, name, Meta(None, sort, keepAlive), [])
  }

  /** No declared routes: no tree and no names. */
  lemma EmptyInput()
    ensures SetRoutes([]) == [] && KeepAliveNames(SetRoutes([])) == []
  {
  }

  /** On a level of leaves, `setRoutes` only sorts. */
  lemma LeavesOnlySorted(level: seq<Route>)
    requires forall i :: 0 <= i < |level| ==> !HasChildren(level[i])
    ensures SetRoutes(level) == SortDesc(level)
  {
    var sorted := SortDesc(level);
    SortDescPerm(level);
    forall i | 0 <= i < |sorted|
      ensures SetRoutes(level)[i] == sorted[i]
    {
      assert sorted[i] in multiset(level);
    }
  }

  /** A single route is already sorted. */
  lemma SortSingle(a: Route)
    ensures SortDesc([a]) == [a]
  {
    assert [a][..0] == [];
  }

  /** Two siblings already in order stay; otherwise they swap. */
  lemma SortPair(a: Route, b: Route)
    ensures SortDesc([a, b]) == if EffectiveSort(a) >= EffectiveSort(b) then [a, b] else [b, a]
  {
    assert [a, b][..1] == [a];
    SortSingle(a);
    if EffectiveSort(a) < EffectiveSort(b) {
      assert Insert(b, [a]) == Insert(b, []) + [a];
    }
  }

  function DevForm(): Route { Route("/dev/form", "dev-form", Meta(Some("普通表单"), Some(9), None), []) }
  function DevModalForm(): Route { Route("/dev/modal-form", "dev-modal-form", Meta(Some("弹窗表单"), Some(8), None), []) }

  /** The `/dev` route: sort 1, children `dev-form` (sort 9) and `dev-modal-form` (sort 8). */
  function DevRoute(): Route
  {
    Route("/dev", "dev", Meta(Some("开发者工具"), Some(1), None), [DevForm(), DevModalForm()])
  }

  /** Already in descending order, the `/dev` table is left as declared. */
  lemma DevTableUnchanged()
    ensures SetRoutes([DevRoute()]) == [DevRoute()]
    ensures KeepAliveNames(SetRoutes([DevRoute()])) == []
  {
    var kids := [DevForm(), DevModalForm()];
    assert SetRoutes(kids) == kids by {
      SortPair(DevForm(), DevModalForm());
      LeavesOnlySorted(kids);
    }
    SortSingle(DevRoute());
    var out := SetRoutes([DevRoute()]);
    assert out[0] == Process(DevRoute()) == DevRoute();
    assert out == [DevRoute()];
    assert KeepAliveNames(kids) == [] by {
      assert kids[..1] == [DevForm()] && [DevForm()][..0] == [];
    }
    assert [DevRoute()][..0] == [];
  }

  /** Equal keys keep their order: [1, 5, 1] becomes [5, first 1, second 1]. */
  lemma StableOnTies()
    ensures var a, b, c := Leaf("a", Some(1), None), Leaf("b", Some(5), None), Leaf("c", Some(1), None);
      SetRoutes([a, b, c]) == [b, a, c]
  {
    var a, b, c := Leaf("a", Some(1), None), Leaf("b", Some(5), None), Leaf("c", Some(1), None);
    assert [a, b, c][..2] == [a, b] && [a, b][..1] == [a];
    assert SortDesc([a]) == [a];
    assert Insert(b, [a]) == Insert(b, []) + [a];
    assert SortDesc([a, b]) == [b, a];
    assert SortDesc([a, b, c]) == [b, a, c];
    LeavesOnlySorted([a, b, c]);
  }

  /**
   * `sort: 0` falls back to 1 like a missing `sort`, so `a` (sort 0) and `b`
   * (no sort) tie and keep their input order; a negative sort ranks last.
   */
  lemma ZeroSortCountsAsOne()
    ensures var a, b, c := Leaf("a", Some(0), None), Leaf("b", None, None), Leaf("c", Some(-1), None);
      SetRoutes([c, a, b]) == [a, b, c]
  {
    var a, b, c := Leaf("a", Some(0), None), Leaf("b", None, None), Leaf("c", Some(-1), None);
    assert [c, a, b][..2] == [c, a] && [c, a][..1] == [c];
    assert SortDesc([c]) == [c];
    assert Insert(a, [c]) == Insert(a, []) + [c];
    assert SortDesc([c, a]) == [a, c];
    assert Insert(b, [a, c]) == Insert(b, [a]) + [c];
    assert SortDesc([c, a, b]) == [a, b, c];
    LeavesOnlySorted([c, a, b]);
  }

  // A two-level table for the keep-alive order.  The nodes are named
  // functions rather than local variables so that the proofs below can
  // mention them without re-expanding their literals.
  function LeafQ(): Route { Leaf("q", Some(1), Some("Q")) }
  function LeafR(): Route { Leaf("r", Some(2), Some("R")) }
  function ParentP(): Route { Route("/p", "p", Meta(None, Some(1), Some("P")), [LeafQ(), LeafR()]) }
  function LeafX(): Route { Leaf("x", Some(3), Some("Q")) }
  function LeafY(): Route { Leaf("y", Some(2), Some("")) }

  /** The children of `ParentP()` are reordered: `r` (sort 2) before `q` (sort 1). */
  lemma InnerLevel()
    ensures SetRoutes([LeafQ(), LeafR()]) == [LeafR(), LeafQ()]
  {
    SortPair(LeafQ(), LeafR());
    LeavesOnlySorted([LeafQ(), LeafR()]);
  }

  lemma InnerNames()
    ensures KeepAliveNames([LeafR(), LeafQ()]) == ["R", "Q"]
  {
    assert [LeafR(), LeafQ()][..1] == [LeafR()];
    assert NodeKeepAlive(LeafR()) == ["R"] by {
      assert OwnKeepAlive(LeafR()) == ["R"];
    }
    assert NodeKeepAlive(LeafQ()) == ["Q"] by {
      assert OwnKeepAlive(LeafQ()) == ["Q"];
    }
    assert KeepAliveNames([LeafR()]) == ["R"] by {
      assert [LeafR()][..0] == [];
    }
  }

  lemma OuterSort()
    ensures SortDesc([ParentP(), LeafX(), LeafY()]) == [LeafX(), LeafY(), ParentP()]
  {
    var p, x, y := ParentP(), LeafX(), LeafY();
    assert [p, x, y][..2] == [p, x] && [p, x][..1] == [p];
    assert SortDesc([p]) == [p];
    assert Insert(x, [p]) == Insert(x, []) + [p];
    assert SortDesc([p, x]) == [x, p];
    assert Insert(y, [x, p]) == Insert(y, [x]) + [p];
  }

  /** The top level is reordered to `x`, `y`, `p`, and `p`'s children are normalised. */
  lemma OuterLevel()
    ensures SetRoutes([ParentP(), LeafX(), LeafY()]) == [LeafX(), LeafY(), ParentP().(children := [LeafR(), LeafQ()])]
  {
    var out := SetRoutes([ParentP(), LeafX(), LeafY()]);
    var want := [LeafX(), LeafY(), ParentP().(children := [LeafR(), LeafQ()])];
    OuterSort();
    assert out[0] == Process(LeafX()) == want[0];
    assert out[1] == Process(LeafY()) == want[1];
    assert out[2] == want[2] by {
      assert out[2] == Process(ParentP());
      InnerLevel();
    }
    assert |out| == 3;
  }

  /** The normalised parent contributes its own name, then its children's in sorted order. */
  lemma ParentNames()
    ensures NodeKeepAlive(ParentP().(children := [LeafR(), LeafQ()])) == ["P", "R", "Q"]
  {
    InnerNames();
  }

  /**
   * Names are collected in sorted order, parent before children, one entry
   * per occurrence, and the empty string is skipped.
   */
  lemma NamesFollowSortedOrder()
    ensures KeepAliveNames(SetRoutes([ParentP(), LeafX(), LeafY()])) == ["Q", "P", "R", "Q"]
  {
    OuterLevel();
    var p' := ParentP().(children := [LeafR(), LeafQ()]);
    assert [LeafX(), LeafY(), p'][..2] == [LeafX(), LeafY()] && [LeafX(), LeafY()][..1] == [LeafX()];
    assert KeepAliveNames([LeafX(), LeafY()]) == ["Q"] by {
      assert KeepAliveNames([LeafX()]) == ["Q"];
    }
    ParentNames();
  }
}
