/** The exploration landmarks of Agent/beliefs.js: nine named spots, each the
    walkable cell nearest an anchor at a truncated half or quarter of the
    grid's width and height, kept in an insertion-ordered table. */
module Beliefs {
  import opened Base
  import opened BenchMark
  import opened Table
  import opened Mapping

  /** The landmark names, in the order `loadExplorationSpots` sets them. */
  const SpotNames: seq<string> := ["center", "n", "s", "w", "e", "ne", "se", "nw", "sw"]

  /** No two landmarks share a name. */
  lemma SpotNamesDistinct()
    ensures forall i, j :: 0 <= i < j < 9 ==> SpotNames[i] != SpotNames[j]
  {
    forall i, j | 0 <= i < j < 9
      ensures SpotNames[i] != SpotNames[j]
    {
      if |SpotNames[i]| == |SpotNames[j]| {
        assert SpotNames[i][0] != SpotNames[j][0] || SpotNames[i][|SpotNames[i]| - 1] != SpotNames[j][|SpotNames[j]| - 1];
      }
    }
  }

  /** The anchor of landmark `i` on a `w` by `h` grid.  Halves and quarters
      are truncated (`Math.trunc`), which for sizes is integer division.
      The source's "se" anchor is west-north and its "nw" anchor east-south;
      the names are kept as written. */
  function Anchor(i: nat, w: nat, h: nat): (a: Pos)
    requires i < 9
    ensures 0 <= a.x <= w && 0 <= a.y <= h
    ensures w > 0 ==> a.x < w
    ensures h > 0 ==> a.y < h
    ensures a.x == w / 2 || a.x == w / 4 || a.x == (w * 3) / 4
    ensures a.y == h / 2 || a.y == h / 4 || a.y == (h * 3) / 4
  {
    if i == 0 then Pos(w / 2, h / 2)
    else if i == 1 then Pos(w / 2, (h * 3) / 4)
    else if i == 2 then Pos(w / 2, h / 4)
    else if i == 3 then Pos(w / 4, h / 2)
    else if i == 4 then Pos((w * 3) / 4, h / 2)
    else if i == 5 then Pos((w * 3) / 4, (h * 3) / 4)
    else if i == 6 then Pos(w / 4, (h * 3) / 4)
    else if i == 7 then Pos((w * 3) / 4, h / 4)
    else Pos(w / 4, h / 4)
  }

  /** The spot landmark `i` is bound to. */
  function SpotFor(g: Grid, i: nat): Option<Pos>
    requires WF(g) && i < 9
  {
    var a := Anchor(i, g.width, g.height);
    FindClosestSpot(g, a.x, a.y)
  }

  /** `loadExplorationSpots()`: exactly the nine landmark names, in order,
      each bound to the walkable cell nearest its anchor (or null). */
  function LoadExplorationSpots(g: Grid): (t: Table<Option<Pos>>)
    requires WF(g)
    ensures Keys(t) == SpotNames && UniqueKeys(t)
    ensures forall i :: 0 <= i < 9 ==> t[i].1 == SpotFor(g, i)
  {
    var t := seq(9, i requires 0 <= i < 9 && WF(g) => (SpotNames[i], SpotFor(g, i)));
    assert UniqueKeys(t) by {
      SpotNamesDistinct();
    }
    t
  }

  /* ---------------------------------------------------------------------
     Properties
     --------------------------------------------------------------------- */

  /** Every spot that is set is a walkable cell of the grid, nearer its
      anchor than any other walkable cell or tied with it and earlier. */
  lemma SpotsAreWalkable(g: Grid, i: nat)
    requires WF(g) && i < 9
    ensures var s := LoadExplorationSpots(g)[i].1;
      s.Some? ==> InBounds(s.value, g.width, g.height) && Walkable(g, s.value)
  {
    assert LoadExplorationSpots(g)[i].1 == SpotFor(g, i);
  }

  /** The nine spots are all null exactly when the grid has no walkable cell,
      and otherwise none of them is. */
  lemma SpotsNullIffNoWalkable(g: Grid)
    requires WF(g)
    ensures (forall i :: 0 <= i < 9 ==> LoadExplorationSpots(g)[i].1.None?) <==>
      (forall p :: InBounds(p, g.width, g.height) ==> !Walkable(g, p))
    ensures (exists i :: 0 <= i < 9 && LoadExplorationSpots(g)[i].1.None?) ==>
      (forall i :: 0 <= i < 9 ==> LoadExplorationSpots(g)[i].1.None?)
  {
    var t := LoadExplorationSpots(g);
    forall i | 0 <= i < 9
      ensures t[i].1.None? <==> forall p :: InBounds(p, g.width, g.height) ==> !Walkable(g, p)
    {
      assert t[i].1 == SpotFor(g, i);
    }
  }

  /** The nearest-cell answer is determined by the walkability layer alone:
      two grids of the same size and walkable cells give the same answer. */
  lemma ClosestDependsOnWalkable(g1: Grid, g2: Grid, cx: int, cy: int)
    requires WF(g1) && WF(g2) && g1.width == g2.width && g1.height == g2.height && g1.path == g2.path
    ensures FindClosestSpot(g1, cx, cy) == FindClosestSpot(g2, cx, cy)
  {
    var r1 := FindClosestSpot(g1, cx, cy);
    var r2 := FindClosestSpot(g2, cx, cy);
    if r1.Some? && r2.Some? {
      var c := Pos(cx, cy);
      assert Walkable(g2, r1.value) && Walkable(g1, r2.value);
      assert Dist(c, r1.value) == Dist(c, r2.value);
      assert r1.value.x < r2.value.x || (r1.value.x == r2.value.x && r1.value.y <= r2.value.y);
      assert r2.value.x < r1.value.x || (r2.value.x == r1.value.x && r2.value.y <= r1.value.y);
    }
  }

  /** Reloading the landmarks on a grid whose size and walkable cells have
      not changed yields the same nine values, whatever happened to the tag
      layer and the delivery list. */
  lemma ReloadSame(g1: Grid, g2: Grid)
    requires WF(g1) && WF(g2) && g1.width == g2.width && g1.height == g2.height && g1.path == g2.path
    ensures LoadExplorationSpots(g1) == LoadExplorationSpots(g2)
  {
    var t1 := LoadExplorationSpots(g1);
    var t2 := LoadExplorationSpots(g2);
    forall i | 0 <= i < 9
      ensures t1[i] == t2[i]
    {
      var a := Anchor(i, g1.width, g1.height);
      ClosestDependsOnWalkable(g1, g2, a.x, a.y);
      assert t1[i].1 == SpotFor(g1, i) == SpotFor(g2, i) == t2[i].1;
      assert t1[i].0 == Keys(t1)[i] == Keys(t2)[i] == t2[i].0;
    }
    assert |t1| == |Keys(t1)| == 9 == |Keys(t2)| == |t2|;
  }
}
