/** The grid engine of utils/mapping.js: two parallel layers indexed [x][y]
    (walkability 0/1 and tags 'E'/'P'/'D') that grow as tiles are discovered,
    the list of delivery spots, obstacle masking, and the nearest walkable cell
    to an anchor.  The getters `getWidth`, `getHeight` and `getDeliverySpots`
    are the fields `width`, `height` and `delivery` of `Grid`. */
module Mapping {
  import opened Base
  import opened BenchMark

  datatype Grid = Grid(path: seq<seq<int>>, logical: seq<seq<char>>, delivery: seq<Pos>,
                       width: nat, height: nat)

  /** The empty map the constructor starts from. */
  const EmptyGrid := Grid([], [], [], 0, 0)

  predicate IsTag(c: char) { c == 'E' || c == 'P' || c == 'D' }

  /** Both layers are `width` rows of `height` cells, walkability is 0/1,
      tags are 'E'/'P'/'D', and every delivery spot lies on the grid. */
  ghost predicate WF(g: Grid) {
    && IsMatrix(g.path, g.width, g.height)
    && IsMatrix(g.logical, g.width, g.height)
    && (forall p :: InBounds(p, g.width, g.height) ==> At(g.path, p) == 0 || At(g.path, p) == 1)
    && (forall p :: InBounds(p, g.width, g.height) ==> IsTag(At(g.logical, p)))
    && (forall i :: 0 <= i < |g.delivery| ==> InBounds(g.delivery[i], g.width, g.height))
  }

  lemma EmptyGridWF()
    ensures WF(EmptyGrid)
  {
  }

  /** Two matrices of one shape that agree on every cell are equal. */
  lemma MatrixExt<T>(a: seq<seq<T>>, b: seq<seq<T>>, w: nat, h: nat)
    requires IsMatrix(a, w, h) && IsMatrix(b, w, h)
    requires forall p :: InBounds(p, w, h) ==> At(a, p) == At(b, p)
    ensures a == b
  {
    forall i | 0 <= i < w
      ensures a[i] == b[i]
    {
      forall j | 0 <= j < h
        ensures a[i][j] == b[i][j]
      {
        assert At(a, Pos(i, j)) == At(b, Pos(i, j));
      }
    }
  }

  /** Grows `m` to `w2` rows of `h2` cells, padding with `fill`. */
  function Grow<T>(m: seq<seq<T>>, w: nat, h: nat, w2: nat, h2: nat, fill: T): (r: seq<seq<T>>)
    requires IsMatrix(m, w, h) && w <= w2 && h <= h2
    ensures IsMatrix(r, w2, h2)
    ensures forall p :: InBounds(p, w2, h2) ==>
      At(r, p) == if InBounds(p, w, h) then At(m, p) else fill
  {
    seq(w2, i requires 0 <= i < w2 =>
      if i < w then m[i] + seq(h2 - h, _ => fill) else seq(h2, _ => fill))
  }

  function Max(a: nat, b: nat): nat { if a < b then b else a }

  /** `updateWidthAndHeight(x, y)`: widen to `x` rows and lengthen every row
      to `y` cells when those exceed the current size; new cells are walls
      (0) tagged empty ('E'). */
  function UpdateWidthAndHeight(g: Grid, x: nat, y: nat): (r: Grid)
    requires WF(g)
    ensures WF(r)
    ensures r.width == Max(g.width, x) && r.height == Max(g.height, y)
    ensures r.width >= g.width && r.height >= g.height
    ensures forall p :: InBounds(p, r.width, r.height) ==>
      (InBounds(p, g.width, g.height) ==> At(r.path, p) == At(g.path, p) && At(r.logical, p) == At(g.logical, p))
      && (!InBounds(p, g.width, g.height) ==> At(r.path, p) == 0 && At(r.logical, p) == 'E')
    ensures r.delivery == g.delivery
  {
    var w2 := Max(g.width, x);
    var h2 := Max(g.height, y);
    Grid(Grow(g.path, g.width, g.height, w2, h2, 0),
         Grow(g.logical, g.width, g.height, w2, h2, 'E'),
         g.delivery, w2, h2)
  }

  /** `updateLayout(x, y, is_delivery)`: the tile (x, y) becomes walkable and
      is tagged 'D' or 'P'; a delivery tile is appended to the spot list. */
  function UpdateLayout(g: Grid, x: nat, y: nat, isDelivery: bool): (r: Grid)
    requires WF(g)
    ensures WF(r)
    ensures r.width == Max(g.width, x + 1) && r.height == Max(g.height, y + 1)
    ensures At(r.path, Pos(x, y)) == 1
    ensures At(r.logical, Pos(x, y)) == if isDelivery then 'D' else 'P'
    ensures forall p :: InBounds(p, r.width, r.height) && p != Pos(x, y) ==>
      (InBounds(p, g.width, g.height) ==> At(r.path, p) == At(g.path, p) && At(r.logical, p) == At(g.logical, p))
      && (!InBounds(p, g.width, g.height) ==> At(r.path, p) == 0 && At(r.logical, p) == 'E')
    ensures r.delivery == if isDelivery then g.delivery + [Pos(x, y)] else g.delivery
  {
    var g1 := UpdateWidthAndHeight(g, x + 1, y + 1);
    var p := Pos(x, y);
    Grid(Put(g1.path, g1.width, g1.height, p, 1),
         Put(g1.logical, g1.width, g1.height, p, if isDelivery then 'D' else 'P'),
         if isDelivery then g1.delivery + [p] else g1.delivery,
         g1.width, g1.height)
  }

  /** Dimensions never shrink and discovered cells stay discovered. */
  lemma {:induction false} UpdateLayoutMonotone(g: Grid, x: nat, y: nat, d: bool, p: Pos)
    requires WF(g) && InBounds(p, g.width, g.height) && At(g.path, p) == 1
    ensures UpdateLayout(g, x, y, d).width >= g.width
    ensures UpdateLayout(g, x, y, d).height >= g.height
    ensures At(UpdateLayout(g, x, y, d).path, p) == 1
  {
  }

  /** Discovering the same tile twice leaves both layers and the size as they
      were; only the delivery list gains a duplicate entry. */
  lemma UpdateLayoutIdempotent(g: Grid, x: nat, y: nat, d: bool)
    requires WF(g)
    ensures var g1 := UpdateLayout(g, x, y, d);
            var g2 := UpdateLayout(g1, x, y, d);
            g2.path == g1.path && g2.logical == g1.logical
            && g2.width == g1.width && g2.height == g1.height
            && g2.delivery == if d then g1.delivery + [Pos(x, y)] else g1.delivery
  {
    var g1 := UpdateLayout(g, x, y, d);
    var g2 := UpdateLayout(g1, x, y, d);
    MatrixExt(g2.path, g1.path, g1.width, g1.height);
    MatrixExt(g2.logical, g1.logical, g1.width, g1.height);
  }

  /** Some believed agent stands on `p`. */
  predicate AgentOn(agents: seq<AgentPosition>, p: Pos) {
    exists i :: 0 <= i < |agents| && agents[i].x == p.x && agents[i].y == p.y
  }

  function MaskAll(m: seq<seq<int>>, w: nat, h: nat, agents: seq<AgentPosition>): (r: seq<seq<int>>)
    requires IsMatrix(m, w, h)
    ensures IsMatrix(r, w, h)
    ensures forall p :: InBounds(p, w, h) ==>
      At(r, p) == if AgentOn(agents, p) then 0 else At(m, p)
    decreases |agents|
  {
    if |agents| == 0 then m
    else
      var a := agents[0];
      var m1 := if InBounds(Pos(a.x, a.y), w, h) then Put(m, w, h, Pos(a.x, a.y), 0) else m;
      var r := MaskAll(m1, w, h, agents[1..]);
      assert forall p :: AgentOn(agents, p) <==> (p == Pos(a.x, a.y) || AgentOn(agents[1..], p)) by {
        forall p ensures AgentOn(agents, p) <==> (p == Pos(a.x, a.y) || AgentOn(agents[1..], p)) {
          if AgentOn(agents, p) && p != Pos(a.x, a.y) {
            var i :| 0 <= i < |agents| && agents[i].x == p.x && agents[i].y == p.y;
            assert agents[1..][i - 1] == agents[i];
          }
          if AgentOn(agents[1..], p) {
            var i :| 0 <= i < |agents[1..]| && agents[1..][i].x == p.x && agents[1..][i].y == p.y;
            assert agents[i + 1] == agents[1..][i];
          }
        }
      }
      r
  }

  /** `getMaskedPathLayout`: a copy of the walkability layer in which every
      cell occupied by a believed agent is a wall.  The source tests a field
      `lost` that positions do not carry, so the lost flag never spares a cell. */
  function MaskedLayout(g: Grid, agents: seq<AgentPosition>): (r: seq<seq<int>>)
    requires WF(g)
    ensures IsMatrix(r, g.width, g.height)
    ensures forall p :: InBounds(p, g.width, g.height) ==>
      At(r, p) == if AgentOn(agents, p) then 0 else At(g.path, p)
    ensures forall p :: InBounds(p, g.width, g.height) ==> At(r, p) == 0 || At(r, p) == 1
  {
    MaskAll(g.path, g.width, g.height, agents)
  }

  /** The lost flag of a believed agent has no effect on the masked layout. */
  lemma MaskIgnoresLostFlag(g: Grid, agents: seq<AgentPosition>, i: nat)
    requires WF(g) && i < |agents|
    ensures MaskedLayout(g, agents[i := agents[i].(isLost := !agents[i].isLost)]) == MaskedLayout(g, agents)
  {
    var flipped := agents[i := agents[i].(isLost := !agents[i].isLost)];
    forall p | InBounds(p, g.width, g.height)
      ensures At(MaskedLayout(g, flipped), p) == At(MaskedLayout(g, agents), p)
    {
      if AgentOn(agents, p) {
        var j :| 0 <= j < |agents| && agents[j].x == p.x && agents[j].y == p.y;
        assert flipped[j].x == p.x && flipped[j].y == p.y;
      }
      if AgentOn(flipped, p) {
        var j :| 0 <= j < |flipped| && flipped[j].x == p.x && flipped[j].y == p.y;
        assert agents[j].x == p.x && agents[j].y == p.y;
      }
    }
    MatrixExt(MaskedLayout(g, flipped), MaskedLayout(g, agents), g.width, g.height);
  }

  predicate Walkable(g: Grid, p: Pos)
    requires WF(g) && InBounds(p, g.width, g.height)
  {
    At(g.path, p) != 0
  }

  lemma MulMono(a: int, b: int, h: nat)
    requires a <= b
    ensures a * h <= b * h
  {
    assert b * h - a * h == (b - a) * h;
  }

  /** Division by the row length recovers (x, y) from a scan position. */
  lemma DivModUnique(k: int, x: int, y: int, h: int)
    requires h > 0 && 0 <= y < h && k == x * h + y
    ensures k / h == x && k % h == y
  {
    var q := k / h;
    var r := k % h;
    assert k == q * h + r;
    if q < x {
      MulMono(q + 1, x, h);
    } else if q > x {
      MulMono(x + 1, q, h);
    }
  }

  lemma DivBound(j: nat, w: nat, h: nat)
    requires h > 0 && j < w * h
    ensures j / h < w
  {
    var q := j / h;
    assert j == q * h + j % h;
    if q >= w {
      MulMono(w, q, h);
    }
  }

  /** The `k`-th cell of the source's scan, x outer and y inner. */
  function Cell(g: Grid, k: nat): (p: Pos)
    requires k < g.width * g.height
    ensures InBounds(p, g.width, g.height)
  {
    DivBound(k, g.width, g.height);
    Pos(k / g.height, k % g.height)
  }

  /** Scan position of an on-grid cell. */
  function Index(g: Grid, p: Pos): (k: nat)
    requires InBounds(p, g.width, g.height)
    ensures k < g.width * g.height && Cell(g, k) == p
  {
    var k := p.x * g.height + p.y;
    MulMono(p.x, g.width - 1, g.height);
    assert (g.width - 1) * g.height + g.height == g.width * g.height;
    DivModUnique(k, p.x, p.y, g.height);
    k
  }

  /** Scan order is the lexicographic order on (x, y). */
  lemma IndexOrder(g: Grid, p: Pos, q: Pos)
    requires InBounds(p, g.width, g.height) && InBounds(q, g.width, g.height)
    ensures Index(g, p) <= Index(g, q) <==> p.x < q.x || (p.x == q.x && p.y <= q.y)
  {
    if p.x < q.x {
      MulMono(p.x + 1, q.x, g.height);
      assert (p.x + 1) * g.height == p.x * g.height + g.height;
    } else if p.x > q.x {
      MulMono(q.x + 1, p.x, g.height);
      assert (q.x + 1) * g.height == q.x * g.height + g.height;
    }
  }

  /** The cell the scan holds after visiting its first `k` cells: the first
      walkable cell at strictly smaller distance than every earlier pick. */
  function ScanBest(g: Grid, c: Pos, k: nat): (r: Option<nat>)
    requires WF(g) && k <= g.width * g.height
    ensures r.Some? ==> r.value < k
  {
    if k == 0 then None
    else
      var prev := ScanBest(g, c, k - 1);
      var p := Cell(g, k - 1);
      if Walkable(g, p) && (prev.None? || Dist(c, p) < Dist(c, Cell(g, prev.value))) then Some(k - 1)
      else prev
  }

  /** After `k` cells the scan holds nothing exactly when none of them is
      walkable, and otherwise a walkable one nearest the centre, strictly
      nearer than every walkable cell before it. */
  lemma {:induction false} ScanBestSpec(g: Grid, c: Pos, k: nat)
    requires WF(g) && k <= g.width * g.height
    ensures var r := ScanBest(g, c, k);
      && (r.None? <==> forall j :: 0 <= j < k ==> !Walkable(g, Cell(g, j)))
      && (r.Some? ==> Walkable(g, Cell(g, r.value)))
      && (r.Some? ==> forall j :: 0 <= j < k && Walkable(g, Cell(g, j)) ==>
            Dist(c, Cell(g, r.value)) <= Dist(c, Cell(g, j)))
      && (r.Some? ==> forall j :: 0 <= j < r.value && Walkable(g, Cell(g, j)) ==>
            Dist(c, Cell(g, r.value)) < Dist(c, Cell(g, j)))
    decreases k
  {
    if k > 0 {
      ScanBestSpec(g, c, k - 1);
    }
  }

  lemma ScanNoneAll(g: Grid, c: Pos)
    requires WF(g) && ScanBest(g, c, g.width * g.height).None?
    ensures forall p :: InBounds(p, g.width, g.height) ==> !Walkable(g, p)
  {
    ScanBestSpec(g, c, g.width * g.height);
    forall p | InBounds(p, g.width, g.height) ensures !Walkable(g, p) {
      assert Cell(g, Index(g, p)) == p;
    }
  }

  lemma ScanSomeBest(g: Grid, c: Pos, k: nat, q: Pos)
    requires WF(g) && ScanBest(g, c, g.width * g.height) == Some(k)
    requires InBounds(q, g.width, g.height) && Walkable(g, q)
    ensures Dist(c, Cell(g, k)) <= Dist(c, q)
    ensures Dist(c, q) == Dist(c, Cell(g, k)) ==>
      Cell(g, k).x < q.x || (Cell(g, k).x == q.x && Cell(g, k).y <= q.y)
  {
    ScanBestSpec(g, c, g.width * g.height);
    var j := Index(g, q);
    assert Cell(g, j) == q;
    assert Dist(c, Cell(g, k)) <= Dist(c, Cell(g, j));
    var best := Cell(g, k);
    assert InBounds(best, g.width, g.height);
    var kb := Index(g, best);
    assert Cell(g, kb) == Cell(g, k);
    assert kb == k by {
      CellInjective(g, kb, k);
    }
    if Dist(c, q) == Dist(c, best) {
      assert !(j < k);
      IndexOrder(g, best, q);
    }
  }

  lemma CellInjective(g: Grid, a: nat, b: nat)
    requires a < g.width * g.height && b < g.width * g.height
    requires Cell(g, a) == Cell(g, b)
    ensures a == b
  {
    var h := g.height;
    assert a == (a / h) * h + a % h;
    assert b == (b / h) * h + b % h;
  }

  /** `findClosestSpotFromCenter(cx, cy)`: null exactly when no cell is
      walkable; otherwise a walkable cell nearest the anchor, the first such
      in x-then-y scan order. */
  function FindClosestSpot(g: Grid, cx: int, cy: int): (r: Option<Pos>)
    requires WF(g)
    ensures r.None? <==> forall p :: InBounds(p, g.width, g.height) ==> !Walkable(g, p)
    ensures r.Some? ==> InBounds(r.value, g.width, g.height) && Walkable(g, r.value)
    ensures r.Some? ==> forall q :: InBounds(q, g.width, g.height) && Walkable(g, q) ==>
      Dist(Pos(cx, cy), r.value) <= Dist(Pos(cx, cy), q)
    ensures r.Some? ==> forall q :: (InBounds(q, g.width, g.height) && Walkable(g, q)
      && Dist(Pos(cx, cy), q) == Dist(Pos(cx, cy), r.value)) ==>
      r.value.x < q.x || (r.value.x == q.x && r.value.y <= q.y)
  {
    var c := Pos(cx, cy);
    match ScanBest(g, c, g.width * g.height)
    case None =>
      ScanNoneAll(g, c);
      None
    case Some(k) =>
      assert Walkable(g, Cell(g, k)) by {
        ScanBestSpec(g, c, g.width * g.height);
      }
      assert forall q :: InBounds(q, g.width, g.height) && Walkable(g, q) ==>
        Dist(c, Cell(g, k)) <= Dist(c, q) by {
        forall q | InBounds(q, g.width, g.height) && Walkable(g, q)
          ensures Dist(c, Cell(g, k)) <= Dist(c, q) {
          ScanSomeBest(g, c, k, q);
        }
      }
      assert forall q :: (InBounds(q, g.width, g.height) && Walkable(g, q)
        && Dist(c, q) == Dist(c, Cell(g, k))) ==>
        Cell(g, k).x < q.x || (Cell(g, k).x == q.x && Cell(g, k).y <= q.y) by {
        forall q | InBounds(q, g.width, g.height) && Walkable(g, q) && Dist(c, q) == Dist(c, Cell(g, k))
          ensures Cell(g, k).x < q.x || (Cell(g, k).x == q.x && Cell(g, k).y <= q.y) {
          ScanSomeBest(g, c, k, q);
        }
      }
      Some(Cell(g, k))
  }
}
