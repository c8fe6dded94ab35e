/** The Manhattan distance of utils/BenchMark.js.  The source rounds both
    points with `Math.round` (round half up) before subtracting; positions the
    rest of the model works with are already integers, for which `Dist` is the
    same quantity without the rounding. */
module BenchMark {
  import opened Base

  /** A point as JavaScript numbers, before rounding. */
  datatype Point = Point(x: real, y: real)

  /** `Math.round`: the nearest integer, halves rounded towards plus infinity. */
  function Round(r: real): (n: int)
    ensures n as real - 0.5 <= r < n as real + 0.5
  {
    (r + 0.5).Floor
  }

  function Abs(n: int): (a: nat)
    ensures a == n || a == -n
  {
    if n < 0 then -n else n
  }

  /** `L1Distance` on arbitrary numeric points. */
  function L1Distance(a: Point, b: Point): (d: int)
    ensures d == 0 <==> Round(a.x) == Round(b.x) && Round(a.y) == Round(b.y)
    ensures d >= Abs(Round(a.x) - Round(b.x)) && d >= Abs(Round(a.y) - Round(b.y))
  {
    Abs(Round(a.x) - Round(b.x)) + Abs(Round(a.y) - Round(b.y))
  }

  /** Manhattan distance between integer positions. */
  function Dist(p: Pos, q: Pos): nat {
    Abs(p.x - q.x) + Abs(p.y - q.y)
  }

  function ToPoint(p: Pos): Point {
    Point(p.x as real, p.y as real)
  }

  /** Rounding leaves integers alone, so on integer positions `L1Distance`
      is `Dist`. */
  lemma L1OnIntegers(p: Pos, q: Pos)
    ensures L1Distance(ToPoint(p), ToPoint(q)) == Dist(p, q)
  {
    RoundInteger(p.x);
    RoundInteger(q.x);
    RoundInteger(p.y);
    RoundInteger(q.y);
  }

  lemma RoundInteger(n: int)
    ensures Round(n as real) == n
  {
  }

  lemma L1NonNegative(a: Point, b: Point)
    ensures L1Distance(a, b) >= 0
  {
  }

  lemma L1Symmetric(a: Point, b: Point)
    ensures L1Distance(a, b) == L1Distance(b, a)
  {
  }

  /** On integer positions distance zero means the same position. */
  lemma DistZeroIffEqual(p: Pos, q: Pos)
    ensures Dist(p, q) == 0 <==> p == q
  {
  }

  lemma DistTriangle(p: Pos, q: Pos, s: Pos)
    ensures Dist(p, s) <= Dist(p, q) + Dist(q, s)
  {
  }

  /** Neighbourhood in the BFS is exactly Manhattan distance one. */
  lemma NbIsAdjacent(p: Pos, q: Pos)
    ensures Dist(p, q) == 1 <==> exists k :: 0 <= k < 4 && q == Nb(p, k)
  {
    if Dist(p, q) == 1 {
      if q.y == p.y + 1 { assert q == Nb(p, 0); }
      else if q.x == p.x + 1 { assert q == Nb(p, 1); }
      else if q.x == p.x - 1 { assert q == Nb(p, 2); }
      else { assert q == Nb(p, 3); }
    }
  }
}
