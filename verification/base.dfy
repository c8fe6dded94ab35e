/** Shared vocabulary of the agent model: optional values, error outcomes,
    the extended integers that JavaScript's Math.max produces, grid positions,
    the configuration constants, and rectangular matrices indexed [x][y]. */
module Base {

  /** A value that may be absent (JavaScript `null`). */
  datatype Option<T> = None | Some(value: T)

  /** The result of a computation that may throw (a JavaScript TypeError). */
  datatype Result<T> = Ok(value: T) | Err(reason: string)

  /** Integers extended with minus infinity: `Math.max()` of no arguments. */
  datatype ExtInt = NegInf | Fin(n: int)
  {
    predicate Less(other: ExtInt) {
      match (this, other)
      case (NegInf, NegInf) => false
      case (NegInf, Fin(_)) => true
      case (Fin(_), NegInf) => false
      case (Fin(a), Fin(b)) => a < b
    }

    predicate AtMost(other: ExtInt) {
      this == other || Less(other)
    }
  }

  function MaxOf(a: ExtInt, b: ExtInt): (r: ExtInt)
    ensures a.AtMost(r) && b.AtMost(r)
    ensures r == a || r == b
  {
    if a.Less(b) then b else a
  }

  /** `Math.max(...us)`: minus infinity on an empty list, else the largest element. */
  function MaxAll(us: seq<ExtInt>): (r: ExtInt)
    ensures |us| == 0 ==> r == NegInf
    ensures |us| > 0 ==> r in us
    ensures forall i :: 0 <= i < |us| ==> us[i].AtMost(r)
  {
    if |us| == 0 then NegInf else MaxOf(us[0], MaxAll(us[1..]))
  }

  /** Configuration constants of utils/ConsVar.js. */
  const MEMORY_SIZE_LIMIT: nat := 100
  const VIEW_DISTANCE: nat := 4

  /** An integer grid position. */
  datatype Pos = Pos(x: int, y: int)

  /** A believed position of another agent, as the agent store reports it. */
  datatype AgentPosition = AgentPosition(x: int, y: int, isLost: bool)

  predicate InBounds(p: Pos, w: int, h: int) {
    0 <= p.x < w && 0 <= p.y < h
  }

  /** A matrix of `w` rows (x) each holding `h` cells (y). */
  predicate IsMatrix<T>(m: seq<seq<T>>, w: nat, h: nat) {
    |m| == w && forall i :: 0 <= i < w ==> |m[i]| == h
  }

  function At<T>(m: seq<seq<T>>, p: Pos): T
    requires 0 <= p.x < |m| && 0 <= p.y < |m[p.x]|
  {
    m[p.x][p.y]
  }

  /** The matrix `m` with the single cell `p` replaced by `v`. */
  function Put<T>(m: seq<seq<T>>, w: nat, h: nat, p: Pos, v: T): (r: seq<seq<T>>)
    requires IsMatrix(m, w, h) && InBounds(p, w, h)
    ensures IsMatrix(r, w, h)
    ensures forall q :: InBounds(q, w, h) ==> At(r, q) == if q == p then v else At(m, q)
  {
    m[p.x := m[p.x][p.y := v]]
  }

  /** The four neighbours of `p`, in the order the source explores them:
      (0,+1), (+1,0), (-1,0), (0,-1). */
  function Nb(p: Pos, k: int): Pos
    requires 0 <= k < 4
  {
    if k == 0 then Pos(p.x, p.y + 1)
    else if k == 1 then Pos(p.x + 1, p.y)
    else if k == 2 then Pos(p.x - 1, p.y)
    else Pos(p.x, p.y - 1)
  }

  function Opposite(k: int): (j: int)
    requires 0 <= k < 4
    ensures 0 <= j < 4
  {
    3 - k
  }

  lemma NbOpposite(p: Pos, k: int)
    requires 0 <= k < 4
    ensures Nb(Nb(p, k), Opposite(k)) == p
  {
  }
}
