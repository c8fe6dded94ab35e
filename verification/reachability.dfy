/** `getAllReachable` of utils/mapping.js: breadth-first search from a start
    cell over the masked walkability layer, four-connected, giving each cell
    its distance from the start or -1 when it cannot be reached. */
module Reachability {
  import opened Base
  import opened BenchMark
  import opened Mapping

  /* ---------------------------------------------------------------------
     What a reachability matrix promises
     --------------------------------------------------------------------- */

  /** Some neighbour of `p` on the grid holds a value one less. */
  ghost predicate HasCloser(r: seq<seq<int>>, w: nat, h: nat, p: Pos)
    requires IsMatrix(r, w, h) && InBounds(p, w, h)
  {
    exists k :: 0 <= k < 4 && InBounds(Nb(p, k), w, h) && At(r, Nb(p, k)) == At(r, p) - 1
  }

  /** Walkable neighbours of `p` hold a value and are at most one step further. */
  ghost predicate NeighboursClose(r: seq<seq<int>>, m: seq<seq<int>>, w: nat, h: nat, p: Pos)
    requires IsMatrix(r, w, h) && IsMatrix(m, w, h) && InBounds(p, w, h)
  {
    forall k :: (0 <= k < 4 && InBounds(Nb(p, k), w, h) && At(m, Nb(p, k)) != 0) ==>
      0 <= At(r, Nb(p, k)) <= At(r, p) + 1
  }

  /** `r` is a distance map from `s` over the walkable cells of `m`: the start
      is 0, every other value is -1 or in [1, w*h), a reached non-start cell
      is walkable and has a neighbour one step closer, and the walkable
      neighbours of a reached cell are reached and at most one step further. */
  ghost predicate DistanceMap(r: seq<seq<int>>, m: seq<seq<int>>, w: nat, h: nat, s: Pos) {
    && IsMatrix(r, w, h) && IsMatrix(m, w, h) && InBounds(s, w, h)
    && At(r, s) == 0
    && (forall p :: InBounds(p, w, h) && p != s ==> At(r, p) == -1 || 1 <= At(r, p) < w * h)
    && (forall p :: InBounds(p, w, h) && p != s && At(r, p) >= 0 ==> At(m, p) != 0)
    && (forall p :: InBounds(p, w, h) && At(r, p) > 0 ==> HasCloser(r, w, h, p))
    && (forall p :: InBounds(p, w, h) && At(r, p) >= 0 ==> NeighboursClose(r, m, w, h, p))
  }

  /** A four-connected walk from `s` that stays on the grid and, after its
      first cell, only on walkable cells. */
  ghost predicate Walk(m: seq<seq<int>>, w: nat, h: nat, s: Pos, path: seq<Pos>) {
    && IsMatrix(m, w, h)
    && |path| >= 1 && path[0] == s
    && (forall i :: 0 <= i < |path| ==> InBounds(path[i], w, h))
    && (forall i :: 1 <= i < |path| ==> At(m, path[i]) != 0)
    && (forall i :: 0 <= i < |path| - 1 ==> Dist(path[i], path[i + 1]) == 1)
  }

  lemma WalkExtend(m: seq<seq<int>>, w: nat, h: nat, s: Pos, path: seq<Pos>, p: Pos)
    requires Walk(m, w, h, s, path)
    requires InBounds(p, w, h) && At(m, p) != 0 && Dist(path[|path| - 1], p) == 1
    ensures Walk(m, w, h, s, path + [p])
  {
    var path' := path + [p];
    assert forall i :: 0 <= i < |path| ==> path'[i] == path[i];
  }

  lemma WalkPrefix(m: seq<seq<int>>, w: nat, h: nat, s: Pos, path: seq<Pos>)
    requires Walk(m, w, h, s, path) && |path| > 1
    ensures Walk(m, w, h, s, path[..|path| - 1])
  {
  }

  /** No walk is shorter than the value at its end: the value is a lower
      bound on the walking distance, and a cell some walk ends in is reached. */
  lemma {:induction false} WalkBound(r: seq<seq<int>>, m: seq<seq<int>>, w: nat, h: nat, s: Pos, path: seq<Pos>)
    requires DistanceMap(r, m, w, h, s) && Walk(m, w, h, s, path)
    ensures 0 <= At(r, path[|path| - 1]) <= |path| - 1
  {
    if |path| > 1 {
      var prefix := path[..|path| - 1];
      WalkPrefix(m, w, h, s, path);
      WalkBound(r, m, w, h, s, prefix);
      var a := path[|path| - 2];
      var b := path[|path| - 1];
      assert prefix[|prefix| - 1] == a;
      NbIsAdjacent(a, b);
      var k :| 0 <= k < 4 && b == Nb(a, k);
      assert NeighboursClose(r, m, w, h, a);
      assert At(m, Nb(a, k)) != 0;
    }
  }

  /** Every reached cell is the end of a walk exactly as long as its value. */
  lemma {:induction false} WalkExists(r: seq<seq<int>>, m: seq<seq<int>>, w: nat, h: nat, s: Pos, p: Pos)
    returns (path: seq<Pos>)
    requires DistanceMap(r, m, w, h, s) && InBounds(p, w, h) && At(r, p) >= 0
    ensures Walk(m, w, h, s, path) && path[|path| - 1] == p && |path| - 1 == At(r, p)
    decreases At(r, p)
  {
    if At(r, p) == 0 {
      assert p == s;
      path := [s];
    } else {
      assert HasCloser(r, w, h, p);
      var k :| 0 <= k < 4 && InBounds(Nb(p, k), w, h) && At(r, Nb(p, k)) == At(r, p) - 1;
      var q := Nb(p, k);
      var prefix := WalkExists(r, m, w, h, s, q);
      NbOpposite(p, k);
      NbIsAdjacent(q, p);
      assert Dist(q, p) == 1 by {
        assert p == Nb(q, Opposite(k));
      }
      WalkExtend(m, w, h, s, prefix, p);
      path := prefix + [p];
    }
  }

  /** Hence each non-negative value is the length of a shortest walk, and -1
      marks exactly the cells no walk reaches. */
  lemma ReachIsShortest(r: seq<seq<int>>, m: seq<seq<int>>, w: nat, h: nat, s: Pos, p: Pos)
    requires DistanceMap(r, m, w, h, s) && InBounds(p, w, h)
    ensures At(r, p) >= 0 <==> exists path :: Walk(m, w, h, s, path) && path[|path| - 1] == p
    ensures At(r, p) >= 0 ==>
      exists path :: Walk(m, w, h, s, path) && path[|path| - 1] == p && |path| - 1 == At(r, p)
    ensures forall path :: Walk(m, w, h, s, path) && path[|path| - 1] == p ==> At(r, p) <= |path| - 1
    ensures At(r, p) < 0 ==> At(r, p) == -1
  {
    forall path' | Walk(m, w, h, s, path') && path'[|path'| - 1] == p
      ensures 0 <= At(r, p) <= |path'| - 1
    {
      WalkBound(r, m, w, h, s, path');
    }
    if At(r, p) >= 0 {
      var path := WalkExists(r, m, w, h, s, p);
    }
  }

  /* ---------------------------------------------------------------------
     Counting the cells of the grid
     --------------------------------------------------------------------- */

  ghost function AllCells(w: nat, h: nat): set<Pos> {
    set x, y | 0 <= x < w && 0 <= y < h :: Pos(x, y)
  }

  ghost function Column(x: int, h: nat): set<Pos> {
    set y | 0 <= y < h :: Pos(x, y)
  }

  lemma {:induction false} ColumnCard(x: int, h: nat)
    ensures |Column(x, h)| == h
  {
    if h > 0 {
      ColumnCard(x, h - 1);
      assert Column(x, h) == Column(x, h - 1) + {Pos(x, h - 1)};
    }
  }

  /** The grid is its first `w - 1` columns plus the last one, which is disjoint from them. */
  lemma AllCellsSplit(w: nat, h: nat)
    requires w > 0
    ensures AllCells(w, h) == AllCells(w - 1, h) + Column(w - 1, h)
    ensures AllCells(w - 1, h) !! Column(w - 1, h)
  {
  }

  lemma {:induction false} AllCellsCard(w: nat, h: nat)
    ensures |AllCells(w, h)| == w * h
  {
    if w > 0 {
      AllCellsCard(w - 1, h);
      ColumnCard(w - 1, h);
      AllCellsSplit(w, h);
      assert (w - 1) * h + h == w * h;
    }
  }

  lemma SubsetCard(a: set<Pos>, b: set<Pos>)
    requires a <= b
    ensures |a| <= |b|
  {
    assert b == a + (b - a);
  }

  /* ---------------------------------------------------------------------
     The search and its invariant
     --------------------------------------------------------------------- */

  /** Some neighbour of `p` was reached with a label one less. */
  ghost predicate HasPred(R: seq<seq<int>>, w: nat, h: nat, reached: set<Pos>, p: Pos)
    requires IsMatrix(R, w, h) && InBounds(p, w, h)
  {
    exists k :: 0 <= k < 4 && InBounds(Nb(p, k), w, h) && Nb(p, k) in reached
      && At(R, Nb(p, k)) == At(R, p) - 1
  }

  /** Every walkable neighbour of `p` has been reached, at most one further. */
  ghost predicate Closed(m: seq<seq<int>>, R: seq<seq<int>>, w: nat, h: nat, reached: set<Pos>, p: Pos)
    requires IsMatrix(m, w, h) && IsMatrix(R, w, h) && InBounds(p, w, h)
  {
    forall k :: (0 <= k < 4 && InBounds(Nb(p, k), w, h) && At(m, Nb(p, k)) != 0) ==>
      Nb(p, k) in reached && At(R, Nb(p, k)) <= At(R, p) + 1
  }

  /** Shape part of the search invariant. */
  ghost predicate InvShape(m: seq<seq<int>>, w: nat, h: nat, s: Pos, R: seq<seq<int>>, reached: set<Pos>) {
    && IsMatrix(m, w, h) && IsMatrix(R, w, h)
    && InBounds(s, w, h) && s in reached && At(R, s) == 0
    && reached <= AllCells(w, h)
    && (forall p :: p in reached ==> InBounds(p, w, h))
  }

  /** Labels: unreached cells keep their initial value, reached labels are
      below the number of reached cells and, off the start, were set from a
      reached neighbour one closer. */
  ghost predicate InvLabels(m: seq<seq<int>>, w: nat, h: nat, s: Pos, R: seq<seq<int>>, reached: set<Pos>)
    requires InvShape(m, w, h, s, R, reached)
  {
    && (forall p :: (InBounds(p, w, h) && p !in reached) ==> At(R, p) == At(m, p) + w * h)
    && (forall p :: p in reached ==> 0 <= At(R, p) < |reached|)
    && (forall p :: (p in reached && p != s) ==> At(m, p) != 0 && At(R, p) >= 1 && HasPred(R, w, h, reached, p))
  }

  /** The queue holds distinct reached cells, in non-decreasing label order
      spanning at most one, and no reached label exceeds the front's plus one. */
  ghost predicate InvQueue(w: nat, h: nat, R: seq<seq<int>>, Q: seq<Pos>, reached: set<Pos>)
    requires IsMatrix(R, w, h) && forall p :: p in reached ==> InBounds(p, w, h)
  {
    && (forall i :: 0 <= i < |Q| ==> Q[i] in reached && InBounds(Q[i], w, h))
    && (forall i, j :: 0 <= i < j < |Q| ==> Q[i] != Q[j])
    && (forall i, j :: 0 <= i <= j < |Q| ==> At(R, Q[i]) <= At(R, Q[j]) <= At(R, Q[i]) + 1)
    && (|Q| > 0 ==> forall p :: p in reached ==> InBounds(p, w, h) && At(R, p) <= At(R, Q[0]) + 1)
  }

  /** Reached cells that left the queue are closed. */
  ghost predicate InvClosed(m: seq<seq<int>>, w: nat, h: nat, R: seq<seq<int>>, Q: seq<Pos>, reached: set<Pos>)
    requires IsMatrix(m, w, h) && IsMatrix(R, w, h) && forall p :: p in reached ==> InBounds(p, w, h)
  {
    forall p :: (p in reached && p !in Q) ==> Closed(m, R, w, h, reached, p)
  }

  /** The invariant of the first-in-first-out search.  `Q` is the queue,
      `reached` the cells whose label was ever lowered (plus the start). */
  ghost predicate Inv(m: seq<seq<int>>, w: nat, h: nat, s: Pos, R: seq<seq<int>>, Q: seq<Pos>, reached: set<Pos>) {
    && InvShape(m, w, h, s, R, reached)
    && InvLabels(m, w, h, s, R, reached)
    && InvQueue(w, h, R, Q, reached)
    && InvClosed(m, w, h, R, Q, reached)
  }

  ghost predicate Binary(m: seq<seq<int>>, w: nat, h: nat)
    requires IsMatrix(m, w, h)
  {
    forall p :: InBounds(p, w, h) ==> At(m, p) == 0 || At(m, p) == 1
  }

  /** A walkable cell not yet reached still holds a label above every
      reached label plus one, so the search will lower it. */
  lemma UnreachedIsHigh(m: seq<seq<int>>, w: nat, h: nat, s: Pos, R: seq<seq<int>>,
                        reached: set<Pos>, c: Pos, n: Pos)
    requires InvShape(m, w, h, s, R, reached) && InvLabels(m, w, h, s, R, reached)
    requires c in reached && InBounds(n, w, h) && n !in reached && At(m, n) != 0
    requires Binary(m, w, h)
    ensures At(R, n) > At(R, c) + 1
  {
    SubsetCard(reached, AllCells(w, h));
    AllCellsCard(w, h);
  }

  /** Lowering an unreached walkable neighbour of a reached cell keeps every
      reached cell off the start tied to a reached neighbour one closer. */
  lemma RelaxPreds(m: seq<seq<int>>, w: nat, h: nat, s: Pos, R: seq<seq<int>>, reached: set<Pos>, c: Pos, k: int)
    requires InvShape(m, w, h, s, R, reached) && InvLabels(m, w, h, s, R, reached)
    requires c in reached && 0 <= k < 4 && InBounds(Nb(c, k), w, h) && Nb(c, k) !in reached
    requires At(m, Nb(c, k)) != 0
    ensures var R', reached' := Put(R, w, h, Nb(c, k), At(R, c) + 1), reached + {Nb(c, k)};
      forall p :: (p in reached' && p != s) ==> At(m, p) != 0 && At(R', p) >= 1 && HasPred(R', w, h, reached', p)
  {
    var n := Nb(c, k);
    var R' := Put(R, w, h, n, At(R, c) + 1);
    var reached' := reached + {n};
    NbOpposite(c, k);
    assert HasPred(R', w, h, reached', n) by {
      assert Nb(n, Opposite(k)) == c;
    }
    forall p | p in reached' && p != s
      ensures At(m, p) != 0 && At(R', p) >= 1 && HasPred(R', w, h, reached', p)
    {
      if p != n {
        assert HasPred(R, w, h, reached, p);
        var j :| 0 <= j < 4 && InBounds(Nb(p, j), w, h) && Nb(p, j) in reached
          && At(R, Nb(p, j)) == At(R, p) - 1;
        assert Nb(p, j) in reached';
      }
    }
  }

  lemma RelaxLabels(m: seq<seq<int>>, w: nat, h: nat, s: Pos, R: seq<seq<int>>, reached: set<Pos>, c: Pos, k: int)
    requires InvShape(m, w, h, s, R, reached) && InvLabels(m, w, h, s, R, reached)
    requires c in reached && 0 <= k < 4 && InBounds(Nb(c, k), w, h) && Nb(c, k) !in reached
    requires At(m, Nb(c, k)) != 0
    ensures InvShape(m, w, h, s, Put(R, w, h, Nb(c, k), At(R, c) + 1), reached + {Nb(c, k)})
    ensures InvLabels(m, w, h, s, Put(R, w, h, Nb(c, k), At(R, c) + 1), reached + {Nb(c, k)})
  {
    assert Nb(c, k) in AllCells(w, h);
    PutKeepsUnreached(m, R, w, h, reached, Nb(c, k), At(R, c) + 1);
    PutBelowCount(R, w, h, reached, Nb(c, k), At(R, c) + 1);
    RelaxPreds(m, w, h, s, R, reached, c, k);
  }

  /** Labelling a new cell leaves the other unreached cells at their initial value. */
  lemma PutKeepsUnreached(m: seq<seq<int>>, R: seq<seq<int>>, w: nat, h: nat, reached: set<Pos>, n: Pos, v: int)
    requires IsMatrix(m, w, h) && IsMatrix(R, w, h) && InBounds(n, w, h)
    requires forall p :: (InBounds(p, w, h) && p !in reached) ==> At(R, p) == At(m, p) + w * h
    ensures forall p :: (InBounds(p, w, h) && p !in reached + {n}) ==> At(Put(R, w, h, n, v), p) == At(m, p) + w * h
  {
  }

  /** Labelling a new cell with at most the number of reached cells keeps
      every reached label below the new number of reached cells. */
  lemma PutBelowCount(R: seq<seq<int>>, w: nat, h: nat, reached: set<Pos>, n: Pos, v: int)
    requires IsMatrix(R, w, h) && InBounds(n, w, h) && n !in reached && 0 <= v <= |reached|
    requires forall p :: p in reached ==> InBounds(p, w, h) && 0 <= At(R, p) < |reached|
    ensures forall p :: p in reached + {n} ==> 0 <= At(Put(R, w, h, n, v), p) < |reached + {n}|
  {
    assert |reached + {n}| == |reached| + 1;
  }

  lemma RelaxQueue(w: nat, h: nat, R: seq<seq<int>>, Q: seq<Pos>, reached: set<Pos>, k: int)
    requires IsMatrix(R, w, h) && forall p :: p in reached ==> InBounds(p, w, h)
    requires InvQueue(w, h, R, Q, reached) && |Q| > 0 && 0 <= k < 4
    requires InBounds(Nb(Q[0], k), w, h) && Nb(Q[0], k) !in reached
    ensures InvQueue(w, h, Put(R, w, h, Nb(Q[0], k), At(R, Q[0]) + 1), Q + [Nb(Q[0], k)], reached + {Nb(Q[0], k)})
  {
    var n := Nb(Q[0], k);
    var R' := Put(R, w, h, n, At(R, Q[0]) + 1);
    var Q' := Q + [n];
    assert forall i :: 0 <= i < |Q| ==> Q'[i] == Q[i] && At(R', Q[i]) == At(R, Q[i]);
  }

  lemma RelaxClosed(m: seq<seq<int>>, w: nat, h: nat, R: seq<seq<int>>, Q: seq<Pos>, reached: set<Pos>, n: Pos, v: int)
    requires IsMatrix(m, w, h) && IsMatrix(R, w, h) && forall p :: p in reached ==> InBounds(p, w, h)
    requires InvClosed(m, w, h, R, Q, reached)
    requires InBounds(n, w, h) && n !in reached
    ensures InvClosed(m, w, h, Put(R, w, h, n, v), Q + [n], reached + {n})
  {
    var R' := Put(R, w, h, n, v);
    forall p | p in reached + {n} && p !in Q + [n]
      ensures Closed(m, R', w, h, reached + {n}, p)
    {
      assert p in reached && p !in Q;
      assert Closed(m, R, w, h, reached, p);
    }
  }

  /** Lowering the label of an unreached walkable neighbour of the front and
      appending it to the queue keeps the invariant. */
  lemma RelaxStep(m: seq<seq<int>>, w: nat, h: nat, s: Pos, R: seq<seq<int>>, Q: seq<Pos>,
                  reached: set<Pos>, k: int)
    requires Inv(m, w, h, s, R, Q, reached) && |Q| > 0 && 0 <= k < 4
    requires InBounds(Nb(Q[0], k), w, h) && At(m, Nb(Q[0], k)) != 0
    requires At(R, Nb(Q[0], k)) > At(R, Q[0]) + 1
    ensures Nb(Q[0], k) !in reached && reached + {Nb(Q[0], k)} <= AllCells(w, h)
    ensures Inv(m, w, h, s, Put(R, w, h, Nb(Q[0], k), At(R, Q[0]) + 1), Q + [Nb(Q[0], k)], reached + {Nb(Q[0], k)})
    ensures forall p :: p in reached ==> At(Put(R, w, h, Nb(Q[0], k), At(R, Q[0]) + 1), p) == At(R, p)
  {
    var n := Nb(Q[0], k);
    assert Q[0] in reached;
    assert n in AllCells(w, h);
    RelaxLabels(m, w, h, s, R, reached, Q[0], k);
    RelaxQueue(w, h, R, Q, reached, k);
    RelaxClosed(m, w, h, R, Q, reached, n, At(R, Q[0]) + 1);
  }

  /** Dropping a closed front from the queue keeps the invariant. */
  lemma PopStep(m: seq<seq<int>>, w: nat, h: nat, s: Pos, R: seq<seq<int>>, Q: seq<Pos>, reached: set<Pos>)
    requires Inv(m, w, h, s, R, Q, reached) && |Q| > 0
    requires Closed(m, R, w, h, reached, Q[0])
    ensures Inv(m, w, h, s, R, Q[1..], reached)
  {
    var c := Q[0];
    assert forall i :: 0 <= i < |Q| - 1 ==> Q[1..][i] == Q[i + 1];
    assert c !in Q[1..];
    forall p | p in reached && p !in Q[1..]
      ensures Closed(m, R, w, h, reached, p)
    {
      if p != c {
        assert p !in Q;
      }
    }
    if |Q| > 1 {
      assert At(R, Q[0]) <= At(R, Q[1]);
    }
  }

  /** Cells still at or above `limit` become -1. */
  function Finalize(R: seq<seq<int>>, w: nat, h: nat, limit: int): (r: seq<seq<int>>)
    requires IsMatrix(R, w, h)
    ensures IsMatrix(r, w, h)
    ensures forall p :: InBounds(p, w, h) ==> At(r, p) == if At(R, p) >= limit then -1 else At(R, p)
  {
    seq(w, i requires 0 <= i < w => seq(h, j requires 0 <= j < h => if R[i][j] >= limit then -1 else R[i][j]))
  }

  /** The initial matrix: every cell holds its masked value plus w*h. */
  function Initial(m: seq<seq<int>>, w: nat, h: nat): (r: seq<seq<int>>)
    requires IsMatrix(m, w, h)
    ensures IsMatrix(r, w, h)
    ensures forall p :: InBounds(p, w, h) ==> At(r, p) == At(m, p) + w * h
  {
    seq(w, i requires 0 <= i < w => seq(h, j requires 0 <= j < h => m[i][j] + w * h))
  }

  lemma FinalIsDistanceMap(m: seq<seq<int>>, w: nat, h: nat, s: Pos, R: seq<seq<int>>, reached: set<Pos>)
    requires Inv(m, w, h, s, R, [], reached) && Binary(m, w, h)
    ensures DistanceMap(Finalize(R, w, h, w * h), m, w, h, s)
  {
    var r := Finalize(R, w, h, w * h);
    SubsetCard(reached, AllCells(w, h));
    AllCellsCard(w, h);
    assert forall p :: InBounds(p, w, h) ==> (At(r, p) >= 0 <==> p in reached);
    assert forall p :: p in reached ==> At(r, p) == At(R, p);
    forall p | InBounds(p, w, h) && At(r, p) > 0
      ensures HasCloser(r, w, h, p)
    {
      assert p in reached && p != s;
      assert HasPred(R, w, h, reached, p);
      var k :| 0 <= k < 4 && InBounds(Nb(p, k), w, h) && Nb(p, k) in reached
        && At(R, Nb(p, k)) == At(R, p) - 1;
      assert At(r, Nb(p, k)) == At(r, p) - 1;
    }
    forall p | InBounds(p, w, h) && At(r, p) >= 0
      ensures NeighboursClose(r, m, w, h, p)
    {
      assert p in reached;
      assert Closed(m, R, w, h, reached, p);
    }
  }

  /** A neighbour of the front that is not lowered is already reached and
      at most one step further. */
  lemma KeepStep(m: seq<seq<int>>, w: nat, h: nat, s: Pos, R: seq<seq<int>>, Q: seq<Pos>,
                 reached: set<Pos>, k: int)
    requires Inv(m, w, h, s, R, Q, reached) && Binary(m, w, h) && |Q| > 0 && 0 <= k < 4
    requires InBounds(Nb(Q[0], k), w, h) && At(m, Nb(Q[0], k)) != 0
    requires At(R, Nb(Q[0], k)) <= At(R, Q[0]) + 1
    ensures Nb(Q[0], k) in reached
  {
    assert Q[0] in reached;
    if Nb(Q[0], k) !in reached {
      UnreachedIsHigh(m, w, h, s, R, reached, Q[0], Nb(Q[0], k));
    }
  }

  /** One step of the inner loop of the search: look at neighbour `k` of the
      front cell and, if it is walkable and its label can be lowered, lower it
      and append it to the queue.  The source has already shifted the front
      off the queue at this point; keeping it there until the round ends
      gives the same queue afterwards. */
  method Relax(masked: seq<seq<int>>, w: nat, h: nat, start: Pos, R: seq<seq<int>>,
               queue: seq<Pos>, ghost reached: set<Pos>, k: int)
    returns (R': seq<seq<int>>, queue': seq<Pos>, ghost reached': set<Pos>)
    requires Inv(masked, w, h, start, R, queue, reached) && Binary(masked, w, h)
    requires |queue| > 0 && 0 <= k < 4
    ensures Inv(masked, w, h, start, R', queue', reached')
    ensures |queue'| > 0 && queue'[0] == queue[0]
    ensures reached <= reached' <= AllCells(w, h)
    ensures reached' == reached ==> queue' == queue
    ensures forall p :: p in reached ==> At(R', p) == At(R, p)
    ensures (InBounds(Nb(queue[0], k), w, h) && At(masked, Nb(queue[0], k)) != 0) ==>
      Nb(queue[0], k) in reached' && At(R', Nb(queue[0], k)) <= At(R, queue[0]) + 1
  {
    R', queue', reached' := R, queue, reached;
    var current := queue[0];
    var next := Nb(current, k);
    if next.x >= 0 && next.y >= 0 && next.x < w && next.y < h && At(masked, next) != 0 {
      var weight := At(R, current);
      var nextWeight := At(R, next);
      if nextWeight > weight + 1 {
        RelaxStep(masked, w, h, start, R, queue, reached, k);
        R' := Put(R, w, h, next, weight + 1);
        queue' := queue + [next];
        reached' := reached + {next};
      } else {
        KeepStep(masked, w, h, start, R, queue, reached, k);
      }
    }
  }

  /** One round of the outer loop: relax the four neighbours of the front
      in order, then drop the front. */
  method Expand(masked: seq<seq<int>>, w: nat, h: nat, start: Pos, R: seq<seq<int>>,
                queue: seq<Pos>, ghost reached: set<Pos>)
    returns (R': seq<seq<int>>, queue': seq<Pos>, ghost reached': set<Pos>)
    requires Inv(masked, w, h, start, R, queue, reached) && Binary(masked, w, h) && |queue| > 0
    ensures Inv(masked, w, h, start, R', queue', reached')
    ensures reached <= reached' <= AllCells(w, h)
    ensures reached' == reached ==> |queue'| < |queue|
  {
    var current := queue[0];
    var weight := At(R, current);
    R', queue', reached' := R, queue, reached;
    var k := 0;
    while k < 4
      invariant 0 <= k <= 4
      invariant Inv(masked, w, h, start, R', queue', reached')
      invariant |queue'| > 0 && queue'[0] == current && At(R', current) == weight
      invariant forall j :: (0 <= j < k && InBounds(Nb(current, j), w, h) && At(masked, Nb(current, j)) != 0) ==>
        Nb(current, j) in reached' && At(R', Nb(current, j)) <= weight + 1
      invariant reached <= reached' <= AllCells(w, h)
      invariant reached' == reached ==> queue' == queue
    {
      ghost var reached0 := reached';
      R', queue', reached' := Relax(masked, w, h, start, R', queue', reached', k);
      forall j | 0 <= j < k + 1 && InBounds(Nb(current, j), w, h) && At(masked, Nb(current, j)) != 0
        ensures Nb(current, j) in reached' && At(R', Nb(current, j)) <= weight + 1
      {
        if j < k {
          assert Nb(current, j) in reached0;
        }
      }
      k := k + 1;
    }
    PopStep(masked, w, h, start, R', queue', reached');
    queue' := queue'[1..];
  }

  lemma ShrinkRemaining(all: set<Pos>, r: set<Pos>, r': set<Pos>)
    requires r <= r' <= all && r != r'
    ensures all - r' < all - r
  {
    var x :| x in r' && x !in r;
    assert x in all - r && x !in all - r';
  }

  /** `getAllReachable(start, my_position, agent_positions)`: the returned
      matrix is a distance map from the start over the masked layer. */
  method GetAllReachable(g: Grid, start: Pos, agents: seq<AgentPosition>) returns (r: seq<seq<int>>)
    requires WF(g) && InBounds(start, g.width, g.height)
    ensures IsMatrix(r, g.width, g.height)
    ensures At(r, start) == 0
    ensures forall p :: (InBounds(p, g.width, g.height) && p != start) ==>
      At(r, p) == -1 || 1 <= At(r, p) < g.width * g.height
    ensures forall p :: (InBounds(p, g.width, g.height) && p != start && At(r, p) >= 0) ==>
      At(MaskedLayout(g, agents), p) != 0
    ensures DistanceMap(r, MaskedLayout(g, agents), g.width, g.height, start)
  {
    var w := g.width;
    var h := g.height;
    var masked := MaskedLayout(g, agents);
    var R := Initial(masked, w, h);
    var queue := [start];
    R := Put(R, w, h, start, 0);
    ghost var reached := {start};
    assert start in AllCells(w, h);

    while |queue| > 0
      invariant Inv(masked, w, h, start, R, queue, reached)
      decreases AllCells(w, h) - reached, |queue|
    {
      ghost var before := reached;
      R, queue, reached := Expand(masked, w, h, start, R, queue, reached);
      if reached != before {
        ShrinkRemaining(AllCells(w, h), before, reached);
      }
    }

    FinalIsDistanceMap(masked, w, h, start, R, reached);
    r := Finalize(R, w, h, w * h);
  }
}
