/** The planning layer of Agent/plan.js: the planning problem built from the
    reachability map and the goal (as sets of facts rather than PDDL text),
    reading the solver's steps into an action list and a path of target
    cells, and the plan queries the control loop uses. */
module Plan {
  import opened Base
  import opened BenchMark
  import opened ParcelSense
  import opened Desires
  import opened Intentions

  /* ---------------------------------------------------------------------
     The planning problem
     --------------------------------------------------------------------- */

  /** The ground facts of the problem.  Cells stand for the objects named
      `x<X>y<Y>`; `agent` and `pkg` are the two other objects. */
  datatype Fact =
    | Tile(c: Pos)
    | RightNb(a: Pos, b: Pos)
    | LeftNb(a: Pos, b: Pos)
    | UpNb(a: Pos, b: Pos)
    | DownNb(a: Pos, b: Pos)
    | Free(c: Pos)
    | IsDelivery(c: Pos)
    | AgentIs
    | OnTileAgent(c: Pos)
    | PkgIs
    | NotPicked
    | OnTilePkg(c: Pos)
    | Picked

  /** An objective literal: a fact that must hold, or must not. */
  datatype Literal = Holds(f: Fact) | Not(f: Fact)

  datatype Problem = Problem(objects: set<Pos>, init: set<Fact>, objective: set<Literal>)

  /** The cells the reachability map marks reachable. */
  function Objects(s: Snapshot): (r: set<Pos>)
    requires Intentions.Valid(s)
    ensures forall p :: p in r <==> Reachable(s, p)
  {
    var r := set x, y | 0 <= x < s.width && 0 <= y < s.height && Reachable(s, Pos(x, y)) :: Pos(x, y);
    assert forall p :: Reachable(s, p) ==> p in r by {
      forall p | Reachable(s, p) ensures p in r {
        assert Pos(p.x, p.y) == p;
      }
    }
    r
  }

  /** Both the cell (x, y) and the cell (x + dx, y + dy) are reachable. */
  predicate Linked(s: Snapshot, x: int, y: int, dx: int, dy: int)
    requires Intentions.Valid(s)
  {
    Reachable(s, Pos(x, y)) && Reachable(s, Pos(x + dx, y + dy))
  }

  /** The facts the map scan can emit: tiles, the four neighbour relations
      and `free`. */
  predicate IsMapFact(f: Fact) {
    f.Tile? || f.RightNb? || f.LeftNb? || f.UpNb? || f.DownNb? || f.Free?
  }

  /** The cell whose visit emits a map fact. */
  function Origin(f: Fact): Pos
    requires IsMapFact(f)
  {
    if f.Tile? || f.Free? then f.c else f.a
  }

  /** When the scan emits a map fact: `TILE` for a reachable cell; a
      neighbour fact from a reachable cell to its reachable neighbour in that
      direction (`rightNeighbour` points to x - 1, `upNeighbour` to y - 1,
      the row below in the game's coordinates); `free`
      for a reachable cell other than ours. */
  predicate MapCond(s: Snapshot, f: Fact)
    requires Intentions.Valid(s)
  {
    match f
    case Tile(c) => Reachable(s, c)
    case RightNb(a, b) => Linked(s, a.x, a.y, -1, 0) && b == Pos(a.x - 1, a.y)
    case LeftNb(a, b) => Linked(s, a.x, a.y, 1, 0) && b == Pos(a.x + 1, a.y)
    case UpNb(a, b) => Linked(s, a.x, a.y, 0, -1) && b == Pos(a.x, a.y - 1)
    case DownNb(a, b) => Linked(s, a.x, a.y, 0, 1) && b == Pos(a.x, a.y + 1)
    case Free(c) => Reachable(s, c) && c != s.me
    case _ => false
  }

  /** The facts emitted when the scan visits cell `p`. */
  function CellFacts(s: Snapshot, p: Pos): (fs: set<Fact>)
    requires Intentions.Valid(s)
    ensures forall f :: f in fs <==> IsMapFact(f) && Origin(f) == p && MapCond(s, f)
  {
    if !Reachable(s, p) then {}
    else
      var w := Pos(p.x - 1, p.y);
      var e := Pos(p.x + 1, p.y);
      var n := Pos(p.x, p.y - 1);
      var so := Pos(p.x, p.y + 1);
      assert Pos(p.x, p.y) == p;
      (if Reachable(s, w) then {RightNb(p, w)} else {})
      + (if Reachable(s, e) then {LeftNb(p, e)} else {})
      + (if Reachable(s, n) then {UpNb(p, n)} else {})
      + (if Reachable(s, so) then {DownNb(p, so)} else {})
      + (if p != s.me then {Free(p)} else {})
      + {Tile(p)}
  }

  /** The facts emitted by visiting `cells` in order. */
  function ScanFacts(s: Snapshot, cells: seq<Pos>): (fs: set<Fact>)
    requires Intentions.Valid(s)
    ensures forall f :: f in fs <==> IsMapFact(f) && Origin(f) in cells && MapCond(s, f)
  {
    if |cells| == 0 then {}
    else
      assert cells == [cells[0]] + cells[1..];
      CellFacts(s, cells[0]) + ScanFacts(s, cells[1..])
  }

  /** Column `x` of a grid of height `h`, top to bottom. */
  function Column(x: int, h: nat): (r: seq<Pos>)
    ensures forall p :: p in r <==> p.x == x && 0 <= p.y < h
  {
    var r := seq(h, y => Pos(x, y));
    assert forall p: Pos :: p.x == x && 0 <= p.y < h ==> r[p.y] == p;
    r
  }

  /** The cells of a `w` by `h` grid in the scan's order: column by column,
      each from top to bottom. */
  function GridCells(w: nat, h: nat): (r: seq<Pos>)
    ensures forall p :: p in r <==> InBounds(p, w, h)
  {
    if w == 0 then [] else GridCells(w - 1, h) + Column(w - 1, h)
  }

  /** The facts of the map scan (plan.js's double loop over the grid). */
  function MapFacts(s: Snapshot): (fs: set<Fact>)
    requires Intentions.Valid(s)
    ensures forall f :: f in fs <==> IsMapFact(f) && MapCond(s, f)
  {
    var fs := ScanFacts(s, GridCells(s.width, s.height));
    assert forall f :: IsMapFact(f) && MapCond(s, f) ==> Reachable(s, Origin(f)) by {
      forall f | IsMapFact(f) && MapCond(s, f) ensures Reachable(s, Origin(f)) {
        assert Pos(Origin(f).x, Origin(f).y) == Origin(f);
      }
    }
    fs
  }

  /** `isDeliverySpot` for every reachable delivery spot. */
  function DeliveryFacts(s: Snapshot): (fs: set<Fact>)
    requires Intentions.Valid(s)
    ensures forall f :: f in fs <==> f.IsDelivery? && f.c in s.delivery && Reachable(s, f.c)
  {
    set z | z in s.delivery && Reachable(s, z) :: IsDelivery(z)
  }

  /** The agent and parcel facts, which depend on the goal's action: a
      pick-up puts the parcel, not yet picked, on the target; a put-down
      starts with the parcel picked. */
  function ItemFacts(s: Snapshot, goal: Intention): (fs: set<Fact>)
    ensures AgentIs in fs && OnTileAgent(s.me) in fs && PkgIs in fs
    ensures NotPicked in fs <==> goal.action == Some(PickUp)
    ensures Picked in fs <==> goal.action == Some(PutDown)
    ensures forall c :: OnTilePkg(c) in fs <==> goal.action == Some(PickUp) && c == goal.location
    ensures forall c :: OnTileAgent(c) in fs <==> c == s.me
  {
    {AgentIs, OnTileAgent(s.me), PkgIs}
    + (if goal.action == Some(PickUp) then {NotPicked, OnTilePkg(goal.location)}
       else if goal.action == Some(PutDown) then {Picked}
       else {})
  }

  /** The objective for the goal's action. */
  function Objective(goal: Intention): (o: set<Literal>)
    ensures goal.action == Some(PickUp) ==> o == {Holds(Picked), Not(NotPicked)}
    ensures goal.action == Some(PutDown) ==> o == {Holds(NotPicked), Holds(OnTilePkg(goal.location)), Not(Picked)}
    ensures goal.action == Some(GoTo) ==> o == {Holds(OnTileAgent(goal.location))}
    ensures goal.action.None? || goal.action == Some(Wait) ==> o == {}
  {
    match goal.action
    case Some(PickUp) => {Holds(Picked), Not(NotPicked)}
    case Some(PutDown) => {Holds(NotPicked), Holds(OnTilePkg(goal.location)), Not(Picked)}
    case Some(GoTo) => {Holds(OnTileAgent(goal.location))}
    case _ => {}
  }

  /** `new Plan(intentions, beliefs)`: the problem for the front intention.
      Without one, the source throws when it reads `this.goal.action`. */
  function MakeProblem(s: Snapshot, goal: Option<Intention>): (r: Result<Problem>)
    requires Intentions.Valid(s)
    ensures r.Err? <==> goal.None?
    ensures r.Ok? ==> r.value.objects == Objects(s) && r.value.objective == Objective(goal.value)
    ensures r.Ok? ==> r.value.init == Init(s, goal.value)
  {
    match goal
    case None => Err("TypeError: the plan has no goal")
    case Some(g) => Ok(Problem(Objects(s), Init(s, g), Objective(g)))
  }

  /** The initial facts of the problem for `goal`. */
  function Init(s: Snapshot, goal: Intention): set<Fact>
    requires Intentions.Valid(s)
  {
    MapFacts(s) + DeliveryFacts(s) + ItemFacts(s, goal)
  }

  /** Membership in the initial facts, kind by kind. */
  predicate InInit(s: Snapshot, goal: Intention, f: Fact)
    requires Intentions.Valid(s)
  {
    if IsMapFact(f) then MapCond(s, f)
    else if f.IsDelivery? then f.c in s.delivery && Reachable(s, f.c)
    else f in ItemFacts(s, goal)
  }

  /** A fact is an initial fact exactly when its kind's condition holds. */
  lemma InitMembers(s: Snapshot, goal: Intention, f: Fact)
    requires Intentions.Valid(s)
    ensures f in Init(s, goal) <==> InInit(s, goal, f)
  {
    if IsMapFact(f) || f.IsDelivery? {
      assert f !in ItemFacts(s, goal);
    }
  }

  /* ---------------------------------------------------------------------
     Properties of the problem
     --------------------------------------------------------------------- */

  /** A tile fact is emitted exactly for the reachable cells. */
  lemma TileIffReachable(s: Snapshot, goal: Intention, p: Pos)
    requires Intentions.Valid(s)
    ensures Tile(p) in Init(s, goal) <==> Reachable(s, p)
  {
    InitMembers(s, goal, Tile(p));
  }

  /** `free` holds for every reachable cell except our own. */
  lemma FreeIffReachableOther(s: Snapshot, goal: Intention, p: Pos)
    requires Intentions.Valid(s)
    ensures Free(p) in Init(s, goal) <==> Reachable(s, p) && p != s.me
  {
    InitMembers(s, goal, Free(p));
  }

  /** `isDeliverySpot` holds exactly for the reachable delivery spots. */
  lemma DeliveryIffReachableZone(s: Snapshot, goal: Intention, p: Pos)
    requires Intentions.Valid(s)
    ensures IsDelivery(p) in Init(s, goal) <==> p in s.delivery && Reachable(s, p)
  {
    InitMembers(s, goal, IsDelivery(p));
  }

  /** `rightNeighbour(a, b)` links two reachable cells with `b` one step
      to the west of `a`, and holds exactly when `leftNeighbour(b, a)` does. */
  lemma RightLeftDual(s: Snapshot, goal: Intention, a: Pos, b: Pos)
    requires Intentions.Valid(s)
    ensures RightNb(a, b) in Init(s, goal) <==> Reachable(s, a) && Reachable(s, b) && b == Pos(a.x - 1, a.y)
    ensures RightNb(a, b) in Init(s, goal) <==> LeftNb(b, a) in Init(s, goal)
  {
    InitMembers(s, goal, RightNb(a, b));
    InitMembers(s, goal, LeftNb(b, a));
    HorizontalLinks(s, goal, a, b);
  }

  lemma HorizontalLinks(s: Snapshot, goal: Intention, a: Pos, b: Pos)
    requires Intentions.Valid(s)
    ensures InInit(s, goal, RightNb(a, b)) <==> Reachable(s, a) && Reachable(s, b) && b == Pos(a.x - 1, a.y)
    ensures InInit(s, goal, RightNb(a, b)) <==> InInit(s, goal, LeftNb(b, a))
  {
    assert Pos(a.x, a.y) == a && Pos(b.x, b.y) == b;
  }

  /** `upNeighbour(a, b)` links two reachable cells with `b` one step below
      `a`, and holds exactly when `downNeighbour(b, a)` does. */
  lemma UpDownDual(s: Snapshot, goal: Intention, a: Pos, b: Pos)
    requires Intentions.Valid(s)
    ensures UpNb(a, b) in Init(s, goal) <==> Reachable(s, a) && Reachable(s, b) && b == Pos(a.x, a.y - 1)
    ensures UpNb(a, b) in Init(s, goal) <==> DownNb(b, a) in Init(s, goal)
  {
    InitMembers(s, goal, UpNb(a, b));
    InitMembers(s, goal, DownNb(b, a));
    VerticalLinks(s, goal, a, b);
  }

  lemma VerticalLinks(s: Snapshot, goal: Intention, a: Pos, b: Pos)
    requires Intentions.Valid(s)
    ensures InInit(s, goal, UpNb(a, b)) <==> Reachable(s, a) && Reachable(s, b) && b == Pos(a.x, a.y - 1)
    ensures InInit(s, goal, UpNb(a, b)) <==> InInit(s, goal, DownNb(b, a))
  {
    assert Pos(a.x, a.y) == a && Pos(b.x, b.y) == b;
  }

  /** Every neighbour fact links 4-adjacent reachable cells. */
  lemma NeighboursAdjacent(s: Snapshot, goal: Intention, f: Fact)
    requires Intentions.Valid(s) && f in Init(s, goal)
    requires f.RightNb? || f.LeftNb? || f.UpNb? || f.DownNb?
    ensures Reachable(s, f.a) && Reachable(s, f.b) && Dist(f.a, f.b) == 1
  {
    InitMembers(s, goal, f);
    LinkAdjacent(s, f);
  }

  lemma LinkAdjacent(s: Snapshot, f: Fact)
    requires Intentions.Valid(s) && (f.RightNb? || f.LeftNb? || f.UpNb? || f.DownNb?) && MapCond(s, f)
    ensures Reachable(s, f.a) && Reachable(s, f.b) && Dist(f.a, f.b) == 1
  {
    var a, b := f.a, f.b;
    assert Pos(a.x, a.y) == a;
    if f.RightNb? {
      assert b == Pos(a.x - 1, a.y);
    } else if f.LeftNb? {
      assert b == Pos(a.x + 1, a.y);
    } else if f.UpNb? {
      assert b == Pos(a.x, a.y - 1);
    } else {
      assert b == Pos(a.x, a.y + 1);
    }
  }

  /** The parcel facts follow the goal: the parcel is unpicked on the target
      for a pick-up, picked for a put-down, and absent otherwise. */
  lemma ParcelFactsByGoal(s: Snapshot, goal: Intention)
    requires Intentions.Valid(s)
    ensures NotPicked in Init(s, goal) <==> goal.action == Some(PickUp)
    ensures Picked in Init(s, goal) <==> goal.action == Some(PutDown)
    ensures forall c :: OnTilePkg(c) in Init(s, goal) <==> goal.action == Some(PickUp) && c == goal.location
  {
    InitMembers(s, goal, NotPicked);
    InitMembers(s, goal, Picked);
    forall c ensures OnTilePkg(c) in Init(s, goal) <==> goal.action == Some(PickUp) && c == goal.location {
      InitMembers(s, goal, OnTilePkg(c));
    }
  }

  /* ---------------------------------------------------------------------
     Object names and reading the solver's steps
     --------------------------------------------------------------------- */

  predicate IsDigit(c: char) {
    '0' <= c <= '9'
  }

  function Digit(d: nat): (c: char)
    requires d < 10
    ensures IsDigit(c) && c as int - '0' as int == d
  {
    (48 + d) as char
  }

  /** The decimal numeral of `n`, as a template literal prints it. */
  function NatToString(n: nat): (s: string)
    ensures |s| > 0 && forall i :: 0 <= i < |s| ==> IsDigit(s[i])
    decreases n
  {
    if n < 10 then [Digit(n)] else NatToString(n / 10) + [Digit(n % 10)]
  }

  /** The value of a string of decimal digits. */
  function DigitsValue(ds: string): nat
    requires forall i :: 0 <= i < |ds| ==> IsDigit(ds[i])
    decreases |ds|
  {
    if |ds| == 0 then 0
    else
      assert IsDigit(ds[|ds| - 1]);
      10 * DigitsValue(ds[..|ds| - 1]) + (ds[|ds| - 1] as int - '0' as int)
  }

  /** The longest prefix of decimal digits. */
  function DigitPrefix(s: string): (p: string)
    ensures |p| <= |s| && p == s[..|p|]
    ensures forall i :: 0 <= i < |p| ==> IsDigit(p[i])
    ensures |p| < |s| ==> !IsDigit(s[|p|])
  {
    if |s| == 0 || !IsDigit(s[0]) then [] else [s[0]] + DigitPrefix(s[1..])
  }

  /** `parseInt` on a string without leading blanks or sign: the value of
      its leading digits, `NaN` (here `None`) when there are none. */
  function ParseInt(s: string): (r: Option<nat>)
    ensures r.None? <==> |s| == 0 || !IsDigit(s[0])
  {
    var p := DigitPrefix(s);
    if |p| == 0 then None else Some(DigitsValue(p))
  }

  /** The text before the first 'y' (all of it when there is none). */
  function UpToY(s: string): (r: string)
    ensures |r| <= |s| && r == s[..|r|] && 'y' !in r
    ensures |r| < |s| ==> s[|r|] == 'y'
  {
    if |s| == 0 || s[0] == 'y' then [] else [s[0]] + UpToY(s[1..])
  }

  /** The text after the first 'y', when there is one. */
  function AfterY(s: string): (r: Option<string>)
    ensures r.None? <==> 'y' !in s
    ensures r.Some? ==> s == UpToY(s) + "y" + r.value
  {
    if |s| == 0 then None
    else if s[0] == 'y' then Some(s[1..])
    else match AfterY(s[1..])
      case None => None
      case Some(rest) => Some(rest)
  }

  /** A position of `shortestPath`: either coordinate is `NaN` (`None`)
      when the text did not start with a digit. */
  datatype Waypoint = Waypoint(x: Option<nat>, y: Option<nat>)

  /** The object name `x<X>y<Y>` of a cell. */
  function ObjectName(x: nat, y: nat): (s: string)
    ensures |s| > 0 && s[0] == 'x'
  {
    "x" + NatToString(x) + "y" + NatToString(y)
  }

  /** The target of a move step: `arg.substring(1).split("y")`, each piece
      read with `parseInt`; a missing second piece reads as `NaN`. */
  function ParseTarget(arg: string): (w: Waypoint)
    ensures w.x == ParseInt(UpToY(if |arg| > 0 then arg[1..] else ""))
    ensures 'y' !in (if |arg| > 0 then arg[1..] else "") ==> w.y.None?
  {
    var next := if |arg| > 0 then arg[1..] else "";
    var ys := match AfterY(next) case None => None case Some(rest) => ParseInt(UpToY(rest));
    Waypoint(ParseInt(UpToY(next)), ys)
  }

  lemma {:induction false} DigitsValueOfNat(n: nat)
    ensures DigitsValue(NatToString(n)) == n
    decreases n
  {
    if n >= 10 {
      DigitsValueOfNat(n / 10);
      var s := NatToString(n);
      assert s[..|s| - 1] == NatToString(n / 10);
    }
  }

  lemma {:induction false} DigitPrefixAll(s: string)
    requires forall i :: 0 <= i < |s| ==> IsDigit(s[i])
    ensures DigitPrefix(s) == s
    decreases |s|
  {
    if |s| > 0 {
      DigitPrefixAll(s[1..]);
    }
  }

  lemma {:induction false} UpToYNone(s: string)
    requires 'y' !in s
    ensures UpToY(s) == s && AfterY(s).None?
    decreases |s|
  {
    if |s| > 0 {
      UpToYNone(s[1..]);
    }
  }

  lemma {:induction false} SplitAtY(a: string, b: string)
    requires 'y' !in a
    ensures UpToY(a + "y" + b) == a && AfterY(a + "y" + b) == Some(b)
    decreases |a|
  {
    if |a| > 0 {
      assert (a + "y" + b)[1..] == a[1..] + "y" + b;
      SplitAtY(a[1..], b);
    } else {
      assert a + "y" + b == "y" + b;
    }
  }

  /** `split("y")` on the text after the first character: the x piece is
      everything before the first 'y', the y piece everything between it and
      the next 'y'. */
  lemma ParseTargetSplit(c: char, a: string, b: string)
    requires 'y' !in a
    ensures ParseTarget([c] + a + "y" + b) == Waypoint(ParseInt(a), ParseInt(UpToY(b)))
  {
    assert ([c] + a + "y" + b)[1..] == a + "y" + b;
    SplitAtY(a, b);
  }

  /** Reading a move step's target recovers the cell whose object name it
      is: the names the problem generates survive the round trip. */
  lemma ParseObjectName(x: nat, y: nat)
    ensures ParseTarget(ObjectName(x, y)) == Waypoint(Some(x), Some(y))
  {
    var sx := NatToString(x);
    var sy := NatToString(y);
    assert 'y' !in sx && 'y' !in sy by {
      assert forall i :: 0 <= i < |sx| ==> sx[i] != 'y';
      assert forall i :: 0 <= i < |sy| ==> sy[i] != 'y';
    }
    assert ObjectName(x, y)[1..] == sx + "y" + sy;
    SplitAtY(sx, sy);
    UpToYNone(sy);
    DigitPrefixAll(sx);
    DigitPrefixAll(sy);
    DigitsValueOfNat(x);
    DigitsValueOfNat(y);
  }

  /** One step of the solver's answer. */
  datatype Step = Step(action: string, args: seq<string>)

  predicate IsMove(a: string) {
    a == "left" || a == "right" || a == "up" || a == "down"
  }

  /** The action names of the steps, in order. */
  function StepActions(steps: seq<Step>): (acts: seq<string>)
    ensures |acts| == |steps| && forall i :: 0 <= i < |steps| ==> acts[i] == steps[i].action
  {
    seq(|steps|, i requires 0 <= i < |steps| => steps[i].action)
  }

  /** The number of move steps. */
  function Moves(steps: seq<Step>): nat {
    if |steps| == 0 then 0 else (if IsMove(steps[0].action) then 1 else 0) + Moves(steps[1..])
  }

  /** Every move step names its target (has a third argument). */
  predicate MovesNamed(steps: seq<Step>) {
    forall i :: 0 <= i < |steps| && IsMove(steps[i].action) ==> |steps[i].args| >= 3
  }

  /** The target of every move step, in order. */
  function MovePath(steps: seq<Step>): (path: seq<Waypoint>)
    requires MovesNamed(steps)
    ensures |path| == Moves(steps)
  {
    if |steps| == 0 then []
    else
      var rest := MovePath(steps[1..]);
      if IsMove(steps[0].action) then [ParseTarget(steps[0].args[2])] + rest else rest
  }

  /** A move step's target sits in the path at the number of moves before
      it: the path lists the targets of the move steps, in order. */
  lemma {:induction false} MovePathTargets(steps: seq<Step>)
    requires MovesNamed(steps)
    ensures forall i :: 0 <= i < |steps| && IsMove(steps[i].action) ==>
      Moves(steps[..i]) < |MovePath(steps)| && MovePath(steps)[Moves(steps[..i])] == ParseTarget(steps[i].args[2])
    decreases |steps|
  {
    if |steps| > 0 {
      var rest := steps[1..];
      assert MovesNamed(rest) by {
        assert forall i :: 0 <= i < |rest| ==> rest[i] == steps[i + 1];
      }
      MovePathTargets(rest);
      forall i | 0 <= i < |steps| && IsMove(steps[i].action)
        ensures Moves(steps[..i]) < |MovePath(steps)| && MovePath(steps)[Moves(steps[..i])] == ParseTarget(steps[i].args[2])
      {
        if i > 0 {
          assert steps[..i][1..] == rest[..i - 1];
          assert steps[i] == rest[i - 1];
        }
      }
    }
  }

  /** The plan the control loop executes: the action list, and the targets
      of its moves (`shortestPath`). */
  datatype PlanState = PlanState(actions: seq<string>, path: seq<Waypoint>)

  /** How `getPlan` ends: resolved with a plan, rejected when the solver
      found none, or never settled, when reading a move step throws inside
      the solver's callback. */
  datatype PlanOutcome = Planned(plan: PlanState) | Rejected | Unsettled

  /** `getPlan(domain)` given the solver's answer (`None` for `undefined`).
      A wait goal is planned without asking the solver. */
  function GetPlan(goal: Intention, answer: Option<seq<Step>>): (r: PlanOutcome)
    ensures goal.action == Some(Wait) ==> r == Planned(PlanState(["wait"], []))
    ensures goal.action != Some(Wait) && answer.None? ==> r == Rejected
    ensures r == Unsettled <==> goal.action != Some(Wait) && answer.Some? && !MovesNamed(answer.value)
    ensures goal.action != Some(Wait) && r.Planned? ==>
      && answer.Some?
      && r.plan.actions == StepActions(answer.value)
      && |r.plan.path| == Moves(answer.value)
      && MovesNamed(answer.value) && r.plan.path == MovePath(answer.value)
  {
    if goal.action == Some(Wait) then Planned(PlanState(["wait"], []))
    else match answer
      case None => Rejected
      case Some(steps) =>
        if MovesNamed(steps) then Planned(PlanState(StepActions(steps), MovePath(steps)))
        else Unsettled
  }

  /** The steps name, move by move, the cells `cells` as object names. */
  predicate NamesCells(steps: seq<Step>, cells: seq<(nat, nat)>)
    decreases |steps|
  {
    if |steps| == 0 then |cells| == 0
    else if IsMove(steps[0].action) then
      && |cells| > 0 && |steps[0].args| >= 3
      && steps[0].args[2] == ObjectName(cells[0].0, cells[0].1)
      && NamesCells(steps[1..], cells[1..])
    else NamesCells(steps[1..], cells)
  }

  function AsWaypoints(cells: seq<(nat, nat)>): (ws: seq<Waypoint>)
    ensures |ws| == |cells| && forall k :: 0 <= k < |cells| ==> ws[k] == Waypoint(Some(cells[k].0), Some(cells[k].1))
  {
    if |cells| == 0 then [] else [Waypoint(Some(cells[0].0), Some(cells[0].1))] + AsWaypoints(cells[1..])
  }

  /** Steps that name cells give every move a target argument. */
  lemma {:induction false} NamedMovesHaveTargets(steps: seq<Step>, cells: seq<(nat, nat)>)
    requires NamesCells(steps, cells)
    ensures MovesNamed(steps)
    decreases |steps|
  {
    if |steps| > 0 {
      NamedMovesHaveTargets(steps[1..], if IsMove(steps[0].action) then cells[1..] else cells);
      assert forall i :: 1 <= i < |steps| ==> steps[i] == steps[1..][i - 1];
    }
  }

  /** When the solver's move steps name cells by their object names, the
      plan's path is exactly those cells, in order. */
  lemma {:induction false} PathOfNamedMoves(steps: seq<Step>, cells: seq<(nat, nat)>)
    requires NamesCells(steps, cells)
    ensures MovesNamed(steps) && MovePath(steps) == AsWaypoints(cells)
    decreases |steps|
  {
    NamedMovesHaveTargets(steps, cells);
    if |steps| > 0 {
      if IsMove(steps[0].action) {
        PathOfNamedMoves(steps[1..], cells[1..]);
        ParseObjectName(cells[0].0, cells[0].1);
      } else {
        PathOfNamedMoves(steps[1..], cells);
      }
    }
  }

  /* ---------------------------------------------------------------------
     Plan queries
     --------------------------------------------------------------------- */

  /** `isEmpty()`. */
  function IsEmpty(p: PlanState): (r: bool)
    ensures r <==> p.actions == []
  {
    |p.actions| == 0
  }

  /** `popFront()`: "error" and no change on an empty plan; otherwise the
      first action, removed, together with the head of the path.  The path
      loses its head on every pop, moves or not. */
  function PopFront(p: PlanState): (r: (string, PlanState))
    ensures IsEmpty(p) ==> r == ("error", p)
    ensures !IsEmpty(p) ==> r.0 == p.actions[0] && r.1.actions == p.actions[1..]
    ensures !IsEmpty(p) ==> r.1.path == if |p.path| > 0 then p.path[1..] else []
  {
    if IsEmpty(p) then ("error", p)
    else (p.actions[0], PlanState(p.actions[1..], if |p.path| > 0 then p.path[1..] else []))
  }

  /** The actions `n` pops return, and the plan after them. */
  function PopMany(p: PlanState, n: nat): (r: (seq<string>, PlanState))
    ensures |r.0| == n
    decreases n
  {
    if n == 0 then ([], p)
    else
      var (a, p') := PopFront(p);
      var (more, last) := PopMany(p', n - 1);
      ([a] + more, last)
  }

  /** Popping as many times as there are actions returns the actions in
      order and empties the plan; one pop more returns "error". */
  lemma {:induction false} PopAllInOrder(p: PlanState)
    ensures PopMany(p, |p.actions|).0 == p.actions
    ensures IsEmpty(PopMany(p, |p.actions|).1)
    ensures PopFront(PopMany(p, |p.actions|).1).0 == "error"
    decreases |p.actions|
  {
    if |p.actions| > 0 {
      var p' := PopFront(p).1;
      PopAllInOrder(p');
    }
  }

  /** The soundness verdicts the source computes before the last one
      overwrites them: no move target of the path is a believed agent
      position, and a pick-up is not planned when no parcel is free. */
  predicate Collides(path: seq<Waypoint>, agents: seq<AgentPosition>) {
    exists i, j :: 0 <= i < |path| && 0 <= j < |agents| &&
      path[i].x == Some(agents[j].x) && path[i].y == Some(agents[j].y)
  }

  /** `isSound(beliefs, intentions)` as written.  The collision and
      free-parcel verdicts are overwritten by comparing `reward` of the list
      of free parcels, which is undefined, with the plan length; that
      comparison is false, so the plan is declared sound.  Reading the
      intention's action throws when there is no intention and no free
      parcel. */
  function IsSound(p: PlanState, agents: seq<AgentPosition>, front: Option<Intention>, free: seq<Parcel>)
    : (r: Result<bool>)
    ensures r.Err? <==> |free| == 0 && front.None?
    ensures r.Ok? ==> r.value
  {
    if |free| == 0 && front.None? then Err("TypeError: no current intention")
    else Ok(true)
  }

  /** The soundness check the comments describe: no collision on the path,
      and no pick-up with nothing free to pick up. */
  function IsSoundIntended(p: PlanState, agents: seq<AgentPosition>, front: Option<Intention>, free: seq<Parcel>)
    : (r: Result<bool>)
    ensures r.Err? <==> |free| == 0 && front.None?
    ensures r.Ok? ==> (r.value <==> !Collides(p.path, agents) && !(|free| == 0 && front.value.action == Some(PickUp)))
  {
    if |free| == 0 && front.None? then Err("TypeError: no current intention")
    else Ok(!Collides(p.path, agents) && !(|free| == 0 && front.value.action == Some(PickUp)))
  }

  /** As written, a plan whose path runs into another agent is still
      declared sound, where the intended check rejects it. */
  lemma SoundIgnoresCollisions(p: PlanState, agents: seq<AgentPosition>, front: Option<Intention>, free: seq<Parcel>)
    requires Collides(p.path, agents) && (|free| > 0 || front.Some?)
    ensures IsSound(p, agents, front, free) == Ok(true)
    ensures IsSoundIntended(p, agents, front, free) == Ok(false)
  {
  }
}
