/** The intention layer of Agent/intentions.js: filtering the desires down to
    the one intention the agent commits to, the utility that ranks them, and
    the three tests the control loop asks of the current intention
    (succeeded, impossible, worth reconsidering). */
module Intentions {
  import opened Base
  import opened BenchMark
  import opened Table
  import opened ParcelSense
  import opened Desires

  /** An intention argument: a parcel id, or the wait delay in milliseconds. */
  datatype Arg = Str(s: string) | Num(n: int)

  /** An intention: a target cell, an action (undefined for any other string)
      and its arguments. */
  datatype Intention = Intention(location: Pos, action: Option<Act>, args: seq<Arg>)

  /** `new Intention(x, y, action, args)`: the four intention actions are kept. */
  function MakeIntention(x: int, y: int, action: string, args: seq<Arg>): (it: Intention)
    ensures it.location == Pos(x, y) && it.args == args
    ensures it.action.Some? <==> action in {"go to", "pick up", "put down", "wait"}
    ensures it.action == ParseAct(action)
  {
    Intention(Pos(x, y), ParseAct(action), args)
  }

  /** What the intention layer reads of the beliefs at one moment.
      `reach` is the reachability map `getAllReachable(me, me, agents)` of a
      `width` by `height` grid.  Path lengths come from an A* search that is
      not part of this model: `pathLen(q)` is the length of the path from us
      to `q` with other agents as walls (`getPath`), `freeLen(a, b)` the
      length from `a` to `b` ignoring agents (`getPathIgnoringAgents`). */
  datatype Snapshot = Snapshot(
    me: Pos,
    myId: string,
    parcels: Table<Parcel>,
    delivery: seq<Pos>,
    width: nat,
    height: nat,
    reach: seq<seq<int>>,
    pathLen: Pos -> nat,
    freeLen: (Pos, Pos) -> nat)

  predicate Valid(s: Snapshot) {
    ParcelSense.Valid(s.parcels) && IsMatrix(s.reach, s.width, s.height)
  }

  /** Our bag: the stored parcels we carry. */
  function Bag(s: Snapshot): (b: seq<Parcel>)
    requires Valid(s)
    ensures forall p :: p in b <==> p in AllParcels(s.parcels) && p.carriedBy == Some(s.myId)
  {
    MyBag(AllParcels(s.parcels), s.myId)
  }

  /** The sum of the rewards of the parcels in the bag. */
  function BagScore(bag: seq<Parcel>): (n: int)
    ensures |bag| == 0 ==> n == 0
    ensures (forall i :: 0 <= i < |bag| ==> bag[i].reward >= 0) ==> n >= 0
    ensures (forall i :: 0 <= i < |bag| ==> bag[i].reward >= 0) ==>
      forall i :: 0 <= i < |bag| ==> bag[i].reward <= n
  {
    if |bag| == 0 then 0
    else
      assert forall i :: 1 <= i < |bag| ==> bag[i] == bag[1..][i - 1];
      bag[0].reward + BagScore(bag[1..])
  }

  /** The score splits over a concatenation of bags, so adding the rewards
      one parcel at a time from the front, as the source's loop does, gives
      the score. */
  lemma {:induction false} BagScoreAppend(a: seq<Parcel>, b: seq<Parcel>)
    ensures BagScore(a + b) == BagScore(a) + BagScore(b)
    decreases |a|
  {
    if |a| == 0 {
      assert a + b == b;
    } else {
      assert (a + b)[1..] == a[1..] + b;
      BagScoreAppend(a[1..], b);
    }
  }

  /** A cell the reachability map marks reachable (distance 0 or more). */
  predicate Reachable(s: Snapshot, p: Pos)
    requires Valid(s)
  {
    InBounds(p, s.width, s.height) && At(s.reach, p) >= 0
  }

  /* ---------------------------------------------------------------------
     Utility
     --------------------------------------------------------------------- */

  /** The parcel a pick-up intention names: its first argument, looked up in
      the store.  A missing or non-string argument finds nothing. */
  function NamedParcel(s: Snapshot, it: Intention): (r: Option<Parcel>)
    requires Valid(s)
    ensures r.Some? ==> |it.args| > 0 && it.args[0].Str? && r.value.id == it.args[0].s
    ensures r.Some? ==> (it.args[0].s, r.value) in s.parcels
    ensures r.None? <==> |it.args| == 0 || !it.args[0].Str? || !HasKey(s.parcels, it.args[0].s)
  {
    if |it.args| > 0 && it.args[0].Str? then GetParcel(s.parcels, it.args[0].s) else None
  }

  function Max0(n: int): (m: nat)
    ensures m >= n && (m == 0 || m == n)
  {
    if n < 0 then 0 else n
  }

  /** The score of picking up `p` and delivering it to `zone`: the reward
      left after the delivery leg plus what remains of the bag's score after
      the whole trip, scaled by 100. */
  function ZoneValue(s: Snapshot, p: Parcel, target: Pos, zone: Pos, bagScore: int, bagSize: nat): int {
    var dd := s.freeLen(Pos(p.x, p.y), zone);
    var pd := s.pathLen(target);
    100 * (p.reward - dd + Max0(bagScore - bagSize * (dd + pd)))
  }

  /** The pick-up value of parcel `p` fetched at `target`: the best of its
      zone values, `Math.max` of none being minus infinity. */
  function PickUpValue(s: Snapshot, p: Parcel, target: Pos, bagScore: int, bagSize: nat): (u: ExtInt)
    ensures u == NegInf <==> |s.delivery| == 0
    ensures forall z :: z in s.delivery ==> Fin(ZoneValue(s, p, target, z, bagScore, bagSize)).AtMost(u)
    ensures u.Fin? ==> exists z :: z in s.delivery && u.n == ZoneValue(s, p, target, z, bagScore, bagSize)
  {
    var vs := seq(|s.delivery|, i requires 0 <= i < |s.delivery| =>
      Fin(ZoneValue(s, p, target, s.delivery[i], bagScore, bagSize)));
    assert forall z :: z in s.delivery ==> Fin(ZoneValue(s, p, target, z, bagScore, bagSize)) in vs by {
      forall z | z in s.delivery
        ensures Fin(ZoneValue(s, p, target, z, bagScore, bagSize)) in vs
      {
        var i :| 0 <= i < |s.delivery| && s.delivery[i] == z;
        assert vs[i] == Fin(ZoneValue(s, p, target, z, bagScore, bagSize));
      }
    }
    MaxAll(vs)
  }

  /** `utility(option, bag_score, bag_size)`: the distance for a go-to, -1
      for a pick-up of a parcel no longer stored, the best zone value for
      any other pick-up, the bag's score less its size times the path length
      (scaled by 100) for a put-down, and 0 otherwise. */
  function Utility(s: Snapshot, it: Intention, bagScore: int, bagSize: nat): (u: ExtInt)
    requires Valid(s)
    ensures it.action == Some(GoTo) ==> u == Fin(Dist(s.me, it.location))
    ensures it.action == Some(PickUp) && NamedParcel(s, it).None? ==> u == Fin(-1)
    ensures it.action == Some(PickUp) && NamedParcel(s, it).Some? ==>
      u == PickUpValue(s, NamedParcel(s, it).value, it.location, bagScore, bagSize)
    ensures it.action == Some(PutDown) ==> u == Fin(100 * (bagScore - bagSize * s.pathLen(it.location)))
    ensures it.action.None? || it.action == Some(Wait) ==> u == Fin(0)
  {
    match it.action
    case Some(GoTo) => Fin(Dist(s.me, it.location))
    case Some(PickUp) =>
      (match NamedParcel(s, it)
       case None => Fin(-1)
       case Some(p) => PickUpValue(s, p, it.location, bagScore, bagSize))
    case Some(PutDown) => Fin(100 * (bagScore - bagSize * s.pathLen(it.location)))
    case _ => Fin(0)
  }

  /* ---------------------------------------------------------------------
     Filtering desires into one intention
     --------------------------------------------------------------------- */

  /** A desire the source can turn into an intention: a pick-up desire
      carries its parcel (the source reads `desire.parcel.id`). */
  predicate WellFormed(d: Desire) {
    d.action == Some(PickUp) ==> d.parcel.Some?
  }

  /** The desires whose target the reachability map marks reachable, in order. */
  function KeepReachable(s: Snapshot, ds: seq<Desire>): (r: seq<Desire>)
    requires Valid(s)
    ensures |r| <= |ds|
    ensures forall d :: d in r <==> d in ds && Reachable(s, d.location)
  {
    if |ds| == 0 then []
    else if Reachable(s, ds[0].location) then [ds[0]] + KeepReachable(s, ds[1..])
    else KeepReachable(s, ds[1..])
  }

  /** The intention a desire becomes; a desire without an action becomes
      "go to" our own cell. */
  function ToIntention(s: Snapshot, d: Desire): (it: Intention)
    requires WellFormed(d)
    ensures it.action != Some(Wait) && it.action.Some?
    ensures d.action in {Some(GoTo), Some(PickUp), Some(PutDown)} ==> it.location == d.location && it.action == d.action
    ensures d.action == Some(PickUp) ==> it.args == [Str(d.parcel.value.id)]
    ensures d.action != Some(PickUp) ==> it.args == []
    ensures d.action.None? || d.action == Some(Wait) ==> it == Intention(s.me, Some(GoTo), [])
  {
    match d.action
    case Some(PickUp) => MakeIntention(d.location.x, d.location.y, "pick up", [Str(d.parcel.value.id)])
    case Some(PutDown) => MakeIntention(d.location.x, d.location.y, "put down", [])
    case Some(GoTo) => MakeIntention(d.location.x, d.location.y, "go to", [])
    case _ => MakeIntention(s.me.x, s.me.y, "go to", [])
  }

  /** `us[i]` is a largest value and no earlier value equals it. */
  predicate FirstMax(us: seq<ExtInt>, i: int) {
    && 0 <= i < |us|
    && (forall j :: 0 <= j < |us| ==> us[j].AtMost(us[i]))
    && (forall j :: 0 <= j < i ==> us[j] != us[i])
  }

  /** `us[i]` lies strictly below some value, is the largest of all values
      that do, and no earlier value equals it. */
  predicate FirstRunnerUp(us: seq<ExtInt>, i: int) {
    && 0 <= i < |us|
    && (exists k :: 0 <= k < |us| && us[i].Less(us[k]))
    && (forall j, k :: 0 <= j < |us| && 0 <= k < |us| && us[j].Less(us[k]) ==> us[j].AtMost(us[i]))
    && (forall j :: 0 <= j < i ==> us[j] != us[i])
  }

  predicate AllTie(us: seq<ExtInt>) {
    forall j :: 0 <= j < |us| ==> us[j] == us[0]
  }

  /** The values of `us` other than `v`, in order. */
  function Without(us: seq<ExtInt>, v: ExtInt): (r: seq<ExtInt>)
    ensures forall u :: u in r <==> u in us && u != v
  {
    if |us| == 0 then []
    else if us[0] != v then [us[0]] + Without(us[1..], v)
    else Without(us[1..], v)
  }

  /** The first index holding `v`. */
  function FirstIndex(us: seq<ExtInt>, v: ExtInt): (r: Option<nat>)
    ensures r.None? <==> v !in us
    ensures r.Some? ==> r.value < |us| && us[r.value] == v && forall j :: 0 <= j < r.value ==> us[j] != v
  {
    if |us| == 0 then None
    else if us[0] == v then Some(0)
    else match FirstIndex(us[1..], v)
      case None => None
      case Some(i) => Some(i + 1)
  }

  lemma LessAtMost(a: ExtInt, b: ExtInt, c: ExtInt)
    ensures a.Less(b) && b.AtMost(c) ==> a.Less(c)
    ensures a.AtMost(b) && b.Less(c) ==> a.Less(c)
    ensures a.AtMost(b) && b.AtMost(c) ==> a.AtMost(c)
    ensures !(a.Less(b) && b.AtMost(a))
    ensures a.AtMost(b) || b.Less(a)
  {
  }

  /** The index `filter` commits to.  Normal mode takes the first largest
      utility; change mode takes the first occurrence of the largest utility
      different from the largest one (`Math.max` of the rest, minus infinity
      when nothing differs), falling back to the first largest when that
      value does not occur. */
  function Choose(us: seq<ExtInt>, change: bool): (i: nat)
    requires |us| > 0
    ensures i < |us|
    ensures !change ==> FirstMax(us, i)
    ensures change && AllTie(us) ==> FirstMax(us, i)
    ensures change && !AllTie(us) ==> FirstRunnerUp(us, i)
  {
    var best := MaxAll(us);
    var second := MaxAll(Without(us, best));
    var top := FirstIndex(us, best).value;
    var i := if change && FirstIndex(us, second).Some? then FirstIndex(us, second).value else top;
    assert i < |us| && (!change || AllTie(us) ==> FirstMax(us, i)) && (change && !AllTie(us) ==> FirstRunnerUp(us, i)) by {
      ChooseCorrect(us, change, best, second, top, i);
    }
    i
  }

  lemma ChooseCorrect(us: seq<ExtInt>, change: bool, best: ExtInt, second: ExtInt, top: nat, i: nat)
    requires |us| > 0 && best == MaxAll(us) && second == MaxAll(Without(us, best))
    requires FirstIndex(us, best) == Some(top)
    requires i == if change && FirstIndex(us, second).Some? then FirstIndex(us, second).value else top
    ensures i < |us|
    ensures !change ==> FirstMax(us, i)
    ensures change && AllTie(us) ==> FirstMax(us, i)
    ensures change && !AllTie(us) ==> FirstRunnerUp(us, i)
  {
    var rest := Without(us, best);
    if change && !AllTie(us) {
      var j :| 0 <= j < |us| && us[j] != us[0];
      var o := if us[j] != best then j else 0;
      assert us[o] in rest;
      assert second in rest;
      assert i == FirstIndex(us, second).value;
      assert us[i] == second;
      var k := top;
      LessAtMost(second, best, best);
      assert us[i].Less(us[k]);
      forall a, b | 0 <= a < |us| && 0 <= b < |us| && us[a].Less(us[b])
        ensures us[a].AtMost(us[i])
      {
        LessAtMost(us[a], us[b], best);
        assert us[a] in rest;
      }
    } else if change {
      if FirstIndex(us, second).Some? {
        assert us[i] == second && us[i] == us[0];
        assert rest == [];
        assert us[0] == best;
      }
    }
  }

  /** The utilities of a list of intentions, in order. */
  function Utilities(s: Snapshot, its: seq<Intention>, bagScore: int, bagSize: nat): (us: seq<ExtInt>)
    requires Valid(s)
    ensures |us| == |its| && forall i :: 0 <= i < |its| ==> us[i] == Utility(s, its[i], bagScore, bagSize)
  {
    seq(|its|, i requires 0 <= i < |its| && Valid(s) => Utility(s, its[i], bagScore, bagSize))
  }

  /** The intentions the reachable desires become, in order. */
  function Candidates(s: Snapshot, ds: seq<Desire>): (its: seq<Intention>)
    requires Valid(s) && forall d :: d in ds ==> WellFormed(d)
    ensures |its| == |ds| && forall i :: 0 <= i < |ds| ==> its[i] == ToIntention(s, ds[i])
  {
    seq(|ds|, i requires 0 <= i < |ds| && forall d :: d in ds ==> WellFormed(d) => ToIntention(s, ds[i]))
  }

  /** The waiting intention: stay on our cell for 2000 ms. */
  function WaitHere(s: Snapshot): Intention {
    MakeIntention(s.me.x, s.me.y, "wait", [Num(2000)])
  }

  /** The intention committed among the reachable desires `kept`: the one
      whose utility is the first largest (normal mode) or the first
      runner-up (change mode, unless all utilities tie). */
  function Commit(s: Snapshot, kept: seq<Desire>, change: bool): (it: Intention)
    requires Valid(s) && |kept| > 0 && forall d :: d in kept ==> WellFormed(d)
    ensures it.action != Some(Wait)
    ensures var bag := Bag(s);
      var us := Utilities(s, Candidates(s, kept), BagScore(bag), |bag|);
      exists i :: (0 <= i < |kept| && it == ToIntention(s, kept[i]) &&
        if change && !AllTie(us) then FirstRunnerUp(us, i) else FirstMax(us, i))
  {
    var bag := Bag(s);
    var its := Candidates(s, kept);
    its[Choose(Utilities(s, its, BagScore(bag), |bag|), change)]
  }

  /** `filter(desires, changeIntention)`: the previous intentions are
      dropped and exactly one is committed.  With no reachable desire it is
      waiting; otherwise it is the committed intention of the reachable
      desires. */
  function Filter(s: Snapshot, ds: seq<Desire>, change: bool): (r: seq<Intention>)
    requires Valid(s) && forall d :: d in ds ==> WellFormed(d)
    ensures |r| == 1
    ensures r[0].action == Some(Wait) <==> forall d :: d in ds ==> !Reachable(s, d.location)
    ensures r[0].action == Some(Wait) ==> r[0] == Intention(s.me, Some(Wait), [Num(2000)])
    ensures var kept := KeepReachable(s, ds);
      var bag := Bag(s);
      var us := Utilities(s, Candidates(s, kept), BagScore(bag), |bag|);
      |kept| > 0 ==> exists i :: (0 <= i < |kept| && r[0] == ToIntention(s, kept[i]) &&
        if change && !AllTie(us) then FirstRunnerUp(us, i) else FirstMax(us, i))
  {
    var kept := KeepReachable(s, ds);
    if |kept| == 0 then
      [WaitHere(s)]
    else
      assert kept[0] in ds;
      [Commit(s, kept, change)]
  }

  /** `getFront()`: the first intention, or null. */
  function GetFront(its: seq<Intention>): (r: Option<Intention>)
    ensures r.None? <==> |its| == 0
    ensures r.Some? ==> r.value == its[0]
  {
    if |its| > 0 then Some(its[0]) else None
  }

  /* ---------------------------------------------------------------------
     Tests on the current intention
     --------------------------------------------------------------------- */

  /** `hasSucceeded()`. */
  function HasSucceeded(s: Snapshot, front: Option<Intention>): (ok: bool)
    requires Valid(s)
    ensures front.None? ==> ok
    ensures front.Some? && front.value.location != s.me ==> !ok
    ensures front.Some? && front.value.location == s.me ==>
      (front.value.action == Some(GoTo) ==> ok) &&
      (front.value.action == Some(PickUp) ==>
        (ok <==> exists p :: NamedParcel(s, front.value) == Some(p) && p.carriedBy == Some(s.myId))) &&
      (front.value.action == Some(PutDown) ==> (ok <==> |Bag(s)| == 0)) &&
      (front.value.action.None? || front.value.action == Some(Wait) ==> !ok)
  {
    match front
    case None => true
    case Some(it) =>
      DistZeroIffEqual(s.me, it.location);
      if Dist(s.me, it.location) > 0 then false
      else if it.action == Some(GoTo) then true
      else if it.action == Some(PickUp) then
        (match NamedParcel(s, it)
         case None => false
         case Some(p) => p.carriedBy == Some(s.myId))
      else if it.action == Some(PutDown) then |Bag(s)| == 0
      else false
  }

  /** `isImpossible()`.  On its target, a pick-up is possible only while the
      parcel lies on our cell uncarried, and a put-down only on a delivery
      spot; a pick-up whose parcel is no longer stored makes the source throw
      when it measures the distance to null.  Off target the source returns
      undefined, which its caller reads as false. */
  function IsImpossible(s: Snapshot, front: Option<Intention>): (r: Result<bool>)
    requires Valid(s)
    ensures front.None? || front.value.location != s.me ==> r == Ok(false)
    ensures front.Some? && front.value.location == s.me && front.value.action == Some(PickUp) ==>
      (r.Err? <==> NamedParcel(s, front.value).None?) &&
      (r.Ok? ==> var p := NamedParcel(s, front.value).value;
        (r.value <==> Pos(p.x, p.y) != s.me || Carried(p)))
    ensures front.Some? && front.value.location == s.me && front.value.action == Some(PutDown) ==>
      r == Ok(s.me !in s.delivery)
    ensures front.Some? && front.value.action !in {Some(PickUp), Some(PutDown)} ==> r == Ok(false)
  {
    match front
    case None => Ok(false)
    case Some(it) =>
      DistZeroIffEqual(s.me, it.location);
      if Dist(s.me, it.location) != 0 then Ok(false)
      else if it.action == Some(PickUp) then
        (match NamedParcel(s, it)
         case None => Err("TypeError: the parcel to pick up is no longer known")
         case Some(p) =>
           DistZeroIffEqual(s.me, Pos(p.x, p.y));
           Ok(!(Dist(s.me, Pos(p.x, p.y)) == 0 && !Carried(p))))
      else if it.action == Some(PutDown) then
        Ok(!exists i :: 0 <= i < |s.delivery| && Dist(s.me, s.delivery[i]) == 0)
      else Ok(false)
  }

  /** The pick-up and put-down intentions `reconsider` compares against:
      one per reachable free parcel and, when the bag scores above zero, one
      per reachable delivery spot, and nothing else. */
  function Alternatives(s: Snapshot): (its: seq<Intention>)
    requires Valid(s)
    ensures forall it :: it in its ==> it.action in {Some(PickUp), Some(PutDown)} && Reachable(s, it.location)
    ensures forall p :: p in FreeParcels(AllParcels(s.parcels)) && Reachable(s, Pos(p.x, p.y)) ==>
      Intention(Pos(p.x, p.y), Some(PickUp), [Str(p.id)]) in its
    ensures forall z :: z in s.delivery && Reachable(s, z) && BagScore(Bag(s)) > 0 ==>
      Intention(z, Some(PutDown), []) in its
    ensures BagScore(Bag(s)) <= 0 ==> forall it :: it in its ==> it.action == Some(PickUp)
    ensures forall it :: it in its && it.action == Some(PickUp) ==>
      exists p :: p in FreeParcels(AllParcels(s.parcels)) && Reachable(s, Pos(p.x, p.y)) &&
        it == Intention(Pos(p.x, p.y), Some(PickUp), [Str(p.id)])
    ensures forall it :: it in its && it.action == Some(PutDown) ==>
      it == Intention(it.location, Some(PutDown), []) && it.location in s.delivery && BagScore(Bag(s)) > 0
  {
    var picks := PickIntentions(s, FreeParcels(AllParcels(s.parcels)));
    var puts := if BagScore(Bag(s)) > 0 then PutIntentions(s, s.delivery) else [];
    picks + puts
  }

  function PickIntentions(s: Snapshot, ps: seq<Parcel>): (its: seq<Intention>)
    requires Valid(s)
    ensures forall it :: it in its ==> it.action == Some(PickUp) && Reachable(s, it.location)
    ensures forall p :: p in ps && Reachable(s, Pos(p.x, p.y)) ==> Intention(Pos(p.x, p.y), Some(PickUp), [Str(p.id)]) in its
    ensures forall it :: it in its ==>
      exists p :: p in ps && Reachable(s, Pos(p.x, p.y)) && it == Intention(Pos(p.x, p.y), Some(PickUp), [Str(p.id)])
  {
    if |ps| == 0 then []
    else
      var rest := PickIntentions(s, ps[1..]);
      if Reachable(s, Pos(ps[0].x, ps[0].y)) then [MakeIntention(ps[0].x, ps[0].y, "pick up", [Str(ps[0].id)])] + rest
      else rest
  }

  function PutIntentions(s: Snapshot, zones: seq<Pos>): (its: seq<Intention>)
    requires Valid(s)
    ensures forall it :: it in its ==> it.action == Some(PutDown) && Reachable(s, it.location)
    ensures forall z :: z in zones && Reachable(s, z) ==> Intention(z, Some(PutDown), []) in its
    ensures forall it :: it in its ==> it.location in zones && it == Intention(it.location, Some(PutDown), [])
  {
    if |zones| == 0 then []
    else
      var rest := PutIntentions(s, zones[1..]);
      if Reachable(s, zones[0]) then [MakeIntention(zones[0].x, zones[0].y, "put down", [])] + rest
      else rest
  }

  /** `reconsider()` as written.  The new best utility is computed as
      `Math.max.apply(list)`, which passes the list as `this` and no
      arguments, so it is minus infinity whatever the alternatives are, and
      `old_best < new_best` never holds: the answer is true exactly when
      there is no current intention. */
  function Reconsider(s: Snapshot, front: Option<Intention>): (r: bool)
    requires Valid(s)
    ensures r <==> front.None?
  {
    match front
    case None => true
    case Some(it) =>
      var bag := Bag(s);
      var oldBest := Utility(s, it, BagScore(bag), |bag|);
      var newBest := MaxAll([]);
      oldBest.Less(newBest)
  }

  /** `reconsider()` as its comment describes it: reconsider when some
      alternative has a strictly larger utility than the current intention. */
  function ReconsiderIntended(s: Snapshot, front: Option<Intention>): (r: bool)
    requires Valid(s)
    ensures front.None? ==> r
    ensures front.Some? ==> (r <==> exists a :: (a in Alternatives(s) &&
      Utility(s, front.value, BagScore(Bag(s)), |Bag(s)|).Less(Utility(s, a, BagScore(Bag(s)), |Bag(s)|))))
  {
    match front
    case None => true
    case Some(it) =>
      var bag := Bag(s);
      var alts := Alternatives(s);
      var us := Utilities(s, alts, BagScore(bag), |bag|);
      var oldBest := Utility(s, it, BagScore(bag), |bag|);
      var newBest := MaxAll(us);
      IntendedCorrect(us, oldBest);
      assert forall a :: a in alts ==> Utility(s, a, BagScore(bag), |bag|) in us;
      oldBest.Less(newBest)
  }

  lemma IntendedCorrect(us: seq<ExtInt>, cur: ExtInt)
    ensures cur.Less(MaxAll(us)) <==> exists u :: u in us && cur.Less(u)
  {
    if exists u :: u in us && cur.Less(u) {
      var u :| u in us && cur.Less(u);
      LessAtMost(cur, u, MaxAll(us));
    }
  }

  /* ---------------------------------------------------------------------
     Properties
     --------------------------------------------------------------------- */

  /** Pick-up utility never decreases when the parcel's reward grows, paths
      and bag held fixed. */
  lemma {:induction false} PickUpMonotoneInReward(s: Snapshot, it: Intention, t2: Table<Parcel>,
                                                  bagScore: int, bagSize: nat, reward2: int)
    requires Valid(s) && ParcelSense.Valid(t2) && it.action == Some(PickUp)
    requires NamedParcel(s, it).Some?
    requires NamedParcel(s.(parcels := t2), it) == Some(NamedParcel(s, it).value.(reward := reward2))
    requires reward2 >= NamedParcel(s, it).value.reward
    ensures Utility(s, it, bagScore, bagSize).AtMost(Utility(s.(parcels := t2), it, bagScore, bagSize))
  {
    var s2 := s.(parcels := t2);
    var p := NamedParcel(s, it).value;
    var p2 := p.(reward := reward2);
    var u1 := Utility(s, it, bagScore, bagSize);
    var u2 := Utility(s2, it, bagScore, bagSize);
    if u1.Fin? {
      var z :| z in s.delivery && u1.n == ZoneValue(s, p, it.location, z, bagScore, bagSize);
      ZoneValueMonotone(s, s2, p, reward2, it.location, z, bagScore, bagSize);
      LessAtMost(u1, Fin(ZoneValue(s2, p2, it.location, z, bagScore, bagSize)), u2);
    }
  }

  /** A larger reward never lowers a zone value, path lengths held fixed. */
  lemma ZoneValueMonotone(s: Snapshot, s2: Snapshot, p: Parcel, reward2: int, target: Pos, z: Pos, bagScore: int, bagSize: nat)
    requires reward2 >= p.reward && s2.freeLen == s.freeLen && s2.pathLen == s.pathLen
    ensures ZoneValue(s, p, target, z, bagScore, bagSize) <= ZoneValue(s2, p.(reward := reward2), target, z, bagScore, bagSize)
  {
    var dd := s.freeLen(Pos(p.x, p.y), z);
    var m := Max0(bagScore - bagSize * (dd + s.pathLen(target)));
    assert p.reward - dd + m <= reward2 - dd + m;
  }

  /** Every delivery spot bounds the pick-up utility from below by the
      parcel's reward less the delivery leg, scaled by 100. */
  lemma PickUpLowerBound(s: Snapshot, it: Intention, bagScore: int, bagSize: nat, z: Pos)
    requires Valid(s) && it.action == Some(PickUp) && NamedParcel(s, it).Some? && z in s.delivery
    ensures var p := NamedParcel(s, it).value;
      Fin(100 * (p.reward - s.freeLen(Pos(p.x, p.y), z))).AtMost(Utility(s, it, bagScore, bagSize))
  {
    var p := NamedParcel(s, it).value;
    LessAtMost(Fin(100 * (p.reward - s.freeLen(Pos(p.x, p.y), z))),
      Fin(ZoneValue(s, p, it.location, z, bagScore, bagSize)), Utility(s, it, bagScore, bagSize));
  }

  /** A put-down further away is worth no more, and strictly less with a
      non-empty bag. */
  lemma PutDownDecreasesWithDistance(s: Snapshot, it: Intention, bagScore: int, bagSize: nat, len2: Pos -> nat)
    requires Valid(s) && it.action == Some(PutDown)
    requires len2(it.location) > s.pathLen(it.location)
    ensures Utility(s.(pathLen := len2), it, bagScore, bagSize).AtMost(Utility(s, it, bagScore, bagSize))
    ensures bagSize > 0 ==> Utility(s.(pathLen := len2), it, bagScore, bagSize).Less(Utility(s, it, bagScore, bagSize))
  {
    var a := s.pathLen(it.location);
    var b := len2(it.location);
    assert bagSize * a <= bagSize * b by {
      MulLe(bagSize, a, b);
    }
    if bagSize > 0 {
      assert bagSize * a < bagSize * b by {
        MulLt(bagSize, a, b);
      }
    }
  }

  lemma MulLe(k: nat, a: nat, b: nat)
    requires a <= b
    ensures k * a <= k * b
  {
  }

  lemma MulLt(k: nat, a: nat, b: nat)
    requires a < b && k > 0
    ensures k * a < k * b
  {
  }

  /** Filtering commits the intention of a desire the agent can reach, or
      waits: it never commits to an unreachable target. */
  lemma FilterReachable(s: Snapshot, ds: seq<Desire>, change: bool)
    requires Valid(s) && forall d :: d in ds ==> WellFormed(d)
    ensures var it := Filter(s, ds, change)[0];
      it.action == Some(Wait) || exists d :: d in ds && Reachable(s, d.location) && it == ToIntention(s, d)
  {
    var it := Filter(s, ds, change)[0];
    var kept := KeepReachable(s, ds);
    if it.action != Some(Wait) {
      var i :| 0 <= i < |kept| && it == ToIntention(s, kept[i]);
      assert kept[i] in kept;
    }
  }

  /** Keeping the reachable desires is order-preserving: it distributes over
      concatenation. */
  lemma {:induction false} KeepReachableAppend(s: Snapshot, a: seq<Desire>, b: seq<Desire>)
    requires Valid(s)
    ensures KeepReachable(s, a + b) == KeepReachable(s, a) + KeepReachable(s, b)
  {
    if |a| > 0 {
      assert (a + b)[1..] == a[1..] + b;
      KeepReachableAppend(s, a[1..], b);
    } else {
      assert a + b == b;
    }
  }

  /** With change mode off, no reachable candidate has a larger utility than
      the committed one. */
  lemma NormalModeBest(s: Snapshot, ds: seq<Desire>)
    requires Valid(s) && forall d :: d in ds ==> WellFormed(d)
    requires exists d :: d in ds && Reachable(s, d.location)
    ensures var kept := KeepReachable(s, ds);
      var bag := Bag(s);
      var it := Filter(s, ds, false)[0];
      forall j :: 0 <= j < |kept| ==>
        Utility(s, ToIntention(s, kept[j]), BagScore(bag), |bag|).AtMost(Utility(s, it, BagScore(bag), |bag|))
  {
    var kept := KeepReachable(s, ds);
    var d :| d in ds && Reachable(s, d.location);
    assert d in kept;
    var bag := Bag(s);
    var us := Utilities(s, Candidates(s, kept), BagScore(bag), |bag|);
    var it := Filter(s, ds, false)[0];
    var i :| 0 <= i < |kept| && it == ToIntention(s, kept[i]) && FirstMax(us, i);
    forall j | 0 <= j < |kept|
      ensures Utility(s, ToIntention(s, kept[j]), BagScore(bag), |bag|).AtMost(Utility(s, it, BagScore(bag), |bag|))
    {
      assert us[j].AtMost(us[i]);
    }
  }

  /** Waiting never counts as succeeded: `hasSucceeded` has no branch for it. */
  lemma WaitNeverSucceeds(s: Snapshot, it: Intention)
    requires Valid(s) && it.action == Some(Wait)
    ensures !HasSucceeded(s, Some(it))
  {
  }

  /** On its target, a pick-up that has succeeded also reads as impossible:
      the parcel is now carried (by us), so the control loop must test
      success before impossibility. */
  lemma SucceededPickUpIsImpossible(s: Snapshot, it: Intention)
    requires Valid(s) && it.action == Some(PickUp) && it.location == s.me && s.myId != ""
    requires HasSucceeded(s, Some(it))
    ensures IsImpossible(s, Some(it)) == Ok(true)
  {
  }

  /** As written, `reconsider` ignores every alternative: whenever the
      intended comparison asks to reconsider a current intention, the
      written one does not. */
  lemma ReconsiderIgnoresAlternatives(s: Snapshot, it: Intention)
    requires Valid(s)
    ensures ReconsiderIntended(s, Some(it)) ==> !Reconsider(s, Some(it))
    ensures Reconsider(s, None) == ReconsiderIntended(s, None)
  {
  }
}
