/** The candidate list of Agent/desires.js: go to every exploration spot,
    pick up every free parcel and, when the bag is not empty, put down at
    every delivery spot, in that order. */
module Desires {
  import opened Base
  import opened Table
  import opened ParcelSense

  /** The actions of desires and intentions. */
  datatype Act = GoTo | PickUp | PutDown | Wait

  /** The action a string names: "go to", "pick up", "put down" or "wait". */
  function ParseAct(s: string): (a: Option<Act>)
    ensures a == Some(GoTo) <==> s == "go to"
    ensures a == Some(PickUp) <==> s == "pick up"
    ensures a == Some(PutDown) <==> s == "put down"
    ensures a == Some(Wait) <==> s == "wait"
  {
    if s == "go to" then Some(GoTo)
    else if s == "pick up" then Some(PickUp)
    else if s == "put down" then Some(PutDown)
    else if s == "wait" then Some(Wait)
    else None
  }

  /** A desire: a target cell, an action (undefined when the constructor was
      given any other string) and, for a pick-up, the parcel. */
  datatype Desire = Desire(location: Pos, action: Option<Act>, parcel: Option<Parcel>)

  /** `new Desire(x, y, action, parcel)`: only the three desire actions are
      kept, and the parcel only for "pick up". */
  function MakeDesire(x: int, y: int, action: string, parcel: Option<Parcel>): (d: Desire)
    ensures d.location == Pos(x, y)
    ensures d.action.Some? <==> action in {"go to", "pick up", "put down"}
    ensures d.action.Some? ==> d.action == ParseAct(action)
    ensures d.action != Some(Wait)
    ensures d.parcel == if action == "pick up" then parcel else None
  {
    var act := if action == "pick up" || action == "go to" || action == "put down" then ParseAct(action) else None;
    Desire(Pos(x, y), act, if act == Some(PickUp) then parcel else None)
  }

  function GoToSpots(spots: seq<Pos>): (ds: seq<Desire>)
    ensures |ds| == |spots|
    ensures forall i :: 0 <= i < |spots| ==> ds[i] == Desire(spots[i], Some(GoTo), None)
  {
    if |spots| == 0 then [] else [MakeDesire(spots[0].x, spots[0].y, "go to", None)] + GoToSpots(spots[1..])
  }

  function PickUps(ps: seq<Parcel>): (ds: seq<Desire>)
    ensures |ds| == |ps|
    ensures forall i :: 0 <= i < |ps| ==> ds[i] == Desire(Pos(ps[i].x, ps[i].y), Some(PickUp), Some(ps[i]))
  {
    if |ps| == 0 then [] else [MakeDesire(ps[0].x, ps[0].y, "pick up", Some(ps[0]))] + PickUps(ps[1..])
  }

  function PutDowns(zones: seq<Pos>): (ds: seq<Desire>)
    ensures |ds| == |zones|
    ensures forall i :: 0 <= i < |zones| ==> ds[i] == Desire(zones[i], Some(PutDown), None)
  {
    if |zones| == 0 then [] else [MakeDesire(zones[0].x, zones[0].y, "put down", None)] + PutDowns(zones[1..])
  }

  /** The exploration spots of the table as positions; `None` when some spot
      is null, which makes the source throw when it reads `spot.x`. */
  function SpotPositions(spots: Table<Option<Pos>>): (r: Option<seq<Pos>>)
    ensures r.None? <==> exists i :: 0 <= i < |spots| && spots[i].1.None?
    ensures r.Some? ==> |r.value| == |spots| && forall i :: 0 <= i < |spots| ==> spots[i].1 == Some(r.value[i])
  {
    if |spots| == 0 then Some([])
    else match (spots[0].1, SpotPositions(spots[1..]))
      case (Some(p), Some(rest)) =>
        assert forall i :: 1 <= i < |spots| ==> spots[i] == spots[1..][i - 1];
        Some([p] + rest)
      case (None, _) => None
      case (_, None) =>
        var i :| 0 <= i < |spots| - 1 && spots[1..][i].1.None?;
        assert spots[i + 1].1.None?;
        None
  }

  /** The first desires of `ds` go to the spots of the table, in order. */
  predicate GoTosAt(ds: seq<Desire>, spots: Table<Option<Pos>>) {
    |spots| <= |ds| &&
    forall i :: 0 <= i < |spots| ==> Some(ds[i].location) == spots[i].1 && ds[i].action == Some(GoTo)
  }

  /** From index `n` on, `ds` holds a pick-up desire for each parcel of `free`, in order. */
  predicate PickUpsAt(ds: seq<Desire>, n: nat, free: seq<Parcel>) {
    n + |free| <= |ds| &&
    forall i :: 0 <= i < |free| ==> ds[n + i] == Desire(Pos(free[i].x, free[i].y), Some(PickUp), Some(free[i]))
  }

  /** From index `n` on, `ds` holds a put-down desire for each spot of `zones`, in order. */
  predicate PutDownsAt(ds: seq<Desire>, n: nat, zones: seq<Pos>) {
    n + |zones| <= |ds| &&
    forall i :: 0 <= i < |zones| ==> ds[n + i] == Desire(zones[i], Some(PutDown), None)
  }

  /** The order `new Desires` builds its list in: a go-to for each spot of
      the table, then a pick-up for each free parcel, then, only when the
      bag is not empty, a put-down for each delivery spot. */
  predicate Layout(ds: seq<Desire>, spots: Table<Option<Pos>>, free: seq<Parcel>, bag: seq<Parcel>, delivery: seq<Pos>) {
    && |ds| == |spots| + |free| + (if |bag| > 0 then |delivery| else 0)
    && GoTosAt(ds, spots)
    && PickUpsAt(ds, |spots|, free)
    && (|bag| > 0 ==> PutDownsAt(ds, |spots| + |free|, delivery))
  }

  /** The desire list from the spot positions, the free parcels, the bag and
      the delivery spots. */
  function Assemble(spots: seq<Pos>, free: seq<Parcel>, bag: seq<Parcel>, delivery: seq<Pos>): (ds: seq<Desire>)
    ensures |ds| == |spots| + |free| + (if |bag| > 0 then |delivery| else 0)
    ensures forall i :: 0 <= i < |spots| ==> ds[i] == Desire(spots[i], Some(GoTo), None)
    ensures PickUpsAt(ds, |spots|, free)
    ensures |bag| > 0 ==> PutDownsAt(ds, |spots| + |free|, delivery)
  {
    var a := GoToSpots(spots);
    var b := PickUps(free);
    var c := if |bag| > 0 then PutDowns(delivery) else [];
    assert PickUpsAt(a + b + c, |spots|, free) by {
      PickUpsAfter(a, free, c);
    }
    assert |bag| > 0 ==> PutDownsAt(a + b + c, |spots| + |free|, delivery) by {
      if |bag| > 0 {
        PutDownsAfter(a + b, delivery);
      }
    }
    a + b + c
  }

  /** Pick-ups placed after `a` sit at the indices that follow it. */
  lemma PickUpsAfter(a: seq<Desire>, free: seq<Parcel>, c: seq<Desire>)
    ensures PickUpsAt(a + PickUps(free) + c, |a|, free)
  {
    var b := PickUps(free);
    var ds := a + b + c;
    forall i | 0 <= i < |free|
      ensures ds[|a| + i] == b[i]
    {
    }
  }

  /** Put-downs placed after `a` sit at the indices that follow it. */
  lemma PutDownsAfter(a: seq<Desire>, zones: seq<Pos>)
    ensures PutDownsAt(a + PutDowns(zones), |a|, zones)
  {
    var c := PutDowns(zones);
    var ds := a + c;
    forall i | 0 <= i < |zones|
      ensures ds[|a| + i] == c[i]
    {
    }
  }

  /** `new Desires(beliefs)`, from the exploration-spot table, the parcel
      store, our id and the delivery spots.  A null exploration spot makes
      the source throw when it reads `spot.x`. */
  function MakeDesires(spots: Table<Option<Pos>>, parcels: Table<Parcel>, myId: string, delivery: seq<Pos>)
    : (r: Result<seq<Desire>>)
    ensures r.Err? <==> exists i :: 0 <= i < |spots| && spots[i].1.None?
    ensures r.Ok? ==> Layout(r.value, spots, FreeParcels(Values(parcels)), MyBag(Values(parcels), myId), delivery)
  {
    match SpotPositions(spots)
    case None => Err("TypeError: an exploration spot is null")
    case Some(ps) =>
      var free := FreeParcels(Values(parcels));
      var bag := MyBag(Values(parcels), myId);
      var ds := Assemble(ps, free, bag, delivery);
      assert Layout(ds, spots, free, bag, delivery) by {
        AssembleLayout(spots, ps, free, bag, delivery);
      }
      Ok(ds)
  }

  /** Assembling from the positions of the spot table lays the desires out
      in the order of `Layout`. */
  lemma AssembleLayout(spots: Table<Option<Pos>>, ps: seq<Pos>, free: seq<Parcel>, bag: seq<Parcel>, delivery: seq<Pos>)
    requires |ps| == |spots| && forall i :: 0 <= i < |spots| ==> spots[i].1 == Some(ps[i])
    ensures Layout(Assemble(ps, free, bag, delivery), spots, free, bag, delivery)
  {
  }

  /* ---------------------------------------------------------------------
     Properties
     --------------------------------------------------------------------- */

  /** A desire list laid out as go-tos, then pick-ups, then put-downs has
      its put-downs exactly at the end. */
  lemma {:induction false} LayoutActions(ds: seq<Desire>, spots: Table<Option<Pos>>, free: seq<Parcel>, bag: seq<Parcel>, delivery: seq<Pos>)
    requires Layout(ds, spots, free, bag, delivery)
    ensures forall i :: 0 <= i < |ds| ==> (ds[i].action == Some(PutDown) <==> |spots| + |free| <= i)
    ensures forall i :: 0 <= i < |spots| + |free| ==> ds[i].action in {Some(GoTo), Some(PickUp)}
  {
    var m := |spots|;
    var n := m + |free|;
    forall i | 0 <= i < |ds|
      ensures ds[i].action == Some(PutDown) <==> n <= i
      ensures i < n ==> ds[i].action in {Some(GoTo), Some(PickUp)}
    {
      if i < m {
      } else if i < n {
        var p := free[i - m];
      } else {
        var z := delivery[i - n];
      }
    }
  }

  /** A desire is a put-down exactly when it lies past the go-to and pick-up
      desires, and those exist only when the bag is not empty; every desire
      before them is a go-to or a pick-up. */
  lemma PutDownIffBag(spots: Table<Option<Pos>>, parcels: Table<Parcel>, myId: string, delivery: seq<Pos>)
    requires MakeDesires(spots, parcels, myId, delivery).Ok?
    ensures var ds := MakeDesires(spots, parcels, myId, delivery).value;
      var n := |spots| + |FreeParcels(Values(parcels))|;
      && (forall i :: 0 <= i < |ds| ==> (ds[i].action == Some(PutDown) <==> n <= i))
      && (forall i :: 0 <= i < n ==> ds[i].action in {Some(GoTo), Some(PickUp)})
      && (|ds| > n <==> |MyBag(Values(parcels), myId)| > 0 && |delivery| > 0)
  {
    var ds := MakeDesires(spots, parcels, myId, delivery).value;
    LayoutActions(ds, spots, FreeParcels(Values(parcels)), MyBag(Values(parcels), myId), delivery);
  }

  /** Every free parcel is the target of a pick-up desire, which carries
      that parcel; `PickUpOnce` shows there is only one. */
  lemma OnePickUpPerFreeParcel(spots: Table<Option<Pos>>, parcels: Table<Parcel>, myId: string,
                               delivery: seq<Pos>, p: Parcel)
    requires MakeDesires(spots, parcels, myId, delivery).Ok?
    requires p in FreeParcels(Values(parcels))
    ensures var ds := MakeDesires(spots, parcels, myId, delivery).value;
      exists i :: 0 <= i < |ds| && ds[i] == Desire(Pos(p.x, p.y), Some(PickUp), Some(p))
  {
    var ds := MakeDesires(spots, parcels, myId, delivery).value;
    var free := FreeParcels(Values(parcels));
    var j :| 0 <= j < |free| && free[j] == p;
    assert ds[|spots| + j] == Desire(Pos(p.x, p.y), Some(PickUp), Some(p));
  }

  /** In a desire list laid out as go-tos, pick-ups of distinct parcels and
      put-downs, no two desires pick up the same parcel. */
  lemma {:induction false} PickUpSlotOnce(ds: seq<Desire>, spots: Table<Option<Pos>>, free: seq<Parcel>, bag: seq<Parcel>,
                                         delivery: seq<Pos>, d: Desire)
    requires Layout(ds, spots, free, bag, delivery)
    requires Distinct(free) && d.action == Some(PickUp)
    ensures forall i, j :: 0 <= i < |ds| && 0 <= j < |ds| && ds[i] == d && ds[j] == d ==> i == j
  {
    var m := |spots|;
    LayoutActions(ds, spots, free, bag, delivery);
    forall i, j | 0 <= i < |ds| && 0 <= j < |ds| && ds[i] == d && ds[j] == d
      ensures i == j
    {
      var a := free[i - m];
      var b := free[j - m];
    }
  }

  /** On a well-formed parcel store, no two desires pick up the same parcel. */
  lemma PickUpOnce(spots: Table<Option<Pos>>, parcels: Table<Parcel>, myId: string, delivery: seq<Pos>, p: Parcel)
    requires Valid(parcels)
    requires MakeDesires(spots, parcels, myId, delivery).Ok?
    ensures var ds := MakeDesires(spots, parcels, myId, delivery).value;
      var d := Desire(Pos(p.x, p.y), Some(PickUp), Some(p));
      forall i, j :: 0 <= i < |ds| && 0 <= j < |ds| && ds[i] == d && ds[j] == d ==> i == j
  {
    var free := FreeParcels(Values(parcels));
    assert Distinct(free) by {
      StoredDistinct(parcels);
      FreeParcelsDistinct(Values(parcels));
    }
    PickUpSlotOnce(MakeDesires(spots, parcels, myId, delivery).value, spots, free,
      MyBag(Values(parcels), myId), delivery, Desire(Pos(p.x, p.y), Some(PickUp), Some(p)));
  }

  /** With every exploration spot set, desire generation never throws. */
  lemma DesiresDefined(spots: Table<Option<Pos>>, parcels: Table<Parcel>, myId: string, delivery: seq<Pos>)
    requires forall i :: 0 <= i < |spots| ==> spots[i].1.Some?
    ensures MakeDesires(spots, parcels, myId, delivery).Ok?
  {
  }
}
