/** The parcel store of utils/ParcelSense.js: the last known state of every
    parcel the agent has seen and not yet forgotten, in discovery order. */
module ParcelSense {
  import opened Base
  import opened BenchMark
  import opened Table

  /** A sensed parcel as the server reports it.  `carriedBy` is null for a
      parcel on the ground; coordinates are fractional while it is carried
      by a moving agent. */
  datatype ParcelReport = ParcelReport(id: string, x: real, y: real, carriedBy: Option<string>, reward: int)

  /** A stored parcel: only reports on whole tiles are kept. */
  datatype Parcel = Parcel(id: string, x: int, y: int, carriedBy: Option<string>, reward: int)

  datatype ParcelsDB = ParcelsDB(database: Table<Parcel>, lastUpdate: seq<string>)

  /** Every stored parcel is filed under its own id. */
  predicate Valid(t: Table<Parcel>) {
    UniqueKeys(t) && forall i :: 0 <= i < |t| ==> t[i].1.id == t[i].0
  }

  /** `x % 1 != 0` on a JavaScript number: the value is not whole. */
  predicate Fractional(r: real) {
    r.Floor as real != r
  }

  function Stored(p: ParcelReport): (q: Parcel)
    requires !Fractional(p.x) && !Fractional(p.y)
    ensures q.id == p.id && q.carriedBy == p.carriedBy && q.reward == p.reward
    ensures q.x as real == p.x && q.y as real == p.y
  {
    Parcel(p.id, p.x.Floor, p.y.Floor, p.carriedBy, p.reward)
  }

  /** One iteration of `updateParcelsData`: reports between tiles are
      skipped, a new parcel is recorded only when nobody carries it, and a
      known parcel is overwritten by the report. */
  function Record(t: Table<Parcel>, p: ParcelReport): (r: Table<Parcel>)
    requires Valid(t)
    ensures Valid(r)
    ensures (Fractional(p.x) || Fractional(p.y)) ==> r == t
    ensures (!HasKey(t, p.id) && p.carriedBy.Some?) ==> r == t
    ensures (!Fractional(p.x) && !Fractional(p.y)) ==>
      (HasKey(t, p.id) || p.carriedBy.None?) ==> Get(r, p.id) == Some(Stored(p))
    ensures forall k :: k != p.id ==> (HasKey(r, k) <==> HasKey(t, k))
    ensures |t| <= |r| <= |t| + 1
    ensures forall i :: 0 <= i < |t| && t[i].0 != p.id ==> r[i] == t[i]
    ensures HasKey(r, p.id) <==> HasKey(t, p.id) || Discoverable(p)
    ensures forall i :: 0 <= i < |t| ==> r[i].0 == t[i].0
  {
    if Fractional(p.x) || Fractional(p.y) then t
    else if !HasKey(t, p.id) && p.carriedBy.Some? then t
    else
      Set(t, p.id, Stored(p))
  }

  /** A report on a whole tile: the only kind `updateParcelsData` uses. */
  predicate Whole(p: ParcelReport) {
    !Fractional(p.x) && !Fractional(p.y)
  }

  /** A report that records a parcel not yet known: on a whole tile and
      carried by nobody. */
  predicate Discoverable(p: ParcelReport) {
    Whole(p) && p.carriedBy.None?
  }

  /** `batch[i]` is on a whole tile and no later report of the same parcel is. */
  predicate LastWhole(batch: seq<ParcelReport>, i: int)
    requires 0 <= i < |batch|
  {
    Whole(batch[i]) && forall m :: i < m < |batch| && batch[m].id == batch[i].id ==> !Whole(batch[m])
  }

  /** Some report of parcel `k` in `batch` lies on a whole tile. */
  ghost predicate Touched(batch: seq<ParcelReport>, k: string) {
    exists m :: 0 <= m < |batch| && batch[m].id == k && Whole(batch[m])
  }

  /** Parcel `a` is discovered in `batch` before parcel `b`: some report
      discovers `a`, and no report up to that one discovers `b`. */
  ghost predicate FoundBefore(batch: seq<ParcelReport>, a: string, b: string) {
    exists m :: 0 <= m < |batch| && batch[m].id == a && Discoverable(batch[m]) &&
      forall n :: 0 <= n <= m && batch[n].id == b ==> !Discoverable(batch[n])
  }

  /** What recording `batch` into `t` leaves in `r`: the known parcels are
      the previous ones and those the batch discovers, the previous ones
      keep their place and the discovered ones follow in the order of their
      first discovery, those with no whole-tile report keep their state,
      and a parcel whose last whole-tile report is `batch[i]` holds that
      report whenever it is known. */
  ghost predicate Ingested(t: Table<Parcel>, batch: seq<ParcelReport>, r: Table<Parcel>)
    requires Valid(r)
  {
    && (forall k :: HasKey(r, k) <==> HasKey(t, k) || exists i :: 0 <= i < |batch| && batch[i].id == k && Discoverable(batch[i]))
    && |t| <= |r| && (forall i :: 0 <= i < |t| ==> r[i].0 == t[i].0)
    && (forall i, j :: |t| <= i < j < |r| ==> FoundBefore(batch, r[i].0, r[j].0))
    && (forall i :: 0 <= i < |t| && !Touched(batch, t[i].0) ==> r[i] == t[i])
    && (forall i :: 0 <= i < |batch| && LastWhole(batch, i) && HasKey(r, batch[i].id) ==> Get(r, batch[i].id) == Some(Stored(batch[i])))
  }

  /** The loop of `updateParcelsData`: the reports recorded in order. */
  function RecordAll(t: Table<Parcel>, batch: seq<ParcelReport>): (r: Table<Parcel>)
    requires Valid(t)
    ensures Valid(r) && Ingested(t, batch, r)
    ensures forall k :: HasKey(t, k) ==> HasKey(r, k)
    decreases |batch|
  {
    if |batch| == 0 then t
    else
      var t1 := Record(t, batch[0]);
      var r := RecordAll(t1, batch[1..]);
      RecordAllStep(t, batch, t1, r);
      r
  }

  /** Recording a batch is recording its first report, then the rest. */
  lemma RecordAllStep(t: Table<Parcel>, batch: seq<ParcelReport>, t1: Table<Parcel>, r: Table<Parcel>)
    requires Valid(t) && |batch| > 0 && t1 == Record(t, batch[0])
    requires Valid(r) && Ingested(t1, batch[1..], r)
    ensures Ingested(t, batch, r)
  {
    RecordAllKeys(t, batch, t1, r);
    RecordAllPlaces(t, batch, t1, r);
    RecordAllOrder(t, batch, t1, r);
    RecordAllKeeps(t, batch, t1, r);
    RecordAllLast(t, batch, t1, r);
  }

  /** A parcel is known after a batch when it was known before or some
      report of the batch discovers it. */
  lemma RecordAllKeys(t: Table<Parcel>, batch: seq<ParcelReport>, t1: Table<Parcel>, r: Table<Parcel>)
    requires Valid(t) && |batch| > 0 && t1 == Record(t, batch[0])
    requires Valid(r) && Ingested(t1, batch[1..], r)
    ensures forall k :: HasKey(r, k) <==> HasKey(t, k) || exists i :: 0 <= i < |batch| && batch[i].id == k && Discoverable(batch[i])
  {
    var rest := batch[1..];
    assert forall m :: 0 <= m < |rest| ==> rest[m] == batch[m + 1];
  }

  /** Parcels known before a batch keep their place. */
  lemma RecordAllPlaces(t: Table<Parcel>, batch: seq<ParcelReport>, t1: Table<Parcel>, r: Table<Parcel>)
    requires Valid(t) && |batch| > 0 && t1 == Record(t, batch[0])
    requires Valid(r) && Ingested(t1, batch[1..], r)
    ensures |t| <= |r| && (forall i :: 0 <= i < |t| ==> r[i].0 == t[i].0)
  {
  }

  /** Parcels a batch discovers follow the earlier ones in the order of
      their first discovery. */
  lemma RecordAllOrder(t: Table<Parcel>, batch: seq<ParcelReport>, t1: Table<Parcel>, r: Table<Parcel>)
    requires Valid(t) && |batch| > 0 && t1 == Record(t, batch[0])
    requires Valid(r) && Ingested(t1, batch[1..], r)
    ensures forall i, j :: |t| <= i < j < |r| ==> FoundBefore(batch, r[i].0, r[j].0)
  {
    forall i, j | |t| <= i < j < |r|
      ensures FoundBefore(batch, r[i].0, r[j].0)
    {
      if i < |t1| {
        OrderFirst(t, batch, t1, r, i, j);
      } else {
        OrderLater(t, batch, t1, r, i, j);
      }
    }
  }

  /** The parcel the first report of a batch discovers comes before every
      parcel discovered later. */
  lemma OrderFirst(t: Table<Parcel>, batch: seq<ParcelReport>, t1: Table<Parcel>, r: Table<Parcel>, i: int, j: int)
    requires Valid(t) && |batch| > 0 && t1 == Record(t, batch[0])
    requires Valid(r) && |t1| <= |r| && forall k :: 0 <= k < |t1| ==> r[k].0 == t1[k].0
    requires |t| <= i < |t1| && i < j < |r|
    ensures FoundBefore(batch, r[i].0, r[j].0)
  {
    assert r[i].0 == batch[0].id && Discoverable(batch[0]) by {
      NewKeyAbsent(t, t1, i);
    }
  }

  /** Two parcels discovered after the first report keep their order. */
  lemma OrderLater(t: Table<Parcel>, batch: seq<ParcelReport>, t1: Table<Parcel>, r: Table<Parcel>, i: int, j: int)
    requires Valid(t) && |batch| > 0 && t1 == Record(t, batch[0])
    requires Valid(r) && |t1| <= |r| && forall k :: 0 <= k < |t1| ==> r[k].0 == t1[k].0
    requires |t1| <= i < j < |r| && FoundBefore(batch[1..], r[i].0, r[j].0)
    ensures FoundBefore(batch, r[i].0, r[j].0)
  {
    var rest := batch[1..];
    var a, b := r[i].0, r[j].0;
    assert !(batch[0].id == b && Discoverable(batch[0])) by {
      NewKeyAbsent(t1, r, j);
    }
    var m :| 0 <= m < |rest| && rest[m].id == a && Discoverable(rest[m]) &&
      forall n :: 0 <= n <= m && rest[n].id == b ==> !Discoverable(rest[n]);
    assert batch[m + 1] == rest[m];
    forall n | 0 <= n <= m + 1 && batch[n].id == b
      ensures !Discoverable(batch[n])
    {
      if n > 0 {
        assert batch[n] == rest[n - 1];
      }
    }
  }

  /** An entry of `r` past the length of `t`, in a table that keeps the
      keys of `t` in place, holds a key `t` does not have. */
  lemma NewKeyAbsent(t: Table<Parcel>, r: Table<Parcel>, j: int)
    requires Valid(r) && |t| <= j < |r| && forall i :: 0 <= i < |t| ==> r[i].0 == t[i].0
    ensures !HasKey(t, r[j].0)
  {
    assert forall k :: 0 <= k < |t| ==> t[k].0 == r[k].0 != r[j].0;
  }

  /** Parcels with no whole-tile report in a batch keep their state. */
  lemma RecordAllKeeps(t: Table<Parcel>, batch: seq<ParcelReport>, t1: Table<Parcel>, r: Table<Parcel>)
    requires Valid(t) && |batch| > 0 && t1 == Record(t, batch[0])
    requires Valid(r) && Ingested(t1, batch[1..], r)
    ensures forall i :: 0 <= i < |t| && !Touched(batch, t[i].0) ==> r[i] == t[i]
  {
    var rest := batch[1..];
    assert forall m :: 0 <= m < |rest| ==> rest[m] == batch[m + 1];
  }

  /** No report after the last whole-tile one of a parcel lies on a whole tile. */
  lemma LastWholeUntouched(batch: seq<ParcelReport>)
    requires |batch| > 0 && LastWhole(batch, 0)
    ensures !Touched(batch[1..], batch[0].id)
  {
    var rest := batch[1..];
    forall m | 0 <= m < |rest| && rest[m].id == batch[0].id
      ensures !Whole(rest[m])
    {
      assert rest[m] == batch[m + 1];
    }
  }

  /** A parcel whose last whole-tile report is `batch[i]` holds it. */
  lemma RecordAllLast(t: Table<Parcel>, batch: seq<ParcelReport>, t1: Table<Parcel>, r: Table<Parcel>)
    requires Valid(t) && |batch| > 0 && t1 == Record(t, batch[0])
    requires Valid(r) && Ingested(t1, batch[1..], r)
    ensures forall i :: 0 <= i < |batch| && LastWhole(batch, i) && HasKey(r, batch[i].id) ==> Get(r, batch[i].id) == Some(Stored(batch[i]))
  {
    var rest := batch[1..];
    forall i | 0 <= i < |batch| && LastWhole(batch, i) && HasKey(r, batch[i].id)
      ensures Get(r, batch[i].id) == Some(Stored(batch[i]))
    {
      var k := batch[i].id;
      if i == 0 {
        LastWholeUntouched(batch);
        var j0 :| 0 <= j0 < |t1| && t1[j0].0 == k;
        assert r[j0] == t1[j0];
      } else {
        assert rest[i - 1] == batch[i];
        assert LastWhole(rest, i - 1) by {
          forall m | i - 1 < m < |rest| && rest[m].id == rest[i - 1].id
            ensures !Whole(rest[m])
          {
            assert rest[m] == batch[m + 1];
          }
        }
      }
    }
  }

  function Ids(batch: seq<ParcelReport>): (ids: seq<string>)
    ensures |ids| == |batch| && forall i :: 0 <= i < |batch| ==> ids[i] == batch[i].id
  {
    if |batch| == 0 then [] else [batch[0].id] + Ids(batch[1..])
  }

  /** `updateParcelsData(parcels)`. */
  function UpdateParcelsData(db: ParcelsDB, batch: seq<ParcelReport>): (r: ParcelsDB)
    requires Valid(db.database)
    ensures Valid(r.database) && r.lastUpdate == Ids(batch)
    ensures Ingested(db.database, batch, r.database)
    ensures forall k :: HasKey(db.database, k) ==> HasKey(r.database, k)
  {
    ParcelsDB(RecordAll(db.database, batch), Ids(batch))
  }

  /** A stored parcel `updateLostParcels` forgets: it was not in the last
      batch although it lies within VIEW_DISTANCE of us. */
  predicate Vanished(p: Parcel, lastIds: seq<string>, me: Point) {
    p.id !in lastIds && L1Distance(me, Point(p.x as real, p.y as real)) <= VIEW_DISTANCE as int
  }

  function Forget(t: Table<Parcel>, lastIds: seq<string>, me: Point): (r: Table<Parcel>)
    requires Valid(t)
    ensures Valid(r) && |r| <= |t|
    ensures forall e :: e in r <==> e in t && !Vanished(e.1, lastIds, me)
  {
    if |t| == 0 then []
    else
      var rest := Forget(t[1..], lastIds, me);
      assert forall e :: e in t[1..] ==> e.0 != t[0].0;
      if Vanished(t[0].1, lastIds, me) then rest
      else [t[0]] + rest
  }

  /** `updateLostParcels(my_data)`. */
  function UpdateLostParcels(db: ParcelsDB, me: Point): (r: ParcelsDB)
    requires Valid(db.database)
    ensures Valid(r.database) && r.lastUpdate == db.lastUpdate
    ensures forall e :: e in r.database <==> e in db.database && !Vanished(e.1, db.lastUpdate, me)
  {
    db.(database := Forget(db.database, db.lastUpdate, me))
  }

  /** `getParcelFromId(id)`. */
  function GetParcel(t: Table<Parcel>, id: string): (r: Option<Parcel>)
    requires Valid(t)
    ensures r.None? <==> !HasKey(t, id)
    ensures r.Some? ==> r.value.id == id && (id, r.value) in t
  {
    Get(t, id)
  }

  /** `getAllParcels()`: every stored parcel, in discovery order. */
  function AllParcels(t: Table<Parcel>): (ps: seq<Parcel>)
    requires Valid(t)
    ensures |ps| == |t| && forall i :: 0 <= i < |t| ==> ps[i] == t[i].1 && ps[i].id == t[i].0
  {
    Values(t)
  }

  /** JavaScript truthiness of `carriedBy`: null and the empty string are false. */
  predicate Carried(p: Parcel) {
    p.carriedBy.Some? && p.carriedBy.value != ""
  }

  /** `getFreeParcels()`: the stored parcels nobody carries, in order. */
  function FreeParcels(ps: seq<Parcel>): (r: seq<Parcel>)
    ensures |r| <= |ps|
    ensures forall p :: p in r <==> p in ps && !Carried(p)
  {
    if |ps| == 0 then []
    else if Carried(ps[0]) then FreeParcels(ps[1..])
    else [ps[0]] + FreeParcels(ps[1..])
  }

  /** `getMyBag(my_data)`: the stored parcels carried by agent `me`, in order. */
  function MyBag(ps: seq<Parcel>, me: string): (r: seq<Parcel>)
    ensures |r| <= |ps|
    ensures forall p :: p in r <==> p in ps && p.carriedBy == Some(me)
  {
    if |ps| == 0 then []
    else if ps[0].carriedBy == Some(me) then [ps[0]] + MyBag(ps[1..], me)
    else MyBag(ps[1..], me)
  }

  /* ---------------------------------------------------------------------
     Properties
     --------------------------------------------------------------------- */

  /** A parcel in our bag is never offered as free, as long as our id is
      not the empty string. */
  lemma BagAndFreeDisjoint(ps: seq<Parcel>, me: string)
    requires me != ""
    ensures forall p :: p in MyBag(ps, me) ==> p !in FreeParcels(ps)
  {
  }

  /** Free parcels and parcels carried by somebody together account for the
      whole store. */
  lemma {:induction false} FreeCount(ps: seq<Parcel>)
    ensures |FreeParcels(ps)| + |Carriers(ps)| == |ps|
  {
    if |ps| > 0 {
      FreeCount(ps[1..]);
    }
  }

  function Carriers(ps: seq<Parcel>): (r: seq<Parcel>)
    ensures forall p :: p in r <==> p in ps && Carried(p)
  {
    if |ps| == 0 then []
    else if Carried(ps[0]) then [ps[0]] + Carriers(ps[1..])
    else Carriers(ps[1..])
  }

  /** `getFreeParcels` keeps the order of the store: filtering a
      concatenation is concatenating the filtered parts.  With the
      membership and length clauses of `FreeParcels`, which settle the one-
      element case, this determines the result. */
  lemma {:induction false} FreeParcelsAppend(a: seq<Parcel>, b: seq<Parcel>)
    ensures FreeParcels(a + b) == FreeParcels(a) + FreeParcels(b)
  {
    if |a| == 0 {
      assert a + b == b;
    } else {
      assert (a + b)[1..] == a[1..] + b;
      FreeParcelsAppend(a[1..], b);
    }
  }

  /** `getMyBag` keeps the order of the store. */
  lemma {:induction false} MyBagAppend(a: seq<Parcel>, b: seq<Parcel>, me: string)
    ensures MyBag(a + b, me) == MyBag(a, me) + MyBag(b, me)
  {
    if |a| == 0 {
      assert a + b == b;
    } else {
      assert (a + b)[1..] == a[1..] + b;
      MyBagAppend(a[1..], b, me);
    }
  }

  /** Both parts of a well-formed store are well-formed. */
  lemma ValidSplit(a: Table<Parcel>, b: Table<Parcel>)
    requires Valid(a + b)
    ensures Valid(a) && Valid(b)
  {
    assert forall i :: 0 <= i < |a| ==> a[i] == (a + b)[i];
    assert forall i :: 0 <= i < |b| ==> b[i] == (a + b)[|a| + i];
  }

  /** `updateLostParcels` deletes in place: the parcels that remain keep
      their order. */
  lemma {:induction false} ForgetAppend(a: Table<Parcel>, b: Table<Parcel>, lastIds: seq<string>, me: Point)
    requires Valid(a + b)
    ensures Valid(a) && Valid(b)
    ensures Forget(a + b, lastIds, me) == Forget(a, lastIds, me) + Forget(b, lastIds, me)
  {
    ValidSplit(a, b);
    if |a| == 0 {
      assert a + b == b;
    } else {
      assert (a + b)[1..] == a[1..] + b;
      ForgetAppend(a[1..], b, lastIds, me);
    }
  }

  /** No parcel occurs twice. */
  predicate Distinct(ps: seq<Parcel>) {
    forall i, j :: 0 <= i < j < |ps| ==> ps[i] != ps[j]
  }

  /** The parcels of a well-formed store are distinct: each is filed under
      its own id and the ids are distinct. */
  lemma StoredDistinct(t: Table<Parcel>)
    requires Valid(t)
    ensures Distinct(Values(t))
  {
  }

  /** Keeping the free parcels of a list without repeats repeats none. */
  lemma {:induction false} FreeParcelsDistinct(ps: seq<Parcel>)
    requires Distinct(ps)
    ensures Distinct(FreeParcels(ps))
  {
    if |ps| > 0 {
      assert Distinct(ps[1..]);
      FreeParcelsDistinct(ps[1..]);
      assert ps[0] !in ps[1..];
    }
  }

  /** A parcel reported in the last batch is never forgotten. */
  lemma SensedKept(t: Table<Parcel>, lastIds: seq<string>, me: Point, k: string)
    requires Valid(t) && HasKey(t, k) && k in lastIds
    ensures HasKey(Forget(t, lastIds, me), k)
  {
    var i :| 0 <= i < |t| && t[i].0 == k;
    assert t[i] in Forget(t, lastIds, me);
  }

  /** A parcel stays known exactly when it was known and has not vanished. */
  lemma ForgetKeys(t: Table<Parcel>, lastIds: seq<string>, me: Point, k: string)
    requires Valid(t)
    ensures HasKey(Forget(t, lastIds, me), k) <==> exists i :: 0 <= i < |t| && t[i].0 == k && !Vanished(t[i].1, lastIds, me)
  {
    var r := Forget(t, lastIds, me);
    if HasKey(r, k) {
      var j :| 0 <= j < |r| && r[j].0 == k;
      assert r[j] in t;
    }
    if exists i :: 0 <= i < |t| && t[i].0 == k && !Vanished(t[i].1, lastIds, me) {
      var i :| 0 <= i < |t| && t[i].0 == k && !Vanished(t[i].1, lastIds, me);
      assert t[i] in r;
    }
  }

  /** Forgetting twice with no sensing in between forgets nothing more. */
  lemma {:induction false} ForgetIdempotent(t: Table<Parcel>, lastIds: seq<string>, me: Point)
    requires Valid(t)
    ensures Forget(Forget(t, lastIds, me), lastIds, me) == Forget(t, lastIds, me)
  {
    if |t| > 0 {
      ForgetIdempotent(t[1..], lastIds, me);
      var rest := Forget(t[1..], lastIds, me);
      if !Vanished(t[0].1, lastIds, me) {
        assert ([t[0]] + rest)[1..] == rest;
      }
    }
  }

  /** A parcel first seen while carried is not recorded, so a store built
      from reports only ever learns of parcels that were on the ground. */
  lemma CarriedNotDiscovered(t: Table<Parcel>, p: ParcelReport)
    requires Valid(t) && !HasKey(t, p.id) && p.carriedBy.Some?
    ensures !HasKey(Record(t, p), p.id)
  {
  }
}
