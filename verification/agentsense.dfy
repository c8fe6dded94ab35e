/** The agent store of utils/AgentSense.js: for every agent id ever sensed, a
    bounded history of sightings (positions rounded to the grid) interleaved
    with `LOST` marks, recorded when an agent that should be in view was not
    reported.  The store answers with each agent's last believed position. */
module AgentSense {
  import opened Base
  import opened BenchMark
  import opened Table

  /** One sensed agent as the server reports it: coordinates may be
      fractional while the agent is moving. */
  datatype Sighting = Sighting(id: string, name: string, x: real, y: real, score: int)

  /** A history event: a rounded sighting, or the `LOST` mark. */
  datatype Entry = Seen(id: string, name: string, x: int, y: int, score: int) | Lost

  /** The store: histories by id, in discovery order, and the ids of the
      most recent sensing batch. */
  datatype AgentsDB = AgentsDB(database: Table<seq<Entry>>, lastUpdate: seq<string>)

  /** A history the store can hold: between one and MEMORY_SIZE_LIMIT events,
      never two `LOST` marks in a row, and a `LOST` mark is never alone. */
  predicate GoodHistory(h: seq<Entry>) {
    && 1 <= |h| <= MEMORY_SIZE_LIMIT
    && (forall i :: 0 <= i < |h| - 1 ==> !(h[i].Lost? && h[i + 1].Lost?))
    && (h[|h| - 1].Lost? ==> |h| >= 2)
  }

  predicate Valid(t: Table<seq<Entry>>) {
    UniqueKeys(t) && forall i :: 0 <= i < |t| ==> GoodHistory(t[i].1)
  }

  function EmptyDB(): (db: AgentsDB)
    ensures Valid(db.database) && |db.database| == 0
  {
    AgentsDB([], [])
  }

  function Last<T>(s: seq<T>): T
    requires |s| > 0
  {
    s[|s| - 1]
  }

  /** Append an event, dropping the oldest when the limit is exceeded. */
  function Push(h: seq<Entry>, e: Entry): (r: seq<Entry>)
    ensures |r| == if |h| + 1 > MEMORY_SIZE_LIMIT then |h| else |h| + 1
    ensures |r| > 0 && Last(r) == e
    ensures |h| >= 1 ==> |r| >= 2 && r[|r| - 2] == Last(h)
    ensures forall i :: 0 <= i < |r| - 1 ==> r[i] == h[i + |h| + 1 - |r|]
  {
    var pushed := h + [e];
    if |pushed| > MEMORY_SIZE_LIMIT then pushed[1..] else pushed
  }

  lemma PushGood(h: seq<Entry>, e: Entry)
    requires GoodHistory(h) && (e.Lost? ==> !Last(h).Lost?)
    ensures GoodHistory(Push(h, e))
  {
    var r := Push(h, e);
    forall i | 0 <= i < |r| - 1
      ensures !(r[i].Lost? && r[i + 1].Lost?)
    {
      if i + 1 < |r| - 1 {
        assert r[i] == h[i + |h| + 1 - |r|] && r[i + 1] == h[i + 1 + |h| + 1 - |r|];
      } else {
        assert r[i] == Last(h);
      }
    }
  }

  /** The event a sighting becomes: its coordinates rounded with `Math.round`. */
  function Rounded(s: Sighting): (e: Entry)
    ensures e.Seen? && e.id == s.id
    ensures e.x as real - 0.5 <= s.x < e.x as real + 0.5
    ensures e.y as real - 0.5 <= s.y < e.y as real + 0.5
  {
    Seen(s.id, s.name, Round(s.x), Round(s.y), s.score)
  }

  /** One iteration of `updateAgentsData`: a new id gets a one-event history,
      a known id has the sighting appended. */
  function Record(t: Table<seq<Entry>>, s: Sighting): (r: Table<seq<Entry>>)
    requires Valid(t)
    ensures Valid(r)
    ensures HasKey(r, s.id)
    ensures !HasKey(t, s.id) ==> r == t + [(s.id, [Rounded(s)])]
    ensures HasKey(t, s.id) ==> (|r| == |t| &&
      forall i :: 0 <= i < |t| ==> r[i] == if t[i].0 == s.id then (s.id, Push(t[i].1, Rounded(s))) else t[i])
    ensures forall k :: HasKey(r, k) <==> HasKey(t, k) || k == s.id
    ensures |t| <= |r| && forall i :: 0 <= i < |t| ==> r[i].0 == t[i].0
    ensures forall i :: 0 <= i < |t| && t[i].0 != s.id ==> r[i] == t[i]
    ensures forall j :: 0 <= j < |r| && r[j].0 == s.id ==> Last(r[j].1) == Rounded(s)
  {
    match Get(t, s.id)
    case None =>
      var r := Set(t, s.id, [Rounded(s)]);
      assert r[|t|].0 == s.id;
      r
    case Some(h) =>
      PushGood(h, Rounded(s));
      Set(t, s.id, Push(h, Rounded(s)))
  }

  function Ids(batch: seq<Sighting>): (ids: seq<string>)
    ensures |ids| == |batch| && forall i :: 0 <= i < |batch| ==> ids[i] == batch[i].id
  {
    if |batch| == 0 then [] else [batch[0].id] + Ids(batch[1..])
  }

  /** `batch[i]` is the last sighting of its agent in `batch`. */
  predicate LastSighting(batch: seq<Sighting>, i: int)
    requires 0 <= i < |batch|
  {
    forall m :: i < m < |batch| ==> batch[m].id != batch[i].id
  }

  /** What recording `batch` into `t` leaves in `r`: the known agents are
      the previous ones and those of the batch, the previous ones keep their
      place, those outside the batch keep their history, and every agent of
      the batch ends on its last sighting there. */
  ghost predicate Ingested(t: Table<seq<Entry>>, batch: seq<Sighting>, r: Table<seq<Entry>>)
    requires Valid(r)
  {
    && (forall k :: HasKey(r, k) <==> HasKey(t, k) || k in Ids(batch))
    && |t| <= |r| && (forall i :: 0 <= i < |t| ==> r[i].0 == t[i].0)
    && (forall i :: 0 <= i < |t| && t[i].0 !in Ids(batch) ==> r[i] == t[i])
    && (forall i, j :: 0 <= i < |batch| && LastSighting(batch, i) && 0 <= j < |r| && r[j].0 == batch[i].id ==>
          Last(r[j].1) == Rounded(batch[i]))
  }

  /** The loop of `updateAgentsData`: the sightings recorded in order. */
  function RecordAll(t: Table<seq<Entry>>, batch: seq<Sighting>): (r: Table<seq<Entry>>)
    requires Valid(t)
    ensures Valid(r) && Ingested(t, batch, r)
    decreases |batch|
  {
    if |batch| == 0 then t
    else
      var t1 := Record(t, batch[0]);
      var r := RecordAll(t1, batch[1..]);
      RecordAllStep(t, batch, t1, r);
      r
  }

  /** Recording a batch is recording its first sighting, then the rest. */
  lemma RecordAllStep(t: Table<seq<Entry>>, batch: seq<Sighting>, t1: Table<seq<Entry>>, r: Table<seq<Entry>>)
    requires Valid(t) && |batch| > 0 && t1 == Record(t, batch[0])
    requires Valid(r) && Ingested(t1, batch[1..], r)
    ensures Ingested(t, batch, r)
  {
    RecordAllKeys(t, batch, t1, r);
    RecordAllPlaces(t, batch, t1, r);
    RecordAllKeeps(t, batch, t1, r);
    RecordAllLast(batch, t1, r);
  }

  /** The known agents after a batch: the earlier ones and those of the batch. */
  lemma RecordAllKeys(t: Table<seq<Entry>>, batch: seq<Sighting>, t1: Table<seq<Entry>>, r: Table<seq<Entry>>)
    requires Valid(t) && |batch| > 0 && t1 == Record(t, batch[0])
    requires Valid(r) && Ingested(t1, batch[1..], r)
    ensures forall k :: HasKey(r, k) <==> HasKey(t, k) || k in Ids(batch)
  {
    assert Ids(batch) == [batch[0].id] + Ids(batch[1..]);
  }

  /** Agents known before a batch keep their place. */
  lemma RecordAllPlaces(t: Table<seq<Entry>>, batch: seq<Sighting>, t1: Table<seq<Entry>>, r: Table<seq<Entry>>)
    requires Valid(t) && |batch| > 0 && t1 == Record(t, batch[0])
    requires Valid(r) && Ingested(t1, batch[1..], r)
    ensures |t| <= |r| && (forall i :: 0 <= i < |t| ==> r[i].0 == t[i].0)
  {
  }

  /** Agents outside a batch keep their history. */
  lemma RecordAllKeeps(t: Table<seq<Entry>>, batch: seq<Sighting>, t1: Table<seq<Entry>>, r: Table<seq<Entry>>)
    requires Valid(t) && |batch| > 0 && t1 == Record(t, batch[0])
    requires Valid(r) && Ingested(t1, batch[1..], r)
    ensures forall i :: 0 <= i < |t| && t[i].0 !in Ids(batch) ==> r[i] == t[i]
  {
  }

  /** Every agent of a batch ends on its last sighting there. */
  lemma RecordAllLast(batch: seq<Sighting>, t1: Table<seq<Entry>>, r: Table<seq<Entry>>)
    requires |batch| > 0 && Valid(t1) && Valid(r)
    requires forall j :: 0 <= j < |t1| && t1[j].0 == batch[0].id ==> Last(t1[j].1) == Rounded(batch[0])
    requires HasKey(t1, batch[0].id)
    requires Ingested(t1, batch[1..], r)
    ensures forall i, j :: 0 <= i < |batch| && LastSighting(batch, i) && 0 <= j < |r| && r[j].0 == batch[i].id ==>
      Last(r[j].1) == Rounded(batch[i])
  {
    var rest := batch[1..];
    forall i, j | 0 <= i < |batch| && LastSighting(batch, i) && 0 <= j < |r| && r[j].0 == batch[i].id
      ensures Last(r[j].1) == Rounded(batch[i])
    {
      if i == 0 {
        assert batch[0].id !in Ids(rest) by {
          forall m | 0 <= m < |rest|
            ensures Ids(rest)[m] != batch[0].id
          {
            assert rest[m] == batch[m + 1];
          }
        }
        var j0 :| 0 <= j0 < |t1| && t1[j0].0 == batch[0].id;
        assert r[j0] == t1[j0];
      } else {
        assert rest[i - 1] == batch[i];
        assert LastSighting(rest, i - 1) by {
          forall m | i - 1 < m < |rest|
            ensures rest[m].id != rest[i - 1].id
          {
            assert rest[m] == batch[m + 1];
          }
        }
      }
    }
  }

  /** `updateAgentsData(agents)`. */
  function UpdateAgentsData(db: AgentsDB, batch: seq<Sighting>): (r: AgentsDB)
    requires Valid(db.database)
    ensures Valid(r.database) && r.lastUpdate == Ids(batch)
    ensures Ingested(db.database, batch, r.database)
    ensures forall i :: 0 <= i < |batch| ==> HasKey(r.database, batch[i].id)
    ensures forall k :: HasKey(db.database, k) ==> HasKey(r.database, k)
  {
    var r := RecordAll(db.database, batch);
    assert forall i :: 0 <= i < |batch| ==> HasKey(r, batch[i].id) by {
      IngestedKnows(db.database, batch, r);
    }
    AgentsDB(r, Ids(batch))
  }

  /** After a batch every agent of it is known. */
  lemma IngestedKnows(t: Table<seq<Entry>>, batch: seq<Sighting>, r: Table<seq<Entry>>)
    requires Valid(r) && Ingested(t, batch, r)
    ensures forall i :: 0 <= i < |batch| ==> HasKey(r, batch[i].id)
  {
    forall i | 0 <= i < |batch|
      ensures HasKey(r, batch[i].id)
    {
      assert Ids(batch)[i] == batch[i].id;
    }
  }

  /** Whether `updateLostAgents` marks history `h` of agent `id` lost: the
      agent was not in the last batch, is not already lost, and its last
      sighting lies within VIEW_DISTANCE of us. */
  predicate ShouldMark(h: seq<Entry>, id: string, lastIds: seq<string>, me: Point)
    requires |h| > 0
  {
    && id !in lastIds
    && Last(h).Seen?
    && L1Distance(me, Point(Last(h).x as real, Last(h).y as real)) <= VIEW_DISTANCE as int
  }

  function MarkOne(h: seq<Entry>, id: string, lastIds: seq<string>, me: Point): (h': seq<Entry>)
    requires GoodHistory(h)
    ensures GoodHistory(h')
    ensures h' == if ShouldMark(h, id, lastIds, me) then Push(h, Lost) else h
  {
    if ShouldMark(h, id, lastIds, me) then
      PushGood(h, Lost);
      Push(h, Lost)
    else h
  }

  function MarkLost(t: Table<seq<Entry>>, lastIds: seq<string>, me: Point): (r: Table<seq<Entry>>)
    requires Valid(t)
    ensures Valid(r) && Keys(r) == Keys(t)
    ensures forall i :: 0 <= i < |t| ==>
      r[i].1 == if ShouldMark(t[i].1, t[i].0, lastIds, me) then Push(t[i].1, Lost) else t[i].1
  {
    seq(|t|, i requires 0 <= i < |t| && Valid(t) => (t[i].0, MarkOne(t[i].1, t[i].0, lastIds, me)))
  }

  /** `updateLostAgents(my_data)`. */
  function UpdateLostAgents(db: AgentsDB, me: Point): (r: AgentsDB)
    requires Valid(db.database)
    ensures Valid(r.database) && Keys(r.database) == Keys(db.database) && r.lastUpdate == db.lastUpdate
    ensures forall i :: 0 <= i < |db.database| ==>
      var h := db.database[i].1;
      r.database[i].1 == if ShouldMark(h, db.database[i].0, db.lastUpdate, me) then Push(h, Lost) else h
  {
    db.(database := MarkLost(db.database, db.lastUpdate, me))
  }

  /** The position a history stands for: its last sighting, flagged lost
      when a `LOST` mark follows it. */
  function Latest(h: seq<Entry>): (p: AgentPosition)
    requires GoodHistory(h)
    ensures Last(h).Seen? ==> p == AgentPosition(Last(h).x, Last(h).y, false)
    ensures Last(h).Lost? ==> h[|h| - 2].Seen? && p == AgentPosition(h[|h| - 2].x, h[|h| - 2].y, true)
  {
    if Last(h).Lost? then
      var prev := h[|h| - 2];
      AgentPosition(prev.x, prev.y, true)
    else
      AgentPosition(Last(h).x, Last(h).y, false)
  }

  /** `getPositionOfAgent(id)`: null for an unknown id. */
  function PositionOf(t: Table<seq<Entry>>, id: string): (r: Option<AgentPosition>)
    requires Valid(t)
    ensures r.None? <==> !HasKey(t, id)
    ensures forall i :: 0 <= i < |t| && t[i].0 == id ==> r == Some(Latest(t[i].1))
  {
    match IndexOf(t, id)
    case None => None
    case Some(i) => Some(Latest(t[i].1))
  }

  /** `getPositionsOfAllAgents()`: no history is empty, so every known agent
      contributes one position, in discovery order. */
  function AllPositions(t: Table<seq<Entry>>): (ps: seq<AgentPosition>)
    requires Valid(t)
    ensures |ps| == |t|
    ensures forall i :: 0 <= i < |t| ==> ps[i] == Latest(t[i].1)
  {
    if |t| == 0 then [] else [Latest(t[0].1)] + AllPositions(t[1..])
  }

  /* ---------------------------------------------------------------------
     Properties
     --------------------------------------------------------------------- */

  /** Right after a sighting is recorded, the agent is believed at the
      rounded sighting and not lost. */
  lemma RecordThenPosition(t: Table<seq<Entry>>, s: Sighting)
    requires Valid(t)
    ensures PositionOf(Record(t, s), s.id) == Some(AgentPosition(Round(s.x), Round(s.y), false))
  {
    var r := Record(t, s);
    var i :| 0 <= i < |r| && r[i].0 == s.id;
    if !HasKey(t, s.id) {
      assert i == |t|;
    }
  }

  /** Recording one agent leaves every other agent's belief alone. */
  lemma RecordKeepsOthers(t: Table<seq<Entry>>, s: Sighting, id: string)
    requires Valid(t) && id != s.id
    ensures PositionOf(Record(t, s), id) == PositionOf(t, id)
  {
    var r := Record(t, s);
    if HasKey(t, id) {
      var i :| 0 <= i < |t| && t[i].0 == id;
      assert r[i] == t[i];
    }
  }

  /** Marking an agent lost keeps its believed coordinates and raises the
      lost flag; agents not marked keep their belief exactly. */
  lemma MarkLostPosition(t: Table<seq<Entry>>, lastIds: seq<string>, me: Point, i: int)
    requires Valid(t) && 0 <= i < |t|
    ensures var before := Latest(t[i].1);
      var after := Latest(MarkLost(t, lastIds, me)[i].1);
      && after.x == before.x && after.y == before.y
      && (after.isLost <==> before.isLost || ShouldMark(t[i].1, t[i].0, lastIds, me))
  {
  }

  /** Running `updateLostAgents` twice with no sensing in between changes
      nothing the second time. */
  lemma {:induction false} MarkLostIdempotent(t: Table<seq<Entry>>, lastIds: seq<string>, me: Point)
    requires Valid(t)
    ensures MarkLost(MarkLost(t, lastIds, me), lastIds, me) == MarkLost(t, lastIds, me)
  {
    var once := MarkLost(t, lastIds, me);
    var twice := MarkLost(once, lastIds, me);
    assert Keys(once) == Keys(t);
    forall i | 0 <= i < |t|
      ensures twice[i] == once[i]
    {
      assert once[i].0 == Keys(once)[i] == Keys(t)[i] == t[i].0;
      assert twice[i].0 == Keys(twice)[i] == Keys(once)[i];
      if ShouldMark(t[i].1, t[i].0, lastIds, me) {
        assert Last(once[i].1).Lost?;
      }
    }
  }

  /** An agent reported in the last batch is never marked lost. */
  lemma SensedNeverLost(t: Table<seq<Entry>>, lastIds: seq<string>, me: Point, i: int)
    requires Valid(t) && 0 <= i < |t| && t[i].0 in lastIds
    ensures MarkLost(t, lastIds, me)[i].1 == t[i].1
  {
  }
}
