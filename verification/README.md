# Deliveroo BDI agent: a Dafny model of its deliberation core

This project models the decision-making core of a belief-desire-intention
(BDI) agent for the Deliveroo grid game. In the game, agents walk a grid,
pick up parcels and put them down on delivery tiles for a reward. The model
covers these parts:

- **Beliefs:**
  - the grid map: walkable layer, tag layer, delivery spots, masking of
    sensed agents, breadth-first reachability, nearest walkable cell;
  - the sensing databases for agents and parcels: bounded histories, the
    `LOST` marker, forgetting parcels that vanished in view;
  - the nine exploration landmarks.
- **Desires:** the candidate list of go-to, pick-up and put-down goals.
- **Intentions:**
  - utilities and the choice of one intention, best or runner-up;
  - the success, impossibility and reconsideration tests.
- **Plan:**
  - the planning problem handed to the planner: objects, initial facts,
    goal;
  - reading the planner's answer back into actions and a path;
  - popping actions, and the soundness check.
- **Control loop:** one iteration of the BDI loop, start-up, the
  friend-conflict test, and the classification of executed actions.

Everything is immutable data and pure functions, with one exception: the
breadth-first search is a method with loop invariants. These stand in for
the source's types:

- A JavaScript `Map` is an insertion-ordered `Table<V>`, a sequence of
  key/value pairs.
- `null` is `Option`.
- A thrown `TypeError` is the `Err` case of `Result`.
- `Math.max` over an empty list is `NegInf`, the bottom of `ExtInt`.

The model represents the following as parameters, not code:

- **A\* path lengths:** the source calls an A\* library for them. The
  model takes them as the `Snapshot` fields `pathLen`, which respects
  agents, and `freeLen`, which ignores them.
- **The planner's answer:** it is a parameter of `GetPlan`.
- **Server replies and timer outcomes:** `ControlStep` receives them as
  the fields of an `Observation`.

Behaviours the model keeps as the code is written:

- **`reconsider`:**
  - It computes the new best utility as `Math.max.apply(list)`. That call
    passes the list as `this` and no arguments, so the result is minus
    infinity whatever the list holds. (The list's `map` callback also has
    no `return`, so every entry is `undefined`.) As written, `reconsider` is
    therefore true exactly when there is no current intention.
  - `Intentions.ReconsiderIntended` is the evident intent.
    `Intentions.ReconsiderIgnoresAlternatives` relates the two.
- **`isSound`:**
  - Its collision loop never changes the result. Its final comparison
    reads `reward` of the list of free parcels, which is `undefined`, and
    compares it with the plan's length; that comparison is false. As
    written, it always answers true, unless it throws.
  - It throws only when there is no current intention and no free parcel.
  - `Plan.IsSoundIntended` is the evident intent.
    `Plan.SoundIgnoresCollisions` relates the two.
- **`getMaskedPathLayout`:**
  - It tests a property `lost`, while positions carry `is_lost`.
  - So lost agents are masked too; see `Mapping.MaskIgnoresLostFlag`.
- **`isImpossible`:** it throws when the pick-up parcel is unknown. That
  case is an `Err`.
- **`loadExplorationSpots`:** it anchors the landmark named "se" to the
  west and north, and the one named "nw" to the east and south. The names
  are kept as written.
- **`popFront`:** it shifts the stored path on every pop, not only on
  moves.
- **`getPlan`:**
  - It throws inside the planner's `then` callback when a move step has no
    target object.
  - The returned promise then never settles. That case is the
    `Unsettled` outcome.
- **Friend conflicts:** they compare the first argument of our intention
  with the friend's. So a wait intention's `2000` can match too.

## Model

| member | source | states |
|---|---|---|
| BenchMark.L1Distance | utils/BenchMark.js:4-8 | The distance is zero exactly when both points round to the same cell, and it bounds each coordinate's rounded difference. |
| BenchMark.L1OnIntegers | utils/BenchMark.js:4-8 | On whole-number coordinates the rounded L1 distance is the grid's Manhattan distance. |
| BenchMark.L1Symmetric | utils/BenchMark.js:4-8 | The distance does not depend on argument order. |
| BenchMark.DistZeroIffEqual | utils/BenchMark.js:4-8 | Two cells are at distance zero exactly when they are the same cell. |
| BenchMark.DistTriangle | utils/BenchMark.js:4-8 | The distance obeys the triangle inequality. |
| BenchMark.NbIsAdjacent | utils/mapping.js:218 | The four shifts the search uses reach exactly the cells at distance one. |
| Base.MaxAll | Agent/intentions.js:107 | `Math.max` over a list is -Infinity on an empty list, otherwise an element of the list that no element exceeds. |
| Table.Set | utils/AgentSense.js:45 | Setting a key of a `Map` overwrites its entry in place, or appends a new entry at the end; keys stay unique. |
| Table.Get | utils/ParcelSense.js:63-69 | Looking up a key yields its value, or nothing exactly when the key is absent. |
| Mapping.UpdateWidthAndHeight | utils/mapping.js:58-83 | Growing the grid keeps every old cell and fills new cells with walls tagged empty; the size becomes the larger of old and requested. |
| Mapping.UpdateLayout | utils/mapping.js:43-51 | Sensing a tile makes it walkable, tags it delivery or plain, grows the grid to contain it, appends it to the delivery list when it is a delivery tile, and changes no other cell. |
| Mapping.UpdateLayoutMonotone | utils/mapping.js:43-51 | A walkable cell stays walkable and the grid never shrinks when another tile is sensed. |
| Mapping.UpdateLayoutIdempotent | utils/mapping.js:43-51 | Sensing the same tile twice leaves the layers unchanged the second time; only the delivery list grows again. |
| Mapping.MaskedLayout | utils/mapping.js:93-109 | The masked layout is the walkable layer with every cell holding a sensed agent turned into a wall, and nothing else changed. |
| Mapping.MaskIgnoresLostFlag | utils/mapping.js:93-109 | Whether an agent position is marked lost does not change the masked layout. |
| Mapping.FindClosestSpot | utils/mapping.js:124-136 | The answer is null exactly when no cell is walkable; otherwise it is a walkable cell no farther from the centre than any other, the first such in column-major scan order. |
| Mapping.ScanSomeBest | utils/mapping.js:124-136 | A finished scan's best cell is nearest to the centre and earliest among ties. |
| Mapping.ScanBestSpec | utils/mapping.js:126-135 | After scanning the first k cells column by column, the best is absent exactly when none of them is walkable; otherwise it is walkable, no farther from the centre than any walkable scanned cell, and strictly nearer than every walkable cell scanned before it. |
| Reachability.ReachIsShortest | utils/mapping.js:198-243 | In a distance map, a cell has a non-negative value exactly when a walk over walkable cells reaches it, and the value is the length of the shortest such walk; unreachable cells hold -1. |
| Reachability.WalkBound | utils/mapping.js:214-230 | Every walk to a cell is at least as long as the cell's recorded distance. |
| Reachability.WalkExists | utils/mapping.js:214-230 | A cell with recorded distance d is the end of a walk of exactly d steps. |
| Reachability.FinalIsDistanceMap | utils/mapping.js:234-240 | Once the queue is empty, resetting every value of at least width times height to -1 yields a distance map. |
| Reachability.GetAllReachable | utils/mapping.js:198-243 | The search returns a width-by-height map with 0 at the start, -1 or a distance below width times height elsewhere, non-negative only on unmasked cells, and it is a distance map of the masked layout. |
| AgentSense.Push | utils/AgentSense.js:47-52 | Appending to a history keeps at most `MEMORY_SIZE_LIMIT` entries by dropping the oldest, and the new entry is last. |
| AgentSense.Rounded | utils/AgentSense.js:40-42 | A sighting is stored at its coordinates rounded to the nearest cell. |
| AgentSense.Record | utils/AgentSense.js:44-53 | A new agent gets a one-entry history appended to the table; a known agent's history gets the sighting pushed in place; other agents are untouched. |
| AgentSense.RecordAll | utils/AgentSense.js:39-54 | After the sightings of a batch, the known agents are the earlier ones plus the batch's; earlier agents keep their place; agents outside the batch keep their history unchanged; each agent of the batch has its last sighting in the batch, rounded, as its newest entry. |
| AgentSense.RecordAllKeys | utils/AgentSense.js:39-54 | Recording a first sighting and then the rest knows exactly the earlier agents and those of the batch. |
| AgentSense.RecordAllPlaces | utils/AgentSense.js:39-54 | Recording a first sighting and then the rest keeps every earlier agent in its place. |
| AgentSense.RecordAllKeeps | utils/AgentSense.js:39-54 | Recording a first sighting and then the rest leaves the history of every agent outside the batch unchanged. |
| AgentSense.IngestedKnows | utils/AgentSense.js:39-54 | After a batch is recorded, every agent of the batch is known. |
| AgentSense.RecordAllLast | utils/AgentSense.js:39-54 | Recording a first sighting and then the rest leaves each agent of the batch on its last sighting there. |
| AgentSense.UpdateAgentsData | utils/AgentSense.js:37-55 | After a batch, the store holds what recording its sightings in order leaves: every sensed agent has a history ending on its last sighting, no agent is forgotten, others are unchanged, and the batch's ids are remembered as the last update. |
| AgentSense.MarkLost | utils/AgentSense.js:61-77 | An agent missing from the last update, within view distance and not already lost gets `LOST` pushed; every other history is unchanged and keys stay in place. |
| AgentSense.UpdateLostAgents | utils/AgentSense.js:61-77 | Lost-marking applies to every known agent against the last update and changes neither the set of keys nor the last update. |
| AgentSense.PositionOf | utils/AgentSense.js:84-98 | An unknown agent has no position; a known one is at its latest sighting, flagged lost when the newest entry is `LOST`. |
| AgentSense.AllPositions | utils/AgentSense.js:104-116 | There is one latest position per known agent, in table order. |
| AgentSense.RecordThenPosition | utils/AgentSense.js:37-55 | Right after a sighting is recorded, the agent is at the sighting's rounded cell and not lost. |
| AgentSense.RecordKeepsOthers | utils/AgentSense.js:37-55 | Recording one agent does not move any other agent. |
| AgentSense.MarkLostPosition | utils/AgentSense.js:61-98 | Marking lost keeps an agent's last known cell and sets its lost flag exactly when it was lost already or the marking condition holds. |
| AgentSense.MarkLostIdempotent | utils/AgentSense.js:61-77 | Running lost-marking twice against the same update marks nothing more. |
| AgentSense.SensedNeverLost | utils/AgentSense.js:67 | An agent in the last update is never marked lost. |
| ParcelSense.Record | utils/ParcelSense.js:31-43 | A parcel with a fractional coordinate is skipped; an unknown parcel is stored only when nobody carries it; a known one is overwritten; other entries are untouched. |
| ParcelSense.RecordAll | utils/ParcelSense.js:33-42 | After the reports of a batch, a parcel is known exactly when it was known or some whole-tile report with nobody carrying it discovers it; earlier parcels keep their place and the discovered ones follow in the order of their first discovery; parcels with no whole-tile report keep their state; a known parcel holds its last whole-tile report. |
| ParcelSense.RecordAllKeys | utils/ParcelSense.js:33-42 | Recording a first report and then the rest knows exactly the parcels known before or discovered by some report. |
| ParcelSense.RecordAllPlaces | utils/ParcelSense.js:33-42 | Recording a first report and then the rest keeps every earlier parcel in its place. |
| ParcelSense.RecordAllOrder | utils/ParcelSense.js:33-42 | Recording a first report and then the rest appends the newly discovered parcels in the order in which reports first discover them. |
| ParcelSense.RecordAllKeeps | utils/ParcelSense.js:33-42 | Recording a first report and then the rest leaves parcels with no whole-tile report unchanged. |
| ParcelSense.RecordAllLast | utils/ParcelSense.js:33-42 | Recording a first report and then the rest leaves each known parcel on its last whole-tile report. |
| ParcelSense.UpdateParcelsData | utils/ParcelSense.js:31-43 | After a batch, the store holds what recording its reports in order leaves (as for `RecordAll`, including the first-discovery order of new parcels), no parcel is forgotten, and the batch's ids are remembered. |
| ParcelSense.UpdateLostParcels | utils/ParcelSense.js:48-57 | Exactly the parcels missing from the last update and within view distance are forgotten. |
| ParcelSense.ForgetAppend | utils/ParcelSense.js:48-57 | Forgetting deletes in place: the forgetting of two concatenated parts of a store is the concatenation of their forgettings, so the survivors keep their order. |
| ParcelSense.GetParcel | utils/ParcelSense.js:63-69 | A parcel id yields its stored parcel, or null exactly when it is unknown. |
| ParcelSense.AllParcels | utils/ParcelSense.js:74-83 | All stored parcels, in table order. |
| ParcelSense.FreeParcels | utils/ParcelSense.js:88-92 | The free parcels are exactly those nobody carries. |
| ParcelSense.MyBag | utils/ParcelSense.js:97-101 | The bag is exactly the parcels we carry. |
| ParcelSense.FreeParcelsAppend | utils/ParcelSense.js:88-92 | The free-parcel filter keeps store order: filtering a concatenation concatenates the filtered parts. |
| ParcelSense.MyBagAppend | utils/ParcelSense.js:97-101 | The bag filter keeps store order: filtering a concatenation concatenates the filtered parts. |
| ParcelSense.StoredDistinct | utils/ParcelSense.js:74-83 | The parcels of a well-formed store are pairwise different. |
| ParcelSense.FreeParcelsDistinct | utils/ParcelSense.js:88-92 | Filtering a list without repeats yields a list without repeats. |
| ParcelSense.BagAndFreeDisjoint | utils/ParcelSense.js:88-101 | No parcel is both in our bag and free. |
| ParcelSense.FreeCount | utils/ParcelSense.js:88-92 | Free and carried parcels partition the store. |
| ParcelSense.SensedKept | utils/ParcelSense.js:51 | A parcel in the last update is never forgotten. |
| ParcelSense.ForgetIdempotent | utils/ParcelSense.js:48-57 | Forgetting twice against the same update forgets nothing more. |
| ParcelSense.CarriedNotDiscovered | utils/ParcelSense.js:35-38 | A newly seen parcel that someone already carries is not stored. |
| Beliefs.Anchor | Agent/beliefs.js:23-110 | Each landmark anchor is at a truncated half or quarter of the width and height, so on a grid with cells it lies strictly inside both. |
| Beliefs.SpotNamesDistinct | Agent/beliefs.js:28-85 | The nine landmark names are pairwise different, so the spots table has one entry per landmark. |
| Beliefs.LoadExplorationSpots | Agent/beliefs.js:23-110 | The spots table holds exactly the nine landmark names, in order, each bound to the walkable cell nearest its anchor. |
| Beliefs.SpotsAreWalkable | Agent/beliefs.js:23-110 | Every spot that is set is a walkable cell of the grid. |
| Beliefs.SpotsNullIffNoWalkable | Agent/beliefs.js:23-110 | The spots are all null exactly when no cell is walkable, and otherwise none is. |
| Beliefs.ReloadSame | Agent/beliefs.js:23-110 | Reloading on a grid with the same size and walkable cells gives the same spots. |
| Desires.ParseAct | Agent/desires.js:19 | Each action string names its action, and only that string does. |
| Desires.MakeDesire | Agent/desires.js:9-26 | A desire keeps its action only for "go to", "pick up" and "put down", and its parcel only for "pick up". |
| Desires.MakeDesires | Agent/desires.js:37-61 | Desire generation throws exactly when an exploration spot is null; otherwise it lists a go-to per spot, then a pick-up per free parcel, then, when the bag is not empty, a put-down per delivery spot. |
| Desires.PutDownIffBag | Agent/desires.js:56-60 | A desire is a put-down exactly when it follows all go-to and pick-up desires; those exist exactly when the bag and the delivery list are both non-empty. |
| Desires.LayoutActions | Agent/desires.js:37-61 | In a list laid out as go-tos, then pick-ups, then put-downs, the put-downs are exactly the entries after the go-tos and pick-ups. |
| Desires.OnePickUpPerFreeParcel | Agent/desires.js:52-54 | Every free parcel has a pick-up desire that carries it. |
| Desires.PickUpSlotOnce | Agent/desires.js:48-60 | In a list of go-tos, pick-ups of distinct parcels and put-downs, no two desires are the same pick-up. |
| Desires.PickUpOnce | Agent/desires.js:52-54 | On a well-formed parcel store, at most one desire picks up a given parcel; with `OnePickUpPerFreeParcel`, each free parcel has exactly one. |
| Desires.DesiresDefined | Agent/desires.js:48-50 | With every exploration spot set, desire generation does not throw. |
| Intentions.BagScore | Agent/intentions.js:79-82 | The bag score is 0 for an empty bag; with non-negative rewards it is non-negative and at least the reward of each parcel in the bag. |
| Intentions.BagScoreAppend | Agent/intentions.js:79-82 | The score of two bags put together is the sum of their scores, so the loop's running total, one parcel at a time, ends at the bag score. |
| Intentions.MakeIntention | Agent/intentions.js:13-25 | An intention keeps its action only for the four known action strings. |
| Intentions.NamedParcel | Agent/intentions.js:275-276 | The parcel an intention names is found exactly when its first argument is a known parcel id. |
| Intentions.PickUpValue | Agent/intentions.js:275-293 | A pick-up's value is -Infinity exactly when there is no delivery spot; otherwise it is the best value over the delivery spots, and some spot attains it. |
| Intentions.Utility | Agent/intentions.js:269-301 | Go-to is worth its distance; a pick-up of an unknown parcel -1, of a known one its best delivery value; a put-down 100 times the bag score less the bag size times the path length; anything else 0. |
| Intentions.PickUpMonotoneInReward | Agent/intentions.js:275-293 | Raising the reward of the parcel to pick up never lowers the intention's utility. |
| Intentions.ZoneValueMonotone | Agent/intentions.js:287-292 | With path lengths fixed, a larger parcel reward never lowers the value of delivering it to a zone. |
| Intentions.PickUpLowerBound | Agent/intentions.js:275-293 | A pick-up is worth at least 100 times the parcel's reward less its distance to any delivery spot. |
| Intentions.PutDownDecreasesWithDistance | Agent/intentions.js:295-299 | A longer path to the delivery spot never raises a put-down's utility, and lowers it when the bag is not empty. |
| Intentions.KeepReachable | Agent/intentions.js:62-70 | The kept desires are exactly those whose target is reachable. |
| Intentions.KeepReachableAppend | Agent/intentions.js:62-70 | Filtering by reachability keeps the desires' order. |
| Intentions.ToIntention | Agent/intentions.js:85-99 | A desire becomes an intention at its location with its action, carrying the parcel id for a pick-up. |
| Intentions.Choose | Agent/intentions.js:107-131 | Normally the first intention of best utility is chosen; in change mode, the first of second-best utility, unless all tie. |
| Intentions.ChooseCorrect | Agent/intentions.js:107-131 | Taking the first index of the maximum, or of the maximum of the others in change mode, picks the first best or first runner-up. |
| Intentions.Commit | Agent/intentions.js:102-131 | Among reachable desires, the committed intention comes from one of them, is never a wait, and has the first largest utility, or the first runner-up in change mode unless all tie. |
| Intentions.Filter | Agent/intentions.js:57-132 | Filtering yields one intention: a 2000 ms wait exactly when no desire is reachable, otherwise the reachable desire chosen by utility as above. |
| Intentions.FilterReachable | Agent/intentions.js:57-132 | The chosen intention is a wait or comes from a reachable desire. |
| Intentions.NormalModeBest | Agent/intentions.js:126-131 | Outside change mode no reachable desire has higher utility than the chosen one. |
| Intentions.GetFront | Agent/intentions.js:138-144 | The front is null exactly when there is no intention. |
| Intentions.HasSucceeded | Agent/intentions.js:150-180 | No intention counts as success. Off target is never success. On target: a go-to succeeds; a pick-up succeeds exactly when we carry the parcel; a put-down exactly when the bag is empty; anything else fails. |
| Intentions.IsImpossible | Agent/intentions.js:186-215 | Only on-target pick-ups and put-downs can be impossible. A pick-up throws when its parcel is unknown and is impossible when the parcel is elsewhere or carried. A put-down is impossible off a delivery spot. |
| Intentions.WaitNeverSucceeds | Agent/intentions.js:150-180 | A wait intention never succeeds. |
| Intentions.SucceededPickUpIsImpossible | Agent/intentions.js:162-198 | A pick-up that has succeeded is also reported impossible, since its parcel is now carried. |
| Intentions.Alternatives | Agent/intentions.js:228-252 | The alternatives are reachable pick-ups of free parcels, plus reachable put-downs when the bag scores above zero, and only those. |
| Intentions.Reconsider | Agent/intentions.js:221-260 | As written, reconsideration is requested exactly when there is no current intention. |
| Intentions.ReconsiderIntended | Agent/intentions.js:221-260 | As intended, reconsideration is requested when there is no intention or some alternative has strictly higher utility. |
| Intentions.IntendedCorrect | Agent/intentions.js:254-256 | Being below the maximum of a list means being below some element of it. |
| Intentions.ReconsiderIgnoresAlternatives | Agent/intentions.js:254-256 | Whenever a better alternative exists, the written test still answers no; with no intention both agree. |
| Plan.Objects | Agent/plan.js:44-47 | The planning objects are exactly the reachable cells. |
| Plan.CellFacts | Agent/plan.js:46-75 | The map facts a cell contributes are exactly its tile fact, its free fact unless it is our cell, and a neighbour fact toward each reachable neighbour on the grid; an unreachable cell contributes none. |
| Plan.MapFacts | Agent/plan.js:44-77 | The map part of the initial state holds exactly the tile, neighbour and free facts whose conditions hold on the reachability matrix. |
| Plan.InitMembers | Agent/plan.js:44-98 | A fact is in the initial state exactly when its map, delivery or item condition holds. |
| Plan.MakeProblem | Agent/plan.js:25-108 | Building the problem throws exactly when there is no goal; otherwise its objects are the reachable cells, its initial facts are those of the goal, and its objective follows the goal's action. |
| Plan.Objective | Agent/plan.js:101-108 | A pick-up goal asks for the parcel picked, a put-down for the parcel on the goal tile, a go-to for the agent on the goal tile. |
| Plan.ItemFacts | Agent/plan.js:88-98 | The agent is on its own cell; the parcel is unpicked on the goal tile for a pick-up and picked for a put-down. |
| Plan.TileIffReachable | Agent/plan.js:44-47 | A tile fact holds exactly for reachable cells. |
| Plan.FreeIffReachableOther | Agent/plan.js:68-71 | A cell is free exactly when it is reachable and not our own cell. |
| Plan.DeliveryIffReachableZone | Agent/plan.js:80-85 | A delivery fact holds exactly for reachable delivery spots. |
| Plan.RightLeftDual | Agent/plan.js:49-56 | A right-neighbour fact links two reachable cells one column apart, and holds exactly when the reverse left-neighbour fact holds. |
| Plan.UpDownDual | Agent/plan.js:57-64 | An up-neighbour fact links two reachable cells one row apart, and holds exactly when the reverse down-neighbour fact holds. |
| Plan.NeighboursAdjacent | Agent/plan.js:49-64 | Every neighbour fact links two reachable cells at distance one. |
| Plan.ParcelFactsByGoal | Agent/plan.js:91-98 | The parcel is stated unpicked and on a tile only for a pick-up goal, and picked only for a put-down goal. |
| Plan.ParseTarget | Agent/plan.js:207-211 | The x coordinate is `parseInt` of the text after the first character up to the first 'y'; the y coordinate is NaN when that text has no 'y'. |
| Plan.ParseTargetSplit | Agent/plan.js:207-211 | For a target `c a y b` with no 'y' in `a`, x is `parseInt(a)` and y is `parseInt` of `b` up to its next 'y', as `split("y")` gives the first two pieces. |
| Plan.ParseObjectName | Agent/plan.js:206-211 | Reading back a cell's object name `x<X>y<Y>` gives X and Y. |
| Plan.DigitsValueOfNat | Agent/plan.js:206-211 | Decimal digits read back to the number they were written from. |
| Plan.AfterY | Agent/plan.js:206-211 | The text after the first `y` is found exactly when the name has a `y`. |
| Plan.GetPlan | Agent/plan.js:190-219 | A wait goal plans the single action wait. Otherwise: no answer rejects; a move step without a target never settles; a plan keeps the answer's actions in order and its path is the parsed targets of the move steps, one per move (`Plan.MovePathTargets` places each). |
| Plan.MovePathTargets | Agent/plan.js:202-212 | The target of each move step is the path entry at the number of move steps before it, so the path lists the move targets in order. |
| Plan.PathOfNamedMoves | Agent/plan.js:202-213 | When every move names a cell, the path is those cells in order. |
| Plan.NamedMovesHaveTargets | Agent/plan.js:202-213 | When the moves name cells, every move step carries a target argument. |
| Plan.PopFront | Agent/plan.js:286-292 | Popping an empty plan yields "error"; otherwise the first action, with the rest of the actions and the path shifted by one. |
| Plan.PopAllInOrder | Agent/plan.js:226-292 | Popping as many times as there are actions yields them in order and leaves an empty plan, after which a pop yields "error". |
| Plan.IsSound | Agent/plan.js:239-279 | As written, the check throws exactly when there is neither a free parcel nor an intention, and otherwise answers true. |
| Plan.IsSoundIntended | Agent/plan.js:239-279 | As intended, a plan is sound when its path meets no sensed agent and it does not chase a parcel when none is free. |
| Plan.SoundIgnoresCollisions | Agent/plan.js:250-263 | A path that runs into a sensed agent still passes the written check but fails the intended one. |
| BDI.Classify | Agent/BDI.js:316-345 | The four moves, pick_up, put_down and wait are told apart, and every other string is unknown. |
| BDI.ExecuteStatus | Agent/BDI.js:316-345 | A wait always succeeds, an unknown action always fails, and every other action reports the server's answer. |
| BDI.ErrorActionFails | Agent/BDI.js:316-345 | Executing the "error" that an empty plan pops always fails. |
| BDI.AfterPlan | Agent/BDI.js:290-305 | After replanning the loop goes on when a plan was made, restarts when the planner rejected the goal, and stalls when planning never settles. |
| BDI.Gate | Agent/BDI.js:248-252 | The loop acts exactly when the plan is not empty, the intention has not succeeded and is not impossible; the impossibility check throws only when reached. |
| BDI.ControlStep | Agent/BDI.js:233-307 | An iteration halts when the impossibility check throws; when idle, it waits 30 ms, regenerates desires, refilters and replans; otherwise it pops and executes the next action first. |
| BDI.PopOnlyWhenLive | Agent/BDI.js:248-256 | An action is popped exactly when the plan is live. |
| BDI.FailedActionReplans | Agent/BDI.js:256-266 | A failed action leads to replanning without refiltering. |
| BDI.SuccessfulActionPath | Agent/BDI.js:268-286 | After a successful action the loop builds new desires and refilters exactly when reconsideration is asked for; then it replans when unsound, continues when sound, and halts when the check throws. |
| BDI.RestartOnlyOnRejection | Agent/BDI.js:233-307 | The loop restarts exactly when it replanned and the planner rejected the goal. |
| BDI.Start | Agent/BDI.js:47-80 | Start-up exits exactly when an exploration spot is null, and otherwise follows the first plan. |
| BDI.StartExitsIffNoWalkable | Agent/BDI.js:47-80 | Start-up exits exactly when the map has no walkable cell. |
| BDI.SameTarget | Agent/BDI.js:196-226 | The friend test throws without a current intention; otherwise it reports a conflict exactly when the friend's target equals our intention's first argument. |
| BDI.ReconsiderNeverAfterFilter | Agent/BDI.js:268-273 | Right after filtering, the written reconsideration test never fires, since filtering always leaves one intention. |
| BDI.SoundAfterFilter | Agent/BDI.js:276-286 | Right after filtering, the written soundness check always passes. |
| BDI.SuccessfulStepLoops | Agent/BDI.js:256-286 | After filtering, a successful action always leads straight to the next iteration, with nothing refiltered or replanned. |
| BDI.QuietStep | Agent/BDI.js:256-286 | A successful action with no reconsideration and a sound plan pops and executes the action and goes on to the next iteration. |

## Left out

- Sockets, event listeners and the client: sensing callbacks are modelled
  as the update functions they call. Duplicate listener registration, and
  the timing of callbacks against the loop, are not modelled.
- Timers and waiting: the 30 ms idle delay appears only as an effect label.
  The waits behind executed wait actions and `TIME_TO_LOAD` are not
  modelled.
- The A\* library behind `getPath` and `getPathIgnoringAgents`: path
  lengths are parameters (`Snapshot.pathLen` and `Snapshot.freeLen`). No
  optimality is claimed for them.
- Intentions.Utility: path lengths are parameters, so the utility is
  proved only relative to those lengths, not to real shortest paths.
- The PDDL library, the domain file and the rendering of the problem as
  text: the problem is modelled as sets of facts and goal literals. The
  planner's reply is a parameter.
- Friend messages and their JSON encoding: the friend's target arrives as
  an optional argument of `BDI.SameTarget`.
- `console` output and `process.exit`: the exit is the `Halted` outcome.
- Server replies for moves, pick-up and put-down: each is a boolean
  parameter.
- Plan.ParseTarget: `parseInt`'s skipping of leading blanks and signs,
  and its reading of a leading `0x` as hexadecimal (`parseInt("0x1f")` is
  31, where the model reads 0), are not modelled. Object names never
  contain them.
- Reachability.GetAllReachable: the model requires the start to be on the
  grid. In the source, a start whose x is off the grid throws. A start
  whose x is on the grid but whose y is off it does not throw: the search
  runs from that cell. The agent's own rounded position is always on the
  grid.
- Mapping.MaskedLayout: agents at a negative x are skipped, like agents
  beyond the grid. The source skips only agents at or beyond the width or
  height, and indexing column -1 then throws. Sensed positions are rounded
  server coordinates, which are never negative.
- Intentions.Reachable: the model treats a target off the grid as
  unreachable. In the source, a target whose x is off the grid throws,
  because its column of the reachability map is undefined. A target whose
  x is on the grid but whose y is off it reads `undefined >= 0`, which is
  false, so the source drops it exactly as the model does.
- Floating-point coordinates: sensed coordinates are reals, and rounding is
  `Math.round`. Everything after rounding is integers.
