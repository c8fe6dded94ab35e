/** The control loop of Agent/BDI.js: starting up, one iteration of the
    belief-desire-intention loop as a decision over what the queries it asks
    answer, the dispatch of plan actions to the server, and the test that
    switches filtering to its conflict mode when a friend pursues the same
    target. */
module BDI {
  import opened Base
  import opened Table
  import opened ParcelSense
  import opened Mapping
  import opened Beliefs
  import opened Desires
  import opened Intentions
  import opened Plan

  /* ---------------------------------------------------------------------
     Executing actions
     --------------------------------------------------------------------- */

  /** The server command a plan action is sent as. */
  datatype Command = Move(dir: string) | PickUpCmd | PutDownCmd | WaitCmd | Unknown

  function Classify(action: string): (c: Command)
    ensures c.Move? <==> IsMove(action)
    ensures c.Move? ==> c.dir == action
    ensures c == PickUpCmd <==> action == "pick_up"
    ensures c == PutDownCmd <==> action == "put_down"
    ensures c == WaitCmd <==> action == "wait"
  {
    if IsMove(action) then Move(action)
    else if action == "pick_up" then PickUpCmd
    else if action == "put_down" then PutDownCmd
    else if action == "wait" then WaitCmd
    else Unknown
  }

  /** `execute(action)`: moves, pick-ups and put-downs report the server's
      answer `server`; waiting succeeds; anything else fails. */
  function ExecuteStatus(action: string, server: bool): (ok: bool)
    ensures Classify(action) == WaitCmd ==> ok
    ensures Classify(action) == Unknown ==> !ok
    ensures Classify(action) !in {WaitCmd, Unknown} ==> ok == server
  {
    match Classify(action)
    case WaitCmd => true
    case Unknown => false
    case _ => server
  }

  /** The "error" a pop from an empty plan returns is never executed
      successfully, whatever the server would say. */
  lemma ErrorActionFails(server: bool)
    ensures !ExecuteStatus("error", server)
  {
  }

  /* ---------------------------------------------------------------------
     One iteration of the control loop
     --------------------------------------------------------------------- */

  /** What an iteration does, in order. */
  datatype Effect =
    | Popped(action: string)
    | Executed(action: string, ok: bool)
    | Delayed(ms: nat)
    | Regenerated
    | Refiltered
    | Replanned

  /** How an iteration hands over: to the next iteration, back to
      `start()`, nowhere because an exception ended the loop, or nowhere
      because the plan request never settles. */
  datatype Next = Loop | Restart | Halted | Stalled

  datatype StepResult = StepResult(effects: seq<Effect>, next: Next)

  /** The answers the iteration's queries give, each evaluated only when
      the loop reaches it: the plan, `hasSucceeded`, `isImpossible`, the
      server's answer to the executed action, `reconsider`, `isSound`, and
      the outcome of the replanning request, if one is made. */
  datatype Observation = Observation(
    plan: PlanState,
    succeeded: bool,
    impossible: Result<bool>,
    server: bool,
    reconsider: bool,
    sound: Result<bool>,
    replanned: PlanOutcome)

  /** Where a replanning request leads: the loop resumes when it resolves,
      restarts when the solver rejects. */
  function AfterPlan(o: PlanOutcome): (n: Next)
    ensures n == Loop <==> o.Planned?
    ensures n == Restart <==> o == Rejected
    ensures n == Stalled <==> o == Unsettled
  {
    match o
    case Planned(_) => Loop
    case Rejected => Restart
    case Unsettled => Stalled
  }

  /** Whether the iteration executes an action: the plan is not empty and
      the intention has neither succeeded nor become impossible.  The three
      queries short-circuit, so `isImpossible` throwing only matters when
      the first two let it run. */
  function Gate(o: Observation): (r: Result<bool>)
    ensures r.Err? <==> !IsEmpty(o.plan) && !o.succeeded && o.impossible.Err?
    ensures r == Ok(true) <==> !IsEmpty(o.plan) && !o.succeeded && o.impossible == Ok(false)
  {
    if IsEmpty(o.plan) || o.succeeded then Ok(false)
    else match o.impossible
      case Err(e) => Err(e)
      case Ok(b) => Ok(!b)
  }

  /** `bdiControlLoop()`, one iteration. */
  function ControlStep(o: Observation): (r: StepResult)
    ensures Gate(o).Err? ==> r == StepResult([], Halted)
    ensures Gate(o) == Ok(false) ==>
      r == StepResult([Delayed(30), Regenerated, Refiltered, Replanned], AfterPlan(o.replanned))
    ensures Gate(o) == Ok(true) ==>
      var a := o.plan.actions[0];
      var ok := ExecuteStatus(a, o.server);
      |r.effects| >= 2 && r.effects[..2] == [Popped(a), Executed(a, ok)]
  {
    match Gate(o)
    case Err(_) => StepResult([], Halted)
    case Ok(false) => StepResult([Delayed(30), Regenerated, Refiltered, Replanned], AfterPlan(o.replanned))
    case Ok(true) =>
      var (a, _) := PopFront(o.plan);
      var ok := ExecuteStatus(a, o.server);
      var done := [Popped(a), Executed(a, ok)];
      if !ok then StepResult(done + [Replanned], AfterPlan(o.replanned))
      else
        var after := done + (if o.reconsider then [Regenerated, Refiltered] else []);
        match o.sound
        case Err(_) => StepResult(after, Halted)
        case Ok(false) => StepResult(after + [Replanned], AfterPlan(o.replanned))
        case Ok(true) => StepResult(after, Loop)
  }

  /* ---------------------------------------------------------------------
     Properties of one iteration
     --------------------------------------------------------------------- */

  /** An action is popped and executed exactly when the plan is not empty
      and the intention has neither succeeded nor become impossible. */
  lemma PopOnlyWhenLive(o: Observation)
    ensures (exists a :: Popped(a) in ControlStep(o).effects) <==>
      !IsEmpty(o.plan) && !o.succeeded && o.impossible == Ok(false)
  {
    var r := ControlStep(o);
    if Gate(o) == Ok(true) {
      assert Popped(o.plan.actions[0]) == r.effects[0];
    } else if Gate(o) == Ok(false) {
      assert forall e :: e in r.effects ==> !e.Popped?;
    }
  }

  /** A failed action is followed by a replan for the same intention: the
      desires are not filtered again. */
  lemma FailedActionReplans(o: Observation)
    requires Gate(o) == Ok(true) && !ExecuteStatus(o.plan.actions[0], o.server)
    ensures Replanned in ControlStep(o).effects
    ensures Refiltered !in ControlStep(o).effects
    ensures ControlStep(o).next == AfterPlan(o.replanned)
  {
    var a := o.plan.actions[0];
    assert ControlStep(o).effects == [Popped(a), Executed(a, false), Replanned];
  }

  /** After a successful action, a positive `reconsider` builds new desires
      and re-filters them before the soundness check; an unsound plan is
      replanned and a sound one goes straight on to the next iteration. */
  lemma SuccessfulActionPath(o: Observation)
    requires Gate(o) == Ok(true) && ExecuteStatus(o.plan.actions[0], o.server)
    ensures Refiltered in ControlStep(o).effects <==> o.reconsider
    ensures Regenerated in ControlStep(o).effects <==> o.reconsider
    ensures o.sound == Ok(false) ==> Replanned in ControlStep(o).effects && ControlStep(o).next == AfterPlan(o.replanned)
    ensures o.sound == Ok(true) ==> Replanned !in ControlStep(o).effects && ControlStep(o).next == Loop
    ensures o.sound.Err? ==> ControlStep(o).next == Halted
  {
    var a := o.plan.actions[0];
    var done := [Popped(a), Executed(a, true)];
    var after := done + (if o.reconsider then [Regenerated, Refiltered] else []);
    assert o.reconsider ==> after[2] == Regenerated && after[3] == Refiltered;
    assert !o.reconsider ==> after == done;
  }

  /** The loop goes back to `start()` only after a replanning request the
      solver rejected; it never retries the plan in place. */
  lemma RestartOnlyOnRejection(o: Observation)
    ensures ControlStep(o).next == Restart <==> Replanned in ControlStep(o).effects && o.replanned == Rejected
  {
    var r := ControlStep(o);
    if Gate(o) == Ok(true) {
      var a := o.plan.actions[0];
      var ok := ExecuteStatus(a, o.server);
      if ok {
        var after := [Popped(a), Executed(a, ok)] + (if o.reconsider then [Regenerated, Refiltered] else []);
        assert Replanned !in after;
      }
    }
  }

  /* ---------------------------------------------------------------------
     Start-up and the friend conflict
     --------------------------------------------------------------------- */

  /** `start()` given the loaded exploration spots and the outcome of the
      first plan request: the process exits when a spot is null. */
  function Start(spots: Table<Option<Pos>>, planned: PlanOutcome): (n: Next)
    ensures n == Halted <==> exists i :: 0 <= i < |spots| && spots[i].1.None?
    ensures n != Halted ==> n == AfterPlan(planned)
  {
    if exists i :: 0 <= i < |spots| && spots[i].1.None? then Halted
    else AfterPlan(planned)
  }

  /** The agent exits at start-up exactly when the map has no walkable cell. */
  lemma StartExitsIffNoWalkable(g: Grid, planned: PlanOutcome)
    requires WF(g)
    ensures Start(LoadExplorationSpots(g), planned) == Halted <==>
      forall p :: InBounds(p, g.width, g.height) ==> !Walkable(g, p)
  {
    SpotsNullIffNoWalkable(g);
  }

  /** The conflict test of the `onMsg` handler: our front intention's first
      argument (null without arguments) equals the friend's announced one
      and neither is null.  Reading the arguments of a missing intention
      throws. */
  function SameTarget(front: Option<Intention>, friend: Option<Arg>): (r: Result<bool>)
    ensures r.Err? <==> front.None?
    ensures r.Ok? ==> (r.value <==> friend.Some? && |front.value.args| > 0 && front.value.args[0] == friend.value)
  {
    match front
    case None => Err("TypeError: no current intention")
    case Some(it) =>
      var mine: Option<Arg> := if |it.args| == 0 then None else Some(it.args[0]);
      Ok(friend.Some? && mine.Some? && mine == friend)
  }

  /* ---------------------------------------------------------------------
     The loop as the rest of the model makes it
     --------------------------------------------------------------------- */

  /** After filtering there is always a current intention, so `reconsider`
      as written is false and never triggers a re-filter. */
  lemma ReconsiderNeverAfterFilter(s: Snapshot, ds: seq<Desire>, change: bool)
    requires Intentions.Valid(s) && forall d :: d in ds ==> WellFormed(d)
    ensures !Reconsider(s, GetFront(Filter(s, ds, change)))
  {
  }

  /** After filtering there is always a current intention, so `isSound`
      does not throw and declares every plan sound. */
  lemma SoundAfterFilter(s: Snapshot, ds: seq<Desire>, change: bool, p: PlanState,
                         agents: seq<AgentPosition>, free: seq<Parcel>)
    requires Intentions.Valid(s) && forall d :: d in ds ==> WellFormed(d)
    ensures IsSound(p, agents, GetFront(Filter(s, ds, change)), free) == Ok(true)
  {
  }

  /** With the queries answered by the model's own `reconsider` and
      `isSound` on a filtered intention list, an iteration whose action
      succeeds neither re-filters nor replans: it always loops on. */
  lemma SuccessfulStepLoops(s: Snapshot, ds: seq<Desire>, change: bool, p: PlanState, succeeded: bool,
                            impossible: Result<bool>, server: bool, agents: seq<AgentPosition>,
                            free: seq<Parcel>, replanned: PlanOutcome)
    requires Intentions.Valid(s) && forall d :: d in ds ==> WellFormed(d)
    requires var front := GetFront(Filter(s, ds, change));
      var o := Observation(p, succeeded, impossible, server, Reconsider(s, front),
                           IsSound(PopFront(p).1, agents, front, free), replanned);
      Gate(o) == Ok(true) && ExecuteStatus(p.actions[0], server)
    ensures var front := GetFront(Filter(s, ds, change));
      var o := Observation(p, succeeded, impossible, server, Reconsider(s, front),
                           IsSound(PopFront(p).1, agents, front, free), replanned);
      ControlStep(o) == StepResult([Popped(p.actions[0]), Executed(p.actions[0], true)], Loop)
  {
    var front := GetFront(Filter(s, ds, change));
    ReconsiderNeverAfterFilter(s, ds, change);
    SoundAfterFilter(s, ds, change, PopFront(p).1, agents, free);
    QuietStep(Observation(p, succeeded, impossible, server, Reconsider(s, front),
                          IsSound(PopFront(p).1, agents, front, free), replanned));
  }

  /** A successful action with no reconsideration and a sound plan is popped,
      executed, and the loop goes on with nothing else done. */
  lemma QuietStep(o: Observation)
    requires Gate(o) == Ok(true) && ExecuteStatus(o.plan.actions[0], o.server)
    requires !o.reconsider && o.sound == Ok(true)
    ensures ControlStep(o) == StepResult([Popped(o.plan.actions[0]), Executed(o.plan.actions[0], true)], Loop)
  {
    var a := o.plan.actions[0];
    assert [Popped(a), Executed(a, true)] + [] == [Popped(a), Executed(a, true)];
  }
}
