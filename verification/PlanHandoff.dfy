/** vfsd's bootstrap hand-over: the main thread publishes a plan, the worker thread delivers it to its child. */
module PlanHandoff {

  // ── State ─────────────────────────────────────────────────────────────────

  /** The three capabilities a child is to receive. */
  datatype Plan = Plan(blk: nat, log: nat, service: nat)

  /** Progress of `spawn_fatfs_driver` for the plan with token `t`. */
  datatype Main =
    | Between
    | Allocated(t: nat)
    | StoringLog(t: nat)
    | StoringService(t: nat)
    | StoringToken(t: nat)
    | Creating(t: nat)
    | Starting(t: nat)
    | Waiting(t: nat)

  /** Progress of the worker's loop for a request bearing token `t`. */
  datatype Worker =
    | Receiving
    | Checking(t: nat, valid: bool)
    | LoadingBlk(t: nat)
    | LoadingLog(t: nat, blk: nat)
    | LoadingService(t: nat, blk: nat, log: nat)
    | Clearing(t: nat, plan: Plan)
    | Replying(t: nat, plan: Plan)
    | Signalling(t: nat, ok: bool)

  /** Pending bits of `done_sig`. */
  datatype Signal = Signal(one: bool, two: bool)

  const QUIET: Signal := Signal(false, false)

  datatype Delivery = Delivery(t: nat, plan: Plan)
  datatype Wakeup = Wakeup(t: nat, bits: Signal)

  /**
   * `token`, `blk`, `log` and `service` are the shared atomics. The rest is history: the plan of every token drawn,
   * the children that run, the plans delivered, what main was woken with and whether a signal was lost.
   */
  datatype State = State(
    main: Main, worker: Worker, token: nat, blk: nat, log: nat, service: nat, signal: Signal, next: nat,
    plans: map<nat, Plan>, running: set<nat>, delivered: seq<Delivery>, wakeups: seq<Wakeup>, lost: bool)

  const START: State := State(Between, Receiving, 0, 0, 0, 0, QUIET, 1, map[], {}, [], [], false)

  // ── Steps ─────────────────────────────────────────────────────────────────

  datatype Step =
    | DrawToken(plan: Plan)
    | DeriveFails
    | StoreBlk
    | StoreLog
    | StoreService
    | StoreToken
    | Create(ok: bool)
    | Launch
    | Started(ok: bool)
    | Wake
    | WaitFails
    | Receive(t: nat, valid: bool)
    | Check
    | LoadBlk
    | LoadLog
    | LoadService
    | Clear
    | Reply(ok: bool)
    | Raise(sent: bool)

  /** What may go wrong besides: a child runs although its START failed, and main's `signal_wait` fails. */
  datatype Faults = Faults(strays: bool, deaf: bool)

  const NO_FAULTS: Faults := Faults(false, false)

  /** A child runs from its launch on, which comes before main learns of it. Requests come from running children. */
  predicate Enabled(s: State, step: Step, f: Faults) {
    match step
    case DrawToken(_) => s.main.Between?
    case DeriveFails => s.main.Allocated?
    case StoreBlk => s.main.Allocated? && s.main.t in s.plans
    case StoreLog => s.main.StoringLog? && s.main.t in s.plans
    case StoreService => s.main.StoringService? && s.main.t in s.plans
    case StoreToken => s.main.StoringToken?
    case Create(_) => s.main.Creating?
    case Launch => s.main.Starting? && s.main.t !in s.running
    case Started(ok) => s.main.Starting? && if ok then s.main.t in s.running else s.main.t !in s.running || f.strays
    case Wake => s.main.Waiting? && s.signal != QUIET
    case WaitFails => s.main.Waiting? && f.deaf
    case Receive(t, _) => s.worker.Receiving? && (t == 0 || t in s.running)
    case Check => s.worker.Checking?
    case LoadBlk => s.worker.LoadingBlk?
    case LoadLog => s.worker.LoadingLog?
    case LoadService => s.worker.LoadingService?
    case Clear => s.worker.Clearing?
    case Reply(_) => s.worker.Replying?
    case Raise(_) => s.worker.Signalling?
  }

  function Apply(s: State, step: Step, f: Faults): State
    requires Enabled(s, step, f)
  {
    match step
    case DrawToken(plan) => s.(main := Allocated(s.next), next := s.next + 1, plans := s.plans[s.next := plan])
    case DeriveFails => s.(main := Between)
    case StoreBlk => s.(main := StoringLog(s.main.t), blk := s.plans[s.main.t].blk)
    case StoreLog => s.(main := StoringService(s.main.t), log := s.plans[s.main.t].log)
    case StoreService => s.(main := StoringToken(s.main.t), service := s.plans[s.main.t].service)
    case StoreToken => s.(main := Creating(s.main.t), token := s.main.t)
    case Create(ok) => s.(main := if ok then Starting(s.main.t) else Between)
    case Launch => s.(running := s.running + {s.main.t})
    case Started(ok) => s.(main := if ok then Waiting(s.main.t) else Between)
    case Wake => s.(main := Between, signal := QUIET, wakeups := s.wakeups + [Wakeup(s.main.t, s.signal)])
    case WaitFails => s.(main := Between)
    case Receive(t, valid) => s.(worker := Checking(t, valid))
    case Check =>
      var w := s.worker;
      if w.t == 0 || w.t != s.token || !w.valid then s.(worker := Receiving) else s.(worker := LoadingBlk(w.t))
    case LoadBlk => s.(worker := LoadingLog(s.worker.t, s.blk))
    case LoadLog => s.(worker := LoadingService(s.worker.t, s.worker.blk, s.log))
    case LoadService => s.(worker := Clearing(s.worker.t, Plan(s.worker.blk, s.worker.log, s.service)))
    case Clear => s.(worker := Replying(s.worker.t, s.worker.plan), token := 0)
    case Reply(ok) =>
      s.(worker := Signalling(s.worker.t, ok),
         delivered := if ok then s.delivered + [Delivery(s.worker.t, s.worker.plan)] else s.delivered)
    case Raise(sent) =>
      var signal := if s.worker.ok then s.signal.(one := true) else s.signal.(two := true);
      if sent then s.(worker := Receiving, signal := signal) else s.(worker := Receiving, lost := true)
  }

  ghost predicate IsRun(trace: seq<State>, steps: seq<Step>, f: Faults) {
    && |trace| == |steps| + 1
    && trace[0] == START
    && forall i :: 0 <= i < |steps| ==>
         Enabled(trace[i], steps[i], f) && trace[i + 1] == Apply(trace[i], steps[i], f)
  }

  // ── What must hold ────────────────────────────────────────────────────────

  ghost predicate WasDelivered(s: State, t: nat) { exists i :: 0 <= i < |s.delivered| && s.delivered[i].t == t }

  /** Each plan goes out at most once and unmixed, and main hears bit 1 alone exactly when its own plan went out. */
  ghost predicate Safe(s: State) {
    && (forall i :: 0 <= i < |s.delivered| ==>
          s.delivered[i].t in s.plans && s.delivered[i].plan == s.plans[s.delivered[i].t])
    && (forall i, j :: 0 <= i < j < |s.delivered| ==> s.delivered[i].t != s.delivered[j].t)
    && (forall i :: 0 <= i < |s.wakeups| ==>
          && (s.wakeups[i].bits == Signal(true, false) <==> WasDelivered(s, s.wakeups[i].t))
          && (s.wakeups[i].bits == Signal(false, true) <==> !WasDelivered(s, s.wakeups[i].t)))
  }

  // ── The invariant ─────────────────────────────────────────────────────────

  /** Main has to hear about its plan: the child it has started runs. */
  predicate Due(s: State) { s.main.Waiting? || (s.main.Starting? && s.main.t in s.running) }

  /** Main has to hear about plan `t` and has not been signalled. */
  predicate Expecting(s: State, t: nat) { Due(s) && s.main.t == t && s.signal == QUIET }

  ghost predicate MainInv(s: State) {
    if s.main.Between? then s.signal == QUIET
    else if Due(s) then
      && s.main.t in s.running
      && (s.signal == QUIET ==>
            s.token == s.main.t || ((s.worker.Replying? || s.worker.Signalling?) && s.worker.t == s.main.t) || s.lost)
    else
      && s.main.t in s.plans && s.main.t !in s.running && s.signal == QUIET
      && (s.main.StoringLog? || s.main.StoringService? || s.main.StoringToken? ==> s.blk == s.plans[s.main.t].blk)
      && (s.main.StoringService? || s.main.StoringToken? ==> s.log == s.plans[s.main.t].log)
      && (s.main.StoringToken? ==> s.service == s.plans[s.main.t].service)
      && (s.main.Creating? || s.main.Starting? ==> s.token == s.main.t)
  }

  /** A pending plan's fields are in place, except while main overwrites a plan whose child never started. */
  ghost predicate PlanInv(s: State) {
    && (s.token != 0 ==> s.token in s.plans && !WasDelivered(s, s.token))
    && (s.token in s.running ==> Expecting(s, s.token))
    && (s.main.Creating? || s.main.Starting? || s.main.Waiting? ==>
          s.token != 0 ==> Plan(s.blk, s.log, s.service) == s.plans[s.token])
  }

  ghost predicate WorkerInv(s: State) {
    match s.worker
    case Receiving => true
    case Checking(t, _) => t == 0 || t in s.running
    case LoadingBlk(t) => t == s.token && t in s.running
    case LoadingLog(t, blk) => t == s.token && t in s.running && blk == s.blk
    case LoadingService(t, blk, log) => t == s.token && t in s.running && blk == s.blk && log == s.log
    case Clearing(t, plan) => t == s.token && t in s.running && t in s.plans && plan == s.plans[t]
    case Replying(t, plan) =>
      s.token == 0 && Expecting(s, t) && t in s.plans && plan == s.plans[t] && !WasDelivered(s, t)
    case Signalling(t, ok) => s.token == 0 && Expecting(s, t) && (ok <==> WasDelivered(s, t))
  }

  ghost predicate SignalInv(s: State) {
    s.signal != QUIET ==>
      && Due(s) && s.token == 0 && (s.worker.Receiving? || s.worker.Checking?)
      && (if WasDelivered(s, s.main.t) then s.signal == Signal(true, false) else s.signal == Signal(false, true))
  }

  /** After a lost signal main waits for ever, or is about to, and no plan is pending. */
  ghost predicate LostInv(s: State) {
    s.lost ==> Due(s) && s.signal == QUIET && s.token == 0 && (s.worker.Receiving? || s.worker.Checking?)
  }

  /** Tokens are fresh when drawn, and only plans of running children are ever delivered or waited for. */
  ghost predicate HistoryInv(s: State) {
    && s.next > 0 && 0 !in s.plans
    && (forall t :: t in s.plans ==> t < s.next)
    && (forall t :: t in s.running ==> t in s.plans)
    && (forall i :: 0 <= i < |s.delivered| ==> s.delivered[i].t in s.running)
    && (forall i :: 0 <= i < |s.wakeups| ==> s.wakeups[i].t in s.running)
    && (forall i :: 0 <= i < |s.wakeups| ==> s.wakeups[i].t != s.token)
    && (Due(s) ==> forall i :: 0 <= i < |s.wakeups| ==> s.wakeups[i].t != s.main.t)
  }

  ghost predicate Inv(s: State) {
    HistoryInv(s) && MainInv(s) && PlanInv(s) && WorkerInv(s) && SignalInv(s) && LostInv(s) && Safe(s)
  }

  lemma PublishKeeps(s: State, step: Step)
    requires Inv(s) && Enabled(s, step, NO_FAULTS)
    requires step.DrawToken? || step.DeriveFails? || step.StoreBlk? || step.StoreLog?
    ensures Inv(Apply(s, step, NO_FAULTS))
  {
    var s' := Apply(s, step, NO_FAULTS);
    assert forall t :: WasDelivered(s', t) == WasDelivered(s, t);
  }

  lemma CreateKeeps(s: State, step: Step)
    requires Inv(s) && Enabled(s, step, NO_FAULTS)
    requires step.StoreService? || step.StoreToken? || step.Create?
    ensures Inv(Apply(s, step, NO_FAULTS))
  {
    var s' := Apply(s, step, NO_FAULTS);
    assert forall t :: WasDelivered(s', t) == WasDelivered(s, t);
  }

  lemma StartKeeps(s: State, step: Step)
    requires Inv(s) && Enabled(s, step, NO_FAULTS) && (step.Launch? || step.Started?)
    ensures Inv(Apply(s, step, NO_FAULTS))
  {
    var s' := Apply(s, step, NO_FAULTS);
    assert forall t :: WasDelivered(s', t) == WasDelivered(s, t);
  }

  lemma WakeKeeps(s: State)
    requires Inv(s) && Enabled(s, Wake, NO_FAULTS)
    ensures Inv(Apply(s, Wake, NO_FAULTS))
  {
    var s' := Apply(s, Wake, NO_FAULTS);
    assert forall t :: WasDelivered(s', t) == WasDelivered(s, t);
  }

  lemma RequestKeeps(s: State, step: Step)
    requires Inv(s) && Enabled(s, step, NO_FAULTS) && (step.Receive? || step.Check?)
    ensures Inv(Apply(s, step, NO_FAULTS))
  {
    var s' := Apply(s, step, NO_FAULTS);
    assert forall t :: WasDelivered(s', t) == WasDelivered(s, t);
  }

  lemma LoadKeeps(s: State, step: Step)
    requires Inv(s) && Enabled(s, step, NO_FAULTS) && (step.LoadBlk? || step.LoadLog? || step.LoadService?)
    ensures Inv(Apply(s, step, NO_FAULTS))
  {
    var s' := Apply(s, step, NO_FAULTS);
    assert forall t :: WasDelivered(s', t) == WasDelivered(s, t);
  }

  lemma ClearKeeps(s: State, step: Step)
    requires Inv(s) && Enabled(s, step, NO_FAULTS) && (step.Clear?)
    ensures Inv(Apply(s, step, NO_FAULTS))
  {
    var s' := Apply(s, step, NO_FAULTS);
    assert forall t :: WasDelivered(s', t) == WasDelivered(s, t);
  }

  lemma RaiseKeeps(s: State, step: Step)
    requires Inv(s) && Enabled(s, step, NO_FAULTS) && (step.Raise?)
    ensures Inv(Apply(s, step, NO_FAULTS))
  {
    var s' := Apply(s, step, NO_FAULTS);
    assert forall t :: WasDelivered(s', t) == WasDelivered(s, t);
  }

  lemma ReplyKeeps(s: State, step: Step)
    requires Inv(s) && Enabled(s, step, NO_FAULTS) && step.Reply?
    ensures Inv(Apply(s, step, NO_FAULTS))
  {
    var s' := Apply(s, step, NO_FAULTS);
    forall t ensures WasDelivered(s', t) <==> WasDelivered(s, t) || (step.ok && t == s.worker.t) {
      if WasDelivered(s, t) {
        var i :| 0 <= i < |s.delivered| && s.delivered[i].t == t;
        assert s'.delivered[i].t == t;
      }
      if step.ok {
        assert s'.delivered[|s.delivered|].t == s.worker.t;
      }
    }
  }

  /** In every state of every run the hand-over is safe. */
  lemma {:induction false} RunsAreSafe(trace: seq<State>, steps: seq<Step>, i: nat)
    requires IsRun(trace, steps, NO_FAULTS) && i < |trace|
    ensures Inv(trace[i])
  {
    if i > 0 {
      RunsAreSafe(trace, steps, i - 1);
      hide Inv;
      var s, step := trace[i - 1], steps[i - 1];
      match step
      case Wake => WakeKeeps(s);
      case Reply(_) => ReplyKeeps(s, step);
      case Receive(_, _) | Check => RequestKeeps(s, step);
      case LoadBlk | LoadLog | LoadService => LoadKeeps(s, step);
      case Clear => ClearKeeps(s, step);
      case Raise(_) => RaiseKeeps(s, step);
      case DrawToken(_) | DeriveFails | StoreBlk | StoreLog => PublishKeeps(s, step);
      case StoreService | StoreToken | Create(_) => CreateKeeps(s, step);
      case Launch | Started(_) => StartKeeps(s, step);
      case WaitFails => assert false;
    }
  }

  // ── Neither fault can be allowed ──────────────────────────────────────────

  ghost predicate Reachable(s: State, f: Faults) {
    exists trace, steps :: IsRun(trace, steps, f) && trace[|steps|] == s
  }

  lemma ReachStep(s: State, step: Step, f: Faults) returns (after: State)
    requires Reachable(s, f) && Enabled(s, step, f)
    ensures after == Apply(s, step, f) && Reachable(after, f)
  {
    hide Enabled;
    hide Apply;
    after := Apply(s, step, f);
    var trace, steps :| IsRun(trace, steps, f) && trace[|steps|] == s;
    assert IsRun(trace + [after], steps + [step], f);
  }

  lemma StartReachable(f: Faults)
    ensures Reachable(START, f)
  {
    assert IsRun([START], [], f);
  }

  /** The first plan is published and its child runs, but main does not know yet. */
  lemma ReachLaunched(plan: Plan, f: Faults) returns (s: State)
    ensures Reachable(s, f) && s == Launched(Starting(1), plan)
  {
    hide Reachable;
    StartReachable(f);
    s := ReachStep(START, DrawToken(plan), f);
    s := ReachStep(s, StoreBlk, f);
    s := ReachStep(s, StoreLog, f);
    s := ReachStep(s, StoreService, f);
    s := ReachStep(s, StoreToken, f);
    s := ReachStep(s, Create(true), f);
    s := ReachStep(s, Launch, f);
  }

  function Launched(main: Main, plan: Plan): State {
    State(main, Receiving, 1, plan.blk, plan.log, plan.service, QUIET, 2, map[1 := plan], {1}, [], [], false)
  }

  /** Once main has given up a plan whose child runs, that child can be handed the next plan's block capability. */
  lemma GivenUpMixes(given: State, one: Plan, two: Plan, f: Faults) returns (s: State)
    requires Reachable(given, f) && given == Launched(Between, one) && one.blk != two.blk
    ensures Reachable(s, f) && 1 in s.plans && s.plans[1] == one
    ensures s.delivered == [Delivery(1, Plan(two.blk, one.log, one.service))]
    ensures !Safe(s)
  {
    hide Reachable;
    s := ReachStep(given, Receive(1, true), f);
    s := ReachStep(s, Check, f);
    s := ReachStep(s, DrawToken(two), f);
    s := ReachStep(s, StoreBlk, f);
    s := ReachStep(s, LoadBlk, f);
    s := ReachStep(s, LoadLog, f);
    s := ReachStep(s, LoadService, f);
    s := ReachStep(s, Clear, f);
    s := ReachStep(s, Reply(true), f);
    assert s.delivered[0].plan != s.plans[1];
  }

  /** A child that runs although its START failed can be handed another plan's block capability. */
  lemma FailedStartMixes(one: Plan, two: Plan, f: Faults) returns (s: State)
    requires one.blk != two.blk && f.strays
    ensures Reachable(s, f) && 1 in s.plans && s.plans[1] == one
    ensures s.delivered == [Delivery(1, Plan(two.blk, one.log, one.service))]
    ensures !Safe(s)
  {
    hide Reachable;
    s := ReachLaunched(one, f);
    s := ReachStep(s, Started(false), f);
    s := GivenUpMixes(s, one, two, f);
  }

  /** So can a child that main no longer waits for because `signal_wait` failed. */
  lemma FailedWaitMixes(one: Plan, two: Plan, f: Faults) returns (s: State)
    requires one.blk != two.blk && f.deaf
    ensures Reachable(s, f) && 1 in s.plans && s.plans[1] == one
    ensures s.delivered == [Delivery(1, Plan(two.blk, one.log, one.service))]
    ensures !Safe(s)
  {
    hide Reachable;
    s := ReachLaunched(one, f);
    s := ReachStep(s, Started(true), f);
    s := ReachStep(s, WaitFails, f);
    s := GivenUpMixes(s, one, two, f);
  }

  /** The hand-over is safe in every reachable state exactly when neither fault can happen. */
  lemma SafeIff(f: Faults)
    ensures (forall s :: Reachable(s, f) ==> Safe(s)) <==> !f.strays && !f.deaf
  {
    hide Safe;
    if f.strays {
      var s := FailedStartMixes(Plan(1, 1, 1), Plan(2, 2, 2), f);
    } else if f.deaf {
      var s := FailedWaitMixes(Plan(1, 1, 1), Plan(2, 2, 2), f);
    } else {
      forall s | Reachable(s, f) ensures Safe(s) {
        var trace, steps :| IsRun(trace, steps, f) && trace[|steps|] == s;
        RunsAreSafe(trace, steps, |steps|);
      }
    }
  }
}
