/** The agent runtime: plans are validated, gated, possibly confirmed, and only then executed. */
module Agent {
  import opened Basics

  const MAX_ACTIONS := 4
  const MAX_TRACE := 8
  const MAX_NAME := 16
  const MAX_DATA := 128
  const MAX_INPUT := 128
  const MAX_RECENT := 4

  /** The two planner modes, and any other value of the byte that holds one. */
  datatype PlannerMode = Deterministic | LLM | OtherMode

  // action kinds; the same numbers name the intents
  const UNKNOWN: u8 := 0
  const LIST_FILES: u8 := 1
  const READ_FILE: u8 := 2
  const WRITE_FILE: u8 := 3
  const DELETE_FILE: u8 := 4
  const STAT_FILE: u8 := 5
  const SHOW_HISTORY: u8 := 7     // 6 shows the help
  const SHOW_VERSION: u8 := 8
  const SHOW_TICKS: u8 := 9
  const SHOW_MEMORY_MAP: u8 := 10
  const SET_MODE: u8 := 11

  const SAFE: u8 := 0
  const RISKY: u8 := 1

  datatype Action = Action(kind: u8, risk: u8, target: seq<byte>, targetLen: int, dataLen: int)

  datatype Plan = Plan(planner: PlannerMode, intent: u8, actions: seq<Action>, actionCount: int)

  /** Plans hold a fixed array of four actions. */
  predicate FixedSize(p: Plan) { |p.actions| == MAX_ACTIONS }

  const NO_ACTION := Action(UNKNOWN, SAFE, [], 0, 0)
  const NO_PLAN := Plan(Deterministic, UNKNOWN, [NO_ACTION, NO_ACTION, NO_ACTION, NO_ACTION], 0)

  datatype Safety = Rejected | Allowed | ConfirmationRequired

  datatype Message =
    | NoMessage | PlannerFailed | ValidationFailed | NoActions | TooManyActions | UnsupportedPlan | RiskInvalid
    | TargetInvalid | DataInvalid | NeedsConfirmation | Cancelled | ExecutorNotConfigured | UnsupportedAction
    | ActionUnavailable | NoResult | CompletedPlan | OK | Handler(code: nat)

  datatype ActionResult = ActionResult(ok: bool, message: Message)

  datatype Stage = PlannerStage | IntentStage | ValidationStage | SafetyStage | ExecutorStage | FormatterStage

  datatype Detail = Missing | Failed | Passed | Status(s: Safety) | Success | Structured | Mode(m: PlannerMode) | Intent(i: u8)

  datatype Trace = Trace(stage: Stage, detail: Detail)

  datatype Response = Response(trace: seq<Trace>, result: ActionResult, safety: Safety, reason: Message)

  const NO_RESPONSE := Response([], ActionResult(false, NoMessage), Rejected, NoMessage)

  /** The trace is a fixed array: once it is full, further entries are dropped. */
  function AddTrace(r: Response, stage: Stage, detail: Detail): Response
  {
    if |r.trace| >= MAX_TRACE then r else r.(trace := r.trace + [Trace(stage, detail)])
  }

  /** The stages after validation, as the trace lists them. */
  function GateTrail(safety: Safety, executor: bool, ok: bool): seq<Trace>
  {
    [Trace(SafetyStage, Status(safety))]
    + if safety == ConfirmationRequired then []
      else if !executor then [Trace(ExecutorStage, Missing)]
      else if !ok then [Trace(ExecutorStage, Failed)]
      else [Trace(ExecutorStage, Success), Trace(FormatterStage, Structured)]
  }

  /** The whole trace of a plan: planner and intent, validation, and what follows if that passed. */
  function Trail(plan: Plan, valid: bool, safety: Safety, executor: bool, ok: bool): seq<Trace>
  {
    [Trace(PlannerStage, Mode(if plan.planner == LLM then LLM else Deterministic)),
     Trace(IntentStage, Intent(if ValidKind(plan.intent) then plan.intent else UNKNOWN)),
     Trace(ValidationStage, if valid then Passed else Failed)]
    + if valid then GateTrail(safety, executor, ok) else []
  }

  /** Why the gate decided, and what is answered when nothing is executed. */
  predicate Explained(r: Response, executor: bool)
  {
    && (r.safety == ConfirmationRequired ==> r.reason == NeedsConfirmation && r.result == ActionResult(false, NeedsConfirmation))
    && (r.safety == Allowed ==> r.reason == OK && (!executor ==> r.result == ActionResult(false, ExecutorNotConfigured)))
  }

  // ----- validation

  predicate ValidKind(kind: u8) { LIST_FILES <= kind <= SET_MODE }

  /** What a plan from the language model may contain. */
  predicate AllowedPlanAction(kind: u8) { ValidKind(kind) && kind != WRITE_FILE }

  predicate RequiresTarget(kind: u8) { kind == READ_FILE || kind == DELETE_FILE || kind == STAT_FILE }

  function ActionRisk(kind: u8): u8 { if kind == DELETE_FILE then RISKY else SAFE }

  function CheckAction(planner: PlannerMode, a: Action): Message
  {
    if !ValidKind(a.kind) || (planner == LLM && !AllowedPlanAction(a.kind)) then UnsupportedPlan
    else if a.risk != SAFE && a.risk != RISKY then RiskInvalid
    else if a.targetLen < 0 || a.targetLen > MAX_NAME then TargetInvalid
    else if a.dataLen < 0 || a.dataLen > MAX_DATA then DataInvalid
    else if a.dataLen != 0 then DataInvalid
    else if RequiresTarget(a.kind) && a.targetLen == 0 then TargetInvalid
    else if planner == LLM && ActionRisk(a.kind) != a.risk then RiskInvalid
    else OK
  }

  function CheckFrom(p: Plan, i: nat): Message
    requires FixedSize(p) && p.actionCount <= MAX_ACTIONS
    decreases p.actionCount - i
  {
    if i >= p.actionCount then OK
    else if CheckAction(p.planner, p.actions[i]) != OK then CheckAction(p.planner, p.actions[i])
    else CheckFrom(p, i + 1)
  }

  function Validate(p: Plan): Message
    requires FixedSize(p)
  {
    if p.actionCount <= 0 then NoActions
    else if p.actionCount > MAX_ACTIONS then TooManyActions
    else CheckFrom(p, 0)
  }

  lemma {:induction false} CheckedFrom(p: Plan, i: nat)
    requires FixedSize(p) && p.actionCount <= MAX_ACTIONS
    ensures CheckFrom(p, i) == OK <==> forall k :: i <= k < p.actionCount ==> CheckAction(p.planner, p.actions[k]) == OK
    decreases p.actionCount - i
  {
    if i < p.actionCount { CheckedFrom(p, i + 1); }
  }

  /** What an action must be like: a known kind, one of the two risks, a name of at most 16 bytes (of at least one where
      the kind needs it) and no data; from the language model no write, and risky exactly if it deletes. */
  predicate ProperAction(planner: PlannerMode, a: Action)
  {
    && 1 <= a.kind <= 11 && (a.risk == SAFE || a.risk == RISKY) && 0 <= a.targetLen <= 16 && a.dataLen == 0
    && (a.kind == READ_FILE || a.kind == DELETE_FILE || a.kind == STAT_FILE ==> 0 < a.targetLen)
    && (planner == LLM ==> a.kind != WRITE_FILE && (a.risk == RISKY <==> a.kind == DELETE_FILE))
  }

  /** Validation passes exactly the plans of one to four proper actions. */
  lemma ValidIs(p: Plan)
    requires FixedSize(p)
    ensures Validate(p) == OK <==> 1 <= p.actionCount <= 4 && forall i :: 0 <= i < p.actionCount ==> ProperAction(p.planner, p.actions[i])
  {
    hide CheckFrom;
    if 1 <= p.actionCount <= 4 {
      CheckedFrom(p, 0);
      forall i | 0 <= i < p.actionCount ensures ProperAction(p.planner, p.actions[i]) <==> CheckAction(p.planner, p.actions[i]) == OK {}
    }
  }

  /** Each refusal names a fault the action has. */
  lemma RefusedBecause(planner: PlannerMode, a: Action)
    ensures var m := CheckAction(planner, a);
            && (m == OK || m == UnsupportedPlan || m == RiskInvalid || m == TargetInvalid || m == DataInvalid)
            && (m == UnsupportedPlan <==> !(1 <= a.kind <= 11) || (planner == LLM && a.kind == WRITE_FILE))
            && (m == RiskInvalid ==> a.risk > 1 || (planner == LLM && (a.risk == RISKY <==> a.kind != DELETE_FILE)))
            && (m == TargetInvalid ==> a.targetLen < 0 || a.targetLen > 16 || (a.targetLen == 0 && RequiresTarget(a.kind)))
            && (m == DataInvalid ==> a.dataLen != 0)
  {}

  lemma {:induction false} CheckStops(p: Plan, i: nat, k: nat)
    requires FixedSize(p) && i <= k < p.actionCount <= MAX_ACTIONS && CheckAction(p.planner, p.actions[k]) != OK
    requires forall j :: i <= j < k ==> CheckAction(p.planner, p.actions[j]) == OK
    ensures CheckFrom(p, i) == CheckAction(p.planner, p.actions[k])
    decreases k - i
  {
    hide CheckAction;
    if i < k { CheckStops(p, i + 1, k); }
  }

  /** A plan is refused for its number of actions, or for the fault of its first faulty one. */
  lemma FirstFault(p: Plan, k: nat)
    requires FixedSize(p)
    ensures p.actionCount <= 0 ==> Validate(p) == NoActions
    ensures p.actionCount > 4 ==> Validate(p) == TooManyActions
    ensures k < p.actionCount <= 4 && CheckAction(p.planner, p.actions[k]) != OK
            && (forall j :: 0 <= j < k ==> CheckAction(p.planner, p.actions[j]) == OK)
            ==> Validate(p) == CheckAction(p.planner, p.actions[k])
  {
    hide CheckAction, CheckFrom;
    if k < p.actionCount <= 4 && CheckAction(p.planner, p.actions[k]) != OK
       && (forall j :: 0 <= j < k ==> CheckAction(p.planner, p.actions[j]) == OK) {
      CheckStops(p, 0, k);
    }
  }

  predicate HasRisky(p: Plan)
    requires FixedSize(p)
  {
    exists i :: 0 <= i < p.actionCount && i < MAX_ACTIONS && p.actions[i].risk == RISKY
  }

  predicate Contains(p: Plan, kind: u8)
    requires FixedSize(p)
  {
    exists i :: 0 <= i < p.actionCount && i < MAX_ACTIONS && p.actions[i].kind == kind
  }

  /** A valid plan from the language model writes nothing, and is risky if it deletes. */
  lemma ModelPlansAreTame(p: Plan)
    requires FixedSize(p) && p.planner == LLM && Validate(p) == OK
    ensures !Contains(p, WRITE_FILE)
    ensures Contains(p, DELETE_FILE) ==> HasRisky(p)
  {
    CheckedFrom(p, 0);
  }

  // ----- what happened, in order

  /** A plan was queued in a context for confirmation, taken from there, or handed to the executor. */
  datatype Event = Queued(c: Context, plan: Plan) | Taken(c: Context, plan: Plan) | Ran(plan: Plan, confirmed: bool)

  /** The event is about the pending plan of this context. */
  predicate Concerns(e: Event, c: Context) { !e.Ran? && e.c == c }

  /** The plan awaiting confirmation in a context. */
  function Waiting(log: seq<Event>, c: Context): Option<Plan>
  {
    if log == [] then None else
    var e := log[|log| - 1];
    if !Concerns(e, c) then Waiting(log[..|log| - 1], c) else if e.Queued? then Some(e.plan) else None
  }

  /** Risky plans run only right after being taken, and only waiting plans are taken. */
  ghost predicate Disciplined(log: seq<Event>)
  {
    forall i :: 0 <= i < |log| ==> Justified(log, i)
  }

  ghost predicate Justified(log: seq<Event>, i: nat)
    requires i < |log|
  {
    match log[i]
    case Queued(_, p) => FixedSize(p) && Validate(p) == OK
    case Taken(c, p) => Waiting(log[..i], c) == Some(p)
    case Ran(p, confirmed) =>
      FixedSize(p) && Validate(p) == OK
      && if confirmed then i > 0 && log[i - 1].Taken? && log[i - 1].plan == p else !HasRisky(p)
  }

  lemma Extends(log: seq<Event>, e: Event)
    requires Disciplined(log) && Justified(log + [e], |log|)
    ensures Disciplined(log + [e])
  {
    var log' := log + [e];
    forall i | 0 <= i < |log'| ensures Justified(log', i) {
      if i < |log| {
        assert Justified(log, i);
        assert log'[..i] == log[..i];
      }
    }
  }

  lemma WaitingAfter(log: seq<Event>, e: Event, c: Context)
    ensures Waiting(log + [e], c) ==
              if !Concerns(e, c) then Waiting(log, c) else if e.Queued? then Some(e.plan) else None
  {
    assert (log + [e])[..|log|] == log;
  }

  /** Where a confirmed run came from: its plan was queued at `q`, nothing else happened to that
      context's pending plan, and it was taken from there just before the run. */
  predicate From(log: seq<Event>, q: nat, i: nat)
    requires i < |log|
  {
    && q + 1 < i && log[i].Ran? && log[i].confirmed && log[i - 1].Taken?
    && log[i - 1].plan == log[i].plan && log[q] == Queued(log[i - 1].c, log[i].plan)
    && forall k :: q < k < i - 1 ==> !Concerns(log[k], log[i - 1].c)
  }

  /** Every confirmed run goes back to a queueing. */
  lemma ConfirmedRunsWereQueued(log: seq<Event>, i: nat) returns (q: nat)
    requires Disciplined(log) && i < |log| && log[i].Ran? && log[i].confirmed
    ensures From(log, q, i)
  {
    hide Validate, HasRisky;
    assert Justified(log, i);
    assert Justified(log, i - 1);
    q := QueuedAt(log[..i - 1], log[i - 1].c, log[i].plan);
  }

  lemma {:induction false} QueuedAt(log: seq<Event>, c: Context, p: Plan) returns (q: nat)
    requires Waiting(log, c) == Some(p)
    ensures q < |log| && log[q] == Queued(c, p) && forall k :: q < k < |log| ==> !Concerns(log[k], c)
  {
    var n := |log| - 1;
    if Concerns(log[n], c) {
      q := n;
    } else {
      q := QueuedAt(log[..n], c, p);
    }
  }

  /** A risky plan that ran had been queued, was still the one waiting, and was taken just before. */
  lemma RiskyRunsWereQueued(log: seq<Event>, i: nat) returns (q: nat)
    requires Disciplined(log) && i < |log| && log[i].Ran? && FixedSize(log[i].plan) && HasRisky(log[i].plan)
    ensures From(log, q, i)
  {
    hide Validate, HasRisky;
    assert Justified(log, i);
    q := ConfirmedRunsWereQueued(log, i);
  }

  /** A queueing accounts for at most one confirmed run. */
  lemma QueueingsAreUsedOnce(log: seq<Event>, q: nat, i: nat, q': nat, i': nat)
    requires i < i' < |log| && From(log, q, i) && From(log, q', i')
    ensures q != q'
  {
    if q == q' { assert Concerns(log[i - 1], log[i' - 1].c); }
  }

  /** No plan from the language model ever executes a write, nor a delete without confirmation. */
  lemma ModelRunsAreTame(log: seq<Event>, i: nat)
    requires Disciplined(log) && i < |log| && log[i].Ran? && log[i].plan.planner == LLM
    ensures FixedSize(log[i].plan) && !Contains(log[i].plan, WRITE_FILE)
    ensures Contains(log[i].plan, DELETE_FILE) ==> log[i].confirmed
  {
    assert Justified(log, i);
    ModelPlansAreTame(log[i].plan);
  }

  // ----- the calls handlers receive

  /** Step `step` of the plan run at log position `run` reached its handler. */
  datatype Call = Call(run: nat, step: nat, action: Action)

  /** The calls of one run, from its first step on. */
  function Calls(run: nat, actions: seq<Action>): (cs: seq<Call>)
    ensures |cs| == |actions|
  {
    seq(|actions|, i requires 0 <= i < |actions| => Call(run, i, actions[i]))
  }

  /** The call is a step of a plan that ran. */
  predicate IsStep(log: seq<Event>, c: Call)
  {
    && c.run < |log| && log[c.run].Ran? && FixedSize(log[c.run].plan)
    && c.step < log[c.run].plan.actionCount <= MAX_ACTIONS && log[c.run].plan.actions[c.step] == c.action
  }

  /** The call is the next step of the same run, or the first step of a later one. */
  predicate Succeeds(c: Call, d: Call)
  {
    (d.run == c.run && d.step == c.step + 1) || (c.run < d.run && d.step == 0)
  }

  /** Every call is a step of a plan that ran; the runs come in order, and the steps of each from its
      first on, none skipped and none repeated. */
  ghost predicate Accounted(called: seq<Call>, log: seq<Event>)
  {
    && (forall k :: 0 <= k < |called| ==> IsStep(log, called[k]))
    && (|called| > 0 ==> called[0].step == 0)
    && forall k :: 0 < k < |called| ==> Succeeds(called[k - 1], called[k])
  }

  lemma AccountedMore(called: seq<Call>, log: seq<Event>, e: Event)
    requires Accounted(called, log)
    ensures Accounted(called, log + [e])
  {
    forall k | 0 <= k < |called| ensures IsStep(log + [e], called[k]) {
      assert IsStep(log, called[k]);
    }
  }

  lemma AccountedRun(called: seq<Call>, log: seq<Event>, p: Plan, confirmed: bool, more: seq<Action>)
    requires Accounted(called, log) && FixedSize(p) && 0 < p.actionCount <= MAX_ACTIONS && more <= p.actions[..p.actionCount]
    ensures Accounted(called + Calls(|log|, more), log + [Ran(p, confirmed)])
  {
    hide IsStep;
    var log', cs := log + [Ran(p, confirmed)], Calls(|log|, more);
    AccountedMore(called, log, Ran(p, confirmed));
    var all := called + cs;
    forall k | 0 <= k < |all| ensures IsStep(log', all[k]) {
      if k >= |called| { RunStep(log, p, confirmed, more, k - |called|); }
    }
    forall k | 0 < k < |all| ensures Succeeds(all[k - 1], all[k]) {
      if k < |called| {
        assert Succeeds(called[k - 1], called[k]);
      } else if k == |called| {
        StepIsLogged(log, called[k - 1]);
      }
    }
  }

  lemma RunStep(log: seq<Event>, p: Plan, confirmed: bool, more: seq<Action>, i: nat)
    requires FixedSize(p) && 0 < p.actionCount <= MAX_ACTIONS && more <= p.actions[..p.actionCount] && i < |more|
    ensures IsStep(log + [Ran(p, confirmed)], Calls(|log|, more)[i])
  {}

  lemma StepIsLogged(log: seq<Event>, c: Call)
    requires IsStep(log, c)
    ensures c.run < |log|
  {}

  /** No call is made twice: (run, step) strictly increases. */
  lemma {:induction false} CallsIncrease(called: seq<Call>, log: seq<Event>, j: nat, k: nat)
    requires Accounted(called, log) && j < k < |called|
    ensures called[j].run < called[k].run || (called[j].run == called[k].run && called[j].step < called[k].step)
    decreases k
  {
    assert Succeeds(called[k - 1], called[k]);
    if j < k - 1 { CallsIncrease(called, log, j, k - 1); }
  }

  /** A call with a risky action belongs to a confirmed run of a plan that was queued, stayed the one
      waiting in its context, and was taken from there just before. */
  lemma RiskyCallsWereConfirmed(called: seq<Call>, log: seq<Event>, k: nat) returns (q: nat)
    requires Disciplined(log) && Accounted(called, log) && k < |called| && called[k].action.risk == RISKY
    ensures IsStep(log, called[k]) && From(log, q, called[k].run)
  {
    hide Disciplined, From;
    assert IsStep(log, called[k]);
    q := RiskyRunsWereQueued(log, called[k].run);
  }

  /** One queueing accounts for at most one call of each action of its plan. */
  lemma QueueingsCallOnce(called: seq<Call>, log: seq<Event>, j: nat, k: nat, q: nat)
    requires Accounted(called, log) && j < k < |called| && called[k].run < |log| && called[j].run < |log|
    requires From(log, q, called[j].run) && From(log, q, called[k].run)
    ensures called[j].run == called[k].run && called[j].step < called[k].step
  {
    hide From, Accounted;
    CallsIncrease(called, log, j, k);
    if called[j].run < called[k].run { QueueingsAreUsedOnce(log, q, called[j].run, q, called[k].run); }
  }

  /** No call of a write, and none of a delete without confirmation, belongs to a plan the language
      model made. */
  lemma ModelCallsAreTame(called: seq<Call>, log: seq<Event>, k: nat)
    requires Disciplined(log) && Accounted(called, log) && k < |called|
    ensures IsStep(log, called[k])
    ensures log[called[k].run].plan.planner == LLM ==>
              called[k].action.kind != WRITE_FILE && (called[k].action.kind == DELETE_FILE ==> log[called[k].run].confirmed)
  {
    hide Disciplined;
    assert IsStep(log, called[k]);
    if log[called[k].run].plan.planner == LLM { ModelRunsAreTame(log, called[k].run); }
  }

  // ----- counting per context

  function Queues(log: seq<Event>, c: Context): nat
  {
    if log == [] then 0
    else Queues(log[..|log| - 1], c) + if log[|log| - 1].Queued? && log[|log| - 1].c == c then 1 else 0
  }

  function Takes(log: seq<Event>, c: Context): nat
  {
    if log == [] then 0
    else Takes(log[..|log| - 1], c) + if log[|log| - 1].Taken? && log[|log| - 1].c == c then 1 else 0
  }

  /** Runs right after a plan was taken from this context. */
  function RunsFrom(log: seq<Event>, c: Context): nat
  {
    if log == [] then 0
    else RunsFrom(log[..|log| - 1], c)
         + if |log| > 1 && log[|log| - 1].Ran? && log[|log| - 2].Taken? && log[|log| - 2].c == c then 1 else 0
  }

  /** Each queueing in a context allows at most one run of a plan taken from there. */
  lemma {:induction false} AtMostOncePerQueueing(log: seq<Event>, c: Context)
    requires Disciplined(log)
    ensures Takes(log, c) + (if Waiting(log, c).Some? then 1 else 0) <= Queues(log, c)
    ensures RunsFrom(log, c) <= Takes(log, c)
    ensures log != [] && log[|log| - 1].Taken? && log[|log| - 1].c == c ==> RunsFrom(log, c) < Takes(log, c)
  {
    hide Validate, HasRisky;
    if log != [] {
      var n := |log| - 1;
      var before := log[..n];
      assert Disciplined(before) by {
        forall i | 0 <= i < n ensures Justified(before, i) {
          assert Justified(log, i);
          assert before[..i] == log[..i];
        }
      }
      AtMostOncePerQueueing(before, c);
      assert Justified(log, n);
      if n > 0 { assert before[n - 1] == log[n - 1]; }
    }
  }

  // ----- the runtime

  class Context {
    var currentTask: u8
    var lastInput: seq<byte>
    var lastIntent: u8
    var lastAction: u8
    var lastResultSummary: Message
    var requestCount: u64
    var plannerMode: PlannerMode
    var recentCount: nat
    var pendingPlan: Plan
    var confirmationPending: bool

    constructor ()
      ensures currentTask == UNKNOWN && !confirmationPending && requestCount == 0 && recentCount == 0
    {
      currentTask, lastInput, lastIntent, lastAction := UNKNOWN, [], UNKNOWN, UNKNOWN;
      lastResultSummary, requestCount, plannerMode, recentCount := NoMessage, 0, Deterministic, 0;
      pendingPlan, confirmationPending := NO_PLAN, false;
    }

    method BeginRequest(input: seq<byte>, planner: PlannerMode)
      modifies this`lastInput, this`requestCount, this`plannerMode, this`currentTask, this`recentCount
      ensures currentTask == UNKNOWN && plannerMode == planner && requestCount == (old(requestCount) + 1) % TWO64
      ensures lastInput <= input && (|lastInput| == MAX_INPUT || lastInput == input) && |lastInput| <= MAX_INPUT
      ensures recentCount == if old(recentCount) < MAX_RECENT then old(recentCount) + 1 else old(recentCount)
    {
      lastInput := if |input| > MAX_INPUT then input[..MAX_INPUT] else input;
      requestCount := (requestCount + 1) % TWO64;
      plannerMode := planner;
      currentTask := UNKNOWN;
      if recentCount < MAX_RECENT {
        recentCount := recentCount + 1;
      }
    }
  }

  function SingleAction(mode: PlannerMode, intent: u8, kind: u8, risk: u8, target: seq<byte>): (p: Plan)
    ensures FixedSize(p)
  {
    var clipped := if |target| > MAX_NAME then target[..MAX_NAME] else target;
    Plan(mode, intent, [Action(kind, risk, clipped, |clipped|, 0), NO_ACTION, NO_ACTION, NO_ACTION], 1)
  }

  /** The arguments make a proper action. */
  predicate Acceptable(mode: PlannerMode, kind: u8, risk: u8, target: seq<byte>)
  {
    ProperAction(mode, Action(kind, risk, target, Min(|target|, 16), 0))
  }

  /** The plan is one action, of this kind and risk, on the first 16 bytes of this target. */
  predicate Single(p: Plan, kind: u8, risk: u8, target: seq<byte>)
  {
    && |p.actions| == MAX_ACTIONS && p.actionCount == 1 && p.actions[0].kind == kind && p.actions[0].risk == risk
    && p.actions[0].target == target[..Min(|target|, 16)] && p.actions[0].targetLen == Min(|target|, 16) && p.actions[0].dataLen == 0
  }

  lemma SingleIs(mode: PlannerMode, intent: u8, kind: u8, risk: u8, target: seq<byte>)
    ensures var p := SingleAction(mode, intent, kind, risk, target);
            && Single(p, kind, risk, target) && (Validate(p) == OK <==> Acceptable(mode, kind, risk, target))
            && (HasRisky(p) <==> risk == RISKY) && LastKind(p) == kind && p.intent == intent
  {
    hide Validate;
    var p := SingleAction(mode, intent, kind, risk, target);
    ValidIs(p);
    assert p.actions[0].risk == risk;
    if 0 <= p.actionCount { assert Acceptable(mode, kind, risk, target) <==> ProperAction(mode, p.actions[0]); }
  }

  /** The kind of a plan's last action. */
  function LastKind(p: Plan): u8
    requires FixedSize(p)
  {
    if p.actionCount <= 0 then UNKNOWN
    else if p.actionCount > MAX_ACTIONS then p.actions[MAX_ACTIONS - 1].kind
    else p.actions[p.actionCount - 1].kind
  }

  /** What a handler may write into the context it is given: anything but the pending plan. */
  datatype Notes = Notes(currentTask: u8, lastInput: seq<byte>, lastIntent: u8, lastAction: u8, lastResultSummary: Message,
                         requestCount: u64, recentCount: nat, plannerMode: PlannerMode)

  /** What a handler will do: its result, the planner mode it asks the runtime for, if any, and what it
      writes into the context, if anything. */
  datatype Outcome = Outcome(result: ActionResult, mode: Option<PlannerMode>, notes: Option<Notes>)

  const DONE := Outcome(ActionResult(true, OK), None, None)

  /** A result, the outcomes still to come, and the actions that reached a handler. */
  datatype Answer = Answer(result: ActionResult, rest: seq<Outcome>, called: seq<Action>)

  function AnswerTo(a: Action, handlers: set<u8>, outcomes: seq<Outcome>): Answer
  {
    if !ValidKind(a.kind) then Answer(ActionResult(false, UnsupportedAction), outcomes, [])
    else if a.kind !in handlers then Answer(ActionResult(false, ActionUnavailable), outcomes, [])
    else if outcomes == [] then Answer(DONE.result, outcomes, [a])
    else Answer(outcomes[0].result, outcomes[1..], [a])
  }

  /** The outcome of executing a plan from action `i` on: the first failure, the one result of a
      single action, or completion. */
  function AnswerFrom(p: Plan, i: nat, handlers: set<u8>, outcomes: seq<Outcome>): Answer
    requires FixedSize(p) && p.actionCount <= MAX_ACTIONS
    decreases p.actionCount - i
  {
    if i >= p.actionCount then Answer(ActionResult(true, CompletedPlan), outcomes, []) else
    var a := AnswerTo(p.actions[i], handlers, outcomes);
    if !a.result.ok || p.actionCount == 1 then a else
    var rest := AnswerFrom(p, i + 1, handlers, a.rest);
    rest.(called := a.called + rest.called)
  }

  /** The handlers see the plan's actions in order, from the first on, with none left out. */
  lemma {:induction false} CalledInOrder(p: Plan, i: nat, handlers: set<u8>, outcomes: seq<Outcome>)
    requires FixedSize(p) && i <= p.actionCount <= MAX_ACTIONS
    ensures AnswerFrom(p, i, handlers, outcomes).called <= p.actions[i..p.actionCount]
    decreases p.actionCount - i
  {
    if i < p.actionCount {
      var a := AnswerTo(p.actions[i], handlers, outcomes);
      CalledInOrder(p, i + 1, handlers, a.rest);
      assert p.actions[i..p.actionCount] == [p.actions[i]] + p.actions[i + 1..p.actionCount];
    }
  }

  /** What the handler called `k`-th will answer. */
  function ResultAt(outcomes: seq<Outcome>, k: nat): ActionResult
  {
    if k < |outcomes| then outcomes[k].result else ActionResult(true, OK)
  }

  /** The action has a handler. */
  predicate Handled(a: Action, handlers: set<u8>) { 1 <= a.kind <= 11 && a.kind in handlers }

  /** The actions from `i` to below `k` have handlers, which succeed. */
  predicate Smooth(p: Plan, i: nat, k: nat, handlers: set<u8>, outcomes: seq<Outcome>)
    requires FixedSize(p) && i <= k <= MAX_ACTIONS
  {
    forall j :: i <= j < k ==> Answers(p.actions[j], handlers, ResultAt(outcomes, j - i))
  }

  predicate Answers(a: Action, handlers: set<u8>, result: ActionResult) { Handled(a, handlers) && result.ok }

  /** The outcomes after the first `n`. */
  function Later(outcomes: seq<Outcome>, n: nat): seq<Outcome> { outcomes[Min(n, |outcomes|)..] }

  lemma LaterStep(outcomes: seq<Outcome>, n: nat)
    ensures Later(Later(outcomes, 1), n) == Later(outcomes, n + 1) && Later(outcomes, 0) == outcomes
    ensures ResultAt(Later(outcomes, 1), n) == ResultAt(outcomes, n + 1)
  {}

  lemma SmoothStep(p: Plan, i: nat, k: nat, handlers: set<u8>, outcomes: seq<Outcome>)
    requires FixedSize(p) && i < k <= MAX_ACTIONS && Smooth(p, i, k, handlers, outcomes)
    ensures Handled(p.actions[i], handlers) && ResultAt(outcomes, 0).ok && Smooth(p, i + 1, k, handlers, Later(outcomes, 1))
  {
    hide Handled, ResultAt, Later;
    var head := p.actions[i];
    forall j | i + 1 <= j < k ensures Answers(p.actions[j], handlers, ResultAt(Later(outcomes, 1), j - (i + 1))) {
      LaterStep(outcomes, j - (i + 1));
    }
  }

  lemma OneMore(p: Plan, i: nat, handlers: set<u8>, outcomes: seq<Outcome>)
    requires FixedSize(p) && i < p.actionCount <= MAX_ACTIONS && p.actionCount > 1
    requires Handled(p.actions[i], handlers) && ResultAt(outcomes, 0).ok
    ensures var rest := AnswerFrom(p, i + 1, handlers, Later(outcomes, 1));
            AnswerFrom(p, i, handlers, outcomes) == rest.(called := [p.actions[i]] + rest.called)
  {
    assert outcomes == [] ==> Later(outcomes, 1) == outcomes;
  }

  lemma {:induction false} GoesOn(p: Plan, i: nat, k: nat, handlers: set<u8>, outcomes: seq<Outcome>)
    requires FixedSize(p) && 1 < p.actionCount <= MAX_ACTIONS && i <= k <= p.actionCount && Smooth(p, i, k, handlers, outcomes)
    ensures var rest := AnswerFrom(p, k, handlers, Later(outcomes, k - i));
            AnswerFrom(p, i, handlers, outcomes) == rest.(called := p.actions[i..k] + rest.called)
    decreases k - i
  {
    hide AnswerFrom, Later, Handled, ResultAt, Smooth;
    LaterStep(outcomes, 0);
    if i == k {
      assert p.actions[i..k] == [];
    } else {
      SmoothStep(p, i, k, handlers, outcomes);
      OneMore(p, i, handlers, outcomes);
      GoesOn(p, i + 1, k, handlers, Later(outcomes, 1));
      LaterStep(outcomes, k - (i + 1));
      assert p.actions[i..k] == [p.actions[i]] + p.actions[i + 1..k];
    }
  }

  /** A plan whose actions all have handlers that succeed goes through, action by action; the answer is that of the one
      handler, or that the plan is complete. */
  lemma GoesThrough(p: Plan, handlers: set<u8>, outcomes: seq<Outcome>)
    requires FixedSize(p) && 0 < p.actionCount <= MAX_ACTIONS && Smooth(p, 0, p.actionCount, handlers, outcomes)
    ensures var answer := AnswerFrom(p, 0, handlers, outcomes);
            && answer.called == p.actions[..p.actionCount]
            && answer.result == if p.actionCount == 1 then ResultAt(outcomes, 0) else ActionResult(true, CompletedPlan)
  {
    if p.actionCount > 1 {
      GoesOn(p, 0, p.actionCount, handlers, outcomes);
      assert p.actions[0..p.actionCount] + [] == p.actions[..p.actionCount];
    } else {
      SmoothStep(p, 0, 1, handlers, outcomes);
    }
  }

  lemma LaterResult(outcomes: seq<Outcome>, k: nat)
    ensures ResultAt(Later(outcomes, k), 0) == ResultAt(outcomes, k)
  {}

  /** An action without a handler, or whose handler fails, ends the plan. */
  lemma FailsAt(p: Plan, k: nat, handlers: set<u8>, outcomes: seq<Outcome>)
    requires FixedSize(p) && k < p.actionCount <= MAX_ACTIONS
    requires Handled(p.actions[k], handlers) ==> !ResultAt(outcomes, 0).ok
    ensures var answer := AnswerFrom(p, k, handlers, outcomes);
            && answer.called == (if Handled(p.actions[k], handlers) then [p.actions[k]] else []) && !answer.result.ok
            && if Handled(p.actions[k], handlers) then answer.result == ResultAt(outcomes, 0)
               else answer.result.message == UnsupportedAction || answer.result.message == ActionUnavailable
  {}

  /** The first action without a handler, or whose handler fails, ends the plan with its result; no later one is
      reached. */
  lemma StopsAt(p: Plan, k: nat, handlers: set<u8>, outcomes: seq<Outcome>)
    requires FixedSize(p) && k < p.actionCount <= MAX_ACTIONS && Smooth(p, 0, k, handlers, outcomes)
    requires Handled(p.actions[k], handlers) ==> !ResultAt(outcomes, k).ok
    ensures var answer := AnswerFrom(p, 0, handlers, outcomes);
            && answer.called == p.actions[..if Handled(p.actions[k], handlers) then k + 1 else k] && !answer.result.ok
            && if Handled(p.actions[k], handlers) then answer.result == ResultAt(outcomes, k)
               else answer.result.message == UnsupportedAction || answer.result.message == ActionUnavailable
  {
    hide AnswerFrom, Later, Handled, ResultAt, Smooth;
    LaterStep(outcomes, 0);
    LaterResult(outcomes, k);
    FailsAt(p, k, handlers, Later(outcomes, k));
    if p.actionCount > 1 { GoesOn(p, 0, k, handlers, outcomes); }
    assert p.actions[..k + 1] == p.actions[0..k] + [p.actions[k]] && p.actions[..k] == p.actions[0..k] + [];
  }

  /** Where the pending plan of a context is the one the log says is waiting, and is valid. */
  ghost predicate InStep(c: Context, log: seq<Event>)
    reads c`confirmationPending, c`pendingPlan
  {
    && Waiting(log, c) == (if c.confirmationPending then Some(c.pendingPlan) else None)
    && (c.confirmationPending ==> FixedSize(c.pendingPlan) && Validate(c.pendingPlan) == OK)
  }

  function Of(c: Context?): set<Context> { if c == null then {} else {c} }

  class Runtime {
    var executorConfigured: bool
    var handlers: set<u8>
    var outcomes: seq<Outcome>  // what the handlers will do, in order
    var plannerMode: PlannerMode
    var llmConfigured: bool
    ghost var contexts: set<Context>  // every context there is
    ghost var log: seq<Event>
    ghost var called: seq<Call>

    /** The model planner is selected only while it is configured, an unsupported mode never. */
    ghost predicate Configured()
      reads this`plannerMode, this`llmConfigured
    {
      (plannerMode == LLM ==> llmConfigured) && plannerMode != OtherMode
    }

    /** The history is disciplined, accounts for every call, and agrees with every context. */
    ghost predicate Logged()
      reads this, contexts
    {
      && Configured() && Disciplined(log) && Accounted(called, log)
      && (forall e :: e in log && !e.Ran? ==> e.c in contexts)
      && forall c :: c in contexts ==> InStep(c, log)
    }

    /** In every context a current task means a pending plan. */
    ghost predicate Idle(except: Context?)
      reads this`contexts, contexts
    {
      forall c :: c in contexts && c != except ==> c.currentTask != UNKNOWN ==> c.confirmationPending
    }

    ghost predicate Valid()
      reads this, contexts
    {
      Logged() && Idle(null)
    }

    constructor (configured: bool, kinds: set<u8>, script: seq<Outcome>)
      ensures Valid() && contexts == {} && log == [] && called == []
    {
      executorConfigured, handlers, outcomes := configured, kinds, script;
      plannerMode, llmConfigured, contexts, log, called := Deterministic, false, {}, [], [];
    }

    /** Any number of contexts can come into being. */
    method NewContext() returns (c: Context)
      requires Valid()
      modifies this`contexts
      ensures Valid() && fresh(c) && contexts == old(contexts) + {c} && !c.confirmationPending
    {
      hide Disciplined, Accounted;
      c := new Context();
      NeverSeen(log, c);
      contexts := contexts + {c};
    }

    method SetPlannerMode(mode: PlannerMode) returns (ok: bool)
      requires Configured()
      modifies this`plannerMode
      ensures Configured() && (old(Valid()) ==> Valid()) && (ok <==> mode == Deterministic || (mode == LLM && llmConfigured))
      ensures plannerMode == if ok then mode else old(plannerMode)
    {
      match mode
      case Deterministic =>
        plannerMode := Deterministic;
        return true;
      case LLM =>
        if !llmConfigured { return false; }
        plannerMode := LLM;
        return true;
      case OtherMode => return false;
    }

    method ConfigureLLMPlanner(available: bool)
      requires Configured()
      modifies this`plannerMode, this`llmConfigured
      ensures Configured() && (old(Valid()) ==> Valid()) && llmConfigured == available
      ensures plannerMode == if available then old(plannerMode) else Deterministic
    {
      llmConfigured := available;
      if !available && plannerMode == LLM {
        plannerMode := Deterministic;
      }
    }

    /** Known kinds go to their handler; everything else fails closed. A handler may switch the
        planner and write into the context; it leaves the pending fields alone. */
    method Execute(a: Action, c: Context?, ghost run: nat, ghost step: nat) returns (r: ActionResult)
      requires Configured()
      modifies this`outcomes, this`called, this`plannerMode
      modifies Of(c)`currentTask, Of(c)`lastInput, Of(c)`lastIntent, Of(c)`lastAction, Of(c)`lastResultSummary,
               Of(c)`requestCount, Of(c)`recentCount, Of(c)`plannerMode
      ensures Configured()
      ensures var answer := AnswerTo(a, handlers, old(outcomes));
              r == answer.result && outcomes == answer.rest
              && called == if answer.called == [] then old(called) else old(called) + [Call(run, step, a)]
      ensures Handled(a, handlers) ==> r == ResultAt(old(outcomes), 0) && called == old(called) + [Call(run, step, a)]
      ensures !Handled(a, handlers) ==> !r.ok && called == old(called) && outcomes == old(outcomes)
    {
      if !ValidKind(a.kind) { return ActionResult(false, UnsupportedAction); }
      if a.kind !in handlers { return ActionResult(false, ActionUnavailable); }
      called := called + [Call(run, step, a)];
      if outcomes == [] { return DONE.result; }
      var outcome := outcomes[0];
      outcomes := outcomes[1..];
      if outcome.notes.Some? && c != null {
        var notes := outcome.notes.value;
        c.currentTask, c.lastInput, c.lastIntent, c.lastAction := notes.currentTask, notes.lastInput, notes.lastIntent, notes.lastAction;
        c.lastResultSummary, c.requestCount := notes.lastResultSummary, notes.requestCount;
        c.recentCount, c.plannerMode := notes.recentCount, notes.plannerMode;
      }
      if outcome.mode.Some? {
        var ok := SetPlannerMode(outcome.mode.value);
        if ok && c != null {
          c.plannerMode := plannerMode;
        }
      }
      return outcome.result;
    }

    method Finish(r: Response, c: Context?, plan: Plan)
      requires FixedSize(plan)
      modifies Of(c)`lastIntent, Of(c)`lastAction, Of(c)`lastResultSummary, Of(c)`plannerMode, Of(c)`currentTask
      ensures c != null ==>
                && c.currentTask == (if r.safety == ConfirmationRequired then old(c.currentTask) else UNKNOWN)
                && c.lastIntent == plan.intent && c.lastAction == LastKind(plan) && c.lastResultSummary == r.result.message
                && c.plannerMode == if LastKind(plan) == SET_MODE then old(c.plannerMode) else plan.planner
      ensures c != null && 1 <= plan.actionCount <= MAX_ACTIONS ==> c.lastAction == plan.actions[plan.actionCount - 1].kind
    {
      if c == null { return; }
      c.lastIntent := plan.intent;
      c.lastAction := UNKNOWN;
      if plan.actionCount > 0 {
        var i := if plan.actionCount > MAX_ACTIONS then MAX_ACTIONS - 1 else plan.actionCount - 1;
        c.lastAction := plan.actions[i].kind;
      }
      c.lastResultSummary := r.result.message;
      if c.lastAction != SET_MODE {
        c.plannerMode := plan.planner;
      }
      if r.safety != ConfirmationRequired {
        c.currentTask := UNKNOWN;
      }
    }

    /** The gate: risky plans wait for confirmation, in the context if there is one. */
    method EvaluateSafety(plan: Plan, c: Context?, confirmed: bool) returns (s: Safety)
      requires FixedSize(plan) && 0 <= plan.actionCount <= MAX_ACTIONS
      modifies this`log, Of(c)`pendingPlan, Of(c)`confirmationPending
      ensures s == if HasRisky(plan) && !confirmed then ConfirmationRequired else Allowed
      ensures if s == ConfirmationRequired && c != null
              then c.pendingPlan == plan && c.confirmationPending && log == old(log) + [Queued(c, plan)]
              else log == old(log)
                   && (c != null ==> c.pendingPlan == old(c.pendingPlan) && c.confirmationPending == old(c.confirmationPending))
    {
      for i := 0 to plan.actionCount
        invariant forall k :: 0 <= k < i ==> plan.actions[k].risk != RISKY
        invariant c != null ==> c.pendingPlan == old(c.pendingPlan) && c.confirmationPending == old(c.confirmationPending)
        invariant log == old(log)
      {
        if plan.actions[i].risk == RISKY {
          assert HasRisky(plan);
          if confirmed { return Allowed; }
          if c != null {
            c.pendingPlan := plan;
            c.confirmationPending := true;
            log := log + [Queued(c, plan)];
          }
          return ConfirmationRequired;
        }
      }
      return Allowed;
    }

    /** Execute the actions in order until one fails. */
    method ExecuteAll(plan: Plan, c: Context?, ghost run: nat) returns (r: ActionResult)
      requires FixedSize(plan) && 0 < plan.actionCount <= MAX_ACTIONS && Configured()
      modifies this`outcomes, this`called, this`plannerMode
      modifies Of(c)`currentTask, Of(c)`lastInput, Of(c)`lastIntent, Of(c)`lastAction, Of(c)`lastResultSummary,
               Of(c)`requestCount, Of(c)`recentCount, Of(c)`plannerMode
      ensures Configured()
      ensures var answer := AnswerFrom(plan, 0, handlers, old(outcomes));
              r == answer.result && outcomes == answer.rest && called == old(called) + Calls(run, answer.called)
    {
      hide AnswerTo, AnswerFrom, Calls;
      r := ActionResult(false, NoResult);
      ghost var whole := AnswerFrom(plan, 0, handlers, outcomes);
      NoCalls(run, plan.actions);
      for i := 0 to plan.actionCount
        invariant Configured() && called == old(called) + Calls(run, plan.actions[..i])
        invariant i < plan.actionCount || plan.actionCount > 1 ==> Completes(whole, plan.actions[..i], AnswerFrom(plan, i, handlers, outcomes))
        invariant i == plan.actionCount == 1 ==> Ends(whole, plan.actions[..i], r, outcomes)
      {
        if c != null {
          c.currentTask := plan.actions[i].kind;
        }
        ghost var answer := AnswerTo(plan.actions[i], handlers, outcomes);
        ReachesHandler(plan.actions[i], handlers, outcomes);
        Advance(whole, plan, i, handlers, outcomes);
        OneCallMore(run, plan.actions, i, answer.called);
        r := Execute(plan.actions[i], c, run, i);
        if !r.ok { return; }
      }
      if plan.actionCount > 1 {
        Completed(whole, plan, handlers, outcomes);
        r := ActionResult(true, CompletedPlan);
      }
    }

    /** What one trip through the pipeline adds to the log. */
    ghost function LogAfter(plan: Plan, confirmed: bool, c: Context?): seq<Event>
      reads this
      requires FixedSize(plan)
    {
      if Validate(plan) != OK then log
      else if HasRisky(plan) && !confirmed then (if c != null then log + [Queued(c, plan)] else log)
      else if !executorConfigured then log
      else log + [Ran(plan, confirmed)]
    }

    /** What one trip through the pipeline hands to handlers: nothing, unless the plan runs. */
    ghost function CalledAfter(plan: Plan, confirmed: bool, run: nat): seq<Call>
      reads this
      requires FixedSize(plan)
    {
      if Validate(plan) != OK || (HasRisky(plan) && !confirmed) || !executorConfigured then called
      else
        ValidCount(plan);
        called + Calls(run, AnswerFrom(plan, 0, handlers, outcomes).called)
    }

    method RunPlan(plan: Plan, c: Context?, confirmed: bool) returns (r: Response)
      requires Logged() && Idle(c) && FixedSize(plan) && (c != null ==> c in contexts)
      requires confirmed ==> c != null && log != [] && log[|log| - 1] == Taken(c, plan)
      modifies this`log, this`outcomes, this`called, this`plannerMode, Of(c)
      ensures Valid() && log == old(LogAfter(plan, confirmed, c)) && called == old(CalledAfter(plan, confirmed, |log|))
      ensures |r.trace| < MAX_TRACE
      ensures Validate(plan) != OK ==> !r.result.ok && r.safety == Rejected
      ensures Validate(plan) == OK ==> r.safety == if HasRisky(plan) && !confirmed then ConfirmationRequired else Allowed
      ensures c != null && c.confirmationPending ==> old(c.confirmationPending) || (HasRisky(plan) && !confirmed)
      ensures plan.actionCount <= MAX_ACTIONS && r.safety == Allowed && executorConfigured ==>
                r.result == AnswerFrom(plan, 0, handlers, old(outcomes)).result
      ensures Validate(plan) != OK ==> r.result.message == Validate(plan) && r.reason == ValidationFailed
      ensures Explained(r, executorConfigured) && r.trace == Trail(plan, Validate(plan) == OK, r.safety, executorConfigured, r.result.ok)
      ensures r.safety == ConfirmationRequired && c != null ==> c.confirmationPending && c.pendingPlan == plan
      ensures c != null ==> Noted(c, plan, r)
    {
      hide Validate, Disciplined, HasRisky, AnswerFrom, LastKind, Accounted, InStep, Calls, Configured, GateTrail;
      r := AddTrace(NO_RESPONSE, PlannerStage, Mode(if plan.planner == LLM then LLM else Deterministic));
      r := AddTrace(r, IntentStage, Intent(if ValidKind(plan.intent) then plan.intent else UNKNOWN));
      var validation := Validate(plan);
      if validation != OK {
        r := r.(result := ActionResult(false, validation), safety := Rejected, reason := ValidationFailed);
        r := AddTrace(r, ValidationStage, Failed);
        Finish(r, c, plan);
        return;
      }
      r := AddTrace(r, ValidationStage, Passed);
      ValidCount(plan);
      r := RunValid(plan, c, confirmed, r);
    }

    /** The stages after validation. */
    method RunValid(plan: Plan, c: Context?, confirmed: bool, r0: Response) returns (r: Response)
      requires Logged() && Idle(c) && FixedSize(plan) && Validate(plan) == OK && 0 < plan.actionCount <= MAX_ACTIONS
      requires (c != null ==> c in contexts) && |r0.trace| <= 3
      requires confirmed ==> c != null && log != [] && log[|log| - 1] == Taken(c, plan)
      modifies this`log, this`outcomes, this`called, this`plannerMode, Of(c)
      ensures Valid() && log == old(LogAfter(plan, confirmed, c)) && called == old(CalledAfter(plan, confirmed, |log|))
      ensures |r.trace| < MAX_TRACE && r.safety == if HasRisky(plan) && !confirmed then ConfirmationRequired else Allowed
      ensures c != null && c.confirmationPending ==> old(c.confirmationPending) || (HasRisky(plan) && !confirmed)
      ensures r.safety == Allowed && executorConfigured ==> r.result == AnswerFrom(plan, 0, handlers, old(outcomes)).result
      ensures Explained(r, executorConfigured) && r.trace == r0.trace + GateTrail(r.safety, executorConfigured, r.result.ok)
      ensures r.safety == ConfirmationRequired && c != null ==> c.confirmationPending && c.pendingPlan == plan
      ensures c != null ==> Noted(c, plan, r)
    {
      hide Validate, Disciplined, HasRisky, AnswerFrom, LastKind, Accounted, InStep, Calls;
      r := Gate(plan, c, confirmed, r0);
      if r.safety != Allowed {
        r := r.(result := ActionResult(false, NeedsConfirmation));
        Finish(r, c, plan);
        return;
      }
      if !executorConfigured {
        r := r.(result := ActionResult(false, ExecutorNotConfigured));
        r := AddTrace(r, ExecutorStage, Missing);
        Finish(r, c, plan);
        return;
      }
      r := RunExecutor(plan, c, confirmed, r);
    }

    /** The gate, and what it leaves in the response. */
    method Gate(plan: Plan, c: Context?, confirmed: bool, r0: Response) returns (r: Response)
      requires Logged() && FixedSize(plan) && Validate(plan) == OK && 0 < plan.actionCount <= MAX_ACTIONS
      requires (c != null ==> c in contexts) && |r0.trace| < MAX_TRACE
      modifies this`log, Of(c)`pendingPlan, Of(c)`confirmationPending, Of(c)`currentTask
      ensures Logged() && (c != null ==> c.currentTask == plan.actions[0].kind)
      ensures r == r0.(safety := r.safety, reason := if r.safety == Allowed then OK else NeedsConfirmation,
                       trace := r0.trace + [Trace(SafetyStage, Status(r.safety))])
      ensures r.safety == if HasRisky(plan) && !confirmed then ConfirmationRequired else Allowed
      ensures if r.safety == ConfirmationRequired && c != null
              then c.pendingPlan == plan && c.confirmationPending && log == old(log) + [Queued(c, plan)]
              else log == old(log) && (c != null ==> c.pendingPlan == old(c.pendingPlan) && c.confirmationPending == old(c.confirmationPending))
    {
      hide Validate, Disciplined, HasRisky, Accounted, InStep;
      if c != null {
        c.currentTask := plan.actions[0].kind;
      }
      var safety := EvaluateSafety(plan, c, confirmed);
      r := r0.(safety := safety, reason := if safety == Allowed then OK else NeedsConfirmation);
      r := AddTrace(r, SafetyStage, Status(safety));
      if safety != Allowed && c != null {
        Queueing(old(log), c, plan);
        OneEventMore(old(log), c, Queued(c, plan));
      }
    }

    /** One more event about one context keeps the history: that context agrees with it, and the
        others are as they were. */
    lemma OneEventMore(before: seq<Event>, c: Context, e: Event)
      requires c in contexts && Concerns(e, c) && log == before + [e] && Disciplined(log) && Accounted(called, before) && Configured()
      requires forall x :: x in before && !x.Ran? ==> x.c in contexts
      requires forall d :: d in contexts && d != c ==> InStep(d, before)
      requires if e.Queued? then c.confirmationPending && c.pendingPlan == e.plan && FixedSize(e.plan) && Validate(e.plan) == OK
               else !c.confirmationPending
      ensures Logged()
    {
      hide Validate, Disciplined, Waiting, Accounted;
      AccountedMore(called, before, e);
      forall d | d in contexts ensures InStep(d, log) {
        assert d != c ==> InStep(d, before);
        WaitingAfter(before, e, d);
      }
    }

    /** The stages after the gate. */
    method RunExecutor(plan: Plan, c: Context?, confirmed: bool, r0: Response) returns (r: Response)
      requires Logged() && Idle(c) && FixedSize(plan) && Validate(plan) == OK && 0 < plan.actionCount <= MAX_ACTIONS
      requires (c != null ==> c in contexts) && r0.safety == Allowed && |r0.trace| <= 4
      requires if confirmed then log != [] && log[|log| - 1].Taken? && log[|log| - 1].plan == plan else !HasRisky(plan)
      modifies this`log, this`outcomes, this`called, this`plannerMode, Of(c)
      ensures Valid() && log == old(log) + [Ran(plan, confirmed)]
      ensures |r.trace| < MAX_TRACE && r.safety == Allowed && r.result == AnswerFrom(plan, 0, handlers, old(outcomes)).result
      ensures called == old(called) + Calls(|old(log)|, AnswerFrom(plan, 0, handlers, old(outcomes)).called)
      ensures c != null ==> c.confirmationPending == old(c.confirmationPending)
      ensures r.reason == r0.reason && (c != null ==> Noted(c, plan, r))
      ensures r.trace == r0.trace + if r.result.ok then [Trace(ExecutorStage, Success), Trace(FormatterStage, Structured)]
                                    else [Trace(ExecutorStage, Failed)]
    {
      hide Validate, Disciplined, HasRisky, AnswerFrom, Accounted, InStep, LastKind, Calls;
      Running(old(log), plan, confirmed);
      CalledInOrder(plan, 0, handlers, outcomes);
      assert plan.actions[0..plan.actionCount] == plan.actions[..plan.actionCount];
      AccountedRun(called, log, plan, confirmed, AnswerFrom(plan, 0, handlers, outcomes).called);
      forall d | d in contexts ensures InStep(d, log + [Ran(plan, confirmed)]) { StaysInStep(d, log, plan, confirmed); }
      log := log + [Ran(plan, confirmed)];
      var result := ExecuteAll(plan, c, |old(log)|);
      r := r0.(result := result);
      if !result.ok {
        r := AddTrace(r, ExecutorStage, Failed);
      } else {
        r := AddTrace(AddTrace(r, ExecutorStage, Success), FormatterStage, Structured);
      }
      Finish(r, c, plan);
    }

    method ConfirmAction(confirmed: bool, c: Context?) returns (r: Response)
      requires Valid() && (c != null ==> c in contexts)
      modifies this`log, this`outcomes, this`called, this`plannerMode, Of(c)
      ensures Valid() && |r.trace| < MAX_TRACE
      ensures c == null || !old(c.confirmationPending) ==> log == old(log) && r.safety == Rejected && called == old(called)
      ensures c != null && old(c.confirmationPending) ==>
                && !c.confirmationPending
                && log == old(log) + [Taken(c, old(c.pendingPlan))]
                          + (if confirmed && executorConfigured then [Ran(old(c.pendingPlan), true)] else [])
                && called == if confirmed then old(CalledAfter(c.pendingPlan, true, |log| + 1)) else old(called)
      ensures c == null || !old(c.confirmationPending) || !confirmed ==> r.result == ActionResult(false, Cancelled) && r.safety == Rejected
      ensures c != null && old(c.confirmationPending) && confirmed ==> r.safety == Allowed && (!executorConfigured ==> !r.result.ok)
    {
      hide Validate, Disciplined, Accounted, AnswerFrom, InStep, LastKind, Calls, HasRisky;
      if c == null || !c.confirmationPending {
        return NO_RESPONSE.(result := ActionResult(false, Cancelled), reason := Cancelled);
      }
      PendingIsWaiting(c, log);
      var plan := c.pendingPlan;
      c.pendingPlan := NO_PLAN;
      c.confirmationPending := false;
      Taking(log, c, plan);
      log := log + [Taken(c, plan)];
      OneEventMore(old(log), c, Taken(c, plan));
      if !confirmed {
        r := NO_RESPONSE.(result := ActionResult(false, Cancelled), reason := Cancelled);
        r := AddTrace(r, SafetyStage, Status(Rejected));
        Finish(r, c, plan);
        return;
      }
      r := RunPlan(plan, c, true);
    }

    method RunAction(kind: u8, intent: u8, risk: u8, target: seq<byte>, input: seq<byte>, c: Context?) returns (r: Response)
      requires Valid() && (c != null ==> c in contexts)
      modifies this`log, this`outcomes, this`called, this`plannerMode, Of(c)
      ensures Valid() && |r.trace| < MAX_TRACE
      ensures var plan := SingleAction(old(plannerMode), intent, kind, risk, target);
              log == old(LogAfter(plan, false, c)) && called == old(CalledAfter(plan, false, |log|))
      ensures c != null ==> c.lastAction == kind && c.lastIntent == intent && c.lastResultSummary == r.result.message
      ensures !Acceptable(old(plannerMode), kind, risk, target) ==>
                !r.result.ok && r.safety == Rejected && called == old(called) && log == old(log)
      ensures Acceptable(old(plannerMode), kind, risk, target) && risk == RISKY ==>
                && !r.result.ok && r.safety == ConfirmationRequired && called == old(called)
                && (c != null ==> c.confirmationPending && Single(c.pendingPlan, kind, risk, target))
      ensures Acceptable(old(plannerMode), kind, risk, target) && risk == SAFE ==>
                && r.safety == Allowed
                && if executorConfigured && kind in handlers
                   then CalledOnce(old(called), called, |old(log)|, kind, risk, target) && r.result == ResultAt(old(outcomes), 0)
                   else !r.result.ok && called == old(called)
    {
      hide Validate, Disciplined, Accounted, AnswerFrom, InStep, LastKind, Calls, Acceptable, Single, SingleAction, HasRisky;
      if c != null {
        c.BeginRequest(input, plannerMode);
      }
      ghost var plan := SingleAction(plannerMode, intent, kind, risk, target);
      SingleIs(plannerMode, intent, kind, risk, target);
      if Validate(plan) == OK && !HasRisky(plan) { SingleCall(plan, |log|, kind, risk, target, handlers, outcomes); }
      r := RunPlan(SingleAction(plannerMode, intent, kind, risk, target), c, false);
    }

    /** A request in words; `planning` is what the selected planner made of it. */
    method Run(input: seq<byte>, planning: Option<Plan>, c: Context?) returns (r: Response)
      requires Valid() && (c != null ==> c in contexts) && (planning.Some? ==> FixedSize(planning.value))
      modifies this`log, this`outcomes, this`called, this`plannerMode, Of(c)
      ensures Valid() && |r.trace| < MAX_TRACE
      ensures planning.None? ==> log == old(log) && called == old(called) && !r.result.ok && r.safety == Rejected
      ensures planning.Some? ==>
                log == old(LogAfter(planning.value, false, c)) && called == old(CalledAfter(planning.value, false, |log|))
      ensures planning.Some? && Validate(planning.value) != OK ==> r.safety == Rejected && r.result == ActionResult(false, Validate(planning.value))
      ensures planning.Some? && Validate(planning.value) == OK ==> r.safety == if HasRisky(planning.value) then ConfirmationRequired else Allowed
      ensures r.safety == ConfirmationRequired && c != null ==> planning.Some? && c.confirmationPending && c.pendingPlan == planning.value
    {
      hide Validate, Disciplined, Accounted, AnswerFrom, InStep, LastKind, Calls;
      if c != null {
        c.BeginRequest(input, plannerMode);
      }
      if planning.None? {
        r := NO_RESPONSE.(result := ActionResult(false, PlannerFailed), reason := PlannerFailed);
        r := AddTrace(r, PlannerStage, Failed);
        if c != null {
          c.currentTask, c.lastIntent, c.lastAction := UNKNOWN, UNKNOWN, UNKNOWN;
          c.lastResultSummary := PlannerFailed;
        }
        return;
      }
      r := RunPlan(planning.value, c, false);
    }
  }

  /** Exactly one call more: of one action, of this kind and risk, on the first 16 bytes of this target. */
  predicate CalledOnce(before: seq<Call>, now: seq<Call>, run: nat, kind: u8, risk: u8, target: seq<byte>)
  {
    && |now| == |before| + 1 && before <= now && now[|before|].run == run && now[|before|].step == 0
    && now[|before|].action == Action(kind, risk, target[..Min(|target|, 16)], Min(|target|, 16), 0)
  }

  /** What a plan of one action hands to handlers. */
  lemma SingleCall(p: Plan, run: nat, kind: u8, risk: u8, target: seq<byte>, handlers: set<u8>, outcomes: seq<Outcome>)
    requires FixedSize(p) && Validate(p) == OK && Single(p, kind, risk, target)
    ensures p.actionCount == 1
    ensures var answer := AnswerFrom(p, 0, handlers, outcomes);
            if kind in handlers
            then answer.result == ResultAt(outcomes, 0)
                 && forall before :: CalledOnce(before, before + Calls(run, answer.called), run, kind, risk, target)
            else !answer.result.ok && answer.called == [] && Calls(run, []) == []
  {
    hide Validate, CheckFrom;
    ValidIs(p);
    assert ProperAction(p.planner, p.actions[0]);
  }

  /** What a context remembers of a plan once it is dealt with. */
  ghost predicate Noted(c: Context, plan: Plan, r: Response)
    reads c
    requires FixedSize(plan)
  {
    && c.lastIntent == plan.intent && c.lastAction == LastKind(plan) && c.lastResultSummary == r.result.message
    && c.currentTask == if r.safety == ConfirmationRequired then plan.actions[0].kind else UNKNOWN
  }

  /** A run changes nothing for a context. */
  lemma StaysInStep(c: Context, log: seq<Event>, p: Plan, confirmed: bool)
    requires InStep(c, log)
    ensures InStep(c, log + [Ran(p, confirmed)])
  {
    hide Validate, Waiting;
    WaitingAfter(log, Ran(p, confirmed), c);
  }

  lemma PendingIsWaiting(c: Context, log: seq<Event>)
    requires InStep(c, log) && c.confirmationPending
    ensures Waiting(log, c) == Some(c.pendingPlan) && FixedSize(c.pendingPlan) && Validate(c.pendingPlan) == OK
  {}

  lemma ValidCount(p: Plan)
    requires FixedSize(p) && Validate(p) == OK
    ensures 0 < p.actionCount <= MAX_ACTIONS
  {}

  /** What is done and what is still to come make up the whole. */
  ghost predicate Completes(whole: Answer, done: seq<Action>, rest: Answer)
  {
    whole.result == rest.result && whole.rest == rest.rest && whole.called == done + rest.called
  }

  ghost predicate Ends(whole: Answer, done: seq<Action>, result: ActionResult, rest: seq<Outcome>)
  {
    whole.result == result && whole.rest == rest && whole.called == done
  }

  /** One action more. */
  lemma Advance(whole: Answer, p: Plan, i: nat, handlers: set<u8>, outcomes: seq<Outcome>)
    requires FixedSize(p) && i < p.actionCount <= MAX_ACTIONS
    requires Completes(whole, p.actions[..i], AnswerFrom(p, i, handlers, outcomes))
    ensures var a := AnswerTo(p.actions[i], handlers, outcomes);
            if !a.result.ok then Ends(whole, p.actions[..i] + a.called, a.result, a.rest)
            else if p.actionCount == 1 then Ends(whole, p.actions[..i + 1], a.result, a.rest)
            else Completes(whole, p.actions[..i + 1], AnswerFrom(p, i + 1, handlers, a.rest))
  {
    hide AnswerTo;
    ReachesHandler(p.actions[i], handlers, outcomes);
    assert p.actions[..i + 1] == p.actions[..i] + [p.actions[i]];
  }

  lemma Completed(whole: Answer, p: Plan, handlers: set<u8>, outcomes: seq<Outcome>)
    requires FixedSize(p) && 1 < p.actionCount <= MAX_ACTIONS
    requires Completes(whole, p.actions[..p.actionCount], AnswerFrom(p, p.actionCount, handlers, outcomes))
    ensures Ends(whole, p.actions[..p.actionCount], ActionResult(true, CompletedPlan), outcomes)
  {}

  /** Only a handler's success lets the plan go on. */
  lemma ReachesHandler(a: Action, handlers: set<u8>, outcomes: seq<Outcome>)
    ensures var answer := AnswerTo(a, handlers, outcomes);
            (answer.called == [a] || answer.called == []) && (answer.result.ok ==> answer.called == [a])
  {}

  lemma OneCallMore(run: nat, actions: seq<Action>, i: nat, more: seq<Action>)
    requires i < |actions| && (more == [] || more == [actions[i]])
    ensures Calls(run, actions[..i] + more) ==
              Calls(run, actions[..i]) + if more == [] then [] else [Call(run, i, actions[i])]
    ensures more != [] ==> actions[..i + 1] == actions[..i] + more
  {}

  lemma NoCalls(run: nat, actions: seq<Action>)
    ensures actions[..0] == [] && Calls(run, []) == []
  {}

  /** A context outside the history has nothing waiting. */
  lemma {:induction false} NeverSeen(log: seq<Event>, c: Context)
    requires forall e :: e in log ==> !Concerns(e, c)
    ensures Waiting(log, c) == None
  {
    if log != [] { NeverSeen(log[..|log| - 1], c); }
  }

  lemma Queueing(log: seq<Event>, c: Context, p: Plan)
    requires Disciplined(log) && FixedSize(p) && Validate(p) == OK
    ensures Disciplined(log + [Queued(c, p)])
  {
    hide Validate;
    Extends(log, Queued(c, p));
  }

  lemma Taking(log: seq<Event>, c: Context, p: Plan)
    requires Disciplined(log) && Waiting(log, c) == Some(p)
    ensures Disciplined(log + [Taken(c, p)])
  {
    hide Validate;
    assert (log + [Taken(c, p)])[..|log|] == log;
    Extends(log, Taken(c, p));
  }

  lemma Running(log: seq<Event>, p: Plan, confirmed: bool)
    requires Disciplined(log) && FixedSize(p) && Validate(p) == OK
    requires if confirmed then log != [] && log[|log| - 1].Taken? && log[|log| - 1].plan == p else !HasRisky(p)
    ensures Disciplined(log + [Ran(p, confirmed)])
  {
    hide Validate, HasRisky;
    Extends(log, Ran(p, confirmed));
  }
}
