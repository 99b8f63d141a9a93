/** The task table and the context switch together: what the scheduler decides is what the processor does. */
module Kernel {
  import opened Basics
  import S = Scheduler
  import C = ContextSwitch

  /** The task table, and the processor with its tasks' stacks. */
  datatype State = State(s: S.Sched, w: C.World)

  /** The running task computes, creates a task, yields, or exits. */
  datatype Event = Compute | Create(entry: nat, exit: nat) | Yield | Leave

  predicate IsDecision(e: Event) { e.Yield? || e.Leave? }

  function OpOf(e: Event): S.Op
    requires IsDecision(e)
  {
    if e.Yield? then S.Schedule else S.Exit
  }

  /** The table as the decision finds it: a task that exits is already dead. */
  function Found(s: S.Sched, op: S.Op): S.Sched
    requires s.cur < |s.states|
  {
    if op == S.Exit then S.Kill(s) else s
  }

  /** Table and processor agree on the tasks and the current one. */
  predicate Matched(tasks: seq<C.Task>, k: State)
  {
    k.w.cur == k.s.cur < |k.s.states| == |k.w.saved| <= |tasks|
  }

  ghost predicate Inv(tasks: seq<C.Task>, k: State)
    ensures Inv(tasks, k) ==> Matched(tasks, k) && S.Inv(k.s) && C.Inv(tasks, k.w)
  {
    Matched(tasks, k) && S.Inv(k.s) && C.Inv(tasks, k.w)
  }

  /** The processor follows a decision: to the chosen task if that is another one, through a switch of the
      task to itself, or straight back if there is no switch. */
  ghost predicate Follows(tasks: seq<C.Task>, k: State, op: S.Op, k': State)
    requires Matched(tasks, k)
  {
    var next := k'.s.cur;
    if !S.Switches(Found(k.s, op)) then k'.w == k.w
    else if next == k.s.cur then C.AtCall(tasks, k.w) && k'.w == k.w.(m := C.Switched(k.w.m))
    else C.Calls(tasks, k.w, next) && k'.w == C.AfterSwitch(k.w, next)
  }

  ghost predicate Next(tasks: seq<C.Task>, k: State, e: Event, k': State)
  {
    && Matched(tasks, k)
    && match e
       case Compute => k'.s == k.s && C.Computes(tasks, k.w, k'.w)
       case Create(entry, exit) =>
         |k.s.states| < S.MAX_TASKS && entry != 0 && k'.s == S.Step(k.s, S.NewTask) && C.Creates(tasks, k.w, k'.w, entry, exit)
       case _ => S.Allowed(k.s, OpOf(e)) && k'.s == S.Step(k.s, OpOf(e)) && Follows(tasks, k, OpOf(e), k')
  }

  /** What the processor sees of an event. */
  function Seen(k: State, e: Event, k': State): C.Event
  {
    match e
    case Compute => C.Compute
    case Create(entry, exit) => C.Create(entry, exit)
    case _ => if k'.s.cur == k.s.cur then C.Compute else C.Switch(k'.s.cur)
  }

  /** A decision that stays with the task leaves the others alone; one that does not is a switch. */
  lemma DecisionIsSeen(tasks: seq<C.Task>, k: State, e: Event, k': State)
    requires Inv(tasks, k) && IsDecision(e) && Next(tasks, k, e, k')
    ensures C.Next(tasks, k.w, Seen(k, e, k'), k'.w)
    ensures Matched(tasks, k')
  {
    hide S.Step, S.Inv, C.Inv, C.Switched, C.Layout, C.Parked, S.Switches, C.Load;
    var op := OpOf(e);
    S.StepKeepsInv(k.s, op);
    S.InvBounds(k'.s);
    SameSize(k.s, op);
    if !S.Switches(Found(k.s, op)) { StaysWithoutSwitch(k.s, op); }
    if k'.s.cur == k.s.cur {
      if S.Switches(Found(k.s, op)) {
        C.SelfSwitchComputes(tasks, k.w);
      } else {
        NothingComputes(tasks, k.w);
      }
    }
  }

  lemma SameSize(s: S.Sched, op: S.Op)
    requires S.Inv(s) && op != S.NewTask
    ensures |S.Step(s, op).states| == |s.states|
  {
    hide S.Pick;
  }

  lemma StaysWithoutSwitch(s: S.Sched, op: S.Op)
    requires S.Inv(s) && op != S.NewTask && !S.Switches(Found(s, op))
    ensures S.Step(s, op).cur == s.cur
  {
    hide S.Pick;
  }

  lemma NothingComputes(tasks: seq<C.Task>, w: C.World)
    requires |w.saved| <= |tasks|
    ensures C.Computes(tasks, w, w)
  {}

  /** Every event keeps table and processor together, and each suspended task's context on its stack. */
  lemma NextKeepsInv(tasks: seq<C.Task>, k: State, e: Event, k': State)
    requires Inv(tasks, k) && Next(tasks, k, e, k')
    ensures Inv(tasks, k') && C.Next(tasks, k.w, Seen(k, e, k'), k'.w)
  {
    hide S.Step, S.Inv, C.Inv, C.Creates, C.Computes, C.Calls, Follows;
    match e
    case Compute =>
      ComputesKeeps(tasks, k.w, k'.w);
      C.NextKeepsInv(tasks, k.w, C.Compute, k'.w);
    case Create(entry, exit) =>
      S.StepKeepsInv(k.s, S.NewTask);
      CreatesKeeps(tasks, k, k', entry, exit);
      C.NextKeepsInv(tasks, k.w, C.Create(entry, exit), k'.w);
    case _ =>
      S.StepKeepsInv(k.s, OpOf(e));
      DecisionIsSeen(tasks, k, e, k');
      C.NextKeepsInv(tasks, k.w, Seen(k, e, k'), k'.w);
  }

  lemma ComputesKeeps(tasks: seq<C.Task>, w: C.World, w': C.World)
    requires |w.saved| <= |tasks| && C.Computes(tasks, w, w')
    ensures w'.cur == w.cur && w'.saved == w.saved
  {}

  lemma CreatesKeeps(tasks: seq<C.Task>, k: State, k': State, entry: nat, exit: nat)
    requires Matched(tasks, k) && |k.s.states| < S.MAX_TASKS
    requires k'.s == S.Step(k.s, S.NewTask) && C.Creates(tasks, k.w, k'.w, entry, exit)
    ensures Matched(tasks, k')
  {}

  // ----- every run

  ghost predicate Run(tasks: seq<C.Task>, run: seq<State>, events: seq<Event>)
    ensures Run(tasks, run, events) ==> |run| == |events| + 1
  {
    && |run| == |events| + 1 && Inv(tasks, run[0])
    && forall i :: 0 <= i < |events| ==> Next(tasks, run[i], events[i], run[i + 1])
  }

  lemma {:induction false} RunKeepsInv(tasks: seq<C.Task>, run: seq<State>, events: seq<Event>, i: nat)
    requires Run(tasks, run, events) && i < |run|
    ensures Inv(tasks, run[i])
    ensures i > 0 ==> C.Next(tasks, run[i - 1].w, Seen(run[i - 1], events[i - 1], run[i]), run[i].w)
  {
    hide Inv, Next;
    if i > 0 {
      RunKeepsInv(tasks, run, events, i - 1);
      assert Next(tasks, run[i - 1], events[i - 1], run[i]);
      NextKeepsInv(tasks, run[i - 1], events[i - 1], run[i]);
    }
  }

  /** One step of a run. */
  lemma StepAt(tasks: seq<C.Task>, run: seq<State>, events: seq<Event>, i: nat)
    requires Run(tasks, run, events) && i < |events|
    ensures Inv(tasks, run[i]) && Next(tasks, run[i], events[i], run[i + 1])
  {
    hide Inv, Next;
    RunKeepsInv(tasks, run, events, i);
  }

  function Worlds(run: seq<State>): (ws: seq<C.World>)
    ensures |ws| == |run| && forall i :: 0 <= i < |run| ==> ws[i] == run[i].w
  {
    seq(|run|, i requires 0 <= i < |run| => run[i].w)
  }

  function SeenAll(run: seq<State>, events: seq<Event>): (es: seq<C.Event>)
    requires |run| == |events| + 1
    ensures |es| == |events|
  {
    seq(|events|, i requires 0 <= i < |events| => Seen(run[i], events[i], run[i + 1]))
  }

  lemma SeenAt(run: seq<State>, events: seq<Event>, i: nat)
    requires |run| == |events| + 1 && i < |events|
    ensures SeenAll(run, events)[i] == Seen(run[i], events[i], run[i + 1])
  {}

  /** Every run of the kernel is a run of the processor. */
  lemma RunIsSeen(tasks: seq<C.Task>, run: seq<State>, events: seq<Event>)
    requires Run(tasks, run, events)
    ensures C.Run(tasks, Worlds(run), SeenAll(run, events))
    ensures forall i :: 0 <= i < |run| ==> Worlds(run)[i].cur == run[i].s.cur && |Worlds(run)[i].saved| == |run[i].s.states|
  {
    hide Next, C.Next, S.Inv, Seen, Run, Inv;
    var ws, es := Worlds(run), SeenAll(run, events);
    RunKeepsInv(tasks, run, events, 0);
    forall i | 0 <= i < |events| ensures C.Next(tasks, ws[i], es[i], ws[i + 1]) {
      RunKeepsInv(tasks, run, events, i + 1);
    }
    forall i | 0 <= i < |run| ensures Worlds(run)[i].cur == run[i].s.cur && |Worlds(run)[i].saved| == |run[i].s.states| {
      RunKeepsInv(tasks, run, events, i);
      assert Matched(tasks, run[i]);
    }
  }

  /** A step that changes the current task is a decision, and a switch to the task it chose. */
  lemma ChangeIsSwitch(tasks: seq<C.Task>, k: State, e: Event, k': State)
    requires Inv(tasks, k) && Next(tasks, k, e, k') && k'.s.cur != k.s.cur
    ensures IsDecision(e) && Seen(k, e, k') == C.Switch(k'.s.cur)
  {
    hide S.Inv, C.Inv, C.Computes, C.Creates, Follows;
  }

  /** The task a decision chooses goes on exactly where it was when a decision last took the processor from
      it: same registers, return address, stack pointer and stack. */
  lemma ChosenTaskResumes(tasks: seq<C.Task>, run: seq<State>, events: seq<Event>, a: nat, b: nat)
    requires Run(tasks, run, events) && a < b < |events|
    requires run[a + 1].s.cur != run[a].s.cur && run[b + 1].s.cur == run[a].s.cur
    requires forall i :: a < i <= b ==> run[i].s.cur != run[a].s.cur
    ensures IsDecision(events[a]) && IsDecision(events[b])
    ensures var m := run[b + 1].w.m;
            C.Context(m.rdi, m.rsi, m.rbx, m.rbp, m.rip, m.rsp) == C.Calling(run[a].w.m)
    ensures run[a].s.cur < |tasks|
    ensures forall x: nat :: C.OnStack(tasks[run[a].s.cur], x) && run[a].w.m.rsp <= x ==>
              C.Load(run[b + 1].w.m.mem, x) == C.Load(run[a].w.m.mem, x)
  {
    hide Inv, Next, C.Next, C.Run, Seen, C.Load, C.Calling, C.OnStack, Run, Worlds, SeenAll;
    var ws, es := Worlds(run), SeenAll(run, events);
    RunIsSeen(tasks, run, events);
    SeenAt(run, events, a);
    SeenAt(run, events, b);
    StepAt(tasks, run, events, a);
    StepAt(tasks, run, events, b);
    ChangeIsSwitch(tasks, run[a], events[a], run[a + 1]);
    ChangeIsSwitch(tasks, run[b], events[b], run[b + 1]);
    C.TasksResumeWhereTheyLeft(tasks, ws, es, a, b);
  }

  /** A task that was created starts, when a decision first chooses it, at its entry with those registers
      zero, and its return leads to the automatic exit. */
  lemma ChosenTaskStarts(tasks: seq<C.Task>, run: seq<State>, events: seq<Event>, a: nat, b: nat)
    requires Run(tasks, run, events) && a < b < |events| && events[a].Create?
    requires run[b + 1].s.cur == |run[a].s.states| && forall i :: a < i <= b ==> run[i].s.cur != |run[a].s.states|
    ensures var m := run[b + 1].w.m;
            m.rip == events[a].entry && m.rdi == 0 && m.rsi == 0 && m.rbx == 0 && m.rbp == 0
            && C.Load(m.mem, m.rsp) == events[a].exit
  {
    hide Inv, Next, C.Next, C.Run, C.Load, Seen, Run, Worlds, SeenAll;
    var ws, es := Worlds(run), SeenAll(run, events);
    RunIsSeen(tasks, run, events);
    SeenAt(run, events, a);
    SeenAt(run, events, b);
    CreateIsSeen(run[a], events[a], run[a + 1]);
    StepAt(tasks, run, events, b);
    ChangeIsSwitch(tasks, run[b], events[b], run[b + 1]);
    C.FreshTasksStartAtEntry(tasks, ws, es, a, b);
  }

  lemma CreateIsSeen(k: State, e: Event, k': State)
    requires e.Create?
    ensures Seen(k, e, k') == C.Create(e.entry, e.exit)
  {}

  // ----- and it does come back

  function Decisions(events: seq<Event>): nat
  {
    if events == [] then 0 else Decisions(events[..|events| - 1]) + if IsDecision(events[|events| - 1]) then 1 else 0
  }

  lemma OneEventMore(events: seq<Event>, a: nat, i: nat)
    requires a < i <= |events|
    ensures Decisions(events[a..i]) == Decisions(events[a..i - 1]) + if IsDecision(events[i - 1]) then 1 else 0
  {
    assert events[a..i][..i - 1 - a] == events[a..i - 1] && events[a..i][i - 1 - a] == events[i - 1];
  }

  lemma NoDecisions()
    ensures Decisions([]) == 0
  {}

  /** While a runnable task waits, every decision brings it nearer and nothing else delays it. */
  lemma StepComesNearer(tasks: seq<C.Task>, k: State, e: Event, k': State, t: nat)
    requires Inv(tasks, k) && Next(tasks, k, e, k') && t < |k.s.states| && k.s.states[t] == S.Runnable && k'.s.cur != t
    ensures k.s.cur < S.MAX_TASKS && k'.s.cur < S.MAX_TASKS && t < S.MAX_TASKS
    ensures t < |k'.s.states| && k'.s.states[t] == S.Runnable
    ensures S.Distance(k'.s.cur, t) + (if IsDecision(e) then 1 else 0) <= S.Distance(k.s.cur, t)
  {
    hide S.Step, C.Inv, Follows, C.Computes, C.Creates;
    match e
    case Compute =>
    case Create(_, _) => S.DecisionComesNearer(k.s, S.NewTask, t);
    case _ => S.DecisionComesNearer(k.s, OpOf(e), t);
  }

  lemma {:induction false} WaitsUntil(tasks: seq<C.Task>, run: seq<State>, events: seq<Event>, a: nat, i: nat, t: nat)
    requires Run(tasks, run, events) && a <= i <= |events| && t < |run[a].s.states| && run[a].s.states[t] == S.Runnable
    requires forall j :: a <= j <= i ==> run[j].s.cur != t
    ensures t < |run[i].s.states| && run[i].s.states[t] == S.Runnable && t < S.MAX_TASKS
    ensures run[i].s.cur < S.MAX_TASKS && run[a].s.cur < S.MAX_TASKS
    ensures Decisions(events[a..i]) + S.Distance(run[i].s.cur, t) <= S.Distance(run[a].s.cur, t)
    decreases i - a
  {
    hide Inv, Next, S.Distance, Run, Decisions, IsDecision;
    NoDecisions();
    RunKeepsInv(tasks, run, events, a);
    InvBounds(tasks, run[a]);
    if a < i {
      WaitsUntil(tasks, run, events, a, i - 1, t);
      OneEventMore(events, a, i);
      StepAt(tasks, run, events, i - 1);
      StepComesNearer(tasks, run[i - 1], events[i - 1], run[i], t);
    } else {
      assert events[a..i] == [];
    }
  }

  lemma InvBounds(tasks: seq<C.Task>, k: State)
    requires Inv(tasks, k)
    ensures k.s.cur < |k.s.states| <= S.MAX_TASKS
  {
    S.InvBounds(k.s);
  }

  /** The first time from `from` on that task `t` is the current one, if there is one. */
  lemma {:induction false} FirstTime(run: seq<State>, from: nat, t: nat) returns (b: nat)
    requires from <= |run|
    ensures from <= b <= |run| && (b < |run| ==> run[b].s.cur == t) && forall j :: from <= j < b ==> run[j].s.cur != t
    decreases |run| - from
  {
    if from == |run| || run[from].s.cur == t {
      b := from;
    } else {
      b := FirstTime(run, from + 1, t);
    }
  }

  /** A task that yields to another comes back before 15 more decisions have been made without it, and then
      goes on exactly where it was. */
  lemma YieldingTaskComesBack(tasks: seq<C.Task>, run: seq<State>, events: seq<Event>, a: nat) returns (b: nat)
    requires Run(tasks, run, events) && a < |events| && events[a] == Yield && run[a + 1].s.cur != run[a].s.cur
    requires Decisions(events[a + 1..]) >= S.MAX_TASKS - 1
    ensures a < b < |events| && run[b + 1].s.cur == run[a].s.cur
    ensures Decisions(events[a + 1..b]) < S.MAX_TASKS - 1
    ensures var m := run[b + 1].w.m;
            C.Context(m.rdi, m.rsi, m.rbx, m.rbp, m.rip, m.rsp) == C.Calling(run[a].w.m)
  {
    hide Inv, Next, C.Calling, S.Distance, Run;
    var t := run[a].s.cur;
    StepAt(tasks, run, events, a);
    YieldedIsRunnable(tasks, run[a], run[a + 1]);
    var back := FirstTime(run, a + 1, t);
    var last := if back < |run| then back - 1 else |events|;
    WaitsUntil(tasks, run, events, a + 1, last, t);
    DistanceBounds(run[a + 1].s.cur, run[last].s.cur, t);
    assert events[a + 1..|events|] == events[a + 1..];
    b := last;
    ChosenTaskResumes(tasks, run, events, a, b);
  }

  lemma YieldedIsRunnable(tasks: seq<C.Task>, k: State, k': State)
    requires Inv(tasks, k) && Next(tasks, k, Yield, k') && k'.s.cur != k.s.cur
    ensures k.s.cur < |k'.s.states| && k'.s.states[k.s.cur] == S.Runnable
  {
    hide S.Pick, C.Inv, Follows;
  }

  lemma DistanceBounds(c: nat, d: nat, t: nat)
    requires c < S.MAX_TASKS && d < S.MAX_TASKS && t < S.MAX_TASKS && c != t && d != t
    ensures 1 <= S.Distance(d, t) && S.Distance(c, t) <= S.MAX_TASKS - 1
  {}
}
