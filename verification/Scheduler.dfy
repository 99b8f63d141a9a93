/** The round-robin scheduler over a table of at most 16 tasks. */
module Scheduler {
  import opened Basics

  const MAX_TASKS := 16

  datatype TaskState = Runnable | Running | Waiting | Dead

  /** The task table and the index of the current task. */
  datatype Sched = Sched(states: seq<TaskState>, cur: nat)

  /** Exactly one task is Running, and it is the current one; none ever waits. */
  predicate Inv(s: Sched)
  {
    && 1 <= |s.states| <= MAX_TASKS && s.cur < |s.states| && s.states[s.cur] == Running
    && forall i :: 0 <= i < |s.states| && i != s.cur ==> s.states[i] == Runnable || s.states[i] == Dead
  }

  /** The slot `i` places after the current one, going round. */
  function Slot(s: Sched, i: nat): nat
    requires s.states != []
  {
    (s.cur + i) % |s.states|
  }

  /** The first runnable slot at `i` or more places after the current one, -1 if none. */
  function Pick(s: Sched, i: nat): (idx: int)
    requires s.states != []
    ensures -1 <= idx < |s.states|
    ensures idx >= 0 ==> s.states[idx] == Runnable
    decreases |s.states| - i
  {
    if i >= |s.states| then -1
    else if s.states[Slot(s, i)] == Runnable then Slot(s, i)
    else Pick(s, i + 1)
  }

  /** One scheduling decision; the current task may just have been marked dead. */
  function Decide(s: Sched): Sched
    requires s.cur < |s.states|
  {
    if |s.states| <= 1 then s else
    var p := Pick(s, 1);
    var dead := s.states[s.cur] == Dead;
    if p == -1 && !dead then s else
    var next := if p == -1 then 0 else p;
    var states := if dead then s.states else s.states[s.cur := Runnable];
    Sched(states[next := Running], next)
  }

  /** The decision gives the processor to a task, the same one perhaps. */
  predicate Switches(s: Sched)
    requires s.cur < |s.states|
  {
    |s.states| > 1 && (Pick(s, 1) != -1 || s.states[s.cur] == Dead)
  }

  function Kill(s: Sched): Sched
    requires s.cur < |s.states|
  {
    s.(states := s.states[s.cur := Dead])
  }

  datatype Op = NewTask | Schedule | Exit

  /** Operations that leave a task running: a task alone in the table must not exit. */
  predicate Allowed(s: Sched, op: Op)
  {
    op == Exit ==> |s.states| > 1
  }

  function Step(s: Sched, op: Op): Sched
    requires s.cur < |s.states|
  {
    match op
    case NewTask => if |s.states| >= MAX_TASKS then s else s.(states := s.states + [Runnable])
    case Schedule => Decide(s)
    case Exit => Decide(Kill(s))
  }

  /** `Pick` finds a runnable slot whenever there is one, and skips none before it. */
  lemma {:induction false} PickFinds(s: Sched, i: nat, j: nat)
    requires s.cur < |s.states| && i <= j < |s.states| && s.states[Slot(s, j)] == Runnable
    ensures Pick(s, i) >= 0
    ensures exists m :: i <= m <= j && Pick(s, i) == Slot(s, m)
    decreases j - i
  {
    if s.states[Slot(s, i)] != Runnable {
      PickFinds(s, i + 1, j);
      var m :| i + 1 <= m <= j && Pick(s, i + 1) == Slot(s, m);
    }
  }

  /** How far slot `k` lies ahead of slot `c` on a ring of `n`. */
  function Ahead(c: nat, k: nat, n: nat): nat
    requires c < n && k < n
  {
    if k > c then k - c else k + n - c
  }

  lemma SlotAhead(s: Sched, k: nat)
    requires s.cur < |s.states| && k < |s.states| && k != s.cur
    ensures 1 <= Ahead(s.cur, k, |s.states|) < |s.states| && Slot(s, Ahead(s.cur, k, |s.states|)) == k
  {
    Mod(k, |s.states|);
  }

  lemma Mod(k: nat, n: nat)
    requires k < n
    ensures k % n == k && (k + n) % n == k
  {}

  lemma AheadOfSlot(s: Sched, m: nat)
    requires s.cur < |s.states| && 1 <= m < |s.states|
    ensures Slot(s, m) != s.cur && Ahead(s.cur, Slot(s, m), |s.states|) == m
  {
    var n := |s.states|;
    Mod(if s.cur + m < n then s.cur + m else s.cur + m - n, n);
  }

  /** A decision with task `k` runnable moves to a task no further round the ring than `k`. */
  lemma PickBefore(s: Sched, k: nat)
    requires s.cur < |s.states| && k < |s.states| && k != s.cur && s.states[k] == Runnable
    ensures var p := Pick(s, 1);
            0 <= p && p != s.cur && Ahead(s.cur, p, |s.states|) <= Ahead(s.cur, k, |s.states|)
  {
    hide Slot;
    SlotAhead(s, k);
    var j := Ahead(s.cur, k, |s.states|);
    PickFinds(s, 1, j);
    var m :| 1 <= m <= j && Pick(s, 1) == Slot(s, m);
    AheadOfSlot(s, m);
  }

  lemma PickNone(s: Sched)
    requires s.cur < |s.states| && Pick(s, 1) == -1
    ensures forall k :: 0 <= k < |s.states| && k != s.cur ==> s.states[k] != Runnable
  {
    forall k | 0 <= k < |s.states| && k != s.cur ensures s.states[k] != Runnable {
      if s.states[k] == Runnable { PickBefore(s, k); }
    }
  }

  lemma {:induction false} PickIsNotCurrent(s: Sched, i: nat)
    requires s.cur < |s.states| && 1 <= i
    ensures Pick(s, i) != s.cur
    decreases |s.states| - i
  {
    if i < |s.states| {
      AheadOfSlot(s, i);
      PickIsNotCurrent(s, i + 1);
    }
  }

  // ----- every interleaving

  /** Every operation keeps exactly one task running, except the exit of a task alone in the table. */
  lemma StepKeepsInv(s: Sched, op: Op)
    requires Inv(s)
    ensures Inv(Step(s, op)) <==> Allowed(s, op)
  {
    hide Pick, Slot;
    PickIsNotCurrent(s, 1);
    PickIsNotCurrent(Kill(s), 1);
  }

  /** What an operation changes: nothing but the states of the old and the new current task. The one that gives way stays
      runnable, the one that exits is dead, and a new task is runnable, in the last of at most 16 slots. */
  lemma StepChanges(s: Sched, op: Op)
    requires Inv(s) && Allowed(s, op)
    ensures var t := Step(s, op);
            && (op == NewTask ==> t == if |s.states| < 16 then Sched(s.states + [Runnable], s.cur) else s)
            && (op != NewTask ==> |t.states| == |s.states| && t.cur < |t.states| && t.states[t.cur] == Running)
            && (op != NewTask ==> forall k :: 0 <= k < |s.states| && k != s.cur && k != t.cur ==> t.states[k] == s.states[k])
            && (op != NewTask && t.cur != s.cur ==> t.states[s.cur] == if op == Exit then Dead else Runnable)
            && (op != NewTask && t.cur != s.cur && t.cur != 0 ==> s.states[t.cur] == Runnable)
  {
    hide Slot, Pick;
    PickIsNotCurrent(s, 1);
    PickIsNotCurrent(Kill(s), 1);
  }

  /** A dead task other than task 0 stays dead. */
  lemma DeadStaysDead(s: Sched, op: Op, k: nat)
    requires Inv(s) && Allowed(s, op) && 0 < k < |s.states| && s.states[k] == Dead
    ensures k < |Step(s, op).states| && Step(s, op).states[k] == Dead && Step(s, op).cur != k
  {
    hide Slot;
  }

  /** A dead task runs again exactly if it is task 0, the current task exits, and nothing else can run. Task
      0 then goes on inside its own exit. */
  lemma DeadTaskRunsAgain(s: Sched, op: Op, k: nat)
    requires Inv(s) && Allowed(s, op) && k < |s.states| && s.states[k] == Dead
    ensures Step(s, op).cur == k <==>
              k == 0 && op == Exit && forall j :: 0 <= j < |s.states| && j != s.cur ==> s.states[j] != Runnable
  {
    hide Slot;
    var t := if op == Exit then Kill(s) else s;
    var p := Pick(t, 1);
    PickIsNotCurrent(t, 1);
    assert forall j :: 0 <= j < |s.states| && j != s.cur ==> t.states[j] == s.states[j];
    if p == -1 { PickNone(t); } else { assert s.states[p] == Runnable; }
  }

  /** The switch is to another task, unless task 0 exits when nothing else can run. */
  lemma SwitchesToAnother(s: Sched, op: Op)
    requires Inv(s) && Allowed(s, op) && op != NewTask
    ensures Step(s, op).cur == s.cur <==>
              (forall k :: 0 <= k < |s.states| && k != s.cur ==> s.states[k] != Runnable) && (op == Exit ==> s.cur == 0)
  {
    hide Slot;
    var t := if op == Exit then Kill(s) else s;
    PickIsNotCurrent(t, 1);
    assert forall k :: 0 <= k < |s.states| && k != s.cur ==> t.states[k] == s.states[k];
    var p := Pick(t, 1);
    if p == -1 { PickNone(t); } else { assert s.states[p] == Runnable; }
  }

  /** Distance over all 16 slots, which new tasks do not change. */
  function Distance(c: nat, k: nat): nat
    requires c < MAX_TASKS && k < MAX_TASKS
  {
    Ahead(c, k, MAX_TASKS)
  }

  lemma AheadOnLargerRing(c: nat, p: nat, k: nat, n: nat)
    requires c < n <= MAX_TASKS && p < n && k < n && p != c && k != c
    requires Ahead(c, p, n) <= Ahead(c, k, n)
    ensures p == k || Distance(p, k) < Distance(c, k)
  {}

  /** A decision brings a waiting runnable task nearer, or runs it; creating tasks does not delay it. */
  lemma DecisionComesNearer(s: Sched, op: Op, k: nat)
    requires Inv(s) && Allowed(s, op) && k < |s.states| && s.states[k] == Runnable
    ensures var t := Step(s, op);
            && k < |t.states| && t.cur < MAX_TASKS
            && (t.cur == k || (t.states[k] == Runnable && Distance(t.cur, k) <= Distance(s.cur, k)))
            && (op != NewTask ==> t.cur == k || Distance(t.cur, k) < Distance(s.cur, k))
  {
    hide Slot, Pick;
    if op != NewTask {
      var t := if op == Exit then Kill(s) else s;
      PickBefore(t, k);
      AheadOnLargerRing(s.cur, Pick(t, 1), k, |s.states|);
    }
  }

  /** States reached by a sequence of operations, the start included. */
  ghost predicate Run(run: seq<Sched>, ops: seq<Op>)
  {
    && |run| == |ops| + 1 && Inv(run[0]) && forall i :: 0 <= i < |ops| ==> Follows(run[i], ops[i], run[i + 1])
  }

  predicate Follows(s: Sched, op: Op, t: Sched)
  {
    s.cur < |s.states| && Allowed(s, op) && t == Step(s, op)
  }

  /** Over every run exactly one task is Running at all times, and it is the current one. */
  lemma {:induction false} RunKeepsInv(run: seq<Sched>, ops: seq<Op>, i: nat)
    requires Run(run, ops) && i < |run|
    ensures Inv(run[i])
  {
    hide Step, Inv;
    if i > 0 {
      RunKeepsInv(run, ops, i - 1);
      assert Follows(run[i - 1], ops[i - 1], run[i]);
      StepKeepsInv(run[i - 1], ops[i - 1]);
    }
  }

  function Decisions(ops: seq<Op>): nat
  {
    if ops == [] then 0 else Decisions(ops[..|ops| - 1]) + if ops[|ops| - 1] == NewTask then 0 else 1
  }

  lemma {:induction false} FairUntil(run: seq<Sched>, ops: seq<Op>, k: nat, i: nat)
    requires Run(run, ops) && k < |run[0].states| && run[0].states[k] == Runnable && i <= |ops|
    requires forall j :: 0 <= j <= i ==> run[j].cur != k
    ensures run[i].cur < |run[i].states| <= MAX_TASKS && k < |run[i].states| && run[i].states[k] == Runnable
    ensures run[0].cur < |run[0].states| <= MAX_TASKS
    ensures Decisions(ops[..i]) + Distance(run[i].cur, k) <= Distance(run[0].cur, k)
  {
    hide Step, Inv;
    RunKeepsInv(run, ops, i);
    InvBounds(run[i]);
    InvBounds(run[0]);
    if i > 0 {
      FairUntil(run, ops, k, i - 1);
      RunKeepsInv(run, ops, i - 1);
      assert Follows(run[i - 1], ops[i - 1], run[i]);
      DecisionComesNearer(run[i - 1], ops[i - 1], k);
      assert ops[..i][..i - 1] == ops[..i - 1];
    }
  }

  lemma InvBounds(s: Sched)
    requires Inv(s)
    ensures s.cur < |s.states| <= MAX_TASKS
  {}

  /** Fairness: while a runnable task has not run, fewer than 15 scheduling decisions have been made. */
  lemma EveryRunnableTaskRuns(run: seq<Sched>, ops: seq<Op>, k: nat)
    requires Run(run, ops) && k < |run[0].states| && run[0].states[k] == Runnable
    requires forall j :: 0 <= j < |run| ==> run[j].cur != k
    ensures Decisions(ops) < MAX_TASKS - 1
  {
    hide Step, Inv;
    FairUntil(run, ops, k, |ops|);
    assert ops[..|ops|] == ops;
  }

  /** Over every run a dead task other than task 0 never runs again. */
  lemma {:induction false} DeadForever(run: seq<Sched>, ops: seq<Op>, k: nat, i: nat)
    requires Run(run, ops) && 0 < k < |run[0].states| && run[0].states[k] == Dead && i < |run|
    ensures k < |run[i].states| && run[i].states[k] == Dead && run[i].cur != k
  {
    hide Step;
    if i > 0 {
      DeadForever(run, ops, k, i - 1);
      RunKeepsInv(run, ops, i - 1);
      assert Follows(run[i - 1], ops[i - 1], run[i]);
      DeadStaysDead(run[i - 1], ops[i - 1], k);
    }
  }

  // ----- the table itself

  /** `pool` holds the task records; `tasks` and `currentTask` point into it. */
  class TaskTable {
    const pool: array<TaskState>
    const ids: array<int>
    const tasks: array<nat>
    var taskCount: nat
    var started: bool      // there is a current task
    var currentTask: nat
    var nextID: int

    ghost predicate Shape()
      reads tasks, this`taskCount
    {
      && pool.Length == MAX_TASKS && ids.Length == MAX_TASKS && tasks.Length == MAX_TASKS && Apart(tasks, ids) && Apart(pool, tasks) && Apart(pool, ids)
      && taskCount <= MAX_TASKS && forall i :: 0 <= i < taskCount ==> tasks[i] == i
    }

    ghost predicate Valid()
      reads this, pool, tasks
    {
      started && Shape() && Inv(View())
    }

    ghost function View(): Sched
      reads this, pool, tasks
      requires Shape()
    {
      Sched(pool[..taskCount], currentTask)
    }

    /** Before initialisation there is no task, and no current one. */
    constructor ()
      ensures !started && Shape() && taskCount == 0 && fresh(pool) && fresh(ids) && fresh(tasks)
    {
      pool := new TaskState[MAX_TASKS](_ => Runnable);
      ids := new int[MAX_TASKS](_ => 0);
      tasks := new nat[MAX_TASKS](_ => 0);
      taskCount, started, currentTask, nextID := 0, false, 0, 1;
    }

    method Init()
      requires pool.Length == MAX_TASKS && ids.Length == MAX_TASKS && tasks.Length == MAX_TASKS
      requires Apart(tasks, ids) && Apart(pool, tasks) && Apart(pool, ids)
      modifies this, pool, ids, tasks
      ensures Valid() && View() == Sched([Running], 0)
    {
      nextID := 1;
      ids[0] := 0;
      pool[0] := Running;
      tasks[0] := 0;
      taskCount := 1;
      started, currentTask := true, 0;
      assert pool[..1] == [Running];
    }

    /** Returns the new task's slot, or -1 when the table is full or there is no entry point. */
    method NewTaskEntry(entry: nat) returns (slot: int)
      requires Shape()
      modifies this`taskCount, this`nextID, pool, ids, tasks
      ensures Shape() && (old(Valid()) ==> Valid())
      ensures slot >= 0 <==> old(taskCount) < MAX_TASKS && entry != 0
      ensures slot >= 0 ==> slot == old(taskCount) && View().states == old(View()).states + [Runnable]
      ensures slot >= 0 && old(Valid()) ==> View() == Step(old(View()), NewTask)
      ensures slot >= 0 ==> ids[slot] == old(nextID) && nextID == old(nextID) + 1
      ensures slot < 0 ==> View() == old(View()) && nextID == old(nextID)
    {
      if taskCount >= MAX_TASKS || entry == 0 { return -1; }
      var idx := taskCount;
      ids[idx] := nextID;
      nextID := nextID + 1;
      pool[idx] := Runnable;
      tasks[idx] := idx;
      taskCount := taskCount + 1;
      assert pool[..taskCount] == old(pool[..taskCount]) + [Runnable];
      return idx;
    }

    method CurrentIndex() returns (currentIndex: int)
      requires Shape() && currentTask < taskCount
      ensures currentIndex == currentTask
    {
      currentIndex := -1;
      for i := 0 to taskCount
        invariant i <= currentTask
      {
        if tasks[i] == currentTask { return i; }
      }
    }

    method NextIndex(currentIndex: nat) returns (nextIndex: int)
      requires Shape() && currentIndex == currentTask < taskCount
      ensures nextIndex == Pick(View(), 1)
    {
      for i := 1 to taskCount
        invariant Pick(View(), 1) == Pick(View(), i)
      {
        var idx := (currentIndex + i) % taskCount;
        if pool[tasks[idx]] == Runnable { return idx; }
      }
      return -1;
    }

    /** One decision; `switched` says that the processor was given to the chosen task. */
    method Schedule() returns (switched: bool)
      requires Shape() && (taskCount > 1 ==> started && currentTask < taskCount)
      modifies this`currentTask, pool
      ensures Shape() && (taskCount <= 1 ==> !switched && pool[..] == old(pool[..]) && currentTask == old(currentTask))
      ensures old(currentTask) < taskCount ==> View() == Decide(old(View())) && switched == old(Switches(View()))
    {
      hide Pick;
      if taskCount <= 1 { return false; }
      var oldTask := currentTask;
      var currentIndex := CurrentIndex();
      var nextIndex := NextIndex(currentIndex);
      if nextIndex == -1 {
        if pool[oldTask] == Dead {
          nextIndex := 0;
        } else {
          return false;
        }
      }
      var newTask := tasks[nextIndex];
      if pool[oldTask] != Dead {
        pool[oldTask] := Runnable;
      }
      pool[newTask] := Running;
      currentTask := newTask;
      assert View().states == Decide(old(View())).states;
      return true;
    }

    /** Mark the current task dead and give the processor away. Nothing happens if there is no current
        task. `returned` says that the decision came back without giving the processor to any task, so that
        the caller goes into its endless loop at once; a task that is resumed after its exit does so then. */
    method Exit() returns (returned: bool)
      requires started ==> Valid()
      modifies this`currentTask, pool
      ensures !started ==> !returned && pool[..] == old(pool[..]) && currentTask == old(currentTask)
      ensures started ==> Shape() && View() == Step(old(View()), Op.Exit) && (Valid() <==> taskCount > 1)
      ensures started ==> (returned <==> taskCount <= 1)
    {
      if !started { return false; }
      hide Decide, Pick;
      StepKeepsInv(View(), Op.Exit);
      ghost var s := View();
      pool[currentTask] := Dead;
      assert View() == Kill(s);
      var switched := Schedule();
      return !switched;
    }
  }
}
