/** The context switch, instruction by instruction, and what tasks see across switches. */
module ContextSwitch {
  const STACK_SIZE := 4096

  type Memory = map<nat, nat>  // 8-byte words, by address

  function Load(mem: Memory, a: nat): nat { if a in mem then mem[a] else 0 }

  datatype Machine = Machine(rbp: nat, rbx: nat, rsi: nat, rdi: nat, rsp: nat, rip: nat, mem: Memory)

  /** What a task has when it calls `CpuSwitch`, and must have when the call returns. */
  datatype Context = Context(rdi: nat, rsi: nat, rbx: nat, rbp: nat, ret: nat, rsp: nat)

  /** The context stored in the five words at `sp`. */
  function Frame(mem: Memory, sp: nat): Context
  {
    Context(Load(mem, sp), Load(mem, sp + 8), Load(mem, sp + 16), Load(mem, sp + 24), Load(mem, sp + 32), sp + 40)
  }

  function Pushed(mem: Memory, rsp: nat, c: Machine): Memory
    requires rsp >= 32
  {
    mem[rsp - 8 := c.rbp][rsp - 16 := c.rbx][rsp - 24 := c.rsi][rsp - 32 := c.rdi]
  }

  /** The whole routine at once: save to the old stack, load from the new one. */
  function Switched(m: Machine): Machine
    requires m.rsp >= 32
  {
    var mem := Pushed(m.mem, m.rsp, m)[m.rdi := m.rsp - 32];
    var f := Frame(mem, m.rsi);
    Machine(f.rbp, f.rbx, f.rsi, f.rdi, f.rsp, f.ret, mem)
  }

  class Cpu {
    var rbp: nat
    var rbx: nat
    var rsi: nat
    var rdi: nat
    var rsp: nat
    var rip: nat
    var mem: Memory

    function State(): Machine
      reads this
    {
      Machine(rbp, rbx, rsi, rdi, rsp, rip, mem)
    }

    method Push(v: nat)
      requires rsp >= 8
      modifies this`rsp, this`mem
      ensures rsp == old(rsp) - 8 && mem == old(mem)[rsp := v]
    {
      rsp := rsp - 8;
      mem := mem[rsp := v];
    }

    method Pop() returns (v: nat)
      modifies this`rsp
      ensures v == Load(mem, old(rsp)) && rsp == old(rsp) + 8
    {
      v := Load(mem, rsp);
      rsp := rsp + 8;
    }

    /** The four pushes. */
    method SaveFrame()
      requires rsp >= 32
      modifies this`rsp, this`mem
      ensures rsp == old(rsp) - 32 && mem == Pushed(old(mem), old(rsp), old(State()))
    {
      Push(rbp);
      Push(rbx);
      Push(rsi);
      Push(rdi);
    }

    /** The four pops and the return. */
    method RestoreFrame()
      modifies this
      ensures mem == old(mem) && Context(rdi, rsi, rbx, rbp, rip, rsp) == Frame(mem, old(rsp))
    {
      hide Load;
      rdi := Pop();
      rsi := Pop();
      rbx := Pop();
      rbp := Pop();
      rip := Pop();
    }

    method CpuSwitch()
      requires rsp >= 32
      modifies this
      ensures State() == Switched(old(State()))
    {
      hide Load, Pushed, Frame;
      SaveFrame();
      mem := mem[rdi := rsp];
      rsp := rsi;
      RestoreFrame();
    }

    /** The stack `NewTaskEntry` prepares, store by store. */
    method BuildStack(t: Task, entry: nat, exit: nat)
      requires t.hi == t.lo + STACK_SIZE
      modifies this`mem
      ensures mem == Built(old(mem), t, entry, exit)
    {
      var sp := t.lo + STACK_SIZE;
      sp := sp / 16 * 16;
      sp := sp - 8;
      mem := mem[sp := exit];
      sp := sp - 8;
      mem := mem[sp := entry];
      sp := sp - 32;
      mem := mem[sp := 0];
      mem := mem[sp + 8 := 0];
      mem := mem[sp + 16 := 0];
      mem := mem[sp + 24 := 0];
      mem := mem[t.slot := sp];
    }
  }

  // ----- many tasks, each with a stack of its own

  /** A stack region and the address of the task's saved stack pointer. */
  datatype Task = Task(lo: nat, hi: nat, slot: nat)

  predicate OnStack(t: Task, a: nat) { t.lo <= a < t.hi }

  /** Word-aligned, disjoint stacks of any size, the boot stack among them, and saved-pointer slots outside all of them. */
  ghost predicate Layout(tasks: seq<Task>)
  {
    && (forall i :: 0 <= i < |tasks| ==> tasks[i].lo % 8 == 0 && tasks[i].slot % 8 == 0 && tasks[i].lo + 64 <= tasks[i].hi)
    && (forall i, j :: 0 <= i < j < |tasks| ==> tasks[i].hi <= tasks[j].lo || tasks[j].hi <= tasks[i].lo)
    && (forall i, j :: 0 <= i < j < |tasks| ==> tasks[i].slot != tasks[j].slot)
    && (forall i, j :: 0 <= i < |tasks| && 0 <= j < |tasks| ==> !OnStack(tasks[i], tasks[j].slot))
  }

  /** The task is suspended: its saved pointer leads to its context, on its own stack. */
  predicate Parked(mem: Memory, t: Task, c: Context)
  {
    var sp := Load(mem, t.slot);
    sp % 8 == 0 && t.lo <= sp && sp + 40 <= t.hi && Frame(mem, sp) == c
  }

  /** `saved[j]` is the context task `j` had at its last switch, or was created with. */
  datatype World = World(m: Machine, cur: nat, saved: seq<Context>)

  ghost predicate Inv(tasks: seq<Task>, w: World)
  {
    && Layout(tasks) && w.cur < |w.saved| <= |tasks|
    && forall j :: 0 <= j < |w.saved| && j != w.cur ==> Parked(w.m.mem, tasks[j], w.saved[j])
  }

  /** Memory agrees wherever a suspended task's context can be. */
  ghost predicate Respects(tasks: seq<Task>, w: World, mem: Memory)
    requires |w.saved| <= |tasks|
  {
    forall j, a :: 0 <= j < |w.saved| && j != w.cur && (OnStack(tasks[j], a) || a == tasks[j].slot) ==>
      Load(mem, a) == Load(w.m.mem, a)
  }

  /** The running task computes: any registers, any memory but the suspended tasks'. */
  ghost predicate Computes(tasks: seq<Task>, w: World, w': World)
    requires |w.saved| <= |tasks|
  {
    w'.cur == w.cur && w'.saved == w.saved && Respects(tasks, w, w'.m.mem)
  }

  /** The running task calls `CpuSwitch(&old.ESP, new.ESP)` for task `j`. */
  predicate Calls(tasks: seq<Task>, w: World, j: nat)
    requires w.cur < |w.saved| <= |tasks|
  {
    j < |w.saved| && j != w.cur && AtCall(tasks, w) && w.m.rsi == Load(w.m.mem, tasks[j].slot)
  }

  /** Its first argument is its own slot, and its stack has room for the pushes. */
  predicate AtCall(tasks: seq<Task>, w: World)
    requires w.cur < |w.saved| <= |tasks|
  {
    && w.m.rdi == tasks[w.cur].slot
    && w.m.rsp % 8 == 0 && tasks[w.cur].lo + 32 <= w.m.rsp && w.m.rsp + 8 <= tasks[w.cur].hi
  }

  /** The caller's context at the call. */
  function Calling(m: Machine): Context
  {
    Context(m.rdi, m.rsi, m.rbx, m.rbp, Load(m.mem, m.rsp), m.rsp + 8)
  }

  function AfterSwitch(w: World, j: nat): World
    requires w.cur < |w.saved| && w.m.rsp >= 32
  {
    World(Switched(w.m), j, w.saved[w.cur := Calling(w.m)])
  }

  /** The stack's end, rounded down to 16 bytes. */
  function Top(t: Task): nat { t.hi / 16 * 16 }

  lemma TopOfStack(t: Task)
    requires t.hi == t.lo + STACK_SIZE && t.lo % 8 == 0
    ensures t.lo + 48 <= Top(t) <= t.hi && Top(t) % 8 == 0
  {}

  /** The hand-built first frame: registers zero, return to `entry`, whose own return is `exit`. */
  function Built(mem: Memory, t: Task, entry: nat, exit: nat): Memory
    requires t.hi >= 64
  {
    var top := Top(t);
    mem[top - 8 := exit][top - 16 := entry]
       [top - 48 := 0][top - 40 := 0][top - 32 := 0][top - 24 := 0]
       [t.slot := top - 48]
  }

  function FreshContext(t: Task, entry: nat): Context
    requires t.hi >= 64
  {
    Context(0, 0, 0, 0, entry, Top(t) - 8)
  }

  /** The running task creates the next task. */
  predicate Creates(tasks: seq<Task>, w: World, w': World, entry: nat, exit: nat)
  {
    var n := |w.saved|;
    && n < |tasks| && tasks[n].hi == tasks[n].lo + STACK_SIZE && w'.cur == w.cur
    && w'.saved == w.saved + [FreshContext(tasks[n], entry)] && w'.m.mem == Built(w.m.mem, tasks[n], entry, exit)
  }

  datatype Event = Compute | Switch(to: nat) | Create(entry: nat, exit: nat)

  ghost predicate Next(tasks: seq<Task>, w: World, e: Event, w': World)
  {
    && w.cur < |w.saved| <= |tasks|
    && match e
       case Compute => Computes(tasks, w, w')
       case Switch(j) => Calls(tasks, w, j) && w' == AfterSwitch(w, j)
       case Create(entry, exit) => Creates(tasks, w, w', entry, exit)
  }

  lemma ParkedKept(mem: Memory, mem': Memory, t: Task, c: Context)
    requires Parked(mem, t, c)
    requires forall a :: OnStack(t, a) || a == t.slot ==> Load(mem', a) == Load(mem, a)
    ensures Parked(mem', t, c)
  {
    hide Load;
    var sp := Load(mem, t.slot);
    assert OnStack(t, sp) && OnStack(t, sp + 8) && OnStack(t, sp + 16) && OnStack(t, sp + 24) && OnStack(t, sp + 32);
  }

  /** Pushing on one stack and storing its pointer leaves every other task's words alone. */
  lemma SwitchElsewhere(tasks: seq<Task>, w: World, k: nat, a: nat)
    requires Inv(tasks, w) && AtCall(tasks, w) && k < |w.saved| && k != w.cur
    requires OnStack(tasks[k], a) || a == tasks[k].slot
    ensures Load(Switched(w.m).mem, a) == Load(w.m.mem, a)
  {
    hide Parked, Frame;
    var c := tasks[w.cur];
    assert c.hi <= tasks[k].lo || tasks[k].hi <= c.lo;
    assert !OnStack(c, tasks[k].slot) && !OnStack(tasks[k], c.slot) && c.slot != tasks[k].slot;
    assert !OnStack(c, a) && a != c.slot;
  }

  lemma PushedFrame(m: Machine, t: Task)
    requires m.rdi == t.slot && !OnStack(t, t.slot) && t.lo + 32 <= m.rsp && m.rsp + 8 <= t.hi
    ensures var mem := Switched(m).mem;
            Load(mem, t.slot) == m.rsp - 32 && Frame(mem, m.rsp - 32) == Calling(m)
  {
    var mem := Switched(m).mem;
    assert OnStack(t, m.rsp) && OnStack(t, m.rsp - 8) && OnStack(t, m.rsp - 16);
    assert OnStack(t, m.rsp - 24) && OnStack(t, m.rsp - 32);
    assert Load(mem, m.rsp) == Load(m.mem, m.rsp);
  }

  lemma CallerIsParked(tasks: seq<Task>, w: World, j: nat)
    requires Inv(tasks, w) && Calls(tasks, w, j)
    ensures Parked(Switched(w.m).mem, tasks[w.cur], Calling(w.m))
  {
    assert !OnStack(tasks[w.cur], tasks[w.cur].slot);
    PushedFrame(w.m, tasks[w.cur]);
  }

  /** The task switched to has exactly the context of its last switch, or its first. */
  lemma SwitchResumes(tasks: seq<Task>, w: World, j: nat)
    requires Inv(tasks, w) && Calls(tasks, w, j)
    ensures var m := AfterSwitch(w, j).m;
            Context(m.rdi, m.rsi, m.rbx, m.rbp, m.rip, m.rsp) == w.saved[j]
  {
    hide Layout, Load;
    var mem := Switched(w.m).mem;
    forall a | OnStack(tasks[j], a) || a == tasks[j].slot ensures Load(mem, a) == Load(w.m.mem, a) {
      SwitchElsewhere(tasks, w, j, a);
    }
    ParkedKept(w.m.mem, mem, tasks[j], w.saved[j]);
    assert Load(mem, tasks[j].slot) == w.m.rsi;
  }

  lemma SwitchKeepsInv(tasks: seq<Task>, w: World, j: nat)
    requires Inv(tasks, w) && Calls(tasks, w, j)
    ensures Inv(tasks, AfterSwitch(w, j))
  {
    hide Layout, Load, Parked, Switched;
    var w' := AfterSwitch(w, j);
    forall k | 0 <= k < |w.saved| && k != j ensures Parked(w'.m.mem, tasks[k], w'.saved[k]) {
      if k == w.cur {
        CallerIsParked(tasks, w, j);
      } else {
        forall a | OnStack(tasks[k], a) || a == tasks[k].slot ensures Load(w'.m.mem, a) == Load(w.m.mem, a) {
          SwitchElsewhere(tasks, w, k, a);
        }
        ParkedKept(w.m.mem, w'.m.mem, tasks[k], w.saved[k]);
      }
    }
  }

  lemma BuiltElsewhere(mem: Memory, t: Task, entry: nat, exit: nat, a: nat)
    requires t.hi == t.lo + STACK_SIZE && t.lo % 8 == 0 && !OnStack(t, a) && a != t.slot
    ensures Load(Built(mem, t, entry, exit), a) == Load(mem, a)
  {}

  /** A created task is suspended at its entry, registers zero; when entry returns, it returns to `exit`. */
  lemma BuiltIsParked(mem: Memory, t: Task, entry: nat, exit: nat)
    requires t.hi == t.lo + STACK_SIZE && t.lo % 8 == 0 && t.slot % 8 == 0 && !OnStack(t, t.slot)
    ensures var mem', c := Built(mem, t, entry, exit), FreshContext(t, entry);
            Parked(mem', t, c) && Load(mem', c.rsp) == exit && OnStack(t, c.rsp)
  {
    hide Top;
    TopOfStack(t);
    var top := Top(t);
    assert OnStack(t, top - 8) && OnStack(t, top - 16) && OnStack(t, top - 24);
    assert OnStack(t, top - 32) && OnStack(t, top - 40) && OnStack(t, top - 48);
  }

  lemma CreateKeepsInv(tasks: seq<Task>, w: World, w': World, entry: nat, exit: nat)
    requires Inv(tasks, w) && Creates(tasks, w, w', entry, exit)
    ensures Inv(tasks, w')
  {
    hide Load, Parked, Built, FreshContext;
    var n := |w.saved|;
    assert !OnStack(tasks[n], tasks[n].slot);
    BuiltIsParked(w.m.mem, tasks[n], entry, exit);
    forall k | 0 <= k < n && k != w.cur ensures Parked(w'.m.mem, tasks[k], w'.saved[k]) {
      forall a | OnStack(tasks[k], a) || a == tasks[k].slot ensures Load(w'.m.mem, a) == Load(w.m.mem, a) {
        assert tasks[k].hi <= tasks[n].lo || tasks[n].hi <= tasks[k].lo;
        assert !OnStack(tasks[n], tasks[k].slot) && !OnStack(tasks[k], tasks[n].slot);
        BuiltElsewhere(w.m.mem, tasks[n], entry, exit, a);
      }
      ParkedKept(w.m.mem, w'.m.mem, tasks[k], w.saved[k]);
    }
  }

  lemma NextKeepsInv(tasks: seq<Task>, w: World, e: Event, w': World)
    requires Inv(tasks, w) && Next(tasks, w, e, w')
    ensures Inv(tasks, w')
  {
    hide Load, Parked, Built, FreshContext, Layout, Switched;
    match e
    case Compute =>
      forall k | 0 <= k < |w.saved| && k != w.cur ensures Parked(w'.m.mem, tasks[k], w'.saved[k]) {
        ParkedKept(w.m.mem, w'.m.mem, tasks[k], w.saved[k]);
      }
    case Switch(j) => SwitchKeepsInv(tasks, w, j);
    case Create(entry, exit) => CreateKeepsInv(tasks, w, w', entry, exit);
  }

  // ----- every sequence of switches

  ghost predicate Run(tasks: seq<Task>, run: seq<World>, events: seq<Event>)
  {
    && |run| == |events| + 1 && Inv(tasks, run[0])
    && forall i :: 0 <= i < |events| ==> Next(tasks, run[i], events[i], run[i + 1])
  }

  /** Over every run each suspended task's context stays on its stack. */
  lemma {:induction false} RunKeepsInv(tasks: seq<Task>, run: seq<World>, events: seq<Event>, i: nat)
    requires Run(tasks, run, events) && i < |run|
    ensures Inv(tasks, run[i])
  {
    hide Inv, Next;
    if i > 0 {
      RunKeepsInv(tasks, run, events, i - 1);
      assert Next(tasks, run[i - 1], events[i - 1], run[i]);
      NextKeepsInv(tasks, run[i - 1], events[i - 1], run[i]);
    }
  }

  /** While a task is suspended its recorded context does not change. */
  lemma {:induction false} SavedUntil(tasks: seq<Task>, run: seq<World>, events: seq<Event>, a: nat, b: nat, k: nat)
    requires Run(tasks, run, events) && a <= b < |events| && k < |run[a].saved|
    requires forall i :: a <= i <= b ==> run[i].cur != k
    ensures k < |run[b].saved| && run[b].saved[k] == run[a].saved[k]
    decreases b
  {
    hide Layout, Switched, Parked, Respects, Built;
    if a < b {
      SavedUntil(tasks, run, events, a, b - 1, k);
      assert Next(tasks, run[b - 1], events[b - 1], run[b]);
    }
  }

  lemma NextKeepsStack(tasks: seq<Task>, w: World, e: Event, w': World, k: nat, x: nat)
    requires Inv(tasks, w) && Next(tasks, w, e, w') && k < |w.saved| && k != w.cur && OnStack(tasks[k], x)
    ensures Load(w'.m.mem, x) == Load(w.m.mem, x)
  {
    hide Load, Parked, Built, FreshContext, Switched;
    match e
    case Compute =>
    case Switch(j) => SwitchElsewhere(tasks, w, k, x);
    case Create(entry, exit) =>
      var n := |w.saved|;
      assert tasks[k].hi <= tasks[n].lo || tasks[n].hi <= tasks[k].lo;
      assert !OnStack(tasks[k], tasks[n].slot);
      BuiltElsewhere(w.m.mem, tasks[n], entry, exit, x);
  }

  /** While a task is suspended no word of its stack changes. */
  lemma {:induction false} StackUntil(tasks: seq<Task>, run: seq<World>, events: seq<Event>, a: nat, b: nat, k: nat, x: nat)
    requires Run(tasks, run, events) && a <= b < |events| && k < |run[a].saved| && |run[a].saved| <= |tasks| && OnStack(tasks[k], x)
    requires forall i :: a <= i <= b ==> run[i].cur != k
    ensures Load(run[b + 1].m.mem, x) == Load(run[a].m.mem, x)
    decreases b
  {
    hide Load, Next, OnStack;
    RunKeepsInv(tasks, run, events, b);
    assert Next(tasks, run[b], events[b], run[b + 1]);
    if a < b {
      StackUntil(tasks, run, events, a, b - 1, k, x);
    }
    SavedUntil(tasks, run, events, a, b, k);
    NextKeepsStack(tasks, run[b], events[b], run[b + 1], k, x);
  }

  /** A task that gave the processor away at step `a` and gets it back at step `b`, others having run
      in between, continues with the registers, return address and stack it had. */
  lemma TasksResumeWhereTheyLeft(tasks: seq<Task>, run: seq<World>, events: seq<Event>, a: nat, b: nat)
    requires Run(tasks, run, events) && a < b < |events| && events[a].Switch? && events[b].Switch?
    requires events[b].to == run[a].cur && forall i :: a < i <= b ==> run[i].cur != run[a].cur
    ensures var m := run[b + 1].m;
            Context(m.rdi, m.rsi, m.rbx, m.rbp, m.rip, m.rsp) == Calling(run[a].m)
    ensures run[a].cur < |tasks|
    ensures forall x: nat :: OnStack(tasks[run[a].cur], x) && run[a].m.rsp <= x ==>
              Load(run[b + 1].m.mem, x) == Load(run[a].m.mem, x)
  {
    hide Layout, Load, Switched, Parked;
    var k := run[a].cur;
    RunKeepsInv(tasks, run, events, a);
    RunKeepsInv(tasks, run, events, b);
    assert Next(tasks, run[a], events[a], run[a + 1]);
    assert run[a + 1].saved[k] == Calling(run[a].m);
    SavedUntil(tasks, run, events, a + 1, b, k);
    assert Next(tasks, run[b], events[b], run[b + 1]);
    SwitchResumes(tasks, run[b], k);
    forall x: nat | OnStack(tasks[k], x) && run[a].m.rsp <= x
      ensures Load(run[b + 1].m.mem, x) == Load(run[a].m.mem, x)
    {
      OwnStackAbove(tasks, run[a], events[a].to, x);
      StackUntil(tasks, run, events, a + 1, b, k, x);
    }
  }

  lemma OwnStackAbove(tasks: seq<Task>, w: World, j: nat, x: nat)
    requires Inv(tasks, w) && Calls(tasks, w, j) && OnStack(tasks[w.cur], x) && w.m.rsp <= x
    ensures Load(Switched(w.m).mem, x) == Load(w.m.mem, x)
  {
    hide Parked, Frame;
    assert !OnStack(tasks[w.cur], tasks[w.cur].slot);
  }

  /** A task created at step `a` first runs at its entry with those registers zero, and the return
      address its entry will use leads to the automatic exit. */
  lemma FreshTasksStartAtEntry(tasks: seq<Task>, run: seq<World>, events: seq<Event>, a: nat, b: nat)
    requires Run(tasks, run, events) && a < b < |events| && events[a].Create? && events[b].Switch?
    requires events[b].to == |run[a].saved| && forall i :: a < i <= b ==> run[i].cur != |run[a].saved|
    ensures var m := run[b + 1].m;
            m.rip == events[a].entry && m.rdi == 0 && m.rsi == 0 && m.rbx == 0 && m.rbp == 0
            && Load(m.mem, m.rsp) == events[a].exit
  {
    hide Load, Switched, Parked, Built, Top;
    var k := |run[a].saved|;
    RunKeepsInv(tasks, run, events, a);
    RunKeepsInv(tasks, run, events, b);
    assert Next(tasks, run[a], events[a], run[a + 1]);
    SavedUntil(tasks, run, events, a + 1, b, k);
    assert Next(tasks, run[b], events[b], run[b + 1]);
    SwitchResumes(tasks, run[b], k);
    assert !OnStack(tasks[k], tasks[k].slot);
    BuiltIsParked(run[a].m.mem, tasks[k], events[a].entry, events[a].exit);
    StackUntil(tasks, run, events, a + 1, b, k, FreshContext(tasks[k], events[a].entry).rsp);
  }

  /** A task that switches to itself touches no other task's words: to the others it only computes. */
  lemma SelfSwitchComputes(tasks: seq<Task>, w: World)
    requires Inv(tasks, w) && AtCall(tasks, w)
    ensures Computes(tasks, w, w.(m := Switched(w.m)))
  {
    hide Load, Switched, Parked, Layout, OnStack;
    forall j, a | 0 <= j < |w.saved| && j != w.cur && (OnStack(tasks[j], a) || a == tasks[j].slot)
      ensures Load(Switched(w.m).mem, a) == Load(w.m.mem, a)
    {
      SwitchElsewhere(tasks, w, j, a);
    }
  }

  /** A task switched to itself returns from the call exactly when the pointer saved for it before the
      call already was where the call pushes its frame. */
  lemma SelfSwitchReturns(t: Task, m: Machine)
    requires m.rdi == t.slot && m.rsi == Load(m.mem, t.slot) && !OnStack(t, t.slot)
    requires t.slot % 8 == 0 && m.rsp % 8 == 0 && t.lo + 32 <= m.rsp && m.rsp + 8 <= t.hi
    ensures var r := Switched(m);
            Context(r.rdi, r.rsi, r.rbx, r.rbp, r.rip, r.rsp) == Calling(m) <==> m.rsi == m.rsp - 32
  {
    hide Load;
    PushedFrame(m, t);
  }

  /** In any case it goes back to the stack pointer saved before, because the argument was read before
      the pointer was updated, and to the whole context saved before if the two frames do not overlap. */
  lemma SelfSwitchGoesBack(t: Task, m: Machine, stale: Context)
    requires m.rdi == t.slot && m.rsi == Load(m.mem, t.slot) && !OnStack(t, t.slot)
    requires t.slot % 8 == 0 && m.rsp % 8 == 0 && t.lo + 32 <= m.rsp && m.rsp + 8 <= t.hi && Parked(m.mem, t, stale)
    ensures Switched(m).rsp == stale.rsp
    ensures stale.rsp <= m.rsp - 32 || m.rsp <= stale.rsp - 40 ==>
              var r := Switched(m);
              Context(r.rdi, r.rsi, r.rbx, r.rbp, r.rip, r.rsp) == stale
  {
    var sp := m.rsi;
    assert OnStack(t, sp) && OnStack(t, sp + 8) && OnStack(t, sp + 16) && OnStack(t, sp + 24) && OnStack(t, sp + 32);
    forall a: nat | OnStack(t, a) && !(m.rsp - 32 <= a < m.rsp) ensures Load(Switched(m).mem, a) == Load(m.mem, a) {}
  }
}
