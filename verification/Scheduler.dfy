/** The scheduler's tables and the regions that work on them under the run-queue lock. */
module Scheduler {
  import opened Bytes
  import opened Scheduling
  import opened SchedulerRuns

  class RunQueue {
    const tasks: array<Task>
    const idle: array<Task>
    const percpu: array<PerCpu>
    var initialized: bool

    function View(): State
      reads this, tasks, idle, percpu
    {
      State(tasks[..], idle[..], percpu[..])
    }

    /** The tables are different objects, and references stay inside them. */
    ghost predicate Valid()
      reads this, tasks, idle, percpu
    {
      tasks != idle && Shaped(View())
    }

    /** Empty tables and one idle task for each processor. */
    constructor (slots: nat, cpus: nat)
      ensures Valid() && initialized && fresh(tasks) && fresh(idle) && fresh(percpu)
      ensures tasks.Length == slots && percpu.Length == cpus && Owned(View()) && AllWakeOk(View())
      ensures forall c :: 0 <= c < cpus ==> percpu[c] == PerCpu(Nobody, None)
    {
      tasks := new Task[slots](i => Task(Unused, 0, false, UserStack(if i < 0 then 0 else i)));
      idle := new Task[cpus](c => Task(Unused, 0, false, IdleStack(if c < 0 then 0 else c)));
      percpu := new PerCpu[cpus](_ => PerCpu(Nobody, None));
      initialized := true;
      new;
      NobodyOwns(View());
    }

    /** Points a processor at its idle task. */
    method InitCpu(c: nat)
      requires Valid() && c < percpu.Length && percpu[c] == PerCpu(Nobody, None) && Owned(View())
      modifies idle, percpu
      ensures Valid() && Owned(View()) && percpu[c].current == Idle(c)
      ensures View() == SwitchIdle(old(View()), c)
    {
      idle[c] := idle[c].(state := Running);
      percpu[c] := PerCpu(Idle(c), None);
      IdleJoins(old(View()), c);
    }

    method PickTask(cur: TaskRef) returns (r: Option<nat>)
      ensures r == Pick(tasks[..], cur, 0)
    {
      var i := 0;
      while i < tasks.Length
        invariant 0 <= i <= tasks.Length && Pick(tasks[..], cur, i) == Pick(tasks[..], cur, 0)
      {
        if tasks[i].state == Ready && User(i) != cur { return Some(i); }
        i := i + 1;
      }
      return None;
    }

    /** Registers a new task, if a slot is unused. */
    method SpawnTask() returns (r: Option<nat>)
      requires Valid()
      modifies tasks
      ensures View() == Step(old(View()), Spawn) && r == FreeSlot(old(View()).tasks, 0)
      ensures r.None? ==> tasks[..] == old(tasks[..]) && forall k :: 0 <= k < tasks.Length ==> tasks[k].state != Unused
      ensures r.Some? ==>
                && r.value < tasks.Length && old(tasks[r.value]).state == Unused
                && (forall k :: 0 <= k < r.value ==> old(tasks[k]).state != Unused)
                && tasks[r.value].state == Ready && tasks[r.value].frame == UserStack(r.value)
                && tasks[r.value].wakeTick == 0 && !tasks[r.value].waitInput
                && forall k :: 0 <= k < tasks.Length && k != r.value ==> tasks[k] == old(tasks[k])
      ensures Valid() && (Owned(old(View())) ==> Owned(View()))
    {
      RegionKeeps(View(), Spawn);
      var i := 0;
      while i < tasks.Length
        invariant 0 <= i <= tasks.Length && View() == old(View()) && tasks[..] == old(tasks[..])
        invariant FreeSlot(tasks[..], i) == FreeSlot(old(View()).tasks, 0)
        invariant forall k :: 0 <= k < i ==> tasks[k].state != Unused
      {
        if tasks[i].state == Unused {
          tasks[i] := Task(Ready, 0, false, UserStack(i));
          assert View() == SpawnUser(old(View()));
          return Some(i);
        }
        i := i + 1;
      }
      return None;
    }

    /** The exiting task stays the current one, dead, until the processor schedules. */
    method MarkCurrentDead(c: nat)
      requires Valid() && RunsUser(View(), c)
      modifies tasks
      ensures View() == Step(old(View()), Retire(c)) && Valid() && (Owned(old(View())) ==> Owned(View()))
    {
      RegionKeeps(View(), Retire(c));
      assert RefsOk(View(), c);
      var k := percpu[c].current.slot;
      tasks[k] := tasks[k].(state := Dead);
    }

    /** Parks the current task until `tick`; the processor still has to schedule. */
    method BlockCurrentUntil(c: nat, tick: nat)
      requires Valid() && RunsUser(View(), c)
      modifies tasks
      ensures View() == Step(old(View()), Park(c, tick, false)) && Valid() && (Sound(old(View())) ==> Sound(View()))
    {
      ParkKeeps(View(), Park(c, tick, false));
      assert RefsOk(View(), c);
      var k := percpu[c].current.slot;
      tasks[k] := tasks[k].(state := Blocked, wakeTick := tick, waitInput := false);
    }

    /** Parks the current task until a key arrives. */
    method BlockCurrentInput(c: nat)
      requires Valid() && RunsUser(View(), c)
      modifies tasks
      ensures View() == Step(old(View()), Park(c, 0, true)) && Valid() && (Sound(old(View())) ==> Sound(View()))
    {
      ParkKeeps(View(), Park(c, 0, true));
      assert RefsOk(View(), c);
      var k := percpu[c].current.slot;
      tasks[k] := tasks[k].(state := Blocked, wakeTick := 0, waitInput := true);
    }

    /** Makes every task runnable whose deadline has passed. */
    method WakeSleepersAt(now: nat)
      requires Valid()
      modifies tasks
      ensures View() == WakeSleepers(old(View()), now) && Valid() && (Owned(old(View())) ==> Owned(View()))
    {
      if percpu.Length > 0 { RegionKeeps(View(), Wake(0, now)); } else { NoProcessors(View(), now); }
      var i := 0;
      while i < tasks.Length
        invariant 0 <= i <= tasks.Length && idle[..] == old(idle[..]) && percpu[..] == old(percpu[..])
        invariant forall j :: 0 <= j < tasks.Length ==> tasks[j] == if j < i then WokenBy(old(tasks[j]), now)
            else old(tasks[j])
      {
        var t := tasks[i];
        if t.state == Blocked && !t.waitInput && t.wakeTick != 0 && t.wakeTick <= now {
          tasks[i] := t.(state := Ready, wakeTick := 0);
        }
        i := i + 1;
      }
    }

    method WakeInputWaiters()
      requires Valid()
      modifies tasks
      ensures View() == Step(old(View()), KeyIrq) && Valid() && (Owned(old(View())) ==> Owned(View()))
    {
      RegionKeeps(View(), KeyIrq);
      var i := 0;
      while i < tasks.Length
        invariant 0 <= i <= tasks.Length && idle[..] == old(idle[..]) && percpu[..] == old(percpu[..])
        invariant forall j :: 0 <= j < tasks.Length ==> tasks[j] == if j < i then WokenByKey(old(tasks[j]))
            else old(tasks[j])
      {
        var t := tasks[i];
        if t.state == Blocked && t.waitInput {
          tasks[i] := t.(state := Ready, waitInput := false);
        }
        i := i + 1;
      }
    }

    method PublishDeferred(c: nat)
      requires Valid() && c < percpu.Length
      modifies tasks, percpu
      ensures Valid() && RefsOk(old(View()), c) && View() == Publish(old(View()), c)
    {
      assert RefsOk(View(), c);
      if percpu[c].deferred.Some? {
        var d := percpu[c].deferred.value;
        tasks[d] := tasks[d].(state := Ready);
        percpu[c] := percpu[c].(deferred := None);
      }
      KeptShape(old(View()), View());
    }

    method SaveFrame(c: nat, frame: Stack)
      requires Valid() && c < percpu.Length
      modifies tasks, idle
      ensures Valid() && RefsOk(old(View()), c) && View() == Save(old(View()), c, frame)
    {
      assert RefsOk(View(), c);
      match percpu[c].current {
        case Nobody =>
        case User(k) => tasks[k] := tasks[k].(frame := frame);
        case Idle(k) => idle[k] := idle[k].(frame := frame);
      }
      KeptShape(old(View()), View());
    }

    /** Chooses what processor `c` resumes. */
    method ScheduleOn(c: nat, frame: Stack) returns (next: Stack)
      requires Valid() && c < percpu.Length
      modifies tasks, idle, percpu
      ensures if initialized then (View(), next) == Schedule(old(View()), c, frame)
          else View() == old(View()) && next == frame
    {
      if !initialized { return frame; }
      PublishDeferred(c);
      SaveFrame(c, frame);
      ghost var s1 := View();
      assert RefsOk(s1, c);
      var cur := percpu[c].current;
      var running := cur.User? && tasks[cur.slot].state == Running;
      var pick := PickTask(cur);
      if pick.Some? {
        var n := pick.value;
        next := tasks[n].frame;
        percpu[c] := PerCpu(User(n), if running && cur != User(n) then Some(cur.slot) else percpu[c].deferred);
        tasks[n] := tasks[n].(state := Running);
        assert View() == Switch(s1, c, n);
      } else if running {
        next := tasks[cur.slot].frame;
      } else if cur.Idle? {
        next := frame;
      } else {
        next := idle[c].frame;
        percpu[c] := percpu[c].(current := Idle(c));
        idle[c] := idle[c].(state := Running);
        assert View() == SwitchIdle(s1, c);
      }
    }

    /** The scheduler's region, entered from an interrupt or a system call. */
    method Dispatch(c: nat) returns (next: Stack)
      requires Valid() && initialized && c < percpu.Length
      modifies tasks, idle, percpu
      ensures View() == Step(old(View()), Reschedule(c)) && next == Resumed(old(View()), c)
      ensures Owned(old(View())) ==> Valid() && Owned(View())
      ensures Sound(old(View())) ==> (Sound(View()) <==> !Clashes(old(View()), Reschedule(c)))
    {
      if Owned(View()) { StepOwned(View(), Reschedule(c)); }
      if Sound(View()) { StepSound(View(), Reschedule(c)); }
      next := ScheduleOn(c, FrameFor(c));
    }

    /** The timer interrupt, when no other processor comes between its two regions. */
    method TimerIrq(c: nat, now: nat) returns (next: Stack)
      requires Valid() && initialized && c < percpu.Length && Owned(View())
      modifies tasks, idle, percpu
      ensures Valid() && Owned(View())
      ensures var w := Step(old(View()), Wake(c, now));
              && Shaped(w) && Enabled(w, Reschedule(c)) && Owned(w)
              && View() == Step(w, Reschedule(c)) && next == Resumed(w, c)
    {
      RegionKeeps(View(), Wake(c, now));
      WakeSleepersAt(now);
      next := Dispatch(c);
    }

    /** The stack an interrupt on processor `c` saves its context on. */
    function FrameFor(c: nat): Stack
      requires c < percpu.Length
      reads this, percpu
    {
      match percpu[c].current
      case User(i) => UserStack(i)
      case _ => IdleStack(c)
    }

    /** The exit system call, when no other processor comes between its two regions. */
    method SysExit(c: nat) returns (next: Stack)
      requires Valid() && initialized && RunsUser(View(), c) && Owned(View())
      modifies tasks, idle, percpu
      ensures Valid() && Owned(View())
      ensures var d := Step(old(View()), Retire(c));
              && Shaped(d) && Enabled(d, Reschedule(c)) && Owned(d)
              && View() == Step(d, Reschedule(c)) && next == Resumed(d, c)
      ensures RefsOk(old(View()), c) && View().tasks[old(percpu[c].current.slot)].state == Dead
    {
      assert RefsOk(View(), c);
      RegionKeeps(View(), Retire(c));
      ghost var k := percpu[c].current.slot;
      MarkCurrentDead(c);
      StepDead(View(), Reschedule(c), k);
      next := Dispatch(c);
    }

    /** The yield system call, and a sleep of no length. */
    method SysYield(c: nat) returns (next: Stack)
      requires Valid() && initialized && c < percpu.Length && percpu[c].current.User? && Owned(View())
      modifies tasks, idle, percpu
      ensures Valid() && Owned(View()) && View() == Step(old(View()), Reschedule(c)) && next == Resumed(old(View()), c)
    {
      next := Dispatch(c);
    }

    /** The sleep system call, with the clock at `uptime`, when nothing comes between its two
        regions. */
    method SysSleep(c: nat, uptime: nat, ms: nat) returns (next: Stack)
      requires Valid() && initialized && RunsUser(View(), c) && Owned(View())
      modifies tasks, idle, percpu
      ensures Valid() && Owned(View())
      ensures ms == 0 ==> View() == Step(old(View()), Reschedule(c)) && next == Resumed(old(View()), c)
      ensures ms != 0 ==> var p := Step(old(View()), Park(c, SleepTick(uptime, ms), false));
                          && Shaped(p) && Enabled(p, Reschedule(c))
                          && View() == Step(p, Reschedule(c)) && next == Resumed(p, c)
      ensures 0 < ms && uptime + ms < 0x1_0000_0000_0000_0000 ==>
                var k := old(percpu[c].current.slot);
                k < |View().tasks| && Sleeping(View().tasks[k], uptime + ms)
    {
      if ms == 0 {
        next := SysYield(c);
        return;
      }
      next := ParkAndSchedule(c, SleepTick(uptime, ms), false);
    }

    /** A blocking read of events when there are none, when nothing comes between its two
        regions. */
    method SysWaitInput(c: nat) returns (next: Stack)
      requires Valid() && initialized && RunsUser(View(), c) && Owned(View())
      modifies tasks, idle, percpu
      ensures Valid() && Owned(View())
      ensures var p := Step(old(View()), Park(c, 0, true));
              && Shaped(p) && Enabled(p, Reschedule(c))
              && View() == Step(p, Reschedule(c)) && next == Resumed(p, c)
      ensures var k := old(percpu[c].current.slot);
              k < |View().tasks| && Listening(View().tasks[k])
    {
      next := ParkAndSchedule(c, 0, true);
    }

    method ParkAndSchedule(c: nat, tick: nat, input: bool) returns (next: Stack)
      requires Valid() && initialized && RunsUser(View(), c) && Owned(View()) && (input ==> tick == 0)
      modifies tasks, idle, percpu
      ensures Valid() && Owned(View())
      ensures var p := Step(old(View()), Park(c, tick, input));
              && Shaped(p) && Enabled(p, Reschedule(c))
              && View() == Step(p, Reschedule(c)) && next == Resumed(p, c)
      ensures var k := old(percpu[c].current.slot);
              && k < |View().tasks| && (!input && tick > 0 ==> Sleeping(View().tasks[k], tick))
              && (input ==> Listening(View().tasks[k]))
    {
      hide Sound, Schedule, Step;
      ParkedStays(View(), c, tick, input);
      ParkedOwned(View(), Park(c, tick, input));
      if input { BlockCurrentInput(c); } else { BlockCurrentUntil(c, tick); }
      next := Dispatch(c);
      SoundShaped(View());
    }
  }

  /** A region in which nobody is chosen or parked. */
  lemma RegionKeeps(s: State, op: Op)
    requires Shaped(s) && Enabled(s, op) && !op.Reschedule? && !op.Park?
    ensures Shaped(Step(s, op)) && Step(s, op).cpus == s.cpus && |Step(s, op).tasks| == |s.tasks|
    ensures Owned(s) ==> Owned(Step(s, op))
  {
    RegionShaped(s, op);
    if Owned(s) { StepOwned(s, op); }
  }

  lemma ParkKeeps(s: State, op: Op)
    requires Shaped(s) && Enabled(s, op) && op.Park?
    ensures Shaped(Step(s, op)) && (Sound(s) ==> Sound(Step(s, op)))
  {
    RegionShaped(s, op);
    if Sound(s) { RegionSound(s, op); }
  }

  /** Waking sleepers does not depend on a processor. */
  lemma NoProcessors(s: State, now: nat)
    requires Shaped(s) && |s.cpus| == 0
    ensures Shaped(WakeSleepers(s, now)) && (Owned(s) ==> Owned(WakeSleepers(s, now)))
  {
    var r := WakeSleepers(s, now);
    forall c: nat, i: nat ensures !Holds(s, c, i) && !Holds(r, c, i) { }
    if Owned(s) {
      forall i | 0 <= i < |r.tasks| ensures RunningHeld(r, i) { assert RunningHeld(s, i); }
    }
  }

  lemma NobodyOwns(s: State)
    requires |s.idle| == |s.cpus| && (forall c :: 0 <= c < |s.cpus| ==> s.cpus[c] == PerCpu(Nobody, None))
    requires forall i :: 0 <= i < |s.tasks| ==> s.tasks[i].state == Unused
    ensures Owned(s) && AllWakeOk(s)
  {
    forall c: nat, i: nat ensures !Holds(s, c, i) { }
    forall i | 0 <= i < |s.tasks| ensures RunningHeld(s, i) { }
  }

  lemma IdleJoins(s: State, c: nat)
    requires Owned(s) && c < |s.cpus| && s.cpus[c] == PerCpu(Nobody, None)
    ensures Owned(SwitchIdle(s, c))
  {
    assert RefsOk(s, c);
    IdleSound(s, c);
    forall k | 0 <= k < |s.cpus| ensures Settled(SwitchIdle(s, c), k) { assert Settled(s, k); }
  }

  lemma KeptShape(s: State, r: State)
    requires Shaped(s) && |r.tasks| == |s.tasks| && |r.idle| == |s.idle| && |r.cpus| == |s.cpus|
    requires forall c :: 0 <= c < |s.cpus| ==>
               r.cpus[c].current == s.cpus[c].current
               && (r.cpus[c].deferred == s.cpus[c].deferred || r.cpus[c].deferred == None)
    ensures Shaped(r)
  {
    forall c | 0 <= c < |r.cpus| ensures RefsOk(r, c) { assert RefsOk(s, c); }
  }
}
