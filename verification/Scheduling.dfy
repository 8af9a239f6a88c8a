/** The scheduler as a state machine: tasks, the processors they run on, and one step for each
    region that holds the run-queue lock. */
module Scheduling {
  import opened Bytes

  datatype TaskState = Unused | Ready | Running | Blocked | Dead

  /** A kernel stack. A saved context is named by the stack it lies on. */
  datatype Stack = UserStack(slot: nat) | IdleStack(cpu: nat)

  datatype Task = Task(state: TaskState, wakeTick: nat, waitInput: bool, frame: Stack)

  datatype TaskRef = Nobody | User(slot: nat) | Idle(cpu: nat)

  datatype PerCpu = PerCpu(current: TaskRef, deferred: Option<nat>)

  datatype State = State(tasks: seq<Task>, idle: seq<Task>, cpus: seq<PerCpu>)

  /** References stay inside the tables. */
  ghost predicate RefsOk(s: State, c: nat)
    requires c < |s.cpus|
  {
    && (s.cpus[c].current.User? ==> s.cpus[c].current.slot < |s.tasks|)
    && (s.cpus[c].current.Idle? ==> s.cpus[c].current.cpu == c)
    && (s.cpus[c].deferred.Some? ==> s.cpus[c].deferred.value < |s.tasks|)
  }

  ghost predicate Shaped(s: State) {
    |s.idle| == |s.cpus| && forall c :: 0 <= c < |s.cpus| ==> RefsOk(s, c)
  }

  // ------------------------------------------------------------- updates

  function SetTask(s: State, i: nat, t: Task): State
    requires i < |s.tasks|
  {
    s.(tasks := s.tasks[i := t])
  }

  function SetState(s: State, i: nat, st: TaskState): State
    requires i < |s.tasks|
  {
    SetTask(s, i, s.tasks[i].(state := st))
  }

  function SetCpu(s: State, c: nat, p: PerCpu): State
    requires c < |s.cpus|
  {
    s.(cpus := s.cpus[c := p])
  }

  // ------------------------------------------------------------ schedule

  /** The lowest ready slot from `from` on that is not the current task. */
  function Pick(tasks: seq<Task>, cur: TaskRef, from: nat): (r: Option<nat>)
    ensures r.Some? ==> from <= r.value < |tasks| && tasks[r.value].state == Ready && User(r.value) != cur
    ensures r.Some? ==> forall i :: from <= i < r.value ==> tasks[i].state != Ready || User(i) == cur
    ensures r.None? ==> forall i :: from <= i < |tasks| ==> tasks[i].state != Ready || User(i) == cur
    decreases |tasks| - from
  {
    if from >= |tasks| then None
    else if tasks[from].state == Ready && User(from) != cur then Some(from)
    else Pick(tasks, cur, from + 1)
  }

  /** The task switched away from last time is published now. */
  function Publish(s: State, c: nat): State
    requires c < |s.cpus| && RefsOk(s, c)
  {
    match s.cpus[c].deferred
    case None => s
    case Some(d) => SetCpu(SetState(s, d, Ready), c, s.cpus[c].(deferred := None))
  }

  /** The interrupted context belongs to the current task. */
  function Save(s: State, c: nat, frame: Stack): State
    requires c < |s.cpus| && RefsOk(s, c) && |s.idle| == |s.cpus|
  {
    match s.cpus[c].current
    case Nobody => s
    case User(k) => SetTask(s, k, s.tasks[k].(frame := frame))
    case Idle(k) => s.(idle := s.idle[k := s.idle[k].(frame := frame)])
  }

  predicate StillRunning(s: State, c: nat)
    requires c < |s.cpus| && RefsOk(s, c)
  {
    s.cpus[c].current.User? && s.tasks[s.cpus[c].current.slot].state == Running
  }

  /** Makes `next` the current task; a task that is still running is only deferred. */
  function Switch(s: State, c: nat, next: nat): State
    requires c < |s.cpus| && RefsOk(s, c) && next < |s.tasks|
  {
    var p := s.cpus[c];
    var d := if StillRunning(s, c) && p.current != User(next) then Some(p.current.slot) else p.deferred;
    SetState(SetCpu(s, c, PerCpu(User(next), d)), next, Running)
  }

  function SwitchIdle(s: State, c: nat): State
    requires c < |s.cpus| && |s.idle| == |s.cpus|
  {
    SetCpu(s, c, s.cpus[c].(current := Idle(c))).(idle := s.idle[c := s.idle[c].(state := Running)])
  }

  /** What the processor resumes, and the tables after that. */
  function Schedule(s: State, c: nat, frame: Stack): (State, Stack)
    requires c < |s.cpus| && Shaped(s)
  {
    assert RefsOk(s, c);
    var s1 := Save(Publish(s, c), c, frame);
    var cur := s1.cpus[c].current;
    match Pick(s1.tasks, cur, 0)
    case Some(n) => (Switch(s1, c, n), s1.tasks[n].frame)
    case None =>
      if StillRunning(s1, c) then (s1, s1.tasks[cur.slot].frame)
      else if cur.Idle? then (s1, frame)
      else (SwitchIdle(s1, c), s1.idle[c].frame)
  }

  // ------------------------------------------------------------ ownership

  /** Processor `c` runs task `i` or has not yet published that it stopped running it. */
  predicate Holds(s: State, c: nat, i: nat) {
    c < |s.cpus| && (s.cpus[c].current == User(i) || s.cpus[c].deferred == Some(i))
  }

  ghost predicate Held(s: State, i: nat) { exists c: nat :: Holds(s, c, i) }

  /** A processor does not hold a task twice. */
  ghost predicate Once(s: State, c: nat)
    requires c < |s.cpus|
  {
    s.cpus[c].deferred.Some? ==> s.cpus[c].current != User(s.cpus[c].deferred.value)
  }

  /** No task is held by two processors. */
  ghost predicate Exclusive(s: State) {
    && (forall c: nat, d: nat, i: nat :: Holds(s, c, i) && Holds(s, d, i) ==> c == d)
    && (forall c :: 0 <= c < |s.cpus| ==> Once(s, c))
  }

  /** What processor `c` has deferred is running, and what is current on it is in use. */
  ghost predicate CpuOk(s: State, c: nat)
    requires c < |s.cpus| && RefsOk(s, c)
  {
    && (s.cpus[c].deferred.Some? ==> s.tasks[s.cpus[c].deferred.value].state == Running)
    && (s.cpus[c].current.User? ==> s.tasks[s.cpus[c].current.slot].state != Unused)
  }

  ghost predicate RunningHeld(s: State, i: nat)
    requires i < |s.tasks|
  {
    s.tasks[i].state == Running ==> Held(s, i)
  }

  /** Nobody shares a task: each is held by one processor at most, the deferred ones are running
      and the running ones are held. */
  ghost predicate Sound(s: State) {
    && Shaped(s) && Exclusive(s)
    && (forall c :: 0 <= c < |s.cpus| ==> RefsOk(s, c) && CpuOk(s, c))
    && forall i :: 0 <= i < |s.tasks| ==> RunningHeld(s, i)
  }

  /** The current task of processor `c` is running, or it has exited and the processor is about
      to leave it. */
  ghost predicate Settled(s: State, c: nat)
    requires c < |s.cpus|
  {
    s.cpus[c].current.User? && s.cpus[c].current.slot < |s.tasks| ==>
      s.tasks[s.cpus[c].current.slot].state in {Running, Dead}
  }

  ghost predicate Owned(s: State) {
    Sound(s) && forall c :: 0 <= c < |s.cpus| ==> Settled(s, c)
  }

  /** The running tasks are exactly the live ones that are current or deferred somewhere. */
  lemma RunningExactly(s: State, i: nat)
    requires Owned(s) && i < |s.tasks|
    ensures s.tasks[i].state == Running <==> Held(s, i) && s.tasks[i].state != Dead
  {
    assert RunningHeld(s, i);
    forall c: nat | Holds(s, c, i) ensures s.tasks[i].state in {Running, Dead} {
      assert RefsOk(s, c) && CpuOk(s, c) && Settled(s, c);
    }
  }

  /** A task is current on one processor at most and deferred on none then. */
  lemma OneProcessor(s: State, c: nat, d: nat, i: nat)
    requires Owned(s) && c < |s.cpus| && d < |s.cpus| && s.cpus[c].current == User(i) && Holds(s, d, i)
    ensures c == d && s.cpus[d].deferred != Some(i) && i < |s.tasks| && s.tasks[i].state in {Running, Dead}
  {
    assert Holds(s, c, i) && Once(s, c) && RefsOk(s, c) && Settled(s, c);
  }

  lemma HeldSame(s: State, r: State, i: nat)
    requires forall k: nat :: Holds(r, k, i) <==> Holds(s, k, i)
    ensures Held(r, i) <==> Held(s, i)
  {
  }

  // --------------------------------------------------- the scheduler's pieces

  lemma PublishSound(s: State, c: nat)
    requires c < |s.cpus| && Sound(s)
    ensures RefsOk(s, c) && Sound(Publish(s, c)) && Publish(s, c).cpus[c] == s.cpus[c].(deferred := None)
  {
    assert RefsOk(s, c) && CpuOk(s, c) && Once(s, c);
    if s.cpus[c].deferred.Some? {
      var d := s.cpus[c].deferred.value;
      var r := Publish(s, c);
      assert Holds(s, c, d);
      forall k: nat, i: nat ensures Holds(r, k, i) <==> Holds(s, k, i) && !(k == c && i == d) { }
      forall k | 0 <= k < |r.cpus| ensures RefsOk(r, k) && Once(r, k) && CpuOk(r, k) {
        assert RefsOk(s, k) && Once(s, k) && CpuOk(s, k);
        assert k != c ==> !Holds(s, k, d);
      }
      forall i | 0 <= i < |r.tasks| ensures RunningHeld(r, i) {
        assert RunningHeld(s, i);
        if i != d { HeldSame(s, r, i); }
      }
    }
  }

  lemma SaveSound(s: State, c: nat, frame: Stack)
    requires c < |s.cpus| && Sound(s)
    ensures RefsOk(s, c) && Sound(Save(s, c, frame))
    ensures Save(s, c, frame).cpus == s.cpus && |Save(s, c, frame).tasks| == |s.tasks|
    ensures forall i :: 0 <= i < |s.tasks| ==> Save(s, c, frame).tasks[i].state == s.tasks[i].state
  {
    assert RefsOk(s, c);
    var r := Save(s, c, frame);
    forall k: nat, i: nat ensures Holds(r, k, i) <==> Holds(s, k, i) { }
    forall k | 0 <= k < |r.cpus| ensures RefsOk(r, k) && Once(r, k)
        && CpuOk(r, k) { assert RefsOk(s, k) && Once(s, k) && CpuOk(s, k); }
    forall i | 0 <= i < |r.tasks| ensures RunningHeld(r, i) {
      assert RunningHeld(s, i);
      HeldSame(s, r, i);
    }
  }

  /** Processor `c` has published what it deferred and can switch to the ready task `next`. */
  ghost predicate CanSwitch(s: State, c: nat, next: nat) {
    && c < |s.cpus| && Sound(s) && RefsOk(s, c) && s.cpus[c].deferred.None?
    && next < |s.tasks| && s.tasks[next].state == Ready && s.cpus[c].current != User(next)
  }

  /** The task is current on a processor other than `c`. */
  predicate Elsewhere(s: State, c: nat, i: nat) { exists k ::
       0 <= k < |s.cpus| && k != c && s.cpus[k].current == User(i) }

  lemma SwitchHolds(s: State, c: nat, next: nat, k: nat, i: nat)
    requires CanSwitch(s, c, next)
    ensures Holds(Switch(s, c, next), k, i)
            <==> if k == c then i == next || (StillRunning(s, c) && s.cpus[c].current == User(i)) else Holds(s, k, i)
  {
  }

  /** Nobody holds a ready task that is current nowhere: a deferred one would be running. */
  lemma ReadyFree(s: State, c: nat, next: nat, k: nat)
    requires CanSwitch(s, c, next) && !Elsewhere(s, c, next)
    ensures !Holds(s, k, next)
  {
    if k < |s.cpus| { assert RefsOk(s, k) && CpuOk(s, k); }
  }

  lemma SwitchSound(s: State, c: nat, next: nat)
    requires CanSwitch(s, c, next) && !Elsewhere(s, c, next)
    ensures Sound(Switch(s, c, next))
  {
    var r := Switch(s, c, next);
    forall k: nat ensures !Holds(s, k, next) { ReadyFree(s, c, next, k); }
    forall k: nat, i: nat
      ensures Holds(r, k, i)
              <==> if k == c then i == next || (StillRunning(s, c) && s.cpus[c].current == User(i)) else Holds(s, k, i)
    {
      SwitchHolds(s, c, next, k, i);
    }
    forall k | 0 <= k < |r.cpus| ensures RefsOk(r, k) && Once(r, k) && CpuOk(r, k) {
      assert RefsOk(s, k) && Once(s, k) && CpuOk(s, k);
    }
    forall k: nat, d: nat, i: nat | Holds(r, k, i) && Holds(r, d, i) ensures k == d {
      if i != next { assert Holds(s, k, i) && Holds(s, d, i); }
    }
    forall i | 0 <= i < |r.tasks| ensures RunningHeld(r, i) { SwitchRunning(s, c, next, i); }
  }

  lemma SwitchRunning(s: State, c: nat, next: nat, i: nat)
    requires CanSwitch(s, c, next) && !Elsewhere(s, c, next) && i < |s.tasks|
    ensures RunningHeld(Switch(s, c, next), i)
  {
    var r := Switch(s, c, next);
    assert RunningHeld(s, i);
    if i == next {
      assert Holds(r, c, next);
    } else if s.tasks[i].state == Running {
      var k: nat :| Holds(s, k, i);
      SwitchHolds(s, c, next, k, i);
      assert Holds(r, k, i);
    }
  }

  /** Choosing a task that is current elsewhere makes it current twice. */
  lemma SwitchShares(s: State, c: nat, next: nat)
    requires CanSwitch(s, c, next) && Elsewhere(s, c, next)
    ensures !Exclusive(Switch(s, c, next))
  {
    var k :| 0 <= k < |s.cpus| && k != c && s.cpus[k].current == User(next);
    var r := Switch(s, c, next);
    assert Holds(r, c, next) && Holds(r, k, next);
  }

  lemma IdleSound(s: State, c: nat)
    requires c < |s.cpus| && Sound(s) && RefsOk(s, c) && !StillRunning(s, c) && s.cpus[c].deferred.None?
    ensures Sound(SwitchIdle(s, c))
  {
    var r := SwitchIdle(s, c);
    forall k: nat, i: nat ensures Holds(r, k, i) <==> k != c && Holds(s, k, i) { }
    forall k | 0 <= k < |r.cpus| ensures RefsOk(r, k) && Once(r, k)
        && CpuOk(r, k) { assert RefsOk(s, k) && Once(s, k) && CpuOk(s, k); }
    forall i | 0 <= i < |r.tasks| ensures RunningHeld(r, i) {
      assert RunningHeld(s, i);
      if s.tasks[i].state == Running {
        var k: nat :| Holds(s, k, i);
        assert Holds(r, k, i);
      }
    }
  }

  /** Scheduling on `c` would choose a task that is still current elsewhere. */
  predicate Clash(s: State, c: nat)
    requires c < |s.cpus| && RefsOk(s, c)
  {
    var r := Pick(Publish(s, c).tasks, s.cpus[c].current, 0);
    r.Some? && Elsewhere(s, c, r.value)
  }

  /** Saving the context changes no state, so it does not change the choice. */
  lemma {:induction false} PickSaved(a: seq<Task>, b: seq<Task>, cur: TaskRef, from: nat)
    requires |a| == |b| && forall i :: 0 <= i < |a| ==> a[i].state == b[i].state
    ensures Pick(a, cur, from) == Pick(b, cur, from)
    decreases |a| - from
  {
    if from < |a| { PickSaved(a, b, cur, from + 1); }
  }

  /** Scheduling keeps tasks unshared exactly when it does not choose one that is current
      elsewhere. */
  lemma ScheduleSound(s: State, c: nat, frame: Stack)
    requires c < |s.cpus| && Sound(s)
    ensures Shaped(s) && RefsOk(s, c) && (Sound(Schedule(s, c, frame).0) <==> !Clash(s, c))
    ensures |Schedule(s, c, frame).0.tasks| == |s.tasks| && |Schedule(s, c, frame).0.cpus| == |s.cpus|
  {
    hide Exclusive, CpuOk, RunningHeld;
    PublishSound(s, c);
    SaveSound(Publish(s, c), c, frame);
    var p, s1 := Publish(s, c), Save(Publish(s, c), c, frame);
    var cur := s1.cpus[c].current;
    PickSaved(s1.tasks, p.tasks, cur, 0);
    ElsewherePublished(s, c);
    match Pick(s1.tasks, cur, 0)
    case Some(n) => if Elsewhere(s1, c, n) { SwitchShares(s1, c, n); } else { SwitchSound(s1, c, n); }
    case None => if !StillRunning(s1, c) && !cur.Idle? { IdleSound(s1, c); }
  }

  lemma ElsewherePublished(s: State, c: nat)
    requires c < |s.cpus| && RefsOk(s, c)
    ensures forall i: nat :: Elsewhere(Publish(s, c), c, i) <==> Elsewhere(s, c, i)
  {
    var p := Publish(s, c);
    assert forall k :: 0 <= k < |s.cpus| ==> p.cpus[k].current == s.cpus[k].current;
  }

  /** The scheduling processor settles on what it chose; the others stay as they are. */
  lemma ScheduleSettles(s: State, c: nat, frame: Stack, k: nat)
    requires c < |s.cpus| && Sound(s) && RefsOk(s, c) && !Clash(s, c) && k < |s.cpus| && (k != c ==> Settled(s, k))
    ensures Shaped(s) && k < |Schedule(s, c, frame).0.cpus| && Settled(Schedule(s, c, frame).0, k)
  {
    hide Exclusive, RunningHeld, Pick;
    PublishSound(s, c);
    SaveSound(Publish(s, c), c, frame);
    var p, s1 := Publish(s, c), Save(Publish(s, c), c, frame);
    PickSaved(s1.tasks, p.tasks, s1.cpus[c].current, 0);
    ElsewherePublished(s, c);
    assert RefsOk(s, k);
    if k != c && s.cpus[k].current.User? {
      var i := s.cpus[k].current.slot;
      assert Elsewhere(s, c, i);
      DeferredHere(s, c, k, i);
    }
  }

  lemma DeferredHere(s: State, c: nat, k: nat, i: nat)
    requires Sound(s) && c < |s.cpus| && k < |s.cpus| && k != c && s.cpus[k].current == User(i)
    ensures s.cpus[c].deferred != Some(i)
  {
    assert Holds(s, k, i);
    assert !Holds(s, c, i);
  }

  /** Where every current task is running or dead, none is ready, so none is chosen twice. */
  lemma SettledNoClash(s: State, c: nat)
    requires c < |s.cpus| && Sound(s) && forall k :: 0 <= k < |s.cpus| && k != c ==> Settled(s, k)
    ensures RefsOk(s, c) && !Clash(s, c)
  {
    PublishSound(s, c);
    var r := Pick(Publish(s, c).tasks, s.cpus[c].current, 0);
    if r.Some? {
      forall k | 0 <= k < |s.cpus| && k != c ensures s.cpus[k].current != User(r.value) {
        assert RefsOk(s, k) && Settled(s, k);
        if s.cpus[k].current == User(r.value) { DeferredHere(s, c, k, r.value); }
      }
    }
  }

  /** Scheduling restores ownership on the one processor whose task may have stopped. */
  lemma ScheduleOwned(s: State, c: nat, frame: Stack)
    requires c < |s.cpus| && Sound(s) && forall k :: 0 <= k < |s.cpus| && k != c ==> Settled(s, k)
    ensures Shaped(s) && Owned(Schedule(s, c, frame).0)
    ensures |Schedule(s, c, frame).0.tasks| == |s.tasks| && |Schedule(s, c, frame).0.cpus| == |s.cpus|
  {
    hide Schedule, Sound, Settled, Clash;
    SettledNoClash(s, c);
    ScheduleSound(s, c, frame);
    forall k | 0 <= k < |s.cpus| ensures Settled(Schedule(s, c, frame).0, k) { ScheduleSettles(s, c, frame, k); }
  }

  // ------------------------------------------------------- the other regions

  function MarkDead(s: State, c: nat): State
    requires c < |s.cpus| && RefsOk(s, c) && s.cpus[c].current.User?
  {
    SetState(s, s.cpus[c].current.slot, Dead)
  }

  function Block(s: State, c: nat, tick: nat, input: bool): State
    requires c < |s.cpus| && RefsOk(s, c) && s.cpus[c].current.User?
  {
    var k := s.cpus[c].current.slot;
    SetTask(s, k, s.tasks[k].(state := Blocked, wakeTick := tick, waitInput := input))
  }

  predicate Due(t: Task, now: nat) { t.state == Blocked && !t.waitInput && t.wakeTick != 0 && t.wakeTick <= now }

  function WokenBy(t: Task, now: nat): Task { if Due(t, now) then t.(state := Ready, wakeTick := 0) else t }

  function WakeSleepers(s: State, now: nat): State {
    s.(tasks := seq(|s.tasks|, i requires 0 <= i < |s.tasks| => WokenBy(s.tasks[i], now)))
  }

  function WokenByKey(t: Task): Task { if t.state == Blocked && t.waitInput then t.(state := Ready, waitInput := false)
                      else t }

  function WakeInput(s: State): State {
    s.(tasks := seq(|s.tasks|, i requires 0 <= i < |s.tasks| => WokenByKey(s.tasks[i])))
  }

  /** The first unused slot from `from` on. */
  function FreeSlot(tasks: seq<Task>, from: nat): (r: Option<nat>)
    ensures r.Some? ==> from <= r.value < |tasks| && tasks[r.value].state == Unused
    ensures r.None? ==> forall i :: from <= i < |tasks| ==> tasks[i].state != Unused
    decreases |tasks| - from
  {
    if from >= |tasks| then None else if tasks[from].state == Unused then Some(from) else FreeSlot(tasks, from + 1)
  }

  function SpawnUser(s: State): State {
    match FreeSlot(s.tasks, 0)
    case None => s
    case Some(i) => SetTask(s, i, Task(Ready, 0, false, UserStack(i)))
  }

  // ------------------------------------------------------------------- steps

  /** One region under the run-queue lock. A timer interrupt is `Wake` and later `Reschedule`, an
      exit `Retire` and later `Reschedule`, a sleep or a blocking read `Park` and later
      `Reschedule`; anything may come between. */
  datatype Op =
    | Wake(cpu: nat, now: nat) | Reschedule(cpu: nat) | Retire(cpu: nat)
    | Park(cpu: nat, tick: nat, input: bool) | KeyIrq | Spawn

  /** The processor executes for a running user task. */
  predicate RunsUser(s: State, c: nat) {
    && c < |s.cpus| && s.cpus[c].current.User? && s.cpus[c].current.slot < |s.tasks|
    && s.tasks[s.cpus[c].current.slot].state == Running
  }

  /** Every processor can schedule; only running user tasks make system calls. */
  predicate Enabled(s: State, op: Op) {
    match op
    case Wake(c, _) => c < |s.cpus|
    case Reschedule(c) => c < |s.cpus|
    case Retire(c) => RunsUser(s, c)
    case Park(c, _, _) => RunsUser(s, c)
    case KeyIrq => true
    case Spawn => true
  }

  /** The kernel stack that processor `c` takes interrupts on. */
  function StackOf(s: State, c: nat): Stack
    requires c < |s.cpus|
  {
    match s.cpus[c].current
    case User(i) => UserStack(i)
    case Idle(_) => IdleStack(c)
    case Nobody => IdleStack(c)
  }

  function Step(s: State, op: Op): State
    requires Shaped(s) && Enabled(s, op)
  {
    match op
    case Wake(_, now) => WakeSleepers(s, now)
    case Reschedule(c) => Schedule(s, c, StackOf(s, c)).0
    case Retire(c) => assert RefsOk(s, c); MarkDead(s, c)
    case Park(c, tick, input) => assert RefsOk(s, c); Block(s, c, tick, input)
    case KeyIrq => WakeInput(s)
    case Spawn => SpawnUser(s)
  }

  /** The context that a scheduling processor returns to. */
  function Resumed(s: State, c: nat): Stack
    requires Shaped(s) && c < |s.cpus|
  {
    Schedule(s, c, StackOf(s, c)).1
  }

  /** Every region but the scheduler's leaves the processors alone. */
  lemma RegionShaped(s: State, op: Op)
    requires Shaped(s) && Enabled(s, op) && !op.Reschedule?
    ensures Shaped(Step(s, op)) && Step(s, op).cpus == s.cpus && |Step(s, op).tasks| == |s.tasks|
  {
    var b := Step(s, op);
    if op.Retire? || op.Park? { assert RefsOk(s, op.cpu); }
    assert |b.idle| == |s.idle|;
    forall c | 0 <= c < |b.cpus| ensures RefsOk(b, c) { assert RefsOk(s, c); }
  }

  /** How a region other than the scheduler's changes a task that is running or held. */
  lemma RegionTask(s: State, op: Op, i: nat)
    requires Shaped(s) && Enabled(s, op) && !op.Reschedule? && i < |s.tasks|
    ensures |Step(s, op).tasks| == |s.tasks|
    ensures var t, r := s.tasks[i].state, Step(s, op).tasks[i].state;
            && (r == Running ==> t == Running)
            && (r == Unused ==> t == Unused)
            && (t == Running ==> r == Running || ((op.Retire? || op.Park?) && s.cpus[op.cpu].current == User(i)))
            && (t == Dead ==> r == Dead)
            && (op.Retire? && s.cpus[op.cpu].current == User(i) ==> r == Dead)
  {
    RegionShaped(s, op);
    if op.Retire? || op.Park? { assert RefsOk(s, op.cpu); }
  }

  lemma RegionSound(s: State, op: Op)
    requires Sound(s) && Enabled(s, op) && !op.Reschedule?
    ensures Sound(Step(s, op))
  {
    hide Step;
    var r := Step(s, op);
    RegionShaped(s, op);
    forall k: nat, i: nat ensures Holds(r, k, i) <==> Holds(s, k, i) { }
    forall k | 0 <= k < |r.cpus| ensures RefsOk(r, k) && Once(r, k) && CpuOk(r, k) {
      assert RefsOk(s, k) && Once(s, k) && CpuOk(s, k);
      if s.cpus[k].deferred.Some? { RegionDeferred(s, op, k); }
      if s.cpus[k].current.User? { RegionTask(s, op, s.cpus[k].current.slot); }
    }
    forall i | 0 <= i < |r.tasks| ensures RunningHeld(r, i) {
      assert RunningHeld(s, i);
      RegionTask(s, op, i);
      HeldSame(s, r, i);
    }
  }

  lemma RegionDeferred(s: State, op: Op, k: nat)
    requires Sound(s) && Enabled(s, op) && !op.Reschedule? && k < |s.cpus| && s.cpus[k].deferred.Some?
    ensures RefsOk(s, k) && |Step(s, op).tasks| == |s.tasks| && Step(s, op).tasks[s.cpus[k].deferred.value].state
        == Running
  {
    hide Step;
    assert RefsOk(s, k) && CpuOk(s, k) && Once(s, k);
    var d := s.cpus[k].deferred.value;
    RegionTask(s, op, d);
    if op.Retire? || op.Park? {
      assert Holds(s, k, d);
      assert s.cpus[op.cpu].current == User(d) ==> Holds(s, op.cpu, d);
    }
  }

  /** The step schedules onto a task that is still current on another processor. */
  predicate Clashes(s: State, op: Op)
    requires Shaped(s) && Enabled(s, op)
  {
    op.Reschedule? && (assert RefsOk(s, op.cpu); Clash(s, op.cpu))
  }

  /** A step keeps tasks unshared exactly when it does not clash. */
  lemma StepSound(s: State, op: Op)
    requires Sound(s) && Enabled(s, op)
    ensures Sound(Step(s, op)) <==> !Clashes(s, op)
    ensures |Step(s, op).tasks| == |s.tasks| && |Step(s, op).cpus| == |s.cpus|
  {
    hide Sound, Schedule, Clash;
    SoundShaped(s);
    if op.Reschedule? {
      ScheduleSound(s, op.cpu, StackOf(s, op.cpu));
    } else {
      RegionShaped(s, op);
      RegionSound(s, op);
    }
  }

  lemma SoundShaped(s: State)
    requires Sound(s)
    ensures Shaped(s)
  {
  }

  /** Every step but `Park` keeps ownership: no user task is current on two processors, the running
      tasks are exactly the live ones that are current or deferred somewhere, and a deferred task
      is current nowhere. */
  lemma StepOwned(s: State, op: Op)
    requires Owned(s) && Enabled(s, op) && !op.Park?
    ensures Owned(Step(s, op)) && |Step(s, op).tasks| == |s.tasks| && |Step(s, op).cpus| == |s.cpus|
  {
    hide Sound, Schedule, Step;
    SoundShaped(s);
    if op.Reschedule? {
      OwnedReschedule(s, op);
    } else {
      RegionShaped(s, op);
      RegionSound(s, op);
      forall k | 0 <= k < |s.cpus| ensures Settled(Step(s, op), k) {
        assert RefsOk(s, k) && Settled(s, k);
        if s.cpus[k].current.User? { RegionTask(s, op, s.cpus[k].current.slot); }
      }
    }
  }

  lemma OwnedReschedule(s: State, op: Op)
    requires Sound(s) && op.Reschedule? && Enabled(s, op) && forall k ::
               0 <= k < |s.cpus| && k != op.cpu ==> Settled(s, k)
    ensures Owned(Step(s, op)) && |Step(s, op).tasks| == |s.tasks| && |Step(s, op).cpus| == |s.cpus|
  {
    hide Sound, Schedule;
    ScheduleOwned(s, op.cpu, StackOf(s, op.cpu));
  }

  /** Parking leaves everything settled but the processor that parked, and the scheduling right
      after it settles that one. */
  lemma ParkedOwned(s: State, op: Op)
    requires Owned(s) && Enabled(s, op) && op.Park?
    ensures Sound(Step(s, op)) && Enabled(Step(s, op), Reschedule(op.cpu))
    ensures Owned(Step(Step(s, op), Reschedule(op.cpu)))
  {
    hide Sound, Step;
    SoundShaped(s);
    var r := Step(s, op);
    RegionShaped(s, op);
    RegionSound(s, op);
    forall k | 0 <= k < |r.cpus| && k != op.cpu ensures Settled(r, k) {
      assert RefsOk(s, k) && Settled(s, k);
      if s.cpus[k].current.User? {
        RegionTask(s, op, s.cpus[k].current.slot);
        ParkedElsewhere(s, op, k);
      }
    }
    OwnedReschedule(r, Reschedule(op.cpu));
  }

  lemma ParkedElsewhere(s: State, op: Op, k: nat)
    requires Owned(s) && Enabled(s, op) && op.Park? && k < |s.cpus| && k != op.cpu && s.cpus[k].current.User?
    ensures s.cpus[op.cpu].current != s.cpus[k].current
  {
    assert Holds(s, k, s.cpus[k].current.slot);
    assert !Holds(s, op.cpu, s.cpus[k].current.slot);
  }

  // --------------------------------------------------------------------- runs

  ghost predicate Run(ops: seq<Op>, states: seq<State>) {
    && |states| == |ops| + 1
    && forall n :: 0 <= n < |ops| ==>
         Shaped(states[n]) && Enabled(states[n], ops[n]) && states[n + 1] == Step(states[n], ops[n])
  }

  ghost predicate ClashAt(ops: seq<Op>, states: seq<State>, n: nat)
    requires Run(ops, states) && n < |ops|
  {
    Clashes(states[n], ops[n])
  }

  lemma {:induction false} SoundUpto(ops: seq<Op>, states: seq<State>, n: nat)
    requires Run(ops, states) && Sound(states[0]) && n < |states| && forall k :: 0 <= k < n ==> !ClashAt(ops, states, k)
    ensures Sound(states[n])
    decreases n
  {
    hide Sound, Step, Enabled, Shaped, Clashes;
    if n > 0 {
      SoundUpto(ops, states, n - 1);
      assert !ClashAt(ops, states, n - 1);
      StepSound(states[n - 1], ops[n - 1]);
    }
  }

  /** A run shares no task at any point exactly when no step of it clashes. */
  lemma RunSound(ops: seq<Op>, states: seq<State>)
    requires Run(ops, states) && Sound(states[0])
    ensures (forall n :: 0 <= n < |states| ==> Sound(states[n]))
        <==> (forall n :: 0 <= n < |ops| ==> !ClashAt(ops, states, n))
  {
    hide Sound, Step, Enabled, Shaped, Clashes;
    if forall n :: 0 <= n < |ops| ==> !ClashAt(ops, states, n) {
      forall n | 0 <= n < |states| ensures Sound(states[n]) { SoundUpto(ops, states, n); }
    }
    if forall n :: 0 <= n < |states| ==> Sound(states[n]) {
      forall n | 0 <= n < |ops| ensures !ClashAt(ops, states, n) {
        assert Sound(states[n]) && Sound(states[n + 1]);
        StepSound(states[n], ops[n]);
      }
    }
  }

  /** Blocking and the scheduling after it are not interrupted. */
  ghost predicate Undisturbed(ops: seq<Op>) {
    forall n :: 0 <= n < |ops| && ops[n].Park? ==> n + 1 < |ops| ==> ops[n + 1] == Reschedule(ops[n].cpu)
  }

  lemma NotTwice(ops: seq<Op>, k: nat)
    requires Undisturbed(ops) && k + 1 < |ops|
    ensures ops[k + 1].Park? ==> !ops[k].Park?
  {
  }

  /** In every run in which blocking is undisturbed, ownership holds at every point but between a
      task's blocking and the scheduling after it; no task is shared there either. */
  lemma {:induction false} RunOwned(ops: seq<Op>, states: seq<State>, n: nat)
    requires Run(ops, states) && Owned(states[0]) && Undisturbed(ops) && n < |states|
    ensures Sound(states[n]) && ((n > 0 && ops[n - 1].Park?) || Owned(states[n]))
    decreases n
  {
    hide Sound, Step, Settled, Enabled, Shaped;
    if n > 0 {
      RunOwned(ops, states, n - 1);
      if n > 1 && ops[n - 2].Park? {
        RunOwned(ops, states, n - 2);
        if n > 2 { NotTwice(ops, n - 3); }
        ParkedOwned(states[n - 2], ops[n - 2]);
      } else if ops[n - 1].Park? {
        ParkedOwned(states[n - 1], ops[n - 1]);
      } else {
        StepOwned(states[n - 1], ops[n - 1]);
      }
    }
  }

  // ------------------------------------------------------- what a step changes

  /** Scheduling on `c` keeps the tables' sizes and leaves the other processors alone. */
  lemma ScheduleSize(s: State, c: nat, frame: Stack)
    requires c < |s.cpus| && Shaped(s)
    ensures var r := Schedule(s, c, frame).0;
            && |r.tasks| == |s.tasks| && |r.cpus| == |s.cpus|
            && forall k :: 0 <= k < |s.cpus| && k != c ==> r.cpus[k] == s.cpus[k]
  {
    hide Pick;
    assert RefsOk(s, c);
  }

  /** How scheduling may change a task: a held one is published, a ready one started. */
  lemma ScheduleTask(s: State, c: nat, frame: Stack, i: nat)
    requires c < |s.cpus| && Shaped(s) && i < |s.tasks|
    ensures |Schedule(s, c, frame).0.tasks| == |s.tasks|
    ensures var t, r := s.tasks[i], Schedule(s, c, frame).0.tasks[i];
            && r.wakeTick == t.wakeTick && r.waitInput == t.waitInput
            && (|| r.state == t.state
                || (s.cpus[c].deferred == Some(i) && r.state in {Ready, Running})
                || (t.state == Ready && r.state == Running))
  {
    hide Pick;
    assert RefsOk(s, c);
  }

  /** A task that is not running, as a step changes it. */
  lemma StepIdle(s: State, op: Op, i: nat)
    requires Sound(s) && Enabled(s, op) && i < |s.tasks| && s.tasks[i].state !in {Running, Unused}
    ensures |Step(s, op).tasks| == |s.tasks|
    ensures var t, r := s.tasks[i], Step(s, op).tasks[i];
            var w := match op case Wake(_, now) => WokenBy(t, now) case KeyIrq => WokenByKey(t) case _ => t;
            if op.Reschedule? then
              r.wakeTick == t.wakeTick && r.waitInput == t.waitInput
                  && (r.state == t.state || (t.state == Ready && r.state == Running))
            else r == w
  {
    if op.Retire? || op.Park? { assert RefsOk(s, op.cpu); }
    if op.Reschedule? {
      assert RefsOk(s, op.cpu) && CpuOk(s, op.cpu);
      ScheduleTask(s, op.cpu, StackOf(s, op.cpu), i);
    }
  }

  /** A dead task stays dead. */
  lemma StepDead(s: State, op: Op, i: nat)
    requires Sound(s) && Enabled(s, op) && i < |s.tasks| && s.tasks[i].state == Dead
    ensures |Step(s, op).tasks| == |s.tasks| && Step(s, op).tasks[i].state == Dead
  {
    hide Step;
    StepIdle(s, op, i);
  }

  /** Over every run that shares no task, disturbed or not. */
  lemma {:induction false} RunDead(ops: seq<Op>, states: seq<State>, m: nat, n: nat, i: nat)
    requires Run(ops, states) && (forall k :: 0 <= k < |states| ==> Sound(states[k])) && m <= n < |states|
    requires i < |states[m].tasks| && states[m].tasks[i].state == Dead
    ensures i < |states[n].tasks| && states[n].tasks[i].state == Dead
    decreases n
  {
    hide Sound, Step, Enabled, Shaped;
    if m < n {
      RunDead(ops, states, m, n - 1, i);
      StepDead(states[n - 1], ops[n - 1], i);
    }
  }
}
