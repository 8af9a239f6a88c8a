/** What follows for runs of the scheduler: sleeping and waking, the order of tasks on one
    processor, and what goes wrong when blocking and scheduling are two regions. */
module SchedulerRuns {
  import opened Bytes
  import opened Scheduling

  // ---------------------------------------------------------- sleep and wake

  /** The tick a sleep of `ms` ends at: the clock is 64 bits wide. */
  function SleepTick(uptime: nat, ms: nat): nat { (uptime + ms) % 0x1_0000_0000_0000_0000 }

  /** A blocked task waits for input or for a time, and not for both. */
  predicate WakeOk(t: Task) {
    t.state == Blocked ==> (t.waitInput && t.wakeTick == 0) || (!t.waitInput && t.wakeTick > 0)
  }

  predicate Sleeping(t: Task, tick: nat) { t.state == Blocked && !t.waitInput && t.wakeTick == tick && tick > 0 }

  predicate Listening(t: Task) { t.state == Blocked && t.waitInput }

  ghost predicate AllWakeOk(s: State) { forall i :: 0 <= i < |s.tasks| ==> WakeOk(s.tasks[i]) }

  /** A sleeping task is left alone until a waking at or past its deadline, and is ready right
      after the first one. */
  lemma StepSleeping(s: State, op: Op, i: nat, tick: nat)
    requires Sound(s) && Enabled(s, op) && i < |s.tasks| && Sleeping(s.tasks[i], tick)
    ensures |Step(s, op).tasks| == |s.tasks|
    ensures if op.Wake? && tick <= op.now then Step(s, op).tasks[i].state == Ready
        else Sleeping(Step(s, op).tasks[i], tick)
  {
    hide Step;
    StepIdle(s, op, i);
  }

  /** The same over every run that shares no task. */
  lemma {:induction false} RunSleeping(ops: seq<Op>, states: seq<State>, m: nat, n: nat, i: nat, tick: nat)
    requires Run(ops, states) && (forall k :: 0 <= k < |states| ==> Sound(states[k])) && m <= n < |states|
    requires i < |states[m].tasks| && Sleeping(states[m].tasks[i], tick)
    requires forall k :: m <= k < n ==> !(ops[k].Wake? && tick <= ops[k].now)
    ensures i < |states[n].tasks| && Sleeping(states[n].tasks[i], tick)
    ensures n < |ops| && ops[n].Wake? && tick <= ops[n].now ==>
              i < |states[n + 1].tasks| && states[n + 1].tasks[i].state == Ready
    decreases n
  {
    hide Sound, Step, Enabled, Shaped;
    if m < n {
      RunSleeping(ops, states, m, n - 1, i, tick);
      StepSleeping(states[n - 1], ops[n - 1], i, tick);
    }
    if n < |ops| { StepSleeping(states[n], ops[n], i, tick); }
  }

  /** A task that waits for input is left alone until a key interrupt, and is ready right after
      the first one. */
  lemma StepListening(s: State, op: Op, i: nat)
    requires Sound(s) && Enabled(s, op) && i < |s.tasks| && Listening(s.tasks[i])
    ensures |Step(s, op).tasks| == |s.tasks|
    ensures if op.KeyIrq? then Step(s, op).tasks[i].state == Ready && !Step(s, op).tasks[i].waitInput
        else Listening(Step(s, op).tasks[i])
  {
    hide Step;
    StepIdle(s, op, i);
  }

  lemma {:induction false} RunListening(ops: seq<Op>, states: seq<State>, m: nat, n: nat, i: nat)
    requires Run(ops, states) && (forall k :: 0 <= k < |states| ==> Sound(states[k])) && m <= n < |states|
    requires i < |states[m].tasks| && Listening(states[m].tasks[i])
    requires forall k :: m <= k < n ==> !ops[k].KeyIrq?
    ensures i < |states[n].tasks| && Listening(states[n].tasks[i])
    ensures n < |ops| && ops[n].KeyIrq? ==> i < |states[n + 1].tasks| && states[n + 1].tasks[i].state == Ready
    decreases n
  {
    hide Sound, Step, Enabled, Shaped;
    if m < n {
      RunListening(ops, states, m, n - 1, i);
      StepListening(states[n - 1], ops[n - 1], i);
    }
    if n < |ops| { StepListening(states[n], ops[n], i); }
  }

  /** Parking puts the caller to sleep until its tick, or makes it listen, and leaves every other
      task as it was. */
  lemma ParkedWaits(s: State, c: nat, tick: nat, input: bool)
    requires Shaped(s) && RunsUser(s, c)
    ensures var k, r := s.cpus[c].current.slot, Step(s, Park(c, tick, input));
            && |r.tasks| == |s.tasks|
            && (!input && tick > 0 ==> Sleeping(r.tasks[k], tick))
            && (input ==> Listening(r.tasks[k]))
            && forall i :: 0 <= i < |s.tasks| && i != k ==> r.tasks[i] == s.tasks[i]
  {
    assert RefsOk(s, c);
  }

  /** The scheduler leaves the task it has just parked alone. */
  lemma ParkedStays(s: State, c: nat, tick: nat, input: bool)
    requires Sound(s) && RunsUser(s, c)
    ensures Shaped(s) && Sound(Step(s, Park(c, tick, input)))
    ensures Enabled(Step(s, Park(c, tick, input)), Reschedule(c))
    ensures var k, r := s.cpus[c].current.slot, Step(Step(s, Park(c, tick, input)), Reschedule(c));
            && |r.tasks| == |s.tasks|
            && (!input && tick > 0 ==> Sleeping(r.tasks[k], tick))
            && (input ==> Listening(r.tasks[k]))
  {
    hide Sound, Step, Schedule;
    SoundShaped(s);
    RegionSound(s, Park(c, tick, input));
    RegionShaped(s, Park(c, tick, input));
    ParkedWaits(s, c, tick, input);
    var p, k := Step(s, Park(c, tick, input)), s.cpus[c].current.slot;
    if input { StepListening(p, Reschedule(c), k); } else if tick > 0 { StepSleeping(p, Reschedule(c), k, tick); }
    StepLength(p, c);
  }

  lemma StepLength(p: State, c: nat)
    requires Sound(p) && c < |p.cpus|
    ensures Shaped(p) && |Step(p, Reschedule(c)).tasks| == |p.tasks|
  {
    assert RefsOk(p, c);
  }

  // -------------------------------------------------------------- new tasks

  /** Task `i` is ready with its context on its own stack, waits for nothing, and nobody runs it. */
  ghost predicate Fresh(s: State, i: nat) {
    && i < |s.tasks| && s.tasks[i].state == Ready && s.tasks[i].frame == UserStack(i)
    && s.tasks[i].wakeTick == 0 && !s.tasks[i].waitInput
    && forall c :: 0 <= c < |s.cpus| ==> s.cpus[c].current != User(i)
  }

  /** Spawning makes the lowest unused slot such a task and changes no other; without an unused
      slot it changes nothing. */
  lemma SpawnedFresh(s: State)
    requires Sound(s)
    ensures var r := Step(s, Spawn);
            && r.cpus == s.cpus && r.idle == s.idle && |r.tasks| == |s.tasks|
            && if forall k :: 0 <= k < |s.tasks| ==> s.tasks[k].state != Unused then r == s
               else exists i: nat :: Fresh(r, i) && s.tasks[i].state == Unused
                      && (forall k :: 0 <= k < i ==> s.tasks[k].state != Unused)
                      && forall k :: 0 <= k < |s.tasks| && k != i ==> r.tasks[k] == s.tasks[k]
  {
    hide Fresh;
    var slot := FreeSlot(s.tasks, 0);
    if slot.Some? {
      FirstUnused(s.tasks, 0);
      SpawnedAt(s, slot.value);
    }
  }

  lemma SpawnedAt(s: State, i: nat)
    requires Sound(s) && i < |s.tasks| && s.tasks[i].state == Unused
    requires forall k :: 0 <= k < i ==> s.tasks[k].state != Unused
    ensures Fresh(Step(s, Spawn), i)
  {
    FirstUnused(s.tasks, 0);
    assert FreeSlot(s.tasks, 0) == Some(i);
    forall c | 0 <= c < |s.cpus| ensures s.cpus[c].current != User(i) { assert CpuOk(s, c) && RefsOk(s, c); }
  }

  lemma {:induction false} FirstUnused(tasks: seq<Task>, from: nat)
    requires FreeSlot(tasks, from).Some?
    ensures forall k :: from <= k < FreeSlot(tasks, from).value ==> tasks[k].state != Unused
    decreases |tasks| - from
  {
    if tasks[from].state != Unused { FirstUnused(tasks, from + 1); }
  }

  /** Processor `c` resumed task `i` on its own stack. */
  ghost predicate Started(s: State, op: Op, i: nat)
    requires Shaped(s) && Enabled(s, op)
  {
    && op.Reschedule? && Resumed(s, op.cpu) == UserStack(i) && i < |Step(s, op).tasks|
    && Step(s, op).tasks[i].state == Running && op.cpu < |Step(s, op).cpus|
    && Step(s, op).cpus[op.cpu].current == User(i)
  }

  /** A fresh task stays one until a processor starts it. */
  lemma StepFresh(s: State, op: Op, i: nat)
    requires Sound(s) && Enabled(s, op) && Fresh(s, i)
    ensures Fresh(Step(s, op), i) || Started(s, op, i)
  {
    if op.Reschedule? {
      ScheduleFresh(s, op.cpu, StackOf(s, op.cpu), i);
    } else {
      hide Step;
      StepIdle(s, op, i);
      RegionShaped(s, op);
      RegionFrame(s, op, i);
    }
  }

  lemma RegionFrame(s: State, op: Op, i: nat)
    requires Sound(s) && Enabled(s, op) && !op.Reschedule? && Fresh(s, i)
    ensures |Step(s, op).tasks| == |s.tasks| && Step(s, op).tasks[i].frame == s.tasks[i].frame
    ensures Step(s, op).tasks[i].state == Ready
  {
    if op.Retire? || op.Park? { assert RefsOk(s, op.cpu); }
  }

  lemma ScheduleFresh(s: State, c: nat, frame: Stack, i: nat)
    requires Sound(s) && c < |s.cpus| && Fresh(s, i)
    ensures Shaped(s)
    ensures var (r, next) := Schedule(s, c, frame);
            || Fresh(r, i)
            || (next == UserStack(i) && i < |r.tasks| && r.tasks[i].state == Running && |r.cpus| == |s.cpus|
                && r.cpus[c].current == User(i))
  {
    hide Pick, Publish, Save;
    assert RefsOk(s, c);
    SavedFresh(s, c, frame, i);
  }

  lemma SavedFresh(s: State, c: nat, frame: Stack, i: nat)
    requires Sound(s) && c < |s.cpus| && Fresh(s, i)
    ensures Shaped(s) && RefsOk(s, c) && RefsOk(Publish(s, c), c) && |Publish(s, c).idle| == |Publish(s, c).cpus|
    ensures var r := Save(Publish(s, c), c, frame);
            && Fresh(r, i) && |r.tasks| == |s.tasks| && |r.cpus| == |s.cpus| == |r.idle| && RefsOk(r, c)
  {
    assert RefsOk(s, c) && CpuOk(s, c);
  }

  /** No ready task comes before `i` when processor `c` schedules. */
  ghost predicate Lowest(s: State, c: nat, i: nat)
    requires c < |s.cpus|
  {
    && (forall k :: 0 <= k < i && k < |s.tasks| && s.tasks[k].state == Ready ==> s.cpus[c].current == User(k))
    && (s.cpus[c].deferred.Some? ==> i < s.cpus[c].deferred.value)
  }

  /** The lowest ready task is the one that is started, whichever processor schedules. */
  lemma LowestStarts(s: State, c: nat, i: nat)
    requires Sound(s) && c < |s.cpus| && Fresh(s, i) && Lowest(s, c, i)
    ensures Enabled(s, Reschedule(c)) && Started(s, Reschedule(c), i)
  {
    hide Pick;
    assert RefsOk(s, c) && CpuOk(s, c);
    var s1 := Save(Publish(s, c), c, StackOf(s, c));
    assert s1.tasks[i].state == Ready && s1.cpus[c].current == s.cpus[c].current;
    assert Pick(s1.tasks, s1.cpus[c].current, 0) == Some(i) by { PickLowest(s1.tasks, s1.cpus[c].current, i, 0); }
  }

  lemma {:induction false} PickLowest(tasks: seq<Task>, cur: TaskRef, i: nat, from: nat)
    requires from <= i < |tasks| && tasks[i].state == Ready && cur != User(i)
    requires forall k :: from <= k < i && tasks[k].state == Ready ==> cur == User(k)
    ensures Pick(tasks, cur, from) == Some(i)
    decreases i - from
  {
    if from < i { PickLowest(tasks, cur, i, from + 1); }
  }

  /** Over every run that shares no task: a spawned task stays ready, on its own stack, until a
      processor starts it, and the first one to schedule when it is the lowest does. */
  lemma {:induction false} RunSpawned(ops: seq<Op>, states: seq<State>, m: nat, n: nat, i: nat)
    requires Run(ops, states) && (forall k :: 0 <= k < |states| ==> Sound(states[k])) && m < n < |ops|
    requires ops[m] == Spawn && i < |states[m].tasks| && states[m].tasks[i].state == Unused
    requires forall k :: 0 <= k < i ==> states[m].tasks[k].state != Unused
    requires forall k :: m < k < n ==> !Started(states[k], ops[k], i)
    ensures Fresh(states[n], i)
    ensures ops[n].Reschedule? && Lowest(states[n], ops[n].cpu, i) ==> Started(states[n], ops[n], i)
    decreases n
  {
    hide Sound, Step, Schedule, Fresh, Started;
    if n == m + 1 {
      SpawnedAt(states[m], i);
    } else {
      RunSpawned(ops, states, m, n - 1, i);
      StepFresh(states[n - 1], ops[n - 1], i);
    }
    if ops[n].Reschedule? && Lowest(states[n], ops[n].cpu, i) { LowestStarts(states[n], ops[n].cpu, i); }
  }

  /** A task parks for input or until a tick other than zero. */
  predicate ParksWell(op: Op) { op.Park? ==> (op.input <==> op.tick == 0) }

  /** Every blocked task keeps exactly one way to wake up. */
  lemma StepWakeOk(s: State, op: Op)
    requires Shaped(s) && Enabled(s, op) && AllWakeOk(s) && ParksWell(op)
    ensures AllWakeOk(Step(s, op))
  {
    hide Schedule;
    if op.Reschedule? {
      ScheduleSize(s, op.cpu, StackOf(s, op.cpu));
      forall i | 0 <= i < |s.tasks| ensures WakeOk(Step(s, op).tasks[i]) { ScheduleTask(s, op.cpu, StackOf(s, op.cpu),
          i); }
    } else {
      RegionShaped(s, op);
      if op.Retire? || op.Park? { assert RefsOk(s, op.cpu); }
    }
  }

  /** At every point of every run, each blocked task waits for exactly one thing. */
  lemma {:induction false} RunWakeOk(ops: seq<Op>, states: seq<State>, n: nat)
    requires Run(ops, states) && AllWakeOk(states[0]) && n < |states|
    requires forall k :: 0 <= k < |ops| ==> ParksWell(ops[k])
    ensures AllWakeOk(states[n])
    decreases n
  {
    hide Step, Enabled, Shaped, AllWakeOk, ParksWell;
    if n > 0 {
      RunWakeOk(ops, states, n - 1);
      StepWakeOk(states[n - 1], ops[n - 1]);
    }
  }

  /** A sleep that wraps around to tick zero is never woken, by anything. */
  predicate Stuck(t: Task) { t.state == Blocked && !t.waitInput && t.wakeTick == 0 }

  lemma StepStuck(s: State, op: Op, i: nat)
    requires Sound(s) && Enabled(s, op) && i < |s.tasks| && Stuck(s.tasks[i])
    ensures |Step(s, op).tasks| == |s.tasks| && Stuck(Step(s, op).tasks[i])
  {
    hide Step;
    StepIdle(s, op, i);
  }

  /** The tick is the deadline exactly when the clock does not overflow. */
  lemma TickExact(uptime: nat, ms: nat)
    requires uptime < 0x1_0000_0000_0000_0000 && ms < 0x1_0000_0000_0000_0000 && ms > 0
    ensures SleepTick(uptime, ms) == uptime + ms <==> uptime + ms < 0x1_0000_0000_0000_0000
    ensures uptime + ms >= 0x1_0000_0000_0000_0000 ==> SleepTick(uptime, ms) < uptime
    ensures SleepTick(uptime, ms) == 0 <==> uptime + ms == 0x1_0000_0000_0000_0000
  {
  }

  // ------------------------------------------------- blocking as two regions

  /** Two processors; task 0 runs on the first and the second is idle. Task 0 blocks on input, a key
      interrupt wakes it before the first processor schedules, and the second one picks it. */
  function SplitTrace(n: nat): State {
    var idle := [Task(Unused, 0, false, IdleStack(0)), Task(Running, 0, false, IdleStack(1))];
    var t := Task(Running, 0, false, UserStack(0));
    if n == 0 then State([t], idle, [PerCpu(User(0), None), PerCpu(Idle(1), None)])
    else if n == 1 then State([t.(state := Blocked, waitInput := true)], idle,
        [PerCpu(User(0), None), PerCpu(Idle(1), None)])
    else if n == 2 then State([t.(state := Ready)], idle, [PerCpu(User(0), None), PerCpu(Idle(1), None)])
    else State([t], idle, [PerCpu(User(0), None), PerCpu(User(0), None)])
  }

  lemma SplitShaped(n: nat)
    ensures Shaped(SplitTrace(n))
  {
    assert RefsOk(SplitTrace(n), 0) && RefsOk(SplitTrace(n), 1);
  }

  lemma SplitStart()
    ensures Owned(SplitTrace(0))
  {
    var s := SplitTrace(0);
    SplitShaped(0);
    assert Holds(s, 0, 0);
    assert RefsOk(s, 0) && RefsOk(s, 1) && CpuOk(s, 0) && CpuOk(s, 1) && Once(s, 0) && Once(s, 1) && Settled(s, 0)
        && Settled(s, 1);
    assert RunningHeld(s, 0);
  }

  lemma SplitChoice()
    ensures Shaped(SplitTrace(2)) && Enabled(SplitTrace(2), Reschedule(1)) && Clashes(SplitTrace(2), Reschedule(1))
    ensures Step(SplitTrace(2), Reschedule(1)) == SplitTrace(3)
  {
    SplitShaped(2);
    var s := SplitTrace(2);
    assert RefsOk(s, 1);
    assert s.cpus[0].current == User(0);
    assert Pick(s.tasks, Idle(1), 0) == Some(0);
  }

  /** A run from an owned state whose last step clashes: the task is then current twice. */
  lemma SplitBlocking()
    ensures var ops := [Park(0, 0, true), KeyIrq, Reschedule(1)];
            var states := [SplitTrace(0), SplitTrace(1), SplitTrace(2), SplitTrace(3)];
            && Run(ops, states) && Owned(states[0]) && ClashAt(ops, states, 2)
            && |states[3].cpus| == 2 && states[3].cpus[0].current == states[3].cpus[1].current == User(0)
  {
    SplitStart();
    SplitShaped(0);
    SplitShaped(1);
    SplitChoice();
    assert RefsOk(SplitTrace(0), 0);
    assert Step(SplitTrace(0), Park(0, 0, true)) == SplitTrace(1);
    assert Step(SplitTrace(1), KeyIrq) == SplitTrace(2);
  }

  // ------------------------------------------------ order on one processor

  /** Task `a` runs, task `b` is next: it is ready, or was switched away from last time. Every
      other task either has a higher slot than both or is not going to be ready. */
  ghost predicate Turn(s: State, a: nat, b: nat) {
    && |s.cpus| == 1 && Shaped(s) && a < |s.tasks| && b < |s.tasks| && a != b
    && s.cpus[0].current == User(a) && s.tasks[a].state == Running
    && ((s.cpus[0].deferred == None && s.tasks[b].state == Ready) || s.cpus[0].deferred == Some(b))
    && forall i :: 0 <= i < |s.tasks| && i != a && i != b ==> Later(s, a, b, i)
  }

  ghost predicate Later(s: State, a: nat, b: nat, i: nat)
    requires i < |s.tasks|
  {
    (i > a && i > b) || s.tasks[i].state in {Unused, Dead} || (s.tasks[i].state == Blocked && s.tasks[i].waitInput)
  }

  /** A timer interrupt on a machine with one processor: nothing comes between its two regions. */
  function Tick(s: State, now: nat): State
    requires Shaped(s) && |s.cpus| == 1
  {
    RegionShaped(s, Wake(0, now));
    Step(Step(s, Wake(0, now)), Reschedule(0))
  }

  lemma TurnWake(s: State, a: nat, b: nat, now: nat)
    requires Turn(s, a, b)
    ensures Turn(WakeSleepers(s, now), a, b)
  {
    var w := WakeSleepers(s, now);
    assert RefsOk(s, 0);
    assert RefsOk(w, 0);
    forall i | 0 <= i < |w.tasks| && i != a && i != b ensures Later(w, a, b, i) { assert Later(s, a, b, i); }
  }

  lemma TurnSwitch(s: State, a: nat, b: nat)
    requires Turn(s, a, b)
    ensures var r := Schedule(s, 0, UserStack(a)).0;
            && Turn(r, b, a) && |r.tasks| == |s.tasks|
            && forall i :: 0 <= i < |s.tasks| && i != a && i != b ==> r.tasks[i] == s.tasks[i]
  {
    hide Pick;
    assert RefsOk(s, 0);
    var s1 := Save(Publish(s, 0), 0, UserStack(a));
    assert s1.tasks[b].state == Ready && s1.tasks[a].state == Running;
    forall i | 0 <= i < |s.tasks| && i != a && i != b ensures s1.tasks[i] == s.tasks[i]
        && Later(s1, a, b, i) { assert Later(s, a, b, i); }
    TurnPick(s1, a, b);
    var r := Switch(s1, 0, b);
    assert RefsOk(r, 0);
    forall i | 0 <= i < |r.tasks| && i != a && i != b ensures Later(r, b, a, i) { assert Later(s1, a, b, i); }
  }

  /** A timer tick hands the processor from `a` to `b`, and a third task that is ready stays so. */
  lemma TurnTick(s: State, a: nat, b: nat, now: nat)
    requires Turn(s, a, b)
    ensures Turn(Tick(s, now), b, a) && |Tick(s, now).tasks| == |s.tasks|
    ensures forall i ::
              0 <= i < |s.tasks| && i != a && i != b && s.tasks[i].state == Ready ==>
                Tick(s, now).tasks[i].state == Ready
  {
    hide Schedule, Later;
    TurnWake(s, a, b, now);
    TurnSwitch(WakeSleepers(s, now), a, b);
  }

  lemma TurnPick(s: State, a: nat, b: nat)
    requires a < |s.tasks| && b < |s.tasks| && a != b && s.tasks[b].state == Ready
    requires forall i :: 0 <= i < |s.tasks| && i != a && i != b ==> Later(s, a, b, i)
    ensures Pick(s.tasks, User(a), 0) == Some(b)
  {
    forall i | 0 <= i < b ensures s.tasks[i].state != Ready || i == a {
      if i != a { assert Later(s, a, b, i); }
    }
  }

  ghost predicate TickRun(states: seq<State>, nows: seq<nat>) {
    && |states| == |nows| + 1
    && forall n :: 0 <= n < |nows| ==>
         Shaped(states[n]) && |states[n].cpus| == 1 && states[n + 1] == Tick(states[n], nows[n])
  }

  /** Two tasks alternate strictly, however long the ticks go on. */
  lemma {:induction false} Alternate(states: seq<State>, nows: seq<nat>, a: nat, b: nat)
    requires TickRun(states, nows) && Turn(states[0], a, b)
    ensures forall n :: 0 <= n < |states| ==> if n % 2 == 0 then Turn(states[n], a, b) else Turn(states[n], b, a)
    decreases |nows|
  {
    hide Turn, Tick, Shaped;
    if nows != [] {
      var m := |nows| - 1;
      Alternate(states[..m + 1], nows[..m], a, b);
      assert states[..m + 1][m] == states[m];
      assert if m % 2 == 0 then Turn(states[m], a, b) else Turn(states[m], b, a);
      if m % 2 == 0 { TurnTick(states[m], a, b, nows[m]); } else { TurnTick(states[m], b, a, nows[m]); }
      forall n | 0 <= n < |states| ensures if n % 2 == 0 then Turn(states[n], a, b) else Turn(states[n], b, a) {
        if n < m + 1 { assert states[..m + 1][n] == states[n]; }
      }
    }
  }

  /** Starvation: a third task that is ready stays ready over any number of ticks and is never
      chosen. */
  lemma {:induction false} NeverChosen(states: seq<State>, nows: seq<nat>, a: nat, b: nat, c: nat, n: nat)
    requires TickRun(states, nows) && Turn(states[0], a, b) && c != a && c != b && n < |states|
    requires c < |states[0].tasks| && states[0].tasks[c].state == Ready
    ensures c < |states[n].tasks| && states[n].tasks[c].state == Ready
    ensures |states[n].cpus| == 1 && states[n].cpus[0].current == User(if n % 2 == 0 then a else b)
    decreases n
  {
    Alternate(states, nows, a, b);
    if n > 0 {
      hide Tick;
      NeverChosen(states, nows, a, b, c, n - 1);
      var m := n - 1;
      if m % 2 == 0 { TurnTick(states[m], a, b, nows[m]); } else { TurnTick(states[m], b, a, nows[m]); }
    }
  }
}
