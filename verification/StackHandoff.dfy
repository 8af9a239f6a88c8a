/** Which kernel stack each processor executes on. Scheduling and the return to the chosen
    context are separate steps, so for a while a processor is still on the stack of the task it
    has switched away from. */
module StackHandoff {
  import opened Bytes
  import opened Scheduling

  /** `exec` is the kernel stack a processor executes on, none in user mode; `next` is the stack
      it is going to return to once the scheduler has chosen. */
  datatype Machine = Machine(s: State, exec: seq<Option<Stack>>, next: seq<Option<Stack>>)

  datatype Move =
    | Enter(cpu: nat)            // an interrupt or a system call arrives
    | Region(cpu: nat, op: Op)   // the processor wakes sleepers, or stops its task
    | Decide(cpu: nat)           // the scheduler runs
    | Adopt(cpu: nat)            // the processor takes over the chosen stack
    | Leave(cpu: nat)            // it returns to user mode
    | Outside(op: Op)            // a spawn or a key interrupt

  ghost predicate Sized(m: Machine) { |m.exec| == |m.next| == |m.s.cpus| && Shaped(m.s) }

  /** The processor is in the kernel and has not chosen what to return to. */
  predicate Undecided(m: Machine, c: nat) { c < |m.exec| && c < |m.next| && m.exec[c].Some? && m.next[c].None? }

  predicate Possible(m: Machine, mv: Move)
    requires |m.exec| == |m.next| == |m.s.cpus|
  {
    match mv
    case Enter(c) => c < |m.exec| && m.exec[c].None? && m.next[c].None?
    case Region(c, op) => Undecided(m, c) && (op.Wake? || op.Retire? || op.Park?) && op.cpu == c && Enabled(m.s, op)
    case Decide(c) => Undecided(m, c)
    case Adopt(c) => c < |m.exec| && m.next[c].Some?
    case Leave(c) => Undecided(m, c) && m.exec[c].value.UserStack?
    case Outside(op) => op.KeyIrq? || op.Spawn?
  }

  function Moved(m: Machine, mv: Move): Machine
    requires Sized(m) && Possible(m, mv)
  {
    match mv
    case Enter(c) => m.(exec := m.exec[c := Some(StackOf(m.s, c))])
    case Region(_, op) => m.(s := Step(m.s, op))
    case Decide(c) =>
      var r := Schedule(m.s, c, m.exec[c].value);
      m.(s := r.0, next := m.next[c := Some(r.1)])
    case Adopt(c) => m.(exec := m.exec[c := m.next[c]], next := m.next[c := None])
    case Leave(c) => m.(exec := m.exec[c := None])
    case Outside(op) => m.(s := Step(m.s, op))
  }

  /** The move does not block a task. */
  predicate NonBlocking(mv: Move) { mv.Region? ==> !mv.op.Park? }

  // -------------------------------------------------------------- invariant

  /** Every saved context lies on its own task's stack. */
  ghost predicate FramesOwn(s: State) {
    && (forall i :: 0 <= i < |s.tasks| ==> s.tasks[i].frame == UserStack(i))
    && (forall c :: 0 <= c < |s.idle| ==> s.idle[c].frame == IdleStack(c))
  }

  /** Processor `c` holds task `i`, or the task is dead and left by everybody. */
  ghost predicate HeldOrGone(s: State, c: nat, i: nat)
    requires i < |s.tasks|
  {
    Holds(s, c, i) || (s.tasks[i].state == Dead && !Held(s, i))
  }

  /** A processor is on the stack of a task it holds, of a dead one that nobody holds, or on its
      own idle stack; unless it has just decided, that is its current task's stack. */
  ghost predicate Placed(m: Machine, c: nat)
    requires Sized(m) && c < |m.exec|
  {
    && (m.exec[c].Some? && m.exec[c].value.IdleStack? ==> m.exec[c].value.cpu == c)
    && (m.exec[c].Some? && m.exec[c].value.UserStack? ==>
          m.exec[c].value.slot < |m.s.tasks| && HeldOrGone(m.s, c, m.exec[c].value.slot))
    && (m.exec[c].Some? && m.next[c].None? ==> m.exec[c].value == StackOf(m.s, c))
    && (m.next[c].Some? ==> m.next[c].value == StackOf(m.s, c))
  }

  /** No two processors execute on one kernel stack. */
  ghost predicate Unshared(m: Machine)
    requires Sized(m)
  {
    forall c, d :: 0 <= c < |m.exec| && 0 <= d < |m.exec| && c != d && m.exec[c].Some? ==> m.exec[c] != m.exec[d]
  }

  ghost predicate Safe(m: Machine) {
    && Sized(m) && Owned(m.s) && FramesOwn(m.s) && Unshared(m)
    && forall c :: 0 <= c < |m.exec| ==> Placed(m, c)
  }

  /** A stack that a processor may take over is nobody else's. */
  lemma MineAlone(m: Machine, c: nat, d: nat)
    requires Safe(m) && c < |m.exec| && d < |m.exec| && c != d
    ensures m.exec[d] != Some(StackOf(m.s, c))
  {
    assert Placed(m, d) && RefsOk(m.s, c);
    match m.s.cpus[c].current
    case User(k) =>
      assert Holds(m.s, c, k) && Held(m.s, k);
    case _ =>
  }

  lemma TakeOver(m: Machine, c: nat)
    requires Safe(m) && c < |m.exec|
    ensures Safe(m.(exec := m.exec[c := Some(StackOf(m.s, c))], next := m.next[c := None]))
  {
    hide Owned, FramesOwn;
    var r := m.(exec := m.exec[c := Some(StackOf(m.s, c))], next := m.next[c := None]);
    assert RefsOk(m.s, c);
    forall k | 0 <= k < |r.exec| ensures Placed(r, k) { assert Placed(m, k); }
    forall k, d | 0 <= k < |r.exec| && 0 <= d < |r.exec| && k != d && r.exec[k].Some? ensures r.exec[k] != r.exec[d] {
      if k == c { MineAlone(m, c, d); } else if d == c { MineAlone(m, c, k); }
    }
  }

  // ------------------------------------------------------------ deciding

  lemma FramesKept(s: State, op: Op)
    requires Shaped(s) && Enabled(s, op) && !op.Reschedule? && FramesOwn(s)
    ensures FramesOwn(Step(s, op))
  {
    if op.Retire? || op.Park? { assert RefsOk(s, op.cpu); }
  }

  lemma FramesSaved(s: State, c: nat)
    requires Shaped(s) && c < |s.cpus| && FramesOwn(s)
    ensures RefsOk(s, c) && RefsOk(Publish(s, c), c)
    ensures var s1 := Save(Publish(s, c), c, StackOf(s, c));
            && FramesOwn(s1) && s1.cpus[c].current == s.cpus[c].current
            && |s1.cpus| == |s.cpus| && |s1.idle| == |s.idle| && |s1.tasks| == |s.tasks|
  {
    assert RefsOk(s, c);
  }

  /** The scheduler returns a context of the task it made current. */
  lemma FramesAfter(s: State, c: nat)
    requires Shaped(s) && c < |s.cpus| && FramesOwn(s)
    ensures var r := Schedule(s, c, StackOf(s, c));
            |r.0.cpus| == |s.cpus| && FramesOwn(r.0) && r.1 == StackOf(r.0, c)
  {
    hide Publish, Save, Pick;
    FramesSaved(s, c);
  }

  /** What scheduling does to who holds a task. */
  lemma ScheduleHolds(s: State, c: nat, frame: Stack, i: nat)
    requires Shaped(s) && c < |s.cpus| && i < |s.tasks|
    ensures var r := Schedule(s, c, frame).0;
            && (RunsAlone(s, c, i) ==> Holds(r, c, i))
            && (Holds(r, c, i) ==> Holds(s, c, i) || s.tasks[i].state == Ready)
  {
    hide Pick;
    assert RefsOk(s, c);
  }

  /** The processor runs the user task and has not also deferred it. */
  predicate RunsAlone(s: State, c: nat, i: nat)
    requires c < |s.cpus| && i < |s.tasks|
  {
    s.cpus[c].current == User(i) && s.tasks[i].state == Running && s.cpus[c].deferred != Some(i)
  }

  /** After scheduling on `c` a processor still holds the task whose stack it is on, or the task is
      dead and left. */
  lemma HoldsAfter(s: State, c: nat, k: nat, i: nat)
    requires Owned(s) && c < |s.cpus| && i < |s.tasks| && HeldOrGone(s, k, i)
    requires k == c && Holds(s, c, i) ==> s.cpus[c].current == User(i)
    ensures var r := Schedule(s, c, StackOf(s, c)).0;
            i < |r.tasks| && HeldOrGone(r, k, i)
  {
    hide Schedule;
    var r := Schedule(s, c, StackOf(s, c)).0;
    RunningExactly(s, i);
    assert RefsOk(s, c) && Once(s, c);
    ScheduleSize(s, c, StackOf(s, c));
    ScheduleHolds(s, c, StackOf(s, c), i);
    if s.tasks[i].state == Dead {
      StepDead(s, Reschedule(c), i);
      if !Holds(r, k, i) {
        forall d: nat ensures !Holds(r, d, i) {
          assert Holds(s, k, i) && Holds(s, d, i) ==> d == k;
          assert !Holds(s, k, i) ==> !Holds(s, d, i);
        }
      }
    } else {
      assert Held(s, i);
    }
  }

  lemma PlacedAfter(m: Machine, c: nat, k: nat)
    requires Safe(m) && Possible(m, Decide(c)) && k < |m.exec|
    ensures Sized(Moved(m, Decide(c))) && Placed(Moved(m, Decide(c)), k)
  {
    hide Schedule, FramesOwn, Unshared, Owned, HeldOrGone;
    assert Placed(m, k) && Placed(m, c);
    var r := Moved(m, Decide(c));
    FramesAfter(m.s, c);
    StepOwned(m.s, Reschedule(c));
    ShapedWhenOwned(r.s);
    ScheduleSize(m.s, c, StackOf(m.s, c));
    if m.exec[k].Some? && m.exec[k].value.UserStack? { HoldsAfter(m.s, c, k, m.exec[k].value.slot); }
  }

  lemma ShapedWhenOwned(s: State)
    requires Owned(s)
    ensures Shaped(s)
  {
  }

  lemma DecideSafe(m: Machine, c: nat)
    requires Safe(m) && Possible(m, Decide(c))
    ensures Safe(Moved(m, Decide(c)))
  {
    hide Schedule, Owned, FramesOwn;
    assert Placed(m, c);
    FramesAfter(m.s, c);
    StepOwned(m.s, Reschedule(c));
    PlacedAfter(m, c, c);
    forall k | 0 <= k < |m.exec| ensures Sized(Moved(m, Decide(c)))
        && Placed(Moved(m, Decide(c)), k) { PlacedAfter(m, c, k); }
  }

  /** A region in which nobody is chosen leaves every processor where it is. */
  lemma RegionSafe(m: Machine, op: Op)
    requires Safe(m) && Enabled(m.s, op) && !op.Reschedule? && !op.Park?
    ensures Safe(m.(s := Step(m.s, op)))
  {
    hide FramesOwn, Step;
    RegionShaped(m.s, op);
    FramesKept(m.s, op);
    StepOwned(m.s, op);
    var r := m.(s := Step(m.s, op));
    forall k | 0 <= k < |m.exec| ensures Placed(r, k) {
      assert Placed(m, k);
      if m.exec[k].Some? && m.exec[k].value.UserStack? {
        var i := m.exec[k].value.slot;
        forall d: nat ensures Holds(r.s, d, i) <==> Holds(m.s, d, i) { }
        HeldSame(m.s, r.s, i);
        if m.s.tasks[i].state == Dead { StepDead(m.s, op, i); }
      }
    }
  }

  /** Every move without blocking keeps all stacks apart. */
  lemma MoveSafe(m: Machine, mv: Move)
    requires Safe(m) && Possible(m, mv) && NonBlocking(mv)
    ensures Safe(Moved(m, mv))
  {
    match mv
    case Enter(c) => TakeOver(m, c);
      assert m.next[c := None] == m.next;
    case Region(_, op) => RegionSafe(m, op);
    case Decide(c) => DecideSafe(m, c);
    case Adopt(c) => assert Placed(m, c); TakeOver(m, c);
    case Leave(c) =>
      var r := Moved(m, mv);
      forall k | 0 <= k < |r.exec| ensures Placed(r, k) { assert Placed(m, k); }
    case Outside(op) => RegionSafe(m, op);
  }

  ghost predicate MoveRun(mvs: seq<Move>, ms: seq<Machine>) {
    && |ms| == |mvs| + 1
    && forall n :: 0 <= n < |mvs| ==> Sized(ms[n]) && Possible(ms[n], mvs[n]) && ms[n + 1] == Moved(ms[n], mvs[n])
  }

  /** In every run without blocking calls no two processors are ever on one kernel stack. */
  lemma {:induction false} RunSafe(mvs: seq<Move>, ms: seq<Machine>)
    requires MoveRun(mvs, ms) && Safe(ms[0]) && forall n :: 0 <= n < |mvs| ==> NonBlocking(mvs[n])
    ensures Safe(ms[|mvs|])
    decreases |mvs|
  {
    hide Safe, Moved, Possible, NonBlocking, Sized;
    if mvs != [] {
      var k := |mvs| - 1;
      RunSafe(mvs[..k], ms[..k + 1]);
      MoveSafe(ms[k], mvs[k]);
    }
  }

  /** A running task only becomes ready again when no processor is on its stack. */
  lemma PublishedLate(m: Machine, mv: Move, i: nat, c: nat)
    requires Safe(m) && Possible(m, mv) && NonBlocking(mv) && i < |m.s.tasks| && c < |m.exec|
    requires m.s.tasks[i].state == Running && i < |Moved(m, mv).s.tasks| && Moved(m, mv).s.tasks[i].state == Ready
    ensures m.exec[c] != Some(UserStack(i))
  {
    hide Schedule;
    match mv
    case Decide(k) => DecidePublishes(m, k, i, c);
    case _ =>
  }

  lemma DecidePublishes(m: Machine, k: nat, i: nat, c: nat)
    requires Safe(m) && Possible(m, Decide(k)) && i < |m.s.tasks| && c < |m.exec| && m.s.tasks[i].state == Running
    requires i < |Moved(m, Decide(k)).s.tasks| && Moved(m, Decide(k)).s.tasks[i].state == Ready
    ensures m.exec[c] != Some(UserStack(i))
  {
    hide Schedule, FramesOwn;
    RunningExactly(m.s, i);
    assert Placed(m, c) && Placed(m, k) && RefsOk(m.s, k) && Once(m.s, k);
    ScheduleTask(m.s, k, m.exec[k].value, i);
    assert m.s.cpus[k].deferred == Some(i) && Holds(m.s, k, i);
  }

  // ------------------------------------------------- all moves, exactly

  /** Where a processor is and where it goes: its own idle stack or the stack of a task. */
  ghost predicate OnStack(m: Machine, c: nat)
    requires Sized(m) && c < |m.exec|
  {
    && (m.exec[c].Some? && m.exec[c].value.IdleStack? ==> m.exec[c].value.cpu == c)
    && (m.exec[c].Some? && m.next[c].None? ==> m.exec[c].value == StackOf(m.s, c))
    && (m.next[c].Some? ==> m.next[c].value == StackOf(m.s, c))
  }

  /** Nobody else is on the stack that processor `c` is on or going to. */
  ghost predicate Alone(m: Machine, c: nat, d: nat)
    requires Sized(m) && c < |m.exec| && d < |m.exec|
  {
    c != d ==> m.exec[d] != Some(StackOf(m.s, c)) && (m.exec[c].Some? ==> m.exec[c] != m.exec[d])
  }

  /** No task and no stack is shared, now or when the chosen stacks are taken over. */
  ghost predicate Apart(m: Machine) {
    && Sized(m) && Sound(m.s) && FramesOwn(m.s)
    && (forall c :: 0 <= c < |m.exec| ==> OnStack(m, c))
    && forall c, d :: 0 <= c < |m.exec| && 0 <= d < |m.exec| ==> Alone(m, c, d)
  }

  lemma SafeApart(m: Machine)
    requires Safe(m)
    ensures Apart(m)
  {
    forall c | 0 <= c < |m.exec| ensures OnStack(m, c) { assert Placed(m, c); }
    forall c, d | 0 <= c < |m.exec| && 0 <= d < |m.exec| ensures Alone(m, c, d) { if c != d { MineAlone(m, c, d); } }
  }

  /** The task that scheduling on `c` would switch to. */
  function Choice(s: State, c: nat): Option<nat>
    requires Shaped(s) && c < |s.cpus|
  {
    assert RefsOk(s, c);
    Pick(Publish(s, c).tasks, s.cpus[c].current, 0)
  }

  /** The processor chooses a task that is current elsewhere, or whose stack somebody is still
      on. */
  ghost predicate Takes(m: Machine, mv: Move)
    requires Sized(m)
  {
    && mv.Decide? && mv.cpu < |m.exec| && Choice(m.s, mv.cpu).Some?
    && var i := Choice(m.s, mv.cpu).value;
       Elsewhere(m.s, mv.cpu, i) || exists d :: 0 <= d < |m.exec| && d != mv.cpu && m.exec[d] == Some(UserStack(i))
  }

  /** What the scheduling processor goes to: the chosen task, or what it has, or its idle stack. */
  lemma ChosenStack(s: State, c: nat)
    requires Sound(s) && c < |s.cpus|
    ensures Shaped(s)
    ensures var r := Schedule(s, c, StackOf(s, c)).0;
            && c < |r.cpus|
            && match Choice(s, c)
               case Some(i) => StackOf(r, c) == UserStack(i)
               case None => StackOf(r, c) == StackOf(s, c) || StackOf(r, c) == IdleStack(c)
  {
    hide Sound;
    SoundShaped(s);
    assert RefsOk(s, c);
    var p := Publish(s, c);
    PickSaved(Save(p, c, StackOf(s, c)).tasks, p.tasks, s.cpus[c].current, 0);
  }

  lemma DecideApart(m: Machine, c: nat)
    requires Apart(m) && Possible(m, Decide(c))
    ensures Apart(Moved(m, Decide(c))) <==> !Takes(m, Decide(c))
  {
    hide Schedule, FramesOwn, Sound, Choice, Pick;
    var r := Moved(m, Decide(c));
    assert OnStack(m, c);
    ScheduleSound(m.s, c, StackOf(m.s, c));
    ScheduleSize(m.s, c, StackOf(m.s, c));
    FramesAfter(m.s, c);
    ChosenStack(m.s, c);
    ClashChoice(m.s, c);
    if Sound(r.s) {
      SoundShaped(r.s);
      forall k | 0 <= k < |r.exec| ensures OnStack(r, k) { assert OnStack(m, k); }
      if !Takes(m, Decide(c)) {
        forall k, d | 0 <= k < |r.exec| && 0 <= d < |r.exec| ensures Alone(r, k, d) {
          assert Alone(m, k, d) && OnStack(m, d);
        }
      } else {
        var d :| 0 <= d < |m.exec| && d != c && m.exec[d] == Some(UserStack(Choice(m.s, c).value));
        assert !Alone(r, c, d);
      }
    }
  }

  lemma ClashChoice(s: State, c: nat)
    requires Shaped(s) && c < |s.cpus|
    ensures RefsOk(s, c) && (Clash(s, c) <==> Choice(s, c).Some? && Elsewhere(s, c, Choice(s, c).value))
  {
    assert RefsOk(s, c);
  }

  lemma TakeOverApart(m: Machine, c: nat)
    requires Apart(m) && c < |m.exec|
    ensures Apart(m.(exec := m.exec[c := Some(StackOf(m.s, c))], next := m.next[c := None]))
  {
    hide Sound, FramesOwn;
    var r := m.(exec := m.exec[c := Some(StackOf(m.s, c))], next := m.next[c := None]);
    forall k | 0 <= k < |r.exec| ensures OnStack(r, k) {
      assert OnStack(m, k);
      if k == c { assert RefsOk(m.s, c); }
    }
    forall k, d | 0 <= k < |r.exec| && 0 <= d < |r.exec| ensures Alone(r, k, d) {
      assert Alone(m, k, d) && Alone(m, d, k);
      if k != d && d == c { CurrentsApart(m.s, k, c); }
    }
  }

  lemma CurrentsApart(s: State, k: nat, c: nat)
    requires Sound(s) && k < |s.cpus| && c < |s.cpus| && k != c
    ensures StackOf(s, k) != StackOf(s, c)
  {
    if s.cpus[k].current.User? { assert Holds(s, k, s.cpus[k].current.slot) && !Holds(s, c, s.cpus[k].current.slot); }
  }

  lemma RegionApart(m: Machine, op: Op)
    requires Apart(m) && Enabled(m.s, op) && !op.Reschedule?
    ensures Apart(m.(s := Step(m.s, op)))
  {
    hide FramesOwn, Step, Sound;
    RegionShaped(m.s, op);
    FramesKept(m.s, op);
    RegionSound(m.s, op);
    var r := m.(s := Step(m.s, op));
    forall k | 0 <= k < |r.exec| ensures OnStack(r, k) { assert OnStack(m, k); }
    forall k, d | 0 <= k < |r.exec| && 0 <= d < |r.exec| ensures Alone(r, k, d) { assert Alone(m, k, d); }
  }

  /** Any move, blocking included, keeps tasks and stacks apart exactly when it does not take a task
      that is current elsewhere or whose stack is still in use. */
  lemma MoveApart(m: Machine, mv: Move)
    requires Apart(m) && Possible(m, mv)
    ensures Apart(Moved(m, mv)) <==> !Takes(m, mv)
  {
    hide Sound, FramesOwn, Schedule, Step;
    match mv
    case Enter(c) =>
      TakeOverApart(m, c);
      assert m.next[c := None] == m.next;
    case Region(_, op) => RegionApart(m, op);
    case Decide(c) => DecideApart(m, c);
    case Adopt(c) =>
      assert OnStack(m, c);
      TakeOverApart(m, c);
    case Leave(c) =>
      var r := Moved(m, mv);
      forall k | 0 <= k < |r.exec| ensures OnStack(r, k) { assert OnStack(m, k); }
      forall k, d | 0 <= k < |r.exec| && 0 <= d < |r.exec| ensures Alone(r, k, d) { assert Alone(m, k, d); }
    case Outside(op) => RegionApart(m, op);
  }

  ghost predicate TakesAt(mvs: seq<Move>, ms: seq<Machine>, n: nat)
    requires MoveRun(mvs, ms) && n < |mvs|
  {
    Takes(ms[n], mvs[n])
  }

  lemma {:induction false} ApartUpto(mvs: seq<Move>, ms: seq<Machine>, n: nat)
    requires MoveRun(mvs, ms) && Apart(ms[0]) && n < |ms| && forall k :: 0 <= k < n ==> !TakesAt(mvs, ms, k)
    ensures Apart(ms[n])
    decreases n
  {
    hide Apart, Moved, Possible, Sized, Takes;
    if n > 0 {
      ApartUpto(mvs, ms, n - 1);
      assert !TakesAt(mvs, ms, n - 1);
      MoveApart(ms[n - 1], mvs[n - 1]);
    }
  }

  /** Over every run: stacks and tasks stay apart at every point exactly when no move takes one that
      is in use. */
  lemma RunApart(mvs: seq<Move>, ms: seq<Machine>)
    requires MoveRun(mvs, ms) && Apart(ms[0])
    ensures (forall n :: 0 <= n < |ms| ==> Apart(ms[n])) <==> (forall n :: 0 <= n < |mvs| ==> !TakesAt(mvs, ms, n))
  {
    hide Apart, Moved, Possible, Sized, Takes;
    if forall n :: 0 <= n < |mvs| ==> !TakesAt(mvs, ms, n) {
      forall n | 0 <= n < |ms| ensures Apart(ms[n]) { ApartUpto(mvs, ms, n); }
    }
    if forall n :: 0 <= n < |ms| ==> Apart(ms[n]) {
      forall n | 0 <= n < |mvs| ensures !TakesAt(mvs, ms, n) {
        assert Apart(ms[n]) && Apart(ms[n + 1]);
        MoveApart(ms[n], mvs[n]);
      }
    }
  }

  // ----------------------------------------------------------- with blocking

  /** Two processors, task 0 in a system call on the first, the second idle. */
  function Trace(n: nat): Machine {
    var idle := [Task(Running, 0, false, IdleStack(0)), Task(Running, 0, false, IdleStack(1))];
    var on := UserStack(0);
    var t := Task(Running, 0, false, on);
    var parked, first := t.(state := Blocked, waitInput := true), [PerCpu(User(0), None), PerCpu(Idle(1), None)];
    var left := [PerCpu(Idle(0), None), PerCpu(Idle(1), None)];
    var execs := [Some(on), Some(IdleStack(1))];
    if n == 0 then Machine(State([t], idle, first), execs, [None, None])
    else if n == 1 then Machine(State([parked], idle, first), execs, [None, None])
    else if n == 2 then Machine(State([parked], idle, left), execs, [Some(IdleStack(0)), None])
    else if n == 3 then Machine(State([t.(state := Ready)], idle, left), execs, [Some(IdleStack(0)), None])
    else
      var taken := [PerCpu(Idle(0), None), PerCpu(User(0), None)];
      if n == 4 then Machine(State([t], idle, taken), execs, [Some(IdleStack(0)), Some(on)])
      else Machine(State([t], idle, taken), [Some(on), Some(on)], [Some(IdleStack(0)), None])
  }

  /** Task 0 blocks on processor 0, which schedules; before that processor has left the task's
      stack, a key interrupt wakes the task and processor 1 picks it up and takes the stack over. */
  function TraceMove(n: nat): Move {
    if n == 0 then Region(0, Park(0, 0, true)) else if n == 1 then Decide(0) else if n == 2 then Outside(KeyIrq)
    else if n == 3 then Decide(1) else Adopt(1)
  }

  lemma TraceSized(n: nat)
    ensures Sized(Trace(n))
  {
    assert RefsOk(Trace(n).s, 0) && RefsOk(Trace(n).s, 1);
  }

  lemma TraceSafe()
    ensures Safe(Trace(0))
  {
    var m := Trace(0);
    var s := m.s;
    TraceSized(0);
    assert Holds(s, 0, 0) && RunningHeld(s, 0);
    assert CpuOk(s, 0) && CpuOk(s, 1) && Once(s, 0) && Once(s, 1) && Settled(s, 0) && Settled(s, 1);
    assert Placed(m, 0) && Placed(m, 1);
  }

  lemma TraceParks()
    ensures Sized(Trace(0)) && Possible(Trace(0), TraceMove(0)) && Moved(Trace(0), TraceMove(0)) == Trace(1)
    ensures Sized(Trace(2)) && Possible(Trace(2), TraceMove(2)) && Moved(Trace(2), TraceMove(2)) == Trace(3)
  {
    TraceSized(0);
    TraceSized(2);
    assert RefsOk(Trace(0).s, 0);
  }

  lemma TraceDecides()
    ensures Sized(Trace(1)) && Possible(Trace(1), TraceMove(1)) && Moved(Trace(1), TraceMove(1)) == Trace(2)
  {
    TraceSized(1);
    var s := Trace(1).s;
    assert RefsOk(s, 0);
    assert Pick(s.tasks, User(0), 0) == None;
  }

  lemma TraceChooses()
    ensures Sized(Trace(3)) && Possible(Trace(3), TraceMove(3)) && Moved(Trace(3), TraceMove(3)) == Trace(4)
  {
    TraceSized(3);
    var s := Trace(3).s;
    assert RefsOk(s, 1);
    assert Pick(s.tasks, Idle(1), 0) == Some(0);
  }

  lemma TraceAdopts()
    ensures Sized(Trace(4)) && Possible(Trace(4), TraceMove(4)) && Moved(Trace(4), TraceMove(4)) == Trace(5)
    ensures |Trace(5).exec| == 2 && Trace(5).exec[0] == Trace(5).exec[1] == Some(UserStack(0))
  {
    TraceSized(4);
  }

  /** A run with one blocking call, not even disturbed, that ends with two processors on one
      stack. */
  lemma BlockingSharesStack()
    ensures Safe(Trace(0)) && |Trace(5).exec| == 2 && Trace(5).exec[0] == Trace(5).exec[1] == Some(UserStack(0))
    ensures MoveRun([TraceMove(0), TraceMove(1), TraceMove(2), TraceMove(3), TraceMove(4)],
                    [Trace(0), Trace(1), Trace(2), Trace(3), Trace(4), Trace(5)])
  {
    hide Safe, Sized, Moved, Possible, Trace, TraceMove;
    TraceSafe();
    TraceParks();
    TraceDecides();
    TraceChooses();
    TraceAdopts();
  }
}
