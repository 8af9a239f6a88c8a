/** Runs of mapping and unmapping calls: where every page leads after the last of them, and
    which pages user code can reach. */
module PageRuns {
  import opened PageTable

  /** A completed call; one that was refused changed no mapping. */
  datatype MapOp = Map(va: nat, physical: nat, flags: nat) | Unmap(va: nat) | Refused

  /** Where a call leaves the page with the indices `q`. */
  function LeafAfter(op: MapOp, q: seq<nat>, leaf: Leaf): Leaf {
    match op
    case Map(va, physical, flags) => if q == PathOf(va) then Leaf(1, LeafEntry(physical, flags)) else leaf
    case Unmap(va) => if q == PathOf(va) then Unmapped else leaf
    case Refused => leaf
  }

  /** The call is about the page with the indices `q`. */
  predicate About(op: MapOp, q: seq<nat>) { !op.Refused? && q == PathOf(op.va) }

  /** What a call does: every page leads where it should, user code keeps what it reaches of the
      other pages, and it reaches a page that was mapped for it. */
  ghost predicate OpDone(op: MapOp, mem: Tables, after: Tables, root: nat) {
    && (forall q :: PathOk(q) ==> Walk(after, root, q) == LeafAfter(op, q, Walk(mem, root, q)))
    && (forall q :: PathOk(q) && !About(op, q) && UserWalk(mem, root, q) ==> UserWalk(after, root, q))
    && (op.Map? ==> FlagsOk(op.flags) && (User(op.flags) ==> UserWalk(after, root, PathOf(op.va))))
    && SameWays(mem, after, root)
  }

  /** Memory before the first call, between the calls, and after the last. */
  ghost predicate RunDone(ops: seq<MapOp>, mems: seq<Tables>, root: nat) {
    && |mems| == |ops| + 1
    && forall i :: 0 <= i < |ops| ==> OpDone(ops[i], mems[i], mems[i + 1], root)
  }

  predicate UserLeaf(leaf: Leaf) { leaf.Leaf? && User(leaf.entry) }

  /** What a mapping call gives the page it is about, and that it leaves every other leaf alone. */
  lemma MappedLeaf(va: nat, physical: nat, flags: nat, mem: Tables, after: Tables, root: nat)
    requires OpDone(Map(va, physical, flags), mem, after, root)
    ensures PathOk(PathOf(va))
    ensures WriteLeaf(Walk(after, root, PathOf(va))) <==> Writable(flags)
    ensures UserLeaf(Walk(after, root, PathOf(va))) <==> User(flags)
    ensures forall q :: PathOk(q) && q != PathOf(va) ==> Walk(after, root, q) == Walk(mem, root, q)
  {
    hide Walk, UserWalk, WayOpen, FlagsOk, LeafEntry, PathOf;
    LeafEntryBits(physical, flags);
    KeptWritable(LeafEntry(physical, flags), flags);
  }

  /** A call keeps every user page open on all levels above it. */
  lemma OpCloses(op: MapOp, mem: Tables, after: Tables, root: nat)
    requires OpDone(op, mem, after, root) && UserClosed(mem, root)
    ensures UserClosed(after, root)
  {
    hide Walk, UserWalk, WayOpen, User, FlagsOk, LeafEntry, PathOf;
    if op.Map? { LeafEntryBits(op.physical, op.flags); }
  }

  /** So does a run of them. */
  lemma {:induction false} RunCloses(ops: seq<MapOp>, mems: seq<Tables>, root: nat)
    requires RunDone(ops, mems, root) && UserClosed(mems[0], root)
    ensures UserClosed(mems[|ops|], root)
    decreases |ops|
  {
    hide OpDone, UserClosed;
    if ops != [] {
      var n := |ops| - 1;
      RunCloses(ops[..n], mems[..n + 1], root);
      OpCloses(ops[n], mems[n], mems[n + 1], root);
    }
  }

  function LeafAfterRun(ops: seq<MapOp>, q: seq<nat>, leaf: Leaf): Leaf {
    if ops == [] then leaf else LeafAfter(ops[|ops| - 1], q, LeafAfterRun(ops[..|ops| - 1], q, leaf))
  }

  /** After a run every page is where the calls on it left it, whatever was mapped beside it. */
  lemma {:induction false} RunLeaf(ops: seq<MapOp>, mems: seq<Tables>, root: nat, q: seq<nat>)
    requires RunDone(ops, mems, root) && PathOk(q)
    ensures Walk(mems[|ops|], root, q) == LeafAfterRun(ops, q, Walk(mems[0], root, q))
    decreases |ops|
  {
    hide Walk, UserWalk, FlagsOk, User, PathOk, LeafAfter, About;
    if ops != [] {
      var n := |ops| - 1;
      RunLeaf(ops[..n], mems[..n + 1], root, q);
      assert OpDone(ops[n], mems[n], mems[n + 1], root);
    }
  }

  /** Only a user leaf lets user code through. */
  lemma {:induction false} UserOnly(mem: Tables, t: nat, path: seq<nat>)
    requires |path| <= 4 && UserWalk(mem, t, path)
    ensures UserLeaf(Walk(mem, t, path))
    decreases |path|
  {
    hide Present, User, Huge, FrameOf;
    var e := EntryAt(mem, t, path[0]);
    if |path| > 1 && !Huge(e) { UserOnly(mem, FrameOf(e), path[1..]); }
  }

  /** After a run user code reaches exactly the pages whose leaf, as the calls left it, is a user
      leaf: no mapping of another page opens or closes one. */
  lemma RunUser(ops: seq<MapOp>, mems: seq<Tables>, root: nat, q: seq<nat>)
    requires RunDone(ops, mems, root) && UserClosed(mems[0], root) && PathOk(q)
    ensures UserWalk(mems[|ops|], root, q) <==> UserLeaf(LeafAfterRun(ops, q, Walk(mems[0], root, q)))
  {
    hide Walk, UserWalk, LeafAfterRun, User, OpDone;
    RunLeaf(ops, mems, root, q);
    RunCloses(ops, mems, root);
    if UserWalk(mems[|ops|], root, q) { UserOnly(mems[|ops|], root, q); }
  }

  /** No call opens or closes a way for writing. */
  lemma {:induction false} RunWays(ops: seq<MapOp>, mems: seq<Tables>, root: nat)
    requires RunDone(ops, mems, root)
    ensures SameWays(mems[0], mems[|ops|], root)
    decreases |ops|
  {
    hide Walk, UserWalk, WayOpen, User, FlagsOk, LeafAfter, About;
    if ops != [] {
      var n := |ops| - 1;
      RunWays(ops[..n], mems[..n + 1], root);
      assert OpDone(ops[n], mems[n], mems[n + 1], root);
      WaysTrans(mems[0], mems[n], mems[n + 1], root);
    }
  }

  /** After a run a page can be written, on all levels, exactly when its leaf as the calls left it
      says so and the tables that were on the way before the first call are entered for writing;
      tables made by the calls always are. */
  lemma RunWrite(ops: seq<MapOp>, mems: seq<Tables>, root: nat, q: seq<nat>)
    requires RunDone(ops, mems, root) && PathOk(q)
    ensures WriteWalk(mems[|ops|], root, q) <==>
              WriteLeaf(LeafAfterRun(ops, q, Walk(mems[0], root, q))) && WayOpen(mems[0], root, q)
  {
    hide Walk, WriteWalk, WayOpen, LeafAfterRun, Writable, OpDone;
    RunLeaf(ops, mems, root, q);
    RunWays(ops, mems, root);
    if Walk(mems[|ops|], root, q).Leaf? { WriteExact(mems[|ops|], root, q); } else { NoWrite(mems[|ops|], root, q); }
  }

  /** A page that no call maps for user code stays closed to it. */
  lemma {:induction false} NeverOpened(ops: seq<MapOp>, q: seq<nat>, leaf: Leaf)
    requires !UserLeaf(leaf) && forall i ::
               0 <= i < |ops| && ops[i].Map? && PathOf(ops[i].va) == q ==> !User(ops[i].flags) && FlagsOk(ops[i].flags)
    ensures !UserLeaf(LeafAfterRun(ops, q, leaf))
    decreases |ops|
  {
    hide User, PathOf, FlagsOk, LeafEntry;
    if ops != [] {
      var n := |ops| - 1;
      NeverOpened(ops[..n], q, leaf);
      if ops[n].Map? && PathOf(ops[n].va) == q { LeafEntryBits(ops[n].physical, ops[n].flags); }
    }
  }
}
