/** What creations and writes make of inodes over whole runs: they keep their kind, names once
    given stay, a new file can be written, and sector counts stay right. */
module Names {
  import opened Arith
  import opened Bytes
  import opened Volume
  import opened Allocator
  import opened ExtentTree
  import opened Inodes
  import opened Files
  import opened Directory
  import opened DirFiles
  import opened Creation
  import opened Runs

  ghost function Mode(g: Geometry, l: Layout, s: State, i: nat): nat
    requires Good(g, l, s) && 1 <= i <= g.inodes
  {
    Le16(RawInode(g, l, s.disk, i), INO_MODE)
  }

  /** The inode that `name` stands for in directory `i`. */
  ghost function Named(g: Geometry, l: Layout, s: State, i: nat, name: Buffer): Option<nat>
    requires Good(g, l, s) && 1 <= i <= g.inodes
  {
    Find(AllLinks(g, s.disk, RawInode(g, l, s.disk, i)), name)
  }

  // ------------------------------------------------------------ new inodes

  /** A directory that was just made finds itself under "." and its parent under "..". */
  lemma NewDirLooks(g: Geometry, l: Layout, dir: nat, ino: nat, before: Disk, after: Disk)
    requires Mounted(g, l, before) && Mounted(g, l, after) && 1 <= ino <= g.inodes
    requires NewChild(g, l, dir, true, ino, before, after)
    ensures var child := RawInode(g, l, after, ino);
            && IsDir(Le16(child, INO_MODE)) && Find(AllLinks(g, after, child), [0x2E]) == Some(ino)
            && Find(AllLinks(g, after, child), [0x2E, 0x2E]) == Some(dir)
  {
    hide LayoutOk, DiskOk, RawInode, AllLinks, DirOk, Mine, Free, InodeSealed, Decoded, Le16;
    TwoLinks(Link(DOT, ino, FT_DIR), Link(DOT_DOT, dir, FT_DIR));
  }

  lemma TwoLinks(a: Link, b: Link)
    requires a.name != b.name
    ensures Find([a, b], a.name) == Some(a.ino) && Find([a, b], b.name) == Some(b.ino)
  {
    assert [a, b][1..] == [b];
  }

  /** A file that was just made takes writes. */
  lemma NewFileWrites(g: Geometry, l: Layout, dir: nat, ino: nat, before: Disk, mid: Disk, after: Disk,
                      offset: nat, buf: Buffer, r: Result<()>)
    requires Mounted(g, l, before) && Mounted(g, l, mid) && Mounted(g, l, after) && 1 <= ino <= g.inodes
    requires NewChild(g, l, dir, false, ino, before, mid) && WriteOutcome(g, l, ino, mid, after, offset, buf, r)
    ensures r != Err(Invalid)
  {
    hide LayoutOk, DiskOk, RawInode, Born, Mine, Free, OthersKept, WriteStored, WriteStops, Le16;
  }

  // ------------------------------------------------------------------ steps

  lemma CreateKind(g: Geometry, l: Layout, op: Op, before: Disk, after: Disk)
    requires Mounted(g, l, before) && Mounted(g, l, after) && op.Create? && 1 <= op.dir <= g.inodes
    requires CreateOutcome(g, l, op.dir, op.name, op.isDir, before, after, op.made)
    requires op.made.Err? || Stays(g, l, op, before)
    ensures Le16(RawInode(g, l, after, op.dir), INO_MODE) == Le16(RawInode(g, l, before, op.dir), INO_MODE)
  {
    hide LayoutOk, DiskOk, RawInode, Born, Mine, Free, DirOk, AllLinks, Grown, Le16, InodeSealed, RestKept, InodeGone,
      NewChild, NameStays, DirReceded, Find;
  }

  lemma WriteKind(g: Geometry, l: Layout, op: Op, before: Disk, after: Disk)
    requires Mounted(g, l, before) && Mounted(g, l, after) && op.Write? && 1 <= op.ino <= g.inodes
    requires WriteOutcome(g, l, op.ino, before, after, op.offset, op.buf, op.done)
    ensures Le16(RawInode(g, l, after, op.ino), INO_MODE) == Le16(RawInode(g, l, before, op.ino), INO_MODE)
  {
    hide LayoutOk, DiskOk, RawInode, FileOwned, FileLoose, FileMap, Mine, Free, OthersKept, WriteStops, Le16, Le32,
      RawSize, RawBlocks, InodeSealed, RestSame, ByteAt, Submap, Appendable, Quot, Sectors;
    DecodedFields(g, op.ino, RawInode(g, l, before, op.ino));
    DecodedFields(g, op.ino, RawInode(g, l, after, op.ino));
  }

  /** No operation changes the kind of a file that stays followed. */
  lemma StepKind(g: Geometry, l: Layout, w: World, op: Op, s: State, t: State, v: World, i: nat)
    requires 1 <= i <= g.inodes && Good(g, l, s) && FsOk(g, l, s.disk, w) && Called(g, l, w, op, s, t, v)
    requires i in w.files && i in v.files
    ensures Good(g, l, t) && Mode(g, l, t, i) == Mode(g, l, s, i)
  {
    hide LayoutOk, DiskOk, RawInode, FsOk, Good, WriteOutcome, CreateOutcome, Le16, Unharmed, Stays, InOrder;
    if i != Subject(op) {
      OneUnharmed(g, l, w, op, s.disk, t.disk, i);
      SameInode(g, l, s.disk, t.disk, i);
    } else if op.Write? {
      WriteKind(g, l, op, s.disk, t.disk);
    } else {
      if op.made.Ok? { ChildNew(g, l, w, op, s.disk, t.disk); }
      CreateKind(g, l, op, s.disk, t.disk);
    }
  }

  lemma SameInode(g: Geometry, l: Layout, before: Disk, after: Disk, i: nat)
    requires Mounted(g, l, before) && Mounted(g, l, after) && 1 <= i <= g.inodes && Unharmed(g, l, before, after, i)
    ensures RawInode(g, l, after, i) == RawInode(g, l, before, i)
  {
  }

  lemma UnharmedLinks(g: Geometry, l: Layout, before: Disk, after: Disk, i: nat)
    requires Mounted(g, l, before) && Mounted(g, l, after) && 1 <= i <= g.inodes && Unharmed(g, l, before, after, i)
    ensures AllLinks(g, after, RawInode(g, l, before, i)) == AllLinks(g, before, RawInode(g, l, before, i))
  {
    hide LayoutOk, DiskOk, RawInode, FileLoose, TidyHere, Mine, FileMap, FileBlock, RawSize, DirCount, Links, Tiled;
    var raw := RawInode(g, l, before, i);
    var fm, n := FileMap(raw, before), DirCount(g, RawSize(g, raw));
    forall k | 0 <= k < n ensures BlockLinks(g, after, fm, k) == BlockLinks(g, before, fm, k) {
      assert FileBlock(g, after, fm, k) == FileBlock(g, before, fm, k);
    }
    LinksSame(g, before, fm, after, fm, n);
  }

  /** All that is done to directory `i` is a creation that succeeds and whose name stays. */
  ghost predicate EntersOnly(g: Geometry, l: Layout, op: Op, s: State, i: nat)
    requires 1 <= i <= g.inodes
  {
    Subject(op) == i && Good(g, l, s) ==> op.Create? && op.made.Ok? && Stays(g, l, op, s.disk)
  }

  /** A creation binds its own name, which was not bound, and no other. */
  lemma StepNames(g: Geometry, l: Layout, w: World, op: Op, s: State, t: State, v: World, i: nat, name: Buffer)
    requires 1 <= i <= g.inodes && Good(g, l, s) && FsOk(g, l, s.disk, w) && Called(g, l, w, op, s, t, v)
    requires i in w.files && EntersOnly(g, l, op, s, i)
    ensures Good(g, l, t) && i in v.files
    ensures if op.Create? && op.dir == i && op.name == name then
              Named(g, l, s, i, name).None? && op.made.Ok? && Named(g, l, t, i, name) == Some(op.made.value)
            else Named(g, l, t, i, name) == Named(g, l, s, i, name)
  {
    hide LayoutOk, DiskOk, RawInode, FsOk, Good, AllLinks, WriteOutcome, Unharmed, Find, InodeGone, RestKept, NewChild,
      Entered, NameStays, Le16, DirOk, InOrder;
    if i != Subject(op) {
      StaysFollowed(g, l, w, op, s.disk, i);
      OneUnharmed(g, l, w, op, s.disk, t.disk, i);
      SameInode(g, l, s.disk, t.disk, i);
      UnharmedLinks(g, l, s.disk, t.disk, i);
    } else {
      var links := (Le16(RawInode(g, l, s.disk, i), INO_LINKS) + if op.isDir then 1 else 0) % 0x1_0000;
      CreatedFound(g, l, i, op.name, op.isDir, op.made.value, s.disk, t.disk, links, name);
    }
  }

  // ------------------------------------------------------------------- runs

  /** Over every run a followed inode keeps its kind. */
  lemma {:induction false} RunKind(g: Geometry, l: Layout, ops: seq<Op>, states: seq<State>, worlds: seq<World>, i: nat,
                                   m: nat, n: nat)
    requires Runs.Run(g, l, ops, states, worlds) && m <= n <= |ops| && FsOk(g, l, states[0].disk, worlds[0])
    requires 1 <= i <= g.inodes && forall k :: m <= k <= n ==> i in worlds[k].files
    ensures Good(g, l, states[m]) && Good(g, l, states[n]) && Mode(g, l, states[n], i) == Mode(g, l, states[m], i)
    decreases n
  {
    hide FsOk, Good, Called, Mode;
    RunOk(g, l, ops, states, worlds, m);
    if m < n {
      RunKind(g, l, ops, states, worlds, i, m, n - 1);
      RunOk(g, l, ops, states, worlds, n - 1);
      assert Called(g, l, worlds[n - 1], ops[n - 1], states[n - 1], states[n], worlds[n]);
      StepKind(g, l, worlds[n - 1], ops[n - 1], states[n - 1], states[n], worlds[n], i);
    }
  }

  /** However late, a write to a file that was created is never refused as being none. */
  lemma RunWritable(g: Geometry, l: Layout, ops: seq<Op>, states: seq<State>, worlds: seq<World>, m: nat, n: nat)
    requires Runs.Run(g, l, ops, states, worlds) && m < n < |ops| && FsOk(g, l, states[0].disk, worlds[0])
    requires ops[m].Create? && !ops[m].isDir && ops[m].made.Ok? && ops[n].Write? && ops[n].ino == ops[m].made.value
    requires forall k :: m < k <= n ==> ops[n].ino in worlds[k].files
    ensures ops[n].done != Err(Invalid)
  {
    hide FsOk, Good, Mode, RawInode, LayoutOk, DiskOk, Born, Mine, Free, OthersKept, WriteStored, WriteStops, Le16,
      InodeGone, RestKept, Entered, NameStays, DirOk, AllLinks, Find, InOrder, Next, Called;
    var i := ops[n].ino;
    RunCalled(g, l, ops, states, worlds, m);
    RunCalled(g, l, ops, states, worlds, n);
    RunKind(g, l, ops, states, worlds, i, m + 1, n);
    ModeIs(g, l, states[m + 1], i);
    ModeIs(g, l, states[n], i);
  }

  lemma RunCalled(g: Geometry, l: Layout, ops: seq<Op>, states: seq<State>, worlds: seq<World>, n: nat)
    requires Runs.Run(g, l, ops, states, worlds) && n < |ops| && FsOk(g, l, states[0].disk, worlds[0])
    ensures Good(g, l, states[n]) && Good(g, l, states[n + 1])
    ensures Does(g, l, worlds[n], ops[n], states[n].disk, states[n + 1].disk)
  {
    hide FsOk, Good, Does, Next;
    RunOk(g, l, ops, states, worlds, n);
    assert Called(g, l, worlds[n], ops[n], states[n], states[n + 1], worlds[n + 1]);
  }

  lemma ModeIs(g: Geometry, l: Layout, s: State, i: nat)
    requires Good(g, l, s) && 1 <= i <= g.inodes
    ensures Mode(g, l, s, i) == Le16(RawInode(g, l, s.disk, i), INO_MODE)
  {
  }

  /** What a name stands for after the creations of a run. */
  function Bound(found: Option<nat>, ops: seq<Op>, i: nat, name: Buffer): Option<nat> {
    if ops == [] then found
    else
      var op := ops[|ops| - 1];
      if op.Create? && op.dir == i && op.name == name && op.made.Ok? then Some(op.made.value)
      else Bound(found, ops[..|ops| - 1], i, name)
  }

  /** Over every run of successful creations in a directory, mixed with anything done elsewhere,
      each name stands for what the last creation of that name made, and what is bound stays. */
  lemma {:induction false} RunNames(g: Geometry, l: Layout, ops: seq<Op>, states: seq<State>, worlds: seq<World>,
                                    i: nat, name: Buffer, m: nat, n: nat)
    requires Runs.Run(g, l, ops, states, worlds) && m <= n <= |ops| && FsOk(g, l, states[0].disk, worlds[0])
    requires 1 <= i <= g.inodes && i in worlds[m].files
    requires forall k :: m <= k < n ==> EntersOnly(g, l, ops[k], states[k], i)
    ensures Good(g, l, states[m]) && Good(g, l, states[n]) && i in worlds[n].files
    ensures Named(g, l, states[n], i, name) == Bound(Named(g, l, states[m], i, name), ops[m..n], i, name)
    ensures Named(g, l, states[m], i, name).Some? ==>
              Named(g, l, states[n], i, name) == Named(g, l, states[m], i, name)
    decreases n
  {
    hide FsOk, Good, Called, Named, EntersOnly;
    RunOk(g, l, ops, states, worlds, m);
    if m < n {
      RunNames(g, l, ops, states, worlds, i, name, m, n - 1);
      RunOk(g, l, ops, states, worlds, n - 1);
      assert Called(g, l, worlds[n - 1], ops[n - 1], states[n - 1], states[n], worlds[n]);
      StepNames(g, l, worlds[n - 1], ops[n - 1], states[n - 1], states[n], worlds[n], i, name);
      assert ops[m..n][..n - 1 - m] == ops[m..n - 1];
    }
  }

  /** A directory that was created keeps "." for itself and ".." for its parent. */
  lemma RunDots(g: Geometry, l: Layout, ops: seq<Op>, states: seq<State>, worlds: seq<World>, m: nat, n: nat)
    requires Runs.Run(g, l, ops, states, worlds) && m < n <= |ops| && FsOk(g, l, states[0].disk, worlds[0])
    requires ops[m].Create? && ops[m].isDir && ops[m].made.Ok? && 1 <= ops[m].made.value <= g.inodes
    requires forall k :: m < k < n ==> EntersOnly(g, l, ops[k], states[k], ops[m].made.value)
    ensures Good(g, l, states[n]) && Named(g, l, states[n], ops[m].made.value, [0x2E]) == Some(ops[m].made.value)
    ensures Named(g, l, states[n], ops[m].made.value, [0x2E, 0x2E]) == Some(ops[m].dir)
  {
    hide FsOk, Good, RawInode, LayoutOk, DiskOk, NewChild, InodeGone, RestKept, Entered, NameStays, DirOk, AllLinks,
      Find, Le16, EntersOnly, WriteOutcome, Stays, InOrder;
    var i := ops[m].made.value;
    RunCalled(g, l, ops, states, worlds, m);
    assert Called(g, l, worlds[m], ops[m], states[m], states[m + 1], worlds[m + 1]);
    NewDirLooks(g, l, ops[m].dir, i, states[m].disk, states[m + 1].disk);
    RunNames(g, l, ops, states, worlds, i, [0x2E], m + 1, n);
    RunNames(g, l, ops, states, worlds, i, [0x2E, 0x2E], m + 1, n);
  }

  // ---------------------------------------------------------- sector counts

  /** Whatever is done to inode `i` succeeds, and a name entered in it stays. */
  ghost predicate Succeeds(g: Geometry, l: Layout, op: Op, s: State, i: nat)
    requires 1 <= i <= g.inodes
  {
    Subject(op) == i && Good(g, l, s) ==>
      match op
      case Write(_, _, _, done) => done.Ok?
      case Create(_, _, _, made) => made.Ok? && Stays(g, l, op, s.disk)
  }

  ghost predicate CountedAt(g: Geometry, l: Layout, s: State, i: nat)
    requires Good(g, l, s) && 1 <= i <= g.inodes
  {
    Counted(g, RawInode(g, l, s.disk, i), s.disk)
  }

  lemma UnharmedCount(g: Geometry, l: Layout, before: Disk, after: Disk, i: nat)
    requires Mounted(g, l, before) && Mounted(g, l, after) && 1 <= i <= g.inodes && Unharmed(g, l, before, after, i)
    requires Counted(g, RawInode(g, l, before, i), before)
    ensures Counted(g, RawInode(g, l, after, i), after)
  {
    hide LayoutOk, DiskOk, RawInode, FileLoose, TidyHere, Mine, FileMap, FileBlock, Counted;
    CountKept(g, RawInode(g, l, before, i), RawInode(g, l, after, i), before, after);
  }

  lemma CreateCount(g: Geometry, l: Layout, op: Op, before: Disk, after: Disk)
    requires Mounted(g, l, before) && Mounted(g, l, after) && op.Create? && 1 <= op.dir <= g.inodes && op.made.Ok?
    requires CreateOutcome(g, l, op.dir, op.name, op.isDir, before, after, op.made) && Stays(g, l, op, before)
    requires Counted(g, RawInode(g, l, before, op.dir), before)
    ensures Counted(g, RawInode(g, l, after, op.dir), after)
  {
    hide LayoutOk, DiskOk, RawInode, Born, Mine, Free, DirOk, AllLinks, Grown, Le16, InodeSealed, RestKept, InodeGone,
      NewChild, NameStays, DirReceded, Find, Counted;
  }

  lemma WriteCount(g: Geometry, l: Layout, op: Op, before: Disk, after: Disk)
    requires Mounted(g, l, before) && Mounted(g, l, after) && op.Write? && 1 <= op.ino <= g.inodes && op.done.Ok?
    requires WriteOutcome(g, l, op.ino, before, after, op.offset, op.buf, op.done)
    requires Counted(g, RawInode(g, l, before, op.ino), before) || op.buf != []
    ensures Counted(g, RawInode(g, l, after, op.ino), after)
  {
    hide LayoutOk, DiskOk, RawInode, OthersKept, WriteStored, WriteStops, Le16, Counted;
    if op.buf != [] { WriteCounted(g, l, op.ino, before, after, op.offset, op.buf); }
  }

  /** A step on which nothing fails keeps a right count right, and a write puts it right. */
  lemma StepCounted(g: Geometry, l: Layout, w: World, op: Op, s: State, t: State, v: World, i: nat)
    requires 1 <= i <= g.inodes && Good(g, l, s) && FsOk(g, l, s.disk, w) && Called(g, l, w, op, s, t, v)
    requires i in w.files && Succeeds(g, l, op, s, i)
    requires CountedAt(g, l, s, i) || (op.Write? && op.ino == i && op.buf != [])
    ensures Good(g, l, t) && CountedAt(g, l, t, i)
  {
    hide LayoutOk, DiskOk, RawInode, FsOk, Good, WriteOutcome, CreateOutcome, Unharmed, Stays, InOrder, Counted;
    if i != Subject(op) {
      OneUnharmed(g, l, w, op, s.disk, t.disk, i);
      UnharmedCount(g, l, s.disk, t.disk, i);
    } else if op.Write? {
      WriteCount(g, l, op, s.disk, t.disk);
    } else {
      CreateCount(g, l, op, s.disk, t.disk);
    }
  }

  /** Over every run in which what is done to inode `i` succeeds, its sector count stays right. */
  lemma {:induction false} RunCounted(g: Geometry, l: Layout, ops: seq<Op>, states: seq<State>, worlds: seq<World>,
                                      i: nat, m: nat, n: nat)
    requires Runs.Run(g, l, ops, states, worlds) && m <= n <= |ops| && FsOk(g, l, states[0].disk, worlds[0])
    requires 1 <= i <= g.inodes
    requires forall k :: m <= k < n ==> i in worlds[k].files && Succeeds(g, l, ops[k], states[k], i)
    requires Good(g, l, states[m]) && CountedAt(g, l, states[m], i)
    ensures Good(g, l, states[n]) && CountedAt(g, l, states[n], i)
    decreases n
  {
    hide FsOk, Good, Called, CountedAt, Succeeds;
    if m < n {
      RunCounted(g, l, ops, states, worlds, i, m, n - 1);
      RunOk(g, l, ops, states, worlds, n - 1);
      assert Called(g, l, worlds[n - 1], ops[n - 1], states[n - 1], states[n], worlds[n]);
      StepCounted(g, l, worlds[n - 1], ops[n - 1], states[n - 1], states[n], worlds[n], i);
    }
  }

  /** An inode that was created in the run starts with a right count. */
  lemma RunBornCounted(g: Geometry, l: Layout, ops: seq<Op>, states: seq<State>, worlds: seq<World>, m: nat, n: nat)
    requires Runs.Run(g, l, ops, states, worlds) && m < n <= |ops| && FsOk(g, l, states[0].disk, worlds[0])
    requires ops[m].Create? && ops[m].made.Ok? && 1 <= ops[m].made.value <= g.inodes
    requires forall k :: m < k < n ==>
               ops[m].made.value in worlds[k].files && Succeeds(g, l, ops[k], states[k], ops[m].made.value)
    ensures Good(g, l, states[n]) && CountedAt(g, l, states[n], ops[m].made.value)
  {
    hide FsOk, Good, RawInode, LayoutOk, DiskOk, Born, Mine, Free, InodeGone, RestKept, Entered, NameStays, DirOk,
      AllLinks, Find, Le16, InOrder, Next, Called, Counted, Succeeds, WriteOutcome;
    var i := ops[m].made.value;
    RunCalled(g, l, ops, states, worlds, m);
    BornCounted(g, l, i, ops[m].dir, ops[m].isDir, RawInode(g, l, states[m + 1].disk, i), states[m + 1].disk);
    RunCounted(g, l, ops, states, worlds, i, m + 1, n);
  }
}
