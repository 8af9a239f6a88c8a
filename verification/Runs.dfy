/** Whole runs of the driver: no two files ever share a block, files nobody writes keep their
    bytes, whether operations succeed or fail, and no block or inode is handed out twice. */
module Runs {
  import opened Arith
  import opened Bytes
  import opened Volume
  import opened Allocator
  import opened Frame
  import opened ExtentTree
  import opened Inodes
  import opened Files
  import opened Directory
  import opened DirFiles
  import opened Creation

  // ------------------------------------------------------ files side by side

  /** Inode `i` is in use, sealed, and owns blocks that are all found. */
  ghost predicate FileHere(g: Geometry, l: Layout, disk: Disk, i: nat)
    requires Mounted(g, l, disk)
  {
    && 1 <= i <= g.inodes && !FreeInode(g, l, disk, i)
    && FileLoose(g, l, RawInode(g, l, disk, i), disk) && InodeSealed(g, i, RawInode(g, l, disk, i))
  }

  /** ... its extents are in order, its leaves sealed, and a directory's blocks tiled and sealed. */
  ghost predicate TidyHere(g: Geometry, l: Layout, disk: Disk, i: nat)
    requires Mounted(g, l, disk) && 1 <= i <= g.inodes
  {
    var raw := RawInode(g, l, disk, i);
    FileOwned(g, l, i, raw, disk) && (IsDir(Le16(raw, INO_MODE)) ==> DirOk(g, l, i, raw, disk))
  }

  ghost predicate Apart(g: Geometry, l: Layout, disk: Disk, i: nat, j: nat)
    requires Mounted(g, l, disk) && 1 <= i <= g.inodes && 1 <= j <= g.inodes
  {
    Mine(RawInode(g, l, disk, i), disk) !! Mine(RawInode(g, l, disk, j), disk)
  }

  /** The files that are followed: all of them readable, those in `tidy` in good order. */
  datatype World = World(files: set<nat>, tidy: set<nat>)

  /** Every file owns its blocks, no two files own the same one, and every checksum of an inode,
      and of a leaf or directory block of a tidy one, is right. */
  ghost predicate FsOk(g: Geometry, l: Layout, disk: Disk, w: World)
    requires Mounted(g, l, disk)
  {
    && w.tidy <= w.files
    && (forall i :: i in w.files ==> FileHere(g, l, disk, i))
    && (forall i :: i in w.tidy ==> TidyHere(g, l, disk, i))
    && (forall i, j :: i in w.files && j in w.files && i != j ==> Apart(g, l, disk, i, j))
  }

  /** A write or a creation and the result it gave. */
  datatype Op = Write(ino: nat, offset: nat, buf: Buffer, done: Result<()>)
              | Create(dir: nat, name: Buffer, isDir: bool, made: Result<nat>)

  /** The file an operation is on. */
  function Subject(op: Op): nat {
    match op
    case Write(ino, _, _, _) => ino
    case Create(dir, _, _, _) => dir
  }

  /** The operation, on a tidy file, leads from `before` to `after`. */
  ghost predicate Does(g: Geometry, l: Layout, w: World, op: Op, before: Disk, after: Disk)
    requires Mounted(g, l, before) && Mounted(g, l, after)
  {
    && Subject(op) in w.tidy && 1 <= Subject(op) <= g.inodes
    && match op
       case Write(ino, offset, buf, done) => WriteOutcome(g, l, ino, before, after, offset, buf, done)
       case Create(dir, name, isDir, made) => CreateOutcome(g, l, dir, name, isDir, before, after, made)
  }

  /** The write fills no hole, so the extents stay in order. */
  ghost predicate InOrder(g: Geometry, l: Layout, op: Op, before: Disk)
    requires Mounted(g, l, before) && op.Write? && 1 <= op.ino <= g.inodes
  {
    op.buf == [] || op.done.Err? || Appendable(FileMap(RawInode(g, l, before, op.ino), before), Quot(op.offset, g.bs))
  }

  /** The name a creation adds stays in the directory. */
  ghost predicate Stays(g: Geometry, l: Layout, op: Op, before: Disk)
    requires Mounted(g, l, before) && op.Create? && 1 <= op.dir <= g.inodes
  {
    NameStays(g, l, RawInode(g, l, before, op.dir), before, |op.name|, op.isDir)
  }

  /** What is followed after an operation: a file with a filled hole is no longer tidy; one whose
      write found no way back to its block, or a directory that lost a name, is given up; all
      other failures leave everything followed as it was. */
  ghost function Next(g: Geometry, l: Layout, w: World, op: Op, before: Disk): World
    requires Mounted(g, l, before) && 1 <= Subject(op) <= g.inodes
  {
    match op
    case Write(ino, _, _, done) =>
      if done == Err(Corrupt) then World(w.files - {ino}, w.tidy - {ino})
      else if InOrder(g, l, op, before) then w
      else World(w.files, w.tidy - {ino})
    case Create(dir, _, _, made) =>
      if made.Err? then w
      else if Stays(g, l, op, before) then World(w.files + {made.value}, w.tidy + {made.value})
      else World(w.files - {dir} + {made.value}, w.tidy - {dir} + {made.value})
  }

  // --------------------------------------------------------- files not touched

  /** A file that owned its blocks still has them, unchanged. */
  ghost predicate Unharmed(g: Geometry, l: Layout, before: Disk, after: Disk, i: nat)
    requires Mounted(g, l, before) && Mounted(g, l, after) && 1 <= i <= g.inodes
  {
    var raw := RawInode(g, l, before, i);
    && RawInode(g, l, after, i) == raw && FileLoose(g, l, raw, after)
         && (TidyHere(g, l, before, i) ==> TidyHere(g, l, after, i))
    && FileMap(raw, after) == FileMap(raw, before) && Mine(raw, after) == Mine(raw, before)
    && forall k :: FileBlock(g, after, FileMap(raw, before), k) == FileBlock(g, before, FileMap(raw, before), k)
  }

  lemma UnharmedBy(g: Geometry, l: Layout, before: Disk, after: Disk, i: nat, mine: set<nat>)
    requires Mounted(g, l, before) && Mounted(g, l, after) && 1 <= i <= g.inodes
    requires FileLoose(g, l, RawInode(g, l, before, i), before)
    requires RawInode(g, l, after, i) == RawInode(g, l, before, i)
    requires KeptBlocks(g, l, before, after, mine) && Mine(RawInode(g, l, before, i), before) !! mine
    ensures Unharmed(g, l, before, after, i)
  {
    hide RawInode, LayoutOk, DiskOk, FileOwned, FileLoose, FileMap, Mine, KeptBlocks, FileBlock, DirOk, Le16, AllLinks,
      SameDir;
    var raw := RawInode(g, l, before, i);
    FileKept(g, l, i, raw, before, after, mine);
    MineSame(raw, before, after);
    if DirOk(g, l, i, raw, before) { DirKept(g, l, i, raw, before, after, mine); }
  }

  lemma MineApart(g: Geometry, l: Layout, before: Disk, i: nat, j: nat, blocks: set<nat>)
    requires Mounted(g, l, before) && 1 <= i <= g.inodes && 1 <= j <= g.inodes && Apart(g, l, before, i, j)
    requires FileLoose(g, l, RawInode(g, l, before, i), before) && forall b :: b in blocks ==> b in l.roles
    ensures Mine(RawInode(g, l, before, i), before) !! Mine(RawInode(g, l, before, j), before) + blocks
  {
    hide RawInode, LayoutOk, DiskOk, FileLoose, Mine;
    var raw := RawInode(g, l, before, i);
    forall b | b in Mine(raw, before) ensures b !in blocks { MineOutside(g, l, raw, before, b); }
  }

  lemma WriteUnharmed(g: Geometry, l: Layout, op: Op, before: Disk, after: Disk, i: nat)
    requires Mounted(g, l, before) && Mounted(g, l, after) && op.Write? && 1 <= op.ino <= g.inodes && 1 <= i <= g.inodes
    requires i != op.ino
    requires OthersKept(g, l, op.ino, before, after) && FileLoose(g, l, RawInode(g, l, before, i), before)
    requires Apart(g, l, before, i, op.ino)
    ensures Unharmed(g, l, before, after, i)
  {
    hide RawInode, LayoutOk, DiskOk, FileLoose, Mine, KeptBlocks, SameFreeInodes, Unharmed;
    InodePlaced(g, l, op.ino);
    MineApart(g, l, before, i, op.ino, {InoBlock(g, l, op.ino)});
    UnharmedBy(g, l, before, after, i, Mine(RawInode(g, l, before, op.ino), before) + {InoBlock(g, l, op.ino)});
  }

  lemma RestUnharmed(g: Geometry, l: Layout, dir: nat, child: nat, before: Disk, after: Disk, i: nat)
    requires Mounted(g, l, before) && Mounted(g, l, after) && 1 <= dir <= g.inodes && 1 <= child <= g.inodes
    requires 1 <= i <= g.inodes
    requires RestKept(g, l, dir, child, before, after) && InodeGone(g, l, before, after, child)
    requires !FreeInode(g, l, before, i) && i != dir
    requires FileLoose(g, l, RawInode(g, l, before, i), before) && Apart(g, l, before, i, dir)
    ensures Unharmed(g, l, before, after, i)
  {
    hide RawInode, LayoutOk, DiskOk, FileLoose, Mine, KeptBlocks, FreeInode, Unharmed;
    TakenApart(g, l, before, after, child, i);
    InodePlaced(g, l, dir);
    InodePlaced(g, l, child);
    MineApart(g, l, before, i, dir, {InoBlock(g, l, dir), InoBlock(g, l, child)});
    UnharmedBy(g, l, before, after, i, Mine(RawInode(g, l, before, dir), before) + {InoBlock(g, l, dir),
        InoBlock(g, l, child)});
  }

  lemma SameUnharmed(g: Geometry, l: Layout, disk: Disk, i: nat)
    requires Mounted(g, l, disk) && 1 <= i <= g.inodes && FileLoose(g, l, RawInode(g, l, disk, i), disk)
    ensures Unharmed(g, l, disk, disk, i)
  {
    hide RawInode, LayoutOk, DiskOk, FileLoose, FileMap, Mine, FileBlock, TidyHere;
  }

  /** Whatever an operation did and however it ended, a file it was not on is as it was. */
  lemma OneUnharmed(g: Geometry, l: Layout, w: World, op: Op, before: Disk, after: Disk, i: nat)
    requires Mounted(g, l, before) && Mounted(g, l, after) && FsOk(g, l, before, w)
    requires Does(g, l, w, op, before, after) && i in w.files && i != Subject(op)
    ensures 1 <= i <= g.inodes && Unharmed(g, l, before, after, i)
  {
    hide RawInode, LayoutOk, DiskOk, FileLoose, TidyHere, Unharmed, Apart, OthersKept, RestKept, InodeGone, FreeInode,
      NewChild, Entered, DirOk, WriteStored,
      WriteStops, NameStays, DirReceded, InodeSealed, Le16;
    assert FileHere(g, l, before, i);
    assert Apart(g, l, before, i, Subject(op));
    match op
    case Write(ino, _, _, _) =>
      WriteUnharmed(g, l, op, before, after, i);
    case Create(dir, _, _, made) =>
      if made.Ok? {
        RestUnharmed(g, l, dir, made.value, before, after, i);
      } else if after == before {
        SameUnharmed(g, l, before, i);
      } else {
        var ino: nat :| 1 <= ino <= g.inodes && CreationStopped(g, l, dir, ino, before, after);
        RestUnharmed(g, l, dir, ino, before, after, i);
      }
  }

  // ------------------------------------------------------ the file it was on

  /** The file owns what it owned and blocks that were free. */
  ghost predicate SubjectKept(g: Geometry, l: Layout, before: Disk, after: Disk, i: nat)
    requires Mounted(g, l, before) && Mounted(g, l, after) && 1 <= i <= g.inodes
  {
    var out := RawInode(g, l, after, i);
    && FileLoose(g, l, out, after) && InodeSealed(g, i, out)
    && forall b :: b in Mine(out, after) ==> b in Mine(RawInode(g, l, before, i), before) || Free(g, l, before, b)
  }

  lemma NotBoth(mode: nat)
    requires IsFile(mode)
    ensures !IsDir(mode)
  {
  }

  lemma WriteSubject(g: Geometry, l: Layout, w: World, op: Op, before: Disk, after: Disk)
    requires Mounted(g, l, before) && Mounted(g, l, after) && FsOk(g, l, before, w) && op.Write?
    requires Does(g, l, w, op, before, after) && op.ino in Next(g, l, w, op, before).files
    ensures SubjectKept(g, l, before, after, op.ino)
    ensures op.ino in Next(g, l, w, op, before).tidy ==> TidyHere(g, l, after, op.ino)
  {
    hide RawInode, LayoutOk, DiskOk, FileOwned, FileLoose, FileMap, Mine, OthersKept, FreeInode, Decoded, DirOk,
      InodeSealed, Le16, Free, Appendable, Quot,
      StopsAt, Apart, ByteAt, Submap, RestSame, IsFile, IsDir;
    var i := op.ino;
    var raw := RawInode(g, l, before, i);
    assert FileHere(g, l, before, i) && TidyHere(g, l, before, i);
    if op.buf != [] && IsFile(Le16(raw, INO_MODE)) {
      NotBoth(Le16(raw, INO_MODE));
      if op.done.Ok? {
        DecodedFields(g, i, raw);
        DecodedFields(g, i, RawInode(g, l, after, i));
      } else {
        var s: Stop :| StopLeaves(g, l, i, raw, before, after, op.offset, op.buf, op.done.error, s);
        OwnedLoose(g, l, i, raw, after);
      }
    }
  }

  lemma CreateSubject(g: Geometry, l: Layout, w: World, op: Op, before: Disk, after: Disk)
    requires Mounted(g, l, before) && Mounted(g, l, after) && FsOk(g, l, before, w) && op.Create?
    requires Does(g, l, w, op, before, after) && (op.made.Err? || Stays(g, l, op, before))
    ensures SubjectKept(g, l, before, after, op.dir) && TidyHere(g, l, after, op.dir)
    ensures op.made.Ok? ==>
              forall b :: b in Mine(RawInode(g, l, after, op.dir), after)
                  ==> b !in Mine(RawInode(g, l, after, op.made.value), after)
  {
    hide RawInode, LayoutOk, DiskOk, FileOwned, FileLoose, FileMap, Mine, FreeInode, DirBlocksOk, AllLinks, InodeSealed,
      Le16, Free, Apart, RestKept, InodeGone,
      Born, Grown, IsDir, NameStays;
    var i := op.dir;
    assert FileHere(g, l, before, i) && TidyHere(g, l, before, i);
    OwnedLoose(g, l, i, RawInode(g, l, after, i), after);
    if op.made.Err? && after != before {
      var ino: nat :| 1 <= ino <= g.inodes && CreationStopped(g, l, i, ino, before, after);
    }
  }

  lemma ChildAfter(g: Geometry, l: Layout, w: World, op: Op, before: Disk, after: Disk)
    requires Mounted(g, l, before) && Mounted(g, l, after) && Does(g, l, w, op, before, after) && op.Create?
    requires op.made.Ok?
    ensures 1 <= op.made.value <= g.inodes && TidyHere(g, l, after, op.made.value)
    ensures var child := RawInode(g, l, after, op.made.value);
            && FileLoose(g, l, child, after) && InodeSealed(g, op.made.value, child) && forall b ::
                 b in Mine(child, after) ==> Free(g, l, before, b)
  {
    hide RawInode, LayoutOk, DiskOk, InodeSealed, FileOwned, FileLoose, FileMap, Mine, Free, AllLinks, RestKept,
      InodeGone, DirBlocksOk, Le16, NameStays, Entered,
      RawSize, RawBlocks;
    var child := RawInode(g, l, after, op.made.value);
    BornOwned(g, l, op.made.value, op.dir, op.isDir, child, after);
    DecodedFields(g, op.made.value, child);
  }

  lemma NoInodeFreed(g: Geometry, l: Layout, w: World, op: Op, before: Disk, after: Disk, i: nat)
    requires Mounted(g, l, before) && Mounted(g, l, after) && Does(g, l, w, op, before, after)
    requires !FreeInode(g, l, before, i) || (op.Create? && op.made == Ok(i))
    ensures !FreeInode(g, l, after, i)
  {
    hide RawInode, LayoutOk, DiskOk, KeptBlocks, Mine, Entered, RestKept, WriteStored, WriteStops, InodesKept,
      FreeInode, NewChild, NameStays, DirOk, DirReceded;
    if op.Create? && op.made.Err? && after != before {
      var ino: nat :| 1 <= ino <= g.inodes && CreationStopped(g, l, op.dir, ino, before, after);
    }
  }

  // ------------------------------------------------------------- every step

  /** Who is followed afterwards: an old file that was not touched, the subject, or a new one. */
  lemma Followed(g: Geometry, l: Layout, w: World, op: Op, before: Disk, i: nat)
    requires Mounted(g, l, before) && 1 <= Subject(op) <= g.inodes && w.tidy <= w.files && Subject(op) in w.tidy
    requires i in Next(g, l, w, op, before).files
    ensures i in w.files || (op.Create? && op.made == Ok(i))
    ensures i in Next(g, l, w, op, before).tidy && i != Subject(op) ==> i in w.tidy || (op.Create? && op.made == Ok(i))
    ensures i == Subject(op) && op.Create? && op.made != Ok(i) ==> op.made.Err? || Stays(g, l, op, before)
  {
    hide LayoutOk, DiskOk, InOrder, Stays;
  }

  lemma NextTidy(g: Geometry, l: Layout, w: World, op: Op, before: Disk)
    requires Mounted(g, l, before) && 1 <= Subject(op) <= g.inodes && w.tidy <= w.files
    ensures Next(g, l, w, op, before).tidy <= Next(g, l, w, op, before).files
  {
    hide LayoutOk, DiskOk, InOrder, Stays;
  }

  /** A creation hands out an inode that was free, so none that is followed. */
  lemma ChildNew(g: Geometry, l: Layout, w: World, op: Op, before: Disk, after: Disk)
    requires Mounted(g, l, before) && Mounted(g, l, after) && FsOk(g, l, before, w) && Does(g, l, w, op, before, after)
    requires op.Create? && op.made.Ok?
    ensures op.made.value !in w.files
  {
    hide RawInode, LayoutOk, DiskOk, FileLoose, InodeSealed, FreeInode, Entered, RestKept, NewChild, NameStays, DirOk,
      Apart, TidyHere, Le16;
    forall i | i in w.files ensures i != op.made.value { assert FileHere(g, l, before, i); }
  }

  lemma SubjectAfter(g: Geometry, l: Layout, w: World, op: Op, before: Disk, after: Disk)
    requires Mounted(g, l, before) && Mounted(g, l, after) && FsOk(g, l, before, w) && Does(g, l, w, op, before, after)
    requires Subject(op) in Next(g, l, w, op, before).files
    ensures SubjectKept(g, l, before, after, Subject(op))
    ensures Subject(op) in Next(g, l, w, op, before).tidy ==> TidyHere(g, l, after, Subject(op))
  {
    hide LayoutOk, DiskOk, SubjectKept, TidyHere, FileHere, Apart, WriteOutcome, CreateOutcome, Next, Stays;
    if op.Write? {
      WriteSubject(g, l, w, op, before, after);
    } else {
      Followed(g, l, w, op, before, op.dir);
      if op.made.Ok? { ChildNew(g, l, w, op, before, after); }
      CreateSubject(g, l, w, op, before, after);
    }
  }

  lemma HereAfter(g: Geometry, l: Layout, w: World, op: Op, before: Disk, after: Disk, i: nat)
    requires Mounted(g, l, before) && Mounted(g, l, after) && FsOk(g, l, before, w) && Does(g, l, w, op, before, after)
    requires i in Next(g, l, w, op, before).files
    ensures FileHere(g, l, after, i) && (i in Next(g, l, w, op, before).tidy ==> TidyHere(g, l, after, i))
  {
    hide RawInode, LayoutOk, DiskOk, InodeSealed, FileLoose, TidyHere, Mine, FileMap, FileBlock, FreeInode, Free,
      WriteOutcome, CreateOutcome, Next, Apart, Stays;
    Followed(g, l, w, op, before, i);
    if i in w.files { assert FileHere(g, l, before, i); }
    NoInodeGone(g, l, w, op, before, after, i);
    if i == Subject(op) {
      SubjectAfter(g, l, w, op, before, after);
    } else if i in w.files {
      OneUnharmed(g, l, w, op, before, after, i);
      if op.Create? && op.made.Ok? { ChildNew(g, l, w, op, before, after); }
      if i in w.tidy { assert TidyHere(g, l, before, i); }
    } else {
      ChildAfter(g, l, w, op, before, after);
    }
  }

  lemma NoInodeGone(g: Geometry, l: Layout, w: World, op: Op, before: Disk, after: Disk, i: nat)
    requires Mounted(g, l, before) && Mounted(g, l, after) && FsOk(g, l, before, w) && Does(g, l, w, op, before, after)
    requires i in w.files || (op.Create? && op.made == Ok(i))
    ensures !FreeInode(g, l, after, i)
  {
    hide RawInode, LayoutOk, DiskOk, FileLoose, InodeSealed, TidyHere, Apart, FreeInode, Does;
    if i in w.files { assert FileHere(g, l, before, i); }
    NoInodeFreed(g, l, w, op, before, after, i);
  }

  /** Blocks of a file that is not the subject are in use and stay its own. */
  lemma OldBlocks(g: Geometry, l: Layout, w: World, op: Op, before: Disk, after: Disk, i: nat, b: nat)
    requires Mounted(g, l, before) && Mounted(g, l, after) && FsOk(g, l, before, w) && Does(g, l, w, op, before, after)
    requires i in w.files && i != Subject(op) && 1 <= i <= g.inodes && b in Mine(RawInode(g, l, after, i), after)
    ensures b in Mine(RawInode(g, l, before, i), before) && !Free(g, l, before, b)
  {
    hide RawInode, LayoutOk, DiskOk, InodeSealed, FileLoose, TidyHere, Mine, FileMap, FileBlock, FreeInode, Does, Free,
      Apart;
    assert FileHere(g, l, before, i);
    OneUnharmed(g, l, w, op, before, after, i);
    MineOutside(g, l, RawInode(g, l, before, i), before, b);
  }

  /** What anybody who is followed afterwards owns: what it owned, and blocks that were free. */
  lemma BlocksAfter(g: Geometry, l: Layout, w: World, op: Op, before: Disk, after: Disk, i: nat, b: nat)
    requires Mounted(g, l, before) && Mounted(g, l, after) && FsOk(g, l, before, w) && Does(g, l, w, op, before, after)
    requires i in Next(g, l, w, op, before).files && 1 <= i <= g.inodes && b in Mine(RawInode(g, l, after, i), after)
    ensures (i in w.files && b in Mine(RawInode(g, l, before, i), before)) || Free(g, l, before, b)
  {
    hide RawInode, LayoutOk, DiskOk, InodeSealed, FileLoose, TidyHere, FileHere, Mine, FreeInode, Free, WriteOutcome,
      CreateOutcome, Next, Apart, Stays;
    Followed(g, l, w, op, before, i);
    if i == Subject(op) {
      SubjectAfter(g, l, w, op, before, after);
    } else if i in w.files {
      OldBlocks(g, l, w, op, before, after, i, b);
    } else {
      ChildAfter(g, l, w, op, before, after);
    }
  }

  /** Whoever else owns a block afterwards, an old file does not. */
  lemma ApartFromOld(g: Geometry, l: Layout, w: World, op: Op, before: Disk, after: Disk, i: nat, j: nat)
    requires Mounted(g, l, before) && Mounted(g, l, after) && FsOk(g, l, before, w) && Does(g, l, w, op, before, after)
    requires i in Next(g, l, w, op, before).files && j in w.files && i != j && j != Subject(op) && 1 <= i <= g.inodes
    requires 1 <= j <= g.inodes
    ensures Apart(g, l, after, i, j) && Apart(g, l, after, j, i)
  {
    hide RawInode, LayoutOk, DiskOk, FileHere, TidyHere, Mine, FreeInode, Free, Does, Next;
    if i in w.files { assert Apart(g, l, before, i, j); }
    forall b | b in Mine(RawInode(g, l, after, j), after) ensures b !in Mine(RawInode(g, l, after, i), after) {
      OldBlocks(g, l, w, op, before, after, j, b);
      if b in Mine(RawInode(g, l, after, i), after) { BlocksAfter(g, l, w, op, before, after, i, b); }
    }
  }

  /** The directory and the new inode. */
  lemma ApartFromChild(g: Geometry, l: Layout, w: World, op: Op, before: Disk, after: Disk)
    requires Mounted(g, l, before) && Mounted(g, l, after) && FsOk(g, l, before, w) && Does(g, l, w, op, before, after)
    requires op.Create? && op.made.Ok? && op.dir in Next(g, l, w, op, before).files && 1 <= op.made.value <= g.inodes
    ensures Apart(g, l, after, op.dir, op.made.value) && Apart(g, l, after, op.made.value, op.dir)
  {
    hide RawInode, LayoutOk, DiskOk, FileHere, TidyHere, Mine, FreeInode, Free, WriteOutcome, CreateOutcome, Next,
      Stays, SubjectKept;
    ChildNew(g, l, w, op, before, after);
    Followed(g, l, w, op, before, op.dir);
    CreateSubject(g, l, w, op, before, after);
  }

  /** Every operation, however it ends, keeps the files it leaves followed in order and apart. */
  lemma StepOk(g: Geometry, l: Layout, w: World, op: Op, before: Disk, after: Disk)
    requires Mounted(g, l, before) && Mounted(g, l, after) && FsOk(g, l, before, w) && Does(g, l, w, op, before, after)
    ensures FsOk(g, l, after, Next(g, l, w, op, before))
  {
    hide RawInode, LayoutOk, DiskOk, FileLoose, InodeSealed, TidyHere, Mine, FreeInode, WriteOutcome, CreateOutcome,
      Next, Apart, Stays;
    var more := Next(g, l, w, op, before);
    NextTidy(g, l, w, op, before);
    forall i | i in more.files ensures FileHere(g, l, after, i) && (i in more.tidy ==> TidyHere(g, l, after, i)) {
      HereAfter(g, l, w, op, before, after, i);
    }
    forall i, j | i in more.files && j in more.files && i != j ensures Apart(g, l, after, i, j) {
      assert FileHere(g, l, after, i) && FileHere(g, l, after, j);
      Followed(g, l, w, op, before, i);
      Followed(g, l, w, op, before, j);
      if j in w.files && j != Subject(op) {
        ApartFromOld(g, l, w, op, before, after, i, j);
      } else if i in w.files && i != Subject(op) {
        ApartFromOld(g, l, w, op, before, after, j, i);
      } else {
        ApartFromChild(g, l, w, op, before, after);
      }
    }
  }

  // ------------------------------------------------------------------- runs

  /** The driver's state: the disk and its two free counts. */
  datatype State = State(disk: Disk, freeBlocks: nat, freeInodes: nat)

  ghost predicate Good(g: Geometry, l: Layout, s: State): (ok: bool)
    ensures ok ==> Mounted(g, l, s.disk)
  {
    Consistent(g, l, s.disk, s.freeBlocks, s.freeInodes) && (Mounts(g, l, s.disk, s.freeBlocks, s.freeInodes); true)
  }

  /** One call, as its contract says: on a consistent volume it leaves a consistent one. */
  ghost predicate Called(g: Geometry, l: Layout, w: World, op: Op, s: State, t: State, v: World) {
    Good(g, l, s) ==> Good(g, l, t) && Does(g, l, w, op, s.disk, t.disk) && v == Next(g, l, w, op, s.disk)
  }

  /** The volume went through `states`, one operation after the other. */
  ghost predicate Run(g: Geometry, l: Layout, ops: seq<Op>, states: seq<State>, worlds: seq<World>) {
    && |states| == |worlds| == |ops| + 1 && Good(g, l, states[0])
    && forall n :: 0 <= n < |ops| ==> Called(g, l, worlds[n], ops[n], states[n], states[n + 1], worlds[n + 1])
  }

  /** However long the driver runs and whatever fails, no two files share a block and the
      volume stays consistent. */
  lemma {:induction false} RunOk(g: Geometry, l: Layout, ops: seq<Op>, states: seq<State>, worlds: seq<World>, n: nat)
    requires Run(g, l, ops, states, worlds) && n <= |ops| && FsOk(g, l, states[0].disk, worlds[0])
    ensures Good(g, l, states[n]) && FsOk(g, l, states[n].disk, worlds[n])
  {
    hide Does, Good, Mounted, FsOk, Next;
    if n > 0 {
      RunOk(g, l, ops, states, worlds, n - 1);
      assert Called(g, l, worlds[n - 1], ops[n - 1], states[n - 1], states[n], worlds[n]);
      StepOk(g, l, worlds[n - 1], ops[n - 1], states[n - 1].disk, states[n].disk);
    }
  }

  lemma StaysFollowed(g: Geometry, l: Layout, w: World, op: Op, before: Disk, i: nat)
    requires Mounted(g, l, before) && 1 <= Subject(op) <= g.inodes && i in w.files && i != Subject(op)
    ensures i in Next(g, l, w, op, before).files
  {
    hide LayoutOk, DiskOk, InOrder, Stays;
  }

  /** A file that no operation of the run is on keeps its inode and its bytes. */
  lemma {:induction false} RunUnharmed(g: Geometry, l: Layout, ops: seq<Op>, states: seq<State>, worlds: seq<World>,
                                       i: nat, n: nat)
    requires Run(g, l, ops, states, worlds) && n <= |ops| && FsOk(g, l, states[0].disk, worlds[0])
    requires i in worlds[0].files && 1 <= i <= g.inodes && forall m :: 0 <= m < n ==> Subject(ops[m]) != i
    ensures Good(g, l, states[n]) && i in worlds[n].files && Unharmed(g, l, states[0].disk, states[n].disk, i)
  {
    hide LayoutOk, DiskOk, InodeSealed, FileLoose, TidyHere, RawInode, FileMap, Mine, FileBlock, FreeInode,
      WriteOutcome, CreateOutcome, Good, Next, Apart;
    if n == 0 {
      assert FileHere(g, l, states[0].disk, i);
      SameUnharmed(g, l, states[0].disk, i);
    } else {
      RunUnharmed(g, l, ops, states, worlds, i, n - 1);
      RunOk(g, l, ops, states, worlds, n - 1);
      assert Called(g, l, worlds[n - 1], ops[n - 1], states[n - 1], states[n], worlds[n]);
      StaysFollowed(g, l, worlds[n - 1], ops[n - 1], states[n - 1].disk, i);
      OneUnharmed(g, l, worlds[n - 1], ops[n - 1], states[n - 1].disk, states[n].disk, i);
    }
  }

  /** A created name is found and stands for the new inode; every other name as before. */
  lemma CreatedFound(g: Geometry, l: Layout, dir: nat, name: Buffer, isDir: bool, ino: nat, before: Disk, after: Disk,
                     links: nat, other: Buffer)
    requires Mounted(g, l, before) && Mounted(g, l, after) && 1 <= dir <= g.inodes && 1 <= ino <= g.inodes
    requires Entered(g, l, dir, name, isDir, ino, before, after, links)
    requires Find(AllLinks(g, before, RawInode(g, l, before, dir)), name).None?
    ensures Find(AllLinks(g, after, RawInode(g, l, after, dir)), other)
            == if other == name then Some(ino) else Find(AllLinks(g, before, RawInode(g, l, before, dir)), other)
  {
    hide LayoutOk, DiskOk, RawInode, AllLinks, DirOk, Born, Mine, Find;
    GrownFind(AllLinks(g, before, RawInode(g, l, before, dir)), AllLinks(g, after, RawInode(g, l, after, dir)),
              NewLink(name, ino, RawInode(g, l, after, ino)), other);
  }

  // --------------------------------------------------------- allocation runs

  ghost predicate NothingFreed(g: Geometry, l: Layout, before: Disk, after: Disk) {
    && (forall b: nat :: Free(g, l, after, b) ==> Free(g, l, before, b))
    && (forall i: nat :: FreeInode(g, l, after, i) ==> FreeInode(g, l, before, i))
  }

  /** A run of allocations: the n-th goes from `from[n]` to `to[n]` and hands out block or
      inode `got[n]`; in between, anything may happen that frees nothing. */
  ghost predicate AllocRun(g: Geometry, l: Layout, inodes: bool, got: seq<nat>, from: seq<Disk>, to: seq<Disk>)
    requires GeometryOk(g) && LayoutOk(g, l)
  {
    && |from| == |to| == |got|
    && (forall n :: 0 <= n < |got| ==>
          if inodes then InodeGone(g, l, from[n], to[n], got[n]) else BlockGone(g, l, from[n], to[n], got[n]))
    && (forall n :: 0 < n < |got| ==> NothingFreed(g, l, to[n - 1], from[n]))
  }

  /** What was handed out once is not free at any later allocation. */
  lemma {:induction false} GoneStays(g: Geometry, l: Layout, inodes: bool, got: seq<nat>, from: seq<Disk>,
                                     to: seq<Disk>, i: nat, j: nat)
    requires GeometryOk(g) && LayoutOk(g, l) && AllocRun(g, l, inodes, got, from, to) && i < j < |got|
    ensures if inodes then !FreeInode(g, l, from[j], got[i]) else !Free(g, l, from[j], got[i])
    decreases j
  {
    hide Free, FreeInode, GeometryOk, LayoutOk;
    if i + 1 < j { GoneStays(g, l, inodes, got, from, to, i, j - 1); }
    assert NothingFreed(g, l, to[j - 1], from[j]);
  }

  /** No block and no inode is handed out twice, and none that was in use. */
  lemma NeverTwice(g: Geometry, l: Layout, inodes: bool, got: seq<nat>, from: seq<Disk>, to: seq<Disk>, i: nat, j: nat)
    requires GeometryOk(g) && LayoutOk(g, l) && AllocRun(g, l, inodes, got, from, to) && i < j < |got|
    ensures got[i] != got[j]
  {
    hide Free, FreeInode, GeometryOk, LayoutOk;
    GoneStays(g, l, inodes, got, from, to, i, j);
  }
}
