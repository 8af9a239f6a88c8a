/** What writes make of the content of a file: when the new bytes are laid over the old ones, and
    when stale bytes show up behind the old end. */
module Contents {
  import opened Arith
  import opened Bytes
  import opened Volume
  import opened Allocator
  import opened Extents
  import opened ExtentTree
  import opened TreeGrowth
  import opened OwnedTree
  import opened Inodes
  import opened Files
  import opened Creation
  import opened Runs

  // ------------------------------------------------- which gaps are safe

  /** No byte between the end of the file and the write lies in a block the file has. */
  ghost predicate GapSafe(g: Geometry, fm: map<nat, nat>, size: nat, offset: nat)
    requires g.bs > 0
  {
    forall p: nat :: size <= p < offset ==> Quot(p, g.bs) !in fm
  }

  /** The two disks differ in data blocks of the file at most. */
  ghost predicate DataOnly(g: Geometry, fm: map<nat, nat>, disk: Disk, d: Disk) {
    && |d| == |disk| && (forall b: nat :: b < |d| ==> |d[b]| == g.bs)
    && forall b: nat :: b < |d| && b !in fm.Values ==> d[b] == disk[b]
  }

  /** The file is the same on both disks but for its bytes. */
  lemma OtherBytes(g: Geometry, l: Layout, raw: Buffer, disk: Disk, d: Disk)
    requires |raw| == INODE_BUF && FileLoose(g, l, raw, disk) && DataOnly(g, FileMap(raw, disk), disk, d)
    ensures FileMap(raw, d) == FileMap(raw, disk)
  {
    hide TreeLoose, MapOf, TreeExtents, Free;
    var fm := FileMap(raw, disk);
    forall i | 0 <= i < |Kids(raw)| ensures SameBlock(disk, d, Kids(raw)[i].child) {
      var b := Kids(raw)[i].child;
      assert b in KidBlocks(raw) && Owned(g, l, disk, b);
    }
    LooseFrame(raw, disk, d);
  }

  function Ones(n: nat): (r: Buffer)
    ensures |r| == n && forall k :: 0 <= k < n ==> r[k] == 1
  {
    seq(n, _ => 1)
  }

  /** A byte of a block the file has can be anything. */
  lemma AnyByte(g: Geometry, l: Layout, raw: Buffer, disk: Disk, p: nat) returns (d: Disk)
    requires g.bs > 0 && |raw| == INODE_BUF && FileLoose(g, l, raw, disk)
    requires (forall b: nat :: b < |disk| ==> |disk[b]| == g.bs)
    requires Quot(p, g.bs) in FileMap(raw, disk)
    ensures DataOnly(g, FileMap(raw, disk), disk, d) && FileMap(raw, d) == FileMap(raw, disk)
    ensures ByteAt(g, d, FileMap(raw, disk), p) == 1
  {
    hide TreeLoose, TreeOwned, FileMap, Quot, Free;
    var fm := FileMap(raw, disk);
    var b := fm[Quot(p, g.bs)];
    assert b in fm.Values && Owned(g, l, disk, b);
    d := disk[b := Ones(g.bs)];
    OtherBytes(g, l, raw, disk, d);
    QuotRem(p, g.bs);
  }

  /** The gap reads as zeros whatever the blocks of the file hold exactly when none of them meets
      it: what can be told from the size, the offset and the map. */
  lemma GapExact(g: Geometry, l: Layout, raw: Buffer, disk: Disk, offset: nat)
    requires g.bs > 0 && |raw| == INODE_BUF && FileLoose(g, l, raw, disk)
    requires (forall b: nat :: b < |disk| ==> |disk[b]| == g.bs)
    ensures GapSafe(g, FileMap(raw, disk), RawSize(g, raw), offset)
            <==> forall d: Disk :: DataOnly(g, FileMap(raw, disk), disk, d) ==> GapZero(g, d, raw, offset)
    ensures offset <= RawSize(g, raw) ==> GapSafe(g, FileMap(raw, disk), RawSize(g, raw), offset)
  {
    hide FileLoose, FileMap, RawSize, Quot, Rem, DataOnly;
    var fm, size := FileMap(raw, disk), RawSize(g, raw);
    if GapSafe(g, fm, size, offset) {
      forall d: Disk | DataOnly(g, fm, disk, d) ensures GapZero(g, d, raw, offset) { OtherBytes(g, l, raw, disk, d); }
    } else {
      var p: nat :| size <= p < offset && Quot(p, g.bs) in fm;
      var d := AnyByte(g, l, raw, disk, p);
      assert !GapZero(g, d, raw, offset);
    }
  }

  /** A write over a safe gap lays its bytes over the content. */
  lemma SafeOverlay(g: Geometry, l: Layout, ino: nat, before: Disk, after: Disk, offset: nat, buf: Buffer)
    requires Mounted(g, l, before) && Mounted(g, l, after) && 1 <= ino <= g.inodes && buf != []
    requires WriteStored(g, l, ino, before, after, offset, buf)
    requires SizeFits(g, Max(RawSize(g, RawInode(g, l, before, ino)), offset + |buf|))
    requires var raw := RawInode(g, l, before, ino); GapSafe(g, FileMap(raw, before), RawSize(g, raw), offset)
    ensures Content(g, after, RawInode(g, l, after, ino)) == Overlay(Content(g, before, RawInode(g, l, before, ino)),
        offset, buf)
  {
    hide RawInode, LayoutOk, DiskOk, WriteStored, FileMap, RawSize, Content, Overlay, Quot, Rem, SizeFits;
    ContentAfterWrite(g, l, ino, before, after, offset, buf);
  }

  // ---------------------------------------------------- stale bytes show up

  /** An inode of ten bytes in one block, block 5. */
  function TenBytes(): (raw: Buffer)
    ensures |raw| == INODE_BUF
  {
    Zeros(INODE_BUF)[INO_SIZE_LO := 10][IBLOCK := 0x0A][IBLOCK + 1 := 0xF3][IBLOCK + 2 := 1][IBLOCK + 4 := 4]
      [IBLOCK + 16 := 1][IBLOCK + 20 := 5]
  }

  lemma TenBytesMap(disk: Disk)
    ensures FileMap(TenBytes(), disk) == map[0 := 5]
  {
    var raw := TenBytes();
    assert RdHdr(raw, IBLOCK) == Some(Header(1, 4, 0));
    assert RdExtent(raw, IBLOCK, 0) == Some(Extent(0, 1, 5));
    assert Shown(raw, IBLOCK, 0) == [];
    assert TreeExtents(raw, disk) == [Extent(0, 1, 5)];
    MapOfSingle([], 0, 5);
    assert [] + [Extent(0, 1, 5)] == [Extent(0, 1, 5)];
  }

  /** With a block full of ones, a write at offset 20 of a file of ten bytes does not leave zeros in
      between: the gap is neither safe nor zero. */
  lemma StaleExample(g: Geometry)
    requires g.bs >= 1024
    ensures var disk := seq(6, _ => Ones(g.bs)); var raw := TenBytes();
            && RawSize(g, raw) == 10 && !GapSafe(g, FileMap(raw, disk), 10, 20) && !GapZero(g, disk, raw, 20)
            && Content(g, disk, raw) == Ones(10)
  {
    var disk, raw := seq(6, _ => Ones(g.bs)), TenBytes();
    TenBytesMap(disk);
    assert RawSize(g, raw) == 10 by { TenBytesSize(g); }
    forall p: nat | p < 20 ensures Quot(p, g.bs) == 0 && ByteAt(g, disk, map[0 := 5], p) == 1 {
      QuotOfTimes(0, g.bs, p);
      QuotRem(p, g.bs);
    }
    assert ByteAt(g, disk, map[0 := 5], 15) == 1;
    assert Quot(15, g.bs) in map[0 := 5];
  }

  lemma TenBytesSize(g: Geometry)
    ensures RawSize(g, TenBytes()) == 10
  {
  }

  /** The driver itself leads there: a write past the end that ran out of space after some bytes
      had arrived leaves them behind the end of the file, where a later write past them lets them
      show up. */
  lemma StaleBytes(g: Geometry, l: Layout, ino: nat, raw: Buffer, before: Disk, after: Disk, offset: nat, done: nat,
                   buf: Buffer, p: nat, later: nat)
    requires g.bs >= 12 && |raw| == INODE_BUF && done <= |buf|
    requires Remnant(g, l, ino, raw, before, after, offset, done, buf)
    requires RawSize(g, raw) <= p < later && offset <= p < offset + done && buf[p - offset] != 0
    requires Quot(p, g.bs) in FileMap(raw, after)
    ensures !GapSafe(g, FileMap(raw, after), RawSize(g, raw), later) && !GapZero(g, after, raw, later)
  {
    hide FileOwned, FileMap, Mine, Free, RawSize, Quot, ByteAt;
    assert ByteAt(g, after, FileMap(raw, after), p) == buf[p - offset];
  }

  /** Without 64-bit fields a byte written at 2^32 into an empty file is not read back: the size is
      cut to one, and reading at the offset gets nothing. */
  lemma CutExample(g: Geometry, l: Layout, ino: nat, before: Disk, after: Disk, b: byte)
    requires Mounted(g, l, before) && Mounted(g, l, after) && 1 <= ino <= g.inodes && !g.has64
    requires RawSize(g, RawInode(g, l, before, ino)) == 0 && WriteStored(g, l, ino, before, after, 0x1_0000_0000, [b])
    ensures RawSize(g, RawInode(g, l, after, ino)) == 1
    ensures FileBytes(g, after, RawInode(g, l, after, ino), 0x1_0000_0000, 1) == []
  {
    hide FileOwned, FileLoose, Mine, InodeSealed, LayoutOk, DiskOk, ByteAt, FileMap, RawInode, RestSame, Appendable,
      Submap, RawSize, RawBlocks, Le16, Le32, Quot;
    assert 0x1_0000_0001 % 0x1_0000_0000 == 1;
    DecodedFields(g, ino, RawInode(g, l, after, ino));
  }

  // ---------------------------------------------------- a hole that stays one

  /** A leaf of a 1024-byte block with one extent of one block. */
  function LeafOne(lb: byte, pb: byte): (b: Buffer)
    ensures |b| == 1024
  {
    Zeros(1024)[0 := 0x0A][1 := 0xF3][2 := 1][4 := 84][12 := lb][16 := 1][20 := pb]
  }

  /** An inode with two leaves, block 10 for file blocks from 0 on and block 11 from 100 on. */
  function TwoLeaves(): (raw: Buffer)
    ensures |raw| == INODE_BUF
  {
    Zeros(INODE_BUF)[IBLOCK := 0x0A][IBLOCK + 1 := 0xF3][IBLOCK + 2 := 2][IBLOCK + 4 := 4][IBLOCK + 6 := 1]
      [IBLOCK + 16 := 10][IBLOCK + 24 := 100][IBLOCK + 28 := 11]
  }

  lemma LeafOneReads(g: Geometry, ino: nat, gen: nat, lb: byte, pb: byte)
    requires g.bs == 1024 && !g.metaCsum
    ensures NodeOk(g, ino, gen, LeafOne(lb, pb)) && LeafExtents(LeafOne(lb, pb), 0) == [Extent(lb, 1, pb)]
  {
    var b := LeafOne(lb, pb);
    assert RdHdr(b, 0) == Some(Header(1, 84, 0));
    assert RdExtent(b, 0, 0) == Some(Extent(lb, 1, pb));
    assert Shown(b, 0, 0) == [];
  }

  lemma TwoLeavesHeader()
    ensures RdHdr(TwoLeaves(), IBLOCK) == Some(Header(2, 4, 1))
  {
  }

  lemma TwoLeavesIndex()
    ensures RdIndex(TwoLeaves(), IBLOCK, 0) == Some(Index(0, 10)) && RdIndex(TwoLeaves(), IBLOCK, 1)
        == Some(Index(100, 11))
  {
  }

  lemma TwoLeavesRead()
    ensures Kids(TwoLeaves()) == [Index(0, 10), Index(100, 11)] && RootOk(TwoLeaves())
    ensures RdHdr(TwoLeaves(), IBLOCK) == Some(Header(2, 4, 1))
  {
    hide RdHdr, RdIndex, TwoLeaves;
    TwoLeavesHeader();
    TwoLeavesIndex();
  }

  ghost predicate HasTwoLeaves(disk: Disk) { |disk| > 11 && disk[10] == LeafOne(0, 20) && disk[11] == LeafOne(100, 21) }

  lemma TwoLeavesOk(g: Geometry, ino: nat, disk: Disk)
    requires g.bs == 1024 && !g.metaCsum && HasTwoLeaves(disk)
    ensures TreeOk(g, ino, TwoLeaves(), disk) && TreeExtents(TwoLeaves(), disk)
        == [Extent(0, 1, 20), Extent(100, 1, 21)]
  {
    hide RdHdr, RdIndex, RdExtent, LeafOne, TwoLeaves, Kids, LeafExtents;
    var raw := TwoLeaves();
    var kids := [Index(0, 10), Index(100, 11)];
    TwoLeavesRead();
    LeafOneReads(g, ino, Gen(raw), 0, 20);
    LeafOneReads(g, ino, Gen(raw), 100, 21);
    var ls := Leaves(disk, kids);
    assert ls == [[Extent(0, 1, 20)], [Extent(100, 1, 21)]];
    assert ls[..1] == [ls[0]];
    ConcatOne([ls[0]]);
    assert Concat(ls) == [Extent(0, 1, 20)] + [Extent(100, 1, 21)];
    forall i | 0 <= i < 2 ensures KidOk(g, ino, Gen(raw), disk, kids, i) { }
  }

  lemma {:induction false} LeastExists(g: Geometry, l: Layout, disk: Disk, b: nat) returns (m: nat)
    requires GeometryOk(g) && LayoutOk(g, l) && Spare(g, l, disk, b)
    ensures Least(g, l, disk, m)
    decreases b
  {
    hide Spare, GeometryOk, LayoutOk;
    if x: nat :| x < b && Spare(g, l, disk, x) {
      m := LeastExists(g, l, disk, x);
    } else {
      m := b;
    }
  }

  /** Block 5 of that file is a hole below the key of the last leaf: as long as a block is left, a
      write to it takes one and then fails, since the block is looked for in the first leaf. */
  lemma HoleExample(g: Geometry, l: Layout, ino: nat, disk: Disk)
    requires GeometryOk(g) && LayoutOk(g, l) && g.bs == 1024 && !g.metaCsum && HasTwoLeaves(disk)
    requires !NoBlockLeft(g, l, disk)
    ensures TreeOk(g, ino, TwoLeaves(), disk) && Refused(g, l, TwoLeaves(), disk, 5, Corrupt)
  {
    hide LayoutOk, RdHdr, RdIndex, RdExtent, LeafOne, TwoLeaves, Kids, LeafExtents, TreeOk, Free, ReservedBlock, Least;
    var raw := TwoLeaves();
    TwoLeavesRead();
    TwoLeavesOk(g, ino, disk);
    LeafOneReads(g, ino, 0, 100, 21);
    TailFits(g);
    MapOfKeys(TreeExtents(raw, disk), 5);
    assert 5 !in FileMap(raw, disk);
    forall b: nat ensures Room(g, raw, disk, 5, b) && !Visible(g, raw, disk, 5, b) { }
    var b: nat :| Free(g, l, disk, b) && !ReservedBlock(g, l, b);
    var m := LeastExists(g, l, disk, b);
    assert Fits(g, l, raw, disk, 5, m);
  }

  // -------------------------------------------------------- over whole runs

  /** All bytes behind the end of the file are zero. */
  ghost predicate TailZero(g: Geometry, disk: Disk, raw: Buffer)
    requires g.bs > 0 && |raw| == INODE_BUF
  {
    forall p: nat :: RawSize(g, raw) <= p ==> ByteAt(g, disk, FileMap(raw, disk), p) == 0
  }

  /** A created file is empty and has nothing behind its end. */
  lemma NewEmpty(g: Geometry, l: Layout, ino: nat, dir: nat, raw: Buffer, disk: Disk)
    requires GeometryOk(g) && |raw| == INODE_BUF && Born(g, l, ino, dir, false, raw, disk)
    ensures TailZero(g, disk, raw) && Content(g, disk, raw) == []
  {
    hide FileOwned, FileMap, InodeSealed, RawSize, RawBlocks, Le16, Le32, Quot;
    DecodedFields(g, ino, raw);
    forall p: nat ensures ByteAt(g, disk, map[], p) == 0 { QuotRem(p, g.bs); }
  }

  /** A write whose size can be stored keeps the bytes behind the end zero, and lays its bytes over
      the content. */
  lemma TailKept(g: Geometry, l: Layout, ino: nat, before: Disk, after: Disk, offset: nat, buf: Buffer)
    requires Mounted(g, l, before) && Mounted(g, l, after) && 1 <= ino <= g.inodes && buf != []
    requires WriteStored(g, l, ino, before, after, offset, buf) && TailZero(g, before, RawInode(g, l, before, ino))
    requires SizeFits(g, Max(RawSize(g, RawInode(g, l, before, ino)), offset + |buf|))
    ensures TailZero(g, after, RawInode(g, l, after, ino))
    ensures Content(g, after, RawInode(g, l, after, ino)) == Overlay(Content(g, before, RawInode(g, l, before, ino)),
        offset, buf)
  {
    hide FileOwned, FileLoose, Mine, InodeSealed, LayoutOk, DiskOk, ByteAt, FileMap, RawInode, RestSame, Appendable,
      Submap, RawSize, RawBlocks, Le16, Le32,
      Quot, Content, Overlay;
    ContentAfterWrite(g, l, ino, before, after, offset, buf);
    DecodedFields(g, ino, RawInode(g, l, after, ino));
  }

  lemma UnharmedContent(g: Geometry, l: Layout, before: Disk, after: Disk, i: nat)
    requires Mounted(g, l, before) && Mounted(g, l, after) && 1 <= i <= g.inodes && Unharmed(g, l, before, after, i)
    ensures var raw := RawInode(g, l, before, i);
            Content(g, after, raw) == Content(g, before, raw) && (TailZero(g, before, raw) ==> TailZero(g, after, raw))
  {
    hide LayoutOk, DiskOk, RawInode, FileLoose, TidyHere, Mine, FileMap, FileBlock, RawSize, Quot, Rem;
    var raw := RawInode(g, l, before, i);
    var fm := FileMap(raw, before);
    forall p: nat ensures ByteAt(g, after, fm, p) == ByteAt(g, before, fm, p) { }
    forall n: nat ensures Files.Run(g, after, fm, 0, n) == Files.Run(g, before, fm, 0, n) { }
  }

  /** The writes of a run to file `i`, laid over `s` one after the other. */
  ghost function Laid(s: Buffer, ops: seq<Op>, i: nat): (r: Buffer) {
    if ops == [] then s
    else
      var m := |ops| - 1;
      var t := Laid(s, ops[..m], i);
      if ops[m].Write? && ops[m].ino == i && ops[m].buf != [] then Overlay(t, ops[m].offset, ops[m].buf) else t
  }

  /** All operations of the run on file `i` are writes that succeed with a size that can be stored. */
  ghost predicate WellWritten(g: Geometry, l: Layout, ops: seq<Op>, states: seq<State>, i: nat)
    requires |states| == |ops| + 1 && 1 <= i <= g.inodes
  {
    forall n :: 0 <= n < |ops| ==> WellDone(g, l, ops[n], states[n], i)
  }

  ghost predicate WellDone(g: Geometry, l: Layout, op: Op, s: State, i: nat)
    requires 1 <= i <= g.inodes
  {
    Subject(op) == i && Good(g, l, s) ==>
      op.Write? && op.done.Ok? && SizeFits(g, Max(RawSize(g, RawInode(g, l, s.disk, i)), op.offset + |op.buf|))
  }

  lemma StepContent(g: Geometry, l: Layout, w: World, op: Op, s: State, t: State, v: World, i: nat)
    requires 1 <= i <= g.inodes && Good(g, l, s) && FsOk(g, l, s.disk, w) && Called(g, l, w, op, s, t, v)
    requires WellDone(g, l, op, s, i)
    requires i in w.files && TailZero(g, s.disk, RawInode(g, l, s.disk, i))
    ensures Good(g, l, t) && i in v.files && TailZero(g, t.disk, RawInode(g, l, t.disk, i))
    ensures Content(g, t.disk, RawInode(g, l, t.disk, i))
            == if op.Write? && op.ino == i && op.buf != [] then Overlay(Content(g, s.disk, RawInode(g, l, s.disk, i)),
                op.offset, op.buf)
               else Content(g, s.disk, RawInode(g, l, s.disk, i))
  {
    hide LayoutOk, DiskOk, RawInode, FileHere, TidyHere, Apart, TailZero, Content, Overlay, RawSize, Good, WriteStored,
      WriteStops, OthersKept, CreateOutcome,
      Le16, InOrder, FileMap, SizeFits, Unharmed;
    if Subject(op) == i {
      if op.buf != [] { TailKept(g, l, i, s.disk, t.disk, op.offset, op.buf); }
    } else {
      StaysFollowed(g, l, w, op, s.disk, i);
      OneUnharmed(g, l, w, op, s.disk, t.disk, i);
      UnharmedContent(g, l, s.disk, t.disk, i);
      UnharmedInode(g, l, s.disk, t.disk, i);
    }
  }

  lemma UnharmedInode(g: Geometry, l: Layout, before: Disk, after: Disk, i: nat)
    requires Mounted(g, l, before) && Mounted(g, l, after) && 1 <= i <= g.inodes && Unharmed(g, l, before, after, i)
    ensures RawInode(g, l, after, i) == RawInode(g, l, before, i)
  {
  }

  lemma LaidStep(s: Buffer, ops: seq<Op>, i: nat, n: nat)
    requires n < |ops|
    ensures Laid(s, ops[..n + 1], i)
            == if ops[n].Write? && ops[n].ino == i && ops[n].buf != []
                then Overlay(Laid(s, ops[..n], i), ops[n].offset, ops[n].buf) else Laid(s, ops[..n], i)
  {
    hide Overlay;
    assert ops[..n + 1][..n] == ops[..n];
  }

  /** After any run the content of a file is its first content with the writes to it laid over it
      in turn, whatever else was done, in between, to other files and with whatever success. */
  lemma {:induction false} RunContent(g: Geometry, l: Layout, ops: seq<Op>, states: seq<State>, worlds: seq<World>,
                                      i: nat, n: nat)
    requires Runs.Run(g, l, ops, states, worlds) && n <= |ops| && FsOk(g, l, states[0].disk, worlds[0])
    requires 1 <= i <= g.inodes && i in worlds[0].files && WellWritten(g, l, ops, states, i)
    requires TailZero(g, states[0].disk, RawInode(g, l, states[0].disk, i))
    ensures Good(g, l, states[n]) && i in worlds[n].files && TailZero(g, states[n].disk,
        RawInode(g, l, states[n].disk, i))
    ensures Content(g, states[n].disk, RawInode(g, l, states[n].disk, i))
            == Laid(Content(g, states[0].disk, RawInode(g, l, states[0].disk, i)), ops[..n], i)
  {
    hide LayoutOk, DiskOk, RawInode, FsOk, TailZero, Content, Overlay, Good, Called, Laid;
    if n == 0 {
      LaidNothing(Content(g, states[0].disk, RawInode(g, l, states[0].disk, i)), ops, i);
    } else {
      RunContent(g, l, ops, states, worlds, i, n - 1);
      RunOk(g, l, ops, states, worlds, n - 1);
      assert WellDone(g, l, ops[n - 1], states[n - 1], i);
      StepContent(g, l, worlds[n - 1], ops[n - 1], states[n - 1], states[n], worlds[n], i);
      LaidStep(Content(g, states[0].disk, RawInode(g, l, states[0].disk, i)), ops, i, n - 1);
    }
  }

  lemma LaidNothing(s: Buffer, ops: seq<Op>, i: nat)
    ensures Laid(s, ops[..0], i) == s
  {
    assert ops[..0] == [];
  }
}
