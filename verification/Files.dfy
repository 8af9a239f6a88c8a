/** Files: the blocks an inode owns, the bytes they hold, and what a write changes. */
module Files {
  import opened Arith
  import opened Bytes
  import opened Volume
  import opened Allocator
  import opened Frame
  import opened Extents
  import opened ExtentTree
  import opened TreeGrowth
  import opened OwnedTree
  import opened Inodes

  /** No two file blocks share a disk block, and none is in use by the tree or anyone else. */
  ghost predicate DataOwned(g: Geometry, l: Layout, fm: map<nat, nat>, kids: set<nat>, disk: Disk) {
    && (forall k :: k in fm ==> Owned(g, l, disk, fm[k]) && fm[k] !in kids)
    && (forall j, k :: j in fm && k in fm && j != k ==> fm[j] != fm[k])
  }

  ghost predicate FileOwned(g: Geometry, l: Layout, ino: nat, raw: Buffer, disk: Disk)
    requires g.bs >= 12 && |raw| == INODE_BUF
  {
    && TreeOk(g, ino, raw, disk) && TreeOwned(g, l, raw, disk)
    && DataOwned(g, l, FileMap(raw, disk), KidBlocks(raw), disk)
  }

  /** What is left of that in a file whose blocks are found but whose extents are out of order. */
  ghost predicate FileLoose(g: Geometry, l: Layout, raw: Buffer, disk: Disk)
    requires |raw| == INODE_BUF
  {
    && TreeLoose(raw, disk) && TreeOwned(g, l, raw, disk)
    && DataOwned(g, l, FileMap(raw, disk), KidBlocks(raw), disk)
  }

  lemma OwnedLoose(g: Geometry, l: Layout, ino: nat, raw: Buffer, disk: Disk)
    requires g.bs >= 12 && |raw| == INODE_BUF
    ensures FileOwned(g, l, ino, raw, disk) <==> FileLoose(g, l, raw, disk) && TreeOk(g, ino, raw, disk)
  {
    hide TreeOk, TreeLoose, TreeOwned, DataOwned, FileMap, KidBlocks;
    if TreeOk(g, ino, raw, disk) { OkLoose(g, ino, raw, disk); }
  }

  /** All blocks of the file: its leaves and its data. */
  function Mine(raw: Buffer, disk: Disk): set<nat>
    requires |raw| == INODE_BUF
  {
    KidBlocks(raw) + FileMap(raw, disk).Values
  }

  /** The bytes of file block `k`; a block that is not mapped reads as zeros. */
  ghost function FileBlock(g: Geometry, disk: Disk, fm: map<nat, nat>, k: nat): (b: Buffer) {
    if k in fm && fm[k] < |disk| then disk[fm[k]] else Zeros(g.bs)
  }

  /** Operations that touch none of a file's blocks leave its map and its bytes alone. */
  lemma FileKept(g: Geometry, l: Layout, ino: nat, raw: Buffer, before: Disk, after: Disk, mine: set<nat>)
    requires g.bs >= 12 && |raw| == INODE_BUF && FileLoose(g, l, raw, before)
    requires KeptBlocks(g, l, before, after, mine) && Mine(raw, before) !! mine
    ensures FileLoose(g, l, raw, after) && FileMap(raw, after) == FileMap(raw, before)
    ensures FileOwned(g, l, ino, raw, before) ==> FileOwned(g, l, ino, raw, after)
    ensures TreeExtents(raw, after) == TreeExtents(raw, before)
    ensures forall k :: FileBlock(g, after, FileMap(raw, before), k) == FileBlock(g, before, FileMap(raw, before), k)
  {
    hide TreeOk, TreeLoose, TreeOwned, TreeExtents, KidBlocks, KeptBlocks, MapOf;
    LooseTreeKept(g, l, raw, before, after, mine);
    if TreeOk(g, ino, raw, before) { TreeKept(g, l, ino, raw, before, after, mine); }
    var fm := FileMap(raw, before);
    forall k | k in fm ensures Owned(g, l, after, fm[k]) && SameBlock(before, after, fm[k]) {
      assert fm[k] in fm.Values;
      OwnedKept(g, l, before, after, mine, fm[k]);
    }
  }

  lemma FileBeyond(g: Geometry, ino: nat, raw: Buffer, disk: Disk, lb: nat)
    requires g.bs >= 12 && |raw| == INODE_BUF && TreeOk(g, ino, raw, disk)
    requires EndsBefore(FileMap(raw, disk), lb)
    ensures Beyond(TreeExtents(raw, disk), lb)
  {
    hide TreeExtents, MapOf;
    assert FileMap(raw, disk) == MapOf(TreeExtents(raw, disk));
    BeyondMap(TreeExtents(raw, disk), lb);
  }

  // -------------------------------------------------------- writing a block

  /** Writing one data block changes that block of the file and nothing else of it. */
  lemma DataWritten(g: Geometry, l: Layout, ino: nat, raw: Buffer, disk: Disk, lb: nat, buf: Buffer)
    requires g.bs >= 12 && |raw| == INODE_BUF && FileLoose(g, l, raw, disk) && lb in FileMap(raw, disk)
    requires FileMap(raw, disk)[lb] < |disk|
    requires KeptBlocks(g, l, disk, disk[FileMap(raw, disk)[lb] := buf], {FileMap(raw, disk)[lb]})
    ensures var fm := FileMap(raw, disk); var after := disk[fm[lb] := buf];
            && FileLoose(g, l, raw, after) && FileMap(raw, after) == fm
            && (TreeOk(g, ino, raw, disk) ==> TreeOk(g, ino, raw, after))
            && forall k :: FileBlock(g, after, fm, k) == if k == lb then buf else FileBlock(g, disk, fm, k)
  {
    hide TreeOk, TreeLoose, TreeOwned, TreeExtents, KidBlocks, KeptBlocks, MapOf;
    var fm := FileMap(raw, disk);
    var after := disk[fm[lb] := buf];
    LooseTreeKept(g, l, raw, disk, after, {fm[lb]});
    if TreeOk(g, ino, raw, disk) { TreeKept(g, l, ino, raw, disk, after, {fm[lb]}); }
    forall k | k in fm ensures Owned(g, l, after, fm[k]) {
      OwnedKept(g, l, disk, after, {fm[lb]}, fm[k]);
    }
  }

  /** All blocks of the file lie before block `lb`. */
  ghost predicate EndsBefore(fm: map<nat, nat>, lb: nat) { forall k :: k in fm ==> k < lb }

  /** A block is mapped, with a disk block that was free. Extents in order stay in order if it
      comes after all others. */
  ghost predicate Extended(g: Geometry, l: Layout, ino: nat, raw: Buffer, out: Buffer, before: Disk, after: Disk,
                           lb: nat, fsb: nat)
    requires g.bs >= 12 && |raw| == |out| == INODE_BUF
  {
    var fm := FileMap(raw, before);
    && FileLoose(g, l, out, after) && FileMap(out, after) == fm[lb := fsb]
    && (EndsBefore(fm, lb) ==> TreeOk(g, ino, out, after))
    && Free(g, l, before, fsb) && NewKids(g, l, before, raw, out) && Kids(raw) <= Kids(out)
    && Kept(g, l, before, after, KidBlocks(raw))
    && forall k :: k in fm ==> FileBlock(g, after, fm, k) == FileBlock(g, before, fm, k)
  }

  /** What inserting the freshly allocated block `fsb` did to the tree. */
  ghost predicate GrewBy(g: Geometry, l: Layout, ino: nat, raw: Buffer, out: Buffer, mid: Disk, after: Disk, lb: nat,
                         fsb: nat)
    requires g.bs >= 12 && |raw| == |out| == INODE_BUF
  {
    && Kept(g, l, mid, after, KidBlocks(raw)) && NewKids(g, l, mid, raw, out) && Kids(raw) <= Kids(out)
    && TreeLoose(out, after) && TreeOwned(g, l, out, after)
    && Placed(g, ino, TreeExtents(raw, mid), out, after, lb, fsb)
    && !Overlong(TreeExtents(raw, mid), lb, fsb)
  }

  lemma DataKept(g: Geometry, l: Layout, ino: nat, raw: Buffer, before: Disk, mid: Disk, after: Disk, k: nat)
    requires g.bs >= 12 && |raw| == INODE_BUF && FileOwned(g, l, ino, raw, before) && k in FileMap(raw, before)
    requires KeptBlocks(g, l, before, mid, {}) && KeptBlocks(g, l, mid, after, KidBlocks(raw))
    ensures Owned(g, l, mid, FileMap(raw, before)[k]) && Owned(g, l, after, FileMap(raw, before)[k])
    ensures SameBlock(before, after, FileMap(raw, before)[k])
  {
    hide TreeOk, TreeOwned, FileMap, KidBlocks, KeptBlocks, Owned;
    var b := FileMap(raw, before)[k];
    OwnedKept(g, l, before, mid, {}, b);
    OwnedKept(g, l, mid, after, KidBlocks(raw), b);
  }

  lemma BlockAdded(g: Geometry, l: Layout, ino: nat, raw: Buffer, out: Buffer, before: Disk, mid: Disk, after: Disk,
                   lb: nat, fsb: nat)
    requires g.bs >= 12 && |raw| == |out| == INODE_BUF && FileOwned(g, l, ino, raw, before)
    requires lb !in FileMap(raw, before)
    requires TreeExtents(raw, mid) == TreeExtents(raw, before) && Kept(g, l, before, mid, {})
    requires Free(g, l, before, fsb) && Owned(g, l, mid, fsb) && fsb !in KidBlocks(raw)
    requires GrewBy(g, l, ino, raw, out, mid, after, lb, fsb)
    ensures Extended(g, l, ino, raw, out, before, after, lb, fsb)
  {
    hide TreeOk, TreeLoose, TreeReadable, Located, TreeOwned, TreeExtents, Kids, KidBlocks, KeptBlocks, SameFreeInodes,
      MapOf, Inserted, Overlong, Beyond;
    var fm := FileMap(raw, before);
    InsertedMap(TreeExtents(raw, mid), lb, fsb);
    if EndsBefore(fm, lb) { FileBeyond(g, ino, raw, before, lb); }
    forall k | k in fm
      ensures Owned(g, l, mid, fm[k]) && Owned(g, l, after, fm[k]) && SameBlock(before, after, fm[k])
    {
      DataKept(g, l, ino, raw, before, mid, after, k);
    }
    OwnedKept(g, l, mid, after, KidBlocks(raw), fsb);
    KeptMore(g, l, before, mid, {}, KidBlocks(raw));
    KeptTrans(g, l, before, mid, after, KidBlocks(raw), KidBlocks(raw));
    NewKidsBefore(g, l, before, mid, raw, out);
  }

  /** A block that was allocated and filled before it is mapped. */
  lemma BlockPrepared(g: Geometry, l: Layout, ino: nat, raw: Buffer, before: Disk, mid: Disk, fsb: nat, nb: Buffer)
    requires g.bs >= 12 && |raw| == INODE_BUF && TreeOk(g, ino, raw, mid) && TreeOwned(g, l, raw, mid)
    requires KidsSame(raw, before, mid)
    requires TreeExtents(raw, mid) == TreeExtents(raw, before) && Kept(g, l, before, mid, {})
    requires Free(g, l, before, fsb) && Owned(g, l, mid, fsb) && fsb !in KidBlocks(raw)
    requires Kept(g, l, mid, mid[fsb := nb], {fsb})
    ensures TreeOk(g, ino, raw, mid[fsb := nb]) && TreeOwned(g, l, raw, mid[fsb := nb])
    ensures KidsSame(raw, before, mid[fsb := nb])
    ensures TreeExtents(raw, mid[fsb := nb]) == TreeExtents(raw, before) && Kept(g, l, before, mid[fsb := nb], {})
    ensures Owned(g, l, mid[fsb := nb], fsb)
  {
    hide TreeOk, TreeOwned, TreeExtents, KidBlocks, Kids, KeptBlocks, SameFreeInodes;
    TreeKept(g, l, ino, raw, mid, mid[fsb := nb], {fsb});
    KidsKept(g, l, raw, mid, mid[fsb := nb], {fsb});
    KeptTrans(g, l, before, mid, mid[fsb := nb], {}, {fsb});
    OwnedKept(g, l, mid, mid[fsb := nb], {fsb}, fsb);
  }

  lemma NewKidsBefore(g: Geometry, l: Layout, before: Disk, mid: Disk, raw: Buffer, out: Buffer)
    requires |raw| == |out| == INODE_BUF && KeptBlocks(g, l, before, mid, {}) && NewKids(g, l, mid, raw, out)
    ensures NewKids(g, l, before, raw, out)
  {
  }

  /** What adding block `lb` to a file made of it: the disk block is the one that was next, and
      lookups find it if it is not below the key of the leaf it went into and its extent can be
      read. */
  ghost predicate Added(g: Geometry, l: Layout, ino: nat, raw: Buffer, out: Buffer, before: Disk, after: Disk, lb: nat,
                        fsb: nat)
    requires GeometryOk(g) && LayoutOk(g, l) && |raw| == |out| == INODE_BUF
  {
    && Least(g, l, before, fsb) && Placed(g, ino, TreeExtents(raw, before), out, after, lb, fsb)
    && TreeOwned(g, l, out, after) && LastKey(out) == KeyUsed(g, raw, before, lb, fsb)
    && (Visible(g, raw, before, lb, fsb) ==> Extended(g, l, ino, raw, out, before, after, lb, fsb))
  }

  lemma BlockPlaced(g: Geometry, l: Layout, ino: nat, raw: Buffer, out: Buffer, before: Disk, mid: Disk, after: Disk,
                    lb: nat, fsb: nat)
    requires GeometryOk(g) && LayoutOk(g, l) && |raw| == |out| == INODE_BUF
    requires FileOwned(g, l, ino, raw, before) && lb !in FileMap(raw, before)
    requires TreeExtents(raw, mid) == TreeExtents(raw, before) && Kept(g, l, before, mid, {})
    requires Least(g, l, before, fsb) && Owned(g, l, mid, fsb) && fsb !in KidBlocks(raw)
    requires Kept(g, l, mid, after, KidBlocks(raw)) && NewKids(g, l, mid, raw, out) && Kids(raw) <= Kids(out)
    requires TreeOwned(g, l, out, after) && Placed(g, ino, TreeExtents(raw, mid), out, after, lb, fsb)
    requires LastKey(out) == KeyUsed(g, raw, before, lb, fsb)
    ensures Added(g, l, ino, raw, out, before, after, lb, fsb)
  {
    hide FileOwned, FileMap, TreeOk, TreeLoose, TreeReadable, Located, TreeOwned, TreeExtents, Kids, KidBlocks, Kept,
      Inserted, Overlong, Beyond,
      NewKids, KeyUsed, Extended, LayoutOk, ReservedBlock, Free;
    if Visible(g, raw, before, lb, fsb) { BlockAdded(g, l, ino, raw, out, before, mid, after, lb, fsb); }
  }

  /** An added block is found again, and then mapped, exactly when that was to be expected. */
  lemma AddedFound(g: Geometry, l: Layout, ino: nat, raw: Buffer, out: Buffer, before: Disk, after: Disk, lb: nat,
                   fsb: nat)
    requires GeometryOk(g) && LayoutOk(g, l) && |raw| == |out| == INODE_BUF && TreeOk(g, ino, raw, before)
    requires lb !in FileMap(raw, before) && lb < U32 && Added(g, l, ino, raw, out, before, after, lb, fsb)
    ensures Found(out, after, lb) == if Findable(g, l, raw, before, lb) then Some(fsb) else None
    ensures Findable(g, l, raw, before, lb) ==> Extended(g, l, ino, raw, out, before, after, lb, fsb)
  {
    hide LayoutOk, TreeExtents, MapOf, Located, Found, Overlong, KeyUsed, Extended, Inserted, Beyond, TreeOwned, Spare,
      TreeReadable, TreeLoose;
    InsertionExact(TreeExtents(raw, before), out, after, lb, fsb);
    assert Visible(g, raw, before, lb, fsb) ==> Findable(g, l, raw, before, lb);
    forall x: nat | Least(g, l, before, x) ensures x == fsb { OneLeast(g, l, before, x, fsb); }
  }

  lemma AddedReadable(g: Geometry, l: Layout, ino: nat, raw: Buffer, out: Buffer, before: Disk, after: Disk, lb: nat,
                      fsb: nat)
    requires GeometryOk(g) && LayoutOk(g, l) && |raw| == |out| == INODE_BUF
    requires Added(g, l, ino, raw, out, before, after, lb, fsb)
    ensures TreeReadable(out, after)
  {
  }

  /** What a refused insertion leaves of a tree: a first part of its extents. */
  ghost predicate Receded(g: Geometry, l: Layout, ino: nat, raw: Buffer, before: Disk, after: Disk)
    requires g.bs >= 12 && |raw| == INODE_BUF
  {
    TreeOk(g, ino, raw, after) && TreeOwned(g, l, raw, after) && TreeExtents(raw, after) <= TreeExtents(raw, before)
  }

  lemma SparedPart(g: Geometry, l: Layout, raw: Buffer, before: Disk, after: Disk)
    requires g.bs >= 12 && |raw| == INODE_BUF && GeometryOk(g) && LayoutOk(g, l) && Spared(g, l, raw, before, after)
    ensures TreeExtents(raw, after) <= TreeExtents(raw, before)
  {
    hide TreeExtents, NoBlockLeft;
  }

  /** Why file block `lb` cannot be written: it can get no block, or it got one that is not found
      again. */
  ghost predicate Refused(g: Geometry, l: Layout, raw: Buffer, disk: Disk, lb: nat, e: FsError)
    requires GeometryOk(g) && LayoutOk(g, l) && |raw| == INODE_BUF
  {
    && lb !in FileMap(raw, disk)
    && if Growable(g, l, raw, disk, lb) then e == Corrupt && !Findable(g, l, raw, disk, lb) else e == NoSpace
  }

  ghost predicate Submap(a: map<nat, nat>, b: map<nat, nat>) { forall k :: k in a ==> k in b && b[k] == a[k] }

  ghost predicate Refuses(g: Geometry, l: Layout, raw: Buffer, disk: Disk, lb: nat)
    requires GeometryOk(g) && LayoutOk(g, l) && |raw| == INODE_BUF
  {
    lb !in FileMap(raw, disk) && !(Growable(g, l, raw, disk, lb) && Findable(g, l, raw, disk, lb))
  }

  /** One chunk of a write went into file block `lb`. */
  ghost predicate ChunkDone(g: Geometry, l: Layout, ino: nat, raw: Buffer, out: Buffer, before: Disk, after: Disk,
                            lb: nat, at: nat, data: Buffer)
    requires g.bs >= 12 && |raw| == |out| == INODE_BUF
  {
    && FileLoose(g, l, out, after) && RootOnly(raw, out) && Kids(raw) <= Kids(out)
    && (lb in FileMap(raw, before) || EndsBefore(FileMap(raw, before), lb) ==> TreeOk(g, ino, out, after))
    && Kept(g, l, before, after, Mine(raw, before))
    && FileMap(out, after).Keys == FileMap(raw, before).Keys + {lb} && Submap(FileMap(raw, before), FileMap(out, after))
    && (forall b :: b in Mine(out, after) ==> b in Mine(raw, before) || Free(g, l, before, b))
    && (forall k: nat :: k != lb ==>
         FileBlock(g, after, FileMap(out, after), k) == FileBlock(g, before, FileMap(raw, before), k))
    && at + |data| <= |FileBlock(g, before, FileMap(raw, before), lb)|
    && FileBlock(g, after, FileMap(out, after), lb) == Splice(FileBlock(g, before, FileMap(raw, before), lb), at, data)
  }

  /** Overwriting in a block the file already has. */
  lemma ChunkInPlace(g: Geometry, l: Layout, ino: nat, raw: Buffer, disk: Disk, lb: nat, at: nat, data: Buffer,
                     after: Disk)
    requires g.bs >= 12 && |raw| == INODE_BUF && FileOwned(g, l, ino, raw, disk) && lb in FileMap(raw, disk)
    requires FileMap(raw, disk)[lb] < |disk| && at + |data| <= |disk[FileMap(raw, disk)[lb]]|
    requires after == disk[FileMap(raw, disk)[lb] := Splice(disk[FileMap(raw, disk)[lb]], at, data)]
    requires Kept(g, l, disk, after, {FileMap(raw, disk)[lb]})
    ensures ChunkDone(g, l, ino, raw, raw, disk, after, lb, at, data)
  {
    hide TreeOk, TreeLoose, TreeOwned, TreeExtents, Kids, KidBlocks, KeptBlocks, SameFreeInodes, MapOf, Splice;
    var fm := FileMap(raw, disk);
    OwnedLoose(g, l, ino, raw, disk);
    DataWritten(g, l, ino, raw, disk, lb, Splice(disk[fm[lb]], at, data));
    assert fm[lb] in fm.Values;
    KeptMore(g, l, disk, after, {fm[lb]}, Mine(raw, disk));
  }

  lemma MineGrew(g: Geometry, l: Layout, ino: nat, raw: Buffer, out: Buffer, before: Disk, after: Disk, lb: nat,
                 fsb: nat)
    requires g.bs >= 12 && |raw| == |out| == INODE_BUF && Extended(g, l, ino, raw, out, before, after, lb, fsb)
    ensures forall b :: b in Mine(out, after) ==> b in Mine(raw, before) || Free(g, l, before, b)
  {
    hide TreeOk, TreeLoose, TreeOwned, TreeExtents, Kids, KidBlocks, KeptBlocks, SameFreeInodes, MapOf, Free, DataOwned;
    var fm := FileMap(raw, before);
    forall b | b in Mine(out, after) ensures b in Mine(raw, before) || Free(g, l, before, b) {
      if b !in KidBlocks(out) {
        var k :| k in fm[lb := fsb] && fm[lb := fsb][k] == b;
        if k != lb { assert k in fm && fm[k] == b; }
      }
    }
  }

  /** Writing into a block that was just added. */
  lemma ChunkAdded(g: Geometry, l: Layout, ino: nat, raw: Buffer, out: Buffer, before: Disk, mid: Disk, after: Disk,
                   lb: nat, fsb: nat, at: nat, data: Buffer)
    requires g.bs >= 12 && |raw| == |out| == INODE_BUF && RootOnly(raw, out)
    requires Extended(g, l, ino, raw, out, before, mid, lb, fsb) && lb !in FileMap(raw, before)
    requires fsb < |mid| && at + |data| <= g.bs && after == mid[fsb := Splice(Zeros(g.bs), at, data)]
    requires Kept(g, l, mid, after, {fsb})
    ensures ChunkDone(g, l, ino, raw, out, before, after, lb, at, data)
  {
    hide TreeOk, TreeLoose, TreeOwned, TreeExtents, Kids, KidBlocks, KeptBlocks, SameFreeInodes, MapOf, Splice, Free;
    var fm := FileMap(raw, before);
    DataWritten(g, l, ino, out, mid, lb, Splice(Zeros(g.bs), at, data));
    MineGrew(g, l, ino, raw, out, before, mid, lb, fsb);
    KeptMore(g, l, before, mid, KidBlocks(raw), Mine(raw, before));
    KeptTrans(g, l, before, mid, after, Mine(raw, before), {fsb});
    forall k: nat | k != lb ensures FileBlock(g, after, FileMap(out, after), k) == FileBlock(g, before, fm, k) {
      assert FileBlock(g, after, FileMap(out, mid), k) == FileBlock(g, mid, FileMap(out, mid), k);
      if k in fm { assert FileBlock(g, mid, fm, k) == FileBlock(g, before, fm, k); }
    }
  }

  // --------------------------------------------------------- bytes of a file

  /** Byte `p` of the file, whether or not it lies before the end of the file. */
  ghost function ByteAt(g: Geometry, disk: Disk, fm: map<nat, nat>, p: nat): byte
    requires g.bs > 0
  {
    var b := FileBlock(g, disk, fm, Quot(p, g.bs));
    if Rem(p, g.bs) < |b| then b[Rem(p, g.bs)] else 0
  }

  /** The `n` bytes from `from` on. */
  ghost function Run(g: Geometry, disk: Disk, fm: map<nat, nat>, from: nat, n: nat): (s: Buffer)
    requires g.bs > 0
    ensures |s| == n
  {
    seq<byte>(n, i requires 0 <= i => ByteAt(g, disk, fm, from + i))
  }

  lemma RunConcat(g: Geometry, disk: Disk, fm: map<nat, nat>, from: nat, a: nat, b: nat)
    requires g.bs > 0
    ensures Run(g, disk, fm, from, a + b) == Run(g, disk, fm, from, a) + Run(g, disk, fm, from + a, b)
  {
  }

  /** The positions of a chunk inside one block are the offsets of that block from the chunk's
      first one on. */
  lemma ChunkPositions(bs: nat, cur: nat, count: nat, p: nat)
    requires bs > 0 && Rem(cur, bs) + count <= bs
    ensures cur <= p < cur + count <==>
              Quot(p, bs) == Quot(cur, bs) && Rem(cur, bs) <= Rem(p, bs) < Rem(cur, bs) + count
    ensures cur <= p < cur + count ==> Rem(p, bs) - Rem(cur, bs) == p - cur
  {
    QuotRem(cur, bs);
    QuotRem(p, bs);
    if cur <= p < cur + count { QuotOfTimes(Quot(cur, bs), bs, Rem(cur, bs) + (p - cur)); }
  }

  lemma ByteInBlock(g: Geometry, disk: Disk, fm: map<nat, nat>, cur: nat, i: nat)
    requires g.bs > 0 && Quot(cur + i, g.bs) == Quot(cur, g.bs) && Rem(cur + i, g.bs) == Rem(cur, g.bs) + i
    requires Rem(cur, g.bs) + i < |FileBlock(g, disk, fm, Quot(cur, g.bs))|
    ensures ByteAt(g, disk, fm, cur + i) == FileBlock(g, disk, fm, Quot(cur, g.bs))[Rem(cur, g.bs) + i]
  {
    hide Quot, Rem, FileBlock;
  }

  /** Bytes of one block are a slice of it. */
  lemma RunInBlock(g: Geometry, disk: Disk, fm: map<nat, nat>, cur: nat, n: nat)
    requires g.bs > 0 && Rem(cur, g.bs) + n <= g.bs && |FileBlock(g, disk, fm, Quot(cur, g.bs))| == g.bs
    ensures Run(g, disk, fm, cur, n) == FileBlock(g, disk, fm, Quot(cur, g.bs))[Rem(cur, g.bs)..Rem(cur, g.bs) + n]
  {
    forall i | 0 <= i < n
      ensures Run(g, disk, fm, cur, n)[i] == FileBlock(g, disk, fm,
          Quot(cur, g.bs))[Rem(cur, g.bs)..Rem(cur, g.bs) + n][i]
    {
      ChunkPositions(g.bs, cur, n, cur + i);
      ByteInBlock(g, disk, fm, cur, i);
    }
  }

  lemma ChunkBytes(g: Geometry, l: Layout, ino: nat, raw: Buffer, out: Buffer, before: Disk, after: Disk, cur: nat,
                   data: Buffer, p: nat)
    requires g.bs >= 12 && |raw| == |out| == INODE_BUF && Rem(cur, g.bs) + |data| <= g.bs
    requires ChunkDone(g, l, ino, raw, out, before, after, Quot(cur, g.bs), Rem(cur, g.bs), data)
    ensures ByteAt(g, after, FileMap(out, after), p)
            == if cur <= p < cur + |data| then data[p - cur] else ByteAt(g, before, FileMap(raw, before), p)
  {
    hide FileLoose, TreeOk, Kids, Kept, FileMap, Mine, RootOnly, Quot, Rem, Submap, EndsBefore;
    ChunkPositions(g.bs, cur, |data|, p);
    var was, now := FileBlock(g, before, FileMap(raw, before), Quot(cur, g.bs)),
        FileBlock(g, after, FileMap(out, after), Quot(cur, g.bs));
    if cur <= p < cur + |data| {
      assert now[Rem(p, g.bs)] == now[Rem(cur, g.bs)..Rem(cur, g.bs) + |data|][p - cur];
    }
  }

  /** Every block from `from` on that the file lacks lies beyond the blocks it has. */
  ghost predicate Appendable(fm: map<nat, nat>, from: nat) {
    forall k :: k >= from && k !in fm ==> forall j :: j in fm ==> j < k
  }

  /** The first `done` bytes of a write at `offset` have arrived. */
  ghost predicate Written(g: Geometry, l: Layout, ino: nat, raw: Buffer, cur: Buffer, before: Disk, after: Disk,
                          offset: nat, done: nat, buf: Buffer)
    requires g.bs >= 12 && |raw| == |cur| == INODE_BUF && done <= |buf|
  {
    && FileLoose(g, l, cur, after) && RootOnly(raw, cur) && Kids(raw) <= Kids(cur)
    && Kept(g, l, before, after, Mine(raw, before)) && Submap(FileMap(raw, before), FileMap(cur, after))
    && (forall b :: b in Mine(cur, after) ==> b in Mine(raw, before) || Free(g, l, before, b))
    && (forall p: nat :: ByteAt(g, after, FileMap(cur, after), p)
          == if offset <= p < offset + done then buf[p - offset] else ByteAt(g, before, FileMap(raw, before), p))
    && (Appendable(FileMap(raw, before), Quot(offset, g.bs)) ==>
          TreeOk(g, ino, cur, after) && Appendable(FileMap(cur, after), Quot(offset + done, g.bs)))
  }

  lemma WrittenBytes(g: Geometry, l: Layout, ino: nat, raw: Buffer, cur: Buffer, out: Buffer, before: Disk, mid: Disk,
                     after: Disk,
                     offset: nat, done: nat, count: nat, buf: Buffer, p: nat)
    requires g.bs >= 12 && |raw| == |cur| == |out| == INODE_BUF && done + count <= |buf|
    requires Written(g, l, ino, raw, cur, before, mid, offset, done, buf) && Rem(offset + done, g.bs) + count <= g.bs
    requires ChunkDone(g, l, ino, cur, out, mid, after, Quot(offset + done, g.bs), Rem(offset + done, g.bs),
        buf[done..done + count])
    ensures ByteAt(g, after, FileMap(out, after), p)
            == if offset <= p < offset + done + count then buf[p - offset]
                else ByteAt(g, before, FileMap(raw, before), p)
  {
    hide FileLoose, TreeOk, Kids, Kept, FileMap, Mine, RootOnly, Quot, Rem, ByteAt, ChunkDone, Appendable, Submap;
    ChunkBytes(g, l, ino, cur, out, mid, after, offset + done, buf[done..done + count], p);
  }

  lemma AppendableStep(fm: map<nat, nat>, more: map<nat, nat>, from: nat, to: nat)
    requires Appendable(fm, from) && more.Keys == fm.Keys + {from} && from <= to
    ensures Appendable(more, to)
  {
    forall k, j | k >= to && k !in more && j in more ensures j < k {
      assert j in more.Keys && k !in more.Keys;
      if j in fm { assert k !in fm; }
    }
  }

  /** One more chunk of a write. */
  lemma WrittenStep(g: Geometry, l: Layout, ino: nat, raw: Buffer, cur: Buffer, out: Buffer, before: Disk, mid: Disk,
                    after: Disk,
                    offset: nat, done: nat, count: nat, buf: Buffer)
    requires g.bs >= 12 && |raw| == |cur| == |out| == INODE_BUF && done + count <= |buf|
    requires Written(g, l, ino, raw, cur, before, mid, offset, done, buf) && Rem(offset + done, g.bs) + count <= g.bs
    requires ChunkDone(g, l, ino, cur, out, mid, after, Quot(offset + done, g.bs), Rem(offset + done, g.bs),
        buf[done..done + count])
    ensures Written(g, l, ino, raw, out, before, after, offset, done + count, buf)
  {
    hide FileLoose, TreeOk, Kids, KeptBlocks, SameFreeInodes, FileMap, Mine, Quot, Rem, ByteAt, FileBlock, Appendable,
      Free, EndsBefore, Submap;
    forall p: nat
      ensures ByteAt(g, after, FileMap(out, after), p)
              == if offset <= p < offset + (done + count) then buf[p - offset]
                  else ByteAt(g, before, FileMap(raw, before), p)
    {
      WrittenBytes(g, l, ino, raw, cur, out, before, mid, after, offset, done, count, buf, p);
    }
    KeptTrans(g, l, before, mid, after, Mine(raw, before), Mine(cur, mid));
    QuotMonotone(offset + done, offset + (done + count), g.bs);
    if Appendable(FileMap(raw, before), Quot(offset, g.bs)) {
      NextAppends(FileMap(cur, mid), Quot(offset + done, g.bs));
      AppendableStep(FileMap(cur, mid), FileMap(out, after), Quot(offset + done, g.bs),
          Quot(offset + (done + count), g.bs));
    }
    SubmapTrans(FileMap(raw, before), FileMap(cur, mid), FileMap(out, after));
    PrefixTrans(Kids(raw), Kids(cur), Kids(out));
    FreeLater(g, l, before, mid, Mine(raw, before));
  }

  lemma FreeLater(g: Geometry, l: Layout, before: Disk, mid: Disk, mine: set<nat>)
    requires Kept(g, l, before, mid, mine)
    ensures forall b: nat :: Free(g, l, mid, b) ==> Free(g, l, before, b)
  {
  }

  lemma SubmapTrans(a: map<nat, nat>, b: map<nat, nat>, c: map<nat, nat>)
    requires Submap(a, b) && Submap(b, c)
    ensures Submap(a, c)
  {
  }

  /** The block of the next byte can be written: the file has it or it comes after all others. */
  lemma NextAppends(fm: map<nat, nat>, from: nat)
    requires Appendable(fm, from)
    ensures from in fm || EndsBefore(fm, from)
  {
  }

  lemma WrittenNothing(g: Geometry, l: Layout, ino: nat, raw: Buffer, disk: Disk, offset: nat, buf: Buffer)
    requires g.bs >= 12 && |raw| == INODE_BUF && FileOwned(g, l, ino, raw, disk)
    ensures Written(g, l, ino, raw, raw, disk, disk, offset, 0, buf)
  {
    hide FileLoose, TreeOk, Kids, KeptBlocks, SameFreeInodes, FileMap, Mine, Quot, Rem, ByteAt, Appendable;
    OwnedLoose(g, l, ino, raw, disk);
    KeptSame(g, l, disk, Mine(raw, disk));
  }

  // ------------------------------------------------------------ failed writes

  /** The write touches one block only. */
  ghost predicate OneBlock(g: Geometry, offset: nat, n: nat)
    requires g.bs > 0
  {
    Rem(offset, g.bs) + n <= g.bs
  }

  /** Where a write stopped: how many bytes had arrived, with which root in memory and which disk. */
  datatype Stop = Stop(done: nat, root: Buffer, disk: Disk)

  /** A write stopped there because the block of the next byte was refused. */
  ghost predicate StopsAt(g: Geometry, l: Layout, ino: nat, raw: Buffer, before: Disk, offset: nat, buf: Buffer,
                          s: Stop, e: FsError)
    requires GeometryOk(g) && LayoutOk(g, l) && |raw| == INODE_BUF
  {
    && |s.root| == INODE_BUF && s.done < |buf|
    && Written(g, l, ino, raw, s.root, before, s.disk, offset, s.done, buf)
    && (s.done == 0 ==> s.root == raw && s.disk == before)
    && Refused(g, l, s.root, s.disk, Quot(offset + s.done, g.bs), e)
  }

  /** What is left of a file when a write ran out of space after `done` bytes and its new root was
      not stored: the old root heads a well-formed tree of blocks the file had or got; blocks of
      the file can only be lost at its end; and the blocks it has hold their bytes, with those
      that arrived over them. */
  ghost predicate Remnant(g: Geometry, l: Layout, ino: nat, raw: Buffer, before: Disk, after: Disk, offset: nat,
                          done: nat, buf: Buffer)
    requires g.bs >= 12 && |raw| == INODE_BUF && done <= |buf|
  {
    var was, now := FileMap(raw, before), FileMap(raw, after);
    && FileOwned(g, l, ino, raw, after)
    && (forall k :: k in was && k in now ==> now[k] == was[k])
    && (forall j, k :: j in now && k in was && k !in now ==> j < k)
    && (forall b :: b in Mine(raw, after) ==> b in Mine(raw, before) || Free(g, l, before, b))
    && forall p: nat :: Quot(p, g.bs) in now ==>
         ByteAt(g, after, now, p) == if offset <= p < offset + done then buf[p - offset] else ByteAt(g, before, was, p)
  }

  /** Why a write that stored nothing stopped, and what it left. */
  ghost predicate WriteStops(g: Geometry, l: Layout, ino: nat, before: Disk, after: Disk, offset: nat, buf: Buffer,
                             e: FsError)
    requires Mounted(g, l, before) && 1 <= ino <= g.inodes
  {
    exists s: Stop :: StopLeaves(g, l, ino, RawInode(g, l, before, ino), before, after, offset, buf, e, s)
  }

  ghost predicate StopLeaves(g: Geometry, l: Layout, ino: nat, raw: Buffer, before: Disk, after: Disk, offset: nat,
                             buf: Buffer, e: FsError, s: Stop)
    requires GeometryOk(g) && LayoutOk(g, l) && |raw| == INODE_BUF
  {
    && StopsAt(g, l, ino, raw, before, offset, buf, s, e)
    && (e == NoSpace ==> Remnant(g, l, ino, raw, before, after, offset, s.done, buf))
  }

  /** What a write with this result made of the volume. */
  ghost predicate WriteOutcome(g: Geometry, l: Layout, ino: nat, before: Disk, after: Disk, offset: nat, buf: Buffer,
                               r: Result<()>)
    requires Mounted(g, l, before) && Mounted(g, l, after) && 1 <= ino <= g.inodes
  {
    && OthersKept(g, l, ino, before, after)
    && if buf == [] then r == Ok(()) && after == before
       else if !IsFile(Le16(RawInode(g, l, before, ino), INO_MODE)) then r == Err(Invalid) && after == before
       else match r
         case Ok(_) => WriteStored(g, l, ino, before, after, offset, buf)
         case Err(e) => && (e == NoSpace || e == Corrupt) && RawInode(g, l, after, ino) == RawInode(g, l, before, ino)
                        && WriteStops(g, l, ino, before, after, offset, buf, e)
  }

  lemma StopsThere(g: Geometry, l: Layout, ino: nat, before: Disk, after: Disk, offset: nat, buf: Buffer, e: FsError,
                   s: Stop)
    requires Mounted(g, l, before) && 1 <= ino <= g.inodes
    requires var raw := RawInode(g, l, before, ino);
             && StopsAt(g, l, ino, raw, before, offset, buf, s, e)
             && (e == NoSpace ==> Remnant(g, l, ino, raw, before, after, offset, s.done, buf))
    ensures WriteStops(g, l, ino, before, after, offset, buf, e)
    ensures e == NoSpace || e == Corrupt
    ensures s.done == 0 ==> Refused(g, l, RawInode(g, l, before, ino), before, Quot(offset, g.bs), e)
    ensures s.done == 0 ==> Refuses(g, l, RawInode(g, l, before, ino), before, Quot(offset, g.bs))
  {
    hide RawInode, LayoutOk, DiskOk, Remnant, Written, Quot, FileMap, Growable, Findable;
    assert StopLeaves(g, l, ino, RawInode(g, l, before, ino), before, after, offset, buf, e, s);
  }

  lemma WrittenLoose(g: Geometry, l: Layout, ino: nat, raw: Buffer, cur: Buffer, before: Disk, after: Disk, offset: nat,
                     buf: Buffer)
    requires g.bs >= 12 && |raw| == |cur| == INODE_BUF && Written(g, l, ino, raw, cur, before, after, offset, |buf|,
        buf)
    ensures TreeLoose(cur, after)
  {
    hide TreeLoose, TreeOk, FileMap, Kids, Quot, ByteAt, Mine, Appendable, Submap, Kept;
  }

  /** A first part of a list of extents maps the blocks below those of the rest. */
  lemma PrefixMap(es: seq<Extent>, n: nat)
    requires Sorted(es) && n <= |es|
    ensures Submap(MapOf(es[..n]), MapOf(es))
    ensures forall j, k :: j in MapOf(es[..n]) && k in MapOf(es) && k !in MapOf(es[..n]) ==> j < k
  {
    hide MapOf;
    SortedDisjoint(es);
    forall k | k in MapOf(es[..n]) ensures k in MapOf(es) && MapOf(es)[k] == MapOf(es[..n])[k] {
      MapOfKeys(es[..n], k);
      var i :| 0 <= i < n && Covers(es[..n][i], k);
      DisjointPrefix(es, n);
      MapOfValue(es[..n], i, k);
      MapOfValue(es, i, k);
    }
    forall j, k | j in MapOf(es[..n]) && k in MapOf(es) && k !in MapOf(es[..n]) ensures j < k {
      MapOfKeys(es[..n], j);
      MapOfKeys(es, k);
      var i :| 0 <= i < n && Covers(es[..n][i], j);
      var m :| 0 <= m < |es| && Covers(es[m], k);
      if m < n { PrefixCovers(es, n, m, k); }
      SortedApart(es, i, m);
    }
  }

  lemma PrefixCovers(es: seq<Extent>, n: nat, i: nat, k: nat)
    requires i < n <= |es| && Covers(es[i], k)
    ensures k in MapOf(es[..n])
  {
    assert es[..n][i] == es[i];
    MapOfKeys(es[..n], k);
  }

  lemma {:induction false} SortedApart(es: seq<Extent>, i: nat, j: nat)
    requires Sorted(es) && i < j < |es|
    ensures es[i].lb + es[i].len <= es[j].lb
    decreases j - i
  {
    if i + 1 < j { SortedApart(es, i + 1, j); }
  }

  /** The leaves of a file that is not touched. */
  lemma KidsKept(g: Geometry, l: Layout, raw: Buffer, before: Disk, after: Disk, mine: set<nat>)
    requires |raw| == INODE_BUF && TreeOwned(g, l, raw, before)
    requires KeptBlocks(g, l, before, after, mine) && KidBlocks(raw) !! mine
    ensures KidsSame(raw, before, after)
  {
    hide KeptBlocks;
    forall i | 0 <= i < |Kids(raw)| ensures SameBlock(before, after, Kids(raw)[i].child) {
      assert Kids(raw)[i].child in KidBlocks(raw);
      OwnedKept(g, l, before, after, mine, Kids(raw)[i].child);
    }
  }

  /** Some of a file's blocks, after its leaves changed. */
  lemma PartKept(g: Geometry, l: Layout, cur: Buffer, mid: Disk, after: Disk, now: map<nat, nat>, kids: set<nat>)
    requires g.bs >= 12 && |cur| == INODE_BUF && FileLoose(g, l, cur, mid) && Submap(now, FileMap(cur, mid))
    requires KeptBlocks(g, l, mid, after, KidBlocks(cur)) && kids <= KidBlocks(cur)
    ensures DataOwned(g, l, now, kids, after)
    ensures forall b :: b in now.Values ==> b in Mine(cur, mid)
    ensures forall k :: k in now ==> FileBlock(g, after, now, k) == FileBlock(g, mid, FileMap(cur, mid), k)
  {
    hide TreeLoose, TreeOwned, FileMap, KidBlocks, KeptBlocks;
    var fm := FileMap(cur, mid);
    forall k | k in now ensures Owned(g, l, after, now[k]) && SameBlock(mid, after, now[k]) && now[k] in fm.Values {
      assert fm[k] in fm.Values;
      OwnedKept(g, l, mid, after, KidBlocks(cur), now[k]);
    }
  }

  /** The tree under the root that was not replaced. */
  lemma RemnantTree(g: Geometry, l: Layout, ino: nat, raw: Buffer, cur: Buffer, before: Disk, mid: Disk, after: Disk)
    requires g.bs >= 12 && |raw| == |cur| == INODE_BUF && RootOnly(raw, cur) && Kids(raw) <= Kids(cur)
    requires TreeOk(g, ino, raw, before) && TreeOk(g, ino, cur, mid) && Receded(g, l, ino, cur, mid, after)
    requires Submap(FileMap(raw, before), FileMap(cur, mid))
    ensures TreeOk(g, ino, raw, after) && Submap(FileMap(raw, after), FileMap(cur, mid))
    ensures forall j, k :: j in FileMap(raw, after) && k in FileMap(raw, before) && k !in FileMap(raw, after) ==> j < k
  {
    hide MapOf, LeafOk, RdExtent, RdIndex, Sorted, Bounded, KidOk, LeafExtents;
    if |Kids(raw)| == 0 {
      TreeRoot(g, ino, raw, before);
      assert TreeExtents(raw, after) == TreeExtents(raw, before);
    } else {
      RootOnlyGen(raw, cur);
      PrefixTree(g, ino, raw, cur, after);
      var es := TreeExtents(cur, mid);
      PrefixMap(es, |TreeExtents(raw, after)|);
      assert TreeExtents(raw, after) == es[..|TreeExtents(raw, after)|];
    }
  }

  lemma RemnantLeft(g: Geometry, l: Layout, ino: nat, raw: Buffer, cur: Buffer, before: Disk, mid: Disk, after: Disk,
                    offset: nat, done: nat, buf: Buffer)
    requires g.bs >= 12 && |raw| == |cur| == INODE_BUF && done <= |buf| && FileOwned(g, l, ino, raw, before)
    requires Written(g, l, ino, raw, cur, before, mid, offset, done, buf) && TreeOk(g, ino, cur, mid)
    requires Receded(g, l, ino, cur, mid, after) && Kept(g, l, mid, after, KidBlocks(cur))
    ensures Remnant(g, l, ino, raw, before, after, offset, done, buf)
  {
    hide TreeOk, TreeLoose, TreeOwned, DataOwned, FileMap, Kids, KeptBlocks, SameFreeInodes, Quot, Rem, FileBlock, Free,
      Receded, RootOnly, Submap, Appendable;
    RemnantTree(g, l, ino, raw, cur, before, mid, after);
    KidsSubset(raw, cur);
    PartKept(g, l, cur, mid, after, FileMap(raw, after), KidBlocks(raw));
    TreeOwnedKept(g, l, raw, before, mid, Mine(raw, before));
    TreeOwnedKept(g, l, raw, mid, after, KidBlocks(cur));
    SharedKeys(FileMap(raw, before), FileMap(raw, after), FileMap(cur, mid));
    var was, now := FileMap(raw, before), FileMap(raw, after);
    forall p: nat | Quot(p, g.bs) in now
      ensures ByteAt(g, after, now, p) == if offset <= p < offset + done then buf[p - offset]
          else ByteAt(g, before, was, p)
    {
      assert ByteAt(g, after, now, p) == ByteAt(g, mid, FileMap(cur, mid), p);
    }
  }

  lemma SharedKeys(was: map<nat, nat>, now: map<nat, nat>, all: map<nat, nat>)
    requires Submap(was, all) && Submap(now, all)
    ensures forall k :: k in was && k in now ==> now[k] == was[k]
  {
  }

  lemma KidsSubset(raw: Buffer, cur: Buffer)
    requires |raw| == |cur| == INODE_BUF && Kids(raw) <= Kids(cur)
    ensures KidBlocks(raw) <= KidBlocks(cur)
  {
    forall b | b in KidBlocks(raw) ensures b in KidBlocks(cur) {
      var i :| 0 <= i < |Kids(raw)| && Kids(raw)[i].child == b;
      assert Kids(cur)[i].child == b;
    }
  }

  // ------------------------------------------------------------ block counts

  lemma {:induction false} BelowSize(s: set<nat>, n: nat)
    requires forall x :: x in s ==> x < n
    ensures |s| <= n
    decreases n
  {
    if n > 0 {
      BelowSize(s - {n - 1}, n - 1);
    } else {
      assert s == {};
    }
  }

  lemma SectorsFit(g: Geometry, raw: Buffer, disk: Disk)
    requires g.bs <= 4096 && TreeLoose(raw, disk)
    ensures Sectors(g, |FileMap(raw, disk)|) < U64
  {
    hide TreeExtents, MapOf;
    var fm := FileMap(raw, disk);
    forall k | k in fm.Keys ensures k < U32 { MapOfKeys(TreeExtents(raw, disk), k); }
    BelowSize(fm.Keys, U32);
    assert |fm| == |fm.Keys|;
    SmallProduct(|fm|, g.bs / 512);
  }

  /** The stored count of 512-byte sectors is the size of the blocks the file has. */
  ghost predicate Counted(g: Geometry, raw: Buffer, disk: Disk)
    requires |raw| == INODE_BUF
  {
    var bytes := |FileMap(raw, disk)| * g.bs;
    g.bs % 512 == 0 && (g.has64 || bytes < 512 * 0x1_0000_0000) ==> 512 * RawBlocks(g, raw) == bytes
  }

  lemma SectorBytes(g: Geometry, n: nat)
    requires g.bs % 512 == 0
    ensures 512 * Sectors(g, n) == n * g.bs
  {
    var q := g.bs / 512;
    assert g.bs == 512 * q;
    assert n * (512 * q) == 512 * (n * q);
  }

  lemma CountStored(g: Geometry, raw: Buffer, disk: Disk)
    requires |raw| == INODE_BUF && RawBlocks(g, raw) == Narrow(g, Sectors(g, |FileMap(raw, disk)|))
    ensures Counted(g, raw, disk)
  {
    hide FileMap, RawBlocks, Sectors;
    if g.bs % 512 == 0 { SectorBytes(g, |FileMap(raw, disk)|); }
  }

  lemma CountKept(g: Geometry, raw: Buffer, out: Buffer, before: Disk, after: Disk)
    requires |raw| == |out| == INODE_BUF && FileMap(out, after) == FileMap(raw, before)
    requires RawBlocks(g, out) == RawBlocks(g, raw) && Counted(g, raw, before)
    ensures Counted(g, out, after)
  {
    hide FileMap, RawBlocks;
  }

  lemma WriteCounted(g: Geometry, l: Layout, ino: nat, before: Disk, after: Disk, offset: nat, buf: Buffer)
    requires Mounted(g, l, before) && Mounted(g, l, after) && 1 <= ino <= g.inodes
    requires WriteStored(g, l, ino, before, after, offset, buf)
    ensures Counted(g, RawInode(g, l, after, ino), after)
  {
    hide FileOwned, FileLoose, Mine, InodeSealed, LayoutOk, DiskOk, ByteAt, FileMap, RawInode, RestSame, Appendable,
      Submap, RawSize, RawBlocks, Le16, Le32, Quot, Sectors, Counted;
    DecodedFields(g, ino, RawInode(g, l, after, ino));
    CountStored(g, RawInode(g, l, after, ino), after);
  }

  lemma SmallProduct(n: nat, q: nat)
    requires n <= 0x1_0000_0000 && q <= 8
    ensures n * q < 0x1_0000_0000_0000_0000
  {
    assert n * q <= n * 8;
  }

  // ---------------------------------------------------------- storing the inode

  /** The two inodes have the same extent root and generation. */
  ghost predicate SameRoot(raw: Buffer, out: Buffer) {
    |raw| == |out| == INODE_BUF && forall k :: IBLOCK <= k < GENERATION + 4 ==> out[k] == raw[k]
  }

  lemma RootSame(raw: Buffer, out: Buffer, disk: Disk)
    requires SameRoot(raw, out) && RootOk(raw)
    ensures RdHdr(out, IBLOCK) == RdHdr(raw, IBLOCK) && Kids(out) == Kids(raw) && Gen(out) == Gen(raw)
    ensures TreeExtents(out, disk) == TreeExtents(raw, disk)
    ensures LeafOk(raw, IBLOCK) ==> LeafOk(out, IBLOCK)
  {
    HeaderFrame(raw, out, IBLOCK);
    Le32Same(raw, out, GENERATION);
    forall i: nat | i < 4 ensures RdIndex(out, IBLOCK, i) == RdIndex(raw, IBLOCK,
        i) { RecordsFrame(raw, out, IBLOCK, i); }
    if RdHdr(raw, IBLOCK).Some? {
      ShownFrame(raw, out, IBLOCK, RdHdr(raw, IBLOCK).value.entries);
    }
  }

  lemma FileSame(g: Geometry, l: Layout, ino: nat, raw: Buffer, out: Buffer, disk: Disk)
    requires g.bs >= 12 && SameRoot(raw, out) && FileLoose(g, l, raw, disk)
    ensures FileLoose(g, l, out, disk) && FileMap(out, disk) == FileMap(raw, disk) && Mine(out, disk) == Mine(raw, disk)
    ensures FileOwned(g, l, ino, raw, disk) ==> FileOwned(g, l, ino, out, disk)
  {
    hide TreeExtents, Kids, MapOf, KidOk, KidLoose, LeafOk, DataOwned, Sorted, Disjoint, Bounded, RdHdr;
    RootSame(raw, out, disk);
  }

  /** Everything of the inode but the extent root, the size, the block count, the mode, the
      flags and the checksum. */
  ghost predicate RestSame(g: Geometry, raw: Buffer, out: Buffer) {
    && |raw| == |out| == INODE_BUF
    && forall k: nat :: k < g.inodeSize && k < INODE_BUF && !FieldByte(k) && !(IBLOCK <= k < IBLOCK + 60)
         ==> out[k] == raw[k]
  }

  /** The file after a write: its bytes are the old ones with `buf` laid over them. */
  ghost predicate WriteStored(g: Geometry, l: Layout, ino: nat, before: Disk, after: Disk, offset: nat, buf: Buffer)
    requires Mounted(g, l, before) && Mounted(g, l, after) && 1 <= ino <= g.inodes
  {
    var raw, out := RawInode(g, l, before, ino), RawInode(g, l, after, ino);
    var fm, more := FileMap(raw, before), FileMap(out, after);
    && FileLoose(g, l, out, after) && InodeSealed(g, ino, out) && RestSame(g, raw, out) && Submap(fm, more)
    && (Appendable(fm, Quot(offset, g.bs)) ==> FileOwned(g, l, ino, out, after))
    && Decoded(g, ino, out) == Decoded(g, ino, raw).(
         size := Narrow(g, Max(RawSize(g, raw), offset + |buf|)), blocks := Narrow(g, Sectors(g, |more|)), raw := out)
    && (forall p: nat :: ByteAt(g, after, more, p) == if offset <= p < offset + |buf| then buf[p - offset]
         else ByteAt(g, before, fm, p))
    && (forall b :: b in Mine(out, after) ==> b in Mine(raw, before) || Free(g, l, before, b))
  }

  function Max(a: nat, b: nat): nat { if a < b then b else a }

  /** What an operation on file `ino` leaves alone: all other inodes, and all blocks in use
      that are neither the file's own nor the one that holds its inode. */
  ghost predicate OthersKept(g: Geometry, l: Layout, ino: nat, before: Disk, after: Disk)
    requires Mounted(g, l, before) && Mounted(g, l, after) && 1 <= ino <= g.inodes
  {
    && InodesKept(g, l, before, after, ino)
    && Kept(g, l, before, after, Mine(RawInode(g, l, before, ino), before) + {InoBlock(g, l, ino)})
  }

  lemma MineOutside(g: Geometry, l: Layout, raw: Buffer, disk: Disk, b: nat)
    requires |raw| == INODE_BUF && FileLoose(g, l, raw, disk) && b in Mine(raw, disk)
    ensures Owned(g, l, disk, b)
  {
    hide TreeLoose, FileMap;
    if b in KidBlocks(raw) {
      var i :| 0 <= i < |Kids(raw)| && Kids(raw)[i].child == b;
    } else {
      var k :| k in FileMap(raw, disk) && FileMap(raw, disk)[k] == b;
    }
  }

  /** Writing to a file's own blocks changes no inode on disk. */
  lemma NoInodeChanged(g: Geometry, l: Layout, ino: nat, raw: Buffer, before: Disk, after: Disk)
    requires Mounted(g, l, before) && Mounted(g, l, after) && MetaInUse(g, l, before) && |raw| == INODE_BUF
    requires 1 <= ino <= g.inodes
    requires FileLoose(g, l, raw, before) && Kept(g, l, before, after, Mine(raw, before))
    ensures InodesKept(g, l, before, after, ino) && RawInode(g, l, after, ino) == RawInode(g, l, before, ino)
  {
    hide FileLoose, LayoutOk, DiskOk, KeptBlocks, SameFreeInodes, MetaInUse, Mine, RawInode, InodesKept;
    forall b | b in Mine(raw, before) ensures b !in l.roles { MineOutside(g, l, raw, before, b); }
    InodesSame(g, l, before, after, Mine(raw, before), ino);
  }

  /** Storing the inode record does not disturb the file's blocks. */
  lemma BytesStored(g: Geometry, l: Layout, ino: nat, cur: Buffer, out: Buffer, mid: Disk, after: Disk, block: nat)
    requires g.bs >= 12 && SameRoot(cur, out) && FileLoose(g, l, cur, mid) && block in l.roles
    requires Kept(g, l, mid, after, {block})
    ensures FileOwned(g, l, ino, cur, mid) ==> FileOwned(g, l, ino, out, after)
    ensures FileLoose(g, l, out, after) && FileMap(out, after) == FileMap(cur, mid) && Mine(out, after)
        == Mine(cur, mid)
    ensures forall p: nat :: ByteAt(g, after, FileMap(out, after), p) == ByteAt(g, mid, FileMap(cur, mid), p)
  {
    hide FileOwned, FileLoose, KeptBlocks, SameFreeInodes, FileMap, KidBlocks, Quot, Rem;
    if block in Mine(cur, mid) { MineOutside(g, l, cur, mid, block); }
    FileKept(g, l, ino, cur, mid, after, {block});
    FileSame(g, l, ino, cur, out, after);
  }

  lemma RootKept(g: Geometry, raw: Buffer, cur: Buffer, enc: Buffer)
    requires RootOnly(raw, cur) && FieldsOnly(cur, enc) && (g.inodeSize == 128 || g.inodeSize == 256)
    ensures SameRoot(cur, Padded(g, enc)) && RestSame(g, raw, Padded(g, enc))
  {
  }

  /** From the loop of a write and the inode stored after it to the file as it is then. */
  lemma WriteFinished(g: Geometry, l: Layout, ino: nat, raw: Buffer, cur: Buffer, enc: Buffer, before: Disk, mid: Disk,
                      after: Disk,
                      offset: nat, buf: Buffer)
    requires Mounted(g, l, before) && Mounted(g, l, after) && 1 <= ino <= g.inodes
    requires |cur| == |enc| == INODE_BUF && raw == RawInode(g, l, before, ino)
    requires Written(g, l, ino, raw, cur, before, mid, offset, |buf|, buf)
    requires FieldsOnly(cur, enc) && InodeSealed(g, ino, enc)
    requires Kept(g, l, mid, after, {InoBlock(g, l, ino)}) && RawInode(g, l, after, ino) == Padded(g, enc)
    requires Decoded(g, ino, enc) == Decoded(g, ino, raw).(
               size := Narrow(g, Max(RawSize(g, raw), offset + |buf|)),
                   blocks := Narrow(g, Sectors(g, |FileMap(cur, mid)|)), raw := enc)
    ensures WriteStored(g, l, ino, before, after, offset, buf)
  {
    hide FileOwned, FileLoose, TreeOk, Kids, KeptBlocks, SameFreeInodes, FileMap, Mine, RawInode, LayoutOk, DiskOk,
      InodeSealed, Decoded, Padded,
      ByteAt, RootOnly, FieldsOnly, RestSame, Appendable, Quot, Submap;
    OwnedLoose(g, l, ino, cur, mid);
    InodePlaced(g, l, ino);
    RootKept(g, raw, cur, enc);
    BytesStored(g, l, ino, cur, Padded(g, enc), mid, after, InoBlock(g, l, ino));
    PaddedSealed(g, ino, enc);
    PaddedDecoded(g, ino, enc);
  }

  lemma UntouchedOthers(g: Geometry, l: Layout, ino: nat, disk: Disk)
    requires Mounted(g, l, disk) && 1 <= ino <= g.inodes
    ensures OthersKept(g, l, ino, disk, disk)
  {
    hide KeptBlocks, SameFreeInodes, Mine, RawInode, LayoutOk, DiskOk;
    KeptSame(g, l, disk, Mine(RawInode(g, l, disk, ino), disk) + {InoBlock(g, l, ino)});
  }

  lemma KeptMine(g: Geometry, l: Layout, raw: Buffer, before: Disk, after: Disk)
    requires |raw| == INODE_BUF && Kept(g, l, before, after, KidBlocks(raw))
    ensures Kept(g, l, before, after, Mine(raw, before))
  {
    hide KeptBlocks, SameFreeInodes, FileMap;
    KeptMore(g, l, before, after, KidBlocks(raw), Mine(raw, before));
  }

  lemma OthersAfterWrite(g: Geometry, l: Layout, ino: nat, raw: Buffer, before: Disk, mid: Disk, after: Disk)
    requires Mounted(g, l, before) && Mounted(g, l, mid) && Mounted(g, l, after) && MetaInUse(g, l, before)
    requires 1 <= ino <= g.inodes && raw == RawInode(g, l, before, ino) && FileLoose(g, l, raw, before)
    requires Kept(g, l, before, mid, Mine(raw, before))
    requires mid == after || (Kept(g, l, mid, after, {InoBlock(g, l, ino)}) && InodesKept(g, l, mid, after, ino))
    ensures OthersKept(g, l, ino, before, after)
    ensures mid == after ==> RawInode(g, l, after, ino) == RawInode(g, l, before, ino)
  {
    hide FileLoose, KeptBlocks, SameFreeInodes, Mine, RawInode, LayoutOk, DiskOk, MetaInUse;
    NoInodeChanged(g, l, ino, raw, before, mid);
    KeptMore(g, l, before, mid, Mine(raw, before), Mine(raw, before) + {InoBlock(g, l, ino)});
    if mid != after {
      KeptTrans(g, l, before, mid, after, Mine(raw, before) + {InoBlock(g, l, ino)}, {InoBlock(g, l, ino)});
    }
  }

  // ------------------------------------------------------------- the theorems

  /** How many bytes a read of `n` bytes at `offset` gets. */
  function Available(size: nat, offset: nat, n: nat): nat { if offset >= size then 0 else Min(size - offset, n) }

  /** The bytes a read gets. */
  ghost function FileBytes(g: Geometry, disk: Disk, raw: Buffer, offset: nat, n: nat): (s: Buffer)
    requires g.bs > 0 && |raw| == INODE_BUF
    ensures |s| == Available(RawSize(g, raw), offset, n)
  {
    Run(g, disk, FileMap(raw, disk), offset, Available(RawSize(g, raw), offset, n))
  }

  /** The size a write gives the file is stored in full. */
  ghost predicate SizeFits(g: Geometry, size: nat) { g.has64 || size < 0x1_0000_0000 }

  /** Reading back what was written gives it back, whatever was in the file, exactly when the
      new size can be stored or the cut size still covers the bytes. */
  lemma ReadBack(g: Geometry, l: Layout, ino: nat, before: Disk, after: Disk, offset: nat, buf: Buffer)
    requires Mounted(g, l, before) && Mounted(g, l, after) && 1 <= ino <= g.inodes && buf != []
    requires WriteStored(g, l, ino, before, after, offset, buf)
    ensures FileBytes(g, after, RawInode(g, l, after, ino), offset, |buf|) == buf
            <==> offset + |buf| <= Narrow(g, Max(RawSize(g, RawInode(g, l, before, ino)), offset + |buf|))
    ensures SizeFits(g, Max(RawSize(g, RawInode(g, l, before, ino)), offset + |buf|)) ==>
              FileBytes(g, after, RawInode(g, l, after, ino), offset, |buf|) == buf
  {
    hide FileOwned, FileLoose, Mine, InodeSealed, LayoutOk, DiskOk, ByteAt, FileMap, RawInode, RestSame, Appendable,
      Submap, RawSize, RawBlocks, Le16, Le32, Quot, Sectors;
    DecodedFields(g, ino, RawInode(g, l, after, ino));
    var s := FileBytes(g, after, RawInode(g, l, after, ino), offset, |buf|);
    if |s| == |buf| {
      forall i | 0 <= i < |buf| ensures s[i] == buf[i] { }
    }
  }

  /** The bytes between the old end of the file and the write are zero. */
  ghost predicate GapZero(g: Geometry, disk: Disk, raw: Buffer, offset: nat)
    requires g.bs > 0 && |raw| == INODE_BUF
  {
    forall p :: RawSize(g, raw) <= p < offset ==> ByteAt(g, disk, FileMap(raw, disk), p) == 0
  }

  /** The content of a file: all its bytes. */
  ghost function Content(g: Geometry, disk: Disk, raw: Buffer): (s: Buffer)
    requires g.bs > 0 && |raw| == INODE_BUF
  {
    FileBytes(g, disk, raw, 0, RawSize(g, raw))
  }

  /** A byte string with `buf` laid over it at `offset`, filled up with zeros. */
  ghost function Overlay(s: Buffer, offset: nat, buf: Buffer): (r: Buffer) {
    seq<byte>(Max(|s|, offset + |buf|), i requires 0 <= i =>
      if offset <= i < offset + |buf| then buf[i - offset] else if i < |s| then s[i] else 0)
  }

  /** A write lays its bytes over the content exactly when the gap it leaves reads as zeros. */
  lemma ContentAfterWrite(g: Geometry, l: Layout, ino: nat, before: Disk, after: Disk, offset: nat, buf: Buffer)
    requires Mounted(g, l, before) && Mounted(g, l, after) && 1 <= ino <= g.inodes && buf != []
    requires WriteStored(g, l, ino, before, after, offset, buf)
    requires SizeFits(g, Max(RawSize(g, RawInode(g, l, before, ino)), offset + |buf|))
    ensures Content(g, after, RawInode(g, l, after, ino)) == Overlay(Content(g, before, RawInode(g, l, before, ino)),
        offset, buf)
            <==> GapZero(g, before, RawInode(g, l, before, ino), offset)
  {
    hide FileOwned, FileLoose, Mine, InodeSealed, LayoutOk, DiskOk, ByteAt, FileMap, RawInode, RestSame, Appendable,
      Submap;
    var raw := RawInode(g, l, before, ino);
    var was, now := Content(g, before, raw), Content(g, after, RawInode(g, l, after, ino));
    var want := Overlay(was, offset, buf);
    assert |now| == |want|;
    forall i | 0 <= i < |now|
      ensures now[i] == if offset <= i < offset + |buf| then buf[i - offset]
          else ByteAt(g, before, FileMap(raw, before), i)
    { }
    forall i | 0 <= i < |was| ensures was[i] == ByteAt(g, before, FileMap(raw, before), i) { }
    if now == want {
      forall p | RawSize(g, raw) <= p < offset ensures ByteAt(g, before, FileMap(raw, before), p) == 0 {
        assert now[p] == want[p];
      }
    }
  }

  /** A write into one file leaves every other file's content alone. */
  lemma OtherFileSame(g: Geometry, l: Layout, ino: nat, other: nat, before: Disk, after: Disk)
    requires Mounted(g, l, before) && Mounted(g, l, after) && 1 <= ino <= g.inodes && 1 <= other <= g.inodes
    requires other != ino
    requires OthersKept(g, l, ino, before, after)
    requires FileLoose(g, l, RawInode(g, l, before, other), before)
    requires Mine(RawInode(g, l, before, other), before) !! Mine(RawInode(g, l, before, ino), before)
    ensures var raw := RawInode(g, l, before, other);
            && RawInode(g, l, after, other) == raw && FileLoose(g, l, raw, after)
            && (FileOwned(g, l, other, raw, before) ==> FileOwned(g, l, other, raw, after))
            && Mine(raw, after) == Mine(raw, before) && FileMap(raw, after) == FileMap(raw, before)
            && forall k :: FileBlock(g, after, FileMap(raw, after), k) == FileBlock(g, before, FileMap(raw, before), k)
  {
    hide FileOwned, FileLoose, Mine, LayoutOk, DiskOk, FileMap, RawInode, KeptBlocks, SameFreeInodes, FileBlock;
    var raw := RawInode(g, l, before, other);
    var mine := Mine(RawInode(g, l, before, ino), before) + {InoBlock(g, l, ino)};
    InodePlaced(g, l, ino);
    if InoBlock(g, l, ino) in Mine(raw, before) { MineOutside(g, l, raw, before, InoBlock(g, l, ino)); }
    FileKept(g, l, other, raw, before, after, mine);
    MineSame(raw, before, after);
  }

  lemma MineSame(raw: Buffer, before: Disk, after: Disk)
    requires |raw| == INODE_BUF && FileMap(raw, after) == FileMap(raw, before)
    ensures Mine(raw, after) == Mine(raw, before)
  {
  }
}
