/** Directories as files: which links the blocks of a directory inode hold, and what adding
    one does to them. */
module DirFiles {
  import opened Arith
  import opened Bytes
  import opened Crc
  import opened Volume
  import opened Allocator
  import opened Frame
  import opened Extents
  import opened ExtentTree
  import opened TreeGrowth
  import opened OwnedTree
  import opened Inodes
  import opened Files
  import opened Directory

  /** With checksums the last twelve bytes of a block are its tail. */
  function DirLimit(g: Geometry): nat
    requires g.bs >= 12
  {
    if g.metaCsum then g.bs - 12 else g.bs
  }

  ghost predicate DirSealed(g: Geometry, ino: nat, gen: nat, b: Buffer)
    requires g.bs >= 12
  {
    g.metaCsum ==>
      && |b| == g.bs && Le32(b, g.bs - 12) == 0 && Le16(b, g.bs - 8) == 12 && b[g.bs - 6] == 0 && b[g.bs - 5] == 0xDE
      && Le32(b, g.bs - 4) == Crc32c(InodeSeed(g, ino, gen), b[..g.bs - 12])
  }

  /** Stamps the tail of a directory block. */
  method DirTailCsum(g: Geometry, ino: nat, gen: nat, b: Buffer) returns (c: Buffer)
    requires g.bs >= 12 && |b| == g.bs
    ensures |c| == g.bs && DirSealed(g, ino, gen, c)
    ensures forall k :: 0 <= k < DirLimit(g) ==> c[k] == b[k]
  {
    hide Le16, Le32, Crc32c;
    c := b;
    if g.metaCsum {
      var b1 := PutLe32(b, g.bs - 12, 0);
      var b2 := PutLe16(b1, g.bs - 8, 12);
      var b3: Buffer := b2[g.bs - 6 := 0][g.bs - 5 := 0xDE];
      c := PutLe32(b3, g.bs - 4, Crc32c(InodeSeed(g, ino, gen), b3[..g.bs - 12]));
      Le32Same(b1, c, g.bs - 12);
      Le16Same(b2, c, g.bs - 8);
      assert c[..g.bs - 12] == b3[..g.bs - 12];
    }
  }

  ghost predicate DirBlockOk(g: Geometry, ino: nat, gen: nat, b: Buffer)
    requires g.bs >= 12
  {
    |b| == g.bs && Tiled(b, 0, DirLimit(g)) && DirSealed(g, ino, gen, b)
  }

  /** A directory block is tiled by records from its first byte to its last: with checksums on, the
      tail reads as an unused record. The links are those before the tail. */
  lemma WholeTiled(g: Geometry, ino: nat, gen: nat, b: Buffer)
    requires GeometryOk(g) && DirBlockOk(g, ino, gen, b)
    ensures Tiled(b, 0, g.bs) && Links(b, 0, g.bs) == Links(b, 0, DirLimit(g))
  {
    hide Le16, Le32, Crc32c;
    if g.metaCsum {
      TiledOne(b, g.bs - 12);
      TiledJoin(b, 0, g.bs - 12, g.bs);
      assert Links(b, g.bs - 12, g.bs) == [];
    }
  }

  /** How many blocks a directory of this size has. */
  function DirCount(g: Geometry, size: nat): nat
    requires g.bs > 0
  {
    Quot(size + g.bs - 1, g.bs)
  }

  ghost predicate DirBlocksOk(g: Geometry, ino: nat, gen: nat, disk: Disk, fm: map<nat, nat>, n: nat)
    requires g.bs >= 12
  {
    forall k :: k in fm ==> k < n && fm[k] < |disk| && DirBlockOk(g, ino, gen, disk[fm[k]])
  }

  ghost predicate DirOk(g: Geometry, l: Layout, ino: nat, raw: Buffer, disk: Disk)
    requires g.bs >= 12 && |raw| == INODE_BUF
  {
    FileOwned(g, l, ino, raw, disk) && DirBlocksOk(g, ino, Gen(raw), disk, FileMap(raw, disk),
        DirCount(g, RawSize(g, raw)))
  }

  // -------------------------------------------------------------- the links

  /** The links in block `k`. */
  ghost function BlockLinks(g: Geometry, disk: Disk, fm: map<nat, nat>, k: nat): (ls: seq<Link>)
    requires g.bs >= 12
  {
    var b := FileBlock(g, disk, fm, k);
    if k in fm && DirLimit(g) <= |b| && Tiled(b, 0, DirLimit(g)) then Links(b, 0, DirLimit(g)) else []
  }

  /** The links in the first `n` blocks. */
  ghost function DirLinks(g: Geometry, disk: Disk, fm: map<nat, nat>, n: nat): (ls: seq<Link>)
    requires g.bs >= 12
  {
    if n == 0 then [] else DirLinks(g, disk, fm, n - 1) + BlockLinks(g, disk, fm, n - 1)
  }

  /** All links of a directory. */
  ghost function AllLinks(g: Geometry, disk: Disk, raw: Buffer): (ls: seq<Link>)
    requires g.bs >= 12 && |raw| == INODE_BUF
  {
    DirLinks(g, disk, FileMap(raw, disk), DirCount(g, RawSize(g, raw)))
  }

  lemma {:induction false} LinksSame(g: Geometry, before: Disk, fm: map<nat, nat>, after: Disk, more: map<nat, nat>,
                                     n: nat)
    requires g.bs >= 12
    requires forall k :: 0 <= k < n ==> BlockLinks(g, after, more, k) == BlockLinks(g, before, fm, k)
    ensures DirLinks(g, after, more, n) == DirLinks(g, before, fm, n)
  {
    if n > 0 { LinksSame(g, before, fm, after, more, n - 1); }
  }

  /** A link added to one block is a link added to the directory. */
  lemma {:induction false} LinksGrown(g: Geometry, before: Disk, fm: map<nat, nat>, after: Disk, more: map<nat, nat>,
                                      n: nat, lb: nat, x: Link)
    requires g.bs >= 12 && lb < n
    requires forall k :: 0 <= k < n && k != lb ==> BlockLinks(g, after, more, k) == BlockLinks(g, before, fm, k)
    requires Grown(BlockLinks(g, before, fm, lb), BlockLinks(g, after, more, lb), x)
    ensures Grown(DirLinks(g, before, fm, n), DirLinks(g, after, more, n), x)
  {
    hide BlockLinks, Grown;
    var a, b := DirLinks(g, before, fm, n - 1), BlockLinks(g, before, fm, n - 1);
    if lb == n - 1 {
      LinksSame(g, before, fm, after, more, n - 1);
      GrownWithin(a, b, BlockLinks(g, after, more, n - 1), [], x);
      assert a + b + [] == a + b;
      assert a + BlockLinks(g, after, more, n - 1) + [] == a + BlockLinks(g, after, more, n - 1);
    } else {
      LinksGrown(g, before, fm, after, more, n - 1, lb, x);
      GrownWithin([], a, DirLinks(g, after, more, n - 1), b, x);
      assert [] + a + b == a + b;
      assert [] + DirLinks(g, after, more, n - 1) + b == DirLinks(g, after, more, n - 1) + b;
    }
  }

  lemma MappedLinks(g: Geometry, ino: nat, gen: nat, disk: Disk, fm: map<nat, nat>, n: nat, k: nat)
    requires g.bs >= 12 && DirBlocksOk(g, ino, gen, disk, fm, n) && k in fm
    ensures fm[k] < |disk| && |disk[fm[k]]| == g.bs && Tiled(disk[fm[k]], 0, DirLimit(g))
    ensures BlockLinks(g, disk, fm, k) == Links(disk[fm[k]], 0, DirLimit(g))
  {
    hide DirSealed, Tiled, Links;
    assert DirBlockOk(g, ino, gen, disk[fm[k]]);
  }

  lemma NoLinks(g: Geometry, disk: Disk, fm: map<nat, nat>, name: Buffer)
    requires g.bs >= 12
    ensures Find(DirLinks(g, disk, fm, 0), name) == None
  {
  }

  lemma UnmappedLinks(g: Geometry, disk: Disk, fm: map<nat, nat>, k: nat, name: Buffer)
    requires g.bs >= 12 && k !in fm
    ensures Find(BlockLinks(g, disk, fm, k), name) == None
  {
  }

  /** Searching block after block is searching all links. */
  lemma FindStep(g: Geometry, disk: Disk, fm: map<nat, nat>, lb: nat, n: nat, name: Buffer)
    requires g.bs >= 12 && lb < n && Find(DirLinks(g, disk, fm, lb), name).None?
    ensures Find(DirLinks(g, disk, fm, lb + 1), name) == Find(BlockLinks(g, disk, fm, lb), name)
  {
    hide BlockLinks;
    FindConcat(DirLinks(g, disk, fm, lb), BlockLinks(g, disk, fm, lb), name);
  }

  /** The first hit decides. */
  lemma {:induction false} FindFirst(g: Geometry, disk: Disk, fm: map<nat, nat>, m: nat, n: nat, name: Buffer)
    requires g.bs >= 12 && m <= n && Find(DirLinks(g, disk, fm, m), name).Some?
    ensures Find(DirLinks(g, disk, fm, n), name) == Find(DirLinks(g, disk, fm, m), name)
  {
    hide BlockLinks;
    if m < n {
      FindFirst(g, disk, fm, m, n - 1, name);
      FindConcat(DirLinks(g, disk, fm, n - 1), BlockLinks(g, disk, fm, n - 1), name);
    }
  }

  // ------------------------------------------------------- adding a link

  /** The directory holds one more link; its inode is otherwise as it was. */
  ghost predicate LinkAdded(g: Geometry, l: Layout, dir: nat, before: Disk, after: Disk, x: Link)
    requires Mounted(g, l, before) && Mounted(g, l, after) && 1 <= dir <= g.inodes
  {
    var raw, out := RawInode(g, l, before, dir), RawInode(g, l, after, dir);
    && DirOk(g, l, dir, out, after) && Grown(AllLinks(g, before, raw), AllLinks(g, after, out), x)
    && RestSame(g, raw, out) && Le16(out, INO_MODE) == Le16(raw, INO_MODE) && Le32(out, INO_FLAGS)
         == Le32(raw, INO_FLAGS)
    && ((out == raw && FileMap(out, after) == FileMap(raw, before))
        || (RawSize(g, out) == RawSize(g, raw) + g.bs
            && RawBlocks(g, out) == Narrow(g, Sectors(g, |FileMap(out, after)|))))
    && (InodeSealed(g, dir, raw) ==> InodeSealed(g, dir, out))
    && (forall b :: b in Mine(out, after) ==> b in Mine(raw, before) || Free(g, l, before, b))
  }

  /** The sector count of a directory is right after a link was added, if it was before or a block
      was added. */
  lemma LinkSectors(g: Geometry, l: Layout, dir: nat, before: Disk, after: Disk, x: Link)
    requires Mounted(g, l, before) && Mounted(g, l, after) && 1 <= dir <= g.inodes
    requires LinkAdded(g, l, dir, before, after, x)
    requires Counted(g, RawInode(g, l, before, dir), before)
             || RawInode(g, l, after, dir) != RawInode(g, l, before, dir)
    ensures Counted(g, RawInode(g, l, after, dir), after)
  {
    hide LayoutOk, DiskOk, RawInode, DirOk, AllLinks, Grown, Mine, Counted, FileMap, RawBlocks, RawSize, Sectors,
      RestSame, InodeSealed, Le16, Le32;
    var raw, out := RawInode(g, l, before, dir), RawInode(g, l, after, dir);
    if out == raw && FileMap(out, after) == FileMap(raw, before) {
      CountKept(g, raw, out, before, after);
    } else {
      CountStored(g, out, after);
    }
  }

  lemma StaysCounted(g: Geometry, l: Layout, dir: nat, before: Disk, after: Disk, x: Link)
    requires Mounted(g, l, before) && Mounted(g, l, after) && 1 <= dir <= g.inodes
    requires LinkAdded(g, l, dir, before, after, x)
    ensures Counted(g, RawInode(g, l, before, dir), before)
            || RawInode(g, l, after, dir) != RawInode(g, l, before, dir) ==>
              Counted(g, RawInode(g, l, after, dir), after)
  {
    hide LayoutOk, DiskOk, RawInode, LinkAdded, Counted;
    if Counted(g, RawInode(g, l, before, dir), before) || RawInode(g, l, after, dir) != RawInode(g, l, before, dir) {
      LinkSectors(g, l, dir, before, after, x);
    }
  }

  lemma SealedLinks(b: Buffer, c: Buffer, d: Buffer, limit: nat, x: Link)
    requires limit <= |b| && Tiled(b, 0, limit) && EntryAdded(b, c, limit, x) && |d| == |c|
    requires forall k :: 0 <= k < limit ==> d[k] == c[k]
    ensures Tiled(d, 0, limit) && Grown(Links(b, 0, limit), Links(d, 0, limit), x)
  {
    hide Tiled, Links, Grown;
    TiledFrame(c, d, 0, limit);
  }

  /** Adding an entry inside a block the directory has. */
  lemma DirBlockWritten(g: Geometry, l: Layout, ino: nat, raw: Buffer, disk: Disk, lb: nat, buf: Buffer, x: Link)
    requires g.bs >= 12 && |raw| == INODE_BUF && DirOk(g, l, ino, raw, disk) && lb in FileMap(raw, disk)
    requires FileMap(raw, disk)[lb] < |disk| && |disk[FileMap(raw, disk)[lb]]| == g.bs
    requires Tiled(disk[FileMap(raw, disk)[lb]], 0, DirLimit(g))
    requires DirBlockOk(g, ino, Gen(raw), buf)
    requires Grown(Links(disk[FileMap(raw, disk)[lb]], 0, DirLimit(g)), Links(buf, 0, DirLimit(g)), x)
    requires KeptBlocks(g, l, disk, disk[FileMap(raw, disk)[lb] := buf], {FileMap(raw, disk)[lb]})
    ensures var after := disk[FileMap(raw, disk)[lb] := buf];
            && DirOk(g, l, ino, raw, after) && FileMap(raw, after) == FileMap(raw, disk)
            && Grown(AllLinks(g, disk, raw), AllLinks(g, after, raw), x)
  {
    hide FileOwned, FileLoose, TreeOk, FileMap, Gen, RawSize, DirCount, DirBlockOk, Grown, Links, Tiled, KeptBlocks;
    var fm := FileMap(raw, disk);
    var after := disk[fm[lb] := buf];
    var n := DirCount(g, RawSize(g, raw));
    OwnedLoose(g, l, ino, raw, disk);
    DataWritten(g, l, ino, raw, disk, lb, buf);
    OwnedLoose(g, l, ino, raw, after);
    forall k | k in fm && k != lb ensures after[fm[k]] == disk[fm[k]] {
      assert FileBlock(g, after, fm, k) == FileBlock(g, disk, fm, k);
    }
    forall k | 0 <= k < n && k != lb ensures BlockLinks(g, after, fm, k) == BlockLinks(g, disk, fm, k) {
      assert FileBlock(g, after, fm, k) == FileBlock(g, disk, fm, k);
    }
    MappedLinks(g, ino, Gen(raw), disk, fm, n, lb);
    MappedLinks(g, ino, Gen(raw), after, fm, n, lb);
    LinksGrown(g, disk, fm, after, fm, n, lb, x);
  }

  lemma CountNext(g: Geometry, size: nat)
    requires g.bs > 0
    ensures DirCount(g, size + g.bs) == DirCount(g, size) + 1
  {
  }

  lemma GrownEnd(ls: seq<Link>, x: Link)
    ensures Grown(ls, ls + [x], x)
  {
    GrownAt(ls, [], x);
    assert ls + [] == ls && ls + [x] + [] == ls + [x];
  }

  /** A block with one entry added at the end of the directory. */
  lemma DirBlockAdded(g: Geometry, l: Layout, ino: nat, raw: Buffer, cur: Buffer, before: Disk, mid: Disk, lb: nat,
                      fsb: nat, x: Link)
    requires g.bs >= 12 && |raw| == |cur| == INODE_BUF && DirOk(g, l, ino, raw, before) && Gen(cur) == Gen(raw)
    requires lb == DirCount(g, RawSize(g, raw)) && lb !in FileMap(raw, before)
    requires Extended(g, l, ino, raw, cur, before, mid, lb, fsb)
    requires fsb < |mid| && DirBlockOk(g, ino, Gen(raw), mid[fsb]) && Links(mid[fsb], 0, DirLimit(g)) == [x]
    ensures DirBlocksOk(g, ino, Gen(raw), mid, FileMap(cur, mid), lb + 1)
    ensures DirLinks(g, mid, FileMap(cur, mid), lb + 1) == DirLinks(g, before, FileMap(raw, before), lb) + [x]
  {
    hide FileOwned, FileLoose, TreeOk, Kids, FileMap, Gen, RawSize, DirCount, DirBlockOk, Links, Kept, NewKids, Free,
      EndsBefore;
    var fm, more := FileMap(raw, before), FileMap(cur, mid);
    forall k | k in fm ensures fm[k] < |mid| && mid[fm[k]] == before[fm[k]] {
      DataThere(g, l, cur, mid, k);
      assert FileBlock(g, mid, fm, k) == FileBlock(g, before, fm, k);
    }
    forall k | 0 <= k < lb ensures BlockLinks(g, mid, more, k) == BlockLinks(g, before, fm, k) {
      if k in fm { assert FileBlock(g, mid, fm, k) == FileBlock(g, before, fm, k); }
    }
    LinksSame(g, before, fm, mid, more, lb);
    MappedLinks(g, ino, Gen(raw), mid, more, lb + 1, lb);
  }

  lemma DataThere(g: Geometry, l: Layout, raw: Buffer, disk: Disk, k: nat)
    requires |raw| == INODE_BUF && FileLoose(g, l, raw, disk) && k in FileMap(raw, disk)
    ensures FileMap(raw, disk)[k] < |disk|
  {
  }

  /** Storing the directory's inode keeps its blocks and so its links. */
  lemma DirStored(g: Geometry, l: Layout, ino: nat, cur: Buffer, out: Buffer, mid: Disk, after: Disk, block: nat,
                  n: nat)
    requires g.bs >= 12 && SameRoot(cur, out) && FileOwned(g, l, ino, cur, mid) && block in l.roles && n
        == DirCount(g, RawSize(g, out))
    requires KeptBlocks(g, l, mid, after, {block}) && DirBlocksOk(g, ino, Gen(cur), mid, FileMap(cur, mid), n)
    ensures DirOk(g, l, ino, out, after) && AllLinks(g, after, out) == DirLinks(g, mid, FileMap(cur, mid), n)
    ensures Mine(out, after) == Mine(cur, mid) && FileMap(out, after) == FileMap(cur, mid)
  {
    hide FileOwned, FileLoose, KeptBlocks, FileMap, KidBlocks, DirCount, RawSize, DirBlockOk, Links, Tiled;
    OwnedLoose(g, l, ino, cur, mid);
    if block in Mine(cur, mid) { MineOutside(g, l, cur, mid, block); }
    FileKept(g, l, ino, cur, mid, after, {block});
    FileSame(g, l, ino, cur, out, after);
    Le32Same(cur, out, GENERATION);
    var fm := FileMap(cur, mid);
    forall k | k in fm ensures fm[k] < |after| && after[fm[k]] == mid[fm[k]] {
      DataThere(g, l, out, after, k);
      assert FileBlock(g, after, fm, k) == FileBlock(g, mid, fm, k);
    }
    forall k | 0 <= k < n ensures BlockLinks(g, after, fm, k) == BlockLinks(g, mid, fm, k) {
      assert FileBlock(g, after, fm, k) == FileBlock(g, mid, fm, k);
    }
    LinksSame(g, mid, fm, after, fm, n);
  }

  /** The directory after a block with the new link was added and its inode stored. */
  lemma LinkAppended(g: Geometry, l: Layout, dir: nat, raw: Buffer, cur: Buffer, enc: Buffer, before: Disk, mid: Disk,
                     after: Disk,
                     lb: nat, fsb: nat, sectors: nat, x: Link)
    requires Mounted(g, l, before) && Mounted(g, l, after) && 1 <= dir <= g.inodes && raw == RawInode(g, l, before, dir)
    requires |cur| == |enc| == INODE_BUF && DirOk(g, l, dir, raw, before) && RootOnly(raw, cur)
    requires lb == DirCount(g, RawSize(g, raw)) && lb !in FileMap(raw, before)
    requires Extended(g, l, dir, raw, cur, before, mid, lb, fsb)
    requires fsb < |mid| && DirBlockOk(g, dir, Gen(raw), mid[fsb]) && Links(mid[fsb], 0, DirLimit(g)) == [x]
    requires FieldsOnly(cur, enc) && InodeSealed(g, dir, enc)
    requires Kept(g, l, mid, after, {InoBlock(g, l, dir)}) && RawInode(g, l, after, dir) == Padded(g, enc)
    requires Decoded(g, dir, enc) == Decoded(g, dir, raw).(size := RawSize(g, raw) + g.bs, blocks := sectors,
        raw := enc)
    requires sectors == Narrow(g, Sectors(g, |FileMap(cur, mid)|))
    ensures LinkAdded(g, l, dir, before, after, x)
  {
    hide FileOwned, FileLoose, TreeOk, Kids, FileMap, DirBlocksOk, RawInode, LayoutOk, DiskOk, Mine, KeptBlocks,
      SameFreeInodes, DirLinks, Grown, DirCount,
      Links, NewKids, Free, Gen, FileBlock, Quot, InodeSealed, EndsBefore;
    DirKeys(g, l, dir, raw, before);
    OwnedLoose(g, l, dir, cur, mid);
    var out := Padded(g, enc);
    InodePlaced(g, l, dir);
    RootOnlyGen(raw, cur);
    RootKept(g, raw, cur, enc);
    PaddedDecoded(g, dir, enc);
    PaddedSealed(g, dir, enc);
    CountNext(g, RawSize(g, raw));
    DirBlockAdded(g, l, dir, raw, cur, before, mid, lb, fsb, x);
    DirStored(g, l, dir, cur, out, mid, after, InoBlock(g, l, dir), lb + 1);
    GrownEnd(AllLinks(g, before, raw), x);
    MineGrew(g, l, dir, raw, cur, before, mid, lb, fsb);
  }

  lemma BlockAligned(g: Geometry)
    requires GeometryOk(g)
    ensures g.bs % 4 == 0 && DirLimit(g) % 4 == 0 && 1012 <= DirLimit(g) < U16
  {
    var n: nat :| n > 0 && Times(n, g.inodeSize) == g.bs;
    TimesOfFour(n, g.inodeSize);
  }

  /** A fresh directory block with one entry. */
  method NewDirBlock(g: Geometry, dir: nat, gen: nat, name: Buffer, target: nat, ft: nat) returns (nb: Buffer)
    requires GeometryOk(g) && 0 < |name| <= NAME_LEN && 0 < target < U32 && ft < 0x100
    ensures DirBlockOk(g, dir, gen, nb) && Links(nb, 0, DirLimit(g)) == [Link(name, target, ft)]
  {
    hide DirSealed, RecLen, RecIno, NameLen, Links;
    BlockAligned(g);
    var b := FillEntry(Zeros(g.bs), 0, DirLimit(g), target, ft, name);
    FilledTile(b, 0, name);
    nb := DirTailCsum(g, dir, gen, b);
    TiledFrame(b, nb, 0, DirLimit(g));
  }

  lemma DirKeys(g: Geometry, l: Layout, dir: nat, raw: Buffer, disk: Disk)
    requires g.bs >= 12 && |raw| == INODE_BUF && DirOk(g, l, dir, raw, disk)
    ensures EndsBefore(FileMap(raw, disk), DirCount(g, RawSize(g, raw)))
  {
  }

  /** The directory block has room for an entry with a name of `n` bytes. */
  ghost predicate BlockRoomy(g: Geometry, disk: Disk, b: nat, n: nat)
    requires g.bs >= 12
  {
    b < |disk| && |disk[b]| == g.bs && Tiled(disk[b], 0, DirLimit(g)) && Roomy(disk[b], 0, DirLimit(g), RoundDirSize(n))
  }

  ghost predicate DirRoomy(g: Geometry, raw: Buffer, disk: Disk, n: nat)
    requires g.bs >= 12 && |raw| == INODE_BUF
  {
    exists k :: k in FileMap(raw, disk) && BlockRoomy(g, disk, FileMap(raw, disk)[k], n)
  }

  /** None of the first `m` blocks has room. */
  ghost predicate NoneRoomy(g: Geometry, fm: map<nat, nat>, disk: Disk, m: nat, n: nat)
    requires g.bs >= 12
  {
    forall k :: k in fm && k < m ==> !BlockRoomy(g, disk, fm[k], n)
  }

  lemma NoneYet(g: Geometry, fm: map<nat, nat>, disk: Disk, n: nat)
    requires g.bs >= 12
    ensures NoneRoomy(g, fm, disk, 0, n)
  {
  }

  lemma NextRoomless(g: Geometry, fm: map<nat, nat>, disk: Disk, m: nat, n: nat)
    requires g.bs >= 12 && NoneRoomy(g, fm, disk, m, n) && (m in fm ==> !BlockRoomy(g, disk, fm[m], n))
    ensures NoneRoomy(g, fm, disk, m + 1, n)
  {
    hide BlockRoomy;
  }

  lemma AllRoomless(g: Geometry, l: Layout, dir: nat, raw: Buffer, disk: Disk, n: nat)
    requires g.bs >= 12 && |raw| == INODE_BUF && DirOk(g, l, dir, raw, disk)
    requires NoneRoomy(g, FileMap(raw, disk), disk, DirCount(g, RawSize(g, raw)), n)
    ensures !DirRoomy(g, raw, disk, n)
  {
    hide BlockRoomy, DirCount, RawSize, FileMap;
    DirKeys(g, l, dir, raw, disk);
  }

  lemma OneRoomy(g: Geometry, raw: Buffer, disk: Disk, k: nat, n: nat)
    requires g.bs >= 12 && |raw| == INODE_BUF && k in FileMap(raw, disk)
    requires BlockRoomy(g, disk, FileMap(raw, disk)[k], n)
    ensures DirRoomy(g, raw, disk, n)
  {
  }

  lemma RoomyKept(g: Geometry, raw: Buffer, before: Disk, after: Disk, n: nat)
    requires g.bs >= 12 && |raw| == INODE_BUF && FileMap(raw, after) == FileMap(raw, before)
    requires forall k :: k in FileMap(raw, before) ==> SameBlock(before, after, FileMap(raw, before)[k])
    ensures DirRoomy(g, raw, after, n) <==> DirRoomy(g, raw, before, n)
  {
    hide Roomy, Tiled, FileMap;
    var fm := FileMap(raw, before);
    forall k | k in fm ensures BlockRoomy(g, after, fm[k], n) <==> BlockRoomy(g, before, fm[k], n) { }
  }

  /** What keeps a name of `n` bytes out of a directory: no block of it has room, and it cannot
      get another one. */
  ghost predicate LinkFails(g: Geometry, l: Layout, raw: Buffer, disk: Disk, n: nat)
    requires GeometryOk(g) && LayoutOk(g, l) && |raw| == INODE_BUF
  {
    !DirRoomy(g, raw, disk, n) && !Growable(g, l, raw, disk, DirCount(g, RawSize(g, raw)))
  }

  /** The directory can have another block: its size can be stored and the block is found. */
  ghost predicate DirGrows(g: Geometry, l: Layout, raw: Buffer, disk: Disk)
    requires GeometryOk(g) && LayoutOk(g, l) && |raw| == INODE_BUF
  {
    SizeFits(g, RawSize(g, raw) + g.bs) && Findable(g, l, raw, disk, DirCount(g, RawSize(g, raw)))
  }

  /** A name of `n` bytes that is added to the directory is there afterwards. */
  ghost predicate LinkStays(g: Geometry, l: Layout, raw: Buffer, disk: Disk, n: nat)
    requires GeometryOk(g) && LayoutOk(g, l) && |raw| == INODE_BUF
  {
    DirRoomy(g, raw, disk, n) || DirGrows(g, l, raw, disk)
  }

  lemma CutCount(g: Geometry, size: nat)
    requires GeometryOk(g) && !SizeFits(g, size + g.bs) && size < 0x1_0000_0000
    ensures DirCount(g, Narrow(g, size + g.bs)) <= DirCount(g, size)
  {
    QuotMonotone(Narrow(g, size + g.bs) + g.bs - 1, size + g.bs - 1, g.bs);
  }

  lemma FitsNarrow(g: Geometry, size: nat)
    requires SizeFits(g, size)
    ensures Narrow(g, size) == size
  {
  }

  lemma SizeNarrow(g: Geometry, raw: Buffer)
    requires |raw| == INODE_BUF && !g.has64
    ensures RawSize(g, raw) < 0x1_0000_0000
  {
  }

  /** A directory that got a block it cannot find, or whose size was cut, is no longer
      well-formed. */
  lemma LinkLost(g: Geometry, l: Layout, dir: nat, raw: Buffer, cur: Buffer, out: Buffer, before: Disk, mid: Disk,
                 after: Disk,
                 lb: nat, fsb: nat, block: nat)
    requires GeometryOk(g) && LayoutOk(g, l) && |raw| == |cur| == |out| == INODE_BUF && DirOk(g, l, dir, raw, before)
    requires lb == DirCount(g, RawSize(g, raw)) && Added(g, l, dir, raw, cur, before, mid, lb, fsb)
    requires SameRoot(cur, out) && block in l.roles && RawSize(g, out) == Narrow(g, RawSize(g, raw) + g.bs)
    requires Kept(g, l, mid, after, {block}) && SameFreeBlocks(g, l, mid, after) && !DirGrows(g, l, raw, before)
    ensures !DirOk(g, l, dir, out, after)
  {
    hide LayoutOk, FileOwned, FileLoose, TreeOk, TreeLoose, TreeExtents, FileMap, Mine, Kept, SameFreeBlocks, RawSize,
      DirCount, Gen, Overlong, Located,
      TreeReadable, TreeOwned, KeyUsed, Spare, Inserted, Beyond, SameRoot, DirBlockOk, Narrow, LastKey;
    if DirOk(g, l, dir, out, after) {
      KeptBack(g, l, mid, after, {block});
      OwnedLoose(g, l, dir, out, after);
      OwnedLoose(g, l, dir, raw, before);
      RootBack(cur, out);
      BytesStored(g, l, dir, out, cur, after, mid, block);
      OwnedLoose(g, l, dir, cur, mid);
      DirKeys(g, l, dir, raw, before);
      FileBeyond(g, dir, raw, before, lb);
      BeyondKey(g, dir, raw, before, lb, fsb);
      assert Visible(g, raw, before, lb, fsb);
      assert Findable(g, l, raw, before, lb);
      assert lb in FileMap(cur, mid);
      DirKeys(g, l, dir, out, after);
      if !g.has64 { SizeNarrow(g, raw); }
      CutCount(g, RawSize(g, raw));
      assert false;
    }
  }

  lemma DirLoose(g: Geometry, l: Layout, dir: nat, raw: Buffer, cur: Buffer, before: Disk, mid: Disk, lb: nat, fsb: nat)
    requires GeometryOk(g) && LayoutOk(g, l) && |raw| == |cur| == INODE_BUF && DirOk(g, l, dir, raw, before)
    requires lb == DirCount(g, RawSize(g, raw)) && Added(g, l, dir, raw, cur, before, mid, lb, fsb)
    ensures TreeLoose(cur, mid)
  {
    hide LayoutOk, DirBlocksOk, TreeOk, TreeLoose, TreeExtents, FileMap, RawSize, DirCount, Located, TreeReadable,
      TreeOwned, DataOwned, KeyUsed, Spare, Inserted,
      Beyond, LastKey, Visible;
    DirKeys(g, l, dir, raw, before);
    FileBeyond(g, dir, raw, before, lb);
    BeyondKey(g, dir, raw, before, lb, fsb);
  }

  lemma DirAdded(g: Geometry, l: Layout, dir: nat, raw: Buffer, cur: Buffer, before: Disk, mid: Disk, lb: nat, fsb: nat)
    requires GeometryOk(g) && LayoutOk(g, l) && |raw| == |cur| == INODE_BUF && DirOk(g, l, dir, raw, before)
    requires lb == DirCount(g, RawSize(g, raw)) && lb < U32 && Added(g, l, dir, raw, cur, before, mid, lb, fsb)
    requires DirGrows(g, l, raw, before)
    ensures Extended(g, l, dir, raw, cur, before, mid, lb, fsb) && lb !in FileMap(raw, before)
    ensures Narrow(g, RawSize(g, raw) + g.bs) == RawSize(g, raw) + g.bs
  {
    hide LayoutOk, DirBlocksOk, TreeOk, FileMap, RawSize, DirCount, DataOwned, TreeOwned, Added, Extended, Findable,
      SizeFits, Narrow, Found;
    FitsNarrow(g, RawSize(g, raw) + g.bs);
    DirKeys(g, l, dir, raw, before);
    AddedFound(g, l, dir, raw, cur, before, mid, lb, fsb);
  }

  lemma StoredRoot(g: Geometry, l: Layout, dir: nat, raw: Buffer, cur: Buffer, enc: Buffer)
    requires GeometryOk(g) && LayoutOk(g, l) && 1 <= dir <= g.inodes && RootOnly(raw, cur) && FieldsOnly(cur, enc)
    requires |enc| == INODE_BUF
    ensures SameRoot(cur, Padded(g, enc)) && InoBlock(g, l, dir) in l.roles
    ensures RawSize(g, Padded(g, enc)) == Decoded(g, dir, enc).size
  {
    hide LayoutOk, RootOnly, FieldsOnly, SameRoot, Padded, RawSize, Decoded, RestSame;
    InodePlaced(g, l, dir);
    RootKept(g, raw, cur, enc);
    PaddedDecoded(g, dir, enc);
    DecodedFields(g, dir, Padded(g, enc));
  }

  /** What became of a directory that got another block, once its inode is stored. */
  lemma AppendDone(g: Geometry, l: Layout, dir: nat, raw: Buffer, cur: Buffer, enc: Buffer, before: Disk, mid: Disk,
                   after: Disk, lb: nat, fsb: nat, x: Link)
    requires Mounted(g, l, before) && Mounted(g, l, after) && 1 <= dir <= g.inodes && raw == RawInode(g, l, before, dir)
    requires |cur| == |enc| == INODE_BUF && DirOk(g, l, dir, raw, before) && RootOnly(raw, cur)
    requires lb == DirCount(g, RawSize(g, raw)) && lb < U32 && Added(g, l, dir, raw, cur, before, mid, lb, fsb)
    requires fsb < |mid| && DirBlockOk(g, dir, Gen(raw), mid[fsb]) && Links(mid[fsb], 0, DirLimit(g)) == [x]
    requires FieldsOnly(cur, enc) && InodeSealed(g, dir, enc)
    requires Kept(g, l, mid, after, {InoBlock(g, l, dir)}) && SameFreeBlocks(g, l, mid, after)
    requires RawInode(g, l, after, dir) == Padded(g, enc)
    requires Decoded(g, dir, enc) == Decoded(g, dir, raw).(size := Narrow(g, RawSize(g, raw) + g.bs),
                                                           blocks := Narrow(g, Sectors(g, |FileMap(cur, mid)|)),
                                                               raw := enc)
    ensures if DirGrows(g, l, raw, before) then LinkAdded(g, l, dir, before, after, x)
        else !DirOk(g, l, dir, RawInode(g, l, after, dir), after)
  {
    hide LayoutOk, DiskOk, FileOwned, FileMap, DirBlocksOk, Mine, KeptBlocks, SameFreeInodes, SameFreeBlocks, RawInode,
      RootOnly, DirCount, RawSize, Added,
      DirBlockOk, Links, FieldsOnly, InodeSealed, Padded, Decoded, Narrow, Sectors, DirGrows, LinkAdded, Extended, Gen,
          InoBlock, DirOk;
    if DirGrows(g, l, raw, before) {
      DirAdded(g, l, dir, raw, cur, before, mid, lb, fsb);
      LinkAppended(g, l, dir, raw, cur, enc, before, mid, after, lb, fsb, Narrow(g, Sectors(g, |FileMap(cur, mid)|)),
          x);
    } else {
      StoredRoot(g, l, dir, raw, cur, enc);
      LinkLost(g, l, dir, raw, cur, Padded(g, enc), before, mid, after, lb, fsb, InoBlock(g, l, dir));
    }
  }

  lemma RootBack(a: Buffer, b: Buffer)
    requires SameRoot(a, b)
    ensures SameRoot(b, a)
  {
  }

  /** Losing blocks at the end of a directory loses links at its end. */
  lemma {:induction false} LinksReceded(g: Geometry, before: Disk, was: map<nat, nat>, after: Disk, now: map<nat, nat>,
                                        n: nat)
    requires g.bs >= 12
    requires forall k :: k in now ==> k in was && BlockLinks(g, after, now, k) == BlockLinks(g, before, was, k)
    requires forall j, k :: j in now && k in was && k !in now ==> j < k
    ensures DirLinks(g, after, now, n) <= DirLinks(g, before, was, n)
  {
    hide BlockLinks;
    if n > 0 {
      LinksReceded(g, before, was, after, now, n - 1);
      if n - 1 in now {
        forall k | 0 <= k < n ensures BlockLinks(g, after, now, k) == BlockLinks(g, before, was, k) {
          if k !in now { NoBlockLinks(g, before, was, k); NoBlockLinks(g, after, now, k); }
        }
        LinksSame(g, before, was, after, now, n);
      } else {
        NoBlockLinks(g, after, now, n - 1);
      }
    }
  }

  lemma NoBlockLinks(g: Geometry, disk: Disk, fm: map<nat, nat>, k: nat)
    requires g.bs >= 12 && k !in fm
    ensures BlockLinks(g, disk, fm, k) == []
  {
  }

  /** What a refused entry leaves of a directory: a well-formed one with a first part of the
      links, and no blocks it did not have. */
  ghost predicate DirReceded(g: Geometry, l: Layout, dir: nat, raw: Buffer, before: Disk, after: Disk)
    requires g.bs >= 12 && |raw| == INODE_BUF
  {
    DirOk(g, l, dir, raw, after) && AllLinks(g, after, raw) <= AllLinks(g, before, raw)
        && Mine(raw, after) <= Mine(raw, before)
  }

  lemma RefusedEntry(g: Geometry, l: Layout, dir: nat, raw: Buffer, before: Disk, after: Disk)
    requires g.bs >= 12 && |raw| == INODE_BUF && DirOk(g, l, dir, raw, before)
    requires Receded(g, l, dir, raw, before, after) && KeptBlocks(g, l, before, after, KidBlocks(raw))
    ensures DirReceded(g, l, dir, raw, before, after)
  {
    hide TreeOk, TreeLoose, TreeOwned, TreeExtents, MapOf, KidBlocks, KeptBlocks, DirBlockOk, Links, Tiled, DirCount,
      RawSize, Gen, DataOwned, DirLinks;
    OwnedLoose(g, l, dir, raw, before);
    var was, now := FileMap(raw, before), FileMap(raw, after);
    PrefixExtents(g, dir, raw, before, after);
    PartKept(g, l, raw, before, after, now, KidBlocks(raw));
    forall k | k in now ensures now[k] < |after| && after[now[k]] == before[was[k]] && BlockLinks(g, after, now, k)
        == BlockLinks(g, before, was, k) {
      DataThere(g, l, raw, before, k);
      PartThere(g, l, now, KidBlocks(raw), after, k);
      assert FileBlock(g, after, now, k) == FileBlock(g, before, was, k);
    }
    LinksReceded(g, before, was, after, now, DirCount(g, RawSize(g, raw)));
  }

  lemma PartThere(g: Geometry, l: Layout, fm: map<nat, nat>, kids: set<nat>, disk: Disk, k: nat)
    requires DataOwned(g, l, fm, kids, disk) && k in fm
    ensures fm[k] < |disk|
  {
  }

  lemma PrefixExtents(g: Geometry, ino: nat, raw: Buffer, before: Disk, after: Disk)
    requires g.bs >= 12 && |raw| == INODE_BUF && TreeOk(g, ino, raw, before)
    requires TreeExtents(raw, after) <= TreeExtents(raw, before)
    ensures Submap(FileMap(raw, after), FileMap(raw, before))
    ensures forall j, k :: j in FileMap(raw, after) && k in FileMap(raw, before) && k !in FileMap(raw, after) ==> j < k
  {
    hide TreeExtents, MapOf;
    var es := TreeExtents(raw, before);
    assert TreeExtents(raw, after) == es[..|TreeExtents(raw, after)|];
    PrefixMap(es, |TreeExtents(raw, after)|);
  }

  lemma LinkInPlace(g: Geometry, l: Layout, dir: nat, raw: Buffer, before: Disk, after: Disk, x: Link)
    requires Mounted(g, l, before) && Mounted(g, l, after) && MetaInUse(g, l, before) && 1 <= dir <= g.inodes
    requires raw == RawInode(g, l, before, dir) && DirOk(g, l, dir, raw, before)
    requires Kept(g, l, before, after, Mine(raw, before))
    requires DirOk(g, l, dir, raw, after) && FileMap(raw, after) == FileMap(raw, before)
    requires Grown(AllLinks(g, before, raw), AllLinks(g, after, raw), x)
    ensures LinkAdded(g, l, dir, before, after, x) && OthersKept(g, l, dir, before, after)
  {
    hide FileOwned, FileLoose, FileMap, DirBlocksOk, KeptBlocks, SameFreeInodes, Mine, MetaInUse, LayoutOk, DiskOk,
      RawInode, Grown, AllLinks, InodesKept,
      Le16, Le32, InodeSealed;
    OwnedLoose(g, l, dir, raw, before);
    OthersAfterWrite(g, l, dir, raw, before, after, after);
    MineSame(raw, before, after);
  }
}
