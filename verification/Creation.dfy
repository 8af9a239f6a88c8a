/** New files and directories: the inode that is built for them, the first block of a
    directory, and how they come to be part of the tree. */
module Creation {
  import opened Bytes
  import opened Volume
  import opened Allocator
  import opened Frame
  import opened Extents
  import opened ExtentTree
  import opened TreeGrowth
  import opened OwnedTree
  import opened Inodes
  import opened Files
  import opened Directory
  import opened DirFiles

  const DOT: Buffer := [0x2E]
  const DOT_DOT: Buffer := [0x2E, 0x2E]
  const MODE_DIR: nat := 0x41ED
  const MODE_FILE: nat := 0x81A4
  const EXTRA_ISIZE: nat := 28

  /** The first block of directory `ino` below `dir`. */
  method FirstDirBlock(g: Geometry, ino: nat, dir: nat) returns (nb: Buffer)
    requires GeometryOk(g) && 0 < ino < U32 && 0 < dir < U32
    ensures |nb| == g.bs && DirBlockOk(g, ino, 0, nb) && Links(nb, 0, DirLimit(g))
        == [Link(DOT, ino, FT_DIR), Link(DOT_DOT, dir, FT_DIR)]
  {
    hide DirSealed, RecLen, RecIno, NameLen, Links, Tiled;
    BlockAligned(g);
    var a := FillEntry(Zeros(g.bs), 0, 12, ino, FT_DIR, DOT);
    FilledTile(a, 0, DOT);
    var b := FillEntry(a, 12, DirLimit(g) - 12, dir, FT_DIR, DOT_DOT);
    FilledTile(b, 12, DOT_DOT);
    TiledFrame(a, b, 0, 12);
    TiledJoin(b, 0, 12, DirLimit(g));
    nb := DirTailCsum(g, ino, 0, b);
    TiledFrame(b, nb, 0, DirLimit(g));
  }

  /** An inode buffer with an empty extent header, a link count and nothing else. */
  method BlankInode(links: nat) returns (raw: Buffer)
    requires links < U16
    ensures |raw| == INODE_BUF && RdHdr(raw, IBLOCK) == Some(Header(0, ROOT_MAX, 0)) && Gen(raw) == 0
    ensures Le16(raw, INO_LINKS) == links && Le16(raw, INO_EXTRA_ISIZE) == EXTRA_ISIZE
  {
    hide Le16, Le32, RdHdr;
    var z := Zeros(INODE_BUF);
    var a := WrHdr(z, IBLOCK, Header(0, ROOT_MAX, 0));
    var b := PutLe16(a, INO_LINKS, links);
    raw := PutLe16(b, INO_EXTRA_ISIZE, EXTRA_ISIZE);
    HeaderFrame(a, raw, IBLOCK);
    Le16Same(b, raw, INO_LINKS);
    Le32Same(z, raw, GENERATION);
    ZeroField(z);
  }

  lemma ZeroField(z: Buffer)
    requires z == Zeros(INODE_BUF)
    ensures Le32(z, GENERATION) == 0
  {
  }

  /** The same with one extent of one block. */
  method OneBlockInode(raw: Buffer, fsb: nat) returns (out: Buffer)
    requires |raw| == INODE_BUF && fsb < MAX_PBLOCK
    ensures RootOnly(raw, out)
    ensures RdHdr(out, IBLOCK) == Some(Header(1, ROOT_MAX, 0)) && RdExtent(out, IBLOCK, 0) == Some(Extent(0, 1, fsb))
  {
    var a := WrHdr(raw, IBLOCK, Header(1, ROOT_MAX, 0));
    out := WrExtent(a, IBLOCK, 0, Extent(0, 1, fsb));
    HeaderFrame(a, out, IBLOCK);
  }

  lemma EmptyFile(g: Geometry, l: Layout, ino: nat, raw: Buffer, disk: Disk)
    requires g.bs >= 12 && |raw| == INODE_BUF && RdHdr(raw, IBLOCK) == Some(Header(0, ROOT_MAX, 0))
    ensures FileOwned(g, l, ino, raw, disk) && FileMap(raw, disk) == map[] && Mine(raw, disk) == {}
  {
    assert TreeExtents(raw, disk) == [];
  }

  lemma OneBlockFile(g: Geometry, l: Layout, ino: nat, raw: Buffer, disk: Disk, fsb: nat)
    requires g.bs >= 12 && |raw| == INODE_BUF && RdHdr(raw, IBLOCK) == Some(Header(1, ROOT_MAX, 0))
    requires RdExtent(raw, IBLOCK, 0) == Some(Extent(0, 1, fsb)) && Owned(g, l, disk, fsb)
    ensures FileOwned(g, l, ino, raw, disk) && FileMap(raw, disk) == map[0 := fsb] && Mine(raw, disk) <= {fsb}
  {
    hide RdHdr, RdExtent, Free;
    var e := Extent(0, 1, fsb);
    assert Shown(raw, IBLOCK, 0) == [];
    assert TreeExtents(raw, disk) == [e];
    MapOfSingle([], 0, fsb);
    assert [] + [e] == [e];
    assert Kids(raw) == [];
  }

  /** What a new inode is before it is stored: an empty file, or a directory of one block with
      the entries for itself and its parent. Its blocks were free. */
  ghost predicate Prepared(g: Geometry, l: Layout, ino: nat, dir: nat, isDir: bool, inode: Inode, before: Disk,
                           disk: Disk)
    requires g.bs >= 12
  {
    && inode.ino == ino && |inode.raw| == INODE_BUF && Gen(inode.raw) == 0 && inode.flags == FLAG_EXTENTS
    && FileOwned(g, l, ino, inode.raw, disk)
    && Le16(inode.raw, INO_LINKS) == (if isDir then 2 else 1)
    && (forall b :: b in Mine(inode.raw, disk) ==> Free(g, l, before, b))
    && if isDir then
         && inode.mode == MODE_DIR && inode.size == g.bs && inode.blocks == Sectors(g, 1)
         && DirBlocksOk(g, ino, 0, disk, FileMap(inode.raw, disk), 1)
         && DirLinks(g, disk, FileMap(inode.raw, disk), 1) == [Link(DOT, ino, FT_DIR), Link(DOT_DOT, dir, FT_DIR)]
       else inode.mode == MODE_FILE && inode.size == 0 && inode.blocks == 0 && FileMap(inode.raw, disk) == map[]
  }

  /** A new inode as it is on disk. */
  ghost predicate Born(g: Geometry, l: Layout, ino: nat, dir: nat, isDir: bool, raw: Buffer, disk: Disk)
    requires g.bs >= 12 && |raw| == INODE_BUF && g.inodeSize <= INODE_BUF
  {
    && InodeSealed(g, ino, raw) && Le16(raw, INO_LINKS) == (if isDir then 2 else 1)
    && if isDir then
         && Decoded(g, ino, raw) == Inode(ino, MODE_DIR, g.bs, Sectors(g, 1), FLAG_EXTENTS, raw)
         && DirOk(g, l, ino, raw, disk) && AllLinks(g, disk, raw)
              == [Link(DOT, ino, FT_DIR), Link(DOT_DOT, dir, FT_DIR)]
       else
         && Decoded(g, ino, raw) == Inode(ino, MODE_FILE, 0, 0, FLAG_EXTENTS, raw)
         && FileOwned(g, l, ino, raw, disk) && FileMap(raw, disk) == map[]
  }

  lemma FirstLinks(g: Geometry, ino: nat, dir: nat, disk: Disk, fsb: nat, nb: Buffer)
    requires g.bs >= 12 && fsb < |disk| && disk[fsb] == nb && DirBlockOk(g, ino, 0, nb)
    requires Links(nb, 0, DirLimit(g)) == [Link(DOT, ino, FT_DIR), Link(DOT_DOT, dir, FT_DIR)]
    ensures DirBlocksOk(g, ino, 0, disk, map[0 := fsb], 1)
    ensures DirLinks(g, disk, map[0 := fsb], 1) == [Link(DOT, ino, FT_DIR), Link(DOT_DOT, dir, FT_DIR)]
  {
    hide DirBlockOk, Links, Tiled;
    var fm := map[0 := fsb];
    MappedLinks(g, ino, 0, disk, fm, 1, 0);
    assert DirLinks(g, disk, fm, 0) == [];
    assert DirLinks(g, disk, fm, 1) == [] + BlockLinks(g, disk, fm, 0);
  }

  lemma SmallCounts(g: Geometry)
    requires GeometryOk(g)
    ensures DirCount(g, g.bs) == 1 && DirCount(g, 0) == 0 && Narrow(g, g.bs) == g.bs && Narrow(g, 0) == 0
    ensures Sectors(g, 1) == g.bs / 512 && Narrow(g, Sectors(g, 1)) == Sectors(g, 1) <= 8
  {
    CountNext(g, 0);
  }

  /** Storing the new inode. */
  lemma InodeBorn(g: Geometry, l: Layout, ino: nat, dir: nat, isDir: bool, inode: Inode, enc: Buffer, before: Disk,
                  mid: Disk, after: Disk, block: nat)
    requires GeometryOk(g) && Prepared(g, l, ino, dir, isDir, inode, before, mid) && block in l.roles
    requires FieldsOnly(inode.raw, enc) && InodeSealed(g, ino, enc) && Kept(g, l, mid, after, {block})
    requires Decoded(g, ino, enc) == inode.(size := Narrow(g, inode.size), blocks := Narrow(g, inode.blocks),
        raw := enc)
    ensures Born(g, l, ino, dir, isDir, Padded(g, enc), after) && Mine(Padded(g, enc), after) == Mine(inode.raw, mid)
  {
    hide FileOwned, FileLoose, FileMap, KeptBlocks, SameFreeInodes, DirBlocksOk, DirLinks, InodeSealed, Mine, Free,
      DirCount, Sectors, Le16;
    OwnedLoose(g, l, ino, inode.raw, mid);
    var out := Padded(g, enc);
    SmallCounts(g);
    PaddedSealed(g, ino, enc);
    PaddedDecoded(g, ino, enc);
    Le16Same(inode.raw, out, INO_LINKS);
    if isDir {
      DirStored(g, l, ino, inode.raw, out, mid, after, block, 1);
    } else {
      BytesStored(g, l, ino, inode.raw, out, mid, after, block);
    }
  }

  /** A directory none of whose blocks may be touched keeps its links. */
  lemma DirKept(g: Geometry, l: Layout, ino: nat, raw: Buffer, before: Disk, after: Disk, mine: set<nat>)
    requires g.bs >= 12 && |raw| == INODE_BUF && DirOk(g, l, ino, raw, before)
    requires KeptBlocks(g, l, before, after, mine) && Mine(raw, before) !! mine
    ensures DirOk(g, l, ino, raw, after) && AllLinks(g, after, raw) == AllLinks(g, before, raw)
    ensures FileMap(raw, after) == FileMap(raw, before) && Mine(raw, after) == Mine(raw, before)
    ensures SameDir(g, raw, before, after)
  {
    hide FileOwned, FileLoose, FileMap, KeptBlocks, Mine, DirBlockOk, DirCount, RawSize, Gen, Links, Tiled, TreeExtents,
      DirRoomy, KidsSame;
    OwnedLoose(g, l, ino, raw, before);
    LeavesKept(g, l, raw, before, after, mine);
    FileKept(g, l, ino, raw, before, after, mine);
    MineSame(raw, before, after);
    var fm := FileMap(raw, before);
    var n := DirCount(g, RawSize(g, raw));
    forall k | k in fm ensures fm[k] < |after| && after[fm[k]] == before[fm[k]] {
      DataThere(g, l, raw, after, k);
      assert FileBlock(g, after, fm, k) == FileBlock(g, before, fm, k);
    }
    forall k | 0 <= k < n ensures BlockLinks(g, after, fm, k) == BlockLinks(g, before, fm, k) {
      assert FileBlock(g, after, fm, k) == FileBlock(g, before, fm, k);
    }
    LinksSame(g, before, fm, after, fm, n);
    forall m: nat ensures DirRoomy(g, raw, after, m) <==> DirRoomy(g, raw, before,
        m) { RoomyKept(g, raw, before, after, m); }
  }

  /** All that decides whether and how the directory can take another name, except for which blocks
      are free. */
  ghost predicate SameDir(g: Geometry, raw: Buffer, before: Disk, after: Disk)
    requires g.bs >= 12 && |raw| == INODE_BUF
  {
    && TreeExtents(raw, after) == TreeExtents(raw, before) && KidsSame(raw, before, after)
    && forall n: nat :: DirRoomy(g, raw, after, n) <==> DirRoomy(g, raw, before, n)
  }

  lemma LeavesKept(g: Geometry, l: Layout, raw: Buffer, before: Disk, after: Disk, mine: set<nat>)
    requires |raw| == INODE_BUF && FileLoose(g, l, raw, before)
    requires KeptBlocks(g, l, before, after, mine) && Mine(raw, before) !! mine
    ensures KidsSame(raw, before, after)
  {
    hide TreeLoose, TreeOwned, DataOwned, FileMap, KeptBlocks, KidBlocks, KidsSame;
    KidsKept(g, l, raw, before, after, mine);
  }

  lemma BornKept(g: Geometry, l: Layout, ino: nat, dir: nat, isDir: bool, raw: Buffer, before: Disk, after: Disk,
                 mine: set<nat>)
    requires g.bs >= 12 && |raw| == INODE_BUF && g.inodeSize <= INODE_BUF && Born(g, l, ino, dir, isDir, raw, before)
    requires KeptBlocks(g, l, before, after, mine) && Mine(raw, before) !! mine
    ensures Born(g, l, ino, dir, isDir, raw, after) && Mine(raw, after) == Mine(raw, before)
  {
    hide FileOwned, FileLoose, FileMap, KeptBlocks, Mine, DirOk, AllLinks, InodeSealed, Decoded;
    OwnedLoose(g, l, ino, raw, before);
    if isDir {
      DirKept(g, l, ino, raw, before, after, mine);
    } else {
      FileKept(g, l, ino, raw, before, after, mine);
      MineSame(raw, before, after);
    }
  }

  lemma PreparedFile(g: Geometry, l: Layout, ino: nat, dir: nat, raw: Buffer, disk: Disk)
    requires g.bs >= 12 && |raw| == INODE_BUF && RdHdr(raw, IBLOCK) == Some(Header(0, ROOT_MAX, 0)) && Gen(raw) == 0
    requires Le16(raw, INO_LINKS) == 1
    ensures Prepared(g, l, ino, dir, false, Inode(ino, MODE_FILE, 0, 0, FLAG_EXTENTS, raw), disk, disk)
  {
    hide FileOwned, FileMap, Gen, Le16, RdHdr, Mine, Free;
    EmptyFile(g, l, ino, raw, disk);
  }

  lemma PreparedDir(g: Geometry, l: Layout, ino: nat, dir: nat, raw: Buffer, before: Disk, disk: Disk, fsb: nat,
                    nb: Buffer)
    requires g.bs >= 12 && |raw| == INODE_BUF && RdHdr(raw, IBLOCK) == Some(Header(1, ROOT_MAX, 0)) && Gen(raw) == 0
    requires RdExtent(raw, IBLOCK, 0) == Some(Extent(0, 1, fsb)) && Owned(g, l, disk, fsb) && Free(g, l, before, fsb)
    requires Le16(raw, INO_LINKS) == 2 && disk[fsb] == nb && DirBlockOk(g, ino, 0, nb)
    requires Links(nb, 0, DirLimit(g)) == [Link(DOT, ino, FT_DIR), Link(DOT_DOT, dir, FT_DIR)]
    ensures Prepared(g, l, ino, dir, true, Inode(ino, MODE_DIR, g.bs, Sectors(g, 1), FLAG_EXTENTS, raw), before, disk)
  {
    hide FileOwned, FileMap, Gen, Le16, RdHdr, RdExtent, Mine, Free, DirBlockOk, Links, DirLinks, DirBlocksOk;
    OneBlockFile(g, l, ino, raw, disk, fsb);
    FirstLinks(g, ino, dir, disk, fsb, nb);
  }

  /** The link to an inode: its type byte says whether it is a directory. */
  function NewLink(name: Buffer, ino: nat, child: Buffer): Link
    requires |child| == INODE_BUF
  {
    Link(name, ino, if IsDir(Le16(child, INO_MODE)) then 2 else 1)
  }

  /** A new inode counts the sectors of its blocks. */
  lemma BornCounted(g: Geometry, l: Layout, ino: nat, dir: nat, isDir: bool, raw: Buffer, disk: Disk)
    requires GeometryOk(g) && |raw| == INODE_BUF && Born(g, l, ino, dir, isDir, raw, disk)
    ensures |FileMap(raw, disk)| == (if isDir then 1 else 0) && Counted(g, raw, disk)
  {
    hide FileOwned, InodeSealed, FileMap, RawSize, RawBlocks, Le16, Le32, Sectors, BlockLinks, DirBlockOk;
    DecodedFields(g, ino, raw);
    if isDir {
      SmallCounts(g);
      SingleBlock(g, ino, raw, disk);
      if g.bs % 512 == 0 { SectorBytes(g, 1); }
    }
  }

  /** A directory of one block's length that has links has one block. */
  lemma SingleBlock(g: Geometry, ino: nat, raw: Buffer, disk: Disk)
    requires g.bs >= 12 && |raw| == INODE_BUF && DirCount(g, RawSize(g, raw)) == 1 && AllLinks(g, disk, raw) != []
    requires DirBlocksOk(g, ino, Gen(raw), disk, FileMap(raw, disk), 1)
    ensures |FileMap(raw, disk)| == 1
  {
    hide FileMap, RawSize, DirBlockOk, Tiled, Links;
    var fm := FileMap(raw, disk);
    assert DirLinks(g, disk, fm, 0) == [];
    assert 0 in fm;
    assert fm.Keys == {0};
    assert |fm| == |fm.Keys|;
  }

  /** A new directory is one, and a new file is a regular file. Their flags say that the blocks are
      found through extents and that names are not hashed. */
  lemma BornKind(g: Geometry, l: Layout, ino: nat, dir: nat, isDir: bool, raw: Buffer, disk: Disk)
    requires GeometryOk(g) && |raw| == INODE_BUF && Born(g, l, ino, dir, isDir, raw, disk)
    ensures if isDir then IsDir(Le16(raw, INO_MODE)) else IsFile(Le16(raw, INO_MODE)) && !IsDir(Le16(raw, INO_MODE))
    ensures forall name :: NewLink(name, ino, raw) == Link(name, ino, KindOf(isDir))
    ensures !IsIndexed(Le32(raw, INO_FLAGS)) && Le32(raw, INO_FLAGS) / 0x8_0000 % 2 == 1
  {
    hide FileOwned, DirOk, AllLinks, InodeSealed, FileMap, RawSize, RawBlocks, Le16, Le32, Sectors;
    DecodedFields(g, ino, raw);
  }

  /** A new inode came into the volume as an entry of directory `dir`, which now counts `links`
      links. */
  ghost predicate Entered(g: Geometry, l: Layout, dir: nat, name: Buffer, isDir: bool, ino: nat, before: Disk,
                          after: Disk, links: nat)
    requires Mounted(g, l, before) && Mounted(g, l, after) && 1 <= dir <= g.inodes && 1 <= ino <= g.inodes
  {
    var raw, out := RawInode(g, l, before, dir), RawInode(g, l, after, dir);
    var child := RawInode(g, l, after, ino);
    && Born(g, l, ino, dir, isDir, child, after) && (forall b :: b in Mine(child, after) ==> Free(g, l, before, b))
    && DirOk(g, l, dir, out, after) && Le16(out, INO_MODE) == Le16(raw, INO_MODE)
    && Grown(AllLinks(g, before, raw), AllLinks(g, after, out), NewLink(name, ino, child))
    && (forall b :: b in Mine(out, after) ==> b in Mine(raw, before) || Free(g, l, before, b))
         && Mine(child, after) !! Mine(out, after)
    && Le16(out, INO_LINKS) == links && (InodeSealed(g, dir, raw) ==> InodeSealed(g, dir, out))
    && CountStays(g, raw, before, out, after)
  }

  /** A sector count that was right is still right. */
  ghost predicate CountStays(g: Geometry, raw: Buffer, before: Disk, out: Buffer, after: Disk)
    requires |raw| == |out| == INODE_BUF
  {
    Counted(g, raw, before) ==> Counted(g, out, after)
  }

  /** What creating an entry in `dir` leaves alone. */
  ghost predicate RestKept(g: Geometry, l: Layout, dir: nat, ino: nat, before: Disk, after: Disk)
    requires Mounted(g, l, before) && Mounted(g, l, after) && 1 <= dir <= g.inodes && 1 <= ino <= g.inodes
  {
    && KeptBlocks(g, l, before, after, Mine(RawInode(g, l, before, dir), before) + {InoBlock(g, l, dir),
         InoBlock(g, l, ino)})
    && forall j :: 1 <= j <= g.inodes && j != dir && j != ino ==> RawInode(g, l, after, j) == RawInode(g, l, before, j)
  }

  /** Allocating an inode changes no block in use. */
  lemma AllocInodeKept(g: Geometry, l: Layout, before: Disk, after: Disk)
    requires Mounted(g, l, before) && Mounted(g, l, after) && MetaInUse(g, l, before)
    requires OutsideKept(l, before, after) && SameFreeBlocks(g, l, before, after)
    ensures KeptBlocks(g, l, before, after, {})
    ensures forall j :: 1 <= j <= g.inodes ==> RawInode(g, l, after, j) == RawInode(g, l, before, j)
  {
    hide RawInode, LayoutOk, DiskOk, MetaInUse;
    InodesSame(g, l, before, after, {}, 0);
  }

  lemma NarrowFields(g: Geometry, ino: nat, raw: Buffer)
    requires |raw| == INODE_BUF
    ensures var d := Decoded(g, ino, raw); Narrow(g, d.size) == d.size && Narrow(g, d.blocks) == d.blocks
  {
  }

  /** Rewriting a directory's inode with another link count. */
  lemma ParentStored(g: Geometry, l: Layout, dir: nat, raw: Buffer, bumped: Buffer, enc: Buffer, before: Disk,
                     after: Disk, block: nat)
    requires GeometryOk(g) && |raw| == |bumped| == |enc| == INODE_BUF && DirOk(g, l, dir, raw, before)
    requires block in l.roles
    requires forall k: nat :: k < INODE_BUF && !(INO_LINKS <= k < INO_LINKS + 2) ==> bumped[k] == raw[k]
    requires FieldsOnly(bumped, enc) && InodeSealed(g, dir, enc) && KeptBlocks(g, l, before, after, {block})
    requires Decoded(g, dir, enc) == Decoded(g, dir, raw).(raw := enc)
    ensures var out := Padded(g, enc);
            && DirOk(g, l, dir, out, after) && AllLinks(g, after, out) == AllLinks(g, before, raw)
            && Mine(out, after) == Mine(raw, before) && Le16(out, INO_LINKS) == Le16(bumped, INO_LINKS)
            && Decoded(g, dir, out) == Decoded(g, dir, raw).(raw := out) && InodeSealed(g, dir, out)
            && Le16(out, INO_MODE) == Le16(raw, INO_MODE) && CountStays(g, raw, before, out, after)
  {
    hide FileOwned, FileMap, KeptBlocks, DirBlocksOk, DirLinks, Mine, DirCount, Le16, RawSize, RawBlocks, Le32,
      InodeSealed, Counted;
    var out := Padded(g, enc);
    PaddedDecoded(g, dir, enc);
    PaddedSealed(g, dir, enc);
    DecodedFields(g, dir, out);
    DecodedFields(g, dir, raw);
    assert SameRoot(raw, bumped) && SameRoot(bumped, out) && SameRoot(raw, out);
    Le16Same(bumped, out, INO_LINKS);
    DirStored(g, l, dir, raw, out, before, after, block, DirCount(g, RawSize(g, raw)));
    if Counted(g, raw, before) { CountKept(g, raw, out, before, after); }
  }

  lemma LinkCountStays(g: Geometry, l: Layout, dir: nat, raw: Buffer, before: Disk, mid: Disk, after: Disk, x: Link)
    requires Mounted(g, l, mid) && Mounted(g, l, after) && 1 <= dir <= g.inodes && raw == RawInode(g, l, mid, dir)
    requires SameDir(g, raw, before, mid) && LinkAdded(g, l, dir, mid, after, x)
    ensures CountStays(g, raw, before, RawInode(g, l, after, dir), after)
  {
    hide LayoutOk, DiskOk, RawInode, LinkAdded, Counted, DirRoomy, KidsSame, TreeExtents, MapOf;
    StaysCounted(g, l, dir, mid, after, x);
    if Counted(g, raw, before) { CountKept(g, raw, raw, before, mid); }
  }

  /** The parent is not disturbed while the new inode is stored. */
  lemma ParentBefore(g: Geometry, l: Layout, dir: nat, ino: nat, before: Disk, mid: Disk)
    requires Mounted(g, l, before) && Mounted(g, l, mid) && 1 <= dir <= g.inodes && 1 <= ino <= g.inodes && dir != ino
    requires DirOk(g, l, dir, RawInode(g, l, before, dir), before)
    requires Kept(g, l, before, mid, {InoBlock(g, l, ino)}) && InodesKept(g, l, before, mid, ino)
    ensures var raw := RawInode(g, l, before, dir);
            && RawInode(g, l, mid, dir) == raw && DirOk(g, l, dir, raw, mid)
            && AllLinks(g, mid, raw) == AllLinks(g, before, raw) && Mine(raw, mid) == Mine(raw, before)
            && SameDir(g, raw, before, mid)
  {
    hide RawInode, LayoutOk, DiskOk, KeptBlocks, SameFreeInodes, FileOwned, FileLoose, DirBlocksOk, AllLinks, Mine,
      SameDir;
    var raw := RawInode(g, l, before, dir);
    OwnedLoose(g, l, dir, raw, before);
    InodePlaced(g, l, ino);
    if InoBlock(g, l, ino) in Mine(raw, before) { MineOutside(g, l, raw, before, InoBlock(g, l, ino)); }
    DirKept(g, l, dir, raw, before, mid, {InoBlock(g, l, ino)});
  }

  lemma BornOwned(g: Geometry, l: Layout, ino: nat, dir: nat, isDir: bool, raw: Buffer, disk: Disk)
    requires g.bs >= 12 && |raw| == INODE_BUF && g.inodeSize <= INODE_BUF && Born(g, l, ino, dir, isDir, raw, disk)
    ensures FileOwned(g, l, ino, raw, disk) && FileLoose(g, l, raw, disk)
  {
    hide FileOwned, FileLoose, InodeSealed, Decoded, DirBlocksOk, AllLinks;
    OwnedLoose(g, l, ino, raw, disk);
  }

  /** The new inode is not disturbed while its parent changes. */
  lemma ChildKept(g: Geometry, l: Layout, dir: nat, isDir: bool, ino: nat, mid: Disk, after: Disk, mine: set<nat>)
    requires Mounted(g, l, mid) && Mounted(g, l, after) && 1 <= dir <= g.inodes && 1 <= ino <= g.inodes && dir != ino
    requires Born(g, l, ino, dir, isDir, RawInode(g, l, mid, ino), mid)
    requires KeptBlocks(g, l, mid, after, mine + {InoBlock(g, l, dir)}) && InodesKept(g, l, mid, after, dir)
    requires Mine(RawInode(g, l, mid, ino), mid) !! mine
    ensures var raw := RawInode(g, l, mid, ino);
            && RawInode(g, l, after, ino) == raw && Born(g, l, ino, dir, isDir, raw, after) && Mine(raw, after)
                 == Mine(raw, mid)
  {
    hide RawInode, LayoutOk, DiskOk, KeptBlocks, Mine, Born, FileLoose;
    var raw := RawInode(g, l, mid, ino);
    InodePlaced(g, l, dir);
    BornOwned(g, l, ino, dir, isDir, raw, mid);
    if InoBlock(g, l, dir) in Mine(raw, mid) { MineOutside(g, l, raw, mid, InoBlock(g, l, dir)); }
    BornKept(g, l, ino, dir, isDir, raw, mid, after, mine + {InoBlock(g, l, dir)});
  }

  /** Blocks that were free belong to nobody. */
  lemma FreshApart(g: Geometry, l: Layout, dir: nat, raw: Buffer, before: Disk, blocks: set<nat>)
    requires g.bs >= 12 && |raw| == INODE_BUF && FileOwned(g, l, dir, raw, before)
    requires forall b :: b in blocks ==> Free(g, l, before, b)
    ensures blocks !! Mine(raw, before)
  {
    hide FileOwned, FileLoose, Mine, Free;
    OwnedLoose(g, l, dir, raw, before);
    forall b | b in blocks ensures b !in Mine(raw, before) {
      if b in Mine(raw, before) { MineOutside(g, l, raw, before, b); }
    }
  }

  /** The new name in the parent stands for the new inode. */
  lemma LinkedIn(g: Geometry, l: Layout, dir: nat, name: Buffer, isDir: bool, ino: nat, before: Disk, mid: Disk,
                 after: Disk, raw: Buffer)
    requires Mounted(g, l, before) && Mounted(g, l, mid) && Mounted(g, l, after) && 1 <= dir <= g.inodes
    requires 1 <= ino <= g.inodes && dir != ino
    requires raw == RawInode(g, l, before, dir) == RawInode(g, l, mid, dir) && DirOk(g, l, dir, raw, before)
    requires Mine(raw, mid) == Mine(raw, before)
    requires AllLinks(g, mid, raw) == AllLinks(g, before, raw) && KeptBlocks(g, l, before, mid, {InoBlock(g, l, ino)})
    requires SameDir(g, raw, before, mid)
    requires Born(g, l, ino, dir, isDir, RawInode(g, l, mid, ino), mid)
    requires forall b :: b in Mine(RawInode(g, l, mid, ino), mid) ==> Free(g, l, before, b)
    requires OthersKept(g, l, dir, mid, after) && LinkAdded(g, l, dir, mid, after, Link(name, ino, KindOf(isDir)))
    ensures Entered(g, l, dir, name, isDir, ino, before, after, Le16(raw, INO_LINKS))
  {
    hide RawInode, LayoutOk, DiskOk, SameFreeInodes, FileOwned, FileLoose, DirBlocksOk, AllLinks, Mine, Born, Free,
      Grown, InodeSealed, Le16, Le32, InodesKept, SameDir, CountStays;
    var child := RawInode(g, l, mid, ino);
    LinkCountStays(g, l, dir, raw, before, mid, after, Link(name, ino, KindOf(isDir)));
    FreshApart(g, l, dir, raw, before, Mine(child, mid));
    ChildKept(g, l, dir, isDir, ino, mid, after, Mine(raw, mid));
    Le16Same(raw, RawInode(g, l, after, dir), INO_LINKS);
    BornKind(g, l, ino, dir, isDir, child, mid);
    BornOwned(g, l, ino, dir, isDir, child, mid);
    forall b | b in Mine(RawInode(g, l, after, dir), after) ensures b !in Mine(child, mid) {
      if b in Mine(child, mid) { MineOutside(g, l, child, mid, b); }
    }
  }

  /** The new inode is as it was stored while the directory takes its name, or fails to. */
  lemma ChildThrough(g: Geometry, l: Layout, dir: nat, isDir: bool, ino: nat, before: Disk, mid: Disk, after: Disk,
                     raw: Buffer)
    requires Mounted(g, l, before) && Mounted(g, l, mid) && Mounted(g, l, after) && 1 <= dir <= g.inodes
    requires 1 <= ino <= g.inodes && dir != ino
    requires raw == RawInode(g, l, before, dir) == RawInode(g, l, mid, dir) && DirOk(g, l, dir, raw, before)
    requires Mine(raw, mid) == Mine(raw, before)
    requires Born(g, l, ino, dir, isDir, RawInode(g, l, mid, ino), mid)
    requires forall b :: b in Mine(RawInode(g, l, mid, ino), mid) ==> Free(g, l, before, b)
    requires OthersKept(g, l, dir, mid, after)
    ensures NewChild(g, l, dir, isDir, ino, before, after)
  {
    hide RawInode, LayoutOk, DiskOk, SameFreeInodes, FileOwned, DirBlocksOk, Mine, Born, Free, InodesKept, KeptBlocks;
    FreshApart(g, l, dir, raw, before, Mine(RawInode(g, l, mid, ino), mid));
    ChildKept(g, l, dir, isDir, ino, mid, after, Mine(raw, mid));
    BornKind(g, l, ino, dir, isDir, RawInode(g, l, after, ino), after);
  }

  /** The new inode is on disk, on blocks that were free. */
  ghost predicate NewChild(g: Geometry, l: Layout, dir: nat, isDir: bool, ino: nat, before: Disk, after: Disk)
    requires Mounted(g, l, before) && Mounted(g, l, after) && 1 <= ino <= g.inodes
  {
    var child := RawInode(g, l, after, ino);
    && Born(g, l, ino, dir, isDir, child, after) && (forall b :: b in Mine(child, after) ==> Free(g, l, before, b))
    && (if isDir then IsDir(Le16(child, INO_MODE)) else IsFile(Le16(child, INO_MODE)))
  }

  lemma ChildCounted(g: Geometry, l: Layout, dir: nat, isDir: bool, ino: nat, before: Disk, mid: Disk, after: Disk)
    requires Mounted(g, l, before) && Mounted(g, l, mid) && Mounted(g, l, after) && 1 <= dir <= g.inodes
    requires 1 <= ino <= g.inodes && dir != ino
    requires NewChild(g, l, dir, isDir, ino, before, mid)
    requires Kept(g, l, mid, after, {InoBlock(g, l, dir)}) && InodesKept(g, l, mid, after, dir)
    ensures NewChild(g, l, dir, isDir, ino, before, after)
  {
    hide RawInode, LayoutOk, DiskOk, KeptBlocks, SameFreeInodes, Mine, Born, Free, InodesKept;
    assert {} + {InoBlock(g, l, dir)} == {InoBlock(g, l, dir)};
    ChildKept(g, l, dir, isDir, ino, mid, after, {});
  }

  lemma ChildAfterAlloc(g: Geometry, l: Layout, dir: nat, isDir: bool, ino: nat, before: Disk, mid: Disk, after: Disk)
    requires Mounted(g, l, before) && Mounted(g, l, mid) && Mounted(g, l, after) && 1 <= ino <= g.inodes
    requires SameFreeBlocks(g, l, before, mid) && NewChild(g, l, dir, isDir, ino, mid, after)
    ensures NewChild(g, l, dir, isDir, ino, before, after)
  {
    hide RawInode, LayoutOk, DiskOk, Mine, Born, Free;
  }

  lemma SameReceded(g: Geometry, l: Layout, dir: nat, raw: Buffer, before: Disk, mid: Disk, after: Disk)
    requires g.bs >= 12 && |raw| == INODE_BUF && AllLinks(g, mid, raw) == AllLinks(g, before, raw) && Mine(raw, mid)
        == Mine(raw, before)
    requires DirOk(g, l, dir, raw, mid) && (after == mid || DirReceded(g, l, dir, raw, mid, after))
    ensures DirReceded(g, l, dir, raw, before, after)
  {
    hide DirOk, AllLinks, Mine;
  }

  lemma LinkCounted(g: Geometry, l: Layout, dir: nat, name: Buffer, isDir: bool, ino: nat, before: Disk, mid: Disk,
                    after: Disk, links: nat, more: nat)
    requires Mounted(g, l, before) && Mounted(g, l, mid) && Mounted(g, l, after) && 1 <= dir <= g.inodes
    requires 1 <= ino <= g.inodes && dir != ino
    requires Entered(g, l, dir, name, isDir, ino, before, mid, links)
    requires Kept(g, l, mid, after, {InoBlock(g, l, dir)}) && InodesKept(g, l, mid, after, dir)
    requires var raw, out := RawInode(g, l, mid, dir), RawInode(g, l, after, dir);
             && DirOk(g, l, dir, out, after) && AllLinks(g, after, out) == AllLinks(g, mid, raw)
             && Mine(out, after) == Mine(raw, mid) && Le16(out, INO_LINKS) == more && InodeSealed(g, dir, out)
             && Le16(out, INO_MODE) == Le16(raw, INO_MODE) && CountStays(g, raw, mid, out, after)
    ensures Entered(g, l, dir, name, isDir, ino, before, after, more)
  {
    hide RawInode, LayoutOk, DiskOk, KeptBlocks, SameFreeInodes, DirOk, AllLinks, Mine, Born, Free, Grown, InodeSealed,
      Le16, InodesKept, Counted;
    assert {} + {InoBlock(g, l, dir)} == {InoBlock(g, l, dir)};
    ChildKept(g, l, dir, isDir, ino, mid, after, {});
  }

  lemma RestAfterLink(g: Geometry, l: Layout, dir: nat, ino: nat, before: Disk, mid: Disk, after: Disk, raw: Buffer)
    requires Mounted(g, l, before) && Mounted(g, l, mid) && Mounted(g, l, after) && 1 <= dir <= g.inodes
    requires 1 <= ino <= g.inodes
    requires raw == RawInode(g, l, before, dir) == RawInode(g, l, mid, dir) && Mine(raw, mid) == Mine(raw, before)
    requires KeptBlocks(g, l, before, mid, {InoBlock(g, l, ino)}) && InodesKept(g, l, before, mid, ino)
    requires OthersKept(g, l, dir, mid, after)
    ensures RestKept(g, l, dir, ino, before, after)
  {
    hide RawInode, LayoutOk, DiskOk, SameFreeInodes, Mine, Free;
    var all := Mine(raw, before) + {InoBlock(g, l, dir), InoBlock(g, l, ino)};
    assert KeptBlocks(g, l, before, mid, all);
    KeptBlocksTrans(g, l, before, mid, after, all, Mine(raw, mid) + {InoBlock(g, l, dir)});
  }

  lemma RestAfterCount(g: Geometry, l: Layout, dir: nat, ino: nat, before: Disk, mid: Disk, after: Disk)
    requires Mounted(g, l, before) && Mounted(g, l, mid) && Mounted(g, l, after) && 1 <= dir <= g.inodes
    requires 1 <= ino <= g.inodes
    requires RestKept(g, l, dir, ino, before, mid) && Kept(g, l, mid, after, {InoBlock(g, l, dir)})
    requires InodesKept(g, l, mid, after, dir)
    ensures RestKept(g, l, dir, ino, before, after)
  {
    hide RawInode, LayoutOk, DiskOk, SameFreeInodes, KeptBlocks, Mine;
    var all := Mine(RawInode(g, l, before, dir), before) + {InoBlock(g, l, dir), InoBlock(g, l, ino)};
    KeptBlocksTrans(g, l, before, mid, after, all, {InoBlock(g, l, dir)});
  }

  lemma LinksBound(raw: Buffer)
    requires |raw| == INODE_BUF
    ensures Le16(raw, INO_LINKS) % 0x1_0000 == Le16(raw, INO_LINKS)
  {
  }

  lemma UntouchedRest(g: Geometry, l: Layout, dir: nat, ino: nat, disk: Disk)
    requires Mounted(g, l, disk) && 1 <= dir <= g.inodes && 1 <= ino <= g.inodes
    ensures SameFreeInodes(g, l, disk, disk) && RestKept(g, l, dir, ino, disk, disk)
  {
    hide RawInode, LayoutOk, DiskOk, Mine, Free, FreeInode;
  }

  lemma FreeInodesTrans(g: Geometry, l: Layout, a: Disk, b: Disk, c: Disk, mine: set<nat>)
    requires SameFreeInodes(g, l, a, b) && Kept(g, l, b, c, mine)
    ensures SameFreeInodes(g, l, a, c)
  {
    hide FreeInode, KeptBlocks;
  }

  lemma FreeInodesAfter(g: Geometry, l: Layout, dir: nat, a: Disk, b: Disk, c: Disk, mine: set<nat>)
    requires Mounted(g, l, b) && Mounted(g, l, c) && 1 <= dir <= g.inodes
    requires Kept(g, l, a, b, mine) && OthersKept(g, l, dir, b, c)
    ensures SameFreeInodes(g, l, a, c)
  {
    hide FreeInode, KeptBlocks, RawInode, LayoutOk, DiskOk, Mine;
  }

  lemma EnteredDir(g: Geometry, l: Layout, dir: nat, name: Buffer, isDir: bool, ino: nat, before: Disk, after: Disk,
                   links: nat)
    requires Mounted(g, l, before) && Mounted(g, l, after) && 1 <= dir <= g.inodes && 1 <= ino <= g.inodes
    requires Entered(g, l, dir, name, isDir, ino, before, after, links)
    ensures DirOk(g, l, dir, RawInode(g, l, after, dir), after) && Le16(RawInode(g, l, after, dir), INO_LINKS) == links
  {
    hide RawInode, LayoutOk, DiskOk, DirOk, AllLinks, Mine, Born, Free, Grown, InodeSealed, Le16, CountStays;
  }

  /** Allocating the inode number beforehand changes nothing that the rest depends on. */
  lemma ReadyAfterAlloc(g: Geometry, l: Layout, dir: nat, before: Disk, mid: Disk)
    requires Mounted(g, l, before) && Mounted(g, l, mid) && 1 <= dir <= g.inodes
    requires KeptBlocks(g, l, before, mid, {}) && RawInode(g, l, mid, dir) == RawInode(g, l, before, dir)
    requires DirOk(g, l, dir, RawInode(g, l, before, dir), before)
    ensures var raw := RawInode(g, l, before, dir);
            && DirOk(g, l, dir, raw, mid) && AllLinks(g, mid, raw) == AllLinks(g, before, raw)
            && Mine(raw, mid) == Mine(raw, before) && SameDir(g, raw, before, mid)
  {
    hide RawInode, LayoutOk, DiskOk, KeptBlocks, DirOk, AllLinks, Mine, SameDir;
    DirKept(g, l, dir, RawInode(g, l, before, dir), before, mid, {});
  }

  lemma EnteredAfterAlloc(g: Geometry, l: Layout, dir: nat, name: Buffer, isDir: bool, ino: nat, before: Disk,
                          mid: Disk, after: Disk, links: nat)
    requires Mounted(g, l, before) && Mounted(g, l, mid) && Mounted(g, l, after) && 1 <= dir <= g.inodes
    requires 1 <= ino <= g.inodes
    requires SameFreeBlocks(g, l, before, mid) && RawInode(g, l, mid, dir) == RawInode(g, l, before, dir)
    requires var raw := RawInode(g, l, before, dir);
               AllLinks(g, mid, raw) == AllLinks(g, before, raw) && Mine(raw, mid) == Mine(raw, before)
    requires SameDir(g, RawInode(g, l, before, dir), before, mid)
    requires Entered(g, l, dir, name, isDir, ino, mid, after, links)
    ensures Entered(g, l, dir, name, isDir, ino, before, after, links)
  {
    hide RawInode, LayoutOk, DiskOk, DirOk, AllLinks, Mine, Born, Free, Grown, InodeSealed, Le16, Counted, DirRoomy,
      KidsSame, TreeExtents, MapOf;
    var raw := RawInode(g, l, before, dir);
    if Counted(g, raw, before) { CountKept(g, raw, raw, before, mid); }
  }

  lemma RestAfterAlloc(g: Geometry, l: Layout, dir: nat, ino: nat, before: Disk, mid: Disk, after: Disk)
    requires Mounted(g, l, before) && Mounted(g, l, mid) && Mounted(g, l, after) && 1 <= dir <= g.inodes
    requires 1 <= ino <= g.inodes
    requires KeptBlocks(g, l, before, mid, {}) && forall j ::
               1 <= j <= g.inodes ==> RawInode(g, l, mid, j) == RawInode(g, l, before, j)
    requires Mine(RawInode(g, l, before, dir), mid) == Mine(RawInode(g, l, before, dir), before)
    requires RestKept(g, l, dir, ino, mid, after)
    ensures RestKept(g, l, dir, ino, before, after)
  {
    hide RawInode, LayoutOk, DiskOk, Mine, Free;
    var all := Mine(RawInode(g, l, before, dir), before) + {InoBlock(g, l, dir), InoBlock(g, l, ino)};
    assert KeptBlocks(g, l, before, mid, all);
    KeptBlocksTrans(g, l, before, mid, after, all, all);
  }

  lemma InodeWasLeft(g: Geometry, l: Layout, before: Disk, after: Disk, ino: nat)
    requires InodeGone(g, l, before, after, ino)
    ensures !NoInodeLeft(g, l, before)
  {
    hide FreeInode;
  }

  lemma GoneAfter(g: Geometry, l: Layout, before: Disk, mid: Disk, after: Disk, ino: nat)
    requires InodeGone(g, l, before, mid, ino) && SameFreeInodes(g, l, mid, after)
    ensures InodeGone(g, l, before, after, ino) && 1 <= ino <= g.inodes
  {
  }

  /** An inode in use is not the one that was just taken. */
  lemma TakenApart(g: Geometry, l: Layout, before: Disk, mid: Disk, ino: nat, dir: nat)
    requires InodeGone(g, l, before, mid, ino) && !FreeInode(g, l, before, dir)
    ensures ino != dir && 1 <= ino <= g.inodes
  {
  }

  // ----------------------------------------------- when a creation can be done

  /** The blocks a new inode takes: none for a file, the next one for a directory. */
  ghost predicate ChildTakes(g: Geometry, l: Layout, disk: Disk, isDir: bool, taken: set<nat>)
    requires GeometryOk(g) && LayoutOk(g, l)
  {
    if isDir then exists b: nat :: Least(g, l, disk, b) && taken == {b} else taken == {}
  }

  lemma TakesOne(g: Geometry, l: Layout, before: Disk, after: Disk, b: nat)
    requires GeometryOk(g) && LayoutOk(g, l) && Least(g, l, before, b) && BlockGone(g, l, before, after, b)
    ensures ChildTakes(g, l, before, true, {b}) && TookBlocks(g, l, before, after, {b})
  {
    hide Free, ReservedBlock, GeometryOk, LayoutOk, Least;
  }

  lemma TookStored(g: Geometry, l: Layout, before: Disk, mid: Disk, after: Disk, taken: set<nat>)
    requires TookBlocks(g, l, before, mid, taken) && SameFreeBlocks(g, l, mid, after)
    ensures TookBlocks(g, l, before, after, taken)
  {
    hide Free;
  }

  /** No block of the directory has room for the name, and once the new inode has its block the
      directory cannot get another one. */
  ghost predicate NoPlace(g: Geometry, l: Layout, raw: Buffer, disk: Disk, n: nat, isDir: bool)
    requires GeometryOk(g) && LayoutOk(g, l) && |raw| == INODE_BUF
  {
    && !DirRoomy(g, raw, disk, n)
    && exists taken: set<nat> :: ChildTakes(g, l, disk, isDir, taken)
         && !GrowableBut(g, l, raw, disk, DirCount(g, RawSize(g, raw)), taken)
  }

  /** Once added, the name is there: a block has room for it, or the directory can have another
      block, with the size stored and the block found. */
  ghost predicate NameStays(g: Geometry, l: Layout, raw: Buffer, disk: Disk, n: nat, isDir: bool)
    requires GeometryOk(g) && LayoutOk(g, l) && |raw| == INODE_BUF
  {
    || DirRoomy(g, raw, disk, n)
    || (&& SizeFits(g, RawSize(g, raw) + g.bs)
        && exists taken: set<nat> :: ChildTakes(g, l, disk, isDir, taken)
             && FindableBut(g, l, raw, disk, DirCount(g, RawSize(g, raw)), taken))
  }

  /** A new inode cannot be entered under `name` in the directory `raw`. */
  ghost predicate Blocked(g: Geometry, l: Layout, raw: Buffer, disk: Disk, name: Buffer, isDir: bool)
    requires GeometryOk(g) && LayoutOk(g, l) && |raw| == INODE_BUF
  {
    || (isDir && NoBlockLeft(g, l, disk)) || !(0 < |name| <= NAME_LEN) || IsIndexed(Le32(raw, INO_FLAGS))
    || NoPlace(g, l, raw, disk, |name|, isDir)
  }

  /** ... and the error that is reported for it. */
  function EnterError(noBlock: bool, badName: bool, indexed: bool): FsError {
    if noBlock then NoSpace else if badName then Invalid else if indexed then ReadOnly else NoSpace
  }

  /** What a failed creation leaves: nothing changed, or one inode was taken, the directory kept
      its inode and a first part of its links, and the rest of the volume is as it was. */
  ghost predicate CreateLeft(g: Geometry, l: Layout, dir: nat, before: Disk, after: Disk)
    requires Mounted(g, l, before) && Mounted(g, l, after) && 1 <= dir <= g.inodes
  {
    after == before || exists ino: nat :: 1 <= ino <= g.inodes && CreationStopped(g, l, dir, ino, before, after)
  }

  ghost predicate CreationStopped(g: Geometry, l: Layout, dir: nat, ino: nat, before: Disk, after: Disk)
    requires Mounted(g, l, before) && Mounted(g, l, after) && 1 <= dir <= g.inodes && 1 <= ino <= g.inodes
  {
    && InodeGone(g, l, before, after, ino) && RestKept(g, l, dir, ino, before, after)
    && RawInode(g, l, after, dir) == RawInode(g, l, before, dir)
         && DirReceded(g, l, dir, RawInode(g, l, before, dir), before, after)
  }

  /** What a creation with this result made of the volume. */
  ghost predicate CreateOutcome(g: Geometry, l: Layout, dir: nat, name: Buffer, isDir: bool, before: Disk, after: Disk,
                                r: Result<nat>)
    requires Mounted(g, l, before) && Mounted(g, l, after) && 1 <= dir <= g.inodes
  {
    var raw := RawInode(g, l, before, dir);
    match r
    case Ok(ino) =>
      && IsDir(Le16(raw, INO_MODE)) && Find(AllLinks(g, before, raw), name).None?
      && 1 <= ino <= g.inodes && InodeGone(g, l, before, after, ino)
           && RestKept(g, l, dir, ino, before, after)
      && NewChild(g, l, dir, isDir, ino, before, after)
      && (if NameStays(g, l, raw, before, |name|, isDir) then
            Entered(g, l, dir, name, isDir, ino, before, after,
                (Le16(raw, INO_LINKS) + if isDir then 1 else 0) % 0x1_0000)
          else !DirOk(g, l, dir, RawInode(g, l, after, dir), after))
    case Err(_) => CreateLeft(g, l, dir, before, after)
  }

  lemma NothingCreated(g: Geometry, l: Layout, dir: nat, disk: Disk)
    requires Mounted(g, l, disk) && 1 <= dir <= g.inodes
    ensures CreateLeft(g, l, dir, disk, disk)
  {
  }

  lemma CreationLeft(g: Geometry, l: Layout, dir: nat, ino: nat, before: Disk, after: Disk)
    requires Mounted(g, l, before) && Mounted(g, l, after) && 1 <= dir <= g.inodes && 1 <= ino <= g.inodes
    requires InodeGone(g, l, before, after, ino) && RestKept(g, l, dir, ino, before, after)
    requires RawInode(g, l, after, dir) == RawInode(g, l, before, dir)
    requires DirReceded(g, l, dir, RawInode(g, l, before, dir), before, after)
    ensures CreateLeft(g, l, dir, before, after)
  {
    hide InodeGone, RestKept, RawInode, DirReceded, LayoutOk, DiskOk;
    assert CreationStopped(g, l, dir, ino, before, after);
  }

  /** The inode with another link count has the same root and size. */
  lemma BumpedRoot(g: Geometry, dir: nat, raw: Buffer, bumped: Buffer, enc: Buffer)
    requires GeometryOk(g) && |raw| == |bumped| == |enc| == INODE_BUF
    requires forall k: nat :: k < INODE_BUF && !(INO_LINKS <= k < INO_LINKS + 2) ==> bumped[k] == raw[k]
    requires FieldsOnly(bumped, enc) && Decoded(g, dir, enc) == Decoded(g, dir, raw).(raw := enc)
    ensures SameRoot(raw, Padded(g, enc)) && RawSize(g, Padded(g, enc)) == RawSize(g, raw)
  {
    hide RawSize, RawBlocks, Le16, Le32;
    PaddedDecoded(g, dir, enc);
    DecodedFields(g, dir, Padded(g, enc));
    DecodedFields(g, dir, raw);
    assert SameRoot(raw, bumped) && SameRoot(bumped, Padded(g, enc));
  }

  lemma NothingTaken(g: Geometry, l: Layout, disk: Disk)
    requires GeometryOk(g) && LayoutOk(g, l)
    ensures ChildTakes(g, l, disk, false, {}) && TookBlocks(g, l, disk, disk, {})
  {
    hide Free;
  }

  lemma OneTaken(g: Geometry, l: Layout, disk: Disk, isDir: bool, a: set<nat>, b: set<nat>)
    requires GeometryOk(g) && LayoutOk(g, l) && ChildTakes(g, l, disk, isDir, a) && ChildTakes(g, l, disk, isDir, b)
    ensures a == b
  {
    hide Least, GeometryOk, LayoutOk;
    if isDir {
      var x: nat :| Least(g, l, disk, x) && a == {x};
      var y: nat :| Least(g, l, disk, y) && b == {y};
      OneLeast(g, l, disk, x, y);
    }
  }

  /** What is known of the directory once the new inode has its blocks, said of the volume
      before. */
  lemma PlaceForeseen(g: Geometry, l: Layout, raw: Buffer, before: Disk, mid: Disk, n: nat, isDir: bool,
                      taken: set<nat>)
    requires GeometryOk(g) && LayoutOk(g, l) && |raw| == INODE_BUF && SameDir(g, raw, before, mid)
    requires ChildTakes(g, l, before, isDir, taken) && TookBlocks(g, l, before, mid, taken)
    ensures LinkFails(g, l, raw, mid, n) <==> NoPlace(g, l, raw, before, n, isDir)
    ensures LinkStays(g, l, raw, mid, n) <==> NameStays(g, l, raw, before, n, isDir)
  {
    hide LayoutOk, TreeExtents, KidsSame, DirRoomy, ChildTakes, TookBlocks, Growable, Findable, GrowableBut,
      FindableBut, DirCount, RawSize;
    var lb := DirCount(g, RawSize(g, raw));
    GrowthTook(g, l, raw, before, mid, lb, taken, {});
    assert taken + {} == taken;
    GrowthNow(g, l, raw, mid, lb);
    forall t: set<nat> | ChildTakes(g, l, before, isDir, t) ensures t
        == taken { OneTaken(g, l, before, isDir, t, taken); }
  }

  lemma SameTakes(g: Geometry, l: Layout, before: Disk, mid: Disk, isDir: bool, taken: set<nat>)
    requires GeometryOk(g) && LayoutOk(g, l) && SameFreeBlocks(g, l, before, mid)
    ensures ChildTakes(g, l, mid, isDir, taken) <==> ChildTakes(g, l, before, isDir, taken)
  {
    hide Free, ReservedBlock, GeometryOk, LayoutOk;
    forall b: nat ensures Least(g, l, mid, b) <==> Least(g, l, before, b) {
      forall x: nat ensures Spare(g, l, mid, x) <==> Spare(g, l, before, x) { }
    }
  }

  /** Taking the inode number changes none of this. */
  lemma SamePlace(g: Geometry, l: Layout, raw: Buffer, before: Disk, mid: Disk, name: Buffer, isDir: bool)
    requires GeometryOk(g) && LayoutOk(g, l) && |raw| == INODE_BUF && SameDir(g, raw, before, mid)
    requires SameFreeBlocks(g, l, before, mid)
    ensures Blocked(g, l, raw, mid, name, isDir) <==> Blocked(g, l, raw, before, name, isDir)
    ensures NameStays(g, l, raw, mid, |name|, isDir) <==> NameStays(g, l, raw, before, |name|, isDir)
    ensures NoBlockLeft(g, l, mid) <==> NoBlockLeft(g, l, before)
  {
    hide LayoutOk, TreeExtents, KidsSame, DirRoomy, ChildTakes, SameFreeBlocks, GrowableBut, FindableBut, DirCount,
      RawSize, NoBlockLeft, Le32;
    SameLeft(g, l, before, mid);
    assert TookBlocks(g, l, before, mid, {}) by { TookNone(g, l, before, mid); }
    var lb := DirCount(g, RawSize(g, raw));
    forall taken: set<nat>
      ensures ChildTakes(g, l, mid, isDir, taken) <==> ChildTakes(g, l, before, isDir, taken)
      ensures GrowableBut(g, l, raw, mid, lb, taken) <==> GrowableBut(g, l, raw, before, lb, taken)
      ensures FindableBut(g, l, raw, mid, lb, taken) <==> FindableBut(g, l, raw, before, lb, taken)
    {
      SameTakes(g, l, before, mid, isDir, taken);
      GrowthTook(g, l, raw, before, mid, lb, {}, taken);
      assert {} + taken == taken;
    }
  }

  lemma TookNone(g: Geometry, l: Layout, before: Disk, mid: Disk)
    requires SameFreeBlocks(g, l, before, mid)
    ensures TookBlocks(g, l, before, mid, {})
  {
    hide Free;
  }

  /** A directory whose inode is stored again is no better for it. */
  lemma StillLost(g: Geometry, l: Layout, dir: nat, raw: Buffer, out: Buffer, before: Disk, after: Disk, block: nat)
    requires GeometryOk(g) && |raw| == |out| == INODE_BUF && SameRoot(raw, out) && RawSize(g, out) == RawSize(g, raw)
    requires block in l.roles
    requires Kept(g, l, before, after, {block}) && SameFreeBlocks(g, l, before, after) && !DirOk(g, l, dir, raw, before)
    ensures !DirOk(g, l, dir, out, after)
  {
    hide FileOwned, KeptBlocks, SameFreeInodes, SameFreeBlocks, FileMap, DirBlocksOk, DirCount, RawSize, Mine, Gen,
      AllLinks, SameRoot;
    if DirOk(g, l, dir, out, after) {
      KeptBack(g, l, before, after, {block});
      RootBack(raw, out);
      DirStored(g, l, dir, out, raw, after, before, block, DirCount(g, RawSize(g, raw)));
    }
  }
}
