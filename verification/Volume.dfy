/** The fixed metadata of an ext4 volume: superblock, group descriptors, bitmaps and inode
    tables, where they live, what their fields mean and what their checksums cover. */
module Volume {
  import opened Arith
  import opened Bytes
  import opened Bitmap
  import opened Crc

  datatype FsError = Io | NoSpace | NotFound | AlreadyExists | Corrupt | ReadOnly | Unsupported | Invalid
  datatype Result<+T> = Ok(value: T) | Err(error: FsError)

  /** The device, one buffer per filesystem block. */
  type Disk = seq<Buffer>

  /** The values `mount` keeps for the lifetime of the volume. */
  datatype Geometry = Geometry(
    bs: nat, bpg: nat, ipg: nat, inodeSize: nat, descSize: nat, groups: nat, firstData: nat,
    gdt: nat, reservedGdt: nat, seed: nat, metaCsum: bool, has64: bool, total: nat, inodes: nat)

  const SB_FREE_BLOCKS_LO: nat := 0x0C
  const SB_FREE_INODES: nat := 0x10
  const SB_FREE_BLOCKS_HI: nat := 0x158
  const SB_CHECKSUM: nat := 0x3FC

  const GD_BLOCK_BITMAP_LO: nat := 0x00
  const GD_INODE_BITMAP_LO: nat := 0x04
  const GD_INODE_TABLE_LO: nat := 0x08
  const GD_FREE_BLOCKS_LO: nat := 0x0C
  const GD_FREE_INODES_LO: nat := 0x0E
  const GD_USED_DIRS_LO: nat := 0x10
  const GD_BLOCK_BITMAP_CSUM_LO: nat := 0x18
  const GD_INODE_BITMAP_CSUM_LO: nat := 0x1A
  const GD_ITABLE_UNUSED_LO: nat := 0x1C
  const GD_CHECKSUM: nat := 0x1E
  const GD_BLOCK_BITMAP_HI: nat := 0x20
  const GD_INODE_BITMAP_HI: nat := 0x24
  const GD_INODE_TABLE_HI: nat := 0x28
  const GD_FREE_BLOCKS_HI: nat := 0x2C
  const GD_FREE_INODES_HI: nat := 0x2E
  const GD_USED_DIRS_HI: nat := 0x30
  const GD_ITABLE_UNUSED_HI: nat := 0x32
  const GD_BLOCK_BITMAP_CSUM_HI: nat := 0x38
  const GD_INODE_BITMAP_CSUM_HI: nat := 0x3A

  // ------------------------------------------------------------- geometry

  /** Record `i` of size `size` in a table that starts at block `base`: its block and its
      offset in that block. */
  function RecBlock(bs: nat, size: nat, base: nat, i: nat): nat
    requires bs > 0
  {
    base + Quot(Times(i, size), bs)
  }

  function RecOff(bs: nat, size: nat, i: nat): nat
    requires bs > 0
  {
    Rem(Times(i, size), bs)
  }

  /** The byte address the driver divides gives the same block and offset. */
  lemma RecAddress(bs: nat, size: nat, base: nat, i: nat)
    requires bs > 0
    ensures (base * bs + i * size) / bs == RecBlock(bs, size, base, i)
    ensures (base * bs + i * size) % bs == RecOff(bs, size, i)
  {
    TimesIsProduct(i, size);
    QuotIsQuotient(i * size, bs);
    var q, r := i * size / bs, i * size % bs;
    assert base * bs + i * size == (base + q) * bs + r;
    DivUnique(base * bs + i * size, bs, base + q, r);
  }

  method RecordAddress(bs: nat, size: nat, base: nat, i: nat) returns (block: nat, off: nat)
    requires bs > 0
    ensures block == RecBlock(bs, size, base, i) && off == RecOff(bs, size, i)
  {
    var at := base * bs + i * size;
    block, off := at / bs, at % bs;
    RecAddress(bs, size, base, i);
  }

  /** The size of `n` blocks in 512-byte sectors. */
  function Sectors(g: Geometry, n: nat): nat { n * (g.bs / 512) }

  function Super(g: Geometry): nat { if g.bs == 1024 then 1 else 0 }

  /** The superblock is the kilobyte after the first one. Its block is the one the driver uses, and
      it starts at the block's first byte, which is where the driver looks for it, exactly on
      volumes of 1024-byte blocks. */
  lemma SuperPlace(g: Geometry)
    requires g.bs in {1024, 2048, 4096}
    ensures Super(g) * g.bs <= 1024 && 2048 <= (Super(g) + 1) * g.bs
    ensures Super(g) * g.bs == 1024 <==> g.bs == 1024
  {
  }

  /** The first block of group `i`, and how many of its bits name blocks of the volume. */
  function GroupStart(g: Geometry, i: nat): nat { g.firstData + Times(i, g.bpg) }

  function GroupBlocks(g: Geometry, i: nat): nat {
    if g.total <= GroupStart(g, i) then 0 else Min(g.bpg, g.total - GroupStart(g, i))
  }

  /** What the driver needs of a volume's geometry. */
  ghost predicate GeometryOk(g: Geometry) {
    && 1024 <= g.bs <= 4096 && g.bs % 12 >= 4
    && 0 < g.bpg <= 8 * g.bs && g.bpg % 8 == 0
    && 0 < g.ipg <= 8 * g.bs && g.ipg % 8 == 0
    && (g.inodeSize == 128 || g.inodeSize == 256) && 32 <= g.descSize
    && (g.has64 ==> g.descSize >= 64)
    && (exists n: nat :: n > 0 && Times(n, g.descSize) == g.bs)
    && (exists n: nat :: n > 0 && Times(n, g.inodeSize) == g.bs)
    && g.firstData == Super(g) && g.gdt == g.firstData + 1
    && g.groups > 0
    && GroupStart(g, g.groups - 1) < g.total <= Times(g.groups, g.bpg)
    && g.total < 0x1_0000_0000_0000 && (!g.has64 ==> g.total < U32)
    && g.inodes == Times(g.groups, g.ipg) < U32
    && g.seed < U32
  }

  /** The three block sizes, two inode sizes and the power-of-two descriptor sizes that
      volumes come with all fit. */
  lemma UsualSizesFit(g: Geometry)
    requires g.bs in {1024, 2048, 4096} && g.inodeSize in {128, 256} && g.descSize in {32, 64, 128}
    ensures 1024 <= g.bs <= 4096 && g.bs % 12 >= 4
    ensures exists n: nat :: n > 0 && Times(n, g.descSize) == g.bs
    ensures exists n: nat :: n > 0 && Times(n, g.inodeSize) == g.bs
  {
    TimesIsProduct(g.bs / g.descSize, g.descSize);
    TimesIsProduct(g.bs / g.inodeSize, g.inodeSize);
  }

  ghost predicate DiskOk(g: Geometry, disk: Disk) {
    |disk| >= g.total && forall b :: 0 <= b < |disk| ==> |disk[b]| == g.bs
  }

  // ---------------------------------------------------- group descriptors

  /** Descriptor fields split into a low and, on 64-bit volumes, a high half. */
  function Wide32(g: Geometry, d: Buffer, lo: nat, hi: nat): nat
    requires lo + 4 <= |d| && (g.has64 ==> hi + 4 <= |d|)
  {
    Le32(d, lo) + if g.has64 then 0x1_0000_0000 * Le32(d, hi) else 0
  }

  function Wide16(g: Geometry, d: Buffer, lo: nat, hi: nat): nat
    requires lo + 2 <= |d| && (g.has64 ==> hi + 2 <= |d|)
  {
    Le16(d, lo) + if g.has64 then 0x1_0000 * Le16(d, hi) else 0
  }

  ghost predicate DescSized(g: Geometry, d: Buffer) {
    |d| == g.descSize && |d| >= 32 && (g.has64 ==> |d| >= 64)
  }

  /** What the driver reads out of a descriptor. */
  datatype DescView = DescView(
    blockBitmap: nat, inodeBitmap: nat, inodeTable: nat,
    freeBlocks: nat, freeInodes: nat, usedDirs: nat,
    blockCsum: nat, inodeCsum: nat, itableUnused: nat)

  ghost function View(g: Geometry, d: Buffer): DescView
    requires DescSized(g, d)
  {
    DescView(
      Wide32(g, d, GD_BLOCK_BITMAP_LO, GD_BLOCK_BITMAP_HI),
      Wide32(g, d, GD_INODE_BITMAP_LO, GD_INODE_BITMAP_HI),
      Wide32(g, d, GD_INODE_TABLE_LO, GD_INODE_TABLE_HI),
      Wide16(g, d, GD_FREE_BLOCKS_LO, GD_FREE_BLOCKS_HI),
      Wide16(g, d, GD_FREE_INODES_LO, GD_FREE_INODES_HI),
      Wide16(g, d, GD_USED_DIRS_LO, GD_USED_DIRS_HI),
      Wide16(g, d, GD_BLOCK_BITMAP_CSUM_LO, GD_BLOCK_BITMAP_CSUM_HI),
      Wide16(g, d, GD_INODE_BITMAP_CSUM_LO, GD_INODE_BITMAP_CSUM_HI),
      Wide16(g, d, GD_ITABLE_UNUSED_LO, GD_ITABLE_UNUSED_HI))
  }

  /** Stores a count into its low half and, on 64-bit volumes, its high half. */
  method PutWide16(g: Geometry, d: Buffer, lo: nat, hi: nat, v: nat) returns (r: Buffer)
    requires DescSized(g, d) && lo + 2 <= 32 <= hi && (g.has64 ==> hi + 2 <= 64)
    requires v < U32 && (!g.has64 ==> v < U16)
    ensures |r| == |d|
    ensures Wide16(g, r, lo, hi) == v
    ensures forall k :: 0 <= k < |d| && !(lo <= k < lo + 2) && !(hi <= k < hi + 2) ==> r[k] == d[k]
  {
    r := PutLe16(d, lo, v);
    if g.has64 {
      ghost var low := r;
      r := PutLe16(r, hi, v / 0x1_0000);
      Le16Same(low, r, lo);
    }
  }

  function LeBytes(v: nat): (b: Buffer)
    ensures |b| == 4
  {
    [v % 0x100, v / 0x100 % 0x100, v / 0x1_0000 % 0x100, v / 0x100_0000 % 0x100]
  }

  /** The checksum of a descriptor: its own field counts as zero. */
  function DescCsum(g: Geometry, i: nat, d: Buffer): nat
    requires |d| >= 32
  {
    var c1 := Crc32c(g.seed, LeBytes(i));
    var c2 := Crc32c(c1, d[..0x1E]);
    var c3 := Crc32c(c2, [0, 0]);
    (if 0x20 < |d| then Crc32c(c3, d[0x20..]) else c3) % 0x1_0000
  }

  ghost predicate DescSealed(g: Geometry, i: nat, d: Buffer)
    requires |d| >= 32
  {
    g.metaCsum ==> Le16(d, GD_CHECKSUM) == DescCsum(g, i, d)
  }

  method SealDesc(g: Geometry, i: nat, d: Buffer) returns (r: Buffer)
    requires DescSized(g, d)
    ensures |r| == |d| && DescSealed(g, i, r)
    ensures forall k :: 0 <= k < |d| && !(GD_CHECKSUM <= k < GD_CHECKSUM + 2) ==> r[k] == d[k]
  {
    r := d;
    if g.metaCsum {
      r := PutLe16(d, GD_CHECKSUM, DescCsum(g, i, d));
      assert r[..0x1E] == d[..0x1E];
      assert r[0x20..] == d[0x20..];
    }
  }

  // --------------------------------------------------------------- layout

  datatype Role = SuperBlock | GroupTable | BlockBitmap(group: nat) | InodeBitmap(group: nat) | InodeTable(group: nat)

  /** Where each group keeps its bitmaps, inode table and descriptor, and what every metadata
      block is for. A block has one role at most because `roles` is a map. */
  datatype Layout = Layout(
    bb: seq<nat>, ib: seq<nat>, it: seq<nat>, gdBlock: seq<nat>, gdOff: seq<nat>, roles: map<nat, Role>)

  ghost predicate HasRole(l: Layout, b: nat, r: Role) { b in l.roles && l.roles[b] == r }

  /** Group `i` is where the descriptor table and its own descriptor say. */
  ghost predicate GroupPlaced(g: Geometry, l: Layout, i: nat)
    requires g.bs > 0 && i < |l.bb| == |l.ib| == |l.it| == |l.gdBlock| == |l.gdOff|
  {
    && l.gdBlock[i] == RecBlock(g.bs, g.descSize, g.gdt, i) && l.gdOff[i] == RecOff(g.bs, g.descSize, i)
    && HasRole(l, l.gdBlock[i], GroupTable)
    && HasRole(l, l.bb[i], BlockBitmap(i)) && HasRole(l, l.ib[i], InodeBitmap(i))
    && forall k :: 0 <= k < g.ipg ==> HasRole(l, RecBlock(g.bs, g.inodeSize, l.it[i], k), InodeTable(i))
  }

  ghost predicate LayoutOk(g: Geometry, l: Layout)
    requires g.bs > 0
  {
    && |l.bb| == |l.ib| == |l.it| == |l.gdBlock| == |l.gdOff| == g.groups
    && (forall b :: b in l.roles ==> g.firstData <= b < g.total)
    && Super(g) < g.total && HasRole(l, Super(g), SuperBlock)
    && (forall i :: 0 <= i < g.groups ==> l.bb[i] < g.total && l.ib[i] < g.total)
    && (forall i :: 0 <= i < g.groups ==> l.gdBlock[i] < g.total && l.gdOff[i] + g.descSize <= g.bs)
    && (forall i :: 0 <= i < g.groups ==> GroupPlaced(g, l, i))
  }

  ghost predicate Mounted(g: Geometry, l: Layout, disk: Disk) {
    GeometryOk(g) && LayoutOk(g, l) && DiskOk(g, disk)
  }

  function Desc(g: Geometry, l: Layout, disk: Disk, i: nat): (d: Buffer)
    requires i < |l.gdBlock| == |l.gdOff| && l.gdBlock[i] < |disk|
    requires l.gdOff[i] + g.descSize <= |disk[l.gdBlock[i]]|
    ensures |d| == g.descSize
  {
    disk[l.gdBlock[i]][l.gdOff[i]..l.gdOff[i] + g.descSize]
  }

  /** The descriptor of group `i`, as its fields. */
  ghost function GroupView(g: Geometry, l: Layout, disk: Disk, i: nat): DescView
    requires Mounted(g, l, disk) && i < g.groups
  {
    View(g, Desc(g, l, disk, i))
  }

  // ------------------------------------------------------------ free blocks

  function GroupOf(g: Geometry, b: nat): nat
    requires g.bpg > 0 && b >= g.firstData
  {
    Quot(b - g.firstData, g.bpg)
  }

  function BitOf(g: Geometry, b: nat): nat
    requires g.bpg > 0 && b >= g.firstData
  {
    Rem(b - g.firstData, g.bpg)
  }

  lemma GroupInRange(g: Geometry, b: nat)
    requires GeometryOk(g) && g.firstData <= b < g.total
    ensures GroupOf(g, b) < g.groups && BitOf(g, b) < GroupBlocks(g, GroupOf(g, b))
    ensures GroupStart(g, GroupOf(g, b)) + BitOf(g, b) == b
  {
    QuotRem(b - g.firstData, g.bpg);
    QuotBelow(b - g.firstData, g.bpg, g.groups);
  }

  /** The group computed from a block number is the group whose bit names it. */
  lemma GroupOfBit(g: Geometry, group: nat, idx: nat)
    requires g.bpg > 0 && idx < g.bpg
    ensures GroupOf(g, GroupStart(g, group) + idx) == group
    ensures BitOf(g, GroupStart(g, group) + idx) == idx
  {
    QuotOfTimes(group, g.bpg, idx);
  }

  /** A block of the volume whose bit is clear. */
  ghost predicate Free(g: Geometry, l: Layout, disk: Disk, b: nat) {
    && g.bpg > 0 && g.firstData <= b < g.total && GroupOf(g, b) < |l.bb|
    && ClearAt(disk, l.bb[GroupOf(g, b)], BitOf(g, b))
  }

  /** An inode number whose bit is clear. */
  ghost predicate FreeInode(g: Geometry, l: Layout, disk: Disk, ino: nat) {
    && g.ipg > 0 && 1 <= ino <= g.inodes && InoGroup(g, ino) < |l.ib|
    && ClearAt(disk, l.ib[InoGroup(g, ino)], InoIndex(g, ino))
  }

  ghost predicate ClearAt(disk: Disk, bm: nat, idx: nat) {
    bm < |disk| && idx < 8 * |disk[bm]| && !Bit(disk[bm], idx)
  }

  function InoNumber(g: Geometry, group: nat, idx: nat): nat { Times(group, g.ipg) + idx + 1 }

  function InoGroup(g: Geometry, ino: nat): nat
    requires g.ipg > 0 && ino >= 1
  {
    Quot(ino - 1, g.ipg)
  }

  function InoIndex(g: Geometry, ino: nat): nat
    requires g.ipg > 0 && ino >= 1
  {
    Rem(ino - 1, g.ipg)
  }

  lemma InodeInRange(g: Geometry, ino: nat)
    requires GeometryOk(g) && 1 <= ino <= g.inodes
    ensures InoGroup(g, ino) < g.groups && InoIndex(g, ino) < g.ipg
    ensures InoNumber(g, InoGroup(g, ino), InoIndex(g, ino)) == ino
  {
    QuotRem(ino - 1, g.ipg);
    QuotBelow(ino - 1, g.ipg, g.groups);
  }

  lemma InodeOfBit(g: Geometry, group: nat, idx: nat)
    requires g.ipg > 0 && idx < g.ipg
    ensures InoGroup(g, InoNumber(g, group, idx)) == group && InoIndex(g, InoNumber(g, group, idx)) == idx
  {
    QuotOfTimes(group, g.ipg, idx);
  }

  // ---------------------------------------------- counters and checksums

  ghost predicate Pointers(g: Geometry, l: Layout, disk: Disk)
    requires Mounted(g, l, disk)
  {
    forall i :: 0 <= i < g.groups ==>
      && GroupView(g, l, disk, i).blockBitmap == l.bb[i]
      && GroupView(g, l, disk, i).inodeBitmap == l.ib[i]
      && GroupView(g, l, disk, i).inodeTable == l.it[i]
  }

  ghost predicate MetaInUse(g: Geometry, l: Layout, disk: Disk)
    requires Mounted(g, l, disk)
  {
    forall b :: b in l.roles ==> !Free(g, l, disk, b)
  }

  /** Each group's counters are the numbers of clear bits in its bitmaps, no more directories
      are counted than inodes are in use, and the inodes counted as unused at the end of the
      table are free. */
  ghost predicate GroupCounted(g: Geometry, l: Layout, disk: Disk, i: nat)
    requires Mounted(g, l, disk) && i < g.groups
  {
    var v := GroupView(g, l, disk, i);
    && v.freeBlocks == ClearCount(disk[l.bb[i]], GroupBlocks(g, i))
    && v.freeInodes == ClearCount(disk[l.ib[i]], g.ipg) && v.usedDirs + v.freeInodes <= g.ipg
    && v.itableUnused <= g.ipg
    && forall k :: g.ipg - v.itableUnused <= k < g.ipg ==> !Bit(disk[l.ib[i]], k)
  }

  function Sum(s: seq<nat>): nat {
    if s == [] then 0 else Sum(s[..|s| - 1]) + s[|s| - 1]
  }

  /** Changing one term of a sum changes the sum by as much. */
  lemma {:induction false} SumUpdate(s: seq<nat>, i: nat, v: nat)
    requires i < |s|
    ensures Sum(s) >= s[i] && Sum(s[i := v]) == Sum(s) - s[i] + v
  {
    var m := |s| - 1;
    if i < m {
      SumUpdate(s[..m], i, v);
      assert s[i := v][..m] == s[..m][i := v];
    } else {
      assert s[i := v][..m] == s[..m];
    }
  }

  ghost function Views(g: Geometry, l: Layout, disk: Disk): (s: seq<DescView>)
    requires Mounted(g, l, disk)
    ensures |s| == g.groups
  {
    seq(g.groups, i requires 0 <= i < g.groups => GroupView(g, l, disk, i))
  }

  function BlockCounts(vs: seq<DescView>): seq<nat> {
    seq(|vs|, i requires 0 <= i < |vs| => vs[i].freeBlocks)
  }

  function InodeCounts(vs: seq<DescView>): seq<nat> {
    seq(|vs|, i requires 0 <= i < |vs| => vs[i].freeInodes)
  }

  lemma CountsUpdate(vs: seq<DescView>, i: nat, v: DescView)
    requires i < |vs|
    ensures Sum(BlockCounts(vs[i := v])) == Sum(BlockCounts(vs)) - vs[i].freeBlocks + v.freeBlocks
    ensures Sum(InodeCounts(vs[i := v])) == Sum(InodeCounts(vs)) - vs[i].freeInodes + v.freeInodes
    ensures Sum(BlockCounts(vs)) >= vs[i].freeBlocks && Sum(InodeCounts(vs)) >= vs[i].freeInodes
  {
    SumUpdate(BlockCounts(vs), i, v.freeBlocks);
    SumUpdate(InodeCounts(vs), i, v.freeInodes);
    assert BlockCounts(vs[i := v]) == BlockCounts(vs)[i := v.freeBlocks];
    assert InodeCounts(vs[i := v]) == InodeCounts(vs)[i := v.freeInodes];
  }

  function SuperFreeBlocks(g: Geometry, sb: Buffer): nat
    requires |sb| >= 1024
  {
    Le32(sb, SB_FREE_BLOCKS_LO) + if g.has64 then 0x1_0000_0000 * Le32(sb, SB_FREE_BLOCKS_HI) else 0
  }

  ghost predicate SuperSealed(g: Geometry, sb: Buffer)
    requires |sb| >= 1024
  {
    g.metaCsum ==> Le32(sb, SB_CHECKSUM) == Crc32c(0xFFFF_FFFF, sb[..SB_CHECKSUM])
  }

  /** A bitmap checksum, cut to the 16 bits a descriptor without high halves can hold. */
  function Cut(g: Geometry, c: nat): nat { if g.has64 then c else c % 0x1_0000 }

  ghost predicate GroupSealed(g: Geometry, l: Layout, disk: Disk, i: nat)
    requires Mounted(g, l, disk) && i < g.groups
  {
    var d := Desc(g, l, disk, i);
    && DescSealed(g, i, d)
    && (g.metaCsum ==>
          && View(g, d).blockCsum == Cut(g, Crc32c(g.seed, disk[l.bb[i]][..g.bpg / 8]))
          && View(g, d).inodeCsum == Cut(g, Crc32c(g.seed, disk[l.ib[i]][..g.ipg / 8])))
  }

  ghost predicate Totals(g: Geometry, l: Layout, disk: Disk, freeBlocks: nat, freeInodes: nat)
    requires Mounted(g, l, disk)
  {
    && freeBlocks == Sum(BlockCounts(Views(g, l, disk))) == SuperFreeBlocks(g, disk[Super(g)])
    && freeInodes == Sum(InodeCounts(Views(g, l, disk))) == Le32(disk[Super(g)], SB_FREE_INODES)
    && SuperSealed(g, disk[Super(g)])
  }

  /** What holds of group `i`, and of the volume as a whole. */
  ghost predicate Sound(g: Geometry, l: Layout, disk: Disk, freeBlocks: nat, freeInodes: nat, i: nat)
    requires Mounted(g, l, disk)
  {
    && Pointers(g, l, disk)
    && MetaInUse(g, l, disk)
    && Totals(g, l, disk, freeBlocks, freeInodes)
    && (i < g.groups ==> GroupCounted(g, l, disk, i) && GroupSealed(g, l, disk, i))
  }

  /** Everything the allocator keeps: the superblock count is the sum of the group counts,
      each of which is the number of clear bits, and every metadata checksum is right. */
  ghost predicate Consistent(g: Geometry, l: Layout, disk: Disk, freeBlocks: nat, freeInodes: nat) {
    Mounted(g, l, disk) && forall i: nat :: Sound(g, l, disk, freeBlocks, freeInodes, i)
  }
}
