/** What one committed allocation does to a consistent volume. */
module Allocator {
  import opened Arith
  import opened Bytes
  import opened Bitmap
  import opened Crc
  import opened Volume

  /** The inode-table blocks a group reserves, as the driver computes them. */
  function TableBlocks(g: Geometry): nat
    requires g.bs > 0 && g.groups > 0
  {
    Quot(Times(Quot(g.inodes, g.groups), g.inodeSize) + g.bs - 1, g.bs)
  }

  function ReservedEnd(g: Geometry): nat
    requires g.bs > 0
  {
    g.gdt + Quot(Times(g.groups, g.descSize) + g.bs - 1, g.bs) + g.reservedGdt
  }

  /** Blocks the allocator refuses even when their bit is clear. */
  predicate Reserved(g: Geometry, l: Layout, group: nat, fsb: nat)
    requires g.bs > 0 && g.groups > 0 && group < |l.bb| == |l.ib| == |l.it|
  {
    || (group == 0 && fsb < ReservedEnd(g))
    || fsb == l.bb[group] || fsb == l.ib[group]
    || l.it[group] <= fsb < l.it[group] + TableBlocks(g)
  }

  /** The driver's count of table blocks ends the table with the block of the last inode. */
  lemma TableExact(g: Geometry, base: nat, b: nat)
    requires GeometryOk(g)
    ensures base <= b < base + TableBlocks(g) <==>
              exists k: nat :: k < g.ipg && b == RecBlock(g.bs, g.inodeSize, base, k)
  {
    var per: nat :| per > 0 && Times(per, g.inodeSize) == g.bs;
    TimesIsProduct(g.groups, g.ipg);
    TimesIsProduct(g.ipg, g.groups);
    QuotOfTimes(g.ipg, g.groups, 0);
    RecordBlocks(g.ipg, g.inodeSize, per);
    if base <= b < base + TableBlocks(g) {
      var k := RecordIn(g.ipg, g.inodeSize, per, b - base);
      assert b == RecBlock(g.bs, g.inodeSize, base, k);
    }
    if k: nat :| k < g.ipg && b == RecBlock(g.bs, g.inodeSize, base, k) {
      TimesMonotone(k, g.ipg - 1, g.inodeSize);
      QuotMonotone(Times(k, g.inodeSize), Times(g.ipg - 1, g.inodeSize), g.bs);
    }
  }

  /** The block of the last group descriptor. */
  function LastDesc(g: Geometry): nat
    requires g.bs > 0 && g.groups > 0
  {
    RecBlock(g.bs, g.descSize, g.gdt, g.groups - 1)
  }

  /** What the driver reserves behind the descriptors starts right after the last of them. */
  lemma DescsExact(g: Geometry)
    requires GeometryOk(g)
    ensures ReservedEnd(g) == LastDesc(g) + 1 + g.reservedGdt
  {
    var per: nat :| per > 0 && Times(per, g.descSize) == g.bs;
    RecordBlocks(g.groups, g.descSize, per);
  }

  /** What is refused, block by block: up to the end of the descriptors and of the blocks kept for
      more of them, in the first group; a bitmap; or a block that holds an inode of the group. */
  lemma ReservedExact(g: Geometry, l: Layout, group: nat, fsb: nat)
    requires GeometryOk(g) && LayoutOk(g, l) && group < g.groups
    ensures Reserved(g, l, group, fsb) <==>
              || (group == 0 && fsb <= LastDesc(g) + g.reservedGdt)
              || fsb == l.bb[group] || fsb == l.ib[group]
              || exists k: nat :: k < g.ipg && fsb == RecBlock(g.bs, g.inodeSize, l.it[group], k)
  {
    hide LayoutOk, TableBlocks, RecBlock, ReservedEnd;
    LayoutSizes(g, l);
    DescsExact(g);
    TableExact(g, l.it[group], fsb);
  }

  lemma LayoutSizes(g: Geometry, l: Layout)
    requires GeometryOk(g) && LayoutOk(g, l)
    ensures |l.bb| == |l.ib| == |l.it| == |l.gdBlock| == |l.gdOff| == g.groups
  {
  }

  /** A block of the first group that is kept for more descriptors. */
  predicate Withheld(g: Geometry, b: nat)
    requires g.bs > 0 && g.groups > 0
  {
    LastDesc(g) < b <= LastDesc(g) + g.reservedGdt && b < g.firstData + g.bpg
  }

  /** A block between the superblock and the last descriptor holds a descriptor. */
  lemma DescRole(g: Geometry, l: Layout, b: nat)
    requires GeometryOk(g) && LayoutOk(g, l) && g.firstData <= b <= LastDesc(g)
    ensures b in l.roles
  {
    if b >= g.gdt {
      var per: nat :| per > 0 && Times(per, g.descSize) == g.bs;
      var k := RecordIn(g.groups, g.descSize, per, b - g.gdt);
      assert GroupPlaced(g, l, k);
    }
  }

  lemma TableRole(g: Geometry, l: Layout, i: nat, k: nat)
    requires GeometryOk(g) && LayoutOk(g, l) && i < g.groups && k < g.ipg
    ensures RecBlock(g.bs, g.inodeSize, l.it[i], k) in l.roles && l.bb[i] in l.roles && l.ib[i] in l.roles
  {
    hide RecBlock;
    assert GroupPlaced(g, l, i);
  }

  /** Writing a block leaves the descriptors in other blocks alone. */
  lemma DescElsewhere(g: Geometry, l: Layout, disk: Disk, b: nat, blk: Buffer, i: nat)
    requires Mounted(g, l, disk) && i < g.groups && b < |disk| && |blk| == g.bs
    requires b != l.gdBlock[i]
    ensures Mounted(g, l, disk[b := blk])
    ensures Desc(g, l, disk[b := blk], i) == Desc(g, l, disk, i)
  {
  }

  /** Storing descriptor `i` replaces that descriptor and no other. */
  lemma DescStored(g: Geometry, l: Layout, disk: Disk, i: nat, d: Buffer, j: nat)
    requires Mounted(g, l, disk) && i < g.groups && j < g.groups && |d| == g.descSize
    ensures var after := disk[l.gdBlock[i] := Splice(disk[l.gdBlock[i]], l.gdOff[i], d)];
            && Mounted(g, l, after)
            && Desc(g, l, after, j) == if i == j then d else Desc(g, l, disk, j)
  {
    if i != j {
      DescsApart(g, l, i, j);
      var after := disk[l.gdBlock[i] := Splice(disk[l.gdBlock[i]], l.gdOff[i], d)];
      assert Desc(g, l, after, j) == Desc(g, l, disk, j);
    }
  }

  /** Two descriptors never share a byte. */
  lemma DescsApart(g: Geometry, l: Layout, i: nat, j: nat)
    requires GeometryOk(g) && LayoutOk(g, l) && i < g.groups && j < g.groups && i != j
    ensures l.gdBlock[i] != l.gdBlock[j] || l.gdOff[i] + g.descSize <= l.gdOff[j]
        || l.gdOff[j] + g.descSize <= l.gdOff[i]
  {
    var n: nat :| n > 0 && Times(n, g.descSize) == g.bs;
    RecordsApart(i, j, g.descSize, n);
    assert GroupPlaced(g, l, i) && GroupPlaced(g, l, j);
  }

  /** How a committed allocation changes the volume: one bitmap block, one descriptor and
      the superblock. */
  ghost predicate Commits(g: Geometry, l: Layout, before: Disk, after: Disk, bm: nat, i: nat)
    requires Mounted(g, l, before)
  {
    && i < g.groups && bm in {l.bb[i], l.ib[i]}
    && Mounted(g, l, after) && |after| == |before|
    && (forall b :: 0 <= b < |before| && b != bm && b != l.gdBlock[i] && b != Super(g) ==> after[b] == before[b])
    && (forall j :: 0 <= j < g.groups && j != i ==> Desc(g, l, after, j) == Desc(g, l, before, j))
  }

  /** The distinct roles of the blocks a commit writes. */
  lemma RolesApart(g: Geometry, l: Layout, i: nat, j: nat)
    requires GeometryOk(g) && LayoutOk(g, l) && i < g.groups && j < g.groups
    ensures l.bb[i] != Super(g) && l.ib[i] != Super(g) && l.gdBlock[i] != Super(g)
    ensures l.bb[i] != l.gdBlock[j] && l.ib[i] != l.gdBlock[j] && l.bb[i] != l.ib[j]
    ensures i != j ==> l.bb[i] != l.bb[j] && l.ib[i] != l.ib[j]
  {
    assert GroupPlaced(g, l, i) && GroupPlaced(g, l, j);
  }

  lemma BitmapsKept(g: Geometry, l: Layout, before: Disk, after: Disk, bm: nat, i: nat, j: nat)
    requires Mounted(g, l, before) && Commits(g, l, before, after, bm, i) && j < g.groups
    ensures l.bb[j] != bm ==> after[l.bb[j]] == before[l.bb[j]]
    ensures l.ib[j] != bm ==> after[l.ib[j]] == before[l.ib[j]]
  {
    RolesApart(g, l, i, j);
    RolesApart(g, l, j, i);
  }

  // -------------------------------------------------------- a block is taken

  /** One block of group `i` was marked and everything that counts it was updated. */
  ghost predicate BlockTaken(g: Geometry, l: Layout, before: Disk, after: Disk, i: nat, idx: nat)
    requires Mounted(g, l, before)
  {
    && Commits(g, l, before, after, if i < g.groups then l.bb[i] else 0, i)
    && idx < GroupBlocks(g, i)
    && !Bit(before[l.bb[i]], idx) && after[l.bb[i]] == SetBit(before[l.bb[i]], idx)
    && var v := GroupView(g, l, before, i);
    && v.freeBlocks > 0
    && GroupView(g, l, after, i) == v.(freeBlocks := v.freeBlocks - 1, blockCsum := GroupView(g, l, after, i).blockCsum)
    && DescSealed(g, i, Desc(g, l, after, i))
    && (g.metaCsum ==> GroupView(g, l, after, i).blockCsum == Cut(g, Crc32c(g.seed, after[l.bb[i]][..g.bpg / 8])))
  }

  /** Exactly the marked block stops being free. */
  lemma FreeAfterBlock(g: Geometry, l: Layout, before: Disk, after: Disk, i: nat, idx: nat, b: nat)
    requires Mounted(g, l, before) && BlockTaken(g, l, before, after, i, idx)
    ensures Free(g, l, after, b) <==> Free(g, l, before, b) && b != GroupStart(g, i) + idx
  {
    GroupOfBit(g, i, idx);
    if g.firstData <= b < g.total {
      GroupInRange(g, b);
      var j := GroupOf(g, b);
      RolesApart(g, l, j, i);
      BitmapsKept(g, l, before, after, l.bb[i], i, j);
    }
  }

  lemma BlockTakenCounts(g: Geometry, l: Layout, before: Disk, after: Disk, i: nat, idx: nat, j: nat)
    requires Mounted(g, l, before) && BlockTaken(g, l, before, after, i, idx)
    requires j < g.groups && GroupCounted(g, l, before, j)
    ensures GroupCounted(g, l, after, j)
  {
    BitmapsKept(g, l, before, after, l.bb[i], i, j);
    RolesApart(g, l, i, j);
    if i == j {
      ClearCountSet(before[l.bb[i]], idx, GroupBlocks(g, i));
    }
  }

  lemma BlockTakenSeals(g: Geometry, l: Layout, before: Disk, after: Disk, i: nat, idx: nat, j: nat)
    requires Mounted(g, l, before) && BlockTaken(g, l, before, after, i, idx)
    requires j < g.groups && GroupSealed(g, l, before, j)
    ensures GroupSealed(g, l, after, j)
  {
    BitmapsKept(g, l, before, after, l.bb[i], i, j);
    RolesApart(g, l, i, j);
  }

  lemma ViewsAfter(g: Geometry, l: Layout, before: Disk, after: Disk, bm: nat, i: nat)
    requires Mounted(g, l, before) && Commits(g, l, before, after, bm, i)
    ensures Views(g, l, after) == Views(g, l, before)[i := GroupView(g, l, after, i)]
  {
    forall j | 0 <= j < g.groups && j != i ensures GroupView(g, l, after, j) == GroupView(g, l, before, j) {
      assert Desc(g, l, after, j) == Desc(g, l, before, j);
    }
  }

  /** Taking a block keeps the volume consistent with one free block less. */
  lemma BlockTakenConsistent(g: Geometry, l: Layout, before: Disk, after: Disk, i: nat, idx: nat, fb: nat, left: nat,
                             fi: nat)
    requires Consistent(g, l, before, fb, fi) && BlockTaken(g, l, before, after, i, idx) && fb == left + 1
    requires SuperFreeBlocks(g, after[Super(g)]) == left && Le32(after[Super(g)], SB_FREE_INODES) == fi
    requires SuperSealed(g, after[Super(g)])
    ensures Consistent(g, l, after, left, fi)
  {
    forall j: nat ensures Sound(g, l, after, left, fi, j) {
      assert Sound(g, l, before, fb, fi, j);
      BlockTakenTotals(g, l, before, after, i, idx, fb, fi, left);
      BlockTakenPointers(g, l, before, after, i, idx);
      BlockTakenMeta(g, l, before, after, i, idx);
      if j < g.groups {
        BlockTakenGroup(g, l, before, after, i, idx, j);
      }
    }
  }

  lemma BlockTakenTotals(g: Geometry, l: Layout, before: Disk, after: Disk, i: nat, idx: nat, fb: nat, fi: nat,
                         left: nat)
    requires Mounted(g, l, before) && Totals(g, l, before, fb, fi)
    requires BlockTaken(g, l, before, after, i, idx) && fb == left + 1
    requires SuperFreeBlocks(g, after[Super(g)]) == left && Le32(after[Super(g)], SB_FREE_INODES) == fi
    requires SuperSealed(g, after[Super(g)])
    ensures Totals(g, l, after, left, fi)
  {
    BlockTakenSums(g, l, before, after, i, idx);
  }

  lemma BlockTakenGroup(g: Geometry, l: Layout, before: Disk, after: Disk, i: nat, idx: nat, j: nat)
    requires Mounted(g, l, before) && BlockTaken(g, l, before, after, i, idx)
    requires j < g.groups && GroupCounted(g, l, before, j) && GroupSealed(g, l, before, j)
    ensures GroupCounted(g, l, after, j) && GroupSealed(g, l, after, j)
  {
    BlockTakenCounts(g, l, before, after, i, idx, j);
    BlockTakenSeals(g, l, before, after, i, idx, j);
  }

  lemma BlockTakenMeta(g: Geometry, l: Layout, before: Disk, after: Disk, i: nat, idx: nat)
    requires Mounted(g, l, before) && MetaInUse(g, l, before) && BlockTaken(g, l, before, after, i, idx)
    ensures MetaInUse(g, l, after)
  {
    forall b | b in l.roles ensures !Free(g, l, after, b) { FreeAfterBlock(g, l, before, after, i, idx, b); }
  }

  lemma BlockTakenSums(g: Geometry, l: Layout, before: Disk, after: Disk, i: nat, idx: nat)
    requires Mounted(g, l, before) && BlockTaken(g, l, before, after, i, idx)
    ensures Sum(BlockCounts(Views(g, l, after))) == Sum(BlockCounts(Views(g, l, before))) - 1
    ensures Sum(InodeCounts(Views(g, l, after))) == Sum(InodeCounts(Views(g, l, before)))
  {
    ViewsAfter(g, l, before, after, l.bb[i], i);
    CountsUpdate(Views(g, l, before), i, GroupView(g, l, after, i));
  }

  lemma BlockTakenPointers(g: Geometry, l: Layout, before: Disk, after: Disk, i: nat, idx: nat)
    requires Mounted(g, l, before) && Pointers(g, l, before) && BlockTaken(g, l, before, after, i, idx)
    ensures Pointers(g, l, after)
  {
  }

  // ------------------------------------------------------- an inode is taken

  ghost predicate InodeTaken(g: Geometry, l: Layout, before: Disk, after: Disk, i: nat, idx: nat)
    requires Mounted(g, l, before)
  {
    && Commits(g, l, before, after, if i < g.groups then l.ib[i] else 0, i)
    && idx < g.ipg
    && !Bit(before[l.ib[i]], idx) && after[l.ib[i]] == SetBit(before[l.ib[i]], idx)
    && var v, w := GroupView(g, l, before, i), GroupView(g, l, after, i);
    && v.freeInodes > 0
    && v.usedDirs <= w.usedDirs <= v.usedDirs + 1
    && w == v.(freeInodes := v.freeInodes - 1, usedDirs := w.usedDirs, inodeCsum := w.inodeCsum,
               itableUnused := Min(v.itableUnused, g.ipg - idx - 1))
    && DescSealed(g, i, Desc(g, l, after, i))
    && (g.metaCsum ==> w.inodeCsum == Cut(g, Crc32c(g.seed, after[l.ib[i]][..g.ipg / 8])))
  }

  lemma FreeAfterInode(g: Geometry, l: Layout, before: Disk, after: Disk, i: nat, idx: nat, b: nat)
    requires Mounted(g, l, before) && InodeTaken(g, l, before, after, i, idx)
    ensures Free(g, l, after, b) <==> Free(g, l, before, b)
  {
    if g.firstData <= b < g.total {
      GroupInRange(g, b);
      var j := GroupOf(g, b);
      RolesApart(g, l, j, i);
      BitmapsKept(g, l, before, after, l.ib[i], i, j);
    }
  }

  /** Exactly the marked inode stops being free. */
  lemma FreeInodeAfterInode(g: Geometry, l: Layout, before: Disk, after: Disk, i: nat, idx: nat, ino: nat)
    requires Mounted(g, l, before) && InodeTaken(g, l, before, after, i, idx)
    ensures FreeInode(g, l, after, ino) <==> FreeInode(g, l, before, ino) && ino != InoNumber(g, i, idx)
  {
    InodeOfBit(g, i, idx);
    if 1 <= ino <= g.inodes {
      InodeInRange(g, ino);
      var j := InoGroup(g, ino);
      RolesApart(g, l, j, i);
      BitmapsKept(g, l, before, after, l.ib[i], i, j);
    }
  }

  lemma FreeInodeAfterBlock(g: Geometry, l: Layout, before: Disk, after: Disk, i: nat, idx: nat, ino: nat)
    requires Mounted(g, l, before) && BlockTaken(g, l, before, after, i, idx)
    ensures FreeInode(g, l, after, ino) <==> FreeInode(g, l, before, ino)
  {
    if 1 <= ino <= g.inodes {
      InodeInRange(g, ino);
      var j := InoGroup(g, ino);
      RolesApart(g, l, i, j);
      BitmapsKept(g, l, before, after, l.bb[i], i, j);
    }
  }

  lemma InodeTakenCounts(g: Geometry, l: Layout, before: Disk, after: Disk, i: nat, idx: nat, j: nat)
    requires Mounted(g, l, before) && InodeTaken(g, l, before, after, i, idx)
    requires j < g.groups && GroupCounted(g, l, before, j)
    ensures GroupCounted(g, l, after, j)
  {
    BitmapsKept(g, l, before, after, l.ib[i], i, j);
    RolesApart(g, l, i, j);
    RolesApart(g, l, j, i);
    if i == j {
      ClearCountSet(before[l.ib[i]], idx, g.ipg);
    }
  }

  lemma InodeTakenSeals(g: Geometry, l: Layout, before: Disk, after: Disk, i: nat, idx: nat, j: nat)
    requires Mounted(g, l, before) && InodeTaken(g, l, before, after, i, idx)
    requires j < g.groups && GroupSealed(g, l, before, j)
    ensures GroupSealed(g, l, after, j)
  {
    BitmapsKept(g, l, before, after, l.ib[i], i, j);
    RolesApart(g, l, i, j);
    RolesApart(g, l, j, i);
  }

  lemma InodeTakenPointers(g: Geometry, l: Layout, before: Disk, after: Disk, i: nat, idx: nat)
    requires Mounted(g, l, before) && Pointers(g, l, before) && InodeTaken(g, l, before, after, i, idx)
    ensures Pointers(g, l, after)
  {
  }

  /** Taking an inode keeps the volume consistent with one free inode less. */
  lemma InodeTakenConsistent(g: Geometry, l: Layout, before: Disk, after: Disk, i: nat, idx: nat, fb: nat, fi: nat,
                             left: nat)
    requires Consistent(g, l, before, fb, fi) && InodeTaken(g, l, before, after, i, idx) && fi == left + 1
    requires SuperFreeBlocks(g, after[Super(g)]) == fb && Le32(after[Super(g)], SB_FREE_INODES) == left
    requires SuperSealed(g, after[Super(g)])
    ensures Consistent(g, l, after, fb, left)
  {
    forall j: nat ensures Sound(g, l, after, fb, left, j) {
      assert Sound(g, l, before, fb, fi, j);
      InodeTakenTotals(g, l, before, after, i, idx, fb, fi, left);
      InodeTakenPointers(g, l, before, after, i, idx);
      InodeTakenMeta(g, l, before, after, i, idx);
      if j < g.groups {
        InodeTakenGroup(g, l, before, after, i, idx, j);
      }
    }
  }

  lemma InodeTakenTotals(g: Geometry, l: Layout, before: Disk, after: Disk, i: nat, idx: nat, fb: nat, fi: nat,
                         left: nat)
    requires Mounted(g, l, before) && Totals(g, l, before, fb, fi)
    requires InodeTaken(g, l, before, after, i, idx) && fi == left + 1
    requires SuperFreeBlocks(g, after[Super(g)]) == fb && Le32(after[Super(g)], SB_FREE_INODES) == left
    requires SuperSealed(g, after[Super(g)])
    ensures Totals(g, l, after, fb, left)
  {
    InodeTakenSums(g, l, before, after, i, idx);
  }

  lemma InodeTakenGroup(g: Geometry, l: Layout, before: Disk, after: Disk, i: nat, idx: nat, j: nat)
    requires Mounted(g, l, before) && InodeTaken(g, l, before, after, i, idx)
    requires j < g.groups && GroupCounted(g, l, before, j) && GroupSealed(g, l, before, j)
    ensures GroupCounted(g, l, after, j) && GroupSealed(g, l, after, j)
  {
    InodeTakenCounts(g, l, before, after, i, idx, j);
    InodeTakenSeals(g, l, before, after, i, idx, j);
  }

  lemma InodeTakenMeta(g: Geometry, l: Layout, before: Disk, after: Disk, i: nat, idx: nat)
    requires Mounted(g, l, before) && MetaInUse(g, l, before) && InodeTaken(g, l, before, after, i, idx)
    ensures MetaInUse(g, l, after)
  {
    forall b | b in l.roles ensures !Free(g, l, after, b) { FreeAfterInode(g, l, before, after, i, idx, b); }
  }

  lemma InodeTakenSums(g: Geometry, l: Layout, before: Disk, after: Disk, i: nat, idx: nat)
    requires Mounted(g, l, before) && InodeTaken(g, l, before, after, i, idx)
    ensures Sum(BlockCounts(Views(g, l, after))) == Sum(BlockCounts(Views(g, l, before)))
    ensures Sum(InodeCounts(Views(g, l, after))) == Sum(InodeCounts(Views(g, l, before))) - 1
  {
    ViewsAfter(g, l, before, after, l.ib[i], i);
    CountsUpdate(Views(g, l, before), i, GroupView(g, l, after, i));
  }

  // ------------------------------------------------------ superblock counters

  /** Stores both counters and seals the superblock. */
  method PutSuperCounts(g: Geometry, sb: Buffer, freeBlocks: nat, freeInodes: nat) returns (r: Buffer)
    requires |sb| >= 1024 && freeInodes < U32
    requires freeBlocks < U64 && (!g.has64 ==> freeBlocks < U32)
    ensures |r| == |sb|
    ensures SuperFreeBlocks(g, r) == freeBlocks && Le32(r, SB_FREE_INODES) == freeInodes
    ensures SuperSealed(g, r)
  {
    var b1 := PutLe32(sb, SB_FREE_BLOCKS_LO, freeBlocks);
    var b2 := PutLe32(b1, SB_FREE_INODES, freeInodes);
    Le32Same(b1, b2, SB_FREE_BLOCKS_LO);
    var b3 := b2;
    if g.has64 {
      b3 := PutLe32(b2, SB_FREE_BLOCKS_HI, freeBlocks / 0x1_0000_0000);
      Le32Same(b2, b3, SB_FREE_BLOCKS_LO);
      Le32Same(b2, b3, SB_FREE_INODES);
    }
    r := SealSuper(g, b3);
    Le32Same(b3, r, SB_FREE_BLOCKS_LO);
    Le32Same(b3, r, SB_FREE_INODES);
    Le32Same(b3, r, SB_FREE_BLOCKS_HI);
  }

  method SealSuper(g: Geometry, sb: Buffer) returns (r: Buffer)
    requires |sb| >= 1024
    ensures |r| == |sb| && SuperSealed(g, r)
    ensures forall k :: 0 <= k < SB_CHECKSUM ==> r[k] == sb[k]
  {
    r := sb;
    if g.metaCsum {
      r := PutLe32(sb, SB_CHECKSUM, Crc32c(0xFFFF_FFFF, sb[..SB_CHECKSUM]));
      assert r[..SB_CHECKSUM] == sb[..SB_CHECKSUM];
    }
  }

  // -------------------------------------------------------- descriptor fields

  datatype Field = FreeBlocksField | FreeInodesField | UsedDirsField | BlockCsumField | InodeCsumField | UnusedField

  function FieldLo(f: Field): nat {
    match f
    case FreeBlocksField => GD_FREE_BLOCKS_LO
    case FreeInodesField => GD_FREE_INODES_LO
    case UsedDirsField => GD_USED_DIRS_LO
    case BlockCsumField => GD_BLOCK_BITMAP_CSUM_LO
    case InodeCsumField => GD_INODE_BITMAP_CSUM_LO
    case UnusedField => GD_ITABLE_UNUSED_LO
  }

  function FieldHi(f: Field): nat {
    match f
    case FreeBlocksField => GD_FREE_BLOCKS_HI
    case FreeInodesField => GD_FREE_INODES_HI
    case UsedDirsField => GD_USED_DIRS_HI
    case BlockCsumField => GD_BLOCK_BITMAP_CSUM_HI
    case InodeCsumField => GD_INODE_BITMAP_CSUM_HI
    case UnusedField => GD_ITABLE_UNUSED_HI
  }

  function WithField(v: DescView, f: Field, x: nat): DescView {
    match f
    case FreeBlocksField => v.(freeBlocks := x)
    case FreeInodesField => v.(freeInodes := x)
    case UsedDirsField => v.(usedDirs := x)
    case BlockCsumField => v.(blockCsum := x)
    case InodeCsumField => v.(inodeCsum := x)
    case UnusedField => v.(itableUnused := x)
  }

  lemma Wide16Same(g: Geometry, d: Buffer, r: Buffer, lo: nat, hi: nat)
    requires DescSized(g, d) && DescSized(g, r) && lo + 2 <= 32 && hi + 2 <= 64
    requires d[lo] == r[lo] && d[lo + 1] == r[lo + 1]
    requires g.has64 ==> d[hi] == r[hi] && d[hi + 1] == r[hi + 1]
    ensures Wide16(g, d, lo, hi) == Wide16(g, r, lo, hi)
  {
  }

  lemma Wide32Same(g: Geometry, d: Buffer, r: Buffer, lo: nat, hi: nat)
    requires DescSized(g, d) && DescSized(g, r) && lo + 4 <= 32 && hi + 4 <= 64
    requires d[lo] == r[lo] && d[lo + 1] == r[lo + 1] && d[lo + 2] == r[lo + 2] && d[lo + 3] == r[lo + 3]
    requires g.has64 ==> d[hi] == r[hi] && d[hi + 1] == r[hi + 1] && d[hi + 2] == r[hi + 2] && d[hi + 3] == r[hi + 3]
    ensures Wide32(g, d, lo, hi) == Wide32(g, r, lo, hi)
  {
  }

  method PutField(g: Geometry, d: Buffer, f: Field, v: nat) returns (r: Buffer)
    requires DescSized(g, d) && v < U32 && (!g.has64 ==> v < U16)
    ensures DescSized(g, r) && View(g, r) == WithField(View(g, d), f, v)
  {
    r := PutWide16(g, d, FieldLo(f), FieldHi(f), v);
    PointersSame(g, d, r);
    FieldsSame(g, d, r, f);
  }

  lemma PointersSame(g: Geometry, d: Buffer, r: Buffer)
    requires DescSized(g, d) && DescSized(g, r)
    requires forall k :: 0 <= k < 0x0C ==> d[k] == r[k]
    requires g.has64 ==> forall k :: 0x20 <= k < 0x2C ==> d[k] == r[k]
    ensures View(g, r).blockBitmap == View(g, d).blockBitmap
    ensures View(g, r).inodeBitmap == View(g, d).inodeBitmap
    ensures View(g, r).inodeTable == View(g, d).inodeTable
  {
    Wide32Same(g, d, r, GD_BLOCK_BITMAP_LO, GD_BLOCK_BITMAP_HI);
    Wide32Same(g, d, r, GD_INODE_BITMAP_LO, GD_INODE_BITMAP_HI);
    Wide32Same(g, d, r, GD_INODE_TABLE_LO, GD_INODE_TABLE_HI);
  }

  lemma FieldsSame(g: Geometry, d: Buffer, r: Buffer, f: Field)
    requires DescSized(g, d) && DescSized(g, r)
    requires forall k ::
               0 <= k < |d| && !(FieldLo(f) <= k < FieldLo(f) + 2) && !(FieldHi(f) <= k < FieldHi(f) + 2) ==>
                 r[k] == d[k]
    ensures forall h: Field :: h != f ==> Wide16(g, d, FieldLo(h), FieldHi(h)) == Wide16(g, r, FieldLo(h), FieldHi(h))
  {
    forall h: Field | h != f ensures Wide16(g, d, FieldLo(h), FieldHi(h)) == Wide16(g, r, FieldLo(h), FieldHi(h)) {
      Wide16Same(g, d, r, FieldLo(h), FieldHi(h));
    }
  }

  lemma SealView(g: Geometry, d: Buffer, r: Buffer)
    requires DescSized(g, d) && DescSized(g, r)
    requires forall k :: 0 <= k < |d| && !(GD_CHECKSUM <= k < GD_CHECKSUM + 2) ==> r[k] == d[k]
    ensures View(g, r) == View(g, d)
  {
    PointersSame(g, d, r);
    Wide16Same(g, d, r, GD_FREE_BLOCKS_LO, GD_FREE_BLOCKS_HI);
    Wide16Same(g, d, r, GD_FREE_INODES_LO, GD_FREE_INODES_HI);
    Wide16Same(g, d, r, GD_USED_DIRS_LO, GD_USED_DIRS_HI);
    Wide16Same(g, d, r, GD_BLOCK_BITMAP_CSUM_LO, GD_BLOCK_BITMAP_CSUM_HI);
    Wide16Same(g, d, r, GD_INODE_BITMAP_CSUM_LO, GD_INODE_BITMAP_CSUM_HI);
    Wide16Same(g, d, r, GD_ITABLE_UNUSED_LO, GD_ITABLE_UNUSED_HI);
  }

  /** A change to a group's counters, as `commit_alloc` takes it. */
  datatype Change = Change(
    dblk: int, dino: int, ddir: int, blockCsum: Option<nat>, inodeCsum: Option<nat>, unused: Option<nat>)

  predicate Countable(g: Geometry, n: int) { 0 <= n < U32 && (!g.has64 ==> n < U16) }

  ghost predicate Applicable(g: Geometry, v: DescView, c: Change) {
    && Countable(g, v.freeBlocks + c.dblk) && Countable(g, v.freeInodes + c.dino) && Countable(g, v.usedDirs + c.ddir)
    && (c.blockCsum.Some? ==> c.blockCsum.value < U32)
    && (c.inodeCsum.Some? ==> c.inodeCsum.value < U32)
    && (c.unused.Some? ==> c.unused.value < U16)
  }

  ghost function Applied(g: Geometry, v: DescView, c: Change): DescView
    requires Applicable(g, v, c)
  {
    v.(freeBlocks := v.freeBlocks + c.dblk, freeInodes := v.freeInodes + c.dino, usedDirs := v.usedDirs + c.ddir,
       blockCsum := if c.blockCsum.Some? then Cut(g, c.blockCsum.value) else v.blockCsum,
       inodeCsum := if c.inodeCsum.Some? then Cut(g, c.inodeCsum.value) else v.inodeCsum,
       itableUnused := if c.unused.Some? then c.unused.value else v.itableUnused)
  }

  ghost function FieldOf(v: DescView, f: Field): nat {
    match f
    case FreeBlocksField => v.freeBlocks
    case FreeInodesField => v.freeInodes
    case UsedDirsField => v.usedDirs
    case BlockCsumField => v.blockCsum
    case InodeCsumField => v.inodeCsum
    case UnusedField => v.itableUnused
  }

  method GetField(g: Geometry, d: Buffer, f: Field) returns (v: nat)
    requires DescSized(g, d)
    ensures v == FieldOf(View(g, d), f)
  {
    v := Wide16(g, d, FieldLo(f), FieldHi(f));
  }

  method PatchCounts(g: Geometry, d: Buffer, c: Change) returns (r: Buffer)
    requires DescSized(g, d) && Applicable(g, View(g, d), c)
    ensures DescSized(g, r)
    ensures View(g, r) == Applied(g, View(g, d), c.(blockCsum := None, inodeCsum := None, unused := None))
  {
    var fb := GetField(g, d, FreeBlocksField);
    r := PutField(g, d, FreeBlocksField, fb + c.dblk);
    var fi := GetField(g, r, FreeInodesField);
    r := PutField(g, r, FreeInodesField, fi + c.dino);
    if c.ddir != 0 {
      var ud := GetField(g, r, UsedDirsField);
      r := PutField(g, r, UsedDirsField, ud + c.ddir);
    }
  }

  method PatchDesc(g: Geometry, d: Buffer, c: Change) returns (r: Buffer)
    requires DescSized(g, d) && Applicable(g, View(g, d), c)
    ensures DescSized(g, r) && View(g, r) == Applied(g, View(g, d), c)
  {
    r := PatchCounts(g, d, c);
    if c.blockCsum.Some? {
      r := PutField(g, r, BlockCsumField, Cut(g, c.blockCsum.value));
    }
    if c.inodeCsum.Some? {
      r := PutField(g, r, InodeCsumField, Cut(g, c.inodeCsum.value));
    }
    if c.unused.Some? {
      r := PutField(g, r, UnusedField, c.unused.value);
    }
  }

  /** `after` is `before` with descriptor `i` showing `v` and the superblock rewritten. */
  ghost predicate Restamped(g: Geometry, l: Layout, before: Disk, after: Disk, i: nat, v: DescView)
    requires Mounted(g, l, before) && i < g.groups
  {
    && Mounted(g, l, after) && |after| == |before|
    && (forall b :: 0 <= b < |before| && b != l.gdBlock[i] && b != Super(g) ==> after[b] == before[b])
    && (forall j :: 0 <= j < g.groups && j != i ==> Desc(g, l, after, j) == Desc(g, l, before, j))
    && GroupView(g, l, after, i) == v && DescSealed(g, i, Desc(g, l, after, i))
  }

  lemma RestampedStored(g: Geometry, l: Layout, before: Disk, i: nat, d: Buffer, sb: Buffer)
    requires Mounted(g, l, before) && i < g.groups && DescSized(g, d) && DescSealed(g, i, d) && |sb| == g.bs
    ensures var mid := before[l.gdBlock[i] := Splice(before[l.gdBlock[i]], l.gdOff[i], d)];
            Restamped(g, l, before, mid[Super(g) := sb], i, View(g, d))
  {
    var mid := before[l.gdBlock[i] := Splice(before[l.gdBlock[i]], l.gdOff[i], d)];
    var after := mid[Super(g) := sb];
    forall j | 0 <= j < g.groups
      ensures Mounted(g, l, after) && Desc(g, l, after, j) == if i == j then d else Desc(g, l, before, j)
    {
      DescStored(g, l, before, i, d, j);
      RolesApart(g, l, j, j);
      DescElsewhere(g, l, mid, Super(g), sb, j);
    }
  }

  /** Marking a bit touches no descriptor. */
  lemma PointersAfterMark(g: Geometry, l: Layout, disk: Disk, i: nat, bm: nat, blk: Buffer)
    requires Mounted(g, l, disk) && Pointers(g, l, disk) && i < g.groups && bm in {l.bb[i], l.ib[i]} && |blk| == g.bs
    ensures Mounted(g, l, disk[bm := blk]) && Pointers(g, l, disk[bm := blk])
    ensures forall j :: 0 <= j < g.groups ==> Desc(g, l, disk[bm := blk], j) == Desc(g, l, disk, j)
  {
    forall j | 0 <= j < g.groups
      ensures Mounted(g, l, disk[bm := blk]) && Desc(g, l, disk[bm := blk], j) == Desc(g, l, disk, j)
    {
      RolesApart(g, l, i, j);
      DescElsewhere(g, l, disk, bm, blk, j);
    }
    forall j | 0 <= j < g.groups ensures GroupView(g, l, disk[bm := blk], j) == GroupView(g, l, disk, j) { }
  }

  // --------------------------------------------------- what callers rely on

  /** A free block the allocator still refuses. */
  ghost predicate ReservedBlock(g: Geometry, l: Layout, b: nat)
    requires GeometryOk(g) && LayoutOk(g, l)
  {
    g.firstData <= b < g.total && (GroupInRange(g, b); Reserved(g, l, GroupOf(g, b), b))
  }

  /** Block `b` was free, is not metadata, and is the one block that is no longer free. */
  ghost predicate BlockGone(g: Geometry, l: Layout, before: Disk, after: Disk, b: nat)
    requires GeometryOk(g) && LayoutOk(g, l)
  {
    && Free(g, l, before, b) && b !in l.roles && !ReservedBlock(g, l, b)
    && forall x :: Free(g, l, after, x) <==> Free(g, l, before, x) && x != b
  }

  ghost predicate NoBlockLeft(g: Geometry, l: Layout, disk: Disk)
    requires GeometryOk(g) && LayoutOk(g, l)
  {
    forall b :: Free(g, l, disk, b) ==> ReservedBlock(g, l, b)
  }

  /** A block that can be handed out. */
  ghost predicate Spare(g: Geometry, l: Layout, disk: Disk, b: nat)
    requires GeometryOk(g) && LayoutOk(g, l)
  {
    Free(g, l, disk, b) && !ReservedBlock(g, l, b)
  }

  /** The block that is handed out next. */
  ghost predicate Least(g: Geometry, l: Layout, disk: Disk, b: nat)
    requires GeometryOk(g) && LayoutOk(g, l)
  {
    Spare(g, l, disk, b) && forall x: nat :: Spare(g, l, disk, x) ==> b <= x
  }

  /** Among blocks of the volume, the refused ones are metadata or withheld, and the withheld ones
      are refused. */
  lemma RefusedIs(g: Geometry, l: Layout, b: nat)
    requires GeometryOk(g) && LayoutOk(g, l) && g.firstData <= b < g.total
    ensures ReservedBlock(g, l, b) ==> b in l.roles || Withheld(g, b)
    ensures Withheld(g, b) ==> ReservedBlock(g, l, b)
  {
    hide LayoutOk, Reserved, RecBlock, GeometryOk;
    GroupInRange(g, b);
    FirstGroup(g, b);
    LayoutSizes(g, l);
    var i := GroupOf(g, b);
    ReservedExact(g, l, i, b);
    if i == 0 && b <= LastDesc(g) { DescRole(g, l, b); }
    if b == l.bb[i] || b == l.ib[i] { TableRole(g, l, i, 0); }
    if k: nat :| k < g.ipg && b == RecBlock(g.bs, g.inodeSize, l.it[i], k) { TableRole(g, l, i, k); }
  }

  lemma FirstGroup(g: Geometry, b: nat)
    requires GeometryOk(g) && g.firstData <= b < g.total
    ensures GroupOf(g, b) == 0 <==> b < g.firstData + g.bpg
    ensures g.bs > 0 && g.groups > 0 && g.ipg > 0
  {
  }

  /** A free block can be handed out unless it is withheld. */
  lemma SpareExact(g: Geometry, l: Layout, disk: Disk, b: nat)
    requires Mounted(g, l, disk) && MetaInUse(g, l, disk)
    ensures Spare(g, l, disk, b) <==> Free(g, l, disk, b) && !Withheld(g, b)
  {
    hide LayoutOk, DiskOk, ReservedBlock, Withheld;
    if Free(g, l, disk, b) {
      FreeRange(g, l, disk, b);
      RefusedIs(g, l, b);
    }
  }

  lemma OnlyWithheld(g: Geometry, l: Layout, disk: Disk)
    requires Mounted(g, l, disk) && MetaInUse(g, l, disk) && NoBlockLeft(g, l, disk)
    ensures forall b: nat :: Free(g, l, disk, b) ==> Withheld(g, b)
  {
    hide LayoutOk, DiskOk, ReservedBlock, Withheld, Free;
    forall b: nat | Free(g, l, disk, b) ensures Withheld(g, b) { SpareExact(g, l, disk, b); }
  }

  lemma LeastIs(g: Geometry, l: Layout, disk: Disk, b: nat)
    requires Mounted(g, l, disk) && MetaInUse(g, l, disk) && Least(g, l, disk, b)
    ensures Free(g, l, disk, b) && !Withheld(g, b)
    ensures forall x: nat :: Free(g, l, disk, x) && !Withheld(g, x) ==> b <= x
  {
    hide LayoutOk, DiskOk, ReservedBlock, Withheld, Free;
    SpareExact(g, l, disk, b);
    forall x: nat | Free(g, l, disk, x) && !Withheld(g, x) ensures b <= x { SpareExact(g, l, disk, x); }
  }

  lemma FreeRange(g: Geometry, l: Layout, disk: Disk, b: nat)
    requires Mounted(g, l, disk) && Free(g, l, disk, b)
    ensures g.firstData <= b < g.total
  {
  }

  ghost predicate OnlyOne(g: Geometry, l: Layout, disk: Disk, b: nat)
    requires GeometryOk(g) && LayoutOk(g, l)
  {
    forall x: nat :: Spare(g, l, disk, x) ==> x == b
  }

  lemma SameLeft(g: Geometry, l: Layout, before: Disk, after: Disk)
    requires GeometryOk(g) && LayoutOk(g, l) && SameFreeBlocks(g, l, before, after)
    ensures NoBlockLeft(g, l, after) <==> NoBlockLeft(g, l, before)
  {
    hide Free, ReservedBlock, GeometryOk, LayoutOk;
  }

  /** The block that is handed out next once those in `taken` are gone. */
  ghost predicate LeastBut(g: Geometry, l: Layout, disk: Disk, taken: set<nat>, b: nat)
    requires GeometryOk(g) && LayoutOk(g, l)
  {
    && Spare(g, l, disk, b) && b !in taken
    && forall x: nat :: Spare(g, l, disk, x) && x !in taken ==> b <= x
  }

  ghost predicate OnlyBut(g: Geometry, l: Layout, disk: Disk, taken: set<nat>, b: nat)
    requires GeometryOk(g) && LayoutOk(g, l)
  {
    forall x: nat :: Spare(g, l, disk, x) && x !in taken ==> x == b
  }

  /** The blocks in `taken`, and no others, are no longer free. */
  ghost predicate TookBlocks(g: Geometry, l: Layout, before: Disk, after: Disk, taken: set<nat>) {
    forall b: nat :: Free(g, l, after, b) <==> Free(g, l, before, b) && b !in taken
  }

  lemma LastBlockGone(g: Geometry, l: Layout, before: Disk, after: Disk, b: nat)
    requires GeometryOk(g) && LayoutOk(g, l) && BlockGone(g, l, before, after, b)
    ensures NoBlockLeft(g, l, after) <==> OnlyOne(g, l, before, b)
    ensures !NoBlockLeft(g, l, before)
  {
    hide Free, ReservedBlock, GeometryOk, LayoutOk;
    if NoBlockLeft(g, l, after) {
      forall x: nat | Spare(g, l, before, x) ensures x == b { assert Free(g, l, after, x) <==> x != b; }
    }
    if OnlyOne(g, l, before, b) {
      forall x: nat | Free(g, l, after, x) ensures ReservedBlock(g, l, x) { assert Spare(g, l, before, x) ==> x == b; }
    }
  }

  ghost predicate SameFreeInodes(g: Geometry, l: Layout, before: Disk, after: Disk) {
    forall i :: FreeInode(g, l, after, i) <==> FreeInode(g, l, before, i)
  }

  ghost predicate SameFreeBlocks(g: Geometry, l: Layout, before: Disk, after: Disk) {
    forall b :: Free(g, l, after, b) <==> Free(g, l, before, b)
  }

  /** Inode `ino` was free and is the one inode that is no longer free. */
  ghost predicate InodeGone(g: Geometry, l: Layout, before: Disk, after: Disk, ino: nat) {
    && FreeInode(g, l, before, ino)
    && forall x :: FreeInode(g, l, after, x) <==> FreeInode(g, l, before, x) && x != ino
  }

  /** Inode tables and all blocks that are not metadata keep their bytes. */
  ghost predicate OutsideKept(l: Layout, before: Disk, after: Disk) {
    && |after| == |before|
    && forall b :: 0 <= b < |before| && (b in l.roles ==> l.roles[b].InodeTable?) ==> after[b] == before[b]
  }

  lemma BlockTakenGone(g: Geometry, l: Layout, before: Disk, after: Disk, i: nat, idx: nat, fsb: nat)
    requires Mounted(g, l, before) && MetaInUse(g, l, before) && BlockTaken(g, l, before, after, i, idx)
    requires fsb == GroupStart(g, i) + idx && !Reserved(g, l, i, fsb)
    ensures BlockGone(g, l, before, after, fsb)
    ensures SameFreeInodes(g, l, before, after)
  {
    hide FreeInode;
    GroupOfBit(g, i, idx);
    forall b ensures Free(g, l, after, b) <==> Free(g, l, before, b) && b != fsb {
      FreeAfterBlock(g, l, before, after, i, idx, b);
    }
    forall k ensures FreeInode(g, l, after, k) <==> FreeInode(g, l, before, k) {
      FreeInodeAfterBlock(g, l, before, after, i, idx, k);
    }
  }

  lemma InodeTakenGone(g: Geometry, l: Layout, before: Disk, after: Disk, i: nat, idx: nat, ino: nat)
    requires Mounted(g, l, before) && InodeTaken(g, l, before, after, i, idx) && ino == InoNumber(g, i, idx)
    ensures InodeGone(g, l, before, after, ino)
    ensures SameFreeBlocks(g, l, before, after)
  {
    InodeOfBit(g, i, idx);
    InodeNumberInRange(g, i, idx);
    forall k ensures FreeInode(g, l, after, k) <==> FreeInode(g, l, before, k) && k != ino {
      FreeInodeAfterInode(g, l, before, after, i, idx, k);
    }
    forall b ensures Free(g, l, after, b) <==> Free(g, l, before, b) {
      FreeAfterInode(g, l, before, after, i, idx, b);
    }
  }

  lemma InodeNumberInRange(g: Geometry, i: nat, idx: nat)
    requires GeometryOk(g) && i < g.groups && idx < g.ipg
    ensures InoNumber(g, i, idx) <= g.inodes
  {
    TimesStrict(i, g.groups, g.ipg);
  }

  lemma CommitsOutsideKept(g: Geometry, l: Layout, before: Disk, after: Disk, bm: nat, i: nat)
    requires Mounted(g, l, before) && Commits(g, l, before, after, bm, i)
    ensures OutsideKept(l, before, after)
  {
    assert GroupPlaced(g, l, i);
  }

  /** Marking a block bit, then restamping the group with the new count and checksum, takes
      the block. */
  lemma MarkedBlockTaken(g: Geometry, l: Layout, before: Disk, after: Disk, i: nat, idx: nat, c: Change)
    requires Mounted(g, l, before) && Pointers(g, l, before) && i < g.groups
    requires idx < GroupBlocks(g, i) && !Bit(before[l.bb[i]], idx) && GroupView(g, l, before, i).freeBlocks > 0
    requires var marked := before[l.bb[i] := SetBit(before[l.bb[i]], idx)];
             && Mounted(g, l, marked) && Applicable(g, GroupView(g, l, marked, i), c)
             && Restamped(g, l, marked, after, i, Applied(g, GroupView(g, l, marked, i), c))
             && c == Change(-1, 0, 0, c.blockCsum, None, None) && c.blockCsum.Some?
             && (g.metaCsum ==> c.blockCsum.value == Crc32c(g.seed, marked[l.bb[i]][..g.bpg / 8]))
    ensures BlockTaken(g, l, before, after, i, idx)
  {
    var marked := before[l.bb[i] := SetBit(before[l.bb[i]], idx)];
    PointersAfterMark(g, l, before, i, l.bb[i], marked[l.bb[i]]);
    RolesApart(g, l, i, i);
    assert Desc(g, l, marked, i) == Desc(g, l, before, i);
    assert after[l.bb[i]] == marked[l.bb[i]];
  }

  lemma ClearBitsCounted(g: Geometry, l: Layout, disk: Disk, i: nat, idx: nat)
    requires Mounted(g, l, disk) && i < g.groups && GroupCounted(g, l, disk, i)
    ensures idx < GroupBlocks(g, i) && !Bit(disk[l.bb[i]], idx) ==> GroupView(g, l, disk, i).freeBlocks > 0
    ensures idx < g.ipg && !Bit(disk[l.ib[i]], idx) ==> GroupView(g, l, disk, i).freeInodes > 0
    ensures GroupView(g, l, disk, i).freeBlocks < U16 && GroupView(g, l, disk, i).freeInodes < U16
  {
    if idx < GroupBlocks(g, i) && !Bit(disk[l.bb[i]], idx) {
      ClearCountPositive(disk[l.bb[i]], idx, GroupBlocks(g, i));
    }
    if idx < g.ipg && !Bit(disk[l.ib[i]], idx) {
      ClearCountPositive(disk[l.ib[i]], idx, g.ipg);
    }
    ClearCountBound(disk[l.bb[i]], GroupBlocks(g, i));
    ClearCountBound(disk[l.ib[i]], g.ipg);
  }

  lemma SumsBound(g: Geometry, l: Layout, disk: Disk, i: nat)
    requires Mounted(g, l, disk) && i < g.groups
    ensures GroupView(g, l, disk, i).freeBlocks <= Sum(BlockCounts(Views(g, l, disk)))
    ensures GroupView(g, l, disk, i).freeInodes <= Sum(InodeCounts(Views(g, l, disk)))
  {
    CountsUpdate(Views(g, l, disk), i, Views(g, l, disk)[i]);
  }

  /** The counters of a consistent volume fit the fields they are stored in, and a clear bit
      is counted both by its group and by the superblock. */
  lemma CountersFit(g: Geometry, l: Layout, disk: Disk, fb: nat, fi: nat, i: nat, idx: nat)
    requires Consistent(g, l, disk, fb, fi) && i < g.groups
    ensures GroupView(g, l, disk, i).freeBlocks < U16 && GroupView(g, l, disk, i).freeInodes < U16
    ensures fb < U64 && (!g.has64 ==> fb < U32) && fi < U32
    ensures idx < GroupBlocks(g, i) && !Bit(disk[l.bb[i]], idx) ==> 0 < GroupView(g, l, disk, i).freeBlocks <= fb
    ensures idx < g.ipg && !Bit(disk[l.ib[i]], idx) ==> 0 < GroupView(g, l, disk, i).freeInodes <= fi
  {
    assert Sound(g, l, disk, fb, fi, i);
    ClearBitsCounted(g, l, disk, i, idx);
    SumsBound(g, l, disk, i);
  }

  function BlockChange(csum: nat): Change { Change(-1, 0, 0, Some(csum), None, None) }

  /** After the bit is marked the group's counters can still be updated. */
  lemma BlockMarked(g: Geometry, l: Layout, before: Disk, fb: nat, fi: nat, i: nat, idx: nat)
    requires Consistent(g, l, before, fb, fi) && i < g.groups
    requires idx < GroupBlocks(g, i) && !Bit(before[l.bb[i]], idx)
    ensures var marked := before[l.bb[i] := SetBit(before[l.bb[i]], idx)];
            && Mounted(g, l, marked) && Pointers(g, l, marked)
            && GroupView(g, l, marked, i) == GroupView(g, l, before, i)
            && GroupView(g, l, before, i).freeBlocks > 0
            && CountableView(g, GroupView(g, l, before, i))
            && fb > 0 && fb < U64 && (!g.has64 ==> fb < U32) && fi < U32
  {
    CountersFit(g, l, before, fb, fi, i, idx);
    assert Sound(g, l, before, fb, fi, i);
    PointersAfterMark(g, l, before, i, l.bb[i], SetBit(before[l.bb[i]], idx));
    ViewCountable(g, Desc(g, l, before, i));
  }

  ghost predicate CountableView(g: Geometry, v: DescView) {
    Countable(g, v.freeBlocks) && Countable(g, v.freeInodes) && Countable(g, v.usedDirs)
  }

  lemma ViewCountable(g: Geometry, d: Buffer)
    requires DescSized(g, d)
    ensures CountableView(g, View(g, d))
  {
  }

  lemma BlockApplicable(g: Geometry, v: DescView, csum: nat)
    requires CountableView(g, v) && v.freeBlocks > 0 && csum < U32
    ensures Applicable(g, v, BlockChange(csum))
  {
  }

  /** The whole allocation, from the mark to the superblock. */
  lemma BlockCommitted(g: Geometry, l: Layout, before: Disk, marked: Disk, after: Disk, i: nat, idx: nat, csum: nat,
                       fb: nat, left: nat, fi: nat, fsb: nat)
    requires Consistent(g, l, before, fb, fi) && i < g.groups && csum < U32 && fb == left + 1
    requires idx < GroupBlocks(g, i) && !Bit(before[l.bb[i]], idx) && GroupView(g, l, before, i).freeBlocks > 0
    requires fsb == GroupStart(g, i) + idx && !Reserved(g, l, i, fsb)
    requires marked == before[l.bb[i] := SetBit(before[l.bb[i]], idx)]
    requires Mounted(g, l, marked) && Applicable(g, GroupView(g, l, marked, i), BlockChange(csum))
    requires Restamped(g, l, marked, after, i, Applied(g, GroupView(g, l, marked, i), BlockChange(csum)))
    requires g.metaCsum ==> csum == Crc32c(g.seed, marked[l.bb[i]][..g.bpg / 8])
    requires SuperFreeBlocks(g, after[Super(g)]) == left && Le32(after[Super(g)], SB_FREE_INODES) == fi
    requires SuperSealed(g, after[Super(g)])
    ensures Consistent(g, l, after, left, fi)
    ensures BlockGone(g, l, before, after, fsb)
    ensures SameFreeInodes(g, l, before, after)
    ensures OutsideKept(l, before, after)
  {
    assert Sound(g, l, before, fb, fi, i);
    MarkedBlockTaken(g, l, before, after, i, idx, BlockChange(csum));
    BlockTakenGone(g, l, before, after, i, idx, fsb);
    BlockTakenConsistent(g, l, before, after, i, idx, fb, left, fi);
    CommitsOutsideKept(g, l, before, after, l.bb[i], i);
  }

  // ------------------------------------------- the same steps for an inode

  function InodeChange(dirs: nat, csum: nat, unused: nat): Change { Change(0, -1, dirs, None, Some(csum),
                       Some(unused)) }

  lemma InodeMarked(g: Geometry, l: Layout, before: Disk, fb: nat, fi: nat, i: nat, idx: nat)
    requires Consistent(g, l, before, fb, fi) && i < g.groups
    requires idx < g.ipg && !Bit(before[l.ib[i]], idx)
    ensures Mounted(g, l, before) && Pointers(g, l, before)
    ensures var marked := before[l.ib[i] := SetBit(before[l.ib[i]], idx)];
            && Mounted(g, l, marked) && Pointers(g, l, marked)
            && GroupView(g, l, marked, i) == GroupView(g, l, before, i)
            && GroupView(g, l, before, i).freeInodes > 0
            && GroupView(g, l, before, i).usedDirs < g.ipg && GroupView(g, l, before, i).itableUnused <= g.ipg
            && CountableView(g, GroupView(g, l, before, i))
            && fi > 0 && fb < U64 && (!g.has64 ==> fb < U32) && fi < U32 && g.ipg < U16
  {
    CountersFit(g, l, before, fb, fi, i, idx);
    assert Sound(g, l, before, fb, fi, i);
    PointersAfterMark(g, l, before, i, l.ib[i], SetBit(before[l.ib[i]], idx));
    ViewCountable(g, Desc(g, l, before, i));
  }

  lemma InodeApplicable(g: Geometry, v: DescView, dirs: nat, csum: nat, unused: nat)
    requires CountableView(g, v) && v.freeInodes > 0 && csum < U32 && unused < U16
    requires dirs <= 1 && v.usedDirs + 1 < U16
    ensures Applicable(g, v, InodeChange(dirs, csum, unused))
  {
  }

  lemma MarkedInodeTaken(g: Geometry, l: Layout, before: Disk, marked: Disk, after: Disk, i: nat, idx: nat, c: Change)
    requires Mounted(g, l, before) && Pointers(g, l, before) && i < g.groups
    requires idx < g.ipg && !Bit(before[l.ib[i]], idx) && GroupView(g, l, before, i).freeInodes > 0
    requires marked == before[l.ib[i] := SetBit(before[l.ib[i]], idx)]
    requires Mounted(g, l, marked) && Applicable(g, GroupView(g, l, marked, i), c)
    requires Restamped(g, l, marked, after, i, Applied(g, GroupView(g, l, marked, i), c))
    requires c.inodeCsum.Some? && c == InodeChange(if c.ddir == 0 then 0 else 1, c.inodeCsum.value,
        Min(GroupView(g, l, marked, i).itableUnused, g.ipg - idx - 1))
    requires g.metaCsum ==> c.inodeCsum.value == Crc32c(g.seed, marked[l.ib[i]][..g.ipg / 8])
    ensures InodeTaken(g, l, before, after, i, idx)
  {
    PointersAfterMark(g, l, before, i, l.ib[i], marked[l.ib[i]]);
    RolesApart(g, l, i, i);
    assert Desc(g, l, marked, i) == Desc(g, l, before, i);
    assert after[l.ib[i]] == marked[l.ib[i]];
  }

  /** What taking inode `idx` of group `i` does to the counts that no bitmap fixes: directories,
      and the inodes at the table's end that were never used. */
  ghost predicate TailCounted(g: Geometry, l: Layout, before: Disk, after: Disk, i: nat, idx: nat, dirs: nat)
    requires Mounted(g, l, before) && Mounted(g, l, after)
  {
    forall j :: 0 <= j < g.groups ==>
      var v, w := GroupView(g, l, before, j), GroupView(g, l, after, j);
      if j == i then w.usedDirs == v.usedDirs + dirs && w.itableUnused == Min(v.itableUnused, g.ipg - idx - 1)
      else w.usedDirs == v.usedDirs && w.itableUnused == v.itableUnused
  }

  lemma InodeCounted(g: Geometry, l: Layout, before: Disk, marked: Disk, after: Disk, i: nat, idx: nat, dirs: nat,
                     csum: nat, unused: nat)
    requires Mounted(g, l, before) && Pointers(g, l, before) && i < g.groups && idx < g.ipg
    requires marked == before[l.ib[i] := SetBit(before[l.ib[i]], idx)]
    requires Mounted(g, l, marked) && Applicable(g, GroupView(g, l, marked, i), InodeChange(dirs, csum, unused))
    requires Restamped(g, l, marked, after, i, Applied(g, GroupView(g, l, marked, i), InodeChange(dirs, csum, unused)))
    requires unused == Min(GroupView(g, l, marked, i).itableUnused, g.ipg - idx - 1)
    ensures Mounted(g, l, after) && TailCounted(g, l, before, after, i, idx, dirs)
  {
    PointersAfterMark(g, l, before, i, l.ib[i], marked[l.ib[i]]);
    forall j | 0 <= j < g.groups ensures GroupView(g, l, marked, j) == GroupView(g, l, before, j) { }
  }

  lemma InodeCommitted(g: Geometry, l: Layout, before: Disk, marked: Disk, after: Disk, i: nat, idx: nat,
                       dirs: nat, csum: nat, unused: nat, fb: nat, fi: nat, left: nat, ino: nat)
    requires Consistent(g, l, before, fb, fi) && i < g.groups && csum < U32 && fi == left + 1 && dirs <= 1
    requires idx < g.ipg && !Bit(before[l.ib[i]], idx) && GroupView(g, l, before, i).freeInodes > 0
    requires ino == InoNumber(g, i, idx)
    requires marked == before[l.ib[i] := SetBit(before[l.ib[i]], idx)]
    requires Mounted(g, l, marked) && Applicable(g, GroupView(g, l, marked, i), InodeChange(dirs, csum, unused))
    requires Restamped(g, l, marked, after, i, Applied(g, GroupView(g, l, marked, i), InodeChange(dirs, csum, unused)))
    requires unused == Min(GroupView(g, l, marked, i).itableUnused, g.ipg - idx - 1)
    requires g.metaCsum ==> csum == Crc32c(g.seed, marked[l.ib[i]][..g.ipg / 8])
    requires SuperFreeBlocks(g, after[Super(g)]) == fb && Le32(after[Super(g)], SB_FREE_INODES) == left
    requires SuperSealed(g, after[Super(g)])
    ensures Consistent(g, l, after, fb, left)
    ensures InodeGone(g, l, before, after, ino)
    ensures SameFreeBlocks(g, l, before, after)
    ensures OutsideKept(l, before, after)
  {
    assert Sound(g, l, before, fb, fi, i);
    MarkedInodeTaken(g, l, before, marked, after, i, idx, InodeChange(dirs, csum, unused));
    InodeTakenGone(g, l, before, after, i, idx, ino);
    InodeTakenConsistent(g, l, before, after, i, idx, fb, fi, left);
    CommitsOutsideKept(g, l, before, after, l.ib[i], i);
  }

  ghost predicate NoInodeLeft(g: Geometry, l: Layout, disk: Disk) {
    forall ino :: !FreeInode(g, l, disk, ino)
  }
}
