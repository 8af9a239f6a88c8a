/** The mounted ext4 volume and the operations of the driver on it. */
module Filesystem {
  import opened Arith
  import opened Bytes
  import opened Bitmap
  import opened Crc
  import opened Volume
  import opened Allocator
  import opened Frame
  import opened Extents
  import opened ExtentTree
  import opened TreeGrowth
  import opened OwnedTree
  import opened Inodes
  import opened Files
  import opened Directory
  import opened DirFiles
  import opened Creation

  class Ext4 {
    const g: Geometry
    ghost const l: Layout
    var disk: Disk
    var freeBlocks: nat
    var freeInodes: nat

    ghost predicate Valid()
      reads this
    {
      Consistent(g, l, disk, freeBlocks, freeInodes)
    }

    constructor (g: Geometry, ghost l: Layout, disk: Disk, freeBlocks: nat, freeInodes: nat)
      requires Consistent(g, l, disk, freeBlocks, freeInodes)
      ensures Valid() && this.g == g && this.l == l && this.disk == disk
    {
      this.g := g;
      this.l := l;
      this.disk := disk;
      this.freeBlocks := freeBlocks;
      this.freeInodes := freeInodes;
    }

    // ------------------------------------------------------------ primitives

    /** Block access. The precondition is that the block is on the device, so every caller
        shows that it never leaves it. */
    method ReadFsb(fsb: nat) returns (buf: Buffer)
      requires fsb < |disk|
      ensures buf == disk[fsb]
    {
      buf := disk[fsb];
    }

    method WriteFsb(fsb: nat, buf: Buffer)
      requires fsb < |disk|
      modifies this`disk
      ensures disk == old(disk)[fsb := buf]
    {
      disk := disk[fsb := buf];
    }

    method GroupDescriptor(group: nat) returns (d: Buffer)
      requires Mounted(g, l, disk) && group < g.groups
      ensures d == Desc(g, l, disk, group)
    {
      var block, off := GroupAddress(group);
      var buf := ReadFsb(block);
      d := buf[off..off + g.descSize];
    }

    method GroupAddress(group: nat) returns (block: nat, off: nat)
      requires GeometryOk(g) && LayoutOk(g, l) && group < g.groups
      ensures block == l.gdBlock[group] && off == l.gdOff[group]
    {
      assert GroupPlaced(g, l, group);
      block, off := RecordAddress(g.bs, g.descSize, g.gdt, group);
    }

    method PushGroup(group: nat, d: Buffer)
      requires Mounted(g, l, disk) && group < g.groups && |d| == g.descSize
      modifies this`disk
      ensures disk == old(disk)[l.gdBlock[group] := Splice(old(disk)[l.gdBlock[group]], l.gdOff[group], d)]
    {
      var block, off := GroupAddress(group);
      var buf := ReadFsb(block);
      WriteFsb(block, Splice(buf, off, d));
    }

    // ------------------------------------------------------------ allocation

    /** The group a block number belongs to, by division. */
    method BlockGroup(fsb: nat, ghost i: nat, ghost idx: nat) returns (group: nat)
      requires fsb == GroupStart(g, i) + idx && idx < g.bpg
      ensures group == i
    {
      group := (fsb - g.firstData) / g.bpg;
      QuotIsQuotient(fsb - g.firstData, g.bpg);
      GroupOfBit(g, i, idx);
    }

    method BlockNumber(group: nat, idx: nat) returns (fsb: nat)
      ensures fsb == GroupStart(g, group) + idx
    {
      fsb := g.firstData + group * g.bpg + idx;
      TimesIsProduct(group, g.bpg);
    }

    method InodeNumber(group: nat, idx: nat) returns (ino: nat)
      ensures ino == InoNumber(g, group, idx)
    {
      ino := group * g.ipg + idx + 1;
      TimesIsProduct(group, g.ipg);
    }

    method ReadBitmap(group: nat, wantInode: bool) returns (fsb: nat)
      requires Mounted(g, l, disk) && Pointers(g, l, disk) && group < g.groups
      ensures fsb == BitmapBlock(wantInode, group)
    {
      var d := GroupDescriptor(group);
      assert View(g, d) == GroupView(g, l, disk, group);
      if wantInode {
        fsb := Wide32(g, d, GD_INODE_BITMAP_LO, GD_INODE_BITMAP_HI);
      } else {
        fsb := Wide32(g, d, GD_BLOCK_BITMAP_LO, GD_BLOCK_BITMAP_HI);
      }
    }

    method BlockReserved(group: nat, fsb: nat) returns (r: bool)
      requires Mounted(g, l, disk) && Pointers(g, l, disk) && group < g.groups
      ensures r <==> Reserved(g, l, group, fsb)
      ensures r <==>
                || (group == 0 && fsb <= LastDesc(g) + g.reservedGdt)
                || fsb == l.bb[group] || fsb == l.ib[group]
                || exists k: nat :: k < g.ipg && fsb == RecBlock(g.bs, g.inodeSize, l.it[group], k)
    {
      ReservedExact(g, l, group, fsb);
      if group == 0 {
        if fsb < ReservedEnd(g) { return true; }
      }
      var d := GroupDescriptor(group);
      assert View(g, d) == GroupView(g, l, disk, group);
      var bb := Wide32(g, d, GD_BLOCK_BITMAP_LO, GD_BLOCK_BITMAP_HI);
      var ib := Wide32(g, d, GD_INODE_BITMAP_LO, GD_INODE_BITMAP_HI);
      var it := Wide32(g, d, GD_INODE_TABLE_LO, GD_INODE_TABLE_HI);
      r := fsb == bb || fsb == ib || (it <= fsb < it + TableBlocks(g));
    }

    function Units(wantInode: bool): nat { if wantInode then g.ipg else g.bpg }

    ghost function BitmapBlock(wantInode: bool, group: nat): nat
      requires group < |l.ib| == |l.bb|
    {
      if wantInode then l.ib[group] else l.bb[group]
    }

    /** The number `alloc_bit` returns for a unit. */
    function UnitNumber(wantInode: bool, group: nat, idx: nat): nat {
      if wantInode then InoNumber(g, group, idx) else GroupStart(g, group) + idx
    }

    /** A unit `alloc_bit` cannot hand out. */
    ghost predicate Taken(d: Disk, wantInode: bool, group: nat, idx: nat)
      requires Mounted(g, l, d) && group < g.groups && idx < Units(wantInode)
    {
      || Bit(d[BitmapBlock(wantInode, group)], idx)
      || (!wantInode && (UnitNumber(false, group, idx) >= g.total
           || Reserved(g, l, group, UnitNumber(false, group, idx))))
    }

    ghost predicate AllTaken(d: Disk, wantInode: bool, group: nat, n: nat)
      requires Mounted(g, l, d) && group < g.groups && n <= Units(wantInode)
    {
      forall k :: 0 <= k < n ==> Taken(d, wantInode, group, k)
    }

    lemma AllTakenStep(d: Disk, wantInode: bool, group: nat, n: nat)
      requires Mounted(g, l, d) && group < g.groups && n < Units(wantInode)
      requires AllTaken(d, wantInode, group, n) && Taken(d, wantInode, group, n)
      ensures AllTaken(d, wantInode, group, n + 1)
    {
    }

    /** Scans one byte of a group's bitmap that is known not to be all ones. */
    method ScanByte(wantInode: bool, gr: nat, bm: Buffer, at: nat) returns (found: bool, idx: nat)
      requires Mounted(g, l, disk) && Pointers(g, l, disk) && gr < g.groups
      requires bm == disk[BitmapBlock(wantInode, gr)] && at < |bm| && 8 * at + 8 <= Units(wantInode)
      requires AllTaken(disk, wantInode, gr, 8 * at)
      ensures found ==> idx < Units(wantInode) && !Taken(disk, wantInode, gr, idx) && AllTaken(disk, wantInode, gr, idx)
      ensures !found ==> AllTaken(disk, wantInode, gr, 8 * at + 8)
    {
      hide Pointers, Reserved, LayoutOk;
      var bit := 0;
      while bit < 8
        invariant 0 <= bit <= 8
        invariant AllTaken(disk, wantInode, gr, 8 * at + bit)
      {
        BitInByte(bm, at, bit);
        idx := at * 8 + bit;
        if !TestBit(bm[at], bit) {
          if wantInode { return true, idx; }
          var fsb := BlockNumber(gr, idx);
          if fsb < g.total {
            var reserved := BlockReserved(gr, fsb);
            if !reserved { return true, idx; }
          }
        }
        AllTakenStep(disk, wantInode, gr, idx);
        bit := bit + 1;
      }
      return false, 0;
    }

    /** Scans the bitmap of one group. */
    method ScanGroup(wantInode: bool, gr: nat) returns (found: bool, idx: nat)
      requires Mounted(g, l, disk) && Pointers(g, l, disk) && gr < g.groups
      ensures found ==> idx < Units(wantInode) && !Taken(disk, wantInode, gr, idx) && AllTaken(disk, wantInode, gr, idx)
      ensures !found ==> AllTaken(disk, wantInode, gr, Units(wantInode))
    {
      var bitmapBytes := Units(wantInode) / 8;
      var bitmapFsb := ReadBitmap(gr, wantInode);
      var bm := ReadFsb(bitmapFsb);
      var at := 0;
      while at < bitmapBytes
        invariant 0 <= at <= bitmapBytes
        invariant AllTaken(disk, wantInode, gr, 8 * at)
      {
        if bm[at] == 0xFF {
          forall k | 8 * at <= k < 8 * at + 8 ensures Taken(disk, wantInode, gr, k) { FullByte(bm, at, k); }
        } else {
          found, idx := ScanByte(wantInode, gr, bm, at);
          if found { return; }
        }
        at := at + 1;
      }
      return false, 0;
    }

    /** Marks the first unit that can be handed out, or reports that there is none. */
    method AllocBit(wantInode: bool) returns (r: Result<nat>, ghost group: nat, ghost idx: nat)
      requires Mounted(g, l, disk) && Pointers(g, l, disk)
      modifies this`disk
      ensures r.Ok? ==>
                && group < g.groups && idx < Units(wantInode) && !Taken(old(disk), wantInode, group, idx)
                && (forall i :: 0 <= i < group ==> AllTaken(old(disk), wantInode, i, Units(wantInode)))
                     && AllTaken(old(disk), wantInode, group, idx)
                && r.value == UnitNumber(wantInode, group, idx)
                && var bm := BitmapBlock(wantInode, group);
                   disk == old(disk)[bm := SetBit(old(disk)[bm], idx)]
      ensures r.Err? ==>
                && r.error == NoSpace && disk == old(disk)
                && forall i :: 0 <= i < g.groups ==> AllTaken(disk, wantInode, i, Units(wantInode))
    {
      var gr := 0;
      while gr < g.groups
        invariant 0 <= gr <= g.groups && disk == old(disk)
        invariant forall i :: 0 <= i < gr ==> AllTaken(disk, wantInode, i, Units(wantInode))
      {
        var found, i := ScanGroup(wantInode, gr);
        if found {
          var bitmapFsb := ReadBitmap(gr, wantInode);
          var bm := ReadFsb(bitmapFsb);
          WriteFsb(bitmapFsb, SetBit(bm, i));
          var unit;
          if wantInode { unit := InodeNumber(gr, i); } else { unit := BlockNumber(gr, i); }
          return Ok(unit), gr, i;
        }
        gr := gr + 1;
      }
      return Err(NoSpace), 0, 0;
    }

    method PersistSuperCounts(dblk: int, dino: int)
      requires Mounted(g, l, disk) && 0 <= freeBlocks + dblk < U64 && 0 <= freeInodes + dino < U32
      requires !g.has64 ==> freeBlocks + dblk < U32
      modifies this
      ensures freeBlocks == old(freeBlocks) + dblk && freeInodes == old(freeInodes) + dino
      ensures |disk| == |old(disk)| && |disk[Super(g)]| == g.bs && disk == old(disk)[Super(g) := disk[Super(g)]]
      ensures SuperFreeBlocks(g, disk[Super(g)]) == freeBlocks && Le32(disk[Super(g)], SB_FREE_INODES) == freeInodes
      ensures SuperSealed(g, disk[Super(g)])
    {
      freeBlocks := freeBlocks + dblk;
      freeInodes := freeInodes + dino;
      var sb := ReadFsb(Super(g));
      sb := PutSuperCounts(g, sb, freeBlocks, freeInodes);
      WriteFsb(Super(g), sb);
    }

    /** Rewrites one descriptor and the superblock after an allocation. */
    method CommitAlloc(group: nat, c: Change)
      requires Mounted(g, l, disk) && group < g.groups && Applicable(g, GroupView(g, l, disk, group), c)
      requires 0 <= freeBlocks + c.dblk < U64 && 0 <= freeInodes + c.dino < U32
      requires !g.has64 ==> freeBlocks + c.dblk < U32
      modifies this
      ensures Restamped(g, l, old(disk), disk, group, Applied(g, old(GroupView(g, l, disk, group)), c))
      ensures freeBlocks == old(freeBlocks) + c.dblk && freeInodes == old(freeInodes) + c.dino
      ensures SuperFreeBlocks(g, disk[Super(g)]) == freeBlocks && Le32(disk[Super(g)], SB_FREE_INODES) == freeInodes
      ensures SuperSealed(g, disk[Super(g)])
    {
      var d := GroupDescriptor(group);
      var patched := PatchDesc(g, d, c);
      var local := SealDesc(g, group, patched);
      SealView(g, patched, local);
      PushGroup(group, local);
      DescStored(g, l, old(disk), group, local, group);
      PersistSuperCounts(c.dblk, c.dino);
      RestampedStored(g, l, old(disk), group, local, disk[Super(g)]);
    }

    /** The checksum of a group's bitmap as it is on disk, or zero without checksums. */
    method BitmapCsum(group: nat, wantInode: bool) returns (c: nat)
      requires Mounted(g, l, disk) && Pointers(g, l, disk) && group < g.groups
      ensures c < U32
      ensures Units(wantInode) / 8 <= |disk[BitmapBlock(wantInode, group)]|
      ensures g.metaCsum ==> c == Crc32c(g.seed, disk[BitmapBlock(wantInode, group)][..Units(wantInode) / 8])
    {
      var bmFsb := ReadBitmap(group, wantInode);
      var bm := ReadFsb(bmFsb);
      c := if g.metaCsum then Crc32c(g.seed, bm[..Units(wantInode) / 8]) else 0;
    }

    lemma NoneAllocatable(d: Disk)
      requires Mounted(g, l, d)
      requires forall i :: 0 <= i < g.groups ==> AllTaken(d, false, i, Units(false))
      ensures NoBlockLeft(g, l, d)
    {
      forall b | Free(g, l, d, b) ensures ReservedBlock(g, l, b) { TakenBlock(d, b); }
    }

    lemma TakenBlock(d: Disk, b: nat)
      requires Mounted(g, l, d) && Free(g, l, d, b)
      requires forall i :: 0 <= i < g.groups ==> AllTaken(d, false, i, Units(false))
      ensures ReservedBlock(g, l, b)
    {
      GroupInRange(g, b);
      assert AllTaken(d, false, GroupOf(g, b), Units(false));
      assert Taken(d, false, GroupOf(g, b), BitOf(g, b));
    }

    /** Brings the counters and checksums in line with a block bit that was just marked. */
    method SettleBlock(fsb: nat, ghost before: Disk, ghost i: nat, ghost idx: nat)
      requires Consistent(g, l, before, freeBlocks, freeInodes) && i < g.groups && idx < GroupBlocks(g, i)
      requires fsb == GroupStart(g, i) + idx && !Reserved(g, l, i, fsb)
      requires !Bit(before[l.bb[i]], idx) && disk == before[l.bb[i] := SetBit(before[l.bb[i]], idx)]
      modifies this
      ensures Consistent(g, l, disk, freeBlocks, freeInodes)
      ensures freeBlocks == old(freeBlocks) - 1 && freeInodes == old(freeInodes)
      ensures OutsideKept(l, before, disk) && SameFreeInodes(g, l, before, disk)
      ensures BlockGone(g, l, before, disk, fsb)
    {
      hide Consistent, Restamped, OutsideKept, SameFreeInodes, BlockGone, Mounted, Pointers, Bit, SetBit;
      BlockMarked(g, l, before, freeBlocks, freeInodes, i, idx);
      var group := BlockGroup(fsb, i, idx);
      var bb := BitmapCsum(group, false);
      BlockApplicable(g, GroupView(g, l, disk, i), bb);
      CommitAlloc(group, BlockChange(bb));
      BlockCommitted(g, l, before, old(disk), disk, i, idx, bb, old(freeBlocks), freeBlocks, freeInodes, fsb);
    }

    method AllocBlock() returns (r: Result<nat>)
      requires Valid()
      modifies this
      ensures Valid() && OutsideKept(l, old(disk), disk) && freeInodes == old(freeInodes)
      ensures SameFreeInodes(g, l, old(disk), disk)
      ensures r.Ok? ==> BlockGone(g, l, old(disk), disk, r.value) && freeBlocks == old(freeBlocks) - 1
      ensures r.Ok? ==> Least(g, l, old(disk), r.value)
      ensures r.Err? ==> r.error == NoSpace && disk == old(disk) && freeBlocks == old(freeBlocks)
      ensures r.Err? ==> NoBlockLeft(g, l, disk)
      ensures r.Err? <==> forall b: nat :: Free(g, l, old(disk), b) ==> Withheld(g, b)
      ensures r.Ok? ==> !Withheld(g, r.value) && forall b: nat ::
                Free(g, l, old(disk), b) && !Withheld(g, b) ==> r.value <= b
    {
      assert Sound(g, l, disk, freeBlocks, freeInodes, 0);
      ghost var i, idx;
      r, i, idx := AllocBit(false);
      if r.Err? {
        NoneAllocatable(disk);
        OnlyWithheld(g, l, disk);
        return;
      }
      SettleBlock(r.value, old(disk), i, idx);
      LeastTaken(old(disk), i, idx, r.value);
      LeastIs(g, l, old(disk), r.value);
    }

    lemma LeastTaken(d: Disk, i: nat, idx: nat, b: nat)
      requires Mounted(g, l, d) && i < g.groups && idx < Units(false) && b == UnitNumber(false, i, idx)
      requires Spare(g, l, d, b)
      requires AllTaken(d, false, i, idx) && forall j :: 0 <= j < i ==> AllTaken(d, false, j, Units(false))
      ensures Least(g, l, d, b)
    {
      hide LayoutOk, AllTaken, Taken, ReservedBlock;
      forall x: nat | Spare(g, l, d, x) ensures b <= x { if x < b { TakenBelow(d, i, idx, x); } }
    }

    lemma TakenBelow(d: Disk, i: nat, idx: nat, x: nat)
      requires Mounted(g, l, d) && i < g.groups && idx < Units(false) && Free(g, l, d, x)
      requires x < UnitNumber(false, i, idx)
      requires AllTaken(d, false, i, idx) && forall j :: 0 <= j < i ==> AllTaken(d, false, j, Units(false))
      ensures ReservedBlock(g, l, x)
    {
      GroupInRange(g, x);
      var j, k := GroupOf(g, x), BitOf(g, x);
      if j > i {
        TimesStrict(i, j, g.bpg);
        assert false;
      }
      assert AllTaken(d, false, j, if j < i then Units(false) else idx);
      assert Taken(d, false, j, k);
    }

    lemma NoInodeAllocatable(d: Disk)
      requires Mounted(g, l, d)
      requires forall i :: 0 <= i < g.groups ==> AllTaken(d, true, i, Units(true))
      ensures NoInodeLeft(g, l, d)
    {
      forall ino ensures !FreeInode(g, l, d, ino) { TakenInode(d, ino); }
    }

    lemma TakenInode(d: Disk, ino: nat)
      requires Mounted(g, l, d)
      requires forall i :: 0 <= i < g.groups ==> AllTaken(d, true, i, Units(true))
      ensures !FreeInode(g, l, d, ino)
    {
      if 1 <= ino <= g.inodes {
        InodeInRange(g, ino);
        assert AllTaken(d, true, InoGroup(g, ino), Units(true));
        assert Taken(d, true, InoGroup(g, ino), InoIndex(g, ino));
      }
    }

    method InodeGroup(ino: nat, ghost i: nat, ghost idx: nat) returns (group: nat, index: nat)
      requires ino == InoNumber(g, i, idx) && idx < g.ipg
      ensures group == i && index == idx
    {
      group, index := (ino - 1) / g.ipg, (ino - 1) % g.ipg;
      QuotIsQuotient(ino - 1, g.ipg);
      InodeOfBit(g, i, idx);
    }

    method ItableUnused(group: nat) returns (n: nat)
      requires Mounted(g, l, disk) && group < g.groups
      ensures n == GroupView(g, l, disk, group).itableUnused
    {
      var d := GroupDescriptor(group);
      n := GetField(g, d, UnusedField);
    }

    /** Brings the counters and checksums in line with an inode bit that was just marked. */
    method SettleInode(ino: nat, isDir: bool, ghost before: Disk, ghost i: nat, ghost idx: nat)
      requires Consistent(g, l, before, freeBlocks, freeInodes) && i < g.groups && idx < g.ipg
      requires ino == InoNumber(g, i, idx)
      requires !Bit(before[l.ib[i]], idx) && disk == before[l.ib[i] := SetBit(before[l.ib[i]], idx)]
      modifies this
      ensures Consistent(g, l, disk, freeBlocks, freeInodes)
      ensures freeBlocks == old(freeBlocks) && freeInodes == old(freeInodes) - 1
      ensures OutsideKept(l, before, disk) && SameFreeBlocks(g, l, before, disk)
      ensures InodeGone(g, l, before, disk, ino)
      ensures Mounted(g, l, before) && Mounted(g, l, disk) && TailCounted(g, l, before, disk, i, idx, if isDir then 1
          else 0)
    {
      hide TailCounted, Consistent, Restamped, OutsideKept, SameFreeBlocks, InodeGone, Mounted, Pointers, Bit, SetBit;
      InodeMarked(g, l, before, freeBlocks, freeInodes, i, idx);
      var group, index := InodeGroup(ino, i, idx);
      var ib := BitmapCsum(group, true);
      var current := ItableUnused(group);
      var unused := Min(current, g.ipg - index - 1);
      var dirs := if isDir then 1 else 0;
      InodeApplicable(g, GroupView(g, l, disk, i), dirs, ib, unused);
      CommitAlloc(group, InodeChange(dirs, ib, unused));
      InodeCommitted(g, l, before, old(disk), disk, i, idx, dirs, ib, unused, freeBlocks, old(freeInodes), freeInodes,
          ino);
      InodeCounted(g, l, before, old(disk), disk, i, idx, dirs, ib, unused);
    }

    method AllocInode(isDir: bool) returns (r: Result<nat>)
      requires Valid()
      modifies this
      ensures Valid() && OutsideKept(l, old(disk), disk) && freeBlocks == old(freeBlocks)
      ensures SameFreeBlocks(g, l, old(disk), disk)
      ensures r.Ok? ==> InodeGone(g, l, old(disk), disk, r.value) && freeInodes == old(freeInodes) - 1
      ensures r.Ok? ==> r.value > 0 && Mounted(g, l, old(disk)) && Mounted(g, l, disk)
                        && TailCounted(g, l, old(disk), disk, InoGroup(g, r.value), InoIndex(g, r.value), if isDir
                             then 1 else 0)
      ensures r.Err? ==> r.error == NoSpace && disk == old(disk) && freeInodes == old(freeInodes)
      ensures r.Err? ==> NoInodeLeft(g, l, disk)
    {
      assert Sound(g, l, disk, freeBlocks, freeInodes, 0);
      ghost var i, idx;
      r, i, idx := AllocBit(true);
      if r.Err? {
        NoInodeAllocatable(disk);
        return;
      }
      SettleInode(r.value, isDir, old(disk), i, idx);
      InodeOfBit(g, i, idx);
    }

    // --------------------------------------------------------------- extents

    /** Writes a block that holds no allocator metadata. */
    method WriteOwn(b: nat, buf: Buffer)
      requires Valid() && b < |disk| && Payload(l, b) && |buf| == g.bs
      modifies this`disk
      ensures Valid() && disk == old(disk)[b := buf] && Kept(g, l, old(disk), disk, {b})
      ensures SameFreeBlocks(g, l, old(disk), disk)
    {
      WriteKept(g, l, disk, freeBlocks, freeInodes, b, buf);
      WriteFsb(b, buf);
    }

    /** Puts the block into the last leaf if it has room. */
    method PlaceInLeaf(ino: nat, raw: Buffer, lb: nat, pb: nat) returns (done: bool)
      requires Valid() && TreeOk(g, ino, raw, disk) && TreeOwned(g, l, raw, disk) && |Kids(raw)| > 0
      requires lb !in FileMap(raw, disk) && lb + 1 < U32 && pb < MAX_PBLOCK
      modifies this`disk
      ensures Valid() && Kept(g, l, old(disk), disk, KidBlocks(raw))
      ensures done <==> Extends(TreeExtents(raw, old(disk)), lb, pb) || !LastFull(g, raw, old(disk))
      ensures !done ==> disk == old(disk)
      ensures done ==> Placed(g, ino, TreeExtents(raw, old(disk)), raw, disk, lb, pb)
    {
      hide Placed, FileMap, TreeOk, TreeLoose, TreeOwned, TreeExtents, KeptBlocks, Inserted, Overlong, Extends, Kids,
        RdHdr, RdExtent, RdIndex, Free, SameFreeInodes;
      Mounts(g, l, disk, freeBlocks, freeInodes);
      TailFits(g);
      TreeRoot(g, ino, raw, disk);
      LastLeaf(g, l, ino, raw, disk);
      RootHeader(raw);
      KeptSame(g, l, disk, KidBlocks(raw));
      ExtendsLast(g, ino, raw, disk, lb, pb);
      var leaf := RdIndex(raw, IBLOCK, RdHdr(raw, IBLOCK).value.entries - 1).value.child;
      var blk := ReadFsb(leaf);
      var c;
      done, c := LeafInsert(blk, 0, lb, pb);
      if done {
        c := SealLeaf(g, ino, Gen(raw), c);
        WriteOwn(leaf, c);
        KeptMore(g, l, old(disk), disk, {leaf}, KidBlocks(raw));
        PlacedInLeaf(g, ino, raw, old(disk), leaf, c, lb, pb);
      }
    }

    /** Splits the full last leaf: its upper half moves to a block that was free. */
    method SplitLeaf(ino: nat, raw: Buffer) returns (r: Result<Index>)
      requires Valid() && TreeOk(g, ino, raw, disk) && TreeOwned(g, l, raw, disk) && LastFull(g, raw, disk)
      modifies this
      ensures Valid() && Kept(g, l, old(disk), disk, KidBlocks(raw))
      ensures freeInodes == old(freeInodes)
      ensures r.Ok? <==> !NoBlockLeft(g, l, old(disk))
      ensures r.Err? ==> r.error == NoSpace && disk == old(disk)
      ensures r.Ok? ==> Free(g, l, old(disk), r.value.child) && Owned(g, l, disk, r.value.child)
      ensures r.Ok? ==> Halved(g, ino, Gen(raw), old(disk), disk, Kids(raw), LeafMax(g) / 2, r.value.child)
      ensures r.Ok? ==> r.value.lb == LeafAt(old(disk), Kids(raw)[|Kids(raw)| - 1].child)[LeafMax(g) / 2].lb < U32
    {
      hide TreeOk, TreeLoose, TreeOwned, TreeExtents, KeptBlocks, Kids, RdHdr, RdExtent, RdIndex, Free, SameFreeInodes;
      Mounts(g, l, disk, freeBlocks, freeInodes);
      TailFits(g);
      TreeRoot(g, ino, raw, disk);
      LastLeaf(g, l, ino, raw, disk);
      LastLeafSorted(g, ino, raw, disk);
      RootHeader(raw);
      var leaf := RdIndex(raw, IBLOCK, RdHdr(raw, IBLOCK).value.entries - 1).value.child;
      var blk := ReadFsb(leaf);
      var fsb := AllocBlock();
      if fsb.Err? {
        KeptSame(g, l, disk, KidBlocks(raw));
        return Err(fsb.error);
      }
      TreeAllocated(g, l, ino, raw, old(disk), disk, fsb.value);
      var lo, hi, first := HalveLeaf(g, ino, Gen(raw), blk);
      ghost var mid := disk;
      KeptMore(g, l, old(disk), mid, {}, KidBlocks(raw));
      WriteOwn(leaf, lo);
      KeptTrans(g, l, old(disk), mid, disk, KidBlocks(raw), {leaf});
      ghost var low := disk;
      WriteOwn(fsb.value, hi);
      KeptTrans(g, l, old(disk), low, disk, KidBlocks(raw), {fsb.value});
      HalvesStored(g, ino, raw, old(disk), mid, leaf, fsb.value, lo, hi, LeafMax(g) / 2);
      return Ok(Index(first, fsb.value));
    }

    /** One attempt to put the block into the last leaf. Without room the leaf is split and
        the attempt reports `false`, unless there is no block for the split or the root
        cannot take another child; in the second case the moved records are lost. */
    method PlaceInRightmostLeaf(ino: nat, raw: Buffer, lb: nat, pb: nat) returns (r: Result<bool>, out: Buffer)
      requires Valid() && TreeOk(g, ino, raw, disk) && TreeOwned(g, l, raw, disk) && |Kids(raw)| > 0
      requires lb !in FileMap(raw, disk) && lb + 1 < U32 && pb < MAX_PBLOCK
      modifies this
      ensures Valid() && Kept(g, l, old(disk), disk, KidBlocks(raw)) && freeInodes == old(freeInodes)
      ensures RootOnly(raw, out)
      ensures r == Ok(true) <==> Room(g, raw, old(disk), lb, pb)
      ensures r.Err? <==> !Room(g, raw, old(disk), lb, pb) && (NoBlockLeft(g, l, old(disk)) || |Kids(raw)| == ROOT_MAX)
      ensures r == Ok(true) ==> out == raw && Placed(g, ino, TreeExtents(raw, old(disk)), out, disk, lb, pb)
      ensures r == Ok(false) ==> Resplit(g, l, ino, raw, out, old(disk), disk)
      ensures r.Err? ==> r.error == NoSpace && out == raw && TreeOk(g, ino, out, disk)
      ensures r.Err? ==> Spared(g, l, raw, old(disk), disk)
    {
      hide Placed, FileMap, TreeOk, TreeLoose, TreeOwned, TreeExtents, KeptBlocks, SameFreeInodes, Kids, RdHdr,
        RdExtent, RdIndex, Free, NoBlockLeft, Halved, Inserted, Overlong;
      Mounts(g, l, disk, freeBlocks, freeInodes);
      TreeRoot(g, ino, raw, disk);
      RootHeader(raw);
      out := raw;
      var done := PlaceInLeaf(ino, raw, lb, pb);
      if done { return Ok(true), out; }
      var s := SplitLeaf(ino, raw);
      if s.Err? { return Err(s.error), out; }
      if RdHdr(raw, IBLOCK).value.entries >= RdHdr(raw, IBLOCK).value.max {
        SplitLost(g, l, ino, raw, old(disk), disk, s.value.child);
        return Err(NoSpace), out;
      }
      out := AddKid(raw, s.value);
      SplitKept(g, l, ino, raw, out, old(disk), disk, s.value);
      return Ok(false), out;
    }

    /** Moves the inode's own records out to a leaf. */
    method Deepen(ino: nat, raw: Buffer) returns (r: Result<()>, out: Buffer)
      requires Valid() && |raw| == INODE_BUF && TreeOk(g, ino, raw, disk) && RdHdr(raw, IBLOCK).Some?
      requires RdHdr(raw, IBLOCK).value.depth == 0 && RdHdr(raw, IBLOCK).value.entries == ROOT_MAX
      modifies this
      ensures Valid() && Kept(g, l, old(disk), disk, {}) && freeInodes == old(freeInodes)
      ensures RootOnly(raw, out)
      ensures r.Ok? <==> !NoBlockLeft(g, l, old(disk))
      ensures r.Err? ==> r.error == NoSpace && disk == old(disk) && out == raw
      ensures r.Ok? ==> Resplit(g, l, ino, raw, out, old(disk), disk)
    {
      hide TreeOk, TreeLoose, TreeExtents, LeafOk, LeafExtents, RdHdr, RdIndex, Kids, KeptBlocks, SameFreeInodes, Free,
        NodeOk, Resplit;
      Mounts(g, l, disk, freeBlocks, freeInodes);
      InlineTree(g, ino, raw, disk);
      out := raw;
      var leaf := AllocBlock();
      if leaf.Err? {
        KeptSame(g, l, disk, {});
        return Err(leaf.error), out;
      }
      OwnedNew(g, l, old(disk), disk, leaf.value);
      AllocKept(g, l, old(disk), disk, leaf.value);
      var blk := MoveOut(g, ino, raw);
      ghost var mid := disk;
      WriteOwn(leaf.value, blk);
      KeptTrans(g, l, old(disk), mid, disk, {}, {leaf.value});
      OwnedKept(g, l, mid, disk, {leaf.value}, leaf.value);
      out := FirstIndex(raw, leaf.value);
      DeepenedTree(g, l, ino, raw, out, old(disk), mid, leaf.value, blk);
      return Ok(()), out;
    }

    /** Puts the block into the inode's own records if they have room, after writing an empty
        header into an inode that has none. */
    method InsertInline(ino: nat, raw: Buffer, lb: nat, pb: nat) returns (done: bool, out: Buffer)
      requires g.bs >= 12 && |raw| == INODE_BUF && TreeOk(g, ino, raw, disk)
      requires RdHdr(raw, IBLOCK).Some? ==> RdHdr(raw, IBLOCK).value.depth == 0
      requires lb !in FileMap(raw, disk) && lb + 1 < U32 && pb < MAX_PBLOCK
      ensures RootOnly(raw, out) && Kids(raw) == Kids(out) == []
      ensures done <==> Room(g, raw, disk, lb, pb)
      ensures done ==> Placed(g, ino, TreeExtents(raw, disk), out, disk, lb, pb)
      ensures !done ==> out == raw && RdHdr(raw, IBLOCK).Some? && RdHdr(raw, IBLOCK).value.entries == ROOT_MAX
    {
      hide Placed, MapOf, TreeOk, TreeLoose, TreeExtents, LeafOk, LeafExtents, RdHdr, Kids, Inserted, Overlong, Extends;
      out := raw;
      if RdHdr(raw, IBLOCK).None? {
        out := WrHdr(raw, IBLOCK, Header(0, ROOT_MAX, 0));
        HeaderMade(g, ino, raw, out, disk);
      }
      InlineTree(g, ino, out, disk);
      ghost var mid := out;
      done, out := LeafInsert(out, IBLOCK, lb, pb);
      if done { InlineInserted(g, ino, mid, out, disk, lb, pb); }
    }

    /** Inserts at a root without leaves: into the inode, or else by moving its records out so
        that a leaf can take the block. */
    method InsertAtRoot(ino: nat, raw: Buffer, lb: nat, pb: nat) returns (s: Result<bool>, out: Buffer)
      requires Valid() && |raw| == INODE_BUF && TreeOk(g, ino, raw, disk) && TreeOwned(g, l, raw, disk)
      requires RdHdr(raw, IBLOCK).Some? ==> RdHdr(raw, IBLOCK).value.depth == 0
      requires lb !in FileMap(raw, disk) && lb + 1 < U32 && pb < MAX_PBLOCK
      modifies this
      ensures Valid() && freeInodes == old(freeInodes)
      ensures |out| == INODE_BUF && Inserting(g, l, ino, raw, out, old(disk), disk, lb, pb, s)
      ensures s == Ok(false) ==> !LastFull(g, out, disk) && Insertable(g, l, raw, old(disk), lb, pb)
    {
      hide Placed, FileMap, SplitKey, TreeOk, TreeLoose, TreeExtents, RdHdr, Kids, Inserted, Overlong, KeptBlocks,
        SameFreeInodes, Free, NoBlockLeft, LastFull;
      Mounts(g, l, disk, freeBlocks, freeInodes);
      KeptSame(g, l, disk, KidBlocks(raw));
      var done;
      done, out := InsertInline(ino, raw, lb, pb);
      if done { return Ok(true), out; }
      var d;
      d, out := Deepen(ino, raw);
      s := if d.Err? then Err(d.error) else Ok(false);
      KeptMore(g, l, old(disk), disk, {}, KidBlocks(raw));
    }

    /** One more attempt to place the block. The first one may split; any later one, and the
        first one after the inode's records moved out, finds room. */
    method Attempt(ino: nat, ghost raw: Buffer, ghost before: Disk, cur: Buffer, lb: nat, pb: nat)
                   returns (s: Result<bool>, out: Buffer)
      requires Valid() && |raw| == |cur| == INODE_BUF && Inserting(g, l, ino, raw, cur, before, disk, lb, pb, Ok(false))
      requires lb !in FileMap(raw, before) && lb + 1 < U32 && pb < MAX_PBLOCK
      requires if LastFull(g, cur, disk) then cur == raw && disk == before else Insertable(g, l, raw, before, lb, pb)
      modifies this
      ensures Valid() && freeInodes == old(freeInodes)
      ensures |out| == INODE_BUF && Inserting(g, l, ino, raw, out, before, disk, lb, pb, s)
      ensures s == Ok(false) ==>
                LastFull(g, cur, old(disk)) && !LastFull(g, out, disk) && Insertable(g, l, raw, before, lb, pb)
    {
      hide Placed, MapOf, SplitKey, TreeOk, TreeLoose, TreeExtents, RdHdr, Kids, Inserted, Overlong, KeptBlocks,
        SameFreeInodes, Free, NoBlockLeft;
      Mounts(g, l, disk, freeBlocks, freeInodes);
      s, out := PlaceInRightmostLeaf(ino, cur, lb, pb);
      KeptTrans(g, l, before, old(disk), disk, KidBlocks(raw), KidBlocks(cur));
      TreeOwnedKept(g, l, cur, old(disk), disk, KidBlocks(cur));
      if s.Ok? { assert if s.value then out == cur else Resplit(g, l, ino, raw, out, before, disk); }
    }

    /** Maps file block `lb`, which is not mapped yet, to block `pb`. */
    method InsertExtent(ino: nat, raw: Buffer, lb: nat, pb: nat) returns (r: Result<()>, out: Buffer)
      requires Valid() && |raw| == INODE_BUF && TreeOk(g, ino, raw, disk) && TreeOwned(g, l, raw, disk)
      requires lb !in FileMap(raw, disk) && lb + 1 < U32 && pb < MAX_PBLOCK
      modifies this
      ensures Valid() && Kept(g, l, old(disk), disk, KidBlocks(raw)) && freeInodes == old(freeInodes)
      ensures RootOnly(raw, out) && TreeOwned(g, l, out, disk) && NewKids(g, l, old(disk), raw, out)
      ensures Kids(raw) <= Kids(out)
      ensures r.Ok? <==> Insertable(g, l, raw, old(disk), lb, pb)
      ensures r.Ok? ==> Placed(g, ino, TreeExtents(raw, old(disk)), out, disk, lb, pb)
      ensures r.Ok? ==> LastKey(out) == KeyUsed(g, raw, old(disk), lb, pb)
      ensures r.Err? ==>
                r.error == NoSpace && out == raw && TreeOk(g, ino, out, disk) && Spared(g, l, raw, old(disk), disk)
    {
      hide Placed, FileMap, SplitKey, TreeOk, TreeLoose, TreeExtents, RdHdr, Inserted, Overlong, KeptBlocks,
        SameFreeInodes, Free, Spared, NoBlockLeft;
      Mounts(g, l, disk, freeBlocks, freeInodes);
      var s := Ok(false);
      if RdHdr(raw, IBLOCK).None? || RdHdr(raw, IBLOCK).value.depth == 0 {
        s, out := InsertAtRoot(ino, raw, lb, pb);
      } else {
        out := raw;
        TreeRoot(g, ino, raw, disk);
        IndexRoot(raw);
        KeptSame(g, l, disk, KidBlocks(raw));
      }
      var attempt := 0;
      while attempt < 2 && s == Ok(false)
        invariant Valid() && freeInodes == old(freeInodes) && attempt <= 2
        invariant |out| == INODE_BUF && Inserting(g, l, ino, raw, out, old(disk), disk, lb, pb, s)
        invariant s == Ok(false) ==>
                    if LastFull(g, out, disk) then attempt == 0 && out == raw && disk == old(disk)
                    else attempt < 2 && Insertable(g, l, raw, old(disk), lb, pb)
      {
        s, out := Attempt(ino, raw, old(disk), out, lb, pb);
        attempt := attempt + 1;
      }
      r := if s.Err? then Err(s.error) else if s.value then Ok(()) else Err(NoSpace);
    }

    /** Looks a file block up in the leaf that its key selects. */
    method MapInLeaves(raw: Buffer, lb: nat) returns (r: Option<nat>)
      requires TreeReadable(raw, disk) && |Kids(raw)| > 0
      ensures r == Found(raw, disk, lb)
    {
      hide RdIndex, LeafExtents, Kids, FirstCover;
      RootHeader(raw);
      var child := ChooseKid(raw, Kids(raw), lb);
      if child.None? { return None; }
      assert KidReadable(disk, Kids(raw)[ChosenKid(Kids(raw), lb, 0).value].child);
      var blk := ReadFsb(child.value);
      r := LeafLookup(blk, 0, lb);
    }

    /** The physical block of a file block, as the driver finds it. */
    method MapBlock(raw: Buffer, lb: nat) returns (r: Option<nat>)
      requires TreeReadable(raw, disk)
      ensures r == Found(raw, disk, lb)
      ensures TreeLoose(raw, disk) && lb < U32 ==> r == Lookup(FileMap(raw, disk), lb)
    {
      hide KidReadable, TreeLoose, FirstCover, MapOf;
      if TreeLoose(raw, disk) && lb < U32 { FoundLoose(raw, disk, lb); }
      var h := RdHdr(raw, IBLOCK);
      if h.None? { return None; }
      if h.value.depth == 0 {
        r := LeafLookup(raw, IBLOCK, lb);
      } else {
        IndexRoot(raw);
        r := MapInLeaves(raw, lb);
      }
    }

    method NodeSum(raw: Buffer) returns (total: nat)
      requires TreeLoose(raw, disk) && RdHdr(raw, IBLOCK).Some?
      ensures total == SumLen(TreeExtents(raw, disk))
    {
      hide RdIndex, LeafExtents, KidLoose, Kids, Disjoint, Bounded, SumLen;
      var h := RdHdr(raw, IBLOCK).value;
      if h.depth == 0 {
        total := LeafSum(raw, IBLOCK);
        return;
      }
      IndexRoot(raw);
      RootHeader(raw);
      ghost var ls := Leaves(disk, Kids(raw));
      total := 0;
      EmptySum(ls);
      var i := 0;
      while i < h.entries
        invariant 0 <= i <= h.entries && total == SumLen(Concat(ls[..i]))
      {
        KidLeaf(raw, disk, i);
        var blk := ReadFsb(RdIndex(raw, IBLOCK, i).value.child);
        var n := LeafSum(blk, 0);
        ConcatStep(ls, i);
        total := total + n;
        i := i + 1;
      }
      assert ls[..h.entries] == ls;
    }

    /** The number of 512-byte sectors in use is that of the mapped blocks. */
    method RecountBlocks(raw: Buffer) returns (n: nat)
      requires TreeLoose(raw, disk)
      ensures n == Sectors(g, |FileMap(raw, disk)|)
      ensures g.bs % 512 == 0 ==> 512 * n == |FileMap(raw, disk)| * g.bs
    {
      hide Kids, KidLoose, MapOf, SumLen, LeafExtents, Bounded;
      MapOfSize(TreeExtents(raw, disk));
      if g.bs % 512 == 0 { SectorBytes(g, |FileMap(raw, disk)|); }
      if RdHdr(raw, IBLOCK).None? {
        EmptySum([]);
        return 0;
      }
      var total := NodeSum(raw);
      n := Sectors(g, total);
    }

    // ---------------------------------------------------------------- inodes

    method InodeLocation(ino: nat) returns (block: nat, off: nat)
      requires Mounted(g, l, disk) && Pointers(g, l, disk) && 1 <= ino <= g.inodes
      ensures block == InoBlock(g, l, ino) && off == InoOff(g, ino)
    {
      InodeInRange(g, ino);
      var group, index := InodeGroup(ino, InoGroup(g, ino), InoIndex(g, ino));
      var d := GroupDescriptor(group);
      assert View(g, d) == GroupView(g, l, disk, group);
      var table := Wide32(g, d, GD_INODE_TABLE_LO, GD_INODE_TABLE_HI);
      block, off := RecordAddress(g.bs, g.inodeSize, table, index);
    }

    method ReadInode(ino: nat) returns (inode: Inode)
      requires Valid() && 1 <= ino <= g.inodes
      ensures inode == Decoded(g, ino, RawInode(g, l, disk, ino))
    {
      hide Consistent, Pointers, MetaInUse, Decoded;
      Mounts(g, l, disk, freeBlocks, freeInodes);
      var block, off := InodeLocation(ino);
      InodePlaced(g, l, ino);
      var buf := ReadFsb(block);
      inode := Decoded(g, ino, buf[off..off + g.inodeSize] + Zeros(INODE_BUF - g.inodeSize));
    }

    /** Stores the inode with its fields and its checksum. */
    method WriteInode(inode: Inode) returns (out: Inode)
      requires Valid() && 1 <= inode.ino <= g.inodes && |inode.raw| == INODE_BUF
      requires inode.mode < U16 && inode.size < U64 && inode.blocks < U64 && inode.flags < U32
      modifies this`disk
      ensures Valid() && Kept(g, l, old(disk), disk, {InoBlock(g, l, inode.ino)})
      ensures SameFreeBlocks(g, l, old(disk), disk)
      ensures InodesKept(g, l, old(disk), disk, inode.ino)
      ensures |out.raw| == INODE_BUF && FieldsOnly(inode.raw, out.raw) && InodeSealed(g, inode.ino, out.raw)
      ensures RawInode(g, l, disk, inode.ino) == Padded(g, out.raw)
      ensures Decoded(g, inode.ino, out.raw) == inode.(size := Narrow(g, inode.size), blocks := Narrow(g, inode.blocks),
          raw := out.raw)
    {
      hide InodeSealed, Decoded, InodesKept, KeptBlocks, SameFreeInodes, SameFreeBlocks, Consistent, Pointers,
        MetaInUse;
      Mounts(g, l, disk, freeBlocks, freeInodes);
      var block, off := InodeLocation(inode.ino);
      InodePlaced(g, l, inode.ino);
      var buf := ReadFsb(block);
      var raw := EncodeInode(g, inode);
      WriteOwn(block, Splice(buf, off, raw[..g.inodeSize]));
      InodeStored(g, l, old(disk), inode.ino, raw, disk);
      return inode.(raw := raw);
    }

    // ----------------------------------------------------------------- files

    /** Allocates a block and maps file block `lb` to it. */
    method AddBlock(ino: nat, raw: Buffer, lb: nat) returns (r: Result<nat>, out: Buffer)
      requires Valid() && |raw| == INODE_BUF && FileOwned(g, l, ino, raw, disk) && lb + 1 < U32
      requires lb !in FileMap(raw, disk)
      modifies this
      ensures Valid() && freeInodes == old(freeInodes) && Kept(g, l, old(disk), disk, KidBlocks(raw))
      ensures RootOnly(raw, out)
      ensures r.Ok? <==> Growable(g, l, raw, old(disk), lb)
      ensures r.Ok? ==> Added(g, l, ino, raw, out, old(disk), disk, lb, r.value)
      ensures r.Err? ==> r.error == NoSpace && out == raw && Receded(g, l, ino, raw, old(disk), disk)
    {
      hide TreeOk, NoBlockLeft, OnlyOne, TreeOwned, TreeExtents, TreeLoose, Kids, KidBlocks, KeptBlocks, SameFreeInodes,
        MapOf, Free, DataOwned, Least,
        Growable, Insertable, Placed, Added, Spared, KeyUsed;
      Mounts(g, l, disk, freeBlocks, freeInodes);
      var fsb := AllocBlock();
      if fsb.Err? {
        NoGrowth(g, l, raw, disk, lb);
        KeptSame(g, l, disk, KidBlocks(raw));
        return Err(fsb.error), raw;
      }
      TreeAllocated(g, l, ino, raw, old(disk), disk, fsb.value);
      LastBlockGone(g, l, old(disk), disk, fsb.value);
      Foreseen(g, l, raw, old(disk), disk, lb, fsb.value);
      ghost var mid := disk;
      KeptMore(g, l, old(disk), mid, {}, KidBlocks(raw));
      var done;
      done, out := InsertExtent(ino, raw, lb, fsb.value);
      KeptTrans(g, l, old(disk), mid, disk, KidBlocks(raw), KidBlocks(raw));
      if done.Err? {
        SparedPart(g, l, raw, mid, disk);
        return Err(done.error), out;
      }
      BlockPlaced(g, l, ino, raw, out, old(disk), mid, disk, lb, fsb.value);
      return Ok(fsb.value), out;
    }

    /** Writes `data` into file block `lb` from byte `at` on, adding the block if the file does
        not have it. */
    method WriteChunk(ino: nat, raw: Buffer, lb: nat, at: nat, data: Buffer) returns (r: Result<()>, out: Buffer)
      requires Valid() && |raw| == INODE_BUF && FileOwned(g, l, ino, raw, disk) && lb + 1 < U32 && at + |data| <= g.bs
      modifies this
      ensures Valid() && freeInodes == old(freeInodes) && |out| == INODE_BUF
      ensures r.Ok? <==>
                lb in FileMap(raw, old(disk))
                || (Growable(g, l, raw, old(disk), lb) && Findable(g, l, raw, old(disk), lb))
      ensures r.Ok? ==> ChunkDone(g, l, ino, raw, out, old(disk), disk, lb, at, data)
      ensures r.Err? ==> Kept(g, l, old(disk), disk, KidBlocks(raw)) && Refused(g, l, raw, old(disk), lb, r.error)
      ensures r == Err(NoSpace) ==> Receded(g, l, ino, raw, old(disk), disk)
    {
      hide TreeOk, TreeOwned, TreeLoose, TreeReadable, KidBlocks, KeptBlocks, SameFreeInodes, MapOf, Free, Kids,
        TreeExtents, Growable, Findable, Found,
        Added, Receded;
      Mounts(g, l, disk, freeBlocks, freeInodes);
      OkLoose(g, ino, raw, disk);
      LooseReadable(raw, disk);
      var found := MapBlock(raw, lb);
      if found.Some? {
        out := raw;
        var blk := ReadFsb(found.value);
        var fsb := MapBlock(out, lb);
        WriteOwn(fsb.value, Splice(blk, at, data));
        ChunkInPlace(g, l, ino, raw, old(disk), lb, at, data, disk);
        return Ok(()), out;
      }
      var added;
      added, out := AddBlock(ino, raw, lb);
      if added.Err? { return Err(added.error), out; }
      AddedFound(g, l, ino, raw, out, old(disk), disk, lb, added.value);
      AddedReadable(g, l, ino, raw, out, old(disk), disk, lb, added.value);
      var fsb := MapBlock(out, lb);
      if fsb.None? { return Err(Corrupt), out; }
      ghost var mid := disk;
      WriteOwn(fsb.value, Splice(Zeros(g.bs), at, data));
      ChunkAdded(g, l, ino, raw, out, old(disk), mid, disk, lb, added.value, at, data);
      return Ok(()), out;
    }

    /** The block and the offset in it of a byte of a file. */
    method Position(cur: nat) returns (lb: nat, at: nat)
      requires g.bs > 0
      ensures lb == Quot(cur, g.bs) && at == Rem(cur, g.bs) < g.bs
    {
      lb, at := cur / g.bs, cur % g.bs;
      QuotIsQuotient(cur, g.bs);
    }

    /** The loop of a write: block by block, with the inode still in memory. */
    method WriteBlocks(ino: nat, raw: Buffer, offset: nat, buf: Buffer)
                       returns (r: Result<()>, cur: Buffer, ghost stop: Stop)
      requires Valid() && |raw| == INODE_BUF && FileOwned(g, l, ino, raw, disk) && Quot(offset + |buf|, g.bs) + 1 < U32
      requires Appendable(FileMap(raw, disk), Quot(offset, g.bs)) || OneBlock(g, offset, |buf|)
      modifies this
      ensures Valid() && freeInodes == old(freeInodes) && |cur| == INODE_BUF
      ensures r.Ok? ==> Written(g, l, ino, raw, cur, old(disk), disk, offset, |buf|, buf)
      ensures r.Ok? && buf != [] && OneBlock(g, offset, |buf|) ==> !Refuses(g, l, raw, old(disk), Quot(offset, g.bs))
      ensures Kept(g, l, old(disk), disk, Mine(raw, old(disk)))
      ensures r.Err? ==> StopsAt(g, l, ino, raw, old(disk), offset, buf, stop, r.error)
      ensures r.Err? && OneBlock(g, offset, |buf|) ==> stop.done == 0
      ensures r == Err(NoSpace) ==> Remnant(g, l, ino, raw, old(disk), disk, offset, stop.done, buf)
    {
      hide FileOwned, FileLoose, TreeOk, Kids, KidBlocks, KeptBlocks, SameFreeInodes, FileMap, Mine, Quot, Rem, ByteAt,
        Appendable, Free, ChunkDone, Receded,
        Growable, Findable, Remnant, Submap, RootOnly;
      Mounts(g, l, disk, freeBlocks, freeInodes);
      WrittenNothing(g, l, ino, raw, disk, offset, buf);
      cur := raw;
      stop := Stop(0, raw, disk);
      var done := 0;
      while done < |buf|
        invariant Valid() && freeInodes == old(freeInodes) && |cur| == INODE_BUF && 0 <= done <= |buf|
        invariant Written(g, l, ino, raw, cur, old(disk), disk, offset, done, buf)
        invariant done == 0 ==> cur == raw && disk == old(disk)
        invariant OneBlock(g, offset, |buf|) ==>
                    done == 0 || (done == |buf| && !Refuses(g, l, raw, old(disk), Quot(offset, g.bs)))
      {
        var lb, at := Position(offset + done);
        var count := Min(g.bs - at, |buf| - done);
        QuotMonotone(offset + done, offset + |buf|, g.bs);
        ghost var mid := disk;
        ghost var was := cur;
        OwnedLoose(g, l, ino, was, mid);
        r, cur := WriteChunk(ino, cur, lb, at, buf[done..done + count]);
        if r.Err? {
          stop := Stop(done, was, mid);
          KeptMine(g, l, was, mid, disk);
          KeptTrans(g, l, old(disk), mid, disk, Mine(raw, old(disk)), Mine(was, mid));
          if r == Err(NoSpace) { RemnantLeft(g, l, ino, raw, was, old(disk), mid, disk, offset, done, buf); }
          return;
        }
        WrittenStep(g, l, ino, raw, was, cur, old(disk), mid, disk, offset, done, count, buf);
        done := done + count;
      }
      r := Ok(());
    }

    /** Writes `buf` at `offset` of a file. */
    method WriteFile(ino: nat, offset: nat, buf: Buffer) returns (r: Result<()>)
      requires Valid() && 1 <= ino <= g.inodes && FileOwned(g, l, ino, RawInode(g, l, disk, ino), disk)
      requires offset + |buf| < U64 && Quot(offset + |buf|, g.bs) + 1 < U32
      requires Appendable(FileMap(RawInode(g, l, disk, ino), disk), Quot(offset, g.bs)) || OneBlock(g, offset, |buf|)
      modifies this
      ensures Valid() && freeInodes == old(freeInodes) && OthersKept(g, l, ino, old(disk), disk)
      ensures buf == [] ==> r == Ok(()) && disk == old(disk)
      ensures r == Err(Invalid) <==> buf != [] && !IsFile(Le16(RawInode(g, l, old(disk), ino), INO_MODE))
      ensures r == Err(Invalid) ==> disk == old(disk)
      ensures buf != [] && r.Ok? ==> WriteStored(g, l, ino, old(disk), disk, offset, buf)
      ensures r.Err? ==> RawInode(g, l, disk, ino) == RawInode(g, l, old(disk), ino)
      ensures r.Err? ==> r.error == Invalid || WriteStops(g, l, ino, old(disk), disk, offset, buf, r.error)
      ensures buf != [] && OneBlock(g, offset, |buf|) && IsFile(Le16(RawInode(g, l, old(disk), ino), INO_MODE)) ==>
                (r.Err? <==> Refuses(g, l, RawInode(g, l, old(disk), ino), old(disk), Quot(offset, g.bs)))
                && (r.Err? ==> Refused(g, l, RawInode(g, l, old(disk), ino), old(disk), Quot(offset, g.bs), r.error))
      ensures WriteOutcome(g, l, ino, old(disk), disk, offset, buf, r)
      ensures buf != [] && r.Ok? ==> Counted(g, RawInode(g, l, disk, ino), disk)
    {
      hide FileOwned, FileLoose, TreeLoose, KeptBlocks, SameFreeInodes, FileMap, Mine, Quot, Rem, Appendable,
        InodeSealed, InodesKept, RawInode, WriteStored,
        LayoutOk, DiskOk, ByteAt, Consistent, Pointers, MetaInUse, Decoded, Le16, RawSize, GeometryOk, Refused, StopsAt,
            Remnant, Written, WriteStops, OthersKept;
      Mounts(g, l, disk, freeBlocks, freeInodes);
      ghost var raw := RawInode(g, l, disk, ino);
      DecodedFields(g, ino, raw);
      KeptSame(g, l, disk, Mine(raw, disk));
      OwnedLoose(g, l, ino, raw, disk);
      OthersAfterWrite(g, l, ino, raw, disk, disk, disk);
      if buf == [] { return Ok(()); }
      var inode := ReadInode(ino);
      if !IsFile(inode.mode) { return Err(Invalid); }
      var cur;
      ghost var stop;
      r, cur, stop := WriteBlocks(ino, inode.raw, offset, buf);
      ghost var mid := disk;
      Mounts(g, l, disk, freeBlocks, freeInodes);
      OthersAfterWrite(g, l, ino, raw, old(disk), mid, mid);
      if r.Err? {
        StopsThere(g, l, ino, old(disk), disk, offset, buf, r.error, stop);
        return;
      }
      WrittenLoose(g, l, ino, raw, cur, old(disk), disk, offset, buf);
      var blocks := RecountBlocks(cur);
      SectorsFit(g, cur, disk);
      var size := if offset + |buf| > inode.size then offset + |buf| else inode.size;
      var stored := WriteInode(inode.(size := size, blocks := blocks, raw := cur));
      Mounts(g, l, disk, freeBlocks, freeInodes);
      OthersAfterWrite(g, l, ino, raw, old(disk), mid, disk);
      WriteFinished(g, l, ino, raw, cur, stored.raw, old(disk), mid, disk, offset, buf);
      WriteCounted(g, l, ino, old(disk), disk, offset, buf);
    }

    /** Reads the bytes from `cur` on that are in the same block, at most `n`. */
    method ReadChunk(raw: Buffer, cur: nat, n: nat) returns (chunk: Buffer)
      requires Valid() && |raw| == INODE_BUF && FileLoose(g, l, raw, disk) && Quot(cur, g.bs) < U32 && n > 0
      ensures 0 < |chunk| <= n && chunk == Run(g, disk, FileMap(raw, disk), cur, |chunk|)
    {
      hide FileMap, Quot, Rem, TreeOwned, TreeLoose, TreeReadable, Found, Free, Run, KidBlocks;
      Mounts(g, l, disk, freeBlocks, freeInodes);
      LooseReadable(raw, disk);
      var lb, at := Position(cur);
      var count := Min(g.bs - at, n);
      var found := MapBlock(raw, lb);
      RunInBlock(g, disk, FileMap(raw, disk), cur, count);
      if found.Some? {
        var blk := ReadFsb(found.value);
        chunk := blk[at..at + count];
      } else {
        chunk := Zeros(count);
      }
    }

    /** Reads up to `buf.Length` bytes at `offset` of a file. */
    method ReadFile(ino: nat, offset: nat, buf: array<byte>) returns (r: Result<nat>)
      requires Valid() && 1 <= ino <= g.inodes && FileLoose(g, l, RawInode(g, l, disk, ino), disk)
      requires Quot(RawSize(g, RawInode(g, l, disk, ino)), g.bs) < U32
      modifies buf
      ensures r.Err? ==> r.error == Invalid && buf[..] == old(buf[..])
      ensures r.Err? <==> buf.Length > 0 && !IsFile(Le16(RawInode(g, l, disk, ino), INO_MODE))
      ensures r.Ok? ==>
                && r.value == Available(RawSize(g, RawInode(g, l, disk, ino)), offset, buf.Length)
                && buf[..r.value] == FileBytes(g, disk, RawInode(g, l, disk, ino), offset, buf.Length)
                && buf[r.value..] == old(buf[..])[r.value..]
    {
      hide FileLoose, FileMap, Quot, Rem, RawInode, LayoutOk, DiskOk, GeometryOk, Consistent, Pointers, MetaInUse,
        Decoded, RawSize, Le16, Run;
      Mounts(g, l, disk, freeBlocks, freeInodes);
      ghost var raw := RawInode(g, l, disk, ino);
      DecodedFields(g, ino, raw);
      if buf.Length == 0 { return Ok(0); }
      var inode := ReadInode(ino);
      if !IsFile(inode.mode) { return Err(Invalid); }
      if offset >= inode.size { return Ok(0); }
      var take := Min(inode.size - offset, buf.Length);
      ghost var fm := FileMap(raw, disk);
      var done := 0;
      while done < take
        invariant 0 <= done <= take
        invariant buf[..done] == Run(g, disk, fm, offset, done)
        invariant buf[done..] == old(buf[..])[done..]
      {
        QuotMonotone(offset + done, inode.size, g.bs);
        var chunk := ReadChunk(inode.raw, offset + done, take - done);
        RunConcat(g, disk, fm, offset, done, |chunk|);
        TailStep(buf[..], old(buf[..]), done, |chunk|);
        CopyInto(buf, done, chunk);
        done := done + |chunk|;
      }
      return Ok(take);
    }

    // ----------------------------------------------------------- directories

    method BlockCount(size: nat) returns (n: nat)
      requires g.bs > 0
      ensures n == DirCount(g, size)
    {
      n := (size + g.bs - 1) / g.bs;
      QuotIsQuotient(size + g.bs - 1, g.bs);
    }

    /** A directory that the driver can work on. */
    ghost predicate DirReady(d: Disk, dir: nat)
      requires Mounted(g, l, d) && 1 <= dir <= g.inodes
    {
      IsDir(Le16(RawInode(g, l, d, dir), INO_MODE)) ==>
        DirOk(g, l, dir, RawInode(g, l, d, dir), d) && DirCount(g, RawSize(g, RawInode(g, l, d, dir))) + 1 < U32
    }

    /** Searches the first `blocks` blocks of a directory. */
    method SearchBlocks(ghost dir: nat, raw: Buffer, blocks: nat, name: Buffer) returns (r: Option<nat>)
      requires Valid() && |raw| == INODE_BUF && DirOk(g, l, dir, raw, disk) && blocks
          == DirCount(g, RawSize(g, raw)) < U32
      ensures r == Find(AllLinks(g, disk, raw), name)
    {
      hide FileMap, DirCount, DirBlocksOk, DirLinks, BlockLinks, TreeOk, TreeLoose, TreeReadable, TreeOwned, DataOwned,
        Find, Found, Links, Tiled, Consistent,
        Pointers, MetaInUse, LayoutOk, GeometryOk, RawSize, Gen;
      Mounts(g, l, disk, freeBlocks, freeInodes);
      OkLoose(g, dir, raw, disk);
      LooseReadable(raw, disk);
      ghost var fm := FileMap(raw, disk);
      NoLinks(g, disk, fm, name);
      var lb := 0;
      while lb < blocks
        invariant 0 <= lb <= blocks && Find(DirLinks(g, disk, fm, lb), name).None?
      {
        var fsb := MapBlock(raw, lb);
        FindStep(g, disk, fm, lb, blocks, name);
        if fsb.Some? {
          MappedLinks(g, dir, Gen(raw), disk, fm, blocks, lb);
          var blk := ReadFsb(fsb.value);
          r := BlockLookup(blk, DirLimit(g), name);
          if r.Some? {
            FindFirst(g, disk, fm, lb + 1, blocks, name);
            return;
          }
        } else {
          UnmappedLinks(g, disk, fm, lb, name);
        }
        lb := lb + 1;
      }
      return None;
    }

    /** The inode a name stands for in a directory. */
    method LookupName(dir: nat, name: Buffer) returns (r: Result<Option<nat>>)
      requires Valid() && 1 <= dir <= g.inodes && DirReady(disk, dir)
      ensures r == if IsDir(Le16(RawInode(g, l, disk, dir), INO_MODE))
          then Ok(Find(AllLinks(g, disk, RawInode(g, l, disk, dir)), name))
                   else Err(Invalid)
    {
      hide RawInode, Mounted, DirOk, AllLinks, DirCount, Find;
      Mounts(g, l, disk, freeBlocks, freeInodes);
      var inode := ReadInode(dir);
      if !IsDir(inode.mode) { return Err(Invalid); }
      var blocks := BlockCount(inode.size);
      var found := SearchBlocks(dir, inode.raw, blocks, name);
      return Ok(found);
    }

    /** Adds an entry to directory block `lb` if it has room. */
    method AddInBlock(dir: nat, raw: Buffer, lb: nat, fsb: nat, name: Buffer, target: nat, ft: nat) returns (done: bool)
      requires Valid() && |raw| == INODE_BUF && DirOk(g, l, dir, raw, disk) && lb in FileMap(raw, disk) && fsb
          == FileMap(raw, disk)[lb]
      requires 0 < |name| <= NAME_LEN && 0 < target < U32 && ft < 0x100
      modifies this`disk
      ensures Valid() && Kept(g, l, old(disk), disk, Mine(raw, old(disk)))
      ensures done <==> BlockRoomy(g, old(disk), fsb, |name|)
      ensures !done ==> disk == old(disk)
      ensures done ==> DirOk(g, l, dir, raw, disk) && FileMap(raw, disk) == FileMap(raw, old(disk))
      ensures done ==> Grown(AllLinks(g, old(disk), raw), AllLinks(g, disk, raw), Link(name, target, ft))
    {
      hide Roomy, FileOwned, FileLoose, FileMap, DirCount, DirBlocksOk, AllLinks, KidBlocks, Links, Tiled, Grown,
        KeptBlocks, SameFreeInodes, RoundDirSize;
      OwnedLoose(g, l, dir, raw, disk);
      Mounts(g, l, disk, freeBlocks, freeInodes);
      KeptSame(g, l, disk, Mine(raw, disk));
      MappedLinks(g, dir, Gen(raw), disk, FileMap(raw, disk), DirCount(g, RawSize(g, raw)), lb);
      assert fsb in FileMap(raw, disk).Values;
      MineOutside(g, l, raw, disk, fsb);
      var blk := ReadFsb(fsb);
      var c;
      done, c := BlockInsert(blk, DirLimit(g), target, ft, name);
      if done {
        var d := DirTailCsum(g, dir, Gen(raw), c);
        SealedLinks(blk, c, d, DirLimit(g), Link(name, target, ft));
        WriteOwn(fsb, d);
        DirBlockWritten(g, l, dir, raw, old(disk), lb, d, Link(name, target, ft));
        KeptMore(g, l, old(disk), disk, {fsb}, Mine(raw, old(disk)));
      }
    }

    /** Allocates a block, fills it with `nb` and maps file block `lb` to it. */
    method AddFilledBlock(ino: nat, raw: Buffer, lb: nat, nb: Buffer) returns (r: Result<nat>, out: Buffer)
      requires Valid() && |raw| == INODE_BUF && FileOwned(g, l, ino, raw, disk) && lb + 1 < U32 && |nb| == g.bs
      requires lb !in FileMap(raw, disk)
      modifies this
      ensures Valid() && freeInodes == old(freeInodes) && Kept(g, l, old(disk), disk, KidBlocks(raw))
      ensures |out| == INODE_BUF && RootOnly(raw, out)
      ensures r.Ok? <==> Growable(g, l, raw, old(disk), lb)
      ensures r.Ok? ==>
                Added(g, l, ino, raw, out, old(disk), disk, lb, r.value) && r.value < |disk| && disk[r.value] == nb
      ensures r.Err? ==> r.error == NoSpace && out == raw && Receded(g, l, ino, raw, old(disk), disk)
    {
      hide TreeOk, NoBlockLeft, OnlyOne, TreeOwned, TreeExtents, TreeLoose, Kids, KidBlocks, KidsSame, KeptBlocks,
        SameFreeInodes, SameFreeBlocks, MapOf, Free,
        DataOwned, Least, Growable, Insertable, Placed, Added, Spared, KeyUsed;
      Mounts(g, l, disk, freeBlocks, freeInodes);
      var fsb := AllocBlock();
      if fsb.Err? {
        NoGrowth(g, l, raw, disk, lb);
        KeptSame(g, l, disk, KidBlocks(raw));
        return Err(fsb.error), raw;
      }
      TreeAllocated(g, l, ino, raw, old(disk), disk, fsb.value);
      LastBlockGone(g, l, old(disk), disk, fsb.value);
      ghost var bare := disk;
      WriteOwn(fsb.value, nb);
      ghost var mid := disk;
      SameLeft(g, l, bare, mid);
      BlockPrepared(g, l, ino, raw, old(disk), bare, fsb.value, nb);
      Foreseen(g, l, raw, old(disk), mid, lb, fsb.value);
      KeptMore(g, l, old(disk), mid, {}, KidBlocks(raw));
      var done;
      done, out := InsertExtent(ino, raw, lb, fsb.value);
      KeptTrans(g, l, old(disk), mid, disk, KidBlocks(raw), KidBlocks(raw));
      if done.Err? {
        SparedPart(g, l, raw, mid, disk);
        return Err(done.error), out;
      }
      OwnedKept(g, l, mid, disk, KidBlocks(raw), fsb.value);
      BlockPlaced(g, l, ino, raw, out, old(disk), mid, disk, lb, fsb.value);
      return Ok(fsb.value), out;
    }

    /** Stores the inode of a directory whose tree just grew by a block. */
    method StoreGrown(inode: Inode, cur: Buffer) returns (raw: Buffer)
      requires Valid() && 1 <= inode.ino <= g.inodes && |cur| == INODE_BUF && TreeLoose(cur, disk)
      requires inode.mode < U16 && inode.size + g.bs < U64 && inode.flags < U32
      modifies this`disk
      ensures Valid() && Kept(g, l, old(disk), disk, {InoBlock(g, l, inode.ino)})
      ensures InodesKept(g, l, old(disk), disk, inode.ino)
      ensures SameFreeBlocks(g, l, old(disk), disk)
      ensures |raw| == INODE_BUF && FieldsOnly(cur, raw) && InodeSealed(g, inode.ino, raw)
      ensures RawInode(g, l, disk, inode.ino) == Padded(g, raw)
      ensures Decoded(g, inode.ino, raw) == inode.(size := Narrow(g, inode.size + g.bs),
                                                   blocks := Narrow(g, Sectors(g, |FileMap(cur, old(disk))|)),
                                                       raw := raw)
    {
      hide FileMap, KeptBlocks, SameFreeInodes, SameFreeBlocks, RawInode, InodesKept, InodeSealed, FieldsOnly,
        TreeLoose, Decoded, Consistent, LayoutOk, DiskOk, GeometryOk;
      Mounts(g, l, disk, freeBlocks, freeInodes);
      var blocks := RecountBlocks(cur);
      SectorsFit(g, cur, disk);
      var stored := WriteInode(inode.(size := inode.size + g.bs, blocks := blocks, raw := cur));
      raw := stored.raw;
    }

    /** Adds a block with one entry to a directory. */
    method AppendDirBlock(inode: Inode, lb: nat, name: Buffer, target: nat, ft: nat) returns (r: Result<()>)
      requires Valid() && 1 <= inode.ino <= g.inodes && inode == Decoded(g, inode.ino, RawInode(g, l, disk, inode.ino))
      requires DirOk(g, l, inode.ino, inode.raw, disk) && lb == DirCount(g, inode.size) && lb + 1 < U32
      requires inode.size + g.bs < U64
      requires 0 < |name| <= NAME_LEN && 0 < target < U32 && ft < 0x100
      modifies this
      ensures Valid() && freeInodes == old(freeInodes) && OthersKept(g, l, inode.ino, old(disk), disk)
      ensures r.Ok? <==> Growable(g, l, inode.raw, old(disk), lb)
      ensures r.Ok? ==> if DirGrows(g, l, inode.raw, old(disk))
          then LinkAdded(g, l, inode.ino, old(disk), disk, Link(name, target, ft))
                        else !DirOk(g, l, inode.ino, RawInode(g, l, disk, inode.ino), disk)
      ensures r.Err? ==>
                r.error == NoSpace && RawInode(g, l, disk, inode.ino) == inode.raw
                && DirReceded(g, l, inode.ino, inode.raw, old(disk), disk)
    {
      hide OthersKept, InoBlock, RawBlocks, Tiled, DirSealed, SameFreeBlocks, Growable, FileOwned, FileLoose, FileMap,
        Mine, KeptBlocks, SameFreeInodes, RawInode,
        DirBlocksOk, LayoutOk, DiskOk, InodesKept, InodeSealed, FieldsOnly, RootOnly, TreeLoose, Links, LinkAdded,
            DirCount, KidBlocks, Decoded, Le16, Le32,
        RawSize, Added, Gen, GeometryOk, Consistent, Pointers, MetaInUse, DirGrows, DirReceded, Receded;
      Mounts(g, l, disk, freeBlocks, freeInodes);
      DecodedFields(g, inode.ino, RawInode(g, l, disk, inode.ino));
      ghost var dir := inode.ino;
      OwnedLoose(g, l, dir, inode.raw, disk);
      DirKeys(g, l, dir, inode.raw, disk);
      var nb := NewDirBlock(g, inode.ino, Gen(inode.raw), name, target, ft);
      var fsb, cur := AddFilledBlock(inode.ino, inode.raw, lb, nb);
      ghost var mid := disk;
      Mounts(g, l, disk, freeBlocks, freeInodes);
      KeptMine(g, l, inode.raw, old(disk), mid);
      OthersAfterWrite(g, l, dir, inode.raw, old(disk), mid, mid);
      if fsb.Err? {
        RefusedEntry(g, l, dir, inode.raw, old(disk), disk);
        return Err(fsb.error);
      }
      DirLoose(g, l, dir, inode.raw, cur, old(disk), mid, lb, fsb.value);
      var stored := StoreGrown(inode, cur);
      Mounts(g, l, disk, freeBlocks, freeInodes);
      OthersAfterWrite(g, l, dir, inode.raw, old(disk), mid, disk);
      AppendDone(g, l, dir, inode.raw, cur, stored, old(disk), mid, disk, lb, fsb.value, Link(name, target, ft));
      return Ok(());
    }

    /** Tries the blocks of a directory one after the other. */
    method AddInBlocks(dir: nat, raw: Buffer, blocks: nat, name: Buffer, target: nat, ft: nat) returns (done: bool)
      requires Valid() && |raw| == INODE_BUF && DirOk(g, l, dir, raw, disk) && blocks
          == DirCount(g, RawSize(g, raw)) < U32
      requires 0 < |name| <= NAME_LEN && 0 < target < U32 && ft < 0x100
      modifies this`disk
      ensures Valid() && Kept(g, l, old(disk), disk, Mine(raw, old(disk)))
      ensures done <==> DirRoomy(g, raw, old(disk), |name|)
      ensures !done ==> disk == old(disk)
      ensures done ==> DirOk(g, l, dir, raw, disk) && FileMap(raw, disk) == FileMap(raw, old(disk))
      ensures done ==> Grown(AllLinks(g, old(disk), raw), AllLinks(g, disk, raw), Link(name, target, ft))
    {
      hide LayoutOk, DiskOk, Consistent, Pointers, MetaInUse, RawSize, DirRoomy, NoneRoomy, BlockRoomy, FileMap,
        DirCount, DirBlocksOk, AllLinks, TreeOk,
        TreeLoose, TreeReadable, Found, TreeOwned, DataOwned, KidBlocks, Grown, KeptBlocks, SameFreeInodes, Mine;
      Mounts(g, l, disk, freeBlocks, freeInodes);
      KeptSame(g, l, disk, Mine(raw, disk));
      OkLoose(g, dir, raw, disk);
      LooseReadable(raw, disk);
      NoneYet(g, FileMap(raw, disk), disk, |name|);
      var lb := 0;
      while lb < blocks
        invariant 0 <= lb <= blocks && disk == old(disk) && NoneRoomy(g, FileMap(raw, disk), disk, lb, |name|)
      {
        var fsb := MapBlock(raw, lb);
        if fsb.Some? {
          done := AddInBlock(dir, raw, lb, fsb.value, name, target, ft);
          if done {
            OneRoomy(g, raw, old(disk), lb, |name|);
            return;
          }
        }
        NextRoomless(g, FileMap(raw, disk), disk, lb, |name|);
        lb := lb + 1;
      }
      AllRoomless(g, l, dir, raw, disk, |name|);
      return false;
    }

    /** Adds `name` to a directory. */
    method AddDirent(dir: nat, name: Buffer, target: nat, ft: nat) returns (r: Result<()>)
      requires Valid() && 1 <= dir <= g.inodes && DirReady(disk, dir)
      requires RawSize(g, RawInode(g, l, disk, dir)) + g.bs < U64
      requires 0 < target < U32 && ft < 0x100
      modifies this
      ensures Valid() && freeInodes == old(freeInodes) && OthersKept(g, l, dir, old(disk), disk)
      ensures r == Err(Invalid) <==> !(0 < |name| <= NAME_LEN) || !IsDir(Le16(RawInode(g, l, old(disk), dir), INO_MODE))
      ensures r == Err(ReadOnly) <==>
                && 0 < |name| <= NAME_LEN && IsDir(Le16(RawInode(g, l, old(disk), dir), INO_MODE))
                && IsIndexed(Le32(RawInode(g, l, old(disk), dir), INO_FLAGS))
      ensures r == Err(NoSpace) <==>
                && 0 < |name| <= NAME_LEN && IsDir(Le16(RawInode(g, l, old(disk), dir), INO_MODE))
                && !IsIndexed(Le32(RawInode(g, l, old(disk), dir), INO_FLAGS))
                && LinkFails(g, l, RawInode(g, l, old(disk), dir), old(disk), |name|)
      ensures r.Err? ==> r.error == Invalid || r.error == ReadOnly || r.error == NoSpace
      ensures r.Err? && r.error != NoSpace ==> disk == old(disk)
      ensures r.Err? ==> RawInode(g, l, disk, dir) == RawInode(g, l, old(disk), dir)
      ensures r == Err(NoSpace) ==> DirReceded(g, l, dir, RawInode(g, l, old(disk), dir), old(disk), disk)
      ensures r.Ok? ==> if LinkStays(g, l, RawInode(g, l, old(disk), dir), old(disk), |name|)
          then LinkAdded(g, l, dir, old(disk), disk, Link(name, target, ft))
                        else !DirOk(g, l, dir, RawInode(g, l, disk, dir), disk)
      ensures r.Ok? && LinkStays(g, l, RawInode(g, l, old(disk), dir), old(disk), |name|)
              && (Counted(g, RawInode(g, l, old(disk), dir), old(disk))
                  || RawInode(g, l, disk, dir) != RawInode(g, l, old(disk), dir)) ==>
                Counted(g, RawInode(g, l, disk, dir), disk)
    {
      hide DirRoomy, Growable, FileMap, DirCount, DirBlocksOk, AllLinks, FileOwned, Grown, KeptBlocks, SameFreeInodes,
        Mine, Consistent, Pointers, MetaInUse,
        LayoutOk, DiskOk, GeometryOk, RawInode, RawSize, Le16, Le32, Decoded, LinkAdded, InodesKept, DirGrows,
            DirReceded;
      Mounts(g, l, disk, freeBlocks, freeInodes);
      ghost var raw := RawInode(g, l, disk, dir);
      DecodedFields(g, dir, raw);
      UntouchedOthers(g, l, dir, disk);
      if |name| == 0 || |name| > NAME_LEN { return Err(Invalid); }
      var inode := ReadInode(dir);
      if !IsDir(inode.mode) { return Err(Invalid); }
      if IsIndexed(inode.flags) { return Err(ReadOnly); }
      var blocks := BlockCount(inode.size);
      var done := AddInBlocks(dir, inode.raw, blocks, name, target, ft);
      if done {
        Mounts(g, l, disk, freeBlocks, freeInodes);
        LinkInPlace(g, l, dir, raw, old(disk), disk, Link(name, target, ft));
        StaysCounted(g, l, dir, old(disk), disk, Link(name, target, ft));
        return Ok(());
      }
      r := AppendDirBlock(inode, blocks, name, target, ft);
      Mounts(g, l, disk, freeBlocks, freeInodes);
      if r.Ok? && DirGrows(g, l, raw, old(disk)) { StaysCounted(g, l, dir, old(disk), disk, Link(name, target, ft)); }
    }

    // --------------------------------------------------------------- creation

    /** Builds the inode of a new file or, with a first block, of a new directory. */
    method MakeInode(ino: nat, dir: nat, isDir: bool) returns (r: Result<Inode>, ghost taken: set<nat>)
      requires Valid() && 0 < ino < U32 && 0 < dir < U32
      modifies this
      ensures Valid() && freeInodes == old(freeInodes) && Kept(g, l, old(disk), disk, {})
      ensures r.Ok? ==> Prepared(g, l, ino, dir, isDir, r.value, old(disk), disk)
      ensures r.Ok? ==> ChildTakes(g, l, old(disk), isDir, taken) && TookBlocks(g, l, old(disk), disk, taken)
      ensures r.Err? <==> isDir && NoBlockLeft(g, l, old(disk))
      ensures r.Err? ==> r.error == NoSpace && disk == old(disk)
    {
      hide NoBlockLeft, Least, KeptBlocks, SameFreeInodes, SameFreeBlocks, Free, DirBlockOk, Links, RdHdr, RdExtent,
        Gen, Le16, Prepared, ChildTakes,
        TookBlocks;
      Mounts(g, l, disk, freeBlocks, freeInodes);
      KeptSame(g, l, disk, {});
      taken := {};
      var raw := BlankInode(if isDir then 2 else 1);
      if !isDir {
        PreparedFile(g, l, ino, dir, raw, disk);
        NothingTaken(g, l, disk);
        return Ok(Inode(ino, MODE_FILE, 0, 0, FLAG_EXTENTS, raw)), taken;
      }
      var fsb := AllocBlock();
      if fsb.Err? { return Err(fsb.error), taken; }
      LastBlockGone(g, l, old(disk), disk, fsb.value);
      TakesOne(g, l, old(disk), disk, fsb.value);
      OwnedNew(g, l, old(disk), disk, fsb.value);
      AllocKept(g, l, old(disk), disk, fsb.value);
      var nb := FirstDirBlock(g, ino, dir);
      ghost var mid := disk;
      WriteOwn(fsb.value, nb);
      TookStored(g, l, old(disk), mid, disk, {fsb.value});
      KeptTrans(g, l, old(disk), mid, disk, {}, {fsb.value});
      OwnedKept(g, l, mid, disk, {fsb.value}, fsb.value);
      var out := OneBlockInode(raw, fsb.value);
      RootOnlyGen(raw, out);
      Le16Same(raw, out, INO_LINKS);
      PreparedDir(g, l, ino, dir, out, old(disk), disk, fsb.value, nb);
      return Ok(Inode(ino, MODE_DIR, g.bs, Sectors(g, 1), FLAG_EXTENTS, out)), {fsb.value};
    }

    /** Builds and stores a new inode. */
    method StoreNew(ino: nat, dir: nat, isDir: bool) returns (r: Result<()>, ghost taken: set<nat>)
      requires Valid() && 1 <= ino <= g.inodes && 1 <= dir <= g.inodes
      modifies this
      ensures Valid() && freeInodes == old(freeInodes) && Kept(g, l, old(disk), disk, {InoBlock(g, l, ino)})
      ensures InodesKept(g, l, old(disk), disk, ino)
      ensures r.Ok? ==> Born(g, l, ino, dir, isDir, RawInode(g, l, disk, ino), disk)
      ensures r.Ok? ==> forall b :: b in Mine(RawInode(g, l, disk, ino), disk) ==> Free(g, l, old(disk), b)
      ensures r.Ok? ==> ChildTakes(g, l, old(disk), isDir, taken) && TookBlocks(g, l, old(disk), disk, taken)
      ensures r.Err? <==> isDir && NoBlockLeft(g, l, old(disk))
      ensures r.Err? ==> r.error == NoSpace && disk == old(disk)
    {
      hide NoBlockLeft, KeptBlocks, SameFreeInodes, SameFreeBlocks, Free, Mine, RawInode, LayoutOk, DiskOk, Consistent,
        Pointers, MetaInUse, InodeSealed,
        FieldsOnly, Born, FileOwned, DirLinks, DirBlocksOk, FileMap, Decoded, Gen, Le16, Sectors, ChildTakes,
            TookBlocks;
      Mounts(g, l, disk, freeBlocks, freeInodes);
      InodePlaced(g, l, ino);
      var made;
      made, taken := MakeInode(ino, dir, isDir);
      ghost var mid := disk;
      Mounts(g, l, disk, freeBlocks, freeInodes);
      KeptMore(g, l, old(disk), mid, {}, {InoBlock(g, l, ino)});
      InodesSame(g, l, old(disk), mid, {}, ino);
      if made.Err? { return Err(made.error), taken; }
      SmallCounts(g);
      var stored := WriteInode(made.value);
      Mounts(g, l, disk, freeBlocks, freeInodes);
      TookStored(g, l, old(disk), mid, disk, taken);
      KeptTrans(g, l, old(disk), mid, disk, {InoBlock(g, l, ino)}, {InoBlock(g, l, ino)});
      InodesTrans(g, l, old(disk), mid, disk, ino);
      InodeBorn(g, l, ino, dir, isDir, made.value, stored.raw, old(disk), mid, disk, InoBlock(g, l, ino));
      return Ok(()), taken;
    }

    /** Counts one more link to a directory. */
    method BumpLinks(dir: nat)
      requires Valid() && 1 <= dir <= g.inodes
      modifies this`disk
      ensures Valid() && Kept(g, l, old(disk), disk, {InoBlock(g, l, dir)}) && InodesKept(g, l, old(disk), disk, dir)
      ensures DirOk(g, l, dir, RawInode(g, l, disk, dir), disk)
          <==> DirOk(g, l, dir, RawInode(g, l, old(disk), dir), old(disk))
      ensures DirOk(g, l, dir, RawInode(g, l, old(disk), dir), old(disk)) ==>
              var raw, out := RawInode(g, l, old(disk), dir), RawInode(g, l, disk, dir);
              && AllLinks(g, disk, out) == AllLinks(g, old(disk), raw)
              && Mine(out, disk) == Mine(raw, old(disk)) && Le16(out, INO_LINKS)
                   == (Le16(raw, INO_LINKS) + 1) % 0x1_0000
              && Le16(out, INO_MODE) == Le16(raw, INO_MODE) && InodeSealed(g, dir, out)
              && CountStays(g, raw, old(disk), out, disk)
    {
      hide KeptBlocks, SameFreeInodes, SameFreeBlocks, Mine, RawInode, LayoutOk, DiskOk, GeometryOk, Consistent,
        Pointers, MetaInUse, InodeSealed, FieldsOnly, FileOwned, DirBlocksOk, AllLinks, Decoded, Le16, RawSize,
        RawBlocks, InodesKept, DirOk, CountStays;
      Mounts(g, l, disk, freeBlocks, freeInodes);
      InodePlaced(g, l, dir);
      DecodedFields(g, dir, RawInode(g, l, disk, dir));
      var parent := ReadInode(dir);
      NarrowFields(g, dir, parent.raw);
      var links := Le16(parent.raw, INO_LINKS);
      var bumped := PutLe16(parent.raw, INO_LINKS, (links + 1) % 0x1_0000);
      var stored := WriteInode(parent.(raw := bumped));
      if DirOk(g, l, dir, parent.raw, old(disk)) {
        ParentStored(g, l, dir, parent.raw, bumped, stored.raw, old(disk), disk, InoBlock(g, l, dir));
      } else {
        BumpedRoot(g, dir, parent.raw, bumped, stored.raw);
        StillLost(g, l, dir, parent.raw, Padded(g, stored.raw), old(disk), disk, InoBlock(g, l, dir));
      }
    }

    /** Enters a freshly allocated inode into directory `dir`. */
    method EnterNew(dir: nat, name: Buffer, isDir: bool, ino: nat) returns (r: Result<()>)
      requires Valid() && 1 <= dir <= g.inodes && 1 <= ino <= g.inodes && dir != ino && DirReady(disk, dir)
      requires IsDir(Le16(RawInode(g, l, disk, dir), INO_MODE)) && RawSize(g, RawInode(g, l, disk, dir)) + g.bs < U64
      modifies this
      ensures Valid() && freeInodes == old(freeInodes) && SameFreeInodes(g, l, old(disk), disk)
      ensures RestKept(g, l, dir, ino, old(disk), disk)
      ensures r.Err? <==> Blocked(g, l, RawInode(g, l, old(disk), dir), old(disk), name, isDir)
      ensures r.Err? ==> r.error == EnterError(isDir && NoBlockLeft(g, l, old(disk)), !(0 < |name| <= NAME_LEN),
                                               IsIndexed(Le32(RawInode(g, l, old(disk), dir), INO_FLAGS)))
      ensures r.Err? ==> RawInode(g, l, disk, dir) == RawInode(g, l, old(disk), dir)
      ensures r.Err? ==> DirReceded(g, l, dir, RawInode(g, l, old(disk), dir), old(disk), disk)
      ensures r.Ok? ==> NewChild(g, l, dir, isDir, ino, old(disk), disk)
      ensures r.Ok? ==>
                if NameStays(g, l, RawInode(g, l, old(disk), dir), old(disk), |name|, isDir) then
                  Entered(g, l, dir, name, isDir, ino, old(disk), disk,
                      (Le16(RawInode(g, l, old(disk), dir), INO_LINKS) + if isDir then 1 else 0) % 0x1_0000)
                else !DirOk(g, l, dir, RawInode(g, l, disk, dir), disk)
    {
      hide DirRoomy, NoBlockLeft, RawInode, LayoutOk, DiskOk, KeptBlocks, SameFreeInodes, DirOk, AllLinks, Mine, Born,
        Free, Grown, Le16, Le32, RawSize,
        Consistent, Pointers, MetaInUse, InodesKept, DirCount, Entered, RestKept, LinkAdded, FileOwned, OthersKept,
            InodeSealed, SameDir,
        NoPlace, NameStays, LinkFails, LinkStays, DirReceded, ChildTakes, TookBlocks, NewChild, CountStays, Counted;
      ghost var d1 := disk;
      Mounts(g, l, disk, freeBlocks, freeInodes);
      ghost var raw := RawInode(g, l, disk, dir);
      LinksBound(raw);
      UntouchedRest(g, l, dir, ino, d1);
      SameReceded(g, l, dir, raw, d1, d1, d1);
      ghost var taken;
      r, taken := StoreNew(ino, dir, isDir);
      if r.Err? { return; }
      ghost var d3 := disk;
      Mounts(g, l, disk, freeBlocks, freeInodes);
      ParentBefore(g, l, dir, ino, d1, d3);
      PlaceForeseen(g, l, raw, d1, d3, |name|, isDir, taken);
      r := AddDirent(dir, name, ino, KindOf(isDir));
      ghost var d4 := disk;
      Mounts(g, l, disk, freeBlocks, freeInodes);
      RestAfterLink(g, l, dir, ino, d1, d3, d4, raw);
      FreeInodesAfter(g, l, dir, d1, d3, d4, {InoBlock(g, l, ino)});
      if r.Err? {
        SameReceded(g, l, dir, raw, d1, d3, d4);
        return;
      }
      ChildThrough(g, l, dir, isDir, ino, d1, d3, d4, raw);
      ghost var stays := NameStays(g, l, raw, d1, |name|, isDir);
      if stays { LinkedIn(g, l, dir, name, isDir, ino, d1, d3, d4, raw); }
      if isDir {
        BumpLinks(dir);
        Mounts(g, l, disk, freeBlocks, freeInodes);
        RestAfterCount(g, l, dir, ino, d1, d4, disk);
        FreeInodesTrans(g, l, d1, d4, disk, {InoBlock(g, l, dir)});
        ChildCounted(g, l, dir, isDir, ino, d1, d4, disk);
        if stays {
          EnteredDir(g, l, dir, name, isDir, ino, d1, d4, Le16(raw, INO_LINKS));
          LinkCounted(g, l, dir, name, isDir, ino, d1, d4, disk, Le16(raw, INO_LINKS),
              (Le16(raw, INO_LINKS) + 1) % 0x1_0000);
        }
      }
    }

    /** Creates a file or a directory named `name` in directory `dir`. */
    method Create(dir: nat, name: Buffer, isDir: bool) returns (r: Result<nat>)
      requires Valid() && 1 <= dir <= g.inodes && !FreeInode(g, l, disk, dir) && DirReady(disk, dir)
      requires RawSize(g, RawInode(g, l, disk, dir)) + g.bs < U64
      modifies this
      ensures Valid()
      ensures !IsDir(Le16(RawInode(g, l, old(disk), dir), INO_MODE)) ==> r == Err(Invalid) && disk == old(disk)
      ensures IsDir(Le16(RawInode(g, l, old(disk), dir), INO_MODE)) ==>
                (r == Err(AlreadyExists) <==> Find(AllLinks(g, old(disk), RawInode(g, l, old(disk), dir)), name).Some?)
      ensures r == Err(AlreadyExists) ==> disk == old(disk)
      ensures r.Ok? ==> InodeGone(g, l, old(disk), disk, r.value) && freeInodes == old(freeInodes) - 1
      ensures r.Ok? ==> 1 <= r.value <= g.inodes && RestKept(g, l, dir, r.value, old(disk), disk)
      ensures r.Ok? ==> NewChild(g, l, dir, isDir, r.value, old(disk), disk)
      ensures r.Ok? ==>
                if NameStays(g, l, RawInode(g, l, old(disk), dir), old(disk), |name|, isDir) then
                  Entered(g, l, dir, name, isDir, r.value, old(disk), disk,
                          (Le16(RawInode(g, l, old(disk), dir), INO_LINKS) + if isDir then 1 else 0) % 0x1_0000)
                else !DirOk(g, l, dir, RawInode(g, l, disk, dir), disk)
      ensures IsDir(Le16(RawInode(g, l, old(disk), dir), INO_MODE)) && r != Err(AlreadyExists) ==>
                (r.Err? <==> NoInodeLeft(g, l, old(disk)) || Blocked(g, l, RawInode(g, l, old(disk), dir), old(disk),
                    name, isDir))
      ensures IsDir(Le16(RawInode(g, l, old(disk), dir), INO_MODE)) && r.Err? && r.error != AlreadyExists ==>
                if NoInodeLeft(g, l, old(disk)) then r.error == NoSpace && disk == old(disk)
                else
                  && freeInodes == old(freeInodes) - 1
                  && r.error == EnterError(isDir && NoBlockLeft(g, l, old(disk)), !(0 < |name| <= NAME_LEN),
                                           IsIndexed(Le32(RawInode(g, l, old(disk), dir), INO_FLAGS)))
      ensures CreateOutcome(g, l, dir, name, isDir, old(disk), disk, r)
    {
      hide NoInodeLeft, NoBlockLeft, RawInode, LayoutOk, DiskOk, KeptBlocks, SameFreeInodes, SameFreeBlocks, InodeGone,
        DirOk, AllLinks, Mine, Find, Le16, Le32,
        RawSize, Consistent, Pointers, MetaInUse, DirCount, Entered, RestKept, FreeInode, OutsideKept, NameStays,
            Blocked, DirReceded, SameDir, NewChild,
        CreateLeft;
      ghost var d0 := disk;
      Mounts(g, l, disk, freeBlocks, freeInodes);
      NothingCreated(g, l, dir, d0);
      var found := LookupName(dir, name);
      if found.Err? { return Err(found.error); }
      if found.value.Some? { return Err(AlreadyExists); }
      r := AllocInode(isDir);
      if r.Err? { return; }
      ghost var d1 := disk;
      Mounts(g, l, disk, freeBlocks, freeInodes);
      AllocInodeKept(g, l, d0, d1);
      ReadyAfterAlloc(g, l, dir, d0, d1);
      SamePlace(g, l, RawInode(g, l, d0, dir), d0, d1, name, isDir);
      TakenApart(g, l, d0, d1, r.value, dir);
      InodeWasLeft(g, l, d0, d1, r.value);
      var entered := EnterNew(dir, name, isDir, r.value);
      Mounts(g, l, disk, freeBlocks, freeInodes);
      GoneAfter(g, l, d0, d1, disk, r.value);
      RestAfterAlloc(g, l, dir, r.value, d0, d1, disk);
      if entered.Err? {
        SameReceded(g, l, dir, RawInode(g, l, d0, dir), d0, d1, disk);
        CreationLeft(g, l, dir, r.value, d0, disk);
        return Err(entered.error);
      }
      ChildAfterAlloc(g, l, dir, isDir, r.value, d0, d1, disk);
      if NameStays(g, l, RawInode(g, l, d0, dir), d0, |name|, isDir) {
        EnteredAfterAlloc(g, l, dir, name, isDir, r.value, d0, d1, disk,
                          (Le16(RawInode(g, l, d0, dir), INO_LINKS) + if isDir then 1 else 0) % 0x1_0000);
      }
    }
  }

  method CopyInto(buf: array<byte>, at: nat, src: Buffer)
    requires at + |src| <= buf.Length
    modifies buf
    ensures buf[..at + |src|] == old(buf[..at]) + src
    ensures buf[at + |src|..] == old(buf[..])[at + |src|..]
  {
    var i := 0;
    while i < |src|
      invariant 0 <= i <= |src|
      invariant forall j :: 0 <= j < i ==> buf[at + j] == src[j]
      invariant forall j :: 0 <= j < buf.Length && !(at <= j < at + i) ==> buf[j] == old(buf[j])
    {
      buf[at + i] := src[i];
      i := i + 1;
    }
  }

  lemma TailStep(a: Buffer, b: Buffer, k: nat, n: nat)
    requires |a| == |b| && k + n <= |a| && a[k..] == b[k..]
    ensures a[k + n..] == b[k + n..]
  {
    assert a[k..][n..] == a[k + n..] && b[k..][n..] == b[k + n..];
  }

  lemma FullByte(bm: Buffer, at: nat, k: nat)
    requires at < |bm| && bm[at] == 0xFF && 8 * at <= k < 8 * at + 8
    ensures Bit(bm, k)
  {
    ByteOnes();
    OnesTest(8, k % 8);
    assert k / 8 == at;
  }

  lemma BitInByte(bm: Buffer, at: nat, bit: nat)
    requires at < |bm| && bit < 8
    ensures Bit(bm, at * 8 + bit) == TestBit(bm[at], bit)
  {
    assert (at * 8 + bit) / 8 == at && (at * 8 + bit) % 8 == bit;
  }
}
