/** The inode table: where an inode's record is, what its fields mean, and its checksum. */
module Inodes {
  import opened Arith
  import opened Bytes
  import opened Crc
  import opened Volume
  import opened Frame
  import opened ExtentTree

  const INO_MODE: nat := 0x00
  const INO_SIZE_LO: nat := 0x04
  const INO_LINKS: nat := 0x1A
  const INO_BLOCKS_LO: nat := 0x1C
  const INO_FLAGS: nat := 0x20
  const INO_SIZE_HIGH: nat := 0x6C
  const INO_BLOCKS_HIGH: nat := 0x74
  const INO_CHECKSUM_LO: nat := 0x7C
  const GOOD_OLD_SIZE: nat := 0x80
  const INO_EXTRA_ISIZE: nat := 0x80
  const INO_CHECKSUM_HI: nat := 0x82

  const FLAG_EXTENTS: nat := 0x8_0000

  datatype Inode = Inode(ino: nat, mode: nat, size: nat, blocks: nat, flags: nat, raw: Buffer)

  /** The file type is in the top four bits of the mode. */
  predicate IsDir(mode: nat) { mode / 0x1000 % 0x10 == 4 }
  predicate IsFile(mode: nat) { mode / 0x1000 % 0x10 == 8 }

  /** A hashed directory, which the driver does not extend. */
  predicate IsIndexed(flags: nat) { flags / 0x1000 % 2 == 1 }

  // ------------------------------------------------------------- location

  ghost function InoBlock(g: Geometry, l: Layout, ino: nat): nat
    requires GeometryOk(g) && LayoutOk(g, l) && 1 <= ino <= g.inodes
  {
    InodeInRange(g, ino);
    RecBlock(g.bs, g.inodeSize, l.it[InoGroup(g, ino)], InoIndex(g, ino))
  }

  function InoOff(g: Geometry, ino: nat): nat
    requires g.bs > 0 && g.ipg > 0 && ino >= 1
  {
    RecOff(g.bs, g.inodeSize, InoIndex(g, ino))
  }

  /** Every inode record is inside a block of its group's inode table. */
  lemma InodePlaced(g: Geometry, l: Layout, ino: nat)
    requires GeometryOk(g) && LayoutOk(g, l) && 1 <= ino <= g.inodes
    ensures InoBlock(g, l, ino) < g.total && HasRole(l, InoBlock(g, l, ino), InodeTable(InoGroup(g, ino)))
    ensures InoOff(g, ino) + g.inodeSize <= g.bs
  {
    InodeInRange(g, ino);
    assert GroupPlaced(g, l, InoGroup(g, ino));
    var n: nat :| n > 0 && Times(n, g.inodeSize) == g.bs;
    RecordFits(InoIndex(g, ino), g.inodeSize, n);
  }

  /** Two inodes never share a byte of the table. */
  lemma InodesApart(g: Geometry, l: Layout, i: nat, j: nat)
    requires GeometryOk(g) && LayoutOk(g, l) && 1 <= i <= g.inodes && 1 <= j <= g.inodes && i != j
    ensures || InoBlock(g, l, i) != InoBlock(g, l, j)
            || InoOff(g, i) + g.inodeSize <= InoOff(g, j) || InoOff(g, j) + g.inodeSize <= InoOff(g, i)
  {
    InodePlaced(g, l, i);
    InodePlaced(g, l, j);
    InodeInRange(g, i);
    InodeInRange(g, j);
    if InoGroup(g, i) == InoGroup(g, j) {
      var n: nat :| n > 0 && Times(n, g.inodeSize) == g.bs;
      RecordsApart(InoIndex(g, i), InoIndex(g, j), g.inodeSize, n);
    }
  }

  /** The bytes of an inode, padded to the size of the driver's buffer. */
  ghost function RawInode(g: Geometry, l: Layout, disk: Disk, ino: nat): (raw: Buffer)
    requires Mounted(g, l, disk) && 1 <= ino <= g.inodes
    ensures |raw| == INODE_BUF
  {
    InodePlaced(g, l, ino);
    disk[InoBlock(g, l, ino)][InoOff(g, ino)..InoOff(g, ino) + g.inodeSize] + Zeros(INODE_BUF - g.inodeSize)
  }

  function Padded(g: Geometry, raw: Buffer): (r: Buffer)
    requires |raw| == INODE_BUF && g.inodeSize <= INODE_BUF
    ensures |r| == INODE_BUF && forall k :: 0 <= k < g.inodeSize ==> r[k] == raw[k]
  {
    raw[..g.inodeSize] + Zeros(INODE_BUF - g.inodeSize)
  }

  /** The records of all inodes but `ino` are unchanged. */
  ghost predicate InodesKept(g: Geometry, l: Layout, before: Disk, after: Disk, ino: nat)
    requires Mounted(g, l, before) && Mounted(g, l, after)
  {
    forall j :: 1 <= j <= g.inodes && j != ino ==> RawInode(g, l, after, j) == RawInode(g, l, before, j)
  }

  /** Storing one inode record changes that inode and no other. */
  lemma InodeStored(g: Geometry, l: Layout, disk: Disk, ino: nat, raw: Buffer, after: Disk)
    requires Mounted(g, l, disk) && Mounted(g, l, after) && 1 <= ino <= g.inodes && |raw| == INODE_BUF
    requires InoBlock(g, l, ino) < |disk| && InoOff(g, ino) + g.inodeSize <= |disk[InoBlock(g, l, ino)]|
    requires after == disk[InoBlock(g, l, ino) := Splice(disk[InoBlock(g, l, ino)], InoOff(g, ino), raw[..g.inodeSize])]
    ensures RawInode(g, l, after, ino) == Padded(g, raw)
    ensures InodesKept(g, l, disk, after, ino)
  {
    forall j | 1 <= j <= g.inodes && j != ino ensures RawInode(g, l, after, j) == RawInode(g, l, disk, j) {
      InodePlaced(g, l, j);
      InodesApart(g, l, ino, j);
      if InoBlock(g, l, j) == InoBlock(g, l, ino) {
        RecordKept(disk[InoBlock(g, l, ino)], InoOff(g, ino), raw[..g.inodeSize], InoOff(g, j), g.inodeSize);
      }
    }
  }

  lemma RecordKept(b: Buffer, off: nat, s: Buffer, at: nat, n: nat)
    requires off + |s| <= |b| && at + n <= |b| && (off + |s| <= at || at + n <= off)
    ensures Splice(b, off, s)[at..at + n] == b[at..at + n]
  {
  }

  /** Operations that leave the inode tables alone leave all inodes alone. */
  lemma InodesSame(g: Geometry, l: Layout, before: Disk, after: Disk, mine: set<nat>, ino: nat)
    requires Mounted(g, l, before) && Mounted(g, l, after) && MetaInUse(g, l, before)
    requires KeptBlocks(g, l, before, after, mine) && forall b :: b in mine ==> b !in l.roles
    ensures InodesKept(g, l, before, after, ino)
    ensures 1 <= ino <= g.inodes ==> RawInode(g, l, after, ino) == RawInode(g, l, before, ino)
  {
    forall j | 1 <= j <= g.inodes ensures RawInode(g, l, after, j) == RawInode(g, l, before, j) {
      InodePlaced(g, l, j);
    }
  }

  lemma InodesTrans(g: Geometry, l: Layout, a: Disk, b: Disk, c: Disk, ino: nat)
    requires Mounted(g, l, a) && Mounted(g, l, b) && Mounted(g, l, c)
    requires InodesKept(g, l, a, b, ino) && InodesKept(g, l, b, c, ino)
    ensures InodesKept(g, l, a, c, ino)
  {
    hide RawInode, LayoutOk, DiskOk;
  }

  // --------------------------------------------------------------- fields

  function RawSize(g: Geometry, raw: Buffer): nat
    requires |raw| == INODE_BUF
  {
    Le32(raw, INO_SIZE_LO) + if g.has64 then 0x1_0000_0000 * Le32(raw, INO_SIZE_HIGH) else 0
  }

  function RawBlocks(g: Geometry, raw: Buffer): nat
    requires |raw| == INODE_BUF
  {
    Le32(raw, INO_BLOCKS_LO) + if g.has64 then 0x1_0000_0000 * Le32(raw, INO_BLOCKS_HIGH) else 0
  }

  function Decoded(g: Geometry, ino: nat, raw: Buffer): Inode
    requires |raw| == INODE_BUF
  {
    Inode(ino, Le16(raw, INO_MODE), RawSize(g, raw), RawBlocks(g, raw), Le32(raw, INO_FLAGS), raw)
  }

  /** What a volume without 64-bit fields keeps of a size or block count. */
  function Narrow(g: Geometry, v: nat): nat { if g.has64 then v else v % 0x1_0000_0000 }

  /** The bytes the driver's fields and the checksum occupy. */
  predicate FieldByte(k: nat) {
    || k < 2 || 4 <= k < 8 || 0x1C <= k < 0x24 || 0x6C <= k < 0x70 || 0x74 <= k < 0x78 || 0x7C <= k < 0x7E
         || 0x82 <= k < 0x84
  }

  ghost predicate FieldsOnly(raw: Buffer, out: Buffer) {
    |raw| == |out| == INODE_BUF && forall k: nat :: k < INODE_BUF && !FieldByte(k) ==> out[k] == raw[k]
  }

  // ------------------------------------------------------------- checksum

  predicate FitsHigh(g: Geometry, raw: Buffer)
    requires |raw| == INODE_BUF
  {
    g.inodeSize > GOOD_OLD_SIZE && Le16(raw, INO_EXTRA_ISIZE) >= 4
  }

  /** The inode with its checksum fields zeroed. */
  function Blank(g: Geometry, raw: Buffer): (r: Buffer)
    requires |raw| == INODE_BUF && g.inodeSize <= INODE_BUF
    ensures |r| == g.inodeSize
  {
    seq(g.inodeSize, i requires 0 <= i < g.inodeSize =>
      if 0x7C <= i < 0x7E || (FitsHigh(g, raw) && 0x82 <= i < 0x84) then 0 else raw[i])
  }

  function InodeCsum(g: Geometry, ino: nat, raw: Buffer): nat
    requires |raw| == INODE_BUF && g.inodeSize <= INODE_BUF
  {
    Crc32c(InodeSeed(g, ino, Gen(raw)), Blank(g, raw))
  }

  ghost predicate InodeSealed(g: Geometry, ino: nat, raw: Buffer)
    requires |raw| == INODE_BUF && g.inodeSize <= INODE_BUF
  {
    g.metaCsum ==>
      && Le16(raw, INO_CHECKSUM_LO) == InodeCsum(g, ino, raw) % 0x1_0000
      && (FitsHigh(g, raw) ==> Le16(raw, INO_CHECKSUM_HI) == InodeCsum(g, ino, raw) / 0x1_0000)
  }

  lemma Crc32cThree(crc: nat, a: Buffer, b: Buffer, c: Buffer)
    ensures Crc32c(Crc32c(Crc32c(crc, a), b), c) == Crc32c(crc, a + b + c)
  {
    hide Crc32c;
    Crc32cConcat(crc, a, b);
    Crc32cConcat(crc, a + b, c);
  }

  /** Running the checksum over the pieces around the fields, with zeros in their place, is
      running it over the blanked inode. */
  method ComputeCsum(g: Geometry, ino: nat, raw: Buffer) returns (csum: nat)
    requires |raw| == INODE_BUF && (g.inodeSize == 128 || g.inodeSize == 256)
    ensures csum == InodeCsum(g, ino, raw)
  {
    hide Crc32c, Le16, Gen, InodeSeed;
    var seed := InodeSeed(g, ino, Gen(raw));
    csum := Crc32c(seed, raw[..0x7C]);
    csum := Crc32c(csum, [0, 0]);
    csum := Crc32c(csum, raw[0x7E..0x80]);
    Crc32cThree(seed, raw[..0x7C], [0, 0], raw[0x7E..0x80]);
    ghost var low := raw[..0x7C] + [0, 0] + raw[0x7E..0x80];
    assert csum == Crc32c(seed, low);
    if g.inodeSize > GOOD_OLD_SIZE {
      csum := Crc32c(csum, raw[0x80..0x82]);
      Crc32cConcat(seed, low, raw[0x80..0x82]);
      ghost var mid := low + raw[0x80..0x82];
      if FitsHigh(g, raw) {
        csum := Crc32c(csum, [0, 0]);
        csum := Crc32c(csum, raw[0x84..g.inodeSize]);
        Crc32cThree(seed, mid, [0, 0], raw[0x84..g.inodeSize]);
        assert Blank(g, raw) == mid + [0, 0] + raw[0x84..g.inodeSize];
      } else {
        csum := Crc32c(csum, raw[0x82..g.inodeSize]);
        Crc32cConcat(seed, mid, raw[0x82..g.inodeSize]);
        assert Blank(g, raw) == mid + raw[0x82..g.inodeSize];
      }
    } else {
      assert Blank(g, raw) == low;
    }
  }

  /** Two inodes that agree outside the checksum fields. */
  ghost predicate CsumOnly(g: Geometry, raw: Buffer, out: Buffer) {
    && |raw| == |out| == INODE_BUF
    && forall k: nat :: k < INODE_BUF && !(0x7C <= k < 0x7E) && !(0x82 <= k < 0x84) ==> out[k] == raw[k]
  }

  /** The checksum does not depend on where it is stored. */
  lemma CsumStored(g: Geometry, ino: nat, raw: Buffer, out: Buffer)
    requires CsumOnly(g, raw, out) && g.inodeSize <= INODE_BUF
    requires !FitsHigh(g, raw) ==> forall k :: 0x82 <= k < 0x84 ==> out[k] == raw[k]
    ensures FitsHigh(g, out) == FitsHigh(g, raw) && InodeCsum(g, ino, out) == InodeCsum(g, ino, raw)
  {
    Le16Same(raw, out, INO_EXTRA_ISIZE);
    Le32Same(raw, out, GENERATION);
    assert FitsHigh(g, out) == FitsHigh(g, raw);
    forall i: nat | i < g.inodeSize ensures Blank(g, out)[i] == Blank(g, raw)[i] {
      if !(0x7C <= i < 0x7E) && !(FitsHigh(g, raw) && 0x82 <= i < 0x84) { assert out[i] == raw[i]; }
    }
    assert Blank(g, out) == Blank(g, raw);
  }

  method SealInode(g: Geometry, ino: nat, raw: Buffer) returns (out: Buffer)
    requires |raw| == INODE_BUF && (g.inodeSize == 128 || g.inodeSize == 256)
    ensures CsumOnly(g, raw, out) && InodeSealed(g, ino, out)
  {
    hide InodeCsum, Le16, Blank, Crc32c;
    out := raw;
    if g.metaCsum {
      var csum := ComputeCsum(g, ino, raw);
      out := PutLe16(raw, INO_CHECKSUM_LO, csum % 0x1_0000);
      if FitsHigh(g, raw) {
        ghost var low := out;
        out := PutLe16(out, INO_CHECKSUM_HI, csum / 0x1_0000);
        Le16Same(low, out, INO_CHECKSUM_LO);
      }
      CsumStored(g, ino, raw, out);
      CsumBound(g, ino, raw);
    }
  }

  lemma CsumBound(g: Geometry, ino: nat, raw: Buffer)
    requires |raw| == INODE_BUF && g.inodeSize <= INODE_BUF
    ensures InodeCsum(g, ino, raw) < U32
  {
  }

  /** Stores a size or a block count into its low and, on 64-bit volumes, its high half. */
  method PutSplit(g: Geometry, raw: Buffer, lo: nat, hi: nat, v: nat) returns (out: Buffer)
    requires |raw| == INODE_BUF && lo + 4 <= hi <= INODE_BUF - 4 && v < U64
    ensures |out| == INODE_BUF
    ensures Le32(out, lo) + (if g.has64 then 0x1_0000_0000 * Le32(out, hi) else 0) == Narrow(g, v)
    ensures forall k :: 0 <= k < INODE_BUF && !(lo <= k < lo + 4) && !(hi <= k < hi + 4) ==> out[k] == raw[k]
  {
    hide Le32;
    out := PutLe32(raw, lo, v % 0x1_0000_0000);
    if g.has64 {
      ghost var low := out;
      out := PutLe32(out, hi, v / 0x1_0000_0000);
      Le32Same(low, out, lo);
    }
  }

  method PutFields(g: Geometry, inode: Inode) returns (raw: Buffer)
    requires |inode.raw| == INODE_BUF && inode.mode < U16 && inode.size < U64 && inode.blocks < U64 && inode.flags < U32
    ensures FieldsOnly(inode.raw, raw)
    ensures Decoded(g, inode.ino, raw) == inode.(size := Narrow(g, inode.size), blocks := Narrow(g, inode.blocks),
        raw := raw)
  {
    hide Le16, Le32;
    var r1 := PutLe16(inode.raw, INO_MODE, inode.mode);
    var r2 := PutSplit(g, r1, INO_SIZE_LO, INO_SIZE_HIGH, inode.size);
    var r3 := PutSplit(g, r2, INO_BLOCKS_LO, INO_BLOCKS_HIGH, inode.blocks);
    raw := PutLe32(r3, INO_FLAGS, inode.flags);
    Le16Same(r1, raw, INO_MODE);
    Le32Same(r2, raw, INO_SIZE_LO);
    Le32Same(r2, raw, INO_SIZE_HIGH);
    Le32Same(r3, raw, INO_BLOCKS_LO);
    Le32Same(r3, raw, INO_BLOCKS_HIGH);
  }

  lemma DecodedSame(g: Geometry, ino: nat, raw: Buffer, out: Buffer)
    requires |raw| == |out| == INODE_BUF
    requires forall k :: 0 <= k < 0x7C ==> out[k] == raw[k]
    ensures Decoded(g, ino, out) == Decoded(g, ino, raw).(raw := out)
    ensures Gen(out) == Gen(raw)
  {
    hide Le16, Le32;
    Le16Same(raw, out, INO_MODE);
    Le32Same(raw, out, INO_SIZE_LO);
    Le32Same(raw, out, INO_SIZE_HIGH);
    Le32Same(raw, out, INO_BLOCKS_LO);
    Le32Same(raw, out, INO_BLOCKS_HIGH);
    Le32Same(raw, out, INO_FLAGS);
    Le32Same(raw, out, GENERATION);
  }

  /** The bytes `write_inode` stores: the fields, then the checksum over them. */
  method EncodeInode(g: Geometry, inode: Inode) returns (raw: Buffer)
    requires |inode.raw| == INODE_BUF && (g.inodeSize == 128 || g.inodeSize == 256)
    requires inode.mode < U16 && inode.size < U64 && inode.blocks < U64 && inode.flags < U32
    ensures FieldsOnly(inode.raw, raw) && InodeSealed(g, inode.ino, raw)
    ensures Decoded(g, inode.ino, raw) == inode.(size := Narrow(g, inode.size), blocks := Narrow(g, inode.blocks),
        raw := raw)
  {
    hide Decoded, InodeSealed;
    var fields := PutFields(g, inode);
    raw := SealInode(g, inode.ino, fields);
    DecodedSame(g, inode.ino, fields, raw);
  }

  /** Padding only drops bytes that are not stored, so the checksum stays right. */
  lemma PaddedSealed(g: Geometry, ino: nat, raw: Buffer)
    requires |raw| == INODE_BUF && (g.inodeSize == 128 || g.inodeSize == 256) && InodeSealed(g, ino, raw)
    ensures InodeSealed(g, ino, Padded(g, raw))
  {
    var out := Padded(g, raw);
    if g.inodeSize == 256 {
      assert out == raw;
    } else {
      Le16Same(raw, out, INO_CHECKSUM_LO);
      Le32Same(raw, out, GENERATION);
      assert Blank(g, out) == Blank(g, raw);
    }
  }

  lemma PaddedDecoded(g: Geometry, ino: nat, raw: Buffer)
    requires |raw| == INODE_BUF && (g.inodeSize == 128 || g.inodeSize == 256)
    ensures Decoded(g, ino, Padded(g, raw)) == Decoded(g, ino, raw).(raw := Padded(g, raw))
  {
    DecodedSame(g, ino, raw, Padded(g, raw));
  }

  /** Decoded values fit the driver's fields. */
  lemma DecodedFields(g: Geometry, ino: nat, raw: Buffer)
    requires |raw| == INODE_BUF
    ensures var d := Decoded(g, ino, raw);
            && d.ino == ino && d.raw == raw && d.mode == Le16(raw, INO_MODE) && d.size == RawSize(g, raw)
            && d.blocks == RawBlocks(g, raw) && d.flags == Le32(raw, INO_FLAGS)
            && d.mode < U16 && d.size < U64 && d.blocks < U64 && d.flags < U32
  {
  }
}
