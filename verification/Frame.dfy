/** What operations on one file leave alone: the allocator's metadata, every block that is in
    use elsewhere, and the set of free blocks except for those it takes. */
module Frame {
  import opened Bytes
  import opened Volume
  import opened Allocator

  /** A block that holds neither the superblock, a descriptor nor a bitmap. */
  ghost predicate Payload(l: Layout, b: nat) { b in l.roles ==> l.roles[b].InodeTable? }

  /** The two disks agree on the superblock, the descriptors and the bitmaps. */
  ghost predicate MetaKept(l: Layout, before: Disk, after: Disk) {
    |after| == |before| && forall b :: 0 <= b < |before| && !Payload(l, b) ==> after[b] == before[b]
  }

  lemma ViewKept(g: Geometry, l: Layout, before: Disk, after: Disk, i: nat)
    requires Mounted(g, l, before) && MetaKept(l, before, after) && DiskOk(g, after) && i < g.groups
    ensures Desc(g, l, after, i) == Desc(g, l, before, i)
    ensures after[l.bb[i]] == before[l.bb[i]] && after[l.ib[i]] == before[l.ib[i]]
  {
    assert GroupPlaced(g, l, i);
  }

  lemma FreeKept(g: Geometry, l: Layout, before: Disk, after: Disk)
    requires Mounted(g, l, before) && MetaKept(l, before, after) && DiskOk(g, after)
    ensures forall b: nat :: Free(g, l, after, b) <==> Free(g, l, before, b)
    ensures SameFreeInodes(g, l, before, after)
  {
    forall b: nat ensures Free(g, l, after, b) <==> Free(g, l, before, b) {
      if g.firstData <= b < g.total {
        GroupInRange(g, b);
        ViewKept(g, l, before, after, GroupOf(g, b));
      }
    }
    forall ino: nat ensures FreeInode(g, l, after, ino) <==> FreeInode(g, l, before, ino) {
      if 1 <= ino <= g.inodes {
        InodeInRange(g, ino);
        ViewKept(g, l, before, after, InoGroup(g, ino));
      }
    }
  }

  lemma ViewsKept(g: Geometry, l: Layout, before: Disk, after: Disk)
    requires Mounted(g, l, before) && MetaKept(l, before, after) && DiskOk(g, after)
    ensures Views(g, l, after) == Views(g, l, before) && after[Super(g)] == before[Super(g)]
    ensures forall i :: 0 <= i < g.groups ==> GroupView(g, l, after, i) == GroupView(g, l, before, i)
  {
    forall i | 0 <= i < g.groups ensures GroupView(g, l, after, i) == GroupView(g, l, before, i) {
      ViewKept(g, l, before, after, i);
    }
  }

  lemma SoundKept(g: Geometry, l: Layout, before: Disk, after: Disk, fb: nat, fi: nat, i: nat)
    requires Mounted(g, l, before) && MetaKept(l, before, after) && DiskOk(g, after)
    requires Sound(g, l, before, fb, fi, i)
    ensures Sound(g, l, after, fb, fi, i)
  {
    FreeKept(g, l, before, after);
    ViewsKept(g, l, before, after);
    if i < g.groups { ViewKept(g, l, before, after, i); }
  }

  /** The allocator's invariant only depends on its own metadata. */
  lemma ConsistentKept(g: Geometry, l: Layout, before: Disk, after: Disk, fb: nat, fi: nat)
    requires Consistent(g, l, before, fb, fi) && MetaKept(l, before, after) && DiskOk(g, after)
    ensures Consistent(g, l, after, fb, fi)
  {
    forall i: nat ensures Sound(g, l, after, fb, fi, i) {
      assert Sound(g, l, before, fb, fi, i);
      SoundKept(g, l, before, after, fb, fi, i);
    }
  }

  lemma Mounts(g: Geometry, l: Layout, disk: Disk, fb: nat, fi: nat)
    requires Consistent(g, l, disk, fb, fi)
    ensures Mounted(g, l, disk) && GeometryOk(g) && LayoutOk(g, l) && 1024 <= g.bs
    ensures forall b :: 0 <= b < |disk| ==> |disk[b]| == g.bs
    ensures Pointers(g, l, disk) && MetaInUse(g, l, disk)
  {
    assert Sound(g, l, disk, fb, fi, 0);
  }

  /** No block is freed, and no block in use is changed except the ones in `mine`. */
  ghost predicate KeptBlocks(g: Geometry, l: Layout, before: Disk, after: Disk, mine: set<nat>) {
    && |after| == |before|
    && (forall b: nat :: Free(g, l, after, b) ==> Free(g, l, before, b))
    && (forall b: nat :: b < |before| && Payload(l, b) && !Free(g, l, before, b) && b !in mine
         ==> after[b] == before[b])
  }

  /** ... and no inode is taken or released. */
  ghost predicate Kept(g: Geometry, l: Layout, before: Disk, after: Disk, mine: set<nat>) {
    KeptBlocks(g, l, before, after, mine) && SameFreeInodes(g, l, before, after)
  }

  lemma KeptBlocksTrans(g: Geometry, l: Layout, a: Disk, b: Disk, c: Disk, mine: set<nat>, more: set<nat>)
    requires KeptBlocks(g, l, a, b, mine) && KeptBlocks(g, l, b, c, more)
    requires forall x :: x in more ==> x in mine || Free(g, l, a, x)
    ensures KeptBlocks(g, l, a, c, mine)
  {
    hide Free;
  }

  lemma KeptTrans(g: Geometry, l: Layout, a: Disk, b: Disk, c: Disk, mine: set<nat>, more: set<nat>)
    requires Kept(g, l, a, b, mine) && Kept(g, l, b, c, more)
    requires forall x :: x in more ==> x in mine || Free(g, l, a, x)
    ensures Kept(g, l, a, c, mine)
  {
    hide Free, FreeInode;
    KeptBlocksTrans(g, l, a, b, c, mine, more);
  }

  lemma KeptMore(g: Geometry, l: Layout, before: Disk, after: Disk, mine: set<nat>, more: set<nat>)
    requires Kept(g, l, before, after, mine) && mine <= more
    ensures Kept(g, l, before, after, more)
  {
  }

  lemma KeptSame(g: Geometry, l: Layout, disk: Disk, mine: set<nat>)
    ensures Kept(g, l, disk, disk, mine)
  {
  }

  /** When no block was taken, what changed from one disk to the other is what changed back. */
  lemma KeptBack(g: Geometry, l: Layout, before: Disk, after: Disk, mine: set<nat>)
    requires Kept(g, l, before, after, mine) && SameFreeBlocks(g, l, before, after)
    ensures Kept(g, l, after, before, mine)
  {
    hide Free, FreeInode;
  }

  /** Writing a block of one's own. */
  lemma WriteKept(g: Geometry, l: Layout, disk: Disk, fb: nat, fi: nat, b: nat, buf: Buffer)
    requires Consistent(g, l, disk, fb, fi) && b < |disk| && Payload(l, b) && |buf| == g.bs
    ensures Consistent(g, l, disk[b := buf], fb, fi) && Kept(g, l, disk, disk[b := buf], {b})
    ensures SameFreeBlocks(g, l, disk, disk[b := buf])
  {
    ConsistentKept(g, l, disk, disk[b := buf], fb, fi);
    FreeKept(g, l, disk, disk[b := buf]);
  }

  /** Allocation changes no block that is in use. */
  lemma AllocKept(g: Geometry, l: Layout, before: Disk, after: Disk, b: nat)
    requires GeometryOk(g) && LayoutOk(g, l)
    requires OutsideKept(l, before, after) && BlockGone(g, l, before, after, b) && SameFreeInodes(g, l, before, after)
    ensures Kept(g, l, before, after, {})
  {
  }
}
