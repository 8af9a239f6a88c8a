/** Extent trees whose leaf blocks are in use by nobody else. */
module OwnedTree {
  import opened Bytes
  import opened Volume
  import opened Allocator
  import opened Frame
  import opened Extents
  import opened ExtentTree
  import opened TreeGrowth

  /** A block in use that is not metadata. */
  ghost predicate Owned(g: Geometry, l: Layout, disk: Disk, b: nat) {
    0 < b < |disk| && b < MAX_PBLOCK && b !in l.roles && !Free(g, l, disk, b)
  }

  ghost predicate TreeOwned(g: Geometry, l: Layout, raw: Buffer, disk: Disk)
    requires |raw| == INODE_BUF
  {
    forall i :: 0 <= i < |Kids(raw)| ==> Owned(g, l, disk, Kids(raw)[i].child)
  }

  lemma OwnedKept(g: Geometry, l: Layout, before: Disk, after: Disk, mine: set<nat>, b: nat)
    requires Owned(g, l, before, b) && KeptBlocks(g, l, before, after, mine)
    ensures Owned(g, l, after, b) && (b !in mine ==> SameBlock(before, after, b))
  {
  }

  lemma OwnedNew(g: Geometry, l: Layout, before: Disk, after: Disk, b: nat)
    requires Mounted(g, l, before) && Mounted(g, l, after) && BlockGone(g, l, before, after, b)
    ensures Owned(g, l, after, b)
  {
  }

  /** A tree none of whose leaves may be touched stays what it is. */
  lemma TreeKept(g: Geometry, l: Layout, ino: nat, raw: Buffer, before: Disk, after: Disk, mine: set<nat>)
    requires g.bs >= 12 && TreeOk(g, ino, raw, before) && TreeOwned(g, l, raw, before)
    requires KeptBlocks(g, l, before, after, mine) && KidBlocks(raw) !! mine
    ensures TreeOk(g, ino, raw, after) && TreeOwned(g, l, raw, after)
    ensures TreeExtents(raw, after) == TreeExtents(raw, before)
  {
    forall i | 0 <= i < |Kids(raw)|
      ensures Owned(g, l, after, Kids(raw)[i].child) && SameBlock(before, after, Kids(raw)[i].child)
    {
      assert Kids(raw)[i].child in KidBlocks(raw);
      OwnedKept(g, l, before, after, mine, Kids(raw)[i].child);
    }
    TreeFrame(g, ino, raw, before, after);
  }

  lemma LooseTreeKept(g: Geometry, l: Layout, raw: Buffer, before: Disk, after: Disk, mine: set<nat>)
    requires |raw| == INODE_BUF && TreeLoose(raw, before) && TreeOwned(g, l, raw, before)
    requires KeptBlocks(g, l, before, after, mine) && KidBlocks(raw) !! mine
    ensures TreeLoose(raw, after) && TreeOwned(g, l, raw, after)
    ensures TreeExtents(raw, after) == TreeExtents(raw, before)
  {
    hide TreeLoose;
    forall i | 0 <= i < |Kids(raw)|
      ensures Owned(g, l, after, Kids(raw)[i].child) && SameBlock(before, after, Kids(raw)[i].child)
    {
      assert Kids(raw)[i].child in KidBlocks(raw);
      OwnedKept(g, l, before, after, mine, Kids(raw)[i].child);
    }
    LooseFrame(raw, before, after);
  }

  lemma TreeOwnedKept(g: Geometry, l: Layout, raw: Buffer, before: Disk, after: Disk, mine: set<nat>)
    requires |raw| == INODE_BUF && TreeOwned(g, l, raw, before) && KeptBlocks(g, l, before, after, mine)
    ensures TreeOwned(g, l, raw, after)
  {
    forall i | 0 <= i < |Kids(raw)| ensures Owned(g, l, after, Kids(raw)[i].child) {
      OwnedKept(g, l, before, after, mine, Kids(raw)[i].child);
    }
  }

  /** The last leaf has no room for another record. */
  ghost predicate LastFull(g: Geometry, raw: Buffer, disk: Disk)
    requires |raw| == INODE_BUF && g.bs >= 12
  {
    |Kids(raw)| > 0 && |LeafAt(disk, Kids(raw)[|Kids(raw)| - 1].child)| >= LeafMax(g)
  }

  /** The block goes into the tree without another leaf. */
  ghost predicate Room(g: Geometry, raw: Buffer, disk: Disk, lb: nat, pb: nat)
    requires |raw| == INODE_BUF && g.bs >= 12
  {
    || Extends(TreeExtents(raw, disk), lb, pb)
    || (if |Kids(raw)| == 0 then |TreeExtents(raw, disk)| < ROOT_MAX else !LastFull(g, raw, disk))
  }

  /** How many records a split moves to the new leaf. */
  function Moved(g: Geometry): nat
    requires g.bs >= 12
  {
    LeafMax(g) - LeafMax(g) / 2
  }

  /** The leaves of the grown tree are the old ones and blocks that were free. */
  ghost predicate NewKids(g: Geometry, l: Layout, before: Disk, raw: Buffer, out: Buffer)
    requires |raw| == |out| == INODE_BUF
  {
    forall b :: b in KidBlocks(out) ==> b in KidBlocks(raw) || Free(g, l, before, b)
  }

  lemma LastLeaf(g: Geometry, l: Layout, ino: nat, raw: Buffer, disk: Disk)
    requires g.bs >= 12 && TreeOk(g, ino, raw, disk) && TreeOwned(g, l, raw, disk) && |Kids(raw)| > 0
    ensures var c := Kids(raw)[|Kids(raw)| - 1].child;
            && Owned(g, l, disk, c) && NodeOk(g, ino, Gen(raw), disk[c]) && c in KidBlocks(raw)
            && LeafAt(disk, c) == LeafExtents(disk[c], 0) && LeafOk(disk[c], 0) && RdHdr(disk[c], 0).value.max
                 == LeafMax(g)
            && |LeafAt(disk, c)| == RdHdr(disk[c], 0).value.entries <= LeafMax(g)
  {
    hide RdHdr, RdIndex, Full;
    var kids := Kids(raw);
    assert KidOk(g, ino, Gen(raw), disk, kids, |kids| - 1);
    LeafNonEmpty(g, ino, Gen(raw), disk[kids[|kids| - 1].child]);
  }

  lemma LastLeafSorted(g: Geometry, ino: nat, raw: Buffer, disk: Disk)
    requires g.bs >= 12 && TreeOk(g, ino, raw, disk) && |Kids(raw)| > 0
    ensures var es := LeafAt(disk, Kids(raw)[|Kids(raw)| - 1].child); Sorted(es) && Bounded(es)
  {
    hide RdHdr, RdIndex, LeafOk, KidOk;
    var head, last := LastLeafSplit(g, ino, raw, disk);
    SortedTail(head, last);
    forall i | 0 <= i < |last| ensures last[i] == (head + last)[|head| + i] { }
  }

  /** Rewriting the last leaf leaves the other leaves alone. */
  lemma LastOnly(g: Geometry, ino: nat, raw: Buffer, disk: Disk, buf: Buffer)
    requires g.bs >= 12 && TreeOk(g, ino, raw, disk) && |Kids(raw)| > 0
    requires Kids(raw)[|Kids(raw)| - 1].child < |disk|
    ensures OnlyLastChanged(disk, disk[Kids(raw)[|Kids(raw)| - 1].child := buf], Kids(raw))
  {
    var kids := Kids(raw);
    var m := |kids| - 1;
    assert KidOk(g, ino, Gen(raw), disk, kids, m);
    forall i | 0 <= i < m ensures SameBlock(disk, disk[kids[m].child := buf], kids[i].child) {
      assert KidOk(g, ino, Gen(raw), disk, kids, i);
    }
  }

  /** Allocating a block changes no leaf, and the block is in no leaf's place. */
  lemma TreeAllocated(g: Geometry, l: Layout, ino: nat, raw: Buffer, before: Disk, after: Disk, b: nat)
    requires g.bs >= 12 && Mounted(g, l, before) && Mounted(g, l, after) && OutsideKept(l, before, after)
    requires BlockGone(g, l, before, after, b) && SameFreeInodes(g, l, before, after)
    requires TreeOk(g, ino, raw, before) && TreeOwned(g, l, raw, before)
    ensures TreeOk(g, ino, raw, after) && TreeOwned(g, l, raw, after)
    ensures TreeExtents(raw, after) == TreeExtents(raw, before)
    ensures Owned(g, l, after, b) && Kept(g, l, before, after, {}) && b !in KidBlocks(raw)
    ensures KidsSame(raw, before, after)
    ensures forall i :: 0 <= i < |Kids(raw)| ==> SameBlock(before, after, Kids(raw)[i].child) && Kids(raw)[i].child != b
  {
    hide TreeOk, TreeExtents, GeometryOk, LayoutOk, Kids, ReservedBlock;
    AllocKept(g, l, before, after, b);
    OwnedNew(g, l, before, after, b);
    TreeKept(g, l, ino, raw, before, after, {});
    forall i | 0 <= i < |Kids(raw)|
      ensures SameBlock(before, after, Kids(raw)[i].child) && Kids(raw)[i].child != b
    {
      OwnedKept(g, l, before, after, {}, Kids(raw)[i].child);
    }
  }

  /** The tree kept its extents and got another leaf, the last one, which has room. */
  ghost predicate Resplit(g: Geometry, l: Layout, ino: nat, raw: Buffer, out: Buffer, before: Disk, after: Disk)
    requires g.bs >= 12 && |raw| == |out| == INODE_BUF
  {
    && TreeOk(g, ino, out, after) && TreeOwned(g, l, out, after) && NewKids(g, l, before, raw, out)
    && TreeExtents(out, after) == TreeExtents(raw, before)
    && |Kids(out)| > 0 && !LastFull(g, out, after) && LastKey(out) == SplitKey(g, raw, before) && Kids(raw) <= Kids(out)
  }

  /** The key of the last leaf once there is another one: that of the first record moved to it, or
      zero when the inode's own records move out. */
  ghost function SplitKey(g: Geometry, raw: Buffer, disk: Disk): nat
    requires |raw| == INODE_BUF && g.bs >= 12
  {
    if |Kids(raw)| == 0 then 0
    else
      var es := LeafAt(disk, Kids(raw)[|Kids(raw)| - 1].child);
      if LeafMax(g) / 2 < |es| then es[LeafMax(g) / 2].lb else 0
  }

  /** The key of the leaf that takes block `lb`. */
  ghost function KeyUsed(g: Geometry, raw: Buffer, disk: Disk, lb: nat, pb: nat): nat
    requires |raw| == INODE_BUF && g.bs >= 12
  {
    if Room(g, raw, disk, lb, pb) then LastKey(raw) else SplitKey(g, raw, disk)
  }

  /** What a failed insertion leaves: everything when there was no block to take, otherwise
      the extents without those a split moved to a leaf that the root could not take. */
  ghost predicate Spared(g: Geometry, l: Layout, raw: Buffer, before: Disk, after: Disk)
    requires g.bs >= 12 && |raw| == INODE_BUF && GeometryOk(g) && LayoutOk(g, l)
  {
    var es := TreeExtents(raw, before);
    if NoBlockLeft(g, l, before) then after == before
    else Moved(g) <= |es| && TreeExtents(raw, after) == es[..|es| - Moved(g)]
  }

  /** How far the insertion of a block got: not yet placed, placed, or failed. */
  ghost predicate Inserting(g: Geometry, l: Layout, ino: nat, raw: Buffer, out: Buffer, before: Disk, after: Disk,
                            lb: nat, pb: nat, s: Result<bool>)
    requires GeometryOk(g) && LayoutOk(g, l) && |raw| == |out| == INODE_BUF
  {
    && Kept(g, l, before, after, KidBlocks(raw)) && RootOnly(raw, out)
    && TreeOwned(g, l, out, after) && NewKids(g, l, before, raw, out) && Kids(raw) <= Kids(out)
    && match s
       case Err(e) => e == NoSpace && out == raw && TreeOk(g, ino, out, after) && Spared(g, l, raw, before, after)
                      && !Insertable(g, l, raw, before, lb, pb)
       case Ok(false) => && TreeOk(g, ino, out, after) && TreeExtents(out, after) == TreeExtents(raw, before)
           && |Kids(out)| > 0
                         && ((out == raw && after == before)
                              || (!Room(g, raw, before, lb, pb) && LastKey(out) == SplitKey(g, raw, before)))
       case Ok(true) => && Placed(g, ino, TreeExtents(raw, before), out, after, lb, pb)
                        && Insertable(g, l, raw, before, lb, pb) && LastKey(out) == KeyUsed(g, raw, before, lb, pb)
  }

  /** The block can be inserted: a leaf has room for it, or there is a block for another leaf
      and the root has room for that. */
  ghost predicate Insertable(g: Geometry, l: Layout, raw: Buffer, disk: Disk, lb: nat, pb: nat)
    requires GeometryOk(g) && LayoutOk(g, l) && |raw| == INODE_BUF
  {
    Room(g, raw, disk, lb, pb) || (!NoBlockLeft(g, l, disk) && |Kids(raw)| < ROOT_MAX)
  }

  /** Block `b`, the one that is handed out next, finds a place in the tree as file block `lb`. */
  ghost predicate Fits(g: Geometry, l: Layout, raw: Buffer, disk: Disk, lb: nat, b: nat)
    requires GeometryOk(g) && LayoutOk(g, l) && |raw| == INODE_BUF
  {
    Room(g, raw, disk, lb, b) || (|Kids(raw)| < ROOT_MAX && !OnlyOne(g, l, disk, b))
  }

  /** The file can get block `lb`: there is a block for it, and a place in the tree, with another
      block for another leaf if it takes one. */
  ghost predicate Growable(g: Geometry, l: Layout, raw: Buffer, disk: Disk, lb: nat)
    requires GeometryOk(g) && LayoutOk(g, l) && |raw| == INODE_BUF
  {
    exists b: nat :: Least(g, l, disk, b) && Fits(g, l, raw, disk, lb, b)
  }

  /** The leaf that takes block `lb` is the one it is looked for in, and its extent stays readable. */
  ghost predicate Visible(g: Geometry, raw: Buffer, disk: Disk, lb: nat, b: nat)
    requires |raw| == INODE_BUF && g.bs >= 12
  {
    KeyUsed(g, raw, disk, lb, b) <= lb && !Overlong(TreeExtents(raw, disk), lb, b)
  }

  /** Once inserted, block `lb` is found again. */
  ghost predicate Findable(g: Geometry, l: Layout, raw: Buffer, disk: Disk, lb: nat)
    requires GeometryOk(g) && LayoutOk(g, l) && |raw| == INODE_BUF
  {
    exists b: nat :: Least(g, l, disk, b) && Visible(g, raw, disk, lb, b)
  }

  /** What can be said before block `b` is taken still holds of the tree afterwards. */
  lemma Foreseen(g: Geometry, l: Layout, raw: Buffer, before: Disk, mid: Disk, lb: nat, b: nat)
    requires GeometryOk(g) && LayoutOk(g, l) && |raw| == INODE_BUF && Least(g, l, before, b)
    requires NoBlockLeft(g, l, mid) <==> OnlyOne(g, l, before, b)
    requires TreeExtents(raw, mid) == TreeExtents(raw, before)
    requires KidsSame(raw, before, mid)
    ensures Insertable(g, l, raw, mid, lb, b) <==> Growable(g, l, raw, before, lb)
    ensures KeyUsed(g, raw, mid, lb, b) == KeyUsed(g, raw, before, lb, b)
    ensures Visible(g, raw, before, lb, b) <==> Findable(g, l, raw, before, lb)
  {
    hide GeometryOk, LayoutOk, TreeExtents, Kids, NoBlockLeft, OnlyOne, Spare, LeafExtents, Overlong, Extends;
    forall x: nat | Least(g, l, before, x) ensures x == b { OneLeast(g, l, before, x, b); }
    assert Least(g, l, before, b) && (Fits(g, l, raw, before, lb, b) ==> Growable(g, l, raw, before, lb));
  }

  /** The file can get block `lb` once the blocks in `taken` are gone. */
  ghost predicate GrowableBut(g: Geometry, l: Layout, raw: Buffer, disk: Disk, lb: nat, taken: set<nat>)
    requires GeometryOk(g) && LayoutOk(g, l) && |raw| == INODE_BUF
  {
    exists b: nat :: LeastBut(g, l, disk, taken, b)
      && (Room(g, raw, disk, lb, b) || (|Kids(raw)| < ROOT_MAX && !OnlyBut(g, l, disk, taken, b)))
  }

  /** ... and find it again. */
  ghost predicate FindableBut(g: Geometry, l: Layout, raw: Buffer, disk: Disk, lb: nat, taken: set<nat>)
    requires GeometryOk(g) && LayoutOk(g, l) && |raw| == INODE_BUF
  {
    exists b: nat :: LeastBut(g, l, disk, taken, b) && Visible(g, raw, disk, lb, b)
  }

  /** The root's leaves are unchanged on disk. */
  ghost predicate KidsSame(raw: Buffer, before: Disk, after: Disk)
    requires |raw| == INODE_BUF
  {
    forall i :: 0 <= i < |Kids(raw)| ==> SameBlock(before, after, Kids(raw)[i].child)
  }

  lemma LeastTook(g: Geometry, l: Layout, before: Disk, mid: Disk, gone: set<nat>, taken: set<nat>, b: nat)
    requires GeometryOk(g) && LayoutOk(g, l) && TookBlocks(g, l, before, mid, gone)
    ensures LeastBut(g, l, mid, taken, b) <==> LeastBut(g, l, before, gone + taken, b)
    ensures OnlyBut(g, l, mid, taken, b) <==> OnlyBut(g, l, before, gone + taken, b)
  {
    hide Free, ReservedBlock, GeometryOk, LayoutOk;
    forall x: nat ensures Spare(g, l, mid, x) && x !in taken <==> Spare(g, l, before, x) && x !in gone + taken { }
  }

  /** Whether a file can grow only depends on its tree and on which blocks are free. */
  lemma GrowthTook(g: Geometry, l: Layout, raw: Buffer, before: Disk, mid: Disk, lb: nat, gone: set<nat>,
                   taken: set<nat>)
    requires GeometryOk(g) && LayoutOk(g, l) && |raw| == INODE_BUF && TookBlocks(g, l, before, mid, gone)
    requires TreeExtents(raw, mid) == TreeExtents(raw, before) && KidsSame(raw, before, mid)
    ensures GrowableBut(g, l, raw, mid, lb, taken) <==> GrowableBut(g, l, raw, before, lb, gone + taken)
    ensures FindableBut(g, l, raw, mid, lb, taken) <==> FindableBut(g, l, raw, before, lb, gone + taken)
  {
    hide LayoutOk, TreeExtents, Kids, LeastBut, OnlyBut, TookBlocks, LeafExtents, Overlong, Extends;
    forall b: nat
      ensures LeastBut(g, l, mid, taken, b) <==> LeastBut(g, l, before, gone + taken, b)
      ensures OnlyBut(g, l, mid, taken, b) <==> OnlyBut(g, l, before, gone + taken, b)
      ensures Room(g, raw, mid, lb, b) <==> Room(g, raw, before, lb, b)
      ensures Visible(g, raw, mid, lb, b) <==> Visible(g, raw, before, lb, b)
    {
      LeastTook(g, l, before, mid, gone, taken, b);
    }
  }

  lemma GrowthNow(g: Geometry, l: Layout, raw: Buffer, disk: Disk, lb: nat)
    requires GeometryOk(g) && LayoutOk(g, l) && |raw| == INODE_BUF
    ensures GrowableBut(g, l, raw, disk, lb, {}) <==> Growable(g, l, raw, disk, lb)
    ensures FindableBut(g, l, raw, disk, lb, {}) <==> Findable(g, l, raw, disk, lb)
  {
    hide LayoutOk, Room, Visible, Kids, Spare;
    forall b: nat
      ensures LeastBut(g, l, disk, {}, b) <==> Least(g, l, disk, b)
      ensures OnlyBut(g, l, disk, {}, b) <==> OnlyOne(g, l, disk, b)
    { }
  }

  lemma OneLeast(g: Geometry, l: Layout, disk: Disk, a: nat, b: nat)
    requires GeometryOk(g) && LayoutOk(g, l) && Least(g, l, disk, a) && Least(g, l, disk, b)
    ensures a == b
  {
    hide Spare, GeometryOk, LayoutOk;
  }

  /** Without a block to hand out nothing grows. */
  lemma NoGrowth(g: Geometry, l: Layout, raw: Buffer, disk: Disk, lb: nat)
    requires GeometryOk(g) && LayoutOk(g, l) && |raw| == INODE_BUF && NoBlockLeft(g, l, disk)
    ensures !Growable(g, l, raw, disk, lb)
  {
    hide GeometryOk, LayoutOk, Fits, ReservedBlock, Free;
  }

  /** A block beyond all others is looked for in the leaf that takes it. */
  lemma BeyondKey(g: Geometry, ino: nat, raw: Buffer, disk: Disk, lb: nat, pb: nat)
    requires g.bs >= 12 && |raw| == INODE_BUF && TreeOk(g, ino, raw, disk) && Beyond(TreeExtents(raw, disk), lb)
    ensures KeyUsed(g, raw, disk, lb, pb) <= lb
  {
    hide TreeExtents, RdHdr, RdIndex, LeafOk, KidOk, Room;
    if |Kids(raw)| > 0 {
      var head, last := LastLeafSplit(g, ino, raw, disk);
      BeyondTail(head, last, lb);
      assert Kids(raw)[|Kids(raw)| - 1].lb <= last[0].lb;
    }
  }

  /** What can keep a file from getting block `lb`: no block is left, or the blocks before it
      are enough to fill a leaf. */
  ghost predicate Crowded(g: Geometry, l: Layout, disk: Disk, lb: nat)
    requires GeometryOk(g) && LayoutOk(g, l)
  {
    NoBlockLeft(g, l, disk) || lb >= LeafMax(g)
  }

  /** Extents before block `lb` are at most `lb` many. */
  lemma {:induction false} ExtentCount(es: seq<Extent>, lb: nat)
    requires Sorted(es) && Beyond(es, lb)
    ensures |es| <= lb
    decreases |es|
  {
    if es != [] {
      var n := |es| - 1;
      ExtentCount(es[..n], es[n].lb);
    }
  }

  /** An insertion is only refused to a crowded file. */
  lemma RefusedCrowded(g: Geometry, l: Layout, ino: nat, raw: Buffer, disk: Disk, lb: nat, pb: nat)
    requires GeometryOk(g) && LayoutOk(g, l) && |raw| == INODE_BUF && TreeOk(g, ino, raw, disk)
    requires Beyond(TreeExtents(raw, disk), lb)
    requires !Insertable(g, l, raw, disk, lb, pb)
    ensures Crowded(g, l, disk, lb)
  {
    hide NoBlockLeft, LeafMax, GeometryOk, LayoutOk, LeafExtents, KidOk;
    ExtentCount(TreeExtents(raw, disk), lb);
    if |Kids(raw)| == ROOT_MAX {
      var ls := Leaves(disk, Kids(raw));
      assert Concat(ls) == Concat(ls[..|ls| - 1]) + ls[|ls| - 1];
    }
  }

  /** A root that points at the first leaves of a well-formed tree heads a well-formed tree: the
      part below the key of the first leaf it lacks. */
  lemma PrefixTree(g: Geometry, ino: nat, raw: Buffer, cur: Buffer, disk: Disk)
    requires g.bs >= 12 && |raw| == |cur| == INODE_BUF && RootOk(raw) && Gen(cur) == Gen(raw)
    requires 0 < |Kids(raw)| && Kids(raw) <= Kids(cur) && TreeOk(g, ino, cur, disk)
    ensures TreeOk(g, ino, raw, disk) && TreeExtents(raw, disk) <= TreeExtents(cur, disk)
    ensures |Kids(raw)| == |Kids(cur)| ==> TreeExtents(raw, disk) == TreeExtents(cur, disk)
  {
    hide LeafExtents, LeafAt, KidOk, Sorted, Bounded, LeafOk, Kids, RdIndex;
    var kids, more := Kids(raw), Kids(cur);
    RootHeader(raw);
    RootHeader(cur);
    forall i | 0 <= i < |kids| ensures KidOk(g, ino, Gen(raw), disk, kids, i) {
      PrefixKid(g, ino, Gen(raw), disk, kids, more, i);
    }
    assert Leaves(disk, more)[..|kids|] == Leaves(disk, kids);
    ConcatPrefix(Leaves(disk, more), |kids|);
    assert |kids| == |more| ==> kids == more;
    var es := TreeExtents(cur, disk);
    PrefixOk(es, |TreeExtents(raw, disk)|);
    assert TreeExtents(raw, disk) == es[..|TreeExtents(raw, disk)|];
  }

  lemma PrefixKid(g: Geometry, ino: nat, gen: nat, disk: Disk, kids: seq<Index>, more: seq<Index>, i: nat)
    requires g.bs >= 12 && kids <= more && i < |kids|
    requires forall j :: 0 <= j < |more| ==> KidOk(g, ino, gen, disk, more, j)
    ensures KidOk(g, ino, gen, disk, kids, i)
  {
    hide LeafExtents, NodeOk;
    assert KidOk(g, ino, gen, disk, more, i);
    if i + 1 < |more| {
      var m := |more| - 1;
      forall j | 0 <= j < |more| ensures KidLoose(disk, more, j) { assert KidOk(g, ino, gen, disk, more, j); }
      KeysGrow(disk, more, i, m);
      assert KidLoose(disk, more, m);
    }
    assert kids[i] == more[i] && (i + 1 < |kids| ==> kids[i + 1] == more[i + 1]);
    forall j | 0 <= j < i ensures kids[j].child != kids[i].child { assert kids[j] == more[j]; }
  }

  lemma PrefixTrans(a: seq<Index>, b: seq<Index>, c: seq<Index>)
    requires a <= b && b <= c
    ensures a <= c
  {
  }

  lemma {:induction false} ConcatPrefix(ls: seq<seq<Extent>>, n: nat)
    requires n <= |ls|
    ensures Concat(ls[..n]) <= Concat(ls)
  {
    if n < |ls| {
      ConcatPrefix(ls[..|ls| - 1], n);
      assert ls[..|ls| - 1][..n] == ls[..n];
    } else {
      assert ls[..n] == ls;
    }
  }

  lemma PrefixOk(es: seq<Extent>, n: nat)
    requires Sorted(es) && Bounded(es) && n <= |es|
    ensures Sorted(es[..n]) && Bounded(es[..n])
  {
  }

  lemma LostKids(g: Geometry, ino: nat, gen: nat, disk: Disk, after: Disk, kids: seq<Index>, half: nat, fsb: nat)
    requires g.bs >= 12 && |kids| > 0 && KidsOk(g, ino, gen, disk, kids)
    requires Halved(g, ino, gen, disk, after, kids, half, fsb)
    ensures KidsOk(g, ino, gen, after, kids)
  {
    hide LeafExtents, Full, LeafSealed;
    forall i | 0 <= i < |kids| ensures KidOk(g, ino, gen, after, kids, i) {
      assert KidOk(g, ino, gen, disk, kids, i);
      if i < |kids| - 1 { assert SameBlock(disk, after, kids[i].child); }
    }
  }

  lemma LostTree(g: Geometry, ino: nat, raw: Buffer, before: Disk, after: Disk, half: nat, fsb: nat, n: nat)
    requires g.bs >= 12 && TreeOk(g, ino, raw, before) && |Kids(raw)| > 0
    requires Halved(g, ino, Gen(raw), before, after, Kids(raw), half, fsb)
    requires n <= |TreeExtents(raw, before)| && TreeExtents(raw, after) == TreeExtents(raw, before)[..n]
    ensures TreeOk(g, ino, raw, after)
  {
    hide TreeExtents, Halved, KidOk, RdHdr, Sorted, Bounded;
    PrefixOk(TreeExtents(raw, before), n);
    LostKids(g, ino, Gen(raw), before, after, Kids(raw), half, fsb);
  }

  /** A split whose new leaf finds no place in the root. */
  lemma SplitLost(g: Geometry, l: Layout, ino: nat, raw: Buffer, before: Disk, after: Disk, fsb: nat)
    requires GeometryOk(g) && LayoutOk(g, l) && !NoBlockLeft(g, l, before) && |raw| == INODE_BUF
    requires TreeOk(g, ino, raw, before) && TreeOwned(g, l, raw, before) && LastFull(g, raw, before)
    requires Halved(g, ino, Gen(raw), before, after, Kids(raw), LeafMax(g) / 2, fsb)
    ensures TreeOk(g, ino, raw, after) && Spared(g, l, raw, before, after)
  {
    hide LayoutOk, NoBlockLeft, TreeOk, TreeExtents, NodeOk, LeafExtents, Kids, RdHdr;
    LastLeaf(g, l, ino, raw, before);
    SplitTruncates(g, ino, raw, before, after, LeafMax(g) / 2);
    LostTree(g, ino, raw, before, after, LeafMax(g) / 2, fsb, |TreeExtents(raw, before)| - Moved(g));
  }

  /** A split whose new leaf the root takes. */
  lemma SplitKept(g: Geometry, l: Layout, ino: nat, raw: Buffer, out: Buffer, before: Disk, after: Disk, x: Index)
    requires g.bs >= 12 && TreeOk(g, ino, raw, before) && TreeOwned(g, l, raw, before) && LastFull(g, raw, before)
    requires Halved(g, ino, Gen(raw), before, after, Kids(raw), LeafMax(g) / 2, x.child)
    requires x.lb == LeafAt(before, Kids(raw)[|Kids(raw)| - 1].child)[LeafMax(g) / 2].lb
    requires KeptBlocks(g, l, before, after, KidBlocks(raw)) && Owned(g, l, after, x.child)
    requires Free(g, l, before, x.child)
    requires RootOnly(raw, out) && RootOk(out) && Kids(out) == Kids(raw) + [x]
    requires RdHdr(out, IBLOCK) == Some(Header(|Kids(raw)| + 1, ROOT_MAX, 1))
    ensures Resplit(g, l, ino, raw, out, before, after)
  {
    hide TreeOk, TreeExtents, KeptBlocks, Free, LeafExtents, NodeOk, RdHdr, Kids;
    RootOnlyGen(raw, out);
    LastLeaf(g, l, ino, raw, before);
    SplitDone(g, ino, raw, out, before, after, LeafMax(g) / 2, x);
    KidBlocksGrow(raw, out, x);
    TreeOwnedKept(g, l, raw, before, after, KidBlocks(raw));
  }

  lemma StillOk(g: Geometry, ino: nat, raw: Buffer, disk: Disk, leaf: nat, buf: Buffer, lb: nat, pb: nat)
    requires g.bs >= 12 && |raw| == INODE_BUF && TreeOk(g, ino, raw, disk) && |Kids(raw)| > 0
    requires leaf == Kids(raw)[|Kids(raw)| - 1].child < |disk| && TreeOk(g, ino, raw, disk[leaf := buf])
    requires LeafExtents(buf, 0) == Inserted(LeafExtents(disk[leaf], 0), lb, pb)
    requires RdHdr(buf, 0).Some? && |LeafExtents(disk[leaf], 0)| <= RdHdr(buf, 0).value.entries
    requires TreeExtents(raw, disk[leaf := buf]) == Inserted(TreeExtents(raw, disk), lb, pb)
    requires Overlong(TreeExtents(raw, disk), lb, pb) == Overlong(LeafExtents(disk[leaf], 0), lb, pb)
    ensures Beyond(TreeExtents(raw, disk), lb) && !Overlong(TreeExtents(raw, disk), lb, pb)
  {
    hide TreeExtents, LeafExtents, RdExtent, RdIndex, Kids, Beyond;
    InsertedSorted(TreeExtents(raw, disk), lb, pb);
    assert KidOk(g, ino, Gen(raw), disk[leaf := buf], Kids(raw), |Kids(raw)| - 1);
    LeafCount(buf, 0);
  }

  /** A record added to the last leaf is a record added to the tree. */
  lemma PlacedInLeaf(g: Geometry, ino: nat, raw: Buffer, disk: Disk, leaf: nat, buf: Buffer, lb: nat, pb: nat)
    requires g.bs >= 12 && |raw| == INODE_BUF && TreeOk(g, ino, raw, disk) && |Kids(raw)| > 0
    requires lb !in FileMap(raw, disk) && lb + 1 < U32 && pb < MAX_PBLOCK
    requires leaf == Kids(raw)[|Kids(raw)| - 1].child < |disk|
    requires LeafExtents(buf, 0) == Inserted(LeafExtents(disk[leaf], 0), lb, pb)
    requires RdHdr(buf, 0).Some? && RdHdr(buf, 0).value.depth == 0
    requires |LeafExtents(disk[leaf], 0)| <= RdHdr(buf, 0).value.entries
    requires !Overlong(LeafExtents(disk[leaf], 0), lb, pb) ==> NodeOk(g, ino, Gen(raw), buf)
    ensures Placed(g, ino, TreeExtents(raw, disk), raw, disk[leaf := buf], lb, pb)
  {
    hide TreeOk, TreeLoose, TreeExtents, Inserted, Overlong, Beyond, NodeOk, MapOf, Found;
    var after := disk[leaf := buf];
    LastOnly(g, ino, raw, disk, buf);
    ExtendsLast(g, ino, raw, disk, lb, pb);
    LastLeafExtents(g, ino, raw, disk, after, lb, pb);
    LastLeafLoose(g, ino, raw, disk, after, lb, pb);
    if Beyond(TreeExtents(raw, disk), lb) && !Overlong(TreeExtents(raw, disk), lb, pb) {
      LastLeafInserted(g, ino, raw, disk, after, lb, pb);
    }
    if TreeOk(g, ino, raw, after) { StillOk(g, ino, raw, disk, leaf, buf, lb, pb); }
    OkLoose(g, ino, raw, disk);
    forall k: nat | k < U32
      ensures Found(raw, after, k)
              == Lookup(MapOf(if LastKey(raw) <= lb then Inserted(TreeExtents(raw, disk), lb, pb)
                  else TreeExtents(raw, disk)), k)
    {
      if LastKey(raw) <= lb {
        FoundLoose(raw, after, k);
      } else {
        LastLeafHidden(g, ino, raw, disk, after, lb, pb, k);
        FoundLoose(raw, disk, k);
      }
    }
  }

  /** Storing the two halves of the last leaf, the upper one in a block no leaf is in. */
  lemma HalvesStored(g: Geometry, ino: nat, raw: Buffer, disk: Disk, mid: Disk, leaf: nat, fsb: nat, lo: Buffer,
                     hi: Buffer, half: nat)
    requires g.bs >= 12 && TreeOk(g, ino, raw, disk) && |Kids(raw)| > 0 && |mid| == |disk|
    requires forall i :: 0 <= i < |Kids(raw)| ==> SameBlock(disk, mid, Kids(raw)[i].child) && Kids(raw)[i].child != fsb
    requires leaf == Kids(raw)[|Kids(raw)| - 1].child && 0 < fsb < |disk| && 0 < half < |LeafAt(disk, leaf)|
    requires NodeOk(g, ino, Gen(raw), lo) && LeafExtents(lo, 0) == LeafAt(disk, leaf)[..half]
    requires NodeOk(g, ino, Gen(raw), hi) && LeafExtents(hi, 0) == LeafAt(disk, leaf)[half..]
    ensures Halved(g, ino, Gen(raw), disk, mid[leaf := lo][fsb := hi], Kids(raw), half, fsb)
  {
    hide NodeOk, LeafExtents, TreeExtents;
    var kids := Kids(raw);
    forall i | 0 <= i < |kids| - 1 ensures kids[i].child != leaf {
      assert KidOk(g, ino, Gen(raw), disk, kids, |kids| - 1);
    }
  }

  /** The inode's extents in a leaf of their own, with the inode pointing at it. */
  lemma DeepenedTree(g: Geometry, l: Layout, ino: nat, raw: Buffer, out: Buffer, before: Disk, mid: Disk, leaf: nat,
                     blk: Buffer)
    requires GeometryOk(g) && TreeOk(g, ino, raw, before) && |mid| == |before| && Free(g, l, before, leaf)
    requires RdHdr(raw, IBLOCK).Some? && RdHdr(raw, IBLOCK).value.depth == 0
    requires RootOnly(raw, out) && leaf < |mid| && Owned(g, l, mid[leaf := blk], leaf)
    requires RdHdr(out, IBLOCK) == Some(Header(1, ROOT_MAX, 1)) && RdIndex(out, IBLOCK, 0) == Some(Index(0, leaf))
    requires NodeOk(g, ino, Gen(raw), blk) && LeafExtents(blk, 0) == TreeExtents(raw, before)
    requires |TreeExtents(raw, before)| <= ROOT_MAX
    ensures Resplit(g, l, ino, raw, out, before, mid[leaf := blk])
  {
    hide LeafExtents, NodeOk, RdIndex, RdExtent, Free;
    TailFits(g);
    RootOnlyGen(raw, out);
    Deepened(g, ino, raw, out, before, mid[leaf := blk], leaf);
  }

  lemma KidBlocksGrow(raw: Buffer, out: Buffer, x: Index)
    requires |raw| == |out| == INODE_BUF && Kids(out) == Kids(raw) + [x]
    ensures KidBlocks(out) == KidBlocks(raw) + {x.child}
  {
    var kids, more := Kids(raw), Kids(out);
    forall b | b in KidBlocks(out) ensures b in KidBlocks(raw) + {x.child} {
      var i :| 0 <= i < |more| && more[i].child == b;
      if i < |kids| { assert kids[i].child == b; }
    }
    forall b | b in KidBlocks(raw) + {x.child} ensures b in KidBlocks(out) {
      if b in KidBlocks(raw) {
        var i :| 0 <= i < |kids| && kids[i].child == b;
        assert more[i].child == b;
      } else {
        assert more[|kids|].child == b;
      }
    }
  }
}
