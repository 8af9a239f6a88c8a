/** How an extent tree grows: a record is merged or appended in a leaf, the inode's own leaf
    moves out to a block, and a full leaf splits in two. */
module TreeGrowth {
  import opened Bytes
  import opened Crc
  import opened Volume
  import opened Extents
  import opened ExtentTree

  // ------------------------------------------------------------- one leaf

  /** What changed in a leaf that took one more block. */
  ghost predicate LeafGrew(b: Buffer, c: Buffer, base: nat, lb: nat, pb: nat)
    requires LeafOk(b, base)
  {
    var h := RdHdr(b, base).value;
    && |c| == |b| && RdHdr(c, base).Some? && RdHdr(c, base).value.max == h.max && RdHdr(c, base).value.depth == 0
    && h.entries <= RdHdr(c, base).value.entries <= h.max
    && LeafExtents(c, base) == Inserted(LeafExtents(b, base), lb, pb)
    && (!Overlong(LeafExtents(b, base), lb, pb) ==> LeafOk(c, base))
    && forall k :: 0 <= k < |b| && !(base <= k < Slot(base, h.max)) ==> c[k] == b[k]
  }

  /** The last record of a leaf, as the driver reads it. */
  lemma LastRecord(b: Buffer, base: nat)
    requires LeafOk(b, base) && RdHdr(b, base).value.entries > 0
    ensures var n := RdHdr(b, base).value.entries - 1;
            && RdExtent(b, base, n).Some? && |LeafExtents(b, base)| == n + 1
            && LeafExtents(b, base)[n] == RdExtent(b, base, n).value
  {
    ShownFull(b, base, RdHdr(b, base).value.entries);
  }

  /** Growing the last extent of a list, as far as its length can still be read. */
  lemma InsertedLast(es: seq<Extent>, head: seq<Extent>, e: Extent, lb: nat, pb: nat)
    requires es == head + [e] && e.lb + e.len == lb && e.pb + e.len == pb
    ensures Inserted(es, lb, pb) == head + if e.len + 1 == UNWRITTEN then [] else [e.(len := e.len + 1)]
    ensures Overlong(es, lb, pb) <==> e.len + 1 == UNWRITTEN
  {
  }

  lemma MergedRecord(b: Buffer, c: Buffer, base: nat, n: nat, e: Extent, f: Option<Extent>, lb: nat, pb: nat)
    requires |b| == |c| && Full(b, base, n + 1) && RdExtent(b, base, n) == Some(e) && RdExtent(c, base, n) == f
    requires forall k :: Slot(base, 0) <= k < Slot(base, n) && k < |b| ==> b[k] == c[k]
    requires e.lb + e.len == lb && e.pb + e.len == pb
    requires f == if e.len + 1 < UNWRITTEN then Some(e.(len := e.len + 1)) else None
    ensures Shown(c, base, n + 1) == Inserted(Shown(b, base, n + 1), lb, pb)
    ensures !Overlong(Shown(b, base, n + 1), lb, pb) ==> Full(c, base, n + 1)
  {
    hide RdExtent;
    ShownFull(b, base, n + 1);
    ShownReplaceLast(b, c, base, n);
    InsertedLast(Shown(b, base, n + 1), Shown(b, base, n), e, lb, pb);
  }

  method LeafMerge(b: Buffer, base: nat, n: nat, e: Extent, lb: nat, pb: nat) returns (c: Buffer)
    requires LeafOk(b, base) && RdHdr(b, base).value.max < U16
    requires RdHdr(b, base).value.entries == n + 1 && RdExtent(b, base, n) == Some(e)
    requires e.lb + e.len == lb < U32 && e.pb + e.len == pb < MAX_PBLOCK
    ensures LeafGrew(b, c, base, lb, pb)
  {
    hide RdExtent, Inserted, Overlong, Shown;
    c := WrExtent(b, base, n, e.(len := e.len + 1));
    HeaderFrame(b, c, base);
    MergedRecord(b, c, base, n, e, RdExtent(c, base, n), lb, pb);
  }

  method LeafAppend(b: Buffer, base: nat, lb: nat, pb: nat) returns (c: Buffer)
    requires LeafOk(b, base) && RdHdr(b, base).value.max < U16
    requires RdHdr(b, base).value.entries < RdHdr(b, base).value.max
    requires lb < U32 && pb < MAX_PBLOCK && !Extends(LeafExtents(b, base), lb, pb)
    ensures LeafGrew(b, c, base, lb, pb)
  {
    hide RdExtent, Le16, Le32, Shown;
    var h := RdHdr(b, base).value;
    ShownFull(b, base, h.entries);
    var d := WrExtent(b, base, h.entries, Extent(lb, 1, pb));
    c := WrHdr(d, base, h.(entries := h.entries + 1));
    RecordsFrame(d, c, base, h.entries);
    ShownAppend(b, c, base, h.entries, Extent(lb, 1, pb));
  }

  /** Merges the block into the last record of a leaf or appends a record, if it can. */
  method LeafInsert(b: Buffer, base: nat, lb: nat, pb: nat) returns (done: bool, c: Buffer)
    requires LeafOk(b, base) && RdHdr(b, base).value.max < U16
    requires lb < U32 && pb < MAX_PBLOCK
    ensures done <==> Extends(LeafExtents(b, base), lb, pb) || RdHdr(b, base).value.entries < RdHdr(b, base).value.max
    ensures if done then LeafGrew(b, c, base, lb, pb) else c == b
  {
    var h := RdHdr(b, base).value;
    if h.entries > 0 {
      LastRecord(b, base);
      var e := RdExtent(b, base, h.entries - 1).value;
      if e.lb + e.len == lb && e.pb + e.len == pb {
        c := LeafMerge(b, base, h.entries - 1, e, lb, pb);
        return true, c;
      }
    }
    if h.entries < h.max {
      c := LeafAppend(b, base, lb, pb);
      return true, c;
    }
    return false, b;
  }

  // ------------------------------------------------------------ the frame

  /** A tree only depends on the inode and on its own leaf blocks. */
  lemma LeavesFrame(disk: Disk, after: Disk, kids: seq<Index>)
    requires |after| == |disk|
    requires forall i :: 0 <= i < |kids| ==> LeafAt(after, kids[i].child) == LeafAt(disk, kids[i].child)
    ensures Leaves(after, kids) == Leaves(disk, kids)
  {
  }

  ghost predicate SameBlock(disk: Disk, after: Disk, b: nat) {
    b < |disk| && b < |after| && after[b] == disk[b]
  }

  lemma TreeFrame(g: Geometry, ino: nat, raw: Buffer, disk: Disk, after: Disk)
    requires g.bs >= 12 && TreeOk(g, ino, raw, disk) && |after| == |disk|
    requires forall i :: 0 <= i < |Kids(raw)| ==> SameBlock(disk, after, Kids(raw)[i].child)
    ensures TreeOk(g, ino, raw, after) && TreeExtents(raw, after) == TreeExtents(raw, disk)
  {
    var kids := Kids(raw);
    forall i | 0 <= i < |kids|
      ensures LeafAt(after, kids[i].child) == LeafAt(disk, kids[i].child)
      ensures KidOk(g, ino, Gen(raw), after, kids, i)
    {
      assert KidOk(g, ino, Gen(raw), disk, kids, i);
    }
    LeavesFrame(disk, after, kids);
  }

  lemma LooseFrame(raw: Buffer, disk: Disk, after: Disk)
    requires TreeLoose(raw, disk) && |after| == |disk|
    requires forall i :: 0 <= i < |Kids(raw)| ==> SameBlock(disk, after, Kids(raw)[i].child)
    ensures TreeLoose(raw, after) && TreeExtents(raw, after) == TreeExtents(raw, disk)
  {
    var kids := Kids(raw);
    forall i | 0 <= i < |kids|
      ensures LeafAt(after, kids[i].child) == LeafAt(disk, kids[i].child)
      ensures KidLoose(after, kids, i)
    {
      assert KidLoose(disk, kids, i);
    }
    LeavesFrame(disk, after, kids);
  }

  /** The tree `out` on the disk `after` has block `lb` at the end of the extents `es`. It stays
      well-formed exactly if the block lies beyond them and its extent can be read, and serves
      lookups exactly if it is not below the last key. */
  ghost predicate Placed(g: Geometry, ino: nat, es: seq<Extent>, out: Buffer, after: Disk, lb: nat, pb: nat)
    requires g.bs >= 12 && |out| == INODE_BUF
  {
    && TreeExtents(out, after) == Inserted(es, lb, pb)
    && (TreeOk(g, ino, out, after) <==> Beyond(es, lb) && !Overlong(es, lb, pb))
    && (TreeLoose(out, after) <==> LastKey(out) <= lb)
    && TreeReadable(out, after) && Located(es, out, after, lb, pb)
  }

  lemma LeafCount(b: Buffer, base: nat)
    requires LeafOk(b, base)
    ensures |LeafExtents(b, base)| == RdHdr(b, base).value.entries
  {
    ShownFull(b, base, RdHdr(b, base).value.entries);
  }

  // ------------------------------------------------- growing inside the inode

  lemma InlineInserted(g: Geometry, ino: nat, raw: Buffer, after: Buffer, disk: Disk, lb: nat, pb: nat)
    requires g.bs >= 12 && TreeOk(g, ino, raw, disk) && RdHdr(raw, IBLOCK).Some? && RdHdr(raw, IBLOCK).value.depth == 0
    requires lb !in FileMap(raw, disk) && lb + 1 < U32 && pb < MAX_PBLOCK
    requires |after| == INODE_BUF && RdHdr(after, IBLOCK).Some? && RootOk(after) && RdHdr(after, IBLOCK).value.depth
        == 0
    requires LeafExtents(after, IBLOCK) == Inserted(LeafExtents(raw, IBLOCK), lb, pb)
    requires RdHdr(raw, IBLOCK).value.entries <= RdHdr(after, IBLOCK).value.entries
    requires !Overlong(LeafExtents(raw, IBLOCK), lb, pb) ==> LeafOk(after, IBLOCK)
    ensures Kids(after) == Kids(raw) == [] && Placed(g, ino, TreeExtents(raw, disk), after, disk, lb, pb)
  {
    hide MapOf, Found, RdExtent;
    InsertedDisjoint(TreeExtents(raw, disk), lb, pb);
    InsertedSorted(TreeExtents(raw, disk), lb, pb);
    LeafCount(raw, IBLOCK);
    if LeafOk(after, IBLOCK) { LeafCount(after, IBLOCK); }
    if Beyond(TreeExtents(raw, disk), lb) { InsertedOk(TreeExtents(raw, disk), lb, pb); }
    LooseReadable(after, disk);
    forall k: nat | k < U32 ensures Found(after, disk, k) == Lookup(MapOf(TreeExtents(after, disk)),
        k) { FoundLoose(after, disk, k); }
  }

  /** An inode without a header has an empty tree; writing an empty header keeps it so. */
  lemma HeaderMade(g: Geometry, ino: nat, raw: Buffer, after: Buffer, disk: Disk)
    requires g.bs >= 12 && |raw| == |after| == INODE_BUF && RdHdr(raw, IBLOCK).None?
    requires RdHdr(after, IBLOCK) == Some(Header(0, ROOT_MAX, 0))
    ensures TreeOk(g, ino, after, disk) && TreeExtents(after, disk) == TreeExtents(raw, disk) == [] && Kids(raw) == []
  {
  }

  /** Moving the inode's extents out to one leaf keeps the tree. */
  lemma Deepened(g: Geometry, ino: nat, raw: Buffer, after: Buffer, disk: Disk, disk': Disk, leaf: nat)
    requires g.bs >= 12 && TreeOk(g, ino, raw, disk) && RdHdr(raw, IBLOCK).Some? && RdHdr(raw, IBLOCK).value.depth == 0
    requires |after| == INODE_BUF && Gen(after) == Gen(raw)
    requires RdHdr(after, IBLOCK) == Some(Header(1, ROOT_MAX, 1)) && RdIndex(after, IBLOCK, 0) == Some(Index(0, leaf))
    requires 0 < leaf < |disk'| && leaf < MAX_PBLOCK && NodeOk(g, ino, Gen(raw), disk'[leaf])
    requires LeafExtents(disk'[leaf], 0) == TreeExtents(raw, disk)
    ensures Kids(after) == [Index(0, leaf)]
    ensures TreeOk(g, ino, after, disk') && TreeExtents(after, disk') == TreeExtents(raw, disk)
  {
    hide RdExtent;
    var kids := Kids(after);
    assert kids == [Index(0, leaf)];
    ConcatOne(Leaves(disk', kids));
    assert Leaves(disk', kids)[0] == TreeExtents(raw, disk);
    FirstKid(g, ino, Gen(raw), disk', leaf);
  }

  lemma FirstKid(g: Geometry, ino: nat, gen: nat, disk: Disk, leaf: nat)
    requires g.bs >= 12 && 0 < leaf < |disk| && leaf < MAX_PBLOCK && NodeOk(g, ino, gen, disk[leaf])
    requires Bounded(LeafAt(disk, leaf))
    ensures KidOk(g, ino, gen, disk, [Index(0, leaf)], 0)
  {
  }

  lemma ConcatOne(ls: seq<seq<Extent>>)
    requires |ls| == 1
    ensures Concat(ls) == ls[0]
  {
    assert ls[..0] == [];
    assert Concat(ls[..0]) == [];
  }

  // ------------------------------------------------- growing in the last leaf

  lemma InsertedConcat(a: seq<Extent>, b: seq<Extent>, lb: nat, pb: nat)
    requires b != []
    ensures Extends(a + b, lb, pb) == Extends(b, lb, pb) && Overlong(a + b, lb, pb) == Overlong(b, lb, pb)
    ensures Inserted(a + b, lb, pb) == a + Inserted(b, lb, pb)
  {
    assert (a + b)[..|a + b| - 1] == a + b[..|b| - 1];
  }

  ghost predicate OnlyLastChanged(disk: Disk, after: Disk, kids: seq<Index>) {
    && |after| == |disk|
    && forall i :: 0 <= i < |kids| - 1 ==> SameBlock(disk, after, kids[i].child)
  }

  /** When only the last leaf changes, only the end of the extent list changes. */
  lemma LastLeafChanged(disk: Disk, after: Disk, kids: seq<Index>)
    requires |kids| > 0 && OnlyLastChanged(disk, after, kids)
    ensures var m := |kids| - 1;
            var head := Concat(Leaves(disk, kids[..m]));
            && Concat(Leaves(disk, kids)) == head + LeafAt(disk, kids[m].child)
            && Concat(Leaves(after, kids)) == head + LeafAt(after, kids[m].child)
  {
    var m := |kids| - 1;
    assert Leaves(disk, kids)[..m] == Leaves(disk, kids[..m]);
    assert Leaves(after, kids)[..m] == Leaves(disk, kids[..m]);
  }

  lemma LeafNonEmpty(g: Geometry, ino: nat, gen: nat, b: Buffer)
    requires g.bs >= 12 && NodeOk(g, ino, gen, b)
    ensures |LeafExtents(b, 0)| == RdHdr(b, 0).value.entries && LeafExtents(b, 0) != []
  {
    ShownFull(b, 0, RdHdr(b, 0).value.entries);
  }

  /** The extents of a tree are those before its last leaf and those in it. */
  lemma LastLeafSplit(g: Geometry, ino: nat, raw: Buffer, disk: Disk) returns (head: seq<Extent>, last: seq<Extent>)
    requires g.bs >= 12 && TreeOk(g, ino, raw, disk) && |Kids(raw)| > 0
    ensures var m := |Kids(raw)| - 1;
            && head == Concat(Leaves(disk, Kids(raw)[..m])) && last == LeafAt(disk, Kids(raw)[m].child)
            && TreeExtents(raw, disk) == head + last && last != []
            && InRange(last, Kids(raw)[m].lb, U32)
  {
    var kids := Kids(raw);
    var m := |kids| - 1;
    head, last := Concat(Leaves(disk, kids[..m])), LeafAt(disk, kids[m].child);
    assert KidOk(g, ino, Gen(raw), disk, kids, m);
    LeafNonEmpty(g, ino, Gen(raw), disk[kids[m].child]);
    assert Leaves(disk, kids)[..m] == Leaves(disk, kids[..m]);
  }

  lemma LastLeafExtents(g: Geometry, ino: nat, raw: Buffer, disk: Disk, after: Disk, lb: nat, pb: nat)
    requires g.bs >= 12 && TreeOk(g, ino, raw, disk) && |Kids(raw)| > 0 && OnlyLastChanged(disk, after, Kids(raw))
    requires var c := Kids(raw)[|Kids(raw)| - 1].child;
             LeafAt(after, c) == Inserted(LeafAt(disk, c), lb, pb)
    ensures TreeExtents(raw, after) == Inserted(TreeExtents(raw, disk), lb, pb)
    ensures var c := Kids(raw)[|Kids(raw)| - 1].child;
            Overlong(TreeExtents(raw, disk), lb, pb) == Overlong(LeafAt(disk, c), lb, pb)
            && Extends(TreeExtents(raw, disk), lb, pb) == Extends(LeafAt(disk, c), lb, pb)
  {
    var head, last := LastLeafSplit(g, ino, raw, disk);
    LastLeafChanged(disk, after, Kids(raw));
    InsertedConcat(head, last, lb, pb);
  }

  lemma LastLeafInserted(g: Geometry, ino: nat, raw: Buffer, disk: Disk, after: Disk, lb: nat, pb: nat)
    requires g.bs >= 12 && TreeOk(g, ino, raw, disk) && |Kids(raw)| > 0 && OnlyLastChanged(disk, after, Kids(raw))
    requires Beyond(TreeExtents(raw, disk), lb) && lb + 1 < U32 && pb < MAX_PBLOCK
    requires var c := Kids(raw)[|Kids(raw)| - 1].child;
             LeafAt(after, c) == Inserted(LeafAt(disk, c), lb, pb)
             && c < |after| && NodeOk(g, ino, Gen(raw), after[c])
    ensures TreeOk(g, ino, raw, after)
  {
    var kids := Kids(raw);
    var m := |kids| - 1;
    var head, last := LastLeafSplit(g, ino, raw, disk);
    LastLeafExtents(g, ino, raw, disk, after, lb, pb);
    InsertedOk(TreeExtents(raw, disk), lb, pb);
    BeyondTail(head, last, lb);
    InsertedInRange(last, kids[m].lb, lb, pb);
    forall i | 0 <= i < |kids| ensures KidOk(g, ino, Gen(raw), after, kids, i) {
      assert KidOk(g, ino, Gen(raw), disk, kids, i);
    }
  }

  /** A tree whose last leaf took one more block serves lookups exactly when the block is not below
      that leaf's key. */
  lemma LastLeafLoose(g: Geometry, ino: nat, raw: Buffer, disk: Disk, after: Disk, lb: nat, pb: nat)
    requires g.bs >= 12 && TreeOk(g, ino, raw, disk) && |Kids(raw)| > 0 && OnlyLastChanged(disk, after, Kids(raw))
    requires lb !in FileMap(raw, disk) && lb + 1 < U32 && pb < MAX_PBLOCK
    requires var c := Kids(raw)[|Kids(raw)| - 1].child;
             LeafAt(after, c) == Inserted(LeafAt(disk, c), lb, pb) && KidReadable(after, c)
    ensures TreeLoose(raw, after) <==> LastKey(raw) <= lb
    ensures TreeReadable(raw, after)
  {
    hide MapOf, LeafExtents, KidOk, Sorted, Disjoint, Bounded, Inserted, RdHdr, KidLoose, KidReadable, SameBlock, Kids;
    var kids := Kids(raw);
    var m := |kids| - 1;
    var head, last := LastLeafSplit(g, ino, raw, disk);
    LastLeafExtents(g, ino, raw, disk, after, lb, pb);
    InsertedDisjoint(TreeExtents(raw, disk), lb, pb);
    InsertedKeyed(last, kids[m].lb, lb, pb);
    forall i | 0 <= i < m ensures KidReadable(after, kids[i].child) && KidLoose(after, kids, i) {
      assert KidOk(g, ino, Gen(raw), disk, kids, i);
      OtherKid(g, ino, Gen(raw), disk, after, kids, i);
    }
    assert KidOk(g, ino, Gen(raw), disk, kids, m);
    LastKid(g, ino, Gen(raw), disk, after, kids, lb);
    if TreeLoose(raw, after) { assert KidLoose(after, kids, m); }
  }

  lemma OtherKid(g: Geometry, ino: nat, gen: nat, disk: Disk, after: Disk, kids: seq<Index>, i: nat)
    requires g.bs >= 12 && OnlyLastChanged(disk, after, kids) && i < |kids| - 1 && KidOk(g, ino, gen, disk, kids, i)
    ensures KidReadable(after, kids[i].child) && KidLoose(after, kids, i)
  {
    hide LeafExtents, RdHdr;
    assert SameBlock(disk, after, kids[i].child);
  }

  lemma LastKid(g: Geometry, ino: nat, gen: nat, disk: Disk, after: Disk, kids: seq<Index>, lb: nat)
    requires g.bs >= 12 && |kids| > 0 && KidOk(g, ino, gen, disk, kids, |kids| - 1)
    requires KidReadable(after, kids[|kids| - 1].child)
    requires InRange(LeafAt(after, kids[|kids| - 1].child), kids[|kids| - 1].lb, U32) <==> kids[|kids| - 1].lb <= lb
    ensures KidLoose(after, kids, |kids| - 1) <==> kids[|kids| - 1].lb <= lb
  {
    hide LeafExtents, RdHdr, InRange;
  }

  /** The last leaf's extents stay in its range exactly when the new block is in it. */
  lemma InsertedKeyed(es: seq<Extent>, key: nat, lb: nat, pb: nat)
    requires es != [] && InRange(es, key, U32) && lb + 1 < U32
    ensures InRange(Inserted(es, lb, pb), key, U32) <==> key <= lb
  {
    var more := Inserted(es, lb, pb);
    if Extends(es, lb, pb) {
      assert key <= es[|es| - 1].lb <= lb;
    } else {
      assert more[|es|] == Extent(lb, 1, pb);
    }
  }

  /** A block below the last leaf's key is looked for in another leaf, so putting it into the last
      one changes nothing about what is found. */
  lemma LastLeafHidden(g: Geometry, ino: nat, raw: Buffer, disk: Disk, after: Disk, lb: nat, pb: nat, k: nat)
    requires g.bs >= 12 && TreeOk(g, ino, raw, disk) && |Kids(raw)| > 0 && OnlyLastChanged(disk, after, Kids(raw))
    requires lb < LastKey(raw) && k < U32
    requires var c := Kids(raw)[|Kids(raw)| - 1].child; LeafAt(after, c) == Inserted(LeafAt(disk, c), lb, pb)
    ensures Found(raw, after, k) == Found(raw, disk, k)
  {
    hide MapOf, RdIndex, LeafExtents, FirstCover, KidOk;
    var kids := Kids(raw);
    var m := |kids| - 1;
    var head, last := LastLeafSplit(g, ino, raw, disk);
    match ChosenKid(kids, k, 0)
    case None =>
    case Some(i) =>
      if i < m {
        assert SameBlock(disk, after, kids[i].child);
      } else {
        assert Inserted(last, lb, pb) == last + [Extent(lb, 1, pb)];
        FirstCoverConcat(last, [Extent(lb, 1, pb)], k);
        FirstCoverNone([Extent(lb, 1, pb)], k);
      }
  }

  lemma ExtendsLast(g: Geometry, ino: nat, raw: Buffer, disk: Disk, lb: nat, pb: nat)
    requires g.bs >= 12 && TreeOk(g, ino, raw, disk) && |Kids(raw)| > 0
    ensures var last := LeafAt(disk, Kids(raw)[|Kids(raw)| - 1].child);
            && Extends(TreeExtents(raw, disk), lb, pb) == Extends(last, lb, pb)
            && Overlong(TreeExtents(raw, disk), lb, pb) == Overlong(last, lb, pb)
  {
    var head, last := LastLeafSplit(g, ino, raw, disk);
    InsertedConcat(head, last, lb, pb);
  }

  lemma BeyondTail(head: seq<Extent>, last: seq<Extent>, lb: nat)
    requires Beyond(head + last, lb)
    ensures Beyond(last, lb)
  {
    forall i | 0 <= i < |last| ensures last[i].lb + last[i].len <= lb {
      assert (head + last)[|head| + i] == last[i];
    }
  }

  lemma InsertedInRange(es: seq<Extent>, lo: nat, lb: nat, pb: nat)
    requires es != [] && InRange(es, lo, U32) && Beyond(es, lb) && lb + 1 < U32
    ensures InRange(Inserted(es, lb, pb), lo, U32)
  {
  }

  // ------------------------------------------------------- moving records

  /** Copies records `from` to `to` of a leaf into the first slots of a zeroed block. */
  method CopyRecords(src: Buffer, base: nat, from: nat, to: nat, size: nat) returns (dst: Buffer)
    requires from <= to && Full(src, base, to) && Slot(0, to - from) <= size
    requires Bounded(Shown(src, base, to))
    ensures |dst| == size && Full(dst, 0, to - from)
    ensures |Shown(src, base, to)| == to && Shown(dst, 0, to - from) == Shown(src, base, to)[from..]
  {
    hide RdExtent;
    dst := Zeros(size);
    ShownFull(src, base, to);
    var i := from;
    while i < to
      invariant from <= i <= to && |dst| == size
      invariant forall j :: 0 <= j < i - from ==> RdExtent(dst, 0, j) == RdExtent(src, base, from + j)
    {
      var e := RdExtent(src, base, i).value;
      ghost var was := dst;
      dst := WrExtent(dst, 0, i - from, e);
      forall j | 0 <= j < i - from ensures RdExtent(dst, 0, j) == RdExtent(was, 0, j) {
        RecordsFrame(was, dst, 0, j);
      }
      i := i + 1;
    }
    ShownFull(dst, 0, to - from);
  }

  /** Sets the entry count of a leaf to `n`, keeping the records. */
  method Recount(b: Buffer, n: nat, max: nat) returns (r: Buffer)
    requires Full(b, 0, n) && n <= max < U16 && Slot(0, max) <= |b|
    ensures |r| == |b| && RdHdr(r, 0) == Some(Header(n, max, 0)) && LeafOk(r, 0)
    ensures LeafExtents(r, 0) == Shown(b, 0, n)
  {
    r := WrHdr(b, 0, Header(n, max, 0));
    ShownFrame(b, r, 0, n);
  }

  /** Stamps the checksum tail of a leaf block. */
  method ExtentBlockCsum(g: Geometry, ino: nat, gen: nat, b: Buffer, max: nat) returns (c: Buffer)
    requires TailOff(max) + 4 <= |b|
    ensures |c| == |b| && LeafSealed(g, ino, gen, c, max)
    ensures forall k :: 0 <= k < |b| && !(TailOff(max) <= k < TailOff(max) + 4) ==> c[k] == b[k]
  {
    c := b;
    if g.metaCsum {
      c := PutLe32(b, TailOff(max), Crc32c(InodeSeed(g, ino, gen), b[..TailOff(max)]));
      assert c[..TailOff(max)] == b[..TailOff(max)];
    }
  }

  /** Sealing a leaf keeps its header and its records. */
  method SealLeaf(g: Geometry, ino: nat, gen: nat, b: Buffer) returns (c: Buffer)
    requires GeometryOk(g) && |b| == g.bs && RdHdr(b, 0).Some?
    requires RdHdr(b, 0).value.entries <= RdHdr(b, 0).value.max == LeafMax(g)
    ensures |c| == g.bs && RdHdr(c, 0) == RdHdr(b, 0) && LeafExtents(c, 0) == LeafExtents(b, 0)
    ensures LeafOk(b, 0) && RdHdr(b, 0).value.entries > 0 ==> NodeOk(g, ino, gen, c)
  {
    TailFits(g);
    c := ExtentBlockCsum(g, ino, gen, b, RdHdr(b, 0).value.max);
    HeaderFrame(b, c, 0);
    ShownFrame(b, c, 0, RdHdr(b, 0).value.entries);
  }

  /** Builds the two halves of a leaf. */
  method HalveLeaf(g: Geometry, ino: nat, gen: nat, blk: Buffer) returns (lo: Buffer, hi: Buffer, first: nat)
    requires GeometryOk(g) && NodeOk(g, ino, gen, blk) && RdHdr(blk, 0).value.entries > 1
    requires Bounded(LeafExtents(blk, 0))
    ensures NodeOk(g, ino, gen, lo) && NodeOk(g, ino, gen, hi)
    ensures var es := LeafExtents(blk, 0); var half := RdHdr(blk, 0).value.entries / 2;
            && |es| == RdHdr(blk, 0).value.entries && first == es[half].lb
            && LeafExtents(lo, 0) == es[..half] && LeafExtents(hi, 0) == es[half..]
  {
    hide RdHdr, RdExtent;
    TailFits(g);
    var h := RdHdr(blk, 0).value;
    var half := h.entries / 2;
    ShownFull(blk, 0, h.entries);
    first := RdExtent(blk, 0, half).value.lb;
    hi := CopyRecords(blk, 0, half, h.entries, g.bs);
    hi := Recount(hi, h.entries - half, h.max);
    ShownPrefix(blk, 0, half, h.entries);
    lo := Recount(blk, half, h.max);
    lo := SealLeaf(g, ino, gen, lo);
    hi := SealLeaf(g, ino, gen, hi);
  }

  /** Builds the leaf that takes over the inode's own records. */
  method MoveOut(g: Geometry, ino: nat, raw: Buffer) returns (blk: Buffer)
    requires GeometryOk(g) && |raw| == INODE_BUF && LeafOk(raw, IBLOCK) && Bounded(LeafExtents(raw, IBLOCK))
    requires 0 < RdHdr(raw, IBLOCK).value.entries <= ROOT_MAX
    ensures |blk| == g.bs && NodeOk(g, ino, Gen(raw), blk) && LeafExtents(blk, 0) == LeafExtents(raw, IBLOCK)
  {
    hide RdHdr, RdExtent;
    TailFits(g);
    var entries := RdHdr(raw, IBLOCK).value.entries;
    blk := CopyRecords(raw, IBLOCK, 0, entries, g.bs);
    blk := Recount(blk, entries, LeafMax(g));
    blk := SealLeaf(g, ino, Gen(raw), blk);
  }

  /** The inode outside its 60 bytes of extent root. */
  ghost predicate RootOnly(raw: Buffer, out: Buffer) {
    |out| == |raw| == INODE_BUF && forall k :: 0 <= k < INODE_BUF && !(IBLOCK <= k < IBLOCK + 60) ==> out[k] == raw[k]
  }

  lemma RootOnlyGen(raw: Buffer, out: Buffer)
    requires RootOnly(raw, out)
    ensures Gen(out) == Gen(raw)
  {
    Le32Same(raw, out, GENERATION);
  }

  /** Adds one more child to the root. */
  method AddKid(raw: Buffer, x: Index) returns (out: Buffer)
    requires |raw| == INODE_BUF && RootOk(raw) && 0 < |Kids(raw)| < ROOT_MAX
    requires x.lb < U32 && x.child < MAX_PBLOCK
    ensures RootOnly(raw, out) && RootOk(out) && Kids(out) == Kids(raw) + [x]
    ensures RdHdr(out, IBLOCK) == Some(Header(|Kids(raw)| + 1, ROOT_MAX, 1))
  {
    var h := RdHdr(raw, IBLOCK).value;
    var d := WrIndex(raw, IBLOCK, h.entries, x);
    out := WrHdr(d, IBLOCK, Header(h.entries + 1, h.max, 1));
    forall i | 0 <= i <= h.entries ensures RdIndex(out, IBLOCK, i)
        == RdIndex(d, IBLOCK, i) { RecordsFrame(d, out, IBLOCK, i); }
    forall i | 0 <= i < h.entries ensures RdIndex(d, IBLOCK, i)
        == RdIndex(raw, IBLOCK, i) { RecordsFrame(raw, d, IBLOCK, i); }
    KidListGrows(raw, out, x);
  }

  /** Turns the root into an index with one child. */
  method FirstIndex(raw: Buffer, leaf: nat) returns (out: Buffer)
    requires |raw| == INODE_BUF && leaf < MAX_PBLOCK
    ensures RootOnly(raw, out)
    ensures RdHdr(out, IBLOCK) == Some(Header(1, ROOT_MAX, 1)) && RdIndex(out, IBLOCK, 0) == Some(Index(0, leaf))
  {
    var d := WrHdr(raw, IBLOCK, Header(1, ROOT_MAX, 1));
    out := WrIndex(d, IBLOCK, 0, Index(0, leaf));
    HeaderFrame(d, out, IBLOCK);
  }

  lemma ConcatTwo(ls: seq<seq<Extent>>, a: seq<Extent>, b: seq<Extent>)
    ensures Concat(ls + [a]) == Concat(ls) + a
    ensures Concat(ls + [a, b]) == Concat(ls) + a + b
  {
    assert (ls + [a])[..|ls|] == ls;
    assert (ls + [a, b])[..|ls| + 1] == ls + [a];
  }

  lemma KidListGrows(raw: Buffer, after: Buffer, x: Index)
    requires |raw| == |after| == INODE_BUF && RootOk(raw) && |Kids(raw)| > 0 && |Kids(raw)| < ROOT_MAX
    requires RdHdr(after, IBLOCK) == Some(Header(|Kids(raw)| + 1, ROOT_MAX, 1))
    requires forall i :: 0 <= i < |Kids(raw)| ==> RdIndex(after, IBLOCK, i) == RdIndex(raw, IBLOCK, i)
    requires RdIndex(after, IBLOCK, |Kids(raw)|) == Some(x)
    ensures Kids(after) == Kids(raw) + [x]
  {
  }

  lemma SortedHalves(es: seq<Extent>, half: nat, lo: nat)
    requires Sorted(es) && 0 < half < |es| && InRange(es, lo, U32)
    ensures lo < es[half].lb
    ensures InRange(es[..half], lo, es[half].lb) && InRange(es[half..], es[half].lb, U32)
  {
    assert es[0].lb + es[0].len <= es[half].lb;
  }

  /** The last leaf of `disk` was cut in two: the lower half stays, the upper half is in
      block `fsb`. */
  ghost predicate Halved(g: Geometry, ino: nat, gen: nat, disk: Disk, after: Disk, kids: seq<Index>, half: nat,
                         fsb: nat)
    requires g.bs >= 12 && |kids| > 0
  {
    var c := kids[|kids| - 1].child;
    && OnlyLastChanged(disk, after, kids) && c < |after| && 0 < fsb < |after|
    && (forall i :: 0 <= i < |kids| ==> kids[i].child != fsb)
    && 0 < half < |LeafAt(disk, c)|
    && NodeOk(g, ino, gen, after[c]) && LeafAt(after, c) == LeafAt(disk, c)[..half]
    && NodeOk(g, ino, gen, after[fsb]) && LeafAt(after, fsb) == LeafAt(disk, c)[half..]
  }

  /** Cutting a leaf in two and indexing the upper half keeps the extents. */
  lemma SplitConcat(disk: Disk, after: Disk, kids: seq<Index>, half: nat, x: Index)
    requires |kids| > 0 && OnlyLastChanged(disk, after, kids)
    requires var last := LeafAt(disk, kids[|kids| - 1].child);
             && half <= |last| && LeafAt(after, kids[|kids| - 1].child) == last[..half]
             && LeafAt(after, x.child) == last[half..]
    ensures Concat(Leaves(after, kids + [x])) == Concat(Leaves(disk, kids))
  {
    var m := |kids| - 1;
    var last := LeafAt(disk, kids[m].child);
    LastLeafChanged(disk, after, kids);
    assert Leaves(after, kids + [x]) == Leaves(after, kids) + [last[half..]];
    ConcatTwo(Leaves(after, kids), last[half..], []);
    assert last == last[..half] + last[half..];
  }

  lemma SplitLowKid(g: Geometry, ino: nat, gen: nat, disk: Disk, after: Disk, kids: seq<Index>, x: Index, i: nat)
    requires g.bs >= 12 && i < |kids| - 1 && OnlyLastChanged(disk, after, kids)
    requires KidOk(g, ino, gen, disk, kids, i)
    ensures KidOk(g, ino, gen, after, kids + [x], i)
  {
    assert SameBlock(disk, after, kids[i].child);
    assert KeyAfter(kids + [x], i) == KeyAfter(kids, i);
  }

  lemma SplitMidKid(g: Geometry, ino: nat, gen: nat, disk: Disk, after: Disk, kids: seq<Index>, half: nat, x: Index)
    requires g.bs >= 12 && |kids| > 0 && Halved(g, ino, gen, disk, after, kids, half, x.child)
    requires KidOk(g, ino, gen, disk, kids, |kids| - 1) && Sorted(LeafAt(disk, kids[|kids| - 1].child))
    requires x.lb == LeafAt(disk, kids[|kids| - 1].child)[half].lb
    ensures KidOk(g, ino, gen, after, kids + [x], |kids| - 1)
  {
    var m := |kids| - 1;
    SortedHalves(LeafAt(disk, kids[m].child), half, kids[m].lb);
    assert KeyAfter(kids + [x], m) == x.lb;
  }

  lemma SplitNewKid(g: Geometry, ino: nat, gen: nat, disk: Disk, after: Disk, kids: seq<Index>, half: nat, x: Index)
    requires g.bs >= 12 && |kids| > 0 && Halved(g, ino, gen, disk, after, kids, half, x.child) && x.child < MAX_PBLOCK
    requires KidOk(g, ino, gen, disk, kids, |kids| - 1) && Sorted(LeafAt(disk, kids[|kids| - 1].child))
    requires x.lb == LeafAt(disk, kids[|kids| - 1].child)[half].lb < U32
    ensures KidOk(g, ino, gen, after, kids + [x], |kids|)
  {
    var m := |kids| - 1;
    SortedHalves(LeafAt(disk, kids[m].child), half, kids[m].lb);
    assert KeyAfter(kids + [x], m + 1) == U32;
  }

  ghost predicate KidsOk(g: Geometry, ino: nat, gen: nat, disk: Disk, kids: seq<Index>)
    requires g.bs >= 12
  {
    forall i :: 0 <= i < |kids| ==> KidOk(g, ino, gen, disk, kids, i)
  }

  lemma SplitKids(g: Geometry, ino: nat, gen: nat, disk: Disk, after: Disk, kids: seq<Index>, half: nat, x: Index)
    requires g.bs >= 12 && |kids| > 0 && Halved(g, ino, gen, disk, after, kids, half, x.child) && x.child < MAX_PBLOCK
    requires KidsOk(g, ino, gen, disk, kids) && Sorted(LeafAt(disk, kids[|kids| - 1].child))
    requires x.lb == LeafAt(disk, kids[|kids| - 1].child)[half].lb < U32
    ensures KidsOk(g, ino, gen, after, kids + [x])
  {
    hide KidOk;
    forall i | 0 <= i < |kids| + 1 ensures KidOk(g, ino, gen, after, kids + [x], i) {
      if i < |kids| {
        assert KidOk(g, ino, gen, disk, kids, i);
        if i < |kids| - 1 {
          SplitLowKid(g, ino, gen, disk, after, kids, x, i);
        } else {
          SplitMidKid(g, ino, gen, disk, after, kids, half, x);
        }
      } else {
        assert KidOk(g, ino, gen, disk, kids, |kids| - 1);
        SplitNewKid(g, ino, gen, disk, after, kids, half, x);
      }
    }
  }

  /** Splitting the last leaf and adding its upper half to the index keeps the tree. */
  lemma SplitDone(g: Geometry, ino: nat, raw: Buffer, raw': Buffer, disk: Disk, after: Disk, half: nat, x: Index)
    requires g.bs >= 12 && TreeOk(g, ino, raw, disk) && |Kids(raw)| > 0 && x.child < MAX_PBLOCK
    requires Halved(g, ino, Gen(raw), disk, after, Kids(raw), half, x.child)
    requires x.lb == LeafAt(disk, Kids(raw)[|Kids(raw)| - 1].child)[half].lb
    requires |raw'| == INODE_BUF && Gen(raw') == Gen(raw) && RootOk(raw')
    requires RdHdr(raw', IBLOCK).Some? && RdHdr(raw', IBLOCK).value.depth == 1
    requires Kids(raw') == Kids(raw) + [x]
    ensures TreeOk(g, ino, raw', after) && TreeExtents(raw', after) == TreeExtents(raw, disk)
  {
    hide KidOk;
    var head, last := LastLeafSplit(g, ino, raw, disk);
    SortedTail(head, last);
    assert (head + last)[|head| + half] == last[half];
    SplitConcat(disk, after, Kids(raw), half, x);
    SplitKids(g, ino, Gen(raw), disk, after, Kids(raw), half, x);
  }

  /** When the root has no room for the upper half, it is lost: the tree ends where the
      lower half ends. */
  lemma SplitTruncates(g: Geometry, ino: nat, raw: Buffer, disk: Disk, after: Disk, half: nat)
    requires g.bs >= 12 && TreeOk(g, ino, raw, disk) && |Kids(raw)| > 0 && OnlyLastChanged(disk, after, Kids(raw))
    requires var last := LeafAt(disk, Kids(raw)[|Kids(raw)| - 1].child);
             half <= |last| && LeafAt(after, Kids(raw)[|Kids(raw)| - 1].child) == last[..half]
    ensures var es := TreeExtents(raw, disk);
            var lost := |LeafAt(disk, Kids(raw)[|Kids(raw)| - 1].child)| - half;
            lost <= |es| && TreeExtents(raw, after) == es[..|es| - lost]
  {
    var head, last := LastLeafSplit(g, ino, raw, disk);
    LastLeafChanged(disk, after, Kids(raw));
    assert (head + last)[..|head| + half] == head + last[..half];
  }
}
