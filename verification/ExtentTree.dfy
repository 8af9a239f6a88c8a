/** The extent tree of an inode: up to four extents in the inode itself, or up to four
    on-disk leaves under one index level. */
module ExtentTree {
  import opened Bytes
  import opened Crc
  import opened Volume
  import opened Extents

  const INODE_BUF: nat := 256
  const IBLOCK: nat := 0x28
  const GENERATION: nat := 0x64
  const ROOT_MAX: nat := 4

  function LeafMax(g: Geometry): nat
    requires g.bs >= 12
  {
    (g.bs - 12) / 12
  }

  function Gen(raw: Buffer): nat
    requires |raw| == INODE_BUF
  {
    Le32(raw, GENERATION)
  }

  /** Seed of every checksum that belongs to one inode. */
  function InodeSeed(g: Geometry, ino: nat, gen: nat): nat {
    Crc32c(Crc32c(g.seed, LeBytes(ino)), LeBytes(gen))
  }

  function TailOff(max: nat): nat { 12 + 12 * max }

  ghost predicate LeafSealed(g: Geometry, ino: nat, gen: nat, b: Buffer, max: nat) {
    g.metaCsum ==> TailOff(max) + 4 <= |b| && Le32(b, TailOff(max)) == Crc32c(InodeSeed(g, ino, gen), b[..TailOff(max)])
  }

  /** The checksum of a full leaf still fits in the block, and no leaf could hold one record more. */
  lemma TailFits(g: Geometry)
    requires GeometryOk(g)
    ensures TailOff(LeafMax(g)) + 4 <= g.bs < Slot(0, LeafMax(g) + 1)
    ensures LeafMax(g) >= 84 && LeafMax(g) < U16
    ensures Slot(0, LeafMax(g)) <= g.bs
  {
  }

  ghost predicate Bounded(es: seq<Extent>) {
    forall i :: 0 <= i < |es| ==> es[i].lb + es[i].len < U32 && es[i].pb + es[i].len <= MAX_PBLOCK
  }

  /** A leaf block of inode `ino`. */
  ghost predicate NodeOk(g: Geometry, ino: nat, gen: nat, b: Buffer)
    requires g.bs >= 12
  {
    && |b| == g.bs && LeafOk(b, 0)
    && RdHdr(b, 0).value.max == LeafMax(g) && RdHdr(b, 0).value.entries > 0
    && LeafSealed(g, ino, gen, b, LeafMax(g))
  }

  // ------------------------------------------------------------- the tree

  function Kids(raw: Buffer): (ks: seq<Index>)
    requires |raw| == INODE_BUF
    ensures |ks| <= ROOT_MAX
  {
    match RdHdr(raw, IBLOCK)
    case None => []
    case Some(h) => if h.depth == 0 || h.entries > ROOT_MAX then [] else KidList(raw, h.entries)
  }

  function KidList(raw: Buffer, n: nat): (ks: seq<Index>)
    requires |raw| == INODE_BUF && n <= ROOT_MAX
    ensures |ks| == n
  {
    seq(n, i requires 0 <= i < n => RdIndex(raw, IBLOCK, i).value)
  }

  function LeafAt(disk: Disk, b: nat): seq<Extent> {
    if b < |disk| then LeafExtents(disk[b], 0) else []
  }

  function Leaves(disk: Disk, kids: seq<Index>): (ls: seq<seq<Extent>>)
    ensures |ls| == |kids|
  {
    seq(|kids|, i requires 0 <= i < |kids| => LeafAt(disk, kids[i].child))
  }

  function Concat(ls: seq<seq<Extent>>): seq<Extent> {
    if ls == [] then [] else Concat(ls[..|ls| - 1]) + ls[|ls| - 1]
  }

  /** All extents of the tree, left to right. */
  function TreeExtents(raw: Buffer, disk: Disk): seq<Extent>
    requires |raw| == INODE_BUF
  {
    match RdHdr(raw, IBLOCK)
    case None => []
    case Some(h) => if h.depth == 0 then LeafExtents(raw, IBLOCK) else Concat(Leaves(disk, Kids(raw)))
  }

  /** The logical-to-physical map of the inode. */
  function FileMap(raw: Buffer, disk: Disk): map<nat, nat>
    requires |raw| == INODE_BUF
  {
    MapOf(TreeExtents(raw, disk))
  }

  // -------------------------------------------------------- well-formedness

  ghost predicate InRange(es: seq<Extent>, lo: nat, hi: nat) {
    forall i :: 0 <= i < |es| ==> lo <= es[i].lb && es[i].lb + es[i].len <= hi
  }

  function KeyAfter(kids: seq<Index>, i: nat): nat
    requires i < |kids|
  {
    if i + 1 < |kids| then kids[i + 1].lb else U32
  }

  /** Child `i` is a leaf and holds only extents of its index range. */
  ghost predicate KidLoose(disk: Disk, kids: seq<Index>, i: nat)
    requires i < |kids|
  {
    && kids[i].child < |disk| && RdHdr(disk[kids[i].child], 0).Some? && RdHdr(disk[kids[i].child], 0).value.depth == 0
    && kids[i].lb < KeyAfter(kids, i)
    && InRange(LeafAt(disk, kids[i].child), kids[i].lb, KeyAfter(kids, i))
  }

  /** ... and it is a block of its own with every record readable and its checksum right. */
  ghost predicate KidOk(g: Geometry, ino: nat, gen: nat, disk: Disk, kids: seq<Index>, i: nat)
    requires g.bs >= 12 && i < |kids|
  {
    && KidLoose(disk, kids, i)
    && 0 < kids[i].child && kids[i].child < MAX_PBLOCK
    && NodeOk(g, ino, gen, disk[kids[i].child])
    && forall j :: 0 <= j < i ==> kids[j].child != kids[i].child
  }

  ghost predicate RootOk(raw: Buffer)
    requires |raw| == INODE_BUF
  {
    RdHdr(raw, IBLOCK).Some? ==>
      var h := RdHdr(raw, IBLOCK).value;
      h.max == ROOT_MAX && h.entries <= h.max && h.depth <= 1 && (h.depth == 1 ==> h.entries > 0)
  }

  ghost predicate TreeOk(g: Geometry, ino: nat, raw: Buffer, disk: Disk)
    requires g.bs >= 12
  {
    && |raw| == INODE_BUF && RootOk(raw)
    && (RdHdr(raw, IBLOCK).Some? && RdHdr(raw, IBLOCK).value.depth == 0 ==> LeafOk(raw, IBLOCK))
    && (forall i :: 0 <= i < |Kids(raw)| ==> KidOk(g, ino, Gen(raw), disk, Kids(raw), i))
    && Sorted(TreeExtents(raw, disk)) && Bounded(TreeExtents(raw, disk))
  }

  /** What the driver needs to walk the tree: a root it can read and, below it, leaves. */
  ghost predicate TreeReadable(raw: Buffer, disk: Disk) {
    && |raw| == INODE_BUF && RootOk(raw)
    && forall i :: 0 <= i < |Kids(raw)| ==> KidReadable(disk, Kids(raw)[i].child)
  }

  ghost predicate KidReadable(disk: Disk, b: nat) {
    b < |disk| && RdHdr(disk[b], 0).Some? && RdHdr(disk[b], 0).value.depth == 0
  }

  /** What makes walking the tree find all it maps: extents that do not overlap, each in the leaf
      whose range it is in. Records that cannot be read are skipped. */
  ghost predicate TreeLoose(raw: Buffer, disk: Disk) {
    && |raw| == INODE_BUF && RootOk(raw)
    && (forall i :: 0 <= i < |Kids(raw)| ==> KidLoose(disk, Kids(raw), i))
    && Disjoint(TreeExtents(raw, disk)) && Bounded(TreeExtents(raw, disk))
  }

  lemma OkLoose(g: Geometry, ino: nat, raw: Buffer, disk: Disk)
    requires g.bs >= 12 && TreeOk(g, ino, raw, disk)
    ensures TreeLoose(raw, disk)
  {
    hide KidLoose, Sorted, Disjoint, Bounded, TreeExtents;
    SortedDisjoint(TreeExtents(raw, disk));
    forall i | 0 <= i < |Kids(raw)| ensures KidLoose(disk, Kids(raw), i) {
      assert KidOk(g, ino, Gen(raw), disk, Kids(raw), i);
    }
  }

  lemma LooseReadable(raw: Buffer, disk: Disk)
    requires TreeLoose(raw, disk)
    ensures TreeReadable(raw, disk)
  {
    hide Disjoint, Bounded, TreeExtents;
    forall i | 0 <= i < |Kids(raw)| ensures KidReadable(disk,
        Kids(raw)[i].child) { assert KidLoose(disk, Kids(raw), i); }
  }

  function KidBlocks(raw: Buffer): set<nat>
    requires |raw| == INODE_BUF
  {
    set i | 0 <= i < |Kids(raw)| :: Kids(raw)[i].child
  }

  // -------------------------------------------------------- looking blocks up

  lemma {:induction false} KeysGrow(disk: Disk, kids: seq<Index>, i: nat, j: nat)
    requires i < j < |kids|
    requires forall k :: 0 <= k < |kids| ==> KidLoose(disk, kids, k)
    ensures KeyAfter(kids, i) <= kids[j].lb
    decreases j - i
  {
    if i + 1 < j {
      KeysGrow(disk, kids, i + 1, j);
      assert KidLoose(disk, kids, i + 1);
    }
  }

  lemma NothingMapped()
    ensures MapOf([]) == map[]
  {
  }

  lemma {:induction false} ConcatMap(ls: seq<seq<Extent>>, k: nat)
    ensures k in MapOf(Concat(ls)) <==> exists i :: 0 <= i < |ls| && k in MapOf(ls[i])
    ensures k in MapOf(Concat(ls)) ==> exists i ::
              0 <= i < |ls| && k in MapOf(ls[i]) && MapOf(Concat(ls))[k] == MapOf(ls[i])[k]
  {
    hide MapOf;
    if ls == [] {
      NothingMapped();
    } else {
      var m := |ls| - 1;
      ConcatMap(ls[..m], k);
      MapOfConcat(Concat(ls[..m]), ls[m]);
      if k in MapOf(ls[m]) {
      } else {
        if k in MapOf(Concat(ls)) {
          var i :| 0 <= i < m && k in MapOf(ls[..m][i]) && MapOf(Concat(ls[..m]))[k] == MapOf(ls[..m][i])[k];
          assert ls[i] == ls[..m][i];
        }
        if i :| 0 <= i < |ls| && k in MapOf(ls[i]) {
          assert ls[..m][i] == ls[i];
        }
      }
    }
  }

  lemma InRangeMap(es: seq<Extent>, lo: nat, hi: nat, k: nat)
    requires InRange(es, lo, hi) && k in MapOf(es)
    ensures lo <= k < hi
  {
    MapOfKeys(es, k);
  }

  /** Only the leaf whose index range holds a block can map it. */
  lemma ChosenLeaf(disk: Disk, kids: seq<Index>, i: nat, k: nat)
    requires i < |kids| && kids[i].lb <= k < KeyAfter(kids, i)
    requires forall j :: 0 <= j < |kids| ==> KidLoose(disk, kids, j)
    ensures var m, n := MapOf(Concat(Leaves(disk, kids))), MapOf(LeafAt(disk, kids[i].child));
            (k in m <==> k in n) && (k in m ==> m[k] == n[k])
  {
    var ls := Leaves(disk, kids);
    ConcatMap(ls, k);
    forall j | 0 <= j < |kids| && k in MapOf(ls[j]) ensures j == i {
      assert KidLoose(disk, kids, j);
      InRangeMap(ls[j], kids[j].lb, KeyAfter(kids, j), k);
      if j < i { KeysGrow(disk, kids, j, i); }
      if i < j { KeysGrow(disk, kids, i, j); }
    }
    if k in MapOf(ls[i]) { assert ls[i] == LeafAt(disk, kids[i].child); }
  }

  /** A block below the first key is mapped nowhere. */
  lemma BelowFirstKey(disk: Disk, kids: seq<Index>, k: nat)
    requires |kids| > 0 && k < kids[0].lb
    requires forall j :: 0 <= j < |kids| ==> KidLoose(disk, kids, j)
    ensures k !in MapOf(Concat(Leaves(disk, kids)))
  {
    var ls := Leaves(disk, kids);
    ConcatMap(ls, k);
    forall j | 0 <= j < |kids| ensures k !in MapOf(ls[j]) {
      assert KidLoose(disk, kids, j);
      if k in MapOf(ls[j]) { InRangeMap(ls[j], kids[j].lb, KeyAfter(kids, j), k); }
      if j > 0 { KeysGrow(disk, kids, 0, j); assert KidLoose(disk, kids, 0); }
    }
  }

  // -------------------------------------------- extents at the end of a list

  ghost predicate Beyond(es: seq<Extent>, lb: nat) {
    forall i :: 0 <= i < |es| ==> es[i].lb + es[i].len <= lb
  }

  lemma BeyondMap(es: seq<Extent>, lb: nat)
    requires Sorted(es) && forall k :: k in MapOf(es) ==> k < lb
    ensures Beyond(es, lb)
  {
    SortedDisjoint(es);
    forall i | 0 <= i < |es| ensures es[i].lb + es[i].len <= lb {
      MapOfValue(es, i, es[i].lb + es[i].len - 1);
    }
  }

  /** The new block continues the last extent, on disk as in the file. */
  predicate Extends(es: seq<Extent>, lb: nat, pb: nat) {
    es != [] && var e := es[|es| - 1]; e.lb + e.len == lb && e.pb + e.len == pb
  }

  /** ... and would make it 0x8000 blocks long. */
  predicate Overlong(es: seq<Extent>, lb: nat, pb: nat) {
    Extends(es, lb, pb) && es[|es| - 1].len + 1 == UNWRITTEN
  }

  /** The extents after a block was inserted at the end. */
  function Inserted(es: seq<Extent>, lb: nat, pb: nat): seq<Extent> {
    if Overlong(es, lb, pb) then es[..|es| - 1]
    else if Extends(es, lb, pb) then
      var e := es[|es| - 1];
      es[..|es| - 1] + [e.(len := e.len + 1)]
    else es + [Extent(lb, 1, pb)]
  }

  lemma InsertedOk(es: seq<Extent>, lb: nat, pb: nat)
    requires Sorted(es) && Bounded(es) && Beyond(es, lb) && lb + 1 < U32 && pb < MAX_PBLOCK
    ensures Sorted(Inserted(es, lb, pb)) && Bounded(Inserted(es, lb, pb))
  {
  }

  lemma GrownMap(es: seq<Extent>, head: seq<Extent>, e: Extent, lb: nat, pb: nat)
    requires es == head + [e] && e.lb + e.len == lb && e.pb + e.len == pb
    ensures MapOf(head + [e.(len := e.len + 1)]) == MapOf(es)[lb := pb]
  {
    MapOfGrow(head, e, e.(len := e.len + 1), lb, pb);
  }

  /** A block that a sorted list does not map can be put at its end without overlap. */
  lemma InsertedDisjoint(es: seq<Extent>, lb: nat, pb: nat)
    requires Sorted(es) && Bounded(es) && lb !in MapOf(es) && lb + 1 < U32 && pb < MAX_PBLOCK
    ensures Disjoint(Inserted(es, lb, pb)) && Bounded(Inserted(es, lb, pb))
  {
    if Extends(es, lb, pb) {
      InsertedSorted(es, lb, pb);
      InsertedOk(es, lb, pb);
      SortedDisjoint(Inserted(es, lb, pb));
    } else {
      var e := Extent(lb, 1, pb);
      forall i | 0 <= i < |es| ensures Separate(es[i], e) {
        MapOfKeys(es, lb);
        assert !Covers(es[i], lb);
      }
      SortedDisjoint(es);
    }
  }

  /** Inserting updates the map at one block, unless it drops the extent it grows. */
  lemma InsertedMap(es: seq<Extent>, lb: nat, pb: nat)
    requires !Overlong(es, lb, pb)
    ensures MapOf(Inserted(es, lb, pb)) == MapOf(es)[lb := pb]
  {
    if Extends(es, lb, pb) {
      GrownMap(es, es[..|es| - 1], es[|es| - 1], lb, pb);
    } else {
      MapOfSingle(es, lb, pb);
    }
  }

  /** A block beyond a sorted list is one that its map does not hold, so the update is met
      exactly when the grown extent stays readable. */
  lemma InsertedMapExact(es: seq<Extent>, lb: nat, pb: nat)
    requires Sorted(es) && Beyond(es, lb)
    ensures MapOf(Inserted(es, lb, pb)) == MapOf(es)[lb := pb] <==> !Overlong(es, lb, pb)
  {
    if Overlong(es, lb, pb) {
      MapOfBelow(Inserted(es, lb, pb), lb);
      assert lb !in MapOf(Inserted(es, lb, pb));
    } else {
      InsertedMap(es, lb, pb);
    }
  }

  /** The list stays sorted exactly when the block lies beyond it. */
  lemma InsertedSorted(es: seq<Extent>, lb: nat, pb: nat)
    requires Sorted(es)
    ensures Sorted(Inserted(es, lb, pb)) <==> Beyond(es, lb) || Extends(es, lb, pb)
    ensures Extends(es, lb, pb) ==> Beyond(es, lb)
  {
    var more := Inserted(es, lb, pb);
    if !Extends(es, lb, pb) && Sorted(more) {
      forall i | 0 <= i < |es| ensures es[i].lb + es[i].len <= lb { assert more[i] == es[i] && more[|es|].lb == lb; }
    }
  }

  /** A file of 32767 contiguous blocks loses all of them when the next block is contiguous. */
  lemma OverlongExample()
    ensures var es := [Extent(0, 0x7FFF, 100)];
            Sorted(es) && Beyond(es, 0x7FFF) && 5 in MapOf(es) && MapOf(Inserted(es, 0x7FFF, 100 + 0x7FFF)) == map[]
  {
    var es := [Extent(0, 0x7FFF, 100)];
    SortedDisjoint(es);
    MapOfValue(es, 0, 5);
    assert Inserted(es, 0x7FFF, 100 + 0x7FFF) == [];
  }

  // ------------------------------------------------------- reading the tree

  function Lookup(m: map<nat, nat>, k: nat): Option<nat> { if k in m then Some(m[k]) else None }

  /** What scanning a list of extents finds for a block: the first extent that covers it. */
  function FirstCover(es: seq<Extent>, k: nat): Option<nat> {
    if es == [] then None else if Covers(es[0], k) then Some(PhysAt(es[0], k)) else FirstCover(es[1..], k)
  }

  /** The child that scanning the index from `from` on selects for a block. */
  function ChosenKid(kids: seq<Index>, k: nat, from: nat): (r: Option<nat>)
    ensures r.Some? ==> from <= r.value < |kids| && kids[r.value].lb <= k < KeyAfter(kids, r.value)
    decreases |kids| - from
  {
    if from >= |kids| then None
    else if kids[from].lb <= k < (if from + 1 < |kids| then kids[from + 1].lb else 0xFFFF_FFFF) then Some(from)
    else ChosenKid(kids, k, from + 1)
  }

  /** What the driver finds for a block, whatever state the tree is in. */
  function Found(raw: Buffer, disk: Disk, k: nat): Option<nat>
    requires |raw| == INODE_BUF
  {
    match RdHdr(raw, IBLOCK)
    case None => None
    case Some(h) =>
      if h.depth == 0 then FirstCover(LeafExtents(raw, IBLOCK), k)
      else match ChosenKid(Kids(raw), k, 0)
           case None => None
           case Some(i) => FirstCover(LeafAt(disk, Kids(raw)[i].child), k)
  }

  /** The first block that is looked for in the last leaf. */
  function LastKey(raw: Buffer): nat
    requires |raw| == INODE_BUF
  {
    if |Kids(raw)| == 0 then 0 else Kids(raw)[|Kids(raw)| - 1].lb
  }

  /** What the driver finds once block `lb` was put at the end of the extents `es`: the block is
      found, unless it lies below the last leaf's key, and everything else is as before. */
  ghost predicate Located(es: seq<Extent>, out: Buffer, after: Disk, lb: nat, pb: nat)
    requires |out| == INODE_BUF
  {
    forall k: nat :: k < U32 ==> Found(out, after, k) == Lookup(MapOf(if LastKey(out) <= lb then Inserted(es, lb, pb)
        else es), k)
  }

  /** Inserting an unmapped block makes the driver see the map with that block added exactly when
      the block does not lie below the last leaf's key and the grown extent can still be read. */
  lemma InsertionExact(es: seq<Extent>, out: Buffer, after: Disk, lb: nat, pb: nat)
    requires |out| == INODE_BUF && Sorted(es) && lb !in MapOf(es) && lb < U32 && Located(es, out, after, lb, pb)
    ensures (forall k: nat :: k < U32 ==> Found(out, after, k) == Lookup(MapOf(es)[lb := pb], k))
            <==> LastKey(out) <= lb && !Overlong(es, lb, pb)
    ensures Found(out, after, lb) == if LastKey(out) <= lb && !Overlong(es, lb, pb) then Some(pb) else None
  {
    hide Found, MapOf, Inserted, Overlong, LastKey;
    var want := MapOf(es)[lb := pb];
    assert Found(out, after, lb) == Lookup(MapOf(if LastKey(out) <= lb then Inserted(es, lb, pb) else es), lb);
    if Overlong(es, lb, pb) {
      OverlongBeyond(es, lb, pb);
      OverlongLost(es, lb, pb);
    } else {
      InsertedMap(es, lb, pb);
    }
    assert Found(out, after, lb) == Lookup(want, lb) <==> LastKey(out) <= lb && !Overlong(es, lb, pb);
    if LastKey(out) <= lb && !Overlong(es, lb, pb) {
      forall k: nat | k < U32 ensures Found(out, after, k) == Lookup(want, k) { }
    }
  }

  lemma OverlongBeyond(es: seq<Extent>, lb: nat, pb: nat)
    requires Sorted(es) && Overlong(es, lb, pb)
    ensures Beyond(es, lb)
  {
    InsertedSorted(es, lb, pb);
  }

  lemma OverlongLost(es: seq<Extent>, lb: nat, pb: nat)
    requires Overlong(es, lb, pb) && Beyond(es, lb)
    ensures lb !in MapOf(Inserted(es, lb, pb))
  {
    MapOfBelow(Inserted(es, lb, pb), lb);
  }

  lemma {:induction false} FirstCoverAt(es: seq<Extent>, i: nat, k: nat)
    requires i < |es| && Covers(es[i], k) && NoneCovers(es[..i], k)
    ensures FirstCover(es, k) == Some(PhysAt(es[i], k))
  {
    if i > 0 {
      assert es[..i][0] == es[0];
      var rest := es[1..][..i - 1];
      forall j | 0 <= j < |rest| ensures !Covers(rest[j], k) { assert rest[j] == es[..i][j + 1]; }
      FirstCoverAt(es[1..], i - 1, k);
    }
  }

  lemma {:induction false} FirstCoverNone(es: seq<Extent>, k: nat)
    requires NoneCovers(es, k)
    ensures FirstCover(es, k) == None
  {
    if es != [] { FirstCoverNone(es[1..], k); }
  }

  lemma {:induction false} FirstCoverConcat(a: seq<Extent>, b: seq<Extent>, k: nat)
    ensures FirstCover(a + b, k) == if FirstCover(a, k).Some? then FirstCover(a, k) else FirstCover(b, k)
  {
    if a == [] {
      assert a + b == b;
    } else {
      assert (a + b)[1..] == a[1..] + b;
      FirstCoverConcat(a[1..], b, k);
    }
  }

  /** Without overlaps scanning finds what the extents map. */
  lemma {:induction false} FirstCoverMap(es: seq<Extent>, k: nat)
    requires Disjoint(es)
    ensures FirstCover(es, k) == Lookup(MapOf(es), k)
  {
    if es != [] {
      var m := |es| - 1;
      DisjointPrefix(es, m);
      FirstCoverMap(es[..m], k);
      assert es == es[..m] + [es[m]];
      FirstCoverConcat(es[..m], [es[m]], k);
      if k in MapOf(es[..m]) {
        MapOfKeys(es[..m], k);
        var i :| 0 <= i < m && Covers(es[..m][i], k);
        MapOfValue(es[..m], i, k);
        MapOfValue(es, i, k);
      }
    }
  }

  lemma {:induction false} ChosenNone(kids: seq<Index>, k: nat, from: nat)
    requires from < |kids| && ChosenKid(kids, k, from) == None && k < U32
    ensures k < kids[from].lb || k == 0xFFFF_FFFF
    decreases |kids| - from
  {
    if from + 1 < |kids| { ChosenNone(kids, k, from + 1); }
  }

  /** In a loose tree the driver finds exactly what the tree maps. */
  lemma FoundLoose(raw: Buffer, disk: Disk, k: nat)
    requires TreeLoose(raw, disk) && k < U32
    ensures Found(raw, disk, k) == Lookup(FileMap(raw, disk), k)
  {
    hide KidLoose, Disjoint, MapOf, FirstCover, ChosenKid, LeafExtents;
    var es := TreeExtents(raw, disk);
    if RdHdr(raw, IBLOCK).Some? && RdHdr(raw, IBLOCK).value.depth == 0 {
      FirstCoverMap(es, k);
    } else if RdHdr(raw, IBLOCK).Some? {
      IndexRoot(raw);
      FoundInLeaves(raw, disk, k);
    } else {
      NoMap();
    }
  }

  lemma NoMap()
    ensures MapOf([]) == map[]
  {
  }

  lemma FoundInLeaves(raw: Buffer, disk: Disk, k: nat)
    requires TreeLoose(raw, disk) && k < U32 && |Kids(raw)| > 0
    ensures Found(raw, disk, k) == Lookup(FileMap(raw, disk), k)
  {
    hide KidLoose, Disjoint, MapOf, FirstCover, LeafExtents;
    var kids := Kids(raw);
    match ChosenKid(kids, k, 0)
    case None =>
      ChosenNone(kids, k, 0);
      if k == 0xFFFF_FFFF { TopUnmapped(TreeExtents(raw, disk)); } else { BelowFirstKey(disk, kids, k); }
    case Some(i) =>
      KidLeaf(raw, disk, i);
      ChosenLeaf(disk, kids, i, k);
      FirstCoverMap(LeafAt(disk, kids[i].child), k);
  }

  lemma {:induction false} DisjointPart(ls: seq<seq<Extent>>, i: nat)
    requires Disjoint(Concat(ls)) && i < |ls|
    ensures Disjoint(ls[i])
  {
    hide Disjoint;
    var m := |ls| - 1;
    DisjointParts(Concat(ls[..m]), ls[m]);
    if i < m { DisjointPart(ls[..m], i); }
  }

  lemma NoCover(es: seq<Extent>, k: nat)
    requires NoneCovers(es, k)
    ensures k !in MapOf(es)
  {
    MapOfKeys(es, k);
  }

  /** The very last block number is never mapped. */
  lemma TopUnmapped(es: seq<Extent>)
    requires Bounded(es)
    ensures 0xFFFF_FFFF !in MapOf(es)
  {
    NoCover(es, 0xFFFF_FFFF);
  }

  lemma {:induction false} ShownGrows(b: Buffer, base: nat, i: nat, n: nat)
    requires i <= n
    ensures Shown(b, base, i) <= Shown(b, base, n)
  {
    if i < n { ShownGrows(b, base, i, n - 1); }
  }

  /** The extent in slot `i` has its place in the list right after those before it. */
  lemma ShownAt(b: Buffer, base: nat, i: nat, n: nat)
    requires i < n && RdExtent(b, base, i).Some?
    ensures |Shown(b, base, i)| < |Shown(b, base, n)| && Shown(b, base, n)[|Shown(b, base, i)|]
        == RdExtent(b, base, i).value
  {
    ShownGrows(b, base, i + 1, n);
    assert Shown(b, base, i + 1)[|Shown(b, base, i)|] == RdExtent(b, base, i).value;
  }

  ghost predicate NoneCovers(es: seq<Extent>, k: nat) { forall i :: 0 <= i < |es| ==> !Covers(es[i], k) }

  /** Finds a block in a leaf. */
  method LeafLookup(b: Buffer, base: nat, lb: nat) returns (r: Option<nat>)
    requires RdHdr(b, base).Some?
    ensures r == FirstCover(LeafExtents(b, base), lb)
  {
    hide RdExtent, RdHdr, FirstCover;
    var entries := RdHdr(b, base).value.entries;
    var i := 0;
    while i < entries
      invariant 0 <= i <= entries && NoneCovers(Shown(b, base, i), lb)
    {
      var e := RdExtent(b, base, i);
      if e.Some? && e.value.lb <= lb < e.value.lb + e.value.len {
        ShownAt(b, base, i, entries);
        ShownGrows(b, base, i, entries);
        FirstCoverAt(LeafExtents(b, base), |Shown(b, base, i)|, lb);
        return Some(e.value.pb + (lb - e.value.lb));
      }
      i := i + 1;
    }
    FirstCoverNone(LeafExtents(b, base), lb);
    return None;
  }

  /** The child whose key range holds a block: the first one whose key is not above it and
      whose successor's key is. */
  method ChooseKid(raw: Buffer, ghost kids: seq<Index>, lb: nat) returns (r: Option<nat>)
    requires |raw| == INODE_BUF && RdHdr(raw, IBLOCK).Some? && kids == Kids(raw) && |kids|
        == RdHdr(raw, IBLOCK).value.entries > 0
    requires forall i :: 0 <= i < |kids| ==> RdIndex(raw, IBLOCK, i) == Some(kids[i])
    ensures match ChosenKid(kids, lb, 0) case None => r == None case Some(i) => r == Some(kids[i].child)
  {
    hide RdIndex, RdHdr, Kids;
    var entries := RdHdr(raw, IBLOCK).value.entries;
    var i := 0;
    while i < entries
      invariant 0 <= i <= entries && ChosenKid(kids, lb, i) == ChosenKid(kids, lb, 0)
    {
      var x := RdIndex(raw, IBLOCK, i).value;
      var next := if i + 1 < entries then RdIndex(raw, IBLOCK, i + 1).value.lb else 0xFFFF_FFFF;
      if x.lb <= lb < next { return Some(x.child); }
      i := i + 1;
    }
    return None;
  }

  lemma {:induction false} SumLenConcat(a: seq<Extent>, b: seq<Extent>)
    ensures SumLen(a + b) == SumLen(a) + SumLen(b)
    decreases |b|
  {
    if b == [] {
      assert a + b == a;
    } else {
      var m := |b| - 1;
      SumLenConcat(a, b[..m]);
      assert (a + b)[..|a + b| - 1] == a + b[..m];
    }
  }

  lemma EmptySum(ls: seq<seq<Extent>>)
    ensures SumLen([]) == 0 && SumLen(Concat(ls[..0])) == 0
  {
    assert ls[..0] == [];
  }

  lemma ConcatStep(ls: seq<seq<Extent>>, i: nat)
    requires i < |ls|
    ensures SumLen(Concat(ls[..i + 1])) == SumLen(Concat(ls[..i])) + SumLen(ls[i])
  {
    assert ls[..i + 1][..i] == ls[..i];
    SumLenConcat(Concat(ls[..i]), ls[i]);
  }

  lemma ShownSum(b: Buffer, base: nat, n: nat)
    ensures SumLen(Shown(b, base, n + 1))
            == SumLen(Shown(b, base, n)) + match RdExtent(b, base, n) case Some(e) => e.len case None => 0
  {
    if RdExtent(b, base, n).Some? {
      var e := RdExtent(b, base, n).value;
      SumLenConcat(Shown(b, base, n), [e]);
      assert [e][..0] == [];
      assert SumLen([e]) == e.len;
    } else {
      assert Shown(b, base, n + 1) == Shown(b, base, n);
    }
  }

  /** Adds up the lengths in a leaf. */
  method LeafSum(b: Buffer, base: nat) returns (total: nat)
    requires RdHdr(b, base).Some?
    ensures total == SumLen(LeafExtents(b, base))
  {
    hide RdExtent, RdHdr;
    var entries := RdHdr(b, base).value.entries;
    total := 0;
    var i := 0;
    while i < entries
      invariant 0 <= i <= entries && total == SumLen(Shown(b, base, i))
    {
      var e := RdExtent(b, base, i);
      if e.Some? { total := total + e.value.len; }
      ShownSum(b, base, i);
      i := i + 1;
    }
  }

  /** The root of a tree with leaves, as the driver reads it. */
  lemma RootHeader(raw: Buffer)
    requires |raw| == INODE_BUF && RootOk(raw) && |Kids(raw)| > 0
    ensures RdHdr(raw, IBLOCK) == Some(Header(|Kids(raw)|, ROOT_MAX, 1))
    ensures forall i :: 0 <= i < |Kids(raw)| ==> RdIndex(raw, IBLOCK, i) == Some(Kids(raw)[i])
  {
  }

  lemma IndexRoot(raw: Buffer)
    requires |raw| == INODE_BUF && RootOk(raw)
    requires RdHdr(raw, IBLOCK).Some? && RdHdr(raw, IBLOCK).value.depth != 0
    ensures |Kids(raw)| > 0
  {
  }

  lemma TreeRoot(g: Geometry, ino: nat, raw: Buffer, disk: Disk)
    requires g.bs >= 12 && TreeOk(g, ino, raw, disk)
    ensures |raw| == INODE_BUF && RootOk(raw)
  {
  }

  /** A tree that is all in the inode. */
  lemma InlineTree(g: Geometry, ino: nat, raw: Buffer, disk: Disk)
    requires g.bs >= 12 && |raw| == INODE_BUF && TreeOk(g, ino, raw, disk)
    requires RdHdr(raw, IBLOCK).Some? && RdHdr(raw, IBLOCK).value.depth == 0
    ensures LeafOk(raw, IBLOCK) && RdHdr(raw, IBLOCK).value.max == ROOT_MAX && Kids(raw) == []
    ensures TreeExtents(raw, disk) == LeafExtents(raw, IBLOCK) && Bounded(LeafExtents(raw, IBLOCK))
    ensures |TreeExtents(raw, disk)| == RdHdr(raw, IBLOCK).value.entries
  {
    ShownFull(raw, IBLOCK, RdHdr(raw, IBLOCK).value.entries);
  }

  /** Child `i` as the driver reads it. */
  lemma KidLeaf(raw: Buffer, disk: Disk, i: nat)
    requires |raw| == INODE_BUF && TreeLoose(raw, disk) && i < |Kids(raw)|
    ensures var c := Kids(raw)[i].child;
            && c < |disk| && RdHdr(disk[c], 0).Some? && RdHdr(disk[c], 0).value.depth == 0
            && LeafAt(disk, c) == LeafExtents(disk[c], 0) && Disjoint(LeafAt(disk, c))
    ensures Kids(raw)[i].lb < KeyAfter(Kids(raw), i)
  {
    assert KidLoose(disk, Kids(raw), i);
    DisjointPart(Leaves(disk, Kids(raw)), i);
  }
}
