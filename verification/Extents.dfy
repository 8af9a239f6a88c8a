/** The extent records of ext4 (the inode's 60-byte root and the on-disk leaves) and the
    logical-to-physical block map they stand for. */
module Extents {
  import opened Bytes

  const EXT_MAGIC: nat := 0xF30A
  const MAX_PBLOCK: nat := 0x1_0000_0000_0000
  /** A length with bit 15 set marks an unwritten extent, which the driver does not see. */
  const UNWRITTEN: nat := 0x8000

  datatype Header = Header(entries: nat, max: nat, depth: nat)
  datatype Extent = Extent(lb: nat, len: nat, pb: nat)
  datatype Index = Index(lb: nat, child: nat)

  // ------------------------------------------------------------- records

  function RdHdr(b: Buffer, base: nat): (h: Option<Header>)
  {
    if |b| < base + 12 || Le16(b, base) != EXT_MAGIC then None
    else Some(Header(Le16(b, base + 2), Le16(b, base + 4), Le16(b, base + 6)))
  }

  method WrHdr(b: Buffer, base: nat, h: Header) returns (r: Buffer)
    requires base + 12 <= |b|
    requires h.entries < U16 && h.max < U16 && h.depth < U16
    ensures |r| == |b|
    ensures RdHdr(r, base) == Some(h)
    ensures forall k :: 0 <= k < |b| && !(base <= k < base + 12) ==> r[k] == b[k]
  {
    r := PutLe16(b, base, EXT_MAGIC);
    r := PutLe16(r, base + 2, h.entries);
    r := PutLe16(r, base + 4, h.max);
    r := PutLe16(r, base + 6, h.depth);
    r := PutLe32(r, base + 8, 0);
  }

  function Slot(base: nat, i: nat): nat { base + 12 + 12 * i }

  function RdExtent(b: Buffer, base: nat, i: nat): (e: Option<Extent>)
    ensures e.Some? ==> 0 < e.value.len < UNWRITTEN
  {
    var o := Slot(base, i);
    if |b| < o + 12 then None
    else
      var raw := Le16(b, o + 4);
      var len := if raw >= UNWRITTEN then 0 else raw;
      if len == 0 then None
      else Some(Extent(Le32(b, o), len, Le16(b, o + 6) * 0x1_0000_0000 + Le32(b, o + 8)))
  }

  lemma ExtentFromFields(r: Buffer, base: nat, i: nat, e: Extent)
    requires Slot(base, i) + 12 <= |r|
    requires e.lb < U32 && e.len < U16 && e.pb < MAX_PBLOCK
    requires Le32(r, Slot(base, i)) == e.lb && Le16(r, Slot(base, i) + 4) == e.len
    requires Le16(r, Slot(base, i) + 6) == e.pb / 0x1_0000_0000
    requires Le32(r, Slot(base, i) + 8) == e.pb % 0x1_0000_0000
    ensures RdExtent(r, base, i) == if 0 < e.len < UNWRITTEN then Some(e) else None
  {
  }

  /** Writing slot `i` then reading it gives the extent back, except that a length of
      0x8000 or more reads as no extent at all. */
  method WrExtent(b: Buffer, base: nat, i: nat, e: Extent) returns (r: Buffer)
    requires Slot(base, i) + 12 <= |b|
    requires e.lb < U32 && e.len < U16 && e.pb < MAX_PBLOCK
    ensures |r| == |b|
    ensures RdExtent(r, base, i) == if 0 < e.len < UNWRITTEN then Some(e) else None
    ensures forall k :: 0 <= k < |b| && !(Slot(base, i) <= k < Slot(base, i) + 12) ==> r[k] == b[k]
  {
    var o := Slot(base, i);
    var b1 := PutLe32(b, o, e.lb);
    var b2 := PutLe16(b1, o + 4, e.len);
    var b3 := PutLe16(b2, o + 6, e.pb / 0x1_0000_0000);
    r := PutLe32(b3, o + 8, e.pb % 0x1_0000_0000);
    Le32Same(b1, r, o);
    Le16Same(b2, r, o + 4);
    Le16Same(b3, r, o + 6);
    ExtentFromFields(r, base, i, e);
  }

  function RdIndex(b: Buffer, base: nat, i: nat): (x: Option<Index>)
  {
    var o := Slot(base, i);
    if |b| < o + 12 then None
    else Some(Index(Le32(b, o), Le16(b, o + 8) * 0x1_0000_0000 + Le32(b, o + 4)))
  }

  lemma IndexFromFields(r: Buffer, base: nat, i: nat, x: Index)
    requires Slot(base, i) + 12 <= |r| && x.child < MAX_PBLOCK
    requires Le32(r, Slot(base, i)) == x.lb && Le32(r, Slot(base, i) + 4) == x.child % 0x1_0000_0000
    requires Le16(r, Slot(base, i) + 8) == x.child / 0x1_0000_0000
    ensures RdIndex(r, base, i) == Some(x)
  {
  }

  method WrIndex(b: Buffer, base: nat, i: nat, x: Index) returns (r: Buffer)
    requires Slot(base, i) + 12 <= |b|
    requires x.lb < U32 && x.child < MAX_PBLOCK
    ensures |r| == |b|
    ensures RdIndex(r, base, i) == Some(x)
    ensures forall k :: 0 <= k < |b| && !(Slot(base, i) <= k < Slot(base, i) + 12) ==> r[k] == b[k]
  {
    var o := Slot(base, i);
    var b1 := PutLe32(b, o, x.lb);
    var b2 := PutLe32(b1, o + 4, x.child % 0x1_0000_0000);
    var b3 := PutLe16(b2, o + 8, x.child / 0x1_0000_0000);
    r := PutLe16(b3, o + 10, 0);
    Le32Same(b1, r, o);
    Le32Same(b2, r, o + 4);
    Le16Same(b3, r, o + 8);
    IndexFromFields(r, base, i, x);
  }

  /** What a record reads depends on its own twelve bytes only. */
  lemma RecordsFrame(b: Buffer, c: Buffer, base: nat, i: nat)
    requires |b| == |c|
    requires forall k :: Slot(base, i) <= k < Slot(base, i) + 12 && k < |b| ==> b[k] == c[k]
    ensures RdExtent(b, base, i) == RdExtent(c, base, i)
    ensures RdIndex(b, base, i) == RdIndex(c, base, i)
  {
  }

  lemma HeaderFrame(b: Buffer, c: Buffer, base: nat)
    requires |b| == |c|
    requires forall k :: base <= k < base + 12 && k < |b| ==> b[k] == c[k]
    ensures RdHdr(b, base) == RdHdr(c, base)
  {
  }

  // ---------------------------------------------------- the block mapping

  predicate Covers(e: Extent, k: nat) { e.lb <= k < e.lb + e.len }

  function PhysAt(e: Extent, k: nat): nat
    requires Covers(e, k)
  {
    e.pb + (k - e.lb)
  }

  function ExtentMap(e: Extent): map<nat, nat> {
    map k: nat | e.lb <= k < e.lb + e.len && Covers(e, k) :: PhysAt(e, k)
  }

  /** The map a list of extents stands for. */
  function MapOf(es: seq<Extent>): map<nat, nat> {
    if es == [] then map[] else MapOf(es[..|es| - 1]) + ExtentMap(es[|es| - 1])
  }

  ghost predicate Sorted(es: seq<Extent>) {
    && (forall i :: 0 <= i < |es| ==> es[i].len > 0)
    && (forall i, j :: 0 <= i < j < |es| ==> es[i].lb + es[i].len <= es[j].lb)
  }

  /** No two extents share a file block, in whatever order they are. */
  ghost predicate Disjoint(es: seq<Extent>) {
    && (forall i :: 0 <= i < |es| ==> es[i].len > 0)
    && (forall i, j :: 0 <= i < j < |es| ==> Separate(es[i], es[j]))
  }

  predicate Separate(e: Extent, f: Extent) { e.lb + e.len <= f.lb || f.lb + f.len <= e.lb }

  lemma SortedDisjoint(es: seq<Extent>)
    requires Sorted(es)
    ensures Disjoint(es)
  {
  }

  lemma DisjointParts(a: seq<Extent>, b: seq<Extent>)
    requires Disjoint(a + b)
    ensures Disjoint(a) && Disjoint(b)
  {
    forall i | 0 <= i < |a| ensures a[i] == (a + b)[i] { }
    forall i | 0 <= i < |b| ensures b[i] == (a + b)[|a| + i] { }
    forall i, j | 0 <= i < j < |a| ensures Separate(a[i], a[j]) { assert Separate((a + b)[i], (a + b)[j]); }
    forall i, j | 0 <= i < j < |b| ensures Separate(b[i], b[j]) { assert Separate((a + b)[|a| + i], (a + b)[|a| + j]); }
  }

  lemma SortedTail(a: seq<Extent>, b: seq<Extent>)
    requires Sorted(a + b)
    ensures Sorted(b)
  {
    forall i | 0 <= i < |b| ensures b[i] == (a + b)[|a| + i] { }
    forall i, j | 0 <= i < j < |b| ensures b[i].lb + b[i].len <= b[j].lb {
      assert b[i] == (a + b)[|a| + i] && b[j] == (a + b)[|a| + j];
    }
  }

  function SumLen(es: seq<Extent>): nat {
    if es == [] then 0 else SumLen(es[..|es| - 1]) + es[|es| - 1].len
  }

  lemma MapOfAppend(es: seq<Extent>, e: Extent)
    ensures MapOf(es + [e]) == MapOf(es) + ExtentMap(e)
  {
    assert (es + [e])[..|es|] == es;
  }

  lemma {:induction false} MapOfConcat(a: seq<Extent>, b: seq<Extent>)
    ensures MapOf(a + b) == MapOf(a) + MapOf(b)
    decreases |b|
  {
    if b == [] {
      assert a + b == a;
    } else {
      var m := |b| - 1;
      var c := b[..m];
      MapOfConcat(a, c);
      MapOfAppend(a + c, b[m]);
      assert a + b == (a + c) + [b[m]];
      MapPlusAssoc(MapOf(a), MapOf(c), ExtentMap(b[m]));
    }
  }

  lemma {:induction false} MapOfKeys(es: seq<Extent>, k: nat)
    ensures k in MapOf(es) <==> exists i :: 0 <= i < |es| && Covers(es[i], k)
  {
    if es != [] {
      var m := |es| - 1;
      MapOfKeys(es[..m], k);
      if k in MapOf(es) && !Covers(es[m], k) {
        var i :| 0 <= i < m && Covers(es[..m][i], k);
        assert Covers(es[i], k);
      }
      if i :| 0 <= i < |es| && Covers(es[i], k) {
        if i < m { assert Covers(es[..m][i], k); }
      }
    }
  }

  /** Where no two extents overlap, the one that covers a block decides its value. */
  lemma {:induction false} MapOfValue(es: seq<Extent>, i: nat, k: nat)
    requires Disjoint(es) && i < |es| && Covers(es[i], k)
    ensures k in MapOf(es) && MapOf(es)[k] == es[i].pb + (k - es[i].lb)
  {
    var m := |es| - 1;
    if i < m {
      DisjointPrefix(es, m);
      MapOfValue(es[..m], i, k);
      assert Separate(es[i], es[m]);
    }
  }

  lemma DisjointPrefix(es: seq<Extent>, m: nat)
    requires Disjoint(es) && m <= |es|
    ensures Disjoint(es[..m])
  {
    assert es[..m] + es[m..] == es;
    DisjointParts(es[..m], es[m..]);
  }

  lemma {:induction false} MapOfBelow(es: seq<Extent>, bound: nat)
    requires forall i :: 0 <= i < |es| ==> es[i].lb + es[i].len <= bound
    ensures forall k :: k in MapOf(es) ==> k < bound
  {
    forall k | k in MapOf(es) ensures k < bound { MapOfKeys(es, k); }
  }

  /** Extents that do not overlap map exactly as many blocks as their lengths add up to. */
  lemma {:induction false} MapOfSize(es: seq<Extent>)
    requires Disjoint(es)
    ensures |MapOf(es)| == SumLen(es)
  {
    hide Disjoint, ExtentMap;
    if es != [] {
      var m := |es| - 1;
      DisjointPrefix(es, m);
      MapOfSize(es[..m]);
      RangeSize(es[m]);
      LastApart(es);
      assert |MapOf(es).Keys| == |MapOf(es[..m]).Keys| + |ExtentMap(es[m]).Keys|;
    }
  }

  lemma LastApart(es: seq<Extent>)
    requires Disjoint(es) && es != []
    ensures MapOf(es[..|es| - 1]).Keys !! ExtentMap(es[|es| - 1]).Keys
    ensures MapOf(es).Keys == MapOf(es[..|es| - 1]).Keys + ExtentMap(es[|es| - 1]).Keys
  {
    var m := |es| - 1;
    forall k | k in MapOf(es[..m]) ensures !Covers(es[m], k) {
      MapOfKeys(es[..m], k);
      var i :| 0 <= i < m && Covers(es[..m][i], k);
      assert Separate(es[i], es[m]);
    }
  }

  lemma {:induction false} RangeSize(e: Extent)
    ensures |ExtentMap(e)| == e.len
    decreases e.len
  {
    if e.len > 0 {
      var f := e.(len := e.len - 1);
      RangeSize(f);
      var k := e.lb + e.len - 1;
      assert ExtentMap(e) == ExtentMap(f)[k := e.pb + (k - e.lb)];
    } else {
      assert ExtentMap(e) == map[];
    }
  }

  lemma ExtentMapGrow(e: Extent)
    ensures ExtentMap(e.(len := e.len + 1)) == ExtentMap(e)[e.lb + e.len := e.pb + e.len]
  {
    var f := e.(len := e.len + 1);
    forall k | k in ExtentMap(f)
      ensures k in ExtentMap(e)[e.lb + e.len := e.pb + e.len]
      ensures ExtentMap(f)[k] == ExtentMap(e)[e.lb + e.len := e.pb + e.len][k]
    {
      assert Covers(f, k);
      if k != e.lb + e.len { assert Covers(e, k); }
    }
    assert Covers(f, e.lb + e.len);
    forall k | k in ExtentMap(e) ensures k in ExtentMap(f) { assert Covers(f, k); }
  }

  /** Growing the last extent by one block adds exactly one pair to the map. */
  lemma MapOfGrow(es: seq<Extent>, e: Extent, f: Extent, lb: nat, pb: nat)
    requires f == e.(len := e.len + 1) && lb == e.lb + e.len && pb == e.pb + e.len
    ensures MapOf(es + [f]) == MapOf(es + [e])[lb := pb]
  {
    hide MapOf;
    MapOfAppend(es, e);
    MapOfAppend(es, f);
    ExtentMapGrow(e);
    MapPlusUpdate(MapOf(es), ExtentMap(e), lb, pb);
  }

  lemma MapOfSingle(es: seq<Extent>, lb: nat, pb: nat)
    ensures MapOf(es + [Extent(lb, 1, pb)]) == MapOf(es)[lb := pb]
  {
    hide MapOf;
    MapOfAppend(es, Extent(lb, 1, pb));
    assert ExtentMap(Extent(lb, 1, pb)) == map[lb := pb];
  }

  // --------------------------------------------------------------- leaves

  /** The extents that the first `n` slots of a leaf show to the driver. */
  function Shown(b: Buffer, base: nat, n: nat): (es: seq<Extent>)
    ensures |es| <= n
  {
    if n == 0 then []
    else
      var e := RdExtent(b, base, n - 1);
      Shown(b, base, n - 1) + if e.Some? then [e.value] else []
  }

  ghost predicate Full(b: Buffer, base: nat, n: nat) {
    forall i :: 0 <= i < n ==> RdExtent(b, base, i).Some?
  }

  lemma {:induction false} ShownFull(b: Buffer, base: nat, n: nat)
    requires Full(b, base, n)
    ensures |Shown(b, base, n)| == n
    ensures forall i :: 0 <= i < n ==> RdExtent(b, base, i) == Some(Shown(b, base, n)[i])
  {
    if n > 0 { ShownFull(b, base, n - 1); }
  }

  lemma {:induction false} ShownFrame(b: Buffer, c: Buffer, base: nat, n: nat)
    requires |b| == |c|
    requires forall k :: Slot(base, 0) <= k < Slot(base, n) && k < |b| ==> b[k] == c[k]
    ensures Shown(b, base, n) == Shown(c, base, n)
    ensures Full(b, base, n) <==> Full(c, base, n)
  {
    if n > 0 {
      ShownFrame(b, c, base, n - 1);
      RecordsFrame(b, c, base, n - 1);
      forall i | 0 <= i < n ensures RdExtent(b, base, i) == RdExtent(c, base, i) {
        RecordsFrame(b, c, base, i);
      }
    }
  }

  /** A leaf whose header counts `entries` records, all of them readable. */
  ghost predicate LeafOk(b: Buffer, base: nat) {
    && RdHdr(b, base).Some?
    && var h := RdHdr(b, base).value;
    && h.depth == 0 && h.entries <= h.max && Slot(base, h.max) <= |b|
    && Full(b, base, h.entries)
  }

  function LeafExtents(b: Buffer, base: nat): seq<Extent> {
    match RdHdr(b, base)
    case None => []
    case Some(h) => Shown(b, base, h.entries)
  }

  /** A readable record after the counted ones adds its extent at the end of the list. */
  lemma ShownAppend(b: Buffer, c: Buffer, base: nat, n: nat, e: Extent)
    requires |b| == |c| && Full(b, base, n)
    requires forall k :: Slot(base, 0) <= k < Slot(base, n) && k < |b| ==> b[k] == c[k]
    requires RdExtent(c, base, n) == Some(e)
    ensures Full(c, base, n + 1) && Shown(c, base, n + 1) == Shown(b, base, n) + [e]
  {
    ShownFrame(b, c, base, n);
  }

  /** Replacing the last counted record replaces the last extent, or drops it when the new
      record cannot be read. */
  lemma ShownReplaceLast(b: Buffer, c: Buffer, base: nat, n: nat)
    requires |b| == |c| && Full(b, base, n + 1)
    requires forall k :: Slot(base, 0) <= k < Slot(base, n) && k < |b| ==> b[k] == c[k]
    ensures |Shown(b, base, n + 1)| == n + 1 && Shown(b, base, n + 1)[..n] == Shown(b, base, n)
    ensures Shown(c, base, n + 1) == Shown(b, base, n)
                                     + match RdExtent(c, base, n) case Some(e) => [e] case None => []
    ensures RdExtent(c, base, n).Some? ==> Full(c, base, n + 1)
  {
    ShownFull(b, base, n + 1);
    ShownFull(b, base, n);
    ShownFrame(b, c, base, n);
  }

  /** Lowering the entry count cuts the list. */
  lemma {:induction false} ShownPrefix(b: Buffer, base: nat, m: nat, n: nat)
    requires m <= n && Full(b, base, n)
    ensures |Shown(b, base, n)| == n && Shown(b, base, m) == Shown(b, base, n)[..m]
  {
    ShownFull(b, base, n);
    ShownFull(b, base, m);
  }
}
