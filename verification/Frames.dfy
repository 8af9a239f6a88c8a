/** The physical frame allocator: one bit per 4 KiB frame, set while the frame is in use. */
module Frames {
  import opened Arith
  import opened Bytes
  import opened Bitmap

  const PAGE: nat := 4096
  const FULL: nat := 0xFFFF_FFFF_FFFF_FFFF

  lemma OnesByte(n: nat)
    ensures Ones(n + 8) == 0x100 * Ones(n) + 0xFF
  {
    assert Ones(n + 2) == 4 * Ones(n) + 3;
    assert Ones(n + 4) == 4 * Ones(n + 2) + 3;
    assert Ones(n + 6) == 4 * Ones(n + 4) + 3;
  }

  lemma OnesHalf(n: nat)
    ensures Ones(n + 32) == 0x1_0000_0000 * Ones(n) + 0xFFFF_FFFF
  {
    OnesByte(n);
    OnesByte(n + 8);
    OnesByte(n + 16);
    OnesByte(n + 24);
  }

  lemma OnesZero()
    ensures Ones(0) == 0
  {
  }

  lemma WordOnes()
    ensures Ones(64) == FULL
  {
    hide Ones;
    OnesZero();
    OnesHalf(0);
    OnesHalf(32);
  }

  /** `x & !(1 << k)` */
  function AndNotBit(x: nat, k: nat): (r: nat)
    ensures r <= x
    decreases k, x
  {
    if k == 0 then (if x % 2 == 1 then x - 1 else x)
    else 2 * AndNotBit(x / 2, k - 1) + x % 2
  }

  lemma {:induction false} AndNotBitTest(x: nat, k: nat, j: nat)
    ensures TestBit(AndNotBit(x, k), j) <==> j != k && TestBit(x, j)
    decreases k, x
  {
    var r := AndNotBit(x, k);
    if k == 0 {
      assert r / 2 == x / 2;
    } else {
      assert r / 2 == AndNotBit(x / 2, k - 1) && r % 2 == x % 2;
      if j > 0 { AndNotBitTest(x / 2, k - 1, j - 1); }
    }
  }

  // --------------------------------------------------------- the bitmap's bits

  /** Frame `n` is in use. Frames beyond the bitmap are nobody's. */
  predicate Marked(bm: seq<nat>, n: nat) { n / 64 < |bm| && TestBit(bm[n / 64], n % 64) }

  ghost predicate Words(bm: seq<nat>) { forall i :: 0 <= i < |bm| ==> bm[i] <= FULL }

  lemma MarkTest(bm: seq<nat>, n: nat, m: nat)
    requires n / 64 < |bm|
    ensures Marked(bm[n / 64 := OrBit(bm[n / 64], n % 64)], m) <==> m == n || Marked(bm, m)
  {
    OrBitTest(bm[n / 64], n % 64, m % 64);
  }

  lemma UnmarkTest(bm: seq<nat>, n: nat, m: nat)
    requires n / 64 < |bm|
    ensures Marked(bm[n / 64 := AndNotBit(bm[n / 64], n % 64)], m) <==> m != n && Marked(bm, m)
  {
    AndNotBitTest(bm[n / 64], n % 64, m % 64);
  }

  lemma MarkWords(bm: seq<nat>, n: nat)
    requires n / 64 < |bm| && Words(bm)
    ensures Words(bm[n / 64 := OrBit(bm[n / 64], n % 64)])
  {
    hide Ones, OrBit;
    WordOnes();
    OrBitBound(bm[n / 64], n % 64, 64);
  }

  /** A word is all ones exactly when all its frames are in use. */
  lemma FullWord(bm: seq<nat>, i: nat)
    requires i < |bm| && bm[i] <= FULL
    ensures bm[i] == FULL <==> forall n :: 64 * i <= n < 64 * i + 64 ==> Marked(bm, n)
  {
    hide Ones, TestBit;
    WordOnes();
    if bm[i] == FULL {
      forall n | 64 * i <= n < 64 * i + 64 ensures Marked(bm, n) { OnesTest(64, n % 64); }
    } else {
      var k := ClearBit(bm[i], 64);
      assert (64 * i + k) / 64 == i && (64 * i + k) % 64 == k;
      assert !Marked(bm, 64 * i + k);
    }
  }

  /** Frames `lo` to `hi` are in use, the others as in `was`. */
  ghost predicate MarkedRange(bm: seq<nat>, was: seq<nat>, lo: nat, hi: nat) {
    |bm| == |was| && forall m: nat :: Marked(bm, m) <==> lo <= m < hi || Marked(was, m)
  }

  ghost predicate ClearedRange(bm: seq<nat>, was: seq<nat>, lo: nat, hi: nat) {
    |bm| == |was| && forall m: nat :: Marked(bm, m) <==> !(lo <= m < hi) && Marked(was, m)
  }

  // ----------------------------------------------------------- the wrapping scan

  /** How many steps a scan from `hint` takes to reach word `i` of `n`. */
  function Steps(hint: nat, n: nat, i: nat): nat
    requires i < n
  {
    if i >= Rem(hint, n) then i - Rem(hint, n) else i + n - Rem(hint, n)
  }

  /** Wherever the scan starts, it reaches every word within one round. */
  lemma WrapCovers(hint: nat, n: nat, i: nat)
    requires i < n
    ensures Steps(hint, n, i) < n && Rem(hint + Steps(hint, n, i), n) == i
  {
    QuotRem(hint, n);
    if i >= Rem(hint, n) {
      QuotOfTimes(Quot(hint, n), n, i);
    } else {
      QuotOfTimes(Quot(hint, n) + 1, n, i);
    }
  }

  /** The word the scan looks at in step `s` is full. */
  ghost predicate FullAt(bm: seq<nat>, hint: nat, s: nat) { |bm| > 0 && bm[Rem(hint + s, |bm|)] == FULL }

  method WrapIndex(hint: nat, scanned: nat, n: nat) returns (i: nat)
    requires n > 0
    ensures i == Rem(hint + scanned, n) < n
  {
    i := (hint + scanned) % n;
    QuotIsQuotient(hint + scanned, n);
  }

  // -------------------------------------------------------------- the memory map

  /** An entry of the boot loader's memory map. */
  datatype Region = Region(base: nat, length: nat, usable: bool)

  function End(r: Region): nat { r.base + r.length }

  /** The end of the last usable region. */
  function Highest(mem: seq<Option<Region>>): nat {
    if mem == [] then 0
    else
      var m := |mem| - 1;
      match mem[m]
      case Some(r) => if r.usable && End(r) > Highest(mem[..m]) then End(r) else Highest(mem[..m])
      case None => Highest(mem[..m])
  }

  /** The first usable region of the greatest length. */
  function Largest(mem: seq<Option<Region>>): Region {
    if mem == [] then Region(0, 0, true)
    else
      var m := |mem| - 1;
      match mem[m]
      case Some(r) => if r.usable && r.length > Largest(mem[..m]).length then r else Largest(mem[..m])
      case None => Largest(mem[..m])
  }

  function BitmapEntries(mem: seq<Option<Region>>): nat { (Highest(mem) / PAGE + 63) / 64 }

  function BitmapPages(mem: seq<Option<Region>>): nat { (BitmapEntries(mem) * 8 + PAGE - 1) / PAGE }

  /** The frame the bitmap starts at: it goes to the end of the largest region. */
  function BitmapFrame(mem: seq<Option<Region>>): nat
    requires BitmapPages(mem) * PAGE <= End(Largest(mem))
  {
    (End(Largest(mem)) - BitmapPages(mem) * PAGE) / PAGE
  }

  /** There is usable memory, and the largest region can hold the bitmap. */
  predicate Bootable(mem: seq<Option<Region>>) {
    Largest(mem).length > 0 && BitmapPages(mem) <= Largest(mem).length / PAGE
  }

  function FirstFrame(r: Region): nat { r.base / PAGE }
  function PastFrame(r: Region): nat { r.base / PAGE + r.length / PAGE }

  /** A usable region of the map counts frame `n` as its own. */
  ghost predicate UsableFrame(mem: seq<Option<Region>>, n: nat) {
    exists i :: 0 <= i < |mem| && InRegion(mem[i], n)
  }

  predicate InRegion(e: Option<Region>, n: nat) {
    e.Some? && e.value.usable && FirstFrame(e.value) <= n < PastFrame(e.value)
  }

  /** In a region that starts on a frame boundary these are the frames that lie inside it. */
  lemma AlignedRegion(r: Region, n: nat)
    requires r.usable && r.base % PAGE == 0
    ensures InRegion(Some(r), n) <==> r.base <= n * PAGE && n * PAGE + PAGE <= End(r)
  {
  }

  /** In one that does not, the first frame sticks out at its start. */
  lemma MisalignedRegion(r: Region)
    requires r.usable && r.base % PAGE != 0 && r.length >= PAGE
    ensures InRegion(Some(r), FirstFrame(r)) && FirstFrame(r) * PAGE < r.base
  {
  }

  lemma {:induction false} RegionEnds(mem: seq<Option<Region>>, i: nat)
    requires i < |mem| && mem[i].Some? && mem[i].value.usable
    ensures End(mem[i].value) <= Highest(mem) && mem[i].value.length <= Largest(mem).length
  {
    var m := |mem| - 1;
    if i < m { RegionEnds(mem[..m], i); }
  }

  /** The highest address is reached by a usable region. */
  lemma {:induction false} HighestReached(mem: seq<Option<Region>>) returns (i: nat)
    requires Highest(mem) > 0
    ensures i < |mem| && mem[i].Some? && mem[i].value.usable && End(mem[i].value) == Highest(mem)
  {
    var m := |mem| - 1;
    i := m;
    if Highest(mem) == Highest(mem[..m]) { i := HighestReached(mem[..m]); }
  }

  /** The bitmap has a bit for every frame below the highest address and fewer than a word of bits
      to spare; its pages hold it with less than a page to spare. */
  lemma BitmapSize(mem: seq<Option<Region>>)
    ensures Highest(mem) / PAGE <= 64 * BitmapEntries(mem) < Highest(mem) / PAGE + 64
    ensures 8 * BitmapEntries(mem) <= PAGE * BitmapPages(mem) < 8 * BitmapEntries(mem) + PAGE
  {
    hide Highest;
  }

  /** The bitmap ends inside the largest region. It starts there too exactly when the region has room
      for it below its last frame boundary. */
  lemma BitmapPlace(mem: seq<Option<Region>>)
    requires Bootable(mem)
    ensures BitmapPages(mem) * PAGE <= End(Largest(mem))
    ensures BitmapFrame(mem) * PAGE + BitmapPages(mem) * PAGE <= End(Largest(mem))
    ensures Largest(mem).base <= BitmapFrame(mem) * PAGE
        <==> BitmapPages(mem) * PAGE + End(Largest(mem)) % PAGE <= Largest(mem).length
  {
    hide Highest, Largest, BitmapPages;
    var end, pages := End(Largest(mem)), BitmapPages(mem);
    assert end == end / PAGE * PAGE + end % PAGE;
    assert (end - pages * PAGE) / PAGE == end / PAGE - pages;
  }

  lemma {:induction false} LargestEnds(mem: seq<Option<Region>>)
    ensures End(Largest(mem)) <= Highest(mem)
    ensures Largest(mem).length > 0 ==> Some(Largest(mem)) in mem && Largest(mem).usable
  {
    if mem != [] {
      var m := |mem| - 1;
      LargestEnds(mem[..m]);
      if Largest(mem) == Largest(mem[..m]) && Largest(mem).length > 0 {
        var i :| 0 <= i < m && mem[..m][i] == Some(Largest(mem));
        assert mem[i] == Some(Largest(mem));
      }
    }
  }

  /** Every frame of a usable region has its bit. */
  lemma FrameHasBit(mem: seq<Option<Region>>, i: nat, n: nat)
    requires i < |mem| && InRegion(mem[i], n)
    ensures n / 64 < BitmapEntries(mem)
  {
    RegionEnds(mem, i);
    SumOfQuotients(mem[i].value.base, mem[i].value.length, Highest(mem));
  }

  lemma SumOfQuotients(a: nat, b: nat, h: nat)
    requires a + b <= h
    ensures a / PAGE + b / PAGE <= h / PAGE
  {
  }

  /** So does every frame of the bitmap itself. */
  lemma BitmapHasBit(mem: seq<Option<Region>>, k: nat)
    requires Bootable(mem) && k < BitmapPages(mem)
    ensures BitmapPages(mem) * PAGE <= End(Largest(mem)) && (BitmapFrame(mem) + k) / 64 < BitmapEntries(mem)
  {
    LargestEnds(mem);
    BitmapInside(End(Largest(mem)), Largest(mem).length, BitmapPages(mem), Highest(mem), k);
  }

  lemma BitmapInside(end: nat, length: nat, pages: nat, highest: nat, k: nat)
    requires length <= end <= highest && pages <= length / PAGE && k < pages
    ensures pages * PAGE <= end && ((end - pages * PAGE) / PAGE + k) / 64 < (highest / PAGE + 63) / 64
  {
  }

  // ------------------------------------------------------------ array updates

  method MarkFrame(a: array<nat>, n: nat)
    requires n / 64 < a.Length && Words(a[..])
    modifies a
    ensures Words(a[..]) && MarkedRange(a[..], old(a[..]), n, n + 1)
  {
    ghost var was := a[..];
    MarkWords(was, n);
    forall m: nat { MarkTest(was, n, m); }
    a[n / 64] := OrBit(a[n / 64], n % 64);
    assert a[..] == was[n / 64 := OrBit(was[n / 64], n % 64)];
  }

  method ClearFrame(a: array<nat>, n: nat)
    requires n / 64 < a.Length && Words(a[..])
    modifies a
    ensures Words(a[..]) && ClearedRange(a[..], old(a[..]), n, n + 1)
  {
    ghost var was := a[..];
    forall m: nat { UnmarkTest(was, n, m); }
    a[n / 64] := AndNotBit(a[n / 64], n % 64);
    assert a[..] == was[n / 64 := AndNotBit(was[n / 64], n % 64)];
  }

  method ClearFrames(a: array<nat>, lo: nat, count: nat)
    requires Words(a[..]) && forall n :: lo <= n < lo + count ==> n / 64 < a.Length
    modifies a
    ensures Words(a[..]) && ClearedRange(a[..], old(a[..]), lo, lo + count)
  {
    hide Marked;
    var i := 0;
    while i < count
      invariant 0 <= i <= count && Words(a[..]) && ClearedRange(a[..], old(a[..]), lo, lo + i)
    {
      ClearFrame(a, lo + i);
      i := i + 1;
    }
  }

  method MarkFrames(a: array<nat>, lo: nat, count: nat)
    requires Words(a[..]) && forall n :: lo <= n < lo + count ==> n / 64 < a.Length
    modifies a
    ensures Words(a[..]) && MarkedRange(a[..], old(a[..]), lo, lo + count)
  {
    hide Marked;
    var i := 0;
    while i < count
      invariant 0 <= i <= count && Words(a[..]) && MarkedRange(a[..], old(a[..]), lo, lo + i)
    {
      MarkFrame(a, lo + i);
      i := i + 1;
    }
  }

  /** What is free after the first `k` entries of the map were seen. */
  ghost predicate FreedBy(bm: seq<nat>, mem: seq<Option<Region>>, k: nat)
    requires k <= |mem|
  {
    forall n: nat :: n < 64 * |bm| ==> (!Marked(bm, n) <==> UsableFrame(mem[..k], n))
  }

  lemma FreedStep(was: seq<nat>, bm: seq<nat>, mem: seq<Option<Region>>, k: nat)
    requires k < |mem| && |bm| == |was| && FreedBy(was, mem, k)
    requires forall n: nat :: n < 64 * |bm| ==> (!Marked(bm, n) <==> InRegion(mem[k], n) || !Marked(was, n))
    ensures FreedBy(bm, mem, k + 1)
  {
    hide Marked, InRegion;
    forall n: nat ensures UsableFrame(mem[..k + 1], n) <==> UsableFrame(mem[..k], n) || InRegion(mem[k], n) {
      if UsableFrame(mem[..k + 1], n) {
        var i :| 0 <= i < k + 1 && InRegion(mem[..k + 1][i], n);
        if i < k { assert InRegion(mem[..k][i], n); }
      }
      if UsableFrame(mem[..k], n) {
        var i :| 0 <= i < k && InRegion(mem[..k][i], n);
        assert InRegion(mem[..k + 1][i], n);
      }
      if InRegion(mem[k], n) { assert InRegion(mem[..k + 1][k], n); }
    }
  }

  class FrameAllocator {
    var bitmap: array<nat>
    /** Where the next scan starts; any value will do. */
    var hint: nat

    ghost predicate Valid()
      reads this, bitmap
    {
      Words(bitmap[..])
    }

    constructor ()
      ensures Valid() && bitmap.Length == 0 && fresh(bitmap)
    {
      bitmap := new nat[0];
      hint := 0;
    }

    /** The first pass over the memory map. */
    method Measure(mem: seq<Option<Region>>) returns (highest: nat, largest: Region)
      ensures highest == Highest(mem) && largest == Largest(mem)
    {
      highest, largest := 0, Region(0, 0, true);
      var i := 0;
      while i < |mem|
        invariant 0 <= i <= |mem| && highest == Highest(mem[..i]) && largest == Largest(mem[..i])
      {
        assert mem[..i + 1][..i] == mem[..i];
        if mem[i].Some? && mem[i].value.usable {
          var r := mem[i].value;
          if r.length > largest.length { largest := r; }
          if r.base + r.length > highest { highest := r.base + r.length; }
        }
        i := i + 1;
      }
      assert mem[..i] == mem;
    }

    /** The second pass: frees what the map calls usable. */
    method FreeUsable(mem: seq<Option<Region>>)
      requires Valid() && bitmap.Length == BitmapEntries(mem)
      requires forall n: nat :: n < 64 * bitmap.Length ==> Marked(bitmap[..], n)
      modifies bitmap
      ensures Valid() && FreedBy(bitmap[..], mem, |mem|)
    {
      hide Marked;
      assert mem[..0] == [];
      var i := 0;
      while i < |mem|
        invariant 0 <= i <= |mem| && Valid() && FreedBy(bitmap[..], mem, i)
      {
        ghost var was := bitmap[..];
        if mem[i].Some? && mem[i].value.usable {
          var r := mem[i].value;
          forall n | FirstFrame(r) <= n < PastFrame(r) ensures n / 64 < bitmap.Length { FrameHasBit(mem, i, n); }
          ClearFrames(bitmap, r.base / PAGE, r.length / PAGE);
        }
        FreedStep(was, bitmap[..], mem, i);
        i := i + 1;
      }
    }

    /** Builds the bitmap from the memory map. Without usable memory, or without a region that
        can hold the bitmap, the kernel stops. */
    method Init(mem: seq<Option<Region>>) returns (ok: bool)
      modifies this
      ensures ok <==> Bootable(mem)
      ensures ok ==>
                Valid() && fresh(bitmap) && bitmap.Length == BitmapEntries(mem)
                && BitmapPages(mem) * PAGE <= End(Largest(mem))
      ensures ok ==> forall n: nat :: n < 64 * bitmap.Length ==>
                (!Marked(bitmap[..], n) <==>
                   UsableFrame(mem, n) && !(BitmapFrame(mem) <= n < BitmapFrame(mem) + BitmapPages(mem)))
    {
      hide Marked, Highest, Largest, UsableFrame;
      var highest, largest := Measure(mem);
      if largest.length == 0 { return false; }
      var totalPages := highest / PAGE;
      var entries := (totalPages + 63) / 64;
      var pages := (entries * 8 + PAGE - 1) / PAGE;
      if pages > largest.length / PAGE { return false; }
      EmptyFits(mem);
      var physical := (largest.base + largest.length - pages * PAGE) / PAGE * PAGE;
      bitmap := new nat[entries];
      hint := 0;
      var i := 0;
      while i < entries
        invariant 0 <= i <= entries && bitmap.Length == entries && fresh(bitmap)
        invariant forall j :: 0 <= j < i ==> bitmap[j] == FULL
      {
        bitmap[i] := FULL;
        i := i + 1;
      }
      AllFull(bitmap[..]);
      FreeUsable(mem);
      assert mem[..|mem|] == mem;
      forall n | physical / PAGE <= n < physical / PAGE + pages ensures n / 64 < bitmap.Length {
        BitmapHasBit(mem, n - physical / PAGE);
      }
      MarkFrames(bitmap, physical / PAGE, pages);
      return true;
    }

    /** The first clear bit of a word that is not full. */
    method ScanWord(index: nat) returns (bit: nat)
      requires Valid() && index < bitmap.Length && bitmap[index] != FULL
      ensures bit < 64 && !Marked(bitmap[..], index * 64 + bit)
    {
      ghost var k := SomeClear(bitmap[..], index);
      bit := 0;
      while TestBit(bitmap[index], bit)
        invariant bit <= k
        decreases 64 - bit
      {
        bit := bit + 1;
      }
      assert (index * 64 + bit) / 64 == index && (index * 64 + bit) % 64 == bit;
    }

    /** Hands out a frame, or reports that every frame is in use. */
    method AllocPage() returns (r: Option<nat>)
      requires Valid()
      modifies this`hint, bitmap
      ensures Valid()
      ensures r.None? <==> forall n: nat :: n < 64 * bitmap.Length ==> Marked(old(bitmap[..]), n)
      ensures r.None? ==> bitmap[..] == old(bitmap[..])
      ensures r.Some? ==> r.value % PAGE == 0 && r.value / PAGE < 64 * bitmap.Length
      ensures r.Some? ==>
                !Marked(old(bitmap[..]), r.value / PAGE)
                && MarkedRange(bitmap[..], old(bitmap[..]), r.value / PAGE, r.value / PAGE + 1)
    {
      hide Marked, Rem, Steps;
      var entries := bitmap.Length;
      var scanned := 0;
      while scanned < entries
        invariant 0 <= scanned <= entries && Valid() && bitmap[..] == old(bitmap[..]) && hint == old(hint)
        invariant forall s :: 0 <= s < scanned ==> FullAt(bitmap[..], hint, s)
      {
        var index := WrapIndex(hint, scanned, entries);
        if bitmap[index] != FULL {
          var bit := ScanWord(index);
          FrameIndex(index, bit);
          MarkFrame(bitmap, index * 64 + bit);
          hint := (index * 64 + bit + 1) % entries;
          return Some((index * 64 + bit) * PAGE);
        }
        scanned := scanned + 1;
      }
      forall i | 0 <= i < entries ensures bitmap[i] == FULL {
        WrapCovers(hint, entries, i);
        assert FullAt(bitmap[..], hint, Steps(hint, entries, i));
      }
      AllFull(bitmap[..]);
      return None;
    }

    /** Takes a frame back. An address that is not on a frame boundary or beyond the bitmap
        stops the kernel. */
    method FreePage(page: nat) returns (ok: bool)
      requires Valid()
      modifies this`hint, bitmap
      ensures Valid()
      ensures ok <==> page % PAGE == 0 && page / PAGE / 64 < bitmap.Length
      ensures !ok ==> bitmap[..] == old(bitmap[..]) && hint == old(hint)
      ensures ok ==> ClearedRange(bitmap[..], old(bitmap[..]), page / PAGE, page / PAGE + 1)
    {
      hide Marked;
      if page % PAGE != 0 { return false; }
      var n := page / PAGE;
      if n / 64 >= bitmap.Length { return false; }
      ClearFrame(bitmap, n);
      if n / 64 < hint { hint := n / 64; }
      return true;
    }
  }

  lemma FrameIndex(index: nat, bit: nat)
    requires bit < 64
    ensures (index * 64 + bit) / 64 == index && (index * 64 + bit) * PAGE % PAGE == 0
    ensures (index * 64 + bit) * PAGE / PAGE == index * 64 + bit
  {
  }

  lemma SomeClear(bm: seq<nat>, i: nat) returns (k: nat)
    requires i < |bm| && bm[i] < FULL
    ensures k < 64 && !TestBit(bm[i], k)
  {
    hide Ones;
    WordOnes();
    k := ClearBit(bm[i], 64);
  }

  // --------------------------------------------------------------------- runs

  datatype FrameOp = Got(n: nat) | Released(n: nat)

  /** What an allocation or a release does to the bitmap. */
  ghost predicate Did(op: FrameOp, was: seq<nat>, bm: seq<nat>) {
    match op
    case Got(n) => !Marked(was, n) && MarkedRange(bm, was, n, n + 1)
    case Released(n) => ClearedRange(bm, was, n, n + 1)
  }

  /** The frames a run has handed out and not taken back. */
  function Live(ops: seq<FrameOp>): set<nat> {
    if ops == [] then {}
    else
      var rest := Live(ops[..|ops| - 1]);
      match ops[|ops| - 1]
      case Got(n) => rest + {n}
      case Released(n) => rest - {n}
  }

  ghost predicate FrameRun(ops: seq<FrameOp>, states: seq<seq<nat>>) {
    |states| == |ops| + 1 && forall k :: 0 <= k < |ops| ==> Did(ops[k], states[k], states[k + 1])
  }

  lemma {:induction false} LiveMarked(ops: seq<FrameOp>, states: seq<seq<nat>>)
    requires FrameRun(ops, states)
    ensures forall n :: n in Live(ops) ==> Marked(states[|ops|], n)
  {
    hide Marked;
    if ops != [] {
      var m := |ops| - 1;
      LiveMarked(ops[..m], states[..m + 1]);
      assert Did(ops[m], states[m], states[m + 1]);
    }
  }

  /** Whatever was allocated and released before, in whatever order, a frame that is handed
      out is not one that somebody still has. */
  lemma NoLiveFrameAgain(ops: seq<FrameOp>, states: seq<seq<nat>>, n: nat, next: seq<nat>)
    requires FrameRun(ops, states) && Did(Got(n), states[|ops|], next)
    ensures n !in Live(ops) && Live(ops + [Got(n)]) == Live(ops) + {n}
  {
    hide Marked;
    LiveMarked(ops, states);
    assert (ops + [Got(n)])[..|ops|] == ops;
  }

  lemma EmptyFits(mem: seq<Option<Region>>)
    requires Bootable(mem)
    ensures BitmapPages(mem) * PAGE <= End(Largest(mem))
  {
  }

  lemma AllFull(bm: seq<nat>)
    requires forall i :: 0 <= i < |bm| ==> bm[i] == FULL
    ensures Words(bm) && forall n: nat :: n < 64 * |bm| ==> Marked(bm, n)
  {
    hide Marked;
    forall n: nat | n < 64 * |bm| ensures Marked(bm, n) { FullWord(bm, n / 64); }
  }
}
