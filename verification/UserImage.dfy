/** What a program image looks like in memory: segments, the bytes they bring, and the pages
    that hold them. */
module UserImage {
  import opened Bytes

  const SPACE: nat := 0x1_0000_0000_0000

  /** A loadable segment: where its bytes are in the file and where they go. */
  datatype Segment = Segment(offset: nat, vaddr: nat, filesz: nat, memsz: nat)

  predicate SegmentOk(image: Buffer, g: Segment) { g.filesz <= g.memsz && g.offset + g.filesz <= |image|
                      && 0 < g.memsz }

  /** The address is one that the file fills. */
  predicate InFile(g: Segment, va: nat) { g.vaddr <= va < g.vaddr + g.filesz }

  predicate InMemory(g: Segment, va: nat) { g.vaddr <= va < g.vaddr + g.memsz }

  /** The byte an address gets when the segments are loaded one after the other: that of the
      last segment whose file part covers it, otherwise zero. */
  function Loaded(image: Buffer, gs: seq<Segment>, va: nat): byte {
    if gs == [] then 0
    else
      var g := gs[|gs| - 1];
      if InFile(g, va) && g.offset + (va - g.vaddr) < |image| then image[g.offset + (va - g.vaddr)]
      else Loaded(image, gs[..|gs| - 1], va)
  }

  /** Data frames and which of them each page has. */
  type Data = map<nat, Buffer>
  type Pages = map<nat, nat>

  /** The byte at an address of a placed page. */
  function ByteAt(pages: Pages, data: Data, va: nat): Option<byte> {
    if va / 0x1000 in pages && pages[va / 0x1000] in data && |data[pages[va / 0x1000]]| == 0x1000
    then Some(data[pages[va / 0x1000]][va % 0x1000])
    else None
  }

  /** The placed pages hold exactly what loading the segments puts there. */
  ghost predicate Exact(pages: Pages, data: Data, image: Buffer, gs: seq<Segment>) {
    forall va: nat :: va / 0x1000 in pages ==> ByteAt(pages, data, va) == Some(Loaded(image, gs, va))
  }

  ghost predicate Covered(pages: Pages, g: Segment) {
    forall va: nat :: InMemory(g, va) ==> va / 0x1000 in pages
  }

  /** Every page of the segments has a frame. */
  ghost predicate AllCovered(pages: Pages, gs: seq<Segment>) {
    forall i :: 0 <= i < |gs| ==> Covered(pages, gs[i])
  }

  ghost predicate PagesApart(pages: Pages) {
    forall p, q :: p in pages && q in pages && p != q ==> pages[p] != pages[q]
  }

  lemma {:induction false} NotLoaded(image: Buffer, gs: seq<Segment>, va: nat)
    requires forall i :: 0 <= i < |gs| ==> !InFile(gs[i], va)
    ensures Loaded(image, gs, va) == 0
  {
    if gs != [] { NotLoaded(image, gs[..|gs| - 1], va); }
  }

  lemma {:induction false} LoadedFrom(image: Buffer, gs: seq<Segment>, i: nat, va: nat)
    requires i < |gs| && SegmentOk(image, gs[i]) && InFile(gs[i], va)
    requires forall j :: i < j < |gs| ==> !InFile(gs[j], va)
    ensures gs[i].offset + (va - gs[i].vaddr) < |image| && Loaded(image, gs, va)
        == image[gs[i].offset + (va - gs[i].vaddr)]
  {
    if i < |gs| - 1 { LoadedFrom(image, gs[..|gs| - 1], i, va); }
  }

  ghost predicate Disjoint(gs: seq<Segment>) {
    forall i, j, va: nat :: 0 <= i < |gs| && 0 <= j < |gs| && i != j && InMemory(gs[i], va) ==> !InMemory(gs[j], va)
  }

  /** With disjoint segments every address of a segment holds its file byte or, past the file
      part, zero, even where segments share a page. */
  lemma ImageCorrect(pages: Pages, data: Data, image: Buffer, gs: seq<Segment>, i: nat, va: nat)
    requires Exact(pages, data, image, gs) && AllCovered(pages, gs) && Disjoint(gs) && i < |gs| && InMemory(gs[i], va)
    requires SegmentOk(image, gs[i])
    requires forall j :: 0 <= j < |gs| ==> SegmentOk(image, gs[j])
    ensures ByteAt(pages, data, va)
            == Some(if va < gs[i].vaddr + gs[i].filesz then image[gs[i].offset + (va - gs[i].vaddr)] else 0)
  {
    assert Covered(pages, gs[i]) && SegmentOk(image, gs[i]);
    forall j | 0 <= j < |gs| && j != i ensures !InFile(gs[j], va) { assert SegmentOk(image, gs[j])
        && !InMemory(gs[j], va); }
    if InFile(gs[i], va) { LoadedFrom(image, gs, i, va); } else { NotLoaded(image, gs, va); }
  }

  // ------------------------------------------------------ page by page

  /** A segment as far as its bytes below `upto` go. */
  function Cut(g: Segment, upto: nat): Segment {
    g.(filesz := if upto <= g.vaddr then 0 else Min(g.filesz, upto - g.vaddr))
  }

  lemma CutFile(g: Segment, upto: nat, va: nat)
    ensures InFile(Cut(g, upto), va) <==> InFile(g, va) && va < upto
  {
  }

  /** What one more page of a segment adds. */
  lemma CutLoaded(image: Buffer, gs: seq<Segment>, g: Segment, page: nat, va: nat)
    ensures Loaded(image, gs + [Cut(g, page)], va)
            == if InFile(g, va) && va < page && g.offset + (va - g.vaddr) < |image|
                then image[g.offset + (va - g.vaddr)] else Loaded(image, gs, va)
  {
    CutFile(g, page, va);
    assert (gs + [Cut(g, page)])[..|gs|] == gs;
  }

  /** Nothing was loaded into a page without a frame. */
  lemma FreshPage(image: Buffer, pages: Pages, gs: seq<Segment>, va: nat)
    requires AllCovered(pages, gs) && va / 0x1000 !in pages && forall i :: 0 <= i < |gs| ==> gs[i].filesz <= gs[i].memsz
    ensures Loaded(image, gs, va) == 0
  {
    forall i | 0 <= i < |gs| ensures !InFile(gs[i], va) { assert Covered(pages, gs[i]); }
    NotLoaded(image, gs, va);
  }

  /** A segment none of whose bytes are in yet, or all of whose are. */
  lemma CutEnds(image: Buffer, gs: seq<Segment>, g: Segment, page: nat, va: nat)
    ensures page <= g.vaddr ==> Loaded(image, gs + [Cut(g, page)], va) == Loaded(image, gs, va)
    ensures page >= g.vaddr + g.filesz && page > g.vaddr ==> Cut(g, page) == g
  {
    CutLoaded(image, gs, g, page, va);
  }

  // ------------------------------------------------------------ the ELF file

  /** A 64-bit little-endian x86-64 executable with program headers of a usable size. */
  predicate ElfHeaderOk(image: Buffer) {
    && |image| >= 64 && image[0..4] == [0x7F, 0x45, 0x4C, 0x46] && image[4] == 2 && image[5] == 1
    && Le16(image, 16) == 2 && Le16(image, 18) == 0x3E && Le16(image, 54) >= 56
  }

  function Stride(i: nat, size: nat): nat { i * size }

  /** Where program header `i` is. */
  function HeaderAt(image: Buffer, i: nat): nat
    requires |image| >= 64
  {
    Le64(image, 32) + Stride(i, Le16(image, 54))
  }

  function SegmentAt(image: Buffer, ph: nat): Segment
    requires ph + 56 <= |image|
  {
    Segment(Le64(image, ph + 8), Le64(image, ph + 16), Le64(image, ph + 32), Le64(image, ph + 40))
  }

  /** The loadable segments among the first `n` program headers, or none if one is broken. */
  function Loadable(image: Buffer, n: nat): Option<seq<Segment>>
    requires |image| >= 64
  {
    if n == 0 then Some([])
    else
      match Loadable(image, n - 1)
      case None => None
      case Some(gs) =>
        var ph := HeaderAt(image, n - 1);
        if ph + 56 > |image| then None
        else if Le32(image, ph) != 1 then Some(gs)
        else
          var g := SegmentAt(image, ph);
          if g.filesz > g.memsz || g.offset + g.filesz > |image| then None
          else if g.memsz == 0 then Some(gs)
          else Some(gs + [g])
  }

  lemma {:induction false} LoadableOk(image: Buffer, n: nat)
    requires |image| >= 64
    ensures Loadable(image, n).Some? ==> forall i ::
              0 <= i < |Loadable(image, n).value| ==> SegmentOk(image, Loadable(image, n).value[i])
  {
    if n > 0 { LoadableOk(image, n - 1); }
  }

  /** Segments found among fewer headers are found among more. */
  lemma {:induction false} LoadablePrefix(image: Buffer, m: nat, n: nat)
    requires |image| >= 64 && m <= n && Loadable(image, n).Some?
    ensures Loadable(image, m).Some? && Loadable(image, m).value <= Loadable(image, n).value
  {
    if m < n { LoadablePrefix(image, m, n - 1); }
  }

  // ------------------------------------------------- what the headers ask for

  /** The headers lie one after the other, from the offset in the file's header on, at its stride. */
  lemma HeaderPlaces(image: Buffer, i: nat)
    requires |image| >= 64
    ensures HeaderAt(image, 0) == Le64(image, 32)
    ensures HeaderAt(image, i + 1) == HeaderAt(image, i) + Le16(image, 54)
  {
    hide Le16, Le64;
    var size := Le16(image, 54);
    assert (i + 1) * size == i * size + size;
    assert 0 * size == 0;
  }

  /** Program header `i` asks for memory: it is of type 1 and its memory size is not zero. */
  predicate Loads(image: Buffer, i: nat)
    requires |image| >= 64
  {
    var ph := HeaderAt(image, i);
    ph + 56 <= |image| && Le32(image, ph) == 1 && Le64(image, ph + 40) != 0
  }

  /** Program header `i` is outside the file, or of type 1 with more bytes than memory or than the
      file has. */
  predicate Broken(image: Buffer, i: nat)
    requires |image| >= 64
  {
    var ph := HeaderAt(image, i);
    || ph + 56 > |image|
    || (Le32(image, ph) == 1 && (Le64(image, ph + 32) > Le64(image, ph + 40)
                                 || Le64(image, ph + 8) + Le64(image, ph + 32) > |image|))
  }

  /** Loading is refused exactly for a broken header. */
  lemma {:induction false} LoadableExact(image: Buffer, n: nat)
    requires |image| >= 64
    ensures Loadable(image, n).None? <==> exists i: nat :: i < n && Broken(image, i)
  {
    hide Le16, Le32, Le64;
    if n > 0 {
      LoadableExact(image, n - 1);
      assert Broken(image, n - 1) || !Broken(image, n - 1);
    }
  }

  /** Every header that asks for memory is listed, at the place its rank among those gives it. */
  lemma {:induction false} LoadableRank(image: Buffer, n: nat, i: nat)
    requires |image| >= 64 && i < n && Loadable(image, n).Some? && Loads(image, i)
    ensures Loadable(image, i).Some? && |Loadable(image, i).value| < |Loadable(image, n).value|
    ensures var ph := HeaderAt(image, i);
            Loadable(image, n).value[|Loadable(image, i).value|]
            == Segment(Le64(image, ph + 8), Le64(image, ph + 16), Le64(image, ph + 32), Le64(image, ph + 40))
  {
    hide Le16, Le32, Le64;
    if i < n - 1 { LoadableRank(image, n - 1, i); }
  }

  /** ... and nothing else is. */
  lemma {:induction false} LoadableOnly(image: Buffer, n: nat, k: nat) returns (i: nat)
    requires |image| >= 64 && Loadable(image, n).Some? && k < |Loadable(image, n).value|
    ensures i < n && Loads(image, i) && Loadable(image, i).Some? && |Loadable(image, i).value| == k
  {
    hide Le16, Le32, Le64;
    if Loadable(image, n - 1).Some? && k < |Loadable(image, n - 1).value| {
      i := LoadableOnly(image, n - 1, k);
    } else {
      i := n - 1;
    }
  }

  /** The address is one that header `i` asks for. */
  predicate Asked(image: Buffer, i: nat, va: nat) {
    |image| >= 64 && Loads(image, i) &&
    var ph := HeaderAt(image, i);
    Le64(image, ph + 16) <= va < Le64(image, ph + 16) + Le64(image, ph + 40)
  }

  /** The byte it gets: the file's, and zero behind the file's part. */
  function AskedByte(image: Buffer, i: nat, va: nat): byte
    requires Asked(image, i, va)
  {
    var ph := HeaderAt(image, i);
    var at := Le64(image, ph + 8) + (va - Le64(image, ph + 16));
    if va < Le64(image, ph + 16) + Le64(image, ph + 32) && at < |image| then image[at] else 0
  }

  /** Every address that a header asks for has a byte, and if no other header asks for it, the byte
      that header puts there. */
  lemma AskedLoaded(image: Buffer, n: nat, pages: Pages, data: Data, i: nat, va: nat)
    requires |image| >= 64 && i < n && Loadable(image, n).Some? && Asked(image, i, va)
    requires Exact(pages, data, image, Loadable(image, n).value) && AllCovered(pages, Loadable(image, n).value)
    ensures ByteAt(pages, data, va).Some?
    ensures (forall j: nat :: j < n && j != i ==> !Asked(image, j, va)) ==>
              ByteAt(pages, data, va) == Some(AskedByte(image, i, va))
  {
    hide Le16, Le32, Le64, ByteAt, Loaded;
    var gs := Loadable(image, n).value;
    LoadableRank(image, n, i);
    LoadableOk(image, n);
    var r := |Loadable(image, i).value|;
    assert Covered(pages, gs[r]) && InMemory(gs[r], va);
    if forall j: nat :: j < n && j != i ==> !Asked(image, j, va) {
      forall k | 0 <= k < |gs| && k != r ensures !InFile(gs[k], va) {
        var j := LoadableOnly(image, n, k);
        LoadableRank(image, n, j);
        assert SegmentOk(image, gs[k]) && !Asked(image, j, va);
      }
      assert SegmentOk(image, gs[r]);
      if InFile(gs[r], va) { LoadedFrom(image, gs, r, va); } else { NotLoaded(image, gs, va); }
    }
  }
}
