/** Loading a program: frames from the allocator, pages through the page tables, bytes into the
    frames. */
module Loader {
  import opened Bytes
  import opened Frames
  import PageRuns
  import opened PageTable
  import opened VirtualMemory
  import opened UserImage

  const USER_FLAGS: nat := 7
  const USER_MAX: nat := 0x8000_0000_0000
  const STACK_PAGES: nat := 16
  const STACK_SPAN: nat := 18 * 0x1000

  /** How a loading step ended; after `Halted` the kernel has stopped. */
  datatype Outcome = Fine | Failed | Halted

  /** Page `p` is open to user code, mapped for writing and translated to frame `f`, which holds a
      page of data and is in use. */
  ghost predicate PageHere(mem: Tables, root: nat, bm: seq<nat>, data: Data, p: nat, f: nat) {
    && p < 0x10_0000_0000 && Translate(mem, root, p * 0x1000) == Some(f * 0x1000)
    && f in data && |data[f]| == 0x1000 && Taken(bm, f) && UserWalk(mem, root, PathOf(p * 0x1000))
    && WriteLeaf(Walk(mem, root, PathOf(p * 0x1000)))
  }

  ghost predicate PagesHere(mem: Tables, root: nat, bm: seq<nat>, data: Data, pages: Pages) {
    PagesApart(pages) && forall p :: p in pages ==> PageHere(mem, root, bm, data, p, pages[p])
  }

  /** Why a page could not be mapped: every frame is taken, or, which stops the kernel, a large
      page lies on the way to it. */
  ghost predicate Blocked(o: Outcome, mem: Tables, root: nat, bm: seq<nat>, va: nat) {
    OutOfFrames(bm) || (o.Halted? && HugeOnWay(mem, root, PathOf(va)))
  }

  ghost predicate RangeBlocked(o: Outcome, mem: Tables, root: nat, bm: seq<nat>, lo: nat, hi: nat) {
    exists p: nat :: lo <= p < hi && Blocked(o, mem, root, bm, p * 0x1000)
  }

  ghost predicate SegmentBlocked(o: Outcome, mem: Tables, root: nat, bm: seq<nat>, g: Segment) {
    exists p: nat :: Touches(g, p) && Blocked(o, mem, root, bm, p * 0x1000)
  }

  lemma OneBlocked(o: Outcome, mem: Tables, root: nat, bm: seq<nat>, lo: nat, hi: nat, p: nat, va: nat)
    requires lo <= p < hi && va == p * 0x1000 && Blocked(o, mem, root, bm, va)
    ensures RangeBlocked(o, mem, root, bm, lo, hi)
  {
    hide Blocked;
  }

  /** What makes a mapping fail also stops the kernel where it does not accept the failure. */
  lemma FailureHalts(o: Outcome, mem: Tables, root: nat, bm: seq<nat>, lo: nat, hi: nat)
    requires RangeBlocked(o, mem, root, bm, lo, hi)
    ensures RangeBlocked(Halted, mem, root, bm, lo, hi)
  {
    hide OutOfFrames, HugeOnWay;
    var p: nat :| lo <= p < hi && Blocked(o, mem, root, bm, p * 0x1000);
    OneBlocked(Halted, mem, root, bm, lo, hi, p, p * 0x1000);
  }

  lemma PageNumber(p: nat)
    requires p < 0x10_0000_0000
    ensures PageOf(p * 0x1000) == p && p * 0x1000 % 0x1000 == 0
  {
  }

  lemma PlacedTranslates(mem: Tables, root: nat, bm: seq<nat>, data: Data, pages: Pages, p: nat)
    requires PagesHere(mem, root, bm, data, pages) && p in pages
    ensures PageHere(mem, root, bm, data, p, pages[p]) && Translate(mem, root, p * 0x1000) == Some(pages[p] * 0x1000)
  {
    hide Translate;
  }

  /** User code can read a loaded page, and write it if the tables above it are entered for
      writing. */
  lemma PlacedWritable(mem: Tables, root: nat, bm: seq<nat>, data: Data, pages: Pages, p: nat)
    requires PagesHere(mem, root, bm, data, pages) && p in pages
    ensures var q := PathOf(p * 0x1000); UserWalk(mem, root, q) && (WriteWalk(mem, root, q) <==> WayOpen(mem, root, q))
  {
    hide Translate, Walk, UserWalk, WriteWalk, WayOpen;
    assert PageHere(mem, root, bm, data, p, pages[p]);
    WriteExact(mem, root, PathOf(p * 0x1000));
  }

  /** A page mapped to a frame that was free joins the others. */
  lemma PageJoins(was: Tables, mem: Tables, root: nat, before: seq<nat>, bm: seq<nat>, data: Data, pages: Pages, p: nat,
                  f: nat)
    requires PagesHere(was, root, before, data, pages) && p !in pages && p < 0x10_0000_0000 && f < 0x100_0000_0000
    requires !Taken(before, f) && Taken(bm, f) && StillTaken(before, bm)
    requires forall vb: nat :: Translate(mem, root, vb) == if PageOf(vb) == p then Some(f * 0x1000 + vb % 0x1000)
        else Translate(was, root, vb)
    requires UserWalk(mem, root, PathOf(p * 0x1000))
    requires forall q :: PathOk(q) && q != PathOf(p * 0x1000) && UserWalk(was, root, q) ==> UserWalk(mem, root, q)
    requires WriteLeaf(Walk(mem, root, PathOf(p * 0x1000)))
    requires forall q :: PathOk(q) && q != PathOf(p * 0x1000) ==> Walk(mem, root, q) == Walk(was, root, q)
    ensures PagesHere(mem, root, bm, data[f := Zeros(0x1000)], pages[p := f])
  {
    hide Translate, PageOf, Marked, UserWalk, PathOf, Walk, WriteLeaf;
    var more, placed := data[f := Zeros(0x1000)], pages[p := f];
    forall q | q in placed ensures PageHere(mem, root, bm, more, q, placed[q]) {
      PageNumber(p);
      if q != p {
        assert PageHere(was, root, before, data, q, pages[q]);
        PageNumber(q);
        SamePage(q * 0x1000, p * 0x1000);
      }
    }
    forall q | q in pages && q != p ensures pages[q] != f { assert PageHere(was, root, before, data, q, pages[q]); }
  }

  class ProgramLoader {
    const vmm: Vmm
    /** Physical memory as far as it holds pages of programs. */
    var data: Data
    /** The pages loaded so far and their frames. */
    ghost var pages: Pages

    ghost predicate Valid()
      reads this, vmm, vmm.frames, vmm.frames.bitmap
    {
      vmm.Valid() && vmm.root.Some? && PagesHere(vmm.mem, vmm.root.value, vmm.frames.bitmap[..], data, pages)
    }

    constructor (vmm: Vmm)
      requires vmm.Valid() && vmm.root.Some?
      ensures Valid() && this.vmm == vmm && pages == map[] && data == map[]
    {
      this.vmm := vmm;
      data := map[];
      pages := map[];
    }

    /** The frame of a page; a page that has none gets a zeroed one. */
    method PlacePage(page: nat) returns (o: Outcome, frame: nat)
      requires Valid() && page % 0x1000 == 0 && page < SPACE
      requires page / 0x1000 in pages || Translate(vmm.mem, vmm.root.value, page) == None
      modifies this`data, this`pages, vmm`mem, vmm`own, vmm.frames`hint, vmm.frames.bitmap
      ensures o.Fine? ==> Valid()
      ensures !o.Fine? ==> Blocked(o, vmm.mem, vmm.root.value, vmm.frames.bitmap[..], page)
      ensures o.Fine? ==>
                page / 0x1000 in pages && pages[page / 0x1000] == frame && frame in data && |data[frame]| == 0x1000
      ensures o.Fine? && page / 0x1000 in old(pages) ==> pages == old(pages) && data == old(data)
      ensures o.Fine? && page / 0x1000 !in old(pages) ==>
                pages == old(pages)[page / 0x1000 := frame] && data == old(data)[frame := Zeros(0x1000)] && forall p ::
                    p in old(pages) ==> old(pages)[p] != frame
      ensures o.Fine? ==> forall vb: nat :: PageOf(vb) != page / 0x1000 ==>
                Translate(vmm.mem, vmm.root.value, vb) == old(Translate(vmm.mem, vmm.root.value, vb))
    {
      hide Translate, Marked, UserWalk, Walk, UserClosed, TreeShaped, HugeOnWay, PageRuns.OpDone, WriteLeaf,
        WriteWalk, WayOpen, HasFlags, PathOf, PathOk, SameWalks;
      var p := page / 0x1000;
      PageNumber(p);
      if p in pages { PlacedTranslates(vmm.mem, vmm.root.value, vmm.frames.bitmap[..], data, pages, p); }
      var found := vmm.VirtToPhys(page);
      if found.Some? { return Fine, found.value / 0x1000; }
      ghost var bm0 := vmm.frames.bitmap[..];
      var got := vmm.frames.AllocPage();
      if got.None? { return Failed, 0; }
      var f := got.value / PAGE;
      ghost var bm1 := vmm.frames.bitmap[..];
      AllocTaken(bm0, bm1, f, vmm.own);
      UserFlags();
      var ok := vmm.MapPageFlags(page, got.value, USER_FLAGS);
      if !ok { return Halted, 0; }
      TakenStays(bm0, bm1, vmm.frames.bitmap[..], f);
      FrameNumber(got.value);
      PageRuns.MappedLeaf(page, got.value, USER_FLAGS, old(vmm.mem), vmm.mem, vmm.root.value);
      PageJoins(old(vmm.mem), vmm.mem, vmm.root.value, bm0, vmm.frames.bitmap[..], data, pages, p, f);
      data := data[f := Zeros(0x1000)];
      pages := pages[p := f];
      return Fine, f;
    }

    /** Gives a page that has none a zeroed frame. */
    method MapFresh(page: nat) returns (o: Outcome)
      requires Valid() && page % 0x1000 == 0 && page < SPACE && page / 0x1000 !in pages
      modifies this`data, this`pages, vmm`mem, vmm`own, vmm.frames`hint, vmm.frames.bitmap
      ensures o.Fine? ==>
                Valid() && page / 0x1000 in pages && pages[page / 0x1000] in data
                && data[pages[page / 0x1000]] == Zeros(0x1000)
      ensures o.Fine? ==>
                pages.Keys == old(pages).Keys + {page / 0x1000} && OldPages(old(pages), old(data), pages, data)
      ensures o.Fine? ==> UserWalk(vmm.mem, vmm.root.value, PathOf(page))
      ensures !o.Fine? ==> Blocked(o, vmm.mem, vmm.root.value, vmm.frames.bitmap[..], page)
    {
      hide Translate, Marked, Walk, UserWalk, UserClosed, TreeShaped, HugeOnWay, PageRuns.OpDone, WriteLeaf,
        WriteWalk, WayOpen, HasFlags, PathOf, PathOk, SameWalks;
      var p := page / 0x1000;
      PageNumber(p);
      ghost var bm0 := vmm.frames.bitmap[..];
      var got := vmm.frames.AllocPage();
      if got.None? { return Failed; }
      var f := got.value / PAGE;
      ghost var bm1 := vmm.frames.bitmap[..];
      AllocTaken(bm0, bm1, f, vmm.own);
      UserFlags();
      var ok := vmm.MapPageFlags(page, got.value, USER_FLAGS);
      if !ok { return Halted; }
      TakenStays(bm0, bm1, vmm.frames.bitmap[..], f);
      FrameNumber(got.value);
      PageRuns.MappedLeaf(page, got.value, USER_FLAGS, old(vmm.mem), vmm.mem, vmm.root.value);
      PageJoins(old(vmm.mem), vmm.mem, vmm.root.value, bm0, vmm.frames.bitmap[..], data, pages, p, f);
      NewFrame(old(vmm.mem), vmm.root.value, bm0, data, pages, f);
      data := data[f := Zeros(0x1000)];
      pages := pages[p := f];
      return Fine;
    }

    /** Copies file bytes into a frame. */
    method CopyIn(frame: nat, at: nat, src: Buffer)
      requires Valid() && frame in data && |data[frame]| == 0x1000 && at + |src| <= 0x1000
      modifies this`data
      ensures Valid() && data == old(data)[frame := Splice(old(data)[frame], at, src)]
    {
      data := data[frame := Splice(data[frame], at, src)];
      SameFrames(vmm.mem, vmm.root.value, vmm.frames.bitmap[..], old(data), data, pages);
    }

    /** The part of a page that the file provides. */
    method CopyPart(image: Buffer, g: Segment, page: nat, frame: nat)
      requires Valid() && SegmentOk(image, g) && frame in data && |data[frame]| == 0x1000
      modifies this`data
      ensures Valid() && PartCopied(image, g, page, frame, old(data), data)
    {
      hide PagesHere, Words, TreeShaped, AllTaken, UserClosed, Splice, PartCopied;
      var lo := if page < g.vaddr then g.vaddr else page;
      var hi := Min(page + 0x1000, g.vaddr + g.filesz);
      if lo < hi {
        var src := image[g.offset + (lo - g.vaddr)..g.offset + (hi - g.vaddr)];
        CopyIn(frame, lo - page, src);
        PartDone(image, g, page, frame, old(data), lo, hi, src);
      } else {
        PartEmpty(image, g, page, frame, data);
      }
    }

    /** One page of a segment: its frame, and the part of it that the file provides. */
    method LoadPage(image: Buffer, g: Segment, page: nat, ghost gs: seq<Segment>) returns (o: Outcome)
      requires Valid() && SegmentOk(image, g) && page % 0x1000 == 0 && page < g.vaddr + g.memsz <= SPACE
      requires page / 0x1000 in pages || Translate(vmm.mem, vmm.root.value, page) == None
      requires Exact(pages, data, image, gs + [Cut(g, page)]) && AllCovered(pages, gs) && forall i ::
                 0 <= i < |gs| ==> SegmentOk(image, gs[i])
      modifies this`data, this`pages, vmm`mem, vmm`own, vmm.frames`hint, vmm.frames.bitmap
      ensures o.Fine? ==> Valid() && Exact(pages, data, image, gs + [Cut(g, page + 0x1000)])
      ensures o.Fine? ==> pages.Keys == old(pages).Keys + {page / 0x1000}
      ensures !o.Fine? ==> Blocked(o, vmm.mem, vmm.root.value, vmm.frames.bitmap[..], page)
      ensures o.Fine? ==> forall vb: nat :: PageOf(vb) != page / 0x1000 ==>
                Translate(vmm.mem, vmm.root.value, vb) == old(Translate(vmm.mem, vmm.root.value, vb))
    {
      hide Translate, PageOf, Loaded, ByteAt, PagesHere, Covered, Exact, PagesApart, Words, TreeShaped, AllTaken,
        UserClosed, PartCopied;
      var frame;
      o, frame := PlacePage(page);
      if !o.Fine? { return; }
      PlacedExact(image, old(pages), old(data), pages, data, gs, g, page, frame);
      ghost var mid := data;
      CopyPart(image, g, page, frame);
      PagesInjective(vmm.mem, vmm.root.value, vmm.frames.bitmap[..], data, pages);
      CopiedExact(image, pages, mid, data, gs, g, page, frame);
    }

    /** Loads one segment, page by page. */
    method MapSegment(image: Buffer, g: Segment, ghost gs: seq<Segment>) returns (o: Outcome)
      requires Valid() && SegmentOk(image, g) && g.vaddr + g.memsz <= SPACE
      requires forall q: nat :: Touches(g, q) ==> q in pages || Translate(vmm.mem, vmm.root.value, q * 0x1000) == None
      requires Exact(pages, data, image, gs) && AllCovered(pages, gs) && forall i ::
                 0 <= i < |gs| ==> SegmentOk(image, gs[i])
      modifies this`data, this`pages, vmm`mem, vmm`own, vmm.frames`hint, vmm.frames.bitmap
      ensures o.Fine? ==>
                Valid() && Exact(pages, data, image, gs + [g]) && AllCovered(pages, gs + [g])
                && old(pages).Keys <= pages.Keys
      ensures o.Fine? ==> forall vb: nat :: PageOf(vb) !in pages ==>
                Translate(vmm.mem, vmm.root.value, vb) == old(Translate(vmm.mem, vmm.root.value, vb))
      ensures !o.Fine? ==> SegmentBlocked(o, vmm.mem, vmm.root.value, vmm.frames.bitmap[..], g)
    {
      hide Blocked, Translate, PageOf, Loaded, ByteAt, PagesHere, Covered, Words, TreeShaped, AllTaken, UserClosed, Cut;
      var memEnd := g.vaddr + g.memsz;
      var page := g.vaddr / 0x1000 * 0x1000;
      forall va: nat { CutEnds(image, gs, g, page, va); }
      while page < memEnd
        invariant Valid() && page % 0x1000 == 0 && old(pages).Keys <= pages.Keys && g.vaddr / 0x1000 * 0x1000 <= page
        invariant Exact(pages, data, image, gs + [Cut(g, page)]) && AllCovered(pages, gs)
        invariant forall q: nat :: Touches(g, q) && q * 0x1000 < page ==> q in pages
        invariant forall q: nat :: Touches(g, q) ==>
                    q in pages || Translate(vmm.mem, vmm.root.value, q * 0x1000) == None
        invariant forall vb: nat :: PageOf(vb) !in pages ==>
                    Translate(vmm.mem, vmm.root.value, vb) == old(Translate(vmm.mem, vmm.root.value, vb))
        decreases memEnd + 0x1000 - page
      {
        TouchedPage(g, page);
        ghost var was, before := pages, vmm.mem;
        o := LoadPage(image, g, page, gs);
        if !o.Fine? { return; }
        CoveredMore(was, pages, gs);
        UntouchedStill(before, vmm.mem, vmm.root.value, was, pages, g, page);
        page := page + 0x1000;
      }
      CutEnds(image, gs, g, page, 0);
      CoveredAll(pages, gs, g, page);
      return Fine;
    }

    /** Loads every loadable segment of an executable and returns its entry point. */
    method LoadElf(image: Buffer) returns (o: Outcome, entry: nat)
      requires Valid() && pages == map[]
      requires |image| >= 64 ==> forall n: nat :: n <= Le16(image, 56) ==> Roomy(image, n, vmm.mem, vmm.root.value)
      modifies this`data, this`pages, vmm`mem, vmm`own, vmm.frames`hint, vmm.frames.bitmap
      ensures o.Fine? ==> ElfHeaderOk(image) && Loadable(image, Le16(image, 56)).Some? && entry == Le64(image, 24)
      ensures o.Fine? ==>
                Valid() && Exact(pages, data, image, Loadable(image, Le16(image, 56)).value)
                && AllCovered(pages, Loadable(image, Le16(image, 56)).value)
      ensures o.Fine? ==> forall i: nat :: i < Le16(image, 56) ==> !Broken(image, i)
      ensures o.Fine? ==> forall i: nat, va: nat :: i < Le16(image, 56) && Asked(image, i, va) ==>
                ByteAt(pages, data, va).Some?
      ensures o.Fine? ==> forall i: nat, va: nat :: i < Le16(image, 56) && OnlyAsked(image, i, va) ==>
                ByteAt(pages, data, va) == Some(AskedByte(image, i, va))
      ensures !o.Fine? && ElfHeaderOk(image) && Loadable(image, Le16(image, 56)).Some? ==>
                exists g :: g in Loadable(image, Le16(image, 56)).value
                    && SegmentBlocked(o, vmm.mem, vmm.root.value, vmm.frames.bitmap[..], g)
    {
      hide SegmentBlocked, Translate, PageOf, Loaded, ByteAt, PagesHere, Covered, Words, TreeShaped, AllTaken,
        UserClosed, Le16, Le32, Le64;
      if |image| < 64 { return Failed, 0; }
      if image[0..4] != [0x7F, 0x45, 0x4C, 0x46] || image[4] != 2 || image[5] != 1 { return Failed, 0; }
      if Le16(image, 16) != 2 || Le16(image, 18) != 0x3E { return Failed, 0; }
      entry := Le64(image, 24);
      var phnum := Le16(image, 56);
      if Le16(image, 54) < 56 { return Failed, 0; }
      ghost var gs: seq<Segment> := [];
      NoSegments(image, pages, data);
      var i := 0;
      while i < phnum
        invariant 0 <= i <= phnum && Valid() && Loadable(image, i) == Some(gs)
        invariant Exact(pages, data, image, gs) && AllCovered(pages, gs)
        invariant forall vb: nat :: PageOf(vb) !in pages ==>
                    Translate(vmm.mem, vmm.root.value, vb) == old(Translate(vmm.mem, vmm.root.value, vb))
      {
        var ph := HeaderAt(image, i);
        if ph + 56 > |image| {
          BrokenAt(image, i, phnum);
          return Failed, 0;
        }
        if Le32(image, ph) == 1 {
          var g := SegmentAt(image, ph);
          if g.filesz > g.memsz || g.offset + g.filesz > |image| {
            BrokenAt(image, i, phnum);
            return Failed, 0;
          }
          if g.memsz != 0 {
            LoadableOk(image, i);
            RoomLeft(image, i, old(vmm.mem), vmm.mem, vmm.root.value, pages, g);
            o := MapSegment(image, g, gs);
            if !o.Fine? {
              SegmentListed(image, i, phnum, gs, g);
              return;
            }
            gs := gs + [g];
          }
        }
        i := i + 1;
      }
      AllLoaded(image, pages, data);
      return Fine, entry;
    }
  }

  // ----------------------------------------------- anonymous memory and stacks

  /** The pages from `lo` to `hi` have frames of their own, all zero. */
  ghost predicate Zeroed(pages: Pages, data: Data, lo: nat, hi: nat) {
    forall p :: lo <= p < hi ==> p in pages && pages[p] in data && data[pages[p]] == Zeros(0x1000)
  }

  ghost predicate NonePlaced(pages: Pages, lo: nat, hi: nat) { forall p :: lo <= p < hi ==> p !in pages }

  /** The old pages are where they were, with the bytes they had. */
  ghost predicate OldPages(was: Pages, before: Data, pages: Pages, data: Data) {
    forall p :: p in was ==>
         p in pages && pages[p] == was[p] && (was[p] in before ==> was[p] in data && data[was[p]] == before[was[p]])
  }

  class UserRegions {
    const loader: ProgramLoader
    /** Where the next anonymous mapping goes, and where the next stack ends. */
    var mmapNext: nat
    var nextStack: nat

    ghost predicate Valid()
      reads this, loader, loader.vmm, loader.vmm.frames, loader.vmm.frames.bitmap
    {
      loader.Valid() && mmapNext % 0x1000 == 0 && nextStack % 0x1000 == 0
    }

    constructor (loader: ProgramLoader)
      requires loader.Valid()
      ensures Valid() && this.loader == loader && mmapNext == 0x6000_0000_0000 && nextStack == 0x7FFF_0000_0000
    {
      this.loader := loader;
      mmapNext := 0x6000_0000_0000;
      nextStack := 0x7FFF_0000_0000;
    }

    /** Maps `count` zeroed pages from `base` on. */
    method MapZeroed(base: nat, count: nat) returns (o: Outcome)
      requires loader.Valid() && base % 0x1000 == 0 && base + count * 0x1000 <= SPACE
      requires NonePlaced(loader.pages, base / 0x1000, base / 0x1000 + count)
      modifies loader`data, loader`pages, loader.vmm`mem, loader.vmm`own, loader.vmm.frames`hint,
          loader.vmm.frames.bitmap
      ensures o.Fine? ==> loader.Valid() && Zeroed(loader.pages, loader.data, base / 0x1000, base / 0x1000 + count)
      ensures o.Fine? ==> OldPages(old(loader.pages), old(loader.data), loader.pages, loader.data)
      ensures o.Fine? ==> forall p :: p in loader.pages ==>
                p in old(loader.pages) || base / 0x1000 <= p < base / 0x1000 + count
      ensures !o.Fine? ==> RangeBlocked(o, loader.vmm.mem, loader.vmm.root.value, loader.vmm.frames.bitmap[..],
          base / 0x1000, base / 0x1000 + count)
    {
      hide Blocked, RangeBlocked, PagesHere, Words, TreeShaped, AllTaken, UserClosed;
      var i := 0;
      while i < count
        invariant 0 <= i <= count && loader.Valid()
        invariant Zeroed(loader.pages, loader.data, base / 0x1000, base / 0x1000 + i)
        invariant OldPages(old(loader.pages), old(loader.data), loader.pages, loader.data)
        invariant forall p :: p in loader.pages ==> p in old(loader.pages) || base / 0x1000 <= p < base / 0x1000 + i
      {
        o := loader.MapFresh(base + i * 0x1000);
        if !o.Fine? {
          OneBlocked(o, loader.vmm.mem, loader.vmm.root.value, loader.vmm.frames.bitmap[..], base / 0x1000,
              base / 0x1000 + count,
                     base / 0x1000 + i, base + i * 0x1000);
          return;
        }
        i := i + 1;
      }
      return Fine;
    }

    /** The mmap system call: zeroed pages at an address nobody had before. */
    method SysMmap(size: nat) returns (o: Outcome, base: nat)
      requires Valid() && mmapNext <= USER_MAX
      requires NonePlaced(loader.pages, mmapNext / 0x1000, mmapNext / 0x1000 + (size + 0xFFF) / 0x1000)
      modifies this`mmapNext, loader`data, loader`pages, loader.vmm`mem, loader.vmm`own, loader.vmm.frames`hint,
          loader.vmm.frames.bitmap
      ensures size == 0 || size > 0x100_0000_0000 || old(mmapNext) + (size + 0xFFF) / 0x1000 * 0x1000 > USER_MAX
          <==> mmapNext == old(mmapNext)
      ensures mmapNext == old(mmapNext) ==> o.Failed?
      ensures o.Fine? ==>
                && Valid() && base == old(mmapNext) && size <= mmapNext - base < size + 0x1000 && mmapNext <= USER_MAX
                && Zeroed(loader.pages, loader.data, base / 0x1000, mmapNext / 0x1000)
                && OldPages(old(loader.pages), old(loader.data), loader.pages, loader.data)
                && forall p :: p in loader.pages ==> p in old(loader.pages) || base / 0x1000 <= p < mmapNext / 0x1000
      ensures mmapNext >= old(mmapNext)
      ensures !o.Fine? && mmapNext > old(mmapNext) ==>
                RangeBlocked(o, loader.vmm.mem, loader.vmm.root.value, loader.vmm.frames.bitmap[..],
                    old(mmapNext) / 0x1000, mmapNext / 0x1000)
    {
      hide RangeBlocked, PagesHere, Words, TreeShaped, AllTaken, UserClosed;
      if size == 0 || size > 0x100_0000_0000 { return Failed, 0; }
      var count := (size + 0xFFF) / 0x1000;
      base := mmapNext;
      if base + count * 0x1000 > USER_MAX { return Failed, 0; }
      mmapNext := base + count * 0x1000;
      o := MapZeroed(base, count);
    }

    /** A zeroed stack for a new task; two pages stay unmapped below it. */
    method MapUserStack() returns (o: Outcome, top: nat)
      requires Valid() && STACK_SPAN <= nextStack <= SPACE
      requires NonePlaced(loader.pages, (nextStack - STACK_SPAN) / 0x1000, nextStack / 0x1000)
      modifies this`nextStack, loader`data, loader`pages, loader.vmm`mem, loader.vmm`own, loader.vmm.frames`hint,
          loader.vmm.frames.bitmap
      ensures top == old(nextStack) && nextStack == top - STACK_SPAN
      ensures o.Fine? ==>
                && Valid() && Zeroed(loader.pages, loader.data, top / 0x1000 - STACK_PAGES, top / 0x1000)
                && OldPages(old(loader.pages), old(loader.data), loader.pages, loader.data)
                && NonePlaced(loader.pages, nextStack / 0x1000, nextStack / 0x1000 + 2)
      ensures !o.Fine? ==> o.Halted? && RangeBlocked(o, loader.vmm.mem, loader.vmm.root.value,
          loader.vmm.frames.bitmap[..], top / 0x1000 - STACK_PAGES, top / 0x1000)
    {
      hide RangeBlocked, PagesHere, Words, TreeShaped, AllTaken, UserClosed;
      top := nextStack;
      nextStack := nextStack - STACK_SPAN;
      o := MapZeroed(top - STACK_PAGES * 0x1000, STACK_PAGES);
      if !o.Fine? {
        FailureHalts(o, loader.vmm.mem, loader.vmm.root.value, loader.vmm.frames.bitmap[..], top / 0x1000 - STACK_PAGES,
            top / 0x1000);
        o := Halted;
      }
    }
  }

  /** The segment has bytes on page `q`. */
  predicate Touches(g: Segment, q: nat) { q * 0x1000 < g.vaddr + g.memsz && g.vaddr < q * 0x1000 + 0x1000 }

  /** Segments lie in the 48-bit space, on pages that nothing is mapped on. */
  ghost predicate Roomy(image: Buffer, n: nat, mem: Tables, root: nat)
    requires |image| >= 64
  {
    Loadable(image, n).Some? ==>
      forall i :: 0 <= i < |Loadable(image, n).value| ==> RoomFor(Loadable(image, n).value[i], mem, root)
  }

  ghost predicate RoomFor(g: Segment, mem: Tables, root: nat) {
    g.vaddr + g.memsz <= SPACE && forall q: nat :: Touches(g, q) ==> Translate(mem, root, q * 0x1000) == None
  }

  lemma TouchedPage(g: Segment, page: nat)
    requires page % 0x1000 == 0 && page < g.vaddr + g.memsz <= SPACE && g.vaddr / 0x1000 * 0x1000 <= page
    ensures Touches(g, page / 0x1000) && page / 0x1000 * 0x1000 == page && page / 0x1000 < 0x10_0000_0000
  {
  }

  lemma CoveredMore(was: Pages, pages: Pages, gs: seq<Segment>)
    requires AllCovered(was, gs) && was.Keys <= pages.Keys
    ensures AllCovered(pages, gs)
  {
    forall i | 0 <= i < |gs| ensures Covered(pages, gs[i]) {
      assert Covered(was, gs[i]);
      forall va: nat | InMemory(gs[i], va) ensures va / 0x1000 in pages { assert va / 0x1000 in was.Keys; }
    }
  }

  lemma UntouchedStill(before: Tables, mem: Tables, root: nat, was: Pages, pages: Pages, g: Segment, page: nat)
    requires page % 0x1000 == 0 && g.vaddr + g.memsz <= SPACE && pages.Keys == was.Keys + {page / 0x1000}
    requires forall q: nat :: Touches(g, q) ==> q in was || Translate(before, root, q * 0x1000) == None
    requires forall vb: nat :: PageOf(vb) != page / 0x1000 ==> Translate(mem, root, vb) == Translate(before, root, vb)
    ensures forall q: nat :: Touches(g, q) ==> q in pages || Translate(mem, root, q * 0x1000) == None
  {
    hide Translate, PageOf;
    forall q: nat | Touches(g, q) ensures q in pages || Translate(mem, root, q * 0x1000) == None {
      if q in was {
        assert q in was.Keys && q in pages.Keys;
      } else if q != page / 0x1000 {
        PageNumber(q);
      } else {
        assert q in pages.Keys;
      }
    }
  }

  lemma CoveredAll(pages: Pages, gs: seq<Segment>, g: Segment, page: nat)
    requires AllCovered(pages, gs) && page >= g.vaddr + g.memsz && page % 0x1000 == 0
    requires forall q: nat :: Touches(g, q) && q * 0x1000 < page ==> q in pages
    ensures AllCovered(pages, gs + [g])
  {
    forall va: nat | InMemory(g, va) ensures va / 0x1000 in pages { assert Touches(g, va / 0x1000); }
    assert Covered(pages, g);
    forall i | 0 <= i < |gs + [g]| ensures Covered(pages, (gs + [g])[i]) { if i < |gs| { assert Covered(pages,
        gs[i]); } }
  }

  /** Header `i`, and no other, asks for the address. */
  ghost predicate OnlyAsked(image: Buffer, i: nat, va: nat)
    requires |image| >= 64
  {
    Asked(image, i, va) && forall j: nat :: j < Le16(image, 56) && j != i ==> !Asked(image, j, va)
  }

  lemma AllLoaded(image: Buffer, pages: Pages, data: Data)
    requires |image| >= 64 && Loadable(image, Le16(image, 56)).Some?
    requires Exact(pages, data, image, Loadable(image, Le16(image, 56)).value)
    requires AllCovered(pages, Loadable(image, Le16(image, 56)).value)
    ensures forall i: nat :: i < Le16(image, 56) ==> !Broken(image, i)
    ensures forall i: nat, va: nat :: i < Le16(image, 56) && Asked(image, i, va) ==> ByteAt(pages, data, va).Some?
    ensures forall i: nat, va: nat :: i < Le16(image, 56) && OnlyAsked(image, i, va) ==>
              ByteAt(pages, data, va) == Some(AskedByte(image, i, va))
  {
    hide Loadable, Exact, AllCovered, ByteAt, Asked, AskedByte, Broken, Le16;
    var n := Le16(image, 56);
    LoadableExact(image, n);
    forall i: nat, va: nat | i < n && Asked(image, i, va)
      ensures ByteAt(pages, data, va).Some?
      ensures OnlyAsked(image, i, va) ==> ByteAt(pages, data, va) == Some(AskedByte(image, i, va))
    {
      AskedLoaded(image, n, pages, data, i, va);
    }
  }

  lemma NoSegments(image: Buffer, pages: Pages, data: Data)
    requires pages == map[]
    ensures Exact(pages, data, image, []) && AllCovered(pages, [])
  {
  }

  /** A broken header among the first ones is one among all. */
  lemma BrokenAt(image: Buffer, i: nat, n: nat)
    requires |image| >= 64 && i < n && Loadable(image, i + 1).None?
    ensures Loadable(image, n).None?
  {
    if Loadable(image, n).Some? { LoadablePrefix(image, i + 1, n); }
  }

  lemma SegmentListed(image: Buffer, i: nat, n: nat, gs: seq<Segment>, g: Segment)
    requires |image| >= 64 && i < n && Loadable(image, i + 1) == Some(gs + [g])
    ensures Loadable(image, n).Some? ==> g in Loadable(image, n).value
  {
    if Loadable(image, n).Some? {
      LoadablePrefix(image, i + 1, n);
      assert Loadable(image, n).value[|gs|] == g;
    }
  }

  lemma RoomLeft(image: Buffer, i: nat, was: Tables, mem: Tables, root: nat, pages: Pages, g: Segment)
    requires |image| >= 64 && Roomy(image, i + 1, was, root) && Loadable(image, i).Some? && Loadable(image, i + 1)
        == Some(Loadable(image, i).value + [g])
    requires forall vb: nat :: PageOf(vb) !in pages ==> Translate(mem, root, vb) == Translate(was, root, vb)
    ensures g.vaddr + g.memsz <= SPACE
    ensures forall q: nat :: Touches(g, q) ==> q in pages || Translate(mem, root, q * 0x1000) == None
  {
    hide Translate, PageOf, Loadable;
    var gs := Loadable(image, i + 1).value;
    assert gs[|gs| - 1] == g && RoomFor(g, was, root);
    forall q: nat | Touches(g, q) ensures q in pages || Translate(mem, root, q * 0x1000) == None { PageNumber(q); }
  }

  lemma PagesInjective(mem: Tables, root: nat, bm: seq<nat>, data: Data, pages: Pages)
    requires PagesHere(mem, root, bm, data, pages)
    ensures PagesApart(pages) && forall p :: p in pages ==> pages[p] in data && |data[pages[p]]| == 0x1000
  {
    hide Translate;
    forall p | p in pages ensures pages[p] in data && |data[pages[p]]|
        == 0x1000 { assert PageHere(mem, root, bm, data, p, pages[p]); }
  }

  lemma SameFrames(mem: Tables, root: nat, bm: seq<nat>, was: Data, data: Data, pages: Pages)
    requires PagesHere(mem, root, bm, was, pages) && was.Keys == data.Keys && forall f ::
               f in was ==> |data[f]| == |was[f]|
    ensures PagesHere(mem, root, bm, data, pages)
  {
    hide Translate, Taken, UserWalk;
    forall p | p in pages ensures PageHere(mem, root, bm, data, p,
        pages[p]) { assert PageHere(mem, root, bm, was, p, pages[p]); }
  }

  /** A fresh zeroed page holds what was loaded there: nothing. */
  lemma PlacedExact(image: Buffer, was: Pages, before: Data, pages: Pages, data: Data, gs: seq<Segment>, g: Segment,
                    page: nat, frame: nat)
    requires page % 0x1000 == 0 && SegmentOk(image, g) && AllCovered(was, gs) && forall i ::
               0 <= i < |gs| ==> SegmentOk(image, gs[i])
    requires Exact(was, before, image, gs + [Cut(g, page)])
    requires if page / 0x1000 in was then pages == was && data == before
             else pages == was[page / 0x1000 := frame] && data == before[frame := Zeros(0x1000)] && forall p ::
                  p in was ==> was[p] != frame
    ensures Exact(pages, data, image, gs + [Cut(g, page)])
  {
    hide Loaded, Covered;
    if page / 0x1000 !in was {
      forall va: nat | va / 0x1000 in pages ensures ByteAt(pages, data, va)
          == Some(Loaded(image, gs + [Cut(g, page)], va)) {
        if va / 0x1000 == page / 0x1000 {
          FreshPage(image, was, gs, va);
          CutLoaded(image, gs, g, page, va);
        } else {
          assert ByteAt(was, before, va) == Some(Loaded(image, gs + [Cut(g, page)], va));
        }
      }
    }
  }

  /** The bytes of `g` that belong on the page are in its frame, the rest is as it was. */
  ghost predicate PartCopied(image: Buffer, g: Segment, page: nat, frame: nat, was: Data, data: Data)
    requires SegmentOk(image, g) && frame in was && |was[frame]| == 0x1000
  {
    frame in data && data == was[frame := data[frame]] && FilePart(image, g, page, was[frame], data[frame])
  }

  /** The contents `c` of a page after the file's part of it is copied over `b`. */
  ghost predicate FilePart(image: Buffer, g: Segment, page: nat, b: Buffer, c: Buffer)
    requires SegmentOk(image, g) && |b| == 0x1000
  {
    var lo, hi := (if page < g.vaddr then g.vaddr else page), Min(page + 0x1000, g.vaddr + g.filesz);
    if lo < hi then c == Splice(b, lo - page, image[g.offset + (lo - g.vaddr)..g.offset + (hi - g.vaddr)]) else c == b
  }

  lemma PartDone(image: Buffer, g: Segment, page: nat, frame: nat, was: Data, lo: nat, hi: nat, src: Buffer)
    requires SegmentOk(image, g) && frame in was && |was[frame]| == 0x1000
    requires lo == (if page < g.vaddr then g.vaddr else page) && hi == Min(page + 0x1000, g.vaddr + g.filesz) && lo < hi
    requires src == image[g.offset + (lo - g.vaddr)..g.offset + (hi - g.vaddr)]
    ensures PartCopied(image, g, page, frame, was, was[frame := Splice(was[frame], lo - page, src)])
  {
    hide Splice;
  }

  lemma PartEmpty(image: Buffer, g: Segment, page: nat, frame: nat, was: Data)
    requires SegmentOk(image, g) && frame in was && |was[frame]| == 0x1000
    requires (if page < g.vaddr then g.vaddr else page) >= Min(page + 0x1000, g.vaddr + g.filesz)
    ensures PartCopied(image, g, page, frame, was, was)
  {
    assert was == was[frame := was[frame]];
  }

  /** After the copy the page holds what loading one more page of the segment puts there. */
  lemma CopiedExact(image: Buffer, pages: Pages, was: Data, data: Data, gs: seq<Segment>, g: Segment, page: nat,
                    frame: nat)
    requires page % 0x1000 == 0 && SegmentOk(image, g) && page / 0x1000 in pages && pages[page / 0x1000] == frame
    requires PagesApart(pages)
    requires frame in was && |was[frame]| == 0x1000
    requires Exact(pages, was, image, gs + [Cut(g, page)])
    requires PartCopied(image, g, page, frame, was, data)
    ensures Exact(pages, data, image, gs + [Cut(g, page + 0x1000)])
  {
    hide Loaded, FilePart;
    forall va: nat | va / 0x1000 in pages ensures ByteAt(pages, data, va)
        == Some(Loaded(image, gs + [Cut(g, page + 0x1000)], va)) {
      CutLoaded(image, gs, g, page, va);
      CutLoaded(image, gs, g, page + 0x1000, va);
      assert ByteAt(pages, was, va) == Some(Loaded(image, gs + [Cut(g, page)], va));
      if va / 0x1000 == page / 0x1000 {
        CopiedByte(image, was[frame], g, page, va - page, data[frame]);
      }
    }
  }

  /** One byte of the page that was copied into. */
  lemma CopiedByte(image: Buffer, b: Buffer, g: Segment, page: nat, k: nat, c: Buffer)
    requires SegmentOk(image, g) && |b| == 0x1000 && k < 0x1000 && FilePart(image, g, page, b, c)
    ensures |c| == 0x1000 && c[k] == if InFile(g, page + k) then image[g.offset + (page + k - g.vaddr)] else b[k]
  {
    hide Splice;
    var lo, hi := (if page < g.vaddr then g.vaddr else page), Min(page + 0x1000, g.vaddr + g.filesz);
    if lo < hi { SpliceAt(b, lo - page, image, g.offset + (lo - g.vaddr), hi - lo, k); }
  }

  /** One byte after part of the image is copied over a page. */
  lemma SpliceAt(b: Buffer, off: nat, image: Buffer, from: nat, n: nat, k: nat)
    requires off + n <= |b| && from + n <= |image| && k < |b|
    ensures Splice(b, off, image[from..from + n])[k] == if off <= k < off + n then image[from + (k - off)] else b[k]
  {
  }

  lemma AllocTaken(was: seq<nat>, bm: seq<nat>, f: nat, own: Places)
    requires MarkedRange(bm, was, f, f + 1) && AllTaken(was, own)
    ensures AllTaken(bm, own)
  {
    hide Marked;
  }

  lemma TakenStays(was: seq<nat>, mid: seq<nat>, bm: seq<nat>, f: nat)
    requires f < 64 * |was| && !Marked(was, f) && MarkedRange(mid, was, f, f + 1) && StillTaken(mid, bm)
    ensures !Taken(was, f) && Taken(bm, f) && StillTaken(was, bm)
  {
    hide Marked;
  }

  lemma UserFlags()
    ensures FlagsOk(USER_FLAGS) && PageTable.User(USER_FLAGS) && Writable(USER_FLAGS)
  {
  }

  lemma NewFrame(mem: Tables, root: nat, bm: seq<nat>, data: Data, pages: Pages, f: nat)
    requires PagesHere(mem, root, bm, data, pages) && !Taken(bm, f)
    ensures forall p :: p in pages ==> pages[p] != f
  {
    hide Translate;
    forall p | p in pages ensures pages[p] != f { assert PageHere(mem, root, bm, data, p, pages[p]); }
  }

  lemma FrameNumber(page: nat)
    requires page % 0x1000 == 0 && page / 0x1000 < 0x100_0000_0000
    ensures FrameOf(page) == page / 0x1000
  {
  }
}
