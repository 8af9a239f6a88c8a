/** Backing the kernel heap's window with frames. */
module HeapInit {
  import opened Bytes
  import opened Frames
  import opened PageTable
  import opened VirtualMemory
  import opened Heap
  import PageRuns
  import opened Loader

  const KHEAP_START: nat := 0xFFFF_9000_0000_0000
  const HEAP_PAGES: nat := 2048
  const KERNEL_FLAGS: nat := 3

  /** Page `i` of the window is mapped, for the kernel alone and for writing, to frame `f`, which is
      in use. */
  ghost predicate BackedBy(mem: Tables, root: nat, bm: seq<nat>, i: nat, f: nat) {
    && Translate(mem, root, HeapPage(i)) == Some(f * PAGE) && Taken(bm, f)
    && WriteLeaf(Walk(mem, root, PathOf(HeapPage(i)))) && !PageRuns.UserLeaf(Walk(mem, root, PathOf(HeapPage(i))))
  }

  /** The kernel can write the heap if the tables above it are entered for writing; user code
      cannot reach it. */
  lemma BackedWritable(mem: Tables, root: nat, bm: seq<nat>, fs: seq<nat>, i: nat)
    requires Backed(mem, root, bm, fs) && i < |fs|
    ensures var q := PathOf(HeapPage(i));
            !UserWalk(mem, root, q) && (WriteWalk(mem, root, q) <==> WayOpen(mem, root, q))
  {
    hide Translate, Walk, UserWalk, WriteWalk, WayOpen, HeapPage;
    assert BackedBy(mem, root, bm, i, fs[i]);
    var q := PathOf(HeapPage(i));
    WriteExact(mem, root, q);
    if UserWalk(mem, root, q) { PageRuns.UserOnly(mem, root, q); }
  }

  /** The pages of the window are mapped to the frames `fs`, no two to the same. */
  ghost predicate Backed(mem: Tables, root: nat, bm: seq<nat>, fs: seq<nat>) {
    && (forall i :: 0 <= i < |fs| ==> BackedBy(mem, root, bm, i, fs[i]))
    && forall i, j :: 0 <= i < j < |fs| ==> fs[i] != fs[j]
  }

  function HeapPage(i: nat): nat { KHEAP_START + i * 0x1000 }

  lemma HeapPages(i: nat)
    requires i < HEAP_PAGES
    ensures PageOf(HeapPage(i)) == 0x9_0000_0000 + i && HeapPage(i) % 0x1000 == 0
  {
  }

  lemma KernelFlags()
    ensures FlagsOk(KERNEL_FLAGS) && Writable(KERNEL_FLAGS) && !PageTable.User(KERNEL_FLAGS)
  {
  }

  lemma BackedMore(was: Tables, mem: Tables, root: nat, before: seq<nat>, bm: seq<nat>, fs: seq<nat>, f: nat)
    requires |fs| < HEAP_PAGES && Backed(was, root, before, fs) && !Taken(before, f) && Taken(bm, f)
    requires StillTaken(before, bm)
    requires forall vb: nat :: Translate(mem, root, vb)
               == if PageOf(vb) == PageOf(HeapPage(|fs|)) then Some(f * PAGE + vb % PAGE) else Translate(was, root, vb)
    requires var q := PathOf(HeapPage(|fs|));
             && WriteLeaf(Walk(mem, root, q)) && !PageRuns.UserLeaf(Walk(mem, root, q))
             && forall r :: PathOk(r) && r != q ==> Walk(mem, root, r) == Walk(was, root, r)
    ensures Backed(mem, root, bm, fs + [f])
  {
    hide Translate, PageOf, HeapPage, Marked, Walk, PathOf, WriteLeaf, PageRuns.UserLeaf;
    HeapPages(|fs|);
    forall i: nat | i < |fs| ensures BackedBy(mem, root, bm, i, fs[i]) && fs[i] != f {
      assert BackedBy(was, root, before, i, fs[i]);
      HeapPages(i);
      SamePage(HeapPage(i), HeapPage(|fs|));
    }
  }

  /** One more page of the window. */
  method BackPage(vmm: Vmm, i: nat, ghost fs: seq<nat>) returns (o: Outcome, ghost f: nat)
    requires vmm.Valid() && vmm.root.Some? && i == |fs| < HEAP_PAGES
    requires Backed(vmm.mem, vmm.root.value, vmm.frames.bitmap[..], fs)
    modifies vmm`mem, vmm`own, vmm.frames`hint, vmm.frames.bitmap
    ensures !o.Halted? ==> vmm.Valid()
    ensures o.Fine? ==> Backed(vmm.mem, vmm.root.value, vmm.frames.bitmap[..], fs + [f])
    ensures o.Failed? ==>
              Backed(vmm.mem, vmm.root.value, vmm.frames.bitmap[..], fs) && OutOfFrames(vmm.frames.bitmap[..])
    ensures o.Halted? ==> Blocked(o, vmm.mem, vmm.root.value, vmm.frames.bitmap[..], HeapPage(i))
  {
    hide Translate, Marked, Walk, UserWalk, UserClosed, TreeShaped, Backed, HugeOnWay, PageRuns.OpDone;
    ghost var bm0 := vmm.frames.bitmap[..];
    f := 0;
    var page := vmm.frames.AllocPage();
    if page.None? {
      o := Failed;
      return;
    }
    f := page.value / PAGE;
    ghost var bm1 := vmm.frames.bitmap[..];
    AllocTaken(bm0, bm1, f, vmm.own);
    KernelFlags();
    HeapPages(i);
    var ok := vmm.MapPageFlags(HeapPage(i), page.value, KERNEL_FLAGS);
    if !ok {
      o := Halted;
      return;
    }
    TakenStays(bm0, bm1, vmm.frames.bitmap[..], f);
    FrameNumber(page.value);
    PageRuns.MappedLeaf(HeapPage(i), page.value, KERNEL_FLAGS, old(vmm.mem), vmm.mem, vmm.root.value);
    BackedMore(old(vmm.mem), vmm.mem, vmm.root.value, bm0, vmm.frames.bitmap[..], fs, f);
    o := Fine;
  }

  /** A large page lies on the way to some page of the window. */
  ghost predicate WindowHuge(mem: Tables, root: nat) { exists i: nat ::
       i < HEAP_PAGES && HugeOnWay(mem, root, PathOf(HeapPage(i))) }

  /** Builds the heap over as many pages as there are frames for, at most 2048. Without a frame
      for the first page the kernel stops. */
  method InitHeap(vmm: Vmm) returns (o: Outcome, heap: KernelHeap?, pages: nat, ghost fs: seq<nat>)
    requires vmm.Valid() && vmm.root.Some?
    modifies vmm`mem, vmm`own, vmm.frames`hint, vmm.frames.bitmap
    ensures o.Fine? ==>
              && vmm.Valid() && 0 < pages == |fs| <= HEAP_PAGES
                   && Backed(vmm.mem, vmm.root.value, vmm.frames.bitmap[..], fs)
              && (pages < HEAP_PAGES ==> OutOfFrames(vmm.frames.bitmap[..]))
              && heap != null && fresh(heap) && heap.Valid() && heap.start == KHEAP_START && heap.end
                   == KHEAP_START + pages * 0x1000
              && Heap.Live(heap.mem, heap.chain) == {}
    ensures !o.Fine? ==> o.Halted? && (OutOfFrames(vmm.frames.bitmap[..]) || WindowHuge(vmm.mem, vmm.root.value))
  {
    hide Translate, Walk, UserClosed, TreeShaped, Backed, Heap.Live, AllTaken, Words, OutOfFrames, HugeOnWay;
    heap, pages, fs := null, 0, [];
    NothingBacked(vmm.mem, vmm.root.value, vmm.frames.bitmap[..]);
    ghost var f;
    o, f := BackPage(vmm, 0, fs);
    if !o.Fine? {
      o := Halted;
      return;
    }
    pages, fs := 1, fs + [f];
    while pages < HEAP_PAGES
      invariant 0 < pages == |fs| <= HEAP_PAGES && vmm.Valid() && vmm.root.Some?
      invariant Backed(vmm.mem, vmm.root.value, vmm.frames.bitmap[..], fs)
    {
      o, f := BackPage(vmm, pages, fs);
      if o.Halted? { return; }
      if o.Failed? { break; }
      pages, fs := pages + 1, fs + [f];
    }
    heap := new KernelHeap(KHEAP_START, pages * 0x1000);
    o := Fine;
  }

  lemma NothingBacked(mem: Tables, root: nat, bm: seq<nat>)
    ensures Backed(mem, root, bm, [])
  {
  }
}
