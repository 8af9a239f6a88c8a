/** Mapping, unmapping and translating pages, with tables taken from the frame allocator. */
module VirtualMemory {
  import opened Bytes
  import opened Frames
  import opened PageRuns
  import opened PageTable

  /** Nobody else will be given this frame. */
  predicate Taken(bm: seq<nat>, t: nat) { t / 64 >= |bm| || Marked(bm, t) }

  ghost predicate AllTaken(bm: seq<nat>, own: Places) { forall t :: t in own ==> Taken(bm, t) }

  ghost predicate OutOfFrames(bm: seq<nat>) { forall n: nat :: n < 64 * |bm| ==> Marked(bm, n) }

  /** What was in use is still in use. */
  ghost predicate StillTaken(was: seq<nat>, bm: seq<nat>) {
    |bm| == |was| && forall n: nat :: Marked(was, n) ==> Marked(bm, n)
  }

  class Vmm {
    const frames: FrameAllocator
    var root: Option<nat>
    var mem: Tables
    /** Where each table hangs in the tree. */
    ghost var own: Places

    ghost predicate Valid()
      reads this, frames, frames.bitmap
    {
      && frames.Valid() && frames.bitmap.Length <= 0x4_0000_0000
      && (root.Some? ==>
           TreeShaped(mem, own, root.value) && AllTaken(frames.bitmap[..], own) && UserClosed(mem, root.value))
    }

    constructor (frames: FrameAllocator)
      requires frames.Valid() && frames.bitmap.Length <= 0x4_0000_0000
      ensures Valid() && this.frames == frames && root.None?
    {
      this.frames := frames;
      root := None;
      mem := map[];
      own := map[];
    }

    /** Adopts the tables the boot loader left behind. */
    method Init(cr3: nat, tables: Tables, ghost places: Places) returns (ok: bool)
      requires Valid() && TreeShaped(tables, places, cr3 / PAGE) && AllTaken(frames.bitmap[..], places)
      requires UserClosed(tables, cr3 / PAGE)
      modifies this
      ensures Valid() && (ok <==> cr3 != 0)
      ensures ok ==> root == Some(cr3 / PAGE) && mem == tables
    {
      if cr3 == 0 { return false; }
      root, mem, own := Some(cr3 / PAGE), tables, places;
      return true;
    }

    /** One level of the way down: the table below entry `i` of table `t`, which is allocated
        if there is none. A huge page in the way or a lack of frames stops the kernel. */
    method Descend(t: nat, i: nat, user: bool, ghost path: seq<nat>) returns (child: Option<nat>)
      requires Valid() && root.Some? && t in own && own[t] == path && |path| < 3 && i < 512
      requires Reach(mem, root.value, path) == Some(t) && forall k :: 0 <= k < |path| ==> path[k] < 512
      modifies this`mem, this`own, frames`hint, frames.bitmap
      ensures Valid() && SameWalks(old(mem), mem, root.value) && UserKept(old(mem), mem, root.value)
      ensures SameWays(old(mem), mem, root.value)
      ensures StillTaken(old(frames.bitmap[..]), frames.bitmap[..])
      ensures child.Some? ==>
                && child.value in own && own[child.value] == path + [i] && Reach(mem, root.value, path + [i])
                     == Some(child.value)
                && (user && UserReach(old(mem), root.value, path) ==> UserReach(mem, root.value, path + [i]))
      ensures child.None? ==> mem == old(mem) && own == old(own)
      ensures child.None? ==>
                (Present(EntryAt(mem, t, i)) && Huge(EntryAt(mem, t, i))) || OutOfFrames(frames.bitmap[..])
    {
      hide Present, Huge, User, FrameOf, WithUser, TableEntry, Marked, Walk, UserWalk, Reach, UserReach, UserClosed,
        SameWalks, UserKept, EntryPlaced, SameWays, WayOpen;
      assert TablePlaced(mem, own, t);
      SameAll(mem, root.value);
      var entry := mem[t][i];
      if Present(entry) {
        if Huge(entry) { return None; }
        ChildOf(mem, own, t, i);
        if user {
          AllRaised(mem, own, root.value, t, i);
          WaysRaised(mem, root.value, t, i);
          ReachRaised(mem, t, i, root.value, path);
          WithUserBits(entry);
          mem := Put(mem, t, i, WithUser(entry));
          ClosedKept(old(mem), mem, root.value);
        }
        ReachStep(mem, root.value, path, i, t);
        return Some(FrameOf(entry));
      }
      var page := frames.AllocPage();
      if page.None? { return None; }
      var f := page.value / PAGE;
      FreshFrame(old(frames.bitmap[..]), frames.bitmap[..], own, f, t, path + [i]);
      AllGrown(mem, own, root.value, t, i, f, user);
      WaysGrown(mem, own, root.value, t, i, f, user);
      ReachGrown(mem, own, root.value, t, i, f, user, root.value, path, t);
      TableEntryBits(f, user);
      mem := Grown(mem, t, i, f, user);
      own := own[f := path + [i]];
      ClosedKept(old(mem), mem, root.value);
      ReachStep(mem, root.value, path, i, t);
      return Some(f);
    }

    /** The last-level table for an address. */
    method TableFor(va: nat, user: bool) returns (pt: Option<nat>)
      requires Valid() && root.Some?
      modifies this`mem, this`own, frames`hint, frames.bitmap
      ensures Valid() && SameWalks(old(mem), mem, root.value) && UserKept(old(mem), mem, root.value)
      ensures SameWays(old(mem), mem, root.value)
      ensures StillTaken(old(frames.bitmap[..]), frames.bitmap[..])
      ensures pt.Some? ==>
                && pt.value in own && own[pt.value] == PathOf(va)[..3] && Reach(mem, root.value, PathOf(va)[..3])
                     == Some(pt.value)
                && (user ==> UserReach(mem, root.value, PathOf(va)[..3]))
      ensures pt.None? ==> HugeOnWay(mem, root.value, PathOf(va)) || OutOfFrames(frames.bitmap[..])
    {
      hide Present, Huge, User, Marked, Walk, UserWalk, Reach, UserReach, UserClosed, SameWalks, UserKept, TablePlaced,
        HugeOnWay, OutOfFrames, SameWays;
      var q := PathOf(va);
      RootReached(mem, root.value);
      pt := Descend(root.value, q[0], user, []);
      ghost var m1 := mem;
      if pt.None? {
        if !OutOfFrames(frames.bitmap[..]) { HugeReached(mem, root.value, [], q, root.value); }
        assert [] + q == q;
        return;
      }
      assert [] + [q[0]] == q[..1];
      ghost var t1 := pt.value;
      pt := Descend(pt.value, q[1], user, q[..1]);
      SameTrans(old(mem), m1, mem, root.value);
      WaysTrans(old(mem), m1, mem, root.value);
      ghost var m2 := mem;
      if pt.None? {
        if !OutOfFrames(frames.bitmap[..]) { HugeReached(mem, root.value, q[..1], q[1..], t1); }
        assert q[..1] + q[1..] == q;
        return;
      }
      assert q[..1] + [q[1]] == q[..2];
      ghost var t2 := pt.value;
      pt := Descend(pt.value, q[2], user, q[..2]);
      SameTrans(old(mem), m2, mem, root.value);
      WaysTrans(old(mem), m2, mem, root.value);
      if pt.None? {
        if !OutOfFrames(frames.bitmap[..]) { HugeReached(mem, root.value, q[..2], q[2..], t2); }
        assert q[..2] + q[2..] == q;
        return;
      }
      assert q[..2] + [q[2]] == q[..3];
    }

    /** Maps the page of `va` to the frame of `physical`. */
    method MapPageFlags(va: nat, physical: nat, flags: nat) returns (ok: bool)
      requires Valid() && FlagsOk(flags)
      modifies this`mem, this`own, frames`hint, frames.bitmap
      ensures Valid() && StillTaken(old(frames.bitmap[..]), frames.bitmap[..])
      ensures ok ==> root.Some? && va % PAGE == 0 && physical % PAGE == 0
      ensures ok ==> forall vb: nat :: Translate(mem, root.value, vb)
                       == if PageOf(vb) == PageOf(va) then Some(FrameOf(physical) * PAGE + vb % PAGE)
                           else Translate(old(mem), root.value, vb)
      ensures ok ==> var leaf := Walk(mem, root.value, PathOf(va)); leaf.Leaf? && HasFlags(leaf.entry, flags)
      ensures ok && User(flags) ==> UserWalk(mem, root.value, PathOf(va))
      ensures ok && Writable(flags) && WayOpen(old(mem), root.value, PathOf(va)) ==>
                WriteWalk(mem, root.value, PathOf(va))
      ensures ok ==> forall q ::
                PathOk(q) && q != PathOf(va) && UserWalk(old(mem), root.value, q) ==> UserWalk(mem, root.value, q)
      ensures root.Some? ==> OpDone(if ok then Map(va, physical, flags) else Refused, old(mem), mem, root.value)
      ensures !ok ==>
                || root.None? || va % PAGE != 0 || physical % PAGE != 0
                || HugeOnWay(mem, root.value, PathOf(va)) || OutOfFrames(frames.bitmap[..])
      ensures !ok && root.Some? ==> SameWalks(old(mem), mem, root.value)
    {
      hide Present, Huge, User, FrameOf, Marked, Walk, UserWalk, Reach, UserReach, UserClosed, EntryPlaced, HugeOnWay,
        OutOfFrames, LeafEntry, Translate, PageOf, WayOpen, WriteWalk, HasFlags;
      if root.None? { return false; }
      SameAll(mem, root.value);
      if va % PAGE != 0 || physical % PAGE != 0 { return false; }
      var pt := TableFor(va, User(flags));
      if pt.None? { return false; }
      ghost var mid := mem;
      var i := PathOf(va)[3];
      var e := LeafEntry(physical, flags);
      LeafEntryBits(physical, flags);
      assert TablePlaced(mem, own, pt.value);
      assert PathOf(va)[..3] + [i] == PathOf(va);
      ShapeKept(mem, own, root.value, pt.value, i, e);
      LeafClosed(mem, own, root.value, pt.value, i, e);
      WaysLeaf(mem, own, root.value, pt.value, i, e);
      mem := Put(mem, pt.value, i, e);
      WaysTrans(old(mem), mid, mem, root.value);
      forall q | PathOk(q)
        ensures q != PathOf(va) ==>
                  Walk(mem, root.value, q) == Walk(mid, root.value, q)
                  && UserWalk(mem, root.value, q) == UserWalk(mid, root.value, q)
        ensures q == PathOf(va) ==>
                  Walk(mem, root.value, q) == Leaf(1, e) && (User(flags) ==> UserWalk(mem, root.value, q))
      {
        LeafWritten(mid, own, root.value, pt.value, i, e, q);
      }
      forall vb: nat
        ensures Translate(mem, root.value, vb)
                == if PageOf(vb) == PageOf(va) then Some(FrameOf(physical) * PAGE + vb % PAGE)
                    else Translate(old(mem), root.value, vb)
      {
        MappedAt(old(mem), mem, root.value, va, vb, e, physical);
      }
      WriteExact(mem, root.value, PathOf(va));
      KeptWritable(e, flags);
      return true;
    }

    /** One level of a walk that changes nothing. */
    method Below(t: nat, rest: seq<nat>) returns (child: Option<nat>, blocked: bool)
      requires Valid() && root.Some? && t in own && |own[t]| + |rest| == 4 && |rest| > 1 && forall k ::
                 0 <= k < |rest| ==> rest[k] < 512
      ensures blocked ==> HugeOnWay(mem, t, rest)
      ensures !blocked && child.None? ==> Walk(mem, t, rest) == Unmapped && !HugeOnWay(mem, t, rest)
      ensures child.Some? ==>
                && !blocked && child.value in own && own[child.value] == own[t] + [rest[0]]
                && Present(EntryAt(mem, t, rest[0])) && !Huge(EntryAt(mem, t, rest[0]))
                     && FrameOf(EntryAt(mem, t, rest[0])) == child.value
                && Walk(mem, t, rest) == Walk(mem, child.value, rest[1..]) && HugeOnWay(mem, t, rest)
                     == HugeOnWay(mem, child.value, rest[1..])
    {
      hide Present, Huge, User, FrameOf, UserClosed, Marked;
      assert TablePlaced(mem, own, t);
      var e := mem[t][rest[0]];
      if !Present(e) { return None, false; }
      if Huge(e) { return None, true; }
      assert EntryPlaced(mem, own, t, rest[0]);
      return Some(FrameOf(e)), false;
    }

    /** The last-level table that holds the entry of a page, unless a huge page is in the way. */
    method FindTable(q: seq<nat>) returns (pt: Option<nat>, blocked: bool)
      requires Valid() && root.Some? && PathOk(q)
      ensures blocked <==> HugeOnWay(mem, root.value, q)
      ensures pt.None? && !blocked ==> Walk(mem, root.value, q) == Unmapped
      ensures pt.Some? ==>
                && pt.value in own && own[pt.value] == q[..3] && pt.value in mem && |mem[pt.value]| == 512
                && Reach(mem, root.value, q[..3]) == Some(pt.value) && Walk(mem, root.value, q)
                     == Walk(mem, pt.value, q[3..])
    {
      hide Present, Huge, User, FrameOf, UserClosed, Marked, Walk, HugeOnWay, Reach, EntryPlaced;
      RootReached(mem, root.value);
      pt, blocked := Below(root.value, q);
      if pt.None? { return; }
      ReachStep(mem, root.value, [], q[0], root.value);
      assert [] + [q[0]] == q[..1];
      ghost var t1 := pt.value;
      pt, blocked := Below(pt.value, q[1..]);
      if pt.None? { return; }
      ReachStep(mem, root.value, q[..1], q[1], t1);
      assert q[..1] + [q[1]] == q[..2] && q[1..][1..] == q[2..];
      ghost var t2 := pt.value;
      pt, blocked := Below(pt.value, q[2..]);
      if pt.None? { return; }
      ReachStep(mem, root.value, q[..2], q[2], t2);
      assert q[..2] + [q[2]] == q[..3] && q[2..][1..] == q[3..];
      assert TablePlaced(mem, own, pt.value);
      LastLevel(mem, pt.value, q[3..]);
    }

    /** Translates any address, on any page, without ever stopping the kernel. */
    method VirtToPhys(va: nat) returns (r: Option<nat>)
      requires Valid()
      ensures r == if root.None? then None else Translate(mem, root.value, va)
    {
      hide Present, Huge, FrameOf;
      if root.None? { return None; }
      var q := PathOf(va);
      var e := EntryAt(mem, root.value, q[0]);
      if !Present(e) || Huge(e) { return None; }
      var pdpt := FrameOf(e);
      assert Walk(mem, root.value, q) == Walk(mem, pdpt, q[1..]);
      e := EntryAt(mem, pdpt, q[1]);
      if !Present(e) { return None; }
      if Huge(e) { return Some(e / 0x4000_0000 % 0x40_0000 * 0x4000_0000 + va % 0x4000_0000); }
      var pd := FrameOf(e);
      assert q[1..][1..] == q[2..];
      assert Walk(mem, pdpt, q[1..]) == Walk(mem, pd, q[2..]);
      e := EntryAt(mem, pd, q[2]);
      if !Present(e) { return None; }
      if Huge(e) { return Some(e / 0x20_0000 % 0x8000_0000 * 0x20_0000 + va % 0x20_0000); }
      var pt := FrameOf(e);
      assert q[2..][1..] == q[3..];
      assert Walk(mem, pd, q[2..]) == Walk(mem, pt, q[3..]);
      e := EntryAt(mem, pt, q[3]);
      if !Present(e) { return None; }
      return Some(FrameOf(e) * PAGE + va % PAGE);
    }

    /** Removes the page of `va` if it is there. A huge page in the way stops the kernel. */
    method UnmapPage(va: nat) returns (ok: bool)
      requires Valid()
      modifies this`mem
      ensures Valid()
      ensures ok <==> root.Some? && !HugeOnWay(old(mem), root.value, PathOf(va))
      ensures !ok ==> mem == old(mem)
      ensures ok ==> forall vb: nat :: Translate(mem, root.value, vb)
                       == if PageOf(vb) == PageOf(va) then None else Translate(old(mem), root.value, vb)
      ensures root.Some? ==> OpDone(if ok then Unmap(va) else Refused, old(mem), mem, root.value)
      ensures ok ==> forall q :: PathOk(q) && q != PathOf(va) ==>
                UserWalk(mem, root.value, q) == UserWalk(old(mem), root.value, q)
    {
      hide Present, Huge, User, FrameOf, Marked, UserWalk, UserReach, UserClosed, EntryPlaced, Translate, PageOf, Walk,
        Reach, HugeOnWay, WayOpen;
      if root.None? { return false; }
      var q := PathOf(va);
      var pt, blocked := FindTable(q);
      if blocked { return false; }
      if pt.None? || !Present(mem[pt.value][q[3]]) {
        AbsentAlready(mem, root.value, va, pt);
        return true;
      }
      ghost var t := pt.value;
      assert q[..3] + [q[3]] == q;
      NothingPresent();
      ShapeKept(mem, own, root.value, t, q[3], 0);
      LeafClosed(mem, own, root.value, t, q[3], 0);
      WaysLeaf(mem, own, root.value, t, q[3], 0);
      mem := Put(mem, pt.value, q[3], 0);
      forall p | PathOk(p)
        ensures p != q ==>
                  Walk(mem, root.value, p) == Walk(old(mem), root.value, p)
                  && UserWalk(mem, root.value, p) == UserWalk(old(mem), root.value, p)
        ensures p == q ==> Walk(mem, root.value, p) == Unmapped
      {
        LeafWritten(old(mem), own, root.value, t, q[3], 0, p);
      }
      forall vb: nat ensures Translate(mem, root.value, vb) == if PageOf(vb) == PageOf(va) then None
          else Translate(old(mem), root.value, vb) {
        UnmappedAt(old(mem), mem, root.value, va, vb);
      }
      return true;
    }
  }

  lemma RootReached(mem: Tables, root: nat)
    ensures Reach(mem, root, []) == Some(root) && UserReach(mem, root, [])
  {
  }

  lemma LastLevel(mem: Tables, t: nat, rest: seq<nat>)
    requires |rest| <= 1
    ensures !HugeOnWay(mem, t, rest)
  {
  }

  lemma MappedAt(was: Tables, mem: Tables, root: nat, va: nat, vb: nat, e: nat, physical: nat)
    requires PathOf(vb) != PathOf(va) ==> Walk(mem, root, PathOf(vb)) == Walk(was, root, PathOf(vb))
    requires Walk(mem, root, PathOf(va)) == Leaf(1, e) && FrameOf(e) == FrameOf(physical)
    ensures Translate(mem, root, vb) == if PageOf(vb) == PageOf(va) then Some(FrameOf(physical) * PAGE + vb % PAGE)
        else Translate(was, root, vb)
  {
    hide Walk, PathOf, PageOf, FrameOf;
    SamePage(va, vb);
  }

  lemma UnmappedAt(was: Tables, mem: Tables, root: nat, va: nat, vb: nat)
    requires PathOf(vb) != PathOf(va) ==> Walk(mem, root, PathOf(vb)) == Walk(was, root, PathOf(vb))
    requires Walk(mem, root, PathOf(va)) == Unmapped
    ensures Translate(mem, root, vb) == if PageOf(vb) == PageOf(va) then None else Translate(was, root, vb)
  {
    hide Walk, PathOf, PageOf;
    SamePage(va, vb);
  }

  lemma AbsentAlready(mem: Tables, root: nat, va: nat, pt: Option<nat>)
    requires pt.None? ==> Walk(mem, root, PathOf(va)) == Unmapped
    requires pt.Some? ==>
               Walk(mem, root, PathOf(va)) == Walk(mem, pt.value, PathOf(va)[3..])
               && !Present(EntryAt(mem, pt.value, PathOf(va)[3]))
    ensures Walk(mem, root, PathOf(va)) == Unmapped
    ensures forall vb: nat :: Translate(mem, root, vb) == if PageOf(vb) == PageOf(va) then None
        else Translate(mem, root, vb)
  {
    hide PageOf, Present;
    assert Walk(mem, root, PathOf(va)) == Unmapped;
    forall vb: nat ensures Translate(mem, root, vb) == if PageOf(vb) == PageOf(va) then None
        else Translate(mem, root, vb) {
      UnmappedAt(mem, mem, root, va, vb);
    }
  }

  lemma SameAll(mem: Tables, root: nat)
    ensures SameWalks(mem, mem, root) && UserKept(mem, mem, root) && SameWays(mem, mem, root)
  {
  }

  /** A frame just handed out is none of the tables. */
  lemma FreshFrame(was: seq<nat>, bm: seq<nat>, own: Places, f: nat, t: nat, path: seq<nat>)
    requires t in own && AllTaken(was, own) && f < 64 * |was| && |was| <= 0x4_0000_0000
    requires !Marked(was, f) && MarkedRange(bm, was, f, f + 1)
    ensures f !in own && f != t && f < 0x100_0000_0000
    ensures StillTaken(was, bm) && AllTaken(bm, own[f := path])
  {
    hide Bitmap.TestBit;
    assert f in own ==> Taken(was, f);
  }
}
