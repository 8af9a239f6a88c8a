/** Four-level page tables: what a walk through them finds, why the tables are a tree, and
    what one entry written changes. */
module PageTable {
  import opened Bytes

  // -------------------------------------------------------------- entries

  predicate Present(e: nat) { e % 2 == 1 }
  predicate User(e: nat) { e / 4 % 2 == 1 }
  predicate Writable(e: nat) { e / 2 % 2 == 1 }
  predicate Huge(e: nat) { e / 128 % 2 == 1 }

  /** The frame an entry points to: bits 12 to 51. */
  function FrameOf(e: nat): nat { e / 0x1000 % 0x100_0000_0000 }

  /** `e | PTE_USER` */
  function WithUser(e: nat): nat { if User(e) then e else e + 4 }

  /** An entry from its parts: the address and what lies above it, bits 7 to 11, bits 3 to 6 and
      the user, writable and present bits. */
  function Packed(f: nat, h: nat, m: nat, u: nat, w: nat,
                  p: nat): nat { f * 0x1000 + h * 128 + m * 8 + u * 4 + w * 2 + p }

  predicate PartsOk(h: nat, m: nat, u: nat, w: nat, p: nat) { h < 32 && m < 16 && u < 2 && w < 2 && p < 2 }

  lemma Halved(x: nat, h: nat, b: nat)
    requires x == 2 * h + b && b < 2
    ensures x / 2 == h && x % 2 == b
  {
  }

  lemma Quartered(x: nat, q: nat, r: nat)
    requires x == 4 * q + r && r < 4
    ensures x / 4 == q
  {
  }

  lemma PageParts(x: nat, q: nat, r: nat)
    requires x == 0x1000 * q + r && r < 0x1000
    ensures x / 0x1000 == q
  {
  }

  lemma HugeParts(x: nat, q: nat, r: nat)
    requires x == 128 * q + r && r < 128
    ensures x / 128 == q
  {
  }

  lemma PackedBits(e: nat, f: nat, h: nat, m: nat, u: nat, w: nat, p: nat)
    requires PartsOk(h, m, u, w, p) && e == Packed(f, h, m, u, w, p)
    ensures Present(e) == (p == 1) && User(e) == (u == 1) && Huge(e) == (h % 2 == 1) && e / 0x1000 == f
    ensures Writable(e) == (w == 1)
  {
    Halved(e, f * 0x800 + h * 64 + m * 4 + u * 2 + w, p);
    Halved(e / 2, f * 0x400 + h * 32 + m * 2 + u, w);
    Quartered(e, f * 0x400 + h * 32 + m * 2 + u, w * 2 + p);
    Halved(e / 4, f * 0x200 + h * 16 + m, u);
    HugeParts(e, f * 32 + h, m * 8 + u * 4 + w * 2 + p);
    Halved(h, h / 2, h % 2);
    Halved(e / 128, f * 16 + h / 2, h % 2);
    PageParts(e, f, h * 128 + m * 8 + u * 4 + w * 2 + p);
  }

  lemma Unpack(e: nat) returns (f: nat, h: nat, m: nat, u: nat, w: nat, p: nat)
    ensures PartsOk(h, m, u, w, p) && e == Packed(f, h, m, u, w, p)
  {
    var r;
    f, r := e / 0x1000, e % 0x1000;
    h, r := r / 128, r % 128;
    m, r := r / 8, r % 8;
    u, r := r / 4, r % 4;
    w, p := r / 2, r % 2;
  }

  lemma WithUserBits(e: nat)
    ensures User(WithUser(e)) && Present(WithUser(e)) == Present(e) && Huge(WithUser(e)) == Huge(e)
    ensures FrameOf(WithUser(e)) == FrameOf(e) && Writable(WithUser(e)) == Writable(e)
  {
    hide Present, Huge, PartsOk, Writable, User, FrameOf, Packed;
    var f, h, m, u, w, p := Unpack(e);
    PackedBits(e, f, h, m, u, w, p);
    if u != 1 {
      UserPart(e, f, h, m, u, w, p);
      PackedBits(e + 4, f, h, m, 1, w, p);
      SameFrame(e, e + 4);
    }
  }

  lemma UserPart(e: nat, f: nat, h: nat, m: nat, u: nat, w: nat, p: nat)
    requires PartsOk(h, m, u, w, p) && e == Packed(f, h, m, u, w, p) && u != 1
    ensures PartsOk(h, m, 1, w, p) && e + 4 == Packed(f, h, m, 1, w, p)
  {
  }

  lemma SameFrame(a: nat, b: nat)
    requires a / 0x1000 == b / 0x1000
    ensures FrameOf(a) == FrameOf(b)
  {
  }

  /** The entry of a table in frame `f`: present, writable and, if asked for, user. */
  function TableEntry(f: nat, user: bool): nat { f * 0x1000 + if user then 7 else 3 }

  lemma TableEntryBits(f: nat, user: bool)
    requires f < 0x100_0000_0000
    ensures Present(TableEntry(f, user)) && !Huge(TableEntry(f, user)) && User(TableEntry(f, user)) == user
    ensures FrameOf(TableEntry(f, user)) == f && Writable(TableEntry(f, user))
  {
    hide Present, Huge, User, PartsOk, Writable;
    var e := TableEntry(f, user);
    PackedBits(e, f, 0, 0, if user then 1 else 0, 1, 1);
    SumFrame(f, 0);
  }

  /** Flags that stay out of the address bits. */
  predicate FlagsOk(flags: nat) { flags / 0x1000 % 0x100_0000_0000 == 0 }

  /** `flags | PTE_PRESENT` */
  function WithPresent(flags: nat): nat { if Present(flags) then flags else flags + 1 }

  /** A leaf entry for the page at `physical`. */
  function LeafEntry(physical: nat, flags: nat): nat { FrameOf(physical) * 0x1000 + WithPresent(flags) }

  /** An address added to flags changes neither the bits below it nor those above. */
  lemma SumBits(e: nat, f: nat, x: nat)
    requires e == f * 0x1000 + x
    ensures Present(e) == Present(x) && User(e) == User(x) && e / 0x1000 == f + x / 0x1000
  {
    hide Present, User, PartsOk;
    var g, h, m, u, w, p := Unpack(x);
    PackedBits(x, g, h, m, u, w, p);
    PackedBits(e, f + g, h, m, u, w, p);
  }

  lemma WithPresentBits(flags: nat)
    ensures Present(WithPresent(flags)) && User(WithPresent(flags)) == User(flags) && WithPresent(flags) / 0x1000
        == flags / 0x1000
  {
    hide User, PartsOk;
    var f, h, m, u, w, p := Unpack(flags);
    PackedBits(flags, f, h, m, u, w, p);
    if p == 0 { PackedBits(flags + 1, f, h, m, u, w, 1); }
  }

  lemma SumFrame(f: nat, hi: nat)
    requires f < 0x100_0000_0000 && hi % 0x100_0000_0000 == 0
    ensures (f + hi) % 0x100_0000_0000 == f
  {
  }

  /** The entry has the flags, all of them, and is present: it agrees with them in every bit outside
      the address but the lowest. */
  predicate HasFlags(e: nat, flags: nat) {
    && Present(e) && e % 0x1000 / 2 == flags % 0x1000 / 2
    && e / 0x10_0000_0000_0000 == flags / 0x10_0000_0000_0000
  }

  lemma LeafEntryBits(physical: nat, flags: nat)
    requires FlagsOk(flags)
    ensures Present(LeafEntry(physical, flags)) && User(LeafEntry(physical, flags)) == User(flags)
    ensures FrameOf(LeafEntry(physical, flags)) == FrameOf(physical)
    ensures HasFlags(LeafEntry(physical, flags), flags)
  {
    hide WithPresent, Present, User, FlagsOk;
    WithPresentBits(flags);
    SumBits(LeafEntry(physical, flags), FrameOf(physical), WithPresent(flags));
    FlagsAbove(flags);
    SumFrame(FrameOf(physical), flags / 0x1000);
    LowFlags(physical, flags);
    HighFlags(physical, flags);
  }

  lemma KeptWritable(e: nat, flags: nat)
    requires HasFlags(e, flags)
    ensures Writable(e) == Writable(flags)
  {
    LowHalf(e);
    LowHalf(flags);
  }

  lemma LowHalf(x: nat)
    ensures x / 2 % 2 == x % 0x1000 / 2 % 2
  {
    var q, h, b := x / 0x1000, x % 0x1000 / 2, x % 0x1000 % 2;
    var k, c := h / 2, h % 2;
    Halved(x, q * 0x800 + h, b);
    Halved(q * 0x800 + h, q * 0x400 + k, c);
  }

  lemma FlagsAbove(flags: nat)
    requires FlagsOk(flags)
    ensures flags / 0x1000 % 0x100_0000_0000 == 0
    ensures flags == flags / 0x10_0000_0000_0000 * 0x10_0000_0000_0000 + flags % 0x1000
  {
    var a := flags / 0x1000;
    assert a == a / 0x100_0000_0000 * 0x100_0000_0000;
    assert flags / 0x10_0000_0000_0000 == a / 0x100_0000_0000;
  }

  lemma PresentLow(x: nat)
    ensures WithPresent(x) / 2 == x / 2 && WithPresent(x) <= x + 1
  {
  }

  lemma LowFlags(physical: nat, flags: nat)
    ensures LeafEntry(physical, flags) % 0x1000 / 2 == flags % 0x1000 / 2
  {
    hide FrameOf;
    var a, low := flags / 0x1000, flags % 0x1000;
    var more := WithPresent(flags) - a * 0x1000;
    assert more == WithPresent(low) < 0x1000 by { LowPresent(flags, a, low); }
    PresentLow(low);
    ModPage(LeafEntry(physical, flags), FrameOf(physical) + a, more);
  }

  lemma LowPresent(flags: nat, a: nat, low: nat)
    requires flags == a * 0x1000 + low && low < 0x1000
    ensures WithPresent(flags) == a * 0x1000 + WithPresent(low) && WithPresent(low) < 0x1000
  {
    SameParity(flags, a * 0x800, low);
    if low % 2 == 0 { BelowOdd(low, 0x800); }
  }

  lemma SameParity(x: nat, k: nat, y: nat)
    requires x == 2 * k + y
    ensures x % 2 == y % 2
  {
  }

  lemma BelowOdd(x: nat, n: nat)
    requires x % 2 == 0 && x < 2 * n
    ensures x + 1 < 2 * n
  {
  }

  lemma ModPage(x: nat, q: nat, r: nat)
    requires x == 0x1000 * q + r && r < 0x1000
    ensures x % 0x1000 == r
  {
  }

  lemma TopPart(x: nat, q: nat, r: nat)
    requires x == 0x10_0000_0000_0000 * q + r && r < 0x10_0000_0000_0000
    ensures x / 0x10_0000_0000_0000 == q
  {
  }

  lemma HighFlags(physical: nat, flags: nat)
    requires FlagsOk(flags)
    ensures LeafEntry(physical, flags) / 0x10_0000_0000_0000 == flags / 0x10_0000_0000_0000
  {
    hide FlagsOk;
    FlagsAbove(flags);
    var hi, low := flags / 0x10_0000_0000_0000, flags % 0x1000;
    LowPresent(flags, hi * 0x100_0000_0000, low);
    var f := FrameOf(physical);
    assert f * 0x1000 <= 0xFF_FFFF_FFFF * 0x1000;
    TopPart(LeafEntry(physical, flags), hi, f * 0x1000 + WithPresent(low));
  }

  // ------------------------------------------------------------- the walk

  /** Physical memory as far as it holds tables: 512 entries a frame. */
  type Tables = map<nat, seq<nat>>

  function EntryAt(mem: Tables, t: nat, i: nat): nat {
    if t in mem && i < |mem[t]| then mem[t][i] else 0
  }

  /** Memory with one entry written. */
  function Put(mem: Tables, t: nat, i: nat, e: nat): (r: Tables)
    requires t in mem && i < |mem[t]|
    ensures forall u, j: nat :: EntryAt(r, u, j) == if u == t && j == i then e else EntryAt(mem, u, j)
    ensures r.Keys == mem.Keys && |r[t]| == |mem[t]| && forall u :: u in mem && u != t ==> r[u] == mem[u]
  {
    var row: seq<nat> := mem[t][i := e];
    mem[t := row]
  }

  datatype Leaf = Unmapped | Leaf(level: nat, entry: nat)

  /** Walks down from table `t`, one index of `path` a level; the last level is 1. An entry of
      the top level that claims to be huge maps nothing. */
  function Walk(mem: Tables, t: nat, path: seq<nat>): Leaf
    decreases |path|
  {
    if path == [] then Unmapped
    else
      var e := EntryAt(mem, t, path[0]);
      if !Present(e) then Unmapped
      else if |path| == 1 then Leaf(1, e)
      else if Huge(e) then (if |path| == 4 then Unmapped else Leaf(|path|, e))
      else Walk(mem, FrameOf(e), path[1..])
  }

  /** The walk, and every entry on it lets user code through. */
  predicate UserWalk(mem: Tables, t: nat, path: seq<nat>)
    decreases |path|
  {
    path != [] &&
    var e := EntryAt(mem, t, path[0]);
    && Present(e) && User(e)
    && (|path| == 1 || (if Huge(e) then |path| != 4 else UserWalk(mem, FrameOf(e), path[1..])))
  }

  /** Every table on the way down is entered for writing. */
  predicate WayOpen(mem: Tables, t: nat, path: seq<nat>)
    decreases |path|
  {
    |path| <= 1 ||
    var e := EntryAt(mem, t, path[0]);
    Present(e) && !Huge(e) ==> Writable(e) && WayOpen(mem, FrameOf(e), path[1..])
  }

  /** The walk, and every entry on it allows writing. */
  predicate WriteWalk(mem: Tables, t: nat, path: seq<nat>)
    decreases |path|
  {
    path != [] &&
    var e := EntryAt(mem, t, path[0]);
    && Present(e) && Writable(e)
    && (|path| == 1 || (if Huge(e) then |path| != 4 else WriteWalk(mem, FrameOf(e), path[1..])))
  }

  predicate WriteLeaf(leaf: Leaf) { leaf.Leaf? && Writable(leaf.entry) }

  /** A page can be written exactly when its leaf says so and the way to it is open. */
  lemma {:induction false} WriteExact(mem: Tables, t: nat, path: seq<nat>)
    requires |path| <= 4 && Walk(mem, t, path).Leaf?
    ensures WriteWalk(mem, t, path) <==> WriteLeaf(Walk(mem, t, path)) && WayOpen(mem, t, path)
    decreases |path|
  {
    hide Present, Writable, Huge, FrameOf;
    var e := EntryAt(mem, t, path[0]);
    if |path| > 1 && !Huge(e) { WriteExact(mem, FrameOf(e), path[1..]); }
  }

  /** What is not mapped cannot be written. */
  lemma {:induction false} NoWrite(mem: Tables, t: nat, path: seq<nat>)
    requires |path| <= 4 && Walk(mem, t, path) == Unmapped
    ensures !WriteWalk(mem, t, path)
    decreases |path|
  {
    hide Present, Writable, Huge, FrameOf;
    if |path| > 1 {
      var e := EntryAt(mem, t, path[0]);
      if Present(e) && !Huge(e) { NoWrite(mem, FrameOf(e), path[1..]); }
    }
  }

  /** The table that the first levels of a walk lead to. */
  function Reach(mem: Tables, t: nat, path: seq<nat>): Option<nat>
    decreases |path|
  {
    if path == [] then Some(t)
    else
      var e := EntryAt(mem, t, path[0]);
      if Present(e) && !Huge(e) then Reach(mem, FrameOf(e), path[1..]) else None
  }

  /** Every entry on the way down lets user code through. */
  predicate UserReach(mem: Tables, t: nat, path: seq<nat>)
    decreases |path|
  {
    path == [] || (var e := EntryAt(mem, t, path[0]);
         Present(e) && !Huge(e) && User(e) && UserReach(mem, FrameOf(e), path[1..]))
  }

  lemma {:induction false} WalkSplit(mem: Tables, t: nat, path: seq<nat>, rest: seq<nat>, u: nat)
    requires |path| + |rest| <= 4 && rest != [] && Reach(mem, t, path) == Some(u)
    ensures Walk(mem, t, path + rest) == Walk(mem, u, rest)
    ensures UserReach(mem, t, path) ==> UserWalk(mem, t, path + rest) == UserWalk(mem, u, rest)
    decreases |path|
  {
    if path == [] {
      assert path + rest == rest;
    } else {
      var e := EntryAt(mem, t, path[0]);
      assert (path + rest)[1..] == path[1..] + rest;
      WalkSplit(mem, FrameOf(e), path[1..], rest, u);
    }
  }

  // -------------------------------------------------------------- the tree

  /** Each table frame in use has one place in the tree, given by the indices that lead to it. */
  type Places = map<nat, seq<nat>>

  ghost predicate EntryPlaced(mem: Tables, own: Places, t: nat, i: nat)
    requires t in own && t in mem && i < |mem[t]|
  {
    var e := mem[t][i];
    |own[t]| < 3 && Present(e) && !Huge(e) ==> FrameOf(e) in own && own[FrameOf(e)] == own[t] + [i]
  }

  ghost predicate TablePlaced(mem: Tables, own: Places, t: nat)
    requires t in own
  {
    && |own[t]| <= 3 && t in mem && |mem[t]| == 512
    && forall i :: 0 <= i < 512 ==> EntryPlaced(mem, own, t, i)
  }

  ghost predicate TreeShaped(mem: Tables, own: Places, root: nat) {
    && root in own && own[root] == []
    && forall t :: t in own ==> TablePlaced(mem, own, t)
  }

  /** A written entry is only seen by walks that pass through its place. */
  lemma {:induction false} WalkElsewhere(mem: Tables, own: Places, root: nat, t: nat, i: nat, e: nat, at: nat,
                                         rest: seq<nat>)
    requires TreeShaped(mem, own, root) && t in own && t in mem && i < 512 && |mem[t]| == 512 && at in own
    requires |own[at]| + |rest| == 4 && !(own[t] + [i] <= own[at] + rest) && forall k ::
               0 <= k < |rest| ==> rest[k] < 512
    ensures Walk(Put(mem, t, i, e), at, rest) == Walk(mem, at, rest)
    ensures UserWalk(Put(mem, t, i, e), at, rest) == UserWalk(mem, at, rest)
    decreases |rest|
  {
    assert TablePlaced(mem, own, t) && TablePlaced(mem, own, at);
    if rest != [] {
      var x := EntryAt(mem, at, rest[0]);
      assert EntryPlaced(mem, own, at, rest[0]);
      if |rest| > 1 && Present(x) && !Huge(x) {
        assert own[at] + [rest[0]] + rest[1..] == own[at] + rest;
        WalkElsewhere(mem, own, root, t, i, e, FrameOf(x), rest[1..]);
      }
    }
  }

  lemma {:induction false} ReachElsewhere(mem: Tables, own: Places, root: nat, t: nat, i: nat, e: nat, at: nat,
                                          rest: seq<nat>)
    requires TreeShaped(mem, own, root) && t in own && t in mem && i < 512 && |mem[t]| == 512 && at in own
    requires |own[at]| + |rest| <= 3 && !(own[t] + [i] <= own[at] + rest) && forall k ::
               0 <= k < |rest| ==> rest[k] < 512
    ensures Reach(Put(mem, t, i, e), at, rest) == Reach(mem, at, rest)
    ensures UserReach(Put(mem, t, i, e), at, rest) == UserReach(mem, at, rest)
    decreases |rest|
  {
    assert TablePlaced(mem, own, t) && TablePlaced(mem, own, at);
    if rest != [] {
      var x := EntryAt(mem, at, rest[0]);
      assert EntryPlaced(mem, own, at, rest[0]);
      if Present(x) && !Huge(x) {
        assert own[at] + [rest[0]] + rest[1..] == own[at] + rest;
        ReachElsewhere(mem, own, root, t, i, e, FrameOf(x), rest[1..]);
      }
    }
  }

  /** Writing an entry that points to the same table as before keeps the shape. */
  lemma ShapeKept(mem: Tables, own: Places, root: nat, t: nat, i: nat, e: nat)
    requires TreeShaped(mem, own, root) && t in own && t in mem && i < 512 && |mem[t]| == 512
    requires |own[t]| == 3 || (Present(e) && !Huge(e) ==> FrameOf(e) in own && own[FrameOf(e)] == own[t] + [i])
    ensures TreeShaped(Put(mem, t, i, e), own, root)
  {
    var r := Put(mem, t, i, e);
    forall u | u in own ensures TablePlaced(r, own, u) {
      assert TablePlaced(mem, own, u);
      forall j | 0 <= j < 512 ensures EntryPlaced(r, own, u, j) {
        assert EntryPlaced(mem, own, u, j);
        assert EntryAt(r, u, j) == r[u][j] && EntryAt(mem, u, j) == mem[u][j];
      }
    }
  }

  // ------------------------------------------------- letting user code through

  /** Setting the user bit of a table entry changes no translation and closes no way. */
  lemma {:induction false} WalkRaised(mem: Tables, own: Places, root: nat, t: nat, i: nat, at: nat, rest: seq<nat>)
    requires TreeShaped(mem, own, root) && t in own && t in mem && i < 512 && |mem[t]| == 512 && at in own
    requires |own[t]| < 3
    requires Present(mem[t][i]) && !Huge(mem[t][i])
    requires |own[at]| + |rest| == 4 && forall k :: 0 <= k < |rest| ==> rest[k] < 512
    ensures Walk(Put(mem, t, i, WithUser(mem[t][i])), at, rest) == Walk(mem, at, rest)
    ensures UserWalk(mem, at, rest) ==> UserWalk(Put(mem, t, i, WithUser(mem[t][i])), at, rest)
    decreases |rest|
  {
    hide User, WithUser, FrameOf, Present, Huge;
    var e := mem[t][i];
    WithUserBits(e);
    assert TablePlaced(mem, own, at) && EntryAt(mem, t, i) == e;
    if rest != [] {
      var x := EntryAt(mem, at, rest[0]);
      assert EntryPlaced(mem, own, at, rest[0]);
      if |rest| > 1 && Present(x) && !Huge(x) {
        WalkRaised(mem, own, root, t, i, FrameOf(x), rest[1..]);
      }
    }
  }

  lemma {:induction false} ReachRaised(mem: Tables, t: nat, i: nat, at: nat, rest: seq<nat>)
    requires t in mem && i < |mem[t]| && Present(mem[t][i]) && !Huge(mem[t][i])
    ensures Reach(Put(mem, t, i, WithUser(mem[t][i])), at, rest) == Reach(mem, at, rest)
    ensures UserReach(mem, at, rest) ==> UserReach(Put(mem, t, i, WithUser(mem[t][i])), at, rest)
    decreases |rest|
  {
    hide User, WithUser, FrameOf, Present, Huge;
    WithUserBits(mem[t][i]);
    assert EntryAt(mem, t, i) == mem[t][i];
    if rest != [] { ReachRaised(mem, t, i, FrameOf(EntryAt(mem, at, rest[0])), rest[1..]); }
  }

  /** Neither does it open or close a way for writing. */
  lemma {:induction false} WayRaised(mem: Tables, t: nat, i: nat, at: nat, rest: seq<nat>)
    requires t in mem && i < |mem[t]| && Present(mem[t][i]) && !Huge(mem[t][i])
    ensures WayOpen(Put(mem, t, i, WithUser(mem[t][i])), at, rest) == WayOpen(mem, at, rest)
    decreases |rest|
  {
    hide User, WithUser, FrameOf, Present, Huge, Writable;
    WithUserBits(mem[t][i]);
    assert EntryAt(mem, t, i) == mem[t][i];
    if |rest| > 1 { WayRaised(mem, t, i, FrameOf(EntryAt(mem, at, rest[0])), rest[1..]); }
  }

  /** An entry of a last-level table is on no way. */
  lemma {:induction false} WayLeaf(mem: Tables, own: Places, root: nat, t: nat, i: nat, e: nat, at: nat,
                                   rest: seq<nat>)
    requires TreeShaped(mem, own, root) && t in own && t in mem && i < 512 && |mem[t]| == 512 && |own[t]| == 3
    requires at in own && |own[at]| + |rest| == 4 && forall k :: 0 <= k < |rest| ==> rest[k] < 512
    ensures WayOpen(Put(mem, t, i, e), at, rest) == WayOpen(mem, at, rest)
    decreases |rest|
  {
    hide User, FrameOf, Present, Huge, Writable;
    assert TablePlaced(mem, own, at);
    if |rest| > 1 {
      var x := EntryAt(mem, at, rest[0]);
      assert EntryPlaced(mem, own, at, rest[0]);
      if Present(x) && !Huge(x) { WayLeaf(mem, own, root, t, i, e, FrameOf(x), rest[1..]); }
    }
  }

  // ------------------------------------------------------------ a new table

  function ZeroTable(): (z: seq<nat>)
    ensures |z| == 512 && forall i :: 0 <= i < 512 ==> z[i] == 0
  {
    seq(512, _ => 0)
  }

  /** Memory with an empty table in frame `f`, entered at `i` of table `t`. */
  function Grown(mem: Tables, t: nat, i: nat, f: nat, user: bool): (r: Tables)
    requires t in mem && i < |mem[t]| && f != t
    ensures f in r && r[f] == ZeroTable() && t in r
    ensures forall u, j: nat :: EntryAt(r, u, j)
              == if u == t && j == i then TableEntry(f, user) else if u == f then 0 else EntryAt(mem, u, j)
    ensures forall u :: u in mem ==> u in r
    ensures forall u :: u in mem && u != t && u != f ==> r[u] == mem[u]
    ensures |r[t]| == |mem[t]|
  {
    Put(mem, t, i, TableEntry(f, user))[f := ZeroTable()]
  }

  lemma ShapeGrown(mem: Tables, own: Places, root: nat, t: nat, i: nat, f: nat, user: bool)
    requires TreeShaped(mem, own, root) && t in own && t in mem && i < 512 && |mem[t]| == 512 && |own[t]| < 3
    requires f !in own && f != t && f < 0x100_0000_0000
    ensures TreeShaped(Grown(mem, t, i, f, user), own[f := own[t] + [i]], root)
  {
    hide TableEntry, Present, Huge, FrameOf;
    TableEntryBits(f, user);
    NothingPresent();
    var r, more := Grown(mem, t, i, f, user), own[f := own[t] + [i]];
    forall u | u in more ensures TablePlaced(r, more, u) {
      if u != f { assert TablePlaced(mem, own, u); }
      forall j | 0 <= j < 512 ensures EntryPlaced(r, more, u, j) {
        assert EntryAt(r, u, j) == r[u][j];
        if u != f {
          assert EntryPlaced(mem, own, u, j);
          assert EntryAt(mem, u, j) == mem[u][j];
        }
      }
    }
  }

  lemma NothingPresent()
    ensures !Present(0)
  {
  }

  lemma EmptyWalk(mem: Tables, f: nat, rest: seq<nat>)
    requires forall j: nat :: EntryAt(mem, f, j) == 0
    ensures Walk(mem, f, rest) == Unmapped && !UserWalk(mem, f, rest)
  {
  }

  /** An empty table maps nothing where nothing was mapped. */
  lemma {:induction false} WalkGrown(mem: Tables, own: Places, root: nat, t: nat, i: nat, f: nat, user: bool, at: nat,
                                     rest: seq<nat>)
    requires TreeShaped(mem, own, root) && t in own && t in mem && i < 512 && |mem[t]| == 512 && |own[t]| < 3
    requires f !in own && f != t && f < 0x100_0000_0000 && !Present(mem[t][i]) && at in own
    requires |own[at]| + |rest| == 4 && forall k :: 0 <= k < |rest| ==> rest[k] < 512
    ensures Walk(Grown(mem, t, i, f, user), at, rest) == Walk(mem, at, rest)
    ensures UserWalk(Grown(mem, t, i, f, user), at, rest) == UserWalk(mem, at, rest)
    decreases |rest|
  {
    hide TableEntry, Present, Huge, FrameOf, User;
    var r := Grown(mem, t, i, f, user);
    TableEntryBits(f, user);
    NothingPresent();
    assert TablePlaced(mem, own, at) && EntryAt(mem, t, i) == mem[t][i];
    if rest != [] {
      var x := EntryAt(mem, at, rest[0]);
      assert EntryPlaced(mem, own, at, rest[0]);
      if at == t && rest[0] == i {
        EmptyWalk(r, f, rest[1..]);
      } else if |rest| > 1 && Present(x) && !Huge(x) {
        WalkGrown(mem, own, root, t, i, f, user, FrameOf(x), rest[1..]);
      }
    }
  }

  lemma EmptyWay(mem: Tables, f: nat, rest: seq<nat>)
    requires forall j: nat :: EntryAt(mem, f, j) == 0
    ensures WayOpen(mem, f, rest)
  {
  }

  /** A new table is entered for writing. */
  lemma {:induction false} WayGrown(mem: Tables, own: Places, root: nat, t: nat, i: nat, f: nat, user: bool, at: nat,
                                    rest: seq<nat>)
    requires TreeShaped(mem, own, root) && t in own && t in mem && i < 512 && |mem[t]| == 512 && |own[t]| < 3
    requires f !in own && f != t && f < 0x100_0000_0000 && !Present(mem[t][i]) && at in own
    requires |own[at]| + |rest| == 4 && forall k :: 0 <= k < |rest| ==> rest[k] < 512
    ensures WayOpen(Grown(mem, t, i, f, user), at, rest) == WayOpen(mem, at, rest)
    decreases |rest|
  {
    hide TableEntry, Present, Huge, FrameOf, User, Writable;
    var r := Grown(mem, t, i, f, user);
    TableEntryBits(f, user);
    assert TablePlaced(mem, own, at) && EntryAt(mem, t, i) == mem[t][i];
    if |rest| > 1 {
      var x := EntryAt(mem, at, rest[0]);
      assert EntryPlaced(mem, own, at, rest[0]);
      if at == t && rest[0] == i {
        EmptyWay(r, f, rest[1..]);
      } else if Present(x) && !Huge(x) {
        WayGrown(mem, own, root, t, i, f, user, FrameOf(x), rest[1..]);
      }
    }
  }

  lemma {:induction false} ReachGrown(mem: Tables, own: Places, root: nat, t: nat, i: nat, f: nat, user: bool, at: nat,
                                      rest: seq<nat>, u: nat)
    requires TreeShaped(mem, own, root) && t in own && t in mem && i < 512 && |mem[t]| == 512 && |own[t]| < 3
    requires f !in own && f != t && f < 0x100_0000_0000 && !Present(mem[t][i]) && at in own
    requires |own[at]| + |rest| <= 3 && Reach(mem, at, rest) == Some(u) && forall k :: 0 <= k < |rest| ==> rest[k] < 512
    ensures Reach(Grown(mem, t, i, f, user), at, rest) == Some(u)
    ensures UserReach(mem, at, rest) ==> UserReach(Grown(mem, t, i, f, user), at, rest)
    decreases |rest|
  {
    hide TableEntry, Present, Huge, FrameOf, User;
    assert TablePlaced(mem, own, at) && EntryAt(mem, t, i) == mem[t][i];
    if rest != [] {
      var x := EntryAt(mem, at, rest[0]);
      assert EntryPlaced(mem, own, at, rest[0]);
      ReachGrown(mem, own, root, t, i, f, user, FrameOf(x), rest[1..], u);
    }
  }

  /** One more level down. */
  lemma {:induction false} ReachStep(mem: Tables, t: nat, path: seq<nat>, i: nat, u: nat)
    requires Reach(mem, t, path) == Some(u) && Present(EntryAt(mem, u, i)) && !Huge(EntryAt(mem, u, i))
    ensures Reach(mem, t, path + [i]) == Some(FrameOf(EntryAt(mem, u, i)))
    ensures UserReach(mem, t, path) && User(EntryAt(mem, u, i)) ==> UserReach(mem, t, path + [i])
    decreases |path|
  {
    hide Present, Huge, FrameOf, User;
    if path != [] {
      ReachStep(mem, FrameOf(EntryAt(mem, t, path[0])), path[1..], i, u);
      assert (path + [i])[1..] == path[1..] + [i];
    } else {
      assert [i][1..] == [];
      assert path + [i] == [i];
    }
  }

  // -------------------------------------------------------- virtual addresses

  /** The four indices of a virtual address. */
  function PathOf(va: nat): (q: seq<nat>)
    ensures |q| == 4 && forall k :: 0 <= k < 4 ==> q[k] < 512
  {
    [va / 0x80_0000_0000 % 512, va / 0x4000_0000 % 512, va / 0x20_0000 % 512, va / 0x1000 % 512]
  }

  /** The 48-bit page number of a virtual address. */
  function PageOf(va: nat): nat { va / 0x1000 % 0x10_0000_0000 }

  /** The page number, put together from its four indices. */
  lemma PagePath(va: nat)
    ensures PageOf(va) == ((PathOf(va)[0] * 512 + PathOf(va)[1]) * 512 + PathOf(va)[2]) * 512 + PathOf(va)[3]
  {
    var n := va / 0x1000;
    assert va / 0x20_0000 == n / 512;
    assert va / 0x4000_0000 == n / 512 / 512;
    assert va / 0x80_0000_0000 == n / 512 / 512 / 512;
  }

  lemma Digits(a: nat, b: nat, c: nat, d: nat, a': nat, b': nat, c': nat, d': nat)
    requires a < 512 && b < 512 && c < 512 && d < 512 && a' < 512 && b' < 512 && c' < 512 && d' < 512
    requires ((a * 512 + b) * 512 + c) * 512 + d == ((a' * 512 + b') * 512 + c') * 512 + d'
    ensures a == a' && b == b' && c == c' && d == d'
  {
  }

  /** Two addresses take the same walk exactly when they are on the same 48-bit page. */
  lemma SamePage(va: nat, vb: nat)
    ensures PathOf(va) == PathOf(vb) <==> PageOf(va) == PageOf(vb)
  {
    var p, q := PathOf(va), PathOf(vb);
    PagePath(va);
    PagePath(vb);
    if PageOf(va) == PageOf(vb) { Digits(p[0], p[1], p[2], p[3], q[0], q[1], q[2], q[3]); }
  }

  /** The physical address a leaf gives for a virtual one. */
  function PhysAt(leaf: Leaf, va: nat): Option<nat> {
    match leaf
    case Unmapped => None
    case Leaf(level, e) =>
      if level == 3 then Some(e / 0x4000_0000 % 0x40_0000 * 0x4000_0000 + va % 0x4000_0000)
      else if level == 2 then Some(e / 0x20_0000 % 0x8000_0000 * 0x20_0000 + va % 0x20_0000)
      else Some(FrameOf(e) * 0x1000 + va % 0x1000)
  }

  /** A large page translates every address as the small pages it stands for would: those of the
      frames from its first one on. */
  lemma LargeAsSmall(e: nat, va: nat)
    ensures PhysAt(Leaf(2, e), va) == PhysAt(Leaf(1, (FrameOf(e) / 512 * 512 + va / 0x1000 % 512) * 0x1000), va)
    ensures PhysAt(Leaf(3, e), va)
            == PhysAt(Leaf(1, (FrameOf(e) / 0x4_0000 * 0x4_0000 + va / 0x1000 % 0x4_0000) * 0x1000), va)
  {
    hide FrameOf;
    Part(e, va, 512, 0x20_0000, 0x8000_0000);
    Part(e, va, 0x4_0000, 0x4000_0000, 0x40_0000);
  }

  lemma Part(e: nat, va: nat, n: nat, size: nat, count: nat)
    requires (n == 512 && size == 0x20_0000 && count == 0x8000_0000)
             || (n == 0x4_0000 && size == 0x4000_0000 && count == 0x40_0000)
    ensures var f := FrameOf(e) / n * n + va / 0x1000 % n;
            FrameOf(f * 0x1000) == f && f * 0x1000 + va % 0x1000 == e / size % count * size + va % size
  {
    FirstFrame(e, n, size, count);
    InsidePage(va, n, size);
    var f := FrameOf(e) / n * n + va / 0x1000 % n;
    assert f < 0x100_0000_0000 by { FrameBelow(FrameOf(e), n, va / 0x1000 % n); }
    SmallFrame(f);
  }

  lemma SmallFrame(f: nat)
    requires f < 0x100_0000_0000
    ensures FrameOf(f * 0x1000) == f
  {
  }

  lemma FrameBelow(f: nat, n: nat, k: nat)
    requires f < 0x100_0000_0000 && k < n && (n == 512 || n == 0x4_0000)
    ensures f / n * n + k < 0x100_0000_0000
  {
  }

  lemma FirstFrame(e: nat, n: nat, size: nat, count: nat)
    requires (n == 512 && size == 0x20_0000 && count == 0x8000_0000)
             || (n == 0x4_0000 && size == 0x4000_0000 && count == 0x40_0000)
    ensures FrameOf(e) / n * n * 0x1000 == e / size % count * size
  {
    if n == 512 { FirstOf512(e / 0x1000); } else { FirstOfMany(e / 0x1000); }
    if n == 512 { assert e / 0x20_0000 == e / 0x1000 / 512; } else { assert e / 0x4000_0000 == e / 0x1000 / 0x4_0000; }
  }

  lemma FirstOf512(a: nat)
    ensures a % 0x100_0000_0000 / 512 == a / 512 % 0x8000_0000
  {
    var k, r := a / 0x100_0000_0000, a % 0x100_0000_0000;
    var q, low := r / 512, r % 512;
    assert a == 512 * (k * 0x8000_0000 + q) + low;
  }

  lemma FirstOfMany(a: nat)
    ensures a % 0x100_0000_0000 / 0x4_0000 == a / 0x4_0000 % 0x40_0000
  {
    var k, r := a / 0x100_0000_0000, a % 0x100_0000_0000;
    var q, low := r / 0x4_0000, r % 0x4_0000;
    assert a == 0x4_0000 * (k * 0x40_0000 + q) + low;
  }

  lemma InsidePage(va: nat, n: nat, size: nat)
    requires (n == 512 && size == 0x20_0000) || (n == 0x4_0000 && size == 0x4000_0000)
    ensures va / 0x1000 % n * 0x1000 + va % 0x1000 == va % size
  {
    if n == 512 {
      assert va / 0x20_0000 == va / 0x1000 / 512;
    } else {
      assert va / 0x4000_0000 == va / 0x1000 / 0x4_0000;
    }
  }

  /** What an address is translated to. */
  function Translate(mem: Tables, root: nat, va: nat): Option<nat> { PhysAt(Walk(mem, root, PathOf(va)), va) }

  // -------------------------------------------------------------- all walks

  predicate PathOk(q: seq<nat>) { |q| == 4 && forall k :: 0 <= k < 4 ==> q[k] < 512 }

  ghost predicate SameWalks(mem: Tables, after: Tables, root: nat) {
    forall q :: PathOk(q) ==> Walk(after, root, q) == Walk(mem, root, q)
  }

  /** Whatever user code could reach it still can. */
  ghost predicate UserKept(mem: Tables, after: Tables, root: nat) {
    forall q :: PathOk(q) && UserWalk(mem, root, q) ==> UserWalk(after, root, q)
  }

  /** Every way is open for writing that was, and no other. */
  ghost predicate SameWays(mem: Tables, after: Tables, root: nat) {
    forall q :: PathOk(q) ==> WayOpen(after, root, q) == WayOpen(mem, root, q)
  }

  lemma WaysTrans(a: Tables, b: Tables, c: Tables, root: nat)
    requires SameWays(a, b, root) && SameWays(b, c, root)
    ensures SameWays(a, c, root)
  {
    hide WayOpen;
  }

  lemma WaysRaised(mem: Tables, root: nat, t: nat, i: nat)
    requires t in mem && i < |mem[t]| && Present(mem[t][i]) && !Huge(mem[t][i])
    ensures SameWays(mem, Put(mem, t, i, WithUser(mem[t][i])), root)
  {
    hide WayOpen, Present, Huge;
    forall q | PathOk(q) ensures WayOpen(Put(mem, t, i, WithUser(mem[t][i])), root, q) == WayOpen(mem, root, q) {
      WayRaised(mem, t, i, root, q);
    }
  }

  lemma WaysLeaf(mem: Tables, own: Places, root: nat, t: nat, i: nat, e: nat)
    requires TreeShaped(mem, own, root) && t in own && t in mem && i < 512 && |mem[t]| == 512 && |own[t]| == 3
    ensures SameWays(mem, Put(mem, t, i, e), root)
  {
    hide WayOpen, TablePlaced;
    forall q | PathOk(q) ensures WayOpen(Put(mem, t, i, e), root, q) == WayOpen(mem, root, q) {
      WayLeaf(mem, own, root, t, i, e, root, q);
    }
  }

  lemma WaysGrown(mem: Tables, own: Places, root: nat, t: nat, i: nat, f: nat, user: bool)
    requires TreeShaped(mem, own, root) && t in own && t in mem && i < 512 && |mem[t]| == 512 && |own[t]| < 3
    requires f !in own && f != t && f < 0x100_0000_0000 && !Present(mem[t][i])
    ensures SameWays(mem, Grown(mem, t, i, f, user), root)
  {
    hide WayOpen, TablePlaced, Present, TableEntry;
    forall q | PathOk(q) ensures WayOpen(Grown(mem, t, i, f, user), root, q) == WayOpen(mem, root, q) {
      WayGrown(mem, own, root, t, i, f, user, root, q);
    }
  }

  /** Every user page lets user code through on all levels above it. */
  ghost predicate UserClosed(mem: Tables, root: nat) {
    forall q :: PathOk(q) && Walk(mem, root, q).Leaf? && User(Walk(mem, root, q).entry) ==> UserWalk(mem, root, q)
  }

  lemma ClosedKept(mem: Tables, after: Tables, root: nat)
    requires SameWalks(mem, after, root) && UserKept(mem, after, root) && UserClosed(mem, root)
    ensures UserClosed(after, root)
  {
    hide Walk, UserWalk, User;
  }

  /** Walks of other pages do not pass through this entry. */
  lemma OtherPage(path: seq<nat>, i: nat, q: seq<nat>)
    requires |path| == 3 && |q| == 4 && q != path + [i]
    ensures !(path + [i] <= [] + q)
  {
    assert [] + q == q;
    assert path + [i] <= q ==> q == path + [i];
  }

  /** Writing an entry of a last-level table changes one page. */
  lemma LeafWritten(mem: Tables, own: Places, root: nat, t: nat, i: nat, e: nat, q: seq<nat>)
    requires TreeShaped(mem, own, root) && t in own && t in mem && i < 512 && |mem[t]| == 512 && |own[t]| == 3
    requires Reach(mem, root, own[t]) == Some(t) && PathOk(q) && PathOk(own[t] + [i])
    ensures var after := Put(mem, t, i, e);
            && (q != own[t] + [i] ==>
                 Walk(after, root, q) == Walk(mem, root, q) && UserWalk(after, root, q) == UserWalk(mem, root, q))
            && (q == own[t] + [i] ==> Walk(after, root, q) == if Present(e) then Leaf(1, e) else Unmapped)
            && (q == own[t] + [i] && Present(e) && User(e) && UserReach(mem, root, own[t]) ==> UserWalk(after, root, q))
  {
    hide Present, Huge, FrameOf, User, TablePlaced;
    var after := Put(mem, t, i, e);
    if q != own[t] + [i] {
      OtherPage(own[t], i, q);
      WalkElsewhere(mem, own, root, t, i, e, root, q);
    } else {
      assert forall k :: 0 <= k < 3 ==> own[t][k] == q[k];
      LongerPath(own[t], i);
      ReachElsewhere(mem, own, root, t, i, e, root, own[t]);
      WalkSplit(after, root, own[t], [i], t);
      assert EntryAt(after, t, i) == e;
    }
  }

  lemma LongerPath(path: seq<nat>, i: nat)
    ensures !(path + [i] <= [] + path)
  {
    assert |path + [i]| > |[] + path|;
  }

  /** ... and keeps the user bit consistent if user pages are only entered below tables that
      let user code through. */
  lemma LeafClosed(mem: Tables, own: Places, root: nat, t: nat, i: nat, e: nat)
    requires TreeShaped(mem, own, root) && t in own && t in mem && i < 512 && |mem[t]| == 512 && |own[t]| == 3
    requires Reach(mem, root, own[t]) == Some(t) && PathOk(own[t] + [i]) && UserClosed(mem, root)
    requires Present(e) && User(e) ==> UserReach(mem, root, own[t])
    ensures UserClosed(Put(mem, t, i, e), root)
  {
    hide Present, Huge, FrameOf, User, Walk, UserWalk, UserReach, Reach, TreeShaped;
    var after := Put(mem, t, i, e);
    forall q | PathOk(q) && Walk(after, root, q).Leaf? && User(Walk(after, root, q).entry)
        ensures UserWalk(after, root, q) {
      LeafWritten(mem, own, root, t, i, e, q);
    }
  }

  lemma AllRaised(mem: Tables, own: Places, root: nat, t: nat, i: nat)
    requires TreeShaped(mem, own, root) && t in own && t in mem && i < 512 && |mem[t]| == 512 && |own[t]| < 3
    requires Present(mem[t][i]) && !Huge(mem[t][i])
    ensures var after := Put(mem, t, i, WithUser(mem[t][i]));
            TreeShaped(after, own, root) && SameWalks(mem, after, root) && UserKept(mem, after, root)
  {
    hide Walk, UserWalk, Present, Huge, User, WithUser, FrameOf, TablePlaced;
    var after := Put(mem, t, i, WithUser(mem[t][i]));
    WithUserBits(mem[t][i]);
    ChildOf(mem, own, t, i);
    ShapeKept(mem, own, root, t, i, WithUser(mem[t][i]));
    forall q | PathOk(q) ensures Walk(after, root, q) == Walk(mem, root, q)
        && (UserWalk(mem, root, q) ==> UserWalk(after, root, q)) {
      WalkRaised(mem, own, root, t, i, root, q);
    }
  }

  lemma ChildOf(mem: Tables, own: Places, t: nat, i: nat)
    requires t in own && TablePlaced(mem, own, t) && i < 512 && |own[t]| < 3 && Present(mem[t][i]) && !Huge(mem[t][i])
    ensures FrameOf(mem[t][i]) in own && own[FrameOf(mem[t][i])] == own[t] + [i]
  {
    assert EntryPlaced(mem, own, t, i);
  }

  lemma AllGrown(mem: Tables, own: Places, root: nat, t: nat, i: nat, f: nat, user: bool)
    requires TreeShaped(mem, own, root) && t in own && t in mem && i < 512 && |mem[t]| == 512 && |own[t]| < 3
    requires f !in own && f != t && f < 0x100_0000_0000 && !Present(mem[t][i])
    ensures var after := Grown(mem, t, i, f, user);
            TreeShaped(after, own[f := own[t] + [i]], root) && SameWalks(mem, after, root) && UserKept(mem, after, root)
  {
    hide Walk, UserWalk, Present, Huge, User, FrameOf, TablePlaced, TableEntry;
    var after := Grown(mem, t, i, f, user);
    ShapeGrown(mem, own, root, t, i, f, user);
    forall q | PathOk(q) ensures Walk(after, root, q) == Walk(mem, root, q) && UserWalk(after, root, q)
        == UserWalk(mem, root, q) {
      WalkGrown(mem, own, root, t, i, f, user, root, q);
    }
  }

  /** A huge page covers this one. */
  predicate HugeOnWay(mem: Tables, t: nat, path: seq<nat>)
    decreases |path|
  {
    |path| > 1 &&
    var e := EntryAt(mem, t, path[0]);
    Present(e) && (Huge(e) || HugeOnWay(mem, FrameOf(e), path[1..]))
  }

  lemma {:induction false} HugeReached(mem: Tables, t: nat, path: seq<nat>, rest: seq<nat>, u: nat)
    requires Reach(mem, t, path) == Some(u) && |rest| > 1 && Present(EntryAt(mem, u, rest[0]))
    requires Huge(EntryAt(mem, u, rest[0]))
    ensures HugeOnWay(mem, t, path + rest)
    decreases |path|
  {
    if path == [] {
      assert path + rest == rest;
    } else {
      HugeReached(mem, FrameOf(EntryAt(mem, t, path[0])), path[1..], rest, u);
      assert (path + rest)[1..] == path[1..] + rest;
    }
  }

  lemma SameTrans(a: Tables, b: Tables, c: Tables, root: nat)
    requires SameWalks(a, b, root) && UserKept(a, b, root) && SameWalks(b, c, root) && UserKept(b, c, root)
    ensures SameWalks(a, c, root) && UserKept(a, c, root)
  {
    hide Walk, UserWalk;
  }
}
