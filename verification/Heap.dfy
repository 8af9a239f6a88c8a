/** The kernel heap: headers at addresses, linked in address order, that tile a fixed window.
    Allocation is first fit with splitting, freeing merges neighbours. */
module Heap {
  import opened Bytes

  const HEADER: nat := 32
  const ALIGN: nat := 16

  /** A block header; `next` is an address, zero at the end of the list. */
  datatype Header = Header(size: nat, next: nat, free: bool)

  type Memory = map<nat, Header>

  // ---------------------------------------------------------------- the chain

  /** Where the block after block `i` of the chain starts. */
  function After(chain: seq<nat>, end: nat, i: nat): nat
    requires i < |chain|
  {
    if i + 1 < |chain| then chain[i + 1] else end
  }

  /** Block `i` of the chain: aligned, not empty, and right before its successor. */
  ghost predicate LinkOk(mem: Memory, chain: seq<nat>, end: nat, i: nat)
    requires i < |chain|
  {
    && chain[i] in mem && chain[i] > 0 && chain[i] % ALIGN == 0
    && mem[chain[i]].size > 0 && mem[chain[i]].size % ALIGN == 0
    && chain[i] + HEADER + mem[chain[i]].size == After(chain, end, i)
    && mem[chain[i]].next == if i + 1 < |chain| then chain[i + 1] else 0
  }

  /** The headers of the chain tile the window from `start` to `end`. */
  ghost predicate Tiles(mem: Memory, chain: seq<nat>, start: nat, end: nat) {
    && |chain| > 0 && chain[0] == start
    && forall i :: 0 <= i < |chain| ==> LinkOk(mem, chain, end, i)
  }

  /** Block `i` and its successor are both free. */
  ghost predicate BothFree(mem: Memory, chain: seq<nat>, i: nat) {
    i + 1 < |chain| && chain[i] in mem && chain[i + 1] in mem && mem[chain[i]].free && mem[chain[i + 1]].free
  }

  /** No two neighbours are both free, as far as the first `upto` blocks. */
  ghost predicate Merged(mem: Memory, chain: seq<nat>, upto: nat) {
    forall i: nat :: i < upto ==> !BothFree(mem, chain, i)
  }

  /** The blocks in use: where each starts and how large its payload is. */
  ghost function Live(mem: Memory, chain: seq<nat>): set<(nat, nat)> {
    set i | 0 <= i < |chain| && chain[i] in mem && !mem[chain[i]].free :: (chain[i], mem[chain[i]].size)
  }

  lemma {:induction false} Apart(mem: Memory, chain: seq<nat>, start: nat, end: nat, i: nat, j: nat)
    requires Tiles(mem, chain, start, end) && i < j < |chain|
    ensures chain[i] in mem && chain[i] + HEADER + mem[chain[i]].size <= chain[j]
    decreases j - i
  {
    assert LinkOk(mem, chain, end, i);
    if i + 1 < j {
      Apart(mem, chain, start, end, i + 1, j);
      assert LinkOk(mem, chain, end, i + 1);
    }
  }

  /** Every block lies inside the window. */
  lemma Inside(mem: Memory, chain: seq<nat>, start: nat, end: nat, i: nat)
    requires Tiles(mem, chain, start, end) && i < |chain|
    ensures chain[i] in mem && start <= chain[i] && chain[i] + HEADER + mem[chain[i]].size <= end
  {
    var m := |chain| - 1;
    assert LinkOk(mem, chain, end, i) && LinkOk(mem, chain, end, m) && LinkOk(mem, chain, end, 0);
    if i < m { Apart(mem, chain, start, end, i, m); }
    if i > 0 { Apart(mem, chain, start, end, 0, i); }
  }

  /** Payloads in use are aligned, lie inside the window and never overlap. */
  lemma LiveDisjoint(mem: Memory, chain: seq<nat>, start: nat, end: nat, a: (nat, nat), b: (nat, nat))
    requires Tiles(mem, chain, start, end) && a in Live(mem, chain) && b in Live(mem, chain) && a != b
    ensures a.0 + HEADER + a.1 <= b.0 || b.0 + HEADER + b.1 <= a.0
    ensures (a.0 + HEADER) % ALIGN == 0 && start <= a.0 && a.0 + HEADER + a.1 <= end
  {
    var i :| 0 <= i < |chain| && chain[i] in mem && (chain[i], mem[chain[i]].size) == a;
    var j :| 0 <= j < |chain| && chain[j] in mem && (chain[j], mem[chain[j]].size) == b;
    assert LinkOk(mem, chain, end, i);
    Inside(mem, chain, start, end, i);
    if i < j { Apart(mem, chain, start, end, i, j); } else { Apart(mem, chain, start, end, j, i); }
  }

  lemma FreeOrLive(mem: Memory, chain: seq<nat>, i: nat)
    requires i < |chain| && chain[i] in mem
    ensures mem[chain[i]].free || (chain[i], mem[chain[i]].size) in Live(mem, chain)
  {
  }

  /** Of two neighbours one is in use. */
  lemma SomeLive(mem: Memory, chain: seq<nat>, start: nat, end: nat)
    requires Tiles(mem, chain, start, end) && Merged(mem, chain, |chain|) && |chain| > 1
    ensures Live(mem, chain) != {}
  {
    assert LinkOk(mem, chain, end, 0) && LinkOk(mem, chain, end, 1) && !BothFree(mem, chain, 0);
    FreeOrLive(mem, chain, 0);
    FreeOrLive(mem, chain, 1);
  }

  /** When nothing is in use, the heap is one free block over the whole window. */
  lemma AllFreed(mem: Memory, chain: seq<nat>, start: nat, end: nat)
    requires Tiles(mem, chain, start, end) && Merged(mem, chain, |chain|) && Live(mem, chain) == {}
    ensures start + HEADER <= end && chain == [start] && start in mem && mem[start]
        == Header(end - start - HEADER, 0, true)
  {
    hide Live, Merged;
    if |chain| > 1 { SomeLive(mem, chain, start, end); }
    assert LinkOk(mem, chain, end, 0);
    FreeOrLive(mem, chain, 0);
  }

  lemma Positive(mem: Memory, chain: seq<nat>, start: nat, end: nat)
    requires Tiles(mem, chain, start, end)
    ensures forall i :: 0 <= i < |chain| ==> chain[i] > 0
  {
    forall i | 0 <= i < |chain| ensures chain[i] > 0 { assert LinkOk(mem, chain, end, i); }
  }

  // ------------------------------------------------------------------ steps

  /** Only the header at `a` changed, and not in size or link. */
  lemma FlagTiles(mem: Memory, chain: seq<nat>, start: nat, end: nat, i: nat, free: bool)
    requires Tiles(mem, chain, start, end) && i < |chain| && chain[i] in mem
    ensures Tiles(mem[chain[i] := mem[chain[i]].(free := free)], chain, start, end)
  {
    var r := mem[chain[i] := mem[chain[i]].(free := free)];
    forall j | 0 <= j < |chain| ensures LinkOk(r, chain, end, j) { assert LinkOk(mem, chain, end, j); }
  }

  lemma FlagLive(mem: Memory, chain: seq<nat>, start: nat, end: nat, i: nat, free: bool)
    requires Tiles(mem, chain, start, end) && i < |chain| && chain[i] in mem && mem[chain[i]].free != free
    ensures var x := (chain[i], mem[chain[i]].size);
            var more := Live(mem[chain[i] := mem[chain[i]].(free := free)], chain);
            if free then x in Live(mem, chain) && more == Live(mem, chain) - {x}
                else x !in Live(mem, chain) && more == Live(mem, chain) + {x}
  {
    var r := mem[chain[i] := mem[chain[i]].(free := free)];
    var x := (chain[i], mem[chain[i]].size);
    forall j | 0 <= j < |chain| && j != i ensures chain[j] != chain[i] {
      if i < j { Apart(mem, chain, start, end, i, j); } else { Apart(mem, chain, start, end, j, i); }
    }
    forall y ensures y in Live(r, chain) <==> (if free then y in Live(mem, chain) && y != x
        else y in Live(mem, chain) || y == x) {
      if y in Live(mem, chain) {
        var j :| 0 <= j < |chain| && chain[j] in mem && !mem[chain[j]].free && (chain[j], mem[chain[j]].size) == y;
        if j != i { assert chain[j] in r && !r[chain[j]].free && (chain[j], r[chain[j]].size) == y; }
      }
      if y in Live(r, chain) {
        var j :| 0 <= j < |chain| && chain[j] in r && !r[chain[j]].free && (chain[j], r[chain[j]].size) == y;
        if j != i { assert chain[j] in mem && !mem[chain[j]].free && (chain[j], mem[chain[j]].size) == y; }
      }
      if y == x && !free { assert chain[i] in r && !r[chain[i]].free && (chain[i], r[chain[i]].size) == y; }
    }
  }

  /** The chain with block `i` cut after `want` bytes. */
  function SplitChain(chain: seq<nat>, i: nat, want: nat): seq<nat>
    requires i < |chain|
  {
    chain[..i + 1] + [chain[i] + HEADER + want] + chain[i + 1..]
  }

  function SplitMem(mem: Memory, a: nat, want: nat): Memory
    requires a in mem && want + HEADER <= mem[a].size
  {
    mem[a + HEADER + want := Header(mem[a].size - want - HEADER, mem[a].next, true)][a := Header(want,
        a + HEADER + want, mem[a].free)]
  }

  lemma SplitAddress(mem: Memory, chain: seq<nat>, start: nat, end: nat, i: nat, want: nat, j: nat)
    requires Tiles(mem, chain, start, end) && i < |chain| && j < |chain| && j != i
    requires chain[i] in mem && want + HEADER < mem[chain[i]].size
    ensures chain[j] != chain[i] && chain[j] != chain[i] + HEADER + want
  {
    assert LinkOk(mem, chain, end, j);
    if i < j { Apart(mem, chain, start, end, i, j); } else { Apart(mem, chain, start, end, j, i); }
  }

  /** Splitting a block keeps the tiling. */
  lemma SplitTiles(mem: Memory, chain: seq<nat>, start: nat, end: nat, i: nat, want: nat)
    requires Tiles(mem, chain, start, end) && i < |chain| && chain[i] in mem
    requires 0 < want && want % ALIGN == 0 && want + HEADER < mem[chain[i]].size
    ensures Tiles(SplitMem(mem, chain[i], want), SplitChain(chain, i, want), start, end)
  {
    var r, more := SplitMem(mem, chain[i], want), SplitChain(chain, i, want);
    assert LinkOk(mem, chain, end, i);
    forall k | 0 <= k < |more| ensures LinkOk(r, more, end, k) {
      if k < i {
        assert LinkOk(mem, chain, end, k);
        SplitAddress(mem, chain, start, end, i, want, k);
      } else if k > i + 1 {
        assert LinkOk(mem, chain, end, k - 1);
        SplitAddress(mem, chain, start, end, i, want, k - 1);
      }
    }
  }

  /** Splitting a free block changes nothing that is in use. */
  lemma SplitLive(mem: Memory, chain: seq<nat>, start: nat, end: nat, i: nat, want: nat)
    requires Tiles(mem, chain, start, end) && i < |chain| && chain[i] in mem && mem[chain[i]].free
    requires want + HEADER < mem[chain[i]].size
    ensures Live(SplitMem(mem, chain[i], want), SplitChain(chain, i, want)) == Live(mem, chain)
  {
    var r, more := SplitMem(mem, chain[i], want), SplitChain(chain, i, want);
    forall j | 0 <= j < |chain| && j != i ensures chain[j] != chain[i] && chain[j] != chain[i] + HEADER + want {
      SplitAddress(mem, chain, start, end, i, want, j);
    }
    forall y ensures y in Live(r, more) <==> y in Live(mem, chain) {
      if y in Live(mem, chain) {
        var j :| 0 <= j < |chain| && chain[j] in mem && !mem[chain[j]].free && (chain[j], mem[chain[j]].size) == y;
        var k := if j < i then j else j + 1;
        assert more[k] == chain[j];
        assert more[k] in r && !r[more[k]].free && (more[k], r[more[k]].size) == y;
      }
      if y in Live(r, more) {
        var k :| 0 <= k < |more| && more[k] in r && !r[more[k]].free && (more[k], r[more[k]].size) == y;
        var j := if k < i then k else k - 1;
        assert more[k] == chain[j];
        assert chain[j] in mem && !mem[chain[j]].free && (chain[j], mem[chain[j]].size) == y;
      }
    }
  }

  /** Merging block `i` with its successor. */
  function JoinMem(mem: Memory, a: nat, b: nat): Memory
    requires a in mem && b in mem
  {
    mem[a := Header(mem[a].size + HEADER + mem[b].size, mem[b].next, mem[a].free)]
  }

  function JoinChain(chain: seq<nat>, i: nat): seq<nat>
    requires i + 1 < |chain|
  {
    chain[..i + 1] + chain[i + 2..]
  }

  lemma JoinTiles(mem: Memory, chain: seq<nat>, start: nat, end: nat, i: nat)
    requires Tiles(mem, chain, start, end) && i + 1 < |chain| && chain[i] in mem && chain[i + 1] in mem
    ensures Tiles(JoinMem(mem, chain[i], chain[i + 1]), JoinChain(chain, i), start, end)
  {
    var r, less := JoinMem(mem, chain[i], chain[i + 1]), JoinChain(chain, i);
    assert LinkOk(mem, chain, end, i) && LinkOk(mem, chain, end, i + 1);
    forall k | 0 <= k < |less| ensures LinkOk(r, less, end, k) {
      if k < i {
        assert LinkOk(mem, chain, end, k);
        Apart(mem, chain, start, end, k, i);
      } else if k > i {
        assert LinkOk(mem, chain, end, k + 1);
        Apart(mem, chain, start, end, i, k + 1);
      }
    }
  }

  lemma JoinLive(mem: Memory, chain: seq<nat>, start: nat, end: nat, i: nat)
    requires Tiles(mem, chain, start, end) && i + 1 < |chain| && chain[i] in mem && chain[i + 1] in mem
    requires mem[chain[i]].free && mem[chain[i + 1]].free
    ensures Live(JoinMem(mem, chain[i], chain[i + 1]), JoinChain(chain, i)) == Live(mem, chain)
  {
    var r, less := JoinMem(mem, chain[i], chain[i + 1]), JoinChain(chain, i);
    forall j | 0 <= j < |chain| && j != i ensures chain[j] != chain[i] {
      if i < j { Apart(mem, chain, start, end, i, j); } else { Apart(mem, chain, start, end, j, i); }
    }
    forall y ensures y in Live(r, less) <==> y in Live(mem, chain) {
      if y in Live(mem, chain) {
        var j :| 0 <= j < |chain| && chain[j] in mem && !mem[chain[j]].free && (chain[j], mem[chain[j]].size) == y;
        var k := if j < i then j else j - 1;
        assert less[k] == chain[j];
        assert less[k] in r && !r[less[k]].free && (less[k], r[less[k]].size) == y;
      }
      if y in Live(r, less) {
        var k :| 0 <= k < |less| && less[k] in r && !r[less[k]].free && (less[k], r[less[k]].size) == y;
        var j := if k <= i then k else k + 1;
        assert less[k] == chain[j];
        assert chain[j] in mem && !mem[chain[j]].free && (chain[j], mem[chain[j]].size) == y;
      }
    }
  }

  // --------------------------------------------------------------- the heap

  /** The size `kmalloc` looks for: rounded up so that split points stay aligned. */
  function Rounded(size: nat): (r: nat)
    ensures size <= r < size + ALIGN && r % ALIGN == 0
  {
    (size + 15) / 16 * 16
  }

  // ------------------------------------------------------------ calls on values

  datatype HeapState = HeapState(mem: Memory, chain: seq<nat>)

  /** The headers tile the window and no two neighbours are both free. */
  ghost predicate Good(s: HeapState, start: nat, end: nat) {
    Tiles(s.mem, s.chain, start, end) && Merged(s.mem, s.chain, |s.chain|)
  }

  function Fresh(start: nat, bytes: nat): HeapState
    requires bytes > HEADER
  {
    HeapState(map[start := Header(bytes - HEADER, 0, true)], [start])
  }

  predicate Fits(mem: Memory, a: nat, want: nat) { a in mem && mem[a].free && want <= mem[a].size }

  /** The first block from `from` on that is free and large enough. */
  function FirstFit(s: HeapState, want: nat, from: nat): (r: Option<nat>)
    ensures r.Some? ==> from <= r.value < |s.chain| && Fits(s.mem, s.chain[r.value], want)
    ensures r.Some? ==> forall j :: from <= j < r.value ==> !Fits(s.mem, s.chain[j], want)
    ensures r.None? ==> forall j :: from <= j < |s.chain| ==> !Fits(s.mem, s.chain[j], want)
    decreases |s.chain| - from
  {
    if from >= |s.chain| then None
    else if Fits(s.mem, s.chain[from], want) then Some(from)
    else FirstFit(s, want, from + 1)
  }

  /** Block `i` taken, and what is not needed cut off. */
  function Take(s: HeapState, i: nat, want: nat): HeapState
    requires i < |s.chain| && Fits(s.mem, s.chain[i], want)
  {
    var a := s.chain[i];
    var c := if s.mem[a].size > want + HEADER then HeapState(SplitMem(s.mem, a, want), SplitChain(s.chain, i, want))
        else s;
    c.(mem := c.mem[a := c.mem[a].(free := false)])
  }

  /** Neighbours merged from block `i` on. */
  function MergeFrom(s: HeapState, i: nat): HeapState
    decreases |s.chain| - i
  {
    if i + 1 >= |s.chain| || s.chain[i] !in s.mem || s.chain[i + 1] !in s.mem then s
    else if s.mem[s.chain[i]].free && s.mem[s.chain[i + 1]].free then
      MergeFrom(HeapState(JoinMem(s.mem, s.chain[i], s.chain[i + 1]), JoinChain(s.chain, i)), i)
    else MergeFrom(s, i + 1)
  }

  /** Every free block is smaller than `size`. */
  ghost predicate NoneHolds(mem: Memory, chain: seq<nat>, size: nat) {
    forall i :: 0 <= i < |chain| && chain[i] in mem && mem[chain[i]].free ==> mem[chain[i]].size < size
  }

  /** In a window of 64-bit addresses a request finds a block exactly when it is not for nothing and
      some free block holds that many bytes. */
  lemma NullMeans(s: HeapState, start: nat, end: nat, size: nat)
    requires Good(s, start, end) && end <= 0x1_0000_0000_0000_0000
    ensures Returned(s, size) == 0 <==> size == 0 || NoneHolds(s.mem, s.chain, size)
  {
    hide Merged;
    forall i | 0 <= i < |s.chain|
      ensures s.chain[i] in s.mem && s.mem[s.chain[i]].size + HEADER <= 0x1_0000_0000_0000_0000
      ensures Fits(s.mem, s.chain[i], Rounded(size)) <==> s.mem[s.chain[i]].free && size <= s.mem[s.chain[i]].size
    {
      assert LinkOk(s.mem, s.chain, end, i);
      BlockBelow(s.mem, s.chain, start, end, i);
      RoundedBelow(size, s.mem[s.chain[i]].size);
    }
  }

  lemma RoundedBelow(size: nat, n: nat)
    requires n % ALIGN == 0
    ensures Rounded(size) <= n <==> size <= n
  {
  }

  lemma {:induction false} BlockBelow(mem: Memory, chain: seq<nat>, start: nat, end: nat, i: nat)
    requires Tiles(mem, chain, start, end) && i < |chain|
    ensures chain[i] in mem && chain[i] + HEADER + mem[chain[i]].size <= end
    decreases |chain| - i
  {
    assert LinkOk(mem, chain, end, i);
    if i + 1 < |chain| { BlockBelow(mem, chain, start, end, i + 1); }
  }

  /** A block that was taken is not larger than what was asked for, up to what is too little for a
      block of its own. */
  lemma TakenSize(s: HeapState, i: nat, size: nat)
    requires i < |s.chain| && Fits(s.mem, s.chain[i], Rounded(size))
    ensures s.chain[i] in Take(s, i, Rounded(size)).mem
    ensures size <= Take(s, i, Rounded(size)).mem[s.chain[i]].size < size + ALIGN + HEADER
  {
  }

  datatype Call = Alloc(size: nat) | Release(ptr: nat)

  const TOO_LARGE: nat := 0xFFFF_FFFF_FFFF_FFFF - 15

  /** What an allocation returns: a payload address, or zero. */
  function Returned(s: HeapState, size: nat): nat {
    if size == 0 || size > TOO_LARGE then 0
    else match FirstFit(s, Rounded(size), 0) case None => 0 case Some(i) => s.chain[i] + HEADER
  }

  function Called(s: HeapState, call: Call): HeapState {
    match call
    case Alloc(size) =>
      if size == 0 || size > TOO_LARGE then s
      else (match FirstFit(s, Rounded(size), 0) case None => s case Some(i) => Take(s, i, Rounded(size)))
    case Release(ptr) =>
      if ptr < HEADER || ptr - HEADER !in s.mem || s.mem[ptr - HEADER].free then s
      else MergeFrom(s.(mem := s.mem[ptr - HEADER := s.mem[ptr - HEADER].(free := true)]), 0)
  }

  /** Only what was handed out is given back; giving it back again, even merged away, is allowed. */
  ghost predicate CallOk(s: HeapState, call: Call) {
    call.Release? && call.ptr != 0 ==>
      && call.ptr > HEADER && call.ptr - HEADER in s.mem
      && (s.mem[call.ptr - HEADER].free || (call.ptr - HEADER, s.mem[call.ptr - HEADER].size) in Live(s.mem, s.chain))
  }

  lemma TakeGood(s: HeapState, i: nat, want: nat, start: nat, end: nat)
    requires Good(s, start, end) && i < |s.chain| && Fits(s.mem, s.chain[i], want) && 0 < want && want % ALIGN == 0
    ensures var r, a := Take(s, i, want), s.chain[i];
            && Good(r, start, end) && a in r.mem && want <= r.mem[a].size <= s.mem[a].size
            && (r.mem[a].size != want ==> r.mem[a].size <= want + HEADER)
            && Live(r.mem, r.chain) == Live(s.mem, s.chain) + {(a, r.mem[a].size)}
            && forall y :: y in Live(s.mem, s.chain) ==> y.0 != a
  {
    hide LinkOk, Live;
    NotLive(s.mem, s.chain, start, end, i);
    var a := s.chain[i];
    var c := s;
    if s.mem[a].size > want + HEADER {
      SplitTiles(s.mem, s.chain, start, end, i, want);
      SplitLive(s.mem, s.chain, start, end, i, want);
      SplitMerged(s.mem, s.chain, start, end, i, want);
      c := HeapState(SplitMem(s.mem, a, want), SplitChain(s.chain, i, want));
    }
    FlagTiles(c.mem, c.chain, start, end, i, false);
    FlagLive(c.mem, c.chain, start, end, i, false);
    FlagMerged(c.mem, c.chain, i);
  }

  lemma {:induction false} MergeGood(s: HeapState, i: nat, start: nat, end: nat)
    requires Tiles(s.mem, s.chain, start, end) && Merged(s.mem, s.chain, i) && i < |s.chain|
    ensures var r := MergeFrom(s, i);
            && Good(r, start, end) && Live(r.mem, r.chain) == Live(s.mem, s.chain)
            && forall a :: a in s.mem ==> a in r.mem && r.mem[a].free == s.mem[a].free
    decreases |s.chain| - i
  {
    hide Live;
    if i + 1 < |s.chain| {
      assert LinkOk(s.mem, s.chain, end, i) && LinkOk(s.mem, s.chain, end, i + 1);
      if s.mem[s.chain[i]].free && s.mem[s.chain[i + 1]].free {
        JoinTiles(s.mem, s.chain, start, end, i);
        JoinLive(s.mem, s.chain, start, end, i);
        JoinMerged(s.mem, s.chain, start, end, i);
        MergeGood(HeapState(JoinMem(s.mem, s.chain[i], s.chain[i + 1]), JoinChain(s.chain, i)), i, start, end);
      } else {
        assert !BothFree(s.mem, s.chain, i);
        MergeGood(s, i + 1, start, end);
      }
    }
  }

  lemma ReleaseGood(s: HeapState, ptr: nat, start: nat, end: nat)
    requires Good(s, start, end) && CallOk(s, Release(ptr))
    ensures var r := Called(s, Release(ptr));
            && Good(r, start, end)
            && (ptr == 0 || s.mem[ptr - HEADER].free ==> r == s)
            && (ptr != 0 && !s.mem[ptr - HEADER].free ==>
                  Live(r.mem, r.chain) == Live(s.mem, s.chain) - {(ptr - HEADER, s.mem[ptr - HEADER].size)})
            && (ptr != 0 ==> ptr - HEADER in r.mem && r.mem[ptr - HEADER].free)
  {
    if ptr != 0 && !s.mem[ptr - HEADER].free {
      var block := ptr - HEADER;
      var i :| 0 <= i < |s.chain| && s.chain[i] in s.mem && (s.chain[i], s.mem[s.chain[i]].size)
          == (block, s.mem[block].size);
      FlagTiles(s.mem, s.chain, start, end, i, true);
      FlagLive(s.mem, s.chain, start, end, i, true);
      MergeGood(s.(mem := s.mem[block := s.mem[block].(free := true)]), 0, start, end);
    }
  }

  class KernelHeap {
    var mem: Memory
    var head: nat
    ghost var chain: seq<nat>
    ghost const start: nat
    ghost const end: nat

    ghost function State(): HeapState
      reads this
    {
      HeapState(mem, chain)
    }

    ghost predicate Valid()
      reads this
    {
      head == start && Good(State(), start, end)
    }

    /** A heap of one free block. */
    constructor (start: nat, bytes: nat)
      requires start > 0 && start % ALIGN == 0 && bytes > HEADER && bytes % ALIGN == 0
      ensures Valid() && this.start == start && end == start + bytes && Live(mem, chain) == {} && State()
          == Fresh(start, bytes)
    {
      head := start;
      this.start := start;
      end := start + bytes;
      mem := map[start := Header(bytes - HEADER, 0, true)];
      chain := [start];
      new;
      FreshGood(start, bytes);
    }

    /** Takes block `i` of the chain, cutting off what is not needed. */
    method TakeBlock(a: nat, want: nat, ghost i: nat)
      requires i < |chain| && chain[i] == a && Fits(mem, a, want)
      modifies this`mem, this`chain
      ensures State() == Take(old(State()), i, want)
    {
      if mem[a].size > want + HEADER {
        mem := mem[a + HEADER + want := Header(mem[a].size - want - HEADER, mem[a].next, true)][a := Header(want,
            a + HEADER + want, mem[a].free)];
        chain := SplitChain(chain, i, want);
      }
      mem := mem[a := mem[a].(free := false)];
    }

    /** The payload address of the first block that holds `size` bytes, or zero. */
    method Malloc(size: nat) returns (ptr: nat)
      requires Valid()
      modifies this`mem, this`chain
      ensures Valid() && State() == Called(old(State()), Alloc(size)) && ptr == Returned(old(State()), size)
      ensures ptr == 0 <==> size == 0 || size > TOO_LARGE || forall i ::
                0 <= i < |old(chain)| ==> !Fits(old(mem), old(chain)[i], Rounded(size))
      ensures end <= 0x1_0000_0000_0000_0000 ==>
                (ptr == 0 <==> size == 0 || NoneHolds(old(mem), old(chain), size))
      ensures ptr != 0 ==> ptr > HEADER && ptr % ALIGN == 0 && ptr - HEADER in mem && size <= mem[ptr - HEADER].size
      ensures ptr != 0 ==> mem[ptr - HEADER].size < size + ALIGN + HEADER
      ensures ptr != 0 ==> Live(mem, chain) == Live(old(mem), old(chain)) + {(ptr - HEADER, mem[ptr - HEADER].size)}
      ensures ptr != 0 ==> forall y :: y in Live(old(mem), old(chain)) ==> y.0 != ptr - HEADER
    {
      hide Live, NoneHolds;
      if end <= 0x1_0000_0000_0000_0000 { NullMeans(State(), start, end, size); }
      if size == 0 || size > TOO_LARGE { return 0; }
      var want := Rounded(size);
      Positive(mem, chain, start, end);
      var current := head;
      ghost var i := 0;
      while current != 0
        invariant 0 <= i <= |chain| && current == (if i < |chain| then chain[i] else 0)
        invariant Valid() && mem == old(mem) && chain == old(chain) && forall j :: 0 <= j < |chain| ==> chain[j] > 0
        invariant FirstFit(State(), want, i) == FirstFit(State(), want, 0)
        decreases |chain| - i
      {
        assert LinkOk(mem, chain, end, i);
        if mem[current].free && mem[current].size >= want {
          TakeGood(State(), i, want, start, end);
          TakenSize(State(), i, size);
          TakeBlock(current, want, i);
          return current + HEADER;
        }
        current := mem[current].next;
        i := i + 1;
      }
      return 0;
    }

    /** Merges every free block with the free block after it. */
    method Coalesce()
      requires head == start && Tiles(mem, chain, start, end)
      modifies this`mem, this`chain
      ensures Valid() && State() == MergeFrom(old(State()), 0)
    {
      hide Live;
      var current := head;
      ghost var i := 0;
      assert LinkOk(mem, chain, end, 0);
      MergeGood(State(), 0, start, end);
      while true
        invariant 0 <= i < |chain| && current == chain[i] && head == start && Tiles(mem, chain, start, end)
        invariant MergeFrom(State(), i) == MergeFrom(old(State()), 0)
        decreases |chain|, |chain| - i
      {
        assert LinkOk(mem, chain, end, i);
        var next := mem[current].next;
        if next == 0 { break; }
        assert LinkOk(mem, chain, end, i + 1);
        if mem[current].free && mem[next].free {
          if current + HEADER + mem[current].size == next {
            JoinTiles(mem, chain, start, end, i);
            mem := mem[current := Header(mem[current].size + HEADER + mem[next].size, mem[next].next,
                mem[current].free)];
            chain := JoinChain(chain, i);
            continue;
          }
        }
        current := next;
        i := i + 1;
      }
    }

    /** Frees a block in use. A block that is marked free is left alone, even if it was merged
        away since. */
    method Free(ptr: nat)
      requires Valid() && CallOk(State(), Release(ptr))
      modifies this`mem, this`chain
      ensures Valid() && State() == Called(old(State()), Release(ptr))
      ensures ptr == 0 || old(mem)[ptr - HEADER].free ==> State() == old(State())
      ensures ptr != 0 && !old(mem)[ptr - HEADER].free ==>
                Live(mem, chain) == Live(old(mem), old(chain)) - {(ptr - HEADER, old(mem)[ptr - HEADER].size)}
      ensures ptr != 0 ==> ptr - HEADER in mem && mem[ptr - HEADER].free
    {
      if ptr == 0 { return; }
      var block := ptr - HEADER;
      if mem[block].free { return; }
      ReleaseGood(State(), ptr, start, end);
      ghost var i :| 0 <= i < |chain| && chain[i] in mem && (chain[i], mem[chain[i]].size) == (block, mem[block].size);
      FlagTiles(mem, chain, start, end, i, true);
      mem := mem[block := mem[block].(free := true)];
      Coalesce();
    }
  }

  lemma FreshGood(start: nat, bytes: nat)
    requires start > 0 && start % ALIGN == 0 && bytes > HEADER && bytes % ALIGN == 0
    ensures var s := Fresh(start, bytes); Good(s, start, start + bytes) && Live(s.mem, s.chain) == {}
  {
    var s := Fresh(start, bytes);
    assert LinkOk(s.mem, s.chain, start + bytes, 0);
  }

  lemma NotLive(mem: Memory, chain: seq<nat>, start: nat, end: nat, i: nat)
    requires Tiles(mem, chain, start, end) && i < |chain| && chain[i] in mem && mem[chain[i]].free
    ensures forall y :: y in Live(mem, chain) ==> y.0 != chain[i]
  {
  }

  /** The block cut off is the only new free one, and its successor is in use. */
  lemma SplitMerged(mem: Memory, chain: seq<nat>, start: nat, end: nat, i: nat, want: nat)
    requires Tiles(mem, chain, start, end) && i < |chain| && chain[i] in mem && mem[chain[i]].free
    requires want + HEADER < mem[chain[i]].size
    requires Merged(mem, chain, |chain|)
    ensures forall k: nat :: k != i ==> !BothFree(SplitMem(mem, chain[i], want), SplitChain(chain, i, want), k)
  {
    var r, more := SplitMem(mem, chain[i], want), SplitChain(chain, i, want);
    forall j | 0 <= j < |chain| && j != i ensures chain[j] in mem && chain[j] != chain[i]
        && chain[j] != chain[i] + HEADER + want {
      assert LinkOk(mem, chain, end, j);
      SplitAddress(mem, chain, start, end, i, want, j);
    }
    forall k: nat | k != i ensures !BothFree(r, more, k) {
      if k < i {
        assert !BothFree(mem, chain, k);
      } else if k == i + 1 {
        assert !BothFree(mem, chain, i);
      } else {
        assert !BothFree(mem, chain, k - 1);
      }
    }
  }

  lemma FlagMerged(mem: Memory, chain: seq<nat>, i: nat)
    requires i < |chain| && chain[i] in mem
    requires forall k: nat :: k != i ==> !BothFree(mem, chain, k)
    ensures Merged(mem[chain[i] := mem[chain[i]].(free := false)], chain, |chain|)
  {
    var r := mem[chain[i] := mem[chain[i]].(free := false)];
    forall k: nat | k < |chain| ensures !BothFree(r, chain, k) {
      if k != i { assert !BothFree(mem, chain, k); }
    }
  }

  lemma JoinMerged(mem: Memory, chain: seq<nat>, start: nat, end: nat, i: nat)
    requires Tiles(mem, chain, start, end) && i + 1 < |chain| && chain[i] in mem && chain[i + 1] in mem
    requires Merged(mem, chain, i)
    ensures Merged(JoinMem(mem, chain[i], chain[i + 1]), JoinChain(chain, i), i)
  {
    var r, less := JoinMem(mem, chain[i], chain[i + 1]), JoinChain(chain, i);
    forall k: nat | k < i ensures !BothFree(r, less, k) { assert !BothFree(mem, chain, k); }
  }

  // -------------------------------------------------------------------- runs

  /** A run of calls on a heap that starts as one free block. */
  ghost predicate HeapRun(calls: seq<Call>, states: seq<HeapState>, start: nat, bytes: nat) {
    && start > 0 && start % ALIGN == 0 && bytes > HEADER && bytes % ALIGN == 0
    && |states| == |calls| + 1 && states[0] == Fresh(start, bytes)
    && forall k :: 0 <= k < |calls| ==> CallOk(states[k], calls[k]) && states[k + 1] == Called(states[k], calls[k])
  }

  /** The blocks that the first `n` calls handed out and did not take back, as a caller counts them. */
  ghost function Outstanding(calls: seq<Call>, states: seq<HeapState>, n: nat): set<nat>
    requires n <= |calls| < |states|
  {
    if n == 0 then {}
    else
      var rest := Outstanding(calls, states, n - 1);
      match calls[n - 1]
      case Alloc(size) => (var p := Returned(states[n - 1], size); if p < HEADER then rest else rest + {p - HEADER})
      case Release(ptr) => if ptr < HEADER then rest else rest - {ptr - HEADER}
  }

  /** The blocks in use. */
  ghost function InUse(s: HeapState): set<nat> { set x | x in Live(s.mem, s.chain) :: x.0 }

  lemma CallGood(s: HeapState, call: Call, start: nat, end: nat)
    requires Good(s, start, end) && CallOk(s, call)
    ensures Good(Called(s, call), start, end)
    ensures call.Release? ==> InUse(Called(s, call)) == if call.ptr < HEADER then InUse(s)
        else InUse(s) - {call.ptr - HEADER}
    ensures call.Alloc? ==>
              var p := Returned(s, call.size);
              if p == 0 then Called(s, call) == s
              else p > HEADER && p - HEADER !in InUse(s) && InUse(Called(s, call)) == InUse(s) + {p - HEADER}
  {
    hide Live, Take, MergeFrom;
    match call
    case Alloc(size) =>
      if size != 0 && size <= TOO_LARGE {
        var f := FirstFit(s, Rounded(size), 0);
        if f.Some? {
          Positive(s.mem, s.chain, start, end);
          TakeGood(s, f.value, Rounded(size), start, end);
        }
      }
    case Release(ptr) =>
      ReleaseGood(s, ptr, start, end);
      if ptr != 0 { OneLive(s, ptr - HEADER, start, end); }
  }

  /** A free block is not in use, and one in use is so with one size. */
  lemma OneLive(s: HeapState, a: nat, start: nat, end: nat)
    requires Tiles(s.mem, s.chain, start, end) && a in s.mem
    ensures s.mem[a].free ==> a !in InUse(s)
    ensures InUse(s) - {a} == set x | x in Live(s.mem, s.chain) - {(a, s.mem[a].size)} :: x.0
  {
    forall x | x in Live(s.mem, s.chain) ensures x.0 in s.mem && !s.mem[x.0].free && x.1 == s.mem[x.0].size { }
  }

  /** At every point of every run the headers tile the window, no two neighbours are free, and the
      blocks in use are those the caller has. */
  lemma {:induction false} RunLive(calls: seq<Call>, states: seq<HeapState>, start: nat, bytes: nat, n: nat)
    requires HeapRun(calls, states, start, bytes) && n < |states|
    ensures Good(states[n], start, start + bytes) && InUse(states[n]) == Outstanding(calls, states, n)
    decreases n
  {
    hide Good, InUse, Called, CallOk, Returned, Fresh;
    if n == 0 {
      FreshGood(start, bytes);
      NothingUsed(start, bytes);
    } else {
      RunLive(calls, states, start, bytes, n - 1);
      CallGood(states[n - 1], calls[n - 1], start, start + bytes);
    }
  }

  lemma NothingUsed(start: nat, bytes: nat)
    requires start > 0 && start % ALIGN == 0 && bytes > HEADER && bytes % ALIGN == 0
    ensures InUse(Fresh(start, bytes)) == {}
  {
    FreshGood(start, bytes);
  }

  /** Once the caller has given back everything, in whatever order, the heap is the single free
      block it started as. */
  lemma RunRestores(calls: seq<Call>, states: seq<HeapState>, start: nat, bytes: nat)
    requires HeapRun(calls, states, start, bytes) && Outstanding(calls, states, |calls|) == {}
    ensures states[|calls|].chain == [start] && start in states[|calls|].mem
    ensures states[|calls|].mem[start] == Header(bytes - HEADER, 0, true)
  {
    hide Called, CallOk, Returned;
    RunLive(calls, states, start, bytes, |calls|);
    var s := states[|calls|];
    assert forall x :: x in Live(s.mem, s.chain) ==> x.0 in InUse(s);
    AllFreed(s.mem, s.chain, start, start + bytes);
  }
}
