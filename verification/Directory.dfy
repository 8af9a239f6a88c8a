/** Linear directories: chains of records that tile a block, and how an entry is added. */
module Directory {
  import opened Bytes

  const NAME_LEN: nat := 255
  const FT_FILE: nat := 1
  const FT_DIR: nat := 2

  /** A link: a name, the inode it stands for and the type byte beside it. */
  datatype Link = Link(name: Buffer, ino: nat, kind: nat)

  function KindOf(isDir: bool): nat { if isDir then FT_DIR else FT_FILE }

  function RoundDirSize(n: nat): (r: nat)
    ensures r >= 8 + n && r < 8 + n + 4 && r % 4 == 0
  {
    8 + (n + 3) / 4 * 4
  }

  // -------------------------------------------------------------- records

  function RecLen(b: Buffer, pos: nat): nat
    requires pos + 8 <= |b|
  {
    Le16(b, pos + 4)
  }

  function RecIno(b: Buffer, pos: nat): nat
    requires pos + 8 <= |b|
  {
    Le32(b, pos)
  }

  function NameLen(b: Buffer, pos: nat): nat
    requires pos + 8 <= |b|
  {
    b[pos + 6]
  }

  /** A record that ends by `to` and whose name, if it has one, fits. */
  predicate RecordOk(b: Buffer, pos: nat, to: nat)
    requires to <= |b|
  {
    && pos + 8 <= to && 8 <= RecLen(b, pos) && RecLen(b, pos) % 4 == 0 && pos + RecLen(b, pos) <= to
    && (RecIno(b, pos) != 0 ==> 8 + NameLen(b, pos) <= RecLen(b, pos))
  }

  /** The links of one record: none if it is unused. */
  function RecordLinks(b: Buffer, pos: nat): (ls: seq<Link>)
    requires pos + 8 <= |b| && (RecIno(b, pos) != 0 ==> pos + 8 + NameLen(b, pos) <= |b|)
  {
    if RecIno(b, pos) == 0 then [] else [Link(b[pos + 8..pos + 8 + NameLen(b, pos)], RecIno(b, pos), b[pos + 7])]
  }

  /** Records tile the bytes from `from` to `to`. */
  predicate Tiled(b: Buffer, from: nat, to: nat)
    requires to <= |b|
    decreases if from < to then to - from else 0
  {
    from == to || (RecordOk(b, from, to) && Tiled(b, from + RecLen(b, from), to))
  }

  /** The links of the records from `from` to `to`, in order. */
  function Links(b: Buffer, from: nat, to: nat): (ls: seq<Link>)
    requires to <= |b| && Tiled(b, from, to)
    decreases if from < to then to - from else 0
  {
    if from == to then [] else RecordLinks(b, from) + Links(b, from + RecLen(b, from), to)
  }

  lemma TiledBounds(b: Buffer, from: nat, to: nat)
    requires to <= |b| && Tiled(b, from, to)
    ensures from <= to
  {
  }

  lemma {:induction false} TiledJoin(b: Buffer, from: nat, mid: nat, to: nat)
    requires mid <= to <= |b| && Tiled(b, from, mid) && Tiled(b, mid, to)
    ensures Tiled(b, from, to) && Links(b, from, to) == Links(b, from, mid) + Links(b, mid, to)
    decreases if from < mid then mid - from else 0
  {
    hide RecordLinks, RecIno, NameLen;
    TiledBounds(b, from, mid);
    if from < mid {
      var next := from + RecLen(b, from);
      TiledJoin(b, next, mid, to);
      assert Links(b, from, mid) == RecordLinks(b, from) + Links(b, next, mid);
      assert Links(b, from, to) == RecordLinks(b, from) + Links(b, next, to);
    } else {
      assert Links(b, from, mid) == [];
    }
  }

  lemma RecordFrame(b: Buffer, c: Buffer, pos: nat, to: nat)
    requires |b| == |c| && to <= |b| && RecordOk(b, pos, to)
    requires forall k :: pos <= k < pos + RecLen(b, pos) ==> c[k] == b[k]
    ensures RecordOk(c, pos, to) && RecLen(c, pos) == RecLen(b, pos) && RecordLinks(c, pos) == RecordLinks(b, pos)
  {
    Le16Same(b, c, pos + 4);
    Le32Same(b, c, pos);
    if RecIno(b, pos) != 0 {
      assert c[pos + 8..pos + 8 + NameLen(b, pos)] == b[pos + 8..pos + 8 + NameLen(b, pos)];
    }
  }

  lemma {:induction false} TiledFrame(b: Buffer, c: Buffer, from: nat, to: nat)
    requires |b| == |c| && to <= |b| && Tiled(b, from, to)
    requires forall k :: from <= k < to ==> c[k] == b[k]
    ensures Tiled(c, from, to) && Links(c, from, to) == Links(b, from, to)
    decreases if from < to then to - from else 0
  {
    TiledBounds(b, from, to);
    if from < to {
      RecordFrame(b, c, from, to);
      TiledFrame(b, c, from + RecLen(b, from), to);
    }
  }

  lemma TiledOne(b: Buffer, pos: nat)
    requires pos + 8 <= |b| && pos + RecLen(b, pos) <= |b| && RecordOk(b, pos, pos + RecLen(b, pos))
    ensures Tiled(b, pos, pos + RecLen(b, pos))
    ensures Links(b, pos, pos + RecLen(b, pos)) == RecordLinks(b, pos)
  {
    var to := pos + RecLen(b, pos);
    assert Tiled(b, to, to) && Links(b, to, to) == [];
  }

  // --------------------------------------------------------------- lookup

  /** The inode of the first link with a name. */
  function Find(ls: seq<Link>, name: Buffer): Option<nat> {
    if ls == [] then None else if ls[0].name == name then Some(ls[0].ino) else Find(ls[1..], name)
  }

  lemma {:induction false} FindConcat(a: seq<Link>, b: seq<Link>, name: Buffer)
    ensures Find(a + b, name) == if Find(a, name).Some? then Find(a, name) else Find(b, name)
  {
    if a == [] {
      assert a + b == b;
    } else {
      assert (a + b)[1..] == a[1..] + b;
      FindConcat(a[1..], b, name);
    }
  }

  lemma LookupStep(b: Buffer, pos: nat, limit: nat, name: Buffer)
    requires limit <= |b| && Tiled(b, pos, limit) && pos < limit
    ensures var next := pos + RecLen(b, pos);
            Find(Links(b, pos, limit), name)
            == if RecIno(b, pos) != 0 && b[pos + 8..pos + 8 + NameLen(b, pos)] == name then Some(RecIno(b, pos))
               else Find(Links(b, next, limit), name)
  {
    FindConcat(RecordLinks(b, pos), Links(b, pos + RecLen(b, pos), limit), name);
    if RecIno(b, pos) != 0 { FindSingle(RecordLinks(b, pos)[0], name); }
  }

  /** Searches one directory block. */
  method BlockLookup(b: Buffer, limit: nat, name: Buffer) returns (r: Option<nat>)
    requires limit <= |b| && Tiled(b, 0, limit)
    ensures r == Find(Links(b, 0, limit), name)
  {
    hide Links, RecLen, RecIno, NameLen;
    var pos: nat := 0;
    EmptyTile(b, limit);
    while pos + 8 <= limit
      invariant 0 <= pos <= limit && Tiled(b, pos, limit)
      invariant Find(Links(b, pos, limit), name) == Find(Links(b, 0, limit), name)
      decreases limit - pos
    {
      var rec := RecLen(b, pos);
      if rec == 0 { break; }
      var ino := RecIno(b, pos);
      var len := NameLen(b, pos);
      LookupStep(b, pos, limit, name);
      if ino != 0 && len == |name| {
        if b[pos + 8..pos + 8 + len] == name { return Some(ino); }
      }
      pos := pos + rec;
    }
    return None;
  }

  // ------------------------------------------------------ adding an entry

  /** `more` is `ls` with `x` put in at one place. */
  ghost predicate Grown(ls: seq<Link>, more: seq<Link>, x: Link) {
    exists i :: 0 <= i <= |ls| && more == ls[..i] + [x] + ls[i..]
  }

  lemma GrownAt(a: seq<Link>, z: seq<Link>, x: Link)
    ensures Grown(a + z, a + [x] + z, x)
  {
    assert (a + z)[..|a|] == a && (a + z)[|a|..] == z;
  }

  lemma GrownWithin(a: seq<Link>, ls: seq<Link>, more: seq<Link>, z: seq<Link>, x: Link)
    requires Grown(ls, more, x)
    ensures Grown(a + ls + z, a + more + z, x)
  {
    var i :| 0 <= i <= |ls| && more == ls[..i] + [x] + ls[i..];
    GrownAt(a + ls[..i], ls[i..] + z, x);
    assert a + ls[..i] + (ls[i..] + z) == a + ls + z;
    assert a + ls[..i] + [x] + (ls[i..] + z) == a + more + z;
  }

  /** A new name is found afterwards, and every other name as before. */
  lemma GrownFind(ls: seq<Link>, more: seq<Link>, x: Link, name: Buffer)
    requires Grown(ls, more, x) && Find(ls, x.name).None?
    ensures Find(more, name) == if name == x.name then Some(x.ino) else Find(ls, name)
  {
    var i :| 0 <= i <= |ls| && more == ls[..i] + [x] + ls[i..];
    assert ls == ls[..i] + ls[i..];
    FindConcat(ls[..i], ls[i..], name);
    FindConcat(ls[..i] + [x], ls[i..], name);
    FindConcat(ls[..i], [x], name);
    FindSingle(x, name);
  }

  lemma FindSingle(x: Link, name: Buffer)
    ensures Find([x], name) == if x.name == name then Some(x.ino) else None
  {
    assert [x][1..] == [];
  }

  /** Replacing the records of a stretch replaces their links. */
  lemma Replaced(b: Buffer, c: Buffer, p: nat, q: nat, limit: nat)
    requires |b| == |c| && p <= q <= limit <= |b| && Tiled(b, 0, p) && Tiled(b, p, q) && Tiled(b, q, limit)
    requires Tiled(c, p, q)
    requires forall k :: 0 <= k < limit && !(p <= k < q) ==> c[k] == b[k]
    ensures Tiled(b, 0, limit) && Tiled(c, 0, limit)
    ensures Links(b, 0, limit) == Links(b, 0, p) + Links(b, p, q) + Links(b, q, limit)
    ensures Links(c, 0, limit) == Links(b, 0, p) + Links(c, p, q) + Links(b, q, limit)
  {
    hide Links, Tiled;
    TiledFrame(b, c, 0, p);
    TiledFrame(b, c, q, limit);
    TiledJoin(b, 0, p, q);
    TiledJoin(b, 0, q, limit);
    TiledJoin(c, 0, p, q);
    TiledJoin(c, 0, q, limit);
  }

  /** Writes a whole record. */
  method FillEntry(b: Buffer, pos: nat, rec: nat, ino: nat, ft: nat, name: Buffer) returns (c: Buffer)
    requires pos + 8 + |name| <= |b| && rec < U16 && ino < U32 && ft < 0x100 && |name| <= NAME_LEN
    ensures |c| == |b| && RecLen(c, pos) == rec && RecIno(c, pos) == ino && NameLen(c, pos) == |name| && c[pos + 7]
        == ft
    ensures c[pos + 8..pos + 8 + |name|] == name
    ensures forall k :: 0 <= k < |b| && !(pos <= k < pos + 8 + |name|) ==> c[k] == b[k]
  {
    hide Le16, Le32;
    var b1 := PutLe32(b, pos, ino);
    var b2 := PutLe16(b1, pos + 4, rec);
    var b3: Buffer := b2[pos + 6 := |name|][pos + 7 := ft];
    c := Splice(b3, pos + 8, name);
    Le32Same(b1, c, pos);
    Le16Same(b2, c, pos + 4);
  }

  lemma FilledTile(c: Buffer, pos: nat, name: Buffer)
    requires pos + 8 <= |c| && pos + RecLen(c, pos) <= |c| && NameLen(c, pos) == |name| && RecIno(c, pos) != 0
    requires RecLen(c, pos) % 4 == 0 && 8 + |name| <= RecLen(c, pos) && c[pos + 8..pos + 8 + |name|] == name
    ensures Tiled(c, pos, pos + RecLen(c, pos)) && Links(c, pos, pos + RecLen(c, pos))
        == [Link(name, RecIno(c, pos), c[pos + 7])]
  {
    TiledOne(c, pos);
  }

  /** What adding an entry to a block does to the block. */
  ghost predicate EntryAdded(b: Buffer, c: Buffer, limit: nat, x: Link)
    requires limit <= |b| && Tiled(b, 0, limit)
  {
    && |c| == |b| && Tiled(c, 0, limit) && Grown(Links(b, 0, limit), Links(c, 0, limit), x)
    && forall k :: limit <= k < |b| ==> c[k] == b[k]
  }

  /** Reuses an unused record. */
  method FillHole(b: Buffer, limit: nat, pos: nat, ino: nat, ft: nat, name: Buffer) returns (c: Buffer)
    requires pos + 8 <= limit <= |b| && Tiled(b, 0, limit) && Tiled(b, 0, pos) && Tiled(b, pos, limit)
    requires RecIno(b, pos) == 0 && RoundDirSize(|name|) <= RecLen(b, pos)
    requires 0 < ino < U32 && ft < 0x100 && |name| <= NAME_LEN
    ensures EntryAdded(b, c, limit, Link(name, ino, ft))
  {
    hide RecLen, RecIno, NameLen, Links, Grown, RecordLinks;
    var rec := RecLen(b, pos);
    RecordBound(b, pos);
    c := FillEntry(b, pos, rec, ino, ft, name);
    TiledOne(b, pos);
    FilledTile(c, pos, name);
    Replaced(b, c, pos, pos + rec, limit);
    HoleLinks(b, pos);
    GrownAt(Links(b, 0, pos), Links(b, pos + rec, limit), Link(name, ino, ft));
    assert Links(b, 0, pos) + [] + Links(b, pos + rec, limit) == Links(b, 0, pos) + Links(b, pos + rec, limit);
  }

  lemma RecordBound(b: Buffer, pos: nat)
    requires pos + 8 <= |b|
    ensures RecLen(b, pos) < U16
  {
  }

  lemma HoleLinks(b: Buffer, pos: nat)
    requires pos + 8 <= |b| && RecIno(b, pos) == 0
    ensures RecordLinks(b, pos) == []
  {
  }

  /** The unused end of a record. */
  function Slack(b: Buffer, pos: nat): (room: int)
    requires pos + 8 <= |b|
    ensures RecIno(b, pos) == 0 ==> room == RecLen(b, pos)
    ensures RecIno(b, pos) != 0 ==>
              && (RecLen(b, pos) - room) % 4 == 0
              && 8 + NameLen(b, pos) + room <= RecLen(b, pos) < 8 + NameLen(b, pos) + room + 4
  {
    RecLen(b, pos) - if RecIno(b, pos) == 0 then 0 else RoundDirSize(NameLen(b, pos))
  }

  /** The block has an unused record of `needed` bytes, or that much at the end of its last. */
  predicate Roomy(b: Buffer, from: nat, to: nat, needed: nat)
    requires to <= |b| && Tiled(b, from, to)
    decreases if from < to then to - from else 0
  {
    from < to &&
    var next := from + RecLen(b, from);
    || (RecIno(b, from) == 0 && needed <= RecLen(b, from))
    || (if next == to then needed <= Slack(b, from) else Roomy(b, next, to, needed))
  }

  /** Cuts the last record down to what its name takes. */
  method CutRecord(b: Buffer, limit: nat, pos: nat, actual: nat) returns (c: Buffer)
    requires pos + 8 <= limit <= |b| && pos + RecLen(b, pos) == limit && RecordOk(b, pos, limit) && RecIno(b, pos) != 0
    requires actual == RoundDirSize(NameLen(b, pos)) < RecLen(b, pos)
    ensures |c| == |b| && Tiled(c, pos, pos + actual) && Links(c, pos, pos + actual) == RecordLinks(b, pos)
    ensures forall k :: 0 <= k < |b| && !(pos + 4 <= k < pos + 6) ==> c[k] == b[k]
  {
    RecordBound(b, pos);
    c := PutLe16(b, pos + 4, actual);
    Le32Same(b, c, pos);
    assert c[pos + 8..pos + 8 + NameLen(b, pos)] == b[pos + 8..pos + 8 + NameLen(b, pos)];
    TiledOne(c, pos);
  }

  /** Splits the last record of a block. */
  method SplitSlack(b: Buffer, limit: nat, pos: nat, ino: nat, ft: nat, name: Buffer) returns (c: Buffer)
    requires pos + 8 <= limit <= |b| && Tiled(b, 0, limit) && Tiled(b, 0, pos) && Tiled(b, pos, limit)
    requires pos + RecLen(b, pos) == limit
    requires RecIno(b, pos) != 0 && RoundDirSize(|name|) <= Slack(b, pos)
    requires 0 < ino < U32 && ft < 0x100 && |name| <= NAME_LEN
    ensures EntryAdded(b, c, limit, Link(name, ino, ft))
  {
    hide RecLen, RecIno, NameLen, Grown, RecordLinks, Links;
    RecordBound(b, pos);
    var actual := RoundDirSize(NameLen(b, pos));
    var cut := CutRecord(b, limit, pos, actual);
    c := FillEntry(cut, pos + actual, RecLen(b, pos) - actual, ino, ft, name);
    FilledTile(c, pos + actual, name);
    TiledFrame(cut, c, pos, pos + actual);
    TiledJoin(c, pos, pos + actual, limit);
    TiledOne(b, pos);
    EmptyTile(b, limit);
    Replaced(b, c, pos, limit, limit);
    AtEnd(Links(b, 0, pos), Links(b, pos, limit), Link(name, ino, ft));
  }

  lemma EmptyTile(b: Buffer, limit: nat)
    requires limit <= |b|
    ensures Tiled(b, limit, limit) && Links(b, limit, limit) == []
  {
  }

  lemma AtEnd(a: seq<Link>, ls: seq<Link>, x: Link)
    ensures Grown(a + ls + [], a + (ls + [x]) + [], x)
  {
    GrownAt(a + ls, [], x);
    assert a + (ls + [x]) + [] == a + ls + [x] + [];
  }

  lemma RoomyStep(b: Buffer, pos: nat, limit: nat, needed: nat)
    requires limit <= |b| && Tiled(b, pos, limit) && pos < limit && !(RecIno(b, pos) == 0 && needed <= RecLen(b, pos))
    ensures var next := pos + RecLen(b, pos);
            Roomy(b, pos, limit, needed) == if next == limit then needed <= Slack(b, pos)
                else Roomy(b, next, limit, needed)
  {
  }

  /** Adds an entry to a block that has room for it. */
  method BlockInsert(b: Buffer, limit: nat, ino: nat, ft: nat, name: Buffer) returns (done: bool, c: Buffer)
    requires 0 < limit <= |b| && Tiled(b, 0, limit)
    requires 0 < ino < U32 && ft < 0x100 && 0 < |name| <= NAME_LEN
    ensures done <==> Roomy(b, 0, limit, RoundDirSize(|name|))
    ensures if done then EntryAdded(b, c, limit, Link(name, ino, ft)) else c == b
  {
    hide RecLen, RecIno, NameLen, Links, Grown, Roomy;
    var needed := RoundDirSize(|name|);
    var pos: nat, last: nat := 0, 0;
    EmptyTile(b, 0);
    EmptyTile(b, limit);
    while pos + 8 <= limit
      invariant 0 <= pos <= limit && Tiled(b, 0, pos) && Tiled(b, pos, limit)
      invariant pos < limit ==> Roomy(b, 0, limit, needed) == Roomy(b, pos, limit, needed)
      invariant pos == limit ==>
                  && last + 8 <= limit && Tiled(b, 0, last) && Tiled(b, last, limit) && last + RecLen(b, last) == limit
                  && (RecIno(b, last) == 0 ==> RecLen(b, last) < needed)
                  && Roomy(b, 0, limit, needed) == (needed <= Slack(b, last))
      decreases limit - pos
    {
      var rec := RecLen(b, pos);
      if rec == 0 { break; }
      if RecIno(b, pos) == 0 && rec >= needed {
        c := FillHole(b, limit, pos, ino, ft, name);
        RoomyHole(b, pos, limit, needed);
        return true, c;
      }
      RoomyStep(b, pos, limit, needed);
      TiledOne(b, pos);
      TiledJoin(b, 0, pos, pos + rec);
      last := pos;
      pos := pos + rec;
    }
    if Slack(b, last) >= needed {
      c := SplitSlack(b, limit, last, ino, ft, name);
      return true, c;
    }
    return false, b;
  }

  lemma RoomyHole(b: Buffer, pos: nat, limit: nat, needed: nat)
    requires limit <= |b| && Tiled(b, pos, limit) && pos < limit && RecIno(b, pos) == 0 && needed <= RecLen(b, pos)
    ensures Roomy(b, pos, limit, needed)
  {
  }
}
