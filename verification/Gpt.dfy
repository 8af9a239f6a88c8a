/** The GPT reader: the header's checks, the scan of the entry array sector by sector with its
    running checksum, and the table kept for each disk. */
module Gpt {
  import opened Arith
  import opened Bytes
  import opened Crc

  const MAX_PARTITIONS: nat := 16
  const SIGNATURE: Buffer := [0x45, 0x46, 0x49, 0x20, 0x50, 0x41, 0x52, 0x54]

  /** The sectors of a disk that can be read. */
  type Sectors = map<nat, Buffer>

  predicate SectorsOk(d: Sectors) { forall l :: l in d ==> |d[l]| == 512 }

  datatype Partition = Partition(disk: nat, first: nat, last: nat, kind: Buffer, guid: Buffer, name: Buffer)

  datatype Table = Table(parsed: bool, count: nat, entriesLba: nat, numEntries: nat, entrySize: nat,
      parts: seq<Partition>)

  function NoPartition(disk: nat): Partition { Partition(disk, 0, 0, Zeros(16), Zeros(16), Zeros(72)) }

  // ------------------------------------------------------------ checksums

  function Ones(): Word { WordOf(0xFFFF_FFFF) }

  /** The checksum of UEFI section 5.3: seeded with ones and inverted at the end. */
  function GptCrc(b: Buffer): nat { NumberOf(Xor(Serial(WordOf(POLY_CRC32), Ones(), b), Ones())) }

  // ----------------------------------------------------------- the header

  predicate Signed(h: Buffer)
    requires |h| == 512
  {
    h[..8] == SIGNATURE
  }

  function NumEntries(h: Buffer): nat requires |h| == 512 { Le32(h, 80) }
  function EntrySize(h: Buffer): nat requires |h| == 512 { Le32(h, 84) }
  function EntriesLba(h: Buffer): nat requires |h| == 512 { Le64(h, 72) }

  /** The counts that the header must have for its checksum to be looked at. */
  predicate Plausible(h: Buffer)
    requires |h| == 512
  {
    Signed(h) && 92 <= Le32(h, 12) && NumEntries(h) != 0 && EntrySize(h) >= 128
  }

  /** A header whose stated size does not fit its sector stops the kernel. */
  predicate Overrun(h: Buffer)
    requires |h| == 512
  {
    Plausible(h) && Le32(h, 12) > 512
  }

  predicate HeaderOk(h: Buffer)
    requires |h| == 512
  {
    && Plausible(h) && Le32(h, 12) <= 512
    && GptCrc(Splice(h, 16, Zeros(4))[..Le32(h, 12)]) == Le32(h, 16)
    && EntrySize(h) in {128, 256, 512}
  }

  // ------------------------------------------------------ the entry array

  /** Sectors `lba` to `lba + n` of the disk in a row; one that cannot be read counts as zero. */
  function Region(d: Sectors, lba: nat, n: nat): (r: Buffer)
    requires SectorsOk(d)
    ensures |r| == 512 * n
  {
    if n == 0 then [] else Region(d, lba, n - 1) + if lba + n - 1 in d then d[lba + n - 1] else Zeros(512)
  }

  predicate Readable(d: Sectors, lba: nat, n: nat) { forall l :: lba <= l < lba + n ==> l in d }

  lemma {:induction false} RegionSector(d: Sectors, lba: nat, n: nat, s: nat)
    requires SectorsOk(d) && s < n && lba + s in d
    ensures Region(d, lba, n)[512 * s..512 * s + 512] == d[lba + s]
  {
    if s < n - 1 {
      RegionSector(d, lba, n - 1, s);
      assert Region(d, lba, n)[512 * s..512 * s + 512] == Region(d, lba, n - 1)[512 * s..512 * s + 512];
    }
  }

  /** The sectors that hold `bytes` bytes. */
  function SectorsFor(bytes: nat): (n: nat)
    ensures 512 * n >= bytes && (n > 0 ==> 512 * (n - 1) < bytes)
  {
    (bytes + 511) / 512
  }

  /** Entry `i` of an array of entries. */
  function Entry(a: Buffer, size: nat, i: nat): (e: Buffer)
    requires Times(i, size) + size <= |a|
    ensures |e| == size
  {
    a[Times(i, size)..Times(i, size) + size]
  }

  predicate InUse(e: Buffer)
    requires |e| >= 128
  {
    (exists k :: 0 <= k < 16 && e[k] != 0) && Le64(e, 32) != 0 && Le64(e, 32) <= Le64(e, 40)
  }

  function Described(disk: nat, e: Buffer): Partition
    requires |e| >= 128
  {
    Partition(disk, Le64(e, 32), Le64(e, 40), e[..16], e[16..32], e[56..128])
  }

  /** Eight bytes as a number, the first of them lowest. */
  function Digits(e: Buffer, at: nat): nat
    requires at + 8 <= |e|
  {
    var d := seq<int>(8, i requires 0 <= i < 8 => e[at + i]);
    d[0] + 0x100 * (d[1] + 0x100 * (d[2] + 0x100 * (d[3] + 0x100 * (d[4] + 0x100 * (d[5] + 0x100 * (d[6]
      + 0x100 * d[7]))))))
  }

  /** The fields of a kept partition, byte by byte. */
  lemma DescribedBytes(disk: nat, e: Buffer, k: nat)
    requires |e| >= 128
    ensures var p := Described(disk, e);
            && p.disk == disk && |p.kind| == 16 && |p.guid| == 16 && |p.name| == 72
            && (k < 16 ==> p.kind[k] == e[k] && p.guid[k] == e[16 + k]) && (k < 72 ==> p.name[k] == e[56 + k])
            && p.first == Digits(e, 32) && p.last == Digits(e, 40)
  {
    assert e[16..32][if k < 16 then k else 0] == e[16 + if k < 16 then k else 0];
  }

  /** The partitions that the first `n` entries describe, in order. */
  function Listed(disk: nat, a: Buffer, size: nat, n: nat): seq<Partition>
    requires size >= 128 && Times(n, size) <= |a|
  {
    if n == 0 then []
    else Listed(disk, a, size, n - 1) + if InUse(Entry(a, size, n - 1)) then [Described(disk, Entry(a, size, n - 1))]
        else []
  }

  /** Every entry in use is listed, at the place its rank among those in use gives it. */
  lemma {:induction false} ListedRank(disk: nat, a: Buffer, size: nat, n: nat, i: nat)
    requires size >= 128 && Times(n, size) <= |a| && i < n
    ensures Times(i, size) + size <= |a|
    ensures InUse(Entry(a, size, i)) ==>
              && |Listed(disk, a, size, i)| < |Listed(disk, a, size, n)|
              && Listed(disk, a, size, n)[|Listed(disk, a, size, i)|] == Described(disk, Entry(a, size, i))
  {
    if i < n - 1 { ListedRank(disk, a, size, n - 1, i); }
  }

  /** ... and nothing else is. */
  lemma {:induction false} ListedOnly(disk: nat, a: Buffer, size: nat, n: nat, k: nat) returns (i: nat)
    requires size >= 128 && Times(n, size) <= |a| && k < |Listed(disk, a, size, n)|
    ensures i < n && Times(i, size) + size <= |a| && InUse(Entry(a, size, i)) && |Listed(disk, a, size, i)| == k
  {
    if k < |Listed(disk, a, size, n - 1)| { i := ListedOnly(disk, a, size, n - 1, k); } else { i := n - 1; }
  }

  /** Every partition listed has a type and covers at least one sector after the first. */
  lemma {:induction false} ListedSane(disk: nat, a: Buffer, size: nat, n: nat, k: nat)
    requires size >= 128 && Times(n, size) <= |a| && k < |Listed(disk, a, size, n)|
    ensures var p := Listed(disk, a, size, n)[k];
            0 < p.first <= p.last && |p.kind| == 16 && exists j :: 0 <= j < 16 && p.kind[j] != 0
  {
    if k < |Listed(disk, a, size, n - 1)| {
      ListedSane(disk, a, size, n - 1, k);
    } else {
      var e := Entry(a, size, n - 1);
      var j :| 0 <= j < 16 && e[j] != 0;
      DescribedBytes(disk, e, j);
      assert Described(disk, e).kind[j] != 0;
    }
  }

  function Kept(ps: seq<Partition>): (r: seq<Partition>)
    ensures |r| == Min(|ps|, MAX_PARTITIONS)
  {
    ps[..Min(|ps|, MAX_PARTITIONS)]
  }

  function EntryArray(d: Sectors, h: Buffer): (a: Buffer)
    requires SectorsOk(d) && |h| == 512
    ensures |a| == Times(NumEntries(h), EntrySize(h))
  {
    var bytes := Times(NumEntries(h), EntrySize(h));
    Region(d, EntriesLba(h), SectorsFor(bytes))[..bytes]
  }

  /** The disk carries a valid table: what UEFI section 5.3 asks of header and entry array. */
  predicate TableValid(d: Sectors)
    requires SectorsOk(d)
  {
    && 1 in d && HeaderOk(d[1])
    && Readable(d, EntriesLba(d[1]), SectorsFor(Times(NumEntries(d[1]), EntrySize(d[1]))))
    && GptCrc(EntryArray(d, d[1])) == Le32(d[1], 88)
  }

  /** The parts array of a table: the partitions found, then empty slots. */
  predicate Slots(parts: seq<Partition>, ps: seq<Partition>, disk: nat) {
    && |parts| == MAX_PARTITIONS && |ps| <= MAX_PARTITIONS && parts[..|ps|] == ps
    && forall k :: |ps| <= k < MAX_PARTITIONS ==> parts[k] == NoPartition(disk)
  }

  /** After `i` entries of the array `a`, the first partitions they describe fill `count` slots. */
  predicate Gathered(parts: seq<Partition>, count: nat, disk: nat, a: Buffer, size: nat, i: nat)
    requires size >= 128 && Times(i, size) <= |a|
  {
    Slots(parts, Kept(Listed(disk, a, size, i)), disk) && count == |Kept(Listed(disk, a, size, i))|
  }

  // ---------------------------------------------------------- small lemmas

  lemma SizeDivides(size: nat)
    requires 128 <= size <= 512
    ensures 512 % size == 0 <==> size in {128, 256, 512}
    ensures size in {128, 256, 512} ==> Times(512 / size, size) == 512
  {
    var q, r := 512 / size, 512 % size;
    assert 512 == q * size + r;
    TimesIsProduct(q, size);
    assert q == 0 || q == 1 || q == 2 || q == 3 || q == 4 || q >= 5;
  }

  lemma KeptSane(parts: seq<Partition>, disk: nat, a: Buffer, size: nat, n: nat)
    requires size >= 128 && Times(n, size) <= |a| && Slots(parts, Kept(Listed(disk, a, size, n)), disk)
    ensures forall k :: 0 <= k < |Kept(Listed(disk, a, size, n))| && k < |parts| ==> 0 < parts[k].first <= parts[k].last
  {
    forall k: nat | k < |Kept(Listed(disk, a, size, n))| && k < |parts| ensures 0 < parts[k].first <= parts[k].last {
      ListedSane(disk, a, size, n, k);
      assert parts[k] == parts[..|Kept(Listed(disk, a, size, n))|][k];
    }
  }

  /** Kept partitions after one more entry. */
  lemma KeptStep(disk: nat, a: Buffer, size: nat, n: nat)
    requires size >= 128 && Times(n + 1, size) <= |a|
    ensures Times(n, size) + size <= |a|
    ensures var was, now := Kept(Listed(disk, a, size, n)), Kept(Listed(disk, a, size, n + 1));
            now == if InUse(Entry(a, size, n)) && |was| < MAX_PARTITIONS then was + [Described(disk, Entry(a, size, n))]
                else was
  {
  }

  /** One entry more. */
  lemma GatheredStep(was: seq<Partition>, n: nat, parts: seq<Partition>, m: nat, disk: nat, a: Buffer, size: nat,
                     i: nat, e: Buffer)
    requires size >= 128 && Times(i, size) + size <= |a| && Gathered(was, n, disk, a, size, i) && e == Entry(a, size, i)
    requires m == if InUse(e) && n < MAX_PARTITIONS then n + 1 else n
    requires |was| == MAX_PARTITIONS && n <= |was| && parts == if m > n then was[n := Described(disk, e)] else was
    ensures Gathered(parts, m, disk, a, size, i + 1)
  {
    hide Listed, InUse, Described;
    KeptStep(disk, a, size, i);
  }

  lemma GatheredNone(parts: seq<Partition>, disk: nat, a: Buffer, size: nat)
    requires size >= 128 && |parts| == MAX_PARTITIONS && forall k ::
               0 <= k < MAX_PARTITIONS ==> parts[k] == NoPartition(disk)
    ensures Gathered(parts, 0, disk, a, size, 0)
  {
  }

  lemma GatheredPrefix(parts: seq<Partition>, n: nat, disk: nat, a: Buffer, size: nat, num: nat, m: nat)
    requires size >= 128 && Times(num, size) <= m <= |a| && Gathered(parts, n, disk, a, size, num)
    ensures Gathered(parts, n, disk, a[..m], size, num)
  {
    ListedPrefix(disk, a, size, num, m);
  }

  lemma NothingHashed(crc: Word)
    ensures Serial(WordOf(POLY_CRC32), crc, []) == crc
  {
  }

  lemma PrefixStep(a: Buffer, sec: Buffer, s: nat, bytes: nat)
    requires |sec| == 512 && bytes <= |a| && 512 * s < bytes && 512 * s + 512 <= |a| && a[512 * s..512 * s + 512] == sec
    ensures a[..Min(512 * (s + 1), bytes)] == a[..512 * s] + sec[..Min(bytes - 512 * s, 512)]
  {
    var m := Min(bytes - 512 * s, 512);
    assert sec[..m] == a[512 * s..512 * s + m];
  }

  lemma EntryInSector(a: Buffer, sec: Buffer, s: nat, off: nat, size: nat, i: nat)
    requires |sec| == 512 && 512 * s + 512 <= |a| && a[512 * s..512 * s + 512] == sec
    requires off + size <= 512 && Times(i, size) == 512 * s + off
    ensures Entry(a, size, i) == sec[off..off + size]
  {
    hide Times;
    assert sec[off..off + size] == a[512 * s + off..512 * s + off + size];
  }

  lemma {:induction false} ListedPrefix(disk: nat, a: Buffer, size: nat, n: nat, m: nat)
    requires size >= 128 && Times(n, size) <= m <= |a|
    ensures Listed(disk, a[..m], size, n) == Listed(disk, a, size, n)
  {
    if n > 0 {
      ListedPrefix(disk, a, size, n - 1, m);
      assert Entry(a[..m], size, n - 1) == Entry(a, size, n - 1);
    }
  }

  datatype Outcome = Found | Rejected | Halted

  /** The tables kept for the eight disks. */
  class GptTables {
    const table: array<Word>
    var disks: seq<Table>

    ghost predicate Valid()
      reads this, table
    {
      IsTable(table[..], WordOf(POLY_CRC32)) && |disks| == 8
    }

    constructor ()
      ensures Valid() && fresh(table)
      ensures forall k :: 0 <= k < 8 ==> !disks[k].parsed
    {
      var t := BuildTable(WordOf(POLY_CRC32));
      table := t;
      disks := seq(8, _ => Table(false, 0, 0, 0, 0, seq(MAX_PARTITIONS, _ => NoPartition(0))));
    }

    /** The header's checksum, over its stated size and with its own field zeroed. */
    method Checksum(b: Buffer) returns (c: nat)
      requires Valid()
      ensures c == GptCrc(b)
    {
      var w := Update(table, WordOf(POLY_CRC32), Ones(), b);
      c := NumberOf(Xor(w, Ones()));
    }

    /** One entry: kept unless it is unused or the list is full. */
    method TakeEntry(disk: nat, e: Buffer, parts: array<Partition>, count: nat) returns (n: nat)
      requires |e| >= 128 && parts.Length == MAX_PARTITIONS && count <= MAX_PARTITIONS
      modifies parts
      ensures n == if InUse(e) && count < MAX_PARTITIONS then count + 1 else count
      ensures parts[..] == if n > count then old(parts[..])[count := Described(disk, e)] else old(parts[..])
    {
      n := count;
      var k := 0;
      while k < 16 && e[k] == 0
        invariant k <= 16 && forall j :: 0 <= j < k ==> e[j] == 0
      {
        k := k + 1;
      }
      if k == 16 { return; }
      var first, last := Le64(e, 32), Le64(e, 40);
      if first == 0 || last < first || count >= MAX_PARTITIONS { return; }
      parts[count] := Partition(disk, first, last, e[..16], e[16..32], e[56..128]);
      n := count + 1;
    }

    /** The slots of one sector. */
    method ScanSector(disk: nat, sec: Buffer, size: nat, num: nat, ghost a: Buffer, ghost s: nat, from: nat,
                      parts: array<Partition>, count: nat)
      returns (index: nat, n: nat)
      requires |sec| == 512 && size in {128, 256, 512} && 512 * s + 512 <= |a| && a[512 * s..512 * s + 512] == sec
      requires Times(num, size) <= |a| && from <= num && (from == num || Times(from, size) == 512 * s)
      requires parts.Length == MAX_PARTITIONS && count <= MAX_PARTITIONS
      requires Gathered(parts[..], count, disk, a, size, from)
      modifies parts
      ensures from <= index <= num && Times(index, size) <= |a| && (index == num || Times(index, size) == 512 * s + 512)
      ensures n <= MAX_PARTITIONS && Gathered(parts[..], n, disk, a, size, index)
    {
      hide Gathered, Entry, InUse, Described;
      SizeDivides(size);
      var per := 512 / size;
      index, n := from, count;
      var slot := 0;
      while slot < per
        invariant slot <= per && from <= index <= num && (index == num || Times(index, size)
            == 512 * s + Times(slot, size))
        invariant Times(index, size) <= |a| && n <= MAX_PARTITIONS && Gathered(parts[..], n, disk, a, size, index)
      {
        if index >= num { break; }
        TimesIsProduct(slot, size);
        TimesStrict(slot, per, size);
        TimesStrict(index, num, size);
        var off := slot * size;
        EntryInSector(a, sec, s, off, size, index);
        ghost var was, m := parts[..], n;
        var e := sec[off..off + size];
        n := TakeEntry(disk, e, parts, n);
        GatheredStep(was, m, parts[..], n, disk, a, size, index, e);
        index := index + 1;
        slot := slot + 1;
      }
    }

    /** One sector more of the running checksum. */
    method HashSector(was: Word, sec: Buffer, ghost a: Buffer, s: nat, bytes: nat) returns (acc: Word)
      requires Valid() && |sec| == 512 && bytes <= |a| && 512 * s < bytes && 512 * s + 512 <= |a|
      requires a[512 * s..512 * s + 512] == sec
      requires was == Serial(WordOf(POLY_CRC32), Ones(), a[..512 * s])
      ensures acc == Serial(WordOf(POLY_CRC32), Ones(), a[..Min(512 * (s + 1), bytes)])
    {
      hide Ones, WordOf;
      var part := sec[..Min(bytes - 512 * s, 512)];
      PrefixStep(a, sec, s, bytes);
      SerialConcat(WordOf(POLY_CRC32), Ones(), a[..512 * s], part);
      acc := Update(table, WordOf(POLY_CRC32), was, part);
    }

    /** The whole entry array: hashed as it is read, keeping the first partitions. */
    method ScanEntries(disk: nat, d: Sectors, lba: nat, num: nat, size: nat)
                       returns (ok: bool, crc: nat, parts: array<Partition>, count: nat)
      requires Valid() && SectorsOk(d) && size in {128, 256, 512}
      ensures fresh(parts)
      ensures var n := SectorsFor(Times(num, size));
              && ok == Readable(d, lba, n)
              && (ok ==> var a := Region(d, lba, n)[..Times(num, size)];
                         crc == GptCrc(a) && Gathered(parts[..], count, disk, a, size, num))
    {
      hide Gathered, Region, SectorsFor, Serial, Ones, WordOf;
      TimesIsProduct(num, size);
      var bytes := num * size;
      var sectors := SectorsFor(bytes);
      ghost var a := Region(d, lba, sectors);
      parts := new Partition[MAX_PARTITIONS](_ => NoPartition(disk));
      GatheredNone(parts[..], disk, a, size);
      count, crc, ok := 0, 0, true;
      var acc := Ones();
      assert a[..0] == [];
      NothingHashed(Ones());
      var index := 0;
      var s := 0;
      while s < sectors
        invariant s <= sectors && Readable(d, lba, s) && acc
            == Serial(WordOf(POLY_CRC32), Ones(), a[..Min(512 * s, bytes)])
        invariant index <= num && (index == num || Times(index, size) == 512 * s)
        invariant Times(index, size) <= |a| && count <= MAX_PARTITIONS
        invariant Gathered(parts[..], count, disk, a, size, index)
      {
        if lba + s !in d {
          ok := false;
          return;
        }
        var sec := d[lba + s];
        RegionSector(d, lba, sectors, s);
        acc := HashSector(acc, sec, a, s, bytes);
        index, count := ScanSector(disk, sec, size, num, a, s, index, parts, count);
        s := s + 1;
      }
      if index < num { TimesStrict(index, num, size); }
      GatheredPrefix(parts[..], count, disk, a, size, num, bytes);
      crc := NumberOf(Xor(acc, Ones()));
    }

    /** Reads and keeps the table of a disk. It is found exactly when header and entry array are
        valid, and then the first sixteen partitions in use are kept in order. */
    method Detect(disk: nat, d: Sectors) returns (o: Outcome)
      requires Valid() && SectorsOk(d)
      modifies this`disks
      ensures Valid()
      ensures o.Found? <==> disk < 8 && TableValid(d)
      ensures o.Halted? <==> disk < 8 && 1 in d && Overrun(d[1])
      ensures !o.Found? ==> disks == old(disks)
      ensures o.Found? ==>
                && var ps := Kept(Listed(disk, EntryArray(d, d[1]), EntrySize(d[1]), NumEntries(d[1])));
                && disks == old(disks)[disk := disks[disk]] && disks[disk].parsed && disks[disk].count == |ps|
                && Slots(disks[disk].parts, ps, disk)
                && disks[disk].entriesLba == EntriesLba(d[1]) && disks[disk].numEntries == NumEntries(d[1])
                     && disks[disk].entrySize == EntrySize(d[1])
      ensures o.Found? ==> forall k :: 0 <= k < disks[disk].count && k < |disks[disk].parts| ==>
                             0 < disks[disk].parts[k].first <= disks[disk].parts[k].last
    {
      hide GptCrc, Region, Listed, Slots, SectorsFor, Le32, Le64;
      if disk >= 8 || 1 !in d { return Rejected; }
      var h := d[1];
      if h[..8] != SIGNATURE { return Rejected; }
      var headerSize, num, size := Le32(h, 12), Le32(h, 80), Le32(h, 84);
      if headerSize < 92 || num == 0 || size < 128 { return Rejected; }
      if headerSize > 512 { return Halted; }
      var c := Checksum(Splice(h, 16, Zeros(4))[..headerSize]);
      if c != Le32(h, 16) { return Rejected; }
      if size > 512 { return Rejected; }
      SizeDivides(size);
      if 512 % size != 0 { return Rejected; }
      var ok, crc, parts, count := ScanEntries(disk, d, Le64(h, 72), num, size);
      if !ok || crc != Le32(h, 88) { return Rejected; }
      disks := disks[disk := Table(true, count, Le64(h, 72), num, size, parts[..])];
      o := Found;
      KeptSane(disks[disk].parts, disk, EntryArray(d, h), size, num);
    }
  }
}
