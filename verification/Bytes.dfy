/** Little-endian fields in byte buffers, as the on-disk structures of the kernel store them. */
module Bytes {

  type byte = x: int | 0 <= x < 0x100
  type Buffer = seq<byte>

  const U16: int := 0x1_0000
  const U32: int := 0x1_0000_0000
  const U64: int := 0x1_0000_0000_0000_0000

  datatype Option<+T> = None | Some(value: T)

  function Le16(b: Buffer, off: nat): (v: nat)
    requires off + 2 <= |b|
    ensures v < U16
  {
    b[off] as int + 0x100 * (b[off + 1] as int)
  }

  function Le32(b: Buffer, off: nat): (v: nat)
    requires off + 4 <= |b|
    ensures v < U32
  {
    b[off] as int + 0x100 * (b[off + 1] as int)
    + 0x1_0000 * (b[off + 2] as int) + 0x100_0000 * (b[off + 3] as int)
  }

  function Le64(b: Buffer, off: nat): nat
    requires off + 8 <= |b|
  {
    Le32(b, off) + 0x1_0000_0000 * Le32(b, off + 4)
  }

  /** Stores the low 16 bits of `v`; the source truncates with `as u16`. */
  method PutLe16(b: Buffer, off: nat, v: nat) returns (r: Buffer)
    requires off + 2 <= |b|
    ensures |r| == |b|
    ensures Le16(r, off) == v % 0x1_0000
    ensures forall k :: 0 <= k < |b| && !(off <= k < off + 2) ==> r[k] == b[k]
  {
    r := b[off := v % 0x100][off + 1 := v / 0x100 % 0x100];
  }

  lemma Digits32(v: nat)
    ensures v % 0x1_0000_0000 == v % 0x100 + 0x100 * (v / 0x100 % 0x100)
                       + 0x1_0000 * (v / 0x1_0000 % 0x100) + 0x100_0000 * (v / 0x100_0000 % 0x100)
  {
    assert v / 0x1_0000 == v / 0x100 / 0x100;
    assert v / 0x100_0000 == v / 0x1_0000 / 0x100;
    assert v / 0x1_0000_0000 == v / 0x100_0000 / 0x100;
  }

  /** Stores the low 32 bits of `v`. */
  method PutLe32(b: Buffer, off: nat, v: nat) returns (r: Buffer)
    requires off + 4 <= |b|
    ensures |r| == |b|
    ensures Le32(r, off) == v % 0x1_0000_0000
    ensures forall k :: 0 <= k < |b| && !(off <= k < off + 4) ==> r[k] == b[k]
  {
    Digits32(v);
    r := b[off := v % 0x100][off + 1 := v / 0x100 % 0x100]
          [off + 2 := v / 0x1_0000 % 0x100][off + 3 := v / 0x100_0000 % 0x100];
  }

  lemma Le16Same(b: Buffer, c: Buffer, off: nat)
    requires off + 2 <= |b| && off + 2 <= |c|
    requires b[off] == c[off] && b[off + 1] == c[off + 1]
    ensures Le16(b, off) == Le16(c, off)
  {
  }

  lemma Le32Same(b: Buffer, c: Buffer, off: nat)
    requires off + 4 <= |b| && off + 4 <= |c|
    requires b[off] == c[off] && b[off + 1] == c[off + 1] && b[off + 2] == c[off + 2] && b[off + 3] == c[off + 3]
    ensures Le32(b, off) == Le32(c, off)
  {
  }

  lemma MapPlusAssoc<K, V>(a: map<K, V>, b: map<K, V>, c: map<K, V>)
    ensures (a + b) + c == a + (b + c)
  {
  }

  lemma MapPlusUpdate<K, V>(a: map<K, V>, b: map<K, V>, k: K, v: V)
    ensures a + b[k := v] == (a + b)[k := v]
  {
  }

  /** Overwrites `b` from `off` on with the bytes `s`. */
  function Splice(b: Buffer, off: nat, s: Buffer): (r: Buffer)
    requires off + |s| <= |b|
    ensures |r| == |b|
    ensures r[off..off + |s|] == s
    ensures forall k :: 0 <= k < |b| && !(off <= k < off + |s|) ==> r[k] == b[k]
  {
    b[..off] + s + b[off + |s|..]
  }

  function Zeros(n: nat): (r: Buffer)
    ensures |r| == n && forall k :: 0 <= k < n ==> r[k] == 0
  {
    seq(n, _ => 0)
  }

  function Min(a: int, b: int): (m: int)
    ensures m <= a && m <= b && (m == a || m == b)
  {
    if a <= b then a else b
  }
}
