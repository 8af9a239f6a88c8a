/** Table-driven CRC32 and CRC32C, proved against the bit-serial definition. A 32-bit
    register is its sequence of bits, least significant first. */
module Crc {
  import opened Bytes

  type Word = w: seq<bool> | |w| == 32 witness seq(32, _ => false)

  function Xor(a: Word, b: Word): Word {
    seq(32, i requires 0 <= i < 32 => a[i] != b[i])
  }

  function Shr(a: Word, n: nat): Word
    requires n <= 32
  {
    a[n..] + seq(n, _ => false)
  }

  /** The low byte of the register, `crc & 0xFF`. */
  function LowByte(a: Word): Word {
    a[..8] + seq(24, _ => false)
  }

  // ------------------------------------------------- numbers and their bits

  function BitAt(v: nat, i: nat): bool
    decreases i, v
  {
    if i == 0 then v % 2 == 1 else BitAt(v / 2, i - 1)
  }

  function Bits(v: nat, n: nat): seq<bool> {
    seq(n, i requires 0 <= i < n => BitAt(v, i))
  }

  function Value(s: seq<bool>): nat {
    if s == [] then 0 else (if s[0] then 1 else 0) + 2 * Value(s[1..])
  }

  function Pow2(n: nat): (p: nat)
    ensures p >= 1
  {
    if n == 0 then 1 else 2 * Pow2(n - 1)
  }

  lemma {:induction false} ValueBound(s: seq<bool>)
    ensures Value(s) < Pow2(|s|)
  {
    if s != [] { ValueBound(s[1..]); }
  }

  /** The bits of a sequence's number are the sequence. */
  lemma {:induction false} BitAtValue(s: seq<bool>, i: nat)
    requires i < |s|
    ensures BitAt(Value(s), i) == s[i]
  {
    assert Value(s) / 2 == Value(s[1..]);
    if i > 0 { BitAtValue(s[1..], i - 1); }
  }

  lemma BitsOfValue(s: seq<bool>)
    ensures Bits(Value(s), |s|) == s
  {
    forall i | 0 <= i < |s| ensures Bits(Value(s), |s|)[i] == s[i] { BitAtValue(s, i); }
  }

  /** A number below 2^m has no bits from m on. */
  lemma {:induction false} BitAtHigh(v: nat, m: nat, i: nat)
    requires v < Pow2(m) && m <= i
    ensures !BitAt(v, i)
    decreases i, v
  {
    if i > 0 { BitAtHigh(v / 2, if m == 0 then 0 else m - 1, i - 1); }
  }

  lemma Pow2Values()
    ensures Pow2(8) == 0x100 && Pow2(32) == U32
  {
    assert Pow2(8) == 0x100;
    assert Pow2(16) == 0x1_0000;
    assert Pow2(24) == 0x100_0000;
  }

  function WordOf(v: nat): Word { Bits(v, 32) }

  function NumberOf(w: Word): (v: nat)
    ensures v < U32
  {
    ValueBound(w);
    Pow2Values();
    Value(w)
  }

  // ---------------------------------------------------- bit-serial reference

  const POLY_CRC32: nat := 0xEDB8_8320
  const POLY_CRC32C: nat := 0x82F6_3B78

  /** One step of the reflected shift register. */
  function BitStep(crc: Word, poly: Word): Word {
    if crc[0] then Xor(Shr(crc, 1), poly) else Shr(crc, 1)
  }

  function BitSteps(crc: Word, poly: Word, n: nat): Word
    decreases n, |crc|
  {
    if n == 0 then crc else BitStep(BitSteps(crc, poly, n - 1), poly)
  }

  /** The bit-serial reference: xor each byte into the register, then shift eight times. */
  function Serial(poly: Word, crc: Word, data: Buffer): Word
    decreases |data|
  {
    if data == [] then crc
    else BitSteps(Xor(Serial(poly, crc, data[..|data| - 1]), WordOf(data[|data| - 1])), poly, 8)
  }

  // ------------------------------------------------- the table look-up step

  lemma BitStepLinear(a: Word, b: Word, poly: Word)
    ensures BitStep(Xor(a, b), poly) == Xor(BitStep(a, poly), BitStep(b, poly))
  {
  }

  lemma {:induction false} BitStepsLinear(a: Word, b: Word, poly: Word, n: nat)
    ensures BitSteps(Xor(a, b), poly, n) == Xor(BitSteps(a, poly, n), BitSteps(b, poly, n))
  {
    if n > 0 {
      BitStepsLinear(a, b, poly, n - 1);
      BitStepLinear(BitSteps(a, poly, n - 1), BitSteps(b, poly, n - 1), poly);
    }
  }

  /** A register whose low `n` bits are clear is only shifted by `n` steps. */
  lemma {:induction false} ShiftOnly(c: Word, poly: Word, n: nat)
    requires n <= 32 && forall i :: 0 <= i < n ==> !c[i]
    ensures BitSteps(c, poly, n) == Shr(c, n)
  {
    if n > 0 {
      ShiftOnly(c, poly, n - 1);
      assert Shr(Shr(c, n - 1), 1) == Shr(c, n);
    } else {
      assert Shr(c, 0) == c;
    }
  }

  /** Eight shifts of the register are one table look-up on its low byte. */
  lemma TableStep(c: Word, poly: Word)
    ensures BitSteps(c, poly, 8) == Xor(Shr(c, 8), BitSteps(LowByte(c), poly, 8))
  {
    var high := Xor(c, LowByte(c));
    assert Xor(high, LowByte(c)) == c;
    BitStepsLinear(high, LowByte(c), poly, 8);
    ShiftOnly(high, poly, 8);
    assert Shr(high, 8) == Shr(c, 8);
  }

  /** The index `(crc ^ byte) & 0xFF` names the table entry of the low byte. */
  lemma LowByteIndex(c: Word)
    ensures Value(c[..8]) < 256 && WordOf(Value(c[..8])) == LowByte(c)
  {
    ValueBound(c[..8]);
    Pow2Values();
    forall i | 0 <= i < 32 ensures BitAt(Value(c[..8]), i) == LowByte(c)[i] {
      if i < 8 { BitAtValue(c[..8], i); } else { BitAtHigh(Value(c[..8]), 8, i); }
    }
  }

  lemma ByteFits(c: Word, b: byte)
    ensures Shr(Xor(c, WordOf(b)), 8) == Shr(c, 8)
  {
    Pow2Values();
    forall i | 8 <= i < 32 ensures !WordOf(b)[i] { BitAtHigh(b, 8, i); }
  }

  // ------------------------------------------------------------- the tables

  ghost predicate IsTable(table: seq<Word>, poly: Word) {
    |table| == 256 && forall i :: 0 <= i < 256 ==> table[i] == BitSteps(WordOf(i), poly, 8)
  }

  method BuildTable(poly: Word) returns (table: array<Word>)
    ensures IsTable(table[..], poly)
    ensures fresh(table)
  {
    table := new Word[256];
    var i := 0;
    while i < 256
      invariant 0 <= i <= 256
      invariant forall k :: 0 <= k < i ==> table[k] == BitSteps(WordOf(k), poly, 8)
    {
      var crc := WordOf(i);
      var bit := 0;
      while bit < 8
        invariant 0 <= bit <= 8
        invariant crc == BitSteps(WordOf(i), poly, bit)
      {
        crc := if crc[0] then Xor(Shr(crc, 1), poly) else Shr(crc, 1);
        bit := bit + 1;
      }
      table[i] := crc;
      i := i + 1;
    }
  }

  method Update(table: array<Word>, ghost poly: Word, start: Word, data: Buffer) returns (crc: Word)
    requires IsTable(table[..], poly)
    ensures crc == Serial(poly, start, data)
  {
    crc := start;
    for n := 0 to |data|
      invariant crc == Serial(poly, start, data[..n])
    {
      assert data[..n + 1][..n] == data[..n];
      var x := Xor(crc, WordOf(data[n]));
      TableStep(x, poly);
      LowByteIndex(x);
      ByteFits(crc, data[n]);
      assert table[..][Value(x[..8])] == table[Value(x[..8])];
      crc := Xor(Shr(crc, 8), table[Value(x[..8])]);
    }
    assert data[..|data|] == data;
  }

  // ---------------------------------------------------------- the checksums

  function Crc32(crc: nat, data: Buffer): (r: nat)
    ensures r < U32
  {
    NumberOf(Serial(WordOf(POLY_CRC32), WordOf(crc), data))
  }

  function Crc32c(crc: nat, data: Buffer): (r: nat)
    ensures r < U32
  {
    NumberOf(Serial(WordOf(POLY_CRC32C), WordOf(crc), data))
  }

  /** Hashing a concatenation is hashing its parts one after the other. */
  lemma {:induction false} SerialConcat(poly: Word, crc: Word, a: Buffer, b: Buffer)
    ensures Serial(poly, crc, a + b) == Serial(poly, Serial(poly, crc, a), b)
    decreases |b|
  {
    if b == [] {
      assert a + b == a;
    } else {
      var m := |b| - 1;
      SerialConcat(poly, crc, a, b[..m]);
      assert (a + b)[..|a + b| - 1] == a + b[..m];
    }
  }

  lemma Crc32Concat(crc: nat, a: Buffer, b: Buffer)
    ensures Crc32(crc, a + b) == Crc32(Crc32(crc, a), b)
  {
    SerialConcat(WordOf(POLY_CRC32), WordOf(crc), a, b);
    BitsOfValue(Serial(WordOf(POLY_CRC32), WordOf(crc), a));
  }

  lemma Crc32cConcat(crc: nat, a: Buffer, b: Buffer)
    ensures Crc32c(crc, a + b) == Crc32c(Crc32c(crc, a), b)
  {
    SerialConcat(WordOf(POLY_CRC32C), WordOf(crc), a, b);
    BitsOfValue(Serial(WordOf(POLY_CRC32C), WordOf(crc), a));
  }

  // ------------------------------------------------- the same with numbers

  /** The exclusive or of the low `n` bits of two numbers. */
  function XorNum(a: nat, b: nat, n: nat): nat {
    if n == 0 then 0 else (if a % 2 != b % 2 then 1 else 0) + 2 * XorNum(a / 2, b / 2, n - 1)
  }

  function NumStep(crc: nat, poly: nat): nat {
    if crc % 2 == 1 then XorNum(crc / 2, poly, 32) else crc / 2
  }

  function NumSteps(crc: nat, poly: nat, n: nat): nat
    decreases n
  {
    if n == 0 then crc else NumSteps(NumStep(crc, poly), poly, n - 1)
  }

  /** One byte of a checksum, computed on numbers. */
  function NumByte(crc: nat, poly: nat, b: nat): nat { NumSteps(XorNum(crc, b, 32), poly, 8) }

  function NumSerial(poly: nat, crc: nat, data: Buffer): nat
    decreases |data|
  {
    if data == [] then crc else NumByte(NumSerial(poly, crc, data[..|data| - 1]), poly, data[|data| - 1])
  }

  lemma {:induction false} XorValue(a: seq<bool>, b: seq<bool>, c: seq<bool>)
    requires |a| == |b| == |c| && forall i :: 0 <= i < |a| ==> c[i] == (a[i] != b[i])
    ensures Value(c) == XorNum(Value(a), Value(b), |a|)
  {
    if a != [] {
      XorValue(a[1..], b[1..], c[1..]);
      assert Value(a) / 2 == Value(a[1..]) && Value(b) / 2 == Value(b[1..]);
    }
  }

  lemma {:induction false} ZeroAbove(s: seq<bool>)
    ensures Value(s + [false]) == Value(s)
  {
    if s == [] {
      assert s + [false] == [false];
      assert [false][1..] == [];
    } else {
      assert (s + [false])[1..] == s[1..] + [false];
      ZeroAbove(s[1..]);
    }
  }

  lemma {:induction false} BitsValue(v: nat, n: nat)
    requires v < Pow2(n)
    ensures Value(Bits(v, n)) == v
    decreases n
  {
    if n > 0 {
      var s := Bits(v, n);
      assert s[1..] == Bits(v / 2, n - 1);
      BitsValue(v / 2, n - 1);
    }
  }

  lemma WordValue(v: nat)
    requires v < U32
    ensures Value(WordOf(v)) == v
  {
    Pow2Values();
    BitsValue(v, 32);
  }

  lemma StepValue(crc: Word, poly: Word)
    ensures Value(BitStep(crc, poly)) == NumStep(Value(crc), Value(poly))
  {
    var shifted := Shr(crc, 1);
    assert shifted == crc[1..] + [false];
    ZeroAbove(crc[1..]);
    assert Value(crc) / 2 == Value(crc[1..]) && (Value(crc) % 2 == 1 <==> crc[0]);
    if crc[0] { XorValue(shifted, poly, Xor(shifted, poly)); }
  }

  lemma {:induction false} StepsFirst(crc: Word, poly: Word, n: nat)
    ensures BitSteps(crc, poly, n + 1) == BitSteps(BitStep(crc, poly), poly, n)
  {
    if n > 0 { StepsFirst(crc, poly, n - 1); }
  }

  lemma {:induction false} StepsValue(crc: Word, poly: Word, n: nat)
    ensures Value(BitSteps(crc, poly, n)) == NumSteps(Value(crc), Value(poly), n)
    decreases n
  {
    hide BitStep, Value;
    if n > 0 {
      StepsFirst(crc, poly, n - 1);
      StepValue(crc, poly);
      StepsValue(BitStep(crc, poly), poly, n - 1);
    }
  }

  /** The bit-serial checksum is the one computed on numbers. */
  lemma {:induction false} SerialValue(poly: nat, crc: nat, data: Buffer)
    requires poly < U32 && crc < U32
    ensures Value(Serial(WordOf(poly), WordOf(crc), data)) == NumSerial(poly, crc, data)
    decreases |data|
  {
    hide BitSteps, Value, WordOf, NumSteps;
    WordValue(poly);
    WordValue(crc);
    if data != [] {
      var m := |data| - 1;
      SerialValue(poly, crc, data[..m]);
      var c := Serial(WordOf(poly), WordOf(crc), data[..m]);
      WordValue(data[m]);
      XorValue(c, WordOf(data[m]), Xor(c, WordOf(data[m])));
      StepsValue(Xor(c, WordOf(data[m])), WordOf(poly), 8);
    }
  }

  lemma Crc32Numbers(crc: nat, data: Buffer)
    requires crc < U32
    ensures Crc32(crc, data) == NumSerial(POLY_CRC32, crc, data)
    ensures Crc32c(crc, data) == NumSerial(POLY_CRC32C, crc, data)
  {
    SerialValue(POLY_CRC32, crc, data);
    SerialValue(POLY_CRC32C, crc, data);
  }

  /** The coefficient of x^k in a reflected polynomial of degree 32. */
  function Term(k: nat): nat
    requires k < 32
  {
    Pow2(31 - k)
  }

  lemma PowersOfTwo()
    ensures Pow2(5) == 0x20 && Pow2(8) == 0x100 && Pow2(9) == 0x200 && Pow2(15) == 0x8000 && Pow2(19) == 0x8_0000
    ensures Pow2(20) == 0x10_0000 && Pow2(21) == 0x20_0000 && Pow2(23) == 0x80_0000 && Pow2(24) == 0x100_0000
    ensures Pow2(26) == 0x400_0000 && Pow2(27) == 0x800_0000 && Pow2(29) == 0x2000_0000
    ensures Pow2(30) == 0x4000_0000 && Pow2(31) == 0x8000_0000
    ensures Pow2(3) == 8 && Pow2(4) == 0x10 && Pow2(6) == 0x40 && Pow2(11) == 0x800 && Pow2(12) == 0x1000
    ensures Pow2(13) == 0x2000 && Pow2(17) == 0x2_0000 && Pow2(18) == 0x4_0000 && Pow2(22) == 0x40_0000
    ensures Pow2(25) == 0x200_0000
  {
    assert Pow2(4) == 0x10;
    assert Pow2(8) == 0x100;
    assert Pow2(12) == 0x1000;
    assert Pow2(16) == 0x1_0000;
    assert Pow2(20) == 0x10_0000;
    assert Pow2(24) == 0x100_0000;
    assert Pow2(28) == 0x1000_0000;
  }

  /** The polynomials are those of IEEE 802.3 and of Castagnoli, given by their exponents. */
  lemma Polynomials()
    ensures POLY_CRC32
            == Term(26) + Term(23) + Term(22) + Term(16) + Term(12) + Term(11) + Term(10) + Term(8) + Term(7) + Term(5)
               + Term(4) + Term(2) + Term(1) + Term(0)
    ensures POLY_CRC32C
            == Term(28) + Term(27) + Term(26) + Term(25) + Term(23) + Term(22) + Term(20) + Term(19) + Term(18)
               + Term(14) + Term(13) + Term(11) + Term(10) + Term(9) + Term(8) + Term(6) + Term(0)
  {
    hide Pow2;
    PowersOfTwo();
  }
}
