/** Allocation bitmaps: bit `idx` of a bitmap lives in byte `idx / 8`. */
module Bitmap {
  import opened Bytes

  function TestBit(x: nat, k: nat): bool
    decreases k, x
  {
    if k == 0 then x % 2 == 1 else TestBit(x / 2, k - 1)
  }

  /** `x | 1 << k` */
  function OrBit(x: nat, k: nat): (r: nat)
    ensures x <= r
    decreases k, x
  {
    if k == 0 then (if x % 2 == 1 then x else x + 1)
    else 2 * OrBit(x / 2, k - 1) + x % 2
  }

  lemma {:induction false} OrBitTest(x: nat, k: nat, j: nat)
    ensures TestBit(OrBit(x, k), j) <==> j == k || TestBit(x, j)
    decreases k, x
  {
    var r := OrBit(x, k);
    if k == 0 {
      assert r / 2 == x / 2;
    } else {
      assert r / 2 == OrBit(x / 2, k - 1) && r % 2 == x % 2;
      if j > 0 { OrBitTest(x / 2, k - 1, j - 1); }
    }
  }

  function Ones(n: nat): (r: nat)
    ensures r >= n
  {
    if n == 0 then 0 else 2 * Ones(n - 1) + 1
  }

  lemma {:induction false} OrBitBound(x: nat, k: nat, n: nat)
    requires k < n && x <= Ones(n)
    ensures OrBit(x, k) <= Ones(n)
    decreases k, x
  {
    if k > 0 { OrBitBound(x / 2, k - 1, n - 1); }
  }

  /** The all-ones number has no clear bit, every smaller one has. */
  lemma {:induction false} OnesTest(n: nat, k: nat)
    requires k < n
    ensures TestBit(Ones(n), k)
  {
    assert Ones(n) / 2 == Ones(n - 1);
    if k > 0 { OnesTest(n - 1, k - 1); }
  }

  lemma {:induction false} ClearBit(x: nat, n: nat) returns (k: nat)
    requires x < Ones(n)
    ensures k < n && !TestBit(x, k)
    decreases n, x
  {
    if x % 2 == 0 {
      k := 0;
    } else {
      assert x / 2 < Ones(n - 1);
      k := ClearBit(x / 2, n - 1);
      k := k + 1;
    }
  }

  lemma ByteOnes()
    ensures Ones(8) == 0xFF
  {
    assert Ones(4) == 0xF;
  }

  function Bit(b: Buffer, idx: nat): bool
    requires idx < 8 * |b|
  {
    TestBit(b[idx / 8], idx % 8)
  }

  function SetBit(b: Buffer, idx: nat): (r: Buffer)
    requires idx < 8 * |b|
    ensures |r| == |b|
    ensures forall k :: 0 <= k < 8 * |b| ==> (Bit(r, k) <==> k == idx || Bit(b, k))
  {
    ByteOnes();
    OrBitBound(b[idx / 8], idx % 8, 8);
    var r := b[idx / 8 := OrBit(b[idx / 8], idx % 8)];
    assert forall k :: 0 <= k < 8 * |b| ==> (Bit(r, k) <==> k == idx || Bit(b, k)) by {
      forall k | 0 <= k < 8 * |b| ensures Bit(r, k) <==> k == idx || Bit(b, k) {
        OrBitTest(b[idx / 8], idx % 8, k % 8);
        if k / 8 == idx / 8 { assert k == 8 * (k / 8) + k % 8; }
      }
    }
    r
  }

  function ClearCount(b: Buffer, n: nat): nat
    requires n <= 8 * |b|
  {
    if n == 0 then 0 else ClearCount(b, n - 1) + if Bit(b, n - 1) then 0 else 1
  }

  /** Setting a clear bit lowers the count of clear bits by one. */
  lemma {:induction false} ClearCountSet(b: Buffer, idx: nat, n: nat)
    requires idx < 8 * |b| && n <= 8 * |b| && !Bit(b, idx)
    ensures ClearCount(SetBit(b, idx), n) == ClearCount(b, n) - if idx < n then 1 else 0
  {
    if n > 0 { ClearCountSet(b, idx, n - 1); }
  }

  lemma {:induction false} ClearCountBound(b: Buffer, n: nat)
    requires n <= 8 * |b|
    ensures ClearCount(b, n) <= n
  {
    if n > 0 { ClearCountBound(b, n - 1); }
  }

  lemma {:induction false} ClearCountPositive(b: Buffer, idx: nat, n: nat)
    requires idx < n <= 8 * |b| && !Bit(b, idx)
    ensures ClearCount(b, n) > 0
  {
    if idx < n - 1 { ClearCountPositive(b, idx, n - 1); }
  }
}
