/** Multiplication and division by a variable, as repeated addition and subtraction. Table
    positions are stated with these, so that proofs about them stay linear; the lemmas say
    that they are the products and quotients the driver computes. */
module Arith {

  function Times(n: nat, k: nat): nat { if n == 0 then 0 else Times(n - 1, k) + k }

  function Quot(n: nat, k: nat): nat
    requires k > 0
  {
    if n < k then 0 else 1 + Quot(n - k, k)
  }

  function Rem(n: nat, k: nat): (r: nat)
    requires k > 0
    ensures r < k
  {
    if n < k then n else Rem(n - k, k)
  }

  lemma {:induction false} TimesIsProduct(n: nat, k: nat)
    ensures Times(n, k) == n * k
  {
    if n > 0 { TimesIsProduct(n - 1, k); }
  }

  lemma {:induction false} QuotIsQuotient(n: nat, k: nat)
    requires k > 0
    ensures Quot(n, k) == n / k && Rem(n, k) == n % k
  {
    if n >= k {
      QuotIsQuotient(n - k, k);
      DivStep(n, k);
    }
  }

  lemma DivStep(n: nat, k: nat)
    requires 0 < k <= n
    ensures n / k == (n - k) / k + 1 && n % k == (n - k) % k
  {
    var q := (n - k) / k;
    assert n == (q + 1) * k + (n - k) % k;
    DivUnique(n, k, q + 1, (n - k) % k);
  }

  lemma DivUnique(n: nat, d: nat, q: nat, r: nat)
    requires d > 0 && n == q * d + r && r < d
    ensures n / d == q && n % d == r
  {
    var q', r' := n / d, n % d;
    assert n == q' * d + r';
    assert q' < q ==> (q' + 1) * d <= q * d;
    assert q < q' ==> (q + 1) * d <= q' * d;
  }

  /** Quotient and remainder rebuild the number. */
  lemma {:induction false} QuotRem(n: nat, k: nat)
    requires k > 0
    ensures n == Times(Quot(n, k), k) + Rem(n, k)
  {
    if n >= k { QuotRem(n - k, k); }
  }

  /** ... and are found again from it. */
  lemma {:induction false} QuotOfTimes(q: nat, k: nat, r: nat)
    requires r < k
    ensures Quot(Times(q, k) + r, k) == q && Rem(Times(q, k) + r, k) == r
  {
    if q > 0 { QuotOfTimes(q - 1, k, r); }
  }

  lemma {:induction false} TimesMonotone(a: nat, b: nat, k: nat)
    requires a <= b
    ensures Times(a, k) <= Times(b, k)
  {
    if a < b { TimesMonotone(a, b - 1, k); }
  }

  lemma {:induction false} TimesStrict(a: nat, b: nat, k: nat)
    requires a < b
    ensures Times(a, k) + k <= Times(b, k)
  {
    TimesMonotone(a + 1, b, k);
  }

  lemma QuotBelow(n: nat, k: nat, q: nat)
    requires k > 0 && n < Times(q, k)
    ensures Quot(n, k) < q
  {
    QuotRem(n, k);
    if Quot(n, k) >= q { TimesMonotone(q, Quot(n, k), k); }
  }

  /** Records whose size divides the block size never straddle a block. */
  lemma {:induction false} RecordFits(i: nat, size: nat, per: nat)
    requires size > 0 && per > 0
    ensures var bs := Times(per, size);
            && bs > 0
            && Rem(Times(i, size), bs) + size <= bs
            && Rem(Times(i, size), bs) == Times(Rem(i, per), size)
            && Quot(Times(i, size), bs) == Quot(i, per)
  {
    var bs := Times(per, size);
    TimesStrict(0, per, size);
    if i < per {
      TimesStrict(i, per, size);
    } else {
      RecordFits(i - per, size, per);
      TimesSplit(i - per, per, size);
    }
  }

  lemma {:induction false} TimesSplit(a: nat, b: nat, k: nat)
    ensures Times(a + b, k) == Times(a, k) + Times(b, k)
  {
    if b > 0 {
      TimesSplit(a, b - 1, k);
    }
  }

  /** Two different records never share a byte. */
  lemma RecordsApart(i: nat, j: nat, size: nat, per: nat)
    requires size > 0 && per > 0 && i != j
    ensures var bs := Times(per, size);
            && bs > 0
            && (|| Quot(Times(i, size), bs) != Quot(Times(j, size), bs)
                || Rem(Times(i, size), bs) + size <= Rem(Times(j, size), bs)
                || Rem(Times(j, size), bs) + size <= Rem(Times(i, size), bs))
  {
    RecordFits(i, size, per);
    RecordFits(j, size, per);
    QuotRem(i, per);
    QuotRem(j, per);
    if Rem(i, per) < Rem(j, per) {
      TimesStrict(Rem(i, per), Rem(j, per), size);
    } else if Rem(j, per) < Rem(i, per) {
      TimesStrict(Rem(j, per), Rem(i, per), size);
    }
  }

  /** The blocks that `count` records take: one more than the block of the last record. */
  lemma RecordBlocks(count: nat, size: nat, per: nat)
    requires size > 0 && per > 0
    ensures var bs := Times(per, size);
            bs > 0 && Quot(Times(count, size) + bs - 1, bs)
                      == if count == 0 then 0 else Quot(Times(count - 1, size), bs) + 1
  {
    var bs := Times(per, size);
    TimesStrict(0, per, size);
    if count > 0 {
      RecordFits(count - 1, size, per);
      QuotRem(Times(count - 1, size), bs);
      var m, r := Quot(Times(count - 1, size), bs), Rem(Times(count - 1, size), bs);
      QuotOfTimes(m + 1, bs, r + size - 1);
    }
  }

  /** Each of these blocks holds a record. */
  lemma RecordIn(count: nat, size: nat, per: nat, q: nat) returns (k: nat)
    requires size > 0 && per > 0 && count > 0
    requires Times(per, size) > 0 && q <= Quot(Times(count - 1, size), Times(per, size))
    ensures k < count && Quot(Times(k, size), Times(per, size)) == q
  {
    k := Times(q, per);
    RecordFits(count - 1, size, per);
    QuotRem(count - 1, per);
    TimesMonotone(q, Quot(count - 1, per), per);
    RecordFits(k, size, per);
    QuotOfTimes(q, per, 0);
  }

  lemma QuotMonotone(a: nat, b: nat, k: nat)
    requires k > 0 && a <= b
    ensures Quot(a, k) <= Quot(b, k)
  {
    QuotRem(a, k);
    QuotRem(b, k);
    if Quot(b, k) < Quot(a, k) { TimesMonotone(Quot(b, k) + 1, Quot(a, k), k); }
  }

  lemma {:induction false} TimesOfFour(n: nat, k: nat)
    requires k % 4 == 0
    ensures Times(n, k) % 4 == 0
  {
    if n > 0 { TimesOfFour(n - 1, k); }
  }
}
