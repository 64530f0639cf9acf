/** Powers of natural numbers and the two rational bounds behind the Base58 buffer sizes. */
module Power {

  function Pow(b: nat, e: nat): (r: nat) {
    if e == 0 then 1 else b * Pow(b, e - 1)
  }

  lemma {:induction false} PowAdd(b: nat, m: nat, n: nat)
    ensures Pow(b, m + n) == Pow(b, m) * Pow(b, n)
  {
    if m > 0 {
      PowAdd(b, m - 1, n);
      Associate(b, Pow(b, m - 1), Pow(b, n));
    }
  }

  lemma Associate(x: nat, y: nat, z: nat)
    ensures x * (y * z) == x * y * z
  {
  }

  lemma {:induction false} PowMul(b: nat, m: nat, n: nat)
    ensures Pow(Pow(b, m), n) == Pow(b, m * n)
  {
    if n > 0 {
      PowMul(b, m, n - 1);
      PowAdd(b, m, m * (n - 1));
      assert m * n == m + m * (n - 1);
    } else {
      assert m * n == 0;
    }
  }

  lemma {:induction false} PowMonoBase(a: nat, b: nat, e: nat)
    requires a <= b
    ensures Pow(a, e) <= Pow(b, e)
  {
    if e > 0 {
      PowMonoBase(a, b, e - 1);
      MulMono(a, b, Pow(a, e - 1), Pow(b, e - 1));
    }
  }

  lemma {:induction false} PowStrictBase(a: nat, b: nat, e: nat)
    requires a < b && e > 0
    ensures Pow(a, e) < Pow(b, e)
  {
    if e == 1 {
      PowOne(a);
      PowOne(b);
    } else {
      PowStrictBase(a, b, e - 1);
      MulStrict(a, b, Pow(a, e - 1), Pow(b, e - 1));
    }
  }

  lemma PowOne(b: nat)
    ensures Pow(b, 0) == 1 && Pow(b, 1) == b
  {
    assert Pow(b, 1) == b * Pow(b, 0);
  }

  lemma {:induction false} PowMonoExp(b: nat, m: nat, n: nat)
    requires b > 0 && m <= n
    ensures 0 < Pow(b, m) <= Pow(b, n)
  {
    if m < n {
      PowMonoExp(b, m, n - 1);
      MulMono(1, b, Pow(b, n - 1), Pow(b, n - 1));
    } else if m > 0 {
      PowMonoExp(b, m - 1, m - 1);
      assert b * Pow(b, m - 1) > 0;
    }
  }

  lemma MulMono(a: nat, b: nat, x: nat, y: nat)
    requires a <= b && x <= y
    ensures a * x <= b * y
  {
    assert b * y == a * x + a * (y - x) + (b - a) * y;
  }

  lemma MulStrict(a: nat, b: nat, x: nat, y: nat)
    requires a < b && x < y
    ensures a * x < b * y
  {
    MulMono(a, a, x, y);
    assert b * y == a * y + (b - a) * y;
    assert (b - a) * y > 0;
  }

  /** If a^p <= b^q, then n digits in base a fit in any number of base-b digits that is
      at least q/p of n. */
  lemma Fits(a: nat, p: nat, b: nat, q: nat, n: nat, size: nat, few: nat, many: nat)
    requires b > 0 && p > 0
    requires Pow(a, p) <= Pow(b, q)
    requires few == q * n && many == p * size && few <= many
    ensures Pow(a, n) <= Pow(b, size)
  {
    hide Pow;
    RootOfPower(a, n, p);
    RootOfPower(b, size, p);
    PowMul(b, q, n);
    PowChain(Pow(a, p), Pow(b, q), n, b, few, many);
    PowCancel(Pow(a, n), Pow(b, size), p);
  }

  lemma PowChain(u: nat, v: nat, n: nat, b: nat, m: nat, k: nat)
    requires u <= v && Pow(v, n) == Pow(b, m) && b > 0 && m <= k
    ensures Pow(u, n) <= Pow(b, k)
  {
    PowMonoBase(u, v, n);
    PowMonoExp(b, m, k);
  }

  lemma PowCancel(x: nat, y: nat, p: nat)
    requires p > 0 && Pow(x, p) <= Pow(y, p)
    ensures x <= y
  {
    if y < x {
      PowStrictBase(y, x, p);
    }
  }

  lemma RootOfPower(a: nat, n: nat, p: nat)
    ensures Pow(Pow(a, n), p) == Pow(a, p * n) == Pow(Pow(a, p), n)
  {
    PowMul(a, n, p);
    PowMul(a, p, n);
    Commute(n, p);
  }

  lemma Commute(m: nat, n: nat)
    ensures m * n == n * m
  {
  }

  /** One doubling step of a lower bound m * 2^e on a power of b, with the mantissa cut. */
  lemma DoubleBelow(b: nat, k: nat, bit: nat, m: nat, e: nat, cut: nat, x: nat, two: nat)
    requires bit <= 1 && Pow(2, x) == two
    requires m * Pow(2, e) <= Pow(b, k)
    requires cut * two <= m * m * (if bit == 1 then b else 1)
    ensures cut * Pow(2, 2 * e + x) <= Pow(b, 2 * k + bit)
  {
    hide Pow;
    DoubleParts(b, k, bit, e, x);
    var pe, pk, c := Pow(2, e), Pow(b, k), if bit == 1 then b else 1;
    MulMono(m * pe, pk, m * pe, pk);
    MulMono(m * pe * (m * pe), pk * pk, c, c);
    MulMono(cut * two, m * m * c, pe * pe, pe * pe);
    Regroup(m, pe, c, cut, two);
  }

  /** The same for an upper bound. */
  lemma DoubleAbove(b: nat, k: nat, bit: nat, m: nat, e: nat, cut: nat, x: nat, two: nat)
    requires bit <= 1 && Pow(2, x) == two
    requires Pow(b, k) <= m * Pow(2, e)
    requires m * m * (if bit == 1 then b else 1) <= cut * two
    ensures Pow(b, 2 * k + bit) <= cut * Pow(2, 2 * e + x)
  {
    hide Pow;
    DoubleParts(b, k, bit, e, x);
    var pe, pk, c := Pow(2, e), Pow(b, k), if bit == 1 then b else 1;
    MulMono(pk, m * pe, pk, m * pe);
    MulMono(pk * pk, m * pe * (m * pe), c, c);
    MulMono(m * m * c, cut * two, pe * pe, pe * pe);
    Regroup(m, pe, c, cut, two);
  }

  lemma DoubleParts(b: nat, k: nat, bit: nat, e: nat, x: nat)
    requires bit <= 1
    ensures Pow(2, 2 * e + x) == Pow(2, e) * Pow(2, e) * Pow(2, x)
    ensures Pow(b, 2 * k + bit) == Pow(b, k) * Pow(b, k) * (if bit == 1 then b else 1)
  {
    PowAdd(2, 2 * e, x);
    PowAdd(2, e, e);
    PowAdd(b, 2 * k, bit);
    PowAdd(b, k, k);
    PowOne(b);
  }

  lemma Regroup(m: nat, pe: nat, c: nat, cut: nat, two: nat)
    ensures m * m * c * (pe * pe) == m * pe * (m * pe) * c
    ensures cut * (pe * pe * two) == cut * two * (pe * pe)
  {
    var q := pe * pe;
    assert m * pe * (m * pe) == m * m * q by {
      assert m * pe * (m * pe) == m * (pe * (m * pe));
      assert pe * (m * pe) == m * q;
    }
    assert m * m * q * c == m * m * (q * c);
    assert m * m * c * q == m * m * (c * q);
    assert cut * (q * two) == cut * (two * q);
  }

  /** The powers of two the two chains below use. */
  lemma SmallPowers()
    ensures Pow(2, 0) == 1 && Pow(2, 4) == 0x10 && Pow(2, 8) == 0x100 && Pow(2, 11) == 0x800
    ensures Pow(2, 12) == 0x1000 && Pow(2, 16) == 0x1_0000 && Pow(2, 18) == 0x4_0000
    ensures Pow(2, 19) == 0x8_0000 && Pow(2, 20) == 0x10_0000 && Pow(2, 25) == 0x200_0000
    ensures Pow(2, 26) == 0x400_0000
  {
    assert Pow(2, 4) == 16;
    PowAdd(2, 4, 4);
    assert Pow(2, 3) == 8;
    PowAdd(2, 8, 3);
    PowAdd(2, 8, 4);
    PowAdd(2, 8, 8);
    assert Pow(2, 2) == 4;
    PowAdd(2, 16, 2);
    PowAdd(2, 16, 3);
    PowAdd(2, 16, 4);
    PowAdd(2, 20, 4);
    assert Pow(2, 1) == 2;
    PowAdd(2, 24, 1);
    PowAdd(2, 24, 2);
  }

  /** 629 bytes fit in 859 base-58 digits. */
  lemma EncodeRatio()
    ensures Pow(256, 629) <= Pow(58, 859)
  {
    hide Pow;
    SmallPowers();
    PowOne(58);
    DoubleBelow(58, 1, 1, 58, 0, 195112, 0, 1);
    DoubleBelow(58, 3, 0, 195112, 0, 580882, 16, 0x1_0000);
    DoubleBelow(58, 6, 1, 580882, 16, 583248, 25, 0x200_0000);
    DoubleBelow(58, 13, 0, 583248, 57, 648838, 19, 0x8_0000);
    DoubleBelow(58, 26, 1, 648838, 133, 727697, 25, 0x200_0000);
    DoubleBelow(58, 53, 1, 727697, 291, 915333, 25, 0x200_0000);
    DoubleBelow(58, 107, 0, 915333, 607, 799021, 20, 0x10_0000);
    DoubleBelow(58, 214, 1, 799021, 1234, 551778, 26, 0x400_0000);
    DoubleBelow(58, 429, 1, 551778, 2494, 526267, 25, 0x200_0000);
    PowMul(2, 8, 629);
    PowAdd(2, 5013, 19);
    MulMono(0x8_0000, 526267, Pow(2, 5013), Pow(2, 5013));
  }

  /** 71 base-58 digits fit in 52 bytes. */
  lemma DecodeRatio()
    ensures Pow(58, 71) <= Pow(256, 52)
  {
    hide Pow;
    SmallPowers();
    PowOne(58);
    DoubleAbove(58, 1, 0, 58, 0, 3364, 0, 1);
    DoubleAbove(58, 2, 0, 3364, 0, 2763, 12, 0x1000);
    DoubleAbove(58, 4, 0, 2763, 12, 3728, 11, 0x800);
    DoubleAbove(58, 8, 1, 3728, 35, 3075, 18, 0x4_0000);
    DoubleAbove(58, 17, 1, 3075, 88, 2093, 18, 0x4_0000);
    DoubleAbove(58, 35, 1, 2093, 194, 3877, 16, 0x1_0000);
    PowMul(2, 8, 52);
    PowAdd(2, 404, 12);
    MulMono(3877, 0x1000, Pow(2, 404), Pow(2, 404));
  }
}
