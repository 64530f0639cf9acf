/** MixColumns on one column of four bytes: the gate form of the code, the sums of FIPS 197 section
    5.1.3, and the way the inverse direction reuses the forward one. */
module Column {
  import opened Sbox

  /** Row zero of MixColumns for the column a, b, c, d: {02}a + {03}b + c + d. */
  function MixByte(a: Bits, b: Bits, c: Bits, d: Bits): (r: Bits) {
    Xor(Xor(XTime(a), Xor(XTime(b), b)), Xor(c, d))
  }

  /** What the code computes for one bit position of each slice from x_01 = x + ROT(x, 1) and
      x_123 = ROT(x_01, 1) + ROT(x, 3). */
  function MixGates(s_01: Bits, s_123: Bits): (r: Bits) {
    Bits(s_01.b7 != s_123.b0, (s_01.b7 != s_01.b0) != s_123.b1, s_01.b1 != s_123.b2, (s_01.b7 != s_01.b2) != s_123.b3,
         (s_01.b7 != s_01.b3) != s_123.b4, s_01.b4 != s_123.b5, s_01.b5 != s_123.b6, s_01.b6 != s_123.b7)
  }

  /** The update that turns the forward result t into the inverse one, from t_02 = t + ROT(t, 2). */
  function FixGates(t: Bits, t_02: Bits): (r: Bits) {
    Bits(t.b0 != t_02.b6, t.b1 != (t_02.b6 != t_02.b7), t.b2 != (t_02.b0 != t_02.b7), t.b3 != (t_02.b1 != t_02.b6),
         t.b4 != ((t_02.b2 != t_02.b6) != t_02.b7), t.b5 != (t_02.b3 != t_02.b7), t.b6 != t_02.b4, t.b7 != t_02.b5)
  }

  // ---------------------------------------------------------------- bit by bit

  predicate BitAt(x: Bits, i: nat) {
    match i
    case 0 => x.b0
    case 1 => x.b1
    case 2 => x.b2
    case 3 => x.b3
    case 4 => x.b4
    case 5 => x.b5
    case 6 => x.b6
    case _ => x.b7
  }

  lemma XorAt()
    ensures forall x: Bits, y: Bits, i: nat {:trigger BitAt(Xor(x, y), i)} ::
      BitAt(Xor(x, y), i) == (BitAt(x, i) != BitAt(y, i))
  {
  }

  lemma SameBits(x: Bits, y: Bits)
    requires forall i: nat | i < 8 :: BitAt(x, i) == BitAt(y, i)
    ensures x == y
  {
    assert BitAt(x, 0) == BitAt(y, 0) && BitAt(x, 1) == BitAt(y, 1) && BitAt(x, 2) == BitAt(y, 2) &&
      BitAt(x, 3) == BitAt(y, 3);
    assert BitAt(x, 4) == BitAt(y, 4) && BitAt(x, 5) == BitAt(y, 5) && BitAt(x, 6) == BitAt(y, 6) &&
      BitAt(x, 7) == BitAt(y, 7);
  }

  /** The gates are the sum of FIPS 197. */
  lemma MixGatesIsMixByte(a: Bits, b: Bits, c: Bits, d: Bits)
    ensures MixGates(Xor(a, b), Xor(Xor(b, c), d)) == MixByte(a, b, c, d)
  {
    GateBit(a.b7, b.b7, b.b0, c.b0, d.b0); GateBit2(a.b0, a.b7, b.b0, b.b7, b.b1, c.b1, d.b1);
    GateBit(a.b1, b.b1, b.b2, c.b2, d.b2); GateBit2(a.b2, a.b7, b.b2, b.b7, b.b3, c.b3, d.b3);
    GateBit2(a.b3, a.b7, b.b3, b.b7, b.b4, c.b4, d.b4); GateBit(a.b4, b.b4, b.b5, c.b5, d.b5);
    GateBit(a.b5, b.b5, b.b6, c.b6, d.b6); GateBit(a.b6, b.b6, b.b7, c.b7, d.b7);
  }

  lemma GateBit(p: bool, q: bool, b: bool, c: bool, d: bool)
    ensures ((p != q) != ((b != c) != d)) == ((p != (q != b)) != (c != d))
  {
  }

  lemma GateBit2(p: bool, top: bool, q: bool, top': bool, b: bool, c: bool, d: bool)
    ensures (((top != top') != (p != q)) != ((b != c) != d)) == (((p != top) != ((q != top') != b)) != (c != d))
  {
  }

  lemma FixGatesIs(t: Bits, t_02: Bits)
    ensures FixGates(t, t_02) == Xor(t, XTime(XTime(t_02)))
  {
  }

  lemma XTimeLinear(a: Bits, b: Bits)
    ensures XTime(Xor(a, b)) == Xor(XTime(a), XTime(b))
  {
  }

  // ---------------------------------------------------------------- the inverse

  /** u0 + u1 where the u are the mixed column. */
  lemma PairSum(a: Bits, b: Bits, c: Bits, d: Bits)
    ensures Xor(MixByte(a, b, c, d), MixByte(b, c, d, a)) == Xor(Xor(XTime(a), a), Xor(b, XTime(c)))
  {
    hide BitAt, Xor, XTime;
    forall i: nat ensures BitAt(Xor(MixByte(a, b, c, d), MixByte(b, c, d, a)), i) ==
      BitAt(Xor(Xor(XTime(a), a), Xor(b, XTime(c))), i) {
      PairAt(a, b, c, d, XTime(a), XTime(b), XTime(c), i);
    }
    SameBits(Xor(MixByte(a, b, c, d), MixByte(b, c, d, a)), Xor(Xor(XTime(a), a), Xor(b, XTime(c))));
  }

  lemma PairAt(a: Bits, b: Bits, c: Bits, d: Bits, xa: Bits, xb: Bits, xc: Bits, i: nat)
    ensures BitAt(Xor(Xor(Xor(xa, Xor(xb, b)), Xor(c, d)), Xor(Xor(xb, Xor(xc, c)), Xor(d, a))), i)
         == BitAt(Xor(Xor(xa, a), Xor(b, xc)), i)
  {
    hide BitAt, Xor;
    XorAt();
  }

  /** u1 + u2 + u3. */
  lemma TripleSum(a: Bits, b: Bits, c: Bits, d: Bits)
    ensures Xor(MixByte(b, c, d, a), Xor(MixByte(c, d, a, b), MixByte(d, a, b, c))) == Xor(Xor(XTime(a), a), XTime(b))
  {
    hide BitAt, Xor, XTime;
    PairSum(c, d, a, b);
    var t := Xor(Xor(XTime(c), c), Xor(d, XTime(a)));
    forall i: nat ensures BitAt(Xor(MixByte(b, c, d, a), t), i) == BitAt(Xor(Xor(XTime(a), a), XTime(b)), i) {
      TripleAt(a, c, d, XTime(a), XTime(b), XTime(c), i);
    }
    SameBits(Xor(MixByte(b, c, d, a), t), Xor(Xor(XTime(a), a), XTime(b)));
  }

  lemma TripleAt(a: Bits, c: Bits, d: Bits, xa: Bits, xb: Bits, xc: Bits, i: nat)
    ensures BitAt(Xor(Xor(Xor(xb, Xor(xc, c)), Xor(d, a)), Xor(Xor(xc, c), Xor(d, xa))), i) ==
      BitAt(Xor(Xor(xa, a), xb), i)
  {
    hide BitAt, Xor;
    XorAt();
  }

  /** {02}a + {03}b + c + d is {02}(a + b) + (b + c + d). */
  lemma MixSplit(a: Bits, b: Bits, c: Bits, d: Bits)
    ensures MixByte(a, b, c, d) == Xor(XTime(Xor(a, b)), Xor(b, Xor(c, d)))
  {
    hide BitAt, Xor, XTime;
    XTimeLinear(a, b);
    XorAt();
    SameBits(MixByte(a, b, c, d), Xor(XTime(Xor(a, b)), Xor(b, Xor(c, d))));
  }

  /** Mixing twice is multiplying by {04}x^2 + {05}. */
  lemma MixTwice(a: Bits, b: Bits, c: Bits, d: Bits)
    ensures MixByte(MixByte(a, b, c, d), MixByte(b, c, d, a), MixByte(c, d, a, b), MixByte(d, a, b, c))
         == Xor(a, XTime(XTime(Xor(a, c))))
  {
    hide MixByte, Xor, XTime;
    PairSum(a, b, c, d);
    TripleSum(a, b, c, d);
    MixSplit(MixByte(a, b, c, d), MixByte(b, c, d, a), MixByte(c, d, a, b), MixByte(d, a, b, c));
    MixCollect(a, b, c);
  }

  lemma MixCollect(a: Bits, b: Bits, c: Bits)
    ensures Xor(XTime(Xor(Xor(XTime(a), a), Xor(b, XTime(c)))), Xor(Xor(XTime(a), a), XTime(b))) ==
      Xor(a, XTime(XTime(Xor(a, c))))
  {
    hide BitAt, Xor, XTime;
    XTimeLinear(Xor(XTime(a), a), Xor(b, XTime(c)));
    XTimeLinear(XTime(a), a);
    XTimeLinear(b, XTime(c));
    XTimeLinear(a, c);
    XTimeLinear(XTime(a), XTime(c));
    var left := Xor(XTime(Xor(Xor(XTime(a), a), Xor(b, XTime(c)))), Xor(Xor(XTime(a), a), XTime(b)));
    forall i: nat ensures BitAt(left, i) == BitAt(Xor(a, Xor(XTime(XTime(a)), XTime(XTime(c)))), i) {
      CollectAt(a, XTime(a), XTime(b), XTime(XTime(a)), XTime(XTime(c)), i);
    }
    SameBits(left, Xor(a, XTime(XTime(Xor(a, c)))));
  }

  lemma CollectAt(a: Bits, xa: Bits, xb: Bits, xxa: Bits, xxc: Bits, i: nat)
    ensures BitAt(Xor(Xor(Xor(xxa, xa), Xor(xb, xxc)), Xor(Xor(xa, a), xb)), i) == BitAt(Xor(a, Xor(xxa, xxc)), i)
  {
    hide BitAt, Xor;
    XorAt();
  }

  /** The inverse direction, applied to a mixed column, gives its first byte back: the forward
      gates followed by the update. */
  lemma MixInverse(a: Bits, b: Bits, c: Bits, d: Bits)
    ensures var u0, u1, u2, u3 := MixByte(a, b, c, d), MixByte(b, c, d, a), MixByte(c, d, a, b), MixByte(d, a, b, c);
      FixGates(MixByte(u0, u1, u2, u3), Xor(MixByte(u0, u1, u2, u3), MixByte(u2, u3, u0, u1))) == a
  {
    hide MixByte, FixGates, Xor, XTime;
    MixTwice(a, b, c, d);
    MixTwice(c, d, a, b);
    var e := XTime(XTime(Xor(a, c)));
    XorSwap(a, c);
    FixGatesIs(Xor(a, e), Xor(Xor(a, e), Xor(c, e)));
    XorCancel(a, c, e);
  }

  /** Row zero of InvMixColumns, FIPS 197 section 5.3.3: {0e}a + {0b}b + {0d}c + {09}d. */
  function InvMixByte(a: Bits, b: Bits, c: Bits, d: Bits): (r: Bits) {
    Xor(Xor(Xor(XTime(XTime(XTime(a))), Xor(XTime(XTime(a)), XTime(a))), Xor(XTime(XTime(XTime(b))), Xor(XTime(b), b))),
        Xor(Xor(XTime(XTime(XTime(c))), Xor(XTime(XTime(c)), c)), Xor(XTime(XTime(XTime(d))), d)))
  }

  /** The shared gates with the update behind them are the sum of FIPS 197 for the inverse. */
  lemma FixGatesIsInvMixByte(a: Bits, b: Bits, c: Bits, d: Bits)
    ensures FixGates(MixByte(a, b, c, d), Xor(MixByte(a, b, c, d), MixByte(c, d, a, b))) == InvMixByte(a, b, c, d)
  {
    hide FixGates, BitAt, Xor, XTime;
    var t, u := MixByte(a, b, c, d), MixByte(c, d, a, b);
    var (a1, b1, c1, d1) := (XTime(a), XTime(b), XTime(c), XTime(d));
    var (a2, b2, c2, d2) := (XTime(a1), XTime(b1), XTime(c1), XTime(d1));
    var (a3, b3, c3, d3) := (XTime(a2), XTime(b2), XTime(c2), XTime(d2));
    FixGatesIs(t, Xor(t, u));
    // t + u is {03}a + {02}b + {03}c + {02}d
    forall i: nat ensures BitAt(Xor(t, u), i) == BitAt(Xor(Xor(Xor(a1, a), b1), Xor(Xor(c1, c), d1)), i) {
      DifferenceAt(a, b, c, d, a1, b1, c1, d1, i);
    }
    SameBits(Xor(t, u), Xor(Xor(Xor(a1, a), b1), Xor(Xor(c1, c), d1)));
    Times4(a, b, c, d);
    forall i: nat ensures BitAt(Xor(t, Xor(Xor(Xor(a3, a2), b3), Xor(Xor(c3, c2), d3))), i) ==
      BitAt(InvMixByte(a, b, c, d), i) {
      InvAt(a, b, c, d, a1, b1, a2, c2, a3, b3, c3, d3, i);
    }
    SameBits(FixGates(t, Xor(t, u)), InvMixByte(a, b, c, d));
  }

  lemma Times4(a: Bits, b: Bits, c: Bits, d: Bits)
    ensures var a1, b1, c1, d1 := XTime(a), XTime(b), XTime(c), XTime(d);
      XTime(XTime(Xor(Xor(Xor(a1, a), b1), Xor(Xor(c1, c), d1))))
        == Xor(Xor(Xor(XTime(XTime(a1)), XTime(a1)), XTime(XTime(b1))),
          Xor(Xor(XTime(XTime(c1)), XTime(c1)), XTime(XTime(d1))))
  {
    hide Xor, XTime;
    HalfTimes4(a, b);
    HalfTimes4(c, d);
    var p, q := Xor(Xor(XTime(a), a), XTime(b)), Xor(Xor(XTime(c), c), XTime(d));
    XTimeLinear(p, q);
    XTimeLinear(XTime(p), XTime(q));
  }

  lemma HalfTimes4(a: Bits, b: Bits)
    ensures XTime(XTime(Xor(Xor(XTime(a), a), XTime(b))))
         == Xor(Xor(XTime(XTime(XTime(a))), XTime(XTime(a))), XTime(XTime(XTime(b))))
  {
    hide Xor, XTime;
    XTimeLinear(Xor(XTime(a), a), XTime(b));
    XTimeLinear(XTime(a), a);
    XTimeLinear(Xor(XTime(XTime(a)), XTime(a)), XTime(XTime(b)));
    XTimeLinear(XTime(XTime(a)), XTime(a));
  }

  lemma DifferenceAt(a: Bits, b: Bits, c: Bits, d: Bits, a1: Bits, b1: Bits, c1: Bits, d1: Bits, i: nat)
    ensures BitAt(Xor(Xor(Xor(a1, Xor(b1, b)), Xor(c, d)), Xor(Xor(c1, Xor(d1, d)), Xor(a, b))), i)
         == BitAt(Xor(Xor(Xor(a1, a), b1), Xor(Xor(c1, c), d1)), i)
  {
    hide BitAt, Xor;
    XorAt();
  }

  lemma InvAt(a: Bits, b: Bits, c: Bits, d: Bits, a1: Bits, b1: Bits, a2: Bits, c2: Bits, a3: Bits, b3: Bits,
      c3: Bits, d3: Bits, i: nat)
    ensures BitAt(Xor(Xor(Xor(a1, Xor(b1, b)), Xor(c, d)), Xor(Xor(Xor(a3, a2), b3), Xor(Xor(c3, c2), d3))), i)
         == BitAt(Xor(Xor(Xor(a3, Xor(a2, a1)), Xor(b3, Xor(b1, b))), Xor(Xor(c3, Xor(c2, c)), Xor(d3, d))), i)
  {
    hide BitAt, Xor;
    SwapAt(Xor(a1, Xor(b1, b)), Xor(c, d), Xor(Xor(a3, a2), b3), Xor(Xor(c3, c2), d3), i);
    LeftAt(a1, b1, b, a2, a3, b3, i);
    RightAt(c, d, c2, c3, d3, i);
    XorAt();
  }

  lemma SwapAt(a: Bits, b: Bits, c: Bits, d: Bits, i: nat)
    ensures BitAt(Xor(Xor(a, b), Xor(c, d)), i) == BitAt(Xor(Xor(a, c), Xor(b, d)), i)
  {
    hide BitAt, Xor;
    XorAt();
  }

  lemma LeftAt(a1: Bits, b1: Bits, b: Bits, a2: Bits, a3: Bits, b3: Bits, i: nat)
    ensures BitAt(Xor(Xor(a1, Xor(b1, b)), Xor(Xor(a3, a2), b3)), i) ==
      BitAt(Xor(Xor(a3, Xor(a2, a1)), Xor(b3, Xor(b1, b))), i)
  {
    hide BitAt, Xor;
    XorAt();
  }

  lemma RightAt(c: Bits, d: Bits, c2: Bits, c3: Bits, d3: Bits, i: nat)
    ensures BitAt(Xor(Xor(c, d), Xor(Xor(c3, c2), d3)), i) == BitAt(Xor(Xor(c3, Xor(c2, c)), Xor(d3, d)), i)
  {
    hide BitAt, Xor;
    XorAt();
  }

  lemma XorSwap(a: Bits, c: Bits)
    ensures Xor(c, a) == Xor(a, c)
  {
  }

  lemma XorCancel(a: Bits, c: Bits, e: Bits)
    ensures Xor(Xor(a, e), Xor(c, e)) == Xor(a, c) && Xor(Xor(a, e), e) == a
  {
    hide BitAt, Xor;
    forall i: nat ensures BitAt(Xor(Xor(a, e), Xor(c, e)), i) == BitAt(Xor(a, c), i) &&
      BitAt(Xor(Xor(a, e), e), i) == BitAt(a, i) {
      CancelAt(a, c, e, i);
    }
    SameBits(Xor(Xor(a, e), Xor(c, e)), Xor(a, c));
    SameBits(Xor(Xor(a, e), e), a);
  }

  lemma CancelAt(a: Bits, c: Bits, e: Bits, i: nat)
    ensures BitAt(Xor(Xor(a, e), Xor(c, e)), i) == BitAt(Xor(a, c), i) && BitAt(Xor(Xor(a, e), e), i) == BitAt(a, i)
  {
    hide BitAt, Xor;
    XorAt();
  }
}
