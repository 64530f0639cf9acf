/** The portable SHA-256 of src/crypto/sha256.cpp: the unrolled compression function. */
module ShaCode {
  import opened ByteTypes
  import opened ShaSpec

  function Ch(x: word, y: word, z: word): (r: word) {
    z ^ (x & (y ^ z))
  }

  function Maj(x: word, y: word, z: word): (r: word) {
    (x & y) | (z & (x | y))
  }

  lemma ChForms(x: word, y: word, z: word)
    ensures z ^ (x & (y ^ z)) == (x & y) ^ (!x & z)
  {
  }

  lemma ChIsChoose(x: word, y: word, z: word)
    ensures Ch(x, y, z) == Choose(x, y, z)
  {
    ChForms(x, y, z);
  }

  lemma MajForms(x: word, y: word, z: word)
    ensures (x & y) | (z & (x | y)) == (x & y) ^ (x & z) ^ (y & z)
  {
  }

  lemma MajIsMajority(x: word, y: word, z: word)
    ensures Maj(x, y, z) == Majority(x, y, z)
  {
    MajForms(x, y, z);
  }

  // ---------------------------------------------------------------- rounds

  /** One round: the new d and the new h. */
  method Round(a: word, b: word, c: word, d: word, e: word, f: word, g: word, h: word, k: word)
      returns (d': word, h': word)
    ensures d' == Sum(d, T1(e, f, g, h, k)) && h' == Sum(T1(e, f, g, h, k), T2(a, b, c))
  {
    hide Sum, Sum4, Sigma0, Sigma1, Ch, Maj, Choose, Majority;
    ChIsChoose(e, f, g);
    MajIsMajority(a, b, c);
    var t1 := Sum4(h, Sigma1(e), Ch(e, f, g), k);
    var t2 := Sum(Sigma0(a), Maj(a, b, c));
    d' := Sum(d, t1);
    h' := Sum(t1, t2);
  }

  /** Eight steps of FIPS 180-4. */
  function EightSteps(r: Regs, k0: word, k1: word, k2: word, k3: word, k4: word, k5: word, k6: word,
      k7: word): (result: Regs) {
    Step(Step(Step(Step(Step(Step(Step(Step(r, k0), k1), k2), k3), k4), k5), k6), k7)
  }

  /** Eight rounds with the names of the registers rotated, as each group of eight lines of the code. */
  method EightRounds(r: Regs, k0: word, k1: word, k2: word, k3: word, k4: word, k5: word, k6: word, k7: word)
      returns (r': Regs)
    ensures r' == EightSteps(r, k0, k1, k2, k3, k4, k5, k6, k7)
  {
    hide T1, T2, Sum;
    var Regs(a, b, c, d, e, f, g, h) := r;
    d, h := Round(a, b, c, d, e, f, g, h, k0);
    c, g := Round(h, a, b, c, d, e, f, g, k1);
    b, f := Round(g, h, a, b, c, d, e, f, k2);
    a, e := Round(f, g, h, a, b, c, d, e, k3);
    h, d := Round(e, f, g, h, a, b, c, d, k4);
    g, c := Round(d, e, f, g, h, a, b, c, k5);
    f, b := Round(c, d, e, f, g, h, a, b, k6);
    e, a := Round(b, c, d, e, f, g, h, a, k7);
    r' := Regs(a, b, c, d, e, f, g, h);
  }

  // ---------------------------------------------------------------- the message schedule

  /** w += SmallSigma1(x) + y + SmallSigma0(z). */
  function Extend(w: word, x: word, y: word, z: word): (r: word) {
    Sum4(w, SmallSigma1(x), y, SmallSigma0(z))
  }

  lemma ExtendIsNext(w: word, x: word, y: word, z: word)
    ensures Extend(w, x, y, z) == Next(x, y, z, w)
  {
    hide SmallSigma0, SmallSigma1;
  }

  /** Words t to t + 15 of the schedule. */
  ghost function Window(m: Words, t: nat): (r: Words) {
    seq(16, i requires 0 <= i < 16 => W(m, t + i))
  }

  lemma ExtendWindow(m: Words, t: nat, i: nat)
    requires i < 16
    ensures W(m, t + i + 16) == Extend(W(m, t + i), W(m, t + i + 14), W(m, t + i + 9), W(m, t + i + 1))
  {
    hide Next, Extend;
    ExtendIsNext(W(m, t + i), W(m, t + i + 14), W(m, t + i + 9), W(m, t + i + 1));
  }

  /** One of the three rows of sixteen updates. */
  method ExtendAll(w: Words, ghost m: Words, ghost t: nat) returns (w': Words)
    requires w == Window(m, t)
    ensures w' == Window(m, t + 16)
  {
    hide W, Extend, Window;
    var w0, w1, w2, w3 := w[0], w[1], w[2], w[3];
    var w4, w5, w6, w7 := w[4], w[5], w[6], w[7];
    var w8, w9, w10, w11 := w[8], w[9], w[10], w[11];
    var w12, w13, w14, w15 := w[12], w[13], w[14], w[15];
    w0 := Extend(w0, w14, w9, w1);
    w1 := Extend(w1, w15, w10, w2);
    w2 := Extend(w2, w0, w11, w3);
    w3 := Extend(w3, w1, w12, w4);
    w4 := Extend(w4, w2, w13, w5);
    w5 := Extend(w5, w3, w14, w6);
    w6 := Extend(w6, w4, w15, w7);
    w7 := Extend(w7, w5, w0, w8);
    FirstHalf(m, t, w0, w1, w2, w3, w4, w5, w6, w7, w);
    w8 := Extend(w8, w6, w1, w9);
    w9 := Extend(w9, w7, w2, w10);
    w10 := Extend(w10, w8, w3, w11);
    w11 := Extend(w11, w9, w4, w12);
    w12 := Extend(w12, w10, w5, w13);
    w13 := Extend(w13, w11, w6, w14);
    w14 := Extend(w14, w12, w7, w15);
    w15 := Extend(w15, w13, w8, w0);
    SecondHalf(m, t, w8, w9, w10, w11, w12, w13, w14, w15, w);
    WindowIs(m, t + 16, w0, w1, w2, w3, w4, w5, w6, w7, w8, w9, w10, w11, w12, w13, w14, w15);
    w' := [w0, w1, w2, w3, w4, w5, w6, w7, w8, w9, w10, w11, w12, w13, w14, w15];
  }

  lemma WindowIs(m: Words, t: nat, w0: word, w1: word, w2: word, w3: word, w4: word, w5: word, w6: word,
                 w7: word, w8: word, w9: word, w10: word, w11: word, w12: word, w13: word, w14: word, w15: word)
    requires w0 == W(m, t) && w1 == W(m, t + 1) && w2 == W(m, t + 2) && w3 == W(m, t + 3)
    requires w4 == W(m, t + 4) && w5 == W(m, t + 5) && w6 == W(m, t + 6) && w7 == W(m, t + 7)
    requires w8 == W(m, t + 8) && w9 == W(m, t + 9) && w10 == W(m, t + 10) && w11 == W(m, t + 11)
    requires w12 == W(m, t + 12) && w13 == W(m, t + 13) && w14 == W(m, t + 14) && w15 == W(m, t + 15)
    ensures [w0, w1, w2, w3, w4, w5, w6, w7, w8, w9, w10, w11, w12, w13, w14, w15] == Window(m, t)
  {
    hide W;
  }

  lemma FirstHalf(m: Words, t: nat, w0: word, w1: word, w2: word, w3: word, w4: word, w5: word, w6: word, w7: word,
      w: Words)
    requires w == Window(m, t)
    requires w0 == Extend(w[0], w[14], w[9], w[1]) && w1 == Extend(w[1], w[15], w[10], w[2])
    requires w2 == Extend(w[2], w0, w[11], w[3]) && w3 == Extend(w[3], w1, w[12], w[4])
    requires w4 == Extend(w[4], w2, w[13], w[5]) && w5 == Extend(w[5], w3, w[14], w[6])
    requires w6 == Extend(w[6], w4, w[15], w[7]) && w7 == Extend(w[7], w5, w0, w[8])
    ensures w0 == W(m, t + 16) && w1 == W(m, t + 17) && w2 == W(m, t + 18) && w3 == W(m, t + 19)
    ensures w4 == W(m, t + 20) && w5 == W(m, t + 21) && w6 == W(m, t + 22) && w7 == W(m, t + 23)
  {
    hide W, Extend;
    ExtendWindow(m, t, 0); ExtendWindow(m, t, 1); ExtendWindow(m, t, 2); ExtendWindow(m, t, 3);
    ExtendWindow(m, t, 4); ExtendWindow(m, t, 5); ExtendWindow(m, t, 6); ExtendWindow(m, t, 7);
  }

  lemma SecondHalf(m: Words, t: nat, w8: word, w9: word, w10: word, w11: word, w12: word, w13: word, w14: word,
      w15: word, w: Words)
    requires w == Window(m, t)
    requires w8 == Extend(w[8], W(m, t + 22), W(m, t + 17), w[9]) &&
      w9 == Extend(w[9], W(m, t + 23), W(m, t + 18), w[10])
    requires w10 == Extend(w[10], w8, W(m, t + 19), w[11]) && w11 == Extend(w[11], w9, W(m, t + 20), w[12])
    requires w12 == Extend(w[12], w10, W(m, t + 21), w[13]) && w13 == Extend(w[13], w11, W(m, t + 22), w[14])
    requires w14 == Extend(w[14], w12, W(m, t + 23), w[15]) && w15 == Extend(w[15], w13, w8, W(m, t + 16))
    ensures w8 == W(m, t + 24) && w9 == W(m, t + 25) && w10 == W(m, t + 26) && w11 == W(m, t + 27)
    ensures w12 == W(m, t + 28) && w13 == W(m, t + 29) && w14 == W(m, t + 30) && w15 == W(m, t + 31)
  {
    hide W, Extend;
    ExtendWindow(m, t, 8); ExtendWindow(m, t, 9); ExtendWindow(m, t, 10); ExtendWindow(m, t, 11);
    ExtendWindow(m, t, 12); ExtendWindow(m, t, 13); ExtendWindow(m, t, 14); ExtendWindow(m, t, 15);
  }

  /** v is the row of sixteen words that follows w in a schedule. */
  predicate Follows(w: Words, v: Words) {
    && v[0] == Extend(w[0], w[14], w[9], w[1]) && v[1] == Extend(w[1], w[15], w[10], w[2])
    && v[2] == Extend(w[2], v[0], w[11], w[3]) && v[3] == Extend(w[3], v[1], w[12], w[4])
    && v[4] == Extend(w[4], v[2], w[13], w[5]) && v[5] == Extend(w[5], v[3], w[14], w[6])
    && v[6] == Extend(w[6], v[4], w[15], w[7]) && v[7] == Extend(w[7], v[5], v[0], w[8])
    && v[8] == Extend(w[8], v[6], v[1], w[9]) && v[9] == Extend(w[9], v[7], v[2], w[10])
    && v[10] == Extend(w[10], v[8], v[3], w[11]) && v[11] == Extend(w[11], v[9], v[4], w[12])
    && v[12] == Extend(w[12], v[10], v[5], w[13]) && v[13] == Extend(w[13], v[11], v[6], w[14])
    && v[14] == Extend(w[14], v[12], v[7], w[15]) && v[15] == Extend(w[15], v[13], v[8], v[0])
  }

  lemma RowIs(m: Words, t: nat, w: Words, v: Words)
    requires w == Window(m, t) && Follows(w, v)
    ensures v == Window(m, t + 16)
  {
    hide W, Extend, Window;
    FirstHalf(m, t, v[0], v[1], v[2], v[3], v[4], v[5], v[6], v[7], w);
    SecondHalf(m, t, v[8], v[9], v[10], v[11], v[12], v[13], v[14], v[15], w);
    WindowAt(m, t + 16, v);
  }

  lemma WindowAt(m: Words, t: nat, v: Words)
    requires v[0] == W(m, t) && v[1] == W(m, t + 1) && v[2] == W(m, t + 2) && v[3] == W(m, t + 3)
    requires v[4] == W(m, t + 4) && v[5] == W(m, t + 5) && v[6] == W(m, t + 6) && v[7] == W(m, t + 7)
    requires v[8] == W(m, t + 8) && v[9] == W(m, t + 9) && v[10] == W(m, t + 10) && v[11] == W(m, t + 11)
    requires v[12] == W(m, t + 12) && v[13] == W(m, t + 13) && v[14] == W(m, t + 14) && v[15] == W(m, t + 15)
    ensures v == Window(m, t)
  {
    hide W;
  }

  // ---------------------------------------------------------------- sixteen rounds at a time

  lemma EightAt(s: Regs, m: Words, t: nat)
    requires t + 8 <= 64
    ensures Rounds(s, m, t + 8) == EightSteps(Rounds(s, m, t), Key(m, t), Key(m, t + 1), Key(m, t + 2), Key(m, t + 3),
                                              Key(m, t + 4), Key(m, t + 5), Key(m, t + 6), Key(m, t + 7))
  {
    hide W, K, Sum, Step;
    assert Rounds(s, m, t + 2) == Step(Step(Rounds(s, m, t), Key(m, t)), Key(m, t + 1));
    assert Rounds(s, m, t + 4) == Step(Step(Rounds(s, m, t + 2), Key(m, t + 2)), Key(m, t + 3));
    assert Rounds(s, m, t + 6) == Step(Step(Rounds(s, m, t + 4), Key(m, t + 4)), Key(m, t + 5));
  }

  /** What round t adds: K_t + W_t. */
  ghost function Key(m: Words, t: nat): (r: word)
    requires t < 64
  {
    Sum(K(t), W(m, t))
  }

  /** k holds what rounds t to t + 15 add. */
  ghost predicate Keys(k: Words, m: Words, t: nat)
    requires t + 16 <= 64
  {
    && k[..8] == [Key(m, t), Key(m, t + 1), Key(m, t + 2), Key(m, t + 3),
                  Key(m, t + 4), Key(m, t + 5), Key(m, t + 6), Key(m, t + 7)]
    && k[8..] == [Key(m, t + 8), Key(m, t + 9), Key(m, t + 10), Key(m, t + 11),
                  Key(m, t + 12), Key(m, t + 13), Key(m, t + 14), Key(m, t + 15)]
  }

  lemma FirstEight(s: Regs, m: Words, t: nat, k: Words)
    requires t + 16 <= 64 && Keys(k, m, t)
    ensures Rounds(s, m, t + 8) == EightSteps(Rounds(s, m, t), k[0], k[1], k[2], k[3], k[4], k[5], k[6], k[7])
  {
    hide Rounds, EightSteps, Key;
    EightAt(s, m, t);
  }

  lemma LastEight(s: Regs, m: Words, t: nat, k: Words)
    requires t + 16 <= 64 && Keys(k, m, t)
    ensures Rounds(s, m, t + 16) ==
      EightSteps(Rounds(s, m, t + 8), k[8], k[9], k[10], k[11], k[12], k[13], k[14], k[15])
  {
    hide Rounds, EightSteps, Key;
    EightAt(s, m, t + 8);
  }

  lemma FirstTo(s: Regs, m: Words, t: nat, k: Words, a: Regs, b: Regs)
    requires t + 16 <= 64 && Keys(k, m, t) && Rounds(s, m, t) == a
    requires EightSteps(a, k[0], k[1], k[2], k[3], k[4], k[5], k[6], k[7]) == b
    ensures Rounds(s, m, t + 8) == b
  {
    hide Rounds, EightSteps, Keys;
    FirstEight(s, m, t, k);
  }

  lemma LastTo(s: Regs, m: Words, t: nat, k: Words, a: Regs, b: Regs)
    requires t + 16 <= 64 && Keys(k, m, t) && Rounds(s, m, t + 8) == a
    requires EightSteps(a, k[8], k[9], k[10], k[11], k[12], k[13], k[14], k[15]) == b
    ensures Rounds(s, m, t + 16) == b
  {
    hide Rounds, EightSteps, Keys;
    LastEight(s, m, t, k);
  }

  /** Two groups of eight lines. */
  method SixteenRounds(r: Regs, k: Words, ghost s: Regs, ghost m: Words, ghost t: nat) returns (r': Regs)
    requires t + 16 <= 64 && r == Rounds(s, m, t) && Keys(k, m, t)
    ensures r' == Rounds(s, m, t + 16)
  {
    hide Rounds, EightSteps, Keys;
    FirstEight(s, m, t, k);
    LastEight(s, m, t, k);
    r' := EightRounds(r, k[0], k[1], k[2], k[3], k[4], k[5], k[6], k[7]);
    r' := EightRounds(r', k[8], k[9], k[10], k[11], k[12], k[13], k[14], k[15]);
  }

  /** The constants of sixteen rounds, each added to its word of the schedule. */
  function AddWords(k: Words, w: Words): (r: Words) {
    seq(16, i requires 0 <= i < 16 => Sum(k[i], w[i]))
  }

  /** f holds the sums of k and w, at the eight places from i on. */
  predicate Adds(k: Words, w: Words, f: Words, i: nat)
    requires i <= 8
  {
    && f[i] == Sum(k[i], w[i]) && f[i + 1] == Sum(k[i + 1], w[i + 1])
    && f[i + 2] == Sum(k[i + 2], w[i + 2]) && f[i + 3] == Sum(k[i + 3], w[i + 3])
    && f[i + 4] == Sum(k[i + 4], w[i + 4]) && f[i + 5] == Sum(k[i + 5], w[i + 5])
    && f[i + 6] == Sum(k[i + 6], w[i + 6]) && f[i + 7] == Sum(k[i + 7], w[i + 7])
  }

  lemma AddsIs(k: Words, w: Words, f: Words)
    requires Adds(k, w, f, 0) && Adds(k, w, f, 8)
    ensures f == AddWords(k, w)
  {
    hide Sum;
  }

  lemma WindowKeys(k: Words, m: Words, t: nat)
    requires t + 16 <= 64
    requires forall i | 0 <= i < 16 :: k[i] == K(t + i)
    ensures Keys(AddWords(k, Window(m, t)), m, t)
  {
    hide AddWords, Window, Key;
    ghost var a := AddWords(k, Window(m, t));
    forall i | 0 <= i < 16 ensures a[i] == Key(m, t + i) {
      KeyAt(k, m, t, i);
    }
    assert a[0] == Key(m, t + 0) && a[8] == Key(m, t + 8);
  }

  lemma KeyAt(k: Words, m: Words, t: nat, i: nat)
    requires t + 16 <= 64 && i < 16 && k[i] == K(t + i)
    ensures AddWords(k, Window(m, t))[i] == Key(m, t + i)
  {
    hide W, K, Sum;
  }

  const K0: Words := [
    0x428a2f98, 0x71374491, 0xb5c0fbcf, 0xe9b5dba5, 0x3956c25b, 0x59f111f1, 0x923f82a4, 0xab1c5ed5,
    0xd807aa98, 0x12835b01, 0x243185be, 0x550c7dc3, 0x72be5d74, 0x80deb1fe, 0x9bdc06a7, 0xc19bf174]

  const K16: Words := [
    0xe49b69c1, 0xefbe4786, 0x0fc19dc6, 0x240ca1cc, 0x2de92c6f, 0x4a7484aa, 0x5cb0a9dc, 0x76f988da,
    0x983e5152, 0xa831c66d, 0xb00327c8, 0xbf597fc7, 0xc6e00bf3, 0xd5a79147, 0x06ca6351, 0x14292967]

  const K32: Words := [
    0x27b70a85, 0x2e1b2138, 0x4d2c6dfc, 0x53380d13, 0x650a7354, 0x766a0abb, 0x81c2c92e, 0x92722c85,
    0xa2bfe8a1, 0xa81a664b, 0xc24b8b70, 0xc76c51a3, 0xd192e819, 0xd6990624, 0xf40e3585, 0x106aa070]

  const K48: Words := [
    0x19a4c116, 0x1e376c08, 0x2748774c, 0x34b0bcb5, 0x391c0cb3, 0x4ed8aa4a, 0x5b9cca4f, 0x682e6ff3,
    0x748f82ee, 0x78a5636f, 0x84c87814, 0x8cc70208, 0x90befffa, 0xa4506ceb, 0xbef9a3f7, 0xc67178f2]

  lemma K0Is(i: nat)
    requires i < 16
    ensures K0[i] == K(0 + i)
  {
  }

  lemma K16Is(i: nat)
    requires i < 16
    ensures K16[i] == K(16 + i)
  {
  }

  lemma K32Is(i: nat)
    requires i < 16
    ensures K32[i] == K(32 + i)
  {
  }

  lemma K48Is(i: nat)
    requires i < 16
    ensures K48[i] == K(48 + i)
  {
  }

  /** One 64-byte block, as the body of the loop in Transform. */
  method CompressBlock(s: Regs, m: Words) returns (s': Regs)
    ensures s' == Compress(s, m)
  {
    hide Rounds, Window, K, AddWords, Sum, Key;
    var w := m;
    WindowZero(m);
    FirstKeys(m);
    var r := SixteenRounds(s, AddWords(K0, w), s, m, 0);
    w := ExtendAll(w, m, 0);
    r := SixteenRounds(r, AddWords(K16, w), s, m, 16);
    w := ExtendAll(w, m, 16);
    r := SixteenRounds(r, AddWords(K32, w), s, m, 32);
    w := ExtendAll(w, m, 32);
    r := SixteenRounds(r, AddWords(K48, w), s, m, 48);
    s' := AddRegs(s, r);
  }

  lemma WindowZero(m: Words)
    ensures Window(m, 0) == m
    ensures forall s :: Rounds(s, m, 0) == s
  {
  }

  lemma FirstKeys(m: Words)
    ensures Keys(AddWords(K0, Window(m, 0)), m, 0) && Keys(AddWords(K16, Window(m, 16)), m, 16)
    ensures Keys(AddWords(K32, Window(m, 32)), m, 32) && Keys(AddWords(K48, Window(m, 48)), m, 48)
  {
    hide Window, K, AddWords, Keys, K0, K16, K32, K48;
    forall i | 0 <= i < 16 ensures K0[i] == K(0 + i) && K16[i] == K(16 + i) && K32[i] == K(32 + i) &&
      K48[i] == K(48 + i) {
      K0Is(i); K16Is(i); K32Is(i); K48Is(i);
    }
    WindowKeys(K0, m, 0);
    WindowKeys(K16, m, 16);
    WindowKeys(K32, m, 32);
    WindowKeys(K48, m, 48);
  }

  // ---------------------------------------------------------------- blocks of bytes

  /** The eight state words s[0] to s[7]. */
  function RegsOf(s: seq<word>): (r: Regs)
    requires |s| == 8
  {
    Regs(s[0], s[1], s[2], s[3], s[4], s[5], s[6], s[7])
  }

  method Initialize(s: array<word>)
    requires s.Length == 8
    modifies s
    ensures RegsOf(s[..]) == INITIAL
  {
    s[0] := 0x6a09e667;
    s[1] := 0xbb67ae85;
    s[2] := 0x3c6ef372;
    s[3] := 0xa54ff53a;
    s[4] := 0x510e527f;
    s[5] := 0x9b05688c;
    s[6] := 0x1f83d9ab;
    s[7] := 0x5be0cd19;
  }

  method Transform(s: array<word>, chunk: array<byte>, from: nat, blocks: nat)
    requires s.Length == 8 && from + 64 * blocks <= chunk.Length
    modifies s
    ensures RegsOf(s[..]) == CompressAll(old(RegsOf(s[..])), chunk[from..from + 64 * blocks])
  {
    hide Compress, CompressAll, WordsOf, RegsOf;
    var at, left := from, blocks;
    ghost var goal := CompressAll(RegsOf(s[..]), chunk[from..from + 64 * blocks]);
    while left > 0
      invariant at + 64 * left == from + 64 * blocks
      invariant CompressAll(RegsOf(s[..]), chunk[at..at + 64 * left]) == goal
    {
      ghost var rest := chunk[at..at + 64 * left];
      assert rest[..64] == chunk[at..at + 64] && rest[64..] == chunk[at + 64..at + 64 * left];
      BlockFirst(RegsOf(s[..]), rest);
      left := left - 1;
      var r := CompressBlock(RegsOf(s[..]), WordsOf(chunk[at..at + 64]));
      StoreRegs(s, r);
      at := at + 64;
      assert chunk[at..at + 64 * left] == rest[64..];
    }
    NoBlock(RegsOf(s[..]), chunk[at..at]);
  }

  lemma BlockFirst(s: Regs, b: seq<byte>)
    requires |b| >= 64
    ensures CompressAll(s, b) == CompressAll(Compress(s, WordsOf(b[..64])), b[64..])
  {
  }

  lemma NoBlock(s: Regs, b: seq<byte>)
    requires b == []
    ensures CompressAll(s, b) == s
  {
  }

  method StoreRegs(s: array<word>, r: Regs)
    requires s.Length == 8
    modifies s
    ensures RegsOf(s[..]) == r
  {
    s[0], s[1], s[2], s[3], s[4], s[5], s[6], s[7] := r.a, r.b, r.c, r.d, r.e, r.f, r.g, r.h;
  }

  /** WriteBE32 for each of the eight words. */
  method WriteRegs(out: array<byte>, to: nat, r: Regs)
    requires to + 32 <= out.Length
    modifies out
    ensures out[..] == old(out[..to]) + BytesOf(r) + old(out[to + 32..])
  {
    hide BytesOf;
    var b := BytesOf(r);
    forall i | 0 <= i < 32 {
      out[to + i] := b[i];
    }
  }
}
