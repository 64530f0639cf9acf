/** The double SHA-256 of exactly 64 bytes, with everything that is constant folded in
    (TransformD64 of src/crypto/sha256.cpp), and the plain form it replaces. */
module ShaD64 {
  import opened ByteTypes
  import opened ShaSpec
  import opened ShaCode

  // ---------------------------------------------------------------- the padding block

  /** The block that follows 64 bytes: 0x80, zeroes, and the length 512. */
  const PAD1: Words := [0x80000000, 0, 0, 0, 0, 0, 0, 0, 0, 0, 0, 0, 0, 0, 0, 0x200]

  const PAD16: Words := [
    0x80000000, 0x01400000, 0x00205000, 0x00005088, 0x22000800, 0x22550014, 0x05089742, 0xa0000020,
    0x5a880000, 0x005c9400, 0x0016d49d, 0xfa801f00, 0xd33225d0, 0x11675959, 0xf6e6bfda, 0xb30c1549]

  const PAD32: Words := [
    0x08b2b050, 0x9d7c4c27, 0x0ce2a393, 0x88e6e1ea, 0xa52b4335, 0x67a16f49, 0xd732016f, 0x4eeb2e91,
    0x5dbf55e5, 0x8eee2335, 0xe2bc5ec2, 0xa83f4394, 0x45ad78f7, 0x36f3d0cd, 0xd99c05e8, 0xb0511dc7]

  const PAD48: Words := [
    0x69bc7ac4, 0xbd11375b, 0xe3ba71e5, 0x3b209ff2, 0x18feee17, 0xe25ad9e7, 0x13375046, 0x0515089d,
    0x4f0d0f04, 0x2627484e, 0x310128d2, 0xc668b434, 0x420841cc, 0x62d311b8, 0xe59ba771, 0x85a7a484]

  lemma PadRow16()
    ensures Follows(PAD1, PAD16)
  {
  }

  lemma PadRow32()
    ensures Follows(PAD16, PAD32)
  {
  }

  lemma PadRow48()
    ensures Follows(PAD32, PAD48)
  {
  }

  /** K_t + W_t of the padding block, for t from 0. */
  const FOLDED0: Words := [
    0xc28a2f98, 0x71374491, 0xb5c0fbcf, 0xe9b5dba5, 0x3956c25b, 0x59f111f1, 0x923f82a4, 0xab1c5ed5,
    0xd807aa98, 0x12835b01, 0x243185be, 0x550c7dc3, 0x72be5d74, 0x80deb1fe, 0x9bdc06a7, 0xc19bf374]

  lemma Fold0()
    ensures Adds(K0, PAD1, FOLDED0, 0)
  {
  }

  lemma Fold8()
    ensures Adds(K0, PAD1, FOLDED0, 8)
  {
  }

  /** K_t + W_t of the padding block, for t from 16. */
  const FOLDED16: Words := [
    0x649b69c1, 0xf0fe4786, 0x0fe1edc6, 0x240cf254, 0x4fe9346f, 0x6cc984be, 0x61b9411e, 0x16f988fa,
    0xf2c65152, 0xa88e5a6d, 0xb019fc65, 0xb9d99ec7, 0x9a1231c3, 0xe70eeaa0, 0xfdb1232b, 0xc7353eb0]

  lemma Fold16()
    ensures Adds(K16, PAD16, FOLDED16, 0)
  {
  }

  lemma Fold24()
    ensures Adds(K16, PAD16, FOLDED16, 8)
  {
  }

  /** K_t + W_t of the padding block, for t from 32. */
  const FOLDED32: Words := [
    0x3069bad5, 0xcb976d5f, 0x5a0f118f, 0xdc1eeefd, 0x0a35b689, 0xde0b7a04, 0x58f4ca9d, 0xe15d5b16,
    0x007f3e86, 0x37088980, 0xa507ea32, 0x6fab9537, 0x17406110, 0x0d8cd6f1, 0xcdaa3b6d, 0xc0bbbe37]

  lemma Fold32()
    ensures Adds(K32, PAD32, FOLDED32, 0)
  {
  }

  lemma Fold40()
    ensures Adds(K32, PAD32, FOLDED32, 8)
  {
  }

  /** K_t + W_t of the padding block, for t from 48. */
  const FOLDED48: Words := [
    0x83613bda, 0xdb48a363, 0x0b02e931, 0x6fd15ca7, 0x521afaca, 0x31338431, 0x6ed41a95, 0x6d437890,
    0xc39c91f2, 0x9eccabbd, 0xb5c9a0e6, 0x532fb63c, 0xd2c741c6, 0x07237ea3, 0xa4954b68, 0x4c191d76]

  lemma Fold48()
    ensures Adds(K48, PAD48, FOLDED48, 0)
  {
  }

  lemma Fold56()
    ensures Adds(K48, PAD48, FOLDED48, 8)
  {
  }

  /** The constants of the second transformation are those of the general form. */
  lemma FoldedKeys()
    ensures Keys(FOLDED0, PAD1, 0) && Keys(FOLDED16, PAD1, 16) && Keys(FOLDED32, PAD1, 32) && Keys(FOLDED48, PAD1, 48)
  {
    hide W, K, Sum, K0, K16, K32, K48, PAD1, PAD16, PAD32, PAD48, FOLDED0, FOLDED16, FOLDED32, FOLDED48, Window,
      AddWords, Keys, Follows, Adds;
    WindowZero(PAD1);
    PadRow16();
    PadRow32();
    PadRow48();
    RowIs(PAD1, 0, PAD1, PAD16);
    RowIs(PAD1, 16, PAD16, PAD32);
    RowIs(PAD1, 32, PAD32, PAD48);
    Fold0();
    Fold8();
    Fold16();
    Fold24();
    Fold32();
    Fold40();
    Fold48();
    Fold56();
    AddsIs(K0, PAD1, FOLDED0);
    AddsIs(K16, PAD16, FOLDED16);
    AddsIs(K32, PAD32, FOLDED32);
    AddsIs(K48, PAD48, FOLDED48);
    FirstKeys(PAD1);
  }

  // ---------------------------------------------------------------- the last block

  /** The 32 bytes of a hash, 0x80, zeroes, and the length 256. */
  function FinalWords(r: Regs): (result: Words) {
    [r.a, r.b, r.c, r.d, r.e, r.f, r.g, r.h, 0x80000000, 0, 0, 0, 0, 0, 0, 0x100]
  }

  lemma FinalConstants()
    ensures Sum(0xd807aa98, 0x80000000) == 0x5807aa98
    ensures Sum(0x12835b01, 0) == 0x12835b01
    ensures Sum(0x243185be, 0) == 0x243185be
    ensures Sum(0x550c7dc3, 0) == 0x550c7dc3
    ensures Sum(0x72be5d74, 0) == 0x72be5d74
    ensures Sum(0x80deb1fe, 0) == 0x80deb1fe
    ensures Sum(0x9bdc06a7, 0) == 0x9bdc06a7
    ensures Sum(0xc19bf174, 0x100) == 0xc19bf274
  {
  }

  /** What the first sixteen rounds of the third transformation add. */
  function FinalKeys(r: Regs): (result: Words) {
    [Sum(0x428a2f98, r.a), Sum(0x71374491, r.b), Sum(0xb5c0fbcf, r.c), Sum(0xe9b5dba5, r.d),
     Sum(0x3956c25b, r.e), Sum(0x59f111f1, r.f), Sum(0x923f82a4, r.g), Sum(0xab1c5ed5, r.h),
     0x5807aa98, 0x12835b01, 0x243185be, 0x550c7dc3, 0x72be5d74, 0x80deb1fe, 0x9bdc06a7, 0xc19bf274]
  }

  /** The eight constant words of the last block. */
  predicate IsFinal(m: Words) {
    && m[8] == 0x80000000 && m[9] == 0 && m[10] == 0 && m[11] == 0
    && m[12] == 0 && m[13] == 0 && m[14] == 0 && m[15] == 0x100
  }

  lemma FinalIs(r: Regs)
    ensures var m := FinalWords(r); IsFinal(m) && Regs(m[0], m[1], m[2], m[3], m[4], m[5], m[6], m[7]) == r
  {
  }

  lemma FinalKeysAre(r: Regs)
    ensures Keys(FinalKeys(r), FinalWords(r), 0)
  {
    hide Sum, FinalWords, FinalKeys, Key;
    HashKeys(r);
    PaddingKeys(r);
  }

  lemma HashKeys(r: Regs)
    ensures var m := FinalWords(r);
      FinalKeys(r)[..8] ==
        [Key(m, 0), Key(m, 1), Key(m, 2), Key(m, 3), Key(m, 4), Key(m, 5), Key(m, 6), Key(m, 7)]
  {
    hide Sum, FinalWords, W, K, Key;
    var m := FinalWords(r);
    FinalIs(r);
    FirstConstants();
    KeyIs(m, 0);
    KeyIs(m, 1);
    KeyIs(m, 2);
    KeyIs(m, 3);
    KeyIs(m, 4);
    KeyIs(m, 5);
    KeyIs(m, 6);
    KeyIs(m, 7);
  }

  lemma FirstConstants()
    ensures K(0) == 0x428a2f98 && K(1) == 0x71374491 && K(2) == 0xb5c0fbcf && K(3) == 0xe9b5dba5
    ensures K(4) == 0x3956c25b && K(5) == 0x59f111f1 && K(6) == 0x923f82a4 && K(7) == 0xab1c5ed5
    ensures K(8) == 0xd807aa98 && K(9) == 0x12835b01 && K(10) == 0x243185be && K(11) == 0x550c7dc3
    ensures K(12) == 0x72be5d74 && K(13) == 0x80deb1fe && K(14) == 0x9bdc06a7 && K(15) == 0xc19bf174
  {
  }

  /** The first sixteen words of a schedule are the message words themselves. */
  lemma KeyIs(m: Words, t: nat)
    requires t < 16
    ensures Key(m, t) == Sum(K(t), m[t])
  {
    hide Sum, K;
  }

  lemma PaddingKeys(r: Regs)
    ensures var m := FinalWords(r);
      FinalKeys(r)[8..] ==
        [Key(m, 8), Key(m, 9), Key(m, 10), Key(m, 11), Key(m, 12), Key(m, 13), Key(m, 14), Key(m, 15)]
  {
    hide Sum, FinalWords, W, K, Key;
    var m := FinalWords(r);
    FinalIs(r);
    FirstConstants();
    FinalConstants();
    KeyIs(m, 8);
    KeyIs(m, 9);
    KeyIs(m, 10);
    KeyIs(m, 11);
    KeyIs(m, 12);
    KeyIs(m, 13);
    KeyIs(m, 14);
    KeyIs(m, 15);
  }

  lemma SmallSigmas()
    ensures SmallSigma1(0) == 0 && SmallSigma0(0) == 0 && SmallSigma1(0x100) == 0xa00000 &&
      SmallSigma0(0x80000000) == 0x11002000 && SmallSigma0(0x100) == 0x400022
  {
  }

  /** The zero words of the padding. */
  const ZERO: word := 0

  // A sum does not change by its zero terms.

  lemma Middle(a: word, b: word)
    ensures Sum4(a, ZERO, ZERO, b) == Sum(a, b)
  {
  }

  lemma Outer(a: word, b: word)
    ensures Sum4(ZERO, a, b, ZERO) == Sum(a, b)
  {
  }

  lemma Third(a: word, b: word, c: word)
    ensures Sum4(a, b, ZERO, c) == Sum3(a, b, c)
  {
  }

  lemma Last(a: word, b: word, c: word)
    ensures Sum4(a, b, c, ZERO) == Sum3(a, b, c)
  {
  }

  lemma First(a: word, b: word, c: word)
    ensures Sum4(ZERO, a, b, c) == Sum3(a, b, c)
  {
  }

  /** The first sixteen updates of the third transformation, without the words that are zero. */
  method ShortRow(r: Regs) returns (w: Words)
    ensures w == Window(FinalWords(r), 16)
  {
    hide W, Window, Sum, Sum3, Sum4, SmallSigma0, SmallSigma1, Extend, FinalWords;
    ghost var m := FinalWords(r);
    FinalIs(r);
    var Regs(w0, w1, w2, w3, w4, w5, w6, w7) := r;
    w0 := Sum(w0, SmallSigma0(w1));
    w1 := Sum3(w1, 0xa00000, SmallSigma0(w2));
    w2 := Sum3(w2, SmallSigma1(w0), SmallSigma0(w3));
    w3 := Sum3(w3, SmallSigma1(w1), SmallSigma0(w4));
    w4 := Sum3(w4, SmallSigma1(w2), SmallSigma0(w5));
    w5 := Sum3(w5, SmallSigma1(w3), SmallSigma0(w6));
    w6 := Sum4(w6, SmallSigma1(w4), 0x100, SmallSigma0(w7));
    w7 := Sum4(w7, SmallSigma1(w5), w0, 0x11002000);
    ShortFirst(m, w0, w1, w2, w3, w4, w5, w6, w7);
    var w8 := Sum3(0x80000000, SmallSigma1(w6), w1);
    var w9 := Sum(SmallSigma1(w7), w2);
    var w10 := Sum(SmallSigma1(w8), w3);
    var w11 := Sum(SmallSigma1(w9), w4);
    var w12 := Sum(SmallSigma1(w10), w5);
    var w13 := Sum(SmallSigma1(w11), w6);
    var w14 := Sum3(SmallSigma1(w12), w7, 0x400022);
    var w15 := Sum4(0x100, SmallSigma1(w13), w8, SmallSigma0(w0));
    ShortSecond(m, w0, w1, w2, w3, w4, w5, w6, w7, w8, w9, w10, w11, w12, w13, w14, w15);
    WindowIs(m, 16, w0, w1, w2, w3, w4, w5, w6, w7, w8, w9, w10, w11, w12, w13, w14, w15);
    w := [w0, w1, w2, w3, w4, w5, w6, w7, w8, w9, w10, w11, w12, w13, w14, w15];
  }

  lemma ShortFirst(m: Words, w0: word, w1: word, w2: word, w3: word, w4: word, w5: word, w6: word, w7: word)
    requires IsFinal(m)
    requires w0 == Sum(m[0], SmallSigma0(m[1]))
    requires w1 == Sum3(m[1], 0xa00000, SmallSigma0(m[2]))
    requires w2 == Sum3(m[2], SmallSigma1(w0), SmallSigma0(m[3]))
    requires w3 == Sum3(m[3], SmallSigma1(w1), SmallSigma0(m[4]))
    requires w4 == Sum3(m[4], SmallSigma1(w2), SmallSigma0(m[5]))
    requires w5 == Sum3(m[5], SmallSigma1(w3), SmallSigma0(m[6]))
    requires w6 == Sum4(m[6], SmallSigma1(w4), 0x100, SmallSigma0(m[7]))
    requires w7 == Sum4(m[7], SmallSigma1(w5), w0, 0x11002000)
    ensures w0 == W(m, 16) && w1 == W(m, 17) && w2 == W(m, 18) && w3 == W(m, 19)
    ensures w4 == W(m, 20) && w5 == W(m, 21) && w6 == W(m, 22) && w7 == W(m, 23)
  {
    hide W, Window, Sum, Sum3, Sum4, SmallSigma0, SmallSigma1;
    WindowZero(m);
    SmallSigmas();
    Middle(m[0], SmallSigma0(m[1]));
    Third(m[1], 0xa00000, SmallSigma0(m[2]));
    Third(m[2], SmallSigma1(w0), SmallSigma0(m[3]));
    Third(m[3], SmallSigma1(w1), SmallSigma0(m[4]));
    Third(m[4], SmallSigma1(w2), SmallSigma0(m[5]));
    Third(m[5], SmallSigma1(w3), SmallSigma0(m[6]));
    FirstHalf(m, 0, w0, w1, w2, w3, w4, w5, w6, w7, m);
  }

  lemma ShortSecond(m: Words, w0: word, w1: word, w2: word, w3: word, w4: word, w5: word, w6: word, w7: word,
                    w8: word, w9: word, w10: word, w11: word, w12: word, w13: word, w14: word, w15: word)
    requires IsFinal(m)
    requires w0 == W(m, 16) && w1 == W(m, 17) && w2 == W(m, 18) && w3 == W(m, 19)
    requires w4 == W(m, 20) && w5 == W(m, 21) && w6 == W(m, 22) && w7 == W(m, 23)
    requires w8 == Sum3(0x80000000, SmallSigma1(w6), w1)
    requires w9 == Sum(SmallSigma1(w7), w2)
    requires w10 == Sum(SmallSigma1(w8), w3)
    requires w11 == Sum(SmallSigma1(w9), w4)
    requires w12 == Sum(SmallSigma1(w10), w5)
    requires w13 == Sum(SmallSigma1(w11), w6)
    requires w14 == Sum3(SmallSigma1(w12), w7, 0x400022)
    requires w15 == Sum4(0x100, SmallSigma1(w13), w8, SmallSigma0(w0))
    ensures w8 == W(m, 24) && w9 == W(m, 25) && w10 == W(m, 26) && w11 == W(m, 27)
    ensures w12 == W(m, 28) && w13 == W(m, 29) && w14 == W(m, 30) && w15 == W(m, 31)
  {
    hide W, Window, Sum, Sum3, Sum4, SmallSigma0, SmallSigma1;
    WindowZero(m);
    SmallSigmas();
    Last(0x80000000, SmallSigma1(w6), w1);
    Outer(SmallSigma1(w7), w2);
    Outer(SmallSigma1(w8), w3);
    Outer(SmallSigma1(w9), w4);
    Outer(SmallSigma1(w10), w5);
    Outer(SmallSigma1(w11), w6);
    First(SmallSigma1(w12), w7, 0x400022);
    SecondHalf(m, 0, w8, w9, w10, w11, w12, w13, w14, w15, m);
  }
  // ---------------------------------------------------------------- what it computes

  /** The bytes that FIPS 180-4 adds to a message of n bytes. */
  function PaddingFor(n: nat): (r: seq<byte>) {
    [0x80] + Zeroes(ZeroCount(n)) + WriteBE64(8 * n)
  }

  lemma ReadConstants()
    ensures ReadBE32(0, 0, 0, 0) == 0 && ReadBE32(0x80, 0, 0, 0) == 0x80000000
    ensures ReadBE32(0, 0, 2, 0) == 0x200 && ReadBE32(0, 0, 1, 0) == 0x100
  {
  }

  lemma Lengths()
    ensures WriteBE64(512) == [0, 0, 0, 0, 0, 0, 2, 0] && WriteBE64(256) == [0, 0, 0, 0, 0, 0, 1, 0]
  {
    hide ByteOf;
    SmallBytes();
  }

  lemma SmallBytes()
    ensures ByteOf(0) == 0 && ByteOf(1) == 1 && ByteOf(2) == 2
  {
  }

  lemma PaddingAt(n: nat, i: nat)
    requires (n == 64 || n == 32) && i < 1 + ZeroCount(n) + 8
    ensures ZeroCount(64) == 55 && ZeroCount(32) == 23
    ensures PaddingFor(n)[i] == if i == 0 then 0x80 else if i == ZeroCount(n) + 7 then (if n == 64 then 2 else 1) else 0
  {
    Lengths();
  }

  lemma PaddingWords(b: seq<byte>)
    requires |b| == 64 && b == PaddingFor(64)
    ensures WordsOf(b) == PAD1
  {
    hide PaddingFor, ReadBE32;
    ReadConstants();
    forall i | 0 <= i < 64 ensures b[i] == if i == 0 then 0x80 else if i == 62 then 2 else 0 {
      PaddingAt(64, i);
    }
  }

  lemma FourParts(a: seq<byte>, b: seq<byte>, c: seq<byte>, d: seq<byte>)
    requires |a| == |b| == |c| == |d| == 4
    ensures var s := a + b + c + d; s[0..4] == a && s[4..8] == b && s[8..12] == c && s[12..16] == d
  {
  }

  lemma BytesAt(r: Regs)
    ensures var b := BytesOf(r);
      && b[0..4] == WriteBE32(r.a) && b[4..8] == WriteBE32(r.b) && b[8..12] == WriteBE32(r.c) &&
        b[12..16] == WriteBE32(r.d)
      && b[16..20] == WriteBE32(r.e) && b[20..24] == WriteBE32(r.f) && b[24..28] == WriteBE32(r.g) &&
        b[28..32] == WriteBE32(r.h)
  {
    hide WriteBE32;
    var b := BytesOf(r);
    var p, q := b[..16], b[16..];
    FourParts(WriteBE32(r.a), WriteBE32(r.b), WriteBE32(r.c), WriteBE32(r.d));
    FourParts(WriteBE32(r.e), WriteBE32(r.f), WriteBE32(r.g), WriteBE32(r.h));
    assert b[0..4] == p[0..4] && b[4..8] == p[4..8] && b[8..12] == p[8..12] && b[12..16] == p[12..16];
    assert b[16..20] == q[0..4] && b[20..24] == q[4..8] && b[24..28] == q[8..12] && b[28..32] == q[12..16];
  }

  /** Word k of a block that has the bytes of x at 4k. */
  lemma WordAt(b: seq<byte>, k: nat, x: word)
    requires |b| == 64 && k < 16 && b[4 * k..4 * k + 4] == WriteBE32(x)
    ensures WordsOf(b)[k] == x
  {
    hide ReadBE32, WriteBE32;
    var v := WriteBE32(x);
    assert b[4 * k] == v[0] && b[4 * k + 1] == v[1] && b[4 * k + 2] == v[2] && b[4 * k + 3] == v[3];
    ReadWrite(x);
  }

  lemma FinalBlock(r: Regs, b: seq<byte>)
    requires |b| == 64 && b[..32] == BytesOf(r) && b[32..] == PaddingFor(32)
    ensures WordsOf(b) == FinalWords(r)
  {
    hide PaddingFor, BytesOf, WordsOf;
    HashWords(r, b);
    TailWords(b);
  }

  lemma HashWords(r: Regs, b: seq<byte>)
    requires |b| == 64 && b[..32] == BytesOf(r)
    ensures var m := WordsOf(b); Regs(m[0], m[1], m[2], m[3], m[4], m[5], m[6], m[7]) == r
  {
    hide BytesOf, WriteBE32, WordsOf;
    BytesAt(r);
    var h := b[..32];
    assert b[0..4] == h[0..4] && b[4..8] == h[4..8] && b[8..12] == h[8..12] && b[12..16] == h[12..16];
    assert b[16..20] == h[16..20] && b[20..24] == h[20..24] && b[24..28] == h[24..28] && b[28..32] == h[28..32];
    WordAt(b, 0, r.a); WordAt(b, 1, r.b); WordAt(b, 2, r.c); WordAt(b, 3, r.d);
    WordAt(b, 4, r.e); WordAt(b, 5, r.f); WordAt(b, 6, r.g); WordAt(b, 7, r.h);
  }

  lemma TailWords(b: seq<byte>)
    requires |b| == 64 && b[32..] == PaddingFor(32)
    ensures IsFinal(WordsOf(b))
  {
    hide PaddingFor, ReadBE32;
    ReadConstants();
    forall i | 32 <= i < 64 ensures b[i] == if i == 32 then 0x80 else if i == 62 then 1 else 0 {
      PaddingAt(32, i - 32);
      assert b[i] == b[32..][i - 32];
    }
  }

  lemma OneBlock(s: Regs, a: seq<byte>)
    requires |a| == 64
    ensures CompressAll(s, a) == Compress(s, WordsOf(a))
  {
    hide Compress, WordsOf;
    assert a[..64] == a && a[64..] == [];
    assert CompressAll(Compress(s, WordsOf(a)), []) == Compress(s, WordsOf(a));
  }

  lemma TwoBlocks(s: Regs, a: seq<byte>, b: seq<byte>)
    requires |a| == 64 && |b| == 64
    ensures CompressAll(s, a + b) == Compress(Compress(s, WordsOf(a)), WordsOf(b))
  {
    hide Compress, WordsOf;
    assert (a + b)[..64] == a && (a + b)[64..] == b;
    OneBlock(Compress(s, WordsOf(a)), b);
  }

  /** SHA-256 twice over 64 bytes is three compressions. */
  lemma DoubleHash(m: seq<byte>)
    requires |m| == 64
    ensures var s := Compress(Compress(INITIAL, WordsOf(m)), PAD1);
      Sha256(Sha256(m)) == BytesOf(Compress(INITIAL, FinalWords(s)))
  {
    hide Compress, WordsOf, BytesOf, PAD1, FinalWords, INITIAL, WriteBE64;
    PaddingAt(64, 0);
    var pad := PaddingFor(64);
    assert Padded(m) == m + pad;
    TwoBlocks(INITIAL, m, pad);
    PaddingWords(pad);
    var s := Compress(Compress(INITIAL, WordsOf(m)), PAD1);
    var h := BytesOf(s);
    var b := h + PaddingFor(32);
    assert b[..32] == h && b[32..] == PaddingFor(32);
    assert Padded(h) == b;
    FinalBlock(s, b);
    OneBlock(INITIAL, b);
  }

  /** The same from the three calls of the generic form. */
  lemma ThreeBlocks(m: seq<byte>, pad: seq<byte>, b: seq<byte>, r: Regs)
    requires |m| == 64 && pad == PaddingFor(64) && |pad| == 64
    requires r == CompressAll(CompressAll(INITIAL, m), pad)
    requires |b| == 64 && b[..32] == BytesOf(r) && b[32..] == PaddingFor(32)
    ensures BytesOf(CompressAll(INITIAL, b)) == Sha256(Sha256(m))
  {
    hide Compress, CompressAll, WordsOf, BytesOf, PAD1, FinalWords, INITIAL, Sha256, PaddingFor;
    OneBlock(INITIAL, m);
    PaddingWords(pad);
    OneBlock(CompressAll(INITIAL, m), pad);
    FinalBlock(r, b);
    OneBlock(INITIAL, b);
    DoubleHash(m);
  }

  // ---------------------------------------------------------------- the code

  /** TransformD64: three transformations, the second with folded constants only, the third with a
      shortened schedule. */
  method TransformD64(out: array<byte>, to: nat, input: array<byte>, from: nat)
    requires from + 64 <= input.Length && to + 32 <= out.Length
    modifies out
    ensures out[..] == old(out[..to]) + Sha256(Sha256(old(input[from..from + 64]))) + old(out[to + 32..])
  {
    hide AddRegs, WordsOf, Rounds, Window, Keys, FOLDED0, FOLDED16, FOLDED32, FOLDED48, PAD1, FinalKeys, FinalWords,
      Sha256, BytesOf, Sum;
    ghost var message := input[from..from + 64];
    var t := CompressBlock(INITIAL, WordsOf(input[from..from + 64]));
    FoldedKeys();
    WindowZero(PAD1);
    var r := SixteenRounds(t, FOLDED0, t, PAD1, 0);
    r := SixteenRounds(r, FOLDED16, t, PAD1, 16);
    r := SixteenRounds(r, FOLDED32, t, PAD1, 32);
    r := SixteenRounds(r, FOLDED48, t, PAD1, 48);
    var s := AddRegs(t, r);
    // from here on the message is the hash t became
    ghost var m := FinalWords(s);
    FinalKeysAre(s);
    WindowZero(m);
    FirstKeys(m);
    r := SixteenRounds(INITIAL, FinalKeys(s), INITIAL, m, 0);
    var w := ShortRow(s);
    r := SixteenRounds(r, AddWords(K16, w), INITIAL, m, 16);
    w := ExtendAll(w, m, 16);
    r := SixteenRounds(r, AddWords(K32, w), INITIAL, m, 32);
    w := ExtendAll(w, m, 32);
    r := SixteenRounds(r, AddWords(K48, w), INITIAL, m, 48);
    DoubleHash(message);
    WriteRegs(out, to, AddRegs(INITIAL, r));
  }

  /** TransformD64Wrapper over the generic Transform. */
  method TransformD64Wrapper(out: array<byte>, to: nat, input: array<byte>, from: nat)
    requires from + 64 <= input.Length && to + 32 <= out.Length
    modifies out
    ensures out[..] == old(out[..to]) + Sha256(Sha256(old(input[from..from + 64]))) + old(out[to + 32..])
  {
    hide PaddingFor, Sha256, BytesOf, RegsOf, CompressAll, INITIAL;
    ghost var message := input[from..from + 64];
    var s := new word[8];
    var padding1 := new byte[64](i => if i == 0 then 0x80 else if i == 62 then 2 else 0);
    var buffer2 := new byte[64](i => if i == 32 then 0x80 else if i == 62 then 1 else 0);
    ghost var pad, tail := padding1[..], buffer2[32..];
    PaddingIs(pad, tail);
    Initialize(s);
    Transform(s, input, from, 1);
    assert padding1[0..64] == pad;
    Transform(s, padding1, 0, 1);
    var r := RegsOf(s[..]);
    WriteRegs(buffer2, 0, r);
    assert buffer2[0..64] == BytesOf(r) + tail;
    Initialize(s);
    Transform(s, buffer2, 0, 1);
    ThreeBlocks(message, pad, BytesOf(r) + tail, r);
    WriteRegs(out, to, RegsOf(s[..]));
  }

  lemma PaddingIs(a: seq<byte>, b: seq<byte>)
    requires |a| == 64 && forall i | 0 <= i < 64 :: a[i] == if i == 0 then 0x80 else if i == 62 then 2 else 0
    requires |b| == 32 && forall i | 0 <= i < 32 :: b[i] == if i == 0 then 0x80 else if i == 30 then 1 else 0
    ensures a == PaddingFor(64) && b == PaddingFor(32)
  {
    hide PaddingFor;
    PaddingAt(64, 0);
    PaddingAt(32, 0);
    PaddingSize();
    forall i | 0 <= i < 64 ensures a[i] == PaddingFor(64)[i] {
      PaddingAt(64, i);
    }
    forall i | 0 <= i < 32 ensures b[i] == PaddingFor(32)[i] {
      PaddingAt(32, i);
    }
  }

  lemma PaddingSize()
    ensures |PaddingFor(64)| == 64 && |PaddingFor(32)| == 32
  {
    hide WriteBE64;
  }
}
