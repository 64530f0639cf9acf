/** The gate list of the AES S-box, for one bit position of the eight slices. A slice operation made
    of exclusive-or, and, or, not acts on every bit position alone, so the list is written once for
    booleans and applied to the sixteen positions. */
module Sbox {

  /** One byte of the state, bit i being the bit of slice i. */
  datatype Bits = Bits(b0: bool, b1: bool, b2: bool, b3: bool, b4: bool, b5: bool, b6: bool, b7: bool)

  /** What the linear layer in front hands to the shared middle part. */
  datatype Linear = Linear(
    T1: bool, T2: bool, T3: bool, T4: bool, T6: bool, T8: bool, T9: bool, T10: bool,
    T13: bool, T14: bool, T15: bool, T16: bool, T17: bool, T19: bool, T20: bool, T22: bool,
    T23: bool, T24: bool, T25: bool, T26: bool, T27: bool, D: bool)

  /** What the middle part hands to the linear layer behind. */
  datatype Products = Products(
    M46: bool, M47: bool, M48: bool, M49: bool, M50: bool, M51: bool, M52: bool, M53: bool, M54: bool,
    M55: bool, M56: bool, M57: bool, M58: bool, M59: bool, M60: bool, M61: bool, M62: bool, M63: bool)

  /** The exclusive ors in front of the shared part when encrypting. */
  function Preprocess(s: Bits): (r: Linear) {
    var Bits(U7, U6, U5, U4, U3, U2, U1, U0) := s;
    var T1 := U0 != U3; var T2 := U0 != U5; var T3 := U0 != U6; var T4 := U3 != U5; var T5 := U4 != U6;
    var T6 := T1 != T5; var T7 := U1 != U2; var T8 := U7 != T6; var T9 := U7 != T7; var T10 := T6 != T7;
    var T11 := U1 != U5; var T12 := U2 != U5; var T13 := T3 != T4; var T14 := T6 != T11; var T15 := T5 != T11;
    var T16 := T5 != T12; var T17 := T9 != T16; var T18 := U3 != U7; var T19 := T7 != T18; var T20 := T1 != T19;
    var T21 := U6 != U7; var T22 := T7 != T21; var T23 := T2 != T22; var T24 := T2 != T10;
    var T25 := T20 != T17; var T26 := T3 != T16; var T27 := T1 != T12; var D := U7;
    Linear(T1, T2, T3, T4, T6, T8, T9, T10, T13, T14, T15, T16, T17, T19, T20, T22, T23, T24, T25, T26, T27, D)
  }

  /** The exclusive ors in front of the shared part when decrypting: they undo the affine map. */
  function UndoPostprocess(s: Bits): (r: Linear) {
    var Bits(U7, U6, U5, U4, U3, U2, U1, U0) := s;
    var T23 := U0 != U3; var T22 := !(U1 != U3); var T2 := !(U0 != U1); var T1 := U3 != U4;
    var T24 := !(U4 != U7); var R5 := U6 != U7; var T8 := !(U1 != T23); var T19 := T22 != R5;
    var T9 := !(U7 != T1); var T10 := T2 != T24; var T13 := T2 != R5; var T3 := T1 != R5;
    var T25 := !(U2 != T1); var R13 := U1 != U6; var T17 := !(U2 != T19); var T20 := T24 != R13;
    var T4 := U4 != T8; var R17 := !(U2 != U5); var R18 := !(U5 != U6); var R19 := !(U2 != U4);
    var D := U0 != R17; var T6 := T22 != R17; var T16 := R13 != R19; var T27 := T1 != R18;
    var T15 := T10 != T27; var T14 := T10 != R18; var T26 := T3 != T16;
    Linear(T1, T2, T3, T4, T6, T8, T9, T10, T13, T14, T15, T16, T17, T19, T20, T22, T23, T24, T25, T26, T27, D)
  }

  /** Four bits, the operands of the inversion in the middle. */
  datatype Core = Core(c0: bool, c1: bool, c2: bool, c3: bool)

  /** The non-linear part both directions share, up to the inversion. */
  function Gather(t: Linear): (r: Core) {
    var Linear(T1, T2, T3, T4, T6, T8, T9, T10, T13, T14, T15, T16, T17, T19, T20, T22,
      T23, T24, T25, T26, T27, D) := t;
    var M1 := T13 && T6; var M6 := T3 && T16; var M11 := T1 && T15; var M13 := (T4 && T27) != M11;
    var M15 := (T2 && T10) != M11; var M20 := ((T14 != M1) != (T23 && T8)) != M13;
    var M21 := (((T19 && D) != M1) != T24) != M15; var M22 := ((T26 != M6) != (T22 && T9)) != M13;
    var M23 := (((T20 && T17) != M6) != M15) != T25;
    Core(M20, M21, M22, M23)
  }

  /** The inversion: M37, M38, M39 and M40. */
  function Invert(c: Core): (r: Core) {
    var Core(M20, M21, M22, M23) := c;
    var M25 := M22 && M20;
    var M37 := M21 != ((M20 != M21) && (M23 != M25)); var M38 := (M20 != M25) != (M21 || (M20 && M23));
    var M39 := M23 != ((M22 != M23) && (M21 != M25)); var M40 := (M22 != M25) != (M23 || (M21 && M22));
    Core(M37, M38, M39, M40)
  }

  /** The products with what the linear layer handed over. */
  function Spread(t: Linear, c: Core): (r: Products) {
    var Linear(T1, T2, T3, T4, T6, T8, T9, T10, T13, T14, T15, T16, T17, T19, T20, T22,
      T23, T24, T25, T26, T27, D) := t;
    var Core(M37, M38, M39, M40) := c;
    var M41 := M38 != M40; var M42 := M37 != M39; var M43 := M37 != M38; var M44 := M39 != M40;
    var M45 := M42 != M41; var M46 := M44 && T6; var M47 := M40 && T8; var M48 := M39 && D;
    var M49 := M43 && T16; var M50 := M38 && T9; var M51 := M37 && T17; var M52 := M42 && T15;
    var M53 := M45 && T27; var M54 := M41 && T10; var M55 := M44 && T13; var M56 := M40 && T23;
    var M57 := M39 && T19; var M58 := M43 && T3; var M59 := M38 && T22; var M60 := M37 && T20;
    var M61 := M42 && T1; var M62 := M45 && T4; var M63 := M41 && T2;
    Products(M46, M47, M48, M49, M50, M51, M52, M53, M54, M55, M56, M57, M58, M59, M60, M61, M62, M63)
  }

  function Nonlinear(t: Linear): (r: Products) {
    Spread(t, Invert(Gather(t)))
  }

  /** The first sums behind the shared part when encrypting. */
  datatype PostSums = PostSums(
    L1: bool, L2: bool, L3: bool, L6: bool, L7: bool, L8: bool, L9: bool, L10: bool, L11: bool, L12: bool,
    L13: bool, L14: bool, L15: bool, L16: bool, L17: bool, L18: bool, L19: bool, L20: bool)

  function PostSum(m: Products): (r: PostSums) {
    var Products(M46, M47, M48, M49, M50, M51, M52, M53, M54, M55, M56, M57, M58, M59, M60, M61, M62, M63) := m;
    var L0 := M61 != M62; var L1 := M50 != M56; var L2 := M46 != M48; var L3 := M47 != M55;
    var L4 := M54 != M58; var L5 := M49 != M61; var L6 := M62 != L5; var L7 := M46 != L3; var L8 := M51 != M59;
    var L9 := M52 != M53; var L10 := M53 != L4; var L11 := M60 != L2; var L12 := M48 != M51;
    var L13 := M50 != L0; var L14 := M52 != M61; var L15 := M55 != L1; var L16 := M56 != L0;
    var L17 := M57 != L1; var L18 := M58 != L8; var L19 := M63 != L4; var L20 := L0 != L1;
    PostSums(L1, L2, L3, L6, L7, L8, L9, L10, L11, L12, L13, L14, L15, L16, L17, L18, L19, L20)
  }

  /** What encryption makes of the products: the byte after the affine map. */
  function Postprocess(m: Products): (r: Bits) {
    PostOut(PostSum(m))
  }

  function PostOut(l: PostSums): (r: Bits) {
    var PostSums(L1, L2, L3, L6, L7, L8, L9, L10, L11, L12, L13, L14, L15, L16, L17, L18, L19, L20) := l;
    var L21 := L1 != L7;
    var L22 := L3 != L12; var L23 := L18 != L2; var L24 := L15 != L9; var L25 := L6 != L10; var L26 := L7 != L9;
    var L27 := L8 != L10; var L28 := L11 != L14; var L29 := L11 != L17;
    Bits(!(L6 != L23), !(L13 != L27), L25 != L29, L20 != L22, L6 != L21, !(L19 != L28), !(L16 != L26), L6 != L24)
  }

  /** The first sums behind the shared part when decrypting. */
  datatype UndoSums = UndoSums(
    P5: bool, P6: bool, P7: bool, P8: bool, P9: bool, P10: bool, P11: bool, P12: bool, P13: bool, P14: bool,
    P15: bool, P16: bool, P17: bool, P18: bool, P19: bool, P20: bool, P22: bool)

  function UndoSum(m: Products): (r: UndoSums) {
    var Products(M46, M47, M48, M49, M50, M51, M52, M53, M54, M55, M56, M57, M58, M59, M60, M61, M62, M63) := m;
    var P0 := M52 != M61; var P1 := M58 != M59; var P2 := M54 != M62; var P3 := M47 != M50;
    var P4 := M48 != M56; var P5 := M46 != M51; var P6 := M49 != M60; var P7 := P0 != P1; var P8 := M50 != M53;
    var P9 := M55 != M63; var P10 := M57 != P4; var P11 := P0 != P3; var P12 := M46 != M48;
    var P13 := M49 != M51; var P14 := M49 != M62; var P15 := M54 != M59; var P16 := M57 != M61;
    var P17 := M58 != P2; var P18 := M63 != P5; var P19 := P2 != P3; var P20 := P4 != P6; var P22 := P2 != P7;
    UndoSums(P5, P6, P7, P8, P9, P10, P11, P12, P13, P14, P15, P16, P17, P18, P19, P20, P22)
  }

  /** What decryption makes of the products: the byte whose inverse they came from. */
  function UndoPreprocess(m: Products): (r: Bits) {
    UndoOut(UndoSum(m))
  }

  function UndoOut(p: UndoSums): (r: Bits) {
    var UndoSums(P5, P6, P7, P8, P9, P10, P11, P12, P13, P14, P15, P16, P17, P18, P19, P20, P22) := p;
    var P23 := P7 != P8; var P24 := P5 != P7; var P25 := P6 != P10; var P26 := P9 != P11; var P27 := P10 != P18;
    var P28 := P11 != P25; var P29 := P15 != P20;
    Bits(P9 != P16, P14 != P23, P19 != P24, P23 != P27, P12 != P22, P17 != P28, P26 != P29, P13 != P22)
  }

  function Substitute(s: Bits): (r: Bits) {
    Postprocess(Nonlinear(Preprocess(s)))
  }

  function InvSubstitute(s: Bits): (r: Bits) {
    UndoPreprocess(Nonlinear(UndoPostprocess(s)))
  }

  /** The inverse circuit undoes the forward one on every byte. */
  lemma SubstituteInverse(s: Bits)
    ensures InvSubstitute(Substitute(s)) == s
  {
    InverseOnBits(s.b0, s.b1, s.b2, s.b3, s.b4, s.b5, s.b6, s.b7);
  }

  lemma InverseOnBits(b0: bool, b1: bool, b2: bool, b3: bool, b4: bool, b5: bool, b6: bool, b7: bool)
    ensures InvSubstitute(Substitute(Bits(b0, b1, b2, b3, b4, b5, b6, b7))) == Bits(b0, b1, b2, b3, b4, b5, b6, b7)
  {
  }

  // ---------------------------------------------------------------- FIPS 197 section 5.1.1

  const ZERO := Bits(false, false, false, false, false, false, false, false)
  const ONE := Bits(true, false, false, false, false, false, false, false)

  function Xor(a: Bits, b: Bits): (r: Bits) {
    Bits(a.b0 != b.b0, a.b1 != b.b1, a.b2 != b.b2, a.b3 != b.b3, a.b4 != b.b4, a.b5 != b.b5, a.b6 != b.b6, a.b7 != b.b7)
  }

  /** Multiplication by {02} in GF(2^8), section 4.2.1. */
  function XTime(a: Bits): (r: Bits) {
    Bits(a.b7, a.b0 != a.b7, a.b1, a.b2 != a.b7, a.b3 != a.b7, a.b4, a.b5, a.b6)
  }

  function Scale(bit: bool, a: Bits): (r: Bits) {
    if bit then a else ZERO
  }

  /** Multiplication in GF(2^8), section 4.2, as a sum of shifted copies of a. */
  function Mul(a: Bits, b: Bits): (r: Bits) {
    var a1 := XTime(a); var a2 := XTime(a1); var a3 := XTime(a2); var a4 := XTime(a3);
    var a5 := XTime(a4); var a6 := XTime(a5); var a7 := XTime(a6);
    Xor(Xor(Xor(Scale(b.b0, a), Scale(b.b1, a1)), Xor(Scale(b.b2, a2), Scale(b.b3, a3))),
        Xor(Xor(Scale(b.b4, a4), Scale(b.b5, a5)), Xor(Scale(b.b6, a6), Scale(b.b7, a7))))
  }

  /** The affine transformation of equation 5.1: each bit is added to those four, five, six and
      seven places up, and to the bits of {63}. */
  function Affine(b: Bits): (r: Bits) {
    Bits(!(b.b0 != (b.b4 != (b.b5 != (b.b6 != b.b7)))), !(b.b1 != (b.b5 != (b.b6 != (b.b7 != b.b0)))),
         b.b2 != (b.b6 != (b.b7 != (b.b0 != b.b1))), b.b3 != (b.b7 != (b.b0 != (b.b1 != b.b2))),
         b.b4 != (b.b0 != (b.b1 != (b.b2 != b.b3))), !(b.b5 != (b.b1 != (b.b2 != (b.b3 != b.b4)))),
         !(b.b6 != (b.b2 != (b.b3 != (b.b4 != b.b5)))), b.b7 != (b.b3 != (b.b4 != (b.b5 != b.b6))))
  }

  /** The inverse of the affine transformation. */
  function InvAffine(b: Bits): (r: Bits) {
    Bits(!(b.b2 != (b.b5 != b.b7)), b.b3 != (b.b6 != b.b0), !(b.b4 != (b.b7 != b.b1)), b.b5 != (b.b0 != b.b2),
         b.b6 != (b.b1 != b.b3), b.b7 != (b.b2 != b.b4), b.b0 != (b.b3 != b.b5), b.b1 != (b.b4 != b.b6))
  }

  /** y is the multiplicative inverse of x, zero counting as its own. */
  predicate IsInverse(x: Bits, y: Bits) {
    if x == ZERO then y == ZERO else Mul(x, y) == ONE
  }

  /** The circuit computes the S-box: inverse in GF(2^8), then the affine transformation. */
  lemma SubstituteIsSbox(s: Bits)
    ensures exists y :: IsInverse(s, y) && Substitute(s) == Affine(y)
  {
    hide Substitute, Affine, InvAffine, IsInverse;
    var y := InvAffine(Substitute(s));
    SboxOnBits(s);
    AffineInverse(Substitute(s));
    assert IsInverse(s, y) && Substitute(s) == Affine(y);
  }

  lemma AffineInverse(b: Bits)
    ensures Affine(InvAffine(b)) == b
  {
    AffineOnBits(b.b0, b.b1, b.b2, b.b3, b.b4, b.b5, b.b6, b.b7);
  }

  lemma AffineOnBits(b0: bool, b1: bool, b2: bool, b3: bool, b4: bool, b5: bool, b6: bool, b7: bool)
    ensures var b := Bits(b0, b1, b2, b3, b4, b5, b6, b7); Affine(InvAffine(b)) == b
  {
  }

  // Eight cases, one for each value of the three top bits, keep each proof small.

  lemma SboxOnBits(s: Bits)
    ensures IsInverse(s, InvAffine(Substitute(s)))
  {
    hide IsInverse, InvAffine, Substitute;
    var Bits(b0, b1, b2, b3, b4, b5, b6, b7) := s;
    var y := InvAffine(Substitute(s));
    if b7 {
      if b6 {
        if b5 { Sbox111(b0, b1, b2, b3, b4, y); } else { Sbox110(b0, b1, b2, b3, b4, y); }
      } else {
        if b5 { Sbox101(b0, b1, b2, b3, b4, y); } else { Sbox100(b0, b1, b2, b3, b4, y); }
      }
    } else {
      if b6 {
        if b5 { Sbox011(b0, b1, b2, b3, b4, y); } else { Sbox010(b0, b1, b2, b3, b4, y); }
      } else {
        if b5 { Sbox001(b0, b1, b2, b3, b4, y); } else { Sbox000(b0, b1, b2, b3, b4, y); }
      }
    }
  }

  lemma Sbox000(b0: bool, b1: bool, b2: bool, b3: bool, b4: bool, y: Bits)
    requires y == InvAffine(Substitute(Bits(b0, b1, b2, b3, b4, false, false, false)))
    ensures IsInverse(Bits(b0, b1, b2, b3, b4, false, false, false), y)
  {
  }

  lemma Sbox001(b0: bool, b1: bool, b2: bool, b3: bool, b4: bool, y: Bits)
    requires y == InvAffine(Substitute(Bits(b0, b1, b2, b3, b4, true, false, false)))
    ensures IsInverse(Bits(b0, b1, b2, b3, b4, true, false, false), y)
  {
  }

  lemma Sbox010(b0: bool, b1: bool, b2: bool, b3: bool, b4: bool, y: Bits)
    requires y == InvAffine(Substitute(Bits(b0, b1, b2, b3, b4, false, true, false)))
    ensures IsInverse(Bits(b0, b1, b2, b3, b4, false, true, false), y)
  {
  }

  lemma Sbox011(b0: bool, b1: bool, b2: bool, b3: bool, b4: bool, y: Bits)
    requires y == InvAffine(Substitute(Bits(b0, b1, b2, b3, b4, true, true, false)))
    ensures IsInverse(Bits(b0, b1, b2, b3, b4, true, true, false), y)
  {
  }

  lemma Sbox100(b0: bool, b1: bool, b2: bool, b3: bool, b4: bool, y: Bits)
    requires y == InvAffine(Substitute(Bits(b0, b1, b2, b3, b4, false, false, true)))
    ensures IsInverse(Bits(b0, b1, b2, b3, b4, false, false, true), y)
  {
  }

  lemma Sbox101(b0: bool, b1: bool, b2: bool, b3: bool, b4: bool, y: Bits)
    requires y == InvAffine(Substitute(Bits(b0, b1, b2, b3, b4, true, false, true)))
    ensures IsInverse(Bits(b0, b1, b2, b3, b4, true, false, true), y)
  {
  }

  lemma Sbox110(b0: bool, b1: bool, b2: bool, b3: bool, b4: bool, y: Bits)
    requires y == InvAffine(Substitute(Bits(b0, b1, b2, b3, b4, false, true, true)))
    ensures IsInverse(Bits(b0, b1, b2, b3, b4, false, true, true), y)
  {
  }

  lemma Sbox111(b0: bool, b1: bool, b2: bool, b3: bool, b4: bool, y: Bits)
    requires y == InvAffine(Substitute(Bits(b0, b1, b2, b3, b4, true, true, true)))
    ensures IsInverse(Bits(b0, b1, b2, b3, b4, true, true, true), y)
  {
  }
}
