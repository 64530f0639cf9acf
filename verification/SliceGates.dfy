/** The gate list of the AES S-box on whole slices, src/crypto/ctaes/ctaes.c, and what it does to each
    bit position. */
module SliceGates {
  import opened Sbox
  import opened Slices

  datatype SliceLinear = SliceLinear(
    T1: Slice, T2: Slice, T3: Slice, T4: Slice, T6: Slice, T8: Slice, T9: Slice, T10: Slice, T13: Slice, T14: Slice,
    T15: Slice, T16: Slice, T17: Slice, T19: Slice, T20: Slice, T22: Slice, T23: Slice, T24: Slice, T25: Slice,
    T26: Slice, T27: Slice, D: Slice)

  datatype SliceCore = SliceCore(
    c0: Slice, c1: Slice, c2: Slice, c3: Slice)

  datatype SliceProducts = SliceProducts(
    M46: Slice, M47: Slice, M48: Slice, M49: Slice, M50: Slice, M51: Slice, M52: Slice, M53: Slice, M54: Slice,
    M55: Slice, M56: Slice, M57: Slice, M58: Slice, M59: Slice, M60: Slice, M61: Slice, M62: Slice, M63: Slice)

  datatype SlicePostSums = SlicePostSums(
    L1: Slice, L2: Slice, L3: Slice, L6: Slice, L7: Slice, L8: Slice, L9: Slice, L10: Slice, L11: Slice, L12: Slice,
    L13: Slice, L14: Slice, L15: Slice, L16: Slice, L17: Slice, L18: Slice, L19: Slice, L20: Slice)

  datatype SliceUndoSums = SliceUndoSums(
    P5: Slice, P6: Slice, P7: Slice, P8: Slice, P9: Slice, P10: Slice, P11: Slice, P12: Slice, P13: Slice,
    P14: Slice, P15: Slice, P16: Slice, P17: Slice, P18: Slice, P19: Slice, P20: Slice, P22: Slice)

  /** The exclusive ors in front of the shared gates when encrypting. */
  function SlicePreprocess(s: seq<Slice>): (r: SliceLinear)
    requires |s| == 8
  {
    var U7, U6, U5, U4 := s[0], s[1], s[2], s[3]; var U3, U2, U1, U0 := s[4], s[5], s[6], s[7];
    var T1 := XorSlice(U0, U3); var T2 := XorSlice(U0, U5); var T3 := XorSlice(U0, U6); var T4 := XorSlice(U3, U5);
    var T5 := XorSlice(U4, U6); var T6 := XorSlice(T1, T5); var T7 := XorSlice(U1, U2); var T8 := XorSlice(U7, T6);
    var T9 := XorSlice(U7, T7); var T10 := XorSlice(T6, T7); var T11 := XorSlice(U1, U5);
    var T12 := XorSlice(U2, U5); var T13 := XorSlice(T3, T4); var T14 := XorSlice(T6, T11);
    var T15 := XorSlice(T5, T11); var T16 := XorSlice(T5, T12); var T17 := XorSlice(T9, T16);
    var T18 := XorSlice(U3, U7); var T19 := XorSlice(T7, T18); var T20 := XorSlice(T1, T19);
    var T21 := XorSlice(U6, U7); var T22 := XorSlice(T7, T21); var T23 := XorSlice(T2, T22);
    var T24 := XorSlice(T2, T10); var T25 := XorSlice(T20, T17); var T26 := XorSlice(T3, T16);
    var T27 := XorSlice(T1, T12); var D := U7;
    SliceLinear(T1, T2, T3, T4, T6, T8, T9, T10, T13, T14, T15, T16, T17, T19, T20, T22, T23, T24, T25, T26, T27, D)
  }

  /** The exclusive ors in front of the shared gates when decrypting: the affine map goes away first. */
  function SliceUndoPostprocess(s: seq<Slice>): (r: SliceLinear)
    requires |s| == 8
  {
    var U7, U6, U5, U4 := s[0], s[1], s[2], s[3]; var U3, U2, U1, U0 := s[4], s[5], s[6], s[7];
    var T23 := XorSlice(U0, U3); var T22 := NotSlice(XorSlice(U1, U3)); var T2 := NotSlice(XorSlice(U0, U1));
    var T1 := XorSlice(U3, U4); var T24 := NotSlice(XorSlice(U4, U7)); var R5 := XorSlice(U6, U7);
    var T8 := NotSlice(XorSlice(U1, T23)); var T19 := XorSlice(T22, R5); var T9 := NotSlice(XorSlice(U7, T1));
    var T10 := XorSlice(T2, T24); var T13 := XorSlice(T2, R5); var T3 := XorSlice(T1, R5);
    var T25 := NotSlice(XorSlice(U2, T1)); var R13 := XorSlice(U1, U6); var T17 := NotSlice(XorSlice(U2, T19));
    var T20 := XorSlice(T24, R13); var T4 := XorSlice(U4, T8); var R17 := NotSlice(XorSlice(U2, U5));
    var R18 := NotSlice(XorSlice(U5, U6)); var R19 := NotSlice(XorSlice(U2, U4)); var D := XorSlice(U0, R17);
    var T6 := XorSlice(T22, R17); var T16 := XorSlice(R13, R19); var T27 := XorSlice(T1, R18);
    var T15 := XorSlice(T10, T27); var T14 := XorSlice(T10, R18); var T26 := XorSlice(T3, T16);
    SliceLinear(T1, T2, T3, T4, T6, T8, T9, T10, T13, T14, T15, T16, T17, T19, T20, T22, T23, T24, T25, T26, T27, D)
  }

  /** The shared non-linear part, up to the inversion. */
  function SliceGather(t: SliceLinear): (r: SliceCore)
  {
    var SliceLinear(T1, T2, T3, T4, T6, T8, T9, T10, T13, T14, T15, T16, T17, T19, T20, T22, T23, T24, T25, T26, T27,
    D) := t;
    var M1 := AndSlice(T13, T6); var M6 := AndSlice(T3, T16); var M11 := AndSlice(T1, T15);
    var M13 := XorSlice(AndSlice(T4, T27), M11); var M15 := XorSlice(AndSlice(T2, T10), M11);
    var M20 := XorSlice(XorSlice(XorSlice(T14, M1), AndSlice(T23, T8)), M13);
    var M21 := XorSlice(XorSlice(XorSlice(AndSlice(T19, D), M1), T24), M15);
    var M22 := XorSlice(XorSlice(XorSlice(T26, M6), AndSlice(T22, T9)), M13);
    var M23 := XorSlice(XorSlice(XorSlice(AndSlice(T20, T17), M6), M15), T25);
    SliceCore(M20, M21, M22, M23)
  }

  /** The inversion. */
  function SliceInvert(c: SliceCore): (r: SliceCore)
  {
    var SliceCore(M20, M21, M22, M23) := c; var M25 := AndSlice(M22, M20);
    var M37 := XorSlice(M21, AndSlice(XorSlice(M20, M21), XorSlice(M23, M25)));
    var M38 := XorSlice(XorSlice(M20, M25), OrSlice(M21, AndSlice(M20, M23)));
    var M39 := XorSlice(M23, AndSlice(XorSlice(M22, M23), XorSlice(M21, M25)));
    var M40 := XorSlice(XorSlice(M22, M25), OrSlice(M23, AndSlice(M21, M22)));
    SliceCore(M37, M38, M39, M40)
  }

  /** The products with what the linear layer handed over. */
  function SliceSpread(t: SliceLinear, c: SliceCore): (r: SliceProducts)
  {
    var SliceLinear(T1, T2, T3, T4, T6, T8, T9, T10, T13, T14, T15, T16, T17, T19, T20, T22, T23, T24, T25, T26, T27,
    D) := t;
    var SliceCore(M37, M38, M39, M40) := c; var M41 := XorSlice(M38, M40); var M42 := XorSlice(M37, M39);
    var M43 := XorSlice(M37, M38); var M44 := XorSlice(M39, M40); var M45 := XorSlice(M42, M41);
    var M46 := AndSlice(M44, T6); var M47 := AndSlice(M40, T8); var M48 := AndSlice(M39, D);
    var M49 := AndSlice(M43, T16); var M50 := AndSlice(M38, T9); var M51 := AndSlice(M37, T17);
    var M52 := AndSlice(M42, T15); var M53 := AndSlice(M45, T27); var M54 := AndSlice(M41, T10);
    var M55 := AndSlice(M44, T13); var M56 := AndSlice(M40, T23); var M57 := AndSlice(M39, T19);
    var M58 := AndSlice(M43, T3); var M59 := AndSlice(M38, T22); var M60 := AndSlice(M37, T20);
    var M61 := AndSlice(M42, T1); var M62 := AndSlice(M45, T4); var M63 := AndSlice(M41, T2);
    SliceProducts(M46, M47, M48, M49, M50, M51, M52, M53, M54, M55, M56, M57, M58, M59, M60, M61, M62, M63)
  }

  /** The first sums of the linear layer behind. */
  function SlicePostSum(m: SliceProducts): (r: SlicePostSums)
  {
    var SliceProducts(M46, M47, M48, M49, M50, M51, M52, M53, M54, M55, M56, M57, M58, M59, M60, M61, M62, M63) := m;
    var L0 := XorSlice(M61, M62); var L1 := XorSlice(M50, M56); var L2 := XorSlice(M46, M48);
    var L3 := XorSlice(M47, M55); var L4 := XorSlice(M54, M58); var L5 := XorSlice(M49, M61);
    var L6 := XorSlice(M62, L5); var L7 := XorSlice(M46, L3); var L8 := XorSlice(M51, M59);
    var L9 := XorSlice(M52, M53); var L10 := XorSlice(M53, L4); var L11 := XorSlice(M60, L2);
    var L12 := XorSlice(M48, M51); var L13 := XorSlice(M50, L0); var L14 := XorSlice(M52, M61);
    var L15 := XorSlice(M55, L1); var L16 := XorSlice(M56, L0); var L17 := XorSlice(M57, L1);
    var L18 := XorSlice(M58, L8); var L19 := XorSlice(M63, L4); var L20 := XorSlice(L0, L1);
    SlicePostSums(L1, L2, L3, L6, L7, L8, L9, L10, L11, L12, L13, L14, L15, L16, L17, L18, L19, L20)
  }

  /** And the outputs. */
  function SlicePostOut(l: SlicePostSums): (r: seq<Slice>)
    ensures |r| == 8
  {
    var SlicePostSums(L1, L2, L3, L6, L7, L8, L9, L10, L11, L12, L13, L14, L15, L16, L17, L18, L19, L20) := l;
    var L21 := XorSlice(L1, L7); var L22 := XorSlice(L3, L12); var L23 := XorSlice(L18, L2);
    var L24 := XorSlice(L15, L9); var L25 := XorSlice(L6, L10); var L26 := XorSlice(L7, L9);
    var L27 := XorSlice(L8, L10); var L28 := XorSlice(L11, L14); var L29 := XorSlice(L11, L17);
    [NotSlice(XorSlice(L6, L23)), NotSlice(XorSlice(L13, L27)), XorSlice(L25, L29), XorSlice(L20, L22),
    XorSlice(L6, L21), NotSlice(XorSlice(L19, L28)), NotSlice(XorSlice(L16, L26)), XorSlice(L6, L24)]
  }

  /** The same for the inverse direction. */
  function SliceUndoSum(m: SliceProducts): (r: SliceUndoSums)
  {
    var SliceProducts(M46, M47, M48, M49, M50, M51, M52, M53, M54, M55, M56, M57, M58, M59, M60, M61, M62, M63) := m;
    var P0 := XorSlice(M52, M61); var P1 := XorSlice(M58, M59); var P2 := XorSlice(M54, M62);
    var P3 := XorSlice(M47, M50); var P4 := XorSlice(M48, M56); var P5 := XorSlice(M46, M51);
    var P6 := XorSlice(M49, M60); var P7 := XorSlice(P0, P1); var P8 := XorSlice(M50, M53);
    var P9 := XorSlice(M55, M63); var P10 := XorSlice(M57, P4); var P11 := XorSlice(P0, P3);
    var P12 := XorSlice(M46, M48); var P13 := XorSlice(M49, M51); var P14 := XorSlice(M49, M62);
    var P15 := XorSlice(M54, M59); var P16 := XorSlice(M57, M61); var P17 := XorSlice(M58, P2);
    var P18 := XorSlice(M63, P5); var P19 := XorSlice(P2, P3); var P20 := XorSlice(P4, P6);
    var P22 := XorSlice(P2, P7);
    SliceUndoSums(P5, P6, P7, P8, P9, P10, P11, P12, P13, P14, P15, P16, P17, P18, P19, P20, P22)
  }

  /** And the outputs. */
  function SliceUndoOut(p: SliceUndoSums): (r: seq<Slice>)
    ensures |r| == 8
  {
    var SliceUndoSums(P5, P6, P7, P8, P9, P10, P11, P12, P13, P14, P15, P16, P17, P18, P19, P20, P22) := p;
    var P23 := XorSlice(P7, P8); var P24 := XorSlice(P5, P7); var P25 := XorSlice(P6, P10);
    var P26 := XorSlice(P9, P11); var P27 := XorSlice(P10, P18); var P28 := XorSlice(P11, P25);
    var P29 := XorSlice(P15, P20);
    [XorSlice(P9, P16), XorSlice(P14, P23), XorSlice(P19, P24), XorSlice(P23, P27), XorSlice(P12, P22),
    XorSlice(P17, P28), XorSlice(P26, P29), XorSlice(P13, P22)]
  }

  function SliceNonlinear(t: SliceLinear): (r: SliceProducts) {
    SliceSpread(t, SliceInvert(SliceGather(t)))
  }

  function SliceSubstitute(s: seq<Slice>): (r: seq<Slice>)
    requires |s| == 8
    ensures |r| == 8
  {
    SlicePostOut(SlicePostSum(SliceNonlinear(SlicePreprocess(s))))
  }

  function SliceInvSubstitute(s: seq<Slice>): (r: seq<Slice>)
    requires |s| == 8
    ensures |r| == 8
  {
    SliceUndoOut(SliceUndoSum(SliceNonlinear(SliceUndoPostprocess(s))))
  }

  lemma GatesAt(k: nat)
    requires k < 16
    ensures forall x: Slice, y: Slice :: XorSlice(x, y)[k] == (x[k] != y[k])
    ensures forall x: Slice, y: Slice :: AndSlice(x, y)[k] == (x[k] && y[k])
    ensures forall x: Slice, y: Slice :: OrSlice(x, y)[k] == (x[k] || y[k])
    ensures forall x: Slice :: NotSlice(x)[k] == !x[k]
  {
  }

  function LinearAt(t: SliceLinear, k: nat): (r: Linear)
    requires k < 16
  {
    Linear(t.T1[k], t.T2[k], t.T3[k], t.T4[k], t.T6[k], t.T8[k], t.T9[k], t.T10[k], t.T13[k], t.T14[k], t.T15[k],
    t.T16[k], t.T17[k], t.T19[k], t.T20[k], t.T22[k], t.T23[k], t.T24[k], t.T25[k], t.T26[k], t.T27[k], t.D[k])
  }

  function CoreAt(c: SliceCore, k: nat): (r: Core)
    requires k < 16
  {
    Core(c.c0[k], c.c1[k], c.c2[k], c.c3[k])
  }

  function PostSumsAt(l: SlicePostSums, k: nat): (r: PostSums)
    requires k < 16
  {
    PostSums(l.L1[k], l.L2[k], l.L3[k], l.L6[k], l.L7[k], l.L8[k], l.L9[k], l.L10[k], l.L11[k], l.L12[k], l.L13[k],
    l.L14[k], l.L15[k], l.L16[k], l.L17[k], l.L18[k], l.L19[k], l.L20[k])
  }

  function UndoSumsAt(p: SliceUndoSums, k: nat): (r: UndoSums)
    requires k < 16
  {
    UndoSums(p.P5[k], p.P6[k], p.P7[k], p.P8[k], p.P9[k], p.P10[k], p.P11[k], p.P12[k], p.P13[k], p.P14[k], p.P15[k],
    p.P16[k], p.P17[k], p.P18[k], p.P19[k], p.P20[k], p.P22[k])
  }

  function ProductsAt(m: SliceProducts, k: nat): (r: Products)
    requires k < 16
  {
    Products(m.M46[k], m.M47[k], m.M48[k], m.M49[k], m.M50[k], m.M51[k], m.M52[k], m.M53[k], m.M54[k], m.M55[k],
    m.M56[k], m.M57[k], m.M58[k], m.M59[k], m.M60[k], m.M61[k], m.M62[k], m.M63[k])
  }

  lemma PreprocessAt(s: seq<Slice>, k: nat)
    requires |s| == 8 && k < 16
    ensures LinearAt(SlicePreprocess(s), k) == Preprocess(LaneOf(s, k))
  {
    hide XorSlice, AndSlice, OrSlice, NotSlice;
    GatesAt(k);
  }

  lemma UndoPostprocessAt(s: seq<Slice>, k: nat)
    requires |s| == 8 && k < 16
    ensures LinearAt(SliceUndoPostprocess(s), k) == UndoPostprocess(LaneOf(s, k))
  {
    hide XorSlice, AndSlice, OrSlice, NotSlice;
    GatesAt(k);
  }

  lemma Gather0(t: SliceLinear, k: nat)
    requires k < 16
    ensures SliceGather(t).c0[k] == Gather(LinearAt(t, k)).c0
  {
    hide XorSlice, AndSlice, OrSlice, NotSlice;
    GatesAt(k);
  }

  lemma Gather1(t: SliceLinear, k: nat)
    requires k < 16
    ensures SliceGather(t).c1[k] == Gather(LinearAt(t, k)).c1
  {
    hide XorSlice, AndSlice, OrSlice, NotSlice;
    GatesAt(k);
  }

  lemma Gather2(t: SliceLinear, k: nat)
    requires k < 16
    ensures SliceGather(t).c2[k] == Gather(LinearAt(t, k)).c2
  {
    hide XorSlice, AndSlice, OrSlice, NotSlice;
    GatesAt(k);
  }

  lemma Gather3(t: SliceLinear, k: nat)
    requires k < 16
    ensures SliceGather(t).c3[k] == Gather(LinearAt(t, k)).c3
  {
    hide XorSlice, AndSlice, OrSlice, NotSlice;
    GatesAt(k);
  }

  lemma InvertAt(c: SliceCore, k: nat)
    requires k < 16
    ensures CoreAt(SliceInvert(c), k) == Invert(CoreAt(c, k))
  {
    hide XorSlice, AndSlice, OrSlice, NotSlice;
    GatesAt(k);
  }

  lemma SpreadAt(t: SliceLinear, c: SliceCore, k: nat)
    requires k < 16
    ensures ProductsAt(SliceSpread(t, c), k) == Spread(LinearAt(t, k), CoreAt(c, k))
  {
    hide XorSlice, AndSlice, OrSlice, NotSlice;
    GatesAt(k);
  }

  lemma NonlinearAt(t: SliceLinear, k: nat)
    requires k < 16
    ensures ProductsAt(SliceNonlinear(t), k) == Nonlinear(LinearAt(t, k))
  {
    hide SliceGather, SliceInvert, SliceSpread, Gather, Invert, Spread, LinearAt, ProductsAt;
    Gather0(t, k); Gather1(t, k); Gather2(t, k); Gather3(t, k);
    assert CoreAt(SliceGather(t), k) == Gather(LinearAt(t, k));
    InvertAt(SliceGather(t), k);
    SpreadAt(t, SliceInvert(SliceGather(t)), k);
  }

  lemma PostOutAt(l: SlicePostSums, k: nat)
    requires k < 16
    ensures LaneOf(SlicePostOut(l), k) == PostOut(PostSumsAt(l, k))
  {
    hide XorSlice, AndSlice, OrSlice, NotSlice;
    GatesAt(k);
  }

  lemma UndoSum0(m: SliceProducts, k: nat)
    requires k < 16
    ensures var s, b := SliceUndoSum(m), UndoSum(ProductsAt(m, k));
      s.P5[k] == b.P5 && s.P6[k] == b.P6 && s.P7[k] == b.P7
      && s.P8[k] == b.P8 && s.P9[k] == b.P9 && s.P10[k] == b.P10
  {
    hide XorSlice, AndSlice, OrSlice, NotSlice;
    GatesAt(k);
  }

  lemma UndoSum1(m: SliceProducts, k: nat)
    requires k < 16
    ensures var s, b := SliceUndoSum(m), UndoSum(ProductsAt(m, k));
      s.P11[k] == b.P11 && s.P12[k] == b.P12 && s.P13[k] == b.P13
      && s.P14[k] == b.P14 && s.P15[k] == b.P15 && s.P16[k] == b.P16
  {
    hide XorSlice, AndSlice, OrSlice, NotSlice;
    GatesAt(k);
  }

  lemma UndoSum2(m: SliceProducts, k: nat)
    requires k < 16
    ensures var s, b := SliceUndoSum(m), UndoSum(ProductsAt(m, k));
      s.P17[k] == b.P17 && s.P18[k] == b.P18 && s.P19[k] == b.P19
      && s.P20[k] == b.P20 && s.P22[k] == b.P22
  {
    hide XorSlice, AndSlice, OrSlice, NotSlice;
    GatesAt(k);
  }

  lemma UndoSumAt(m: SliceProducts, k: nat)
    requires k < 16
    ensures UndoSumsAt(SliceUndoSum(m), k) == UndoSum(ProductsAt(m, k))
  {
    hide SliceUndoSum, UndoSum, ProductsAt;
    UndoSum0(m, k);
    UndoSum1(m, k);
    UndoSum2(m, k);
  }

  lemma PostSum0(m: SliceProducts, k: nat)
    requires k < 16
    ensures var s, b := SlicePostSum(m), PostSum(ProductsAt(m, k));
      s.L1[k] == b.L1 && s.L2[k] == b.L2 && s.L3[k] == b.L3
      && s.L6[k] == b.L6 && s.L7[k] == b.L7 && s.L8[k] == b.L8
  {
    hide XorSlice, AndSlice, OrSlice, NotSlice;
    GatesAt(k);
  }

  lemma PostSum1(m: SliceProducts, k: nat)
    requires k < 16
    ensures var s, b := SlicePostSum(m), PostSum(ProductsAt(m, k));
      s.L9[k] == b.L9 && s.L10[k] == b.L10 && s.L11[k] == b.L11
      && s.L12[k] == b.L12 && s.L13[k] == b.L13 && s.L14[k] == b.L14
  {
    hide XorSlice, AndSlice, OrSlice, NotSlice;
    GatesAt(k);
  }

  lemma PostSum2(m: SliceProducts, k: nat)
    requires k < 16
    ensures var s, b := SlicePostSum(m), PostSum(ProductsAt(m, k));
      s.L15[k] == b.L15 && s.L16[k] == b.L16 && s.L17[k] == b.L17
      && s.L18[k] == b.L18 && s.L19[k] == b.L19 && s.L20[k] == b.L20
  {
    hide XorSlice, AndSlice, OrSlice, NotSlice;
    GatesAt(k);
  }

  lemma PostSumAt(m: SliceProducts, k: nat)
    requires k < 16
    ensures PostSumsAt(SlicePostSum(m), k) == PostSum(ProductsAt(m, k))
  {
    hide SlicePostSum, PostSum, ProductsAt;
    PostSum0(m, k);
    PostSum1(m, k);
    PostSum2(m, k);
  }

  lemma UndoOutAt(p: SliceUndoSums, k: nat)
    requires k < 16
    ensures LaneOf(SliceUndoOut(p), k) == UndoOut(UndoSumsAt(p, k))
  {
    hide XorSlice, AndSlice, OrSlice, NotSlice;
    GatesAt(k);
  }

  /** No gate mixes positions: position k of the result is the gate list on position k. */
  lemma SubstituteAt(s: seq<Slice>, k: nat)
    requires |s| == 8 && k < 16
    ensures LaneOf(SliceSubstitute(s), k) == Substitute(LaneOf(s, k))
  {
    hide SlicePreprocess, SliceNonlinear, SlicePostSum, SlicePostOut, Preprocess, Nonlinear, PostSum, PostOut;
    hide LaneOf, LinearAt, ProductsAt, PostSumsAt;
    PreprocessAt(s, k);
    NonlinearAt(SlicePreprocess(s), k);
    PostSumAt(SliceNonlinear(SlicePreprocess(s)), k);
    PostOutAt(SlicePostSum(SliceNonlinear(SlicePreprocess(s))), k);
  }

  lemma InvSubstituteAt(s: seq<Slice>, k: nat)
    requires |s| == 8 && k < 16
    ensures LaneOf(SliceInvSubstitute(s), k) == InvSubstitute(LaneOf(s, k))
  {
    hide SliceUndoPostprocess, SliceNonlinear, SliceUndoSum, SliceUndoOut, UndoPostprocess, Nonlinear, UndoSum, UndoOut;
    hide LaneOf, LinearAt, ProductsAt, UndoSumsAt;
    UndoPostprocessAt(s, k);
    NonlinearAt(SliceUndoPostprocess(s), k);
    UndoSumAt(SliceNonlinear(SliceUndoPostprocess(s)), k);
    UndoOutAt(SliceUndoSum(SliceNonlinear(SliceUndoPostprocess(s))), k);
  }
}
