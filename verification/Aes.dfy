/** The bitsliced AES of src/crypto/ctaes/ctaes.c. A state is eight slices of sixteen bits; slice i
    holds bit i of every byte, and bit position 4r + c belongs to the byte in row r, column c. */
module Aes {
  import opened ByteTypes
  import opened Sbox
  import opened Column
  import opened Slices
  import opened SliceGates

  // ---------------------------------------------------------------- bytes

  /** 1 << i for i below eight. */
  function Weight(i: nat): (r: byte) {
    match i case 0 => 1 case 1 => 2 case 2 => 4 case 3 => 8 case 4 => 16 case 5 => 32 case 6 => 64 case _ => 128
  }

  /** Bit i of a byte. */
  predicate BitOf(b: byte, i: nat) {
    b & Weight(i) != 0
  }

  function BitsOf(b: byte): (r: Bits) {
    Bits(BitOf(b, 0), BitOf(b, 1), BitOf(b, 2), BitOf(b, 3), BitOf(b, 4), BitOf(b, 5), BitOf(b, 6), BitOf(b, 7))
  }

  function Bit8(on: bool, w: byte): (r: byte) {
    if on then w else 0
  }

  /** The byte with the given bits. */
  function ByteOf(x: Bits): (r: byte) {
    Bit8(x.b0, 1) | Bit8(x.b1, 2) | Bit8(x.b2, 4) | Bit8(x.b3, 8) |
    Bit8(x.b4, 16) | Bit8(x.b5, 32) | Bit8(x.b6, 64) | Bit8(x.b7, 128)
  }

  lemma GatherBits(b: byte)
    ensures
      Bit8(b & 1 != 0, 1) | Bit8(b & 2 != 0, 2) | Bit8(b & 4 != 0, 4) | Bit8(b & 8 != 0, 8)
      | Bit8(b & 16 != 0, 16) | Bit8(b & 32 != 0, 32) | Bit8(b & 64 != 0, 64) | Bit8(b & 128 != 0, 128) == b
  {
  }

  lemma BitsGather(b0: bool, b1: bool, b2: bool, b3: bool, b4: bool, b5: bool, b6: bool, b7: bool)
    ensures
      var b := Bit8(b0, 1) | Bit8(b1, 2) | Bit8(b2, 4) | Bit8(b3, 8) |
        Bit8(b4, 16) | Bit8(b5, 32) | Bit8(b6, 64) | Bit8(b7, 128);
      (b & 1 != 0) == b0 && (b & 2 != 0) == b1 && (b & 4 != 0) == b2 && (b & 8 != 0) == b3
      && (b & 16 != 0) == b4 && (b & 32 != 0) == b5 && (b & 64 != 0) == b6 && (b & 128 != 0) == b7
  {
  }

  /** Slicing a byte and putting it together again loses nothing. */
  lemma SliceByte(b: byte)
    ensures ByteOf(BitsOf(b)) == b
  {
    hide Bit8;
    GatherBits(b);
  }

  lemma ByteSlice(x: Bits)
    ensures BitsOf(ByteOf(x)) == x
  {
    hide Bit8;
    BitsGather(x.b0, x.b1, x.b2, x.b3, x.b4, x.b5, x.b6, x.b7);
  }

  /** v |= bit << i sets bit i alone. */
  lemma OrBit(v: byte, i: nat, on: bool, j: nat)
    requires i < 8 && j < 8
    ensures BitOf(v | Bit8(on, Weight(i)), j) == (BitOf(v, j) || (i == j && on))
  {
  }

  /** byte >>= 1 moves every bit down by one. */
  lemma ShiftedBit(b: byte, i: nat)
    requires i < 7
    ensures BitOf(b >> 1, i) == BitOf(b, i + 1)
  {
  }

  // ---------------------------------------------------------------- FIPS 197

  /** The sixteen bytes of the state, the one in row r and column c at 4r + c. */
  type State = s: seq<Bits> | |s| == 16 witness seq(16, k => ZERO)

  /** The place row r, column c of a state has in a block: 4c + r. */
  function Place(k: nat): (p: nat)
    requires k < 16
    ensures p < 16
  {
    4 * (k % 4) + k / 4
  }

  type Block = b: seq<byte> | |b| == 16 witness seq(16, k => 0)

  function Load(block: Block): (r: State) {
    seq(16, k requires 0 <= k < 16 => BitsOf(block[Place(k)]))
  }

  function Save(s: State): (r: Block) {
    seq(16, k requires 0 <= k < 16 => ByteOf(s[Place(k)]))
  }

  function AddKey(s: State, key: State): (r: State) {
    seq(16, k requires 0 <= k < 16 => Xor(s[k], key[k]))
  }

  function SubAll(s: State): (r: State) {
    seq(16, k requires 0 <= k < 16 => Substitute(s[k]))
  }

  function InvSubAll(s: State): (r: State) {
    seq(16, k requires 0 <= k < 16 => InvSubstitute(s[k]))
  }

  /** Where the byte at k comes from when every row r is rotated left by r. */
  function Turned(k: nat): (j: nat)
    requires k < 16
    ensures j < 16
  {
    k / 4 * 4 + (k % 4 + k / 4) % 4
  }

  function TurnedBack(k: nat): (j: nat)
    requires k < 16
    ensures j < 16
  {
    k / 4 * 4 + (k % 4 + 4 - k / 4) % 4
  }

  lemma TurnedTable(k: nat)
    requires k < 16
    ensures Turned(k) == if k < 4 then k else if k < 7 then k + 1 else if k == 7 then 4 else if k < 10 then k + 2
      else if k < 12 then k - 2 else if k == 12 then 15 else k - 1
  {
  }

  lemma TurnedBackTable(k: nat)
    requires k < 16
    ensures TurnedBack(k) == if k < 4 then k else if k == 4 then 7 else if k < 8 then k - 1 else if k < 10 then k + 2
      else if k < 12 then k - 2 else if k < 15 then k + 1 else 12
  {
  }

  lemma TurnedTwice(k: nat)
    requires k < 16
    ensures Turned(TurnedBack(k)) == k
  {
    hide Turned, TurnedBack;
    TurnedBackTable(k);
    TurnedTable(TurnedBack(k));
  }

  /** Row r is rotated left by r, section 5.1.2. */
  function ShiftAll(s: State): (r: State) {
    seq(16, k requires 0 <= k < 16 => s[Turned(k)])
  }

  /** Row r is rotated right by r, section 5.3.1. */
  function InvShiftAll(s: State): (r: State) {
    seq(16, k requires 0 <= k < 16 => s[TurnedBack(k)])
  }

  /** The position `rows` rows further down the same column, the last row being followed by the first. */
  function Below(k: nat, rows: nat): (p: nat)
    requires k < 16 && rows < 4
    ensures p < 16
  {
    if k + 4 * rows < 16 then k + 4 * rows else k + 4 * rows - 16
  }

  function MixAt(s: State, k: nat): (r: Bits)
    requires k < 16
  {
    MixByte(s[k], s[Below(k, 1)], s[Below(k, 2)], s[Below(k, 3)])
  }

  function InvMixAt(s: State, k: nat): (r: Bits)
    requires k < 16
  {
    InvMixByte(s[k], s[Below(k, 1)], s[Below(k, 2)], s[Below(k, 3)])
  }

  function MixAll(s: State): (r: State) {
    seq(16, k requires 0 <= k < 16 => MixAt(s, k))
  }

  function InvMixAll(s: State): (r: State) {
    seq(16, k requires 0 <= k < 16 => InvMixAt(s, k))
  }

  /** The state after the initial key addition and the first r full rounds of the cipher, figure 5. */
  function Forward(keys: seq<State>, s: State, r: nat): (result: State)
    requires r < |keys|
  {
    if r == 0 then AddKey(s, keys[0])
    else AddKey(MixAll(ShiftAll(SubAll(Forward(keys, s, r - 1)))), keys[r])
  }

  /** The cipher: nrounds - 1 full rounds and a last one without MixColumns. */
  function Cipher(keys: seq<State>, nrounds: nat, s: State): (r: State)
    requires 1 <= nrounds < |keys|
  {
    AddKey(ShiftAll(SubAll(Forward(keys, s, nrounds - 1))), keys[nrounds])
  }

  /** The state after the initial key addition and r full rounds of the inverse cipher, figure 12. */
  function Backward(keys: seq<State>, nrounds: nat, s: State, r: nat): (result: State)
    requires r <= nrounds < |keys|
  {
    if r == 0 then AddKey(s, keys[nrounds])
    else InvMixAll(AddKey(InvSubAll(InvShiftAll(Backward(keys, nrounds, s, r - 1))), keys[nrounds - r]))
  }

  function InvCipher(keys: seq<State>, nrounds: nat, s: State): (r: State)
    requires 1 <= nrounds < |keys|
  {
    AddKey(InvSubAll(InvShiftAll(Backward(keys, nrounds, s, nrounds - 1))), keys[0])
  }

  function EncryptBlock(keys: seq<State>, nrounds: nat, block: Block): (r: Block)
    requires 1 <= nrounds < |keys|
  {
    Save(Cipher(keys, nrounds, Load(block)))
  }

  function DecryptBlock(keys: seq<State>, nrounds: nat, block: Block): (r: Block)
    requires 1 <= nrounds < |keys|
  {
    Save(InvCipher(keys, nrounds, Load(block)))
  }

  // ---------------------------------------------------------------- each step is undone by its counterpart

  lemma PlaceTwice(k: nat)
    requires k < 16
    ensures Place(Place(k)) == k
  {
  }

  lemma LoadSave(s: State, block: Block)
    ensures Load(Save(s)) == s && Save(Load(block)) == block
  {
    forall k | 0 <= k < 16 ensures Load(Save(s))[k] == s[k] && Save(Load(block))[k] == block[k] {
      LoadSaveAt(s, block, k);
    }
  }

  lemma LoadSaveAt(s: State, block: Block, k: nat)
    requires k < 16
    ensures Load(Save(s))[k] == s[k] && Save(Load(block))[k] == block[k]
  {
    hide ByteOf, BitsOf, Place;
    PlaceTwice(k);
    ByteSlice(s[k]);
    SliceByte(block[k]);
  }

  lemma AddTwice(s: State, key: State)
    ensures AddKey(AddKey(s, key), key) == s
  {
    hide Xor;
    forall k | 0 <= k < 16 ensures AddKey(AddKey(s, key), key)[k] == s[k] {
      XorCancel(s[k], s[k], key[k]);
    }
  }

  lemma SubUndone(s: State)
    ensures InvSubAll(SubAll(s)) == s
  {
    hide Substitute, InvSubstitute;
    forall k | 0 <= k < 16 ensures InvSubAll(SubAll(s))[k] == s[k] {
      SubstituteInverse(s[k]);
    }
  }

  lemma ShiftUndone(s: State)
    ensures InvShiftAll(ShiftAll(s)) == s
  {
    hide Turned, TurnedBack;
    forall k | 0 <= k < 16 ensures InvShiftAll(ShiftAll(s))[k] == s[k] {
      TurnedTwice(k);
    }
  }

  lemma MixUndone(s: State)
    ensures InvMixAll(MixAll(s)) == s
  {
    hide InvMixAt;
    forall k | 0 <= k < 16 ensures InvMixAll(MixAll(s))[k] == s[k] {
      MixUndoneAt(s, k);
    }
  }

  lemma BelowBelow(k: nat, m: nat, n: nat)
    requires k < 16 && m < 4 && n < 4
    ensures Below(Below(k, m), n) == Below(k, (m + n) % 4) && Below(k, 0) == k
  {
  }

  lemma MixUndoneAt(s: State, k: nat)
    requires k < 16
    ensures InvMixAt(MixAll(s), k) == s[k]
  {
    hide MixByte, InvMixByte, FixGates, Below;
    var k1, k2, k3 := Below(k, 1), Below(k, 2), Below(k, 3);
    BelowBelow(k, 1, 1); BelowBelow(k, 1, 2); BelowBelow(k, 1, 3);
    BelowBelow(k, 2, 1); BelowBelow(k, 2, 2); BelowBelow(k, 2, 3);
    BelowBelow(k, 3, 1); BelowBelow(k, 3, 2); BelowBelow(k, 3, 3);
    var a, b, c, d := s[k], s[k1], s[k2], s[k3];
    assert MixAt(s, k) == MixByte(a, b, c, d) && MixAt(s, k1) == MixByte(b, c, d, a);
    assert MixAt(s, k2) == MixByte(c, d, a, b) && MixAt(s, k3) == MixByte(d, a, b, c);
    MixInverse(a, b, c, d);
    FixGatesIsInvMixByte(MixByte(a, b, c, d), MixByte(b, c, d, a), MixByte(c, d, a, b), MixByte(d, a, b, c));
  }

  /** After r rounds of decryption the state is what it was before the last r rounds' row shift. */
  lemma {:induction false} RoundsUndone(keys: seq<State>, nrounds: nat, s: State, r: nat)
    requires 1 <= nrounds < |keys| && r < nrounds
    ensures Backward(keys, nrounds, Cipher(keys, nrounds, s), r) == ShiftAll(SubAll(Forward(keys, s, nrounds - 1 - r)))
  {
    hide AddKey, SubAll, InvSubAll, ShiftAll, InvShiftAll, MixAll, InvMixAll;
    if r == 0 {
      AddTwice(ShiftAll(SubAll(Forward(keys, s, nrounds - 1))), keys[nrounds]);
    } else {
      RoundsUndone(keys, nrounds, s, r - 1);
      var before := Forward(keys, s, nrounds - r);
      ShiftUndone(SubAll(before));
      SubUndone(before);
      var mixed := MixAll(ShiftAll(SubAll(Forward(keys, s, nrounds - r - 1))));
      AddTwice(mixed, keys[nrounds - r]);
      MixUndone(ShiftAll(SubAll(Forward(keys, s, nrounds - r - 1))));
    }
  }

  lemma CipherUndone(keys: seq<State>, nrounds: nat, s: State)
    requires 1 <= nrounds < |keys|
    ensures InvCipher(keys, nrounds, Cipher(keys, nrounds, s)) == s
  {
    hide AddKey, SubAll, InvSubAll, ShiftAll, InvShiftAll, MixAll, InvMixAll, Cipher, Backward;
    RoundsUndone(keys, nrounds, s, nrounds - 1);
    ShiftUndone(SubAll(Forward(keys, s, 0)));
    SubUndone(Forward(keys, s, 0));
    AddTwice(s, keys[0]);
  }

  /** AES_decrypt undoes AES_encrypt, whatever the round keys and however many rounds there are. */
  lemma DecryptUndoesEncrypt(keys: seq<State>, nrounds: nat, block: Block)
    requires 1 <= nrounds < |keys|
    ensures DecryptBlock(keys, nrounds, EncryptBlock(keys, nrounds, block)) == block
  {
    hide Cipher, InvCipher, Load, Save;
    LoadSave(Cipher(keys, nrounds, Load(block)), block);
    CipherUndone(keys, nrounds, Load(block));
  }

  // ---------------------------------------------------------------- the code

  lemma RotAt(x: Slice, b: nat, k: nat)
    requires b < 4 && k < 16
    ensures Rot(x, b)[k] == x[Below(k, b)]
  {
  }

  /** The slice with bit 0 as given and no other. */
  function One(on: bool): (r: Slice) {
    seq(16, k => k == 0 && on)
  }

  lemma SetBit(x: Slice, n: nat, on: bool)
    requires n < 16
    ensures OrSlice(x, Left(One(on), n)) == Mark(x, n, on)
  {
  }

  /** The bytes that eight slices hold. */
  function LanesOf(v: seq<Slice>): (r: State)
    requires |v| == 8
  {
    seq(16, k requires 0 <= k < 16 => LaneOf(v, k))
  }

  /** x with bit n or-ed with `on`. */
  function Mark(x: Slice, n: nat, on: bool): (r: Slice)
    requires n < 16
  {
    x[n := x[n] || on]
  }

  function OrBits(a: Bits, b: Bits): (r: Bits) {
    Bits(a.b0 || b.b0, a.b1 || b.b1, a.b2 || b.b2, a.b3 || b.b3, a.b4 || b.b4, a.b5 || b.b5, a.b6 || b.b6, a.b7 || b.b7)
  }

  class AesState {
    const slice: array<Slice>

    ghost predicate Valid() { slice.Length == 8 }

    function Lanes(): (r: State)
      requires Valid()
      reads slice
    {
      LanesOf(slice[..])
    }

    /** All zero, as AES_state s = {{0}}. */
    constructor ()
      ensures Valid() && fresh(slice)
      ensures Lanes() == seq(16, k => ZERO)
    {
      slice := new Slice[8](i => seq(16, k => false));
    }

    method LoadByte(b: byte, r: nat, c: nat)
      requires Valid() && r < 4 && c < 4
      modifies slice
      ensures Lanes() == old(Lanes())[r * 4 + c := OrBits(old(Lanes())[r * 4 + c], BitsOf(b))]
    {
      hide OrSlice, Left, One, BitOf, Mark, LanesOf, OrBits;
      ghost var v := slice[..];
      var rest := b;
      for i := 0 to 8
        invariant SameTail(rest, b, i)
        invariant slice[..] == Marked(v, r * 4 + c, b, i)
      {
        NextBit(rest, b, i);
        SetBit(slice[i], r * 4 + c, BitOf(rest, 0));
        slice[i] := OrSlice(slice[i], Left(One(BitOf(rest, 0)), r * 4 + c));
        rest := rest >> 1;
      }
      MarkedLanes(v, slice[..], r * 4 + c, b);
    }

    method LoadBytes(data: array<byte>, from: nat)
      requires Valid() && from + 16 <= data.Length
      requires Lanes() == seq(16, k => ZERO)
      modifies slice
      ensures Lanes() == Load(data[from..from + 16])
    {
      hide BitsOf, LanesOf, OrBits, Loaded, Place;
      ghost var block: Block := data[from..from + 16];
      LoadedEnds(block);
      var p := from;
      for c := 0 to 4
        invariant p == from + 4 * c && Lanes() == Loaded(block, 4 * c)
      {
        for r := 0 to 4
          invariant p == from + 4 * c + r && Lanes() == Loaded(block, 4 * c + r)
        {
          PlaceOf(r, c);
          LoadedStep(block, 4 * c + r);
          LoadByte(data[p], r, c);
          p := p + 1;
        }
      }
    }

    /** The byte at row r, column c, gathered from the eight slices. */
    method GatherByte(r: nat, c: nat) returns (v: byte)
      requires Valid() && r < 4 && c < 4
      ensures v == ByteOf(Lanes()[r * 4 + c])
    {
      hide BitOf, ByteOf;
      v := 0;
      ghost var lane := Lanes()[r * 4 + c];
      NoBits();
      for b := 0 to 8
        invariant forall j: nat | j < 8 :: BitOf(v, j) == (j < b && BitAt(lane, j))
      {
        var bit := Right(slice[b], r * 4 + c)[0];
        forall j: nat | j < 8 ensures BitOf(v | Bit8(bit, Weight(b)), j) == (BitOf(v, j) || (b == j && bit)) {
          OrBit(v, b, bit, j);
        }
        v := v | Bit8(bit, Weight(b));
      }
      AllBits(v, lane);
    }

    method SaveBytes(data: array<byte>, from: nat)
      requires Valid() && from + 16 <= data.Length
      modifies data
      ensures data[..] == old(data[..from]) + Save(Lanes()) + old(data[from + 16..])
    {
      hide ByteOf, LanesOf, Place;
      ghost var s := Lanes();
      var p := from;
      for c := 0 to 4
        invariant p == from + 4 * c && Lanes() == s
        invariant forall q | 0 <= q < 4 * c :: data[from + q] == ByteOf(s[Place(q)])
        invariant forall q | 0 <= q < data.Length && !(from <= q < from + 4 * c) :: data[q] == old(data[q])
      {
        for r := 0 to 4
          invariant p == from + 4 * c + r && Lanes() == s
          invariant forall q | 0 <= q < 4 * c + r :: data[from + q] == ByteOf(s[Place(q)])
          invariant forall q | 0 <= q < data.Length && !(from <= q < from + 4 * c + r) :: data[q] == old(data[q])
        {
          data[p] := GatherByte(r, c);
          PlaceOf(r, c);
          p := p + 1;
        }
      }
    }

    method SubBytes(inv: bool)
      requires Valid()
      modifies slice
      ensures Lanes() == if inv then InvSubAll(old(Lanes())) else SubAll(old(Lanes()))
    {
      hide SliceSubstitute, SliceInvSubstitute, Substitute, InvSubstitute;
      ghost var was := slice[..];
      SubstitutedLanes(was);
      var s := if inv then SliceInvSubstitute(slice[..]) else SliceSubstitute(slice[..]);
      slice[7], slice[6], slice[5], slice[4] := s[7], s[6], s[5], s[4];
      slice[3], slice[2], slice[1], slice[0] := s[3], s[2], s[1], s[0];
      assert slice[..] == s;
    }

    method ShiftRows()
      requires Valid()
      modifies slice
      ensures Lanes() == ShiftAll(old(Lanes()))
    {
      hide ShiftGates, Shifted;
      ghost var was := slice[..];
      for i := 0 to 8
        invariant forall j | 0 <= j < i :: slice[j] == Shifted(was[j])
        invariant forall j | i <= j < 8 :: slice[j] == was[j]
      {
        var v := slice[i];
        ShiftGatesMove(v);
        slice[i] := ShiftGates(v);
      }
      ShiftedLanes(was, slice[..]);
    }

    method InvShiftRows()
      requires Valid()
      modifies slice
      ensures Lanes() == InvShiftAll(old(Lanes()))
    {
      hide InvShiftGates, InvShifted;
      ghost var was := slice[..];
      for i := 0 to 8
        invariant forall j | 0 <= j < i :: slice[j] == InvShifted(was[j])
        invariant forall j | i <= j < 8 :: slice[j] == was[j]
      {
        var v := slice[i];
        InvShiftGatesMove(v);
        slice[i] := InvShiftGates(v);
      }
      InvShiftedLanes(was, slice[..]);
    }

    /** Forward: the columns are multiplied by a(x). Inverse: by a(x) and then by {04}x^2 + {05}. */
    method MixColumns(inv: bool)
      requires Valid()
      modifies slice
      ensures Lanes() == if inv then InvMixAll(old(Lanes())) else MixAll(old(Lanes()))
    {
      hide XorSlice, Rot, LanesOf, MixAll, InvMixAll, FixAll;
      ghost var v := slice[..];
      var s0, s1 := slice[0], slice[1];
      var s2, s3 := slice[2], slice[3];
      var s4, s5 := slice[4], slice[5];
      var s6, s7 := slice[6], slice[7];
      var s0_01 := XorSlice(s0, Rot(s0, 1)); var s0_123 := XorSlice(Rot(s0_01, 1), Rot(s0, 3));
      var s1_01 := XorSlice(s1, Rot(s1, 1)); var s1_123 := XorSlice(Rot(s1_01, 1), Rot(s1, 3));
      var s2_01 := XorSlice(s2, Rot(s2, 1)); var s2_123 := XorSlice(Rot(s2_01, 1), Rot(s2, 3));
      var s3_01 := XorSlice(s3, Rot(s3, 1)); var s3_123 := XorSlice(Rot(s3_01, 1), Rot(s3, 3));
      var s4_01 := XorSlice(s4, Rot(s4, 1)); var s4_123 := XorSlice(Rot(s4_01, 1), Rot(s4, 3));
      var s5_01 := XorSlice(s5, Rot(s5, 1)); var s5_123 := XorSlice(Rot(s5_01, 1), Rot(s5, 3));
      var s6_01 := XorSlice(s6, Rot(s6, 1)); var s6_123 := XorSlice(Rot(s6_01, 1), Rot(s6, 3));
      var s7_01 := XorSlice(s7, Rot(s7, 1)); var s7_123 := XorSlice(Rot(s7_01, 1), Rot(s7, 3));
      slice[0] := XorSlice(s7_01, s0_123);
      slice[1] := XorSlice(XorSlice(s7_01, s0_01), s1_123);
      slice[2] := XorSlice(s1_01, s2_123);
      slice[3] := XorSlice(XorSlice(s7_01, s2_01), s3_123);
      slice[4] := XorSlice(XorSlice(s7_01, s3_01), s4_123);
      slice[5] := XorSlice(s4_01, s5_123);
      slice[6] := XorSlice(s5_01, s6_123);
      slice[7] := XorSlice(s6_01, s7_123);
      assert slice[..] == MixSlices(v);
      MixedLanes(v);
      if inv {
        MultiplyBack();
        MixThenFix(old(Lanes()));
      }
    }

    /** The second part of the inverse direction: s += {04} (x^2 + {01}) s. */
    method MultiplyBack()
      requires Valid()
      modifies slice
      ensures Lanes() == FixAll(old(Lanes()))
    {
      hide XorSlice, Rot, LanesOf, FixAll;
      ghost var w := slice[..];
      var t0_02 := XorSlice(slice[0], Rot(slice[0], 2));
      var t1_02 := XorSlice(slice[1], Rot(slice[1], 2));
      var t2_02 := XorSlice(slice[2], Rot(slice[2], 2));
      var t3_02 := XorSlice(slice[3], Rot(slice[3], 2));
      var t4_02 := XorSlice(slice[4], Rot(slice[4], 2));
      var t5_02 := XorSlice(slice[5], Rot(slice[5], 2));
      var t6_02 := XorSlice(slice[6], Rot(slice[6], 2));
      var t7_02 := XorSlice(slice[7], Rot(slice[7], 2));
      slice[0] := XorSlice(slice[0], t6_02);
      slice[1] := XorSlice(slice[1], XorSlice(t6_02, t7_02));
      slice[2] := XorSlice(slice[2], XorSlice(t0_02, t7_02));
      slice[3] := XorSlice(slice[3], XorSlice(t1_02, t6_02));
      slice[4] := XorSlice(slice[4], XorSlice(XorSlice(t2_02, t6_02), t7_02));
      slice[5] := XorSlice(slice[5], XorSlice(t3_02, t7_02));
      slice[6] := XorSlice(slice[6], t4_02);
      slice[7] := XorSlice(slice[7], t5_02);
      assert slice[..] == FixSlices(w);
      FixedLanes(w);
    }

    method AddRoundKey(round: AesState)
      requires Valid() && round.Valid()
      modifies slice
      ensures Lanes() == AddKey(old(Lanes()), old(round.Lanes()))
    {
      hide XorSlice;
      ghost var v, key := slice[..], round.slice[..];
      for b := 0 to 8
        invariant forall j | 0 <= j < b :: slice[j] == XorSlice(v[j], key[j])
        invariant forall j | b <= j < 8 :: slice[j] == v[j] && round.slice[j] == key[j]
      {
        slice[b] := XorSlice(slice[b], round.slice[b]);
      }
      AddedLanes(v, key, slice[..]);
    }
  }

  /** Eight slices after the low i bits of b were or-ed into position n. */
  ghost function Marked(v: seq<Slice>, n: nat, b: byte, i: nat): (r: seq<Slice>)
    requires |v| == 8 && n < 16
  {
    seq(8, j requires 0 <= j < 8 => if j < i then Mark(v[j], n, BitOf(b, j)) else v[j])
  }

  /** rest is b with its low i bits shifted out. */
  ghost predicate SameTail(rest: byte, b: byte, i: nat) {
    forall j: nat | i <= j < 8 :: BitOf(rest, j - i) == BitOf(b, j)
  }

  lemma NextBit(rest: byte, b: byte, i: nat)
    requires i < 8 && SameTail(rest, b, i)
    ensures BitOf(rest, 0) == BitOf(b, i) && SameTail(rest >> 1, b, i + 1)
  {
    hide BitOf;
    assert BitOf(rest, i - i) == BitOf(b, i);
    forall j: nat | i + 1 <= j < 8 ensures BitOf(rest >> 1, j - (i + 1)) == BitOf(b, j) {
      ShiftedBit(rest, j - (i + 1));
    }
  }

  lemma MarkedLanes(v: seq<Slice>, w: seq<Slice>, n: nat, b: byte)
    requires |v| == 8 && n < 16
    requires w == Marked(v, n, b, 8)
    ensures |w| == 8 && LanesOf(w) == LanesOf(v)[n := OrBits(LanesOf(v)[n], BitsOf(b))]
  {
    hide BitOf;
  }

  /** The state once the first n bytes of the block are loaded. */
  ghost function Loaded(block: Block, n: nat): (r: State) {
    seq(16, k requires 0 <= k < 16 => if Place(k) < n then BitsOf(block[Place(k)]) else ZERO)
  }

  lemma LoadedEnds(block: Block)
    ensures Loaded(block, 0) == seq(16, k => ZERO) && Loaded(block, 16) == Load(block)
  {
    hide BitsOf;
  }

  lemma LoadedStep(block: Block, n: nat)
    requires n < 16
    ensures Loaded(block, n + 1) == Loaded(block, n)[Place(n) := OrBits(Loaded(block, n)[Place(n)], BitsOf(block[n]))]
  {
    hide BitsOf, Place;
    forall k | 0 <= k < 16 ensures Place(k) == n <==> k == Place(n) {
      PlaceTwice(k);
      PlaceTwice(n);
    }
  }

  lemma PlaceOf(r: nat, c: nat)
    requires r < 4 && c < 4
    ensures Place(r * 4 + c) == 4 * c + r && Place(4 * c + r) == r * 4 + c
  {
  }

  lemma NoBits()
    ensures forall j: nat | j < 8 :: !BitOf(0, j)
  {
  }

  lemma AllBits(v: byte, x: Bits)
    requires forall j: nat | j < 8 :: BitOf(v, j) == BitAt(x, j)
    ensures v == ByteOf(x)
  {
    hide BitAt, BitOf, ByteOf;
    SliceByte(v);
    forall j: nat | j < 8 ensures BitAt(BitsOf(v), j) == BitAt(x, j) {
      BitsOfAt(v, j);
    }
    SameBits(BitsOf(v), x);
  }

  lemma BitsOfAt(v: byte, j: nat)
    requires j < 8
    ensures BitAt(BitsOf(v), j) == BitOf(v, j)
  {
  }

  /** The round keys as states. */
  ghost function Keys(rounds: seq<AesState>): (keys: seq<State>)
    requires forall k | k in rounds :: k.Valid()
    ensures |keys| == |rounds|
    reads set k | k in rounds :: k.slice
  {
    seq(|rounds|, i
      requires 0 <= i < |rounds|
      reads set k | k in rounds :: k.slice
      requires rounds[i].Valid()
      => rounds[i].Lanes())
  }

  /** One round of the loop in AES_encrypt. */
  method FullRound(s: AesState, round: AesState)
    requires s.Valid() && round.Valid() && round.slice != s.slice
    modifies s.slice
    ensures s.Valid() && s.Lanes() == AddKey(MixAll(ShiftAll(SubAll(old(s.Lanes())))), old(round.Lanes()))
  {
    hide AddKey, SubAll, ShiftAll, MixAll, LanesOf;
    s.SubBytes(false);
    s.ShiftRows();
    s.MixColumns(false);
    s.AddRoundKey(round);
  }

  /** One round of the loop in AES_decrypt. */
  method FullRoundBack(s: AesState, round: AesState)
    requires s.Valid() && round.Valid() && round.slice != s.slice
    modifies s.slice
    ensures s.Valid()
    ensures s.Lanes() == InvMixAll(AddKey(InvSubAll(InvShiftAll(old(s.Lanes()))), old(round.Lanes())))
  {
    hide AddKey, InvSubAll, InvShiftAll, InvMixAll, LanesOf;
    s.InvShiftRows();
    s.SubBytes(true);
    s.AddRoundKey(round);
    s.MixColumns(true);
  }

  /** cipher16 may be the same memory as plain16: the block is loaded before anything is stored. */
  method AesEncrypt(rounds: seq<AesState>, nrounds: nat, cipher: array<byte>, to: nat, plain: array<byte>, from: nat)
    requires 1 <= nrounds < |rounds| && forall k | k in rounds :: k.Valid()
    requires from + 16 <= plain.Length && to + 16 <= cipher.Length
    modifies cipher
    ensures cipher[..] == old(cipher[..to] + EncryptBlock(Keys(rounds), nrounds, plain[from..from + 16]) +
      cipher[to + 16..])
  {
    hide AddKey, SubAll, ShiftAll, MixAll, Load, Save, LanesOf;
    ghost var keys, block := Keys(rounds), plain[from..from + 16];
    var s := new AesState();
    var next := 0;
    s.LoadBytes(plain, from);
    s.AddRoundKey(rounds[next]);
    next := next + 1;
    for round := 1 to nrounds
      invariant next == round && s.Valid() && Keys(rounds) == keys && cipher[..] == old(cipher[..])
      invariant s.Lanes() == Forward(keys, Load(block), round - 1)
    {
      FullRound(s, rounds[next]);
      assert Keys(rounds)[next] == rounds[next].Lanes();
      next := next + 1;
    }
    s.SubBytes(false);
    s.ShiftRows();
    assert Keys(rounds)[next] == rounds[next].Lanes();
    s.AddRoundKey(rounds[next]);
    assert s.Lanes() == Cipher(keys, nrounds, Load(block));
    s.SaveBytes(cipher, to);
  }

  method AesDecrypt(rounds: seq<AesState>, nrounds: nat, plain: array<byte>, to: nat, cipher: array<byte>, from: nat)
    requires 1 <= nrounds < |rounds| && forall k | k in rounds :: k.Valid()
    requires from + 16 <= cipher.Length && to + 16 <= plain.Length
    modifies plain
    ensures plain[..] == old(plain[..to] + DecryptBlock(Keys(rounds), nrounds, cipher[from..from + 16]) +
      plain[to + 16..])
  {
    hide AddKey, InvSubAll, InvShiftAll, InvMixAll, Load, Save, LanesOf;
    ghost var keys, block := Keys(rounds), cipher[from..from + 16];
    var s := new AesState();
    var next := nrounds;
    s.LoadBytes(cipher, from);
    s.AddRoundKey(rounds[next]);
    next := next - 1;
    for round := 1 to nrounds
      invariant next == nrounds - round && s.Valid() && Keys(rounds) == keys && plain[..] == old(plain[..])
      invariant s.Lanes() == Backward(keys, nrounds, Load(block), round - 1)
    {
      FullRoundBack(s, rounds[next]);
      assert Keys(rounds)[next] == rounds[next].Lanes();
      next := next - 1;
    }
    s.InvShiftRows();
    s.SubBytes(true);
    assert Keys(rounds)[next] == rounds[next].Lanes();
    s.AddRoundKey(rounds[next]);
    assert s.Lanes() == InvCipher(keys, nrounds, Load(block));
    s.SaveBytes(plain, to);
  }

  // ---------------------------------------------------------------- what the slice operations do to the bytes

  function Shifted(v: Slice): (r: Slice) {
    seq(16, k requires 0 <= k < 16 => v[Turned(k)])
  }

  function InvShifted(v: Slice): (r: Slice) {
    seq(16, k requires 0 <= k < 16 => v[TurnedBack(k)])
  }

  /** RangeAt, BIT_RANGE_LEFT and BIT_RANGE_RIGHT at one bit position. */
  lemma RangeAt(v: Slice, from: nat, to: nat, n: nat, k: nat)
    requires to <= 16 && k < 16
    ensures Range(v, from, to)[k] == (from <= k < to && v[k])
    ensures Left(Range(v, from, to), n)[k] == (from + n <= k < to + n && v[k - n])
    ensures Right(Range(v, from, to), n)[k] == (from <= k + n < to && v[k + n])
  {
  }

  /** What ShiftRows does to one slice: row 0 stays, the others move by masked shifts. */
  function ShiftGates(v: Slice): (r: Slice) {
    OrSlice(OrSlice(OrSlice(Range(v, 0, 4),
      OrSlice(Left(Range(v, 4, 5), 3), Right(Range(v, 5, 8), 1))),
      OrSlice(Left(Range(v, 8, 10), 2), Right(Range(v, 10, 12), 2))),
      OrSlice(Left(Range(v, 12, 15), 1), Right(Range(v, 15, 16), 3)))
  }

  lemma ShiftGatesMove(v: Slice)
    ensures ShiftGates(v) == Shifted(v)
  {
    hide ShiftGates;
    forall k | 0 <= k < 16 ensures ShiftGates(v)[k] == Shifted(v)[k] {
      ShiftGatesAt(v, k);
    }
  }

  lemma ShiftGatesAt(v: Slice, k: nat)
    requires k < 16
    ensures ShiftGates(v)[k] == Shifted(v)[k]
  {
    hide Left, Right, Range, Turned;
    TurnedTable(k);
    RangeAt(v, 0, 4, 0, k);
    RangeAt(v, 4, 5, 3, k); RangeAt(v, 5, 8, 1, k);
    RangeAt(v, 8, 10, 2, k); RangeAt(v, 10, 12, 2, k);
    RangeAt(v, 12, 15, 1, k); RangeAt(v, 15, 16, 3, k);
  }

  /** What InvShiftRows does to one slice: row 0 stays, the others move by masked shifts. */
  function InvShiftGates(v: Slice): (r: Slice) {
    OrSlice(OrSlice(OrSlice(Range(v, 0, 4),
      OrSlice(Left(Range(v, 4, 7), 1), Right(Range(v, 7, 8), 3))),
      OrSlice(Left(Range(v, 8, 10), 2), Right(Range(v, 10, 12), 2))),
      OrSlice(Left(Range(v, 12, 13), 3), Right(Range(v, 13, 16), 1)))
  }

  lemma InvShiftGatesMove(v: Slice)
    ensures InvShiftGates(v) == InvShifted(v)
  {
    hide InvShiftGates;
    forall k | 0 <= k < 16 ensures InvShiftGates(v)[k] == InvShifted(v)[k] {
      InvShiftGatesAt(v, k);
    }
  }

  lemma InvShiftGatesAt(v: Slice, k: nat)
    requires k < 16
    ensures InvShiftGates(v)[k] == InvShifted(v)[k]
  {
    hide Left, Right, Range, TurnedBack;
    TurnedBackTable(k);
    RangeAt(v, 0, 4, 0, k);
    RangeAt(v, 4, 7, 1, k); RangeAt(v, 7, 8, 3, k);
    RangeAt(v, 8, 10, 2, k); RangeAt(v, 10, 12, 2, k);
    RangeAt(v, 12, 13, 3, k); RangeAt(v, 13, 16, 1, k);
  }

  lemma SubstitutedLanes(v: seq<Slice>)
    requires |v| == 8
    ensures LanesOf(SliceSubstitute(v)) == SubAll(LanesOf(v)) && LanesOf(SliceInvSubstitute(v)) == InvSubAll(LanesOf(v))
  {
    hide SliceSubstitute, SliceInvSubstitute, Substitute, InvSubstitute, LaneOf;
    forall k | 0 <= k < 16
      ensures LanesOf(SliceSubstitute(v))[k] == SubAll(LanesOf(v))[k] &&
        LanesOf(SliceInvSubstitute(v))[k] == InvSubAll(LanesOf(v))[k]
    {
      SubstituteAt(v, k);
      InvSubstituteAt(v, k);
    }
  }

  lemma ShiftedLanes(v: seq<Slice>, w: seq<Slice>)
    requires |v| == 8 && |w| == 8 && forall j | 0 <= j < 8 :: w[j] == Shifted(v[j])
    ensures LanesOf(w) == ShiftAll(LanesOf(v))
  {
  }

  lemma InvShiftedLanes(v: seq<Slice>, w: seq<Slice>)
    requires |v| == 8 && |w| == 8 && forall j | 0 <= j < 8 :: w[j] == InvShifted(v[j])
    ensures LanesOf(w) == InvShiftAll(LanesOf(v))
  {
  }

  lemma AddedLanes(v: seq<Slice>, key: seq<Slice>, w: seq<Slice>)
    requires |v| == 8 && |key| == 8 && |w| == 8 && forall j | 0 <= j < 8 :: w[j] == XorSlice(v[j], key[j])
    ensures LanesOf(w) == AddKey(LanesOf(v), LanesOf(key))
  {
  }

  function Sum01(x: Slice): (r: Slice) {
    XorSlice(x, Rot(x, 1))
  }

  function Sum123(x: Slice): (r: Slice) {
    XorSlice(Rot(Sum01(x), 1), Rot(x, 3))
  }

  function Sum02(x: Slice): (r: Slice) {
    XorSlice(x, Rot(x, 2))
  }

  function MixSlices(v: seq<Slice>): (r: seq<Slice>)
    requires |v| == 8
    ensures |r| == 8
  {
    [XorSlice(Sum01(v[7]), Sum123(v[0])), XorSlice(XorSlice(Sum01(v[7]), Sum01(v[0])), Sum123(v[1])),
     XorSlice(Sum01(v[1]), Sum123(v[2])), XorSlice(XorSlice(Sum01(v[7]), Sum01(v[2])), Sum123(v[3])),
     XorSlice(XorSlice(Sum01(v[7]), Sum01(v[3])), Sum123(v[4])), XorSlice(Sum01(v[4]), Sum123(v[5])),
     XorSlice(Sum01(v[5]), Sum123(v[6])), XorSlice(Sum01(v[6]), Sum123(v[7]))]
  }

  function FixSlices(v: seq<Slice>): (r: seq<Slice>)
    requires |v| == 8
    ensures |r| == 8
  {
    [XorSlice(v[0], Sum02(v[6])), XorSlice(v[1], XorSlice(Sum02(v[6]), Sum02(v[7]))),
     XorSlice(v[2], XorSlice(Sum02(v[0]), Sum02(v[7]))), XorSlice(v[3], XorSlice(Sum02(v[1]), Sum02(v[6]))),
     XorSlice(v[4], XorSlice(XorSlice(Sum02(v[2]), Sum02(v[6])), Sum02(v[7]))),
     XorSlice(v[5], XorSlice(Sum02(v[3]), Sum02(v[7]))),
     XorSlice(v[6], Sum02(v[4])), XorSlice(v[7], Sum02(v[5]))]
  }

  lemma SumsAt(x: Slice, k: nat)
    requires k < 16
    ensures Sum01(x)[k] == (x[k] != x[Below(k, 1)])
    ensures Sum123(x)[k] == ((x[Below(k, 1)] != x[Below(k, 2)]) != x[Below(k, 3)])
    ensures Sum02(x)[k] == (x[k] != x[Below(k, 2)])
  {
    hide Rot, Below;
    BelowBelow(k, 1, 1);
    RotAt(x, 1, k); RotAt(x, 2, k); RotAt(x, 3, k);
    RotAt(x, 1, Below(k, 1));
    RotAt(Sum01(x), 1, k);
  }

  lemma MixedLanes(v: seq<Slice>)
    requires |v| == 8
    ensures LanesOf(MixSlices(v)) == MixAll(LanesOf(v))
  {
    hide MixByte, MixSlices, Below;
    forall k | 0 <= k < 16 ensures LanesOf(MixSlices(v))[k] == MixAt(LanesOf(v), k) {
      MixedLane(v, k);
    }
  }

  lemma XorSliceAt(k: nat)
    requires k < 16
    ensures forall x, y: Slice :: XorSlice(x, y)[k] == (x[k] != y[k])
  {
  }

  function Sums01(v: seq<Slice>): (r: seq<Slice>) {
    seq(|v|, j requires 0 <= j < |v| => Sum01(v[j]))
  }

  function Sums123(v: seq<Slice>): (r: seq<Slice>) {
    seq(|v|, j requires 0 <= j < |v| => Sum123(v[j]))
  }

  function Sums02(v: seq<Slice>): (r: seq<Slice>) {
    seq(|v|, j requires 0 <= j < |v| => Sum02(v[j]))
  }

  lemma MixedLane(v: seq<Slice>, k: nat)
    requires |v| == 8 && k < 16
    ensures LanesOf(MixSlices(v))[k] == MixAt(LanesOf(v), k)
  {
    hide MixByte, Below, Sum01, Sum123, XorSlice, Xor;
    XorSliceAt(k);
    var s := LanesOf(v);
    var a, b, c, d := s[k], s[Below(k, 1)], s[Below(k, 2)], s[Below(k, 3)];
    assert LanesOf(MixSlices(v))[k] == MixGates(LanesOf(Sums01(v))[k], LanesOf(Sums123(v))[k]);
    SumLanes(v, k);
    MixGatesIsMixByte(a, b, c, d);
  }

  lemma LaneBit(v: seq<Slice>, k: nat, j: nat)
    requires |v| == 8 && k < 16 && j < 8
    ensures BitAt(LanesOf(v)[k], j) == v[j][k]
  {
  }

  lemma SumLanes(v: seq<Slice>, k: nat)
    requires |v| == 8 && k < 16
    ensures var s := LanesOf(v); var a, b, c, d := s[k], s[Below(k, 1)], s[Below(k, 2)], s[Below(k, 3)];
      && LanesOf(Sums01(v))[k] == Xor(a, b)
      && LanesOf(Sums123(v))[k] == Xor(Xor(b, c), d)
      && LanesOf(Sums02(v))[k] == Xor(a, c)
  {
    hide BitAt, LanesOf, Xor, Below, Sum01, Sum123, Sum02;
    var s := LanesOf(v);
    var a, b, c, d := s[k], s[Below(k, 1)], s[Below(k, 2)], s[Below(k, 3)];
    forall j: nat | j < 8
      ensures BitAt(LanesOf(Sums01(v))[k], j) == BitAt(Xor(a, b), j)
      ensures BitAt(LanesOf(Sums123(v))[k], j) == BitAt(Xor(Xor(b, c), d), j)
      ensures BitAt(LanesOf(Sums02(v))[k], j) == BitAt(Xor(a, c), j)
    {
      LaneBit(v, k, j); LaneBit(v, Below(k, 1), j); LaneBit(v, Below(k, 2), j); LaneBit(v, Below(k, 3), j);
      LaneBit(Sums01(v), k, j); LaneBit(Sums123(v), k, j); LaneBit(Sums02(v), k, j);
      SumsAt(v[j], k);
      XorAt();
    }
    SameBits(LanesOf(Sums01(v))[k], Xor(a, b));
    SameBits(LanesOf(Sums123(v))[k], Xor(Xor(b, c), d));
    SameBits(LanesOf(Sums02(v))[k], Xor(a, c));
  }

  /** What the update of the inverse direction does to the state. */
  function FixAll(s: State): (r: State) {
    seq(16, k requires 0 <= k < 16 => FixGates(s[k], Xor(s[k], s[Below(k, 2)])))
  }

  lemma FixedLanes(v: seq<Slice>)
    requires |v| == 8
    ensures LanesOf(FixSlices(v)) == FixAll(LanesOf(v))
  {
    hide FixSlices, FixGates, Below;
    forall k | 0 <= k < 16 ensures LanesOf(FixSlices(v))[k] == FixAll(LanesOf(v))[k] {
      FixedLane(v, k);
    }
  }

  lemma FixedLane(v: seq<Slice>, k: nat)
    requires |v| == 8 && k < 16
    ensures LanesOf(FixSlices(v))[k] == FixAll(LanesOf(v))[k]
  {
    hide Below, Sum02, XorSlice, Xor;
    XorSliceAt(k);
    assert LanesOf(FixSlices(v))[k] == FixGates(LanesOf(v)[k], LanesOf(Sums02(v))[k]);
    SumLanes(v, k);
  }

  lemma MixThenFix(s: State)
    ensures FixAll(MixAll(s)) == InvMixAll(s)
  {
    hide MixAt, InvMixAt, FixGates, Below;
    forall k | 0 <= k < 16 ensures FixAll(MixAll(s))[k] == InvMixAt(s, k) {
      MixThenFixAt(s, k);
    }
  }

  lemma MixThenFixAt(s: State, k: nat)
    requires k < 16
    ensures FixGates(MixAt(s, k), Xor(MixAt(s, k), MixAt(s, Below(k, 2)))) == InvMixAt(s, k)
  {
    hide MixByte, InvMixByte, FixGates, Below;
    BelowBelow(k, 2, 1); BelowBelow(k, 2, 2); BelowBelow(k, 2, 3);
    FixGatesIsInvMixByte(s[k], s[Below(k, 1)], s[Below(k, 2)], s[Below(k, 3)]);
  }
}
