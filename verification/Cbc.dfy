/** Cipher block chaining with padding, src/crypto/aes.cpp, over the AES of src/crypto/ctaes.
    The mode is that of section 6.2 of NIST SP 800-38A, the padding that of section 6.3 of RFC 5652. */
module Cbc {
  import opened ByteTypes
  import opened Aes

  // ---------------------------------------------------------------- the mode

  function XorByte(a: byte, b: byte): (r: byte) {
    a ^ b
  }

  /** a with its first |b| bytes exclusive-ored with b. */
  function XorBlock(a: Block, b: seq<byte>): (r: Block)
    requires |b| <= 16
  {
    seq(16, i requires 0 <= i < 16 => if i < |b| then XorByte(a[i], b[i]) else a[i])
  }

  predicate Whole(s: seq<byte>) {
    |s| % 16 == 0
  }

  /** C_j = enc(P_j + C_(j-1)). */
  function Chain(enc: Block -> Block, prev: Block, p: seq<byte>): (c: seq<byte>)
    requires Whole(p)
    ensures |c| == |p|
    decreases |p|
  {
    if p == [] then []
    else var c := enc(XorBlock(prev, p[..16])); c + Chain(enc, c, p[16..])
  }

  /** P_j = dec(C_j) + C_(j-1). */
  function Unchain(dec: Block -> Block, prev: Block, c: seq<byte>): (p: seq<byte>)
    requires Whole(c)
    ensures |p| == |c|
    decreases |c|
  {
    if c == [] then []
    else XorBlock(dec(c[..16]), prev) + Unchain(dec, c[..16], c[16..])
  }

  function PadSize(n: nat): (k: nat)
    ensures 1 <= k <= 16 && (n + k) % 16 == 0
  {
    16 - n % 16
  }

  /** The byte of value k. */
  function PadByte(k: nat): (b: byte)
    requires k <= 16
    ensures b as nat == k
  {
    k as byte
  }

  /** The message followed by k bytes of value k, between 1 and 16 of them, up to a whole block. */
  function Pad(m: seq<byte>): (p: seq<byte>)
    ensures Whole(p) && |p| > |m|
  {
    m + seq(PadSize(|m|), i => PadByte(PadSize(|m|)))
  }

  predicate WellPadded(p: seq<byte>, k: nat) {
    1 <= k <= 16 && k <= |p| && forall i | |p| - k <= i < |p| :: p[i] == PadByte(k)
  }

  ghost predicate Inverse(enc: Block -> Block, dec: Block -> Block) {
    forall b: Block :: dec(enc(b)) == b
  }

  lemma XorTwice(a: Block, b: Block)
    ensures XorBlock(XorBlock(a, b), a) == b
  {
    hide XorByte;
    forall i | 0 <= i < 16 ensures XorBlock(XorBlock(a, b), a)[i] == b[i] {
      ByteXorTwice(a[i], b[i]);
    }
  }

  /** Bit by bit, the exclusive or. */
  lemma XorByteAt(a: byte, b: byte, i: nat)
    requires i < 8
    ensures BitOf(XorByte(a, b), i) <==> BitOf(a, i) != BitOf(b, i)
  {
    hide Weight;
    OneBit(i);
    XorBit(a, b, Weight(i));
  }

  lemma OneBit(i: nat)
    requires i < 8
    ensures Weight(i) in {1, 2, 4, 8, 16, 32, 64, 128}
  {
  }

  lemma XorBit(a: byte, b: byte, w: byte)
    requires w in {1, 2, 4, 8, 16, 32, 64, 128}
    ensures (a ^ b) & w != 0 <==> (a & w != 0) != (b & w != 0)
  {
  }

  lemma ByteXorTwice(a: byte, b: byte)
    ensures XorByte(XorByte(a, b), a) == b
  {
  }

  lemma {:induction false} UnchainUndoesChain(enc: Block -> Block, dec: Block -> Block, prev: Block, p: seq<byte>)
    requires Inverse(enc, dec) && Whole(p)
    ensures Unchain(dec, prev, Chain(enc, prev, p)) == p
    decreases |p|
  {
    if p != [] {
      var x := XorBlock(prev, p[..16]);
      var c := enc(x);
      var all := Chain(enc, prev, p);
      assert all[..16] == c && all[16..] == Chain(enc, c, p[16..]);
      assert dec(c) == x;
      XorTwice(prev, p[..16]);
      UnchainUndoesChain(enc, dec, c, p[16..]);
    }
  }

  /** The padding is read off without ambiguity: the last byte tells how much there is. */
  lemma PaddingIsUnique(p: seq<byte>, k: nat)
    requires Whole(p) && WellPadded(p, k)
    ensures Pad(p[..|p| - k]) == p && p[|p| - 1] as nat == k
  {
    hide PadByte;
    assert p[|p| - 1] == PadByte(k);
    SamePadSize(|p|, k);
  }

  lemma SamePadSize(n: nat, k: nat)
    requires n % 16 == 0 && 1 <= k <= 16 && k <= n
    ensures PadSize(n - k) == k
  {
  }

  lemma PadIsWellPadded(m: seq<byte>)
    ensures WellPadded(Pad(m), PadSize(|m|)) && Pad(m)[..|m|] == m
  {
    hide PadByte;
  }

  /** What CBCEncrypt writes; nothing for an empty message, and nothing without padding unless the
      message is made of whole blocks. */
  function Encrypted(enc: Block -> Block, iv: Block, m: seq<byte>, pad: bool): (r: seq<byte>) {
    if m == [] || (!pad && !Whole(m)) then [] else Chain(enc, iv, if pad then Pad(m) else m)
  }

  /** Block j of the ciphertext: the cipher of block j of the text plus the ciphertext before it. */
  lemma {:induction false} ChainAt(enc: Block -> Block, iv: Block, p: seq<byte>, j: nat)
    requires Whole(p) && 16 * j + 16 <= |p|
    ensures var c, k := Chain(enc, iv, p), 16 * j;
      c[k..k + 16] == enc(XorBlock(if j == 0 then iv else c[k - 16..k], p[k..k + 16]))
    decreases j
  {
    hide XorBlock, Chain;
    var first: Block, k := enc(XorBlock(iv, p[..16])), 16 * j;
    ChainFirst(enc, iv, p);
    var rest := Chain(enc, first, p[16..]);
    if j == 0 {
      assert (first + rest)[0..16] == first && p[0..16] == p[..16];
    } else {
      ChainAt(enc, first, p[16..], j - 1);
      TailSlice(p[..16], p[16..], k);
      assert p == p[..16] + p[16..];
      TailSlice(first, rest, k);
      if j > 1 {
        TailSlice(first, rest, k - 16);
      } else {
        assert (first + rest)[0..16] == first;
      }
    }
  }

  lemma ChainFirst(enc: Block -> Block, prev: Block, p: seq<byte>)
    requires Whole(p) && |p| >= 16
    ensures var c := enc(XorBlock(prev, p[..16])); Chain(enc, prev, p) == c + Chain(enc, c, p[16..])
  {
    hide XorBlock;
  }

  lemma TailSlice(a: seq<byte>, b: seq<byte>, k: nat)
    requires |a| == 16 <= k && k <= |b|
    ensures (a + b)[k..k + 16] == b[k - 16..k]
  {
  }

  /** Under an initial vector of zeroes the first block is enciphered as it is. */
  lemma ZeroVector(iv: Block, b: Block)
    requires forall i | 0 <= i < 16 :: iv[i] == 0
    ensures XorBlock(iv, b) == b
  {
    hide XorByte;
    forall i | 0 <= i < 16 ensures XorBlock(iv, b)[i] == b[i] {
      XorNull(b[i]);
    }
  }

  lemma XorNull(b: byte)
    ensures XorByte(0, b) == b
  {
  }

  /** What CBCDecrypt leaves in front of the output; nothing if the padding is malformed. */
  function Decrypted(dec: Block -> Block, iv: Block, c: seq<byte>, pad: bool): (m: seq<byte>) {
    if c == [] || !Whole(c) then [] else Trimmed(Unchain(dec, iv, c), pad)
  }

  /** What is left of the last loop's output. */
  function Trimmed(p: seq<byte>, pad: bool): (m: seq<byte>)
    requires p != []
  {
    var k := p[|p| - 1] as nat;
    if !pad then p else if WellPadded(p, k) then p[..|p| - k] else []
  }

  /** The chain as the decrypting loop goes through it. Where the output lies over the input, the
      block that is mixed into the next one has been overwritten by its own plaintext. */
  function Back(dec: Block -> Block, prev: Block, c: seq<byte>, inPlace: bool): (p: seq<byte>)
    requires Whole(c)
    ensures |p| == |c|
    decreases |c|
  {
    if c == [] then []
    else
      var p := XorBlock(dec(c[..16]), prev);
      p + Back(dec, if inPlace then p else c[..16], c[16..], inPlace)
  }

  lemma {:induction false} BackApart(dec: Block -> Block, prev: Block, c: seq<byte>)
    requires Whole(c)
    ensures Back(dec, prev, c, false) == Unchain(dec, prev, c)
    decreases |c|
  {
    if c != [] {
      BackApart(dec, c[..16], c[16..]);
    }
  }

  /** Decrypting in place is right exactly when every block but the last is its own plaintext. */
  lemma {:induction false} InPlaceIff(dec: Block -> Block, prev: Block, c: seq<byte>)
    requires Whole(c) && c != []
    ensures var p := Unchain(dec, prev, c);
      Back(dec, prev, c, true) == p <==> p[..|p| - 16] == c[..|c| - 16]
    decreases |c|
  {
    hide XorBlock;
    var first := XorBlock(dec(c[..16]), prev);
    var p, over := Unchain(dec, prev, c), Back(dec, prev, c, true);
    if |c| > 16 {
      var rest := c[16..];
      assert p[..16] == first == over[..16] && p[16..] == Unchain(dec, c[..16], rest) &&
        over[16..] == Back(dec, first, rest, true);
      assert over == over[..16] + over[16..] && p == p[..16] + p[16..];
      assert p[..|p| - 16] == first + p[16..][..|rest| - 16] && c[..|c| - 16] == c[..16] + rest[..|rest| - 16];
      if first == c[..16] {
        InPlaceIff(dec, first, rest);
      } else {
        FirstBlocks(dec, first, c[..16], rest);
        assert p[..|p| - 16][..16] == first && c[..|c| - 16][..16] == c[..16];
      }
    }
  }

  /** Chains that start from different blocks differ. */
  lemma FirstBlocks(dec: Block -> Block, a: Block, b: Block, c: seq<byte>)
    requires Whole(c) && c != [] && a != b
    ensures Back(dec, a, c, true) != Unchain(dec, b, c)
  {
    var x := dec(c[..16]);
    assert Back(dec, a, c, true)[..16] == XorBlock(x, a) && Unchain(dec, b, c)[..16] == XorBlock(x, b);
    if XorBlock(x, a) == XorBlock(x, b) {
      XorTwice(x, a);
      XorTwice(x, b);
    }
  }

  /** Decryption undoes encryption: with padding for every non-empty message, without for every
      one made of whole blocks; exactly the message comes back. */
  lemma DecryptedUndoesEncrypted(enc: Block -> Block, dec: Block -> Block, iv: Block, m: seq<byte>, pad: bool)
    requires Inverse(enc, dec)
    requires m != [] && (pad || Whole(m))
    ensures Decrypted(dec, iv, Encrypted(enc, iv, m, pad), pad) == m
  {
    hide PadByte;
    var p := if pad then Pad(m) else m;
    UnchainUndoesChain(enc, dec, iv, p);
    PadIsWellPadded(m);
  }

  /** Padding is removed exactly when it is some message's padding, and then only that message is
      left; otherwise nothing is. */
  lemma PaddingChecked(dec: Block -> Block, iv: Block, c: seq<byte>)
    requires c != [] && Whole(c)
    ensures var p, r := Unchain(dec, iv, c), Decrypted(dec, iv, c, true);
      if exists m :: Pad(m) == p then Pad(r) == p else r == []
  {
    hide PadByte, Unchain, Pad;
    var p := Unchain(dec, iv, c);
    var k := p[|p| - 1] as nat;
    if WellPadded(p, k) {
      PaddingIsUnique(p, k);
    }
    if m :| Pad(m) == p {
      PadIsWellPadded(m);
      assert p[|p| - 1] == PadByte(PadSize(|m|));
    }
  }

  // ---------------------------------------------------------------- the code

  /** The block cipher the mode is used with. */
  ghost function Enc(keys: seq<State>, nrounds: nat): (r: Block -> Block)
    requires 1 <= nrounds < |keys|
  {
    b => EncryptBlock(keys, nrounds, b)
  }

  ghost function Dec(keys: seq<State>, nrounds: nat): (r: Block -> Block)
    requires 1 <= nrounds < |keys|
  {
    b => DecryptBlock(keys, nrounds, b)
  }

  lemma AesIsInvertible(keys: seq<State>, nrounds: nat)
    requires 1 <= nrounds < |keys|
    ensures Inverse(Enc(keys, nrounds), Dec(keys, nrounds))
  {
    hide EncryptBlock, DecryptBlock;
    forall b: Block ensures Dec(keys, nrounds)(Enc(keys, nrounds)(b)) == b {
      DecryptUndoesEncrypt(keys, nrounds, b);
    }
  }

  lemma XorStep(a: Block, b: seq<byte>, i: nat)
    requires i < |b| <= 16
    ensures var x := XorBlock(a, b[..i]); x[i := XorByte(x[i], b[i])] == XorBlock(a, b[..i + 1])
  {
    hide XorByte;
  }

  /** With the AES of this repository, whatever the round keys. */
  lemma CbcRoundTrip(keys: seq<State>, nrounds: nat, iv: Block, m: seq<byte>, pad: bool)
    requires 1 <= nrounds < |keys|
    requires m != [] && (pad || Whole(m))
    ensures Decrypted(Dec(keys, nrounds), iv, Encrypted(Enc(keys, nrounds), iv, m, pad), pad) == m
  {
    hide Encrypted, Decrypted;
    AesIsInvertible(keys, nrounds);
    DecryptedUndoesEncrypted(Enc(keys, nrounds), Dec(keys, nrounds), iv, m, pad);
  }

  /** mixed[i] ^= data[from + i] for the first n bytes. */
  method XorInto(mixed: array<byte>, data: array<byte>, from: nat, n: nat)
    requires mixed.Length == 16 && n <= 16 && from + n <= data.Length && mixed != data
    modifies mixed
    ensures mixed[..] == XorBlock(old(mixed[..]), data[from..from + n])
  {
    hide XorByte, XorBlock;
    ghost var a, b := mixed[..], data[from..from + n];
    XorNothing(a);
    assert b[..0] == [] && b[..n] == b;
    for i := 0 to n
      invariant mixed[..] == XorBlock(a, b[..i])
    {
      XorStep(a, b, i);
      mixed[i] := XorByte(mixed[i], data[from + i]);
    }
  }

  lemma XorNothing(a: Block)
    ensures XorBlock(a, []) == a
  {
  }

  /** mixed[i] ^= 16 - padsize for the last 16 - padsize bytes. */
  method XorPadding(mixed: array<byte>, padsize: nat, ghost tail: seq<byte>, ghost prev: Block)
    requires mixed.Length == 16 && padsize < 16
    requires |tail| == padsize && mixed[..] == XorBlock(prev, tail)
    modifies mixed
    ensures mixed[..] == XorBlock(prev, Pad(tail))
  {
    hide XorByte, XorBlock, PadByte;
    ghost var b := Pad(tail);
    assert |b| == 16 && b[..padsize] == tail && b[..16] == b;
    for i := padsize to 16
      invariant mixed[..] == XorBlock(prev, b[..i])
    {
      XorStep(prev, b, i);
      mixed[i] := XorByte(mixed[i], PadByte(16 - padsize));
    }
  }

  /** One block more: what is out so far, followed by the chain over what is left, stays the same. */
  lemma ChainStep(enc: Block -> Block, prev: Block, done: seq<byte>, rest: seq<byte>)
    requires Whole(rest) && |rest| >= 16
    ensures var c := enc(XorBlock(prev, rest[..16]));
      done + Chain(enc, prev, rest) == (done + c) + Chain(enc, c, rest[16..])
  {
  }

  /** One round of the loop: mix a block of data in, encrypt, and keep the result for the next. */
  method EncryptNext(rounds: seq<AesState>, nrounds: nat, mixed: array<byte>, data: array<byte>, out: array<byte>,
      written: nat)
    requires 1 <= nrounds < |rounds| && forall k | k in rounds :: k.Valid()
    requires mixed.Length == 16 && written + 16 <= data.Length && written + 16 <= out.Length
    requires mixed != data && mixed != out
    modifies mixed, out
    ensures mixed[..] == Enc(Keys(rounds), nrounds)(old(XorBlock(mixed[..], data[written..written + 16])))
    ensures out[..] == old(out[..written]) + mixed[..] + old(out[written + 16..])
    ensures data[written + 16..] == old(data[written + 16..])
    ensures Keys(rounds) == old(Keys(rounds))
  {
    hide EncryptBlock, XorBlock, Keys;
    ghost var keys, x := Keys(rounds), XorBlock(mixed[..], data[written..written + 16]);
    assert Enc(keys, nrounds)(x) == EncryptBlock(keys, nrounds, x);
    XorInto(mixed, data, written, 16);
    assert mixed[0..16] == mixed[..] == x;
    AesEncrypt(rounds, nrounds, out, written, mixed, 0);
    assert out[written..written + 16] == EncryptBlock(keys, nrounds, x);
    forall i | 0 <= i < 16 {
      mixed[i] := out[written + i];
    }
    assert mixed[..] == out[written..written + 16];
    assert data == out ==> data[written + 16..] == old(out[written + 16..]);
    assert data != out ==> data[..] == old(data[..]);
    assert data[written + 16..] == data[..][written + 16..];
  }

  lemma NextSlices(p: seq<byte>, d: seq<byte>, n: nat, size: nat)
    requires n + 16 <= size <= |p| && size <= |d| && d[n..size] == p[n..size]
    ensures p[n..][..16] == d[n..n + 16] && p[n..][16..] == p[n + 16..]
    ensures p[n + 16..size] == d[n + 16..][..size - n - 16]
  {
    assert p[n..][..16] == p[n..size][..16] == d[n..size][..16];
    assert p[n + 16..size] == p[n..size][16..] == d[n..size][16..];
  }

  /** All but the last block: what is out, and the chain over what is left, make up the whole chain. */
  method EncryptBlocks(rounds: seq<AesState>, nrounds: nat, mixed: array<byte>, data: array<byte>, size: nat,
      out: array<byte>, ghost p: seq<byte>)
      returns (written: nat)
    requires 1 <= nrounds < |rounds| && forall k | k in rounds :: k.Valid()
    requires mixed.Length == 16 && size <= data.Length && size <= out.Length
    requires mixed != data && mixed != out
    requires Whole(p) && size <= |p| && p[..size] == data[..size]
    modifies mixed, out
    ensures written <= size && data[written..size] == p[written..size]
    ensures written % 16 == 0 && written <= size < written + 16
    ensures var enc := Enc(Keys(rounds), nrounds);
      out[..written] + Chain(enc, mixed[..], p[written..]) == Chain(enc, old(mixed[..]), p)
    ensures out[written..] == old(out[written..])
    ensures Keys(rounds) == old(Keys(rounds))
  {
    hide Enc, XorBlock, Chain, Keys;
    written := 0;
    ghost var keys, iv := Keys(rounds), mixed[..];
    ghost var enc := Enc(keys, nrounds);
    while written + 16 <= size
      invariant written % 16 == 0 && written <= size && data[written..size] == p[written..size]
      invariant out[..written] + Chain(enc, mixed[..], p[written..]) == Chain(enc, iv, p)
      invariant out[written..] == old(out[written..])
      invariant Keys(rounds) == keys
      decreases size - written
    {
      ChainStep(enc, mixed[..], out[..written], p[written..]);
      NextSlices(p, data[..], written, size);
      ghost var tail := data[written + 16..];
      assert data[..][written..written + 16] == data[written..written + 16] && data[..][written + 16..] == tail;
      EncryptNext(rounds, nrounds, mixed, data, out, written);
      assert data[written + 16..size] == data[written + 16..][..size - written - 16];
      written := written + 16;
    }
  }

  method CbcEncrypt(rounds: seq<AesState>, nrounds: nat, iv: Block, data: array?<byte>, size: nat, pad: bool,
      out: array?<byte>)
      returns (written: nat)
    requires 1 <= nrounds < |rounds| && forall k | k in rounds :: k.Valid()
    requires data != null ==> size <= data.Length
    requires out != null ==> size + (if pad then PadSize(size) else 0) <= out.Length
    modifies out
    ensures data == null || out == null ==> written == 0
    ensures data != null && out != null ==>
      var c := Encrypted(Enc(Keys(rounds), nrounds), iv, old(data[..size]), pad);
      written == |c| && out[..] == c + old(out[|c|..])
  {
    hide Enc, XorBlock, Chain, Pad, Keys;
    written := 0;
    var padsize := size % 16;
    if data == null || size == 0 || out == null {
      return 0;
    }
    if !pad && padsize != 0 {
      return 0;
    }
    ghost var m, o := data[..size], out[..];
    ghost var p := if pad then Pad(m) else m;
    ghost var enc := Enc(Keys(rounds), nrounds);
    PadIs(m);
    var mixed := new byte[16](i requires 0 <= i < 16 => iv[i]);
    assert mixed[..] == iv;
    written := EncryptBlocks(rounds, nrounds, mixed, data, size, out, p);
    Rejoined(out[..], o, written, Chain(enc, mixed[..], p[written..]), Chain(enc, iv, p));
    if pad {
      PadRest(m, data[written..size], written);
      EncryptPadded(rounds, nrounds, mixed, data, out, written, size);
      written := written + 16;
    }
  }

  lemma Rejoined(b: seq<byte>, o: seq<byte>, n: nat, end: seq<byte>, c: seq<byte>)
    requires n + |end| <= |b| == |o| && b[n..] == o[n..] && b[..n] + end == c
    ensures b[..n] + end + b[n + |end|..] == c + o[|c|..]
    ensures end == [] ==> b == c + o[|c|..]
  {
    assert b[n..][|end|..] == b[n + |end|..] && o[n..][|end|..] == o[n + |end|..];
    assert b == b[..n] + b[n..];
  }

  /** The last block of a padded message: what remains, and the value of the missing space in it. */
  method EncryptPadded(rounds: seq<AesState>, nrounds: nat, mixed: array<byte>, data: array<byte>, out: array<byte>,
      written: nat, size: nat)
    requires 1 <= nrounds < |rounds| && forall k | k in rounds :: k.Valid()
    requires mixed.Length == 16 && written <= size < written + 16 && size <= data.Length && written + 16 <= out.Length
    requires mixed != data && mixed != out
    modifies mixed, out
    ensures out[..] == old(out[..written]) +
      Chain(Enc(Keys(rounds), nrounds), old(mixed[..]), Pad(old(data[written..size]))) + old(out[written + 16..])
    ensures Keys(rounds) == old(Keys(rounds))
  {
    hide EncryptBlock, XorBlock, Keys, Pad;
    ghost var prev, tail := mixed[..], data[written..size];
    PadIs(tail);
    ghost var keys, x := Keys(rounds), XorBlock(prev, Pad(tail));
    assert Enc(keys, nrounds)(x) == EncryptBlock(keys, nrounds, x);
    XorInto(mixed, data, written, size - written);
    XorPadding(mixed, size - written, tail, prev);
    assert mixed[0..16] == mixed[..] && Pad(tail)[..16] == Pad(tail);
    AesEncrypt(rounds, nrounds, out, written, mixed, 0);
  }

  lemma PadIs(m: seq<byte>)
    ensures |Pad(m)| == |m| + PadSize(|m|) && Pad(m)[..|m|] == m
  {
  }

  lemma PadRest(m: seq<byte>, d: seq<byte>, n: nat)
    requires n <= |m| <= |Pad(m)| && n % 16 == 0 && d == Pad(m)[n..|m|]
    ensures Pad(d) == Pad(m)[n..]
  {
    hide Pad;
    PadIs(m);
    assert Pad(m)[n..|m|] == Pad(m)[..|m|][n..] == m[n..];
    PadTail(m, n);
  }

  lemma PadTail(m: seq<byte>, n: nat)
    requires n <= |m| && n % 16 == 0
    ensures Pad(m)[n..] == Pad(m[n..])
  {
    SameTail(|m|, n);
  }

  lemma SameTail(size: nat, n: nat)
    requires n <= size && n % 16 == 0
    ensures PadSize(size - n) == PadSize(size)
  {
  }

  lemma BackStep(dec: Block -> Block, prev: Block, done: seq<byte>, rest: seq<byte>, inPlace: bool)
    requires Whole(rest) && |rest| >= 16
    ensures var p := XorBlock(dec(rest[..16]), prev);
      done + Back(dec, prev, rest, inPlace) ==
        (done + p) + Back(dec, if inPlace then p else rest[..16], rest[16..], inPlace)
  {
  }

  /** One round of the loop: decrypt a block into place and mix the block before it in. */
  method DecryptNext(rounds: seq<AesState>, nrounds: nat, prev: Block, data: array<byte>, out: array<byte>,
      written: nat)
    requires 1 <= nrounds < |rounds| && forall k | k in rounds :: k.Valid()
    requires written + 16 <= data.Length && written + 16 <= out.Length
    modifies out
    ensures out[..] == old(out[..written]) +
      XorBlock(Dec(Keys(rounds), nrounds)(old(data[written..written + 16])), prev) + old(out[written + 16..])
    ensures Keys(rounds) == old(Keys(rounds))
  {
    hide DecryptBlock, XorBlock, Keys, XorByte;
    ghost var keys, c := Keys(rounds), data[written..written + 16];
    ghost var x := DecryptBlock(keys, nrounds, c);
    assert Dec(keys, nrounds)(c) == x;
    AesDecrypt(rounds, nrounds, out, written, data, written);
    XorNothing(x);
    assert prev[..0] == [] && prev[..16] == prev;
    for i := 0 to 16
      invariant out[..] == old(out[..written]) + XorBlock(x, prev[..i]) + old(out[written + 16..])
      invariant Keys(rounds) == keys
    {
      XorStep(x, prev, i);
      assert out[written + i] == XorBlock(x, prev[..i])[i];
      out[written + i] := XorByte(out[written + i], prev[i]);
    }
  }

  /** Every block, one after the other; `prev` is read where the ciphertext was. */
  method DecryptBlocks(rounds: seq<AesState>, nrounds: nat, iv: Block, data: array<byte>, size: nat, out: array<byte>)
    requires 1 <= nrounds < |rounds| && forall k | k in rounds :: k.Valid()
    requires size % 16 == 0 && size <= data.Length && size <= out.Length
    modifies out
    ensures out[..size] == Back(Dec(Keys(rounds), nrounds), iv, old(data[..size]), data == out)
    ensures out[size..] == old(out[size..])
    ensures Keys(rounds) == old(Keys(rounds))
  {
    hide Dec, XorBlock, Back, Keys;
    var written, prev: Block := 0, iv;
    ghost var keys, c := Keys(rounds), data[..size];
    ghost var dec := Dec(keys, nrounds);
    ghost var p := Back(dec, iv, c, data == out);
    while written != size
      invariant written % 16 == 0 && written <= size && data[written..size] == c[written..]
      invariant out[..written] + Back(dec, prev, c[written..], data == out) == p
      invariant out[size..] == old(out[size..])
      invariant Keys(rounds) == keys
      decreases size - written
    {
      BackStep(dec, prev, out[..written], c[written..], data == out);
      ghost var was, o := data[..], out[..];
      assert c[written..][..16] == data[written..size][..16] == data[written..written + 16];
      assert c[written..][16..] == c[written + 16..] == data[written..size][16..] == was[written + 16..size];
      DecryptNext(rounds, nrounds, prev, data, out, written);
      if data == out {
        SuffixKept(o, out[..], written, size);
      } else {
        assert data[..] == was;
      }
      assert data[written + 16..size] == was[written + 16..size];
      prev := data[written..written + 16];
      written := written + 16;
    }
  }

  lemma SuffixKept(o: seq<byte>, b: seq<byte>, k: nat, size: nat)
    requires k + 16 <= size <= |o| == |b| && b[k + 16..] == o[k + 16..]
    ensures b[k + 16..size] == o[k + 16..size]
  {
    assert forall i | k + 16 <= i < size :: b[i] == b[k + 16..][i - k - 16] == o[k + 16..][i - k - 16] == o[i];
  }

  method CbcDecrypt(rounds: seq<AesState>, nrounds: nat, iv: Block, data: array?<byte>, size: nat, pad: bool,
      out: array?<byte>)
      returns (r: nat)
    requires 1 <= nrounds < |rounds| && forall k | k in rounds :: k.Valid()
    requires data != null ==> size <= data.Length
    requires out != null ==> size <= out.Length
    modifies out
    ensures data == null || out == null ==> r == 0
    ensures data != null && out != null ==>
      var dec, c := Dec(Keys(rounds), nrounds), old(data[..size]);
      var m := if c == [] || !Whole(c) then [] else Trimmed(Back(dec, iv, c, data == out), pad);
      && r == |m| && out[..r] == m && out[size..] == old(out[size..])
      && (data != out ==> m == Decrypted(dec, iv, c, pad))
  {
    hide Dec, XorBlock, Unchain, Back, Keys, PadByte;
    if data == null || size == 0 || out == null {
      return 0;
    }
    if size % 16 != 0 {
      return 0;
    }
    BackApart(Dec(Keys(rounds), nrounds), iv, data[..size]);
    DecryptBlocks(rounds, nrounds, iv, data, size, out);
    r := size;
    if pad {
      r := RemovePadding(out, size);
    }
  }

  /** The check of the padding: every one of the last sixteen bytes is looked at. */
  method RemovePadding(out: array<byte>, size: nat) returns (r: nat)
    requires 16 <= size <= out.Length
    ensures var p := out[..size]; var k := p[size - 1] as nat;
      r == if WellPadded(p, k) then size - k else 0
  {
    hide PadByte;
    var last := size - 1;
    ghost var value := out[last];
    var padsize := out[last];
    var fail := padsize == 0 || padsize > 16;
    ghost var bad := fail;
    SmallByte(padsize);
    padsize := if fail then 0 else padsize;
    var n := padsize as nat;
    for i := 16 downto 0
      invariant last == size - 1 - (16 - i)
      invariant !fail <==> !bad && forall j | last < j < size && j >= size - n :: out[j] == padsize
    {
      fail := fail || (i + 1 > 16 - n && out[last] != padsize);
      last := last - 1;
    }
    r := if fail then 0 else size - n;
  }

  lemma SmallByte(b: byte)
    ensures (b == 0 || b > 16) <==> !(1 <= b as nat <= 16)
    ensures b as nat <= 16 ==> PadByte(b as nat) == b
  {
  }
}
