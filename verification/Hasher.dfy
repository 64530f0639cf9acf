/** CSHA256 of src/crypto/sha256.cpp: hashing a message that arrives in pieces. */
module Hasher {
  import opened ByteTypes
  import opened Power
  import opened Radix
  import opened ShaSpec
  import opened ShaCode

  const WRAP := 0x1_0000_0000_0000_0000

  /** After the message w, the state words are r and the bytes t wait in the buffer. */
  ghost predicate Absorbed(w: seq<byte>, r: Regs, t: seq<byte>) {
    && |t| < 64 && |t| <= |w| && (|w| - |t|) % 64 == 0
    && w[|w| - |t|..] == t
    && r == CompressAll(INITIAL, w[..|w| - |t|])
  }

  /** Whole blocks, the first of them begun by what waits in the buffer. */
  lemma AbsorbBlocks(w: seq<byte>, r: Regs, t: seq<byte>, d: seq<byte>)
    requires Absorbed(w, r, t) && (|t| + |d|) % 64 == 0
    ensures Absorbed(w + d, CompressAll(r, t + d), [])
  {
    hide CompressAll, INITIAL, Absorbed;
    AbsorbedParts(w, r, t);
    Rejoin(w, t, d);
    AbsorbWhole(w[..|w| - |t|], r, t + d);
  }

  lemma AbsorbedParts(w: seq<byte>, r: Regs, t: seq<byte>)
    requires Absorbed(w, r, t)
    ensures |t| <= |w| && (|w| - |t|) % 64 == 0 && w[|w| - |t|..] == t
    ensures r == CompressAll(INITIAL, w[..|w| - |t|])
  {
    hide CompressAll, INITIAL;
  }

  lemma Rejoin(w: seq<byte>, t: seq<byte>, d: seq<byte>)
    requires |t| <= |w| && w[|w| - |t|..] == t
    ensures w[..|w| - |t|] + (t + d) == w + d
  {
  }

  lemma AbsorbWhole(p: seq<byte>, r: Regs, b: seq<byte>)
    requires |p| % 64 == 0 && r == CompressAll(INITIAL, p) && |b| % 64 == 0
    ensures Absorbed(p + b, CompressAll(r, b), [])
  {
    hide CompressAll, INITIAL;
    WholeSum(|p|, |b|);
    CompressSplit(INITIAL, p, b);
    assert (p + b)[..|p + b|] == p + b;
  }

  lemma WholeSum(a: nat, b: nat)
    requires a % 64 == 0 && b % 64 == 0
    ensures (a + b) % 64 == 0
  {
  }

  /** What does not make a block stays in the buffer. */
  lemma AbsorbRest(w: seq<byte>, r: Regs, t: seq<byte>, d: seq<byte>)
    requires Absorbed(w, r, t) && |t| + |d| < 64
    ensures Absorbed(w + d, r, t + d)
  {
    hide CompressAll, INITIAL;
    assert (w + d)[..|w| - |t|] == w[..|w| - |t|];
  }

  /** The final padding makes the message whole blocks, so that the state is that of SHA-256. */
  lemma AbsorbedAll(m: seq<byte>, r: Regs)
    requires Absorbed(Padded(m), r, [])
    ensures BytesOf(r) == Sha256(m)
  {
    hide CompressAll, INITIAL, Padded, BytesOf;
    assert Padded(m)[..|Padded(m)|] == Padded(m);
  }

  /** The 64-bit byte count of n bytes. */
  ghost predicate Counted(bytes: nat, n: nat) {
    bytes == n % WRAP
  }

  lemma CountAdd(bytes: nat, n: nat, k: nat)
    requires Counted(bytes, n)
    ensures Counted(Advanced(bytes, k), n + k)
  {
  }

  /** The count wraps, but not its place within a block. */
  lemma CountPlace(bytes: nat, n: nat)
    requires Counted(bytes, n)
    ensures bytes % 64 == n % 64
  {
  }

  lemma Place(n: nat, k: nat)
    ensures n % 64 + k < 64 ==> (n + k) % 64 == n % 64 + k
    ensures (n % 64 + k) % 64 == 0 ==> (n + k) % 64 == 0
  {
  }

  lemma Count(bytes: nat, n: nat, k: nat)
    requires Counted(bytes, n)
    ensures Counted(Advanced(bytes, k), n + k) && bytes % 64 == n % 64
    ensures n % 64 + k < 64 ==> (n + k) % 64 == n % 64 + k
    ensures (n % 64 + k) % 64 == 0 ==> (n + k) % 64 == 0
  {
    hide Counted;
    CountAdd(bytes, n, k);
    CountPlace(bytes, n);
    Place(n, k);
  }

  /** The count after k bytes more. */
  function Advanced(bytes: nat, k: nat): (r: nat) {
    (bytes + k) % WRAP
  }

  lemma CountBlocks(bytes: nat, n: nat, blocks: nat)
    requires Counted(bytes, n) && bytes % 64 == 0
    ensures Counted(Advanced(bytes, 64 * blocks), n + 64 * blocks)
    ensures n % 64 == (n + 64 * blocks) % 64 == Advanced(bytes, 64 * blocks) % 64 == 0
    ensures 64 * blocks % 64 == 0
  {
    hide Counted, Advanced;
    CountPlace(bytes, n);
    CountAdd(bytes, n, 64 * blocks);
    CountPlace(Advanced(bytes, 64 * blocks), n + 64 * blocks);
    BlocksFit(n, blocks);
  }

  lemma CountFilled(bytes: nat, n: nat)
    requires Counted(bytes, n)
    ensures var k := 64 - bytes % 64;
      && Counted(Advanced(bytes, k), n + k) && bytes % 64 == n % 64
      && (n + k) % 64 == Advanced(bytes, k) % 64 == 0
  {
    hide Counted, Advanced;
    var k := 64 - bytes % 64;
    Count(bytes, n, k);
    CountPlace(Advanced(bytes, k), n + k);
  }

  lemma BlocksFit(n: nat, blocks: nat)
    requires n % 64 == 0
    ensures (n + 64 * blocks) % 64 == 64 * blocks % 64 == 0
  {
    DivModUnique(n / 64 + blocks, 0, 64);
    DivModUnique(blocks, 0, 64);
  }

  lemma LengthWraps(x: nat)
    ensures WriteBE64(x % WRAP) == WriteBE64(x)
  {
    hide ByteOf;
    var q, y := x / WRAP, x % WRAP;
    ByteWraps(x, y, q, 0x100_0000_0000_0000, 1);
    ByteWraps(x, y, q, 0x1_0000_0000_0000, 0x100);
    ByteWraps(x, y, q, 0x100_0000_0000, 0x1_0000);
    ByteWraps(x, y, q, 0x1_0000_0000, 0x100_0000);
    ByteWraps(x, y, q, 0x100_0000, 0x1_0000_0000);
    ByteWraps(x, y, q, 0x1_0000, 0x100_0000_0000);
    ByteWraps(x, y, q, 0x100, 0x1_0000_0000_0000);
    ByteWraps(x, y, q, 1, 0x100_0000_0000_0000);
  }

  /** The last n digits of x to the base 256. */
  ghost function LowDigits(x: nat, n: nat): (d: seq<nat>)
    ensures |d| == n && DigitsBelow(d, 256)
  {
    if n == 0 then [] else LowDigits(x / 256, n - 1) + [x % 256]
  }

  lemma {:induction false} LowDigitsVal(x: nat, n: nat)
    ensures Pow(256, n) > 0 && Val(LowDigits(x, n), 256) == x % Pow(256, n)
  {
    hide Val;
    if n == 0 {
      assert Val([], 256) == 0 by { NoDigits(); }
    } else {
      LowDigitsVal(x / 256, n - 1);
      ValSnoc(LowDigits(x / 256, n - 1), x % 256, 256);
      LowMod(x, Pow(256, n - 1));
    }
  }

  lemma NoDigits()
    ensures Val([], 256) == 0
  {
  }

  lemma LowMod(x: nat, p: nat)
    requires p > 0
    ensures x % (256 * p) == x / 256 % p * 256 + x % 256
  {
    var h, r := x / 256 / p, x / 256 % p;
    assert x == h * (256 * p) + (r * 256 + x % 256) by {
      assert x / 256 == h * p + r;
    }
    DivModUnique(h, r * 256 + x % 256, 256 * p);
  }

  /** The length is written as the last eight digits of x to the base 256, the highest first: read
      back, they give x modulo 2^64. */
  lemma LengthRead(x: nat)
    ensures var d := LowDigits(x, 8);
      Val(d, 256) == x % WRAP && WriteBE64(x) == seq(8, i requires 0 <= i < 8 => ByteOf(d[i]))
  {
    hide Val, ByteOf, Pow;
    LowDigitsVal(x, 8);
    WrapIs();
    EightDigits(x);
  }

  lemma WrapIs()
    ensures Pow(256, 8) == WRAP
  {
    assert Pow(256, 4) == 0x1_0000_0000;
    PowAdd(256, 4, 4);
  }

  lemma EightDigits(x: nat)
    ensures LowDigits(x, 8) == [
      x / 0x100_0000_0000_0000 % 256, x / 0x1_0000_0000_0000 % 256, x / 0x100_0000_0000 % 256,
      x / 0x1_0000_0000 % 256, x / 0x100_0000 % 256, x / 0x1_0000 % 256, x / 0x100 % 256, x % 256]
  {
    hide LowDigits;
    var x1, x2, x3, x4 := x / 0x100, x / 0x1_0000, x / 0x100_0000, x / 0x1_0000_0000;
    var x5, x6, x7 := x / 0x100_0000_0000, x / 0x1_0000_0000_0000, x / 0x100_0000_0000_0000;
    assert x1 / 256 == x2 && x2 / 256 == x3 && x3 / 256 == x4 && x4 / 256 == x5 && x5 / 256 == x6 && x6 / 256 == x7;
    OneDigit(x, 8); OneDigit(x1, 7); OneDigit(x2, 6); OneDigit(x3, 5);
    OneDigit(x4, 4); OneDigit(x5, 3); OneDigit(x6, 2); OneDigit(x7, 1);
  }

  lemma OneDigit(x: nat, n: nat)
    requires n > 0
    ensures LowDigits(x, n) == LowDigits(x / 256, n - 1) + [x % 256]
    ensures n == 1 ==> LowDigits(x, n) == [x % 256]
  {
  }

  /** A multiple of 2^64 leaves every byte as it is. */
  lemma ByteWraps(x: nat, y: nat, q: nat, a: nat, b: nat)
    requires x == WRAP * q + y && a > 0 && a * b == 0x100_0000_0000_0000
    ensures x / a % 256 == y / a % 256
  {
    var c := 256 * (b * q);
    assert x == a * c + y by {
      assert a * c == 256 * (a * b * q);
    }
    Quotient(y, a, c);
    Remainder(y / a, b * q);
  }

  lemma Quotient(y: nat, a: nat, c: nat)
    requires a > 0
    ensures (a * c + y) / a == c + y / a
  {
    DivModUnique(c + y / a, y % a, a);
    assert (c + y / a) * a + y % a == a * c + y;
  }

  lemma Remainder(z: nat, k: nat)
    ensures (256 * k + z) % 256 == z % 256
  {
  }

  /** The memcpy into the buffer. */
  method CopyInto(to: array<byte>, i: nat, from: array<byte>, j: nat, n: nat)
    requires i + n <= to.Length && j + n <= from.Length && to != from
    modifies to
    ensures to[..i + n] == old(to[..i]) + from[j..j + n]
  {
    forall k | i <= k < i + n {
      to[k] := from[j + k - i];
    }
  }

  class CSHA256 {
    const s: array<word>
    const buf: array<byte>
    var bytes: nat
    ghost var written: seq<byte>

    ghost predicate Valid()
      reads this, s, buf
    {
      && s.Length == 8 && buf.Length == 64
      && Counted(bytes, |written|)
      && Absorbed(written, RegsOf(s[..]), buf[..|written| % 64])
    }

    constructor ()
      ensures Valid() && written == []
      ensures fresh(s) && fresh(buf)
    {
      s := new word[8];
      buf := new byte[64];
      bytes := 0;
      written := [];
      new;
      Initialize(s);
    }

    method Reset()
      requires Valid()
      modifies this, s
      ensures Valid() && written == []
    {
      bytes := 0;
      written := [];
      Initialize(s);
    }

    /** The piece that makes the buffer a whole block. */
    method FillBuffer(data: array<byte>, at: nat)
      requires Valid() && at + (64 - bytes % 64) <= data.Length && data != buf
      modifies this, s, buf
      ensures Valid() && written == old(written + data[at..at + (64 - bytes % 64)])
      ensures bytes % 64 == 0
    {
      hide CompressAll, INITIAL, RegsOf, Absorbed, Counted, Advanced;
      var bufsize := bytes % 64;
      CountFilled(bytes, |written|);
      ghost var state, t, d := s[..], buf[..bufsize], data[at..at + (64 - bufsize)];
      AbsorbBlocks(written, RegsOf(s[..]), t, d);
      CopyInto(buf, bufsize, data, at, 64 - bufsize);
      assert buf[0..64] == t + d && s[..] == state;
      bytes := Advanced(bytes, 64 - bufsize);
      written := written + d;
      Transform(s, buf, 0, 1);
      assert buf[..0] == [];
      assert Absorbed(written, RegsOf(s[..]), []);
    }

    /** Whole blocks straight from the input. */
    method HashBlocks(data: array<byte>, at: nat, blocks: nat)
      requires Valid() && bytes % 64 == 0 && at + 64 * blocks <= data.Length && data != buf
      modifies this, s
      ensures Valid() && written == old(written + data[at..at + 64 * blocks])
      ensures bytes % 64 == 0
    {
      hide CompressAll, INITIAL, RegsOf, Absorbed, Counted, Advanced;
      ghost var d := data[at..at + 64 * blocks];
      CountBlocks(bytes, |written|, blocks);
      assert buf[..0] == [] && [] + d == d;
      AbsorbBlocks(written, RegsOf(s[..]), [], d);
      Transform(s, data, at, blocks);
      written := written + d;
      bytes := Advanced(bytes, 64 * blocks);
      assert |written| % 64 == 0;
      assert Absorbed(written, RegsOf(s[..]), []);
    }

    /** What is left after the last whole block waits in the buffer. */
    method KeepRest(data: array<byte>, at: nat, end: nat)
      requires Valid() && at <= end <= data.Length && bytes % 64 + (end - at) < 64 && data != buf
      modifies this, buf
      ensures Valid() && written == old(written + data[at..end])
    {
      hide CompressAll, INITIAL, RegsOf, Absorbed, Counted, Advanced;
      var bufsize := bytes % 64;
      Count(bytes, |written|, end - at);
      ghost var state, t, d := s[..], buf[..bufsize], data[at..end];
      AbsorbRest(written, RegsOf(s[..]), t, d);
      CopyInto(buf, bufsize, data, at, end - at);
      assert s[..] == state;
      bytes := Advanced(bytes, end - at);
      written := written + d;
      assert Counted(bytes, |written|);
      assert |written| % 64 == bufsize + (end - at);
      assert Absorbed(written, RegsOf(s[..]), t + d);
    }

    /** First the buffer is filled up, when the input reaches that far. */
    method FillFirst(data: array<byte>, from: nat, end: nat) returns (at: nat)
      requires Valid() && from <= end <= data.Length && data != buf
      modifies this, s, buf
      ensures Valid() && from <= at <= end && written == old(written + data[from..at])
      ensures bytes % 64 == 0 || bytes % 64 + (end - at) < 64
    {
      hide CSHA256.Valid;
      at := from;
      var bufsize := bytes % 64;
      if bufsize != 0 && bufsize + (end - from) >= 64 {
        FillBuffer(data, at);
        at := at + (64 - bufsize);
      }
    }

    /** Then whole blocks are taken, as many as there are. */
    method HashWhole(data: array<byte>, from: nat, end: nat) returns (at: nat)
      requires Valid() && from <= end <= data.Length && data != buf
      requires bytes % 64 == 0 || bytes % 64 + (end - from) < 64
      modifies this, s
      ensures Valid() && from <= at <= end && written == old(written + data[from..at])
      ensures bytes % 64 + (end - at) < 64
    {
      hide CSHA256.Valid;
      at := from;
      if end - from >= 64 {
        var blocks := (end - from) / 64;
        HashBlocks(data, at, blocks);
        at := at + 64 * blocks;
      }
    }

    /** However a message is cut into pieces, what counts is their concatenation. */
    method Write(data: array<byte>, from: nat, len: nat)
      requires Valid() && from + len <= data.Length && data != buf
      modifies this, s, buf
      ensures Valid() && written == old(written) + data[from..from + len]
    {
      hide CSHA256.Valid;
      ghost var w, d := written, data[..];
      var end := from + len;
      var at := FillFirst(data, from, end);
      ghost var first := at;
      assert data[..] == d && written == w + d[from..first];
      at := HashWhole(data, at, end);
      Glue(w, d, from, first, at);
      assert data[..] == d && written == w + d[from..at];
      if end > at {
        KeepRest(data, at, end);
        Glue(w, d, from, at, end);
      }
      assert data[..] == d;
    }

    /** Padding makes the message whole blocks, and the state words its hash. */
    method Finalize(hash: array<byte>, to: nat)
      requires Valid() && to + 32 <= hash.Length && hash != buf
      modifies this, s, buf, hash
      ensures Valid() && written == Padded(old(written))
      ensures hash[..] == old(hash[..to]) + Sha256(old(written)) + old(hash[to + 32..])
      ensures hash[to..to + 32] == Sha256(old(written))
    {
      hide CompressAll, INITIAL, RegsOf, Absorbed, Counted, WriteBE64, ZeroCount, BytesOf;
      ghost var m := written;
      var pad := new byte[64](i => if i == 0 then 0x80 else 0);
      var bits := WriteBE64(bytes * 8 % WRAP);
      var sizedesc := new byte[8](i requires 0 <= i < 8 => bits[i]);
      PadLength(bytes, |m|);
      assert sizedesc[0..8] == WriteBE64(8 * |m|);
      assert pad[0..1 + ZeroCount(|m|)] == [0x80] + Zeroes(ZeroCount(|m|));
      Write(pad, 0, 1 + (119 - bytes % 64) % 64);
      Write(sizedesc, 0, 8);
      assert written == Padded(m);
      assert buf[..0] == [];
      AbsorbedAll(m, RegsOf(s[..]));
      WriteRegs(hash, to, RegsOf(s[..]));
    }
  }

  lemma PadLength(bytes: nat, n: nat)
    requires Counted(bytes, n)
    ensures ZeroCount(n) == (119 - bytes % 64) % 64 && WriteBE64(bytes * 8 % WRAP) == WriteBE64(8 * n)
  {
    hide WriteBE64;
    CountPlace(bytes, n);
    LengthWraps(8 * n);
    EightTimes(bytes, n);
  }

  lemma EightTimes(bytes: nat, n: nat)
    requires Counted(bytes, n)
    ensures bytes * 8 % WRAP == 8 * n % WRAP
  {
  }
}
