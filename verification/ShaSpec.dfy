/** SHA-256 as FIPS 180-4 defines it. */
module ShaSpec {
  import opened ByteTypes

  // ---------------------------------------------------------------- sections 4.1.2 and 4.2.2

  function Choose(x: word, y: word, z: word): (r: word) {
    (x & y) ^ (!x & z)
  }

  function Majority(x: word, y: word, z: word): (r: word) {
    (x & y) ^ (x & z) ^ (y & z)
  }

  function Sigma0(x: word): (r: word) {
    ((x >> 2) | (x << 30)) ^ ((x >> 13) | (x << 19)) ^ ((x >> 22) | (x << 10))
  }

  function Sigma1(x: word): (r: word) {
    ((x >> 6) | (x << 26)) ^ ((x >> 11) | (x << 21)) ^ ((x >> 25) | (x << 7))
  }

  function SmallSigma0(x: word): (r: word) {
    ((x >> 7) | (x << 25)) ^ ((x >> 18) | (x << 14)) ^ (x >> 3)
  }

  function SmallSigma1(x: word): (r: word) {
    ((x >> 17) | (x << 15)) ^ ((x >> 19) | (x << 13)) ^ (x >> 10)
  }

  function K(t: nat): (r: word)
    requires t < 64
  {
    match t
    case 0 => 0x428a2f98 case 1 => 0x71374491 case 2 => 0xb5c0fbcf case 3 => 0xe9b5dba5
    case 4 => 0x3956c25b case 5 => 0x59f111f1 case 6 => 0x923f82a4 case 7 => 0xab1c5ed5
    case 8 => 0xd807aa98 case 9 => 0x12835b01 case 10 => 0x243185be case 11 => 0x550c7dc3
    case 12 => 0x72be5d74 case 13 => 0x80deb1fe case 14 => 0x9bdc06a7 case 15 => 0xc19bf174
    case 16 => 0xe49b69c1 case 17 => 0xefbe4786 case 18 => 0x0fc19dc6 case 19 => 0x240ca1cc
    case 20 => 0x2de92c6f case 21 => 0x4a7484aa case 22 => 0x5cb0a9dc case 23 => 0x76f988da
    case 24 => 0x983e5152 case 25 => 0xa831c66d case 26 => 0xb00327c8 case 27 => 0xbf597fc7
    case 28 => 0xc6e00bf3 case 29 => 0xd5a79147 case 30 => 0x06ca6351 case 31 => 0x14292967
    case 32 => 0x27b70a85 case 33 => 0x2e1b2138 case 34 => 0x4d2c6dfc case 35 => 0x53380d13
    case 36 => 0x650a7354 case 37 => 0x766a0abb case 38 => 0x81c2c92e case 39 => 0x92722c85
    case 40 => 0xa2bfe8a1 case 41 => 0xa81a664b case 42 => 0xc24b8b70 case 43 => 0xc76c51a3
    case 44 => 0xd192e819 case 45 => 0xd6990624 case 46 => 0xf40e3585 case 47 => 0x106aa070
    case 48 => 0x19a4c116 case 49 => 0x1e376c08 case 50 => 0x2748774c case 51 => 0x34b0bcb5
    case 52 => 0x391c0cb3 case 53 => 0x4ed8aa4a case 54 => 0x5b9cca4f case 55 => 0x682e6ff3
    case 56 => 0x748f82ee case 57 => 0x78a5636f case 58 => 0x84c87814 case 59 => 0x8cc70208
    case 60 => 0x90befffa case 61 => 0xa4506ceb case 62 => 0xbef9a3f7 case _ => 0xc67178f2
  }

  /** Addition modulo 2^32. */
  function Sum(x: word, y: word): (r: word) {
    x + y
  }

  function Sum3(x: word, y: word, z: word): (r: word) {
    x + y + z
  }

  function Sum4(x: word, y: word, z: word, w: word): (r: word) {
    x + y + z + w
  }

  // ---------------------------------------------------------------- section 6.2.2

  /** The working variables, and the hash value, H0 in a. */
  datatype Regs = Regs(a: word, b: word, c: word, d: word, e: word, f: word, g: word, h: word)

  const INITIAL := Regs(0x6a09e667, 0xbb67ae85, 0x3c6ef372, 0xa54ff53a, 0x510e527f, 0x9b05688c, 0x1f83d9ab, 0x5be0cd19)

  type Words = m: seq<word> | |m| == 16 witness seq(16, i => 0)

  /** W_t from W_(t-2), W_(t-7), W_(t-15) and W_(t-16). */
  function Next(x: word, y: word, z: word, w: word): (r: word) {
    Sum4(SmallSigma1(x), y, SmallSigma0(z), w)
  }

  /** The message schedule. */
  function W(m: Words, t: nat): (r: word) {
    if t < 16 then m[t] else Next(W(m, t - 2), W(m, t - 7), W(m, t - 15), W(m, t - 16))
  }

  function T1(e: word, f: word, g: word, h: word, k: word): (r: word) {
    Sum4(h, Sigma1(e), Choose(e, f, g), k)
  }

  function T2(a: word, b: word, c: word): (r: word) {
    Sum(Sigma0(a), Majority(a, b, c))
  }

  /** One step of the loop over t, k being K_t + W_t. */
  function Step(r: Regs, k: word): (result: Regs) {
    var t1 := T1(r.e, r.f, r.g, r.h, k);
    Regs(Sum(t1, T2(r.a, r.b, r.c)), r.a, r.b, r.c, Sum(r.d, t1), r.e, r.f, r.g)
  }

  function Rounds(r: Regs, m: Words, t: nat): (result: Regs)
    requires t <= 64
  {
    if t == 0 then r else Step(Rounds(r, m, t - 1), Sum(K(t - 1), W(m, t - 1)))
  }

  function AddRegs(s: Regs, r: Regs): (result: Regs) {
    Regs(Sum(s.a, r.a), Sum(s.b, r.b), Sum(s.c, r.c), Sum(s.d, r.d), Sum(s.e, r.e), Sum(s.f, r.f), Sum(s.g, r.g),
      Sum(s.h, r.h))
  }

  function Compress(s: Regs, m: Words): (r: Regs) {
    AddRegs(s, Rounds(s, m, 64))
  }

  // ---------------------------------------------------------------- words and bytes

  function ReadBE32(b0: byte, b1: byte, b2: byte, b3: byte): (r: word) {
    ((b0 as word) << 24) | ((b1 as word) << 16) | ((b2 as word) << 8) | (b3 as word)
  }

  function WriteBE32(x: word): (b: seq<byte>)
    ensures |b| == 4
  {
    [(x >> 24) as byte, ((x >> 16) & 0xff) as byte, ((x >> 8) & 0xff) as byte, (x & 0xff) as byte]
  }

  lemma ReadWrite(x: word)
    ensures var b := WriteBE32(x); ReadBE32(b[0], b[1], b[2], b[3]) == x
  {
  }

  /** The sixteen words of a block of 64 bytes. */
  function WordsOf(b: seq<byte>): (r: Words)
    requires |b| >= 64
  {
    seq(16, i requires 0 <= i < 16 => ReadBE32(b[4 * i], b[4 * i + 1], b[4 * i + 2], b[4 * i + 3]))
  }

  function BytesOf(r: Regs): (b: seq<byte>)
    ensures |b| == 32
  {
    (WriteBE32(r.a) + WriteBE32(r.b) + WriteBE32(r.c) + WriteBE32(r.d)) +
      (WriteBE32(r.e) + WriteBE32(r.f) + WriteBE32(r.g) + WriteBE32(r.h))
  }

  // ---------------------------------------------------------------- section 5.1.1 and the whole hash

  /** All whole blocks of b, one after the other. */
  function CompressAll(s: Regs, b: seq<byte>): (r: Regs)
    decreases |b|
  {
    if |b| < 64 then s else CompressAll(Compress(s, WordsOf(b[..64])), b[64..])
  }

  /** The zero bytes between the byte 0x80 and the length. */
  function ZeroCount(n: nat): (r: nat) {
    (119 - n % 64) % 64
  }

  /** They are the fewest that leave exactly room for the eight bytes of the length in the last block. */
  lemma FewestZeroes(n: nat, k: nat)
    requires (n + 1 + k + 8) % 64 == 0
    ensures (n + 1 + ZeroCount(n) + 8) % 64 == 0 && ZeroCount(n) <= k
  {
  }

  lemma WholeBlocks(n: nat)
    ensures (n + (1 + ZeroCount(n) + 8)) % 64 == 0
  {
  }

  function ByteAt(x: nat): (r: byte) {
    ByteOf(x % 256)
  }

  function ByteOf(x: nat): (r: byte)
    requires x < 256
  {
    x as byte
  }

  /** The 64-bit number x, the high byte first; what does not fit is lost. */
  function WriteBE64(x: nat): (b: seq<byte>)
    ensures |b| == 8
  {
    [ByteAt(x / 0x100_0000_0000_0000), ByteAt(x / 0x1_0000_0000_0000), ByteAt(x / 0x100_0000_0000),
     ByteAt(x / 0x1_0000_0000),
     ByteAt(x / 0x100_0000), ByteAt(x / 0x1_0000), ByteAt(x / 0x100), ByteAt(x)]
  }

  function Zeroes(n: nat): (b: seq<byte>)
    ensures |b| == n
  {
    seq(n, i => 0)
  }

  /** The message, 0x80, zeroes and the length in bits. */
  function Padded(m: seq<byte>): (b: seq<byte>)
    ensures |b| % 64 == 0
  {
    WholeBlocks(|m|);
    m + ([0x80] + Zeroes(ZeroCount(|m|)) + WriteBE64(8 * |m|))
  }

  function Sha256(m: seq<byte>): (h: seq<byte>)
    ensures |h| == 32
  {
    BytesOf(CompressAll(INITIAL, Padded(m)))
  }

  lemma {:induction false} CompressSplit(s: Regs, a: seq<byte>, b: seq<byte>)
    requires |a| % 64 == 0
    ensures CompressAll(s, a + b) == CompressAll(CompressAll(s, a), b)
    decreases |a|
  {
    hide Compress, WordsOf;
    if |a| >= 64 {
      assert (a + b)[..64] == a[..64] && (a + b)[64..] == a[64..] + b;
      CompressSplit(Compress(s, WordsOf(a[..64])), a[64..], b);
    } else {
      assert a + b == b;
    }
  }
}
