/** The 32-bit hash functions of src/other/MurmurHash2.cpp, on a little-endian machine. */
module Murmur {
  import opened ByteTypes

  const M: word := 0x5bd1e995

  // ---------------------------------------------------------------- one definition for all of them

  /** Up to four bytes as a little-endian word, missing ones counting as zero. */
  function Word(b: seq<byte>): (r: word)
    requires |b| <= 4
  {
    ReadLE32(
      if |b| > 0 then b[0] else 0,
      if |b| > 1 then b[1] else 0,
      if |b| > 2 then b[2] else 0,
      if |b| > 3 then b[3] else 0)
  }

  /** *(uint32_t*)data. */
  function ReadLE32(b0: byte, b1: byte, b2: byte, b3: byte): (r: word) {
    (b0 as word) | ((b1 as word) << 8) | ((b2 as word) << 16) | ((b3 as word) << 24)
  }

  function Times(h: word): (r: word) {
    h * M
  }

  /** mmix(h, k), and MIX(h, k, m). */
  function Mix(h: word, k: word): (r: word) {
    var k1 := k * M;
    var k2 := k1 ^ (k1 >> 24);
    (h * M) ^ (k2 * M)
  }

  function Final(h: word): (r: word) {
    var h1 := h ^ (h >> 13);
    var h2 := h1 * M;
    h2 ^ (h2 >> 15)
  }

  /** The whole words of b mixed into h. */
  function Body(h: word, b: seq<byte>): (r: word)
    decreases |b|
  {
    if |b| < 4 then h else Body(Mix(h, Word(b[..4])), b[4..])
  }

  /** The bytes after the last whole word. */
  function Rest(b: seq<byte>): (r: seq<byte>)
    ensures |r| < 4
  {
    b[|b| - |b| % 4..]
  }

  function Xor(x: word, y: word): (r: word) {
    x ^ y
  }

  /** The last one to three bytes; nothing happens when there are none. */
  function Tail(h: word, b: seq<byte>): (r: word)
    requires |b| < 4
  {
    if b == [] then h else Times(Xor(h, Word(b)))
  }

  /** A length as uint32_t. */
  function LenWord(n: nat): (r: word) {
    (n % 0x1_0000_0000) as word
  }

  function Hash2(b: seq<byte>, seed: word): (r: word) {
    Final(Tail(Body(Xor(seed, LenWord(|b|)), b), Rest(b)))
  }

  function Hash2A(b: seq<byte>, seed: word): (r: word) {
    Final(Mix(Mix(Body(seed, b), Word(Rest(b))), LenWord(|b|)))
  }

  /** Both hashes of the seven bytes "abcdefg", which are one whole word and a tail of three. */
  lemma KnownHashes(b: seq<byte>)
    requires b == [0x61, 0x62, 0x63, 0x64, 0x65, 0x66, 0x67]
    ensures Hash2(b, 0x9747b28c) == 0xeb595499 && Hash2A(b, 0x9747b28c) == 0xc046415a
  {
    hide Mix, Final, Times, Xor, ReadLE32, LenWord;
    KnownSteps();
    KnownMixes();
    assert b[..4] == [0x61, 0x62, 0x63, 0x64] && b[4..] == [0x65, 0x66, 0x67] == Rest(b);
    KnownBody(b, 0x9747b28b);
    KnownBody(b, 0x9747b28c);
    LengthSeven();
  }

  lemma KnownBody(b: seq<byte>, h: word)
    requires |b| == 7
    ensures Body(h, b) == Mix(h, Word(b[..4]))
  {
    hide Mix, Word;
    assert Body(Mix(h, Word(b[..4])), b[4..]) == Mix(h, Word(b[..4]));
  }

  lemma LengthSeven()
    ensures LenWord(7) == 7
  {
    assert 7 % 0x1_0000_0000 == 7;
  }

  lemma KnownSteps()
    ensures ReadLE32(0x61, 0x62, 0x63, 0x64) == 0x64636261 && ReadLE32(0x65, 0x66, 0x67, 0) == 0x00676665
    ensures Xor(0x9747b28c, 7) == 0x9747b28b
    ensures Xor(0x9643d490, 0x00676665) == 0x9624b2f5
    ensures Times(0x9624b2f5) == 0xfb422599
    ensures Final(0xfb422599) == 0xeb595499 && Final(0xdbd83980) == 0xc046415a
  {
  }

  lemma KnownMixes()
    ensures Mix(0x9747b28b, 0x64636261) == 0x9643d490
    ensures Mix(0x9747b28c, 0x64636261) == 0x3a7dee0b
    ensures Mix(0x3a7dee0b, 0x00676665) == 0xa4024711 && Mix(0xa4024711, 7) == 0xdbd83980
  {
  }

  lemma {:induction false} BodySplit(h: word, a: seq<byte>, b: seq<byte>)
    requires |a| % 4 == 0
    ensures Body(h, a + b) == Body(Body(h, a), b)
    decreases |a|
  {
    hide Mix, Word;
    if a == [] {
      assert a + b == b;
    } else {
      assert (a + b)[..4] == a[..4] && (a + b)[4..] == a[4..] + b;
      BodySplit(Mix(h, Word(a[..4])), a[4..], b);
    }
  }

  // ---------------------------------------------------------------- pieces the functions share

  function Up8(b: byte): (r: word) {
    (b as word) << 8
  }

  function Up16(b: byte): (r: word) {
    (b as word) << 16
  }

  lemma XorAssociates(x: word, y: word, z: word)
    ensures Xor(Xor(x, y), z) == Xor(x, Xor(y, z))
  {
  }

  /** Bytes in places of their own meet in an exclusive or as in a read. */
  lemma ReadApart(a: byte, b: byte)
    ensures ReadLE32(a, 0, 0, 0) == a as word
    ensures ReadLE32(a, b, 0, 0) == Xor(Up8(b), a as word) == Or(Up8(b), a as word)
  {
  }

  lemma ReadThree(a: byte, b: byte, c: byte)
    ensures ReadLE32(a, b, c, 0) == Xor(Up16(c), ReadLE32(a, b, 0, 0)) == Or(Up16(c), ReadLE32(a, b, 0, 0))
  {
  }

  lemma XorBytes(h: word, a: byte, b: byte, c: byte)
    ensures Xor(h, a as word) == Xor(h, ReadLE32(a, 0, 0, 0))
    ensures Xor(Xor(h, Up8(b)), a as word) == Xor(h, ReadLE32(a, b, 0, 0))
    ensures Xor(Xor(Xor(h, Up16(c)), Up8(b)), a as word) == Xor(h, ReadLE32(a, b, c, 0))
  {
    hide Xor, Or, Up8, Up16, ReadLE32;
    ReadApart(a, b);
    ReadThree(a, b, c);
    XorAssociates(h, Up8(b), a as word);
    XorAssociates(Xor(h, Up16(c)), Up8(b), a as word);
    XorAssociates(h, Up16(c), ReadLE32(a, b, 0, 0));
  }

  /** switch (len) over the last bytes, each case falling into the next. */
  method TailBytes(h: word, key: array<byte>, at: nat, len: nat) returns (h': word)
    requires len < 4 && at + len <= key.Length
    ensures h' == Tail(h, key[at..at + len])
  {
    hide ReadLE32, Xor, Up8, Up16, Times;
    h' := h;
    if len >= 3 {
      h' := Xor(h', Up16(key[at + 2]));
    }
    if len >= 2 {
      h' := Xor(h', Up8(key[at + 1]));
    }
    if len >= 1 {
      h' := Xor(h', key[at] as word);
      if len == 3 {
        XorBytes(h, key[at], key[at + 1], key[at + 2]);
      } else if len == 2 {
        XorBytes(h, key[at], key[at + 1], 0);
      } else {
        XorBytes(h, key[at], 0, 0);
      }
      h' := Times(h');
    }
  }

  /** Four bytes at a time, as one aligned or unaligned read each. */
  method MixWords(h: word, key: array<byte>, at: nat, len: nat) returns (h': word, at': nat, len': nat)
    requires at + len <= key.Length
    ensures h' == Body(h, key[at..at + len])
    ensures len' == len % 4 && at' == at + len - len'
  {
    hide Mix, ReadLE32, Body, Word;
    h', at', len' := h, at, len;
    ghost var k := key[..];
    assert key[at..at + len] == k[at..at + len];
    while len' >= 4
      invariant at' + len' == at + len && len' % 4 == len % 4 && len' >= 0
      invariant Body(h', k[at'..at + len]) == Body(h, k[at..at + len])
    {
      BodyStep(h', k, at', at + len);
      ReadIsWord(k, at');
      h' := Mix(h', ReadLE32(key[at'], key[at' + 1], key[at' + 2], key[at' + 3]));
      at', len' := at' + 4, len' - 4;
    }
    WholeBody(h', k[at'..at + len]);
  }

  lemma ReadIsWord(k: seq<byte>, at: nat)
    requires at + 4 <= |k|
    ensures ReadLE32(k[at], k[at + 1], k[at + 2], k[at + 3]) == Word(k[at..at + 4])
  {
    hide ReadLE32;
  }

  lemma RestIs(key: seq<byte>, from: nat, len: nat)
    requires from + len <= |key|
    ensures Rest(key[from..from + len]) == key[from + len - len % 4..from + len]
  {
  }

  // ---------------------------------------------------------------- MurmurHash2 and its variants

  method MurmurHash2(key: array<byte>, from: nat, len: nat, seed: word) returns (h: word)
    requires from + len <= key.Length
    ensures h == Hash2(key[from..from + len], seed)
  {
    hide Body, Tail, Final, LenWord, Xor;
    var at, left;
    h := Xor(seed, LenWord(len));
    h, at, left := MixWords(h, key, from, len);
    RestIs(key[..], from, len);
    h := TailBytes(h, key, at, left);
    h := Final(h);
  }

  /** The word is put together from single bytes. */
  method MurmurHashNeutral2(key: array<byte>, from: nat, len: nat, seed: word) returns (h: word)
    requires from + len <= key.Length
    ensures h == Hash2(key[from..from + len], seed)
  {
    hide Mix, Body, Tail, Final, LenWord, Xor, Word;
    var at, left;
    h := Xor(seed, LenWord(len));
    h, at, left := MixReadBytes(h, key, from, len);
    RestIs(key[..], from, len);
    h := TailBytes(h, key, at, left);
    h := Final(h);
  }

  /** Four bytes at a time, read one by one. */
  method MixReadBytes(h: word, key: array<byte>, at: nat, len: nat) returns (h': word, at': nat, len': nat)
    requires at + len <= key.Length
    ensures h' == Body(h, key[at..at + len])
    ensures len' == len % 4 && at' == at + len - len'
  {
    hide Mix, Body, Word;
    h', at', len' := h, at, len;
    ghost var k := key[..];
    assert key[at..at + len] == k[at..at + len];
    while len' >= 4
      invariant at' + len' == at + len && len' % 4 == len % 4 && len' >= 0
      invariant Body(h', k[at'..at + len]) == Body(h, k[at..at + len])
    {
      BodyStep(h', k, at', at + len);
      var k4 := ReadBytes(key, at');
      h' := Mix(h', k4);
      at', len' := at' + 4, len' - 4;
    }
    WholeBody(h', k[at'..at + len]);
  }

  lemma WholeBody(h: word, b: seq<byte>)
    requires |b| < 4
    ensures Body(h, b) == h
  {
  }

  /** k = data[0], k |= data[1] << 8 and so on. */
  method ReadBytes(key: array<byte>, at: nat) returns (k: word)
    requires at + 4 <= key.Length
    ensures k == Word(key[at..at + 4])
  {
    k := key[at] as word;
    k := k | ((key[at + 1] as word) << 8);
    k := k | ((key[at + 2] as word) << 16);
    k := k | ((key[at + 3] as word) << 24);
  }

  method MurmurHash2A(key: array<byte>, from: nat, len: nat, seed: word) returns (h: word)
    requires from + len <= key.Length
    ensures h == Hash2A(key[from..from + len], seed)
  {
    hide Body, Mix, Final, LenWord, ReadLE32;
    var at, left;
    h, at, left := MixWords(seed, key, from, len);
    RestIs(key[..], from, len);
    var t := TailWord(key, at, left);
    h := Mix(h, t);
    h := Mix(h, LenWord(len));
    h := Final(h);
  }

  /** t ^= data[2] << 16, and so on from zero. */
  method TailWord(key: array<byte>, at: nat, len: nat) returns (t: word)
    requires len < 4 && at + len <= key.Length
    ensures t == Word(key[at..at + len])
  {
    hide ReadLE32, Xor, Up8, Up16;
    t := 0;
    ghost var zero := t;
    if len >= 3 {
      t := Xor(t, Up16(key[at + 2]));
    }
    if len >= 2 {
      t := Xor(t, Up8(key[at + 1]));
    }
    if len >= 1 {
      t := Xor(t, key[at] as word);
    }
    if len == 3 {
      XorBytes(zero, key[at], key[at + 1], key[at + 2]);
    } else if len == 2 {
      XorBytes(zero, key[at], key[at + 1], 0);
    } else if len == 1 {
      XorBytes(zero, key[at], 0, 0);
    } else {
      NoBytes();
    }
    XorZero(zero, Word(key[at..at + len]));
  }

  lemma XorZero(zero: word, x: word)
    requires zero == 0
    ensures Xor(zero, x) == x
  {
  }

  lemma NoBytes()
    ensures Word([]) == 0
  {
  }

  lemma OrBytes(zero: word, a: byte, b: byte, c: byte)
    requires zero == 0
    ensures Or(zero, a as word) == ReadLE32(a, 0, 0, 0)
    ensures Or(Or(zero, Up8(b)), a as word) == ReadLE32(a, b, 0, 0)
    ensures Or(Or(Or(zero, Up16(c)), Up8(b)), a as word) == ReadLE32(a, b, c, 0)
  {
    hide Xor, Or, Up8, Up16, ReadLE32;
    ReadApart(a, b);
    ReadThree(a, b, c);
    OrZero(zero, a as word);
    OrZero(zero, Up8(b));
    OrZero(zero, Up16(c));
    OrAssociates(Up16(c), Up8(b), a as word);
  }

  lemma OrZero(zero: word, x: word)
    requires zero == 0
    ensures Or(zero, x) == x
  {
  }

  lemma OrAssociates(x: word, y: word, z: word)
    ensures Or(Or(x, y), z) == Or(x, Or(y, z))
  {
  }

  // ---------------------------------------------------------------- MurmurHashAligned2

  function Or(x: word, y: word): (r: word) {
    x | y
  }

  /** x << s for s a whole number of bytes. */
  function Shl(x: word, s: nat): (r: word) {
    match s case 0 => x case 8 => x << 8 case 16 => x << 16 case 24 => x << 24 case _ => 0
  }

  function Shr(x: word, s: nat): (r: word) {
    match s case 0 => x case 8 => x >> 8 case 16 => x >> 16 case 24 => x >> 24 case _ => 0
  }

  lemma JoinOne(a: byte, q0: byte, q1: byte, q2: byte, q3: byte)
    ensures Or(ReadLE32(a, 0, 0, 0), Shl(ReadLE32(q0, q1, q2, q3), 8)) == ReadLE32(a, q0, q1, q2)
  {
  }

  lemma JoinTwo(a: byte, b: byte, q0: byte, q1: byte, q2: byte, q3: byte)
    ensures Or(ReadLE32(a, b, 0, 0), Shl(ReadLE32(q0, q1, q2, q3), 16)) == ReadLE32(a, b, q0, q1)
  {
  }

  lemma JoinThree(a: byte, b: byte, c: byte, q0: byte, q1: byte, q2: byte, q3: byte)
    ensures Or(ReadLE32(a, b, c, 0), Shl(ReadLE32(q0, q1, q2, q3), 24)) == ReadLE32(a, b, c, q0)
  {
  }

  function ByteOr0(b: seq<byte>, i: nat): (r: byte) {
    if i < |b| then b[i] else 0
  }

  /** Bytes put above the bytes that are there already. */
  lemma JoinBytes(p: seq<byte>, q: seq<byte>)
    requires 1 <= |p| <= 3 && |q| <= 4
    ensures Or(Word(p), Shl(Word(q), 8 * |p|)) == Word(if |p| + |q| <= 4 then p + q else (p + q)[..4])
  {
    hide ReadLE32, Shl, Shr, Or;
    if |p| == 1 {
      JoinOne(p[0], ByteOr0(q, 0), ByteOr0(q, 1), ByteOr0(q, 2), ByteOr0(q, 3));
    } else if |p| == 2 {
      JoinTwo(p[0], p[1], ByteOr0(q, 0), ByteOr0(q, 1), ByteOr0(q, 2), ByteOr0(q, 3));
    } else {
      JoinThree(p[0], p[1], p[2], ByteOr0(q, 0), ByteOr0(q, 1), ByteOr0(q, 2), ByteOr0(q, 3));
    }
  }

  lemma DropSome(a: byte, b: byte, c: byte, d: byte)
    ensures Shr(ReadLE32(a, b, c, d), 8) == ReadLE32(b, c, d, 0)
    ensures Shr(ReadLE32(a, b, c, d), 16) == ReadLE32(c, d, 0, 0)
    ensures Shr(ReadLE32(a, b, c, d), 24) == ReadLE32(d, 0, 0, 0)
  {
  }

  /** What stays when the low a bytes are shifted out. */
  lemma DropBytes(y: seq<byte>, a: nat)
    requires |y| == 4 && 1 <= a <= 3
    ensures Shr(Word(y), 8 * a) == Word(y[a..])
  {
    hide ReadLE32, Shl, Shr, Or;
    DropSome(y[0], y[1], y[2], y[3]);
  }

  lemma UpAndDown(p: seq<byte>)
    requires 1 <= |p| <= 3
    ensures var s := 8 * (4 - |p|); Shr(Shl(Word(p), s), s) == Word(p)
  {
    hide ReadLE32, Shl, Shr, Or;
    if |p| == 1 {
      UpOne(p[0]);
    } else if |p| == 2 {
      UpTwo(p[0], p[1]);
    } else {
      UpThree(p[0], p[1], p[2]);
    }
  }

  lemma UpOne(a: byte)
    ensures Shr(Shl(ReadLE32(a, 0, 0, 0), 24), 24) == ReadLE32(a, 0, 0, 0)
  {
  }

  lemma UpTwo(a: byte, b: byte)
    ensures Shr(Shl(ReadLE32(a, b, 0, 0), 16), 16) == ReadLE32(a, b, 0, 0)
  {
  }

  lemma UpThree(a: byte, b: byte, c: byte)
    ensures Shr(Shl(ReadLE32(a, b, c, 0), 8), 8) == ReadLE32(a, b, c, 0)
  {
  }

  /** switch (n) with t |= data[n - 1] and so on: the first n bytes from zero. */
  method ReadSome(key: array<byte>, at: nat, n: nat) returns (d: word)
    requires n < 4 && at + n <= key.Length
    ensures d == Word(key[at..at + n])
  {
    hide ReadLE32, Or, Up8, Up16;
    d := 0;
    ghost var zero := d;
    if n >= 3 {
      d := Or(d, Up16(key[at + 2]));
    }
    if n >= 2 {
      d := Or(d, Up8(key[at + 1]));
    }
    if n >= 1 {
      d := Or(d, key[at] as word);
    }
    if n == 3 {
      OrBytes(zero, key[at], key[at + 1], key[at + 2]);
    } else if n == 2 {
      OrBytes(zero, key[at], key[at + 1], 0);
    } else if n == 1 {
      OrBytes(zero, key[at], 0, 0);
    } else {
      NoBytes();
    }
  }

  /** The loop over aligned words. The top bytes of t are those of the key just before `at`; every
      word that is mixed in is made of them and of the low bytes of the next aligned word. */
  method MixShifted(h: word, t: word, key: array<byte>, at: nat, len: nat, align: nat)
      returns (h': word, t': word, at': nat, len': nat)
    requires 1 <= align <= 3 && 4 - align <= at && at + len <= key.Length
    requires Shr(t, 8 * align) == Word(key[at - (4 - align)..at])
    ensures len' == len % 4 && at' == at + len - len'
    ensures Shr(t', 8 * align) == Word(key[at' - (4 - align)..at'])
    ensures Body(h', key[at' - (4 - align)..at' + len']) == Body(h, key[at - (4 - align)..at + len])
  {
    hide Mix, Word, Shl, Shr, Or, Body;
    var n := 4 - align;
    var sl, sr := 8 * n, 8 * align;
    h', t', at', len' := h, t, at, len;
    ghost var k := key[..];
    assert key[at - n..at] == k[at - n..at] && key[at - n..at + len] == k[at - n..at + len];
    while len' >= 4
      invariant at' + len' == at + len && len' % 4 == len % 4 && n <= at' && len' >= 0
      invariant Shr(t', sr) == Word(k[at' - n..at'])
      invariant Body(h', k[at' - n..at' + len']) == Body(h, k[at - n..at + len])
    {
      assert key[at'..at' + 4] == k[at'..at' + 4];
      var d := Word(key[at'..at' + 4]);
      ShiftStep(k, at', align, t', d);
      BodyStep(h', k, at' - n, at' + len');
      t' := Or(Shr(t', sr), Shl(d, sl));
      h' := Mix(h', t');
      t' := d;
      at', len' := at' + 4, len' - 4;
    }
    assert key[at' - n..at'] == k[at' - n..at'] && key[at' - n..at' + len'] == k[at' - n..at' + len'];
  }

  lemma ShiftStep(key: seq<byte>, at: nat, align: nat, t: word, d: word)
    requires 1 <= align <= 3 && 4 - align <= at && at + 4 <= |key|
    requires Shr(t, 8 * align) == Word(key[at - (4 - align)..at]) && d == Word(key[at..at + 4])
    ensures Or(Shr(t, 8 * align), Shl(d, 8 * (4 - align))) == Word(key[at - (4 - align)..at + align])
    ensures Shr(d, 8 * align) == Word(key[at + align..at + 4])
  {
    hide Word, Shl, Shr, Or;
    var p, q := key[at - (4 - align)..at], key[at..at + 4];
    JoinBytes(p, q);
    assert (p + q)[..4] == key[at - (4 - align)..at + align];
    DropBytes(q, align);
    assert q[align..] == key[at + align..at + 4];
  }

  lemma BodyStep(h: word, key: seq<byte>, from: nat, to: nat)
    requires from + 4 <= to <= |key|
    ensures Body(h, key[from..to]) == Body(Mix(h, Word(key[from..from + 4])), key[from + 4..to])
  {
    hide Mix, Word;
    assert key[from..to][..4] == key[from..from + 4] && key[from..to][4..] == key[from + 4..to];
  }

  /** Whatever the address of the key is modulo four, and however that splits the reads. */
  method MurmurHashAligned2(key: array<byte>, from: nat, len: nat, seed: word, align: nat) returns (h: word)
    requires from + len <= key.Length && align < 4
    ensures h == Hash2(key[from..from + len], seed)
  {
    hide Body, Tail, Final, LenWord, Xor;
    h := Xor(seed, LenWord(len));
    if align != 0 && len >= 4 {
      h := Unaligned(h, key, from, len, align);
      h := Final(h);
    } else {
      var at, left;
      h, at, left := MixWords(h, key, from, len);
      RestIs(key[..], from, len);
      h := TailBytes(h, key, at, left);
      h := Final(h);
    }
  }

  /** What is left of the key after whole words decides the rest of the hash. */
  lemma Leftover(start: word, key: seq<byte>, from: nat, len: nat, h: word, mid: nat)
    requires from <= mid <= from + len <= |key| && from + len - mid < 8 && (mid - from) % 4 == 0
    requires Body(h, key[mid..from + len]) == Body(start, key[from..from + len])
    ensures var b, rest := key[from..from + len], key[mid..from + len];
      && (|rest| < 4 ==> Body(start, b) == h && Rest(b) == rest)
      && (|rest| >= 4 ==> Body(start, b) == Mix(h, Word(rest[..4])) && Rest(b) == rest[4..])
  {
    hide Mix, Word;
    var b, rest := key[from..from + len], key[mid..from + len];
    assert |b| % 4 == |rest| % 4;
  }

  method Unaligned(start: word, key: array<byte>, from: nat, len: nat, align: nat) returns (h: word)
    requires from + len <= key.Length && 1 <= align < 4 && len >= 4
    ensures var b := key[from..from + len]; h == Tail(Body(start, b), Rest(b))
  {
    hide Body, Tail, Word, Shl, Shr, Or, Mix;
    var n := 4 - align;
    var t := ReadSome(key, from, n);
    UpAndDown(key[from..from + n]);
    t := Shl(t, 8 * align);
    var at, left := from + n, len - n;
    h, t, at, left := MixShifted(start, t, key, at, left, align);
    Leftover(start, key[..], from, len, h, at - n);
    h := FinishShifted(h, t, key, at, left, align);
  }

  /** A slice cut at two places. */
  lemma Cut(k: seq<byte>, i: nat, a: nat, b: nat, j: nat)
    requires i <= a <= b <= j <= |k|
    ensures k[i..j] == k[i..a] + k[a..j] && k[a..j][..b - a] == k[a..b]
    ensures k[i..a] + k[a..b] == k[i..j][..b - i] && k[i..j][b - i..] == k[b..j]
  {
  }

  /** Leftover data in the temp registers, and the tail bytes behind it. */
  method FinishShifted(start: word, t: word, key: array<byte>, at: nat, left: nat, align: nat) returns (h: word)
    requires 1 <= align < 4 && 4 - align <= at && at + left <= key.Length && left < 4
    requires Shr(t, 8 * align) == Word(key[at - (4 - align)..at])
    ensures var rest := key[at - (4 - align)..at + left];
      h == if |rest| < 4 then Tail(start, rest) else Tail(Mix(start, Word(rest[..4])), rest[4..])
  {
    hide Word, Shl, Shr, Or, Mix, Xor, Times;
    var n := 4 - align;
    ghost var p, q, rest := key[at - n..at], key[at..at + left], key[at - n..at + left];
    Cut(key[..], at - n, at, at, at + left);
    if left >= align {
      Cut(key[..], at - n, at, at + align, at + left);
      var d := ReadSome(key, at, align);
      JoinBytes(p, q[..align]);
      assert q[..align] == key[at..at + align] && p + q[..align] == rest[..4];
      h := Mix(start, Or(Shr(t, 8 * align), Shl(d, 8 * n)));
      assert rest[4..] == key[at + align..at + align + (left - align)];
      h := TailBytes(h, key, at + align, left - align);
    } else {
      var d := ReadSome(key, at, left);
      JoinBytes(p, q);
      h := Xor(start, Or(Shr(t, 8 * align), Shl(d, 8 * n)));
      h := Times(h);
    }
  }

  // ---------------------------------------------------------------- CMurmurHash2A

  lemma AddZero(b: byte)
    ensures Or(ReadLE32(0, 0, 0, 0), Shl(b as word, 0)) == ReadLE32(b, 0, 0, 0)
  {
  }

  lemma AsWord(b: byte)
    ensures b as word == ReadLE32(b, 0, 0, 0)
  {
  }

  /** A byte joins the tail above the count bytes already in it. */
  lemma AddByte(p: seq<byte>, b: byte)
    requires |p| < 4
    ensures Or(Word(p), Shl(b as word, 8 * |p|)) == Word(p + [b])
  {
    hide ReadLE32, Or, Shl;
    AsWord(b);
    if p == [] {
      AddZero(b);
    } else {
      JoinBytes(p, [b]);
    }
  }

  /** One byte more stays in the tail. */
  lemma StaysInTail(h: word, w: seq<byte>, b: byte)
    requires |Rest(w)| < 3
    ensures Body(h, w + [b]) == Body(h, w) && Rest(w + [b]) == Rest(w) + [b]
  {
    hide Mix, Word;
    var n := |w| - |w| % 4;
    assert n % 4 == 0;
    assert (|w| + 1) % 4 == |w| % 4 + 1;
    WholeWords(h, w, n);
    WholeWords(h, w + [b], n);
    assert (w + [b])[..n] == w[..n];
  }

  /** Or it completes a word. */
  lemma CompletesWord(h: word, w: seq<byte>, b: byte)
    requires |Rest(w)| == 3
    ensures Body(h, w + [b]) == Mix(Body(h, w), Word(Rest(w) + [b])) && Rest(w + [b]) == []
  {
    hide Mix, Word;
    var n := |w| - |w| % 4;
    assert (|w| + 1) % 4 == 0;
    WholeWords(h, w, n);
    assert w + [b] == w[..n] + (Rest(w) + [b]);
    FourBytes(h, w[..n], Rest(w) + [b]);
  }

  lemma WholeWords(h: word, w: seq<byte>, n: nat)
    requires n == |w| - |w| % 4
    ensures Body(h, w[..n]) == Body(h, w) && n % 4 == 0
  {
    hide Mix, Word;
    assert w == w[..n] + Rest(w);
    BodySplit(h, w[..n], Rest(w));
  }

  lemma FourBytes(h: word, w: seq<byte>, q: seq<byte>)
    requires |w| % 4 == 0 && |q| == 4
    ensures Body(h, w + q) == Mix(Body(h, w), Word(q)) && (|w| + 4) % 4 == 0
  {
    hide Mix, Word;
    BodySplit(h, w, q);
    assert q[..4] == q && q[4..] == [];
    assert Body(Mix(Body(h, w), Word(q)), []) == Mix(Body(h, w), Word(q));
  }

  /** The uint32_t size of a message of n bytes. */
  ghost predicate Sized(size: nat, n: nat) {
    size == n % 0x1_0000_0000
  }

  lemma SizeAdds(size: nat, n: nat, len: nat)
    requires Sized(size, n)
    ensures Sized((size + len) % 0x1_0000_0000, n + len)
  {
  }

  class CMurmurHash2A {
    var hash: word
    var tail: word
    var count: nat
    var size: nat
    ghost var seed: word
    ghost var written: seq<byte>

    /** Everything but the length. */
    ghost predicate Mixed()
      reads this`hash, this`tail, this`count, this`seed, this`written
    {
      && count == |Rest(written)|
      && hash == Body(seed, written)
      && tail == Word(Rest(written))
    }

    ghost predicate Valid()
      reads this
    {
      Mixed() && Sized(size, |written|)
    }

    /** Begin(seed) on a new object. */
    constructor (start: word)
      ensures Valid() && written == [] && seed == start
    {
      hide Body, Word, Rest;
      hash, tail, count, size := start, 0, 0, 0;
      seed, written := start, [];
      new;
      Nothing(start);
    }

    method Begin(start: word)
      modifies this
      ensures Valid() && written == [] && seed == start
    {
      hide Body, Word, Rest;
      hash, tail, count, size := start, 0, 0, 0;
      seed, written := start, [];
      Nothing(start);
    }

    /** However a message is cut into pieces, what counts is their concatenation. */
    method Add(data: array<byte>, from: nat, len: nat)
      requires Valid() && from + len <= data.Length
      modifies this
      ensures Valid() && seed == old(seed) && written == old(written) + data[from..from + len]
    {
      hide CMurmurHash2A.Mixed, Sized;
      SizeAdds(size, |written|, len);
      size := (size + len) % 0x1_0000_0000;
      ghost var w, d, total := written, data[..], size;
      var at, left := MixTail(data, from, len);
      assert written == w + d[from..at];
      while left >= 4
        invariant at + left == from + len && from <= at && left >= 0
        invariant Mixed() && seed == old(seed) && size == total
        invariant written == w + d[from..at]
        invariant left > 0 ==> count == 0
        decreases left
      {
        MixWord(data, at);
        assert data[at..at + 4] == d[at..at + 4];
        Glue(w, d, from, at, at + 4);
        at, left := at + 4, left - 4;
      }
      ghost var mid := at;
      at, left := MixTail(data, at, left);
      assert data[mid..at] == d[mid..at];
      Glue(w, d, from, mid, at);
      assert data[from..from + len] == d[from..from + len];
    }

    /** One whole word past an empty tail. */
    method MixWord(data: array<byte>, at: nat)
      requires Mixed() && count == 0 && at + 4 <= data.Length
      modifies this
      ensures Mixed() && count == 0 && seed == old(seed) && size == old(size)
      ensures written == old(written) + data[at..at + 4]
    {
      hide Body, Word, Mix, Rest;
      RestSize(written);
      FourBytes(seed, written, data[at..at + 4]);
      hash := Mix(hash, Word(data[at..at + 4]));
      written := written + data[at..at + 4];
      RestSize(written);
    }

    method End() returns (h: word)
      requires Valid()
      modifies this
      ensures h == Hash2A(written, seed) && written == old(written)
    {
      hide Body, Word, Mix, Final;
      hash := Mix(hash, tail);
      hash := Mix(hash, LenWord(size));
      hash := Final(hash);
      h := hash;
    }

    /** Bytes one at a time until the tail is empty and whole words are left, or nothing is. */
    method MixTail(data: array<byte>, from: nat, len: nat) returns (at: nat, left: nat)
      requires Mixed() && from + len <= data.Length
      modifies this
      ensures Mixed() && seed == old(seed) && size == old(size)
      ensures at + left == from + len && from <= at && written == old(written) + data[from..at]
      ensures left == 0 || (left >= 4 && count == 0)
    {
      hide CMurmurHash2A.Mixed;
      at, left := from, len;
      while left > 0 && (left < 4 || count != 0)
        invariant at + left == from + len && from <= at
        invariant Mixed() && seed == old(seed) && size == old(size)
        invariant written == old(written) + data[from..at]
        decreases left
      {
        MixByte(data[at]);
        at := at + 1;
        left := left - 1;
      }
    }

    /** The body of that loop. */
    method MixByte(b: byte)
      requires Mixed()
      modifies this
      ensures Mixed() && seed == old(seed) && size == old(size)
      ensures written == old(written) + [b]
    {
      hide Body, Word, Mix, Rest, Or, Shl;
      AddByte(Rest(written), b);
      tail := Or(tail, Shl(b as word, count * 8));
      count := count + 1;
      if count == 4 {
        CompletesWord(seed, written, b);
        hash := Mix(hash, tail);
        tail := 0;
        count := 0;
        Nothing(seed);
      } else {
        StaysInTail(seed, written, b);
      }
      written := written + [b];
    }
  }

  lemma Nothing(h: word)
    ensures Word([]) == 0 && Rest([]) == [] && Body(h, []) == h
  {
  }

  lemma RestSize(w: seq<byte>)
    ensures |Rest(w)| == |w| % 4
    ensures |w| % 4 == 0 ==> Rest(w) == []
  {
  }
}
