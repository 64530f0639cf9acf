/** The in-place Merkle root of src/other/MerkleTree.hpp. */
module Merkle {
  import opened ByteTypes
  import opened ShaSpec
  import opened Hasher
  import opened HashStream

  type Hash = h: seq<byte> | |h| == 32 witness Zeroes(32)

  function DoubleHash(b: seq<byte>): (h: Hash) {
    Sha256(Sha256(b))
  }

  function Pair(a: seq<byte>, b: seq<byte>): (r: Hash) {
    DoubleHash(a + b)
  }

  // ---------------------------------------------------------------- the tree

  /** The level above: neighbours are hashed together, a last one without neighbour with itself. */
  function Parents(level: seq<Hash>): (r: seq<Hash>)
    ensures |r| == (|level| + 1) / 2
  {
    if |level| == 0 then []
    else if |level| == 1 then [Pair(level[0], level[0])]
    else [Pair(level[0], level[1])] + Parents(level[2..])
  }

  /** The root of the tree over the leaves; the null hash when there are none. */
  function Root(level: seq<Hash>): (r: Hash)
    decreases |level|
  {
    if |level| == 0 then Zeroes(32)
    else if |level| == 1 then level[0]
    else Root(Parents(level))
  }

  lemma {:induction false} ParentAt(level: seq<Hash>, k: nat)
    requires 2 * k < |level|
    ensures Parents(level)[k] == Pair(level[2 * k], if 2 * k + 1 < |level| then level[2 * k + 1] else level[2 * k])
  {
    hide Pair;
    if |level| > 1 && k > 0 {
      ParentAt(level[2..], k - 1);
    }
  }

  /** An odd level has the same parents as the level with its last hash written twice. */
  lemma {:induction false} LastTwice(level: seq<Hash>)
    requires |level| % 2 == 1
    ensures Parents(level + [level[|level| - 1]]) == Parents(level)
  {
    hide Pair;
    var longer := level + [level[|level| - 1]];
    if |level| == 1 {
      assert longer[2..] == [];
    } else {
      assert longer[2..] == level[2..] + [level[2..][|level| - 3]];
      LastTwice(level[2..]);
    }
  }

  // ---------------------------------------------------------------- hashes in a byte buffer

  /** Hash k of a buffer that holds them one after the other. */
  function HashAt(b: seq<byte>, k: nat): (r: Hash)
    requires 32 * (k + 1) <= |b|
  {
    b[32 * k..32 * (k + 1)]
  }

  function HashesOf(b: seq<byte>): (r: seq<Hash>)
  {
    seq(|b| / 32, k requires 0 <= k < |b| / 32 => HashAt(b, k))
  }

  /** One pair: the double hash of the 64 bytes at src lands at dst, which is not behind src. */
  method HashPair(hasher: CSHA256, hashes: array<byte>, src: nat, dst: nat)
    requires hasher.Valid() && hashes != hasher.buf
    requires dst <= src && src + 64 <= hashes.Length
    modifies hasher, hasher.s, hasher.buf, hashes
    ensures hasher.Valid()
    ensures hashes[..] == old(hashes[..dst] + DoubleHash(hashes[src..src + 64]) + hashes[dst + 32..])
  {
    hide Sha256, Padded, CSHA256.Valid;
    ghost var before, pair := hashes[..], hashes[src..src + 64];
    hasher.Reset();
    hasher.Write(hashes, src, 64);
    assert hasher.written == pair;
    hasher.Finalize(hashes, dst);
    ghost var once := hashes[dst..dst + 32];
    hasher.Reset();
    assert hashes[dst..dst + 32] == once;
    hasher.Write(hashes, dst, 32);
    assert hasher.written == Sha256(pair);
    hasher.Finalize(hashes, dst);
  }

  /** The first k hashes of the buffer are the first k of the level above. */
  ghost predicate Done(b: seq<byte>, above: seq<Hash>, k: nat) {
    k <= |above| && 32 * k <= |b| && forall j | 0 <= j < k :: HashAt(b, j) == above[j]
  }

  lemma HashOfPrefix(b: seq<byte>, size: nat, k: nat)
    requires size <= |b| && 32 * (k + 1) <= size
    ensures HashAt(b[..size], k) == HashAt(b, k) == b[32 * k..32 * k + 32]
  {
  }

  lemma HashesAt(b: seq<byte>, k: nat)
    requires 32 * (k + 1) <= |b|
    ensures k < |HashesOf(b)| && HashesOf(b)[k] == HashAt(b, k)
  {
  }

  lemma PairIsParent(b: seq<byte>, size: nat, k: nat)
    requires size % 64 == 0 && 64 * (k + 1) <= size <= |b|
    ensures var level := HashesOf(b[..size]);
      |Parents(level)| == size / 64 && DoubleHash(b[64 * k..64 * k + 64]) == Parents(level)[k]
  {
    hide DoubleHash, HashesOf, HashAt;
    var level := HashesOf(b[..size]);
    HashesAt(b[..size], 2 * k);
    HashesAt(b[..size], 2 * k + 1);
    HashOfPrefix(b, size, 2 * k);
    HashOfPrefix(b, size, 2 * k + 1);
    HashCount(b[..size]);
    ParentAt(level, k);
    var left: seq<byte>, right: seq<byte> := level[2 * k], level[2 * k + 1];
    assert b[64 * k..64 * k + 64] == left + right;
  }

  lemma HashCount(b: seq<byte>)
    ensures |HashesOf(b)| == |b| / 32
  {
  }

  lemma OneMore(b: seq<byte>, b': seq<byte>, h: Hash, above: seq<Hash>, k: nat)
    requires Done(b, above, k) && k < |above| && 32 * (k + 1) <= |b| && h == above[k]
    requires b' == b[..32 * k] + h + b[32 * k + 32..]
    ensures Done(b', above, k + 1)
  {
    forall j | 0 <= j <= k ensures HashAt(b', j) == above[j] {
      if j < k {
        assert HashAt(b', j) == HashAt(b, j);
      }
    }
  }

  /** What the loop over the pairs keeps: k hashes of the level above are done, and the pairs from
      64k on are still what they were. */
  ghost predicate Halfway(b: seq<byte>, before: seq<byte>, size: nat, k: nat) {
    && |b| == |before| && 64 * k <= size <= |b| && size % 64 == 0
    && b[64 * k..] == before[64 * k..]
    && Done(b, Parents(HashesOf(before[..size])), k)
  }

  lemma NextPair(b: seq<byte>, b': seq<byte>, before: seq<byte>, size: nat, k: nat, h: Hash)
    requires 64 * k + 64 <= size <= |b|
    requires h == DoubleHash(b[64 * k..64 * k + 64]) && b' == b[..32 * k] + h + b[32 * k + 32..]
    requires Halfway(b, before, size, k)
    ensures Halfway(b', before, size, k + 1)
  {
    hide DoubleHash, Parents, Done, HashesOf;
    var above := Parents(HashesOf(before[..size]));
    TailKept(b, b', before, h, 32 * k, 64 * k);
    PairIsParent(before, size, k);
    OneMore(b, b', h, above, k);
  }

  /** Writing at d leaves what lies behind src + 64 alone, where d is not behind src. */
  lemma TailKept(b: seq<byte>, b': seq<byte>, before: seq<byte>, h: Hash, d: nat, src: nat)
    requires d <= src && src + 64 <= |b| == |before| && b[src..] == before[src..]
    requires b' == b[..d] + h + b[d + 32..]
    ensures |b'| == |b| && b'[src + 64..] == before[src + 64..] && b[src..src + 64] == before[src..src + 64]
  {
    assert b'[src + 64..] == b[src + 64..] == b[src..][64..];
    assert before[src + 64..] == before[src..][64..];
    assert b[src..src + 64] == b[src..][..64] && before[src..src + 64] == before[src..][..64];
  }

  /** One level in place: every pair is read before anything is written over it. */
  method HashLevel(hasher: CSHA256, hashes: array<byte>, size: nat)
    requires hasher.Valid() && hashes != hasher.buf
    requires size % 64 == 0 && 0 < size <= hashes.Length
    modifies hasher, hasher.s, hasher.buf, hashes
    ensures hasher.Valid()
    ensures HashesOf(hashes[..size / 2]) == Parents(HashesOf(old(hashes[..size])))
  {
    hide DoubleHash, Parents, HashesOf, Halfway, CSHA256.Valid;
    var dst, src, end := 0, 0, size;
    ghost var before, k := hashes[..], 0;
    assert before[..size] == hashes[..size];
    NothingDone(before, size);
    while true
      invariant src == 64 * k && dst == 32 * k && src < end
      invariant hasher.Valid()
      invariant Halfway(hashes[..], before, size, k)
      decreases end - src
    {
      ghost var b := hashes[..];
      assert hashes[src..src + 64] == b[src..src + 64] && hashes[..dst] == b[..dst] &&
        hashes[dst + 32..] == b[dst + 32..];
      HashPair(hasher, hashes, src, dst);
      NextPair(b, hashes[..], before, size, k, DoubleHash(b[64 * k..64 * k + 64]));
      src := src + 64;
      dst := dst + 32;
      k := k + 1;
      if src >= end { break; }
    }
    AllDone(hashes[..], before, size, k);
    assert hashes[..size / 2] == hashes[..][..32 * k];
  }

  lemma NothingDone(b: seq<byte>, size: nat)
    requires size % 64 == 0 && size <= |b|
    ensures Halfway(b, b, size, 0)
  {
  }

  lemma AllDone(b: seq<byte>, before: seq<byte>, size: nat, k: nat)
    requires Halfway(b, before, size, k) && 64 * k >= size
    ensures 32 * k == size / 2 && HashesOf(b[..32 * k]) == Parents(HashesOf(before[..size]))
  {
    hide Parents;
    HashCount(before[..size]);
    forall j | 0 <= j < k ensures HashAt(b[..32 * k], j) == HashAt(b, j) {
      HashOfPrefix(b, 32 * k, j);
    }
  }

  lemma HashesAppend(b: seq<byte>, h: Hash)
    requires |b| % 32 == 0
    ensures HashesOf(b + h) == HashesOf(b) + [h]
  {
    hide HashAt;
    var n := |b| / 32;
    forall k | 0 <= k < n ensures HashAt(b + h, k) == HashAt(b, k) {
      assert (b + h)[..|b|] == b;
      HashOfPrefix(b + h, |b|, k);
    }
    HashOfPrefix(b + h, |b| + 32, n);
    assert (b + h)[32 * n..32 * n + 32] == h;
  }

  /** An odd level gets its last hash once more. */
  lemma AppendLast(b: seq<byte>, n: nat)
    requires |b| == 32 * n && n % 2 == 1
    ensures Parents(HashesOf(b + b[|b| - 32..])) == Parents(HashesOf(b))
  {
    hide Parents, HashesOf, HashAt;
    var h: Hash := b[|b| - 32..];
    HashesAppend(b, h);
    HashesAt(b, n - 1);
    HashOfPrefix(b, |b|, n - 1);
    assert b[..|b|] == b && b[32 * (n - 1)..32 * (n - 1) + 32] == h;
    HashCount(b);
    LastTwice(HashesOf(b));
  }

  /** The body of the outer loop: an odd level is made even first. */
  method ReduceLevel(hasher: CSHA256, hashes: array<byte>, size: nat) returns (size': nat)
    requires hasher.Valid() && hashes != hasher.buf
    requires size % 32 == 0 && 32 < size && size + 32 <= hashes.Length
    modifies hasher, hasher.s, hasher.buf, hashes
    ensures hasher.Valid() && size' < size && size' % 32 == 0 && size' > 0
    ensures HashesOf(hashes[..size']) == Parents(HashesOf(old(hashes[..size])))
  {
    hide Parents, HashesOf, CSHA256.Valid;
    ghost var b := hashes[..size];
    size' := size;
    EvenLevel(size);
    if size / 32 % 2 == 1 {
      AppendLast(b, size / 32);
      CopyLast(hashes, size);
      size' := size + 32;
      assert hashes[..size'] == b + b[|b| - 32..];
    }
    HalfLevel(size');
    HashLevel(hasher, hashes, size');
    size' := size' / 2;
  }

  lemma EvenLevel(size: nat)
    requires size % 32 == 0
    ensures if size / 32 % 2 == 1 then (size + 32) % 64 == 0 else size % 64 == 0
  {
  }

  lemma HalfLevel(size: nat)
    requires size % 64 == 0
    ensures size / 2 % 32 == 0
  {
  }

  /** std::copy of the last hash to the end. */
  method CopyLast(hashes: array<byte>, size: nat)
    requires 32 <= size && size + 32 <= hashes.Length
    modifies hashes
    ensures hashes[..size + 32] == old(hashes[..size] + hashes[size - 32..size])
  {
    forall i | 0 <= i < 32 {
      hashes[size + i] := hashes[size - 32 + i];
    }
  }

  /** The vector is a buffer with room for one hash more, and its size. */
  method MerkleRoot(leaves: seq<byte>) returns (root: Hash)
    requires |leaves| % 32 == 0
    ensures root == Root(HashesOf(leaves))
  {
    hide Parents, HashesOf, Root, CSHA256.Valid;
    var hashes := new byte[|leaves| + 32](i => if 0 <= i < |leaves| then leaves[i] else 0);
    var size := |leaves|;
    var hasher := new CSHA256();
    assert hashes[..size] == leaves;
    while size > 32
      invariant size % 32 == 0 && 0 <= size <= |leaves| && |leaves| + 32 == hashes.Length
      invariant hasher.Valid() && hashes != hasher.buf && fresh(hasher) && fresh(hasher.s) && fresh(hasher.buf)
      invariant Root(HashesOf(hashes[..size])) == Root(HashesOf(leaves))
      decreases size
    {
      LevelShrinks(hashes[..size]);
      size := ReduceLevel(hasher, hashes, size);
    }
    root := Zeroes(32);
    RootOfOne(hashes[..size]);
    if size > 0 {
      root := hashes[..32];
    }
  }

  lemma LevelShrinks(b: seq<byte>)
    requires |b| % 32 == 0 && |b| > 32
    ensures Root(HashesOf(b)) == Root(Parents(HashesOf(b)))
  {
    hide Parents;
  }

  lemma RootOfOne(b: seq<byte>)
    requires |b| == 0 || |b| == 32
    ensures Root(HashesOf(b)) == if b == [] then Zeroes(32) else b
  {
  }

  // ---------------------------------------------------------------- the leaves

  /** The double hash of every serialised item, one after the other. */
  method MerkleLeaves(items: seq<seq<byte>>) returns (hashes: seq<byte>)
    ensures |hashes| == 32 * |items|
    ensures HashesOf(hashes) == seq(|items|, i requires 0 <= i < |items| => DoubleHash(items[i]))
  {
    hide DoubleHash;
    hashes := [];
    for i := 0 to |items|
      invariant |hashes| == 32 * i
      invariant forall j | 0 <= j < i :: HashAt(hashes, j) == DoubleHash(items[j])
    {
      var h := Leaf(items[i]);
      ghost var before := hashes;
      hashes := hashes + h;
      assert HashAt(hashes, i) == h;
      forall j | 0 <= j < i ensures HashAt(hashes, j) == HashAt(before, j) {
      }
    }
  }

  /** One item through a stream of its own. */
  method Leaf(item: seq<byte>) returns (h: seq<byte>)
    ensures h == DoubleHash(item)
  {
    hide Sha256, HashStreamBuffer.Valid;
    var hs := new HashStreamBuffer();
    var data := new byte[|item|](k requires 0 <= k < |item| => item[k]);
    assert data[0..|item|] == item;
    var r := hs.Xsputn(data, 0, |item|);
    assert hs.message == item;
    var digest := hs.Digest();
    h := digest[..];
  }
}
