/** The locked-memory arena: best-fit allocation with coalescing over four indexes. */
module Arena {
  import opened Wrappers
  import Power
  import Radix
  import opened Tiling

  const WORD: nat := 0x1_0000_0000_0000_0000

  // ---------------------------------------------------------------- rounding

  /** A power of two below the word size, as any alignment is. */
  predicate IsAlignment(align: nat) {
    0 < align < WORD && WORD % align == 0
  }

  /** Exactly the powers of two from 2^0 to 2^63. */
  lemma AlignmentsArePowers(align: nat)
    ensures IsAlignment(align) <==> exists k: nat :: k < 64 && align == Power.Pow(2, k)
  {
    WordIsPower();
    if IsAlignment(align) {
      var q := Quotient(WORD, align);
      var k := DivisorOfPower(align, q, 64);
      assert k < 64;
    }
    if k: nat :| k < 64 && align == Power.Pow(2, k) {
      hide Power.Pow;
      Power.PowAdd(2, k, 64 - k);
      Power.PowMonoExp(2, 0, k);
      Power.PowMonoExp(2, 1, 64 - k);
      OneAndTwo();
      var q := Power.Pow(2, 64 - k);
      MulMod(align, q);
      Larger(align, q);
    }
  }

  lemma Larger(a: nat, q: nat)
    requires a > 0 && q >= 2
    ensures a < a * q
  {
  }

  lemma OneAndTwo()
    ensures Power.Pow(2, 0) == 1 && Power.Pow(2, 1) == 2
  {
  }

  lemma WordIsPower()
    ensures Power.Pow(2, 64) == WORD
  {
    assert Power.Pow(2, 8) == 0x100;
    Power.PowAdd(2, 8, 8);
    Power.PowAdd(2, 16, 16);
    Power.PowAdd(2, 32, 32);
  }

  /** What divides a power of two is one. */
  lemma {:induction false} DivisorOfPower(a: nat, q: nat, n: nat) returns (k: nat)
    requires a * q == Power.Pow(2, n)
    ensures k <= n && a == Power.Pow(2, k)
    decreases n
  {
    if n == 0 {
      k := 0;
      UnitFactors(a, q);
    } else if a % 2 == 0 {
      Halve(a, q, Power.Pow(2, n - 1));
      k := DivisorOfPower(a / 2, q, n - 1);
      k := k + 1;
    } else {
      OddFactor(a, q);
      Halve(q, a, Power.Pow(2, n - 1));
      k := DivisorOfPower(a, q / 2, n - 1);
    }
  }

  lemma UnitFactors(a: nat, q: nat)
    requires a * q == 1
    ensures a == 1
  {
    if a > 1 {
      assert q > 0;
      Power.MulMono(2, a, 1, q);
    }
  }

  lemma Halve(a: nat, q: nat, p: nat)
    requires a % 2 == 0 && a * q == 2 * p
    ensures a / 2 * q == p
  {
    assert a == 2 * (a / 2);
    assert 2 * (a / 2) * q == 2 * (a / 2 * q);
  }

  lemma OddFactor(a: nat, q: nat)
    requires a % 2 == 1 && a * q % 2 == 0
    ensures q % 2 == 0 && q * a == a * q
  {
    if q % 2 == 1 {
      OddProduct(a, q);
    }
  }

  lemma OddProduct(a: nat, q: nat)
    requires a % 2 == 1 && q % 2 == 1
    ensures a * q % 2 == 1
  {
    var b, r := a / 2, q / 2;
    assert a == 2 * b + 1 && q == 2 * r + 1;
    assert a * q == 2 * (2 * b * r + b + r) + 1;
  }

  /** (x + align - 1) & ~(align - 1) on size_t: the sum wraps, then the low bits are cleared. */
  function AlignUp(x: nat, align: nat): (r: nat)
    requires IsAlignment(align) && x < WORD
  {
    var sum := (x + align - 1) % WORD;
    sum - sum % align
  }

  /** The least multiple of align that is at least x, in unbounded arithmetic. */
  ghost predicate IsRounded(r: nat, x: nat, align: nat)
    requires align > 0
  {
    r % align == 0 && x <= r < x + align
  }

  /** Rounding is exact, except that a request too close to the word size comes out as zero
      where it should be the word size itself. */
  lemma AlignUpRounds(x: nat, align: nat)
    requires IsAlignment(align) && x < WORD
    ensures x + align - 1 < WORD ==> IsRounded(AlignUp(x, align), x, align) && AlignUp(x, align) < WORD
    ensures x + align - 1 >= WORD ==> AlignUp(x, align) == 0 && IsRounded(WORD, x, align)
  {
    var y := x + align - 1;
    if y < WORD {
      ModFloor(y, align);
    } else {
      assert y - WORD < align;
      assert y % WORD == y - WORD;
    }
  }

  lemma ModFloor(y: nat, align: nat)
    requires align > 0
    ensures (y - y % align) % align == 0 && y - align < y - y % align <= y
  {
    assert y - y % align == align * (y / align);
    MulMod(align, y / align);
  }

  lemma MulMod(align: nat, q: nat)
    requires align > 0
    ensures (align * q) % align == 0
  {
    Radix.DivModUnique(q, 0, align);
    Power.Commute(align, q);
  }

  lemma Quotient(a: nat, m: nat) returns (q: nat)
    requires m > 0 && a % m == 0
    ensures a == m * q
  {
    q := a / m;
  }

  lemma ModSub(a: nat, b: nat, m: nat)
    requires m > 0 && a % m == 0 && b % m == 0 && b <= a
    ensures (a - b) % m == 0
  {
    var q := Quotient(a, m);
    var r := Quotient(b, m);
    if q < r {
      Power.MulMono(m, m, q + 1, r);
    } else {
      MulMod(m, q - r);
      assert m * (q - r) == m * q - m * r;
    }
  }

  // ---------------------------------------------------------------- the index by size

  /** A node of the multimap; iterators are references to it. */
  class Node {
    const size: nat
    const ptr: nat

    constructor (size: nat, ptr: nat)
      ensures this.size == size && this.ptr == ptr
    {
      this.size := size;
      this.ptr := ptr;
    }
  }

  ghost predicate Sorted(s: seq<Node>) {
    forall i, j | 0 <= i < j < |s| :: s[i].size <= s[j].size
  }

  ghost predicate NoDuplicates(s: seq<Node>) {
    forall i, j | 0 <= i < j < |s| :: s[i] != s[j]
  }

  /** First node whose key is not less than size. */
  function LowerBound(s: seq<Node>, size: nat): (i: nat)
    ensures i <= |s| && (i < |s| ==> s[i].size >= size)
    ensures forall j | 0 <= j < i :: s[j].size < size
  {
    if s == [] || s[0].size >= size then 0 else 1 + LowerBound(s[1..], size)
  }

  /** First node whose key is greater than size. */
  function UpperBound(s: seq<Node>, size: nat): (i: nat)
    ensures i <= |s| && (i < |s| ==> s[i].size > size)
    ensures forall j | 0 <= j < i :: s[j].size <= size
  {
    if s == [] || s[0].size > size then 0 else 1 + UpperBound(s[1..], size)
  }

  /** multimap::emplace: behind the nodes with the same key. */
  function Emplace(s: seq<Node>, n: Node): (r: seq<Node>) {
    s[..UpperBound(s, n.size)] + [n] + s[UpperBound(s, n.size)..]
  }

  /** multimap::erase of one iterator. */
  function Erase(s: seq<Node>, n: Node): (r: seq<Node>) {
    if s == [] then [] else if s[0] == n then s[1..] else [s[0]] + Erase(s[1..], n)
  }

  lemma EmplaceKeeps(s: seq<Node>, n: Node)
    requires Sorted(s) && NoDuplicates(s) && n !in s
    ensures Sorted(Emplace(s, n)) && NoDuplicates(Emplace(s, n))
    ensures forall x | x in Emplace(s, n) :: x == n || x in s
    ensures forall x | x in s :: x in Emplace(s, n)
    ensures n in Emplace(s, n)
  {
    hide UpperBound;
    var u := UpperBound(s, n.size);
    InsertedOrder(s, n, u, Emplace(s, n));
    InsertedMembers(s, n, u, Emplace(s, n));
  }

  lemma InsertedOrder(s: seq<Node>, n: Node, u: nat, e: seq<Node>)
    requires Sorted(s) && NoDuplicates(s) && n !in s && u <= |s| && e == s[..u] + [n] + s[u..]
    requires (forall j | 0 <= j < u :: s[j].size <= n.size) && (u < |s| ==> s[u].size > n.size)
    ensures Sorted(e) && NoDuplicates(e)
  {
    forall i, j | 0 <= i < j < |e| ensures e[i].size <= e[j].size && e[i] != e[j] {
      assert e[i] == if i < u then s[i] else if i == u then n else s[i - 1];
      assert e[j] == if j < u then s[j] else if j == u then n else s[j - 1];
    }
  }

  lemma InsertedMembers(s: seq<Node>, n: Node, u: nat, e: seq<Node>)
    requires u <= |s| && e == s[..u] + [n] + s[u..]
    ensures forall x :: x in e <==> x == n || x in s
  {
    assert s == s[..u] + s[u..];
  }

  /** Where the erased node was. */
  lemma {:induction false} EraseAt(s: seq<Node>, n: Node) returns (k: nat)
    requires n in s
    ensures k < |s| && s[k] == n && Erase(s, n) == s[..k] + s[k + 1..]
  {
    if s[0] == n {
      k := 0;
    } else {
      assert s == [s[0]] + s[1..];
      k := EraseAt(s[1..], n);
      k := k + 1;
      assert s[..k] == [s[0]] + s[1..][..k - 1];
    }
  }

  lemma EraseKeeps(s: seq<Node>, n: Node)
    requires Sorted(s) && NoDuplicates(s) && n in s
    ensures Sorted(Erase(s, n)) && NoDuplicates(Erase(s, n)) && n !in Erase(s, n)
    ensures forall x | x in Erase(s, n) :: x in s
    ensures forall x | x in s && x != n :: x in Erase(s, n)
  {
    hide Erase;
    var k := EraseAt(s, n);
    var e := Erase(s, n);
    forall x | x in s && x != n ensures x in e {
      var i :| 0 <= i < |s| && s[i] == x;
      assert e[if i < k then i else i - 1] == x;
    }
  }

  /** The sorted nodes are those the index by start refers to. */
  ghost predicate SizeIndex(s: seq<Node>, free: map<nat, Node>) {
    && Sorted(s) && NoDuplicates(s)
    && (forall n | n in s :: n.ptr in free && free[n.ptr] == n)
    && (forall a | a in free :: free[a] in s && free[a].ptr == a)
  }

  /** A smallest sufficient chunk, if there is one. */
  lemma LowerBoundIsBestFit(s: seq<Node>, size: nat)
    requires Sorted(s)
    ensures var i := LowerBound(s, size);
      && (i < |s| ==> s[i].size >= size && forall n | n in s && n.size >= size :: s[i].size <= n.size)
      && (i == |s| ==> forall n | n in s :: n.size < size)
  {
  }

  lemma EraseFromIndex(s: seq<Node>, free: map<nat, Node>, n: Node)
    requires SizeIndex(s, free) && n in s
    ensures SizeIndex(Erase(s, n), free - {n.ptr}) && forall x | x in Erase(s, n) :: x in s
  {
    EraseKeeps(s, n);
  }

  lemma EmplaceInIndex(s: seq<Node>, free: map<nat, Node>, n: Node)
    requires SizeIndex(s, free) && n !in s && n.ptr !in free
    ensures SizeIndex(Emplace(s, n), free[n.ptr := n])
  {
    EmplaceKeeps(s, n);
  }

  /** A node makes way for one with the same start, inserted first and erased afterwards. */
  lemma ReplaceInIndex(s: seq<Node>, free: map<nat, Node>, n: Node, r: Node)
    requires SizeIndex(s, free) && n in s && r !in s && r.ptr == n.ptr
    ensures SizeIndex(Erase(Emplace(s, r), n), free[r.ptr := r])
  {
    hide Emplace, Erase;
    EmplaceKeeps(s, r);
    EraseKeeps(Emplace(s, r), n);
  }

  /** The indexes by start and by end refer to one node for each free chunk, given by its size and
      by the start for its end. */
  ghost predicate AddressIndexes(free: map<nat, Node>, freeEnd: map<nat, Node>, sizes: map<nat, nat>,
      starts: map<nat, nat>) {
    && free.Keys == sizes.Keys && freeEnd.Keys == starts.Keys
    && (forall a | a in sizes :: free[a].size == sizes[a])
    && (forall e | e in starts ::
      starts[e] in sizes && starts[e] + sizes[starts[e]] == e && freeEnd[e] == free[starts[e]])
  }

  lemma TakeWhole(free: map<nat, Node>, freeEnd: map<nat, Node>, sizes: map<nat, nat>, starts: map<nat, nat>, p: nat)
    requires AddressIndexes(free, freeEnd, sizes, starts) && p in sizes
    ensures var e := p + sizes[p];
      AddressIndexes(free - {p}, freeEnd - {e}, (sizes - {p}) + map[], (starts - {e}) + map[])
  {
  }

  lemma TakePart(free: map<nat, Node>, freeEnd: map<nat, Node>, sizes: map<nat, nat>, starts: map<nat, nat>, p: nat,
      it: Node)
    requires AddressIndexes(free, freeEnd, sizes, starts) && p in sizes && p + it.size !in starts
    ensures var e := p + sizes[p];
      AddressIndexes(free[p := it], (freeEnd - {e})[p + it.size := it],
                     (sizes - {p}) + map[p := it.size], (starts - {e}) + map[p + it.size := p])
  {
  }

  /** A chunk is given back: the node in front of it and the one behind it, if any, make way for one
      node over the whole stretch. before is the start of the freed chunk when the chunk ending there
      is free, after its end when the chunk starting there is. */
  lemma GiveBack(free: map<nat, Node>, freeEnd: map<nat, Node>, sizes: map<nat, nat>, starts: map<nat, nat>,
                 before: Option<nat>, after: Option<nat>, m: Chunk, it: Node)
    requires AddressIndexes(free, freeEnd, sizes, starts) && Merging(sizes, starts, before, after, m)
    requires it.ptr == m.start && it.size == m.size
    ensures AddressIndexes((free - Keys(after))[m.start := it], (freeEnd - Keys(before))[EndOf(m) := it],
                           (sizes - (StartOf(starts, before) + Keys(after))) + map[m.start := m.size],
                           (starts - (Keys(before) + (if after.Some? then {EndOf(m)} else {}))) +
                             map[EndOf(m) := m.start])
  {
  }

  /** m reaches from the free chunk that ends at before to the end of the one that starts at after. */
  ghost predicate Merging(sizes: map<nat, nat>, starts: map<nat, nat>, before: Option<nat>, after: Option<nat>,
      m: Chunk) {
    && (if before.Some? then before.value in starts && starts[before.value] == m.start else m.start !in sizes)
    && (after.Some? ==> after.value in sizes && after.value + sizes[after.value] == EndOf(m) && after.value != m.start)
  }

  function Keys(k: Option<nat>): (r: set<nat>) {
    if k.Some? then {k.value} else {}
  }

  function StartOf(starts: map<nat, nat>, e: Option<nat>): (r: set<nat>) {
    if e.Some? && e.value in starts then {starts[e.value]} else {}
  }

  // ---------------------------------------------------------------- the arena

  datatype Stats = Stats(used: nat, free: nat, total: nat, chunksUsed: nat, chunksFree: nat)

  class Arena {
    const base: nat
    const end: nat
    const alignment: nat
    var sizeToFreeChunk: seq<Node>
    var chunksFree: map<nat, Node>
    var chunksFreeEnd: map<nat, Node>
    var chunksUsed: map<nat, nat>
    /** The row of chunks the four indexes describe. */
    ghost var tiles: seq<Chunk>

    ghost predicate Valid()
      reads this
    {
      && IsAlignment(alignment) && base < end < WORD
      && Row(tiles, base, end)
      && chunksUsed == UsedBy(tiles)
      && SizeIndex(sizeToFreeChunk, chunksFree)
      && AddressIndexes(chunksFree, chunksFreeEnd, FreeBy(tiles), FreeByEnd(tiles))
      && (base % alignment == 0 && end % alignment == 0 ==> Aligned(tiles, alignment))
    }

    constructor (base: nat, size: nat, alignment: nat)
      requires IsAlignment(alignment) && size > 0 && base + size < WORD
      ensures Valid() && tiles == [Chunk(base, size, false)]
      ensures this.base == base && end == base + size && this.alignment == alignment
    {
      this.base, this.end, this.alignment := base, base + size, alignment;
      var it := new Node(size, base);
      sizeToFreeChunk := [it];
      chunksFree := map[base := it];
      chunksFreeEnd := map[base + size := it];
      chunksUsed := map[];
      tiles := [Chunk(base, size, false)];
      new;
      SmallRows(base, size, size);
      assert it.ptr == base;
    }

    /** The row index of the free chunk a node stands for. */
    lemma NodeChunk(n: Node) returns (k: nat)
      requires Valid() && n in sizeToFreeChunk
      ensures k < |tiles| && tiles[k] == Chunk(n.ptr, n.size, false)
    {
      hide Tiled, FreeBy;
      FreeByIs(tiles, base, end);
      k :| 0 <= k < |tiles| && !tiles[k].used && tiles[k].start == n.ptr;
    }

    /** Null exactly when no free chunk has the rounded size; otherwise the end of a smallest
        sufficient chunk becomes a used chunk. */
    method Alloc(size: nat) returns (ptr: Option<nat>, ghost k: nat)
      requires Valid() && size < WORD
      modifies this
      ensures Valid()
      ensures ptr.None? <==> NothingFits(old(tiles), AlignUp(size, alignment))
      ensures ptr.None? ==> tiles == old(tiles)
      ensures Served(old(tiles), Ask(size), tiles, alignment)
      ensures ptr.Some? ==> var n := AlignUp(size, alignment);
        && BestFit(old(tiles), k, n) && tiles == AllocAt(old(tiles), k, n) && ptr.value == EndOf(old(tiles)[k]) - n
      ensures ptr.Some? && base % alignment == 0 && end % alignment == 0 ==> ptr.value % alignment == 0
    {
      hide Tiled, FreeBy, FreeByEnd, UsedBy, AlignUp, AllocAt, Aligned;
      AlignUpRounds(size, alignment);
      k := 0;
      var rounded := AlignUp(size, alignment);
      if rounded == 0 {
        return None, k;
      }
      BestNode(rounded);
      var i := LowerBound(sizeToFreeChunk, rounded);
      if i == |sizeToFreeChunk| {
        return None, k;
      }
      var node := sizeToFreeChunk[i];
      k := NodeChunk(node);
      TakeFrom(node, rounded, k);
      return Some(node.ptr + (node.size - rounded)), k;
    }

    lemma BestNode(n: nat)
      requires Valid() && n > 0
      ensures var i := LowerBound(sizeToFreeChunk, n);
        && (i == |sizeToFreeChunk| <==> NothingFits(tiles, n))
        && (i < |sizeToFreeChunk| ==>
              sizeToFreeChunk[i].size >= n
              && forall a | a in FreeBy(tiles) && FreeBy(tiles)[a] >= n :: sizeToFreeChunk[i].size <= FreeBy(tiles)[a])
    {
      hide Tiled, FreeBy, FreeByEnd, UsedBy, LowerBound;
      LowerBoundIsBestFit(sizeToFreeChunk, n);
      var i := LowerBound(sizeToFreeChunk, n);
      if i < |sizeToFreeChunk| {
        var node := sizeToFreeChunk[i];
        assert node in sizeToFreeChunk;
        assert node.ptr in FreeBy(tiles) && FreeBy(tiles)[node.ptr] == node.size;
      }
      forall a | a in FreeBy(tiles) && FreeBy(tiles)[a] >= n
        ensures i < |sizeToFreeChunk| && sizeToFreeChunk[i].size <= FreeBy(tiles)[a]
      {
        assert chunksFree[a] in sizeToFreeChunk;
      }
    }

    /** The updates of alloc once a node is picked. */
    method TakeFrom(node: Node, size: nat, ghost k: nat)
      requires Valid() && node in sizeToFreeChunk && 0 < size <= node.size
      requires k < |tiles| && tiles[k] == Chunk(node.ptr, node.size, false) && size % alignment == 0
      modifies this
      ensures Valid() && tiles == AllocAt(old(tiles), k, size)
      ensures base % alignment == 0 && end % alignment == 0 ==> (node.ptr + node.size - size) % alignment == 0
    {
      hide Aligned, IsAlignment, Tiled, FreeBy, FreeByEnd, UsedBy, Emplace, Erase, AllocAt, SizeIndex,
        AddressIndexes, Row;
      ghost var r := AllocAt(tiles, k, size);
      TakeAligned(node, size, k);
      TakeRow(node, size, k, r);
      TakeFacts(node, size, k, r);
      var remaining := node.size - size;
      chunksUsed := chunksUsed[node.ptr + remaining := size];
      chunksFreeEnd := chunksFreeEnd - {node.ptr + node.size};
      if node.size == size {
        chunksFree := chunksFree - {node.ptr};
      } else {
        var it := new Node(remaining, node.ptr);
        assert it !in sizeToFreeChunk;
        ReplaceInIndex(sizeToFreeChunk, chunksFree, node, it);
        TakePart(chunksFree, old(chunksFreeEnd), FreeBy(tiles), FreeByEnd(tiles), node.ptr, it);
        sizeToFreeChunk := Emplace(sizeToFreeChunk, it);
        chunksFree := chunksFree[node.ptr := it];
        chunksFreeEnd := chunksFreeEnd[node.ptr + remaining := it];
      }
      sizeToFreeChunk := Erase(sizeToFreeChunk, node);
      tiles := r;
    }

    /** The row after the allocation, and what changes in its views. */
    lemma TakeRow(node: Node, size: nat, k: nat, r: seq<Chunk>)
      requires Valid() && 0 < size <= node.size
      requires k < |tiles| && tiles[k] == Chunk(node.ptr, node.size, false) && r == AllocAt(tiles, k, size)
      ensures Row(r, base, end) && UsedBy(r) == chunksUsed[node.ptr + (node.size - size) := size]
      ensures node.size > size ==> node.ptr + (node.size - size) !in FreeByEnd(tiles)
      ensures FreeBy(r) == (FreeBy(tiles) - {node.ptr}) +
        (if node.size == size then map[] else map[node.ptr := node.size - size])
      ensures FreeByEnd(r) == (FreeByEnd(tiles) - {node.ptr + node.size})
                              + (if node.size == size then map[] else map[node.ptr + (node.size - size) := node.ptr])
    {
      hide Tiled, FreeBy, FreeByEnd, UsedBy, AllocAt, NoAdjacentFree, SizeIndex, AddressIndexes, Aligned;
      AllocKeepsRow(tiles, k, size, r, base, end);
      assert UsedBy(r) == (chunksUsed - {}) + map[node.ptr + (node.size - size) := size];
      if size < node.size {
        InsideIsNoEnd(tiles, base, end, k, node.ptr + (node.size - size));
      }
    }

    lemma TakeAligned(node: Node, size: nat, k: nat)
      requires Valid() && 0 < size <= node.size && size % alignment == 0
      requires k < |tiles| && tiles[k] == Chunk(node.ptr, node.size, false)
      ensures base % alignment == 0 && end % alignment == 0 ==>
        Aligned(AllocAt(tiles, k, size), alignment) && (node.ptr + node.size - size) % alignment == 0
    {
      hide Row, FreeBy, FreeByEnd, UsedBy, AllocAt, SizeIndex, AddressIndexes, Aligned;
      if base % alignment == 0 && end % alignment == 0 {
        AllocKeepsAligned(tiles, k, size, base, end, alignment);
      }
    }

    /** A node that is used up leaves the indexes in step with the row. */
    lemma TakeFacts(node: Node, size: nat, k: nat, r: seq<Chunk>)
      requires Valid() && node in sizeToFreeChunk && 0 < size <= node.size && size % alignment == 0
      requires k < |tiles| && tiles[k] == Chunk(node.ptr, node.size, false) && r == AllocAt(tiles, k, size)
      ensures node.ptr in FreeBy(tiles) && FreeBy(tiles)[node.ptr] == node.size
      ensures node.size == size ==>
        SizeIndex(Erase(sizeToFreeChunk, node), chunksFree - {node.ptr})
        && AddressIndexes(chunksFree - {node.ptr}, chunksFreeEnd - {node.ptr + node.size}, FreeBy(r), FreeByEnd(r))
    {
      hide Tiled, FreeBy, FreeByEnd, UsedBy, Emplace, Erase, AllocAt, NoAdjacentFree, SizeIndex, AddressIndexes,
        Aligned;
      NodeEntry(node);
      if node.size == size {
        TakeRow(node, size, k, r);
        EraseFromIndex(sizeToFreeChunk, chunksFree, node);
        TakeWhole(chunksFree, chunksFreeEnd, FreeBy(tiles), FreeByEnd(tiles), node.ptr);
      }
    }

    lemma NodeEntry(node: Node)
      requires SizeIndex(sizeToFreeChunk, chunksFree) && node in sizeToFreeChunk
      requires AddressIndexes(chunksFree, chunksFreeEnd, FreeBy(tiles), FreeByEnd(tiles))
      ensures node.ptr in FreeBy(tiles) && FreeBy(tiles)[node.ptr] == node.size
    {
      hide FreeBy, FreeByEnd;
    }

    // -------------------------------------------------------------- free

    /** False where the source throws: the pointer is not that of a used chunk. A null pointer is ignored. */
    method Free(ptr: Option<nat>) returns (ok: bool, ghost k: nat)
      requires Valid()
      modifies this
      ensures Valid()
      ensures ok <==> ptr.None? || ptr.value in UsedBy(old(tiles))
      ensures !ok || ptr.None? ==> tiles == old(tiles)
      ensures ptr.Some? ==> Served(old(tiles), Return(ptr.value), tiles, alignment)
      ensures ok && ptr.Some? ==>
        k < |old(tiles)| && old(tiles)[k].used && old(tiles)[k].start == ptr.value && tiles == FreeAt(old(tiles), k)
    {
      hide Tiled, FreeBy, FreeByEnd, UsedBy, FreeAt;
      k := 0;
      if ptr.None? {
        return true, k;
      }
      if ptr.value !in chunksUsed {
        return false, k;
      }
      k := UsedChunk(ptr.value);
      Release(ptr.value, k);
      return true, k;
    }

    lemma UsedChunk(p: nat) returns (k: nat)
      requires Valid() && p in chunksUsed
      ensures k < |tiles| && tiles[k] == Chunk(p, chunksUsed[p], true)
    {
      hide Tiled, UsedBy;
      UsedByIs(tiles, base, end);
      k :| 0 <= k < |tiles| && tiles[k].used && tiles[k].start == p;
    }

    /** The start of used chunk k as the end of the chunk before it, when that one is free. */
    ghost function Before(k: nat): (r: Option<nat>)
      reads this`tiles
    {
      if k < |tiles| && FreeBefore(tiles, k) then Some(tiles[k].start) else None
    }

    /** The end of used chunk k as the start of the chunk behind it, when that one is free. */
    ghost function After(k: nat): (r: Option<nat>)
      reads this`tiles
    {
      if k < |tiles| && FreeAfter(tiles, k) then Some(EndOf(tiles[k])) else None
    }

    /** The updates of free for a chunk that is in use. */
    method Release(ptr: nat, ghost k: nat)
      requires Valid() && ptr in chunksUsed
      requires k < |tiles| && tiles[k] == Chunk(ptr, chunksUsed[ptr], true)
      modifies this
      ensures Valid() && tiles == FreeAt(old(tiles), k)
    {
      hide Tiled, FreeBy, FreeByEnd, UsedBy, Emplace, Erase, FreeAt, Merged, SizeIndex, AddressIndexes, Row;
      hide Aligned, IsAlignment, FreeBefore, FreeAfter, Before, After, Merging, Keys, StartOf, EndOf;
      ghost var r := FreeAt(tiles, k);
      ghost var before, after, m := Before(k), After(k), Merged(tiles, k);
      ghost var sizes, starts := FreeBy(tiles), FreeByEnd(tiles);
      ReleaseFacts(ptr, k);
      ReleaseRow(ptr, k, r);
      var first, second := ptr, chunksUsed[ptr];
      chunksUsed := chunksUsed - {ptr};
      first, second := MergePrevious(first, second);
      second := MergeNext(first, second);
      AddFree(first, second, old(chunksFree), old(chunksFreeEnd), sizes, starts, before, after, m);
      tiles := r;
    }

    /** A free chunk that ends at the freed one leaves the indexes by size and by end. */
    method MergePrevious(ptr: nat, size: nat) returns (first: nat, second: nat)
      requires SizeIndex(sizeToFreeChunk, chunksFree) && ptr !in chunksFree
      requires ptr in chunksFreeEnd ==>
        var n := chunksFreeEnd[ptr]; n in sizeToFreeChunk && n.ptr + n.size == ptr
      modifies this`sizeToFreeChunk, this`chunksFreeEnd
      ensures SizeIndex(sizeToFreeChunk, chunksFree - {first})
      ensures chunksFreeEnd == old(chunksFreeEnd) - {ptr}
      ensures first == ptr - (if ptr in old(chunksFreeEnd) then old(chunksFreeEnd)[ptr].size else 0)
      ensures first + second == ptr + size
    {
      hide SizeIndex, Erase;
      first, second := ptr, size;
      if first in chunksFreeEnd {
        var prev := chunksFreeEnd[first];
        EraseFromIndex(sizeToFreeChunk, chunksFree, prev);
        chunksFreeEnd := chunksFreeEnd - {first};
        first := first - prev.size;
        second := second + prev.size;
        sizeToFreeChunk := Erase(sizeToFreeChunk, prev);
      } else {
        assert chunksFree == chunksFree - {first} && chunksFreeEnd == chunksFreeEnd - {ptr};
      }
    }

    /** A free chunk that starts behind the stretch leaves the indexes by size and by start. */
    method MergeNext(first: nat, size: nat) returns (second: nat)
      requires SizeIndex(sizeToFreeChunk, chunksFree - {first}) && size > 0
      modifies this`sizeToFreeChunk, this`chunksFree
      ensures SizeIndex(sizeToFreeChunk, chunksFree - {first})
      ensures chunksFree == old(chunksFree) - {first + size}
      ensures second == size + if first + size in old(chunksFree) then old(chunksFree)[first + size].size else 0
    {
      hide SizeIndex, Erase;
      second := size;
      if first + second in chunksFree {
        var next := chunksFree[first + second];
        ghost var rest := chunksFree - {first};
        InIndex(sizeToFreeChunk, rest, first + second);
        EraseFromIndex(sizeToFreeChunk, rest, next);
        second := second + next.size;
        sizeToFreeChunk := Erase(sizeToFreeChunk, next);
        chunksFree := chunksFree - {next.ptr};
        assert rest - {next.ptr} == chunksFree - {first};
      } else {
        assert chunksFree == chunksFree - {first + size};
      }
    }

    /** The end of free: one node for the whole stretch goes into the three indexes. */
    method AddFree(first: nat, second: nat, ghost free: map<nat, Node>, ghost freeEnd: map<nat, Node>,
                   ghost sizes: map<nat, nat>, ghost starts: map<nat, nat>,
                   ghost before: Option<nat>, ghost after: Option<nat>, ghost m: Chunk)
      requires SizeIndex(sizeToFreeChunk, chunksFree - {first})
      requires AddressIndexes(free, freeEnd, sizes, starts) && Merging(sizes, starts, before, after, m)
      requires chunksFree == free - Keys(after) && chunksFreeEnd == freeEnd - Keys(before)
      requires m == Chunk(first, second, false)
      modifies this`sizeToFreeChunk, this`chunksFree, this`chunksFreeEnd
      ensures SizeIndex(sizeToFreeChunk, chunksFree)
      ensures AddressIndexes(chunksFree, chunksFreeEnd,
                             (sizes - (StartOf(starts, before) + Keys(after))) + map[m.start := m.size],
                             (starts - (Keys(before) + (if after.Some? then {EndOf(m)} else {}))) +
                               map[EndOf(m) := m.start])
    {
      hide Emplace, Erase, SizeIndex, AddressIndexes, Merging, Keys, StartOf;
      var it := new Node(second, first);
      InIndexNot(sizeToFreeChunk, chunksFree - {first}, it);
      EmplaceInIndex(sizeToFreeChunk, chunksFree - {first}, it);
      assert (chunksFree - {first})[first := it] == chunksFree[first := it];
      GiveBack(free, freeEnd, sizes, starts, before, after, m, it);
      sizeToFreeChunk := Emplace(sizeToFreeChunk, it);
      chunksFree := chunksFree[first := it];
      chunksFreeEnd := chunksFreeEnd[first + second := it];
    }

    // -------------------------------------------------------------- stats

    /** Used and free bytes add up to the whole arena. */
    method GetStats() returns (r: Stats)
      requires Valid()
      ensures r.used == Total(tiles, true) && r.free == Total(tiles, false)
      ensures r.used + r.free == r.total == end - base
      ensures r.chunksUsed == |chunksUsed| && r.chunksFree == |chunksFree|
    {
      hide Tiled, FreeBy, FreeByEnd, UsedBy, TotalIn, Total, AddressIndexes, SizeIndex;
      var used := SumUsed();
      var free := SumFree();
      TotalsFillTheRow(tiles, base, end);
      return Stats(used, free, used + free, |chunksUsed|, |chunksFree|);
    }

    /** The loop over the used chunks, in whatever order the map yields them. */
    method SumUsed() returns (sum: nat)
      requires Valid()
      ensures sum == Total(tiles, true)
    {
      hide Tiled, FreeBy, FreeByEnd, UsedBy, TotalIn, Total, AddressIndexes, SizeIndex;
      sum := 0;
      var left := chunksUsed.Keys;
      UsedByIs(tiles, base, end);
      TotalInAll(tiles, true, left);
      while left != {}
        invariant left <= chunksUsed.Keys && sum + TotalIn(tiles, true, left) == Total(tiles, true)
        decreases left
      {
        var a :| a in left;
        ghost var k := UsedChunk(a);
        TotalInRemove(tiles, base, end, left, k);
        sum := sum + chunksUsed[a];
        left := left - {a};
      }
      TotalInNone(tiles, true);
    }

    /** The loop over the free chunks. */
    method SumFree() returns (sum: nat)
      requires Valid()
      ensures sum == Total(tiles, false)
    {
      hide Tiled, FreeBy, FreeByEnd, UsedBy, TotalIn, Total, SizeIndex;
      sum := 0;
      var left := chunksFree.Keys;
      FreeByIs(tiles, base, end);
      TotalInAll(tiles, false, left);
      while left != {}
        invariant left <= chunksFree.Keys && sum + TotalIn(tiles, false, left) == Total(tiles, false)
        decreases left
      {
        var a :| a in left;
        ghost var k :| 0 <= k < |tiles| && !tiles[k].used && tiles[k].start == a;
        TotalInRemove(tiles, base, end, left, k);
        sum := sum + chunksFree[a].size;
        left := left - {a};
      }
      TotalInNone(tiles, false);
    }

    /** What the indexes know about the neighbours of used chunk k. */
    lemma ReleaseFacts(ptr: nat, k: nat)
      requires Valid() && ptr in chunksUsed
      requires k < |tiles| && tiles[k] == Chunk(ptr, chunksUsed[ptr], true)
      ensures Keys(Before(k)) == if ptr in chunksFreeEnd then {ptr} else {}
      ensures Keys(After(k)) == if ptr + chunksUsed[ptr] in chunksFree then {ptr + chunksUsed[ptr]} else {}
      ensures ptr in chunksFreeEnd ==>
        var n := chunksFreeEnd[ptr];
        n in sizeToFreeChunk && n.ptr + n.size == ptr
      ensures ptr + chunksUsed[ptr] in chunksFree ==> chunksFree[ptr + chunksUsed[ptr]].ptr == ptr + chunksUsed[ptr]
      ensures ptr !in chunksFree && chunksUsed[ptr] > 0
      ensures var p := if ptr in chunksFreeEnd then chunksFreeEnd[ptr].size else 0;
        var q := if ptr + chunksUsed[ptr] in chunksFree then chunksFree[ptr + chunksUsed[ptr]].size else 0;
        p <= ptr && Merged(tiles, k) == Chunk(ptr - p, p + chunksUsed[ptr] + q, false)
    {
      hide Tiled, FreeBy, FreeByEnd, UsedBy, NoAdjacentFree, Merged;
      TiledBounds(tiles, base, end);
      Neighbours(tiles, k, base, end);
      MergedSize(tiles, k, base, end);
      MergedFree(tiles, k);
      if FreeBefore(tiles, k) {
        Touch(tiles, base, end, k - 1);
      }
    }

    /** The row without used chunk k, and what merges. */
    lemma ReleaseRow(ptr: nat, k: nat, r: seq<Chunk>)
      requires Valid() && ptr in chunksUsed
      requires k < |tiles| && tiles[k] == Chunk(ptr, chunksUsed[ptr], true) && r == FreeAt(tiles, k)
      ensures Row(r, base, end) && UsedBy(r) == chunksUsed - {ptr}
      ensures base % alignment == 0 && end % alignment == 0 ==> Aligned(r, alignment)
      ensures Merging(FreeBy(tiles), FreeByEnd(tiles), Before(k), After(k), Merged(tiles, k))
      ensures var m := Merged(tiles, k);
        && FreeBy(r) == (FreeBy(tiles) - (StartOf(FreeByEnd(tiles), Before(k)) + Keys(After(k)))) +
          map[m.start := m.size]
        && FreeByEnd(r) == (FreeByEnd(tiles) - (Keys(Before(k)) + (if After(k).Some? then {EndOf(m)} else {}))) +
          map[EndOf(m) := m.start]
    {
      hide Tiled, FreeBy, FreeByEnd, UsedBy, FreeAt, Merged, NoAdjacentFree, AddressIndexes, SizeIndex, Aligned;
      if base % alignment == 0 && end % alignment == 0 {
        FreeKeepsAligned(tiles, k, alignment);
      }
      FreeKeepsRow(tiles, k, r, base, end);
      Neighbours(tiles, k, base, end);
      MergedSize(tiles, k, base, end);
      assert UsedBy(r) == (chunksUsed - {ptr}) + map[];
      if FreeBefore(tiles, k) {
        Touch(tiles, base, end, k - 1);
      }
    }
  }

  lemma MergedFree(tiles: seq<Chunk>, k: nat)
    requires k < |tiles|
    ensures !Merged(tiles, k).used
  {
  }

  lemma InIndexNot(s: seq<Node>, free: map<nat, Node>, n: Node)
    requires SizeIndex(s, free) && n.ptr !in free
    ensures n !in s
  {
  }

  lemma InIndex(s: seq<Node>, free: map<nat, Node>, a: nat)
    requires SizeIndex(s, free) && a in free
    ensures free[a] in s && free[a].ptr == a
  {
  }

  lemma AllocKeepsAligned(tiles: seq<Chunk>, k: nat, size: nat, lo: nat, hi: nat, align: nat)
    requires align > 0 && Row(tiles, lo, hi) && Aligned(tiles, align) && hi % align == 0
    requires k < |tiles| && !tiles[k].used && 0 < size <= tiles[k].size && size % align == 0
    ensures Aligned(AllocAt(tiles, k, size), align) && (EndOf(tiles[k]) - size) % align == 0
  {
    hide Tiled, NoAdjacentFree;
    EndAligned(tiles, lo, hi, align, k);
    ModSub(EndOf(tiles[k]), size, align);
    var r := AllocAt(tiles, k, size);
    var shift := |r| - |tiles|;
    forall i | 0 <= i < |r| ensures r[i].start % align == 0 {
      if i < k {
        assert r[i] == tiles[i];
      } else if i > k + shift {
        assert r[i] == tiles[i - shift];
      } else {
        assert r[i] == Cut(tiles[k], size)[i - k];
      }
    }
  }

  lemma FreeKeepsAligned(tiles: seq<Chunk>, k: nat, align: nat)
    requires align > 0 && Aligned(tiles, align) && k < |tiles|
    ensures Aligned(FreeAt(tiles, k), align)
  {
    var r, i := FreeAt(tiles, k), MergeFrom(tiles, k);
    forall j | 0 <= j < |r| ensures r[j].start % align == 0 {
      if j < i {
        assert r[j] == tiles[j];
      } else if j == i {
        assert r[j].start == tiles[i].start;
      } else {
        assert r[j] == tiles[j + |tiles| - |r|];
      }
    }
  }

  /** For a non-zero request alloc fails exactly when no free addresses in a row are as many as the
      request rounded up in unbounded arithmetic: the wrap of align_up refuses nothing that would fit. */
  lemma NullIffNoRun(tiles: seq<Chunk>, lo: nat, hi: nat, size: nat, align: nat, n: nat)
    requires Row(tiles, lo, hi) && hi < WORD && IsAlignment(align)
    requires 0 < size < WORD && IsRounded(n, size, align)
    ensures NothingFits(tiles, AlignUp(size, align)) <==> !exists x :: FreeRun(tiles, x, n)
  {
    hide Tiled, FreeBy, FreeRun, AlignUp, NoAdjacentFree;
    AlignUpRounds(size, align);
    if size + align - 1 < WORD {
      RoundedUnique(n, AlignUp(size, align), size, align);
    } else {
      RoundedUnique(n, WORD, size, align);
      forall a | a in FreeBy(tiles) ensures FreeBy(tiles)[a] < WORD {
        FreeByIs(tiles, lo, hi);
        TiledBounds(tiles, lo, hi);
      }
    }
    RunIffChunk(tiles, lo, hi, n);
  }

  lemma SmallMod(d: nat, m: nat)
    requires d < m
    ensures d % m == d
  {
  }

  lemma RoundedUnique(a: nat, b: nat, x: nat, align: nat)
    requires align > 0 && IsRounded(a, x, align) && IsRounded(b, x, align)
    ensures a == b
  {
    if a < b {
      ModSub(b, a, align);
      SmallMod(b - a, align);
    } else if b < a {
      ModSub(a, b, align);
      SmallMod(a - b, align);
    }
  }

  lemma InsideIsNoEnd(tiles: seq<Chunk>, lo: nat, hi: nat, k: nat, x: nat)
    requires Row(tiles, lo, hi) && k < |tiles| && !tiles[k].used && tiles[k].start < x < EndOf(tiles[k])
    ensures x !in FreeByEnd(tiles)
  {
    hide Tiled, FreeByEnd, NoAdjacentFree;
    FreeByEndIs(tiles, lo, hi);
    TiledBounds(tiles, lo, hi);
    if x in FreeByEnd(tiles) {
      var j :| 0 <= j < |tiles| && !tiles[j].used && EndOf(tiles[j]) == x;
      Ordered(tiles, lo, hi, j, k);
    }
  }

  ghost predicate NothingFits(tiles: seq<Chunk>, n: nat) {
    n == 0 || forall a | a in FreeBy(tiles) :: FreeBy(tiles)[a] < n
  }

  /** Free chunk k has n bytes, and no free chunk that has them is smaller. */
  ghost predicate BestFit(tiles: seq<Chunk>, k: nat, n: nat) {
    && k < |tiles| && !tiles[k].used && 0 < n <= tiles[k].size
    && forall a | a in FreeBy(tiles) && FreeBy(tiles)[a] >= n :: tiles[k].size <= FreeBy(tiles)[a]
  }

  // ---------------------------------------------------------------- whole runs

  datatype Request = Ask(size: nat) | Return(ptr: nat)

  /** What Alloc and Free promise about the row for one request. */
  ghost predicate Served(tiles: seq<Chunk>, q: Request, next: seq<Chunk>, align: nat)
    requires IsAlignment(align) && (q.Ask? ==> q.size < WORD)
  {
    match q
    case Ask(size) =>
      var n := AlignUp(size, align);
      if NothingFits(tiles, n) then next == tiles else exists k :: BestFit(tiles, k, n) && next == AllocAt(tiles, k, n)
    case Return(ptr) =>
      if ptr !in UsedBy(tiles) then next == tiles
      else exists k :: 0 <= k < |tiles| && tiles[k].used && tiles[k].start == ptr && next == FreeAt(tiles, k)
  }

  /** After any sequence of requests the chunks tile the arena exactly, no two free ones are adjacent,
      every address lies in exactly one chunk, and used and free bytes add up. */
  lemma {:induction false} EveryRun(trace: seq<seq<Chunk>>, requests: seq<Request>, base: nat, size: nat, align: nat)
    requires IsAlignment(align) && size > 0 && |trace| == |requests| + 1
    requires forall i | 0 <= i < |requests| :: requests[i].Ask? ==> requests[i].size < WORD
    requires trace[0] == [Chunk(base, size, false)]
    requires forall i | 0 <= i < |requests| :: Served(trace[i], requests[i], trace[i + 1], align)
    ensures var row := trace[|requests|];
      && Row(row, base, base + size)
      && (forall x | base <= x < base + size :: LiesInOne(row, x))
      && Total(row, true) + Total(row, false) == size
    decreases |requests|
  {
    hide AllocAt, FreeAt, Tiled, AlignUp, UsedBy, Total, LiesInOne;
    var n := |requests|;
    if n == 0 {
      SmallRows(base, size, size);
    } else {
      EveryRun(trace[..n], requests[..n - 1], base, size, align);
      ServedKeepsRow(trace[n - 1], requests[n - 1], trace[n], base, base + size, align);
    }
    TotalsFillTheRow(trace[n], base, base + size);
    AddressesLieInOne(trace[n], base, base + size);
  }

  lemma AddressesLieInOne(row: seq<Chunk>, lo: nat, hi: nat)
    requires Tiled(row, lo, hi)
    ensures forall x | lo <= x < hi :: LiesInOne(row, x)
  {
    hide Tiled;
    forall x | lo <= x < hi ensures LiesInOne(row, x) {
      var i := OneChunkPerAddress(row, lo, hi, x);
      assert Covers(row[i], x);
    }
  }

  predicate Covers(t: Chunk, x: nat) {
    t.start <= x < EndOf(t)
  }

  /** One chunk of the row, and no other, contains the address. */
  ghost predicate LiesInOne(row: seq<Chunk>, x: nat) {
    exists i :: 0 <= i < |row| && Covers(row[i], x) && forall j | 0 <= j < |row| && Covers(row[j], x) :: j == i
  }

  lemma ServedKeepsRow(tiles: seq<Chunk>, q: Request, next: seq<Chunk>, lo: nat, hi: nat, align: nat)
    requires IsAlignment(align) && (q.Ask? ==> q.size < WORD)
    requires Row(tiles, lo, hi) && Served(tiles, q, next, align)
    ensures Row(next, lo, hi)
  {
    hide AllocAt, FreeAt, Row, AlignUp, UsedBy;
    if next != tiles {
      match q
      case Ask(size) =>
        var n := AlignUp(size, align);
        var k :| BestFit(tiles, k, n) && next == AllocAt(tiles, k, n);
        AllocKeepsRow(tiles, k, n, next, lo, hi);
      case Return(ptr) =>
        var k :| 0 <= k < |tiles| && tiles[k].used && tiles[k].start == ptr && next == FreeAt(tiles, k);
        FreeKeepsRow(tiles, k, next, lo, hi);
    }
  }
}
