/** The arena as a row of adjacent chunks, and what allocating and freeing do to that row. */
module Tiling {

  datatype Chunk = Chunk(start: nat, size: nat, used: bool)

  function EndOf(c: Chunk): (r: nat) {
    c.start + c.size
  }

  /** The chunks follow each other without gap or overlap from lo to hi. */
  ghost predicate Tiled(tiles: seq<Chunk>, lo: nat, hi: nat)
    decreases tiles
  {
    if tiles == [] then lo == hi
    else tiles[0].start == lo && tiles[0].size > 0 && Tiled(tiles[1..], EndOf(tiles[0]), hi)
  }

  ghost predicate NoAdjacentFree(tiles: seq<Chunk>) {
    forall i | 0 <= i < |tiles| - 1 :: tiles[i].used || tiles[i + 1].used
  }

  ghost predicate Row(tiles: seq<Chunk>, lo: nat, hi: nat) {
    Tiled(tiles, lo, hi) && NoAdjacentFree(tiles)
  }

  // ---------------------------------------------------------------- views of a row

  /** Size of each used chunk by its start. */
  function UsedBy(tiles: seq<Chunk>): (r: map<nat, nat>) {
    if tiles == [] then map[]
    else if tiles[0].used then UsedBy(tiles[1..])[tiles[0].start := tiles[0].size] else UsedBy(tiles[1..])
  }

  /** Size of each free chunk by its start. */
  function FreeBy(tiles: seq<Chunk>): (r: map<nat, nat>) {
    if tiles == [] then map[]
    else if tiles[0].used then FreeBy(tiles[1..]) else FreeBy(tiles[1..])[tiles[0].start := tiles[0].size]
  }

  /** Start of each free chunk by its end. */
  function FreeByEnd(tiles: seq<Chunk>): (r: map<nat, nat>) {
    if tiles == [] then map[]
    else if tiles[0].used then FreeByEnd(tiles[1..]) else FreeByEnd(tiles[1..])[EndOf(tiles[0]) := tiles[0].start]
  }

  function Total(tiles: seq<Chunk>, used: bool): (r: nat) {
    if tiles == [] then 0 else (if tiles[0].used == used then tiles[0].size else 0) + Total(tiles[1..], used)
  }

  lemma {:induction false} TotalsFillTheRow(tiles: seq<Chunk>, lo: nat, hi: nat)
    requires Tiled(tiles, lo, hi)
    ensures lo + Total(tiles, true) + Total(tiles, false) == hi
  {
    if tiles != [] {
      TotalsFillTheRow(tiles[1..], EndOf(tiles[0]), hi);
    }
  }

  lemma {:induction false} TiledBounds(tiles: seq<Chunk>, lo: nat, hi: nat)
    requires Tiled(tiles, lo, hi)
    ensures lo <= hi && forall i | 0 <= i < |tiles| :: lo <= tiles[i].start < EndOf(tiles[i]) <= hi
  {
    if tiles != [] {
      TiledBounds(tiles[1..], EndOf(tiles[0]), hi);
      forall i | 0 <= i < |tiles| ensures lo <= tiles[i].start < EndOf(tiles[i]) <= hi {
        if i > 0 {
          assert tiles[i] == tiles[1..][i - 1];
        }
      }
    }
  }

  /** A row cut at any place is two rows. */
  lemma {:induction false} TiledSplit(a: seq<Chunk>, b: seq<Chunk>, lo: nat, hi: nat) returns (mid: nat)
    requires Tiled(a + b, lo, hi)
    ensures Tiled(a, lo, mid) && Tiled(b, mid, hi)
    ensures b != [] ==> mid == b[0].start
    ensures a != [] ==> mid == EndOf(a[|a| - 1])
  {
    if a == [] {
      assert a + b == b;
      mid := lo;
    } else {
      assert (a + b)[1..] == a[1..] + b;
      mid := TiledSplit(a[1..], b, EndOf(a[0]), hi);
    }
  }

  lemma {:induction false} TiledJoin(a: seq<Chunk>, b: seq<Chunk>, lo: nat, mid: nat, hi: nat)
    requires Tiled(a, lo, mid) && Tiled(b, mid, hi)
    ensures Tiled(a + b, lo, hi)
  {
    if a == [] {
      assert a + b == b;
    } else {
      assert (a + b)[1..] == a[1..] + b;
      TiledJoin(a[1..], b, EndOf(a[0]), mid, hi);
    }
  }

  /** The views of a row are the chunks of that kind, under their own addresses. */
  lemma {:induction false} UsedByIs(tiles: seq<Chunk>, lo: nat, hi: nat)
    requires Tiled(tiles, lo, hi)
    ensures forall a :: a in UsedBy(tiles) <==> exists i :: 0 <= i < |tiles| && tiles[i].used && tiles[i].start == a
    ensures forall i | 0 <= i < |tiles| && tiles[i].used ::
      tiles[i].start in UsedBy(tiles) && UsedBy(tiles)[tiles[i].start] == tiles[i].size
  {
    if tiles != [] {
      var t := tiles[1..];
      UsedByIs(t, EndOf(tiles[0]), hi);
      TiledBounds(t, EndOf(tiles[0]), hi);
      assert forall i | 0 < i < |tiles| :: tiles[i] == t[i - 1];
      assert forall i | 0 <= i < |t| :: t[i] == tiles[i + 1];
    }
  }

  lemma {:induction false} FreeByIs(tiles: seq<Chunk>, lo: nat, hi: nat)
    requires Tiled(tiles, lo, hi)
    ensures forall a :: a in FreeBy(tiles) <==> exists i :: 0 <= i < |tiles| && !tiles[i].used && tiles[i].start == a
    ensures forall i | 0 <= i < |tiles| && !tiles[i].used ::
      tiles[i].start in FreeBy(tiles) && FreeBy(tiles)[tiles[i].start] == tiles[i].size
  {
    if tiles != [] {
      var t := tiles[1..];
      FreeByIs(t, EndOf(tiles[0]), hi);
      TiledBounds(t, EndOf(tiles[0]), hi);
      assert forall i | 0 < i < |tiles| :: tiles[i] == t[i - 1];
      assert forall i | 0 <= i < |t| :: t[i] == tiles[i + 1];
    }
  }

  lemma {:induction false} FreeByEndIs(tiles: seq<Chunk>, lo: nat, hi: nat)
    requires Tiled(tiles, lo, hi)
    ensures forall a :: a in FreeByEnd(tiles) <==>
      exists i :: 0 <= i < |tiles| && !tiles[i].used && EndOf(tiles[i]) == a
    ensures forall i | 0 <= i < |tiles| && !tiles[i].used ::
      EndOf(tiles[i]) in FreeByEnd(tiles) && FreeByEnd(tiles)[EndOf(tiles[i])] == tiles[i].start
  {
    if tiles != [] {
      var t := tiles[1..];
      FreeByEndIs(t, EndOf(tiles[0]), hi);
      TiledBounds(t, EndOf(tiles[0]), hi);
      assert forall i | 0 < i < |tiles| :: tiles[i] == t[i - 1];
      assert forall i | 0 <= i < |t| :: t[i] == tiles[i + 1];
    }
  }

  /** The free chunks by start and by end are the same chunks. */
  lemma EndsMatchStarts(tiles: seq<Chunk>, lo: nat, hi: nat)
    requires Tiled(tiles, lo, hi)
    ensures forall e | e in FreeByEnd(tiles) ::
      FreeByEnd(tiles)[e] in FreeBy(tiles) && FreeByEnd(tiles)[e] + FreeBy(tiles)[FreeByEnd(tiles)[e]] == e
  {
    hide Tiled, FreeBy, FreeByEnd;
    FreeByIs(tiles, lo, hi);
    FreeByEndIs(tiles, lo, hi);
    forall e | e in FreeByEnd(tiles)
      ensures FreeByEnd(tiles)[e] in FreeBy(tiles) && FreeByEnd(tiles)[e] + FreeBy(tiles)[FreeByEnd(tiles)[e]] == e
    {
      var i :| 0 <= i < |tiles| && !tiles[i].used && EndOf(tiles[i]) == e;
      assert tiles[i].start in FreeBy(tiles);
    }
  }

  // ---------------------------------------------------------------- replacing a stretch of the row

  lemma {:induction false} UsedConcat(a: seq<Chunk>, b: seq<Chunk>)
    ensures UsedBy(a + b) == UsedBy(b) + UsedBy(a)
  {
    if a == [] {
      assert a + b == b;
    } else {
      assert (a + b)[1..] == a[1..] + b;
      UsedConcat(a[1..], b);
    }
  }

  lemma {:induction false} FreeConcat(a: seq<Chunk>, b: seq<Chunk>)
    ensures FreeBy(a + b) == FreeBy(b) + FreeBy(a)
  {
    if a == [] {
      assert a + b == b;
    } else {
      assert (a + b)[1..] == a[1..] + b;
      FreeConcat(a[1..], b);
    }
  }

  lemma {:induction false} EndConcat(a: seq<Chunk>, b: seq<Chunk>)
    ensures FreeByEnd(a + b) == FreeByEnd(b) + FreeByEnd(a)
  {
    if a == [] {
      assert a + b == b;
    } else {
      assert (a + b)[1..] == a[1..] + b;
      EndConcat(a[1..], b);
    }
  }

  lemma ViewsConcat(a: seq<Chunk>, m: seq<Chunk>, b: seq<Chunk>)
    ensures UsedBy(a + m + b) == UsedBy(b) + (UsedBy(m) + UsedBy(a))
    ensures FreeBy(a + m + b) == FreeBy(b) + (FreeBy(m) + FreeBy(a))
    ensures FreeByEnd(a + m + b) == FreeByEnd(b) + (FreeByEnd(m) + FreeByEnd(a))
  {
    UsedConcat(a, m);
    UsedConcat(a + m, b);
    FreeConcat(a, m);
    FreeConcat(a + m, b);
    EndConcat(a, m);
    EndConcat(a + m, b);
  }

  lemma MapSwap(a: map<nat, nat>, m: map<nat, nat>, n: map<nat, nat>, b: map<nat, nat>)
    requires forall k | k in m :: k !in a && k !in b
    requires forall k | k in n :: k !in a && k !in b
    ensures b + (n + a) == ((b + (m + a)) - m.Keys) + n
  {
  }

  lemma KeysInRange(tiles: seq<Chunk>, lo: nat, hi: nat)
    requires Tiled(tiles, lo, hi)
    ensures forall a | a in UsedBy(tiles) || a in FreeBy(tiles) :: lo <= a < hi
    ensures forall a | a in FreeByEnd(tiles) :: lo < a <= hi
  {
    TiledBounds(tiles, lo, hi);
    UsedByIs(tiles, lo, hi);
    FreeByIs(tiles, lo, hi);
    FreeByEndIs(tiles, lo, hi);
  }

  /** Swapping one stretch of the row for another over the same addresses swaps exactly the
      entries of that stretch in every view. */
  lemma ReplaceViews(a: seq<Chunk>, m: seq<Chunk>, n: seq<Chunk>, b: seq<Chunk>, lo: nat, x: nat, y: nat, hi: nat)
    requires Tiled(a, lo, x) && Tiled(m, x, y) && Tiled(n, x, y) && Tiled(b, y, hi)
    ensures Tiled(a + n + b, lo, hi)
    ensures UsedBy(a + n + b) == (UsedBy(a + m + b) - UsedBy(m).Keys) + UsedBy(n)
    ensures FreeBy(a + n + b) == (FreeBy(a + m + b) - FreeBy(m).Keys) + FreeBy(n)
    ensures FreeByEnd(a + n + b) == (FreeByEnd(a + m + b) - FreeByEnd(m).Keys) + FreeByEnd(n)
  {
    hide UsedBy, FreeBy, FreeByEnd, Tiled;
    TiledJoin(a, n, lo, x, y);
    TiledJoin(a + n, b, lo, y, hi);
    ViewsConcat(a, m, b);
    ViewsConcat(a, n, b);
    KeysInRange(a, lo, x);
    KeysInRange(m, x, y);
    KeysInRange(n, x, y);
    KeysInRange(b, y, hi);
    MapSwap(UsedBy(a), UsedBy(m), UsedBy(n), UsedBy(b));
    MapSwap(FreeBy(a), FreeBy(m), FreeBy(n), FreeBy(b));
    MapSwap(FreeByEnd(a), FreeByEnd(m), FreeByEnd(n), FreeByEnd(b));
  }

  /** r is the row with the stretch from i to j swapped for n. */
  ghost predicate Swapped(tiles: seq<Chunk>, i: nat, j: nat, n: seq<Chunk>, r: seq<Chunk>) {
    i < j <= |tiles| && r == tiles[..i] + n + tiles[j..]
  }

  lemma Replace(tiles: seq<Chunk>, i: nat, j: nat, n: seq<Chunk>, r: seq<Chunk>, lo: nat, hi: nat)
    requires Tiled(tiles, lo, hi) && Swapped(tiles, i, j, n, r) && Tiled(n, tiles[i].start, EndOf(tiles[j - 1]))
    ensures Tiled(r, lo, hi)
    ensures UsedBy(r) == (UsedBy(tiles) - UsedBy(tiles[i..j]).Keys) + UsedBy(n)
    ensures FreeBy(r) == (FreeBy(tiles) - FreeBy(tiles[i..j]).Keys) + FreeBy(n)
    ensures FreeByEnd(r) == (FreeByEnd(tiles) - FreeByEnd(tiles[i..j]).Keys) + FreeByEnd(n)
  {
    hide UsedBy, FreeBy, FreeByEnd, Tiled;
    var a, m, b := tiles[..i], tiles[i..j], tiles[j..];
    assert tiles == a + m + b;
    var y := TiledSplit(a + m, b, lo, hi);
    var x := TiledSplit(a, m, lo, y);
    assert (a + m)[|a + m| - 1] == m[|m| - 1] == tiles[j - 1];
    ReplaceViews(a, m, n, b, lo, x, y, hi);
  }

  // ---------------------------------------------------------------- allocating

  /** A free chunk after size bytes are taken from its end. */
  function Cut(c: Chunk, size: nat): (r: seq<Chunk>)
    requires 0 < size <= c.size
  {
    if c.size == size then [Chunk(c.start, size, true)]
    else [Chunk(c.start, c.size - size, false), Chunk(EndOf(c) - size, size, true)]
  }

  function AllocAt(tiles: seq<Chunk>, k: nat, size: nat): (r: seq<Chunk>)
    requires k < |tiles| && 0 < size <= tiles[k].size
  {
    tiles[..k] + Cut(tiles[k], size) + tiles[k + 1..]
  }

  lemma AllocKeepsRow(tiles: seq<Chunk>, k: nat, size: nat, r: seq<Chunk>, lo: nat, hi: nat)
    requires Row(tiles, lo, hi) && k < |tiles| && !tiles[k].used && 0 < size <= tiles[k].size
    requires r == AllocAt(tiles, k, size)
    ensures Row(r, lo, hi)
    ensures UsedBy(r) == (UsedBy(tiles) - {}) + map[EndOf(tiles[k]) - size := size]
    ensures FreeBy(r) == (FreeBy(tiles) - {tiles[k].start})
                         + (if tiles[k].size == size then map[] else map[tiles[k].start := tiles[k].size - size])
    ensures FreeByEnd(r) == (FreeByEnd(tiles) - {EndOf(tiles[k])})
                            + (if tiles[k].size == size then map[] else map[EndOf(tiles[k]) - size := tiles[k].start])
  {
    hide UsedBy, FreeBy, FreeByEnd, Tiled, NoAdjacentFree, Cut;
    CutViews(tiles[k], size);
    assert tiles[k..k + 1] == [tiles[k]];
    Replace(tiles, k, k + 1, Cut(tiles[k], size), r, lo, hi);
    AllocSeparates(tiles, k, size);
  }

  lemma CutViews(c: Chunk, size: nat)
    requires !c.used && 0 < size <= c.size
    ensures Tiled(Cut(c, size), c.start, EndOf(c)) && Tiled([c], c.start, EndOf(c))
    ensures UsedBy([c]).Keys == {} && FreeBy([c]).Keys == {c.start} && FreeByEnd([c]).Keys == {EndOf(c)}
    ensures UsedBy(Cut(c, size)) == map[EndOf(c) - size := size]
    ensures FreeBy(Cut(c, size)) == if c.size == size then map[] else map[c.start := c.size - size]
    ensures FreeByEnd(Cut(c, size)) == if c.size == size then map[] else map[EndOf(c) - size := c.start]
  {
    SmallRows(c.start, c.size, size);
  }

  lemma AllocSeparates(tiles: seq<Chunk>, k: nat, size: nat)
    requires NoAdjacentFree(tiles) && k < |tiles| && !tiles[k].used && 0 < size <= tiles[k].size
    ensures NoAdjacentFree(AllocAt(tiles, k, size))
  {
    var r := AllocAt(tiles, k, size);
    var shift := |r| - |tiles|;
    forall i | 0 <= i < |r| - 1 ensures r[i].used || r[i + 1].used {
      if i + 1 < k {
        assert r[i] == tiles[i] && r[i + 1] == tiles[i + 1];
      } else if i > k + shift {
        assert r[i] == tiles[i - shift] && r[i + 1] == tiles[i + 1 - shift];
      }
    }
  }

  /** The views of the rows of one or two chunks an allocation deals in. */
  lemma SmallRows(start: nat, size: nat, taken: nat)
    requires 0 < taken <= size
    ensures var c := Chunk(start, size, false);
      UsedBy([c]) == map[] && FreeBy([c]) == map[start := size] && FreeByEnd([c]) == map[start + size := start]
    ensures var u := Chunk(start, size, true);
      UsedBy([u]) == map[start := size] && FreeBy([u]) == map[] == FreeByEnd([u])
    ensures Tiled([Chunk(start, size, false)], start, start + size) &&
      Tiled([Chunk(start, size, true)], start, start + size)
    ensures taken < size ==>
      var n := [Chunk(start, size - taken, false), Chunk(start + size - taken, taken, true)];
      && Tiled(n, start, start + size) && UsedBy(n) == map[start + size - taken := taken]
      && FreeBy(n) == map[start := size - taken] && FreeByEnd(n) == map[start + size - taken := start]
  {
  }

  // ---------------------------------------------------------------- freeing

  predicate FreeBefore(tiles: seq<Chunk>, k: nat) {
    0 < k <= |tiles| && !tiles[k - 1].used
  }

  predicate FreeAfter(tiles: seq<Chunk>, k: nat) {
    k + 1 < |tiles| && !tiles[k + 1].used
  }

  /** First and past-the-end chunk that merge when used chunk k is freed. */
  function MergeFrom(tiles: seq<Chunk>, k: nat): (r: nat) {
    if FreeBefore(tiles, k) then k - 1 else k
  }

  function MergeTo(tiles: seq<Chunk>, k: nat): (r: nat) {
    if FreeAfter(tiles, k) then k + 2 else k + 1
  }

  function SizeOf(tiles: seq<Chunk>): (r: nat) {
    if tiles == [] then 0 else SizeOf(tiles[..|tiles| - 1]) + tiles[|tiles| - 1].size
  }

  function Merged(tiles: seq<Chunk>, k: nat): (r: Chunk)
    requires k < |tiles|
  {
    Chunk(tiles[MergeFrom(tiles, k)].start, SizeOf(tiles[MergeFrom(tiles, k)..MergeTo(tiles, k)]), false)
  }

  /** Used chunk k given back and merged with its free neighbours. */
  function FreeAt(tiles: seq<Chunk>, k: nat): (r: seq<Chunk>)
    requires k < |tiles|
  {
    tiles[..MergeFrom(tiles, k)] + [Merged(tiles, k)] + tiles[MergeTo(tiles, k)..]
  }

  /** Two neighbours touch. */
  lemma {:induction false} Touch(tiles: seq<Chunk>, lo: nat, hi: nat, i: nat)
    requires Tiled(tiles, lo, hi) && i + 1 < |tiles|
    ensures tiles[i + 1].start == EndOf(tiles[i])
  {
    if i > 0 {
      Touch(tiles[1..], EndOf(tiles[0]), hi, i - 1);
    }
  }

  /** The size the merged chunk gets. */
  lemma MergedSize(tiles: seq<Chunk>, k: nat, lo: nat, hi: nat)
    requires Tiled(tiles, lo, hi) && k < |tiles|
    ensures Merged(tiles, k).size == (if FreeBefore(tiles, k) then tiles[k - 1].size else 0) + tiles[k].size
                                     + (if FreeAfter(tiles, k) then tiles[k + 1].size else 0)
    ensures Merged(tiles, k).start == tiles[k].start - (if FreeBefore(tiles, k) then tiles[k - 1].size else 0)
    ensures Merged(tiles, k).size > 0 && EndOf(Merged(tiles, k)) == EndOf(tiles[MergeTo(tiles, k) - 1])
  {
    hide Tiled, SizeOf;
    TiledBounds(tiles, lo, hi);
    var i, j := MergeFrom(tiles, k), MergeTo(tiles, k);
    if i < k {
      Touch(tiles, lo, hi, i);
    }
    if k + 1 < j {
      Touch(tiles, lo, hi, k);
    }
    var m := tiles[i..j];
    assert m == (if i < k then [tiles[k - 1]] else []) + [tiles[k]] + (if k + 1 < j then [tiles[k + 1]] else []);
    SizeOfFew(m);
  }

  lemma SizeOfFew(m: seq<Chunk>)
    requires 1 <= |m| <= 3
    ensures SizeOf(m) ==
      m[0].size + (if |m| > 1 then m[1].size else 0) + (if |m| > 2 then m[2].size else 0)
  {
    assert SizeOf(m[..1]) == m[0].size;
    assert |m| > 1 ==> m[..2][..1] == m[..1] && SizeOf(m[..2]) == m[0].size + m[1].size;
    assert |m| > 2 ==> m[..3][..2] == m[..2] && SizeOf(m[..3]) == m[0].size + m[1].size + m[2].size;
    assert m[..|m|] == m;
  }

  /** The neighbours of a used chunk are free exactly when the views know its start as an end and its
      end as a start. */
  lemma Neighbours(tiles: seq<Chunk>, k: nat, lo: nat, hi: nat)
    requires Tiled(tiles, lo, hi) && k < |tiles| && tiles[k].used
    ensures FreeBefore(tiles, k) <==> tiles[k].start in FreeByEnd(tiles)
    ensures FreeBefore(tiles, k) ==> FreeByEnd(tiles)[tiles[k].start] == tiles[k - 1].start
    ensures FreeAfter(tiles, k) <==> EndOf(tiles[k]) in FreeBy(tiles)
    ensures FreeAfter(tiles, k) ==>
      EndOf(tiles[k]) == tiles[k + 1].start && FreeBy(tiles)[EndOf(tiles[k])] == tiles[k + 1].size
    ensures tiles[k].start !in FreeBy(tiles)
  {
    hide Tiled, FreeBy, FreeByEnd;
    FreeByIs(tiles, lo, hi);
    FreeByEndIs(tiles, lo, hi);
    if k > 0 {
      Touch(tiles, lo, hi, k - 1);
    }
    if k + 1 < |tiles| {
      Touch(tiles, lo, hi, k);
    }
    forall j | 0 <= j < |tiles| && EndOf(tiles[j]) == tiles[k].start ensures j + 1 == k {
      SameBoundary(tiles, lo, hi, j, k);
    }
    forall j | 0 <= j < |tiles| && EndOf(tiles[k]) == tiles[j].start ensures j == k + 1 {
      SameBoundary(tiles, lo, hi, k, j);
    }
    forall j | 0 <= j < |tiles| && tiles[j].start == tiles[k].start ensures j == k {
      SameStart(tiles, lo, hi, j, k);
    }
  }

  lemma {:induction false} Increasing(tiles: seq<Chunk>, lo: nat, hi: nat, i: nat, j: nat)
    requires Tiled(tiles, lo, hi) && i < j < |tiles|
    ensures EndOf(tiles[i]) <= tiles[j].start && (i + 1 < j ==> EndOf(tiles[i]) < tiles[j].start)
    decreases j
  {
    if i + 1 == j {
      Touch(tiles, lo, hi, i);
    } else {
      Increasing(tiles, lo, hi, i, j - 1);
      Touch(tiles, lo, hi, j - 1);
      TiledBounds(tiles, lo, hi);
    }
  }

  lemma SameBoundary(tiles: seq<Chunk>, lo: nat, hi: nat, i: nat, j: nat)
    requires Tiled(tiles, lo, hi) && i < |tiles| && j < |tiles| && EndOf(tiles[i]) == tiles[j].start
    ensures j == i + 1
  {
    hide Tiled;
    TiledBounds(tiles, lo, hi);
    if i < j {
      Increasing(tiles, lo, hi, i, j);
    } else if j < i {
      Increasing(tiles, lo, hi, j, i);
    }
  }

  lemma SameStart(tiles: seq<Chunk>, lo: nat, hi: nat, i: nat, j: nat)
    requires Tiled(tiles, lo, hi) && i < |tiles| && j < |tiles| && tiles[i].start == tiles[j].start
    ensures i == j
  {
    hide Tiled;
    TiledBounds(tiles, lo, hi);
    if i < j {
      Increasing(tiles, lo, hi, i, j);
    } else if j < i {
      Increasing(tiles, lo, hi, j, i);
    }
  }

  lemma FreeKeepsRow(tiles: seq<Chunk>, k: nat, r: seq<Chunk>, lo: nat, hi: nat)
    requires Row(tiles, lo, hi) && k < |tiles| && tiles[k].used && r == FreeAt(tiles, k)
    ensures Row(r, lo, hi)
    ensures UsedBy(r) == (UsedBy(tiles) - {tiles[k].start}) + map[]
    ensures var gone := (if FreeBefore(tiles, k) then {tiles[k - 1].start} else {}) +
      (if FreeAfter(tiles, k) then {tiles[k + 1].start} else {});
      FreeBy(r) == (FreeBy(tiles) - gone) + map[Merged(tiles, k).start := Merged(tiles, k).size]
    ensures var gone := (if FreeBefore(tiles, k) then {tiles[k].start} else {}) +
      (if FreeAfter(tiles, k) then {EndOf(tiles[k + 1])} else {});
      FreeByEnd(r) == (FreeByEnd(tiles) - gone) + map[EndOf(Merged(tiles, k)) := Merged(tiles, k).start]
  {
    hide UsedBy, FreeBy, FreeByEnd, Tiled, NoAdjacentFree, SizeOf;
    var i, j := MergeFrom(tiles, k), MergeTo(tiles, k);
    MergedSize(tiles, k, lo, hi);
    SmallRows(Merged(tiles, k).start, Merged(tiles, k).size, Merged(tiles, k).size);
    StretchViews(tiles, k, lo, hi);
    Replace(tiles, i, j, [Merged(tiles, k)], r, lo, hi);
    FreeSeparates(tiles, k);
  }

  /** The views of the stretch that merges. */
  lemma StretchViews(tiles: seq<Chunk>, k: nat, lo: nat, hi: nat)
    requires Tiled(tiles, lo, hi) && k < |tiles| && tiles[k].used
    ensures var m := tiles[MergeFrom(tiles, k)..MergeTo(tiles, k)];
      && UsedBy(m).Keys == {tiles[k].start}
      && FreeBy(m).Keys == (if FreeBefore(tiles, k) then {tiles[k - 1].start} else {}) +
        (if FreeAfter(tiles, k) then {tiles[k + 1].start} else {})
      && FreeByEnd(m).Keys ==
        (if FreeBefore(tiles, k) then {tiles[k].start} else {}) +
        (if FreeAfter(tiles, k) then {EndOf(tiles[k + 1])} else {})
  {
    hide UsedBy, FreeBy, FreeByEnd, Tiled;
    var i, j := MergeFrom(tiles, k), MergeTo(tiles, k);
    var a, m, b := if i < k then [tiles[k - 1]] else [], [tiles[k]], if k + 1 < j then [tiles[k + 1]] else [];
    assert tiles[i..j] == a + m + b;
    ViewsConcat(a, m, b);
    if i < k {
      Touch(tiles, lo, hi, i);
    }
    SingleViews(a);
    SingleViews(m);
    SingleViews(b);
  }

  lemma SingleViews(s: seq<Chunk>)
    requires |s| <= 1
    ensures UsedBy(s).Keys == if s != [] && s[0].used then {s[0].start} else {}
    ensures FreeBy(s).Keys == if s != [] && !s[0].used then {s[0].start} else {}
    ensures FreeByEnd(s).Keys == if s != [] && !s[0].used then {EndOf(s[0])} else {}
  {
  }

  lemma FreeSeparates(tiles: seq<Chunk>, k: nat)
    requires NoAdjacentFree(tiles) && k < |tiles| && tiles[k].used
    ensures NoAdjacentFree(FreeAt(tiles, k))
  {
    var r := FreeAt(tiles, k);
    var i, shift := MergeFrom(tiles, k), |tiles| - |r|;
    forall x | 0 <= x < |r| - 1 ensures r[x].used || r[x + 1].used {
      if x < i {
        assert r[x] == tiles[x] && (x + 1 < i ==> r[x + 1] == tiles[x + 1]);
      } else if x > i {
        assert r[x] == tiles[x + shift] && r[x + 1] == tiles[x + 1 + shift];
      } else {
        assert r[x + 1] == tiles[x + 1 + shift];
      }
    }
  }

  /** Freeing the chunk that was just allocated restores the row exactly. */
  lemma FreeUndoesAlloc(tiles: seq<Chunk>, k: nat, size: nat, lo: nat, hi: nat)
    requires Row(tiles, lo, hi) && k < |tiles| && !tiles[k].used && 0 < size <= tiles[k].size
    ensures var r := AllocAt(tiles, k, size); var ptr := EndOf(tiles[k]) - size;
      && (exists j :: 0 <= j < |r| && r[j] == Chunk(ptr, size, true))
      && forall j | 0 <= j < |r| && r[j].start == ptr :: FreeAt(r, j) == tiles
  {
    hide Tiled, SizeOf, FreeAt, Merged, UsedBy, FreeBy, FreeByEnd;
    var r, u := AllocAt(tiles, k, size), if tiles[k].size == size then k else k + 1;
    AllocKeepsRow(tiles, k, size, r, lo, hi);
    assert r[u] == Chunk(EndOf(tiles[k]) - size, size, true);
    MergeBack(tiles, k, size, r, u, lo, hi);
    forall j | 0 <= j < |r| && r[j].start == r[u].start ensures FreeAt(r, j) == tiles {
      SameStart(r, lo, hi, j, u);
    }
  }

  lemma MergeBack(tiles: seq<Chunk>, k: nat, size: nat, r: seq<Chunk>, u: nat, lo: nat, hi: nat)
    requires Row(tiles, lo, hi) && Row(r, lo, hi) && k < |tiles| && !tiles[k].used && 0 < size <= tiles[k].size
    requires r == AllocAt(tiles, k, size) && u == (if tiles[k].size == size then k else k + 1)
    ensures FreeAt(r, u) == tiles
  {
    hide Tiled, SizeOf;
    MergedSize(r, u, lo, hi);
    assert r[..k] == tiles[..k] && r[u + 1..] == tiles[k + 1..];
    assert u > k ==> r[k] == Chunk(tiles[k].start, tiles[k].size - size, false);
    if k > 0 {
      assert tiles[k - 1].used && r[k - 1] == tiles[k - 1];
    }
    if k + 1 < |tiles| {
      assert tiles[k + 1].used && r[u + 1] == tiles[k + 1];
    }
    assert tiles == tiles[..k] + [tiles[k]] + tiles[k + 1..];
  }

  // ---------------------------------------------------------------- what alloc can find

  ghost predicate FreeAddress(tiles: seq<Chunk>, x: nat) {
    exists i :: 0 <= i < |tiles| && !tiles[i].used && tiles[i].start <= x < EndOf(tiles[i])
  }

  /** n free addresses in a row, from x on. */
  ghost predicate FreeRun(tiles: seq<Chunk>, x: nat, n: nat) {
    forall y | x <= y < x + n :: FreeAddress(tiles, y)
  }

  /** Because free chunks never touch, a run of free addresses lies inside one free chunk. */
  lemma RunInsideChunk(tiles: seq<Chunk>, lo: nat, hi: nat, x: nat, n: nat) returns (i: nat)
    requires Row(tiles, lo, hi) && n > 0 && FreeRun(tiles, x, n)
    ensures i < |tiles| && !tiles[i].used && tiles[i].start <= x && x + n <= EndOf(tiles[i])
  {
    hide Tiled;
    assert FreeAddress(tiles, x);
    i :| 0 <= i < |tiles| && !tiles[i].used && tiles[i].start <= x < EndOf(tiles[i]);
    var e := EndOf(tiles[i]);
    if e < x + n {
      assert FreeAddress(tiles, e);
      var j :| 0 <= j < |tiles| && !tiles[j].used && tiles[j].start <= e < EndOf(tiles[j]);
      Ordered(tiles, lo, hi, i, j);
      assert false;
    }
  }

  /** Chunks that differ lie apart, and free ones do not even touch. */
  lemma Ordered(tiles: seq<Chunk>, lo: nat, hi: nat, i: nat, j: nat)
    requires Row(tiles, lo, hi) && i < |tiles| && j < |tiles| && i != j && !tiles[i].used && !tiles[j].used
    ensures EndOf(tiles[i]) < tiles[j].start || EndOf(tiles[j]) < tiles[i].start
  {
    hide Tiled;
    if i < j {
      Apart(tiles, lo, hi, i, j);
    } else {
      Apart(tiles, lo, hi, j, i);
    }
  }

  lemma Apart(tiles: seq<Chunk>, lo: nat, hi: nat, i: nat, j: nat)
    requires Row(tiles, lo, hi) && i < j < |tiles| && !tiles[i].used && !tiles[j].used
    ensures EndOf(tiles[i]) < tiles[j].start
  {
    hide Tiled;
    assert tiles[i + 1].used;
    Increasing(tiles, lo, hi, i, j);
  }

  /** Some n addresses in a row are free exactly when some free chunk has n bytes. */
  lemma RunIffChunk(tiles: seq<Chunk>, lo: nat, hi: nat, n: nat)
    requires Row(tiles, lo, hi) && n > 0
    ensures (exists x :: FreeRun(tiles, x, n)) <==> exists a | a in FreeBy(tiles) :: FreeBy(tiles)[a] >= n
  {
    hide Tiled, FreeBy;
    FreeByIs(tiles, lo, hi);
    if x :| FreeRun(tiles, x, n) {
      var i := RunInsideChunk(tiles, lo, hi, x, n);
      assert FreeBy(tiles)[tiles[i].start] >= n;
    }
    if a :| a in FreeBy(tiles) && FreeBy(tiles)[a] >= n {
      var i :| 0 <= i < |tiles| && !tiles[i].used && tiles[i].start == a;
      assert FreeRun(tiles, a, n) by {
        forall y | a <= y < a + n ensures FreeAddress(tiles, y) {
          assert tiles[i].start <= y < EndOf(tiles[i]);
        }
      }
    }
  }

  /** Every address of the arena belongs to exactly one chunk. */
  lemma {:induction false} OneChunkPerAddress(tiles: seq<Chunk>, lo: nat, hi: nat, x: nat) returns (i: nat)
    requires Tiled(tiles, lo, hi) && lo <= x < hi
    ensures i < |tiles| && tiles[i].start <= x < EndOf(tiles[i])
    ensures forall j | 0 <= j < |tiles| && tiles[j].start <= x < EndOf(tiles[j]) :: j == i
  {
    if x < EndOf(tiles[0]) {
      i := 0;
    } else {
      i := OneChunkPerAddress(tiles[1..], EndOf(tiles[0]), hi, x);
      i := i + 1;
    }
    forall j, k | 0 <= j < k < |tiles| ensures EndOf(tiles[j]) <= tiles[k].start {
      Increasing(tiles, lo, hi, j, k);
    }
  }

  // ---------------------------------------------------------------- totals over a set of starts

  /** Bytes in the chunks of one kind whose start is in keys. */
  function TotalIn(tiles: seq<Chunk>, used: bool, keys: set<nat>): (r: nat) {
    if tiles == [] then 0
    else
      var here := if tiles[0].used == used && tiles[0].start in keys then tiles[0].size else 0;
      here + TotalIn(tiles[1..], used, keys)
  }

  lemma {:induction false} TotalInAll(tiles: seq<Chunk>, used: bool, keys: set<nat>)
    requires forall i | 0 <= i < |tiles| && tiles[i].used == used :: tiles[i].start in keys
    ensures TotalIn(tiles, used, keys) == Total(tiles, used)
  {
    if tiles != [] {
      assert forall i | 0 <= i < |tiles[1..]| :: tiles[1..][i] == tiles[i + 1];
      TotalInAll(tiles[1..], used, keys);
    }
  }

  lemma {:induction false} TotalInNone(tiles: seq<Chunk>, used: bool)
    ensures TotalIn(tiles, used, {}) == 0
  {
    if tiles != [] {
      TotalInNone(tiles[1..], used);
    }
  }

  lemma {:induction false} TotalInSame(tiles: seq<Chunk>, used: bool, keys: set<nat>, a: nat)
    requires forall i | 0 <= i < |tiles| :: tiles[i].start != a
    ensures TotalIn(tiles, used, keys) == TotalIn(tiles, used, keys - {a})
  {
    if tiles != [] {
      assert forall i | 0 <= i < |tiles[1..]| :: tiles[1..][i] == tiles[i + 1];
      TotalInSame(tiles[1..], used, keys, a);
    }
  }

  /** Leaving out one chunk leaves out its size. */
  lemma {:induction false} TotalInRemove(tiles: seq<Chunk>, lo: nat, hi: nat, keys: set<nat>, k: nat)
    requires Tiled(tiles, lo, hi) && k < |tiles| && tiles[k].start in keys
    ensures TotalIn(tiles, tiles[k].used, keys) ==
      TotalIn(tiles, tiles[k].used, keys - {tiles[k].start}) + tiles[k].size
  {
    var t := tiles[1..];
    TiledBounds(t, EndOf(tiles[0]), hi);
    if k == 0 {
      TotalInSame(t, tiles[0].used, keys, tiles[0].start);
    } else {
      assert tiles[k] == t[k - 1];
      TotalInRemove(t, EndOf(tiles[0]), hi, keys, k - 1);
    }
  }

  // ---------------------------------------------------------------- alignment

  ghost predicate Aligned(tiles: seq<Chunk>, align: nat)
    requires align > 0
  {
    forall i | 0 <= i < |tiles| :: tiles[i].start % align == 0
  }

  lemma EndAligned(tiles: seq<Chunk>, lo: nat, hi: nat, align: nat, k: nat)
    requires align > 0 && Tiled(tiles, lo, hi) && Aligned(tiles, align) && hi % align == 0 && k < |tiles|
    ensures EndOf(tiles[k]) % align == 0
  {
    hide Tiled;
    if k + 1 < |tiles| {
      Touch(tiles, lo, hi, k);
    } else {
      assert tiles + [] == tiles;
      var mid := TiledSplit(tiles, [], lo, hi);
      EmptyRow(mid, hi);
    }
  }

  lemma EmptyRow(lo: nat, hi: nat)
    requires Tiled([], lo, hi)
    ensures lo == hi
  {
  }
}
