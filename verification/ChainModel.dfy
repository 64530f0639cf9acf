/** The block tree and its main chain as values: what connecting a block means, the invariant
    every step keeps, and what follows for whole runs. */
module ChainModel {
  import opened Wrappers

  type Hash = nat
  const NULL_HASH: Hash := 0

  datatype Header = Header(hash: Hash, prev: Hash)

  /** The store: headers by id, the height of each one that is connected, blocks waiting under the
      hash of their parent, and the main chain by id. */
  datatype Chain = Chain(genesis: Hash, headers: seq<Header>, heights: seq<Option<nat>>,
                         orphans: seq<(Hash, nat)>, main: seq<nat>)

  /** What a call of connectToAncestor can do: return, fail the assertion that the height is
      unset, or stay forever in one of the two loops that never advance their iterator. */
  datatype Outcome = Returned(ok: bool) | AssertionFails | Hangs

  function EmptyChain(genesis: Hash): (r: Chain) {
    Chain(genesis, [], [], [], [])
  }

  function Find(headers: seq<Header>, h: Hash): (r: Option<nat>)
    ensures r.Some? ==> r.value < |headers| && headers[r.value].hash == h
    ensures r.None? ==> forall i | 0 <= i < |headers| :: headers[i].hash != h
  {
    if headers == [] then None
    else if headers[|headers| - 1].hash == h then Some(|headers| - 1)
    else Find(headers[..|headers| - 1], h)
  }

  predicate Connected(c: Chain, id: nat) {
    id < |c.headers| && id < |c.heights| && c.heights[id].Some?
  }

  function HeightOf(c: Chain, id: nat): (r: nat)
    requires Connected(c, id)
  {
    c.heights[id].value
  }

  predicate HasParent(c: Chain, id: nat) {
    id < |c.headers| && Find(c.headers, c.headers[id].prev).Some?
  }

  /** The stored block that the header of id names as its predecessor. */
  function Parent(c: Chain, id: nat): (p: nat)
    requires HasParent(c, id)
    ensures p < |c.headers| && c.headers[p].hash == c.headers[id].prev
  {
    Find(c.headers, c.headers[id].prev).value
  }

  ghost predicate Unique(headers: seq<Header>) {
    forall i: nat, j: nat | i < j < |headers| :: headers[i].hash != headers[j].hash
  }

  ghost predicate IsGenesis(c: Chain, id: nat) {
    id < |c.headers| && c.headers[id] == Header(c.genesis, NULL_HASH)
  }

  /** A connected block is genesis at height zero or sits exactly one above its connected parent. */
  ghost predicate Rooted(c: Chain, id: nat) {
    Connected(c, id) ==>
      if HeightOf(c, id) == 0 then IsGenesis(c, id)
      else HasParent(c, id) && Connected(c, Parent(c, id)) && HeightOf(c, Parent(c, id)) == HeightOf(c, id) - 1
  }

  ghost predicate Tree(c: Chain) {
    Unique(c.headers) && |c.heights| == |c.headers| && forall i: nat :: Rooted(c, i)
  }

  /** The ids from genesis down to a connected block. */
  ghost function Path(c: Chain, id: nat): (p: seq<nat>)
    requires Tree(c) && Connected(c, id)
    ensures |p| == HeightOf(c, id) + 1 && p[HeightOf(c, id)] == id
    decreases HeightOf(c, id)
  {
    assert Rooted(c, id);
    if HeightOf(c, id) == 0 then [id] else Path(c, Parent(c, id)) + [id]
  }

  function Last(s: seq<nat>): (r: nat)
    requires s != []
  {
    s[|s| - 1]
  }

  /** No connected block is higher than the end of the main chain. */
  ghost predicate Below(c: Chain, id: nat) {
    Connected(c, id) ==> HeightOf(c, id) < |c.main|
  }

  /** What every step keeps. */
  ghost predicate Inv(c: Chain) {
    && Tree(c)
    && (forall i: nat :: Below(c, i))
    && (c.main != [] ==> Connected(c, Last(c.main)) && c.main == Path(c, Last(c.main)))
  }

  // ---------------------------------------------------------------- the operations

  function FirstOrphan(orphans: seq<(Hash, nat)>, h: Hash): (k: nat)
    ensures k <= |orphans| && (k < |orphans| ==> orphans[k].0 == h)
    ensures forall j | 0 <= j < k :: orphans[j].0 != h
  {
    if orphans == [] || orphans[0].0 == h then 0 else 1 + FirstOrphan(orphans[1..], h)
  }

  predicate HasOrphan(orphans: seq<(Hash, nat)>, h: Hash) {
    FirstOrphan(orphans, h) < |orphans|
  }

  function RemoveAt(orphans: seq<(Hash, nat)>, k: nat): (r: seq<(Hash, nat)>)
    requires k <= |orphans|
  {
    if k < |orphans| then orphans[..k] + orphans[k + 1..] else orphans
  }

  function SetHeight(c: Chain, id: nat, h: nat): (r: Chain)
    requires id < |c.heights|
  {
    c.(heights := c.heights[id := Some(h)])
  }

  // ---------------------------------------------------------------- the two loops over equal_range

  /** A loop over a range of the orphans that is at some element of it, or was left. */
  datatype Loop<T> = At(i: nat, effect: T) | Left(effect: T)

  /** equal_range(h): where the elements with the key h are, from `from` on. */
  function Range(orphans: seq<(Hash, nat)>, h: Hash, from: nat): (r: seq<nat>)
    requires from <= |orphans|
    ensures forall j | j in r :: from <= j < |orphans| && orphans[j].0 == h
    ensures r == [] ==> forall j | from <= j < |orphans| :: orphans[j].0 != h
    ensures r != [] ==> r[0] in r && forall j | from <= j < r[0] :: orphans[j].0 != h
    decreases |orphans| - from
  {
    if from == |orphans| then []
    else (if orphans[from].0 == h then [from] else []) + Range(orphans, h, from + 1)
  }

  /** One pass of the loop that removes block id from the orphans: nothing in it advances i. */
  function RemovalPass(s: Loop<seq<(Hash, nat)>>, h: Hash, id: nat): (r: Loop<seq<(Hash, nat)>>) {
    match s
    case Left(_) => s
    case At(i, orphans) =>
      var range := Range(orphans, h, 0);
      if i >= |range| then Left(orphans)
      else
        assert range[i] in range;
        if orphans[range[i]].1 == id then Left(RemoveAt(orphans, range[i])) else At(i, orphans)
  }

  function RemovalPasses(orphans: seq<(Hash, nat)>, h: Hash, id: nat, n: nat): (r: Loop<seq<(Hash, nat)>>) {
    if n == 0 then At(0, orphans) else RemovalPass(RemovalPasses(orphans, h, id, n - 1), h, id)
  }

  /** One pass of the loop that enqueues the blocks waiting for h; again nothing advances i. */
  function DescentPass(s: Loop<seq<nat>>, orphans: seq<(Hash, nat)>, h: Hash): (r: Loop<seq<nat>>) {
    match s
    case Left(_) => s
    case At(i, enqueued) =>
      var range := Range(orphans, h, 0);
      if i >= |range| then Left(enqueued)
      else
        assert range[i] in range;
        At(i, enqueued + [orphans[range[i]].1])
  }

  function DescentPasses(orphans: seq<(Hash, nat)>, h: Hash, n: nat): (r: Loop<seq<nat>>) {
    if n == 0 then At(0, []) else DescentPass(DescentPasses(orphans, h, n - 1), orphans, h)
  }

  lemma RemovalStep(orphans: seq<(Hash, nat)>, h: Hash, id: nat, n: nat)
    ensures RemovalPasses(orphans, h, id, n) ==
      if n == 0 then At(0, orphans) else RemovalPass(RemovalPasses(orphans, h, id, n - 1), h, id)
  {
  }

  lemma DescentStep(orphans: seq<(Hash, nat)>, h: Hash, n: nat)
    ensures DescentPasses(orphans, h, n) ==
      if n == 0 then At(0, []) else DescentPass(DescentPasses(orphans, h, n - 1), orphans, h)
  {
  }

  lemma RangeStarts(orphans: seq<(Hash, nat)>, h: Hash)
    ensures var k, r := FirstOrphan(orphans, h), Range(orphans, h, 0);
      if r == [] then k == |orphans| else k == r[0] && r[0] in r
  {
    var r := Range(orphans, h, 0);
    if r != [] {
      assert r[0] in r;
    }
  }

  /** After any number of passes the removal is still at its first element with nothing changed,
      unless there is none, or it is the block itself: then one pass was enough. */
  lemma {:induction false} RemovalNeverMoves(orphans: seq<(Hash, nat)>, h: Hash, id: nat, n: nat)
    ensures var k := FirstOrphan(orphans, h);
      RemovalPasses(orphans, h, id, n) ==
        if n > 0 && (k < |orphans| ==> orphans[k].1 == id) then Left(RemoveAt(orphans, k)) else At(0, orphans)
  {
    hide Range, FirstOrphan;
    RangeStarts(orphans, h);
    if n > 0 {
      RemovalNeverMoves(orphans, h, id, n - 1);
    }
  }

  function Copies(id: nat, n: nat): (r: seq<nat>) {
    seq(n, i => id)
  }

  /** After n passes the first waiting block has been enqueued n times, unless none waits. */
  lemma {:induction false} DescentNeverMoves(orphans: seq<(Hash, nat)>, h: Hash, n: nat)
    ensures var k := FirstOrphan(orphans, h);
      DescentPasses(orphans, h, n) ==
        if k < |orphans| then At(0, Copies(orphans[k].1, n)) else if n > 0 then Left([]) else At(0, [])
  {
    hide Range, FirstOrphan;
    RangeStarts(orphans, h);
    var k := FirstOrphan(orphans, h);
    assert k < |orphans| ==> Copies(orphans[k].1, 0) == [];
    if n > 0 {
      DescentNeverMoves(orphans, h, n - 1);
      assert k < |orphans| ==> Copies(orphans[k].1, n) == Copies(orphans[k].1, n - 1) + [orphans[k].1];
    }
  }

  /** The first pass decides whether the loops are ever left. */
  lemma RemovalDecided(orphans: seq<(Hash, nat)>, h: Hash, id: nat)
    ensures var k := FirstOrphan(orphans, h);
      RemovalPasses(orphans, h, id, 1).Left? <==> (k < |orphans| ==> orphans[k].1 == id)
    ensures forall n :: RemovalPasses(orphans, h, id, n).Left? ==> RemovalPasses(orphans, h, id, 1).Left?
  {
    hide FirstOrphan, RemovalPasses;
    RemovalNeverMoves(orphans, h, id, 1);
    forall n: nat ensures RemovalPasses(orphans, h, id, n).Left? ==> RemovalPasses(orphans, h, id, 1).Left? {
      RemovalNeverMoves(orphans, h, id, n);
    }
  }

  lemma DescentDecided(orphans: seq<(Hash, nat)>, h: Hash)
    ensures DescentPasses(orphans, h, 1).Left? <==> !HasOrphan(orphans, h)
    ensures forall n :: DescentPasses(orphans, h, n).Left? ==> DescentPasses(orphans, h, 1).Left?
  {
    hide FirstOrphan, DescentPasses;
    DescentNeverMoves(orphans, h, 1);
    forall n: nat ensures DescentPasses(orphans, h, n).Left? ==> DescentPasses(orphans, h, 1).Left? {
      DescentNeverMoves(orphans, h, n);
    }
  }

  ghost predicate RemovalEnds(orphans: seq<(Hash, nat)>, h: Hash, id: nat): (r: bool)
    ensures r <==> var k := FirstOrphan(orphans, h); k < |orphans| ==> orphans[k].1 == id
  {
    RemovalDecided(orphans, h, id);
    exists n :: RemovalPasses(orphans, h, id, n).Left?
  }

  ghost predicate DescentEnds(orphans: seq<(Hash, nat)>, h: Hash): (r: bool)
    ensures r <==> !HasOrphan(orphans, h)
  {
    DescentDecided(orphans, h);
    exists n :: DescentPasses(orphans, h, n).Left?
  }

  ghost function ConnectOutcome(c: Chain, id: nat): (r: Outcome)
    requires |c.heights| == |c.headers|
  {
    if id >= |c.headers| then Returned(false)
    else
      var e := c.headers[id];
      if c.main == [] then
        if e.hash != c.genesis || e.prev != NULL_HASH then Returned(false)
        else if Connected(c, id) then AssertionFails
        else if !DescentEnds(c.orphans, e.hash) then Hangs
        else Returned(true)
      else if !HasParent(c, id) || !Connected(c, Parent(c, id)) then Returned(false)
      else if Connected(c, id) then AssertionFails
      else
        var k := FirstOrphan(c.orphans, e.prev);
        if !RemovalEnds(c.orphans, e.prev, id) then Hangs
        else if !DescentEnds(RemoveAt(c.orphans, k), e.hash) then Hangs
        else Returned(true)
  }

  /** id can be connected below its parent. */
  ghost predicate CanAttach(c: Chain, id: nat) {
    Tree(c) && c.main != [] && HasParent(c, id) && Connected(c, Parent(c, id)) && !Connected(c, id)
  }

  /** The store with id connected, the main chain not yet reconsidered. */
  ghost function Attach(c: Chain, id: nat): (a: Chain)
    requires CanAttach(c, id)
    ensures Tree(a) && Connected(a, id) && HeightOf(a, id) == HeightOf(c, Parent(c, id)) + 1
  {
    var k := FirstOrphan(c.orphans, c.headers[id].prev);
    var a := SetHeight(c, id, HeightOf(c, Parent(c, id)) + 1).(orphans := RemoveAt(c.orphans, k));
    AttachKeepsTree(c, id, a);
    a
  }

  /** The store after a call that returned: a block that is at least as high as the tip takes the
      main chain over with its whole path, any other leaves it alone. */
  ghost function ConnectState(c: Chain, id: nat): (r: Chain)
    requires Inv(c) && ConnectOutcome(c, id).Returned?
  {
    if id >= |c.headers| then c
    else if c.main == [] then
      if ConnectOutcome(c, id) == Returned(false) then c.(orphans := c.orphans + [(c.headers[id].prev, id)])
      else SetHeight(c, id, 0).(main := [id])
    else if ConnectOutcome(c, id) == Returned(false) then c
    else
      var a := Attach(c, id);
      if HeightOf(a, id) >= |c.main| - 1 then a.(main := Path(a, id)) else a
  }

  function AddHeader(c: Chain, hash: Hash, prev: Hash): (r: Chain) {
    if Find(c.headers, hash).Some? then c
    else c.(headers := c.headers + [Header(hash, prev)], heights := c.heights + [None])
  }

  // ---------------------------------------------------------------- the invariant

  lemma FindUnique(headers: seq<Header>, i: nat)
    requires Unique(headers) && i < |headers|
    ensures Find(headers, headers[i].hash) == Some(i)
  {
    var r := Find(headers, headers[i].hash);
    assert r.Some?;
    assert !(r.value < i) && !(i < r.value);
  }

  lemma AttachKeepsTree(c: Chain, id: nat, a: Chain)
    requires CanAttach(c, id)
    requires a.genesis == c.genesis && a.headers == c.headers
    requires a.heights == c.heights[id := Some(HeightOf(c, Parent(c, id)) + 1)]
    ensures Tree(a)
  {
    hide Find;
    forall i: nat ensures Rooted(a, i) {
      assert Rooted(c, i);
    }
  }

  /** d has every connected block of c at its height and under its parent. */
  ghost predicate Extends(c: Chain, d: Chain) {
    forall i: nat | Connected(c, i) ::
      Connected(d, i) && HeightOf(d, i) == HeightOf(c, i) &&
        (HasParent(c, i) ==> HasParent(d, i) && Parent(d, i) == Parent(c, i))
  }

  /** Connecting or storing more blocks changes no path that was there. */
  lemma {:induction false} PathStable(c: Chain, d: Chain, id: nat)
    requires Tree(c) && Tree(d) && Connected(c, id) && Extends(c, d)
    ensures Path(d, id) == Path(c, id)
    decreases HeightOf(c, id)
  {
    hide Find;
    assert Rooted(c, id);
    if HeightOf(c, id) > 0 {
      PathStable(c, d, Parent(c, id));
    }
  }

  lemma TreeOfHeights(c: Chain, d: Chain)
    requires Tree(c) && d.headers == c.headers && d.heights == c.heights && d.genesis == c.genesis
    ensures Tree(d) && forall i: nat | Connected(c, i) :: Path(d, i) == Path(c, i)
  {
    hide Find;
    forall i: nat ensures Rooted(d, i) {
      assert Rooted(c, i);
    }
    forall i: nat | Connected(c, i) ensures Path(d, i) == Path(c, i) {
      PathStable(c, d, i);
    }
  }

  /** Every call of connectToAncestor that returns keeps the invariant. */
  lemma ConnectKeepsInv(c: Chain, id: nat)
    requires Inv(c) && ConnectOutcome(c, id).Returned?
    ensures Inv(ConnectState(c, id))
  {
    hide Find, FirstOrphan, Path;
    var d := ConnectState(c, id);
    if ConnectOutcome(c, id) == Returned(true) {
      if c.main == [] {
        GenesisKeepsInv(c, id, d);
      } else {
        AttachKeepsInv(c, id);
      }
    } else {
      TreeOfHeights(c, d);
      assert forall i: nat :: Below(c, i) ==> Below(d, i);
    }
  }

  lemma GenesisKeepsInv(c: Chain, id: nat, d: Chain)
    requires Inv(c) && c.main == [] && IsGenesis(c, id) && d == SetHeight(c, id, 0).(main := [id])
    ensures Inv(d)
  {
    hide Find;
    forall i: nat ensures Rooted(d, i) && Below(d, i) {
      assert Below(c, i);
    }
  }

  lemma AttachKeepsInv(c: Chain, id: nat)
    requires Inv(c) && CanAttach(c, id)
    ensures var a := Attach(c, id); Inv(if HeightOf(a, id) >= |c.main| - 1 then a.(main := Path(a, id)) else a)
  {
    hide Find, FirstOrphan, Path;
    var a := Attach(c, id);
    var d := if HeightOf(a, id) >= |c.main| - 1 then a.(main := Path(a, id)) else a;
    TreeOfHeights(a, d);
    assert Below(c, Parent(c, id));
    forall i: nat ensures Below(d, i) {
      assert Below(c, i);
    }
    if d == a {
      PathStable(c, a, Last(c.main));
    }
  }

  lemma AddHeaderKeepsInv(c: Chain, hash: Hash, prev: Hash)
    requires Inv(c)
    ensures Inv(AddHeader(c, hash, prev)) && Extends(c, AddHeader(c, hash, prev))
  {
    var d := AddHeader(c, hash, prev);
    if d != c {
      var n := |c.headers|;
      assert d.headers[..n] == c.headers && d.headers[n].hash == hash;
      forall i: nat ensures Rooted(d, i) && Below(d, i) {
        assert Rooted(c, i) && Below(c, i);
        if Connected(c, i) && HeightOf(c, i) > 0 {
          assert c.headers[Parent(c, i)].hash == c.headers[i].prev;
        }
      }
      forall i: nat | HasParent(c, i) ensures HasParent(d, i) && Parent(d, i) == Parent(c, i) {
        assert c.headers[Parent(c, i)].hash == c.headers[i].prev;
      }
      if c.main != [] {
        PathStable(c, d, Last(c.main));
      }
    }
  }

  // ---------------------------------------------------------------- what the invariant means

  lemma {:induction false} PathPrefix(c: Chain, id: nat, i: nat)
    requires Tree(c) && Connected(c, id) && i <= HeightOf(c, id)
    ensures var x := Path(c, id)[i]; Connected(c, x) && HeightOf(c, x) == i && Path(c, x) == Path(c, id)[..i + 1]
    decreases HeightOf(c, id)
  {
    hide Find;
    assert Rooted(c, id);
    var p := Path(c, id);
    if i < HeightOf(c, id) {
      PathPrefix(c, Parent(c, id), i);
      assert p[..i + 1] == Path(c, Parent(c, id))[..i + 1];
    } else {
      assert p[..i + 1] == p;
    }
  }

  /** parent is the stored predecessor that the header of child names. */
  ghost predicate NamesPredecessor(c: Chain, child: nat, parent: nat) {
    child < |c.headers| && parent < |c.headers| && c.headers[child].prev == c.headers[parent].hash
  }

  /** Entry i of the main chain has height i, entry 0 is genesis, every entry names the one before
      it as its predecessor, and nothing connected is higher than the tip. */
  lemma MainChainShape(c: Chain)
    requires Inv(c) && c.main != []
    ensures forall i | 0 <= i < |c.main| :: Connected(c, c.main[i]) && HeightOf(c, c.main[i]) == i
    ensures IsGenesis(c, c.main[0])
    ensures forall i | 0 < i < |c.main| :: NamesPredecessor(c, c.main[i], c.main[i - 1])
    ensures forall id: nat | Connected(c, id) :: HeightOf(c, id) <= HeightOf(c, Last(c.main)) == |c.main| - 1
  {
    hide Find, Path;
    var tip := Last(c.main);
    forall i | 0 <= i < |c.main| ensures Connected(c, c.main[i]) && HeightOf(c, c.main[i]) == i {
      PathPrefix(c, tip, i);
    }
    assert Rooted(c, c.main[0]);
    forall i | 0 < i < |c.main| ensures NamesPredecessor(c, c.main[i], c.main[i - 1]) {
      PathPrefix(c, tip, i);
      PathStep(c, c.main[i]);
    }
    forall id: nat | Connected(c, id) ensures HeightOf(c, id) < |c.main| {
      assert Below(c, id);
    }
  }

  lemma PathStep(c: Chain, id: nat)
    requires Tree(c) && Connected(c, id) && HeightOf(c, id) > 0
    ensures NamesPredecessor(c, id, Path(c, id)[HeightOf(c, id) - 1])
  {
    assert Rooted(c, id);
  }

  /** Two paths that meet at some height agree on everything below it. */
  lemma PathsShareBelow(c: Chain, x: nat, y: nat, i: nat)
    requires Tree(c) && Connected(c, x) && Connected(c, y)
    requires i <= HeightOf(c, x) && i <= HeightOf(c, y) && Path(c, x)[i] == Path(c, y)[i]
    ensures Path(c, x)[..i + 1] == Path(c, y)[..i + 1]
  {
    PathPrefix(c, x, i);
    PathPrefix(c, y, i);
  }

  /** The length up to which two paths agree; from there on they differ everywhere. */
  lemma ForkPoint(c: Chain, x: nat, y: nat) returns (k: nat)
    requires Tree(c) && Connected(c, x) && Connected(c, y)
    ensures 0 < k <= |Path(c, x)| && k <= |Path(c, y)| && Path(c, x)[..k] == Path(c, y)[..k]
    ensures forall i | k <= i < |Path(c, x)| && i < |Path(c, y)| :: Path(c, x)[i] != Path(c, y)[i]
  {
    hide Path, Find;
    var p, q := Path(c, x), Path(c, y);
    PathPrefix(c, x, 0);
    PathPrefix(c, y, 0);
    assert Rooted(c, p[0]) && Rooted(c, q[0]);
    FindUnique(c.headers, p[0]);
    FindUnique(c.headers, q[0]);
    k := 1;
    while k < |p| && k < |q| && p[k] == q[k]
      invariant 0 < k <= |p| && k <= |q| && p[..k] == q[..k]
    {
      k := k + 1;
    }
    forall i | k <= i < |p| && i < |q| ensures p[i] != q[i] {
      if p[i] == q[i] {
        PathsShareBelow(c, x, y, i);
      }
    }
  }

  /** A reorganisation keeps the main chain up to its last common block with the new branch and
      replaces all of the rest. */
  lemma ReorganisationKeepsCommonPrefix(c: Chain, id: nat) returns (k: nat)
    requires Inv(c) && c.main != [] && ConnectOutcome(c, id) == Returned(true)
    ensures var d := ConnectState(c, id);
      0 < k <= |c.main| && k <= |d.main| && d.main[..k] == c.main[..k]
      && (d.main != c.main ==> Last(d.main) == id && |d.main| >= |c.main|)
      && forall i | k <= i < |c.main| && i < |d.main| :: d.main[i] != c.main[i]
  {
    hide Find, FirstOrphan, Path;
    var a := Attach(c, id);
    PathStable(c, a, Last(c.main));
    k := ForkPoint(a, Last(c.main), id);
    if HeightOf(a, id) < |c.main| - 1 {
      k := |c.main|;
    }
  }

  // ---------------------------------------------------------------- runs

  /** What callers of the store do: hand over a bare header, or a block together with whether its
      merkle root matches its transactions. */
  datatype Event = NewHeader(hash: Hash, prev: Hash) | NewBlock(hash: Hash, prev: Hash, merkleOk: bool)

  /** A store that still answers, or one whose last call never came back. */
  datatype RunState = Running(chain: Chain) | Aborted | Stuck

  ghost predicate Good(r: RunState) {
    r.Running? ==> Inv(r.chain)
  }

  ghost function Step(c: Chain, e: Event): (r: RunState)
    requires Inv(c)
    ensures Good(r)
  {
    match e
    case NewHeader(hash, prev) =>
      AddHeaderKeepsInv(c, hash, prev);
      Running(AddHeader(c, hash, prev))
    case NewBlock(hash, prev, merkleOk) =>
      if !merkleOk then Running(c)
      else
        AddHeaderKeepsInv(c, hash, prev);
        var d := AddHeader(c, hash, prev);
        var id := IdOf(c, hash, prev);
        match ConnectOutcome(d, id)
        case Returned(_) => ConnectKeepsInv(d, id); Running(ConnectState(d, id))
        case AssertionFails => Aborted
        case Hangs => Stuck
  }

  /** The id under which a block is connected: the stored one, or the next free one. */
  function IdOf(c: Chain, hash: Hash, prev: Hash): (id: nat)
    ensures id < |AddHeader(c, hash, prev).headers| && AddHeader(c, hash, prev).headers[id].hash == hash
  {
    match Find(c.headers, hash)
    case Some(i) => i
    case None => |c.headers|
  }

  ghost function Run(c: Chain, events: seq<Event>): (r: RunState)
    requires Inv(c)
    ensures Good(r)
  {
    if events == [] then Running(c)
    else
      var before := Run(c, events[..|events| - 1]);
      if before.Running? then Step(before.chain, events[|events| - 1]) else before
  }

  lemma EmptyInv(genesis: Hash)
    ensures Inv(EmptyChain(genesis))
  {
  }

  /** After any run from the empty store that still answers, the main chain is the path to its tip
      and nothing connected is higher. */
  lemma EveryRun(genesis: Hash, events: seq<Event>)
    ensures Inv(EmptyChain(genesis))
    ensures var r := Run(EmptyChain(genesis), events);
      r.Running? && r.chain.main != [] ==>
        && r.chain.main == Path(r.chain, Last(r.chain.main))
        && forall id: nat | Connected(r.chain, id) :: HeightOf(r.chain, id) <= HeightOf(r.chain, Last(r.chain.main))
  {
    EmptyInv(genesis);
    var r := Run(EmptyChain(genesis), events);
    if r.Running? && r.chain.main != [] {
      MainChainShape(r.chain);
    }
  }

  predicate Accepted(e: Event) {
    e.NewBlock? && e.merkleOk
  }

  /** One event connects at most the block it brings: waiting descendants are never picked up. */
  lemma StepConnectsOnlyItsBlock(c: Chain, e: Event, i: nat)
    requires Inv(c) && Step(c, e).Running?
    requires Connected(Step(c, e).chain, i) && !Connected(c, i)
    ensures Accepted(e) && i == IdOf(c, e.hash, e.prev)
  {
    hide Find, FirstOrphan, Path;
  }

  /** With no orphans and a main chain, no event gets stuck, and none leaves an orphan behind. The
      height assertion fails exactly for a block that is already connected under a connected parent. */
  lemma StepWithoutOrphans(c: Chain, e: Event)
    requires Inv(c) && c.orphans == [] && c.main != []
    ensures !Step(c, e).Stuck?
    ensures Step(c, e).Running? ==> Step(c, e).chain.orphans == [] && Step(c, e).chain.main != []
    ensures Step(c, e).Aborted? <==>
      Accepted(e) && Find(c.headers, e.hash).Some?
      && var i := Find(c.headers, e.hash).value;
         Connected(c, i) && (HeightOf(c, i) > 0 || (HasParent(c, i) && Connected(c, Parent(c, i))))
  {
    hide Path;
    if Accepted(e) {
      var i := IdOf(c, e.hash, e.prev);
      assert Rooted(c, i);
    }
  }

  /** The first block that is accepted is genesis, and no header with its hash contradicts it. */
  ghost predicate GenesisFirst(genesis: Hash, events: seq<Event>, k: nat) {
    && k < |events| && events[k] == NewBlock(genesis, NULL_HASH, true)
    && forall i | 0 <= i < k :: !Accepted(events[i]) && (events[i].hash == genesis ==> events[i].prev == NULL_HASH)
  }

  lemma {:induction false} BeforeAnyBlock(genesis: Hash, events: seq<Event>)
    requires Inv(EmptyChain(genesis))
    requires forall i | 0 <= i < |events| ::
      !Accepted(events[i]) && (events[i].hash == genesis ==> events[i].prev == NULL_HASH)
    ensures var r := Run(EmptyChain(genesis), events);
      r.Running? && r.chain.main == [] && r.chain.orphans == [] && r.chain.genesis == genesis
      && forall h: Header | h in r.chain.headers :: h.hash == genesis ==> h.prev == NULL_HASH
  {
    hide Find, FirstOrphan, Path;
    if events != [] {
      BeforeAnyBlock(genesis, events[..|events| - 1]);
    }
  }

  /** A run that adds genesis first never gets stuck and never holds an orphan. */
  lemma {:induction false} GenesisFirstRun(genesis: Hash, events: seq<Event>, k: nat)
    requires Inv(EmptyChain(genesis)) && GenesisFirst(genesis, events, k)
    ensures var r := Run(EmptyChain(genesis), events);
      !r.Stuck? && (r.Running? ==> r.chain.orphans == [] && r.chain.main != [])
    decreases |events|
  {
    hide Find, FirstOrphan, Path;
    var n := |events| - 1;
    if k == n {
      BeforeAnyBlock(genesis, events[..n]);
      var c := Run(EmptyChain(genesis), events[..n]).chain;
      GenesisConnects(c, genesis);
    } else {
      GenesisFirstRun(genesis, events[..n], k);
      var before := Run(EmptyChain(genesis), events[..n]);
      if before.Running? {
        StepWithoutOrphans(before.chain, events[n]);
      }
    }
  }

  lemma GenesisConnects(c: Chain, genesis: Hash)
    requires Inv(c) && c.main == [] && c.orphans == [] && c.genesis == genesis
    requires forall h: Header | h in c.headers :: h.hash == genesis ==> h.prev == NULL_HASH
    ensures var r := Step(c, NewBlock(genesis, NULL_HASH, true));
      r.Running? && r.chain.orphans == [] && r.chain.main != []
  {
    hide Path;
    var id := IdOf(c, genesis, NULL_HASH);
    var d := AddHeader(c, genesis, NULL_HASH);
    AddHeaderKeepsInv(c, genesis, NULL_HASH);
    assert id < |c.headers| ==> c.headers[id] in c.headers && d == c;
    assert d.headers[id] == Header(genesis, NULL_HASH);
    assert Below(d, id);
    assert !HasOrphan(d.orphans, genesis);
    assert ConnectOutcome(d, id) == Returned(true);
  }

  // ---------------------------------------------------------------- runs that start elsewhere

  /** A hash stands for one header, and the genesis hash for one without a predecessor. */
  ghost predicate Consistent(genesis: Hash, events: seq<Event>) {
    && (forall i, j | 0 <= i < j < |events| && events[i].hash == events[j].hash :: events[i].prev == events[j].prev)
    && (forall i | 0 <= i < |events| && events[i].hash == genesis :: events[i].prev == NULL_HASH)
  }

  ghost predicate WaitsFor(events: seq<Event>, h: Hash) {
    exists i :: 0 <= i < |events| && Accepted(events[i]) && events[i].prev == h
  }

  /** Everything stored was brought by an event. */
  ghost predicate Brought(c: Chain, events: seq<Event>) {
    forall k | 0 <= k < |c.headers| :: exists i ::
      0 <= i < |events| && c.headers[k] == Header(events[i].hash, events[i].prev)
  }

  /** Before genesis arrives the store connects nothing and files every block it accepts. */
  ghost predicate Waiting(c: Chain, genesis: Hash, events: seq<Event>) {
    && Inv(c) && c.main == [] && c.genesis == genesis && Brought(c, events)
    && forall h :: HasOrphan(c.orphans, h) <==> WaitsFor(events, h)
  }

  lemma {:induction false} BeforeGenesis(genesis: Hash, events: seq<Event>)
    requires Inv(EmptyChain(genesis)) && Consistent(genesis, events)
    requires forall i | 0 <= i < |events| :: Accepted(events[i]) ==> events[i].hash != genesis
    ensures var r := Run(EmptyChain(genesis), events); r.Running? && Waiting(r.chain, genesis, events)
  {
    hide Find, FirstOrphan, Path;
    if events != [] {
      var n := |events| - 1;
      BeforeGenesis(genesis, events[..n]);
      StepWaits(Run(EmptyChain(genesis), events[..n]).chain, genesis, events, n);
    }
  }

  lemma StepWaits(c: Chain, genesis: Hash, events: seq<Event>, n: nat)
    requires n + 1 == |events| && Waiting(c, genesis, events[..n]) && Consistent(genesis, events)
    requires Accepted(events[n]) ==> events[n].hash != genesis
    ensures var r := Step(c, events[n]); r.Running? && Waiting(r.chain, genesis, events)
  {
    hide Find, Path;
    var e := events[n];
    var d := AddHeader(c, e.hash, e.prev);
    var id := IdOf(c, e.hash, e.prev);
    StoredAsBrought(c, genesis, events, n);
    forall h ensures WaitsFor(events, h) <==> WaitsFor(events[..n], h) || (Accepted(e) && e.prev == h) {
      if i :| 0 <= i < |events| && Accepted(events[i]) && events[i].prev == h && i < n {
        assert events[..n][i] == events[i];
      }
    }
    if Accepted(e) {
      var o := c.orphans + [(e.prev, id)];
      forall h ensures HasOrphan(o, h) <==> HasOrphan(c.orphans, h) || e.prev == h {
        FiledOrphan(c.orphans, (e.prev, id), h);
      }
    }
  }

  /** Whatever is stored under a hash has the predecessor the latest event with that hash names. */
  lemma StoredAsBrought(c: Chain, genesis: Hash, events: seq<Event>, n: nat)
    requires n + 1 == |events| && Inv(c) && Brought(c, events[..n]) && Consistent(genesis, events)
    ensures var e := events[n]; var d := AddHeader(c, e.hash, e.prev);
      d.headers[IdOf(c, e.hash, e.prev)] == Header(e.hash, e.prev) && Brought(d, events)
  {
    hide Path;
    var e := events[n];
    var d := AddHeader(c, e.hash, e.prev);
    forall k | 0 <= k < |c.headers|
      ensures exists i :: 0 <= i < |events| && c.headers[k] == Header(events[i].hash, events[i].prev)
      ensures c.headers[k].hash == e.hash ==> c.headers[k].prev == e.prev
    {
      var i :| 0 <= i < n && c.headers[k] == Header(events[..n][i].hash, events[..n][i].prev);
      assert events[..n][i] == events[i];
    }
  }

  lemma FiledOrphan(orphans: seq<(Hash, nat)>, o: (Hash, nat), h: Hash)
    ensures HasOrphan(orphans + [o], h) <==> HasOrphan(orphans, h) || o.0 == h
  {
    var all := orphans + [o];
    var k, j := FirstOrphan(orphans, h), FirstOrphan(all, h);
    assert k < |orphans| ==> all[k].0 == h && !(k < j);
    assert o.0 == h ==> all[|orphans|].0 == h && !(|orphans| < j);
    assert j < |orphans| ==> orphans[j].0 == h && !(j < k);
  }

  /** A run whose first connected block is genesis is stuck the moment genesis arrives if and only
      if a child of genesis was accepted before it. */
  lemma StuckAtGenesisIff(genesis: Hash, events: seq<Event>)
    requires Inv(EmptyChain(genesis)) && Consistent(genesis, events)
    requires forall i | 0 <= i < |events| :: Accepted(events[i]) ==> events[i].hash != genesis
    ensures Run(EmptyChain(genesis), events + [NewBlock(genesis, NULL_HASH, true)]).Stuck? <==>
      WaitsFor(events, genesis)
  {
    hide Run, Step, Inv, Waiting;
    var g := NewBlock(genesis, NULL_HASH, true);
    var all := events + [g];
    BeforeGenesis(genesis, events);
    RunSnoc(EmptyChain(genesis), events, g);
    assert all[..|events|] == events;
    GenesisArrives(Run(EmptyChain(genesis), events).chain, genesis, all, |events|);
  }

  lemma RunSnoc(c: Chain, events: seq<Event>, e: Event)
    requires Inv(c)
    ensures var r := Run(c, events); Run(c, events + [e]) == if r.Running? then Step(r.chain, e) else r
  {
    assert (events + [e])[..|events|] == events;
  }

  lemma GenesisArrives(c: Chain, genesis: Hash, events: seq<Event>, n: nat)
    requires n + 1 == |events| && Waiting(c, genesis, events[..n]) && Consistent(genesis, events)
    requires events[n] == NewBlock(genesis, NULL_HASH, true)
    ensures Step(c, events[n]).Stuck? <==> WaitsFor(events[..n], genesis)
  {
    hide Find, FirstOrphan, Path, ConnectState;
    StoredAsBrought(c, genesis, events, n);
    var d := AddHeader(c, genesis, NULL_HASH);
    AddHeaderKeepsInv(c, genesis, NULL_HASH);
    assert Below(d, IdOf(c, genesis, NULL_HASH));
    assert HasOrphan(c.orphans, genesis) <==> WaitsFor(events[..n], genesis);
  }
}
