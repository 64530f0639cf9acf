/** Exactly which runs of the block tree come to a halt: a condition on the events alone. */
module ChainRuns {
  import opened Wrappers
  import opened ChainModel

  // ---------------------------------------------------------------- one step

  /** No block waits for a connected one. */
  ghost predicate NoneWaits(c: Chain) {
    forall i: nat | Connected(c, i) :: !HasOrphan(c.orphans, c.headers[i].hash)
  }

  /** The event brings a block that is connected now: genesis to an empty tree, or a new block under
      a connected parent. */
  ghost predicate Joins(c: Chain, e: Event)
    requires Inv(c)
  {
    var d, id := AddHeader(c, e.hash, e.prev), IdOf(c, e.hash, e.prev);
    && Accepted(e) && !Connected(d, id)
    && if c.main == [] then d.headers[id] == Header(c.genesis, NULL_HASH)
      else HasParent(d, id) && Connected(d, Parent(d, id))
  }

  /** The event brings a block that is connected already, under a connected parent. */
  ghost predicate Rejoins(c: Chain, e: Event)
    requires Inv(c)
  {
    var d, id := AddHeader(c, e.hash, e.prev), IdOf(c, e.hash, e.prev);
    Accepted(e) && c.main != [] && Connected(d, id) && HasParent(d, id) && Connected(d, Parent(d, id))
  }

  /** A step never returns exactly when it connects a block that another one waits for; it fails the
      height assertion exactly when the block is connected already. */
  lemma StepHalts(c: Chain, e: Event)
    requires Inv(c) && NoneWaits(c)
    ensures Step(c, e).Stuck? <==> Joins(c, e) && HasOrphan(c.orphans, e.hash)
    ensures Step(c, e).Aborted? <==> Rejoins(c, e)
  {
    hide Find, FirstOrphan, Path, ConnectState, RemovalEnds, DescentEnds;
    if Accepted(e) {
      AddHeaderKeepsInv(c, e.hash, e.prev);
      StepHaltsAt(c, e, AddHeader(c, e.hash, e.prev), IdOf(c, e.hash, e.prev));
    }
  }

  lemma StepHaltsAt(c: Chain, e: Event, d: Chain, id: nat)
    requires Inv(c) && NoneWaits(c) && Accepted(e) && Inv(d)
    requires d == AddHeader(c, e.hash, e.prev) && id == IdOf(c, e.hash, e.prev)
    ensures ConnectOutcome(d, id).Hangs? <==> Joins(c, e) && HasOrphan(c.orphans, e.hash)
    ensures ConnectOutcome(d, id).AssertionFails? <==> Rejoins(c, e)
  {
    hide Find, Path;
    assert Below(d, id);
    if c.main != [] && HasParent(d, id) && Connected(d, Parent(d, id)) {
      NobodyUnder(c, d, Parent(d, id));
    }
  }

  lemma NobodyUnder(c: Chain, d: Chain, p: nat)
    requires Inv(c) && NoneWaits(c) && d.orphans == c.orphans && Connected(d, p)
    requires exists hash, prev :: d == AddHeader(c, hash, prev)
    ensures FirstOrphan(d.orphans, d.headers[p].hash) == |d.orphans|
  {
    hide Find;
    assert Connected(c, p) && c.headers[p] == d.headers[p];
  }

  /** The store with the event's header in it, and the id of that header. */
  ghost function Stored(c: Chain, e: Event): (d: Chain)
    requires Inv(c)
    ensures Inv(d) && d.orphans == c.orphans && d.main == c.main && d.genesis == c.genesis
    ensures forall i: nat :: Connected(d, i) <==> Connected(c, i)
    ensures forall i: nat :: Connected(c, i) ==> i < |d.headers| && d.headers[i] == c.headers[i]
    ensures Accepted(e) ==> IdOf(c, e.hash, e.prev) < |d.headers| && d.headers[IdOf(c, e.hash, e.prev)].hash == e.hash
  {
    hide Find;
    AddHeaderKeepsInv(c, e.hash, e.prev);
    if e.NewBlock? && !e.merkleOk then c else AddHeader(c, e.hash, e.prev)
  }

  /** The store after a step that returned. */
  lemma StepState(c: Chain, e: Event)
    requires Inv(c) && NoneWaits(c) && Step(c, e).Running?
    ensures var d, s, id := Stored(c, e), Step(c, e).chain, IdOf(c, e.hash, e.prev);
      && s.genesis == c.genesis && s.headers == d.headers
      && (forall i: nat :: Connected(s, i) <==> Connected(c, i) || (Joins(c, e) && i == id))
      && (s.main == [] <==> c.main == [] && !Joins(c, e))
      && s.orphans ==
        if c.main == [] && Accepted(e) && !Joins(c, e) then c.orphans + [(d.headers[id].prev, id)] else c.orphans
  {
    hide Find, Path, FirstOrphan, RemovalEnds, DescentEnds;
    if Accepted(e) {
      var d, id := Stored(c, e), IdOf(c, e.hash, e.prev);
      assert Below(d, id);
      StepHaltsAt(c, e, d, id);
      if Joins(c, e) && c.main != [] {
        NobodyUnder(c, d, Parent(d, id));
      }
    }
  }

  /** Every step that returns keeps it so. */
  lemma NoneWaitsKept(c: Chain, e: Event)
    requires Inv(c) && NoneWaits(c) && Step(c, e).Running?
    ensures NoneWaits(Step(c, e).chain)
  {
    hide Find, Path, FirstOrphan, Step, Stored;
    StepState(c, e);
    StepHalts(c, e);
    var s, id := Step(c, e).chain, IdOf(c, e.hash, e.prev);
    forall i: nat | Connected(s, i) ensures !HasOrphan(s.orphans, s.headers[i].hash) {
      if Connected(c, i) {
        assert Below(c, i);
      }
    }
  }

  // ---------------------------------------------------------------- whole runs

  /** After every run that still answers, no block waits for a connected one. */
  lemma {:induction false} NoneEverWaits(genesis: Hash, events: seq<Event>)
    requires Inv(EmptyChain(genesis)) && Run(EmptyChain(genesis), events).Running?
    ensures NoneWaits(Run(EmptyChain(genesis), events).chain)
    decreases |events|
  {
    hide Find, Step, Inv, HasOrphan;
    if events != [] {
      var n := |events| - 1;
      NoneEverWaits(genesis, events[..n]);
      NoneWaitsKept(Run(EmptyChain(genesis), events[..n]).chain, events[n]);
    }
  }

  /** The hashes of the tree that a sequence of events would grow if no call ever failed to return:
      genesis first, then every accepted block whose predecessor is there. */
  ghost function Grown(genesis: Hash, events: seq<Event>): (g: set<Hash>)
    ensures g != {} ==> genesis in g
    decreases |events|
  {
    if events == [] then {}
    else
      var g, e := Grown(genesis, events[..|events| - 1]), events[|events| - 1];
      if Accepted(e) && (if g == {} then e.hash == genesis else e.prev in g) then g + {e.hash} else g
  }

  /** A child of h was accepted before genesis. */
  ghost predicate ChildBeforeGenesis(genesis: Hash, events: seq<Event>, h: Hash) {
    exists i :: 0 <= i < |events| && Accepted(events[i]) && events[i].prev == h && Grown(genesis, events[..i + 1]) == {}
  }

  /** Event n connects a block of which a child was accepted before genesis. */
  ghost predicate Blocks(genesis: Hash, events: seq<Event>, n: nat)
    requires n < |events|
  {
    var g, e := Grown(genesis, events[..n]), events[n];
    && Accepted(e) && e.hash !in g && (if g == {} then e.hash == genesis else e.prev in g)
    && ChildBeforeGenesis(genesis, events[..n], e.hash)
  }

  /** Event n brings a block that is connected already, under a connected parent. */
  ghost predicate Repeats(genesis: Hash, events: seq<Event>, n: nat)
    requires n < |events|
  {
    var g, e := Grown(genesis, events[..n]), events[n];
    Accepted(e) && e.hash in g && e.prev in g
  }

  ghost predicate Passes(genesis: Hash, events: seq<Event>, n: nat)
    requires n < |events|
  {
    !Blocks(genesis, events, n) && !Repeats(genesis, events, n)
  }

  /** The store holds what the events say. */
  ghost predicate Tracks(c: Chain, genesis: Hash, events: seq<Event>) {
    var g := Grown(genesis, events);
    && Inv(c) && NoneWaits(c) && c.genesis == genesis && Brought(c, events)
    && (forall k: nat | k < |c.headers| :: Connected(c, k) <==> c.headers[k].hash in g)
    && (forall h | h in g :: Find(c.headers, h).Some?)
    && (c.main == [] <==> g == {})
    && (forall h :: HasOrphan(c.orphans, h) <==> ChildBeforeGenesis(genesis, events, h))
  }

  lemma ChildrenSoFar(genesis: Hash, events: seq<Event>, n: nat, h: Hash)
    requires n + 1 == |events|
    ensures ChildBeforeGenesis(genesis, events, h) <==>
      ChildBeforeGenesis(genesis, events[..n], h) ||
        (Accepted(events[n]) && events[n].prev == h && Grown(genesis, events) == {})
  {
    assert events[..n + 1] == events;
    forall i | 0 <= i < n ensures events[..n][i] == events[i] && events[..n][..i + 1] == events[..i + 1] {
    }
    if ChildBeforeGenesis(genesis, events[..n], h) {
      var i :| 0 <= i < n && Accepted(events[..n][i]) && events[..n][i].prev == h &&
        Grown(genesis, events[..n][..i + 1]) == {};
      assert Accepted(events[i]) && events[i].prev == h && Grown(genesis, events[..i + 1]) == {};
    }
  }

  /** In the store's terms the next event joins, or repeats, exactly when it does in terms of hashes. */
  lemma SameQuestion(c: Chain, genesis: Hash, events: seq<Event>, n: nat)
    requires n + 1 == |events| && Tracks(c, genesis, events[..n]) && Consistent(genesis, events)
    ensures var g, e := Grown(genesis, events[..n]), events[n];
      && (Joins(c, e) <==> Accepted(e) && e.hash !in g && (if g == {} then e.hash == genesis else e.prev in g))
      && (Rejoins(c, e) <==> Accepted(e) && e.hash in g && e.prev in g)
      && AddHeader(c, e.hash, e.prev).headers[IdOf(c, e.hash, e.prev)] == Header(e.hash, e.prev)
  {
    hide NoneWaits, ChildBeforeGenesis, Grown, Brought, HasOrphan;
    var e := events[n];
    StoredAsBrought(c, genesis, events, n);
    assert e.hash == genesis ==> e.prev == NULL_HASH;
    SameInStore(c, genesis, events[..n], e, AddHeader(c, e.hash, e.prev), IdOf(c, e.hash, e.prev));
  }

  lemma SameInStore(c: Chain, genesis: Hash, events: seq<Event>, e: Event, d: Chain, id: nat)
    requires Tracks(c, genesis, events) && d == AddHeader(c, e.hash, e.prev) && id == IdOf(c, e.hash, e.prev)
    requires d.headers[id] == Header(e.hash, e.prev) && (e.hash == genesis ==> e.prev == NULL_HASH)
    ensures var g := Grown(genesis, events);
      && (Connected(d, id) <==> e.hash in g)
      && (HasParent(d, id) && Connected(d, Parent(d, id)) <==> e.prev in g)
      && (Joins(c, e) <==> Accepted(e) && e.hash !in g && (if g == {} then e.hash == genesis else e.prev in g))
      && (Rejoins(c, e) <==> Accepted(e) && e.hash in g && e.prev in g)
  {
    hide NoneWaits, ChildBeforeGenesis, Grown, Brought, HasOrphan, Find, AddHeader, Inv;
    InTree(c, genesis, events, e, d, id, e.hash);
    InTree(c, genesis, events, e, d, id, e.prev);
    AddHeaderKeepsInv(c, e.hash, e.prev);
    FindStored(d, id);
  }

  /** Hash h is grown exactly when a connected block of the extended store has it. */
  lemma InTree(c: Chain, genesis: Hash, events: seq<Event>, e: Event, d: Chain, id: nat, h: Hash)
    requires Tracks(c, genesis, events) && d == AddHeader(c, e.hash, e.prev) && id == IdOf(c, e.hash, e.prev)
    ensures h in Grown(genesis, events) <==> Find(d.headers, h).Some? && Connected(d, Find(d.headers, h).value)
  {
    hide NoneWaits, ChildBeforeGenesis, Grown, Brought, HasOrphan, Path;
    AddHeaderKeepsInv(c, e.hash, e.prev);
    var k := Find(d.headers, h);
    assert k.Some? && Connected(d, k.value) ==> Connected(c, k.value) && c.headers[k.value].hash == h;
    if h in Grown(genesis, events) {
      FindStored(d, Find(c.headers, h).value);
    }
  }

  lemma FindStored(d: Chain, id: nat)
    requires Inv(d) && id < |d.headers|
    ensures Find(d.headers, d.headers[id].hash) == Some(id)
  {
    FindUnique(d.headers, id);
  }

  lemma TrackStep(c: Chain, genesis: Hash, events: seq<Event>, n: nat)
    requires n + 1 == |events| && Tracks(c, genesis, events[..n]) && Consistent(genesis, events)
    ensures var s := Step(c, events[n]);
      && (s.Stuck? <==> Blocks(genesis, events, n)) && (s.Aborted? <==> Repeats(genesis, events, n))
      && (s.Running? ==> Tracks(s.chain, genesis, events))
  {
    hide Step, Blocks, Repeats, NoneWaits, ChildBeforeGenesis, Grown, Inv, HasOrphan, Find, Brought, Consistent;
    TrackHalts(c, genesis, events, n);
    if Step(c, events[n]).Running? {
      TrackKept(c, genesis, events, n);
    }
  }

  lemma TrackHalts(c: Chain, genesis: Hash, events: seq<Event>, n: nat)
    requires n + 1 == |events| && Tracks(c, genesis, events[..n]) && Consistent(genesis, events)
    ensures var s := Step(c, events[n]);
      (s.Stuck? <==> Blocks(genesis, events, n)) && (s.Aborted? <==> Repeats(genesis, events, n))
  {
    hide Step, NoneWaits, ChildBeforeGenesis, Grown, Joins, Rejoins, Inv, HasOrphan, Find, Brought, Consistent;
    SameQuestion(c, genesis, events, n);
    StepHalts(c, events[n]);
  }

  lemma TrackKept(c: Chain, genesis: Hash, events: seq<Event>, n: nat)
    requires n + 1 == |events| && Tracks(c, genesis, events[..n]) && Consistent(genesis, events)
    requires Step(c, events[n]).Running?
    ensures Tracks(Step(c, events[n]).chain, genesis, events)
  {
    hide Step, NoneWaits, ChildBeforeGenesis, Grown, Inv, HasOrphan, Find, Brought, Consistent;
    NoneWaitsKept(c, events[n]);
    TrackedTree(c, genesis, events, n);
    TrackedOrphans(c, genesis, events, n);
  }

  lemma GrownStep(genesis: Hash, events: seq<Event>, n: nat)
    requires n + 1 == |events|
    ensures var g, e := Grown(genesis, events[..n]), events[n];
      Grown(genesis, events) ==
        if Accepted(e) && (if g == {} then e.hash == genesis else e.prev in g) then g + {e.hash} else g
  {
  }

  lemma TrackedTree(c: Chain, genesis: Hash, events: seq<Event>, n: nat)
    requires n + 1 == |events| && Tracks(c, genesis, events[..n]) && Consistent(genesis, events)
    requires Step(c, events[n]).Running?
    ensures var s, g := Step(c, events[n]).chain, Grown(genesis, events);
      && s.genesis == genesis && Brought(s, events) && (s.main == [] <==> g == {})
      && (forall k: nat | k < |s.headers| :: Connected(s, k) <==> s.headers[k].hash in g)
      && (forall h | h in g :: Find(s.headers, h).Some?)
  {
    hide Path, Find, Step, NoneWaits, ChildBeforeGenesis, Grown, HasOrphan, Joins, Rejoins, Brought, Inv;
    var e := events[n];
    SameQuestion(c, genesis, events, n);
    StepState(c, e);
    GrownStep(genesis, events, n);
    StillBrought(c, genesis, events, n);
    var s, g := Step(c, e).chain, Grown(genesis, events[..n]);
    var d, id := AddHeader(c, e.hash, e.prev), IdOf(c, e.hash, e.prev);
    HeadersAfter(c, e);
    forall k: nat | k < |s.headers| ensures Connected(s, k) <==> s.headers[k].hash in Grown(genesis, events) {
      OneHeader(c, e, s, k);
    }
    forall h | h in Grown(genesis, events) ensures Find(s.headers, h).Some? {
      if h in g {
        StillFound(c, e, s, h);
      } else {
        StillFound(c, e, s, e.hash);
      }
    }
  }

  lemma StillBrought(c: Chain, genesis: Hash, events: seq<Event>, n: nat)
    requires n + 1 == |events| && Inv(c) && Brought(c, events[..n]) && Consistent(genesis, events)
    ensures Brought(Stored(c, events[n]), events)
    ensures forall s: Chain :: s.headers == Stored(c, events[n]).headers ==> Brought(s, events)
  {
    hide Path, Find, Inv;
    StoredAsBrought(c, genesis, events, n);
    forall k | 0 <= k < |c.headers|
      ensures exists i :: 0 <= i < |events| && c.headers[k] == Header(events[i].hash, events[i].prev)
    {
      var i :| 0 <= i < n && c.headers[k] == Header(events[..n][i].hash, events[..n][i].prev);
      assert events[..n][i] == events[i];
    }
  }

  lemma HeadersAfter(c: Chain, e: Event)
    requires Inv(c)
    ensures Accepted(e) ==> Stored(c, e) == AddHeader(c, e.hash, e.prev)
    ensures |c.headers| <= |Stored(c, e).headers| && Stored(c, e).headers[..|c.headers|] == c.headers
    ensures forall k: nat :: |c.headers| <= k < |Stored(c, e).headers| ==>
      k == |c.headers| == IdOf(c, e.hash, e.prev) && Stored(c, e).headers[k] == Header(e.hash, e.prev) &&
        Find(c.headers, e.hash).None?
  {
    hide Path, Find, Inv;
    AddHeaderKeepsInv(c, e.hash, e.prev);
    if Find(c.headers, e.hash).None? {
      assert IdOf(c, e.hash, e.prev) == |c.headers|;
    }
  }

  /** Header k of the store after the step. */
  lemma OneHeader(c: Chain, e: Event, s: Chain, k: nat)
    requires Inv(c) && s.headers == Stored(c, e).headers && k < |s.headers|
    ensures k < |c.headers| ==> s.headers[k] == c.headers[k]
    ensures k >= |c.headers| ==>
      !Connected(c, k) && s.headers[k].hash == e.hash && k == IdOf(c, e.hash, e.prev) && Find(c.headers, e.hash).None?
    ensures Accepted(e) ==> (s.headers[k].hash == e.hash <==> k == IdOf(c, e.hash, e.prev))
  {
    hide Path, Find, Stored;
    HeadersAfter(c, e);
    assert k < |c.headers| ==> Stored(c, e).headers[..|c.headers|][k] == c.headers[k];
    assert Unique(Stored(c, e).headers);
  }

  lemma StillFound(c: Chain, e: Event, s: Chain, h: Hash)
    requires Inv(c) && s.headers == Stored(c, e).headers
    requires Find(c.headers, h).Some? || (Accepted(e) && h == e.hash)
    ensures Find(s.headers, h).Some?
  {
    hide Path, Inv, Stored;
    HeadersAfter(c, e);
    if Find(c.headers, h).Some? {
      var k := Find(c.headers, h).value;
      assert Stored(c, e).headers[..|c.headers|][k] == c.headers[k];
      assert s.headers[k].hash == h;
    } else {
      assert s.headers[IdOf(c, e.hash, e.prev)].hash == h;
    }
  }

  lemma TrackedOrphans(c: Chain, genesis: Hash, events: seq<Event>, n: nat)
    requires n + 1 == |events| && Tracks(c, genesis, events[..n]) && Consistent(genesis, events)
    requires Step(c, events[n]).Running?
    ensures forall h :: HasOrphan(Step(c, events[n]).chain.orphans, h) <==> ChildBeforeGenesis(genesis, events, h)
  {
    hide Path, Step, NoneWaits, ChildBeforeGenesis, Grown, HasOrphan, Inv, Find;
    var e := events[n];
    SameQuestion(c, genesis, events, n);
    StepState(c, e);
    GrownStep(genesis, events, n);
    forall h ensures HasOrphan(Step(c, e).chain.orphans, h) <==> ChildBeforeGenesis(genesis, events, h) {
      ChildrenSoFar(genesis, events, n, h);
      FiledOrphan(c.orphans, (e.prev, IdOf(c, e.hash, e.prev)), h);
    }
  }

  /** Event n is the first that does not pass. */
  ghost predicate FirstHalt(genesis: Hash, events: seq<Event>, n: nat) {
    n < |events| && !Passes(genesis, events, n) && forall m: nat | m < n :: Passes(genesis, events, m)
  }

  /** A run still answers exactly when every event passes. It gets stuck exactly when the first that
      does not connects a block of which a child was accepted before genesis, and it aborts exactly
      when that first one brings a block again that is connected under a connected parent. */
  lemma {:induction false} RunHalts(genesis: Hash, events: seq<Event>)
    requires Inv(EmptyChain(genesis)) && Consistent(genesis, events)
    ensures var r := Run(EmptyChain(genesis), events);
      && (r.Running? <==> forall n: nat | n < |events| :: Passes(genesis, events, n))
      && (r.Stuck? <==> exists n: nat :: FirstHalt(genesis, events, n) && Blocks(genesis, events, n))
      && (r.Aborted? <==> exists n: nat :: FirstHalt(genesis, events, n) && Repeats(genesis, events, n))
      && (r.Running? ==> Tracks(r.chain, genesis, events))
    decreases |events|
  {
    hide Path, Find, Step, Inv, Tracks, Blocks, Repeats;
    if events == [] {
      NothingYet(genesis);
    } else {
      var n := |events| - 1;
      var before := events[..n];
      RunHalts(genesis, before);
      var r := Run(EmptyChain(genesis), before);
      if r.Running? {
        TrackStep(r.chain, genesis, events, n);
        HaltsNow(genesis, events, n);
      } else {
        HaltedBefore(genesis, events, n);
      }
    }
  }

  /** When all events before the last one pass, the last one decides. */
  lemma HaltsNow(genesis: Hash, events: seq<Event>, n: nat)
    requires n + 1 == |events| && forall m: nat | m < n :: Passes(genesis, events[..n], m)
    ensures (forall m: nat | m < |events| :: Passes(genesis, events, m)) <==> Passes(genesis, events, n)
    ensures (exists k: nat :: FirstHalt(genesis, events, k) && Blocks(genesis, events, k)) <==>
      Blocks(genesis, events, n)
    ensures (exists k: nat :: FirstHalt(genesis, events, k) && Repeats(genesis, events, k)) <==>
      Repeats(genesis, events, n)
  {
    hide Blocks, Repeats;
    SameHalts(genesis, events, n);
    assert !Passes(genesis, events, n) ==> FirstHalt(genesis, events, n);
  }

  /** When one before did not pass, the last one changes nothing. */
  lemma HaltedBefore(genesis: Hash, events: seq<Event>, n: nat)
    requires n + 1 == |events| && exists m: nat | m < n :: !Passes(genesis, events[..n], m)
    ensures exists m: nat | m < |events| :: !Passes(genesis, events, m)
    ensures (exists k: nat :: FirstHalt(genesis, events, k) && Blocks(genesis, events, k)) <==>
      exists k: nat :: FirstHalt(genesis, events[..n], k) && Blocks(genesis, events[..n], k)
    ensures (exists k: nat :: FirstHalt(genesis, events, k) && Repeats(genesis, events, k)) <==>
      exists k: nat :: FirstHalt(genesis, events[..n], k) && Repeats(genesis, events[..n], k)
  {
    hide Blocks, Repeats;
    SameHalts(genesis, events, n);
    var m: nat :| m < n && !Passes(genesis, events[..n], m);
    assert !Passes(genesis, events, m);
  }

  lemma SameHalts(genesis: Hash, events: seq<Event>, n: nat)
    requires n < |events|
    ensures forall m: nat | m < n :: Passes(genesis, events[..n], m) <==> Passes(genesis, events, m)
    ensures forall m: nat | m < n :: Blocks(genesis, events[..n], m) <==> Blocks(genesis, events, m)
    ensures forall m: nat | m < n :: Repeats(genesis, events[..n], m) <==> Repeats(genesis, events, m)
    ensures forall m: nat | m < n :: FirstHalt(genesis, events[..n], m) <==> FirstHalt(genesis, events, m)
  {
    hide Blocks, Repeats;
    forall m: nat | m < n
      ensures Blocks(genesis, events[..n], m) == Blocks(genesis, events, m) &&
        Repeats(genesis, events[..n], m) == Repeats(genesis, events, m)
    {
      SameSoFar(genesis, events, n, m);
    }
    assert forall m: nat | m < n :: Passes(genesis, events[..n], m) <==> Passes(genesis, events, m);
  }

  lemma NothingYet(genesis: Hash)
    requires Inv(EmptyChain(genesis))
    ensures Tracks(EmptyChain(genesis), genesis, [])
  {
  }

  lemma SameSoFar(genesis: Hash, events: seq<Event>, n: nat, m: nat)
    requires m < n <= |events|
    ensures Blocks(genesis, events[..n], m) == Blocks(genesis, events, m) &&
      Repeats(genesis, events[..n], m) == Repeats(genesis, events, m)
  {
    hide Grown, ChildBeforeGenesis;
    assert events[..n][..m] == events[..m] && events[..n][m] == events[m];
  }

  /** Block 2 under genesis 1 arrives after its own child 3. */
  const LATE_PARENT: seq<Event> := [NewBlock(3, 2, true), NewBlock(1, 0, true), NewBlock(2, 1, true)]

  lemma LateGrown()
    ensures Grown(1, LATE_PARENT[..0]) == {} && Grown(1, LATE_PARENT[..1]) == {} && Grown(1, LATE_PARENT[..2]) == {1}
  {
    var e := LATE_PARENT;
    assert e[..1][..0] == e[..0] == [] && e[..2][..1] == e[..1];
    GrownStep(1, e[..1], 0);
    GrownStep(1, e[..2], 1);
  }

  lemma LateHalts()
    ensures Passes(1, LATE_PARENT, 0) && Passes(1, LATE_PARENT, 1) && Blocks(1, LATE_PARENT, 2)
  {
    hide Grown;
    LateGrown();
    var e := LATE_PARENT;
    assert e[..2][0] == e[0] && e[..2][..1] == e[..1];
    assert ChildBeforeGenesis(1, e[..2], 2);
    assert e[..1][0].prev == 2;
  }

  /** That run gets past genesis, and gets stuck one block later. */
  lemma StuckPastGenesis()
    ensures Inv(EmptyChain(1)) && Run(EmptyChain(1), LATE_PARENT[..2]).Running? &&
      Run(EmptyChain(1), LATE_PARENT).Stuck?
  {
    hide Run, Blocks, Repeats, Inv;
    EmptyInv(1);
    LateHalts();
    var e := LATE_PARENT;
    SameHalts(1, e, 2);
    assert Passes(1, e[..2], 0) && Passes(1, e[..2], 1);
    RunHalts(1, e[..2]);
    assert FirstHalt(1, e, 2);
    RunHalts(1, e);
  }
}
