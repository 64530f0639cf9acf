/** The singleton store of headers and its main chain, updated in place. */
module Blockchain {
  import opened Wrappers
  import Power
  import opened ChainModel

  class BlockHeader {
    const hash: Hash
    const prev: Hash
    var id: Option<nat>
    var height: Option<nat>

    constructor (hash: Hash, prev: Hash)
      ensures this.hash == hash && this.prev == prev && id.None? && height.None?
    {
      this.hash := hash;
      this.prev := prev;
      id := None;
      height := None;
    }

    /** The assertion that the id is unset is the caller's duty. */
    method SetId(id: nat)
      requires this.id.None?
      modifies this`id
      ensures this.id == Some(id)
    {
      this.id := Some(id);
    }

    /** The assertion that the height is unset is the caller's duty. */
    method SetHeight(height: nat)
      requires this.height.None?
      modifies this`height
      ensures this.height == Some(height)
    {
      this.height := Some(height);
    }

    predicate InChain()
      reads this
    {
      height.Some?
    }
  }

  class Store {
    const genesisBlockHash: Hash
    var blocks: seq<BlockHeader>
    var blockIds: map<Hash, nat>
    var blockHashes: map<nat, Hash>
    var orphanBlocks: seq<(Hash, nat)>
    var mainChain: seq<nat>

    ghost function View(): (c: Chain)
      reads this, blocks
      ensures |c.headers| == |c.heights| == |blocks|
      ensures forall i | 0 <= i < |blocks| ::
        c.headers[i] == Header(blocks[i].hash, blocks[i].prev) && c.heights[i] == blocks[i].height
      ensures c.genesis == genesisBlockHash && c.orphans == orphanBlocks && c.main == mainChain
    {
      Chain(genesisBlockHash,
            seq(|blocks|, i requires 0 <= i < |blocks| reads this, blocks => Header(blocks[i].hash, blocks[i].prev)),
            seq(|blocks|, i requires 0 <= i < |blocks| reads this, blocks => blocks[i].height),
            orphanBlocks, mainChain)
    }

    /** blockIds finds headers by hash as a search through them would. */
    ghost predicate Ids(headers: seq<Header>)
      reads this`blockIds
    {
      forall h: Hash {:trigger h in blockIds} ::
        if h in blockIds then Find(headers, h) == Some(blockIds[h]) else Find(headers, h).None?
    }

    /** c has the stored headers with their ids and heights, whatever the main chain is just now. */
    ghost predicate Snapshot(c: Chain)
      reads this`blocks, this`blockIds, blocks
    {
      && |c.headers| == |c.heights| == |blocks| && Ids(c.headers)
      && (forall i | 0 <= i < |blocks| :: blocks[i].id == Some(i))
      && forall i | 0 <= i < |blocks| ::
        c.headers[i] == Header(blocks[i].hash, blocks[i].prev) && c.heights[i] == blocks[i].height
    }

    /** Positions, stored ids and the two indexes agree. */
    ghost predicate Indexed()
      reads this, blocks
    {
      && Snapshot(View())
      && (forall i: nat :: i in blockHashes <==> i < |blocks|)
      && (forall i: nat | i in blockHashes :: blockHashes[i] == View().headers[i].hash)
    }

    lemma SnapshotAt(c: Chain, i: nat)
      requires Snapshot(c) && i < |blocks|
      ensures |c.headers| == |c.heights| == |blocks|
      ensures c.headers[i] == Header(blocks[i].hash, blocks[i].prev) && c.heights[i] == blocks[i].height
    {
    }

    lemma SameSnapshot(c: Chain, d: Chain)
      requires Snapshot(c) && d.headers == c.headers && d.heights == c.heights
      ensures Snapshot(d)
    {
    }

    lemma ViewIs(c: Chain)
      requires Snapshot(c) && c.genesis == genesisBlockHash && c.orphans == orphanBlocks && c.main == mainChain
      ensures View() == c
    {
      hide View;
      assert View().headers == c.headers;
      assert View().heights == c.heights;
    }

    ghost predicate Valid()
      reads this, blocks
    {
      Indexed() && Inv(View())
    }

    constructor (genesis: Hash)
      ensures Valid() && View() == EmptyChain(genesis)
    {
      genesisBlockHash := genesis;
      blocks, blockIds, blockHashes, orphanBlocks, mainChain := [], map[], map[], [], [];
    }

    function GetBlockHeaderById(id: nat): (r: BlockHeader?)
      reads this`blocks
    {
      if id >= |blocks| then null else blocks[id]
    }

    function GetBlockHeader(hash: Hash): (r: BlockHeader?)
      reads this`blocks, this`blockIds
    {
      if hash !in blockIds then null else GetBlockHeaderById(blockIds[hash])
    }

    predicate HasBlockHeader(hash: Hash)
      reads this
    {
      hash in blockIds
    }

    function GetHeight(): (r: nat)
      reads this
    {
      |mainChain|
    }

    function GetTopBlockHeader(): (r: BlockHeader?)
      requires mainChain != [] ==> Last(mainChain) < |blocks|
      reads this
    {
      if mainChain == [] then null else blocks[mainChain[|mainChain| - 1]]
    }

    /** header is new to the store, or one it already holds. */
    method AddBlockHeader(header: BlockHeader) returns (added: bool)
      requires Valid()
      requires header in blocks || (header.id.None? && header.height.None?)
      modifies this, header
      ensures Valid()
      ensures View() == AddHeader(old(View()), header.hash, header.prev)
      ensures added == Find(old(View()).headers, header.hash).None?
      ensures blocks == if added then old(blocks) + [header] else old(blocks)
      ensures forall b | b in old(blocks) :: b.height == old(b.height)
    {
      hide Find, Path, Inv, View, Snapshot;
      ghost var c := View();
      AddHeaderKeepsInv(c, header.hash, header.prev);
      IdsAt(c, header.hash);
      if HasBlockHeader(header.hash) {
        return false;
      }
      StoreHeader(c, header);
      ViewIs(AddHeader(c, header.hash, header.prev));
      return true;
    }

    lemma IdsAt(c: Chain, h: Hash)
      requires Snapshot(c)
      ensures if h in blockIds then Find(c.headers, h) == Some(blockIds[h]) else Find(c.headers, h).None?
    {
    }

    /** The four updates of addBlockHeader. */
    method StoreHeader(ghost c: Chain, header: BlockHeader)
      requires Snapshot(c) && Find(c.headers, header.hash).None?
      requires forall i: nat :: i in blockHashes <==> i < |blocks|
      requires forall i: nat | i in blockHashes :: blockHashes[i] == c.headers[i].hash
      requires header.height.None? && (header in blocks || header.id.None?)
      modifies this`blocks, this`blockIds, this`blockHashes, header`id
      ensures blocks == old(blocks) + [header] && header !in old(blocks)
      ensures var d := AddHeader(c, header.hash, header.prev);
        && Snapshot(d) && (forall i: nat :: i in blockHashes <==> i < |blocks|)
        && forall i: nat | i in blockHashes :: blockHashes[i] == d.headers[i].hash
    {
      hide Find;
      var id := |blocks|;
      assert header !in blocks;
      header.SetId(id);
      blockIds := blockIds[header.hash := id];
      blocks := blocks + [header];
      blockHashes := blockHashes[id := header.hash];
      FindSnoc(c.headers, Header(header.hash, header.prev));
    }

    lemma FindSnoc(headers: seq<Header>, e: Header)
      ensures forall h :: Find(headers + [e], h) == if e.hash == h then Some(|headers|) else Find(headers, h)
    {
      assert (headers + [e])[..|headers|] == headers;
    }

    // -------------------------------------------------------------- connecting

    /** getBlockHeader(block->prev()) of a connected block above genesis is its parent. */
    lemma ParentHeader(c: Chain, id: nat)
      requires Snapshot(c) && Tree(c) && Connected(c, id) && HeightOf(c, id) > 0
      ensures HasParent(c, id) && Connected(c, Parent(c, id))
      ensures GetBlockHeader(blocks[id].prev) == blocks[Parent(c, id)]
      ensures Path(c, Parent(c, id)) == Path(c, id)[..HeightOf(c, id)] &&
        HeightOf(c, Parent(c, id)) == HeightOf(c, id) - 1
    {
      assert Rooted(c, id);
      assert c.headers[id].prev == blocks[id].prev;
      assert Path(c, id) == Path(c, Parent(c, id)) + [id];
      assert Path(c, Parent(c, id)) == Path(c, id)[..HeightOf(c, id)];
    }

    /** Genesis is the only block at height zero. */
    lemma OneGenesis(c: Chain, x: nat, y: nat)
      requires Tree(c) && Connected(c, x) && Connected(c, y) && HeightOf(c, x) == 0 && HeightOf(c, y) == 0
      ensures x == y
    {
      assert Rooted(c, x) && Rooted(c, y);
      FindUnique(c.headers, x);
      FindUnique(c.headers, y);
    }

    /** The stack, its top first, holds the branch p from some height up. */
    ghost predicate StackOf(p: seq<nat>, chain: seq<BlockHeader>)
      reads this`blocks
    {
      |chain| <= |p| && Headers(p[|p| - |chain|..], chain)
    }

    ghost predicate Headers(ids: seq<nat>, chain: seq<BlockHeader>)
      reads this`blocks
    {
      |ids| == |chain| && forall j | 0 <= j < |chain| :: ids[j] < |blocks| && chain[j] == blocks[ids[j]]
    }

    /** cur is the block x of the branch p, and the stack holds everything of p above it. */
    ghost predicate Walking(c: Chain, p: seq<nat>, chain: seq<BlockHeader>, x: nat)
      requires Tree(c)
      reads this`blocks
    {
      && |blocks| == |c.headers| && Connected(c, x) && HeightOf(c, x) < |p| && p[..HeightOf(c, x) + 1] == Path(c, x)
      && |chain| + HeightOf(c, x) + 1 == |p| && StackOf(p, chain)
    }

    lemma WalkUp(c: Chain, p: seq<nat>, chain: seq<BlockHeader>, x: nat)
      requires Snapshot(c) && Tree(c) && Walking(c, p, chain, x) && HeightOf(c, x) > 0
      ensures HasParent(c, x) && Walking(c, p, [blocks[x]] + chain, Parent(c, x))
    {
      hide Path, Find, StackOf;
      ParentHeader(c, x);
      var h := HeightOf(c, x);
      assert p[h] == p[..h + 1][h] == x;
      assert p[..h] == p[..h + 1][..h] == Path(c, Parent(c, x));
      StackPush(p, chain);
    }

    lemma StackPush(p: seq<nat>, chain: seq<BlockHeader>)
      requires StackOf(p, chain) && |chain| < |p| && p[|p| - 1 - |chain|] < |blocks|
      ensures StackOf(p, [blocks[p[|p| - 1 - |chain|]]] + chain)
    {
      var k := |p| - 1 - |chain|;
      assert p[k..] == [p[k]] + p[k + 1..];
    }

    /** The first loop of the height check: stack the blocks that are higher than the old tip. */
    method StackAbove(ghost c: Chain, id: nat, height: nat) returns (cur: BlockHeader, chain: seq<BlockHeader>)
      requires id < |blocks| && Snapshot(c) && Tree(c) && Connected(c, id) && HeightOf(c, id) >= height
      ensures var x := Path(c, id)[height];
        Connected(c, x) && HeightOf(c, x) == height && Walking(c, Path(c, id), chain, x) && cur == blocks[x]
    {
      hide Find, Path;
      ghost var p, x := Path(c, id), id;
      var block: BlockHeader? := blocks[id];
      chain := [];
      assert p[..HeightOf(c, id) + 1] == p;
      while block != null && block.height.value > height
        invariant Walking(c, p, chain, x) && block == blocks[x] && HeightOf(c, x) >= height
        decreases HeightOf(c, x)
      {
        WalkUp(c, p, chain, x);
        ParentHeader(c, x);
        chain := [block] + chain;
        block := GetBlockHeader(block.prev);
        x := Parent(c, x);
      }
      assert p[height] == p[..height + 1][height] == x;
      cur := block;
    }

    /** The second loop: walk both branches back in step, popping the old one, until they meet. */
    method PopToFork(ghost c: Chain, ghost p: seq<nat>, start: BlockHeader, stacked: seq<BlockHeader>, ghost from: nat)
      returns (chain: seq<BlockHeader>, ghost x: nat)
      requires Snapshot(c) && Tree(c) && Walking(c, p, stacked, from) && start == blocks[from]
      requires mainChain != [] && Connected(c, Last(mainChain)) && mainChain == Path(c, Last(mainChain))
      requires HeightOf(c, from) == |mainChain| - 1
      modifies this`mainChain
      ensures Walking(c, p, chain, x) && mainChain == p[..HeightOf(c, x) + 1]
    {
      hide Find, Path;
      var newChainBlock: BlockHeader? := start;
      ghost var y := Last(mainChain);
      var oldChainBlock := GetTopBlockHeader();
      chain, x := stacked, from;
      while newChainBlock != null && oldChainBlock != null && newChainBlock != oldChainBlock
        invariant Walking(c, p, chain, x) && newChainBlock == blocks[x]
        invariant Connected(c, y) && HeightOf(c, y) == HeightOf(c, x) && oldChainBlock == blocks[y]
        invariant mainChain == Path(c, y)
        decreases HeightOf(c, x)
      {
        Diverging(c, x, y);
        WalkUp(c, p, chain, x);
        ParentHeader(c, x);
        ParentHeader(c, y);
        chain := [newChainBlock] + chain;
        mainChain := mainChain[..|mainChain| - 1];
        newChainBlock := GetBlockHeader(newChainBlock.prev);
        oldChainBlock := GetBlockHeader(oldChainBlock.prev);
        x := Parent(c, x);
        y := Parent(c, y);
      }
      SameHeader(c, x, y);
    }

    lemma StackTop(p: seq<nat>, chain: seq<BlockHeader>)
      requires StackOf(p, chain) && chain != []
      ensures p[|p| - |chain|] < |blocks| && chain[0] == blocks[p[|p| - |chain|]]
      ensures StackOf(p, chain[1..])
    {
      var k := |p| - |chain|;
      assert p[k..] == [p[k]] + p[k + 1..];
    }

    /** The third loop: push the new branch. The assertion on its heights never fails. */
    method PushBranch(ghost c: Chain, ghost id: nat, stacked: seq<BlockHeader>, ghost x: nat)
      requires Snapshot(c) && Tree(c) && Connected(c, id) && Walking(c, Path(c, id), stacked, x)
      requires mainChain == Path(c, id)[..HeightOf(c, x) + 1]
      modifies this`mainChain
      ensures mainChain == Path(c, id)
    {
      hide Find, Path, StackOf, Snapshot, Tree;
      ghost var p := Path(c, id);
      var chain := stacked;
      while chain != []
        invariant |mainChain| + |chain| == |p| && mainChain == p[..|mainChain|]
        invariant StackOf(p, chain)
      {
        StackTop(p, chain);
        var block := chain[0];
        chain := chain[1..];
        OnPath(c, id, |mainChain|);
        assert block.height.value == |mainChain|;
        mainChain := mainChain + [block.id.value];
      }
    }

    /** The part of connectToAncestor that checks the new height. */
    method CheckNewHeight(ghost c: Chain, id: nat)
      requires id < |blocks| && Snapshot(c) && Tree(c) && Connected(c, id)
      requires c.main == mainChain != [] && Connected(c, Last(c.main)) && c.main == Path(c, Last(c.main))
      modifies this`mainChain
      ensures mainChain == if HeightOf(c, id) >= |c.main| - 1 then Path(c, id) else c.main
    {
      hide Find, Path;
      var height := |mainChain| - 1;
      if blocks[id].height.value >= height {
        var cur, chain := StackAbove(c, id, height);
        ghost var x := Path(c, id)[height];
        chain, x := PopToFork(c, Path(c, id), cur, chain, x);
        PushBranch(c, id, chain, x);
      }
    }

    lemma Diverging(c: Chain, x: nat, y: nat)
      requires Snapshot(c) && Tree(c) && Connected(c, x) && Connected(c, y) && HeightOf(c, y) == HeightOf(c, x)
      requires blocks[x] != blocks[y]
      ensures HeightOf(c, x) > 0
    {
      if HeightOf(c, x) == 0 {
        OneGenesis(c, x, y);
      }
    }

    lemma SameHeader(c: Chain, x: nat, y: nat)
      requires Snapshot(c) && x < |blocks| && y < |blocks| && blocks[x] == blocks[y]
      ensures x == y
    {
    }

    lemma OnPath(c: Chain, id: nat, i: nat)
      requires Snapshot(c) && Tree(c) && Connected(c, id) && i <= HeightOf(c, id)
      ensures var x := Path(c, id)[i]; x < |blocks| && blocks[x].height == Some(i) && blocks[x].id == Some(x)
    {
      PathPrefix(c, id, i);
    }

    /** block->setHeight on the header with the given id. */
    method SetHeightOf(ghost c: Chain, blockId: nat, height: nat)
      requires Snapshot(c) && blockId < |blocks| && !Connected(c, blockId)
      modifies blocks[blockId]
      ensures Snapshot(SetHeight(c, blockId, height))
    {
      hide Find;
      blocks[blockId].SetHeight(height);
    }

    /** Nothing but heights, orphans and the main chain changed, so the indexes still hold. */
    ghost predicate Became(c: Chain)
      reads this, blocks
    {
      Snapshot(c) && c.genesis == genesisBlockHash && c.orphans == orphanBlocks && c.main == mainChain
    }

    /** The outcome tells apart a return from the two ways of not returning: the height assertion,
        and a loop over equal_range that never moves on from its first element. */
    method ConnectToAncestor(blockId: nat) returns (r: Outcome)
      requires Valid()
      modifies this`mainChain, this`orphanBlocks, set b | b in blocks
      ensures blocks == old(blocks) && r == ConnectOutcome(old(View()), blockId)
      ensures r.Returned? ==> Valid() && View() == ConnectState(old(View()), blockId)
    {
      hide Find, Path, View, FirstOrphan, Inv, ConnectState, Snapshot;
      ghost var c := View();
      if ConnectOutcome(c, blockId).Returned? {
        ConnectKeepsInv(c, blockId);
      }
      var block := GetBlockHeaderById(blockId);
      if block == null {
        OutOfRange(c, blockId);
        return Returned(false);
      }
      if GetHeight() == 0 {
        r := ConnectGenesis(c, blockId);
      } else {
        r := ConnectBelow(c, blockId);
      }
      if r.Returned? {
        ghost var d := ConnectState(c, blockId);
        SameHeaders(c, blockId);
        ViewIs(d);
      }
    }

    lemma OutOfRange(c: Chain, id: nat)
      requires Inv(c) && id >= |c.headers|
      ensures ConnectOutcome(c, id) == Returned(false) && ConnectState(c, id) == c
    {
    }

    lemma SameHeaders(c: Chain, id: nat)
      requires Inv(c) && ConnectOutcome(c, id).Returned?
      ensures ConnectState(c, id).headers == c.headers
    {
    }

    /** The branch for an empty main chain. */
    method ConnectGenesis(ghost c: Chain, blockId: nat) returns (r: Outcome)
      requires Became(c) && Inv(c) && blockId < |blocks| && mainChain == []
      modifies this`mainChain, this`orphanBlocks, blocks[blockId]
      ensures r == ConnectOutcome(c, blockId)
      ensures r.Returned? ==> Became(ConnectState(c, blockId))
    {
      hide Find, Path, View, FirstOrphan, DescentEnds, RemovalEnds;
      var block := blocks[blockId];
      if block.hash != genesisBlockHash || block.prev != NULL_HASH {
        orphanBlocks := orphanBlocks + [(block.prev, blockId)];
        return Returned(false);
      }
      if block.InChain() {
        return AssertionFails;
      }
      SetHeightOf(c, blockId, 0);
      mainChain := mainChain + [blockId];
      var left := TryDescent(block.hash);
      return if left then Returned(true) else Hangs;
    }

    /** At most `passes` passes of the loop that takes the block out of the orphans. */
    method RemoveFromOrphans(prev: Hash, blockId: nat, passes: nat) returns (left: bool)
      modifies this`orphanBlocks
      ensures RemovalPasses(old(orphanBlocks), prev, blockId, passes) ==
        if left then Left(orphanBlocks) else At(0, orphanBlocks)
    {
      hide Range, RemovalPasses;
      ghost var o := orphanBlocks;
      var range, i := Range(orphanBlocks, prev, 0), 0;
      left := false;
      RemovalStep(o, prev, blockId, 0);
      for n := 0 to passes
        invariant i == 0 && (!left ==> orphanBlocks == o)
        invariant RemovalPasses(o, prev, blockId, n) == if left then Left(orphanBlocks) else At(i, orphanBlocks)
      {
        RemovalStep(o, prev, blockId, n + 1);
        if !left {
          if i == |range| {
            left := true;
          } else {
            assert range[i] in range;
            if orphanBlocks[range[i]].1 == blockId {
              orphanBlocks := RemoveAt(orphanBlocks, range[i]);
              left := true;
            }
          }
        }
      }
    }

    /** One pass tells whether the loop is ever left, since it never advances. */
    method TryRemoval(prev: Hash, blockId: nat) returns (left: bool)
      modifies this`orphanBlocks
      ensures left <==> RemovalEnds(old(orphanBlocks), prev, blockId)
      ensures left ==> orphanBlocks == RemoveAt(old(orphanBlocks), FirstOrphan(old(orphanBlocks), prev))
    {
      hide RemovalPasses, FirstOrphan, RemoveAt;
      RemovalDecided(orphanBlocks, prev, blockId);
      RemovalNeverMoves(orphanBlocks, prev, blockId, 1);
      left := RemoveFromOrphans(prev, blockId, 1);
    }

    method TryDescent(hash: Hash) returns (left: bool)
      ensures left <==> DescentEnds(orphanBlocks, hash)
    {
      hide DescentPasses, FirstOrphan;
      DescentDecided(orphanBlocks, hash);
      var calls;
      left, calls := EnqueueDescendants(hash, 1);
    }

    /** At most `passes` passes of the loop that enqueues a connect call for every waiting block. */
    method EnqueueDescendants(hash: Hash, passes: nat) returns (left: bool, enqueued: seq<nat>)
      ensures DescentPasses(orphanBlocks, hash, passes) == if left then Left(enqueued) else At(0, enqueued)
    {
      hide Range, DescentPasses;
      var range, i := Range(orphanBlocks, hash, 0), 0;
      left, enqueued := false, [];
      DescentStep(orphanBlocks, hash, 0);
      for n := 0 to passes
        invariant i == 0
        invariant DescentPasses(orphanBlocks, hash, n) == if left then Left(enqueued) else At(i, enqueued)
      {
        DescentStep(orphanBlocks, hash, n + 1);
        if !left {
          if i == |range| {
            left := true;
          } else {
            assert range[i] in range;
            enqueued := enqueued + [orphanBlocks[range[i]].1];
          }
        }
      }
    }

    /** prevBlock->height() as found through the index, or nothing when it is not in the chain. */
    method ParentHeight(ghost c: Chain, block: BlockHeader, ghost blockId: nat) returns (height: Option<nat>)
      requires Snapshot(c) && blockId < |blocks| && block == blocks[blockId]
      ensures height ==
        if HasParent(c, blockId) && Connected(c, Parent(c, blockId))
        then Some(HeightOf(c, Parent(c, blockId)))
        else None
    {
      hide Find;
      if block.prev !in blockIds {
        return None;
      }
      var prevBlock := GetBlockHeaderById(blockIds[block.prev]);
      if prevBlock == null {
        // every indexed id is stored, so the orphan list is never extended here
        assert false;
      }
      return prevBlock.height;
    }

    lemma NotConnected(c: Chain, id: nat)
      requires Inv(c) && id < |c.headers| && c.main != [] && ConnectOutcome(c, id) == Returned(false)
      ensures ConnectState(c, id) == c
    {
    }

    lemma AttachFacts(c: Chain, id: nat)
      requires Inv(c) && c.main != [] && HasParent(c, id) && Connected(c, Parent(c, id)) && !Connected(c, id)
      ensures CanAttach(c, id)
      ensures var a := Attach(c, id); var tip := Last(c.main);
        && a == SetHeight(c, id, HeightOf(c, Parent(c, id)) + 1).(orphans :=
          RemoveAt(c.orphans, FirstOrphan(c.orphans, c.headers[id].prev)))
        && Tree(a) && Connected(a, tip) && c.main == Path(a, tip)
        && (ConnectOutcome(c, id) == Returned(true) ==>
              ConnectState(c, id) == a.(main := if HeightOf(a, id) >= |c.main| - 1 then Path(a, id) else c.main))
    {
      hide Find, FirstOrphan;
      PathStable(c, Attach(c, id), Last(c.main));
    }

    /** The branch for a block whose parent has to be found. */
    method ConnectBelow(ghost c: Chain, blockId: nat) returns (r: Outcome)
      requires Became(c) && Inv(c) && blockId < |blocks| && mainChain != []
      modifies this`mainChain, this`orphanBlocks, blocks[blockId]
      ensures r == ConnectOutcome(c, blockId)
      ensures r.Returned? ==> Became(ConnectState(c, blockId))
    {
      hide Find, Path, View, FirstOrphan, Inv, Tree, Attach, ConnectState, CanAttach, Snapshot, RemovalEnds,
        DescentEnds, RemoveAt;
      var block := blocks[blockId];
      SnapshotAt(c, blockId);
      var prevHeight := ParentHeight(c, block, blockId);
      if prevHeight.None? {
        NotConnected(c, blockId);
        return Returned(false);
      }
      if block.InChain() {
        return AssertionFails;
      }
      AttachFacts(c, blockId);
      SetHeightOf(c, blockId, prevHeight.value + 1);
      var removed := TryRemoval(block.prev, blockId);
      if !removed {
        return Hangs;
      }
      ghost var a := Attach(c, blockId);
      SameSnapshot(SetHeight(c, blockId, prevHeight.value + 1), a);
      CheckNewHeight(a, blockId);
      SameSnapshot(a, a.(main := mainChain));
      var left := TryDescent(block.hash);
      return if left then Returned(true) else Hangs;
    }

    // -------------------------------------------------------------- blocks and queries

    /** merkleOk stands for the comparison of the header's merkle root with that of its transactions. */
    method AddBlock(block: BlockHeader, merkleOk: bool) returns (r: Outcome)
      requires Valid()
      requires block in blocks || (block.id.None? && block.height.None?)
      modifies this, block, set b | b in blocks
      ensures match Step(old(View()), NewBlock(block.hash, block.prev, merkleOk))
        case Running(c) => r == Returned(merkleOk) && Valid() && View() == c
        case Aborted => r == AssertionFails
        case Stuck => r == Hangs
    {
      hide Find, Path, Inv, View, ConnectState, ConnectOutcome, AddHeader, Indexed, IdOf;
      if !merkleOk {
        return Returned(false);
      }
      var id := EnsureStored(block);
      var outcome := ConnectToAncestor(id);
      return if outcome.Returned? then Returned(true) else outcome;
    }

    /** Stores the header of the block unless its hash is known, and looks its id up. */
    method EnsureStored(block: BlockHeader) returns (id: nat)
      requires Valid()
      requires block in blocks || (block.id.None? && block.height.None?)
      modifies this, block
      ensures Valid() && View() == AddHeader(old(View()), block.hash, block.prev)
      ensures id == IdOf(old(View()), block.hash, block.prev)
      ensures forall b | b in blocks :: b in old(blocks) || b == block
    {
      hide Find, Path, Inv, View, AddHeader, Snapshot, IdOf;
      ghost var c := View();
      AddHeaderKeepsInv(c, block.hash, block.prev);
      if !HasBlockHeader(block.hash) {
        var _ := AddBlockHeader(block);
      } else {
        AlreadyStored(c, block);
      }
      IdsAt(View(), block.hash);
      StoredId(c, block.hash, block.prev);
      id := blockIds[block.hash];
    }

    lemma AlreadyStored(c: Chain, block: BlockHeader)
      requires Indexed() && c == View() && block.hash in blockIds
      ensures AddHeader(c, block.hash, block.prev) == c
    {
      IdsAt(c, block.hash);
    }

    lemma StoredId(c: Chain, hash: Hash, prev: Hash)
      requires Inv(AddHeader(c, hash, prev))
      ensures Find(AddHeader(c, hash, prev).headers, hash) == Some(IdOf(c, hash, prev))
    {
      FindUnique(AddHeader(c, hash, prev).headers, IdOf(c, hash, prev));
    }

    /** The null hash above the tip; the assertion that the id has a hash never fails. */
    method GetBlockHash(height: nat) returns (hash: Hash)
      requires Valid()
      ensures hash == HashAt(View(), height)
    {
      if height >= |mainChain| {
        return NULL_HASH;
      }
      MainChainShape(View());
      var blockId := mainChain[height];
      assert blockId in blockHashes;
      return blockHashes[blockId];
    }

    /** Hashes of the main chain from the tip down: one by one at first, then at distances that
        double, always ending with genesis. */
    method GetBlockLocator() returns (locator: seq<Hash>)
      requires Valid()
      ensures locator == HashesAt(View(), LocatorHeights(if mainChain == [] then 0 else |mainChain| - 1, 0))
    {
      hide Store.Valid, Inv, View, HashAt, HashesAt, NextHeight, LocatorHeights, Gap, Naming;
      ViewInv();
      GapStep(0);
      locator := [];
      var height: nat := if mainChain == [] then 0 else |mainChain| - 1;
      ghost var c, tip := View(), height;
      NamingStarts(c, tip);
      var step := 1;
      while true
        invariant step == Gap(|locator|) && Naming(c, tip, locator, height)
        decreases height
      {
        NamingStep(c, tip, locator, height);
        GapStep(|locator|);
        NextIs(height, |locator|, Gap(|locator| + 1));
        var hash := GetBlockHash(height);
        locator := locator + [hash];
        if height == 0 {
          break;
        }
        if |locator| > 10 {
          step := step * 2;
        }
        height := if height > step then height - step else 0;
      }
    }

    lemma ViewInv()
      requires Valid()
      ensures Inv(View())
    {
    }
  }

  /** The heights a locator names from the i-th entry on, given the height of that entry. */
  function LocatorHeights(height: nat, i: nat): (r: seq<nat>)
    ensures r != [] && r[0] == height && Last(r) == 0
    ensures forall j, k | 0 <= j < k < |r| :: r[j] > r[k]
    decreases height
  {
    if height == 0 then [0] else [height] + LocatorHeights(NextHeight(height, i), i + 1)
  }

  ghost function HashesAt(c: Chain, heights: seq<nat>): (r: seq<Hash>)
    requires Inv(c)
  {
    seq(|heights|, i requires 0 <= i < |heights| => HashAt(c, heights[i]))
  }

  /** The hashes so far, and those still to come from height on, are the whole locator. */
  ghost predicate Naming(c: Chain, tip: nat, locator: seq<Hash>, height: nat)
    requires Inv(c)
  {
    locator + HashesAt(c, LocatorHeights(height, |locator|)) == HashesAt(c, LocatorHeights(tip, 0))
  }

  lemma NamingStarts(c: Chain, tip: nat)
    requires Inv(c)
    ensures Naming(c, tip, [], tip)
  {
    hide HashesAt, LocatorHeights;
  }

  lemma NamingStep(c: Chain, tip: nat, locator: seq<Hash>, height: nat)
    requires Inv(c) && Naming(c, tip, locator, height)
    ensures var longer := locator + [HashAt(c, height)];
      if height == 0 then longer == HashesAt(c, LocatorHeights(tip, 0))
      else Naming(c, tip, longer, NextHeight(height, |locator|))
  {
    hide Inv, HashAt, NextHeight;
    if height == 0 {
      assert HashesAt(c, [0]) == [HashAt(c, 0)];
    } else {
      var rest := LocatorHeights(NextHeight(height, |locator|), |locator| + 1);
      assert HashesAt(c, [height] + rest) == [HashAt(c, height)] + HashesAt(c, rest);
    }
  }

  lemma GapStep(i: nat)
    ensures Gap(0) == 1 && Gap(i + 1) == if i + 1 <= 10 then 1 else 2 * Gap(i)
    ensures i <= 10 ==> Gap(i) == 1
  {
  }

  ghost function HashAt(c: Chain, height: nat): (r: Hash)
    requires Inv(c)
  {
    if height >= |c.main| then NULL_HASH
    else
      MainChainShape(c);
      c.headers[c.main[height]].hash
  }

  /** The step taken after the i-th entry of a locator. */
  function Gap(i: nat): (g: nat)
    ensures g >= 1
  {
    if i <= 10 then 1 else 2 * Gap(i - 1)
  }

  lemma NextIs(height: nat, i: nat, gap: nat)
    requires gap == Gap(i + 1)
    ensures NextHeight(height, i) == if height > gap then height - gap else 0
  {
  }

  function NextHeight(height: nat, i: nat): (h: nat)
    ensures height > 0 ==> h < height
  {
    var gap := Gap(i + 1);
    if height > gap then height - gap else 0
  }

  /** How far below the tip entry i of a locator is: one apart up to the eleventh, then 2, 4, 8 and so on. */
  function Distance(i: nat): (d: nat) {
    if i < 10 then i else 8 + Power.Pow(2, i - 9)
  }

  function Below(tip: nat, d: nat): (h: nat) {
    if tip > d then tip - d else 0
  }

  /** Every entry of a locator is that far below the tip, or at genesis. */
  lemma {:induction false} LocatorAt(tip: nat, i: nat, k: nat)
    requires k < |LocatorHeights(Below(tip, Distance(i)), i)|
    ensures LocatorHeights(Below(tip, Distance(i)), i)[k] == Below(tip, Distance(i + k))
    decreases k
  {
    var h := Below(tip, Distance(i));
    if k > 0 {
      NextIs(h, i, Gap(i + 1));
      NextDistance(i);
      assert NextHeight(h, i) == Below(tip, Distance(i + 1));
      LocatorAt(tip, i + 1, k - 1);
    }
  }

  lemma NextDistance(i: nat)
    ensures Distance(i + 1) == Distance(i) + Gap(i + 1)
  {
    if i >= 9 {
      GapPower(i + 1);
    }
  }

  lemma {:induction false} GapPower(i: nat)
    requires i >= 10
    ensures Gap(i) == Power.Pow(2, i - 10)
  {
    if i > 10 {
      GapPower(i - 1);
    }
  }
}
