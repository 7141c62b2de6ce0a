/** The steps of a node: accepting a gossiped block, joining, and creating the chain. */
module Nodes {
  import opened Types
  import opened DatabaseKey
  import opened Chain
  import opened Ledger
  import opened Blockchains
  import opened UtxoSets
  import opened Sync
  import opened Network
  import opened Tracking
  import opened ProofOfWork
  import MerkleTree

  datatype GossipOutcome =
    | Ignored | SentBack | Extended | Panicked
    | NeedsGenesis | Joined(outcome: Outcome)
    | SyncTried(outcome: Outcome)

  lemma {:induction false} ContinuedIsWellFormed(universe: iset<Block>, genesis: Block, c: seq<Block>, b: Block)
    requires GoodUniverse(universe) && GoodChain(universe, genesis, c) && b in universe && Continues(c, b)
    ensures WellFormed(c + [b])
  {
    var c' := c + [b];
    forall i | 0 <= i < |c'| ensures LinkedAt(c', i) {
      if i < |c| {
        assert LinkedAt(c, i);
      }
    }
    GoodIsWellFormed(universe, genesis, c');
  }

  /** Mining drafts on the last block, so what it keeps continues the chain it started from. */
  lemma {:induction false} MinedBlockContinues(
      c: seq<Block>, draft: Block, tree: MerkleTree.Tree, nonce: int, groupBase: int, batchSize: int, slot: nat)
    requires Linked(c) && c != [] && IsDraft(draft, c[|c| - 1], groupBase, batchSize, slot)
    ensures Continues(c, Mined(draft, tree, nonce))
  {
    assert LinkedAt(c, |c| - 1);
  }

  /** The block continues the chain: it is added to the chain and applied to the set. */
  method Extend(bc: Blockchain, utxo: UTXOSet, b: Block, ghost universe: iset<Block>, ghost genesis: Block)
    requires utxo.bc == bc && bc.Valid()
    requires GoodUniverse(universe) && GoodChain(universe, genesis, bc.chain) && b in universe
    requires Continues(bc.chain, b)
    modifies bc, bc.pool, utxo`entries
    ensures bc.Valid() && bc.chain == old(bc.chain) + [b]
    ensures utxo.entries == Updated(old(utxo.entries), utxo.group, b.txns, bc.chain)
    ensures SetStep(utxo.group, old(bc.chain), old(utxo.entries), bc.chain, utxo.entries)
  {
    ContinuedIsWellFormed(universe, genesis, bc.chain, b);
    UpdateIsSwitch(utxo.group, bc.chain, utxo.entries, b);
    AppendBlock(bc, utxo, b);
  }

  /** The tests of the handler, in its order. */
  method Judge(bc: Blockchain, b: Block) returns (verdict: GossipOutcome)
    requires bc.Valid()
    ensures verdict.SentBack? <==> b.header.height < |bc.chain| - 1
    ensures verdict.Extended? <==> Continues(bc.chain, b)
    ensures verdict.Panicked? <==> bc.chain == [] && b.header.height == 0
    ensures verdict.NeedsGenesis? <==> bc.chain == [] && b.header.height > 0
    ensures verdict == SyncTried(Skipped) <==> bc.chain != [] && b.header.height >= |bc.chain| && !Continues(bc.chain, b)
    ensures verdict.SyncTried? ==> verdict.outcome == Skipped
    ensures !verdict.Joined?
  {
    var lastest := bc.GetLastest();
    var lastestHeight := -1;
    if lastest.Some? {
      assert LinkedAt(bc.chain, |bc.chain| - 1);
      lastestHeight := lastest.value.header.height;
    }
    verdict := Ignored;
    if b.header.height < lastestHeight {
      verdict := SentBack;
    }
    if b.header.height == lastestHeight + 1 {
      if lastest.None? {
        return Panicked;
      }
      if b.header.prevHash == BlockHash(lastest.value) {
        return Extended;
      }
    }
    if b.header.height > lastestHeight {
      return if lastestHeight == -1 then NeedsGenesis else SyncTried(Skipped);
    }
  }

  /**
   The handler of a gossiped block: an older block is answered with our last one, a
   block that continues our chain is added, and any other higher block starts a
   synchronisation with its sender. Without a chain the node first takes over the
   genesis `offered` by some node and then synchronises with the one that answered
   its version; the replies and `peer` are those of the node that is asked.
   */
  method GossipBlock(bc: Blockchain, utxo: UTXOSet, b: Block, offered: Block, versionHeight: int,
                     hashReply: (nat, int) -> Option<Hash>, blocksReply: (int, int, Hash) -> Option<seq<Block>>,
                     ghost giver: seq<Block>, ghost peer: seq<Block>, ghost universe: iset<Block>, ghost genesis: Block)
      returns (outcome: GossipOutcome, ghost mid: seq<Block>, ghost midSet: UtxoMap)
    requires utxo.bc == bc && bc.Valid()
    requires GoodUniverse(universe) && b in universe && ServedBy(peer, blocksReply)
    requires GoodChain(universe, genesis, bc.chain) && GoodChain(universe, genesis, peer)
    requires bc.chain == [] ==> GoodChain(universe, genesis, giver) && giver != [] && offered == giver[0]
    modifies bc, bc.pool, utxo`entries
    ensures bc.Valid()
    ensures NodeStep(universe, genesis, old(bc.chain), mid, giver) && NodeStep(universe, genesis, mid, bc.chain, peer)
    ensures mid == if outcome.Joined? then [genesis] else old(bc.chain)
    ensures outcome.SentBack? <==> b.header.height < old(|bc.chain|) - 1
    ensures outcome.Extended? <==> Continues(old(bc.chain), b)
    ensures outcome.SyncTried? <==>
      old(bc.chain) != [] && b.header.height >= old(|bc.chain|) && !Continues(old(bc.chain), b)
    ensures outcome.Joined? <==> old(bc.chain) == [] && b.header.height > 0
    ensures outcome.Extended? ==>
      && bc.chain == old(bc.chain) + [b]
      && utxo.entries == Updated(old(utxo.entries), utxo.group, b.txns, bc.chain)
    ensures !outcome.Extended? && !outcome.Joined? && outcome != SyncTried(Adopted) ==> Untouched(bc, utxo)
    ensures outcome == SyncTried(Adopted) ==>
      0 <= b.header.height < |peer| && bc.chain == peer[..b.header.height + 1]
    ensures outcome.Joined? ==> HasJoined(bc, utxo, genesis, peer, versionHeight, outcome.outcome)
    ensures SetStep(utxo.group, old(bc.chain), old(utxo.entries), mid, midSet)
    ensures SetStep(utxo.group, mid, midSet, bc.chain, utxo.entries)
  {
    outcome := Judge(bc, b);
    mid, midSet := bc.chain, utxo.entries;
    if outcome.Extended? {
      Extend(bc, utxo, b, universe, genesis);
    } else if outcome.SyncTried? {
      var o := SyncFrom(bc, utxo, b.header.height, hashReply, blocksReply, peer, universe, genesis);
      outcome := SyncTried(o);
    } else if outcome.NeedsGenesis? {
      var o := StartUp(bc, utxo, offered, versionHeight, hashReply, blocksReply, giver, peer, universe, genesis);
      outcome, mid, midSet := Joined(o), [genesis], Scan(VisitOrder([genesis]));
    }
  }

  method SyncFrom(bc: Blockchain, utxo: UTXOSet, newHeight: int, hashReply: (nat, int) -> Option<Hash>,
                  blocksReply: (int, int, Hash) -> Option<seq<Block>>,
                  ghost peer: seq<Block>, ghost universe: iset<Block>, ghost genesis: Block)
      returns (outcome: Outcome)
    requires utxo.bc == bc && bc.Valid()
    requires GoodUniverse(universe) && ServedBy(peer, blocksReply)
    requires GoodChain(universe, genesis, bc.chain) && GoodChain(universe, genesis, peer)
    modifies bc, bc.pool, utxo`entries
    ensures bc.Valid() && bc.heightLoaded && NodeStep(universe, genesis, old(bc.chain), bc.chain, peer)
    ensures outcome != Adopted ==> Untouched(bc, utxo)
    ensures outcome == Adopted ==> 0 <= newHeight < |peer| && bc.chain == peer[..newHeight + 1]
    ensures SetStep(utxo.group, old(bc.chain), old(utxo.entries), bc.chain, utxo.entries)
  {
    GoodIsWellFormed(universe, genesis, peer);
    GoodAreCollisionFree(universe, bc.chain, peer);
    ghost var r;
    outcome, r := SyncBlocks(bc, utxo, newHeight, hashReply, blocksReply, peer);
    if outcome == Adopted {
      assert AdoptsFrom(old(bc.chain), bc.chain, peer);
      ResolvedIsSwitch(utxo.group, old(bc.chain), old(utxo.entries), peer, r, newHeight);
    }
  }

  /** A node that had no chain ends with the genesis alone, or with the peer's chain up to the height it told. */
  ghost predicate HasJoined(bc: Blockchain, utxo: UTXOSet, genesis: Block, peer: seq<Block>, height: int, outcome: Outcome)
    reads bc, utxo
  {
    && bc.heightLoaded
    && (outcome != Adopted ==> bc.chain == [genesis] && utxo.entries == Scan(VisitOrder([genesis])))
    && (outcome == Adopted ==> 0 <= height < |peer| && bc.chain == peer[..height + 1])
  }

  /**
   `Sync`: a node without a chain takes over a genesis, and every node then
   synchronises with the one that answered its version.
   */
  method StartUp(bc: Blockchain, utxo: UTXOSet, offered: Block, versionHeight: int,
                 hashReply: (nat, int) -> Option<Hash>, blocksReply: (int, int, Hash) -> Option<seq<Block>>,
                 ghost giver: seq<Block>, ghost peer: seq<Block>, ghost universe: iset<Block>, ghost genesis: Block)
      returns (outcome: Outcome)
    requires utxo.bc == bc && bc.Valid()
    requires GoodUniverse(universe) && ServedBy(peer, blocksReply)
    requires GoodChain(universe, genesis, bc.chain) && GoodChain(universe, genesis, peer)
    requires bc.chain == [] ==> GoodChain(universe, genesis, giver) && giver != [] && offered == giver[0]
    modifies bc, bc.pool, utxo`entries
    ensures bc.Valid() && bc.heightLoaded
    ensures old(bc.chain) == [] ==>
      && JoinsFrom([], [genesis], giver)
      && NodeStep(universe, genesis, [genesis], bc.chain, peer)
      && HasJoined(bc, utxo, genesis, peer, versionHeight, outcome)
      && SetStep(utxo.group, [genesis], Scan(VisitOrder([genesis])), bc.chain, utxo.entries)
    ensures old(bc.chain) != [] ==> SetStep(utxo.group, old(bc.chain), old(utxo.entries), bc.chain, utxo.entries)
    ensures old(bc.chain) != [] ==>
      && NodeStep(universe, genesis, old(bc.chain), bc.chain, peer)
      && (outcome != Adopted ==> Untouched(bc, utxo))
      && (outcome == Adopted ==> 0 <= versionHeight < |peer| && bc.chain == peer[..versionHeight + 1])
  {
    Join(bc, utxo, offered, giver, universe, genesis);
    outcome := SyncFrom(bc, utxo, versionHeight, hashReply, blocksReply, peer, universe, genesis);
  }

  lemma {:induction false} GenesisIsWellFormed(b: Block)
    requires b.header.height == 0 && b.header.prevHash == NO_HASH
    ensures WellFormed([b])
  {
    assert LinkedAt([b], 0);
  }

  /** The first block of an empty chain, with both indexes rebuilt from it. */
  method InstallGenesis(bc: Blockchain, utxo: UTXOSet, b: Block)
    requires utxo.bc == bc && bc.Valid() && bc.chain == []
    requires b.header.height == 0 && b.header.prevHash == NO_HASH
    modifies bc, bc.pool, utxo`entries
    ensures bc.Valid() && bc.heightLoaded && bc.chain == [b] && utxo.entries == Scan(VisitOrder([b]))
  {
    GenesisIsWellFormed(b);
    HeightInRange(0);
    assert bc.chain + [b] == [b];
    bc.AddBlock(Some(b));
    utxo.Reindex();
    bc.TxnReindex();
  }

  /** A node without a chain takes over a peer's genesis and rebuilds its indexes. */
  method Join(bc: Blockchain, utxo: UTXOSet, b: Block, ghost peer: seq<Block>,
              ghost universe: iset<Block>, ghost genesis: Block)
    requires utxo.bc == bc && bc.Valid() && GoodUniverse(universe)
    requires bc.chain == [] ==> GoodChain(universe, genesis, peer) && peer != [] && b == peer[0]
    modifies bc, bc.pool, utxo`entries
    ensures bc.Valid() && bc.heightLoaded && NodeStep(universe, genesis, old(bc.chain), bc.chain, peer)
    ensures old(bc.chain) == [] ==>
      && bc.chain == [genesis] && utxo.entries == Scan(VisitOrder([genesis]))
      && GoodChain(universe, genesis, [genesis])
    ensures old(bc.chain) != [] ==> Untouched(bc, utxo)
  {
    var height := bc.GetHeight();
    if height < 0 {
      assert LinkedAt(peer, 0);
      InstallGenesis(bc, utxo, b);
      assert JoinsFrom(old(bc.chain), bc.chain, peer);
      assert LinkedAt([b], 0);
    }
  }

  /** Mining the first block gets through only from height -1 or without running a round. */
  method MineGenesis(height: int, draft: Block, start: int) returns (nonce: Option<int>)
    requires start <= MAX_INT64 && draft.header.height == 0 && 1.0 <= draft.header.target
    ensures nonce.Some? <==> height == -1 || start == MAX_INT64
    ensures nonce.Some? && draft.header.target == 1.0 ==> nonce.value == start
  {
    var blocks := [draft];
    assert blocks[0] == draft;
    var root := Sha256(HeaderHash(draft.header).bytes);
    var heightAt := (k: nat, g: int) => height;
    var result := ProofOfWork.Run(blocks, root, draft.header.target, start, heightAt);
    nonce := if result.Changed? then None else Some(result.nonce);
    if result.Stopped? && start < MAX_INT64 {
      assert ChainsUnchanged(blocks, heightAt, 0);
    }
    EveryHashMeetsOne(PowHash(root, draft.header.group, 1, start));
  }

  /**
   Creating the chain. Mining checks the height in every round, so the bucket is
   cleared only from height -1, unless the random nonce starts at the very end of
   its range and no round is run.
   */
  method CreateBlockchain(bc: Blockchain, utxo: UTXOSet, draft: Block, start: int) returns (created: bool)
    requires utxo.bc == bc && bc.Valid() && start <= MAX_INT64
    requires draft.header.height == 0 && draft.header.prevHash == NO_HASH && 1.0 <= draft.header.target
    modifies bc, bc.pool, utxo`entries
    ensures created <==> old(bc.chain) == [] || start == MAX_INT64
    ensures !created ==> bc.Valid() && Untouched(bc, utxo)
    ensures old(bc.chain) == [] ==>
      && bc.Valid() && |bc.chain| == 1 && bc.chain[0] == draft.(nonce := bc.chain[0].nonce)
      && (draft.header.target == 1.0 ==> bc.chain[0].nonce == start)
      && utxo.entries == Scan(VisitOrder(bc.chain))
      && forall universe :: NodeStep(universe, bc.chain[0], old(bc.chain), bc.chain, [])
    ensures old(bc.chain) == [] || !created ==>
      SetStep(utxo.group, old(bc.chain), old(utxo.entries), bc.chain, utxo.entries)
    ensures created && old(bc.chain) != [] ==> Emptied(bc, utxo)
  {
    var height := bc.GetHeight();
    var nonce := MineGenesis(height, draft, start);
    if nonce.None? {
      return false;
    }
    created := true;
    ghost var was := bc.blocks;
    bc.BlockClear();
    // From any other height the cached height makes AddBlock ignore the block, and
    // the reindexing stops the process for want of a last block.
    if height == -1 {
      assert bc.blocks == was;
      InstallGenesis(bc, utxo, draft.(nonce := nonce.value));
      assert Creates(bc.chain[0], old(bc.chain), bc.chain);
    }
  }

  /** The block bucket is empty, "lastest" included; the indexes, the cached height and the pool are as before. */
  twostate predicate Emptied(bc: Blockchain, utxo: UTXOSet)
    reads bc, bc.pool, utxo
  {
    && bc.blocks == map[] && bc.StoredHeight() == -1
    && bc.heightLoaded && bc.cacheHeight == old(|bc.chain|) - 1
    && bc.txns == old(bc.txns) && bc.pool.m == old(bc.pool.m) && utxo.entries == old(utxo.entries)
  }
}
