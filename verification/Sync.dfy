/** Fork resolution: adopting the longer chain of a peer. */
module Sync {
  import opened Types
  import opened DatabaseKey
  import opened Chain
  import opened Ledger
  import opened Rollback
  import opened Blockchains
  import opened UtxoSets

  // ----- What a peer answers -----

  /** The height that is looked up: a negative one by its last byte. */
  function HeightAt(height: int): nat {
    if height < 0 then height % 256 else height
  }

  /** The hash a peer with this chain gives for a height. */
  function ServeHash(peer: seq<Block>, height: int): Option<Hash> {
    if HeightAt(height) < |peer| then Some(BlockHash(peer[HeightAt(height)])) else None
  }

  /** The blocks looked up for the heights from `start` to `end`, unless one is missing. */
  function ServeRange(peer: seq<Block>, start: int, end: int): Option<seq<Block>>
    decreases end - start
  {
    if end < start then Some([])
    else
      match ServeRange(peer, start, end - 1)
      case None => None
      case Some(blocks) =>
        if HeightAt(end) < |peer| then Some(blocks + [peer[HeightAt(end)]]) else None
  }

  /** The blocks a peer with this chain gives for a range on top of a hash. */
  function ServeBlocks(peer: seq<Block>, start: int, end: int, hash: Hash): Option<seq<Block>> {
    if start == 0 || HeightAt(start) >= |peer| || peer[HeightAt(start)].header.prevHash != hash then None
    else ServeRange(peer, start, end)
  }

  /** From a height on, the range is that part of the chain, if the chain is long enough. */
  lemma {:induction false} ServeRangeIsSlice(peer: seq<Block>, start: nat, end: int)
    requires start <= end + 1 && start <= |peer|
    ensures ServeRange(peer, start, end) == if end < |peer| then Some(peer[start..end + 1]) else None
    decreases end - start
  {
    if end < start {
      assert peer[start..end + 1] == [];
    } else {
      ServeRangeIsSlice(peer, start, end - 1);
      assert end < |peer| ==> peer[start..end] + [peer[end]] == peer[start..end + 1];
    }
  }

  lemma {:induction false} ServeRangeStops(peer: seq<Block>, start: int, i: int, end: int)
    requires start <= i <= end && HeightAt(i) >= |peer|
    ensures ServeRange(peer, start, end) == None
    decreases end - i
  {
    if i < end {
      ServeRangeStops(peer, start, i, end - 1);
    }
  }

  /** A served range: never from the genesis on, on top of the given hash, block by block. */
  lemma {:induction false} ServedMeans(peer: seq<Block>, start: nat, end: nat, hash: Hash, blocks: seq<Block>)
    requires start <= end
    ensures ServeBlocks(peer, start, end, hash) == Some(blocks)
       <==> 0 < start && end < |peer| && peer[start].header.prevHash == hash && blocks == peer[start..end + 1]
  {
    if start < |peer| {
      ServeRangeIsSlice(peer, start, end);
    }
  }

  method GetHash(bc: Blockchain, height: int) returns (r: Option<Hash>)
    requires bc.Valid() && InRange(height, INT32_WIDTH)
    ensures r == ServeHash(bc.chain, height)
  {
    var block := bc.GetBlockByHeight(height, bc.chain);
    r := if block.None? then None else Some(BlockHash(block.value));
  }

  method GetBlocks(bc: Blockchain, start: int, end: int, hash: Hash) returns (r: Option<seq<Block>>)
    requires bc.Valid() && InRange(start, INT32_WIDTH) && InRange(end, INT32_WIDTH)
    ensures r == ServeBlocks(bc.chain, start, end, hash)
  {
    if start == 0 {
      return None;
    }
    var block := bc.GetBlockByHeight(start, bc.chain);
    if block.None? {
      return None;
    }
    if block.value.header.prevHash != hash {
      return None;
    }
    r := CollectBlocks(bc, start, end);
  }

  /** The blocks from `start` to `end`, unless one is missing. */
  method CollectBlocks(bc: Blockchain, start: int, end: int) returns (r: Option<seq<Block>>)
    requires bc.Valid() && InRange(start, INT32_WIDTH) && InRange(end, INT32_WIDTH)
    ensures r == ServeRange(bc.chain, start, end)
  {
    ghost var c := bc.chain;
    var blocks: seq<Block> := [];
    var i := start;
    while i <= end
      invariant start <= i && (i <= end + 1 || i == start)
      invariant ServeRange(c, start, i - 1) == Some(blocks)
    {
      var data := bc.GetBlockByHeight(i, c);
      if data.None? {
        ServeRangeStops(c, start, i, end);
        return None;
      }
      blocks := blocks + [data.value];
      i := i + 1;
    }
    r := Some(blocks);
  }

  // ----- The binary search -----

  /** Height `r` is the last one at which the chains agree. */
  ghost predicate IsFork(chain: seq<Block>, peer: seq<Block>, r: int) {
    && -1 <= r < |chain| <= |peer|
    && (forall j :: 0 <= j <= r ==> chain[j] == peer[j])
    && (forall j :: r < j < |chain| ==> chain[j] != peer[j])
  }

  /** The peer answers every query of the search from one fixed chain. */
  ghost predicate FixedPeer(chain: seq<Block>, peer: seq<Block>, reply: (nat, int) -> Option<Hash>) {
    && |chain| <= |peer| && Linked(chain) && Linked(peer) && CollisionFree(chain, peer)
    && forall k: nat, m :: 0 <= m < |chain| ==> reply(k, m) == Some(BlockHash(peer[m]))
  }

  /** What the search knows: agreement below `l`, disagreement above `r`. */
  ghost predicate Narrowed(chain: seq<Block>, peer: seq<Block>, l: int, r: int) {
    && 0 <= l && -1 <= r < |chain| <= |peer|
    && (forall j :: 0 <= j < l && j < |chain| ==> chain[j] == peer[j])
    && (forall j :: r < j < |chain| ==> chain[j] != peer[j])
  }

  lemma {:induction false} NarrowLeft(chain: seq<Block>, peer: seq<Block>, l: int, r: int, m: nat)
    requires Narrowed(chain, peer, l, r) && Linked(chain) && Linked(peer) && CollisionFree(chain, peer)
    requires m <= r && BlockHash(peer[m]) == BlockHash(chain[m])
    ensures Narrowed(chain, peer, m + 1, r)
  {
    forall j | 0 <= j < m + 1 ensures chain[j] == peer[j] {
      AgreeBelow(chain, peer, m, j);
    }
  }

  lemma {:induction false} NarrowRight(chain: seq<Block>, peer: seq<Block>, l: int, r: int, m: nat)
    requires Narrowed(chain, peer, l, r) && Linked(chain) && Linked(peer) && CollisionFree(chain, peer)
    requires m <= r && BlockHash(peer[m]) != BlockHash(chain[m])
    ensures Narrowed(chain, peer, l, m - 1)
  {
    forall j | m - 1 < j < |chain| ensures chain[j] != peer[j] {
      if chain[j] == peer[j] {
        AgreeBelow(chain, peer, j, m);
      }
    }
  }

  /**
   Searches for the last common height. `reply(k, m)` is the peer's answer to call
   `k`, for height `m`; `None` is a failed call. Against a fixed chain of at least
   our height the search finds the fork.
   */
  method FindFork(bc: Blockchain, height: int, reply: (nat, int) -> Option<Hash>, ghost peer: seq<Block>)
      returns (ok: bool, l: int, r: int)
    requires bc.Valid() && height == |bc.chain| - 1
    ensures ok ==> l == r + 1 && -1 <= r <= height
    ensures FixedPeer(bc.chain, peer, reply) ==> ok && IsFork(bc.chain, peer, r)
  {
    ghost var fixed := FixedPeer(bc.chain, peer, reply);
    l, r := 0, height;
    var calls: nat := 0;
    while r >= l
      invariant 0 <= l <= r + 1 <= height + 1
      invariant fixed ==> Narrowed(bc.chain, peer, l, r)
    {
      var m := l + (r - l) / 2;
      var hash := reply(calls, m);
      calls := calls + 1;
      if hash.None? {
        return false, l, r;
      }
      HeightInRange(m);
      var block := bc.GetBlockByHeight(m, bc.chain);
      if hash.value == BlockHash(block.value) {
        if fixed { NarrowLeft(bc.chain, peer, l, r, m); }
        l := m + 1;
      } else {
        if fixed { NarrowRight(bc.chain, peer, l, r, m); }
        r := m - 1;
      }
    }
    ok := true;
  }

  // ----- Rolling back and replaying -----

  /** The UTXO set after updating with the blocks one by one on top of `base`. */
  function Replayed(s: UtxoMap, group: int, base: seq<Block>, blocks: seq<Block>): UtxoMap
    decreases |blocks|
  {
    if blocks == [] then s
    else
      var before := blocks[..|blocks| - 1];
      Updated(Replayed(s, group, base, before), group, blocks[|blocks| - 1].txns, base + blocks)
  }

  /** The store holds `c`, but "lastest" and the cached height point at its block `r`. */
  ghost predicate Rewound(bc: Blockchain, c: seq<Block>, r: int)
    reads bc, bc.pool
  {
    && bc.Holds(c) && bc.pool.Valid()
    && 0 <= r < |c| && bc.heightLoaded && bc.cacheHeight == r
    && LASTEST in bc.blocks && bc.blocks[LASTEST] == BlockEntry(c[r])
  }

  /** Reverses and deletes the top block. */
  method DropTop(bc: Blockchain, utxo: UTXOSet, i: nat, ghost held: seq<Block>, ghost r: int)
    requires Rewound(bc, held, r) && |held| == i + 1 && r < i
    modifies bc`blocks, bc`txns, utxo`entries
    ensures Rewound(bc, held[..i], r)
    ensures utxo.entries == ReverseTxns(old(utxo.entries), held[i].txns)
  {
    HeightInRange(i);
    LastHeight(held);
    var block := bc.GetBlockByHeight(i, held);
    utxo.Reverse(block.value);
    bc.DeleteBlock(block.value, held);
  }

  /** Rolls block `i` of `c` back, the top one of those still held. */
  method RollBackOne(bc: Blockchain, utxo: UTXOSet, i: int, ghost c: seq<Block>, ghost r: int)
    requires 0 <= r < i < |c| && Rewound(bc, c[..i + 1], r)
    modifies bc`blocks, bc`txns, utxo`entries
    ensures Rewound(bc, c[..i], r)
    ensures RollbackBlocks(old(utxo.entries), c[r + 1..i + 1]) == RollbackBlocks(utxo.entries, c[r + 1..i])
  {
    TakeTake(c, i);
    RollbackStep(utxo.entries, c, r + 1, i);
    DropTop(bc, utxo, i, c[..i + 1], r);
  }

  /** Reverses and deletes the blocks above `r`, from the top down. */
  method RollBack(bc: Blockchain, utxo: UTXOSet, height: int, r: int)
    requires utxo.bc == bc && Rewound(bc, bc.chain, r) && height == |bc.chain| - 1
    modifies bc`blocks, bc`txns, bc`chain, utxo`entries
    ensures bc.Valid() && bc.chain == old(bc.chain)[..r + 1] && bc.heightLoaded
    ensures utxo.entries == RollbackBlocks(old(utxo.entries), old(bc.chain)[r + 1..])
  {
    ghost var c := bc.chain;
    var i := height;
    assert c[..i + 1] == c && c[r + 1..i + 1] == c[r + 1..];
    while i > r
      invariant r <= i < |c| && Rewound(bc, c[..i + 1], r)
      invariant RollbackBlocks(old(utxo.entries), c[r + 1..]) == RollbackBlocks(utxo.entries, c[r + 1..i + 1])
    {
      RollBackOne(bc, utxo, i, c, r);
      i := i - 1;
    }
    bc.chain := c[..r + 1];
  }

  lemma TakeTake<T>(s: seq<T>, i: nat)
    requires i < |s|
    ensures s[..i + 1][..i] == s[..i]
  {
  }

  lemma {:induction false} LastHeight(c: seq<Block>)
    requires WellFormed(c) && c != []
    ensures InRange(c[|c| - 1].header.height, INT32_WIDTH)
  {
    assert LinkedAt(c, |c| - 1);
    HeightInRange(|c| - 1);
  }

  lemma {:induction false} RollbackStep(s: UtxoMap, c: seq<Block>, lo: nat, i: nat)
    requires lo <= i < |c|
    ensures RollbackBlocks(s, c[lo..i + 1]) == RollbackBlocks(ReverseTxns(s, c[i].txns), c[lo..i])
  {
    assert c[lo..i + 1][..i - lo] == c[lo..i];
  }

  /** Adds the next block to the chain and applies it to the set. */
  method AppendBlock(bc: Blockchain, utxo: UTXOSet, b: Block)
    requires utxo.bc == bc && bc.Valid() && WellFormed(bc.chain + [b])
    modifies bc, bc.pool, utxo`entries
    ensures bc.Valid() && bc.heightLoaded && bc.chain == old(bc.chain) + [b]
    ensures utxo.entries == Updated(old(utxo.entries), utxo.group, b.txns, bc.chain)
  {
    assert LinkedAt(bc.chain + [b], |bc.chain|);
    HeightInRange(b.header.height);
    bc.AddBlock(Some(b));
    utxo.Update(b);
  }

  /** Adds blocks while each names the one before it. */
  method ReplayAll(bc: Blockchain, utxo: UTXOSet, blocks: seq<Block>, lastestHash0: Hash)
    requires utxo.bc == bc && bc.Valid() && bc.heightLoaded && bc.chain != [] && WellFormed(bc.chain + blocks)
    requires lastestHash0 == BlockHash(bc.chain[|bc.chain| - 1])
    modifies bc, bc.pool, utxo`entries
    ensures bc.Valid() && bc.heightLoaded && bc.chain == old(bc.chain) + blocks
    ensures utxo.entries == Replayed(old(utxo.entries), utxo.group, old(bc.chain), blocks)
  {
    ghost var c := bc.chain;
    var lastestHash := lastestHash0;
    for i := 0 to |blocks|
      invariant bc.Valid() && bc.heightLoaded && bc.chain == c + blocks[..i]
      invariant lastestHash == BlockHash(bc.chain[|bc.chain| - 1])
      invariant utxo.entries == Replayed(old(utxo.entries), utxo.group, c, blocks[..i])
    {
      NextLinks(c, blocks, i);
      TakeTake(blocks, i);
      if lastestHash != blocks[i].header.prevHash {
        break;
      }
      AppendBlock(bc, utxo, blocks[i]);
      lastestHash := BlockHash(blocks[i]);
    }
    assert blocks[..|blocks|] == blocks;
  }

  lemma {:induction false} NextLinks(c: seq<Block>, blocks: seq<Block>, i: nat)
    requires c != [] && i < |blocks| && WellFormed(c + blocks)
    ensures blocks[i].header.height == |c| + i && InRange(blocks[i].header.height, INT32_WIDTH)
    ensures var sofar := c + blocks[..i]; blocks[i].header.prevHash == BlockHash(sofar[|sofar| - 1])
    ensures c + blocks[..i] + [blocks[i]] == c + blocks[..i + 1] && WellFormed(c + blocks[..i + 1])
  {
    var all := c + blocks;
    assert LinkedAt(all, |c| + i);
    HeightInRange(|c| + i);
    assert all[..|c| + i + 1] == c + blocks[..i + 1];
    PrefixWellFormed(all, |c| + i + 1);
  }

  // ----- The whole exchange -----

  datatype Outcome = Skipped | Failed | Exited | Adopted

  /** A reply to `GetBlocks` is a failure or comes from the peer's chain. */
  ghost predicate ServedBy(peer: seq<Block>, reply: (int, int, Hash) -> Option<seq<Block>>) {
    forall start, end, hash ::
      reply(start, end, hash) == None || reply(start, end, hash) == ServeBlocks(peer, start, end, hash)
  }

  lemma {:induction false} ServeRangeStart(peer: seq<Block>, r: nat, newHeight: int, hash: Hash)
    requires r < newHeight
    ensures ServeBlocks(peer, r + 1, newHeight, hash)
         == if newHeight < |peer| && peer[r + 1].header.prevHash == hash then Some(peer[r + 1..newHeight + 1]) else None
  {
    if r + 1 < |peer| {
      ServeRangeIsSlice(peer, r + 1, newHeight);
    }
  }

  /** A block range served on top of our block `r` continues our chain up to `r`. */
  lemma {:induction false} ServedContinues(chain: seq<Block>, peer: seq<Block>, r: nat, newHeight: int)
    requires WellFormed(chain) && WellFormed(peer) && CollisionFree(chain, peer)
    requires r < |chain| <= newHeight && ServeBlocks(peer, r + 1, newHeight, BlockHash(chain[r])).Some?
    ensures newHeight < |peer|
    ensures ServeBlocks(peer, r + 1, newHeight, BlockHash(chain[r])).value == peer[r + 1..newHeight + 1]
    ensures chain[..r + 1] == peer[..r + 1]
    ensures chain[..r + 1] + peer[r + 1..newHeight + 1] == peer[..newHeight + 1]
    ensures WellFormed(peer[..newHeight + 1])
  {
    ServeRangeStart(peer, r, newHeight, BlockHash(chain[r]));
    assert LinkedAt(peer, r + 1);
    forall j | 0 <= j <= r ensures chain[j] == peer[j] {
      AgreeBelow(chain, peer, r, j);
    }
    PrefixWellFormed(peer, newHeight + 1);
  }

  /** The chain state, the set and the pool are exactly as before. */
  twostate predicate Untouched(bc: Blockchain, utxo: UTXOSet)
    reads bc, bc.pool, utxo
  {
    && bc.pool.m == old(bc.pool.m)
    && bc.chain == old(bc.chain) && bc.blocks == old(bc.blocks) && bc.txns == old(bc.txns)
    && utxo.entries == old(utxo.entries)
  }

  /** The set after rolling our blocks above the fork back and replaying the peer's on `base`. */
  function Switched(s: UtxoMap, group: int, base: seq<Block>, ours: seq<Block>, theirs: seq<Block>): UtxoMap {
    Replayed(RollbackBlocks(s, ours), group, base, theirs)
  }

  /** The set after switching at height `r` to the peer's blocks up to `newHeight`. */
  function Resolved(s: UtxoMap, group: int, chain: seq<Block>, peer: seq<Block>, r: nat, newHeight: nat): UtxoMap
    requires r < |chain| && r < newHeight < |peer|
  {
    Switched(s, group, peer[..r + 1], chain[r + 1..], peer[r + 1..newHeight + 1])
  }

  /** Moves "lastest" to block `r`, or finds that there is no such block. */
  method Rewind(bc: Blockchain, r: int) returns (b: Option<Block>)
    requires bc.Valid() && bc.heightLoaded && -1 <= r < |bc.chain|
    modifies bc`blocks, bc`cacheHeight
    ensures b.None? ==> r == -1 && bc.blocks == old(bc.blocks) && bc.cacheHeight == old(bc.cacheHeight)
    ensures b.Some? ==> bc.blocks == old(bc.blocks)[LASTEST := BlockEntry(b.value)]
    ensures b.Some? && r >= 0 ==> b.value == bc.chain[r] && Rewound(bc, bc.chain, r)
  {
    HeightInRange(r);
    b := bc.GetBlockByHeight(r, bc.chain);
    if b.Some? {
      if r >= 0 {
        assert LinkedAt(bc.chain, r);
      }
      bc.SetLastest(b.value);
      assert bc.blocks - {LASTEST} == old(bc.blocks) - {LASTEST};
    }
  }

  /** Moves "lastest" back to the block it pointed to before. */
  method Restore(bc: Blockchain, originHash: Hash, ghost blocks: Bucket)
    requires bc.chain != [] && originHash == BlockHash(bc.chain[|bc.chain| - 1])
    requires bc.Holds(bc.chain) && bc.pool.Valid() && bc.heightLoaded
    requires LASTEST in blocks && blocks[LASTEST] == BlockEntry(bc.chain[|bc.chain| - 1])
    requires LASTEST in bc.blocks && bc.blocks - {LASTEST} == blocks - {LASTEST}
    modifies bc`blocks, bc`cacheHeight
    ensures bc.Valid() && bc.blocks == blocks
  {
    ghost var n := |bc.chain| - 1;
    bc.LookupHash(n);
    assert LinkedAt(bc.chain, n);
    var block := bc.GetBlockByHash(originHash.bytes);
    bc.SetLastest(block.value);
    assert bc.blocks - {LASTEST} == blocks - {LASTEST};
    SameBuckets(bc.blocks, blocks);
  }

  lemma SameBuckets(a: Bucket, b: Bucket)
    requires LASTEST in a && LASTEST in b && a[LASTEST] == b[LASTEST] && a - {LASTEST} == b - {LASTEST}
    ensures a == b
  {
    assert a == (a - {LASTEST})[LASTEST := a[LASTEST]];
    assert b == (b - {LASTEST})[LASTEST := b[LASTEST]];
  }

  /** Rolls our blocks above `r` back and replays others there. */
  method SwitchTo(bc: Blockchain, utxo: UTXOSet, lastestHeight: int, r: int, blocks: seq<Block>, lastestHash: Hash)
    requires utxo.bc == bc && Rewound(bc, bc.chain, r) && lastestHeight == |bc.chain| - 1
    requires lastestHash == BlockHash(bc.chain[r]) && WellFormed(bc.chain[..r + 1] + blocks)
    modifies bc, bc.pool, utxo`entries
    ensures bc.Valid() && bc.heightLoaded && bc.chain == old(bc.chain)[..r + 1] + blocks
    ensures utxo.entries
         == Switched(old(utxo.entries), utxo.group, old(bc.chain)[..r + 1], old(bc.chain)[r + 1..], blocks)
  {
    RollBack(bc, utxo, lastestHeight, r);
    ReplayAll(bc, utxo, blocks, lastestHash);
  }

  /** The second half of the exchange: fetch the blocks above `r`, then roll back and replay. */
  method Exchange(bc: Blockchain, utxo: UTXOSet, lastestHeight: int, originHash: Hash, newHeight: int, l: int, r: int,
                  blocksReply: (int, int, Hash) -> Option<seq<Block>>, ghost peer: seq<Block>)
      returns (outcome: Outcome)
    requires utxo.bc == bc && bc.Valid() && bc.heightLoaded && bc.chain != [] && |bc.chain| <= newHeight
    requires lastestHeight == |bc.chain| - 1 && originHash == BlockHash(bc.chain[lastestHeight])
    requires l == r + 1 && -1 <= r < |bc.chain|
    requires WellFormed(peer) && CollisionFree(bc.chain, peer) && ServedBy(peer, blocksReply)
    modifies bc, bc.pool, utxo`entries
    ensures bc.Valid() && bc.heightLoaded && outcome != Skipped
    ensures outcome != Adopted ==> Untouched(bc, utxo)
    ensures outcome == Adopted ==>
      && 0 <= r && newHeight < |peer|
      && old(bc.chain)[..r + 1] == peer[..r + 1] && bc.chain == peer[..newHeight + 1]
      && utxo.entries == Resolved(old(utxo.entries), utxo.group, old(bc.chain), peer, r, newHeight)
    ensures r >= 0 && blocksReply(l, newHeight, BlockHash(old(bc.chain)[r])).Some? ==> outcome == Adopted
  {
    ghost var blocks0 := bc.blocks;
    var lastest := Rewind(bc, r);
    if lastest.None? {
      return Exited;
    }
    var lastestHash := BlockHash(lastest.value);
    var reply := blocksReply(l, newHeight, lastestHash);
    assert reply.None? || reply == ServeBlocks(peer, l, newHeight, lastestHash);
    if reply.None? {
      assert bc.blocks - {LASTEST} == blocks0 - {LASTEST};
      Restore(bc, originHash, blocks0);
      return Failed;
    }
    ServedContinues(bc.chain, peer, r, newHeight);
    SwitchTo(bc, utxo, lastestHeight, r, reply.value, lastestHash);
    outcome := Adopted;
  }

  /** Nothing fails, and the peer answers everything from one chain with our genesis. */
  ghost predicate Reliable(chain: seq<Block>, peer: seq<Block>, hashReply: (nat, int) -> Option<Hash>,
                           blocksReply: (int, int, Hash) -> Option<seq<Block>>) {
    && FixedPeer(chain, peer, hashReply)
    && chain != [] && chain[0] == peer[0]
    && forall start, end, hash :: blocksReply(start, end, hash) == ServeBlocks(peer, start, end, hash)
  }

  lemma {:induction false} ReliableServes(chain: seq<Block>, peer: seq<Block>, r: int, newHeight: int)
    requires Linked(peer) && IsFork(chain, peer, r) && chain != [] && chain[0] == peer[0]
    requires |chain| <= newHeight < |peer|
    ensures r >= 0 && ServeBlocks(peer, r + 1, newHeight, BlockHash(chain[r])).Some?
  {
    ServeRangeStart(peer, r, newHeight, BlockHash(chain[r]));
    assert LinkedAt(peer, r + 1);
  }

  /** The exchange with a peer that claims to be higher. */
  method SyncLonger(bc: Blockchain, utxo: UTXOSet, lastestHeight: int, newHeight: int,
                    hashReply: (nat, int) -> Option<Hash>, blocksReply: (int, int, Hash) -> Option<seq<Block>>,
                    ghost peer: seq<Block>) returns (outcome: Outcome, ghost r: int)
    requires utxo.bc == bc && bc.Valid() && bc.heightLoaded
    requires 0 <= lastestHeight == |bc.chain| - 1 < newHeight
    requires WellFormed(peer) && CollisionFree(bc.chain, peer) && ServedBy(peer, blocksReply)
    modifies bc, bc.pool, utxo`entries
    ensures bc.Valid() && bc.heightLoaded && outcome != Skipped
    ensures outcome != Adopted ==> Untouched(bc, utxo)
    ensures outcome == Adopted ==>
      && 0 <= r < old(|bc.chain|) && newHeight < |peer|
      && old(bc.chain)[..r + 1] == peer[..r + 1] && bc.chain == peer[..newHeight + 1]
      && utxo.entries == Resolved(old(utxo.entries), utxo.group, old(bc.chain), peer, r, newHeight)
    ensures Reliable(old(bc.chain), peer, hashReply, blocksReply) && newHeight < |peer| ==>
      outcome == Adopted && IsFork(old(bc.chain), peer, r)
  {
    ghost var c := bc.chain;
    var origin := bc.GetLastest();
    var ok, l, fork := FindFork(bc, lastestHeight, hashReply, peer);
    r := fork;
    if !ok {
      return Failed, r;
    }
    if Reliable(c, peer, hashReply, blocksReply) && newHeight < |peer| {
      ReliableServes(c, peer, fork, newHeight);
    }
    outcome := Exchange(bc, utxo, lastestHeight, BlockHash(origin.value), newHeight, l, fork, blocksReply, peer);
  }

  /**
   Adopts the peer's chain up to `newHeight` if the peer serves it, and otherwise
   leaves everything as it was. The replies to `GetHash` may come from any state of
   the peer, or fail; the link check of `GetBlocks` is what makes the result right.
   */
  method SyncBlocks(bc: Blockchain, utxo: UTXOSet, newHeight: int, hashReply: (nat, int) -> Option<Hash>,
                    blocksReply: (int, int, Hash) -> Option<seq<Block>>, ghost peer: seq<Block>)
      returns (outcome: Outcome, ghost r: int)
    requires utxo.bc == bc && bc.Valid()
    requires WellFormed(peer) && CollisionFree(bc.chain, peer) && ServedBy(peer, blocksReply)
    modifies bc, bc.pool, utxo`entries
    ensures bc.Valid() && bc.heightLoaded
    ensures outcome == Skipped <==> newHeight < old(|bc.chain|) || old(bc.chain) == []
    ensures outcome != Adopted ==> Untouched(bc, utxo)
    ensures outcome == Adopted ==>
      && 0 <= r < old(|bc.chain|) <= newHeight < |peer|
      && old(bc.chain)[..r + 1] == peer[..r + 1] && bc.chain == peer[..newHeight + 1]
      && utxo.entries == Resolved(old(utxo.entries), utxo.group, old(bc.chain), peer, r, newHeight)
    ensures Reliable(old(bc.chain), peer, hashReply, blocksReply) && old(|bc.chain|) <= newHeight < |peer| ==>
      outcome == Adopted && IsFork(old(bc.chain), peer, r)
  {
    var lastestHeight := bc.GetHeight();
    if newHeight <= lastestHeight || lastestHeight == -1 {
      return Skipped, -1;
    }
    outcome, r := SyncLonger(bc, utxo, lastestHeight, newHeight, hashReply, blocksReply, peer);
  }

  // ----- A steady peer -----

  /** Reads the whole chain out of a store. */
  method Snapshot(bc: Blockchain) returns (c: seq<Block>)
    requires bc.Valid()
    ensures c == bc.chain
  {
    var lastest := bc.GetLastest();
    if lastest.None? {
      return [];
    }
    var height := lastest.value.header.height;
    assert LinkedAt(bc.chain, |bc.chain| - 1);
    HeightInRange(height);
    HeightInRange(0);
    ServeRangeIsSlice(bc.chain, 0, height);
    var blocks := CollectBlocks(bc, 0, height);
    c := blocks.value;
  }

  /** A peer that answers every query from one chain, at least as high as ours, is a fixed peer. */
  lemma {:induction false} ServedHashesAreFixed(chain: seq<Block>, peer: seq<Block>, reply: (nat, int) -> Option<Hash>)
    requires |chain| <= |peer| && Linked(chain) && Linked(peer) && CollisionFree(chain, peer)
    requires forall k: nat, m :: 0 <= m < |chain| ==> reply(k, m) == ServeHash(peer, m)
    ensures FixedPeer(chain, peer, reply)
  {
  }

  /** The heights of a synchronisation with a node of that chain. */
  ghost predicate IsHigher(chain: seq<Block>, peer: seq<Block>) {
    chain != [] && |chain| < |peer| && chain[0] == peer[0] && CollisionFree(chain, peer)
  }

  /**
   Synchronising with a steady node: the answers are those its `GetHash` and
   `GetBlocks` give. If it is higher and on the same genesis, its chain is adopted.
   */
  method SyncWith(bc: Blockchain, utxo: UTXOSet, other: Blockchain) returns (outcome: Outcome, ghost r: int)
    requires utxo.bc == bc && bc.Valid() && other.Valid() && other != bc && other.pool != bc.pool
    requires IsHigher(bc.chain, other.chain)
    modifies bc, bc.pool, utxo`entries
    ensures outcome == Adopted && bc.Valid() && bc.heightLoaded
    ensures bc.chain == other.chain == old(other.chain) && other.Valid()
    ensures IsFork(old(bc.chain), other.chain, r) && 0 <= r < old(|bc.chain|)
    ensures utxo.entries
         == Resolved(old(utxo.entries), utxo.group, old(bc.chain), other.chain, r, |other.chain| - 1)
  {
    var peer := Snapshot(other);
    var hashReply := (k: nat, m: int) => ServeHash(peer, m);
    var blocksReply := (start: int, end: int, hash: Hash) => ServeBlocks(peer, start, end, hash);
    ServedHashesAreFixed(bc.chain, peer, hashReply);
    assert Reliable(bc.chain, peer, hashReply, blocksReply);
    outcome, r := SyncBlocks(bc, utxo, |peer| - 1, hashReply, blocksReply, peer);
    assert peer[..|peer|] == peer;
  }
}
