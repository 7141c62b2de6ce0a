/** Batch mining: one nonce for the blocks of several groups at once. */
module ProofOfWork {
  import opened Types
  import opened Numbers
  import opened DatabaseKey
  import opened MerkleTree
  import opened MerklePath

  const MAX_INT64: int := 0x7FFF_FFFF_FFFF_FFFF
  const HASH_SPACE: nat := 0x1_0000_0000_0000_0000_0000_0000_0000_0000_0000_0000_0000_0000_0000_0000_0000_0000

  /** The largest `float64`; every target is at most this. */
  const MAX_FLOAT64: real

  /** A hash meets a target when, as a number, it is below the target's bound. */
  function TargetBound(target: real): nat
    requires target >= 1.0
  {
    HASH_SPACE / target.Floor
  }

  predicate Meets(hash: Hash, target: real)
    requires target >= 1.0
  {
    FromBytes(hash.bytes) < TargetBound(target)
  }

  predicate Verify(b: Block)
    requires b.header.target >= 1.0
  {
    Meets(BlockHash(b), b.header.target)
  }

  /** `Block.Hash`: folds the path of the block, then hashes the batch header. */
  method HashBlock(b: Block) returns (hash: Hash)
    ensures hash == BlockHash(b)
  {
    var root := FoldPath(Sha256(HeaderHash(b.header).bytes), b.path);
    hash := PowHash(root, b.groupBase, b.batchSize, b.nonce);
  }

  ghost predicate GoodTargets(blocks: seq<Block>) {
    forall i :: 0 <= i < |blocks| ==> 1.0 <= blocks[i].header.target <= MAX_FLOAT64
  }

  lemma {:induction false} SmallerTargetIsEasier(hash: Hash, low: real, high: real)
    requires 1.0 <= low <= high && Meets(hash, high)
    ensures Meets(hash, low)
  {
    var a, b := low.Floor, high.Floor;
    QuotientAntitone(HASH_SPACE, a, b);
  }

  lemma {:induction false} FromBytesBound(b: Bytes)
    ensures FromBytes(b) < Pow256(|b|)
    decreases |b|
  {
    if b != [] {
      FromBytesBound(b[..|b| - 1]);
      assert Pow256(|b|) == 256 * Pow256(|b| - 1);
    }
  }

  lemma {:induction false} PowSum(i: nat, j: nat)
    ensures Pow256(i + j) == Pow256(i) * Pow256(j)
    decreases i
  {
    if i > 0 {
      PowSum(i - 1, j);
    }
  }

  lemma {:induction false} PowDouble(i: nat, p: nat)
    requires Pow256(i) == p
    ensures Pow256(2 * i) == p * p
  {
    PowSum(i, i);
  }

  lemma {:induction false} HashSpaceIsPow()
    ensures Pow256(32) == HASH_SPACE
  {
    assert Pow256(1) == 256 * Pow256(0);
    PowDouble(1, 0x100);
    PowDouble(2, 0x1_0000);
    PowDouble(4, 0x1_0000_0000);
    PowDouble(8, 0x1_0000_0000_0000_0000);
    PowDouble(16, 0x1_0000_0000_0000_0000_0000_0000_0000_0000);
  }

  /** Every hash meets the target 1, with which a chain is created. */
  lemma {:induction false} EveryHashMeetsOne(hash: Hash)
    requires |hash.bytes| == 32
    ensures Meets(hash, 1.0)
  {
    HashSpaceIsPow();
    FromBytesBound(hash.bytes);
  }

  lemma QuotientAntitone(x: nat, a: nat, b: nat)
    requires 0 < a <= b
    ensures x / b <= x / a
  {
    var p, q := x / a, x / b;
    assert b * q <= x < a * p + a;
    if p < q {
      MulMonotone(p + 1, q, a);
      MulMonotone(a, b, q);
    }
  }

  lemma MulMonotone(a: int, b: int, c: nat)
    requires a <= b
    ensures a * c <= b * c && c * a <= c * b
  {
  }

  lemma ModBelow(x: nat, n: nat)
    requires x < n
    ensures x % n == x && (n + x) % n == x
  {
  }

  // ----- The hashes of a batch -----

  function HeaderBytes(blocks: seq<Block>): (dataSeq: seq<Bytes>)
    ensures |dataSeq| == |blocks|
    ensures forall i :: 0 <= i < |blocks| ==> dataSeq[i] == HeaderHash(blocks[i].header).bytes
  {
    seq(|blocks|, i requires 0 <= i < |blocks| => HeaderHash(blocks[i].header).bytes)
  }

  function BatchLeaves(blocks: seq<Block>): seq<Hash> {
    LeafHashes(HeaderBytes(blocks))
  }

  /** The lowest target of the batch, found by the loop of `NewPOW`. */
  method LowestTarget(blocks: seq<Block>) returns (low: real)
    requires blocks != [] && GoodTargets(blocks)
    ensures exists i :: 0 <= i < |blocks| && blocks[i].header.target == low
    ensures forall i :: 0 <= i < |blocks| ==> low <= blocks[i].header.target
  {
    low := MAX_FLOAT64;
    for k := 0 to |blocks|
      invariant low <= MAX_FLOAT64
      invariant low == MAX_FLOAT64 || exists i :: 0 <= i < k && blocks[i].header.target == low
      invariant forall i :: 0 <= i < k ==> low <= blocks[i].header.target
    {
      if low > blocks[k].header.target {
        low := blocks[k].header.target;
      }
    }
    assert blocks[0].header.target <= MAX_FLOAT64;
  }

  datatype RunResult = Changed | Stopped(nonce: int)

  /** In round `k` of the search every chain still ends just below its block. */
  ghost predicate ChainsUnchanged(blocks: seq<Block>, heightAt: (nat, int) -> int, k: nat) {
    forall i :: 0 <= i < |blocks| ==> heightAt(k, blocks[i].header.group) == blocks[i].header.height - 1
  }

  /**
   The nonce search. `heightAt(k, g)` is the height of group `g` as seen in round
   `k`. The search stops at the first nonce that meets the target, at the end of
   the nonce range, or as soon as a chain has changed; each round checks the
   chains first.
   */
  method Run(blocks: seq<Block>, root: Hash, target: real, start: int, heightAt: (nat, int) -> int)
      returns (result: RunResult)
    requires blocks != [] && target >= 1.0
    ensures result.Stopped? && result.nonce < MAX_INT64 ==>
      Meets(PowHash(root, blocks[0].header.group, |blocks|, result.nonce), target)
    ensures result.Stopped? ==> start <= result.nonce && forall m :: start <= m < result.nonce ==>
      !Meets(PowHash(root, blocks[0].header.group, |blocks|, m), target)
    ensures result.Stopped? ==> UnchangedThrough(blocks, heightAt, start, result.nonce)
    ensures result.Changed? ==> start < MAX_INT64
    ensures result.Changed? ==>
      exists k: nat :: ChangedIn(blocks, heightAt, k) && NoneMeets(blocks, root, target, start, start + k)
  {
    var nonce := start;
    while nonce < MAX_INT64
      invariant start <= nonce
      invariant forall k: nat :: k < nonce - start ==> ChainsUnchanged(blocks, heightAt, k)
      invariant forall m :: start <= m < nonce ==>
        !Meets(PowHash(root, blocks[0].header.group, |blocks|, m), target)
    {
      ghost var round: nat := nonce - start;
      for i := 0 to |blocks|
        invariant forall k :: 0 <= k < i ==>
          heightAt(nonce - start, blocks[k].header.group) == blocks[k].header.height - 1
      {
        if heightAt(nonce - start, blocks[i].header.group) != blocks[i].header.height - 1 {
          assert ChangedIn(blocks, heightAt, round) && NoneMeets(blocks, root, target, start, start + round);
          return Changed;
        }
      }
      assert ChainsUnchanged(blocks, heightAt, round);
      if Meets(PowHash(root, blocks[0].header.group, |blocks|, nonce), target) {
        break;
      }
      nonce := nonce + 1;
    }
    result := Stopped(nonce);
  }

  /** No nonce from `start` up to `end` meets the target. */
  ghost predicate NoneMeets(blocks: seq<Block>, root: Hash, target: real, start: int, end: int)
    requires blocks != [] && target >= 1.0
  {
    forall m :: start <= m < end ==> !Meets(PowHash(root, blocks[0].header.group, |blocks|, m), target)
  }

  /** The chains were checked, and unchanged, in every round of a search that stopped at `nonce`. */
  ghost predicate UnchangedThrough(blocks: seq<Block>, heightAt: (nat, int) -> int, start: int, nonce: int) {
    forall k: nat :: k <= nonce - start && start + k < MAX_INT64 ==> ChainsUnchanged(blocks, heightAt, k)
  }

  /** Round `k` is the first in which a chain has changed. */
  ghost predicate ChangedIn(blocks: seq<Block>, heightAt: (nat, int) -> int, k: nat) {
    !ChainsUnchanged(blocks, heightAt, k) && forall j: nat :: j < k ==> ChainsUnchanged(blocks, heightAt, j)
  }

  // ----- Drafting the blocks of a batch -----

  /** The block drafted on top of `last` for slot `i` of a batch. */
  ghost predicate IsDraft(b: Block, last: Block, groupBase: int, batchSize: int, i: nat) {
    && b.header.group == (groupBase + i) % MAX_GROUP_NUM
    && b.header.height == last.header.height + 1
    && b.header.prevHash == BlockHash(last)
    && b.groupBase == groupBase
    && b.batchSize == batchSize
  }

  /** A batch whose drafts are those of `MineBlocks` for an in-range group base. */
  ghost predicate IsBatch(blocks: seq<Block>, groupBase: int) {
    && 0 < |blocks| <= MAX_GROUP_NUM && 0 <= groupBase < MAX_GROUP_NUM
    && forall i :: 0 <= i < |blocks| ==>
         && blocks[i].header.group == (groupBase + i) % MAX_GROUP_NUM
         && blocks[i].groupBase == groupBase
         && blocks[i].batchSize == |blocks|
  }

  datatype DraftResult = Drafts(blocks: seq<Block>) | NoLatest(slot: nat)

  /**
   Drafts one block per slot. `latests[i]` is the last block of the slot's group,
   `stamps` and `targets` are the clock and the recomputed difficulty.
   */
  method DraftBlocks(latests: seq<Option<Block>>, txns: seq<seq<Txn>>, roots: seq<Hash>, stamps: seq<int>,
                     targets: seq<real>, groupBase: int) returns (r: DraftResult)
    requires |latests| == |txns| == |roots| == |stamps| == |targets|
    ensures r.Drafts? <==> forall i :: 0 <= i < |latests| ==> latests[i].Some?
    ensures r.Drafts? ==> |r.blocks| == |latests| && forall i :: 0 <= i < |latests| ==>
      && IsDraft(r.blocks[i], latests[i].value, groupBase, |latests|, i)
      && r.blocks[i].txns == txns[i] && r.blocks[i].header.target == targets[i]
      && r.blocks[i].header.merkleRoot == roots[i] && r.blocks[i].header.timestamp == stamps[i]
    ensures r.NoLatest? ==> r.slot < |latests| && latests[r.slot].None?
  {
    var blocks: seq<Block> := [];
    for i := 0 to |latests|
      invariant |blocks| == i
      invariant forall k :: 0 <= k < i ==>
        && latests[k].Some?
        && IsDraft(blocks[k], latests[k].value, groupBase, |latests|, k)
        && blocks[k].txns == txns[k] && blocks[k].header.target == targets[k]
        && blocks[k].header.merkleRoot == roots[k] && blocks[k].header.timestamp == stamps[k]
    {
      if latests[i].None? {
        return NoLatest(i);
      }
      var last := latests[i].value;
      var header := BlockHeader((groupBase + i) % MAX_GROUP_NUM, last.header.height + 1, BlockHash(last),
                                stamps[i], roots[i], targets[i]);
      blocks := blocks + [Block(header, groupBase, |latests|, [], 0, txns[i])];
    }
    r := Drafts(blocks);
  }

  // ----- Keeping the blocks that meet their own target -----

  /** The slot of a block in its batch, recomputed from its group. */
  function Slot(b: Block): int {
    (b.header.group + MAX_GROUP_NUM - b.groupBase) % MAX_GROUP_NUM
  }

  lemma SlotArithmetic(base: nat, i: nat, n: nat)
    requires base < n && i < n
    ensures ((base + i) % n + n - base) % n == i && base % n == base
  {
    ModBelow(base, n);
    ModBelow(i, n);
    if base + i < n {
      ModBelow(base + i, n);
    } else {
      ModBelow(base + i - n, n);
    }
  }

  lemma SlotIsPosition(blocks: seq<Block>, groupBase: int, i: nat)
    requires IsBatch(blocks, groupBase) && i < |blocks|
    ensures Slot(blocks[i]) == i
    ensures blocks[0].header.group == groupBase
  {
    SlotArithmetic(groupBase, i, MAX_GROUP_NUM);
    assert blocks[0].header.group == (groupBase + 0) % MAX_GROUP_NUM;
  }

  function Mined(b: Block, tree: Tree, nonce: int): Block {
    b.(nonce := nonce, path := Path(tree, Slot(b)))
  }

  lemma BatchLeaf(blocks: seq<Block>, i: nat)
    requires i < |blocks|
    ensures BatchLeaves(blocks)[i] == Sha256(HeaderHash(blocks[i].header).bytes)
  {
  }

  /** Where its slot's path works, a mined block hashes to the mined hash. */
  lemma {:induction false} MinedHash(blocks: seq<Block>, groupBase: int, tree: Tree, j: nat, nonce: int, i: nat)
    requires IsBatch(blocks, groupBase) && i < |blocks|
    requires Shape(tree, j, 0, BatchLeaves(blocks)) && RootLevel(j, |blocks|)
    requires PathWorks(j, 0, |blocks|, i)
    ensures BlockHash(Mined(blocks[i], tree, nonce)) == PowHash(tree.hash, groupBase, |blocks|, nonce)
  {
    SlotIsPosition(blocks, groupBase, i);
    BatchLeaf(blocks, i);
    PathFoldsToRoot(tree, j, BatchLeaves(blocks), i);
  }

  /** The two roots, with this group base, batch size and nonce, hash alike only if they are the same. */
  predicate RootsToldApart(a: Hash, b: Hash, groupBase: int, batchSize: int, nonce: int) {
    PowHash(a, groupBase, batchSize, nonce) == PowHash(b, groupBase, batchSize, nonce) ==> a == b
  }

  /** Without collisions the mined block hashes to the mined hash exactly where its path works. */
  lemma {:induction false} MinedHashExactly(blocks: seq<Block>, groupBase: int, tree: Tree, j: nat, nonce: int, i: nat)
    requires IsBatch(blocks, groupBase) && i < |blocks|
    requires Shape(tree, j, 0, BatchLeaves(blocks)) && RootLevel(j, |blocks|)
    requires FoldToldApart(tree, i, BatchLeaves(blocks))
    requires RootsToldApart(Fold(BatchLeaves(blocks)[i], Path(tree, i)), tree.hash, groupBase, |blocks|, nonce)
    ensures BlockHash(Mined(blocks[i], tree, nonce)) == PowHash(tree.hash, groupBase, |blocks|, nonce)
       <==> PathWorks(j, 0, |blocks|, i)
  {
    SlotIsPosition(blocks, groupBase, i);
    BatchLeaf(blocks, i);
    PathFoldsExactly(tree, j, BatchLeaves(blocks), i);
  }

  lemma {:induction false} SmallBatchesWork(n: nat, j: nat, i: nat)
    requires 1 <= n <= 2 && i < n && RootLevel(j, n)
    ensures PathWorks(j, 0, n, i)
  {
  }

  datatype MineResult = MineFailed | Found(nonce: int, blocks: seq<Block>)

  /** The mined blocks that meet their own target, in batch order. */
  ghost function Survivors(blocks: seq<Block>, tree: Tree, nonce: int): seq<Block>
    requires GoodTargets(blocks)
    decreases |blocks|
  {
    if blocks == [] then []
    else
      var b := Mined(blocks[|blocks| - 1], tree, nonce);
      Survivors(blocks[..|blocks| - 1], tree, nonce) + if Verify(b) then [b] else []
  }

  /**
   What a run of the miner promises about its result. When the nonce range is
   exhausted nothing is known about the hash, but the blocks are filtered all the same.
   */
  ghost predicate MinedBatch(blocks: seq<Block>, tree: Tree, nonce: int, kept: seq<Block>)
    requires blocks != [] && GoodTargets(blocks)
  {
    && kept == Survivors(blocks, tree, nonce)
    && (nonce < MAX_INT64 ==> LowestMet(blocks, PowHash(tree.hash, blocks[0].header.group, |blocks|, nonce)))
  }

  /** The hash meets the lowest target of the batch. */
  ghost predicate LowestMet(blocks: seq<Block>, hash: Hash)
    requires GoodTargets(blocks)
  {
    exists low :: 0 <= low < |blocks| && IsLowest(blocks, low) && Meets(hash, blocks[low].header.target)
  }

  ghost predicate IsLowest(blocks: seq<Block>, i: nat)
    requires i < |blocks|
  {
    forall k :: 0 <= k < |blocks| ==> blocks[i].header.target <= blocks[k].header.target
  }

  /** Completes every block with the nonce and its path, and keeps those that verify. */
  method KeepVerified(blocks: seq<Block>, tree: Tree, nonce: int) returns (kept: seq<Block>)
    requires GoodTargets(blocks)
    ensures kept == Survivors(blocks, tree, nonce)
  {
    kept := [];
    for i := 0 to |blocks|
      invariant kept == Survivors(blocks[..i], tree, nonce)
    {
      var path := FindPath(tree, Slot(blocks[i]));
      var b := blocks[i].(nonce := nonce, path := path);
      assert blocks[..i + 1][..i] == blocks[..i];
      if Verify(b) {
        kept := kept + [b];
      }
    }
    assert blocks[..|blocks|] == blocks;
  }

  /** Mining a drafted batch: search, then keep the blocks that verify. */
  method MineBatch(blocks: seq<Block>, start: int, heightAt: (nat, int) -> int)
      returns (r: MineResult, tree: Tree, ghost j: nat)
    requires blocks != [] && GoodTargets(blocks)
    ensures Shape(tree, j, 0, BatchLeaves(blocks)) && RootLevel(j, |blocks|)
    ensures r.Found? ==> MinedBatch(blocks, tree, r.nonce, r.blocks)
    ensures r.MineFailed? ==> start < MAX_INT64 && exists k: nat :: ChangedIn(blocks, heightAt, k)
    ensures r.Found? ==> start <= r.nonce && UnchangedThrough(blocks, heightAt, start, r.nonce)
  {
    var low := LowestTarget(blocks);
    var built;
    built, j := NewMerkleTree(HeaderBytes(blocks));
    tree := built.value;
    var result := Run(blocks, tree.hash, low, start, heightAt);
    if result.Changed? {
      return MineFailed, tree, j;
    }
    var kept := KeepVerified(blocks, tree, result.nonce);
    r := Found(result.nonce, kept);
  }

  lemma {:induction false} SurvivorsContain(blocks: seq<Block>, tree: Tree, nonce: int, i: nat)
    requires i < |blocks| && GoodTargets(blocks)
    ensures Verify(Mined(blocks[i], tree, nonce)) ==> Mined(blocks[i], tree, nonce) in Survivors(blocks, tree, nonce)
    decreases |blocks|
  {
    if i < |blocks| - 1 {
      SurvivorsContain(blocks[..|blocks| - 1], tree, nonce, i);
    }
  }

  lemma {:induction false} LowestIsKept(
      blocks: seq<Block>, groupBase: int, tree: Tree, nonce: int, kept: seq<Block>, i: nat)
    requires IsBatch(blocks, groupBase) && GoodTargets(blocks) && i < |blocks|
    requires MinedBatch(blocks, tree, nonce, kept) && nonce < MAX_INT64 && IsLowest(blocks, i)
    ensures Meets(PowHash(tree.hash, groupBase, |blocks|, nonce), blocks[i].header.target)
  {
    SlotIsPosition(blocks, groupBase, 0);
    var mined := PowHash(tree.hash, blocks[0].header.group, |blocks|, nonce);
    var low :| 0 <= low < |blocks| && IsLowest(blocks, low) && Meets(mined, blocks[low].header.target);
    SmallerTargetIsEasier(mined, blocks[i].header.target, blocks[low].header.target);
  }

  /**
   A block whose slot's path works hashes to the mined hash and is kept exactly
   when that hash is below its own bound; a block with the lowest target always is.
   */
  lemma {:induction false} WhichBlocksAreKept(
      blocks: seq<Block>, groupBase: int, tree: Tree, j: nat, nonce: int, kept: seq<Block>, i: nat)
    requires IsBatch(blocks, groupBase) && GoodTargets(blocks) && i < |blocks|
    requires Shape(tree, j, 0, BatchLeaves(blocks)) && RootLevel(j, |blocks|)
    requires MinedBatch(blocks, tree, nonce, kept)
    requires PathWorks(j, 0, |blocks|, i)
    ensures BlockHash(Mined(blocks[i], tree, nonce)) == PowHash(tree.hash, groupBase, |blocks|, nonce)
    ensures Mined(blocks[i], tree, nonce) in kept
       <==> FromBytes(PowHash(tree.hash, groupBase, |blocks|, nonce).bytes)
            < HASH_SPACE / blocks[i].header.target.Floor
    ensures IsLowest(blocks, i) && nonce < MAX_INT64 ==> Mined(blocks[i], tree, nonce) in kept
  {
    MinedHash(blocks, groupBase, tree, j, nonce, i);
    SurvivorsContain(blocks, tree, nonce, i);
    SurvivorsVerify(blocks, tree, nonce);
    if IsLowest(blocks, i) && nonce < MAX_INT64 {
      LowestIsKept(blocks, groupBase, tree, nonce, kept, i);
    }
  }

  lemma {:induction false} SurvivorsVerify(blocks: seq<Block>, tree: Tree, nonce: int)
    requires GoodTargets(blocks)
    ensures forall b :: b in Survivors(blocks, tree, nonce) ==> b.header.target >= 1.0 && Verify(b)
    decreases |blocks|
  {
    if blocks != [] {
      SurvivorsVerify(blocks[..|blocks| - 1], tree, nonce);
    }
  }

  /** The hash is the root of the Merkle tree over the transactions. */
  ghost predicate IsTxnRoot(txns: seq<Txn>, root: Hash) {
    exists tree, j: nat :: Shape(tree, j, 0, LeafHashes(EncodedTxns(txns))) && RootLevel(j, |txns|) && tree.hash == root
  }

  /** The Merkle roots of the slots' transactions. */
  method TxnRoots(txns: seq<seq<Txn>>) returns (roots: seq<Hash>)
    requires forall i :: 0 <= i < |txns| ==> txns[i] != []
    ensures |roots| == |txns| && forall i :: 0 <= i < |txns| ==> IsTxnRoot(txns[i], roots[i])
  {
    roots := [];
    for i := 0 to |txns|
      invariant |roots| == i && forall k :: 0 <= k < i ==> IsTxnRoot(txns[k], roots[k])
    {
      var tree;
      ghost var j;
      tree, j := NewMerkleTree(EncodedTxns(txns[i]));
      roots := roots + [tree.value.hash];
    }
  }

  /** The draft of one slot: on top of the group's last block, with what was ordered and the root of its transactions. */
  ghost predicate IsOrdered(b: Block, latest: Option<Block>, txns: seq<Txn>, stamp: int, target: real, groupBase: int, n: nat, i: nat) {
    && latest.Some? && IsDraft(b, latest.value, groupBase, n, i)
    && b.txns == txns && b.header.timestamp == stamp && b.header.target == target
    && IsTxnRoot(txns, b.header.merkleRoot)
  }

  ghost predicate AreDrafts(latests: seq<Option<Block>>, txns: seq<seq<Txn>>, stamps: seq<int>, targets: seq<real>,
                            groupBase: int, drafts: seq<Block>)
    requires |latests| == |txns| == |stamps| == |targets|
  {
    && |drafts| == |latests| && IsBatch(drafts, groupBase) && GoodTargets(drafts)
    && forall i {:trigger drafts[i]} :: 0 <= i < |drafts| ==>
         IsOrdered(drafts[i], latests[i], txns[i], stamps[i], targets[i], groupBase, |latests|, i)
  }

  /** The hash meets the least of the targets. */
  ghost predicate MeetsLeast(hash: Hash, targets: seq<real>)
    requires forall i :: 0 <= i < |targets| ==> targets[i] >= 1.0
  {
    exists low :: 0 <= low < |targets| && (forall i :: 0 <= i < |targets| ==> targets[low] <= targets[i])
      && FromBytes(hash.bytes) < HASH_SPACE / targets[low].Floor
  }

  lemma {:induction false} LowestIsLeast(
      latests: seq<Option<Block>>, txns: seq<seq<Txn>>, stamps: seq<int>, targets: seq<real>, groupBase: int,
      drafts: seq<Block>, hash: Hash)
    requires |latests| == |txns| == |stamps| == |targets| && forall i :: 0 <= i < |targets| ==> targets[i] >= 1.0
    requires AreDrafts(latests, txns, stamps, targets, groupBase, drafts) && LowestMet(drafts, hash)
    ensures MeetsLeast(hash, targets)
  {
    var low :| 0 <= low < |drafts| && IsLowest(drafts, low) && Meets(hash, drafts[low].header.target);
    assert drafts[low].header.target == targets[low];
    forall i | 0 <= i < |targets| ensures targets[low] <= targets[i] {
      assert drafts[i].header.target == targets[i];
    }
  }

  /** What `MineBlocks` promises about the blocks it kept. */
  ghost predicate MinedFrom(drafts: seq<Block>, tree: Tree, j: nat, r: MineResult)
    requires drafts != [] && GoodTargets(drafts) && r.Found?
  {
    && Shape(tree, j, 0, BatchLeaves(drafts)) && RootLevel(j, |drafts|)
    && MinedBatch(drafts, tree, r.nonce, r.blocks)
  }

  /** Drafts the batch, or finds a group without a last block. */
  method DraftBatch(latests: seq<Option<Block>>, txns: seq<seq<Txn>>, stamps: seq<int>, targets: seq<real>, groupBase: int)
      returns (d: DraftResult)
    requires 0 < |latests| == |txns| == |stamps| == |targets| <= MAX_GROUP_NUM && 0 <= groupBase < MAX_GROUP_NUM
    requires forall i :: 0 <= i < |txns| ==> txns[i] != [] && 1.0 <= targets[i] <= MAX_FLOAT64
    ensures d.Drafts? <==> forall i :: 0 <= i < |latests| ==> latests[i].Some?
    ensures d.Drafts? ==> d.blocks != [] && AreDrafts(latests, txns, stamps, targets, groupBase, d.blocks)
  {
    var roots := TxnRoots(txns);
    d := DraftBlocks(latests, txns, roots, stamps, targets, groupBase);
  }

  /** Drafts a block on top of every group's last one, mines the batch and keeps what verifies. */
  method MineBlocks(latests: seq<Option<Block>>, txns: seq<seq<Txn>>, stamps: seq<int>, targets: seq<real>,
                    groupBase: int, start: int, heightAt: (nat, int) -> int)
      returns (r: MineResult, drafts: seq<Block>, tree: Tree, ghost j: nat)
    requires 0 < |latests| == |txns| == |stamps| == |targets| <= MAX_GROUP_NUM && 0 <= groupBase < MAX_GROUP_NUM
    requires forall i :: 0 <= i < |txns| ==> txns[i] != [] && 1.0 <= targets[i] <= MAX_FLOAT64
    ensures r.Found? ==> drafts != [] && AreDrafts(latests, txns, stamps, targets, groupBase, drafts)
    ensures r.Found? ==> MinedFrom(drafts, tree, j, r)
    ensures r.Found? && r.nonce < MAX_INT64 ==>
      MeetsLeast(PowHash(tree.hash, groupBase, |latests|, r.nonce), targets)
    ensures r.Found? ==> start <= r.nonce && UnchangedThrough(drafts, heightAt, start, r.nonce)
    ensures r.MineFailed? && (forall i :: 0 <= i < |latests| ==> latests[i].Some?) ==>
      AreDrafts(latests, txns, stamps, targets, groupBase, drafts) && exists k: nat :: ChangedIn(drafts, heightAt, k)
  {
    drafts, tree, j := [], Leaf(0, NO_HASH), 0;
    var d := DraftBatch(latests, txns, stamps, targets, groupBase);
    if d.NoLatest? {
      return MineFailed, drafts, tree, j;
    }
    drafts := d.blocks;
    r, tree, j := MineBatch(drafts, start, heightAt);
    if r.Found? && r.nonce < MAX_INT64 {
      SlotIsPosition(drafts, groupBase, 0);
      LowestIsLeast(latests, txns, stamps, targets, groupBase, drafts, PowHash(tree.hash, groupBase, |latests|, r.nonce));
    }
  }

  // ----- Which blocks are kept -----

  /** Draft `i`, completed with the nonce and the path of its slot, is `b` and meets its own target. */
  ghost predicate Completes(draft: Block, tree: Tree, nonce: int, b: Block)
    requires draft.header.target >= 1.0
  {
    && b == draft.(nonce := nonce, path := Path(tree, Slot(draft)))
    && FromBytes(BlockHash(b).bytes) < HASH_SPACE / draft.header.target.Floor
  }

  lemma {:induction false} LastKept(before: seq<Block>, draft: Block, tree: Tree, nonce: int, b: Block)
    requires GoodTargets(before + [draft]) && GoodTargets(before) && draft.header.target >= 1.0
    ensures b in Survivors(before + [draft], tree, nonce) <==> b in Survivors(before, tree, nonce) || Completes(draft, tree, nonce, b)
    ensures |Survivors(before + [draft], tree, nonce)| <= |Survivors(before, tree, nonce)| + 1
  {
    var blocks := before + [draft];
    assert blocks[..|before|] == before && blocks[|before|] == draft;
    assert forall i :: 0 <= i < |before| ==> before[i] == blocks[i];
  }

  ghost predicate SomeCompletes(blocks: seq<Block>, tree: Tree, nonce: int, b: Block)
    requires GoodTargets(blocks)
  {
    exists i {:trigger blocks[i]} :: 0 <= i < |blocks| && Completes(blocks[i], tree, nonce, b)
  }

  lemma {:induction false} LastCompletes(before: seq<Block>, draft: Block, tree: Tree, nonce: int, b: Block)
    requires GoodTargets(before + [draft]) && GoodTargets(before) && draft.header.target >= 1.0
    ensures SomeCompletes(before + [draft], tree, nonce, b) <==>
      SomeCompletes(before, tree, nonce, b) || Completes(draft, tree, nonce, b)
  {
    var blocks := before + [draft];
    assert blocks[|before|] == draft;
    if i :| 0 <= i < |before| && Completes(before[i], tree, nonce, b) {
      assert blocks[i] == before[i];
    }
    if i :| 0 <= i < |blocks| && Completes(blocks[i], tree, nonce, b) {
      assert i < |before| ==> before[i] == blocks[i];
    }
  }

  /** Kept are exactly the drafts that meet their own target when completed with the nonce and the path of their slot. */
  lemma {:induction false} KeptExactly(blocks: seq<Block>, tree: Tree, nonce: int, b: Block)
    requires GoodTargets(blocks)
    ensures b in Survivors(blocks, tree, nonce) <==> SomeCompletes(blocks, tree, nonce, b)
    ensures |Survivors(blocks, tree, nonce)| <= |blocks|
    decreases |blocks|
  {
    if blocks != [] {
      var before, draft := blocks[..|blocks| - 1], blocks[|blocks| - 1];
      assert blocks == before + [draft];
      assert forall i :: 0 <= i < |before| ==> before[i] == blocks[i];
      LastKept(before, draft, tree, nonce, b);
      LastCompletes(before, draft, tree, nonce, b);
      KeptExactly(before, tree, nonce, b);
    }
  }
}
