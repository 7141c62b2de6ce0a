/**
 The UTXO set of a node follows its chain: whatever forks it switches over, the set is
 the chain's transactions applied in order, up to the order inside entries and stale
 outputs that earlier switches left behind.
 */
module Tracking {
  import opened Types
  import opened Ledger
  import opened Rollback
  import opened ForkResolution
  import opened Incremental
  import opened IndexAgreement
  import UtxoSets
  import Sync

  /** The transactions of the chain applied in order. */
  ghost function RunOf(group: int, c: seq<Block>): Option<UtxoMap> {
    ApplyTxns(map[], group, Flatten(c))
  }

  /** The set is the run of the chain, with `stale` besides. */
  ghost predicate Tracks(group: int, c: seq<Block>, x: UtxoMap, stale: UtxoMap) {
    c != [] ==> RunOf(group, c).Some? && Matches(x, RunOf(group, c).value, stale)
  }

  /** Every input of the chain takes out exactly one output, or is skipped. */
  ghost predicate ExactChain(group: int, c: seq<Block>) {
    ExactRun(map[], group, {}, Flatten(c))
  }

  // ----- The steps of a set -----

  /** Chain and set are switched at block `r`. */
  ghost predicate SwitchAt(group: int, c: seq<Block>, x: UtxoMap, c': seq<Block>, x': UtxoMap, r: nat) {
    && r < |c| && r < |c'| && c[..r + 1] == c'[..r + 1]
    && x' == Sync.Switched(x, group, c'[..r + 1], c[r + 1..], c'[r + 1..])
  }

  ghost predicate Installs(c: seq<Block>, c': seq<Block>, x': UtxoMap) {
    c == [] && |c'| == 1 && x' == Scan(VisitOrder(c'))
  }

  /** Chain and set stay, are switched together, or are installed from a genesis. */
  ghost predicate SetStep(group: int, c: seq<Block>, x: UtxoMap, c': seq<Block>, x': UtxoMap) {
    || (c' == c && (x' == x || c == []))
    || (exists r: nat :: SwitchAt(group, c, x, c', x', r))
    || Installs(c, c', x')
  }

  /** Adding a block and updating with it is a switch above our last block. */
  lemma {:induction false} UpdateIsSwitch(group: int, c: seq<Block>, x: UtxoMap, b: Block)
    requires c != []
    ensures SwitchAt(group, c, x, c + [b], UtxoSets.Updated(x, group, b.txns, c + [b]), |c| - 1)
  {
    var c', n := c + [b], |c|;
    assert c[..n] == c == c'[..n] && c[n..] == [] && c'[n..] == [b];
    assert [b][..0] == [];
    assert Sync.Replayed(x, group, c, [b][..0]) == x && RollbackBlocks(x, []) == x;
  }

  /** What a synchronisation resolves to is a switch to the peer's chain. */
  lemma {:induction false} ResolvedIsSwitch(group: int, c: seq<Block>, x: UtxoMap, peer: seq<Block>, r: nat, newHeight: nat)
    requires r < |c| <= newHeight < |peer| && c[..r + 1] == peer[..r + 1]
    ensures SwitchAt(group, c, x, peer[..newHeight + 1], Sync.Resolved(x, group, c, peer, r, newHeight), r)
  {
    var c' := peer[..newHeight + 1];
    assert c'[..r + 1] == peer[..r + 1] && c'[r + 1..] == peer[r + 1..newHeight + 1];
  }

  // ----- Runs of chains -----

  lemma {:induction false} FlattenConcat(a: seq<Block>, b: seq<Block>)
    ensures Flatten(a + b) == Flatten(a) + Flatten(b)
    decreases |b|
  {
    if b == [] {
      assert a + b == a;
    } else {
      var n := |b| - 1;
      assert (a + b)[..|a + b| - 1] == a + b[..n];
      FlattenConcat(a, b[..n]);
      assert Flatten(a) + (Flatten(b[..n]) + b[n].txns) == Flatten(a) + Flatten(b[..n]) + b[n].txns;
    }
  }

  lemma {:induction false} TxnHashesConcat(a: seq<Txn>, b: seq<Txn>)
    ensures TxnHashes(a + b) == TxnHashes(a) + TxnHashes(b)
  {
    forall h | h in TxnHashes(a) + TxnHashes(b) ensures h in TxnHashes(a + b) {
      if h in TxnHashes(a) {
        var i :| 0 <= i < |a| && TxnHash(a[i]) == h;
        assert (a + b)[i] == a[i];
      } else {
        var i :| 0 <= i < |b| && TxnHash(b[i]) == h;
        assert (a + b)[|a| + i] == b[i];
      }
    }
  }

  /** An exact run splits into an exact run and an exact run from where that ends. */
  lemma {:induction false} ExactRunSplits(s: UtxoMap, group: int, known: set<Hash>, a: seq<Txn>, b: seq<Txn>)
    requires ExactRun(s, group, known, a + b)
    ensures ExactRun(s, group, known, a)
    ensures ExactRun(ApplyTxns(s, group, a).value, group, known + TxnHashes(a), b)
    decreases |b|
  {
    if b == [] {
      assert a + b == a;
    } else {
      var n := |b| - 1;
      var before := b[..n];
      assert (a + b)[..|a + b| - 1] == a + before;
      ExactRunSplits(s, group, known, a, before);
      ApplyConcat(s, group, a, before);
      TxnHashesConcat(a, before);
      assert known + TxnHashes(a + before) == known + TxnHashes(a) + TxnHashes(before);
    }
  }

  /** A chain, cut at block `r`: the run up to there, and an exact run above it. */
  lemma {:induction false} CutChain(group: int, c: seq<Block>, r: nat, below: seq<Block>, above: seq<Block>)
    requires r < |c| && below == c[..r + 1] && above == c[r + 1..] && ExactChain(group, c)
    ensures RunOf(group, below).Some?
    ensures var fork := RunOf(group, below).value; var known := TxnHashes(Flatten(below));
      && fork.Keys <= known
      && ExactRun(fork, group, known, Flatten(above))
      && ApplyTxns(fork, group, Flatten(above)) == RunOf(group, c)
  {
    var a, b := Flatten(below), Flatten(above);
    assert c == below + above;
    FlattenConcat(below, above);
    ExactRunSplits(map[], group, {}, a, b);
    ApplyConcat(map[], group, a, b);
    RunKeys(map[], group, {}, a);
    assert {} + TxnHashes(a) == TxnHashes(a);
  }

  /** What is stale after a switch at block `r`: the leftover of our blocks that the replay of theirs does not clear away. */
  ghost function StaleAfter(group: int, c: seq<Block>, c': seq<Block>, r: nat, stale: UtxoMap): UtxoMap
    requires r < |c| && r < |c'|
  {
    match RunOf(group, c[..r + 1])
    case None => stale
    case Some(fork) => Weathered(Leftover(fork, group, Flatten(c[r + 1..]), stale), Flatten(c'[r + 1..]))
  }

  /** After a switch the set follows the new chain. */
  lemma {:induction false} SwitchTracks(
      group: int, c: seq<Block>, x: UtxoMap, c': seq<Block>, x': UtxoMap, r: nat, stale: UtxoMap)
    requires SwitchAt(group, c, x, c', x', r) && ExactChain(group, c) && ExactChain(group, c')
    requires Tracks(group, c, x, stale)
    ensures Tracks(group, c', x', StaleAfter(group, c, c', r, stale))
  {
    var below, ours, theirs := c[..r + 1], c[r + 1..], c'[r + 1..];
    CutChain(group, c, r, below, ours);
    CutChain(group, c', r, below, theirs);
    SwitchReachesPeerSet(RunOf(group, below).value, group, TxnHashes(Flatten(below)), x, RunOf(group, c).value, stale,
                         RunOf(group, c').value, below, ours, theirs);
  }

  /** A genesis holds one coinbase transaction with outputs. */
  ghost predicate IsGenesis(b: Block) {
    |b.txns| == 1 && IsCoinbase(b.txns[0]) && b.txns[0].vout != []
  }

  lemma {:induction false} OneBlock(b: Block)
    ensures Flatten([b]) == b.txns
    ensures VisitOrder([b]) == b.txns
  {
    assert [b][..0] == [];
    assert Flatten([b][..0]) == [] && VisitOrder([b][..0]) == [];
    assert b.txns + [] == b.txns && [] + b.txns == b.txns;
  }

  lemma {:induction false} ScanOne(t: Txn)
    requires t.vout != []
    ensures Scan([t]) == map[TxnHash(t) := t.vout]
  {
    assert [t][..0] == [];
    assert Scan([t][..0]) == map[] && SpentIn(TxnHash(t), [t][..0]) == {};
    KeptAll(t.vout, 0);
    assert [] + t.vout == t.vout;
  }

  lemma {:induction false} ApplyOne(group: int, t: Txn)
    requires IsCoinbase(t)
    ensures ApplyTxns(map[], group, [t]) == Some(map[TxnHash(t) := t.vout])
  {
    assert [t][..0] == [];
    assert ApplyTxns(map[], group, [t][..0]) == Some(map[]);
  }

  /** The scan of a genesis is its run. */
  lemma {:induction false} GenesisTracks(group: int, b: Block)
    requires IsGenesis(b)
    ensures Tracks(group, [b], Scan(VisitOrder([b])), map[])
  {
    var t := b.txns[0];
    OneBlock(b);
    assert b.txns == [t];
    ScanOne(t);
    ApplyOne(group, t);
    assert Matches(Scan([t]), Scan([t]), map[]);
  }

  lemma {:induction false} InstallTracks(group: int, c: seq<Block>, c': seq<Block>, x': UtxoMap)
    requires Installs(c, c', x') && IsGenesis(c'[0])
    ensures Tracks(group, c', x', map[])
  {
    assert c' == [c'[0]];
    GenesisTracks(group, c'[0]);
  }

  /** The set follows the chain, with something stale besides. */
  ghost predicate OnTrack(group: int, c: seq<Block>, x: UtxoMap) {
    exists stale :: Tracks(group, c, x, stale)
  }

  /** Every step keeps the set on its chain. */
  lemma {:induction false} StepStaysOnTrack(group: int, c: seq<Block>, x: UtxoMap, c': seq<Block>, x': UtxoMap)
    requires SetStep(group, c, x, c', x') && ExactChain(group, c) && ExactChain(group, c')
    requires c' != [] ==> IsGenesis(c'[0])
    requires OnTrack(group, c, x)
    ensures OnTrack(group, c', x')
  {
    var stale :| Tracks(group, c, x, stale);
    if r: nat :| SwitchAt(group, c, x, c', x', r) {
      SwitchTracks(group, c, x, c', x', r, stale);
    } else if Installs(c, c', x') {
      InstallTracks(group, c, c', x');
    } else {
      assert Tracks(group, c', x', stale);
    }
  }

  // ----- The index -----

  lemma {:induction false} RunAboveGenesis(group: int, g: Block, blocks: seq<Block>)
    requires IsGenesis(g) && RunOf(group, [g] + blocks).Some?
    ensures ApplyTxns(Scan(VisitOrder([g])), group, Flatten(blocks)) == RunOf(group, [g] + blocks)
  {
    var t := g.txns[0];
    OneBlock(g);
    assert g.txns == [t];
    ScanOne(t);
    ApplyOne(group, t);
    FlattenConcat([g], blocks);
    ApplyConcat(map[], group, g.txns, Flatten(blocks));
  }

  /**
   Where every block keeps the index and none falls back, the run of a chain is its
   index: a set on track is the rescan of its chain, with something stale besides.
   */
  lemma {:induction false} RunIsIndex(group: int, g: Block, blocks: seq<Block>)
    requires IsGenesis(g) && RunOf(group, [g] + blocks).Some?
    requires AllDistinguished([g], blocks) && AllKeepIndex(group, [g], blocks)
    ensures RunOf(group, [g] + blocks).value == Scan(VisitOrder([g] + blocks))
  {
    RunAboveGenesis(group, g, blocks);
    ReplayedIsApply(Scan(VisitOrder([g])), group, [g], blocks);
    StaysIndex(group, [g], blocks, |blocks|);
    assert blocks[..|blocks|] == blocks;
  }
}
