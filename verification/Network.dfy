/**
 The network of one group as a state machine: every node has a chain, and a step
 changes one node by accepting a block, adopting a peer's chain, fetching the
 genesis, or creating it.
 */
module Network {
  import opened Types
  import opened DatabaseKey
  import opened Chain

  /** The chain of every node. */
  type State = seq<seq<Block>>

  /**
   The blocks that ever circulate: hashes tell them apart, their heights stay below
   the database's limit, and no hash-linked chain of them repeats a transaction.
   */
  ghost predicate GoodUniverse(universe: iset<Block>) {
    && (forall a, b :: a in universe && b in universe && BlockHash(a) == BlockHash(b) ==> a == b)
    && (forall b :: b in universe ==> b.header.height < HEIGHT_LIMIT)
    && (forall c: seq<Block> {:trigger DistinctTxns(c)} :: Linked(c) && From(universe, c) ==> DistinctTxns(c))
  }

  ghost predicate From(universe: iset<Block>, c: seq<Block>) {
    forall i :: 0 <= i < |c| ==> c[i] in universe
  }

  /** A chain a node may have: linked, of circulating blocks, on the shared genesis. */
  ghost predicate GoodChain(universe: iset<Block>, genesis: Block, c: seq<Block>) {
    && Linked(c)
    && From(universe, c)
    && (c != [] ==> c[0] == genesis)
  }

  /** Good chains are exactly what the store can hold. */
  lemma {:induction false} GoodIsWellFormed(universe: iset<Block>, genesis: Block, c: seq<Block>)
    requires GoodUniverse(universe) && GoodChain(universe, genesis, c)
    ensures WellFormed(c)
  {
    if c != [] {
      assert LinkedAt(c, |c| - 1);
    }
    assert DistinctTxns(c);
  }

  lemma {:induction false} GoodAreCollisionFree(universe: iset<Block>, a: seq<Block>, b: seq<Block>)
    requires GoodUniverse(universe) && From(universe, a) && From(universe, b)
    ensures CollisionFree(a, b)
  {
  }

  // ----- The steps of one node -----

  /** The block continues the chain. */
  ghost predicate Continues(c: seq<Block>, b: Block) {
    c != [] && b.header.height == |c| && b.header.prevHash == BlockHash(c[|c| - 1])
  }

  ghost predicate Accepts(universe: iset<Block>, c: seq<Block>, c': seq<Block>) {
    exists b :: b in universe && Continues(c, b) && c' == c + [b]
  }

  ghost predicate AdoptsFrom(c: seq<Block>, c': seq<Block>, peer: seq<Block>) {
    c != [] && |c| < |c'| && c' <= peer
  }

  ghost predicate JoinsFrom(c: seq<Block>, c': seq<Block>, peer: seq<Block>) {
    c == [] && peer != [] && c' == [peer[0]]
  }

  ghost predicate Creates(genesis: Block, c: seq<Block>, c': seq<Block>) {
    c == [] && c' == [genesis]
  }

  ghost predicate NodeStep(universe: iset<Block>, genesis: Block, c: seq<Block>, c': seq<Block>, peer: seq<Block>) {
    || c' == c
    || Accepts(universe, c, c')
    || AdoptsFrom(c, c', peer)
    || JoinsFrom(c, c', peer)
    || Creates(genesis, c, c')
  }

  lemma {:induction false} NodeStepKeeps(
      universe: iset<Block>, genesis: Block, c: seq<Block>, c': seq<Block>, peer: seq<Block>)
    requires GoodChain(universe, genesis, c) && GoodChain(universe, genesis, peer)
    requires genesis in universe && genesis.header.height == 0 && genesis.header.prevHash == NO_HASH
    requires NodeStep(universe, genesis, c, c', peer)
    ensures GoodChain(universe, genesis, c') && |c| <= |c'|
  {
    forall i | 0 <= i < |c'| ensures LinkedAt(c', i) && c'[i] in universe {
      if c' == c || (Accepts(universe, c, c') && i < |c|) {
        assert LinkedAt(c, i);
      } else if Accepts(universe, c, c') {
      } else if peer != [] && (AdoptsFrom(c, c', peer) || JoinsFrom(c, c', peer)) {
        assert LinkedAt(peer, i);
      } else {
        assert c' == [genesis];
      }
    }
  }

  // ----- Runs of the network -----

  ghost predicate GoodState(universe: iset<Block>, genesis: Block, s: State) {
    forall i :: 0 <= i < |s| ==> GoodChain(universe, genesis, s[i])
  }

  /** One node takes one step, with some node's chain as its peer. */
  ghost predicate Step(universe: iset<Block>, genesis: Block, s: State, s': State) {
    exists i: nat, j: nat :: StepAt(universe, genesis, s, s', i, j)
  }

  ghost predicate StepAt(universe: iset<Block>, genesis: Block, s: State, s': State, i: nat, j: nat) {
    && i < |s| && j < |s| && |s'| == |s|
    && s' == s[i := s'[i]] && NodeStep(universe, genesis, s[i], s'[i], s[j])
  }

  ghost predicate Steps(universe: iset<Block>, genesis: Block, run: seq<State>) {
    run != [] && forall k {:trigger StepNumber(universe, genesis, run, k)} :: 0 < k < |run| ==> StepNumber(universe, genesis, run, k)
  }

  ghost predicate StepNumber(universe: iset<Block>, genesis: Block, run: seq<State>, k: nat)
    requires 0 < k < |run|
  {
    Step(universe, genesis, run[k - 1], run[k])
  }

  /** A run from the state in which no node has a block. */
  ghost predicate Run(universe: iset<Block>, genesis: Block, run: seq<State>) {
    Steps(universe, genesis, run) && forall i :: 0 <= i < |run[0]| ==> run[0][i] == []
  }

  /** A universe with a genesis block in it. */
  ghost predicate Setting(universe: iset<Block>, genesis: Block) {
    && GoodUniverse(universe)
    && genesis in universe && genesis.header.height == 0 && genesis.header.prevHash == NO_HASH
  }

  lemma {:induction false} StepKeeps(universe: iset<Block>, genesis: Block, s: State, s': State)
    requires Setting(universe, genesis) && GoodState(universe, genesis, s) && Step(universe, genesis, s, s')
    ensures GoodState(universe, genesis, s')
    ensures |s'| == |s| && forall i :: 0 <= i < |s| ==> |s[i]| <= |s'[i]|
  {
    var i: nat, j: nat :| StepAt(universe, genesis, s, s', i, j);
    NodeStepKeeps(universe, genesis, s[i], s'[i], s[j]);
  }

  /** In every reachable state every chain is linked, of contiguous heights, on the shared genesis. */
  lemma {:induction false} ReachableStatesAreGood(universe: iset<Block>, genesis: Block, run: seq<State>, k: nat)
    requires Setting(universe, genesis) && Run(universe, genesis, run) && k < |run|
    ensures GoodState(universe, genesis, run[k])
    decreases k
  {
    if k > 0 {
      ReachableStatesAreGood(universe, genesis, run, k - 1);
      assert StepNumber(universe, genesis, run, k);
      StepKeeps(universe, genesis, run[k - 1], run[k]);
    }
  }

  /** No node is ever lower than it was. */
  lemma {:induction false} HeightsNeverFall(
      universe: iset<Block>, genesis: Block, run: seq<State>, j: nat, k: nat, i: nat)
    requires Setting(universe, genesis) && Run(universe, genesis, run) && j <= k < |run| && i < |run[j]|
    ensures i < |run[k]| && |run[j][i]| <= |run[k][i]|
    decreases k
  {
    if j < k {
      HeightsNeverFall(universe, genesis, run, j, k - 1, i);
      ReachableStatesAreGood(universe, genesis, run, k - 1);
      assert StepNumber(universe, genesis, run, k);
      StepKeeps(universe, genesis, run[k - 1], run[k]);
    }
  }

  /** In every reachable state, nodes that agree at one height agree at every lower one. */
  lemma {:induction false} NodesShareHistory(
      universe: iset<Block>, genesis: Block, run: seq<State>, k: nat, a: nat, b: nat, h: nat, lower: nat)
    requires Setting(universe, genesis) && Run(universe, genesis, run) && k < |run|
    requires a < |run[k]| && b < |run[k]| && lower <= h < |run[k][a]| && h < |run[k][b]|
    requires BlockHash(run[k][a][h]) == BlockHash(run[k][b][h])
    ensures run[k][a][lower] == run[k][b][lower]
  {
    ReachableStatesAreGood(universe, genesis, run, k);
    assert GoodChain(universe, genesis, run[k][a]) && GoodChain(universe, genesis, run[k][b]);
    GoodAreCollisionFree(universe, run[k][a], run[k][b]);
    AgreeBelow(run[k][a], run[k][b], h, lower);
  }
}
