/**
 The network run on real nodes: any sequence of deliveries, start-ups and creations
 keeps every store valid, its cached height that of the stored last block, and the
 chains in a reachable state of the network.
 */
module Cluster {
  import opened Types
  import opened Chain
  import opened UtxoSets
  import opened Sync
  import opened Network
  import opened Ledger
  import opened Tracking
  import opened ProofOfWork
  import opened Nodes

  /**
   What happens at node `at`: a block arrives, mined here or gossiped; the node starts
   up; or someone tries to create the chain. `from` is the node that is asked for
   blocks and `giver` the one that is asked for the genesis. The replies to `GetHash`
   may come from any state of the peer; `answers` is whether `GetBlocks` gets through.
   */
  datatype Event =
    | Deliver(at: nat, from: nat, giver: nat, b: Block, height: int, hashReply: (nat, int) -> Option<Hash>, answers: bool)
    | Start(at: nat, from: nat, giver: nat, height: int, hashReply: (nat, int) -> Option<Hash>, answers: bool)
    | Create(at: nat, draft: Block, start: int)

  /** The event names nodes and circulating blocks, and what would be created is the shared genesis. */
  ghost predicate GoodEvent(universe: iset<Block>, genesis: Block, n: nat, e: Event) {
    && e.at < n
    && (e.Deliver? ==> e.from < n && e.giver < n && e.b in universe)
    && (e.Start? ==> e.from < n && e.giver < n)
    && (e.Create? ==>
         && e.draft.header.height == 0 && e.draft.header.prevHash == NO_HASH && e.draft.header.target == 1.0
         && e.start < MAX_INT64 && e.draft.(nonce := e.start) == genesis)
  }

  // ----- Nodes -----

  function Footprint(nodes: seq<UTXOSet>): set<object> {
    (set i | 0 <= i < |nodes| :: nodes[i] as object)
    + (set i | 0 <= i < |nodes| :: nodes[i].bc as object)
    + (set i | 0 <= i < |nodes| :: nodes[i].bc.pool as object)
  }

  ghost predicate Separate(a: UTXOSet, b: UTXOSet) {
    a != b && a.bc != b.bc && a.bc.pool != b.bc.pool
  }

  /** No two nodes share anything. */
  ghost predicate Apart(nodes: seq<UTXOSet>) {
    forall i, j {:trigger Separate(nodes[i], nodes[j])} ::
      0 <= i < |nodes| && 0 <= j < |nodes| && i != j ==> Separate(nodes[i], nodes[j])
  }

  ghost predicate AllValid(nodes: seq<UTXOSet>)
    reads Footprint(nodes)
  {
    Apart(nodes) && forall i {:trigger IsUp(nodes[i])} :: 0 <= i < |nodes| ==> IsUp(nodes[i])
  }

  ghost predicate IsUp(node: UTXOSet)
    reads node.bc, node.bc.pool
  {
    node.bc.Valid()
  }

  ghost function Chains(nodes: seq<UTXOSet>): (s: State)
    reads Footprint(nodes)
    ensures |s| == |nodes| && forall i :: 0 <= i < |nodes| ==> s[i] == nodes[i].bc.chain
  {
    seq(|nodes|, i requires 0 <= i < |nodes| reads Footprint(nodes) => nodes[i].bc.chain)
  }

  // ----- Sets on track -----

  /** Every linked chain of circulating blocks is exact for the group, on a genesis of one coinbase. */
  ghost predicate ExactSetting(universe: iset<Block>, genesis: Block, group: int) {
    && IsGenesis(genesis)
    && forall c: seq<Block> {:trigger ExactChain(group, c)} :: Linked(c) && From(universe, c) ==> ExactChain(group, c)
  }

  ghost predicate ExactFor(universe: iset<Block>, genesis: Block, nodes: seq<UTXOSet>) {
    forall i {:trigger nodes[i]} :: 0 <= i < |nodes| ==> ExactSetting(universe, genesis, nodes[i].group)
  }

  ghost function Sets(nodes: seq<UTXOSet>): (x: seq<UtxoMap>)
    reads Footprint(nodes)
    ensures |x| == |nodes| && forall i :: 0 <= i < |nodes| ==> x[i] == nodes[i].entries
  {
    seq(|nodes|, i requires 0 <= i < |nodes| reads Footprint(nodes) => nodes[i].entries)
  }

  /** The set of every node follows its chain. */
  ghost predicate AllOnTrack(nodes: seq<UTXOSet>, s: State, x: seq<UtxoMap>) {
    && |nodes| == |s| == |x|
    && forall i {:trigger s[i]} :: 0 <= i < |nodes| ==> OnTrack(nodes[i].group, s[i], x[i])
  }

  lemma {:induction false} SetStepStaysOnTrack(
      universe: iset<Block>, genesis: Block, group: int, c: seq<Block>, x: UtxoMap, c': seq<Block>, x': UtxoMap)
    requires ExactSetting(universe, genesis, group) && OnTrack(group, c, x) && SetStep(group, c, x, c', x')
    requires GoodChain(universe, genesis, c) && GoodChain(universe, genesis, c')
    ensures OnTrack(group, c', x')
  {
    assert ExactChain(group, c) && ExactChain(group, c');
    StepStaysOnTrack(group, c, x, c', x');
  }

  /** Two steps of a node, seen on its set. */
  lemma {:induction false} SetStepsStayOnTrack(
      universe: iset<Block>, genesis: Block, group: int, c: seq<Block>, x: UtxoMap, mid: seq<Block>, midSet: UtxoMap,
      c': seq<Block>, x': UtxoMap, offer: seq<Block>, peer: seq<Block>)
    requires Setting(universe, genesis) && GoodChain(universe, genesis, c)
    requires GoodChain(universe, genesis, offer) && GoodChain(universe, genesis, peer)
    requires NodeStep(universe, genesis, c, mid, offer) && NodeStep(universe, genesis, mid, c', peer)
    requires SetStep(group, c, x, mid, midSet) && SetStep(group, mid, midSet, c', x')
    ensures ExactSetting(universe, genesis, group) && OnTrack(group, c, x) ==> OnTrack(group, c', x')
  {
    NodeStepKeeps(universe, genesis, c, mid, offer);
    NodeStepKeeps(universe, genesis, mid, c', peer);
    if ExactSetting(universe, genesis, group) && OnTrack(group, c, x) {
      SetStepStaysOnTrack(universe, genesis, group, c, x, mid, midSet);
      SetStepStaysOnTrack(universe, genesis, group, mid, midSet, c', x');
    }
  }

  // ----- One event -----

  /** `GetBlocks` answered from a chain, or not at all. */
  function Answered(peer: seq<Block>, answers: bool): (reply: (int, int, Hash) -> Option<seq<Block>>)
    ensures ServedBy(peer, reply)
  {
    (start: int, end: int, hash: Hash) => if answers then ServeBlocks(peer, start, end, hash) else None
  }

  /** The node works through its event, with the chains of the nodes it asks. */
  method Work(utxo: UTXOSet, e: Event, offer: seq<Block>, peer: seq<Block>, ghost universe: iset<Block>, ghost genesis: Block)
      returns (ghost mid: seq<Block>, ghost midSet: UtxoMap)
    requires utxo.bc.Valid() && Setting(universe, genesis) && exists n: nat :: GoodEvent(universe, genesis, n, e)
    requires GoodChain(universe, genesis, utxo.bc.chain)
    requires GoodChain(universe, genesis, offer) && GoodChain(universe, genesis, peer)
    modifies utxo.bc, utxo.bc.pool, utxo`entries
    ensures utxo.bc.Valid()
    ensures NodeStep(universe, genesis, old(utxo.bc.chain), mid, offer)
    ensures NodeStep(universe, genesis, mid, utxo.bc.chain, peer)
    ensures mid == old(utxo.bc.chain) || old(utxo.bc.chain) == []
    ensures SetStep(utxo.group, old(utxo.bc.chain), old(utxo.entries), mid, midSet)
    ensures SetStep(utxo.group, mid, midSet, utxo.bc.chain, utxo.entries)
  {
    var bc := utxo.bc;
    mid, midSet := bc.chain, utxo.entries;
    if e.Create? {
      var created := CreateBlockchain(bc, utxo, e.draft, e.start);
      return;
    }
    var lastest := bc.GetLastest();
    if lastest.None? && offer == [] {
      return; // nobody has a genesis to give yet: the node goes on asking
    }
    var offered := if offer == [] then lastest.value else offer[0];
    var reply := Answered(peer, e.answers);
    if e.Start? {
      if bc.chain == [] {
        mid, midSet := [genesis], Scan(VisitOrder([genesis]));
      }
      var o := StartUp(bc, utxo, offered, e.height, e.hashReply, reply, offer, peer, universe, genesis);
    } else {
      var o;
      o, mid, midSet := GossipBlock(bc, utxo, e.b, offered, e.height, e.hashReply, reply, offer, peer, universe, genesis);
    }
  }

  /** An event at a node is two steps of its chain, and keeps its set on track. */
  method HandleAt(utxo: UTXOSet, e: Event, offer: seq<Block>, peer: seq<Block>,
                  ghost universe: iset<Block>, ghost genesis: Block) returns (ghost mid: seq<Block>)
    requires utxo.bc.Valid() && Setting(universe, genesis) && exists n: nat :: GoodEvent(universe, genesis, n, e)
    requires GoodChain(universe, genesis, utxo.bc.chain)
    requires GoodChain(universe, genesis, offer) && GoodChain(universe, genesis, peer)
    modifies utxo.bc, utxo.bc.pool, utxo`entries
    ensures utxo.bc.Valid()
    ensures NodeStep(universe, genesis, old(utxo.bc.chain), mid, offer)
    ensures NodeStep(universe, genesis, mid, utxo.bc.chain, peer)
    ensures mid == old(utxo.bc.chain) || old(utxo.bc.chain) == []
    ensures ExactSetting(universe, genesis, utxo.group) && OnTrack(utxo.group, old(utxo.bc.chain), old(utxo.entries)) ==>
      OnTrack(utxo.group, utxo.bc.chain, utxo.entries)
  {
    ghost var midSet;
    mid, midSet := Work(utxo, e, offer, peer, universe, genesis);
    SetStepsStayOnTrack(universe, genesis, utxo.group, old(utxo.bc.chain), old(utxo.entries), mid, midSet,
                        utxo.bc.chain, utxo.entries, offer, peer);
  }

  /** A step that asks a node without blocks asks nobody. */
  lemma {:induction false} NodeStepAlone(universe: iset<Block>, genesis: Block, c: seq<Block>, c': seq<Block>, peer: seq<Block>)
    requires NodeStep(universe, genesis, c, c', [])
    ensures NodeStep(universe, genesis, c, c', peer)
  {
  }

  /** Two steps of one node are two steps of the network. */
  lemma {:induction false} NodeStepsAreSteps(universe: iset<Block>, genesis: Block, s: State, mid: State, s': State,
                                             at: nat, from: nat, giver: nat)
    requires at < |s| == |s'| && from < |s| && giver < |s|
    requires |mid| == |s| && mid == s[at := mid[at]] && s' == s[at := s'[at]]
    requires NodeStep(universe, genesis, s[at], mid[at], s[giver])
    requires NodeStep(universe, genesis, mid[at], s'[at], s[from])
    requires mid[at] == s[at] || s[at] == []
    ensures Step(universe, genesis, s, mid) && Step(universe, genesis, mid, s')
  {
    if from == at && mid[at] != s[at] {
      NodeStepAlone(universe, genesis, mid[at], s'[at], mid[from]);
    }
    assert StepAt(universe, genesis, s, mid, at, giver);
    assert StepAt(universe, genesis, mid, s', at, from);
  }

  lemma {:induction false} ApartFrom(nodes: seq<UTXOSet>, at: nat)
    requires at < |nodes| && Apart(nodes)
    ensures forall i {:trigger nodes[i]} :: 0 <= i < |nodes| && i != at ==>
      nodes[i] != nodes[at] && nodes[i].bc != nodes[at].bc && nodes[i].bc.pool != nodes[at].bc.pool
  {
    forall i {:trigger nodes[i]} | 0 <= i < |nodes| && i != at
      ensures nodes[i] != nodes[at] && nodes[i].bc != nodes[at].bc && nodes[i].bc.pool != nodes[at].bc.pool
    {
      assert Separate(nodes[i], nodes[at]);
    }
  }

  /** The chain of the node takes two steps, and the others are as before. */
  method HandleAmong(nodes: seq<UTXOSet>, e: Event, offer: seq<Block>, peer: seq<Block>, ghost s: State,
                     ghost x: seq<UtxoMap>, ghost universe: iset<Block>, ghost genesis: Block)
      returns (ghost mid: seq<Block>, ghost after: seq<Block>, ghost afterSet: UtxoMap)
    requires AllValid(nodes) && Setting(universe, genesis) && GoodEvent(universe, genesis, |nodes|, e)
    requires s == Chains(nodes) && x == Sets(nodes) && GoodState(universe, genesis, s)
    requires GoodChain(universe, genesis, offer) && GoodChain(universe, genesis, peer)
    modifies Footprint(nodes)
    ensures AllValid(nodes)
    ensures Chains(nodes) == s[e.at := after] && Sets(nodes) == x[e.at := afterSet]
    ensures NodeStep(universe, genesis, s[e.at], mid, offer) && NodeStep(universe, genesis, mid, after, peer)
    ensures mid == s[e.at] || s[e.at] == []
    ensures ExactSetting(universe, genesis, nodes[e.at].group) && OnTrack(nodes[e.at].group, s[e.at], x[e.at]) ==>
      OnTrack(nodes[e.at].group, after, afterSet)
  {
    ApartFrom(nodes, e.at);
    assert GoodChain(universe, genesis, s[e.at]) && IsUp(nodes[e.at]);
    mid := HandleAt(nodes[e.at], e, offer, peer, universe, genesis);
    after, afterSet := nodes[e.at].bc.chain, nodes[e.at].entries;
    forall i {:trigger IsUp(nodes[i])} | 0 <= i < |nodes| ensures IsUp(nodes[i]) {
      if i != e.at {
        assert old(IsUp(nodes[i]));
      }
    }
  }

  /** The chains of the node that is asked for blocks and of the one that is asked for the genesis. */
  method Ask(nodes: seq<UTXOSet>, e: Event, ghost universe: iset<Block>, ghost genesis: Block)
      returns (from: nat, giver: nat, peer: seq<Block>, offer: seq<Block>)
    requires AllValid(nodes) && GoodState(universe, genesis, Chains(nodes)) && GoodEvent(universe, genesis, |nodes|, e)
    ensures from < |nodes| && giver < |nodes|
    ensures peer == Chains(nodes)[from] && offer == Chains(nodes)[giver]
    ensures GoodChain(universe, genesis, peer) && GoodChain(universe, genesis, offer)
  {
    from := if e.Create? then e.at else e.from;
    giver := if e.Create? then e.at else e.giver;
    assert IsUp(nodes[from]) && IsUp(nodes[giver]);
    peer := Snapshot(nodes[from].bc);
    offer := Snapshot(nodes[giver].bc);
    ghost var s := Chains(nodes);
    assert GoodChain(universe, genesis, s[from]) && GoodChain(universe, genesis, s[giver]);
  }

  /** What one node has done, seen on all of them. */
  lemma {:induction false} SeenOnAll(
      universe: iset<Block>, genesis: Block, nodes: seq<UTXOSet>, s: State, x: seq<UtxoMap>, at: nat, from: nat, giver: nat,
      mid: seq<Block>, after: seq<Block>, afterSet: UtxoMap)
    requires |nodes| == |s| == |x| && at < |s| && from < |s| && giver < |s|
    requires NodeStep(universe, genesis, s[at], mid, s[giver]) && NodeStep(universe, genesis, mid, after, s[from])
    requires mid == s[at] || s[at] == []
    requires ExactSetting(universe, genesis, nodes[at].group) && OnTrack(nodes[at].group, s[at], x[at]) ==>
      OnTrack(nodes[at].group, after, afterSet)
    ensures Step(universe, genesis, s, s[at := mid]) && Step(universe, genesis, s[at := mid], s[at := after])
    ensures ExactFor(universe, genesis, nodes) && AllOnTrack(nodes, s, x) ==>
      AllOnTrack(nodes, s[at := after], x[at := afterSet])
  {
    NodeStepsAreSteps(universe, genesis, s, s[at := mid], s[at := after], at, from, giver);
  }

  /** One event is two steps of the network, of which either may change nothing. */
  method Handle(nodes: seq<UTXOSet>, e: Event, ghost s: State, ghost x: seq<UtxoMap>,
                ghost universe: iset<Block>, ghost genesis: Block)
      returns (ghost mid: State, ghost s': State, ghost x': seq<UtxoMap>)
    requires AllValid(nodes) && Setting(universe, genesis) && GoodEvent(universe, genesis, |nodes|, e)
    requires s == Chains(nodes) && x == Sets(nodes) && GoodState(universe, genesis, s)
    modifies Footprint(nodes)
    ensures AllValid(nodes) && s' == Chains(nodes) && x' == Sets(nodes)
    ensures Step(universe, genesis, s, mid) && Step(universe, genesis, mid, s')
    ensures ExactFor(universe, genesis, nodes) && AllOnTrack(nodes, s, x) ==> AllOnTrack(nodes, s', x')
  {
    var from, giver, peer, offer := Ask(nodes, e, universe, genesis);
    ghost var m, after, afterSet := HandleAmong(nodes, e, offer, peer, s, x, universe, genesis);
    SeenOnAll(universe, genesis, nodes, s, x, e.at, from, giver, m, after, afterSet);
    mid, s', x' := s[e.at := m], s[e.at := after], x[e.at := afterSet];
  }

  // ----- Runs -----

  /** The cached height of every node, once loaded, is that of its stored last block and of its chain. */
  ghost predicate HeightsAgree(nodes: seq<UTXOSet>)
    reads Footprint(nodes)
  {
    forall i {:trigger nodes[i]} :: 0 <= i < |nodes| ==>
      && nodes[i].bc.StoredHeight() == |nodes[i].bc.chain| - 1
      && (nodes[i].bc.heightLoaded ==> nodes[i].bc.cacheHeight == nodes[i].bc.StoredHeight())
  }

  lemma {:induction false} ValidHeightsAgree(nodes: seq<UTXOSet>)
    requires AllValid(nodes)
    ensures HeightsAgree(nodes)
  {
    forall i {:trigger nodes[i]} | 0 <= i < |nodes|
      ensures nodes[i].bc.StoredHeight() == |nodes[i].bc.chain| - 1
      ensures nodes[i].bc.heightLoaded ==> nodes[i].bc.cacheHeight == nodes[i].bc.StoredHeight()
    {
      assert IsUp(nodes[i]);
      nodes[i].bc.CachedHeightIsStored();
    }
  }

  ghost predicate NoLower(s: State, s': State) {
    |s| == |s'| && forall i :: 0 <= i < |s| ==> |s[i]| <= |s'[i]|
  }

  lemma {:induction false} TwoMoreSteps(universe: iset<Block>, genesis: Block, run: seq<State>, mid: State, s': State)
    requires Steps(universe, genesis, run)
    requires Step(universe, genesis, run[|run| - 1], mid) && Step(universe, genesis, mid, s')
    ensures Steps(universe, genesis, run + [mid, s'])
  {
    var longer, n := run + [mid, s'], |run|;
    forall k {:trigger StepNumber(universe, genesis, longer, k)} | 0 < k < |longer|
      ensures StepNumber(universe, genesis, longer, k)
    {
      if k < n {
        assert StepNumber(universe, genesis, run, k);
      }
    }
  }

  /** What the events so far have done to the chains `s` and the sets `x`, which were `x0`. */
  ghost predicate Driven(universe: iset<Block>, genesis: Block, nodes: seq<UTXOSet>, run: seq<State>, x0: seq<UtxoMap>,
                         s: State, x: seq<UtxoMap>) {
    && Steps(universe, genesis, run) && run[|run| - 1] == s && NoLower(run[0], s) && GoodState(universe, genesis, s)
    && (ExactFor(universe, genesis, nodes) && AllOnTrack(nodes, run[0], x0) ==> AllOnTrack(nodes, s, x))
  }

  lemma {:induction false} DrivenNext(
      universe: iset<Block>, genesis: Block, nodes: seq<UTXOSet>, run: seq<State>, x0: seq<UtxoMap>,
      s: State, x: seq<UtxoMap>, mid: State, s': State, x': seq<UtxoMap>)
    requires Setting(universe, genesis) && Driven(universe, genesis, nodes, run, x0, s, x)
    requires Step(universe, genesis, s, mid) && Step(universe, genesis, mid, s')
    requires ExactFor(universe, genesis, nodes) && AllOnTrack(nodes, s, x) ==> AllOnTrack(nodes, s', x')
    ensures Driven(universe, genesis, nodes, run + [mid, s'], x0, s', x')
  {
    StepKeeps(universe, genesis, s, mid);
    StepKeeps(universe, genesis, mid, s');
    TwoMoreSteps(universe, genesis, run, mid, s');
  }

  /**
   Any sequence of events, from any good state: the chains pass through steps of the
   network only, every store stays valid with its cached height that of the stored
   last block, and no node gets lower. Where the blocks are exact, every set follows
   its chain.
   */
  method Drive(nodes: seq<UTXOSet>, events: seq<Event>, ghost universe: iset<Block>, ghost genesis: Block)
      returns (ghost run: seq<State>)
    requires AllValid(nodes) && Setting(universe, genesis) && GoodState(universe, genesis, Chains(nodes))
    requires forall k :: 0 <= k < |events| ==> GoodEvent(universe, genesis, |nodes|, events[k])
    modifies Footprint(nodes)
    ensures AllValid(nodes) && HeightsAgree(nodes)
    ensures run != [] && run[0] == old(Chains(nodes))
    ensures Driven(universe, genesis, nodes, run, old(Sets(nodes)), Chains(nodes), Sets(nodes))
  {
    ghost var s, x0 := Chains(nodes), Sets(nodes);
    ghost var x := x0;
    run := [s];
    for k := 0 to |events|
      invariant AllValid(nodes) && s == Chains(nodes) && x == Sets(nodes)
      invariant run != [] && run[0] == old(Chains(nodes))
      invariant Driven(universe, genesis, nodes, run, x0, s, x)
    {
      ghost var mid, s', x' := Handle(nodes, events[k], s, x, universe, genesis);
      DrivenNext(universe, genesis, nodes, run, x0, s, x, mid, s', x');
      run, s, x := run + [mid, s'], s', x';
    }
    ValidHeightsAgree(nodes);
  }
}
