/**
 The UTXO set after switching to a peer's chain: rolling our blocks back and
 replaying the peer's gives, up to the order inside entries, the peer's set at that
 height plus what the rollback of the abandoned blocks leaves behind.
 */
module ForkResolution {
  import opened Types
  import opened Ledger
  import opened Rollback
  import opened Conservation
  import opened MemVerify
  import Sync

  // ----- Removal by key acts on the two parts of an entry separately -----

  lemma {:induction false} RemainingSplits(a: seq<TxnOutput>, b: seq<TxnOutput>, c: seq<TxnOutput>, key: PublicKey)
    requires multiset(a) == multiset(b) + multiset(c)
    ensures multiset(Remaining(a, key)) == multiset(Remaining(b, key)) + multiset(Remaining(c, key))
  {
    forall o ensures multiset(Remaining(a, key))[o] == (multiset(Remaining(b, key)) + multiset(Remaining(c, key)))[o] {
      RemainingCount(a, key, o);
      RemainingCount(b, key, o);
      RemainingCount(c, key, o);
    }
  }

  /** An entry as the outputs that belong there and the stale ones. */
  ghost predicate Split(e: Option<seq<TxnOutput>>, e1: Option<seq<TxnOutput>>, e2: Option<seq<TxnOutput>>) {
    && (e.Some? <==> e1.Some? || e2.Some?)
    && (e.Some? ==> multiset(e.value) == multiset(OutputsOf(e1)) + multiset(OutputsOf(e2)))
  }

  function OutputsOf(e: Option<seq<TxnOutput>>): seq<TxnOutput> {
    if e.Some? then e.value else []
  }

  function SpendOf(e: Option<seq<TxnOutput>>, key: PublicKey): Option<seq<TxnOutput>> {
    if e.Some? then NonEmpty(Remaining(e.value, key)) else None
  }

  lemma {:induction false} SpendSplits(e: Option<seq<TxnOutput>>, e1: Option<seq<TxnOutput>>, e2: Option<seq<TxnOutput>>, key: PublicKey)
    requires Split(e, e1, e2)
    ensures Split(SpendOf(e, key), SpendOf(e1, key), SpendOf(e2, key))
  {
    if e.Some? {
      var a, b, c := e.value, OutputsOf(e1), OutputsOf(e2);
      RemainingSplits(a, b, c, key);
      var ra, rb, rc := Remaining(a, key), Remaining(b, key), Remaining(c, key);
      assert |ra| == |multiset(ra)| && |rb| == |multiset(rb)| && |rc| == |multiset(rc)|;
      assert |multiset(rb) + multiset(rc)| == |rb| + |rc|;
    }
  }

  lemma {:induction false} MatchesIsSplit(x: UtxoMap, s: UtxoMap, stale: UtxoMap)
    ensures Matches(x, s, stale) <==> forall h :: Split(Get(x, h), Get(s, h), Get(stale, h))
  {
    forall h ensures BagAt(x, h) == Plus(BagAt(s, h), stale, h) <==> Split(Get(x, h), Get(s, h), Get(stale, h)) {
      assert forall b: Bag :: b + multiset{} == b;
    }
    if Matches(x, s, stale) {
      forall h ensures Split(Get(x, h), Get(s, h), Get(stale, h)) {
        assert BagAt(x, h) == Plus(BagAt(s, h), stale, h);
      }
    }
  }

  lemma {:induction false} SpendAt(s: UtxoMap, group: int, vin: TxnInput, h: Hash)
    ensures SpendInput(s, group, vin).Some? ==>
      Get(SpendInput(s, group, vin).value, h) == if h == vin.voutHash then SpendOf(Get(s, h), vin.pubKey) else Get(s, h)
    ensures Get(ReplayInput(s, vin), h) == if h == vin.voutHash then SpendOf(Get(s, h), vin.pubKey) else Get(s, h)
  {
  }

  /** An input on sets that match leaves sets that match; it takes stale outputs of its key away. */
  lemma {:induction false} SpendMatches(x: UtxoMap, s: UtxoMap, stale: UtxoMap, group: int, vin: TxnInput)
    requires Matches(x, s, stale) && SpendInput(s, group, vin).Some?
    ensures SpendInput(x, group, vin).Some?
    ensures Matches(SpendInput(x, group, vin).value, SpendInput(s, group, vin).value, ReplayInput(stale, vin))
  {
    MatchesIsSplit(x, s, stale);
    assert Split(Get(x, vin.voutHash), Get(s, vin.voutHash), Get(stale, vin.voutHash));
    var x', s', stale' := SpendInput(x, group, vin).value, SpendInput(s, group, vin).value, ReplayInput(stale, vin);
    forall g ensures Split(Get(x', g), Get(s', g), Get(stale', g)) {
      assert Split(Get(x, g), Get(s, g), Get(stale, g));
      SpendAt(x, group, vin, g);
      SpendAt(s, group, vin, g);
      SpendAt(stale, group, vin, g);
      SpendSplits(Get(x, g), Get(s, g), Get(stale, g), vin.pubKey);
    }
    MatchesIsSplit(x', s', stale');
  }

  lemma {:induction false} SpendsMatch(x: UtxoMap, s: UtxoMap, stale: UtxoMap, group: int, vins: seq<TxnInput>)
    requires Matches(x, s, stale) && SpendInputs(s, group, vins).Some?
    ensures SpendInputs(x, group, vins).Some?
    ensures Matches(SpendInputs(x, group, vins).value, SpendInputs(s, group, vins).value, ReplayInputs(stale, vins))
    decreases |vins|
  {
    if vins != [] {
      var before := vins[..|vins| - 1];
      SpendsMatch(x, s, stale, group, before);
      SpendMatches(SpendInputs(x, group, before).value, SpendInputs(s, group, before).value, ReplayInputs(stale, before),
                   group, vins[|vins| - 1]);
    }
  }

  /** What is left of stale outputs when transactions are applied: named and filed ones go. */
  function Weathered(stale: UtxoMap, ts: seq<Txn>): UtxoMap
    decreases |ts|
  {
    if ts == [] then stale
    else
      var t := ts[|ts| - 1];
      ReplayInputs(Weathered(stale, ts[..|ts| - 1]), Spends(t)) - {TxnHash(t)}
  }

  lemma {:induction false} FileMatches(x: UtxoMap, s: UtxoMap, stale: UtxoMap, h: Hash, outs: seq<TxnOutput>)
    requires Matches(x, s, stale)
    ensures Matches(x[h := outs], s[h := outs], stale - {h})
  {
    var x', s' := x[h := outs], s[h := outs];
    forall g ensures BagAt(x', g) == Plus(BagAt(s', g), stale - {h}, g) {
      assert BagAt(x, g) == Plus(BagAt(s, g), stale, g);
    }
  }

  /**
   Applying transactions to sets that match leaves sets that match: neither the order
   inside entries nor stale outputs make it fail or change what belongs there.
   */
  lemma {:induction false} RunsMatch(x: UtxoMap, s: UtxoMap, stale: UtxoMap, group: int, ts: seq<Txn>, s': UtxoMap)
    requires Matches(x, s, stale) && ApplyTxns(s, group, ts) == Some(s')
    ensures ApplyTxns(x, group, ts).Some?
    ensures Matches(ApplyTxns(x, group, ts).value, s', Weathered(stale, ts))
    decreases |ts|
  {
    if ts != [] {
      var before, t := ts[..|ts| - 1], ts[|ts| - 1];
      var s1 := ApplyTxns(s, group, before).value;
      RunsMatch(x, s, stale, group, before, s1);
      var x1, stale1 := ApplyTxns(x, group, before).value, Weathered(stale, before);
      SpendsMatch(x1, s1, stale1, group, Spends(t));
      FileMatches(SpendInputs(x1, group, Spends(t)).value, SpendInputs(s1, group, Spends(t)).value,
                  ReplayInputs(stale1, Spends(t)), TxnHash(t), t.vout);
    }
  }

  // ----- Replaying blocks -----

  lemma {:induction false} ApplyConcat(s: UtxoMap, group: int, a: seq<Txn>, b: seq<Txn>)
    ensures ApplyTxns(s, group, a + b) ==
      match ApplyTxns(s, group, a)
      case None => None
      case Some(s') => ApplyTxns(s', group, b)
    decreases |b|
  {
    if b == [] {
      assert a + b == a;
    } else {
      assert (a + b)[..|a + b| - 1] == a + b[..|b| - 1];
      ApplyConcat(s, group, a, b[..|b| - 1]);
    }
  }

  /** Where no update falls back, replaying blocks is applying their transactions. */
  lemma {:induction false} ReplayedIsApply(s: UtxoMap, group: int, base: seq<Block>, blocks: seq<Block>)
    requires ApplyTxns(s, group, Flatten(blocks)).Some?
    ensures Sync.Replayed(s, group, base, blocks) == ApplyTxns(s, group, Flatten(blocks)).value
    decreases |blocks|
  {
    if blocks != [] {
      var before, b := blocks[..|blocks| - 1], blocks[|blocks| - 1];
      ApplyConcat(s, group, Flatten(before), b.txns);
      ReplayedIsApply(s, group, base, before);
    }
  }

  /**
   Our set is, up to something stale in it, an exact run of our blocks above the
   fork, and the peer's set is what its blocks there make of the fork's. After the
   switch our set is the peer's, up to what the rollback leaves behind and the replay
   does not clear away. The conclusion has the form of the hypothesis, so that it
   covers any number of switches.
   */
  lemma {:induction false} SwitchReachesPeerSet(
      fork: UtxoMap, group: int, known: set<Hash>, x: UtxoMap, s: UtxoMap, stale: UtxoMap, peerSet: UtxoMap,
      base: seq<Block>, ours: seq<Block>, theirs: seq<Block>)
    requires fork.Keys <= known
    requires ExactRun(fork, group, known, Flatten(ours)) && ApplyTxns(fork, group, Flatten(ours)) == Some(s)
    requires Matches(x, s, stale) && ApplyTxns(fork, group, Flatten(theirs)) == Some(peerSet)
    ensures Matches(Sync.Switched(x, group, base, ours, theirs), peerSet,
                    Weathered(Leftover(fork, group, Flatten(ours), stale), Flatten(theirs)))
  {
    var rolled := RollbackBlocks(x, ours);
    RollbackUndoesUpdates(fork, group, known, ours, x, stale);
    RunsMatch(rolled, fork, Leftover(fork, group, Flatten(ours), stale), group, Flatten(theirs), peerSet);
    ReplayedIsApply(rolled, group, base, theirs);
  }

  /** Over any exact sequence of `Update` calls the total grows by exactly what coinbases mint and other groups send. */
  lemma {:induction false} UpdatesConserveValue(
      s: UtxoMap, group: int, known: set<Hash>, base: seq<Block>, blocks: seq<Block>, ts: seq<Txn>)
    requires ts == Flatten(blocks) && s.Keys <= known && ExactRun(s, group, known, ts)
    requires forall i :: 0 <= i < |ts| && !IsCoinbase(ts[i]) ==> Balanced(ts[i])
    ensures Total(Sync.Replayed(s, group, base, blocks)) == Total(s) + Minted(ts) + Imported(s, group, ts)
  {
    ReplayedIsApply(s, group, base, blocks);
    ValueIsConserved(s, group, known, ts);
  }
}
