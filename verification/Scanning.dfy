/** The loops of the backward scan `FindUTXO` over one block. */
module Scanning {
  import opened Types
  import opened Ledger

  /** Transaction hash to the output indices seen spent. */
  type SpentMap = map<Hash, set<int>>

  function SpentAt(stxos: SpentMap, h: Hash): set<int> {
    if h in stxos then stxos[h] else {}
  }

  ghost predicate Tracks(stxos: SpentMap, visited: seq<Txn>) {
    forall h :: SpentAt(stxos, h) == SpentIn(h, visited)
  }

  lemma {:induction false} KeptNext(outs: seq<TxnOutput>, start: int, i: nat, spent: set<int>)
    requires i < |outs|
    ensures Kept(outs[..i + 1], start, spent)
         == Kept(outs[..i], start, spent) + if start + i in spent then [] else [outs[i]]
    decreases i
  {
    if i > 0 {
      KeptNext(outs[1..], start + 1, i - 1, spent);
      assert outs[..i + 1][1..] == outs[1..][..i];
      assert outs[..i][1..] == outs[1..][..i - 1];
    }
  }

  function Collected(u: UtxoMap, h: Hash, kept: seq<TxnOutput>): UtxoMap {
    if kept == [] then u else u[h := OutputsAt(u, h) + kept]
  }

  lemma CollectedNext(u: UtxoMap, h: Hash, kept: seq<TxnOutput>, out: TxnOutput)
    ensures var c := Collected(u, h, kept);
      c[h := OutputsAt(c, h) + [out]] == Collected(u, h, kept + [out])
  {
    assert OutputsAt(u, h) + kept + [out] == OutputsAt(u, h) + (kept + [out]);
    assert OutputsAt(u, h) + [] == OutputsAt(u, h);
  }

  method VisitOutputs(u: UtxoMap, stxos: SpentMap, h: Hash, vout: seq<TxnOutput>) returns (utxos: UtxoMap)
    ensures utxos == Collected(u, h, Kept(vout, 0, SpentAt(stxos, h)))
  {
    utxos := u;
    for i := 0 to |vout|
      invariant utxos == Collected(u, h, Kept(vout[..i], 0, SpentAt(stxos, h)))
    {
      KeptNext(vout, 0, i, SpentAt(stxos, h));
      CollectedNext(u, h, Kept(vout[..i], 0, SpentAt(stxos, h)), vout[i]);
      assert Kept(vout[..i], 0, SpentAt(stxos, h)) + [] == Kept(vout[..i], 0, SpentAt(stxos, h));
      if h !in stxos {
        utxos := utxos[h := OutputsAt(utxos, h) + [vout[i]]];
        continue;
      }
      if i !in stxos[h] {
        utxos := utxos[h := OutputsAt(utxos, h) + [vout[i]]];
      }
    }
    assert vout[..|vout|] == vout;
  }

  method VisitInputs(stxos0: SpentMap, vins: seq<TxnInput>) returns (stxos: SpentMap)
    ensures forall h :: SpentAt(stxos, h) == SpentAt(stxos0, h) + NamedBy(h, vins)
  {
    stxos := stxos0;
    for i := 0 to |vins|
      invariant forall h :: SpentAt(stxos, h) == SpentAt(stxos0, h) + NamedBy(h, vins[..i])
    {
      forall h ensures NamedBy(h, vins[..i + 1])
          == NamedBy(h, vins[..i]) + if vins[i].voutHash == h then {vins[i].voutIndex} else {} {
        NamedByNext(h, vins, i);
      }
      var inHash := vins[i].voutHash;
      if inHash !in stxos {
        stxos := stxos[inHash := {}];
      }
      stxos := stxos[inHash := stxos[inHash] + {vins[i].voutIndex}];
    }
    assert vins[..|vins|] == vins;
  }

  method VisitTxn(u: UtxoMap, stxos0: SpentMap, t: Txn, ghost before: seq<Txn>)
      returns (utxos: UtxoMap, stxos: SpentMap)
    requires u == Scan(before) && Tracks(stxos0, before)
    ensures utxos == Scan(before + [t]) && Tracks(stxos, before + [t])
  {
    assert (before + [t])[..|before|] == before;
    utxos := VisitOutputs(u, stxos0, TxnHash(t), t.vout);
    if !IsCoinbase(t) {
      stxos := VisitInputs(stxos0, t.vin);
    } else {
      stxos := stxos0;
    }
    forall h ensures SpentAt(stxos, h) == SpentIn(h, before + [t]) {
      assert SpentAt(stxos0, h) == SpentIn(h, before);
      assert SpentIn(h, before + [t]) == SpentIn(h, before) + NamedBy(h, Spends(t));
    }
  }

  method VisitBlock(u: UtxoMap, stxos0: SpentMap, ts: seq<Txn>, ghost before: seq<Txn>)
      returns (utxos: UtxoMap, stxos: SpentMap)
    requires u == Scan(before) && Tracks(stxos0, before)
    ensures utxos == Scan(before + ts) && Tracks(stxos, before + ts)
  {
    utxos, stxos := u, stxos0;
    assert before + ts[..0] == before;
    for i := 0 to |ts|
      invariant utxos == Scan(before + ts[..i]) && Tracks(stxos, before + ts[..i])
    {
      assert before + ts[..i] + [ts[i]] == before + ts[..i + 1];
      utxos, stxos := VisitTxn(utxos, stxos, ts[i], before + ts[..i]);
    }
    assert ts[..|ts|] == ts;
  }

  /** The transactions visited when the walk has come down to block `i`. */
  function VisitedFrom(chain: seq<Block>, i: nat): seq<Txn>
    requires i <= |chain|
    decreases |chain| - i
  {
    if i == |chain| then [] else VisitedFrom(chain, i + 1) + chain[i].txns
  }

  lemma {:induction false} VisitedFromIsOrder(chain: seq<Block>, i: nat)
    requires i <= |chain|
    ensures VisitedFrom(chain, i) + VisitOrder(chain[..i]) == VisitOrder(chain)
    decreases |chain| - i
  {
    if i == |chain| {
      assert chain[..i] == chain;
    } else {
      VisitedFromIsOrder(chain, i + 1);
      assert chain[..i + 1][..i] == chain[..i];
    }
  }

  lemma {:induction false} VisitedAll(chain: seq<Block>)
    ensures VisitedFrom(chain, 0) == VisitOrder(chain)
  {
    VisitedFromIsOrder(chain, 0);
    assert VisitedFrom(chain, 0) + [] == VisitedFrom(chain, 0);
  }

  lemma {:induction false} VisitedNext(chain: seq<Block>, i: nat)
    requires i < |chain|
    ensures VisitedFrom(chain, i) == VisitedFrom(chain, i + 1) + chain[i].txns
  {
  }
}
