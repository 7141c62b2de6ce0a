/** The UTXO set of one group: an index over the chain, kept block by block. */
module UtxoSets {
  import opened Types
  import opened Ledger
  import opened Blockchains
  import opened Mempools
  import opened MemVerify

  /** The set after `Update`: the block applied, or the rescanned chain where that gives up. */
  function Updated(s: UtxoMap, group: int, ts: seq<Txn>, chain: seq<Block>): UtxoMap {
    match ApplyTxns(s, group, ts)
    case Some(s') => s'
    case None => Scan(VisitOrder(chain))
  }

  method FilterOutputs(outs: seq<TxnOutput>, key: PublicKey) returns (updated: seq<TxnOutput>)
    ensures updated == Remaining(outs, key)
  {
    updated := [];
    ghost var all := Remaining(outs, key);
    assert outs[0..] == outs;
    for i := 0 to |outs|
      invariant all == updated + Remaining(outs[i..], key)
    {
      RemainingFrom(outs, i, key);
      ghost var rest := Remaining(outs[i + 1..], key);
      assert updated + ([outs[i]] + rest) == updated + [outs[i]] + rest && updated + ([] + rest) == updated + rest;
      if !IsLockedWithKey(outs[i], key) {
        updated := updated + [outs[i]];
      }
    }
  }

  lemma {:induction false} RemainingFrom(outs: seq<TxnOutput>, i: nat, key: PublicKey)
    requires i < |outs|
    ensures Remaining(outs[i..], key)
         == (if IsLockedWithKey(outs[i], key) then [] else [outs[i]]) + Remaining(outs[i + 1..], key)
  {
    assert outs[i..][1..] == outs[i + 1..];
  }

  class UTXOSet {
    var entries: UtxoMap
    const bc: Blockchain
    const group: int

    constructor (bc: Blockchain, group: int)
      ensures this.bc == bc && this.group == group && entries == map[]
    {
      this.bc, this.group, this.entries := bc, group, map[];
    }

    // ----- Applying -----

    /** Spends inputs until one finds no entry although it belongs to this group. */
    method SpendAll(vins: seq<TxnInput>) returns (ok: bool)
      modifies this`entries
      ensures ok <==> SpendInputs(old(entries), group, vins).Some?
      ensures ok ==> entries == SpendInputs(old(entries), group, vins).value
    {
      for i := 0 to |vins|
        invariant SpendInputs(old(entries), group, vins[..i]) == Some(entries)
      {
        SpendPrefix(old(entries), group, vins, i);
        var vin := vins[i];
        if vin.voutHash !in entries {
          if IsForeign(group, vin) {
            continue;
          }
          return false;
        }
        var updatedOuts := FilterOutputs(entries[vin.voutHash], vin.pubKey);
        if updatedOuts == [] {
          entries := entries - {vin.voutHash};
        } else {
          entries := entries[vin.voutHash := updatedOuts];
        }
      }
      assert vins[..|vins|] == vins;
      ok := true;
    }

    method Reindex()
      requires bc.BlocksAre(bc.chain) && bc.TopIs(bc.chain) && bc.chain != []
      modifies this`entries
      ensures entries == Scan(VisitOrder(bc.chain))
    {
      var hashedUtxos := bc.FindUTXO();
      entries := map[];
      var rest := hashedUtxos.Keys;
      while rest != {}
        invariant rest <= hashedUtxos.Keys
        invariant entries == map h | h in hashedUtxos && h !in rest :: hashedUtxos[h]
        decreases rest
      {
        var h :| h in rest;
        entries := entries[h := hashedUtxos[h]];
        rest := rest - {h};
      }
      assert entries == hashedUtxos;
    }

    /** Applies a block, or falls back to rebuilding the set and the transaction index. */
    method Update(b: Block)
      requires bc.Valid() && bc.chain != []
      modifies this`entries, bc`txns
      ensures bc.Valid()
      ensures entries == Updated(old(entries), group, b.txns, bc.chain)
    {
      for i := 0 to |b.txns|
        invariant ApplyTxns(old(entries), group, b.txns[..i]) == Some(entries)
        invariant bc.Valid()
      {
        var t := b.txns[i];
        ApplyPrefix(old(entries), group, b.txns, i);
        var ok := true;
        if !IsCoinbase(t) {
          ok := SpendAll(t.vin);
        }
        if !ok {
          Reindex();
          bc.TxnReindex();
          return;
        }
        entries := entries[TxnHash(t) := t.vout];
      }
      assert b.txns[..|b.txns|] == b.txns;
    }

    // ----- Rolling back -----

    method RestoreAll(vins: seq<TxnInput>)
      modifies this`entries
      ensures entries == RestoreInputs(old(entries), vins)
    {
      for i := 0 to |vins|
        invariant entries == RestoreInputs(old(entries), vins[..i])
      {
        assert vins[..i + 1][..i] == vins[..i];
        var vin := vins[i];
        var txos: seq<TxnOutput> := [];
        if vin.voutHash in entries {
          txos := entries[vin.voutHash];
        }
        txos := txos + [TxnOutput(vin.voutValue, KeyHash(vin.pubKey))];
        entries := entries[vin.voutHash := txos];
      }
      assert vins[..|vins|] == vins;
    }

    /** Undoes a block, the last transaction first; coinbase transactions are skipped. */
    method Reverse(b: Block)
      modifies this`entries
      ensures entries == ReverseTxns(old(entries), b.txns)
    {
      var n := |b.txns|;
      assert b.txns[..n] == b.txns;
      for i := 0 to n
        invariant ReverseTxns(old(entries), b.txns) == ReverseTxns(entries, b.txns[..n - i])
      {
        var t := b.txns[n - i - 1];
        assert b.txns[..n - i][..n - i - 1] == b.txns[..n - i - 1];
        if !IsCoinbase(t) {
          entries := entries - {TxnHash(t)};
          RestoreAll(t.vin);
        }
      }
    }

    /**
     Rejects a transaction only if the listed transactions of the pool leave nothing
     for one of its inputs. Listing them evicts what no order can contain; a coinbase
     is accepted without looking.
     */
    method MemVerify(t: Txn) returns (verdict: Verdict, ghost listed: seq<Txn>, ghost order: seq<Hash>)
      requires bc.pool.Valid()
      modifies bc.pool
      ensures bc.pool.Valid()
      ensures IsCoinbase(t) ==> verdict == Accepted && bc.pool.m == old(bc.pool.m)
      ensures !IsCoinbase(t) ==>
        && IsListing(old(bc.pool.m), order, listed)
        && (forall h :: h in bc.pool.m <==> h in order)
        && (forall h :: h in bc.pool.m ==> h in old(bc.pool.m) && bc.pool.m[h] == old(bc.pool.m)[h])
      ensures verdict == Exit <==> !IsCoinbase(t) && Overlay(entries, group, listed).None?
      ensures verdict == Rejected <==> !IsCoinbase(t) && SomeRefused(Overlay(entries, group, listed), t)
      ensures !IsCoinbase(t) && verdict != Exit && (exists k :: 0 <= k < |t.vin| && SpentVisibly(entries, listed, t.vin[k])) ==>
        verdict == Rejected
      ensures !IsCoinbase(t) && SomeMissing(entries, group, listed) ==> verdict == Exit
      ensures verdict == Rejected ==> exists k :: 0 <= k < |t.vin| && NothingToSpend(ReplayTxns(entries, listed), t.vin[k])
    {
      listed, order := [], [];
      if IsCoinbase(t) {
        return Accepted, listed, order;
      }
      var txns;
      txns, order := bc.pool.GetTxns();
      listed := txns;
      verdict := UTXOMemVerifyTransaction(entries, group, txns, t);
    }
  }

  lemma {:induction false} SpendPrefix(s: UtxoMap, group: int, vins: seq<TxnInput>, i: nat)
    requires i < |vins| && SpendInputs(s, group, vins[..i]).Some?
    ensures SpendInputs(s, group, vins[..i + 1]) == SpendInput(SpendInputs(s, group, vins[..i]).value, group, vins[i])
    ensures SpendInput(SpendInputs(s, group, vins[..i]).value, group, vins[i]).None? ==> SpendInputs(s, group, vins).None?
  {
    assert vins[..i + 1][..i] == vins[..i];
    if SpendInputs(s, group, vins[..i + 1]).None? {
      SpendNone(s, group, vins, i + 1);
    }
  }

  lemma {:induction false} SpendNone(s: UtxoMap, group: int, vins: seq<TxnInput>, i: nat)
    requires i <= |vins| && SpendInputs(s, group, vins[..i]).None?
    ensures SpendInputs(s, group, vins).None?
    decreases |vins| - i
  {
    if i == |vins| {
      assert vins[..i] == vins;
    } else {
      assert vins[..i + 1][..i] == vins[..i];
      SpendNone(s, group, vins, i + 1);
    }
  }

  lemma {:induction false} ApplyPrefix(s: UtxoMap, group: int, ts: seq<Txn>, i: nat)
    requires i < |ts| && ApplyTxns(s, group, ts[..i]).Some?
    ensures ApplyTxns(s, group, ts[..i + 1]) == ApplyTxn(ApplyTxns(s, group, ts[..i]).value, group, ts[i])
    ensures ApplyTxn(ApplyTxns(s, group, ts[..i]).value, group, ts[i]).None? ==> ApplyTxns(s, group, ts).None?
  {
    assert ts[..i + 1][..i] == ts[..i];
    if ApplyTxns(s, group, ts[..i + 1]).None? {
      ApplyNone(s, group, ts, i + 1);
    }
  }

  lemma {:induction false} ApplyNone(s: UtxoMap, group: int, ts: seq<Txn>, i: nat)
    requires i <= |ts| && ApplyTxns(s, group, ts[..i]).None?
    ensures ApplyTxns(s, group, ts).None?
    decreases |ts| - i
  {
    if i == |ts| {
      assert ts[..i] == ts;
    } else {
      assert ts[..i + 1][..i] == ts[..i];
      ApplyNone(s, group, ts, i + 1);
    }
  }
}
