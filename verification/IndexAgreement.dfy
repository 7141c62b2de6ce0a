/** The UTXO set stays the index of its chain, block after block. */
module IndexAgreement {
  import opened Types
  import opened Ledger
  import opened Incremental
  import opened PoolGraph
  import opened UtxoSets
  import Sync

  lemma {:induction false} VisitOrderOfLonger(chain: seq<Block>, b: Block)
    ensures VisitOrder(chain + [b]) == b.txns + VisitOrder(chain)
  {
    assert (chain + [b])[..|chain|] == chain;
  }

  /** No two transactions of the block and the chain below it have the same hash. */
  ghost predicate Distinguished(chain: seq<Block>, b: Block) {
    UniqueHashes(b.txns + VisitOrder(chain))
  }

  // ----- When the update falls back -----

  /** Input `k` of transaction `i` belongs to the group, and what comes before it leaves no entry for it. */
  ghost predicate FindsNothing(s: UtxoMap, group: int, ts: seq<Txn>, i: nat, k: nat)
    requires i < |ts| && k < |Spends(ts[i])|
  {
    var vin := Spends(ts[i])[k];
    && !IsForeign(group, vin)
    && SpendEntry(ApplyEntry(Get(s, vin.voutHash), vin.voutHash, ts[..i]), vin.voutHash, Spends(ts[i])[..k]) == None
  }

  ghost predicate FallsBack(s: UtxoMap, group: int, ts: seq<Txn>) {
    exists i: nat, k: nat {:trigger FindsNothing(s, group, ts, i, k)} ::
      i < |ts| && k < |Spends(ts[i])| && FindsNothing(s, group, ts, i, k)
  }

  /** An input that fails on a set: it belongs to the group, and the inputs before it leave no entry for it. */
  ghost predicate FailsAt(s: UtxoMap, group: int, vins: seq<TxnInput>, k: nat)
    requires k < |vins|
  {
    !IsForeign(group, vins[k]) && SpendEntry(Get(s, vins[k].voutHash), vins[k].voutHash, vins[..k]) == None
  }

  lemma {:induction false} SpendPrefixes(s: UtxoMap, group: int, vins: seq<TxnInput>, k: nat)
    requires k <= |vins| && SpendInputs(s, group, vins).Some?
    ensures SpendInputs(s, group, vins[..k]).Some?
    decreases |vins|
  {
    if k < |vins| {
      assert vins[..|vins| - 1][..k] == vins[..k];
      SpendPrefixes(s, group, vins[..|vins| - 1], k);
    } else {
      assert vins[..k] == vins;
    }
  }

  lemma {:induction false} SpendFails(s: UtxoMap, group: int, vins: seq<TxnInput>)
    requires SpendInputs(s, group, vins).None?
    ensures exists k: nat :: k < |vins| && FailsAt(s, group, vins, k)
    decreases |vins|
  {
    var n := |vins| - 1;
    var before := vins[..n];
    if SpendInputs(s, group, before).None? {
      SpendFails(s, group, before);
      var k: nat :| k < |before| && FailsAt(s, group, before, k);
      assert before[..k] == vins[..k];
      assert FailsAt(s, group, vins, k);
    } else {
      SpendInputsAt(s, group, before, vins[n].voutHash);
      assert FailsAt(s, group, vins, n);
    }
  }

  lemma {:induction false} FailingStops(s: UtxoMap, group: int, vins: seq<TxnInput>, k: nat)
    requires k < |vins| && FailsAt(s, group, vins, k)
    ensures SpendInputs(s, group, vins).None?
  {
    if SpendInputs(s, group, vins).Some? {
      SpendPrefixes(s, group, vins, k);
      SpendPrefixes(s, group, vins, k + 1);
      assert vins[..k + 1][..k] == vins[..k];
      SpendInputsAt(s, group, vins[..k], vins[k].voutHash);
    }
  }

  lemma {:induction false} FindsNothingIsFailing(s: UtxoMap, group: int, ts: seq<Txn>, i: nat, k: nat)
    requires i < |ts| && k < |Spends(ts[i])| && ApplyTxns(s, group, ts[..i]).Some?
    ensures FindsNothing(s, group, ts, i, k) <==> FailsAt(ApplyTxns(s, group, ts[..i]).value, group, Spends(ts[i]), k)
  {
    ApplyTxnsAt(s, group, ts[..i], Spends(ts[i])[k].voutHash);
  }

  lemma {:induction false} FailureIsFound(s: UtxoMap, group: int, ts: seq<Txn>)
    requires ApplyTxns(s, group, ts).None?
    ensures FallsBack(s, group, ts)
    decreases |ts|
  {
    var n := |ts| - 1;
    var before := ts[..n];
    if ApplyTxns(s, group, before).None? {
      FailureIsFound(s, group, before);
      var i: nat, k: nat :| i < |before| && k < |Spends(before[i])| && FindsNothing(s, group, before, i, k);
      assert before[..i] == ts[..i];
      assert FindsNothing(s, group, ts, i, k);
    } else {
      var s1 := ApplyTxns(s, group, before).value;
      SpendFails(s1, group, Spends(ts[n]));
      var k: nat :| k < |Spends(ts[n])| && FailsAt(s1, group, Spends(ts[n]), k);
      FindsNothingIsFailing(s, group, ts, n, k);
    }
  }

  lemma {:induction false} ApplyTake(s: UtxoMap, group: int, ts: seq<Txn>, i: nat)
    requires i < |ts|
    ensures ApplyTxns(s, group, ts[..i + 1]) ==
      match ApplyTxns(s, group, ts[..i])
      case None => None
      case Some(s1) => ApplyTxn(s1, group, ts[i])
  {
    assert ts[..i + 1][..i] == ts[..i];
  }

  lemma {:induction false} FindingNothingStops(s: UtxoMap, group: int, ts: seq<Txn>, i: nat, k: nat)
    requires i < |ts| && k < |Spends(ts[i])| && FindsNothing(s, group, ts, i, k)
    ensures ApplyTxns(s, group, ts[..i + 1]).None?
  {
    ApplyTake(s, group, ts, i);
    var applied := ApplyTxns(s, group, ts[..i]);
    if applied.Some? {
      FindsNothingIsFailing(s, group, ts, i, k);
      FailingStops(applied.value, group, Spends(ts[i]), k);
    }
  }

  lemma {:induction false} FoundIsFailure(s: UtxoMap, group: int, ts: seq<Txn>, i: nat, k: nat)
    requires i < |ts| && k < |Spends(ts[i])| && FindsNothing(s, group, ts, i, k)
    ensures ApplyTxns(s, group, ts).None?
  {
    FindingNothingStops(s, group, ts, i, k);
    ApplyNone(s, group, ts, i + 1);
  }

  /** The update falls back exactly when some input of the group finds no entry left for it. */
  lemma {:induction false} FallbackExactly(s: UtxoMap, group: int, ts: seq<Txn>)
    ensures ApplyTxns(s, group, ts).None? <==> FallsBack(s, group, ts)
  {
    if ApplyTxns(s, group, ts).None? {
      FailureIsFound(s, group, ts);
    }
    forall i: nat, k: nat {:trigger FindsNothing(s, group, ts, i, k)} |
      i < |ts| && k < |Spends(ts[i])| && FindsNothing(s, group, ts, i, k)
      ensures ApplyTxns(s, group, ts).None?
    {
      FoundIsFailure(s, group, ts, i, k);
    }
  }

  /** An update never falls back on inputs of other groups. */
  lemma {:induction false} ForeignInputsNeverFallBack(s: UtxoMap, group: int, ts: seq<Txn>)
    requires forall i, k :: 0 <= i < |ts| && 0 <= k < |Spends(ts[i])| ==>
      KeyHash(Spends(ts[i])[k].pubKey).bytes[0] as int % MAX_GROUP_NUM != group
    ensures ApplyTxns(s, group, ts).Some?
  {
    FallbackExactly(s, group, ts);
  }

  // ----- One update -----

  /** An input finds nothing, so that the update reindexes, or indices and keys agree. */
  ghost predicate KeepsIndex(group: int, chain: seq<Block>, b: Block) {
    var past := VisitOrder(chain);
    FallsBack(Scan(past), group, b.txns) || IndexAgrees(b.txns, past)
  }

  /**
   One `Update` on the index of a chain, after the block was added to it: the result
   is the index of the longer chain if and only if an input of the group finds no
   entry, so that the update reindexes, or every output is named by index exactly as
   it is taken by key.
   */
  lemma {:induction false} UpdateKeepsIndexExactly(group: int, chain: seq<Block>, b: Block)
    requires Distinguished(chain, b)
    ensures Updated(Scan(VisitOrder(chain)), group, b.txns, chain + [b]) == Scan(VisitOrder(chain + [b]))
       <==> KeepsIndex(group, chain, b)
  {
    var past := VisitOrder(chain);
    VisitOrderOfLonger(chain, b);
    var applied := ApplyTxns(Scan(past), group, b.txns);
    FallbackExactly(Scan(past), group, b.txns);
    if applied.Some? {
      UpdateAgreesWithRescan(group, b.txns, past, applied.value);
    }
  }

  lemma {:induction false} ReplayedNext(s: UtxoMap, group: int, base: seq<Block>, blocks: seq<Block>, n: nat)
    requires n < |blocks|
    ensures base + blocks[..n] + [blocks[n]] == base + blocks[..n + 1]
    ensures Sync.Replayed(s, group, base, blocks[..n + 1])
         == Updated(Sync.Replayed(s, group, base, blocks[..n]), group, blocks[n].txns, base + blocks[..n] + [blocks[n]])
  {
    var longer := blocks[..n + 1];
    assert longer[..|longer| - 1] == blocks[..n];
    assert base + blocks[..n] + [blocks[n]] == base + longer;
  }

  /** The set after `n` updates is the index of the chain after `n` blocks. */
  ghost predicate IndexAfter(group: int, base: seq<Block>, blocks: seq<Block>, n: nat)
    requires n <= |blocks|
  {
    Sync.Replayed(Scan(VisitOrder(base)), group, base, blocks[..n]) == Scan(VisitOrder(base + blocks[..n]))
  }

  ghost predicate DistinguishedAt(base: seq<Block>, blocks: seq<Block>, n: nat)
    requires n < |blocks|
  {
    Distinguished(base + blocks[..n], blocks[n])
  }

  ghost predicate KeepsIndexAt(group: int, base: seq<Block>, blocks: seq<Block>, n: nat)
    requires n < |blocks|
  {
    KeepsIndex(group, base + blocks[..n], blocks[n])
  }

  lemma {:induction false} IndexAfterNext(group: int, base: seq<Block>, blocks: seq<Block>, n: nat)
    requires n < |blocks| && DistinguishedAt(base, blocks, n)
    requires IndexAfter(group, base, blocks, n)
    ensures IndexAfter(group, base, blocks, n + 1) <==> KeepsIndexAt(group, base, blocks, n)
  {
    ReplayedNext(Scan(VisitOrder(base)), group, base, blocks, n);
    UpdateKeepsIndexExactly(group, base + blocks[..n], blocks[n]);
  }

  lemma {:induction false} IndexAtStart(group: int, base: seq<Block>, blocks: seq<Block>)
    ensures IndexAfter(group, base, blocks, 0)
  {
    assert base + blocks[..0] == base;
  }

  /** The set stays the index over all the updates. */
  ghost predicate AlwaysIndex(group: int, base: seq<Block>, blocks: seq<Block>) {
    forall i: nat {:trigger IndexAfter(group, base, blocks, i)} :: i <= |blocks| ==> IndexAfter(group, base, blocks, i)
  }

  ghost predicate AllKeepIndex(group: int, base: seq<Block>, blocks: seq<Block>) {
    forall i: nat {:trigger KeepsIndexAt(group, base, blocks, i)} :: i < |blocks| ==> KeepsIndexAt(group, base, blocks, i)
  }

  ghost predicate AllDistinguished(base: seq<Block>, blocks: seq<Block>) {
    forall i: nat {:trigger DistinguishedAt(base, blocks, i)} :: i < |blocks| ==> DistinguishedAt(base, blocks, i)
  }

  lemma {:induction false} StaysIndex(group: int, base: seq<Block>, blocks: seq<Block>, n: nat)
    requires AllDistinguished(base, blocks) && AllKeepIndex(group, base, blocks) && n <= |blocks|
    ensures IndexAfter(group, base, blocks, n)
    decreases n
  {
    if n == 0 {
      IndexAtStart(group, base, blocks);
    } else {
      var m := n - 1;
      StaysIndex(group, base, blocks, m);
      assert DistinguishedAt(base, blocks, m) && KeepsIndexAt(group, base, blocks, m);
      IndexAfterNext(group, base, blocks, m);
    }
  }

  lemma {:induction false} KeptIndex(group: int, base: seq<Block>, blocks: seq<Block>, n: nat)
    requires AllDistinguished(base, blocks) && AlwaysIndex(group, base, blocks) && n < |blocks|
    ensures KeepsIndexAt(group, base, blocks, n)
  {
    assert DistinguishedAt(base, blocks, n);
    assert IndexAfter(group, base, blocks, n) && IndexAfter(group, base, blocks, n + 1);
    IndexAfterNext(group, base, blocks, n);
  }

  /**
   From the index of a chain, the set stays the index over any number of updates if
   and only if every block keeps it.
   */
  lemma {:induction false} ReplayKeepsIndex(group: int, base: seq<Block>, blocks: seq<Block>)
    requires AllDistinguished(base, blocks)
    ensures AlwaysIndex(group, base, blocks) <==> AllKeepIndex(group, base, blocks)
  {
    if AlwaysIndex(group, base, blocks) {
      forall i: nat | i < |blocks| ensures KeepsIndexAt(group, base, blocks, i) {
        KeptIndex(group, base, blocks, i);
      }
    }
    if AllKeepIndex(group, base, blocks) {
      forall i: nat | i <= |blocks| ensures IndexAfter(group, base, blocks, i) {
        StaysIndex(group, base, blocks, i);
      }
    }
  }

  // ----- Spends inside a block -----

  /** A listed transaction does not name one that is listed after it. */
  lemma {:induction false} ListedNamesEarlier(pool: Pool, order: seq<Hash>, i: nat, j: nat, k: nat)
    requires IsPool(pool) && TopologicalOrder(pool, order) && i < j < |order| && k < |pool[order[i]].vin|
    ensures pool[order[i]].vin[k].voutHash != order[j]
  {
    var parent := pool[order[i]].vin[k].voutHash;
    assert ParentsIn(pool, pool[order[i]], Elements(order[..i]));
    if parent in pool {
      assert parent in order[..i];
      var m :| 0 <= m < i && order[m] == parent;
      assert order[m] != order[j];
    }
  }

  /** A mined block lists a coinbase and then a topological order of the pool, so nothing names a later transaction. */
  lemma {:induction false} MinedBlockIsOrdered(coinbase: Txn, pool: Pool, order: seq<Hash>, listed: seq<Txn>)
    requires IsCoinbase(coinbase) && IsPool(pool) && TopologicalOrder(pool, order)
    requires |listed| <= |order| && forall i :: 0 <= i < |listed| ==> listed[i] == pool[order[i]]
    ensures NamesOnlyEarlier([coinbase] + listed)
  {
    var block := [coinbase] + listed;
    assert Spends(block[0]) == [];
    forall i, j, k | 0 < i < j < |block| && 0 <= k < |Spends(block[i])|
      ensures Spends(block[i])[k].voutHash != TxnHash(block[j])
    {
      assert block[i] == pool[order[i - 1]] && block[j] == pool[order[j - 1]];
      assert TxnHash(block[j]) == order[j - 1];
      ListedNamesEarlier(pool, order, i - 1, j - 1, k);
    }
  }

  /**
   On a keyed block in order, an update that does not fall back equals the rescan if
   and only if no transaction of the block spends from another or is without outputs,
   and the block spends all of an owner's outputs in an old transaction or none.
   */
  lemma {:induction false} OrderedBlockAgrees(group: int, block: seq<Txn>, past: seq<Txn>, s: UtxoMap)
    requires WellKeyed(block, past) && NamesOnlyEarlier(block)
    requires ApplyTxns(Scan(past), group, block) == Some(s)
    ensures s == Scan(block + past)
       <==> NoReferencesInside(block) && HaveOutputs(block) && AllOwnersWhole(block, past)
  {
    UpdateAgreesWithRescan(group, block, past, s);
    KeyedAgreement(block, past);
    OrderedRefsAgree(block, past);
  }

  // ----- Two cases -----

  /** A coinbase paying `key`. */
  function Coinbase(key: PublicKey, value: int, salt: Bytes): Txn {
    Txn([TxnInput(NO_HASH, -1, 0, salt, key)], [TxnOutput(value, KeyHash(key))])
  }

  /** A block of a coinbase and a spend of it. */
  function SpendInside(key: PublicKey, other: PublicKey, value: int, salt: Bytes): seq<Txn> {
    var first := Coinbase(key, value, salt);
    [first, Txn([TxnInput(TxnHash(first), 0, value, [], key)], [TxnOutput(value, KeyHash(other))])]
  }

  lemma {:induction false} SpendInsideIsKeyed(genesis: Txn, key: PublicKey, other: PublicKey, value: int, salt: Bytes)
    requires UniqueHashes(SpendInside(key, other, value, salt) + [genesis])
    ensures WellKeyed(SpendInside(key, other, value, salt), [genesis])
    ensures NamesOnlyEarlier(SpendInside(key, other, value, salt))
    ensures !NoReferencesInside(SpendInside(key, other, value, salt))
  {
    var block := SpendInside(key, other, value, salt);
    var all := block + [genesis];
    assert all[0] == block[0] && all[1] == block[1] && all[2] == genesis;
    var vin := block[1].vin[0];
    assert Spends(block[0]) == [] && Spends(block[1]) == [vin];
    forall k | 0 <= k < |all| ensures AllKeyedBy(block, all[k]) {
      forall i, j | 0 <= i < |block| && 0 <= j < |Spends(block[i])| ensures KeyedBy(Spends(block[i])[j], all[k]) {
        assert Spends(block[i])[j] == vin && vin.voutHash == TxnHash(all[0]);
        assert k > 0 ==> TxnHash(all[0]) != TxnHash(all[k]);
      }
    }
    assert Spends(block[1])[0].voutHash == TxnHash(block[0]);
  }

  lemma {:induction false} SpendInsideApplies(s: UtxoMap, group: int, key: PublicKey, other: PublicKey, value: int, salt: Bytes)
    ensures ApplyTxns(s, group, SpendInside(key, other, value, salt)).Some?
  {
    var block := SpendInside(key, other, value, salt);
    var vin := block[1].vin[0];
    assert block[..1] == [block[0]] && [block[0]][..0] == [] && [vin][..0] == [];
    var s1 := s[TxnHash(block[0]) := block[0].vout];
    assert ApplyTxns(s, group, block[..1]) == ApplyTxn(s, group, block[0]) == Some(s1);
    assert SpendInputs(s1, group, [vin]) == SpendInput(s1, group, vin);
    assert SpendInput(s1, group, vin).Some?;
  }

  /** A coinbase and a spend of it in one block: `Update` does not fall back and differs from the rescan. */
  lemma {:induction false} SpendInsideBlockDisagrees(
      group: int, genesis: Txn, key: PublicKey, other: PublicKey, value: int, salt: Bytes)
    requires UniqueHashes(SpendInside(key, other, value, salt) + [genesis])
    ensures var block := SpendInside(key, other, value, salt);
      && ApplyTxns(Scan([genesis]), group, block).Some?
      && ApplyTxns(Scan([genesis]), group, block).value != Scan(block + [genesis])
  {
    var block := SpendInside(key, other, value, salt);
    SpendInsideIsKeyed(genesis, key, other, value, salt);
    SpendInsideApplies(Scan([genesis]), group, key, other, value, salt);
    OrderedBlockAgrees(group, block, [genesis], ApplyTxns(Scan([genesis]), group, block).value);
  }
}
