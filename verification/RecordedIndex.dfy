/**
 The output index a payment records. `findUTXOs` counts the outputs that remain in
 an entry, while the rescan counts the outputs of the transaction, so the two agree
 only as long as nothing in front of the spent output is gone.
 */
module RecordedIndex {
  import opened Types
  import opened Ledger
  import opened Incremental
  import opened PoolGraph
  import opened Expand
  import opened Payments

  /** No output in front of `k` is spent. */
  ghost predicate NothingSpentBelow(spent: set<int>, k: int) {
    forall m :: 0 <= m < k ==> m !in spent
  }

  // ----- Positions in what remains of an entry -----

  /** The position of an owner's output among the kept ones is its index only if nothing in front is spent. */
  lemma {:induction false} PositionOfKept(outs: seq<TxnOutput>, i: int, spent: set<int>, k: nat, j: nat)
    requires DistinctOwners(outs) && k < |outs| && i + k !in spent
    requires j < |Kept(outs, i, spent)| && Kept(outs, i, spent)[j].pubKeyHash == outs[k].pubKeyHash
    ensures j <= k && Kept(outs, i, spent)[j] == outs[k]
    ensures j == k <==> forall m :: i <= m < i + k ==> m !in spent
    decreases |outs|
  {
    var rest := Kept(outs[1..], i + 1, spent);
    KeptMembers(outs[1..], i + 1, spent);
    if k == 0 {
      assert forall o :: o in rest ==> o in outs[1..] && o.pubKeyHash != outs[0].pubKeyHash;
    } else if i in spent {
      assert Kept(outs, i, spent) == rest;
      PositionOfKept(outs[1..], i + 1, spent, k - 1, j);
    } else {
      assert Kept(outs, i, spent) == [outs[0]] + rest;
      PositionOfKept(outs[1..], i + 1, spent, k - 1, j - 1);
    }
  }

  lemma {:induction false} KeptHasIndex(outs: seq<TxnOutput>, i: int, spent: set<int>, j: nat) returns (k: nat)
    requires j < |Kept(outs, i, spent)|
    ensures k < |outs| && i + k !in spent && Kept(outs, i, spent)[j] == outs[k]
    decreases |outs|
  {
    var rest := Kept(outs[1..], i + 1, spent);
    if i in spent {
      assert Kept(outs, i, spent) == rest;
      k := KeptHasIndex(outs[1..], i + 1, spent, j);
      k := k + 1;
    } else if j == 0 {
      k := 0;
    } else {
      assert Kept(outs, i, spent) == [outs[0]] + rest;
      k := KeptHasIndex(outs[1..], i + 1, spent, j - 1);
      k := k + 1;
    }
  }

  // ----- The inputs of a built payment -----

  /** A coin that was reached inside the pool is filed under its transaction there, at its index. */
  lemma {:induction false} ReachedInPool(pool: Pool, start: Coin, depth: nat, c: Coin)
    requires IsPool(pool) && depth > 0 && Reached(pool, start, depth, c)
    ensures c.hash in pool && 0 <= c.index < |pool[c.hash].vout| && c.out == pool[c.hash].vout[c.index]
    ensures c.out.pubKeyHash == start.out.pubKeyHash
  {
    SameOwner(pool, start, depth, c);
    var b :| Reached(pool, start, depth - 1, b) && Follows(pool, b, c);
    var h, k: nat :| h in pool && PaysBack(pool[h], k, b, c);
    assert TxnHash(pool[h]) == h;
  }

  /** An input of a payment that spends from the pool is keyed by the pending transaction it names. */
  lemma {:induction false} PendingInputIsKeyed(entries: UtxoMap, pool: Pool, vin: TxnInput)
    requires IsPool(pool) && IsSpendable(entries, pool, vin)
    requires vin.voutHash in pool && vin.voutHash !in entries
    ensures KeyedBy(vin, pool[vin.voutHash])
  {
    var c: Coin :| c.hash == vin.voutHash && c.index == vin.voutIndex && c.out.value == vin.voutValue
      && Spendable(entries, pool, vin.pubKey, c);
    var start, depth: nat :| FromEntry(entries, vin.pubKey, start) && Reached(pool, start, depth, c);
    if depth > 0 {
      ReachedInPool(pool, start, depth, c);
    }
  }

  /**
   An input of a payment that spends from an entry of the set: it takes output `k`,
   and it is keyed by the transaction it names if and only if no output in front of
   `k` was spent.
   */
  lemma {:induction false} InputKeyedExactly(
      entries: UtxoMap, pool: Pool, vin: TxnInput, t: Txn, spent: set<int>) returns (k: nat)
    requires IsPool(pool) && IsSpendable(entries, pool, vin)
    requires vin.voutHash == TxnHash(t) && vin.voutHash !in pool && DistinctOwners(t.vout)
    requires Get(entries, TxnHash(t)) == NonEmpty(Kept(t.vout, 0, spent))
    ensures k < |t.vout| && k !in spent && t.vout[k] == Restored(vin)
    ensures KeyedBy(vin, t) <==> NothingSpentBelow(spent, k)
  {
    var c: Coin :| c.hash == vin.voutHash && c.index == vin.voutIndex && c.out.value == vin.voutValue
      && Spendable(entries, pool, vin.pubKey, c);
    var start, depth: nat :| FromEntry(entries, vin.pubKey, start) && Reached(pool, start, depth, c);
    if depth > 0 {
      ReachedInPool(pool, start, depth, c);
    }
    assert c == start;
    k := KeptHasIndex(t.vout, 0, spent, c.index);
    PositionOfKept(t.vout, 0, spent, k, c.index);
  }

  // ----- What it does to the index -----

  /** The only input of `pay` that names `t` is number `n`. */
  ghost predicate OnlyInput(pay: Txn, t: Txn, n: nat) {
    && n < |Spends(pay)| && Spends(pay)[n].voutHash == TxnHash(t)
    && forall j :: 0 <= j < |Spends(pay)| && j != n ==> Spends(pay)[j].voutHash != TxnHash(t)
  }

  lemma {:induction false} OnlyInputNames(pay: Txn, t: Txn, n: nat)
    requires OnlyInput(pay, t, n)
    ensures SpentIn(TxnHash(t), [pay]) == {Spends(pay)[n].voutIndex}
    ensures TakenIn(t, [pay]) == OwnedBy(t.vout, 0, Spends(pay)[n].pubKey)
  {
    var h, vins := TxnHash(t), Spends(pay);
    assert [pay][..0] == [];
    assert SpentIn(h, [pay]) == SpentIn(h, []) + NamedBy(h, vins);
    assert TakenIn(t, [pay]) == TakenIn(t, []) + TakenBy(t, vins);
    assert NamedBy(h, vins) == {vins[n].voutIndex};
    forall k | 0 <= k < |t.vout| ensures k in TakenBy(t, vins) <==> k in OwnedBy(t.vout, 0, vins[n].pubKey) {
      assert Owns(t.vout, 0, vins[n].pubKey, k) <==> IsLockedWithKey(t.vout[k], vins[n].pubKey);
    }
  }

  /**
   A block with one payment built on the rescanned set: its update leaves the entry
   it spends from as the rescan has it if and only if no output in front of the spent
   one was spent before.
   */
  lemma {:induction false} PaymentAgreesExactly(past: seq<Txn>, pool: Pool, p: nat, pay: Txn, n: nat) returns (k: nat)
    requires UniqueHashes(past) && p < |past| && DistinctOwners(past[p].vout)
    requires OnlyInput(pay, past[p], n) && IsPool(pool) && TxnHash(past[p]) !in pool
    requires IsSpendable(Scan(past), pool, Spends(pay)[n])
    ensures k < |past[p].vout| && past[p].vout[k] == Restored(Spends(pay)[n])
    ensures OldAgrees([pay], past, p) <==> NothingSpentBelow(SpentIn(TxnHash(past[p]), past[..p]), k)
  {
    var t, vin := past[p], Spends(pay)[n];
    var spent := SpentIn(TxnHash(t), past[..p]);
    ScanAt(past, p);
    k := InputKeyedExactly(Scan(past), pool, vin, t, spent);
    OnlyInputNames(pay, t, n);
    assert k in OwnedBy(t.vout, 0, vin.pubKey) by {
      assert Owns(t.vout, 0, vin.pubKey, k);
    }
    forall m | m in OwnedBy(t.vout, 0, vin.pubKey) ensures m == k {
      assert Owns(t.vout, 0, vin.pubKey, m);
    }
    assert KeyedBy(vin, t) <==> vin.voutIndex == k;
  }

  // ----- A case -----

  /** A transaction paying two keys, and a payment by the first. */
  function TwoPaid(a: PublicKey, b: PublicKey, x: int, y: int): Txn {
    Txn([TxnInput(NO_HASH, -1, 0, [], a)], [TxnOutput(x, KeyHash(a)), TxnOutput(y, KeyHash(b))])
  }

  function Payment(from: Txn, index: int, value: int, key: PublicKey, to: PublicKey): Txn {
    Txn([TxnInput(TxnHash(from), index, value, [], key)], [TxnOutput(value, KeyHash(to))])
  }

  /** What the scan visits: the payment by the first key, then the transaction it spends from. */
  function AfterFirst(t: Txn, x: int, a: PublicKey, c: PublicKey): seq<Txn> {
    [Payment(t, 0, x, a, c), t]
  }

  lemma {:induction false} ScanAfterFirst(a: PublicKey, b: PublicKey, c: PublicKey, x: int, y: int)
    requires KeyHash(a) != KeyHash(b) && UniqueHashes(AfterFirst(TwoPaid(a, b, x, y), x, a, c))
    ensures var t := TwoPaid(a, b, x, y);
      && SpentIn(TxnHash(t), [Payment(t, 0, x, a, c)]) == {0}
      && Get(Scan(AfterFirst(t, x, a, c)), TxnHash(t)) == Some([TxnOutput(y, KeyHash(b))])
  {
    var t := TwoPaid(a, b, x, y);
    var first := Payment(t, 0, x, a, c);
    var past := AfterFirst(t, x, a, c);
    OnlyInputNames(first, t, 0);
    assert past[..1] == [first];
    ScanAt(past, 1);
    assert t.vout[1..] == [TxnOutput(y, KeyHash(b))] && t.vout[1..][1..] == [];
    assert Kept(t.vout[1..], 1, {0}) == [TxnOutput(y, KeyHash(b))];
    assert Kept(t.vout, 0, {0}) == [TxnOutput(y, KeyHash(b))];
  }

  /** The second key's output now stands at position 0, and that is the index its payment records. */
  lemma {:induction false} SecondIsSpendable(a: PublicKey, b: PublicKey, c: PublicKey, x: int, y: int)
    requires KeyHash(a) != KeyHash(b) && UniqueHashes(AfterFirst(TwoPaid(a, b, x, y), x, a, c))
    ensures var t := TwoPaid(a, b, x, y);
      IsSpendable(Scan(AfterFirst(t, x, a, c)), map[], Payment(t, 0, y, b, c).vin[0])
  {
    var t := TwoPaid(a, b, x, y);
    var entries := Scan(AfterFirst(t, x, a, c));
    ScanAfterFirst(a, b, c, x, y);
    var start := Coin(TxnOutput(y, KeyHash(b)), TxnHash(t), 0);
    assert FromEntry(entries, b, start);
    assert Reached(map[], start, 0, start);
  }

  lemma {:induction false} OnePaymentApplies(s: UtxoMap, group: int, t: Txn, index: int, value: int, key: PublicKey, to: PublicKey)
    requires TxnHash(t) in s && 0 <= index
    ensures ApplyTxns(s, group, [Payment(t, index, value, key, to)]).Some?
  {
    var pay := Payment(t, index, value, key, to);
    assert [pay][..0] == [] && pay.vin[..0] == [];
    assert SpendInputs(s, group, pay.vin) == SpendInput(s, group, pay.vin[0]);
    assert ApplyTxns(s, group, [pay]) == ApplyTxn(s, group, pay);
  }

  /**
   Two keys are paid by one transaction and both spend, each with the index the node
   records. Updating with the second payment takes the output away; rescanning the
   chain finds index 0 named twice and gives the spent output back.
   */
  lemma {:induction false} ShiftedPaymentDisagrees(group: int, a: PublicKey, b: PublicKey, c: PublicKey, x: int, y: int)
    requires KeyHash(a) != KeyHash(b)
    requires var t := TwoPaid(a, b, x, y); UniqueHashes([Payment(t, 0, y, b, c)] + AfterFirst(t, x, a, c))
    ensures var t := TwoPaid(a, b, x, y); var pay, past := Payment(t, 0, y, b, c), AfterFirst(t, x, a, c);
      && IsSpendable(Scan(past), map[], pay.vin[0])
      && NoReferencesInside([pay])
      && ApplyTxns(Scan(past), group, [pay]).Some?
      && TxnHash(t) !in ApplyTxns(Scan(past), group, [pay]).value
      && Get(Scan([pay] + past), TxnHash(t)) == Some([TxnOutput(y, KeyHash(b))])
  {
    var t := TwoPaid(a, b, x, y);
    var h, pay, past := TxnHash(t), Payment(t, 0, y, b, c), AfterFirst(t, x, a, c);
    UniquePast([pay], past);
    ScanAfterFirst(a, b, c, x, y);
    SecondIsSpendable(a, b, c, x, y);
    OnePaymentApplies(Scan(past), group, t, 0, y, b, c);
    assert past[..1] == [Payment(t, 0, x, a, c)];
    OnlyInputNames(pay, t, 0);
    ScanOfOld([pay], past, 1);
    assert {0} + {0} == {0};
    ScanAt(past, 1);
    ApplyTxnsAt(Scan(past), group, [pay], h);
    OldHashDiffers(pay, past, 1);
    ApplyEntryKept(t, {0}, [pay]);
    assert Owns(t.vout, 0, b, 1);
    AllSpent(t, {0} + TakenIn(t, [pay]));
  }

  lemma {:induction false} OldHashDiffers(pay: Txn, past: seq<Txn>, p: nat)
    requires UniqueHashes([pay] + past) && p < |past|
    ensures TxnHash(pay) != TxnHash(past[p])
  {
    assert ([pay] + past)[0] == pay && ([pay] + past)[p + 1] == past[p];
  }

  lemma {:induction false} AllSpent(t: Txn, spent: set<int>)
    requires |t.vout| == 2 && 0 in spent && 1 in spent
    ensures Kept(t.vout, 0, spent) == []
  {
    assert t.vout[1..][1..] == [];
    assert Kept(t.vout[1..], 1, spent) == [];
  }

  /** A transaction paying one key twice, as a payment to oneself does. */
  lemma {:induction false} PaidTwice(a: PublicKey, x: int, y: int)
    ensures var t := TwoPaid(a, a, x, y);
      && OwnedBy(t.vout, 0, a) == {0, 1}
      && Kept(t.vout, 0, {0}) == [TxnOutput(y, KeyHash(a))]
  {
    var t := TwoPaid(a, a, x, y);
    assert Owns(t.vout, 0, a, 0) && Owns(t.vout, 0, a, 1);
    assert t.vout[1..] == [TxnOutput(y, KeyHash(a))] && t.vout[1..][1..] == [];
    assert Kept(t.vout[1..], 1, {0}) == [TxnOutput(y, KeyHash(a))];
  }

  lemma {:induction false} SelfPaymentNames(a: PublicKey, c: PublicKey, x: int, y: int)
    ensures var t := TwoPaid(a, a, x, y); var pay := Payment(t, 0, x, a, c);
      SpentIn(TxnHash(t), [pay]) == {0} && TakenIn(t, [pay]) == {0, 1}
  {
    var t := TwoPaid(a, a, x, y);
    PaidTwice(a, x, y);
    OnlyInputNames(Payment(t, 0, x, a, c), t, 0);
  }

  lemma {:induction false} SelfPaymentIsKeyed(a: PublicKey, c: PublicKey, x: int, y: int)
    requires var t := TwoPaid(a, a, x, y); UniqueHashes([Payment(t, 0, x, a, c)] + [t])
    ensures var t := TwoPaid(a, a, x, y); var pay := Payment(t, 0, x, a, c);
      WellKeyed([pay], [t]) && NoReferencesInside([pay]) && HaveOutputs([pay])
  {
    var t := TwoPaid(a, a, x, y);
    var pay := Payment(t, 0, x, a, c);
    var all := [pay] + [t];
    OldHashDiffers(pay, [t], 0);
    assert all[0] == pay && all[1] == t;
    assert Spends(pay) == pay.vin;
  }

  lemma {:induction false} ScanOfTwoPaid(a: PublicKey, x: int, y: int)
    ensures var t := TwoPaid(a, a, x, y); Get(Scan([t]), TxnHash(t)) == Some(t.vout)
  {
    var t := TwoPaid(a, a, x, y);
    assert [t][..0] == [];
    ScanAt([t], 0);
    KeptAll(t.vout, 0);
  }

  lemma {:induction false} SelfPaymentApplied(group: int, a: PublicKey, c: PublicKey, x: int, y: int)
    requires var t := TwoPaid(a, a, x, y); TxnHash(Payment(t, 0, x, a, c)) != TxnHash(t)
    ensures var t := TwoPaid(a, a, x, y); var pay := Payment(t, 0, x, a, c);
      && ApplyTxns(Scan([t]), group, [pay]).Some?
      && TxnHash(t) !in ApplyTxns(Scan([t]), group, [pay]).value
  {
    var t := TwoPaid(a, a, x, y);
    var h, pay := TxnHash(t), Payment(t, 0, x, a, c);
    ScanOfTwoPaid(a, x, y);
    KeptAll(t.vout, 0);
    SelfPaymentNames(a, c, x, y);
    OnePaymentApplies(Scan([t]), group, t, 0, x, a, c);
    ApplyTxnsAt(Scan([t]), group, [pay], h);
    ApplyEntryKept(t, {}, [pay]);
    assert {} + {0, 1} == {0, 1};
    AllSpent(t, {0, 1});
  }

  lemma {:induction false} SelfPaymentScanned(a: PublicKey, c: PublicKey, x: int, y: int)
    requires var t := TwoPaid(a, a, x, y); UniqueHashes([Payment(t, 0, x, a, c)] + [t])
    ensures var t := TwoPaid(a, a, x, y);
      Get(Scan([Payment(t, 0, x, a, c)] + [t]), TxnHash(t)) == Some([TxnOutput(y, KeyHash(a))])
  {
    var t := TwoPaid(a, a, x, y);
    var pay := Payment(t, 0, x, a, c);
    SelfPaymentNames(a, c, x, y);
    PaidTwice(a, x, y);
    assert [t][..0] == [];
    ScanOfOld([pay], [t], 0);
    assert SpentIn(TxnHash(t), [t][..0]) + {0} == {0};
  }

  /**
   One owner has both outputs of a transaction and spends the first, with its own key
   and index. The input is keyed, but the update takes both outputs away and the
   rescan gives the second one back.
   */
  lemma {:induction false} SelfPaymentDisagrees(group: int, a: PublicKey, c: PublicKey, x: int, y: int)
    requires var t := TwoPaid(a, a, x, y); UniqueHashes([Payment(t, 0, x, a, c)] + [t])
    ensures var t := TwoPaid(a, a, x, y); var pay := Payment(t, 0, x, a, c);
      && WellKeyed([pay], [t]) && NoReferencesInside([pay]) && HaveOutputs([pay])
      && ApplyTxns(Scan([t]), group, [pay]).Some?
      && TxnHash(t) !in ApplyTxns(Scan([t]), group, [pay]).value
      && Get(Scan([pay] + [t]), TxnHash(t)) == Some([TxnOutput(y, KeyHash(a))])
  {
    var t := TwoPaid(a, a, x, y);
    OldHashDiffers(Payment(t, 0, x, a, c), [t], 0);
    SelfPaymentIsKeyed(a, c, x, y);
    SelfPaymentApplied(group, a, c, x, y);
    SelfPaymentScanned(a, c, x, y);
  }
}
