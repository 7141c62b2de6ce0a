/**
 Rolling blocks back: `Reverse` against `Update`.

 A run of transactions is exact when every hash in it is new and every input
 removes exactly one output, of the recorded value, or belongs to another group and
 finds no entry. `Reverse` then undoes the run entry by entry, up to the order of the
 outputs inside an entry. Two things stay behind: the entries of coinbase
 transactions, and the outputs restored for inputs that had removed nothing.
 */
module Rollback {
  import opened Types
  import opened Ledger

  type Bag = multiset<TxnOutput>

  /** Exactly one output belongs to the input's key, and it has the recorded value. */
  ghost predicate ExactSpend(outs: seq<TxnOutput>, vin: TxnInput) {
    exists i :: 0 <= i < |outs| && ExactSpendAt(outs, vin, i)
  }

  ghost predicate ExactSpendAt(outs: seq<TxnOutput>, vin: TxnInput, i: nat)
    requires i < |outs|
  {
    && outs[i] == Restored(vin)
    && forall j :: 0 <= j < |outs| && j != i ==> !IsLockedWithKey(outs[j], vin.pubKey)
  }

  /** The input takes out exactly one output, or is skipped. */
  ghost predicate ExactInput(s: UtxoMap, group: int, vin: TxnInput) {
    if vin.voutHash in s then ExactSpend(s[vin.voutHash], vin) else IsForeign(group, vin)
  }

  ghost predicate ExactInputs(s: UtxoMap, group: int, vins: seq<TxnInput>)
    ensures ExactInputs(s, group, vins) ==> SpendInputs(s, group, vins).Some?
    decreases |vins|
  {
    vins == [] ||
    var before, vin := vins[..|vins| - 1], vins[|vins| - 1];
    && ExactInputs(s, group, before)
    && ExactInput(SpendInputs(s, group, before).value, group, vin)
  }

  /** An exact run from `s`, where `known` holds every hash used so far. */
  ghost predicate ExactRun(s: UtxoMap, group: int, known: set<Hash>, ts: seq<Txn>)
    ensures ExactRun(s, group, known, ts) ==> ApplyTxns(s, group, ts).Some?
    decreases |ts|
  {
    ts == [] ||
    var before, t := ts[..|ts| - 1], ts[|ts| - 1];
    && ExactRun(s, group, known, before)
    && TxnHash(t) !in known + TxnHashes(before)
    && ExactInputs(ApplyTxns(s, group, before).value, group, Spends(t))
  }

  // ----- Entries as bags -----

  function BagAt(s: UtxoMap, h: Hash): Option<Bag> {
    if h in s then Some(multiset(s[h])) else None
  }

  function OrEmpty(e: Option<Bag>): Bag {
    if e.Some? then e.value else multiset{}
  }

  function RestoreBag(e: Option<Bag>, h: Hash, vins: seq<TxnInput>): Option<Bag>
    decreases |vins|
  {
    if vins == [] then e
    else
      var e' := RestoreBag(e, h, vins[..|vins| - 1]);
      var vin := vins[|vins| - 1];
      if vin.voutHash == h then Some(OrEmpty(e') + multiset{Restored(vin)}) else e'
  }

  lemma {:induction false} RestoreInputsAt(s: UtxoMap, vins: seq<TxnInput>, h: Hash)
    ensures BagAt(RestoreInputs(s, vins), h) == RestoreBag(BagAt(s, h), h, vins)
    decreases |vins|
  {
    if vins != [] {
      RestoreInputsAt(s, vins[..|vins| - 1], h);
    }
  }

  lemma {:induction false} RestoreBagAdds(e: Option<Bag>, h: Hash, vins: seq<TxnInput>, more: Bag)
    ensures RestoreBag(Some(OrEmpty(e) + more), h, vins)
         == Some(OrEmpty(RestoreBag(e, h, vins)) + more)
    decreases |vins|
  {
    if vins != [] {
      var before, vin := vins[..|vins| - 1], vins[|vins| - 1];
      RestoreBagAdds(e, h, before, more);
      var b := OrEmpty(RestoreBag(e, h, before));
      assert b + more + multiset{Restored(vin)} == b + multiset{Restored(vin)} + more;
    }
  }

  // ----- Entries with something besides -----

  function AddOutputs(m: UtxoMap, h: Hash, outs: seq<TxnOutput>): UtxoMap {
    m[h := OutputsAt(m, h) + outs]
  }

  function Merge(a: UtxoMap, b: UtxoMap): UtxoMap {
    map h | h in a.Keys + b.Keys :: OutputsAt(a, h) + OutputsAt(b, h)
  }

  /** An entry with the outputs of `m` besides. */
  function Plus(e: Option<Bag>, m: UtxoMap, h: Hash): Option<Bag> {
    if h in m then Some(OrEmpty(e) + multiset(m[h])) else e
  }

  /** `x` is `s` up to the order inside entries, with the outputs of `stale` besides. */
  ghost predicate Matches(x: UtxoMap, s: UtxoMap, stale: UtxoMap) {
    forall h {:trigger BagAt(x, h)} {:trigger BagAt(s, h)} :: BagAt(x, h) == Plus(BagAt(s, h), stale, h)
  }

  lemma AddNothing(b: Bag)
    ensures b + multiset([]) == b == multiset([]) + b && b + multiset{} == b == multiset{} + b
  {
  }

  lemma Shuffle(a: Bag, b: Bag, c: Bag)
    ensures a + b + c == a + (c + b) == a + c + b
  {
  }

  lemma PlusMerge(e: Option<Bag>, a: UtxoMap, b: UtxoMap, h: Hash)
    ensures Plus(Plus(e, b, h), a, h) == Plus(e, Merge(a, b), h)
  {
    var p, q := OutputsAt(a, h), OutputsAt(b, h);
    Shuffle(OrEmpty(e), multiset(q), multiset(p));
    AddNothing(multiset(p));
    AddNothing(multiset(q));
    AddNothing(OrEmpty(e));
    assert h in Merge(a, b) ==> multiset(Merge(a, b)[h]) == multiset(p) + multiset(q);
  }

  lemma PlusAdd(e: Option<Bag>, m: UtxoMap, h: Hash, outs: seq<TxnOutput>)
    ensures Plus(e, AddOutputs(m, h, outs), h) == Some(OrEmpty(Plus(e, m, h)) + multiset(outs))
    ensures forall g :: g != h ==> Plus(e, AddOutputs(m, h, outs), g) == Plus(e, m, g)
  {
    var p := OutputsAt(m, h);
    Shuffle(OrEmpty(e), multiset(outs), multiset(p));
    AddNothing(OrEmpty(e));
    AddNothing(multiset(outs));
    assert multiset(AddOutputs(m, h, outs)[h]) == multiset(p) + multiset(outs);
  }

  lemma PlusAll(m: UtxoMap, h: Hash, outs: seq<TxnOutput>)
    ensures Plus(None, AddOutputs(m, h, outs), h) == Plus(Some(multiset(outs)), m, h)
  {
    PlusAdd(None, m, h, outs);
    AddNothing(multiset(outs));
    if h in m {
      Shuffle(multiset{}, multiset(outs), multiset(m[h]));
      AddNothing(multiset(m[h]));
    }
  }

  lemma {:induction false} RestorePlus(e: Option<Bag>, m: UtxoMap, h: Hash, vins: seq<TxnInput>)
    ensures RestoreBag(Plus(e, m, h), h, vins) == Plus(RestoreBag(e, h, vins), m, h)
  {
    if h in m {
      RestoreBagAdds(e, h, vins, multiset(m[h]));
    }
  }

  // ----- One exact spend -----

  lemma {:induction false} RemainingOfOthers(outs: seq<TxnOutput>, key: PublicKey)
    requires forall j :: 0 <= j < |outs| ==> !IsLockedWithKey(outs[j], key)
    ensures Remaining(outs, key) == outs
    decreases |outs|
  {
    if outs != [] {
      RemainingOfOthers(outs[1..], key);
    }
  }

  /** An exact spend takes one output out and leaves the others in their order. */
  lemma {:induction false} ExactSpendRemoves(outs: seq<TxnOutput>, vin: TxnInput, i: nat)
    requires i < |outs| && ExactSpendAt(outs, vin, i)
    ensures Remaining(outs, vin.pubKey) == outs[..i] + outs[i + 1..]
    decreases i
  {
    var rest := outs[1..];
    if i == 0 {
      RemainingOfOthers(rest, vin.pubKey);
    } else {
      assert ExactSpendAt(rest, vin, i - 1);
      ExactSpendRemoves(rest, vin, i - 1);
      assert outs[..i] + outs[i + 1..] == [outs[0]] + (rest[..i - 1] + rest[i..]);
    }
  }

  lemma {:induction false} RemainingCount(outs: seq<TxnOutput>, key: PublicKey, o: TxnOutput)
    ensures multiset(Remaining(outs, key))[o] == if IsLockedWithKey(o, key) then 0 else multiset(outs)[o]
    decreases |outs|
  {
    if outs != [] {
      RemainingCount(outs[1..], key, o);
      assert outs == [outs[0]] + outs[1..];
    }
  }

  lemma BagWithout<T>(xs: seq<T>, i: nat)
    requires i < |xs|
    ensures multiset(xs) == multiset(xs[..i] + xs[i + 1..]) + multiset{xs[i]}
  {
    assert xs == xs[..i] + [xs[i]] + xs[i + 1..];
  }

  lemma {:induction false} ExactSpendBag(s: UtxoMap, group: int, vin: TxnInput)
    requires vin.voutHash in s && ExactSpend(s[vin.voutHash], vin)
    ensures SpendInput(s, group, vin).Some?
    ensures BagAt(s, vin.voutHash)
         == Some(OrEmpty(BagAt(SpendInput(s, group, vin).value, vin.voutHash)) + multiset{Restored(vin)})
  {
    var outs := s[vin.voutHash];
    var i :| 0 <= i < |outs| && ExactSpendAt(outs, vin, i);
    ExactSpendRemoves(outs, vin, i);
    BagWithout(outs, i);
  }

  // ----- One transaction -----

  lemma {:induction false} SpendingShrinks(s: UtxoMap, group: int, vins: seq<TxnInput>)
    requires ExactInputs(s, group, vins)
    ensures SpendInputs(s, group, vins).value.Keys <= s.Keys
    decreases |vins|
  {
    if vins != [] {
      SpendingShrinks(s, group, vins[..|vins| - 1]);
    }
  }

  /** What restoring adds for the inputs that had found no entry. */
  function Unmatched(s: UtxoMap, group: int, vins: seq<TxnInput>): UtxoMap
    decreases |vins|
  {
    if vins == [] then map[]
    else
      var before, vin := vins[..|vins| - 1], vins[|vins| - 1];
      var m := Unmatched(s, group, before);
      match SpendInputs(s, group, before)
      case None => m
      case Some(s1) => if vin.voutHash in s1 then m else AddOutputs(m, vin.voutHash, [Restored(vin)])
  }

  lemma {:induction false} RestoringUndoesOne(s: UtxoMap, group: int, before: seq<TxnInput>, vin: TxnInput)
    requires ExactInput(s, group, vin)
    ensures SpendInput(s, group, vin).Some?
    ensures var h := vin.voutHash;
      Some(OrEmpty(RestoreBag(BagAt(SpendInput(s, group, vin).value, h), h, before)) + multiset{Restored(vin)})
      == if h in s then RestoreBag(BagAt(s, h), h, before)
         else Some(OrEmpty(RestoreBag(BagAt(s, h), h, before)) + multiset{Restored(vin)})
  {
    var h := vin.voutHash;
    if h in s {
      ExactSpendBag(s, group, vin);
      RestoreBagAdds(BagAt(SpendInput(s, group, vin).value, h), h, before, multiset{Restored(vin)});
    }
  }

  lemma {:induction false} SpendElsewhere(s: UtxoMap, group: int, vin: TxnInput, h: Hash)
    requires SpendInput(s, group, vin).Some? && vin.voutHash != h
    ensures BagAt(SpendInput(s, group, vin).value, h) == BagAt(s, h)
  {
  }

  /** Restoring gives every entry back, with the outputs of the unmatched inputs besides. */
  lemma {:induction false} RestoringUndoesSpending(s: UtxoMap, group: int, vins: seq<TxnInput>, h: Hash)
    requires ExactInputs(s, group, vins)
    ensures RestoreBag(BagAt(SpendInputs(s, group, vins).value, h), h, vins)
         == Plus(BagAt(s, h), Unmatched(s, group, vins), h)
    decreases |vins|
  {
    if vins != [] {
      var before, vin := vins[..|vins| - 1], vins[|vins| - 1];
      RestoringUndoesSpending(s, group, before, h);
      var s1 := SpendInputs(s, group, before).value;
      PlusAdd(BagAt(s, h), Unmatched(s, group, before), vin.voutHash, [Restored(vin)]);
      if vin.voutHash == h {
        RestoringUndoesOne(s1, group, before, vin);
      } else {
        SpendElsewhere(s1, group, vin, h);
      }
    }
  }

  /** Reversing a transaction takes away whatever lies under its hash and adds what its unmatched inputs restore. */
  lemma {:induction false} ReverseUndoesTxn(
      s: UtxoMap, group: int, t: Txn, x: UtxoMap, stale: UtxoMap)
    requires !IsCoinbase(t) && ExactInputs(s, group, t.vin) && TxnHash(t) !in s
    requires Matches(x, ApplyTxn(s, group, t).value, stale)
    ensures Matches(ReverseTxn(x, t), s, Merge(stale - {TxnHash(t)}, Unmatched(s, group, t.vin)))
  {
    var ht := TxnHash(t);
    var s', rest, more := SpendInputs(s, group, t.vin).value, stale - {ht}, Unmatched(s, group, t.vin);
    SpendingShrinks(s, group, t.vin);
    forall h ensures BagAt(ReverseTxn(x, t), h) == Plus(BagAt(s, h), Merge(rest, more), h) {
      RestoreInputsAt(x - {ht}, t.vin, h);
      assert BagAt(x, h) == Plus(BagAt(s'[ht := t.vout], h), stale, h);
      assert BagAt(x - {ht}, h) == Plus(BagAt(s', h), rest, h);
      RestorePlus(BagAt(s', h), rest, h, t.vin);
      RestoringUndoesSpending(s, group, t.vin, h);
      PlusMerge(BagAt(s, h), rest, more, h);
    }
  }

  // ----- Runs of any length -----

  lemma {:induction false} RunKeys(s: UtxoMap, group: int, known: set<Hash>, ts: seq<Txn>)
    requires ExactRun(s, group, known, ts) && s.Keys <= known
    ensures ApplyTxns(s, group, ts).value.Keys <= known + TxnHashes(ts)
    decreases |ts|
  {
    if ts != [] {
      var before, t := ts[..|ts| - 1], ts[|ts| - 1];
      RunKeys(s, group, known, before);
      SpendingShrinks(ApplyTxns(s, group, before).value, group, Spends(t));
      TxnHashesSplit(ts);
    }
  }

  /** A coinbase transaction, which `Reverse` skips, leaves its outputs behind. */
  lemma {:induction false} CoinbaseGoesStale(s: UtxoMap, t: Txn, x: UtxoMap, stale: UtxoMap)
    requires TxnHash(t) !in s && Matches(x, s[TxnHash(t) := t.vout], stale)
    ensures Matches(x, s, AddOutputs(stale, TxnHash(t), t.vout))
  {
    var ht := TxnHash(t);
    forall h ensures BagAt(x, h) == Plus(BagAt(s, h), AddOutputs(stale, ht, t.vout), h) {
      assert BagAt(x, h) == Plus(BagAt(s[ht := t.vout], h), stale, h);
      if h == ht {
        PlusAll(stale, ht, t.vout);
      }
    }
  }

  /** What is left behind when a run from `s` is reversed on a set that had `stale` besides. */
  function Leftover(s: UtxoMap, group: int, ts: seq<Txn>, stale: UtxoMap): UtxoMap
    decreases |ts|
  {
    if ts == [] then stale
    else
      var before, t := ts[..|ts| - 1], ts[|ts| - 1];
      if IsCoinbase(t) then Leftover(s, group, before, AddOutputs(stale, TxnHash(t), t.vout))
      else match ApplyTxns(s, group, before)
        case None => stale
        case Some(s1) => Leftover(s, group, before, Merge(stale - {TxnHash(t)}, Unmatched(s1, group, t.vin)))
  }

  lemma {:induction false} RunStep(s: UtxoMap, group: int, known: set<Hash>, ts: seq<Txn>)
    requires ts != [] && ExactRun(s, group, known, ts) && s.Keys <= known
    ensures ExactRun(s, group, known, ts[..|ts| - 1])
    ensures var s1, t := ApplyTxns(s, group, ts[..|ts| - 1]).value, ts[|ts| - 1];
      && ApplyTxns(s, group, ts) == ApplyTxn(s1, group, t)
      && ExactInputs(s1, group, Spends(t))
      && s1.Keys <= known + TxnHashes(ts[..|ts| - 1])
      && TxnHash(t) !in s1
  {
    RunKeys(s, group, known, ts[..|ts| - 1]);
  }

  /** Reversing an exact run gives back the old set, with exactly the leftover besides. */
  lemma {:induction false} ReverseUndoesRun(
      s: UtxoMap, group: int, known: set<Hash>, ts: seq<Txn>, x: UtxoMap, stale: UtxoMap)
    requires ExactRun(s, group, known, ts) && s.Keys <= known
    requires Matches(x, ApplyTxns(s, group, ts).value, stale)
    ensures Matches(ReverseTxns(x, ts), s, Leftover(s, group, ts, stale))
    decreases |ts|
  {
    if ts != [] {
      var before, t := ts[..|ts| - 1], ts[|ts| - 1];
      var s1 := ApplyTxns(s, group, before).value;
      RunStep(s, group, known, ts);
      if IsCoinbase(t) {
        CoinbaseGoesStale(s1, t, x, stale);
        ReverseUndoesRun(s, group, known, before, x, AddOutputs(stale, TxnHash(t), t.vout));
      } else {
        ReverseUndoesTxn(s1, group, t, x, stale);
        ReverseUndoesRun(s, group, known, before, ReverseTxn(x, t), Merge(stale - {TxnHash(t)}, Unmatched(s1, group, t.vin)));
      }
    }
  }

  // ----- Runs in which every input finds its entry -----

  /** The entries that coinbase transactions leave behind. */
  function CoinbaseEntries(ts: seq<Txn>): UtxoMap
    decreases |ts|
  {
    if ts == [] then map[]
    else
      var t := ts[|ts| - 1];
      var m := CoinbaseEntries(ts[..|ts| - 1]);
      if IsCoinbase(t) then m[TxnHash(t) := t.vout] else m
  }

  /** No input of the run is skipped. */
  ghost predicate AllFound(s: UtxoMap, group: int, ts: seq<Txn>)
    decreases |ts|
  {
    ts == [] ||
    var before, t := ts[..|ts| - 1], ts[|ts| - 1];
    && AllFound(s, group, before)
    && ApplyTxns(s, group, before).Some?
    && Unmatched(ApplyTxns(s, group, before).value, group, Spends(t)) == map[]
  }

  lemma MoveEntry<K, V>(m: map<K, V>, n: map<K, V>, k: K, v: V)
    requires k !in n
    ensures m[k := v] + n == m + n[k := v]
  {
  }

  lemma {:induction false} AddToNothing(stale: UtxoMap, h: Hash, outs: seq<TxnOutput>)
    requires h !in stale
    ensures AddOutputs(stale, h, outs) == stale[h := outs]
  {
    assert [] + outs == outs;
  }

  lemma {:induction false} MergeWithNothing(stale: UtxoMap)
    ensures Merge(stale, map[]) == stale
  {
    var merged := Merge(stale, map[]);
    assert merged.Keys == stale.Keys;
    forall g | g in stale ensures merged[g] == stale[g] {
      assert stale[g] + [] == stale[g];
    }
  }

  /** Without skipped inputs only the coinbase entries are left behind. */
  lemma {:induction false} LeftoverIsCoinbases(s: UtxoMap, group: int, known: set<Hash>, ts: seq<Txn>, stale: UtxoMap)
    requires ExactRun(s, group, known, ts) && AllFound(s, group, ts)
    requires stale.Keys !! TxnHashes(ts)
    ensures Leftover(s, group, ts, stale) == stale + CoinbaseEntries(ts)
    decreases |ts|
  {
    if ts == [] {
      assert stale + CoinbaseEntries(ts) == stale;
    } else {
      var before, t := ts[..|ts| - 1], ts[|ts| - 1];
      TxnHashesSplit(ts);
      if IsCoinbase(t) {
        AddToNothing(stale, TxnHash(t), t.vout);
        LeftoverIsCoinbases(s, group, known, before, stale[TxnHash(t) := t.vout]);
        CoinbaseKeys(before);
        MoveEntry(stale, CoinbaseEntries(before), TxnHash(t), t.vout);
      } else {
        assert stale - {TxnHash(t)} == stale;
        MergeWithNothing(stale);
        LeftoverIsCoinbases(s, group, known, before, stale);
      }
    }
  }

  lemma {:induction false} CoinbaseKeys(ts: seq<Txn>)
    ensures CoinbaseEntries(ts).Keys <= TxnHashes(ts)
    decreases |ts|
  {
    if ts != [] {
      CoinbaseKeys(ts[..|ts| - 1]);
      TxnHashesSplit(ts);
    }
  }

  // ----- Runs of blocks -----

  function Flatten(blocks: seq<Block>): seq<Txn>
    decreases |blocks|
  {
    if blocks == [] then [] else Flatten(blocks[..|blocks| - 1]) + blocks[|blocks| - 1].txns
  }

  /** Rolls the blocks back, the last one first. */
  function RollbackBlocks(s: UtxoMap, blocks: seq<Block>): UtxoMap
    decreases |blocks|
  {
    if blocks == [] then s
    else RollbackBlocks(ReverseTxns(s, blocks[|blocks| - 1].txns), blocks[..|blocks| - 1])
  }

  lemma {:induction false} ReverseConcat(s: UtxoMap, a: seq<Txn>, b: seq<Txn>)
    ensures ReverseTxns(s, a + b) == ReverseTxns(ReverseTxns(s, b), a)
    decreases |b|
  {
    if b == [] {
      assert a + b == a;
    } else {
      assert (a + b)[..|a + b| - 1] == a + b[..|b| - 1];
      ReverseConcat(ReverseTxn(s, b[|b| - 1]), a, b[..|b| - 1]);
    }
  }

  lemma {:induction false} RollbackIsReverse(s: UtxoMap, blocks: seq<Block>)
    ensures RollbackBlocks(s, blocks) == ReverseTxns(s, Flatten(blocks))
    decreases |blocks|
  {
    if blocks != [] {
      var before, b := blocks[..|blocks| - 1], blocks[|blocks| - 1];
      ReverseConcat(s, Flatten(before), b.txns);
      RollbackIsReverse(ReverseTxns(s, b.txns), before);
    }
  }

  /**
   Applying any number of blocks to a set with something stale in it, and rolling
   them all back, gives every entry of the old set back as a bag, with exactly the
   leftover besides.
   */
  lemma {:induction false} RollbackUndoesUpdates(
      s: UtxoMap, group: int, known: set<Hash>, blocks: seq<Block>, x: UtxoMap, stale: UtxoMap)
    requires s.Keys <= known && ExactRun(s, group, known, Flatten(blocks))
    requires Matches(x, ApplyTxns(s, group, Flatten(blocks)).value, stale)
    ensures Matches(RollbackBlocks(x, blocks), s, Leftover(s, group, Flatten(blocks), stale))
  {
    RollbackIsReverse(x, blocks);
    ReverseUndoesRun(s, group, known, Flatten(blocks), x, stale);
  }

  /** Where every input found its entry, exactly the coinbase entries of the blocks stay behind. */
  lemma {:induction false} RollbackLeavesCoinbases(s: UtxoMap, group: int, known: set<Hash>, blocks: seq<Block>)
    requires s.Keys <= known && ExactRun(s, group, known, Flatten(blocks)) && AllFound(s, group, Flatten(blocks))
    ensures Matches(RollbackBlocks(ApplyTxns(s, group, Flatten(blocks)).value, blocks), s, CoinbaseEntries(Flatten(blocks)))
  {
    var ts := Flatten(blocks);
    var x := ApplyTxns(s, group, ts).value;
    assert Matches(x, x, map[]);
    RollbackUndoesUpdates(s, group, known, blocks, x, map[]);
    LeftoverIsCoinbases(s, group, known, ts, map[]);
    assert map[] + CoinbaseEntries(ts) == CoinbaseEntries(ts);
  }
}
