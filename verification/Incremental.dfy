/**
 The incremental update of the UTXO set against the backward rescan it speeds up.

 `Update` removes outputs by owner key and in block order; `FindUTXO` removes them
 by output index and visits a block's transactions forwards on its way backwards
 through the chain. The theorems say exactly when the two agree.
 */
module Incremental {
  import opened Types
  import opened Ledger

  ghost predicate UniqueHashes(ts: seq<Txn>) {
    forall i, j :: 0 <= i < j < |ts| ==> TxnHash(ts[i]) != TxnHash(ts[j])
  }

  ghost predicate DistinctOwners(outs: seq<TxnOutput>) {
    forall i, j :: 0 <= i < j < |outs| ==> outs[i].pubKeyHash != outs[j].pubKeyHash
  }

  // ----- When index and key agree -----

  /** An input that names `h` carries the key of the output's owner. */
  ghost predicate Takes(vins: seq<TxnInput>, h: Hash, out: TxnOutput) {
    exists j :: 0 <= j < |vins| && vins[j].voutHash == h && IsLockedWithKey(out, vins[j].pubKey)
  }

  /** The outputs of `t` that inputs naming it remove by key. */
  ghost function TakenBy(t: Txn, vins: seq<TxnInput>): set<int> {
    set k | 0 <= k < |t.vout| && Takes(vins, TxnHash(t), t.vout[k])
  }

  /** The outputs of `t` that the transactions `ts` remove by key. */
  ghost function TakenIn(t: Txn, ts: seq<Txn>): set<int>
    decreases |ts|
  {
    if ts == [] then {} else TakenIn(t, ts[..|ts| - 1]) + TakenBy(t, Spends(ts[|ts| - 1]))
  }

  /** Of the outputs not yet spent, exactly those named by index are taken by key. */
  ghost predicate Agree(t: Txn, spent: set<int>, named: set<int>, taken: set<int>) {
    forall k :: 0 <= k < |t.vout| && k !in spent ==> (k in named <==> k in taken)
  }

  ghost predicate OldAgrees(block: seq<Txn>, past: seq<Txn>, p: nat)
    requires p < |past|
  {
    var h := TxnHash(past[p]);
    Agree(past[p], SpentIn(h, past[..p]), SpentIn(h, block), TakenIn(past[p], block))
  }

  /** An input of the transactions names `h`. */
  ghost predicate NameIt(ts: seq<Txn>, h: Hash) {
    exists i :: 0 <= i < |ts| && NamesIt(Spends(ts[i]), h)
  }

  ghost predicate NamesIt(vins: seq<TxnInput>, h: Hash) {
    exists k :: 0 <= k < |vins| && vins[k].voutHash == h
  }

  /**
   The rescan sees what is named before a transaction of the block, `Update` what is
   taken after it. A transaction without outputs leaves an empty entry until it is named.
   */
  ghost predicate NewAgrees(block: seq<Txn>, i: nat)
    requires i < |block|
  {
    var t, after := block[i], block[i + 1..];
    && Agree(t, {}, SpentIn(TxnHash(t), block[..i]), TakenIn(t, after))
    && (t.vout == [] ==> NameIt(after, TxnHash(t)))
  }

  /** Every transaction, of the chain and of the block, has its outputs named by index exactly as taken by key. */
  ghost predicate IndexAgrees(block: seq<Txn>, past: seq<Txn>) {
    && (forall p :: 0 <= p < |past| ==> OldAgrees(block, past, p))
    && (forall i :: 0 <= i < |block| ==> NewAgrees(block, i))
  }

  // ----- Removing by key, entry by entry -----

  lemma {:induction false} KeptDepends(outs: seq<TxnOutput>, i: int, s: set<int>, t: set<int>)
    requires forall k :: i <= k < i + |outs| ==> (k in s <==> k in t)
    ensures Kept(outs, i, s) == Kept(outs, i, t)
    decreases |outs|
  {
    if outs != [] {
      KeptDepends(outs[1..], i + 1, s, t);
    }
  }

  lemma {:induction false} RemainingCons(first: TxnOutput, rest: seq<TxnOutput>, key: PublicKey)
    ensures Remaining([first] + rest, key)
         == (if IsLockedWithKey(first, key) then [] else [first]) + Remaining(rest, key)
  {
    assert ([first] + rest)[1..] == rest;
  }

  /** Output `k`, for indices counted from `i`, belongs to the key. */
  predicate Owns(outs: seq<TxnOutput>, i: int, key: PublicKey, k: int) {
    i <= k < i + |outs| && IsLockedWithKey(outs[k - i], key)
  }

  function OwnedBy(outs: seq<TxnOutput>, i: int, key: PublicKey): set<int> {
    set k | i <= k < i + |outs| && Owns(outs, i, key, k)
  }

  /** Filtering by a key drops exactly the indices its owner holds, whatever was dropped before. */
  lemma {:induction false} RemainingIsKept(outs: seq<TxnOutput>, i: int, spent: set<int>, key: PublicKey)
    ensures Remaining(Kept(outs, i, spent), key) == Kept(outs, i, spent + OwnedBy(outs, i, key))
    decreases |outs|
  {
    if outs != [] {
      var rest := outs[1..];
      var kept := Kept(rest, i + 1, spent);
      RemainingIsKept(rest, i + 1, spent, key);
      RemainingCons(outs[0], kept, key);
      var all := spent + OwnedBy(outs, i, key);
      forall k | i + 1 <= k < i + 1 + |rest|
        ensures k in all <==> k in spent + OwnedBy(rest, i + 1, key)
      {
        assert outs[k - i] == rest[k - (i + 1)];
      }
      KeptDepends(rest, i + 1, all, spent + OwnedBy(rest, i + 1, key));
      assert i in OwnedBy(outs, i, key) <==> IsLockedWithKey(outs[0], key);
      assert [] + kept == kept && [] + Remaining(kept, key) == Remaining(kept, key);
    }
  }

  lemma {:induction false} TakenByNext(t: Txn, vins: seq<TxnInput>)
    requires vins != []
    ensures var vin := vins[|vins| - 1];
      TakenBy(t, vins) == TakenBy(t, vins[..|vins| - 1])
        + if vin.voutHash == TxnHash(t) then OwnedBy(t.vout, 0, vin.pubKey) else {}
  {
    var before, vin := vins[..|vins| - 1], vins[|vins| - 1];
    var last := if vin.voutHash == TxnHash(t) then OwnedBy(t.vout, 0, vin.pubKey) else {};
    forall k | 0 <= k < |t.vout|
      ensures k in TakenBy(t, vins) <==> k in TakenBy(t, before) || k in last
    {
      if Takes(before, TxnHash(t), t.vout[k]) {
        var j :| 0 <= j < |before| && before[j].voutHash == TxnHash(t) && IsLockedWithKey(t.vout[k], before[j].pubKey);
        assert vins[j] == before[j];
      }
      if Takes(vins, TxnHash(t), t.vout[k]) {
        var j :| 0 <= j < |vins| && vins[j].voutHash == TxnHash(t) && IsLockedWithKey(t.vout[k], vins[j].pubKey);
        assert j < |before| ==> before[j] == vins[j];
      }
    }
  }

  lemma {:induction false} SpendEntryKept(t: Txn, spent: set<int>, vins: seq<TxnInput>)
    ensures SpendEntry(NonEmpty(Kept(t.vout, 0, spent)), TxnHash(t), vins)
         == NonEmpty(Kept(t.vout, 0, spent + TakenBy(t, vins)))
    decreases |vins|
  {
    if vins == [] {
      assert spent + TakenBy(t, vins) == spent;
    } else {
      var before, vin := vins[..|vins| - 1], vins[|vins| - 1];
      SpendEntryKept(t, spent, before);
      TakenByNext(t, vins);
      var spent' := spent + TakenBy(t, before);
      if vin.voutHash == TxnHash(t) {
        RemainingIsKept(t.vout, 0, spent', vin.pubKey);
        assert spent + TakenBy(t, vins) == spent' + OwnedBy(t.vout, 0, vin.pubKey);
      } else {
        assert spent + TakenBy(t, vins) == spent';
      }
    }
  }

  /** Applying transactions that do not recreate `t` removes exactly the outputs of `t` they take. */
  lemma {:induction false} ApplyEntryKept(t: Txn, spent: set<int>, ts: seq<Txn>)
    requires forall i :: 0 <= i < |ts| ==> TxnHash(ts[i]) != TxnHash(t)
    ensures ApplyEntry(NonEmpty(Kept(t.vout, 0, spent)), TxnHash(t), ts)
         == NonEmpty(Kept(t.vout, 0, spent + TakenIn(t, ts)))
    decreases |ts|
  {
    if ts == [] {
      assert spent + TakenIn(t, ts) == spent;
    } else {
      var before, last := ts[..|ts| - 1], ts[|ts| - 1];
      ApplyEntryKept(t, spent, before);
      SpendEntryKept(t, spent + TakenIn(t, before), Spends(last));
      assert spent + TakenIn(t, ts) == spent + TakenIn(t, before) + TakenBy(t, Spends(last));
    }
  }

  lemma {:induction false} AbsentEntryStaysAbsent(h: Hash, ts: seq<Txn>)
    requires forall i :: 0 <= i < |ts| ==> TxnHash(ts[i]) != h
    ensures ApplyEntry(None, h, ts) == None
    decreases |ts|
  {
    if ts != [] {
      AbsentEntryStaysAbsent(h, ts[..|ts| - 1]);
      SpendNothing(h, Spends(ts[|ts| - 1]));
    }
  }

  lemma {:induction false} SpendNothing(h: Hash, vins: seq<TxnInput>)
    ensures SpendEntry(None, h, vins) == None
    decreases |vins|
  {
    if vins != [] {
      SpendNothing(h, vins[..|vins| - 1]);
    }
  }

  lemma {:induction false} ApplyEntryUpTo(block: seq<Txn>, i: nat, e: Option<seq<TxnOutput>>)
    requires i < |block|
    ensures ApplyEntry(e, TxnHash(block[i]), block[..i + 1]) == Some(block[i].vout)
  {
    var upTo := block[..i + 1];
    assert upTo[|upTo| - 1] == block[i];
  }

  lemma {:induction false} LaterDiffer(block: seq<Txn>, i: nat, after: seq<Txn>)
    requires i < |block| && UniqueHashes(block) && after == block[i + 1..]
    ensures forall k :: 0 <= k < |after| ==> TxnHash(after[k]) != TxnHash(block[i])
  {
    forall k | 0 <= k < |after| ensures TxnHash(after[k]) != TxnHash(block[i]) {
      assert after[k] == block[i + 1 + k];
    }
  }

  /** The entry of a transaction of the block is its outputs, changed by what comes after it. */
  lemma {:induction false} ApplyEntryFrom(block: seq<Txn>, i: nat, e: Option<seq<TxnOutput>>)
    requires i < |block|
    ensures ApplyEntry(e, TxnHash(block[i]), block) == ApplyEntry(Some(block[i].vout), TxnHash(block[i]), block[i + 1..])
  {
    var upTo, after := block[..i + 1], block[i + 1..];
    assert block == upTo + after;
    ApplyEntryConcat(e, TxnHash(block[i]), upTo, after);
    ApplyEntryUpTo(block, i, e);
  }

  /** The entry of a transaction of the block ends as its outputs less those taken after it. */
  lemma {:induction false} ApplyEntryOfBlock(block: seq<Txn>, i: nat, e: Option<seq<TxnOutput>>)
    requires i < |block| && UniqueHashes(block) && block[i].vout != []
    ensures ApplyEntry(e, TxnHash(block[i]), block)
         == NonEmpty(Kept(block[i].vout, 0, TakenIn(block[i], block[i + 1..])))
  {
    var t, after := block[i], block[i + 1..];
    ApplyEntryFrom(block, i, e);
    KeptAll(t.vout, 0);
    LaterDiffer(block, i, after);
    ApplyEntryKept(t, {}, after);
    assert {} + TakenIn(t, after) == TakenIn(t, after);
  }

  lemma {:induction false} SpendEmpty(h: Hash, vins: seq<TxnInput>)
    ensures SpendEntry(Some([]), h, vins) == if NamesIt(vins, h) then None else Some([])
    decreases |vins|
  {
    if vins != [] {
      var before, vin := vins[..|vins| - 1], vins[|vins| - 1];
      SpendEmpty(h, before);
      if NamesIt(before, h) {
        var k :| 0 <= k < |before| && before[k].voutHash == h;
        assert vins[k].voutHash == h;
      }
      assert NamesIt(vins, h) <==> NamesIt(before, h) || vin.voutHash == h;
    }
  }

  lemma {:induction false} NameItNext(ts: seq<Txn>, h: Hash)
    requires ts != []
    ensures NameIt(ts, h) <==> NameIt(ts[..|ts| - 1], h) || NamesIt(Spends(ts[|ts| - 1]), h)
  {
    var before := ts[..|ts| - 1];
    if NameIt(before, h) {
      var i :| 0 <= i < |before| && NamesIt(Spends(before[i]), h);
      assert NamesIt(Spends(ts[i]), h);
    }
    if NameIt(ts, h) {
      var i :| 0 <= i < |ts| && NamesIt(Spends(ts[i]), h);
      assert i < |before| ==> NamesIt(Spends(before[i]), h);
    }
  }

  /** An empty entry stays until an input names it. */
  lemma {:induction false} ApplyToEmpty(h: Hash, ts: seq<Txn>)
    requires forall i :: 0 <= i < |ts| ==> TxnHash(ts[i]) != h
    ensures ApplyEntry(Some([]), h, ts) == if NameIt(ts, h) then None else Some([])
    decreases |ts|
  {
    if ts != [] {
      ApplyToEmpty(h, ts[..|ts| - 1]);
      NameItNext(ts, h);
      SpendEmpty(h, Spends(ts[|ts| - 1]));
      SpendNothing(h, Spends(ts[|ts| - 1]));
    }
  }

  lemma {:induction false} KeptAll(outs: seq<TxnOutput>, i: int)
    ensures Kept(outs, i, {}) == outs
    decreases |outs|
  {
    if outs != [] {
      KeptAll(outs[1..], i + 1);
    }
  }

  lemma {:induction false} ApplyEntryConcat(e: Option<seq<TxnOutput>>, h: Hash, a: seq<Txn>, b: seq<Txn>)
    ensures ApplyEntry(e, h, a + b) == ApplyEntry(ApplyEntry(e, h, a), h, b)
    decreases |b|
  {
    if b == [] {
      assert a + b == a;
    } else {
      var b' := b[..|b| - 1];
      assert (a + b)[..|a + b| - 1] == a + b';
      ApplyEntryConcat(e, h, a, b');
    }
  }

  // ----- The scan, entry by entry -----

  lemma {:induction false} SpentInConcat(h: Hash, a: seq<Txn>, b: seq<Txn>)
    ensures SpentIn(h, a + b) == SpentIn(h, a) + SpentIn(h, b)
    decreases |b|
  {
    if b == [] {
      assert a + b == a;
    } else {
      var b' := b[..|b| - 1];
      assert (a + b)[..|a + b| - 1] == a + b';
      SpentInConcat(h, a, b');
    }
  }

  lemma {:induction false} ScanOfStranger(ts: seq<Txn>, h: Hash)
    requires forall i :: 0 <= i < |ts| ==> TxnHash(ts[i]) != h
    ensures Get(Scan(ts), h) == None
    decreases |ts|
  {
    if ts != [] {
      ScanOfStranger(ts[..|ts| - 1], h);
    }
  }

  /** The scan gives a transaction its outputs less those named by what was visited before it. */
  lemma {:induction false} ScanAt(ts: seq<Txn>, i: nat)
    requires i < |ts| && UniqueHashes(ts)
    ensures Get(Scan(ts), TxnHash(ts[i]))
         == NonEmpty(Kept(ts[i].vout, 0, SpentIn(TxnHash(ts[i]), ts[..i])))
    decreases |ts|
  {
    var before := ts[..|ts| - 1];
    if i == |ts| - 1 {
      ScanOfStranger(before, TxnHash(ts[i]));
      var kept := Kept(ts[i].vout, 0, SpentIn(TxnHash(ts[i]), before));
      assert [] + kept == kept;
    } else {
      ScanAt(before, i);
      assert before[..i] == ts[..i];
    }
  }

  lemma {:induction false} KeptMembers(outs: seq<TxnOutput>, i: int, s: set<int>)
    ensures forall o :: o in Kept(outs, i, s) ==> o in outs
    decreases |outs|
  {
    if outs != [] {
      KeptMembers(outs[1..], i + 1, s);
    }
  }

  /** Index `j`, counted from `i`, holds the output `o`. */
  predicate HoldsAt(outs: seq<TxnOutput>, i: int, j: int, o: TxnOutput) {
    i <= j < i + |outs| && outs[j - i] == o
  }

  /** Every index of `o` in `s` is in `t`. */
  ghost predicate Within(outs: seq<TxnOutput>, i: int, o: TxnOutput, s: set<int>, t: set<int>) {
    forall j {:trigger HoldsAt(outs, i, j, o)} :: HoldsAt(outs, i, j, o) && j in s ==> j in t
  }

  lemma {:induction false} WithinRest(outs: seq<TxnOutput>, i: int, o: TxnOutput, s: set<int>, t: set<int>)
    requires outs != [] && Within(outs, i, o, s, t)
    ensures Within(outs[1..], i + 1, o, s, t)
  {
    forall j {:trigger HoldsAt(outs[1..], i + 1, j, o)} | HoldsAt(outs[1..], i + 1, j, o) && j in s ensures j in t {
      assert HoldsAt(outs, i, j, o);
    }
  }

  /** Dropping more of the indices of an output leaves no more copies of it. */
  lemma {:induction false} KeptNoMore(outs: seq<TxnOutput>, i: int, s: set<int>, t: set<int>, o: TxnOutput)
    requires Within(outs, i, o, s, t)
    ensures multiset(Kept(outs, i, t))[o] <= multiset(Kept(outs, i, s))[o]
    decreases |outs|
  {
    if outs != [] {
      WithinRest(outs, i, o, s, t);
      KeptNoMore(outs[1..], i + 1, s, t, o);
      assert outs[0] == o ==> HoldsAt(outs, i, i, o);
    }
  }

  lemma {:induction false} KeptFewer(outs: seq<TxnOutput>, i: int, s: set<int>, t: set<int>, k: int, o: TxnOutput)
    requires Within(outs, i, o, s, t) && HoldsAt(outs, i, k, o) && k in t && k !in s
    ensures multiset(Kept(outs, i, t))[o] < multiset(Kept(outs, i, s))[o]
    decreases |outs|
  {
    WithinRest(outs, i, o, s, t);
    assert outs[0] == o ==> HoldsAt(outs, i, i, o);
    if k == i {
      KeptNoMore(outs[1..], i + 1, s, t, o);
    } else {
      assert HoldsAt(outs[1..], i + 1, k, o);
      KeptFewer(outs[1..], i + 1, s, t, k, o);
    }
  }

  /** The set holds all indices of an output or none. */
  ghost predicate AllOrNone(outs: seq<TxnOutput>, taken: set<int>) {
    forall k, l :: 0 <= k < |outs| && 0 <= l < |outs| && outs[k] == outs[l] && k in taken ==> l in taken
  }

  /** A key takes all copies of an output or none. */
  lemma {:induction false} TakenAllOrNone(t: Txn, ts: seq<Txn>)
    ensures AllOrNone(t.vout, TakenIn(t, ts))
    decreases |ts|
  {
    if ts != [] {
      TakenAllOrNone(t, ts[..|ts| - 1]);
    }
  }

  lemma {:induction false} KeptTellsApart(outs: seq<TxnOutput>, s: set<int>, t: set<int>, k: nat)
    requires k < |outs| && k in t && k !in s && Within(outs, 0, outs[k], s, t)
    ensures Kept(outs, 0, s) != Kept(outs, 0, t)
  {
    assert HoldsAt(outs, 0, k, outs[k]);
    KeptFewer(outs, 0, s, t, k, outs[k]);
  }

  /** Dropping named indices or taken ones leaves the same outputs exactly when the two agree. */
  lemma {:induction false} KeptAgree(t: Txn, spent: set<int>, named: set<int>, taken: set<int>)
    requires AllOrNone(t.vout, taken)
    ensures NonEmpty(Kept(t.vout, 0, spent + named)) == NonEmpty(Kept(t.vout, 0, spent + taken))
       <==> Agree(t, spent, named, taken)
  {
    if Agree(t, spent, named, taken) {
      KeptDepends(t.vout, 0, spent + named, spent + taken);
    } else {
      var k :| 0 <= k < |t.vout| && k !in spent && (k in named <==> k !in taken);
      if k in taken {
        KeptTellsApart(t.vout, spent + named, spent + taken, k);
      } else {
        KeptTellsApart(t.vout, spent + taken, spent + named, k);
      }
    }
  }

  // ----- The theorems -----

  lemma {:induction false} OldTransaction(block: seq<Txn>, past: seq<Txn>, p: nat)
    requires UniqueHashes(block + past) && p < |past|
    ensures forall i :: 0 <= i < |block| ==> TxnHash(block[i]) != TxnHash(past[p])
  {
    var all := block + past;
    assert all[|block| + p] == past[p];
    forall i | 0 <= i < |block| ensures TxnHash(block[i]) != TxnHash(past[p]) {
      assert all[i] == block[i];
    }
  }

  lemma {:induction false} UniquePast(block: seq<Txn>, past: seq<Txn>)
    requires UniqueHashes(block + past)
    ensures UniqueHashes(past)
  {
    assert past == (block + past)[|block|..];
  }

  lemma {:induction false} ScanOfOld(block: seq<Txn>, past: seq<Txn>, p: nat)
    requires UniqueHashes(block + past) && p < |past|
    ensures Get(Scan(block + past), TxnHash(past[p]))
         == NonEmpty(Kept(past[p].vout, 0, SpentIn(TxnHash(past[p]), past[..p]) + SpentIn(TxnHash(past[p]), block)))
  {
    var h := TxnHash(past[p]);
    var all := block + past;
    var q := |block| + p;
    assert all[q] == past[p];
    ScanAt(all, q);
    assert all[..q] == block + past[..p];
    SpentInConcat(h, block, past[..p]);
    assert SpentIn(h, past[..p]) + SpentIn(h, block) == SpentIn(h, all[..q]);
  }

  /** An entry of the old chain agrees exactly when of its unspent outputs those named are those taken. */
  lemma {:induction false} OldEntryAgrees(block: seq<Txn>, past: seq<Txn>, p: nat)
    requires UniqueHashes(block + past) && p < |past|
    ensures ApplyEntry(Get(Scan(past), TxnHash(past[p])), TxnHash(past[p]), block)
         == Get(Scan(block + past), TxnHash(past[p]))
       <==> OldAgrees(block, past, p)
  {
    var t := past[p];
    var h := TxnHash(t);
    var spent := SpentIn(h, past[..p]);
    ScanOfOld(block, past, p);
    OldTransaction(block, past, p);
    UniquePast(block, past);
    ScanAt(past, p);
    ApplyEntryKept(t, spent, block);
    TakenAllOrNone(t, block);
    KeptAgree(t, spent, SpentIn(h, block), TakenIn(t, block));
  }

  lemma {:induction false} ScanOfNew(block: seq<Txn>, past: seq<Txn>, i: nat)
    requires UniqueHashes(block + past) && i < |block|
    ensures Get(Scan(block + past), TxnHash(block[i]))
         == NonEmpty(Kept(block[i].vout, 0, SpentIn(TxnHash(block[i]), block[..i])))
  {
    var all := block + past;
    assert all[i] == block[i] && all[..i] == block[..i];
    ScanAt(all, i);
  }

  lemma {:induction false} UniqueBlock(block: seq<Txn>, past: seq<Txn>)
    requires UniqueHashes(block + past)
    ensures UniqueHashes(block)
  {
    assert block == (block + past)[..|block|];
  }

  /** An entry of the block agrees exactly when the outputs named before it are those taken after it. */
  lemma {:induction false} NewEntryAgrees(block: seq<Txn>, past: seq<Txn>, i: nat)
    requires UniqueHashes(block + past) && i < |block|
    ensures ApplyEntry(Get(Scan(past), TxnHash(block[i])), TxnHash(block[i]), block)
         == Get(Scan(block + past), TxnHash(block[i]))
       <==> NewAgrees(block, i)
  {
    var t, after := block[i], block[i + 1..];
    UniqueBlock(block, past);
    ScanOfNew(block, past, i);
    if t.vout == [] {
      ApplyEntryFrom(block, i, Get(Scan(past), TxnHash(t)));
      LaterDiffer(block, i, after);
      ApplyToEmpty(TxnHash(t), after);
    } else {
      ApplyEntryOfBlock(block, i, Get(Scan(past), TxnHash(t)));
      var named, taken := SpentIn(TxnHash(t), block[..i]), TakenIn(t, after);
      assert {} + named == named && {} + taken == taken;
      TakenAllOrNone(t, after);
      KeptAgree(t, {}, named, taken);
    }
  }

  lemma {:induction false} StrangerAgrees(block: seq<Txn>, past: seq<Txn>, h: Hash)
    requires forall i :: 0 <= i < |block + past| ==> TxnHash((block + past)[i]) != h
    ensures ApplyEntry(Get(Scan(past), h), h, block) == Get(Scan(block + past), h) == None
  {
    var all := block + past;
    assert forall i :: 0 <= i < |block| ==> all[i] == block[i];
    assert forall i :: 0 <= i < |past| ==> all[|block| + i] == past[i];
    ScanOfStranger(past, h);
    ScanOfStranger(all, h);
    AbsentEntryStaysAbsent(h, block);
  }

  lemma {:induction false} MapsEqual(a: UtxoMap, b: UtxoMap)
    requires forall h :: Get(a, h) == Get(b, h)
    ensures a == b
  {
    forall h ensures h in a <==> h in b {
      assert Get(a, h) == Get(b, h);
    }
    forall h | h in a ensures a[h] == b[h] {
      assert Get(a, h) == Get(b, h);
    }
  }

  lemma {:induction false} EveryEntryAgrees(block: seq<Txn>, past: seq<Txn>, h: Hash)
    requires UniqueHashes(block + past) && IndexAgrees(block, past)
    ensures ApplyEntry(Get(Scan(past), h), h, block) == Get(Scan(block + past), h)
  {
    var all := block + past;
    if i :| 0 <= i < |block| && TxnHash(block[i]) == h {
      NewEntryAgrees(block, past, i);
    } else if p :| 0 <= p < |past| && TxnHash(past[p]) == h {
      OldEntryAgrees(block, past, p);
    } else {
      StrangerAgrees(block, past, h);
    }
  }

  /**
   Updating the rescanned set of the old chain with a block gives the rescanned set
   of the new chain if and only if every output is named by index exactly as it is
   taken by key.
   */
  lemma {:induction false} UpdateAgreesWithRescan(group: int, block: seq<Txn>, past: seq<Txn>, s: UtxoMap)
    requires UniqueHashes(block + past) && ApplyTxns(Scan(past), group, block) == Some(s)
    ensures s == Scan(block + past) <==> IndexAgrees(block, past)
  {
    var r := Scan(block + past);
    forall h ensures Get(s, h) == ApplyEntry(Get(Scan(past), h), h, block) {
      ApplyTxnsAt(Scan(past), group, block, h);
    }
    if IndexAgrees(block, past) {
      forall h ensures Get(s, h) == Get(r, h) {
        EveryEntryAgrees(block, past, h);
      }
      MapsEqual(s, r);
    }
    if s == r {
      forall p | 0 <= p < |past| ensures OldAgrees(block, past, p) {
        OldEntryAgrees(block, past, p);
      }
      forall i | 0 <= i < |block| ensures NewAgrees(block, i) {
        NewEntryAgrees(block, past, i);
      }
    }
  }

  // ----- Inputs that carry the key of the output they name -----

  /** The input, if it names an output of `t`, carries the key of that output's owner. */
  ghost predicate KeyedBy(vin: TxnInput, t: Txn) {
    vin.voutHash == TxnHash(t) ==>
      && 0 <= vin.voutIndex < |t.vout|
      && IsLockedWithKey(t.vout[vin.voutIndex], vin.pubKey)
  }

  ghost predicate AllKeyedBy(ts: seq<Txn>, t: Txn) {
    forall i, j :: 0 <= i < |ts| && 0 <= j < |Spends(ts[i])| ==> KeyedBy(Spends(ts[i])[j], t)
  }

  ghost predicate Keyed(ts: seq<Txn>, targets: seq<Txn>) {
    forall k :: 0 <= k < |targets| ==> AllKeyedBy(ts, targets[k])
  }

  /** A block of keyed inputs on a chain whose visit order is `past`. */
  ghost predicate WellKeyed(block: seq<Txn>, past: seq<Txn>) {
    UniqueHashes(block + past) && Keyed(block, block + past)
  }

  /** One of the named outputs has the owner of output `l`. */
  ghost predicate OwnerNamed(t: Txn, named: set<int>, l: nat)
    requires l < |t.vout|
  {
    exists k {:trigger k in named} :: k in named && 0 <= k < |t.vout| && t.vout[k].pubKeyHash == t.vout[l].pubKeyHash
  }

  /** Keyed inputs take what they name, and whatever else its owner has there. */
  lemma {:induction false} KeyedTakesOwner(t: Txn, vins: seq<TxnInput>, l: nat)
    requires l < |t.vout| && forall j :: 0 <= j < |vins| ==> KeyedBy(vins[j], t)
    ensures l in TakenBy(t, vins) <==> OwnerNamed(t, NamedBy(TxnHash(t), vins), l)
  {
    var h := TxnHash(t);
    var named := NamedBy(h, vins);
    if l in TakenBy(t, vins) {
      var j :| 0 <= j < |vins| && vins[j].voutHash == h && IsLockedWithKey(t.vout[l], vins[j].pubKey);
      assert KeyedBy(vins[j], t);
      assert vins[j].voutIndex in named;
    }
    if OwnerNamed(t, named, l) {
      var k :| k in named && 0 <= k < |t.vout| && t.vout[k].pubKeyHash == t.vout[l].pubKeyHash;
      var j :| 0 <= j < |vins| && vins[j].voutHash == h && vins[j].voutIndex == k;
      assert KeyedBy(vins[j], t);
      assert Takes(vins, h, t.vout[l]);
    }
  }

  lemma {:induction false} OwnerNamedUnion(t: Txn, a: set<int>, b: set<int>, l: nat)
    requires l < |t.vout|
    ensures OwnerNamed(t, a + b, l) <==> OwnerNamed(t, a, l) || OwnerNamed(t, b, l)
  {
    if OwnerNamed(t, a, l) {
      var k :| k in a && 0 <= k < |t.vout| && t.vout[k].pubKeyHash == t.vout[l].pubKeyHash;
      assert k in a + b;
    }
    if OwnerNamed(t, b, l) {
      var k :| k in b && 0 <= k < |t.vout| && t.vout[k].pubKeyHash == t.vout[l].pubKeyHash;
      assert k in a + b;
    }
  }

  lemma {:induction false} KeyedTakesOwners(t: Txn, ts: seq<Txn>, l: nat)
    requires l < |t.vout| && AllKeyedBy(ts, t)
    ensures l in TakenIn(t, ts) <==> OwnerNamed(t, SpentIn(TxnHash(t), ts), l)
    decreases |ts|
  {
    if ts != [] {
      var before, last := ts[..|ts| - 1], ts[|ts| - 1];
      KeyedTakesOwners(t, before, l);
      KeyedTakesOwner(t, Spends(last), l);
      OwnerNamedUnion(t, SpentIn(TxnHash(t), before), NamedBy(TxnHash(t), Spends(last)), l);
    }
  }

  /** If one unspent output of an owner is named, then all of them are. */
  ghost predicate OwnersWhole(t: Txn, spent: set<int>, named: set<int>) {
    forall l :: 0 <= l < |t.vout| && l !in spent && OwnerNamed(t, named, l) ==> l in named
  }

  ghost predicate OwnersWholeAt(block: seq<Txn>, past: seq<Txn>, p: nat)
    requires p < |past|
  {
    var h := TxnHash(past[p]);
    OwnersWhole(past[p], SpentIn(h, past[..p]), SpentIn(h, block))
  }

  /** The block names all unspent outputs of an owner in an old transaction, or none. */
  ghost predicate AllOwnersWhole(block: seq<Txn>, past: seq<Txn>) {
    forall p :: 0 <= p < |past| ==> OwnersWholeAt(block, past, p)
  }

  /**
   Every transaction of the block has outputs, and an output is named earlier in the
   block exactly when one of the same owner is named later in it.
   */
  ghost predicate RefsAgree(block: seq<Txn>) {
    forall i :: 0 <= i < |block| ==> RefsAgreeAt(block[i], block[..i], block[i + 1..])
  }

  ghost predicate RefsAgreeAt(t: Txn, before: seq<Txn>, after: seq<Txn>) {
    t.vout != [] && forall k {:trigger t.vout[k]} :: 0 <= k < |t.vout| ==>
      (k in SpentIn(TxnHash(t), before) <==> OwnerNamed(t, SpentIn(TxnHash(t), after), k))
  }

  lemma {:induction false} KeyedOldAgrees(block: seq<Txn>, past: seq<Txn>, p: nat)
    requires WellKeyed(block, past) && p < |past|
    ensures OldAgrees(block, past, p) <==> OwnersWholeAt(block, past, p)
  {
    var all, t := block + past, past[p];
    assert all[|block| + p] == t;
    var named := SpentIn(TxnHash(t), block);
    forall l | 0 <= l < |t.vout|
      ensures l in TakenIn(t, block) <==> OwnerNamed(t, named, l)
      ensures l in named ==> OwnerNamed(t, named, l)
    {
      KeyedTakesOwners(t, block, l);
    }
  }

  lemma {:induction false} KeyedNamesOutputs(t: Txn, ts: seq<Txn>)
    requires t.vout == [] && AllKeyedBy(ts, t)
    ensures !NameIt(ts, TxnHash(t))
  {
    forall i | 0 <= i < |ts| ensures !NamesIt(Spends(ts[i]), TxnHash(t)) {
      forall k | 0 <= k < |Spends(ts[i])| ensures Spends(ts[i])[k].voutHash != TxnHash(t) {
        assert KeyedBy(Spends(ts[i])[k], t);
      }
    }
  }

  lemma {:induction false} KeyedNewAgrees(block: seq<Txn>, past: seq<Txn>, i: nat)
    requires WellKeyed(block, past) && i < |block|
    ensures NewAgrees(block, i) <==> RefsAgreeAt(block[i], block[..i], block[i + 1..])
  {
    var all, t, after := block + past, block[i], block[i + 1..];
    assert all[i] == t;
    assert AllKeyedBy(block, all[i]);
    assert AllKeyedBy(after, t);
    if t.vout == [] {
      KeyedNamesOutputs(t, after);
    }
    forall k | 0 <= k < |t.vout| ensures k in TakenIn(t, after) <==> OwnerNamed(t, SpentIn(TxnHash(t), after), k) {
      KeyedTakesOwners(t, after, k);
    }
  }

  /** With keyed inputs, indices and keys agree exactly when owners are spent whole and the references inside agree. */
  lemma {:induction false} KeyedAgreement(block: seq<Txn>, past: seq<Txn>)
    requires WellKeyed(block, past)
    ensures IndexAgrees(block, past) <==> AllOwnersWhole(block, past) && RefsAgree(block)
  {
    forall p | 0 <= p < |past| ensures OldAgrees(block, past, p) <==> OwnersWholeAt(block, past, p) {
      KeyedOldAgrees(block, past, p);
    }
    forall i | 0 <= i < |block|
      ensures NewAgrees(block, i) <==> RefsAgreeAt(block[i], block[..i], block[i + 1..])
    {
      KeyedNewAgrees(block, past, i);
    }
  }

  /** Where the outputs of a transaction have different owners, they are spent whole. */
  lemma {:induction false} DifferentOwnersAreWhole(t: Txn, spent: set<int>, named: set<int>)
    requires DistinctOwners(t.vout)
    ensures OwnersWhole(t, spent, named)
  {
    forall l | 0 <= l < |t.vout| && OwnerNamed(t, named, l) ensures l in named {
      var k :| k in named && 0 <= k < |t.vout| && t.vout[k].pubKeyHash == t.vout[l].pubKeyHash;
      assert k == l;
    }
  }

  // ----- References inside the block -----

  /** No transaction of the block refers to another one of the block. */
  ghost predicate NoReferencesInside(block: seq<Txn>) {
    forall i, j, k :: 0 <= i < |block| && 0 <= j < |block| && i != j && 0 <= k < |Spends(block[i])| ==>
      Spends(block[i])[k].voutHash != TxnHash(block[j])
  }

  /** No transaction of the block refers to a later one, as in every topological order. */
  ghost predicate NamesOnlyEarlier(block: seq<Txn>) {
    forall i, j, k :: 0 <= i < j < |block| && 0 <= k < |Spends(block[i])| ==>
      Spends(block[i])[k].voutHash != TxnHash(block[j])
  }

  ghost predicate HaveOutputs(block: seq<Txn>) {
    forall i :: 0 <= i < |block| ==> block[i].vout != []
  }

  lemma {:induction false} NotSpentInside(h: Hash, ts: seq<Txn>)
    requires forall i, k :: 0 <= i < |ts| && 0 <= k < |Spends(ts[i])| ==> Spends(ts[i])[k].voutHash != h
    ensures SpentIn(h, ts) == {}
    decreases |ts|
  {
    if ts != [] {
      NotSpentInside(h, ts[..|ts| - 1]);
      assert NamedBy(h, Spends(ts[|ts| - 1])) == {};
    }
  }

  /** A block without references inside it always agrees. */
  lemma {:induction false} NoReferencesAgree(block: seq<Txn>)
    requires NoReferencesInside(block) && HaveOutputs(block)
    ensures RefsAgree(block)
  {
    forall i | 0 <= i < |block| ensures RefsAgreeAt(block[i], block[..i], block[i + 1..]) {
      NotSpentInside(TxnHash(block[i]), block[..i]);
      NotSpentInside(TxnHash(block[i]), block[i + 1..]);
      assert forall l :: 0 <= l < |block[i].vout| ==> !OwnerNamed(block[i], {}, l);
    }
  }

  lemma {:induction false} SpentInMember(h: Hash, ts: seq<Txn>, i: nat, k: nat)
    requires i < |ts| && k < |Spends(ts[i])| && Spends(ts[i])[k].voutHash == h
    ensures Spends(ts[i])[k].voutIndex in SpentIn(h, ts)
    decreases |ts|
  {
    if i < |ts| - 1 {
      SpentInMember(h, ts[..|ts| - 1], i, k);
    }
  }

  /** In a block in order, an output spent inside the block is spent after it and never named before it. */
  lemma {:induction false} ReferenceDisagrees(block: seq<Txn>, past: seq<Txn>, i: nat, j: nat, k: nat)
    requires WellKeyed(block, past) && NamesOnlyEarlier(block)
    requires i < |block| && j < |block| && i != j && k < |Spends(block[i])|
    requires Spends(block[i])[k].voutHash == TxnHash(block[j])
    ensures !RefsAgreeAt(block[j], block[..j], block[j + 1..])
  {
    var h, t, after := TxnHash(block[j]), block[j], block[j + 1..];
    assert j < i;
    assert after[i - j - 1] == block[i];
    SpentInMember(h, after, i - j - 1, k);
    NotSpentInside(h, block[..j]);
    assert (block + past)[j] == t;
    var vin := Spends(block[i])[k];
    assert KeyedBy(vin, t);
    assert OwnerNamed(t, SpentIn(h, after), vin.voutIndex);
    assert t.vout[vin.voutIndex] == t.vout[vin.voutIndex];
  }

  /** In a block in order, references agree exactly when there are none and nothing is without outputs. */
  lemma {:induction false} OrderedRefsAgree(block: seq<Txn>, past: seq<Txn>)
    requires WellKeyed(block, past) && NamesOnlyEarlier(block)
    ensures RefsAgree(block) <==> NoReferencesInside(block) && HaveOutputs(block)
  {
    if NoReferencesInside(block) && HaveOutputs(block) {
      NoReferencesAgree(block);
    }
    if RefsAgree(block) {
      forall i, j, k | 0 <= i < |block| && 0 <= j < |block| && i != j && 0 <= k < |Spends(block[i])|
        ensures Spends(block[i])[k].voutHash != TxnHash(block[j])
      {
        assert RefsAgreeAt(block[j], block[..j], block[j + 1..]);
        if Spends(block[i])[k].voutHash == TxnHash(block[j]) {
          ReferenceDisagrees(block, past, i, j, k);
        }
      }
      forall i | 0 <= i < |block| ensures block[i].vout != [] {
        assert RefsAgreeAt(block[i], block[..i], block[i + 1..]);
      }
    }
  }
}
