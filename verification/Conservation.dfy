/** The total value in the UTXO set over whole runs of `Update`. */
module Conservation {
  import opened Types
  import opened Ledger
  import opened Rollback

  function OutputValue(outs: seq<TxnOutput>): int {
    if outs == [] then 0 else outs[0].value + OutputValue(outs[1..])
  }

  function InputValue(vins: seq<TxnInput>): int
    decreases |vins|
  {
    if vins == [] then 0 else InputValue(vins[..|vins| - 1]) + vins[|vins| - 1].voutValue
  }

  /** The recorded values of the inputs add up to the outputs. */
  predicate Balanced(t: Txn) {
    InputValue(t.vin) == OutputValue(t.vout)
  }

  ghost function Total(s: UtxoMap): int
    decreases |s|
  {
    if s == map[] then 0 else var h :| h in s; OutputValue(s[h]) + Total(s - {h})
  }

  /** The value minted by the coinbase transactions of a run. */
  function Minted(ts: seq<Txn>): int
    decreases |ts|
  {
    if ts == [] then 0
    else Minted(ts[..|ts| - 1]) + if IsCoinbase(ts[|ts| - 1]) then OutputValue(ts[|ts| - 1].vout) else 0
  }

  // ----- Sums -----

  lemma {:induction false} OutputValueConcat(a: seq<TxnOutput>, b: seq<TxnOutput>)
    ensures OutputValue(a + b) == OutputValue(a) + OutputValue(b)
    decreases |a|
  {
    if a == [] {
      assert a + b == b;
    } else {
      assert (a + b)[1..] == a[1..] + b;
      OutputValueConcat(a[1..], b);
    }
  }

  /** Any entry may be taken out of the sum first. */
  lemma {:induction false} TotalWithout(s: UtxoMap, k: Hash)
    requires k in s
    ensures Total(s) == OutputValue(s[k]) + Total(s - {k})
    decreases |s|
  {
    var h :| h in s && Total(s) == OutputValue(s[h]) + Total(s - {h});
    if h != k {
      TotalWithout(s - {h}, k);
      TotalWithout(s - {k}, h);
      assert s - {h} - {k} == s - {k} - {h};
    }
  }

  lemma {:induction false} TotalPut(s: UtxoMap, k: Hash, outs: seq<TxnOutput>)
    requires k !in s
    ensures Total(s[k := outs]) == Total(s) + OutputValue(outs)
  {
    TotalWithout(s[k := outs], k);
    assert s[k := outs] - {k} == s;
  }

  // ----- Steps -----

  lemma {:induction false} SpendTakesValue(s: UtxoMap, group: int, vin: TxnInput)
    requires vin.voutHash in s && ExactSpend(s[vin.voutHash], vin)
    ensures Total(SpendInput(s, group, vin).value) == Total(s) - vin.voutValue
  {
    var h := vin.voutHash;
    var outs := s[h];
    var i :| 0 <= i < |outs| && ExactSpendAt(outs, vin, i);
    ExactSpendRemoves(outs, vin, i);
    TakeOut(outs, i);
    TotalWithout(s, h);
    var rest := Remaining(outs, vin.pubKey);
    if rest != [] {
      TotalPut(s - {h}, h, rest);
      assert (s - {h})[h := rest] == s[h := rest];
    }
  }

  lemma {:induction false} TakeOut(outs: seq<TxnOutput>, i: nat)
    requires i < |outs|
    ensures OutputValue(outs) == OutputValue(outs[..i] + outs[i + 1..]) + outs[i].value
  {
    assert outs == outs[..i] + ([outs[i]] + outs[i + 1..]);
    OutputValueConcat(outs[..i], [outs[i]] + outs[i + 1..]);
    OutputValueConcat([outs[i]], outs[i + 1..]);
    OutputValueConcat(outs[..i], outs[i + 1..]);
    assert OutputValue([outs[i]]) == outs[i].value;
  }

  /** The recorded value of the inputs that find no entry: it comes from another group. */
  function SkippedValue(s: UtxoMap, group: int, vins: seq<TxnInput>): int
    decreases |vins|
  {
    if vins == [] then 0
    else
      var before, vin := vins[..|vins| - 1], vins[|vins| - 1];
      var v := SkippedValue(s, group, before);
      match SpendInputs(s, group, before)
      case None => v
      case Some(s1) => if vin.voutHash in s1 then v else v + vin.voutValue
  }

  /** The value a run brings in from other groups. */
  function Imported(s: UtxoMap, group: int, ts: seq<Txn>): int
    decreases |ts|
  {
    if ts == [] then 0
    else
      var before, t := ts[..|ts| - 1], ts[|ts| - 1];
      var v := Imported(s, group, before);
      match ApplyTxns(s, group, before)
      case None => v
      case Some(s1) => v + SkippedValue(s1, group, Spends(t))
  }

  lemma {:induction false} SpendsTakeValue(s: UtxoMap, group: int, vins: seq<TxnInput>)
    requires ExactInputs(s, group, vins)
    ensures Total(SpendInputs(s, group, vins).value) == Total(s) - InputValue(vins) + SkippedValue(s, group, vins)
    decreases |vins|
  {
    if vins != [] {
      var before, vin := vins[..|vins| - 1], vins[|vins| - 1];
      SpendsTakeValue(s, group, before);
      var s1 := SpendInputs(s, group, before).value;
      if vin.voutHash in s1 {
        SpendTakesValue(s1, group, vin);
      }
    }
  }

  /** Over any exact run of balanced transactions the total grows by exactly what is minted and imported. */
  lemma {:induction false} ValueIsConserved(s: UtxoMap, group: int, known: set<Hash>, ts: seq<Txn>)
    requires s.Keys <= known && ExactRun(s, group, known, ts)
    requires forall i :: 0 <= i < |ts| && !IsCoinbase(ts[i]) ==> Balanced(ts[i])
    ensures Total(ApplyTxns(s, group, ts).value) == Total(s) + Minted(ts) + Imported(s, group, ts)
    decreases |ts|
  {
    if ts != [] {
      var before, t := ts[..|ts| - 1], ts[|ts| - 1];
      ValueIsConserved(s, group, known, before);
      RunStep(s, group, known, ts);
      var s1 := ApplyTxns(s, group, before).value;
      SpendsTakeValue(s1, group, Spends(t));
      SpendingShrinks(s1, group, Spends(t));
      TotalPut(SpendInputs(s1, group, Spends(t)).value, TxnHash(t), t.vout);
    }
  }

  lemma {:induction false} NothingSkipped(s: UtxoMap, group: int, vins: seq<TxnInput>)
    requires Unmatched(s, group, vins) == map[]
    ensures SkippedValue(s, group, vins) == 0
    decreases |vins|
  {
    if vins != [] {
      var before, vin := vins[..|vins| - 1], vins[|vins| - 1];
      assert vin.voutHash !in Unmatched(s, group, vins);
      NothingSkipped(s, group, before);
    }
  }

  /** Where every input finds its entry, nothing is imported. */
  lemma {:induction false} NothingImported(s: UtxoMap, group: int, ts: seq<Txn>)
    requires AllFound(s, group, ts)
    ensures Imported(s, group, ts) == 0
    decreases |ts|
  {
    if ts != [] {
      var before, t := ts[..|ts| - 1], ts[|ts| - 1];
      NothingImported(s, group, before);
      NothingSkipped(ApplyTxns(s, group, before).value, group, Spends(t));
    }
  }
}
