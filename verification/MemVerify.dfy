/**
 Checking a new transaction against the UTXO set and the pool: rejection is sound.

 The check keeps an overlay of the entries the listed pool transactions change. An
 overlay entry that becomes empty is deleted without a mark, so the overlay may
 show too much, but never too little.
 */
module MemVerify {
  import opened Types
  import opened Ledger

  datatype Verdict = Accepted | Rejected | Exit

  // ----- The replay the check stands for -----

  /** `Update`'s removal rule, with nothing to remove where there is no entry. */
  function ReplayInput(s: UtxoMap, vin: TxnInput): UtxoMap {
    if vin.voutHash in s then Put(s, vin.voutHash, NonEmpty(Remaining(s[vin.voutHash], vin.pubKey))) else s
  }

  function ReplayInputs(s: UtxoMap, vins: seq<TxnInput>): UtxoMap
    decreases |vins|
  {
    if vins == [] then s else ReplayInput(ReplayInputs(s, vins[..|vins| - 1]), vins[|vins| - 1])
  }

  function ReplayTxns(s: UtxoMap, ts: seq<Txn>): UtxoMap
    decreases |ts|
  {
    if ts == [] then s
    else
      var t := ts[|ts| - 1];
      ReplayInputs(ReplayTxns(s, ts[..|ts| - 1]), Spends(t))[TxnHash(t) := t.vout]
  }

  lemma {:induction false} ReplayInputsIsSpend(s: UtxoMap, group: int, vins: seq<TxnInput>)
    requires SpendInputs(s, group, vins).Some?
    ensures ReplayInputs(s, vins) == SpendInputs(s, group, vins).value
    decreases |vins|
  {
    if vins != [] {
      ReplayInputsIsSpend(s, group, vins[..|vins| - 1]);
    }
  }

  /** Wherever `Update` does not give up, the replay is `Update`. */
  lemma {:induction false} ReplayIsUpdate(s: UtxoMap, group: int, ts: seq<Txn>)
    requires ApplyTxns(s, group, ts).Some?
    ensures ReplayTxns(s, ts) == ApplyTxns(s, group, ts).value
    decreases |ts|
  {
    if ts != [] {
      var before := ts[..|ts| - 1];
      ReplayIsUpdate(s, group, before);
      ReplayInputsIsSpend(ApplyTxns(s, group, before).value, group, Spends(ts[|ts| - 1]));
    }
  }

  // ----- The overlay -----

  function Look(overlay: UtxoMap, base: UtxoMap, h: Hash): seq<TxnOutput> {
    if h in overlay then overlay[h] else OutputsAt(base, h)
  }

  /** Every output that really remains is visible through the overlay. */
  ghost predicate Covers(overlay: UtxoMap, base: UtxoMap, actual: UtxoMap) {
    forall h, o :: o in OutputsAt(actual, h) ==> o in Look(overlay, base, h)
  }

  lemma {:induction false} RemainingMembers(outs: seq<TxnOutput>, key: PublicKey)
    ensures forall o :: o in Remaining(outs, key) <==> o in outs && !IsLockedWithKey(o, key)
    decreases |outs|
  {
    if outs != [] {
      RemainingMembers(outs[1..], key);
      assert outs == [outs[0]] + outs[1..];
    }
  }

  lemma {:induction false} CoversSpend(overlay: UtxoMap, base: UtxoMap, actual: UtxoMap, vin: TxnInput)
    requires Covers(overlay, base, actual)
    ensures Covers(Put(overlay, vin.voutHash, NonEmpty(Remaining(Look(overlay, base, vin.voutHash), vin.pubKey))),
                   base, ReplayInput(actual, vin))
  {
    var h := vin.voutHash;
    var shown := Look(overlay, base, h);
    var overlay' := Put(overlay, h, NonEmpty(Remaining(shown, vin.pubKey)));
    RemainingMembers(shown, vin.pubKey);
    RemainingMembers(OutputsAt(actual, h), vin.pubKey);
    forall g, o | o in OutputsAt(ReplayInput(actual, vin), g) ensures o in Look(overlay', base, g) {
      if g != h {
        assert o in OutputsAt(actual, g);
      } else {
        assert o in Remaining(OutputsAt(actual, h), vin.pubKey);
        assert o in Remaining(shown, vin.pubKey);
      }
    }
  }

  /** A skipped input has nothing to remove in the replay either. */
  lemma {:induction false} CoversSkip(overlay: UtxoMap, base: UtxoMap, actual: UtxoMap, vin: TxnInput)
    requires Covers(overlay, base, actual) && vin.voutHash !in overlay && vin.voutHash !in base
    ensures Covers(overlay, base, ReplayInput(actual, vin))
  {
    var h := vin.voutHash;
    forall g, o | o in OutputsAt(ReplayInput(actual, vin), g) ensures o in Look(overlay, base, g) {
      if g == h {
        RemainingMembers(OutputsAt(actual, h), vin.pubKey);
        assert o in OutputsAt(actual, h);
      } else {
        assert o in OutputsAt(actual, g);
      }
    }
  }

  /** One input on the overlay; `None` is the fatal log. An entry that runs empty leaves no mark. */
  function OverlaySpend(base: UtxoMap, group: int, overlay: UtxoMap, vin: TxnInput): Option<UtxoMap> {
    if vin.voutHash in overlay || vin.voutHash in base then
      Some(Put(overlay, vin.voutHash, NonEmpty(Remaining(Look(overlay, base, vin.voutHash), vin.pubKey))))
    else if IsForeign(group, vin) then Some(overlay)
    else None
  }

  function OverlaySpends(base: UtxoMap, group: int, overlay: UtxoMap, vins: seq<TxnInput>): Option<UtxoMap>
    decreases |vins|
  {
    if vins == [] then Some(overlay)
    else match OverlaySpends(base, group, overlay, vins[..|vins| - 1])
      case None => None
      case Some(o) => OverlaySpend(base, group, o, vins[|vins| - 1])
  }

  /** The overlay of the listed transactions, unless an own-group input finds nothing. */
  function Overlay(base: UtxoMap, group: int, ts: seq<Txn>): Option<UtxoMap>
    decreases |ts|
  {
    if ts == [] then Some(map[])
    else match Overlay(base, group, ts[..|ts| - 1])
      case None => None
      case Some(o) =>
        var t := ts[|ts| - 1];
        match OverlaySpends(base, group, o, Spends(t))
        case None => None
        case Some(o') => Some(o'[TxnHash(t) := t.vout])
  }

  /** Through the overlay every output is visible that remains after the inputs. */
  lemma {:induction false} SpendsCovered(base: UtxoMap, group: int, overlay: UtxoMap, vins: seq<TxnInput>, actual: UtxoMap)
    requires Covers(overlay, base, actual) && OverlaySpends(base, group, overlay, vins).Some?
    ensures Covers(OverlaySpends(base, group, overlay, vins).value, base, ReplayInputs(actual, vins))
    decreases |vins|
  {
    if vins != [] {
      var before, vin := vins[..|vins| - 1], vins[|vins| - 1];
      SpendsCovered(base, group, overlay, before, actual);
      var o := OverlaySpends(base, group, overlay, before).value;
      if vin.voutHash in o || vin.voutHash in base {
        CoversSpend(o, base, ReplayInputs(actual, before), vin);
      } else {
        CoversSkip(o, base, ReplayInputs(actual, before), vin);
      }
    }
  }

  lemma CoversNewOutputs(overlay: UtxoMap, base: UtxoMap, actual: UtxoMap, h: Hash, outs: seq<TxnOutput>)
    requires Covers(overlay, base, actual)
    ensures Covers(overlay[h := outs], base, actual[h := outs])
  {
    var overlay', actual' := overlay[h := outs], actual[h := outs];
    forall g, o | o in OutputsAt(actual', g) ensures o in Look(overlay', base, g) {
      if g != h {
        assert o in OutputsAt(actual, g);
      }
    }
  }

  /** The overlay shows at least every output that really remains after the listed transactions. */
  lemma {:induction false} OverlayCovers(base: UtxoMap, group: int, ts: seq<Txn>, overlay: UtxoMap)
    requires Overlay(base, group, ts) == Some(overlay)
    ensures Covers(overlay, base, ReplayTxns(base, ts))
    decreases |ts|
  {
    if ts != [] {
      var before, t := ts[..|ts| - 1], ts[|ts| - 1];
      var o := Overlay(base, group, before).value;
      OverlayCovers(base, group, before, o);
      SpendsCovered(base, group, o, Spends(t), ReplayTxns(base, before));
      CoversNewOutputs(OverlaySpends(base, group, o, Spends(t)).value, base,
                       ReplayInputs(ReplayTxns(base, before), Spends(t)), TxnHash(t), t.vout);
    }
  }

  // ----- Where the overlay is exact -----

  /** The entry is never gone while the inputs are replayed. */
  ghost predicate StaysOverInputs(s: UtxoMap, vins: seq<TxnInput>, h: Hash)
    decreases |vins|
  {
    && h in ReplayInputs(s, vins)
    && (vins == [] || StaysOverInputs(s, vins[..|vins| - 1], h))
  }

  /** After no input of the transactions is the entry gone. */
  ghost predicate Stays(s: UtxoMap, ts: seq<Txn>, h: Hash)
    decreases |ts|
  {
    if ts == [] then h in s
    else
      var before := ts[..|ts| - 1];
      Stays(s, before, h) && StaysOverInputs(ReplayTxns(s, before), Spends(ts[|ts| - 1]), h)
  }

  /** The overlay shows what the replay has for `h`. */
  ghost predicate ShowsExactly(overlay: UtxoMap, base: UtxoMap, actual: UtxoMap, h: Hash) {
    Look(overlay, base, h) == OutputsAt(actual, h)
  }

  lemma {:induction false} SpendShowsExactly(base: UtxoMap, group: int, overlay: UtxoMap, vin: TxnInput, actual: UtxoMap, h: Hash)
    requires OverlaySpend(base, group, overlay, vin).Some? && ShowsExactly(overlay, base, actual, h)
    requires h in base ==> h in actual && h in ReplayInput(actual, vin)
    requires h !in base ==> (h in overlay <==> h in actual)
    ensures ShowsExactly(OverlaySpend(base, group, overlay, vin).value, base, ReplayInput(actual, vin), h)
    ensures h !in base ==> (h in OverlaySpend(base, group, overlay, vin).value <==> h in ReplayInput(actual, vin))
    ensures h in base && (h in overlay || vin.voutHash == h) ==> h in OverlaySpend(base, group, overlay, vin).value
  {
  }

  lemma {:induction false} SpendsShowExactly(
      base: UtxoMap, group: int, overlay: UtxoMap, vins: seq<TxnInput>, actual: UtxoMap, h: Hash)
    requires OverlaySpends(base, group, overlay, vins).Some? && ShowsExactly(overlay, base, actual, h)
    requires h in base ==> StaysOverInputs(actual, vins, h)
    requires h !in base ==> (h in overlay <==> h in actual)
    ensures ShowsExactly(OverlaySpends(base, group, overlay, vins).value, base, ReplayInputs(actual, vins), h)
    ensures h !in base ==> (h in OverlaySpends(base, group, overlay, vins).value <==> h in ReplayInputs(actual, vins))
    ensures h in base && (h in overlay || Named(vins, h)) ==> h in OverlaySpends(base, group, overlay, vins).value
    decreases |vins|
  {
    if vins != [] {
      var before, vin := vins[..|vins| - 1], vins[|vins| - 1];
      SpendsShowExactly(base, group, overlay, before, actual, h);
      if h in base {
        StaysAfter(actual, before, h);
      }
      NamedNext(vins, h);
      SpendShowsExactly(base, group, OverlaySpends(base, group, overlay, before).value, vin, ReplayInputs(actual, before), h);
    }
  }

  lemma {:induction false} StaysAfter(s: UtxoMap, vins: seq<TxnInput>, h: Hash)
    requires StaysOverInputs(s, vins, h)
    ensures h in ReplayInputs(s, vins)
  {
  }

  ghost predicate Named(vins: seq<TxnInput>, h: Hash) {
    exists k :: 0 <= k < |vins| && vins[k].voutHash == h
  }

  lemma {:induction false} NamedNext(vins: seq<TxnInput>, h: Hash)
    requires vins != []
    ensures Named(vins, h) <==> Named(vins[..|vins| - 1], h) || vins[|vins| - 1].voutHash == h
  {
    var before := vins[..|vins| - 1];
    if Named(before, h) {
      var k :| 0 <= k < |before| && before[k].voutHash == h;
      assert vins[k].voutHash == h;
    }
    if Named(vins, h) {
      var k :| 0 <= k < |vins| && vins[k].voutHash == h;
      assert k < |before| ==> before[k].voutHash == h;
    }
  }

  /** Some listed transaction is filed under `h` or has an input that names it. */
  ghost predicate Touched(ts: seq<Txn>, h: Hash) {
    exists i :: 0 <= i < |ts| && (TxnHash(ts[i]) == h || Named(Spends(ts[i]), h))
  }

  lemma {:induction false} TouchedNext(ts: seq<Txn>, h: Hash)
    requires ts != []
    ensures var t := ts[|ts| - 1];
      Touched(ts, h) <==> Touched(ts[..|ts| - 1], h) || TxnHash(t) == h || Named(Spends(t), h)
  {
    var before := ts[..|ts| - 1];
    if Touched(before, h) {
      var i :| 0 <= i < |before| && (TxnHash(before[i]) == h || Named(Spends(before[i]), h));
      assert ts[i] == before[i];
    }
    if Touched(ts, h) {
      var i :| 0 <= i < |ts| && (TxnHash(ts[i]) == h || Named(Spends(ts[i]), h));
      assert i < |before| ==> before[i] == ts[i];
    }
  }

  /**
   For an entry of the set that is never gone, and for every hash the set does not
   have, the overlay shows exactly what the replay has; a touched entry is in it.
   */
  lemma {:induction false} OverlayIsExact(base: UtxoMap, group: int, ts: seq<Txn>, overlay: UtxoMap, h: Hash)
    requires Overlay(base, group, ts) == Some(overlay) && (h in base ==> Stays(base, ts, h))
    ensures ShowsExactly(overlay, base, ReplayTxns(base, ts), h)
    ensures h !in base ==> (h in overlay <==> h in ReplayTxns(base, ts))
    ensures h in base && Touched(ts, h) ==> h in overlay
    decreases |ts|
  {
    if ts != [] {
      var before, t := ts[..|ts| - 1], ts[|ts| - 1];
      var o := Overlay(base, group, before).value;
      OverlayIsExact(base, group, before, o, h);
      SpendsShowExactly(base, group, o, Spends(t), ReplayTxns(base, before), h);
      TouchedNext(ts, h);
    }
  }

  /** Replaying the listed transactions visibly leaves nothing for the input's key in the entry it names. */
  ghost predicate SpentVisibly(base: UtxoMap, ts: seq<Txn>, vin: TxnInput) {
    var h := vin.voutHash;
    && h in ReplayTxns(base, ts) && NothingToSpend(ReplayTxns(base, ts), vin)
    && (h in base ==> Stays(base, ts, h) && Touched(ts, h))
  }

  /** Such an input is refused. */
  lemma {:induction false} SpentIsRefused(base: UtxoMap, group: int, ts: seq<Txn>, overlay: UtxoMap, vin: TxnInput)
    requires Overlay(base, group, ts) == Some(overlay) && SpentVisibly(base, ts, vin)
    ensures Refused(overlay, vin)
  {
    OverlayIsExact(base, group, ts, overlay, vin.voutHash);
  }

  // ----- When the check must stop -----

  /** An own-group input of the listed transactions names what neither the set nor any of them has. */
  ghost predicate Missing(base: UtxoMap, group: int, ts: seq<Txn>, i: nat, k: nat)
    requires i < |ts| && k < |Spends(ts[i])|
  {
    var vin := Spends(ts[i])[k];
    && GroupOfKeyHash(KeyHash(vin.pubKey)) == group && vin.voutHash !in base
    && forall j :: 0 <= j < |ts| ==> TxnHash(ts[j]) != vin.voutHash
  }

  lemma {:induction false} SpendsAddNothing(base: UtxoMap, group: int, overlay: UtxoMap, vins: seq<TxnInput>, h: Hash)
    requires h !in base && h !in overlay && OverlaySpends(base, group, overlay, vins).Some?
    ensures h !in OverlaySpends(base, group, overlay, vins).value
    decreases |vins|
  {
    if vins != [] {
      SpendsAddNothing(base, group, overlay, vins[..|vins| - 1], h);
    }
  }

  lemma {:induction false} NeverInOverlay(base: UtxoMap, group: int, ts: seq<Txn>, h: Hash)
    requires h !in base && Overlay(base, group, ts).Some? && forall j :: 0 <= j < |ts| ==> TxnHash(ts[j]) != h
    ensures h !in Overlay(base, group, ts).value
    decreases |ts|
  {
    if ts != [] {
      var before, t := ts[..|ts| - 1], ts[|ts| - 1];
      NeverInOverlay(base, group, before, h);
      SpendsAddNothing(base, group, Overlay(base, group, before).value, Spends(t), h);
    }
  }

  lemma {:induction false} MissingInputFails(base: UtxoMap, group: int, overlay: UtxoMap, vins: seq<TxnInput>, k: nat)
    requires k < |vins| && GroupOfKeyHash(KeyHash(vins[k].pubKey)) == group
    requires vins[k].voutHash !in base && vins[k].voutHash !in overlay
    ensures OverlaySpends(base, group, overlay, vins).None?
  {
    if OverlaySpends(base, group, overlay, vins[..k]).Some? {
      SpendsAddNothing(base, group, overlay, vins[..k], vins[k].voutHash);
    }
    assert vins[..k + 1][..k] == vins[..k];
    OverlaySpendsFails(base, group, overlay, vins, k + 1);
  }

  lemma {:induction false} OverlayTake(base: UtxoMap, group: int, ts: seq<Txn>, i: nat)
    requires i < |ts|
    ensures Overlay(base, group, ts[..i]).None? ==> Overlay(base, group, ts[..i + 1]).None?
    ensures Overlay(base, group, ts[..i]).Some? && OverlaySpends(base, group, Overlay(base, group, ts[..i]).value, Spends(ts[i])).None?
      ==> Overlay(base, group, ts[..i + 1]).None?
  {
    assert ts[..i + 1][..i] == ts[..i];
  }

  lemma {:induction false} NeverInOverlayBefore(base: UtxoMap, group: int, ts: seq<Txn>, i: nat, h: Hash)
    requires i <= |ts| && h !in base && forall j :: 0 <= j < |ts| ==> TxnHash(ts[j]) != h
    requires Overlay(base, group, ts[..i]).Some?
    ensures h !in Overlay(base, group, ts[..i]).value
  {
    NeverInOverlay(base, group, ts[..i], h);
  }

  lemma {:induction false} MissingStops(base: UtxoMap, group: int, ts: seq<Txn>, i: nat, k: nat)
    requires i < |ts| && k < |Spends(ts[i])| && Missing(base, group, ts, i, k)
    ensures Overlay(base, group, ts).None?
  {
    var before := Overlay(base, group, ts[..i]);
    if before.Some? {
      NeverInOverlayBefore(base, group, ts, i, Spends(ts[i])[k].voutHash);
      MissingInputFails(base, group, before.value, Spends(ts[i]), k);
    }
    OverlayTake(base, group, ts, i);
    OverlayFails(base, group, ts, i + 1);
  }

  ghost predicate SomeMissing(base: UtxoMap, group: int, ts: seq<Txn>) {
    exists i: nat, k: nat {:trigger Missing(base, group, ts, i, k)} ::
      i < |ts| && k < |Spends(ts[i])| && Missing(base, group, ts, i, k)
  }

  lemma {:induction false} SomeMissingStops(base: UtxoMap, group: int, ts: seq<Txn>)
    ensures SomeMissing(base, group, ts) ==> Overlay(base, group, ts).None?
  {
    forall i: nat, k: nat {:trigger Missing(base, group, ts, i, k)} |
      i < |ts| && k < |Spends(ts[i])| && Missing(base, group, ts, i, k)
      ensures Overlay(base, group, ts).None?
    {
      MissingStops(base, group, ts, i, k);
    }
  }

  // ----- When the check stops the process -----

  ghost predicate NonEmptyEntries(s: UtxoMap) {
    forall h :: h in s ==> s[h] != []
  }

  lemma {:induction false} SpendsFollowed(base: UtxoMap, group: int, overlay: UtxoMap, vins: seq<TxnInput>, actual: UtxoMap)
    requires Covers(overlay, base, actual) && NonEmptyEntries(actual) && SpendInputs(actual, group, vins).Some?
    ensures OverlaySpends(base, group, overlay, vins).Some? && NonEmptyEntries(SpendInputs(actual, group, vins).value)
    decreases |vins|
  {
    if vins != [] {
      var before, vin := vins[..|vins| - 1], vins[|vins| - 1];
      SpendsFollowed(base, group, overlay, before, actual);
      SpendsCovered(base, group, overlay, before, actual);
      ReplayInputsIsSpend(actual, group, before);
      var s1, h := SpendInputs(actual, group, before).value, vin.voutHash;
      if h in s1 {
        assert s1[h][0] in OutputsAt(s1, h);
      }
    }
  }

  lemma {:induction false} OverlayFollows(base: UtxoMap, group: int, ts: seq<Txn>)
    requires NonEmptyEntries(base) && forall i :: 0 <= i < |ts| ==> ts[i].vout != []
    requires ApplyTxns(base, group, ts).Some?
    ensures Overlay(base, group, ts).Some? && NonEmptyEntries(ApplyTxns(base, group, ts).value)
    decreases |ts|
  {
    if ts != [] {
      var before, t := ts[..|ts| - 1], ts[|ts| - 1];
      OverlayFollows(base, group, before);
      var o := Overlay(base, group, before).value;
      OverlayCovers(base, group, before, o);
      ReplayIsUpdate(base, group, before);
      SpendsFollowed(base, group, o, Spends(t), ApplyTxns(base, group, before).value);
    }
  }

  /** Where nothing is empty, the check stops the process only if `Update` would fall back on the listed transactions. */
  lemma {:induction false} ExitMeansFallback(base: UtxoMap, group: int, ts: seq<Txn>)
    requires NonEmptyEntries(base) && forall i :: 0 <= i < |ts| ==> ts[i].vout != []
    requires Overlay(base, group, ts).None?
    ensures ApplyTxns(base, group, ts).None?
  {
    if ApplyTxns(base, group, ts).Some? {
      OverlayFollows(base, group, ts);
    }
  }

  // ----- The loops -----

  lemma {:induction false} OverlaySpendsFails(base: UtxoMap, group: int, overlay: UtxoMap, vins: seq<TxnInput>, i: nat)
    requires i <= |vins| && OverlaySpends(base, group, overlay, vins[..i]).None?
    ensures OverlaySpends(base, group, overlay, vins).None?
    decreases |vins| - i
  {
    if i == |vins| {
      assert vins[..i] == vins;
    } else {
      assert vins[..i + 1][..i] == vins[..i];
      OverlaySpendsFails(base, group, overlay, vins, i + 1);
    }
  }

  method OverlayInputs(base: UtxoMap, group: int, overlay0: UtxoMap, vins: seq<TxnInput>) returns (r: Option<UtxoMap>)
    ensures r == OverlaySpends(base, group, overlay0, vins)
  {
    var overlay := overlay0;
    for i := 0 to |vins|
      invariant OverlaySpends(base, group, overlay0, vins[..i]) == Some(overlay)
    {
      assert vins[..i + 1][..i] == vins[..i];
      var vin := vins[i];
      if vin.voutHash !in overlay && vin.voutHash !in base {
        if !IsForeign(group, vin) {
          OverlaySpendsFails(base, group, overlay0, vins, i + 1);
          return None;
        }
      } else {
        var outs := Look(overlay, base, vin.voutHash);
        var updated := Remaining(outs, vin.pubKey);
        overlay := if updated == [] then overlay - {vin.voutHash} else overlay[vin.voutHash := updated];
      }
    }
    assert vins[..|vins|] == vins;
    r := Some(overlay);
  }

  lemma {:induction false} OverlayFails(base: UtxoMap, group: int, ts: seq<Txn>, i: nat)
    requires i <= |ts| && Overlay(base, group, ts[..i]).None?
    ensures Overlay(base, group, ts).None?
    decreases |ts| - i
  {
    if i == |ts| {
      assert ts[..i] == ts;
    } else {
      assert ts[..i + 1][..i] == ts[..i];
      OverlayFails(base, group, ts, i + 1);
    }
  }

  method BuildOverlay(base: UtxoMap, group: int, listed: seq<Txn>) returns (r: Option<UtxoMap>)
    ensures r == Overlay(base, group, listed)
  {
    var overlay: UtxoMap := map[];
    for i := 0 to |listed|
      invariant Overlay(base, group, listed[..i]) == Some(overlay)
    {
      assert listed[..i + 1][..i] == listed[..i];
      var t := listed[i];
      var next := OverlayInputs(base, group, overlay, Spends(t));
      if next.None? {
        OverlayFails(base, group, listed, i + 1);
        return None;
      }
      overlay := next.value[TxnHash(t) := t.vout];
    }
    assert listed[..|listed|] == listed;
    r := Some(overlay);
  }

  predicate AnyLocked(outs: seq<TxnOutput>, key: PublicKey) {
    exists i :: 0 <= i < |outs| && IsLockedWithKey(outs[i], key)
  }

  /** The entry an input names holds no output for its key. */
  predicate NothingToSpend(s: UtxoMap, vin: TxnInput) {
    !AnyLocked(OutputsAt(s, vin.voutHash), vin.pubKey)
  }

  /** The overlay has the entry the input names, without an output for its key. */
  predicate Refused(overlay: UtxoMap, vin: TxnInput) {
    vin.voutHash in overlay && !AnyLocked(overlay[vin.voutHash], vin.pubKey)
  }

  ghost predicate SomeRefused(overlay: Option<UtxoMap>, t: Txn) {
    overlay.Some? && exists k :: 0 <= k < |t.vin| && Refused(overlay.value, t.vin[k])
  }

  method LooksLocked(outs: seq<TxnOutput>, key: PublicKey) returns (ok: bool)
    ensures ok <==> AnyLocked(outs, key)
  {
    ok := false;
    for i := 0 to |outs|
      invariant !ok && forall j :: 0 <= j < i ==> !IsLockedWithKey(outs[j], key)
    {
      if IsLockedWithKey(outs[i], key) {
        ok := true;
        break;
      }
    }
  }

  /**
   The check rejects only if replaying the listed transactions leaves no output for
   the key of some input in the entry it names, and it rejects whenever that is visible:
   the entry is there after the replay, was touched by it and was never gone. It stops
   the process if a listed own-group input names what was never there.
   */
  method UTXOMemVerifyTransaction(base: UtxoMap, group: int, listed: seq<Txn>, t: Txn) returns (verdict: Verdict)
    ensures IsCoinbase(t) ==> verdict == Accepted
    ensures verdict == Exit <==> !IsCoinbase(t) && Overlay(base, group, listed).None?
    ensures verdict == Rejected <==> !IsCoinbase(t) && SomeRefused(Overlay(base, group, listed), t)
    ensures verdict == Rejected ==>
      exists k :: 0 <= k < |t.vin| && NothingToSpend(ReplayTxns(base, listed), t.vin[k])
    ensures !IsCoinbase(t) && verdict != Exit && (exists k :: 0 <= k < |t.vin| && SpentVisibly(base, listed, t.vin[k])) ==>
      verdict == Rejected
    ensures !IsCoinbase(t) && SomeMissing(base, group, listed) ==> verdict == Exit
  {
    if IsCoinbase(t) {
      return Accepted;
    }
    var built := BuildOverlay(base, group, listed);
    SomeMissingStops(base, group, listed);
    if built.None? {
      return Exit;
    }
    var overlay := built.value;
    forall k | 0 <= k < |t.vin| && SpentVisibly(base, listed, t.vin[k]) ensures Refused(overlay, t.vin[k]) {
      SpentIsRefused(base, group, listed, overlay, t.vin[k]);
    }
    OverlayCovers(base, group, listed, overlay);
    for k := 0 to |t.vin|
      invariant forall j :: 0 <= j < k ==> !Refused(overlay, t.vin[j])
    {
      var vin := t.vin[k];
      if vin.voutHash in overlay {
        var ok := LooksLocked(overlay[vin.voutHash], vin.pubKey);
        if !ok {
          assert Refused(overlay, t.vin[k]);
          NothingLeft(overlay, base, ReplayTxns(base, listed), vin);
          return Rejected;
        }
      }
    }
    verdict := Accepted;
  }

  lemma NothingLeft(overlay: UtxoMap, base: UtxoMap, actual: UtxoMap, vin: TxnInput)
    requires Covers(overlay, base, actual) && vin.voutHash in overlay && !AnyLocked(overlay[vin.voutHash], vin.pubKey)
    ensures NothingToSpend(actual, vin)
  {
    var outs := OutputsAt(actual, vin.voutHash);
    forall i | 0 <= i < |outs| ensures !IsLockedWithKey(outs[i], vin.pubKey) {
      assert outs[i] in Look(overlay, base, vin.voutHash);
    }
  }

  /**
   Acceptance does not mean that the replay succeeds: the pool already spends the only
   output of an entry, the overlay forgets the entry, and the same input passes again.
   */
  lemma {:induction false} DoubleSpendPasses(group: int, h: Hash, value: int, key: PublicKey, to: PublicKey)
    requires var vin := TxnInput(h, 0, value, [], key); TxnHash(Txn([vin], [TxnOutput(value, KeyHash(to))])) != h
    ensures var vin := TxnInput(h, 0, value, [], key); var pending := Txn([vin], [TxnOutput(value, KeyHash(to))]);
      var base: UtxoMap := map[h := [TxnOutput(value, KeyHash(key))]];
      && Overlay(base, group, [pending]).Some? && !Refused(Overlay(base, group, [pending]).value, vin)
      && NothingToSpend(ReplayTxns(base, [pending]), vin)
  {
    var vin := TxnInput(h, 0, value, [], key);
    var pending := Txn([vin], [TxnOutput(value, KeyHash(to))]);
    var base: UtxoMap := map[h := [TxnOutput(value, KeyHash(key))]];
    assert [pending][..0] == [] && [vin][..0] == [];
    assert Spends(pending) == [vin];
    assert Remaining(base[h], key) == [];
    assert OverlaySpends(base, group, map[], [vin]) == OverlaySpend(base, group, map[], vin);
    assert ReplayInputs(base, [vin]) == ReplayInput(base, vin);
    assert ReplayTxns(base, [pending]) == ReplayInputs(base, [vin])[TxnHash(pending) := pending.vout];
  }
}
