/**
 What `Update`, `Reverse` and the backward scan `FindUTXO` compute, as functions
 on values, together with their projections onto one entry of the set.
 */
module Ledger {
  import opened Types

  /** Transaction hash to the outputs of that transaction still in the set. */
  type UtxoMap = map<Hash, seq<TxnOutput>>

  function Get<V>(m: map<Hash, V>, h: Hash): Option<V> {
    if h in m then Some(m[h]) else None
  }

  function Put<V>(m: map<Hash, V>, h: Hash, e: Option<V>): map<Hash, V> {
    match e
    case Some(v) => m[h := v]
    case None => m - {h}
  }

  function NonEmpty(outs: seq<TxnOutput>): Option<seq<TxnOutput>> {
    if outs == [] then None else Some(outs)
  }

  function TxnHashes(ts: seq<Txn>): set<Hash> {
    set i | 0 <= i < |ts| :: TxnHash(ts[i])
  }

  lemma TxnHashesSplit(ts: seq<Txn>)
    requires ts != []
    ensures TxnHashes(ts) == TxnHashes(ts[..|ts| - 1]) + {TxnHash(ts[|ts| - 1])}
  {
  }

  // ----- Applying a block -----

  /** The outputs that survive an input signed with `key`: every output of another owner. */
  function Remaining(outs: seq<TxnOutput>, key: PublicKey): seq<TxnOutput> {
    if outs == [] then []
    else (if IsLockedWithKey(outs[0], key) then [] else [outs[0]]) + Remaining(outs[1..], key)
  }

  /** An input whose key belongs to another group than the set's. */
  predicate IsForeign(group: int, vin: TxnInput) {
    group != GroupOfKeyHash(KeyHash(vin.pubKey))
  }

  /** One input: `None` is the case in which `Update` gives up and reindexes. */
  function SpendInput(s: UtxoMap, group: int, vin: TxnInput): Option<UtxoMap> {
    if vin.voutHash in s then
      Some(Put(s, vin.voutHash, NonEmpty(Remaining(s[vin.voutHash], vin.pubKey))))
    else if IsForeign(group, vin) then Some(s)
    else None
  }

  function SpendInputs(s: UtxoMap, group: int, vins: seq<TxnInput>): Option<UtxoMap>
    decreases |vins|
  {
    if vins == [] then Some(s)
    else match SpendInputs(s, group, vins[..|vins| - 1])
      case None => None
      case Some(s') => SpendInput(s', group, vins[|vins| - 1])
  }

  /** The inputs `Update`, `Reverse` and `FindUTXO` look at. */
  function Spends(t: Txn): seq<TxnInput> {
    if IsCoinbase(t) then [] else t.vin
  }

  /** An input of another group that finds no entry is skipped: it changes nothing and fails nothing. */
  lemma {:induction false} ForeignInputIsSkipped(s: UtxoMap, group: int, vin: TxnInput)
    requires vin.voutHash !in s
    ensures SpendInput(s, group, vin) == Some(s) <==> KeyHash(vin.pubKey).bytes[0] as int % MAX_GROUP_NUM != group
    ensures SpendInput(s, group, vin) == None <==> KeyHash(vin.pubKey).bytes[0] as int % MAX_GROUP_NUM == group
  {
  }

  /** Only a single input of index -1, or no input at all, leaves a transaction without spends. */
  lemma {:induction false} OnlyCoinbasesSpendNothing(t: Txn)
    ensures Spends(t) == [] <==> t.vin == [] || (|t.vin| == 1 && t.vin[0].voutIndex == -1)
    ensures Spends(t) != [] ==> Spends(t) == t.vin
  {
  }

  function ApplyTxn(s: UtxoMap, group: int, t: Txn): Option<UtxoMap> {
    match SpendInputs(s, group, Spends(t))
    case None => None
    case Some(s') => Some(s'[TxnHash(t) := t.vout])
  }

  function ApplyTxns(s: UtxoMap, group: int, ts: seq<Txn>): Option<UtxoMap>
    decreases |ts|
  {
    if ts == [] then Some(s)
    else match ApplyTxns(s, group, ts[..|ts| - 1])
      case None => None
      case Some(s') => ApplyTxn(s', group, ts[|ts| - 1])
  }

  // ----- Rolling a block back -----

  function Restored(vin: TxnInput): TxnOutput {
    TxnOutput(vin.voutValue, KeyHash(vin.pubKey))
  }

  function OutputsAt(s: UtxoMap, h: Hash): seq<TxnOutput> {
    if h in s then s[h] else []
  }

  function RestoreInputs(s: UtxoMap, vins: seq<TxnInput>): UtxoMap
    decreases |vins|
  {
    if vins == [] then s
    else
      var s' := RestoreInputs(s, vins[..|vins| - 1]);
      var vin := vins[|vins| - 1];
      s'[vin.voutHash := OutputsAt(s', vin.voutHash) + [Restored(vin)]]
  }

  function ReverseTxn(s: UtxoMap, t: Txn): UtxoMap {
    if IsCoinbase(t) then s else RestoreInputs(s - {TxnHash(t)}, t.vin)
  }

  /** Undoes the last transaction first. */
  function ReverseTxns(s: UtxoMap, ts: seq<Txn>): UtxoMap
    decreases |ts|
  {
    if ts == [] then s else ReverseTxns(ReverseTxn(s, ts[|ts| - 1]), ts[..|ts| - 1])
  }

  // ----- The backward scan -----

  /** The output indices of `h` named by the inputs `vins`. */
  function NamedBy(h: Hash, vins: seq<TxnInput>): set<int> {
    set i | 0 <= i < |vins| && vins[i].voutHash == h :: vins[i].voutIndex
  }

  lemma NamedByNext(h: Hash, vins: seq<TxnInput>, i: nat)
    requires i < |vins|
    ensures NamedBy(h, vins[..i + 1]) == NamedBy(h, vins[..i]) + if vins[i].voutHash == h then {vins[i].voutIndex} else {}
  {
  }

  /** The output indices of `h` that the transactions `ts` spend. */
  function SpentIn(h: Hash, ts: seq<Txn>): set<int>
    decreases |ts|
  {
    if ts == [] then {} else SpentIn(h, ts[..|ts| - 1]) + NamedBy(h, Spends(ts[|ts| - 1]))
  }

  /** The outputs whose index is not in `spent`, for indices counted from `i`. */
  function Kept(outs: seq<TxnOutput>, i: int, spent: set<int>): seq<TxnOutput>
    decreases |outs|
  {
    if outs == [] then []
    else (if i in spent then [] else [outs[0]]) + Kept(outs[1..], i + 1, spent)
  }

  /** What visiting `t` adds to the map, when the transactions `before` were visited earlier. */
  function Visit(u: UtxoMap, before: seq<Txn>, t: Txn): UtxoMap {
    var kept := Kept(t.vout, 0, SpentIn(TxnHash(t), before));
    if kept == [] then u else u[TxnHash(t) := OutputsAt(u, TxnHash(t)) + kept]
  }

  /** The scan over the transactions in the order in which they are visited. */
  function Scan(ts: seq<Txn>): UtxoMap
    decreases |ts|
  {
    if ts == [] then map[]
    else
      var before := ts[..|ts| - 1];
      Visit(Scan(before), before, ts[|ts| - 1])
  }

  /** The scan walks the blocks backwards and each block's transactions forwards. */
  function VisitOrder(chain: seq<Block>): seq<Txn>
    decreases |chain|
  {
    if chain == [] then []
    else chain[|chain| - 1].txns + VisitOrder(chain[..|chain| - 1])
  }

  // ----- Projection onto one entry -----

  function SpendEntry(e: Option<seq<TxnOutput>>, h: Hash, vins: seq<TxnInput>): Option<seq<TxnOutput>>
    decreases |vins|
  {
    if vins == [] then e
    else
      var e' := SpendEntry(e, h, vins[..|vins| - 1]);
      var vin := vins[|vins| - 1];
      if e'.Some? && vin.voutHash == h then NonEmpty(Remaining(e'.value, vin.pubKey)) else e'
  }

  function ApplyEntry(e: Option<seq<TxnOutput>>, h: Hash, ts: seq<Txn>): Option<seq<TxnOutput>>
    decreases |ts|
  {
    if ts == [] then e
    else
      var t := ts[|ts| - 1];
      if TxnHash(t) == h then Some(t.vout)
      else SpendEntry(ApplyEntry(e, h, ts[..|ts| - 1]), h, Spends(t))
  }

  lemma {:induction false} SpendInputsAt(s: UtxoMap, group: int, vins: seq<TxnInput>, h: Hash)
    requires SpendInputs(s, group, vins).Some?
    ensures Get(SpendInputs(s, group, vins).value, h) == SpendEntry(Get(s, h), h, vins)
    decreases |vins|
  {
    if vins != [] {
      SpendInputsAt(s, group, vins[..|vins| - 1], h);
    }
  }

  /** Applying transactions acts on every entry separately. */
  lemma {:induction false} ApplyTxnsAt(s: UtxoMap, group: int, ts: seq<Txn>, h: Hash)
    requires ApplyTxns(s, group, ts).Some?
    ensures Get(ApplyTxns(s, group, ts).value, h) == ApplyEntry(Get(s, h), h, ts)
    decreases |ts|
  {
    if ts != [] {
      var before := ts[..|ts| - 1];
      ApplyTxnsAt(s, group, before, h);
      SpendInputsAt(ApplyTxns(s, group, before).value, group, Spends(ts[|ts| - 1]), h);
    }
  }
}
