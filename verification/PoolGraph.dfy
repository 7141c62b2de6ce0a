/**
 The graph of spends inside the pool of pending transactions, and orders of it.
 A transaction is a child of the pool transactions its inputs name.
 */
module PoolGraph {
  import opened Types

  type Pool = map<Hash, Txn>

  /** Every transaction is filed under its own hash. */
  ghost predicate IsPool(pool: Pool) {
    forall h :: h in pool ==> TxnHash(pool[h]) == h
  }

  /** How many of the inputs name `u`. */
  function Occurs(vins: seq<TxnInput>, u: Hash): nat
    decreases |vins|
  {
    if vins == [] then 0
    else Occurs(vins[..|vins| - 1], u) + if vins[|vins| - 1].voutHash == u then 1 else 0
  }

  /** How many of the inputs name a member of `s`. */
  function Pending(vins: seq<TxnInput>, s: set<Hash>): nat
    decreases |vins|
  {
    if vins == [] then 0
    else Pending(vins[..|vins| - 1], s) + if vins[|vins| - 1].voutHash in s then 1 else 0
  }

  lemma {:induction false} CountNextInput(vins: seq<TxnInput>, i: nat, s: set<Hash>)
    requires i < |vins|
    ensures forall u :: Occurs(vins[..i + 1], u) == Occurs(vins[..i], u) + if vins[i].voutHash == u then 1 else 0
    ensures Pending(vins[..i + 1], s) == Pending(vins[..i], s) + if vins[i].voutHash in s then 1 else 0
  {
    assert vins[..i + 1][..i] == vins[..i];
  }

  lemma {:induction false} PendingWithout(vins: seq<TxnInput>, s: set<Hash>, u: Hash)
    requires u in s
    ensures Pending(vins, s) == Pending(vins, s - {u}) + Occurs(vins, u)
    decreases |vins|
  {
    if vins != [] {
      PendingWithout(vins[..|vins| - 1], s, u);
    }
  }

  lemma {:induction false} PendingZero(vins: seq<TxnInput>, s: set<Hash>)
    ensures Pending(vins, s) == 0 <==> forall k :: 0 <= k < |vins| ==> vins[k].voutHash !in s
    decreases |vins|
  {
    if vins != [] {
      PendingZero(vins[..|vins| - 1], s);
    }
  }

  // ----- Orders and cycles -----

  function Elements(order: seq<Hash>): set<Hash> {
    set h | h in order
  }

  ghost predicate Distinct(order: seq<Hash>) {
    forall i, j :: 0 <= i < j < |order| ==> order[i] != order[j]
  }

  /** All parents of `t` that are in the pool are in `s`. */
  ghost predicate ParentsIn(pool: Pool, t: Txn, s: set<Hash>) {
    forall k :: 0 <= k < |t.vin| && t.vin[k].voutHash in pool ==> t.vin[k].voutHash in s
  }

  /** Each transaction occurs once and after all its parents in the pool. */
  ghost predicate TopologicalOrder(pool: Pool, order: seq<Hash>) {
    && Distinct(order)
    && forall i :: 0 <= i < |order| ==> order[i] in pool && ParentsIn(pool, pool[order[i]], Elements(order[..i]))
  }

  /** Every member spends from a member: nothing in the set can ever come first. */
  ghost predicate SelfFed(pool: Pool, s: set<Hash>) {
    s <= pool.Keys && forall h {:trigger HasParentIn(pool[h], s)} :: h in s ==> HasParentIn(pool[h], s)
  }

  predicate HasParentIn(t: Txn, s: set<Hash>) {
    exists k :: 0 <= k < |t.vin| && t.vin[k].voutHash in s
  }

  lemma {:induction false} OrderAvoidsSelfFed(pool: Pool, order: seq<Hash>, s: set<Hash>, i: nat)
    requires TopologicalOrder(pool, order) && SelfFed(pool, s) && i < |order|
    ensures order[i] !in s
    decreases i
  {
    if order[i] in s {
      assert HasParentIn(pool[order[i]], s);
      var t := pool[order[i]];
      var k :| 0 <= k < |t.vin| && t.vin[k].voutHash in s;
      var parent := t.vin[k].voutHash;
      assert ParentsIn(pool, t, Elements(order[..i]));
      assert parent in order[..i];
      var j :| 0 <= j < i && order[j] == parent;
      OrderAvoidsSelfFed(pool, order, s, j);
    }
  }

  /** What an order leaves out, if it feeds itself, is the largest set that does. */
  lemma {:induction false} LeftOverIsLargest(pool: Pool, order: seq<Hash>, s: set<Hash>)
    requires TopologicalOrder(pool, order) && SelfFed(pool, s)
    ensures s <= pool.Keys - Elements(order)
  {
    forall h | h in s ensures h !in Elements(order) {
      if h in Elements(order) {
        var i :| 0 <= i < |order| && order[i] == h;
        OrderAvoidsSelfFed(pool, order, s, i);
      }
    }
  }

  /** The first transactions of an order contain all their parents in the pool. */
  lemma {:induction false} PrefixIsClosed(pool: Pool, order: seq<Hash>, n: nat)
    requires TopologicalOrder(pool, order) && n <= |order|
    ensures forall i :: 0 <= i < n ==> ParentsIn(pool, pool[order[i]], Elements(order[..n]))
  {
  }

  /** A pool without cycles: some order lists all of it. */
  ghost predicate Acyclic(pool: Pool) {
    exists order :: TopologicalOrder(pool, order) && Elements(order) == pool.Keys
  }
}
