/** The pool of pending transactions of one group. */
module Mempools {
  import opened Types
  import opened Ledger
  import opened PoolGraph
  import opened TopoSort

  /** At most this many transactions are listed for a block. */
  const LIST_LIMIT: nat := 50

  /** The pool without the transactions that cannot come first. */
  function Restrict(pool: Pool, keys: set<Hash>): Pool {
    map h | h in pool && h in keys :: pool[h]
  }

  // ----- Pruning by ancestry -----

  /** Every input of `t` names a transaction on the chain or in the pool. */
  predicate Settled(found: set<Hash>, pool: Pool, t: Txn) {
    forall k :: 0 <= k < |t.vin| ==> t.vin[k].voutHash in found || t.vin[k].voutHash in pool
  }

  /** The transactions of the order before `n` that are still in the pool are settled. */
  ghost predicate SettledBefore(found: set<Hash>, pool: Pool, order: seq<Hash>, n: nat)
    requires n <= |order|
  {
    forall i :: 0 <= i < n && order[i] in pool ==> Settled(found, pool, pool[order[i]])
  }

  /** The pool still respects the order, whatever was deleted from it. */
  ghost predicate Ordered(pool: Pool, order: seq<Hash>) {
    forall i :: 0 <= i < |order| && order[i] in pool ==> ParentsIn(pool, pool[order[i]], Elements(order[..i]))
  }

  /**
   Some chain of at most `depth` pool ancestors of `t` leads to an input that names
   neither the chain nor the pool.
   */
  ghost predicate Broken(found: set<Hash>, pool: Pool, t: Txn, depth: nat)
    decreases depth
  {
    exists k :: 0 <= k < |t.vin| && BrokenInput(found, pool, t.vin[k].voutHash, depth)
  }

  ghost predicate BrokenInput(found: set<Hash>, pool: Pool, h: Hash, depth: nat)
    decreases depth, 0
  {
    h !in found && (h !in pool || (depth > 0 && Broken(found, pool, pool[h], depth - 1)))
  }

  /** The whole ancestry of `t` resolves: every way up through the pool ends on the chain. */
  ghost predicate Resolves(found: set<Hash>, pool: Pool, t: Txn) {
    forall depth: nat :: !Broken(found, pool, t, depth)
  }

  ghost predicate InputResolves(found: set<Hash>, pool: Pool, h: Hash) {
    h in found || (h in pool && Resolves(found, pool, pool[h]))
  }

  /** The ancestry of `t` resolves exactly when that of every input does. */
  lemma {:induction false} ResolvesByInputs(found: set<Hash>, pool: Pool, t: Txn)
    ensures Resolves(found, pool, t) <==> forall k :: 0 <= k < |t.vin| ==> InputResolves(found, pool, t.vin[k].voutHash)
  {
    forall k | 0 <= k < |t.vin| && !InputResolves(found, pool, t.vin[k].voutHash)
      ensures !Resolves(found, pool, t)
    {
      var h := t.vin[k].voutHash;
      if h in pool {
        var depth: nat :| Broken(found, pool, pool[h], depth);
        assert BrokenInput(found, pool, h, depth + 1);
        assert Broken(found, pool, t, depth + 1);
      } else {
        assert BrokenInput(found, pool, h, 0);
        assert Broken(found, pool, t, 0);
      }
    }
    if depth: nat :| Broken(found, pool, t, depth) {
      var k :| 0 <= k < |t.vin| && BrokenInput(found, pool, t.vin[k].voutHash, depth);
      var h := t.vin[k].voutHash;
      assert h in pool ==> Broken(found, pool, pool[h], depth - 1);
      assert !InputResolves(found, pool, h);
    }
  }

  /**
   The recursive ancestor check. It ends because every step goes to an earlier
   transaction of the order, and it accepts exactly what resolves.
   */
  method VerifyAncestry(found: set<Hash>, pool: Pool, t: Txn, ghost order: seq<Hash>, ghost n: nat) returns (ok: bool)
    requires n <= |order| && Ordered(pool, order) && ParentsIn(pool, t, Elements(order[..n]))
    ensures ok <==> Resolves(found, pool, t)
    decreases n
  {
    ResolvesByInputs(found, pool, t);
    for k := 0 to |t.vin|
      invariant forall j :: 0 <= j < k ==> InputResolves(found, pool, t.vin[j].voutHash)
    {
      var hash := t.vin[k].voutHash;
      if hash !in found {
        if hash !in pool {
          return false;
        }
        assert hash in order[..n];
        ghost var i :| 0 <= i < n && order[i] == hash;
        var parentOk := VerifyAncestry(found, pool, pool[hash], order, i);
        if !parentOk {
          return false;
        }
      }
    }
    ok := true;
  }

  /** Once the earlier transactions of the order are settled, resolving is being settled. */
  lemma {:induction false} SettledResolves(found: set<Hash>, pool: Pool, t: Txn, order: seq<Hash>, n: nat)
    requires n <= |order| && Ordered(pool, order) && ParentsIn(pool, t, Elements(order[..n]))
    requires SettledBefore(found, pool, order, n)
    ensures Resolves(found, pool, t) <==> Settled(found, pool, t)
    decreases n
  {
    ResolvesByInputs(found, pool, t);
    forall k | 0 <= k < |t.vin|
      ensures InputResolves(found, pool, t.vin[k].voutHash) <==> t.vin[k].voutHash in found || t.vin[k].voutHash in pool
    {
      var h := t.vin[k].voutHash;
      if h in pool {
        assert h in order[..n];
        var i :| 0 <= i < n && order[i] == h;
        SettledResolves(found, pool, pool[h], order, i);
      }
    }
  }

  lemma {:induction false} DeleteKeepsOrder(pool: Pool, order: seq<Hash>, h: Hash)
    requires Ordered(pool, order)
    ensures Ordered(pool - {h}, order)
  {
  }

  lemma {:induction false} DeleteKeepsSettled(found: set<Hash>, pool: Pool, order: seq<Hash>, i: nat)
    requires i < |order| && Distinct(order) && Ordered(pool, order) && SettledBefore(found, pool, order, i)
    ensures SettledBefore(found, pool - {order[i]}, order, i)
  {
  }

  /**
   Deletes every listed transaction whose ancestry does not resolve. Of the listed
   ones exactly those survive whose inputs all name the chain or survivors, and
   these are the ones whose whole ancestry resolved before.
   */
  method Prune(found: set<Hash>, pool0: Pool, listed: seq<Hash>, ghost order: seq<Hash>) returns (pool: Pool)
    requires listed <= order && TopologicalOrder(pool0, order)
    ensures pool.Keys <= pool0.Keys && forall h :: h in pool ==> pool[h] == pool0[h]
    ensures pool0.Keys - Elements(listed) <= pool.Keys
    ensures forall i :: 0 <= i < |listed| ==>
      (listed[i] in pool <==> Settled(found, pool, pool0[listed[i]]))
    ensures forall i :: 0 <= i < |listed| ==>
      (listed[i] in pool <==> Resolves(found, pool0, pool0[listed[i]]))
  {
    pool := pool0;
    for i := 0 to |listed|
      invariant pool.Keys <= pool0.Keys && forall h :: h in pool ==> pool[h] == pool0[h]
      invariant pool0.Keys - Elements(listed) <= pool.Keys
      invariant forall j :: i <= j < |listed| ==> listed[j] in pool
      invariant Ordered(pool, order) && SettledBefore(found, pool, order, i)
      invariant forall j :: 0 <= j < i && listed[j] !in pool ==> !Settled(found, pool, pool0[listed[j]])
    {
      var h := listed[i];
      assert h == order[i];
      var ok := VerifyAncestry(found, pool, pool[h], order, i);
      SettledResolves(found, pool, pool[h], order, i);
      if !ok {
        DeleteKeepsSettled(found, pool, order, i);
        DeleteKeepsOrder(pool, order, h);
        UnsettledStays(found, pool, h);
        pool := pool - {h};
      }
    }
    SurvivorsResolve(found, pool0, order, pool, listed);
  }

  lemma {:induction false} SurvivorsResolve(found: set<Hash>, pool0: Pool, order: seq<Hash>, pool: Pool, listed: seq<Hash>)
    requires listed <= order && TopologicalOrder(pool0, order) && pool.Keys <= pool0.Keys
    requires forall i :: 0 <= i < |listed| ==> (listed[i] in pool <==> Settled(found, pool, pool0[listed[i]]))
    ensures forall i :: 0 <= i < |listed| ==> (listed[i] in pool <==> Resolves(found, pool0, pool0[listed[i]]))
  {
    assert forall j :: 0 <= j < |listed| ==> listed[j] == order[j];
    forall i | 0 <= i < |listed| ensures listed[i] in pool <==> Resolves(found, pool0, pool0[listed[i]]) {
      SurvivesIffResolves(found, pool0, order, pool, |listed|, i);
    }
  }

  lemma UnsettledStays(found: set<Hash>, pool: Pool, h: Hash)
    ensures forall t :: !Settled(found, pool, t) ==> !Settled(found, pool - {h}, t)
  {
  }

  /**
   Where exactly the settled ones of the first `n` survive, the survivors are those
   whose whole ancestry resolved in the pool before pruning.
   */
  lemma {:induction false} SurvivesIffResolves(
      found: set<Hash>, pool0: Pool, order: seq<Hash>, pool: Pool, n: nat, i: nat)
    requires TopologicalOrder(pool0, order) && i < n <= |order|
    requires pool.Keys <= pool0.Keys
    requires forall j :: 0 <= j < n ==> (order[j] in pool <==> Settled(found, pool, pool0[order[j]]))
    ensures order[i] in pool <==> Resolves(found, pool0, pool0[order[i]])
    decreases i
  {
    var t := pool0[order[i]];
    ResolvesByInputs(found, pool0, t);
    forall k | 0 <= k < |t.vin|
      ensures InputResolves(found, pool0, t.vin[k].voutHash) <==> t.vin[k].voutHash in found || t.vin[k].voutHash in pool
    {
      var h := t.vin[k].voutHash;
      if h in pool0 {
        assert ParentsIn(pool0, t, Elements(order[..i]));
        assert h in order[..i];
        var j :| 0 <= j < i && order[j] == h;
        SurvivesIffResolves(found, pool0, order, pool, n, j);
      }
    }
  }

  /** The survivors are determined: two sets that keep exactly the resolved ones agree. */
  lemma {:induction false} SurvivorsAreUnique(
      found: set<Hash>, pool0: Pool, order: seq<Hash>, a: Pool, b: Pool, i: nat)
    requires TopologicalOrder(pool0, order) && i < |order|
    requires a.Keys <= pool0.Keys && b.Keys <= pool0.Keys
    requires forall j :: 0 <= j < |order| ==> (order[j] in a <==> Settled(found, a, pool0[order[j]]))
    requires forall j :: 0 <= j < |order| ==> (order[j] in b <==> Settled(found, b, pool0[order[j]]))
    ensures order[i] in a <==> order[i] in b
    decreases i
  {
    var t := pool0[order[i]];
    forall k | 0 <= k < |t.vin| ensures t.vin[k].voutHash in a <==> t.vin[k].voutHash in b {
      var parent := t.vin[k].voutHash;
      if parent in pool0 {
        assert ParentsIn(pool0, t, Elements(order[..i]));
        assert parent in order[..i];
        var j :| 0 <= j < i && order[j] == parent;
        SurvivorsAreUnique(found, pool0, order, a, b, j);
      }
    }
  }

  // ----- The pool -----

  /**
   What pruning does to a pool: what no order can contain is evicted, and of the first
   fifty of an order exactly those stay whose inputs all name the chain or the pool,
   which are those whose whole ancestry resolved. The others of the order are kept.
   */
  ghost predicate Pruned(found: set<Hash>, pool: Pool, pool': Pool) {
    exists order :: PrunedBy(found, pool, pool', order)
  }

  ghost predicate PrunedBy(found: set<Hash>, pool: Pool, pool': Pool, order: seq<Hash>) {
    && TopologicalOrder(pool, order)
    && SelfFed(pool, pool.Keys - Elements(order))
    && pool'.Keys <= Elements(order)
    && (forall h :: h in pool' ==> h in pool && pool'[h] == pool[h])
    && (forall i :: 50 <= i < |order| ==> order[i] in pool')
    && forall i :: 0 <= i < |order| && i < 50 ==>
         && (order[i] in pool' <==> Settled(found, pool', pool[order[i]]))
         && (order[i] in pool' <==> Resolves(found, Restrict(pool, Elements(order)), pool[order[i]]))
  }

  lemma {:induction false} DistinctCount(order: seq<Hash>)
    requires Distinct(order)
    ensures |Elements(order)| == |order|
    decreases |order|
  {
    if order != [] {
      var n := |order| - 1;
      DistinctCount(order[..n]);
      assert Elements(order) == Elements(order[..n]) + {order[n]};
      assert order[n] !in Elements(order[..n]);
    }
  }

  /** Of a pool without cycles an order leaves nothing out. */
  lemma {:induction false} AcyclicIsListed(pool: Pool, order: seq<Hash>)
    requires TopologicalOrder(pool, order) && SelfFed(pool, pool.Keys - Elements(order)) && Acyclic(pool)
    ensures Elements(order) == pool.Keys && |order| == |pool|
  {
    var all :| TopologicalOrder(pool, all) && Elements(all) == pool.Keys;
    LeftOverIsLargest(pool, all, pool.Keys - Elements(order));
    assert Elements(order) <= pool.Keys;
    DistinctCount(order);
    assert |pool.Keys| == |pool|;
  }

  /** In a pool of at most fifty without cycles exactly what resolves is kept. */
  lemma {:induction false} SmallPoolIsPruned(found: set<Hash>, pool: Pool, pool': Pool)
    requires Pruned(found, pool, pool') && Acyclic(pool) && |pool| <= 50
    ensures forall h :: h in pool' <==> h in pool && Resolves(found, pool, pool[h])
  {
    var order :| PrunedBy(found, pool, pool', order);
    AcyclicIsListed(pool, order);
    assert Restrict(pool, Elements(order)) == pool;
    forall h ensures h in pool' <==> h in pool && Resolves(found, pool, pool[h]) {
      if h in pool {
        assert h in Elements(order);
        var i :| 0 <= i < |order| && order[i] == h;
      }
    }
  }

  /** Lists the first nodes and takes every node out of the candidates for eviction. */
  method CollectListed(pool: Pool, nodes: seq<Hash>) returns (ret: seq<Txn>, idToTxn: Pool)
    requires forall i :: 0 <= i < |nodes| ==> nodes[i] in pool
    ensures |ret| == (if |nodes| <= 50 then |nodes| else 50) && forall i :: 0 <= i < |ret| ==> ret[i] == pool[nodes[i]]
    ensures idToTxn == Restrict(pool, pool.Keys - Elements(nodes))
  {
    ret := [];
    idToTxn := pool;
    for i := 0 to |nodes|
      invariant |ret| == if i <= LIST_LIMIT then i else LIST_LIMIT
      invariant forall j :: 0 <= j < |ret| ==> ret[j] == pool[nodes[j]]
      invariant idToTxn == Restrict(pool, pool.Keys - Elements(nodes[..i]))
    {
      if i < LIST_LIMIT {
        ret := ret + [pool[nodes[i]]];
      }
      assert Elements(nodes[..i + 1]) == Elements(nodes[..i]) + {nodes[i]};
      idToTxn := idToTxn - {nodes[i]};
    }
    assert nodes[..|nodes|] == nodes;
  }

  /** A listing of the pool: the first fifty of an order, and everything if the pool is small and without cycles. */
  ghost predicate IsListing(pool: Pool, order: seq<Hash>, ret: seq<Txn>) {
    && TopologicalOrder(pool, order) && SelfFed(pool, pool.Keys - Elements(order))
    && |ret| == (if |order| <= 50 then |order| else 50)
    && (forall i {:trigger ret[i]} :: 0 <= i < |ret| ==> ret[i] == pool[order[i]])
    && (Acyclic(pool) && |pool| <= 50 ==> |ret| == |pool| && forall h :: h in pool ==> pool[h] in ret)
  }

  lemma {:induction false} ListingIsWhole(pool: Pool, order: seq<Hash>, ret: seq<Txn>)
    requires TopologicalOrder(pool, order) && SelfFed(pool, pool.Keys - Elements(order))
    requires |ret| == (if |order| <= 50 then |order| else 50)
    requires forall i {:trigger ret[i]} :: 0 <= i < |ret| ==> ret[i] == pool[order[i]]
    ensures IsListing(pool, order, ret)
  {
    if Acyclic(pool) && |pool| <= 50 {
      AcyclicIsListed(pool, order);
      forall h | h in pool ensures pool[h] in ret {
        assert h in Elements(order);
        var i :| 0 <= i < |order| && order[i] == h;
        assert ret[i] == pool[h];
      }
    }
  }

  class Mempool {
    var m: Pool

    ghost predicate Valid()
      reads this
    {
      IsPool(m)
    }

    constructor ()
      ensures Valid() && m == map[]
    {
      m := map[];
    }

    method AddTxn(t: Txn)
      requires Valid()
      modifies this
      ensures Valid() && m == old(m)[TxnHash(t) := t]
    {
      m := m[TxnHash(t) := t];
    }

    method GetTxn(h: Hash) returns (t: Option<Txn>)
      ensures t == if h in m then Some(m[h]) else None
    {
      t := if h in m then Some(m[h]) else None;
    }

    method Delete(h: Hash)
      requires Valid()
      modifies this
      ensures Valid() && m == old(m) - {h}
    {
      m := m - {h};
    }

    /**
     Lists the first transactions of a topological order of the pool and evicts what
     no order can contain. `order` is the whole order.
     */
    method GetTxns() returns (ret: seq<Txn>, ghost order: seq<Hash>)
      requires Valid()
      modifies this
      ensures Valid() && IsListing(old(m), order, ret)
      ensures forall h :: h in m <==> h in order
      ensures forall h :: h in m ==> h in old(m) && m[h] == old(m)[h]
    {
      var nodes := Sort(m);
      order := nodes;
      var evicted;
      ret, evicted := CollectListed(m, nodes);
      Evict(evicted);
      ListingIsWhole(old(m), order, ret);
    }

    /** Deletes the given transactions, each under its own hash. */
    method Evict(evicted: Pool)
      requires Valid() && IsPool(evicted)
      modifies this
      ensures Valid() && m == old(m) - evicted.Keys
    {
      var rest := evicted.Keys;
      while rest != {}
        invariant rest <= evicted.Keys && Valid() && m == old(m) - (evicted.Keys - rest)
        decreases rest
      {
        var h :| h in rest;
        m := m - {TxnHash(evicted[h])};
        rest := rest - {h};
      }
    }

    /** Takes out exactly the given transactions. */
    method DeleteAll(ts: seq<Txn>)
      requires Valid()
      modifies this
      ensures Valid() && m == old(m) - TxnHashes(ts)
      ensures forall i :: 0 <= i < |ts| ==> TxnHash(ts[i]) !in m
    {
      for i := 0 to |ts|
        invariant Valid() && m == old(m) - TxnHashes(ts[..i])
      {
        TxnHashesSplit(ts[..i + 1]);
        assert ts[..i + 1][..i] == ts[..i];
        Delete(TxnHash(ts[i]));
      }
      assert ts[..|ts|] == ts;
    }

    /** Lists the pool and deletes the listed transactions whose ancestry does not resolve. */
    method PruneListed(found: set<Hash>)
      requires Valid()
      modifies this
      ensures Valid() && Pruned(found, old(m), m)
      ensures Acyclic(old(m)) && |old(m)| <= 50 ==>
        forall h :: h in m <==> h in old(m) && Resolves(found, old(m), old(m)[h])
    {
      ghost var pool := m;
      ghost var order;
      var txns;
      txns, order := GetTxns();
      var listed := ListedHashes(txns);
      ListedIsPrefix(pool, order, txns, listed);
      RestrictKeepsOrder(pool, order);
      assert m == Restrict(pool, Elements(order));
      m := Prune(found, m, listed, order);
      assert Elements(order) <= pool.Keys;
      PrunedListing(found, pool, m, order, listed);
      if Acyclic(pool) && |pool| <= 50 {
        SmallPoolIsPruned(found, pool, m);
      }
    }
  }

  /** What adding a block does to the pool: exactly its transactions leave, and the rest is pruned. */
  method TakeBlock(pool: Mempool, ts: seq<Txn>, found: set<Hash>)
    requires pool.Valid()
    modifies pool
    ensures pool.Valid() && Pruned(found, old(pool.m) - TxnHashes(ts), pool.m)
    ensures forall i :: 0 <= i < |ts| ==> TxnHash(ts[i]) !in pool.m
  {
    pool.DeleteAll(ts);
    ghost var before := pool.m;
    pool.PruneListed(found);
    assert pool.m.Keys <= before.Keys;
  }

  lemma {:induction false} ListedIsPrefix(pool: Pool, order: seq<Hash>, txns: seq<Txn>, listed: seq<Hash>)
    requires IsPool(pool) && IsListing(pool, order, txns)
    requires |listed| == |txns| && forall i :: 0 <= i < |txns| ==> listed[i] == TxnHash(txns[i])
    ensures listed == if |order| <= 50 then order else order[..50]
  {
    forall i | 0 <= i < |listed| ensures listed[i] == order[i] {
      assert txns[i] == pool[order[i]];
    }
  }

  lemma {:induction false} PrunedListing(found: set<Hash>, pool: Pool, pool': Pool, order: seq<Hash>, listed: seq<Hash>)
    requires TopologicalOrder(pool, order) && SelfFed(pool, pool.Keys - Elements(order))
    requires listed == if |order| <= 50 then order else order[..50]
    requires pool'.Keys <= Elements(order) && forall h :: h in pool' ==> h in pool && pool'[h] == pool[h]
    requires Elements(order) - Elements(listed) <= pool'.Keys
    requires forall i :: 0 <= i < |listed| ==> (listed[i] in pool' <==> Settled(found, pool', pool[listed[i]]))
    requires forall i :: 0 <= i < |listed| ==>
      (listed[i] in pool' <==> Resolves(found, Restrict(pool, Elements(order)), pool[listed[i]]))
    ensures PrunedBy(found, pool, pool', order)
  {
    forall i | 50 <= i < |order| ensures order[i] in pool' {
      assert order[i] in Elements(order);
      assert order[i] !in listed;
    }
    forall i | 0 <= i < |order| && i < 50
      ensures order[i] in pool' <==> Settled(found, pool', pool[order[i]])
      ensures order[i] in pool' <==> Resolves(found, Restrict(pool, Elements(order)), pool[order[i]])
    {
      assert listed[i] == order[i];
    }
  }

  function ListedHashes(txns: seq<Txn>): (hs: seq<Hash>)
    ensures |hs| == |txns| && forall i :: 0 <= i < |txns| ==> hs[i] == TxnHash(txns[i])
  {
    seq(|txns|, i requires 0 <= i < |txns| => TxnHash(txns[i]))
  }

  lemma {:induction false} RestrictKeepsOrder(pool: Pool, order: seq<Hash>)
    requires TopologicalOrder(pool, order)
    ensures TopologicalOrder(Restrict(pool, Elements(order)), order)
    ensures Restrict(pool, Elements(order)).Keys == Elements(order)
  {
  }
}
