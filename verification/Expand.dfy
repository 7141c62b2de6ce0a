/** `ExpandTxnOutput`: following an output along pending spends that pay its owner back. */
module Expand {
  import opened Types
  import opened PoolGraph
  import opened TopoSort

  /** An output together with the transaction and the position it comes from. */
  datatype Coin = Coin(out: TxnOutput, hash: Hash, index: int)

  predicate SpendsCoin(vin: TxnInput, c: Coin) {
    IsLockedWithKey(c.out, vin.pubKey) && c.out.value == vin.voutValue && c.hash == vin.voutHash
  }

  /** The transaction `t` spends `c` with its input `k` and pays `d` back to the same key. */
  predicate PaysBack(t: Txn, k: nat, c: Coin, d: Coin) {
    && k < |t.vin| && SpendsCoin(t.vin[k], c)
    && d.hash == TxnHash(t)
    && 0 <= d.index < |t.vout| && d.out == t.vout[d.index]
    && IsLockedWithKey(d.out, t.vin[k].pubKey)
  }

  ghost predicate Follows(pool: Pool, c: Coin, d: Coin) {
    exists h, k: nat :: h in pool && PaysBack(pool[h], k, c, d)
  }

  /** The coins reached from `start` by exactly `j` spends. */
  ghost predicate Reached(pool: Pool, start: Coin, j: nat, d: Coin)
    decreases j
  {
    if j == 0 then d == start else exists c :: Reached(pool, start, j - 1, c) && Follows(pool, c, d)
  }

  // ----- One level -----

  /** How many of the first `n` inputs of `t` spend `c` and pay `d` back. */
  ghost function WaysIn(t: Txn, n: nat, c: Coin, d: Coin): nat
    requires n <= |t.vin|
  {
    if n == 0 then 0 else WaysIn(t, n - 1, c, d) + if PaysBack(t, n - 1, c, d) then 1 else 0
  }

  /** How many pool inputs spend `c` and pay `d` back: as often `d` is listed after `c`. */
  ghost function Ways(pool: Pool, c: Coin, d: Coin): nat {
    if d.hash in pool then WaysIn(pool[d.hash], |pool[d.hash].vin|, c, d) else 0
  }

  lemma {:induction false} WaysElsewhere(t: Txn, n: nat, c: Coin, d: Coin)
    requires n <= |t.vin| && d.hash != TxnHash(t)
    ensures WaysIn(t, n, c, d) == 0
    decreases n
  {
    if n > 0 {
      WaysElsewhere(t, n - 1, c, d);
    }
  }

  lemma {:induction false} SomeWayIn(t: Txn, n: nat, c: Coin, d: Coin)
    requires n <= |t.vin|
    ensures WaysIn(t, n, c, d) > 0 <==> exists k: nat :: k < n && PaysBack(t, k, c, d)
    decreases n
  {
    if n > 0 {
      SomeWayIn(t, n - 1, c, d);
    }
  }

  /** There is a way exactly where a pool transaction spends the one and pays the other back. */
  lemma {:induction false} SomeWay(pool: Pool, c: Coin, d: Coin)
    requires IsPool(pool)
    ensures Ways(pool, c, d) > 0 <==> Follows(pool, c, d)
  {
    if d.hash in pool {
      SomeWayIn(pool[d.hash], |pool[d.hash].vin|, c, d);
    }
    if Follows(pool, c, d) {
      var h, k: nat :| h in pool && PaysBack(pool[h], k, c, d);
      assert h == d.hash;
    }
  }

  method PaidBack(t: Txn, k: nat, c: Coin) returns (kids: seq<Coin>)
    requires k < |t.vin|
    ensures forall d :: multiset(kids)[d] == if PaysBack(t, k, c, d) then 1 else 0
  {
    kids := [];
    var vin := t.vin[k];
    if !SpendsCoin(vin, c) {
      return;
    }
    for index := 0 to |t.vout|
      invariant forall d :: multiset(kids)[d] == if PaysBack(t, k, c, d) && d.index < index then 1 else 0
    {
      if IsLockedWithKey(t.vout[index], vin.pubKey) {
        kids := kids + [Coin(t.vout[index], TxnHash(t), index)];
      }
    }
  }

  method SpendersIn(t: Txn, c: Coin) returns (kids: seq<Coin>)
    ensures forall d :: multiset(kids)[d] == WaysIn(t, |t.vin|, c, d)
  {
    kids := [];
    for k := 0 to |t.vin|
      invariant forall d :: multiset(kids)[d] == WaysIn(t, k, c, d)
    {
      var more := PaidBack(t, k, c);
      kids := kids + more;
    }
  }

  method NextCoins(pool: Pool, c: Coin) returns (kids: seq<Coin>)
    requires IsPool(pool)
    ensures forall d :: multiset(kids)[d] == Ways(pool, c, d)
  {
    kids := [];
    var rest := pool.Keys;
    while rest != {}
      invariant rest <= pool.Keys
      invariant forall d :: multiset(kids)[d] == if d.hash in rest then 0 else Ways(pool, c, d)
      decreases rest
    {
      var h :| h in rest;
      var more := SpendersIn(pool[h], c);
      forall d: Coin ensures multiset(more)[d] == if d.hash == h then Ways(pool, c, d) else 0 {
        if d.hash != h {
          WaysElsewhere(pool[h], |pool[h].vin|, c, d);
        }
      }
      kids := kids + more;
      rest := rest - {h};
    }
  }

  /** Input `k` of `t` names the coin's transaction, with its owner's key and its value. */
  predicate NamesCoin(t: Txn, k: nat, c: Coin)
    requires k < |t.vin|
  {
    && t.vin[k].voutHash == c.hash && t.vin[k].voutValue == c.out.value
    && KeyHash(t.vin[k].pubKey) == c.out.pubKeyHash
  }

  /**
   An output is not followed exactly when every pending transaction with an input of
   its transaction, owner and value pays that owner nothing; inputs of another value
   or owner do not count.
   */
  lemma {:induction false} NotFollowedExactly(pool: Pool, c: Coin)
    ensures IsLast(pool, [c]) <==>
      forall h, k: nat, m :: h in pool && k < |pool[h].vin| && NamesCoin(pool[h], k, c) && 0 <= m < |pool[h].vout| ==>
        pool[h].vout[m].pubKeyHash != c.out.pubKeyHash
  {
    if IsLast(pool, [c]) {
      forall h, k: nat, m | h in pool && k < |pool[h].vin| && NamesCoin(pool[h], k, c) && 0 <= m < |pool[h].vout|
        ensures pool[h].vout[m].pubKeyHash != c.out.pubKeyHash
      {
        var d := Coin(pool[h].vout[m], TxnHash(pool[h]), m);
        assert c in [c] && !Follows(pool, c, d);
        assert !PaysBack(pool[h], k, c, d);
      }
    } else {
      var c', d :| c' in [c] && Follows(pool, c', d);
      var h, k: nat :| h in pool && PaysBack(pool[h], k, c, d);
      assert NamesCoin(pool[h], k, c) && pool[h].vout[d.index].pubKeyHash == c.out.pubKeyHash;
    }
  }

  // ----- Depth -----

  /** A spend goes forward in the order. */
  lemma {:induction false} FollowsInOrder(pool: Pool, order: seq<Hash>, c: Coin, d: Coin) returns (p: nat)
    requires IsPool(pool) && TopologicalOrder(pool, order) && Elements(order) == pool.Keys
    requires Follows(pool, c, d)
    ensures p < |order| && order[p] == d.hash
    ensures c.hash in pool ==> c.hash in order[..p]
  {
    var h, k: nat :| h in pool && PaysBack(pool[h], k, c, d);
    assert h in Elements(order);
    p :| 0 <= p < |order| && order[p] == h;
    assert ParentsIn(pool, pool[order[p]], Elements(order[..p]));
    assert pool[h].vin[k].voutHash == c.hash;
  }

  lemma {:induction false} EarlierThan(order: seq<Hash>, h: Hash, q: nat, p: nat)
    requires Distinct(order) && q < |order| && p < |order| && order[q] == h && h in order[..p]
    ensures q < p
  {
    var q' :| 0 <= q' < p && order[q'] == h;
    assert q == q';
  }

  /** A coin reached after `j + 1` spends comes from the order's position `j` or later. */
  lemma {:induction false} DepthInOrder(pool: Pool, order: seq<Hash>, start: Coin, j: nat, d: Coin) returns (p: nat)
    requires IsPool(pool) && TopologicalOrder(pool, order) && Elements(order) == pool.Keys
    requires Reached(pool, start, j + 1, d)
    ensures j <= p < |order| && order[p] == d.hash
    decreases j
  {
    var c :| Reached(pool, start, j, c) && Follows(pool, c, d);
    p := FollowsInOrder(pool, order, c, d);
    if j > 0 {
      var q := DepthInOrder(pool, order, start, j - 1, c);
      assert order[q] in Elements(order);
      EarlierThan(order, c.hash, q, p);
    }
  }

  lemma {:induction false} OrderIsShort(pool: Pool, order: seq<Hash>)
    requires TopologicalOrder(pool, order)
    ensures |order| <= |pool|
  {
    assert forall i :: 0 <= i < |order| ==> order[i] in pool;
    OrderFitsPool(pool, order);
  }

  lemma {:induction false} DepthIsBounded(pool: Pool, order: seq<Hash>, start: Coin, j: nat, d: Coin)
    requires IsPool(pool) && TopologicalOrder(pool, order) && Elements(order) == pool.Keys
    requires Reached(pool, start, j, d)
    ensures j <= |pool|
  {
    if j > 0 {
      OrderIsShort(pool, order);
      var p := DepthInOrder(pool, order, start, j - 1, d);
    }
  }

  /** Every reached coin has the same owner. */
  lemma {:induction false} SameOwner(pool: Pool, start: Coin, j: nat, d: Coin)
    requires Reached(pool, start, j, d)
    ensures d.out.pubKeyHash == start.out.pubKeyHash
    decreases j
  {
    if j > 0 {
      var c :| Reached(pool, start, j - 1, c) && Follows(pool, c, d);
      SameOwner(pool, start, j - 1, c);
    }
  }

  // ----- Counting ways -----

  lemma {:induction false} WaysAreCounted(t: Txn, n: nat, c: Coin, d: Coin)
    requires n <= |t.vin|
    ensures WaysIn(t, n, c, d) == |set k: nat | k < n && PaysBack(t, k, c, d)|
    decreases n
  {
    if n == 0 {
      assert (set k: nat | k < n && PaysBack(t, k, c, d)) == {};
    } else {
      WaysAreCounted(t, n - 1, c, d);
      var before := set k: nat | k < n - 1 && PaysBack(t, k, c, d);
      assert (set k: nat | k < n && PaysBack(t, k, c, d))
          == before + if PaysBack(t, n - 1, c, d) then {n - 1} else {};
    }
  }

  /** A coin is listed after another as often as inputs of its transaction spend that one and pay it back. */
  lemma {:induction false} WaysAreInputs(pool: Pool, c: Coin, d: Coin)
    ensures Ways(pool, c, d)
         == if d.hash in pool then |set k: nat | k < |pool[d.hash].vin| && PaysBack(pool[d.hash], k, c, d)| else 0
  {
    if d.hash in pool {
      WaysAreCounted(pool[d.hash], |pool[d.hash].vin|, c, d);
    }
  }

  // ----- The search -----

  /** How often `d` is listed after the first `n` coins of a level. */
  ghost function LevelWays(pool: Pool, level: seq<Coin>, n: nat, d: Coin): nat
    requires n <= |level|
  {
    if n == 0 then 0 else LevelWays(pool, level, n - 1, d) + Ways(pool, level[n - 1], d)
  }

  /** The coins that follow a level, each as often as there are ways to it. */
  ghost predicate IsNext(pool: Pool, level: seq<Coin>, next: seq<Coin>) {
    forall d {:trigger multiset(next)[d]} {:trigger LevelWays(pool, level, |level|, d)} ::
      multiset(next)[d] == LevelWays(pool, level, |level|, d)
  }

  /** Level `j` of the coins that follow `start`, in any order. */
  ghost predicate IsLevel(pool: Pool, start: Coin, j: nat, level: seq<Coin>)
    decreases j
  {
    if j == 0 then level == [start]
    else exists before {:trigger IsNext(pool, before, level)} :: IsLevel(pool, start, j - 1, before) && IsNext(pool, before, level)
  }

  /** The ways from the coins of a level add up. */
  lemma {:induction false} LevelWaysAppend(pool: Pool, level: seq<Coin>, c: Coin, d: Coin)
    ensures LevelWays(pool, level + [c], |level| + 1, d) == LevelWays(pool, level, |level|, d) + Ways(pool, c, d)
  {
    LevelWaysPrefix(pool, level + [c], level, |level|, d);
  }

  lemma {:induction false} LevelWaysPrefix(pool: Pool, level: seq<Coin>, prefix: seq<Coin>, n: nat, d: Coin)
    requires n <= |prefix| && prefix <= level
    ensures LevelWays(pool, level, n, d) == LevelWays(pool, prefix, n, d)
    decreases n
  {
    if n > 0 {
      LevelWaysPrefix(pool, level, prefix, n - 1, d);
    }
  }

  lemma {:induction false} SomeLevelWay(pool: Pool, level: seq<Coin>, n: nat, d: Coin)
    requires IsPool(pool) && n <= |level|
    ensures LevelWays(pool, level, n, d) > 0 <==> exists i :: 0 <= i < n && Follows(pool, level[i], d)
    decreases n
  {
    if n > 0 {
      SomeLevelWay(pool, level, n - 1, d);
      SomeWay(pool, level[n - 1], d);
    }
  }

  /** The coins of level `j` are those reached by exactly `j` spends. */
  lemma {:induction false} LevelIsReached(pool: Pool, start: Coin, j: nat, level: seq<Coin>)
    requires IsPool(pool) && IsLevel(pool, start, j, level)
    ensures forall d :: d in level <==> Reached(pool, start, j, d)
    decreases j
  {
    if j > 0 {
      var before :| IsLevel(pool, start, j - 1, before) && IsNext(pool, before, level);
      LevelIsReached(pool, start, j - 1, before);
      forall d ensures d in level <==> Reached(pool, start, j, d) {
        SomeLevelWay(pool, before, |before|, d);
        assert d in level <==> multiset(level)[d] > 0;
      }
    }
  }

  /** Appends the next level behind the coins of one level. */
  method AppendNext(pool: Pool, level: seq<Coin>) returns (outs: seq<Coin>)
    requires IsPool(pool)
    ensures level <= outs && IsNext(pool, level, outs[|level|..])
  {
    outs := level;
    var target := |level|;
    for i := 0 to target
      invariant target <= |outs| && outs[..target] == level
      invariant forall d :: multiset(outs[target..])[d] == LevelWays(pool, level, i, d)
    {
      var kids := NextCoins(pool, outs[i]);
      assert outs[i] == level[i];
      assert (outs + kids)[target..] == outs[target..] + kids;
      outs := outs + kids;
    }
  }

  /** The last level: no coin of it is followed by another. */
  ghost predicate IsLast(pool: Pool, outs: seq<Coin>) {
    forall c, d :: c in outs ==> !Follows(pool, c, d)
  }

  lemma {:induction false} NothingNext(pool: Pool, level: seq<Coin>, next: seq<Coin>)
    requires IsPool(pool) && IsNext(pool, level, next) && next == []
    ensures IsLast(pool, level)
  {
    forall c, d | c in level ensures !Follows(pool, c, d) {
      var i :| 0 <= i < |level| && level[i] == c;
      SomeLevelWay(pool, level, |level|, d);
      assert multiset(next)[d] == LevelWays(pool, level, |level|, d);
    }
  }

  /**
   Level by level until a level has no successors: the result is exactly the
   deepest level, each coin as often as there are ways to it, and the level is no
   deeper than the pool is large.
   */
  method ExpandTxnOutput(pool: Pool, start: Coin, ghost order: seq<Hash>) returns (outs: seq<Coin>, ghost depth: nat)
    requires IsPool(pool) && TopologicalOrder(pool, order) && Elements(order) == pool.Keys
    ensures outs != [] && depth <= |pool|
    ensures IsLevel(pool, start, depth, outs) && IsLast(pool, outs)
  {
    outs := [start];
    depth := 0;
    var target := 0;
    var level := outs;
    while target != |outs|
      invariant target <= |outs| && outs != [] && depth <= |pool|
      invariant target != |outs| ==> IsLevel(pool, start, depth, outs[target..])
      invariant target == |outs| ==> IsLevel(pool, start, depth, outs) && IsLast(pool, outs)
      decreases target != |outs|, |pool| - depth
    {
      outs := outs[target..];
      target := |outs|;
      level := outs;
      outs := AppendNext(pool, level);
      if target != |outs| {
        depth := depth + 1;
        assert IsLevel(pool, start, depth, outs[target..]);
        LevelIsReached(pool, start, depth, outs[target..]);
        DepthIsBounded(pool, order, start, depth, outs[target..][0]);
      } else {
        assert outs == level && outs[target..] == [];
        NothingNext(pool, level, outs[target..]);
      }
    }
  }
}
