/**
 Which payments are sound. The search follows every output of a key separately, so a
 pending output that several of them lead to is chosen once for each. A payment can be
 applied only if its coins are distinct, and exactly if they are still there.
 */
module ChosenCoins {
  import opened Types
  import opened Ledger
  import opened Rollback
  import opened Incremental
  import opened PoolGraph
  import opened Expand
  import opened Payments

  // ----- When coins are distinct -----

  ghost predicate NoRepeats(coins: seq<Coin>) {
    forall i, j :: 0 <= i < j < |coins| ==> coins[i] != coins[j]
  }

  /** Two spendable coins of the key both lead to `d`. */
  ghost predicate Meet(entries: UtxoMap, pool: Pool, key: PublicKey, c: Coin, c': Coin, d: Coin) {
    && Spendable(entries, pool, key, c) && Spendable(entries, pool, key, c')
    && Follows(pool, c, d) && Follows(pool, c', d)
  }

  /** No two spendable coins of the key lead to a common coin, and none in two ways. */
  ghost predicate OneWay(entries: UtxoMap, pool: Pool, key: PublicKey) {
    && (forall c, d {:trigger Ways(pool, c, d)} :: Spendable(entries, pool, key, c) ==> Ways(pool, c, d) <= 1)
    && (forall c, c', d {:trigger Meet(entries, pool, key, c, c', d)} :: Meet(entries, pool, key, c, c', d) ==> c == c')
  }

  lemma {:induction false} ReachedIsSpendable(entries: UtxoMap, pool: Pool, key: PublicKey, start: Coin, j: nat, c: Coin)
    requires FromEntry(entries, key, start) && Reached(pool, start, j, c)
    ensures Spendable(entries, pool, key, c)
  {
  }

  lemma {:induction false} WaysOfOthers(entries: UtxoMap, pool: Pool, key: PublicKey, level: seq<Coin>, n: nat, c: Coin, d: Coin)
    requires IsPool(pool) && OneWay(entries, pool, key) && n <= |level|
    requires forall i :: 0 <= i < n ==> Spendable(entries, pool, key, level[i]) && level[i] != c
    requires Spendable(entries, pool, key, c) && Follows(pool, c, d)
    ensures LevelWays(pool, level, n, d) == 0
    decreases n
  {
    if n > 0 {
      WaysOfOthers(entries, pool, key, level, n - 1, c, d);
      SomeWay(pool, level[n - 1], d);
      assert !Meet(entries, pool, key, level[n - 1], c, d);
    }
  }

  /** From distinct coins every coin is reached at most once. */
  lemma {:induction false} AtMostOneWay(entries: UtxoMap, pool: Pool, key: PublicKey, level: seq<Coin>, n: nat, d: Coin)
    requires IsPool(pool) && OneWay(entries, pool, key) && n <= |level| && NoRepeats(level)
    requires forall i :: 0 <= i < |level| ==> Spendable(entries, pool, key, level[i])
    ensures LevelWays(pool, level, n, d) <= 1
    decreases n
  {
    if n > 0 {
      AtMostOneWay(entries, pool, key, level, n - 1, d);
      SomeWay(pool, level[n - 1], d);
      if Follows(pool, level[n - 1], d) {
        WaysOfOthers(entries, pool, key, level, n - 1, level[n - 1], d);
      }
    }
  }

  lemma {:induction false} TwoCopies<T>(xs: seq<T>, i: nat, j: nat)
    requires i < j < |xs| && xs[i] == xs[j]
    ensures multiset(xs)[xs[i]] >= 2
  {
    assert xs == xs[..i] + [xs[i]] + xs[i + 1..j] + [xs[j]] + xs[j + 1..];
  }

  lemma {:induction false} BagHasNoRepeats(coins: seq<Coin>)
    requires forall d :: multiset(coins)[d] <= 1
    ensures NoRepeats(coins)
  {
    if i, j :| 0 <= i < j < |coins| && coins[i] == coins[j] {
      TwoCopies(coins, i, j);
    }
  }

  lemma {:induction false} LevelHasNoRepeats(
      entries: UtxoMap, pool: Pool, key: PublicKey, start: Coin, j: nat, level: seq<Coin>)
    requires IsPool(pool) && OneWay(entries, pool, key) && FromEntry(entries, key, start) && IsLevel(pool, start, j, level)
    ensures NoRepeats(level)
    decreases j
  {
    if j > 0 {
      var before :| IsLevel(pool, start, j - 1, before) && IsNext(pool, before, level);
      LevelHasNoRepeats(entries, pool, key, start, j - 1, before);
      LevelIsReached(pool, start, j - 1, before);
      forall i | 0 <= i < |before| ensures Spendable(entries, pool, key, before[i]) {
        assert before[i] in before;
        ReachedIsSpendable(entries, pool, key, start, j - 1, before[i]);
      }
      forall d ensures multiset(level)[d] <= 1 {
        AtMostOneWay(entries, pool, key, before, |before|, d);
      }
      BagHasNoRepeats(level);
    }
  }

  /** A reached coin is filed in the pool. */
  lemma {:induction false} ReachedFromPool(pool: Pool, start: Coin, j: nat, d: Coin)
    requires IsPool(pool) && j > 0 && Reached(pool, start, j, d)
    ensures d.hash in pool
  {
    var c :| Reached(pool, start, j - 1, c) && Follows(pool, c, d);
    var h, k: nat :| h in pool && PaysBack(pool[h], k, c, d);
  }

  /** The coin is reached from an output of the key by `i` spends. */
  ghost predicate Leads(entries: UtxoMap, pool: Pool, key: PublicKey, a: Coin, i: nat, d: Coin) {
    FromEntry(entries, key, a) && Reached(pool, a, i, d)
  }

  /** The pool is separate from the set, and no two coins of the key lead to a common one. */
  ghost predicate Separate(entries: UtxoMap, pool: Pool, key: PublicKey) {
    IsPool(pool) && OneWay(entries, pool, key) && entries.Keys !! pool.Keys
  }

  lemma {:induction false} Before(entries: UtxoMap, pool: Pool, key: PublicKey, a: Coin, i: nat, d: Coin) returns (c: Coin)
    requires i > 0 && Leads(entries, pool, key, a, i, d)
    ensures Leads(entries, pool, key, a, i - 1, c) && Follows(pool, c, d)
  {
    c :| Reached(pool, a, i - 1, c) && Follows(pool, c, d);
  }

  lemma {:induction false} SameBefore(
      entries: UtxoMap, pool: Pool, key: PublicKey, a: Coin, i: nat, c: Coin, b: Coin, j: nat, c': Coin, d: Coin)
    requires Separate(entries, pool, key) && Follows(pool, c, d) && Follows(pool, c', d)
    requires Leads(entries, pool, key, a, i, c) && Leads(entries, pool, key, b, j, c')
    ensures c == c'
  {
    ReachedIsSpendable(entries, pool, key, a, i, c);
    ReachedIsSpendable(entries, pool, key, b, j, c');
    assert Meet(entries, pool, key, c, c', d);
  }

  /** An output of the set is reached only from itself. */
  lemma {:induction false} OutputIsFirst(entries: UtxoMap, pool: Pool, key: PublicKey, d: Coin, start: Coin, j: nat)
    requires Separate(entries, pool, key) && d.hash in entries && Leads(entries, pool, key, start, j, d)
    ensures j == 0 && d == start
  {
    if j > 0 {
      ReachedFromPool(pool, start, j, d);
    }
  }

  /** A coin is reached from one output only. */
  lemma {:induction false} OneStart(
      entries: UtxoMap, pool: Pool, key: PublicKey, a: Coin, i: nat, b: Coin, j: nat, d: Coin)
    requires Separate(entries, pool, key) && Leads(entries, pool, key, a, i, d) && Leads(entries, pool, key, b, j, d)
    ensures a == b
    decreases i
  {
    if i == 0 {
      OutputIsFirst(entries, pool, key, d, b, j);
    } else if j == 0 {
      OutputIsFirst(entries, pool, key, d, a, i);
    } else {
      var c := Before(entries, pool, key, a, i, d);
      var c' := Before(entries, pool, key, b, j, d);
      SameBefore(entries, pool, key, a, i - 1, c, b, j - 1, c', d);
      OneStart(entries, pool, key, a, i - 1, b, j - 1, c);
    }
  }

  lemma {:induction false} EndOfTrail(entries: UtxoMap, pool: Pool, key: PublicKey, trails: seq<Trail>, c: Coin) returns (i: nat)
    requires AreTrails(entries, pool, key, trails) && c in Ends(trails)
    ensures i < |trails| && c in trails[i].ends
    decreases |trails|
  {
    var n := |trails| - 1;
    if c in trails[n].ends {
      i := n;
    } else {
      i := EndOfTrail(entries, pool, key, trails[..n], c);
    }
  }

  /** A coin at the end of two trails comes from one output. */
  lemma {:induction false} TrailsMeet(entries: UtxoMap, pool: Pool, key: PublicKey, a: Trail, b: Trail, c: Coin)
    requires Separate(entries, pool, key)
    requires IsTrail(entries, pool, key, a) && IsTrail(entries, pool, key, b) && c in a.ends && c in b.ends
    ensures a.start == b.start
  {
    var i: nat :| IsLevel(pool, a.start, i, a.ends);
    var j: nat :| IsLevel(pool, b.start, j, b.ends);
    LevelIsReached(pool, a.start, i, a.ends);
    LevelIsReached(pool, b.start, j, b.ends);
    OneStart(entries, pool, key, a.start, i, b.start, j, c);
  }

  lemma {:induction false} ConcatHasNoRepeats(a: seq<Coin>, b: seq<Coin>)
    requires NoRepeats(a) && NoRepeats(b) && forall c :: c in a ==> c !in b
    ensures NoRepeats(a + b)
  {
    var all := a + b;
    forall i, j | 0 <= i < j < |all| ensures all[i] != all[j] {
      if j >= |a| {
        assert all[j] == b[j - |a|] && all[j] in b;
        if i < |a| {
          assert all[i] in a;
        }
      }
    }
  }

  /** Where no two outputs of the key lead to a common pending one, no coin is chosen twice. */
  lemma {:induction false} EndsHaveNoRepeats(entries: UtxoMap, pool: Pool, key: PublicKey, trails: seq<Trail>)
    requires Separate(entries, pool, key)
    requires AreTrails(entries, pool, key, trails)
    ensures NoRepeats(Ends(trails))
    decreases |trails|
  {
    if trails != [] {
      var before, last := trails[..|trails| - 1], trails[|trails| - 1];
      EndsHaveNoRepeats(entries, pool, key, before);
      var depth: nat :| IsLevel(pool, last.start, depth, last.ends);
      LevelHasNoRepeats(entries, pool, key, last.start, depth, last.ends);
      forall c | c in Ends(before) ensures c !in last.ends {
        if c in last.ends {
          var i := EndOfTrail(entries, pool, key, before, c);
          assert trails[i].start != last.start;
          TrailsMeet(entries, pool, key, trails[i], last, c);
        }
      }
      ConcatHasNoRepeats(Ends(before), last.ends);
    }
  }

  // ----- When a payment is exact -----

  /** No two inputs name the same transaction. */
  ghost predicate HashesDiffer(ins: seq<TxnInput>) {
    forall i, j :: 0 <= i < j < |ins| ==> ins[i].voutHash != ins[j].voutHash
  }

  /** The entry the input names holds exactly one output of its key, of the recorded value. */
  ghost predicate ExactAlone(s: UtxoMap, vin: TxnInput) {
    vin.voutHash in s && ExactSpend(s[vin.voutHash], vin)
  }

  lemma {:induction false} EntryUntouched(s: UtxoMap, group: int, vins: seq<TxnInput>, h: Hash)
    requires SpendInputs(s, group, vins).Some? && forall i :: 0 <= i < |vins| ==> vins[i].voutHash != h
    ensures Get(SpendInputs(s, group, vins).value, h) == Get(s, h)
    decreases |vins|
  {
    if vins != [] {
      EntryUntouched(s, group, vins[..|vins| - 1], h);
    }
  }

  lemma {:induction false} NoneLocked(outs: seq<TxnOutput>, key: PublicKey, other: PublicKey)
    ensures forall i :: 0 <= i < |Remaining(outs, key)| ==> !IsLockedWithKey(Remaining(outs, key)[i], key)
    ensures (forall i :: 0 <= i < |outs| ==> !IsLockedWithKey(outs[i], key)) ==>
      forall i :: 0 <= i < |Remaining(outs, other)| ==> !IsLockedWithKey(Remaining(outs, other)[i], key)
    decreases |outs|
  {
    if outs != [] {
      NoneLocked(outs[1..], key, other);
    }
  }

  /** After an input of the key nothing of the key is left in the entry it named. */
  lemma {:induction false} EntryEmptied(s: UtxoMap, group: int, vins: seq<TxnInput>, key: PublicKey, i: nat)
    requires SpendInputs(s, group, vins).Some? && i < |vins| && forall j :: 0 <= j < |vins| ==> vins[j].pubKey == key
    ensures var h := vins[i].voutHash; var s' := SpendInputs(s, group, vins).value;
      h in s' ==> forall j :: 0 <= j < |s'[h]| ==> !IsLockedWithKey(s'[h][j], key)
    decreases |vins|
  {
    var n := |vins| - 1;
    var s1, h := SpendInputs(s, group, vins[..n]).value, vins[i].voutHash;
    if i < n {
      EntryEmptied(s, group, vins[..n], key, i);
      assert vins[..n][i] == vins[i];
    }
    if h in s1 {
      NoneLocked(s1[h], key, key);
    }
  }

  /**
   A payment of one key of the group applies exactly if and only if its inputs name
   different transactions and each finds exactly its own output there.
   */
  lemma {:induction false} PaymentExactly(s: UtxoMap, group: int, key: PublicKey, ins: seq<TxnInput>)
    requires forall i :: 0 <= i < |ins| ==> ins[i].pubKey == key
    requires group == GroupOfKeyHash(KeyHash(key))
    ensures ExactInputs(s, group, ins)
       <==> HashesDiffer(ins) && forall i :: 0 <= i < |ins| ==> ExactAlone(s, ins[i])
    decreases |ins|
  {
    if ins != [] {
      var before, vin := ins[..|ins| - 1], ins[|ins| - 1];
      PaymentExactly(s, group, key, before);
      assert forall i :: 0 <= i < |before| ==> before[i] == ins[i];
      if ExactInputs(s, group, before) {
        LastExactly(s, group, key, before, vin);
      }
      if ExactInputs(s, group, ins) {
        assert ExactInputs(s, group, before);
      }
    }
  }

  lemma {:induction false} ExactHasLocked(outs: seq<TxnOutput>, vin: TxnInput)
    ensures ExactSpend(outs, vin) ==> exists j :: 0 <= j < |outs| && IsLockedWithKey(outs[j], vin.pubKey)
  {
    if ExactSpend(outs, vin) {
      var j :| 0 <= j < |outs| && ExactSpendAt(outs, vin, j);
      assert IsLockedWithKey(outs[j], vin.pubKey);
    }
  }

  lemma {:induction false} LastExactly(s: UtxoMap, group: int, key: PublicKey, before: seq<TxnInput>, vin: TxnInput)
    requires ExactInputs(s, group, before) && vin.pubKey == key && forall i :: 0 <= i < |before| ==> before[i].pubKey == key
    requires group == GroupOfKeyHash(KeyHash(key))
    ensures ExactInput(SpendInputs(s, group, before).value, group, vin)
       <==> ExactAlone(s, vin) && forall i :: 0 <= i < |before| ==> before[i].voutHash != vin.voutHash
  {
    var s' := SpendInputs(s, group, before).value;
    if i :| 0 <= i < |before| && before[i].voutHash == vin.voutHash {
      if vin.voutHash in s' {
        ExactHasLocked(s'[vin.voutHash], vin);
      }
      EntryEmptied(s, group, before, key, i);
    } else {
      EntryUntouched(s, group, before, vin.voutHash);
      assert Get(s', vin.voutHash) == Get(s, vin.voutHash);
    }
  }

  // ----- When a built payment is exact -----

  /** No two chosen coins are of one transaction. */
  ghost predicate OnePerTxn(coins: seq<Coin>) {
    forall i, j :: 0 <= i < j < |coins| ==> coins[i].hash != coins[j].hash
  }

  lemma {:induction false} OneInputEach(key: PublicKey, coins: seq<Coin>, hashes: set<Hash>, vin: TxnInput)
    requires OnePerTxn(coins)
    ensures InputBag(key, coins, hashes)[vin] <= 1
    decreases |coins|
  {
    if coins != [] {
      var before, c := coins[..|coins| - 1], coins[|coins| - 1];
      OneInputEach(key, before, hashes, vin);
      if vin == InputFor(key, c) && vin in InputBag(key, before, hashes) {
        InputBagMember(key, before, hashes, vin);
      }
    }
  }

  /** Inputs built from coins of different transactions name different transactions. */
  lemma {:induction false} InputsDiffer(key: PublicKey, coins: seq<Coin>, ins: seq<TxnInput>)
    requires OnePerTxn(coins) && multiset(ins) == InputsFor(key, coins)
    ensures HashesDiffer(ins)
  {
    forall i, j | 0 <= i < j < |ins| ensures ins[i].voutHash != ins[j].voutHash {
      assert ins[i] in multiset(ins) && ins[j] in multiset(ins);
      InputBagMember(key, coins, HashesOf(coins), ins[i]);
      InputBagMember(key, coins, HashesOf(coins), ins[j]);
      if ins[i] == ins[j] {
        OneInputEach(key, coins, HashesOf(coins), ins[i]);
        TwoCopies(ins, i, j);
      }
    }
  }

  /** No owner has two outputs of one transaction. */
  ghost predicate OwnersOnce(entries: UtxoMap, pool: Pool) {
    && (forall h :: h in entries ==> DistinctOwners(entries[h]))
    && (forall h :: h in pool ==> DistinctOwners(pool[h].vout))
  }

  /** The outputs among which a coin stands: those of its entry, or of its pending transaction. */
  function Home(entries: UtxoMap, pool: Pool, h: Hash): seq<TxnOutput> {
    if h in entries then entries[h] else if h in pool then pool[h].vout else []
  }

  ghost predicate StandsIn(outs: seq<TxnOutput>, key: PublicKey, c: Coin) {
    0 <= c.index < |outs| && outs[c.index] == c.out && IsLockedWithKey(c.out, key)
  }

  lemma {:induction false} SpendableStands(entries: UtxoMap, pool: Pool, key: PublicKey, c: Coin)
    requires IsPool(pool) && entries.Keys !! pool.Keys && Spendable(entries, pool, key, c)
    ensures c.hash in entries || c.hash in pool
    ensures StandsIn(Home(entries, pool, c.hash), key, c)
  {
    var start, depth: nat :| FromEntry(entries, key, start) && Reached(pool, start, depth, c);
    SameOwner(pool, start, depth, c);
    if depth > 0 {
      var b :| Reached(pool, start, depth - 1, b) && Follows(pool, b, c);
      var h, k: nat :| h in pool && PaysBack(pool[h], k, b, c);
      assert TxnHash(pool[h]) == h;
    }
  }

  lemma {:induction false} SameHomeSameCoin(entries: UtxoMap, pool: Pool, key: PublicKey, c: Coin, c': Coin)
    requires OwnersOnce(entries, pool) && c.hash == c'.hash && (c.hash in entries || c.hash in pool)
    requires StandsIn(Home(entries, pool, c.hash), key, c) && StandsIn(Home(entries, pool, c.hash), key, c')
    ensures c == c'
  {
  }

  /** Distinct chosen coins are of different transactions, where no owner has two outputs of one. */
  lemma {:induction false} DistinctCoinsDiffer(entries: UtxoMap, pool: Pool, key: PublicKey, trails: seq<Trail>, picked: seq<Coin>)
    requires Separate(entries, pool, key) && OwnersOnce(entries, pool)
    requires AreTrails(entries, pool, key, trails) && picked <= Ends(trails)
    ensures OnePerTxn(picked)
  {
    EndsHaveNoRepeats(entries, pool, key, trails);
    forall i, j | 0 <= i < j < |picked| ensures picked[i].hash != picked[j].hash {
      assert picked[i] == Ends(trails)[i] && picked[j] == Ends(trails)[j];
      EndsAreSpendable(entries, pool, key, trails, picked[i]);
      EndsAreSpendable(entries, pool, key, trails, picked[j]);
      SpendableStands(entries, pool, key, picked[i]);
      SpendableStands(entries, pool, key, picked[j]);
      if picked[i].hash == picked[j].hash {
        SameHomeSameCoin(entries, pool, key, picked[i], picked[j]);
      }
    }
  }

  /** No input of the transactions names `h` with the key's hash. */
  ghost predicate Unspent(ts: seq<Txn>, h: Hash, key: PublicKey) {
    forall i, k :: 0 <= i < |ts| && 0 <= k < |Spends(ts[i])| ==>
      Spends(ts[i])[k].voutHash != h || KeyHash(Spends(ts[i])[k].pubKey) != KeyHash(key)
  }

  /** The entry has what `outs` has of the key. */
  ghost predicate KeepsKey(e: Option<seq<TxnOutput>>, outs: seq<TxnOutput>, key: PublicKey) {
    forall o :: IsLockedWithKey(o, key) ==> multiset(if e.Some? then e.value else [])[o] == multiset(outs)[o]
  }

  lemma {:induction false} SpendKeepsKey(e: Option<seq<TxnOutput>>, outs: seq<TxnOutput>, h: Hash, vins: seq<TxnInput>, key: PublicKey)
    requires KeepsKey(e, outs, key)
    requires forall k :: 0 <= k < |vins| ==> vins[k].voutHash != h || KeyHash(vins[k].pubKey) != KeyHash(key)
    ensures KeepsKey(SpendEntry(e, h, vins), outs, key)
    decreases |vins|
  {
    if vins != [] {
      var before, vin := vins[..|vins| - 1], vins[|vins| - 1];
      SpendKeepsKey(e, outs, h, before, key);
      var e' := SpendEntry(e, h, before);
      if e'.Some? && vin.voutHash == h {
        forall o | IsLockedWithKey(o, key) ensures multiset(Remaining(e'.value, vin.pubKey))[o] == multiset(outs)[o] {
          RemainingCount(e'.value, vin.pubKey, o);
        }
      }
    }
  }

  lemma {:induction false} ApplyKeepsKey(e: Option<seq<TxnOutput>>, outs: seq<TxnOutput>, h: Hash, ts: seq<Txn>, key: PublicKey)
    requires KeepsKey(e, outs, key) && Unspent(ts, h, key) && forall i :: 0 <= i < |ts| ==> TxnHash(ts[i]) != h
    ensures KeepsKey(ApplyEntry(e, h, ts), outs, key)
    decreases |ts|
  {
    if ts != [] {
      ApplyKeepsKey(e, outs, h, ts[..|ts| - 1], key);
      SpendKeepsKey(ApplyEntry(e, h, ts[..|ts| - 1]), outs, h, Spends(ts[|ts| - 1]), key);
    }
  }

  lemma {:induction false} OnlyOneOfOwner(outs: seq<TxnOutput>, k: nat, o: TxnOutput)
    requires DistinctOwners(outs) && k < |outs| && o.pubKeyHash == outs[k].pubKeyHash
    ensures multiset(outs)[o] == if o == outs[k] then 1 else 0
  {
    assert outs == outs[..k] + [outs[k]] + outs[k + 1..];
    assert o !in outs[..k] && o !in outs[k + 1..];
  }

  /** An entry that has kept the key's one output is spent exactly. */
  lemma {:induction false} KeptIsExact(e: Option<seq<TxnOutput>>, outs: seq<TxnOutput>, key: PublicKey, c: Coin)
    requires DistinctOwners(outs) && StandsIn(outs, key, c) && KeepsKey(e, outs, key)
    ensures e.Some? && ExactSpend(e.value, InputFor(key, c))
  {
    OnlyOneOfOwner(outs, c.index, c.out);
    var now := if e.Some? then e.value else [];
    assert c.out in multiset(now);
    var i :| 0 <= i < |now| && now[i] == c.out;
    forall j | 0 <= j < |now| && j != i ensures !IsLockedWithKey(now[j], key) {
      if IsLockedWithKey(now[j], key) {
        assert now[j] in multiset(now);
        OnlyOneOfOwner(outs, c.index, now[j]);
        assert now[j] == c.out;
        TwoCopies(now, if i < j then i else j, if i < j then j else i);
      }
    }
    assert ExactSpendAt(now, InputFor(key, c), i);
  }

  /** The whole pool in order. */
  ghost predicate ListsPool(pool: Pool, order: seq<Hash>, txns: seq<Txn>) {
    && Distinct(order) && Elements(order) == pool.Keys && |txns| == |order|
    && forall i {:trigger txns[i]} :: 0 <= i < |txns| ==> order[i] in pool && txns[i] == pool[order[i]]
  }

  /** Where nothing in the pool spends it, a coin is still there after the pool was applied. */
  lemma {:induction false} UnspentIsExact(entries: UtxoMap, pool: Pool, order: seq<Hash>, txns: seq<Txn>, group: int,
                                          key: PublicKey, c: Coin, s: UtxoMap)
    requires IsPool(pool) && entries.Keys !! pool.Keys && OwnersOnce(entries, pool) && ListsPool(pool, order, txns)
    requires ApplyTxns(entries, group, txns) == Some(s)
    requires Spendable(entries, pool, key, c) && Unspent(txns, c.hash, key)
    ensures ExactAlone(s, InputFor(key, c))
  {
    var h := c.hash;
    SpendableStands(entries, pool, key, c);
    ApplyTxnsAt(entries, group, txns, h);
    if h in entries {
      ApplyKeepsKey(Some(entries[h]), entries[h], h, txns, key);
      KeptIsExact(Get(s, h), entries[h], key, c);
    } else {
      assert h in Elements(order);
      var p :| 0 <= p < |order| && order[p] == h;
      assert txns[p] == pool[h];
      var after := txns[p + 1..];
      ApplyEntryFrom(txns, p, Get(entries, h));
      PoolHashesDiffer(pool, order, txns);
      LaterDiffer(txns, p, after);
      assert Unspent(after, h, key);
      ApplyKeepsKey(Some(pool[h].vout), pool[h].vout, h, after, key);
      KeptIsExact(Get(s, h), pool[h].vout, key, c);
    }
  }

  lemma {:induction false} PoolHashesDiffer(pool: Pool, order: seq<Hash>, txns: seq<Txn>)
    requires IsPool(pool) && ListsPool(pool, order, txns)
    ensures UniqueHashes(txns)
  {
    forall i, j | 0 <= i < j < |txns| ensures TxnHash(txns[i]) != TxnHash(txns[j]) {
      assert TxnHash(txns[i]) == order[i] && TxnHash(txns[j]) == order[j];
    }
  }

  /**
   A built payment applies exactly on top of the pool, if no two outputs of the key
   lead to a common pending one, no owner has two outputs of one transaction, and
   nothing in the pool spends the chosen coins.
   */
  lemma {:induction false} BuiltPaymentIsExact(
      entries: UtxoMap, pool: Pool, order: seq<Hash>, txns: seq<Txn>, group: int, key: PublicKey, s: UtxoMap,
      trails: seq<Trail>, picked: seq<Coin>, ins: seq<TxnInput>)
    requires Separate(entries, pool, key) && OwnersOnce(entries, pool) && ListsPool(pool, order, txns)
    requires ApplyTxns(entries, group, txns) == Some(s) && group == GroupOfKeyHash(KeyHash(key))
    requires AreTrails(entries, pool, key, trails) && picked <= Ends(trails) && PaysWith(entries, pool, key, picked, ins)
    requires forall i {:trigger picked[i]} :: 0 <= i < |picked| ==> Unspent(txns, picked[i].hash, key)
    ensures ExactInputs(s, group, ins)
  {
    DistinctCoinsDiffer(entries, pool, key, trails, picked);
    InputsDiffer(key, picked, ins);
    forall i | 0 <= i < |ins| ensures ExactAlone(s, ins[i]) {
      assert ins[i] in multiset(ins);
      InputBagMember(key, picked, HashesOf(picked), ins[i]);
      var j :| 0 <= j < |picked| && InputFor(key, picked[j]) == ins[i];
      assert picked[j] in Ends(trails);
      EndsAreSpendable(entries, pool, key, trails, picked[j]);
      UnspentIsExact(entries, pool, order, txns, group, key, picked[j], s);
    }
    PaymentExactly(s, group, key, ins);
  }

  // ----- A case -----

  /** A pending payment that spends an output of `x` in each of two entries and pays `y` back. */
  function Collected(h1: Hash, h2: Hash, key: PublicKey, x: int, y: int): Txn {
    Txn([TxnInput(h1, 0, x, [], key), TxnInput(h2, 0, x, [], key)], [TxnOutput(y, KeyHash(key))])
  }

  function TwoEntries(h1: Hash, h2: Hash, key: PublicKey, x: int): UtxoMap {
    map[h1 := [TxnOutput(x, KeyHash(key))], h2 := [TxnOutput(x, KeyHash(key))]]
  }

  function Change(h1: Hash, h2: Hash, key: PublicKey, x: int, y: int): Coin {
    Coin(TxnOutput(y, KeyHash(key)), TxnHash(Collected(h1, h2, key, x, y)), 0)
  }

  function OnePending(t: Txn): Pool {
    map[TxnHash(t) := t]
  }

  lemma {:induction false} OneWayToChange(h1: Hash, h2: Hash, key: PublicKey, x: int, y: int, c: Coin, d: Coin)
    requires h1 != h2 && c.out == TxnOutput(x, KeyHash(key)) && (c.hash == h1 || c.hash == h2)
    ensures Ways(OnePending(Collected(h1, h2, key, x, y)), c, d) == if d == Change(h1, h2, key, x, y) then 1 else 0
  {
    var t := Collected(h1, h2, key, x, y);
    var change := Change(h1, h2, key, x, y);
    var k := if c.hash == h1 then 0 else 1;
    assert PaysBack(t, k, c, d) <==> d == change;
    assert !PaysBack(t, 1 - k, c, d);
    if d.hash == TxnHash(t) {
      assert WaysIn(t, 0, c, d) == 0;
      assert WaysIn(t, 1, c, d) == WaysIn(t, 0, c, d) + if PaysBack(t, 0, c, d) then 1 else 0;
      assert WaysIn(t, 2, c, d) == WaysIn(t, 1, c, d) + if PaysBack(t, 1, c, d) then 1 else 0;
    }
  }

  lemma {:induction false} ChangeIsLast(h1: Hash, h2: Hash, key: PublicKey, x: int, y: int)
    requires TxnHash(Collected(h1, h2, key, x, y)) != h1 && TxnHash(Collected(h1, h2, key, x, y)) != h2
    ensures IsLast(OnePending(Collected(h1, h2, key, x, y)), [Change(h1, h2, key, x, y)])
  {
  }

  lemma {:induction false} TrailToChange(h1: Hash, h2: Hash, key: PublicKey, x: int, y: int, c: Coin)
    requires h1 != h2 && TxnHash(Collected(h1, h2, key, x, y)) != h1 && TxnHash(Collected(h1, h2, key, x, y)) != h2
    requires c == Coin(TxnOutput(x, KeyHash(key)), h1, 0) || c == Coin(TxnOutput(x, KeyHash(key)), h2, 0)
    ensures IsTrail(TwoEntries(h1, h2, key, x), OnePending(Collected(h1, h2, key, x, y)), key, Trail(c, [Change(h1, h2, key, x, y)]))
  {
    var pool, level, next := OnePending(Collected(h1, h2, key, x, y)), [c], [Change(h1, h2, key, x, y)];
    forall d ensures multiset(next)[d] == LevelWays(pool, level, 1, d) {
      OneWayToChange(h1, h2, key, x, y, c, d);
      assert LevelWays(pool, level, 0, d) == 0;
    }
    assert IsLevel(pool, c, 0, level) && IsNext(pool, level, next);
    assert IsLevel(pool, c, 1, next);
    ChangeIsLast(h1, h2, key, x, y);
  }

  /**
   Both outputs lead to the same change of `y`, which is chosen twice: a payment of more
   than `y` is built from it as if there were two of it, and no set lets it apply exactly.
   */
  lemma {:induction false} CommonCoinIsCountedTwice(h1: Hash, h2: Hash, key: PublicKey, x: int, y: int, amount: int)
    requires h1 != h2 && TxnHash(Collected(h1, h2, key, x, y)) != h1 && TxnHash(Collected(h1, h2, key, x, y)) != h2
    requires y < amount <= 2 * y
    ensures var entries, pool := TwoEntries(h1, h2, key, x), OnePending(Collected(h1, h2, key, x, y));
      var c1, c2 := Coin(TxnOutput(x, KeyHash(key)), h1, 0), Coin(TxnOutput(x, KeyHash(key)), h2, 0);
      var d := Change(h1, h2, key, x, y);
      IsChosen(entries, pool, key, amount, [d, d], [Trail(c1, [d]), Trail(c2, [d])])
    ensures var d := Change(h1, h2, key, x, y);
      InputsFor(key, [d, d]) == multiset{InputFor(key, d), InputFor(key, d)}
  {
    var entries, pool := TwoEntries(h1, h2, key, x), OnePending(Collected(h1, h2, key, x, y));
    var c1, c2 := Coin(TxnOutput(x, KeyHash(key)), h1, 0), Coin(TxnOutput(x, KeyHash(key)), h2, 0);
    var d := Change(h1, h2, key, x, y);
    TrailToChange(h1, h2, key, x, y, c1);
    TrailToChange(h1, h2, key, x, y, c2);
    EndsOfTwo(Trail(c1, [d]), Trail(c2, [d]));
    assert [d] + [d] == [d, d];
    ReachedByTwo(d, amount);
    InputsOfTwo(key, d);
  }

  lemma {:induction false} EndsOfOne(trail: Trail)
    ensures Ends([trail]) == trail.ends
  {
    assert [trail][..0] == [] && [] + trail.ends == trail.ends;
  }

  lemma {:induction false} EndsOfTwo(a: Trail, b: Trail)
    ensures Ends([a, b]) == a.ends + b.ends
  {
    assert [a, b][..1] == [a];
    EndsOfOne(a);
  }

  lemma {:induction false} ValueOfOne(d: Coin)
    ensures Value([d]) == d.out.value
  {
    assert [d][..0] == [];
  }

  lemma {:induction false} ReachedByTwo(d: Coin, amount: int)
    requires d.out.value < amount <= 2 * d.out.value
    ensures FirstReaching([d, d], amount) && Value([d, d]) >= amount
  {
    assert [d, d][..1] == [d];
    ValueOfOne(d);
  }

  lemma {:induction false} InputsOfTwo(key: PublicKey, d: Coin)
    ensures InputsFor(key, [d, d]) == multiset{InputFor(key, d), InputFor(key, d)}
  {
    var two, vin := [d, d], InputFor(key, d);
    var hashes := HashesOf(two);
    assert two[0].hash in hashes;
    assert two[..1] == [d] && [d][..0] == [];
    assert InputBag(key, [d], hashes) == InputBag(key, [], hashes) + multiset{vin} == multiset{vin};
    assert InputBag(key, two, hashes) == InputBag(key, [d], hashes) + multiset{vin};
  }

  /** A payment that names an output twice applies exactly on no set. */
  lemma {:induction false} RepeatedIsNeverExact(s: UtxoMap, group: int, key: PublicKey, ins: seq<TxnInput>, i: nat, j: nat)
    requires i < j < |ins| && ins[i] == ins[j] && forall k :: 0 <= k < |ins| ==> ins[k].pubKey == key
    requires group == GroupOfKeyHash(KeyHash(key))
    ensures !ExactInputs(s, group, ins)
  {
    PaymentExactly(s, group, key, ins);
  }
}
