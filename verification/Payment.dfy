/** Building a payment: choosing outputs, then one output and the change. */
module Payments {
  import opened Types
  import opened Ledger
  import opened PoolGraph
  import opened Expand
  import opened Conservation
  import opened Base58
  import opened Wallet

  /** Transaction hash to numbers: the chosen output indices, or their values. */
  type Lists = map<Hash, seq<int>>

  function Sum(xs: seq<int>): int
    decreases |xs|
  {
    if xs == [] then 0 else Sum(xs[..|xs| - 1]) + xs[|xs| - 1]
  }

  ghost function SumLists(m: Lists): int
    decreases |m|
  {
    if m == map[] then 0 else var h :| h in m; Sum(m[h]) + SumLists(m - {h})
  }

  function ListAt(m: Lists, h: Hash): seq<int> {
    if h in m then m[h] else []
  }

  lemma {:induction false} SumWithout(m: Lists, k: Hash)
    requires k in m
    ensures SumLists(m) == Sum(m[k]) + SumLists(m - {k})
    decreases |m|
  {
    var h :| h in m && SumLists(m) == Sum(m[h]) + SumLists(m - {h});
    if h != k {
      SumWithout(m - {h}, k);
      SumWithout(m - {k}, h);
      assert m - {h} - {k} == m - {k} - {h};
    }
  }

  lemma {:induction false} SumAppend(m: Lists, k: Hash, x: int)
    ensures SumLists(m[k := ListAt(m, k) + [x]]) == SumLists(m) + x
  {
    var m' := m[k := ListAt(m, k) + [x]];
    SumWithout(m', k);
    assert (ListAt(m, k) + [x])[..|ListAt(m, k)|] == ListAt(m, k);
    if k in m {
      SumWithout(m, k);
      assert m' - {k} == m - {k};
    } else {
      assert m' - {k} == m;
    }
  }

  // ----- The coins of a key -----

  /** The coin was reached from an output of the set that belongs to `key`. */
  ghost predicate Spendable(entries: UtxoMap, pool: Pool, key: PublicKey, c: Coin) {
    exists start, depth: nat :: FromEntry(entries, key, start) && Reached(pool, start, depth, c)
  }

  ghost predicate FromEntry(entries: UtxoMap, key: PublicKey, start: Coin) {
    && start.hash in entries && 0 <= start.index < |entries[start.hash]|
    && start.out == entries[start.hash][start.index] && IsLockedWithKey(start.out, key)
  }

  /** The input spends an output that belongs to its key, in the set or in the pool, at its recorded value. */
  ghost predicate IsSpendable(entries: UtxoMap, pool: Pool, vin: TxnInput) {
    exists c: Coin :: c.hash == vin.voutHash && c.index == vin.voutIndex && c.out.value == vin.voutValue
      && Spendable(entries, pool, vin.pubKey, c)
  }

  /** An output of the set and the coins at the end of the pool spends from it. */
  datatype Trail = Trail(start: Coin, ends: seq<Coin>)

  ghost predicate IsTrail(entries: UtxoMap, pool: Pool, key: PublicKey, trail: Trail) {
    && FromEntry(entries, key, trail.start) && trail.ends != [] && IsLast(pool, trail.ends)
    && exists depth: nat :: IsLevel(pool, trail.start, depth, trail.ends)
  }

  /** Trails from different outputs. */
  ghost predicate AreTrails(entries: UtxoMap, pool: Pool, key: PublicKey, trails: seq<Trail>) {
    && (forall i {:trigger trails[i]} :: 0 <= i < |trails| ==> IsTrail(entries, pool, key, trails[i]))
    && (forall i, j :: 0 <= i < j < |trails| ==> trails[i].start != trails[j].start)
  }

  ghost predicate StartsAt(trails: seq<Trail>, start: Coin) {
    exists i :: 0 <= i < |trails| && trails[i].start == start
  }

  ghost predicate AllFollowed(entries: UtxoMap, key: PublicKey, trails: seq<Trail>) {
    forall start {:trigger FromEntry(entries, key, start)} :: FromEntry(entries, key, start) ==> StartsAt(trails, start)
  }

  function Ends(trails: seq<Trail>): seq<Coin>
    decreases |trails|
  {
    if trails == [] then [] else Ends(trails[..|trails| - 1]) + trails[|trails| - 1].ends
  }

  function Value(coins: seq<Coin>): int
    decreases |coins|
  {
    if coins == [] then 0 else Value(coins[..|coins| - 1]) + coins[|coins| - 1].out.value
  }

  /** No shorter choice reaches the amount. */
  ghost predicate FirstReaching(picked: seq<Coin>, amount: int) {
    forall n {:trigger picked[..n]} :: 0 < n < |picked| ==> Value(picked[..n]) < amount
  }

  // ----- The lists of a choice -----

  function IndexLists(coins: seq<Coin>): Lists
    decreases |coins|
  {
    if coins == [] then map[]
    else
      var m, c := IndexLists(coins[..|coins| - 1]), coins[|coins| - 1];
      m[c.hash := ListAt(m, c.hash) + [c.index]]
  }

  function ValueLists(coins: seq<Coin>): Lists
    decreases |coins|
  {
    if coins == [] then map[]
    else
      var m, c := ValueLists(coins[..|coins| - 1]), coins[|coins| - 1];
      m[c.hash := ListAt(m, c.hash) + [c.out.value]]
  }

  lemma {:induction false} SumOfLists(coins: seq<Coin>)
    ensures SumLists(ValueLists(coins)) == Value(coins)
    decreases |coins|
  {
    if coins != [] {
      var before, c := coins[..|coins| - 1], coins[|coins| - 1];
      SumOfLists(before);
      SumAppend(ValueLists(before), c.hash, c.out.value);
    }
  }

  /** What the search has chosen so far, as the code keeps it. */
  datatype Choice = Choice(sum: int, idxs: Lists, values: Lists)

  function ChoiceOf(picked: seq<Coin>): Choice {
    Choice(Value(picked), IndexLists(picked), ValueLists(picked))
  }

  /** The lists name the same transactions, and the sum is that of the values. */
  ghost predicate AddsUp(ch: Choice) {
    ch.idxs.Keys == ch.values.Keys && ch.sum == SumLists(ch.values)
  }

  lemma {:induction false} ChoiceAddsUp(picked: seq<Coin>)
    ensures AddsUp(ChoiceOf(picked))
  {
    ListKeys(picked);
    SumOfLists(picked);
  }

  /** Still searching: everything at the ends of the trails is chosen, and the amount is not reached. */
  ghost predicate Open(picked: seq<Coin>, amount: int, trails: seq<Trail>) {
    picked == Ends(trails) && FirstReaching(picked, amount) && (Value(picked) < amount || picked == [])
  }

  lemma {:induction false} PickNext(picked: seq<Coin>, c: Coin)
    ensures ChoiceOf(picked + [c]).sum == Value(picked) + c.out.value
    ensures ChoiceOf(picked + [c]).idxs == IndexLists(picked)[c.hash := ListAt(IndexLists(picked), c.hash) + [c.index]]
    ensures ChoiceOf(picked + [c]).values == ValueLists(picked)[c.hash := ListAt(ValueLists(picked), c.hash) + [c.out.value]]
  {
    assert (picked + [c])[..|picked|] == picked;
  }

  lemma {:induction false} StillFirst(picked: seq<Coin>, c: Coin, amount: int)
    requires FirstReaching(picked, amount) && (Value(picked) < amount || picked == [])
    ensures FirstReaching(picked + [c], amount)
  {
    var longer := picked + [c];
    forall n {:trigger longer[..n]} | 0 < n < |longer| ensures Value(longer[..n]) < amount {
      if n == |picked| {
        assert longer[..n] == picked;
      } else {
        assert longer[..n] == picked[..n];
      }
    }
  }

  method ChooseCoin(c: Coin, ch0: Choice, ghost picked: seq<Coin>) returns (ch: Choice)
    requires ch0 == ChoiceOf(picked)
    ensures ch == ChoiceOf(picked + [c])
  {
    PickNext(picked, c);
    ch := Choice(ch0.sum + c.out.value, ch0.idxs[c.hash := ListAt(ch0.idxs, c.hash) + [c.index]],
                 ch0.values[c.hash := ListAt(ch0.values, c.hash) + [c.out.value]]);
  }

  /** Adds coins until the amount is reached: `n` of them. */
  method ChooseCoins(coins: seq<Coin>, amount: int, ch0: Choice, ghost picked0: seq<Coin>)
      returns (ch: Choice, ghost picked: seq<Coin>, ghost n: nat)
    requires ch0 == ChoiceOf(picked0) && FirstReaching(picked0, amount) && (ch0.sum < amount || picked0 == [])
    ensures ch == ChoiceOf(picked) && AddsUp(ch) && FirstReaching(picked, amount)
    ensures n <= |coins| && picked == picked0 + coins[..n]
    ensures ch.sum < amount ==> n == |coins|
    ensures coins != [] ==> n > 0
  {
    ch, picked, n := ch0, picked0, 0;
    ChoiceAddsUp(picked);
    for i := 0 to |coins|
      invariant ch == ChoiceOf(picked) && AddsUp(ch) && n == i && picked == picked0 + coins[..n]
      invariant FirstReaching(picked, amount) && (ch.sum < amount || picked == [])
    {
      StillFirst(picked, coins[i], amount);
      ch := ChooseCoin(coins[i], ch, picked);
      assert picked0 + coins[..i] + [coins[i]] == picked0 + coins[..i + 1];
      picked, n := picked + [coins[i]], n + 1;
      ChoiceAddsUp(picked);
      if ch.sum >= amount {
        return;
      }
    }
  }

  lemma {:induction false} PickedHasLists(picked: seq<Coin>)
    requires picked != []
    ensures IndexLists(picked) != map[]
  {
    assert picked[|picked| - 1].hash in IndexLists(picked);
  }

  // ----- The search -----

  lemma {:induction false} AnotherTrail(entries: UtxoMap, pool: Pool, key: PublicKey, trails: seq<Trail>, trail: Trail)
    requires AreTrails(entries, pool, key, trails) && IsTrail(entries, pool, key, trail) && !StartsAt(trails, trail.start)
    ensures AreTrails(entries, pool, key, trails + [trail])
    ensures Ends(trails + [trail]) == Ends(trails) + trail.ends
    ensures forall start :: StartsAt(trails + [trail], start) <==> StartsAt(trails, start) || start == trail.start
  {
    var longer := trails + [trail];
    assert longer[..|trails|] == trails;
    forall start ensures StartsAt(longer, start) <==> StartsAt(trails, start) || start == trail.start {
      if StartsAt(trails, start) {
        var i :| 0 <= i < |trails| && trails[i].start == start;
        assert longer[i].start == start;
      }
      assert longer[|trails|].start == trail.start;
    }
  }

  /** Follows one output of the key along the pool and chooses from the coins at its end. */
  method FollowOutput(ghost entries: UtxoMap, pool: Pool, ghost key: PublicKey, amount: int, ghost order: seq<Hash>,
                      start: Coin, ch0: Choice, ghost picked0: seq<Coin>, ghost trails0: seq<Trail>)
      returns (ch: Choice, ghost picked: seq<Coin>, ghost trails: seq<Trail>)
    requires IsPool(pool) && TopologicalOrder(pool, order) && Elements(order) == pool.Keys
    requires FromEntry(entries, key, start) && !StartsAt(trails0, start)
    requires ch0 == ChoiceOf(picked0) && Open(picked0, amount, trails0) && AreTrails(entries, pool, key, trails0)
    ensures ch == ChoiceOf(picked) && AddsUp(ch) && FirstReaching(picked, amount) && picked != []
    ensures AreTrails(entries, pool, key, trails) && picked <= Ends(trails)
    ensures ch.sum < amount ==> picked == Ends(trails)
    ensures forall s :: StartsAt(trails, s) <==> StartsAt(trails0, s) || s == start
  {
    var coins;
    ghost var depth;
    coins, depth := ExpandTxnOutput(pool, start, order);
    assert IsTrail(entries, pool, key, Trail(start, coins));
    AnotherTrail(entries, pool, key, trails0, Trail(start, coins));
    trails := trails0 + [Trail(start, coins)];
    ghost var n;
    ch, picked, n := ChooseCoins(coins, amount, ch0, picked0);
    TakenFromEnd(picked0, coins, n);
  }

  lemma {:induction false} TakenFromEnd(a: seq<Coin>, b: seq<Coin>, n: nat)
    requires n <= |b|
    ensures a + b[..n] <= a + b && (n == |b| ==> a + b[..n] == a + b)
  {
    assert b == b[..n] + b[n..];
  }

  /** The trails start at the outputs of the key outside `rest`, in entry `h` only before position `i`. */
  ghost predicate Covered(entries: UtxoMap, key: PublicKey, trails: seq<Trail>, rest: set<Hash>, h: Hash, i: int) {
    forall start {:trigger StartsAt(trails, start)} {:trigger FromEntry(entries, key, start)} ::
      StartsAt(trails, start) <==>
        FromEntry(entries, key, start) && start.hash !in rest && (start.hash == h ==> start.index < i)
  }

  lemma {:induction false} CoverNext(entries: UtxoMap, key: PublicKey, trails: seq<Trail>, trails': seq<Trail>,
                                     rest: set<Hash>, h: Hash, i: int)
    requires h in entries && h !in rest && 0 <= i < |entries[h]| && Covered(entries, key, trails, rest, h, i)
    requires var start := Coin(entries[h][i], h, i);
      if IsLockedWithKey(entries[h][i], key) then forall s :: StartsAt(trails', s) <==> StartsAt(trails, s) || s == start
      else trails' == trails
    ensures Covered(entries, key, trails', rest, h, i + 1)
  {
    var next := Coin(entries[h][i], h, i);
    forall start ensures StartsAt(trails', start) <==>
        FromEntry(entries, key, start) && start.hash !in rest && (start.hash == h ==> start.index < i + 1)
    {
      assert FromEntry(entries, key, start) && start.hash == h && start.index == i ==> start == next;
    }
  }

  /** Follows the outputs of one entry, until the amount is reached. */
  method FollowEntry(entries: UtxoMap, pool: Pool, key: PublicKey, amount: int, ghost order: seq<Hash>, h: Hash,
                     ghost rest: set<Hash>, ch0: Choice, ghost picked0: seq<Coin>, ghost trails0: seq<Trail>)
      returns (ch: Choice, ghost picked: seq<Coin>, ghost trails: seq<Trail>)
    requires IsPool(pool) && TopologicalOrder(pool, order) && Elements(order) == pool.Keys && h in entries && h !in rest
    requires ch0 == ChoiceOf(picked0) && Open(picked0, amount, trails0) && AreTrails(entries, pool, key, trails0)
    requires Covered(entries, key, trails0, rest, h, 0)
    ensures ch == ChoiceOf(picked) && AddsUp(ch) && FirstReaching(picked, amount)
    ensures AreTrails(entries, pool, key, trails) && picked <= Ends(trails)
    ensures ch.sum < amount || picked == [] ==>
      Open(picked, amount, trails) && Covered(entries, key, trails, rest, h, |entries[h]|)
  {
    ch, picked, trails := ch0, picked0, trails0;
    ChoiceAddsUp(picked);
    for i := 0 to |entries[h]|
      invariant ch == ChoiceOf(picked) && AddsUp(ch) && Open(picked, amount, trails) && AreTrails(entries, pool, key, trails)
      invariant Covered(entries, key, trails, rest, h, i)
    {
      ghost var before := trails;
      if IsLockedWithKey(entries[h][i], key) {
        var start := Coin(entries[h][i], h, i);
        assert !StartsAt(trails, start);
        ch, picked, trails := FollowOutput(entries, pool, key, amount, order, start, ch, picked, trails);
        if ch.sum >= amount {
          return;
        }
      }
      CoverNext(entries, key, before, trails, rest, h, i);
    }
  }

  /** Everything outside `rest` was followed, and nothing in it. */
  ghost predicate CoveredBut(entries: UtxoMap, key: PublicKey, trails: seq<Trail>, rest: set<Hash>) {
    forall start {:trigger StartsAt(trails, start)} {:trigger FromEntry(entries, key, start)} ::
      StartsAt(trails, start) <==> FromEntry(entries, key, start) && start.hash !in rest
  }

  /**
   Walks the set in any order, follows every output of the key along the pool and
   stops with the first coin that reaches the amount. A coin at the end of several
   ways is chosen once for each of them.
   */
  method FindUTXOs(entries: UtxoMap, pool: Pool, key: PublicKey, amount: int, ghost order: seq<Hash>)
      returns (ch: Choice, ghost picked: seq<Coin>, ghost trails: seq<Trail>)
    requires IsPool(pool) && TopologicalOrder(pool, order) && Elements(order) == pool.Keys
    ensures ch == ChoiceOf(picked) && AddsUp(ch) && FirstReaching(picked, amount)
    ensures AreTrails(entries, pool, key, trails) && picked <= Ends(trails)
    ensures ch.sum < amount || picked == [] ==> picked == Ends(trails) && AllFollowed(entries, key, trails)
  {
    ch, picked, trails := Choice(0, map[], map[]), [], [];
    ChoiceAddsUp(picked);
    var rest := entries.Keys;
    while rest != {}
      invariant rest <= entries.Keys
      invariant ch == ChoiceOf(picked) && AddsUp(ch) && Open(picked, amount, trails) && AreTrails(entries, pool, key, trails)
      invariant CoveredBut(entries, key, trails, rest)
      decreases rest
    {
      var h :| h in rest;
      ghost var before := rest;
      rest := rest - {h};
      assert Covered(entries, key, trails, rest, h, 0) by {
        assert forall s: Coin :: s.hash !in before <==> s.hash !in rest && s.hash != h;
      }
      ch, picked, trails := FollowEntry(entries, pool, key, amount, order, h, rest, ch, picked, trails);
      if picked != [] {
        PickedHasLists(picked);
      }
      if ch.sum >= amount && ch.idxs != map[] {
        return;
      }
    }
  }

  // ----- The inputs -----

  function InputFor(key: PublicKey, c: Coin): TxnInput {
    TxnInput(c.hash, c.index, c.out.value, [], key)
  }

  /** The inputs for the chosen coins of the given transactions, as a bag. */
  function InputBag(key: PublicKey, coins: seq<Coin>, hashes: set<Hash>): multiset<TxnInput>
    decreases |coins|
  {
    if coins == [] then multiset{}
    else
      var c := coins[|coins| - 1];
      InputBag(key, coins[..|coins| - 1], hashes) + if c.hash in hashes then multiset{InputFor(key, c)} else multiset{}
  }

  function HashesOf(coins: seq<Coin>): set<Hash> {
    set i | 0 <= i < |coins| :: coins[i].hash
  }

  /** One input per chosen coin. */
  function InputsFor(key: PublicKey, coins: seq<Coin>): multiset<TxnInput> {
    InputBag(key, coins, HashesOf(coins))
  }

  lemma {:induction false} InputBagAdds(key: PublicKey, coins: seq<Coin>, hashes: set<Hash>, h: Hash)
    requires h !in hashes
    ensures InputBag(key, coins, hashes + {h}) == InputBag(key, coins, hashes) + InputBag(key, coins, {h})
    decreases |coins|
  {
    if coins != [] {
      InputBagAdds(key, coins[..|coins| - 1], hashes, h);
    }
  }

  lemma {:induction false} InputBagNone(key: PublicKey, coins: seq<Coin>)
    ensures InputBag(key, coins, {}) == multiset{}
    decreases |coins|
  {
    if coins != [] {
      InputBagNone(key, coins[..|coins| - 1]);
    }
  }

  function ListBag(key: PublicKey, h: Hash, idxs: seq<int>, values: seq<int>): multiset<TxnInput>
    requires |idxs| == |values|
    decreases |idxs|
  {
    if idxs == [] then multiset{}
    else
      var n := |idxs| - 1;
      ListBag(key, h, idxs[..n], values[..n]) + multiset{TxnInput(h, idxs[n], values[n], [], key)}
  }

  lemma {:induction false} ListBagAppend(key: PublicKey, h: Hash, idxs: seq<int>, values: seq<int>, i: int, v: int)
    requires |idxs| == |values|
    ensures ListBag(key, h, idxs + [i], values + [v]) == ListBag(key, h, idxs, values) + multiset{TxnInput(h, i, v, [], key)}
  {
    assert (idxs + [i])[..|idxs|] == idxs && (values + [v])[..|values|] == values;
  }

  /** The lists of a transaction hold exactly its chosen coins. */
  lemma {:induction false} ListsHoldCoins(key: PublicKey, coins: seq<Coin>, h: Hash)
    ensures |ListAt(IndexLists(coins), h)| == |ListAt(ValueLists(coins), h)|
    ensures ListBag(key, h, ListAt(IndexLists(coins), h), ListAt(ValueLists(coins), h)) == InputBag(key, coins, {h})
    decreases |coins|
  {
    if coins != [] {
      var before, c := coins[..|coins| - 1], coins[|coins| - 1];
      ListsHoldCoins(key, before, h);
      if c.hash == h {
        ListBagAppend(key, h, ListAt(IndexLists(before), h), ListAt(ValueLists(before), h), c.index, c.out.value);
      }
    }
  }

  lemma {:induction false} ListKeys(coins: seq<Coin>)
    ensures IndexLists(coins).Keys == ValueLists(coins).Keys == HashesOf(coins)
    decreases |coins|
  {
    if coins != [] {
      var before, c := coins[..|coins| - 1], coins[|coins| - 1];
      ListKeys(before);
      assert HashesOf(coins) == HashesOf(before) + {c.hash} by {
        forall h | h in HashesOf(before) ensures h in HashesOf(coins) {
          var i :| 0 <= i < |before| && before[i].hash == h;
          assert coins[i].hash == h;
        }
      }
    }
  }

  lemma {:induction false} InputValueAppend(ins: seq<TxnInput>, vin: TxnInput)
    ensures InputValue(ins + [vin]) == InputValue(ins) + vin.voutValue
  {
    assert (ins + [vin])[..|ins|] == ins;
  }

  lemma {:induction false} SumTake(values: seq<int>, i: nat)
    requires i < |values|
    ensures Sum(values[..i + 1]) == Sum(values[..i]) + values[i]
  {
    assert values[..i + 1][..i] == values[..i];
  }

  lemma {:induction false} ListBagTake(key: PublicKey, h: Hash, idxs: seq<int>, values: seq<int>, i: nat)
    requires |idxs| == |values| && i < |idxs|
    ensures ListBag(key, h, idxs[..i + 1], values[..i + 1])
         == ListBag(key, h, idxs[..i], values[..i]) + multiset{TxnInput(h, idxs[i], values[i], [], key)}
  {
    ListBagAppend(key, h, idxs[..i], values[..i], idxs[i], values[i]);
    assert idxs[..i] + [idxs[i]] == idxs[..i + 1] && values[..i] + [values[i]] == values[..i + 1];
  }

  /** The inputs for the chosen outputs of one transaction. */
  method InputsOf(key: PublicKey, h: Hash, idxs: seq<int>, values: seq<int>) returns (ins: seq<TxnInput>)
    requires |idxs| == |values|
    ensures multiset(ins) == ListBag(key, h, idxs, values) && InputValue(ins) == Sum(values)
  {
    ins := [];
    for i := 0 to |idxs|
      invariant multiset(ins) == ListBag(key, h, idxs[..i], values[..i]) && InputValue(ins) == Sum(values[..i])
    {
      ListBagTake(key, h, idxs, values, i);
      SumTake(values, i);
      InputValueAppend(ins, TxnInput(h, idxs[i], values[i], [], key));
      ins := ins + [TxnInput(h, idxs[i], values[i], [], key)];
    }
    assert values[..|values|] == values && idxs[..|idxs|] == idxs;
  }

  lemma {:induction false} InputValueConcat(a: seq<TxnInput>, b: seq<TxnInput>)
    ensures InputValue(a + b) == InputValue(a) + InputValue(b)
    decreases |b|
  {
    if b == [] {
      assert a + b == a;
    } else {
      assert (a + b)[..|a + b| - 1] == a + b[..|b| - 1];
      InputValueConcat(a, b[..|b| - 1]);
    }
  }

  /** The inputs of the transactions in `done` are built, those of `left` are still to come. */
  ghost predicate Building(key: PublicKey, picked: seq<Coin>, ins: seq<TxnInput>, left: Lists, done: set<Hash>) {
    && left.Keys !! done && left.Keys + done == HashesOf(picked)
    && (forall h {:trigger h in left} :: h in left ==> left[h] == ListAt(ValueLists(picked), h))
    && InputValue(ins) + SumLists(left) == Value(picked)
    && multiset(ins) == InputBag(key, picked, done)
  }

  lemma {:induction false} BuildingStarts(key: PublicKey, picked: seq<Coin>)
    ensures Building(key, picked, [], ValueLists(picked), {})
  {
    ListKeys(picked);
    SumOfLists(picked);
    InputBagNone(key, picked);
  }

  lemma {:induction false} BuildingAt(key: PublicKey, picked: seq<Coin>, ins: seq<TxnInput>, left: Lists, done: set<Hash>, h: Hash)
    requires Building(key, picked, ins, left, done) && h in left
    ensures h in IndexLists(picked) && h in ValueLists(picked)
    ensures |IndexLists(picked)[h]| == |ValueLists(picked)[h]|
    ensures ListBag(key, h, IndexLists(picked)[h], ValueLists(picked)[h]) == InputBag(key, picked, {h})
  {
    ListKeys(picked);
    assert h in HashesOf(picked);
    ListsHoldCoins(key, picked, h);
  }

  lemma {:induction false} BuildingNext(key: PublicKey, picked: seq<Coin>, ins: seq<TxnInput>, left: Lists, done: set<Hash>,
                                        h: Hash, more: seq<TxnInput>)
    requires Building(key, picked, ins, left, done) && h in left
    requires multiset(more) == InputBag(key, picked, {h}) && InputValue(more) == Sum(left[h])
    ensures Building(key, picked, ins + more, left - {h}, done + {h})
  {
    InputBagAdds(key, picked, done, h);
    InputValueConcat(ins, more);
    SumWithout(left, h);
    assert (left - {h}).Keys == left.Keys - {h};
  }

  lemma {:induction false} BuildingEnds(key: PublicKey, picked: seq<Coin>, ins: seq<TxnInput>, left: Lists, done: set<Hash>)
    requires Building(key, picked, ins, left, done) && left == map[]
    ensures multiset(ins) == InputsFor(key, picked) && InputValue(ins) == Value(picked)
  {
    assert done == HashesOf(picked);
  }

  /** One input per chosen coin, transaction by transaction in any order. */
  method BuildInputs(key: PublicKey, ch: Choice, ghost picked: seq<Coin>) returns (ins: seq<TxnInput>)
    requires ch == ChoiceOf(picked)
    ensures multiset(ins) == InputsFor(key, picked) && InputValue(ins) == Value(picked)
  {
    ins := [];
    var left := ch.values;
    ghost var done: set<Hash> := {};
    BuildingStarts(key, picked);
    while left != map[]
      invariant Building(key, picked, ins, left, done)
      decreases |left|
    {
      var h :| h in left;
      BuildingAt(key, picked, ins, left, done, h);
      var more := InputsOf(key, h, ch.idxs[h], ch.values[h]);
      BuildingNext(key, picked, ins, left, done, h, more);
      ins, left, done := ins + more, left - {h}, done + {h};
    }
    BuildingEnds(key, picked, ins, left, done);
  }

  lemma {:induction false} InputBagMember(key: PublicKey, coins: seq<Coin>, hashes: set<Hash>, vin: TxnInput)
    requires vin in InputBag(key, coins, hashes)
    ensures exists i :: 0 <= i < |coins| && InputFor(key, coins[i]) == vin
    decreases |coins|
  {
    var n := |coins| - 1;
    if vin in InputBag(key, coins[..n], hashes) {
      InputBagMember(key, coins[..n], hashes, vin);
      var i :| 0 <= i < n && InputFor(key, coins[..n][i]) == vin;
      assert coins[..n][i] == coins[i];
    } else {
      assert InputFor(key, coins[n]) == vin;
    }
  }

  lemma {:induction false} EndsAreSpendable(entries: UtxoMap, pool: Pool, key: PublicKey, trails: seq<Trail>, c: Coin)
    requires IsPool(pool) && AreTrails(entries, pool, key, trails) && c in Ends(trails)
    ensures Spendable(entries, pool, key, c)
    decreases |trails|
  {
    var n := |trails| - 1;
    if c in Ends(trails[..n]) {
      EndsAreSpendable(entries, pool, key, trails[..n], c);
    } else {
      var trail := trails[n];
      var depth: nat :| IsLevel(pool, trail.start, depth, trail.ends);
      LevelIsReached(pool, trail.start, depth, trail.ends);
      assert Reached(pool, trail.start, depth, c);
    }
  }

  lemma {:induction false} InputsAreSpendable(
      entries: UtxoMap, pool: Pool, key: PublicKey, trails: seq<Trail>, picked: seq<Coin>, ins: seq<TxnInput>)
    requires IsPool(pool) && AreTrails(entries, pool, key, trails) && picked <= Ends(trails)
    requires multiset(ins) == InputsFor(key, picked)
    ensures forall i :: 0 <= i < |ins| ==> ins[i].pubKey == key && IsSpendable(entries, pool, ins[i])
  {
    forall i | 0 <= i < |ins| ensures ins[i].pubKey == key && IsSpendable(entries, pool, ins[i]) {
      assert ins[i] in multiset(ins);
      InputBagMember(key, picked, HashesOf(picked), ins[i]);
      var j :| 0 <= j < |picked| && InputFor(key, picked[j]) == ins[i];
      assert picked[j] in Ends(trails);
      EndsAreSpendable(entries, pool, key, trails, picked[j]);
    }
  }

  // ----- The payment -----

  /** Everything the key can spend was followed to its end, and it does not reach the amount. */
  ghost predicate CannotPay(entries: UtxoMap, pool: Pool, key: PublicKey, amount: int, trails: seq<Trail>) {
    AreTrails(entries, pool, key, trails) && AllFollowed(entries, key, trails) && Value(Ends(trails)) < amount
  }

  /** The coins are the first of the ends of the trails that reach the amount. */
  ghost predicate IsChosen(entries: UtxoMap, pool: Pool, key: PublicKey, amount: int, picked: seq<Coin>, trails: seq<Trail>) {
    && AreTrails(entries, pool, key, trails) && picked <= Ends(trails)
    && FirstReaching(picked, amount) && Value(picked) >= amount
  }

  /** One input per chosen coin, each spending a spendable output of the key. */
  ghost predicate PaysWith(entries: UtxoMap, pool: Pool, key: PublicKey, picked: seq<Coin>, ins: seq<TxnInput>) {
    && multiset(ins) == InputsFor(key, picked) && InputValue(ins) == Value(picked)
    && forall i {:trigger ins[i]} :: 0 <= i < |ins| ==> ins[i].pubKey == key && IsSpendable(entries, pool, ins[i])
  }

  datatype PayResult = Paid(t: Txn) | NoKey | NotEnough

  /** The amount for the receiver and any surplus for the sender. */
  method BuildOutputs(sender: Bytes, receiver: Bytes, amount: int, sum: int) returns (outs: seq<TxnOutput>)
    requires |Decoded(sender)| >= 5 && |Decoded(receiver)| >= 5 && amount <= sum
    ensures outs == [NewTxnOutput(receiver, amount)] + if sum > amount then [NewTxnOutput(sender, sum - amount)] else []
    ensures OutputValue(outs) == sum
  {
    outs := [NewTxnOutput(receiver, amount)];
    PaysOut(receiver, sender, amount, sum);
    if sum > amount {
      outs := outs + [NewTxnOutput(sender, sum - amount)];
    }
  }

  ghost predicate PaysTo(t: Txn, sender: Bytes, receiver: Bytes, amount: int, sum: int)
    requires |Decoded(sender)| >= 5 && |Decoded(receiver)| >= 5
  {
    t.vout == [NewTxnOutput(receiver, amount)] + if sum > amount then [NewTxnOutput(sender, sum - amount)] else []
  }

  /** Inputs for the chosen coins, and outputs of the same value. */
  method Assemble(entries: UtxoMap, pool: Pool, key: PublicKey, sender: Bytes, receiver: Bytes, amount: int,
                  ch: Choice, ghost picked: seq<Coin>, ghost trails: seq<Trail>) returns (t: Txn)
    requires IsPool(pool) && |Decoded(sender)| >= 5 && |Decoded(receiver)| >= 5
    requires ch == ChoiceOf(picked) && IsChosen(entries, pool, key, amount, picked, trails)
    ensures PaysWith(entries, pool, key, picked, t.vin) && Balanced(t)
    ensures PaysTo(t, sender, receiver, amount, Value(picked))
  {
    var ins := BuildInputs(key, ch, picked);
    InputsAreSpendable(entries, pool, key, trails, picked, ins);
    var outs := BuildOutputs(sender, receiver, amount, ch.sum);
    t := Txn(ins, outs);
  }

  /**
   The unsigned payment: one input per chosen coin, balanced, with any surplus returned
   to the sender.
   */
  method CreateTransaction(entries: UtxoMap, pool: Pool, wallet: Option<PublicKey>, sender: Bytes, receiver: Bytes,
                           amount: int, ghost order: seq<Hash>)
      returns (r: PayResult, ghost picked: seq<Coin>, ghost trails: seq<Trail>)
    requires IsPool(pool) && TopologicalOrder(pool, order) && Elements(order) == pool.Keys
    requires |Decoded(sender)| >= 5 && |Decoded(receiver)| >= 5
    ensures r.NoKey? <==> wallet.None?
    ensures r.NotEnough? ==> CannotPay(entries, pool, wallet.value, amount, trails)
    ensures r.Paid? ==> IsChosen(entries, pool, wallet.value, amount, picked, trails)
    ensures r.Paid? ==> PaysWith(entries, pool, wallet.value, picked, r.t.vin) && Balanced(r.t)
    ensures r.Paid? ==> PaysTo(r.t, sender, receiver, amount, Value(picked))
  {
    picked, trails := [], [];
    if wallet.None? {
      return NoKey, picked, trails;
    }
    var ch;
    ch, picked, trails := FindUTXOs(entries, pool, wallet.value, amount, order);
    if ch.sum < amount {
      return NotEnough, picked, trails;
    }
    var t := Assemble(entries, pool, wallet.value, sender, receiver, amount, ch, picked, trails);
    r := Paid(t);
  }

  lemma {:induction false} PaysOut(receiver: Bytes, sender: Bytes, amount: int, sum: int)
    requires |Decoded(sender)| >= 5 && |Decoded(receiver)| >= 5
    ensures OutputValue([NewTxnOutput(receiver, amount)]) == amount
    ensures OutputValue([NewTxnOutput(receiver, amount)] + [NewTxnOutput(sender, sum - amount)]) == sum
  {
    OutputValueConcat([NewTxnOutput(receiver, amount)], [NewTxnOutput(sender, sum - amount)]);
  }
}
