/**
 Chains of blocks and the database contents that describe them: one bucket with
 three kinds of keys ("lastest", height, block hash) and the transaction index.
 */
module Chain {
  import opened Types
  import opened DatabaseKey
  import opened Ledger

  datatype Entry = BlockEntry(block: Block) | HashEntry(hash: Hash)

  type Bucket = map<Bytes, Entry>

  type TxnIndex = map<Hash, Txn>

  /** The key "lastest" in ASCII. */
  const LASTEST: Bytes := [108, 97, 115, 116, 101, 115, 116]

  lemma {:induction false} LastestIsAscii()
    ensures |LASTEST| == |"lastest"| && forall i :: 0 <= i < |LASTEST| ==> LASTEST[i] as int == "lastest"[i] as int
  {
  }

  // ----- Well-formed chains -----

  /** Heights count from 0, every block names its predecessor, and the genesis names none. */
  ghost predicate Linked(chain: seq<Block>) {
    forall i {:trigger LinkedAt(chain, i)} :: 0 <= i < |chain| ==> LinkedAt(chain, i)
  }

  ghost predicate LinkedAt(chain: seq<Block>, i: nat)
    requires i < |chain|
  {
    && chain[i].header.height == i
    && chain[i].header.prevHash == if i == 0 then NO_HASH else BlockHash(chain[i - 1])
  }

  ghost predicate CollisionFree(a: seq<Block>, b: seq<Block>) {
    forall i, j {:trigger BlockHash(a[i]), BlockHash(b[j])} ::
      0 <= i < |a| && 0 <= j < |b| && BlockHash(a[i]) == BlockHash(b[j]) ==> a[i] == b[j]
  }

  /** No transaction is in two blocks of the chain. */
  ghost predicate DistinctTxns(chain: seq<Block>) {
    forall i, j {:trigger TxnHashes(chain[i].txns), TxnHashes(chain[j].txns)} ::
      0 <= i < j < |chain| ==> TxnHashes(chain[i].txns) !! TxnHashes(chain[j].txns)
  }

  ghost predicate WellFormed(chain: seq<Block>) {
    && |chain| <= HEIGHT_LIMIT
    && Linked(chain)
    && CollisionFree(chain, chain)
    && DistinctTxns(chain)
  }

  lemma {:induction false} PrefixWellFormed(chain: seq<Block>, n: nat)
    requires WellFormed(chain) && n <= |chain|
    ensures WellFormed(chain[..n])
  {
    var c := chain[..n];
    forall i | 0 <= i < |c| ensures LinkedAt(c, i) {
      assert LinkedAt(chain, i);
    }
  }

  /** Hash links fix everything below: chains that agree at one height agree below it. */
  lemma {:induction false} AgreeBelow(a: seq<Block>, b: seq<Block>, i: nat, j: nat)
    requires Linked(a) && Linked(b) && CollisionFree(a, b)
    requires j <= i < |a| && i < |b| && BlockHash(a[i]) == BlockHash(b[i])
    ensures a[j] == b[j]
    decreases i
  {
    assert a[i] == b[i];
    if j < i {
      assert LinkedAt(a, i) && LinkedAt(b, i);
      AgreeBelow(a, b, i - 1, j);
    }
  }

  // ----- The bucket of a chain -----

  /** The height and hash entries of a chain. */
  function Entries(chain: seq<Block>): Bucket
    decreases |chain|
  {
    if chain == [] then map[]
    else
      var b := chain[|chain| - 1];
      Entries(chain[..|chain| - 1])
        [BlockHash(b).bytes := BlockEntry(b)]
        [HeightKey(|chain| - 1) := HashEntry(BlockHash(b))]
  }

  function BucketOf(chain: seq<Block>): Bucket {
    if chain == [] then map[] else Entries(chain)[LASTEST := BlockEntry(chain[|chain| - 1])]
  }

  ghost predicate IsKeyOf(chain: seq<Block>, key: Bytes, i: nat)
    requires i < |chain|
  {
    key == HeightKey(i) || key == BlockHash(chain[i]).bytes
  }

  lemma {:induction false} EntryKeys(chain: seq<Block>, key: Bytes)
    requires key in Entries(chain)
    ensures exists i :: 0 <= i < |chain| && IsKeyOf(chain, key, i)
    decreases |chain|
  {
    var n := |chain| - 1;
    if key == BlockHash(chain[n]).bytes || key == HeightKey(n) {
      assert IsKeyOf(chain, key, n);
    } else {
      EntryKeys(chain[..n], key);
      var i :| 0 <= i < n && IsKeyOf(chain[..n], key, i);
      assert IsKeyOf(chain, key, i);
    }
  }

  lemma {:induction false} NoOtherKeys(chain: seq<Block>)
    requires |chain| <= HEIGHT_LIMIT
    ensures LASTEST !in Entries(chain) && [] !in Entries(chain)
    ensures forall h :: |chain| <= h < HEIGHT_LIMIT ==> HeightKey(h) !in Entries(chain)
  {
    if key :| key in Entries(chain) && (key == LASTEST || key == []) {
      EntryKeys(chain, key);
      var i :| 0 <= i < |chain| && IsKeyOf(chain, key, i);
      HeightKeyLength(i);
    }
    forall h | |chain| <= h < HEIGHT_LIMIT ensures HeightKey(h) !in Entries(chain) {
      if HeightKey(h) in Entries(chain) {
        EntryKeys(chain, HeightKey(h));
        var i :| 0 <= i < |chain| && IsKeyOf(chain, HeightKey(h), i);
        HeightKeyLength(h);
        HeightKeysInjective(h, i);
      }
    }
  }

  lemma {:induction false} FreshHashKey(chain: seq<Block>, hash: Hash)
    requires |chain| <= HEIGHT_LIMIT && |hash.bytes| == 32
    requires forall i :: 0 <= i < |chain| ==> BlockHash(chain[i]) != hash
    ensures hash.bytes !in Entries(chain)
  {
    if hash.bytes in Entries(chain) {
      EntryKeys(chain, hash.bytes);
      var i :| 0 <= i < |chain| && IsKeyOf(chain, hash.bytes, i);
      HeightKeyLength(i);
    }
  }

  /** What the bucket answers for the heights and hashes of its chain. */
  lemma {:induction false} EntriesAt(chain: seq<Block>, i: nat)
    requires WellFormed(chain) && i < |chain|
    ensures HeightKey(i) in Entries(chain) && Entries(chain)[HeightKey(i)] == HashEntry(BlockHash(chain[i]))
    ensures BlockHash(chain[i]).bytes in Entries(chain)
    ensures Entries(chain)[BlockHash(chain[i]).bytes] == BlockEntry(chain[i])
    decreases |chain|
  {
    var n := |chain| - 1;
    HeightKeyLength(n);
    HeightKeyLength(i);
    if i < n {
      PrefixWellFormed(chain, n);
      EntriesAt(chain[..n], i);
      HeightKeysInjective(i, n);
      HashesDiffer(chain, i, n);
    }
  }

  lemma {:induction false} HashesDiffer(chain: seq<Block>, i: nat, j: nat)
    requires WellFormed(chain) && i < j < |chain|
    ensures BlockHash(chain[i]) != BlockHash(chain[j])
  {
    assert LinkedAt(chain, i) && LinkedAt(chain, j);
  }

  /** Adding a block's entries. */
  lemma {:induction false} EntriesOfLonger(chain: seq<Block>, b: Block)
    ensures Entries(chain + [b])
         == Entries(chain)[BlockHash(b).bytes := BlockEntry(b)][HeightKey(|chain|) := HashEntry(BlockHash(b))]
  {
    assert (chain + [b])[..|chain|] == chain;
  }

  /** Deleting the last block's entries. */
  lemma {:induction false} EntriesOfShorter(chain: seq<Block>)
    requires WellFormed(chain) && chain != []
    ensures var n := |chain| - 1;
      Entries(chain) - {BlockHash(chain[n]).bytes, HeightKey(n)} == Entries(chain[..n])
  {
    var n := |chain| - 1;
    var c, b := chain[..n], chain[n];
    PrefixWellFormed(chain, n);
    forall i | 0 <= i < n ensures BlockHash(c[i]) != BlockHash(b) {
      HashesDiffer(chain, i, n);
    }
    FreshHashKey(c, BlockHash(b));
    NoOtherKeys(c);
    assert HeightKey(n) !in Entries(c);
  }

  // ----- The transaction index of a chain -----

  function Indexed(index: TxnIndex, ts: seq<Txn>): TxnIndex
    decreases |ts|
  {
    if ts == [] then index else Indexed(index, ts[..|ts| - 1])[TxnHash(ts[|ts| - 1]) := ts[|ts| - 1]]
  }

  function TxnIndexOf(chain: seq<Block>): TxnIndex
    decreases |chain|
  {
    if chain == [] then map[] else Indexed(TxnIndexOf(chain[..|chain| - 1]), chain[|chain| - 1].txns)
  }

  lemma {:induction false} IndexedKeys(index: TxnIndex, ts: seq<Txn>)
    ensures Indexed(index, ts).Keys == index.Keys + TxnHashes(ts)
    ensures forall h :: h in index && h !in TxnHashes(ts) ==> Indexed(index, ts)[h] == index[h]
    decreases |ts|
  {
    if ts != [] {
      var before := ts[..|ts| - 1];
      IndexedKeys(index, before);
      TxnHashesSplit(ts);
    }
  }

  lemma {:induction false} IndexKeys(chain: seq<Block>, h: Hash)
    requires h in TxnIndexOf(chain)
    ensures exists i :: 0 <= i < |chain| && h in TxnHashes(chain[i].txns)
    decreases |chain|
  {
    var n := |chain| - 1;
    IndexedKeys(TxnIndexOf(chain[..n]), chain[n].txns);
    if h !in TxnHashes(chain[n].txns) {
      IndexKeys(chain[..n], h);
      var i :| 0 <= i < n && h in TxnHashes(chain[..n][i].txns);
      assert chain[i] == chain[..n][i];
    }
  }

  lemma {:induction false} IndexOfLonger(chain: seq<Block>, b: Block)
    ensures TxnIndexOf(chain + [b]) == Indexed(TxnIndexOf(chain), b.txns)
  {
    assert (chain + [b])[..|chain|] == chain;
  }

  /** Deleting the last block's transactions from the index. */
  lemma {:induction false} IndexOfShorter(chain: seq<Block>)
    requires WellFormed(chain) && chain != []
    ensures TxnIndexOf(chain) - TxnHashes(chain[|chain| - 1].txns) == TxnIndexOf(chain[..|chain| - 1])
  {
    var n := |chain| - 1;
    var ts := chain[n].txns;
    var before := TxnIndexOf(chain[..n]);
    IndexedKeys(before, ts);
    forall h | h in before ensures h !in TxnHashes(ts) {
      IndexKeys(chain[..n], h);
      var i :| 0 <= i < n && h in TxnHashes(chain[..n][i].txns);
      assert TxnHashes(chain[i].txns) !! TxnHashes(chain[n].txns);
    }
    assert TxnIndexOf(chain) - TxnHashes(ts) == before;
  }

  /** The transactions of a block with one hash are one transaction. */
  ghost predicate HashedApart(ts: seq<Txn>) {
    forall i, j :: 0 <= i < |ts| && 0 <= j < |ts| && TxnHash(ts[i]) == TxnHash(ts[j]) ==> ts[i] == ts[j]
  }

  lemma {:induction false} IndexedAnswers(index: TxnIndex, ts: seq<Txn>, j: nat)
    requires j < |ts| && HashedApart(ts)
    ensures TxnHash(ts[j]) in Indexed(index, ts) && Indexed(index, ts)[TxnHash(ts[j])] == ts[j]
    decreases |ts|
  {
    var n := |ts| - 1;
    assert HashedApart(ts[..n]);
    if j < n {
      IndexedAnswers(index, ts[..n], j);
      assert ts[..n][j] == ts[j];
    }
  }

  /** The index of a chain answers the hash of every transaction with that transaction. */
  lemma {:induction false} IndexAnswers(chain: seq<Block>, i: nat, j: nat)
    requires WellFormed(chain) && i < |chain| && j < |chain[i].txns| && HashedApart(chain[i].txns)
    ensures var t := chain[i].txns[j]; TxnHash(t) in TxnIndexOf(chain) && TxnIndexOf(chain)[TxnHash(t)] == t
    decreases |chain|
  {
    var n, t := |chain| - 1, chain[i].txns[j];
    if i == n {
      IndexedAnswers(TxnIndexOf(chain[..n]), chain[n].txns, j);
    } else {
      PrefixWellFormed(chain, n);
      IndexAnswers(chain[..n], i, j);
      IndexedKeys(TxnIndexOf(chain[..n]), chain[n].txns);
      assert TxnHash(t) in TxnHashes(chain[i].txns);
      assert TxnHashes(chain[i].txns) !! TxnHashes(chain[n].txns);
    }
  }

  // ----- Rebuilding the transaction index from the top -----

  lemma {:induction false} IndexedIsUnion(index: TxnIndex, ts: seq<Txn>)
    ensures Indexed(index, ts) == index + Indexed(map[], ts)
    decreases |ts|
  {
    if ts != [] {
      IndexedIsUnion(index, ts[..|ts| - 1]);
    }
  }

  lemma {:induction false} SwapDisjoint(a: TxnIndex, b: TxnIndex, c: TxnIndex)
    requires b.Keys !! c.Keys
    ensures a + (b + c) == a + c + b
  {
  }

  /** Indexing block `i` after the blocks above it moves one block from "still to do" to "done". */
  lemma {:induction false} ReindexStep(chain: seq<Block>, i: nat, done: TxnIndex)
    requires WellFormed(chain) && i < |chain|
    requires done + TxnIndexOf(chain[..i + 1]) == TxnIndexOf(chain)
    ensures Indexed(done, chain[i].txns) + TxnIndexOf(chain[..i]) == TxnIndexOf(chain)
  {
    var c, ts := chain[..i + 1], chain[i].txns;
    PrefixWellFormed(chain, i + 1);
    assert c[..i] == chain[..i];
    var below, own := TxnIndexOf(chain[..i]), Indexed(map[], ts);
    IndexedIsUnion(below, ts);
    IndexedIsUnion(done, ts);
    IndexedKeys(map[], ts);
    IndexOfShorter(c);
    assert TxnIndexOf(c) - TxnHashes(ts) == below;
    assert below.Keys !! own.Keys;
    SwapDisjoint(done, below, own);
  }
}
