/** The chain store of one group, with its cached height and its pending transactions. */
module Blockchains {
  import opened Types
  import opened DatabaseKey
  import opened Chain
  import opened Ledger
  import opened Scanning
  import opened Mempools

  class Blockchain {
    var blocks: Bucket
    var txns: TxnIndex
    var cacheHeight: int
    var heightLoaded: bool
    const pool: Mempool
    ghost var chain: seq<Block>

    // ----- What the store holds -----

    /** The block entries are those of `c`, wherever "lastest" points. */
    ghost predicate BlocksAre(c: seq<Block>)
      reads this
    {
      WellFormed(c) && blocks - {LASTEST} == Entries(c)
    }

    /** The block entries and the transaction index are those of `c`. */
    ghost predicate Holds(c: seq<Block>)
      reads this
    {
      BlocksAre(c) && txns == TxnIndexOf(c)
    }

    /** "lastest" and the cached height are those of the last block of `c`. */
    ghost predicate TopIs(c: seq<Block>)
      reads this
    {
      && (LASTEST in blocks <==> c != [])
      && (c != [] ==> blocks[LASTEST] == BlockEntry(c[|c| - 1]))
      && (heightLoaded ==> cacheHeight == |c| - 1)
    }

    ghost predicate Valid()
      reads this, pool
    {
      Holds(chain) && TopIs(chain) && pool.Valid()
    }

    /** A valid store is exactly the bucket and the transaction index of its chain. */
    lemma {:induction false} ValidIsBucket()
      requires Valid()
      ensures blocks == BucketOf(chain) && txns == TxnIndexOf(chain)
    {
    }

    /** The height of the stored last block. */
    function StoredHeight(): int
      reads this
    {
      if LASTEST in blocks && blocks[LASTEST].BlockEntry? then blocks[LASTEST].block.header.height else -1
    }

    /** The cached height, once loaded, is that of the stored last block and of the chain. */
    lemma {:induction false} CachedHeightIsStored()
      requires Valid()
      ensures StoredHeight() == |chain| - 1
      ensures heightLoaded ==> cacheHeight == StoredHeight()
    {
      if chain != [] {
        assert LinkedAt(chain, |chain| - 1);
      }
    }

    constructor ()
      ensures Valid() && chain == [] && fresh(pool)
    {
      blocks, txns, cacheHeight, heightLoaded := map[], map[], 0, false;
      pool := new Mempool();
      chain := [];
    }

    // ----- Reading -----

    method GetBlockByHash(hash: Bytes) returns (b: Option<Block>)
      ensures b == if hash in blocks && blocks[hash].BlockEntry? then Some(blocks[hash].block) else None
    {
      b := if hash in blocks && blocks[hash].BlockEntry? then Some(blocks[hash].block) else None;
    }

    method GetLastest() returns (b: Option<Block>)
      ensures b == if LASTEST in blocks && blocks[LASTEST].BlockEntry? then Some(blocks[LASTEST].block) else None
    {
      b := GetBlockByHash(LASTEST);
    }

    /**
     Looks the hash up by height and the block up by hash. A negative height is
     looked up as its last byte.
     */
    method GetBlockByHeight(height: int, ghost c: seq<Block>) returns (b: Option<Block>)
      requires Holds(c) && InRange(height, INT32_WIDTH)
      ensures var h := if height < 0 then height % 256 else height;
        b == if h < |c| then Some(c[h]) else None
    {
      var key := EncodeInt(height, INT32_WIDTH);
      LookupHeight(c, if height < 0 then height % 256 else height);
      if height < 0 {
        NegativeHeightAliases(height);
      }
      if key !in blocks || !blocks[key].HashEntry? {
        return None;
      }
      b := GetBlockByHash(blocks[key].hash.bytes);
    }

    lemma {:induction false} LookupHeight(c: seq<Block>, h: nat)
      requires Holds(c) && InRange(h, INT32_WIDTH)
      ensures h < |c| ==>
        && HeightKey(h) in blocks && blocks[HeightKey(h)] == HashEntry(BlockHash(c[h]))
        && BlockHash(c[h]).bytes in blocks && blocks[BlockHash(c[h]).bytes] == BlockEntry(c[h])
      ensures h >= |c| ==> HeightKey(h) !in blocks
    {
      NoOtherKeys(c);
      if h < |c| {
        EntriesAt(c, h);
        HeightKeyLength(h);
        assert HeightKey(h) in blocks - {LASTEST};
        assert BlockHash(c[h]).bytes in blocks - {LASTEST};
      } else {
        HeightLimitIsTight(h);
        if h < HEIGHT_LIMIT {
          HeightKeyLength(h);
        }
        assert HeightKey(h) !in blocks - {LASTEST};
      }
    }

    /** The height, read from the database the first time and from the cache afterwards. */
    method GetHeight() returns (height: int)
      requires Valid()
      modifies this`cacheHeight, this`heightLoaded
      ensures Valid() && heightLoaded
      ensures height == cacheHeight == |chain| - 1
    {
      if !heightLoaded {
        var lastest := GetLastest();
        if lastest.Some? {
          assert LinkedAt(chain, |chain| - 1);
        }
        cacheHeight := if lastest.None? then -1 else lastest.value.header.height;
        heightLoaded := true;
      }
      height := cacheHeight;
    }

    // ----- Writing -----

    method SetLastest(b: Block)
      modifies this`blocks, this`cacheHeight
      ensures blocks == old(blocks)[LASTEST := BlockEntry(b)]
      ensures cacheHeight == b.header.height
    {
      blocks := blocks[LASTEST := BlockEntry(b)];
      cacheHeight := b.header.height;
    }

    method DeleteTxns(ts: seq<Txn>)
      modifies this`txns
      ensures txns == old(txns) - TxnHashes(ts)
    {
      for i := 0 to |ts|
        invariant txns == old(txns) - TxnHashes(ts[..i])
      {
        TxnHashesSplit(ts[..i + 1]);
        assert ts[..i + 1][..i] == ts[..i];
        txns := txns - {TxnHash(ts[i])};
      }
      assert ts[..|ts|] == ts;
    }

    /** Deletes a block's entries; of the last block held, exactly what it added. */
    method DeleteBlock(b: Block, ghost c: seq<Block>)
      requires InRange(b.header.height, INT32_WIDTH)
      modifies this`blocks, this`txns
      ensures blocks == old(blocks) - {BlockHash(b).bytes} - {HeightKey(b.header.height)}
      ensures txns == old(txns) - TxnHashes(b.txns)
      ensures old(Holds(c)) && c != [] && b == c[|c| - 1] ==>
        && Holds(c[..|c| - 1])
        && (LASTEST in blocks <==> LASTEST in old(blocks))
        && (LASTEST in blocks ==> blocks[LASTEST] == old(blocks)[LASTEST])
    {
      var key := EncodeInt(b.header.height, INT32_WIDTH);
      blocks := blocks - {BlockHash(b).bytes};
      blocks := blocks - {key};
      DeleteTxns(b.txns);
      if old(Holds(c)) && c != [] && b == c[|c| - 1] {
        assert LinkedAt(c, |c| - 1);
        DropEntries(old(blocks), c);
        IndexOfShorter(c);
        PrefixWellFormed(c, |c| - 1);
      }
    }

    method WriteBlock(b: Block)
      requires InRange(b.header.height, INT32_WIDTH)
      modifies this`blocks, this`txns, this`cacheHeight
      ensures blocks == WithBlock(old(blocks), b)
      ensures txns == Indexed(old(txns), b.txns)
      ensures cacheHeight == b.header.height
    {
      SetLastest(b);
      blocks := blocks[BlockHash(b).bytes := BlockEntry(b)];
      var key := EncodeInt(b.header.height, INT32_WIDTH);
      blocks := blocks[key := HashEntry(BlockHash(b))];
      txns := AddToIndex(txns, b.txns);
    }

    /** The part of `AddBlock` for a block of the next height. */
    method Append(b: Block)
      requires Valid() && heightLoaded && b.header.height == |chain| && InRange(b.header.height, INT32_WIDTH)
      modifies this`blocks, this`txns, this`cacheHeight, this`chain, pool
      ensures pool.Valid()
      ensures blocks == WithBlock(old(blocks), b) && txns == Indexed(old(txns), b.txns)
      ensures cacheHeight == b.header.height && chain == old(chain) + [b]
      ensures Pruned(txns.Keys, old(pool.m) - TxnHashes(b.txns), pool.m)
      ensures forall i :: 0 <= i < |b.txns| ==> TxnHash(b.txns[i]) !in pool.m
      ensures WellFormed(chain) ==> Valid()
    {
      WriteBlock(b);
      TakeBlock(pool, b.txns, txns.Keys);
      if WellFormed(chain + [b]) {
        AddEntries(old(blocks), chain, b);
        IndexOfLonger(chain, b);
      }
      chain := chain + [b];
    }

    /**
     Adds a block if its height is the next one, and prunes the pool; any other
     block is ignored. The callers see to it that the block names the last one.
     */
    method AddBlock(b: Option<Block>)
      requires Valid() && (b.Some? ==> InRange(b.value.header.height, INT32_WIDTH))
      modifies this, pool
      ensures pool.Valid()
      ensures b.None? || b.value.header.height != old(|chain|) ==>
        Valid() && blocks == old(blocks) && txns == old(txns) && chain == old(chain) && pool.m == old(pool.m)
      ensures b.Some? && b.value.header.height == old(|chain|) ==>
        && heightLoaded
        && blocks == WithBlock(old(blocks), b.value) && txns == Indexed(old(txns), b.value.txns)
        && cacheHeight == b.value.header.height && chain == old(chain) + [b.value]
        && Pruned(txns.Keys, old(pool.m) - TxnHashes(b.value.txns), pool.m)
        && (forall i :: 0 <= i < |b.value.txns| ==> TxnHash(b.value.txns[i]) !in pool.m)
        && (WellFormed(chain) ==> Valid())
    {
      if b.Some? {
        var height := GetHeight();
        if height + 1 == b.value.header.height {
          Append(b.value);
        }
      }
    }

    // ----- Walking the chain backwards -----

    lemma {:induction false} LookupHash(i: nat)
      requires BlocksAre(chain) && i < |chain|
      ensures BlockHash(chain[i]).bytes in blocks && blocks[BlockHash(chain[i]).bytes] == BlockEntry(chain[i])
    {
      EntriesAt(chain, i);
      assert BlockHash(chain[i]).bytes in blocks - {LASTEST};
    }

    /** The step of the iterator: the block named `next`, if there is one. */
    method Next(next: Hash, ghost i: int) returns (b: Option<Block>)
      requires BlocksAre(chain) && -1 <= i < |chain|
      requires next == if i < 0 then NO_HASH else BlockHash(chain[i])
      ensures b == if i < 0 then None else Some(chain[i])
      ensures b.Some? ==> b.value.header.prevHash == if i == 0 then NO_HASH else BlockHash(chain[i - 1])
    {
      if i >= 0 {
        LookupHash(i);
        assert LinkedAt(chain, i);
      } else {
        NoOtherKeys(chain);
        assert [] !in blocks - {LASTEST};
      }
      b := GetBlockByHash(next.bytes);
    }

    /** The scan has visited the blocks from `i` up. */
    ghost predicate Scanned(i: nat, utxos: UtxoMap, stxos: SpentMap)
      reads this
    {
      i <= |chain| && utxos == Scan(VisitedFrom(chain, i)) && Tracks(stxos, VisitedFrom(chain, i))
    }

    /** One round of the scan: the block named `next`, if there is one. */
    method ScanNext(next: Hash, u: UtxoMap, stxos0: SpentMap, ghost k: nat)
        returns (more: bool, next': Hash, utxos: UtxoMap, stxos: SpentMap)
      requires BlocksAre(chain) && Scanned(k, u, stxos0)
      requires next == if k == 0 then NO_HASH else BlockHash(chain[k - 1])
      ensures more <==> k > 1
      ensures k > 0 ==> Scanned(k - 1, utxos, stxos)
      ensures more ==> next' == BlockHash(chain[k - 2])
    {
      var block := Next(next, k - 1);
      if block.None? {
        return false, next, u, stxos0;
      }
      next' := block.value.header.prevHash;
      VisitedNext(chain, k - 1);
      utxos, stxos := VisitBlock(u, stxos0, block.value.txns, VisitedFrom(chain, k));
      more := next'.bytes != [];
    }

    /** The unspent outputs, collected from the last block back to the genesis. */
    method FindUTXO() returns (utxos: UtxoMap)
      requires BlocksAre(chain) && TopIs(chain) && chain != []
      ensures utxos == Scan(VisitOrder(chain))
    {
      utxos := map[];
      var stxos: SpentMap := map[];
      var lastest := GetLastest();
      var next := BlockHash(lastest.value);
      ghost var k: nat := |chain|;
      var more := true;
      ScannedNone();
      while more
        invariant k <= |chain| && (more <==> k > 0)
        invariant more ==> next == BlockHash(chain[k - 1])
        invariant Scanned(k, utxos, stxos)
        decreases k
      {
        more, next, utxos, stxos := ScanNext(next, utxos, stxos, k);
        k := k - 1;
      }
      ScannedAll(utxos, stxos);
    }

    lemma {:induction false} ScannedAll(utxos: UtxoMap, stxos: SpentMap)
      requires Scanned(0, utxos, stxos)
      ensures utxos == Scan(VisitOrder(chain))
    {
      VisitedAll(chain);
    }

    lemma {:induction false} ScannedNone()
      ensures Scanned(|chain|, map[], map[])
    {
    }

    method RebuildIndex() returns (index: TxnIndex)
      requires BlocksAre(chain) && TopIs(chain) && chain != []
      ensures index == TxnIndexOf(chain)
    {
      index := map[];
      var lastest := GetLastest();
      var next := BlockHash(lastest.value);
      ghost var i := |chain| - 1;
      assert chain[..i + 1] == chain;
      assert index + TxnIndexOf(chain) == TxnIndexOf(chain);
      while true
        invariant -1 <= i < |chain| && next == if i < 0 then NO_HASH else BlockHash(chain[i])
        invariant index + TxnIndexOf(chain[..i + 1]) == TxnIndexOf(chain)
        decreases i
      {
        var block := Next(next, i);
        if block.None? {
          break;
        }
        next := block.value.header.prevHash;
        ReindexStep(chain, i, index);
        index := AddToIndex(index, block.value.txns);
        i := i - 1;
      }
      assert index + TxnIndexOf([]) == index;
    }

    /** Rebuilds the transaction index from the chain, whatever it held before. */
    method TxnReindex()
      requires BlocksAre(chain) && TopIs(chain) && chain != []
      modifies this`txns
      ensures txns == TxnIndexOf(chain) && Holds(chain) && TopIs(chain)
    {
      txns := RebuildIndex();
    }

    /** Empties the block bucket; the transaction index and the cached height stay. */
    method BlockClear()
      modifies this`blocks
      ensures blocks == map[]
    {
      blocks := map[];
    }
  }

  method AddToIndex(index: TxnIndex, ts: seq<Txn>) returns (r: TxnIndex)
    ensures r == Indexed(index, ts)
  {
    r := index;
    for i := 0 to |ts|
      invariant r == Indexed(index, ts[..i])
    {
      assert ts[..i + 1][..i] == ts[..i];
      r := r[TxnHash(ts[i]) := ts[i]];
    }
    assert ts[..|ts|] == ts;
  }

  /** The writes of `AddBlock` to the bucket. */
  function WithBlock(blocks: Bucket, b: Block): Bucket {
    blocks[LASTEST := BlockEntry(b)]
      [BlockHash(b).bytes := BlockEntry(b)]
      [HeightKey(b.header.height) := HashEntry(BlockHash(b))]
  }

  lemma PutsBesides<K, V>(m: map<K, V>, l: K, e: V, k2: K, v2: V, k3: K, v3: V)
    requires l != k2 && l != k3
    ensures m[l := e][k2 := v2][k3 := v3] - {l} == (m - {l})[k2 := v2][k3 := v3]
    ensures m[l := e][k2 := v2][k3 := v3][l] == e
  {
  }

  lemma {:induction false} AddEntries(blocks: Bucket, c: seq<Block>, b: Block)
    requires WellFormed(c + [b]) && blocks - {LASTEST} == Entries(c)
    ensures var after := WithBlock(blocks, b);
      && after - {LASTEST} == Entries(c + [b])
      && LASTEST in after && after[LASTEST] == BlockEntry(b)
  {
    var longer := c + [b];
    assert LinkedAt(longer, |c|);
    HeightKeyLength(|c|);
    EntriesOfLonger(c, b);
    PutsBesides(blocks, LASTEST, BlockEntry(b), BlockHash(b).bytes, BlockEntry(b), HeightKey(|c|), HashEntry(BlockHash(b)));
  }

  lemma {:induction false} DropEntries(blocks: Bucket, c: seq<Block>)
    requires WellFormed(c) && c != [] && blocks - {LASTEST} == Entries(c)
    ensures var n := |c| - 1; var rest := blocks - {BlockHash(c[n]).bytes} - {HeightKey(n)};
      && rest - {LASTEST} == Entries(c[..n])
      && (LASTEST in rest <==> LASTEST in blocks)
      && (LASTEST in rest ==> rest[LASTEST] == blocks[LASTEST])
  {
    var n := |c| - 1;
    HeightKeyLength(n);
    EntriesOfShorter(c);
    var rest := blocks - {BlockHash(c[n]).bytes} - {HeightKey(n)};
    assert rest - {LASTEST} == (blocks - {LASTEST}) - {BlockHash(c[n]).bytes, HeightKey(n)};
  }
}
