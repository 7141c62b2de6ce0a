/**
 What a hash binds. Each lemma takes as its hypothesis that the strings which are
 hashed on the two sides do not collide under `Sha256`.
 */
module Hashing {
  import opened Types

  /** Two strings are not a collision. */
  predicate Apart(x: Bytes, y: Bytes) {
    Sha256(x) == Sha256(y) ==> x == y
  }

  /** A transaction hash binds the encoded transaction. */
  lemma {:induction false} TxnHashBinds(a: Txn, b: Txn)
    requires Apart(EncodeTxn(a), EncodeTxn(b))
    ensures TxnHash(a) == TxnHash(b) <==> EncodeTxn(a) == EncodeTxn(b)
  {
  }

  /** A header hash binds the encoded header. */
  lemma {:induction false} HeaderHashBinds(a: BlockHeader, b: BlockHeader)
    requires Apart(EncodeHeader(a), EncodeHeader(b))
    ensures HeaderHash(a) == HeaderHash(b) <==> EncodeHeader(a) == EncodeHeader(b)
  {
  }

  lemma {:induction false} SameEnds(a: Bytes, b: Bytes, c: Bytes, d: Bytes)
    requires |a| == |c|
    ensures a + b == c + d <==> a == c && b == d
  {
    if a + b == c + d {
      assert (a + b)[..|a|] == a && (c + d)[..|c|] == c && (a + b)[|a|..] == b && (c + d)[|c|..] == d;
    }
  }

  /** A mined hash binds the batch root and the encoded group base, batch size and nonce. */
  lemma {:induction false} MinedHashBinds(
      a: Digest, b: Digest, base: int, base': int, size: int, size': int, nonce: int, nonce': int)
    requires Apart(a.bytes + EncodePow(base, size, nonce), b.bytes + EncodePow(base', size', nonce'))
    ensures PowHash(a, base, size, nonce) == PowHash(b, base', size', nonce')
       <==> a == b && EncodePow(base, size, nonce) == EncodePow(base', size', nonce')
  {
    SameEnds(a.bytes, EncodePow(base, size, nonce), b.bytes, EncodePow(base', size', nonce'));
  }

  /** What is hashed when a path step is folded onto a hash. */
  function StepString(x: Hash, step: PathStep): Bytes {
    if step.left then step.hash.bytes + x.bytes else x.bytes + step.hash.bytes
  }

  /** Folding the path onto the two hashes meets no collision. */
  ghost predicate FoldsApart(x: Digest, y: Digest, path: seq<PathStep>)
    decreases |path|
  {
    path == [] ||
    var sx, sy := StepString(x, path[0]), StepString(y, path[0]);
    Apart(sx, sy) && FoldsApart(Sha256(sx), Sha256(sy), path[1..])
  }

  /** Folded with one path, different hashes stay different. */
  lemma {:induction false} FoldBinds(x: Digest, y: Digest, path: seq<PathStep>)
    requires FoldsApart(x, y, path)
    ensures Fold(x, path) == Fold(y, path) <==> x == y
    decreases |path|
  {
    if path != [] {
      var step := path[0];
      FoldBinds(Sha256(StepString(x, step)), Sha256(StepString(y, step)), path[1..]);
      if step.left {
        SameEnds(step.hash.bytes, x.bytes, step.hash.bytes, y.bytes);
      } else {
        SameEnds(x.bytes, step.hash.bytes, y.bytes, step.hash.bytes);
      }
    }
  }

  lemma {:induction false} FoldIsDigest(x: Digest, path: seq<PathStep>)
    ensures |Fold(x, path).bytes| == 32
    decreases |path|
  {
    if path != [] {
      FoldIsDigest(if path[0].left then Join(path[0].hash, x) else Join(x, path[0].hash), path[1..]);
    }
  }

  /** The leaf of a block in its batch: the hash of its header's hash. */
  function LeafOf(b: Block): Digest {
    Sha256(Sha256(EncodeHeader(b.header)).bytes)
  }

  /** Nothing that is hashed for the two blocks, which have one path, collides. */
  ghost predicate BlocksApart(a: Block, b: Block) {
    && a.path == b.path
    && Apart(EncodeHeader(a.header), EncodeHeader(b.header))
    && Apart(Sha256(EncodeHeader(a.header)).bytes, Sha256(EncodeHeader(b.header)).bytes)
    && FoldsApart(LeafOf(a), LeafOf(b), a.path)
    && Apart(Fold(LeafOf(a), a.path).bytes + EncodePow(a.groupBase, a.batchSize, a.nonce),
             Fold(LeafOf(b), b.path).bytes + EncodePow(b.groupBase, b.batchSize, b.nonce))
  }

  /** A block hash binds the encoded header and the encoded group base, batch size and nonce. */
  lemma {:induction false} BlockHashBinds(a: Block, b: Block)
    requires BlocksApart(a, b)
    ensures BlockHash(a) == BlockHash(b) <==>
      EncodeHeader(a.header) == EncodeHeader(b.header)
      && EncodePow(a.groupBase, a.batchSize, a.nonce) == EncodePow(b.groupBase, b.batchSize, b.nonce)
  {
    FoldIsDigest(LeafOf(a), a.path);
    FoldIsDigest(LeafOf(b), b.path);
    FoldBinds(LeafOf(a), LeafOf(b), a.path);
    MinedHashBinds(Fold(LeafOf(a), a.path), Fold(LeafOf(b), b.path), a.groupBase, b.groupBase, a.batchSize, b.batchSize,
                   a.nonce, b.nonce);
  }
}
