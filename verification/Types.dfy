/**
 The values the node exchanges and stores: hashes, transactions and blocks.

 The cryptographic primitives and the lossless encoders are uninterpreted
 constants: nothing is known about them except the length of their results, so
 every theorem of the project holds for whatever functions are put there.
 */
module Types {

  datatype Option<+T> = None | Some(value: T)

  newtype byte = x: int | 0 <= x < 256

  type Bytes = seq<byte>

  /** A hash value is a byte string of any length; the empty one stands for "no hash". */
  datatype Hash = Hash(bytes: Bytes)

  const NO_HASH := Hash([])

  type Digest = h: Hash | |h.bytes| == 32 witness Hash(seq(32, _ => 0))
  type KeyDigest = h: Hash | |h.bytes| == 20 witness Hash(seq(20, _ => 0))
  type Positive = n: int | n > 0 witness 1

  const Sha256: Bytes -> Digest
  const Ripemd160: Bytes -> KeyDigest

  /** The number of groups the network is split into; fixed at start-up. */
  const MAX_GROUP_NUM: Positive

  type PublicKey = Bytes

  /** The hash that owns an output: RIPEMD-160 of SHA-256 of the public key. */
  function KeyHash(key: PublicKey): (h: Hash)
    ensures |h.bytes| == 20
  {
    Ripemd160(Sha256(key).bytes)
  }

  /** The group a key hash belongs to. */
  function GroupOfKeyHash(h: Hash): (g: int)
    requires h.bytes != []
    ensures 0 <= g < MAX_GROUP_NUM
  {
    h.bytes[0] as int % MAX_GROUP_NUM
  }

  // ----- Transactions -----

  datatype TxnOutput = TxnOutput(value: int, pubKeyHash: Hash)

  datatype TxnInput = TxnInput(voutHash: Hash, voutIndex: int, voutValue: int, signature: Bytes, pubKey: PublicKey)

  datatype Txn = Txn(vin: seq<TxnInput>, vout: seq<TxnOutput>)

  const EncodeTxn: Txn -> Bytes

  function TxnHash(t: Txn): (h: Hash)
    ensures |h.bytes| == 32
  {
    Sha256(EncodeTxn(t))
  }

  predicate IsLockedWithKey(out: TxnOutput, key: PublicKey) {
    out.pubKeyHash == KeyHash(key)
  }

  predicate IsCoinbase(t: Txn) {
    |t.vin| == 1 && t.vin[0].voutIndex == -1
  }

  // ----- Blocks -----

  datatype BlockHeader = BlockHeader(
    group: int, height: int, prevHash: Hash, timestamp: int, merkleRoot: Hash, target: real)

  /** One step of an inclusion path: the sibling's hash and whether it stands on the left. */
  datatype PathStep = PathStep(hash: Hash, left: bool)

  datatype Block = Block(
    header: BlockHeader, groupBase: int, batchSize: int, path: seq<PathStep>, nonce: int, txns: seq<Txn>)

  const EncodeHeader: BlockHeader -> Bytes
  const EncodePow: (int, int, int) -> Bytes

  function HeaderHash(h: BlockHeader): Hash {
    Sha256(EncodeHeader(h))
  }

  /** The parent of two Merkle nodes. */
  function Join(left: Hash, right: Hash): Hash {
    Sha256(left.bytes + right.bytes)
  }

  /** Folds an inclusion path upwards from a leaf hash. */
  function Fold(leaf: Hash, path: seq<PathStep>): Hash
    decreases |path|
  {
    if path == [] then leaf
    else Fold(if path[0].left then Join(path[0].hash, leaf) else Join(leaf, path[0].hash), path[1..])
  }

  /** The hash a miner grinds on: batch root, group base, batch size and nonce. */
  function PowHash(root: Hash, groupBase: int, batchSize: int, nonce: int): (h: Hash)
    ensures |h.bytes| == 32
  {
    Sha256(root.bytes + EncodePow(groupBase, batchSize, nonce))
  }

  function BlockHash(b: Block): (h: Hash)
    ensures |h.bytes| == 32
  {
    PowHash(Fold(Sha256(HeaderHash(b.header).bytes), b.path), b.groupBase, b.batchSize, b.nonce)
  }
}
