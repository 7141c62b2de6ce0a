/** Addresses: a versioned key hash with a checksum, in Base58. */
module Wallet {
  import opened Types
  import opened Base58
  import opened Numbers

  const VERSION: byte := 0
  const CHECKSUM_LEN: nat := 4

  function Checksum(payload: Bytes): (c: Bytes)
    ensures |c| == CHECKSUM_LEN
  {
    Sha256(Sha256(payload).bytes).bytes[..CHECKSUM_LEN]
  }

  function GetAddress(key: PublicKey): Bytes {
    var versioned := [VERSION] + KeyHash(key).bytes;
    Encoded(versioned + Checksum(versioned))
  }

  predicate ValidateAddress(address: Bytes) {
    var full := Decoded(address);
    |full| >= 5 &&
    var version, actual := full[..1], full[|full| - CHECKSUM_LEN..];
    actual == Checksum(version + full[1..|full| - CHECKSUM_LEN])
  }

  /** The bytes between the version and the checksum. */
  function KeyHashPart(address: Bytes): Bytes
    requires |Decoded(address)| >= 5
  {
    var full := Decoded(address);
    full[1..|full| - CHECKSUM_LEN]
  }

  function NewTxnOutput(address: Bytes, value: int): TxnOutput
    requires |Decoded(address)| >= 5
  {
    TxnOutput(value, Hash(KeyHashPart(address)))
  }

  function GroupOfAddress(address: Bytes): int
    requires |Decoded(address)| > 5
  {
    KeyHashPart(address)[0] as int % MAX_GROUP_NUM
  }

  /** An address is valid exactly when it decodes to a non-empty payload followed by its checksum. */
  lemma {:induction false} ValidMeansChecksummed(address: Bytes)
    ensures ValidateAddress(address)
       <==> exists payload :: payload != [] && Decoded(address) == payload + Checksum(payload)
  {
    var full := Decoded(address);
    if ValidateAddress(address) {
      var payload := full[..|full| - CHECKSUM_LEN];
      assert payload == full[..1] + full[1..|full| - CHECKSUM_LEN];
      assert full == payload + full[|full| - CHECKSUM_LEN..];
    }
    if payload :| payload != [] && full == payload + Checksum(payload) {
      assert full[..1] + full[1..|full| - CHECKSUM_LEN] == payload;
    }
  }

  /**
   For every key and every amount: the key's address validates, the output built
   from it is locked with that key, and address and key hash name the same group.
   */
  lemma {:induction false} AddressBelongsToKey(key: PublicKey, value: int)
    ensures |Decoded(GetAddress(key))| > 5
    ensures ValidateAddress(GetAddress(key))
    ensures NewTxnOutput(GetAddress(key), value).value == value
    ensures forall k :: IsLockedWithKey(NewTxnOutput(GetAddress(key), value), k) <==> KeyHash(k) == KeyHash(key)
    ensures NewTxnOutput(GetAddress(key), value).pubKeyHash == Ripemd160(Sha256(key).bytes)
    ensures GroupOfAddress(GetAddress(key)) == GroupOfKeyHash(KeyHash(key)) == KeyHash(key).bytes[0] as int % MAX_GROUP_NUM
  {
    var address, hash := GetAddress(key), KeyHash(key).bytes;
    var versioned := [VERSION] + hash;
    DecodeEncode(versioned + Checksum(versioned));
    ValidMeansChecksummed(address);
    assert KeyHashPart(address) == hash;
  }

  /** Distinct key hashes have distinct addresses. */
  lemma {:induction false} AddressesAreInjective(a: PublicKey, b: PublicKey)
    requires GetAddress(a) == GetAddress(b)
    ensures KeyHash(a) == KeyHash(b)
  {
    AddressBelongsToKey(a, 0);
    AddressBelongsToKey(b, 0);
  }

  /** The version byte 0 makes every address start with '1'. */
  lemma {:induction false} AddressStartsWithOne(key: PublicKey)
    ensures GetAddress(key) != [] && GetAddress(key)[0] as int == '1' as int
  {
    var versioned := [VERSION] + KeyHash(key).bytes;
    var full := versioned + Checksum(versioned);
    assert full[0] == 0;
    assert LeadingCount(full, 0) > 0;
  }

  /** The part of a valid address that its checksum covers. */
  function Payload(address: Bytes): Bytes
    requires |Decoded(address)| >= 5
  {
    Decoded(address)[..|Decoded(address)| - 4]
  }

  /** The last four bytes of a valid address are the first four of the double hash of the others. */
  lemma {:induction false} ChecksumIsDoubleHash(address: Bytes)
    requires ValidateAddress(address)
    ensures Decoded(address)[|Decoded(address)| - 4..] == Sha256(Sha256(Payload(address)).bytes).bytes[..4]
  {
    var full := Decoded(address);
    assert full[..1] + full[1..|full| - 4] == full[..|full| - 4];
  }

  /** Two valid addresses with one checksum and different payloads are a collision of the shortened double hash. */
  lemma {:induction false} SameChecksumCollides(a: Bytes, b: Bytes)
    requires ValidateAddress(a) && ValidateAddress(b) && Payload(a) != Payload(b)
    requires Decoded(a)[|Decoded(a)| - 4..] == Decoded(b)[|Decoded(b)| - 4..]
    ensures exists x, y :: x != y && Sha256(Sha256(x).bytes).bytes[..4] == Sha256(Sha256(y).bytes).bytes[..4]
  {
    ChecksumIsDoubleHash(a);
    ChecksumIsDoubleHash(b);
  }
}
