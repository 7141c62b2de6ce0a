/**
 The byte keys under which the database stores integer keys: `interfaceToBytes`
 for the 4-byte `int32` and the 8-byte `int`.
 */
module DatabaseKey {
  import opened Types

  const INT32_WIDTH: nat := 4
  const INT_WIDTH: nat := 8

  /** The first height whose `int32` key is empty. */
  const HEIGHT_LIMIT: nat := 0x100_0000

  function Pow256(i: nat): (p: nat)
    ensures p > 0
  {
    if i == 0 then 1 else 256 * Pow256(i - 1)
  }

  /** The value of a signed integer of `width` bytes after wrap-around. */
  function WrapSigned(x: int, width: nat): int {
    var m := x % Pow256(width);
    if 2 * m >= Pow256(width) then m - Pow256(width) else m
  }

  /** The arithmetic right shift by `i` bytes. */
  function ShiftRight(v: int, i: nat): int {
    if i == 0 then v else ShiftRight(v, i - 1) / 256
  }

  predicate InRange(v: int, width: nat) {
    0 <= 2 * v + Pow256(width) < 2 * Pow256(width)
  }

  // ----- What the encoder computes -----

  /** The shortest little-endian representation, at least one byte long. */
  function LittleEndian(v: nat): Bytes {
    if v < 256 then [v as byte] else [(v % 256) as byte] + LittleEndian(v / 256)
  }

  function FromLittleEndian(bytes: Bytes): nat {
    if bytes == [] then 0 else bytes[0] as nat + 256 * FromLittleEndian(bytes[1..])
  }

  /** The key of `v` in an integer type of `width` bytes. */
  function IntKey(v: int, width: nat): Bytes
    requires width > 0
  {
    if v < 0 then [(v % 256) as byte]
    else if v < Pow256(width - 1) then LittleEndian(v)
    else []
  }

  function HeightKey(height: int): Bytes {
    IntKey(height, INT32_WIDTH)
  }

  // ----- The encoder -----

  lemma {:induction false} PowMonotone(i: nat, j: nat)
    requires i <= j
    ensures Pow256(i) <= Pow256(j)
    decreases j
  {
    if i < j {
      PowMonotone(i, j - 1);
    }
  }

  lemma {:induction false} WrapNothing(x: nat, width: nat)
    requires 2 * x < Pow256(width)
    ensures WrapSigned(x, width) == x
  {
    SmallMod(x, Pow256(width));
  }

  lemma SmallMod(x: nat, p: nat)
    requires x < p
    ensures x % p == x
  {
  }

  /** The bound tested for byte `i`: exact below the last byte, wrapped to 0 at the last. */
  lemma {:induction false} LimitWraps(i: nat, width: nat)
    requires i < width
    ensures WrapSigned(256 * Pow256(i), width) == if i == width - 1 then 0 else Pow256(i + 1)
  {
    if i == width - 1 {
      assert 256 * Pow256(i) == Pow256(width);
    } else {
      PowMonotone(i + 1, width - 1);
      assert Pow256(width) == 256 * Pow256(width - 1);
      assert 256 * Pow256(i) == Pow256(i + 1);
      WrapNothing(256 * Pow256(i), width);
    }
  }

  lemma {:induction false} ShiftOfQuotient(v: int, i: nat)
    ensures ShiftRight(v / 256, i) == ShiftRight(v, i + 1)
    decreases i
  {
    if i > 0 {
      ShiftOfQuotient(v, i - 1);
    }
  }

  /** Byte `i` holds the rest of the value exactly when the value is below the next power. */
  lemma {:induction false} ShiftBelow(v: nat, i: nat)
    ensures v < Pow256(i + 1) <==> ShiftRight(v, i) < 256
    ensures ShiftRight(v, i) >= 0
    decreases i
  {
    if i > 0 {
      ShiftBelow(v / 256, i - 1);
      ShiftOfQuotient(v, i - 1);
    }
  }

  /** The little-endian bytes of `v` are its first bytes followed by those of the rest. */
  lemma {:induction false} LittleEndianSplit(v: nat, i: nat, prefix: Bytes)
    requires v >= Pow256(i) && |prefix| == i
    requires forall k :: 0 <= k < i ==> prefix[k] as int == ShiftRight(v, k) % 256
    ensures ShiftRight(v, i) >= 0
    ensures LittleEndian(v) == prefix + LittleEndian(ShiftRight(v, i))
    decreases i
  {
    ShiftBelow(v, i);
    if i == 0 {
      assert prefix == [];
    } else {
      PowMonotone(i - 1, i);
      LittleEndianSplit(v, i - 1, prefix[..i - 1]);
      ShiftBelow(v, i - 1);
      assert prefix == prefix[..i - 1] + [prefix[i - 1]];
    }
  }

  lemma LastByte(x: nat)
    requires x < 256
    ensures LittleEndian(x) == [(x % 256) as byte]
  {
    SmallMod(x, 256);
  }

  lemma {:induction false} StopLater(v: nat, i: nat, bytes: Bytes)
    requires v < Pow256(i + 1) && v >= Pow256(i)
    requires |bytes| == i + 1 && forall k :: 0 <= k <= i ==> bytes[k] as int == ShiftRight(v, k) % 256
    ensures bytes == LittleEndian(v)
  {
    LittleEndianSplit(v, i, bytes[..i]);
    ShiftBelow(v, i);
    LastByte(ShiftRight(v, i));
    assert bytes == bytes[..i] + [bytes[i]];
  }

  /** Stopping at byte `i` leaves exactly the key of `v`. */
  lemma {:induction false} StopAt(v: int, width: nat, i: nat, bytes: Bytes)
    requires i < width - 1 && v < Pow256(i + 1) && (i > 0 ==> v >= Pow256(i))
    requires |bytes| == i + 1 && forall k :: 0 <= k <= i ==> bytes[k] as int == ShiftRight(v, k) % 256
    ensures bytes == IntKey(v, width)
  {
    PowMonotone(i + 1, width - 1);
    if i > 0 {
      StopLater(v, i, bytes);
    } else {
      assert bytes[0] as int == ShiftRight(v, 0) % 256 == v % 256;
      if v >= 0 {
        LastByte(v);
      }
    }
  }

  /** The first `n` bytes of `v`, lowest first. */
  function LowBytes(v: int, n: nat): (bytes: Bytes)
    ensures |bytes| == n && forall k :: 0 <= k < n ==> bytes[k] as int == ShiftRight(v, k) % 256
  {
    seq(n, k requires 0 <= k < n => (ShiftRight(v, k) % 256) as byte)
  }

  lemma {:induction false} LowBytesNext(v: int, i: nat)
    ensures LowBytes(v, i) + [(ShiftRight(v, i) % 256) as byte] == LowBytes(v, i + 1)
  {
  }

  /** The test for byte `i`: it succeeds where the value ends, and never at the last byte of a value that got there. */
  lemma {:induction false} TestAt(v: int, width: nat, i: nat)
    requires width > 1 && i < width && (i > 0 ==> v >= Pow256(i))
    ensures v < WrapSigned(256 * Pow256(i), width) <==> i < width - 1 && v < Pow256(i + 1)
    ensures v < WrapSigned(256 * Pow256(i), width) ==> LowBytes(v, i + 1) == IntKey(v, width)
    ensures i == width - 1 ==> IntKey(v, width) == []
  {
    LimitWraps(i, width);
    if i < width - 1 && v < Pow256(i + 1) {
      StopAt(v, width, i, LowBytes(v, i + 1));
    }
  }

  /** Fills a buffer byte by byte and stops at the first byte that holds the rest of the value. */
  method EncodeInt(v: int, width: nat) returns (key: Bytes)
    requires width > 1 && InRange(v, width)
    ensures key == IntKey(v, width)
  {
    key := [];
    var bytes := new byte[width](_ => 0);
    var i := 0;
    while i < width
      invariant 0 <= i <= width && key == []
      invariant 0 < i < width ==> v >= Pow256(i)
      invariant i == width ==> IntKey(v, width) == []
      invariant bytes[..i] == LowBytes(v, i)
    {
      bytes[i] := (ShiftRight(v, i) % 256) as byte;
      LowBytesNext(v, i);
      TestAt(v, width, i);
      if v < WrapSigned(256 * Pow256(i), width) {
        return bytes[..i + 1];
      }
      i := i + 1;
    }
  }

  // ----- What the keys promise -----

  lemma {:induction false} TimesMonotone(a: nat, b: nat, d: nat)
    requires a <= b
    ensures a * d <= b * d
  {
    assert b * d == a * d + (b - a) * d;
  }

  lemma {:induction false} QuotientIs(v: nat, d: nat, q: nat, r: nat)
    requires d > 0 && v == q * d + r && r < d
    ensures v / d == q
  {
    var q2 := v / d;
    assert q2 * d <= v < q2 * d + d;
    if q2 < q {
      TimesMonotone(q2 + 1, q, d);
    } else if q < q2 {
      TimesMonotone(q + 1, q2, d);
    }
  }

  lemma {:induction false} Regrouped(q: nat, r: nat, p: nat, s: nat)
    requires r < 256 && s < p
    ensures (256 * q + r) * p + s == q * (256 * p) + (r * p + s)
    ensures r * p + s < 256 * p
  {
    TimesMonotone(r, 255, p);
    assert (256 * q) * p == q * (256 * p);
  }

  lemma {:induction false} DivideTwice(v: nat, p: nat)
    requires p > 0
    ensures v / p / 256 == v / (256 * p)
  {
    var q, s := v / p, v % p;
    var q', r := q / 256, q % 256;
    Regrouped(q', r, p, s);
    QuotientIs(v, 256 * p, q', r * p + s);
  }

  lemma {:induction false} ShiftIsDivision(v: nat, i: nat)
    ensures ShiftRight(v, i) == v / Pow256(i)
    decreases i
  {
    if i > 0 {
      ShiftIsDivision(v, i - 1);
      DivideTwice(v, Pow256(i - 1));
    }
  }

  /** Byte `i` of a key is the byte of that position, the lowest first. */
  lemma {:induction false} KeyBytes(v: nat, i: nat)
    requires i < |LittleEndian(v)|
    ensures LittleEndian(v)[i] as int == v / Pow256(i) % 256
    decreases i
  {
    ShiftIsDivision(v, i);
    if i > 0 {
      KeyBytes(v / 256, i - 1);
      ShiftIsDivision(v / 256, i - 1);
      ShiftOfQuotient(v, i - 1);
    }
  }

  /** The inverse of the encoding. */
  lemma {:induction false} LittleEndianRoundTrip(v: nat)
    ensures FromLittleEndian(LittleEndian(v)) == v
  {
    if v >= 256 {
      LittleEndianRoundTrip(v / 256);
      var rest := LittleEndian(v / 256);
      assert ([(v % 256) as byte] + rest)[1..] == rest;
    }
  }

  lemma {:induction false} LittleEndianLength(v: nat, i: nat)
    requires v < Pow256(i + 1)
    ensures 1 <= |LittleEndian(v)| <= i + 1
    decreases i
  {
    if v >= 256 {
      LittleEndianLength(v / 256, i - 1);
    }
  }

  lemma HeightLimitIsPow()
    ensures HEIGHT_LIMIT == Pow256(INT32_WIDTH - 1)
  {
    assert Pow256(3) == 256 * (256 * (256 * Pow256(0)));
  }

  lemma HeightInRange(height: int)
    requires -256 <= height <= HEIGHT_LIMIT
    ensures InRange(height, INT32_WIDTH)
  {
  }

  /** Below the limit heights have distinct keys, the same for `int32` and `int`. */
  lemma HeightKeysInjective(a: nat, b: nat)
    requires a < HEIGHT_LIMIT && b < HEIGHT_LIMIT
    ensures HeightKey(a) == HeightKey(b) <==> a == b
    ensures HeightKey(a) == IntKey(a, INT_WIDTH)
  {
    HeightLimitIsPow();
    PowMonotone(INT32_WIDTH - 1, INT_WIDTH - 1);
    LittleEndianRoundTrip(a);
    LittleEndianRoundTrip(b);
  }

  /** Height keys are one to three bytes: no "lastest" and no 32-byte hash. */
  lemma HeightKeyLength(height: nat)
    requires height < HEIGHT_LIMIT
    ensures 1 <= |HeightKey(height)| <= 3
  {
    HeightLimitIsPow();
    LittleEndianLength(height, 2);
  }

  /** The bound is tight: a height has an empty key exactly when it reaches the limit. */
  lemma HeightLimitIsTight(height: int)
    requires InRange(height, INT32_WIDTH)
    ensures HeightKey(height) == [] <==> height >= HEIGHT_LIMIT
  {
  }

  /** A negative height shares its key with one of the heights 0 to 255. */
  lemma NegativeHeightAliases(height: int)
    requires height < 0
    ensures HeightKey(height) == HeightKey(height % 256)
  {
    HeightLimitIsPow();
  }
}
