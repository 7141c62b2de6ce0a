/** Big integers as digit strings, the way `big.Int` reads and writes them. */
module Numbers {
  import opened Types
  import opened DatabaseKey

  /** `SetBytes`: the bytes read as a big-endian number. */
  function FromBytes(b: Bytes): nat
    decreases |b|
  {
    if b == [] then 0 else 256 * FromBytes(b[..|b| - 1]) + b[|b| - 1] as nat
  }

  /** `Bytes`: the shortest big-endian representation, empty for zero. */
  function ToBytes(x: nat): Bytes {
    if x == 0 then [] else ToBytes(x / 256) + [(x % 256) as byte]
  }

  lemma {:induction false} FromToBytes(x: nat)
    ensures FromBytes(ToBytes(x)) == x
    ensures x > 0 ==> ToBytes(x) != [] && ToBytes(x)[0] != 0
  {
    if x > 0 {
      FromToBytes(x / 256);
      assert ToBytes(x)[..|ToBytes(x)| - 1] == ToBytes(x / 256);
    }
  }

  lemma {:induction false} ToFromBytes(b: Bytes)
    requires b == [] || b[0] != 0
    ensures ToBytes(FromBytes(b)) == b
    ensures b != [] ==> FromBytes(b) > 0
    decreases |b|
  {
    if b != [] {
      var rest := b[..|b| - 1];
      ToFromBytes(rest);
      assert b == rest + [b[|b| - 1]];
    }
  }

  lemma {:induction false} FromOneByte(x: byte)
    ensures FromBytes([x]) == x as nat
  {
    assert [x][..0] == [];
  }

  lemma {:induction false} TimesRegrouped(x: nat, p: nat)
    ensures 256 * (x * p) == x * (256 * p)
  {
  }

  /** Every byte has its positional value: bytes in front count by the power of what follows. */
  lemma {:induction false} FromBytesConcat(a: Bytes, b: Bytes)
    ensures FromBytes(a + b) == FromBytes(a) * Pow256(|b|) + FromBytes(b)
    decreases |b|
  {
    if b == [] {
      assert a + b == a;
    } else {
      var n := |b| - 1;
      assert (a + b)[..|a + b| - 1] == a + b[..n];
      FromBytesConcat(a, b[..n]);
      TimesRegrouped(FromBytes(a), Pow256(n));
    }
  }

  function Repeat(x: byte, n: nat): (s: Bytes)
    ensures |s| == n && forall i :: 0 <= i < n ==> s[i] == x
  {
    seq(n, _ => x)
  }

  lemma {:induction false} LeadingZerosDoNotCount(n: nat, b: Bytes)
    ensures FromBytes(Repeat(0, n) + b) == FromBytes(b)
    decreases n + |b|
  {
    var all := Repeat(0, n) + b;
    if b != [] {
      assert all[..|all| - 1] == Repeat(0, n) + b[..|b| - 1];
      LeadingZerosDoNotCount(n, b[..|b| - 1]);
    } else if n > 0 {
      assert all[..|all| - 1] == Repeat(0, n - 1) + b;
      LeadingZerosDoNotCount(n - 1, b);
    }
  }

  /** The number of times a byte is repeated at the front. */
  function LeadingCount(b: Bytes, x: byte): (n: nat)
    ensures n <= |b|
    ensures forall i :: 0 <= i < n ==> b[i] == x
    ensures n < |b| ==> b[n] != x
  {
    if b == [] || b[0] != x then 0 else 1 + LeadingCount(b[1..], x)
  }

  lemma LeadingCountIs(b: Bytes, x: byte, n: nat)
    requires n <= |b| && (forall i :: 0 <= i < n ==> b[i] == x) && (n < |b| ==> b[n] != x)
    ensures LeadingCount(b, x) == n
  {
  }
}
