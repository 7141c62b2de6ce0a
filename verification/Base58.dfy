/**
 Base58, as described in sections 3 and 4 of the Internet-Draft
 draft-msporny-base58, over numbers of any size.
 */
module Base58 {
  import opened Types
  import opened Numbers

  const BASE: nat := 58

  /** The alphabet: the digits and letters without '0', 'I', 'O' and 'l'. */
  function Symbol(d: nat): (b: byte)
    requires d < BASE
  {
    (if d < 9 then '1' as int + d
     else if d < 17 then 'A' as int + (d - 9)
     else if d < 22 then 'J' as int + (d - 17)
     else if d < 33 then 'P' as int + (d - 22)
     else if d < 44 then 'a' as int + (d - 33)
     else 'm' as int + (d - 44)) as byte
  }

  /** The position of a byte in the alphabet from `d` on, or -1. */
  function IndexFrom(b: byte, d: nat): int
    requires d <= BASE
    decreases BASE - d
  {
    if d == BASE then -1 else if Symbol(d) == b then d else IndexFrom(b, d + 1)
  }

  function IndexByte(b: byte): int {
    IndexFrom(b, 0)
  }

  predicate InAlphabet(s: Bytes) {
    forall i :: 0 <= i < |s| ==> IndexByte(s[i]) >= 0
  }

  // ----- What the two functions compute -----

  /** The base-58 symbols of a number, most significant first, none for zero. */
  function Symbols(x: nat): Bytes {
    if x == 0 then [] else Symbols(x / BASE) + [Symbol(x % BASE)]
  }

  /** The number the decoder accumulates; a byte outside the alphabet counts as -1. */
  function Accumulate(s: Bytes): int
    decreases |s|
  {
    if s == [] then 0 else BASE * Accumulate(s[..|s| - 1]) + IndexByte(s[|s| - 1])
  }

  function Abs(x: int): nat {
    if x < 0 then -x else x
  }

  function Encoded(input: Bytes): Bytes {
    Repeat(Symbol(0), LeadingCount(input, 0)) + Symbols(FromBytes(input))
  }

  function Decoded(input: Bytes): Bytes {
    var n := LeadingCount(input, Symbol(0));
    Repeat(0, n) + ToBytes(Abs(Accumulate(input[n..])))
  }

  // ----- The code -----

  function Reversed(s: Bytes): (r: Bytes)
    ensures |r| == |s| && forall i :: 0 <= i < |s| ==> r[i] == s[|s| - 1 - i]
  {
    seq(|s|, i requires 0 <= i < |s| => s[|s| - 1 - i])
  }

  method ReverseBytes(data: array<byte>)
    modifies data
    ensures data[..] == Reversed(old(data[..]))
  {
    ghost var n := data.Length;
    var i, j := 0, data.Length - 1;
    while i < j
      invariant 0 <= i <= n && j == n - 1 - i && i <= j + 1
      invariant forall k :: 0 <= k < i ==> data[k] == old(data[n - 1 - k]) && data[n - 1 - k] == old(data[k])
      invariant forall k :: i <= k <= j ==> data[k] == old(data[k])
    {
      data[i], data[j] := data[j], data[i];
      i, j := i + 1, j - 1;
    }
    ghost var was := old(data[..]);
    forall k | 0 <= k < n ensures data[k] == was[n - 1 - k] {
      if k > j {
        var m := n - 1 - k;
        assert data[n - 1 - m] == old(data[m]) || m == k;
      }
    }
  }

  method Base58Encode(input: Bytes) returns (result: Bytes)
    ensures result == Encoded(input)
  {
    result := [];
    var x: nat := FromBytes(input);
    while x != 0
      invariant Symbols(FromBytes(input)) == Symbols(x) + Reversed(result)
    {
      var mod := x % BASE;
      ghost var before := result;
      result := result + [Symbol(mod)];
      assert Reversed(result) == [Symbol(mod)] + Reversed(before);
      x := x / BASE;
    }
    var buffer := new byte[|result|](i requires 0 <= i < |result| => result[i]);
    assert buffer[..] == result;
    ReverseBytes(buffer);
    result := buffer[..];
    var i := 0;
    while i < |input| && input[i] == 0
      invariant 0 <= i <= |input| && forall k :: 0 <= k < i ==> input[k] == 0
      invariant result == Repeat(Symbol(0), i) + Symbols(FromBytes(input))
    {
      result := [Symbol(0)] + result;
      i := i + 1;
    }
    LeadingCountIs(input, 0, i);
  }

  method Base58Decode(input: Bytes) returns (decoded: Bytes)
    ensures decoded == Decoded(input)
  {
    var zeroBytes := 0;
    while zeroBytes < |input| && input[zeroBytes] == Symbol(0)
      invariant 0 <= zeroBytes <= |input|
      invariant forall k :: 0 <= k < zeroBytes ==> input[k] == Symbol(0)
    {
      zeroBytes := zeroBytes + 1;
    }
    LeadingCountIs(input, Symbol(0), zeroBytes);
    var payload := input[zeroBytes..];
    var result := 0;
    for i := 0 to |payload|
      invariant result == Accumulate(payload[..i])
    {
      assert payload[..i + 1][..i] == payload[..i];
      result := result * BASE + IndexByte(payload[i]);
    }
    assert payload[..|payload|] == payload;
    decoded := Repeat(0, zeroBytes) + ToBytes(Abs(result));
  }

  // ----- The alphabet -----

  /** A digit or a letter, but none of '0', 'I', 'O' and 'l'. */
  predicate IsSymbol(b: byte) {
    && ('0' as int <= b as int <= '9' as int || 'A' as int <= b as int <= 'Z' as int || 'a' as int <= b as int <= 'z' as int)
    && b as int != '0' as int && b as int != 'I' as int && b as int != 'O' as int && b as int != 'l' as int
  }

  /** The symbols are all of these, in increasing order. */
  lemma {:induction false} AlphabetIsOrdered(d: nat, e: nat)
    requires d < e < BASE
    ensures Symbol(d) < Symbol(e) && IsSymbol(Symbol(d)) && IsSymbol(Symbol(e))
  {
  }

  lemma {:induction false} AlphabetIsComplete(b: byte)
    ensures IsSymbol(b) <==> 0 <= IndexByte(b) < BASE && Symbol(IndexByte(b)) == b
  {
    IndexIsSound(b, 0);
    if IsSymbol(b) {
      var x := b as int;
      var d := if x <= '9' as int then x - '1' as int
               else if x <= 'H' as int then x - 'A' as int + 9
               else if x <= 'N' as int then x - 'J' as int + 17
               else if x <= 'Z' as int then x - 'P' as int + 22
               else if x <= 'k' as int then x - 'a' as int + 33
               else x - 'm' as int + 44;
      assert Symbol(d) == b;
      IndexFinds(0, d);
    }
  }

  lemma SymbolsDiffer(d: nat, e: nat)
    requires d < e < BASE
    ensures Symbol(d) != Symbol(e)
  {
  }

  lemma {:induction false} IndexFinds(d: nat, e: nat)
    requires d <= e < BASE
    ensures IndexFrom(Symbol(e), d) == e
    decreases e - d
  {
    if d < e {
      SymbolsDiffer(d, e);
      IndexFinds(d + 1, e);
    }
  }

  lemma {:induction false} IndexIsSound(b: byte, d: nat)
    requires d <= BASE
    ensures IndexFrom(b, d) == -1 || (d <= IndexFrom(b, d) < BASE && Symbol(IndexFrom(b, d)) == b)
    decreases BASE - d
  {
    if d < BASE {
      IndexIsSound(b, d + 1);
    }
  }

  // ----- Round trips -----

  lemma {:induction false} AccumulateSymbols(x: nat)
    ensures Accumulate(Symbols(x)) == x
    ensures x > 0 ==> Symbols(x) != [] && Symbols(x)[0] != Symbol(0)
  {
    if x > 0 {
      var d := x % BASE;
      AccumulateSymbols(x / BASE);
      IndexFinds(0, d);
      assert Symbols(x)[..|Symbols(x)| - 1] == Symbols(x / BASE);
      if x < BASE {
        SymbolsDiffer(0, d);
      }
    }
  }

  lemma {:induction false} SymbolsStep(x: nat, d: nat)
    requires d < BASE && x + d > 0
    ensures Symbols(BASE * x + d) == Symbols(x) + [Symbol(d)]
  {
    assert (BASE * x + d) / BASE == x && (BASE * x + d) % BASE == d;
  }

  lemma {:induction false} SymbolsAccumulate(s: Bytes)
    requires InAlphabet(s) && (s == [] || s[0] != Symbol(0))
    ensures Accumulate(s) >= 0 && (s != [] ==> Accumulate(s) > 0)
    ensures Symbols(Accumulate(s)) == s
    decreases |s|
  {
    if s != [] {
      var rest, b := s[..|s| - 1], s[|s| - 1];
      SymbolsAccumulate(rest);
      IndexIsSound(b, 0);
      var x, d := Accumulate(rest), IndexByte(b);
      assert d >= 0 && (rest == [] ==> b == s[0]);
      assert x + d > 0;
      SymbolsStep(x, d);
      assert Accumulate(s) == BASE * x + d;
      assert s == rest + [b];
    }
  }

  /** Decoding an encoding gives every byte string back. */
  lemma {:induction false} DecodeEncode(input: Bytes)
    ensures Decoded(Encoded(input)) == input
  {
    var n := LeadingCount(input, 0);
    var rest := input[n..];
    assert input == Repeat(0, n) + rest;
    LeadingZerosDoNotCount(n, rest);
    ToFromBytes(rest);
    var x := FromBytes(rest);
    AccumulateSymbols(x);
    var ones := Repeat(Symbol(0), n);
    LeadingCountIs(ones + Symbols(x), Symbol(0), n);
    assert (ones + Symbols(x))[n..] == Symbols(x);
  }

  lemma {:induction false} SymbolsInAlphabet(x: nat)
    ensures InAlphabet(Symbols(x))
  {
    if x > 0 {
      SymbolsInAlphabet(x / BASE);
      IndexFinds(0, x % BASE);
    }
  }

  lemma {:induction false} EncodedInAlphabet(input: Bytes)
    ensures InAlphabet(Encoded(input))
  {
    SymbolsInAlphabet(FromBytes(input));
    IndexFinds(0, 0);
  }

  lemma {:induction false} EncodeDecodeInAlphabet(s: Bytes)
    requires InAlphabet(s)
    ensures Encoded(Decoded(s)) == s
  {
    var n := LeadingCount(s, Symbol(0));
    var payload := s[n..];
    SymbolsAccumulate(payload);
    var x := Accumulate(payload);
    FromToBytes(x);
    var bytes := ToBytes(x);
    LeadingZerosDoNotCount(n, bytes);
    LeadingCountIs(Repeat(0, n) + bytes, 0, n);
    assert s == Repeat(Symbol(0), n) + payload;
  }

  /** Encoding a decoding gives a string back exactly when it is over the alphabet. */
  lemma {:induction false} EncodeDecode(s: Bytes)
    ensures Encoded(Decoded(s)) == s <==> InAlphabet(s)
  {
    EncodedInAlphabet(Decoded(s));
    if InAlphabet(s) {
      EncodeDecodeInAlphabet(s);
    }
  }
}
