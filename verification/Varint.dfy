// Base 128 varints: the encoding, reading with the limits that tags, sizes and
// 64-bit values have, and the size computed from a logarithm.
module Varint {
  import opened Options

  type byte = b: int | 0 <= b < 256

  const TWO_32: nat := 0x1_0000_0000
  const TWO_64: nat := 0x1_0000_0000_0000_0000
  /** INT_MAX - kSlopBytes, the largest size that is read. */
  const MAX_SIZE: nat := INT_MAX - 16
  const INT_MAX: nat := 0x7FFF_FFFF

  /** Groups of seven bits, least significant first; all bytes but the last have the top bit set. */
  function Encode(v: nat): (b: seq<byte>)
    ensures b != []
  {
    if v < 128 then [v] else [v % 128 + 128] + Encode(v / 128)
  }

  function Value(b: seq<byte>): nat {
    if b == [] then 0 else b[0] % 128 + 128 * Value(b[1..])
  }

  /** The length of the varint at the front: up to the first byte without top bit; 0 if there is none in max bytes. */
  function Length(b: seq<byte>, max: nat): (n: nat)
    ensures n <= max && n <= |b|
    ensures n > 0 ==> b[n - 1] < 128 && forall i :: 0 <= i < n - 1 ==> b[i] >= 128
    ensures n == 0 ==> forall i :: 0 <= i < max && i < |b| ==> b[i] >= 128
  {
    if b == [] || max == 0 then 0
    else if b[0] < 128 then 1
    else
      var n := Length(b[1..], max - 1);
      assert forall i :: 0 < i < |b| ==> b[i] == b[1..][i - 1];
      if n == 0 then 0 else n + 1
  }

  /** A value and the number of bytes it takes. */
  datatype Reading = Reading(value: nat, length: nat)

  function Read(b: seq<byte>, max: nat, modulus: nat): (r: Option<Reading>)
    requires modulus > 0
    ensures r.Some? ==> 0 < r.value.length <= |b|
  {
    var n := Length(b, max);
    if n == 0 then None else Some(Reading(Value(b[..n]) % modulus, n))
  }

  function ReadVarint64(b: seq<byte>): Option<Reading> {
    Read(b, 10, TWO_64)
  }

  function ReadTag(b: seq<byte>): Option<Reading> {
    Read(b, 5, TWO_32)
  }

  /** A fifth byte of 8 or more, and sizes close to the largest int, are refused. */
  function ReadSize(b: seq<byte>): (r: Option<Reading>)
    ensures r.Some? ==> 0 < r.value.length <= |b|
  {
    match Read(b, 5, TWO_32)
    case None => None
    case Some(r) => if r.length == 5 && (b[4] >= 8 || r.value > MAX_SIZE) then None else Some(r)
  }

  // -------------------------------------------------------------- round trip

  lemma LowBits(v: nat)
    ensures (v % 128 + 128) % 128 == v % 128 && v % 128 + 128 * (v / 128) == v
  {}

  lemma EncodeStep(v: nat)
    requires v >= 128
    ensures Encode(v) == [v % 128 + 128] + Encode(v / 128)
    ensures Value(Encode(v)) == v % 128 + 128 * Value(Encode(v / 128))
  {
    LowBits(v);
    assert Encode(v)[1..] == Encode(v / 128);
  }

  lemma {:induction false} EncodeIsRead(v: nat, rest: seq<byte>, max: nat)
    requires |Encode(v)| <= max
    ensures Length(Encode(v) + rest, max) == |Encode(v)|
    ensures Value(Encode(v)) == v
    decreases v
  {
    if v < 128 {
      assert [v][1..] == [];
    } else {
      EncodeStep(v);
      LowBits(v);
      var first, tail := v % 128 + 128, Encode(v / 128);
      hide Encode, Value;
      EncodeIsRead(v / 128, rest, max - 1);
      assert Encode(v) + rest == [first] + (tail + rest);
      LengthStep(first, tail + rest, max);
    }
  }

  lemma LengthStep(first: byte, rest: seq<byte>, max: nat)
    requires first >= 128 && max > 0 && Length(rest, max - 1) > 0
    ensures Length([first] + rest, max) == 1 + Length(rest, max - 1)
  {
    assert ([first] + rest)[1..] == rest;
  }

  function Pow128(n: nat): nat {
    if n == 0 then 1 else 128 * Pow128(n - 1)
  }

  lemma {:induction false} EncodedLength(v: nat, n: nat)
    requires n > 0
    ensures |Encode(v)| <= n <==> v < Pow128(n)
    decreases n
  {
    if n > 1 {
      if v >= 128 {
        EncodedLength(v / 128, n - 1);
        assert v / 128 < Pow128(n - 1) <==> v < 128 * Pow128(n - 1);
      } else {
        assert Pow128(n) >= 128 by { PowersArePositive(n - 1); }
      }
    } else {
      assert Pow128(0) == 1;
    }
  }

  lemma {:induction false} PowersArePositive(n: nat)
    ensures Pow128(n) >= 1
  {
    if n > 0 { PowersArePositive(n - 1); }
  }

  lemma Powers()
    ensures Pow128(1) == 128 && Pow128(4) == 0x1000_0000 && Pow128(5) == 0x8_0000_0000
    ensures Pow128(9) == 0x8000_0000_0000_0000 && Pow128(10) == 0x40_0000_0000_0000_0000
  {
    assert Pow128(1) == 128 * Pow128(0);
    assert Pow128(2) == 128 * Pow128(1);
    assert Pow128(3) == 128 * Pow128(2);
    assert Pow128(4) == 128 * Pow128(3);
    assert Pow128(5) == 128 * Pow128(4);
    assert Pow128(6) == 128 * Pow128(5);
    assert Pow128(7) == 128 * Pow128(6);
    assert Pow128(8) == 128 * Pow128(7);
    assert Pow128(9) == 128 * Pow128(8);
    assert Pow128(10) == 128 * Pow128(9);
  }

  lemma SmallRemainder(v: nat, modulus: nat)
    requires v < modulus
    ensures v % modulus == v
  {}

  lemma ReadsBack(v: nat, rest: seq<byte>, max: nat, modulus: nat)
    requires v < modulus && |Encode(v)| <= max
    ensures Read(Encode(v) + rest, max, modulus) == Some(Reading(v, |Encode(v)|))
  {
    hide Encode, Value, Length;
    EncodeIsRead(v, rest, max);
    SmallRemainder(v, modulus);
    assert (Encode(v) + rest)[..|Encode(v)|] == Encode(v);
  }

  /** Reading gives back any 64-bit value, and leaves what follows it. */
  lemma Varint64RoundTrip(v: nat, rest: seq<byte>)
    requires v < TWO_64
    ensures ReadVarint64(Encode(v) + rest) == Some(Reading(v, |Encode(v)|))
    ensures |Encode(v)| <= 10
  {
    hide Encode, Read, Pow128;
    Powers();
    EncodedLength(v, 10);
    ReadsBack(v, rest, 10, TWO_64);
  }

  lemma TagRoundTrip(v: nat, rest: seq<byte>)
    requires v < TWO_32
    ensures ReadTag(Encode(v) + rest) == Some(Reading(v, |Encode(v)|))
    ensures |Encode(v)| <= 5
  {
    hide Encode, Read, Pow128;
    Powers();
    EncodedLength(v, 5);
    ReadsBack(v, rest, 5, TWO_32);
  }

  lemma SizeRoundTrip(v: nat, rest: seq<byte>)
    requires v <= MAX_SIZE
    ensures ReadSize(Encode(v) + rest) == Some(Reading(v, |Encode(v)|))
  {
    TagRoundTrip(v, rest);
    if |Encode(v)| == 5 { assert (Encode(v) + rest)[4] == Encode(v)[4]; FifthByte(v); }
  }

  /** The fifth byte of a 31-bit value has three bits. */
  lemma FifthByte(v: nat)
    requires v <= MAX_SIZE && |Encode(v)| == 5
    ensures Encode(v)[4] < 8
  {
    var a := v / 128;
    var b := a / 128;
    var c := b / 128;
    var d := c / 128;
    assert Encode(v) == [v % 128 + 128] + Encode(a);
    assert Encode(a) == [a % 128 + 128] + Encode(b);
    assert Encode(b) == [b % 128 + 128] + Encode(c);
    assert Encode(c) == [c % 128 + 128] + Encode(d);
    assert Encode(d) == [d];
  }

  /** What is read at all: ten bytes of a value, five of a tag, up to the first that is below 128. */
  lemma ReadIff(b: seq<byte>)
    ensures ReadVarint64(b).Some? <==> exists i :: 0 <= i < 10 && i < |b| && b[i] < 128
    ensures ReadTag(b).Some? <==> exists i :: 0 <= i < 5 && i < |b| && b[i] < 128
  {
    var n, k := Length(b, 10), Length(b, 5);
    if n > 0 { assert b[n - 1] < 128; }
    if k > 0 { assert b[k - 1] < 128; }
  }

  /** Sizes are read up to INT_MAX less 16. */
  lemma SizeIsReadIff(v: nat, rest: seq<byte>)
    requires v < 0x1_0000_0000
    ensures ReadSize(Encode(v) + rest) == if v <= 2147483631 then Some(Reading(v, |Encode(v)|)) else None
  {
    if v <= 2147483631 {
      SizeRoundTrip(v, rest);
    } else {
      TagRoundTrip(v, rest);
      Powers();
      EncodedLength(v, 4);
      hide Encode, Read;
    }
  }

  // -------------------------------------------------------------------- sizes

  /** The position of the highest bit. */
  function Log2Floor(v: nat): nat
    requires v > 0
  {
    if v == 1 then 0 else 1 + Log2Floor(v / 2)
  }

  /** v | 1 */
  function OrOne(v: nat): nat {
    if v % 2 == 0 then v + 1 else v
  }

  function VarintSize64(v: nat): nat {
    (Log2Floor(OrOne(v)) * 9 + 73) / 64
  }

  lemma {:induction false} LogOfOrOne(v: nat)
    requires v > 0
    ensures Log2Floor(OrOne(v)) == Log2Floor(v)
  {
    if v > 1 { assert OrOne(v) / 2 == v / 2; }
  }

  lemma {:induction false} LogStepsBySeven(v: nat)
    requires v >= 128
    ensures Log2Floor(v) == 7 + Log2Floor(v / 128)
  {
    var a := v / 2;
    var b := a / 2;
    var c := b / 2;
    var d := c / 2;
    var e := d / 2;
    var f := e / 2;
    assert v / 128 == f / 2;
    assert Log2Floor(v) == 1 + Log2Floor(a) == 2 + Log2Floor(b) == 3 + Log2Floor(c);
    assert Log2Floor(c) == 1 + Log2Floor(d) == 2 + Log2Floor(e) == 3 + Log2Floor(f);
  }

  lemma SmallLog(v: nat)
    requires 0 < v < 128
    ensures Log2Floor(v) < 7
  {
    var a := v / 2;
    var b := a / 2;
    var c := b / 2;
    var d := c / 2;
    var e := d / 2;
    var f := e / 2;
    assert f <= 1;
    if e > 1 { assert Log2Floor(e) == 1 + Log2Floor(f); }
    if d > 1 { assert Log2Floor(d) == 1 + Log2Floor(e); }
    if c > 1 { assert Log2Floor(c) == 1 + Log2Floor(d); }
    if b > 1 { assert Log2Floor(b) == 1 + Log2Floor(c); }
    if a > 1 { assert Log2Floor(a) == 1 + Log2Floor(b); }
  }

  lemma {:induction false} LengthFromLog(v: nat)
    requires v > 0
    ensures |Encode(v)| == Log2Floor(v) / 7 + 1
    decreases v
  {
    if v >= 128 {
      LogStepsBySeven(v);
      LengthFromLog(v / 128);
    } else {
      SmallLog(v);
    }
  }

  /** The multiplication by 9/64 stands for the division by 7: exact for every 64-bit value. */
  lemma VarintSizeIsLength(v: nat)
    requires v < TWO_64
    ensures VarintSize64(v) == |Encode(v)|
  {
    if v == 0 {
      assert Log2Floor(1) == 0;
    } else {
      LogOfOrOne(v);
      LengthFromLog(v);
      LogBelow64(v);
      NineSixtyFourths(Log2Floor(v));
    }
  }

  lemma NineSixtyFourths(l: nat)
    requires l < 64
    ensures (l * 9 + 73) / 64 == l / 7 + 1
  {}

  lemma LogBelow64(v: nat)
    requires 0 < v < TWO_64
    ensures Log2Floor(v) < 64
  {
    PowerOfEight(0);
    PowerOfEight(8);
    PowerOfEight(16);
    PowerOfEight(24);
    PowerOfEight(32);
    PowerOfEight(40);
    PowerOfEight(48);
    PowerOfEight(56);
    LogBelow(v, 64);
  }

  function Pow2(n: nat): nat {
    if n == 0 then 1 else 2 * Pow2(n - 1)
  }

  lemma PowerOfEight(n: nat)
    ensures Pow2(n + 8) == 256 * Pow2(n)
  {
    assert Pow2(n + 8) == 2 * Pow2(n + 7) == 4 * Pow2(n + 6) == 8 * Pow2(n + 5);
    assert Pow2(n + 5) == 2 * Pow2(n + 4) == 4 * Pow2(n + 3) == 8 * Pow2(n + 2);
    assert Pow2(n + 2) == 2 * Pow2(n + 1) == 4 * Pow2(n);
  }

  lemma {:induction false} LogBelow(v: nat, n: nat)
    requires 0 < v < Pow2(n)
    ensures Log2Floor(v) < n
    decreases n
  {
    if v > 1 { LogBelow(v / 2, n - 1); }
  }
}
