// The varint loops of the library, against the functions of Varint: writing into
// a buffer, and reading with sums that wrap around and cancel.
module VarintLoops {
  import opened Options
  import opened Varint

  /** b | 0x80 */
  function OrTopBit(b: byte): byte {
    if b < 128 then b + 128 else b
  }

  /** Each byte is written first, and its top bit set when it turns out that there is more to come. */
  method UnsafeVarint(value: nat, target: array<byte>, at: nat) returns (end: nat)
    requires at + |Encode(value)| <= target.Length
    modifies target
    ensures end == at + |Encode(value)|
    ensures target[..] == old(target[..at]) + Encode(value) + old(target[end..])
  {
    hide Encode, OrTopBit;
    ghost var e := Encode(value);
    var v := value;
    target[at] := v % 256;
    end := at + 1;
    while v >= 0x80
      invariant at < end <= at + |e| && e[end - 1 - at..] == Encode(v)
      invariant target[end - 1] == v % 256 && forall k :: at <= k < end - 1 ==> target[k] == e[k - at]
      invariant forall k :: 0 <= k < at || end <= k < target.Length ==> target[k] == old(target[k])
      decreases v
    {
      WriteStep(e, end - 1 - at, v);
      target[end - 1] := OrTopBit(target[end - 1]);
      v := v / 128;
      target[end] := v % 256;
      end := end + 1;
    }
    LastByte(e, end - 1 - at, v);
    assert target[..] == old(target[..at]) + e + old(target[end..]);
  }

  lemma WriteStep(e: seq<byte>, i: nat, v: nat)
    requires v >= 128 && i < |e| && e[i..] == Encode(v)
    ensures OrTopBit(v % 256) == e[i]
    ensures i + 1 < |e| && e[i + 1..] == Encode(v / 128)
  {
    EncodeStep(v);
    TopBitOfWord(v);
    hide Encode;
    assert e[i] == e[i..][0] && e[i + 1..] == e[i..][1..];
  }

  lemma LastByte(e: seq<byte>, i: nat, v: nat)
    requires v < 128 && i < |e| && e[i..] == Encode(v)
    ensures i == |e| - 1 && e[i] == v % 256
  {
    assert e[i] == e[i..][0];
  }

  lemma TopBitOfWord(v: nat)
    ensures OrTopBit(v % 256) == v % 128 + 128
  {
    var q, r := v / 256, v % 256;
    LowGroup(v, 2 * q + if r < 128 then 0 else 1, if r < 128 then r else r - 128);
  }

  /** A remainder, by its quotient. */
  lemma LowGroup(v: nat, q: nat, r: nat)
    requires v == 128 * q + r && r < 128
    ensures v % 128 == r
  {}

  // ------------------------------------------------------------------ reading

  /** x as unsigned arithmetic leaves it, for a modulus of 2 to the power 32 or 64. */
  function Wrap(x: int, modulus: nat): nat
    requires modulus > 0
  {
    x % modulus
  }

  /** (byte - 1) << (7 * i), unsigned. */
  function Shifted(b: byte, i: nat, modulus: nat): nat
    requires modulus > 0
  {
    Wrap((b - 1) * Pow128(i), modulus)
  }

  lemma {:induction false} ValueAppends(b: seq<byte>, last: byte)
    ensures Value(b + [last]) == Value(b) + last % 128 * Pow128(|b|)
    decreases |b|
  {
    if b == [] {
      assert [last][1..] == [];
    } else {
      assert (b + [last])[1..] == b[1..] + [last];
      ValueAppends(b[1..], last);
      var p, r := Pow128(|b| - 1), last % 128;
      assert 128 * (r * p) == r * (128 * p);
    }
  }

  lemma WrapAdds(x: int, y: int, modulus: nat)
    requires modulus == TWO_32 || modulus == TWO_64
    ensures Wrap(Wrap(x, modulus) + Wrap(y, modulus), modulus) == Wrap(x + y, modulus)
  {}

  /**
   * While bytes have the top bit, the running sum is too large by a power of
   * 128; subtracting one from the next byte takes that back.
   */
  lemma OneStep(b: seq<byte>, next: byte, res: nat, modulus: nat)
    requires modulus == TWO_32 || modulus == TWO_64
    requires b != [] && res == Wrap(Value(b) + Pow128(|b|), modulus)
    ensures Wrap(res + Shifted(next, |b|, modulus), modulus) ==
            Wrap(Value(b + [next]) + (if next >= 128 then Pow128(|b| + 1) else 0), modulus)
  {
    hide Wrap, Value, Pow128;
    var p := Pow128(|b|);
    ValueAppends(b, next);
    WrapAdds(Value(b) + p, (next - 1) * p, modulus);
    NextTimes(next, p);
    NextPower(|b|);
  }

  lemma NextPower(n: nat)
    ensures Pow128(n + 1) == 128 * Pow128(n)
  {}

  lemma NextTimes(next: byte, p: nat)
    ensures (next - 1) * p + p == next % 128 * p + if next >= 128 then 128 * p else 0
  {
    assert next == next % 128 + if next >= 128 then 128 else 0;
  }

  /** The loop that VarintParse, ReadTag and ReadSize share; running past the end of the input is a failure as well. */
  method ReadVarint(b: seq<byte>, max: nat, modulus: nat) returns (r: Option<Reading>)
    requires max > 0 && (modulus == TWO_32 || modulus == TWO_64)
    ensures r == Read(b, max, modulus)
  {
    hide Wrap, Shifted;
    if |b| == 0 { return None; }
    var res: nat := b[0];
    FirstByte(b, modulus);
    if b[0] < 128 { return Some(Reading(b[0], 1)); }
    var i := 1;
    while i < max && i < |b|
      invariant 1 <= i <= max && i <= |b|
      invariant forall k :: 0 <= k < i ==> b[k] >= 128
      invariant res == Wrap(Value(b[..i]) + Pow128(i), modulus)
    {
      OneStep(b[..i], b[i], res, modulus);
      assert b[..i] + [b[i]] == b[..i + 1];
      res := Wrap(res + Shifted(b[i], i, modulus), modulus);
      if b[i] < 128 {
        LengthIs(b, max, i + 1);
        WrapIsRemainder(Value(b[..i + 1]), modulus);
        return Some(Reading(res, i + 1));
      }
      i := i + 1;
    }
    return None;
  }

  lemma FirstByte(b: seq<byte>, modulus: nat)
    requires b != [] && modulus >= 256
    ensures b[0] == Wrap(Value(b[..1]) + (if b[0] >= 128 then Pow128(1) else 0), modulus)
    ensures b[0] < 128 ==> Value(b[..1]) % modulus == b[0]
  {
    assert b[..1][1..] == [];
    assert Pow128(1) == 128 * Pow128(0);
    assert Value(b[..1]) == b[0] % 128;
  }

  lemma WrapIsRemainder(x: nat, modulus: nat)
    requires modulus > 0
    ensures Wrap(x + 0, modulus) == x % modulus
  {}

  /** VarintParse of a 64-bit value. */
  method VarintParse(b: seq<byte>) returns (r: Option<Reading>)
    ensures r == ReadVarint64(b)
  {
    r := ReadVarint(b, 10, TWO_64);
  }

  method ParseTag(b: seq<byte>) returns (r: Option<Reading>)
    ensures r == ReadTag(b)
  {
    r := ReadVarint(b, 5, TWO_32);
  }

  method ParseSize(b: seq<byte>) returns (r: Option<Reading>)
    ensures r == ReadSize(b)
  {
    r := ReadVarint(b, 5, TWO_32);
    if r.Some? && r.value.length == 5 {
      if b[4] >= 8 { return None; }
      if r.value.value > MAX_SIZE { return None; }
    }
  }

  lemma {:induction false} LengthIs(b: seq<byte>, max: nat, n: nat)
    requires 0 < n <= max && n <= |b| && b[n - 1] < 128 && forall i :: 0 <= i < n - 1 ==> b[i] >= 128
    ensures Length(b, max) == n
    decreases n
  {
    if n > 1 { LengthIs(b[1..], max - 1, n - 1); }
  }
}
