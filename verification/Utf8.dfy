// Well-formed UTF-8, by the grammar in section 4 of RFC 3629, and that it is
// exactly what encoding Unicode scalar values gives (section 3).
module Utf8 {
  import opened Varint

  predicate Tail(b: byte) {
    0x80 <= b <= 0xBF
  }

  /** The length of the character at the front, or 0 if there is none. */
  function CharLength(s: seq<byte>): (n: nat)
    ensures n <= |s|
  {
    if s == [] then 0
    else if s[0] <= 0x7F then 1
    else if 0xC2 <= s[0] <= 0xDF && |s| >= 2 && Tail(s[1]) then 2
    else if |s| >= 3 && Tail(s[2]) && Second3(s[0], s[1]) then 3
    else if |s| >= 4 && Tail(s[2]) && Tail(s[3]) && Second4(s[0], s[1]) then 4
    else 0
  }

  predicate Second3(first: byte, second: byte) {
    || (first == 0xE0 && 0xA0 <= second <= 0xBF)
    || (0xE1 <= first <= 0xEC && Tail(second))
    || (first == 0xED && 0x80 <= second <= 0x9F)
    || (0xEE <= first <= 0xEF && Tail(second))
  }

  predicate Second4(first: byte, second: byte) {
    || (first == 0xF0 && 0x90 <= second <= 0xBF)
    || (0xF1 <= first <= 0xF3 && Tail(second))
    || (first == 0xF4 && 0x80 <= second <= 0x8F)
  }

  predicate IsValid(s: seq<byte>) {
    s == [] || (CharLength(s) > 0 && IsValid(s[CharLength(s)..]))
  }

  // ------------------------------------------------- against the encoding itself

  predicate IsScalar(c: nat) {
    c <= 0x10FFFF && !(0xD800 <= c <= 0xDFFF)
  }

  function EncodeChar(c: nat): (b: seq<byte>)
    requires IsScalar(c)
    ensures b != []
  {
    if c <= 0x7F then [c]
    else if c <= 0x7FF then [0xC0 + c / 64, 0x80 + c % 64]
    else if c <= 0xFFFF then [0xE0 + c / 4096, 0x80 + c / 64 % 64, 0x80 + c % 64]
    else [0xF0 + c / 262144, 0x80 + c / 4096 % 64, 0x80 + c / 64 % 64, 0x80 + c % 64]
  }

  /** Groups of six bits, most significant first. */
  function Bits(a: nat, b: nat, c: nat, d: nat): nat {
    262144 * a + 4096 * b + 64 * c + d
  }

  function DecodeChar(b: seq<byte>): nat
    requires b != [] && CharLength(b) == |b|
  {
    if |b| == 1 then b[0]
    else if |b| == 2 then Bits(0, 0, b[0] - 0xC0, b[1] - 0x80)
    else if |b| == 3 then Bits(0, b[0] - 0xE0, b[1] - 0x80, b[2] - 0x80)
    else Bits(b[0] - 0xF0, b[1] - 0x80, b[2] - 0x80, b[3] - 0x80)
  }

  predicate AreScalars(cs: seq<nat>) {
    forall i :: 0 <= i < |cs| ==> IsScalar(cs[i])
  }

  function EncodeAll(cs: seq<nat>): seq<byte>
    requires AreScalars(cs)
  {
    if cs == [] then [] else EncodeChar(cs[0]) + EncodeAll(cs[1..])
  }

  /** The grammar accepts the encoding of every scalar value, no more and no less of it. */
  lemma EncodedCharLength(c: nat, rest: seq<byte>)
    requires IsScalar(c)
    ensures CharLength(EncodeChar(c) + rest) == |EncodeChar(c)|
  {
    CharIsAccepted(c);
    hide EncodeChar;
    CharLengthExtends(EncodeChar(c), rest);
  }

  lemma CharLengthExtends(b: seq<byte>, rest: seq<byte>)
    requires b != [] && CharLength(b) == |b|
    ensures CharLength(b + rest) == |b|
  {
    hide Second3, Second4, Tail;
    var s := b + rest;
    assert forall i :: 0 <= i < |b| ==> s[i] == b[i];
  }

  lemma CharIsAccepted(c: nat)
    requires IsScalar(c)
    ensures CharLength(EncodeChar(c)) == |EncodeChar(c)|
  {
    if 0x7FF < c <= 0xFFFF {
      ThreeAreAccepted(c);
    } else if c > 0xFFFF {
      FourAreAccepted(c);
    }
  }

  lemma ThreeAreAccepted(c: nat)
    requires 0x7FF < c <= 0xFFFF && IsScalar(c)
    ensures Second3(0xE0 + c / 4096, 0x80 + c / 64 % 64)
  {
    SixBits(c);
  }

  lemma FourAreAccepted(c: nat)
    requires 0xFFFF < c && IsScalar(c)
    ensures 0xF0 + c / 262144 < 256 && Second4(0xF0 + c / 262144, 0x80 + c / 4096 % 64)
  {
    SixBits(c / 64);
    DividesTwice(c);
  }

  lemma SixBits(n: nat)
    ensures n / 64 == 64 * (n / 4096) + n / 64 % 64
  {}

  lemma DividesTwice(n: nat)
    ensures n / 64 / 64 == n / 4096 && n / 64 / 4096 == n / 262144
  {}

  lemma BitsSplit(a: nat, b: nat, c: nat, d: nat)
    requires b < 64 && c < 64 && d < 64
    ensures var n := Bits(a, b, c, d); n / 262144 == a && n / 4096 % 64 == b && n / 64 % 64 == c && n % 64 == d
    ensures a == 0 ==> Bits(a, b, c, d) / 4096 == b
    ensures a == 0 && b == 0 ==> Bits(a, b, c, d) / 64 == c
  {
    var n := Bits(a, b, c, d);
    assert n == 64 * (4096 * a + 64 * b + c) + d;
    assert n / 64 == 4096 * a + 64 * b + c == 64 * (64 * a + b) + c;
    assert n == 4096 * (64 * a + b) + (64 * c + d);
    assert n / 4096 == 64 * a + b;
    assert n == 262144 * a + (4096 * b + 64 * c + d);
  }

  /** What the grammar accepts as one character is the encoding of one scalar value. */
  lemma CharIsEncoded(b: seq<byte>)
    requires b != [] && CharLength(b) == |b|
    ensures IsScalar(DecodeChar(b)) && EncodeChar(DecodeChar(b)) == b
  {
    if |b| == 1 {
    } else if |b| == 2 {
      TwoBytes(b);
    } else if |b| == 3 {
      ThreeBytes(b);
    } else {
      FourBytes(b);
    }
  }

  lemma TwoBytes(b: seq<byte>)
    requires |b| == 2 && CharLength(b) == 2
    ensures IsScalar(DecodeChar(b)) && EncodeChar(DecodeChar(b)) == b
  {
    BitsSplit(0, 0, b[0] - 0xC0, b[1] - 0x80);
  }

  lemma ThreeBytes(b: seq<byte>)
    requires |b| == 3 && CharLength(b) == 3
    ensures IsScalar(DecodeChar(b)) && EncodeChar(DecodeChar(b)) == b
  {
    BitsSplit(0, b[0] - 0xE0, b[1] - 0x80, b[2] - 0x80);
  }

  lemma FourBytes(b: seq<byte>)
    requires |b| == 4 && CharLength(b) == 4
    ensures IsScalar(DecodeChar(b)) && EncodeChar(DecodeChar(b)) == b
  {
    BitsSplit(b[0] - 0xF0, b[1] - 0x80, b[2] - 0x80, b[3] - 0x80);
  }

  lemma CharLengthIsLocal(s: seq<byte>)
    requires CharLength(s) > 0
    ensures CharLength(s[..CharLength(s)]) == CharLength(s)
  {}

  lemma {:induction false} EncodedIsValid(cs: seq<nat>)
    requires AreScalars(cs)
    ensures IsValid(EncodeAll(cs))
    decreases |cs|
  {
    if cs != [] {
      var head, tail := EncodeChar(cs[0]), EncodeAll(cs[1..]);
      EncodedCharLength(cs[0], tail);
      EncodedIsValid(cs[1..]);
      assert (head + tail)[|head|..] == tail;
    }
  }

  lemma EncodeOneMore(c: nat, more: seq<nat>)
    requires IsScalar(c) && AreScalars(more)
    ensures AreScalars([c] + more) && EncodeAll([c] + more) == EncodeChar(c) + EncodeAll(more)
  {
    hide IsScalar, EncodeChar;
    assert ([c] + more)[1..] == more;
  }

  lemma ValidSplits(s: seq<byte>)
    requires IsValid(s) && s != []
    ensures 0 < CharLength(s) <= |s| && IsValid(s[CharLength(s)..])
  {
    hide CharLength;
  }

  lemma {:induction false} ValidIsEncoded(s: seq<byte>) returns (cs: seq<nat>)
    requires IsValid(s)
    ensures AreScalars(cs) && EncodeAll(cs) == s
    decreases |s|
  {
    hide IsValid, CharLength, EncodeChar, EncodeAll, IsScalar;
    if s == [] {
      cs := [];
      assert EncodeAll(cs) == [] by { EncodeNothing(); }
    } else {
      var c, rest := FirstChar(s);
      var more := ValidIsEncoded(rest);
      cs := [c] + more;
      EncodeOneMore(c, more);
    }
  }

  lemma EncodeNothing()
    ensures EncodeAll([]) == []
  {}

  lemma FirstChar(s: seq<byte>) returns (c: nat, rest: seq<byte>)
    requires IsValid(s) && s != []
    ensures IsScalar(c) && s == EncodeChar(c) + rest && IsValid(rest) && |rest| < |s|
  {
    hide CharLength, EncodeChar, DecodeChar, IsScalar, IsValid;
    var n := CharLength(s);
    ValidSplits(s);
    CharLengthIsLocal(s);
    CharIsEncoded(s[..n]);
    c, rest := DecodeChar(s[..n]), s[n..];
  }

  /** A string is accepted if and only if it is the encoding of some scalar values. */
  lemma ValidIffEncoded(s: seq<byte>)
    ensures IsValid(s) <==> exists cs :: AreScalars(cs) && EncodeAll(cs) == s
  {
    if IsValid(s) {
      var cs := ValidIsEncoded(s);
    }
    if cs :| AreScalars(cs) && EncodeAll(cs) == s {
      EncodedIsValid(cs);
    }
  }
}
