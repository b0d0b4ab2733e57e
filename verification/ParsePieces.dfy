// A parse goes through its bytes field by field: what has been parsed as a whole
// does not depend on what follows, which is then parsed into the result.
module ParsePieces {
  import opened Options
  import opened Varint
  import opened WireFields
  import opened Messages

  /** The same reading, with more bytes left over. */
  function Before<T>(r: Option<Parsed<T>>, b: seq<byte>): Option<Parsed<T>> {
    match r
    case None => None
    case Some(x) => Some(Parsed(x.result, x.rest + b))
  }

  lemma {:induction false} LengthStays(a: seq<byte>, b: seq<byte>, max: nat)
    requires Length(a, max) > 0
    ensures Length(a + b, max) == Length(a, max)
    decreases |a|
  {
    if a[0] >= 128 {
      LengthStays(a[1..], b, max - 1);
      assert (a + b)[1..] == a[1..] + b;
    }
  }

  lemma ReadStays(a: seq<byte>, b: seq<byte>, max: nat, modulus: nat)
    requires modulus > 0 && Read(a, max, modulus).Some?
    ensures Read(a + b, max, modulus) == Read(a, max, modulus)
    ensures var n := Read(a, max, modulus).value.length;
            n <= |a| && (a + b)[..n] == a[..n] && (a + b)[n..] == a[n..] + b
  {
    hide Length, Varint.Value;
    var n := Read(a, max, modulus).value.length;
    LengthStays(a, b, max);
    assert (a + b)[..n] == a[..n];
  }

  lemma TakenStay(a: seq<byte>, b: seq<byte>)
    ensures TakeVarint(a).Some? ==> TakeVarint(a + b) == Before(TakeVarint(a), b)
    ensures TakeTag(a).Some? ==> TakeTag(a + b) == Before(TakeTag(a), b)
    ensures TakeDelimited(a).Some? ==> TakeDelimited(a + b) == Before(TakeDelimited(a), b)
  {
    hide Read;
    if ReadVarint64(a).Some? { ReadStays(a, b, 10, TWO_64); }
    if ReadTag(a).Some? { ReadStays(a, b, 5, TWO_32); }
    if TakeDelimited(a).Some? {
      ReadStays(a, b, 5, TWO_32);
      SizeStays(a, b);
      var x := ReadSize(a).value;
      TakeStays(a[x.length..], b, x.value);
    }
  }

  lemma SizeStays(a: seq<byte>, b: seq<byte>)
    requires ReadSize(a).Some? && Read(a + b, 5, TWO_32) == Read(a, 5, TWO_32)
    ensures ReadSize(a + b) == ReadSize(a)
  {
    hide Length;
  }

  lemma TakeStays(a: seq<byte>, b: seq<byte>, n: nat)
    ensures Take(a, n).Some? ==> Take(a + b, n) == Before(Take(a, n), b)
  {
    if n <= |a| { assert (a + b)[..n] == a[..n] && (a + b)[n..] == a[n..] + b; }
  }

  lemma {:induction false} BodyStays(a: seq<byte>, tag: nat, depth: nat, b: seq<byte>)
    requires ReadBody(a, tag, depth).Some?
    ensures ReadBody(a + b, tag, depth) == Before(ReadBody(a, tag, depth), b)
    decreases |a|, 1
  {
    hide TakeVarint, TakeDelimited, ReadGroup, Take;
    TakenStay(a, b);
    TakeStays(a, b, 8);
    TakeStays(a, b, 4);
    if tag % 8 == START_GROUP { GroupStays(a, tag / 8, depth - 1, b); }
  }

  lemma {:induction false} GroupStays(a: seq<byte>, number: nat, depth: nat, b: seq<byte>)
    requires ReadGroup(a, number, depth).Some?
    ensures ReadGroup(a + b, number, depth) == Before(ReadGroup(a, number, depth), b)
    decreases |a|, 0
  {
    hide TakeTag, ReadBody, Tag;
    TakenStay(a, b);
    var t := TakeTag(a).value;
    if t.result % 8 != END_GROUP {
      BodyStays(t.rest, t.result, depth, b);
      GroupStays(ReadBody(t.rest, t.result, depth).value.rest, number, depth, b);
    }
  }

  lemma KnownStays(a: seq<byte>, i: nat, m: Message, sc: Schema, depth: nat, b: seq<byte>)
    requires i < |m.values| == |sc| && ParseKnown(a, i, m, sc, depth).Some?
    ensures ParseKnown(a + b, i, m, sc, depth) == Before(ParseKnown(a, i, m, sc, depth), b)
  {
    hide TakeVarint, TakeDelimited, Parse;
    TakenStay(a, b);
  }

  lemma FieldStays(a: seq<byte>, tag: nat, m: Message, sc: Schema, depth: nat, b: seq<byte>)
    requires |m.values| == |sc| && ParseField(a, tag, m, sc, depth).Some?
    ensures ParseField(a + b, tag, m, sc, depth) == Before(ParseField(a, tag, m, sc, depth), b)
  {
    hide ParseKnown, ReadBody;
    var i := tag / 8 - 1;
    if 0 <= i < |sc| && tag == KnownTag(sc, i) {
      KnownStays(a, i, m, sc, depth, b);
    } else {
      BodyStays(a, tag, depth, b);
    }
  }

  /**
   * Whatever the bytes: if some are parsed on their own, then with more behind
   * them the rest is parsed into the message that they gave.
   */
  lemma {:induction false} ParseAppends(a: seq<byte>, b: seq<byte>, m: Message, sc: Schema, depth: nat)
    requires |m.values| == |sc| && Parse(a, m, sc, depth).Some?
    ensures Parse(a + b, m, sc, depth) == Parse(b, Parse(a, m, sc, depth).value, sc, depth)
    decreases |a|
  {
    hide TakeTag, ParseField;
    if a == [] {
      assert a + b == b;
    } else {
      TakenStay(a, b);
      var t := TakeTag(a).value;
      FieldStays(t.rest, t.result, m, sc, depth, b);
      var x := ParseField(t.rest, t.result, m, sc, depth).value;
      ParseAppends(x.rest, b, x.result, sc, depth);
    }
  }

  /** The wire types by number: an 8-byte, a 4-byte, and those that no field has. */
  lemma OtherWireTypes(b: seq<byte>, number: nat, depth: nat)
    requires number > 0
    ensures ReadBody(b, 8 * number + 1, depth) ==
            if |b| < 8 then None else Some(Parsed(Fixed64Field(number, b[..8]), b[8..]))
    ensures ReadBody(b, 8 * number + 5, depth) ==
            if |b| < 4 then None else Some(Parsed(Fixed32Field(number, b[..4]), b[4..]))
    ensures ReadBody(b, 8 * number + 4, depth) == ReadBody(b, 8 * number + 6, depth) == None
    ensures ReadBody(b, 8 * number + 7, depth) == None
  {
    hide TakeVarint, TakeDelimited, ReadGroup;
  }
}
