// Fields as they are on the wire: what is kept of a field that a message does
// not know, its writing, and its reading back.
module WireFields {
  import opened Options
  import opened Varint

  const VARINT: nat := 0
  const FIXED64: nat := 1
  const LENGTH_DELIMITED: nat := 2
  const START_GROUP: nat := 3
  const END_GROUP: nat := 4
  const FIXED32: nat := 5

  datatype Field =
    | VarintField(number: nat, value: nat)
    | Fixed64Field(number: nat, data: seq<byte>)
    | BytesField(number: nat, data: seq<byte>)
    | GroupField(number: nat, fields: seq<Field>)
    | Fixed32Field(number: nat, data: seq<byte>)

  function WireType(f: Field): nat {
    match f
    case VarintField(_, _) => VARINT
    case Fixed64Field(_, _) => FIXED64
    case BytesField(_, _) => LENGTH_DELIMITED
    case GroupField(_, _) => START_GROUP
    case Fixed32Field(_, _) => FIXED32
  }

  function Tag(number: nat, wireType: nat): nat {
    number * 8 + wireType
  }

  function TagOf(f: Field): nat {
    Tag(f.number, WireType(f))
  }

  /** In the range of its types, and no data longer than the limit. */
  predicate ValidField(f: Field, limit: nat)
    decreases f
  {
    && 1 <= f.number < 0x2000_0000
    && match f
       case VarintField(_, value) => value < TWO_64
       case Fixed64Field(_, data) => |data| == 8
       case BytesField(_, data) => |data| <= limit
       case GroupField(_, fields) => forall i :: 0 <= i < |fields| ==> ValidField(fields[i], limit)
       case Fixed32Field(_, data) => |data| == 4
  }

  // ------------------------------------------------------------------ writing

  /** What follows the tag. */
  function EncodeBody(f: Field): seq<byte>
    decreases f, 0
  {
    match f
    case VarintField(_, value) => Encode(value)
    case Fixed64Field(_, data) => data
    case BytesField(_, data) => Encode(|data|) + data
    case GroupField(number, fields) => EncodeFields(fields) + Encode(Tag(number, END_GROUP))
    case Fixed32Field(_, data) => data
  }

  function EncodeField(f: Field): seq<byte>
    decreases f, 1
  {
    Encode(TagOf(f)) + EncodeBody(f)
  }

  function EncodeFields(fs: seq<Field>): seq<byte>
    decreases fs, 2
  {
    if fs == [] then [] else EncodeField(fs[0]) + EncodeFields(fs[1..])
  }

  /** ComputeUnknownFieldsSize. */
  function FieldSize(f: Field): nat
    decreases f, 1
  {
    VarintSize64(TagOf(f)) +
    match f
    case VarintField(_, value) => VarintSize64(value)
    case Fixed64Field(_, data) => 8
    case BytesField(_, data) => VarintSize64(|data|) + |data|
    case GroupField(number, fields) => FieldsSize(fields) + VarintSize64(Tag(number, END_GROUP))
    case Fixed32Field(_, data) => 4
  }

  function FieldsSize(fs: seq<Field>): nat
    decreases fs, 2
  {
    if fs == [] then 0 else FieldSize(fs[0]) + FieldsSize(fs[1..])
  }

  lemma {:induction false} FieldSizeIsExact(f: Field)
    requires ValidField(f, INT_MAX)
    ensures FieldSize(f) == |EncodeField(f)|
    decreases f, 1
  {
    TagParts(f.number, WireType(f));
    VarintSizeIsLength(TagOf(f));
    match f
    case VarintField(_, value) => VarintSizeIsLength(value);
    case BytesField(_, data) => VarintSizeIsLength(|data|);
    case GroupField(number, fields) =>
      TagParts(number, END_GROUP);
      VarintSizeIsLength(Tag(number, END_GROUP));
      FieldsSizeIsExact(fields);
    case _ =>
  }

  lemma {:induction false} FieldsSizeIsExact(fs: seq<Field>)
    requires forall i :: 0 <= i < |fs| ==> ValidField(fs[i], INT_MAX)
    ensures FieldsSize(fs) == |EncodeFields(fs)|
    decreases fs, 2
  {
    hide VarintSize64, Encode, EncodeField, FieldSize;
    if fs != [] {
      FieldSizeIsExact(fs[0]);
      FieldsSizeIsExact(fs[1..]);
    }
  }

  // ------------------------------------------------------------------ reading

  /** A field and what follows it. */
  datatype Parsed<+T> = Parsed(result: T, rest: seq<byte>)

  function Take(b: seq<byte>, n: nat): Option<Parsed<seq<byte>>> {
    if n <= |b| then Some(Parsed(b[..n], b[n..])) else None
  }

  function TakeVarint(b: seq<byte>): (r: Option<Parsed<nat>>)
    ensures r.Some? ==> |r.value.rest| < |b|
  {
    match ReadVarint64(b)
    case None => None
    case Some(x) => Some(Parsed(x.value, b[x.length..]))
  }

  function TakeTag(b: seq<byte>): (r: Option<Parsed<nat>>)
    ensures r.Some? ==> |r.value.rest| < |b|
  {
    match ReadTag(b)
    case None => None
    case Some(x) => Some(Parsed(x.value, b[x.length..]))
  }

  /** A size and as many bytes. */
  function TakeDelimited(b: seq<byte>): (r: Option<Parsed<seq<byte>>>)
    ensures r.Some? ==> |r.value.rest| < |b| && |r.value.result| < |b|
  {
    match ReadSize(b)
    case None => None
    case Some(x) => Take(b[x.length..], x.value)
  }

  /** FieldParser: the body of a field with the given tag; groups use up depth. */
  function ReadBody(b: seq<byte>, tag: nat, depth: nat): (r: Option<Parsed<Field>>)
    ensures r.Some? ==> |r.value.rest| <= |b|
    decreases |b|, 1
  {
    var number, wireType := tag / 8, tag % 8;
    if number == 0 then None
    else if wireType == VARINT then
      match TakeVarint(b) case None => None case Some(x) => Some(Parsed(VarintField(number, x.result), x.rest))
    else if wireType == FIXED64 then
      match Take(b, 8) case None => None case Some(x) => Some(Parsed(Fixed64Field(number, x.result), x.rest))
    else if wireType == LENGTH_DELIMITED then
      match TakeDelimited(b) case None => None case Some(x) => Some(Parsed(BytesField(number, x.result), x.rest))
    else if wireType == START_GROUP then
      if depth == 0 then None
      else
        match ReadGroup(b, number, depth - 1)
        case None => None
        case Some(x) => Some(Parsed(GroupField(number, x.result), x.rest))
    else if wireType == FIXED32 then
      match Take(b, 4) case None => None case Some(x) => Some(Parsed(Fixed32Field(number, x.result), x.rest))
    else None
  }

  /** WireFormatParser inside a group: up to the matching end tag, and never beyond the enclosing message. */
  function ReadGroup(b: seq<byte>, number: nat, depth: nat): (r: Option<Parsed<seq<Field>>>)
    ensures r.Some? ==> |r.value.rest| <= |b|
    decreases |b|, 0
  {
    match TakeTag(b)
    case None => None
    case Some(t) =>
      if t.result == 0 then None
      else if t.result % 8 == END_GROUP then
        if t.result == Tag(number, END_GROUP) then Some(Parsed([], t.rest)) else None
      else
        match ReadBody(t.rest, t.result, depth)
        case None => None
        case Some(f) =>
          match ReadGroup(f.rest, number, depth)
          case None => None
          case Some(more) => Some(Parsed([f.result] + more.result, more.rest))
  }

  // --------------------------------------------------------------- round trip

  /** How deep groups are nested in a field is within the limit. */
  predicate Nests(f: Field, depth: nat)
    decreases f
  {
    f.GroupField? ==> depth > 0 && forall i :: 0 <= i < |f.fields| ==> Nests(f.fields[i], depth - 1)
  }

  predicate AllNest(fs: seq<Field>, depth: nat) {
    forall i :: 0 <= i < |fs| ==> Nests(fs[i], depth)
  }

  lemma TakeEncoded(v: nat, rest: seq<byte>)
    ensures v < TWO_64 ==> TakeVarint(Encode(v) + rest) == Some(Parsed(v, rest))
    ensures v < TWO_32 ==> TakeTag(Encode(v) + rest) == Some(Parsed(v, rest))
  {
    assert (Encode(v) + rest)[|Encode(v)|..] == rest;
    if v < TWO_64 { Varint64RoundTrip(v, rest); }
    if v < TWO_32 { TagRoundTrip(v, rest); }
  }

  lemma TakeEncodedBytes(data: seq<byte>, rest: seq<byte>)
    requires |data| <= MAX_SIZE
    ensures TakeDelimited(Encode(|data|) + data + rest) == Some(Parsed(data, rest))
  {
    hide Encode, ReadSize;
    var size := Encode(|data|);
    SizeRoundTrip(|data|, data + rest);
    Associates(size, data, rest);
    Halves(size, data + rest);
    Halves(data, rest);
  }

  lemma Associates(a: seq<byte>, b: seq<byte>, c: seq<byte>)
    ensures a + b + c == a + (b + c)
  {}

  lemma Halves(a: seq<byte>, b: seq<byte>)
    ensures (a + b)[..|a|] == a && (a + b)[|a|..] == b && |a + b| == |a| + |b|
  {}

  lemma TakeExactly(data: seq<byte>, rest: seq<byte>)
    ensures Take(data + rest, |data|) == Some(Parsed(data, rest))
  {
    assert (data + rest)[..|data|] == data && (data + rest)[|data|..] == rest;
  }

  lemma TagParts(number: nat, wireType: nat)
    requires wireType < 8
    ensures Tag(number, wireType) / 8 == number && Tag(number, wireType) % 8 == wireType
    ensures number < 0x2000_0000 ==> Tag(number, wireType) < TWO_32
  {}

  /** A field is read back as it was written, unless its groups are nested too deep. */
  lemma {:induction false} FieldRoundTrip(f: Field, rest: seq<byte>, depth: nat)
    requires ValidField(f, MAX_SIZE)
    ensures ReadBody(EncodeBody(f) + rest, TagOf(f), depth) == if Nests(f, depth) then Some(Parsed(f, rest)) else None
    decreases f, 0
  {
    TagParts(f.number, WireType(f));
    match f
    case VarintField(_, value) => TakeEncoded(value, rest);
    case Fixed64Field(_, data) => TakeExactly(data, rest);
    case BytesField(_, data) => TakeEncodedBytes(data, rest);
    case Fixed32Field(_, data) => TakeExactly(data, rest);
    case GroupField(number, fields) =>
      if depth > 0 {
        GroupRoundTrip(fields, number, rest, depth - 1);
        assert EncodeBody(f) + rest == EncodeFields(fields) + Encode(Tag(number, END_GROUP)) + rest;
      }
  }

  lemma GroupEnds(number: nat, rest: seq<byte>, depth: nat)
    requires 1 <= number < 0x2000_0000
    ensures ReadGroup(Encode(Tag(number, END_GROUP)) + rest, number, depth) == Some(Parsed([], rest))
  {
    TagParts(number, END_GROUP);
    TakeEncoded(Tag(number, END_GROUP), rest);
  }

  lemma GroupGoesOn(f: Field, body: seq<byte>, number: nat, depth: nat)
    requires ValidField(f, MAX_SIZE)
    ensures ReadGroup(Encode(TagOf(f)) + body, number, depth) ==
            match ReadBody(body, TagOf(f), depth)
            case None => None
            case Some(x) =>
              match ReadGroup(x.rest, number, depth)
              case None => None
              case Some(more) => Some(Parsed([x.result] + more.result, more.rest))
  {
    TagParts(f.number, WireType(f));
    TakeEncoded(TagOf(f), body);
    hide TakeTag, ReadBody, Encode, ReadTag;
  }

  lemma AllNestParts(fs: seq<Field>, depth: nat)
    requires fs != []
    ensures AllNest(fs, depth) <==> Nests(fs[0], depth) && AllNest(fs[1..], depth)
  {
    assert forall i :: 0 < i < |fs| ==> fs[i] == fs[1..][i - 1];
  }

  lemma {:induction false} GroupRoundTrip(fs: seq<Field>, number: nat, rest: seq<byte>, depth: nat)
    requires forall i :: 0 <= i < |fs| ==> ValidField(fs[i], MAX_SIZE)
    requires 1 <= number < 0x2000_0000
    ensures ReadGroup(EncodeFields(fs) + Encode(Tag(number, END_GROUP)) + rest, number, depth) ==
            if AllNest(fs, depth) then Some(Parsed(fs, rest)) else None
    decreases fs, 1
  {
    hide ReadGroup, ReadBody, Encode, Tag, EncodeBody, AllNest;
    var end := Encode(Tag(number, END_GROUP));
    if fs == [] {
      assert EncodeFields(fs) + end + rest == end + rest;
      GroupEnds(number, rest, depth);
      assert AllNest(fs, depth) by { NothingNests(depth); }
    } else {
      var f, more := fs[0], fs[1..];
      var tail := EncodeFields(more) + end + rest;
      GroupGoesOn(f, EncodeBody(f) + tail, number, depth);
      FieldRoundTrip(f, tail, depth);
      GroupRoundTrip(more, number, rest, depth);
      AllNestParts(fs, depth);
      assert EncodeFields(fs) + end + rest == Encode(TagOf(f)) + (EncodeBody(f) + tail);
      assert fs == [f] + more;
    }
  }

  lemma NothingNests(depth: nat)
    ensures AllNest([], depth)
  {}
}
