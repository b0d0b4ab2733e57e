// Parsing what was serialized, for every message of every schema: it merges.
module MessagesRoundTrip {
  import opened Options
  import opened Varint
  import opened WireFields
  import opened Messages
  import Utf8

  /** No known field has the field's tag. */
  predicate Foreign(f: Field, sc: Schema) {
    forall i :: 0 <= i < |sc| ==> TagOf(f) != KnownTag(sc, i)
  }

  /** How long data may be, and the bodies of nested messages. */
  datatype Limits = Limits(data: nat, body: Option<nat>)

  /** What can be read, and what sizes can be computed for. */
  const READABLE := Limits(MAX_SIZE, Some(MAX_SIZE))
  const SIZED := Limits(INT_MAX, Some(INT_MAX))

  /** Values in the range of their types, and nothing too long. */
  predicate ValidValue(v: Value, k: Kind, limits: Limits)
    decreases v
  {
    match k
    case Bool => v.Number? && 0 <= v.n <= 1
    case UInt64 => v.Number? && 0 <= v.n < TWO_64
    case Enum => v.Number? && -0x8000_0000 <= v.n < 0x8000_0000
    case Text => v.Str? && |v.s| <= limits.data
    case Repeated(fields) => v.List? && AllValid(v.ms, fields, limits)
  }

  predicate AllValid(ms: seq<Message>, sc: Schema, limits: Limits)
    decreases ms
  {
    forall j :: 0 <= j < |ms| ==>
      ValidMessage(ms[j], sc, limits) && (limits.body.Some? ==> |EncodeMessage(ms[j], sc)| <= limits.body.value)
  }

  predicate ValidMessage(m: Message, sc: Schema, limits: Limits)
    decreases m
  {
    && |m.values| == |sc|
    && (forall i :: 0 <= i < |sc| ==> ValidValue(m.values[i], sc[i], limits))
    && (forall i :: 0 <= i < |m.unknown| ==> ValidField(m.unknown[i], limits.data) && Foreign(m.unknown[i], sc))
  }

  /** What a parser accepts: strings that are UTF-8, and messages and groups nested within the limit. */
  predicate AcceptableValue(v: Value, depth: nat)
    decreases v
  {
    match v
    case Number(_) => true
    case Str(s) => Utf8.IsValid(s)
    case List(ms) => AllAcceptable(ms, depth)
  }

  predicate AllAcceptable(ms: seq<Message>, depth: nat)
    decreases ms
  {
    ms != [] ==> depth > 0 && forall j :: 0 <= j < |ms| ==> Acceptable(ms[j], depth - 1)
  }

  predicate AcceptableFrom(vs: seq<Value>, i: nat, depth: nat)
    decreases vs, 1
  {
    forall j :: i <= j < |vs| ==> AcceptableValue(vs[j], depth)
  }

  predicate Acceptable(m: Message, depth: nat)
    decreases m
  {
    (forall j :: 0 <= j < |m.values| ==> AcceptableValue(m.values[j], depth)) && AllNest(m.unknown, depth)
  }

  // ------------------------------------------------------------- single steps

  /** The parse after one known or unknown field. */
  function Continue(r: Option<Parsed<Message>>, sc: Schema, depth: nat): Option<Message>
    requires r.Some? ==> |r.value.result.values| == |sc|
  {
    match r
    case None => None
    case Some(x) => Parse(x.rest, x.result, sc, depth)
  }

  lemma ParseStep(number: nat, wireType: nat, body: seq<byte>, m: Message, sc: Schema, depth: nat)
    requires 1 <= number < 0x2000_0000 && wireType < 8 && wireType != END_GROUP && |m.values| == |sc|
    ensures Parse(Encode(Tag(number, wireType)) + body, m, sc, depth) ==
            Continue(ParseField(body, Tag(number, wireType), m, sc, depth), sc, depth)
  {
    TagParts(number, wireType);
    TakeEncoded(Tag(number, wireType), body);
    hide Encode, ReadTag, TakeTag, ParseField;
  }

  lemma Conversions(n: int, k: Kind)
    requires ValidValue(Number(n), k, READABLE)
    ensures k.Enum? ==> ToInt32(ToUInt64(n)) == n
    ensures !k.Enum? ==> ToUInt64(n) == n
  {}

  /** What a number field makes of a varint. */
  function FromVarint(v: nat, k: Kind): int {
    match k
    case Bool => if v != 0 then 1 else 0
    case Enum => ToInt32(v)
    case _ => v
  }

  lemma KnownField(b: seq<byte>, i: nat, m: Message, sc: Schema, depth: nat)
    requires i < |sc| == |m.values|
    ensures ParseField(b, Tag(i + 1, KindWireType(sc[i])), m, sc, depth) == ParseKnown(b, i, m, sc, depth)
  {
    TagParts(i + 1, KindWireType(sc[i]));
    hide ParseKnown, ReadBody, Tag, KindWireType;
    assert KnownTag(sc, i) == Tag(i + 1, KindWireType(sc[i]));
  }

  lemma VarintCase(b: seq<byte>, i: nat, m: Message, sc: Schema, depth: nat)
    requires i < |sc| == |m.values| && KindWireType(sc[i]) == VARINT
    ensures ParseKnown(b, i, m, sc, depth) ==
            match TakeVarint(b)
            case None => None
            case Some(x) => Some(Parsed(SetValue(m, i, Number(FromVarint(x.result, sc[i]))), x.rest))
  {
    hide TakeVarint, ToInt32, SetValue;
  }

  lemma NumberField(n: int, i: nat, rest: seq<byte>, m: Message, sc: Schema, depth: nat)
    requires i < |sc| <= 15 && |m.values| == |sc| && ValidValue(Number(n), sc[i], READABLE)
    ensures ToUInt64(n) < TWO_64
    ensures ParseField(Encode(ToUInt64(n)) + rest, Tag(i + 1, VARINT), m, sc, depth) ==
              Some(Parsed(SetValue(m, i, Number(n)), rest))
  {
    hide Encode, TakeVarint, ParseField, ParseKnown, ToInt32, Tag, SetValue;
    KnownField(Encode(ToUInt64(n)) + rest, i, m, sc, depth);
    VarintCase(Encode(ToUInt64(n)) + rest, i, m, sc, depth);
    TakeEncoded(ToUInt64(n), rest);
    Conversions(n, sc[i]);
  }

  lemma ParseNumber(n: int, i: nat, rest: seq<byte>, m: Message, sc: Schema, depth: nat)
    requires i < |sc| <= 15 && |m.values| == |sc| && ValidValue(Number(n), sc[i], READABLE)
    ensures Parse(EncodeValue(Number(n), sc[i], i + 1) + rest, m, sc, depth) ==
            if n == 0 then Parse(rest, m, sc, depth) else Parse(rest, SetValue(m, i, Number(n)), sc, depth)
  {
    hide Encode, ParseField, Parse, ToUInt64;
    if n == 0 {
      assert EncodeValue(Number(n), sc[i], i + 1) + rest == rest;
    } else {
      var v := ToUInt64(n);
      assert EncodeValue(Number(n), sc[i], i + 1) + rest == Encode(Tag(i + 1, VARINT)) + (Encode(v) + rest);
      ParseStep(i + 1, VARINT, Encode(v) + rest, m, sc, depth);
      NumberField(n, i, rest, m, sc, depth);
    }
  }

  lemma TextField(s: seq<byte>, i: nat, rest: seq<byte>, m: Message, sc: Schema, depth: nat)
    requires i < |sc| <= 15 && |m.values| == |sc| && sc[i].Text? && |s| <= MAX_SIZE
    ensures ParseField(Encode(|s|) + s + rest, Tag(i + 1, LENGTH_DELIMITED), m, sc, depth) ==
            if Utf8.IsValid(s) then Some(Parsed(SetValue(m, i, Str(s)), rest)) else None
  {
    hide Encode, ParseField, Utf8.IsValid, TakeDelimited, Tag, SetValue;
    KnownField(Encode(|s|) + s + rest, i, m, sc, depth);
    TakeEncodedBytes(s, rest);
  }

  lemma ParseText(s: seq<byte>, i: nat, rest: seq<byte>, m: Message, sc: Schema, depth: nat)
    requires i < |sc| <= 15 && |m.values| == |sc| && sc[i].Text? && |s| <= MAX_SIZE
    ensures Parse(EncodeValue(Str(s), sc[i], i + 1) + rest, m, sc, depth) ==
            if s == [] then Parse(rest, m, sc, depth)
            else if Utf8.IsValid(s) then Parse(rest, SetValue(m, i, Str(s)), sc, depth)
            else None
  {
    hide Encode, ParseField, Parse, Utf8.IsValid;
    if s == [] {
      assert EncodeValue(Str(s), sc[i], i + 1) + rest == rest;
    } else {
      var body := Encode(|s|) + s + rest;
      assert EncodeValue(Str(s), sc[i], i + 1) + rest == Encode(Tag(i + 1, LENGTH_DELIMITED)) + body;
      ParseStep(i + 1, LENGTH_DELIMITED, body, m, sc, depth);
      TextField(s, i, rest, m, sc, depth);
    }
  }

  lemma MessageField(body: seq<byte>, i: nat, rest: seq<byte>, m: Message, sc: Schema, depth: nat)
    requires i < |sc| <= 15 && |m.values| == |sc| && sc[i].Repeated? && |body| <= MAX_SIZE
    ensures ParseField(Encode(|body|) + body + rest, Tag(i + 1, LENGTH_DELIMITED), m, sc, depth) ==
            if depth == 0 then None
            else
              match Parse(body, Default(sc[i].fields), sc[i].fields, depth - 1)
              case None => None
              case Some(x) => Some(Parsed(AppendMessage(m, i, x), rest))
  {
    hide Encode, ParseField, Parse, TakeDelimited, Tag, AppendMessage, Default;
    KnownField(Encode(|body|) + body + rest, i, m, sc, depth);
    TakeEncodedBytes(body, rest);
  }

  lemma UnknownField(f: Field, rest: seq<byte>, m: Message, sc: Schema, depth: nat)
    requires |m.values| == |sc| && ValidField(f, MAX_SIZE) && Foreign(f, sc)
    ensures Parse(EncodeField(f) + rest, m, sc, depth) ==
            if Nests(f, depth) then Parse(rest, m.(unknown := m.unknown + [f]), sc, depth) else None
  {
    hide Encode, Parse, ReadBody, EncodeBody, TakeVarint, TakeDelimited, Nests;
    assert EncodeField(f) + rest == Encode(TagOf(f)) + (EncodeBody(f) + rest);
    ParseStep(f.number, WireType(f), EncodeBody(f) + rest, m, sc, depth);
    TagParts(f.number, WireType(f));
    FieldRoundTrip(f, rest, depth);
  }

  lemma {:induction false} UnknownFields(fs: seq<Field>, rest: seq<byte>, m: Message, sc: Schema, depth: nat)
    requires |m.values| == |sc| && forall i :: 0 <= i < |fs| ==> ValidField(fs[i], MAX_SIZE) && Foreign(fs[i], sc)
    ensures Parse(EncodeFields(fs) + rest, m, sc, depth) ==
            if AllNest(fs, depth) then Parse(rest, m.(unknown := m.unknown + fs), sc, depth) else None
    decreases |fs|
  {
    hide Parse, Nests, EncodeField, ValidField, Foreign;
    if fs == [] {
      assert EncodeFields(fs) + rest == rest && m.unknown + fs == m.unknown;
    } else {
      var f, more := fs[0], fs[1..];
      assert EncodeFields(fs) + rest == EncodeField(f) + (EncodeFields(more) + rest);
      UnknownField(f, EncodeFields(more) + rest, m, sc, depth);
      UnknownFields(more, rest, m.(unknown := m.unknown + [f]), sc, depth);
      AllNestParts(fs, depth);
      assert m.unknown + [f] + more == m.unknown + fs by { assert fs == [f] + more; }
    }
  }

  // ----------------------------------------------------------------- messages

  /** Merging into a message with default values gives the other message. */
  lemma MergeIntoDefault(m: Message, sc: Schema, limits: Limits)
    requires ValidMessage(m, sc, limits)
    ensures Merge(Default(sc), m) == m
  {
    hide AllValid, EncodeMessage;
    var r := Merge(Default(sc), m);
    forall i | 0 <= i < |sc| ensures r.values[i] == m.values[i] {
      assert ValidValue(m.values[i], sc[i], limits);
      if m.values[i].List? { assert [] + m.values[i].ms == m.values[i].ms; }
    }
    assert r.values == m.values;
    assert [] + m.unknown == m.unknown;
  }

  /** What a parse makes of one value. */
  function Merged(v: Value, i: nat, m: Message): Message
    requires i < |m.values|
  {
    SetValue(m, i, MergeValue(m.values[i], v))
  }

  lemma {:induction false} ParseValue(v: Value, i: nat, rest: seq<byte>, m: Message, sc: Schema, depth: nat)
    requires SchemaOk(sc) && i < |sc| && HasFormOf(m, sc) && ValidValue(v, sc[i], READABLE)
    ensures Parse(EncodeValue(v, sc[i], i + 1) + rest, m, sc, depth) ==
            if AcceptableValue(v, depth) then Parse(rest, Merged(v, i, m), sc, depth) else None
    decreases v, 3
  {
    hide Parse, Utf8.IsValid, EncodeList, AllAcceptable, AllValid;
    assert HasForm(m.values[i], sc[i]);
    assert m.values[i := m.values[i]] == m.values;
    match v
    case Number(n) => ParseNumber(n, i, rest, m, sc, depth);
    case Str(s) => ParseText(s, i, rest, m, sc, depth); assert Utf8.IsValid([]) by { EmptyIsValid(); }
    case List(ms) => ParseList(ms, i, rest, m, sc, depth);
  }

  lemma EmptyIsValid()
    ensures Utf8.IsValid([])
  {}

  lemma {:induction false} ParseList(ms: seq<Message>, i: nat, rest: seq<byte>, m: Message, sc: Schema, depth: nat)
    requires SchemaOk(sc) && i < |sc| && sc[i].Repeated? && HasFormOf(m, sc) && AllValid(ms, sc[i].fields, READABLE)
    ensures Parse(EncodeList(ms, sc[i].fields, i + 1) + rest, m, sc, depth) ==
            if AllAcceptable(ms, depth) then Parse(rest, SetValue(m, i, List(m.values[i].ms + ms)), sc, depth) else None
    decreases ms, 2
  {
    hide Parse, ParseField, Encode, EncodeMessage, Acceptable, ValidMessage;
    assert HasForm(m.values[i], sc[i]);
    if ms == [] {
      assert EncodeList(ms, sc[i].fields, i + 1) + rest == rest;
      assert m.values[i].ms + ms == m.values[i].ms && m.values[i := m.values[i]] == m.values;
    } else {
      var sub, x, more := sc[i].fields, ms[0], ms[1..];
      var body, tail := EncodeMessage(x, sub), EncodeList(more, sub, i + 1) + rest;
      assert EncodeList(ms, sub, i + 1) + rest == Encode(Tag(i + 1, LENGTH_DELIMITED)) + (Encode(|body|) + body + tail);
      ParseStep(i + 1, LENGTH_DELIMITED, Encode(|body|) + body + tail, m, sc, depth);
      MessageField(body, i, tail, m, sc, depth);
      if depth > 0 {
        ParseWhole(x, sub, depth - 1);
        var m' := AppendMessage(m, i, x);
        ParseList(more, i, rest, m', sc, depth);
        assert m'.values[i].ms + more == m.values[i].ms + ms by { assert ms == [x] + more; }
        assert m'.values[i := List(m.values[i].ms + ms)] == m.values[i := List(m.values[i].ms + ms)];
        AllAcceptableParts(ms, depth);
      }
    }
  }

  lemma AllAcceptableParts(ms: seq<Message>, depth: nat)
    requires ms != [] && depth > 0
    ensures AllAcceptable(ms, depth) <==> Acceptable(ms[0], depth - 1) && AllAcceptable(ms[1..], depth)
  {
    hide Acceptable;
    assert forall j :: 0 < j < |ms| ==> ms[j] == ms[1..][j - 1];
  }

  /** A message on its own, as the body of a field. */
  lemma {:induction false} ParseWhole(x: Message, sc: Schema, depth: nat)
    requires SchemaOk(sc) && ValidMessage(x, sc, READABLE)
    ensures Parse(EncodeMessage(x, sc), Default(sc), sc, depth) == if Acceptable(x, depth) then Some(x) else None
    decreases x, 5
  {
    ParseSerialized(x, [], Default(sc), sc, depth);
    MergeIntoDefault(x, sc, READABLE);
    assert EncodeMessage(x, sc) + [] == EncodeMessage(x, sc);
  }

  lemma {:induction false} ParseValues(a: Message, i: nat, rest: seq<byte>, m: Message, sc: Schema, depth: nat)
    requires SchemaOk(sc) && i <= |sc| && HasFormOf(m, sc) && ValidMessage(a, sc, READABLE)
    ensures Parse(EncodeValues(a.values, sc, i) + rest, m, sc, depth) ==
            if AcceptableFrom(a.values, i, depth) then Parse(rest, MergeFrom(m, a.(unknown := []), i), sc, depth)
            else None
    decreases a, 3, |sc| - i
  {
    hide Parse, EncodeValue, AcceptableValue, ValidValue, MergeValue;
    if i == |sc| {
      assert EncodeValues(a.values, sc, i) + rest == rest;
      assert MergeFrom(m, a.(unknown := []), i) == m;
    } else {
      var v := a.values[i];
      var tail := EncodeValues(a.values, sc, i + 1) + rest;
      assert EncodeValues(a.values, sc, i) + rest == EncodeValue(v, sc[i], i + 1) + tail;
      ParseValue(v, i, tail, m, sc, depth);
      assert HasFormOf(Merged(v, i, m), sc) by { MergedHasForm(v, i, m, sc); }
      ParseValues(a, i + 1, rest, Merged(v, i, m), sc, depth);
      assert MergeFrom(Merged(v, i, m), a.(unknown := []), i + 1) == MergeFrom(m, a.(unknown := []), i);
    }
  }

  lemma MergedHasForm(v: Value, i: nat, m: Message, sc: Schema)
    requires i < |sc| && HasFormOf(m, sc) && ValidValue(v, sc[i], READABLE)
    ensures HasFormOf(Merged(v, i, m), sc)
  {
    hide AllValid;
    assert HasForm(m.values[i], sc[i]);
  }

  /**
   * Parsing a serialized message, and whatever follows it, into any message
   * merges it in: for all messages of all schemas, nested to any depth. It
   * fails exactly if a string is no UTF-8 or the nesting exceeds the limit.
   */
  lemma {:induction false} ParseSerialized(a: Message, rest: seq<byte>, m: Message, sc: Schema, depth: nat)
    requires SchemaOk(sc) && HasFormOf(m, sc) && ValidMessage(a, sc, READABLE)
    ensures Parse(EncodeMessage(a, sc) + rest, m, sc, depth) ==
            if Acceptable(a, depth) then Parse(rest, Merge(m, a), sc, depth) else None
    decreases a, 4
  {
    hide Parse, EncodeValues, EncodeFields, AcceptableValue, ValidValue, AllNest, MergeValue, ValidField, Foreign;
    var tail := EncodeFields(a.unknown) + rest;
    assert EncodeMessage(a, sc) + rest == EncodeValues(a.values, sc, 0) + tail;
    ParseValues(a, 0, tail, m, sc, depth);
    var m' := MergeFrom(m, a.(unknown := []), 0);
    UnknownFields(a.unknown, rest, m', sc, depth);
    assert m'.(unknown := m'.unknown + a.unknown) == Merge(m, a);
  }

  // ------------------------------------------------------------- the theorems

  lemma DefaultHasForm(sc: Schema)
    ensures HasFormOf(Default(sc), sc)
  {}

  lemma MergeHasForm(m: Message, a: Message, sc: Schema)
    requires HasFormOf(m, sc) && ValidMessage(a, sc, READABLE)
    ensures HasFormOf(Merge(m, a), sc)
  {
    hide AllValid;
    forall i | 0 <= i < |sc| ensures HasForm(Merge(m, a).values[i], sc[i]) {
      assert HasForm(m.values[i], sc[i]) && ValidValue(a.values[i], sc[i], READABLE);
    }
  }

  /** Serialization followed by parsing is the identity, on exactly the acceptable messages. */
  lemma RoundTrip(a: Message, sc: Schema)
    requires SchemaOk(sc) && ValidMessage(a, sc, READABLE)
    ensures ParseFromArray(EncodeMessage(a, sc), sc) == if Acceptable(a, RECURSION_LIMIT) then Some(a) else None
  {
    ParseWhole(a, sc, RECURSION_LIMIT);
  }

  /** Concatenation on the wire is merging. */
  lemma ConcatenationMerges(a: Message, b: Message, sc: Schema)
    requires SchemaOk(sc) && ValidMessage(a, sc, READABLE) && ValidMessage(b, sc, READABLE)
    ensures ParseFromArray(EncodeMessage(a, sc) + EncodeMessage(b, sc), sc) ==
            if Acceptable(a, RECURSION_LIMIT) && Acceptable(b, RECURSION_LIMIT) then Some(Merge(a, b)) else None
  {
    hide Parse, Acceptable, EncodeMessage, ValidValue, Foreign, ValidField, HasForm, MergeValue;
    DefaultHasForm(sc);
    ParseSerialized(a, EncodeMessage(b, sc), Default(sc), sc, RECURSION_LIMIT);
    MergeIntoDefault(a, sc, READABLE);
    MergeHasForm(Default(sc), a, sc);
    ParseSerialized(b, [], a, sc, RECURSION_LIMIT);
    assert EncodeMessage(b, sc) + [] == EncodeMessage(b, sc);
    ParseNothing(Merge(a, b), sc);
  }

  lemma ParseNothing(m: Message, sc: Schema)
    requires |m.values| == |sc|
    ensures Parse([], m, sc, RECURSION_LIMIT) == Some(m)
  {}

  // --------------------------------------------------------------------- sizes

  lemma OneByteTag(sc: Schema, i: nat)
    requires SchemaOk(sc) && i < |sc|
    ensures |Encode(KnownTag(sc, i))| == 1
  {}

  lemma NegativesTakeTen(n: int)
    requires -0x8000_0000 <= n < 0
    ensures |Encode(ToUInt64(n))| == 10
  {
    var v := ToUInt64(n);
    Powers();
    EncodedLength(v, 10);
    EncodedLength(v, 9);
  }

  lemma DelimitedSizeIsExact(n: nat)
    requires n <= INT_MAX
    ensures LengthDelimitedSize(n) == |Encode(n)| + n
  {
    hide Encode, VarintSize64;
    VarintSizeIsLength(n);
  }

  lemma {:induction false} ValueSizeIsExact(v: Value, sc: Schema, i: nat)
    requires SchemaOk(sc) && i < |sc| && ValidValue(v, sc[i], SIZED)
    ensures ValueSize(v, sc[i]) == |EncodeValue(v, sc[i], i + 1)|
    decreases v, 1
  {
    OneByteTag(sc, i);
    hide Encode, VarintSize64;
    match v
    case Number(n) =>
      if n != 0 {
        VarintSizeIsLength(ToUInt64(n));
        if sc[i].Bool? { assert |Encode(ToUInt64(n))| == 1 by { OneTakesOne(); } }
        if n < 0 { NegativesTakeTen(n); }
      }
    case Str(s) => DelimitedSizeIsExact(|s|);
    case List(ms) => ListSizeIsExact(ms, sc, i);
  }

  lemma OneTakesOne()
    ensures |Encode(ToUInt64(1))| == 1
  {}

  lemma {:induction false} ListSizeIsExact(ms: seq<Message>, sc: Schema, i: nat)
    requires SchemaOk(sc) && i < |sc| && sc[i].Repeated? && AllValid(ms, sc[i].fields, SIZED)
    ensures |ms| + ListSize(ms, sc[i].fields) == |EncodeList(ms, sc[i].fields, i + 1)|
    decreases ms, 2
  {
    if ms != [] {
      OneByteTag(sc, i);
      hide Encode, LengthDelimitedSize, EncodeMessage, ByteSize, ValidMessage;
      ByteSizeIsExact(ms[0], sc[i].fields);
      DelimitedSizeIsExact(ByteSize(ms[0], sc[i].fields));
      ListSizeIsExact(ms[1..], sc, i);
    }
  }

  lemma {:induction false} ValuesSizeIsExact(m: Message, sc: Schema, i: nat)
    requires SchemaOk(sc) && ValidMessage(m, sc, SIZED) && i <= |sc|
    ensures ValuesSize(m.values, sc, i) == |EncodeValues(m.values, sc, i)|
    decreases m, 2, |sc| - i
  {
    hide ValueSize, EncodeValue, ValidValue;
    if i < |sc| {
      ValueSizeIsExact(m.values[i], sc, i);
      ValuesSizeIsExact(m, sc, i + 1);
    }
  }

  /** ByteSizeLong is the number of bytes that are written, nested length prefixes and ten-byte enums included. */
  lemma {:induction false} ByteSizeIsExact(m: Message, sc: Schema)
    requires SchemaOk(sc) && ValidMessage(m, sc, SIZED)
    ensures ByteSize(m, sc) == |EncodeMessage(m, sc)|
    decreases m, 3
  {
    hide ValuesSize, EncodeValues, FieldsSize, EncodeFields, ValidValue, Foreign, ValidField;
    ValuesSizeIsExact(m, sc, 0);
    FieldsSizeIsExact(m.unknown);
  }
}
