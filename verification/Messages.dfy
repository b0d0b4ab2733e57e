// The generated proto3 messages as one codec over a description of their fields:
// serialization, parsing, merging and sizes, with nested and repeated messages.
module Messages {
  import opened Options
  import opened Varint
  import opened WireFields
  import Utf8

  /** The types of the fields 1, 2, ... of a message. */
  datatype Kind = Bool | UInt64 | Enum | Text | Repeated(fields: seq<Kind>)
  type Schema = seq<Kind>

  /** Booleans are 0 or 1; enums are open and signed. */
  datatype Value = Number(n: int) | Str(s: seq<byte>) | List(ms: seq<Message>)
  datatype Message = Message(values: seq<Value>, unknown: seq<Field>)

  /** Tags of known fields fit in one byte, as sizes and the test for a following tag 18 take for granted. */
  predicate SchemaOk(sc: Schema)
    decreases sc
  {
    && |sc| <= 15
    && forall i :: 0 <= i < |sc| && sc[i].Repeated? ==> SchemaOk(sc[i].fields)
  }

  function KindWireType(k: Kind): nat {
    match k
    case Text => LENGTH_DELIMITED
    case Repeated(_) => LENGTH_DELIMITED
    case _ => VARINT
  }

  function KnownTag(sc: Schema, i: nat): nat
    requires i < |sc|
  {
    Tag(i + 1, KindWireType(sc[i]))
  }

  function Zero(k: Kind): Value {
    match k
    case Text => Str([])
    case Repeated(_) => List([])
    case _ => Number(0)
  }

  function Default(sc: Schema): Message {
    Message(seq(|sc|, i requires 0 <= i < |sc| => Zero(sc[i])), [])
  }

  /** A value has the form of its field. */
  predicate HasForm(v: Value, k: Kind) {
    match k
    case Text => v.Str?
    case Repeated(_) => v.List?
    case _ => v.Number?
  }

  predicate HasFormOf(m: Message, sc: Schema) {
    |m.values| == |sc| && forall i :: 0 <= i < |sc| ==> HasForm(m.values[i], sc[i])
  }

  // ------------------------------------------------------------ serialization

  /** static_cast to uint64, which extends the sign of an enum. */
  function ToUInt64(n: int): nat {
    n % TWO_64
  }

  /** static_cast to a 32-bit enum of a uint64. */
  function ToInt32(v: nat): int {
    var low := v % TWO_32;
    if low < 0x8000_0000 then low else low - TWO_32
  }

  /** Default values are not written. */
  function EncodeValue(v: Value, k: Kind, number: nat): seq<byte>
    decreases v, 1
  {
    match v
    case Number(n) =>
      if n == 0 then [] else Encode(Tag(number, VARINT)) + Encode(ToUInt64(n))
    case Str(s) => if s == [] then [] else Encode(Tag(number, LENGTH_DELIMITED)) + (Encode(|s|) + s)
    case List(ms) => if k.Repeated? then EncodeList(ms, k.fields, number) else []
  }

  function EncodeList(ms: seq<Message>, sc: Schema, number: nat): seq<byte>
    decreases ms, 2
  {
    if ms == [] then []
    else
      var body := EncodeMessage(ms[0], sc);
      Encode(Tag(number, LENGTH_DELIMITED)) + (Encode(|body|) + body) + EncodeList(ms[1..], sc, number)
  }

  /** The values from the i-th on. */
  function EncodeValues(vs: seq<Value>, sc: Schema, i: nat): seq<byte>
    decreases vs, 2, |sc| - i
  {
    if i >= |vs| || i >= |sc| then []
    else EncodeValue(vs[i], sc[i], i + 1) + EncodeValues(vs, sc, i + 1)
  }

  /** _InternalSerialize: known fields in order, then the unknown ones. */
  function EncodeMessage(m: Message, sc: Schema): seq<byte>
    decreases m, 0
  {
    EncodeValues(m.values, sc, 0) + EncodeFields(m.unknown)
  }

  // ------------------------------------------------------------------ parsing

  function SetValue(m: Message, i: nat, v: Value): Message
    requires i < |m.values|
  {
    m.(values := m.values[i := v])
  }

  function AppendMessage(m: Message, i: nat, x: Message): Message
    requires i < |m.values|
  {
    SetValue(m, i, List((if m.values[i].List? then m.values[i].ms else []) + [x]))
  }

  /** A field that the message knows, behind its tag. */
  function ParseKnown(b: seq<byte>, i: nat, m: Message, sc: Schema, depth: nat): (r: Option<Parsed<Message>>)
    requires i < |m.values| == |sc|
    ensures r.Some? ==> |r.value.rest| <= |b| && |r.value.result.values| == |sc|
    decreases |b|, 0
  {
    match sc[i]
    case Bool =>
      (match TakeVarint(b)
       case None => None
       case Some(x) => Some(Parsed(SetValue(m, i, Number(if x.result != 0 then 1 else 0)), x.rest)))
    case UInt64 =>
      (match TakeVarint(b) case None => None case Some(x) => Some(Parsed(SetValue(m, i, Number(x.result)), x.rest)))
    case Enum =>
      (match TakeVarint(b)
       case None => None
       case Some(x) => Some(Parsed(SetValue(m, i, Number(ToInt32(x.result))), x.rest)))
    case Text =>
      (match TakeDelimited(b)
       case None => None
       case Some(x) => if Utf8.IsValid(x.result) then Some(Parsed(SetValue(m, i, Str(x.result)), x.rest)) else None)
    case Repeated(fields) =>
      (match TakeDelimited(b)
       case None => None
       case Some(x) =>
         if depth == 0 then None
         else
           match Parse(x.result, Default(fields), fields, depth - 1)
           case None => None
           case Some(sub) => Some(Parsed(AppendMessage(m, i, sub), x.rest)))
  }

  /** The cases of the switch over tags: the known field with exactly this tag, or an unknown field. */
  function ParseField(b: seq<byte>, tag: nat, m: Message, sc: Schema, depth: nat): (r: Option<Parsed<Message>>)
    requires |m.values| == |sc|
    ensures r.Some? ==> |r.value.rest| <= |b| && |r.value.result.values| == |sc|
    decreases |b|, 1
  {
    var i := tag / 8 - 1;
    if 0 <= i < |sc| && tag == KnownTag(sc, i) then ParseKnown(b, i, m, sc, depth)
    else
      match ReadBody(b, tag, depth)
      case None => None
      case Some(x) => Some(Parsed(m.(unknown := m.unknown + [x.result]), x.rest))
  }

  /** _InternalParse over the bytes of a message; a message cannot end on a zero or end-group tag. */
  function Parse(b: seq<byte>, m: Message, sc: Schema, depth: nat): (r: Option<Message>)
    requires |m.values| == |sc|
    ensures r.Some? ==> |r.value.values| == |sc|
    decreases |b|, 2
  {
    if b == [] then Some(m)
    else
      match TakeTag(b)
      case None => None
      case Some(t) =>
        if t.result == 0 || t.result % 8 == END_GROUP then None
        else
          match ParseField(t.rest, t.result, m, sc, depth)
          case None => None
          case Some(x) => Parse(x.rest, x.result, sc, depth)
  }

  /** The recursion limit of a parse from an array. */
  const RECURSION_LIMIT: nat := 100

  /** ParseFromArray, which clears the message first. */
  function ParseFromArray(b: seq<byte>, sc: Schema): Option<Message> {
    Parse(b, Default(sc), sc, RECURSION_LIMIT)
  }

  // ------------------------------------------------------------------- merging

  /** Fields that have their default value in `from` do not count. */
  function MergeValue(v: Value, from: Value): Value {
    match from
    case Number(n) => if n != 0 then from else v
    case Str(s) => if s != [] then from else v
    case List(ms) => List((if v.List? then v.ms else []) + ms)
  }

  /** MergeFrom, for the fields from the i-th on. */
  function MergeFrom(m: Message, from: Message, i: nat): (r: Message)
    requires |m.values| == |from.values|
    ensures |r.values| == |m.values|
  {
    Message(seq(|m.values|, j requires 0 <= j < |m.values| =>
                  if j < i then m.values[j] else MergeValue(m.values[j], from.values[j])),
            m.unknown + from.unknown)
  }

  function Merge(m: Message, from: Message): Message
    requires |m.values| == |from.values|
  {
    MergeFrom(m, from, 0)
  }

  // --------------------------------------------------------------------- sizes

  function LengthDelimitedSize(n: nat): nat {
    n + VarintSize64(n % TWO_32)
  }

  function ValueSize(v: Value, k: Kind): nat
    decreases v, 1
  {
    match v
    case Number(n) =>
      if n == 0 then 0
      else 1 + (match k
                case Bool => 1
                case Enum => if n < 0 then 10 else VarintSize64(ToUInt64(n))
                case _ => VarintSize64(ToUInt64(n)))
    case Str(s) => if s == [] then 0 else 1 + LengthDelimitedSize(|s|)
    case List(ms) => if k.Repeated? then |ms| + ListSize(ms, k.fields) else 0
  }

  function ListSize(ms: seq<Message>, sc: Schema): nat
    decreases ms, 2
  {
    if ms == [] then 0 else LengthDelimitedSize(ByteSize(ms[0], sc)) + ListSize(ms[1..], sc)
  }

  function ValuesSize(vs: seq<Value>, sc: Schema, i: nat): nat
    decreases vs, 2, |sc| - i
  {
    if i >= |vs| || i >= |sc| then 0 else ValueSize(vs[i], sc[i]) + ValuesSize(vs, sc, i + 1)
  }

  /** ByteSizeLong. */
  function ByteSize(m: Message, sc: Schema): nat
    decreases m, 0
  {
    ValuesSize(m.values, sc, 0) + FieldsSize(m.unknown)
  }
}
