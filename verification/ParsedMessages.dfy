// What parsing arbitrary bytes can give: messages in range and acceptable, so
// that serializing one and parsing again gives the same message.
module ParsedMessages {
  import opened Options
  import opened Varint
  import opened WireFields
  import opened Messages
  import opened MessagesRoundTrip
  import Utf8

  /** Data can be read only up to the limit; the body of a nested message may grow when it is written again. */
  const PARSED := Limits(MAX_SIZE, None)

  // ------------------------------------------------------- what reading gives

  lemma TakenAreInRange(b: seq<byte>)
    ensures TakeVarint(b).Some? ==> TakeVarint(b).value.result < TWO_64
    ensures TakeTag(b).Some? ==> TakeTag(b).value.result < TWO_32
  {}

  lemma {:induction false} ShortValueIsBounded(b: seq<byte>)
    requires |b| <= 4
    ensures Varint.Value(b) < Pow128(|b|)
    decreases |b|
  {
    if b != [] { ShortValueIsBounded(b[1..]); }
  }

  lemma SizesAreInRange(b: seq<byte>)
    ensures TakeDelimited(b).Some? ==> |TakeDelimited(b).value.result| <= MAX_SIZE
  {
    var r := Read(b, 5, TWO_32);
    if r.Some? && r.value.length < 5 {
      var n := r.value.length;
      ShortValueIsBounded(b[..n]);
      Powers();
      assert Pow128(2) == 128 * Pow128(1) && Pow128(3) == 128 * Pow128(2);
      hide Length;
    }
  }

  lemma TagSplits(tag: nat)
    requires tag / 8 >= 1 && tag < TWO_32
    ensures Tag(tag / 8, tag % 8) == tag && 1 <= tag / 8 < 0x2000_0000
  {}

  lemma {:induction false} BodyGives(b: seq<byte>, tag: nat, depth: nat)
    requires tag < TWO_32
    ensures var f := ReadBody(b, tag, depth);
            f.Some? ==>
              ValidField(f.value.result, MAX_SIZE) && Nests(f.value.result, depth) && TagOf(f.value.result) == tag
    decreases |b|, 1
  {
    TakenAreInRange(b);
    SizesAreInRange(b);
    if tag / 8 >= 1 { TagSplits(tag); }
    if depth > 0 && 1 <= tag / 8 < 0x2000_0000 { GroupGives(b, tag / 8, depth - 1); }
    hide TakeVarint, TakeDelimited, ReadGroup, Tag;
  }

  lemma {:induction false} GroupGives(b: seq<byte>, number: nat, depth: nat)
    ensures var g := ReadGroup(b, number, depth);
            g.Some? ==>
              && AllNest(g.value.result, depth)
              && forall i :: 0 <= i < |g.value.result| ==> ValidField(g.value.result[i], MAX_SIZE)
    decreases |b|, 0
  {
    hide TakeTag, ReadBody, ValidField, Nests;
    TakenAreInRange(b);
    var t := TakeTag(b);
    if t.Some? {
      BodyGives(t.value.rest, t.value.result, depth);
      var f := ReadBody(t.value.rest, t.value.result, depth);
      if f.Some? { GroupGives(f.value.rest, number, depth); }
    }
  }

  // ------------------------------------------------------ what parsing gives

  ghost predicate Good(m: Message, sc: Schema, depth: nat) {
    ValidMessage(m, sc, PARSED) && Acceptable(m, depth)
  }

  lemma SetKeepsGood(m: Message, i: nat, v: Value, sc: Schema, depth: nat)
    requires Good(m, sc, depth) && i < |sc| && ValidValue(v, sc[i], PARSED) && AcceptableValue(v, depth)
    ensures Good(SetValue(m, i, v), sc, depth)
  {
    hide ValidValue, AcceptableValue, ValidField, Foreign, AllNest;
  }

  lemma AppendKeepsGood(m: Message, i: nat, x: Message, sc: Schema, depth: nat)
    requires Good(m, sc, depth) && i < |sc| && sc[i].Repeated? && depth > 0 && Good(x, sc[i].fields, depth - 1)
    ensures Good(AppendMessage(m, i, x), sc, depth)
  {
    hide ValidMessage, Acceptable;
    assert ValidValue(m.values[i], sc[i], PARSED) && AcceptableValue(m.values[i], depth) by {
      ValueIsGood(m, i, sc, depth);
    }
    var ms := m.values[i].ms;
    var more := ms + [x];
    assert AllValid(more, sc[i].fields, PARSED) by {
      assert AllValid(ms, sc[i].fields, PARSED);
      forall j | 0 <= j < |more|
        ensures ValidMessage(more[j], sc[i].fields, PARSED)
      {
        assert j < |ms| ==> more[j] == ms[j];
      }
    }
    assert AllAcceptable(more, depth) by {
      assert AllAcceptable(ms, depth);
      forall j | 0 <= j < |more| ensures Acceptable(more[j], depth - 1) { assert j < |ms| ==> more[j] == ms[j]; }
    }
    SetKeepsGood(m, i, List(more), sc, depth);
  }

  lemma ValueIsGood(m: Message, i: nat, sc: Schema, depth: nat)
    requires Good(m, sc, depth) && i < |sc|
    ensures |m.values| == |sc| && ValidValue(m.values[i], sc[i], PARSED) && AcceptableValue(m.values[i], depth)
  {
    hide ValidValue, AcceptableValue;
  }

  lemma UnknownKeepsGood(m: Message, f: Field, sc: Schema, depth: nat)
    requires Good(m, sc, depth) && ValidField(f, MAX_SIZE) && Foreign(f, sc) && Nests(f, depth)
    ensures Good(m.(unknown := m.unknown + [f]), sc, depth)
  {
    hide ValidValue, AcceptableValue, ValidField, Foreign, Nests;
  }

  lemma ZeroIsGood(k: Kind, depth: nat)
    ensures ValidValue(Zero(k), k, PARSED) && AcceptableValue(Zero(k), depth)
  {
    EmptyIsValid();
  }

  lemma DefaultIsGood(sc: Schema, depth: nat)
    ensures Good(Default(sc), sc, depth)
  {
    hide ValidValue, AcceptableValue, Zero;
    forall i | 0 <= i < |sc|
      ensures ValidValue(Default(sc).values[i], sc[i], PARSED) && AcceptableValue(Default(sc).values[i], depth)
    {
      ZeroIsGood(sc[i], depth);
    }
  }

  lemma {:induction false} FieldGives(b: seq<byte>, tag: nat, m: Message, sc: Schema, depth: nat)
    requires Good(m, sc, depth) && |m.values| == |sc| && tag < TWO_32
    ensures var r := ParseField(b, tag, m, sc, depth); r.Some? ==> Good(r.value.result, sc, depth)
    decreases |b|, 0
  {
    hide Good, ValidMessage, Acceptable, TakeVarint, TakeDelimited, ReadBody, Parse, AppendMessage, SetValue,
         Utf8.IsValid;
    TakenAreInRange(b);
    SizesAreInRange(b);
    var i := tag / 8 - 1;
    if 0 <= i < |sc| && tag == KnownTag(sc, i) {
      match sc[i]
      case Bool =>
        SetKeepsGood(m, i, Number(0), sc, depth);
        SetKeepsGood(m, i, Number(1), sc, depth);
      case UInt64 =>
        if TakeVarint(b).Some? { SetKeepsGood(m, i, Number(TakeVarint(b).value.result), sc, depth); }
      case Enum =>
        if TakeVarint(b).Some? { SetKeepsGood(m, i, Number(ToInt32(TakeVarint(b).value.result)), sc, depth); }
      case Text =>
        if TakeDelimited(b).Some? && Utf8.IsValid(TakeDelimited(b).value.result) {
          SetKeepsGood(m, i, Str(TakeDelimited(b).value.result), sc, depth);
        }
      case Repeated(fields) =>
        if TakeDelimited(b).Some? && depth > 0 {
          DefaultIsGood(fields, depth - 1);
          ParseGives(TakeDelimited(b).value.result, Default(fields), fields, depth - 1);
          var sub := Parse(TakeDelimited(b).value.result, Default(fields), fields, depth - 1);
          if sub.Some? { AppendKeepsGood(m, i, sub.value, sc, depth); }
        }
    } else {
      BodyGives(b, tag, depth);
      var f := ReadBody(b, tag, depth);
      if f.Some? {
        assert Foreign(f.value.result, sc) by { NotKnown(tag, f.value.result, sc); }
        UnknownKeepsGood(m, f.value.result, sc, depth);
      }
    }
  }

  lemma NotKnown(tag: nat, f: Field, sc: Schema)
    requires TagOf(f) == tag && !(0 <= tag / 8 - 1 < |sc| && tag == KnownTag(sc, tag / 8 - 1))
    ensures Foreign(f, sc)
  {
    forall i | 0 <= i < |sc| ensures tag != KnownTag(sc, i) {
      TagParts(i + 1, KindWireType(sc[i]));
    }
  }

  /** Whatever the bytes: a message that is parsed is in range, with valid strings, nested within the limit. */
  lemma {:induction false} ParseGives(b: seq<byte>, m: Message, sc: Schema, depth: nat)
    requires Good(m, sc, depth) && |m.values| == |sc|
    ensures var r := Parse(b, m, sc, depth); r.Some? ==> Good(r.value, sc, depth)
    decreases |b|, 1
  {
    hide Good, TakeTag, ParseField;
    if b != [] {
      TakenAreInRange(b);
      var t := TakeTag(b);
      if t.Some? {
        FieldGives(t.value.rest, t.value.result, m, sc, depth);
        var r := ParseField(t.value.rest, t.value.result, m, sc, depth);
        if r.Some? { ParseGives(r.value.rest, r.value.result, sc, depth); }
      }
    }
  }

  // ------------------------------------------------------------ parsing again

  lemma {:induction false} ListIsLarger(ms: seq<Message>, sc: Schema, number: nat, j: nat)
    requires j < |ms|
    ensures |EncodeMessage(ms[j], sc)| <= |EncodeList(ms, sc, number)|
    decreases |ms|
  {
    hide EncodeMessage, Encode;
    if j > 0 { ListIsLarger(ms[1..], sc, number, j - 1); }
  }

  lemma {:induction false} ValuesAreLarger(vs: seq<Value>, sc: Schema, i: nat, j: nat)
    requires i <= j < |vs| == |sc|
    ensures |EncodeValue(vs[j], sc[j], j + 1)| <= |EncodeValues(vs, sc, i)|
    decreases j - i
  {
    hide EncodeValue;
    if i < j { ValuesAreLarger(vs, sc, i + 1, j); }
  }

  lemma {:induction false} FieldsAreLarger(fs: seq<Field>, j: nat)
    requires j < |fs|
    ensures |EncodeField(fs[j])| <= |EncodeFields(fs)|
    decreases |fs|
  {
    hide EncodeField;
    if j > 0 { FieldsAreLarger(fs[1..], j - 1); }
  }

  lemma {:induction false} SmallFieldIsValid(f: Field, from: nat, n: nat)
    requires ValidField(f, from) && |EncodeField(f)| <= n
    ensures ValidField(f, n)
    decreases f
  {
    hide Encode, EncodeFields;
    if f.GroupField? {
      forall j | 0 <= j < |f.fields| ensures ValidField(f.fields[j], n) {
        FieldsAreLarger(f.fields, j);
        SmallFieldIsValid(f.fields[j], from, n);
      }
    }
  }

  /** Whatever is in a message is no larger than the message. */
  lemma {:induction false} SmallIsValid(m: Message, sc: Schema, from: Limits, n: nat)
    requires ValidMessage(m, sc, from) && |EncodeMessage(m, sc)| <= n
    ensures ValidMessage(m, sc, Limits(n, Some(n)))
    decreases m, 1
  {
    hide EncodeValue, EncodeFields, EncodeField, EncodeValues, ValidValue, Foreign, ValidField;
    forall i | 0 <= i < |sc| ensures ValidValue(m.values[i], sc[i], Limits(n, Some(n))) {
      ValuesAreLarger(m.values, sc, 0, i);
      SmallValueIsValid(m.values[i], sc[i], i + 1, from, n);
    }
    forall i | 0 <= i < |m.unknown| ensures ValidField(m.unknown[i], n) {
      FieldsAreLarger(m.unknown, i);
      SmallFieldIsValid(m.unknown[i], from.data, n);
    }
  }

  lemma {:induction false} SmallValueIsValid(v: Value, k: Kind, number: nat, from: Limits, n: nat)
    requires ValidValue(v, k, from) && |EncodeValue(v, k, number)| <= n
    ensures ValidValue(v, k, Limits(n, Some(n)))
    decreases v, 2
  {
    hide EncodeMessage, EncodeList, Encode, ValidMessage;
    if k.Repeated? {
      forall j | 0 <= j < |v.ms|
        ensures ValidMessage(v.ms[j], k.fields, Limits(n, Some(n))) && |EncodeMessage(v.ms[j], k.fields)| <= n
      {
        ListIsLarger(v.ms, k.fields, number, j);
        SmallIsValid(v.ms[j], k.fields, from, n);
      }
    }
  }

  /**
   * Whatever bytes a message was parsed from, with overlong varints, repeated
   * or unknown fields: serializing it gives bytes that parse to it again.
   */
  lemma ParsedIsStable(b: seq<byte>, sc: Schema)
    requires SchemaOk(sc)
    ensures var m := ParseFromArray(b, sc);
            m.Some? && |EncodeMessage(m.value, sc)| <= MAX_SIZE ==>
              ParseFromArray(EncodeMessage(m.value, sc), sc) == m
  {
    hide Parse, EncodeMessage, Acceptable, ValidMessage;
    DefaultIsGood(sc, RECURSION_LIMIT);
    ParseGives(b, Default(sc), sc, RECURSION_LIMIT);
    var m := ParseFromArray(b, sc);
    if m.Some? && |EncodeMessage(m.value, sc)| <= MAX_SIZE {
      SmallIsValid(m.value, sc, PARSED, MAX_SIZE);
      RoundTrip(m.value, sc);
    }
  }
}
