// The messages of Protocol.proto and Struct.proto, and the two generated classes
// with the most to them as objects: Player and S_LOGIN.
module Protocol {
  import opened Options
  import opened Varint
  import opened WireFields
  import opened Messages
  import opened MessagesRoundTrip
  import Utf8

  const PLAYER: Schema := [UInt64, Text, Enum]
  const C_LOGIN: Schema := []
  const S_LOGIN: Schema := [Bool, Repeated(PLAYER)]
  const C_ENTER_GAME: Schema := [UInt64]
  const S_ENTER_GAME: Schema := [Bool]
  const C_CHAT: Schema := [Text]
  const S_CHAT: Schema := [UInt64, Text]

  lemma SchemasAreOk()
    ensures SchemaOk(PLAYER) && SchemaOk(C_LOGIN) && SchemaOk(S_LOGIN) && SchemaOk(C_ENTER_GAME)
    ensures SchemaOk(S_ENTER_GAME) && SchemaOk(C_CHAT) && SchemaOk(S_CHAT)
  {}

  // ------------------------------------------------- parsing, one tag at a time

  /** What the parse loop does at a tag. */
  lemma ParseUnfolds(b: seq<byte>, m: Message, sc: Schema, depth: nat)
    requires b != [] && |m.values| == |sc|
    ensures Parse(b, m, sc, depth) ==
            match TakeTag(b)
            case None => None
            case Some(t) =>
              if t.result == 0 || t.result % 8 == END_GROUP then None
              else Continue(ParseField(t.rest, t.result, m, sc, depth), sc, depth)
  {
    hide TakeTag, ParseField;
  }

  lemma TagIsRead(b: seq<byte>, tag: byte)
    requires b != [] && b[0] == tag < 128
    ensures TakeTag(b) == Some(Parsed(tag, b[1..]))
  {
    assert b[..1][1..] == [];
    assert Varint.Value(b[..1]) == b[0];
  }

  class Player {
    var id: nat
    var name: seq<byte>
    var playerType: int
    var unknown: seq<Field>
    var cachedSize: int

    function View(): (m: Message) reads this
      ensures |m.values| == |PLAYER|
    {
      Message([Number(id), Str(name), Number(playerType)], unknown)
    }

    constructor ()
      ensures View() == Default(PLAYER)
    {
      id, name, playerType, unknown, cachedSize := 0, [], 0, [], 0;
      new;
      assert View().values == Default(PLAYER).values;
    }

    /** _InternalParse on the bytes of the message. */
    method InternalParse(b: seq<byte>, depth: nat) returns (ok: bool)
      modifies this
      ensures ok <==> Parse(b, old(View()), PLAYER, depth).Some?
      ensures ok ==> Parse(b, old(View()), PLAYER, depth) == Some(View())
    {
      hide Parse, ParseField, TakeTag, TakeVarint, TakeDelimited, ReadBody, Utf8.IsValid, ToInt32;
      var p := b;
      while p != []
        invariant Parse(b, old(View()), PLAYER, depth) == Parse(p, View(), PLAYER, depth)
        decreases |p|
      {
        ParseUnfolds(p, View(), PLAYER, depth);
        var t := TakeTag(p);
        if t.None? { return false; }
        var tag, rest := t.value.result, t.value.rest;
        PlayerField(rest, tag, View(), depth);
        ghost var m := View();
        if tag == 8 {
          var v := TakeVarint(rest);
          if v.None? { return false; }
          id, p := v.value.result, v.value.rest;
          assert View().values == SetValue(m, 0, Number(id)).values;
        } else if tag == 18 {
          var s := TakeDelimited(rest);
          if s.None? || !Utf8.IsValid(s.value.result) { return false; }
          name, p := s.value.result, s.value.rest;
          assert View().values == SetValue(m, 1, Str(name)).values;
        } else if tag == 24 {
          var v := TakeVarint(rest);
          if v.None? { return false; }
          playerType, p := ToInt32(v.value.result), v.value.rest;
          assert View().values == SetValue(m, 2, Number(playerType)).values;
        } else {
          if tag == 0 || tag % 8 == END_GROUP { return false; }
          var f := ReadBody(rest, tag, depth);
          if f.None? { return false; }
          unknown, p := unknown + [f.value.result], f.value.rest;
        }
      }
      ParseEnds(View(), PLAYER, depth);
      return true;
    }

    /** _InternalSerialize: what is written after `target`. */
    method InternalSerialize(target: seq<byte>) returns (out: seq<byte>)
      ensures out == target + EncodeMessage(View(), PLAYER)
    {
      hide Encode, EncodeFields, EncodeMessage, ToUInt64;
      out := target;
      if id != 0 { out := out + (Encode(8) + Encode(ToUInt64(id))); }
      if name != [] { out := out + (Encode(18) + (Encode(|name|) + name)); }
      if playerType != 0 { out := out + (Encode(24) + Encode(ToUInt64(playerType))); }
      if unknown != [] { out := out + EncodeFields(unknown); }
      PlayerBytes(View(), target);
    }

    /** ByteSizeLong, which also leaves the size in the cache. */
    method ByteSizeLong() returns (total: nat)
      modifies this`cachedSize
      ensures total == ByteSize(View(), PLAYER) && cachedSize == ToInt32(total) && View() == old(View())
    {
      hide VarintSize64, LengthDelimitedSize, ToUInt64, FieldsSize;
      total := 0;
      if name != [] { total := total + 1 + LengthDelimitedSize(|name|); }
      if id != 0 { total := total + 1 + VarintSize64(ToUInt64(id)); }
      if playerType != 0 { total := total + 1 + if playerType < 0 then 10 else VarintSize64(ToUInt64(playerType)); }
      if unknown != [] { total := total + FieldsSize(unknown); }
      cachedSize := ToInt32(total);
      PlayerSize(View());
      NoFieldsNoBytes();
    }

    method MergeFrom(from: Player)
      requires from != this
      modifies this`id, this`name, this`playerType, this`unknown
      ensures View() == Merge(old(View()), from.View())
    {
      unknown := unknown + from.unknown;
      if from.name != [] { name := from.name; }
      if from.id != 0 { id := from.id; }
      if from.playerType != 0 { playerType := from.playerType; }
      assert View().values == Merge(old(View()), from.View()).values;
    }
  }

  lemma ParseEnds(m: Message, sc: Schema, depth: nat)
    requires |m.values| == |sc|
    ensures Parse([], m, sc, depth) == Some(m)
  {}

  /** The cases of Player's switch. */
  lemma PlayerField(b: seq<byte>, tag: nat, m: Message, depth: nat)
    requires |m.values| == |PLAYER|
    ensures ParseField(b, tag, m, PLAYER, depth) ==
            if tag == 8 then
              (match TakeVarint(b)
               case None => None
               case Some(x) => Some(Parsed(SetValue(m, 0, Number(x.result)), x.rest)))
            else if tag == 18 then
              (match TakeDelimited(b)
               case None => None
               case Some(x) =>
                 if Utf8.IsValid(x.result) then Some(Parsed(SetValue(m, 1, Str(x.result)), x.rest)) else None)
            else if tag == 24 then
              (match TakeVarint(b)
               case None => None
               case Some(x) => Some(Parsed(SetValue(m, 2, Number(ToInt32(x.result))), x.rest)))
            else
              (match ReadBody(b, tag, depth)
               case None => None
               case Some(x) => Some(Parsed(m.(unknown := m.unknown + [x.result]), x.rest)))
  {
    hide TakeVarint, TakeDelimited, Utf8.IsValid, ReadBody, ToInt32;
  }

  lemma PlayerBytes(m: Message, target: seq<byte>)
    requires |m.values| == 3 && m.values[0].Number? && m.values[1].Str? && m.values[2].Number?
    ensures target + EncodeMessage(m, PLAYER) ==
            target + EncodeValue(m.values[0], UInt64, 1) + EncodeValue(m.values[1], Text, 2)
            + EncodeValue(m.values[2], Enum, 3) + EncodeFields(m.unknown)
    ensures m.unknown == [] ==> EncodeFields(m.unknown) == []
  {
    hide EncodeValue;
    var vs := m.values;
    assert EncodeValues(vs, PLAYER, 3) == [];
    assert EncodeValues(vs, PLAYER, 2) == EncodeValue(vs[2], Enum, 3) + EncodeValues(vs, PLAYER, 3);
    assert EncodeValues(vs, PLAYER, 1) == EncodeValue(vs[1], Text, 2) + EncodeValues(vs, PLAYER, 2);
    assert EncodeValues(vs, PLAYER, 0) == EncodeValue(vs[0], UInt64, 1) + EncodeValues(vs, PLAYER, 1);
  }

  lemma NoFieldsNoBytes()
    ensures FieldsSize([]) == 0 && EncodeFields([]) == []
  {}

  lemma PlayerSize(m: Message)
    requires |m.values| == 3 && m.values[0].Number? && m.values[1].Str? && m.values[2].Number?
    ensures ByteSize(m, PLAYER) ==
            ValueSize(m.values[0], UInt64) + ValueSize(m.values[1], Text) + ValueSize(m.values[2], Enum)
            + FieldsSize(m.unknown)
  {
    hide ValueSize;
    var vs := m.values;
    assert ValuesSize(vs, PLAYER, 3) == 0;
    assert ValuesSize(vs, PLAYER, 2) == ValueSize(vs[2], Enum) + ValuesSize(vs, PLAYER, 3);
    assert ValuesSize(vs, PLAYER, 1) == ValueSize(vs[1], Text) + ValuesSize(vs, PLAYER, 2);
  }
}
