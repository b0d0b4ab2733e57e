// The wire form of the messages of Protocol.proto and Struct.proto: what the
// switches over tags do, those of Player and S_LOGIN being with their classes,
// and the bytes that are written, in field order.
module WireForms {
  import opened Options
  import opened Varint
  import opened WireFields
  import opened Messages
  import opened Protocol
  import Utf8

  type Step = Option<Parsed<Message>>

  // ------------------------------------------------------------- one field read

  function AsBool(b: seq<byte>, m: Message, i: nat): Step
    requires i < |m.values|
  {
    match TakeVarint(b)
    case None => None
    case Some(x) => Some(Parsed(m.(values := m.values[i := Number(if x.result == 0 then 0 else 1)]), x.rest))
  }

  function AsUInt64(b: seq<byte>, m: Message, i: nat): Step
    requires i < |m.values|
  {
    match TakeVarint(b)
    case None => None
    case Some(x) => Some(Parsed(m.(values := m.values[i := Number(x.result)]), x.rest))
  }

  function AsText(b: seq<byte>, m: Message, i: nat): Step
    requires i < |m.values|
  {
    match TakeDelimited(b)
    case None => None
    case Some(x) =>
      if !Utf8.IsValid(x.result) then None else Some(Parsed(m.(values := m.values[i := Str(x.result)]), x.rest))
  }

  function AsUnknown(b: seq<byte>, tag: nat, m: Message, depth: nat): Step {
    match ReadBody(b, tag, depth)
    case None => None
    case Some(x) => Some(Parsed(m.(unknown := m.unknown + [x.result]), x.rest))
  }

  lemma ChatTags(b: seq<byte>, tag: nat, m: Message, depth: nat)
    requires |m.values| == 2
    ensures |S_CHAT| == 2
    ensures ParseField(b, tag, m, S_CHAT, depth) ==
            if tag == 8 then AsUInt64(b, m, 0)
            else if tag == 18 then AsText(b, m, 1)
            else AsUnknown(b, tag, m, depth)
  {
    hide TakeVarint, TakeDelimited, Utf8.IsValid, ReadBody;
  }

  /** The four messages with one field, or none. */
  lemma SmallMessageTags(b: seq<byte>, tag: nat, m: Message, empty: Message, depth: nat)
    requires |m.values| == 1 && |empty.values| == 0
    ensures |C_CHAT| == |C_ENTER_GAME| == |S_ENTER_GAME| == 1 && |C_LOGIN| == 0
    ensures ParseField(b, tag, m, C_CHAT, depth) == if tag == 10 then AsText(b, m, 0) else AsUnknown(b, tag, m, depth)
    ensures ParseField(b, tag, m, C_ENTER_GAME, depth) ==
            if tag == 8 then AsUInt64(b, m, 0) else AsUnknown(b, tag, m, depth)
    ensures ParseField(b, tag, m, S_ENTER_GAME, depth) ==
            if tag == 8 then AsBool(b, m, 0) else AsUnknown(b, tag, m, depth)
    ensures ParseField(b, tag, empty, C_LOGIN, depth) == AsUnknown(b, tag, empty, depth)
  {
    hide TakeVarint, TakeDelimited, Utf8.IsValid, ReadBody;
  }

  // -------------------------------------------------------------- bytes written

  /** Tag byte and varint, unless the number is 0; negative numbers as 64 bits. */
  function NumberBytes(tag: byte, n: int): seq<byte> {
    if n == 0 then [] else [tag] + Encode(n % 0x1_0000_0000_0000_0000)
  }

  function TextBytes(tag: byte, s: seq<byte>): seq<byte> {
    if s == [] then [] else [tag] + Encode(|s|) + s
  }

  function PlayersBytes(tag: byte, ms: seq<Message>): seq<byte> {
    if ms == [] then []
    else
      var body := EncodeMessage(ms[0], PLAYER);
      [tag] + Encode(|body|) + body + PlayersBytes(tag, ms[1..])
  }

  lemma OneByte(tag: nat)
    requires tag < 128
    ensures Encode(tag) == [tag]
  {}

  lemma NumberIsWritten(n: int, k: Kind, i: nat)
    requires i < 15
    ensures EncodeValue(Number(n), k, i + 1) == NumberBytes((i + 1) * 8, n)
  {
    OneByte((i + 1) * 8);
    hide Encode;
  }

  lemma TextIsWritten(s: seq<byte>, k: Kind, i: nat)
    requires i < 15
    ensures EncodeValue(Str(s), k, i + 1) == TextBytes((i + 1) * 8 + 2, s)
  {
    OneByte((i + 1) * 8 + 2);
    hide Encode;
  }

  lemma {:induction false} PlayersAreWritten(ms: seq<Message>, i: nat)
    requires i < 15
    ensures EncodeList(ms, PLAYER, i + 1) == PlayersBytes((i + 1) * 8 + 2, ms)
    decreases |ms|
  {
    OneByte((i + 1) * 8 + 2);
    hide Encode, EncodeMessage;
    if ms != [] { PlayersAreWritten(ms[1..], i); }
  }

  lemma OneValue(m: Message, sc: Schema)
    requires |m.values| == |sc| == 1
    ensures EncodeMessage(m, sc) == EncodeValue(m.values[0], sc[0], 1) + EncodeFields(m.unknown)
  {
    hide EncodeValue, EncodeFields;
    assert EncodeValues(m.values, sc, 1) == [];
  }

  lemma TwoValues(m: Message, sc: Schema)
    requires |m.values| == |sc| == 2
    ensures EncodeMessage(m, sc) ==
            EncodeValue(m.values[0], sc[0], 1) + EncodeValue(m.values[1], sc[1], 2) + EncodeFields(m.unknown)
  {
    hide EncodeValue, EncodeFields;
    assert EncodeValues(m.values, sc, 2) == [];
    assert EncodeValues(m.values, sc, 1) == EncodeValue(m.values[1], sc[1], 2) + EncodeValues(m.values, sc, 2);
  }

  lemma PlayerIsWritten(id: nat, name: seq<byte>, playerType: int, unknown: seq<Field>)
    ensures EncodeMessage(Message([Number(id), Str(name), Number(playerType)], unknown), PLAYER) ==
            NumberBytes(8, id) + TextBytes(18, name) + NumberBytes(24, playerType) + EncodeFields(unknown)
  {
    PlayerBytes(Message([Number(id), Str(name), Number(playerType)], unknown), []);
    NumberIsWritten(id, UInt64, 0);
    TextIsWritten(name, Text, 1);
    NumberIsWritten(playerType, Enum, 2);
    hide EncodeValue, EncodeFields, EncodeMessage, NumberBytes, TextBytes;
    var bytes := EncodeMessage(Message([Number(id), Str(name), Number(playerType)], unknown), PLAYER);
    assert [] + bytes == bytes;
    assert [] + NumberBytes(8, id) == NumberBytes(8, id);
  }

  lemma LoginIsWritten(success: bool, players: seq<Message>, unknown: seq<Field>)
    ensures EncodeMessage(Message([Number(if success then 1 else 0), List(players)], unknown), S_LOGIN) ==
            (if success then [8, 1] else []) + PlayersBytes(18, players) + EncodeFields(unknown)
  {
    var m := Message([Number(if success then 1 else 0), List(players)], unknown);
    TwoValues(m, S_LOGIN);
    NumberIsWritten(if success then 1 else 0, Bool, 0);
    OneByte(1);
    PlayersAreWritten(players, 1);
    hide EncodeFields, EncodeMessage, EncodeList, PlayersBytes;
  }

  lemma ChatIsWritten(playerId: nat, msg: seq<byte>, unknown: seq<Field>)
    ensures EncodeMessage(Message([Number(playerId), Str(msg)], unknown), S_CHAT) ==
            NumberBytes(8, playerId) + TextBytes(18, msg) + EncodeFields(unknown)
  {
    TwoValues(Message([Number(playerId), Str(msg)], unknown), S_CHAT);
    NumberIsWritten(playerId, UInt64, 0);
    TextIsWritten(msg, Text, 1);
    hide EncodeMessage, EncodeFields, EncodeValue;
  }

  lemma SmallMessagesAreWritten(n: nat, flag: bool, s: seq<byte>, unknown: seq<Field>)
    ensures EncodeMessage(Message([Str(s)], unknown), C_CHAT) == TextBytes(10, s) + EncodeFields(unknown)
    ensures EncodeMessage(Message([Number(n)], unknown), C_ENTER_GAME) == NumberBytes(8, n) + EncodeFields(unknown)
    ensures EncodeMessage(Message([Number(if flag then 1 else 0)], unknown), S_ENTER_GAME) ==
            (if flag then [8, 1] else []) + EncodeFields(unknown)
    ensures EncodeMessage(Message([], unknown), C_LOGIN) == EncodeFields(unknown)
  {
    OneValue(Message([Str(s)], unknown), C_CHAT);
    OneValue(Message([Number(n)], unknown), C_ENTER_GAME);
    OneValue(Message([Number(if flag then 1 else 0)], unknown), S_ENTER_GAME);
    TextIsWritten(s, Text, 0);
    NumberIsWritten(n, UInt64, 0);
    NumberIsWritten(if flag then 1 else 0, Bool, 0);
    OneByte(1);
    hide EncodeFields, EncodeValue;
    assert EncodeValues([], C_LOGIN, 0) == [];
  }
}
