// Packets: the four-byte header with its 16-bit size, the table of handlers, and
// dispatch, for the server (ClientPacketHandler) and its mirror image, the client.
module Packets {
  import opened Options
  import opened Varint
  import opened Messages
  import opened MessagesRoundTrip
  import opened Nesting
  import opened ParsedMessages
  import opened SendBuffers
  import P = Protocol

  const HEADER: nat := 4
  const TWO_16: nat := 0x1_0000
  /** UINT16_MAX handlers: there is none for the id 65535. */
  const HANDLERS: nat := 0xFFFF

  datatype PacketType = C_LOGIN | S_LOGIN | C_ENTER_GAME | S_ENTER_GAME | C_CHAT | S_CHAT

  function Id(p: PacketType): (id: nat)
    ensures id < TWO_16
  {
    match p
    case C_LOGIN => 1000
    case S_LOGIN => 1001
    case C_ENTER_GAME => 1002
    case S_ENTER_GAME => 1003
    case C_CHAT => 1004
    case S_CHAT => 1005
  }

  function SchemaOf(p: PacketType): Schema {
    match p
    case C_LOGIN => P.C_LOGIN
    case S_LOGIN => P.S_LOGIN
    case C_ENTER_GAME => P.C_ENTER_GAME
    case S_ENTER_GAME => P.S_ENTER_GAME
    case C_CHAT => P.C_CHAT
    case S_CHAT => P.S_CHAT
  }

  /** A side of the connection sends what the other one handles. */
  datatype Side = Server | Client

  function Other(s: Side): Side {
    if s.Server? then Client else Server
  }

  predicate Handles(s: Side, p: PacketType) {
    match p
    case C_LOGIN => s.Server?
    case C_ENTER_GAME => s.Server?
    case C_CHAT => s.Server?
    case _ => s.Client?
  }

  // ------------------------------------------------------------------- sending

  /**
   * What MakeSendBuffer does, unless an assertion stops the program: a buffer
   * of `size` bytes from position `start` of a chunk on, which is what is
   * sent, and the bytes written from there on.
   */
  datatype Sent = Sent(start: nat, size: nat, written: seq<byte>) | Crash

  function Header(size: nat, id: nat): (h: seq<byte>)
    requires size < TWO_16 && id < TWO_16
    ensures |h| == HEADER
  {
    [size % 256, size / 256, id % 256, id / 256]
  }

  /** The body, in a buffer of `size` bytes. */
  function SerializeToArray(m: Message, sc: Schema, size: nat): Option<seq<byte>> {
    if ByteSize(m, sc) > INT_MAX || size < ByteSize(m, sc) then None else Some(EncodeMessage(m, sc))
  }

  /** Both sizes are cut to 16 bits. */
  function MakeSendBuffer(m: Message, p: PacketType, c: Chunk): Sent {
    var dataSize := ByteSize(m, SchemaOf(p)) % TWO_16;
    var packetSize := (dataSize + HEADER) % TWO_16;
    match OpenIn(c, packetSize)
    case None => Crash
    case Some(place) =>
      match SerializeToArray(m, SchemaOf(p), dataSize)
      case None => Crash
      case Some(body) => Sent(place.start, packetSize, Header(packetSize, Id(p)) + body)
  }

  /**
   * The buffer filled in place: header fields, then the body behind them. The
   * memory is that of the chunk the buffer is opened in and what lies behind it.
   */
  method FillSendBuffer(m: Message, p: PacketType, c: Chunk, memory: array<byte>) returns (sent: Sent)
    requires ValidMessage(m, SchemaOf(p), SIZED) && memory.Length >= CHUNK_SIZE + HEADER + TWO_16
    requires c.used <= CHUNK_SIZE
    modifies memory
    ensures sent == MakeSendBuffer(m, p, c)
    ensures sent.Sent? ==> sent.start + |sent.written| <= memory.Length
    ensures sent.Sent? ==> memory[..] == Written(old(memory[..]), sent.start, sent.written)
  {
    BodyIsShort(m, p);
    hide EncodeMessage, ByteSize, ValidMessage, SchemaOf, Id, Header, SerializeToArray, Written, OpenIn;
    var dataSize := ByteSize(m, SchemaOf(p)) % TWO_16;
    var packetSize := (dataSize + HEADER) % TWO_16;
    OpensIffFits(c, packetSize);
    var place := OpenIn(c, packetSize);
    if place.None? { return Crash; }
    var start := place.value.start;
    var header, body := Header(packetSize, Id(p)), SerializeToArray(m, SchemaOf(p), dataSize);
    WriteBytes(memory, start, header);
    if body.None? { return Crash; }
    ghost var before := memory[..];
    WriteBytes(memory, start + HEADER, body.value);
    WrittenTwice(old(memory[..]), before, memory[..], start, header, body.value);
    sent := Sent(start, packetSize, header + body.value);
  }

  /** What is written after `at`, and the rest as before. */
  function Written(before: seq<byte>, at: nat, bytes: seq<byte>): seq<byte>
    requires at + |bytes| <= |before|
  {
    before[..at] + bytes + before[at + |bytes|..]
  }

  lemma WrittenTwice(a: seq<byte>, b: seq<byte>, c: seq<byte>, at: nat, x: seq<byte>, y: seq<byte>)
    requires at + |x| + |y| <= |a| && b == Written(a, at, x) && c == Written(b, at + |x|, y)
    ensures c == Written(a, at, x + y)
  {
    assert b[..at + |x|] == a[..at] + x;
    assert b[at + |x| + |y|..] == a[at + |x| + |y|..];
  }

  method WriteBytes(memory: array<byte>, at: nat, bytes: seq<byte>)
    requires at + |bytes| <= memory.Length
    modifies memory
    ensures memory[..] == Written(old(memory[..]), at, bytes)
  {
    for i := 0 to |bytes|
      invariant forall k :: 0 <= k < memory.Length && !(at <= k < at + i) ==> memory[k] == old(memory[k])
      invariant forall k :: 0 <= k < i ==> memory[at + k] == bytes[k]
    {
      memory[at + i] := bytes[i];
    }
    ghost var w := Written(old(memory[..]), at, bytes);
    forall k | 0 <= k < memory.Length ensures memory[k] == w[k] {
      if at <= k < at + |bytes| { assert memory[at + (k - at)] == bytes[k - at]; }
    }
  }

  /** What SerializeToArray writes fits in 16 bits. */
  lemma BodyIsShort(m: Message, p: PacketType)
    requires ValidMessage(m, SchemaOf(p), SIZED)
    ensures var body := SerializeToArray(m, SchemaOf(p), ByteSize(m, SchemaOf(p)) % TWO_16);
            body.Some? ==> |body.value| < TWO_16
  {
    P.SchemasAreOk();
    ByteSizeIsExact(m, SchemaOf(p));
  }

  // --------------------------------------------------------------- dispatching

  datatype Handler = Invalid | Handle(p: PacketType)

  datatype Outcome =
    | Delivered(p: PacketType, m: Message)
    | Rejected
    | NoHandler
    | OutsideTable

  /** The table after Init. */
  ghost predicate IsTable(table: seq<Handler>, s: Side) {
    && |table| == HANDLERS
    && (forall p :: Handles(s, p) ==> table[Id(p)] == Handle(p))
    && (forall id :: 0 <= id < HANDLERS && (forall p :: Handles(s, p) ==> Id(p) != id) ==> table[id] == Invalid)
  }

  method Init(s: Side, table: array<Handler>)
    requires table.Length == HANDLERS
    modifies table
    ensures IsTable(table[..], s)
  {
    for i := 0 to HANDLERS
      invariant forall k :: 0 <= k < i ==> table[k] == Invalid
    {
      table[i] := Invalid;
    }
    if s.Server? {
      table[Id(C_LOGIN)] := Handle(C_LOGIN);
      table[Id(C_ENTER_GAME)] := Handle(C_ENTER_GAME);
      table[Id(C_CHAT)] := Handle(C_CHAT);
    } else {
      table[Id(S_LOGIN)] := Handle(S_LOGIN);
      table[Id(S_ENTER_GAME)] := Handle(S_ENTER_GAME);
      table[Id(S_CHAT)] := Handle(S_CHAT);
    }
    IdsAreDistinct();
    forall id | 0 <= id < HANDLERS && (forall p :: Handles(s, p) ==> Id(p) != id) ensures table[id] == Invalid {
      assert s.Server? ==> Handles(s, C_LOGIN) && Handles(s, C_ENTER_GAME) && Handles(s, C_CHAT);
      assert s.Client? ==> Handles(s, S_LOGIN) && Handles(s, S_ENTER_GAME) && Handles(s, S_CHAT);
    }
  }

  lemma IdsAreDistinct()
    ensures forall p, q :: Id(p) == Id(q) ==> p == q
    ensures forall p :: 1000 <= Id(p) <= 1005
  {}

  /** A 16-bit field, low byte first. */
  function Word(low: nat, high: nat): nat {
    low + 256 * high
  }

  /**
   * HandlePacket on a received packet of the given length. The id is read
   * whatever the length is, so at least the bytes of a header are at hand; a
   * length below that makes the size of the body negative, which no parse survives.
   */
  function HandlePacket(table: seq<Handler>, bytes: seq<byte>, len: nat): Outcome
    requires |table| == HANDLERS && |bytes| >= HEADER && len <= |bytes|
  {
    var id := Word(bytes[2], bytes[3]);
    if id >= |table| then OutsideTable
    else
      match table[id]
      case Invalid => NoHandler
      case Handle(p) =>
        if len < HEADER then Rejected
        else
          match ParseFromArray(bytes[HEADER..len], SchemaOf(p))
          case None => Rejected
          case Some(m) => Delivered(p, m)
  }

  /** Exactly the packets that carry the id 65535 are looked up outside the table, of whatever length they are. */
  lemma OutsideTableIff(table: seq<Handler>, bytes: seq<byte>, len: nat)
    requires |table| == HANDLERS && |bytes| >= HEADER && len <= |bytes|
    ensures HandlePacket(table, bytes, len) == OutsideTable <==> bytes[2] == 255 && bytes[3] == 255
  {
    hide ParseFromArray, SchemaOf;
  }

  // --------------------------------------------------------------- end to end

  /**
   * What becomes of a message of n bytes. Up to 5996 bytes the buffer opened
   * is filled with the header, whose size is its own, and the body. Above, the
   * chunk refuses a larger buffer; from 65532 bytes on the size wraps around,
   * so that less than a header is opened and all of the body is written behind
   * the buffer and behind its chunk; from 65536 bytes on the serialization is
   * refused, if not the buffer.
   */
  lemma FrameIsWhole(m: Message, p: PacketType, c: Chunk)
    requires ValidMessage(m, SchemaOf(p), SIZED) && c.used <= CHUNK_SIZE
    ensures var n, sent := |EncodeMessage(m, SchemaOf(p))|, MakeSendBuffer(m, p, c);
            && (n <= 5996 <==> sent.Sent? && |sent.written| == sent.size)
            && (n <= 5996 ==> sent.written == Header(n + 4, Id(p)) + EncodeMessage(m, SchemaOf(p))
                              && sent.start + sent.size <= 6000)
            && (n <= 5996 || 65532 <= n < 65536 <==> sent.Sent?)
            && (65532 <= n < 65536 ==> sent.size == n - 65532 < 4 && |sent.written| == n + 4 > 6000)
  {
    P.SchemasAreOk();
    ByteSizeIsExact(m, SchemaOf(p));
    hide EncodeMessage, ByteSize, ValidMessage;
    SixteenBits(ByteSize(m, SchemaOf(p)));
  }

  /** Two bytes that make a 16-bit number, low byte first. */
  predicate AreWord(low: byte, high: byte, n: nat) {
    low as int + 256 * (high as int) == n
  }

  /** Size and id of the header, each with the low byte first. */
  lemma HeaderBytes(size: nat, id: nat)
    requires size < 65536 && id < 65536
    ensures var h := Header(size, id); |h| == 4 && AreWord(h[0], h[1], size) && AreWord(h[2], h[3], id)
  {}

  lemma SixteenBits(n: nat)
    ensures n <= 65531 ==> n % TWO_16 == n && (n + HEADER) % TWO_16 == n + HEADER
    ensures 65531 < n < TWO_16 ==> n % TWO_16 == n && (n + HEADER) % TWO_16 == n + HEADER - TWO_16
    ensures n >= TWO_16 ==> n % TWO_16 < n
    ensures (n % TWO_16 + HEADER) % TWO_16 == (n + HEADER) % TWO_16
  {}

  /** Without unknown fields, no packet nests deeper than the players of a login. */
  lemma PacketIsShallow(m: Message, p: PacketType, limits: Limits)
    requires ValidMessage(m, SchemaOf(p), limits) && IsKnown(m)
    ensures Depth(m) <= 1
  {
    hide EncodeMessage;
    forall j | 0 <= j < |m.values| ensures ValueDepth(m.values[j]) <= 1 {
      assert ValidValue(m.values[j], SchemaOf(p)[j], limits);
      if m.values[j].List? {
        assert SchemaOf(p)[j] == Repeated(P.PLAYER);
        PlayersAreFlat(m.values[j].ms, limits);
      }
    }
    ValuesDepthIff(m.values, 1);
  }

  lemma {:induction false} PlayersAreFlat(ms: seq<Message>, limits: Limits)
    requires AllValid(ms, P.PLAYER, limits) && forall j :: 0 <= j < |ms| ==> IsKnown(ms[j])
    ensures ListDepth(ms) == 0
    decreases |ms|
  {
    hide EncodeMessage;
    if ms != [] {
      var x := ms[0];
      assert ValidMessage(x, P.PLAYER, limits);
      forall j | 0 <= j < |x.values| ensures ValueDepth(x.values[j]) == 0 {
        assert ValidValue(x.values[j], P.PLAYER[j], limits);
      }
      ValuesDepthIff(x.values, 0);
      PlayersAreFlat(ms[1..], limits);
    }
  }

  /**
   * What one side sends, the other delivers to the handler of the same type
   * with an equal message, if and only if the body has at most 5996 bytes, all
   * strings in it are UTF-8, and nothing is nested more than 100 deep in it,
   * which only unknown fields can be; for every message of every type.
   */
  lemma EndToEnd(s: Side, table: seq<Handler>, m: Message, p: PacketType, c: Chunk)
    requires Handles(Other(s), p) && IsTable(table, Other(s)) && c.used <= CHUNK_SIZE
    requires ValidMessage(m, SchemaOf(p), SIZED)
    ensures var sent := MakeSendBuffer(m, p, c);
            && (sent.Sent? ==> sent.size <= |sent.written|)
            && (sent.Sent? && sent.size >= HEADER
                && HandlePacket(table, sent.written[..sent.size], sent.size) == Delivered(p, m) <==>
                |EncodeMessage(m, SchemaOf(p))| <= 5996 && TextsAreUtf8(m) && Depth(m) <= 100)
            && (IsKnown(m) ==> Depth(m) <= 1)
  {
    FrameIsWhole(m, p, c);
    P.SchemasAreOk();
    if IsKnown(m) { PacketIsShallow(m, p, SIZED); }
    var body := EncodeMessage(m, SchemaOf(p));
    if |body| <= CHUNK_SIZE - HEADER {
      SmallIsValid(m, SchemaOf(p), SIZED, MAX_SIZE);
      ReadBackIff(m, SchemaOf(p));
      FrameIsHandled(table, m, p);
      hide EncodeMessage, ByteSize, ValidMessage, TextsAreUtf8, Depth, ParseFromArray, MakeSendBuffer, HandlePacket;
      var sent := MakeSendBuffer(m, p, c);
      assert sent.written[..sent.size] == sent.written;
    }
  }

  /** A whole frame goes to the parser of its own type. */
  lemma FrameIsHandled(table: seq<Handler>, m: Message, p: PacketType)
    requires |table| == HANDLERS && table[Id(p)] == Handle(p)
    requires |EncodeMessage(m, SchemaOf(p))| <= CHUNK_SIZE - HEADER
    ensures var body := EncodeMessage(m, SchemaOf(p));
            HandlePacket(table, Header(|body| + HEADER, Id(p)) + body, |body| + HEADER) ==
            match ParseFromArray(body, SchemaOf(p)) case None => Rejected case Some(x) => Delivered(p, x)
  {
    hide EncodeMessage, ParseFromArray, SchemaOf;
    IdsAreDistinct();
    var body := EncodeMessage(m, SchemaOf(p));
    var frame := Header(|body| + HEADER, Id(p)) + body;
    assert frame[HEADER..|body| + HEADER] == body;
    IdBytes(p);
  }

  lemma IdBytes(p: PacketType)
    ensures Word(Id(p) % 256, Id(p) / 256) == Id(p)
  {}

  /** Whatever arrives under an id that the side does not handle reaches no handler of a packet. */
  lemma OnlyOwnPacketsAreDelivered(s: Side, table: seq<Handler>, bytes: seq<byte>, len: nat)
    requires IsTable(table, s) && |bytes| >= HEADER && len <= |bytes|
    ensures HandlePacket(table, bytes, len).Delivered? ==>
              && Handles(s, HandlePacket(table, bytes, len).p)
              && len >= HEADER && Word(bytes[2], bytes[3]) == Id(HandlePacket(table, bytes, len).p)
  {
    hide ParseFromArray;
    var id := Word(bytes[2], bytes[3]);
    if id < HANDLERS && !(exists p :: Handles(s, p) && Id(p) == id) { assert table[id] == Invalid; }
    IdsAreDistinct();
  }
}
