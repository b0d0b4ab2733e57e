// The receiving side of a connection: a stream of bytes comes in pieces of any
// size, is kept in the receive buffer and cut into packets again.
module PacketStream {
  import opened Varint
  import opened Messages
  import opened MessagesRoundTrip
  import opened Nesting
  import opened Packets
  import opened SendBuffers

  const BUFFER_SIZE: nat := 0x1_0000
  const BUFFER_COUNT: nat := 10
  const CAPACITY: nat := BUFFER_SIZE * BUFFER_COUNT

  /** What OnRecvPacket gets: a length, and as many bytes at hand, of which there are enough for a header. */
  datatype Packet = Packet(bytes: seq<byte>, len: nat)

  /**
   * The packets handed on and the bytes they take, or a loop that hands on an
   * empty packet, the last one here, again and again.
   */
  datatype Received = Received(packets: seq<Packet>, taken: nat) | Endless(packets: seq<Packet>)

  predicate IsReadable(p: Packet) {
    |p.bytes| >= HEADER && p.len <= |p.bytes|
  }

  ghost predicate AreReadable(ps: seq<Packet>) {
    forall i :: 0 <= i < |ps| ==> IsReadable(ps[i])
  }

  /** The size field of the header at the front. */
  function SizeField(b: seq<byte>): (n: nat)
    requires |b| >= HEADER
    ensures n < TWO_16
  {
    Word(b[0], b[1])
  }

  /** The packet at the front, which is at hand. */
  function FirstPacket(b: seq<byte>): Packet
    requires |b| >= HEADER && SizeField(b) <= |b|
  {
    var n := SizeField(b);
    Packet(b[..if n < HEADER then HEADER else n], n)
  }

  /** PacketSession::OnRecv on the bytes at hand. */
  function OnRecv(b: seq<byte>): (r: Received)
    ensures r.Received? ==> r.taken <= |b|
    ensures AreReadable(r.packets)
  {
    if |b| < HEADER || |b| < SizeField(b) then Received([], 0)
    else
      var n := SizeField(b);
      if n == 0 then Endless([FirstPacket(b)])
      else After([FirstPacket(b)], n, OnRecv(b[n..]))
  }

  /** What comes before is handed on first. */
  function After(packets: seq<Packet>, taken: nat, r: Received): Received {
    match r
    case Endless(more) => Endless(packets + more)
    case Received(more, n) => Received(packets + more, taken + n)
  }

  /** The loop of OnRecv over the bytes in the buffer. */
  method CutPackets(b: seq<byte>) returns (r: Received)
    ensures r == OnRecv(b)
  {
    hide OnRecv;
    var packets: seq<Packet>, processLen := [], 0;
    assert b[0..] == b;
    NothingBefore(OnRecv(b));
    while true
      invariant 0 <= processLen <= |b|
      invariant OnRecv(b) == After(packets, processLen, OnRecv(b[processLen..]))
      decreases |b| - processLen
    {
      LoopStep(b, packets, processLen);
      if |b| - processLen < HEADER { return Received(packets, processLen); }
      var size := SizeField(b[processLen..]);
      if |b| - processLen < size { return Received(packets, processLen); }
      packets := packets + [FirstPacket(b[processLen..])];
      if size == 0 { return Endless(packets); }
      processLen := processLen + size;
    }
  }

  lemma NothingBefore(r: Received)
    ensures After([], 0, r) == r
  {
    assert [] + r.packets == r.packets;
  }

  lemma AfterTwice(ps: seq<Packet>, m: nat, qs: seq<Packet>, n: nat, r: Received)
    ensures After(ps, m, After(qs, n, r)) == After(ps + qs, m + n, r)
  {
    assert ps + (qs + r.packets) == ps + qs + r.packets;
  }

  lemma LoopStep(b: seq<byte>, packets: seq<Packet>, at: nat)
    requires at <= |b|
    ensures var rest := b[at..];
            After(packets, at, OnRecv(rest)) ==
            if |rest| < HEADER || |rest| < SizeField(rest) then Received(packets, at)
            else if SizeField(rest) == 0 then Endless(packets + [FirstPacket(rest)])
            else
              var n := SizeField(rest);
              After(packets + [FirstPacket(rest)], at + n, OnRecv(b[at + n..]))
  {
    hide SizeField, FirstPacket;
    var rest := b[at..];
    if |rest| >= HEADER && 0 < SizeField(rest) <= |rest| {
      var n := SizeField(rest);
      assert rest[n..] == b[at + n..];
      AfterTwice(packets, at, [FirstPacket(rest)], n, OnRecv(rest[n..]));
    } else {
      assert packets + [] == packets;
    }
  }

  // ------------------------------------------------------------ receive buffer

  class RecvBuffer {
    const buffer: array<byte>
    var readPos: nat
    var writePos: nat

    ghost predicate Valid() reads this {
      buffer.Length == CAPACITY && readPos <= writePos <= CAPACITY
    }

    /** What has been received and not yet taken. */
    ghost function Data(): (d: seq<byte>) reads this, buffer
      requires Valid()
      ensures |d| == writePos - readPos
    {
      buffer[readPos..writePos]
    }

    function FreeSize(): nat reads this
      requires Valid()
    {
      CAPACITY - writePos
    }

    constructor ()
      ensures Valid() && fresh(buffer) && Data() == [] && FreeSize() == 655360
    {
      buffer := new byte[CAPACITY];
      readPos, writePos := 0, 0;
    }

    /** The bytes that the socket puts at WritePos, and OnWrite. */
    method OnWrite(bytes: seq<byte>) returns (ok: bool)
      requires Valid()
      modifies this`writePos, buffer
      ensures Valid() && ok == (|bytes| <= old(FreeSize()))
      ensures Data() == if ok then old(Data()) + bytes else old(Data())
    {
      if |bytes| > CAPACITY - writePos { return false; }
      for i := 0 to |bytes|
        modifies buffer
        invariant forall k :: 0 <= k < writePos ==> buffer[k] == old(buffer[k])
        invariant forall k :: 0 <= k < i ==> buffer[writePos + k] == bytes[k]
      {
        buffer[writePos + i] := bytes[i];
      }
      assert buffer[readPos..writePos] == old(buffer[readPos..writePos]);
      assert buffer[writePos..writePos + |bytes|] == bytes;
      assert buffer[readPos..writePos + |bytes|] == buffer[readPos..writePos] + buffer[writePos..writePos + |bytes|];
      writePos := writePos + |bytes|;
      ok := true;
    }

    method OnRead(n: nat) returns (ok: bool)
      requires Valid()
      modifies this`readPos
      ensures Valid() && ok == (n <= |old(Data())|)
      ensures Data() == if ok then old(Data())[n..] else old(Data())
    {
      if n > writePos - readPos { return false; }
      readPos := readPos + n;
      ok := true;
    }

    /** Makes room without losing a byte; what is left of a packet always leaves room for a whole buffer size. */
    method Clean()
      requires Valid()
      modifies this`readPos, this`writePos, buffer
      ensures Valid() && Data() == old(Data())
      ensures FreeSize() >= old(FreeSize())
      ensures FreeSize() >= 65536 <==> old(FreeSize()) >= 65536 || |old(Data())| <= 655360 - 65536
    {
      var dataSize := writePos - readPos;
      if dataSize == 0 {
        readPos, writePos := 0, 0;
      } else if CAPACITY - writePos < BUFFER_SIZE {
        ghost var data := Data();
        for i := 0 to dataSize
          modifies buffer
          invariant forall k :: 0 <= k < i ==> buffer[k] == data[k]
          invariant forall k :: i <= k < dataSize ==> buffer[readPos + k] == data[k]
        {
          buffer[i] := buffer[readPos + i];
        }
        assert buffer[0..dataSize] == data;
        readPos, writePos := 0, dataSize;
      }
    }

    /** Session::ProcessRecv with at least one byte; the result is what OnRecv handed on. */
    method ProcessRecv(bytes: seq<byte>) returns (r: Received)
      requires Valid() && bytes != [] && |bytes| <= FreeSize()
      modifies this`readPos, this`writePos, buffer
      ensures Valid() && r == OnRecv(old(Data()) + bytes)
      ensures r.Received? ==> Data() == (old(Data()) + bytes)[r.taken..]
      ensures r.Received? ==> |Data()| < 65536 <= FreeSize()
    {
      hide OnRecv;
      var ok := OnWrite(bytes);
      r := CutPackets(buffer[readPos..writePos]);
      if r.Endless? { return; }
      RestIsShort(Data());
      ok := OnRead(r.taken);
      Clean();
    }
  }

  /** Less than one packet is left. */
  lemma {:induction false} RestIsShort(b: seq<byte>)
    ensures OnRecv(b).Received? ==> |b| - OnRecv(b).taken < BUFFER_SIZE
    decreases |b|
  {
    if |b| >= HEADER && 0 < SizeField(b) <= |b| { RestIsShort(b[SizeField(b)..]); }
  }

  /** The copy in Clean is of bytes that lie behind where they go, without overlap, if less than a packet is left. */
  lemma CopyDoesNotOverlap(readPos: nat, writePos: nat)
    requires readPos <= writePos <= CAPACITY && CAPACITY - writePos < BUFFER_SIZE && writePos - readPos < BUFFER_SIZE
    ensures writePos - readPos <= readPos
  {}

  // ----------------------------------------------------------- pieces of a stream

  function Concat(bs: seq<seq<byte>>): seq<byte> {
    if bs == [] then [] else bs[0] + Concat(bs[1..])
  }

  /** Pieces received one after the other, each with what was left before it. */
  function Feed(pending: seq<byte>, pieces: seq<seq<byte>>): (r: Received)
    ensures AreReadable(r.packets)
    decreases |pieces|
  {
    if pieces == [] then Received([], 0)
    else
      match OnRecv(pending + pieces[0])
      case Endless(packets) => Endless(packets)
      case Received(packets, taken) => After(packets, taken, Feed((pending + pieces[0])[taken..], pieces[1..]))
  }

  /** Bytes that come later change nothing for the packets that are whole. */
  lemma {:induction false} OnRecvAppends(a: seq<byte>, b: seq<byte>)
    ensures OnRecv(a + b) ==
            match OnRecv(a)
            case Endless(packets) => Endless(packets)
            case Received(packets, taken) => After(packets, taken, OnRecv(a[taken..] + b))
    decreases |a|
  {
    hide SizeField, FirstPacket;
    if |a| < HEADER || |a| < SizeField(a) {
      assert a[0..] == a;
      NothingBefore(OnRecv(a + b));
    } else {
      SizeIsInFront(a, b);
      FirstIsInFront(a, b);
      var n := SizeField(a);
      if n > 0 {
        assert (a + b)[n..] == a[n..] + b;
        OnRecvAppends(a[n..], b);
        match OnRecv(a[n..])
        case Endless(_) =>
        case Received(packets, taken) =>
          assert a[n..][taken..] == a[n + taken..];
          AfterTwice([FirstPacket(a)], n, packets, taken, OnRecv(a[n + taken..] + b));
      }
    }
  }

  lemma FirstIsInFront(a: seq<byte>, b: seq<byte>)
    requires |a| >= HEADER && SizeField(a) <= |a|
    ensures FirstPacket(a + b) == FirstPacket(a)
  {
    var k := if SizeField(a) < HEADER then HEADER else SizeField(a);
    SizeIsInFront(a, b);
    assert (a + b)[..k] == a[..k];
  }

  lemma SizeIsInFront(a: seq<byte>, b: seq<byte>)
    requires |a| >= HEADER
    ensures SizeField(a + b) == SizeField(a)
  {}

  /** However a stream is cut into pieces, the same packets are handed on, and the same bytes are left. */
  lemma {:induction false} PiecesDoNotMatter(pending: seq<byte>, pieces: seq<seq<byte>>)
    requires OnRecv(pending) == Received([], 0)
    ensures Feed(pending, pieces) == OnRecv(pending + Concat(pieces))
    decreases |pieces|
  {
    hide OnRecv;
    if pieces == [] {
      assert pending + [] == pending;
    } else {
      var b, more := pending + pieces[0], Concat(pieces[1..]);
      assert pending + Concat(pieces) == b + more;
      OnRecvAppends(b, more);
      if OnRecv(b).Received? {
        var taken := OnRecv(b).taken;
        NothingMoreToTake(b);
        PiecesDoNotMatter(b[taken..], pieces[1..]);
      }
    }
  }

  lemma {:induction false} NothingMoreToTake(b: seq<byte>)
    ensures OnRecv(b).Received? ==> OnRecv(b[OnRecv(b).taken..]) == Received([], 0)
    decreases |b|
  {
    hide SizeField;
    if |b| < HEADER || |b| < SizeField(b) {
      assert b[0..] == b;
    } else if SizeField(b) > 0 {
      var n := SizeField(b);
      NothingMoreToTake(b[n..]);
      if OnRecv(b[n..]).Received? { assert b[n..][OnRecv(b[n..]).taken..] == b[n + OnRecv(b[n..]).taken..]; }
    }
  }

  // --------------------------------------------------------------- end to end

  /** A frame says its own size. */
  predicate IsFrame(b: seq<byte>) {
    |b| >= HEADER && SizeField(b) == |b|
  }

  function AsPackets(frames: seq<seq<byte>>): (ps: seq<Packet>)
    ensures |ps| == |frames| && forall i :: 0 <= i < |ps| ==> ps[i] == Packet(frames[i], |frames[i]|)
  {
    seq(|frames|, i requires 0 <= i < |frames| => Packet(frames[i], |frames[i]|))
  }

  lemma {:induction false} FramesAreCut(frames: seq<seq<byte>>)
    requires forall i :: 0 <= i < |frames| ==> IsFrame(frames[i])
    ensures OnRecv(Concat(frames)) == Received(AsPackets(frames), |Concat(frames)|)
    decreases |frames|
  {
    hide SizeField;
    if frames != [] {
      var f, more := frames[0], Concat(frames[1..]);
      FramesAreCut(frames[1..]);
      SizeIsInFront(f, more);
      FirstIsInFront(f, more);
      assert (f + more)[|f|..] == more && f[..|f|] == f;
      assert AsPackets(frames) == [Packet(f, |f|)] + AsPackets(frames[1..]);
    }
  }

  /** A message to be sent, with the chunk at hand when its buffer is opened. */
  datatype Outgoing = Outgoing(p: PacketType, m: Message, chunk: Chunk)

  /**
   * Any message of a type that the other side handles, with strings that are
   * UTF-8 and a body of at most 5996 bytes; only unknown fields can nest too deep.
   */
  ghost predicate CanBeSent(o: Outgoing, s: Side) {
    && Handles(Other(s), o.p) && o.chunk.used <= CHUNK_SIZE && ValidMessage(o.m, SchemaOf(o.p), SIZED)
    && |EncodeMessage(o.m, SchemaOf(o.p))| <= 5996 && TextsAreUtf8(o.m) && (IsKnown(o.m) || Depth(o.m) <= 100)
  }

  /** The bytes that are sent. */
  function FrameOf(o: Outgoing): seq<byte> {
    var sent := MakeSendBuffer(o.m, o.p, o.chunk);
    if sent.Sent? && sent.size <= |sent.written| then sent.written[..sent.size] else []
  }

  function FramesOf(os: seq<Outgoing>): (fs: seq<seq<byte>>)
    ensures |fs| == |os| && forall i :: 0 <= i < |os| ==> fs[i] == FrameOf(os[i])
  {
    seq(|os|, i requires 0 <= i < |os| => FrameOf(os[i]))
  }

  lemma FrameIsFrame(o: Outgoing, s: Side)
    requires CanBeSent(o, s)
    ensures IsFrame(FrameOf(o))
  {
    FrameIsWhole(o.m, o.p, o.chunk);
    hide EncodeMessage, ValidMessage, TextsAreUtf8, IsKnown, Depth, MakeSendBuffer, Id, SchemaOf;
    var sent := MakeSendBuffer(o.m, o.p, o.chunk);
    assert FrameOf(o) == sent.written;
    SizeOfHeader(|EncodeMessage(o.m, SchemaOf(o.p))| + HEADER, Id(o.p), EncodeMessage(o.m, SchemaOf(o.p)));
  }

  lemma SizeOfHeader(n: nat, id: nat, body: seq<byte>)
    requires n < TWO_16 && id < TWO_16
    ensures SizeField(Header(n, id) + body) == n
  {}

  lemma FrameIsDelivered(o: Outgoing, s: Side, table: seq<Handler>)
    requires CanBeSent(o, s) && IsTable(table, Other(s))
    ensures |FrameOf(o)| >= HEADER && HandlePacket(table, FrameOf(o), |FrameOf(o)|) == Delivered(o.p, o.m)
  {
    EndToEnd(s, table, o.m, o.p, o.chunk);
    FrameIsWhole(o.m, o.p, o.chunk);
    hide EncodeMessage, ValidMessage, TextsAreUtf8, IsKnown, Depth, MakeSendBuffer, Id, SchemaOf, HandlePacket;
  }

  /**
   * Everything one side sends, in whatever pieces the bytes arrive, the other
   * hands on packet by packet and delivers in order: the handler of each type
   * gets a message equal to the one sent, and no byte is left over.
   */
  lemma StreamIsDelivered(s: Side, table: seq<Handler>, os: seq<Outgoing>, pieces: seq<seq<byte>>)
    requires IsTable(table, Other(s)) && forall i :: 0 <= i < |os| ==> CanBeSent(os[i], s)
    requires Concat(pieces) == Concat(FramesOf(os))
    ensures var r := Feed([], pieces);
            && r.Received? && |r.packets| == |os| && r.taken == |Concat(pieces)|
            && forall i :: 0 <= i < |os| ==>
                 HandlePacket(table, r.packets[i].bytes, r.packets[i].len) == Delivered(os[i].p, os[i].m)
  {
    hide CanBeSent, HandlePacket, FrameOf, IsFrame, Concat;
    PiecesDoNotMatter([], pieces);
    assert [] + Concat(pieces) == Concat(pieces);
    forall i | 0 <= i < |os|
      ensures IsFrame(FramesOf(os)[i]) && |FramesOf(os)[i]| >= HEADER
      ensures HandlePacket(table, FramesOf(os)[i], |FramesOf(os)[i]|) == Delivered(os[i].p, os[i].m)
    {
      FrameIsFrame(os[i], s);
      FrameIsDelivered(os[i], s, table);
    }
    FramesAreCut(FramesOf(os));
  }

  // ------------------------------------------------------------- when it ends

  /** Position `at` is where a packet begins, if the size fields before it are followed. */
  predicate IsBoundary(b: seq<byte>, at: nat)
    decreases |b|
  {
    at == 0
    || (|b| >= HEADER && 0 < SizeField(b) <= |b| && at >= SizeField(b)
        && IsBoundary(b[SizeField(b)..], at - SizeField(b)))
  }

  ghost predicate HasEmptyPacket(b: seq<byte>) {
    exists at :: 0 <= at <= |b| - HEADER && IsBoundary(b, at) && SizeField(b[at..]) == 0
  }

  /** The loop of OnRecv ends exactly if no packet begins with a size of 0. */
  lemma {:induction false} EndlessIffEmptyPacket(b: seq<byte>)
    ensures OnRecv(b).Endless? <==> HasEmptyPacket(b)
    decreases |b|
  {
    hide SizeField;
    if |b| >= HEADER {
      assert b[0..] == b;
      var n := SizeField(b);
      if n == 0 {
        assert IsBoundary(b, 0);
      } else if n <= |b| {
        EndlessIffEmptyPacket(b[n..]);
        if at :| 0 <= at <= |b[n..]| - HEADER && IsBoundary(b[n..], at) && SizeField(b[n..][at..]) == 0 {
          assert b[n..][at..] == b[n + at..];
          assert IsBoundary(b, n + at);
        }
        if at :| 0 <= at <= |b| - HEADER && IsBoundary(b, at) && SizeField(b[at..]) == 0 {
          assert b[n..][at - n..] == b[at..];
        }
      }
    }
  }

  /** A packet with the id 65535 begins at a boundary, and is at hand as a whole. */
  ghost predicate HasLastId(b: seq<byte>) {
    exists at :: 0 <= at <= |b| - HEADER && IsBoundary(b, at) && StartsWithLastId(b[at..])
  }

  predicate StartsWithLastId(b: seq<byte>) {
    |b| >= HEADER && SizeField(b) <= |b| && b[2] == 255 && b[3] == 255
  }

  ghost predicate LeavesTable(table: seq<Handler>, ps: seq<Packet>)
    requires |table| == HANDLERS && AreReadable(ps)
  {
    exists i :: 0 <= i < |ps| && HandlePacket(table, ps[i].bytes, ps[i].len) == OutsideTable
  }

  lemma LeavesTableParts(table: seq<Handler>, p: Packet, ps: seq<Packet>)
    requires |table| == HANDLERS && IsReadable(p) && AreReadable(ps)
    ensures AreReadable([p] + ps)
    ensures LeavesTable(table, [p] + ps) <==>
              HandlePacket(table, p.bytes, p.len) == OutsideTable || LeavesTable(table, ps)
  {
    hide HandlePacket;
    assert ([p] + ps)[0] == p && forall i :: 0 <= i < |ps| ==> ([p] + ps)[i + 1] == ps[i];
  }

  /** Over a whole stream, the lookup leaves the table exactly if a packet that is reached carries the id 65535. */
  lemma {:induction false} StreamLeavesTableIff(table: seq<Handler>, b: seq<byte>)
    requires |table| == HANDLERS
    ensures LeavesTable(table, OnRecv(b).packets) <==> HasLastId(b)
    decreases |b|
  {
    hide SizeField, HandlePacket;
    if |b| >= HEADER && SizeField(b) <= |b| {
      assert b[0..] == b;
      var n, p := SizeField(b), FirstPacket(b);
      OutsideTableIff(table, p.bytes, p.len);
      if n == 0 {
        LeavesTableParts(table, p, []);
        assert [p] + [] == [p];
      } else {
        StreamLeavesTableIff(table, b[n..]);
        LeavesTableParts(table, p, OnRecv(b[n..]).packets);
      }
      LastIdByFirst(b);
    } else {
      NoBoundaryBehind(b);
    }
  }

  lemma NoBoundaryBehind(b: seq<byte>)
    requires |b| < HEADER || |b| < SizeField(b)
    ensures !HasLastId(b)
  {
    assert b[0..] == b;
  }

  lemma LastIdByFirst(b: seq<byte>)
    requires |b| >= HEADER && SizeField(b) <= |b|
    ensures HasLastId(b) <==>
              StartsWithLastId(b) || (SizeField(b) > 0 && HasLastId(b[SizeField(b)..]))
  {
    hide SizeField, StartsWithLastId;
    assert b[0..] == b;
    var n := SizeField(b);
    if StartsWithLastId(b) { assert IsBoundary(b, 0); }
    if n > 0 {
      if at :| 0 <= at <= |b[n..]| - HEADER && IsBoundary(b[n..], at) && StartsWithLastId(b[n..][at..]) {
        assert b[n..][at..] == b[n + at..];
        assert IsBoundary(b, n + at);
      }
      if at :| 0 <= at <= |b| - HEADER && IsBoundary(b, at) && StartsWithLastId(b[at..]) && at != 0 {
        assert b[n..][at - n..] == b[at..];
      }
    }
  }
}
