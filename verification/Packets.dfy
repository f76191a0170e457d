/** Framing messages into packets and relaying them (Packet.cpp, IOCPServer.h, IOCPServer.cpp). */
module Packets {
  import opened Wire
  import opened Wrappers
  import opened UnknownFields
  import opened Messages
  import opened Codec
  import opened CodecLaws
  import opened Growth
  import opened Relaying
  import opened MemberOrders
  import opened MessageObjects
  import opened Sizes
  import opened DepthLimit
  import opened Lookahead
  import opened Leftovers

  const HEADER_SIZE := 4
  const MAX_PACKETBUF := 1024
  const RECURSION_LIMIT := 100

  /** PacketHeader: the whole size and the packet type, two bytes each. */
  function Header(size: nat, id: nat): (h: seq<byte>)
    ensures |h| == HEADER_SIZE
  {
    EncodeFixed(size, 2) + EncodeFixed(id, 2)
  }

  function Frame(id: nat, payload: seq<byte>): (f: seq<byte>)
    ensures |f| == HEADER_SIZE + |payload|
  {
    Header((|payload| + HEADER_SIZE) % 0x1_0000, id) + payload
  }

  /** What a receiver takes out of its buffer: a packet type and a payload. */
  function Unframe(bs: seq<byte>): (r: Option<(nat, seq<byte>)>)
    ensures r.Some? ==> |r.value.1| + HEADER_SIZE <= |bs|
  {
    if |bs| < HEADER_SIZE then None
    else
      var size, id := DecodeFixed(bs[..2]), DecodeFixed(bs[2..4]);
      var n := (size + 0x1_0000 - HEADER_SIZE) % 0x1_0000;
      if |bs| < HEADER_SIZE + n then None else Some((id, bs[4..4 + n]))
  }

  function Number(low: nat, high: nat): nat {
    low + 256 * high
  }

  /** Each half of the header has its low byte in front. */
  lemma HeaderBytes(size: nat, id: nat)
    requires size < 0x1_0000 && id < 0x1_0000
    ensures Header(size, id) == [size % 256, size / 256, id % 256, id / 256]
  {
    assert EncodeFixed(size / 256, 1) == [size / 256] && EncodeFixed(id / 256, 1) == [id / 256];
  }

  lemma TwoBytes(bs: seq<byte>)
    requires |bs| == 2
    ensures DecodeFixed(bs) == Number(bs[0], bs[1]) < 0x1_0000
  {
    assert DecodeFixed(bs[1..]) == bs[1];
  }

  lemma HeaderBack(size: nat, id: nat, rest: seq<byte>)
    requires size < 0x1_0000 && id < 0x1_0000
    ensures var bs := Header(size, id) + rest;
            DecodeFixed(bs[..2]) == size && DecodeFixed(bs[2..4]) == id && bs[4..] == rest
  {
    hide EncodeFixed, DecodeFixed;
    assert Pow256(2) == 0x1_0000;
    FixedRoundTrip(size, 2);
    FixedRoundTrip(id, 2);
    var bs := Header(size, id) + rest;
    assert bs[..2] == EncodeFixed(size, 2) && bs[2..4] == EncodeFixed(id, 2);
  }

  /** The header tells the length of the packet exactly when nothing wraps, and then the payload comes back. */
  lemma FrameBack(id: nat, payload: seq<byte>, rest: seq<byte>)
    requires id < 0x1_0000
    ensures var bs := Frame(id, payload);
            && (DecodeFixed(bs[..2]) == |bs| <==> |payload| + HEADER_SIZE < 0x1_0000)
            && (|payload| + HEADER_SIZE < 0x1_0000 ==> Unframe(bs + rest) == Some((id, payload)))
  {
    hide DecodeFixed, EncodeFixed;
    HeaderBack((|payload| + HEADER_SIZE) % 0x1_0000, id, payload);
    HeaderBack((|payload| + HEADER_SIZE) % 0x1_0000, id, payload + rest);
    var h := Header((|payload| + HEADER_SIZE) % 0x1_0000, id);
    assert h + payload + rest == h + (payload + rest);
    assert (payload + rest)[..|payload|] == payload;
    var bs, n := Frame(id, payload) + rest, |payload|;
    assert bs[4..4 + n] == bs[4..][..n];
  }

  function Zeros(n: nat): seq<byte> {
    seq(n, _ => 0)
  }

  /** What SerializePacket leaves in the buffer. All sizes go through 16 bits: a size that wraps to less than a
      header leaves no room to write the header to, and a payload that is longer than its truncated size is not
      written at all. */
  function Packet(id: nat, payload: seq<byte>): Option<seq<byte>> {
    var n := |payload| % 0x1_0000;
    if (n + HEADER_SIZE) % 0x1_0000 < HEADER_SIZE then None
    else Some(Frame(id, if n < |payload| then Zeros(n) else payload))
  }

  /** A packet holds its payload exactly when the payload is shorter than 64 KiB less a header. */
  lemma PacketHoldsPayloadExactly(id: nat, payload: seq<byte>)
    requires id < 0x100
    ensures var p := Packet(id, payload);
            && (p == None <==> |payload| % 0x1_0000 + HEADER_SIZE >= 0x1_0000)
            && (p.Some? && Unframe(p.value) == Some((id, payload)) <==> |payload| + HEADER_SIZE < 0x1_0000)
  {
    hide Frame, Unframe;
    var zeros := Zeros(|payload| % 0x1_0000);
    FrameBack(id, payload, []);
    FrameBack(id, zeros, []);
    assert Frame(id, payload) + [] == Frame(id, payload) && Frame(id, zeros) + [] == Frame(id, zeros);
    assert |payload| < 0x1_0000 ==> |payload| % 0x1_0000 == |payload|;
  }

  /** A message without unknown fields always fits: its packet is at most 63 bytes long, says so itself, and
      holds exactly the message. */
  lemma PlainMessagesFit(t: MessageType, m: Msg, id: nat, rest: seq<byte>)
    requires MsgOk(t, m) && NoUnknown(m) && id < 0x100
    ensures Packet(id, Encode(t, m)).Some?
    ensures var p := Packet(id, Encode(t, m)).value;
            && |p| == HEADER_SIZE + |Encode(t, m)| <= 63 && DecodeFixed(p[..2]) == |p|
            && Unframe(p + rest) == Some((id, Encode(t, m)))
  {
    hide Frame, Unframe, Encode, MsgOk, NoUnknown;
    EncodedSizeBound(t, m);
    FrameBack(id, Encode(t, m), rest);
  }

  class PacketBuffer {
    var buffer: array?<byte>
    var bufferPos: nat
    var bufferSize: nat
    var packetIndex: nat
    var isReliable: bool

    constructor ()
      ensures buffer == null && bufferPos == 0 && bufferSize == 0 && packetIndex == 0xffff && !isReliable
    {
      buffer, bufferPos, bufferSize, packetIndex, isReliable := null, 0, 0, 0xffff, false;
    }

    /** The new bytes are cleared from the position on, as many as there are: all of them, and nothing behind
        them, exactly when the position is at the start. */
    method ReservePacket(size: nat) returns (inside: bool)
      requires size < 0x1_0000
      modifies this`buffer, this`bufferSize
      ensures fresh(buffer) && buffer != null && buffer.Length == size
      ensures bufferSize == (old(bufferSize) + size) % 0x1_0000
      ensures inside <==> bufferPos == 0
      ensures forall i :: bufferPos <= i < size ==> buffer[i] == 0
    {
      buffer := new byte[size];
      bufferSize := (bufferSize + size) % 0x1_0000;
      forall i | bufferPos <= i < size {
        buffer[i] := 0;
      }
      inside := bufferPos + size <= buffer.Length;
    }

    /** Writes at the position, or at the start if the data would not fit there. Tells whether that is inside the
        buffer; what a copy out of bounds does is not modelled. */
    method CopyPacket(data: seq<byte>) returns (inside: bool)
      modifies this`bufferPos, buffer
      ensures bufferPos == if old(bufferPos) + |data| > old(bufferSize) then 0 else old(bufferPos)
      ensures inside <==> buffer != null && bufferPos + |data| <= buffer.Length
      ensures buffer != null ==>
                buffer[..] == if inside
                              then old(buffer[..])[..bufferPos] + data + old(buffer[..])[bufferPos + |data|..]
                              else old(buffer[..])
    {
      if bufferPos + |data| > bufferSize {
        bufferPos := 0;
      }
      inside := buffer != null && bufferPos + |data| <= buffer.Length;
      if inside {
        Write(buffer, bufferPos, data);
      }
    }

    /** The packet is in the buffer, with the position where its payload began to be counted. */
    predicate Holds(packet: seq<byte>)
      reads this, buffer
    {
      && buffer != null && buffer[..] == packet
      && bufferSize == buffer.Length && bufferPos + HEADER_SIZE == bufferSize
    }

    method IncBufferPos(n: nat)
      modifies this`bufferPos
      ensures bufferPos == (old(bufferPos) + n) % 0x1_0000
    {
      bufferPos := (bufferPos + n) % 0x1_0000;
    }
  }

  /** The message is taken by value. There is no packet when the header does not fit what was reserved. */
  method SerializePacket(message: Message, pType: nat, clientIndex: nat) returns (p: Option<PacketBuffer>)
    requires message.Valid() && |Encode(message.t, message.Value())| <= INT_MAX
    requires pType < 0x100 && clientIndex < 0x1_0000
    ensures p.Some? <==> Packet(pType, Encode(message.t, message.Value())).Some?
    ensures p.Some? ==> fresh(p.value) && p.value.Holds(Packet(pType, Encode(message.t, message.Value())).value)
    ensures p.Some? ==> fresh(p.value.buffer) && p.value.packetIndex == clientIndex && !p.value.isReliable
  {
    hide Encode, Message.ValidWith, Message.ValueWith, MsgOk, Packet, PacketBuffer.Holds;
    var m := new Message.Copy(message);
    p := SerializeCopy(m, pType, clientIndex);
  }

  method SerializeCopy(m: Message, pType: nat, clientIndex: nat) returns (p: Option<PacketBuffer>)
    requires m.Valid() && |Encode(m.t, m.Value())| <= INT_MAX && pType < 0x100 && clientIndex < 0x1_0000
    modifies m`cached, m.sub`cached
    ensures p.Some? <==> Packet(pType, old(Encode(m.t, m.Value()))).Some?
    ensures p.Some? ==> fresh(p.value) && p.value.Holds(Packet(pType, old(Encode(m.t, m.Value()))).value)
    ensures p.Some? ==> fresh(p.value.buffer) && p.value.packetIndex == clientIndex && !p.value.isReliable
  {
    hide Encode, Message.ValidWith, Message.ValueWith, MsgOk, Header;
    ghost var payload := Encode(m.t, m.Value());
    var n := m.ByteSizeLong();
    var packetSize := (n % 0x1_0000 + HEADER_SIZE) % 0x1_0000;
    var packet, inside := StartPacket(packetSize, pType, clientIndex);
    if !inside {
      return None;
    }
    AddPayload(m, packet);
    n := m.ByteSizeLong();
    packet.IncBufferPos(n % 0x1_0000);
    p := Some(packet);
  }

  method AddPayload(m: Message, p: PacketBuffer)
    requires m.Valid() && |Encode(m.t, m.Value())| <= INT_MAX
    requires p.buffer != null && HEADER_SIZE <= p.buffer.Length
    modifies m`cached, m.sub`cached, p.buffer
    ensures m.Valid() && m.Value() == old(m.Value())
    ensures var payload := Encode(m.t, m.Value());
            p.buffer[..] == if |payload| <= p.buffer.Length - HEADER_SIZE
                            then old(p.buffer[..HEADER_SIZE]) + payload + old(p.buffer[HEADER_SIZE + |payload|..])
                            else old(p.buffer[..])
  {
    hide Encode, Message.ValidWith, Message.ValueWith, MsgOk;
    var ok, bytes := m.SerializeToArray(p.buffer.Length - HEADER_SIZE);
    if ok {
      Write(p.buffer, HEADER_SIZE, bytes);
    }
  }

  /** A buffer of the packet's size, with the header in front and zeros behind if it is large enough. */
  method StartPacket(packetSize: nat, pType: nat, clientIndex: nat) returns (p: PacketBuffer, inside: bool)
    requires packetSize < 0x1_0000
    ensures fresh(p) && p.buffer != null && fresh(p.buffer) && p.packetIndex == clientIndex && !p.isReliable
    ensures p.bufferSize == p.buffer.Length == packetSize && p.bufferPos == 0
    ensures inside <==> HEADER_SIZE <= packetSize
    ensures inside ==> p.buffer[..] == Header(packetSize, pType) + Zeros(packetSize - HEADER_SIZE)
  {
    p := new PacketBuffer();
    p.packetIndex := clientIndex;
    inside := p.ReservePacket(packetSize);
    assert p.buffer[..] == Zeros(packetSize);
    inside := p.CopyPacket(Header(packetSize, pType));
  }

  method Write(buffer: array<byte>, at: nat, bytes: seq<byte>)
    requires at + |bytes| <= buffer.Length
    modifies buffer
    ensures buffer[..] == old(buffer[..])[..at] + bytes + old(buffer[..])[at + |bytes|..]
  {
    forall i | 0 <= i < |bytes| {
      buffer[at + i] := bytes[i];
    }
  }

  // The server's receive handlers

  // EPacketType: what clients send; the same packet for clients has the number before
  const LOGIN := 2
  const FIRE_EVENT := 4
  const MOVEMENT := 6
  const ANIM_STATE := 8
  const WEAPON_STATE := 10

  /** PacketFuncMap: the message type of a packet that a client sends. */
  function HandledType(id: nat): (t: Option<MessageType>)
    ensures t.Some? ==> 0 < id < 0x100 && Schema(t.value)[0] == Field(1, KMessage(PClientId), false)
  {
    match id
    case LOGIN => Some(PMovement)
    case FIRE_EVENT => Some(PFireEvent)
    case MOVEMENT => Some(PMovement)
    case ANIM_STATE => Some(PAnimState)
    case WEAPON_STATE => Some(PWeapon)
    case _ => None
  }

  /** m after mutable_id(). */
  function WithId(t: MessageType, m: Msg): (r: Msg)
    requires MsgOk(t, m) && Schema(t)[0] == Field(1, KMessage(PClientId), false)
    ensures MsgOk(t, r)
  {
    WithField(t, m, 0, Sub(SubOrDefault(Schema(t)[0], m.fields[0])))
  }

  /** Who a message is from: its packet goes to everybody else. */
  function SenderIndex(t: MessageType, m: Msg): nat
    requires MsgOk(t, m) && Schema(t)[0] == Field(1, KMessage(PClientId), false)
  {
    var v := SubOrDefault(Schema(t)[0], m.fields[0]).fields[0];
    (if v.Bits? then v.v else 0) % 0x1_0000
  }

  lemma SenderIsInTheId(t: MessageType, m: Msg)
    requires MsgOk(t, m) && Schema(t)[0] == Field(1, KMessage(PClientId), false)
    ensures Schema(PClientId) == [Field(1, KUInt32, false)] && WithId(t, m).fields != []
    ensures WithId(t, m).fields[0] == Sub(SubOrDefault(Schema(t)[0], m.fields[0]))
    ensures SenderIndex(t, WithId(t, m)) == SenderIndex(t, m)
    ensures var v := SubOrDefault(Schema(t)[0], m.fields[0]).fields[0];
            SenderIndex(t, m) == (if v.Bits? then v.v else 0) % 0x1_0000
  {
    FieldCount(t, m);
    FieldCount(PClientId, SubOrDefault(Schema(t)[0], m.fields[0]));
  }

  lemma WithIdFits(t: MessageType, m: Msg)
    requires MsgOk(t, m) && Schema(t)[0] == Field(1, KMessage(PClientId), false)
    ensures |Encode(t, WithId(t, m))| <= |Encode(t, m)| + 2 && MsgDepth(WithId(t, m)) <= Larger(MsgDepth(m), 1)
  {
    hide Schema, EncodeVal, EncodeFrom, FieldsDepth, DepthOfAll, EncodeAll;
    SomeField(t);
    FieldCount(t, m);
    var v := Sub(SubOrDefault(Schema(t)[0], m.fields[0]));
    SubGrowth(t, 0, m.fields[0], v.m, 0);
    LengthWithField(t, m, 0, v, 0);
    DepthWithField(m.fields, 0, v);
    FieldDepth(m.fields, 0);
    DefaultIsFlat(PClientId);
  }

  lemma GivenId(t: MessageType, m: Msg)
    requires MsgOk(t, m) && Schema(t)[0] == Field(1, KMessage(PClientId), false)
    ensures m.fields != [] && (WithId(t, m) == m <==> m.fields[0] != Unset)
    ensures m.fields[0] == Unset ==> WithId(t, m) == m.(fields := m.fields[0 := Sub(Default(PClientId))])
  {
    hide Schema;
    SomeField(t);
    FieldCount(t, m);
    assert ValOk(Schema(t)[0], m.fields[0]);
  }

  /** What comes of parsing `size` bytes, when these bytes of them are at hand. */
  function Parsed(t: MessageType, bytes: seq<byte>, size: nat): (r: Option<Msg>)
    requires MsgOk(t, Default(t))
    ensures r.Some? ==> MsgOk(t, r.value)
  {
    if size == |bytes| then ParseInto(t, bytes, Default(t), RECURSION_LIMIT) else None
  }

  /** m is what a handler serializes after it has parsed. Handlers do not look at whether the parse failed. */
  ghost predicate Sends(t: MessageType, bytes: seq<byte>, size: nat, idFirst: bool, m: Msg)
    requires MsgOk(t, Default(t)) && Schema(t)[0] == Field(1, KMessage(PClientId), false)
  {
    match Parsed(t, bytes, size)
    case Some(r) => m == if idFirst then WithId(t, r) else r
    case None =>
      exists n :: MsgOk(t, n) && LeftBy(t, bytes, size, Default(t), RECURSION_LIMIT, n)
                  && m == if idFirst then WithId(t, n) else n
  }

  lemma SentSize(t: MessageType, bytes: seq<byte>, size: nat, idFirst: bool, m: Msg)
    requires |bytes| <= MAX_PACKETBUF && Schema(t)[0] == Field(1, KMessage(PClientId), false)
    requires MsgOk(t, Default(t)) && Sends(t, bytes, size, idFirst, m)
    ensures MsgOk(t, m)
    ensures if Parsed(t, bytes, size).Some? then |Encode(t, m)| <= |bytes| + 2 && MsgDepth(m) <= RECURSION_LIMIT
            else |Encode(t, m)| <= 2 * |bytes| + 42 && MsgDepth(m) <= RECURSION_LIMIT + 1
  {
    hide Schema, MsgOk, ParseInto, Encode, MsgDepth, WithId, LeftBy;
    DefaultIsFlat(t);
    match Parsed(t, bytes, size)
    case Some(r) =>
      RelayKeepsTheMessage(t, bytes, RECURSION_LIMIT);
      ParsedDepth(t, bytes, Default(t), RECURSION_LIMIT);
      WithIdFits(t, r);
    case None =>
      var n :| MsgOk(t, n) && LeftBy(t, bytes, size, Default(t), RECURSION_LIMIT, n)
               && m == if idFirst then WithId(t, n) else n;
      LeftDepth(t, bytes, size, Default(t), RECURSION_LIMIT, n);
      LeftSize(t, bytes, size, Default(t), RECURSION_LIMIT, n);
      EmptyDefault(t);
      WithIdFits(t, n);
  }

  /** What another client reads from the packet that is sent: the very message, unless it is too deep to read. */
  lemma SentReadsBack(t: MessageType, bytes: seq<byte>, size: nat, idFirst: bool, m: Msg, id: nat, rest: seq<byte>)
    requires |bytes| <= MAX_PACKETBUF && id < 0x100 && Schema(t)[0] == Field(1, KMessage(PClientId), false)
    requires MsgOk(t, Default(t)) && Sends(t, bytes, size, idFirst, m)
    ensures MsgOk(t, m) && Packet(id, Encode(t, m)).Some?
    ensures |Packet(id, Encode(t, m)).value| == HEADER_SIZE + |Encode(t, m)|
    ensures Unframe(Packet(id, Encode(t, m)).value + rest) == Some((id, Encode(t, m)))
    ensures ParseInto(t, Encode(t, m), Default(t), RECURSION_LIMIT)
            == if MsgDepth(m) <= RECURSION_LIMIT then Some(m) else None
  {
    hide Schema, MsgOk, ParseInto, Encode, MsgDepth, Frame, Unframe, Sends;
    SentSize(t, bytes, size, idFirst, m);
    RoundTripExactly(t, m, RECURSION_LIMIT);
    FrameBack(id, Encode(t, m), rest);
  }

  /** A zero tag leaves the message as it was. */
  lemma ZeroLeft(t: MessageType, m: Msg, depth: nat, n: Msg)
    requires MsgOk(t, m) && MsgOk(t, n)
    ensures ParseInto(t, [0], m, depth) == None && (LeftBy(t, [0], 1, m, depth, n) ==> n == m)
  {
    hide Schema, ParseKnown, KnownLeft, MsgOk, FieldIndex;
    assert ReadTag([0]) == Some((0, 1));
    var i := FieldIndex(Schema(t), 0);
    if i < |Schema(t)| {
      FieldNumbers(t, i);
    }
    assert ParseField(t, [0], m, depth) == None;
  }

  /** Movement bytes that nobody can read are sent on as the movement that says nothing. */
  lemma UnreadableIsSentOn(m: Msg)
    requires MsgOk(PMovement, Default(PMovement)) && Sends(PMovement, [0], 1, false, m)
    ensures Parsed(PMovement, [0], 1) == None
    ensures m == Default(PMovement) && Encode(PMovement, m) == []
  {
    hide Schema, Encode, ParseInto, LeftBy, MsgOk;
    EmptyDefault(PMovement);
    var d := Default(PMovement);
    ZeroLeft(PMovement, d, RECURSION_LIMIT, d);
    forall n | MsgOk(PMovement, n) && LeftBy(PMovement, [0], 1, d, RECURSION_LIMIT, n)
      ensures n == d
    {
      ZeroLeft(PMovement, d, RECURSION_LIMIT, n);
    }
  }

  lemma IdOnly()
    ensures Schema(PMovement)[0] == Field(1, KMessage(PClientId), false)
    ensures MsgOk(PMovement, Default(PMovement)) && MsgOk(PClientId, Default(PClientId))
    ensures Encode(PMovement, WithId(PMovement, Default(PMovement))) == [0x0A, 0]
  {
    var d := Default(PMovement);
    var f, n := Schema(PMovement)[0], WithId(PMovement, d);
    EmptyDefault(PMovement);
    EmptyDefault(PClientId);
    assert EncodeVal(f, n.fields[0]) == [0x0A, 0];
    UnsetFrom(PMovement, n, 1);
  }

  /** Half a tag is enough to set a field: the byte after these makes it the tag of the Id. */
  lemma HalfATagIsSentOn()
    ensures MsgOk(PMovement, Default(PMovement))
    ensures var m := WithId(PMovement, Default(PMovement));
            && Parsed(PMovement, [0x8A], 1) == None && Sends(PMovement, [0x8A], 1, false, m)
            && Encode(PMovement, m) == [0x0A, 0] && ReadTag([0x8A, 0]) == Some((10, 2))
  {
    hide Schema, Encode, EncodeFrom, EncodeVal, ParseTagged, MsgOk;
    IdOnly();
    var bs, d, n := [0x8A], Default(PMovement), WithId(PMovement, Default(PMovement));
    assert ReadTag(bs) == None && ScanTag(bs) == RanOut && ReadTag([0x8A, 0]) == Some((10, 2));
    assert RecordLeft(PMovement, 10, [], d, RECURSION_LIMIT, n) by {
      IdLeft();
    }
    CutTagLeft(PMovement, 10, bs, d, RECURSION_LIMIT, n);
    assert LeftBy(PMovement, bs, 1, d, RECURSION_LIMIT, n);
  }

  lemma IdLeft()
    requires MsgOk(PMovement, Default(PMovement))
    ensures RecordLeft(PMovement, 10, [], Default(PMovement), RECURSION_LIMIT, WithId(PMovement, Default(PMovement)))
  {
    assert Known(PMovement, 1, 2) && FieldIndex(Schema(PMovement), 1) == 0;
  }

  /** Clients read what the sender sent exactly when it can be read and, in case the id is asked for first, has
      an id. */
  lemma RelayIsFaithfulExactly(t: MessageType, bytes: seq<byte>, size: nat, idFirst: bool, m: Msg)
    requires |bytes| <= MAX_PACKETBUF && Schema(t)[0] == Field(1, KMessage(PClientId), false)
    requires MsgOk(t, Default(t)) && Sends(t, bytes, size, idFirst, m)
    ensures MsgOk(t, m)
    ensures var received := Parsed(t, bytes, size);
            var read := ParseInto(t, Encode(t, m), Default(t), RECURSION_LIMIT);
            read.Some? && read == received
            <==> received.Some? && (idFirst ==> received.value.fields[0] != Unset)
  {
    hide Schema, MsgOk, ParseInto, Encode, MsgDepth, LeftBy, WithId;
    SentSize(t, bytes, size, idFirst, m);
    RoundTripExactly(t, m, RECURSION_LIMIT);
    match Parsed(t, bytes, size)
    case Some(r) => GivenId(t, r);
    case None =>
  }

  // The length in a received header

  /** How many bytes the handler is told to parse: the length in the header less the header, in 16 bits. */
  function DataSize(buffer: seq<byte>): (n: nat)
    requires |buffer| == MAX_PACKETBUF
    ensures n < 0x1_0000
  {
    (DecodeFixed(buffer[..2]) + 0x1_0000 - HEADER_SIZE) % 0x1_0000
  }

  /** Those of them that are in the receive buffer. */
  function AtHand(buffer: seq<byte>): (bytes: seq<byte>)
    requires |buffer| == MAX_PACKETBUF
    ensures |bytes| <= DataSize(buffer) && |bytes| <= MAX_PACKETBUF - HEADER_SIZE
  {
    var data := buffer[HEADER_SIZE..];
    if DataSize(buffer) < |data| then data[..DataSize(buffer)] else data
  }

  /** The handler needs bytes from behind the receive buffer. */
  predicate LooksBehind(t: MessageType, buffer: seq<byte>)
    requires |buffer| == MAX_PACKETBUF
  {
    |AtHand(buffer)| < DataSize(buffer)
    && ScanMessage(t, AtHand(buffer), DataSize(buffer), RECURSION_LIMIT) == RanOut
  }

  lemma LengthInRange(buffer: seq<byte>)
    requires |buffer| == MAX_PACKETBUF
    ensures |AtHand(buffer)| == DataSize(buffer) <==> 4 <= Number(buffer[0], buffer[1]) <= 1024
  {
    hide DecodeFixed;
    TwoBytes(buffer[..2]);
  }

  lemma HandedBytes(buffer: seq<byte>)
    requires |buffer| == MAX_PACKETBUF
    ensures var n := (Number(buffer[0], buffer[1]) + 65532) % 65536;
            && DataSize(buffer) == n
            && AtHand(buffer) == if n <= 1020 then buffer[4..4 + n] else buffer[4..]
  {
    hide DecodeFixed;
    TwoBytes(buffer[..2]);
  }

  /** All the bytes are in the buffer exactly when the header says a length from 4 to 1024. Otherwise the handler
      looks behind its buffer for certain if what is in it makes up a message, and if it does not look behind it, the
      parse fails whatever lies there. */
  lemma StaysInside(t: MessageType, buffer: seq<byte>, behind: seq<byte>)
    requires |buffer| == MAX_PACKETBUF && MsgOk(t, Default(t))
    requires |AtHand(buffer) + behind| == DataSize(buffer)
    ensures behind == [] <==> 4 <= Number(buffer[0], buffer[1]) <= 1024
    ensures behind == [] ==> !LooksBehind(t, buffer)
    ensures behind != [] && ParseInto(t, AtHand(buffer), Default(t), RECURSION_LIMIT).Some? ==> LooksBehind(t, buffer)
    ensures behind != [] && !LooksBehind(t, buffer) ==>
              ParseInto(t, AtHand(buffer) + behind, Default(t), RECURSION_LIMIT) == None
  {
    hide ScanMessage, ParseInto, MsgOk, DecodeFixed, Number;
    LengthInRange(buffer);
    var bytes, d := AtHand(buffer), Default(t);
    if behind != [] && ParseInto(t, bytes, d, RECURSION_LIMIT).Some? {
      WellFormedRunsOut(t, bytes, DataSize(buffer), d, RECURSION_LIMIT);
    }
    MessageTells(t, bytes, bytes + behind, d, RECURSION_LIMIT);
  }

  /** A zero in front stops the parse, however large the length in the header is. */
  lemma ZeroTagStops(t: MessageType, buffer: seq<byte>)
    requires |buffer| == MAX_PACKETBUF && buffer[HEADER_SIZE] == 0
    ensures !LooksBehind(t, buffer)
  {
    hide ScanMessage, DecodeFixed;
    if AtHand(buffer) != [] {
      ZeroIsRefused(t, AtHand(buffer), DataSize(buffer), RECURSION_LIMIT);
    }
  }

  datatype Relayed =
    | Ignored                        // no handler for this packet type
    | OutsideBuffer                  // the handler looks behind the receive buffer
    | Queued(packet: PacketBuffer)

  /** The packet carries m, from its sender to all others, under the next lower type. */
  ghost predicate SentOn(t: MessageType, id: nat, bytes: seq<byte>, n: nat, idFirst: bool, p: PacketBuffer, m: Msg)
    reads p, p.buffer
  {
    && MsgOk(t, Default(t)) && Schema(t)[0] == Field(1, KMessage(PClientId), false) && 0 < id <= 256
    && Sends(t, bytes, n, idFirst, m) && MsgOk(t, m)
    && (var r := ParseInto(t, bytes, Default(t), 100);
        |bytes| == n && r.Some? ==> m == if idFirst then WithId(t, r.value) else r.value)
    && (var payload := Encode(t, m);
        && |payload| <= 2 * |bytes| + 42 && p.buffer != null
        && p.buffer[..] == [(|payload| + 4) % 256, (|payload| + 4) / 256, id - 1, 0] + payload)
    && m.fields != []
    && p.packetIndex == (match m.fields[0]
                         case Sub(s) => if |s.fields| == 1 && s.fields[0].Bits? then s.fields[0].v % 65536 else 0
                         case _ => 0)
    && (p.isReliable <==> id in {2, 10})
  }

  lemma SentOnIs(t: MessageType, id: nat, bytes: seq<byte>, n: nat, idFirst: bool, p: PacketBuffer, m: Msg)
    requires MsgOk(t, Default(t)) && Schema(t)[0] == Field(1, KMessage(PClientId), false) && 0 < id <= 256
    requires |bytes| <= MAX_PACKETBUF && Sends(t, bytes, n, idFirst, m) && MsgOk(t, m)
    requires |Encode(t, m)| <= 2 * |bytes| + 42 && Packet(id - 1, Encode(t, m)).Some?
    requires p.Holds(Packet(id - 1, Encode(t, m)).value) && p.packetIndex == SenderIndex(t, m)
    requires p.isReliable <==> id in {LOGIN, WEAPON_STATE}
    ensures SentOn(t, id, bytes, n, idFirst, p, m)
  {
    hide Schema, MsgOk, Encode, ParseInto, Header, LeftBy, WithId;
    SomeField(t);
    FieldCount(t, m);
    FieldCount(PClientId, SubOrDefault(Schema(t)[0], m.fields[0]));
    HeaderBytes(|Encode(t, m)| + 4, id - 1);
    IdIsUnset();
  }

  lemma IdIsUnset()
    ensures |Schema(PClientId)| == 1 && Default(PClientId).fields[0] == Unset
  {
  }

  /** DeSerializePacket with RecvFireEventPacket and its fellows: parse what a client sent and send it on under the
      next lower packet type, addressed by the sender's id. Argument order is unspecified, so mutable_id() may run
      before or after the message is copied. A packet is queued even when nothing could be parsed. */
  method Relay(buffer: seq<byte>, idFirst: bool) returns (outcome: Relayed, ghost m: Msg)
    requires |buffer| == 1024
    ensures outcome.Ignored? <==> Number(buffer[2], buffer[3]) !in {2, 4, 6, 8, 10}
    ensures !outcome.Ignored? ==>
              var id := Number(buffer[2], buffer[3]);
              var n := (Number(buffer[0], buffer[1]) + 65532) % 65536;
              var bytes := if n <= 1020 then buffer[4..4 + n] else buffer[4..];
              var t := if id == 4 then PFireEvent else if id == 8 then PAnimState
                       else if id == 10 then PWeapon else PMovement;
              && (outcome.OutsideBuffer? <==> |bytes| < n && ScanMessage(t, bytes, n, 100) == RanOut)
              && (outcome.Queued? ==> SentOn(t, id, bytes, n, idFirst, outcome.packet, m) && fresh(outcome.packet))
  {
    hide Schema, MsgOk, Encode, Sends, Packet, AtHand, DataSize, SentOn;
    TwoBytes(buffer[2..4]);
    HandedBytes(buffer);
    var id := DecodeFixed(buffer[2..4]);
    m := Msg([], []);
    match HandledType(id) {
      case None => outcome := Ignored;
      case Some(t) =>
        if LooksBehind(t, buffer) {
          return OutsideBuffer, m;
        }
        var bytes, size := AtHand(buffer), DataSize(buffer);
        var p;
        p, m := RelayMessage(t, id - 1, bytes, size, idFirst);
        SentReadsBack(t, bytes, size, idFirst, m, id - 1, []);
        SentSize(t, bytes, size, idFirst, m);
        p.isReliable := id == LOGIN || id == WEAPON_STATE;
        SentOnIs(t, id, bytes, size, idFirst, p, m);
        outcome := Queued(p);
    }
  }

  method RelayMessage(t: MessageType, id: nat, bytes: seq<byte>, size: nat, idFirst: bool)
    returns (p: PacketBuffer, ghost m: Msg)
    requires |bytes| <= MAX_PACKETBUF && |bytes| <= size
    requires id < 0x100 && Schema(t)[0] == Field(1, KMessage(PClientId), false)
    ensures MsgOk(t, Default(t)) && Sends(t, bytes, size, idFirst, m) && MsgOk(t, m)
    ensures fresh(p) && Packet(id, Encode(t, m)).Some? && p.Holds(Packet(id, Encode(t, m)).value)
    ensures p.packetIndex == SenderIndex(t, m) && !p.isReliable
  {
    hide Schema, MsgOk, ParseInto, Encode, Frame, Unframe, Packet, Message.ValidWith, Message.ValueWith, LeftBy;
    hide WithId;
    DefaultOk(t);
    var message := new Message(t);
    var ok := message.ParseFromArray(bytes, size, RECURSION_LIMIT);
    ghost var r := message.Value();
    m := if idFirst then WithId(t, r) else r;
    SentReadsBack(t, bytes, size, false, r, id, []);
    SentReadsBack(t, bytes, size, true, WithId(t, r), id, []);
    SentSize(t, bytes, size, false, r);
    SentSize(t, bytes, size, true, WithId(t, r));
    p := SendOn(message, id, idFirst);
  }

  method SendOn(message: Message, id: nat, idFirst: bool) returns (p: PacketBuffer)
    requires message.Valid() && id < 0x100 && Schema(message.t)[0] == Field(1, KMessage(PClientId), false)
    requires forall m :: m == message.Value() || m == WithId(message.t, message.Value()) ==>
               |Encode(message.t, m)| <= INT_MAX && Packet(id, Encode(message.t, m)).Some?
    modifies message`has, message`sub
    ensures var r := old(message.Value());
            var m := if idFirst then WithId(message.t, r) else r;
            && fresh(p) && p.Holds(Packet(id, Encode(message.t, m)).value)
            && p.packetIndex == SenderIndex(message.t, m) && !p.isReliable
  {
    hide Encode, Packet, MsgOk, Message.ValidWith, Message.ValueWith, SenderIndex;
    var sent;
    SenderIsInTheId(message.t, message.Value());
    if idFirst {
      var client := message.Mutable(0);
      FieldCount(PClientId, client.Value());
      sent := SerializePacket(message, id, client.GetScalar(0) % 0x1_0000);
    } else {
      var copy := new Message.Copy(message);
      var client := message.Mutable(0);
      FieldCount(PClientId, client.Value());
      sent := SerializePacket(copy, id, client.GetScalar(0) % 0x1_0000);
    }
    p := sent.value;
  }
}
