/** The packets game messages travel in: a header with a 16-bit data length, and a buffer
    of fixed size that the message is serialized into. */
module Packets {
  import opened Wire
  import opened Layouts
  import opened Messages
  import opened NormalForm
  import opened RoundTrip
  import opened Streams
  import opened MessageObjects
  import opened GameMessages

  const PACKET_MAX_SIZE: nat := 4096 * 4
  const PACKET_HEADER_SIZE: nat := 8
  const PACKET_MAX_DATA_SIZE: nat := PACKET_MAX_SIZE - PACKET_HEADER_SIZE
  const TWO_16: nat := 0x1_0000

  /** The header, and the whole buffer behind it. */
  datatype Header = Header(uin: nat, cmd: nat, datalen: nat)
  datatype Packet = Packet(header: Header, protobuf: seq<byte>)

  function Zeros(n: nat): (s: seq<byte>)
    ensures |s| == n
  {
    seq(n, _ => 0)
  }

  /** The packet a message is sent in.  The length is cut to 16 bits, and a message that
      does not fit leaves the buffer as it was cleared. */
  ghost function Framed(d: Layout, m: Msg, cmd: nat, uin: nat): (p: Packet)
    requires Numbered(d) && MsgOk(d, m)
    ensures |p.protobuf| == PACKET_MAX_DATA_SIZE
  {
    var size := Size(d, m);
    var header := Header(uin, cmd, size % TWO_16);
    if size < PACKET_MAX_DATA_SIZE then
      SizeExact(d, m);
      Packet(header, Placed(Zeros(PACKET_MAX_DATA_SIZE), 0, Serialize(d, m)))
    else
      Packet(header, Zeros(PACKET_MAX_DATA_SIZE))
  }

  datatype Delivery =
    | Dropped              // the framing refuses the length
    | Rejected             // the message does not parse
    | Accepted(cmd: nat, uin: nat, msg: Msg)

  function Received(d: Layout, p: Packet): Delivery
    requires |p.protobuf| == PACKET_MAX_DATA_SIZE
  {
    if p.header.datalen >= PACKET_MAX_DATA_SIZE then Dropped
    else
      var r := Parse(d, Empty(d), p.protobuf[..p.header.datalen]);
      if r.outcome == Complete then Accepted(p.header.cmd, p.header.uin, r.msg) else Rejected
  }

  lemma ZerosDoNotParse(d: Layout, n: nat)
    ensures Parse(d, Empty(d), Zeros(n)) == Parsed(Empty(d), if n == 0 then Complete else ZeroTag)
  {
    if n > 0 {
      assert ReadVarint32(Zeros(n)) == Varint(0, 1);
    }
  }

  lemma FramedData(d: Layout, m: Msg, cmd: nat, uin: nat)
    requires Numbered(d) && MsgOk(d, m) && Size(d, m) < PACKET_MAX_DATA_SIZE
    ensures Framed(d, m, cmd, uin).header.datalen == Size(d, m)
    ensures Framed(d, m, cmd, uin).protobuf[..Size(d, m)] == Serialize(d, m)
  {
    SizeExact(d, m);
  }

  /** A message below the buffer's size arrives as it was sent. */
  lemma SmallArrives(d: Layout, m: Msg, cmd: nat, uin: nat)
    requires Numbered(d) && MsgOk(d, m) && Size(d, m) < 16376
    ensures Received(d, Framed(d, m, cmd, uin)) == Accepted(cmd, uin, m)
  {
    FramedData(d, m, cmd, uin);
    ParseInvertsSerialize(d, m);
  }

  /** What becomes of a larger one depends on the low 16 bits of its size alone; when
      they are zero, an empty message arrives in its place. */
  lemma LargeIsLost(d: Layout, m: Msg, cmd: nat, uin: nat)
    requires Numbered(d) && MsgOk(d, m) && Size(d, m) >= 16376
    ensures var low := Size(d, m) % 65536;
      Received(d, Framed(d, m, cmd, uin)) ==
        if low >= 16376 then Dropped
        else if low > 0 then Rejected
        else Accepted(cmd, uin, Empty(d))
  {
    var low := Size(d, m) % TWO_16;
    if low < PACKET_MAX_DATA_SIZE {
      assert Framed(d, m, cmd, uin).protobuf[..low] == Zeros(low);
      ZerosDoNotParse(d, low);
    }
  }

  /** A message arrives as it was sent, with its command and user id, exactly when its size
      is below that of the buffer. */
  lemma ArrivesIffItFits(d: Layout, m: Msg, cmd: nat, uin: nat)
    requires Numbered(d) && MsgOk(d, m)
    ensures Received(d, Framed(d, m, cmd, uin)) == Accepted(cmd, uin, m) <==> Size(d, m) < 16376
  {
    if Size(d, m) < PACKET_MAX_DATA_SIZE {
      SmallArrives(d, m, cmd, uin);
    } else {
      LargeIsLost(d, m, cmd, uin);
      EmptyOk(d);
    }
  }

  // ------------------------------------------------------------ lists that are lost

  function ApplyList(ids: seq<int>, scores: seq<int>): Msg
  {
    Msg([Ints(ids), Ints(scores)], [])
  }

  /** A list of applicants whose ids and scores take the most bytes arrives up to 963 of
      them; with one more its 16388 bytes are dropped. */
  lemma LongApplyList(ids: seq<int>, scores: seq<int>, cmd: nat, uin: nat)
    requires |ids| == |scores|
    requires forall i :: 0 <= i < |ids| ==> 0x1000_0000 <= ids[i] < TWO_32
    requires forall i :: 0 <= i < |scores| ==> -TWO_63 <= scores[i] < 0
    ensures var d, m := BaccaratApplyList, ApplyList(ids, scores);
      && Numbered(d) && MsgOk(d, m) && Size(d, m) == 17 * |ids|
      && (Received(d, Framed(d, m, cmd, uin)) == Accepted(cmd, uin, m) <==> |ids| <= 963)
      && (|ids| == 964 ==> Received(d, Framed(d, m, cmd, uin)) == Dropped)
  {
    var d, m := BaccaratApplyList, ApplyList(ids, scores);
    ApplyListWellFormed();
    LongListSize(ids, scores);
    ArrivesIffItFits(d, m, cmd, uin);
    if |ids| == 964 {
      LargeIsLost(d, m, cmd, uin);
    }
  }

  lemma LongListSize(ids: seq<int>, scores: seq<int>)
    requires |ids| == |scores|
    requires forall i :: 0 <= i < |ids| ==> 0x1000_0000 <= ids[i] < TWO_32
    requires forall i :: 0 <= i < |scores| ==> -TWO_63 <= scores[i] < 0
    ensures MsgOk(BaccaratApplyList, ApplyList(ids, scores))
    ensures Size(BaccaratApplyList, ApplyList(ids, scores)) == 17 * |ids|
  {
    ApplyListBound(ids, scores);
  }

  /** 32768 one-byte ids make exactly 2^16 bytes: the list arrives, and is empty. */
  lemma EmptiedApplyList(ids: seq<int>, cmd: nat, uin: nat)
    requires |ids| == 32768 && forall i :: 0 <= i < |ids| ==> 0 <= ids[i] < 128
    ensures var d, m := BaccaratApplyList, ApplyList(ids, []);
      && Numbered(d) && MsgOk(d, m) && Size(d, m) == 65536
      && Received(d, Framed(d, m, cmd, uin)) == Accepted(cmd, uin, Empty(d)) && m != Empty(d)
  {
    var d, m := BaccaratApplyList, ApplyList(ids, []);
    ApplyListWellFormed();
    OneByteIds(ids);
    ApplyListSize(ids, []);
    LargeIsLost(d, m, cmd, uin);
    EmptyOk(d);
  }

  lemma {:induction false} OneByteIds(ids: seq<int>)
    requires forall i :: 0 <= i < |ids| ==> 0 <= ids[i] < 128
    ensures IntsSize(UInt32, ids) == |ids|
  {
    if ids != [] {
      OneByteIds(ids[..|ids| - 1]);
    }
  }

  /** SendProtobufMsg, up to the bytes it hands to the network. */
  method SendProtobufMsg(msg: Message, cmd: nat, uin: nat) returns (packet: Packet)
    requires msg.Valid() && WellFormed(msg.layout) && cmd < 65536 && uin < TWO_32
    modifies msg.Repr`cachedSize
    ensures MsgOk(msg.layout, msg.Value()) && packet == Framed(msg.layout, msg.Value(), cmd, uin)
    ensures packet.header.cmd == cmd && packet.header.uin == uin
    ensures packet.header.datalen == Size(msg.layout, msg.Value()) % 65536
    ensures Holds(packet.protobuf, msg.layout, msg.Value())
  {
    var protobuf := new byte[PACKET_MAX_DATA_SIZE](_ => 0);
    assert protobuf[..] == Zeros(PACKET_MAX_DATA_SIZE);
    var fits := msg.SerializeToArray(protobuf, PACKET_MAX_DATA_SIZE - 1);
    var size := msg.ByteSize();
    packet := Packet(Header(uin, cmd, size % TWO_16), protobuf[..]);
    FramedHolds(msg.layout, msg.Value(), cmd, uin);
  }

  /** A buffer of 16376 bytes with the encoding of `m` in front if it fits, and zeros behind. */
  ghost predicate Holds(buffer: seq<byte>, d: Layout, m: Msg)
    requires MsgOk(d, m)
  {
    var n := if Size(d, m) < 16376 then Size(d, m) else 0;
    && |buffer| == 16376
    && (n > 0 ==> buffer[..n] == Serialize(d, m))
    && forall i :: n <= i < 16376 ==> buffer[i] == 0
  }

  lemma FramedHolds(d: Layout, m: Msg, cmd: nat, uin: nat)
    requires Numbered(d) && MsgOk(d, m)
    ensures Holds(Framed(d, m, cmd, uin).protobuf, d, m)
  {
    if Size(d, m) < PACKET_MAX_DATA_SIZE {
      SizeExact(d, m);
    }
  }

  /** The receiving side: GetProtobufPacketLen's check, then the handler of the command,
      with PARSE_MSG_FROM_ARRAY. */
  method HandleClientMsg(packet: Packet, msg: Message) returns (handled: bool, cmd: nat, uin: nat)
    requires |packet.protobuf| == PACKET_MAX_DATA_SIZE
    requires msg.Valid() && WellFormed(msg.layout)
    modifies msg
    ensures msg.Valid()
    ensures handled <==> Received(msg.layout, packet).Accepted?
    ensures handled ==> Received(msg.layout, packet) == Accepted(cmd, uin, msg.Value())
    ensures handled ==> cmd == packet.header.cmd && uin == packet.header.uin
  {
    cmd, uin := packet.header.cmd, packet.header.uin;
    if packet.header.datalen >= PACKET_MAX_DATA_SIZE {
      return false, cmd, uin;
    }
    handled := msg.ParseFromArray(packet.protobuf[..packet.header.datalen]);
  }
}
