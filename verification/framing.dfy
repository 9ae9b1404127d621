/** The packet framer (section Protocol::Packet of the client/server
    protocol): a 3-byte little-endian payload length, a 1-byte sequence
    number, then the payload. encode_msg_begin reserves the 4 header bytes at
    the start of an empty buffer; encode_msg_end back-fills them once the
    payload has been appended. */
module Framing {
  import opened Wrappers
  import opened Primitives

  const HEADER_SIZE: nat := 4

  /** A length field of 0xFFFFFF announces that another packet continues
      the payload, so a payload sent in a single packet is one byte shorter. */
  const CONTINUED_LENGTH: nat := 0xFF_FFFF

  /** The largest payload a single packet carries. */
  const MAX_PAYLOAD: nat := CONTINUED_LENGTH - 1

  /** A packet as a client sees it once the header has been read. */
  datatype Packet = Packet(seqNo: byte, payload: Bytes)

  /** encode_msg_begin: reserves the header with placeholder bytes. */
  function MsgBegin(buffer: Bytes): (r: Bytes)
    ensures |r| == |buffer| + HEADER_SIZE && r[..|buffer|] == buffer
  {
    buffer + [0, 0, 0, 0]
  }

  /** encode_msg_end: writes the payload length (everything after the
      header) and the sequence number into the reserved header. */
  function MsgEnd(buffer: Bytes, seqNo: byte): (r: Bytes)
    requires HEADER_SIZE <= |buffer| <= HEADER_SIZE + MAX_PAYLOAD
    ensures |r| == |buffer| && r[HEADER_SIZE..] == buffer[HEADER_SIZE..]
    ensures DecodeLittleEndian(r[..3]) == |buffer| - HEADER_SIZE
    ensures r[3] == seqNo
  {
    var len := |buffer| - HEADER_SIZE;
    var r := LittleEndian(len, 3) + [seqNo] + buffer[HEADER_SIZE..];
    assert r[..3] == LittleEndian(len, 3);
    assert Pow256(3) == 0x100_0000;
    LittleEndianExact(len, 3);
    r
  }

  /** Whatever the reserved bytes held, back-filling overwrites all of them. */
  lemma MsgEndIgnoresPlaceholder(h1: Bytes, h2: Bytes, payload: Bytes, seqNo: byte)
    requires |h1| == HEADER_SIZE && |h2| == HEADER_SIZE && |payload| <= MAX_PAYLOAD
    ensures MsgEnd(h1 + payload, seqNo) == MsgEnd(h2 + payload, seqNo)
  {
    assert (h1 + payload)[HEADER_SIZE..] == payload == (h2 + payload)[HEADER_SIZE..];
  }

  /** Reads the header of a byte string holding exactly one packet; a
      packet whose length field says the payload continues in the next one
      is not a whole message. */
  function ParsePacket(bytes: Bytes): Option<Packet>
  {
    if |bytes| < HEADER_SIZE then None
    else if DecodeLittleEndian(bytes[..3]) == CONTINUED_LENGTH then None
    else if DecodeLittleEndian(bytes[..3]) != |bytes| - HEADER_SIZE then None
    else Some(Packet(bytes[3], bytes[HEADER_SIZE..]))
  }

  /** The length field ff ff ff is never read as a complete packet. */
  lemma ContinuedPacketRejected(bytes: Bytes)
    requires |bytes| >= HEADER_SIZE && bytes[0] == 0xFF && bytes[1] == 0xFF && bytes[2] == 0xFF
    ensures ParsePacket(bytes) == None
  {
    assert bytes[..3] == [0xFF, 0xFF, 0xFF];
    assert DecodeLittleEndian([0xFF]) == 0xFF;
    assert DecodeLittleEndian([0xFF, 0xFF]) == 0xFFFF by {
      assert [0xFF, 0xFF][1..] == [0xFF];
    }
    assert DecodeLittleEndian([0xFF, 0xFF, 0xFF]) == 0xFF_FFFF by {
      assert [0xFF, 0xFF, 0xFF][1..] == [0xFF, 0xFF];
    }
  }

  /** begin, append the payload, end: the framed packet every encoder returns. */
  function Frame(seqNo: byte, payload: Bytes): (r: Bytes)
    requires |payload| <= MAX_PAYLOAD
    ensures |r| == |payload| + HEADER_SIZE
    ensures DecodeLittleEndian(r[..3]) == |r| - HEADER_SIZE && r[3] == seqNo
    ensures ParsePacket(r) == Some(Packet(seqNo, payload))
  {
    MsgEnd(AppendBuffer(MsgBegin([]), payload), seqNo)
  }

  /** The header is the 3-byte little-endian payload length and the sequence number. */
  lemma FrameLayout(seqNo: byte, payload: Bytes)
    requires |payload| <= MAX_PAYLOAD
    ensures Frame(seqNo, payload) == LittleEndian(|payload|, 3) + [seqNo] + payload
  {
    assert ([0, 0, 0, 0] + payload)[HEADER_SIZE..] == payload;
  }

  /** Every byte string the parser accepts is the frame of what it read. */
  lemma ParsePacketFrame(bytes: Bytes)
    requires ParsePacket(bytes).Some?
    ensures |ParsePacket(bytes).value.payload| <= MAX_PAYLOAD
    ensures Frame(ParsePacket(bytes).value.seqNo, ParsePacket(bytes).value.payload) == bytes
  {
    var p := ParsePacket(bytes).value;
    assert Pow256(3) == 0x100_0000;
    DecodeLittleEndianRoundTrip(bytes[..3]);
    var r := Frame(p.seqNo, p.payload);
    assert r[..3] == LittleEndian(|p.payload|, 3) == bytes[..3];
    assert r == r[..3] + [r[3]] + r[HEADER_SIZE..];
    assert bytes == bytes[..3] + [bytes[3]] + bytes[HEADER_SIZE..];
  }

  /** Distinct packets are framed into distinct byte strings. */
  lemma FrameInjective(s1: byte, p1: Bytes, s2: byte, p2: Bytes)
    requires |p1| <= MAX_PAYLOAD && |p2| <= MAX_PAYLOAD
    requires Frame(s1, p1) == Frame(s2, p2)
    ensures s1 == s2 && p1 == p2
  {
  }
}
