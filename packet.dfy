/**
 * The query protocol's datagram framing (`MCQuery.write_packet` and
 * `MCQuery.read_packet` without the socket) and the handshake's challenge token.
 */
module Packet {
  import opened Wrappers
  import opened Bytes
  import opened PyStr
  import opened Decimal

  /** The two bytes every request starts with. */
  const Magic: seq<byte> := [0xFE, 0xFD]

  /** Request types: 9 asks for a challenge token, 0 asks for status. */
  const HandshakeType: byte := 9
  const StatType: byte := 0

  /** The buffer size `read_packet` passes to `recvfrom`; a longer datagram is cut to it. */
  const RecvBufSize: nat := 2048

  /**
   * The datagram `write_packet(kind, payload)` sends while the session's sequence
   * id is `id`; `None` where `struct.pack('>l', id)` raises because `id` does
   * not fit in 32 bits.
   */
  function EncodeRequest(kind: byte, id: int, payload: seq<byte>): (r: Option<seq<byte>>)
    ensures r.Some? <==> InInt32(id)
    ensures r.Some? ==> |r.value| == 7 + |payload|
    ensures r.Some? ==> r.value[..2] == Magic && r.value[2] == kind && r.value[7..] == payload
    ensures r.Some? ==> UnpackInt32BE(r.value[3..7]) == id
  {
    if InInt32(id) then
      var packet := Magic + [kind] + PackInt32BE(id) + payload;
      assert packet[3..7] == PackInt32BE(id);
      UnpackPackInt32(id);
      Some(packet)
    else None
  }

  /** A response: type byte, echoed sequence id, and the rest of the datagram. */
  datatype Header = Header(kind: byte, id: int, payload: seq<byte>)

  /**
   * `read_packet`'s parse of a received buffer; `None` where `buff[0]` or
   * `struct.unpack('>l', buff[1:5])` raises, that is, for fewer than 5 bytes.
   */
  function ParseHeader(buff: seq<byte>): (r: Option<Header>)
    ensures r.Some? <==> |buff| >= 5
    ensures r.Some? ==> InInt32(r.value.id)
    ensures r.Some? ==> [r.value.kind] + PackInt32BE(r.value.id) + r.value.payload == buff
  {
    if |buff| < 5 then None
    else
      PackUnpackInt32(buff[1..5]);
      assert buff == [buff[0]] + buff[1..5] + buff[5..];
      Some(Header(buff[0], UnpackInt32BE(buff[1..5]), buff[5..]))
  }

  /** Reading back a header a server wrote recovers its type, id and payload. */
  lemma ParseHeaderOf(kind: byte, id: int, payload: seq<byte>)
    requires InInt32(id)
    ensures ParseHeader([kind] + PackInt32BE(id) + payload) == Some(Header(kind, id, payload))
  {
    var buff := [kind] + PackInt32BE(id) + payload;
    assert buff[1..5] == PackInt32BE(id);
    assert buff[5..] == payload;
    UnpackPackInt32(id);
  }

  /**
   * The challenge a handshake reply carries: its payload is decimal text whose
   * last byte (a NUL) is dropped, parsed with `int()` and repacked with
   * `struct.pack('>l')`. `None` where `int()` or `struct.pack` raises.
   */
  function ChallengeToken(payload: seq<byte>): (r: Option<seq<byte>>)
    ensures var n := ParseInt(Latin1Decode(DropLast(payload, 1)));
      r.Some? <==> n.Some? && InInt32(n.value)
    ensures r.Some? ==> |r.value| == 4
    ensures r.Some? ==> ParseInt(Latin1Decode(DropLast(payload, 1))) == Some(UnpackInt32BE(r.value))
  {
    match ParseInt(Latin1Decode(DropLast(payload, 1)))
    case None => None
    case Some(n) =>
      if InInt32(n) then UnpackPackInt32(n); Some(PackInt32BE(n)) else None
  }

  /** A server that sends `str(n)` and a NUL hands the client the 4-byte big-endian form of `n`. */
  lemma ChallengeTokenOf(n: int)
    requires InInt32(n)
    ensures IsLatin1(ShowInt(n))
    ensures ChallengeToken(Latin1Encode(ShowInt(n)) + [0]) == Some(PackInt32BE(n))
  {
    var text := Latin1Encode(ShowInt(n));
    assert DropLast(text + [0], 1) == text;
    ParseShow(n);
  }
}
