/** TLV packets (ARIB STD-B32, ITU-R BT.1869): the outer framing of the
    broadcast stream, read from tlv.rs. */
module Tlv {
  import opened Wire

  /** Sync byte every TLV packet starts with. */
  const TLV_SYNC: byte := 0x7F

  datatype TlvPacketType = IPv4 | IPv6 | CompressedIP | TransmissionControlSignal | Null

  function PacketTypeCode(t: TlvPacketType): byte
  {
    match t
    case IPv4 => 0x01
    case IPv6 => 0x02
    case CompressedIP => 0x03
    case TransmissionControlSignal => 0xFE
    case Null => 0xFF
  }

  /** `TlvPacketType::from_repr`. */
  function PacketTypeFromRepr(b: byte): (r: Option<TlvPacketType>)
    ensures r.Some? <==> b == 0x01 || b == 0x02 || b == 0x03 || b == 0xFE || b == 0xFF
    ensures r.Some? ==> PacketTypeCode(r.value) == b
  {
    if b == 0x01 then Some(IPv4)
    else if b == 0x02 then Some(IPv6)
    else if b == 0x03 then Some(CompressedIP)
    else if b == 0xFE then Some(TransmissionControlSignal)
    else if b == 0xFF then Some(Null)
    else None
  }

  lemma PacketTypeRoundTrip(t: TlvPacketType)
    ensures PacketTypeFromRepr(PacketTypeCode(t)) == Some(t)
  {
  }

  datatype TlvPacket = TlvPacket(packetType: TlvPacketType, data: seq<byte>)

  /** The four header bytes of a packet: sync, type, big-endian length. */
  function Header(p: TlvPacket): seq<byte>
    requires |p.data| < 0x1_0000
  {
    [TLV_SYNC, PacketTypeCode(p.packetType)] + U16Bytes(|p.data|)
  }

  /** A packet as it appears on the wire. */
  function Encode(p: TlvPacket): (s: seq<byte>)
    requires |p.data| < 0x1_0000
    ensures |s| == 4 + |p.data|
  {
    Header(p) + p.data
  }

  /** `TlvPacket::try_read`.  `Ok(None)` is a packet of a type this reader
      does not know: only its sync and type bytes are consumed. */
  function TryRead(s: seq<byte>): (r: Parsed<Option<TlvPacket>>)
    // a wrong sync byte is the only panic
    ensures r.Panic? <==> 1 <= |s| && s[0] != TLV_SYNC
    // an unknown type consumes exactly two bytes
    ensures r.Ok? && r.value.None? <==>
      2 <= |s| && s[0] == TLV_SYNC && PacketTypeFromRepr(s[1]).None?
    ensures r.Ok? && r.value.None? ==> r.rest == s[2..]
    // a known type carries exactly the announced number of bytes
    ensures r.Ok? && r.value.Some? <==>
      4 <= |s| && s[0] == TLV_SYNC && PacketTypeFromRepr(s[1]).Some? && 4 + Be16(s[2..4]) <= |s|
    ensures r.Ok? && r.value.Some? ==>
      |r.value.value.data| == Be16(s[2..4]) &&
      PacketTypeCode(r.value.value.packetType) == s[1] &&
      s == Encode(r.value.value) + r.rest
    // every other outcome is a short read
    ensures r.Err? ==> r.kind == UnexpectedEof
  {
    var (head, s1) :- ReadU8(s);
    if head != TLV_SYNC then Panic
    else
      var (code, s2) :- ReadU8(s1);
      match PacketTypeFromRepr(code)
      case None => Ok(None, s2)
      case Some(t) =>
        var (len, s3) :- ReadU16(s2);
        assert s2[..2] == s[2..4];
        var (data, s4) :- ReadExact(s3, len);
        var p := TlvPacket(t, data);
        U16BytesOfBe16(s[2..4]);
        assert s == Header(p) + data + s4 by {
          assert s == [s[0], s[1]] + s[2..4] + s3;
        }
        Ok(Some(p), s4)
  }

  /** Reading an encoded packet gives it back and leaves what follows. */
  lemma TryReadEncode(p: TlvPacket, rest: seq<byte>)
    requires |p.data| < 0x1_0000
    ensures TryRead(Encode(p) + rest) == Ok(Some(p), rest)
  {
    var s := Encode(p) + rest;
    assert s[0] == TLV_SYNC && s[1] == PacketTypeCode(p.packetType);
    assert s[2..4] == U16Bytes(|p.data|);
    PacketTypeRoundTrip(p.packetType);
    var r := TryRead(s);
    assert r.Ok? && r.value.Some?;
    assert |r.value.value.data| == |p.data|;
    assert Encode(r.value.value) + r.rest == Encode(p) + rest;
    assert r.value.value.data == p.data by {
      assert r.value.value.data == s[4..4 + |p.data|];
    }
  }
}
