/** Header-compressed IP packets (HCfB, ARIB STD-B32) carried in TLV
    packets of type CompressedIP, read from compressed_ip.rs. */
module CompressedIp {
  import opened Wire

  datatype HcfbHeaderType =
    | PartialIpv4UdpType        // 0x20
    | Ipv4HeaderIdentifierType  // 0x21
    | PartialIpv6UdpType        // 0x60
    | NoCompressedHeaderType    // 0x61

  function HeaderTypeCode(t: HcfbHeaderType): byte
  {
    match t
    case PartialIpv4UdpType => 0x20
    case Ipv4HeaderIdentifierType => 0x21
    case PartialIpv6UdpType => 0x60
    case NoCompressedHeaderType => 0x61
  }

  /** `HcfbHeaderType::from_repr`. */
  function HeaderTypeFromRepr(b: byte): (r: Option<HcfbHeaderType>)
    ensures r.Some? <==> b == 0x20 || b == 0x21 || b == 0x60 || b == 0x61
    ensures r.Some? ==> HeaderTypeCode(r.value) == b
  {
    if b == 0x20 then Some(PartialIpv4UdpType)
    else if b == 0x21 then Some(Ipv4HeaderIdentifierType)
    else if b == 0x60 then Some(PartialIpv6UdpType)
    else if b == 0x61 then Some(NoCompressedHeaderType)
    else None
  }

  /** An IPv6 header without payload length, followed by a UDP header
      without payload length and checksum. */
  datatype PartialIpv6UdpHeader = PartialIpv6UdpHeader(
    trafficClass: byte,
    flowLabel: int,
    nextHeader: byte,
    hopLimit: byte,
    sourceAddress: Ipv6Addr,
    destinationAddress: Ipv6Addr,
    sourcePort: u16,
    destinationPort: u16)

  predicate ValidIpv6UdpHeader(h: PartialIpv6UdpHeader)
  {
    0 <= h.flowLabel < 0x10_0000
  }

  datatype HcfbHeader = PartialIpv6Udp(ip: PartialIpv6UdpHeader) | NoCompressedHeader

  datatype HcfbPacket = HcfbPacket(contextId: int, sequenceNumber: int, header: HcfbHeader)

  /** Splitting the first big-endian word into version, traffic class and
      flow label is the same as cutting its four bytes at nibble borders. */
  lemma Ipv6FirstWord(s: seq<byte>)
    requires |s| == 4
    ensures Be32(s) / 0x1000_0000 == s[0] / 0x10
    ensures Be32(s) / 0x10_0000 % 0x100 == (s[0] % 0x10) as int * 0x10 + s[1] / 0x10
    ensures Be32(s) % 0x10_0000 == (s[1] % 0x10) as int * 0x1_0000 + s[2] as int * 0x100 + s[3]
  {
    var hi: int, lo: int := s[0] / 0x10, s[0] % 0x10;
    var a: int, b: int := s[1] / 0x10, s[1] % 0x10;
    var low := b * 0x1_0000 + s[2] as int * 0x100 + s[3];
    assert s[..2] == [s[0], s[1]];
    assert s[2..] == [s[2], s[3]];
    assert Be32(s) == (hi * 0x100 + lo * 0x10 + a) * 0x10_0000 + low;
    assert Be32(s) == hi * 0x1000_0000 + ((lo * 0x10 + a) * 0x10_0000 + low);
  }

  /** `PartialIpv6UdpHeader::read`: 42 bytes, version nibble 6. */
  function ReadPartialIpv6UdpHeader(s: seq<byte>): (r: Parsed<PartialIpv6UdpHeader>)
    ensures r.Ok? <==> 42 <= |s| && s[0] / 0x10 == 6
    ensures !r.Ok? ==> r.Panic?
    ensures r.Ok? ==>
      var h := r.value;
      r.rest == s[42..] && ValidIpv6UdpHeader(h) &&
      h.trafficClass == (s[0] % 0x10) as int * 0x10 + s[1] / 0x10 &&
      h.flowLabel == (s[1] % 0x10) as int * 0x1_0000 + s[2] as int * 0x100 + s[3] &&
      h.nextHeader == s[4] && h.hopLimit == s[5] &&
      h.sourceAddress.octets == s[6..22] && h.destinationAddress.octets == s[22..38] &&
      h.sourcePort == Be16(s[38..40]) && h.destinationPort == Be16(s[40..42])
  {
    var (head, s1) :- GetU32(s);
    Ipv6FirstWord(s[..4]);
    var version := head / 0x1000_0000;
    var trafficClass := head / 0x10_0000 % 0x100;
    var flowLabel := head % 0x10_0000;
    if version != 6 then Panic
    else
      var (nextHeader, s2) :- GetU8(s1);
      var (hopLimit, s3) :- GetU8(s2);
      if |s3| < 16 then Panic
      else
        var (src, s4) := GetIpv6Addr(s3);
        if |s4| < 16 then Panic
        else
          var (dst, s5) := GetIpv6Addr(s4);
          var (srcPort, s6) :- GetU16(s5);
          var (dstPort, s7) :- GetU16(s6);
          assert s3 == s[6..] && s4 == s[22..] && s5 == s[38..];
          Ok(PartialIpv6UdpHeader(trafficClass, flowLabel, nextHeader, hopLimit,
                                  src, dst, srcPort, dstPort), s7)
  }

  /** The 42 bytes `ReadPartialIpv6UdpHeader` reads `h` from. */
  function EncodePartialIpv6UdpHeader(h: PartialIpv6UdpHeader): (s: seq<byte>)
    requires ValidIpv6UdpHeader(h)
    ensures |s| == 42
  {
    [0x60 + h.trafficClass / 0x10,
     h.trafficClass % 0x10 * 0x10 + h.flowLabel / 0x1_0000,
     h.flowLabel / 0x100 % 0x100,
     h.flowLabel % 0x100,
     h.nextHeader, h.hopLimit]
    + h.sourceAddress.octets + h.destinationAddress.octets
    + U16Bytes(h.sourcePort) + U16Bytes(h.destinationPort)
  }

  /** The nibble arithmetic of the first four encoded bytes. */
  lemma Ipv6FirstBytes(trafficClass: byte, flowLabel: int)
    requires 0 <= flowLabel < 0x10_0000
    ensures var b0, b1 := 0x60 + trafficClass / 0x10, trafficClass % 0x10 * 0x10 + flowLabel / 0x1_0000;
      b0 / 0x10 == 6 && b0 % 0x10 * 0x10 + b1 / 0x10 == trafficClass &&
      b1 % 0x10 * 0x1_0000 + (flowLabel / 0x100 % 0x100) * 0x100 + flowLabel % 0x100 == flowLabel
  {
  }

  lemma ReadEncodePartialIpv6UdpHeader(h: PartialIpv6UdpHeader, rest: seq<byte>)
    requires ValidIpv6UdpHeader(h)
    ensures ReadPartialIpv6UdpHeader(EncodePartialIpv6UdpHeader(h) + rest) == Ok(h, rest)
  {
    var s := EncodePartialIpv6UdpHeader(h) + rest;
    Ipv6FirstBytes(h.trafficClass, h.flowLabel);
    assert s[0] == 0x60 + h.trafficClass / 0x10;
    assert s[1] == h.trafficClass % 0x10 * 0x10 + h.flowLabel / 0x1_0000;
    assert s[2] == h.flowLabel / 0x100 % 0x100 && s[3] == h.flowLabel % 0x100;
    assert s[6..22] == h.sourceAddress.octets;
    assert s[22..38] == h.destinationAddress.octets;
    assert s[38..40] == U16Bytes(h.sourcePort);
    assert s[40..42] == U16Bytes(h.destinationPort);
    assert s[42..] == rest;
    var r := ReadPartialIpv6UdpHeader(s);
    assert r.Ok?;
    var g := r.value;
    assert g.trafficClass == h.trafficClass;
    assert g.flowLabel == h.flowLabel;
    assert g.sourceAddress == h.sourceAddress;
    assert g.destinationAddress == h.destinationAddress;
  }

  /** `HcfbPacket::read`.  Header types 0x20 and 0x21 reach
      `unimplemented!`, any byte that is no header type fails its `unwrap`. */
  function ReadHcfbPacket(s: seq<byte>): (r: Parsed<HcfbPacket>)
    ensures !r.Err?
    ensures r.Ok? <==>
      3 <= |s| && (s[2] == 0x61 || (s[2] == 0x60 && 45 <= |s| && s[3] / 0x10 == 6))
    ensures r.Ok? ==>
      r.value.contextId == s[0] as int * 0x10 + s[1] / 0x10 &&
      r.value.sequenceNumber == s[1] % 0x10
    ensures r.Ok? && s[2] == 0x61 ==> r.value.header == NoCompressedHeader && r.rest == s[3..]
    ensures r.Ok? && s[2] == 0x60 ==>
      r.value.header.PartialIpv6Udp? && r.rest == s[45..] &&
      ReadPartialIpv6UdpHeader(s[3..]) == Ok(r.value.header.ip, r.rest)
  {
    var (head, s1) :- GetU16(s);
    var contextId := head / 0x10;
    var sequenceNumber := head % 0x10;
    var (code, s2) :- GetU8(s1);
    match HeaderTypeFromRepr(code)
    case None => Panic
    case Some(PartialIpv6UdpType) =>
      var (ip, s3) :- ReadPartialIpv6UdpHeader(s2);
      assert s2 == s[3..];
      Ok(HcfbPacket(contextId, sequenceNumber, PartialIpv6Udp(ip)), s3)
    case Some(NoCompressedHeaderType) =>
      Ok(HcfbPacket(contextId, sequenceNumber, NoCompressedHeader), s2)
    case Some(_) => Panic
  }

  predicate ValidHcfbPacket(p: HcfbPacket)
  {
    0 <= p.contextId < 0x1000 && 0 <= p.sequenceNumber < 0x10 &&
    (p.header.PartialIpv6Udp? ==> ValidIpv6UdpHeader(p.header.ip))
  }

  function EncodeHcfbPacket(p: HcfbPacket): seq<byte>
    requires ValidHcfbPacket(p)
  {
    U16Bytes(p.contextId * 0x10 + p.sequenceNumber)
    + match p.header
      case PartialIpv6Udp(ip) => [0x60] + EncodePartialIpv6UdpHeader(ip)
      case NoCompressedHeader => [0x61]
  }

  lemma ReadEncodeHcfbPacket(p: HcfbPacket, rest: seq<byte>)
    requires ValidHcfbPacket(p)
    ensures ReadHcfbPacket(EncodeHcfbPacket(p) + rest) == Ok(p, rest)
  {
    var s := EncodeHcfbPacket(p) + rest;
    var head := p.contextId * 0x10 + p.sequenceNumber;
    assert head / 0x10 == p.contextId && head % 0x10 == p.sequenceNumber;
    assert s[..2] == U16Bytes(head);
    var s2 := s[3..];
    match p.header
    case PartialIpv6Udp(ip) =>
      assert s[2] == 0x60;
      assert s2 == EncodePartialIpv6UdpHeader(ip) + rest;
      ReadEncodePartialIpv6UdpHeader(ip, rest);
    case NoCompressedHeader =>
      assert s[2] == 0x61;
      assert s2 == rest;
  }
}
