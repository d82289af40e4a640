/** MMTP packets and their payloads (clause 9 of ISO/IEC 23008-1, as
    profiled by ARIB STD-B60), read from mmtp.rs. */
module Mmtp {
  import opened Wire

  // ---------------------------------------------------------------------
  // MmtpPacket

  datatype FecType = NonProtected | SourcePacketProtected | RepairPacketProtected

  function FecCode(f: FecType): int
  {
    match f
    case NonProtected => 0
    case SourcePacketProtected => 1
    case RepairPacketProtected => 2
  }

  /** `FecType::from_repr` on a two-bit field; only 3 has no variant. */
  function FecFromCode(c: int): (f: FecType)
    requires 0 <= c < 3
    ensures FecCode(f) == c
  {
    if c == 0 then NonProtected else if c == 1 then SourcePacketProtected else RepairPacketProtected
  }

  datatype MmtpExtensionHeader = MmtpExtensionHeader(headerType: u16, data: seq<byte>)

  datatype MmtpPacket = MmtpPacket(
    fecType: FecType,
    rapFlag: bool,
    payloadType: int,
    packetId: u16,
    deliveryTimestamp: u32,
    packetSequenceNumber: u32,
    packetCounter: Option<u32>,
    extensionHeader: Option<MmtpExtensionHeader>,
    payload: seq<byte>)

  /** Fields a packet read off the wire always satisfies. */
  predicate ValidMmtpPacket(p: MmtpPacket)
  {
    0 <= p.payloadType < 0x40 &&
    (p.extensionHeader.Some? ==> |p.extensionHeader.value.data| < 0x1_0000)
  }

  /** Bytes in front of the payload: 12 fixed bytes, the packet counter and
      the extension header. */
  function HeaderLength(p: MmtpPacket): int
  {
    12 + (if p.packetCounter.Some? then 4 else 0)
       + (if p.extensionHeader.Some? then 4 + |p.extensionHeader.value.data| else 0)
  }

  /** Header bytes up to the extension data, as announced by the flags of the
      first byte. */
  function FixedHeaderLength(flags: byte): int
  {
    12 + (if flags / 0x20 % 2 == 1 then 4 else 0) + (if flags / 2 % 2 == 1 then 4 else 0)
  }

  function ReadPacketCounter(s: seq<byte>, present: bool): (r: Parsed<Option<u32>>)
    ensures r.Ok? <==> !present || 4 <= |s|
    ensures !r.Ok? ==> r.Panic?
    ensures r.Ok? ==> (r.value.Some? <==> present)
    ensures r.Ok? && present ==> r.value.value == Be32(s[..4]) && r.rest == s[4..]
    ensures r.Ok? && !present ==> r.rest == s
  {
    if present then
      var (c, rest) :- GetU32(s);
      Ok(Some(c), rest)
    else Ok(None, s)
  }

  function ReadExtensionHeader(s: seq<byte>, present: bool): (r: Parsed<Option<MmtpExtensionHeader>>)
    ensures r.Ok? <==> !present || (4 <= |s| && 4 + Be16(s[2..4]) <= |s|)
    ensures !r.Ok? ==> r.Panic?
    ensures r.Ok? ==> (r.value.Some? <==> present)
    ensures r.Ok? && present ==>
      r.value.value.headerType == Be16(s[..2]) &&
      r.value.value.data == s[4..4 + Be16(s[2..4])] && r.rest == s[4 + Be16(s[2..4])..]
    ensures r.Ok? && !present ==> r.rest == s
  {
    if present then
      var (headerType, s1) :- GetU16(s);
      var (dataLength, s2) :- GetU16(s1);
      assert s1[..2] == s[2..4] && s2 == s[4..];
      var (data, s3) :- SplitTo(s2, dataLength);
      Ok(Some(MmtpExtensionHeader(headerType, data)), s3)
    else Ok(None, s)
  }

  /** `MmtpPacket::read`.  Every short read panics (`Bytes::get_*`,
      `split_to`), as do the FEC type 3 (`unwrap`) and a version other than
      0 (`assert_eq!`).  The payload is everything after the header; the
      Rust code clones it and leaves the cursor on it, so it is also the
      unread rest. */
  function ReadMmtpPacket(s: seq<byte>): (r: Parsed<MmtpPacket>)
    ensures !r.Err?
    ensures r.Ok? ==>
      ValidMmtpPacket(r.value) && HeaderLength(r.value) <= |s| &&
      r.value.payload == s[HeaderLength(r.value)..] && r.rest == r.value.payload
  {
    if |s| < 1 then Panic
    else
      var head := s[0];
      var version := head / 0x40;
      var packetCounterFlag := head / 0x20 % 2 == 1;
      var fecCode := head / 8 % 4;
      var extensionHeaderFlag := head / 2 % 2 == 1;
      var rapFlag := head % 2 == 1;
      if fecCode == 3 || version != 0 then Panic
      // the second byte, packet_id, delivery_timestamp, packet_sequence_number
      else if |s| < 12 then Panic
      else
        var (packetCounter, s6) :- ReadPacketCounter(s[12..], packetCounterFlag);
        var (extensionHeader, s7) :- ReadExtensionHeader(s6, extensionHeaderFlag);
        Ok(MmtpPacket(FecFromCode(fecCode), rapFlag, s[1] % 0x40, Be16(s[2..4]),
                      Be32(s[4..8]), Be32(s[8..12]), packetCounter,
                      extensionHeader, s7), s7)
  }

  /** Exactly the buffers whose flags are supported and that hold the whole
      header are read; every other buffer panics. */
  lemma ReadMmtpPacketAccepts(s: seq<byte>)
    ensures ReadMmtpPacket(s).Ok? <==>
      1 <= |s| && s[0] / 0x40 == 0 && s[0] / 8 % 4 != 3 && FixedHeaderLength(s[0]) <= |s| &&
      (s[0] / 2 % 2 == 1 ==>
        FixedHeaderLength(s[0]) + Be16(s[FixedHeaderLength(s[0]) - 2..FixedHeaderLength(s[0])]) <= |s|)
  {
    if 12 <= |s| && s[0] / 0x40 == 0 && s[0] / 8 % 4 != 3 {
      var present := s[0] / 0x20 % 2 == 1;
      var c := ReadPacketCounter(s[12..], present);
      if c.Ok? {
        var k := FixedHeaderLength(s[0]);
        assert c.rest == s[if present then 16 else 12..];
        if s[0] / 2 % 2 == 1 && k <= |s| {
          assert c.rest[2..4] == s[k - 2..k];
        }
      }
    }
  }

  /** Where each field of a packet read from `s` comes from. */
  lemma ReadMmtpPacketFields(s: seq<byte>)
    requires ReadMmtpPacket(s).Ok?
    ensures
      var p := ReadMmtpPacket(s).value;
      FecCode(p.fecType) == s[0] / 8 % 4 &&
      (p.packetCounter.Some? <==> s[0] / 0x20 % 2 == 1) &&
      (p.extensionHeader.Some? <==> s[0] / 2 % 2 == 1) &&
      (p.rapFlag <==> s[0] % 2 == 1) &&
      p.payloadType == s[1] % 0x40 &&
      p.packetId == Be16(s[2..4]) &&
      p.deliveryTimestamp == Be32(s[4..8]) &&
      p.packetSequenceNumber == Be32(s[8..12]) &&
      (p.packetCounter.Some? ==> p.packetCounter.value == Be32(s[12..16]))
  {
    assert s[0] / 0x20 % 2 == 1 ==> s[12..][..4] == s[12..16];
  }

  /** The flag byte that announces the optional parts of `p`. */
  function FlagByte(p: MmtpPacket): byte
  {
    (if p.packetCounter.Some? then 0x20 else 0) + FecCode(p.fecType) * 8
    + (if p.extensionHeader.Some? then 2 else 0) + (if p.rapFlag then 1 else 0)
  }

  lemma FlagByteFields(p: MmtpPacket)
    ensures FlagByte(p) / 0x40 == 0
    ensures FlagByte(p) / 8 % 4 == FecCode(p.fecType)
    ensures FlagByte(p) / 0x20 % 2 == 1 <==> p.packetCounter.Some?
    ensures FlagByte(p) / 2 % 2 == 1 <==> p.extensionHeader.Some?
    ensures FlagByte(p) % 2 == 1 <==> p.rapFlag
  {
  }

  function EncodeCounter(c: Option<u32>): (s: seq<byte>)
    ensures |s| == (if c.Some? then 4 else 0)
  {
    if c.Some? then U32Bytes(c.value) else []
  }

  function EncodeExtension(e: Option<MmtpExtensionHeader>): (s: seq<byte>)
    requires e.Some? ==> |e.value.data| < 0x1_0000
    ensures |s| == (if e.Some? then 4 + |e.value.data| else 0)
  {
    if e.Some? then U16Bytes(e.value.headerType) + U16Bytes(|e.value.data|) + e.value.data else []
  }

  function EncodeMmtpPacket(p: MmtpPacket): (s: seq<byte>)
    requires ValidMmtpPacket(p)
    ensures |s| == HeaderLength(p) + |p.payload|
  {
    EncodeFixedHeader(p) + (EncodeCounter(p.packetCounter) + (EncodeExtension(p.extensionHeader) + p.payload))
  }

  /** The twelve bytes every packet starts with. */
  function EncodeFixedHeader(p: MmtpPacket): (s: seq<byte>)
    requires ValidMmtpPacket(p)
    ensures |s| == 12
  {
    [FlagByte(p), p.payloadType] + U16Bytes(p.packetId)
    + U32Bytes(p.deliveryTimestamp) + U32Bytes(p.packetSequenceNumber)
  }

  lemma ReadEncodeCounter(c: Option<u32>, rest: seq<byte>)
    ensures ReadPacketCounter(EncodeCounter(c) + rest, c.Some?) == Ok(c, rest)
  {
    if c.Some? {
      assert (EncodeCounter(c) + rest)[..4] == U32Bytes(c.value);
      assert (EncodeCounter(c) + rest)[4..] == rest;
    }
  }

  lemma ReadEncodeExtension(e: Option<MmtpExtensionHeader>, rest: seq<byte>)
    requires e.Some? ==> |e.value.data| < 0x1_0000
    ensures ReadExtensionHeader(EncodeExtension(e) + rest, e.Some?) == Ok(e, rest)
  {
    if e.Some? {
      var s := EncodeExtension(e) + rest;
      var d := e.value.data;
      assert s[..2] == U16Bytes(e.value.headerType);
      assert s[2..4] == U16Bytes(|d|);
      assert s[4..4 + |d|] == d;
      assert s[4 + |d|..] == rest;
    }
  }

  /** Reading any buffer laid out as the encoding of `p`. */
  lemma ReadMmtpPacketLaidOut(s: seq<byte>, p: MmtpPacket)
    requires ValidMmtpPacket(p) && 12 <= |s|
    requires s[0] == FlagByte(p) && s[1] == p.payloadType
    requires s[2..4] == U16Bytes(p.packetId)
    requires s[4..8] == U32Bytes(p.deliveryTimestamp)
    requires s[8..12] == U32Bytes(p.packetSequenceNumber)
    requires s[12..] == EncodeCounter(p.packetCounter) + (EncodeExtension(p.extensionHeader) + p.payload)
    ensures ReadMmtpPacket(s) == Ok(p, p.payload)
  {
    FlagByteFields(p);
    var tail := EncodeExtension(p.extensionHeader) + p.payload;
    ReadEncodeCounter(p.packetCounter, tail);
    ReadEncodeExtension(p.extensionHeader, p.payload);
    assert ReadPacketCounter(s[12..], s[0] / 0x20 % 2 == 1) == Ok(p.packetCounter, tail);
    assert ReadExtensionHeader(tail, s[0] / 2 % 2 == 1) == Ok(p.extensionHeader, p.payload);
    assert FecFromCode(s[0] / 8 % 4) == p.fecType;
    assert s[1] % 0x40 == p.payloadType;
    assert Be16(s[2..4]) == p.packetId;
    assert Be32(s[4..8]) == p.deliveryTimestamp;
    assert Be32(s[8..12]) == p.packetSequenceNumber;
  }

  lemma ReadEncodeMmtpPacket(p: MmtpPacket)
    requires ValidMmtpPacket(p)
    ensures ReadMmtpPacket(EncodeMmtpPacket(p)) == Ok(p, p.payload)
  {
    var s := EncodeMmtpPacket(p);
    var h := EncodeFixedHeader(p);
    assert s[..12] == h;
    assert s[2..4] == h[2..4] == U16Bytes(p.packetId);
    assert s[4..8] == h[4..8] == U32Bytes(p.deliveryTimestamp);
    assert s[8..12] == h[8..12] == U32Bytes(p.packetSequenceNumber);
    ReadMmtpPacketLaidOut(s, p);
  }

  // ---------------------------------------------------------------------
  // MpuFragment

  datatype FragmentationIndicator = NotFragmented | FragmentHead | FragmentBody | FragmentTail

  function IndicatorCode(f: FragmentationIndicator): int
  {
    match f
    case NotFragmented => 0
    case FragmentHead => 1
    case FragmentBody => 2
    case FragmentTail => 3
  }

  /** `FragmentationIndicator::from_repr` on a two-bit field: never fails. */
  function IndicatorFromCode(c: int): (f: FragmentationIndicator)
    requires 0 <= c < 4
    ensures IndicatorCode(f) == c
  {
    if c == 0 then NotFragmented
    else if c == 1 then FragmentHead
    else if c == 2 then FragmentBody
    else FragmentTail
  }

  datatype MpuFragmentType = MpuMetadata | MovieFragmentMetadata | Mfu

  function FragmentTypeCode(t: MpuFragmentType): int
  {
    match t
    case MpuMetadata => 0
    case MovieFragmentMetadata => 1
    case Mfu => 2
  }

  function FragmentTypeFromCode(c: int): (t: MpuFragmentType)
    requires 0 <= c < 3
    ensures FragmentTypeCode(t) == c
  {
    if c == 0 then MpuMetadata else if c == 1 then MovieFragmentMetadata else Mfu
  }

  datatype MpuFragment = MpuFragment(
    fragmentType: MpuFragmentType,
    timedFlag: bool,
    fragmentationIndicator: FragmentationIndicator,
    aggregationFlag: bool,
    fragmentCounter: byte,
    mpuSequenceNumber: u32,
    payload: seq<byte>)

  /** `MpuFragment::read`.  The `payload_length` field counts the six header
      bytes after it; a value below 6 underflows (a panic in debug builds).
      A fragment type above 2 fails its `unwrap`. */
  function ReadMpuFragment(s: seq<byte>): (r: Parsed<MpuFragment>)
    ensures r.Err? ==> r.kind == UnexpectedEof
    ensures r.Panic? <==> 3 <= |s| && (s[2] / 0x10 > 2 || (8 <= |s| && Be16(s[..2]) < 6))
    ensures r.Ok? <==> 8 <= |s| && s[2] / 0x10 <= 2 && 6 <= Be16(s[..2]) <= |s| - 2
    ensures r.Ok? ==>
      var f := r.value;
      var n := Be16(s[..2]);
      FragmentTypeCode(f.fragmentType) == s[2] / 0x10 &&
      (f.timedFlag <==> s[2] / 8 % 2 == 1) &&
      IndicatorCode(f.fragmentationIndicator) == s[2] / 2 % 4 &&
      (f.aggregationFlag <==> s[2] % 2 == 1) &&
      f.fragmentCounter == s[3] && f.mpuSequenceNumber == Be32(s[4..8]) &&
      f.payload == s[8..2 + n] && r.rest == s[2 + n..]
  {
    var (payloadLength, s1) :- ReadU16(s);
    var (head, s2) :- ReadU8(s1);
    if head / 0x10 > 2 then Panic
    else
      var fragmentType := FragmentTypeFromCode(head / 0x10);
      var timedFlag := head / 8 % 2 == 1;
      var fragmentationIndicator := IndicatorFromCode(head / 2 % 4);
      var aggregationFlag := head % 2 == 1;
      var (fragmentCounter, s3) :- ReadU8(s2);
      var (mpuSequenceNumber, s4) :- ReadU32(s3);
      if payloadLength < 6 then Panic
      else
        assert s4 == s[8..] && s3[..4] == s[4..8];
        var (payload, s5) :- ReadExact(s4, payloadLength - 6);
        Ok(MpuFragment(fragmentType, timedFlag, fragmentationIndicator, aggregationFlag,
                       fragmentCounter, mpuSequenceNumber, payload), s5)
  }

  /** The byte after `payload_length`: type, timed flag, indicator and
      aggregation flag. */
  function FragmentHeadByte(f: MpuFragment): byte
  {
    FragmentTypeCode(f.fragmentType) * 0x10 + (if f.timedFlag then 8 else 0)
    + IndicatorCode(f.fragmentationIndicator) * 2 + (if f.aggregationFlag then 1 else 0)
  }

  lemma FragmentHeadFields(f: MpuFragment)
    ensures FragmentHeadByte(f) / 0x10 <= 2
    ensures FragmentTypeFromCode(FragmentHeadByte(f) / 0x10) == f.fragmentType
    ensures FragmentHeadByte(f) / 8 % 2 == 1 <==> f.timedFlag
    ensures IndicatorFromCode(FragmentHeadByte(f) / 2 % 4) == f.fragmentationIndicator
    ensures FragmentHeadByte(f) % 2 == 1 <==> f.aggregationFlag
  {
  }

  function EncodeMpuFragment(f: MpuFragment): (s: seq<byte>)
    requires |f.payload| + 6 < 0x1_0000
    ensures |s| == 8 + |f.payload|
  {
    U16Bytes(|f.payload| + 6) + [FragmentHeadByte(f), f.fragmentCounter]
    + U32Bytes(f.mpuSequenceNumber) + f.payload
  }

  lemma ReadEncodeMpuFragment(f: MpuFragment, rest: seq<byte>)
    requires |f.payload| + 6 < 0x1_0000
    ensures ReadMpuFragment(EncodeMpuFragment(f) + rest) == Ok(f, rest)
  {
    var s := EncodeMpuFragment(f) + rest;
    FragmentHeadFields(f);
    assert s[..2] == U16Bytes(|f.payload| + 6);
    assert s[2] == FragmentHeadByte(f) && s[3] == f.fragmentCounter;
    assert s[4..8] == U32Bytes(f.mpuSequenceNumber);
    assert s[8..8 + |f.payload|] == f.payload;
    assert s[8 + |f.payload|..] == rest;
    var r := ReadMpuFragment(s);
    assert r.Ok?;
    assert r.value.fragmentType == f.fragmentType;
    assert r.value.fragmentationIndicator == f.fragmentationIndicator;
  }

  // ---------------------------------------------------------------------
  // SignalingMessage

  datatype SignalingMessagePayload = Aggregated(messages: seq<seq<byte>>) | Default(data: seq<byte>)

  datatype SignalingMessage = SignalingMessage(
    fragmentationIndicator: FragmentationIndicator,
    fragmentCounter: byte,
    payload: SignalingMessagePayload)

  /** The length prefix of an aggregated message: u32 when
      `length_extension_flag` is set, u16 otherwise. */
  function ReadMessageLength(s: seq<byte>, extended: bool): (r: Parsed<int>)
    ensures r.Ok? <==> (if extended then 4 else 2) <= |s|
    ensures r.Ok? ==>
      r.rest == s[if extended then 4 else 2..] &&
      r.value == (if extended then Be32(s[..4]) else Be16(s[..2]))
    ensures r.Err? ==> r.kind == UnexpectedEof
    ensures !r.Panic?
  {
    if extended then
      var (n, rest) :- ReadU32(s);
      Ok(n, rest)
    else
      var (n, rest) :- ReadU16(s);
      Ok(n, rest)
  }

  function LengthPrefix(n: nat, extended: bool): (s: seq<byte>)
    requires n < (if extended then 0x1_0000_0000 else 0x1_0000)
    ensures |s| == (if extended then 4 else 2)
  {
    if extended then U32Bytes(n) else U16Bytes(n)
  }

  /** One message of an aggregated payload.  A length beyond the end of the
      buffer fails the "insufficient buffer size" assertion. */
  function ReadAggregatedMessage(s: seq<byte>, extended: bool): (r: Parsed<seq<byte>>)
    ensures r.Err? ==> r.kind == UnexpectedEof
    ensures r.Ok? ==>
      var w := if extended then 4 else 2;
      w <= |s| && |r.value| < (if extended then 0x1_0000_0000 else 0x1_0000) &&
      s[w..] == r.value + r.rest
  {
    var (n, s1) :- ReadMessageLength(s, extended);
    if n > |s1| then Panic
    else Ok(s1[..n], s1[n..])
  }

  /** A message read from `s` sits behind its own length prefix. */
  lemma ReadAggregatedMessageReadsBack(s: seq<byte>, extended: bool)
    requires ReadAggregatedMessage(s, extended).Ok?
    ensures
      var r := ReadAggregatedMessage(s, extended);
      s == LengthPrefix(|r.value|, extended) + r.value + r.rest
  {
    var r := ReadAggregatedMessage(s, extended);
    var w := if extended then 4 else 2;
    assert s == s[..w] + r.value + r.rest;
    if extended {
      U32BytesOfBe32(s[..4]);
    } else {
      U16BytesOfBe16(s[..2]);
    }
  }

  predicate FitsLength(messages: seq<seq<byte>>, extended: bool)
  {
    forall i :: 0 <= i < |messages| ==> |messages[i]| < (if extended then 0x1_0000_0000 else 0x1_0000)
  }

  /** Length-prefixed messages laid end to end. */
  function Frames(messages: seq<seq<byte>>, extended: bool): seq<byte>
    requires FitsLength(messages, extended)
  {
    if messages == [] then []
    else LengthPrefix(|messages[0]|, extended) + messages[0] + Frames(messages[1..], extended)
  }

  /** The aggregated loop of `SignalingMessage::read`: messages are read
      until the buffer is exhausted, and a successful read cuts the buffer
      into length-prefixed frames exactly. */
  function ReadAggregated(s: seq<byte>, extended: bool): (r: Parsed<seq<seq<byte>>>)
    ensures r.Err? ==> r.kind == UnexpectedEof
    ensures r.Ok? ==> r.rest == []
    decreases |s|
  {
    if s == [] then Ok([], s)
    else
      var (m, s1) :- ReadAggregatedMessage(s, extended);
      var (ms, s2) :- ReadAggregated(s1, extended);
      Ok([m] + ms, s2)
  }

  /** A successful read cuts the buffer into length-prefixed frames
      exactly. */
  lemma {:induction false} ReadAggregatedReadsBack(s: seq<byte>, extended: bool)
    requires ReadAggregated(s, extended).Ok?
    ensures
      var ms := ReadAggregated(s, extended).value;
      FitsLength(ms, extended) && Frames(ms, extended) == s
    decreases |s|
  {
    if s != [] {
      var m := ReadAggregatedMessage(s, extended);
      ReadAggregatedMessageReadsBack(s, extended);
      ReadAggregatedReadsBack(m.rest, extended);
      var ms := ReadAggregated(m.rest, extended).value;
      assert ReadAggregated(s, extended).value == [m.value] + ms;
      assert ([m.value] + ms)[1..] == ms;
    }
  }

  /** Framing messages and reading them back gives the same messages. */
  lemma {:induction false} ReadAggregatedOfFrames(messages: seq<seq<byte>>, extended: bool)
    requires FitsLength(messages, extended)
    ensures ReadAggregated(Frames(messages, extended), extended) == Ok(messages, [])
    decreases |messages|
  {
    if messages != [] {
      var m := messages[0];
      var s := Frames(messages, extended);
      var p := LengthPrefix(|m|, extended);
      var tail := Frames(messages[1..], extended);
      assert s == p + (m + tail);
      assert s[|p|..] == m + tail;
      assert (m + tail)[..|m|] == m && (m + tail)[|m|..] == tail;
      if extended {
        assert s[..4] == U32Bytes(|m|);
      } else {
        assert s[..2] == U16Bytes(|m|);
      }
      assert ReadAggregatedMessage(s, extended) == Ok(m, tail);
      ReadAggregatedOfFrames(messages[1..], extended);
      assert [m] + messages[1..] == messages;
    }
  }

  /** `SignalingMessage::read` on a whole buffer: a two-byte header, then the
      rest is either one message or a run of length-prefixed messages. */
  function ReadSignalingMessage(s: seq<byte>): (r: Parsed<SignalingMessage>)
    ensures r.Err? ==> r.kind == UnexpectedEof
    ensures |s| < 2 ==> r == Err(UnexpectedEof)
    ensures r.Ok? ==>
      r.rest == [] &&
      IndicatorCode(r.value.fragmentationIndicator) == s[0] / 0x40 &&
      r.value.fragmentCounter == s[1] &&
      (r.value.payload.Aggregated? <==> s[0] % 2 == 1)
    ensures 2 <= |s| && s[0] % 2 == 0 ==> r.Ok? && r.value.payload == Default(s[2..])
    ensures 2 <= |s| && s[0] % 2 == 1 ==>
      (r.Ok? <==> ReadAggregated(s[2..], s[0] / 2 % 2 == 1).Ok?) &&
      (r.Ok? ==> r.value.payload.messages == ReadAggregated(s[2..], s[0] / 2 % 2 == 1).value)
  {
    var (head, s1) :- ReadU8(s);
    var fragmentationIndicator := IndicatorFromCode(head / 0x40);
    var lengthExtensionFlag := head / 2 % 2 == 1;
    var aggregationFlag := head % 2 == 1;
    var (fragmentCounter, s2) :- ReadU8(s1);
    assert s2 == s[2..];
    if aggregationFlag then
      var (messages, s3) :- ReadAggregated(s2, lengthExtensionFlag);
      Ok(SignalingMessage(fragmentationIndicator, fragmentCounter, Aggregated(messages)), s3)
    else
      Ok(SignalingMessage(fragmentationIndicator, fragmentCounter, Default(s2)), [])
  }

  /** One turn of the aggregated loop, on the items read so far. */
  lemma ReadAggregatedStep(s: seq<byte>, extended: bool, payloads: seq<seq<byte>>)
    requires s != []
    ensures ReadAggregatedMessage(s, extended).IsFailure() ==>
      Prepend(payloads, ReadAggregated(s, extended)) == ReadAggregatedMessage(s, extended).PropagateFailure()
    ensures ReadAggregatedMessage(s, extended).Ok? ==>
      var m := ReadAggregatedMessage(s, extended);
      Prepend(payloads, ReadAggregated(s, extended)) == Prepend(payloads + [m.value], ReadAggregated(m.rest, extended))
  {
    var m := ReadAggregatedMessage(s, extended);
    if m.Ok? {
      PrependStep(payloads, m.value, ReadAggregated(m.rest, extended));
    }
  }

  /** The aggregated loop as `SignalingMessage::read` runs it, on the
      cursor position into the buffer. */
  method ReadAggregatedLoop(buf: seq<byte>, extended: bool) returns (r: Parsed<seq<seq<byte>>>)
    ensures r == ReadAggregated(buf, extended)
  {
    var payloads: seq<seq<byte>> := [];
    var position := 0;
    PrependEmpty(ReadAggregated(buf, extended));
    while position < |buf|
      invariant 0 <= position <= |buf|
      invariant ReadAggregated(buf, extended) == Prepend(payloads, ReadAggregated(buf[position..], extended))
      decreases |buf| - position
    {
      var cur := buf[position..];
      var step := ReadAggregatedMessage(cur, extended);
      ReadAggregatedStep(cur, extended, payloads);
      if step.IsFailure() {
        return step.PropagateFailure();
      }
      payloads := payloads + [step.value];
      position := |buf| - |step.rest|;
      assert buf[position..] == step.rest;
    }
    PrependNone(payloads, buf[position..]);
    r := Ok(payloads, buf[position..]);
  }

  // ---------------------------------------------------------------------
  // MmtpPayload::try_from

  datatype MmtpPayload = MpuFragmentOf(fragment: MpuFragment) | SignalingMessageOf(message: SignalingMessage)

  /** `MmtpPayload::try_from`: payload type 0 is an MPU fragment, 2 a
      signalling message, 1 and 3 reach `todo!`, anything else is invalid. */
  function PayloadOf(p: MmtpPacket): (r: Outcome<MmtpPayload>)
    ensures p.payloadType >= 4 || p.payloadType < 0 ==> r == Failure(InvalidData)
    ensures p.payloadType == 1 || p.payloadType == 3 ==> r == Abort
    ensures r.Success? ==>
      (r.value.MpuFragmentOf? <==> p.payloadType == 0) &&
      (r.value.SignalingMessageOf? <==> p.payloadType == 2)
    ensures p.payloadType == 0 ==>
      (r.Success? <==> ReadMpuFragment(p.payload).Ok?) &&
      (r.Success? ==> r.value.fragment == ReadMpuFragment(p.payload).value) &&
      (r.Failure? ==> ReadMpuFragment(p.payload).Err?)
    ensures p.payloadType == 2 ==>
      (r.Success? <==> ReadSignalingMessage(p.payload).Ok?) &&
      (r.Success? ==> r.value.message == ReadSignalingMessage(p.payload).value) &&
      (r.Failure? ==> ReadSignalingMessage(p.payload).Err?)
  {
    if p.payloadType < 0 || p.payloadType >= 4 then Failure(InvalidData)
    else if p.payloadType == 0 then
      var f :- Finish(ReadMpuFragment(p.payload));
      Success(MpuFragmentOf(f))
    else if p.payloadType == 2 then
      var m :- Finish(ReadSignalingMessage(p.payload));
      Success(SignalingMessageOf(m))
    else Abort
  }
}
