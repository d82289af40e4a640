/** Demultiplexing of the TLV/MMT broadcast stream, read from mmt.rs:
    one stream state per packet id, MPU sequence tracking, timestamp
    tables capped at 64 entries, ECM detection, and the framing of HEVC
    and AAC access units for the transport stream muxer. */
module Mmt {
  import opened Wire
  import Tlv
  import CompressedIp
  import Mmtp
  import Mfu
  import Deflag
  import Descriptors
  import Tables
  import Sections
  import Messages
  import Hevc

  /** The bytes that announce an ECM inside a TLV packet. */
  const EcmHeader: seq<byte> := [0x00, 0x00, 0x93, 0x2D, 0x1E, 0x01]

  /** Bytes of an ECM handed to the descrambler, taken two bytes after the
      start of its header. */
  const EcmLength: nat := 148

  /** Entries each timestamp table keeps after a PA message. */
  const MaxTimestampDescriptor: nat := 64

  /** The asset types `hev1` (HEVC video) and `mp4a` (AAC audio). */
  const Hev1: seq<byte> := [0x68, 0x65, 0x76, 0x31]
  const Mp4a: seq<byte> := [0x6D, 0x70, 0x34, 0x61]

  // ---------------------------------------------------------------------
  // Data model

  /** What the decoding and presentation time of one access unit is
      computed from (section 7 of ARIB STD-B60): the MPU presentation
      time, the MPU's extended timestamp, the timescale and the index of
      the unit within the MPU.  The floating-point formula is not part of
      this model. */
  datatype AuTiming = AuTiming(
    presentationTime: u64,
    extended: Descriptors.MpuExtendedTimestamp,
    timescale: u32,
    auIndex: nat)

  /** `MmtStream`: the state kept per packet id. */
  datatype MmtStream = MmtStream(
    packetId: u16,
    deflag: Deflag.Snapshot,
    lastSequenceNumber: int,
    auCount: nat,
    timescale: Option<u32>,
    timestamps: map<u32, u64>,
    extTimestamps: map<u32, Descriptors.MpuExtendedTimestamp>,
    dtsPts: Option<AuTiming>,
    assetType: Option<seq<byte>>,
    hevc: Hevc.Snapshot)

  /** The stream created on the first packet of a packet id. */
  function NewStream(id: u16): (s: MmtStream)
    ensures s.packetId == id && s.deflag == Deflag.Initial
    ensures s.timestamps == map[] && s.extTimestamps == map[] && s.assetType.None?
  {
    MmtStream(id, Deflag.Initial, 0, 0, None, map[], map[], None, None, Hevc.Snapshot([], false))
  }

  datatype Payload =
    | MfuData(timing: Option<AuTiming>, data: seq<byte>)
    | MessageData(message: Messages.Message)

  datatype Packet = Packet(packetId: u16, payload: Payload)

  /** The value of an `MmtDemuxer`: the unread input, the stream table,
      and the ECMs handed to the descrambler since it was last cleared. */
  datatype Demux = Demux(input: seq<byte>, streams: map<u16, MmtStream>, ecms: seq<seq<byte>>)

  /** The outcome of one `read`: `Success(None)` at the end of the input,
      `Success(Some(packets))` otherwise; `Failure` is an error result and
      `Abort` a panic. */
  type ReadOutcome = Outcome<Option<seq<Packet>>>

  /** A demuxer's new value together with what `read` returned. */
  datatype Step = Step(demux: Demux, out: ReadOutcome)

  /** What `read` keeps true of the stream table: every stream sits under
      its own packet id, its timestamp tables are capped and its
      defragmenter buffer is empty outside a fragment. */
  predicate StreamValid(id: u16, s: MmtStream)
  {
    s.packetId == id &&
    |s.timestamps| <= MaxTimestampDescriptor && |s.extTimestamps| <= MaxTimestampDescriptor &&
    Deflag.Consistent(s.deflag)
  }

  predicate StreamsValid(streams: map<u16, MmtStream>)
  {
    forall id :: id in streams ==> StreamValid(id, streams[id])
  }

  predicate Valid(d: Demux)
  {
    StreamsValid(d.streams)
  }

  /** The fields that only the asset loop of a PA message changes. */
  predicate SameTables(a: MmtStream, b: MmtStream)
  {
    a.packetId == b.packetId && a.timescale == b.timescale && a.timestamps == b.timestamps &&
    a.extTimestamps == b.extTimestamps && a.assetType == b.assetType
  }

  /** Every packet of `ps` belongs to the stream `id`. */
  predicate Carries(id: u16, ps: seq<Packet>)
  {
    forall i :: 0 <= i < |ps| ==> ps[i].packetId == id
  }

  // ---------------------------------------------------------------------
  // Searching the input

  /** The position of the first sync byte at or after `k`. */
  function SyncFrom(input: seq<byte>, k: nat): (r: Option<nat>)
    requires k <= |input|
    ensures r.None? ==> forall j :: k <= j < |input| ==> input[j] != Tlv.TLV_SYNC
    ensures r.Some? ==>
      k <= r.value < |input| && input[r.value] == Tlv.TLV_SYNC &&
      forall j :: k <= j < r.value ==> input[j] != Tlv.TLV_SYNC
    decreases |input| - k
  {
    if k == |input| then None
    else if input[k] == Tlv.TLV_SYNC then Some(k)
    else SyncFrom(input, k + 1)
  }

  /** `skip_until(0x7F)` followed by the chained sync byte: the bytes the
      TLV reader sees.  Without a sync byte the whole input is skipped and
      the reader sees the sync byte alone. */
  function Resynced(input: seq<byte>): (s: seq<byte>)
    ensures |s| >= 1 && s[0] == Tlv.TLV_SYNC
    ensures |s| <= |input| || s == [Tlv.TLV_SYNC]
  {
    match SyncFrom(input, 0)
    case Some(i) => [Tlv.TLV_SYNC] + input[i + 1..]
    case None => [Tlv.TLV_SYNC]
  }

  /** The window of `data` at `j` is the ECM header. */
  predicate EcmAt(data: seq<byte>, j: nat)
  {
    j + 6 <= |data| && data[j..j + 6] == EcmHeader
  }

  /** `windows(6).position(..)` from `k`: the first ECM header at or after `k`. */
  function EcmFrom(data: seq<byte>, k: nat): (r: Option<nat>)
    requires k <= |data|
    ensures r.None? ==> forall j :: k <= j ==> !EcmAt(data, j)
    ensures r.Some? ==> k <= r.value && EcmAt(data, r.value) && forall j :: k <= j < r.value ==> !EcmAt(data, j)
    decreases |data| - k
  {
    if k + 6 > |data| then None
    else if data[k..k + 6] == EcmHeader then Some(k)
    else EcmFrom(data, k + 1)
  }

  // ---------------------------------------------------------------------
  // MPU sequence tracking

  /** The sequence tracking of `read` for an MFU: `None` while the stream
      waits for its first random access point; otherwise the stream with
      the new last sequence number, the access unit count restarting on
      any change of MPU. */
  function Track(st: MmtStream, rap: bool, sequenceNumber: u32): (r: Option<MmtStream>)
    ensures r.None? <==> st.deflag.state == Deflag.Init && !rap
    ensures r.Some? ==> r.value.lastSequenceNumber == sequenceNumber
    // only a change of MPU restarts the count, and only once the stream is synchronised
    ensures r.Some? ==>
      r.value.auCount == (if st.deflag.state != Deflag.Init && sequenceNumber != st.lastSequenceNumber then 0 else st.auCount)
    ensures r.Some? ==> r.value.(lastSequenceNumber := st.lastSequenceNumber, auCount := st.auCount) == st
  {
    if st.deflag.state == Deflag.Init then
      if !rap then None else Some(st.(lastSequenceNumber := sequenceNumber))
    else if sequenceNumber == st.lastSequenceNumber + 1 then
      Some(st.(lastSequenceNumber := sequenceNumber, auCount := 0))
    else if sequenceNumber != st.lastSequenceNumber then
      Some(st.(lastSequenceNumber := sequenceNumber, auCount := 0))
    else Some(st)
  }

  // ---------------------------------------------------------------------
  // Access units

  /** Takes the timing for the next access unit when none is pending and
      the MPU's timestamp, extended timestamp and the timescale are all
      known; an access unit count at `num_of_au` fails the `assert!`. */
  function Stamp(st: MmtStream, ts: Option<u64>, ext: Option<Descriptors.MpuExtendedTimestamp>): (r: Option<MmtStream>)
    // the `assert!`: a unit beyond the count the extended timestamp announces
    ensures r.None? <==>
      st.dtsPts.None? && ts.Some? && ext.Some? && st.timescale.Some? && st.auCount >= ext.value.numOfAu
    // a unit is stamped with its index in the MPU, which then advances
    ensures r.Some? && st.dtsPts.None? && ts.Some? && ext.Some? && st.timescale.Some? ==>
      r.value.dtsPts == Some(AuTiming(ts.value, ext.value, st.timescale.value, st.auCount)) &&
      r.value.auCount == st.auCount + 1 && st.auCount < ext.value.numOfAu
    ensures r.Some? && !(st.dtsPts.None? && ts.Some? && ext.Some? && st.timescale.Some?) ==> r.value == st
    ensures r.Some? ==> r.value.(dtsPts := st.dtsPts, auCount := st.auCount) == st
  {
    if st.dtsPts.None? && ts.Some? && ext.Some? && st.timescale.Some? then
      if st.auCount < ext.value.numOfAu then
        Some(st.(dtsPts := Some(AuTiming(ts.value, ext.value, st.timescale.value, st.auCount)),
                 auCount := st.auCount + 1))
      else None
    else Some(st)
  }

  /** The three header bytes of an AudioMuxElement in a LOAS frame
      (subclause 1.7 of ISO/IEC 14496-3): 0x56, then `0xE0 | (len >> 8) as u8`,
      then `len & 0xFF`. */
  function LoasHeader(size: nat): (h: seq<byte>)
    ensures |h| == 3
    // the 11-bit sync word 0x2B7
    ensures h[0] as int * 8 + h[1] as int / 32 == 0x2B7
    // the 13-bit length: the size modulo 0x2000
    ensures (h[1] as int % 32) * 0x100 + h[2] as int == size % 0x2000
  {
    // `0xE0 | high` sets the top three bits of `high` and keeps the low five
    var high := (size / 0x100) % 0x100;
    LengthBits(size);
    [0x56, 0xE0 + high % 0x20, size % 0x100]
  }

  /** The low 13 bits of `size` are the low five bits of its second byte
      followed by its first. */
  lemma LengthBits(size: nat)
    ensures ((size / 0x100) % 0x100) % 0x20 * 0x100 + size % 0x100 == size % 0x2000
  {
    var q, r := size / 0x100, size % 0x100;
    var a, b := q / 0x20, q % 0x20;
    var c := q / 0x100;
    Below32(a - 8 * c, b);
    assert q % 0x100 == 0x20 * (a - 8 * c) + b;
    Below8192(a, 0x100 * b + r);
    assert size == 0x2000 * a + (0x100 * b + r);
  }

  lemma Below32(a: int, b: int)
    requires 0 <= b < 0x20
    ensures (0x20 * a + b) % 0x20 == b
  {
  }

  lemma Below8192(a: int, b: int)
    requires 0 <= b < 0x2000
    ensures (0x2000 * a + b) % 0x2000 == b
  {
  }

  /** The framing of one access unit by the stream's asset type: an `hev1`
      unit must start with a big-endian length equal to the bytes after it
      (`get_u32` and `assert_eq!`); the length is replaced by a 00 00 01
      start code and the result fed to the HEVC splitter, which may or may
      not complete a frame; an `mp4a` unit gets a LOAS header; any other
      type, or none, drops the unit.  Output takes the pending timing.
      `None` is a panic. */
  function FrameUnit(st: MmtStream, unit: seq<byte>): (r: Option<(MmtStream, Option<Packet>)>)
    // framing touches the splitter and the pending timing only
    ensures r.Some? ==> r.value.0 == st.(hevc := r.value.0.hevc, dtsPts := r.value.0.dtsPts)
    // a packet of the stream comes out with the pending timing, which it takes
    ensures r.Some? && r.value.1.Some? ==>
      r.value.1.value.packetId == st.packetId && r.value.1.value.payload.MfuData? &&
      r.value.1.value.payload.timing == st.dtsPts && r.value.0.dtsPts.None?
    ensures r.Some? && r.value.1.None? ==> r.value.0.dtsPts == st.dtsPts
    // hev1: the length prefix must match, and no byte of the unit is lost
    // unless the unit is an AUD arriving on an empty splitter
    ensures st.assetType == Some(Hev1) ==>
      (r.None? <==> |unit| < 4 || Be32(unit[..4]) != |unit| - 4)
    ensures st.assetType == Some(Hev1) && r.Some? ==>
      var chunk := [0, 0, 1] + unit[4..];
      if Hevc.NextFrame(chunk) == Some(0) && |st.hevc.buf| == 0 then r.value == (st, None)
      else st.hevc.buf + chunk == FrameData(r.value.1) + r.value.0.hevc.buf
    // mp4a: every unit comes out behind its LOAS header
    ensures st.assetType == Some(Mp4a) ==>
      r.Some? && r.value.1.Some? && FrameData(r.value.1) == LoasHeader(|unit|) + unit
    // any other asset type drops the unit
    ensures st.assetType != Some(Hev1) && st.assetType != Some(Mp4a) ==> r == Some((st, None))
  {
    if st.assetType == Some(Hev1) then
      if |unit| < 4 || Be32(unit[..4]) != |unit| - 4 then None
      else
        var pushed := Hevc.PushStep(st.hevc, [0, 0, 1] + unit[4..]);
        Hevc.PushStepSpec(st.hevc, [0, 0, 1] + unit[4..]);
        if pushed.1.None? then Some((st.(hevc := pushed.0), None))
        else Some((st.(hevc := pushed.0, dtsPts := None), Some(Packet(st.packetId, MfuData(st.dtsPts, pushed.1.value)))))
    else if st.assetType == Some(Mp4a) then
      Some((st.(dtsPts := None), Some(Packet(st.packetId, MfuData(st.dtsPts, LoasHeader(|unit|) + unit)))))
    else Some((st, None))
  }

  /** The bytes of an MFU packet, if one came out. */
  function FrameData(p: Option<Packet>): seq<byte>
  {
    if p.Some? && p.value.payload.MfuData? then p.value.payload.data else []
  }

  /** One unit of `read_mfu`'s `filter_map`: stamping, then framing. */
  function ProcessUnit(st: MmtStream, ts: Option<u64>, ext: Option<Descriptors.MpuExtendedTimestamp>,
                       unit: seq<byte>): Option<(MmtStream, Option<Packet>)>
  {
    match Stamp(st, ts, ext)
    case None => None
    case Some(st1) => FrameUnit(st1, unit)
  }

  function Emitted(p: Option<Packet>): seq<Packet>
  {
    if p.Some? then [p.value] else []
  }

  /** All units of one MFU in order, each seeing the stream the previous
      one left. */
  function ProcessUnits(st: MmtStream, ts: Option<u64>, ext: Option<Descriptors.MpuExtendedTimestamp>,
                        units: seq<seq<byte>>): (r: Option<(MmtStream, seq<Packet>)>)
    // at most one packet per unit, all of the stream; the stream keeps its
    // tables, its defragmenter and its sequence tracking
    ensures r.Some? ==>
      SameTables(st, r.value.0) && r.value.0.deflag == st.deflag &&
      r.value.0.lastSequenceNumber == st.lastSequenceNumber &&
      |r.value.1| <= |units| && Carries(st.packetId, r.value.1)
    decreases |units|
  {
    if |units| == 0 then Some((st, []))
    else
      match ProcessUnit(st, ts, ext, units[0])
      case None => None
      case Some(first) =>
        match ProcessUnits(first.0, ts, ext, units[1..])
        case None => None
        case Some(more) => Some((more.0, Emitted(first.1) + more.1))
  }

  /** One payload through the stream's defragmenter; the `assert`s of
      `push` are a panic (`None`). */
  function Push(st: MmtStream, indicator: Mmtp.FragmentationIndicator, data: seq<byte>): (r: Option<(MmtStream, seq<seq<byte>>)>)
    ensures r.None? <==> !Deflag.CanPush(st.deflag.state, indicator)
    ensures r.Some? ==>
      r.value.0 == st.(deflag := r.value.0.deflag) && |r.value.1| <= 1 &&
      (Deflag.Consistent(st.deflag) ==> Deflag.Consistent(r.value.0.deflag))
  {
    if !Deflag.CanPush(st.deflag.state, indicator) then None
    else
      var pushed := Deflag.PushStep(st.deflag, indicator, data);
      Deflag.PushStepSpec(st.deflag, indicator, data);
      Some((st.(deflag := pushed.0), if pushed.1.Some? then [pushed.1.value] else []))
  }

  function TimedData(units: seq<Mfu.MfuTimedData>): seq<seq<byte>>
  {
    seq(|units|, i requires 0 <= i < |units| => units[i].data)
  }

  function NonTimedData(items: seq<Mfu.MfuNonTimedData>): seq<seq<byte>>
  {
    seq(|items|, i requires 0 <= i < |items| => items[i].data)
  }

  /** The access units of an MFU payload: aggregated units are taken as
      they are, a single unit goes through the defragmenter. */
  function Units(st: MmtStream, indicator: Mmtp.FragmentationIndicator, payload: Mfu.MfuPayload): (r: Option<(MmtStream, seq<seq<byte>>)>)
    ensures r.Some? ==>
      r.value.0 == st.(deflag := r.value.0.deflag) &&
      (Deflag.Consistent(st.deflag) ==> Deflag.Consistent(r.value.0.deflag))
    // aggregated units bypass the defragmenter
    ensures payload.TimedAggregated? ==> r == Some((st, TimedData(payload.units)))
    ensures payload.Aggregated? ==> r == Some((st, NonTimedData(payload.items)))
  {
    match payload
    case TimedAggregated(units) => Some((st, TimedData(units)))
    case Timed(unit) => Push(st, indicator, unit.data)
    case Aggregated(items) => Some((st, NonTimedData(items)))
    case Default(item) => Push(st, indicator, item.data)
  }

  function Lookup<V>(m: map<u32, V>, k: u32): Option<V>
  {
    if k in m then Some(m[k]) else None
  }

  /** `read_mfu`: the MFU payload, the MPU's timestamps as they stand, then
      the units. */
  function ReadMfu(st: MmtStream, f: Mmtp.MpuFragment): (r: Outcome<(MmtStream, seq<Packet>)>)
    ensures r.Success? ==>
      SameTables(st, r.value.0) && r.value.0.lastSequenceNumber == st.lastSequenceNumber &&
      (Deflag.Consistent(st.deflag) ==> Deflag.Consistent(r.value.0.deflag)) &&
      Carries(st.packetId, r.value.1)
  {
    match Mfu.PayloadOf(f)
    case Failure(k) => Failure(k)
    case Abort => Abort
    case Success(payload) =>
      var ts := Lookup(st.timestamps, f.mpuSequenceNumber);
      var ext := Lookup(st.extTimestamps, f.mpuSequenceNumber);
      match Units(st, f.fragmentationIndicator, payload)
      case None => Abort
      case Some(split) =>
        match ProcessUnits(split.0, ts, ext, split.1)
        case None => Abort
        case Some(done) => Success(done)
  }

  /** An MPU fragment of a stream: anything but an MFU gives nothing; an
      aggregated fragment must not be fragmented (`assert!`); then the
      sequence tracking, the defragmenter's `sync` and `read_mfu`.  The
      stream keeps what was done before an error. */
  function ReadFragment(st: MmtStream, p: Mmtp.MmtpPacket, f: Mmtp.MpuFragment): (r: (MmtStream, Outcome<seq<Packet>>))
    ensures forall id :: StreamValid(id, st) ==> StreamValid(id, r.0)
    ensures r.1.Success? ==> Carries(st.packetId, r.1.value)
    // only MFUs are read
    ensures f.fragmentType != Mmtp.Mfu ==> r == (st, Success([]))
    // the `assert!`: an aggregated MFU is never fragmented
    ensures f.fragmentType == Mmtp.Mfu && f.fragmentationIndicator != Mmtp.NotFragmented && f.aggregationFlag ==>
      r.1.Abort?
    // a stream starts at its first random access point
    ensures f.fragmentType == Mmtp.Mfu && !(f.fragmentationIndicator != Mmtp.NotFragmented && f.aggregationFlag) &&
            st.deflag.state == Deflag.Init && !p.rapFlag ==>
              r == (st, Success([]))
  {
    if f.fragmentType != Mmtp.Mfu then (st, Success([]))
    else if f.fragmentationIndicator != Mmtp.NotFragmented && f.aggregationFlag then (st, Abort)
    else
      match Track(st, p.rapFlag, f.mpuSequenceNumber)
      case None => (st, Success([]))
      case Some(st1) =>
        var st2 := st1.(deflag := Deflag.SyncStep(st1.deflag, p.packetSequenceNumber));
        Deflag.SyncStepSpec(st1.deflag, p.packetSequenceNumber);
        match ReadMfu(st2, f)
        case Success(done) => (done.0, Success(done.1))
        case Failure(k) => (st2, Failure(k))
        case Abort => (st2, Abort)
  }

  // ---------------------------------------------------------------------
  // Signalling messages

  /** Every payload of a signalling message through the defragmenter, in
      order, collecting the completed messages. */
  function PushAll(st: MmtStream, indicator: Mmtp.FragmentationIndicator, payloads: seq<seq<byte>>): (r: Option<(MmtStream, seq<seq<byte>>)>)
    ensures r.Some? ==>
      r.value.0 == st.(deflag := r.value.0.deflag) && |r.value.1| <= |payloads| &&
      (Deflag.Consistent(st.deflag) ==> Deflag.Consistent(r.value.0.deflag))
    decreases |payloads|
  {
    if |payloads| == 0 then Some((st, []))
    else
      match Push(st, indicator, payloads[0])
      case None => None
      case Some(first) =>
        match PushAll(first.0, indicator, payloads[1..])
        case None => None
        case Some(more) => Some((more.0, first.1 + more.1))
  }

  /** `Message::read(..).ok()` over the completed messages: a message
      that fails to read is skipped, a panic is a panic. */
  function ParseMessages(datas: seq<seq<byte>>): Option<seq<Messages.Message>>
    decreases |datas|, 1
  {
    if |datas| == 0 then Some([]) else ParseFirst(datas)
  }

  /** The first message read in front of the rest. */
  function ParseFirst(datas: seq<seq<byte>>): Option<seq<Messages.Message>>
    requires |datas| > 0
    decreases |datas|, 0
  {
    match Messages.ReadMessage(datas[0])
    case Panic => None
    case Err(_) => ParseMessages(datas[1..])
    case Ok(m, _) =>
      var more := ParseMessages(datas[1..]);
      if more.Some? then Some([m] + more.value) else None
  }

  /** The assets of the MPTs among `tables`, in order. */
  function TableAssets(tables: seq<Sections.Table>): seq<Tables.MmtAsset>
    decreases |tables|
  {
    if |tables| == 0 then []
    else (if tables[0].MptTable? then tables[0].mpt.assets else []) + TableAssets(tables[1..])
  }

  /** The assets of the MPTs in the PA messages among `msgs`, in order. */
  function MessageAssets(msgs: seq<Messages.Message>): seq<Tables.MmtAsset>
    decreases |msgs|
  {
    if |msgs| == 0 then []
    else (if msgs[0].Pa? then TableAssets(msgs[0].pa.tables) else []) + MessageAssets(msgs[1..])
  }

  function MessagePackets(id: u16, msgs: seq<Messages.Message>): (ps: seq<Packet>)
    ensures |ps| == |msgs|
    ensures forall i :: 0 <= i < |msgs| ==> ps[i] == Packet(id, MessageData(msgs[i]))
  {
    seq(|msgs|, i requires 0 <= i < |msgs| => Packet(id, MessageData(msgs[i])))
  }

  // ---------------------------------------------------------------------
  // Timestamp tables

  /** Every key of `m` is at least `k`. */
  predicate AtMost(k: u32, keys: set<u32>)
  {
    forall j :: j in keys ==> k <= j
  }

  lemma {:induction false} MinExists(keys: set<u32>)
    requires keys != {}
    ensures exists k :: k in keys && AtMost(k, keys)
    decreases |keys|
  {
    var x :| x in keys;
    if keys != {x} {
      MinExists(keys - {x});
      var m :| m in keys - {x} && AtMost(m, keys - {x});
      forall j | j in keys
        ensures x <= j || m <= j
      {
        if j != x {
          assert j in keys - {x};
        }
      }
      if x < m {
        assert AtMost(x, keys);
      } else {
        assert AtMost(m, keys);
      }
    }
  }

  /** The smallest key, the one `pop_first` removes. */
  function MinKey(keys: set<u32>): (k: u32)
    requires keys != {}
    ensures k in keys && AtMost(k, keys)
  {
    MinExists(keys);
    var k :| k in keys && AtMost(k, keys);
    k
  }

  /** The eviction loop of `read_message`: `pop_first` while more than 64
      entries remain. */
  function Evict<V>(m: map<u32, V>): map<u32, V>
    decreases |m|
  {
    if |m| <= MaxTimestampDescriptor then m
    else
      var k := MinKey(m.Keys);
      assert |m - {k}| < |m| by {
        assert (m - {k}).Keys == m.Keys - {k};
      }
      Evict(m - {k})
  }

  /** What the eviction loop promises: at most 64 entries are left, all of
      them entries of `m`, and every entry removed has a smaller sequence
      number than every entry kept. */
  lemma {:induction false} EvictSpec<V>(m: map<u32, V>)
    ensures var r := Evict(m);
      |r| == (if |m| <= MaxTimestampDescriptor then |m| else MaxTimestampDescriptor) &&
      (forall k :: k in r ==> k in m && r[k] == m[k]) &&
      (forall k, j :: k in m && k !in r && j in r ==> k < j)
    decreases |m|
  {
    if |m| > MaxTimestampDescriptor {
      var k := MinKey(m.Keys);
      assert (m - {k}).Keys == m.Keys - {k};
      EvictSpec(m - {k});
    }
  }

  /** `insert` of each entry in order: a later entry for the same key
      replaces an earlier one. */
  function InsertAll<V>(m: map<u32, V>, entries: seq<(u32, V)>): map<u32, V>
    decreases |entries|
  {
    if |entries| == 0 then m else InsertAll(m[entries[0].0 := entries[0].1], entries[1..])
  }

  /** No later entry of `entries` has the key of entry `i`. */
  predicate LastFor<V>(entries: seq<(u32, V)>, i: nat)
    requires i < |entries|
  {
    forall j :: i < j < |entries| ==> entries[j].0 != entries[i].0
  }

  /** What the insertions promise: the keys are those of `m` and of the
      entries, the last entry for a key wins, and a key no entry names
      keeps its value. */
  lemma {:induction false} InsertAllSpec<V>(m: map<u32, V>, entries: seq<(u32, V)>)
    ensures var r := InsertAll(m, entries);
      (forall k :: k in r <==> k in m || exists i :: 0 <= i < |entries| && entries[i].0 == k) &&
      (forall i :: 0 <= i < |entries| && LastFor(entries, i) ==> entries[i].0 in r && r[entries[i].0] == entries[i].1) &&
      (forall k :: k in m && (forall i :: 0 <= i < |entries| ==> entries[i].0 != k) ==> k in r && r[k] == m[k])
    decreases |entries|
  {
    if |entries| > 0 {
      var m1 := m[entries[0].0 := entries[0].1];
      var tail := entries[1..];
      InsertAllSpec(m1, tail);
      var r := InsertAll(m, entries);
      assert r == InsertAll(m1, tail);
      forall k
        ensures k in r <==> k in m || exists i :: 0 <= i < |entries| && entries[i].0 == k
      {
        if exists i :: 0 <= i < |tail| && tail[i].0 == k {
          var i :| 0 <= i < |tail| && tail[i].0 == k;
          assert entries[i + 1].0 == k;
        }
        if exists i :: 0 <= i < |entries| && entries[i].0 == k {
          var i :| 0 <= i < |entries| && entries[i].0 == k;
          if i > 0 {
            assert tail[i - 1].0 == k;
          }
        }
      }
      forall i | 0 <= i < |entries| && LastFor(entries, i)
        ensures entries[i].0 in r && r[entries[i].0] == entries[i].1
      {
        if i == 0 {
          forall j | 0 <= j < |tail|
            ensures tail[j].0 != entries[0].0
          {
            assert tail[j] == entries[j + 1];
          }
        } else {
          assert tail[i - 1] == entries[i];
          assert LastFor(tail, i - 1) by {
            forall j | i - 1 < j < |tail|
              ensures tail[j].0 != tail[i - 1].0
            {
              assert tail[j] == entries[j + 1];
            }
          }
        }
      }
      forall k | k in m && (forall i :: 0 <= i < |entries| ==> entries[i].0 != k)
        ensures k in r && r[k] == m[k]
      {
        assert entries[0].0 != k;
        forall i | 0 <= i < |tail|
          ensures tail[i].0 != k
        {
          assert tail[i] == entries[i + 1];
        }
      }
    }
  }

  /** The entries an MPU timestamp descriptor inserts into `timestamps`. */
  function TimestampEntries(ts: seq<Descriptors.MpuTimestamp>): seq<(u32, u64)>
  {
    seq(|ts|, i requires 0 <= i < |ts| => (ts[i].mpuSequenceNumber, ts[i].mpuPresentationTime))
  }

  /** The entries an MPU extended timestamp descriptor inserts into
      `ext_timestamps`. */
  function ExtendedEntries(ts: seq<Descriptors.MpuExtendedTimestamp>): seq<(u32, Descriptors.MpuExtendedTimestamp)>
  {
    seq(|ts|, i requires 0 <= i < |ts| => (ts[i].mpuSequenceNumber, ts[i]))
  }

  /** One asset descriptor applied to the stream it locates: timestamps
      are inserted, the timescale replaced only when one is given; other
      descriptors have no effect. */
  function ApplyDescriptor(s: MmtStream, d: Descriptors.Descriptor): (r: MmtStream)
    ensures r == s.(timescale := r.timescale, timestamps := r.timestamps, extTimestamps := r.extTimestamps)
    // the timescale is replaced only by an extended timestamp descriptor that carries one
    ensures r.timescale ==
      if d.MpuExtendedTimestampBody? && d.extendedTimestamp.timescale.Some? then d.extendedTimestamp.timescale
      else s.timescale
    ensures !d.MpuTimestampBody? ==> r.timestamps == s.timestamps
    ensures !d.MpuExtendedTimestampBody? ==> r.extTimestamps == s.extTimestamps
  {
    match d
    case MpuTimestampBody(t) => s.(timestamps := InsertAll(s.timestamps, TimestampEntries(t.timestamps)))
    case MpuExtendedTimestampBody(e) =>
      s.(timescale := if e.timescale.Some? then e.timescale else s.timescale,
         extTimestamps := InsertAll(s.extTimestamps, ExtendedEntries(e.timestamps)))
    case _ => s
  }

  function ApplyDescriptors(s: MmtStream, ds: seq<Descriptors.Descriptor>): (r: MmtStream)
    ensures r == s.(timescale := r.timescale, timestamps := r.timestamps, extTimestamps := r.extTimestamps)
    decreases |ds|
  {
    if |ds| == 0 then s else ApplyDescriptors(ApplyDescriptor(s, ds[0]), ds[1..])
  }

  /** The packet id of the asset's last location; `None` where `last()`
      or `packet_id()` fails its `unwrap`. */
  function AssetPacketId(a: Tables.MmtAsset): Option<u16>
  {
    if |a.locations| == 0 then None else Tables.PacketId(a.locations[|a.locations| - 1])
  }

  /** One MPT asset: the stream its last location names, if there is one,
      takes the asset type and the timestamps of its descriptors, and both
      tables are cut back to 64 entries.  The stream whose message is being
      read is locked already: naming it locks its mutex a second time, which
      does not return (`None`, as is a failed `unwrap`). */
  function ApplyAsset(streams: map<u16, MmtStream>, own: u16, a: Tables.MmtAsset): (r: Option<map<u16, MmtStream>>)
    ensures AssetPacketId(a).None? ==> r.None?
    // only an existing stream is updated; no stream is created or removed
    ensures AssetPacketId(a).Some? && AssetPacketId(a).value !in streams ==> r == Some(streams)
    ensures r.Some? ==> r.value.Keys == streams.Keys
    ensures AssetPacketId(a).Some? && AssetPacketId(a).value in streams ==>
      var id := AssetPacketId(a).value;
      (r.None? <==> id == own) &&
      (r.Some? ==>
        r.value[id].assetType == Some(a.assetType) &&
        |r.value[id].timestamps| <= MaxTimestampDescriptor &&
        |r.value[id].extTimestamps| <= MaxTimestampDescriptor &&
        forall k :: k in streams && k != id ==> r.value[k] == streams[k])
    ensures r.Some? && StreamsValid(streams) ==> StreamsValid(r.value)
  {
    match AssetPacketId(a)
    case None => None
    case Some(id) =>
      if id !in streams then Some(streams)
      else if id == own then None
      else
        var s := ApplyDescriptors(streams[id].(assetType := Some(a.assetType)), a.assetDescriptors);
        EvictSpec(s.timestamps);
        EvictSpec(s.extTimestamps);
        Some(streams[id := s.(timestamps := Evict(s.timestamps), extTimestamps := Evict(s.extTimestamps))])
  }

  function ApplyAssets(streams: map<u16, MmtStream>, own: u16, assets: seq<Tables.MmtAsset>): (r: Option<map<u16, MmtStream>>)
    ensures r.Some? ==> r.value.Keys == streams.Keys
    ensures r.Some? && StreamsValid(streams) ==> StreamsValid(r.value)
    decreases |assets|
  {
    if |assets| == 0 then Some(streams)
    else
      match ApplyAsset(streams, own, assets[0])
      case None => None
      case Some(s1) => ApplyAssets(s1, own, assets[1..])
  }

  // ---------------------------------------------------------------------
  // read

  /** A `read` up to the signalling messages: either finished, or with
      the completed messages of stream `own` still to read. */
  datatype Received =
    | Done(step: Step)
    | Pending(demux: Demux, own: u16, datas: seq<seq<byte>>)

  /** The demuxer value a received packet leaves. */
  function DemuxOf(r: Received): Demux
  {
    match r
    case Done(step) => step.demux
    case Pending(d, _, _) => d
  }

  /** What a `read` may do to the stream table: no stream is dropped, only
      the stream `id` can be new, and every stream stays valid. */
  predicate Grows(d: Demux, d1: Demux, id: u16)
  {
    d.streams.Keys <= d1.streams.Keys <= d.streams.Keys + {id} &&
    (Valid(d) ==> Valid(d1))
  }

  /** `Grows` for some packet id. */
  predicate GrowsByOne(d: Demux, d1: Demux)
  {
    d.streams.Keys <= d1.streams.Keys && |d1.streams.Keys - d.streams.Keys| <= 1 &&
    (Valid(d) ==> Valid(d1))
  }

  lemma GrowsOne(d: Demux, d1: Demux, id: u16)
    requires Grows(d, d1, id)
    ensures GrowsByOne(d, d1)
  {
    if id in d1.streams.Keys - d.streams.Keys {
      assert d1.streams.Keys - d.streams.Keys == {id};
    } else {
      assert d1.streams.Keys - d.streams.Keys == {};
    }
  }

  /** A signalling message of the stream `p.packetId`: `sync`, then every
      payload through the defragmenter. */
  function ReceiveSignaling(d: Demux, p: Mmtp.MmtpPacket, m: Mmtp.SignalingMessage): Received
    requires p.packetId in d.streams
  {
    var st := d.streams[p.packetId];
    var st1 := st.(deflag := Deflag.SyncStep(st.deflag, p.packetSequenceNumber));
    var payloads := match m.payload
      case Aggregated(ps) => ps
      case Default(data) => [data];
    match PushAll(st1, m.fragmentationIndicator, payloads)
    case None => Done(Step(d, Abort))
    case Some(pushed) => Pending(d.(streams := d.streams[p.packetId := pushed.0]), p.packetId, pushed.1)
  }

  /** An MMTP packet: the stream of its packet id is created if there is
      none, before the payload is even looked at. */
  function ReceivePacket(d: Demux, p: Mmtp.MmtpPacket): Received
  {
    var streams := if p.packetId in d.streams then d.streams else d.streams[p.packetId := NewStream(p.packetId)];
    Dispatch(d.(streams := streams), p, Mmtp.PayloadOf(p))
  }

  /** The payload of an MMTP packet whose stream exists: an MPU fragment
      is read at once, a signalling message goes to the defragmenter. */
  function Dispatch(d: Demux, p: Mmtp.MmtpPacket, payload: Outcome<Mmtp.MmtpPayload>): Received
    requires p.packetId in d.streams
  {
    match payload
    case Failure(k) => Done(Step(d, Failure(k)))
    case Abort => Done(Step(d, Abort))
    case Success(MpuFragmentOf(f)) =>
      var r := ReadFragment(d.streams[p.packetId], p, f);
      Done(Step(d.(streams := d.streams[p.packetId := r.0]), Returned(r.1)))
    case Success(SignalingMessageOf(m)) => ReceiveSignaling(d, p, m)
  }

  /** The compressed-IP header, then the MMTP packet. */
  function ReceiveMmtp(d: Demux, data: seq<byte>): Received
  {
    match CompressedIp.ReadHcfbPacket(data)
    case Err(k) => Done(Step(d, Failure(k)))
    case Panic => Done(Step(d, Abort))
    case Ok(_, b) =>
      match Mmtp.ReadMmtpPacket(b)
      case Err(k) => Done(Step(d, Failure(k)))
      case Panic => Done(Step(d, Abort))
      case Ok(p, _) => ReceivePacket(d, p)
  }

  /** Packets of an outcome, as `read` returns them. */
  function Returned(r: Outcome<seq<Packet>>): ReadOutcome
  {
    match r
    case Success(ps) => Success(Some(ps))
    case Failure(k) => Failure(k)
    case Abort => Abort
  }

  /** The data of a compressed-IP TLV packet: an ECM if the header occurs
      in it (its 148 bytes must be there: `try_into().unwrap()`), an MMTP
      packet otherwise. */
  function ReceiveData(d: Demux, data: seq<byte>): Received
  {
    match EcmFrom(data, 0)
    case Some(i) => ReceiveEcm(d, data, i)
    case None => ReceiveMmtp(d, data)
  }

  /** The ECM whose header starts at `i`: the 148 bytes after the table id
      and section length go to the descrambler. */
  function ReceiveEcm(d: Demux, data: seq<byte>, i: nat): Received
  {
    if i + 2 + EcmLength > |data| then Done(Step(d, Abort))
    else Done(Step(d.(ecms := d.ecms + [data[i + 2..i + 2 + EcmLength]]), Success(Some([]))))
  }

  /** `read` up to the signalling messages: the end of the input, or a TLV
      packet after the next sync byte.  A truncated packet ends the input;
      a packet of another type, or of a type the reader does not know,
      gives no output. */
  function Receive(d: Demux): Received
  {
    if |d.input| == 0 then Done(Step(d, Success(None)))
    else
      match Tlv.TryRead(Resynced(d.input))
      case Ok(Some(p), rest) =>
        if p.packetType == Tlv.CompressedIP then ReceiveData(d.(input := rest), p.data)
        else Done(Step(d.(input := rest), Success(Some([]))))
      case Ok(None, rest) => Done(Step(d.(input := rest), Success(Some([]))))
      case Err(_) => Done(Step(d.(input := []), Success(None)))
      case Panic => Done(Step(d.(input := []), Abort))
  }

  // ---------------------------------------------------------------------
  // What each stage of read promises

  /** A signalling message moves only the defragmenter of its own stream. */
  lemma ReceiveSignalingSpec(d: Demux, p: Mmtp.MmtpPacket, m: Mmtp.SignalingMessage)
    requires p.packetId in d.streams
    ensures var r := ReceiveSignaling(d, p, m);
      (r.Pending? || r == Done(Step(d, Abort))) &&
      (r.Pending? ==>
        r.own == p.packetId && r.demux == d.(streams := r.demux.streams) &&
        p.packetId in r.demux.streams &&
        r.demux.streams == d.streams[p.packetId := r.demux.streams[p.packetId]] &&
        r.demux.streams[p.packetId] == d.streams[p.packetId].(deflag := r.demux.streams[p.packetId].deflag) &&
        (Valid(d) ==> Valid(r.demux)))
  {
    var st := d.streams[p.packetId];
    Deflag.SyncStepSpec(st.deflag, p.packetSequenceNumber);
  }

  /** Dispatching a payload changes only the stream of the packet, and
      not its tables. */
  lemma DispatchSpec(d: Demux, p: Mmtp.MmtpPacket, payload: Outcome<Mmtp.MmtpPayload>)
    requires p.packetId in d.streams
    ensures var r := Dispatch(d, p, payload);
      DemuxOf(r) == d.(streams := DemuxOf(r).streams) &&
      DemuxOf(r).streams.Keys == d.streams.Keys &&
      (forall k :: k in d.streams && k != p.packetId ==> DemuxOf(r).streams[k] == d.streams[k]) &&
      SameTables(d.streams[p.packetId], DemuxOf(r).streams[p.packetId]) &&
      (Valid(d) ==> Valid(DemuxOf(r))) &&
      (r.Pending? ==> r.own == p.packetId)
  {
    match payload
    case Failure(k) =>
    case Abort =>
    case Success(MpuFragmentOf(f)) =>
    case Success(SignalingMessageOf(m)) => ReceiveSignalingSpec(d, p, m);
  }

  /** The stream of an MMTP packet exists afterwards (new streams start
      empty), its tables are kept, no other stream is created, and the
      others are left alone. */
  lemma ReceivePacketSpec(d: Demux, p: Mmtp.MmtpPacket)
    ensures var r := ReceivePacket(d, p);
      Grows(d, DemuxOf(r), p.packetId) && p.packetId in DemuxOf(r).streams &&
      DemuxOf(r).input == d.input && DemuxOf(r).ecms == d.ecms &&
      (forall k :: k in d.streams && k != p.packetId ==> DemuxOf(r).streams[k] == d.streams[k]) &&
      SameTables(if p.packetId in d.streams then d.streams[p.packetId] else NewStream(p.packetId),
                 DemuxOf(r).streams[p.packetId]) &&
      (r.Pending? ==> r.own == p.packetId)
  {
    var streams := if p.packetId in d.streams then d.streams else d.streams[p.packetId := NewStream(p.packetId)];
    var d1 := d.(streams := streams);
    assert Valid(d) ==> Valid(d1);
    DispatchSpec(d1, p, Mmtp.PayloadOf(p));
  }

  /** The packets of an MPU fragment all belong to the packet's stream. */
  lemma ReceivePacketCarries(d: Demux, p: Mmtp.MmtpPacket)
    requires Valid(d)
    ensures var r := ReceivePacket(d, p);
      r.Done? && r.step.out.Success? && r.step.out.value.Some? ==> Carries(p.packetId, r.step.out.value.value)
  {
  }

  lemma ReceiveMmtpSpec(d: Demux, data: seq<byte>)
    ensures var r := ReceiveMmtp(d, data);
      GrowsByOne(d, DemuxOf(r)) && DemuxOf(r).input == d.input && DemuxOf(r).ecms == d.ecms
  {
    match CompressedIp.ReadHcfbPacket(data)
    case Err(k) =>
    case Panic =>
    case Ok(_, b) =>
      match Mmtp.ReadMmtpPacket(b)
      case Err(k) =>
      case Panic =>
      case Ok(p, _) =>
        ReceivePacketSpec(d, p);
        GrowsOne(d, DemuxOf(ReceivePacket(d, p)), p.packetId);
  }

  /** An ECM yields no packets and goes to the descrambler whole, or, cut
      short, panics. */
  lemma ReceiveDataEcm(d: Demux, data: seq<byte>)
    requires EcmFrom(data, 0).Some?
    ensures ReceiveData(d, data) == ReceiveEcm(d, data, EcmFrom(data, 0).value)
  {
  }

  /** An ECM yields no packets and goes to the descrambler whole, its
      bytes after the table id and length first; cut short, it panics. */
  lemma ReceiveEcmSpec(d: Demux, data: seq<byte>, i: nat)
    requires EcmAt(data, i)
    ensures var r := ReceiveEcm(d, data, i);
      r.Done? && r.step.demux.input == d.input && r.step.demux.streams == d.streams &&
      (r.step.out == Abort <==> |data| < i + 2 + EcmLength) &&
      (r.step.out != Abort ==>
        r.step.out == Success(Some([])) && |r.step.demux.ecms| == |d.ecms| + 1 &&
        r.step.demux.ecms[..|d.ecms|] == d.ecms &&
        |r.step.demux.ecms[|d.ecms|]| == EcmLength &&
        r.step.demux.ecms[|d.ecms|][..4] == EcmHeader[2..])
  {
    if i + 2 + EcmLength <= |data| {
      var e := data[i + 2..i + 2 + EcmLength];
      assert e[..4] == data[i..i + 6][2..];
      assert (d.ecms + [e])[..|d.ecms|] == d.ecms;
    }
  }

  lemma ReceiveDataSpec(d: Demux, data: seq<byte>)
    ensures var r := ReceiveData(d, data);
      GrowsByOne(d, DemuxOf(r)) && DemuxOf(r).input == d.input &&
      d.ecms <= DemuxOf(r).ecms && |DemuxOf(r).ecms| <= |d.ecms| + 1
  {
    if EcmFrom(data, 0).None? {
      ReceiveMmtpSpec(d, data);
    }
  }

  /** The stream table grows by at most one stream, the ECMs by at most
      one ECM. */
  lemma ReceiveGrows(d: Demux)
    ensures var r := Receive(d);
      GrowsByOne(d, DemuxOf(r)) &&
      d.ecms <= DemuxOf(r).ecms && |DemuxOf(r).ecms| <= |d.ecms| + 1
  {
    if |d.input| > 0 {
      match Tlv.TryRead(Resynced(d.input))
      case Ok(Some(p), rest) =>
        if p.packetType == Tlv.CompressedIP {
          ReceiveDataSpec(d.(input := rest), p.data);
        }
      case Ok(None, rest) =>
      case Err(_) =>
      case Panic =>
    }
  }

  /** Every read that does not panic consumes input, until there is none. */
  lemma ReceiveProgress(d: Demux)
    requires |d.input| > 0
    ensures var r := Receive(d);
      !(r.Done? && r.step.out.Abort?) ==> |DemuxOf(r).input| < |d.input|
  {
    var s := Resynced(d.input);
    match Tlv.TryRead(s)
    case Ok(Some(p), rest) =>
      assert |rest| < |s|;
      if p.packetType == Tlv.CompressedIP {
        ReceiveDataSpec(d.(input := rest), p.data);
      }
    case Ok(None, rest) =>
    case Err(_) =>
    case Panic =>
  }

  /** The end of the input, a truncated packet, and a packet that is not
      compressed IP. */
  lemma ReceiveOutcomes(d: Demux)
    ensures |d.input| == 0 ==> Receive(d) == Done(Step(d, Success(None)))
    ensures |d.input| > 0 && Tlv.TryRead(Resynced(d.input)).Err? ==>
      Receive(d) == Done(Step(d.(input := []), Success(None)))
    ensures |d.input| > 0 && Tlv.TryRead(Resynced(d.input)).Ok? &&
            (Tlv.TryRead(Resynced(d.input)).value.None? ||
             Tlv.TryRead(Resynced(d.input)).value.value.packetType != Tlv.CompressedIP) ==>
              Receive(d) == Done(Step(d.(input := Tlv.TryRead(Resynced(d.input)).rest), Success(Some([]))))
  {
  }

  /** `MmtDemuxer::read`: the new value and the outcome. */
  function ReadStep(d: Demux): Step
  {
    match Receive(d)
    case Done(s) => s
    case Pending(d1, own, datas) => Deliver(d1, own, ParseMessages(datas))
  }

  /** The end of `read_message`: the assets of the messages read applied
      to the stream table, and every message returned as a packet of the
      stream. */
  function Deliver(d: Demux, own: u16, msgs: Option<seq<Messages.Message>>): Step
  {
    match msgs
    case None => Step(d, Abort)
    case Some(ms) =>
      match ApplyAssets(d.streams, own, MessageAssets(ms))
      case None => Step(d, Abort)
      case Some(streams) => Step(d.(streams := streams), Success(Some(MessagePackets(own, ms))))
  }

  /** Delivering messages changes only the stream table, never its keys,
      and returns every message when no asset panics. */
  lemma DeliverSpec(d: Demux, own: u16, msgs: Option<seq<Messages.Message>>)
    ensures var s := Deliver(d, own, msgs);
      s.demux == d.(streams := s.demux.streams) && s.demux.streams.Keys == d.streams.Keys &&
      (Valid(d) ==> Valid(s.demux)) &&
      (s.out.Success? <==>
        msgs.Some? && ApplyAssets(d.streams, own, MessageAssets(msgs.value)).Some?) &&
      (s.out.Success? ==> s.out == Success(Some(MessagePackets(own, msgs.value))))
  {
  }

  /** One `read`: at most one stream and one ECM more, every stream valid
      as before, and input consumed unless it panics or the input is gone. */
  lemma ReadStepSpec(d: Demux)
    ensures var s := ReadStep(d);
      GrowsByOne(d, s.demux) &&
      d.ecms <= s.demux.ecms && |s.demux.ecms| <= |d.ecms| + 1 &&
      (|d.input| > 0 && !s.out.Abort? ==> |s.demux.input| < |d.input|)
  {
    ReceiveGrows(d);
    if |d.input| > 0 {
      ReceiveProgress(d);
    }
    match Receive(d)
    case Done(_) =>
    case Pending(d1, own, datas) =>
      DeliverSpec(d1, own, ParseMessages(datas));
  }

  // ---------------------------------------------------------------------
  // The object

  /** The eviction loop: `pop_first` while more than 64 entries remain. */
  method EvictOldest<V>(m: map<u32, V>) returns (r: map<u32, V>)
    ensures r == Evict(m)
  {
    r := m;
    while |r| > MaxTimestampDescriptor
      invariant Evict(r) == Evict(m)
      decreases |r|
    {
      var k := MinKey(r.Keys);
      assert (r - {k}).Keys == r.Keys - {k};
      r := r - {k};
    }
  }

  /** The `for` loops over a descriptor's timestamps. */
  method InsertEach<V>(m: map<u32, V>, entries: seq<(u32, V)>) returns (r: map<u32, V>)
    ensures r == InsertAll(m, entries)
  {
    r := m;
    var i := 0;
    while i < |entries|
      invariant 0 <= i <= |entries|
      invariant InsertAll(r, entries[i..]) == InsertAll(m, entries)
    {
      assert entries[i..][1..] == entries[i + 1..];
      r := r[entries[i].0 := entries[i].1];
      i := i + 1;
    }
  }

  /** The `for` loop over an asset's descriptors. */
  method ApplyEach(s: MmtStream, ds: seq<Descriptors.Descriptor>) returns (r: MmtStream)
    ensures r == ApplyDescriptors(s, ds)
  {
    r := s;
    var i := 0;
    while i < |ds|
      invariant 0 <= i <= |ds|
      invariant ApplyDescriptors(r, ds[i..]) == ApplyDescriptors(s, ds)
    {
      assert ds[i..][1..] == ds[i + 1..];
      match ds[i] {
        case MpuTimestampBody(t) =>
          var ts := InsertEach(r.timestamps, TimestampEntries(t.timestamps));
          r := r.(timestamps := ts);
        case MpuExtendedTimestampBody(e) =>
          if e.timescale.Some? {
            r := r.(timescale := e.timescale);
          }
          var ts := InsertEach(r.extTimestamps, ExtendedEntries(e.timestamps));
          r := r.(extTimestamps := ts);
        case _ =>
      }
      i := i + 1;
    }
  }

  class MmtDemuxer {
    var input: seq<byte>
    var streams: map<u16, MmtStream>
    var ecms: seq<seq<byte>>

    function Value(): Demux
      reads this
    {
      Demux(input, streams, ecms)
    }

    /** `MmtDemuxer::new` over the bytes the reader will deliver. */
    constructor (input: seq<byte>)
      ensures Value() == Demux(input, map[], [])
    {
      this.input := input;
      streams := map[];
      ecms := [];
    }

    /** One MPT asset applied in place; `false` is a panic, before
        anything has changed. */
    method ApplyAssetTo(own: u16, a: Tables.MmtAsset) returns (ok: bool)
      modifies this
      ensures ok == ApplyAsset(old(streams), own, a).Some?
      ensures ok ==> streams == ApplyAsset(old(streams), own, a).value
      ensures input == old(input) && ecms == old(ecms)
    {
      if |a.locations| == 0 {
        return false;
      }
      var id := Tables.PacketId(a.locations[|a.locations| - 1]);
      if id.None? {
        return false;
      }
      if id.value !in streams {
        return true;
      }
      if id.value == own {
        return false;
      }
      var s := streams[id.value].(assetType := Some(a.assetType));
      s := ApplyEach(s, a.assetDescriptors);
      var ts := EvictOldest(s.timestamps);
      var ext := EvictOldest(s.extTimestamps);
      streams := streams[id.value := s.(timestamps := ts, extTimestamps := ext)];
      return true;
    }

    /** The loop over the MPT assets of the messages just read. */
    method ApplyAssetsTo(own: u16, assets: seq<Tables.MmtAsset>) returns (ok: bool)
      modifies this
      ensures ok == ApplyAssets(old(streams), own, assets).Some?
      ensures ok ==> streams == ApplyAssets(old(streams), own, assets).value
      ensures input == old(input) && ecms == old(ecms)
    {
      var i := 0;
      while i < |assets|
        invariant 0 <= i <= |assets|
        invariant ApplyAssets(streams, own, assets[i..]) == ApplyAssets(old(streams), own, assets)
        invariant input == old(input) && ecms == old(ecms)
      {
        assert assets[i..][1..] == assets[i + 1..];
        ok := ApplyAssetTo(own, assets[i]);
        if !ok {
          return false;
        }
        i := i + 1;
      }
      return true;
    }

    /** `read`: one TLV packet's worth of packets.  After a panic nothing is
        promised about the state. */
    method Read() returns (r: ReadOutcome)
      modifies this
      ensures r == ReadStep(old(Value())).out
      ensures !r.Abort? ==> Value() == ReadStep(old(Value())).demux
    {
      var d0 := Value();
      var received := Receive(d0);
      assert ReadStep(d0) == (match received
                              case Done(s) => s
                              case Pending(d1, own, datas) => Deliver(d1, own, ParseMessages(datas)));
      match received
      case Done(step) =>
        input, streams, ecms := step.demux.input, step.demux.streams, step.demux.ecms;
        r := step.out;
      case Pending(d, own, datas) =>
        input, streams, ecms := d.input, d.streams, d.ecms;
        r := DeliverMessages(own, ParseMessages(datas));
    }

    /** The end of `read_message` on the demuxer. */
    method DeliverMessages(own: u16, msgs: Option<seq<Messages.Message>>) returns (r: ReadOutcome)
      modifies this
      ensures r == Deliver(old(Value()), own, msgs).out
      ensures !r.Abort? ==> Value() == Deliver(old(Value()), own, msgs).demux
    {
      if msgs.None? {
        return Abort;
      }
      var ok := ApplyAssetsTo(own, MessageAssets(msgs.value));
      r := if ok then Success(Some(MessagePackets(own, msgs.value))) else Abort;
    }

    /** `clear`: every stream is forgotten and the descrambler reset. */
    method Clear()
      modifies this
      ensures Value() == Demux(old(input), map[], [])
    {
      streams := map[];
      ecms := [];
    }
  }
}
