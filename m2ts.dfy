/** The transport-stream packetiser of m2ts.rs: PES data is cut into
    188-byte transport packets (184 bytes of payload after the 4-byte
    header), each PID keeps a 4-bit continuity counter, and a PAT and a PMT
    (sections 2.4.4.3 and 2.4.4.8 of ISO/IEC 13818-1) are emitted on the
    cadence of the decoding timestamps. The packets are modelled as the
    list handed to the writer, not as their bytes. */
module M2ts {
  import opened Wire

  /** A 13-bit packet identifier (`Pid::new` refuses larger values). */
  type Pid = x: int | 0 <= x < 0x2000

  const PatPid: Pid := 0x0000
  const PmtPid: Pid := 0x1000
  /** `PROGRAM_NUM`. */
  const ProgramNum: int := 0x0001
  /** The transport stream id written into every PAT. */
  const TransportStreamId: int := 0x0001
  /** Payload room of one transport packet: 188 bytes less the 4-byte header. */
  const PacketPayload: int := 188 - 4

  /** A seconds value of the source's `f64` timestamps, kept opaque. */
  type Seconds = real

  /** The parts of an `EsInfo` the muxer copies into the PMT untouched. */
  datatype EsInfo = EsInfo(streamType: int, elementaryPid: Pid, descriptors: seq<byte>)

  datatype ProgramAssociation = ProgramAssociation(programNum: int, programMapPid: Pid)

  datatype TsPayload =
    | Pes(streamId: int, dts: Option<Seconds>, pts: Option<Seconds>, data: seq<byte>)
    | Raw(data: seq<byte>)
    | Pat(transportStreamId: int, table: seq<ProgramAssociation>)
    | Pmt(programNum: int, esInfo: seq<EsInfo>)

  /** A transport packet as handed to the writer: pid, continuity counter
      and payload; the other header fields are always the same. */
  datatype TsPacket = TsPacket(pid: Pid, continuityCounter: int, payload: TsPayload)

  /** `M2tsStream`. */
  datatype M2tsStream = M2tsStream(cc: int, streamId: Option<int>, esInfo: Option<EsInfo>)

  /** `ContinuityCounter::increment`: a 4-bit counter. */
  function NextCc(cc: int): (r: int)
    ensures 0 <= r < 16
    ensures 0 <= cc < 15 ==> r == cc + 1
    ensures cc == 15 ==> r == 0
  {
    (cc + 1) % 16
  }

  /** `M2tsStream::new`. */
  const EmptyStream: M2tsStream := M2tsStream(0, None, None)

  /** `default_streams`: only the PAT and the PMT pids. */
  function DefaultStreams(): (r: map<Pid, M2tsStream>)
    ensures r.Keys == {PatPid, PmtPid}
    ensures r[PatPid] == EmptyStream && r[PmtPid] == EmptyStream
  {
    map[PatPid := EmptyStream, PmtPid := EmptyStream]
  }

  // ---------------------------------------------------------------------
  // The muxer value

  /** The value of an `M2tsMuxer` (its writer is the packet list). */
  datatype Muxer = Muxer(streams: map<Pid, M2tsStream>, lastPatPmtTs: Option<Seconds>)

  const Initial: Muxer := Muxer(DefaultStreams(), None)

  /** What every operation keeps: the PAT and PMT pids have an entry and
      every counter is a 4-bit value. */
  predicate Valid(m: Muxer)
  {
    PatPid in m.streams && PmtPid in m.streams && CountersValid(m.streams)
  }

  predicate CountersValid(streams: map<Pid, M2tsStream>)
  {
    forall p :: p in streams ==> 0 <= streams[p].cc < 16
  }

  /** Advance the counter of `pid` once. */
  function Bump(streams: map<Pid, M2tsStream>, pid: Pid): map<Pid, M2tsStream>
    requires pid in streams
  {
    streams[pid := streams[pid].(cc := NextCc(streams[pid].cc))]
  }

  /** `add_stream`: a fresh entry with its counter at 0, replacing any
      entry the pid had. */
  function AddStream(m: Muxer, pid: Pid, streamId: int, esInfo: EsInfo): Muxer
  {
    m.(streams := m.streams[pid := M2tsStream(0, Some(streamId), Some(esInfo))])
  }

  // ---------------------------------------------------------------------
  // PMT contents: the streams in pid order

  /** The pids of `streams` from `p` upwards, in increasing order. */
  function PidsFrom(streams: map<Pid, M2tsStream>, p: int): seq<Pid>
    requires 0 <= p <= 0x2000
    decreases 0x2000 - p
  {
    if p == 0x2000 then []
    else (if p in streams then [p as Pid] else []) + PidsFrom(streams, p + 1)
  }

  /** The pids of `streams` in the order a `BTreeMap` iterates them. */
  function Pids(streams: map<Pid, M2tsStream>): seq<Pid>
  {
    PidsFrom(streams, 0)
  }

  lemma {:induction false} PidsFromSpec(streams: map<Pid, M2tsStream>, p: int)
    requires 0 <= p <= 0x2000
    ensures var r := PidsFrom(streams, p);
      (forall x :: x in r <==> x in streams && p <= x) &&
      (forall i, j :: 0 <= i < j < |r| ==> r[i] < r[j])
    decreases 0x2000 - p
  {
    if p < 0x2000 {
      PidsFromSpec(streams, p + 1);
      var t := PidsFrom(streams, p + 1);
      var r := PidsFrom(streams, p);
      if p in streams {
        assert r == [p as Pid] + t;
        forall i, j | 0 <= i < j < |r|
          ensures r[i] < r[j]
        {
          assert r[j] == t[j - 1] && r[j] in t;
          if i > 0 {
            assert r[i] == t[i - 1];
          }
        }
      } else {
        assert r == t;
      }
    }
  }

  /** Every pid of the table, each once, in increasing order. */
  lemma PidsSpec(streams: map<Pid, M2tsStream>)
    ensures forall x :: x in Pids(streams) <==> x in streams
    ensures forall i, j :: 0 <= i < j < |Pids(streams)| ==> Pids(streams)[i] < Pids(streams)[j]
  {
    PidsFromSpec(streams, 0);
  }

  /** The `es_info` of the listed pids that have one, in that order. */
  function EsInfos(streams: map<Pid, M2tsStream>, pids: seq<Pid>): (r: seq<EsInfo>)
    requires forall x :: x in pids ==> x in streams
    ensures |r| <= |pids|
  {
    if pids == [] then []
    else
      (if streams[pids[0]].esInfo.Some? then [streams[pids[0]].esInfo.value] else []) +
      EsInfos(streams, pids[1..])
  }

  /** The PMT lists the `es_info` of exactly the streams that carry one. */
  lemma {:induction false} EsInfosMembers(streams: map<Pid, M2tsStream>, pids: seq<Pid>, e: EsInfo)
    requires forall x :: x in pids ==> x in streams
    ensures e in EsInfos(streams, pids) <==> exists i :: 0 <= i < |pids| && streams[pids[i]].esInfo == Some(e)
    decreases |pids|
  {
    if pids != [] {
      EsInfosMembers(streams, pids[1..], e);
      if e in EsInfos(streams, pids[1..]) {
        var i :| 0 <= i < |pids[1..]| && streams[pids[1..][i]].esInfo == Some(e);
        assert streams[pids[i + 1]].esInfo == Some(e);
      }
      if exists i :: 0 <= i < |pids| && streams[pids[i]].esInfo == Some(e) {
        var i :| 0 <= i < |pids| && streams[pids[i]].esInfo == Some(e);
        if i > 0 {
          assert streams[pids[1..][i - 1]].esInfo == Some(e);
        }
      }
    }
  }

  /** The PMT of a table: every added stream's `es_info` in pid order. */
  function PmtEsInfo(streams: map<Pid, M2tsStream>): seq<EsInfo>
  {
    PidsSpec(streams);
    EsInfos(streams, Pids(streams))
  }

  lemma PmtEsInfoSpec(streams: map<Pid, M2tsStream>, e: EsInfo)
    ensures e in PmtEsInfo(streams) <==> exists p :: p in streams && streams[p].esInfo == Some(e)
  {
    PidsSpec(streams);
    EsInfosMembers(streams, Pids(streams), e);
    if exists p :: p in streams && streams[p].esInfo == Some(e) {
      var p :| p in streams && streams[p].esInfo == Some(e);
      var i :| 0 <= i < |Pids(streams)| && Pids(streams)[i] == p;
    }
  }

  /** A table with only the default entries gives an empty PMT. */
  lemma DefaultPmtEmpty()
    ensures PmtEsInfo(DefaultStreams()) == []
  {
    var r := PmtEsInfo(DefaultStreams());
    if r != [] {
      PmtEsInfoSpec(DefaultStreams(), r[0]);
    }
  }


  /** The two packets of `emit_pat_pmt` and the new table. */
  function PatPmtStep(streams: map<Pid, M2tsStream>): (map<Pid, M2tsStream>, seq<TsPacket>)
    requires PatPid in streams && PmtPid in streams
  {
    var s1 := Bump(streams, PatPid);
    var s2 := Bump(s1, PmtPid);
    (s2, [TsPacket(PatPid, s1[PatPid].cc, Pat(TransportStreamId, [ProgramAssociation(ProgramNum, PmtPid)])),
          TsPacket(PmtPid, s2[PmtPid].cc, Pmt(ProgramNum, PmtEsInfo(streams)))])
  }

  /** `emit_pat_pmt` writes a PAT whose only entry maps program 1 to the
      PMT pid, then a PMT listing the streams' `es_info`; each of the two
      pids advances its counter before use and no other entry changes. */
  lemma PatPmtStepSpec(streams: map<Pid, M2tsStream>)
    requires PatPid in streams && PmtPid in streams
    ensures var (st, out) := PatPmtStep(streams);
      |out| == 2 && out[0].pid == PatPid && out[1].pid == PmtPid &&
      out[0].payload == Pat(TransportStreamId, [ProgramAssociation(ProgramNum, PmtPid)]) &&
      out[1].payload == Pmt(ProgramNum, PmtEsInfo(streams)) &&
      out[0].continuityCounter == NextCc(streams[PatPid].cc) == st[PatPid].cc &&
      out[1].continuityCounter == NextCc(streams[PmtPid].cc) == st[PmtPid].cc &&
      st.Keys == streams.Keys &&
      (forall p :: p in streams ==> st[p].streamId == streams[p].streamId && st[p].esInfo == streams[p].esInfo) &&
      (forall p :: p in streams && p != PatPid && p != PmtPid ==> st[p] == streams[p]) &&
      (CountersValid(streams) ==> CountersValid(st))
  {
  }

  /** The PAT/PMT step keeps the entry of `pid` and its stream id. */
  lemma PatPmtKeepsStream(streams: map<Pid, M2tsStream>, pid: Pid)
    requires PatPid in streams && PmtPid in streams && pid in streams
    ensures pid in PatPmtStep(streams).0 && PatPmtStep(streams).0[pid].streamId == streams[pid].streamId
  {
  }

  // ---------------------------------------------------------------------
  // PES packetisation

  /** `9 + 5` per timestamp present: the PES header size. */
  function HeaderLen(dts: Option<Seconds>, pts: Option<Seconds>): int
  {
    9 + (if dts.Some? then 5 else 0) + (if pts.Some? then 5 else 0)
  }

  /** Bytes of `data` the first packet carries. */
  function FirstChunk(data: seq<byte>, headerLen: int): nat
    requires 9 <= headerLen <= 19
  {
    if |data| < PacketPayload - headerLen then |data| else PacketPayload - headerLen
  }

  /** Bytes of `rest` the next later packet carries. */
  function NextChunk(rest: seq<byte>): nat
  {
    if |rest| < PacketPayload then |rest| else PacketPayload
  }

  /** The packets after the first: up to 184 bytes each, counters advancing
      from `cc`. */
  function RawPackets(pid: Pid, cc: int, data: seq<byte>): seq<TsPacket>
    decreases |data|
  {
    if |data| == 0 then []
    else [TsPacket(pid, NextCc(cc), Raw(data[..NextChunk(data)]))] + RawPackets(pid, NextCc(cc), data[NextChunk(data)..])
  }

  /** The counter after `RawPackets(pid, cc, data)`. */
  function RawCc(cc: int, data: seq<byte>): int
    decreases |data|
  {
    if |data| == 0 then cc else RawCc(NextCc(cc), data[NextChunk(data)..])
  }

  function PayloadData(t: TsPacket): seq<byte>
  {
    match t.payload
    case Pes(_, _, _, data) => data
    case Raw(data) => data
    case Pat(_, _) => []
    case Pmt(_, _) => []
  }

  /** The data the packets carry, in order. */
  function Payloads(ts: seq<TsPacket>): seq<byte>
  {
    if ts == [] then [] else PayloadData(ts[0]) + Payloads(ts[1..])
  }

  lemma PayloadsCons(t: TsPacket, ts: seq<TsPacket>)
    ensures Payloads([t] + ts) == PayloadData(t) + Payloads(ts)
  {
    assert ([t] + ts)[1..] == ts;
  }

  lemma ModShift(a: int, b: int)
    ensures (a % 16 + b) % 16 == (a + b) % 16
  {
    assert a == a / 16 * 16 + a % 16;
  }

  /** The later packets carry the data back in order. */
  lemma {:induction false} RawPacketsPayloads(pid: Pid, cc: int, data: seq<byte>)
    ensures Payloads(RawPackets(pid, cc, data)) == data
    decreases |data|
  {
    if |data| > 0 {
      var n := NextChunk(data);
      RawPacketsPayloads(pid, NextCc(cc), data[n..]);
      PayloadsCons(TsPacket(pid, NextCc(cc), Raw(data[..n])), RawPackets(pid, NextCc(cc), data[n..]));
      assert data == data[..n] + data[n..];
    }
  }

  /** Each later packet is a raw packet on `pid` with 1 to 184 bytes and
      the counter one step past the one before; the counter ends where
      the last packet left it. */
  lemma {:induction false} RawPacketsShape(pid: Pid, cc: int, data: seq<byte>)
    ensures var ts := RawPackets(pid, cc, data);
      (forall i :: 0 <= i < |ts| ==>
        ts[i].pid == pid && ts[i].payload.Raw? && 0 < |ts[i].payload.data| <= PacketPayload &&
        ts[i].continuityCounter == (cc + i + 1) % 16) &&
      RawCc(cc, data) == (if |ts| == 0 then cc else (cc + |ts|) % 16) &&
      (|data| > 0 <==> |ts| > 0)
    decreases |data|
  {
    if |data| > 0 {
      var n := NextChunk(data);
      RawPacketsShape(pid, NextCc(cc), data[n..]);
      var ts := RawPackets(pid, cc, data);
      var tail := RawPackets(pid, NextCc(cc), data[n..]);
      assert ts == [ts[0]] + tail;
      forall i | 1 <= i < |ts|
        ensures ts[i].continuityCounter == (cc + i + 1) % 16
      {
        assert ts[i] == tail[i - 1];
        ModShift(cc + 1, i);
      }
      ModShift(cc + 1, |tail|);
    }
  }

  /** The packets of one `write_pes` call on a stream with counter `cc`:
      a PES packet with the header and as much data as fits, then raw
      packets for the rest. */
  function PesPackets(pid: Pid, cc: int, streamId: int, data: seq<byte>,
                      dts: Option<Seconds>, pts: Option<Seconds>): seq<TsPacket>
  {
    var n := FirstChunk(data, HeaderLen(dts, pts));
    [TsPacket(pid, NextCc(cc), Pes(streamId, dts, pts, data[..n]))] + RawPackets(pid, NextCc(cc), data[n..])
  }

  /** The first packet is a PES packet with the timestamps and at most
      `184 - header_len` bytes; all packets together carry the data back
      in order. */
  lemma PesPacketsPayloads(pid: Pid, cc: int, streamId: int, data: seq<byte>,
                           dts: Option<Seconds>, pts: Option<Seconds>)
    ensures var ts := PesPackets(pid, cc, streamId, data, dts, pts);
      |ts| >= 1 && ts[0].payload == Pes(streamId, dts, pts, ts[0].payload.data) &&
      |ts[0].payload.data| == (if |data| < PacketPayload - HeaderLen(dts, pts) then |data| else PacketPayload - HeaderLen(dts, pts)) &&
      Payloads(ts) == data
  {
    var n := FirstChunk(data, HeaderLen(dts, pts));
    var ts := PesPackets(pid, cc, streamId, data, dts, pts);
    var tail := RawPackets(pid, NextCc(cc), data[n..]);
    RawPacketsPayloads(pid, NextCc(cc), data[n..]);
    PayloadsCons(ts[0], tail);
    assert data == data[..n] + data[n..];
  }

  /** All packets are on `pid`, the later ones raw with 1 to 184 bytes,
      and the counter advances once per packet. */
  lemma PesPacketsShape(pid: Pid, cc: int, streamId: int, data: seq<byte>,
                        dts: Option<Seconds>, pts: Option<Seconds>)
    ensures var ts := PesPackets(pid, cc, streamId, data, dts, pts);
      |ts| >= 1 &&
      (forall i :: 1 <= i < |ts| ==> ts[i].payload.Raw? && 0 < |ts[i].payload.data| <= PacketPayload) &&
      (forall i :: 0 <= i < |ts| ==> ts[i].pid == pid && ts[i].continuityCounter == (cc + i + 1) % 16)
  {
    var n := FirstChunk(data, HeaderLen(dts, pts));
    var ts := PesPackets(pid, cc, streamId, data, dts, pts);
    var tail := RawPackets(pid, NextCc(cc), data[n..]);
    RawPacketsShape(pid, NextCc(cc), data[n..]);
    forall i | 1 <= i < |ts|
      ensures ts[i] == tail[i - 1] && ts[i].continuityCounter == (cc + i + 1) % 16
    {
      assert ts[i] == tail[i - 1];
      ModShift(cc + 1, i);
    }
  }

  /** The PES part of `write_pes`: the packets and the table with the
      pid's counter where the last packet left it. */
  function PesStep(streams: map<Pid, M2tsStream>, pid: Pid, data: seq<byte>,
                   dts: Option<Seconds>, pts: Option<Seconds>): (map<Pid, M2tsStream>, seq<TsPacket>)
    requires pid in streams && streams[pid].streamId.Some?
  {
    var s := streams[pid];
    var n := FirstChunk(data, HeaderLen(dts, pts));
    (streams[pid := s.(cc := RawCc(NextCc(s.cc), data[n..]))], PesPackets(pid, s.cc, s.streamId.value, data, dts, pts))
  }

  /** After the PES part the pid's counter is the one its last packet
      carries, and no other entry has changed. */
  lemma PesStepSpec(streams: map<Pid, M2tsStream>, pid: Pid, data: seq<byte>,
                    dts: Option<Seconds>, pts: Option<Seconds>)
    requires pid in streams && streams[pid].streamId.Some?
    ensures var (st, ts) := PesStep(streams, pid, data, dts, pts);
      |ts| >= 1 && st.Keys == streams.Keys && st[pid].cc == ts[|ts| - 1].continuityCounter &&
      st[pid] == streams[pid].(cc := st[pid].cc) &&
      (forall p :: p in streams && p != pid ==> st[p] == streams[p]) &&
      (CountersValid(streams) ==> CountersValid(st))
  {
    var s := streams[pid];
    var n := FirstChunk(data, HeaderLen(dts, pts));
    var ts := PesPackets(pid, s.cc, s.streamId.value, data, dts, pts);
    PesPacketsShape(pid, s.cc, s.streamId.value, data, dts, pts);
    RawPacketsShape(pid, NextCc(s.cc), data[n..]);
    var tail := RawPackets(pid, NextCc(s.cc), data[n..]);
    assert ts == [ts[0]] + tail;
    if |tail| > 0 {
      assert ts[|ts| - 1] == tail[|tail| - 1];
    }
  }

  /** Whether PAT and PMT go out before a PES: only with a decoding
      timestamp, and then when none went out yet or `refresh(dts, last)`
      holds (the source tests `dts - last < 0.1`). */
  predicate PatPmtDue(last: Option<Seconds>, dts: Option<Seconds>, refresh: (Seconds, Seconds) -> bool)
  {
    dts.Some? && (last.None? || refresh(dts.value, last.value))
  }

  /** The packets of one PES on `pid`: a PES packet first, the data
      carried back in order, the counter advancing once per packet. */
  predicate PesRun(ts: seq<TsPacket>, pid: Pid, data: seq<byte>)
  {
    |ts| >= 1 && ts[0].payload.Pes? && Payloads(ts) == data &&
    forall i :: 0 <= i < |ts| ==> ts[i].pid == pid && ts[i].continuityCounter == (ts[0].continuityCounter + i) % 16
  }

  /** The PES part writes a `PesRun` whose first counter is one past the
      pid's. */
  lemma PesStepRun(streams: map<Pid, M2tsStream>, pid: Pid, data: seq<byte>,
                   dts: Option<Seconds>, pts: Option<Seconds>)
    requires pid in streams && streams[pid].streamId.Some?
    ensures var ts := PesStep(streams, pid, data, dts, pts).1;
      PesRun(ts, pid, data) && ts[0].continuityCounter == NextCc(streams[pid].cc)
  {
    var s := streams[pid];
    var ts := PesStep(streams, pid, data, dts, pts).1;
    PesPacketsShape(pid, s.cc, s.streamId.value, data, dts, pts);
    PesPacketsPayloads(pid, s.cc, s.streamId.value, data, dts, pts);
    forall i | 0 <= i < |ts|
      ensures ts[i].continuityCounter == (ts[0].continuityCounter + i) % 16
    {
      ModShift(s.cc + 1, i);
    }
  }

  /** What `write_pes` promises when PAT and PMT are due: those two
      packets come first, then the PES packets on `pid`, which carry the
      data back with the counter advancing once per packet and left where
      the last packet put it; no entry is added or removed and none but
      the pid's, the PAT's and the PMT's changes. */
  lemma WritePesWithPatPmt(streams: map<Pid, M2tsStream>, pid: Pid, data: seq<byte>,
                           dts: Option<Seconds>, pts: Option<Seconds>)
    requires Valid(Muxer(streams, dts)) && pid in streams && streams[pid].streamId.Some?
    ensures var st1 := PatPmtStep(streams).0;
      var st := PesStep(st1, pid, data, dts, pts).0;
      var out := PatPmtStep(streams).1 + PesStep(st1, pid, data, dts, pts).1;
      Valid(Muxer(st, dts)) && st.Keys == streams.Keys &&
      |out| > 2 && out[0].payload.Pat? && out[1].payload.Pmt? && PesRun(out[2..], pid, data) &&
      st[pid].cc == out[|out| - 1].continuityCounter &&
      (forall p :: p in streams && p != pid && p != PatPid && p != PmtPid ==> st[p] == streams[p])
  {
    PatPmtStepSpec(streams);
    var st1 := PatPmtStep(streams).0;
    var pre := PatPmtStep(streams).1;
    var ts := PesStep(st1, pid, data, dts, pts).1;
    PesStepSpec(st1, pid, data, dts, pts);
    PesStepRun(st1, pid, data, dts, pts);
    assert (pre + ts)[2..] == ts;
    assert (pre + ts)[|pre + ts| - 1] == ts[|ts| - 1];
  }

  /** What `write_pes` promises otherwise: only the PES packets, as above,
      the first with the counter one past the pid's, and nothing but the
      pid's counter changes. */
  lemma WritePesAlone(m: Muxer, pid: Pid, data: seq<byte>, dts: Option<Seconds>, pts: Option<Seconds>)
    requires Valid(m) && pid in m.streams && m.streams[pid].streamId.Some?
    ensures var (st, out) := PesStep(m.streams, pid, data, dts, pts);
      Valid(Muxer(st, m.lastPatPmtTs)) && st.Keys == m.streams.Keys &&
      PesRun(out, pid, data) && out[0].continuityCounter == NextCc(m.streams[pid].cc) &&
      st[pid].cc == out[|out| - 1].continuityCounter &&
      (forall p :: p in m.streams && p != pid ==> st[p] == m.streams[p])
  {
    PesStepSpec(m.streams, pid, data, dts, pts);
    PesStepRun(m.streams, pid, data, dts, pts);
  }

  /** The whole of `write_pes`: the new muxer and the packets written,
      PAT and PMT first when they are due. */
  function WritePesStep(m: Muxer, pid: Pid, data: seq<byte>, dts: Option<Seconds>, pts: Option<Seconds>,
                        refresh: (Seconds, Seconds) -> bool): (Muxer, seq<TsPacket>)
    requires Valid(m) && pid in m.streams && m.streams[pid].streamId.Some?
  {
    if PatPmtDue(m.lastPatPmtTs, dts, refresh) then
      PatPmtStepSpec(m.streams);
      var (st1, pre) := PatPmtStep(m.streams);
      var (st, ts) := PesStep(st1, pid, data, dts, pts);
      (Muxer(st, dts), pre + ts)
    else
      var (st, ts) := PesStep(m.streams, pid, data, dts, pts);
      (Muxer(st, m.lastPatPmtTs), ts)
  }

  /** `WritePesStep` by cases, in the terms `M2tsMuxer.WritePes` states. */
  lemma WritePesStepCases(m: Muxer, pid: Pid, data: seq<byte>, dts: Option<Seconds>, pts: Option<Seconds>,
                          refresh: (Seconds, Seconds) -> bool)
    requires Valid(m) && pid in m.streams && m.streams[pid].streamId.Some?
    ensures PatPmtDue(m.lastPatPmtTs, dts, refresh) ==>
      WritePesStep(m, pid, data, dts, pts, refresh) ==
        (Muxer(PesStep(PatPmtStep(m.streams).0, pid, data, dts, pts).0, dts),
         PatPmtStep(m.streams).1 + PesStep(PatPmtStep(m.streams).0, pid, data, dts, pts).1)
    ensures !PatPmtDue(m.lastPatPmtTs, dts, refresh) ==>
      WritePesStep(m, pid, data, dts, pts, refresh) ==
        (Muxer(PesStep(m.streams, pid, data, dts, pts).0, m.lastPatPmtTs), PesStep(m.streams, pid, data, dts, pts).1)
  {
  }

  /** `write_pes` keeps the muxer valid, adds and removes no entry, keeps
      every entry's stream id, and writes a run of PES packets carrying the
      data, after a PAT and a PMT when they are due. */
  lemma WritePesStepSpec(m: Muxer, pid: Pid, data: seq<byte>, dts: Option<Seconds>, pts: Option<Seconds>,
                         refresh: (Seconds, Seconds) -> bool)
    requires Valid(m) && pid in m.streams && m.streams[pid].streamId.Some?
    ensures var (m', out) := WritePesStep(m, pid, data, dts, pts, refresh);
      Valid(m') && m'.streams.Keys == m.streams.Keys &&
      (forall p :: p in m.streams ==> m'.streams[p].streamId == m.streams[p].streamId) &&
      (if PatPmtDue(m.lastPatPmtTs, dts, refresh)
       then m'.lastPatPmtTs == dts && |out| > 2 && out[0].payload.Pat? && out[1].payload.Pmt? && PesRun(out[2..], pid, data)
       else m'.lastPatPmtTs == m.lastPatPmtTs && PesRun(out, pid, data))
  {
    if PatPmtDue(m.lastPatPmtTs, dts, refresh) {
      PatPmtStepSpec(m.streams);
      var st1 := PatPmtStep(m.streams).0;
      PesStepSpec(st1, pid, data, dts, pts);
      WritePesWithPatPmt(m.streams, pid, data, dts, pts);
    } else {
      PesStepSpec(m.streams, pid, data, dts, pts);
      WritePesAlone(m, pid, data, dts, pts);
    }
  }

  // ---------------------------------------------------------------------
  // The PAT/PMT cadence

  /** The cadence test as written: PAT and PMT go out again when less
      than 100 ms passed since the last ones. */
  predicate RefreshAsWritten(dts: Seconds, last: Seconds)
  {
    dts - last < 0.1
  }

  /** The cadence the comment above the test announces: again once
      100 ms have passed. */
  predicate RefreshEvery100ms(dts: Seconds, last: Seconds)
  {
    dts - last >= 0.1
  }

  /** As written, PAT and PMT go out before every timed PES that follows
      the last ones within 100 ms... */
  lemma CadenceAsWrittenRepeats(m: Muxer, pid: Pid, data: seq<byte>, dts: Seconds, pts: Option<Seconds>)
    requires Valid(m) && pid in m.streams && m.streams[pid].streamId.Some?
    requires m.lastPatPmtTs.Some? && m.lastPatPmtTs.value <= dts < m.lastPatPmtTs.value + 0.1
    ensures var (m', out) := WritePesStep(m, pid, data, Some(dts), pts, RefreshAsWritten);
      m'.lastPatPmtTs == Some(dts) && out[0].payload.Pat?
  {
    WritePesStepSpec(m, pid, data, Some(dts), pts, RefreshAsWritten);
  }

  /** ... and once 100 ms pass without a timed PES they never go out
      again for a later timestamp: the last emission time stays put and
      only PES packets are written. */
  lemma CadenceAsWrittenStops(m: Muxer, pid: Pid, data: seq<byte>, dts: Seconds, pts: Option<Seconds>)
    requires Valid(m) && pid in m.streams && m.streams[pid].streamId.Some?
    requires m.lastPatPmtTs.Some? && dts >= m.lastPatPmtTs.value + 0.1
    ensures var (m', out) := WritePesStep(m, pid, data, Some(dts), pts, RefreshAsWritten);
      m'.lastPatPmtTs == m.lastPatPmtTs && PesRun(out, pid, data)
  {
    WritePesStepSpec(m, pid, data, Some(dts), pts, RefreshAsWritten);
  }

  /** With the corrected test, a PES starts with PAT and PMT exactly when
      it has a decoding timestamp and none went out yet or at least 100 ms
      passed since they last did; consecutive emissions are then at least
      100 ms apart. */
  lemma CadenceEvery100ms(m: Muxer, pid: Pid, data: seq<byte>, dts: Option<Seconds>, pts: Option<Seconds>)
    requires Valid(m) && pid in m.streams && m.streams[pid].streamId.Some?
    ensures var (m', out) := WritePesStep(m, pid, data, dts, pts, RefreshEvery100ms);
      (out[0].payload.Pat? <==> dts.Some? && (m.lastPatPmtTs.None? || dts.value >= m.lastPatPmtTs.value + 0.1)) &&
      (out[0].payload.Pat? ==> m'.lastPatPmtTs == dts) &&
      (!out[0].payload.Pat? ==> m'.lastPatPmtTs == m.lastPatPmtTs)
  {
    WritePesStepSpec(m, pid, data, dts, pts, RefreshEvery100ms);
  }

  // ---------------------------------------------------------------------
  // The object

  class M2tsMuxer {
    var streams: map<Pid, M2tsStream>
    var lastPatPmtTs: Option<Seconds>
    /** What went to the writer, oldest first. */
    var written: seq<TsPacket>

    function Value(): Muxer
      reads this
    {
      Muxer(streams, lastPatPmtTs)
    }

    /** `M2tsMuxer::new`. */
    constructor ()
      ensures Value() == Initial && written == []
    {
      streams := DefaultStreams();
      lastPatPmtTs := None;
      written := [];
    }

    /** `add_stream`. */
    method AddStreamTo(pid: Pid, streamId: int, esInfo: EsInfo)
      modifies this
      ensures Value() == AddStream(old(Value()), pid, streamId, esInfo)
      ensures written == old(written)
    {
      streams := streams[pid := M2tsStream(0, Some(streamId), Some(esInfo))];
    }

    /** `M2tsStream::next_cc` on the entry of `pid`. */
    method NextCcOf(pid: Pid) returns (cc: int)
      requires pid in streams
      modifies this
      ensures streams == Bump(old(streams), pid) && cc == streams[pid].cc
      ensures lastPatPmtTs == old(lastPatPmtTs) && written == old(written)
    {
      var s := streams[pid];
      cc := NextCc(s.cc);
      streams := streams[pid := s.(cc := cc)];
    }

    /** `emit_pat_pmt`. */
    method EmitPatPmt()
      requires PatPid in streams && PmtPid in streams
      modifies this
      ensures streams == PatPmtStep(old(streams)).0
      ensures written == old(written) + PatPmtStep(old(streams)).1
      ensures lastPatPmtTs == old(lastPatPmtTs)
    {
      var esInfo := PmtEsInfo(streams);
      var patCc := NextCcOf(PatPid);
      written := written + [TsPacket(PatPid, patCc, Pat(TransportStreamId, [ProgramAssociation(ProgramNum, PmtPid)]))];
      var pmtCc := NextCcOf(PmtPid);
      written := written + [TsPacket(PmtPid, pmtCc, Pmt(ProgramNum, esInfo))];
    }

    /** The packetising part of `write_pes`: a PES packet with the header,
        then raw packets while data remains. */
    method WritePesPackets(pid: Pid, data: seq<byte>, dts: Option<Seconds>, pts: Option<Seconds>)
      requires pid in streams && streams[pid].streamId.Some?
      modifies this
      ensures streams == PesStep(old(streams), pid, data, dts, pts).0
      ensures written == old(written) + PesStep(old(streams), pid, data, dts, pts).1
      ensures lastPatPmtTs == old(lastPatPmtTs)
    {
      ghost var s0 := streams;
      ghost var before := written;
      var streamId := streams[pid].streamId.value;
      var headerLen := 9;
      if dts.Some? {
        headerLen := headerLen + 5;
      }
      if pts.Some? {
        headerLen := headerLen + 5;
      }
      var n := if |data| < PacketPayload - headerLen then |data| else PacketPayload - headerLen;
      var cc := NextCcOf(pid);
      written := written + [TsPacket(pid, cc, Pes(streamId, dts, pts, data[..n]))];
      WriteRawPackets(pid, data[n..]);
    }

    /** The tail of `write_pes`: the rest of the data in packets of up to
        184 bytes, each taking the pid's next counter. */
    method WriteRawPackets(pid: Pid, data: seq<byte>)
      requires pid in streams
      modifies this
      ensures pid in old(streams)
      ensures streams == old(streams)[pid := old(streams)[pid].(cc := RawCc(old(streams)[pid].cc, data))]
      ensures written == old(written) + RawPackets(pid, old(streams)[pid].cc, data)
      ensures lastPatPmtTs == old(lastPatPmtTs)
    {
      ghost var s0 := streams;
      ghost var before := written;
      var rest := data;
      var cc := streams[pid].cc;
      while |rest| > 0
        invariant pid in streams && streams == s0[pid := s0[pid].(cc := cc)]
        invariant written + RawPackets(pid, cc, rest) == before + RawPackets(pid, s0[pid].cc, data)
        invariant RawCc(cc, rest) == RawCc(s0[pid].cc, data)
        invariant lastPatPmtTs == old(lastPatPmtTs)
        decreases |rest|
      {
        var k := if |rest| < PacketPayload then |rest| else PacketPayload;
        assert RawPackets(pid, cc, rest) == [TsPacket(pid, NextCc(cc), Raw(rest[..k]))] + RawPackets(pid, NextCc(cc), rest[k..]);
        cc := NextCcOf(pid);
        written := written + [TsPacket(pid, cc, Raw(rest[..k]))];
        rest := rest[k..];
      }
    }

    /** `write_pes`; the pid must have been added with a stream id (the
        source unwraps its entry and the id). */
    method WritePes(pid: Pid, data: seq<byte>, dts: Option<Seconds>, pts: Option<Seconds>,
                    refresh: (Seconds, Seconds) -> bool)
      requires Valid(Value()) && pid in streams && streams[pid].streamId.Some?
      modifies this
      ensures Value() == WritePesStep(old(Value()), pid, data, dts, pts, refresh).0
      ensures written == old(written) + WritePesStep(old(Value()), pid, data, dts, pts, refresh).1
    {
      WritePesStepCases(Value(), pid, data, dts, pts, refresh);
      if PatPmtDue(lastPatPmtTs, dts, refresh) {
        WritePesAfterPatPmt(pid, data, dts, pts);
      } else {
        WritePesPackets(pid, data, dts, pts);
      }
    }

    /** `write_pes` when PAT and PMT are due: they are emitted, the time
        is recorded, and the data is packetised after them. */
    method WritePesAfterPatPmt(pid: Pid, data: seq<byte>, dts: Option<Seconds>, pts: Option<Seconds>)
      requires PatPid in streams && PmtPid in streams && pid in streams && streams[pid].streamId.Some?
      modifies this
      ensures streams == PesStep(PatPmtStep(old(streams)).0, pid, data, dts, pts).0
      ensures written == old(written) + (PatPmtStep(old(streams)).1 + PesStep(PatPmtStep(old(streams)).0, pid, data, dts, pts).1)
      ensures lastPatPmtTs == dts
    {
      ghost var w0 := written;
      ghost var (st1, pre) := PatPmtStep(streams);
      PatPmtKeepsStream(streams, pid);
      EmitPatPmt();
      assert streams == st1 && written == w0 + pre;
      lastPatPmtTs := dts;
      WritePesPackets(pid, data, dts, pts);
      assert written == w0 + pre + PesStep(st1, pid, data, dts, pts).1;
    }

    /** `clear`: back to the default table and no PAT/PMT emitted yet. */
    method Clear()
      modifies this
      ensures Value() == Initial && written == old(written)
    {
      streams := DefaultStreams();
      lastPatPmtTs := None;
    }
  }

  /** `new` and `clear` leave exactly the PAT and PMT entries, with no
      emission recorded and nothing for the PMT to list. */
  lemma InitialSpec()
    ensures Valid(Initial) && Initial.streams.Keys == {PatPid, PmtPid} && Initial.lastPatPmtTs.None?
    ensures PmtEsInfo(Initial.streams) == []
  {
    DefaultPmtEmpty();
  }

  /** `add_stream` resets the counter of a pid it replaces, keeps every
      other entry and lists the stream's `es_info` in the next PMT. */
  lemma AddStreamSpec(m: Muxer, pid: Pid, streamId: int, esInfo: EsInfo)
    requires Valid(m)
    ensures var m' := AddStream(m, pid, streamId, esInfo);
      Valid(m') && m'.streams.Keys == m.streams.Keys + {pid} &&
      m'.streams[pid].cc == 0 && esInfo in PmtEsInfo(m'.streams) &&
      (forall p :: p in m.streams && p != pid ==> m'.streams[p] == m.streams[p])
  {
    var m' := AddStream(m, pid, streamId, esInfo);
    PmtEsInfoSpec(m'.streams, esInfo);
  }
}
