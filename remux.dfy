// The remuxer between the MMT demuxer and the transport-stream muxer
// (crates/chibitv/src/remux.rs): it routes the first HEVC and the first
// AAC asset of an MPT to fixed pids, hands the MH-EIT, MH-BIT and MH-SDT
// sections to the registry, and signals a change of the current event.

module Remux {
  import opened Wire
  import Tables
  import Sections
  import Messages
  import Mmt
  import M2ts
  import Registry

  const VideoPid: M2ts.Pid := 0x1011
  const AudioPid: M2ts.Pid := 0x1100
  const VideoStreamId: int := 0xE0
  const AudioStreamId: int := 0xC0

  /** H.265 (stream type 0x24) with a registration descriptor: tag 0x05,
      length 4, "HEVC". */
  const VideoEsInfo: M2ts.EsInfo := M2ts.EsInfo(0x24, VideoPid, [0x05, 0x04, 0x48, 0x45, 0x56, 0x43])

  /** MPEG-4 audio in LATM/LOAS (stream type 0x11), no descriptors. */
  const AudioEsInfo: M2ts.EsInfo := M2ts.EsInfo(0x11, AudioPid, [])

  datatype Signal = EventChanged(eventId: u16)

  /** The value of a `Remuxer`: the routing map, the current event, the
      signals sent so far, the muxer with what it wrote, and the registry. */
  datatype Remux = Remux(
    pidMap: map<u16, M2ts.Pid>,
    currentEventId: Option<u16>,
    signals: seq<Signal>,
    mux: M2ts.Muxer,
    written: seq<M2ts.TsPacket>,
    broadcasters: map<byte, Registry.Broadcaster>,
    services: map<u16, Registry.Service>)

  /** Every routed pid was added to the muxer with a stream id, so that
      `write_pes` finds it. */
  predicate Consistent(r: Remux)
  {
    M2ts.Valid(r.mux) && Routed(r.pidMap, r.mux)
  }

  predicate Routed(pidMap: map<u16, M2ts.Pid>, m: M2ts.Muxer)
  {
    forall k :: k in pidMap ==> pidMap[k] in m.streams && m.streams[pidMap[k]].streamId.Some?
  }

  // ---------------------------------------------------------------------
  // read_pa_message

  /** The packet id of the first asset of type `t`, unless one was routed
      already. */
  function Added(assets: seq<Tables.MmtAsset>, t: seq<byte>, has: bool): (r: Option<u16>)
    ensures r.Some? ==> !has && exists i :: (0 <= i < |assets| && assets[i].assetType == t &&
                                             Mmt.AssetPacketId(assets[i]) == r &&
                                             forall j :: 0 <= j < i ==> assets[j].assetType != t)
    decreases |assets|
  {
    if has || |assets| == 0 then None
    else if assets[0].assetType == t then Mmt.AssetPacketId(assets[0])
    else
      var r := Added(assets[1..], t, has);
      assert r.Some? ==> exists i :: (1 <= i < |assets| && assets[i].assetType == t &&
                                      Mmt.AssetPacketId(assets[i]) == r &&
                                      forall j :: 0 <= j < i ==> assets[j].assetType != t) by {
        if r.Some? {
          var i :| 0 <= i < |assets[1..]| && assets[1..][i].assetType == t &&
            Mmt.AssetPacketId(assets[1..][i]) == r && forall j :: 0 <= j < i ==> assets[1..][j].assetType != t;
          assert forall j :: 1 <= j < i + 1 ==> assets[j] == assets[1..][j - 1];
        }
      }
      r
  }

  /** Conversely, a type not routed yet is routed for the first asset of
      that type in the table, with that asset's packet id. */
  lemma {:induction false} AddedFirst(assets: seq<Tables.MmtAsset>, t: seq<byte>, i: int)
    requires 0 <= i < |assets| && assets[i].assetType == t
    requires forall j :: 0 <= j < i ==> assets[j].assetType != t
    ensures Added(assets, t, false) == Mmt.AssetPacketId(assets[i])
    decreases |assets|
  {
    if i > 0 {
      assert assets[1..][i - 1] == assets[i];
      AddedFirst(assets[1..], t, i - 1);
    }
  }

  /** The index of the first asset of type `t`, or the length of the
      table when there is none. */
  function FirstOf(assets: seq<Tables.MmtAsset>, t: seq<byte>): (i: nat)
    ensures i <= |assets| && (i < |assets| ==> assets[i].assetType == t)
    ensures forall j :: 0 <= j < i ==> assets[j].assetType != t
    decreases |assets|
  {
    if |assets| == 0 then 0
    else if assets[0].assetType == t then 0
    else
      var i := FirstOf(assets[1..], t);
      assert forall j :: 1 <= j < i + 1 ==> assets[j] == assets[1..][j - 1];
      i + 1
  }

  /** The asset loop of one MPT, with the `has_video` and `has_audio`
      flags; `None` is the panic of an asset whose last location names no
      packet id. */
  function MptStep(pidMap: map<u16, M2ts.Pid>, m: M2ts.Muxer, assets: seq<Tables.MmtAsset>,
                   hasVideo: bool, hasAudio: bool): Option<(map<u16, M2ts.Pid>, M2ts.Muxer)>
    decreases |assets|
  {
    if |assets| == 0 then Some((pidMap, m))
    else match Mmt.AssetPacketId(assets[0])
      case None => None
      case Some(id) =>
        if assets[0].assetType == Mmt.Hev1 && !hasVideo then
          MptStep(pidMap[id := VideoPid], M2ts.AddStream(m, VideoPid, VideoStreamId, VideoEsInfo), assets[1..], true, hasAudio)
        else if assets[0].assetType == Mmt.Mp4a && !hasAudio then
          MptStep(pidMap[id := AudioPid], M2ts.AddStream(m, AudioPid, AudioStreamId, AudioEsInfo), assets[1..], hasVideo, true)
        else MptStep(pidMap, m, assets[1..], hasVideo, hasAudio)
  }

  /** `read_pa_message`: the MPTs of a message, the first of them that
      finds the map empty filling it; once the map holds a route, the rest
      of the message is ignored. */
  function PaStep(pidMap: map<u16, M2ts.Pid>, m: M2ts.Muxer, tables: seq<Sections.Table>): Option<(map<u16, M2ts.Pid>, M2ts.Muxer)>
    decreases |tables|
  {
    if |tables| == 0 then Some((pidMap, m))
    else if !tables[0].MptTable? then PaStep(pidMap, m, tables[1..])
    else if |pidMap| != 0 then Some((pidMap, m))
    else match MptStep(pidMap, m, tables[0].mpt.assets, false, false)
      case None => None
      case Some((pidMap1, m1)) => PaStep(pidMap1, m1, tables[1..])
  }

  /** Once a route exists, PA messages change nothing. */
  lemma {:induction false} PaStepIgnored(pidMap: map<u16, M2ts.Pid>, m: M2ts.Muxer, tables: seq<Sections.Table>)
    requires |pidMap| != 0
    ensures PaStep(pidMap, m, tables) == Some((pidMap, m))
    decreases |tables|
  {
    if |tables| > 0 && !tables[0].MptTable? {
      PaStepIgnored(pidMap, m, tables[1..]);
    }
  }

  /** An MPT panics exactly when one of its assets names no packet id,
      whatever its type. */
  lemma {:induction false} MptStepPanics(pidMap: map<u16, M2ts.Pid>, m: M2ts.Muxer, assets: seq<Tables.MmtAsset>,
                                         hasVideo: bool, hasAudio: bool)
    ensures MptStep(pidMap, m, assets, hasVideo, hasAudio).None? <==>
      exists i :: 0 <= i < |assets| && Mmt.AssetPacketId(assets[i]).None?
    decreases |assets|
  {
    if |assets| > 0 && Mmt.AssetPacketId(assets[0]).Some? {
      var id := Mmt.AssetPacketId(assets[0]).value;
      if assets[0].assetType == Mmt.Hev1 && !hasVideo {
        MptStepPanics(pidMap[id := VideoPid], M2ts.AddStream(m, VideoPid, VideoStreamId, VideoEsInfo), assets[1..], true, hasAudio);
      } else if assets[0].assetType == Mmt.Mp4a && !hasAudio {
        MptStepPanics(pidMap[id := AudioPid], M2ts.AddStream(m, AudioPid, AudioStreamId, AudioEsInfo), assets[1..], hasVideo, true);
      } else {
        MptStepPanics(pidMap, m, assets[1..], hasVideo, hasAudio);
      }
      ShiftExists(assets);
    }
  }

  lemma ShiftExists(assets: seq<Tables.MmtAsset>)
    requires |assets| > 0 && Mmt.AssetPacketId(assets[0]).Some?
    ensures (exists i :: 0 <= i < |assets| && Mmt.AssetPacketId(assets[i]).None?) <==>
            (exists i :: 0 <= i < |assets[1..]| && Mmt.AssetPacketId(assets[1..][i]).None?)
  {
    if exists i :: 0 <= i < |assets| && Mmt.AssetPacketId(assets[i]).None? {
      var i :| 0 <= i < |assets| && Mmt.AssetPacketId(assets[i]).None?;
      assert assets[1..][i - 1] == assets[i];
    }
    if exists i :: 0 <= i < |assets[1..]| && Mmt.AssetPacketId(assets[1..][i]).None? {
      var i :| 0 <= i < |assets[1..]| && Mmt.AssetPacketId(assets[1..][i]).None?;
      assert assets[1..][i] == assets[i + 1];
    }
  }

  /** The routes an MPT adds: the first HEVC asset to the video pid and the
      first AAC asset to the audio pid (unless those were routed already),
      and nothing else. */
  lemma {:induction false} MptStepMap(pidMap: map<u16, M2ts.Pid>, m: M2ts.Muxer, assets: seq<Tables.MmtAsset>,
                                      hasVideo: bool, hasAudio: bool)
    requires MptStep(pidMap, m, assets, hasVideo, hasAudio).Some?
    ensures var pm := MptStep(pidMap, m, assets, hasVideo, hasAudio).value.0;
      var v := Added(assets, Mmt.Hev1, hasVideo);
      var a := Added(assets, Mmt.Mp4a, hasAudio);
      (forall k :: k in pm <==> k in pidMap || Some(k) == v || Some(k) == a) &&
      (forall k :: Some(k) == v && Some(k) != a ==> pm[k] == VideoPid) &&
      (forall k :: Some(k) == a && Some(k) != v ==> pm[k] == AudioPid) &&
      (forall k :: k in pidMap && Some(k) != v && Some(k) != a ==> pm[k] == pidMap[k])
    decreases |assets|
  {
    if |assets| > 0 {
      var id := Mmt.AssetPacketId(assets[0]).value;
      if assets[0].assetType == Mmt.Hev1 && !hasVideo {
        MptStepMap(pidMap[id := VideoPid], M2ts.AddStream(m, VideoPid, VideoStreamId, VideoEsInfo), assets[1..], true, hasAudio);
      } else if assets[0].assetType == Mmt.Mp4a && !hasAudio {
        MptStepMap(pidMap[id := AudioPid], M2ts.AddStream(m, AudioPid, AudioStreamId, AudioEsInfo), assets[1..], hasVideo, true);
      } else {
        MptStepMap(pidMap, m, assets[1..], hasVideo, hasAudio);
      }
    }
  }

  /** When the first HEVC and the first AAC asset name the same packet id,
      the route of the later one in the table wins. */
  lemma {:induction false} MptStepShared(pidMap: map<u16, M2ts.Pid>, m: M2ts.Muxer, assets: seq<Tables.MmtAsset>,
                                         hasVideo: bool, hasAudio: bool)
    requires MptStep(pidMap, m, assets, hasVideo, hasAudio).Some?
    ensures var pm := MptStep(pidMap, m, assets, hasVideo, hasAudio).value.0;
      var v := Added(assets, Mmt.Hev1, hasVideo);
      var a := Added(assets, Mmt.Mp4a, hasAudio);
      forall k :: Some(k) == v && Some(k) == a ==>
        k in pm && pm[k] == (if FirstOf(assets, Mmt.Mp4a) > FirstOf(assets, Mmt.Hev1) then AudioPid else VideoPid)
    decreases |assets|
  {
    MptStepMap(pidMap, m, assets, hasVideo, hasAudio);
    if |assets| > 0 {
      var id := Mmt.AssetPacketId(assets[0]).value;
      if assets[0].assetType == Mmt.Hev1 && !hasVideo {
        MptStepMap(pidMap[id := VideoPid], M2ts.AddStream(m, VideoPid, VideoStreamId, VideoEsInfo), assets[1..], true, hasAudio);
      } else if assets[0].assetType == Mmt.Mp4a && !hasAudio {
        MptStepMap(pidMap[id := AudioPid], M2ts.AddStream(m, AudioPid, AudioStreamId, AudioEsInfo), assets[1..], hasVideo, true);
      } else {
        MptStepShared(pidMap, m, assets[1..], hasVideo, hasAudio);
      }
    }
  }

  /** The streams an MPT adds to the muxer: the video stream if an HEVC
      asset was routed, the audio stream if an AAC one was; every other
      entry and the PAT/PMT timestamp are kept. */
  lemma {:induction false} MptStepMuxer(pidMap: map<u16, M2ts.Pid>, m: M2ts.Muxer, assets: seq<Tables.MmtAsset>,
                                        hasVideo: bool, hasAudio: bool)
    requires MptStep(pidMap, m, assets, hasVideo, hasAudio).Some?
    ensures var m' := MptStep(pidMap, m, assets, hasVideo, hasAudio).value.1;
      var v := Added(assets, Mmt.Hev1, hasVideo);
      var a := Added(assets, Mmt.Mp4a, hasAudio);
      m'.lastPatPmtTs == m.lastPatPmtTs &&
      (forall p :: p in m'.streams <==> p in m.streams || (p == VideoPid && v.Some?) || (p == AudioPid && a.Some?)) &&
      (v.Some? ==> m'.streams[VideoPid] == M2ts.M2tsStream(0, Some(VideoStreamId), Some(VideoEsInfo))) &&
      (a.Some? ==> m'.streams[AudioPid] == M2ts.M2tsStream(0, Some(AudioStreamId), Some(AudioEsInfo))) &&
      (forall p :: p in m.streams && (p != VideoPid || v.None?) && (p != AudioPid || a.None?) ==>
        m'.streams[p] == m.streams[p])
    decreases |assets|
  {
    if |assets| > 0 {
      var id := Mmt.AssetPacketId(assets[0]).value;
      if assets[0].assetType == Mmt.Hev1 && !hasVideo {
        MptStepMuxer(pidMap[id := VideoPid], M2ts.AddStream(m, VideoPid, VideoStreamId, VideoEsInfo), assets[1..], true, hasAudio);
      } else if assets[0].assetType == Mmt.Mp4a && !hasAudio {
        MptStepMuxer(pidMap[id := AudioPid], M2ts.AddStream(m, AudioPid, AudioStreamId, AudioEsInfo), assets[1..], hasVideo, true);
      } else {
        MptStepMuxer(pidMap, m, assets[1..], hasVideo, hasAudio);
      }
    }
  }

  /** Routing keeps every route usable by the muxer. */
  lemma {:induction false} MptStepConsistent(pidMap: map<u16, M2ts.Pid>, m: M2ts.Muxer, assets: seq<Tables.MmtAsset>,
                                             hasVideo: bool, hasAudio: bool)
    requires M2ts.Valid(m) && Routed(pidMap, m) && MptStep(pidMap, m, assets, hasVideo, hasAudio).Some?
    ensures var (pm, m') := MptStep(pidMap, m, assets, hasVideo, hasAudio).value;
      M2ts.Valid(m') && Routed(pm, m')
    decreases |assets|
  {
    if |assets| > 0 {
      var id := Mmt.AssetPacketId(assets[0]).value;
      if assets[0].assetType == Mmt.Hev1 && !hasVideo {
        M2ts.AddStreamSpec(m, VideoPid, VideoStreamId, VideoEsInfo);
        MptStepConsistent(pidMap[id := VideoPid], M2ts.AddStream(m, VideoPid, VideoStreamId, VideoEsInfo), assets[1..], true, hasAudio);
      } else if assets[0].assetType == Mmt.Mp4a && !hasAudio {
        M2ts.AddStreamSpec(m, AudioPid, AudioStreamId, AudioEsInfo);
        MptStepConsistent(pidMap[id := AudioPid], M2ts.AddStream(m, AudioPid, AudioStreamId, AudioEsInfo), assets[1..], hasVideo, true);
      } else {
        MptStepConsistent(pidMap, m, assets[1..], hasVideo, hasAudio);
      }
    }
  }

  lemma {:induction false} PaStepConsistent(pidMap: map<u16, M2ts.Pid>, m: M2ts.Muxer, tables: seq<Sections.Table>)
    requires M2ts.Valid(m) && Routed(pidMap, m) && PaStep(pidMap, m, tables).Some?
    ensures var (pm, m') := PaStep(pidMap, m, tables).value;
      M2ts.Valid(m') && Routed(pm, m')
    decreases |tables|
  {
    if |tables| > 0 {
      if !tables[0].MptTable? {
        PaStepConsistent(pidMap, m, tables[1..]);
      } else if |pidMap| == 0 {
        MptStepConsistent(pidMap, m, tables[0].mpt.assets, false, false);
        var (pm1, m1) := MptStep(pidMap, m, tables[0].mpt.assets, false, false).value;
        PaStepConsistent(pm1, m1, tables[1..]);
      }
    }
  }

  // ---------------------------------------------------------------------
  // read_mh_eit

  /** `start_time <= now < start_time + duration`, on the seconds scale of
      `Tables.EpochSeconds`; an event without either is never running. */
  predicate Running(e: Sections.EventInformation, now: int)
  {
    e.startTime.Some? && e.duration.Some? &&
    Tables.EpochSeconds(e.startTime.value) <= now < Tables.EpochSeconds(e.startTime.value) + e.duration.value
  }

  /** The signalling part of the event loop: the new current event and the
      signals sent. */
  function Signals(current: Option<u16>, events: seq<Sections.EventInformation>, now: int): (Option<u16>, seq<Signal>)
    decreases |events|
  {
    if |events| == 0 then (current, [])
    else if Running(events[0], now) && current != Some(events[0].eventId) then
      var (c, s) := Signals(Some(events[0].eventId), events[1..], now);
      (c, [EventChanged(events[0].eventId)] + s)
    else Signals(current, events[1..], now)
  }

  /** Some running event of the table has this id. */
  predicate RunningId(events: seq<Sections.EventInformation>, now: int, id: u16)
  {
    exists j :: 0 <= j < |events| && Running(events[j], now) && events[j].eventId == id
  }

  /** Every signal of `s` names a running event of the table. */
  predicate AllRunning(s: seq<Signal>, events: seq<Sections.EventInformation>, now: int)
  {
    forall i :: 0 <= i < |s| ==> RunningId(events, now, s[i].eventId)
  }

  /** Every signal names a running event of the table. */
  lemma {:induction false} SignalsSound(current: Option<u16>, events: seq<Sections.EventInformation>, now: int)
    ensures AllRunning(Signals(current, events, now).1, events, now)
    decreases |events|
  {
    if |events| > 0 {
      var s := Signals(current, events, now).1;
      var c1 := if Running(events[0], now) && current != Some(events[0].eventId) then Some(events[0].eventId) else current;
      var s1 := Signals(c1, events[1..], now).1;
      SignalsSound(c1, events[1..], now);
      forall i | 0 <= i < |s1|
        ensures RunningId(events, now, s1[i].eventId)
      {
        assert RunningId(events[1..], now, s1[i].eventId);
        var j :| 0 <= j < |events[1..]| && Running(events[1..][j], now) && events[1..][j].eventId == s1[i].eventId;
        assert events[1..][j] == events[j + 1];
      }
      if Running(events[0], now) && current != Some(events[0].eventId) {
        assert s == [EventChanged(events[0].eventId)] + s1;
        assert RunningId(events, now, events[0].eventId) by {
          assert Running(events[0], now);
        }
        forall i | 0 < i < |s|
          ensures RunningId(events, now, s[i].eventId)
        {
          assert s[i] == s1[i - 1];
        }
      } else {
        assert s == s1;
      }
    }
  }

  /** Each signal changes the current event: the first differs from the
      event current before, each differs from the one before it, and the
      last is the new current event. */
  lemma {:induction false} SignalsChange(current: Option<u16>, events: seq<Sections.EventInformation>, now: int)
    ensures var (c, s) := Signals(current, events, now);
      (|s| > 0 ==> Some(s[0].eventId) != current) &&
      (forall i :: 0 < i < |s| ==> s[i] != s[i - 1]) &&
      c == (if |s| == 0 then current else Some(s[|s| - 1].eventId))
    decreases |events|
  {
    if |events| > 0 {
      if Running(events[0], now) && current != Some(events[0].eventId) {
        SignalsChange(Some(events[0].eventId), events[1..], now);
        var s1 := Signals(Some(events[0].eventId), events[1..], now).1;
        var s := [EventChanged(events[0].eventId)] + s1;
        forall i | 0 < i < |s|
          ensures s[i] != s[i - 1]
        {
          assert s[i] == s1[i - 1];
          if i > 1 {
            assert s[i - 1] == s1[i - 2];
          }
        }
      } else {
        SignalsChange(current, events[1..], now);
      }
    }
  }

  /** With no running event nothing is signalled; otherwise the last
      running event of the table is the current one afterwards. */
  lemma {:induction false} SignalsLast(current: Option<u16>, events: seq<Sections.EventInformation>, now: int)
    ensures var (c, s) := Signals(current, events, now);
      ((forall j :: 0 <= j < |events| ==> !Running(events[j], now)) ==> c == current && s == []) &&
      (forall j :: (0 <= j < |events| && Running(events[j], now) &&
                    forall k :: j < k < |events| ==> !Running(events[k], now)) ==> c == Some(events[j].eventId))
    decreases |events|
  {
    if |events| > 0 {
      var c1 := if Running(events[0], now) && current != Some(events[0].eventId) then Some(events[0].eventId) else current;
      SignalsLast(c1, events[1..], now);
      var c := Signals(current, events, now).0;
      assert c == Signals(c1, events[1..], now).0;
      forall j | 0 <= j < |events| && Running(events[j], now) && (forall k :: j < k < |events| ==> !Running(events[k], now))
        ensures c == Some(events[j].eventId)
      {
        if j == 0 {
          assert forall k :: 0 <= k < |events[1..]| ==> !Running(events[1..][k], now) by {
            forall k | 0 <= k < |events[1..]| ensures !Running(events[1..][k], now) {
              assert events[1..][k] == events[k + 1];
            }
          }
        } else {
          assert events[1..][j - 1] == events[j];
          forall k | j - 1 < k < |events[1..]| ensures !Running(events[1..][k], now) {
            assert events[1..][k] == events[k + 1];
          }
        }
      }
      if forall j :: 0 <= j < |events| ==> !Running(events[j], now) {
        forall k | 0 <= k < |events[1..]| ensures !Running(events[1..][k], now) {
          assert events[1..][k] == events[k + 1];
        }
      }
    }
  }

  /** The descriptor numbers of every event are four-bit fields. */
  predicate EventsTyped(events: seq<Sections.EventInformation>)
  {
    forall i :: 0 <= i < |events| ==> Registry.NumbersValid(events[i].descriptors)
  }

  /** `put_event` for every event of the table; `None` is a panic. */
  function PutEvents(services: map<u16, Registry.Service>, serviceId: u16, events: seq<Sections.EventInformation>): Option<map<u16, Registry.Service>>
    requires EventsTyped(events)
    decreases |events|
  {
    if |events| == 0 then Some(services)
    else match Registry.WithEvent(services, serviceId, events[0])
      case None => None
      case Some(s1) => PutEvents(s1, serviceId, events[1..])
  }

  /** Every event of the table is stored, whatever its timing; an unknown
      service is left alone and no other service changes. */
  lemma {:induction false} PutEventsSpec(services: map<u16, Registry.Service>, serviceId: u16, events: seq<Sections.EventInformation>)
    requires EventsTyped(events) && PutEvents(services, serviceId, events).Some?
    ensures var r := PutEvents(services, serviceId, events).value;
      (serviceId !in services ==> r == services) &&
      r.Keys == services.Keys &&
      (forall k :: k in services && k != serviceId ==> r[k] == services[k]) &&
      (serviceId in services ==>
        r[serviceId].events.Keys == services[serviceId].events.Keys + set i | 0 <= i < |events| :: events[i].eventId) &&
      (Registry.ServicesValid(services) ==> Registry.ServicesValid(r))
    decreases |events|
  {
    if |events| > 0 {
      Registry.WithEventSpec(services, serviceId, events[0]);
      var s1 := Registry.WithEvent(services, serviceId, events[0]).value;
      assert EventsTyped(events[1..]) by {
        forall i | 0 <= i < |events[1..]| ensures Registry.NumbersValid(events[1..][i].descriptors) {
          assert events[1..][i] == events[i + 1];
        }
      }
      PutEventsSpec(s1, serviceId, events[1..]);
      var ids := set i | 0 <= i < |events| :: events[i].eventId;
      var ids1 := set i | 0 <= i < |events[1..]| :: events[1..][i].eventId;
      assert ids == {events[0].eventId} + ids1 by {
        forall x | x in ids ensures x in {events[0].eventId} + ids1 {
          var i :| 0 <= i < |events| && events[i].eventId == x;
          if i > 0 {
            assert events[1..][i - 1] == events[i];
          }
        }
        forall x | x in ids1 ensures x in ids {
          var i :| 0 <= i < |events[1..]| && events[1..][i].eventId == x;
          assert events[1..][i] == events[i + 1];
        }
      }
    }
  }

  /** `put_broadcaster` for every broadcaster of an MH-BIT. */
  function PutBroadcasters(bs: map<byte, Registry.Broadcaster>, infos: seq<Sections.BroadcasterInformation>): map<byte, Registry.Broadcaster>
    decreases |infos|
  {
    if |infos| == 0 then bs else PutBroadcasters(Registry.WithBroadcaster(bs, infos[0]), infos[1..])
  }

  /** `put_service` for every service of an MH-SDT. */
  function PutServices(services: map<u16, Registry.Service>, tlvStreamId: u16, infos: seq<Sections.ServiceInformation>): map<u16, Registry.Service>
    decreases |infos|
  {
    if |infos| == 0 then services else PutServices(Registry.WithService(services, tlvStreamId, infos[0]), tlvStreamId, infos[1..])
  }

  /** Registration only adds: a stored broadcaster or service is never
      replaced. */
  lemma {:induction false} PutBroadcastersKeep(bs: map<byte, Registry.Broadcaster>, infos: seq<Sections.BroadcasterInformation>)
    ensures var r := PutBroadcasters(bs, infos);
      bs.Keys <= r.Keys && (forall k :: k in bs ==> r[k] == bs[k]) &&
      (Registry.BroadcastersValid(bs) ==> Registry.BroadcastersValid(r))
    decreases |infos|
  {
    if |infos| > 0 {
      Registry.WithBroadcasterSpec(bs, infos[0]);
      PutBroadcastersKeep(Registry.WithBroadcaster(bs, infos[0]), infos[1..]);
    }
  }

  lemma {:induction false} PutServicesKeep(services: map<u16, Registry.Service>, tlvStreamId: u16, infos: seq<Sections.ServiceInformation>)
    ensures var r := PutServices(services, tlvStreamId, infos);
      services.Keys <= r.Keys && (forall k :: k in services ==> r[k] == services[k]) &&
      (Registry.ServicesValid(services) ==> Registry.ServicesValid(r))
    decreases |infos|
  {
    if |infos| > 0 {
      Registry.WithServiceSpec(services, tlvStreamId, infos[0]);
      PutServicesKeep(Registry.WithService(services, tlvStreamId, infos[0]), tlvStreamId, infos[1..]);
    }
  }

  // ---------------------------------------------------------------------
  // read_packet

  /** What the source's field types guarantee of a packet: four-bit
      descriptor numbers in the events of an MH-EIT. */
  predicate PacketTyped(p: Mmt.Packet)
  {
    p.payload.MessageData? && p.payload.message.M2Section? && p.payload.message.m2.table.MhEitTable? ==>
      EventsTyped(p.payload.message.m2.table.eit.events)
  }

  /** `read_m2_section_message`: only MH-EIT, MH-BIT and MH-SDT matter. */
  function SectionStep(r: Remux, t: Sections.Table, now: int): Option<Remux>
    requires t.MhEitTable? ==> EventsTyped(t.eit.events)
  {
    match t
    case MhEitTable(eit) =>
      (match PutEvents(r.services, eit.serviceId, eit.events)
       case None => None
       case Some(services) =>
         var (c, s) := Signals(r.currentEventId, eit.events, now);
         Some(r.(services := services, currentEventId := c, signals := r.signals + s)))
    case MhBitTable(bit) => Some(r.(broadcasters := PutBroadcasters(r.broadcasters, bit.broadcasters)))
    case MhSdtTable(sdt) => Some(r.(services := PutServices(r.services, sdt.tlvStreamId, sdt.services)))
    case _ => Some(r)
  }

  /** The DTS and PTS of an access unit's timing, as the float formula
      computes them. */
  function Times(timing: Option<Mmt.AuTiming>, times: Mmt.AuTiming -> (M2ts.Seconds, M2ts.Seconds)): (Option<M2ts.Seconds>, Option<M2ts.Seconds>)
  {
    match timing
    case None => (None, None)
    case Some(t) => (Some(times(t).0), Some(times(t).1))
  }

  /** `read_packet`: a media unit goes to the pid its packet id is routed
      to, or nowhere; a message goes to the PA or M2 section handler.
      `None` is a panic. */
  function PacketStep(r: Remux, p: Mmt.Packet, now: int, times: Mmt.AuTiming -> (M2ts.Seconds, M2ts.Seconds),
                      refresh: (M2ts.Seconds, M2ts.Seconds) -> bool): Option<Remux>
    requires Consistent(r) && PacketTyped(p)
  {
    match p.payload
    case MfuData(timing, data) => Some(MediaStep(r, p.packetId, timing, data, times, refresh))
    case MessageData(Pa(pa)) => PaMessageStep(r, pa.tables)
    case MessageData(M2Section(m2)) => SectionStep(r, m2.table, now)
    case MessageData(_) => Some(r)
  }

  /** A media unit: written on the pid its packet id is routed to, if any. */
  function MediaStep(r: Remux, id: u16, timing: Option<Mmt.AuTiming>, data: seq<byte>,
                     times: Mmt.AuTiming -> (M2ts.Seconds, M2ts.Seconds),
                     refresh: (M2ts.Seconds, M2ts.Seconds) -> bool): Remux
    requires Consistent(r)
  {
    if id !in r.pidMap then r
    else
      var (dts, pts) := Times(timing, times);
      var (m, out) := M2ts.WritePesStep(r.mux, r.pidMap[id], data, dts, pts, refresh);
      r.(mux := m, written := r.written + out)
  }

  /** A PA message: its MPTs routed; `None` is a panic. */
  function PaMessageStep(r: Remux, tables: seq<Sections.Table>): Option<Remux>
  {
    match PaStep(r.pidMap, r.mux, tables)
    case None => None
    case Some((pm, m)) => Some(r.(pidMap := pm, mux := m))
  }

  /** Every packet keeps the remuxer consistent and the registry keyed by
      id, and nothing is ever unregistered or unsent. */
  lemma PacketStepValid(r: Remux, p: Mmt.Packet, now: int, times: Mmt.AuTiming -> (M2ts.Seconds, M2ts.Seconds),
                        refresh: (M2ts.Seconds, M2ts.Seconds) -> bool)
    requires Consistent(r) && PacketTyped(p) && PacketStep(r, p, now, times, refresh).Some?
    ensures var r' := PacketStep(r, p, now, times, refresh).value;
      Consistent(r') && r.signals <= r'.signals && r.written <= r'.written &&
      r.broadcasters.Keys <= r'.broadcasters.Keys && r.services.Keys <= r'.services.Keys &&
      (Registry.ServicesValid(r.services) && Registry.BroadcastersValid(r.broadcasters) ==>
        Registry.ServicesValid(r'.services) && Registry.BroadcastersValid(r'.broadcasters))
  {
    match p.payload
    case MfuData(timing, data) =>
      if p.packetId in r.pidMap {
        var (dts, pts) := Times(timing, times);
        M2ts.WritePesStepSpec(r.mux, r.pidMap[p.packetId], data, dts, pts, refresh);
      }
    case MessageData(Pa(pa)) =>
      PaStepConsistent(r.pidMap, r.mux, pa.tables);
    case MessageData(M2Section(m2)) =>
      match m2.table {
        case MhEitTable(eit) => PutEventsSpec(r.services, eit.serviceId, eit.events);
        case MhBitTable(bit) => PutBroadcastersKeep(r.broadcasters, bit.broadcasters);
        case MhSdtTable(sdt) => PutServicesKeep(r.services, sdt.tlvStreamId, sdt.services);
        case _ =>
      }
    case MessageData(_) =>
  }

  /** A media unit whose packet id has no route is dropped; a routed one is
      written as a PES run on its pid, after a PAT and PMT when due. */
  lemma PacketStepMedia(r: Remux, p: Mmt.Packet, now: int, times: Mmt.AuTiming -> (M2ts.Seconds, M2ts.Seconds),
                        refresh: (M2ts.Seconds, M2ts.Seconds) -> bool)
    requires Consistent(r) && p.payload.MfuData?
    ensures PacketStep(r, p, now, times, refresh).Some?
    ensures p.packetId !in r.pidMap ==> PacketStep(r, p, now, times, refresh) == Some(r)
    ensures p.packetId in r.pidMap ==>
      var r' := PacketStep(r, p, now, times, refresh).value;
      var out := r'.written[|r.written|..];
      r' == r.(mux := r'.mux, written := r'.written) && r.written <= r'.written &&
      (M2ts.PesRun(out, r.pidMap[p.packetId], p.payload.data) ||
       (|out| > 2 && out[0].payload.Pat? && out[1].payload.Pmt? && M2ts.PesRun(out[2..], r.pidMap[p.packetId], p.payload.data)))
  {
    if p.packetId in r.pidMap {
      var (dts, pts) := Times(p.payload.timing, times);
      M2ts.WritePesStepSpec(r.mux, r.pidMap[p.packetId], p.payload.data, dts, pts, refresh);
      var r' := PacketStep(r, p, now, times, refresh).value;
      assert r'.written[|r.written|..] == M2ts.WritePesStep(r.mux, r.pidMap[p.packetId], p.payload.data, dts, pts, refresh).1;
    }
  }

  // ---------------------------------------------------------------------
  // The object

  class Remuxer {
    const demux: Mmt.MmtDemuxer
    const mux: M2ts.M2tsMuxer
    const registry: Registry.Registry
    var pidMap: map<u16, M2ts.Pid>
    var currentEventId: Option<u16>
    /** What went out on the signal channel, oldest first. */
    var signals: seq<Signal>

    function Value(): Remux
      reads this, mux, registry
    {
      Remux(pidMap, currentEventId, signals, mux.Value(), mux.written, registry.broadcasters, registry.services)
    }

    /** `Remuxer::new`: nothing routed, no current event. */
    constructor (demux: Mmt.MmtDemuxer, mux: M2ts.M2tsMuxer, registry: Registry.Registry)
      requires M2ts.Valid(mux.Value())
      ensures this.demux == demux && this.mux == mux && this.registry == registry
      ensures Value() == Remux(map[], None, [], mux.Value(), mux.written, registry.broadcasters, registry.services)
      ensures Consistent(Value())
    {
      this.demux := demux;
      this.mux := mux;
      this.registry := registry;
      pidMap := map[];
      currentEventId := None;
      signals := [];
    }

    /** `read_packet`; `false` is a panic, after which nothing is promised. */
    method ReadPacket(p: Mmt.Packet, now: int, times: Mmt.AuTiming -> (M2ts.Seconds, M2ts.Seconds),
                      refresh: (M2ts.Seconds, M2ts.Seconds) -> bool) returns (ok: bool)
      requires Consistent(Value()) && PacketTyped(p)
      modifies this, mux, registry
      ensures ok == PacketStep(old(Value()), p, now, times, refresh).Some?
      ensures ok ==> Value() == PacketStep(old(Value()), p, now, times, refresh).value
    {
      match p.payload {
        case MfuData(timing, data) =>
          WriteMedia(p.packetId, timing, data, times, refresh);
          return true;
        case MessageData(m) =>
          match m {
            case Pa(pa) =>
              ok := ReadPaMessage(pa.tables);
            case M2Section(m2) =>
              ok := ReadM2SectionMessage(m2.table, now);
            case UnknownMessage(_, _) =>
              return true;
          }
      }
    }

    /** The media branch of `read_packet`. */
    method WriteMedia(id: u16, timing: Option<Mmt.AuTiming>, data: seq<byte>,
                      times: Mmt.AuTiming -> (M2ts.Seconds, M2ts.Seconds),
                      refresh: (M2ts.Seconds, M2ts.Seconds) -> bool)
      requires Consistent(Value())
      modifies mux
      ensures Value() == MediaStep(old(Value()), id, timing, data, times, refresh)
    {
      if id !in pidMap {
        return;
      }
      ghost var r := Value();
      var pid := pidMap[id];
      var (dts, pts) := Times(timing, times);
      ghost var step := M2ts.WritePesStep(mux.Value(), pid, data, dts, pts, refresh);
      mux.WritePes(pid, data, dts, pts, refresh);
      assert Value() == r.(mux := step.0, written := r.written + step.1);
    }

    /** `read_pa_message`, with its loops over tables and assets. */
    method ReadPaMessage(tables: seq<Sections.Table>) returns (ok: bool)
      modifies this, mux
      ensures ok == PaStep(old(pidMap), old(mux.Value()), tables).Some?
      ensures ok ==> (pidMap, mux.Value()) == PaStep(old(pidMap), old(mux.Value()), tables).value
      ensures currentEventId == old(currentEventId) && signals == old(signals) && mux.written == old(mux.written)
    {
      var i := 0;
      while i < |tables|
        invariant 0 <= i <= |tables|
        invariant PaStep(pidMap, mux.Value(), tables[i..]) == PaStep(old(pidMap), old(mux.Value()), tables)
        invariant currentEventId == old(currentEventId) && signals == old(signals) && mux.written == old(mux.written)
      {
        assert tables[i..][1..] == tables[i + 1..];
        if !tables[i].MptTable? {
          i := i + 1;
          continue;
        }
        if |pidMap| != 0 {
          return true;
        }
        var assets := tables[i].mpt.assets;
        ghost var start := (pidMap, mux.Value());
        var hasVideo := false;
        var hasAudio := false;
        var j := 0;
        while j < |assets|
          invariant 0 <= j <= |assets|
          invariant MptStep(pidMap, mux.Value(), assets[j..], hasVideo, hasAudio) == MptStep(start.0, start.1, assets, false, false)
          invariant currentEventId == old(currentEventId) && signals == old(signals) && mux.written == old(mux.written)
        {
          assert assets[j..][1..] == assets[j + 1..];
          var id := Mmt.AssetPacketId(assets[j]);
          if id.None? {
            return false;
          }
          if assets[j].assetType == Mmt.Hev1 {
            if !hasVideo {
              pidMap := pidMap[id.value := VideoPid];
              mux.AddStreamTo(VideoPid, VideoStreamId, VideoEsInfo);
              hasVideo := true;
            }
          } else if assets[j].assetType == Mmt.Mp4a {
            if !hasAudio {
              pidMap := pidMap[id.value := AudioPid];
              mux.AddStreamTo(AudioPid, AudioStreamId, AudioEsInfo);
              hasAudio := true;
            }
          }
          j := j + 1;
        }
        assert assets[j..] == [];
        i := i + 1;
      }
      assert tables[i..] == [];
      return true;
    }

    /** `read_m2_section_message`. */
    method ReadM2SectionMessage(t: Sections.Table, now: int) returns (ok: bool)
      requires t.MhEitTable? ==> EventsTyped(t.eit.events)
      modifies this, registry
      ensures ok == SectionStep(old(Value()), t, now).Some?
      ensures ok ==> Value() == SectionStep(old(Value()), t, now).value
    {
      match t {
        case MhEitTable(eit) =>
          ok := ReadMhEit(eit.serviceId, eit.events, now);
        case MhBitTable(bit) =>
          ReadMhBit(bit.broadcasters);
          ok := true;
        case MhSdtTable(sdt) =>
          ReadMhSdt(sdt.tlvStreamId, sdt.services);
          ok := true;
        case _ =>
          ok := true;
      }
    }

    /** `read_mh_eit`: every event to the registry, then the running one
        signalled if it is not current yet. */
    method ReadMhEit(serviceId: u16, events: seq<Sections.EventInformation>, now: int) returns (ok: bool)
      requires EventsTyped(events)
      modifies this, registry
      ensures ok == PutEvents(old(registry.services), serviceId, events).Some?
      ensures ok ==>
        registry.services == PutEvents(old(registry.services), serviceId, events).value &&
        currentEventId == Signals(old(currentEventId), events, now).0 &&
        signals == old(signals) + Signals(old(currentEventId), events, now).1
      ensures ok ==> pidMap == old(pidMap) && registry.broadcasters == old(registry.broadcasters)
    {
      var i := 0;
      while i < |events|
        invariant 0 <= i <= |events|
        invariant PutEvents(registry.services, serviceId, events[i..]) == PutEvents(old(registry.services), serviceId, events)
        invariant Signals(currentEventId, events[i..], now).0 == Signals(old(currentEventId), events, now).0
        invariant signals + Signals(currentEventId, events[i..], now).1 == old(signals) + Signals(old(currentEventId), events, now).1
        invariant pidMap == old(pidMap) && registry.broadcasters == old(registry.broadcasters)
      {
        assert events[i..][1..] == events[i + 1..];
        var e := events[i];
        var stored := registry.PutEvent(serviceId, e);
        if !stored {
          return false;
        }
        if Running(e, now) && currentEventId != Some(e.eventId) {
          signals := signals + [EventChanged(e.eventId)];
          currentEventId := Some(e.eventId);
        }
        i := i + 1;
      }
      assert events[i..] == [];
      return true;
    }

    /** `read_mh_bit`. */
    method ReadMhBit(infos: seq<Sections.BroadcasterInformation>)
      modifies registry
      ensures registry.broadcasters == PutBroadcasters(old(registry.broadcasters), infos)
      ensures registry.services == old(registry.services)
    {
      var i := 0;
      while i < |infos|
        invariant 0 <= i <= |infos|
        invariant PutBroadcasters(registry.broadcasters, infos[i..]) == PutBroadcasters(old(registry.broadcasters), infos)
        invariant registry.services == old(registry.services)
      {
        assert infos[i..][1..] == infos[i + 1..];
        registry.PutBroadcaster(infos[i]);
        i := i + 1;
      }
      assert infos[i..] == [];
    }

    /** `read_mh_sdt`. */
    method ReadMhSdt(tlvStreamId: u16, infos: seq<Sections.ServiceInformation>)
      modifies registry
      ensures registry.services == PutServices(old(registry.services), tlvStreamId, infos)
      ensures registry.broadcasters == old(registry.broadcasters)
    {
      var i := 0;
      while i < |infos|
        invariant 0 <= i <= |infos|
        invariant PutServices(registry.services, tlvStreamId, infos[i..]) == PutServices(old(registry.services), tlvStreamId, infos)
        invariant registry.broadcasters == old(registry.broadcasters)
      {
        assert infos[i..][1..] == infos[i + 1..];
        registry.PutService(tlvStreamId, infos[i]);
        i := i + 1;
      }
      assert infos[i..] == [];
    }

    /** `clear`: demuxer and muxer reset, no route and no current event;
        the registry and what was already sent stay. */
    method Clear()
      modifies this, demux, mux
      ensures pidMap == map[] && currentEventId == None && signals == old(signals)
      ensures mux.Value() == M2ts.Initial && mux.written == old(mux.written)
      ensures demux.Value() == Mmt.Demux(old(demux.input), map[], [])
      ensures Consistent(Value())
    {
      demux.Clear();
      mux.Clear();
      pidMap := map[];
      currentEventId := None;
      M2ts.InitialSpec();
    }
  }
}
