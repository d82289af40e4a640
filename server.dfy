// The REST API's view of the workspace (crates/chibitv/src/server.rs):
// the JSON models the handlers build from registry entries and the status
// codes they answer with.  Routing, serialisation and the streaming of
// transport-stream bytes are not part of this model.

module Server {
  import opened Wire
  import Tables
  import Registry
  import Workspace

  const NotFound: nat := 404
  const InternalServerError: nat := 500

  /** What a handler answers: a JSON body, or an error status. */
  datatype Response<T> = Body(body: T) | Status(status: nat)

  datatype ChannelModel = ChannelModel(id: nat, name: string)

  datatype ServiceModel = ServiceModel(id: u16, name: Registry.Text, providerName: Registry.Text)

  datatype EventDescription = EventDescription(name: Registry.Text, content: Registry.Text)

  /** An event as the API shows it.  Date-times are on the seconds scale
      of `Tables.EpochSeconds`. */
  datatype EventModel = EventModel(
    id: u16,
    title: Registry.Text,
    description: seq<EventDescription>,
    startTime: Option<nat>,
    endTime: Option<nat>)

  datatype StreamModel = StreamModel(service: Option<ServiceModel>, event: Option<EventModel>)

  // ---------------------------------------------------------------------
  // The `From` conversions

  /** `model::Service::from`. */
  function ServiceOf(s: Registry.Service): (r: ServiceModel)
    ensures r.id == s.id && r.name == s.name && r.providerName == s.providerName
  {
    ServiceModel(s.id, s.name, s.providerName)
  }

  /** The description groups one after the other, each pair in order. */
  function Flatten(groups: seq<Registry.Group>): seq<(Registry.Text, Registry.Text)>
    decreases |groups|
  {
    if |groups| == 0 then [] else groups[0] + Flatten(groups[1..])
  }

  /** Flattening distributes over concatenation of group lists. */
  lemma {:induction false} FlattenAppend(a: seq<Registry.Group>, b: seq<Registry.Group>)
    ensures Flatten(a + b) == Flatten(a) + Flatten(b)
    decreases |a|
  {
    if |a| == 0 {
      assert a + b == b;
    } else {
      assert (a + b)[1..] == a[1..] + b;
      FlattenAppend(a[1..], b);
    }
  }

  /** A pair is in the flattened description exactly when some group
      holds it: nothing is lost and nothing is made up. */
  lemma {:induction false} FlattenMember(groups: seq<Registry.Group>, p: (Registry.Text, Registry.Text))
    ensures p in Flatten(groups) <==> exists i :: 0 <= i < |groups| && p in groups[i]
    decreases |groups|
  {
    if |groups| > 0 {
      FlattenMember(groups[1..], p);
      if p in Flatten(groups[1..]) {
        var i :| 0 <= i < |groups[1..]| && p in groups[1..][i];
        assert p in groups[i + 1];
      }
      if exists i :: 0 <= i < |groups| && p in groups[i] {
        var i :| 0 <= i < |groups| && p in groups[i];
        if i > 0 {
          assert p in groups[1..][i - 1];
        }
      }
    }
  }

  /** The flattened description is as long as all the groups together. */
  lemma {:induction false} FlattenLength(groups: seq<Registry.Group>)
    ensures |Flatten(groups)| == TotalLength(groups)
    decreases |groups|
  {
    if |groups| > 0 {
      FlattenLength(groups[1..]);
    }
  }

  /** Group `g` sits after all the pairs of the groups before it: the
      groups keep their order and so do the pairs in each. */
  lemma FlattenAt(groups: seq<Registry.Group>, g: nat)
    requires g < |groups|
    ensures TotalLength(groups[..g]) + |groups[g]| <= |Flatten(groups)|
    ensures forall k :: 0 <= k < |groups[g]| ==> Flatten(groups)[TotalLength(groups[..g]) + k] == groups[g][k]
  {
    var one: seq<Registry.Group> := [groups[g]];
    assert groups == groups[..g] + (one + groups[g + 1..]);
    FlattenAppend(groups[..g], one + groups[g + 1..]);
    FlattenAppend(one, groups[g + 1..]);
    assert Flatten(one) == groups[g] by {
      assert |one[1..]| == 0;
    }
    FlattenLength(groups[..g]);
  }

  function TotalLength(groups: seq<Registry.Group>): nat
    decreases |groups|
  {
    if |groups| == 0 then 0 else |groups[0]| + TotalLength(groups[1..])
  }

  /** The `(name, content)` pairs as the API's description entries. */
  function Descriptions(pairs: seq<(Registry.Text, Registry.Text)>): (r: seq<EventDescription>)
    ensures |r| == |pairs|
    ensures forall i :: 0 <= i < |r| ==> r[i].name == pairs[i].0 && r[i].content == pairs[i].1
  {
    seq(|pairs|, i requires 0 <= i < |pairs| => EventDescription(pairs[i].0, pairs[i].1))
  }

  /** `model::Event::from`. */
  function EventOf(e: Registry.Event): EventModel
  {
    var start := if e.startTime.Some? then Some(Tables.EpochSeconds(e.startTime.value)) else None;
    EventModel(
      e.id,
      if e.name.Some? then e.name.value else [],
      Descriptions(Flatten(e.description)),
      start,
      if start.Some? && e.duration.Some? then Some(start.value + e.duration.value) else None)
  }

  /** The title is the event name, empty when there is none; every
      description entry comes from one of the event's groups and every
      pair of every group appears; the end time exists exactly when both
      the start time and the duration do, and then lies `duration`
      seconds after the start. */
  lemma EventOfSpec(e: Registry.Event)
    ensures var m := EventOf(e);
      m.id == e.id &&
      (e.name.Some? ==> m.title == e.name.value) && (e.name.None? ==> m.title == []) &&
      (forall p: (Registry.Text, Registry.Text) :: (exists i :: 0 <= i < |m.description| && m.description[i] == EventDescription(p.0, p.1)) <==>
                   (exists g :: 0 <= g < |e.description| && p in e.description[g])) &&
      |m.description| == TotalLength(e.description) &&
      (m.startTime.Some? <==> e.startTime.Some?) &&
      (m.endTime.Some? <==> e.startTime.Some? && e.duration.Some?) &&
      (m.endTime.Some? ==> m.startTime.value <= m.endTime.value &&
                           m.endTime.value - m.startTime.value == e.duration.value)
  {
    var m := EventOf(e);
    var pairs := Flatten(e.description);
    FlattenLength(e.description);
    forall p: (Registry.Text, Registry.Text)
      ensures (exists i :: 0 <= i < |m.description| && m.description[i] == EventDescription(p.0, p.1)) <==>
              (exists g :: 0 <= g < |e.description| && p in e.description[g])
    {
      FlattenMember(e.description, p);
      if exists i :: 0 <= i < |m.description| && m.description[i] == EventDescription(p.0, p.1) {
        var i :| 0 <= i < |m.description| && m.description[i] == EventDescription(p.0, p.1);
        assert pairs[i] == p;
      }
      if p in pairs {
        var i :| 0 <= i < |pairs| && pairs[i] == p;
        assert m.description[i] == EventDescription(p.0, p.1);
      }
    }
  }

  /** The order of the description entries: the pairs of group `g` are
      the API entries right after those of the groups before it, in the
      group's own order. */
  lemma EventOfOrder(e: Registry.Event, g: int)
    requires 0 <= g < |e.description|
    ensures TotalLength(e.description[..g]) + |e.description[g]| <= |EventOf(e).description|
    ensures forall k :: 0 <= k < |e.description[g]| ==>
      EventOf(e).description[TotalLength(e.description[..g]) + k] ==
        EventDescription(e.description[g][k].0, e.description[g][k].1)
  {
    var pairs := Flatten(e.description);
    FlattenAt(e.description, g);
    forall k | 0 <= k < |e.description[g]|
      ensures EventOf(e).description[TotalLength(e.description[..g]) + k] ==
        EventDescription(e.description[g][k].0, e.description[g][k].1)
    {
      var i := TotalLength(e.description[..g]) + k;
      assert pairs[i] == e.description[g][k];
    }
  }

  // ---------------------------------------------------------------------
  // The handlers

  /** `get_channels`: every configured channel, numbered by position. */
  function GetChannels(w: Workspace.Workspace): (r: seq<ChannelModel>)
    ensures |r| == |w.channels|
    ensures forall i :: 0 <= i < |r| ==> r[i] == ChannelModel(i, w.channels[i].name)
  {
    var cs := Workspace.Channels(w);
    seq(|cs|, i requires 0 <= i < |cs| => ChannelModel(cs[i].0, cs[i].1.name))
  }

  /** `get_services`: every registered service, in no particular order. */
  function GetServices(services: map<u16, Registry.Service>): (r: set<ServiceModel>)
    ensures forall m :: m in r <==> exists id :: id in services && ServiceOf(services[id]) == m
  {
    set id | id in services :: ServiceOf(services[id])
  }

  /** `get_events`: the events of one service, none for an unknown one. */
  function GetEvents(services: map<u16, Registry.Service>, serviceId: u16): (r: set<EventModel>)
    ensures serviceId !in services ==> r == {}
    ensures serviceId in services ==>
      forall m :: m in r <==> exists id :: id in services[serviceId].events && EventOf(services[serviceId].events[id]) == m
  {
    if serviceId !in services then {}
    else set id | id in services[serviceId].events :: EventOf(services[serviceId].events[id])
  }

  /** `get_stream`. */
  function GetStream(w: Workspace.Workspace, streamId: u32): Response<StreamModel>
  {
    match Workspace.GetCurrentEvent(w, streamId)
    case None => Status(NotFound)
    case Some((service, event)) =>
      Body(StreamModel(if service.Some? then Some(ServiceOf(service.value)) else None,
                          if event.Some? then Some(EventOf(event.value)) else None))
  }

  /** An unknown stream is a 404 and nothing else is; otherwise the body
      shows the service the stream is tuned to and its current event, as
      far as the registry holds them. */
  lemma GetStreamSpec(w: Workspace.Workspace, streamId: u32)
    ensures GetStream(w, streamId) == Status(NotFound) <==> streamId !in w.streams
    ensures GetStream(w, streamId).Status? ==> GetStream(w, streamId).status == NotFound
    ensures streamId in w.streams ==>
      var st := w.streams[streamId];
      var body := GetStream(w, streamId).body;
      (body.service.Some? <==> st.serviceId.Some? && st.serviceId.value in w.services) &&
      (body.service.Some? ==> body.service.value == ServiceOf(w.services[st.serviceId.value])) &&
      (body.event.Some? <==> st.serviceId.Some? && st.eventId.Some? && st.serviceId.value in w.services &&
                             st.eventId.value in w.services[st.serviceId.value].events) &&
      (body.event.Some? ==> body.event.value == EventOf(w.services[st.serviceId.value].events[st.eventId.value]))
  {
    Workspace.GetCurrentEventSpec(w, streamId);
  }

  /** `update_stream`: no service id changes nothing; otherwise the
      outcome of `set_channel`, every not-found error as a 404 and any
      other as a 500. */
  function UpdateStream(w: Workspace.Workspace, streamId: u32, serviceId: Option<u16>,
                        tune: (u16, Workspace.Channel) -> bool): Response<()>
  {
    if serviceId.None? then Body(())
    else match Workspace.SetChannel(w, streamId, serviceId.value, tune)
      case None => Body(())
      case Some(e) => if e.Internal? then Status(InternalServerError) else Status(NotFound)
  }

  /** The status follows the workspace's error: 404 exactly when the
      stream, the service or a channel for it is missing, 500 exactly when
      tuning fails, and success when there is nothing to do or tuning the
      first channel of the service's TLV stream succeeds. */
  lemma UpdateStreamSpec(w: Workspace.Workspace, streamId: u32, serviceId: Option<u16>,
                         tune: (u16, Workspace.Channel) -> bool)
    ensures UpdateStream(w, streamId, serviceId, tune).Status? ==>
      UpdateStream(w, streamId, serviceId, tune).status in {NotFound, InternalServerError}
    ensures UpdateStream(w, streamId, serviceId, tune) == Status(NotFound) <==>
      serviceId.Some? &&
      (streamId !in w.streams || serviceId.value !in w.services ||
       forall i :: 0 <= i < |w.channels| ==> !Workspace.Tunes(w.channels[i], w.services[serviceId.value].tlvStreamId))
    ensures UpdateStream(w, streamId, serviceId, tune) == Status(InternalServerError) <==>
      serviceId.Some? && Workspace.SetChannel(w, streamId, serviceId.value, tune) == Some(Workspace.Internal)
    ensures UpdateStream(w, streamId, serviceId, tune).Body? <==>
      serviceId.None? || Workspace.SetChannel(w, streamId, serviceId.value, tune).None?
  {
    if serviceId.Some? {
      Workspace.SetChannelSpec(w, streamId, serviceId.value, tune);
    }
  }
}
