// The workspace (crates/chibitv/src/workspace.rs): the configured
// channels, the registry and the open streams, with the lookups the REST
// API answers from.  A stream is seen through the two ids it reports, the
// service tuned to and the event last signalled; restarting its session
// and tuning belong to the stream and are a parameter here.

module Workspace {
  import opened Wire
  import Registry

  datatype ChannelInner = IsdbS(frequency: u32, streamId: u32)

  datatype Channel = Channel(id: nat, name: string, inner: ChannelInner)

  /** What `Stream::get_service_id` and `Stream::get_event_id` report. */
  datatype StreamState = StreamState(serviceId: Option<u16>, eventId: Option<u16>)

  /** The value of a `Workspace`: the registry's services, the channels
      in configuration order and the open streams by id. */
  datatype Workspace = Workspace(
    services: map<u16, Registry.Service>,
    channels: seq<Channel>,
    streams: map<u32, StreamState>)

  datatype WorkspaceError = ChannelNotFound | ServiceNotFound | StreamNotFound | Internal

  /** `channels`: each channel numbered by its position. */
  function Channels(w: Workspace): (r: seq<(nat, Channel)>)
    ensures |r| == |w.channels|
    ensures forall i :: 0 <= i < |r| ==> r[i] == (i, w.channels[i])
  {
    Enumerate(w.channels, 0)
  }

  /** The channels of `cs` numbered from `from`. */
  function Enumerate(cs: seq<Channel>, from: nat): (r: seq<(nat, Channel)>)
    ensures |r| == |cs|
    ensures forall i :: 0 <= i < |r| ==> r[i] == (from + i, cs[i])
    decreases |cs|
  {
    if |cs| == 0 then [] else [(from, cs[0])] + Enumerate(cs[1..], from + 1)
  }

  /** `get_current_event`: `None` for an unknown stream, otherwise the
      service the stream is tuned to and its current event, each when the
      registry holds it. */
  function GetCurrentEvent(w: Workspace, streamId: u32): Option<(Option<Registry.Service>, Option<Registry.Event>)>
  {
    if streamId !in w.streams then None
    else
      var st := w.streams[streamId];
      var service := if st.serviceId.Some? && st.serviceId.value in w.services
                     then Some(w.services[st.serviceId.value]) else None;
      var event := if st.serviceId.Some? && st.eventId.Some? && st.serviceId.value in w.services &&
                      st.eventId.value in w.services[st.serviceId.value].events
                   then Some(w.services[st.serviceId.value].events[st.eventId.value]) else None;
      Some((service, event))
  }

  /** The stream is unknown exactly when there is no answer; the service
      is the registry's entry for the stream's service id, and the event is
      present only when both ids are set and the registry holds the event,
      which then belongs to the service returned. */
  lemma GetCurrentEventSpec(w: Workspace, streamId: u32)
    ensures GetCurrentEvent(w, streamId).None? <==> streamId !in w.streams
    ensures streamId in w.streams ==>
      var st := w.streams[streamId];
      var (service, event) := GetCurrentEvent(w, streamId).value;
      (service.Some? <==> st.serviceId.Some? && st.serviceId.value in w.services) &&
      (service.Some? ==> service.value == w.services[st.serviceId.value]) &&
      (event.Some? <==> st.serviceId.Some? && st.eventId.Some? && st.serviceId.value in w.services &&
                        st.eventId.value in w.services[st.serviceId.value].events) &&
      (event.Some? ==> service.Some? && event.value == service.value.events[st.eventId.value])
    ensures streamId in w.streams && Registry.ServicesValid(w.services) ==>
      var (service, event) := GetCurrentEvent(w, streamId).value;
      (service.Some? ==> Some(service.value.id) == w.streams[streamId].serviceId) &&
      (event.Some? ==> Some(event.value.id) == w.streams[streamId].eventId)
  {
  }

  /** Whether a channel tunes the TLV stream `tlvStreamId`. */
  predicate Tunes(c: Channel, tlvStreamId: u32)
  {
    c.inner.IsdbS? && c.inner.streamId == tlvStreamId
  }

  /** The position of the first channel tuning `tlvStreamId`, as the
      source's `find` takes it. */
  function FindChannel(cs: seq<Channel>, tlvStreamId: u32): (r: Option<nat>)
    ensures r.None? <==> forall i :: 0 <= i < |cs| ==> !Tunes(cs[i], tlvStreamId)
    ensures r.Some? ==> r.value < |cs| && Tunes(cs[r.value], tlvStreamId) &&
                        forall i :: 0 <= i < r.value ==> !Tunes(cs[i], tlvStreamId)
    decreases |cs|
  {
    if |cs| == 0 then None
    else if Tunes(cs[0], tlvStreamId) then Some(0)
    else
      var r := FindChannel(cs[1..], tlvStreamId);
      assert forall i :: 1 <= i < |cs| ==> cs[i] == cs[1..][i - 1];
      if r.None? then None else Some(r.value + 1)
  }

  /** `set_channel`, as the error it returns (`None` is `Ok(())`).
      `tune` stands for `Stream::set_channel`, which restarts the session
      and tunes, and says whether that succeeded. */
  function SetChannel(w: Workspace, streamId: u32, serviceId: u16, tune: (u16, Channel) -> bool): Option<WorkspaceError>
  {
    if streamId !in w.streams then Some(StreamNotFound)
    else if serviceId !in w.services then Some(ServiceNotFound)
    else match FindChannel(w.channels, w.services[serviceId].tlvStreamId)
      case None => Some(ChannelNotFound)
      case Some(i) => if tune(serviceId, w.channels[i]) then None else Some(Internal)
  }

  /** The errors come in the source's order: an unknown stream before an
      unknown service, an unknown service before a missing channel; the
      call succeeds exactly when all three are found and tuning to the
      first channel of the service's TLV stream succeeds. */
  lemma SetChannelSpec(w: Workspace, streamId: u32, serviceId: u16, tune: (u16, Channel) -> bool)
    ensures SetChannel(w, streamId, serviceId, tune) == Some(StreamNotFound) <==> streamId !in w.streams
    ensures SetChannel(w, streamId, serviceId, tune) == Some(ServiceNotFound) <==>
      streamId in w.streams && serviceId !in w.services
    ensures SetChannel(w, streamId, serviceId, tune) == Some(ChannelNotFound) <==>
      streamId in w.streams && serviceId in w.services &&
      forall i :: 0 <= i < |w.channels| ==> !Tunes(w.channels[i], w.services[serviceId].tlvStreamId)
    ensures SetChannel(w, streamId, serviceId, tune).None? <==>
      streamId in w.streams && serviceId in w.services &&
      exists i :: (0 <= i < |w.channels| && Tunes(w.channels[i], w.services[serviceId].tlvStreamId) &&
                   (forall j :: 0 <= j < i ==> !Tunes(w.channels[j], w.services[serviceId].tlvStreamId)) &&
                   tune(serviceId, w.channels[i]))
  {
    if streamId in w.streams && serviceId in w.services {
      var t := w.services[serviceId].tlvStreamId;
      var r := FindChannel(w.channels, t);
      if r.Some? {
        forall i | 0 <= i < |w.channels| && Tunes(w.channels[i], t) &&
                   (forall j :: 0 <= j < i ==> !Tunes(w.channels[j], t))
          ensures i == r.value
        {
        }
      }
    }
  }

  /** A stream a channel can be set on is one `get_current_event` answers
      for. */
  lemma SetChannelKnownStream(w: Workspace, streamId: u32, serviceId: u16, tune: (u16, Channel) -> bool)
    requires SetChannel(w, streamId, serviceId, tune).None?
    ensures GetCurrentEvent(w, streamId).Some?
  {
    SetChannelSpec(w, streamId, serviceId, tune);
    GetCurrentEventSpec(w, streamId);
  }
}
