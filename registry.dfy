// The registry of broadcasters, services and events learnt from the
// MH-BIT, MH-SDT and MH-EIT sections (crates/chibitv/src/registry.rs).
// The concurrent maps are plain maps; names stay the bytes they were
// read as.

module Registry {
  import opened Wire
  import opened Descriptors
  import opened Tables
  import opened Sections

  /** Bytes of a name or text, as the source's `from_utf8_lossy` gets them. */
  type Text = seq<byte>

  /** One extended-event slot: (item description, item) pairs. */
  type Group = seq<(Text, Text)>

  datatype Broadcaster = Broadcaster(id: byte, name: Text)

  datatype Event = Event(
    id: u16,
    startTime: Option<StartTime>,
    duration: Option<nat>,
    languageCode: Option<Text>,
    name: Option<Text>,
    description: seq<Group>)

  datatype Service = Service(
    id: u16,
    name: Text,
    providerName: Text,
    tlvStreamId: u16,
    events: map<u16, Event>)

  /** Every entry is stored under its own id. */
  predicate BroadcastersValid(bs: map<byte, Broadcaster>)
  {
    forall k :: k in bs ==> bs[k].id == k
  }

  predicate EventsValid(events: map<u16, Event>)
  {
    forall k :: k in events ==> events[k].id == k
  }

  predicate ServicesValid(services: map<u16, Service>)
  {
    forall k :: k in services ==> services[k].id == k && EventsValid(services[k].events)
  }

  // ---------------------------------------------------------------------
  // Searching descriptor loops

  predicate IsBroadcasterName(d: Descriptor) { d.MhBroadcasterNameBody? }
  predicate IsService(d: Descriptor) { d.MhServiceBody? }
  predicate IsShortEvent(d: Descriptor) { d.MhShortEventBody? }
  predicate IsExtendedEvent(d: Descriptor) { d.MhExtendedEventBody? }

  /** The index `find_map` stops at: the first descriptor of a kind. */
  function FirstWhere(ds: seq<Descriptor>, p: Descriptor -> bool): (r: Option<nat>)
    ensures r.Some? ==> r.value < |ds| && p(ds[r.value]) && forall j :: 0 <= j < r.value ==> !p(ds[j])
    ensures r.None? ==> forall j :: 0 <= j < |ds| ==> !p(ds[j])
  {
    if |ds| == 0 then None
    else if p(ds[0]) then Some(0)
    else match FirstWhere(ds[1..], p)
      case None => None
      case Some(i) => Some(i + 1)
  }

  /** The index of the last descriptor of a kind, the one whose fields a
      loop of overwrites leaves behind. */
  function LastWhere(ds: seq<Descriptor>, p: Descriptor -> bool): (r: Option<nat>)
    ensures r.Some? ==> r.value < |ds| && p(ds[r.value]) && forall j :: r.value < j < |ds| ==> !p(ds[j])
    ensures r.None? ==> forall j :: 0 <= j < |ds| ==> !p(ds[j])
  {
    if |ds| == 0 then None
    else match LastWhere(ds[1..], p)
      case Some(i) => Some(i + 1)
      case None => if p(ds[0]) then Some(0) else None
  }

  // ---------------------------------------------------------------------
  // put_broadcaster and put_service

  /** `put_broadcaster`: a known id is kept as it is; an unknown one is
      added, named by its first broadcaster-name descriptor, if it has one. */
  function WithBroadcaster(bs: map<byte, Broadcaster>, b: BroadcasterInformation): map<byte, Broadcaster>
  {
    if b.broadcasterId in bs then bs
    else match FirstWhere(b.descriptors, IsBroadcasterName)
      case None => bs
      case Some(i) => bs[b.broadcasterId := Broadcaster(b.broadcasterId, b.descriptors[i].broadcasterName.name)]
  }

  /** First write wins, and the name is that of the first name descriptor. */
  lemma WithBroadcasterSpec(bs: map<byte, Broadcaster>, b: BroadcasterInformation)
    ensures var r := WithBroadcaster(bs, b);
      (b.broadcasterId in bs ==> r == bs) &&
      (b.broadcasterId !in bs ==>
        (b.broadcasterId in r <==> exists i :: 0 <= i < |b.descriptors| && b.descriptors[i].MhBroadcasterNameBody?)) &&
      (b.broadcasterId !in bs && b.broadcasterId in r ==>
        r == bs[b.broadcasterId := r[b.broadcasterId]] && r[b.broadcasterId].id == b.broadcasterId &&
        exists i :: 0 <= i < |b.descriptors| &&
          b.descriptors[i] == MhBroadcasterNameBody(MhBroadcasterNameDescriptor(r[b.broadcasterId].name)) &&
          forall j :: 0 <= j < i ==> !b.descriptors[j].MhBroadcasterNameBody?) &&
      (BroadcastersValid(bs) ==> BroadcastersValid(r))
  {
    var f := FirstWhere(b.descriptors, IsBroadcasterName);
    if b.broadcasterId !in bs && f.Some? {
      assert b.descriptors[f.value] == MhBroadcasterNameBody(MhBroadcasterNameDescriptor(b.descriptors[f.value].broadcasterName.name));
    }
    if f.None? {
      assert forall i :: 0 <= i < |b.descriptors| ==> !IsBroadcasterName(b.descriptors[i]);
    }
  }

  /** `put_service`: a known id is kept as it is; an unknown one is added,
      with no events, if its first service descriptor is of a TV service. */
  function WithService(services: map<u16, Service>, tlvStreamId: u16, s: ServiceInformation): map<u16, Service>
  {
    if s.serviceId in services then services
    else match FirstWhere(s.descriptors, IsService)
      case None => services
      case Some(i) =>
        var d := s.descriptors[i].service;
        if d.serviceType != 1 then services
        else services[s.serviceId := Service(s.serviceId, d.serviceName, d.serviceProviderName, tlvStreamId, map[])]
  }

  /** First write wins; only the first service descriptor decides, and a
      new service starts with an empty event table. */
  lemma WithServiceSpec(services: map<u16, Service>, tlvStreamId: u16, s: ServiceInformation)
    ensures var r := WithService(services, tlvStreamId, s);
      (s.serviceId in services ==> r == services) &&
      (s.serviceId !in services && s.serviceId in r ==>
        r == services[s.serviceId := r[s.serviceId]] &&
        exists i :: 0 <= i < |s.descriptors| && s.descriptors[i].MhServiceBody? &&
          (forall j :: 0 <= j < i ==> !s.descriptors[j].MhServiceBody?) &&
          s.descriptors[i].service.serviceType == 1 &&
          r[s.serviceId] == Service(s.serviceId, s.descriptors[i].service.serviceName,
                                    s.descriptors[i].service.serviceProviderName, tlvStreamId, map[])) &&
      (s.serviceId !in r ==>
        r == services &&
        forall i :: (0 <= i < |s.descriptors| && s.descriptors[i].MhServiceBody? &&
                     (forall j :: 0 <= j < i ==> !s.descriptors[j].MhServiceBody?)) ==>
          s.descriptors[i].service.serviceType != 1) &&
      (ServicesValid(services) ==> ServicesValid(r))
  {
    var f := FirstWhere(s.descriptors, IsService);
    if f.Some? {
      assert IsService(s.descriptors[f.value]);
      forall i | 0 <= i < |s.descriptors| && s.descriptors[i].MhServiceBody? &&
          (forall j :: 0 <= j < i ==> !s.descriptors[j].MhServiceBody?)
        ensures i == f.value
      {
        assert IsService(s.descriptors[i]);
      }
    }
  }

  // ---------------------------------------------------------------------
  // put_event

  /** The text of an event while its descriptors are merged in. */
  datatype EventText = EventText(languageCode: Option<Text>, name: Option<Text>, description: seq<Group>)

  /** The descriptor numbers are four-bit fields. */
  predicate NumbersValid(ds: seq<Descriptor>)
  {
    forall i :: 0 <= i < |ds| && ds[i].MhExtendedEventBody? ==>
      0 <= ds[i].extendedEvent.descriptorNumber < 0x10 && 0 <= ds[i].extendedEvent.lastDescriptorNumber < 0x10
  }

  /** `repeat_n(vec![], n)`. */
  function Empties(n: nat): (r: seq<Group>)
    ensures |r| == n && forall i :: 0 <= i < n ==> r[i] == []
  {
    seq(n, i => [])
  }

  /** An extended-event descriptor's items as (description, item) pairs. */
  function Items(items: seq<ExtendedEventItem>): (r: Group)
    ensures |r| == |items| && forall i :: 0 <= i < |items| ==> r[i] == (items[i].itemDescription, items[i].item)
  {
    seq(|items|, i requires 0 <= i < |items| => (items[i].itemDescription, items[i].item))
  }

  /** One turn of the descriptor loop; `None` is the panic of an index
      past the end of the description. */
  function MergeDescriptor(t: EventText, d: Descriptor): Option<EventText>
    requires d.MhExtendedEventBody? ==>
      0 <= d.extendedEvent.descriptorNumber && 0 <= d.extendedEvent.lastDescriptorNumber
  {
    match d
    case MhShortEventBody(s) => Some(t.(languageCode := Some(s.iso639LanguageCode), name := Some(s.eventName)))
    case MhExtendedEventBody(x) =>
      var len := x.lastDescriptorNumber + 1;
      var description := if |t.description| != len then Empties(len) else t.description;
      if x.descriptorNumber < len then Some(t.(description := description[x.descriptorNumber := Items(x.items)]))
      else None
    case _ => Some(t)
  }

  /** The whole descriptor loop of `put_event`. */
  function MergeAll(t: EventText, ds: seq<Descriptor>): Option<EventText>
    requires NumbersValid(ds)
    decreases |ds|
  {
    if |ds| == 0 then Some(t)
    else match MergeDescriptor(t, ds[0])
      case None => None
      case Some(t1) => MergeAll(t1, ds[1..])
  }

  /** An extended-event descriptor whose number is past its own last
      number: the index the source's assignment panics on. */
  predicate Overruns(d: Descriptor)
  {
    d.MhExtendedEventBody? && d.extendedEvent.descriptorNumber > d.extendedEvent.lastDescriptorNumber
  }

  /** The loop panics exactly when some extended-event descriptor numbers
      a slot past its own last one. */
  lemma {:induction false} MergeAllPanics(t: EventText, ds: seq<Descriptor>)
    requires NumbersValid(ds)
    ensures MergeAll(t, ds).None? <==> exists i :: 0 <= i < |ds| && Overruns(ds[i])
    decreases |ds|
  {
    if |ds| > 0 {
      match MergeDescriptor(t, ds[0])
      case None =>
        assert Overruns(ds[0]);
      case Some(t1) =>
        assert !Overruns(ds[0]);
        MergeAllPanics(t1, ds[1..]);
        if exists i :: 0 <= i < |ds| && Overruns(ds[i]) {
          var i :| 0 <= i < |ds| && Overruns(ds[i]);
          assert Overruns(ds[1..][i - 1]);
        }
        if exists i :: 0 <= i < |ds[1..]| && Overruns(ds[1..][i]) {
          var i :| 0 <= i < |ds[1..]| && Overruns(ds[1..][i]);
          assert Overruns(ds[i + 1]);
        }
    }
  }

  /** Language and name are those of the last short-event descriptor, or
      the earlier ones when there is none. */
  lemma {:induction false} MergeAllName(t: EventText, ds: seq<Descriptor>)
    requires NumbersValid(ds) && MergeAll(t, ds).Some?
    ensures var r := MergeAll(t, ds).value;
      match LastWhere(ds, IsShortEvent)
      case None => r.languageCode == t.languageCode && r.name == t.name
      case Some(i) =>
        r.languageCode == Some(ds[i].shortEvent.iso639LanguageCode) && r.name == Some(ds[i].shortEvent.eventName)
    decreases |ds|
  {
    if |ds| > 0 {
      var t1 := MergeDescriptor(t, ds[0]).value;
      MergeAllName(t1, ds[1..]);
    }
  }

  /** Without extended-event descriptors the description is kept; after
      the last one it has that descriptor's `last + 1` slots, its own slot
      holding its items. */
  lemma {:induction false} MergeAllDescription(t: EventText, ds: seq<Descriptor>)
    requires NumbersValid(ds) && MergeAll(t, ds).Some?
    ensures var r := MergeAll(t, ds).value;
      match LastWhere(ds, IsExtendedEvent)
      case None => r.description == t.description
      case Some(i) =>
        var x := ds[i].extendedEvent;
        |r.description| == x.lastDescriptorNumber + 1 &&
        0 <= x.descriptorNumber < |r.description| && r.description[x.descriptorNumber] == Items(x.items)
    decreases |ds|
  {
    if |ds| > 0 {
      var t1 := MergeDescriptor(t, ds[0]).value;
      MergeAllDescription(t1, ds[1..]);
    }
  }

  /** Slot `k` of a description of `n` slots after the descriptors `ds`,
      read backwards from the last descriptor: an extended-event
      descriptor of another length reset the description, so the slot is
      empty; one numbered `k` wrote its items there; reaching the start,
      the slot is the stored one if the stored description had `n` slots
      and empty otherwise. */
  function SlotAfter(stored: seq<Group>, ds: seq<Descriptor>, n: nat, k: nat): Group
    requires k < n
    decreases |ds|
  {
    if |ds| == 0 then (if |stored| == n then stored[k] else [])
    else
      var d := ds[|ds| - 1];
      if d.MhExtendedEventBody? && d.extendedEvent.lastDescriptorNumber + 1 != n then []
      else if d.MhExtendedEventBody? && d.extendedEvent.descriptorNumber == k then Items(d.extendedEvent.items)
      else SlotAfter(stored, ds[..|ds| - 1], n, k)
  }

  /** The descriptor loop run on all but the last descriptor, then on the
      last one. */
  lemma {:induction false} MergeAllSnoc(t: EventText, ds: seq<Descriptor>)
    requires NumbersValid(ds) && |ds| > 0
    ensures NumbersValid(ds[..|ds| - 1])
    ensures MergeAll(t, ds) ==
      match MergeAll(t, ds[..|ds| - 1])
      case None => None
      case Some(t1) => MergeDescriptor(t1, ds[|ds| - 1])
    decreases |ds|
  {
    if |ds| > 1 {
      assert ds[1..][..|ds| - 2] == ds[..|ds| - 1][1..];
      match MergeDescriptor(t, ds[0])
      case None =>
      case Some(t1) =>
        assert NumbersValid(ds[1..]) by {
          forall i | 0 <= i < |ds[1..]| && ds[1..][i].MhExtendedEventBody?
            ensures 0 <= ds[1..][i].extendedEvent.descriptorNumber < 0x10
          {
            assert ds[1..][i] == ds[i + 1];
          }
        }
        MergeAllSnoc(t1, ds[1..]);
    }
  }

  /** Read back with a length other than the one the loop left behind,
      every slot is empty. */
  lemma {:induction false} SlotAfterStale(t: EventText, ds: seq<Descriptor>, n: nat, k: nat)
    requires NumbersValid(ds) && MergeAll(t, ds).Some? && k < n
    requires |MergeAll(t, ds).value.description| != n
    ensures SlotAfter(t.description, ds, n, k) == []
    decreases |ds|
  {
    if |ds| > 0 {
      MergeAllSnoc(t, ds);
      if !ds[|ds| - 1].MhExtendedEventBody? {
        SlotAfterStale(t, ds[..|ds| - 1], n, k);
      }
    }
  }

  /** Every slot of the merged description, as `SlotAfter` reads it back. */
  lemma {:induction false} MergeAllSlots(t: EventText, ds: seq<Descriptor>)
    requires NumbersValid(ds) && MergeAll(t, ds).Some?
    ensures var r := MergeAll(t, ds).value;
      forall k :: 0 <= k < |r.description| ==> r.description[k] == SlotAfter(t.description, ds, |r.description|, k)
    decreases |ds|
  {
    if |ds| > 0 {
      var r := MergeAll(t, ds).value;
      MergeAllSnoc(t, ds);
      var prefix := ds[..|ds| - 1];
      var r1 := MergeAll(t, prefix).value;
      MergeAllSlots(t, prefix);
      forall k | 0 <= k < |r.description|
        ensures r.description[k] == SlotAfter(t.description, ds, |r.description|, k)
      {
        if |r1.description| != |r.description| {
          SlotAfterStale(t, prefix, |r.description|, k);
        }
      }
    }
  }

  /** The event `put_event` stores: timing from the latest record, text
      merged onto the previous record's. */
  function MergedEvent(previous: Option<Event>, e: EventInformation): Option<Event>
    requires NumbersValid(e.descriptors)
  {
    var start := match previous
      case Some(p) => EventText(p.languageCode, p.name, p.description)
      case None => EventText(None, None, []);
    match MergeAll(start, e.descriptors)
    case None => None
    case Some(t) => Some(Event(e.eventId, e.startTime, e.duration, t.languageCode, t.name, t.description))
  }

  /** `put_event`: an unknown service is left alone; `None` is a panic. */
  function WithEvent(services: map<u16, Service>, serviceId: u16, e: EventInformation): Option<map<u16, Service>>
    requires NumbersValid(e.descriptors)
  {
    if serviceId !in services then Some(services)
    else
      var s := services[serviceId];
      var previous := if e.eventId in s.events then Some(s.events[e.eventId]) else None;
      match MergedEvent(previous, e)
      case None => None
      case Some(ev) => Some(services[serviceId := s.(events := s.events[e.eventId := ev])])
  }

  /** `put_event` touches one event of one service: its timing is the
      record's, its text starts from what was stored, and it panics only
      on an overrunning extended-event descriptor. */
  lemma WithEventSpec(services: map<u16, Service>, serviceId: u16, e: EventInformation)
    requires NumbersValid(e.descriptors)
    ensures var r := WithEvent(services, serviceId, e);
      (serviceId !in services ==> r == Some(services)) &&
      (serviceId in services ==>
        (r.None? <==> exists i :: 0 <= i < |e.descriptors| && Overruns(e.descriptors[i]))) &&
      (serviceId in services && r.Some? ==>
        var s := services[serviceId];
        var ev := r.value[serviceId].events[e.eventId];
        var start := if e.eventId in s.events
          then EventText(s.events[e.eventId].languageCode, s.events[e.eventId].name, s.events[e.eventId].description)
          else EventText(None, None, []);
        r.value == services[serviceId := s.(events := s.events[e.eventId := ev])] &&
        MergeAll(start, e.descriptors).Some? &&
        ev == Event(e.eventId, e.startTime, e.duration, MergeAll(start, e.descriptors).value.languageCode,
                    MergeAll(start, e.descriptors).value.name, MergeAll(start, e.descriptors).value.description) &&
        (LastWhere(e.descriptors, IsShortEvent).None? ==>
          ev.languageCode == (if e.eventId in s.events then s.events[e.eventId].languageCode else None) &&
          ev.name == (if e.eventId in s.events then s.events[e.eventId].name else None)) &&
        (LastWhere(e.descriptors, IsExtendedEvent).None? ==>
          ev.description == (if e.eventId in s.events then s.events[e.eventId].description else []))) &&
      (r.Some? && ServicesValid(services) ==> ServicesValid(r.value))
  {
    if serviceId in services {
      var s := services[serviceId];
      var previous := if e.eventId in s.events then Some(s.events[e.eventId]) else None;
      var start := match previous
        case Some(p) => EventText(p.languageCode, p.name, p.description)
        case None => EventText(None, None, []);
      MergeAllPanics(start, e.descriptors);
      if MergeAll(start, e.descriptors).Some? {
        MergeAllName(start, e.descriptors);
        MergeAllDescription(start, e.descriptors);
      }
    }
  }

  /** The descriptor loop of `put_event`, rebuilding the description slot
      by slot; `None` is the index panic. */
  method MergeEach(start: EventText, ds: seq<Descriptor>) returns (r: Option<EventText>)
    requires NumbersValid(ds)
    ensures r == MergeAll(start, ds)
  {
    var languageCode, name, description := start.languageCode, start.name, start.description;
    var i := 0;
    while i < |ds|
      invariant 0 <= i <= |ds|
      invariant MergeAll(EventText(languageCode, name, description), ds[i..]) == MergeAll(start, ds)
    {
      assert ds[i..][1..] == ds[i + 1..];
      match ds[i] {
        case MhShortEventBody(d) =>
          languageCode := Some(d.iso639LanguageCode);
          name := Some(d.eventName);
        case MhExtendedEventBody(d) =>
          var len := d.lastDescriptorNumber + 1;
          if |description| != len {
            description := Empties(len);
          }
          if d.descriptorNumber >= |description| {
            return None;
          }
          description := description[d.descriptorNumber := Items(d.items)];
        case _ =>
      }
      i := i + 1;
    }
    assert ds[i..] == [];
    return Some(EventText(languageCode, name, description));
  }

  // ---------------------------------------------------------------------
  // The object

  class Registry {
    var broadcasters: map<byte, Broadcaster>
    var services: map<u16, Service>

    predicate Valid()
      reads this
    {
      BroadcastersValid(broadcasters) && ServicesValid(services)
    }

    /** `Registry::default`. */
    constructor ()
      ensures Valid() && broadcasters == map[] && services == map[]
    {
      broadcasters := map[];
      services := map[];
    }

    /** `get_all_services`: every stored service, in no particular order. */
    function GetAllServices(): (r: set<Service>)
      reads this
      ensures forall id :: id in services ==> services[id] in r
      ensures Valid() ==> forall s :: s in r <==> s.id in services && services[s.id] == s
    {
      services.Values
    }

    /** `get_service_by_id`. */
    function GetServiceById(serviceId: u16): (r: Option<Service>)
      reads this
      ensures r.Some? <==> serviceId in services
      ensures r.Some? ==> r.value == services[serviceId]
    {
      if serviceId in services then Some(services[serviceId]) else None
    }

    /** `get_events_by_service_id`: the service's events, none for an
        unknown service. */
    function GetEventsByServiceId(serviceId: u16): (r: set<Event>)
      reads this
      ensures serviceId !in services ==> r == {}
      ensures serviceId in services ==> r == services[serviceId].events.Values
    {
      if serviceId in services then services[serviceId].events.Values else {}
    }

    /** `get_event_by_id`: `None` for an unknown service or event. */
    function GetEventById(serviceId: u16, eventId: u16): (r: Option<Event>)
      reads this
      ensures r.Some? <==> serviceId in services && eventId in services[serviceId].events
      ensures r.Some? ==> r.value == services[serviceId].events[eventId]
      ensures r.Some? && Valid() ==> r.value.id == eventId
    {
      if serviceId in services && eventId in services[serviceId].events
      then Some(services[serviceId].events[eventId]) else None
    }

    /** `put_broadcaster`. */
    method PutBroadcaster(b: BroadcasterInformation)
      modifies this
      ensures broadcasters == WithBroadcaster(old(broadcasters), b) && services == old(services)
      ensures old(Valid()) ==> Valid()
    {
      WithBroadcasterSpec(broadcasters, b);
      if b.broadcasterId in broadcasters {
        return;
      }
      var i := FirstWhere(b.descriptors, IsBroadcasterName);
      if i.None? {
        return;
      }
      broadcasters := broadcasters[b.broadcasterId := Broadcaster(b.broadcasterId, b.descriptors[i.value].broadcasterName.name)];
    }

    /** `put_service`. */
    method PutService(tlvStreamId: u16, s: ServiceInformation)
      modifies this
      ensures services == WithService(old(services), tlvStreamId, s) && broadcasters == old(broadcasters)
      ensures old(Valid()) ==> Valid()
    {
      WithServiceSpec(services, tlvStreamId, s);
      if s.serviceId in services {
        return;
      }
      var i := FirstWhere(s.descriptors, IsService);
      if i.None? {
        return;
      }
      var d := s.descriptors[i.value].service;
      if d.serviceType != 1 {
        return;
      }
      services := services[s.serviceId := Service(s.serviceId, d.serviceName, d.serviceProviderName, tlvStreamId, map[])];
    }

    /** `put_event`; `false` is the index panic, after which nothing is
        promised. */
    method PutEvent(serviceId: u16, e: EventInformation) returns (ok: bool)
      requires NumbersValid(e.descriptors)
      modifies this
      ensures ok == WithEvent(old(services), serviceId, e).Some?
      ensures ok ==> services == WithEvent(old(services), serviceId, e).value && broadcasters == old(broadcasters)
      ensures ok && old(Valid()) ==> Valid()
    {
      WithEventSpec(services, serviceId, e);
      if serviceId !in services {
        return true;
      }
      var s := services[serviceId];
      var previous := if e.eventId in s.events then Some(s.events[e.eventId]) else None;
      var start := if previous.Some? then EventText(previous.value.languageCode, previous.value.name, previous.value.description)
                   else EventText(None, None, []);
      var t := MergeEach(start, e.descriptors);
      if t.None? {
        return false;
      }
      var ev := Event(e.eventId, e.startTime, e.duration, t.value.languageCode, t.value.name, t.value.description);
      services := services[serviceId := s.(events := s.events[e.eventId := ev])];
      return true;
    }
  }
}
