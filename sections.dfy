/** The section tables of table.rs that carry service information: MH-EIT,
    MH-BIT, MH-SDT and MH-SIT of ARIB STD-B60, their entries, and
    `Table::read`, which dispatches a table on its id.

    Every section starts with the same seven-byte header after its table id.
    The entries then follow back to back while more than four bytes remain,
    and the last four bytes are the CRC-32.  The CRC is read but never
    checked.  The `section_length` field is only recorded.  The section
    therefore ends where the buffer it is read from ends.

    None of these readers returns an io error.  A short buffer panics, and
    so does an event whose running status `from_repr` does not know.  The
    only errors `Table::read` returns come from the MPT and the PLT. */
module Sections {
  import opened Wire
  import opened Descriptors
  import opened Tables

  /** A one-bit flag as a number. */
  function Bit(b: bool): nat
  {
    if b then 1 else 0
  }

  lemma Split4096(q: nat, r: nat)
    requires r < 0x1000
    ensures (q * 0x1000 + r) / 0x1000 == q && (q * 0x1000 + r) % 0x1000 == r
  {
  }

  lemma Split8192(q: nat, r: nat)
    requires r < 0x2000
    ensures (q * 0x2000 + r) / 0x2000 == q
  {
  }

  /** A u16 made of a three-bit field on top, a flag in bit 12 and a
      twelve-bit length below. */
  function Head16(top: nat, flag: bool, length: nat): (h: u16)
    requires top < 8 && length < 0x1000
  {
    top * 0x2000 + Bit(flag) * 0x1000 + length
  }

  /** The masks of the readers give the three fields back. */
  lemma Head16Fields(top: nat, flag: bool, length: nat)
    requires top < 8 && length < 0x1000
    ensures var h := Head16(top, flag, length);
      h / 0x2000 == top && (h / 0x1000 % 2 == 1 <==> flag) && h % 0x1000 == length
  {
    var h := Head16(top, flag, length);
    Split4096(top * 2 + Bit(flag), length);
    Split8192(top, Bit(flag) * 0x1000 + length);
    assert h == (top * 2 + Bit(flag)) * 0x1000 + length;
  }

  /** A u16 made of a field in its top four bits and a twelve-bit length
      below. */
  function Head12(top: nat, length: nat): (h: u16)
    requires top < 16 && length < 0x1000
  {
    top * 0x1000 + length
  }

  /** The masks of the readers give both fields back. */
  lemma Head12Fields(top: nat, length: nat)
    requires top < 8 && length < 0x1000
    ensures var h := Head12(top, length);
      h / 0x1000 % 8 == top && h % 0x1000 == length
  {
    Split4096(top, length);
  }

  // ---------------------------------------------------------------------
  // Descriptor windows

  /** `split_to(n)` and a `while has_remaining` loop of descriptors over the
      window: the descriptors are confined to the window, and the cursor
      moves past the whole window whatever the descriptors read. */
  function ReadDescriptorWindow(s: seq<byte>, n: nat): (r: Parsed<seq<Descriptor>>)
    ensures !r.Err?
    ensures r.Ok? ==> n <= |s| && r.rest == s[n..]
    ensures n > |s| ==> r.Panic?
  {
    var (window, s1) :- SplitTo(s, n);
    var (ds, _) :- ReadDescriptorLoop(window);
    Ok(ds, s1)
  }

  /** The bytes of a descriptor loop. */
  function DescriptorLoopBytes(ds: seq<Descriptor>): seq<byte>
  {
    Flatten(ds, DescriptorBytes)
  }

  /** Descriptors that fit a twelve-bit loop length. */
  predicate ValidLoop12(ds: seq<Descriptor>)
  {
    (forall d :: d in ds ==> Writable(d)) && |DescriptorLoopBytes(ds)| < 0x1000
  }

  lemma ReadDescriptorWindowOf(ds: seq<Descriptor>, rest: seq<byte>)
    requires forall d :: d in ds ==> Writable(d)
    ensures ReadDescriptorWindow(DescriptorLoopBytes(ds) + rest, |DescriptorLoopBytes(ds)|) == Ok(ds, rest)
  {
    SplitToOf(DescriptorLoopBytes(ds), rest);
    ReadDescriptorLoopOf(ds);
  }

  // ---------------------------------------------------------------------
  // The section header

  /** The fields every section reads after its table id, except the table
      id extension, which each table names differently. */
  datatype SectionHeader = SectionHeader(
    sectionSyntaxIndicator: bool,
    sectionLength: nat,
    versionNumber: nat,
    currentNextIndicator: bool,
    sectionNumber: byte,
    lastSectionNumber: byte)

  predicate ValidHeader(h: SectionHeader)
  {
    h.sectionLength < 0x1000 && h.versionNumber < 32
  }

  /** The header: bit 15 of the first u16 is the section syntax indicator
      and its low twelve bits the section length; a u16 table id extension;
      bits 5..1 of the next byte are the version and bit 0 current_next;
      then the section number and the last section number. */
  function ReadSectionHeader(s: seq<byte>): (r: Parsed<(SectionHeader, u16)>)
    ensures r.Ok? <==> 7 <= |s|
    ensures !r.Ok? ==> r.Panic?
    ensures r.Ok? ==> ValidHeader(r.value.0) && r.rest == s[7..]
  {
    if |s| < 7 then Panic
    else
      var head := Be16(s[..2]);
      Ok((SectionHeader(head / 0x8000 == 1, head % 0x1000, s[4] / 2 % 32, s[4] % 2 == 1, s[5], s[6]), Be16(s[2..4])), s[7..])
  }

  /** The header bytes, with the reserved bits written as zero. */
  function EncodeSectionHeader(h: SectionHeader, extension: u16): (s: seq<byte>)
    requires ValidHeader(h)
    ensures |s| == 7
  {
    U16Bytes(Bit(h.sectionSyntaxIndicator) * 0x8000 + h.sectionLength) + U16Bytes(extension) +
    [h.versionNumber * 2 + Bit(h.currentNextIndicator), h.sectionNumber, h.lastSectionNumber]
  }

  lemma ReadEncodeSectionHeader(h: SectionHeader, extension: u16, rest: seq<byte>)
    requires ValidHeader(h)
    ensures ReadSectionHeader(EncodeSectionHeader(h, extension) + rest) == Ok((h, extension), rest)
  {
    var head := Bit(h.sectionSyntaxIndicator) * 0x8000 + h.sectionLength;
    var s := EncodeSectionHeader(h, extension) + rest;
    assert s[..2] == U16Bytes(head) && s[2..4] == U16Bytes(extension);
    assert s[4] == h.versionNumber * 2 + Bit(h.currentNextIndicator);
    assert s[5] == h.sectionNumber && s[6] == h.lastSectionNumber && s[7..] == rest;
    assert head / 0x8000 == Bit(h.sectionSyntaxIndicator) && head % 0x1000 == h.sectionLength;
  }

  // ---------------------------------------------------------------------
  // Entries and the CRC

  /** `while bytes.remaining() > 4 { entries.push(p(bytes)?); }` and then
      `get_u32` for the CRC: a section that reads to its end. */
  function ReadEntriesAndCrc<T>(s: seq<byte>, p: seq<byte> -> Parsed<T>): (r: Parsed<(seq<T>, u32)>)
    requires Advances(p)
    ensures r.Ok? ==> 4 <= |s| && r.rest == []
    ensures r.Err? ==> RepeatAbove(s, 4, p).Err?
  {
    var (xs, s1) :- RepeatAbove(s, 4, p);
    var (crc, s2) :- GetU32(s1);
    Ok((xs, crc), s2)
  }

  /** Entries written back to back and followed by the CRC read back. */
  lemma ReadEntriesAndCrcOf<T(!new)>(xs: seq<T>, crc: u32, p: seq<byte> -> Parsed<T>, e: T -> seq<byte>, valid: T -> bool)
    requires Advances(p) && Inverts(p, e, valid)
    requires forall x :: x in xs ==> valid(x)
    ensures ReadEntriesAndCrc(Flatten(xs, e) + U32Bytes(crc), p) == Ok((xs, crc), [])
  {
    RepeatAboveOfFlattenTail(xs, U32Bytes(crc), p, e, valid);
    GetU32Of(crc, []);
    assert U32Bytes(crc) + [] == U32Bytes(crc);
  }

  // ---------------------------------------------------------------------
  // Event information (the entries of the MH-EIT)

  /** `EventRunningStatus`, codes 0 to 4. */
  datatype EventRunningStatus = Undefined | InNonOperation | WillStartSoon | OutOfOperation | InOperation

  function RunningStatusCode(st: EventRunningStatus): nat
  {
    match st
    case Undefined => 0
    case InNonOperation => 1
    case WillStartSoon => 2
    case OutOfOperation => 3
    case InOperation => 4
  }

  /** `EventRunningStatus::from_repr`. */
  function RunningStatusOf(code: nat): (r: Option<EventRunningStatus>)
    ensures r.Some? <==> code <= 4
    ensures r.Some? ==> RunningStatusCode(r.value) == code
  {
    if code == 0 then Some(Undefined)
    else if code == 1 then Some(InNonOperation)
    else if code == 2 then Some(WillStartSoon)
    else if code == 3 then Some(OutOfOperation)
    else if code == 4 then Some(InOperation)
    else None
  }

  lemma RunningStatusOfCode(st: EventRunningStatus)
    ensures RunningStatusOf(RunningStatusCode(st)) == Some(st)
  {
  }

  /** An event of the MH-EIT.  The duration is counted in seconds. */
  datatype EventInformation = EventInformation(
    eventId: u16,
    startTime: Option<StartTime>,
    duration: Option<nat>,
    runningStatus: EventRunningStatus,
    freeCaMode: bool,
    descriptors: seq<Descriptor>)

  /** `EventInformation::read`: the event id, five start-time bytes, three
      duration bytes, then a u16 whose top three bits are the running
      status (5 to 7 panic at `unwrap`), whose bit 12 is free_CA_mode and
      whose low twelve bits are the length of the descriptor loop. */
  function ReadEvent(s: seq<byte>): (r: Parsed<EventInformation>)
    ensures !r.Err?
    ensures 12 <= |s| && Be16(s[10..12]) / 0x2000 > 4 ==> r.Panic?
    ensures r.Ok? ==> 12 <= |s| && 12 + Be16(s[10..12]) % 0x1000 <= |s| && r.rest == s[12 + Be16(s[10..12]) % 0x1000..]
    ensures r.Ok? ==> 12 <= |s| && r.value.eventId == Be16(s[..2]) && r.value.freeCaMode == (Be16(s[10..12]) / 0x1000 % 2 == 1)
  {
    if |s| < 12 then Panic
    else
      match ParseStartTime(s[2..7])
      case Success(start) =>
        var head := Be16(s[10..12]);
        (match RunningStatusOf(head / 0x2000)
         case Some(status) =>
           var (ds, s1) :- ReadDescriptorWindow(s[12..], head % 0x1000);
           Ok(EventInformation(Be16(s[..2]), start, ParseDuration(s[7..10]), status, head / 0x1000 % 2 == 1, ds), s1)
         case None => Panic)
      case _ => Panic
  }

  predicate ValidEvent(e: EventInformation)
  {
    ValidStartTime(e.startTime) && ValidDuration(e.duration) && ValidLoop12(e.descriptors)
  }

  /** The twelve bytes in front of an event's descriptor loop. */
  function EventFixed(e: EventInformation): (s: seq<byte>)
    requires ValidEvent(e)
    ensures |s| == 12
  {
    U16Bytes(e.eventId) + EncodeStartTime(e.startTime) + EncodeDuration(e.duration) +
    U16Bytes(Head16(RunningStatusCode(e.runningStatus), e.freeCaMode, |DescriptorLoopBytes(e.descriptors)|))
  }

  function EncodeEvent(e: EventInformation): (s: seq<byte>)
    ensures |s| > 0
  {
    if !ValidEvent(e) then [0] else EventFixed(e) + DescriptorLoopBytes(e.descriptors)
  }

  /** Where the fields of an event land in its bytes. */
  lemma EventFields(e: EventInformation, rest: seq<byte>)
    requires ValidEvent(e)
    ensures var s := EncodeEvent(e) + rest;
      var w := DescriptorLoopBytes(e.descriptors);
      |s| >= 12 && s[..2] == U16Bytes(e.eventId) && s[2..7] == EncodeStartTime(e.startTime) &&
      s[7..10] == EncodeDuration(e.duration) &&
      s[10..12] == U16Bytes(Head16(RunningStatusCode(e.runningStatus), e.freeCaMode, |w|)) &&
      s[12..] == w + rest
  {
    var s := EncodeEvent(e) + rest;
    var f := EventFixed(e);
    assert s == f + (DescriptorLoopBytes(e.descriptors) + rest);
    assert s[..12] == f;
  }

  /** `ReadEvent` from the outcomes of the reads it is made of. */
  lemma EventStep(s: seq<byte>, e: EventInformation, rest: seq<byte>)
    requires 12 <= |s| && Be16(s[..2]) == e.eventId
    requires ParseStartTime(s[2..7]) == Success(e.startTime) && ParseDuration(s[7..10]) == e.duration
    requires RunningStatusOf(Be16(s[10..12]) / 0x2000) == Some(e.runningStatus)
    requires (Be16(s[10..12]) / 0x1000 % 2 == 1) == e.freeCaMode
    requires ReadDescriptorWindow(s[12..], Be16(s[10..12]) % 0x1000) == Ok(e.descriptors, rest)
    ensures ReadEvent(s) == Ok(e, rest)
  {
  }

  lemma ReadEncodeEvent(e: EventInformation, rest: seq<byte>)
    requires ValidEvent(e)
    ensures ReadEvent(EncodeEvent(e) + rest) == Ok(e, rest)
  {
    var s := EncodeEvent(e) + rest;
    var w := DescriptorLoopBytes(e.descriptors);
    var head := Head16(RunningStatusCode(e.runningStatus), e.freeCaMode, |w|);
    EventFields(e, rest);
    ParseEncodeStartTime(e.startTime);
    ParseEncodeDuration(e.duration);
    Head16Fields(RunningStatusCode(e.runningStatus), e.freeCaMode, |w|);
    RunningStatusOfCode(e.runningStatus);
    ReadDescriptorWindowOf(e.descriptors, rest);
    EventStep(s, e, rest);
  }

  lemma EventInvertsAt(e: EventInformation)
    requires ValidEvent(e)
    ensures InvertsAt(ReadEvent, EncodeEvent, e)
  {
    forall rest
      ensures ReadEvent(EncodeEvent(e) + rest) == Ok(e, rest) && |EncodeEvent(e)| > 0
    {
      ReadEncodeEvent(e, rest);
    }
  }

  lemma EventReader()
    ensures Advances(ReadEvent)
    ensures forall t :: !ReadEvent(t).Err?
    ensures Inverts(ReadEvent, EncodeEvent, ValidEvent)
  {
    forall e | ValidEvent(e)
      ensures InvertsAt(ReadEvent, EncodeEvent, e)
    {
      EventInvertsAt(e);
    }
  }

  // ---------------------------------------------------------------------
  // Broadcaster information (the entries of the MH-BIT)

  datatype BroadcasterInformation = BroadcasterInformation(broadcasterId: byte, descriptors: seq<Descriptor>)

  /** `BroadcasterInformation::read`: the broadcaster id, then a u16 whose
      low twelve bits are the length of the descriptor loop. */
  function ReadBroadcaster(s: seq<byte>): (r: Parsed<BroadcasterInformation>)
    ensures !r.Err?
    ensures r.Ok? ==> 3 <= |s| && 3 + Be16(s[1..3]) % 0x1000 <= |s| && r.rest == s[3 + Be16(s[1..3]) % 0x1000..]
    ensures r.Ok? ==> 3 <= |s| && r.value.broadcasterId == s[0]
  {
    if |s| < 3 then Panic
    else
      var (ds, s1) :- ReadDescriptorWindow(s[3..], Be16(s[1..3]) % 0x1000);
      Ok(BroadcasterInformation(s[0], ds), s1)
  }

  function EncodeBroadcaster(b: BroadcasterInformation): (s: seq<byte>)
    ensures |s| > 0
  {
    if !ValidLoop12(b.descriptors) then [0]
    else [b.broadcasterId] + U16Bytes(|DescriptorLoopBytes(b.descriptors)|) + DescriptorLoopBytes(b.descriptors)
  }

  lemma ReadEncodeBroadcaster(b: BroadcasterInformation, rest: seq<byte>)
    requires ValidLoop12(b.descriptors)
    ensures ReadBroadcaster(EncodeBroadcaster(b) + rest) == Ok(b, rest)
  {
    var w := DescriptorLoopBytes(b.descriptors);
    var s := EncodeBroadcaster(b) + rest;
    BroadcasterFields(b.broadcasterId, w, rest);
    SmallLength(|w|);
    ReadDescriptorWindowOf(b.descriptors, rest);
    BroadcasterStep(s, b, rest);
  }

  /** A twelve-bit length is its own masked value. */
  lemma SmallLength(n: nat)
    requires n < 0x1000
    ensures n % 0x1000 == n
  {
  }

  lemma BroadcasterFields(id: byte, w: seq<byte>, rest: seq<byte>)
    requires |w| < 0x1000
    ensures var s := [id] + U16Bytes(|w|) + w + rest;
      |s| >= 3 && s[0] == id && Be16(s[1..3]) == |w| && s[3..] == w + rest
  {
    var s := [id] + U16Bytes(|w|) + w + rest;
    assert s[1..3] == U16Bytes(|w|);
    assert s[3..] == w + rest;
  }

  /** `ReadBroadcaster` from the outcome of its descriptor window. */
  lemma BroadcasterStep(s: seq<byte>, b: BroadcasterInformation, rest: seq<byte>)
    requires 3 <= |s| && s[0] == b.broadcasterId
    requires ReadDescriptorWindow(s[3..], Be16(s[1..3]) % 0x1000) == Ok(b.descriptors, rest)
    ensures ReadBroadcaster(s) == Ok(b, rest)
  {
  }

  lemma BroadcasterInvertsAt(b: BroadcasterInformation)
    requires ValidLoop12(b.descriptors)
    ensures InvertsAt(ReadBroadcaster, EncodeBroadcaster, b)
  {
    forall rest
      ensures ReadBroadcaster(EncodeBroadcaster(b) + rest) == Ok(b, rest) && |EncodeBroadcaster(b)| > 0
    {
      ReadEncodeBroadcaster(b, rest);
    }
  }

  predicate ValidBroadcaster(b: BroadcasterInformation)
  {
    ValidLoop12(b.descriptors)
  }

  lemma BroadcasterReader()
    ensures Advances(ReadBroadcaster)
    ensures forall t :: !ReadBroadcaster(t).Err?
    ensures Inverts(ReadBroadcaster, EncodeBroadcaster, ValidBroadcaster)
  {
    forall b | ValidBroadcaster(b)
      ensures InvertsAt(ReadBroadcaster, EncodeBroadcaster, b)
    {
      BroadcasterInvertsAt(b);
    }
  }

  // ---------------------------------------------------------------------
  // Service information (the entries of the MH-SDT)

  datatype ServiceInformation = ServiceInformation(
    serviceId: u16,
    eitUserDefinedFlags: nat,
    eitScheduleFlag: bool,
    eitPresentFollowingFlag: bool,
    runningStatus: nat,
    freeCaMode: bool,
    descriptors: seq<Descriptor>)

  /** `ServiceInformation::read`: the service id; a byte whose bits 4..2
      are the EIT user-defined flags, bit 1 the EIT schedule flag and bit 0
      the EIT present/following flag; then a u16 with the running status in
      its top three bits (any value is kept), free_CA_mode in bit 12 and the
      length of the descriptor loop in its low twelve bits. */
  function ReadService(s: seq<byte>): (r: Parsed<ServiceInformation>)
    ensures !r.Err?
    ensures r.Ok? ==> 5 <= |s| && 5 + Be16(s[3..5]) % 0x1000 <= |s| && r.rest == s[5 + Be16(s[3..5]) % 0x1000..]
    ensures r.Ok? ==> 5 <= |s| && r.value.serviceId == Be16(s[..2]) && r.value.runningStatus == Be16(s[3..5]) / 0x2000
  {
    if |s| < 5 then Panic
    else
      var flags := s[2];
      var head := Be16(s[3..5]);
      var (ds, s1) :- ReadDescriptorWindow(s[5..], head % 0x1000);
      Ok(ServiceInformation(Be16(s[..2]), flags / 4 % 8, flags / 2 % 2 == 1, flags % 2 == 1,
                            head / 0x2000, head / 0x1000 % 2 == 1, ds), s1)
  }

  predicate ValidService(v: ServiceInformation)
  {
    v.eitUserDefinedFlags < 8 && v.runningStatus < 8 && ValidLoop12(v.descriptors)
  }

  /** The flag byte of a service, with the reserved bits written as zero. */
  function ServiceFlags(v: ServiceInformation): byte
    requires v.eitUserDefinedFlags < 8
  {
    v.eitUserDefinedFlags * 4 + Bit(v.eitScheduleFlag) * 2 + Bit(v.eitPresentFollowingFlag)
  }

  function EncodeService(v: ServiceInformation): (s: seq<byte>)
    ensures |s| > 0
  {
    if !ValidService(v) then [0]
    else
      U16Bytes(v.serviceId) + [ServiceFlags(v)] +
      U16Bytes(Head16(v.runningStatus, v.freeCaMode, |DescriptorLoopBytes(v.descriptors)|)) +
      DescriptorLoopBytes(v.descriptors)
  }

  lemma ServiceFlagsFields(v: ServiceInformation)
    requires v.eitUserDefinedFlags < 8
    ensures var b := ServiceFlags(v);
      b / 4 % 8 == v.eitUserDefinedFlags && (b / 2 % 2 == 1 <==> v.eitScheduleFlag) &&
      (b % 2 == 1 <==> v.eitPresentFollowingFlag)
  {
  }

  lemma ReadEncodeService(v: ServiceInformation, rest: seq<byte>)
    requires ValidService(v)
    ensures ReadService(EncodeService(v) + rest) == Ok(v, rest)
  {
    var w := DescriptorLoopBytes(v.descriptors);
    var head := Head16(v.runningStatus, v.freeCaMode, |w|);
    var s := EncodeService(v) + rest;
    Header5(U16Bytes(v.serviceId), ServiceFlags(v), U16Bytes(head), w, rest);
    ServiceFlagsFields(v);
    Head16Fields(v.runningStatus, v.freeCaMode, |w|);
    ReadDescriptorWindowOf(v.descriptors, rest);
  }

  lemma ServiceInvertsAt(v: ServiceInformation)
    requires ValidService(v)
    ensures InvertsAt(ReadService, EncodeService, v)
  {
    forall rest
      ensures ReadService(EncodeService(v) + rest) == Ok(v, rest) && |EncodeService(v)| > 0
    {
      ReadEncodeService(v, rest);
    }
  }

  lemma ServiceReader()
    ensures Advances(ReadService)
    ensures forall t :: !ReadService(t).Err?
    ensures Inverts(ReadService, EncodeService, ValidService)
  {
    forall v | ValidService(v)
      ensures InvertsAt(ReadService, EncodeService, v)
    {
      ServiceInvertsAt(v);
    }
  }

  // ---------------------------------------------------------------------
  // Selection information (the entries of the MH-SIT)

  datatype SelectionInformation = SelectionInformation(serviceId: u16, runningStatus: nat, descriptors: seq<Descriptor>)

  /** `SelectionInformation::read`: the service id, then a u16 with the
      running status in bits 14..12 and the length of the descriptor loop in
      its low twelve bits. */
  function ReadSelection(s: seq<byte>): (r: Parsed<SelectionInformation>)
    ensures !r.Err?
    ensures r.Ok? ==> 4 <= |s| && 4 + Be16(s[2..4]) % 0x1000 <= |s| && r.rest == s[4 + Be16(s[2..4]) % 0x1000..]
    ensures r.Ok? ==> 4 <= |s| && r.value.serviceId == Be16(s[..2]) && r.value.runningStatus == Be16(s[2..4]) / 0x1000 % 8
  {
    if |s| < 4 then Panic
    else
      var head := Be16(s[2..4]);
      var (ds, s1) :- ReadDescriptorWindow(s[4..], head % 0x1000);
      Ok(SelectionInformation(Be16(s[..2]), head / 0x1000 % 8, ds), s1)
  }

  predicate ValidSelection(v: SelectionInformation)
  {
    v.runningStatus < 8 && ValidLoop12(v.descriptors)
  }

  function EncodeSelection(v: SelectionInformation): (s: seq<byte>)
    ensures |s| > 0
  {
    if !ValidSelection(v) then [0]
    else
      U16Bytes(v.serviceId) + U16Bytes(Head12(v.runningStatus, |DescriptorLoopBytes(v.descriptors)|)) +
      DescriptorLoopBytes(v.descriptors)
  }

  lemma ReadEncodeSelection(v: SelectionInformation, rest: seq<byte>)
    requires ValidSelection(v)
    ensures ReadSelection(EncodeSelection(v) + rest) == Ok(v, rest)
  {
    var w := DescriptorLoopBytes(v.descriptors);
    ReadDescriptorWindowOf(v.descriptors, rest);
    SelectionOf(v.serviceId, v.runningStatus, w, v.descriptors, rest);
  }

  /** A selection entry read from its fields, whatever the descriptors. */
  lemma SelectionOf(id: u16, status: nat, w: seq<byte>, ds: seq<Descriptor>, rest: seq<byte>)
    requires status < 8 && |w| < 0x1000
    requires ReadDescriptorWindow(w + rest, |w|) == Ok(ds, rest)
    ensures ReadSelection(U16Bytes(id) + U16Bytes(Head12(status, |w|)) + w + rest) == Ok(SelectionInformation(id, status, ds), rest)
  {
    var head := Head12(status, |w|);
    var s := U16Bytes(id) + U16Bytes(head) + w + rest;
    Head12Fields(status, |w|);
    assert s[..2] == U16Bytes(id) && s[2..4] == U16Bytes(head);
    assert s[4..] == w + rest;
    SelectionStep(s, SelectionInformation(id, status, ds), rest);
  }

  /** `ReadSelection` from the outcome of its descriptor window. */
  lemma SelectionStep(s: seq<byte>, v: SelectionInformation, rest: seq<byte>)
    requires 4 <= |s| && Be16(s[..2]) == v.serviceId && Be16(s[2..4]) / 0x1000 % 8 == v.runningStatus
    requires ReadDescriptorWindow(s[4..], Be16(s[2..4]) % 0x1000) == Ok(v.descriptors, rest)
    ensures ReadSelection(s) == Ok(v, rest)
  {
  }

  lemma SelectionInvertsAt(v: SelectionInformation)
    requires ValidSelection(v)
    ensures InvertsAt(ReadSelection, EncodeSelection, v)
  {
    forall rest
      ensures ReadSelection(EncodeSelection(v) + rest) == Ok(v, rest) && |EncodeSelection(v)| > 0
    {
      ReadEncodeSelection(v, rest);
    }
  }

  lemma SelectionReader()
    ensures Advances(ReadSelection)
    ensures forall t :: !ReadSelection(t).Err?
    ensures Inverts(ReadSelection, EncodeSelection, ValidSelection)
  {
    forall v | ValidSelection(v)
      ensures InvertsAt(ReadSelection, EncodeSelection, v)
    {
      SelectionInvertsAt(v);
    }
  }

  // ---------------------------------------------------------------------
  // MH-EIT (Event Information Table)

  datatype MhEit = MhEit(
    header: SectionHeader,
    serviceId: u16,
    tlvStreamId: u16,
    originalNetworkId: u16,
    segmentLastSectionNumber: byte,
    lastTableId: byte,
    events: seq<EventInformation>,
    crc32: u32)

  /** `MhEit::read`: the header with the service id as its extension, six
      bytes of stream, network and segment numbers, then the events and the
      CRC.  A running status the reader does not know panics; nothing in an
      MH-EIT is an io error. */
  function ReadMhEit(s: seq<byte>): (r: Parsed<MhEit>)
    ensures !r.Err?
    ensures r.Ok? ==> 17 <= |s| && r.rest == [] && r.value.serviceId == Be16(s[2..4])
  {
    var (hx, s1) :- ReadSectionHeader(s);
    if |s1| < 6 then Panic
    else
      EventReader();
      RepeatAboveNeverErr(s1[6..], 4, ReadEvent);
      var (body, s2) :- ReadEntriesAndCrc(s1[6..], ReadEvent);
      Ok(MhEit(hx.0, hx.1, Be16(s1[..2]), Be16(s1[2..4]), s1[4], s1[5], body.0, body.1), s2)
  }

  predicate ValidMhEit(t: MhEit)
  {
    ValidHeader(t.header) && forall e :: e in t.events ==> ValidEvent(e)
  }

  /** The six bytes between the header and the first event. */
  function EitFixed(t: MhEit): (s: seq<byte>)
    ensures |s| == 6
  {
    U16Bytes(t.tlvStreamId) + U16Bytes(t.originalNetworkId) + [t.segmentLastSectionNumber, t.lastTableId]
  }

  function EncodeMhEit(t: MhEit): seq<byte>
    requires ValidHeader(t.header)
  {
    EncodeSectionHeader(t.header, t.serviceId) +
    (EitFixed(t) + (Flatten(t.events, EncodeEvent) + U32Bytes(t.crc32)))
  }

  lemma ReadEncodeMhEit(t: MhEit)
    requires ValidMhEit(t)
    ensures ReadMhEit(EncodeMhEit(t)) == Ok(t, [])
  {
    var body := Flatten(t.events, EncodeEvent) + U32Bytes(t.crc32);
    var s1 := EitFixed(t) + body;
    ReadEncodeSectionHeader(t.header, t.serviceId, s1);
    assert s1[..2] == U16Bytes(t.tlvStreamId) && s1[2..4] == U16Bytes(t.originalNetworkId);
    assert s1[4] == t.segmentLastSectionNumber && s1[5] == t.lastTableId && s1[6..] == body;
    EventReader();
    ReadEntriesAndCrcOf(t.events, t.crc32, ReadEvent, EncodeEvent, ValidEvent);
    MhEitStep(EncodeMhEit(t), t, s1);
  }

  /** `ReadMhEit` from the outcomes of the reads it is made of. */
  lemma MhEitStep(s: seq<byte>, t: MhEit, s1: seq<byte>)
    requires ReadSectionHeader(s) == Ok((t.header, t.serviceId), s1)
    requires 6 <= |s1| && Be16(s1[..2]) == t.tlvStreamId && Be16(s1[2..4]) == t.originalNetworkId
    requires s1[4] == t.segmentLastSectionNumber && s1[5] == t.lastTableId
    requires Advances(ReadEvent)
    requires ReadEntriesAndCrc(s1[6..], ReadEvent) == Ok((t.events, t.crc32), [])
    ensures ReadMhEit(s) == Ok(t, [])
  {
  }

  // ---------------------------------------------------------------------
  // MH-BIT (Broadcaster Information Table)

  datatype MhBit = MhBit(
    header: SectionHeader,
    originalNetworkId: u16,
    broadcastViewPropriety: bool,
    descriptors: seq<Descriptor>,
    broadcasters: seq<BroadcasterInformation>,
    crc32: u32)

  /** `MhBit::read`: the header with the network id as its extension, a
      u16 with broadcast_view_propriety in bit 12 and the length of the
      first descriptor loop in its low twelve bits, that loop, then the
      broadcasters and the CRC. */
  function ReadMhBit(s: seq<byte>): (r: Parsed<MhBit>)
    ensures !r.Err?
    ensures r.Ok? ==> 13 <= |s| && r.rest == [] && r.value.originalNetworkId == Be16(s[2..4])
  {
    var (hx, s1) :- ReadSectionHeader(s);
    if |s1| < 2 then Panic
    else
      var head := Be16(s1[..2]);
      var (ds, s2) :- ReadDescriptorWindow(s1[2..], head % 0x1000);
      BroadcasterReader();
      RepeatAboveNeverErr(s2, 4, ReadBroadcaster);
      var (body, s3) :- ReadEntriesAndCrc(s2, ReadBroadcaster);
      Ok(MhBit(hx.0, hx.1, head / 0x1000 % 2 == 1, ds, body.0, body.1), s3)
  }

  predicate ValidMhBit(t: MhBit)
  {
    ValidHeader(t.header) && ValidLoop12(t.descriptors) &&
    forall b :: b in t.broadcasters ==> ValidBroadcaster(b)
  }

  function EncodeMhBit(t: MhBit): seq<byte>
    requires ValidMhBit(t)
  {
    var w := DescriptorLoopBytes(t.descriptors);
    EncodeSectionHeader(t.header, t.originalNetworkId) +
    (U16Bytes(Head16(0, t.broadcastViewPropriety, |w|)) +
     (w + (Flatten(t.broadcasters, EncodeBroadcaster) + U32Bytes(t.crc32))))
  }

  lemma ReadEncodeMhBit(t: MhBit)
    requires ValidMhBit(t)
    ensures ReadMhBit(EncodeMhBit(t)) == Ok(t, [])
  {
    var w := DescriptorLoopBytes(t.descriptors);
    var body := Flatten(t.broadcasters, EncodeBroadcaster) + U32Bytes(t.crc32);
    var s1 := U16Bytes(Head16(0, t.broadcastViewPropriety, |w|)) + (w + body);
    ReadEncodeSectionHeader(t.header, t.originalNetworkId, s1);
    assert s1[..2] == U16Bytes(Head16(0, t.broadcastViewPropriety, |w|)) && s1[2..] == w + body;
    Head16Fields(0, t.broadcastViewPropriety, |w|);
    ReadDescriptorWindowOf(t.descriptors, body);
    BroadcasterReader();
    ReadEntriesAndCrcOf(t.broadcasters, t.crc32, ReadBroadcaster, EncodeBroadcaster, ValidBroadcaster);
    MhBitStep(EncodeMhBit(t), t, s1, body);
  }

  /** `ReadMhBit` from the outcomes of the reads it is made of. */
  lemma MhBitStep(s: seq<byte>, t: MhBit, s1: seq<byte>, body: seq<byte>)
    requires ReadSectionHeader(s) == Ok((t.header, t.originalNetworkId), s1)
    requires 2 <= |s1| && (Be16(s1[..2]) / 0x1000 % 2 == 1) == t.broadcastViewPropriety
    requires ReadDescriptorWindow(s1[2..], Be16(s1[..2]) % 0x1000) == Ok(t.descriptors, body)
    requires Advances(ReadBroadcaster)
    requires ReadEntriesAndCrc(body, ReadBroadcaster) == Ok((t.broadcasters, t.crc32), [])
    ensures ReadMhBit(s) == Ok(t, [])
  {
  }

  // ---------------------------------------------------------------------
  // MH-SDT (Service Description Table)

  datatype MhSdt = MhSdt(
    header: SectionHeader,
    tlvStreamId: u16,
    originalNetworkId: u16,
    services: seq<ServiceInformation>,
    crc32: u32)

  /** `MhSdt::read`: the header with the TLV stream id as its extension,
      the network id, a reserved byte the reader drops, then the services
      and the CRC. */
  function ReadMhSdt(s: seq<byte>): (r: Parsed<MhSdt>)
    ensures !r.Err?
    ensures r.Ok? ==> 14 <= |s| && r.rest == [] && r.value.tlvStreamId == Be16(s[2..4])
  {
    var (hx, s1) :- ReadSectionHeader(s);
    if |s1| < 3 then Panic
    else
      ServiceReader();
      RepeatAboveNeverErr(s1[3..], 4, ReadService);
      var (body, s2) :- ReadEntriesAndCrc(s1[3..], ReadService);
      Ok(MhSdt(hx.0, hx.1, Be16(s1[..2]), body.0, body.1), s2)
  }

  predicate ValidMhSdt(t: MhSdt)
  {
    ValidHeader(t.header) && forall v :: v in t.services ==> ValidService(v)
  }

  /** The reserved byte is written as zero. */
  function EncodeMhSdt(t: MhSdt): seq<byte>
    requires ValidHeader(t.header)
  {
    EncodeSectionHeader(t.header, t.tlvStreamId) +
    (U16Bytes(t.originalNetworkId) + ([0] + (Flatten(t.services, EncodeService) + U32Bytes(t.crc32))))
  }

  lemma ReadEncodeMhSdt(t: MhSdt)
    requires ValidMhSdt(t)
    ensures ReadMhSdt(EncodeMhSdt(t)) == Ok(t, [])
  {
    var body := Flatten(t.services, EncodeService) + U32Bytes(t.crc32);
    var s1 := U16Bytes(t.originalNetworkId) + ([0] + body);
    assert EncodeMhSdt(t) == EncodeSectionHeader(t.header, t.tlvStreamId) + s1;
    ReadEncodeSectionHeader(t.header, t.tlvStreamId, s1);
    assert s1[..2] == U16Bytes(t.originalNetworkId) && s1[3..] == body;
    ServiceReader();
    ReadEntriesAndCrcOf(t.services, t.crc32, ReadService, EncodeService, ValidService);
    MhSdtStep(EncodeMhSdt(t), t, s1);
  }

  /** `ReadMhSdt` from the outcomes of the reads it is made of. */
  lemma MhSdtStep(s: seq<byte>, t: MhSdt, s1: seq<byte>)
    requires ReadSectionHeader(s) == Ok((t.header, t.tlvStreamId), s1)
    requires 3 <= |s1| && Be16(s1[..2]) == t.originalNetworkId
    requires Advances(ReadService)
    requires ReadEntriesAndCrc(s1[3..], ReadService) == Ok((t.services, t.crc32), [])
    ensures ReadMhSdt(s) == Ok(t, [])
  {
  }

  // ---------------------------------------------------------------------
  // MH-SIT (Selection Information Table)

  datatype MhSit = MhSit(
    header: SectionHeader,
    descriptors: seq<Descriptor>,
    selections: seq<SelectionInformation>,
    crc32: u32)

  /** `MhSit::read`: the header, whose extension is reserved and dropped, a
      u16 whose low twelve bits are the length of the transmission
      information loop, that loop, then the selections and the CRC. */
  function ReadMhSit(s: seq<byte>): (r: Parsed<MhSit>)
    ensures !r.Err?
    ensures r.Ok? ==> 13 <= |s| && r.rest == []
  {
    var (hx, s1) :- ReadSectionHeader(s);
    if |s1| < 2 then Panic
    else
      var (ds, s2) :- ReadDescriptorWindow(s1[2..], Be16(s1[..2]) % 0x1000);
      SelectionReader();
      RepeatAboveNeverErr(s2, 4, ReadSelection);
      var (body, s3) :- ReadEntriesAndCrc(s2, ReadSelection);
      Ok(MhSit(hx.0, ds, body.0, body.1), s3)
  }

  predicate ValidMhSit(t: MhSit)
  {
    ValidHeader(t.header) && ValidLoop12(t.descriptors) &&
    forall v :: v in t.selections ==> ValidSelection(v)
  }

  /** The reserved extension and the reserved top bits of the loop length
      are written as zero. */
  function EncodeMhSit(t: MhSit): seq<byte>
    requires ValidMhSit(t)
  {
    var w := DescriptorLoopBytes(t.descriptors);
    EncodeSectionHeader(t.header, 0) +
    (U16Bytes(Head12(0, |w|)) + (w + (Flatten(t.selections, EncodeSelection) + U32Bytes(t.crc32))))
  }

  lemma ReadEncodeMhSit(t: MhSit)
    requires ValidMhSit(t)
    ensures ReadMhSit(EncodeMhSit(t)) == Ok(t, [])
  {
    var w := DescriptorLoopBytes(t.descriptors);
    var body := Flatten(t.selections, EncodeSelection) + U32Bytes(t.crc32);
    var s1 := U16Bytes(Head12(0, |w|)) + (w + body);
    ReadEncodeSectionHeader(t.header, 0, s1);
    assert s1[..2] == U16Bytes(Head12(0, |w|)) && s1[2..] == w + body;
    Head12Fields(0, |w|);
    ReadDescriptorWindowOf(t.descriptors, body);
    SelectionReader();
    ReadEntriesAndCrcOf(t.selections, t.crc32, ReadSelection, EncodeSelection, ValidSelection);
    MhSitStep(EncodeMhSit(t), t, s1, body);
  }

  /** `ReadMhSit` from the outcomes of the reads it is made of. */
  lemma MhSitStep(s: seq<byte>, t: MhSit, s1: seq<byte>, body: seq<byte>)
    requires ReadSectionHeader(s).Ok? && ReadSectionHeader(s).value.0 == t.header && ReadSectionHeader(s).rest == s1
    requires 2 <= |s1|
    requires ReadDescriptorWindow(s1[2..], Be16(s1[..2]) % 0x1000) == Ok(t.descriptors, body)
    requires Advances(ReadSelection)
    requires ReadEntriesAndCrc(body, ReadSelection) == Ok((t.selections, t.crc32), [])
    ensures ReadMhSit(s) == Ok(t, [])
  {
  }

  // ---------------------------------------------------------------------
  // Table::read

  const MptId: byte := 0x20
  const PltId: byte := 0x80
  const MhEitId: byte := 0x8B
  const MhEitScheduleFirstId: byte := 0x8C
  const MhEitScheduleLastId: byte := 0x9B
  const MhBitId: byte := 0x9D
  const MhSdtId: byte := 0x9F
  const MhSdtOtherId: byte := 0xA0
  const MhSitId: byte := 0xA8

  /** The arm of `Table::read` a table id selects. */
  datatype TableKind = MptKind | PltKind | MhEitKind | MhBitKind | MhSdtKind | MhSitKind | UnknownKind

  /** The match of `Table::read`: an MH-EIT has the present/following id
      and sixteen schedule ids, an MH-SDT the actual and the other stream. */
  function KindOf(id: byte): (k: TableKind)
    ensures k == MptKind <==> id == MptId
    ensures k == PltKind <==> id == PltId
    ensures k == MhEitKind <==> id == MhEitId || MhEitScheduleFirstId <= id <= MhEitScheduleLastId
    ensures k == MhBitKind <==> id == MhBitId
    ensures k == MhSdtKind <==> id == MhSdtId || id == MhSdtOtherId
    ensures k == MhSitKind <==> id == MhSitId
  {
    if id == MptId then MptKind
    else if id == PltId then PltKind
    else if id == MhEitId || MhEitScheduleFirstId <= id <= MhEitScheduleLastId then MhEitKind
    else if id == MhBitId then MhBitKind
    else if id == MhSdtId || id == MhSdtOtherId then MhSdtKind
    else if id == MhSitId then MhSitKind
    else UnknownKind
  }

  predicate KnownTableId(id: byte)
  {
    KindOf(id) != UnknownKind
  }

  /** A table: one of the six `Table::read` knows, or the id and the bytes
      of one it does not. */
  datatype Table =
    | MptTable(mpt: Mpt)
    | PltTable(plt: Plt)
    | MhEitTable(eit: MhEit)
    | MhBitTable(bit: MhBit)
    | MhSdtTable(sdt: MhSdt)
    | MhSitTable(sit: MhSit)
    | UnknownTable(tableId: byte, body: seq<byte>)

  function KindOfTable(t: Table): TableKind
  {
    match t
    case MptTable(_) => MptKind
    case PltTable(_) => PltKind
    case MhEitTable(_) => MhEitKind
    case MhBitTable(_) => MhBitKind
    case MhSdtTable(_) => MhSdtKind
    case MhSitTable(_) => MhSitKind
    case UnknownTable(_, _) => UnknownKind
  }

  /** The table id `id` selects the kind of `t`, and an unknown table
      keeps that id. */
  predicate DispatchedTo(id: byte, t: Table)
  {
    match t
    case MptTable(_) => KindOf(id) == MptKind
    case PltTable(_) => KindOf(id) == PltKind
    case MhEitTable(_) => KindOf(id) == MhEitKind
    case MhBitTable(_) => KindOf(id) == MhBitKind
    case MhSdtTable(_) => KindOf(id) == MhSdtKind
    case MhSitTable(_) => KindOf(id) == MhSitKind
    case UnknownTable(tableId, _) => tableId == id && KindOf(id) == UnknownKind
  }

  /** The arms of `Table::read` for the ids it knows.  Only the MPT and
      the PLT return errors, and those are `InvalidData`. */
  function ReadTableOfKind(k: TableKind, s: seq<byte>): (r: Parsed<Table>)
    requires k != UnknownKind
    ensures r.Err? ==> r.kind == InvalidData && (k == MptKind || k == PltKind)
    ensures r.Ok? ==> IsSuffix(r.rest, s)
    ensures r.Ok? && k == MptKind ==> r.value.MptTable?
    ensures r.Ok? && k == PltKind ==> r.value.PltTable?
    ensures r.Ok? && k == MhEitKind ==> r.value.MhEitTable?
    ensures r.Ok? && k == MhBitKind ==> r.value.MhBitTable?
    ensures r.Ok? && k == MhSdtKind ==> r.value.MhSdtTable?
    ensures r.Ok? && k == MhSitKind ==> r.value.MhSitTable?
  {
    if k == MptKind then MptArm(s)
    else if k == PltKind then PltArm(s)
    else if k == MhEitKind then MhEitArm(s)
    else if k == MhBitKind then MhBitArm(s)
    else if k == MhSdtKind then MhSdtArm(s)
    else MhSitArm(s)
  }

  function MptArm(s: seq<byte>): (r: Parsed<Table>)
    ensures r.Err? ==> r.kind == InvalidData
    ensures r.Ok? ==> r.value.MptTable? && IsSuffix(r.rest, s)
  {
    ReadMptSuffix(s);
    var (m, rest) :- ReadMpt(s);
    Ok(MptTable(m), rest)
  }

  function PltArm(s: seq<byte>): (r: Parsed<Table>)
    ensures r.Err? ==> r.kind == InvalidData
    ensures r.Ok? ==> r.value.PltTable? && IsSuffix(r.rest, s)
  {
    var (p, rest) :- ReadPlt(s);
    Ok(PltTable(p), rest)
  }

  function MhEitArm(s: seq<byte>): (r: Parsed<Table>)
    ensures !r.Err?
    ensures r.Ok? ==> r.value.MhEitTable? && r.rest == []
  {
    var (t, rest) :- ReadMhEit(s);
    Ok(MhEitTable(t), rest)
  }

  function MhBitArm(s: seq<byte>): (r: Parsed<Table>)
    ensures !r.Err?
    ensures r.Ok? ==> r.value.MhBitTable? && r.rest == []
  {
    var (t, rest) :- ReadMhBit(s);
    Ok(MhBitTable(t), rest)
  }

  function MhSdtArm(s: seq<byte>): (r: Parsed<Table>)
    ensures !r.Err?
    ensures r.Ok? ==> r.value.MhSdtTable? && r.rest == []
  {
    var (t, rest) :- ReadMhSdt(s);
    Ok(MhSdtTable(t), rest)
  }

  function MhSitArm(s: seq<byte>): (r: Parsed<Table>)
    ensures !r.Err?
    ensures r.Ok? ==> r.value.MhSitTable? && r.rest == []
  {
    var (t, rest) :- ReadMhSit(s);
    Ok(MhSitTable(t), rest)
  }

  /** The reader a known table id selects. */
  function ReadKnownTable(id: byte, s: seq<byte>): (r: Parsed<Table>)
    requires KnownTableId(id)
    ensures r.Err? ==> r.kind == InvalidData && (id == MptId || id == PltId)
    ensures r.Ok? ==> DispatchedTo(id, r.value) && IsSuffix(r.rest, s)
  {
    ReadTableOfKind(KindOf(id), s)
  }

  /** `Table::read` as written: the arm for an unknown id copies the
      remaining bytes with `to_vec` and leaves the cursor where it was, so
      those bytes are still there for the next read. */
  function ReadTableAsWritten(s: seq<byte>): (r: Parsed<Table>)
    ensures r.Ok? ==> 1 <= |s| && DispatchedTo(s[0], r.value) && IsSuffix(r.rest, s[1..])
  {
    if |s| < 1 then Panic
    else
      if !KnownTableId(s[0]) then Ok(UnknownTable(s[0], s[1..]), s[1..])
      else ReadKnownTable(s[0], s[1..])
  }

  /** `Table::read` with the unknown arm consuming the bytes it copies: the
      table id byte selects the reader, and a table with an unknown id is
      everything that follows its id. */
  function ReadTable(s: seq<byte>): (r: Parsed<Table>)
    ensures |s| == 0 ==> r.Panic?
    ensures r.Err? ==> 1 <= |s| && r.kind == InvalidData && (s[0] == MptId || s[0] == PltId)
    ensures r.Ok? ==> 1 <= |s| && DispatchedTo(s[0], r.value) && |r.rest| < |s| && IsSuffix(r.rest, s)
    ensures 1 <= |s| && !KnownTableId(s[0]) ==> r == Ok(UnknownTable(s[0], s[1..]), [])
  {
    if |s| < 1 then Panic
    else
      if !KnownTableId(s[0]) then Ok(UnknownTable(s[0], s[1..]), [])
      else
        var r := ReadKnownTable(s[0], s[1..]);
        if r.Ok? then
          assert IsSuffix(s[1..], s);
          SuffixTransitive(r.rest, s[1..], s);
          r
        else r
  }

  lemma TableReader()
    ensures Advances(ReadTable)
  {
  }

  lemma TableAsWrittenReader()
    ensures Advances(ReadTableAsWritten)
  {
    forall s | ReadTableAsWritten(s).Ok?
      ensures |ReadTableAsWritten(s).rest| < |s| && IsSuffix(ReadTableAsWritten(s).rest, s)
    {
      assert IsSuffix(s[1..], s);
      SuffixTransitive(ReadTableAsWritten(s).rest, s[1..], s);
    }
  }

  /** With an unknown id, the table as written is all of the input after
      the id, and so is what the read leaves behind. */
  lemma UnknownTableAsWritten(s: seq<byte>)
    requires 1 <= |s| && !KnownTableId(s[0])
    ensures ReadTableAsWritten(s) == Ok(UnknownTable(s[0], s[1..]), s[1..])
  {
  }

  predicate ValidTable(t: Table)
  {
    match t
    case MptTable(m) => ValidMpt(m)
    case PltTable(p) => ValidPlt(p)
    case MhEitTable(e) => ValidMhEit(e)
    case MhBitTable(b) => ValidMhBit(b)
    case MhSdtTable(d) => ValidMhSdt(d)
    case MhSitTable(i) => ValidMhSit(i)
    case UnknownTable(id, _) => !KnownTableId(id)
  }

  /** The id an encoded table is written with: an MH-EIT gets the
      present/following id and an MH-SDT the actual-stream id. */
  function TableIdOf(t: Table): (id: byte)
    requires ValidTable(t)
    ensures DispatchedTo(id, t)
  {
    match t
    case MptTable(_) => MptId
    case PltTable(_) => PltId
    case MhEitTable(_) => MhEitId
    case MhBitTable(_) => MhBitId
    case MhSdtTable(_) => MhSdtId
    case MhSitTable(_) => MhSitId
    case UnknownTable(id, _) => id
  }

  /** What follows the id of a table. */
  function TableBody(t: Table): seq<byte>
    requires ValidTable(t)
  {
    match t
    case MptTable(m) => EncodeMpt(m)
    case PltTable(p) => EncodePlt(p)
    case MhEitTable(e) => EncodeMhEit(e)
    case MhBitTable(b) => EncodeMhBit(b)
    case MhSdtTable(d) => EncodeMhSdt(d)
    case MhSitTable(i) => EncodeMhSit(i)
    case UnknownTable(_, body) => body
  }

  /** A table with its id in front. */
  function EncodeTable(t: Table): (s: seq<byte>)
    requires ValidTable(t)
    ensures |s| > 0 && DispatchedTo(s[0], t)
  {
    [TableIdOf(t)] + TableBody(t)
  }

  /** Every table is read back from its bytes. */
  lemma ReadEncodeTable(t: Table)
    requires ValidTable(t)
    ensures ReadTable(EncodeTable(t)) == Ok(t, [])
  {
    var s := EncodeTable(t);
    assert s[0] == TableIdOf(t) && s[1..] == TableBody(t);
    if !t.UnknownTable? {
      ReadTableOfKindOf(t);
      KnownTableStep(s, t, []);
    }
  }

  /** The reading as written and the corrected one return the same table,
      or fail alike; they leave different bytes behind only for an unknown
      table with bytes after its id. */
  lemma TableReadingsAgree(s: seq<byte>)
    ensures ReadTableAsWritten(s).Ok? <==> ReadTable(s).Ok?
    ensures ReadTable(s).Ok? ==> ReadTableAsWritten(s).value == ReadTable(s).value
    ensures !ReadTable(s).Ok? ==> ReadTableAsWritten(s) == ReadTable(s)
    ensures 1 <= |s| && (KnownTableId(s[0]) || |s| == 1) ==> ReadTableAsWritten(s) == ReadTable(s)
  {
  }

  /** As written, every table the encoder writes is read back too, except
      an unknown table with bytes after its id. */
  lemma ReadEncodeTableAsWritten(t: Table)
    requires ValidTable(t) && !(t.UnknownTable? && |t.body| > 0)
    ensures ReadTableAsWritten(EncodeTable(t)) == Ok(t, [])
  {
    ReadEncodeTable(t);
    var s := EncodeTable(t);
    if t.UnknownTable? {
      assert s == [t.tableId];
    }
    TableReadingsAgree(s);
  }

  lemma ReadTableOfKindOf(t: Table)
    requires ValidTable(t) && !t.UnknownTable?
    ensures ReadTableOfKind(KindOfTable(t), TableBody(t)) == Ok(t, [])
  {
    match t
    case MptTable(m) => MptArmOf(m);
    case PltTable(p) => PltArmOf(p);
    case MhEitTable(e) => MhEitArmOf(e);
    case MhBitTable(b) => MhBitArmOf(b);
    case MhSdtTable(d) => MhSdtArmOf(d);
    case MhSitTable(i) => MhSitArmOf(i);
  }

  lemma MptArmOf(m: Mpt)
    requires ValidMpt(m)
    ensures ReadTableOfKind(MptKind, EncodeMpt(m)) == Ok(MptTable(m), [])
  {
    ReadEncodeMpt(m);
    MptArmStep(EncodeMpt(m), m, []);
  }

  lemma MptArmStep(s: seq<byte>, m: Mpt, rest: seq<byte>)
    requires ReadMpt(s) == Ok(m, rest)
    ensures ReadTableOfKind(MptKind, s) == Ok(MptTable(m), rest)
  {
  }

  lemma PltArmOf(p: Plt)
    requires ValidPlt(p)
    ensures ReadTableOfKind(PltKind, EncodePlt(p)) == Ok(PltTable(p), [])
  {
    ReadEncodePlt(p, []);
    assert EncodePlt(p) + [] == EncodePlt(p);
    PltArmStep(EncodePlt(p), p, []);
  }

  lemma PltArmStep(s: seq<byte>, p: Plt, rest: seq<byte>)
    requires ReadPlt(s) == Ok(p, rest)
    ensures ReadTableOfKind(PltKind, s) == Ok(PltTable(p), rest)
  {
  }

  lemma MhEitArmOf(e: MhEit)
    requires ValidMhEit(e)
    ensures ReadTableOfKind(MhEitKind, EncodeMhEit(e)) == Ok(MhEitTable(e), [])
  {
    ReadEncodeMhEit(e);
    MhEitArmStep(EncodeMhEit(e), e, []);
  }

  lemma MhEitArmStep(s: seq<byte>, e: MhEit, rest: seq<byte>)
    requires ReadMhEit(s) == Ok(e, rest)
    ensures ReadTableOfKind(MhEitKind, s) == Ok(MhEitTable(e), rest)
  {
  }

  lemma MhBitArmOf(b: MhBit)
    requires ValidMhBit(b)
    ensures ReadTableOfKind(MhBitKind, EncodeMhBit(b)) == Ok(MhBitTable(b), [])
  {
    ReadEncodeMhBit(b);
    MhBitArmStep(EncodeMhBit(b), b, []);
  }

  lemma MhBitArmStep(s: seq<byte>, b: MhBit, rest: seq<byte>)
    requires ReadMhBit(s) == Ok(b, rest)
    ensures ReadTableOfKind(MhBitKind, s) == Ok(MhBitTable(b), rest)
  {
  }

  lemma MhSdtArmOf(d: MhSdt)
    requires ValidMhSdt(d)
    ensures ReadTableOfKind(MhSdtKind, EncodeMhSdt(d)) == Ok(MhSdtTable(d), [])
  {
    ReadEncodeMhSdt(d);
    MhSdtArmStep(EncodeMhSdt(d), d, []);
  }

  lemma MhSdtArmStep(s: seq<byte>, d: MhSdt, rest: seq<byte>)
    requires ReadMhSdt(s) == Ok(d, rest)
    ensures ReadTableOfKind(MhSdtKind, s) == Ok(MhSdtTable(d), rest)
  {
  }

  lemma MhSitArmOf(i: MhSit)
    requires ValidMhSit(i)
    ensures ReadTableOfKind(MhSitKind, EncodeMhSit(i)) == Ok(MhSitTable(i), [])
  {
    ReadEncodeMhSit(i);
    MhSitArmStep(EncodeMhSit(i), i, []);
  }

  lemma MhSitArmStep(s: seq<byte>, i: MhSit, rest: seq<byte>)
    requires ReadMhSit(s) == Ok(i, rest)
    ensures ReadTableOfKind(MhSitKind, s) == Ok(MhSitTable(i), rest)
  {
  }

  /** `ReadTable` from the outcome of the arm its id selects. */
  lemma KnownTableStep(s: seq<byte>, t: Table, rest: seq<byte>)
    requires 1 <= |s| && KnownTableId(s[0]) && ReadTableOfKind(KindOf(s[0]), s[1..]) == Ok(t, rest)
    ensures ReadTable(s) == Ok(t, rest)
  {
  }
}
