/** Media fragment unit (MFU) payloads of an MPU fragment, read from
    mfu.rs.  The timed and aggregation flags of the fragment select one of
    four layouts. */
module Mfu {
  import opened Wire
  import Mmtp

  datatype MfuTimedData = MfuTimedData(
    movieFragmentSequenceNumber: u32,
    sampleNumber: u32,
    offset: u32,
    priority: byte,
    dependencyCounter: byte,
    data: seq<byte>)

  datatype MfuNonTimedData = MfuNonTimedData(itemId: u32, data: seq<byte>)

  datatype MfuPayload =
    | TimedAggregated(units: seq<MfuTimedData>)
    | Timed(timed: MfuTimedData)
    | Aggregated(items: seq<MfuNonTimedData>)
    | Default(item: MfuNonTimedData)

  /** Size of the timed header: three u32 and two u8. */
  const TIMED_HEADER_LENGTH := 14
  /** Size of the non-timed header: the u32 item_id. */
  const NON_TIMED_HEADER_LENGTH := 4

  // ---------------------------------------------------------------------
  // Wire layout of the units, the reference the readers are proved against

  function TimedHeaderBytes(u: MfuTimedData): (s: seq<byte>)
    ensures |s| == TIMED_HEADER_LENGTH
  {
    U32Bytes(u.movieFragmentSequenceNumber) + U32Bytes(u.sampleNumber) + U32Bytes(u.offset)
    + [u.priority, u.dependencyCounter]
  }

  /** A timed unit inside an aggregate: u16 length L, header, L - 14 bytes. */
  function EncodeTimedUnit(u: MfuTimedData): (s: seq<byte>)
    requires TIMED_HEADER_LENGTH + |u.data| + 2 < 0x1_0000
    ensures |s| == 2 + TIMED_HEADER_LENGTH + |u.data|
  {
    U16Bytes(TIMED_HEADER_LENGTH + |u.data|) + TimedHeaderBytes(u) + u.data
  }

  /** A non-timed unit inside an aggregate: u16 length L, item_id, L - 4 bytes. */
  function EncodeNonTimedUnit(u: MfuNonTimedData): (s: seq<byte>)
    requires NON_TIMED_HEADER_LENGTH + |u.data| + 2 < 0x1_0000
    ensures |s| == 2 + NON_TIMED_HEADER_LENGTH + |u.data|
  {
    U16Bytes(NON_TIMED_HEADER_LENGTH + |u.data|) + U32Bytes(u.itemId) + u.data
  }

  predicate TimedUnitsFit(units: seq<MfuTimedData>)
  {
    forall i :: 0 <= i < |units| ==> TIMED_HEADER_LENGTH + |units[i].data| + 2 < 0x1_0000
  }

  predicate NonTimedUnitsFit(items: seq<MfuNonTimedData>)
  {
    forall i :: 0 <= i < |items| ==> NON_TIMED_HEADER_LENGTH + |items[i].data| + 2 < 0x1_0000
  }

  function EncodeTimedUnits(units: seq<MfuTimedData>): seq<byte>
    requires TimedUnitsFit(units)
  {
    if units == [] then [] else EncodeTimedUnit(units[0]) + EncodeTimedUnits(units[1..])
  }

  lemma EncodeTimedUnitsCons(u: MfuTimedData, us: seq<MfuTimedData>)
    requires TIMED_HEADER_LENGTH + |u.data| + 2 < 0x1_0000 && TimedUnitsFit(us)
    ensures TimedUnitsFit([u] + us) && EncodeTimedUnits([u] + us) == EncodeTimedUnit(u) + EncodeTimedUnits(us)
  {
    assert ([u] + us)[1..] == us;
  }

  function EncodeNonTimedUnits(items: seq<MfuNonTimedData>): seq<byte>
    requires NonTimedUnitsFit(items)
  {
    if items == [] then [] else EncodeNonTimedUnit(items[0]) + EncodeNonTimedUnits(items[1..])
  }

  lemma EncodeNonTimedUnitsCons(u: MfuNonTimedData, us: seq<MfuNonTimedData>)
    requires NON_TIMED_HEADER_LENGTH + |u.data| + 2 < 0x1_0000 && NonTimedUnitsFit(us)
    ensures NonTimedUnitsFit([u] + us) && EncodeNonTimedUnits([u] + us) == EncodeNonTimedUnit(u) + EncodeNonTimedUnits(us)
  {
    assert ([u] + us)[1..] == us;
  }

  // ---------------------------------------------------------------------
  // Readers

  /** The 14-byte timed header, read from a `Cursor`; `data` is left empty.
      Any shortfall is an `UnexpectedEof`. */
  function ReadTimedHeader(s: seq<byte>): (r: Parsed<MfuTimedData>)
    ensures r.Ok? <==> TIMED_HEADER_LENGTH <= |s|
    ensures r.Err? ==> r.kind == UnexpectedEof
    ensures r.Ok? ==> r.value.data == [] && r.rest == s[TIMED_HEADER_LENGTH..]
  {
    if |s| < TIMED_HEADER_LENGTH then Err(UnexpectedEof)
    else Ok(MfuTimedData(Be32(s[..4]), Be32(s[4..8]), Be32(s[8..12]), s[12], s[13], []), s[14..])
  }

  /** A header read from `s` is the one its first 14 bytes encode. */
  lemma ReadTimedHeaderReadsBack(s: seq<byte>)
    requires ReadTimedHeader(s).Ok?
    ensures s == TimedHeaderBytes(ReadTimedHeader(s).value) + ReadTimedHeader(s).rest
  {
    U32BytesOfBe32(s[..4]);
    U32BytesOfBe32(s[4..8]);
    U32BytesOfBe32(s[8..12]);
    assert s == s[..4] + s[4..8] + s[8..12] + [s[12], s[13]] + s[14..];
  }

  /** One unit of a timed aggregate.  The length must not exceed the bytes
      left at the start of the unit (an `assert!`), must cover the header
      (`L - 14` underflows otherwise) and `L + 2` must fit a u16; a read
      past the end is an `UnexpectedEof`. */
  function ReadTimedUnit(s: seq<byte>): (r: Parsed<MfuTimedData>)
    ensures r.Err? ==> r.kind == UnexpectedEof
    ensures r.Ok? ==>
      TIMED_HEADER_LENGTH + |r.value.data| + 2 < 0x1_0000 &&
      2 + TIMED_HEADER_LENGTH + |r.value.data| <= |s| &&
      r.rest == s[2 + TIMED_HEADER_LENGTH + |r.value.data|..]
  {
    if |s| < 2 then Err(UnexpectedEof)
    else
      var len := Be16(s[..2]);
      if len > |s| then Panic
      else
        var (header, _) :- ReadTimedHeader(s[2..]);
        if len < TIMED_HEADER_LENGTH then Panic
        else if |s| < 2 + len then Err(UnexpectedEof)
        else if len + 2 >= 0x1_0000 then Panic
        else Ok(header.(data := s[2 + TIMED_HEADER_LENGTH..2 + len]), s[2 + len..])
  }

  /** A unit read from `s` is laid out as `EncodeTimedUnit` lays it out. */
  lemma ReadTimedUnitReadsBack(s: seq<byte>)
    requires ReadTimedUnit(s).Ok?
    ensures s == EncodeTimedUnit(ReadTimedUnit(s).value) + ReadTimedUnit(s).rest
  {
    var u := ReadTimedUnit(s).value;
    var n := |u.data|;
    var h := ReadTimedHeader(s[2..]);
    ReadTimedHeaderReadsBack(s[2..]);
    assert u == h.value.(data := s[16..16 + n]);
    assert TimedHeaderBytes(u) == TimedHeaderBytes(h.value);
    U16BytesOfBe16(s[..2]);
    assert s[2..] == TimedHeaderBytes(u) + s[16..];
    assert s == s[..2] + TimedHeaderBytes(u) + u.data + s[16 + n..];
  }

  /** One unit of a non-timed aggregate, with the same three panics. */
  function ReadNonTimedUnit(s: seq<byte>): (r: Parsed<MfuNonTimedData>)
    ensures r.Err? ==> r.kind == UnexpectedEof
    ensures r.Ok? ==>
      NON_TIMED_HEADER_LENGTH + |r.value.data| + 2 < 0x1_0000 &&
      2 + NON_TIMED_HEADER_LENGTH + |r.value.data| <= |s| &&
      r.rest == s[2 + NON_TIMED_HEADER_LENGTH + |r.value.data|..]
  {
    if |s| < 2 then Err(UnexpectedEof)
    else
      var len := Be16(s[..2]);
      if len > |s| then Panic
      else if |s| < 2 + NON_TIMED_HEADER_LENGTH then Err(UnexpectedEof)
      else if len < NON_TIMED_HEADER_LENGTH then Panic
      else if |s| < 2 + len then Err(UnexpectedEof)
      else if len + 2 >= 0x1_0000 then Panic
      else Ok(MfuNonTimedData(Be32(s[2..6]), s[2 + NON_TIMED_HEADER_LENGTH..2 + len]), s[2 + len..])
  }

  /** A unit read from `s` is laid out as `EncodeNonTimedUnit` lays it out. */
  lemma ReadNonTimedUnitReadsBack(s: seq<byte>)
    requires ReadNonTimedUnit(s).Ok?
    ensures s == EncodeNonTimedUnit(ReadNonTimedUnit(s).value) + ReadNonTimedUnit(s).rest
  {
    var u := ReadNonTimedUnit(s).value;
    var n := |u.data|;
    U16BytesOfBe16(s[..2]);
    U32BytesOfBe32(s[2..6]);
    assert s == s[..2] + s[2..6] + u.data + s[6 + n..];
  }

  /** `while index < payload.len()` over timed units. */
  function ReadTimedUnits(s: seq<byte>): (r: Parsed<seq<MfuTimedData>>)
    ensures r.Err? ==> r.kind == UnexpectedEof
    ensures r.Ok? ==> r.rest == []
    decreases |s|
  {
    if s == [] then Ok([], s)
    else
      var (u, s1) :- ReadTimedUnit(s);
      var (us, s2) :- ReadTimedUnits(s1);
      Ok([u] + us, s2)
  }

  /** On success the timed units tile the payload exactly, in wire order. */
  lemma {:induction false} ReadTimedUnitsReadsBack(s: seq<byte>)
    requires ReadTimedUnits(s).Ok?
    ensures var us := ReadTimedUnits(s).value;
      TimedUnitsFit(us) && EncodeTimedUnits(us) == s
    decreases |s|
  {
    if s != [] {
      var u := ReadTimedUnit(s);
      ReadTimedUnitReadsBack(s);
      ReadTimedUnitsReadsBack(u.rest);
      var us := ReadTimedUnits(u.rest).value;
      assert ReadTimedUnits(s).value == [u.value] + us;
      EncodeTimedUnitsCons(u.value, us);
    }
  }

  /** The same loop over non-timed units. */
  function ReadNonTimedUnits(s: seq<byte>): (r: Parsed<seq<MfuNonTimedData>>)
    ensures r.Err? ==> r.kind == UnexpectedEof
    ensures r.Ok? ==> r.rest == []
    decreases |s|
  {
    if s == [] then Ok([], s)
    else
      var (u, s1) :- ReadNonTimedUnit(s);
      var (us, s2) :- ReadNonTimedUnits(s1);
      Ok([u] + us, s2)
  }

  /** On success the non-timed units tile the payload exactly, in wire
      order. */
  lemma {:induction false} ReadNonTimedUnitsReadsBack(s: seq<byte>)
    requires ReadNonTimedUnits(s).Ok?
    ensures var us := ReadNonTimedUnits(s).value;
      NonTimedUnitsFit(us) && EncodeNonTimedUnits(us) == s
    decreases |s|
  {
    if s != [] {
      var u := ReadNonTimedUnit(s);
      ReadNonTimedUnitReadsBack(s);
      ReadNonTimedUnitsReadsBack(u.rest);
      var us := ReadNonTimedUnits(u.rest).value;
      assert ReadNonTimedUnits(s).value == [u.value] + us;
      EncodeNonTimedUnitsCons(u.value, us);
    }
  }

  /** `MfuPayload::try_from`. */
  function PayloadOf(f: Mmtp.MpuFragment): (r: Outcome<MfuPayload>)
    ensures r.Failure? ==> r.kind == UnexpectedEof
    ensures r.Success? ==>
      (r.value.Timed? <==> f.timedFlag && !f.aggregationFlag) &&
      (r.value.TimedAggregated? <==> f.timedFlag && f.aggregationFlag) &&
      (r.value.Default? <==> !f.timedFlag && !f.aggregationFlag) &&
      (r.value.Aggregated? <==> !f.timedFlag && f.aggregationFlag)
    // the unaggregated layouts: a header, then every remaining byte
    ensures f.timedFlag && !f.aggregationFlag ==>
      (r.Success? <==> TIMED_HEADER_LENGTH <= |f.payload|) &&
      (r.Success? ==> f.payload == TimedHeaderBytes(r.value.timed) + r.value.timed.data)
    ensures !f.timedFlag && !f.aggregationFlag ==>
      (r.Success? <==> NON_TIMED_HEADER_LENGTH <= |f.payload|) &&
      (r.Success? ==> f.payload == U32Bytes(r.value.item.itemId) + r.value.item.data)
    // the aggregated layouts: units of L + 2 bytes tiling the payload
    ensures r.Success? && r.value.TimedAggregated? ==>
      TimedUnitsFit(r.value.units) && EncodeTimedUnits(r.value.units) == f.payload
    ensures r.Success? && r.value.Aggregated? ==>
      NonTimedUnitsFit(r.value.items) && EncodeNonTimedUnits(r.value.items) == f.payload
  {
    var payload := f.payload;
    if f.timedFlag then
      if !f.aggregationFlag then
        var header :- Finish(ReadTimedHeader(payload));
        ReadTimedHeaderReadsBack(payload);
        Success(Timed(header.(data := payload[TIMED_HEADER_LENGTH..])))
      else
        var units :- Finish(ReadTimedUnits(payload));
        ReadTimedUnitsReadsBack(payload);
        Success(TimedAggregated(units))
    else if !f.aggregationFlag then
      if |payload| < NON_TIMED_HEADER_LENGTH then Failure(UnexpectedEof)
      else
        U32BytesOfBe32(payload[..4]);
        assert payload == payload[..4] + payload[4..];
        Success(Default(MfuNonTimedData(Be32(payload[..4]), payload[4..])))
    else
      var items :- Finish(ReadNonTimedUnits(payload));
      ReadNonTimedUnitsReadsBack(payload);
      Success(Aggregated(items))
  }

  // ---------------------------------------------------------------------
  // Round trips

  lemma ReadEncodeTimedHeader(u: MfuTimedData, rest: seq<byte>)
    ensures ReadTimedHeader(TimedHeaderBytes(u) + rest) == Ok(u.(data := []), rest)
  {
    var s := TimedHeaderBytes(u) + rest;
    assert s[..4] == U32Bytes(u.movieFragmentSequenceNumber);
    assert s[4..8] == U32Bytes(u.sampleNumber);
    assert s[8..12] == U32Bytes(u.offset);
    assert s[12] == u.priority && s[13] == u.dependencyCounter;
    assert s[14..] == rest;
  }

  lemma ReadEncodeTimedUnit(u: MfuTimedData, rest: seq<byte>)
    requires TIMED_HEADER_LENGTH + |u.data| + 2 < 0x1_0000
    ensures ReadTimedUnit(EncodeTimedUnit(u) + rest) == Ok(u, rest)
  {
    var s := EncodeTimedUnit(u) + rest;
    assert s[..2] == U16Bytes(TIMED_HEADER_LENGTH + |u.data|);
    assert s[2..] == TimedHeaderBytes(u) + (u.data + rest);
    ReadEncodeTimedHeader(u, u.data + rest);
    assert (u.data + rest)[..|u.data|] == u.data;
    assert (u.data + rest)[|u.data|..] == rest;
  }

  lemma ReadEncodeNonTimedUnit(u: MfuNonTimedData, rest: seq<byte>)
    requires NON_TIMED_HEADER_LENGTH + |u.data| + 2 < 0x1_0000
    ensures ReadNonTimedUnit(EncodeNonTimedUnit(u) + rest) == Ok(u, rest)
  {
    var s := EncodeNonTimedUnit(u) + rest;
    assert s[..2] == U16Bytes(NON_TIMED_HEADER_LENGTH + |u.data|);
    assert s[2..6] == U32Bytes(u.itemId);
    assert s[6..] == u.data + rest;
    assert (u.data + rest)[..|u.data|] == u.data;
  }

  lemma {:induction false} ReadEncodeTimedUnits(units: seq<MfuTimedData>)
    requires TimedUnitsFit(units)
    ensures ReadTimedUnits(EncodeTimedUnits(units)) == Ok(units, [])
    decreases |units|
  {
    if units != [] {
      var u := units[0];
      var us := units[1..];
      var tail := EncodeTimedUnits(us);
      ReadEncodeTimedUnit(u, tail);
      ReadEncodeTimedUnits(us);
      ReadTimedUnitsOk(EncodeTimedUnit(u) + tail, u, tail, us);
      EncodeTimedUnitsCons(u, us);
      assert [u] + us == units;
    }
  }

  /** A unit followed by units that read to the end is one more unit. */
  lemma ReadTimedUnitsOk(s: seq<byte>, u: MfuTimedData, tail: seq<byte>, us: seq<MfuTimedData>)
    requires ReadTimedUnit(s) == Ok(u, tail) && ReadTimedUnits(tail) == Ok(us, [])
    ensures ReadTimedUnits(s) == Ok([u] + us, [])
  {
  }

  lemma {:induction false} ReadEncodeNonTimedUnits(items: seq<MfuNonTimedData>)
    requires NonTimedUnitsFit(items)
    ensures ReadNonTimedUnits(EncodeNonTimedUnits(items)) == Ok(items, [])
    decreases |items|
  {
    if items != [] {
      var u := items[0];
      var us := items[1..];
      var tail := EncodeNonTimedUnits(us);
      ReadEncodeNonTimedUnit(u, tail);
      ReadEncodeNonTimedUnits(us);
      ReadNonTimedUnitsOk(EncodeNonTimedUnit(u) + tail, u, tail, us);
      EncodeNonTimedUnitsCons(u, us);
      assert [u] + us == items;
    }
  }

  /** A unit followed by units that read to the end is one more unit. */
  lemma ReadNonTimedUnitsOk(s: seq<byte>, u: MfuNonTimedData, tail: seq<byte>, us: seq<MfuNonTimedData>)
    requires ReadNonTimedUnit(s) == Ok(u, tail) && ReadNonTimedUnits(tail) == Ok(us, [])
    ensures ReadNonTimedUnits(s) == Ok([u] + us, [])
  {
  }

  // ---------------------------------------------------------------------
  // The aggregate loops as mfu.rs runs them, on an index into the payload

  /** One turn of the timed loop at `index`: a failed read ends the whole
      loop with that failure, a successful one moves `index` past the unit. */
  lemma ReadTimedUnitsStep(payload: seq<byte>, index: nat, units: seq<MfuTimedData>)
    requires index < |payload|
    ensures var u := ReadTimedUnit(payload[index..]);
      (u.IsFailure() ==>
        Prepend(units, ReadTimedUnits(payload[index..])) == u.PropagateFailure()) &&
      (u.Ok? ==>
        index + 2 + TIMED_HEADER_LENGTH + |u.value.data| <= |payload| &&
        u.rest == payload[index + 2 + TIMED_HEADER_LENGTH + |u.value.data|..] &&
        Prepend(units, ReadTimedUnits(payload[index..])) == Prepend(units + [u.value], ReadTimedUnits(u.rest)))
  {
    var u := ReadTimedUnit(payload[index..]);
    if u.Ok? {
      PrependStep(units, u.value, ReadTimedUnits(u.rest));
    }
  }

  /** One turn of the non-timed loop at `index`. */
  lemma ReadNonTimedUnitsStep(payload: seq<byte>, index: nat, items: seq<MfuNonTimedData>)
    requires index < |payload|
    ensures var u := ReadNonTimedUnit(payload[index..]);
      (u.IsFailure() ==>
        Prepend(items, ReadNonTimedUnits(payload[index..])) == u.PropagateFailure()) &&
      (u.Ok? ==>
        index + 2 + NON_TIMED_HEADER_LENGTH + |u.value.data| <= |payload| &&
        u.rest == payload[index + 2 + NON_TIMED_HEADER_LENGTH + |u.value.data|..] &&
        Prepend(items, ReadNonTimedUnits(payload[index..])) == Prepend(items + [u.value], ReadNonTimedUnits(u.rest)))
  {
    var u := ReadNonTimedUnit(payload[index..]);
    if u.Ok? {
      PrependStep(items, u.value, ReadNonTimedUnits(u.rest));
    }
  }

  /** The timed aggregate loop: `index` advances by `L + 2` per unit, and
      the reader's position stays equal to it. */
  method ReadTimedAggregatedLoop(payload: seq<byte>) returns (r: Parsed<seq<MfuTimedData>>)
    ensures r == ReadTimedUnits(payload)
  {
    var data: seq<MfuTimedData> := [];
    var index := 0;
    var reader := payload;
    PrependEmpty(ReadTimedUnits(payload));
    while index < |payload|
      invariant 0 <= index <= |payload| && reader == payload[index..]
      invariant ReadTimedUnits(payload) == Prepend(data, ReadTimedUnits(reader))
      decreases |payload| - index
    {
      var unit := ReadTimedUnit(reader);
      ReadTimedUnitsStep(payload, index, data);
      if unit.IsFailure() {
        return unit.PropagateFailure();
      }
      var dataUnitLength := TIMED_HEADER_LENGTH + |unit.value.data|;
      data := data + [unit.value];
      reader := unit.rest;
      index := index + dataUnitLength + 2;
    }
    PrependNone(data, reader);
    r := Ok(data, reader);
  }

  /** The non-timed aggregate loop: `index` advances by `L + 2` per unit. */
  method ReadNonTimedAggregatedLoop(payload: seq<byte>) returns (r: Parsed<seq<MfuNonTimedData>>)
    ensures r == ReadNonTimedUnits(payload)
  {
    var data: seq<MfuNonTimedData> := [];
    var index := 0;
    var reader := payload;
    PrependEmpty(ReadNonTimedUnits(payload));
    while index < |payload|
      invariant 0 <= index <= |payload| && reader == payload[index..]
      invariant ReadNonTimedUnits(payload) == Prepend(data, ReadNonTimedUnits(reader))
      decreases |payload| - index
    {
      var unit := ReadNonTimedUnit(reader);
      ReadNonTimedUnitsStep(payload, index, data);
      if unit.IsFailure() {
        return unit.PropagateFailure();
      }
      var dataUnitLength := NON_TIMED_HEADER_LENGTH + |unit.value.data|;
      data := data + [unit.value];
      reader := unit.rest;
      index := index + dataUnitLength + 2;
    }
    PrependNone(data, reader);
    r := Ok(data, reader);
  }
}
