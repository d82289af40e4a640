/** MMT-SI descriptors of ARIB STD-B60, read from descriptor.rs.  Every
    reader works on a `Bytes` cursor, so a short buffer panics and no reader
    here returns an io error. */
module Descriptors {
  import opened Wire

  // ---------------------------------------------------------------------
  // MPU timestamp descriptor

  datatype MpuTimestamp = MpuTimestamp(mpuSequenceNumber: u32, mpuPresentationTime: u64)

  function EncodeMpuTimestamp(t: MpuTimestamp): (s: seq<byte>)
    ensures |s| == 12
  {
    U32Bytes(t.mpuSequenceNumber) + U64Bytes(t.mpuPresentationTime)
  }

  /** `MpuTimestamp::read`: `assert!` that twelve bytes remain, then a u32
      and a u64. */
  function ReadMpuTimestamp(s: seq<byte>): (r: Parsed<MpuTimestamp>)
    ensures r.Ok? <==> 12 <= |s|
    ensures !r.Ok? ==> r.Panic?
    ensures r.Ok? ==> s == EncodeMpuTimestamp(r.value) + r.rest
  {
    if |s| < 12 then Panic
    else
      var t := MpuTimestamp(Be32(s[..4]), Be64(s[4..12]));
      assert s == EncodeMpuTimestamp(t) + s[12..] by {
        U32BytesOfBe32(s[..4]);
        U64BytesOfBe64(s[4..12]);
        assert s == s[..4] + s[4..12] + s[12..];
      }
      Ok(t, s[12..])
  }

  lemma ReadEncodeMpuTimestamp(t: MpuTimestamp, rest: seq<byte>)
    ensures ReadMpuTimestamp(EncodeMpuTimestamp(t) + rest) == Ok(t, rest)
  {
    var s := EncodeMpuTimestamp(t) + rest;
    assert s[..4] == U32Bytes(t.mpuSequenceNumber);
    assert s[4..12] == U64Bytes(t.mpuPresentationTime);
    assert s[12..] == rest;
  }

  lemma MpuTimestampReader()
    ensures ReadsBack(ReadMpuTimestamp, EncodeMpuTimestamp)
    ensures Inverts(ReadMpuTimestamp, EncodeMpuTimestamp, _ => true)
    ensures Advances(ReadMpuTimestamp)
  {
    forall t, rest
      ensures ReadMpuTimestamp(EncodeMpuTimestamp(t) + rest) == Ok(t, rest)
    {
      ReadEncodeMpuTimestamp(t, rest);
    }
    ReadsBackAdvances(ReadMpuTimestamp, EncodeMpuTimestamp);
  }

  datatype MpuTimestampDescriptor = MpuTimestampDescriptor(timestamps: seq<MpuTimestamp>)

  lemma RecordCountStep(n: nat)
    ensures (n + 12) % 12 == n % 12 && (n + 12) / 12 == n / 12 + 1
  {
  }

  /** The `while has_remaining` loop of `MpuTimestampDescriptor::read` reads
      whole records until the body is used up. */
  lemma {:induction false} TimestampRecords(s: seq<byte>)
    requires Advances(ReadMpuTimestamp)
    ensures RepeatAbove(s, 0, ReadMpuTimestamp).Ok? <==> |s| % 12 == 0
    ensures !RepeatAbove(s, 0, ReadMpuTimestamp).Ok? ==> RepeatAbove(s, 0, ReadMpuTimestamp).Panic?
    ensures RepeatAbove(s, 0, ReadMpuTimestamp).Ok? ==> |RepeatAbove(s, 0, ReadMpuTimestamp).value| == |s| / 12
    decreases |s|
  {
    var r := RepeatAbove(s, 0, ReadMpuTimestamp);
    if 0 < |s| < 12 {
      assert ReadMpuTimestamp(s).Panic?;
      assert r.Panic?;
    } else if |s| >= 12 {
      var t := ReadMpuTimestamp(s);
      assert t.Ok? && t.rest == s[12..];
      TimestampRecords(s[12..]);
      var r1 := RepeatAbove(s[12..], 0, ReadMpuTimestamp);
      assert r == Prepend([t.value], r1);
      RecordCountStep(|s[12..]|);
    }
  }

  /** `MpuTimestampDescriptor::read`: a trailing partial record panics. */
  function ReadMpuTimestampDescriptor(s: seq<byte>): (r: Parsed<MpuTimestampDescriptor>)
    ensures r.Ok? <==> |s| % 12 == 0
    ensures !r.Ok? ==> r.Panic?
    ensures r.Ok? ==>
      r.rest == [] && |r.value.timestamps| == |s| / 12 &&
      s == Flatten(r.value.timestamps, EncodeMpuTimestamp)
  {
    MpuTimestampReader();
    TimestampRecords(s);
    RepeatAboveFlatten(s, ReadMpuTimestamp, EncodeMpuTimestamp);
    var (timestamps, rest) :- RepeatAbove(s, 0, ReadMpuTimestamp);
    Ok(MpuTimestampDescriptor(timestamps), rest)
  }

  lemma ReadEncodeMpuTimestampDescriptor(timestamps: seq<MpuTimestamp>)
    ensures ReadMpuTimestampDescriptor(Flatten(timestamps, EncodeMpuTimestamp))
      == Ok(MpuTimestampDescriptor(timestamps), [])
  {
    MpuTimestampReader();
    RepeatAboveOfFlatten(timestamps, ReadMpuTimestamp, EncodeMpuTimestamp, _ => true);
  }

  // ---------------------------------------------------------------------
  // MPU extended timestamp descriptor

  datatype MpuTimestampOffset = MpuTimestampOffset(ptsDtsOffset: u16, ptsOffset: u16)

  /** `MpuTimestampOffset::read`: a per-unit `pts_offset` only for offset
      type 2, otherwise the descriptor's default, which must exist. */
  function ReadMpuTimestampOffset(s: seq<byte>, ptsOffsetType: int, defaultPtsOffset: Option<u16>): (r: Parsed<MpuTimestampOffset>)
    ensures r.Ok? <==>
      (ptsOffsetType == 2 && 4 <= |s|) || (ptsOffsetType != 2 && defaultPtsOffset.Some? && 2 <= |s|)
    ensures !r.Ok? ==> r.Panic?
    ensures r.Ok? ==> r.value.ptsDtsOffset == Be16(s[..2])
    ensures r.Ok? && ptsOffsetType == 2 ==> r.value.ptsOffset == Be16(s[2..4]) && r.rest == s[4..]
    ensures r.Ok? && ptsOffsetType != 2 ==> r.value.ptsOffset == defaultPtsOffset.value && r.rest == s[2..]
  {
    var (ptsDtsOffset, s1) :- GetU16(s);
    if ptsOffsetType == 2 then
      var (ptsOffset, s2) :- GetU16(s1);
      assert s1[..2] == s[2..4] && s2 == s[4..];
      Ok(MpuTimestampOffset(ptsDtsOffset, ptsOffset), s2)
    else if defaultPtsOffset.Some? then Ok(MpuTimestampOffset(ptsDtsOffset, defaultPtsOffset.value), s1)
    else Panic
  }

  /** The offset reader a descriptor's flags select. */
  function OffsetReader(ptsOffsetType: int, defaultPtsOffset: Option<u16>): seq<byte> -> Parsed<MpuTimestampOffset>
  {
    s => ReadMpuTimestampOffset(s, ptsOffsetType, defaultPtsOffset)
  }

  /** What the `for 0..num_of_au` loop over offsets keeps. */
  lemma OffsetLoop(s: seq<byte>, n: nat, ptsOffsetType: int, defaultPtsOffset: Option<u16>)
    ensures Advances(OffsetReader(ptsOffsetType, defaultPtsOffset))
    ensures !RepeatCount(s, n, OffsetReader(ptsOffsetType, defaultPtsOffset)).Err?
    ensures ptsOffsetType != 2 && defaultPtsOffset.Some? && RepeatCount(s, n, OffsetReader(ptsOffsetType, defaultPtsOffset)).Ok? ==>
      forall o :: o in RepeatCount(s, n, OffsetReader(ptsOffsetType, defaultPtsOffset)).value ==> o.ptsOffset == defaultPtsOffset.value
  {
    var p := OffsetReader(ptsOffsetType, defaultPtsOffset);
    forall t | p(t).Ok?
      ensures |p(t).rest| < |t| && IsSuffix(p(t).rest, t)
    {
    }
    RepeatCountNeverErr(s, n, p);
    if ptsOffsetType != 2 && defaultPtsOffset.Some? {
      RepeatCountAll(s, n, p, (o: MpuTimestampOffset) => o.ptsOffset == defaultPtsOffset.value);
    }
  }

  datatype MpuExtendedTimestamp = MpuExtendedTimestamp(
    mpuSequenceNumber: u32,
    mpuPresentationTimeLeapIndicator: int,
    mpuDecodingTimeOffset: u16,
    numOfAu: byte,
    offsets: seq<MpuTimestampOffset>)

  /** Every offset of `ts` carries `value` as its `pts_offset`. */
  predicate UsesDefault(ts: MpuExtendedTimestamp, value: u16)
  {
    forall o :: o in ts.offsets ==> o.ptsOffset == value
  }

  /** `MpuExtendedTimestamp::read`: an eight-byte header, then exactly
      `num_of_au` offsets. */
  function ReadMpuExtendedTimestamp(s: seq<byte>, ptsOffsetType: int, defaultPtsOffset: Option<u16>): (r: Parsed<MpuExtendedTimestamp>)
    ensures !r.Err?
    ensures r.Ok? ==>
      8 <= |s| && |r.rest| + 8 <= |s| && IsSuffix(r.rest, s) &&
      r.value.mpuSequenceNumber == Be32(s[..4]) &&
      r.value.mpuPresentationTimeLeapIndicator == s[4] / 0x40 &&
      r.value.mpuDecodingTimeOffset == Be16(s[5..7]) &&
      r.value.numOfAu == s[7] && |r.value.offsets| == s[7]
    // without a per-unit offset and without a default, any unit panics
    ensures ptsOffsetType != 2 && defaultPtsOffset.None? && 8 <= |s| && s[7] > 0 ==> r.Panic?
    ensures r.Ok? && ptsOffsetType != 2 && defaultPtsOffset.Some? ==> UsesDefault(r.value, defaultPtsOffset.value)
    ensures r.Ok? && ptsOffsetType != 2 && defaultPtsOffset.None? ==> r.value.numOfAu == 0
  {
    var (mpuSequenceNumber, s1) :- GetU32(s);
    var (head, s2) :- GetU8(s1);
    var (mpuDecodingTimeOffset, s3) :- GetU16(s2);
    var (numOfAu, s4) :- GetU8(s3);
    assert s2[..2] == s[5..7] && s4 == s[8..];
    OffsetLoop(s4, numOfAu, ptsOffsetType, defaultPtsOffset);
    var (offsets, s5) :- RepeatCount(s4, numOfAu, OffsetReader(ptsOffsetType, defaultPtsOffset));
    SuffixTransitive(s5, s4, s);
    Ok(MpuExtendedTimestamp(mpuSequenceNumber, head / 0x40, mpuDecodingTimeOffset, numOfAu, offsets), s5)
  }

  datatype MpuExtendedTimestampDescriptor = MpuExtendedTimestampDescriptor(
    ptsOffsetType: int,
    timescale: Option<u32>,
    timestamps: seq<MpuExtendedTimestamp>)

  function ExtendedTimestampReader(ptsOffsetType: int, defaultPtsOffset: Option<u16>): seq<byte> -> Parsed<MpuExtendedTimestamp>
  {
    s => ReadMpuExtendedTimestamp(s, ptsOffsetType, defaultPtsOffset)
  }

  /** What the `while has_remaining` loop over records keeps. */
  lemma ExtendedTimestampLoop(s: seq<byte>, ptsOffsetType: int, defaultPtsOffset: Option<u16>)
    ensures Advances(ExtendedTimestampReader(ptsOffsetType, defaultPtsOffset))
    ensures !RepeatAbove(s, 0, ExtendedTimestampReader(ptsOffsetType, defaultPtsOffset)).Err?
    ensures ptsOffsetType != 2 && defaultPtsOffset.Some? && RepeatAbove(s, 0, ExtendedTimestampReader(ptsOffsetType, defaultPtsOffset)).Ok? ==>
      forall ts :: ts in RepeatAbove(s, 0, ExtendedTimestampReader(ptsOffsetType, defaultPtsOffset)).value ==>
        UsesDefault(ts, defaultPtsOffset.value)
    ensures ptsOffsetType != 2 && defaultPtsOffset.None? && RepeatAbove(s, 0, ExtendedTimestampReader(ptsOffsetType, defaultPtsOffset)).Ok? ==>
      forall ts :: ts in RepeatAbove(s, 0, ExtendedTimestampReader(ptsOffsetType, defaultPtsOffset)).value ==> ts.numOfAu == 0
  {
    var p := ExtendedTimestampReader(ptsOffsetType, defaultPtsOffset);
    RepeatAboveNeverErr(s, 0, p);
    if ptsOffsetType != 2 && defaultPtsOffset.Some? {
      RepeatAboveAll(s, 0, p, (ts: MpuExtendedTimestamp) => UsesDefault(ts, defaultPtsOffset.value));
    } else if ptsOffsetType != 2 {
      RepeatAboveAll(s, 0, p, (ts: MpuExtendedTimestamp) => ts.numOfAu == 0);
    }
  }

  /** `MpuExtendedTimestampDescriptor::read`: a flag byte, the timescale if
      its flag is set, the default `pts_offset` if the offset type is 1, then
      records until the body is used up. */
  function ReadMpuExtendedTimestampDescriptor(s: seq<byte>): (r: Parsed<MpuExtendedTimestampDescriptor>)
    ensures !r.Err?
    ensures r.Ok? ==>
      1 <= |s| && r.rest == [] &&
      r.value.ptsOffsetType == s[0] / 2 % 4 &&
      (r.value.timescale.Some? <==> s[0] % 2 == 1)
    ensures r.Ok? && r.value.timescale.Some? ==> 5 <= |s| && r.value.timescale.value == Be32(s[1..5])
    // offset type 1: every unit takes the default that follows the flags
    ensures r.Ok? && r.value.ptsOffsetType == 1 ==>
      var k := if s[0] % 2 == 1 then 5 else 1;
      k + 2 <= |s| && forall ts :: ts in r.value.timestamps ==> UsesDefault(ts, Be16(s[k..k + 2]))
    // offset types 0 and 3: only records without units can be read
    ensures r.Ok? && (r.value.ptsOffsetType == 0 || r.value.ptsOffsetType == 3) ==>
      forall ts :: ts in r.value.timestamps ==> ts.numOfAu == 0
  {
    var (head, s1) :- GetU8(s);
    var ptsOffsetType := head / 2 % 4;
    var timescaleFlag := head % 2 == 1;
    var (timescale, s2) :-
      if timescaleFlag then
        var (t, rest) :- GetU32(s1);
        Ok(Some(t), rest)
      else Ok(None, s1);
    assert timescaleFlag ==> s1[..4] == s[1..5] && s2 == s[5..];
    var (defaultPtsOffset, s3) :-
      if ptsOffsetType == 1 then
        var (d, rest) :- GetU16(s2);
        Ok(Some(d), rest)
      else Ok(None, s2);
    assert ptsOffsetType == 1 ==> s2[..2] == s[|s| - |s2|..][..2];
    ExtendedTimestampLoop(s3, ptsOffsetType, defaultPtsOffset);
    var (timestamps, s4) :- RepeatAbove(s3, 0, ExtendedTimestampReader(ptsOffsetType, defaultPtsOffset));
    Ok(MpuExtendedTimestampDescriptor(ptsOffsetType, timescale, timestamps), s4)
  }

  // ---------------------------------------------------------------------
  // Event descriptors

  datatype MhShortEventDescriptor = MhShortEventDescriptor(
    iso639LanguageCode: seq<byte>,
    eventName: seq<byte>,
    text: seq<byte>)

  predicate ValidShortEvent(d: MhShortEventDescriptor)
  {
    |d.iso639LanguageCode| == 3 && |d.eventName| < 0x100 && |d.text| < 0x100
  }

  function EncodeShortEvent(d: MhShortEventDescriptor): seq<byte>
    requires ValidShortEvent(d)
  {
    d.iso639LanguageCode + U8Field(d.eventName) + U8Field(d.text)
  }

  /** `MhShortEventDescriptor::read`: a language code, then a name and a
      text, each behind a one-byte length. */
  function ReadShortEvent(s: seq<byte>): (r: Parsed<MhShortEventDescriptor>)
    ensures !r.Err?
    ensures r.Ok? ==> ValidShortEvent(r.value) && s == EncodeShortEvent(r.value) + r.rest
  {
    var (lang, s1) :- SplitTo(s, 3);
    var (name, s2) :- GetU8Prefixed(s1);
    var (text, s3) :- GetU8Prefixed(s2);
    var d := MhShortEventDescriptor(lang, name, text);
    assert ValidShortEvent(d);
    ConcatAssoc(lang, U8Field(name), U8Field(text) + s3);
    ConcatAssoc(lang + U8Field(name), U8Field(text), s3);
    Ok(d, s3)
  }

  lemma ReadEncodeShortEvent(d: MhShortEventDescriptor, rest: seq<byte>)
    requires ValidShortEvent(d)
    ensures ReadShortEvent(EncodeShortEvent(d) + rest) == Ok(d, rest)
  {
    var tail2 := U8Field(d.text) + rest;
    var tail1 := U8Field(d.eventName) + tail2;
    assert EncodeShortEvent(d) + rest == d.iso639LanguageCode + tail1;
    SplitToOf(d.iso639LanguageCode, tail1);
    GetU8PrefixedOf(d.eventName, tail2);
    GetU8PrefixedOf(d.text, rest);
  }

  datatype ExtendedEventItem = ExtendedEventItem(itemDescription: seq<byte>, item: seq<byte>)

  predicate ValidItem(i: ExtendedEventItem)
  {
    |i.itemDescription| < 0x100 && |i.item| < 0x1_0000
  }

  /** The bytes of an item.  An item whose parts do not fit their length
      fields has no encoding; it is written as a single zero byte only so
      that the encoder is total, and no lemma reads it back. */
  function EncodeItem(i: ExtendedEventItem): (s: seq<byte>)
    ensures |s| > 0
  {
    if ValidItem(i) then U8Field(i.itemDescription) + U16Field(i.item)
    else [0]
  }

  /** `ExtendedEventItem::read`: a description behind a one-byte length,
      then the item behind a two-byte length. */
  function ReadItem(s: seq<byte>): (r: Parsed<ExtendedEventItem>)
    ensures !r.Err?
  {
    var (description, s1) :- GetU8Prefixed(s);
    var (item, s2) :- GetU16Prefixed(s1);
    Ok(ExtendedEventItem(description, item), s2)
  }

  /** What `ReadItem` reads is a well-formed item, and the bytes it consumed
      are that item's encoding. */
  lemma ReadItemReadsBack(s: seq<byte>)
    ensures ReadItem(s).Ok? ==> ValidItem(ReadItem(s).value) && s == EncodeItem(ReadItem(s).value) + ReadItem(s).rest
  {
    var r := ReadItem(s);
    if r.Ok? {
      var g := GetU8Prefixed(s);
      var description, s1 := g.value, g.rest;
      GetU16PrefixedReadsBack(s1);
      var h := GetU16Prefixed(s1);
      var item, s2 := h.value, h.rest;
      var i := ExtendedEventItem(description, item);
      assert r == Ok(i, s2);
      assert ValidItem(i);
      assert EncodeItem(i) == U8Field(description) + U16Field(item);
      assert s == U8Field(description) + (U16Field(item) + s2);
      ConcatAssoc(U8Field(description), U16Field(item), s2);
    }
  }

  lemma ReadEncodeItem(i: ExtendedEventItem, rest: seq<byte>)
    requires ValidItem(i)
    ensures ReadItem(EncodeItem(i) + rest) == Ok(i, rest)
  {
    assert EncodeItem(i) + rest == U8Field(i.itemDescription) + (U16Field(i.item) + rest);
    GetU8PrefixedOf(i.itemDescription, U16Field(i.item) + rest);
    GetU16PrefixedOf(i.item, rest);
  }

  lemma ItemReader()
    ensures ReadsBack(ReadItem, EncodeItem)
    ensures Advances(ReadItem)
    ensures forall s :: !ReadItem(s).Err?
  {
    forall s
      ensures ReadItem(s).Ok? ==> s == EncodeItem(ReadItem(s).value) + ReadItem(s).rest
    {
      ReadItemReadsBack(s);
    }
    ReadsBackAdvances(ReadItem, EncodeItem);
  }

  datatype MhExtendedEventDescriptor = MhExtendedEventDescriptor(
    descriptorNumber: int,
    lastDescriptorNumber: int,
    iso639LanguageCode: seq<byte>,
    items: seq<ExtendedEventItem>,
    text: seq<byte>)

  predicate ValidExtendedEvent(d: MhExtendedEventDescriptor)
  {
    0 <= d.descriptorNumber < 0x10 && 0 <= d.lastDescriptorNumber < 0x10 &&
    |d.iso639LanguageCode| == 3 && |d.text| < 0x1_0000 &&
    (forall i :: i in d.items ==> ValidItem(i)) &&
    |Flatten(d.items, EncodeItem)| < 0x1_0000
  }

  function EncodeExtendedEvent(d: MhExtendedEventDescriptor): seq<byte>
    requires ValidExtendedEvent(d)
  {
    [d.descriptorNumber * 0x10 + d.lastDescriptorNumber] + d.iso639LanguageCode
    + U16Field(Flatten(d.items, EncodeItem)) + U16Field(d.text)
  }

  /** The items loop of `MhExtendedEventDescriptor::read` over its window of
      `length_of_items` bytes. */
  function ReadItems(window: seq<byte>): (r: Parsed<seq<ExtendedEventItem>>)
    ensures !r.Err?
  {
    ItemReader();
    RepeatAboveNeverErr(window, 0, ReadItem);
    var (items, _) :- RepeatAbove(window, 0, ReadItem);
    Ok(items, [])
  }

  /** The items read are well-formed and cut the window into their
      encodings. */
  lemma ReadItemsReadsBack(window: seq<byte>)
    ensures ReadItems(window).Ok? ==>
      (forall i :: i in ReadItems(window).value ==> ValidItem(i)) &&
      window == Flatten(ReadItems(window).value, EncodeItem)
  {
    ItemReader();
    RepeatAboveFlatten(window, ReadItem, EncodeItem);
    RepeatAboveAll(window, 0, ReadItem, ValidItem);
  }

  lemma ReadItemsOf(items: seq<ExtendedEventItem>)
    requires forall i :: i in items ==> ValidItem(i)
    ensures ReadItems(Flatten(items, EncodeItem)) == Ok(items, [])
  {
    forall i: ExtendedEventItem, rest: seq<byte> | ValidItem(i)
      ensures ReadItem(EncodeItem(i) + rest) == Ok(i, rest)
    {
      ReadEncodeItem(i, rest);
    }
    ItemReader();
    RepeatAboveOfFlatten(items, ReadItem, EncodeItem, ValidItem);
  }

  /** `MhExtendedEventDescriptor::read`: the two descriptor numbers share a
      byte; the items are read from a window of `length_of_items` bytes
      until it is used up. */
  function ReadExtendedEvent(s: seq<byte>): (r: Parsed<MhExtendedEventDescriptor>)
    ensures !r.Err?
    ensures r.Ok? ==> 1 <= |s| && r.value.descriptorNumber == s[0] / 0x10 && r.value.lastDescriptorNumber == s[0] % 0x10
  {
    var (head, s1) :- GetU8(s);
    var (lang, s2) :- SplitTo(s1, 3);
    var (window, s3) :- GetU16Prefixed(s2);
    var (items, _) :- ReadItems(window);
    var (text, s4) :- GetU16Prefixed(s3);
    Ok(MhExtendedEventDescriptor(head / 0x10, head % 0x10, lang, items, text), s4)
  }

  /** Whatever `ReadExtendedEvent` reads is a well-formed descriptor, and the
      bytes it consumed are exactly that descriptor's encoding. */
  lemma ReadExtendedEventReadsBack(s: seq<byte>)
    ensures ReadExtendedEvent(s).Ok? ==>
      ValidExtendedEvent(ReadExtendedEvent(s).value) &&
      s == EncodeExtendedEvent(ReadExtendedEvent(s).value) + ReadExtendedEvent(s).rest
  {
    var r := ReadExtendedEvent(s);
    if r.Ok? {
      var head, s1 := s[0], s[1..];
      var lang, s2 := s1[..3], s1[3..];
      GetU16PrefixedReadsBack(s2);
      var g := GetU16Prefixed(s2);
      var window, s3 := g.value, g.rest;
      var items := ReadItems(window).value;
      ReadItemsReadsBack(window);
      GetU16PrefixedReadsBack(s3);
      var t := GetU16Prefixed(s3);
      var text, s4 := t.value, t.rest;
      var d := MhExtendedEventDescriptor(head / 0x10, head % 0x10, lang, items, text);
      assert r == Ok(d, s4);
      assert s == [head] + (lang + (U16Field(window) + (U16Field(text) + s4))) by {
        assert s == [head] + s1;
        assert s1 == lang + s2;
      }
      ConcatAssoc([head], lang, U16Field(window) + (U16Field(text) + s4));
      ConcatAssoc([head] + lang, U16Field(window), U16Field(text) + s4);
      ConcatAssoc([head] + lang + U16Field(window), U16Field(text), s4);
      NibblesOfByte(head);
      EncodeExtendedEventOf(d, head, window);
    }
  }

  /** The encoding of `d` in terms of its head byte and item window. */
  lemma EncodeExtendedEventOf(d: MhExtendedEventDescriptor, head: byte, window: seq<byte>)
    requires d.descriptorNumber == head / 0x10 && d.lastDescriptorNumber == head % 0x10
    requires 0 <= head / 0x10 < 0x10 && head / 0x10 * 0x10 + head % 0x10 == head
    requires |d.iso639LanguageCode| == 3 && |d.text| < 0x1_0000 && |window| < 0x1_0000
    requires (forall i :: i in d.items ==> ValidItem(i)) && window == Flatten(d.items, EncodeItem)
    ensures ValidExtendedEvent(d)
    ensures EncodeExtendedEvent(d) == [head] + d.iso639LanguageCode + U16Field(window) + U16Field(d.text)
  {
    assert ValidExtendedEvent(d);
    var h := d.descriptorNumber * 0x10 + d.lastDescriptorNumber;
    assert h == head;
    assert [h] == [head];
    assert EncodeExtendedEvent(d) == [h] + d.iso639LanguageCode + U16Field(Flatten(d.items, EncodeItem)) + U16Field(d.text);
  }

  lemma NibblesOfByte(b: byte)
    ensures 0 <= b / 0x10 < 0x10 && b / 0x10 * 0x10 + b % 0x10 == b
  {
  }

  lemma NumberNibbles(hi: int, lo: int)
    requires 0 <= hi < 0x10 && 0 <= lo < 0x10
    ensures (hi * 0x10 + lo) / 0x10 == hi && (hi * 0x10 + lo) % 0x10 == lo
  {
  }

  lemma ReadEncodeExtendedEvent(d: MhExtendedEventDescriptor, rest: seq<byte>)
    requires ValidExtendedEvent(d)
    ensures ReadExtendedEvent(EncodeExtendedEvent(d) + rest) == Ok(d, rest)
  {
    var window := Flatten(d.items, EncodeItem);
    var tail2 := U16Field(d.text) + rest;
    var tail1 := U16Field(window) + tail2;
    var head := d.descriptorNumber * 0x10 + d.lastDescriptorNumber;
    NumberNibbles(d.descriptorNumber, d.lastDescriptorNumber);
    var e := EncodeExtendedEvent(d);
    assert e == [head] + d.iso639LanguageCode + U16Field(window) + U16Field(d.text);
    ConcatAssoc([head] + d.iso639LanguageCode + U16Field(window), U16Field(d.text), rest);
    ConcatAssoc([head] + d.iso639LanguageCode, U16Field(window), tail2);
    ConcatAssoc([head], d.iso639LanguageCode, tail1);
    assert e + rest == [head] + (d.iso639LanguageCode + tail1);
    GetU8Of(head, d.iso639LanguageCode + tail1);
    SplitToOf(d.iso639LanguageCode, tail1);
    GetU16PrefixedOf(window, tail2);
    ReadItemsOf(d.items);
    GetU16PrefixedOf(d.text, rest);
  }

  // ---------------------------------------------------------------------
  // Broadcaster, service and broadcast id descriptors

  datatype MhBroadcasterNameDescriptor = MhBroadcasterNameDescriptor(name: seq<byte>)

  /** `MhBroadcasterNameDescriptor::read`: the name is the whole body, and
      `to_vec` leaves the cursor where it was. */
  function ReadBroadcasterName(s: seq<byte>): Parsed<MhBroadcasterNameDescriptor>
  {
    Ok(MhBroadcasterNameDescriptor(s), s)
  }

  datatype MhServiceDescriptor = MhServiceDescriptor(
    serviceType: byte,
    serviceProviderName: seq<byte>,
    serviceName: seq<byte>)

  predicate ValidService(d: MhServiceDescriptor)
  {
    |d.serviceProviderName| < 0x100 && |d.serviceName| < 0x100
  }

  function EncodeService(d: MhServiceDescriptor): seq<byte>
    requires ValidService(d)
  {
    [d.serviceType] + U8Field(d.serviceProviderName) + U8Field(d.serviceName)
  }

  /** `MhServiceDescriptor::read`: a service type, then a provider name and
      a service name, each behind a one-byte length. */
  function ReadService(s: seq<byte>): (r: Parsed<MhServiceDescriptor>)
    ensures !r.Err?
    ensures r.Ok? ==> ValidService(r.value) && s == EncodeService(r.value) + r.rest
  {
    var (serviceType, s1) :- GetU8(s);
    var (provider, s2) :- GetU8Prefixed(s1);
    var (name, s3) :- GetU8Prefixed(s2);
    var d := MhServiceDescriptor(serviceType, provider, name);
    assert ValidService(d);
    assert s == [serviceType] + s1;
    ConcatAssoc([serviceType], U8Field(provider), U8Field(name) + s3);
    ConcatAssoc([serviceType] + U8Field(provider), U8Field(name), s3);
    Ok(d, s3)
  }

  lemma ReadEncodeService(d: MhServiceDescriptor, rest: seq<byte>)
    requires ValidService(d)
    ensures ReadService(EncodeService(d) + rest) == Ok(d, rest)
  {
    var tail2 := U8Field(d.serviceName) + rest;
    var tail1 := U8Field(d.serviceProviderName) + tail2;
    ConcatAssoc([d.serviceType] + U8Field(d.serviceProviderName), U8Field(d.serviceName), rest);
    ConcatAssoc([d.serviceType], U8Field(d.serviceProviderName), tail2);
    assert EncodeService(d) + rest == [d.serviceType] + tail1;
    GetU8Of(d.serviceType, tail1);
    GetU8PrefixedOf(d.serviceProviderName, tail2);
    GetU8PrefixedOf(d.serviceName, rest);
  }

  datatype MhBroadcastIdDescriptor = MhBroadcastIdDescriptor(
    originalNetworkId: u16,
    tlvStreamId: u16,
    eventId: u16,
    broadcasterId: byte)

  function EncodeBroadcastId(d: MhBroadcastIdDescriptor): (s: seq<byte>)
    ensures |s| == 7
  {
    U16Bytes(d.originalNetworkId) + U16Bytes(d.tlvStreamId) + U16Bytes(d.eventId) + [d.broadcasterId]
  }

  /** `MhBroadcastIdDescriptor::read`: three u16 ids and a u8. */
  function ReadBroadcastId(s: seq<byte>): (r: Parsed<MhBroadcastIdDescriptor>)
    ensures r.Ok? <==> 7 <= |s|
    ensures !r.Ok? ==> r.Panic?
    ensures r.Ok? ==> s == EncodeBroadcastId(r.value) + r.rest
  {
    if |s| < 7 then Panic
    else
      var d := MhBroadcastIdDescriptor(Be16(s[..2]), Be16(s[2..4]), Be16(s[4..6]), s[6]);
      assert s == EncodeBroadcastId(d) + s[7..] by {
        U16BytesOfBe16(s[..2]);
        U16BytesOfBe16(s[2..4]);
        U16BytesOfBe16(s[4..6]);
        assert s == s[..2] + s[2..4] + s[4..6] + [s[6]] + s[7..];
      }
      Ok(d, s[7..])
  }

  lemma ReadEncodeBroadcastId(d: MhBroadcastIdDescriptor, rest: seq<byte>)
    ensures ReadBroadcastId(EncodeBroadcastId(d) + rest) == Ok(d, rest)
  {
    var s := EncodeBroadcastId(d) + rest;
    assert s[..2] == U16Bytes(d.originalNetworkId);
    assert s[2..4] == U16Bytes(d.tlvStreamId);
    assert s[4..6] == U16Bytes(d.eventId);
    assert s[6] == d.broadcasterId && s[7..] == rest;
  }

  // ---------------------------------------------------------------------
  // Descriptor framing and dispatch

  datatype DescriptorTag =
    | MpuTimestampTag                // 0x0001
    | MpuExtendedTimestampTag        // 0x8026
    | MhBroadcasterNameTag           // 0x8018
    | MhServiceTag                   // 0x8019
    | MhShortEventTag                // 0xF001
    | MhExtendedEventTag             // 0xF002
    | MhBroadcastIdTag               // 0xF005

  function TagCode(t: DescriptorTag): u16
  {
    match t
    case MpuTimestampTag => 0x0001
    case MpuExtendedTimestampTag => 0x8026
    case MhBroadcasterNameTag => 0x8018
    case MhServiceTag => 0x8019
    case MhShortEventTag => 0xF001
    case MhExtendedEventTag => 0xF002
    case MhBroadcastIdTag => 0xF005
  }

  /** `DescriptorTag::from_repr`. */
  function TagFromRepr(code: u16): (r: Option<DescriptorTag>)
    ensures r.Some? ==> TagCode(r.value) == code
    ensures r.None? ==> forall t :: TagCode(t) != code
  {
    if code == 0x0001 then Some(MpuTimestampTag)
    else if code == 0x8026 then Some(MpuExtendedTimestampTag)
    else if code == 0x8018 then Some(MhBroadcasterNameTag)
    else if code == 0x8019 then Some(MhServiceTag)
    else if code == 0xF001 then Some(MhShortEventTag)
    else if code == 0xF002 then Some(MhExtendedEventTag)
    else if code == 0xF005 then Some(MhBroadcastIdTag)
    else None
  }

  lemma TagFromReprOfCode(t: DescriptorTag)
    ensures TagFromRepr(TagCode(t)) == Some(t)
  {
  }

  /** Width in bytes of the `descriptor_length` field, chosen by the tag's
      range: 0x0000-0x3FFF one byte, 0x4000-0x6FFF two, 0x7000-0x7FFF four,
      0x8000-0xEFFF one, 0xF000-0xFFFF two. */
  function LengthFieldSize(tag: u16): (n: nat)
    ensures n == 1 || n == 2 || n == 4
  {
    if tag <= 0x3FFF then 1
    else if tag <= 0x6FFF then 2
    else if tag <= 0x7FFF then 4
    else if tag <= 0xEFFF then 1
    else 2
  }

  /** Largest body length a length field of `size` bytes can hold, plus one. */
  function LengthLimit(size: nat): nat
  {
    if size == 1 then 0x100 else if size == 2 then 0x1_0000 else 0x1_0000_0000
  }

  /** Reads a `descriptor_length` field of `size` bytes. */
  function GetLength(s: seq<byte>, size: nat): (r: Parsed<nat>)
    requires size == 1 || size == 2 || size == 4
    ensures r.Ok? <==> size <= |s|
    ensures !r.Ok? ==> r.Panic?
    ensures r.Ok? ==> r.value < LengthLimit(size) && r.rest == s[size..]
  {
    if size == 1 then GetU8(s)
    else if size == 2 then GetU16(s)
    else GetU32(s)
  }

  lemma GetLengthReadsBack(s: seq<byte>, size: nat)
    requires size == 1 || size == 2 || size == 4
    ensures GetLength(s, size).Ok? ==> s == LengthBytes(size, GetLength(s, size).value) + GetLength(s, size).rest
  {
    if size <= |s| {
      assert s == s[..size] + s[size..];
      if size == 2 {
        U16BytesOfBe16(s[..2]);
      } else if size == 4 {
        U32BytesOfBe32(s[..4]);
      }
    }
  }

  function LengthBytes(size: nat, n: nat): (s: seq<byte>)
    requires size == 1 || size == 2 || size == 4
    requires n < LengthLimit(size)
    ensures |s| == size
  {
    if size == 1 then [n] else if size == 2 then U16Bytes(n) else U32Bytes(n)
  }

  lemma GetLengthOf(size: nat, n: nat, rest: seq<byte>)
    requires size == 1 || size == 2 || size == 4
    requires n < LengthLimit(size)
    ensures GetLength(LengthBytes(size, n) + rest, size) == Ok(n, rest)
  {
    if size == 1 {
      GetU8Of(n, rest);
    } else if size == 2 {
      GetU16Of(n, rest);
    } else {
      GetU32Of(n, rest);
    }
  }

  /** A tag and a body that fits the length field the tag selects. */
  predicate ValidFrame(tag: u16, body: seq<byte>)
  {
    |body| < LengthLimit(LengthFieldSize(tag))
  }

  /** The bytes of one descriptor: tag, length, body. */
  function Frame(tag: u16, body: seq<byte>): seq<byte>
    requires ValidFrame(tag, body)
  {
    U16Bytes(tag) + LengthBytes(LengthFieldSize(tag), |body|) + body
  }

  /** The framing part of `Descriptor::read`: the tag, the length field its
      range selects, and `split_to` of that many bytes. */
  function ReadFrame(s: seq<byte>): (r: Parsed<(u16, seq<byte>)>)
    ensures !r.Err?
    ensures r.Ok? ==> ValidFrame(r.value.0, r.value.1)
  {
    var (tag, s1) :- GetU16(s);
    var (length, s2) :- GetLength(s1, LengthFieldSize(tag));
    var (body, s3) :- SplitTo(s2, length);
    Ok((tag, body), s3)
  }

  /** The bytes `ReadFrame` consumed are the frame of the tag and body it
      returns. */
  lemma ReadFrameReadsBack(s: seq<byte>)
    ensures ReadFrame(s).Ok? ==> s == Frame(ReadFrame(s).value.0, ReadFrame(s).value.1) + ReadFrame(s).rest
  {
    var r := ReadFrame(s);
    if r.Ok? {
      var tag, s1 := Be16(s[..2]), s[2..];
      var size := LengthFieldSize(tag);
      GetLengthReadsBack(s1, size);
      var g := GetLength(s1, size);
      var length, s2 := g.value, g.rest;
      var body, s3 := s2[..length], s2[length..];
      assert r == Ok((tag, body), s3);
      U16BytesOfBe16(s[..2]);
      assert s == U16Bytes(tag) + s1 by {
        assert s == s[..2] + s1;
      }
      assert s2 == body + s3;
      ConcatAssoc(U16Bytes(tag), LengthBytes(size, length), body + s3);
      ConcatAssoc(U16Bytes(tag) + LengthBytes(size, length), body, s3);
    }
  }

  lemma ReadFrameOf(tag: u16, body: seq<byte>, rest: seq<byte>)
    requires ValidFrame(tag, body)
    ensures ReadFrame(Frame(tag, body) + rest) == Ok((tag, body), rest)
  {
    var size := LengthFieldSize(tag);
    var tail := LengthBytes(size, |body|) + (body + rest);
    ConcatAssoc(U16Bytes(tag) + LengthBytes(size, |body|), body, rest);
    ConcatAssoc(U16Bytes(tag), LengthBytes(size, |body|), body + rest);
    assert Frame(tag, body) + rest == U16Bytes(tag) + tail;
    GetU16Of(tag, tail);
    GetLengthOf(size, |body|, body + rest);
    SplitToOf(body, rest);
  }

  datatype Descriptor =
    | MpuTimestampBody(timestamp: MpuTimestampDescriptor)
    | MpuExtendedTimestampBody(extendedTimestamp: MpuExtendedTimestampDescriptor)
    | MhBroadcasterNameBody(broadcasterName: MhBroadcasterNameDescriptor)
    | MhServiceBody(service: MhServiceDescriptor)
    | MhShortEventBody(shortEvent: MhShortEventDescriptor)
    | MhExtendedEventBody(extendedEvent: MhExtendedEventDescriptor)
    | MhBroadcastIdBody(broadcastId: MhBroadcastIdDescriptor)
    | Unknown(tag: u16, body: seq<byte>)

  /** The body reader a known tag selects, run on the body alone; what
      the reader left unread of the body is dropped. */
  function ReadBody(tag: DescriptorTag, body: seq<byte>): (r: Outcome<Descriptor>)
  {
    match tag
    case MpuTimestampTag =>
      (match ReadMpuTimestampDescriptor(body)
       case Ok(v, _) => Success(MpuTimestampBody(v))
       case Err(k) => Failure(k)
       case Panic => Abort)
    case MpuExtendedTimestampTag =>
      (match ReadMpuExtendedTimestampDescriptor(body)
       case Ok(v, _) => Success(MpuExtendedTimestampBody(v))
       case Err(k) => Failure(k)
       case Panic => Abort)
    case MhBroadcasterNameTag =>
      (match ReadBroadcasterName(body)
       case Ok(v, _) => Success(MhBroadcasterNameBody(v))
       case Err(k) => Failure(k)
       case Panic => Abort)
    case MhServiceTag =>
      (match ReadService(body)
       case Ok(v, _) => Success(MhServiceBody(v))
       case Err(k) => Failure(k)
       case Panic => Abort)
    case MhShortEventTag =>
      (match ReadShortEvent(body)
       case Ok(v, _) => Success(MhShortEventBody(v))
       case Err(k) => Failure(k)
       case Panic => Abort)
    case MhExtendedEventTag =>
      (match ReadExtendedEvent(body)
       case Ok(v, _) => Success(MhExtendedEventBody(v))
       case Err(k) => Failure(k)
       case Panic => Abort)
    case MhBroadcastIdTag =>
      (match ReadBroadcastId(body)
       case Ok(v, _) => Success(MhBroadcastIdBody(v))
       case Err(k) => Failure(k)
       case Panic => Abort)
  }

  /** `Descriptor::read`: the cursor always moves past the whole frame,
      however much of the body its reader used; an unknown tag keeps its
      body as read. */
  function ReadDescriptor(s: seq<byte>): (r: Parsed<Descriptor>)
    ensures !r.Err?
    ensures r.Ok? ==> ReadFrame(s).Ok? && r.rest == ReadFrame(s).rest
    ensures ReadFrame(s).Ok? && TagFromRepr(ReadFrame(s).value.0).None? ==>
      r == Ok(Unknown(ReadFrame(s).value.0, ReadFrame(s).value.1), ReadFrame(s).rest)
  {
    var (frame, rest) :- ReadFrame(s);
    var (tag, body) := frame;
    match TagFromRepr(tag)
    case None => Ok(Unknown(tag, body), rest)
    case Some(t) =>
      match ReadBody(t, body)
      case Success(d) => Ok(d, rest)
      case Failure(k) => Err(k)
      case Abort => Panic
  }

  /** A frame is read as a whole: the outcome depends on the tag and the
      body only, and the rest is what follows the frame. */
  lemma ReadDescriptorOfFrame(tag: u16, body: seq<byte>, rest: seq<byte>)
    requires ValidFrame(tag, body)
    ensures TagFromRepr(tag).None? ==> ReadDescriptor(Frame(tag, body) + rest) == Ok(Unknown(tag, body), rest)
    ensures TagFromRepr(tag).Some? ==>
      var b := ReadBody(TagFromRepr(tag).value, body);
      ReadDescriptor(Frame(tag, body) + rest) == if b.Success? then Ok(b.value, rest) else Panic
  {
    ReadFrameOf(tag, body, rest);
  }

  /** Each read descriptor consumes a whole frame of at least three bytes,
      so the `while has_remaining` descriptor loops end. */
  lemma DescriptorReader()
    ensures Advances(ReadDescriptor)
    ensures forall s :: !ReadDescriptor(s).Err?
  {
    forall s | ReadDescriptor(s).Ok?
      ensures |ReadDescriptor(s).rest| < |s| && IsSuffix(ReadDescriptor(s).rest, s)
    {
      ReadFrameReadsBack(s);
      var f := ReadFrame(s);
      var e := Frame(f.value.0, f.value.1);
      assert s == e + f.rest && |e| >= 3;
      assert s[|s| - |f.rest|..] == f.rest;
    }
  }

  /** The descriptors this model can write back: every body fits its
      length field, and an unknown tag is one `from_repr` does not know.
      The extended timestamp descriptor is not among them, since the
      default `pts_offset` it was read with is not kept. */
  predicate Writable(d: Descriptor)
  {
    match d
    case MpuTimestampBody(t) => ValidFrame(0x0001, Flatten(t.timestamps, EncodeMpuTimestamp))
    case MpuExtendedTimestampBody(_) => false
    case MhBroadcasterNameBody(b) => ValidFrame(0x8018, b.name)
    case MhServiceBody(v) => ValidService(v) && ValidFrame(0x8019, EncodeService(v))
    case MhShortEventBody(v) => ValidShortEvent(v) && ValidFrame(0xF001, EncodeShortEvent(v))
    case MhExtendedEventBody(v) => ValidExtendedEvent(v) && ValidFrame(0xF002, EncodeExtendedEvent(v))
    case MhBroadcastIdBody(v) => ValidFrame(0xF005, EncodeBroadcastId(v))
    case Unknown(tag, body) => TagFromRepr(tag).None? && ValidFrame(tag, body)
  }

  function EncodeDescriptor(d: Descriptor): seq<byte>
    requires Writable(d)
  {
    match d
    case MpuTimestampBody(t) => Frame(0x0001, Flatten(t.timestamps, EncodeMpuTimestamp))
    case MhBroadcasterNameBody(b) => Frame(0x8018, b.name)
    case MhServiceBody(v) => Frame(0x8019, EncodeService(v))
    case MhShortEventBody(v) => Frame(0xF001, EncodeShortEvent(v))
    case MhExtendedEventBody(v) => Frame(0xF002, EncodeExtendedEvent(v))
    case MhBroadcastIdBody(v) => Frame(0xF005, EncodeBroadcastId(v))
    case Unknown(tag, body) => Frame(tag, body)
  }

  /** A known tag's frame reads as what its body reader returns. */
  lemma ReadKnownFrame(code: u16, tag: DescriptorTag, body: seq<byte>, rest: seq<byte>, d: Descriptor)
    requires code == TagCode(tag)
    requires ValidFrame(code, body) && ReadBody(tag, body) == Success(d)
    ensures ReadDescriptor(Frame(code, body) + rest) == Ok(d, rest)
  {
    TagFromReprOfCode(tag);
    ReadDescriptorOfFrame(code, body, rest);
  }

  lemma ReadEncodeTimestampFrame(t: MpuTimestampDescriptor, rest: seq<byte>)
    requires ValidFrame(0x0001, Flatten(t.timestamps, EncodeMpuTimestamp))
    ensures ReadDescriptor(Frame(0x0001, Flatten(t.timestamps, EncodeMpuTimestamp)) + rest) == Ok(MpuTimestampBody(t), rest)
  {
    ReadEncodeMpuTimestampDescriptor(t.timestamps);
    assert ReadBody(MpuTimestampTag, Flatten(t.timestamps, EncodeMpuTimestamp)) == Success(MpuTimestampBody(t));
    ReadKnownFrame(0x0001, MpuTimestampTag, Flatten(t.timestamps, EncodeMpuTimestamp), rest, MpuTimestampBody(t));
  }

  lemma ServiceBody(v: MhServiceDescriptor)
    requires ValidService(v)
    ensures ReadBody(MhServiceTag, EncodeService(v)) == Success(MhServiceBody(v))
  {
    ReadEncodeService(v, []);
    assert EncodeService(v) + [] == EncodeService(v);
  }

  lemma ReadEncodeServiceFrame(v: MhServiceDescriptor, rest: seq<byte>)
    requires ValidService(v) && ValidFrame(0x8019, EncodeService(v))
    ensures ReadDescriptor(Frame(0x8019, EncodeService(v)) + rest) == Ok(MhServiceBody(v), rest)
  {
    ServiceBody(v);
    ReadKnownFrame(0x8019, MhServiceTag, EncodeService(v), rest, MhServiceBody(v));
  }

  lemma ShortEventBody(v: MhShortEventDescriptor)
    requires ValidShortEvent(v)
    ensures ReadBody(MhShortEventTag, EncodeShortEvent(v)) == Success(MhShortEventBody(v))
  {
    ReadEncodeShortEvent(v, []);
    assert EncodeShortEvent(v) + [] == EncodeShortEvent(v);
  }

  lemma ReadEncodeShortEventFrame(v: MhShortEventDescriptor, rest: seq<byte>)
    requires ValidShortEvent(v) && ValidFrame(0xF001, EncodeShortEvent(v))
    ensures ReadDescriptor(Frame(0xF001, EncodeShortEvent(v)) + rest) == Ok(MhShortEventBody(v), rest)
  {
    ShortEventBody(v);
    ReadKnownFrame(0xF001, MhShortEventTag, EncodeShortEvent(v), rest, MhShortEventBody(v));
  }

  lemma ExtendedEventBody(body: seq<byte>)
    ensures ReadExtendedEvent(body).Ok? ==>
      ReadBody(MhExtendedEventTag, body) == Success(MhExtendedEventBody(ReadExtendedEvent(body).value))
  {

  }

  lemma ReadExtendedEventFrame(body: seq<byte>, rest: seq<byte>)
    requires ValidFrame(0xF002, body) && ReadExtendedEvent(body).Ok?
    ensures ReadDescriptor(Frame(0xF002, body) + rest) == Ok(MhExtendedEventBody(ReadExtendedEvent(body).value), rest)
  {
    ExtendedEventBody(body);
    ReadKnownFrame(0xF002, MhExtendedEventTag, body, rest, MhExtendedEventBody(ReadExtendedEvent(body).value));
  }

  lemma ReadEncodeExtendedEventFrame(v: MhExtendedEventDescriptor, rest: seq<byte>)
    requires ValidExtendedEvent(v) && ValidFrame(0xF002, EncodeExtendedEvent(v))
    ensures ReadDescriptor(Frame(0xF002, EncodeExtendedEvent(v)) + rest) == Ok(MhExtendedEventBody(v), rest)
  {
    ReadEncodeExtendedEvent(v, []);
    var body := EncodeExtendedEvent(v);
    assert body + [] == body;
    ReadExtendedEventFrame(body, rest);
  }

  /** A broadcaster-name frame is read as a name holding its whole body.
      The reader does not move the body's cursor, but `Descriptor::read`
      moves the outer one past the frame, so exactly what follows the frame
      is left. */
  lemma ReadBroadcasterNameFrame(name: seq<byte>, rest: seq<byte>)
    requires ValidFrame(0x8018, name)
    ensures ReadDescriptor(Frame(0x8018, name) + rest) ==
      Ok(MhBroadcasterNameBody(MhBroadcasterNameDescriptor(name)), rest)
  {
    var d := MhBroadcasterNameBody(MhBroadcasterNameDescriptor(name));
    assert ReadBody(MhBroadcasterNameTag, name) == Success(d);
    ReadKnownFrame(0x8018, MhBroadcasterNameTag, name, rest, d);
  }

  lemma BroadcastIdBody(v: MhBroadcastIdDescriptor)
    ensures ReadBody(MhBroadcastIdTag, EncodeBroadcastId(v)) == Success(MhBroadcastIdBody(v))
  {
    ReadEncodeBroadcastId(v, []);
    assert EncodeBroadcastId(v) + [] == EncodeBroadcastId(v);
  }

  lemma ReadEncodeBroadcastIdFrame(v: MhBroadcastIdDescriptor, rest: seq<byte>)
    requires ValidFrame(0xF005, EncodeBroadcastId(v))
    ensures ReadDescriptor(Frame(0xF005, EncodeBroadcastId(v)) + rest) == Ok(MhBroadcastIdBody(v), rest)
  {
    BroadcastIdBody(v);
    ReadKnownFrame(0xF005, MhBroadcastIdTag, EncodeBroadcastId(v), rest, MhBroadcastIdBody(v));
  }

  /** Every writable descriptor reads back as itself, with the bytes after
      its frame left unread. */
  lemma ReadEncodeDescriptor(d: Descriptor, rest: seq<byte>)
    requires Writable(d)
    ensures ReadDescriptor(EncodeDescriptor(d) + rest) == Ok(d, rest)
  {
    match d
    case MpuTimestampBody(t) =>
      ReadEncodeTimestampFrame(t, rest);
    case MhBroadcasterNameBody(b) =>
      ReadBroadcasterNameFrame(b.name, rest);
    case MhServiceBody(v) =>
      ReadEncodeServiceFrame(v, rest);
    case MhShortEventBody(v) =>
      ReadEncodeShortEventFrame(v, rest);
    case MhExtendedEventBody(v) =>
      ReadEncodeExtendedEventFrame(v, rest);
    case MhBroadcastIdBody(v) =>
      ReadEncodeBroadcastIdFrame(v, rest);
    case Unknown(tag, body) =>
      ReadDescriptorOfFrame(tag, body, rest);
  }
  // ---------------------------------------------------------------------
  // Descriptor loops

  /** A descriptor as bytes: its frame when it has one.  A descriptor that
      cannot be written is given a single zero byte only so that the
      encoder is total; no lemma reads it back. */
  function DescriptorBytes(d: Descriptor): (s: seq<byte>)
    ensures |s| > 0
    ensures Writable(d) ==> s == EncodeDescriptor(d)
  {
    if Writable(d) then EncodeDescriptor(d) else [0]
  }

  /** The `while bytes.has_remaining()` descriptor loop of the tables, over
      a window its caller has already split off: it never returns an io
      error, and a loop that succeeds has used its whole window. */
  function ReadDescriptorLoop(window: seq<byte>): (r: Parsed<seq<Descriptor>>)
    ensures !r.Err?
    ensures r.Ok? ==> r.rest == []
  {
    DescriptorReader();
    RepeatAboveNeverErr(window, 0, ReadDescriptor);
    RepeatAbove(window, 0, ReadDescriptor)
  }

  lemma DescriptorInvertsAt(v: Descriptor)
    requires Writable(v)
    ensures InvertsAt(ReadDescriptor, DescriptorBytes, v)
  {
    forall rest
      ensures ReadDescriptor(DescriptorBytes(v) + rest) == Ok(v, rest) && |DescriptorBytes(v)| > 0
    {
      ReadEncodeDescriptor(v, rest);
    }
  }

  /** Every writable descriptor, read after any bytes, is read back. */
  lemma DescriptorInverts()
    ensures Inverts(ReadDescriptor, DescriptorBytes, Writable)
  {
    forall v | Writable(v)
      ensures InvertsAt(ReadDescriptor, DescriptorBytes, v)
    {
      DescriptorInvertsAt(v);
    }
  }

  /** A window holding the frames of writable descriptors reads back as
      those descriptors, in order. */
  lemma ReadDescriptorLoopOf(ds: seq<Descriptor>)
    requires forall d :: d in ds ==> Writable(d)
    ensures ReadDescriptorLoop(Flatten(ds, DescriptorBytes)) == Ok(ds, [])
  {
    DescriptorInverts();
    DescriptorReader();
    RepeatAboveOfFlatten(ds, ReadDescriptor, DescriptorBytes, Writable);
  }
}
