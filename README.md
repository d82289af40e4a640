# chibitv back end, modelled in Dafny

chibitv receives an ISDB-S broadcast (MMT/TLV, ARIB STD-B60) as a stream of TLV packets. It splits
the stream into MMT media and signalling, rebuilds HEVC and AAC access units,
and remuxes them into an MPEG-2 transport stream. It also keeps a registry of
broadcasters, services and events that a small REST layer serves. This project
models the sequential logic of that back end and proves properties of it. It
covers the wire-format parsers of the `chibitv_b60` crate, and from the
`chibitv` crate the demultiplexer, the HEVC splitter, the TS muxer, the
remuxer's routing, the registry, the workspace lookups and the REST model
mapping.

One module stands for each source file:

| module | file | form |
|---|---|---|
| `Wire` | `read_ext.rs`, plus the `bytes`/`byteorder` getters the parsers use | cursor reads as functions from bytes to `Parsed<T>`; the `while`/`for` loop shapes as two combinators with loop methods proved equal to them |
| `Tlv`, `CompressedIp`, `Mmtp`, `Mfu`, `Messages`, `Tables`, `Sections`, `Descriptors` | `tlv.rs`, `compressed_ip.rs`, `mmtp.rs`, `mfu.rs`, `message.rs`, `table.rs`, `descriptor.rs` | readers as functions returning `Ok(value, rest)`, `Err(kind)` or `Panic`, each with an encoder and a round trip |
| `Deflag` | `deflag.rs` | the `Defragmenter` class over a step function on snapshots |
| `Hevc` | `hevc.rs` | the `HevcParser` class; `find_next_frame` is a loop over an eight-byte window |
| `Mmt` | `mmt.rs` | the `MmtDemuxer` class over a `Demux` value and stage functions |
| `M2ts` | `m2ts.rs` | the `M2tsMuxer` class; the TS output is the list of packets written |
| `Remux` | `remux.rs` | the `Remuxer` class over the routing, event-signalling and registration steps |
| `Registry` | `registry.rs` | the `Registry` class over plain maps |
| `Workspace`, `Server` | `workspace.rs`, `server.rs` | pure lookups, conversions and status mapping |

Conventions:

- A Rust panic is a distinct outcome (`Panic` in the parsers, `None` or `false`
  in the stateful parts). This covers `unwrap`, `assert!`, `todo!`,
  `unimplemented!`, and `Bytes::get_*` or `split_to` on a short buffer. The
  model keeps io and `InvalidData` errors apart from panics.
- A class method is proved against a function of the old state, and the
  properties are stated as lemmas about that function.
- I/O, the clock and the transmission time of access units are parameters.
  The PAT/PMT cadence test is a parameter too, so every muxer and remuxer
  property holds for the test as written and for the corrected one.
- Where the code and its documentation disagree, the model follows the code
  and lists the difference under "## Findings". Each finding has the reading
  as written next to the corrected one.
- The two parser findings (`table.rs:202-207` and `table.rs:814`) are the
  exception to following the code. The composite readers build on the
  corrected `Tables.ReadMmtIpDelivery` and `Sections.ReadTable`:
  `Tables.ReadPlt`, `Messages.ReadPaMessage`, `Messages.ReadM2SectionMessage`
  and `Messages.ReadMessage`, and so the demultiplexer. "## Left out" names
  each member this affects. Lemmas state where the two readings agree.
- Arithmetic on `u16` length fields is taken as a debug build runs it, and
  an underflow or overflow is a panic. The sites are `payload_length - 6`
  (`mmtp.rs:117`), `data_unit_length - 14` (`mfu.rs:74`),
  `data_unit_length - 4` (`mfu.rs:112`) and `data_unit_length + 2`
  (`mfu.rs:87`, `mfu.rs:117`).

## Model

| member | source | states |
|---|---|---|
| Wire.GetByteArray | crates/chibitv_b60/src/read_ext.rs:18-21 | `get_byte_array::<N>` splits off exactly the first `n` bytes and leaves the rest |
| Wire.GetIpv4Addr | crates/chibitv_b60/src/read_ext.rs:8-10 | the address is the first four bytes, its 32-bit value big-endian |
| Wire.GetIpv6Addr | crates/chibitv_b60/src/read_ext.rs:12-14 | the address is the first sixteen bytes, the rest is left |
| Wire.GetByteArrayTwice | crates/chibitv_b60/src/read_ext.rs:18-21 | reading `n` then `m` bytes equals reading `n + m` and splitting at `n`: the cursor walks down suffixes |
| Wire.ReadWhileAbove | crates/chibitv_b60/src/table.rs:472-474 | the `while remaining() > floor` / `while has_remaining()` loop returns exactly what the recursive reading `RepeatAbove` returns, every item in order |
| Wire.ReadTimes | crates/chibitv_b60/src/table.rs:341-343 | the `for _ in 0..n` loop returns exactly `RepeatCount`: `n` items or the first failure |
| Wire.RepeatAbove | crates/chibitv_b60/src/descriptor.rs:35-37 | a successful loop leaves a suffix of its input, at most `floor` bytes of it; nothing is read when the input is already that short |
| Wire.RepeatCount | crates/chibitv_b60/src/message.rs:34-36 | a successful loop reads exactly `n` items and consumes at least one byte per item |
| Wire.RepeatAboveFlatten | crates/chibitv_b60/src/descriptor.rs:35-37 | a successful `has_remaining` loop consumes its whole input, which is the items' encodings one after the other |
| Wire.RepeatAboveOfFlatten | crates/chibitv_b60/src/descriptor.rs:35-37 | the loop reads back every list of valid items written one after the other |
| Wire.RepeatAboveOfFlattenTail | crates/chibitv_b60/src/table.rs:472-474 | with a 4-byte CRC after the items, the `remaining() > 4` loop reads the items back and stops at the CRC |
| Wire.RepeatCountFlatten | crates/chibitv_b60/src/table.rs:232-234 | a successful counted loop read `n` items written one after the other |
| Wire.RepeatCountOfFlatten | crates/chibitv_b60/src/table.rs:232-234 | the counted loop reads back any list of valid items and leaves what follows |
| Wire.RepeatAboveAll | crates/chibitv_b60/src/descriptor.rs:35-37 | every item of a loop satisfies what each single read promises |
| Wire.RepeatCountAll | crates/chibitv_b60/src/message.rs:34-36 | every item of a counted loop satisfies what each single read promises |
| Wire.RepeatAboveErrKind | crates/chibitv_b60/src/message.rs:47-49 | a loop over readers whose only io error is `k` fails with no other kind |
| Wire.RepeatCountErrKind | crates/chibitv_b60/src/message.rs:34-36 | the same for counted loops |
| Wire.RepeatAboveNeverErr | crates/chibitv_b60/src/table.rs:290-292 | a loop over readers that never return an io error never returns one (only panics) |
| Wire.RepeatCountNeverErr | crates/chibitv_b60/src/table.rs:281-283 | the same for counted loops |
| Tlv.PacketTypeFromRepr | crates/chibitv_b60/src/tlv.rs:7-15 | exactly the five listed type codes are known, each mapping back to its code |
| Tlv.PacketTypeRoundTrip | crates/chibitv_b60/src/tlv.rs:7-15 | every packet type is recovered from its code |
| Tlv.TryReadEncode | crates/chibitv_b60/src/tlv.rs:24-41 | `try_read` of a packet written as 0x7F, type, 16-bit length and data gives the packet back and leaves what follows |
| CompressedIp.HeaderTypeFromRepr | crates/chibitv_b60/src/compressed_ip.rs:9-16 | exactly the four header types are known, each mapping back to its code |
| CompressedIp.Ipv6FirstWord | crates/chibitv_b60/src/compressed_ip.rs:33-36 | the masks and shifts of the first word are the nibble cuts of its four bytes |
| CompressedIp.ReadPartialIpv6UdpHeader | crates/chibitv_b60/src/compressed_ip.rs:31-58 | succeeds exactly on 42 bytes or more whose version nibble is 6 (else the `assert_eq!`/`get_*` panic), and every field comes from its byte positions |
| CompressedIp.ReadEncodePartialIpv6UdpHeader | crates/chibitv_b60/src/compressed_ip.rs:31-58 | every header with version 6 is read back from its 42 bytes |
| CompressedIp.ReadHcfbPacket | crates/chibitv_b60/src/compressed_ip.rs:76-95 | never an io error; succeeds exactly for header type 0x61, or 0x60 with a valid IPv6/UDP header after it (0x20/0x21 reach `unimplemented!`, other bytes the `unwrap`); context id and sequence number are the 12/4-bit split of the first word; for 0x60 the header is what `ReadPartialIpv6UdpHeader` reads from the bytes after the type |
| CompressedIp.ReadEncodeHcfbPacket | crates/chibitv_b60/src/compressed_ip.rs:76-95 | every packet the reader can return is read back from its encoding |
| Mmtp.FecFromCode | crates/chibitv_b60/src/mmtp.rs:10-14 | each two-bit code below 3 names the FEC type that maps back to it |
| Mmtp.ReadPacketCounter | crates/chibitv_b60/src/mmtp.rs:50-54 | the counter is present exactly when flagged, read as a big-endian u32; a short buffer panics |
| Mmtp.ReadExtensionHeader | crates/chibitv_b60/src/mmtp.rs:55-62 | present exactly when flagged: type, 16-bit length and that many data bytes; a short buffer panics |
| Mmtp.ReadMmtpPacket | crates/chibitv_b60/src/mmtp.rs:36-75 | never an io error; a packet read is valid, its header fits the buffer, and its payload is everything after the header |
| Mmtp.ReadMmtpPacketAccepts | crates/chibitv_b60/src/mmtp.rs:37-62 | succeeds exactly when the version is 0, the FEC code is not 3 and the whole header (with the extension data) is there |
| Mmtp.ReadMmtpPacketFields | crates/chibitv_b60/src/mmtp.rs:37-54 | each field comes from its bits and bytes: flags, FEC type, payload type, packet id, timestamp, sequence number, counter |
| Mmtp.ReadEncodeMmtpPacket | crates/chibitv_b60/src/mmtp.rs:36-75 | every valid packet is read back from its encoding |
| Mmtp.IndicatorFromCode | crates/chibitv_b60/src/mmtp.rs:78-85 | every two-bit code names a fragmentation indicator, so `from_repr` there never fails |
| Mmtp.FragmentTypeFromCode | crates/chibitv_b60/src/mmtp.rs:87-93 | each code below 3 names the fragment type that maps back to it |
| Mmtp.ReadMpuFragment | crates/chibitv_b60/src/mmtp.rs:106-129 | io errors are only `UnexpectedEof`; it panics exactly on a fragment type above 2 or a `payload_length` below 6; it succeeds exactly when the header and `payload_length - 6` payload bytes are there, fields taken from their bits |
| Mmtp.ReadEncodeMpuFragment | crates/chibitv_b60/src/mmtp.rs:106-129 | every fragment is read back from its encoding, leaving what follows |
| Mmtp.ReadMessageLength | crates/chibitv_b60/src/mmtp.rs:160-164 | the length prefix is a u32 with `length_extension_flag`, a u16 otherwise; short input is `UnexpectedEof` |
| Mmtp.ReadAggregatedMessage | crates/chibitv_b60/src/mmtp.rs:160-174 | one message: its length prefix, then exactly that many bytes (a longer length fails the assertion) |
| Mmtp.ReadAggregatedMessageReadsBack | crates/chibitv_b60/src/mmtp.rs:160-174 | a message read sits behind its own length prefix |
| Mmtp.ReadAggregated | crates/chibitv_b60/src/mmtp.rs:159-175 | the loop runs to the end of the buffer; its only io error is `UnexpectedEof` |
| Mmtp.ReadAggregatedReadsBack | crates/chibitv_b60/src/mmtp.rs:159-175 | a successful loop cuts the buffer exactly into length-prefixed frames |
| Mmtp.ReadAggregatedOfFrames | crates/chibitv_b60/src/mmtp.rs:159-175 | framing any messages that fit their prefix and reading them back gives the same messages |
| Mmtp.ReadAggregatedLoop | crates/chibitv_b60/src/mmtp.rs:157-177 | the cursor loop returns exactly `ReadAggregated` of the buffer |
| Mmtp.ReadSignalingMessage | crates/chibitv_b60/src/mmtp.rs:146-189 | fewer than two bytes is `UnexpectedEof`; indicator and counter from the header; without aggregation the rest is the one message, with it the rest is the aggregated loop's messages |
| Mmtp.PayloadOf | crates/chibitv_b60/src/mmtp.rs:209-222 | payload type 0 is an MPU fragment, 2 a signalling message, 1 and 3 reach `todo!`, anything else is `InvalidData`; each read's outcome is passed on |
| Mfu.ReadTimedHeader | crates/chibitv_b60/src/mfu.rs:40-44 | the 14-byte timed header is read exactly when 14 bytes are there, else `UnexpectedEof` |
| Mfu.ReadTimedHeaderReadsBack | crates/chibitv_b60/src/mfu.rs:40-44 | the header read is the one its first 14 bytes encode |
| Mfu.ReadEncodeTimedHeader | crates/chibitv_b60/src/mfu.rs:40-44 | every header is read back from its encoding |
| Mfu.ReadTimedUnit | crates/chibitv_b60/src/mfu.rs:61-87 | one timed unit: io errors are `UnexpectedEof`; a unit read fits its length field and the buffer, and the cursor moves past `L + 2` bytes |
| Mfu.ReadTimedUnitReadsBack | crates/chibitv_b60/src/mfu.rs:61-87 | a unit read is laid out as its length, header and data |
| Mfu.ReadEncodeTimedUnit | crates/chibitv_b60/src/mfu.rs:61-87 | every unit that fits a u16 length is read back |
| Mfu.ReadNonTimedUnit | crates/chibitv_b60/src/mfu.rs:103-117 | one non-timed unit, with the same error kinds and layout |
| Mfu.ReadNonTimedUnitReadsBack | crates/chibitv_b60/src/mfu.rs:103-117 | a unit read is laid out as its length, item id and data |
| Mfu.ReadEncodeNonTimedUnit | crates/chibitv_b60/src/mfu.rs:103-117 | every unit that fits is read back |
| Mfu.ReadTimedUnits | crates/chibitv_b60/src/mfu.rs:60-88 | the timed loop runs to the end of the payload; its io errors are `UnexpectedEof` |
| Mfu.ReadTimedUnitsReadsBack | crates/chibitv_b60/src/mfu.rs:60-88 | on success the units tile the payload exactly, in order |
| Mfu.ReadEncodeTimedUnits | crates/chibitv_b60/src/mfu.rs:60-88 | any list of fitting units written one after the other is read back |
| Mfu.ReadNonTimedUnits | crates/chibitv_b60/src/mfu.rs:102-118 | the non-timed loop runs to the end of the payload |
| Mfu.ReadNonTimedUnitsReadsBack | crates/chibitv_b60/src/mfu.rs:102-118 | on success the units tile the payload exactly, in order |
| Mfu.ReadEncodeNonTimedUnits | crates/chibitv_b60/src/mfu.rs:102-118 | any list of fitting units is read back |
| Mfu.ReadTimedAggregatedLoop | crates/chibitv_b60/src/mfu.rs:58-90 | the `index` loop returns exactly `ReadTimedUnits` of the payload |
| Mfu.ReadNonTimedAggregatedLoop | crates/chibitv_b60/src/mfu.rs:100-120 | the `index` loop returns exactly `ReadNonTimedUnits` of the payload |
| Mfu.PayloadOf | crates/chibitv_b60/src/mfu.rs:34-122 | the two flags choose the variant; unaggregated layouts are a header then every remaining byte; aggregated ones are the unit loops; failures are `UnexpectedEof` |
| Deflag.SyncStepSpec | crates/chibitv_b60/src/deflag.rs:26-52 | the last sequence number always becomes the one seen; the first packet moves Init to Skip; a repeat or the next number keeps state and buffer; any other jump empties the buffer and skips; an empty buffer outside a fragment stays so |
| Deflag.PushStepSpec | crates/chibitv_b60/src/deflag.rs:56-114 | a payload comes out exactly for an unfragmented packet or a tail closing a fragment; a body or tail while skipping changes nothing; otherwise no byte is lost, invented or reordered, and the new state follows the indicator |
| Deflag.Defragmenter.constructor | crates/chibitv_b60/src/deflag.rs:14-19 | a new defragmenter is in Init with an empty buffer and sequence number 0 |
| Deflag.Defragmenter.CurrentState | crates/chibitv_b60/src/deflag.rs:22-24 | `state` reports the state field |
| Deflag.Defragmenter.Sync | crates/chibitv_b60/src/deflag.rs:26-52 | `sync` updates the fields as `SyncStep` says |
| Deflag.Defragmenter.Push | crates/chibitv_b60/src/deflag.rs:56-114 | `push` updates the fields and returns the payload as `PushStep` says |
| Deflag.FeedAppend | crates/chibitv_b60/src/deflag.rs:26-114 | feeding two runs of packets one after the other is feeding them together |
| Deflag.FeedBodies | crates/chibitv_b60/src/deflag.rs:82-96 | consecutive bodies inside a fragment only extend the buffer, in order |
| Deflag.FeedHead | crates/chibitv_b60/src/deflag.rs:71-81 | a head outside a fragment opens one holding the head's bytes |
| Deflag.FeedTail | crates/chibitv_b60/src/deflag.rs:97-112 | the next tail closes the fragment and hands out the buffer followed by its own bytes |
| Deflag.Reassemble | crates/chibitv_b60/src/deflag.rs:56-114 | a head, consecutive bodies and a tail come out as one payload: the head's bytes, the bodies' in order, then the tail's |
| Deflag.FeedConsistent | crates/chibitv_b60/src/deflag.rs:26-114 | after any run of packets the buffer is empty outside a fragment |
| Messages.ReadTableInfo | crates/chibitv_b60/src/message.rs:35-37 | a table-information entry panics exactly when fewer than four bytes remain; otherwise it is the id, the version and a native-endian length |
| Messages.TableInfoReader | crates/chibitv_b60/src/message.rs:35-37 | the entry reader advances, never fails with an io error, and inverts its encoder |
| Messages.ReadPaTablesWith | crates/chibitv_b60/src/message.rs:32-49 | the entries are read and then tables until the body is used up; a success uses the whole body and an io error is one the table reader returns |
| Messages.ReadPaTables | crates/chibitv_b60/src/message.rs:32-49 | (corrected table reader) a PA body's tables use the whole body, and its only io error is `InvalidData` |
| Messages.ReadPaBody | crates/chibitv_b60/src/message.rs:32-49 | (corrected table reader) the `for` loop over the entries and the `while has_remaining` loop over the tables compute exactly `ReadPaTables` |
| Messages.ReadPaTablesAsWritten | crates/chibitv_b60/src/message.rs:32-49 | (table reader as written) a success still uses the whole body |
| Messages.UnknownTableRereadAsWritten | crates/chibitv_b60/src/message.rs:47-49 | as written, the body 00 FE 20 panics: the byte after the unknown table id is read again as the id of an MPT |
| Messages.UnknownTableOnce | crates/chibitv_b60/src/message.rs:47-49 | with the unknown table consuming its bytes, the same body is one unknown table |
| Messages.ReadPaMessage | crates/chibitv_b60/src/message.rs:16-52 | (corrected readers) fewer than five bytes panic at the `unwrap`s; a body shorter than the declared length is `UnexpectedEof`; otherwise the body is exactly `length` bytes and what follows is left |
| Messages.ReadPaTablesOf | crates/chibitv_b60/src/message.rs:32-49 | (corrected readers) whatever the table-information entries say, a body holding one table reads back as that table |
| Messages.ReadPaTablesAsWrittenOf | crates/chibitv_b60/src/message.rs:32-49 | as written too, a body holding one table reads back as that table, unless it is an unknown table with bytes after its id |
| Messages.ReadEncodePaMessage | crates/chibitv_b60/src/message.rs:16-52 | (corrected readers) a PA message around one valid table is read back, with what follows it left |
| Messages.PaMessageOfBytes | crates/chibitv_b60/src/message.rs:16-52 | (corrected readers) a PA message reads back the tables of any body its table loop reads |
| Messages.ReadM2SectionMessage | crates/chibitv_b60/src/message.rs:62-73 | (corrected readers) a short header or a body shorter than the declared length is `UnexpectedEof`; otherwise the window is exactly `length` bytes, the version is the first byte and what follows is left |
| Messages.ReadEncodeM2SectionMessage | crates/chibitv_b60/src/message.rs:62-73 | (corrected readers) every M2 section message around a valid table is read back |
| Messages.M2SectionIgnoresTrailing | crates/chibitv_b60/src/message.rs:66-70 | (corrected readers) bytes after the table in the window are dropped: a PLT followed by anything in its window is read all the same |
| Messages.M2SectionOfBytes | crates/chibitv_b60/src/message.rs:62-73 | (corrected readers) an M2 section message reads whatever table its window starts with, whatever the table leaves of the window |
| Messages.ReadMessage | crates/chibitv_b60/src/message.rs:91-103 | (corrected readers) a short id is `UnexpectedEof`; an id other than 0x0000 and 0x8000 keeps everything after it; 0x0000 is a PA message and 0x8000 an M2 section message |
| Messages.ReadEncodeMessage | crates/chibitv_b60/src/message.rs:91-103 | (corrected readers) every valid message is read back from its bytes |
| Messages.MessageStep | crates/chibitv_b60/src/message.rs:91-103 | a message is what the reader its id selects reads from the bytes after the id |
| Tables.ParseBcd | crates/chibitv_b60/src/table.rs:431-433 | a BCD byte reads as ten times its high nibble plus its low nibble; the value fits a byte, and a valid BCD byte reads below 100 |
| Tables.ParseEncodeBcd | crates/chibitv_b60/src/table.rs:431-433 | every number below 100 is read back from its BCD byte |
| Tables.EncodeParseBcd | crates/chibitv_b60/src/table.rs:431-433 | every valid BCD byte is the encoding of the number it reads as |
| Tables.ParseDuration | crates/chibitv_b60/src/table.rs:419-429 | the duration is absent exactly when all three bytes are 0xFF |
| Tables.ParseEncodeDuration | crates/chibitv_b60/src/table.rs:419-429 | every duration below 100 hours is read back from its three BCD bytes, and so is "no duration" |
| Tables.ParseDurationOfDigits | crates/chibitv_b60/src/table.rs:419-429 | BCD hours, minutes and seconds read as `h * 3600 + m * 60 + s` seconds |
| Tables.DurationExample | crates/chibitv_b60/src/table.rs:836-843 | 01 45 30 reads as 1 h 45 min 30 s |
| Tables.ParseStartTime | crates/chibitv_b60/src/table.rs:403-417 | five 0xFF bytes and only those mean no start time; a time of day `from_hms_opt` refuses panics and nothing else does; otherwise the MJD is the big-endian first two bytes and the time of day is valid |
| Tables.ParseEncodeStartTime | crates/chibitv_b60/src/table.rs:403-417 | every valid start time, and "no start time", is read back from its five bytes |
| Tables.EpochSecondsOrder | crates/chibitv_b60/src/table.rs:403-417 | on valid times the seconds scale orders start times by date then time of day, as `NaiveDateTime` does, and is injective |
| Tables.StartTimeExample | crates/chibitv_b60/src/table.rs:825-833 | C0 79 12 45 00 reads as MJD 49273 at 12:45:00, and MJD 49273 is 1993-10-13 |
| Tables.PacketId | crates/chibitv_b60/src/table.rs:54-63 | a location has a packet id exactly when it is of kind none, IPv4 or IPv6, and then it is that field |
| Tables.ReadGeneralLocation | crates/chibitv_b60/src/table.rs:66-133 | a type byte above 5 and only that is `InvalidData`; a location read has the type byte it starts with and consumes exactly its own size |
| Tables.ReadEncodeGeneralLocation | crates/chibitv_b60/src/table.rs:66-133 | every valid location is read back from its bytes, whatever follows them |
| Tables.GeneralLocationReader | crates/chibitv_b60/src/table.rs:66-133 | the location reader always advances and inverts the location encoder |
| Tables.ReadDeliveryLocation | crates/chibitv_b60/src/table.rs:152-187 | an unknown type byte is `InvalidData`, the non-IP types 0, 3 and 4 reach `unreachable!`, and a delivery read is valid and advances |
| Tables.ReadEncodeDeliveryLocation | crates/chibitv_b60/src/table.rs:152-187 | every valid IP delivery location is read back from its bytes |
| Tables.ReadMmtIpDelivery | crates/chibitv_b60/src/table.rs:198-214 | (corrected) the transport file id is the first four bytes, the descriptors fill a window of `descriptor_loop_length` bytes, and the read advances; errors are `InvalidData` |
| Tables.ReadEncodeMmtIpDelivery | crates/chibitv_b60/src/table.rs:198-214 | every valid IP delivery is read back from its bytes |
| Tables.ReadEncodeMmtIpDeliveryAsWritten | crates/chibitv_b60/src/table.rs:198-214 | as written, a delivery without descriptors is read back too, so the two readings agree on it |
| Tables.ReadMmtIpDeliveryAsWritten | crates/chibitv_b60/src/table.rs:198-214 | as written, `descriptor_loop_length` is a count of descriptors; a success still has the transport file id first |
| Tables.DeliveryLoopLengthAsWritten | crates/chibitv_b60/src/table.rs:202-206 | as written, a delivery with a loop length of 3 over one three-byte descriptor panics |
| Tables.DeliveryLoopLengthCorrected | crates/chibitv_b60/src/table.rs:202-206 | read as a byte length, the same bytes give the one descriptor and consume everything |
| Tables.ReadMmtIpDeliveriesOf | crates/chibitv_b60/src/table.rs:241-245 | (corrected delivery reader) the counted loop of IP deliveries reads back every list of valid deliveries, in order |
| Tables.ReadPackage | crates/chibitv_b60/src/table.rs:233-238 | a package is a length-prefixed id and a location; it advances and fails only with `InvalidData` |
| Tables.ReadEncodePackage | crates/chibitv_b60/src/table.rs:233-238 | every valid package is read back from its bytes |
| Tables.ReadPackagesOf | crates/chibitv_b60/src/table.rs:230-239 | the counted loop of packages reads back every list of valid packages, in order |
| Tables.ReadPlt | crates/chibitv_b60/src/table.rs:226-252 | (corrected delivery reader) the version is the first byte, the number of packages is the fourth, errors are `InvalidData` and the rest is a suffix |
| Tables.ReadEncodePlt | crates/chibitv_b60/src/table.rs:226-252 | (corrected delivery reader) every valid PLT is read back from its bytes |
| Tables.ReadLocationsOf | crates/chibitv_b60/src/table.rs:279-283 | the counted loop of locations reads back every list of valid locations |
| Tables.ReadAssetLoops | crates/chibitv_b60/src/table.rs:279-292 | the locations are `location_count` many; the descriptor window must fit what remains, else the `assert!` panics |
| Tables.ReadAssetLoopsOf | crates/chibitv_b60/src/table.rs:279-292 | the location loop and the descriptor window read back every asset's locations and descriptors |
| Tables.ReadMmtAsset | crates/chibitv_b60/src/table.rs:267-303 | scheme and type are four bytes each, the read advances and fails only with `InvalidData` |
| Tables.ReadEncodeMmtAsset | crates/chibitv_b60/src/table.rs:267-303 | every valid asset is read back from its bytes |
| Tables.ReadMmtAssetsOf | crates/chibitv_b60/src/table.rs:339-343 | the counted loop of assets reads back every list of valid assets |
| Tables.MptModeOf | crates/chibitv_b60/src/table.rs:306-312 | `from_repr` knows exactly the codes 0, 1 and 2, and a mode it returns has the code it was given |
| Tables.MptModeOfCode | crates/chibitv_b60/src/table.rs:306-312 | every mode is read back from its code masked to two bits |
| Tables.ReadMpt | crates/chibitv_b60/src/table.rs:325-352 | the length must equal what remains after it; mode bits 0b11 give `InvalidData`; a table read has the first byte as version and the mode from the low two bits |
| Tables.ReadEncodeMpt | crates/chibitv_b60/src/table.rs:325-352 | every valid MPT is read back from its bytes when nothing follows them |
| Tables.ReadMptTrailing | crates/chibitv_b60/src/table.rs:326-328 | any byte after an MPT's declared length makes the `assert_eq!` panic |
| Tables.ReadMptSuffix | crates/chibitv_b60/src/table.rs:325-352 | what a successful MPT read leaves is a suffix of its input |
| Tables.ReadDescriptorCount | crates/chibitv_b60/src/table.rs:202-207 | as written, the delivery's descriptor loop never fails with an error and, when it completes, reads exactly `descriptor_loop_length` descriptors |
| Tables.ReadPackages | crates/chibitv_b60/src/table.rs:230-239 | the package loop fails only with `InvalidData` and, when it completes, reads exactly `num_of_package` packages |
| Tables.ReadMmtIpDeliveries | crates/chibitv_b60/src/table.rs:241-245 | (corrected delivery reader) the IP delivery loop fails only with `InvalidData` and reads exactly `num_of_ip_delivery` deliveries |
| Tables.ReadPltLoops | crates/chibitv_b60/src/table.rs:230-245 | (corrected delivery reader) the two PLT loops fail only with `InvalidData` and read exactly `num_of_package` packages |
| Tables.ReadLocations | crates/chibitv_b60/src/table.rs:279-283 | the location loop fails only with `InvalidData` and reads exactly `location_count` locations |
| Tables.ReadMmtAssets | crates/chibitv_b60/src/table.rs:339-343 | the asset loop fails only with `InvalidData` and reads exactly `number_of_assets` assets |
| Tables.ReadMptBody | crates/chibitv_b60/src/table.rs:333-351 | after the mode byte, an MPT fails only with `InvalidData` and keeps the version and mode read before |
| Sections.ReadDescriptorWindow | crates/chibitv_b60/src/table.rs:386-390 | a descriptor loop split off a section is confined to its window, the cursor moves past the whole window, and a window longer than what remains panics |
| Sections.ReadDescriptorWindowOf | crates/chibitv_b60/src/table.rs:386-390 | a window of descriptor frames reads back as those descriptors, with what follows the window left |
| Sections.ReadSectionHeader | crates/chibitv_b60/src/table.rs:455-465 | the section header panics exactly when fewer than seven bytes remain; the syntax indicator, the twelve-bit length, the version from bits 5-1 and current_next from bit 0 are well-formed |
| Sections.ReadEncodeSectionHeader | crates/chibitv_b60/src/table.rs:455-465 | every well-formed header and its extension field are read back from their seven bytes |
| Sections.ReadEntriesAndCrc | crates/chibitv_b60/src/table.rs:471-477 | the `while remaining() > 4` entry loop followed by the CRC reads a section to its end, and fails only where the loop does |
| Sections.ReadEntriesAndCrcOf | crates/chibitv_b60/src/table.rs:471-477 | entries written back to back and followed by a CRC read back as those entries and that CRC |
| Sections.RunningStatusOf | crates/chibitv_b60/src/table.rs:355-363 | `from_repr` knows exactly the codes 0-4, and a status it returns has the code it was given |
| Sections.RunningStatusOfCode | crates/chibitv_b60/src/table.rs:355-363 | every running status is found again from its code |
| Sections.ReadEvent | crates/chibitv_b60/src/table.rs:376-400 | running-status codes 5-7 panic at `unwrap`; the event id is the first u16, and the cursor ends after the twelve fixed bytes and the whole descriptor loop |
| Sections.ReadEncodeEvent | crates/chibitv_b60/src/table.rs:376-400 | every valid event is read back from its bytes |
| Sections.EventReader | crates/chibitv_b60/src/table.rs:376-400 | the event reader advances, never fails with an io error, and inverts the event encoder |
| Sections.ReadBroadcaster | crates/chibitv_b60/src/table.rs:504-518 | the broadcaster id is the first byte and the cursor ends after the twelve-bit descriptor loop |
| Sections.ReadEncodeBroadcaster | crates/chibitv_b60/src/table.rs:504-518 | every broadcaster whose descriptor loop fits twelve bits is read back |
| Sections.BroadcasterReader | crates/chibitv_b60/src/table.rs:504-518 | the broadcaster reader advances, never fails with an io error, and inverts its encoder |
| Sections.ReadService | crates/chibitv_b60/src/table.rs:601-629 | the service id is the first u16 and the running status the top three bits of the second, kept whatever its value; the cursor ends after the descriptor loop |
| Sections.ServiceFlagsFields | crates/chibitv_b60/src/table.rs:604-607 | the EIT user-defined flags, the schedule flag and the present/following flag are read back from their bits |
| Sections.ReadEncodeService | crates/chibitv_b60/src/table.rs:601-629 | every valid service entry is read back from its bytes |
| Sections.ServiceReader | crates/chibitv_b60/src/table.rs:601-629 | the service reader advances, never fails with an io error, and inverts its encoder |
| Sections.ReadSelection | crates/chibitv_b60/src/table.rs:695-713 | the service id is the first u16, the running status bits 14-12 of the second, and the cursor ends after the descriptor loop |
| Sections.ReadEncodeSelection | crates/chibitv_b60/src/table.rs:695-713 | every valid selection entry is read back from its bytes |
| Sections.SelectionReader | crates/chibitv_b60/src/table.rs:695-713 | the selection reader advances, never fails with an io error, and inverts its encoder |
| Sections.ReadMhEit | crates/chibitv_b60/src/table.rs:454-494 | an MH-EIT is never an io error, reads to its end, and its service id is the header's extension field |
| Sections.ReadEncodeMhEit | crates/chibitv_b60/src/table.rs:454-494 | every valid MH-EIT is read back from its bytes |
| Sections.ReadMhBit | crates/chibitv_b60/src/table.rs:538-586 | an MH-BIT is never an io error, reads to its end, and its network id is the header's extension field |
| Sections.ReadEncodeMhBit | crates/chibitv_b60/src/table.rs:538-586 | every valid MH-BIT is read back from its bytes |
| Sections.ReadMhSdt | crates/chibitv_b60/src/table.rs:648-684 | an MH-SDT is never an io error, reads to its end, and its TLV stream id is the header's extension field |
| Sections.ReadEncodeMhSdt | crates/chibitv_b60/src/table.rs:648-684 | every valid MH-SDT is read back from its bytes, the reserved byte written as anything |
| Sections.ReadMhSit | crates/chibitv_b60/src/table.rs:731-777 | an MH-SIT is never an io error and reads to its end |
| Sections.ReadEncodeMhSit | crates/chibitv_b60/src/table.rs:731-777 | every valid MH-SIT is read back from its bytes |
| Sections.KindOf | crates/chibitv_b60/src/table.rs:780-814 | each table id selects exactly the reader its constant names: MH-EIT for 0x8B and 0x8C-0x9B, MH-SDT for 0x9F and 0xA0, and unknown for every other id |
| Sections.ReadTableOfKind | crates/chibitv_b60/src/table.rs:805-813 | only the MPT and PLT arms return errors, and those are `InvalidData`; each arm returns its own kind of table |
| Sections.ReadKnownTable | crates/chibitv_b60/src/table.rs:805-813 | a known id's table is of the kind the id selects |
| Sections.ReadTableAsWritten | crates/chibitv_b60/src/table.rs:802-816 | as written, a table read has the kind its id selects, and what it leaves is a suffix of what follows the id |
| Sections.UnknownTableAsWritten | crates/chibitv_b60/src/table.rs:814 | as written, an unknown table holds everything after its id and leaves all of it unread |
| Sections.ReadTable | crates/chibitv_b60/src/table.rs:802-816 | (corrected) an empty input panics; errors are `InvalidData` from the MPT and PLT only; a table read has the kind its id selects and advances; an unknown table is everything after its id |
| Sections.TableReader | crates/chibitv_b60/src/table.rs:802-816 | the corrected table reader always advances |
| Sections.ReadEncodeTable | crates/chibitv_b60/src/table.rs:802-816 | every valid table is read back from its id and bytes |
| Sections.TableReadingsAgree | crates/chibitv_b60/src/table.rs:802-816 | the reading as written and the corrected one give the same table or fail alike; they leave different bytes behind only for an unknown table with bytes after its id |
| Sections.ReadEncodeTableAsWritten | crates/chibitv_b60/src/table.rs:802-816 | as written too, every valid table is read back, except an unknown table with bytes after its id |
| Sections.KnownTableStep | crates/chibitv_b60/src/table.rs:805-813 | a known id's table is what the arm it selects reads |
| Descriptors.ReadMpuTimestamp | crates/chibitv_b60/src/descriptor.rs:14-24 | fewer than twelve bytes panic at the `assert!` and nothing else fails; the bytes read are the timestamp's encoding |
| Descriptors.ReadEncodeMpuTimestamp | crates/chibitv_b60/src/descriptor.rs:14-24 | every timestamp is read back from its twelve bytes |
| Descriptors.TimestampRecords | crates/chibitv_b60/src/descriptor.rs:35-37 | the record loop succeeds exactly when the body is a whole number of twelve-byte records, and otherwise panics |
| Descriptors.ReadMpuTimestampDescriptor | crates/chibitv_b60/src/descriptor.rs:33-40 | a body that is not a multiple of twelve bytes panics; otherwise it is cut into `length / 12` records whose encodings make up the body |
| Descriptors.ReadEncodeMpuTimestampDescriptor | crates/chibitv_b60/src/descriptor.rs:33-40 | every list of timestamps is read back from its records |
| Descriptors.ReadMpuTimestampOffset | crates/chibitv_b60/src/descriptor.rs:50-65 | a per-unit `pts_offset` is read only for offset type 2; otherwise the default is used, and its absence panics at `unwrap` |
| Descriptors.OffsetLoop | crates/chibitv_b60/src/descriptor.rs:89-95 | the offset loop never fails with an io error, and with a default it reads two bytes per unit |
| Descriptors.ReadMpuExtendedTimestamp | crates/chibitv_b60/src/descriptor.rs:78-104 | the eight-byte header gives the sequence number, the leap indicator from the top two bits, the decoding time offset and `num_of_au`, followed by exactly `num_of_au` offsets |
| Descriptors.ExtendedTimestampLoop | crates/chibitv_b60/src/descriptor.rs:124-130 | the record loop never fails with an io error |
| Descriptors.ReadMpuExtendedTimestampDescriptor | crates/chibitv_b60/src/descriptor.rs:115-137 | the offset type is bits 1-2 of the flag byte, the timescale exists exactly when bit 0 is set, and records are read until the body is used up |
| Descriptors.ReadShortEvent | crates/chibitv_b60/src/descriptor.rs:148-162 | a short event reads a language code, a name and a text; it never fails with an io error and consumes exactly its encoding |
| Descriptors.ReadEncodeShortEvent | crates/chibitv_b60/src/descriptor.rs:148-162 | every short event whose parts fit their length fields is read back |
| Descriptors.ReadItemReadsBack | crates/chibitv_b60/src/descriptor.rs:172-183 | an item read is well-formed and consumed exactly its encoding |
| Descriptors.ReadEncodeItem | crates/chibitv_b60/src/descriptor.rs:172-183 | every well-formed item is read back from its bytes |
| Descriptors.ReadItemsReadsBack | crates/chibitv_b60/src/descriptor.rs:204-211 | the items read from the `length_of_items` window cut the window into their encodings |
| Descriptors.ReadItemsOf | crates/chibitv_b60/src/descriptor.rs:204-211 | a window of item encodings reads back as those items, in order |
| Descriptors.ReadExtendedEvent | crates/chibitv_b60/src/descriptor.rs:196-224 | the descriptor number is the high nibble and the last descriptor number the low nibble of the first byte |
| Descriptors.ReadExtendedEventReadsBack | crates/chibitv_b60/src/descriptor.rs:196-224 | an extended event read is well-formed and consumed exactly its encoding |
| Descriptors.ReadEncodeExtendedEvent | crates/chibitv_b60/src/descriptor.rs:196-224 | every well-formed extended event is read back from its bytes |
| Descriptors.ReadBroadcasterNameFrame | crates/chibitv_b60/src/descriptor.rs:232-237 | a broadcaster-name frame reads as a name holding the whole body; the body's cursor is not moved, but the descriptor read leaves exactly what follows the frame |
| Descriptors.ReadService | crates/chibitv_b60/src/descriptor.rs:248-262 | a service descriptor reads a type, a provider name and a service name, and consumes exactly its encoding |
| Descriptors.ReadEncodeService | crates/chibitv_b60/src/descriptor.rs:248-262 | every service descriptor whose names fit their length fields is read back |
| Descriptors.ReadBroadcastId | crates/chibitv_b60/src/descriptor.rs:274-286 | fewer than seven bytes panic and nothing else fails; the bytes read are the descriptor's encoding |
| Descriptors.ReadEncodeBroadcastId | crates/chibitv_b60/src/descriptor.rs:274-286 | every broadcast id descriptor is read back from its seven bytes |
| Descriptors.TagFromRepr | crates/chibitv_b60/src/descriptor.rs:289-299 | `from_repr` returns exactly the tag whose code is given, and nothing for a code no tag has |
| Descriptors.TagFromReprOfCode | crates/chibitv_b60/src/descriptor.rs:289-299 | every tag is found again from its code |
| Descriptors.LengthFieldSize | crates/chibitv_b60/src/descriptor.rs:316-326 | the length field is one, two or four bytes wide, chosen by the tag's range |
| Descriptors.GetLength | crates/chibitv_b60/src/descriptor.rs:316-326 | a length field panics exactly when too few bytes remain, and its value fits its width |
| Descriptors.GetLengthOf | crates/chibitv_b60/src/descriptor.rs:316-326 | every length that fits its width is read back from its bytes |
| Descriptors.ReadFrame | crates/chibitv_b60/src/descriptor.rs:315-328 | the framing never fails with an io error and yields a tag and a body whose length fits the tag's length field |
| Descriptors.ReadFrameReadsBack | crates/chibitv_b60/src/descriptor.rs:315-328 | the bytes framing consumed are the frame of the tag and body it returned |
| Descriptors.ReadFrameOf | crates/chibitv_b60/src/descriptor.rs:315-328 | every valid tag and body is read back from its frame |
| Descriptors.ReadDescriptor | crates/chibitv_b60/src/descriptor.rs:314-356 | the cursor always ends after the whole frame, however much of the body the inner reader used; an unknown tag gives `Unknown` with its body |
| Descriptors.ReadDescriptorOfFrame | crates/chibitv_b60/src/descriptor.rs:314-356 | a descriptor's outcome depends only on its tag and body, and the rest is what follows the frame |
| Descriptors.DescriptorReader | crates/chibitv_b60/src/descriptor.rs:314-356 | each descriptor read consumes at least three bytes and never fails with an io error, so every `while has_remaining` descriptor loop ends |
| Descriptors.ReadKnownFrame | crates/chibitv_b60/src/descriptor.rs:333-355 | a known tag's frame reads as what that tag's body reader returns |
| Descriptors.ReadEncodeDescriptor | crates/chibitv_b60/src/descriptor.rs:314-356 | every writable descriptor reads back as itself, with the bytes after its frame left unread |
| Descriptors.DescriptorInverts | crates/chibitv_b60/src/descriptor.rs:314-356 | the descriptor reader inverts the descriptor encoder on every writable descriptor |
| Descriptors.ReadDescriptorLoop | crates/chibitv_b60/src/table.rs:286-292 | the `while has_remaining` descriptor loop over a window never fails with an io error, and when it succeeds it has used the whole window |
| Descriptors.ReadDescriptorLoopOf | crates/chibitv_b60/src/table.rs:286-292 | a window of descriptor frames reads back as those descriptors, in order |
| Descriptors.ReadItem | crates/chibitv_b60/src/descriptor.rs:172-183 | an item is a description behind a one-byte length and a text behind a two-byte length; reading one never returns an error, a short buffer being a panic |
| Descriptors.ReadItems | crates/chibitv_b60/src/descriptor.rs:204-209 | the `while has_remaining()` loop over the `length_of_items` window never returns an error |
| Hevc.Window | crates/chibitv/src/hevc.rs:44-49 | the eight-byte state after `n` bytes holds the last eight of them, with 0xFF in front while fewer than eight have been seen |
| Hevc.LayerIdBits | crates/chibitv/src/hevc.rs:57 | the shifted and masked 64-bit state is the six `nuh_layer_id` bits: the low bit of one byte and the top five of the next |
| Hevc.WindowAud | crates/chibitv/src/hevc.rs:46-64 | the state shows a base-layer AUD exactly when the bytes end in one, and the reported offset is that of its three- or four-byte start code |
| Hevc.FirstAudFromSpec | crates/chibitv/src/hevc.rs:46-92 | the search finds the first AUD from a position, and finds none exactly when there is none |
| Hevc.NextFrameSpec | crates/chibitv/src/hevc.rs:43-93 | a frame is found exactly when the chunk holds a base-layer AUD; the offset is the first one's start code, and the chunk continues there with 00 00 01 or 00 00 00 01 |
| Hevc.SplitStartCodeMissed | crates/chibitv/src/hevc.rs:44 | a start code split over two chunks is not found, because the state starts as 0xFF on every call |
| Hevc.PushStepSpec | crates/chibitv/src/hevc.rs:24-40 | without an AUD the chunk is appended; with one the frame before its start code comes out, never empty, and the buffer restarts at the start code with no byte lost; a chunk starting with an AUD on an empty buffer is dropped whole |
| Hevc.HevcParser.constructor | crates/chibitv/src/hevc.rs:17-21 | a new parser has an empty buffer |
| Hevc.HevcParser.FindNextFrame | crates/chibitv/src/hevc.rs:43-93 | the loop shifting each byte into the state returns exactly `NextFrame` |
| Hevc.HevcParser.Push | crates/chibitv/src/hevc.rs:24-40 | `push` updates the buffer and returns the frame as `PushStep` says |
| Mmt.NewStream | crates/chibitv/src/mmt.rs:113-129 | a stream created on its first packet has the packet's id, a fresh defragmenter, empty timestamp tables and no asset type |
| Mmt.SyncFrom | crates/chibitv/src/mmt.rs:76 | `skip_until(0x7F)` stops at the first sync byte, and finds none exactly when there is none |
| Mmt.Resynced | crates/chibitv/src/mmt.rs:76-84 | the TLV reader always sees a sync byte first, never more bytes than the input holds |
| Mmt.EcmFrom | crates/chibitv/src/mmt.rs:93-97 | `windows(6).position` finds the first ECM header, and none exactly when there is none |
| Mmt.Track | crates/chibitv/src/mmt.rs:151-173 | a stream waiting for its first random access point skips the packet; otherwise the last MPU sequence number becomes the packet's, and the access unit count restarts exactly on a change of MPU |
| Mmt.Stamp | crates/chibitv/src/mmt.rs:226-257 | timing is taken only when none is pending and timestamp, extended timestamp and timescale are all known; a unit index at `num_of_au` fails the `assert!`; a unit is stamped with its index, which then advances |
| Mmt.LoasHeader | crates/chibitv/src/mmt.rs:272-283 | the three-byte LOAS header carries the 11-bit sync word 0x2B7 and the unit size modulo 0x2000 |
| Mmt.FrameUnit | crates/chibitv/src/mmt.rs:260-296 | an `hev1` unit panics unless its length prefix matches, and otherwise goes to the HEVC splitter with no byte lost; an `mp4a` unit comes out behind its LOAS header; any other type drops the unit; a packet takes the pending timing |
| Mmt.ProcessUnits | crates/chibitv/src/mmt.rs:221-298 | at most one packet per unit, all of the stream, with its tables, defragmenter and sequence tracking untouched |
| Mmt.Push | crates/chibitv/src/mmt.rs:205-218 | a payload through the defragmenter panics exactly when `push`'s assertions fail, yields at most one unit and touches only the defragmenter |
| Mmt.Units | crates/chibitv/src/mmt.rs:200-219 | aggregated units bypass the defragmenter; a single unit goes through it |
| Mmt.ReadMfu | crates/chibitv/src/mmt.rs:191-299 | reading an MFU keeps the stream's tables and sequence tracking and gives packets of the stream only |
| Mmt.ReadFragment | crates/chibitv/src/mmt.rs:141-182 | only MFUs are read; an aggregated fragmented MFU fails the `assert!`; every stream stays valid and the packets belong to the stream |
| Mmt.PushAll | crates/chibitv/src/mmt.rs:303-312 | every payload of a signalling message goes through the defragmenter in order, yielding at most one message per payload |
| Mmt.MessagePackets | crates/chibitv/src/mmt.rs:378-383 | each message read becomes one packet of the stream, in order |
| Mmt.MinKey | crates/chibitv/src/mmt.rs:367-373 | `pop_first` removes the smallest key |
| Mmt.EvictSpec | crates/chibitv/src/mmt.rs:366-373 | at most 64 entries are left, all of them unchanged entries of the table, and every entry removed is older than every entry kept |
| Mmt.InsertAllSpec | crates/chibitv/src/mmt.rs:344-360 | after the insertions the keys are the table's and the entries', the last entry for a key wins, and keys no entry names keep their value |
| Mmt.ApplyDescriptor | crates/chibitv/src/mmt.rs:341-364 | timestamp descriptors insert their entries, the timescale is replaced only by an extended timestamp descriptor carrying one, and other descriptors change nothing |
| Mmt.ApplyAsset | crates/chibitv/src/mmt.rs:330-374 | an asset without a last location or packet id panics; naming the stream being read panics (its mutex is locked twice); an unknown stream is skipped; otherwise only that stream's asset type and tables change, capped at 64 entries |
| Mmt.ApplyAssets | crates/chibitv/src/mmt.rs:324-376 | applying the MPT assets never adds or removes a stream and keeps every stream valid |
| Mmt.ReceiveSignalingSpec | crates/chibitv/src/mmt.rs:183-187 | a signalling message moves only the defragmenter of its own stream |
| Mmt.DispatchSpec | crates/chibitv/src/mmt.rs:138-188 | dispatching a payload changes only the stream of the packet, never its asset tables, and keeps every stream valid |
| Mmt.ReceivePacketSpec | crates/chibitv/src/mmt.rs:112-136 | the stream of an MMTP packet exists afterwards with the asset tables it had (a new stream's are empty), no other is created, and the other streams are left alone |
| Mmt.ReceivePacketCarries | crates/chibitv/src/mmt.rs:140-182 | the packets read from an MPU fragment all belong to the packet's stream |
| Mmt.ReceiveEcmSpec | crates/chibitv/src/mmt.rs:93-106 | an ECM yields no packets and goes to the descrambler whole, the bytes after its table id and length first; an ECM cut short panics |
| Mmt.ReceiveDataSpec | crates/chibitv/src/mmt.rs:93-110 | one TLV packet adds at most one stream and at most one ECM |
| Mmt.ReceiveProgress | crates/chibitv/src/mmt.rs:75-110 | every read that does not panic consumes input, until there is none |
| Mmt.ReceiveOutcomes | crates/chibitv/src/mmt.rs:76-91 | an empty input and a truncated packet end the stream (`Ok(None)`); a packet that is not compressed IP yields no packets |
| Mmt.DeliverSpec | crates/chibitv/src/mmt.rs:321-384 | delivering messages changes only the stream table, never its keys, and returns every message as a packet of the stream unless an asset panics |
| Mmt.ReadStepSpec | crates/chibitv/src/mmt.rs:75-189 | one `read` adds at most one stream and one ECM, keeps every stream valid, and consumes input unless it panics or the input is gone |
| Mmt.EvictOldest | crates/chibitv/src/mmt.rs:367-373 | the `pop_first` loop computes exactly `Evict` |
| Mmt.InsertEach | crates/chibitv/src/mmt.rs:344-360 | the insertion loop computes exactly `InsertAll` |
| Mmt.ApplyEach | crates/chibitv/src/mmt.rs:341-364 | the loop over an asset's descriptors computes exactly `ApplyDescriptors` |
| Mmt.MmtDemuxer.constructor | crates/chibitv/src/mmt.rs:67-73 | a new demuxer has no streams and no ECMs |
| Mmt.MmtDemuxer.ApplyAssetTo | crates/chibitv/src/mmt.rs:330-374 | one MPT asset applied in place, as `ApplyAsset` says |
| Mmt.MmtDemuxer.ApplyAssetsTo | crates/chibitv/src/mmt.rs:324-376 | the loop over the MPT assets, as `ApplyAssets` says |
| Mmt.MmtDemuxer.Read | crates/chibitv/src/mmt.rs:75-189 | (corrected message readers) `read` returns and leaves the state `ReadStep` gives |
| Mmt.MmtDemuxer.DeliverMessages | crates/chibitv/src/mmt.rs:321-384 | the end of `read_message`, as `Deliver` says |
| Mmt.MmtDemuxer.Clear | crates/chibitv/src/mmt.rs:386-389 | `clear` forgets every stream and resets the descrambler |
| Mmt.ApplyDescriptors | crates/chibitv/src/mmt.rs:341-364 | the descriptors of an asset change only the stream's timescale and its two timestamp tables |
| Mmt.ReceiveMmtpSpec | crates/chibitv/src/mmt.rs:108-136 | an MMTP packet adds at most one stream, removes none, keeps the stream table valid, and neither consumes input nor touches the ECMs |
| Mmt.ReceiveGrows | crates/chibitv/src/mmt.rs:75-110 | one TLV packet adds at most one stream and at most one ECM, removes neither, and keeps the stream table valid |
| M2ts.NextCc | crates/chibitv/src/m2ts.rs:53-56 | the continuity counter is 4 bits: it steps by one and wraps from 15 to 0 |
| M2ts.DefaultStreams | crates/chibitv/src/m2ts.rs:59-64 | a fresh table holds exactly the PAT pid 0x0000 and the PMT pid 0x1000, both with counter 0 and neither stream id nor `es_info` |
| M2ts.PidsFromSpec | crates/chibitv/src/m2ts.rs:165-168 | walking the `BTreeMap` from a pid upwards visits exactly the table's pids at or above it, in strictly increasing order |
| M2ts.PidsSpec | crates/chibitv/src/m2ts.rs:165-168 | the `BTreeMap` iteration visits every pid of the table once, in increasing order |
| M2ts.EsInfos | crates/chibitv/src/m2ts.rs:165-169 | `filter_map` keeps at most one `es_info` per visited pid |
| M2ts.EsInfosMembers | crates/chibitv/src/m2ts.rs:165-169 | an `es_info` is collected exactly when one of the visited pids carries it |
| M2ts.PmtEsInfoSpec | crates/chibitv/src/m2ts.rs:165-169 | the PMT lists an `es_info` if and only if some stream of the table carries it |
| M2ts.DefaultPmtEmpty | crates/chibitv/src/m2ts.rs:59-64 | with only the default PAT and PMT entries the PMT lists no elementary stream |
| M2ts.PatPmtStepSpec | crates/chibitv/src/m2ts.rs:164-214 | `emit_pat_pmt` writes two packets: a PAT on pid 0 mapping program 1 to the PMT pid, then a PMT for program 1 listing the streams' `es_info`; each counter advances before use and no other entry changes |
| M2ts.RawPacketsPayloads | crates/chibitv/src/m2ts.rs:142-159 | the extra packets carry the remaining data back, in order and without loss |
| M2ts.RawPacketsShape | crates/chibitv/src/m2ts.rs:142-159 | each extra packet is a raw packet on the pid with 1 to 184 bytes whose counter is one step past the previous one; there are packets exactly when data remains, and the counter ends at the last packet's |
| M2ts.PesPacketsPayloads | crates/chibitv/src/m2ts.rs:103-159 | the first packet is a PES packet with the stream id and timestamps carrying `min(len, 184 - header_len)` bytes, and all packets together carry the data back in order |
| M2ts.PesPacketsShape | crates/chibitv/src/m2ts.rs:103-159 | every packet is on the pid, the later ones raw with 1 to 184 bytes, and the counter advances once per packet |
| M2ts.PesStepSpec | crates/chibitv/src/m2ts.rs:101-159 | after the PES part the pid's counter equals its last packet's, its stream id and `es_info` stay, and no other entry changes |
| M2ts.PesStepRun | crates/chibitv/src/m2ts.rs:101-159 | the PES part writes a well-formed run carrying the data whose first counter is one past the pid's |
| M2ts.WritePesWithPatPmt | crates/chibitv/src/m2ts.rs:93-159 | when PAT and PMT are due they come first, then the PES run carrying the data; the muxer stays valid and only the pid's, the PAT's and the PMT's counters change |
| M2ts.WritePesAlone | crates/chibitv/src/m2ts.rs:101-159 | otherwise only the PES run is written, starting one past the pid's counter, and only that counter changes |
| M2ts.WritePesStepCases | crates/chibitv/src/m2ts.rs:93-99 | PAT and PMT go out, and the emission time becomes the DTS, exactly when a DTS is present and either none was emitted yet or the cadence test passes |
| M2ts.WritePesStepSpec | crates/chibitv/src/m2ts.rs:86-162 | `write_pes` keeps the muxer valid, adds and removes no entry, keeps every stream id, and writes the PES run carrying the data, preceded by PAT and PMT exactly when they are due |
| M2ts.CadenceAsWrittenRepeats | crates/chibitv/src/m2ts.rs:93-99 | with the test as written, PAT and PMT are re-emitted for a DTS less than 100 ms after the last emission |
| M2ts.CadenceAsWrittenStops | crates/chibitv/src/m2ts.rs:93-99 | with the test as written, a DTS 100 ms or more after the last emission emits nothing and leaves the emission time unchanged, so the tables stop for good |
| M2ts.CadenceEvery100ms | crates/chibitv/src/m2ts.rs:93-99 | with the corrected test, PAT and PMT go out exactly when a DTS is present and none went out yet or at least 100 ms have passed, as the comment intends |
| M2ts.M2tsMuxer.constructor | crates/chibitv/src/m2ts.rs:73-79 | a new muxer holds the default table, no emission time and an empty output |
| M2ts.M2tsMuxer.AddStreamTo | crates/chibitv/src/m2ts.rs:81-84 | `add_stream` inserts or replaces the pid's entry and writes nothing |
| M2ts.M2tsMuxer.NextCcOf | crates/chibitv/src/m2ts.rs:53-56 | `next_cc` advances the pid's counter and returns the new value, changing nothing else |
| M2ts.M2tsMuxer.EmitPatPmt | crates/chibitv/src/m2ts.rs:164-214 | the method appends exactly the PAT and PMT packets of `PatPmtStep` and advances their counters |
| M2ts.M2tsMuxer.WritePesPackets | crates/chibitv/src/m2ts.rs:101-159 | the packetising part appends exactly the PES run of `PesStep` and leaves the emission time alone |
| M2ts.M2tsMuxer.WriteRawPackets | crates/chibitv/src/m2ts.rs:142-159 | the `while data.has_remaining()` loop appends the raw packets and leaves the pid's counter where the last one put it |
| M2ts.M2tsMuxer.WritePes | crates/chibitv/src/m2ts.rs:86-162 | `write_pes` appends PAT and PMT when due and then the PES run, updating the table and the emission time accordingly |
| M2ts.M2tsMuxer.WritePesAfterPatPmt | crates/chibitv/src/m2ts.rs:93-101 | when PAT and PMT are due, they are written first, the emission time becomes the DTS, and the PES run follows on the table they leave |
| M2ts.M2tsMuxer.Clear | crates/chibitv/src/m2ts.rs:216-219 | `clear` restores the default table and forgets the emission time |
| M2ts.InitialSpec | crates/chibitv/src/m2ts.rs:73-79 | a new or cleared muxer is valid, holds exactly the PAT and PMT pids, has no emission time and its PMT lists nothing |
| M2ts.AddStreamSpec | crates/chibitv/src/m2ts.rs:81-84 | `add_stream` keeps the muxer valid, adds the pid, resets its counter, keeps every other entry and makes the next PMT list its `es_info` |
| Remux.Added | crates/chibitv/src/remux.rs:124-181 | an asset type is routed only when none was routed before, and then for the first asset of that type in the table, with that asset's packet id |
| Remux.AddedFirst | crates/chibitv/src/remux.rs:137-174 | conversely, a type not routed before is routed for the first asset of that type in the table, with that asset's packet id |
| Remux.FirstOf | crates/chibitv/src/remux.rs:137-174 | the position of the first asset of a type in the table, or the table's length when there is none |
| Remux.PaStepIgnored | crates/chibitv/src/remux.rs:118-122 | once any route exists, a PA message changes neither the routes nor the muxer |
| Remux.MptStepPanics | crates/chibitv/src/remux.rs:127-128 | the MPT loop panics exactly when some asset's last location names no packet id, whatever the asset's type |
| Remux.MptStepMap | crates/chibitv/src/remux.rs:124-181 | an MPT adds exactly two kinds of route: the first HEVC asset's packet id to pid 0x1011 and the first AAC asset's to pid 0x1100, unless routed before; all earlier routes stay |
| Remux.MptStepShared | crates/chibitv/src/remux.rs:137-174 | when the first HEVC and the first AAC asset share a packet id, the route of the one later in the table wins: the audio pid when the AAC asset comes after the HEVC one, else the video pid |
| Remux.MptStepMuxer | crates/chibitv/src/remux.rs:137-174 | an MPT adds the video stream (stream id 0xE0, H.265 with an `HEVC` registration descriptor) when an HEVC asset was routed and the audio stream (stream id 0xC0, LATM/LOAS AAC) when an AAC one was; every other entry and the PAT/PMT time stay |
| Remux.MptStepConsistent | crates/chibitv/src/remux.rs:127-181 | handling an MPT keeps the muxer valid and every route pointing at a muxer stream with a stream id |
| Remux.PaStepConsistent | crates/chibitv/src/remux.rs:112-184 | `read_pa_message` keeps the muxer valid and every route pointing at a muxer stream with a stream id |
| Remux.SignalsSound | crates/chibitv/src/remux.rs:199-213 | every `EventChanged` signal names an event of the table that has a start time and duration and is running at the clock reading |
| Remux.SignalsChange | crates/chibitv/src/remux.rs:206-213 | a signal is sent only on a change of current event: the first differs from the event current before, each differs from the one before it, and the last becomes the current event |
| Remux.SignalsLast | crates/chibitv/src/remux.rs:195-217 | with no running event nothing is signalled and the current event stays; otherwise the last running event of the table is the current one afterwards |
| Remux.PutEventsSpec | crates/chibitv/src/remux.rs:196-197 | every event of the table is stored, whatever its timing, under the table's service only; an unknown service is left alone and the registry stays keyed by id |
| Remux.PutBroadcastersKeep | crates/chibitv/src/remux.rs:219-225 | `read_mh_bit` only adds broadcasters: a stored one is never replaced, and the table stays keyed by id |
| Remux.PutServicesKeep | crates/chibitv/src/remux.rs:227-233 | `read_mh_sdt` only adds services: a stored one is never replaced, and the table stays keyed by id |
| Remux.PacketStepValid | crates/chibitv/src/remux.rs:92-110 | every packet keeps the remuxer consistent and the registry keyed by id, and nothing registered, signalled or written is ever taken back |
| Remux.PacketStepMedia | crates/chibitv/src/remux.rs:94-101 | a media unit never panics; without a route it is dropped and with one it is written as a PES run on the routed pid, after PAT and PMT when due, changing nothing but the muxer |
| Remux.Remuxer.constructor | crates/chibitv/src/remux.rs:76-90 | `Remuxer::new` starts with no route and no current event, around the given demuxer, muxer and registry |
| Remux.Remuxer.ReadPacket | crates/chibitv/src/remux.rs:92-110 | `read_packet` performs `PacketStep`, reporting its panics as `false` |
| Remux.Remuxer.WriteMedia | crates/chibitv/src/remux.rs:94-101 | the media branch looks up the route and hands the unit to `write_pes`, as `MediaStep` says |
| Remux.Remuxer.ReadPaMessage | crates/chibitv/src/remux.rs:112-184 | the loops over tables and assets compute `PaStep`, touching only the routes and the muxer |
| Remux.Remuxer.ReadM2SectionMessage | crates/chibitv/src/remux.rs:186-193 | an MH-EIT, MH-BIT or MH-SDT goes to its handler and every other table is ignored |
| Remux.Remuxer.ReadMhEit | crates/chibitv/src/remux.rs:195-217 | the loop stores every event and appends the signals of `Signals`, leaving routes and broadcasters alone |
| Remux.Remuxer.ReadMhBit | crates/chibitv/src/remux.rs:219-225 | the loop registers the table's broadcasters in order and touches no service |
| Remux.Remuxer.ReadMhSdt | crates/chibitv/src/remux.rs:227-233 | the loop registers the table's services in order and touches no broadcaster |
| Remux.Remuxer.Clear | crates/chibitv/src/remux.rs:67-72 | `clear` resets the demuxer and muxer and forgets routes and the current event, keeping the registry and what was sent |
| Registry.FirstWhere | crates/chibitv/src/registry.rs:78-84 | `find_map` stops at the first descriptor of the wanted kind, and finds none exactly when there is none |
| Registry.LastWhere | crates/chibitv/src/registry.rs:147-176 | the descriptor a loop of overwrites leaves behind is the last one of its kind, and there is none exactly when no descriptor is of that kind |
| Registry.WithBroadcasterSpec | crates/chibitv/src/registry.rs:71-96 | a known broadcaster id is never overwritten; an unknown one is added exactly when the record has a broadcaster-name descriptor, named after the first such descriptor, and nothing else changes |
| Registry.WithServiceSpec | crates/chibitv/src/registry.rs:98-131 | a known service id is never overwritten; an unknown one is added only from its first service descriptor, only for service type 1 (TV), with that descriptor's names, the TLV stream id and an empty event table |
| Registry.Empties | crates/chibitv/src/registry.rs:160 | `repeat_n(vec![], n)` gives `n` empty slots |
| Registry.Items | crates/chibitv/src/registry.rs:163-172 | a slot holds one (item description, item) pair per item, in order |
| Registry.MergeAllPanics | crates/chibitv/src/registry.rs:155-163 | the descriptor loop panics on the slot index exactly when some extended-event descriptor's number exceeds its own last number |
| Registry.MergeAllName | crates/chibitv/src/registry.rs:143-154 | language and name come from the last short-event descriptor, or stay as stored when there is none |
| Registry.MergeAllDescription | crates/chibitv/src/registry.rs:145-173 | after the last extended-event descriptor the description has `last + 1` slots with that descriptor's items in its own slot; without one the stored description is kept |
| Registry.MergeAllSnoc | crates/chibitv/src/registry.rs:147-176 | the descriptor loop over all descriptors is the loop over all but the last followed by one more turn |
| Registry.SlotAfterStale | crates/chibitv/src/registry.rs:159-161 | read back with a length other than the one the loop leaves, every slot is empty, because the length change reset the description |
| Registry.MergeAllSlots | crates/chibitv/src/registry.rs:155-173 | every slot of the merged description: the latest extended-event items numbered for it since the last length change; failing that the stored slot when no reset happened, and empty after one |
| Registry.WithEventSpec | crates/chibitv/src/registry.rs:133-192 | an unknown service leaves the registry unchanged; otherwise exactly one event of that service is written: the record's id and timing with the language code, name and description that the descriptor loop merges onto the stored event's (language code and name kept when no short-event descriptor comes), and the call panics exactly on an overrunning extended-event descriptor |
| Registry.MergeEach | crates/chibitv/src/registry.rs:143-176 | the `for` loop over the descriptors computes the merged text, or the index panic |
| Registry.Registry.constructor | crates/chibitv/src/registry.rs:36-40 | `Registry::default` is valid and holds no broadcaster and no service |
| Registry.Registry.GetAllServices | crates/chibitv/src/registry.rs:43-46 | `get_all_services` returns exactly the stored services |
| Registry.Registry.GetServiceById | crates/chibitv/src/registry.rs:48-51 | `get_service_by_id` returns the stored service, and nothing exactly when the id is unknown |
| Registry.Registry.GetEventsByServiceId | crates/chibitv/src/registry.rs:53-62 | `get_events_by_service_id` returns the service's events, and none for an unknown service |
| Registry.Registry.GetEventById | crates/chibitv/src/registry.rs:64-69 | `get_event_by_id` returns the stored event with that id, and nothing exactly when the service or the event is unknown |
| Registry.Registry.PutBroadcaster | crates/chibitv/src/registry.rs:71-96 | `put_broadcaster` applies `WithBroadcaster`, leaves the services alone and keeps the registry valid |
| Registry.Registry.PutService | crates/chibitv/src/registry.rs:98-131 | `put_service` applies `WithService`, leaves the broadcasters alone and keeps the registry valid |
| Registry.Registry.PutEvent | crates/chibitv/src/registry.rs:133-192 | `put_event` applies `WithEvent`, reports the index panic as `false`, and otherwise keeps the registry valid |
| Workspace.Channels | crates/chibitv/src/workspace.rs:32-34 | `channels` yields every configured channel once, in order, numbered by its position |
| Workspace.Enumerate | crates/chibitv/src/workspace.rs:32-34 | `enumerate` pairs each channel with its index counted from the start |
| Workspace.GetCurrentEventSpec | crates/chibitv/src/workspace.rs:40-53 | there is no answer exactly when the stream is unknown; the service is the registry's entry for the stream's service id; the event is present exactly when both ids are set and the registry holds the event, which then belongs to the returned service |
| Workspace.FindChannel | crates/chibitv/src/workspace.rs:66-69 | `find` picks the first ISDB-S channel whose stream id is the service's TLV stream id, and none exactly when no channel has it |
| Workspace.SetChannelSpec | crates/chibitv/src/workspace.rs:55-74 | the errors come in the source's order (unknown stream, then unknown service, then no channel, then a failed tune) and the call succeeds exactly when all three are found and tuning to the first matching channel succeeds |
| Workspace.SetChannelKnownStream | crates/chibitv/src/workspace.rs:40-74 | a stream on which a channel can be set is one `get_current_event` answers for |
| Server.ServiceOf | crates/chibitv/src/server.rs:75-83 | the API service carries the registry service's id, name and provider name |
| Server.FlattenAppend | crates/chibitv/src/server.rs:105-108 | flattening the description groups distributes over concatenation |
| Server.FlattenMember | crates/chibitv/src/server.rs:105-108 | a (name, content) pair is in the flattened description exactly when some group holds it |
| Server.FlattenLength | crates/chibitv/src/server.rs:105-108 | the flattened description is as long as all groups together |
| Server.Descriptions | crates/chibitv/src/server.rs:109-111 | each pair becomes one description entry with that name and content, in order |
| Server.FlattenAt | crates/chibitv/src/server.rs:105-108 | the pairs of a group sit, in their order, right after all pairs of the groups before it |
| Server.EventOfOrder | crates/chibitv/src/server.rs:100-119 | the description entries keep the order of the groups and of the pairs within each group |
| Server.EventOfSpec | crates/chibitv/src/server.rs:100-119 | the title is the event name or empty; the description holds exactly the pairs of all groups, as many as there are; the end time exists exactly when start time and duration do, and lies `duration` after the start |
| Server.GetChannels | crates/chibitv/src/server.rs:138-148 | `GET /channels` lists every configured channel with its position as id and its name |
| Server.GetServices | crates/chibitv/src/server.rs:155-164 | `GET /services` lists exactly the registered services, converted |
| Server.GetEvents | crates/chibitv/src/server.rs:172-184 | `GET /services/{id}/events` lists exactly the service's events, converted, and none for an unknown service |
| Server.GetStreamSpec | crates/chibitv/src/server.rs:192-206 | `GET /streams/{id}` answers 404 exactly for an unknown stream; otherwise its body shows the tuned service and current event as far as the registry holds them |
| Server.UpdateStreamSpec | crates/chibitv/src/server.rs:215-232 | `PATCH /streams/{id}` answers 404 exactly when a service id is given and the stream, the service or a channel for it is missing, 500 exactly when tuning fails, and succeeds otherwise, including when no service id is given |

## Left out

- The browser viewer (session polling, player lifecycle, schedule sorting) has no Rust source in this repository and is not modelled.
- Tuner I/O (`tuner/*.rs`), start-up and configuration (`main.rs`, `config.rs`, `channel.rs`) are not part of this model.
- Conditional access: `descrambler.rs` and the smart-card crate are not part of this model. In `mmt.rs` the ECM hand-off is recorded as the 148 bytes pushed, and `descramble` is left out: MPU payloads are taken as they arrive. The descrambler's own failures are not modelled.
- Concurrency: the `RwLock`/`Mutex`/`papaya` maps are plain Dafny maps, and the `Arc` sharing of the event tables is not modelled. `stream.rs`, the `Remux::run` loop and the tokio channels are left out. The signal channel is a list of sent signals. Its `send` never fails, because the stream keeps a receiver for its whole life.
- I/O: the demuxer's `BufRead` input is a byte sequence, and `skip_until(0x7F)` resynchronisation is modelled as a search on it. The muxer's `WriteTsPacket` sink is the list of packets written, so the bit-level TS serialisation of the `mpeg2ts` crate is not modelled. A write error from the sink is never raised.
- Floating point: the DTS/PTS formula from the NTP timestamp, the offsets and the timescale (`mmt.rs:226-257`) is not modelled. An access unit carries an opaque `AuTiming` record of those inputs, and a `times` parameter maps it to seconds. The 90 kHz conversion in `write_pes` is left out, and the cadence test is the parameter `refresh`.
- Clock: `chrono::Local::now()` in `read_mh_eit` is the parameter `now`, read once per table rather than once per event.
- Dates: `NaiveDateTime` is seconds since MJD 0. The calendar conversion is checked only on the source's own test vector through the Annex C formula of ETSI EN 300 468. The validity checks of chrono are modelled as the range of BCD hours, minutes and seconds.
- Text: `String::from_utf8_lossy` is the identity on bytes, so names and descriptions stay byte strings.
- Order: `get_all_services` and `get_events_by_service_id` iterate a hash map in no particular order, so they and the REST lists built from them are sets.
- CRC-32 of the sections is read and never checked, as in the source. Tracing and log calls are left out.
- Overflow: `last_sequence_number + 1` (`deflag.rs:32`, `mmt.rs:159`) is computed on unbounded integers. At `u32::MAX` it would panic in a debug build and wrap in a release build. The reassembly lemmas require sequence numbers below `u32::MAX`.
- Messages.ReadPaBody: it runs its table loop with the corrected `Sections.ReadTable`. As written (`message.rs:47-49` with `table.rs:814`), an unknown table with bytes after its id has those bytes read again as tables, so the body `00 FE 20` panics (`Messages.UnknownTableRereadAsWritten`). The model reads it as one unknown table.
- Messages.ReadPaMessage: its body is read by the corrected `Messages.ReadPaTables`, so a body holding an unknown table with bytes after its id is `Ok` here where the source panics or misreads. `Messages.ReadPaTablesAsWritten` is the body as written.
- Messages.ReadPaTablesOf: the one-table read-back is stated for the corrected reader. `Messages.ReadPaTablesAsWrittenOf` proves it as written for every table but an unknown one with bytes after its id.
- Messages.ReadEncodePaMessage: the round trip holds for the corrected readers. As written it fails for an unknown table with bytes after its id and for a PLT whose deliveries carry descriptors (`table.rs:202-207`).
- Messages.PaMessageOfBytes: stated relative to the corrected `Messages.ReadPaTables`.
- Messages.ReadM2SectionMessage: its window goes to the corrected `Sections.ReadTable`. The unknown-table finding does not change its outcome, because what the table leaves of the window is dropped (`Sections.TableReadingsAgree`). A PLT whose deliveries carry descriptors is read here where `table.rs:202-207` panics or misreads.
- Messages.ReadEncodeM2SectionMessage: the round trip includes PLTs whose deliveries carry descriptors, which the code as written does not read back.
- Messages.M2SectionIgnoresTrailing: a PLT is read back with the corrected delivery reader. As written this holds only when its deliveries carry no descriptors (`Tables.ReadEncodeMmtIpDeliveryAsWritten`).
- Messages.M2SectionOfBytes: stated for the corrected `Sections.ReadTable`. The table it reads is the same as written (`Sections.TableReadingsAgree`), except for the delivery descriptors of a PLT.
- Messages.ReadMessage: it dispatches to the corrected PA and M2 section readers, so `00 00 00 00 00 00 03 00 FE 20` is `Ok` with one unknown table here, while the source panics on it.
- Messages.ReadEncodeMessage: the round trip covers messages that the code as written panics on or misreads. These are a PA message holding an unknown table with bytes after its id, and a PLT whose deliveries carry descriptors.
- Tables.ReadMmtIpDeliveries: the counted loop runs the corrected `Tables.ReadMmtIpDelivery`. As written, a delivery with descriptors takes its byte length as a count (`Tables.ReadMmtIpDeliveryAsWritten`).
- Tables.ReadMmtIpDeliveriesOf: the read-back holds for the corrected delivery reader. As written it holds for deliveries without descriptors (`Tables.ReadEncodeMmtIpDeliveryAsWritten`).
- Tables.ReadPltLoops: its second loop is `Tables.ReadMmtIpDeliveries`, on the corrected delivery reader.
- Tables.ReadPlt: its delivery loop is the corrected one, and so is that of every table and message reader built on it.
- Tables.ReadEncodePlt: the round trip is false of the code as written for PLTs whose deliveries carry descriptors. It holds as written when they carry none.
- Mmt.MmtDemuxer.Read: `Mmt.ReadStep` parses messages with the corrected `Messages.ReadMessage`. A PA message holding an unknown table with bytes, or a PLT whose deliveries carry descriptors, yields tables here where `Message::read` in the source panics or misreads.
- Mmt.ReadStepSpec: its bounds hold for the demultiplexer on the corrected message readers (see `Mmt.MmtDemuxer.Read`).
- Mmtp.ReadMpuFragment: `payload_length - 6` is modelled as in a debug build, where an underflow panics. A release build wraps, and `read_exact` of about 64 KiB then returns `UnexpectedEof`.
- Mfu.ReadTimedUnit: `data_unit_length - 14` and `data_unit_length + 2` are modelled as in a debug build, where an underflow or overflow panics. The wrapped lengths of a release build are not modelled.
- Mfu.ReadNonTimedUnit: `data_unit_length - 4` and `data_unit_length + 2` are modelled as in a debug build, where an underflow or overflow panics. The wrapped lengths of a release build are not modelled.
- Deflag.Defragmenter.Push: its `requires CanPush` stands for the `assert!`s at `deflag.rs:63` and `deflag.rs:72`. The run function `Deflag.Feed` models the same panics as an outcome.
- M2ts.M2tsMuxer.WritePes: the `unwrap`s of the pid's entry and of its stream id are preconditions. `Remux` only calls it on routed pids, which always meet them (`Remux.MptStepConsistent`).
- Hevc.PushStepSpec: `frame_start_found` is never written by the source, and the model only proves that it is kept.
- Workspace.SetChannelSpec: `Stream::set_channel` (`stream.rs`) is the parameter `tune`, which says whether tuning succeeded. The restart of the stream's tuner and remuxer is not modelled.
- `get_m2ts_stream`, `serve`, routing and OpenAPI in `server.rs` and `workspace.rs` are HTTP plumbing and are not modelled. The REST handlers are modelled as functions from the workspace to a status or a body.
- The `bytes` and `byteorder` getters (`Wire.GetU8` to `Wire.GetU64`, `Wire.ReadU8` to `Wire.ReadU32`, `Wire.SplitTo`, `Wire.ReadExact`) model library code and carry no rows of their own.

## Findings

| source | as written | input that shows it | evidently intended | confidence | as-written member | corrected member |
|---|---|---|---|---|---|---|
| crates/chibitv_b60/src/table.rs:202-207 | `MmtIpDelivery::read` runs its descriptor loop `descriptor_loop_length` times, taking a byte length as a count of descriptors | the delivery `00 00 00 00 05 00 00 03 00 00 00` (URL location with an empty URL, loop length 3, one empty descriptor) panics on the second descriptor read | read descriptors from a window of `descriptor_loop_length` bytes, as the other descriptor loops of the file do; the example then reads one descriptor and ends | not executed | Tables.ReadMmtIpDeliveryAsWritten, Tables.DeliveryLoopLengthAsWritten | Tables.ReadMmtIpDelivery, Tables.DeliveryLoopLengthCorrected |
| crates/chibitv_b60/src/table.rs:814 | the unknown-table arm copies the remaining bytes with `to_vec` without consuming them, so the `while has_remaining` loop of a PA message (`message.rs:47-49`) reads them again as further tables | the PA body `00 FE 20` (no table entries, one table with the unknown id 0xFE) panics: 0x20 is then read as the id of an MPT with nothing after it | an unknown table takes the rest of the body, so the body is one unknown table `Unknown(0xFE, [0x20])` | not executed | Sections.ReadTableAsWritten, Messages.ReadPaTablesAsWritten, Messages.UnknownTableRereadAsWritten | Sections.ReadTable, Messages.ReadPaTables, Messages.UnknownTableOnce |
| crates/chibitv/src/m2ts.rs:93-99 | PAT and PMT are emitted when `dts - last < 0.1`, while the comment says every 100 ms | with the last emission at 0.0 s, a PES with DTS 0.05 s emits PAT and PMT again, one with DTS 0.2 s does not, and as the DTS keeps growing they are never emitted again | emit when `dts - last >= 0.1` | not executed | M2ts.RefreshAsWritten, M2ts.CadenceAsWrittenRepeats, M2ts.CadenceAsWrittenStops | M2ts.RefreshEvery100ms, M2ts.CadenceEvery100ms |
