/** message.rs: the signalling messages an MMTP signalling payload carries.
    The readers take an `impl Read`.  They are modelled on the bytes that
    stream would yield.  A short stream is an `UnexpectedEof` error, except
    where the PA message unwraps its first two reads, which panics. */
module Messages {
  import opened Wire
  import opened Tables
  import opened Sections

  // ---------------------------------------------------------------------
  // PaMessage::read

  /** One entry of the table-information loop.  The length is read in the
      machine's native byte order and the entry is then dropped, so it is
      kept here as its two raw bytes. */
  datatype TableInfo = TableInfo(tableId: byte, tableVersion: byte, tableLength: seq<byte>)

  /** `get_u8`, `get_u8`, `get_u16_ne`: four bytes or a panic. */
  function ReadTableInfo(s: seq<byte>): (r: Parsed<TableInfo>)
    ensures r.Ok? <==> 4 <= |s|
    ensures !r.Ok? ==> r.Panic?
    ensures r.Ok? ==> r.rest == s[4..] && r.value.tableId == s[0] && r.value.tableVersion == s[1]
  {
    if |s| < 4 then Panic else Ok(TableInfo(s[0], s[1], s[2..4]), s[4..])
  }

  predicate ValidTableInfo(i: TableInfo)
  {
    |i.tableLength| == 2
  }

  function EncodeTableInfo(i: TableInfo): (s: seq<byte>)
    ensures |s| > 0
  {
    if !ValidTableInfo(i) then [0] else [i.tableId, i.tableVersion] + i.tableLength
  }

  lemma TableInfoInvertsAt(i: TableInfo)
    requires ValidTableInfo(i)
    ensures InvertsAt(ReadTableInfo, EncodeTableInfo, i)
  {
    forall rest
      ensures ReadTableInfo(EncodeTableInfo(i) + rest) == Ok(i, rest) && |EncodeTableInfo(i)| > 0
    {
      var s := EncodeTableInfo(i) + rest;
      assert s[2..4] == i.tableLength && s[4..] == rest;
    }
  }

  lemma TableInfoReader()
    ensures Advances(ReadTableInfo)
    ensures forall t :: !ReadTableInfo(t).Err?
    ensures Inverts(ReadTableInfo, EncodeTableInfo, ValidTableInfo)
  {
    forall i | ValidTableInfo(i)
      ensures InvertsAt(ReadTableInfo, EncodeTableInfo, i)
    {
      TableInfoInvertsAt(i);
    }
  }

  /** The body of a PA message, with the table reader as a parameter so
      that the reader as written and the corrected one share it: the
      number of tables, that many table-information entries, then tables
      until the body is exhausted.  The count does not bound the tables. */
  function ReadPaTablesWith(b: seq<byte>, p: seq<byte> -> Parsed<Table>): (r: Parsed<seq<Table>>)
    requires Advances(p)
    ensures r.Ok? ==> 1 <= |b| && r.rest == []
    ensures r.Err? ==> exists t :: p(t).Err? && p(t).kind == r.kind
  {
    if |b| < 1 then Panic
    else
      TableInfoReader();
      RepeatCountNeverErr(b[1..], b[0], ReadTableInfo);
      var (infos, b1) :- RepeatCount(b[1..], b[0], ReadTableInfo);
      var tables := RepeatAbove(b1, 0, p);
      if tables.Err? then
        RepeatAboveErrWitness(b1, 0, p);
        Err(tables.kind)
      else
        var (ts, b2) :- tables;
        Ok(ts, b2)
  }

  /** A loop's io error is one its item reader returns. */
  lemma {:induction false} RepeatAboveErrWitness<T>(s: seq<byte>, floor: nat, p: seq<byte> -> Parsed<T>)
    requires Advances(p)
    ensures RepeatAbove(s, floor, p).Err? ==> exists t :: p(t).Err? && p(t).kind == RepeatAbove(s, floor, p).kind
    decreases |s|
  {
    if |s| > floor && p(s).Ok? {
      RepeatAboveErrWitness(p(s).rest, floor, p);
    }
  }

  /** The body as the corrected `Table::read` reads it. */
  function ReadPaTables(b: seq<byte>): (r: Parsed<seq<Table>>)
    ensures r.Ok? ==> 1 <= |b| && r.rest == []
    ensures r.Err? ==> r.kind == InvalidData
  {
    TableReader();
    ReadPaTablesWith(b, ReadTable)
  }

  /** The body as the code is written: an unknown table leaves its bytes to
      be read again as further tables. */
  function ReadPaTablesAsWritten(b: seq<byte>): (r: Parsed<seq<Table>>)
    ensures r.Ok? ==> 1 <= |b| && r.rest == []
  {
    TableAsWrittenReader();
    ReadPaTablesWith(b, ReadTableAsWritten)
  }

  /** The two loops of `PaMessage::read` as it runs them: a `for` loop
      over the table-information entries and a `while has_remaining` loop
      over the tables. */
  method ReadPaBody(b: seq<byte>) returns (r: Parsed<seq<Table>>)
    ensures r == ReadPaTables(b)
  {
    if |b| < 1 {
      return Panic;
    }
    TableInfoReader();
    TableReader();
    RepeatCountNeverErr(b[1..], b[0], ReadTableInfo);
    var infos := ReadTimes(b[1..], b[0], ReadTableInfo);
    if infos.IsFailure() {
      return Panic;
    }
    var tables := ReadWhileAbove(infos.rest, 0, ReadTable);
    if tables.Err? {
      RepeatAboveErrWitness(infos.rest, 0, ReadTable);
      return Err(tables.kind);
    }
    r := tables;
  }

  datatype PaMessage = PaMessage(version: byte, tables: seq<Table>)

  /** `PaMessage::read`: a version byte and a big-endian u32 length, both
      unwrapped, then `read_exact` of that many bytes, which are the body.
      What follows the body is left in the stream. */
  function ReadPaMessage(s: seq<byte>): (r: Parsed<PaMessage>)
    ensures |s| < 5 ==> r.Panic?
    ensures 5 <= |s| && |s| < 5 + Be32(s[1..5]) ==> r == Err(UnexpectedEof)
    ensures r.Ok? ==> 5 <= |s| && 5 + Be32(s[1..5]) <= |s| && r.rest == s[5 + Be32(s[1..5])..] && r.value.version == s[0]
  {
    if |s| < 5 then Panic
    else
      var (body, s1) :- ReadExact(s[5..], Be32(s[1..5]));
      assert s[5..][Be32(s[1..5])..] == s[5 + Be32(s[1..5])..];
      var (tables, _) :- ReadPaTables(body);
      Ok(PaMessage(s[0], tables), s1)
  }

  /** A body with its table-information entries and one table. */
  function EncodePaBody(infos: seq<TableInfo>, t: Table): seq<byte>
    requires |infos| < 0x100 && ValidTable(t)
  {
    [|infos| as byte] + (Flatten(infos, EncodeTableInfo) + EncodeTable(t))
  }

  /** Whatever the entries say, one table is read back from its body. */
  lemma ReadPaTablesOf(infos: seq<TableInfo>, t: Table)
    requires |infos| < 0x100 && ValidTable(t)
    requires forall i :: i in infos ==> ValidTableInfo(i)
    ensures ReadPaTables(EncodePaBody(infos, t)) == Ok([t], [])
  {
    ReadEncodeTable(t);
    PaTablesOfBytes(infos, EncodeTable(t), t);
  }

  /** The same on any bytes the table reader reads to their end. */
  lemma PaTablesOfBytes(infos: seq<TableInfo>, e: seq<byte>, t: Table)
    requires |infos| < 0x100 && forall i :: i in infos ==> ValidTableInfo(i)
    requires ReadTable(e) == Ok(t, [])
    ensures ReadPaTables([|infos| as byte] + (Flatten(infos, EncodeTableInfo) + e)) == Ok([t], [])
  {
    var b := [|infos| as byte] + (Flatten(infos, EncodeTableInfo) + e);
    assert b[0] == |infos| && b[1..] == Flatten(infos, EncodeTableInfo) + e;
    TableInfoReader();
    RepeatCountOfFlatten(infos, e, ReadTableInfo, EncodeTableInfo, ValidTableInfo);
    TableReader();
    RepeatAboveOne(e, 0, ReadTable, t, []);
    PaTablesStep(b, infos, e, [t]);
  }

  /** `ReadPaTables` from the outcomes of its two loops. */
  lemma PaTablesStep(b: seq<byte>, infos: seq<TableInfo>, b1: seq<byte>, ts: seq<Table>)
    requires 1 <= |b|
    requires Advances(ReadTableInfo) && RepeatCount(b[1..], b[0], ReadTableInfo) == Ok(infos, b1)
    requires Advances(ReadTable) && RepeatAbove(b1, 0, ReadTable) == Ok(ts, [])
    ensures ReadPaTables(b) == Ok(ts, [])
  {
  }

  /** As written, the same body reads back its table as well, unless the
      table is an unknown one with bytes after its id. */
  lemma ReadPaTablesAsWrittenOf(infos: seq<TableInfo>, t: Table)
    requires |infos| < 0x100 && ValidTable(t) && !(t.UnknownTable? && |t.body| > 0)
    requires forall i :: i in infos ==> ValidTableInfo(i)
    ensures ReadPaTablesAsWritten(EncodePaBody(infos, t)) == Ok([t], [])
  {
    var e := EncodeTable(t);
    var b := [|infos| as byte] + (Flatten(infos, EncodeTableInfo) + e);
    assert b[0] == |infos| && b[1..] == Flatten(infos, EncodeTableInfo) + e;
    TableInfoReader();
    RepeatCountOfFlatten(infos, e, ReadTableInfo, EncodeTableInfo, ValidTableInfo);
    ReadEncodeTableAsWritten(t);
    TableAsWrittenReader();
    RepeatAboveOne(e, 0, ReadTableAsWritten, t, []);
    PaTablesAsWrittenStep(b, infos, e, [t]);
  }

  /** `ReadPaTablesAsWritten` from the outcomes of its two loops. */
  lemma PaTablesAsWrittenStep(b: seq<byte>, infos: seq<TableInfo>, b1: seq<byte>, ts: seq<Table>)
    requires 1 <= |b|
    requires Advances(ReadTableInfo) && RepeatCount(b[1..], b[0], ReadTableInfo) == Ok(infos, b1)
    requires Advances(ReadTableAsWritten) && RepeatAbove(b1, 0, ReadTableAsWritten) == Ok(ts, [])
    ensures ReadPaTablesAsWritten(b) == Ok(ts, [])
  {
  }

  function EncodePaMessage(version: byte, infos: seq<TableInfo>, t: Table): seq<byte>
    requires |infos| < 0x100 && ValidTable(t) && |EncodePaBody(infos, t)| < 0x1_0000_0000
  {
    [version] + U32Bytes(|EncodePaBody(infos, t)|) + EncodePaBody(infos, t)
  }

  lemma ReadEncodePaMessage(version: byte, infos: seq<TableInfo>, t: Table, rest: seq<byte>)
    requires |infos| < 0x100 && ValidTable(t) && |EncodePaBody(infos, t)| < 0x1_0000_0000
    requires forall i :: i in infos ==> ValidTableInfo(i)
    ensures ReadPaMessage(EncodePaMessage(version, infos, t) + rest) == Ok(PaMessage(version, [t]), rest)
  {
    ReadPaTablesOf(infos, t);
    PaMessageOfBytes(version, EncodePaBody(infos, t), [t], rest);
  }

  /** A PA message around any body its table loop reads. */
  lemma PaMessageOfBytes(version: byte, b: seq<byte>, ts: seq<Table>, rest: seq<byte>)
    requires |b| < 0x1_0000_0000 && ReadPaTables(b) == Ok(ts, [])
    ensures ReadPaMessage([version] + U32Bytes(|b|) + b + rest) == Ok(PaMessage(version, ts), rest)
  {
    var s := [version] + U32Bytes(|b|) + b + rest;
    FieldLayout(version, U32Bytes(|b|), b, rest);
    SplitToOf(b, rest);
    PaMessageStep(s, PaMessage(version, ts), b, rest);
  }

  /** `ReadPaMessage` from the outcomes of its reads. */
  lemma PaMessageStep(s: seq<byte>, m: PaMessage, b: seq<byte>, rest: seq<byte>)
    requires 5 <= |s| && s[0] == m.version
    requires ReadExact(s[5..], Be32(s[1..5])) == Ok(b, rest)
    requires ReadPaTables(b) == Ok(m.tables, [])
    ensures ReadPaMessage(s) == Ok(m, rest)
  {
  }

  // ---------------------------------------------------------------------
  // The unknown table whose bytes are read twice

  /** As written, the body `[0, 0xFE, 0x20]` (no entries, then a table
      with the unknown id 0xFE and the single byte 0x20) panics: 0x20 is
      read again as the id of an MPT with nothing after it. */
  lemma UnknownTableRereadAsWritten()
    ensures ReadPaTablesAsWritten([0, 0xFE, 0x20]) == Panic
  {
    var b: seq<byte> := [0, 0xFE, 0x20];
    TableInfoReader();
    TableAsWrittenReader();
    assert RepeatCount(b[1..], 0, ReadTableInfo) == Ok([], [0xFE, 0x20]);
    var first := ReadTableAsWritten([0xFE, 0x20]);
    UnknownTableAsWritten([0xFE, 0x20]);
    assert first == Ok(UnknownTable(0xFE, [0x20]), [0x20]);
    var second := ReadTableAsWritten([0x20]);
    assert ReadMpt([]) == Panic;
    assert second == Panic;
    assert RepeatAbove([0x20], 0, ReadTableAsWritten) == Panic;
    assert RepeatAbove([0xFE, 0x20], 0, ReadTableAsWritten) == Panic;
  }

  /** With the unknown table consuming its bytes, the same body is the one
      unknown table. */
  lemma UnknownTableOnce()
    ensures ReadPaTables([0, 0xFE, 0x20]) == Ok([UnknownTable(0xFE, [0x20])], [])
  {
    var t := UnknownTable(0xFE, [0x20]);
    assert EncodePaBody([], t) == [0, 0xFE, 0x20];
    ReadPaTablesOf([], t);
  }

  // ---------------------------------------------------------------------
  // M2SectionMessage::read

  datatype M2SectionMessage = M2SectionMessage(version: byte, table: Table)

  /** `M2SectionMessage::read`: a version byte, a big-endian u16 length,
      `read_exact` of that many bytes, and one table read from them.  Bytes
      of the window the table does not use are dropped. */
  function ReadM2SectionMessage(s: seq<byte>): (r: Parsed<M2SectionMessage>)
    ensures |s| < 3 ==> r == Err(UnexpectedEof)
    ensures 3 <= |s| && |s| < 3 + Be16(s[1..3]) ==> r == Err(UnexpectedEof)
    ensures r.Ok? ==> 3 <= |s| && 3 + Be16(s[1..3]) <= |s| && r.rest == s[3 + Be16(s[1..3])..] && r.value.version == s[0]
    ensures r.Err? ==> r.kind == UnexpectedEof || r.kind == InvalidData
  {
    if |s| < 3 then Err(UnexpectedEof)
    else
      var (window, s1) :- ReadExact(s[3..], Be16(s[1..3]));
      assert s[3..][Be16(s[1..3])..] == s[3 + Be16(s[1..3])..];
      var (table, _) :- ReadTable(window);
      Ok(M2SectionMessage(s[0], table), s1)
  }

  function EncodeM2SectionMessage(m: M2SectionMessage): seq<byte>
    requires ValidTable(m.table) && |EncodeTable(m.table)| < 0x1_0000
  {
    [m.version] + U16Bytes(|EncodeTable(m.table)|) + EncodeTable(m.table)
  }

  lemma ReadEncodeM2SectionMessage(m: M2SectionMessage, rest: seq<byte>)
    requires ValidTable(m.table) && |EncodeTable(m.table)| < 0x1_0000
    ensures ReadM2SectionMessage(EncodeM2SectionMessage(m) + rest) == Ok(m, rest)
  {
    ReadEncodeTable(m.table);
    M2SectionOfBytes(m.version, EncodeTable(m.table), m.table, [], rest);
  }

  /** Bytes after the table inside the window are dropped: a PLT with
      any bytes after it in the window is read all the same. */
  lemma M2SectionIgnoresTrailing(version: byte, p: Plt, trailing: seq<byte>, rest: seq<byte>)
    requires ValidPlt(p) && |EncodeTable(PltTable(p)) + trailing| < 0x1_0000
    ensures var w := EncodeTable(PltTable(p)) + trailing;
      ReadM2SectionMessage([version] + U16Bytes(|w|) + w + rest) == Ok(M2SectionMessage(version, PltTable(p)), rest)
  {
    PltTableTrailing(p, trailing);
    M2SectionOfBytes(version, EncodeTable(PltTable(p)) + trailing, PltTable(p), trailing, rest);
  }

  /** `ReadTable` on a PLT followed by other bytes leaves those bytes. */
  lemma PltTableTrailing(p: Plt, trailing: seq<byte>)
    requires ValidPlt(p)
    ensures ReadTable(EncodeTable(PltTable(p)) + trailing) == Ok(PltTable(p), trailing)
  {
    var s := [PltId] + (EncodePlt(p) + trailing);
    assert EncodeTable(PltTable(p)) + trailing == s;
    assert s[0] == PltId && s[1..] == EncodePlt(p) + trailing;
    ReadEncodePlt(p, trailing);
    PltArmStep(EncodePlt(p) + trailing, p, trailing);
    KnownTableStep(s, PltTable(p), trailing);
  }

  /** An M2 section message around a window whatever the table leaves of it. */
  lemma M2SectionOfBytes(version: byte, w: seq<byte>, t: Table, unused: seq<byte>, rest: seq<byte>)
    requires |w| < 0x1_0000 && ReadTable(w) == Ok(t, unused)
    ensures ReadM2SectionMessage([version] + U16Bytes(|w|) + w + rest) == Ok(M2SectionMessage(version, t), rest)
  {
    var s := [version] + U16Bytes(|w|) + w + rest;
    FieldLayout(version, U16Bytes(|w|), w, rest);
    SplitToOf(w, rest);
    M2SectionStep(s, M2SectionMessage(version, t), w, rest, unused);
  }

  /** `ReadM2SectionMessage` from the outcomes of its reads. */
  lemma M2SectionStep(s: seq<byte>, m: M2SectionMessage, w: seq<byte>, rest: seq<byte>, unused: seq<byte>)
    requires 3 <= |s| && s[0] == m.version
    requires ReadExact(s[3..], Be16(s[1..3])) == Ok(w, rest)
    requires ReadTable(w) == Ok(m.table, unused)
    ensures ReadM2SectionMessage(s) == Ok(m, rest)
  {
  }

  // ---------------------------------------------------------------------
  // Message::read

  const PaMessageId: u16 := 0x0000
  const M2SectionMessageId: u16 := 0x8000

  datatype Message =
    | Pa(pa: PaMessage)
    | M2Section(m2: M2SectionMessage)
    | UnknownMessage(messageId: u16, data: seq<byte>)

  /** `Message::read`: a big-endian u16 message id; 0x0000 is a PA
      message, 0x8000 an M2 section message, and any other id keeps
      everything after it (`read_to_end`). */
  function ReadMessage(s: seq<byte>): (r: Parsed<Message>)
    ensures |s| < 2 ==> r == Err(UnexpectedEof)
    ensures 2 <= |s| && Be16(s[..2]) != PaMessageId && Be16(s[..2]) != M2SectionMessageId ==>
      r == Ok(UnknownMessage(Be16(s[..2]), s[2..]), [])
    ensures r.Ok? && r.value.Pa? ==> 2 <= |s| && Be16(s[..2]) == PaMessageId
    ensures r.Ok? && r.value.M2Section? ==> 2 <= |s| && Be16(s[..2]) == M2SectionMessageId
  {
    var (id, s1) :- ReadU16(s);
    if id == PaMessageId then
      var (m, s2) :- ReadPaMessage(s1);
      Ok(Pa(m), s2)
    else if id == M2SectionMessageId then
      var (m, s2) :- ReadM2SectionMessage(s1);
      Ok(M2Section(m), s2)
    else Ok(UnknownMessage(id, s1), [])
  }

  /** A message the encoder below can write: a PA message with one table,
      written with no table-information entries. */
  predicate ValidMessage(m: Message)
  {
    match m
    case Pa(p) =>
      |p.tables| == 1 && ValidTable(p.tables[0]) && |EncodePaBody([], p.tables[0])| < 0x1_0000_0000
    case M2Section(m2) => ValidTable(m2.table) && |EncodeTable(m2.table)| < 0x1_0000
    case UnknownMessage(id, _) => id != PaMessageId && id != M2SectionMessageId
  }

  function EncodeMessage(m: Message): seq<byte>
    requires ValidMessage(m)
  {
    match m
    case Pa(p) => U16Bytes(PaMessageId) + EncodePaMessage(p.version, [], p.tables[0])
    case M2Section(m2) => U16Bytes(M2SectionMessageId) + EncodeM2SectionMessage(m2)
    case UnknownMessage(id, data) => U16Bytes(id) + data
  }

  /** Every message is read back from its bytes. */
  lemma ReadEncodeMessage(m: Message)
    requires ValidMessage(m)
    ensures ReadMessage(EncodeMessage(m)) == Ok(m, [])
  {
    match m
    case Pa(p) =>
      ReadEncodePaMessage(p.version, [], p.tables[0], []);
      assert [p.tables[0]] == p.tables;
      MessageStep(PaMessageId, EncodePaMessage(p.version, [], p.tables[0]), m);
    case M2Section(m2) =>
      ReadEncodeM2SectionMessage(m2, []);
      MessageStep(M2SectionMessageId, EncodeM2SectionMessage(m2), m);
    case UnknownMessage(id, data) =>
      MessageStep(id, data, m);
  }

  /** `ReadMessage` from the outcome of the reader its id selects. */
  lemma MessageStep(id: u16, e: seq<byte>, m: Message)
    requires id == PaMessageId ==> m.Pa? && ReadPaMessage(e + []) == Ok(m.pa, [])
    requires id == M2SectionMessageId ==> m.M2Section? && ReadM2SectionMessage(e + []) == Ok(m.m2, [])
    requires id != PaMessageId && id != M2SectionMessageId ==> m == UnknownMessage(id, e)
    ensures ReadMessage(U16Bytes(id) + e) == Ok(m, [])
  {
    GetU16Of(id, e);
    assert e + [] == e;
  }
}
