/** MMT-SI tables of ARIB STD-B60, read from table.rs: the location
    structures, the package list table (PLT), the MMT package table (MPT),
    and the event, broadcaster, service and selection information tables
    (MH-EIT, MH-BIT, MH-SDT, MH-SIT).  Every reader works on a `Bytes`
    cursor, so a short buffer panics; the only io error is `InvalidData`,
    for a location type or an MPT mode that `from_repr` does not know.

    Each table has an encoder that writes what the reader reads, and a
    lemma that reads every well-formed value back.  The converse does not
    hold: the readers drop reserved bits, mask lengths and identifiers,
    and read BCD digits that are not decimal. */
module Tables {
  import opened Wire
  import opened Descriptors

  // ---------------------------------------------------------------------
  // BCD fields, durations and start times (Annex C of ETSI EN 300 468)

  /** A byte whose two nibbles are decimal digits. */
  predicate IsBcd(b: byte)
  {
    b / 0x10 < 10 && b % 0x10 < 10
  }

  /** `parse_bcd`: ten times the high nibble plus the low nibble.  The u8
      arithmetic of the source never overflows. */
  function ParseBcd(b: byte): (v: nat)
    ensures v < 0x100
    ensures IsBcd(b) ==> v < 100
  {
    b / 0x10 * 10 + b % 0x10
  }

  /** The BCD byte of a two-digit number. */
  function EncodeBcd(v: nat): (b: byte)
    requires v < 100
    ensures IsBcd(b)
  {
    v / 10 * 0x10 + v % 10
  }

  /** A number below 100 is read back from its BCD byte... */
  lemma ParseEncodeBcd(v: nat)
    requires v < 100
    ensures ParseBcd(EncodeBcd(v)) == v && EncodeBcd(v) != 0xFF
  {
  }

  /** ... and a BCD byte is the encoding of the number it reads as. */
  lemma EncodeParseBcd(b: byte)
    requires IsBcd(b)
    ensures EncodeBcd(ParseBcd(b)) == b
  {
    var h, l := b / 0x10, b % 0x10;
    DecimalDigits(h, l);
    assert b == h * 0x10 + l;
  }

  /** The two decimal digits of `q * 10 + r`. */
  lemma DecimalDigits(q: nat, r: nat)
    requires r < 10
    ensures (q * 10 + r) / 10 == q && (q * 10 + r) % 10 == r
  {
  }

  const Unset3: seq<byte> := [0xFF, 0xFF, 0xFF]
  const Unset5: seq<byte> := [0xFF, 0xFF, 0xFF, 0xFF, 0xFF]

  /** `parse_duration`: hours, minutes and seconds as three BCD bytes, or no
      duration when all three are 0xFF.  The model counts the duration in
      seconds, as `chrono::Duration` does. */
  function ParseDuration(b: seq<byte>): (r: Option<nat>)
    requires |b| == 3
    ensures r.None? <==> b == Unset3
  {
    if b == Unset3 then None
    else Some(ParseBcd(b[0]) * 3600 + ParseBcd(b[1]) * 60 + ParseBcd(b[2]))
  }

  /** Durations that the three BCD bytes can hold. */
  predicate ValidDuration(d: Option<nat>)
  {
    d.Some? ==> d.value < 100 * 3600
  }

  function EncodeDuration(d: Option<nat>): (b: seq<byte>)
    requires ValidDuration(d)
    ensures |b| == 3
  {
    match d
    case None => Unset3
    case Some(n) => [EncodeBcd(n / 3600), EncodeBcd(n % 3600 / 60), EncodeBcd(n % 60)]
  }

  lemma ParseEncodeDuration(d: Option<nat>)
    requires ValidDuration(d)
    ensures ParseDuration(EncodeDuration(d)) == d
  {
    if d.Some? {
      var n := d.value;
      DurationParts(n);
      ParseDurationOfDigits(n / 3600, n % 3600 / 60, n % 60);
    }
  }

  lemma ParseDurationOfDigits(h: nat, m: nat, sec: nat)
    requires h < 100 && m < 100 && sec < 100
    ensures ParseDuration([EncodeBcd(h), EncodeBcd(m), EncodeBcd(sec)]) == Some(h * 3600 + m * 60 + sec)
  {
    var b := [EncodeBcd(h), EncodeBcd(m), EncodeBcd(sec)];
    ParseEncodeBcd(h);
    ParseEncodeBcd(m);
    ParseEncodeBcd(sec);
    assert b[0] != 0xFF;
    assert ParseBcd(b[0]) == h && ParseBcd(b[1]) == m && ParseBcd(b[2]) == sec;
  }

  lemma DurationParts(n: nat)
    requires n < 100 * 3600
    ensures n / 3600 < 100 && n % 3600 / 60 < 60 && n % 60 < 60
    ensures n / 3600 * 3600 + n % 3600 / 60 * 60 + n % 60 == n
  {
  }

  /** The duration of the source's test: 01 45 30 is 1 h 45 min 30 s. */
  lemma DurationExample()
    ensures ParseDuration([0x01, 0x45, 0x30]) == Some(1 * 3600 + 45 * 60 + 30)
  {
  }

  /** A start time as the source reads it: a modified Julian date and a
      time of day.  `MjdToDate` gives the calendar date of the MJD. */
  datatype StartTime = StartTime(mjd: u16, hour: nat, minute: nat, second: nat)

  /** The times `NaiveTime::from_hms_opt` accepts. */
  predicate ValidTimeOfDay(t: StartTime)
  {
    t.hour < 24 && t.minute < 60 && t.second < 60
  }

  /** A start time as seconds since 00:00:00 of MJD 0: the scale on which
      the rest of the model compares and adds times. */
  function EpochSeconds(t: StartTime): nat
  {
    t.mjd * 86400 + t.hour * 3600 + t.minute * 60 + t.second
  }

  /** Date-and-time order, field by field. */
  predicate Before(a: StartTime, b: StartTime)
  {
    a.mjd < b.mjd ||
    (a.mjd == b.mjd && (a.hour < b.hour ||
    (a.hour == b.hour && (a.minute < b.minute ||
    (a.minute == b.minute && a.second < b.second)))))
  }

  /** On valid times of day the seconds scale orders start times as
      `NaiveDateTime` does, and tells different times apart. */
  lemma EpochSecondsOrder(a: StartTime, b: StartTime)
    requires ValidTimeOfDay(a) && ValidTimeOfDay(b)
    ensures EpochSeconds(a) < EpochSeconds(b) <==> Before(a, b)
    ensures EpochSeconds(a) == EpochSeconds(b) <==> a == b
  {
    var da := a.hour * 3600 + a.minute * 60 + a.second;
    var db := b.hour * 3600 + b.minute * 60 + b.second;
    DayOrder(a, b);
    DayOrder(b, a);
    assert EpochSeconds(a) == a.mjd * 86400 + da && EpochSeconds(b) == b.mjd * 86400 + db;
    MjdDominates(a.mjd, da, b.mjd, db);
    MjdDominates(b.mjd, db, a.mjd, da);
  }

  lemma DayOrder(a: StartTime, b: StartTime)
    requires ValidTimeOfDay(a) && ValidTimeOfDay(b)
    ensures var da := a.hour * 3600 + a.minute * 60 + a.second;
      var db := b.hour * 3600 + b.minute * 60 + b.second;
      0 <= da < 86400 &&
      (da < db <==> a.hour < b.hour || (a.hour == b.hour && (a.minute < b.minute || (a.minute == b.minute && a.second < b.second)))) &&
      (da == db <==> a.hour == b.hour && a.minute == b.minute && a.second == b.second)
  {
  }

  lemma MjdDominates(ma: int, da: int, mb: int, db: int)
    requires 0 <= da < 86400 && 0 <= db < 86400
    ensures ma * 86400 + da < mb * 86400 + db <==> ma < mb || (ma == mb && da < db)
  {
    if ma < mb {
      assert ma * 86400 + 86400 <= mb * 86400;
    } else if mb < ma {
      assert mb * 86400 + 86400 <= ma * 86400;
    }
  }

  /** `parse_start_time`: five 0xFF bytes mean no start time; otherwise a
      big-endian MJD and three BCD fields.  A time of day that
      `from_hms_opt` refuses panics at `unwrap`. */
  function ParseStartTime(b: seq<byte>): (r: Outcome<Option<StartTime>>)
    requires |b| == 5
    ensures !r.Failure?
    ensures r == Success(None) <==> b == Unset5
    ensures r.Abort? <==> b != Unset5 && !(ParseBcd(b[2]) < 24 && ParseBcd(b[3]) < 60 && ParseBcd(b[4]) < 60)
    ensures r.Success? && r.value.Some? ==> ValidTimeOfDay(r.value.value) && r.value.value.mjd == Be16(b[..2])
  {
    if b == Unset5 then Success(None)
    else
      var t := StartTime(Be16(b[..2]), ParseBcd(b[2]), ParseBcd(b[3]), ParseBcd(b[4]));
      if ValidTimeOfDay(t) then Success(Some(t)) else Abort
  }

  predicate ValidStartTime(t: Option<StartTime>)
  {
    t.Some? ==> ValidTimeOfDay(t.value)
  }

  function EncodeStartTime(t: Option<StartTime>): (b: seq<byte>)
    requires ValidStartTime(t)
    ensures |b| == 5
  {
    match t
    case None => Unset5
    case Some(v) => U16Bytes(v.mjd) + [EncodeBcd(v.hour), EncodeBcd(v.minute), EncodeBcd(v.second)]
  }

  lemma ParseEncodeStartTime(t: Option<StartTime>)
    requires ValidStartTime(t)
    ensures ParseStartTime(EncodeStartTime(t)) == Success(t)
  {
    if t.Some? {
      var v := t.value;
      var b := EncodeStartTime(t);
      assert b[..2] == U16Bytes(v.mjd);
      assert b[2] == EncodeBcd(v.hour) && b[3] == EncodeBcd(v.minute) && b[4] == EncodeBcd(v.second);
      ParseEncodeBcd(v.hour);
      ParseEncodeBcd(v.minute);
      ParseEncodeBcd(v.second);
      assert b != Unset5;
    }
  }

  /** The calendar date (year, month, day) of a modified Julian date, by the
      formula of Annex C of ETSI EN 300 468 written in integer arithmetic.
      The formula holds from 1900-03-01 to 2100-02-28. */
  function MjdToDate(mjd: nat): (int, int, int)
  {
    var y1 := (mjd * 100 - 1507820) / 36525;
    var a := y1 * 36525 / 100;
    var m1 := (10 * (mjd - a) - 149561) * 1000 / 306001;
    var day := mjd - 14956 - a - m1 * 306001 / 10000;
    var k := if m1 == 14 || m1 == 15 then 1 else 0;
    (1900 + y1 + k, m1 - 1 - k * 12, day)
  }

  /** The start time of the source's test: C0 79 12 45 00 is 1993-10-13
      12:45:00. */
  lemma StartTimeExample()
    ensures ParseStartTime([0xC0, 0x79, 0x12, 0x45, 0x00]) == Success(Some(StartTime(49273, 12, 45, 0)))
    ensures MjdToDate(49273) == (1993, 10, 13)
  {
    var b: seq<byte> := [0xC0, 0x79, 0x12, 0x45, 0x00];
    assert b[..2] == [0xC0, 0x79];
    assert Be16(b[..2]) == 49273;
    assert ParseBcd(0x12) == 12 && ParseBcd(0x45) == 45 && ParseBcd(0x00) == 0;
    assert (49273 * 100 - 1507820) / 36525 == 93;
    assert 93 * 36525 / 100 == 33968;
    assert (10 * (49273 - 33968) - 149561) * 1000 / 306001 == 11;
    assert 11 * 306001 / 10000 == 336;
  }
  // ---------------------------------------------------------------------
  // Locations

  /** `MmtGeneralLocation`: where the packets of a package or an asset are
      carried.  `NoneLocation` is location type 0, packets of this MMT
      stream with the given packet id. */
  datatype GeneralLocation =
    | NoneLocation(packetId: u16)
    | Ipv4Location(srcAddr: Ipv4Addr, dstAddr: Ipv4Addr, dstPort: u16, packetId: u16)
    | Ipv6Location(srcAddr6: Ipv6Addr, dstAddr6: Ipv6Addr, dstPort: u16, packetId: u16)
    | M2tsLocation(networkId: u16, m2TransportStreamId: u16, m2Pid: u16)
    | M2Ipv6Location(srcAddr6: Ipv6Addr, dstAddr6: Ipv6Addr, dstPort: u16, m2Pid: u16)
    | UrlLocation(url: seq<byte>)

  /** The `location_type` byte of each kind. */
  function LocationType(l: GeneralLocation): byte
  {
    match l
    case NoneLocation(_) => 0
    case Ipv4Location(_, _, _, _) => 1
    case Ipv6Location(_, _, _, _) => 2
    case M2tsLocation(_, _, _) => 3
    case M2Ipv6Location(_, _, _, _) => 4
    case UrlLocation(_) => 5
  }

  /** Bytes a location takes on the wire, type byte included. */
  function LocationSize(l: GeneralLocation): nat
  {
    match l
    case NoneLocation(_) => 3
    case Ipv4Location(_, _, _, _) => 13
    case Ipv6Location(_, _, _, _) => 37
    case M2tsLocation(_, _, _) => 7
    case M2Ipv6Location(_, _, _, _) => 37
    case UrlLocation(url) => 2 + |url|
  }

  /** MPEG-2 PIDs are 13 bits wide and a URL has a one-byte length. */
  predicate ValidLocation(l: GeneralLocation)
  {
    match l
    case M2tsLocation(_, _, pid) => pid < 0x2000
    case M2Ipv6Location(_, _, _, pid) => pid < 0x2000
    case UrlLocation(url) => |url| < 0x100
    case _ => true
  }

  /** `MmtGeneralLocation::packet_id`: only the kinds that carry MMTP
      packets have one. */
  function PacketId(l: GeneralLocation): (r: Option<u16>)
    ensures r.Some? <==> l.NoneLocation? || l.Ipv4Location? || l.Ipv6Location?
    ensures r.Some? ==> r.value == l.packetId
  {
    match l
    case NoneLocation(id) => Some(id)
    case Ipv4Location(_, _, _, id) => Some(id)
    case Ipv6Location(_, _, _, id) => Some(id)
    case _ => None
  }

  /** The bytes of a location.  An invalid one is written as a single zero
      byte only so that the encoder is total; no lemma reads it back. */
  function EncodeGeneralLocation(l: GeneralLocation): (s: seq<byte>)
    ensures |s| > 0
    ensures ValidLocation(l) ==> |s| == LocationSize(l) && s[0] == LocationType(l)
  {
    if !ValidLocation(l) then [0]
    else
      match l
      case NoneLocation(id) => [0] + U16Bytes(id)
      case Ipv4Location(src, dst, port, id) => [1] + src.octets + dst.octets + U16Bytes(port) + U16Bytes(id)
      case Ipv6Location(src, dst, port, id) => [2] + src.octets + dst.octets + U16Bytes(port) + U16Bytes(id)
      case M2tsLocation(network, ts, pid) => [3] + U16Bytes(network) + U16Bytes(ts) + U16Bytes(pid)
      case M2Ipv6Location(src, dst, port, pid) => [4] + src.octets + dst.octets + U16Bytes(port) + U16Bytes(pid)
      case UrlLocation(url) => [5] + U8Field(url)
  }

  /** `MmtGeneralLocation::read`: a type byte `from_repr` does not know is
      `InvalidData`; otherwise the kind's fields, with MPEG-2 PIDs masked
      to 13 bits.  A location reads exactly its own bytes. */
  function ReadGeneralLocation(s: seq<byte>): (r: Parsed<GeneralLocation>)
    ensures r.Err? <==> 1 <= |s| && s[0] > 5
    ensures r.Err? ==> r.kind == InvalidData
    ensures r.Ok? ==> 1 <= |s| && ValidLocation(r.value) && LocationType(r.value) == s[0]
    ensures r.Ok? ==> LocationSize(r.value) <= |s| && r.rest == s[LocationSize(r.value)..]
  {
    if |s| < 1 then Panic
    else if s[0] > 5 then Err(InvalidData)
    else if s[0] == 0 then
      if |s| < 3 then Panic
      else Ok(NoneLocation(Be16(s[1..3])), s[3..])
    else if s[0] == 1 then
      if |s| < 13 then Panic
      else Ok(Ipv4Location(Ipv4Addr(s[1..5]), Ipv4Addr(s[5..9]), Be16(s[9..11]), Be16(s[11..13])), s[13..])
    else if s[0] == 2 then
      if |s| < 37 then Panic
      else Ok(Ipv6Location(Ipv6Addr(s[1..17]), Ipv6Addr(s[17..33]), Be16(s[33..35]), Be16(s[35..37])), s[37..])
    else if s[0] == 3 then
      if |s| < 7 then Panic
      else Ok(M2tsLocation(Be16(s[1..3]), Be16(s[3..5]), Be16(s[5..7]) % 0x2000), s[7..])
    else if s[0] == 4 then
      if |s| < 37 then Panic
      else Ok(M2Ipv6Location(Ipv6Addr(s[1..17]), Ipv6Addr(s[17..33]), Be16(s[33..35]), Be16(s[35..37]) % 0x2000), s[37..])
    else
      if |s| < 2 || |s| < 2 + s[1] as int then Panic
      else Ok(UrlLocation(s[2..2 + s[1] as int]), s[2 + s[1] as int..])
  }

  lemma ReadEncodeGeneralLocation(l: GeneralLocation, rest: seq<byte>)
    requires ValidLocation(l)
    ensures ReadGeneralLocation(EncodeGeneralLocation(l) + rest) == Ok(l, rest)
  {
    match l
    case NoneLocation(id) => ReadNoneLocation(id, rest);
    case Ipv4Location(src, dst, port, id) => ReadIpv4Location(src, dst, port, id, rest);
    case Ipv6Location(src, dst, port, id) => ReadIpv6Location(2, src, dst, port, id, rest);
    case M2tsLocation(network, ts, pid) => ReadM2tsLocation(network, ts, pid, rest);
    case M2Ipv6Location(src, dst, port, pid) => ReadIpv6Location(4, src, dst, port, pid, rest);
    case UrlLocation(url) => ReadUrlLocation(url, rest);
  }

  lemma ReadNoneLocation(id: u16, rest: seq<byte>)
    ensures ReadGeneralLocation([0] + U16Bytes(id) + rest) == Ok(NoneLocation(id), rest)
  {
    var s := [0] + U16Bytes(id) + rest;
    assert s[1..3] == U16Bytes(id) && s[3..] == rest;
  }

  lemma ReadIpv4Location(src: Ipv4Addr, dst: Ipv4Addr, port: u16, id: u16, rest: seq<byte>)
    ensures ReadGeneralLocation([1] + src.octets + dst.octets + U16Bytes(port) + U16Bytes(id) + rest)
      == Ok(Ipv4Location(src, dst, port, id), rest)
  {
    ReadIpv4Fields(1, src, dst, port, id, rest);
  }

  /** Kind 2 is an IPv6 location with a packet id, kind 4 one with a PID. */
  lemma ReadIpv6Location(kind: byte, src: Ipv6Addr, dst: Ipv6Addr, port: u16, id: u16, rest: seq<byte>)
    requires kind == 2 || (kind == 4 && id < 0x2000)
    ensures ReadGeneralLocation([kind] + src.octets + dst.octets + U16Bytes(port) + U16Bytes(id) + rest)
      == Ok(if kind == 2 then Ipv6Location(src, dst, port, id) else M2Ipv6Location(src, dst, port, id), rest)
  {
    ReadIpv6Fields(kind, src, dst, port, id, rest);
  }

  lemma ReadM2tsLocation(network: u16, ts: u16, pid: u16, rest: seq<byte>)
    requires pid < 0x2000
    ensures ReadGeneralLocation([3] + U16Bytes(network) + U16Bytes(ts) + U16Bytes(pid) + rest)
      == Ok(M2tsLocation(network, ts, pid), rest)
  {
    var s := [3] + U16Bytes(network) + U16Bytes(ts) + U16Bytes(pid) + rest;
    assert s[1..3] == U16Bytes(network) && s[3..5] == U16Bytes(ts) && s[5..7] == U16Bytes(pid) && s[7..] == rest;
  }

  lemma ReadUrlLocation(url: seq<byte>, rest: seq<byte>)
    requires |url| < 0x100
    ensures ReadGeneralLocation([5] + U8Field(url) + rest) == Ok(UrlLocation(url), rest)
  {
    var s := [5] + U8Field(url) + rest;
    assert s[1] == |url| && s[2..2 + |url|] == url && s[2 + |url|..] == rest;
  }

  /** Where the fields of an IPv4 location lie in its bytes. */
  lemma ReadIpv4Fields(kind: byte, src: Ipv4Addr, dst: Ipv4Addr, port: u16, id: u16, rest: seq<byte>)
    ensures var s := [kind] + src.octets + dst.octets + U16Bytes(port) + U16Bytes(id) + rest;
      s[0] == kind && s[1..5] == src.octets && s[5..9] == dst.octets &&
      Be16(s[9..11]) == port && Be16(s[11..13]) == id && s[13..] == rest
  {
    var s := [kind] + src.octets + dst.octets + U16Bytes(port) + U16Bytes(id) + rest;
    assert s[9..11] == U16Bytes(port) && s[11..13] == U16Bytes(id);
  }

  /** Where the fields of an IPv6 location lie in its bytes. */
  lemma ReadIpv6Fields(kind: byte, src: Ipv6Addr, dst: Ipv6Addr, port: u16, id: u16, rest: seq<byte>)
    ensures var s := [kind] + src.octets + dst.octets + U16Bytes(port) + U16Bytes(id) + rest;
      s[0] == kind && s[1..17] == src.octets && s[17..33] == dst.octets &&
      Be16(s[33..35]) == port && Be16(s[35..37]) == id && s[37..] == rest
  {
    var s := [kind] + src.octets + dst.octets + U16Bytes(port) + U16Bytes(id) + rest;
    assert s[33..35] == U16Bytes(port) && s[35..37] == U16Bytes(id);
  }

  lemma GeneralLocationReader()
    ensures Advances(ReadGeneralLocation)
    ensures Inverts(ReadGeneralLocation, EncodeGeneralLocation, ValidLocation)
  {
    forall v | ValidLocation(v)
      ensures InvertsAt(ReadGeneralLocation, EncodeGeneralLocation, v)
    {
      forall rest
        ensures ReadGeneralLocation(EncodeGeneralLocation(v) + rest) == Ok(v, rest) && |EncodeGeneralLocation(v)| > 0
      {
        ReadEncodeGeneralLocation(v, rest);
      }
    }
    forall s | ReadGeneralLocation(s).Ok?
      ensures |ReadGeneralLocation(s).rest| < |s| && IsSuffix(ReadGeneralLocation(s).rest, s)
    {
    }
  }

  /** `IpDeliveryLocation`: the file-delivery locations of the PLT. */
  datatype IpDeliveryLocation =
    | Ipv4Delivery(srcAddr: Ipv4Addr, dstAddr: Ipv4Addr, dstPort: u16)
    | Ipv6Delivery(srcAddr6: Ipv6Addr, dstAddr6: Ipv6Addr, dstPort: u16)
    | UrlDelivery(url: seq<byte>)

  predicate ValidDelivery(l: IpDeliveryLocation)
  {
    l.UrlDelivery? ==> |l.url| < 0x100
  }

  function EncodeDeliveryLocation(l: IpDeliveryLocation): (s: seq<byte>)
    ensures |s| > 0
  {
    if !ValidDelivery(l) then [0]
    else
      match l
      case Ipv4Delivery(src, dst, port) => [1] + src.octets + dst.octets + U16Bytes(port)
      case Ipv6Delivery(src, dst, port) => [2] + src.octets + dst.octets + U16Bytes(port)
      case UrlDelivery(url) => [5] + U8Field(url)
  }

  /** `IpDeliveryLocation::read`: an unknown type byte is `InvalidData`,
      and the known types 0, 3 and 4, which are not IP deliveries, reach
      `unreachable!`. */
  function ReadDeliveryLocation(s: seq<byte>): (r: Parsed<IpDeliveryLocation>)
    ensures r.Err? <==> 1 <= |s| && s[0] > 5
    ensures r.Err? ==> r.kind == InvalidData
    ensures 1 <= |s| && (s[0] == 0 || s[0] == 3 || s[0] == 4) ==> r.Panic?
    ensures r.Ok? ==> ValidDelivery(r.value) && IsSuffix(r.rest, s) && |r.rest| < |s|
  {
    if |s| < 1 then Panic
    else if s[0] > 5 then Err(InvalidData)
    else if s[0] == 1 then
      if |s| < 11 then Panic
      else Ok(Ipv4Delivery(Ipv4Addr(s[1..5]), Ipv4Addr(s[5..9]), Be16(s[9..11])), s[11..])
    else if s[0] == 2 then
      if |s| < 35 then Panic
      else Ok(Ipv6Delivery(Ipv6Addr(s[1..17]), Ipv6Addr(s[17..33]), Be16(s[33..35])), s[35..])
    else if s[0] == 5 then
      if |s| < 2 || |s| < 2 + s[1] as int then Panic
      else Ok(UrlDelivery(s[2..2 + s[1] as int]), s[2 + s[1] as int..])
    else Panic
  }

  lemma ReadEncodeDeliveryLocation(l: IpDeliveryLocation, rest: seq<byte>)
    requires ValidDelivery(l)
    ensures ReadDeliveryLocation(EncodeDeliveryLocation(l) + rest) == Ok(l, rest)
  {
    match l
    case Ipv4Delivery(src, dst, port) => ReadIpv4Delivery(src, dst, port, rest);
    case Ipv6Delivery(src, dst, port) => ReadIpv6Delivery(src, dst, port, rest);
    case UrlDelivery(url) => ReadUrlDelivery(url, rest);
  }

  lemma ReadIpv4Delivery(src: Ipv4Addr, dst: Ipv4Addr, port: u16, rest: seq<byte>)
    ensures ReadDeliveryLocation([1] + src.octets + dst.octets + U16Bytes(port) + rest) == Ok(Ipv4Delivery(src, dst, port), rest)
  {
    var s := [1] + src.octets + dst.octets + U16Bytes(port) + rest;
    assert s[1..5] == src.octets && s[5..9] == dst.octets;
    assert s[9..11] == U16Bytes(port) && s[11..] == rest;
  }

  lemma ReadIpv6Delivery(src: Ipv6Addr, dst: Ipv6Addr, port: u16, rest: seq<byte>)
    ensures ReadDeliveryLocation([2] + src.octets + dst.octets + U16Bytes(port) + rest) == Ok(Ipv6Delivery(src, dst, port), rest)
  {
    var s := [2] + src.octets + dst.octets + U16Bytes(port) + rest;
    assert s[1..17] == src.octets && s[17..33] == dst.octets;
    assert s[33..35] == U16Bytes(port) && s[35..] == rest;
  }

  lemma ReadUrlDelivery(url: seq<byte>, rest: seq<byte>)
    requires |url| < 0x100
    ensures ReadDeliveryLocation([5] + U8Field(url) + rest) == Ok(UrlDelivery(url), rest)
  {
    var s := [5] + U8Field(url) + rest;
    assert s[1] == |url| && s[2..2 + |url|] == url && s[2 + |url|..] == rest;
  }

  // ---------------------------------------------------------------------
  // Package list table (PLT)

  datatype MmtIpDelivery = MmtIpDelivery(
    transportFileId: u32,
    location: IpDeliveryLocation,
    descriptors: seq<Descriptor>)

  /** The descriptor loop of `MmtIpDelivery::read` as written:
      `descriptor_loop_length` is taken as a number of descriptors. */
  function ReadDescriptorCount(s: seq<byte>, n: nat): (r: Parsed<seq<Descriptor>>)
    ensures !r.Err?
    ensures r.Ok? ==> |r.value| == n && IsSuffix(r.rest, s)
  {
    DescriptorReader();
    RepeatCountNeverErr(s, n, ReadDescriptor);
    RepeatCount(s, n, ReadDescriptor)
  }

  /** `MmtIpDelivery::read` as written. */
  function ReadMmtIpDeliveryAsWritten(s: seq<byte>): (r: Parsed<MmtIpDelivery>)
    ensures r.Ok? ==> 4 <= |s| && r.value.transportFileId == Be32(s[..4]) && IsSuffix(r.rest, s)
  {
    if |s| < 4 then Panic
    else
      var (location, s1) :- ReadDeliveryLocation(s[4..]);
      if |s1| < 2 then Panic
      else
        var (ds, s2) :- ReadDescriptorCount(s1[2..], Be16(s1[..2]));
        SuffixTransitive(s2, s1[2..], s[4..]);
        Ok(MmtIpDelivery(Be32(s[..4]), location, ds), s2)
  }

  /** `MmtIpDelivery::read` with `descriptor_loop_length` taken as what
      ARIB STD-B60 makes it, the byte length of the descriptor loop, as every
      other descriptor loop of this file does. */
  function ReadMmtIpDelivery(s: seq<byte>): (r: Parsed<MmtIpDelivery>)
    ensures r.Err? ==> r.kind == InvalidData
    ensures r.Ok? ==> 4 <= |s| && r.value.transportFileId == Be32(s[..4]) && IsSuffix(r.rest, s) && |r.rest| < |s|
  {
    if |s| < 4 then Panic
    else
      var (location, s1) :- ReadDeliveryLocation(s[4..]);
      var (window, s2) :- GetU16Prefixed(s1);
      var (ds, _) :- ReadDescriptorLoop(window);
      GetU16PrefixedSuffix(s1);
      SuffixTransitive(s2, s1, s[4..]);
      Ok(MmtIpDelivery(Be32(s[..4]), location, ds), s2)
  }

  /** The bytes of the example below: a URL delivery with an empty URL,
      a loop length of 3, and one three-byte descriptor of tag 0. */
  const LoopLengthExample: seq<byte> := [0, 0, 0, 0, 5, 0, 0, 3, 0, 0, 0]

  /** Read as written, the loop length 3 asks for three descriptors, and
      the second read panics on the empty rest... */
  lemma DeliveryLoopLengthAsWritten()
    ensures ReadMmtIpDeliveryAsWritten(LoopLengthExample) == Panic
  {
    var s := LoopLengthExample;
    assert s[4..] == [5, 0, 0, 3, 0, 0, 0];
    ExampleUrlDelivery();
    var t: seq<byte> := [0, 3, 0, 0, 0];
    assert t[..2] == [0, 3] && t[2..] == [0, 0, 0];
    ExampleDescriptorCount();
  }

  /** ... while read as a byte length it covers exactly that descriptor. */
  lemma DeliveryLoopLengthCorrected()
    ensures ReadMmtIpDelivery(LoopLengthExample) == Ok(MmtIpDelivery(0, UrlDelivery([]), [Unknown(0, [])]), [])
  {
    var s := LoopLengthExample;
    assert s[..4] == [0, 0, 0, 0] && s[4..] == [5, 0, 0, 3, 0, 0, 0];
    ExampleUrlDelivery();
    ExampleWindow();
    ExampleDescriptorLoop();
    MmtIpDeliveryStep(s, MmtIpDelivery(0, UrlDelivery([]), [Unknown(0, [])]), [0, 3, 0, 0, 0], [0, 0, 0], [], []);
  }

  lemma ExampleUrlDelivery()
    ensures ReadDeliveryLocation([5, 0, 0, 3, 0, 0, 0]) == Ok(UrlDelivery([]), [0, 3, 0, 0, 0])
  {
    var s: seq<byte> := [5, 0, 0, 3, 0, 0, 0];
    assert s[2..2] == [] && s[2..] == [0, 3, 0, 0, 0];
  }

  lemma ExampleWindow()
    ensures GetU16Prefixed([0, 3, 0, 0, 0]) == Ok([0, 0, 0], [])
  {
    var frame: seq<byte> := [0, 0, 0];
    assert U16Field(frame) + [] == [0, 3, 0, 0, 0];
    GetU16PrefixedOf(frame, []);
  }

  lemma ExampleDescriptorLoop()
    ensures ReadDescriptorLoop([0, 0, 0]) == Ok([Unknown(0, [])], [])
  {
    ReadUnknownFrame();
    DescriptorReader();
    RepeatAboveOne([0, 0, 0], 0, ReadDescriptor, Unknown(0, []), []);
  }

  /** Three descriptors asked of a single three-byte frame. */
  lemma ExampleDescriptorCount()
    ensures ReadDescriptorCount([0, 0, 0], 3) == Panic
  {
    ReadUnknownFrame();
    DescriptorReader();
    assert ReadDescriptor([]) == Panic;
    assert RepeatCount([], 2, ReadDescriptor) == Panic;
  }

  lemma ReadUnknownFrame()
    ensures ReadDescriptor([0, 0, 0]) == Ok(Unknown(0, []), [])
  {
    var frame: seq<byte> := [0, 0, 0];
    assert frame[..2] == [0, 0] && frame[2..] == [0];
    assert ReadFrame(frame) == Ok((0, []), []);
  }

  /** `ReadMmtIpDelivery` from the outcomes of the reads it is made of. */
  lemma MmtIpDeliveryStep(s: seq<byte>, d: MmtIpDelivery, t1: seq<byte>, window: seq<byte>, t2: seq<byte>, t3: seq<byte>)
    requires 4 <= |s| && Be32(s[..4]) == d.transportFileId
    requires ReadDeliveryLocation(s[4..]) == Ok(d.location, t1)
    requires GetU16Prefixed(t1) == Ok(window, t2)
    requires ReadDescriptorLoop(window) == Ok(d.descriptors, t3)
    ensures ReadMmtIpDelivery(s) == Ok(d, t2)
  {
  }

  predicate ValidMmtIpDelivery(d: MmtIpDelivery)
  {
    ValidDelivery(d.location) &&
    (forall x :: x in d.descriptors ==> Writable(x)) &&
    |Flatten(d.descriptors, DescriptorBytes)| < 0x1_0000
  }

  function EncodeMmtIpDelivery(d: MmtIpDelivery): (s: seq<byte>)
    ensures |s| > 0
  {
    if !ValidMmtIpDelivery(d) then [0]
    else U32Bytes(d.transportFileId) + (EncodeDeliveryLocation(d.location) + U16Field(Flatten(d.descriptors, DescriptorBytes)))
  }

  lemma ReadEncodeMmtIpDelivery(d: MmtIpDelivery, rest: seq<byte>)
    requires ValidMmtIpDelivery(d)
    ensures ReadMmtIpDelivery(EncodeMmtIpDelivery(d) + rest) == Ok(d, rest)
  {
    var w := Flatten(d.descriptors, DescriptorBytes);
    var t2 := U16Field(w) + rest;
    var t1 := EncodeDeliveryLocation(d.location) + t2;
    var s := U32Bytes(d.transportFileId) + t1;
    assert EncodeMmtIpDelivery(d) + rest == s by {
      ConcatAssoc(EncodeDeliveryLocation(d.location), U16Field(w), rest);
      ConcatAssoc(U32Bytes(d.transportFileId), EncodeDeliveryLocation(d.location) + U16Field(w), rest);
    }
    assert s[..4] == U32Bytes(d.transportFileId) && s[4..] == t1;
    ReadEncodeDeliveryLocation(d.location, t2);
    GetU16PrefixedOf(w, rest);
    ReadDescriptorLoopOf(d.descriptors);
    MmtIpDeliveryStep(s, d, t2, w, rest, []);
  }

  /** As written, a delivery without descriptors is read back as well: a
      loop length of zero is zero descriptors however it is taken. */
  lemma ReadEncodeMmtIpDeliveryAsWritten(d: MmtIpDelivery, rest: seq<byte>)
    requires ValidMmtIpDelivery(d) && d.descriptors == []
    ensures ReadMmtIpDeliveryAsWritten(EncodeMmtIpDelivery(d) + rest) == Ok(d, rest)
  {
    var t1 := EncodeDeliveryLocation(d.location) + ([0, 0] + rest);
    var s := U32Bytes(d.transportFileId) + t1;
    assert EncodeMmtIpDelivery(d) + rest == s by {
      assert Flatten(d.descriptors, DescriptorBytes) == [];
      assert U16Field([]) == [0, 0];
      ConcatAssoc(EncodeDeliveryLocation(d.location), [0, 0], rest);
      ConcatAssoc(U32Bytes(d.transportFileId), EncodeDeliveryLocation(d.location) + [0, 0], rest);
    }
    assert s[..4] == U32Bytes(d.transportFileId) && s[4..] == t1;
    ReadEncodeDeliveryLocation(d.location, [0, 0] + rest);
    var s1: seq<byte> := [0, 0] + rest;
    assert Be16(s1[..2]) == 0 && s1[2..] == rest;
    assert ReadDescriptorCount(rest, 0) == Ok([], rest);
  }

  lemma MmtIpDeliveryInverts()
    ensures Inverts(ReadMmtIpDelivery, EncodeMmtIpDelivery, ValidMmtIpDelivery)
  {
    forall v | ValidMmtIpDelivery(v)
      ensures InvertsAt(ReadMmtIpDelivery, EncodeMmtIpDelivery, v)
    {
      forall rest
        ensures ReadMmtIpDelivery(EncodeMmtIpDelivery(v) + rest) == Ok(v, rest) && |EncodeMmtIpDelivery(v)| > 0
      {
        ReadEncodeMmtIpDelivery(v, rest);
      }
    }
  }

  /** The `for` loop of IP deliveries in `Plt::read`. */
  function ReadMmtIpDeliveries(s: seq<byte>, n: nat): (r: Parsed<seq<MmtIpDelivery>>)
    ensures r.Err? ==> r.kind == InvalidData
    ensures r.Ok? ==> |r.value| == n && IsSuffix(r.rest, s)
  {
    MmtIpDeliveryReader();
    RepeatCountErrKind(s, n, ReadMmtIpDelivery, InvalidData);
    RepeatCount(s, n, ReadMmtIpDelivery)
  }

  lemma MmtIpDeliveryReader()
    ensures Advances(ReadMmtIpDelivery)
    ensures forall t :: ReadMmtIpDelivery(t).Err? ==> ReadMmtIpDelivery(t).kind == InvalidData
  {
  }

  lemma ReadMmtIpDeliveriesOf(xs: seq<MmtIpDelivery>, rest: seq<byte>)
    requires forall x :: x in xs ==> ValidMmtIpDelivery(x)
    ensures ReadMmtIpDeliveries(Flatten(xs, EncodeMmtIpDelivery) + rest, |xs|) == Ok(xs, rest)
  {
    MmtIpDeliveryInverts();
    MmtIpDeliveryReader();
    RepeatCountOfFlatten(xs, rest, ReadMmtIpDelivery, EncodeMmtIpDelivery, ValidMmtIpDelivery);
  }

  /** A package of the PLT and where its packets are carried. */
  datatype Package = Package(mmtPackageId: seq<byte>, location: GeneralLocation)

  function ReadPackage(s: seq<byte>): (r: Parsed<Package>)
    ensures r.Err? ==> r.kind == InvalidData
    ensures r.Ok? ==> IsSuffix(r.rest, s) && |r.rest| < |s|
  {
    var (id, s1) :- GetU8Prefixed(s);
    var (location, s2) :- ReadGeneralLocation(s1);
    GetU8PrefixedSuffix(s);
    SuffixTransitive(s2, s1, s);
    Ok(Package(id, location), s2)
  }

  predicate ValidPackage(p: Package)
  {
    |p.mmtPackageId| < 0x100 && ValidLocation(p.location)
  }

  function EncodePackage(p: Package): (s: seq<byte>)
    ensures |s| > 0
  {
    if !ValidPackage(p) then [0]
    else U8Field(p.mmtPackageId) + EncodeGeneralLocation(p.location)
  }

  lemma ReadEncodePackage(p: Package, rest: seq<byte>)
    requires ValidPackage(p)
    ensures ReadPackage(EncodePackage(p) + rest) == Ok(p, rest)
  {
    ConcatAssoc(U8Field(p.mmtPackageId), EncodeGeneralLocation(p.location), rest);
    GetU8PrefixedOf(p.mmtPackageId, EncodeGeneralLocation(p.location) + rest);
    ReadEncodeGeneralLocation(p.location, rest);
  }

  lemma PackageInverts()
    ensures Inverts(ReadPackage, EncodePackage, ValidPackage)
  {
    forall v | ValidPackage(v)
      ensures InvertsAt(ReadPackage, EncodePackage, v)
    {
      forall rest
        ensures ReadPackage(EncodePackage(v) + rest) == Ok(v, rest) && |EncodePackage(v)| > 0
      {
        ReadEncodePackage(v, rest);
      }
    }
  }

  /** The `for` loop of packages in `Plt::read`. */
  function ReadPackages(s: seq<byte>, n: nat): (r: Parsed<seq<Package>>)
    ensures r.Err? ==> r.kind == InvalidData
    ensures r.Ok? ==> |r.value| == n && IsSuffix(r.rest, s)
  {
    PackageReader();
    RepeatCountErrKind(s, n, ReadPackage, InvalidData);
    RepeatCount(s, n, ReadPackage)
  }

  lemma PackageReader()
    ensures Advances(ReadPackage)
    ensures forall t :: ReadPackage(t).Err? ==> ReadPackage(t).kind == InvalidData
  {
  }

  lemma ReadPackagesOf(xs: seq<Package>, rest: seq<byte>)
    requires forall x :: x in xs ==> ValidPackage(x)
    ensures ReadPackages(Flatten(xs, EncodePackage) + rest, |xs|) == Ok(xs, rest)
  {
    PackageInverts();
    PackageReader();
    RepeatCountOfFlatten(xs, rest, ReadPackage, EncodePackage, ValidPackage);
  }

  /** Package List Table (PLT). */
  datatype Plt = Plt(version: byte, packages: seq<Package>, ipDeliveries: seq<MmtIpDelivery>)

  /** What `Plt::read` reads after its version and length: a counted loop
      of packages, then a counted loop of IP deliveries. */
  function ReadPltLoops(s: seq<byte>, n: nat): (r: Parsed<(seq<Package>, seq<MmtIpDelivery>)>)
    ensures r.Err? ==> r.kind == InvalidData
    ensures r.Ok? ==> |r.value.0| == n && IsSuffix(r.rest, s)
  {
    var (packages, s1) :- ReadPackages(s, n);
    if |s1| < 1 then Panic
    else
      var (deliveries, s2) :- ReadMmtIpDeliveries(s1[1..], s1[0]);
      assert IsSuffix(s1[1..], s1);
      SuffixTransitive(s2, s1[1..], s1);
      SuffixTransitive(s2, s1, s);
      Ok((packages, deliveries), s2)
  }

  /** `Plt::read`: a version, a length the reader skips, then the two
      loops.  Bytes after the last delivery are left unread. */
  function ReadPlt(s: seq<byte>): (r: Parsed<Plt>)
    ensures r.Err? ==> r.kind == InvalidData
    ensures r.Ok? ==> 4 <= |s| && r.value.version == s[0] && |r.value.packages| == s[3] && IsSuffix(r.rest, s)
  {
    if |s| < 4 then Panic
    else
      var (loops, rest) :- ReadPltLoops(s[4..], s[3]);
      assert IsSuffix(s[4..], s);
      SuffixTransitive(rest, s[4..], s);
      Ok(Plt(s[0], loops.0, loops.1), rest)
  }

  predicate ValidPlt(p: Plt)
  {
    |p.packages| < 0x100 && |p.ipDeliveries| < 0x100 &&
    (forall x :: x in p.packages ==> ValidPackage(x)) &&
    (forall x :: x in p.ipDeliveries ==> ValidMmtIpDelivery(x)) &&
    |PltBody(p)| < 0x1_0000
  }

  /** The two loops of a PLT, each behind its one-byte count. */
  function PltLoops(p: Plt): seq<byte>
  {
    Flatten(p.packages, EncodePackage) +
    ([|p.ipDeliveries| % 0x100] + Flatten(p.ipDeliveries, EncodeMmtIpDelivery))
  }

  /** What follows the PLT's length field. */
  function PltBody(p: Plt): seq<byte>
  {
    [|p.packages| % 0x100] + PltLoops(p)
  }

  function EncodePlt(p: Plt): seq<byte>
    requires ValidPlt(p)
  {
    [p.version] + U16Bytes(|PltBody(p)|) + PltBody(p)
  }

  lemma ReadPltLoopsOf(p: Plt, rest: seq<byte>)
    requires |p.ipDeliveries| < 0x100
    requires forall x :: x in p.packages ==> ValidPackage(x)
    requires forall x :: x in p.ipDeliveries ==> ValidMmtIpDelivery(x)
    ensures ReadPltLoops(PltLoops(p) + rest, |p.packages|) == Ok((p.packages, p.ipDeliveries), rest)
  {
    var ps := Flatten(p.packages, EncodePackage);
    var ds := Flatten(p.ipDeliveries, EncodeMmtIpDelivery);
    SmallCount(|p.ipDeliveries|);
    var t2 := [|p.ipDeliveries|] + (ds + rest);
    assert PltLoops(p) + rest == ps + t2 by {
      ConcatAssoc([|p.ipDeliveries|], ds, rest);
      ConcatAssoc(ps, [|p.ipDeliveries|] + ds, rest);
    }
    ReadPackagesOf(p.packages, t2);
    assert t2[0] == |p.ipDeliveries| && t2[1..] == ds + rest;
    ReadMmtIpDeliveriesOf(p.ipDeliveries, rest);
    PltLoopsStep(ps + t2, |p.packages|, p.packages, t2, p.ipDeliveries, rest);
  }

  /** `ReadPltLoops` from the outcomes of its two loops. */
  lemma PltLoopsStep(s: seq<byte>, n: nat, packages: seq<Package>, t: seq<byte>,
                     deliveries: seq<MmtIpDelivery>, rest: seq<byte>)
    requires ReadPackages(s, n) == Ok(packages, t)
    requires 1 <= |t| && ReadMmtIpDeliveries(t[1..], t[0]) == Ok(deliveries, rest)
    ensures ReadPltLoops(s, n) == Ok((packages, deliveries), rest)
  {
  }

  lemma ReadEncodePlt(p: Plt, rest: seq<byte>)
    requires ValidPlt(p)
    ensures ReadPlt(EncodePlt(p) + rest) == Ok(p, rest)
  {
    SmallCount(|p.packages|);
    Header4(p.version, U16Bytes(|PltBody(p)|), |p.packages|, PltLoops(p), rest);
    ReadPltLoopsOf(p, rest);
    PltStep(EncodePlt(p) + rest, p, rest);
  }

  /** `ReadPlt` from the outcome of its loops. */
  lemma PltStep(s: seq<byte>, p: Plt, rest: seq<byte>)
    requires 4 <= |s| && s[0] == p.version
    requires ReadPltLoops(s[4..], s[3]) == Ok((p.packages, p.ipDeliveries), rest)
    ensures ReadPlt(s) == Ok(p, rest)
  {
  }

  // ---------------------------------------------------------------------
  // MMT package table (MPT)

  /** The `for` loop of locations in `MmtAsset::read`. */
  function ReadLocations(s: seq<byte>, n: nat): (r: Parsed<seq<GeneralLocation>>)
    ensures r.Err? ==> r.kind == InvalidData
    ensures r.Ok? ==> |r.value| == n && IsSuffix(r.rest, s)
  {
    GeneralLocationReader();
    RepeatCountErrKind(s, n, ReadGeneralLocation, InvalidData);
    RepeatCount(s, n, ReadGeneralLocation)
  }

  lemma ReadLocationsOf(xs: seq<GeneralLocation>, rest: seq<byte>)
    requires forall x :: x in xs ==> ValidLocation(x)
    ensures ReadLocations(Flatten(xs, EncodeGeneralLocation) + rest, |xs|) == Ok(xs, rest)
  {
    GeneralLocationReader();
    RepeatCountOfFlatten(xs, rest, ReadGeneralLocation, EncodeGeneralLocation, ValidLocation);
  }

  datatype MmtAsset = MmtAsset(
    identifierType: byte,
    assetIdScheme: seq<byte>,
    assetId: seq<byte>,
    assetType: seq<byte>,
    assetClockRelationFlag: bool,
    locations: seq<GeneralLocation>,
    assetDescriptors: seq<Descriptor>)

  /** The part of `MmtAsset::read` after the clock relation flag: a
      counted loop of locations, then descriptors confined to a window of
      `asset_descriptors_length` bytes, which must all be read (`assert!`). */
  function ReadAssetLoops(s: seq<byte>, n: nat): (r: Parsed<(seq<GeneralLocation>, seq<Descriptor>)>)
    ensures r.Err? ==> r.kind == InvalidData
    ensures r.Ok? ==> |r.value.0| == n && IsSuffix(r.rest, s)
  {
    var (locations, s1) :- ReadLocations(s, n);
    var (window, s2) :- GetU16Prefixed(s1);
    var (ds, _) :- ReadDescriptorLoop(window);
    GetU16PrefixedSuffix(s1);
    SuffixTransitive(s2, s1, s);
    Ok((locations, ds), s2)
  }

  /** `MmtAsset::read`: the identifier, the four-byte asset type, the clock
      relation flag in bit 0 and the two loops. */
  function ReadMmtAsset(s: seq<byte>): (r: Parsed<MmtAsset>)
    ensures r.Err? ==> r.kind == InvalidData
    ensures r.Ok? ==> |r.value.assetIdScheme| == 4 && |r.value.assetType| == 4 && IsSuffix(r.rest, s) && |r.rest| < |s|
  {
    if |s| < 6 then Panic
    else
      var (assetId, s1) :- GetU8Prefixed(s[5..]);
      if |s1| < 6 then Panic
      else
        var (loops, s2) :- ReadAssetLoops(s1[6..], s1[5]);
        AssetSuffix(s, assetId, s1, s2);
        Ok(MmtAsset(s[0], s[1..5], assetId, s1[..4], s1[4] % 2 == 1, loops.0, loops.1), s2)
  }

  lemma AssetSuffix(s: seq<byte>, assetId: seq<byte>, s1: seq<byte>, s2: seq<byte>)
    requires 6 <= |s| && |assetId| < 0x100 && s[5..] == U8Field(assetId) + s1
    requires 6 <= |s1| && IsSuffix(s2, s1[6..])
    ensures IsSuffix(s2, s) && |s2| < |s|
  {
    assert IsSuffix(s1[6..], s1);
    SuffixTransitive(s2, s1[6..], s1);
    assert s[|s| - |s1|..] == s1;
    SuffixTransitive(s2, s1, s);
  }

  predicate ValidMmtAsset(a: MmtAsset)
  {
    |a.assetIdScheme| == 4 && |a.assetId| < 0x100 && |a.assetType| == 4 &&
    |a.locations| < 0x100 && (forall l :: l in a.locations ==> ValidLocation(l)) &&
    (forall d :: d in a.assetDescriptors ==> Writable(d)) &&
    |Flatten(a.assetDescriptors, DescriptorBytes)| < 0x1_0000
  }

  /** The asset type, the flag byte and the location count. */
  function AssetMiddle(a: MmtAsset): seq<byte>
  {
    a.assetType + [if a.assetClockRelationFlag then 1 else 0, |a.locations| % 0x100]
  }

  /** The locations and the descriptor window. */
  function AssetTail(a: MmtAsset): seq<byte>
    requires |Flatten(a.assetDescriptors, DescriptorBytes)| < 0x1_0000
  {
    Flatten(a.locations, EncodeGeneralLocation) + U16Field(Flatten(a.assetDescriptors, DescriptorBytes))
  }

  function EncodeMmtAsset(a: MmtAsset): (s: seq<byte>)
    ensures |s| > 0
  {
    if !ValidMmtAsset(a) then [0]
    else [a.identifierType] + a.assetIdScheme + (U8Field(a.assetId) + (AssetMiddle(a) + AssetTail(a)))
  }

  lemma ReadAssetLoopsOf(a: MmtAsset, rest: seq<byte>)
    requires forall l :: l in a.locations ==> ValidLocation(l)
    requires forall d :: d in a.assetDescriptors ==> Writable(d)
    requires |Flatten(a.assetDescriptors, DescriptorBytes)| < 0x1_0000
    ensures ReadAssetLoops(AssetTail(a) + rest, |a.locations|) == Ok((a.locations, a.assetDescriptors), rest)
  {
    var w := Flatten(a.assetDescriptors, DescriptorBytes);
    ConcatAssoc(Flatten(a.locations, EncodeGeneralLocation), U16Field(w), rest);
    ReadLocationsOf(a.locations, U16Field(w) + rest);
    GetU16PrefixedOf(w, rest);
    ReadDescriptorLoopOf(a.assetDescriptors);
  }

  /** Where the identifier fields of an asset land. */
  lemma AssetHeadFields(id: byte, scheme: seq<byte>, assetId: seq<byte>, t: seq<byte>)
    requires |scheme| == 4 && |assetId| < 0x100
    ensures var s := [id] + scheme + (U8Field(assetId) + t);
      |s| >= 6 && s[0] == id && s[1..5] == scheme && s[5..] == U8Field(assetId) + t
  {
    var s := [id] + scheme + (U8Field(assetId) + t);
    assert s[5..] == U8Field(assetId) + t;
  }

  /** Where the type, the flag and the location count of an asset land. */
  lemma AssetMiddleFields(a: MmtAsset, t: seq<byte>)
    requires |a.assetType| == 4 && |a.locations| < 0x100
    ensures var m := AssetMiddle(a) + t;
      |m| >= 6 && m[..4] == a.assetType && (m[4] % 2 == 1) == a.assetClockRelationFlag &&
      m[5] == |a.locations| && m[6..] == t
  {
    var m := AssetMiddle(a) + t;
    assert m[..4] == a.assetType;
  }

  /** `ReadMmtAsset` from the outcomes of the reads it is made of. */
  lemma AssetStep(s: seq<byte>, a: MmtAsset, t: seq<byte>, rest: seq<byte>)
    requires 6 <= |s| && s[0] == a.identifierType && s[1..5] == a.assetIdScheme
    requires GetU8Prefixed(s[5..]) == Ok(a.assetId, t)
    requires 6 <= |t| && t[..4] == a.assetType && (t[4] % 2 == 1) == a.assetClockRelationFlag
    requires ReadAssetLoops(t[6..], t[5]) == Ok((a.locations, a.assetDescriptors), rest)
    ensures ReadMmtAsset(s) == Ok(a, rest)
  {
  }

  lemma ReadEncodeMmtAsset(a: MmtAsset, rest: seq<byte>)
    requires ValidMmtAsset(a)
    ensures ReadMmtAsset(EncodeMmtAsset(a) + rest) == Ok(a, rest)
  {
    var head := [a.identifierType] + a.assetIdScheme;
    var t := AssetTail(a) + rest;
    var t2 := AssetMiddle(a) + t;
    var s := head + (U8Field(a.assetId) + t2);
    assert EncodeMmtAsset(a) == head + (U8Field(a.assetId) + (AssetMiddle(a) + AssetTail(a)));
    Concat4(head, U8Field(a.assetId), AssetMiddle(a), AssetTail(a), rest);
    assert EncodeMmtAsset(a) + rest == s;
    AssetHeadFields(a.identifierType, a.assetIdScheme, a.assetId, t2);
    GetU8PrefixedOf(a.assetId, t2);
    AssetMiddleFields(a, t);
    ReadAssetLoopsOf(a, rest);
    AssetStep(s, a, t2, rest);
  }

  lemma MmtAssetInverts()
    ensures Inverts(ReadMmtAsset, EncodeMmtAsset, ValidMmtAsset)
  {
    forall v | ValidMmtAsset(v)
      ensures InvertsAt(ReadMmtAsset, EncodeMmtAsset, v)
    {
      forall rest
        ensures ReadMmtAsset(EncodeMmtAsset(v) + rest) == Ok(v, rest) && |EncodeMmtAsset(v)| > 0
      {
        ReadEncodeMmtAsset(v, rest);
      }
    }
  }

  /** The `for` loop of assets in `Mpt::read`. */
  function ReadMmtAssets(s: seq<byte>, n: nat): (r: Parsed<seq<MmtAsset>>)
    ensures r.Err? ==> r.kind == InvalidData
    ensures r.Ok? ==> |r.value| == n && IsSuffix(r.rest, s)
  {
    MmtAssetReader();
    RepeatCountErrKind(s, n, ReadMmtAsset, InvalidData);
    RepeatCount(s, n, ReadMmtAsset)
  }

  lemma MmtAssetReader()
    ensures Advances(ReadMmtAsset)
    ensures forall t :: ReadMmtAsset(t).Err? ==> ReadMmtAsset(t).kind == InvalidData
  {
  }

  lemma ReadMmtAssetsOf(xs: seq<MmtAsset>, rest: seq<byte>)
    requires forall x :: x in xs ==> ValidMmtAsset(x)
    ensures ReadMmtAssets(Flatten(xs, EncodeMmtAsset) + rest, |xs|) == Ok(xs, rest)
  {
    MmtAssetInverts();
    MmtAssetReader();
    RepeatCountOfFlatten(xs, rest, ReadMmtAsset, EncodeMmtAsset, ValidMmtAsset);
  }

  datatype MptMode = Ordered | AfterZero | Arbitrary

  function MptModeCode(m: MptMode): byte
  {
    match m
    case Ordered => 0
    case AfterZero => 1
    case Arbitrary => 2
  }

  /** `MptMode::from_repr` on the low two bits of the mode byte. */
  function MptModeOf(bits: int): (r: Option<MptMode>)
    ensures r.Some? <==> 0 <= bits <= 2
    ensures r.Some? ==> MptModeCode(r.value) == bits
  {
    if bits == 0 then Some(Ordered)
    else if bits == 1 then Some(AfterZero)
    else if bits == 2 then Some(Arbitrary)
    else None
  }

  lemma MptModeOfCode(m: MptMode)
    ensures MptModeCode(m) % 4 == MptModeCode(m)
    ensures MptModeOf(MptModeCode(m) % 4) == Some(m)
  {
    match m
    case Ordered =>
    case AfterZero =>
    case Arbitrary =>
  }

  /** MMT Package Table (MPT). */
  datatype Mpt = Mpt(
    version: byte,
    mptMode: MptMode,
    mmtPackageId: seq<byte>,
    mmtDescriptors: seq<byte>,
    assets: seq<MmtAsset>)

  /** What `Mpt::read` reads after the mode byte. */
  function ReadMptBody(s: seq<byte>, version: byte, mode: MptMode): (r: Parsed<Mpt>)
    ensures r.Err? ==> r.kind == InvalidData
    ensures r.Ok? ==> r.value.version == version && r.value.mptMode == mode
  {
    var (packageId, s1) :- GetU8Prefixed(s);
    var (mmtDescriptors, s2) :- GetU16Prefixed(s1);
    var (n, s3) :- GetU8(s2);
    var (assets, s4) :- ReadMmtAssets(s3, n);
    Ok(Mpt(version, mode, packageId, mmtDescriptors, assets), s4)
  }

  /** `Mpt::read`: the length field must equal what remains after it
      (`assert_eq!`); mode 0b11 is `InvalidData`; the package
      descriptors are kept as raw bytes; then a counted loop of assets. */
  function ReadMpt(s: seq<byte>): (r: Parsed<Mpt>)
    ensures 4 <= |s| && |s| == 3 + Be16(s[1..3]) && s[3] % 4 == 3 ==> r == Err(InvalidData)
    ensures r.Err? ==> r.kind == InvalidData
    ensures r.Ok? ==> 4 <= |s| && |s| == 3 + Be16(s[1..3]) && r.value.version == s[0] && MptModeCode(r.value.mptMode) == s[3] % 4
  {
    if |s| < 3 || |s| != 3 + Be16(s[1..3]) || |s| < 4 then Panic
    else
      match MptModeOf(s[3] % 4)
      case None => Err(InvalidData)
      case Some(mode) => ReadMptBody(s[4..], s[0], mode)
  }

  predicate ValidMpt(m: Mpt)
  {
    |m.mmtPackageId| < 0x100 && |m.mmtDescriptors| < 0x1_0000 &&
    |m.assets| < 0x100 && (forall a :: a in m.assets ==> ValidMmtAsset(a)) &&
    |MptBody(m)| < 0x1_0000
  }

  /** What follows the MPT's mode byte. */
  function MptRest(m: Mpt): seq<byte>
    requires |m.mmtPackageId| < 0x100 && |m.mmtDescriptors| < 0x1_0000
  {
    U8Field(m.mmtPackageId) + (U16Field(m.mmtDescriptors) +
    ([|m.assets| % 0x100] + Flatten(m.assets, EncodeMmtAsset)))
  }

  /** What follows the MPT's length field. */
  function MptBody(m: Mpt): seq<byte>
    requires |m.mmtPackageId| < 0x100 && |m.mmtDescriptors| < 0x1_0000
  {
    [MptModeCode(m.mptMode)] + MptRest(m)
  }

  function EncodeMpt(m: Mpt): seq<byte>
    requires ValidMpt(m)
  {
    [m.version] + U16Bytes(|MptBody(m)|) + MptBody(m)
  }

  lemma ReadMptBodyOf(m: Mpt, rest: seq<byte>)
    requires |m.mmtPackageId| < 0x100 && |m.mmtDescriptors| < 0x1_0000 && |m.assets| < 0x100
    requires forall a :: a in m.assets ==> ValidMmtAsset(a)
    ensures ReadMptBody(MptRest(m) + rest, m.version, m.mptMode) == Ok(m, rest)
  {
    var assets := Flatten(m.assets, EncodeMmtAsset);
    SmallCount(|m.assets|);
    var t3 := [|m.assets|] + (assets + rest);
    var t2 := U16Field(m.mmtDescriptors) + t3;
    Concat4(U8Field(m.mmtPackageId), U16Field(m.mmtDescriptors), [|m.assets|], assets, rest);
    GetU8PrefixedOf(m.mmtPackageId, t2);
    GetU16PrefixedOf(m.mmtDescriptors, t3);
    GetU8Of(|m.assets|, assets + rest);
    ReadMmtAssetsOf(m.assets, rest);
    MptBodyStep(MptRest(m) + rest, m, t2, t3, rest);
  }

  /** `ReadMptBody` from the outcomes of the reads it is made of. */
  lemma MptBodyStep(s: seq<byte>, m: Mpt, t2: seq<byte>, t3: seq<byte>, rest: seq<byte>)
    requires GetU8Prefixed(s) == Ok(m.mmtPackageId, t2)
    requires GetU16Prefixed(t2) == Ok(m.mmtDescriptors, t3)
    requires 1 <= |t3| && GetU8(t3) == Ok(|m.assets|, t3[1..]) && |m.assets| < 0x100
    requires ReadMmtAssets(t3[1..], |m.assets|) == Ok(m.assets, rest)
    ensures ReadMptBody(s, m.version, m.mptMode) == Ok(m, rest)
  {
  }

  /** `ReadMpt` from the outcome of `ReadMptBody`. */
  lemma MptStep(s: seq<byte>, m: Mpt, rest: seq<byte>)
    requires 4 <= |s| && |s| == 3 + Be16(s[1..3]) && s[0] == m.version && s[3] == MptModeCode(m.mptMode)
    requires ReadMptBody(s[4..], m.version, m.mptMode) == Ok(m, rest)
    ensures ReadMpt(s) == Ok(m, rest)
  {
    MptModeOfCode(m.mptMode);
  }

  /** An MPT is read back from its bytes when nothing follows them... */
  lemma ReadEncodeMpt(m: Mpt)
    requires ValidMpt(m)
    ensures ReadMpt(EncodeMpt(m)) == Ok(m, [])
  {
    var s := EncodeMpt(m);
    var len := U16Bytes(|MptBody(m)|);
    assert s + [] == [m.version] + len + ([MptModeCode(m.mptMode)] + MptRest(m)) + [];
    Header4(m.version, len, MptModeCode(m.mptMode), MptRest(m), []);
    assert MptRest(m) + [] == MptRest(m);
    assert s + [] == s;
    assert |s| == 3 + |MptBody(m)| && s[1..3] == len;
    assert Be16(s[1..3]) == |MptBody(m)|;
    assert s[4..] == MptRest(m) + [];
    ReadMptBodyOf(m, []);
    assert ReadMptBody(s[4..], m.version, m.mptMode) == Ok(m, []);
    MptStep(s, m, []);
  }

  /** What `ReadMptBody` leaves is a suffix of its input. */
  lemma ReadMptBodySuffix(s: seq<byte>, version: byte, mode: MptMode)
    ensures ReadMptBody(s, version, mode).Ok? ==> IsSuffix(ReadMptBody(s, version, mode).rest, s)
  {
    var r := ReadMptBody(s, version, mode);
    if r.Ok? {
      var r1 := GetU8Prefixed(s);
      GetU8PrefixedSuffix(s);
      var r2 := GetU16Prefixed(r1.rest);
      GetU16PrefixedSuffix(r1.rest);
      var t := r2.rest[1..];
      assert IsSuffix(t, r2.rest);
      var r4 := ReadMmtAssets(t, r2.rest[0]);
      assert r.rest == r4.rest;
      SuffixTransitive(t, r2.rest, r1.rest);
      SuffixTransitive(t, r1.rest, s);
      SuffixTransitive(r4.rest, t, s);
    }
  }

  /** What `ReadMpt` leaves is a suffix of its input. */
  lemma ReadMptSuffix(s: seq<byte>)
    ensures ReadMpt(s).Ok? ==> IsSuffix(ReadMpt(s).rest, s)
  {
    if ReadMpt(s).Ok? {
      var mode := MptModeOf(s[3] % 4).value;
      ReadMptBodySuffix(s[4..], s[0], mode);
      assert IsSuffix(s[4..], s);
      SuffixTransitive(ReadMpt(s).rest, s[4..], s);
    }
  }

  /** ... and any byte after them makes the length check panic. */
  lemma ReadMptTrailing(m: Mpt, rest: seq<byte>)
    requires ValidMpt(m) && rest != []
    ensures ReadMpt(EncodeMpt(m) + rest) == Panic
  {
    var s := EncodeMpt(m) + rest;
    assert s[1..3] == U16Bytes(|MptBody(m)|);
  }
}
