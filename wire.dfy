/** Byte-level reading shared by every wire-format parser of the
    chibitv_b60 crate: fixed-width unsigned integers, big-endian decoding,
    the `Bytes` cursor extension of read_ext.rs, and the two loop shapes
    ("read items while bytes remain", "read n items") that the table and
    descriptor readers are built from.

    A cursor is a `seq<byte>`: reading from it yields the value read and the
    suffix left unread.  A read has three outcomes, kept apart:
    `Ok(value, rest)`; `Err(kind)`, an `std::io::Error` returned to the
    caller; and `Panic`, a Rust panic (`Bytes::get_*` or `split_to` on a
    short buffer, `unwrap`, `assert!`, `todo!`, `unimplemented!`, or an
    integer underflow in a debug build). */
module Wire {

  type byte = x: int | 0 <= x < 0x100
  type u16 = x: int | 0 <= x < 0x1_0000
  type u32 = x: int | 0 <= x < 0x1_0000_0000
  type u64 = x: int | 0 <= x < 0x1_0000_0000_0000_0000

  const U32_MAX: u32 := 0xFFFF_FFFF

  datatype Option<T> = None | Some(value: T)

  /** The `std::io::ErrorKind`s the readers return. */
  datatype ErrorKind = UnexpectedEof | InvalidData

  /** Outcome of reading one value from a cursor. */
  datatype Parsed<+T> = Ok(value: T, rest: seq<byte>) | Err(kind: ErrorKind) | Panic
  {
    predicate IsFailure() { !Ok? }

    function PropagateFailure<U>(): Parsed<U>
      requires !Ok?
    {
      if Err? then Err(kind) else Panic
    }

    function Extract(): (T, seq<byte>)
      requires Ok?
    {
      (value, rest)
    }
  }

  /** Outcome of a conversion that reads no cursor (`TryFrom`, a whole-buffer
      parse): the same three cases without the unread rest. */
  datatype Outcome<+T> = Success(value: T) | Failure(kind: ErrorKind) | Abort
  {
    predicate IsFailure() { !Success? }

    function PropagateFailure<U>(): Outcome<U>
      requires !Success?
    {
      if Failure? then Failure(kind) else Abort
    }

    function Extract(): T
      requires Success?
    {
      value
    }
  }

  /** The outcome of a read, forgetting what was left unread. */
  function Finish<T>(r: Parsed<T>): (o: Outcome<T>)
    ensures o.Success? <==> r.Ok?
    ensures o.Success? ==> o.value == r.value
    ensures o.Failure? <==> r.Err?
    ensures o.Failure? ==> o.kind == r.kind
  {
    match r
    case Ok(v, _) => Success(v)
    case Err(k) => Failure(k)
    case Panic => Abort
  }

  /** `t` is what is left of `s` after reading some prefix of it. */
  predicate IsSuffix(t: seq<byte>, s: seq<byte>)
  {
    |t| <= |s| && s[|s| - |t|..] == t
  }

  /** Number of bytes a successful read consumed. */
  function Used<T>(s: seq<byte>, r: Parsed<T>): int
    requires r.Ok?
  {
    |s| - |r.rest|
  }

  /** Skipping the `|e|` bytes of `e` in front of `rest`. */
  lemma SkipPrefix(s: seq<byte>, index: nat, e: seq<byte>, rest: seq<byte>)
    requires index <= |s| && s[index..] == e + rest
    ensures index + |e| <= |s| && s[index + |e|..] == rest
  {
    assert s[index + |e|..] == s[index..][|e|..];
  }

  lemma ConcatAssoc(a: seq<byte>, b: seq<byte>, c: seq<byte>)
    ensures a + (b + c) == (a + b) + c
  {
  }

  /** A count below 0x100 is its own `as u8`. */
  lemma SmallCount(n: nat)
    requires n < 0x100
    ensures n % 0x100 == n
  {
  }

  lemma Concat4(a: seq<byte>, b: seq<byte>, c: seq<byte>, d: seq<byte>, rest: seq<byte>)
    ensures (a + (b + (c + d))) + rest == a + (b + (c + (d + rest)))
  {
  }

  /** Where the fields of a one-byte, two-byte, one-byte header land. */
  lemma Header4(a: byte, b: seq<byte>, c: byte, tail: seq<byte>, rest: seq<byte>)
    requires |b| == 2
    ensures var s := [a] + b + ([c] + tail) + rest;
      |s| >= 4 && s[0] == a && s[1..3] == b && s[3] == c && s[4..] == tail + rest
  {
    var s := [a] + b + ([c] + tail) + rest;
    assert s == [a] + b + [c] + (tail + rest);
  }

  /** Where a byte, a fixed-size field and a body land, with more after
      them. */
  lemma FieldLayout(a: byte, h: seq<byte>, b: seq<byte>, rest: seq<byte>)
    ensures var s := [a] + h + b + rest;
      |s| == 1 + |h| + |b| + |rest| && s[0] == a && s[1..1 + |h|] == h && s[1 + |h|..] == b + rest
  {
    var s := [a] + h + b + rest;
    assert s == [a] + h + (b + rest);
  }

  /** Where the fields of a two-byte, one-byte, two-byte header land. */
  lemma Header5(a: seq<byte>, b: byte, c: seq<byte>, w: seq<byte>, rest: seq<byte>)
    requires |a| == 2 && |c| == 2
    ensures var s := a + [b] + c + w + rest;
      |s| >= 5 && s[..2] == a && s[2] == b && s[3..5] == c && s[5..] == w + rest
  {
    var s := a + [b] + c + w + rest;
    assert s == a + [b] + c + (w + rest);
  }

  lemma SuffixTransitive(u: seq<byte>, t: seq<byte>, s: seq<byte>)
    requires IsSuffix(u, t) && IsSuffix(t, s)
    ensures IsSuffix(u, s)
  {
    assert s[|s| - |u|..] == s[|s| - |t|..][|t| - |u|..];
  }

  // ---------------------------------------------------------------------
  // Big-endian integers

  function Be16(s: seq<byte>): u16
    requires |s| == 2
  {
    s[0] as int * 0x100 + s[1]
  }

  function Be32(s: seq<byte>): u32
    requires |s| == 4
  {
    Be16(s[..2]) * 0x1_0000 + Be16(s[2..])
  }

  function Be64(s: seq<byte>): u64
    requires |s| == 8
  {
    Be32(s[..4]) * 0x1_0000_0000 + Be32(s[4..])
  }

  /** Network-order encodings, the inverses of the decoders above. */
  function U16Bytes(v: u16): (s: seq<byte>)
    ensures |s| == 2 && Be16(s) == v
  {
    [v / 0x100, v % 0x100]
  }

  function U32Bytes(v: u32): (s: seq<byte>)
    ensures |s| == 4 && Be32(s) == v
  {
    var s := U16Bytes(v / 0x1_0000) + U16Bytes(v % 0x1_0000);
    assert s[..2] == U16Bytes(v / 0x1_0000) && s[2..] == U16Bytes(v % 0x1_0000);
    s
  }

  function U64Bytes(v: u64): (s: seq<byte>)
    ensures |s| == 8 && Be64(s) == v
  {
    var s := U32Bytes(v / 0x1_0000_0000) + U32Bytes(v % 0x1_0000_0000);
    assert s[..4] == U32Bytes(v / 0x1_0000_0000) && s[4..] == U32Bytes(v % 0x1_0000_0000);
    s
  }

  lemma Be16Injective(a: seq<byte>, b: seq<byte>)
    requires |a| == 2 && |b| == 2 && Be16(a) == Be16(b)
    ensures a == b
  {
  }

  lemma {:induction false} U16BytesOfBe16(s: seq<byte>)
    requires |s| == 2
    ensures U16Bytes(Be16(s)) == s
  {
    Be16Injective(U16Bytes(Be16(s)), s);
  }

  lemma {:induction false} U32BytesOfBe32(s: seq<byte>)
    requires |s| == 4
    ensures U32Bytes(Be32(s)) == s
  {
    var e := U32Bytes(Be32(s));
    assert Be16(s[..2]) == Be32(s) / 0x1_0000 && Be16(s[2..]) == Be32(s) % 0x1_0000;
    assert e[..2] == U16Bytes(Be32(s) / 0x1_0000) && e[2..] == U16Bytes(Be32(s) % 0x1_0000);
    U16BytesOfBe16(s[..2]);
    U16BytesOfBe16(s[2..]);
    assert s == s[..2] + s[2..];
  }

  lemma {:induction false} U64BytesOfBe64(s: seq<byte>)
    requires |s| == 8
    ensures U64Bytes(Be64(s)) == s
  {
    var e := U64Bytes(Be64(s));
    assert Be32(s[..4]) == Be64(s) / 0x1_0000_0000 && Be32(s[4..]) == Be64(s) % 0x1_0000_0000;
    assert e[..4] == U32Bytes(Be64(s) / 0x1_0000_0000) && e[4..] == U32Bytes(Be64(s) % 0x1_0000_0000);
    U32BytesOfBe32(s[..4]);
    U32BytesOfBe32(s[4..]);
    assert s == s[..4] + s[4..];
  }

  // ---------------------------------------------------------------------
  // read_ext.rs: the `BytesExt` cursor primitives

  type Octets4 = s: seq<byte> | |s| == 4 witness [0, 0, 0, 0]
  type Octets16 = s: seq<byte> | |s| == 16 witness seq(16, _ => 0)

  /** `std::net::Ipv4Addr` built from four octets in network order. */
  datatype Ipv4Addr = Ipv4Addr(octets: Octets4)
  {
    /** The address as the integer it denotes (`u32::from(addr)`). */
    function Bits(): u32 { Be32(octets) }
  }

  /** `std::net::Ipv6Addr` built from sixteen octets in network order. */
  datatype Ipv6Addr = Ipv6Addr(octets: Octets16)

  /** `get_byte_array::<N>`: splits off the first `n` bytes.  The Rust
      `split_to` panics when fewer than `n` remain; that is the precondition. */
  function GetByteArray(s: seq<byte>, n: nat): (r: (seq<byte>, seq<byte>))
    requires n <= |s|
    ensures |r.0| == n && r.0 + r.1 == s
  {
    (s[..n], s[n..])
  }

  function GetIpv4Addr(s: seq<byte>): (r: (Ipv4Addr, seq<byte>))
    requires 4 <= |s|
    ensures r.0.octets + r.1 == s
    ensures r.0.Bits() == s[0] as int * 0x100_0000 + s[1] as int * 0x1_0000 + s[2] as int * 0x100 + s[3]
  {
    var (a, rest) := GetByteArray(s, 4);
    (Ipv4Addr(a), rest)
  }

  function GetIpv6Addr(s: seq<byte>): (r: (Ipv6Addr, seq<byte>))
    requires 16 <= |s|
    ensures r.0.octets + r.1 == s
  {
    var (a, rest) := GetByteArray(s, 16);
    (Ipv6Addr(a), rest)
  }

  /** Reading `n` and then `m` bytes is reading `n + m` bytes and splitting
      the result at `n`: the cursor only ever walks down suffixes. */
  lemma {:induction false} GetByteArrayTwice(s: seq<byte>, n: nat, m: nat)
    requires n + m <= |s|
    ensures GetByteArray(s, n).0 == GetByteArray(s, n + m).0[..n]
    ensures GetByteArray(GetByteArray(s, n).1, m).0 == GetByteArray(s, n + m).0[n..]
    ensures GetByteArray(GetByteArray(s, n).1, m).1 == GetByteArray(s, n + m).1
  {
    var (a, r1) := GetByteArray(s, n);
    var (b, r2) := GetByteArray(r1, m);
    var (c, r3) := GetByteArray(s, n + m);
    assert s == a + r1 && r1 == b + r2 && s == c + r3;
    assert s[..n] == a && s[n..n + m] == b;
    assert c == s[..n + m];
    assert c[..n] == a && c[n..] == b;
  }

  // ---------------------------------------------------------------------
  // `bytes::Buf` getters on a `Bytes` cursor: a short buffer panics.

  function GetU8(s: seq<byte>): (r: Parsed<byte>)
    ensures r.Ok? <==> 1 <= |s|
    ensures r.Ok? ==> r.value == s[0] && r.rest == s[1..]
    ensures !r.Ok? ==> r.Panic?
  {
    if |s| < 1 then Panic else Ok(s[0], s[1..])
  }

  function GetU16(s: seq<byte>): (r: Parsed<u16>)
    ensures r.Ok? <==> 2 <= |s|
    ensures r.Ok? ==> r.value == Be16(s[..2]) && r.rest == s[2..]
    ensures !r.Ok? ==> r.Panic?
  {
    if |s| < 2 then Panic else Ok(Be16(s[..2]), s[2..])
  }

  function GetU32(s: seq<byte>): (r: Parsed<u32>)
    ensures r.Ok? <==> 4 <= |s|
    ensures r.Ok? ==> r.value == Be32(s[..4]) && r.rest == s[4..]
    ensures !r.Ok? ==> r.Panic?
  {
    if |s| < 4 then Panic else Ok(Be32(s[..4]), s[4..])
  }

  function GetU64(s: seq<byte>): (r: Parsed<u64>)
    ensures r.Ok? <==> 8 <= |s|
    ensures r.Ok? ==> r.value == Be64(s[..8]) && r.rest == s[8..]
    ensures !r.Ok? ==> r.Panic?
  {
    if |s| < 8 then Panic else Ok(Be64(s[..8]), s[8..])
  }

  /** `Bytes::split_to(n)`: panics when `n` exceeds what remains. */
  function SplitTo(s: seq<byte>, n: nat): (r: Parsed<seq<byte>>)
    ensures r.Ok? <==> n <= |s|
    ensures r.Ok? ==> r.value + r.rest == s && |r.value| == n
    ensures !r.Ok? ==> r.Panic?
  {
    if |s| < n then Panic else Ok(s[..n], s[n..])
  }

  // ---------------------------------------------------------------------
  // `std::io::Read` getters (byteorder `read_*`, `read_exact`): a short
  // stream is an `UnexpectedEof` error, not a panic.

  function ReadU8(s: seq<byte>): (r: Parsed<byte>)
    ensures r.Ok? <==> 1 <= |s|
    ensures r.Ok? ==> r.value == s[0] && r.rest == s[1..]
    ensures !r.Ok? ==> r == Err(UnexpectedEof)
  {
    if |s| < 1 then Err(UnexpectedEof) else Ok(s[0], s[1..])
  }

  function ReadU16(s: seq<byte>): (r: Parsed<u16>)
    ensures r.Ok? <==> 2 <= |s|
    ensures r.Ok? ==> r.value == Be16(s[..2]) && r.rest == s[2..]
    ensures !r.Ok? ==> r == Err(UnexpectedEof)
  {
    if |s| < 2 then Err(UnexpectedEof) else Ok(Be16(s[..2]), s[2..])
  }

  function ReadU32(s: seq<byte>): (r: Parsed<u32>)
    ensures r.Ok? <==> 4 <= |s|
    ensures r.Ok? ==> r.value == Be32(s[..4]) && r.rest == s[4..]
    ensures !r.Ok? ==> r == Err(UnexpectedEof)
  {
    if |s| < 4 then Err(UnexpectedEof) else Ok(Be32(s[..4]), s[4..])
  }

  /** `read_exact` into a buffer of `n` bytes. */
  function ReadExact(s: seq<byte>, n: nat): (r: Parsed<seq<byte>>)
    ensures r.Ok? <==> n <= |s|
    ensures r.Ok? ==> r.value + r.rest == s && |r.value| == n
    ensures !r.Ok? ==> r == Err(UnexpectedEof)
  {
    if |s| < n then Err(UnexpectedEof) else Ok(s[..n], s[n..])
  }

  // Reading what the encoders wrote

  lemma GetU8Of(v: byte, rest: seq<byte>)
    ensures GetU8([v] + rest) == Ok(v, rest) && ReadU8([v] + rest) == Ok(v, rest)
  {
    assert ([v] + rest)[1..] == rest;
  }

  lemma GetU16Of(v: u16, rest: seq<byte>)
    ensures GetU16(U16Bytes(v) + rest) == Ok(v, rest) && ReadU16(U16Bytes(v) + rest) == Ok(v, rest)
  {
    var s := U16Bytes(v) + rest;
    assert s[..2] == U16Bytes(v) && s[2..] == rest;
  }

  lemma GetU32Of(v: u32, rest: seq<byte>)
    ensures GetU32(U32Bytes(v) + rest) == Ok(v, rest) && ReadU32(U32Bytes(v) + rest) == Ok(v, rest)
  {
    var s := U32Bytes(v) + rest;
    assert s[..4] == U32Bytes(v) && s[4..] == rest;
  }

  lemma GetU64Of(v: u64, rest: seq<byte>)
    ensures GetU64(U64Bytes(v) + rest) == Ok(v, rest)
  {
    var s := U64Bytes(v) + rest;
    assert s[..8] == U64Bytes(v) && s[8..] == rest;
  }

  lemma SplitToOf(a: seq<byte>, rest: seq<byte>)
    ensures SplitTo(a + rest, |a|) == Ok(a, rest) && ReadExact(a + rest, |a|) == Ok(a, rest)
  {
    assert (a + rest)[..|a|] == a && (a + rest)[|a|..] == rest;
  }

  /** The bytes of a field behind a one-byte length. */
  function U8Field(v: seq<byte>): seq<byte>
    requires |v| < 0x100
  {
    [|v|] + v
  }

  /** The bytes of a field behind a two-byte length. */
  function U16Field(v: seq<byte>): seq<byte>
    requires |v| < 0x1_0000
  {
    U16Bytes(|v|) + v
  }

  /** `get_u8` followed by `split_to` of that many bytes. */
  function GetU8Prefixed(s: seq<byte>): (r: Parsed<seq<byte>>)
    ensures r.Ok? <==> 1 <= |s| && 1 + s[0] <= |s|
    ensures !r.Ok? ==> r.Panic?
    ensures r.Ok? ==> |r.value| < 0x100 && s == U8Field(r.value) + r.rest
  {
    var (n, s1) :- GetU8(s);
    var (v, s2) :- SplitTo(s1, n);
    assert s == [n] + s1;
    Ok(v, s2)
  }

  lemma GetU8PrefixedOf(v: seq<byte>, rest: seq<byte>)
    requires |v| < 0x100
    ensures GetU8Prefixed(U8Field(v) + rest) == Ok(v, rest)
  {
    assert U8Field(v) + rest == [|v|] + (v + rest);
    GetU8Of(|v|, v + rest);
    SplitToOf(v, rest);
  }

  /** `get_u16` followed by `split_to` of that many bytes. */
  function GetU16Prefixed(s: seq<byte>): (r: Parsed<seq<byte>>)
    ensures r.Ok? <==> 2 <= |s| && 2 + Be16(s[..2]) <= |s|
    ensures !r.Ok? ==> r.Panic?
    ensures r.Ok? ==> |r.value| == Be16(s[..2]) && s[2..] == r.value + r.rest
  {
    var (n, s1) :- GetU16(s);
    var (v, s2) :- SplitTo(s1, n);
    Ok(v, s2)
  }

  /** What `GetU8Prefixed` leaves is a suffix of its input. */
  lemma GetU8PrefixedSuffix(s: seq<byte>)
    ensures GetU8Prefixed(s).Ok? ==> IsSuffix(GetU8Prefixed(s).rest, s) && |GetU8Prefixed(s).rest| < |s|
  {
    var r := GetU8Prefixed(s);
    if r.Ok? {
      assert s[|s| - |r.rest|..] == r.rest;
    }
  }

  /** What `GetU16Prefixed` leaves is a suffix of its input. */
  lemma GetU16PrefixedSuffix(s: seq<byte>)
    ensures GetU16Prefixed(s).Ok? ==> IsSuffix(GetU16Prefixed(s).rest, s) && |GetU16Prefixed(s).rest| < |s|
  {
    var r := GetU16Prefixed(s);
    if r.Ok? {
      assert s[|s| - |r.rest|..] == r.rest;
    }
  }

  /** The bytes `GetU16Prefixed` consumed are the field it returns. */
  lemma GetU16PrefixedReadsBack(s: seq<byte>)
    ensures GetU16Prefixed(s).Ok? ==>
      |GetU16Prefixed(s).value| < 0x1_0000 &&
      s == U16Field(GetU16Prefixed(s).value) + GetU16Prefixed(s).rest
  {
    var r := GetU16Prefixed(s);
    if r.Ok? {
      U16BytesOfBe16(s[..2]);
      assert s == s[..2] + s[2..];
    }
  }

  lemma GetU16PrefixedOf(v: seq<byte>, rest: seq<byte>)
    requires |v| < 0x1_0000
    ensures GetU16Prefixed(U16Field(v) + rest) == Ok(v, rest)
  {
    assert U16Field(v) + rest == U16Bytes(|v|) + (v + rest);
    GetU16Of(|v|, v + rest);
    SplitToOf(v, rest);
  }

  // ---------------------------------------------------------------------
  // The two loop shapes of the readers

  /** Every successful read of `p` consumes at least one byte and leaves a
      suffix of its input: the condition for the loops below to end. */
  ghost predicate Advances<T>(p: seq<byte> -> Parsed<T>)
  {
    forall s :: p(s).Ok? ==> |p(s).rest| < |s| && IsSuffix(p(s).rest, s)
  }

  /** Items read so far, put in front of the outcome of the remaining reads. */
  function Prepend<T>(xs: seq<T>, r: Parsed<seq<T>>): Parsed<seq<T>>
  {
    if r.Ok? then Ok(xs + r.value, r.rest) else r
  }

  /** `while bytes.remaining() > floor { items.push(p(&mut bytes)?); }` —
      with `floor` 0 this is the `while bytes.has_remaining()` loop. */
  function RepeatAbove<T>(s: seq<byte>, floor: nat, p: seq<byte> -> Parsed<T>): (r: Parsed<seq<T>>)
    requires Advances(p)
    ensures r.Ok? ==> IsSuffix(r.rest, s)
    ensures r.Ok? && |s| > floor ==> |r.rest| <= floor
    ensures |s| <= floor ==> r == Ok([], s)
    decreases |s|
  {
    if |s| <= floor then Ok([], s)
    else
      var (x, s1) :- p(s);
      var (xs, s2) :- RepeatAbove(s1, floor, p);
      SuffixTransitive(s2, s1, s);
      Ok([x] + xs, s2)
  }

  /** `for _ in 0..n { items.push(p(&mut bytes)?); }` */
  function RepeatCount<T>(s: seq<byte>, n: nat, p: seq<byte> -> Parsed<T>): (r: Parsed<seq<T>>)
    requires Advances(p)
    ensures r.Ok? ==> |r.value| == n && IsSuffix(r.rest, s)
    ensures r.Ok? ==> |r.rest| + n <= |s|
  {
    if n == 0 then Ok([], s)
    else
      var (x, s1) :- p(s);
      var (xs, s2) :- RepeatCount(s1, n - 1, p);
      SuffixTransitive(s2, s1, s);
      Ok([x] + xs, s2)
  }

  /** A `while` loop that stops after one item. */
  lemma RepeatAboveOne<T>(s: seq<byte>, floor: nat, p: seq<byte> -> Parsed<T>, x: T, t: seq<byte>)
    requires Advances(p) && |s| > floor && p(s) == Ok(x, t) && |t| <= floor
    ensures RepeatAbove(s, floor, p) == Ok([x], t)
  {
    assert RepeatAbove(t, floor, p) == Ok([], t);
    assert [x] + [] == [x];
  }

  /** One iteration of either loop: reading `x` off `cur` moves it from the
      pending reads to the items already read. */
  lemma PrependStep<T>(items: seq<T>, x: T, tail: Parsed<seq<T>>)
    ensures Prepend(items, Prepend([x], tail)) == Prepend(items + [x], tail)
  {
    if tail.Ok? {
      assert items + ([x] + tail.value) == items + [x] + tail.value;
    }
  }

  lemma PrependNone<T>(items: seq<T>, rest: seq<byte>)
    ensures Prepend(items, Ok([], rest)) == Ok(items, rest)
  {
    assert items + [] == items;
  }

  lemma PrependEmpty<T>(r: Parsed<seq<T>>)
    ensures Prepend([], r) == r
  {
    if r.Ok? {
      assert [] + r.value == r.value;
    }
  }

  lemma PrependFailure<T, U>(items: seq<T>, step: Parsed<U>)
    requires step.IsFailure()
    ensures Prepend(items, step.PropagateFailure()) == step.PropagateFailure()
  {
  }

  /** The loop of `RepeatAbove`, written as the Rust code runs it. */
  method ReadWhileAbove<T>(s: seq<byte>, floor: nat, p: seq<byte> -> Parsed<T>) returns (r: Parsed<seq<T>>)
    requires Advances(p)
    ensures r == RepeatAbove(s, floor, p)
  {
    var items: seq<T> := [];
    var cur := s;
    PrependEmpty(RepeatAbove(s, floor, p));
    while |cur| > floor
      invariant RepeatAbove(s, floor, p) == Prepend(items, RepeatAbove(cur, floor, p))
      decreases |cur|
    {
      var step := p(cur);
      if step.IsFailure() {
        PrependFailure(items, step);
        return step.PropagateFailure();
      }
      PrependStep(items, step.value, RepeatAbove(step.rest, floor, p));
      items := items + [step.value];
      cur := step.rest;
    }
    PrependNone(items, cur);
    r := Ok(items, cur);
  }

  /** The loop of `RepeatCount`, written as the Rust code runs it. */
  method ReadTimes<T>(s: seq<byte>, n: nat, p: seq<byte> -> Parsed<T>) returns (r: Parsed<seq<T>>)
    requires Advances(p)
    ensures r == RepeatCount(s, n, p)
  {
    var items: seq<T> := [];
    var cur := s;
    PrependEmpty(RepeatCount(s, n, p));
    for i := 0 to n
      invariant RepeatCount(s, n, p) == Prepend(items, RepeatCount(cur, n - i, p))
    {
      var step := p(cur);
      if step.IsFailure() {
        PrependFailure(items, step);
        return step.PropagateFailure();
      }
      PrependStep(items, step.value, RepeatCount(step.rest, n - i - 1, p));
      items := items + [step.value];
      cur := step.rest;
    }
    PrependNone(items, cur);
    r := Ok(items, cur);
  }

  // ---------------------------------------------------------------------
  // What the loops read, as the concatenation of what each item takes

  /** The bytes of `xs`, each written by `e`, one after the other. */
  function Flatten<T>(xs: seq<T>, e: T -> seq<byte>): seq<byte>
  {
    if xs == [] then [] else e(xs[0]) + Flatten(xs[1..], e)
  }

  /** `p` reads exactly the bytes `e` writes for the value it returns. */
  ghost predicate ReadsBack<T>(p: seq<byte> -> Parsed<T>, e: T -> seq<byte>)
  {
    forall s :: p(s).Ok? ==> s == e(p(s).value) + p(s).rest
  }

  /** `p` gives back `v` from the bytes `e` writes for it, whatever follows
      them, and those bytes are not empty. */
  ghost predicate InvertsAt<T>(p: seq<byte> -> Parsed<T>, e: T -> seq<byte>, v: T)
  {
    forall rest :: p(e(v) + rest) == Ok(v, rest) && |e(v)| > 0
  }

  /** `p` gives back every value `e` writes for a value that satisfies
      `valid`. */
  ghost predicate Inverts<T(!new)>(p: seq<byte> -> Parsed<T>, e: T -> seq<byte>, valid: T -> bool)
  {
    forall v :: valid(v) ==> InvertsAt(p, e, v)
  }

  lemma ReadsBackAdvances<T(!new)>(p: seq<byte> -> Parsed<T>, e: T -> seq<byte>)
    requires ReadsBack(p, e) && forall v :: |e(v)| > 0
    ensures Advances(p)
  {
    forall s | p(s).Ok?
      ensures |p(s).rest| < |s| && IsSuffix(p(s).rest, s)
    {
      var v := p(s).value;
      assert s == e(v) + p(s).rest;
      assert s[|s| - |p(s).rest|..] == p(s).rest;
    }
  }

  lemma FlattenCons<T>(x: T, xs: seq<T>, e: T -> seq<byte>)
    ensures Flatten([x] + xs, e) == e(x) + Flatten(xs, e)
  {
    assert ([x] + xs)[1..] == xs;
  }

  /** A `while has_remaining` loop that succeeds has cut its whole input into
      the items it returns. */
  lemma {:induction false} RepeatAboveFlatten<T>(s: seq<byte>, p: seq<byte> -> Parsed<T>, e: T -> seq<byte>)
    requires Advances(p) && ReadsBack(p, e)
    ensures RepeatAbove(s, 0, p).Ok? ==> RepeatAbove(s, 0, p).rest == [] && s == Flatten(RepeatAbove(s, 0, p).value, e)
    decreases |s|
  {
    var r := RepeatAbove(s, 0, p);
    if r.Ok? && |s| > 0 {
      var step := p(s);
      RepeatAboveFlatten(step.rest, p, e);
      var tail := RepeatAbove(step.rest, 0, p);
      assert r.value == [step.value] + tail.value;
      FlattenCons(step.value, tail.value, e);
    }
  }

  /** ... and reads back every run of items written one after the other. */
  lemma {:induction false} RepeatAboveOfFlatten<T(!new)>(xs: seq<T>, p: seq<byte> -> Parsed<T>, e: T -> seq<byte>, valid: T -> bool)
    requires Advances(p) && Inverts(p, e, valid)
    requires forall x :: x in xs ==> valid(x)
    ensures RepeatAbove(Flatten(xs, e), 0, p) == Ok(xs, [])
    decreases |xs|
  {
    if xs != [] {
      var s := Flatten(xs, e);
      assert valid(xs[0]);
      assert p(e(xs[0]) + Flatten(xs[1..], e)) == Ok(xs[0], Flatten(xs[1..], e)) && |e(xs[0])| > 0;
      RepeatAboveOfFlatten(xs[1..], p, e, valid);
      assert [xs[0]] + xs[1..] == xs;
    }
  }

  /** ... and, with `floor` trailing bytes left over, a `while remaining >
      floor` loop reads back the items written before them and stops at
      those bytes. */
  lemma {:induction false} RepeatAboveOfFlattenTail<T(!new)>(xs: seq<T>, tail: seq<byte>, p: seq<byte> -> Parsed<T>, e: T -> seq<byte>, valid: T -> bool)
    requires Advances(p) && Inverts(p, e, valid)
    requires forall x :: x in xs ==> valid(x)
    ensures RepeatAbove(Flatten(xs, e) + tail, |tail|, p) == Ok(xs, tail)
    decreases |xs|
  {
    if xs == [] {
      assert Flatten(xs, e) + tail == tail;
    } else {
      var s := Flatten(xs, e) + tail;
      var t1 := Flatten(xs[1..], e) + tail;
      ConcatAssoc(e(xs[0]), Flatten(xs[1..], e), tail);
      assert s == e(xs[0]) + t1;
      assert valid(xs[0]);
      assert p(s) == Ok(xs[0], t1) && |e(xs[0])| > 0;
      RepeatAboveOfFlattenTail(xs[1..], tail, p, e, valid);
      assert [xs[0]] + xs[1..] == xs;
    }
  }

  /** A `for 0..n` loop that succeeds read `n` items written one after the
      other. */
  lemma {:induction false} RepeatCountFlatten<T>(s: seq<byte>, n: nat, p: seq<byte> -> Parsed<T>, e: T -> seq<byte>)
    requires Advances(p) && ReadsBack(p, e)
    ensures RepeatCount(s, n, p).Ok? ==> s == Flatten(RepeatCount(s, n, p).value, e) + RepeatCount(s, n, p).rest
  {
    var r := RepeatCount(s, n, p);
    if r.Ok? && n > 0 {
      var step := p(s);
      assert step.Ok?;
      var x, s1 := step.value, step.rest;
      var tail := RepeatCount(s1, n - 1, p);
      assert tail.Ok?;
      assert r.value == [x] + tail.value && r.rest == tail.rest;
      RepeatCountFlatten(s1, n - 1, p, e);
      var f := Flatten(tail.value, e);
      assert s1 == f + tail.rest;
      assert s == e(x) + s1;
      FlattenCons(x, tail.value, e);
      ConcatAssoc(e(x), f, tail.rest);
    }
  }

  lemma {:induction false} RepeatCountOfFlatten<T(!new)>(xs: seq<T>, rest: seq<byte>, p: seq<byte> -> Parsed<T>, e: T -> seq<byte>, valid: T -> bool)
    requires Advances(p) && Inverts(p, e, valid)
    requires forall x :: x in xs ==> valid(x)
    ensures RepeatCount(Flatten(xs, e) + rest, |xs|, p) == Ok(xs, rest)
    decreases |xs|
  {
    if xs != [] {
      var s := Flatten(xs, e) + rest;
      var tail := Flatten(xs[1..], e) + rest;
      assert s == e(xs[0]) + tail;
      assert valid(xs[0]);
      assert p(s) == Ok(xs[0], tail);
      RepeatCountOfFlatten(xs[1..], rest, p, e, valid);
      assert RepeatCount(tail, |xs| - 1, p) == Ok(xs[1..], rest);
      assert [xs[0]] + xs[1..] == xs;
      assert RepeatCount(s, |xs|, p) == Ok([xs[0]] + xs[1..], rest);
    }
  }

  /** What every single read promises holds of every item a loop reads. */
  lemma {:induction false} RepeatAboveAll<T>(s: seq<byte>, floor: nat, p: seq<byte> -> Parsed<T>, P: T -> bool)
    requires Advances(p)
    requires forall t :: p(t).Ok? ==> P(p(t).value)
    ensures RepeatAbove(s, floor, p).Ok? ==> forall x :: x in RepeatAbove(s, floor, p).value ==> P(x)
    decreases |s|
  {
    if |s| > floor && p(s).Ok? {
      RepeatAboveAll(p(s).rest, floor, p, P);
    }
  }

  lemma {:induction false} RepeatCountAll<T>(s: seq<byte>, n: nat, p: seq<byte> -> Parsed<T>, P: T -> bool)
    requires Advances(p)
    requires forall t :: p(t).Ok? ==> P(p(t).value)
    ensures RepeatCount(s, n, p).Ok? ==> forall x :: x in RepeatCount(s, n, p).value ==> P(x)
  {
    if n > 0 && p(s).Ok? {
      RepeatCountAll(p(s).rest, n - 1, p, P);
    }
  }

  /** Loops over readers whose only io error is `k` return no other. */
  lemma {:induction false} RepeatAboveErrKind<T>(s: seq<byte>, floor: nat, p: seq<byte> -> Parsed<T>, k: ErrorKind)
    requires Advances(p) && forall t :: p(t).Err? ==> p(t).kind == k
    ensures RepeatAbove(s, floor, p).Err? ==> RepeatAbove(s, floor, p).kind == k
    decreases |s|
  {
    if |s| > floor && p(s).Ok? {
      RepeatAboveErrKind(p(s).rest, floor, p, k);
    }
  }

  lemma {:induction false} RepeatCountErrKind<T>(s: seq<byte>, n: nat, p: seq<byte> -> Parsed<T>, k: ErrorKind)
    requires Advances(p) && forall t :: p(t).Err? ==> p(t).kind == k
    ensures RepeatCount(s, n, p).Err? ==> RepeatCount(s, n, p).kind == k
  {
    if n > 0 && p(s).Ok? {
      RepeatCountErrKind(p(s).rest, n - 1, p, k);
    }
  }

  /** Loops over readers that never return an io error never return one. */
  lemma {:induction false} RepeatAboveNeverErr<T>(s: seq<byte>, floor: nat, p: seq<byte> -> Parsed<T>)
    requires Advances(p) && forall t :: !p(t).Err?
    ensures !RepeatAbove(s, floor, p).Err?
    decreases |s|
  {
    if |s| > floor && p(s).Ok? {
      RepeatAboveNeverErr(p(s).rest, floor, p);
    }
  }

  lemma {:induction false} RepeatCountNeverErr<T>(s: seq<byte>, n: nat, p: seq<byte> -> Parsed<T>)
    requires Advances(p) && forall t :: !p(t).Err?
    ensures !RepeatCount(s, n, p).Err?
  {
    if n > 0 && p(s).Ok? {
      RepeatCountNeverErr(p(s).rest, n - 1, p);
    }
  }
}
