/** The HEVC access-unit splitter of hevc.rs: Annex B start codes are
    scanned for an access unit delimiter (NAL unit type 35, section 7.3.1.2
    and Table 7-1 of ITU-T H.265), and a growing buffer is cut in front of
    it. */
module Hevc {
  import opened Wire

  /** `HEVC_NAL_AUD`. */
  const AudType: int := 35

  // ---------------------------------------------------------------------
  // The scan window

  /** The eight-byte `state` of `find_next_frame` once the first `n` bytes
      of `b` have been shifted in: the last eight of them, with 0xFF in
      front while fewer than eight have been seen. */
  function Window(b: seq<byte>, n: nat): (w: seq<byte>)
    requires n <= |b|
    ensures |w| == 8
  {
    seq(8, k requires 0 <= k < 8 => if n - 8 + k >= 0 then b[n - 8 + k] else 0xFF)
  }

  /** `(state[5] & 0x7E) >> 1`: the NAL unit type field of the first header byte. */
  function NalType(w: seq<byte>): int
    requires |w| == 8
  {
    w[5] / 2 % 64
  }

  /** `(u64::from_be_bytes(state) >> 11) & 0x3F`. */
  function LayerId(w: seq<byte>): int
    requires |w| == 8
  {
    Be64(w) / 0x800 % 64
  }

  /** The window bits that `LayerId` picks are the six `nuh_layer_id` bits
      of the two-byte NAL unit header: the low bit of the first byte and
      the top five bits of the second. */
  lemma LayerIdBits(w: seq<byte>)
    requires |w| == 8
    ensures LayerId(w) == w[5] % 2 * 32 + w[6] / 8
  {
    Be64Bytes(w);
    LayerIdArith(Be32(w[..4]), w[4], w[5], w[6], w[7]);
  }

  lemma Be64Bytes(w: seq<byte>)
    requires |w| == 8
    ensures Be64(w) == Be32(w[..4]) * 0x1_0000_0000 + w[4] as int * 0x100_0000 + w[5] as int * 0x1_0000 + w[6] as int * 0x100 + w[7]
  {
    var b := w[4..];
    assert b[..2] == w[4..6] && b[2..] == w[6..];
  }

  lemma LayerIdArith(a: int, b4: int, b5: int, b6: int, b7: int)
    requires 0 <= a && 0 <= b4 < 0x100 && 0 <= b5 < 0x100 && 0 <= b6 < 0x100 && 0 <= b7 < 0x100
    ensures (a * 0x1_0000_0000 + b4 * 0x100_0000 + b5 * 0x1_0000 + b6 * 0x100 + b7) / 0x800 % 64 == b5 % 2 * 32 + b6 / 8
  {
    var x := a * 0x1_0000_0000 + b4 * 0x100_0000 + b5 * 0x1_0000 + b6 * 0x100 + b7;
    var q := a * 0x20_0000 + b4 * 0x2000 + b5 * 32 + b6 / 8;
    assert b6 == b6 / 8 * 8 + b6 % 8;
    DivBy2048(x, q, b6 % 8 * 0x100 + b7);
    assert b5 == b5 / 2 * 2 + b5 % 2;
    ModBy64(q, a * 0x8000 + b4 * 0x80 + b5 / 2, b5 % 2 * 32 + b6 / 8);
  }

  lemma DivBy2048(x: int, q: int, r: int)
    requires x == q * 0x800 + r && 0 <= r < 0x800
    ensures x / 0x800 == q
  {
  }

  lemma ModBy64(q: int, h: int, l: int)
    requires q == h * 64 + l && 0 <= l < 64
    ensures q % 64 == l
  {
  }

  /** The window holds `00 00 01`, then a NAL unit header of an access unit
      delimiter in the base layer, then one more byte. */
  predicate AudWindow(w: seq<byte>)
    requires |w| == 8
  {
    w[2] == 0 && w[3] == 0 && w[4] == 1 && LayerId(w) == 0 && NalType(w) == AudType
  }

  /** Where the frame starts once an AUD has been seen at byte `i`: on the
      zero in front of `00 00 01` when there is one, which makes a
      four-byte start code. */
  function FrameStart(w: seq<byte>, i: nat): int
    requires |w| == 8
  {
    if w[1] == 0 then i - 6 else i - 5
  }

  // ---------------------------------------------------------------------
  // The same, stated on the chunk itself

  /** Byte `i` of `b` is the byte after the two-byte header of an access
      unit delimiter with `nuh_layer_id` 0 that a `00 00 01` start code
      introduces. */
  predicate AudAt(b: seq<byte>, i: nat)
  {
    5 <= i < |b| && b[i - 5] == 0 && b[i - 4] == 0 && b[i - 3] == 1 &&
    b[i - 2] / 2 % 64 == AudType && b[i - 2] % 2 == 0 && b[i - 1] / 8 == 0
  }

  /** The first byte of the start code of the AUD seen at byte `i`. */
  function StartCodeAt(b: seq<byte>, i: nat): int
    requires 5 <= i < |b|
  {
    if i >= 6 && b[i - 6] == 0 then i - 6 else i - 5
  }

  lemma WindowAud(b: seq<byte>, i: nat)
    requires i < |b|
    ensures AudWindow(Window(b, i + 1)) <==> AudAt(b, i)
    ensures AudAt(b, i) ==> FrameStart(Window(b, i + 1), i) == StartCodeAt(b, i)
  {
    LayerIdBits(Window(b, i + 1));
  }

  /** The first `i` at or after `from` with an AUD, if any. */
  function FirstAudFrom(b: seq<byte>, from: nat): (r: Option<nat>)
    requires from <= |b|
    decreases |b| - from
  {
    if from == |b| then None
    else if AudAt(b, from) then Some(from)
    else FirstAudFrom(b, from + 1)
  }

  lemma {:induction false} FirstAudFromSpec(b: seq<byte>, from: nat)
    requires from <= |b|
    ensures var r := FirstAudFrom(b, from);
      (r.None? <==> forall i :: from <= i < |b| ==> !AudAt(b, i)) &&
      (r.Some? ==>
        from <= r.value < |b| && AudAt(b, r.value) && forall i :: from <= i < r.value ==> !AudAt(b, i))
    decreases |b| - from
  {
    if from < |b| && !AudAt(b, from) {
      FirstAudFromSpec(b, from + 1);
    }
  }

  /** The reference for `find_next_frame`: the start of the first access
      unit delimiter in the chunk. */
  function NextFrame(b: seq<byte>): Option<nat>
  {
    match FirstAudFrom(b, 0)
    case None => None
    case Some(i) => if 5 <= i < |b| then Some(StartCodeAt(b, i)) else None
  }

  /** `NextFrame` finds a frame exactly when the chunk holds an AUD; the
      offset is that of the first one's start code, a valid index, and
      the chunk continues there with `00 00 01` or `00 00 00 01`. */
  lemma NextFrameSpec(b: seq<byte>)
    ensures NextFrame(b).None? <==> forall i :: 0 <= i < |b| ==> !AudAt(b, i)
    ensures NextFrame(b).Some? ==>
      exists i :: 0 <= i < |b| && AudAt(b, i) && NextFrame(b).value == StartCodeAt(b, i) &&
        forall j :: 0 <= j < i ==> !AudAt(b, j)
    ensures NextFrame(b).Some? ==> var k := NextFrame(b).value;
      k + 5 < |b| &&
      (b[k..k + 3] == [0, 0, 1] || b[k..k + 4] == [0, 0, 0, 1])
  {
    FirstAudFromSpec(b, 0);
    var r := FirstAudFrom(b, 0);
    if r.Some? {
      var i := r.value;
      assert AudAt(b, i);
    }
  }

  /** A start code split over two chunks is not found: the window starts
      out as 0xFF on every call, so the `00 00` at the end of one chunk
      does not count for the `01` that begins the next. */
  lemma SplitStartCodeMissed()
    ensures NextFrame([0, 0, 1, 0x46, 0x01, 0x10]) == Some(0)
    ensures NextFrame([1, 0x46, 0x01, 0x10]) == None
  {
    assert AudAt([0, 0, 1, 0x46, 0x01, 0x10], 5);
    var b := [1, 0x46, 0x01, 0x10];
    assert FirstAudFrom(b, 0) == None by {
      FirstAudFromSpec(b, 0);
    }
  }

  // ---------------------------------------------------------------------
  // The parser value

  /** The value of a `HevcParser`: its buffer and the flag of the
      commented-out slice-based detection. */
  datatype Snapshot = Snapshot(buf: seq<byte>, frameStartFound: bool)

  /** `push`: the new value and the frame cut off, if any. */
  function PushStep(p: Snapshot, input: seq<byte>): (Snapshot, Option<seq<byte>>)
  {
    match NextFrame(input)
    case None => (p.(buf := p.buf + input), None)
    case Some(idx) =>
      if |p.buf| == 0 && idx == 0 then (p, None)
      else if idx <= |input| then (p.(buf := input[idx..]), Some(p.buf + input[..idx]))
      else (p, None)
  }

  function Emitted(out: Option<seq<byte>>): seq<byte>
  {
    if out.Some? then out.value else []
  }

  /** What `push` promises: without an AUD the chunk is appended; with
      one, the frame before its start code comes out (never empty) and the
      buffer restarts at the start code; no byte is lost, except that a
      chunk starting with an AUD on an empty buffer is dropped whole. */
  lemma PushStepSpec(p: Snapshot, input: seq<byte>)
    ensures var (q, out) := PushStep(p, input);
      q.frameStartFound == p.frameStartFound &&
      (NextFrame(input).None? ==> out.None? && q.buf == p.buf + input) &&
      (NextFrame(input).Some? && (|p.buf| > 0 || NextFrame(input).value > 0) ==>
        out.Some? && |out.value| > 0 &&
        p.buf + input == out.value + q.buf &&
        (q.buf[..3] == [0, 0, 1] || q.buf[..4] == [0, 0, 0, 1])) &&
      (NextFrame(input) == Some(0) && |p.buf| == 0 ==> q == p && out.None?) &&
      (out.Some? <==> NextFrame(input).Some? && (|p.buf| > 0 || NextFrame(input).value > 0))
  {
    NextFrameSpec(input);
    match NextFrame(input)
    case None =>
    case Some(idx) =>
      if |p.buf| > 0 || idx > 0 {
        assert p.buf + input == (p.buf + input[..idx]) + input[idx..];
        assert input[idx..][..3] == input[idx..idx + 3];
        assert input[idx..][..4] == input[idx..idx + 4];
      }
  }

  // ---------------------------------------------------------------------
  // The object

  class HevcParser {
    var buf: seq<byte>
    var frameStartFound: bool

    function Value(): Snapshot
      reads this
    {
      Snapshot(buf, frameStartFound)
    }

    /** `HevcParser::default()`. */
    constructor ()
      ensures Value() == Snapshot([], false)
    {
      buf := [];
      frameStartFound := false;
    }

    /** `find_next_frame`: shift each byte into an eight-byte window and
        stop at the first AUD in the base layer. */
    method FindNextFrame(input: seq<byte>) returns (r: Option<nat>)
      ensures r == NextFrame(input)
    {
      var state: seq<byte> := [0xFF, 0xFF, 0xFF, 0xFF, 0xFF, 0xFF, 0xFF, 0xFF];
      var i := 0;
      while i < |input|
        invariant 0 <= i <= |input|
        invariant state == Window(input, i)
        invariant FirstAudFrom(input, 0) == FirstAudFrom(input, i)
      {
        var b := input[i];
        state := [state[1], state[2], state[3], state[4], state[5], state[6], state[7], b];
        assert state == Window(input, i + 1);
        WindowAud(input, i);
        if state[2] == 0 && state[3] == 0 && state[4] == 1 {
          var ty := state[5] / 2 % 64;
          var layerId := Be64(state) / 0x800 % 64;
          if layerId <= 0 && ty == AudType {
            r := Some(if state[1] == 0 then i - 6 else i - 5);
            return;
          }
        }
        i := i + 1;
      }
      r := None;
    }

    method Push(input: seq<byte>) returns (r: Option<seq<byte>>)
      modifies this
      ensures (Value(), r) == PushStep(old(Value()), input)
    {
      var found := FindNextFrame(input);
      match found {
        case Some(idx) =>
          var remaining := |buf|;
          if remaining == 0 && idx == 0 {
            return None;
          }
          NextFrameSpec(input);
          buf := buf + input;
          r := Some(buf[..remaining + idx]);
          buf := buf[remaining + idx..];
          assert r.value == old(buf) + input[..idx];
          assert buf == input[idx..];
        case None =>
          buf := buf + input;
          r := None;
      }
    }
  }
}
