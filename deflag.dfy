/** Reassembly of fragmented MPU and signalling payloads, read from
    deflag.rs: a small state machine with a byte buffer. */
module Deflag {
  import opened Wire
  import opened Mmtp

  datatype State = Init | NotStarted | InFragment | Skip

  /** The value of a `Defragmenter`: its three fields. */
  datatype Snapshot = Snapshot(state: State, lastSequenceNumber: int, buf: seq<byte>)

  /** `Defragmenter::default()`. */
  const Initial: Snapshot := Snapshot(Init, 0, [])

  /** Outside a fragment the buffer holds nothing. */
  predicate Consistent(d: Snapshot)
  {
    d.state != InFragment ==> d.buf == []
  }

  /** `sync`: follow the packet sequence number, drop a partly assembled
      payload on a jump. */
  function SyncStep(d: Snapshot, sequenceNumber: u32): Snapshot
  {
    match d.state
    case Init => Snapshot(Skip, sequenceNumber, d.buf)
    case _ =>
      if sequenceNumber == d.lastSequenceNumber + 1 then d.(lastSequenceNumber := sequenceNumber)
      else if sequenceNumber != d.lastSequenceNumber then Snapshot(Skip, sequenceNumber, [])
      else d
  }

  /** What `sync` promises about the next value. */
  lemma SyncStepSpec(d: Snapshot, sequenceNumber: u32)
    ensures var r := SyncStep(d, sequenceNumber);
      // the last sequence number always becomes the one just seen
      r.lastSequenceNumber == sequenceNumber &&
      // the first packet only leaves Init for Skip
      (d.state == Init ==> r.state == Skip && r.buf == d.buf) &&
      // no jump: state and buffer stay
      (d.state != Init && (sequenceNumber == d.lastSequenceNumber || sequenceNumber == d.lastSequenceNumber + 1) ==>
        r.state == d.state && r.buf == d.buf) &&
      // a jump empties the buffer and skips to the next head
      (d.state != Init && sequenceNumber != d.lastSequenceNumber && sequenceNumber != d.lastSequenceNumber + 1 ==>
        r.state == Skip && r.buf == []) &&
      (Consistent(d) ==> Consistent(r))
  {
  }

  /** The `assert_ne!`/`assert_eq!` of `push`: a head or an unfragmented
      payload cannot arrive inside a fragment, a body or tail only inside
      one or while skipping. */
  predicate CanPush(state: State, indicator: FragmentationIndicator)
  {
    match indicator
    case NotFragmented => state != InFragment
    case FragmentHead => state != InFragment
    case FragmentBody => state == Skip || state == InFragment
    case FragmentTail => state == Skip || state == InFragment
  }

  /** True when `push` throws the payload away: a body or tail after a jump. */
  predicate Dropped(state: State, indicator: FragmentationIndicator)
  {
    state == Skip && (indicator == FragmentBody || indicator == FragmentTail)
  }

  function Emitted(out: Option<seq<byte>>): seq<byte>
  {
    if out.Some? then out.value else []
  }

  /** `push`: the new value and the completed payload, if any. */
  function PushStep(d: Snapshot, indicator: FragmentationIndicator, data: seq<byte>): (Snapshot, Option<seq<byte>>)
    requires CanPush(d.state, indicator)
  {
    match indicator
    case NotFragmented => (d.(state := NotStarted), Some(data))
    case FragmentHead => (d.(state := InFragment, buf := d.buf + data), None)
    case FragmentBody =>
      if d.state == Skip then (d, None)
      else (d.(buf := d.buf + data), None)
    case FragmentTail =>
      if d.state == Skip then (d, None)
      else (d.(state := NotStarted, buf := []), Some(d.buf + data))
  }

  /** What `push` promises about the next value and its output. */
  lemma PushStepSpec(d: Snapshot, indicator: FragmentationIndicator, data: seq<byte>)
    requires CanPush(d.state, indicator)
    ensures var r := PushStep(d, indicator, data);
      r.0.lastSequenceNumber == d.lastSequenceNumber &&
      // a payload comes out exactly for an unfragmented packet or a tail
      // that closes a fragment
      (r.1.Some? <==> indicator == NotFragmented || (indicator == FragmentTail && d.state == InFragment)) &&
      (Dropped(d.state, indicator) ==> r == (d, None)) &&
      // otherwise no byte is lost, invented or reordered
      (Consistent(d) && !Dropped(d.state, indicator) ==> d.buf + data == r.0.buf + Emitted(r.1)) &&
      (Consistent(d) ==> Consistent(r.0)) &&
      (!Dropped(d.state, indicator) ==>
        r.0.state == (if indicator == FragmentHead || indicator == FragmentBody then InFragment else NotStarted))
  {
  }

  // ---------------------------------------------------------------------
  // The object

  class Defragmenter {
    var state: State
    var lastSequenceNumber: int
    var buf: seq<byte>

    function Value(): Snapshot
      reads this
    {
      Snapshot(state, lastSequenceNumber, buf)
    }

    constructor ()
      ensures Value() == Initial
    {
      state := Init;
      lastSequenceNumber := 0;
      buf := [];
    }

    /** `Defragmenter::state`. */
    function CurrentState(): (s: State)
      reads this
      ensures s == Value().state
    {
      state
    }

    method Sync(sequenceNumber: u32)
      modifies this
      ensures Value() == SyncStep(old(Value()), sequenceNumber)
    {
      match state {
        case Init =>
          state := Skip;
          lastSequenceNumber := sequenceNumber;
        case _ =>
          if sequenceNumber == lastSequenceNumber + 1 {
            lastSequenceNumber := sequenceNumber;
          } else if sequenceNumber != lastSequenceNumber {
            if buf != [] {
              buf := [];
            }
            state := Skip;
            lastSequenceNumber := sequenceNumber;
          }
      }
    }

    method Push(indicator: FragmentationIndicator, data: seq<byte>) returns (r: Option<seq<byte>>)
      requires CanPush(state, indicator)
      modifies this
      ensures (Value(), r) == PushStep(old(Value()), indicator, data)
    {
      match indicator {
        case NotFragmented =>
          state := NotStarted;
          r := Some(data);
        case FragmentHead =>
          state := InFragment;
          buf := buf + data;
          r := None;
        case FragmentBody =>
          if state != Skip {
            buf := buf + data;
          }
          r := None;
        case FragmentTail =>
          if state == Skip {
            r := None;
          } else {
            state := NotStarted;
            buf := buf + data;
            r := Some(buf);
            buf := [];
          }
      }
    }
  }

  // ---------------------------------------------------------------------
  // Runs of packets

  /** What a demultiplexer hands the defragmenter for one packet: the
      packet sequence number, the indicator and the payload. */
  datatype Fragment = Fragment(sequenceNumber: u32, indicator: FragmentationIndicator, data: seq<byte>)

  datatype Run = Panicked | Ran(final: Snapshot, outputs: seq<seq<byte>>)

  /** `sync` then `push` for every fragment in turn, collecting the
      completed payloads. */
  function Feed(d: Snapshot, fragments: seq<Fragment>): Run
    decreases |fragments|
  {
    if fragments == [] then Ran(d, [])
    else
      var f := fragments[0];
      var d1 := SyncStep(d, f.sequenceNumber);
      if !CanPush(d1.state, f.indicator) then Panicked
      else
        var (d2, out) := PushStep(d1, f.indicator, f.data);
        match Feed(d2, fragments[1..])
        case Panicked => Panicked
        case Ran(last, outputs) => Ran(last, (if out.Some? then [out.value] else []) + outputs)
  }

  /** Feeding more fragments after a run. */
  function Then(r: Run, more: seq<Fragment>): Run
  {
    match r
    case Panicked => Panicked
    case Ran(d, outputs) =>
      match Feed(d, more)
      case Panicked => Panicked
      case Ran(last, later) => Ran(last, outputs + later)
  }

  /** Feeding two runs of fragments one after the other is feeding them
      together. */
  lemma {:induction false} FeedAppend(d: Snapshot, xs: seq<Fragment>, ys: seq<Fragment>)
    ensures Feed(d, xs + ys) == Then(Feed(d, xs), ys)
    decreases |xs|
  {
    if xs == [] {
      assert xs + ys == ys;
      match Feed(d, ys)
      case Panicked =>
      case Ran(last, later) => assert [] + later == later;
    } else {
      var f := xs[0];
      assert (xs + ys)[0] == f && (xs + ys)[1..] == xs[1..] + ys;
      var d1 := SyncStep(d, f.sequenceNumber);
      if CanPush(d1.state, f.indicator) {
        var (d2, out) := PushStep(d1, f.indicator, f.data);
        FeedAppend(d2, xs[1..], ys);
        var prefix := if out.Some? then [out.value] else [];
        match Feed(d2, xs[1..])
        case Panicked =>
        case Ran(m, o1) =>
          match Feed(m, ys)
          case Panicked =>
          case Ran(last, o2) => assert prefix + (o1 + o2) == (prefix + o1) + o2;
      }
    }
  }

  function Concat(parts: seq<seq<byte>>): seq<byte>
  {
    if parts == [] then [] else parts[0] + Concat(parts[1..])
  }

  /** Bodies carrying consecutive sequence numbers from `first` on. */
  function Bodies(first: int, parts: seq<seq<byte>>): (fs: seq<Fragment>)
    requires 0 <= first && first + |parts| <= U32_MAX + 1
    decreases |parts|
  {
    if parts == [] then []
    else [Fragment(first, FragmentBody, parts[0])] + Bodies(first + 1, parts[1..])
  }

  /** The next body inside a fragment extends the buffer and nothing else. */
  lemma FeedBody(last: int, buf: seq<byte>, part: seq<byte>, rest: seq<Fragment>)
    requires 0 <= last < U32_MAX
    ensures Feed(Snapshot(InFragment, last, buf), [Fragment(last + 1, FragmentBody, part)] + rest)
      == Feed(Snapshot(InFragment, last + 1, buf + part), rest)
  {
    var fs := [Fragment(last + 1, FragmentBody, part)] + rest;
    assert fs[0] == Fragment(last + 1, FragmentBody, part) && fs[1..] == rest;
  }

  /** Consecutive bodies inside a fragment only extend the buffer. */
  lemma {:induction false} FeedBodies(last: int, buf: seq<byte>, parts: seq<seq<byte>>)
    requires 0 <= last && last + |parts| <= U32_MAX
    ensures Feed(Snapshot(InFragment, last, buf), Bodies(last + 1, parts))
      == Ran(Snapshot(InFragment, last + |parts|, buf + Concat(parts)), [])
    decreases |parts|
  {
    if parts != [] {
      FeedBody(last, buf, parts[0], Bodies(last + 2, parts[1..]));
      FeedBodies(last + 1, buf + parts[0], parts[1..]);
      assert buf + parts[0] + Concat(parts[1..]) == buf + Concat(parts);
    }
  }

  /** A head outside a fragment opens one holding the head's bytes. */
  lemma FeedHead(d: Snapshot, first: u32, head: seq<byte>)
    requires Consistent(d) && d.state != InFragment
    ensures Feed(d, [Fragment(first, FragmentHead, head)]) == Ran(Snapshot(InFragment, first, head), [])
  {
    var fs := [Fragment(first, FragmentHead, head)];
    var d1 := SyncStep(d, first);
    assert d1.buf == [] && d1.buf + head == head;
    assert PushStep(d1, FragmentHead, head) == (Snapshot(InFragment, first, head), None);
    assert fs[1..] == [];
  }

  /** The next tail closes the fragment and hands out its bytes. */
  lemma FeedTail(d: Snapshot, tail: seq<byte>)
    requires d.state == InFragment && 0 <= d.lastSequenceNumber < U32_MAX
    ensures Feed(d, [Fragment(d.lastSequenceNumber + 1, FragmentTail, tail)])
      == Ran(Snapshot(NotStarted, d.lastSequenceNumber + 1, []), [d.buf + tail])
  {
    var n := d.lastSequenceNumber + 1;
    var fs := [Fragment(n, FragmentTail, tail)];
    var d1 := SyncStep(d, n);
    assert d1 == d.(lastSequenceNumber := n);
    assert PushStep(d1, FragmentTail, tail) == (Snapshot(NotStarted, n, []), Some(d.buf + tail));
    assert fs[1..] == [];
  }

  /** A head, consecutive bodies and a tail come out as one payload: the
      head's bytes, the bodies' in order, then the tail's. */
  lemma Reassemble(d: Snapshot, first: u32, head: seq<byte>, parts: seq<seq<byte>>, tail: seq<byte>)
    requires Consistent(d) && d.state != InFragment
    requires first + |parts| + 1 <= U32_MAX
    ensures Feed(d, [Fragment(first, FragmentHead, head)] + Bodies(first + 1, parts)
                    + [Fragment(first + |parts| + 1, FragmentTail, tail)])
      == Ran(Snapshot(NotStarted, first + |parts| + 1, []), [head + Concat(parts) + tail])
  {
    var h := [Fragment(first, FragmentHead, head)];
    var bs := Bodies(first + 1, parts);
    var t := [Fragment(first + |parts| + 1, FragmentTail, tail)];
    var d2 := Snapshot(InFragment, first, head);
    var d3 := Snapshot(InFragment, first + |parts|, head + Concat(parts));
    FeedHead(d, first, head);
    FeedBodies(first, head, parts);
    FeedTail(d3, tail);
    FeedThree(d, h, bs, t, d2, d3, Snapshot(NotStarted, first + |parts| + 1, []), head + Concat(parts) + tail);
  }

  /** Three runs one after the other, of which only the last completes a
      payload. */
  lemma FeedThree(d: Snapshot, xs: seq<Fragment>, ys: seq<Fragment>, zs: seq<Fragment>,
                  d1: Snapshot, d2: Snapshot, last: Snapshot, out: seq<byte>)
    requires Feed(d, xs) == Ran(d1, [])
    requires Feed(d1, ys) == Ran(d2, [])
    requires Feed(d2, zs) == Ran(last, [out])
    ensures Feed(d, xs + ys + zs) == Ran(last, [out])
  {
    var none: seq<seq<byte>> := [];
    FeedRanThen(d, xs, ys, d1, none, d2, none);
    assert none + none == none;
    FeedRanThen(d, xs + ys, zs, d2, none, last, [out]);
    assert none + [out] == [out];
  }

  /** Two runs that both complete, one after the other. */
  lemma FeedRanThen(d: Snapshot, xs: seq<Fragment>, ys: seq<Fragment>,
                    mid: Snapshot, o1: seq<seq<byte>>, last: Snapshot, o2: seq<seq<byte>>)
    requires Feed(d, xs) == Ran(mid, o1) && Feed(mid, ys) == Ran(last, o2)
    ensures Feed(d, xs + ys) == Ran(last, o1 + o2)
  {
    FeedAppend(d, xs, ys);
  }

  /** Every reachable value is consistent. */
  lemma {:induction false} FeedConsistent(d: Snapshot, fragments: seq<Fragment>)
    requires Consistent(d)
    ensures Feed(d, fragments).Ran? ==> Consistent(Feed(d, fragments).final)
    decreases |fragments|
  {
    if fragments != [] {
      var f := fragments[0];
      var d1 := SyncStep(d, f.sequenceNumber);
      if CanPush(d1.state, f.indicator) {
        FeedConsistent(PushStep(d1, f.indicator, f.data).0, fragments[1..]);
      }
    }
  }
}
