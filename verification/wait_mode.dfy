/**
 Wait mode: one probe at a time.  Each iteration writes the buffer with the
 current sequence number in its header, reads the echo back into the same
 buffer and reports the local `count`; the reply is never decoded and no
 table is kept.
 */
module WaitMode {
  import opened Bytes
  import opened Outcomes
  import ProbeCodec
  import SequenceCounter
  import Pipelined

  /** A transport call made by the loop. */
  datatype Event = Wrote(bytes: seq<Byte>) | ReadBack(bytes: seq<Byte>)

  /** What the peer returns for one probe, and how long the round trip took. */
  datatype Exchange = Exchange(reply: seq<Byte>, rtt: nat)

  /** The loop's state between iterations: the reused buffer and `count`. */
  datatype WaitState = WaitState(payload: seq<Byte>, count: U64)

  /** `count` starts at 0 and the buffer is `size` zero bytes. */
  function Start(size: nat): (r: WaitState)
    ensures r.count == SequenceCounter.Nth(0)
    ensures |r.payload| == size && forall i :: 0 <= i < size ==> r.payload[i] == 0
  {
    WaitState(ProbeCodec.Zeros(size), SequenceCounter.START)
  }

  /**
   One iteration of the loop.  `read_exact` fills the whole buffer, so the
   reply has the buffer's length and becomes the next iteration's buffer.
   */
  function Iteration(s: WaitState, x: Exchange): (r: Result<(WaitState, seq<Event>, Measurement)>)
    requires |x.reply| == |s.payload|
    ensures r.Ok? <==> |s.payload| >= U64_BYTES
    ensures r.Err? ==> r.fault == SliceOutOfRange(|s.payload|)
    ensures r.Ok? ==>
      var (next, events, m) := r.value;
      && |events| == 2
      && events[0].Wrote? && ProbeCodec.Decode(events[0].bytes) == Ok(s.count)
      && |events[0].bytes| == |s.payload|
      && events[0].bytes[..U64_BYTES] == ToLeBytes(s.count)
      && events[0].bytes[U64_BYTES..] == s.payload[U64_BYTES..]
      && events[1] == ReadBack(x.reply)
      && m == Measurement(s.count, |s.payload|, x.rtt)
      && next.payload == x.reply
      && next.count == SequenceCounter.Next(s.count)
  {
    match ProbeCodec.Encode(s.count, s.payload)
    case Err(f) => Err(f)
    case Ok(probe) =>
      ProbeCodec.RoundTrip(s.count, s.payload);
      Ok((WaitState(x.reply, SequenceCounter.Next(s.count)),
          [Wrote(probe), ReadBack(x.reply)],
          Measurement(s.count, |s.payload|, x.rtt)))
  }

  /** Every reply fills a buffer of `size` bytes. */
  ghost predicate RepliesFit(xs: seq<Exchange>, size: nat)
  {
    forall i :: 0 <= i < |xs| ==> |xs[i].reply| == size
  }

  /**
   Runs the loop for as many iterations as there are exchanges: two
   transport calls and one report per iteration, or the slice panic in the
   first iteration when the buffer is shorter than the header.
   */
  function Loop(s: WaitState, xs: seq<Exchange>): (r: Result<(WaitState, seq<Event>, seq<Measurement>)>)
    requires RepliesFit(xs, |s.payload|)
    ensures r.Ok? <==> |xs| == 0 || |s.payload| >= U64_BYTES
    ensures r.Err? ==> r.fault == SliceOutOfRange(|s.payload|)
    ensures r.Ok? ==>
      && |r.value.1| == 2 * |xs| && |r.value.2| == |xs|
      && |r.value.0.payload| == |s.payload|
    decreases |xs|
  {
    if |xs| == 0 then Ok((s, [], []))
    else
      match Iteration(s, xs[0])
      case Err(f) => Err(f)
      case Ok((next, events, m)) =>
        match Loop(next, xs[1..])
        case Err(f) => Err(f)
        case Ok((last, moreEvents, ms)) => Ok((last, events + moreEvents, [m] + ms))
  }

  /** Writes and reads strictly alternate, starting with a write. */
  ghost predicate Alternating(events: seq<Event>)
  {
    forall i :: 0 <= i < |events| ==> (events[i].Wrote? <==> i % 2 == 0)
  }

  /** Probes written and not yet read back. */
  function InFlight(events: seq<Event>): int
  {
    if |events| == 0 then 0
    else InFlight(events[..|events| - 1]) + (if events[|events| - 1].Wrote? then 1 else -1)
  }

  /** In an alternating transcript, at most one probe is ever outstanding. */
  lemma {:induction false} AlternatingAtMostOne(events: seq<Event>, j: nat)
    requires Alternating(events) && j <= |events|
    ensures InFlight(events[..j]) == j % 2
    ensures 0 <= InFlight(events[..j]) <= 1
  {
    if j > 0 {
      AlternatingAtMostOne(events, j - 1);
      assert events[..j][..j - 1] == events[..j - 1];
    }
  }

  /**
   What the iterations for the exchanges `xs` produce when they start from
   counter value `Nth(k)` with a buffer of `size` bytes: one write and one read each, and the sequence
   numbers `k`, `k+1`, ... with the round-trip times of their own exchanges.
   */
  ghost predicate Reports(k: nat, size: nat, xs: seq<Exchange>,
                          r: Result<(WaitState, seq<Event>, seq<Measurement>)>)
  {
    && r.Ok?
    && |r.value.1| == 2 * |xs|
    && Alternating(r.value.1)
    && |r.value.2| == |xs|
    && r.value.0.count == SequenceCounter.Nth(k + |xs|)
    && forall i :: 0 <= i < |xs| ==>
         r.value.2[i] == Measurement(SequenceCounter.Nth(k + i), size, xs[i].rtt)
  }

  lemma AlternatingPrepend(events: seq<Event>, more: seq<Event>)
    requires |events| == 2 && events[0].Wrote? && events[1].ReadBack?
    requires Alternating(more)
    ensures Alternating(events + more)
  {
    var all := events + more;
    forall i | 2 <= i < |all|
      ensures all[i].Wrote? <==> i % 2 == 0
    {
      assert all[i] == more[i - 2];
    }
  }

  lemma ReportsPrepend(k: nat, size: nat, xs: seq<Exchange>, events: seq<Event>, m: Measurement,
                       r: Result<(WaitState, seq<Event>, seq<Measurement>)>)
    requires |xs| > 0
    requires |events| == 2 && events[0].Wrote? && events[1].ReadBack?
    requires m == Measurement(SequenceCounter.Nth(k), size, xs[0].rtt)
    requires Reports(k + 1, size, xs[1..], r)
    ensures Reports(k, size, xs, Ok((r.value.0, events + r.value.1, [m] + r.value.2)))
  {
    AlternatingPrepend(events, r.value.1);
    var ms := [m] + r.value.2;
    forall i | 0 < i < |xs|
      ensures ms[i] == Measurement(SequenceCounter.Nth(k + i), size, xs[i].rtt)
    {
      assert ms[i] == r.value.2[i - 1];
    }
  }

  /**
   The loop makes one write and one read per iteration, and reports the
   sequence numbers `k`, `k+1`, ... of the counter it started from, each
   with the round-trip time of its own exchange.
   */
  lemma {:induction false} LoopReports(s: WaitState, xs: seq<Exchange>, k: nat)
    requires |s.payload| >= U64_BYTES && RepliesFit(xs, |s.payload|)
    requires s.count == SequenceCounter.Nth(k)
    ensures Reports(k, |s.payload|, xs, Loop(s, xs))
    decreases |xs|
  {
    if |xs| > 0 {
      var (next, events, m) := Iteration(s, xs[0]).value;
      LoopReports(next, xs[1..], k + 1);
      var r := Loop(next, xs[1..]);
      assert Loop(s, xs) == Ok((r.value.0, events + r.value.1, [m] + r.value.2));
      ReportsPrepend(k, |s.payload|, xs, events, m, r);
    }
  }

  /**
   From the start of a run, iteration `i` reports sequence number `i` until
   the counter wraps, and at most one probe is ever outstanding.
   */
  lemma LoopFromStart(size: nat, xs: seq<Exchange>)
    requires size >= U64_BYTES && RepliesFit(xs, size)
    ensures Loop(Start(size), xs).Ok?
    ensures var (_, events, ms) := Loop(Start(size), xs).value;
      && |ms| == |xs|
      && (forall i :: 0 <= i < |xs| && i < U64_LIMIT ==> ms[i].sequence == i)
      && (forall j :: 0 <= j <= |events| ==> 0 <= InFlight(events[..j]) <= 1)
  {
    LoopReports(Start(size), xs, 0);
    var (_, events, ms) := Loop(Start(size), xs).value;
    forall i | 0 <= i < |xs| && i < U64_LIMIT
      ensures ms[i].sequence == i
    {
      SequenceCounter.NthBeforeWrap(i);
    }
    forall j | 0 <= j <= |events|
      ensures 0 <= InFlight(events[..j]) <= 1
    {
      AlternatingAtMostOne(events, j);
    }
  }

  /** A buffer shorter than the header panics in the first iteration. */
  lemma LoopOnShortPayload(s: WaitState, xs: seq<Exchange>)
    requires |s.payload| < U64_BYTES && RepliesFit(xs, |s.payload|) && |xs| > 0
    ensures Loop(s, xs) == Err(SliceOutOfRange(|s.payload|))
  {
  }

  /**
   With a peer that echoes verbatim, the reply carries the reported sequence
   number, and the next probe keeps the reply's filler bytes.
   */
  lemma FaithfulEchoMatches(s: WaitState, rtt: nat)
    requires |s.payload| >= U64_BYTES
    ensures ProbeCodec.Encode(s.count, s.payload).Ok?
    ensures
      var probe := ProbeCodec.Encode(s.count, s.payload).value;
      var (next, _, m) := Iteration(s, Exchange(probe, rtt)).value;
      && ProbeCodec.Decode(next.payload) == Ok(m.sequence)
      && next.payload[U64_BYTES..] == s.payload[U64_BYTES..]
  {
    ProbeCodec.RoundTrip(s.count, s.payload);
  }

  /**
   Wait mode is pipelined mode with every Send followed at once by its Echo:
   from a state with nothing outstanding, the pair reports the same sequence
   number as one wait-mode iteration and leaves nothing outstanding again.
   */
  lemma WaitIsSendThenEcho(p: Pipelined.State, w: WaitState, x: Exchange, t1: nat, t2: nat)
    requires Pipelined.Inv(p) && |p.wire| == 0 && p.size >= U64_BYTES
    requires w.count == p.count && |w.payload| == p.size && |x.reply| == p.size
    ensures Pipelined.Send(p, t1).Ok?
    ensures |Pipelined.Send(p, t1).value.wire| == 1
    ensures Pipelined.Echo(Pipelined.Send(p, t1).value, t2).Ok?
    ensures
      var (p', m) := Pipelined.Echo(Pipelined.Send(p, t1).value, t2).value;
      && m.sequence == Iteration(w, x).value.2.sequence
      && p'.wire == [] && p'.pending == map[] && Pipelined.Inv(p')
  {
    Pipelined.PendingSize(p);
    Pipelined.SendPreservesInv(p, t1);
    var p1 := Pipelined.Send(p, t1).value;
    Pipelined.EchoPreservesInv(p1, t2);
    var p' := Pipelined.Echo(p1, t2).value.0;
    Pipelined.PendingSize(p');
  }
}
