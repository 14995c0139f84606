/**
 Pipelined mode as a sequential state machine.  The sender task and the
 receiver task share only the pending table, and the mutex makes each
 insert and each remove atomic, so every run of the two tasks is an
 interleaving of two atomic steps:

 - Send: encode the current sequence number into a fresh payload, record
   it with the current instant, write the payload, advance the counter;
 - Echo: read the payload at the head of the connection, decode it, take
   its entry out of the table and report the elapsed time.

 The connection together with the echoing peer is a FIFO of whole payloads.
 */
module Pipelined {
  import opened Bytes
  import opened Outcomes
  import ProbeCodec
  import SequenceCounter
  import PendingTable

  datatype State = State(
    /** Length of every payload, the `size` argument. */
    size: nat,
    /** The shared table of probes awaiting their echo. */
    pending: PendingTable.Table,
    /** Payloads written by the sender and not yet read by the receiver, oldest first. */
    wire: seq<seq<Byte>>,
    /** The sender's `count`: the sequence number of the next probe. */
    count: U64,
    /** The latest reading of the monotonic clock. */
    clock: PendingTable.Instant,
    /** Probes written so far. */
    sent: nat,
    /** Echoes matched so far. */
    echoed: nat,
    /** The instant recorded for each probe sent so far, in send order. */
    sentAt: seq<PendingTable.Instant>,
    /** The instant at which each matched echo was taken, in match order. */
    echoedAt: seq<PendingTable.Instant>
  )

  /** The state just after the receiver task is spawned: nothing sent, nothing pending. */
  function Init(size: nat): (r: State)
    ensures Inv(r)
    ensures r.size == size && r.count == SequenceCounter.START
    ensures r.pending == map[] && r.wire == [] && r.sent == 0 && r.echoed == 0
  {
    State(size, PendingTable.EMPTY, [], SequenceCounter.START, 0, 0, 0, [], [])
  }

  /** The sequence numbers of probes `lo .. hi-1`. */
  function Outstanding(lo: nat, hi: nat): set<U64>
    decreases hi
  {
    if hi <= lo then {} else Outstanding(lo, hi - 1) + {SequenceCounter.Nth(hi - 1)}
  }

  lemma {:induction false} OutstandingHas(lo: nat, hi: nat, j: nat)
    requires lo <= j < hi
    ensures SequenceCounter.Nth(j) in Outstanding(lo, hi)
    decreases hi
  {
    if j < hi - 1 {
      OutstandingHas(lo, hi - 1, j);
    }
  }

  lemma {:induction false} NotOutstandingAfter(lo: nat, hi: nat, j: nat)
    requires hi <= j < lo + U64_LIMIT
    ensures SequenceCounter.Nth(j) !in Outstanding(lo, hi)
    decreases hi
  {
    if lo < hi {
      SequenceCounter.NthDistinct(hi - 1, j);
      NotOutstandingAfter(lo, hi - 1, j);
    }
  }

  lemma {:induction false} NotOutstandingBefore(lo: nat, hi: nat, j: nat)
    requires j < lo && hi <= j + U64_LIMIT
    ensures SequenceCounter.Nth(j) !in Outstanding(lo, hi)
    decreases hi
  {
    if lo < hi {
      SequenceCounter.NthDistinct(j, hi - 1);
      NotOutstandingBefore(lo, hi - 1, j);
    }
  }

  /** Sending one more probe adds exactly its number. */
  lemma OutstandingExtend(lo: nat, hi: nat)
    requires lo <= hi
    ensures Outstanding(lo, hi + 1) == Outstanding(lo, hi) + {SequenceCounter.Nth(hi)}
  {
  }

  /** Matching the oldest outstanding probe removes exactly its sequence number. */
  lemma {:induction false} OutstandingDropOldest(lo: nat, hi: nat)
    requires lo < hi <= lo + U64_LIMIT
    ensures Outstanding(lo + 1, hi) == Outstanding(lo, hi) - {SequenceCounter.Nth(lo)}
    decreases hi
  {
    if lo + 1 < hi {
      OutstandingDropOldest(lo, hi - 1);
      SequenceCounter.NthDistinct(lo, hi - 1);
    }
  }

  /** Fewer than 2^64 consecutive probes carry pairwise distinct sequence numbers. */
  lemma {:induction false} OutstandingCount(lo: nat, hi: nat)
    requires lo <= hi <= lo + U64_LIMIT
    ensures |Outstanding(lo, hi)| == hi - lo
    decreases hi
  {
    if lo < hi {
      OutstandingCount(lo, hi - 1);
      NotOutstandingAfter(lo, hi - 1, hi - 1);
    }
  }

  /**
   The bookkeeping invariant of pipelined mode: the pending keys are exactly
   the sequence numbers sent and not yet echoed, every pending instant lies
   in the past, and the connection holds exactly the unechoed probes in the
   order they were sent.
   */
  ghost predicate Inv(s: State)
  {
    && s.echoed <= s.sent <= s.echoed + U64_LIMIT
    && s.count == SequenceCounter.Nth(s.sent)
    && s.pending.Keys == Outstanding(s.echoed, s.sent)
    && RecordedInPast(s.pending, s.clock)
    && |s.sentAt| == s.sent && |s.echoedAt| == s.echoed
    && RecordedAtSend(s)
    && |s.wire| == s.sent - s.echoed
    && WireHolds(s.wire, s.echoed, s.size)
  }

  /** Every pending entry holds the instant its own probe was recorded at. */
  ghost predicate RecordedAtSend(s: State)
  {
    forall i :: s.echoed <= i < |s.sentAt| ==>
      && SequenceCounter.Nth(i) in s.pending
      && s.pending[SequenceCounter.Nth(i)] == s.sentAt[i]
  }

  /** Every recorded instant is at or before `clock`. */
  ghost predicate RecordedInPast(t: PendingTable.Table, clock: PendingTable.Instant)
  {
    forall k :: k in t ==> t[k] <= clock
  }

  /** `wire` holds the probes numbered `first`, `first+1`, ..., in that order. */
  ghost predicate WireHolds(wire: seq<seq<Byte>>, first: nat, size: nat)
  {
    forall i :: 0 <= i < |wire| ==>
      ProbeCodec.FreshProbe(SequenceCounter.Nth(first + i), size) == Ok(wire[i])
  }

  lemma WireHoldsAppend(wire: seq<seq<Byte>>, first: nat, size: nat, next: nat, p: seq<Byte>)
    requires WireHolds(wire, first, size) && next == first + |wire|
    requires ProbeCodec.FreshProbe(SequenceCounter.Nth(next), size) == Ok(p)
    ensures WireHolds(wire + [p], first, size)
  {
    var w := wire + [p];
    forall i | 0 <= i < |w|
      ensures ProbeCodec.FreshProbe(SequenceCounter.Nth(first + i), size) == Ok(w[i])
    {
      if i < |wire| {
        assert w[i] == wire[i];
      }
    }
  }

  lemma WireHoldsDropOldest(wire: seq<seq<Byte>>, first: nat, size: nat)
    requires |wire| > 0 && WireHolds(wire, first, size)
    ensures WireHolds(wire[1..], first + 1, size)
  {
    forall i | 0 <= i < |wire| - 1
      ensures ProbeCodec.FreshProbe(SequenceCounter.Nth(first + 1 + i), size) == Ok(wire[1..][i])
    {
      assert wire[1..][i] == wire[i + 1];
    }
  }

  /** Every payload on the connection has its entry in the table. */
  ghost predicate WireCovered(s: State)
  {
    forall i :: 0 <= i < |s.wire| ==>
      && ProbeCodec.Decode(s.wire[i]).Ok?
      && ProbeCodec.Decode(s.wire[i]).value in s.pending
  }

  /**
   The first half of a Send: encode the probe and record it under the
   current instant.  The payload is not on the connection yet.
   */
  function RecordProbe(s: State, tick: nat): (r: Result<(State, seq<Byte>)>)
    ensures r.Ok? <==> s.size >= U64_BYTES
    ensures r.Err? ==> r.fault == SliceOutOfRange(s.size)
    ensures r.Ok? ==> r.value.0.wire == s.wire && r.value.0.size == s.size
    ensures r.Ok? ==> r.value.0.clock >= s.clock
    ensures r.Ok? ==> r.value.0.pending.Keys == s.pending.Keys + {s.count}
    ensures r.Ok? ==> s.count in r.value.0.pending && r.value.0.pending[s.count] == r.value.0.clock
    ensures r.Ok? ==> forall k :: k in s.pending && k != s.count ==>
      k in r.value.0.pending && r.value.0.pending[k] == s.pending[k]
    ensures r.Ok? ==> r.value.0.count == s.count && r.value.0.sent == s.sent && r.value.0.echoed == s.echoed
    ensures r.Ok? ==> r.value.0.sentAt == s.sentAt + [r.value.0.clock] && r.value.0.echoedAt == s.echoedAt
    ensures r.Ok? ==> Ok(r.value.1) == ProbeCodec.FreshProbe(s.count, s.size)
  {
    var now := s.clock + tick;
    match ProbeCodec.FreshProbe(s.count, s.size)
    case Err(f) => Err(f)
    case Ok(p) =>
      Ok((s.(pending := PendingTable.Record(s.pending, s.count, now), clock := now,
             sentAt := s.sentAt + [now]), p))
  }

  /** The second half of a Send: `write_all` the payload, then advance the counter. */
  function WriteProbe(s: State, payload: seq<Byte>): (r: State)
    ensures |r.wire| == |s.wire| + 1 && r.wire[..|s.wire|] == s.wire && r.wire[|s.wire|] == payload
    ensures r.count == SequenceCounter.Next(s.count) && r.sent == s.sent + 1
    ensures r.pending == s.pending && r.clock == s.clock && r.echoed == s.echoed
    ensures r.sentAt == s.sentAt && r.echoedAt == s.echoedAt && r.size == s.size
  {
    s.(wire := s.wire + [payload],
       count := SequenceCounter.Next(s.count),
       sent := s.sent + 1)
  }

  /** One iteration of the sender loop: record, then write. */
  function Send(s: State, tick: nat): (r: Result<State>)
    ensures r.Ok? <==> s.size >= U64_BYTES
    ensures r.Err? ==> r.fault == SliceOutOfRange(s.size)
    ensures r.Ok? ==> r.value.size == s.size
    ensures r.Ok? ==> r.value.sent == s.sent + 1 && r.value.echoed == s.echoed
    ensures r.Ok? ==> r.value.count == SequenceCounter.Next(s.count)
    ensures r.Ok? ==> r.value.pending.Keys == s.pending.Keys + {s.count}
    ensures r.Ok? ==> s.count in r.value.pending && r.value.pending[s.count] == r.value.clock
    ensures r.Ok? ==> forall k :: k in s.pending && k != s.count ==>
      k in r.value.pending && r.value.pending[k] == s.pending[k]
    ensures r.Ok? ==> r.value.clock >= s.clock
    ensures r.Ok? ==> r.value.sentAt == s.sentAt + [r.value.clock] && r.value.echoedAt == s.echoedAt
    ensures r.Ok? ==> |r.value.wire| == |s.wire| + 1 && r.value.wire[..|s.wire|] == s.wire
    ensures r.Ok? ==> Ok(r.value.wire[|s.wire|]) == ProbeCodec.FreshProbe(s.count, s.size)
  {
    match RecordProbe(s, tick)
    case Err(f) => Err(f)
    case Ok((s1, p)) =>
      var s2 := WriteProbe(s1, p);
      assert s2.wire[..|s.wire|] == s.wire;
      Ok(s2)
  }

  /**
   One iteration of the receiver loop on the bytes `payload` that
   `read_exact` produced: decode, take the entry, report the elapsed time.
   `Instant::elapsed` saturates at zero.
   */
  function Receive(s: State, payload: seq<Byte>, tick: nat): (r: Result<(State, Measurement)>)
    ensures r.Ok? <==>
      ProbeCodec.Decode(payload).Ok? && ProbeCodec.Decode(payload).value in s.pending
    ensures r.Err? && |payload| < U64_BYTES ==> r.fault == SliceOutOfRange(|payload|)
    ensures r.Err? && |payload| >= U64_BYTES ==>
      r.fault == UnknownSequence(ProbeCodec.Decode(payload).value)
    ensures r.Ok? ==>
      var k := ProbeCodec.Decode(payload).value;
      && r.value.1.sequence == k
      && r.value.1.size == |payload|
      && r.value.0.pending.Keys == s.pending.Keys - {k}
      && r.value.0.echoed == s.echoed + 1
      && r.value.0.size == s.size && r.value.0.wire == s.wire
      && r.value.0.sent == s.sent && r.value.0.count == s.count
      && (forall j :: j in r.value.0.pending ==> r.value.0.pending[j] == s.pending[j])
      && r.value.0.clock >= s.clock
      && r.value.0.sentAt == s.sentAt && r.value.0.echoedAt == s.echoedAt + [r.value.0.clock]
      && (s.pending[k] <= r.value.0.clock ==> s.pending[k] + r.value.1.elapsed == r.value.0.clock)
  {
    var now := s.clock + tick;
    match ProbeCodec.Decode(payload)
    case Err(f) => Err(f)
    case Ok(k) =>
      match PendingTable.Take(s.pending, k)
      case Err(f) => Err(f)
      case Ok((at, rest)) =>
        var elapsed := if at <= now then now - at else 0;
        Ok((s.(pending := rest, clock := now, echoed := s.echoed + 1, echoedAt := s.echoedAt + [now]),
            Measurement(k, |payload|, elapsed)))
  }

  /** The receiver reads the payload at the head of the connection. */
  function Echo(s: State, tick: nat): (r: Result<(State, Measurement)>)
    requires |s.wire| > 0
    ensures r.Ok? <==>
      ProbeCodec.Decode(s.wire[0]).Ok? && ProbeCodec.Decode(s.wire[0]).value in s.pending
    ensures r.Ok? ==>
      && r.value.0.wire == s.wire[1..]
      && r.value.1.sequence == ProbeCodec.Decode(s.wire[0]).value
      && r.value.1.size == |s.wire[0]|
      && r.value.0.size == s.size && r.value.0.sent == s.sent && r.value.0.echoed == s.echoed + 1
      && r.value.0.sentAt == s.sentAt && r.value.0.echoedAt == s.echoedAt + [r.value.0.clock]
    ensures r.Ok? ==>
      var k := ProbeCodec.Decode(s.wire[0]).value;
      && r.value.0.pending.Keys == s.pending.Keys - {k}
      && (forall j :: j in r.value.0.pending ==> r.value.0.pending[j] == s.pending[j])
      && r.value.0.count == s.count && r.value.0.clock >= s.clock
      && (s.pending[k] <= r.value.0.clock ==> s.pending[k] + r.value.1.elapsed == r.value.0.clock)
  {
    Receive(s.(wire := s.wire[1..]), s.wire[0], tick)
  }

  /** The pending table holds one entry per probe sent and not yet echoed. */
  lemma PendingSize(s: State)
    requires Inv(s)
    ensures |s.pending| == s.sent - s.echoed
  {
    OutstandingCount(s.echoed, s.sent);
    assert |s.pending| == |s.pending.Keys|;
  }

  /** The state a successful Send produces, spelled out. */
  lemma SendIs(s: State, tick: nat)
    requires s.size >= U64_BYTES
    ensures Send(s, tick) == Ok(State(
      s.size,
      PendingTable.Record(s.pending, s.count, s.clock + tick),
      s.wire + [ProbeCodec.FreshProbe(s.count, s.size).value],
      SequenceCounter.Next(s.count),
      s.clock + tick,
      s.sent + 1,
      s.echoed,
      s.sentAt + [s.clock + tick],
      s.echoedAt))
  {
  }

  /** A Send preserves the invariant, as long as fewer than 2^64 probes are outstanding. */
  lemma SendPreservesInv(s: State, tick: nat)
    requires Inv(s) && s.size >= U64_BYTES
    requires s.sent - s.echoed < U64_LIMIT
    ensures Send(s, tick).Ok?
    ensures Inv(Send(s, tick).value)
    ensures |Send(s, tick).value.pending| == |s.pending| + 1
  {
    var s' := Send(s, tick).value;
    SendKeepsKeys(s, tick);
    SendKeepsPast(s, tick);
    SendKeepsWire(s, tick);
    SendKeepsTimes(s, tick);
    assert s'.count == SequenceCounter.Nth(s'.sent);
    PendingSize(s);
    PendingSize(s');
  }

  /**
   Why the window matters: with 2^64 probes outstanding, the counter has
   come round to the oldest of them, and the insert overwrites its still
   pending entry, so its send time is lost and the table does not grow.
   */
  lemma FullWindowOverwrites(s: State, tick: nat)
    requires Inv(s) && s.size >= U64_BYTES
    requires s.sent - s.echoed == U64_LIMIT
    ensures s.count == SequenceCounter.Nth(s.echoed) && s.count in s.pending
    ensures Send(s, tick).Ok?
    ensures Send(s, tick).value.pending[s.count] == Send(s, tick).value.clock
    ensures |Send(s, tick).value.pending| == |s.pending|
  {
    SequenceCounter.NthPeriodic(s.echoed);
    OutstandingHas(s.echoed, s.sent, s.echoed);
    SendIs(s, tick);
  }

  /** After a Send the table's keys are the outstanding numbers again. */
  lemma SendKeepsKeys(s: State, tick: nat)
    requires Inv(s) && s.size >= U64_BYTES
    ensures Send(s, tick).Ok?
    ensures var s' := Send(s, tick).value;
      s'.pending.Keys == Outstanding(s'.echoed, s'.sent)
  {
    SendIs(s, tick);
    OutstandingExtend(s.echoed, s.sent);
  }

  /** A Send records the current instant, so every recorded instant stays in the past. */
  lemma SendKeepsPast(s: State, tick: nat)
    requires Inv(s) && s.size >= U64_BYTES
    ensures Send(s, tick).Ok?
    ensures RecordedInPast(Send(s, tick).value.pending, Send(s, tick).value.clock)
  {
    SendIs(s, tick);
  }

  /** A Send records its own instant and leaves every older pending instant alone. */
  lemma SendKeepsTimes(s: State, tick: nat)
    requires Inv(s) && s.size >= U64_BYTES
    requires s.sent - s.echoed < U64_LIMIT
    ensures Send(s, tick).Ok?
    ensures var s' := Send(s, tick).value;
      |s'.sentAt| == s'.sent && |s'.echoedAt| == s'.echoed && RecordedAtSend(s')
  {
    SendIs(s, tick);
    var s' := Send(s, tick).value;
    forall i | s.echoed <= i < s.sent
      ensures SequenceCounter.Nth(i) in s'.pending && s'.pending[SequenceCounter.Nth(i)] == s'.sentAt[i]
    {
      SequenceCounter.NthDistinct(i, s.sent);
      assert s'.sentAt[i] == s.sentAt[i];
    }
    assert s'.sentAt[s.sent] == s'.clock;
  }

  /** A Send appends the next probe in order to the connection. */
  lemma SendKeepsWire(s: State, tick: nat)
    requires Inv(s) && s.size >= U64_BYTES
    ensures Send(s, tick).Ok?
    ensures var s' := Send(s, tick).value;
      |s'.wire| == s'.sent - s'.echoed && WireHolds(s'.wire, s'.echoed, s'.size)
  {
    SendIs(s, tick);
    WireHoldsAppend(s.wire, s.echoed, s.size, s.sent, ProbeCodec.FreshProbe(s.count, s.size).value);
  }

  /** The state and report of an Echo that matches sequence number `k`, spelled out. */
  lemma EchoIs(s: State, tick: nat, k: U64)
    requires |s.wire| > 0 && ProbeCodec.Decode(s.wire[0]) == Ok(k) && k in s.pending
    ensures Echo(s, tick) == Ok((
      s.(pending := s.pending - {k}, wire := s.wire[1..], clock := s.clock + tick, echoed := s.echoed + 1,
         echoedAt := s.echoedAt + [s.clock + tick]),
      Measurement(k, |s.wire[0]|,
        if s.pending[k] <= s.clock + tick then s.clock + tick - s.pending[k] else 0)))
  {
  }

  /**
   An Echo of an order-preserving peer never fails: it matches the oldest
   outstanding probe, reports its sequence number and the time since it
   was recorded, and preserves the invariant.
   */
  lemma EchoPreservesInv(s: State, tick: nat)
    requires Inv(s) && |s.wire| > 0
    ensures Echo(s, tick).Ok?
    ensures Inv(Echo(s, tick).value.0)
    ensures Echo(s, tick).value.0.size == s.size && Echo(s, tick).value.0.sent == s.sent
    ensures Echo(s, tick).value.0.echoed == s.echoed + 1
    ensures Echo(s, tick).value.1.sequence == SequenceCounter.Nth(s.echoed)
    ensures Echo(s, tick).value.1.size == s.size
    ensures s.sentAt[s.echoed] + Echo(s, tick).value.1.elapsed == Echo(s, tick).value.0.clock
    ensures Echo(s, tick).value.0.sentAt == s.sentAt
    ensures Echo(s, tick).value.0.echoedAt == s.echoedAt + [Echo(s, tick).value.0.clock]
    ensures |Echo(s, tick).value.0.pending| == |s.pending| - 1
  {
    EchoMatchesOldest(s, tick);
    var s' := Echo(s, tick).value.0;
    EchoKeepsKeys(s, tick);
    EchoKeepsWire(s, tick);
    EchoKeepsTimes(s, tick);
    PendingSize(s);
    PendingSize(s');
  }

  /** An order-preserving peer returns the oldest outstanding probe, which is in the table. */
  lemma EchoMatchesOldest(s: State, tick: nat)
    requires Inv(s) && |s.wire| > 0
    ensures ProbeCodec.Decode(s.wire[0]) == Ok(SequenceCounter.Nth(s.echoed))
    ensures SequenceCounter.Nth(s.echoed) in s.pending
    ensures Echo(s, tick) == Ok((
      s.(pending := s.pending - {SequenceCounter.Nth(s.echoed)}, wire := s.wire[1..],
         clock := s.clock + tick, echoed := s.echoed + 1, echoedAt := s.echoedAt + [s.clock + tick]),
      Measurement(SequenceCounter.Nth(s.echoed), s.size,
        s.clock + tick - s.pending[SequenceCounter.Nth(s.echoed)])))
  {
    var k := SequenceCounter.Nth(s.echoed);
    assert ProbeCodec.FreshProbe(k, s.size) == Ok(s.wire[0]);
    ProbeCodec.RoundTrip(k, ProbeCodec.Zeros(s.size));
    OutstandingHas(s.echoed, s.sent, s.echoed);
    EchoIs(s, tick, k);
  }

  /** After an Echo the table's keys are the remaining outstanding numbers. */
  lemma EchoKeepsKeys(s: State, tick: nat)
    requires Inv(s) && |s.wire| > 0
    ensures Echo(s, tick).Ok?
    ensures var s' := Echo(s, tick).value.0;
      s'.pending.Keys == Outstanding(s'.echoed, s'.sent)
  {
    EchoMatchesOldest(s, tick);
    OutstandingDropOldest(s.echoed, s.sent);
  }

  /** An Echo removes only the oldest entry, so every other pending instant is kept. */
  lemma EchoKeepsTimes(s: State, tick: nat)
    requires Inv(s) && |s.wire| > 0
    ensures Echo(s, tick).Ok?
    ensures var s' := Echo(s, tick).value.0;
      |s'.sentAt| == s'.sent && |s'.echoedAt| == s'.echoed && RecordedAtSend(s')
  {
    EchoMatchesOldest(s, tick);
    var s' := Echo(s, tick).value.0;
    forall i | s'.echoed <= i < |s'.sentAt|
      ensures SequenceCounter.Nth(i) in s'.pending && s'.pending[SequenceCounter.Nth(i)] == s'.sentAt[i]
    {
      SequenceCounter.NthDistinct(s.echoed, i);
    }
  }

  /** An Echo consumes the oldest probe and leaves the rest in order. */
  lemma EchoKeepsWire(s: State, tick: nat)
    requires Inv(s) && |s.wire| > 0
    ensures Echo(s, tick).Ok?
    ensures var s' := Echo(s, tick).value.0;
      |s'.wire| == s'.sent - s'.echoed && WireHolds(s'.wire, s'.echoed, s'.size)
  {
    EchoMatchesOldest(s, tick);
    WireHoldsDropOldest(s.wire, s.echoed, s.size);
  }

  /** Under the invariant, every payload on the connection is already in the table. */
  lemma InvCoversWire(s: State)
    requires Inv(s)
    ensures WireCovered(s)
  {
    forall i | 0 <= i < |s.wire|
      ensures ProbeCodec.Decode(s.wire[i]) == Ok(SequenceCounter.Nth(s.echoed + i))
      ensures SequenceCounter.Nth(s.echoed + i) in s.pending
    {
      assert ProbeCodec.FreshProbe(SequenceCounter.Nth(s.echoed + i), s.size) == Ok(s.wire[i]);
      ProbeCodec.RoundTrip(SequenceCounter.Nth(s.echoed + i), ProbeCodec.Zeros(s.size));
      OutstandingHas(s.echoed, s.sent, s.echoed + i);
    }
  }

  /**
   Record happens before write: once the first half of a Send has run, the
   new sequence number is in the table while its payload is not yet on the
   connection, and every payload the receiver can read, including the new
   one once written, has its entry.
   */
  lemma RecordBeforeWrite(s: State, tick: nat)
    requires Inv(s) && s.size >= U64_BYTES
    ensures RecordProbe(s, tick).Ok?
    ensures var (s1, p) := RecordProbe(s, tick).value;
      && s1.wire == s.wire
      && ProbeCodec.Decode(p) == Ok(s.count)
      && s.count in s1.pending && s1.pending[s.count] == s1.clock
      && WireCovered(s1)
      && WireCovered(WriteProbe(s1, p))
  {
    InvCoversWire(s);
    ProbeCodec.RoundTrip(s.count, ProbeCodec.Zeros(s.size));
    var (s1, p) := RecordProbe(s, tick).value;
    var s2 := WriteProbe(s1, p);
    forall i | 0 <= i < |s2.wire|
      ensures ProbeCodec.Decode(s2.wire[i]).Ok? && ProbeCodec.Decode(s2.wire[i]).value in s2.pending
    {
      if i < |s.wire| {
        assert s2.wire[i] == s.wire[i];
      } else {
        assert s2.wire[i] == p;
      }
    }
  }

  /**
   Why the order matters: a sender that wrote the first probe before
   recording it would let the receiver read the echo first and hit a
   missing entry.
   */
  lemma WriteBeforeRecordRaces(size: nat)
    requires size >= U64_BYTES
    ensures ProbeCodec.FreshProbe(SequenceCounter.START, size).Ok?
    ensures
      var early := WriteProbe(Init(size), ProbeCodec.FreshProbe(SequenceCounter.START, size).value);
      Echo(early, 0) == Err(UnknownSequence(SequenceCounter.START))
  {
    ProbeCodec.RoundTrip(SequenceCounter.START, ProbeCodec.Zeros(size));
  }

  /**
   The receiver accepts a payload exactly when it carries the sequence
   number of a probe that was sent and not yet echoed.
   */
  lemma ReceiveAcceptsOnlyOutstanding(s: State, payload: seq<Byte>, tick: nat)
    requires Inv(s) && |payload| >= U64_BYTES
    ensures Receive(s, payload, tick).Ok? <==>
      ProbeCodec.Decode(payload).value in Outstanding(s.echoed, s.sent)
  {
  }

  /**
   A peer that echoes the same probe twice ends the run: the second copy
   names a sequence number that is no longer pending.
   */
  lemma DuplicateEchoFails(s: State, tick: nat, tick2: nat)
    requires Inv(s) && |s.wire| > 0
    ensures Echo(s, tick).Ok?
    ensures Receive(Echo(s, tick).value.0, s.wire[0], tick2)
         == Err(UnknownSequence(Echo(s, tick).value.1.sequence))
  {
    EchoPreservesInv(s, tick);
    ProbeCodec.RoundTrip(SequenceCounter.Nth(s.echoed), ProbeCodec.Zeros(s.size));
  }
}
