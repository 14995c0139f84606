/**
 Runs of pipelined mode: any interleaving of sender and receiver steps,
 with each step's clock advance chosen by the schedule.
 */
module PipelinedRun {
  import opened Bytes
  import opened Outcomes
  import SequenceCounter
  import opened Pipelined

  /** One atomic step of either task, taken `tick` clock units after the previous one. */
  datatype Action = SendAfter(tick: nat) | EchoAfter(tick: nat)

  /** Where a run stands after its schedule: still running, or ended by a panic. */
  datatype Outcome =
    | Running(state: State, results: seq<Measurement>)
    | Crashed(fault: Fault, results: seq<Measurement>)

  /** The number of sender steps in a schedule. */
  function Sends(acts: seq<Action>): (n: nat)
    ensures n <= |acts|
  {
    if |acts| == 0 then 0 else (if acts[0].SendAfter? then 1 else 0) + Sends(acts[1..])
  }

  function Emit(m: Measurement, o: Outcome): Outcome
  {
    match o
    case Running(s, rs) => Running(s, [m] + rs)
    case Crashed(f, rs) => Crashed(f, [m] + rs)
  }

  /**
   Executes a schedule.  A receiver step with nothing on the connection is
   `read_exact` still waiting, and changes nothing, unless the payload is
   empty: then `read_exact` returns at once and slicing the header panics.
   A panic ends the model's run, keeping the results printed before it.  A
   panic of the sender ends the process; a panic of the receiver ends only
   the spawned receiver task, whose handle is dropped, so the sender goes on
   writing but no further result is printed.
   */
  function Run(s: State, acts: seq<Action>): (r: Outcome)
    ensures r.Running? ==>
      && r.state.size == s.size
      && r.state.sent == s.sent + Sends(acts)
      && r.state.echoed == s.echoed + |r.results|
      && s.sentAt <= r.state.sentAt
      && s.echoedAt <= r.state.echoedAt
    decreases |acts|
  {
    if |acts| == 0 then Running(s, [])
    else
      match acts[0]
      case SendAfter(t) =>
        (match Send(s, t)
         case Err(f) => Crashed(f, [])
         case Ok(s1) => Run(s1, acts[1..]))
      case EchoAfter(t) =>
        if |s.wire| == 0 then
          (if s.size == 0 then Crashed(SliceOutOfRange(0), []) else Run(s, acts[1..]))
        else
          match Echo(s, t)
          case Err(f) => Crashed(f, [])
          case Ok((s1, m)) => Emit(m, Run(s1, acts[1..]))
  }

  /**
   Along the schedule, starting from `outstanding` probes awaiting their
   echo, no sender step finds 2^64 probes already outstanding.  A receiver
   step lowers the count only when a probe is outstanding, as it waits
   otherwise.
   */
  predicate Bounded(outstanding: nat, acts: seq<Action>)
    decreases |acts|
  {
    |acts| == 0 ||
    match acts[0]
    case SendAfter(_) => outstanding < U64_LIMIT && Bounded(outstanding + 1, acts[1..])
    case EchoAfter(_) => Bounded(if outstanding == 0 then 0 else outstanding - 1, acts[1..])
  }

  /** A schedule with at most 2^64 sender steps in total never fills the window. */
  lemma {:induction false} BoundedByFewSends(outstanding: nat, acts: seq<Action>)
    requires outstanding + Sends(acts) <= U64_LIMIT
    ensures Bounded(outstanding, acts)
    decreases |acts|
  {
    if |acts| > 0 {
      match acts[0]
      case SendAfter(_) => BoundedByFewSends(outstanding + 1, acts[1..]);
      case EchoAfter(_) => BoundedByFewSends(if outstanding == 0 then 0 else outstanding - 1, acts[1..]);
    }
  }

  /**
   What a run from a state with `echoed` matched echoes and payload length
   `size` achieves: it is still running, keeps the invariant, and its
   results are the next probes in send order, each timed from the instant
   its own probe was recorded to the instant its echo was taken.
   */
  ghost predicate Healthy(echoed: nat, size: nat, o: Outcome)
  {
    && o.Running?
    && Inv(o.state)
    && o.state.echoed == echoed + |o.results|
    && forall i :: 0 <= i < |o.results| ==>
         && o.results[i].sequence == SequenceCounter.Nth(echoed + i)
         && o.results[i].size == size
         && o.state.sentAt[echoed + i] + o.results[i].elapsed == o.state.echoedAt[echoed + i]
  }

  lemma EmitHealthy(echoed: nat, size: nat, m: Measurement, o: Outcome)
    requires m.sequence == SequenceCounter.Nth(echoed) && m.size == size
    requires Healthy(echoed + 1, size, o)
    requires o.state.sentAt[echoed] + m.elapsed == o.state.echoedAt[echoed]
    ensures Healthy(echoed, size, Emit(m, o))
  {
    var e := Emit(m, o);
    forall i | 0 < i < |e.results|
      ensures e.results[i] == o.results[i - 1]
    {
    }
  }

  /**
   Every interleaving that never fills the window keeps the invariant and
   never panics; the results name the probes in the order they were sent,
   each with its own round-trip time.
   */
  lemma {:induction false} RunKeepsInv(s: State, acts: seq<Action>)
    requires Inv(s) && s.size >= U64_BYTES
    requires Bounded(s.sent - s.echoed, acts)
    ensures Healthy(s.echoed, s.size, Run(s, acts))
    decreases |acts|, 1
  {
    if |acts| > 0 {
      match acts[0]
      case SendAfter(t) => RunAfterSend(s, acts);
      case EchoAfter(t) =>
        if |s.wire| == 0 {
          RunAfterIdle(s, acts);
        } else {
          RunAfterMatch(s, acts);
        }
    }
  }

  lemma {:induction false} RunAfterSend(s: State, acts: seq<Action>)
    requires |acts| > 0 && acts[0].SendAfter?
    requires Inv(s) && s.size >= U64_BYTES
    requires Bounded(s.sent - s.echoed, acts)
    ensures Healthy(s.echoed, s.size, Run(s, acts))
    decreases |acts|, 0
  {
    SendPreservesInv(s, acts[0].tick);
    var s1 := Send(s, acts[0].tick).value;
    assert Run(s, acts) == Run(s1, acts[1..]);
    assert Bounded(s1.sent - s1.echoed, acts[1..]);
    RunKeepsInv(s1, acts[1..]);
    HealthyAgain(s1.echoed, s1.size, Run(s1, acts[1..]), s.echoed, s.size, Run(s, acts));
  }

  /** Restates `Healthy` for equal arguments; it only steers the prover. */
  lemma HealthyAgain(echoed: nat, size: nat, o: Outcome, echoed': nat, size': nat, o': Outcome)
    requires Healthy(echoed, size, o)
    requires echoed' == echoed && size' == size && o' == o
    ensures Healthy(echoed', size', o')
  {
  }

  /** A receiver step with nothing to read waits, and changes nothing. */
  lemma {:induction false} RunAfterIdle(s: State, acts: seq<Action>)
    requires |acts| > 0 && acts[0].EchoAfter? && |s.wire| == 0
    requires Inv(s) && s.size >= U64_BYTES
    requires Bounded(s.sent - s.echoed, acts)
    ensures Healthy(s.echoed, s.size, Run(s, acts))
    decreases |acts|, 0
  {
    assert Run(s, acts) == Run(s, acts[1..]);
    assert Bounded(s.sent - s.echoed, acts[1..]);
    RunKeepsInv(s, acts[1..]);
  }

  /** A receiver step that reads the oldest probe's echo reports it first. */
  lemma {:induction false} RunAfterMatch(s: State, acts: seq<Action>)
    requires |acts| > 0 && acts[0].EchoAfter? && |s.wire| > 0
    requires Inv(s) && s.size >= U64_BYTES
    requires Bounded(s.sent - s.echoed, acts)
    ensures Healthy(s.echoed, s.size, Run(s, acts))
    decreases |acts|, 0
  {
    EchoPreservesInv(s, acts[0].tick);
    var (s1, m) := Echo(s, acts[0].tick).value;
    assert Run(s, acts) == Emit(m, Run(s1, acts[1..]));
    assert Bounded(s1.sent - s1.echoed, acts[1..]);
    RunKeepsInv(s1, acts[1..]);
    var o := Run(s1, acts[1..]);
    assert o.state.sentAt[s.echoed] == s1.sentAt[s.echoed];
    assert o.state.echoedAt[s.echoed] == s1.echoedAt[s.echoed] == s1.clock;
    EmitKeepsRun(s.echoed, s1.echoed, s.size, s1.size, m, o, Run(s, acts));
  }

  /** Prepends one result to a healthy outcome; its parameters only steer the prover. */
  lemma EmitKeepsRun(echoed: nat, next: nat, size: nat, innerSize: nat, m: Measurement,
                     o: Outcome, whole: Outcome)
    requires next == echoed + 1 && innerSize == size
    requires m.sequence == SequenceCounter.Nth(echoed) && m.size == size
    requires Healthy(next, innerSize, o)
    requires o.state.sentAt[echoed] + m.elapsed == o.state.echoedAt[echoed]
    requires whole == Emit(m, o)
    ensures Healthy(echoed, size, whole)
    ensures whole.state == o.state
  {
    EmitHealthy(echoed, size, m, o);
  }

  /**
   From a fresh connection with a payload that holds the header, a run
   that never fills the window never panics; the receiver reports sequence
   numbers 0, 1, 2, ... (modulo 2^64) in send order, each with the time from
   its own probe's record to its echo, and the table holds exactly one
   entry per probe still awaiting its echo.
   */
  lemma RunFromStart(size: nat, acts: seq<Action>)
    requires size >= U64_BYTES
    requires Bounded(0, acts)
    ensures Run(Init(size), acts).Running?
    ensures var o := Run(Init(size), acts);
      && |o.results| <= Sends(acts)
      && |o.state.pending| == Sends(acts) - |o.results|
      && |o.state.sentAt| == Sends(acts) && |o.state.echoedAt| == |o.results|
      && (forall i :: 0 <= i < |o.results| ==> o.results[i].sequence == i % U64_LIMIT)
      && (forall i :: 0 <= i < |o.results| ==>
            o.state.sentAt[i] + o.results[i].elapsed == o.state.echoedAt[i])
      && (forall i :: 0 <= i < |o.results| && i < U64_LIMIT ==> o.results[i].sequence == i)
  {
    RunKeepsInv(Init(size), acts);
    var o := Run(Init(size), acts);
    assert Healthy(0, size, o);
    PendingSize(o.state);
    forall i | 0 <= i < |o.results|
      ensures o.results[i].sequence == i % U64_LIMIT
      ensures o.state.sentAt[i] + o.results[i].elapsed == o.state.echoedAt[i]
    {
      assert o.results[i].sequence == SequenceCounter.Nth(0 + i);
      assert o.state.sentAt[0 + i] + o.results[i].elapsed == o.state.echoedAt[0 + i];
    }
    forall i | 0 <= i < |o.results| && i < U64_LIMIT
      ensures o.results[i].sequence == i
    {
      SequenceCounter.NthBeforeWrap(i);
    }
  }

  /**
   A payload shorter than the header ends the run at the first sender
   step, before any result is printed; an empty payload ends it at the
   first step of either task.
   */
  lemma {:induction false} RunCrashesOnShortPayload(s: State, acts: seq<Action>)
    requires s.size < U64_BYTES && |s.wire| == 0
    requires Sends(acts) > 0 || (s.size == 0 && |acts| > 0)
    ensures Run(s, acts) == Crashed(SliceOutOfRange(s.size), [])
    decreases |acts|
  {
    if acts[0].EchoAfter? && s.size > 0 {
      RunCrashesOnShortPayload(s, acts[1..]);
    }
  }
}
