# async-ping-tcp: probe-exchange bookkeeping

A model of the probe bookkeeping in `async-ping-tcp`. This TCP round-trip
client writes payloads of `size` bytes to an echo server and reports one line per
echo: the sequence number, the payload length and the round-trip time. The
model covers four pieces:

- **Probe codec** (`probe_codec.dfy`, over `bytes.dfy`). The sender's `u64`
  counter travels in bytes 0..8 of every payload, least significant byte
  first. The remaining bytes are filler.
- **Sequence counter** (`sequence_counter.dfy`). It starts at 0 and advances with
  `wrapping_add(1)`, so it steps modulo 2^64.
- **Pending table and pipelined mode** (`pending_table.dfy`, `pipelined.dfy`,
  `pipelined_run.dfy`).
  - The sender task and the receiver task share a `HashMap<u64, Instant>` behind a mutex.
  - The sender records a probe's send time, then writes the probe.
  - The receiver reads a payload, decodes its sequence number and removes that entry.
  - Each mutex-protected step is atomic, so a run is an interleaving of
    `Send` and `Echo` steps. The connection together with the echoing peer is a FIFO of whole payloads.
  - `Run` executes an arbitrary schedule of such steps.
- **Wait mode** (`wait_mode.dfy`). One probe at a time: each iteration
  writes the probe and reads the echo back into the same buffer. It reports
  the local counter and never decodes the reply.

Two panics of the code are modelled as `Err` values (`Outcomes.Fault`):
- slicing `payload[0..8]` out of a buffer shorter than eight bytes;
- `remove(&count).unwrap()` on a sequence number that is not in the table.

Time is an abstract monotonic clock: every step advances it by a `tick`
that the schedule chooses. `Instant::elapsed` becomes a subtraction that
saturates at zero.

The code does not validate `size`: a `size` below 8 panics at the first
`payload[0..8]`, and the model keeps that panic (`ProbeCodec.Encode`,
`PipelinedRun.RunCrashesOnShortPayload`, `WaitMode.LoopOnShortPayload`).

For each probe, the pipelined state keeps two histories: the instant
recorded for it at send time, and the instant its echo was matched. Each
reported round-trip time is proved to be the difference of its own probe's
two instants.

## Model

| member | source | states |
|---|---|---|
| Bytes.ToLeBytesDigits | async-ping-tcp/src/main.rs:36 | byte `i` of `to_le_bytes(n)` is the `i`-th base-256 digit of `n`, least significant first |
| Bytes.FromToLeBytes | async-ping-tcp/src/main.rs:82 | `from_le_bytes(to_le_bytes(n)) == n` for every `u64` |
| Bytes.ToFromLeBytes | async-ping-tcp/src/main.rs:82 | every 8-byte array is `to_le_bytes` of the value `from_le_bytes` gives it |
| Bytes.ToLeBytesInjective | async-ping-tcp/src/main.rs:36 | distinct counters have distinct headers |
| ProbeCodec.Zeros | async-ping-tcp/src/main.rs:33 | the fresh buffer has `size` bytes, all zero |
| ProbeCodec.Encode | async-ping-tcp/src/main.rs:36-37 | succeeds exactly when the payload has at least 8 bytes, and otherwise panics with the slice fault; the length is kept, bytes 0..8 are `to_le_bytes(count)`, and every byte from 8 on is unchanged |
| ProbeCodec.Decode | async-ping-tcp/src/main.rs:81-82 | succeeds exactly when the payload has at least 8 bytes; a shorter payload is the slice fault |
| ProbeCodec.FreshProbe | async-ping-tcp/src/main.rs:109-111 | the pipelined probe exists exactly when `size >= 8`; it has `size` bytes, its bytes 0..8 are `to_le_bytes(count)`, and the filler is zero |
| ProbeCodec.RoundTrip | async-ping-tcp/src/main.rs:81-82 | decoding an encoded payload returns the encoded counter, whatever the filler |
| ProbeCodec.ReEncode | async-ping-tcp/src/main.rs:36-37 | writing a payload's own decoded counter back into it leaves it unchanged |
| ProbeCodec.DecodeIgnoresFiller | async-ping-tcp/src/main.rs:81-82 | the decoded counter depends on bytes 0..8 only |
| ProbeCodec.FreshProbeInjective | async-ping-tcp/src/main.rs:109-111 | probes of equal size and different counters differ |
| SequenceCounter.Next | async-ping-tcp/src/main.rs:117 | `wrapping_add(1)`: adds one below 2^64 − 1, and goes from 2^64 − 1 to 0 |
| SequenceCounter.Nth | async-ping-tcp/src/main.rs:107-117 | the counter starts at 0 and advances once per probe, so the `k`-th probe carries `k mod 2^64` |
| SequenceCounter.NthDistinct | async-ping-tcp/src/main.rs:107-117 | probes fewer than 2^64 apart carry different sequence numbers |
| SequenceCounter.NthPeriodic | async-ping-tcp/src/main.rs:117 | probes exactly 2^64 apart carry the same number, so the previous bound is tight |
| SequenceCounter.NthBeforeWrap | async-ping-tcp/src/main.rs:32 | before wrapping, the `k`-th probe carries `k` |
| PendingTable.Record | async-ping-tcp/src/main.rs:113 | `insert` adds the key with the given instant, keeps every other entry, and grows the table by one for a new key |
| PendingTable.Take | async-ping-tcp/src/main.rs:84 | `remove(..).unwrap()` succeeds exactly when the key is present; it returns the recorded instant, removes only that key, and keeps the other entries; a missing key is the unknown-sequence fault |
| PendingTable.RecordThenTake | async-ping-tcp/src/main.rs:84 | taking a freshly recorded key returns its instant and restores the table |
| PendingTable.TakeTwiceFails | async-ping-tcp/src/main.rs:84 | a second take of the same key fails |
| PendingTable.TakeOthersUnchanged | async-ping-tcp/src/main.rs:84 | taking one key leaves another key's instant available |
| Pipelined.RecordProbe | async-ping-tcp/src/main.rs:109-113 | the probe is the counter over a zeroed buffer; the table's keys become the old keys plus the counter, whose entry holds the current instant, which is also appended to the send history; every other entry keeps its instant; the counter and the connection are unchanged |
| Pipelined.WriteProbe | async-ping-tcp/src/main.rs:114-117 | `write_all` appends the payload after everything already on the connection; then the counter advances by `wrapping_add`; the table and the clock are unchanged |
| Pipelined.Send | async-ping-tcp/src/main.rs:108-118 | one sender iteration: the probe is recorded at the current instant, the table gains exactly its key, and every other entry keeps its instant; then the probe is appended to the connection and the counter advances by `wrapping_add`; a `size` below 8 panics |
| Pipelined.Receive | async-ping-tcp/src/main.rs:79-101 | succeeds exactly when the payload decodes to a pending key; it reports that key and the payload length; it removes only that key, keeps every other entry's instant and leaves the counter alone; elapsed is now minus the recorded instant; failures are the slice fault or the unknown-sequence fault |
| Pipelined.Echo | async-ping-tcp/src/main.rs:80-101 | the receiver reads the payload at the head of the connection, removes it, and matches the number it decodes; it fails exactly when that number is not pending; on a match it removes only that key, keeps every other entry's instant and the counter, and reports the time from the recorded instant to now |
| Pipelined.OutstandingCount | async-ping-tcp/src/main.rs:107-117 | fewer than 2^64 consecutive probes have that many distinct sequence numbers |
| Pipelined.OutstandingDropOldest | async-ping-tcp/src/main.rs:84 | matching the oldest outstanding probe removes exactly its number |
| Pipelined.Init | async-ping-tcp/src/main.rs:72-107 | a fresh connection (empty table, counter 0, nothing written) satisfies the invariant |
| Pipelined.PendingSize | async-ping-tcp/src/main.rs:113 | under the invariant the table holds `sent − echoed` entries |
| Pipelined.SendPreservesInv | async-ping-tcp/src/main.rs:108-118 | a Send into a window with fewer than 2^64 outstanding probes keeps the invariant and grows the table by one. The invariant: the pending keys are the sent-not-echoed numbers, each holding its own probe's send instant, and the connection holds those probes in order |
| Pipelined.FullWindowOverwrites | async-ping-tcp/src/main.rs:113 | with 2^64 probes outstanding, the next number is the oldest pending one, and the insert overwrites its instant instead of adding an entry |
| Pipelined.EchoPreservesInv | async-ping-tcp/src/main.rs:79-101 | with an order-preserving peer an Echo never fails; it matches the oldest outstanding probe and reports its number; elapsed is the time from that probe's own send instant to now; the invariant holds and the table shrinks by one |
| Pipelined.InvCoversWire | async-ping-tcp/src/main.rs:80-84 | under the invariant, every payload on the connection decodes to a key that is in the table |
| Pipelined.RecordBeforeWrite | async-ping-tcp/src/main.rs:113-114 | after the insert and before the write, the new number is in the table at the current instant and the connection is unchanged; every readable payload has its entry both before and after the write |
| Pipelined.WriteBeforeRecordRaces | async-ping-tcp/src/main.rs:113-114 | if the write came before the insert, the receiver could read the first echo and fail on the missing key |
| Pipelined.ReceiveAcceptsOnlyOutstanding | async-ping-tcp/src/main.rs:82-84 | a full-size payload is accepted exactly when its number belongs to a probe sent and not yet echoed |
| Pipelined.DuplicateEchoFails | async-ping-tcp/src/main.rs:84 | a peer echoing the same probe twice makes the second take fail |
| PipelinedRun.RunKeepsInv | async-ping-tcp/src/main.rs:76-118 | every interleaving in which no sender step finds 2^64 probes outstanding keeps the invariant and never panics; the results are the next probes in send order, each with the payload length and the time from its own send to its echo |
| PipelinedRun.Run | async-ping-tcp/src/main.rs:76-118 | a run that has not panicked has sent one probe per sender step and matched one echo per result; it keeps the payload size and only extends the send and echo histories |
| PipelinedRun.BoundedByFewSends | async-ping-tcp/src/main.rs:107-117 | a schedule with at most 2^64 sender steps never fills the window |
| PipelinedRun.RunFromStart | async-ping-tcp/src/main.rs:72-118 | from a fresh connection, a run that never fills the window never panics; result `i` carries `i mod 2^64` (so 0, 1, 2, … before the wrap) and the time from probe `i`'s send to its echo; the table holds one entry per probe still awaiting its echo |
| PipelinedRun.RunCrashesOnShortPayload | async-ping-tcp/src/main.rs:77-111 | a `size` below 8 ends the run at the first sender step, before any result; with `size` 0 the receiver's first read also returns at once and panics at the slice |
| WaitMode.Iteration | async-ping-tcp/src/main.rs:35-59 | one write and then one read; the written bytes have the buffer's length, bytes 0..8 are `to_le_bytes(count)` and every byte from 8 on is the previous buffer's (the previous reply); the report is `count` (the value before the increment), the buffer length and the round-trip time; the reply becomes the buffer and the counter advances by `wrapping_add`; a short buffer panics |
| WaitMode.Loop | async-ping-tcp/src/main.rs:35-60 | the loop succeeds exactly when there is no iteration or the buffer holds the header; it makes two transport calls and one report per iteration and keeps the buffer length; otherwise it panics at the slice |
| WaitMode.AlternatingAtMostOne | async-ping-tcp/src/main.rs:40-41 | in a transcript of alternating writes and reads, at most one probe is ever outstanding |
| WaitMode.LoopReports | async-ping-tcp/src/main.rs:35-60 | the loop does exactly one write and one read per iteration, alternating, and reports consecutive counter values with each exchange's own round-trip time |
| WaitMode.Start | async-ping-tcp/src/main.rs:32-33 | the counter starts at 0 and the buffer is `size` zero bytes |
| WaitMode.LoopFromStart | async-ping-tcp/src/main.rs:32-60 | from the start, iteration `i` reports `i` until the counter wraps, and at most one probe is ever outstanding |
| WaitMode.LoopOnShortPayload | async-ping-tcp/src/main.rs:33-37 | a buffer shorter than 8 bytes panics in the first iteration |
| WaitMode.FaithfulEchoMatches | async-ping-tcp/src/main.rs:36-41 | with a verbatim echo, the reply carries the reported number and keeps the filler |
| WaitMode.WaitIsSendThenEcho | async-ping-tcp/src/main.rs:35-60 | a pipelined Send followed at once by its Echo reports the same number as one wait iteration and leaves nothing outstanding |

## Left out

- TCP: `connect`, `set_nodelay`, and the error results of `write_all` and `read_exact`. The connection is a FIFO of whole payloads. An early end of stream is an `unwrap` panic in the code, which the model does not represent. With a nonzero `size`, a receiver step on an empty connection does nothing, because `read_exact` is still waiting. With `size` 0, `read_exact` returns at once and the receiver panics at `payload[0..8]`; the model's `Run` does the same.
- Panics of the receiver task: the receiver is a spawned task whose handle is dropped, so its panic (the slice fault or the unknown-sequence fault) ends only that task, and the sender goes on writing. `Run` stops at that point with `Crashed`, which means that no further result is printed, not that the process has ended; the sender's later writes are not modelled.
- Concurrency: the async runtime, `task::spawn`, `Arc` and `Mutex`. Each locked table operation is one atomic step of an interleaving.
- Time: `Instant`, `Duration` and `task::sleep` with its floating-point interval. Time is an abstract clock advanced by per-step ticks, and the wait-mode round-trip time is an input of each exchange.
- Output formatting: the `println!` lines, the CSV columns, `interval` and `tasks`. A `Measurement` holds the varying fields.
- Command-line parsing with `clap`, the busy-loop load tasks spawned in `main`, and the choice between modes in `main`.
- PipelinedRun.RunKeepsInv: covers only schedules in which no sender step finds 2^64 probes already outstanding (`Bounded`). Such a send reuses the oldest pending number, and `insert` overwrites its entry (`Pipelined.FullWindowOverwrites`), so the invariant fails.
- WaitMode.Iteration: the peer's reply is an input of the same length as the buffer, because `read_exact` fills the whole buffer. Its contents are not checked against the probe, just as the code does not decode it.
