/**
 The ways a probe exchange can end a run, and what the receiver reports
 for each matched echo.
 */
module Outcomes {
  import opened Bytes

  /** The panics of the probe loops that the model keeps. */
  datatype Fault =
    /** `payload[0..8]` on a payload of only `len` bytes. */
    | SliceOutOfRange(len: nat)
    /** `remove(&count).unwrap()` on a sequence number that is not pending. */
    | UnknownSequence(sequence: U64)

  datatype Result<+T> = Ok(value: T) | Err(fault: Fault)

  /** One printed result line: sequence number, payload length, round-trip time. */
  datatype Measurement = Measurement(sequence: U64, size: nat, elapsed: nat)
}
