/**
 The probe codec: the sequence number travels in the first eight bytes of
 every payload, least significant byte first; the rest of the payload is filler.
 */
module ProbeCodec {
  import opened Bytes
  import opened Outcomes

  /** `vec![0u8; size]`. */
  function Zeros(size: nat): (z: seq<Byte>)
    ensures |z| == size
    ensures forall i :: 0 <= i < size ==> z[i] == 0
  {
    seq(size, _ => 0)
  }

  /**
   `payload[0..8].copy_from_slice(&count.to_le_bytes())`: the header is
   overwritten and every other byte is left as it was.  A payload shorter
   than the header makes the slice panic.
   */
  function Encode(count: U64, payload: seq<Byte>): (r: Result<seq<Byte>>)
    ensures r.Ok? <==> |payload| >= U64_BYTES
    ensures r.Err? ==> r.fault == SliceOutOfRange(|payload|)
    ensures r.Ok? ==> |r.value| == |payload|
    ensures r.Ok? ==> r.value[..U64_BYTES] == ToLeBytes(count)
    ensures r.Ok? ==> forall i :: U64_BYTES <= i < |payload| ==> r.value[i] == payload[i]
  {
    if |payload| < U64_BYTES then Err(SliceOutOfRange(|payload|))
    else Ok(ToLeBytes(count) + payload[U64_BYTES..])
  }

  /** `u64::from_le_bytes(payload[0..8])`; panics on a payload shorter than the header. */
  function Decode(payload: seq<Byte>): (r: Result<U64>)
    ensures r.Ok? <==> |payload| >= U64_BYTES
    ensures r.Err? ==> r.fault == SliceOutOfRange(|payload|)
  {
    if |payload| < U64_BYTES then Err(SliceOutOfRange(|payload|))
    else Ok(FromLeBytes(payload[..U64_BYTES]))
  }

  /** The pipelined sender's probe: `count` written over a fresh zeroed buffer. */
  function FreshProbe(count: U64, size: nat): (r: Result<seq<Byte>>)
    ensures r.Ok? <==> size >= U64_BYTES
    ensures r.Ok? ==> |r.value| == size
    ensures r.Ok? ==> r.value[..U64_BYTES] == ToLeBytes(count)
    ensures r.Ok? ==> forall i :: U64_BYTES <= i < size ==> r.value[i] == 0
  {
    Encode(count, Zeros(size))
  }

  /** Decoding an encoded payload gives back the sequence number, whatever the filler. */
  lemma RoundTrip(count: U64, payload: seq<Byte>)
    requires |payload| >= U64_BYTES
    ensures Encode(count, payload).Ok?
    ensures Decode(Encode(count, payload).value) == Ok(count)
  {
    var p := Encode(count, payload).value;
    FromToLeBytes(count);
    assert p[..U64_BYTES] == ToLeBytes(count);
  }

  /** Re-encoding the decoded sequence number into a payload leaves it unchanged. */
  lemma ReEncode(payload: seq<Byte>)
    requires |payload| >= U64_BYTES
    ensures Decode(payload).Ok?
    ensures Encode(Decode(payload).value, payload) == Ok(payload)
  {
    var header := payload[..U64_BYTES];
    ToFromLeBytes(header);
    assert payload == header + payload[U64_BYTES..];
  }

  /** The decoded sequence number depends on the header only. */
  lemma DecodeIgnoresFiller(p: seq<Byte>, q: seq<Byte>)
    requires |p| >= U64_BYTES && |q| >= U64_BYTES
    requires p[..U64_BYTES] == q[..U64_BYTES]
    ensures Decode(p) == Decode(q)
  {
  }

  /** Two probes for different sequence numbers never decode alike. */
  lemma FreshProbeInjective(m: U64, n: U64, size: nat)
    requires size >= U64_BYTES
    requires FreshProbe(m, size) == FreshProbe(n, size)
    ensures m == n
  {
    RoundTrip(m, Zeros(size));
    RoundTrip(n, Zeros(size));
  }
}
