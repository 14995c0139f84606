/**
 The pending table, `HashMap<u64, Instant>`: the send time of every probe
 whose echo has not been matched yet.  Instants are points of an abstract
 monotonic clock.
 */
module PendingTable {
  import opened Bytes
  import opened Outcomes

  type Instant = nat

  type Table = map<U64, Instant>

  const EMPTY: Table := map[]

  /** `insert(key, at)`: adds or overwrites the entry for `key`. */
  function Record(t: Table, key: U64, at: Instant): (r: Table)
    ensures r.Keys == t.Keys + {key}
    ensures r[key] == at
    ensures forall k :: k in t && k != key ==> r[k] == t[k]
    ensures key !in t ==> |r| == |t| + 1
    ensures key in t ==> |r| == |t|
  {
    t[key := at]
  }

  /**
   `remove(&key).unwrap()`: removes the entry and returns its instant;
   a key that is not present is a fatal protocol error.
   */
  function Take(t: Table, key: U64): (r: Result<(Instant, Table)>)
    ensures r.Ok? <==> key in t
    ensures r.Err? ==> r.fault == UnknownSequence(key)
    ensures r.Ok? ==> r.value.0 == t[key]
    ensures r.Ok? ==> r.value.1.Keys == t.Keys - {key}
    ensures r.Ok? ==> forall k :: k in r.value.1 ==> r.value.1[k] == t[k]
    ensures r.Ok? ==> |r.value.1| == |t| - 1
  {
    if key in t then Ok((t[key], t - {key})) else Err(UnknownSequence(key))
  }

  /** Taking a freshly recorded key returns its instant and restores the table. */
  lemma RecordThenTake(t: Table, key: U64, at: Instant)
    requires key !in t
    ensures Take(Record(t, key, at), key) == Ok((at, t))
  {
    assert Record(t, key, at) - {key} == t;
  }

  /** A key can be taken once: the second take fails. */
  lemma TakeTwiceFails(t: Table, key: U64)
    requires key in t
    ensures Take(Take(t, key).value.1, key) == Err(UnknownSequence(key))
  {
  }

  /** Taking one key does not disturb taking another. */
  lemma TakeOthersUnchanged(t: Table, key: U64, other: U64)
    requires key in t && other in t && key != other
    ensures Take(Take(t, key).value.1, other).Ok?
    ensures Take(Take(t, key).value.1, other).value.0 == t[other]
  {
  }
}
