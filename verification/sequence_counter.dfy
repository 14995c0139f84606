/**
 The sender's `count: u64`: it starts at 0 and advances with `wrapping_add(1)`.
 */
module SequenceCounter {
  import opened Bytes

  const START: U64 := 0

  /** `count.wrapping_add(1)`. */
  function Next(count: U64): (r: U64)
    ensures count < U64_LIMIT - 1 ==> r == count + 1
    ensures count == U64_LIMIT - 1 ==> r == 0
  {
    (count + 1) % U64_LIMIT
  }

  /** Adding one to a residue modulo 2^64 is `wrapping_add(1)` of that residue. */
  lemma SuccMod(n: nat)
    ensures n % U64_LIMIT < U64_LIMIT - 1 ==> (n + 1) % U64_LIMIT == n % U64_LIMIT + 1
    ensures n % U64_LIMIT == U64_LIMIT - 1 ==> (n + 1) % U64_LIMIT == 0
  {
    var q := n / U64_LIMIT;
    assert n == q * U64_LIMIT + n % U64_LIMIT;
    if n % U64_LIMIT == U64_LIMIT - 1 {
      assert n + 1 == (q + 1) * U64_LIMIT;
    } else {
      assert n + 1 == q * U64_LIMIT + (n % U64_LIMIT + 1);
    }
  }

  /**
   The sequence number carried by the `k`-th probe of a run (counting from
   0): the counter starts at `START` and is advanced once per probe, so the
   `k`-th probe carries `k mod 2^64`.
   */
  function Nth(k: nat): (r: U64)
    ensures r == k % U64_LIMIT
  {
    if k == 0 then START
    else
      SuccMod(k - 1);
      Next(Nth(k - 1))
  }

  /** Fewer than 2^64 probes apart, two probes carry different sequence numbers. */
  lemma NthDistinct(i: nat, j: nat)
    requires i < j < i + U64_LIMIT
    ensures Nth(i) != Nth(j)
  {
  }

  /** Exactly 2^64 probes apart, the sequence number repeats: the bound above is tight. */
  lemma NthPeriodic(k: nat)
    ensures Nth(k + U64_LIMIT) == Nth(k)
  {
    var q := k / U64_LIMIT;
    var r := k % U64_LIMIT;
    assert k + U64_LIMIT == U64_LIMIT * (q + 1) + r;
    DivUnique(k + U64_LIMIT, U64_LIMIT, q + 1, r);
  }

  /** Before the counter wraps, the `k`-th probe carries `k` itself. */
  lemma NthBeforeWrap(k: nat)
    requires k < U64_LIMIT
    ensures Nth(k) == k
  {
  }
}
