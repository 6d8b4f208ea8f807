/** The producer's block clock: every block gets a later timestamp than the one before. */
module Clock {
  import opened Primitives

  /**
   * The timestamp proposed for the next block: one second after the previous
   * block, or the wall clock when that is later. `last + 1` is a `u64`
   * addition in the source, so `last` must leave room for it.
   */
  function NextTimestamp(last: U64, now: U64): (ts: U64)
    requires last < U64_MAX
    ensures last < ts && now <= ts
    ensures ts == last + 1 || ts == now
  {
    if last + 1 >= now then last + 1 else now
  }

  /** The proposed timestamp is the least one that is both after the previous block and not before the wall clock. */
  lemma NextTimestampIsLeast(last: U64, now: U64, t: nat)
    requires last < U64_MAX
    requires last < t && now <= t
    ensures NextTimestamp(last, now) <= t
  {
  }

  /** A wall clock that stands still or runs backwards still yields a strictly later block. */
  lemma ClockSkewTolerated(last: U64, now: U64)
    requires last < U64_MAX
    requires now <= last
    ensures NextTimestamp(last, now) == last + 1
  {
  }
}
