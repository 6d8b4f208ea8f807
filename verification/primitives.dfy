/** Fixed-width values the miner handles. */
module Primitives {

  /** Largest value of a Rust `u64`. */
  const U64_MAX: nat := 0xFFFF_FFFF_FFFF_FFFF

  /** Rust's `u64`: seconds since the Unix epoch, block intervals. */
  type U64 = x: nat | x <= U64_MAX

  /** A 32-byte block hash (`B256`). The model never looks inside one. */
  type B256 = s: seq<bv8> | |s| == 32 witness seq(32, _ => 0 as bv8)

  /** The 8-byte identifier the engine hands out for a payload being built. */
  type PayloadId = s: seq<bv8> | |s| == 8 witness seq(8, _ => 0 as bv8)
}
