/**
 * The producer's window of recent block hashes, oldest first, and the
 * forkchoice triple (head, safe, finalized) read off it.
 */
module ForkchoiceWindow {
  import opened Primitives

  /** At most this many recent hashes are kept. */
  const MAX_RETAINED: nat := 64
  /** Offset from the end of the window of the block announced as safe. */
  const SAFE_OFFSET: nat := 32
  /** Offset from the end of the window of the block announced as finalized. */
  const FINALIZED_OFFSET: nat := 64

  type Window = seq<B256>

  /** The window invariant the miner keeps: never empty, never longer than MAX_RETAINED. */
  predicate Valid(w: Window) {
    0 < |w| <= MAX_RETAINED
  }

  /** No hash occurs twice (block hashes of one chain are distinct). */
  predicate Distinct(w: Window) {
    forall i, j :: 0 <= i < j < |w| ==> w[i] != w[j]
  }

  function Min(a: nat, b: nat): nat {
    if a <= b then a else b
  }

  /** Rust's `usize::saturating_sub`: subtraction clamped at zero. */
  function SaturatingSub(a: nat, b: nat): (r: nat)
    ensures r <= a
    ensures r == 0 || r + b == a
    ensures b <= a ==> r + b == a
  {
    if a >= b then a - b else 0
  }

  /**
   * Index of the safe block in a window of `len` entries: it trails the head
   * by SAFE_OFFSET - 1 positions, or sits at the oldest entry while the
   * window is shorter than that.
   */
  function SafeIndex(len: nat): (i: nat)
    requires 0 < len
    ensures i < len
    ensures len - 1 - i == Min(len - 1, SAFE_OFFSET - 1)
  {
    SaturatingSub(len, SAFE_OFFSET)
  }

  /** Index of the finalized block: it trails the head by FINALIZED_OFFSET - 1 positions, or is the oldest entry. */
  function FinalizedIndex(len: nat): (i: nat)
    requires 0 < len
    ensures i <= SafeIndex(len)
    ensures len - 1 - i == Min(len - 1, FINALIZED_OFFSET - 1)
    ensures len <= MAX_RETAINED ==> i == 0
  {
    SaturatingSub(len, FINALIZED_OFFSET)
  }

  datatype ForkchoiceState = ForkchoiceState(head: B256, safe: B256, finalized: B256)

  /** The forkchoice triple the miner announces for its window. */
  function Forkchoice(w: Window): (fc: ForkchoiceState)
    requires 0 < |w|
    ensures fc.head == w[|w| - 1]
    ensures fc.safe == w[|w| - 1 - Min(|w| - 1, SAFE_OFFSET - 1)]
    ensures fc.finalized == w[|w| - 1 - Min(|w| - 1, FINALIZED_OFFSET - 1)]
    ensures |w| <= SAFE_OFFSET ==> fc.safe == w[0]
    ensures Valid(w) ==> fc.finalized == w[0]
  {
    ForkchoiceState(w[|w| - 1], w[SafeIndex(|w|)], w[FinalizedIndex(|w|)])
  }

  /**
   * In a window of distinct hashes the safe block is the head only when the
   * window holds a single block; likewise the finalized block.
   */
  lemma SafeIsHeadOnlyForSingleBlock(w: Window)
    requires 0 < |w| && Distinct(w)
    ensures Forkchoice(w).safe == Forkchoice(w).head <==> |w| == 1
    ensures Forkchoice(w).finalized == Forkchoice(w).head <==> |w| == 1
  {
  }

  /**
   * Appends a new head and, when that makes the window longer than
   * MAX_RETAINED, drops the oldest entry.
   */
  function Push(w: Window, h: B256): (r: Window)
    ensures 0 < |r| <= |w| + 1
    ensures r[|r| - 1] == h
    ensures r == (w + [h])[|w| + 1 - |r|..]
    ensures |w| < MAX_RETAINED ==> |r| == |w| + 1
    ensures |w| >= MAX_RETAINED ==> |r| == |w|
    ensures Valid(w) ==> Valid(r)
  {
    var pushed := w + [h];
    if |pushed| > MAX_RETAINED then pushed[1..] else pushed
  }

  /** The most recent `n` entries of a history, oldest first (the whole history when it is shorter). */
  function LastN(s: seq<B256>, n: nat): (r: seq<B256>)
    ensures |r| == Min(|s|, n)
    ensures r == s[|s| - |r|..]
  {
    if |s| <= n then s else s[|s| - n..]
  }

  /** Pushing onto the retained tail of a history retains the tail of the extended history. */
  lemma {:induction false} PushRetainsLatest(s: seq<B256>, h: B256)
    ensures Push(LastN(s, MAX_RETAINED), h) == LastN(s + [h], MAX_RETAINED)
  {
    var t := LastN(s, MAX_RETAINED);
    var s' := s + [h];
    if |s| < MAX_RETAINED {
      assert t == s;
      assert LastN(s', MAX_RETAINED) == s';
    } else {
      var lo := |s| - MAX_RETAINED;
      assert t == s[lo..];
      var r := (t + [h])[1..];
      var e := s'[lo + 1..];
      assert |r| == |e| == MAX_RETAINED;
      forall k | 0 <= k < MAX_RETAINED
        ensures r[k] == e[k]
      {
        if k < MAX_RETAINED - 1 {
          assert r[k] == t[k + 1] == s[lo + 1 + k];
        }
      }
      assert r == e;
    }
  }

  /** Every retained hash comes from the history. */
  lemma LastNOnlyFromHistory(s: seq<B256>, n: nat, h: B256)
    requires h in LastN(s, n)
    ensures h in s
  {
    var r := LastN(s, n);
    var k :| 0 <= k < |r| && r[k] == h;
    assert s[|s| - |r| + k] == h;
  }
}
