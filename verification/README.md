# Proof-of-authority block producer

A Dafny model of `PoaMiner`, the block producer of a single-authority chain
built on reth's engine API. The producer keeps two pieces of state:

- `last_block_hashes`: a window of recent block hashes, oldest first, holding
  at most 64 entries;
- `last_timestamp`: the timestamp of the last block it produced.

From the window it derives the forkchoice triple (head, safe, finalized) that
it sends to the consensus engine. On every block tick it proposes a new
timestamp, asks the engine to start a payload, waits for the payload builder,
submits the built block with `new_payload`, and only when every one of those
steps succeeds commits the timestamp and appends the block's hash. On every
forkchoice tick it re-announces the current triple and changes nothing.

The model is functional. The state is the immutable record `PoaMiner.Miner`.
The wall clock, the engine's replies and the hash of the built block are
inputs. A tick returns the new state, its result, and the engine requests it
sent, in order.

Files:

- `primitives.dfy`: `u64`, 32-byte hashes and 8-byte payload ids.
- `wrappers.dfy`: `Option` and `Outcome`, standing in for Rust's `Option` and `eyre::Result<()>`.
- `clock.dfy`: the timestamp rule.
- `window.dfy`: the bounded window and the forkchoice triple derived from it.
- `engine.dfy`: the requests the miner sends and the replies it can receive.
- `miner.dfy`: construction, a block tick (`Advance`), a forkchoice tick
  (`UpdateForkchoiceState`), the run loop over a finite sequence of ticks, and
  lemmas about runs.

## The forkchoice triple on short windows

- While the window holds 32 or fewer entries, `len.saturating_sub(32)` is 0.
  `safe` is then the oldest retained hash, which is the head only when the
  window holds a single block. `ForkchoiceWindow.SafeIsHeadOnlyForSingleBlock`
  proves this for windows of distinct hashes.
- The window never holds more than 64 entries, so `len.saturating_sub(64)` is
  always 0. `finalized` is therefore always the front of the window. With a
  full window it is 63 positions behind the head.

## Model

| member | source | states |
|---|---|---|
| PoaMiner.New | src/poa_miner.rs:54-62 | After construction the window is exactly the best block's hash and the clock reads the start-up wall clock. The window is therefore valid, and all three forkchoice markers are that hash. |
| Clock.NextTimestamp | src/poa_miner.rs:134-140 | The proposed timestamp is strictly after the last block and not before the wall clock. It is one of those two candidates. |
| Clock.NextTimestampIsLeast | src/poa_miner.rs:134-140 | The proposed timestamp is the least value that is both after the last block and not before the wall clock, i.e. `max(last + 1, now)`. |
| Clock.ClockSkewTolerated | src/poa_miner.rs:134-140 | If the wall clock stands still or runs backwards, the next block still gets `last + 1`. |
| ForkchoiceWindow.SafeIndex | src/poa_miner.rs:120-123 | The safe index is within the window. It trails the head by `min(len - 1, 31)` positions. |
| ForkchoiceWindow.FinalizedIndex | src/poa_miner.rs:124-127 | The finalized index is at or before the safe index and trails the head by `min(len - 1, 63)` positions. In a window of at most 64 entries it is 0. |
| ForkchoiceWindow.Forkchoice | src/poa_miner.rs:114-129 | On a non-empty window no lookup goes out of bounds. Head is the last entry. Safe and finalized sit at their lags behind the head. Safe is the oldest entry when the window holds at most 32 hashes. Finalized is the oldest entry whenever the window is valid. |
| ForkchoiceWindow.SafeIsHeadOnlyForSingleBlock | src/poa_miner.rs:114-128 | For distinct hashes, safe equals head if and only if the window holds one hash. The same holds for finalized. |
| ForkchoiceWindow.Push | src/poa_miner.rs:175-179 | The new hash becomes the last entry. The result is a suffix of the old window followed by the new hash. Nothing is dropped below 64 entries. Exactly the oldest entry is dropped at 64. A valid window stays valid. |
| ForkchoiceWindow.PushRetainsLatest | src/poa_miner.rs:175-179 | Pushing onto the latest 64 hashes of a history gives the latest 64 hashes of that history extended by the new hash. |
| PoaMiner.Advance | src/poa_miner.rs:133-182 | The first request is forkchoice-updated with the current triple and attributes for the next timestamp. The tick succeeds if and only if every engine step succeeds. A failure leaves the state unchanged, reports the failing step's error and sends no later request. A success commits exactly the timestamp that was sent and pushes the built block's hash, which becomes the new head. |
| PoaMiner.UpdateForkchoiceState | src/poa_miner.rs:96-111 | Announces the current triple without attributes. It succeeds if and only if the reply is valid. It returns no state, so it cannot change the window or the clock. |
| PoaMiner.OnTick | src/poa_miner.rs:76-91 | A forkchoice tick, or any failed tick, leaves the state unchanged. No tick changes the block interval. A tick commits if and only if it is a block tick whose every step succeeds. It then sets the clock to the next timestamp and pushes the built hash. The window invariant holds afterwards. |
| PoaMiner.Run | src/poa_miner.rs:73-93 | Over any sequence of ticks the window invariant holds. There is one timestamp per committed block. Timestamps are strictly increasing and all after the starting clock. The clock reads the last of them and has advanced by at least one second per committed block. |
| PoaMiner.RunTimestampsFromTicks | src/poa_miner.rs:134-174 | The timestamps a run assigns are exactly those computed from the ticks alone: for each fully successful block tick, in order, the later of one second after the previous block and that tick's wall-clock reading. |
| PoaMiner.RunClockFromTicks | src/poa_miner.rs:174 | After a run the clock reads the last of those timestamps, or its starting value when no tick committed. |
| PoaMiner.RunWindowIsLatestHistory | src/poa_miner.rs:175-179 | After a run the window is the latest 64 hashes of the prior history followed by the committed blocks in production order. |
| PoaMiner.WindowAfterStartup | src/poa_miner.rs:58 | From construction, the window is always the latest 64 hashes of the best block followed by every committed block. |
| PoaMiner.AnnouncementsChangeNothing | src/poa_miner.rs:86-90 | A run made only of forkchoice ticks commits nothing and leaves the state exactly as it was. |
| PoaMiner.CommittedWereAccepted | src/poa_miner.rs:151-179 | Every hash a run commits was built by a tick whose forkchoice update, payload build and `new_payload` all succeeded. |
| PoaMiner.CommittedIsAccepted | src/poa_miner.rs:151-179 | A run commits exactly the built blocks of its fully successful block ticks, each once and in tick order, whatever failed or forkchoice ticks come between them. |
| PoaMiner.WindowOnlyNamesAcceptedBlocks | src/poa_miner.rs:58-179 | From construction, every hash in the window is either the start-up best block or the built block of a tick whose forkchoice update, payload build and `new_payload` all succeeded. |
| PoaMiner.SuccessfulTicksAllCommit | src/poa_miner.rs:151-179 | When every tick is a fully successful block tick, each tick commits its own built hash, in tick order. |
| PoaMiner.SuccessfulRunAfterStartup | src/poa_miner.rs:174-179 | From construction, fewer than 64 fully successful block ticks leave the window as the best block followed by every built hash in order. For example, three ticks give a window of four hashes. |

## Left out

- The run loop's timers: `tokio::select!` over a 1-second forkchoice interval and the block interval. The loop is modelled as a finite sequence of ticks, each either a block tick or a forkchoice tick. The interval lengths, the tie-break between the timers and the endless loop are not modelled. `Miner.interval` is carried along unchanged.
- The consensus engine, the payload builder and the payload attributes builder. Their replies are inputs. Payload attributes are represented by their timestamp only. `block_to_payload` and `block.hash()` are represented by the hash carried in the builder's reply.
- The engine API message version. Every request uses the default, which has no effect on the model.
- `SystemTime::now()` is an input. The start-up lookups of the best block, with their `unwrap` panics, are replaced by the best block's hash as an input.
- Clock.NextTimestamp: requires `last_timestamp < u64::MAX`. In the source, `last_timestamp + 1` panics on overflow in a debug build and wraps to 0 in a release build. The model covers neither.
- PoaMiner.Run: requires clock headroom. Neither the clock nor any wall-clock reading may come within the number of remaining ticks of `u64::MAX`. This keeps the previous point's precondition true throughout a run.
- ForkchoiceWindow.Forkchoice: requires a non-empty window. In the source, `expect` panics on an empty one, which the miner's invariant rules out.
- Log messages. Each `bail!` and `?` is modelled by an error value, not by its text.
- `src/poa_follower.rs` (the follower's relay) is not part of this model. It is network plumbing: a block subscription, a JSON round trip that rebuilds only the header, and engine calls whose results are ignored. Its one forkchoice rule, head = safe = finalized = the new hash, is too thin to model. The file contains no field renaming ("uncles" to "ommers"), so none is modelled.
- `src/main.rs` (CLI parsing, node launch, writing the enode file, task spawning) is not part of this model.
