/**
 * The consensus engine and payload builder as seen by the miner: the
 * requests it sends and the replies it can get back. The replies are inputs
 * to the model; nothing about how the engine computes them is modelled.
 */
module Engine {
  import opened Primitives
  import opened Wrappers
  import opened ForkchoiceWindow

  /** Reply to `fork_choice_updated`: a status with an optional payload id, or an error result from the engine (the `?` on the await). */
  datatype FcuResponse =
    | FcuReply(valid: bool, payloadId: Option<PayloadId>)
    | FcuFailed

  /** Reply of `resolve_kind(id, WaitForPending)`: no payload, a builder error, or a built block with its hash. */
  datatype ResolveResponse =
    | NotResolved
    | ResolveFailed
    | Built(blockHash: B256)

  /** Reply to `new_payload`: a status, or an error result from the engine. */
  datatype NewPayloadResponse =
    | NewPayloadReply(valid: bool)
    | NewPayloadFailed

  /**
   * A request the miner issues. Payload attributes are represented by the
   * timestamp they are built from.
   */
  datatype EngineCall =
    | ForkchoiceUpdated(state: ForkchoiceState, attributesTimestamp: Option<U64>)
    | ResolvePayload(id: PayloadId)
    | NewPayload(blockHash: B256)
}
