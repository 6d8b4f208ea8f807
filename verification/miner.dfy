/**
 * The proof-of-authority block producer: a window of recent block hashes and
 * a block clock, advanced on every block tick whose engine round trip fully
 * succeeds, and announced to the engine on every forkchoice tick.
 */
module PoaMiner {
  import opened Primitives
  import opened Wrappers
  import opened Clock
  import opened ForkchoiceWindow
  import opened Engine

  /** The miner's state. The engine and builder handles are replaced by reply inputs. */
  datatype Miner = Miner(interval: U64, lastTimestamp: U64, lastBlockHashes: Window)

  predicate Inv(m: Miner) {
    Valid(m.lastBlockHashes)
  }

  /** Why a tick was abandoned; each names one `bail!` or `?` of the source. */
  datatype MinerError =
    | EngineError  // an engine call itself returned an error (the `?` on its reply)
    | InvalidPayloadStatus
    | MissingPayloadId
    | MissingPayload
    | InvalidPayload
    | InvalidForkChoiceUpdate

  /** The replies one block tick receives, in the order its requests are sent. */
  datatype AdvanceReplies = AdvanceReplies(fcu: FcuResponse, resolve: ResolveResponse, newPayload: NewPayloadResponse)

  /** Every engine step of a block tick succeeds. */
  predicate AllStepsSucceed(o: AdvanceReplies) {
    && o.fcu.FcuReply? && o.fcu.valid && o.fcu.payloadId.Some?
    && o.resolve.Built?
    && o.newPayload == NewPayloadReply(true)
  }

  /** The state after a tick, the tick's result, and the requests it sent in order. */
  datatype Step = Step(miner: Miner, result: Outcome<MinerError>, calls: seq<EngineCall>)

  /**
   * Construction: the window holds the hash of the best block and the clock
   * reads the wall clock at start-up.
   */
  function New(bestHash: B256, now: U64, interval: U64): (m: Miner)
    ensures Inv(m)
    ensures m.lastBlockHashes == [bestHash]
    ensures m.lastTimestamp == now && m.interval == interval
    ensures Forkchoice(m.lastBlockHashes) == ForkchoiceState(bestHash, bestHash, bestHash)
  {
    Miner(interval, now, [bestHash])
  }

  /**
   * One block tick. The forkchoice-updated request carries attributes built
   * from the next timestamp; the tick stops at the first step that fails and
   * only a fully successful tick commits the timestamp and the new hash.
   */
  function Advance(m: Miner, now: U64, o: AdvanceReplies): (s: Step)
    requires Inv(m)
    requires m.lastTimestamp < U64_MAX
    ensures Inv(s.miner) && s.miner.interval == m.interval
    ensures 0 < |s.calls| <= 3
    ensures s.calls[0] == ForkchoiceUpdated(Forkchoice(m.lastBlockHashes), Some(NextTimestamp(m.lastTimestamp, now)))
    // all or nothing
    ensures s.result.Pass? <==> AllStepsSucceed(o)
    ensures s.result.Fail? ==> s.miner == m
    // which step failed, and that nothing after it was requested
    ensures o.fcu.FcuFailed? ==> s.result == Fail(EngineError) && |s.calls| == 1
    ensures o.fcu.FcuReply? && !o.fcu.valid ==> s.result == Fail(InvalidPayloadStatus) && |s.calls| == 1
    ensures o.fcu == FcuReply(true, None) ==> s.result == Fail(MissingPayloadId) && |s.calls| == 1
    ensures 1 < |s.calls| <==> o.fcu.FcuReply? && o.fcu.valid && o.fcu.payloadId.Some?
    ensures 1 < |s.calls| ==> s.calls[1] == ResolvePayload(o.fcu.payloadId.value)
    ensures 1 < |s.calls| && !o.resolve.Built? ==> s.result == Fail(MissingPayload) && |s.calls| == 2
    ensures |s.calls| == 3 <==> 1 < |s.calls| && o.resolve.Built?
    ensures |s.calls| == 3 ==> s.calls[2] == NewPayload(o.resolve.blockHash)
    ensures |s.calls| == 3 && o.newPayload.NewPayloadFailed? ==> s.result == Fail(EngineError)
    ensures |s.calls| == 3 && o.newPayload == NewPayloadReply(false) ==> s.result == Fail(InvalidPayload)
    // the commit
    ensures s.result.Pass? ==> s.miner.lastTimestamp == s.calls[0].attributesTimestamp.value
    ensures s.result.Pass? ==> m.lastTimestamp < s.miner.lastTimestamp && now <= s.miner.lastTimestamp
    ensures s.result.Pass? ==> s.miner.lastBlockHashes == Push(m.lastBlockHashes, o.resolve.blockHash)
    ensures s.result.Pass? ==> Forkchoice(s.miner.lastBlockHashes).head == o.resolve.blockHash
  {
    var ts := NextTimestamp(m.lastTimestamp, now);
    var fcuCall := ForkchoiceUpdated(Forkchoice(m.lastBlockHashes), Some(ts));
    match o.fcu
    case FcuFailed => Step(m, Fail(EngineError), [fcuCall])
    case FcuReply(valid, payloadId) =>
      if !valid then Step(m, Fail(InvalidPayloadStatus), [fcuCall])
      else
        match payloadId
        case None => Step(m, Fail(MissingPayloadId), [fcuCall])
        case Some(id) =>
          var resolveCall := ResolvePayload(id);
          match o.resolve
          case NotResolved => Step(m, Fail(MissingPayload), [fcuCall, resolveCall])
          case ResolveFailed => Step(m, Fail(MissingPayload), [fcuCall, resolveCall])
          case Built(hash) =>
            var calls := [fcuCall, resolveCall, NewPayload(hash)];
            match o.newPayload
            case NewPayloadFailed => Step(m, Fail(EngineError), calls)
            case NewPayloadReply(ok) =>
              if !ok then Step(m, Fail(InvalidPayload), calls)
              else
                var committed := m.(lastTimestamp := ts, lastBlockHashes := Push(m.lastBlockHashes, hash));
                Step(committed, Pass, calls)
  }

  /** The announcement a forkchoice tick makes: its result and the one request it sends. */
  datatype Announcement = Announcement(result: Outcome<MinerError>, call: EngineCall)

  /**
   * A forkchoice tick: re-announce the current window without payload
   * attributes. It reads the state and returns no new one.
   */
  function UpdateForkchoiceState(m: Miner, r: FcuResponse): (a: Announcement)
    requires Inv(m)
    ensures a.call == ForkchoiceUpdated(Forkchoice(m.lastBlockHashes), None)
    ensures a.result.Pass? <==> r.FcuReply? && r.valid
    ensures r.FcuFailed? ==> a.result == Fail(EngineError)
    ensures r.FcuReply? && !r.valid ==> a.result == Fail(InvalidForkChoiceUpdate)
  {
    var call := ForkchoiceUpdated(Forkchoice(m.lastBlockHashes), None);
    match r
    case FcuFailed => Announcement(Fail(EngineError), call)
    case FcuReply(valid, _) =>
      if valid then Announcement(Pass, call) else Announcement(Fail(InvalidForkChoiceUpdate), call)
  }

  /** What wakes the run loop: the block timer (with the wall clock and the replies) or the forkchoice timer. */
  datatype Tick =
    | BlockTick(now: U64, replies: AdvanceReplies)
    | ForkchoiceTick(reply: FcuResponse)

  /**
   * One iteration of the run loop. A failed tick is logged and the loop goes
   * on, so the result is reported but never stops anything.
   */
  function OnTick(m: Miner, t: Tick): (s: Step)
    requires Inv(m)
    requires t.BlockTick? ==> m.lastTimestamp < U64_MAX
    ensures Inv(s.miner) && s.miner.interval == m.interval
    ensures t.ForkchoiceTick? ==> s.miner == m
    ensures s.result.Fail? ==> s.miner == m
    ensures Committed(t, s) <==> t.BlockTick? && AllStepsSucceed(t.replies)
    ensures Committed(t, s) ==> s.miner.lastTimestamp == NextTimestamp(m.lastTimestamp, t.now)
    ensures Committed(t, s) ==> s.miner.lastBlockHashes == Push(m.lastBlockHashes, t.replies.resolve.blockHash)
    ensures !Committed(t, s) ==> s.miner == m
  {
    match t
    case BlockTick(now, replies) => Advance(m, now, replies)
    case ForkchoiceTick(reply) =>
      var a := UpdateForkchoiceState(m, reply);
      Step(m, a.result, [a.call])
  }

  /** The tick was a block tick whose every step succeeded. */
  predicate Committed(t: Tick, s: Step) {
    t.BlockTick? && s.result.Pass?
  }

  /**
   * The clock has room for the ticks ahead: neither the block clock nor any
   * wall-clock reading can reach the top of the `u64` range within them.
   */
  predicate ClockHeadroom(last: U64, ticks: seq<Tick>) {
    && last + |ticks| < U64_MAX
    && forall i :: 0 <= i < |ticks| && ticks[i].BlockTick? ==> ticks[i].now + |ticks| < U64_MAX
  }

  /** One tick uses up at most one second of the headroom. */
  lemma HeadroomAfterTick(m: Miner, ticks: seq<Tick>)
    requires Inv(m) && 0 < |ticks| && ClockHeadroom(m.lastTimestamp, ticks)
    ensures ClockHeadroom(OnTick(m, ticks[0]).miner.lastTimestamp, ticks[1..])
  {
    var rest := ticks[1..];
    forall i | 0 <= i < |rest| && rest[i].BlockTick?
      ensures rest[i].now + |rest| < U64_MAX
    {
      assert rest[i] == ticks[i + 1];
    }
  }

  /** A run: the final state, and the hashes committed and timestamps assigned, in production order. */
  datatype Trace = Trace(miner: Miner, committed: seq<B256>, timestamps: seq<U64>)

  predicate StrictlyIncreasing(ts: seq<U64>) {
    forall i, j :: 0 <= i < j < |ts| ==> ts[i] < ts[j]
  }

  /**
   * The clock facts of a run that started with the clock at `start`: one
   * timestamp per committed block, strictly increasing, all after `start`,
   * each committed block advancing the clock by at least one second, and the
   * clock reading the last of them.
   */
  predicate ClockAdvances(start: U64, r: Trace) {
    && |r.committed| == |r.timestamps|
    && StrictlyIncreasing(r.timestamps)
    && (forall i :: 0 <= i < |r.timestamps| ==> start < r.timestamps[i])
    && (r.timestamps != [] ==> r.miner.lastTimestamp == r.timestamps[|r.timestamps| - 1])
    && start + |r.timestamps| <= r.miner.lastTimestamp
  }

  /** Prepending a committed block to the trace of the rest of a run keeps the clock facts, measured from before that block. */
  lemma PrependCommit(start: U64, ts: U64, h: B256, rest: Trace)
    requires start < ts
    requires ClockAdvances(ts, rest)
    requires rest.timestamps == [] ==> rest.miner.lastTimestamp == ts
    ensures ClockAdvances(start, Trace(rest.miner, [h] + rest.committed, [ts] + rest.timestamps))
  {
  }

  /**
   * The run loop over a finite sequence of ticks. Every committed block gets
   * a timestamp strictly later than the one before, the clock reads the last
   * of them, and the window invariant holds throughout.
   */
  function Run(m: Miner, ticks: seq<Tick>): (r: Trace)
    requires Inv(m) && ClockHeadroom(m.lastTimestamp, ticks)
    ensures Inv(r.miner) && r.miner.interval == m.interval
    ensures ClockAdvances(m.lastTimestamp, r)
    ensures |r.timestamps| <= |ticks|
    ensures r.timestamps == [] ==> r.miner == m
    decreases |ticks|
  {
    if |ticks| == 0 then Trace(m, [], [])
    else
      var t := ticks[0];
      var s := OnTick(m, t);
      HeadroomAfterTick(m, ticks);
      var rest := Run(s.miner, ticks[1..]);
      if !Committed(t, s) then rest
      else
        PrependCommit(m.lastTimestamp, s.miner.lastTimestamp, t.replies.resolve.blockHash, rest);
        Trace(rest.miner, [t.replies.resolve.blockHash] + rest.committed, [s.miner.lastTimestamp] + rest.timestamps)
  }

  /** One step of the run loop: a committed tick contributes its hash and timestamp, any other tick nothing. */
  lemma RunUnfold(m: Miner, ticks: seq<Tick>)
    requires Inv(m) && 0 < |ticks| && ClockHeadroom(m.lastTimestamp, ticks)
    ensures ClockHeadroom(OnTick(m, ticks[0]).miner.lastTimestamp, ticks[1..])
    ensures Committed(ticks[0], OnTick(m, ticks[0])) ==>
      Run(m, ticks).committed == [ticks[0].replies.resolve.blockHash] + Run(OnTick(m, ticks[0]).miner, ticks[1..]).committed
    ensures Run(m, ticks).miner == Run(OnTick(m, ticks[0]).miner, ticks[1..]).miner
    ensures !Committed(ticks[0], OnTick(m, ticks[0])) ==> Run(m, ticks) == Run(m, ticks[1..])
  {
    HeadroomAfterTick(m, ticks);
  }

  /**
   * The window after a run is the most recent MAX_RETAINED hashes of the
   * whole history: the hashes known before the run followed by those
   * committed during it, in production order.
   */
  lemma {:induction false} RunWindowIsLatestHistory(m: Miner, ticks: seq<Tick>, history: seq<B256>)
    requires Inv(m) && ClockHeadroom(m.lastTimestamp, ticks)
    requires m.lastBlockHashes == LastN(history, MAX_RETAINED)
    ensures Run(m, ticks).miner.lastBlockHashes == LastN(history + Run(m, ticks).committed, MAX_RETAINED)
    decreases |ticks|, 1
  {
    if |ticks| == 0 {
      assert history + [] == history;
    } else if Committed(ticks[0], OnTick(m, ticks[0])) {
      CommittedTickWindow(m, ticks, history);
    } else {
      RunUnfold(m, ticks);
      RunWindowIsLatestHistory(m, ticks[1..], history);
    }
  }

  /** The inductive step of RunWindowIsLatestHistory for a tick that commits a block. */
  lemma {:induction false} CommittedTickWindow(m: Miner, ticks: seq<Tick>, history: seq<B256>)
    requires Inv(m) && 0 < |ticks| && ClockHeadroom(m.lastTimestamp, ticks)
    requires m.lastBlockHashes == LastN(history, MAX_RETAINED)
    requires Committed(ticks[0], OnTick(m, ticks[0]))
    ensures Run(m, ticks).miner.lastBlockHashes == LastN(history + Run(m, ticks).committed, MAX_RETAINED)
    decreases |ticks|, 0
  {
    var next := OnTick(m, ticks[0]).miner;
    var h := ticks[0].replies.resolve.blockHash;
    var extended := history + [h];
    RunUnfold(m, ticks);
    CommittedTickExtendsHistory(m, ticks[0], history);
    RunWindowIsLatestHistory(next, ticks[1..], extended);
    var rest := Run(next, ticks[1..]).committed;
    AppendAssociates(history, [h], rest);
    assert history + Run(m, ticks).committed == extended + rest;
  }

  /** Sequence concatenation regrouped; stated on its own so the window proof stays small. */
  lemma AppendAssociates(a: seq<B256>, b: seq<B256>, c: seq<B256>)
    ensures a + (b + c) == a + b + c
  {
  }

  /** A committed tick leaves the window holding the latest hashes of the history extended by the new block. */
  lemma CommittedTickExtendsHistory(m: Miner, t: Tick, history: seq<B256>)
    requires Inv(m) && t.BlockTick? && m.lastTimestamp < U64_MAX
    requires m.lastBlockHashes == LastN(history, MAX_RETAINED)
    requires Committed(t, OnTick(m, t))
    ensures OnTick(m, t).miner.lastBlockHashes == LastN(history + [t.replies.resolve.blockHash], MAX_RETAINED)
  {
    PushRetainsLatest(history, t.replies.resolve.blockHash);
  }

  /** Starting from construction, the window is the latest MAX_RETAINED of the best block followed by every committed block. */
  lemma WindowAfterStartup(bestHash: B256, now: U64, interval: U64, ticks: seq<Tick>)
    requires ClockHeadroom(now, ticks)
    ensures Run(New(bestHash, now, interval), ticks).miner.lastBlockHashes
            == LastN([bestHash] + Run(New(bestHash, now, interval), ticks).committed, MAX_RETAINED)
  {
    RunWindowIsLatestHistory(New(bestHash, now, interval), ticks, [bestHash]);
  }

  /** A run of forkchoice ticks alone changes nothing. */
  lemma {:induction false} AnnouncementsChangeNothing(m: Miner, ticks: seq<Tick>)
    requires Inv(m) && ClockHeadroom(m.lastTimestamp, ticks)
    requires forall i :: 0 <= i < |ticks| ==> ticks[i].ForkchoiceTick?
    ensures Run(m, ticks) == Trace(m, [], [])
    decreases |ticks|
  {
    if |ticks| > 0 {
      HeadroomAfterTick(m, ticks);
      AnnouncementsChangeNothing(m, ticks[1..]);
    }
  }

  /** Tick `t` is a block tick whose every engine step succeeded and whose built block has hash `h`. */
  predicate Accepted(t: Tick, h: B256) {
    t.BlockTick? && AllStepsSucceed(t.replies) && t.replies.resolve.blockHash == h
  }

  /**
   * Only blocks the engine accepted enter the window: every hash a run
   * commits is the built block of a tick whose forkchoice update, payload
   * build and new-payload call all succeeded.
   */
  lemma {:induction false} CommittedWereAccepted(m: Miner, ticks: seq<Tick>)
    requires Inv(m) && ClockHeadroom(m.lastTimestamp, ticks)
    ensures forall h :: h in Run(m, ticks).committed ==> exists j :: 0 <= j < |ticks| && Accepted(ticks[j], h)
    decreases |ticks|
  {
    if |ticks| > 0 {
      var next := OnTick(m, ticks[0]).miner;
      RunUnfold(m, ticks);
      CommittedWereAccepted(next, ticks[1..]);
      var rest := Run(next, ticks[1..]).committed;
      AcceptedInTail(ticks, rest);
      if Committed(ticks[0], OnTick(m, ticks[0])) {
        AcceptedCons(ticks, ticks[0].replies.resolve.blockHash, rest);
      }
    }
  }

  /** An accepted head followed by accepted hashes is a sequence of accepted hashes. */
  lemma AcceptedCons(ticks: seq<Tick>, h: B256, hs: seq<B256>)
    requires 0 < |ticks| && Accepted(ticks[0], h)
    requires forall x :: x in hs ==> exists j :: 0 <= j < |ticks| && Accepted(ticks[j], x)
    ensures forall x :: x in [h] + hs ==> exists j :: 0 <= j < |ticks| && Accepted(ticks[j], x)
  {
  }

  /** A hash accepted somewhere in the tail of the ticks is accepted somewhere in the ticks. */
  lemma AcceptedInTail(ticks: seq<Tick>, hs: seq<B256>)
    requires 0 < |ticks|
    requires forall h :: h in hs ==> exists j :: 0 <= j < |ticks| - 1 && Accepted(ticks[1..][j], h)
    ensures forall h :: h in hs ==> exists j :: 0 <= j < |ticks| && Accepted(ticks[j], h)
  {
    forall h | h in hs
      ensures exists j :: 0 <= j < |ticks| && Accepted(ticks[j], h)
    {
      var j :| 0 <= j < |ticks| - 1 && Accepted(ticks[1..][j], h);
      assert ticks[1..][j] == ticks[j + 1];
    }
  }

  /** Each tick built the hash at its own position in `hs`. */
  predicate BuiltInOrder(ticks: seq<Tick>, hs: seq<B256>) {
    && |hs| == |ticks|
    && forall i :: 0 <= i < |ticks| ==> ticks[i].BlockTick? && ticks[i].replies.resolve == Built(hs[i])
  }

  /**
   * When every tick is a block tick whose steps all succeed, each tick
   * commits its built block, in tick order.
   */
  lemma {:induction false} SuccessfulTicksAllCommit(m: Miner, ticks: seq<Tick>)
    requires Inv(m) && ClockHeadroom(m.lastTimestamp, ticks)
    requires forall i :: 0 <= i < |ticks| ==> ticks[i].BlockTick? && AllStepsSucceed(ticks[i].replies)
    ensures BuiltInOrder(ticks, Run(m, ticks).committed)
    decreases |ticks|
  {
    if |ticks| > 0 {
      var s := OnTick(m, ticks[0]);
      RunUnfold(m, ticks);
      assert Committed(ticks[0], s);
      SuccessfulTicksAllCommit(s.miner, ticks[1..]);
      BuiltInOrderCons(ticks, ticks[0].replies.resolve.blockHash, Run(s.miner, ticks[1..]).committed);
    }
  }

  /** The built hashes of the first tick and of the remaining ticks, put together. */
  lemma BuiltInOrderCons(ticks: seq<Tick>, h: B256, rest: seq<B256>)
    requires 0 < |ticks| && ticks[0].BlockTick? && ticks[0].replies.resolve == Built(h)
    requires BuiltInOrder(ticks[1..], rest)
    ensures BuiltInOrder(ticks, [h] + rest)
  {
    forall i | 0 < i < |ticks|
      ensures ticks[i].BlockTick? && ticks[i].replies.resolve == Built(([h] + rest)[i])
    {
      assert ticks[1..][i - 1] == ticks[i];
    }
  }

  /**
   * Starting from one known block, fewer than MAX_RETAINED successful block
   * ticks leave the window holding that block followed by every built block,
   * in production order; nothing has been evicted yet.
   */
  lemma SuccessfulRunAfterStartup(h0: B256, now: U64, interval: U64, ticks: seq<Tick>, built: seq<B256>)
    requires |ticks| < MAX_RETAINED && ClockHeadroom(now, ticks)
    requires forall i :: 0 <= i < |ticks| ==> ticks[i].BlockTick? && AllStepsSucceed(ticks[i].replies)
    requires BuiltInOrder(ticks, built)
    ensures Run(New(h0, now, interval), ticks).miner.lastBlockHashes == [h0] + built
  {
    var m := New(h0, now, interval);
    SuccessfulTicksAllCommit(m, ticks);
    WindowAfterStartup(h0, now, interval, ticks);
    var committed := Run(m, ticks).committed;
    assert committed == built;
  }

  /**
   * The hashes of the built blocks of the fully successful block ticks, in
   * tick order: an account of a run written from the ticks alone.
   */
  function AcceptedHashes(ticks: seq<Tick>): seq<B256> {
    if |ticks| == 0 then []
    else
      var head := if ticks[0].BlockTick? && AllStepsSucceed(ticks[0].replies)
                  then [ticks[0].replies.resolve.blockHash] else [];
      head + AcceptedHashes(ticks[1..])
  }

  /**
   * A run commits exactly the blocks of its fully successful block ticks,
   * each once and in tick order; failed ticks and forkchoice ticks commit
   * nothing, whatever comes before or after them.
   */
  lemma {:induction false} CommittedIsAccepted(m: Miner, ticks: seq<Tick>)
    requires Inv(m) && ClockHeadroom(m.lastTimestamp, ticks)
    ensures Run(m, ticks).committed == AcceptedHashes(ticks)
    decreases |ticks|
  {
    if |ticks| > 0 {
      RunUnfold(m, ticks);
      CommittedIsAccepted(OnTick(m, ticks[0]).miner, ticks[1..]);
    }
  }

  /**
   * From construction, the window only ever names the start-up best block or
   * a block whose forkchoice update, build and `new_payload` all succeeded.
   */
  lemma WindowOnlyNamesAcceptedBlocks(bestHash: B256, now: U64, interval: U64, ticks: seq<Tick>)
    requires ClockHeadroom(now, ticks)
    ensures forall h :: h in Run(New(bestHash, now, interval), ticks).miner.lastBlockHashes ==>
      h == bestHash || exists j :: 0 <= j < |ticks| && Accepted(ticks[j], h)
  {
    var m := New(bestHash, now, interval);
    WindowAfterStartup(bestHash, now, interval, ticks);
    CommittedWereAccepted(m, ticks);
    RetainedFromHistory(Run(m, ticks).miner.lastBlockHashes, bestHash, Run(m, ticks).committed, ticks);
  }

  /** A window drawn from the best block and accepted hashes holds nothing else. */
  lemma RetainedFromHistory(w: Window, bestHash: B256, committed: seq<B256>, ticks: seq<Tick>)
    requires w == LastN([bestHash] + committed, MAX_RETAINED)
    requires forall h :: h in committed ==> exists j :: 0 <= j < |ticks| && Accepted(ticks[j], h)
    ensures forall h :: h in w ==> h == bestHash || exists j :: 0 <= j < |ticks| && Accepted(ticks[j], h)
  {
    forall h | h in w
      ensures h in [bestHash] + committed
    {
      LastNOnlyFromHistory([bestHash] + committed, MAX_RETAINED, h);
    }
  }

  /**
   * The timestamps of the fully successful block ticks, written from the
   * ticks alone: each is one second after the previous block, or the tick's
   * wall-clock reading when that is later.
   */
  function ClockTrace(last: nat, ticks: seq<Tick>): seq<nat>
    decreases |ticks|
  {
    if |ticks| == 0 then []
    else if ticks[0].BlockTick? && AllStepsSucceed(ticks[0].replies) then
      var ts := if last + 1 >= ticks[0].now then last + 1 else ticks[0].now;
      [ts] + ClockTrace(ts, ticks[1..])
    else ClockTrace(last, ticks[1..])
  }

  /**
   * A run assigns exactly the timestamps the ticks determine, in tick order.
   */
  lemma {:induction false} RunTimestampsFromTicks(m: Miner, ticks: seq<Tick>)
    requires Inv(m) && ClockHeadroom(m.lastTimestamp, ticks)
    ensures Run(m, ticks).timestamps == ClockTrace(m.lastTimestamp, ticks)
    decreases |ticks|
  {
    if |ticks| > 0 {
      var next := OnTick(m, ticks[0]).miner;
      RunUnfoldClock(m, ticks);
      RunTimestampsFromTicks(next, ticks[1..]);
      ClockTraceStep(m, ticks[0], ticks[1..]);
    }
  }

  /** One step of the run loop, for the timestamps: a committed tick contributes the clock it leaves behind. */
  lemma RunUnfoldClock(m: Miner, ticks: seq<Tick>)
    requires Inv(m) && 0 < |ticks| && ClockHeadroom(m.lastTimestamp, ticks)
    ensures ClockHeadroom(OnTick(m, ticks[0]).miner.lastTimestamp, ticks[1..])
    ensures Committed(ticks[0], OnTick(m, ticks[0])) ==>
      Run(m, ticks).timestamps == [OnTick(m, ticks[0]).miner.lastTimestamp] + Run(OnTick(m, ticks[0]).miner, ticks[1..]).timestamps
    ensures !Committed(ticks[0], OnTick(m, ticks[0])) ==> Run(m, ticks) == Run(m, ticks[1..])
  {
    HeadroomAfterTick(m, ticks);
  }

  /** The tick's own entry of ClockTrace is the clock OnTick leaves behind. */
  lemma ClockTraceStep(m: Miner, t: Tick, rest: seq<Tick>)
    requires Inv(m) && (t.BlockTick? ==> m.lastTimestamp < U64_MAX)
    ensures Committed(t, OnTick(m, t)) ==>
      ClockTrace(m.lastTimestamp, [t] + rest) == [OnTick(m, t).miner.lastTimestamp] + ClockTrace(OnTick(m, t).miner.lastTimestamp, rest)
    ensures !Committed(t, OnTick(m, t)) ==> ClockTrace(m.lastTimestamp, [t] + rest) == ClockTrace(m.lastTimestamp, rest)
  {
    assert ([t] + rest)[1..] == rest;
  }

  /** After a run the clock reads the last timestamp the ticks determine, or where it started when nothing committed. */
  lemma RunClockFromTicks(m: Miner, ticks: seq<Tick>)
    requires Inv(m) && ClockHeadroom(m.lastTimestamp, ticks)
    ensures var c := ClockTrace(m.lastTimestamp, ticks);
      Run(m, ticks).miner.lastTimestamp == if c == [] then m.lastTimestamp else c[|c| - 1]
  {
    RunTimestampsFromTicks(m, ticks);
  }
}
