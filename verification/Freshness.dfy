/** Bounded freshness: however input, encoder output and write completion interleave, few
    frames can be on their way. The encoder queue size is what the sender tests; beyond it the
    encoder may be working on a number of frames at once. */
module Freshness {
  import opened Prelude
  import opened Congestion

  /** `waiting` is the encoder's queue size, `encoding` counts the frames it has taken out of its
      queue and not yet output, at most `depth`, and `queued` the encoded frames whose write has
      not completed. */
  datatype Pipeline = Pipeline(depth: nat, control: State, waiting: nat, encoding: nat, queued: nat)

  function OnTheWay(p: Pipeline): nat { p.waiting + p.encoding + p.queued }

  datatype Move =
    | Input(now: real)
    | Taken                                                // by the encoder, out of its queue
    | Output
    | OversizeOutput                                       // stops the stream, nothing is queued
    | WriteDone(now: real, senderQueueMs: real, writeBlockedMs: real)
    | WriteSkipped                                         // after a stop, or when the write fails

  /** The encoder is done with a frame, perhaps straight out of its queue. */
  function Finish(p: Pipeline): Pipeline
    requires p.waiting + p.encoding > 0
  {
    if p.encoding > 0 then p.(encoding := p.encoding - 1) else p.(waiting := p.waiting - 1)
  }

  function Next(p: Pipeline, m: Move): Pipeline
  {
    match m
    case Input(now) =>
      p.(control := AfterInput(p.control, p.waiting, now),
         waiting := if Drops(p.control, p.waiting) then p.waiting else p.waiting + 1)
    case Taken =>
      if p.waiting == 0 || p.encoding >= p.depth then p
      else p.(waiting := p.waiting - 1, encoding := p.encoding + 1)
    case Output =>
      if p.waiting + p.encoding == 0 then p
      else Finish(p).(control := AfterWriteStarted(p.control), queued := p.queued + 1)
    case OversizeOutput =>
      if p.waiting + p.encoding == 0 then p else Finish(p)
    case WriteDone(now, q, b) =>
      if p.queued == 0 then p
      else p.(control := AfterWriteFinished(p.control, now, q, b), queued := p.queued - 1)
    case WriteSkipped =>
      if p.queued == 0 then p else p.(queued := p.queued - 1)
  }

  function Play(p: Pipeline, moves: seq<Move>): Pipeline
  {
    if moves == [] then p else Next(Play(p, moves[..|moves| - 1]), moves[|moves| - 1])
  }

  function Empty(depth: nat, mode: Mode, ceiling: int, frameIntervalMs: real): Pipeline
  {
    Pipeline(depth, Fresh(mode, ceiling, frameIntervalMs), 0, 0, 0)
  }

  ghost predicate Bounded(p: Pipeline, mode: Mode)
  {
    p.control.mode == mode && p.queued <= p.control.pendingWrites && p.encoding <= p.depth
    && p.waiting + p.encoding + p.control.pendingWrites <= 2 * Limit(mode) - 1 + p.depth
  }

  lemma EvaluatedKeeps(s: State, now: real)
    ensures Evaluated(s, now).mode == s.mode && Evaluated(s, now).pendingWrites == s.pendingWrites
  {
    hide Congested;
  }

  lemma NextBounded(p: Pipeline, m: Move, mode: Mode)
    requires Bounded(p, mode)
    ensures Bounded(Next(p, m), mode) && Next(p, m).depth == p.depth
  {
    hide Evaluated;
    if m.WriteDone? {
      EvaluatedKeeps(WriteObserved(p.control, m.now, m.senderQueueMs, m.writeBlockedMs), m.now);
    }
  }

  /** For mode limit L and an encoder that works on at most D frames at once, the frames in the
      encoder plus the writes not completed never exceed 2L - 1 + D; with ultra-low latency and
      an encoder that works straight out of its queue that is one. */
  lemma {:induction false} FewFramesInFlight(depth: nat, mode: Mode, ceiling: int, frameIntervalMs: real,
                                             moves: seq<Move>)
    ensures var p := Play(Empty(depth, mode, ceiling, frameIntervalMs), moves);
            Bounded(p, mode) && p.depth == depth && OnTheWay(p) <= 2 * Limit(mode) - 1 + depth
    ensures mode == ULL ==> OnTheWay(Play(Empty(depth, mode, ceiling, frameIntervalMs), moves)) <= 1 + depth
  {
    if moves == [] {
    } else {
      var before := moves[..|moves| - 1];
      FewFramesInFlight(depth, mode, ceiling, frameIntervalMs, before);
      NextBounded(Play(Empty(depth, mode, ceiling, frameIntervalMs), before), moves[|moves| - 1], mode);
    }
  }

  /** An access unit that comes out is on its way as before, one that is too long is not any more,
      and a write that ends takes its own away; without one there is nothing to happen. */
  lemma MovesExactly(p: Pipeline, now: real, senderQueueMs: real, writeBlockedMs: real)
    ensures var encoder := p.waiting + p.encoding;
            var out, lost, done := Next(p, Output), Next(p, OversizeOutput),
                                   Next(p, WriteDone(now, senderQueueMs, writeBlockedMs));
            && (encoder == 0 ==> out == p && lost == p)
            && (encoder > 0 ==>
                  && OnTheWay(out) == OnTheWay(p) && out.queued == p.queued + 1
                  && OnTheWay(lost) == OnTheWay(p) - 1 && lost.queued == p.queued)
            && OnTheWay(done) == (if p.queued == 0 then OnTheWay(p) else OnTheWay(p) - 1)
            && OnTheWay(Next(p, WriteSkipped)) == OnTheWay(done) && OnTheWay(Next(p, Taken)) == OnTheWay(p)
  {
    hide AfterWriteFinished;
  }

  // ---- the bound is tight ----

  function Repeat<T>(x: T, n: nat): seq<T> { if n == 0 then [] else Repeat(x, n - 1) + [x] }

  lemma {:induction false} PlayAppend(p: Pipeline, a: seq<Move>, b: seq<Move>)
    ensures Play(p, a + b) == Play(Play(p, a), b)
  {
    if b == [] {
      assert a + b == a;
    } else {
      assert (a + b)[..|a + b| - 1] == a + b[..|b| - 1];
      PlayAppend(p, a, b[..|b| - 1]);
    }
  }

  /** The same but for the counts given. */
  predicate Counts(r: Pipeline, p: Pipeline, waiting: int, encoding: int, queued: int)
  {
    && r.waiting == waiting && r.encoding == encoding && r.queued == queued && r.depth == p.depth
    && r.control.mode == p.control.mode && r.control.pendingWrites == p.control.pendingWrites + queued - p.queued
  }

  lemma InputAccepted(p: Pipeline, now: real)
    requires p.waiting < Limit(p.control.mode) && p.control.pendingWrites < Limit(p.control.mode)
    ensures Counts(Next(p, Input(now)), p, p.waiting + 1, p.encoding, p.queued)
  {
  }

  lemma OutputQueued(p: Pipeline)
    requires p.waiting > 0 && p.encoding == 0
    ensures Counts(Next(p, Output), p, p.waiting - 1, 0, p.queued + 1)
  {
  }

  lemma PlayNone(p: Pipeline, m: Move)
    ensures Play(p, Repeat(m, 0)) == p
  {
  }

  lemma {:induction false} Inputs(p: Pipeline, n: nat)
    requires p.waiting + n <= Limit(p.control.mode) && p.control.pendingWrites < Limit(p.control.mode)
    ensures Counts(Play(p, Repeat(Input(0.0), n)), p, p.waiting + n, p.encoding, p.queued)
  {
    hide Next, Play, Repeat;
    if n == 0 {
      PlayNone(p, Input(0.0));
    } else {
      Inputs(p, n - 1);
      PlayOneMore(p, Input(0.0), n - 1);
      InputAccepted(Play(p, Repeat(Input(0.0), n - 1)), 0.0);
    }
  }

  lemma {:induction false} Outputs(p: Pipeline, n: nat)
    requires n <= p.waiting && p.encoding == 0
    ensures Counts(Play(p, Repeat(Output, n)), p, p.waiting - n, 0, p.queued + n)
  {
    hide Next, Play, Repeat;
    if n == 0 {
      PlayNone(p, Output);
    } else {
      Outputs(p, n - 1);
      PlayOneMore(p, Output, n - 1);
      OutputQueued(Play(p, Repeat(Output, n - 1)));
    }
  }

  lemma PlayTwo(p: Pipeline, m: Move, n: Move)
    ensures Play(p, [m, n]) == Next(Next(p, m), n)
  {
    hide Next;
    assert [m, n][..1] == [m] && [m][..0] == [];
    assert Play(p, [m]) == Next(Play(p, []), m);
  }

  lemma TakenAtOnce(p: Pipeline, now: real)
    requires p.waiting == 0 && p.encoding < p.depth && p.control.pendingWrites < Limit(p.control.mode)
    ensures Counts(Next(Next(p, Input(now)), Taken), p, 0, p.encoding + 1, p.queued)
  {
    InputAccepted(p, now);
  }

  /** Frames that come one by one and are taken at once. */
  lemma {:induction false} Occupies(p: Pipeline, n: nat) returns (moves: seq<Move>)
    requires p.waiting == 0 && p.encoding + n <= p.depth && p.control.pendingWrites < Limit(p.control.mode)
    ensures Counts(Play(p, moves), p, 0, p.encoding + n, p.queued)
  {
    if n == 0 {
      moves := [];
    } else {
      var before := Occupies(p, n - 1);
      hide Next, Play;
      var q := Play(p, before);
      TakenAtOnce(q, 0.0);
      PlayTwo(q, Input(0.0), Taken);
      PlayAppend(p, before, [Input(0.0), Taken]);
      moves := before + [Input(0.0), Taken];
    }
  }

  lemma PlayOneMore(p: Pipeline, m: Move, n: nat)
    ensures Play(p, Repeat(m, n + 1)) == Next(Play(p, Repeat(m, n)), m)
  {
    hide Next;
    var more := Repeat(m, n + 1);
    assert more == Repeat(m, n) + [m];
    assert more[..|more| - 1] == Repeat(m, n);
  }

  /** Some run does reach the bound. */
  lemma BoundIsReached(depth: nat, mode: Mode, ceiling: int, frameIntervalMs: real) returns (moves: seq<Move>)
    ensures OnTheWay(Play(Empty(depth, mode, ceiling, frameIntervalMs), moves)) == 2 * Limit(mode) - 1 + depth
  {
    hide Next, Play, Repeat;
    var limit := Limit(mode);
    var p := Empty(depth, mode, ceiling, frameIntervalMs);
    var filling, draining, refilling :=
      Repeat(Input(0.0), limit - 1), Repeat(Output, limit - 1), Repeat(Input(0.0), limit);
    Inputs(p, limit - 1);
    Outputs(Play(p, filling), limit - 1);
    PlayAppend(p, filling, draining);
    var occupying := Occupies(Play(p, filling + draining), depth);
    PlayAppend(p, filling + draining, occupying);
    Inputs(Play(p, filling + draining + occupying), limit);
    PlayAppend(p, filling + draining + occupying, refilling);
    moves := filling + draining + occupying + refilling;
  }
}
