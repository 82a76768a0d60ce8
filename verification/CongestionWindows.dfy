/** What an evaluation judges: the windows of the controller are the writes and inputs of the
    last two seconds of the run, whenever they were pruned; and the steps of the bitrate. */
module CongestionWindows {
  import opened Prelude
  import opened Congestion
  import opened CongestionRuns

  // ---- the calls of a run ----

  function TimeOf(op: Op): Option<real>
  {
    match op
    case InputArrives(_, now) => Some(now)
    case WriteStarts => None
    case WriteEnds(now, _, _) => Some(now)
  }

  /** The time is not before any call. */
  ghost predicate After(ops: seq<Op>, now: real)
  {
    forall i :: 0 <= i < |ops| && TimeOf(ops[i]).Some? ==> TimeOf(ops[i]).value <= now
  }

  /** How many writes wait: started and not ended. */
  function Waiting(ops: seq<Op>): nat
  {
    if ops == [] then 0 else
    var before := Waiting(Init(ops));
    match Last(ops)
    case InputArrives(_, _) => before
    case WriteStarts => before + 1
    case WriteEnds(_, _, _) => if before == 0 then 0 else before - 1
  }

  /** One, two or eight frames in the encoder or in writes stop the next one. */
  predicate Stops(mode: Mode, n: nat)
  {
    match mode
    case ULL => n >= 1
    case Balanced => n >= 2
    case Quality => n >= 8
  }

  /** The writes that ended, in order. */
  function Writes(ops: seq<Op>): seq<WindowSample>
  {
    if ops == [] then [] else
    Writes(Init(ops)) +
    match Last(ops)
    case WriteEnds(now, q, b) => [WindowSample(now, q, b)]
    case _ => []
  }

  /** The inputs that arrived, and which of them were limited. */
  function Inputs(mode: Mode, ops: seq<Op>): seq<InputSample>
  {
    if ops == [] then [] else
    Inputs(mode, Init(ops)) +
    match Last(ops)
    case InputArrives(size, now) => [InputSample(now, Stops(mode, size) || Stops(mode, Waiting(Init(ops))))]
    case _ => []
  }

  function CountLimited(inputs: seq<InputSample>): nat
  {
    if inputs == [] then 0 else CountLimited(Init(inputs)) + if Last(inputs).limited then 1 else 0
  }

  // ---- the last two seconds ----

  function WritesSince(start: real, writes: seq<WindowSample>): seq<WindowSample>
  {
    Filter((w: WindowSample) => w.atMs >= start, writes)
  }

  function InputsSince(start: real, inputs: seq<InputSample>): seq<InputSample>
  {
    Filter((i: InputSample) => i.atMs >= start, inputs)
  }

  /** Whatever has been pruned is older than two seconds, at the present and any later time. */
  ghost predicate Windowed(s: State, mode: Mode, ops: seq<Op>)
  {
    && s.mode == mode && s.pendingWrites == Waiting(ops) && s.dropped == CountLimited(Inputs(mode, ops))
    && (forall now :: After(ops, now) ==>
                        WritesSince(now - 2000.0, s.samples) == WritesSince(now - 2000.0, Writes(ops)))
    && (forall now :: After(ops, now) ==>
                        InputsSince(now - 2000.0, s.inputs) == InputsSince(now - 2000.0, Inputs(mode, ops)))
  }

  lemma {:induction false} FilterFinal<T>(p: T -> bool, q: T -> bool, s: seq<T>)
    requires forall x :: x in s && p(x) ==> q(x)
    ensures Filter(p, Filter(q, s)) == Filter(p, s)
  {
    if s == [] {
    } else {
      FilterFinal(p, q, s[1..]);
      FilterAppend(p, if q(s[0]) then [s[0]] else [], Filter(q, s[1..]));
      FilterAppend(p, [s[0]], s[1..]);
      assert [s[0]] + s[1..] == s;
      OneFiltered(p, s[0]);
    }
  }

  lemma OneFiltered<T>(p: T -> bool, x: T)
    ensures Filter(p, [x]) == if p(x) then [x] else []
    ensures Filter(p, []) == []
  {
    assert [x][1..] == [];
  }

  lemma PrunedWrites(samples: seq<WindowSample>, at: real, now: real)
    requires at <= now
    ensures WritesSince(now - 2000.0, Filter(Recent(at), samples)) == WritesSince(now - 2000.0, samples)
  {
    FilterFinal((w: WindowSample) => w.atMs >= now - 2000.0, Recent(at), samples);
  }

  lemma PrunedInputs(inputs: seq<InputSample>, at: real, now: real)
    requires at <= now
    ensures InputsSince(now - 2000.0, Filter(RecentInput(at), inputs)) == InputsSince(now - 2000.0, inputs)
  {
    FilterFinal((i: InputSample) => i.atMs >= now - 2000.0, RecentInput(at), inputs);
  }

  lemma WritesAppend(start: real, a: seq<WindowSample>, b: seq<WindowSample>)
    ensures WritesSince(start, a + b) == WritesSince(start, a) + WritesSince(start, b)
  {
    FilterAppend((w: WindowSample) => w.atMs >= start, a, b);
  }

  lemma InputsAppend(start: real, a: seq<InputSample>, b: seq<InputSample>)
    ensures InputsSince(start, a + b) == InputsSince(start, a) + InputsSince(start, b)
  {
    FilterAppend((i: InputSample) => i.atMs >= start, a, b);
  }

  lemma EarlierAfter(ops: seq<Op>, now: real)
    requires ops != [] && After(ops, now)
    ensures After(Init(ops), now)
    ensures TimeOf(Last(ops)).Some? ==> TimeOf(Last(ops)).value <= now
  {
  }

  lemma EvaluatedWindows(s: State, now: real)
    ensures var e := Evaluated(s, now);
            && e.mode == s.mode && e.samples == s.samples && e.pendingWrites == s.pendingWrites
            && e.dropped == s.dropped
            && e.inputs == if Due(s, now) then Filter(RecentInput(now), s.inputs) else s.inputs
  {
    hide Congested;
  }

  lemma CountLimitedSnoc(inputs: seq<InputSample>, i: InputSample)
    ensures CountLimited(inputs + [i]) == CountLimited(inputs) + if i.limited then 1 else 0
  {
    Snoc2(inputs, i);
  }

  lemma Snoc2<T>(s: seq<T>, x: T)
    ensures Init(s + [x]) == s && Last(s + [x]) == x
  {
  }

  lemma StepWindowed(s: State, mode: Mode, ops: seq<Op>)
    requires ops != [] && Windowed(s, mode, Init(ops))
    ensures Windowed(Apply(s, Last(ops)), mode, ops)
  {
    hide Evaluated, Filter, WritesSince, InputsSince, After, CountLimited;
    var op, before := Last(ops), Init(ops);
    var s' := Apply(s, op);
    assert Writes(before) + [] == Writes(before) && Inputs(mode, before) + [] == Inputs(mode, before);
    match op {
      case InputArrives(size, at) =>
        var i := InputSample(at, Drops(s, size));
        assert Drops(s, size) <==> Stops(mode, size) || Stops(mode, Waiting(before));
        CountLimitedSnoc(Inputs(mode, before), i);
        forall now | After(ops, now)
          ensures InputsSince(now - 2000.0, s'.inputs) == InputsSince(now - 2000.0, Inputs(mode, ops))
          ensures WritesSince(now - 2000.0, s'.samples) == WritesSince(now - 2000.0, Writes(ops))
        {
          EarlierAfter(ops, now);
          PrunedInputs(s.inputs + [i], at, now);
          InputsAppend(now - 2000.0, s.inputs, [i]);
          InputsAppend(now - 2000.0, Inputs(mode, before), [i]);
        }
      case WriteStarts =>
        forall now | After(ops, now) ensures After(before, now) { EarlierAfter(ops, now); }
      case WriteEnds(at, q, b) =>
        var w := WindowSample(at, q, b);
        EvaluatedWindows(WriteObserved(s, at, q, b), at);
        forall now | After(ops, now)
          ensures InputsSince(now - 2000.0, s'.inputs) == InputsSince(now - 2000.0, Inputs(mode, ops))
          ensures WritesSince(now - 2000.0, s'.samples) == WritesSince(now - 2000.0, Writes(ops))
        {
          EarlierAfter(ops, now);
          PrunedInputs(s.inputs, at, now);
          PrunedWrites(s.samples + [w], at, now);
          WritesAppend(now - 2000.0, s.samples, [w]);
          WritesAppend(now - 2000.0, Writes(before), [w]);
        }
    }
  }

  /** Over every run: which writes wait, how many inputs were dropped, and, at any time from the
      present on, what the windows hold of the last two seconds. */
  lemma {:induction false} WindowsFollowCalls(mode: Mode, ceiling: int, frameIntervalMs: real, ops: seq<Op>)
    ensures Windowed(Run(Fresh(mode, ceiling, frameIntervalMs), ops), mode, ops)
  {
    hide Apply;
    if ops == [] {
    } else {
      WindowsFollowCalls(mode, ceiling, frameIntervalMs, Init(ops));
      StepWindowed(Run(Fresh(mode, ceiling, frameIntervalMs), Init(ops)), mode, ops);
    }
  }

  // ---- the verdict ----

  function CountQueued(writes: seq<WindowSample>, limit: real): nat
  {
    if writes == [] then 0 else (if writes[0].senderQueueMs > limit then 1 else 0) + CountQueued(writes[1..], limit)
  }

  function CountBlocked(writes: seq<WindowSample>, limit: real): nat
  {
    if writes == [] then 0 else (if writes[0].writeBlockedMs > limit then 1 else 0) + CountBlocked(writes[1..], limit)
  }

  /** Of the writes and inputs of the last two seconds, one write in twenty waited or was blocked
      for more than a frame interval, or one input in ten was limited. */
  predicate Slow(writes: seq<WindowSample>, inputs: seq<InputSample>, frameIntervalMs: real)
  {
    || 20 * CountQueued(writes, frameIntervalMs) >= |writes|
    || 20 * CountBlocked(writes, frameIntervalMs) >= |writes|
    || (inputs != [] && 10 * CountLimited(inputs) >= |inputs|)
  }

  lemma {:induction false} CountsAgree(writes: seq<WindowSample>, x: real)
    ensures CountAbove(QueueTimes(writes), x) == CountQueued(writes, x)
    ensures CountAbove(BlockedTimes(writes), x) == CountBlocked(writes, x)
  {
    if writes == [] {
    } else {
      CountsAgree(writes[1..], x);
      assert QueueTimes(writes)[1..] == QueueTimes(writes[1..]);
      assert BlockedTimes(writes)[1..] == BlockedTimes(writes[1..]);
    }
  }

  lemma {:induction false} LimitedAgree(inputs: seq<InputSample>)
    ensures |Filter((i: InputSample) => i.limited, inputs)| == CountLimited(inputs)
  {
    if inputs == [] {
    } else {
      var p := (i: InputSample) => i.limited;
      LimitedAgree(Init(inputs));
      assert inputs == Init(inputs) + [Last(inputs)];
      FilterAppend(p, Init(inputs), [Last(inputs)]);
      OneFiltered(p, Last(inputs));
    }
  }

  lemma SlowExactly(s: State)
    requires s.frameIntervalMs >= 0.0 && s.samples != []
    ensures Congested(s) <==> Slow(s.samples, s.inputs, s.frameIntervalMs)
  {
    CongestedIsCounting(s);
    CountsAgree(s.samples, s.frameIntervalMs);
    LimitedAgree(s.inputs);
    hide Congested, CountAbove, Filter, CountQueued, CountBlocked, CountLimited;
  }

  /** The windows of an evaluation at the end of a write, and its verdict: both are functions of
      the calls of the last two seconds. */
  lemma VerdictExactly(mode: Mode, ceiling: int, frameIntervalMs: real, ops: seq<Op>)
    requires frameIntervalMs >= 0.0 && ops != [] && Last(ops).WriteEnds? && After(ops, Last(ops).now)
    ensures var s := Run(Fresh(mode, ceiling, frameIntervalMs), Init(ops));
            var start := Last(ops).now - 2000.0;
            var writes, inputs := WritesSince(start, Writes(ops)), InputsSince(start, Inputs(mode, ops));
            && writes != []
            && (Congested(Judged(s, Last(ops))) <==> Slow(writes, inputs, frameIntervalMs))
  {
    hide Congested, Filter, Slow, Judged, Windowed, WritesSince, InputsSince, Run, Inputs, Writes, Fresh;
    WindowsFollowCalls(mode, ceiling, frameIntervalMs, Init(ops));
    FrameIntervalKept(mode, ceiling, frameIntervalMs, Init(ops));
    EarlierAfter(ops, Last(ops).now);
    OnlyAWrite(mode, ops);
    hide After;
    JudgedFrom(Run(Fresh(mode, ceiling, frameIntervalMs), Init(ops)), mode, Init(ops), Last(ops));
  }

  lemma JudgedFrom(s: State, mode: Mode, before: seq<Op>, op: Op)
    requires s.frameIntervalMs >= 0.0 && op.WriteEnds? && Windowed(s, mode, before) && After(before, op.now)
    ensures var start := op.now - 2000.0;
            var w := WindowSample(op.now, op.senderQueueMs, op.writeBlockedMs);
            var writes, inputs := WritesSince(start, Writes(before) + [w]), InputsSince(start, Inputs(mode, before));
            writes != [] && (Congested(Judged(s, op)) <==> Slow(writes, inputs, s.frameIntervalMs))
  {
    hide Congested, Slow, Judged, Windowed, WritesSince, InputsSince, After, Writes, Inputs, Filter;
    JudgedWindows(s, op, mode, before);
    SlowExactly(Judged(s, op));
  }

  lemma OnlyAWrite(mode: Mode, ops: seq<Op>)
    requires ops != [] && Last(ops).WriteEnds?
    ensures var op := Last(ops);
            Writes(ops) == Writes(Init(ops)) + [WindowSample(op.now, op.senderQueueMs, op.writeBlockedMs)]
            && Inputs(mode, ops) == Inputs(mode, Init(ops))
  {
    assert Inputs(mode, Init(ops)) + [] == Inputs(mode, Init(ops));
  }

  lemma JudgedWindows(s: State, op: Op, mode: Mode, before: seq<Op>)
    requires op.WriteEnds? && Windowed(s, mode, before) && After(before, op.now)
    ensures var j, start := Judged(s, op), op.now - 2000.0;
            && j.samples == WritesSince(start,
                                        Writes(before) + [WindowSample(op.now, op.senderQueueMs, op.writeBlockedMs)])
            && j.samples != []
            && j.inputs == InputsSince(start, Inputs(mode, before)) && j.frameIntervalMs == s.frameIntervalMs
  {
    var w, start := WindowSample(op.now, op.senderQueueMs, op.writeBlockedMs), op.now - 2000.0;
    SameFilter(Recent(op.now), (x: WindowSample) => x.atMs >= start, s.samples + [w]);
    SameFilter(RecentInput(op.now), (i: InputSample) => i.atMs >= start, s.inputs);
    WritesAppend(start, s.samples, [w]);
    WritesAppend(start, Writes(before), [w]);
    assert (s.samples + [w])[|s.samples|] == w;
    hide Filter, After;
  }

  lemma {:induction false} FrameIntervalKept(mode: Mode, ceiling: int, frameIntervalMs: real, ops: seq<Op>)
    ensures Run(Fresh(mode, ceiling, frameIntervalMs), ops).frameIntervalMs == frameIntervalMs
  {
    hide Congested;
    if ops == [] {
    } else {
      FrameIntervalKept(mode, ceiling, frameIntervalMs, Init(ops));
    }
  }

  /** A write that ends is followed by an evaluation exactly if the last one was two seconds ago
      or more. */
  lemma EvaluatedExactly(mode: Mode, ceiling: int, frameIntervalMs: real, ops: seq<Op>, op: Op)
    ensures var s0 := Fresh(mode, ceiling, frameIntervalMs);
            var log := Log(s0, ops);
            LogOf(Run(s0, ops), op) != []
            <==> op.WriteEnds? && (log == [] || op.now - Last(log).at >= 2000.0)
  {
    ControllerFollowsLog(mode, ceiling, frameIntervalMs, ops);
    hide Apply, Congested, Follows, Run, Log;
  }

  // ---- the steps of the bitrate ----

  /** A reduction takes a fifth off, but not below two fifths of the ceiling; an increase adds a
      tenth of the ceiling, but not above it; each rounded to the nearest. */
  lemma StepsExactly(ceiling: int, current: int, floor: int, lowered: int, step: int)
    requires Nearest(floor, 2 * ceiling, 5) && Nearest(lowered, 4 * current, 5) && Nearest(step, ceiling, 10)
    ensures Floor(ceiling) == floor && StepSize(ceiling) == step
    ensures Lowered(ceiling, current) == if lowered > floor then lowered else floor
    ensures Raised(ceiling, current) == if current + step < ceiling then current + step else ceiling
  {
    RoundDivides(4 * ceiling, 10);
    RoundDivides(8 * current, 10);
    RoundDivides(ceiling, 10);
  }
}
