/** Latency measurement over whole histories: the tracker refines a bounded queue, the clock
    estimate is within its uncertainty, and phases keep adding up. */
module LatencyRuns {
  import opened Prelude
  import opened Latency

  // ---- the timing tracker ----

  function Tally(entries: seq<Entry>): nat
  {
    if entries == [] then 0 else |entries[0].captures| + Tally(entries[1..])
  }

  ghost predicate DistinctKeys(entries: seq<Entry>)
  {
    forall i, j :: 0 <= i < j < |entries| ==> entries[i].timestamp != entries[j].timestamp
  }

  ghost predicate NoneEmpty(entries: seq<Entry>)
  {
    forall i :: 0 <= i < |entries| ==> entries[i].captures != []
  }

  ghost predicate WellKept(t: Tracker)
  {
    t.tracked == Tally(t.entries) && NoneEmpty(t.entries) && DistinctKeys(t.entries)
  }

  lemma {:induction false} TallyAppend(a: seq<Entry>, b: seq<Entry>)
    ensures Tally(a + b) == Tally(a) + Tally(b)
  {
    if a == [] {
      assert a + b == b;
    } else {
      assert (a + b)[1..] == a[1..] + b;
      TallyAppend(a[1..], b);
    }
  }

  lemma TallyAt(entries: seq<Entry>, i: nat, e: Entry)
    requires i < |entries|
    ensures Tally(entries) == Tally(Without(entries, i)) + |entries[i].captures|
    ensures Tally(entries[i := e]) == Tally(Without(entries, i)) + |e.captures|
  {
    assert entries == entries[..i] + ([entries[i]] + entries[i + 1..]);
    assert entries[i := e] == entries[..i] + ([e] + entries[i + 1..]);
    TallyAppend(entries[..i], entries[i + 1..]);
    TallyAppend(entries[..i], [entries[i]] + entries[i + 1..]);
    TallyAppend(entries[..i], [e] + entries[i + 1..]);
    assert ([entries[i]] + entries[i + 1..])[1..] == entries[i + 1..];
    assert ([e] + entries[i + 1..])[1..] == entries[i + 1..];
  }

  lemma WithoutKeeps(entries: seq<Entry>, i: nat)
    requires i < |entries| && NoneEmpty(entries) && DistinctKeys(entries)
    ensures NoneEmpty(Without(entries, i)) && DistinctKeys(Without(entries, i))
  {
    var w := Without(entries, i);
    forall j | 0 <= j < |w| ensures w[j] == entries[if j < i then j else j + 1] {
    }
  }

  lemma ShiftKeeps(entries: seq<Entry>, i: nat)
    requires i < |entries| && NoneEmpty(entries) && DistinctKeys(entries)
    ensures Tally(ShiftAt(entries, i)) == Tally(entries) - 1
    ensures NoneEmpty(ShiftAt(entries, i)) && DistinctKeys(ShiftAt(entries, i))
  {
    hide Tally, Without;
    TallyAt(entries, i, entries[i].(captures := entries[i].captures[1..]));
    WithoutKeeps(entries, i);
  }

  lemma PushKeeps(entries: seq<Entry>, timestamp: int, capture: real)
    requires NoneEmpty(entries) && DistinctKeys(entries)
    ensures Tally(Pushed(entries, timestamp, capture)) == Tally(entries) + 1
    ensures NoneEmpty(Pushed(entries, timestamp, capture)) && DistinctKeys(Pushed(entries, timestamp, capture))
  {
    var i := Position(Keyed(timestamp), entries);
    if i < |entries| {
      TallyAt(entries, i, entries[i].(captures := entries[i].captures + [capture]));
    } else {
      TallyAppend(entries, [Entry(timestamp, [capture])]);
      assert Tally([Entry(timestamp, [capture])]) == 1 by {
        assert [Entry(timestamp, [capture])][1..] == [];
      }
      forall j | 0 <= j < |entries| ensures entries[j].timestamp != timestamp {
        assert !Keyed(timestamp)(entries[j]);
      }
    }
  }

  lemma {:induction false} EvictKeeps(t: Tracker)
    requires WellKept(t)
    ensures WellKept(Evicted(t)) && Evicted(t).tracked <= MAX_TRACKED_FRAMES
    decreases t.tracked
  {
    if t.tracked > MAX_TRACKED_FRAMES {
      assert t.entries != [];
      ShiftKeeps(t.entries, 0);
      EvictKeeps(Tracker(ShiftAt(t.entries, 0), t.tracked - 1));
    }
  }

  lemma MarkKeeps(t: Tracker, timestamp: int, capture: real)
    requires WellKept(t)
    ensures var r := Marked(t, timestamp, capture); WellKept(r) && r.tracked <= MAX_TRACKED_FRAMES
  {
    PushKeeps(t.entries, timestamp, capture);
    EvictKeeps(Tracker(Pushed(t.entries, timestamp, capture), t.tracked + 1));
  }

  lemma ResolveKeeps(t: Tracker, timestamp: int, encodedAt: real)
    requires WellKept(t)
    ensures var r := Resolved(t, timestamp, encodedAt); WellKept(r.0) && r.0.tracked <= t.tracked
  {
    var i := Position(Keyed(timestamp), t.entries);
    if i < |t.entries| { ShiftKeeps(t.entries, i); }
  }

  // The abstract queue: marks in the order they were made.
  datatype Mark = Mark(timestamp: int, capture: real)

  datatype TrackerOp =
    | MarkOp(timestamp: int, capture: real)
    | ResolveOp(timestamp: int, encodedAt: real)

  function MarkFor(timestamp: int): Mark -> bool { (m: Mark) => m.timestamp == timestamp }

  /** A queue that drops its oldest mark past the limit. */
  function Queued(q: seq<Mark>, m: Mark): seq<Mark>
  {
    if |q| + 1 > 64 then (q + [m])[1..] else q + [m]
  }

  function QueueStep(q: seq<Mark>, op: TrackerOp): (seq<Mark>, Option<EncoderTiming>)
  {
    match op
    case MarkOp(ts, c) => (Queued(q, Mark(ts, c)), None)
    case ResolveOp(ts, at) =>
      var i := Position(MarkFor(ts), q);
      if i == |q| then (q, None)
      else (Without(q, i), Some(EncoderTiming(q[i].capture, MaxReal(0.0, at - q[i].capture))))
  }

  function TrackerStep(t: Tracker, op: TrackerOp): (Tracker, Option<EncoderTiming>)
  {
    match op
    case MarkOp(ts, c) => (Marked(t, ts, c), None)
    case ResolveOp(ts, at) => Resolved(t, ts, at)
  }

  function Lift(q: seq<Mark>): Tracker
  {
    Tracker(seq(|q|, i requires 0 <= i < |q| => Entry(q[i].timestamp, [q[i].capture])), |q|)
  }

  function QueueAfter(ops: seq<TrackerOp>): seq<Mark>
  {
    if ops == [] then [] else QueueStep(QueueAfter(ops[..|ops| - 1]), ops[|ops| - 1]).0
  }

  function TrackerAfter(ops: seq<TrackerOp>): Tracker
  {
    if ops == [] then Tracker([], 0) else TrackerStep(TrackerAfter(ops[..|ops| - 1]), ops[|ops| - 1]).0
  }

  predicate Unused(q: seq<Mark>, timestamp: int)
  {
    Position(MarkFor(timestamp), q) == |q|
  }

  /** No mark reuses a timestamp that is still live. */
  ghost predicate LiveDistinct(ops: seq<TrackerOp>)
  {
    ops == [] ||
    (&& LiveDistinct(ops[..|ops| - 1])
     && (ops[|ops| - 1].MarkOp? ==> Unused(QueueAfter(ops[..|ops| - 1]), ops[|ops| - 1].timestamp)))
  }

  lemma {:induction false} SamePosition(q: seq<Mark>, timestamp: int)
    ensures Position(Keyed(timestamp), Lift(q).entries) == Position(MarkFor(timestamp), q)
  {
    var i := Position(MarkFor(timestamp), q);
    var j := Position(Keyed(timestamp), Lift(q).entries);
    if i < |q| { assert Keyed(timestamp)(Lift(q).entries[i]); }
    if j < |q| { assert MarkFor(timestamp)(q[j]); }
  }

  lemma LiftShift(q: seq<Mark>, i: nat)
    requires i < |q|
    ensures Tracker(ShiftAt(Lift(q).entries, i), |q| - 1) == Lift(Without(q, i))
  {
    assert Lift(q).entries[i].captures[1..] == [];
    assert Without(Lift(q).entries, i) == Lift(Without(q, i)).entries;
  }

  lemma StepRefines(q: seq<Mark>, op: TrackerOp)
    requires |q| <= MAX_TRACKED_FRAMES && (op.MarkOp? ==> Unused(q, op.timestamp))
    ensures TrackerStep(Lift(q), op) == (Lift(QueueStep(q, op).0), QueueStep(q, op).1)
    ensures |QueueStep(q, op).0| <= MAX_TRACKED_FRAMES
  {
    match op
    case MarkOp(ts, c) =>
      SamePosition(q, ts);
      var longer := q + [Mark(ts, c)];
      assert Pushed(Lift(q).entries, ts, c) == Lift(longer).entries;
      if |longer| > MAX_TRACKED_FRAMES {
        LiftShift(longer, 0);
        assert Without(longer, 0) == longer[1..];
        assert Evicted(Lift(longer)) == Evicted(Lift(longer[1..]));
      }
    case ResolveOp(ts, at) =>
      SamePosition(q, ts);
      var i := Position(MarkFor(ts), q);
      if i < |q| { LiftShift(q, i); }
  }

  /** With distinct live timestamps the tracker is the bounded queue: after every run it
      holds exactly its marks, and resolving returns a capture exactly when the queue still
      has it. */
  lemma {:induction false} TrackerRefinesQueue(ops: seq<TrackerOp>, timestamp: int, encodedAt: real)
    requires LiveDistinct(ops)
    ensures TrackerAfter(ops) == Lift(QueueAfter(ops)) && |QueueAfter(ops)| <= 64
    ensures Resolved(TrackerAfter(ops), timestamp, encodedAt).1
            == QueueStep(QueueAfter(ops), ResolveOp(timestamp, encodedAt)).1
  {
    if ops == [] {
    } else {
      TrackerRefinesQueue(ops[..|ops| - 1], timestamp, encodedAt);
      StepRefines(QueueAfter(ops[..|ops| - 1]), ops[|ops| - 1]);
    }
    StepRefines(QueueAfter(ops), ResolveOp(timestamp, encodedAt));
  }

  /** Without any assumption the count is right, bounded, and no empty list is stored. */
  lemma {:induction false} TrackerWellKept(ops: seq<TrackerOp>)
    ensures WellKept(TrackerAfter(ops)) && TrackerAfter(ops).tracked <= 64
  {
    if ops == [] {
    } else {
      var before := TrackerAfter(ops[..|ops| - 1]);
      TrackerWellKept(ops[..|ops| - 1]);
      match ops[|ops| - 1] {
        case MarkOp(ts, c) => MarkKeeps(before, ts, c);
        case ResolveOp(ts, at) => ResolveKeeps(before, ts, at);
      }
    }
  }

  // ---- the clock ----

  /** `theta` is the true offset of the receiver's clock at each time of the sender's; it
      drifts no faster than the allowed rate. */
  ghost predicate Drifts(theta: real -> real)
  {
    forall a: real, b: real :: a <= b ==> Abs(theta(b) - theta(a)) <= (b - a) * CLOCK_DRIFT_MS_PER_MS
  }

  /** The exchange took non-negative time in each direction, under one offset. */
  ghost predicate Honest(x: Exchange, theta: real -> real)
  {
    x.s1 - x.t0 - theta(x.t3) >= 0.0 && x.t3 - x.s2 + theta(x.t3) >= 0.0
  }

  ghost predicate Sound(s: ClockSample, theta: real -> real)
  {
    Abs(s.offsetMs - theta(s.sampledAtMs)) <= s.uncertaintyMs
  }

  function SamplesAfter(history: seq<Exchange>): seq<ClockSample>
  {
    if history == [] then [] else Recorded(SamplesAfter(history[..|history| - 1]), history[|history| - 1])
  }

  /** Half the delay bounds the error of one exchange. */
  lemma ExchangeSound(x: Exchange, theta: real -> real)
    requires Honest(x, theta)
    ensures Sound(SampleOf(x), theta)
  {
    var out := x.s1 - x.t0 - theta(x.t3);
    var back := x.t3 - x.s2 + theta(x.t3);
    assert Delay(x) == out + back;
    assert SampleOf(x).offsetMs == theta(x.t3) + (out - back) / 2.0;
  }

  lemma {:induction false} HistorySound(history: seq<Exchange>, theta: real -> real)
    requires forall i :: 0 <= i < |history| ==> Honest(history[i], theta)
    ensures forall i :: 0 <= i < |SamplesAfter(history)| ==> Sound(SamplesAfter(history)[i], theta)
    ensures |SamplesAfter(history)| <= CLOCK_SAMPLE_LIMIT
  {
    if history == [] {
    } else {
      HistorySound(history[..|history| - 1], theta);
      ExchangeSound(history[|history| - 1], theta);
    }
  }

  /** After any history of exchanges the estimate is within its reported uncertainty of the
      true offset. */
  lemma EstimateSound(history: seq<Exchange>, theta: real -> real, now: real)
    requires forall i :: 0 <= i < |history| ==> Honest(history[i], theta)
    requires Drifts(theta)
    ensures var e := Estimated(SamplesAfter(history), now);
            e.Some? ==> Abs(e.value.offsetMs - theta(now)) <= e.value.uncertaintyMs
  {
    HistorySound(history, theta);
    var samples := SamplesAfter(history);
    if samples != [] {
      var best := Best(samples);
      assert Sound(best, theta);
      if now >= best.sampledAtMs {
        assert Abs(theta(now) - theta(best.sampledAtMs)) <= (now - best.sampledAtMs) * CLOCK_DRIFT_MS_PER_MS;
      }
    }
  }

  /** The samples of the plausible exchanges, in order. */
  function PlausibleSamples(history: seq<Exchange>): seq<ClockSample>
  {
    if history == [] then [] else
    var last := history[|history| - 1];
    PlausibleSamples(history[..|history| - 1]) + if Plausible(last) then [SampleOf(last)] else []
  }

  function LastOf<T>(s: seq<T>, n: nat): seq<T> { if |s| <= n then s else s[|s| - n..] }

  /** The window is the last eight plausible samples. */
  lemma {:induction false} RollingEight(history: seq<Exchange>)
    ensures SamplesAfter(history) == LastOf(PlausibleSamples(history), CLOCK_SAMPLE_LIMIT)
  {
    if history == [] {
    } else {
      RollingEight(history[..|history| - 1]);
    }
  }

  /** The estimate comes from the least delay among the last eight plausible exchanges. */
  lemma LeastDelayChosen(history: seq<Exchange>, now: real)
    ensures var window := LastOf(PlausibleSamples(history), CLOCK_SAMPLE_LIMIT);
            var e := Estimated(SamplesAfter(history), now);
            e.Some? ==>
              exists s :: s in window && s.offsetMs == e.value.offsetMs && s.sampledAtMs == e.value.sampledAtMs
                                    && forall r :: r in window ==> s.delayMs <= r.delayMs
  {
    RollingEight(history);
    var samples := SamplesAfter(history);
    if samples != [] {
      assert Best(samples) in samples;
    }
  }

  // ---- phases ----

  /** The phases are non-negative and add up exactly. */
  lemma PhasesAddUp(s: PhaseTiming, clock: ClockEstimate, displayFps: real)
    ensures var c := CalculateComponents(s, clock, displayFps);
            c.Some? ==>
              && c.value.totalMs == PhaseSum(c.value)
              && c.value.encodeMs >= 0.0 && c.value.senderQueueMs >= 0.0 && c.value.deliveryMs >= 0.0
              && c.value.receiverQueueMs >= 0.0 && c.value.decodeDisplayMs > 0.0
              && c.value.totalMs <= MAX_PIPELINE_DURATION_MS + 1000.0 / displayFps
  {
  }

  /** With an estimate within its uncertainty, a truthful sample passes the guard, and its
      delivery phase is off by at most the uncertainty. */
  lemma TruthfulDelivery(s: PhaseTiming, clock: ClockEstimate, displayFps: real, offset: real, delivery: real)
    requires InRange(s, clock, displayFps)
    requires Abs(clock.offsetMs - offset) <= clock.uncertaintyMs
    requires SenderQueueRaw(s) >= 0.0 && delivery >= 0.0
    requires s.receiverCompleteTimeMs == s.sendStartTimeMs + offset + delivery
    ensures Guarded(s, clock)
    ensures var c := CalculateComponents(s, clock, displayFps);
            c.Some? ==> Abs(c.value.deliveryMs - delivery) <= clock.uncertaintyMs
                        && c.value.senderQueueMs == SenderQueueRaw(s)
    ensures CalculateComponents(s, clock, displayFps).None? ==>
              s.encodeDurationMs + SenderQueueRaw(s) + delivery + s.receiverQueueMs
              > MAX_PIPELINE_DURATION_MS - clock.uncertaintyMs
  {
  }

  function Constant(offset: real): real -> real { (t: real) => offset }

  lemma ConstantDoesNotDrift(offset: real)
    ensures Drifts(Constant(offset))
  {
  }

  /** The same after any history of honest exchanges with a clock that does not drift. */
  lemma TruthfulSampleAccepted(history: seq<Exchange>, offset: real, now: real, s: PhaseTiming, displayFps: real,
                               delivery: real)
    requires forall i :: 0 <= i < |history| ==> Honest(history[i], Constant(offset))
    requires Estimated(SamplesAfter(history), now).Some?
    requires SenderQueueRaw(s) >= 0.0 && delivery >= 0.0
    requires s.receiverCompleteTimeMs == s.sendStartTimeMs + offset + delivery
    requires InRange(s, Estimated(SamplesAfter(history), now).value, displayFps)
    ensures var clock := Estimated(SamplesAfter(history), now).value;
            && Guarded(s, clock)
            && (var c := CalculateComponents(s, clock, displayFps);
                c.Some? ==> Abs(c.value.deliveryMs - delivery) <= clock.uncertaintyMs)
  {
    hide Estimated, SamplesAfter, CalculateComponents, InRange, SenderQueueRaw;
    ConstantDoesNotDrift(offset);
    EstimateSound(history, Constant(offset), now);
    TruthfulDelivery(s, Estimated(SamplesAfter(history), now).value, displayFps, offset, delivery);
  }

  // ---- smoothing ----

  function SmoothedAfter(alpha: real, samples: seq<Components>): Option<Components>
  {
    if samples == [] then None
    else Some(Smoothed(alpha, SmoothedAfter(alpha, samples[..|samples| - 1]), samples[|samples| - 1]))
  }

  predicate NonNegative(c: Components)
  {
    c.encodeMs >= 0.0 && c.senderQueueMs >= 0.0 && c.deliveryMs >= 0.0 && c.receiverQueueMs >= 0.0
    && c.decodeDisplayMs >= 0.0
  }

  lemma BlendSum(alpha: real, v: Components, s: Components)
    requires v.totalMs == PhaseSum(v) && s.totalMs == PhaseSum(s)
    ensures var r := Smoothed(alpha, Some(v), s); r.totalMs == PhaseSum(r)
  {
    var de, dq, dd, dr, dx := s.encodeMs - v.encodeMs, s.senderQueueMs - v.senderQueueMs, s.deliveryMs - v.deliveryMs,
                              s.receiverQueueMs - v.receiverQueueMs, s.decodeDisplayMs - v.decodeDisplayMs;
    assert alpha * (de + dq + dd + dr + dx) == alpha * de + alpha * dq + alpha * dd + alpha * dr + alpha * dx;
  }

  lemma BlendBetween(alpha: real, previous: real, next: real)
    requires 0.0 <= alpha <= 1.0 && previous >= 0.0 && next >= 0.0
    ensures Blend(alpha, previous, next) >= 0.0
    ensures Blend(alpha, previous, next) <= MaxReal(previous, next)
  {
    assert Blend(alpha, previous, next) == (1.0 - alpha) * previous + alpha * next;
    NonNegativeProduct(1.0 - alpha, previous);
    NonNegativeProduct(alpha, next);
    var m := MaxReal(previous, next);
    NonNegativeProduct(1.0 - alpha, m - previous);
    NonNegativeProduct(alpha, m - next);
  }

  lemma NonNegativeProduct(a: real, b: real)
    requires a >= 0.0 && b >= 0.0
    ensures a * b >= 0.0
  {
  }

  /** After any updates the smoothed total is the sum of the smoothed phases, and each phase
      is non-negative. */
  lemma {:induction false} SmoothingKeepsSum(alpha: real, samples: seq<Components>)
    requires 0.0 <= alpha <= 1.0
    requires forall i :: 0 <= i < |samples| ==> samples[i].totalMs == PhaseSum(samples[i]) && NonNegative(samples[i])
    ensures var r := SmoothedAfter(alpha, samples);
            r.Some? ==> r.value.totalMs == PhaseSum(r.value) && NonNegative(r.value)
  {
    if samples == [] {
    } else {
      var before := samples[..|samples| - 1];
      var last := samples[|samples| - 1];
      SmoothingKeepsSum(alpha, before);
      if before != [] {
        var v := SmoothedAfter(alpha, before).value;
        BlendSum(alpha, v, last);
        BlendBetween(alpha, v.encodeMs, last.encodeMs);
        BlendBetween(alpha, v.senderQueueMs, last.senderQueueMs);
        BlendBetween(alpha, v.deliveryMs, last.deliveryMs);
        BlendBetween(alpha, v.receiverQueueMs, last.receiverQueueMs);
        BlendBetween(alpha, v.decodeDisplayMs, last.decodeDisplayMs);
      }
    }
  }

  /** Smoothing never exceeds the largest total. */
  lemma {:induction false} SmoothedWithin(alpha: real, samples: seq<Components>, limit: real)
    requires 0.0 <= alpha <= 1.0
    requires forall i :: 0 <= i < |samples| ==> samples[i].totalMs == PhaseSum(samples[i]) && NonNegative(samples[i])
    requires forall i :: 0 <= i < |samples| ==> samples[i].totalMs <= limit
    ensures var r := SmoothedAfter(alpha, samples); r.Some? ==> r.value.totalMs <= limit
  {
    if samples == [] {
    } else {
      var before := samples[..|samples| - 1];
      SmoothedWithin(alpha, before, limit);
      SmoothingKeepsSum(alpha, before);
      hide Blend;
      if before != [] {
        BlendBetween(alpha, SmoothedAfter(alpha, before).value.totalMs, samples[|samples| - 1].totalMs);
      }
    }
  }

  // ---- pacing ----

  datatype Call =
    | AcknowledgeCall(sample: PendingSample)
    | PrepareCall(samples: seq<ClockSample>, now: real, displayFps: real)

  datatype Report = Report(at: real, prepared: PreparedSample)

  function CoordinatedStep(c: Coordination, call: Call): (Coordination, seq<Report>)
  {
    match call
    case AcknowledgeCall(sample) => (Acknowledged(c, sample), [])
    case PrepareCall(samples, now, fps) =>
      var r := Prepared(c, samples, now, fps);
      (r.0, match r.1 case None => [] case Some(p) => [Report(now, p)])
  }

  function CoordinatedAfter(calls: seq<Call>): Coordination
  {
    if calls == [] then Coordination(None, None)
    else CoordinatedStep(CoordinatedAfter(calls[..|calls| - 1]), calls[|calls| - 1]).0
  }

  function Reports(calls: seq<Call>): seq<Report>
  {
    if calls == [] then []
    else Reports(calls[..|calls| - 1]) + CoordinatedStep(CoordinatedAfter(calls[..|calls| - 1]), calls[|calls| - 1]).1
  }

  function Acknowledgements(calls: seq<Call>): nat
  {
    if calls == [] then 0
    else Acknowledgements(calls[..|calls| - 1]) + if calls[|calls| - 1].AcknowledgeCall? then 1 else 0
  }

  /** Over every run consecutive reports are at least one second apart, no sample is
      reported twice, and every report's phases add up. */
  lemma {:induction false} ReportsPaced(calls: seq<Call>)
    ensures var r := Reports(calls);
            && (forall i :: 0 <= i < |r| - 1 ==> r[i + 1].at - r[i].at >= MIN_REPORT_INTERVAL_MS)
            && (forall i :: 0 <= i < |r| ==> r[i].prepared.components.totalMs == PhaseSum(r[i].prepared.components))
            && CoordinatedAfter(calls).lastReportAt == (if r == [] then None else Some(r[|r| - 1].at))
            && |r| + (if CoordinatedAfter(calls).pending.Some? then 1 else 0) <= Acknowledgements(calls)
  {
    hide CoordinatedStep;
    if calls == [] {
    } else {
      ReportsPaced(calls[..|calls| - 1]);
      StepPaced(CoordinatedAfter(calls[..|calls| - 1]), calls[|calls| - 1]);
    }
  }

  lemma StepPaced(c: Coordination, call: Call)
    ensures var r := CoordinatedStep(c, call);
            && |r.1| <= 1
            && (r.1 == [] ==> r.0.lastReportAt == c.lastReportAt)
            && (r.1 != [] ==>
                  && r.0.lastReportAt == Some(r.1[0].at)
                  && (c.lastReportAt.Some? ==> r.1[0].at - c.lastReportAt.value >= MIN_REPORT_INTERVAL_MS)
                  && r.1[0].prepared.components.totalMs == PhaseSum(r.1[0].prepared.components)
                  && call.PrepareCall? && c.pending.Some? && r.0.pending.None?)
            && (call.PrepareCall? && c.pending.None? ==> r.0.pending.None?)
  {
    if call.PrepareCall? && c.pending.Some? {
      var e := Estimated(call.samples, call.now);
      if e.Some? { PhasesAddUp(c.pending.value.timing, e.value, call.displayFps); }
    }
  }
}
