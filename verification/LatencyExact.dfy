/** Latency measurement in numbers: which exchange an estimate comes from and how wide it is,
    what the phases measure, how smoothing converges, and which samples are reported. */
module LatencyExact {
  import opened Prelude
  import opened Latency
  import opened LatencyRuns

  // ---- the clock ----

  /** What the way there and back took, without the time at the server. */
  function RoundTrip(x: Exchange): real { (x.t3 - x.t0) - (x.s2 - x.s1) }

  /** The exchanges that are kept: no negative time at the server, and a way there and back of
      0 to 30 seconds. */
  function Kept(history: seq<Exchange>): seq<Exchange>
  {
    Filter((x: Exchange) => x.s1 <= x.s2 && 0.0 <= RoundTrip(x) <= 30000.0, history)
  }

  /** The last eight of them. */
  function Window(history: seq<Exchange>): seq<Exchange>
  {
    var kept := Kept(history);
    if |kept| <= 8 then kept else kept[|kept| - 8..]
  }

  /** The first exchange of least delay. */
  predicate FirstLeast(window: seq<Exchange>, k: nat)
  {
    k < |window| && forall j :: 0 <= j < |window| ==>
                                  RoundTrip(window[k]) <= RoundTrip(window[j])
                                  && (j < k ==> RoundTrip(window[k]) < RoundTrip(window[j]))
  }

  function Samples(window: seq<Exchange>): seq<ClockSample>
  {
    seq(|window|, i requires 0 <= i < |window| => SampleOf(window[i]))
  }

  lemma {:induction false} PlausibleAreKept(history: seq<Exchange>)
    ensures PlausibleSamples(history) == Samples(Kept(history))
  {
    if history == [] {
    } else {
      var n := |history| - 1;
      PlausibleAreKept(history[..n]);
      KeptSnoc(history[..n], history[n]);
      assert history[..n] + [history[n]] == history;
      assert Samples(Kept(history[..n])) + [] == Samples(Kept(history[..n]));
    }
  }

  lemma KeptSnoc(history: seq<Exchange>, x: Exchange)
    ensures Kept(history + [x])
            == Kept(history) + if x.s1 <= x.s2 && 0.0 <= RoundTrip(x) <= 30000.0 then [x] else []
  {
    FilterAppend((x: Exchange) => x.s1 <= x.s2 && 0.0 <= RoundTrip(x) <= 30000.0, history, [x]);
    assert [x][1..] == [];
  }

  lemma SamplesOfWindow(history: seq<Exchange>)
    ensures SamplesAfter(history) == Samples(Window(history))
  {
    RollingEight(history);
    PlausibleAreKept(history);
  }

  lemma FirstLeastGrows(window: seq<Exchange>, k: nat)
    requires |window| > 1 && FirstLeast(window[..|window| - 1], k)
    ensures var n := |window| - 1;
            FirstLeast(window, if RoundTrip(window[n]) < RoundTrip(window[k]) then n else k)
  {
    hide RoundTrip;
    var before := window[..|window| - 1];
    forall j | 0 <= j < |before| ensures window[j] == before[j] && RoundTrip(before[k]) <= RoundTrip(before[j]) {
    }
  }

  lemma {:induction false} BestIsFirstLeast(window: seq<Exchange>) returns (k: nat)
    requires window != []
    ensures FirstLeast(window, k) && Best(Samples(window)) == SampleOf(window[k])
  {
    var n := |window| - 1;
    if n == 0 {
      k := 0;
    } else {
      k := BestIsFirstLeast(window[..n]);
      FirstLeastGrows(window, k);
      hide FirstLeast;
      assert Samples(window)[..n] == Samples(window[..n]);
      if RoundTrip(window[n]) < RoundTrip(window[k]) { k := n; }
    }
  }

  /** The estimate, in the times of the exchange it comes from: its offset is the mean of the two
      differences, and its uncertainty half the way there and back, and 50 microseconds more for
      every second since. */
  function EstimateFrom(x: Exchange, now: real): ClockEstimate
  {
    ClockEstimate(((x.s1 - x.t0) + (x.s2 - x.t3)) / 2.0, RoundTrip(x) / 2.0 + (now - x.t3) / 20000.0, x.t3)
  }

  lemma EstimateOfBest(samples: seq<ClockSample>, x: Exchange, now: real)
    requires samples != [] && Best(samples) == SampleOf(x)
    ensures Estimated(samples, now) == if now < x.t3 then None else Some(EstimateFrom(x, now))
  {
    hide Best;
    assert CLOCK_DRIFT_MS_PER_MS == 1.0 / 20000.0;
    assert (now - x.t3) * CLOCK_DRIFT_MS_PER_MS == (now - x.t3) / 20000.0;
  }

  /** After any history the estimate is that of the first exchange of least delay among the last
      eight that were kept, unless there is none or it lies in the future. */
  lemma EstimateExactly(history: seq<Exchange>, now: real) returns (k: nat)
    ensures var window := Window(history);
            var e := Estimated(SamplesAfter(history), now);
            if window == [] then e == None
            else FirstLeast(window, k) && e == if now < window[k].t3 then None else Some(EstimateFrom(window[k], now))
  {
    SamplesOfWindow(history);
    hide SamplesAfter, Window, EstimateFrom, RoundTrip;
    k := 0;
    if Window(history) != [] {
      k := BestIsFirstLeast(Window(history));
      EstimateOfBest(SamplesAfter(history), Window(history)[k], now);
    }
  }

  /** The true offset ahead of, or behind, the estimate by all of its uncertainty. */
  function Extreme(x: Exchange, ahead: bool): real -> real
  {
    (t: real) =>
      var e := EstimateFrom(x, t);
      if ahead then e.offsetMs + e.uncertaintyMs else e.offsetMs - e.uncertaintyMs
  }

  lemma ExtremeConsistent(x: Exchange, ahead: bool)
    requires RoundTrip(x) >= 0.0
    ensures Honest(x, Extreme(x, ahead)) && Drifts(Extreme(x, ahead))
  {
    var theta := Extreme(x, ahead);
    forall a: real, b: real | a <= b ensures Abs(theta(b) - theta(a)) <= (b - a) * CLOCK_DRIFT_MS_PER_MS {
      assert Abs(theta(b) - theta(a)) == (b - a) / 20000.0;
    }
  }

  /** The bound is attained, on either side: with the exchange that was chosen, and the drift that
      is allowed, an offset is consistent that differs from the estimate by all of its
      uncertainty. */
  lemma UncertaintyAttained(history: seq<Exchange>, now: real, ahead: bool) returns (x: Exchange, theta: real -> real)
    requires Estimated(SamplesAfter(history), now).Some?
    ensures x in history && Honest(x, theta) && Drifts(theta)
    ensures var e := Estimated(SamplesAfter(history), now).value;
            e.sampledAtMs == x.t3
            && theta(now) - e.offsetMs == if ahead then e.uncertaintyMs else -e.uncertaintyMs
  {
    var k := EstimateExactly(history, now);
    x := Window(history)[k];
    theta := Extreme(x, ahead);
    assert x in Kept(history);
    ExtremeConsistent(x, ahead);
  }

  // ---- the phases ----

  /** A sample is measured exactly if its figures are in range, no phase is negative beyond the
      uncertainty, and the pipeline takes at most 30 seconds. */
  lemma MeasuredExactly(s: PhaseTiming, clock: ClockEstimate, displayFps: real)
    ensures var queued := s.sendStartTimeMs - s.captureTimeMs - s.encodeDurationMs;
            var delivered := s.receiverCompleteTimeMs - clock.offsetMs - s.sendStartTimeMs;
            CalculateComponents(s, clock, displayFps).Some? <==>
              && 0.0 <= s.encodeDurationMs <= 30000.0 && s.receiverQueueMs >= 0.0
              && 1.0 <= displayFps <= 240.0 && clock.uncertaintyMs >= 0.0
              && -clock.uncertaintyMs <= queued && -clock.uncertaintyMs <= delivered
              && s.encodeDurationMs + (if queued < 0.0 then 0.0 else queued)
                 + (if delivered < 0.0 then 0.0 else delivered) + s.receiverQueueMs <= 30000.0
  {
  }

  /** The phases lie end to end: from the capture over encoding to the send, from the send to the
      completion at the receiver in the sender's time, and then the queue and one display
      interval; a phase that would be negative is empty. */
  lemma PhasesMeet(s: PhaseTiming, clock: ClockEstimate, displayFps: real)
    requires CalculateComponents(s, clock, displayFps).Some?
    ensures var c := CalculateComponents(s, clock, displayFps).value;
            var encoded := s.captureTimeMs + s.encodeDurationMs;
            var completed := s.receiverCompleteTimeMs - clock.offsetMs;
            && c.encodeMs == s.encodeDurationMs && c.receiverQueueMs == s.receiverQueueMs
            && (if encoded <= s.sendStartTimeMs then encoded + c.senderQueueMs == s.sendStartTimeMs
                else c.senderQueueMs == 0.0)
            && (if s.sendStartTimeMs <= completed then s.sendStartTimeMs + c.deliveryMs == completed
                else c.deliveryMs == 0.0)
            && c.decodeDisplayMs * displayFps == 1000.0
  {
  }

  // ---- smoothing ----

  function Power(b: real, n: nat): real { if n == 0 then 1.0 else b * Power(b, n - 1) }

  /** The value after n updates with the same sample. */
  function SmoothedTimes(alpha: real, v: Components, x: Components, n: nat): Components
  {
    if n == 0 then v else Smoothed(alpha, Some(SmoothedTimes(alpha, v, x, n - 1)), x)
  }

  /** `r` is as far from `x` as `v`, times `factor`. */
  predicate Closer(r: real, v: real, x: real, factor: real) { r - x == factor * (v - x) }

  lemma BlendCloser(alpha: real, r: real, v: real, x: real, factor: real)
    requires Closer(r, v, x, factor)
    ensures Closer(Blend(alpha, r, x), v, x, (1.0 - alpha) * factor)
  {
    assert Blend(alpha, r, x) - x == (1.0 - alpha) * (r - x);
  }

  /** So are all phases, and the total. */
  predicate AllCloser(r: Components, v: Components, x: Components, factor: real)
  {
    && Closer(r.totalMs, v.totalMs, x.totalMs, factor) && Closer(r.encodeMs, v.encodeMs, x.encodeMs, factor)
    && Closer(r.senderQueueMs, v.senderQueueMs, x.senderQueueMs, factor)
    && Closer(r.deliveryMs, v.deliveryMs, x.deliveryMs, factor)
    && Closer(r.receiverQueueMs, v.receiverQueueMs, x.receiverQueueMs, factor)
    && Closer(r.decodeDisplayMs, v.decodeDisplayMs, x.decodeDisplayMs, factor)
  }

  lemma UpdateCloser(alpha: real, r: Components, v: Components, x: Components, factor: real)
    requires AllCloser(r, v, x, factor)
    ensures AllCloser(Smoothed(alpha, Some(r), x), v, x, (1.0 - alpha) * factor)
  {
    hide Blend, Closer;
    BlendCloser(alpha, r.totalMs, v.totalMs, x.totalMs, factor);
    BlendCloser(alpha, r.encodeMs, v.encodeMs, x.encodeMs, factor);
    BlendCloser(alpha, r.senderQueueMs, v.senderQueueMs, x.senderQueueMs, factor);
    BlendCloser(alpha, r.deliveryMs, v.deliveryMs, x.deliveryMs, factor);
    BlendCloser(alpha, r.receiverQueueMs, v.receiverQueueMs, x.receiverQueueMs, factor);
    BlendCloser(alpha, r.decodeDisplayMs, v.decodeDisplayMs, x.decodeDisplayMs, factor);
  }

  lemma AsCloseAsBefore(v: Components, x: Components)
    ensures AllCloser(v, v, x, 1.0)
  {
  }

  /** Each update leaves a phase 1 - alpha of its distance from the sample: n updates with one
      sample leave the n-th power of that. */
  lemma {:induction false} SmoothingConverges(alpha: real, v: Components, x: Components, n: nat)
    ensures AllCloser(SmoothedTimes(alpha, v, x, n), v, x, Power(1.0 - alpha, n))
  {
    hide Smoothed, AllCloser;
    if n == 0 {
      AsCloseAsBefore(v, x);
    } else {
      SmoothingConverges(alpha, v, x, n - 1);
      var r, factor := SmoothedTimes(alpha, v, x, n - 1), Power(1.0 - alpha, n - 1);
      UpdateCloser(alpha, r, v, x, factor);
      assert SmoothedTimes(alpha, v, x, n) == Smoothed(alpha, Some(r), x);
      assert Power(1.0 - alpha, n) == (1.0 - alpha) * factor;
    }
  }

  // ---- reports ----

  /** Exactly which samples are reported, and what becomes of the others: nothing happens without
      a sample, without an estimate, or less than a second after the last report; otherwise the
      sample is used up, and reported if it is neither from the future nor older than 30 seconds,
      and can be measured. */
  lemma ReportedExactly(c: Coordination, samples: seq<ClockSample>, now: real, displayFps: real)
    ensures var r := Prepared(c, samples, now, displayFps);
            var e := Estimated(samples, now);
            if c.pending.None? || e.None? || (c.lastReportAt.Some? && now - c.lastReportAt.value < 1000.0)
            then r == (c, None)
            else
              var t, u := c.pending.value.timing, e.value.uncertaintyMs;
              && r.0.pending == None
              && (r.1.Some? <==>
                    && now - 30000.0 <= t.captureTimeMs <= now + u
                    && t.receiverCompleteTimeMs - e.value.offsetMs <= now + u
                    && CalculateComponents(t, e.value, displayFps).Some?)
              && (r.1.None? ==> r.0.lastReportAt == c.lastReportAt)
              && (r.1.Some? ==>
                    && r.0.lastReportAt == Some(now)
                    && r.1.value.number == c.pending.value.number
                    && Some(r.1.value.components) == CalculateComponents(t, e.value, displayFps)
                    && r.1.value.clockUncertaintyMs == u
                    && e.value.sampledAtMs + r.1.value.clockAgeMs == now
                    && r.1.value.diagnostics == c.pending.value.diagnostics)
  {
    hide CalculateComponents, Estimated;
  }

  /** The sample that waits to be reported: the last one acknowledged under a positive number,
      unless it has been used up since. */
  function Waiting(calls: seq<Call>): Option<PendingSample>
  {
    if calls == [] then None else
    var before := calls[..|calls| - 1];
    match calls[|calls| - 1]
    case AcknowledgeCall(sample) => if sample.number < 1 then Waiting(before) else Some(sample)
    case PrepareCall(samples, now, _) =>
      var last := CoordinatedAfter(before).lastReportAt;
      if Estimated(samples, now).Some? && (last.None? || last.value + 1000.0 <= now) then None else Waiting(before)
  }

  lemma {:induction false} PendingExactly(calls: seq<Call>)
    ensures CoordinatedAfter(calls).pending == Waiting(calls)
  {
    hide CoordinatedStep, Estimated;
    if calls == [] {
    } else {
      PendingExactly(calls[..|calls| - 1]);
      StepPending(CoordinatedAfter(calls[..|calls| - 1]), calls[|calls| - 1]);
    }
  }

  lemma StepPending(c: Coordination, call: Call)
    ensures CoordinatedStep(c, call).0.pending ==
            match call
            case AcknowledgeCall(sample) => if sample.number < 1 then c.pending else Some(sample)
            case PrepareCall(samples, now, _) =>
              if Estimated(samples, now).Some? && (c.lastReportAt.None? || c.lastReportAt.value + 1000.0 <= now)
              then None else c.pending
  {
    hide CalculateComponents, Estimated;
  }

  // ---- capture times ----

  /** The unresolved captures of one timestamp, oldest first. */
  function CapturesOf(entries: seq<Entry>, timestamp: int): seq<real>
  {
    var i := Position(Keyed(timestamp), entries);
    if i < |entries| then entries[i].captures else []
  }

  function MarksOf(q: seq<Mark>, timestamp: int): seq<real>
  {
    if q == [] then []
    else MarksOf(q[..|q| - 1], timestamp) + if q[|q| - 1].timestamp == timestamp then [q[|q| - 1].capture] else []
  }

  /** Marks in the order they were made; a timestamp takes its oldest mark with it. */
  function Unresolved(ops: seq<TrackerOp>): seq<Mark>
  {
    if ops == [] then [] else
    var q := Unresolved(ops[..|ops| - 1]);
    match ops[|ops| - 1]
    case MarkOp(ts, capture) => q + [Mark(ts, capture)]
    case ResolveOp(ts, _) => var i := Position(MarkFor(ts), q); if i == |q| then q else Without(q, i)
  }

  /** There are never more than 64 of them. */
  ghost predicate Roomy(ops: seq<TrackerOp>)
  {
    |Unresolved(ops)| <= 64 && (ops == [] || Roomy(ops[..|ops| - 1]))
  }

  ghost predicate Answers(t: Tracker, q: seq<Mark>)
  {
    WellKept(t) && t.tracked == |q| && forall ts :: CapturesOf(t.entries, ts) == MarksOf(q, ts)
  }

  lemma PositionIs<T>(p: T -> bool, s: seq<T>, i: nat)
    requires i < |s| && p(s[i]) && forall j :: 0 <= j < i ==> !p(s[j])
    ensures Position(p, s) == i
  {
  }

  lemma PositionNone<T>(p: T -> bool, s: seq<T>)
    requires forall j :: 0 <= j < |s| ==> !p(s[j])
    ensures Position(p, s) == |s|
  {
  }

  lemma PushedCaptures(entries: seq<Entry>, timestamp: int, capture: real, ts: int)
    ensures CapturesOf(Pushed(entries, timestamp, capture), ts)
            == CapturesOf(entries, ts) + if ts == timestamp then [capture] else []
  {
    var i, k := Position(Keyed(timestamp), entries), Position(Keyed(ts), entries);
    var r := Pushed(entries, timestamp, capture);
    assert CapturesOf(entries, ts) + [] == CapturesOf(entries, ts);
    forall j | 0 <= j < |entries| ensures Keyed(ts)(r[j]) <==> Keyed(ts)(entries[j]) {
    }
    if k < |entries| {
      PositionIs(Keyed(ts), r, k);
    } else if ts == timestamp {
      PositionIs(Keyed(ts), r, |entries|);
    } else {
      PositionNone(Keyed(ts), r);
    }
  }

  lemma CapturesAt(entries: seq<Entry>, i: nat)
    requires i < |entries| && DistinctKeys(entries)
    ensures Position(Keyed(entries[i].timestamp), entries) == i
    ensures CapturesOf(entries, entries[i].timestamp) == entries[i].captures
  {
    PositionIs(Keyed(entries[i].timestamp), entries, i);
  }

  lemma CapturesNowhere(entries: seq<Entry>, ts: int)
    requires forall j :: 0 <= j < |entries| ==> entries[j].timestamp != ts
    ensures CapturesOf(entries, ts) == []
  {
    PositionNone(Keyed(ts), entries);
  }

  /** Entry i gets other captures, the rest stays. */
  lemma ReplacedCaptures(entries: seq<Entry>, i: nat, captures: seq<real>, ts: int)
    requires i < |entries| && DistinctKeys(entries)
    ensures CapturesOf(entries[i := entries[i].(captures := captures)], ts)
            == if ts == entries[i].timestamp then captures else CapturesOf(entries, ts)
  {
    var r := entries[i := entries[i].(captures := captures)];
    forall j | 0 <= j < |entries| ensures r[j].timestamp == entries[j].timestamp {
    }
    hide CapturesOf;
    if k: nat :| k < |entries| && entries[k].timestamp == ts {
      CapturesAt(entries, k);
      CapturesAt(r, k);
    } else {
      CapturesNowhere(entries, ts);
      CapturesNowhere(r, ts);
    }
  }

  lemma RemovedCaptures(entries: seq<Entry>, i: nat, ts: int)
    requires i < |entries| && DistinctKeys(entries)
    ensures CapturesOf(Without(entries, i), ts)
            == if ts == entries[i].timestamp then [] else CapturesOf(entries, ts)
  {
    var r := Without(entries, i);
    forall j | 0 <= j < |r| ensures r[j] == entries[if j < i then j else j + 1] {
    }
    hide CapturesOf, Without;
    if k: nat :| k < |entries| && k != i && entries[k].timestamp == ts {
      var k' := if k < i then k else k - 1;
      CapturesAt(entries, k);
      assert r[k'] == entries[k];
      CapturesAt(r, k');
    } else {
      CapturesNowhere(r, ts);
      if ts != entries[i].timestamp { CapturesNowhere(entries, ts); }
    }
  }

  lemma ShiftedCaptures(entries: seq<Entry>, i: nat, ts: int)
    requires i < |entries| && DistinctKeys(entries) && NoneEmpty(entries)
    ensures CapturesOf(ShiftAt(entries, i), ts)
            == if ts == entries[i].timestamp then entries[i].captures[1..] else CapturesOf(entries, ts)
  {
    hide CapturesOf, Without;
    ReplacedCaptures(entries, i, entries[i].captures[1..], ts);
    RemovedCaptures(entries, i, ts);
  }

  lemma {:induction false} MarksAppend(a: seq<Mark>, b: seq<Mark>, ts: int)
    ensures MarksOf(a + b, ts) == MarksOf(a, ts) + MarksOf(b, ts)
  {
    if b == [] {
      assert a + b == a;
    } else {
      assert (a + b)[..|a + b| - 1] == a + b[..|b| - 1];
      MarksAppend(a, b[..|b| - 1], ts);
    }
  }

  lemma {:induction false} MarksNone(q: seq<Mark>, ts: int)
    requires forall j :: 0 <= j < |q| ==> q[j].timestamp != ts
    ensures MarksOf(q, ts) == []
  {
    if q == [] {
    } else {
      MarksNone(q[..|q| - 1], ts);
    }
  }

  lemma OneMark(m: Mark, ts: int)
    ensures MarksOf([m], ts) == if m.timestamp == ts then [m.capture] else []
  {
    assert [m][..0] == [];
    assert MarksOf([], ts) == [];
  }

  lemma MarksAround(q: seq<Mark>, i: nat, ts: int)
    requires i < |q|
    ensures MarksOf(q, ts)
            == MarksOf(q[..i], ts) + (if q[i].timestamp == ts then [q[i].capture] else []) + MarksOf(q[i + 1..], ts)
    ensures MarksOf(Without(q, i), ts) == MarksOf(q[..i], ts) + MarksOf(q[i + 1..], ts)
  {
    assert q == q[..i] + [q[i]] + q[i + 1..];
    OneMark(q[i], ts);
    hide MarksOf;
    MarksAppend(q[..i], [q[i]], ts);
    MarksAppend(q[..i] + [q[i]], q[i + 1..], ts);
    MarksAppend(q[..i], q[i + 1..], ts);
  }

  lemma FirstMark(q: seq<Mark>, i: nat, ts: int)
    requires i < |q| && forall j :: 0 <= j < i ==> q[j].timestamp != q[i].timestamp
    ensures MarksOf(q, q[i].timestamp) != [] && MarksOf(q, q[i].timestamp)[0] == q[i].capture
    ensures MarksOf(Without(q, i), ts) == if ts == q[i].timestamp then MarksOf(q, ts)[1..] else MarksOf(q, ts)
  {
    assert forall j :: 0 <= j < i ==> q[..i][j] == q[j];
    MarksNone(q[..i], q[i].timestamp);
    hide MarksOf, Without;
    MarksAround(q, i, q[i].timestamp);
    MarksAround(q, i, ts);
  }

  /** The first mark of a timestamp is the head of its captures. */
  lemma MarksWithout(q: seq<Mark>, timestamp: int, ts: int)
    ensures var i := Position(MarkFor(timestamp), q);
            if i == |q| then MarksOf(q, timestamp) == []
            else && q[i].timestamp == timestamp && MarksOf(q, timestamp) != []
                 && MarksOf(q, timestamp)[0] == q[i].capture
                 && MarksOf(Without(q, i), ts) == if ts == timestamp then MarksOf(q, ts)[1..] else MarksOf(q, ts)
  {
    var i := Position(MarkFor(timestamp), q);
    forall j | 0 <= j < i ensures q[j].timestamp != timestamp { assert !MarkFor(timestamp)(q[j]); }
    hide MarksOf, Without;
    if i == |q| {
      MarksNone(q, timestamp);
    } else {
      assert MarkFor(timestamp)(q[i]);
      FirstMark(q, i, ts);
    }
  }

  lemma MarkAnswers(t: Tracker, q: seq<Mark>, timestamp: int, capture: real)
    requires Answers(t, q) && |q| < 64
    ensures Answers(Marked(t, timestamp, capture), q + [Mark(timestamp, capture)])
  {
    MarkKeeps(t, timestamp, capture);
    hide Pushed, CapturesOf, MarksOf, WellKept;
    var r := Marked(t, timestamp, capture);
    assert r == Tracker(Pushed(t.entries, timestamp, capture), t.tracked + 1);
    forall ts ensures CapturesOf(r.entries, ts) == MarksOf(q + [Mark(timestamp, capture)], ts) {
      PushedCaptures(t.entries, timestamp, capture, ts);
      MarksAppend(q, [Mark(timestamp, capture)], ts);
      OneMark(Mark(timestamp, capture), ts);
    }
  }

  /** What resolving does to the entries, where there is one. */
  lemma ResolvedShape(t: Tracker, timestamp: int, encodedAt: real)
    requires NoneEmpty(t.entries)
    ensures var captures := CapturesOf(t.entries, timestamp);
            var k := Position(Keyed(timestamp), t.entries);
            var r := Resolved(t, timestamp, encodedAt);
            if captures == [] then r == (t, None)
            else && k < |t.entries| && t.entries[k].timestamp == timestamp && t.entries[k].captures == captures
                 && r.0 == Tracker(ShiftAt(t.entries, k), t.tracked - 1)
                 && r.1 == Some(EncoderTiming(captures[0], if encodedAt < captures[0] then 0.0
                                                           else encodedAt - captures[0]))
  {
    var k := Position(Keyed(timestamp), t.entries);
    if k < |t.entries| { assert Keyed(timestamp)(t.entries[k]); }
    hide ShiftAt;
  }

  lemma ResolveAnswers(t: Tracker, q: seq<Mark>, timestamp: int, encodedAt: real)
    requires Answers(t, q)
    ensures var r := Resolved(t, timestamp, encodedAt);
            var i := Position(MarkFor(timestamp), q);
            if i == |q| then r == (t, None)
            else && Answers(r.0, Without(q, i))
                 && r.1 == Some(EncoderTiming(q[i].capture, if encodedAt < q[i].capture then 0.0
                                                            else encodedAt - q[i].capture))
  {
    ResolveKeeps(t, timestamp, encodedAt);
    hide MarksOf, ShiftAt, CapturesOf, Position, Without, Resolved;
    assert NoneEmpty(t.entries) && DistinctKeys(t.entries);
    hide NoneEmpty, DistinctKeys, WellKept;
    ResolvedShape(t, timestamp, encodedAt);
    MarksWithout(q, timestamp, timestamp);
    assert CapturesOf(t.entries, timestamp) == MarksOf(q, timestamp);
    var i, k := Position(MarkFor(timestamp), q), Position(Keyed(timestamp), t.entries);
    if i < |q| {
      var r := Resolved(t, timestamp, encodedAt).0;
      forall ts ensures CapturesOf(r.entries, ts) == MarksOf(Without(q, i), ts) {
        ShiftedCaptures(t.entries, k, ts);
        MarksWithout(q, timestamp, ts);
        assert CapturesOf(t.entries, ts) == MarksOf(q, ts);
      }
      OneLess(q, i);
    }
  }

  lemma OneLess<T>(q: seq<T>, i: nat)
    requires i < |q|
    ensures |Without(q, i)| == |q| - 1
  {
  }

  /** However timestamps repeat: as long as no more than 64 captures are unresolved, resolving a
      timestamp answers with its oldest one, and with how long ago that was, or with nothing if
      it has none. */
  lemma {:induction false} OldestAnswers(ops: seq<TrackerOp>, timestamp: int, encodedAt: real)
    requires Roomy(ops)
    ensures Answers(TrackerAfter(ops), Unresolved(ops))
    ensures var q := Unresolved(ops);
            var i := Position(MarkFor(timestamp), q);
            Resolved(TrackerAfter(ops), timestamp, encodedAt).1 ==
            if i == |q| then None
            else Some(EncoderTiming(q[i].capture, if encodedAt < q[i].capture then 0.0 else encodedAt - q[i].capture))
  {
    hide Marked, Resolved, Answers, Without, Position;
    if ops == [] {
      NothingTracked();
    } else {
      var before := ops[..|ops| - 1];
      OldestAnswers(before, timestamp, encodedAt);
      match ops[|ops| - 1] {
        case MarkOp(ts, capture) => MarkAnswers(TrackerAfter(before), Unresolved(before), ts, capture);
        case ResolveOp(ts, at) => ResolveAnswers(TrackerAfter(before), Unresolved(before), ts, at);
      }
    }
    ResolveAnswers(TrackerAfter(ops), Unresolved(ops), timestamp, encodedAt);
  }

  lemma NothingTracked()
    ensures Answers(Tracker([], 0), [])
  {
  }
}
