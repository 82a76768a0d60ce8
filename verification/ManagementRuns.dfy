/** What every run of management operations keeps. */
module ManagementRuns {
  import opened Prelude
  import opened Latency
  import LatencyRuns
  import opened Management

  datatype Op =
    | HelloOp(id: ConnectionId, now: real)
    | ClosedOp(id: ConnectionId, now: real)
    | TouchOp(id: ConnectionId, now: real)
    | StartOp(owner: Option<ConnectionId>, config: StreamConfig, now: real)
    | StopOp(reason: string)
    | SyncOp(id: ConnectionId, offsetMs: real, uncertaintyMs: real, now: real)
    | FrameOp(number: nat, now: real)
    | ReportOp(id: ConnectionId, report: Report)
    | EstimateOp(number: nat, timing: PhaseTiming, displayFps: nat, now: real)

  function Apply(s: Inner, op: Op): Inner
  {
    match op
    case HelloOp(id, now) => Greeted(s, id, now)
    case ClosedOp(id, now) => Closed(s, id, now)
    case TouchOp(id, now) => Touched(s, id, now)
    case StartOp(owner, config, now) => Started(s, owner, config, now)
    case StopOp(reason) => Finish(s, reason)
    case SyncOp(id, offset, uncertainty, now) => ClockSynced(s, id, offset, uncertainty, now)
    case FrameOp(number, now) => FrameRecorded(s, number, now)
    case ReportOp(id, r) => Reported(s, id, r)
    case EstimateOp(number, t, fps, now) => OwnEstimated(s, number, t, fps, now)
  }

  function Run(ops: seq<Op>): Inner
  {
    if ops == [] then New else Apply(Run(ops[..|ops| - 1]), ops[|ops| - 1])
  }

  // ---- sessions and connections ----

  /** How many sessions have ended. */
  function Ended(s: Inner): int { s.nextSession - 1 - (if s.stream.Some? then 1 else 0) }

  /** The history is exactly the latest ended sessions, newest first; the active one, if
      any, has the last identifier given out. */
  ghost predicate HistoryExact(s: Inner)
  {
    && s.nextSession >= 1 && Ended(s) >= 0
    && |s.history| == Min(Ended(s), MAX_HISTORY)
    && (forall i :: 0 <= i < |s.history| ==> s.history[i].id == Ended(s) - i)
    && (s.stream.Some? ==> s.stream.value.id == s.nextSession - 1)
  }

  /** Only the owner of the active stream is marked sharing. */
  ghost predicate SharingOwns(s: Inner)
  {
    forall id :: id in s.connections && s.connections[id].sharing ==> Owns(s, id)
  }

  /** Clock synchronisations are kept only for connected connections. */
  ghost predicate SyncsConnected(s: Inner)
  {
    forall id :: id in s.clockSyncs ==>
                   id in s.connections && s.connections[id].connected
                   && InLatencyRange(s.clockSyncs[id].uncertaintyMs)
  }

  ghost predicate Accounted(s: Inner)
  {
    HistoryExact(s) && SharingOwns(s) && SyncsConnected(s)
  }

  lemma FinishAccounted(s: Inner, reason: string)
    requires Accounted(s)
    ensures Accounted(Finish(s, reason))
    ensures forall id :: id in Finish(s, reason).connections ==> !Finish(s, reason).connections[id].sharing
  {
    if s.stream.Some? {
      var records := [SessionRecord(s.stream.value.id, s.stream.value.owner, s.stream.value.frames,
                                    s.stream.value.gaps, reason)]
                     + s.history;
      forall i | 0 <= i < |records| ensures records[i].id == Ended(s) + 1 - i {
      }
    }
  }

  lemma StartAccounted(s: Inner, owner: Option<ConnectionId>, config: StreamConfig, now: real)
    requires Accounted(s)
    ensures Accounted(Started(s, owner, config, now))
  {
    FinishAccounted(s, "replaced");
    var f := if s.stream.Some? then Finish(s, "replaced") else s;
    assert Accounted(f) && f.stream.None? && Ended(f) == f.nextSession - 1;
    BeginAccounted(f, owner, config, now);
  }

  lemma BeginAccounted(f: Inner, owner: Option<ConnectionId>, config: StreamConfig, now: real)
    requires Accounted(f) && f.stream.None?
    ensures Accounted(Started(f, owner, config, now))
  {
  }

  lemma ClosedAccounted(s: Inner, id: ConnectionId, now: real)
    requires Accounted(s)
    ensures Accounted(Closed(s, id, now))
  {
    hide Finish;
    var s' := s.(clockSyncs := s.clockSyncs - {id},
                 connections := if id in s.connections then s.connections[id := Connection(false, false, now)]
                                else s.connections);
    assert Accounted(s');
    FinishAccounted(s', "disconnect");
  }

  lemma ApplyAccounted(s: Inner, op: Op)
    requires Accounted(s)
    ensures Accounted(Apply(s, op))
  {
    hide Finish, Started, Closed;
    match op
    case StopOp(reason) => FinishAccounted(s, reason);
    case StartOp(owner, config, now) => StartAccounted(s, owner, config, now);
    case ClosedOp(id, now) => ClosedAccounted(s, id, now);
    case _ =>
  }

  /** Over every run: identifiers increase by one per session; every ended session is in the
      history exactly once until the cap; only the active owner is sharing; every clock
      synchronisation belongs to a connected connection. */
  lemma {:induction false} RunAccounted(ops: seq<Op>)
    ensures Accounted(Run(ops))
  {
    if ops == [] {
    } else {
      RunAccounted(ops[..|ops| - 1]);
      ApplyAccounted(Run(ops[..|ops| - 1]), ops[|ops| - 1]);
    }
  }

  /** A started session is active or in the history, exactly once, until the cap. */
  lemma EachSessionOnce(ops: seq<Op>, id: nat)
    requires 1 <= id < Run(ops).nextSession && Ended(Run(ops)) <= MAX_HISTORY
    ensures var s := Run(ops);
            var active := s.stream.Some? && s.stream.value.id == id;
            var filed := exists i :: 0 <= i < |s.history| && s.history[i].id == id;
            active != filed
            && forall i, j :: 0 <= i < j < |s.history| ==> s.history[i].id != s.history[j].id
  {
    RunAccounted(ops);
    var s := Run(ops);
    if !(s.stream.Some? && s.stream.value.id == id) {
      assert s.history[Ended(s) - id].id == id;
    }
  }

  // ---- frames ----

  /** The frame numbers recorded since the active session started. */
  function FrameNumbers(ops: seq<Op>): seq<nat>
  {
    if ops == [] then [] else
    var before := ops[..|ops| - 1];
    var last := ops[|ops| - 1];
    if Run(ops).stream.None? || last.StartOp? then []
    else if last.FrameOp? then FrameNumbers(before) + [last.number]
    else FrameNumbers(before)
  }

  function GapSum(numbers: seq<nat>): nat
  {
    if |numbers| <= 1 then 0
    else GapSum(numbers[..|numbers| - 1]) + Gap(Some(numbers[|numbers| - 2]), numbers[|numbers| - 1])
  }

  ghost predicate Counts(s: Inner, n: seq<nat>)
  {
    s.stream.Some? ==>
      && s.stream.value.frames == |n| && s.stream.value.gaps == GapSum(n)
      && s.stream.value.lastNumber == (if n == [] then None else Some(n[|n| - 1]))
  }

  lemma FrameCounts(s: Inner, n: seq<nat>, number: nat, now: real)
    requires Counts(s, n) && s.stream.Some?
    ensures Counts(FrameRecorded(s, number, now), n + [number])
  {
    assert (n + [number])[..|n|] == n;
  }

  /** No other operation touches the counts of the active session. */
  lemma OtherOpsKeepCounts(s: Inner, op: Op, n: seq<nat>)
    requires Counts(s, n) && !op.FrameOp? && !op.StartOp?
    ensures Counts(Apply(s, op), n)
  {
    hide GapSum;
  }

  lemma {:induction false} StreamCounts(ops: seq<Op>)
    ensures Counts(Run(ops), FrameNumbers(ops))
  {
    if ops == [] {
    } else {
      var before := ops[..|ops| - 1];
      var last := ops[|ops| - 1];
      StreamCounts(before);
      if last.FrameOp? {
        if Run(before).stream.Some? { FrameCounts(Run(before), FrameNumbers(before), last.number, last.now); }
      } else if !last.StartOp? {
        OtherOpsKeepCounts(Run(before), last, FrameNumbers(before));
      }
    }
  }

  ghost predicate StrictlyIncreasing(numbers: seq<nat>)
  {
    (forall i :: 0 <= i < |numbers| ==> numbers[i] < 0x1_0000_0000)
    && forall i :: 0 < i < |numbers| ==> numbers[i - 1] < numbers[i]
  }

  lemma {:induction false} GapsFill(numbers: seq<nat>)
    requires numbers != [] && StrictlyIncreasing(numbers)
    ensures |numbers| + GapSum(numbers) == numbers[|numbers| - 1] as int - numbers[0] + 1
  {
    hide Gap;
    if |numbers| <= 1 {
    } else {
      GapsFill(numbers[..|numbers| - 1]);
      GapOfIncrease(numbers[|numbers| - 2], numbers[|numbers| - 1]);
    }
  }

  lemma GapOfIncrease(last: nat, number: nat)
    requires last < number < 0x1_0000_0000
    ensures Gap(Some(last), number) == number - last - 1
  {
  }

  /** For strictly increasing frame numbers, frames and gaps together cover the range seen. */
  lemma FramesAndGaps(ops: seq<Op>)
    requires Run(ops).stream.Some? && FrameNumbers(ops) != [] && StrictlyIncreasing(FrameNumbers(ops))
    ensures var t := Run(ops).stream.value;
            var n := FrameNumbers(ops);
            t.frames + t.gaps == n[|n| - 1] as int - n[0] + 1
  {
    StreamCounts(ops);
    GapsFill(FrameNumbers(ops));
  }

  /** Across the top of the 32-bit range the wrapped arithmetic still counts the numbers
      skipped from zero on. */
  lemma GapAcrossWrap(number: nat)
    requires number < 0x1_0000_0000
    ensures Gap(Some(0xFFFF_FFFF), number) == number
  {
    assert (0xFFFF_FFFF + 1) % 0x1_0000_0000 == 0;
    assert (number - 0xFFFF_FFFF - 1) % 0x1_0000_0000 == number;
  }

  // ---- estimates ----

  /** Phases that are non-negative, with a total that is their exact sum and in range. */
  predicate Exact(r: Report)
  {
    && LatencyRuns.NonNegative(r.components) && r.components.totalMs == PhaseSum(r.components)
    && r.components.totalMs <= ESTIMATED_LATENCY_MAX_MS && r.transportQueueMs == Aggregate(r.components)
  }

  ghost predicate EstimateNonNegative(s: Inner)
  {
    s.stream.Some? && s.stream.value.estimate.Some?
    ==> LatencyRuns.NonNegative(s.stream.value.estimate.value.components)
  }

  lemma OwnEstimateExact(s: Inner, number: nat, t: PhaseTiming, displayFps: nat, now: real)
    requires EstimateNonNegative(s) && t.encodeDurationMs >= 0.0
    ensures var r := OwnEstimate(s, number, t, displayFps, now); r.Some? ==> Exact(r.value)
  {
    var r := OwnEstimate(s, number, t, displayFps, now);
    if r.Some? && s.stream.value.estimate.Some? {
      var p := s.stream.value.estimate.value.components;
      var sync := s.clockSyncs[s.stream.value.owner.value];
      LatencyRuns.BlendBetween(0.25, p.encodeMs, t.encodeDurationMs);
      LatencyRuns.BlendBetween(0.25, p.senderQueueMs, MaxReal(0.0, SenderQueueRaw(t)));
      LatencyRuns.BlendBetween(0.25, p.deliveryMs, MaxReal(0.0, DeliveryRaw(t, sync.offsetMs)));
      LatencyRuns.BlendBetween(0.25, p.receiverQueueMs, t.receiverQueueMs);
    }
  }

  predicate EncodesForward(op: Op) { op.EstimateOp? ==> op.timing.encodeDurationMs >= 0.0 }

  lemma {:induction false} EstimatesNonNegative(ops: seq<Op>)
    requires forall i :: 0 <= i < |ops| ==> EncodesForward(ops[i])
    ensures EstimateNonNegative(Run(ops))
  {
    if ops == [] {
    } else {
      var before := Run(ops[..|ops| - 1]);
      EstimatesNonNegative(ops[..|ops| - 1]);
      match ops[|ops| - 1] {
        case EstimateOp(number, t, fps, now) =>
          assert EncodesForward(ops[|ops| - 1]);
          OwnEstimateExact(before, number, t, fps, now);
        case _ =>
      }
    }
  }

  /** Over every run, an estimate the receiver computes itself has non-negative phases that
      sum exactly to a total of at most 30 seconds. */
  lemma ReceiverEstimatesExact(ops: seq<Op>, number: nat, t: PhaseTiming, displayFps: nat, now: real)
    requires forall i :: 0 <= i < |ops| ==> EncodesForward(ops[i])
    requires t.encodeDurationMs >= 0.0
    ensures var r := OwnEstimate(Run(ops), number, t, displayFps, now); r.Some? ==> Exact(r.value)
  {
    EstimatesNonNegative(ops);
    OwnEstimateExact(Run(ops), number, t, displayFps, now);
  }

  // ---- the sender's reports ----

  function OrZero(o: Option<real>): real { match o case None => 0.0 case Some(x) => x }

  function OrNone(o: Option<nat>): nat { match o case None => 0 case Some(n) => n }

  function DetailsOf(p: PreparedSample): Details
  {
    Details(OrZero(p.diagnostics.writeBlockedMs), p.clockUncertaintyMs, p.clockAgeMs,
            OrZero(p.diagnostics.configuredBitrateMbps), OrZero(p.diagnostics.adaptiveBitrateMbps),
            OrZero(p.diagnostics.effectiveFps),
            OrNone(p.diagnostics.accessUnitBytes), OrNone(p.diagnostics.droppedInputFrames))
  }

  /** The report built from a smoothed estimate. */
  function ReportOf(number: nat, c: Components, details: Details): Report
  {
    Report(number, c, c.senderQueueMs + c.deliveryMs + c.receiverQueueMs, details)
  }

  /** What the sender reports for a prepared sample that is the first after a reset. */
  function FirstReport(alpha: real, p: PreparedSample): Report
    requires p.number > 0
  {
    ReportOf(p.number, Smoothed(alpha, None, p.components), DetailsOf(p))
  }

  /** After any updates the sender's report passes both sum checks; it passes all of the
      checks exactly when its total and its details are in range. */
  lemma SmoothedReportPasses(alpha: real, samples: seq<Components>, number: nat, details: Details)
    requires 0.0 <= alpha <= 1.0 && samples != [] && number != 0
    requires forall i :: 0 <= i < |samples| ==>
                           samples[i].totalMs == PhaseSum(samples[i]) && LatencyRuns.NonNegative(samples[i])
    ensures var c := LatencyRuns.SmoothedAfter(alpha, samples).value;
            var r := ReportOf(number, c, details);
            SumsAgree(r) && (Believable(r) <==> c.totalMs <= ESTIMATED_LATENCY_MAX_MS && DetailsInRange(details))
  {
    LatencyRuns.SmoothingKeepsSum(alpha, samples);
    Believed(number, LatencyRuns.SmoothedAfter(alpha, samples).value, details);
  }

  lemma Believed(number: nat, c: Components, details: Details)
    requires number != 0 && c.totalMs == PhaseSum(c) && LatencyRuns.NonNegative(c)
    ensures SumsAgree(ReportOf(number, c, details))
    ensures Believable(ReportOf(number, c, details))
            <==> c.totalMs <= ESTIMATED_LATENCY_MAX_MS && DetailsInRange(details)
  {
    hide DetailsInRange;
  }

  function PipelineMs(s: PhaseTiming, clock: ClockEstimate): real
  {
    s.encodeDurationMs + MaxReal(0.0, SenderQueueRaw(s)) + MaxReal(0.0, DeliveryRaw(s, clock.offsetMs))
    + s.receiverQueueMs
  }

  lemma CalculatedExactly(s: PhaseTiming, clock: ClockEstimate, displayFps: real)
    requires InRange(s, clock, displayFps) && Guarded(s, clock)
    ensures var c := CalculateComponents(s, clock, displayFps);
            && (c.Some? <==> PipelineMs(s, clock) <= MAX_PIPELINE_DURATION_MS)
            && (c.Some? ==> c.value.totalMs == PipelineMs(s, clock) + 1000.0 / displayFps)
  {
  }

  /** The sender bounds the pipeline at 30 s and then adds the display interval. Whatever sample
      it prepares, the first report made of it is believed exactly when the pipeline leaves room
      for that interval and the details are in range. */
  lemma FirstReportBelieved(c: Coordination, samples: seq<ClockSample>, now: real, displayFps: real, alpha: real)
    requires c.pending.Some? && c.pending.value.number > 0 && Prepared(c, samples, now, displayFps).1.Some?
    ensures var p := Prepared(c, samples, now, displayFps).1.value;
            var clock := Estimated(samples, now).value;
            && p.number == c.pending.value.number
            && (Believable(FirstReport(alpha, p)) <==>
                  && PipelineMs(c.pending.value.timing, clock) <= ESTIMATED_LATENCY_MAX_MS - 1000.0 / displayFps
                  && DetailsInRange(DetailsOf(p)))
  {
    var clock, s := Estimated(samples, now).value, c.pending.value.timing;
    var p := Prepared(c, samples, now, displayFps).1.value;
    assert CalculateComponents(s, clock, displayFps) == Some(p.components);
    CalculatedExactly(s, clock, displayFps);
    LatencyRuns.PhasesAddUp(s, clock, displayFps);
    hide Prepared, CalculateComponents, PipelineMs, Believable, DetailsInRange, DetailsOf;
    Believed(p.number, p.components, DetailsOf(p));
  }

  /** A sample with the clock and the frame rate that it is measured with. */
  datatype Measurement = Measurement(timing: PhaseTiming, clock: ClockEstimate, displayFps: real)

  function ComponentsOf(m: Measurement): Option<Components> { CalculateComponents(m.timing, m.clock, m.displayFps) }

  /** The pipeline leaves room for the display interval. */
  predicate LeavesRoom(m: Measurement)
  {
    && InRange(m.timing, m.clock, m.displayFps) && Guarded(m.timing, m.clock)
    && PipelineMs(m.timing, m.clock) <= ESTIMATED_LATENCY_MAX_MS - 1000.0 / m.displayFps
  }

  lemma RoomMeasured(m: Measurement)
    requires LeavesRoom(m)
    ensures ComponentsOf(m).Some?
    ensures var c := ComponentsOf(m).value;
            c.totalMs == PhaseSum(c) && LatencyRuns.NonNegative(c) && c.totalMs <= ESTIMATED_LATENCY_MAX_MS
  {
    CalculatedExactly(m.timing, m.clock, m.displayFps);
    LatencyRuns.PhasesAddUp(m.timing, m.clock, m.displayFps);
    hide CalculateComponents, PipelineMs, Guarded;
  }

  /** As long as every measured sample leaves room for the display interval, every report of the
      smoothed phases is believed exactly when its details are in range. */
  lemma RoomyReportsBelieved(alpha: real, measured: seq<Measurement>, samples: seq<Components>, number: nat,
                             details: Details)
    requires 0.0 <= alpha <= 1.0 && measured != [] && number != 0 && |samples| == |measured|
    requires forall i :: 0 <= i < |measured| ==>
                           LeavesRoom(measured[i]) && ComponentsOf(measured[i]) == Some(samples[i])
    ensures var c := LatencyRuns.SmoothedAfter(alpha, samples).value;
            Believable(ReportOf(number, c, details)) <==> DetailsInRange(details)
  {
    hide LeavesRoom, ComponentsOf, Believable, DetailsInRange;
    forall i | 0 <= i < |samples|
      ensures samples[i].totalMs == PhaseSum(samples[i]) && LatencyRuns.NonNegative(samples[i])
      ensures samples[i].totalMs <= ESTIMATED_LATENCY_MAX_MS
    {
      RoomMeasured(measured[i]);
    }
    LatencyRuns.SmoothedWithin(alpha, samples, ESTIMATED_LATENCY_MAX_MS);
    SmoothedReportPasses(alpha, samples, number, details);
  }

  /** A sample that was encoded for a while and then waited at the receiver. */
  function Waited(captureMs: real, encodeMs: real, waitMs: real): PhaseTiming
  {
    PhaseTiming(captureMs, encodeMs, captureMs + encodeMs, captureMs + encodeMs, waitMs)
  }

  lemma ExactClock(at: real, now: real)
    requires at <= now
    ensures var e := Estimated(Recorded([], Exchange(at, at, at, at)), now);
            e.Some? && e.value.offsetMs == 0.0 && e.value.uncertaintyMs >= 0.0
  {
    var x := Exchange(at, at, at, at);
    assert Recorded([], x) == [SampleOf(x)];
    assert Best([SampleOf(x)]) == SampleOf(x);
  }

  /** A sample with a pipeline between the two limits is prepared by the sender, with a clock
      that is exact, and its report is refused by the receiver. */
  lemma LongReportRejected(number: nat, captureMs: real, encodeMs: real, waitMs: real, at: real, now: real,
                           displayFps: real, alpha: real, diagnostics: Diagnostics)
    requires number > 0 && captureMs > 0.0 && encodeMs >= 0.0 && waitMs >= 0.0 && 1.0 <= displayFps <= 240.0
    requires ESTIMATED_LATENCY_MAX_MS - 1000.0 / displayFps < encodeMs + waitMs <= MAX_PIPELINE_DURATION_MS
    requires at <= now && captureMs + encodeMs <= now <= captureMs + MAX_SAMPLE_AGE_MS
    ensures var c := Acknowledged(Coordination(None, None),
                                  PendingSample(number, Waited(captureMs, encodeMs, waitMs), diagnostics));
            var p := Prepared(c, Recorded([], Exchange(at, at, at, at)), now, displayFps).1;
            p.Some? && p.value.number == number && !Believable(FirstReport(alpha, p.value))
  {
    var samples := Recorded([], Exchange(at, at, at, at));
    var timing := Waited(captureMs, encodeMs, waitMs);
    var c := Acknowledged(Coordination(None, None), PendingSample(number, timing, diagnostics));
    ExactClock(at, now);
    hide Recorded, Estimated, Believable, FirstReport, DetailsInRange;
    var clock := Estimated(samples, now).value;
    CalculatedExactly(timing, clock, displayFps);
    hide CalculateComponents;
    assert PipelineMs(timing, clock) == encodeMs + waitMs;
    FirstReportBelieved(c, samples, now, displayFps, alpha);
  }
}
