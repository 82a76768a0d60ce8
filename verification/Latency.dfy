/** Latency measurement at the sender: capture-time tracking, clock synchronisation (after
    section 8 of RFC 5905), phase calculation, smoothing and report pacing. Times are real
    milliseconds in exact arithmetic. */
module Latency {
  import opened Prelude

  const MAX_TRACKED_FRAMES := 64
  const MAX_SAMPLE_AGE_MS := 30000.0
  const MAX_PIPELINE_DURATION_MS := 30000.0
  const MIN_REPORT_INTERVAL_MS := 1000.0
  const CLOCK_SAMPLE_LIMIT := 8
  const CLOCK_DRIFT_MS_PER_MS := 0.00005

  function MaxReal(a: real, b: real): real { if a < b then b else a }

  function Abs(x: real): real { if x < 0.0 then -x else x }

  // ---- capture times by timestamp ----

  /** One entry of the map, which keeps its keys in insertion order. */
  datatype Entry = Entry(timestamp: int, captures: seq<real>)

  datatype Tracker = Tracker(entries: seq<Entry>, tracked: int)

  datatype EncoderTiming = EncoderTiming(captureTimeMs: real, encodeDurationMs: real)

  function Keyed(timestamp: int): Entry -> bool { (e: Entry) => e.timestamp == timestamp }

  /** Takes the head of entry i, and drops the entry if that empties it. */
  function ShiftAt(entries: seq<Entry>, i: nat): seq<Entry>
    requires i < |entries|
  {
    var rest := if entries[i].captures == [] then [] else entries[i].captures[1..];
    if rest == [] then Without(entries, i) else entries[i := entries[i].(captures := rest)]
  }

  function Evicted(t: Tracker): Tracker
    decreases t.tracked
  {
    if t.tracked <= MAX_TRACKED_FRAMES || t.entries == [] then t
    else Evicted(Tracker(ShiftAt(t.entries, 0), t.tracked - 1))
  }

  function Pushed(entries: seq<Entry>, timestamp: int, captureTimeMs: real): seq<Entry>
  {
    var i := Position(Keyed(timestamp), entries);
    if i < |entries| then entries[i := entries[i].(captures := entries[i].captures + [captureTimeMs])]
    else entries + [Entry(timestamp, [captureTimeMs])]
  }

  function Marked(t: Tracker, timestamp: int, captureTimeMs: real): Tracker
  {
    Evicted(Tracker(Pushed(t.entries, timestamp, captureTimeMs), t.tracked + 1))
  }

  function Resolved(t: Tracker, timestamp: int, encodedAtMs: real): (Tracker, Option<EncoderTiming>)
  {
    var i := Position(Keyed(timestamp), t.entries);
    if i == |t.entries| || t.entries[i].captures == [] then (t, None) else
    var capture := t.entries[i].captures[0];
    (Tracker(ShiftAt(t.entries, i), t.tracked - 1),
     Some(EncoderTiming(capture, MaxReal(0.0, encodedAtMs - capture))))
  }

  class EncoderTimingTracker {
    var captures: seq<Entry>
    var trackedFrames: int

    function View(): Tracker
      reads this
    {
      Tracker(captures, trackedFrames)
    }

    constructor ()
      ensures View() == Tracker([], 0)
    {
      captures, trackedFrames := [], 0;
    }

    method Mark(timestamp: int, captureTimeMs: real)
      modifies this
      ensures View() == Marked(old(View()), timestamp, captureTimeMs)
    {
      var i := Position(Keyed(timestamp), captures);
      if i < |captures| {
        captures := captures[i := captures[i].(captures := captures[i].captures + [captureTimeMs])];
      } else {
        captures := captures + [Entry(timestamp, [captureTimeMs])];
      }
      trackedFrames := trackedFrames + 1;
      while trackedFrames > MAX_TRACKED_FRAMES
        invariant Evicted(View()) == Marked(old(View()), timestamp, captureTimeMs)
      {
        if captures == [] { break; }
        captures := ShiftAt(captures, 0);
        trackedFrames := trackedFrames - 1;
      }
    }

    method Resolve(timestamp: int, encodedAtMs: real) returns (timing: Option<EncoderTiming>)
      modifies this
      ensures (View(), timing) == Resolved(old(View()), timestamp, encodedAtMs)
    {
      var i := Position(Keyed(timestamp), captures);
      if i == |captures| || captures[i].captures == [] { return None; }
      var captureTimeMs := captures[i].captures[0];
      captures := ShiftAt(captures, i);
      trackedFrames := trackedFrames - 1;
      return Some(EncoderTiming(captureTimeMs, MaxReal(0.0, encodedAtMs - captureTimeMs)));
    }

    method Reset()
      modifies this
      ensures View() == Tracker([], 0)
    {
      captures, trackedFrames := [], 0;
    }
  }

  // ---- clock synchronisation ----

  datatype ClockEstimate = ClockEstimate(offsetMs: real, uncertaintyMs: real, sampledAtMs: real)

  datatype ClockSample = ClockSample(offsetMs: real, uncertaintyMs: real, sampledAtMs: real, delayMs: real)

  datatype Exchange = Exchange(t0: real, s1: real, s2: real, t3: real)

  function Delay(x: Exchange): real { x.t3 - x.t0 - (x.s2 - x.s1) }

  predicate Plausible(x: Exchange)
  {
    x.s2 - x.s1 >= 0.0 && 0.0 <= Delay(x) <= MAX_SAMPLE_AGE_MS
  }

  function SampleOf(x: Exchange): ClockSample
  {
    ClockSample(((x.s1 - x.t0) + (x.s2 - x.t3)) / 2.0, Delay(x) / 2.0, x.t3, Delay(x))
  }

  function Recorded(samples: seq<ClockSample>, x: Exchange): seq<ClockSample>
  {
    if !Plausible(x) then samples else
    var pushed := samples + [SampleOf(x)];
    if |pushed| > CLOCK_SAMPLE_LIMIT then pushed[1..] else pushed
  }

  /** The first sample of least delay. */
  function Best(samples: seq<ClockSample>): (best: ClockSample)
    requires samples != []
    ensures best in samples && forall s :: s in samples ==> best.delayMs <= s.delayMs
  {
    if |samples| == 1 then samples[0] else
    var before := Best(samples[..|samples| - 1]);
    var last := samples[|samples| - 1];
    assert samples == samples[..|samples| - 1] + [last];
    if last.delayMs < before.delayMs then last else before
  }

  function Estimated(samples: seq<ClockSample>, now: real): Option<ClockEstimate>
  {
    if samples == [] then None else
    var best := Best(samples);
    var age := now - best.sampledAtMs;
    if age < 0.0 then None
    else Some(ClockEstimate(best.offsetMs, best.uncertaintyMs + age * CLOCK_DRIFT_MS_PER_MS, best.sampledAtMs))
  }

  class ClockSynchronizer {
    var samples: seq<ClockSample>

    constructor ()
      ensures samples == []
    {
      samples := [];
    }

    method Record(x: Exchange) returns (estimate: Option<ClockEstimate>)
      modifies this
      ensures samples == Recorded(old(samples), x)
      ensures estimate == if Plausible(x) then Estimated(samples, x.t3) else None
    {
      var serverWorkMs := x.s2 - x.s1;
      var delayMs := x.t3 - x.t0 - serverWorkMs;
      if serverWorkMs < 0.0 || delayMs < 0.0 || delayMs > MAX_SAMPLE_AGE_MS { return None; }
      samples := samples + [ClockSample(((x.s1 - x.t0) + (x.s2 - x.t3)) / 2.0, delayMs / 2.0, x.t3, delayMs)];
      if |samples| > CLOCK_SAMPLE_LIMIT { samples := samples[1..]; }
      estimate := Estimate(x.t3);
    }

    method Estimate(nowMs: real) returns (estimate: Option<ClockEstimate>)
      ensures estimate == Estimated(samples, nowMs)
    {
      if samples == [] { return None; }
      var best := samples[0];
      assert samples[..1] == [best];
      for i := 1 to |samples|
        invariant best == Best(samples[..i])
      {
        assert samples[..i + 1][..i] == samples[..i];
        if samples[i].delayMs < best.delayMs { best := samples[i]; }
      }
      assert samples[..|samples|] == samples;
      var ageMs := nowMs - best.sampledAtMs;
      if ageMs < 0.0 { return None; }
      return Some(ClockEstimate(best.offsetMs, best.uncertaintyMs + ageMs * CLOCK_DRIFT_MS_PER_MS, best.sampledAtMs));
    }

    method Reset()
      modifies this
      ensures samples == []
    {
      samples := [];
    }
  }

  // ---- phases ----

  datatype Components = Components(totalMs: real, encodeMs: real, senderQueueMs: real, deliveryMs: real,
                                   receiverQueueMs: real, decodeDisplayMs: real)

  datatype PhaseTiming = PhaseTiming(captureTimeMs: real, encodeDurationMs: real, sendStartTimeMs: real,
                                     receiverCompleteTimeMs: real, receiverQueueMs: real)

  function PhaseSum(c: Components): real
  {
    c.encodeMs + c.senderQueueMs + c.deliveryMs + c.receiverQueueMs + c.decodeDisplayMs
  }

  function SenderQueueRaw(s: PhaseTiming): real { s.sendStartTimeMs - s.captureTimeMs - s.encodeDurationMs }

  function DeliveryRaw(s: PhaseTiming, offsetMs: real): real { s.receiverCompleteTimeMs - offsetMs - s.sendStartTimeMs }

  predicate InRange(s: PhaseTiming, clock: ClockEstimate, displayFps: real)
  {
    && 0.0 <= s.encodeDurationMs <= MAX_PIPELINE_DURATION_MS && s.receiverQueueMs >= 0.0
    && 1.0 <= displayFps <= 240.0 && clock.uncertaintyMs >= 0.0
  }

  /** A phase may be negative only within the uncertainty. */
  predicate Guarded(s: PhaseTiming, clock: ClockEstimate)
  {
    SenderQueueRaw(s) >= -clock.uncertaintyMs && DeliveryRaw(s, clock.offsetMs) >= -clock.uncertaintyMs
  }

  function CalculateComponents(s: PhaseTiming, clock: ClockEstimate, displayFps: real): Option<Components>
  {
    if !InRange(s, clock, displayFps) || !Guarded(s, clock) then None else
    var senderQueueMs := MaxReal(0.0, SenderQueueRaw(s));
    var deliveryMs := MaxReal(0.0, DeliveryRaw(s, clock.offsetMs));
    var pipelineMs := s.encodeDurationMs + senderQueueMs + deliveryMs + s.receiverQueueMs;
    if pipelineMs > MAX_PIPELINE_DURATION_MS then None else
    var decodeDisplayMs := 1000.0 / displayFps;
    Some(Components(pipelineMs + decodeDisplayMs, s.encodeDurationMs, senderQueueMs, deliveryMs, s.receiverQueueMs,
                    decodeDisplayMs))
  }

  // ---- smoothing ----

  function Blend(alpha: real, previous: real, next: real): real { previous + alpha * (next - previous) }

  function Smoothed(alpha: real, value: Option<Components>, sample: Components): Components
  {
    match value
    case None => sample
    case Some(v) =>
      Components(Blend(alpha, v.totalMs, sample.totalMs), Blend(alpha, v.encodeMs, sample.encodeMs),
                 Blend(alpha, v.senderQueueMs, sample.senderQueueMs), Blend(alpha, v.deliveryMs, sample.deliveryMs),
                 Blend(alpha, v.receiverQueueMs, sample.receiverQueueMs),
                 Blend(alpha, v.decodeDisplayMs, sample.decodeDisplayMs))
  }

  class LatencySmoother {
    const alpha: real
    var value: Option<Components>

    constructor (alpha: real)
      ensures this.alpha == alpha && value == None
    {
      this.alpha := alpha;
      value := None;
    }

    method Update(sample: Components) returns (smoothed: Components)
      modifies this
      ensures smoothed == Smoothed(alpha, old(value), sample) && value == Some(smoothed)
    {
      if value.None? {
        value := Some(sample);
        return sample;
      }
      var v := value.value;
      value := Some(Components(Blend(alpha, v.totalMs, sample.totalMs), Blend(alpha, v.encodeMs, sample.encodeMs),
                               Blend(alpha, v.senderQueueMs, sample.senderQueueMs),
                               Blend(alpha, v.deliveryMs, sample.deliveryMs),
                               Blend(alpha, v.receiverQueueMs, sample.receiverQueueMs),
                               Blend(alpha, v.decodeDisplayMs, sample.decodeDisplayMs)));
      return value.value;
    }

    method Reset()
      modifies this
      ensures value == None
    {
      value := None;
    }
  }

  // ---- report pacing ----

  /** What travels with a sample besides its timing, where it is known. */
  datatype Diagnostics = Diagnostics(accessUnitBytes: Option<nat>, writeBlockedMs: Option<real>,
                                     droppedInputFrames: Option<nat>, configuredBitrateMbps: Option<real>,
                                     adaptiveBitrateMbps: Option<real>, effectiveFps: Option<real>)

  datatype PendingSample = PendingSample(number: int, timing: PhaseTiming, diagnostics: Diagnostics)

  datatype PreparedSample =
    PreparedSample(number: int, components: Components, clockUncertaintyMs: real, clockAgeMs: real,
                   diagnostics: Diagnostics)

  datatype Coordination = Coordination(pending: Option<PendingSample>, lastReportAt: Option<real>)

  /** A sample is late, or from the future, beyond the uncertainty. */
  predicate Unusable(s: PhaseTiming, e: ClockEstimate, now: real)
  {
    || s.captureTimeMs > now + e.uncertaintyMs
    || s.receiverCompleteTimeMs - e.offsetMs > now + e.uncertaintyMs
    || now - s.captureTimeMs > MAX_SAMPLE_AGE_MS
  }

  function Acknowledged(c: Coordination, sample: PendingSample): Coordination
  {
    if sample.number > 0 then c.(pending := Some(sample)) else c
  }

  function Prepared(c: Coordination, samples: seq<ClockSample>, now: real, displayFps: real)
    : (Coordination, Option<PreparedSample>)
  {
    var estimate := Estimated(samples, now);
    if c.pending.None? || estimate.None? then (c, None)
    else if c.lastReportAt.Some? && now - c.lastReportAt.value < MIN_REPORT_INTERVAL_MS then (c, None) else
    var p := c.pending.value;
    var e := estimate.value;
    var taken := c.(pending := None);
    if Unusable(p.timing, e, now) then (taken, None) else
    match CalculateComponents(p.timing, e, displayFps)
    case None => (taken, None)
    case Some(components) =>
      (taken.(lastReportAt := Some(now)),
       Some(PreparedSample(p.number, components, e.uncertaintyMs, now - e.sampledAtMs, p.diagnostics)))
  }

  class LatencySampleCoordinator {
    var pending: Option<PendingSample>
    var lastReportAtMs: Option<real>
    const clock: ClockSynchronizer

    function View(): Coordination
      reads this
    {
      Coordination(pending, lastReportAtMs)
    }

    constructor ()
      ensures View() == Coordination(None, None) && fresh(clock) && clock.samples == []
    {
      pending, lastReportAtMs := None, None;
      clock := new ClockSynchronizer();
    }

    method Acknowledge(sample: PendingSample)
      modifies this
      ensures View() == Acknowledged(old(View()), sample)
    {
      if sample.number > 0 { pending := Some(sample); }
    }

    method Prepare(nowMs: real, displayFps: real) returns (prepared: Option<PreparedSample>)
      modifies this
      ensures (View(), prepared) == Prepared(old(View()), clock.samples, nowMs, displayFps)
    {
      var estimate := clock.Estimate(nowMs);
      if pending.None? || estimate.None? { return None; }
      if lastReportAtMs.Some? && nowMs - lastReportAtMs.value < MIN_REPORT_INTERVAL_MS { return None; }
      var p := pending.value;
      var e := estimate.value;
      pending := None;
      var receiverCompleteClientMs := p.timing.receiverCompleteTimeMs - e.offsetMs;
      if p.timing.captureTimeMs > nowMs + e.uncertaintyMs
         || receiverCompleteClientMs > nowMs + e.uncertaintyMs
         || nowMs - p.timing.captureTimeMs > MAX_SAMPLE_AGE_MS {
        return None;
      }
      var components := CalculateComponents(p.timing, e, displayFps);
      if components.None? { return None; }
      lastReportAtMs := Some(nowMs);
      return Some(PreparedSample(p.number, components.value, e.uncertaintyMs, nowMs - e.sampledAtMs, p.diagnostics));
    }

    method Reset()
      modifies this, clock
      ensures View() == Coordination(None, None) && clock.samples == []
    {
      pending, lastReportAtMs := None, None;
      clock.Reset();
    }
  }
}
