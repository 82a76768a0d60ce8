/** Bitrate control and input admission.

    Times and durations are real milliseconds; bitrates are integers, rounded as
    `Math.round` rounds in exact arithmetic. `Never` stands for minus infinity. */
module Congestion {
  import opened Prelude

  datatype Mode = ULL | Balanced | Quality

  datatype WindowSample = WindowSample(atMs: real, senderQueueMs: real, writeBlockedMs: real)

  datatype InputSample = InputSample(atMs: real, limited: bool)

  datatype Instant = Never | At(ms: real)

  /** now - last >= gap, with minus infinity for a time that never was. */
  predicate Elapsed(now: real, last: Instant, gap: real)
  {
    last.Never? || now - last.ms >= gap
  }

  function Limit(mode: Mode): nat
  {
    match mode case ULL => 1 case Balanced => 2 case Quality => 8
  }

  function Floor(ceiling: int): int { Round(4 * ceiling, 10) }

  function StepSize(ceiling: int): int { Round(ceiling, 10) }

  function Lowered(ceiling: int, current: int): int { Max(Floor(ceiling), Round(8 * current, 10)) }

  function Raised(ceiling: int, current: int): int { Min(ceiling, current + StepSize(ceiling)) }

  // ---- the percentile ----

  function Insert(x: real, s: seq<real>): (r: seq<real>)
    ensures multiset(r) == multiset(s) + multiset{x}
  {
    if s == [] || x <= s[0] then [x] + s
    else
      assert s == [s[0]] + s[1..];
      [s[0]] + Insert(x, s[1..])
  }

  /** The values in ascending order. */
  function Sorted(s: seq<real>): (r: seq<real>)
    ensures multiset(r) == multiset(s) && |r| == |s|
  {
    if s == [] then []
    else
      assert s == [s[0]] + s[1..];
      var r := Insert(s[0], Sorted(s[1..]));
      SameSize(r, s);
      r
  }

  lemma SameSize(a: seq<real>, b: seq<real>)
    requires multiset(a) == multiset(b)
    ensures |a| == |b|
  {
    assert |multiset(a)| == |a| && |multiset(b)| == |b|;
  }

  ghost predicate Ascending(s: seq<real>)
  {
    forall i, j :: 0 <= i < j < |s| ==> s[i] <= s[j]
  }

  lemma PrependAscending(x: real, s: seq<real>)
    requires Ascending(s) && forall k :: 0 <= k < |s| ==> x <= s[k]
    ensures Ascending([x] + s)
  {
  }

  lemma {:induction false} InsertAscending(x: real, s: seq<real>)
    requires Ascending(s)
    ensures Ascending(Insert(x, s))
  {
    if s != [] && x > s[0] {
      InsertAscending(x, s[1..]);
      var r := Insert(x, s[1..]);
      forall k | 0 <= k < |r| ensures s[0] <= r[k] {
        assert r[k] in multiset(r);
        assert r[k] == x || r[k] in s[1..];
      }
      PrependAscending(s[0], r);
    }
  }

  lemma {:induction false} SortedAscending(s: seq<real>)
    ensures Ascending(Sorted(s))
  {
    if s == [] {
    } else {
      SortedAscending(s[1..]);
      InsertAscending(s[0], Sorted(s[1..]));
    }
  }

  function P95Index(n: nat): nat
    requires n > 0
    ensures P95Index(n) < n
  {
    Min(n - 1, 95 * n / 100)
  }

  /** The 95th percentile as the controller takes it: an element of the sorted values. */
  function P95(values: seq<real>): real
  {
    if values == [] then 0.0 else Sorted(values)[P95Index(|values|)]
  }

  function CountAbove(values: seq<real>, x: real): (n: nat)
    ensures n <= |values|
  {
    if values == [] then 0 else (if values[0] > x then 1 else 0) + CountAbove(values[1..], x)
  }

  lemma {:induction false} CountAboveAppend(a: seq<real>, b: seq<real>, x: real)
    ensures CountAbove(a + b, x) == CountAbove(a, x) + CountAbove(b, x)
  {
    if a == [] {
      assert a + b == b;
    } else {
      assert (a + b)[1..] == a[1..] + b;
      CountAboveAppend(a[1..], b, x);
    }
  }

  lemma RemoveAt(s: seq<real>, i: nat)
    requires i < |s|
    ensures s == s[..i] + [s[i]] + s[i + 1..]
    ensures multiset(s[..i] + s[i + 1..]) == multiset(s) - multiset{s[i]}
  {
    assert s == s[..i] + [s[i]] + s[i + 1..];
    assert multiset(s) == multiset(s[..i]) + multiset{s[i]} + multiset(s[i + 1..]);
  }

  lemma CountRemove(s: seq<real>, i: nat, x: real)
    requires i < |s|
    ensures CountAbove(s, x) == (if s[i] > x then 1 else 0) + CountAbove(s[..i] + s[i + 1..], x)
  {
    assert s == s[..i] + s[i..];
    CountAboveAppend(s[..i], s[i..], x);
    assert s[i..][1..] == s[i + 1..];
    CountAboveAppend(s[..i], s[i + 1..], x);
  }

  /** Counting does not depend on order. */
  lemma {:induction false} CountAbovePermutation(a: seq<real>, b: seq<real>, x: real)
    requires multiset(a) == multiset(b)
    ensures CountAbove(a, x) == CountAbove(b, x)
    decreases |a|
  {
    hide CountAbove;
    SameSize(a, b);
    if a == [] {
      assert a == b;
    } else {
      assert a[0] in multiset(b);
      var i :| 0 <= i < |b| && b[i] == a[0];
      RemoveAt(a, 0);
      RemoveAt(b, i);
      CountRemove(a, 0, x);
      CountRemove(b, i, x);
      CountAbovePermutation(a[..0] + a[1..], b[..i] + b[i + 1..], x);
    }
  }

  lemma {:induction false} CountAboveSorted(s: seq<real>, k: nat, x: real)
    requires Ascending(s) && k < |s|
    ensures s[k] > x <==> CountAbove(s, x) >= |s| - k
  {
    if k == 0 {
      if s[0] > x {
        AllAbove(s, x);
      } else if |s| > 1 {
        assert CountAbove(s[1..], x) <= |s| - 1;
      }
    } else {
      assert Ascending(s[1..]);
      CountAboveSorted(s[1..], k - 1, x);
      if s[0] > x {
        assert s[0] <= s[k];
        AllAbove(s, x);
      }
    }
  }

  lemma {:induction false} AllAbove(s: seq<real>, x: real)
    requires forall i :: 0 <= i < |s| ==> s[i] > x
    ensures CountAbove(s, x) == |s|
  {
    if s != [] { AllAbove(s[1..], x); }
  }

  /** The sorted percentile test is a count: the 95th percentile exceeds a bound exactly when at
      least one value in twenty does. */
  lemma P95IsCount(values: seq<real>, x: real)
    requires values != []
    ensures P95(values) > x <==> 20 * CountAbove(values, x) >= |values|
  {
    SortedAscending(values);
    CountAboveSorted(Sorted(values), P95Index(|values|), x);
    CountAbovePermutation(Sorted(values), values, x);
  }

  // ---- the controller ----

  datatype State = State(
    mode: Mode, ceiling: int, frameIntervalMs: real,
    samples: seq<WindowSample>, inputs: seq<InputSample>,
    current: int, dropped: nat, pendingWrites: nat, congestedWindows: nat,
    healthySince: Instant, lastChange: Instant, lastEvaluation: Instant)

  function Fresh(mode: Mode, ceiling: int, frameIntervalMs: real): State
  {
    State(mode, ceiling, frameIntervalMs, [], [], ceiling, 0, 0, 0, Never, Never, Never)
  }

  function Recent(now: real): WindowSample -> bool { (s: WindowSample) => now - s.atMs <= 2000.0 }

  function RecentInput(now: real): InputSample -> bool { (s: InputSample) => now - s.atMs <= 2000.0 }

  function IsLimited(): InputSample -> bool { (s: InputSample) => s.limited }

  function QueueTimes(samples: seq<WindowSample>): seq<real>
  {
    seq(|samples|, i requires 0 <= i < |samples| => samples[i].senderQueueMs)
  }

  function BlockedTimes(samples: seq<WindowSample>): seq<real>
  {
    seq(|samples|, i requires 0 <= i < |samples| => samples[i].writeBlockedMs)
  }

  /** limited / total >= 0.1, with an empty window counting as zero. */
  predicate InputLimited(inputs: seq<InputSample>)
  {
    inputs != [] && 10 * |Filter(IsLimited(), inputs)| >= |inputs|
  }

  predicate Congested(s: State)
  {
    || P95(QueueTimes(s.samples)) > s.frameIntervalMs
    || P95(BlockedTimes(s.samples)) > s.frameIntervalMs
    || InputLimited(s.inputs)
  }

  /** The decision of one evaluation, given whether the window is congested. */
  function Decide(s: State, now: real, congested: bool): State
  {
    var windows := if congested then s.congestedWindows + 1 else 0;
    var healthy := if congested then Never else if s.healthySince.Never? then At(now) else s.healthySince;
    var d := s.(congestedWindows := windows, healthySince := healthy);
    if windows >= 2 && Elapsed(now, s.lastChange, 2000.0) then
      var next := Lowered(s.ceiling, s.current);
      if next < s.current then d.(current := next, lastChange := At(now), congestedWindows := 0)
      else d.(congestedWindows := 0)
    else if !congested && now - healthy.ms >= 10000.0 && Elapsed(now, s.lastChange, 5000.0) then
      var next := Raised(s.ceiling, s.current);
      if next > s.current then d.(current := next, lastChange := At(now)) else d
    else d
  }

  predicate Due(s: State, now: real) { Elapsed(now, s.lastEvaluation, 2000.0) }

  /** What an evaluation first does to the windows. */
  function Prepared(s: State, now: real): State
  {
    s.(lastEvaluation := At(now), inputs := Filter(RecentInput(now), s.inputs))
  }

  function Evaluated(s: State, now: real): State
  {
    if !Due(s, now) then s else
    var p := Prepared(s, now);
    Decide(p, now, Congested(p))
  }

  predicate Drops(s: State, encoderQueueSize: nat)
  {
    encoderQueueSize >= Limit(s.mode) || s.pendingWrites >= Limit(s.mode)
  }

  function AfterInput(s: State, encoderQueueSize: nat, now: real): State
  {
    var drop := Drops(s, encoderQueueSize);
    s.(inputs := Filter(RecentInput(now), s.inputs + [InputSample(now, drop)]),
       dropped := if drop then s.dropped + 1 else s.dropped)
  }

  function AfterWriteStarted(s: State): State { s.(pendingWrites := s.pendingWrites + 1) }

  function AfterWriteFinished(s: State, now: real, senderQueueMs: real, writeBlockedMs: real): State
  {
    Evaluated(WriteObserved(s, now, senderQueueMs, writeBlockedMs), now)
  }

  /** A finished write is taken off the pending ones and its delays enter the window. */
  function WriteObserved(s: State, now: real, senderQueueMs: real, writeBlockedMs: real): State
  {
    s.(pendingWrites := Max(0, s.pendingWrites - 1),
       samples := Filter(Recent(now), s.samples + [WindowSample(now, senderQueueMs, writeBlockedMs)]))
  }

  datatype Snapshot =
    Snapshot(currentBitrate: int, droppedInputFrames: nat, pendingWrites: nat, congested: bool, bitrateChanged: bool)

  /** What an evaluation reports: the figures after it, the verdict on the window if one was
      due, and whether the bitrate moved. */
  function Report(s: State, now: real): Snapshot
  {
    var e := Evaluated(s, now);
    Snapshot(e.current, e.dropped, e.pendingWrites, Due(s, now) && Congested(Prepared(s, now)), e.current != s.current)
  }

  lemma ReportShape(s: State, now: real)
    ensures Report(s, now).bitrateChanged <==> Evaluated(s, now).current != s.current
  {
    hide Evaluated;
  }

  class CongestionController {
    const mode: Mode
    const ceilingBitrate: int
    const frameIntervalMs: real
    var samples: seq<WindowSample>
    var inputSamples: seq<InputSample>
    var currentBitrate: int
    var dropped: nat
    var pendingWrites: nat
    var congestedWindows: nat
    var healthySinceMs: Instant
    var lastChangeMs: Instant
    var lastEvaluationMs: Instant

    function View(): State
      reads this
    {
      State(mode, ceilingBitrate, frameIntervalMs, samples, inputSamples, currentBitrate, dropped, pendingWrites,
            congestedWindows, healthySinceMs, lastChangeMs, lastEvaluationMs)
    }

    constructor (mode: Mode, ceilingBitrate: int, frameIntervalMs: real)
      ensures View() == Fresh(mode, ceilingBitrate, frameIntervalMs)
    {
      this.mode, this.ceilingBitrate, this.frameIntervalMs := mode, ceilingBitrate, frameIntervalMs;
      samples, inputSamples, currentBitrate, dropped, pendingWrites := [], [], ceilingBitrate, 0, 0;
      congestedWindows, healthySinceMs, lastChangeMs, lastEvaluationMs := 0, Never, Never, Never;
    }

    method ShouldDropInput(encoderQueueSize: nat, atMs: real) returns (drop: bool)
      modifies this
      ensures drop == Drops(old(View()), encoderQueueSize)
      ensures View() == AfterInput(old(View()), encoderQueueSize, atMs)
    {
      drop := encoderQueueSize >= Limit(mode) || pendingWrites >= Limit(mode);
      inputSamples := inputSamples + [InputSample(atMs, drop)];
      inputSamples := Filter(RecentInput(atMs), inputSamples);
      if drop { dropped := dropped + 1; }
    }

    method WriteStarted()
      modifies this
      ensures View() == AfterWriteStarted(old(View()))
    {
      pendingWrites := pendingWrites + 1;
    }

    method WriteFinished(atMs: real, senderQueueMs: real, writeBlockedMs: real) returns (snapshot: Snapshot)
      modifies this
      ensures View() == AfterWriteFinished(old(View()), atMs, senderQueueMs, writeBlockedMs)
      ensures snapshot == Report(WriteObserved(old(View()), atMs, senderQueueMs, writeBlockedMs), atMs)
      ensures snapshot.currentBitrate == currentBitrate && snapshot.droppedInputFrames == dropped
      ensures snapshot.pendingWrites == pendingWrites
      ensures snapshot.bitrateChanged <==> currentBitrate != old(currentBitrate)
    {
      pendingWrites := Max(0, pendingWrites - 1);
      samples := samples + [WindowSample(atMs, senderQueueMs, writeBlockedMs)];
      samples := Filter(Recent(atMs), samples);
      snapshot := Evaluate(atMs);
    }

    method Evaluate(nowMs: real) returns (snapshot: Snapshot)
      modifies this
      ensures View() == Evaluated(old(View()), nowMs)
      ensures snapshot == Report(old(View()), nowMs)
      ensures snapshot.currentBitrate == currentBitrate && snapshot.droppedInputFrames == dropped
      ensures snapshot.pendingWrites == pendingWrites
      ensures snapshot.bitrateChanged <==> currentBitrate != old(currentBitrate)
    {
      if lastEvaluationMs.At? && nowMs - lastEvaluationMs.ms < 2000.0 {
        return Snapshot(currentBitrate, dropped, pendingWrites, false, false);
      }
      lastEvaluationMs := At(nowMs);
      inputSamples := Filter(RecentInput(nowMs), inputSamples);
      assert View() == Prepared(old(View()), nowMs);
      var limited := |Filter(IsLimited(), inputSamples)|;
      var congested := P95(QueueTimes(samples)) > frameIntervalMs || P95(BlockedTimes(samples)) > frameIntervalMs
                       || (inputSamples != [] && 10 * limited >= |inputSamples|);
      assert congested == Congested(View());
      var changed := Adjust(nowMs, congested);
      return Snapshot(currentBitrate, dropped, pendingWrites, congested, changed);
    }

    method Adjust(nowMs: real, congested: bool) returns (changed: bool)
      modifies this
      ensures View() == Decide(old(View()), nowMs, congested)
      ensures changed <==> View().current != old(View()).current
    {
      congestedWindows := if congested then congestedWindows + 1 else 0;
      changed := false;
      if congested {
        healthySinceMs := Never;
      } else if healthySinceMs.Never? {
        healthySinceMs := At(nowMs);
      }
      if congestedWindows >= 2 && Elapsed(nowMs, lastChangeMs, 2000.0) {
        var floor := Round(4 * ceilingBitrate, 10);
        var next := Max(floor, Round(8 * currentBitrate, 10));
        if next < currentBitrate {
          currentBitrate := next;
          changed := true;
          lastChangeMs := At(nowMs);
        }
        congestedWindows := 0;
      } else if !congested && nowMs - healthySinceMs.ms >= 10000.0 && Elapsed(nowMs, lastChangeMs, 5000.0) {
        var next := Min(ceilingBitrate, currentBitrate + Round(ceilingBitrate, 10));
        if next > currentBitrate {
          currentBitrate := next;
          changed := true;
          lastChangeMs := At(nowMs);
        }
      }
    }

    method Reset()
      modifies this
      ensures View() == Fresh(mode, ceilingBitrate, frameIntervalMs)
    {
      samples, inputSamples, currentBitrate, dropped, pendingWrites := [], [], ceilingBitrate, 0, 0;
      congestedWindows, healthySinceMs, lastChangeMs, lastEvaluationMs := 0, Never, Never, Never;
    }
  }
}
