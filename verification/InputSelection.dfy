/** Which captured frames the sender encodes, and which of them as key frames: the input
    loop together with the write completions that change the bitrate under it. */
module InputSelection {
  import opened Prelude
  import opened Latency
  import Congestion
  import CongestionRuns
  import CongestionWindows
  import LatencyRuns

  const INITIAL_KEYFRAME_COUNT := 5

  /** 1000 / framerate - 2 milliseconds, and a key frame every so many frames. */
  datatype Settings = Settings(minIntervalMs: real, keyframeInterval: nat)

  datatype Selection = Selection(lastFrameTime: real, frameCount: nat, forceNext: bool,
                                 control: Congestion.State, tracker: Tracker)

  predicate TooSoon(config: Settings, s: Selection, now: real)
  {
    s.lastFrameTime > 0.0 && now - s.lastFrameTime < config.minIntervalMs
  }

  predicate NeedsKey(config: Settings, count: nat, forced: bool)
  {
    count <= INITIAL_KEYFRAME_COUNT || (config.keyframeInterval > 0 && count % config.keyframeInterval == 0) || forced
  }

  /** One captured frame; the result says whether it is encoded, and as a key frame. */
  function Selected(config: Settings, s: Selection, now: real, queueSize: nat, timestamp: int, captureMs: real)
    : (Selection, Option<bool>)
  {
    if TooSoon(config, s, now) then (s, None) else
    var seen := s.(lastFrameTime := now, control := Congestion.AfterInput(s.control, queueSize, now));
    if Congestion.Drops(s.control, queueSize) then (seen, None) else
    var count := s.frameCount + 1;
    (seen.(frameCount := count, forceNext := false, tracker := Marked(s.tracker, timestamp, captureMs)),
     Some(NeedsKey(config, count, s.forceNext)))
  }

  /** One completed write; a changed bitrate reconfigures the encoder and asks for a key frame. */
  function Wrote(s: Selection, now: real, senderQueueMs: real, writeBlockedMs: real, configured: bool)
    : (Selection, bool)
  {
    var control := Congestion.AfterWriteFinished(s.control, now, senderQueueMs, writeBlockedMs);
    var reconfigured := control.current != s.control.current && configured;
    (s.(control := control, forceNext := s.forceNext || reconfigured), reconfigured)
  }

  /** One encoded frame comes out: its capture time is looked up and its write is queued. */
  function Output(s: Selection, timestamp: int, encodedAtMs: real, oversize: bool): Selection
  {
    s.(tracker := Resolved(s.tracker, timestamp, encodedAtMs).0,
       control := if oversize then s.control else Congestion.AfterWriteStarted(s.control))
  }

  class InputLoop {
    const settings: Settings
    const congestion: Congestion.CongestionController
    const encoderTiming: EncoderTimingTracker
    var lastFrameTime: real
    var frameCount: nat
    var forceNextKeyframe: bool

    function View(): Selection
      reads this, congestion, encoderTiming
    {
      Selection(lastFrameTime, frameCount, forceNextKeyframe, congestion.View(), encoderTiming.View())
    }

    constructor (settings: Settings, mode: Congestion.Mode, bitrate: int, frameIntervalMs: real)
      ensures View() == Begin(mode, bitrate, frameIntervalMs) && this.settings == settings
      ensures fresh(congestion) && fresh(encoderTiming)
    {
      this.settings := settings;
      congestion := new Congestion.CongestionController(mode, bitrate, frameIntervalMs);
      encoderTiming := new EncoderTimingTracker();
      lastFrameTime, frameCount, forceNextKeyframe := 0.0, 0, false;
    }

    method OnFrame(now: real, queueSize: nat, timestamp: int, captureMs: real) returns (encoded: Option<bool>)
      modifies this, congestion, encoderTiming
      ensures (View(), encoded) == Selected(settings, old(View()), now, queueSize, timestamp, captureMs)
    {
      if lastFrameTime > 0.0 && now - lastFrameTime < settings.minIntervalMs { return None; }
      lastFrameTime := now;
      var drop := congestion.ShouldDropInput(queueSize, now);
      if drop { return None; }
      frameCount := frameCount + 1;
      var needKeyFrame := NeedsKey(settings, frameCount, forceNextKeyframe);
      forceNextKeyframe := false;
      encoderTiming.Mark(timestamp, captureMs);
      return Some(needKeyFrame);
    }

    method OnWritten(now: real, senderQueueMs: real, writeBlockedMs: real, configured: bool)
        returns (reconfigured: bool)
      modifies this`forceNextKeyframe, congestion
      ensures (View(), reconfigured) == Wrote(old(View()), now, senderQueueMs, writeBlockedMs, configured)
    {
      hide Congestion.Evaluated, Congestion.Report;
      ghost var before := congestion.View();
      Congestion.ReportShape(Congestion.WriteObserved(before, now, senderQueueMs, writeBlockedMs), now);
      var snapshot := congestion.WriteFinished(now, senderQueueMs, writeBlockedMs);
      reconfigured := snapshot.bitrateChanged && configured;
      if reconfigured { forceNextKeyframe := true; }
    }

    method OnOutput(timestamp: int, encodedAtMs: real, oversize: bool) returns (timing: Option<EncoderTiming>)
      modifies congestion, encoderTiming
      ensures View() == Output(old(View()), timestamp, encodedAtMs, oversize)
      ensures timing == Resolved(old(View()).tracker, timestamp, encodedAtMs).1
    {
      timing := encoderTiming.Resolve(timestamp, encodedAtMs);
      if !oversize { congestion.WriteStarted(); }
    }
  }

  // ---- runs ----

  datatype Op =
    | FrameOp(now: real, queueSize: nat, timestamp: int, captureMs: real)
    | WriteOp(now: real, senderQueueMs: real, writeBlockedMs: real, configured: bool)
    | OutputOp(timestamp: int, encodedAtMs: real, oversize: bool)

  /** What an observer of the encoder sees. */
  datatype Item = Encode(now: real, key: bool) | Reconfigure

  function Begin(mode: Congestion.Mode, bitrate: int, frameIntervalMs: real): Selection
  {
    Selection(0.0, 0, false, Congestion.Fresh(mode, bitrate, frameIntervalMs), Tracker([], 0))
  }

  function Apply(config: Settings, s: Selection, op: Op): (Selection, seq<Item>)
  {
    match op
    case FrameOp(now, queue, timestamp, capture) =>
      var r := Selected(config, s, now, queue, timestamp, capture);
      (r.0, match r.1 case None => [] case Some(key) => [Encode(now, key)])
    case WriteOp(now, q, b, configured) =>
      var r := Wrote(s, now, q, b, configured);
      (r.0, if r.1 then [Reconfigure] else [])
    case OutputOp(timestamp, encodedAt, oversize) => (Output(s, timestamp, encodedAt, oversize), [])
  }

  function Run(config: Settings, s: Selection, ops: seq<Op>): (Selection, seq<Item>)
  {
    if ops == [] then (s, []) else
    var before := Run(config, s, ops[..|ops| - 1]);
    var r := Apply(config, before.0, ops[|ops| - 1]);
    (r.0, before.1 + r.1)
  }

  function Encodes(log: seq<Item>): nat
  {
    if log == [] then 0 else Encodes(log[..|log| - 1]) + (if log[|log| - 1].Encode? then 1 else 0)
  }

  /** The encoder was reconfigured after the last frame it was given. */
  predicate JustReconfigured(log: seq<Item>) { log != [] && log[|log| - 1].Reconfigure? }

  /** The n-th frame is among the first five, falls on the interval, or follows a
      reconfiguration. */
  predicate KeyDue(config: Settings, n: nat, reconfigured: bool)
  {
    n <= 5 || (config.keyframeInterval > 0 && n % config.keyframeInterval == 0) || reconfigured
  }

  /** Every frame in the log is a key frame exactly when it is due. */
  ghost predicate KeysWhenDue(config: Settings, log: seq<Item>)
  {
    forall i :: 0 <= i < |log| && log[i].Encode? ==>
      (log[i].key <==> KeyDue(config, Encodes(log[..i]) + 1, JustReconfigured(log[..i])))
  }

  lemma LogGrows(config: Settings, log: seq<Item>, item: Item)
    requires KeysWhenDue(config, log)
    requires item.Encode? ==> (item.key <==> KeyDue(config, Encodes(log) + 1, JustReconfigured(log)))
    ensures KeysWhenDue(config, log + [item]) && JustReconfigured(log + [item]) == item.Reconfigure?
    ensures Encodes(log + [item]) == Encodes(log) + (if item.Encode? then 1 else 0)
  {
    hide KeyDue;
    var more := log + [item];
    assert more[..|log|] == log;
    forall i | 0 <= i < |more| && more[i].Encode?
      ensures more[i].key <==> KeyDue(config, Encodes(more[..i]) + 1, JustReconfigured(more[..i]))
    {
      if i < |log| { assert more[..i] == log[..i]; }
    }
  }

  lemma ApplyKeys(config: Settings, s: Selection, log: seq<Item>, op: Op)
    requires KeysWhenDue(config, log) && s.frameCount == Encodes(log) && s.forceNext == JustReconfigured(log)
    ensures var r := Apply(config, s, op);
            && KeysWhenDue(config, log + r.1) && r.0.frameCount == Encodes(log + r.1)
            && r.0.forceNext == JustReconfigured(log + r.1)
  {
    hide KeysWhenDue, Encodes, JustReconfigured, Congestion.AfterWriteFinished, Congestion.AfterInput, Marked, Resolved;
    var items := Apply(config, s, op).1;
    if items == [] {
      assert log + items == log;
    } else {
      LogGrows(config, log, items[0]);
      assert items == [items[0]];
    }
  }

  /** Over every run, a frame is encoded as a key frame if and only if it is one of the first
      five, falls on the key-frame interval, or is the first one after a reconfiguration. */
  lemma {:induction false} KeyFramesExactly(config: Settings, mode: Congestion.Mode, bitrate: int,
                                            frameIntervalMs: real, ops: seq<Op>)
    ensures var r := Run(config, Begin(mode, bitrate, frameIntervalMs), ops);
            KeysWhenDue(config, r.1) && r.0.frameCount == Encodes(r.1) && r.0.forceNext == JustReconfigured(r.1)
  {
    hide Apply, KeysWhenDue;
    if ops == [] {
      NothingLogged(config);
    } else {
      var before := ops[..|ops| - 1];
      KeyFramesExactly(config, mode, bitrate, frameIntervalMs, before);
      var r := Run(config, Begin(mode, bitrate, frameIntervalMs), before);
      ApplyKeys(config, r.0, r.1, ops[|ops| - 1]);
    }
  }

  lemma NothingLogged(config: Settings)
    ensures KeysWhenDue(config, [])
  {
  }

  /** Frames were given to the encoder at least the minimum interval apart, none of them
      later than the time remembered. */
  ghost predicate Spaced(config: Settings, s: Selection, log: seq<Item>)
  {
    && (forall i :: 0 <= i < |log| && log[i].Encode? ==> 0.0 < log[i].now <= s.lastFrameTime)
    && (forall i, j :: 0 <= i < j < |log| && log[i].Encode? && log[j].Encode? ==>
          log[j].now - log[i].now >= config.minIntervalMs)
  }

  /** Any two encoded frames are at least the minimum interval apart, however the clock moves,
      as long as it reads positive times. */
  lemma {:induction false} FramesSpaced(config: Settings, s: Selection, ops: seq<Op>)
    requires config.minIntervalMs >= 0.0
    requires forall i :: 0 <= i < |ops| && ops[i].FrameOp? ==> ops[i].now > 0.0
    ensures var r := Run(config, s, ops); Spaced(config, r.0, r.1)
  {
    hide Congestion.AfterWriteFinished, Congestion.AfterInput, Congestion.Drops, Marked, Resolved, NeedsKey;
    if ops == [] {
    } else {
      var before := ops[..|ops| - 1];
      FramesSpaced(config, s, before);
      ApplySpaced(config, Run(config, s, before).0, Run(config, s, before).1, ops[|ops| - 1]);
    }
  }

  lemma ApplySpaced(config: Settings, s: Selection, log: seq<Item>, op: Op)
    requires config.minIntervalMs >= 0.0 && Spaced(config, s, log) && (op.FrameOp? ==> op.now > 0.0)
    ensures var r := Apply(config, s, op); Spaced(config, r.0, log + r.1)
  {
    hide Congestion.AfterWriteFinished, Congestion.AfterInput, Congestion.Drops, Marked, Resolved, NeedsKey;
  }

  // ---- which frames are encoded ----

  /** The time of the last frame that did not come too soon after the one before it. */
  function LastTaken(config: Settings, ops: seq<Op>): real
  {
    if ops == [] then 0.0 else
    var last := LastTaken(config, ops[..|ops| - 1]);
    match ops[|ops| - 1]
    case FrameOp(now, _, _, _) => if last > 0.0 && now - last < config.minIntervalMs then last else now
    case _ => last
  }

  predicate Skips(config: Settings, ops: seq<Op>, now: real)
  {
    var last := LastTaken(config, ops); last > 0.0 && now - last < config.minIntervalMs
  }

  /** The calls that a run makes to the congestion controller. */
  function Calls(config: Settings, ops: seq<Op>): seq<CongestionRuns.Op>
  {
    if ops == [] then [] else
    var before := ops[..|ops| - 1];
    Calls(config, before) +
    match ops[|ops| - 1]
    case FrameOp(now, queue, _, _) =>
      if Skips(config, before, now) then [] else [CongestionRuns.InputArrives(queue, now)]
    case WriteOp(now, q, b, _) => [CongestionRuns.WriteEnds(now, q, b)]
    case OutputOp(_, _, oversize) => if oversize then [] else [CongestionRuns.WriteStarts]
  }

  /** A frame is encoded unless it comes too soon, or enough frames wait in the encoder or in
      writes. */
  predicate Taken(config: Settings, mode: Congestion.Mode, ops: seq<Op>, now: real, queueSize: nat)
  {
    && !Skips(config, ops, now)
    && !CongestionWindows.Stops(mode, queueSize)
    && !CongestionWindows.Stops(mode, CongestionWindows.Waiting(Calls(config, ops)))
  }

  /** The calls that a run makes to the timing tracker. */
  function Marks(config: Settings, mode: Congestion.Mode, ops: seq<Op>): seq<LatencyRuns.TrackerOp>
  {
    if ops == [] then [] else
    var before := ops[..|ops| - 1];
    Marks(config, mode, before) +
    match ops[|ops| - 1]
    case FrameOp(now, queue, timestamp, capture) =>
      if Taken(config, mode, before, now, queue) then [LatencyRuns.MarkOp(timestamp, capture)] else []
    case WriteOp(_, _, _, _) => []
    case OutputOp(timestamp, encodedAt, _) => [LatencyRuns.ResolveOp(timestamp, encodedAt)]
  }

  function ControlAfter(config: Settings, mode: Congestion.Mode, bitrate: int, frameIntervalMs: real, ops: seq<Op>)
    : Congestion.State
  {
    CongestionRuns.Run(Congestion.Fresh(mode, bitrate, frameIntervalMs), Calls(config, ops))
  }

  lemma RunSnoc(s: Congestion.State, calls: seq<CongestionRuns.Op>, c: CongestionRuns.Op)
    ensures CongestionRuns.Run(s, calls + [c]) == CongestionRuns.Apply(CongestionRuns.Run(s, calls), c)
    ensures CongestionRuns.Run(s, calls + []) == CongestionRuns.Run(s, calls)
  {
    assert (calls + [c])[..|calls|] == calls && calls + [] == calls;
    hide CongestionRuns.Apply;
  }

  lemma MarkSnoc(marks: seq<LatencyRuns.TrackerOp>, m: LatencyRuns.TrackerOp)
    ensures LatencyRuns.TrackerAfter(marks + [m]) == LatencyRuns.TrackerStep(LatencyRuns.TrackerAfter(marks), m).0
    ensures LatencyRuns.TrackerAfter(marks + []) == LatencyRuns.TrackerAfter(marks)
  {
    assert (marks + [m])[..|marks|] == marks && marks + [] == marks;
    hide LatencyRuns.TrackerStep;
  }

  /** The parts of the state after a run, each from the calls that concern it. */
  ghost predicate Follows(config: Settings, mode: Congestion.Mode, bitrate: int, frameIntervalMs: real, ops: seq<Op>,
                          s: Selection)
  {
    && s.lastFrameTime == LastTaken(config, ops)
    && s.control == ControlAfter(config, mode, bitrate, frameIntervalMs, ops)
    && s.tracker == LatencyRuns.TrackerAfter(Marks(config, mode, ops))
  }

  /** What an observer sees of the last operation of a run. */
  function Shown(config: Settings, mode: Congestion.Mode, bitrate: int, frameIntervalMs: real, ops: seq<Op>): nat
    requires ops != []
  {
    var before := ops[..|ops| - 1];
    match ops[|ops| - 1]
    case FrameOp(now, queue, _, _) => if Taken(config, mode, before, now, queue) then 1 else 0
    case WriteOp(_, _, _, configured) =>
      if configured && ControlAfter(config, mode, bitrate, frameIntervalMs, ops).current
                       != ControlAfter(config, mode, bitrate, frameIntervalMs, before).current then 1 else 0
    case OutputOp(_, _, _) => 0
  }

  lemma DropsWhenStopped(config: Settings, mode: Congestion.Mode, bitrate: int, frameIntervalMs: real, ops: seq<Op>,
                         queueSize: nat)
    ensures Congestion.Drops(ControlAfter(config, mode, bitrate, frameIntervalMs, ops), queueSize)
            <==> CongestionWindows.Stops(mode, queueSize)
                 || CongestionWindows.Stops(mode, CongestionWindows.Waiting(Calls(config, ops)))
  {
    CongestionWindows.WindowsFollowCalls(mode, bitrate, frameIntervalMs, Calls(config, ops));
  }

  lemma FrameFollows(config: Settings, mode: Congestion.Mode, bitrate: int, frameIntervalMs: real, ops: seq<Op>,
                     s: Selection)
    requires ops != [] && ops[|ops| - 1].FrameOp?
             && Follows(config, mode, bitrate, frameIntervalMs, ops[..|ops| - 1], s)
    ensures var r := Apply(config, s, ops[|ops| - 1]);
            && Follows(config, mode, bitrate, frameIntervalMs, ops, r.0)
            && |r.1| == Shown(config, mode, bitrate, frameIntervalMs, ops)
  {
    hide CongestionRuns.Run, LatencyRuns.TrackerAfter, Congestion.AfterInput, Congestion.AfterWriteFinished,
         Congestion.Drops, Marked, Resolved, CongestionWindows.Stops, CongestionWindows.Waiting, NeedsKey;
    var before, op := ops[..|ops| - 1], ops[|ops| - 1];
    var calls, marks := Calls(config, before), Marks(config, mode, before);
    assert calls + [] == calls && marks + [] == marks;
    RunSnoc(Congestion.Fresh(mode, bitrate, frameIntervalMs), calls, CongestionRuns.InputArrives(op.queueSize, op.now));
    MarkSnoc(marks, LatencyRuns.MarkOp(op.timestamp, op.captureMs));
    DropsWhenStopped(config, mode, bitrate, frameIntervalMs, before, op.queueSize);
  }

  lemma WriteFollows(config: Settings, mode: Congestion.Mode, bitrate: int, frameIntervalMs: real, ops: seq<Op>,
                     s: Selection)
    requires ops != [] && ops[|ops| - 1].WriteOp?
             && Follows(config, mode, bitrate, frameIntervalMs, ops[..|ops| - 1], s)
    ensures var r := Apply(config, s, ops[|ops| - 1]);
            && Follows(config, mode, bitrate, frameIntervalMs, ops, r.0)
            && |r.1| == Shown(config, mode, bitrate, frameIntervalMs, ops)
  {
    hide CongestionRuns.Run, LatencyRuns.TrackerAfter, Congestion.AfterInput, Congestion.AfterWriteFinished,
         Congestion.Drops, Marked, Resolved, CongestionWindows.Stops, CongestionWindows.Waiting, NeedsKey;
    var before, op := ops[..|ops| - 1], ops[|ops| - 1];
    var calls, marks := Calls(config, before), Marks(config, mode, before);
    assert calls + [] == calls && marks + [] == marks;
    RunSnoc(Congestion.Fresh(mode, bitrate, frameIntervalMs), calls,
            CongestionRuns.WriteEnds(op.now, op.senderQueueMs, op.writeBlockedMs));
  }

  lemma OutputFollows(config: Settings, mode: Congestion.Mode, bitrate: int, frameIntervalMs: real, ops: seq<Op>,
                      s: Selection)
    requires ops != [] && ops[|ops| - 1].OutputOp?
             && Follows(config, mode, bitrate, frameIntervalMs, ops[..|ops| - 1], s)
    ensures var r := Apply(config, s, ops[|ops| - 1]);
            && Follows(config, mode, bitrate, frameIntervalMs, ops, r.0)
            && |r.1| == Shown(config, mode, bitrate, frameIntervalMs, ops)
  {
    hide CongestionRuns.Run, LatencyRuns.TrackerAfter, Congestion.AfterInput, Congestion.AfterWriteFinished,
         Congestion.Drops, Marked, Resolved, CongestionWindows.Stops, CongestionWindows.Waiting, NeedsKey;
    var before, op := ops[..|ops| - 1], ops[|ops| - 1];
    var calls, marks := Calls(config, before), Marks(config, mode, before);
    assert calls + [] == calls && marks + [] == marks;
    RunSnoc(Congestion.Fresh(mode, bitrate, frameIntervalMs), calls, CongestionRuns.WriteStarts);
    MarkSnoc(marks, LatencyRuns.ResolveOp(op.timestamp, op.encodedAtMs));
  }

  lemma StepFollows(config: Settings, mode: Congestion.Mode, bitrate: int, frameIntervalMs: real, ops: seq<Op>,
                    s: Selection)
    requires ops != [] && Follows(config, mode, bitrate, frameIntervalMs, ops[..|ops| - 1], s)
    ensures var r := Apply(config, s, ops[|ops| - 1]);
            && Follows(config, mode, bitrate, frameIntervalMs, ops, r.0)
            && |r.1| == Shown(config, mode, bitrate, frameIntervalMs, ops)
  {
    hide Follows, Apply, Shown;
    match ops[|ops| - 1]
    case FrameOp(_, _, _, _) => FrameFollows(config, mode, bitrate, frameIntervalMs, ops, s);
    case WriteOp(_, _, _, _) => WriteFollows(config, mode, bitrate, frameIntervalMs, ops, s);
    case OutputOp(_, _, _) => OutputFollows(config, mode, bitrate, frameIntervalMs, ops, s);
  }

  /** Over every run, the controller and the tracker are where their own calls lead them; a frame
      is encoded exactly if it does not come too soon and nothing stops it, and a write
      reconfigures exactly if it changed the bitrate of a configured encoder. */
  lemma {:induction false} LoopFollowsParts(config: Settings, mode: Congestion.Mode, bitrate: int,
                                            frameIntervalMs: real, ops: seq<Op>)
    ensures var r := Run(config, Begin(mode, bitrate, frameIntervalMs), ops);
            && Follows(config, mode, bitrate, frameIntervalMs, ops, r.0)
            && (ops != [] ==>
                  |r.1| == |Run(config, Begin(mode, bitrate, frameIntervalMs), ops[..|ops| - 1]).1|
                           + Shown(config, mode, bitrate, frameIntervalMs, ops))
  {
    hide Apply, Shown;
    if ops == [] {
    } else {
      var before := ops[..|ops| - 1];
      LoopFollowsParts(config, mode, bitrate, frameIntervalMs, before);
      hide Follows;
      StepFollows(config, mode, bitrate, frameIntervalMs, ops,
                  Run(config, Begin(mode, bitrate, frameIntervalMs), before).0);
    }
  }
}
