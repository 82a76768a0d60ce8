/** The receiver's event loop: commands, frames, stop markers, time-outs and the operations
    that other tasks make on the session state drive the streaming flag, the playback
    pipeline and the frame queue. Each event is one pass of the loop; whether a pipeline
    reconfiguration or a pipe write succeeds is part of the event. */
module Receiver {
  import opened Prelude
  import Wire
  import opened Reassembly
  import Mgmt = Management
  import ManagementRuns

  const FRAME_CHANNEL_CAPACITY: nat := 2

  datatype PipeCodec = Raw | PipeH264 | PipeH265

  datatype Aspect = Dashboard | Composed

  /** The playback pipeline: what it is set up for, and whether its process still runs. */
  datatype Engine = Engine(codec: PipeCodec, aspect: Aspect, rect: Option<string>, alive: bool)

  /** What the loop was started with: the codec of the idle dashboard and the render rectangle. */
  datatype Setup = Setup(idle: PipeCodec, rect: Option<string>)

  /** What a start command says about the picture, for telemetry. */
  datatype Labels = Labels(capture: string, encoded: string, aspect: string, contentRect: string)

  function Normalized(codec: Wire.Codec): PipeCodec { if codec == Wire.H264 then PipeH264 else PipeH265 }

  /** An access unit handed to the pipeline, with the state it was written in. */
  datatype Write = Write(number: nat, codec: Wire.Codec, engine: Engine, streaming: bool)

  datatype Rx = Rx(streaming: bool, engine: Engine, management: Mgmt.Inner, frames: seq<Frame>, sent: nat,
                   stallReported: bool, labels: Option<Labels>, written: seq<Write>, running: bool)

  datatype Command =
    | Stop
    | AdminStop
    | RestartReceiver
    | Shutdown(reason: string)
    | ClientHello(id: Mgmt.ConnectionId)
    | Start(sender: Option<Mgmt.ConnectionId>, config: Mgmt.StreamConfig, labels: Labels)
    | Informational

  datatype LoopEvent =
    | CommandReceived(command: Command, now: real, reconfigures: bool)
    | FrameReceived(now: real, reconfigures: bool, writes: bool)
    | TimedOut(now: real, maxAge: real, reconfigures: bool)
    | FrameQueued(frame: Frame)
    | External(op: ManagementRuns.Op)

  // ---- one pass ----

  predicate SetFor(engine: Engine, codec: PipeCodec, aspect: Aspect, rect: Option<string>)
  {
    engine.codec == codec && engine.aspect == aspect && engine.rect == rect
  }

  /** Switches the pipeline unless it is set up as asked; a failed switch leaves the settings as
      they were and the old process killed. */
  function Ensured(engine: Engine, codec: PipeCodec, aspect: Aspect, rect: Option<string>, reconfigures: bool): Engine
  {
    if SetFor(engine, codec, aspect, rect) then engine
    else if reconfigures then Engine(codec, aspect, rect, true)
    else engine.(alive := false)
  }

  /** Ends the session, returns to the dashboard and drains the queue. The stall report is
      left to the caller: a stop marker among the frames does not clear it. */
  function Stopped(s: Rx, setup: Setup, reason: string, reconfigures: bool): Rx
  {
    s.(streaming := false, labels := None, management := Mgmt.Finish(s.management, reason),
       engine := Ensured(s.engine, setup.idle, Dashboard, setup.rect, reconfigures), frames := [])
  }

  function OwnerOf(m: Mgmt.Inner, id: Option<Mgmt.ConnectionId>): Option<Mgmt.ConnectionId>
  {
    if id.Some? && id.value in m.connections then id else None
  }

  function Commanded(s: Rx, setup: Setup, c: Command, now: real, reconfigures: bool): Rx
  {
    match c
    case Stop => Stopped(s, setup, "user_stop", reconfigures).(stallReported := false)
    case AdminStop => Stopped(s, setup, "admin_stop", reconfigures).(stallReported := false)
    case RestartReceiver => s.(management := Mgmt.Finish(s.management, "settings_restart"), running := false)
    case Shutdown(reason) => s.(management := Mgmt.Finish(s.management, reason), running := false)
    case ClientHello(id) => s.(management := Mgmt.Greeted(s.management, id, now))
    case Start(id, config, labels) =>
      s.(streaming := true, stallReported := false, labels := Some(labels),
         management := Mgmt.Started(s.management, OwnerOf(s.management, id), config, now))
    case Informational => s
  }

  /** A frame numbered above 1 is dropped while nothing streams. */
  predicate Admits(s: Rx, number: nat) { s.streaming || number <= 1 }

  function Presented(s: Rx, setup: Setup, f: Frame, now: real, reconfigures: bool, writes: bool): Rx
  {
    match f
    case StopFrame => Stopped(s, setup, "user_stop", reconfigures)
    case AccessUnit(number, header, data, _) =>
      if !Admits(s, number) then s else
      var engine := Ensured(s.engine, Normalized(header.codec), Composed, setup.rect, reconfigures);
      var ready := s.(streaming := true, engine := engine);
      if !writes then ready else
      ready.(sent := s.sent + 1, stallReported := false,
             management := Mgmt.FrameRecorded(s.management, number, now),
             written := s.written + [Write(number, header.codec, engine, true)])
  }

  predicate HeartbeatFresh(m: Mgmt.Inner, now: real, maxAge: real)
  {
    && m.stream.Some? && m.stream.value.owner.Some? && m.stream.value.owner.value in m.connections
    && (var c := m.connections[m.stream.value.owner.value]; c.connected && now - c.lastSeen <= maxAge)
  }

  function Pass(s: Rx, setup: Setup, e: LoopEvent): Rx
  {
    if !s.running then s else
    match e
    case CommandReceived(c, now, ok) => Commanded(s, setup, c, now, ok)
    case FrameReceived(now, ok, writes) =>
      if s.frames == [] then s
      else Presented(s.(frames := s.frames[1..]), setup, s.frames[0], now, ok, writes)
    case TimedOut(now, maxAge, ok) =>
      if !s.streaming then s
      else if HeartbeatFresh(s.management, now, maxAge) then s.(stallReported := true)
      else Stopped(s, setup, "idle_timeout", ok).(stallReported := false)
    case FrameQueued(f) => if |s.frames| < FRAME_CHANNEL_CAPACITY then s.(frames := s.frames + [f]) else s
    case External(op) => if op.StartOp? then s else s.(management := ManagementRuns.Apply(s.management, op))
  }

  function Loop(setup: Setup, events: seq<LoopEvent>): Rx
  {
    if events == [] then Boot(setup) else Pass(Loop(setup, events[..|events| - 1]), setup, events[|events| - 1])
  }

  function Boot(setup: Setup): Rx
  {
    Rx(false, Engine(setup.idle, Dashboard, setup.rect, true), Mgmt.New, [], 0, false, None, [], true)
  }

  // ---- in place ----

  class ReceiverLoop {
    const setup: Setup
    const management: Mgmt.ManagementState
    const decoder: Reassembler
    var streamingActive: bool
    var engine: Engine
    var frames: seq<Frame>
    var sent: nat
    var mediaStallReported: bool
    var labels: Option<Labels>
    var running: bool
    ghost var written: seq<Write>

    ghost function View(): Rx
      reads this, management
    {
      Rx(streamingActive, engine, management.View(), frames, sent, mediaStallReported, labels, written, running)
    }

    constructor (setup: Setup)
      ensures View() == Boot(setup) && this.setup == setup
      ensures decoder.Valid() && fresh(management) && fresh(decoder)
    {
      this.setup := setup;
      management := new Mgmt.ManagementState();
      decoder := new Reassembler();
      streamingActive, engine, frames, sent := false, Engine(setup.idle, Dashboard, setup.rect, true), [], 0;
      mediaStallReported, labels, running, written := false, None, true, [];
    }

    method EnsureConfiguration(codec: PipeCodec, aspect: Aspect, rect: Option<string>, reconfigures: bool)
      modifies this`engine
      ensures engine == Ensured(old(engine), codec, aspect, rect, reconfigures)
      ensures var was := old(engine);
              if was.codec == codec && was.aspect == aspect && was.rect == rect then engine == was
              else if reconfigures then engine == Engine(codec, aspect, rect, true)
              else engine == Engine(was.codec, was.aspect, was.rect, false)
    {
      if engine.codec == codec && engine.rect == rect && engine.aspect == aspect { return; }
      engine := engine.(alive := false);
      if !reconfigures { return; }
      engine := Engine(codec, aspect, rect, true);
    }

    method DrainFrames()
      modifies this`frames
      ensures frames == []
    {
      while frames != []
        decreases |frames|
      {
        frames := frames[1..];
      }
    }

    method StopStreaming(reason: string, resetDecoder: bool, reconfigures: bool)
      requires decoder.Valid()
      modifies this, management, decoder
      ensures decoder.Valid() && (resetDecoder ==> decoder.lastCompleted == 0 && decoder.assemblies == [])
      ensures View() == Stopped(old(View()), setup, reason, reconfigures)
    {
      hide Mgmt.Finish, After, Emitted;
      var _ := management.Stop(reason);
      streamingActive, labels := false, None;
      if resetDecoder { decoder.ResetDecoderPipeline(); }
      EnsureConfiguration(setup.idle, Dashboard, setup.rect, reconfigures);
      DrainFrames();
    }

    method OnCommand(c: Command, now: real, reconfigures: bool)
      requires decoder.Valid() && running
      modifies this, management, decoder
      ensures decoder.Valid()
      ensures c.Stop? || c.AdminStop? ==> decoder.lastCompleted == 0 && decoder.assemblies == []
      ensures View() == Pass(old(View()), setup, CommandReceived(c, now, reconfigures))
    {
      hide Mgmt.Finish, Mgmt.Greeted, Mgmt.Started, After, Emitted;
      match c
      case Stop =>
        mediaStallReported := false;
        StopStreaming("user_stop", true, reconfigures);
      case AdminStop =>
        mediaStallReported := false;
        StopStreaming("admin_stop", true, reconfigures);
      case RestartReceiver =>
        var _ := management.Stop("settings_restart");
        running := false;
      case Shutdown(reason) =>
        var _ := management.Stop(reason);
        running := false;
      case ClientHello(id) => management.Hello(id, now);
      case Start(id, config, shown) =>
        streamingActive, labels := true, Some(shown);
        mediaStallReported := false;
        var sender := if id.Some? && id.value in management.connections then id else None;
        management.Start(sender, config, now);
      case Informational =>
    }

    method OnFrame(now: real, reconfigures: bool, writes: bool)
      requires decoder.Valid() && running && frames != []
      modifies this, management, decoder
      ensures decoder.Valid()
      ensures old(frames)[0].StopFrame? ==> decoder.lastCompleted == 0 && decoder.assemblies == []
      ensures View() == Pass(old(View()), setup, FrameReceived(now, reconfigures, writes))
    {
      hide Presented, Mgmt.Finish;
      var frame := frames[0];
      frames := frames[1..];
      if frame.StopFrame? {
        PresentedStop(View(), setup, now, reconfigures, writes);
        StopStreaming("user_stop", true, reconfigures);
      } else {
        PresentAccessUnit(frame, now, reconfigures, writes);
      }
    }

    method PresentAccessUnit(frame: Frame, now: real, reconfigures: bool, writes: bool)
      requires frame.AccessUnit?
      modifies this`streamingActive, this`engine, this`written, this`sent, this`mediaStallReported, management
      ensures View() == Presented(old(View()), setup, frame, now, reconfigures, writes)
    {
      hide Mgmt.FrameRecorded;
      if !streamingActive && frame.number > 1 { return; }
      if frame.number <= 1 { streamingActive := true; }
      EnsureConfiguration(Normalized(frame.header.codec), Composed, setup.rect, reconfigures);
      if !writes { return; }
      written := written + [Write(frame.number, frame.header.codec, engine, streamingActive)];
      sent := sent + 1;
      mediaStallReported := false;
      management.RecordFrame(frame.number, now);
    }

    method OnTimeout(now: real, maxAge: real, reconfigures: bool)
      requires decoder.Valid() && running
      modifies this, management, decoder
      ensures decoder.Valid()
      ensures View() == Pass(old(View()), setup, TimedOut(now, maxAge, reconfigures))
    {
      if !streamingActive { return; }
      if HeartbeatFresh(management.View(), now, maxAge) {
        mediaStallReported := true;
        return;
      }
      mediaStallReported := false;
      StopStreaming("idle_timeout", false, reconfigures);
    }
  }

  // ---- what every pass keeps ----

  /** The pipeline is set up for the codec. */
  predicate Suits(pipe: PipeCodec, codec: Wire.Codec)
  {
    match codec
    case H264 => pipe == PipeH264
    case Hevc => pipe == PipeH265
  }

  predicate Proper(w: Write) { w.streaming && Suits(w.engine.codec, w.codec) }

  /** A composed pipeline, an open session and labels all mean that something streams, and every
      access unit was written while streaming, to a pipeline of its own codec. */
  ghost predicate Coherent(s: Rx)
  {
    && (s.engine.aspect == Composed ==> s.streaming)
    && (s.management.stream.Some? ==> s.streaming)
    && (s.labels.Some? ==> s.streaming)
    && (forall i :: 0 <= i < |s.written| ==> Proper(s.written[i]))
    && s.sent == |s.written|
  }

  /** The events that return to the dashboard. */
  predicate Stops(s: Rx, e: LoopEvent)
  {
    match e
    case CommandReceived(c, _, _) => c.Stop? || c.AdminStop?
    case FrameReceived(_, _, _) => s.frames != [] && s.frames[0].StopFrame?
    case TimedOut(now, maxAge, _) => s.streaming && !HeartbeatFresh(s.management, now, maxAge)
    case _ => false
  }

  /** The events that write an access unit to the pipeline. */
  predicate WritesFrame(s: Rx, e: LoopEvent)
  {
    e.FrameReceived? && e.writes && s.frames != [] && s.frames[0].AccessUnit? && Admits(s, s.frames[0].number)
  }

  predicate Reconfigures(e: LoopEvent)
  {
    (e.CommandReceived? || e.FrameReceived? || e.TimedOut?) ==> e.reconfigures
  }

  /** Where a failed reconfiguration does harm: a stop that finds the pipeline composed, or a
      frame that finds a pipeline of another codec. */
  predicate Harmed(s: Rx, e: LoopEvent)
  {
    && s.running && !Reconfigures(e)
    && ((Stops(s, e) && s.engine.aspect == Composed)
        || (WritesFrame(s, e) && !Suits(s.engine.codec, s.frames[0].header.codec)))
  }

  lemma ManagementKeepsClosed(m: Mgmt.Inner, op: ManagementRuns.Op)
    requires m.stream.None? && !op.StartOp?
    ensures ManagementRuns.Apply(m, op).stream.None?
  {
  }

  lemma FinishCloses(m: Mgmt.Inner, reason: string)
    ensures Mgmt.Finish(m, reason).stream.None?
  {
  }

  lemma HelloKeepsSession(m: Mgmt.Inner, id: Mgmt.ConnectionId, now: real)
    ensures Mgmt.Greeted(m, id, now).stream == m.stream
  {
  }

  /** Commands other than a start open no session; the two that leave the loop close it. */
  lemma CommandSession(s: Rx, setup: Setup, c: Command, now: real, reconfigures: bool)
    requires !c.Start?
    ensures var m := Commanded(s, setup, c, now, reconfigures).management.stream; m.None? || m == s.management.stream
  {
    hide Mgmt.Finish, Mgmt.Greeted, Mgmt.Started;
    match c
    case Stop => FinishCloses(s.management, "user_stop");
    case AdminStop => FinishCloses(s.management, "admin_stop");
    case RestartReceiver => FinishCloses(s.management, "settings_restart");
    case Shutdown(reason) => FinishCloses(s.management, reason);
    case ClientHello(id) => HelloKeepsSession(s.management, id, now);
    case Informational =>
  }

  lemma StoppedCoherent(s: Rx, setup: Setup, reason: string, reconfigures: bool)
    requires Coherent(s)
    ensures Coherent(Stopped(s, setup, reason, reconfigures)) <==> reconfigures || s.engine.aspect == Dashboard
  {
  }

  lemma PresentedCoherent(s: Rx, setup: Setup, f: Frame, now: real, reconfigures: bool, writes: bool)
    requires Coherent(s) && f.AccessUnit?
    ensures Coherent(Presented(s, setup, f, now, reconfigures, writes)) <==>
            !(Admits(s, f.number) && writes && !reconfigures && !Suits(s.engine.codec, f.header.codec))
  {
    var s' := Presented(s, setup, f, now, reconfigures, writes);
    if Admits(s, f.number) && writes {
      assert s'.written[|s.written|] == s'.written[|s'.written| - 1];
      assert forall i :: 0 <= i < |s.written| ==> s'.written[i] == s.written[i];
    }
  }

  lemma FramePass(s: Rx, setup: Setup, now: real, reconfigures: bool, writes: bool)
    requires Coherent(s) && s.running
    ensures var e := FrameReceived(now, reconfigures, writes); Coherent(Pass(s, setup, e)) <==> !Harmed(s, e)
  {
    hide Stopped, Presented;
    if s.frames != [] {
      var taken := s.(frames := s.frames[1..]);
      if s.frames[0].StopFrame? {
        PresentedStop(taken, setup, now, reconfigures, writes);
        StoppedCoherent(taken, setup, "user_stop", reconfigures);
      } else {
        PresentedCoherent(taken, setup, s.frames[0], now, reconfigures, writes);
      }
    }
  }

  lemma CommandPass(s: Rx, setup: Setup, c: Command, now: real, reconfigures: bool)
    requires Coherent(s) && s.running
    ensures var e := CommandReceived(c, now, reconfigures); Coherent(Pass(s, setup, e)) <==> !Harmed(s, e)
  {
    hide Stopped, Mgmt.Finish, Mgmt.Greeted, Mgmt.Started;
    if !c.Start? { CommandSession(s, setup, c, now, reconfigures); }
    StoppedCoherent(s, setup, "user_stop", reconfigures);
    StoppedCoherent(s, setup, "admin_stop", reconfigures);
  }

  /** A pass keeps coherence if and only if no failed reconfiguration does harm in it. */
  lemma PassCoherent(s: Rx, setup: Setup, e: LoopEvent)
    requires Coherent(s)
    ensures Coherent(Pass(s, setup, e)) <==> !Harmed(s, e)
  {
    hide Stopped, Presented, Commanded, ManagementRuns.Apply, HeartbeatFresh;
    if s.running {
      match e {
        case External(op) =>
          if !op.StartOp? && s.management.stream.None? { ManagementKeepsClosed(s.management, op); }
        case FrameReceived(now, ok, writes) => FramePass(s, setup, now, ok, writes);
        case CommandReceived(c, now, ok) => CommandPass(s, setup, c, now, ok);
        case TimedOut(now, maxAge, ok) => StoppedCoherent(s, setup, "idle_timeout", ok);
        case _ =>
      }
    }
  }

  lemma PresentedStop(s: Rx, setup: Setup, now: real, reconfigures: bool, writes: bool)
    ensures Presented(s, setup, StopFrame, now, reconfigures, writes) == Stopped(s, setup, "user_stop", reconfigures)
  {
  }

  predicate HarmedAt(setup: Setup, events: seq<LoopEvent>, k: nat)
    requires k < |events|
  {
    Harmed(Loop(setup, events[..k]), events[k])
  }

  ghost predicate CoherentAt(setup: Setup, events: seq<LoopEvent>, k: nat)
    requires k <= |events|
  {
    Coherent(Loop(setup, events[..k]))
  }

  lemma CoherentNext(setup: Setup, events: seq<LoopEvent>, k: nat)
    requires k < |events| && CoherentAt(setup, events, k)
    ensures CoherentAt(setup, events, k + 1) <==> !HarmedAt(setup, events, k)
  {
    var before := events[..k + 1];
    assert before[..k] == events[..k] && before[k] == events[k];
    hide Pass, Coherent, Harmed;
    PassCoherent(Loop(setup, events[..k]), setup, events[k]);
  }

  lemma {:induction false} CoherentUpTo(setup: Setup, events: seq<LoopEvent>, k: nat)
    requires k <= |events| && forall i :: 0 <= i < k ==> !HarmedAt(setup, events, i)
    ensures CoherentAt(setup, events, k)
  {
    if k == 0 {
      assert events[..0] == [];
    } else {
      hide HarmedAt, CoherentAt;
      CoherentUpTo(setup, events, k - 1);
      CoherentNext(setup, events, k - 1);
    }
  }

  /** The loop is coherent at every boundary if and only if no failed reconfiguration does harm in
      any of its passes. */
  lemma LoopCoherentExactly(setup: Setup, events: seq<LoopEvent>)
    ensures (forall k :: 0 <= k <= |events| ==> CoherentAt(setup, events, k))
            <==> forall k :: 0 <= k < |events| ==> !HarmedAt(setup, events, k)
  {
    hide HarmedAt, CoherentAt;
    if forall k :: 0 <= k <= |events| ==> CoherentAt(setup, events, k) {
      forall k | 0 <= k < |events| ensures !HarmedAt(setup, events, k) {
        assert CoherentAt(setup, events, k + 1);
        CoherentNext(setup, events, k);
      }
    }
    if forall k :: 0 <= k < |events| ==> !HarmedAt(setup, events, k) {
      forall k | 0 <= k <= |events| ensures CoherentAt(setup, events, k) { CoherentUpTo(setup, events, k); }
    }
  }

  /** At every loop boundary, if reconfiguration always succeeds; in particular every unit was
      written to a pipeline for its codec. */
  lemma LoopCoherent(setup: Setup, events: seq<LoopEvent>)
    requires forall i :: 0 <= i < |events| ==> Reconfigures(events[i])
    ensures Coherent(Loop(setup, events))
    ensures var written := Loop(setup, events).written;
            forall i :: 0 <= i < |written| ==>
              && (written[i].codec == Wire.H264 ==> written[i].engine.codec == PipeH264)
              && (written[i].codec == Wire.Hevc ==> written[i].engine.codec == PipeH265)
  {
    assert events[..|events|] == events;
    hide Loop;
    CoherentUpTo(setup, events, |events|);
    assert forall i :: 0 <= i < |Loop(setup, events).written| ==> Proper(Loop(setup, events).written[i]);
  }

  /** If a reconfiguration fails on a stop, the receiver is idle with a pipeline that is still set
      up for a stream, and dead. */
  lemma FailedStop(setup: Setup, f: Frame)
    requires f.AccessUnit? && f.number <= 1
    ensures var playing := Pass(Pass(Boot(setup), setup, FrameQueued(f)), setup, FrameReceived(0.0, true, true));
            var s := Pass(playing, setup, CommandReceived(Stop, 0.0, false));
            Coherent(playing) && !s.streaming && s.engine.aspect == Composed && !s.engine.alive
  {
  }

  /** After a stop the stall report is kept exactly if it was a stop marker among the frames: a
      stop command and an expired time-out clear it. */
  lemma StallAfterStop(s: Rx, setup: Setup, e: LoopEvent)
    requires s.running && Stops(s, e)
    ensures Pass(s, setup, e).stallReported <==> s.stallReported && e.FrameReceived?
  {
    hide Mgmt.Finish, HeartbeatFresh, Ensured;
  }

  /** So it can stand while nothing streams: a stall is reported for a live owner, and the stop
      marker that follows leaves the report. */
  lemma StallOutlivesMarker(setup: Setup, id: Mgmt.ConnectionId, config: Mgmt.StreamConfig, labels: Labels, now: real)
    ensures var greeted := Pass(Boot(setup), setup, CommandReceived(ClientHello(id), now, true));
            var started := Pass(greeted, setup, CommandReceived(Start(Some(id), config, labels), now, true));
            var stalled := Pass(started, setup, TimedOut(now, 0.0, true));
            var s := Pass(Pass(stalled, setup, FrameQueued(StopFrame)), setup, FrameReceived(now, true, true));
            !s.streaming && s.stallReported
  {
    var greeted := Pass(Boot(setup), setup, CommandReceived(ClientHello(id), now, true));
    var started := Pass(greeted, setup, CommandReceived(Start(Some(id), config, labels), now, true));
    assert HeartbeatFresh(started.management, now, 0.0);
    var stalled := Pass(started, setup, TimedOut(now, 0.0, true));
    assert stalled.stallReported;
    var queued := Pass(stalled, setup, FrameQueued(StopFrame));
    assert queued.frames == [StopFrame];
    PresentedStop(queued.(frames := queued.frames[1..]), setup, now, true, true);
  }

  // ---- after a stop ----

  /** The event neither starts a session nor is a first frame. */
  predicate Trailing(s: Rx, e: LoopEvent)
  {
    && !(e.CommandReceived? && e.command.Start?)
    && (e.FrameReceived? && s.frames != [] && s.frames[0].AccessUnit? ==> s.frames[0].number > 1)
  }

  ghost predicate AllTrailing(s: Rx, setup: Setup, events: seq<LoopEvent>)
    decreases |events|
  {
    events == [] || (Trailing(s, events[0]) && AllTrailing(Pass(s, setup, events[0]), setup, events[1..]))
  }

  function Continue(s: Rx, setup: Setup, events: seq<LoopEvent>): Rx
    decreases |events|
  {
    if events == [] then s else Continue(Pass(s, setup, events[0]), setup, events[1..])
  }

  lemma TrailingPass(s: Rx, setup: Setup, e: LoopEvent)
    requires !s.streaming && Trailing(s, e)
    ensures var s' := Pass(s, setup, e);
            && !s'.streaming && s'.written == s.written && s'.sent == s.sent
            && (s.engine.aspect == Dashboard ==> s'.engine.aspect == Dashboard)
            && (s.management.stream.None? ==> s'.management.stream.None?)
  {
    hide Mgmt.Finish, Mgmt.Greeted, Mgmt.FrameRecorded, Mgmt.Started, ManagementRuns.Apply, HeartbeatFresh;
    match e {
      case External(op) =>
        if !op.StartOp? && s.management.stream.None? { ManagementKeepsClosed(s.management, op); }
      case CommandReceived(c, now, ok) => CommandSession(s, setup, c, now, ok);
      case FrameReceived(now, _, _) => FinishCloses(s.management, "user_stop");
      case _ =>
    }
  }

  /** Packets that trail in after a stop write nothing, keep the dashboard and open no
      session, until a start command or a first frame. */
  lemma {:induction false} NothingPlaysAfterStop(s: Rx, setup: Setup, events: seq<LoopEvent>)
    requires !s.streaming && AllTrailing(s, setup, events)
    ensures var r := Continue(s, setup, events);
            && !r.streaming && r.written == s.written
            && (s.engine.aspect == Dashboard ==> r.engine.aspect == Dashboard)
            && (s.management.stream.None? ==> r.management.stream.None?)
    decreases |events|
  {
    if events == [] {
    } else {
      TrailingPass(s, setup, events[0]);
      NothingPlaysAfterStop(Pass(s, setup, events[0]), setup, events[1..]);
    }
  }
}
