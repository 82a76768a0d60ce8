/** The receiver's loop field by field: what each event does to each part of the state, and
    which management operations a run amounts to. */
module ReceiverFields {
  import opened Prelude
  import Wire
  import opened Reassembly
  import Mgmt = Management
  import ManagementRuns
  import opened Receiver

  /** The access unit at the head of the queue that the event presents. */
  function UnitOf(s: Rx, e: LoopEvent): Option<Frame>
  {
    if e.FrameReceived? && s.frames != [] && s.frames[0].AccessUnit? then Some(s.frames[0]) else None
  }

  predicate MarkerAt(s: Rx, e: LoopEvent) { e.FrameReceived? && s.frames != [] && s.frames[0].StopFrame? }

  /** The owner of the active session is connected, and was seen at most `maxAge` ago. */
  predicate OwnerAlive(m: Mgmt.Inner, now: real, maxAge: real)
  {
    match m.stream
    case None => false
    case Some(t) =>
      match t.owner
      case None => false
      case Some(id) => id in m.connections && m.connections[id].connected && now <= m.connections[id].lastSeen + maxAge
  }

  /** A time-out that finds something streaming for an owner that is gone. */
  predicate Expired(s: Rx, e: LoopEvent) { e.TimedOut? && s.streaming && !OwnerAlive(s.management, e.now, e.maxAge) }

  predicate StopCommand(e: LoopEvent) { e.CommandReceived? && (e.command.Stop? || e.command.AdminStop?) }

  predicate StartCommand(e: LoopEvent) { e.CommandReceived? && e.command.Start? }

  /** The four ways back to the dashboard. */
  predicate Ends(s: Rx, e: LoopEvent) { StopCommand(e) || MarkerAt(s, e) || Expired(s, e) }

  /** A unit that is not dropped: something streams, or its number is 0 or 1. */
  predicate Shows(s: Rx, e: LoopEvent) { UnitOf(s, e).Some? && (s.streaming || UnitOf(s, e).value.number < 2) }

  /** ... and that reaches the pipeline. */
  predicate Plays(s: Rx, e: LoopEvent) { Shows(s, e) && e.writes }

  lemma AliveIsFresh(m: Mgmt.Inner, now: real, maxAge: real)
    ensures HeartbeatFresh(m, now, maxAge) <==> OwnerAlive(m, now, maxAge)
  {
  }

  /** What streams, what is shown of it, and whether a stall is reported. */
  lemma StreamExactly(s: Rx, setup: Setup, e: LoopEvent)
    requires s.running
    ensures var r := Pass(s, setup, e);
            && (r.running <==> !(e.CommandReceived? && (e.command.RestartReceiver? || e.command.Shutdown?)))
            && (r.streaming <==> !Ends(s, e) && (s.streaming || StartCommand(e) || Shows(s, e)))
            && r.labels == (if StartCommand(e) then Some(e.command.labels) else if Ends(s, e) then None else s.labels)
            && (r.stallReported <==>
                  || (e.TimedOut? && s.streaming && !Expired(s, e))
                  || (s.stallReported && !StopCommand(e) && !StartCommand(e) && !Expired(s, e) && !Plays(s, e)))
  {
    hide Mgmt.Finish, Mgmt.Greeted, Mgmt.Started, Mgmt.FrameRecorded, ManagementRuns.Apply, Ensured, HeartbeatFresh;
    if e.TimedOut? { AliveIsFresh(s.management, e.now, e.maxAge); }
    hide OwnerAlive;
  }

  /** The queue holds two frames at most; a frame is taken from its front, and whatever ends the
      stream empties it. */
  lemma QueueExactly(s: Rx, setup: Setup, e: LoopEvent)
    requires s.running
    ensures Pass(s, setup, e).frames ==
            if Ends(s, e) then []
            else if e.FrameReceived? && s.frames != [] then s.frames[1..]
            else if e.FrameQueued? && |s.frames| < 2 then s.frames + [e.frame]
            else s.frames
  {
    hide Mgmt.Finish, Mgmt.Greeted, Mgmt.Started, Mgmt.FrameRecorded, ManagementRuns.Apply, Ensured, HeartbeatFresh;
    if e.TimedOut? { AliveIsFresh(s.management, e.now, e.maxAge); }
    hide OwnerAlive;
  }

  /** The pipeline an event asks for: the idle one at an end, and for a unit that is shown a
      composed one of its codec; other events ask for none. */
  function Wanted(s: Rx, setup: Setup, e: LoopEvent): Option<Engine>
  {
    if Ends(s, e) then Some(Engine(setup.idle, Dashboard, setup.rect, true))
    else if Shows(s, e) then
      Some(Engine(match UnitOf(s, e).value.header.codec case H264 => PipeH264 case Hevc => PipeH265,
                  Composed, setup.rect, true))
    else None
  }

  predicate Succeeds(e: LoopEvent)
  {
    match e
    case CommandReceived(_, _, ok) => ok
    case FrameReceived(_, ok, _) => ok
    case TimedOut(_, _, ok) => ok
    case _ => false
  }

  /** The pipeline stays unless another one is wanted; then it is that one, or, if switching
      fails, the old one without its process. */
  lemma EngineExactly(s: Rx, setup: Setup, e: LoopEvent)
    requires s.running
    ensures Pass(s, setup, e).engine ==
            match Wanted(s, setup, e)
            case None => s.engine
            case Some(w) =>
              if s.engine.(alive := true) == w then s.engine
              else if Succeeds(e) then w else s.engine.(alive := false)
  {
    hide Mgmt.Finish, Mgmt.Greeted, Mgmt.Started, Mgmt.FrameRecorded, ManagementRuns.Apply, HeartbeatFresh;
    if e.TimedOut? { AliveIsFresh(s.management, e.now, e.maxAge); }
    hide OwnerAlive;
  }

  /** What is written and counted: exactly the units that play, to the pipeline as it then is. */
  lemma WrittenExactly(s: Rx, setup: Setup, e: LoopEvent)
    requires s.running
    ensures var r := Pass(s, setup, e);
            if Plays(s, e)
            then var u := UnitOf(s, e).value;
              r.sent == s.sent + 1 && r.written == s.written + [Write(u.number, u.header.codec, r.engine, true)]
            else r.sent == s.sent && r.written == s.written
  {
    hide Mgmt.Finish, Mgmt.Greeted, Mgmt.Started, Mgmt.FrameRecorded, ManagementRuns.Apply, Ensured, HeartbeatFresh;
  }

  /** What the event is to the management state: an end, a hello, a start, a played unit, or an
      operation of another task. A start of an unknown sender has no owner. */
  function Operation(s: Rx, e: LoopEvent): Option<ManagementRuns.Op>
  {
    if MarkerAt(s, e) then Some(ManagementRuns.StopOp("user_stop"))
    else if Expired(s, e) then Some(ManagementRuns.StopOp("idle_timeout"))
    else if Plays(s, e) then Some(ManagementRuns.FrameOp(UnitOf(s, e).value.number, e.now))
    else
      match e
      case CommandReceived(Stop, _, _) => Some(ManagementRuns.StopOp("user_stop"))
      case CommandReceived(AdminStop, _, _) => Some(ManagementRuns.StopOp("admin_stop"))
      case CommandReceived(RestartReceiver, _, _) => Some(ManagementRuns.StopOp("settings_restart"))
      case CommandReceived(Shutdown(reason), _, _) => Some(ManagementRuns.StopOp(reason))
      case CommandReceived(ClientHello(id), now, _) => Some(ManagementRuns.HelloOp(id, now))
      case CommandReceived(Start(sender, config, _), now, _) =>
        var known := sender.Some? && sender.value in s.management.connections;
        Some(ManagementRuns.StartOp(if known then sender else None, config, now))
      case External(op) => if op.StartOp? then None else Some(op)
      case _ => None
  }

  lemma ManagedExactly(s: Rx, setup: Setup, e: LoopEvent)
    requires s.running
    ensures Pass(s, setup, e).management ==
            match Operation(s, e) case None => s.management case Some(op) => ManagementRuns.Apply(s.management, op)
  {
    hide Mgmt.Finish, Mgmt.Greeted, Mgmt.Started, Mgmt.FrameRecorded, Ensured, HeartbeatFresh;
    if e.TimedOut? { AliveIsFresh(s.management, e.now, e.maxAge); }
    hide OwnerAlive, Mgmt.Closed, Mgmt.Touched, Mgmt.ClockSynced, Mgmt.Reported, Mgmt.OwnEstimated;
  }

  /** The management operations of a run. */
  function Operations(setup: Setup, events: seq<LoopEvent>): seq<ManagementRuns.Op>
  {
    if events == [] then [] else
    var before := Loop(setup, events[..|events| - 1]);
    Operations(setup, events[..|events| - 1]) +
    if !before.running then []
    else match Operation(before, events[|events| - 1]) case None => [] case Some(op) => [op]
  }

  lemma RunWith(ops: seq<ManagementRuns.Op>, op: ManagementRuns.Op)
    ensures ManagementRuns.Run(ops + [op]) == ManagementRuns.Apply(ManagementRuns.Run(ops), op)
    ensures ManagementRuns.Run(ops + []) == ManagementRuns.Run(ops)
  {
    assert (ops + [op])[..|ops|] == ops && ops + [] == ops;
    hide ManagementRuns.Apply;
  }

  /** Whatever the loop does, its management state is that of a run of management operations: all
      that is true of those is true of the receiver. */
  lemma {:induction false} ManagedRun(setup: Setup, events: seq<LoopEvent>)
    ensures Loop(setup, events).management == ManagementRuns.Run(Operations(setup, events))
  {
    hide Pass, ManagementRuns.Apply, Operation;
    if events == [] {
    } else {
      var init := events[..|events| - 1];
      ManagedRun(setup, init);
      var before := Loop(setup, init);
      if before.running {
        ManagedExactly(before, setup, events[|events| - 1]);
        match Operation(before, events[|events| - 1]) {
          case None => RunWith(Operations(setup, init), ManagementRuns.StopOp(""));
          case Some(op) => RunWith(Operations(setup, init), op);
        }
      } else {
        Halted(before, setup, events[|events| - 1]);
        RunWith(Operations(setup, init), ManagementRuns.StopOp(""));
      }
    }
  }

  /** A loop that has been left stays as it is. */
  lemma Halted(s: Rx, setup: Setup, e: LoopEvent)
    requires !s.running
    ensures Pass(s, setup, e) == s
  {
  }

  /** At the start nothing streams, and the idle pipeline runs. */
  lemma BootExactly(setup: Setup)
    ensures var s := Loop(setup, []);
            && s.running && !s.streaming && !s.stallReported && s.labels == None && s.frames == []
            && s.sent == 0 && s.written == [] && s.engine == Engine(setup.idle, Dashboard, setup.rect, true)
  {
  }
}
