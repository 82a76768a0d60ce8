/** The management state read off the history of its operations: which sessions there were and
    what was counted in each, what is known of a connection, and which estimates are believed. */
module ManagementHistory {
  import opened Prelude
  import opened Latency
  import LatencyRuns
  import opened Management
  import opened ManagementRuns

  // ---- sessions ----

  /** One session: what it was started with, the numbers of its frames, and why it ended. */
  datatype Session = Session(owner: Option<ConnectionId>, config: StreamConfig, numbers: seq<nat>,
                             ended: Option<string>)

  predicate Running(sessions: seq<Session>) { sessions != [] && sessions[|sessions| - 1].ended.None? }

  function Changed(sessions: seq<Session>, last: Session): seq<Session>
    requires sessions != []
  {
    sessions[..|sessions| - 1] + [last]
  }

  function EndedFor(sessions: seq<Session>, reason: string): seq<Session>
  {
    if Running(sessions) then Changed(sessions, sessions[|sessions| - 1].(ended := Some(reason))) else sessions
  }

  /** All sessions of a run, in order. */
  function Sessions(ops: seq<Op>): seq<Session>
  {
    if ops == [] then [] else
    var before := Sessions(ops[..|ops| - 1]);
    match ops[|ops| - 1]
    case StartOp(owner, config, _) => EndedFor(before, "replaced") + [Session(owner, config, [], None)]
    case StopOp(reason) => EndedFor(before, reason)
    case ClosedOp(id, _) =>
      if Running(before) && before[|before| - 1].owner == Some(id) then EndedFor(before, "disconnect") else before
    case FrameOp(number, _) =>
      if Running(before)
      then Changed(before, before[|before| - 1].(numbers := before[|before| - 1].numbers + [number])) else before
    case _ => before
  }

  /** The gap between two frame numbers of 32 bits. */
  function Skipped(last: nat, number: nat): nat
  {
    if last == 0xFFFF_FFFF then number else if number <= last then 0 else number - last - 1
  }

  function SkippedIn(numbers: seq<nat>): nat
  {
    if |numbers| <= 1 then 0
    else SkippedIn(numbers[..|numbers| - 1]) + Skipped(numbers[|numbers| - 2], numbers[|numbers| - 1])
  }

  predicate Narrow(numbers: seq<nat>) { forall i :: 0 <= i < |numbers| ==> numbers[i] < 0x1_0000_0000 }

  /** What is filed of a session, once it has ended. */
  function RecordOf(sessions: seq<Session>, i: nat): SessionRecord
    requires i < |sessions| && sessions[i].ended.Some?
  {
    SessionRecord(i + 1, sessions[i].owner, |sessions[i].numbers|, SkippedIn(sessions[i].numbers),
                  sessions[i].ended.value)
  }

  /** The history is the ended sessions, the latest first, as far back as 10,000. */
  ghost predicate Filed(history: seq<SessionRecord>, sessions: seq<Session>)
  {
    var n := if Running(sessions) then |sessions| - 1 else |sessions|;
    && |history| == (if n < 10000 then n else 10000)
    && forall i :: 0 <= i < |history| ==> FiledAt(history[i], sessions, n - 1 - i)
  }

  ghost predicate FiledAt(r: SessionRecord, sessions: seq<Session>, k: int)
  {
    0 <= k < |sessions| && sessions[k].ended.Some? && r == RecordOf(sessions, k)
  }

  /** The active session is the running one. */
  ghost predicate ActiveIs(stream: Option<Stream>, sessions: seq<Session>)
  {
    if !Running(sessions) then stream == None
    else
      var last := sessions[|sessions| - 1];
      && stream.Some? && stream.value.id == |sessions|
      && stream.value.owner == last.owner && stream.value.config == last.config
      && stream.value.frames == |last.numbers| && stream.value.gaps == SkippedIn(last.numbers)
      && stream.value.lastNumber == if last.numbers == [] then None else Some(last.numbers[|last.numbers| - 1])
  }

  /** All but the last have ended, and all numbers are of 32 bits. */
  ghost predicate InTurn(sessions: seq<Session>)
  {
    (forall i :: 0 <= i < |sessions| - 1 ==> sessions[i].ended.Some?)
    && forall i :: 0 <= i < |sessions| ==> Narrow(sessions[i].numbers)
  }

  ghost predicate Kept(s: Inner, sessions: seq<Session>)
  {
    && InTurn(sessions) && s.nextSession == |sessions| + 1
    && ActiveIs(s.stream, sessions) && Filed(s.history, sessions)
  }

  lemma GapSkips(last: nat, number: nat)
    requires last < 0x1_0000_0000 && number < 0x1_0000_0000
    ensures Gap(Some(last), number) == Skipped(last, number)
  {
    if last == 0xFFFF_FFFF { GapAcrossWrap(number); }
  }

  /** What is filed stays filed when another session is appended or the last one changes. */
  lemma FiledStays(r: SessionRecord, sessions: seq<Session>, more: seq<Session>, k: int)
    requires FiledAt(r, sessions, k) && k < |more| && more[k] == sessions[k]
    ensures FiledAt(r, more, k)
  {
  }

  lemma SameEnd(sessions: seq<Session>, last: Session)
    requires Running(sessions)
    ensures var r := Changed(sessions, last);
            && |r| == |sessions| && r[|r| - 1] == last
            && forall i :: 0 <= i < |sessions| - 1 ==> r[i] == sessions[i]
  {
  }

  lemma FinishKept(s: Inner, sessions: seq<Session>, reason: string)
    requires Kept(s, sessions)
    ensures Kept(Finish(s, reason), EndedFor(sessions, reason)) && !Running(EndedFor(sessions, reason))
  {
    if Running(sessions) {
      var n := |sessions|;
      var r := EndedFor(sessions, reason);
      SameEnd(sessions, sessions[n - 1].(ended := Some(reason)));
      var f := Finish(s, reason);
      hide SkippedIn, SetSharing;
      var first := RecordOf(r, n - 1);
      var records := [first] + s.history;
      assert f.history == if |records| > 10000 then records[..10000] else records;
      forall i | 0 <= i < |f.history| ensures FiledAt(f.history[i], r, n - 1 - i) {
        if i > 0 {
          assert f.history[i] == s.history[i - 1];
          FiledStays(s.history[i - 1], sessions, r, n - 1 - i);
        }
      }
    }
  }

  lemma StartKept(s: Inner, sessions: seq<Session>, owner: Option<ConnectionId>, config: StreamConfig, now: real)
    requires Kept(s, sessions)
    ensures Kept(Started(s, owner, config, now), EndedFor(sessions, "replaced") + [Session(owner, config, [], None)])
  {
    FinishKept(s, sessions, "replaced");
    var f, e := Finish(s, "replaced"), EndedFor(sessions, "replaced");
    assert Kept(f, e) && f == if s.stream.Some? then Finish(s, "replaced") else s;
    var more := e + [Session(owner, config, [], None)];
    hide SkippedIn, Finish, EndedFor, SetSharing, Seen;
    assert SkippedIn([]) == 0 by { NothingSkipped(); }
    forall i | 0 <= i < |f.history| ensures FiledAt(f.history[i], more, |e| - 1 - i) {
      FiledStays(f.history[i], e, more, |e| - 1 - i);
    }
  }

  lemma NothingSkipped()
    ensures SkippedIn([]) == 0
  {
  }

  /** A change of the running session leaves what is filed. */
  lemma FiledBefore(history: seq<SessionRecord>, sessions: seq<Session>, last: Session)
    requires Filed(history, sessions) && Running(sessions) && last.ended.None?
    ensures Filed(history, Changed(sessions, last))
  {
    hide RecordOf;
    var n, more := |sessions|, Changed(sessions, last);
    SameEnd(sessions, last);
    forall i | 0 <= i < |history| ensures FiledAt(history[i], more, n - 2 - i) {
      FiledStays(history[i], sessions, more, n - 2 - i);
    }
  }

  lemma NumbersGrow(sessions: seq<Session>, number: nat)
    requires InTurn(sessions) && Running(sessions) && number < 0x1_0000_0000
    ensures var last := sessions[|sessions| - 1];
            InTurn(Changed(sessions, last.(numbers := last.numbers + [number])))
  {
    var last := sessions[|sessions| - 1];
    SameEnd(sessions, last.(numbers := last.numbers + [number]));
    assert Narrow(last.numbers);
  }

  lemma SkippedSnoc(numbers: seq<nat>, number: nat)
    ensures SkippedIn(numbers + [number])
            == SkippedIn(numbers) + if numbers == [] then 0 else Skipped(numbers[|numbers| - 1], number)
  {
    assert (numbers + [number])[..|numbers|] == numbers;
    hide Skipped;
  }

  lemma FrameKept(s: Inner, sessions: seq<Session>, number: nat, now: real)
    requires Kept(s, sessions) && number < 0x1_0000_0000 && Running(sessions)
    ensures var last := sessions[|sessions| - 1];
            Kept(FrameRecorded(s, number, now), Changed(sessions, last.(numbers := last.numbers + [number])))
  {
    var last := sessions[|sessions| - 1];
    var numbers := last.numbers;
    var next := last.(numbers := numbers + [number]);
    SameEnd(sessions, next);
    NumbersGrow(sessions, number);
    SkippedSnoc(numbers, number);
    if numbers != [] {
      assert Narrow(numbers);
      GapSkips(numbers[|numbers| - 1], number);
    }
    hide Gap, Seen, Filed, InTurn, SkippedIn, Skipped, Changed;
    FiledBefore(s.history, sessions, next);
  }

  lemma ClosedKept(s: Inner, sessions: seq<Session>, id: ConnectionId, now: real)
    requires Kept(s, sessions)
    ensures Kept(Closed(s, id, now),
                 if Running(sessions) && sessions[|sessions| - 1].owner == Some(id)
                 then EndedFor(sessions, "disconnect") else sessions)
  {
    var s' := s.(clockSyncs := s.clockSyncs - {id},
                 connections := if id in s.connections then s.connections[id := Connection(false, false, now)]
                                else s.connections);
    assert Kept(s', sessions);
    hide Finish, EndedFor, Filed;
    FinishKept(s', sessions, "disconnect");
  }

  lemma OthersKept(s: Inner, sessions: seq<Session>, op: Op)
    requires Kept(s, sessions) && (op.HelloOp? || op.TouchOp? || op.SyncOp? || op.ReportOp? || op.EstimateOp?)
    ensures Kept(Apply(s, op), sessions)
  {
    if op.EstimateOp? && OwnEstimate(s, op.number, op.timing, op.displayFps, op.now).Some? {
      OwnEstimateExactly(s, op.number, op.timing, op.displayFps, op.now);
    }
    hide Filed, InTurn, OwnEstimate, Believable, Seen;
  }

  ghost predicate NarrowOps(ops: seq<Op>)
  {
    forall i :: 0 <= i < |ops| && ops[i].FrameOp? ==> ops[i].number < 0x1_0000_0000
  }

  /** Over every run: the active session and the history are the sessions of the run, each with
      its own frames, gaps and reason. */
  lemma {:induction false} SessionsKept(ops: seq<Op>)
    requires NarrowOps(ops)
    ensures Kept(Run(ops), Sessions(ops))
  {
    hide Kept, EndedFor, Changed, Apply;
    if ops == [] {
      NoSessions();
    } else {
      var before := ops[..|ops| - 1];
      SessionsKept(before);
      StepKept(Run(before), before, ops);
    }
  }

  lemma NoSessions()
    ensures Kept(New, [])
  {
  }

  lemma StepKept(s: Inner, before: seq<Op>, ops: seq<Op>)
    requires ops != [] && before == ops[..|ops| - 1] && Kept(s, Sessions(before)) && NarrowOps(ops)
    ensures Kept(Apply(s, ops[|ops| - 1]), Sessions(ops))
  {
    hide Kept, EndedFor, Changed, Finish, Started, Closed, Running, FrameRecorded, Greeted, Touched, ClockSynced,
         Reported, OwnEstimated;
    RunningMeansActive(s, Sessions(before));
    var sessions := Sessions(before);
    match ops[|ops| - 1]
    case StartOp(owner, config, now) => StartKept(s, sessions, owner, config, now);
    case StopOp(reason) => FinishKept(s, sessions, reason);
    case ClosedOp(id, now) => ClosedKept(s, sessions, id, now);
    case FrameOp(number, now) =>
      if Running(sessions) { FrameKept(s, sessions, number, now); } else { NoFrame(s, number, now); }
    case _ => OthersKept(s, sessions, ops[|ops| - 1]);
  }

  lemma NoFrame(s: Inner, number: nat, now: real)
    requires s.stream.None?
    ensures FrameRecorded(s, number, now) == s
  {
  }

  lemma RunningMeansActive(s: Inner, sessions: seq<Session>)
    requires Kept(s, sessions)
    ensures Running(sessions) <==> s.stream.Some?
  {
  }

  // ---- connections ----

  /** A hello has been heard of the connection. */
  predicate Known(ops: seq<Op>, id: ConnectionId)
  {
    ops != [] && ((ops[|ops| - 1].HelloOp? && ops[|ops| - 1].id == id) || Known(ops[..|ops| - 1], id))
  }

  /** ... and it has not been closed since. */
  predicate Open(ops: seq<Op>, id: ConnectionId)
  {
    ops != [] &&
    match ops[|ops| - 1]
    case HelloOp(x, _) => x == id || Open(ops[..|ops| - 1], id)
    case ClosedOp(x, _) => x != id && Open(ops[..|ops| - 1], id)
    case _ => Open(ops[..|ops| - 1], id)
  }

  /** The connection was known when it started the session that is active, and no hello of it has
      been heard since. */
  predicate Shares(ops: seq<Op>, id: ConnectionId)
  {
    ops != [] &&
    var before := ops[..|ops| - 1];
    match ops[|ops| - 1]
    case HelloOp(x, _) => x != id && Shares(before, id)
    case ClosedOp(x, _) => x != id && Shares(before, id)
    case StartOp(owner, _, _) => owner == Some(id) && Known(before, id)
    case StopOp(_) => false
    case _ => Shares(before, id)
  }

  /** The session that is active is the connection's. */
  predicate Sends(ops: seq<Op>, id: ConnectionId)
  {
    Running(Sessions(ops)) && Sessions(ops)[|Sessions(ops)| - 1].owner == Some(id)
  }

  /** The last time of a hello, a close, a heartbeat while open, a start, or a frame. */
  function SeenAt(ops: seq<Op>, id: ConnectionId): Option<real>
  {
    if ops == [] then None else
    var before := ops[..|ops| - 1];
    match ops[|ops| - 1]
    case HelloOp(x, now) => if x == id then Some(now) else SeenAt(before, id)
    case ClosedOp(x, now) => if x == id && Known(before, id) then Some(now) else SeenAt(before, id)
    case TouchOp(x, now) => if x == id && Open(before, id) then Some(now) else SeenAt(before, id)
    case StartOp(owner, _, now) => if owner == Some(id) && Known(before, id) then Some(now) else SeenAt(before, id)
    case FrameOp(_, now) => if Sends(before, id) && Known(before, id) then Some(now) else SeenAt(before, id)
    case _ => SeenAt(before, id)
  }

  /** The last clock synchronisation of an open connection within 30 s of uncertainty, if the
      connection has neither been closed nor started a session since. */
  function SyncAt(ops: seq<Op>, id: ConnectionId): Option<ClockSync>
  {
    if ops == [] then None else
    var before := ops[..|ops| - 1];
    match ops[|ops| - 1]
    case ClosedOp(x, _) => if x == id then None else SyncAt(before, id)
    case StartOp(owner, _, _) => if owner == Some(id) then None else SyncAt(before, id)
    case SyncOp(x, offset, uncertainty, now) =>
      if x == id && Open(before, id) && 0.0 <= uncertainty <= 30000.0
      then Some(ClockSync(offset, uncertainty, now)) else SyncAt(before, id)
    case _ => SyncAt(before, id)
  }

  ghost predicate ConnectionIs(s: Inner, ops: seq<Op>, id: ConnectionId)
  {
    && (id in s.connections <==> Known(ops, id))
    && (Known(ops, id) ==> SeenAt(ops, id).Some?
                           && s.connections[id] == Connection(Open(ops, id), Shares(ops, id), SeenAt(ops, id).value))
    && (if SyncAt(ops, id).None? then id !in s.clockSyncs
        else id in s.clockSyncs && s.clockSyncs[id] == SyncAt(ops, id).value)
  }

  lemma {:induction false} OpenIsKnown(ops: seq<Op>, id: ConnectionId)
    ensures Open(ops, id) ==> Known(ops, id)
  {
    if ops == [] {
    } else {
      OpenIsKnown(ops[..|ops| - 1], id);
    }
  }

  lemma OwnsWhenSending(ops: seq<Op>, id: ConnectionId)
    requires NarrowOps(ops)
    ensures Owns(Run(ops), id) <==> Sends(ops, id)
    ensures Run(ops).stream.Some? <==> Running(Sessions(ops))
  {
    SessionsKept(ops);
    hide Filed, InTurn;
  }

  /** Over every run: what is kept of a connection is what was heard of it. */
  lemma {:induction false} ConnectionsKept(ops: seq<Op>, id: ConnectionId)
    requires NarrowOps(ops)
    ensures ConnectionIs(Run(ops), ops, id)
  {
    if ops == [] {
    } else {
      var before := ops[..|ops| - 1];
      ConnectionsKept(before, id);
      OwnsWhenSending(before, id);
      RunAccounted(before);
      hide Run;
      assert Run(ops) == Apply(Run(before), ops[|ops| - 1]) by { RunSnoc(ops); }
      StepConnection(Run(before), before, ops, id);
    }
  }

  lemma RunSnoc(ops: seq<Op>)
    requires ops != []
    ensures Run(ops) == Apply(Run(ops[..|ops| - 1]), ops[|ops| - 1])
  {
  }

  lemma HelloConnection(s: Inner, ops: seq<Op>, id: ConnectionId)
    requires ops != [] && ConnectionIs(s, ops[..|ops| - 1], id) && (ops[|ops| - 1].HelloOp? || ops[|ops| - 1].TouchOp?)
    requires (Owns(s, id) <==> Sends(ops[..|ops| - 1], id)) && SharingOwns(s)
    ensures ConnectionIs(Apply(s, ops[|ops| - 1]), ops, id)
  {
    hide OwnEstimate, Believable, Sends;
    OpenIsKnown(ops[..|ops| - 1], id);
  }

  lemma SyncConnection(s: Inner, ops: seq<Op>, id: ConnectionId)
    requires ops != [] && ConnectionIs(s, ops[..|ops| - 1], id) && (ops[|ops| - 1].SyncOp?)
    requires (Owns(s, id) <==> Sends(ops[..|ops| - 1], id)) && SharingOwns(s)
    ensures ConnectionIs(Apply(s, ops[|ops| - 1]), ops, id)
  {
    hide OwnEstimate, Believable, Sends;
    OpenIsKnown(ops[..|ops| - 1], id);
  }

  lemma ClosedConnection(s: Inner, ops: seq<Op>, id: ConnectionId)
    requires ops != [] && ConnectionIs(s, ops[..|ops| - 1], id) && (ops[|ops| - 1].ClosedOp?)
    requires (Owns(s, id) <==> Sends(ops[..|ops| - 1], id)) && SharingOwns(s)
    ensures ConnectionIs(Apply(s, ops[|ops| - 1]), ops, id)
  {
    hide OwnEstimate, Believable, Sends, InLatencyRange;
  }

  lemma StartConnection(s: Inner, ops: seq<Op>, id: ConnectionId)
    requires ops != [] && ConnectionIs(s, ops[..|ops| - 1], id) && (ops[|ops| - 1].StartOp?)
    requires (Owns(s, id) <==> Sends(ops[..|ops| - 1], id)) && SharingOwns(s)
    ensures ConnectionIs(Apply(s, ops[|ops| - 1]), ops, id)
  {
    hide OwnEstimate, Believable, Sends, InLatencyRange;
  }

  lemma StopConnection(s: Inner, ops: seq<Op>, id: ConnectionId)
    requires ops != [] && ConnectionIs(s, ops[..|ops| - 1], id) && (ops[|ops| - 1].StopOp?)
    requires (Owns(s, id) <==> Sends(ops[..|ops| - 1], id)) && SharingOwns(s)
    ensures ConnectionIs(Apply(s, ops[|ops| - 1]), ops, id)
  {
    hide OwnEstimate, Believable, Sends, InLatencyRange;
  }

  lemma FrameConnection(s: Inner, ops: seq<Op>, id: ConnectionId)
    requires ops != [] && ConnectionIs(s, ops[..|ops| - 1], id) && (ops[|ops| - 1].FrameOp?)
    requires (Owns(s, id) <==> Sends(ops[..|ops| - 1], id)) && SharingOwns(s)
    ensures ConnectionIs(Apply(s, ops[|ops| - 1]), ops, id)
  {
    hide OwnEstimate, Believable, Sends, InLatencyRange;
  }

  lemma ReportConnection(s: Inner, ops: seq<Op>, id: ConnectionId)
    requires ops != [] && ConnectionIs(s, ops[..|ops| - 1], id)
             && (ops[|ops| - 1].ReportOp? || ops[|ops| - 1].EstimateOp?)
    requires (Owns(s, id) <==> Sends(ops[..|ops| - 1], id)) && SharingOwns(s)
    ensures ConnectionIs(Apply(s, ops[|ops| - 1]), ops, id)
  {
    hide OwnEstimate, Believable, Sends, InLatencyRange;
  }

  lemma StepConnection(s: Inner, before: seq<Op>, ops: seq<Op>, id: ConnectionId)
    requires ops != [] && before == ops[..|ops| - 1] && ConnectionIs(s, before, id)
    requires (Owns(s, id) <==> Sends(before, id)) && SharingOwns(s)
    ensures ConnectionIs(Apply(s, ops[|ops| - 1]), ops, id)
  {
    hide Apply, ConnectionIs, Sends, SharingOwns, Owns;
    match ops[|ops| - 1]
    case HelloOp(_, _) => HelloConnection(s, ops, id);
    case TouchOp(_, _) => HelloConnection(s, ops, id);
    case SyncOp(_, _, _, _) => SyncConnection(s, ops, id);
    case ClosedOp(_, _) => ClosedConnection(s, ops, id);
    case StartOp(_, _, _) => StartConnection(s, ops, id);
    case StopOp(_) => StopConnection(s, ops, id);
    case FrameOp(_, _) => FrameConnection(s, ops, id);
    case ReportOp(_, _) => ReportConnection(s, ops, id);
    case EstimateOp(_, _, _, _) => ReportConnection(s, ops, id);
  }

  // ---- estimates ----

  predicate InMilliseconds(x: real) { 0.0 <= x <= 30000.0 }

  predicate Near(x: real, y: real) { -2.0 <= x - y <= 2.0 }

  /** A report is accepted exactly if it has a number, every value of it lies between 0 and 30,000,
      the total is within 2 ms of the five phases and the transport queue within 2 ms of the
      three it spans, and it is the owner's, about a frame that has been recorded, and no older
      than the last estimate. It then becomes the estimate, and nothing else changes. */
  lemma ReportExactly(s: Inner, id: ConnectionId, r: Report)
    ensures var c, d := r.components, r.details;
            var accepted :=
              && r.number > 0
              && InMilliseconds(c.totalMs) && InMilliseconds(c.encodeMs) && InMilliseconds(c.senderQueueMs)
              && InMilliseconds(c.deliveryMs) && InMilliseconds(c.receiverQueueMs) && InMilliseconds(c.decodeDisplayMs)
              && InMilliseconds(d.writeBlockedMs) && InMilliseconds(d.clockUncertaintyMs)
              && InMilliseconds(d.clockAgeMs) && InMilliseconds(d.configuredBitrateMbps)
              && InMilliseconds(d.adaptiveBitrateMbps) && InMilliseconds(d.effectiveFps)
              && Near(c.totalMs, c.encodeMs + c.senderQueueMs + c.deliveryMs + c.receiverQueueMs + c.decodeDisplayMs)
              && Near(r.transportQueueMs, c.senderQueueMs + c.deliveryMs + c.receiverQueueMs)
              && s.stream.Some? && s.stream.value.owner == Some(id)
              && s.stream.value.lastNumber.Some? && r.number <= s.stream.value.lastNumber.value
              && (s.stream.value.estimate.Some? ==> s.stream.value.estimate.value.number <= r.number);
            Reported(s, id, r) ==
            if accepted then s.(stream := Some(s.stream.value.(estimate := Some(r)))) else s
  {
  }

  /** A quarter of the way from the earlier value to the present one. */
  predicate Quarter(r: real, earlier: Option<Report>, previous: real, current: real)
  {
    if earlier.None? then r == current else 4.0 * (r - previous) == current - previous
  }

  /** The phases before the first own estimate, for the tests on them. */
  function PhaseOr(o: Option<Report>, field: Components -> real): real
  {
    match o case None => 0.0 case Some(r) => field(r.components)
  }

  /** An own estimate, where there is one: each phase is a quarter of the way from the last
      estimate to what is measured now, with the clock of the owner; the display interval is
      exact, and the rest of the details is carried over, or taken from the configuration. */
  lemma OwnEstimateExactly(s: Inner, number: nat, t: PhaseTiming, displayFps: nat, now: real)
    requires OwnEstimate(s, number, t, displayFps, now).Some?
    ensures s.stream.Some? && s.stream.value.owner.Some? && s.stream.value.owner.value in s.clockSyncs
    ensures var r := OwnEstimate(s, number, t, displayFps, now).value;
            var earlier, sync := s.stream.value.estimate, s.clockSyncs[s.stream.value.owner.value];
            var queued := t.sendStartTimeMs - t.captureTimeMs - t.encodeDurationMs;
            var delivered := t.receiverCompleteTimeMs - sync.offsetMs - t.sendStartTimeMs;
            var c := r.components;
            && r.number == number && number > 0 && displayFps > 0
            && (earlier.Some? ==> number > earlier.value.number)
            && Quarter(c.encodeMs, earlier, PhaseOr(earlier, (c: Components) => c.encodeMs), t.encodeDurationMs)
            && Quarter(c.senderQueueMs, earlier, PhaseOr(earlier, (c: Components) => c.senderQueueMs),
                       if queued < 0.0 then 0.0 else queued)
            && Quarter(c.deliveryMs, earlier, PhaseOr(earlier, (c: Components) => c.deliveryMs),
                       if delivered < 0.0 then 0.0 else delivered)
            && Quarter(c.receiverQueueMs, earlier, PhaseOr(earlier, (c: Components) => c.receiverQueueMs),
                       t.receiverQueueMs)
            && c.decodeDisplayMs * displayFps as real == 1000.0
            && c.totalMs == c.encodeMs + c.senderQueueMs + c.deliveryMs + c.receiverQueueMs + c.decodeDisplayMs
            && r.transportQueueMs == c.senderQueueMs + c.deliveryMs + c.receiverQueueMs
            && r.details.clockUncertaintyMs == sync.uncertaintyMs + (now - sync.receivedAt) / 20000.0
            && r.details.clockAgeMs + sync.receivedAt == now
            && (if earlier.Some?
                then r.details == earlier.value.details.(clockUncertaintyMs := r.details.clockUncertaintyMs,
                                                         clockAgeMs := r.details.clockAgeMs)
                else && r.details.writeBlockedMs == 0.0 && r.details.accessUnitBytes == 0
                     && r.details.droppedInputFrames == 0
                     && r.details.configuredBitrateMbps == s.stream.value.config.bitrateMbps
                     && r.details.adaptiveBitrateMbps == s.stream.value.config.bitrateMbps
                     && r.details.effectiveFps == s.stream.value.config.fps as real)
  {
  }

  /** There is one exactly if the active session has an owner with a clock, the frame is newer
      than the last estimate, nothing measured is negative beyond the uncertainty of the clock,
      and neither what is measured nor what comes of it is longer than 30 seconds. */
  lemma OwnEstimateWhen(s: Inner, number: nat, t: PhaseTiming, displayFps: nat, now: real)
    requires displayFps > 0 && s.stream.Some? && s.stream.value.owner.Some?
    requires s.stream.value.owner.value in s.clockSyncs
    ensures var earlier, sync := s.stream.value.estimate, s.clockSyncs[s.stream.value.owner.value];
            var u := sync.uncertaintyMs + (now - sync.receivedAt) / 20000.0;
            var queued := t.sendStartTimeMs - t.captureTimeMs - t.encodeDurationMs;
            var delivered := t.receiverCompleteTimeMs - sync.offsetMs - t.sendStartTimeMs;
            var q, d := if queued < 0.0 then 0.0 else queued, if delivered < 0.0 then 0.0 else delivered;
            var measured := t.encodeDurationMs + q + d + t.receiverQueueMs;
            OwnEstimate(s, number, t, displayFps, now).Some? <==>
              && number > 0 && (earlier.Some? ==> number > earlier.value.number)
              && queued >= -u && delivered >= -u && t.receiverQueueMs >= 0.0
              && measured + 1000.0 / displayFps as real <= 30000.0
              && (earlier.Some? ==>
                    var c := earlier.value.components;
                    var before := c.encodeMs + c.senderQueueMs + c.deliveryMs + c.receiverQueueMs;
                    before + (measured - before) / 4.0 + 1000.0 / displayFps as real <= 30000.0)
  {
  }

  /** And without these there is none. */
  lemma NoOwnEstimate(s: Inner, number: nat, t: PhaseTiming, displayFps: nat, now: real)
    requires displayFps == 0 || s.stream.None? || s.stream.value.owner.None?
             || s.stream.value.owner.value !in s.clockSyncs
    ensures OwnEstimate(s, number, t, displayFps, now).None?
  {
  }
}
