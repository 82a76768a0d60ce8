/** Sessions, connections, clock synchronisations and latency estimates, as the receiver
    keeps them behind one lock: every method is one atomic step. Times are real
    milliseconds. */
module Management {
  import opened Prelude
  import opened Latency

  const MAX_HISTORY: nat := 10000
  const ESTIMATED_LATENCY_MAX_MS := 30000.0

  type ConnectionId = string

  datatype Connection = Connection(connected: bool, sharing: bool, lastSeen: real)

  datatype ClockSync = ClockSync(offsetMs: real, uncertaintyMs: real, receivedAt: real)

  /** The values of a report that only have to be in range, and two counts that do not. */
  datatype Details = Details(writeBlockedMs: real, clockUncertaintyMs: real, clockAgeMs: real,
                             configuredBitrateMbps: real, adaptiveBitrateMbps: real, effectiveFps: real,
                             accessUnitBytes: nat, droppedInputFrames: nat)

  datatype Report = Report(number: nat, components: Components, transportQueueMs: real, details: Details)

  datatype StreamConfig = StreamConfig(bitrateMbps: real, fps: nat)

  datatype Stream = Stream(id: nat, owner: Option<ConnectionId>, config: StreamConfig, frames: nat, gaps: nat,
                           lastNumber: Option<nat>, estimate: Option<Report>)

  datatype SessionRecord = SessionRecord(id: nat, owner: Option<ConnectionId>, frames: nat, gaps: nat, reason: string)

  datatype Inner = Inner(nextSession: nat, stream: Option<Stream>, history: seq<SessionRecord>,
                         connections: map<ConnectionId, Connection>, clockSyncs: map<ConnectionId, ClockSync>)

  const New := Inner(1, None, [], map[], map[])

  // ---- one step each ----

  function SetSharing(connections: map<ConnectionId, Connection>, id: Option<ConnectionId>, sharing: bool)
    : map<ConnectionId, Connection>
  {
    if id.Some? && id.value in connections
    then connections[id.value := connections[id.value].(sharing := sharing)] else connections
  }

  function Seen(connections: map<ConnectionId, Connection>, id: Option<ConnectionId>, now: real)
    : map<ConnectionId, Connection>
  {
    if id.Some? && id.value in connections
    then connections[id.value := connections[id.value].(lastSeen := now)] else connections
  }

  function Finish(s: Inner, reason: string): Inner
  {
    match s.stream
    case None => s
    case Some(t) =>
      var records := [SessionRecord(t.id, t.owner, t.frames, t.gaps, reason)] + s.history;
      s.(stream := None, connections := SetSharing(s.connections, t.owner, false),
         history := if |records| > MAX_HISTORY then records[..MAX_HISTORY] else records)
  }

  function Greeted(s: Inner, id: ConnectionId, now: real): Inner
  {
    s.(connections := s.connections[id := Connection(true, false, now)])
  }

  predicate Owns(s: Inner, id: ConnectionId) { s.stream.Some? && s.stream.value.owner == Some(id) }

  function Closed(s: Inner, id: ConnectionId, now: real): Inner
  {
    var s' := s.(clockSyncs := s.clockSyncs - {id},
                 connections := if id in s.connections then s.connections[id := Connection(false, false, now)]
                                else s.connections);
    if Owns(s, id) then Finish(s', "disconnect") else s'
  }

  predicate Alive(s: Inner, id: ConnectionId) { id in s.connections && s.connections[id].connected }

  /** A heartbeat refreshes a connection only while it is open. */
  function Touched(s: Inner, id: ConnectionId, now: real): Inner
  {
    if Alive(s, id) then s.(connections := Seen(s.connections, Some(id), now)) else s
  }

  function Started(s: Inner, owner: Option<ConnectionId>, config: StreamConfig, now: real): Inner
  {
    var s' := if s.stream.Some? then Finish(s, "replaced") else s;
    s'.(nextSession := s'.nextSession + 1,
        clockSyncs := if owner.Some? then s'.clockSyncs - {owner.value} else s'.clockSyncs,
        connections := Seen(SetSharing(s'.connections, owner, true), owner, now),
        stream := Some(Stream(s'.nextSession, owner, config, 0, 0, None, None)))
  }

  predicate SyncAccepted(s: Inner, id: ConnectionId, uncertaintyMs: real)
  {
    0.0 <= uncertaintyMs <= ESTIMATED_LATENCY_MAX_MS && Alive(s, id)
  }

  function ClockSynced(s: Inner, id: ConnectionId, offsetMs: real, uncertaintyMs: real, now: real): Inner
  {
    if SyncAccepted(s, id, uncertaintyMs)
    then s.(clockSyncs := s.clockSyncs[id := ClockSync(offsetMs, uncertaintyMs, now)]) else s
  }

  /** The gap added by a frame, in 32-bit arithmetic. */
  function Gap(lastNumber: Option<nat>, number: nat): nat
  {
    match lastNumber
    case None => 0
    case Some(last) =>
      if number > (last + 1) % 0x1_0000_0000 then (number - last - 1) % 0x1_0000_0000 else 0
  }

  function FrameRecorded(s: Inner, number: nat, now: real): Inner
  {
    match s.stream
    case None => s
    case Some(t) =>
      s.(connections := Seen(s.connections, t.owner, now),
         stream := Some(t.(frames := t.frames + 1, gaps := t.gaps + Gap(t.lastNumber, number),
                           lastNumber := Some(number))))
  }

  function Aggregate(c: Components): real { c.senderQueueMs + c.deliveryMs + c.receiverQueueMs }

  predicate InLatencyRange(x: real) { 0.0 <= x <= ESTIMATED_LATENCY_MAX_MS }

  /** The sum checks a report has to pass. */
  predicate SumsAgree(r: Report)
  {
    && Abs(r.components.totalMs - PhaseSum(r.components)) <= 2.0
    && Abs(r.transportQueueMs - Aggregate(r.components)) <= 2.0
  }

  predicate DetailsInRange(d: Details)
  {
    && InLatencyRange(d.writeBlockedMs) && InLatencyRange(d.clockUncertaintyMs) && InLatencyRange(d.clockAgeMs)
    && InLatencyRange(d.configuredBitrateMbps) && InLatencyRange(d.adaptiveBitrateMbps)
    && InLatencyRange(d.effectiveFps)
  }

  /** The range checks: total, phases and details. */
  predicate ValuesInRange(r: Report)
  {
    && InLatencyRange(r.components.totalMs) && InLatencyRange(r.components.encodeMs)
    && InLatencyRange(r.components.senderQueueMs) && InLatencyRange(r.components.deliveryMs)
    && InLatencyRange(r.components.receiverQueueMs) && InLatencyRange(r.components.decodeDisplayMs)
    && DetailsInRange(r.details)
  }

  predicate Believable(r: Report) { r.number != 0 && ValuesInRange(r) && SumsAgree(r) }

  /** The report is the owner's, about a frame already recorded, and not older than the last. */
  predicate Applicable(s: Inner, id: ConnectionId, r: Report)
  {
    && Owns(s, id)
    && (s.stream.value.estimate.Some? ==> r.number >= s.stream.value.estimate.value.number)
    && s.stream.value.lastNumber.Some? && r.number <= s.stream.value.lastNumber.value
  }

  function Reported(s: Inner, id: ConnectionId, r: Report): Inner
  {
    if Believable(r) && Applicable(s, id, r) then s.(stream := Some(s.stream.value.(estimate := Some(r)))) else s
  }

  function Smooth(previous: Option<Report>, field: Components -> real, current: real): real
  {
    match previous case None => current case Some(r) => Blend(0.25, field(r.components), current)
  }

  /** The details of an own estimate: the clock's are measured now, the others are those of the
      last report, or of the stream before there is one. */
  function OwnDetails(t: Stream, uncertaintyMs: real, clockAgeMs: real): Details
  {
    match t.estimate
    case Some(r) => r.details.(clockUncertaintyMs := uncertaintyMs, clockAgeMs := clockAgeMs)
    case None =>
      Details(0.0, uncertaintyMs, clockAgeMs, t.config.bitrateMbps, t.config.bitrateMbps, t.config.fps as real, 0, 0)
  }

  /** The estimate the receiver computes itself for a flushed frame, if it can. */
  function OwnEstimate(s: Inner, number: nat, t: PhaseTiming, displayFps: nat, now: real): Option<Report>
  {
    if displayFps == 0 || number == 0 || s.stream.None? || s.stream.value.owner.None?
       || s.stream.value.owner.value !in s.clockSyncs then None else
    var sync := s.clockSyncs[s.stream.value.owner.value];
    var uncertaintyMs := sync.uncertaintyMs + (now - sync.receivedAt) * CLOCK_DRIFT_MS_PER_MS;
    var deliveryRaw := DeliveryRaw(t, sync.offsetMs);
    if SenderQueueRaw(t) < -uncertaintyMs || deliveryRaw < -uncertaintyMs || t.receiverQueueMs < 0.0 then None else
    var previous := s.stream.value.estimate;
    if previous.Some? && number <= previous.value.number then None else
    var decodeDisplayMs := 1000.0 / displayFps as real;
    var rawQueue := MaxReal(0.0, SenderQueueRaw(t));
    var rawDelivery := MaxReal(0.0, deliveryRaw);
    if t.encodeDurationMs + rawQueue + rawDelivery + t.receiverQueueMs + decodeDisplayMs > ESTIMATED_LATENCY_MAX_MS
    then None else
    var encodeMs := Smooth(previous, (c: Components) => c.encodeMs, t.encodeDurationMs);
    var senderQueueMs := Smooth(previous, (c: Components) => c.senderQueueMs, rawQueue);
    var deliveryMs := Smooth(previous, (c: Components) => c.deliveryMs, rawDelivery);
    var receiverQueueMs := Smooth(previous, (c: Components) => c.receiverQueueMs, t.receiverQueueMs);
    var totalMs := encodeMs + senderQueueMs + deliveryMs + receiverQueueMs + decodeDisplayMs;
    if totalMs > ESTIMATED_LATENCY_MAX_MS then None else
    Some(Report(number, Components(totalMs, encodeMs, senderQueueMs, deliveryMs, receiverQueueMs, decodeDisplayMs),
                senderQueueMs + deliveryMs + receiverQueueMs,
                OwnDetails(s.stream.value, uncertaintyMs, now - sync.receivedAt)))
  }

  function OwnEstimated(s: Inner, number: nat, t: PhaseTiming, displayFps: nat, now: real): Inner
  {
    match OwnEstimate(s, number, t, displayFps, now)
    case None => s
    case Some(r) => s.(stream := Some(s.stream.value.(estimate := Some(r))))
  }

  // ---- in place ----

  class ManagementState {
    var nextSession: nat
    var stream: Option<Stream>
    var history: seq<SessionRecord>
    var connections: map<ConnectionId, Connection>
    var clockSyncs: map<ConnectionId, ClockSync>

    function View(): Inner
      reads this
    {
      Inner(nextSession, stream, history, connections, clockSyncs)
    }

    constructor ()
      ensures View() == New
    {
      nextSession, stream, history, connections, clockSyncs := 1, None, [], map[], map[];
    }

    method Hello(id: ConnectionId, now: real)
      modifies this
      ensures View() == Greeted(old(View()), id, now)
    {
      connections := connections[id := Connection(true, false, now)];
    }

    method ConnectionClosed(id: ConnectionId, now: real) returns (senderWasActive: bool)
      modifies this
      ensures View() == Closed(old(View()), id, now) && senderWasActive == Owns(old(View()), id)
    {
      clockSyncs := clockSyncs - {id};
      if id in connections {
        connections := connections[id := Connection(false, false, now)];
      }
      senderWasActive := stream.Some? && stream.value.owner == Some(id);
      if senderWasActive { FinishLocked("disconnect"); }
    }

    method TouchConnection(id: ConnectionId, now: real) returns (touched: bool)
      modifies this
      ensures View() == Touched(old(View()), id, now) && touched == Alive(old(View()), id)
    {
      touched := id in connections && connections[id].connected;
      if touched { connections := connections[id := connections[id].(lastSeen := now)]; }
    }

    method FinishLocked(reason: string)
      modifies this
      ensures View() == Finish(old(View()), reason)
    {
      if stream.None? { return; }
      var t := stream.value;
      stream := None;
      if t.owner.Some? && t.owner.value in connections {
        connections := connections[t.owner.value := connections[t.owner.value].(sharing := false)];
      }
      history := [SessionRecord(t.id, t.owner, t.frames, t.gaps, reason)] + history;
      if |history| > MAX_HISTORY { history := history[..MAX_HISTORY]; }
    }

    method Start(owner: Option<ConnectionId>, config: StreamConfig, now: real)
      modifies this
      ensures View() == Started(old(View()), owner, config, now)
    {
      if stream.Some? { FinishLocked("replaced"); }
      var id := nextSession;
      nextSession := nextSession + 1;
      if owner.Some? {
        clockSyncs := clockSyncs - {owner.value};
        if owner.value in connections {
          connections := connections[owner.value := connections[owner.value].(sharing := true, lastSeen := now)];
        }
      }
      stream := Some(Stream(id, owner, config, 0, 0, None, None));
    }

    method Stop(reason: string) returns (changed: bool)
      modifies this
      ensures View() == Finish(old(View()), reason) && changed == old(View()).stream.Some?
    {
      changed := stream.Some?;
      if changed { FinishLocked(reason); }
    }

    method RecordClockSync(id: ConnectionId, offsetMs: real, uncertaintyMs: real, now: real) returns (accepted: bool)
      modifies this
      ensures View() == ClockSynced(old(View()), id, offsetMs, uncertaintyMs, now)
      ensures accepted == SyncAccepted(old(View()), id, uncertaintyMs)
    {
      if uncertaintyMs < 0.0 || uncertaintyMs > ESTIMATED_LATENCY_MAX_MS { return false; }
      accepted := id in connections && connections[id].connected;
      if accepted { clockSyncs := clockSyncs[id := ClockSync(offsetMs, uncertaintyMs, now)]; }
    }

    method RecordFrame(number: nat, now: real)
      modifies this
      ensures View() == FrameRecorded(old(View()), number, now)
    {
      if stream.None? { return; }
      var t := stream.value;
      if t.owner.Some? && t.owner.value in connections {
        connections := connections[t.owner.value := connections[t.owner.value].(lastSeen := now)];
      }
      var gaps := t.gaps;
      if t.lastNumber.Some? {
        var last := t.lastNumber.value;
        if number > (last + 1) % 0x1_0000_0000 { gaps := gaps + (number - last - 1) % 0x1_0000_0000; }
      }
      stream := Some(t.(frames := t.frames + 1, gaps := gaps, lastNumber := Some(number)));
    }

    method RecordEstimatedLatency(id: ConnectionId, r: Report) returns (accepted: bool)
      modifies this
      ensures View() == Reported(old(View()), id, r)
      ensures accepted == (Believable(r) && Applicable(old(View()), id, r))
    {
      if r.number == 0 || !ValuesInRange(r) || !SumsAgree(r) { return false; }
      if stream.None? { return false; }
      var t := stream.value;
      var owned := t.owner == Some(id);
      var newer := t.estimate.None? || r.number > t.estimate.value.number;
      var same := t.estimate.Some? && t.estimate.value.number == r.number;
      var submitted := t.lastNumber.Some? && r.number <= t.lastNumber.value;
      accepted := owned && (newer || same) && submitted;
      if accepted { stream := Some(t.(estimate := Some(r))); }
    }

    method RecordReceiverEstimatedLatency(number: nat, t: PhaseTiming, displayFps: nat, now: real)
        returns (accepted: bool)
      modifies this
      ensures View() == OwnEstimated(old(View()), number, t, displayFps, now)
      ensures accepted == OwnEstimate(old(View()), number, t, displayFps, now).Some?
    {
      if displayFps == 0 || number == 0 { return false; }
      if stream.None? || stream.value.owner.None? { return false; }
      var active := stream.value;
      if active.owner.value !in clockSyncs { return false; }
      var sync := clockSyncs[active.owner.value];
      var syncAgeMs := now - sync.receivedAt;
      var uncertaintyMs := sync.uncertaintyMs + syncAgeMs * CLOCK_DRIFT_MS_PER_MS;
      var senderRawMs := t.sendStartTimeMs - t.captureTimeMs - t.encodeDurationMs;
      var deliveryRawMs := t.receiverCompleteTimeMs - sync.offsetMs - t.sendStartTimeMs;
      if senderRawMs < -uncertaintyMs || deliveryRawMs < -uncertaintyMs || t.receiverQueueMs < 0.0 { return false; }
      var previous := active.estimate;
      if previous.Some? && number <= previous.value.number { return false; }
      var rawSenderQueueMs, rawDeliveryMs := MaxReal(0.0, senderRawMs), MaxReal(0.0, deliveryRawMs);
      var decodeDisplayMs := 1000.0 / displayFps as real;
      var rawTotalMs := t.encodeDurationMs + rawSenderQueueMs + rawDeliveryMs + t.receiverQueueMs + decodeDisplayMs;
      if rawTotalMs > ESTIMATED_LATENCY_MAX_MS { return false; }
      var encodeMs, senderQueueMs, deliveryMs, receiverQueueMs :=
        t.encodeDurationMs, rawSenderQueueMs, rawDeliveryMs, t.receiverQueueMs;
      if previous.Some? {
        var p := previous.value.components;
        encodeMs, senderQueueMs := Blend(0.25, p.encodeMs, encodeMs), Blend(0.25, p.senderQueueMs, senderQueueMs);
        deliveryMs := Blend(0.25, p.deliveryMs, deliveryMs);
        receiverQueueMs := Blend(0.25, p.receiverQueueMs, receiverQueueMs);
      }
      var totalMs := encodeMs + senderQueueMs + deliveryMs + receiverQueueMs + decodeDisplayMs;
      if totalMs > ESTIMATED_LATENCY_MAX_MS { return false; }
      var components := Components(totalMs, encodeMs, senderQueueMs, deliveryMs, receiverQueueMs, decodeDisplayMs);
      var details := OwnDetails(active, uncertaintyMs, syncAgeMs);
      var r := Report(number, components, senderQueueMs + deliveryMs + receiverQueueMs, details);
      stream := Some(active.(estimate := Some(r)));
      return true;
    }
  }
}
