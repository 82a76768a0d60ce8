/** Bounded access-unit reassembly.

    The specification is a state machine over values: `Deliver` is one call with a packet
    and `Reset` one pipeline reset. The class `Reassembler` does the same work in place,
    field by field, and is proved equal to it. The critical section is a function of
    its own, `Assemble`, because it runs under a lock with a last-completed number that
    was read before the lock was taken. */
module Reassembly {
  import opened Prelude
  import opened Wire

  const MAX_IN_FLIGHT: nat := 32

  // Time is in nanoseconds; a partial frame lives for 50 ms.
  const ASSEMBLY_TTL := 50_000_000

  datatype RawAssembly =
    Assembly(number: nat, header: Header, chunks: seq<Option<bytes>>, received: nat, firstAt: int)

  /** A partial frame always has one slot for each chunk of its header. */
  type Assembly = a: RawAssembly | |a.chunks| == a.header.total
    witness Assembly(0, Header(0, 1, 1, H264, Untimed), [], 0, 0)

  datatype Frame =
    | StopFrame
    | AccessUnit(number: nat, header: Header, data: bytes, firstAt: int)

  datatype Counters = Counters(completed: nat, timedOut: nat, evicted: nat, ignored: nat)

  datatype State = State(last: nat, table: seq<Assembly>, counters: Counters)

  const Initial := State(0, [], Counters(0, 0, 0, 0))

  // ---- the pieces of one call ----

  function Ignore(s: State): State
  {
    s.(counters := s.counters.(ignored := s.counters.ignored + 1))
  }

  function Reset(s: State): State { s.(last := 0, table := []) }

  /** A number at or below the last completed one restarts the stream ... */
  predicate Restarts(number: nat, lastSeen: nat)
  {
    number <= lastSeen && lastSeen > 0 && (number <= 5 || number < lastSeen)
  }

  /** ... except an exact repeat of a number above 5, which is ignored. */
  predicate Repeats(number: nat, lastSeen: nat)
  {
    number <= lastSeen && lastSeen > 0 && !Restarts(number, lastSeen)
  }

  function Live(now: int, lastSeen: nat): Assembly -> bool
  {
    (a: Assembly) => now - a.firstAt <= ASSEMBLY_TTL && a.number > lastSeen
  }

  function Above(number: nat): Assembly -> bool { (a: Assembly) => a.number > number }

  function Numbered(number: nat): Assembly -> bool { (a: Assembly) => a.number == number }

  function Finished(number: nat): Assembly -> bool
  {
    (a: Assembly) => a.number == number && a.received == a.header.total
  }

  function Open(c: Chunk, now: int): Assembly
  {
    Assembly(c.number, c.header, seq(c.header.total, _ => None)[c.index := Some(c.payload)], 1, now)
  }

  function Fill(a: Assembly, c: Chunk): Assembly
    requires c.index < a.header.total
  {
    a.(chunks := a.chunks[c.index := Some(c.payload)], received := a.received + 1)
  }

  function Size(chunks: seq<Option<bytes>>): nat
  {
    if chunks == [] then 0
    else (match chunks[0] case None => 0 case Some(b) => |b|) + Size(chunks[1..])
  }

  function Prepend(a: bytes, rest: Option<bytes>): Option<bytes>
  {
    match rest case None => None case Some(r) => Some(a + r)
  }

  /** The chunks joined in index order, or nothing if a slot is empty. */
  function Gather(chunks: seq<Option<bytes>>): Option<bytes>
  {
    if chunks == [] then Some([])
    else match chunks[0] case None => None case Some(b) => Prepend(b, Gather(chunks[1..]))
  }

  /** Takes a finished assembly out of the table and emits its frame. */
  function Complete(s: State, number: nat): (State, Option<Frame>)
  {
    var i := Position(Finished(number), s.table);
    if i == |s.table| then (s, None) else
    var done := s.table[i];
    var s' := s.(last := done.number, table := Filter(Above(done.number), Without(s.table, i)));
    var size := Size(done.chunks);
    if size == 0 || size > MAX_ACCESS_UNIT_BYTES then (Ignore(s'), None) else
    match Gather(done.chunks)
    case None => (s', None)
    case Some(data) =>
      (s'.(counters := s'.counters.(completed := s'.counters.completed + 1)),
       Some(AccessUnit(done.number, done.header, data, done.firstAt)))
  }

  /** Drops the expired and stale entries and counts them. */
  function Expire(s: State, lastSeen: nat, now: int): State
  {
    var kept := Filter(Live(now, lastSeen), s.table);
    s.(table := kept, counters := s.counters.(timedOut := s.counters.timedOut + (|s.table| - |kept|)))
  }

  /** Makes room for one more entry, dropping the one opened longest ago. */
  function MakeRoom(s: State): State
  {
    if |s.table| == MAX_IN_FLIGHT
    then s.(table := s.table[1..], counters := s.counters.(evicted := s.counters.evicted + 1))
    else s
  }

  /** Puts the chunk into its slot, opening a new assembly if there is none.
      `None` if the chunk disagrees with the open assembly. */
  function Place(s: State, c: Chunk, now: int): Option<State>
  {
    var i := Position(Numbered(c.number), s.table);
    if i < |s.table| then
      var a := s.table[i];
      if !SameHeader(a.header, c.header) then None
      else if a.chunks[c.index].None? then Some(s.(table := s.table[i := Fill(a, c)]))
      else Some(Ignore(s))
    else
      var r := MakeRoom(s);
      Some(r.(table := r.table + [Open(c, now)]))
  }

  /** The critical section of one call, for a last-completed number read earlier. */
  function Assemble(s: State, lastSeen: nat, c: Chunk, now: int): (State, Option<Frame>)
  {
    var e := Expire(s, lastSeen, now);
    match Place(e, c, now)
    case None => (Ignore(e), None)
    case Some(placed) => Complete(placed, c.number)
  }

  /** One whole call. */
  function Deliver(s: State, p: Parsed, now: int): (State, Option<Frame>)
  {
    match p
    case StopMarker => (Reset(s), Some(StopFrame))
    case Unrecognised => (Ignore(s), None)
    case Media(number, body) =>
      if Repeats(number, s.last) then (Ignore(s), None) else
      var r := if Restarts(number, s.last) then Reset(s) else s;
      match body
      case None => (Ignore(r), None)
      case Some(c) => Assemble(r, s.last, c, now)
  }

  // ---- runs ----

  datatype Event = Arrival(packet: Parsed, now: int) | PipelineReset

  function Step(s: State, e: Event): (State, Option<Frame>)
  {
    match e
    case Arrival(p, now) => Deliver(s, p, now)
    case PipelineReset => (Reset(s), None)
  }

  function After(s: State, events: seq<Event>): State
  {
    if events == [] then s else Step(After(s, events[..|events| - 1]), events[|events| - 1]).0
  }

  function Emitted(s: State, events: seq<Event>): seq<Frame>
  {
    if events == [] then [] else
    var before := events[..|events| - 1];
    Emitted(s, before) + FrameList(Step(After(s, before), events[|events| - 1]).1)
  }

  function FrameList(f: Option<Frame>): seq<Frame>
  {
    match f case None => [] case Some(frame) => [frame]
  }

  // ---- in place ----

  datatype ReassemblyStats = ReassemblyStats(inFlight: nat, droppedAccessUnits: nat, ignoredPackets: nat)

  class Reassembler {
    var assemblies: seq<Assembly>
    var lastCompleted: nat
    var completed: nat
    var droppedTimeout: nat
    var droppedEvicted: nat
    var ignoredPackets: nat
    // Every call so far, and the frames returned to callers.
    ghost var history: seq<Event>
    ghost var output: seq<Frame>

    ghost function View(): State
      reads this
    {
      State(lastCompleted, assemblies, Counters(completed, droppedTimeout, droppedEvicted, ignoredPackets))
    }

    /** The fields and the output are exactly what the history produces. */
    ghost predicate Valid()
      reads this
    {
      View() == After(Initial, history) && output == Emitted(Initial, history)
    }

    constructor ()
      ensures Valid() && View() == Initial && history == [] && output == []
    {
      assemblies, lastCompleted := [], 0;
      completed, droppedTimeout, droppedEvicted, ignoredPackets := 0, 0, 0, 0;
      history, output := [], [];
    }

    method Stats() returns (stats: ReassemblyStats)
      ensures stats.inFlight == |View().table|
      ensures stats.droppedAccessUnits == View().counters.timedOut + View().counters.evicted
      ensures stats.ignoredPackets == View().counters.ignored
    {
      stats := ReassemblyStats(|assemblies|, droppedTimeout + droppedEvicted, ignoredPackets);
    }

    method ResetFields()
      modifies this`lastCompleted, this`assemblies
      ensures View() == Reset(old(View()))
    {
      lastCompleted := 0;
      assemblies := [];
    }

    method ResetDecoderPipeline()
      requires Valid()
      modifies this
      ensures Valid() && history == old(history) + [PipelineReset] && output == old(output)
      ensures lastCompleted == 0 && assemblies == []
    {
      ResetFields();
      history := history + [PipelineReset];
      assert history[..|history| - 1] == old(history);
    }

    method IgnorePacket()
      modifies this`ignoredPackets
      ensures View() == Ignore(old(View()))
    {
      ignoredPackets := ignoredPackets + 1;
    }

    /** Joins the chunks of a finished assembly; stops at the first empty slot. */
    static method Join(chunks: seq<Option<bytes>>) returns (data: Option<bytes>)
      ensures data == Gather(chunks)
    {
      var accessUnit: bytes := [];
      var i := 0;
      assert forall rest: bytes :: [] + rest == rest;
      assert chunks[0..] == chunks;
      while i < |chunks|
        invariant 0 <= i <= |chunks|
        invariant Gather(chunks) == Prepend(accessUnit, Gather(chunks[i..]))
      {
        assert chunks[i..][1..] == chunks[i + 1..];
        match chunks[i] {
          case None => return None;
          case Some(b) =>
            assert forall rest: bytes :: accessUnit + (b + rest) == accessUnit + b + rest;
            accessUnit := accessUnit + b;
        }
        i := i + 1;
      }
      assert chunks[i..] == [] && accessUnit + [] == accessUnit;
      return Some(accessUnit);
    }

    static method TotalSize(chunks: seq<Option<bytes>>) returns (size: nat)
      ensures size == Size(chunks)
    {
      size := 0;
      for i := 0 to |chunks|
        invariant size + Size(chunks[i..]) == Size(chunks)
      {
        assert chunks[i..][1..] == chunks[i + 1..];
        match chunks[i] {
          case None =>
          case Some(b) => size := size + |b|;
        }
      }
    }

    method TakeCompleted(number: nat) returns (frame: Option<Frame>)
      modifies this`assemblies, this`lastCompleted, this`completed, this`ignoredPackets
      ensures (View(), frame) == Complete(old(View()), number)
    {
      var index := Position(Finished(number), assemblies);
      if index == |assemblies| { return None; }
      var done := assemblies[index];
      assemblies := Without(assemblies, index);
      lastCompleted := done.number;
      assemblies := Filter(Above(done.number), assemblies);
      var size := TotalSize(done.chunks);
      if size == 0 || size > MAX_ACCESS_UNIT_BYTES {
        IgnorePacket();
        return None;
      }
      var data := Join(done.chunks);
      if data.None? { return None; }
      completed := completed + 1;
      return Some(AccessUnit(done.number, done.header, data.value, done.firstAt));
    }

    /** What happens between taking and releasing the lock. */
    method UpdateTable(lastSeen: nat, c: Chunk, now: int) returns (frame: Option<Frame>)
      modifies this`assemblies, this`lastCompleted, this`completed, this`ignoredPackets,
               this`droppedTimeout, this`droppedEvicted
      ensures (View(), frame) == Assemble(old(View()), lastSeen, c, now)
    {
      var initialLen := |assemblies|;
      assemblies := Filter(Live(now, lastSeen), assemblies);
      var expired := initialLen - |assemblies|;
      if expired > 0 { droppedTimeout := droppedTimeout + expired; }
      assert View() == Expire(old(View()), lastSeen, now);

      var placed := PlaceChunk(c, now);
      if !placed {
        IgnorePacket();
        return None;
      }
      frame := TakeCompleted(c.number);
    }

    /** Stores the chunk; false if it disagrees with the open assembly. */
    method PlaceChunk(c: Chunk, now: int) returns (placed: bool)
      modifies this`assemblies, this`ignoredPackets, this`droppedEvicted
      ensures placed ==> Place(old(View()), c, now) == Some(View())
      ensures !placed ==> Place(old(View()), c, now) == None && View() == old(View())
    {
      var index := Position(Numbered(c.number), assemblies);
      if index < |assemblies| {
        var entry := assemblies[index];
        if !SameHeader(entry.header, c.header) { return false; }
        if entry.chunks[c.index].None? {
          assemblies := assemblies[index := Fill(entry, c)];
        } else {
          ignoredPackets := ignoredPackets + 1;
        }
      } else {
        if |assemblies| == MAX_IN_FLIGHT {
          assemblies := assemblies[1..];
          droppedEvicted := droppedEvicted + 1;
        }
        assemblies := assemblies + [Open(c, now)];
      }
      return true;
    }

    /** One call with a packet, as the network tasks make it. */
    method ProcessChunk(packet: bytes, now: int) returns (frame: Option<Frame>)
      requires Valid()
      modifies this
      ensures Valid()
      ensures history == old(history) + [Arrival(Parse(packet), now)]
      ensures output == old(output) + FrameList(frame)
      ensures (View(), frame) == Deliver(old(View()), Parse(packet), now)
    {
      frame := ProcessParsed(Parse(packet), now);
      history := history + [Arrival(Parse(packet), now)];
      output := output + FrameList(frame);
      assert history[..|history| - 1] == old(history);
    }

    method ProcessParsed(p: Parsed, now: int) returns (frame: Option<Frame>)
      modifies this`assemblies, this`lastCompleted, this`completed, this`ignoredPackets,
               this`droppedTimeout, this`droppedEvicted
      ensures (View(), frame) == Deliver(old(View()), p, now)
    {
      match p
      case StopMarker =>
        ResetFields();
        frame := Some(StopFrame);
      case Unrecognised =>
        IgnorePacket();
        frame := None;
      case Media(number, body) =>
        var lastSeen := lastCompleted;
        if number <= lastSeen && lastSeen > 0 {
          if number <= 5 || number < lastSeen {
            ResetFields();
          } else {
            IgnorePacket();
            return None;
          }
        }
        if body.None? {
          IgnorePacket();
          return None;
        }
        frame := UpdateTable(lastSeen, body.value, now);
    }
  }
}
