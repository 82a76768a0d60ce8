/** Concurrent callers. A call is several atomic steps: it reads the last-completed number,
    perhaps stores zero into it and then clears the table under the lock, and finally runs
    the critical section under the lock with the number it read at first. A run is any
    interleaving of such steps by any number of tasks. */
module ReassemblyConcurrent {
  import opened Prelude
  import opened Wire
  import opened Reassembly
  import opened ReassemblyTable

  datatype Continuation =
    | Return(stop: bool)
    | Continue(lastSeen: nat, body: Option<Chunk>)

  datatype Phase =
    | Idle
    | Loaded(number: nat, body: Option<Chunk>, lastSeen: nat)
    | Clearing(after: Continuation)   // zero is stored, the table is not cleared yet
    | Waiting(lastSeen: nat, body: Option<Chunk>)

  /** `entered` holds the chunks that have reached the table. */
  datatype World = World(shared: State, tasks: map<nat, Phase>, entered: set<Chunk>, output: seq<Frame>)

  datatype Move =
    | Arrive(task: nat, packet: Parsed)
    | StartReset(task: nat)
    | Decide(task: nat)
    | Clear(task: nat)
    | Enter(task: nat, now: int)

  function PhaseOf(w: World, task: nat): Phase
  {
    if task in w.tasks then w.tasks[task] else Idle
  }

  function Goto(w: World, task: nat, phase: Phase): World { w.(tasks := w.tasks[task := phase]) }

  /** One atomic step; a step that is not enabled does nothing. */
  function Next(w: World, m: Move): World
  {
    match (m, PhaseOf(w, m.task))
    case (Arrive(t, p), Idle) =>
      (match p
       case Unrecognised => w.(shared := Ignore(w.shared))
       case StopMarker => Goto(w.(shared := w.shared.(last := 0)), t, Clearing(Return(true)))
       case Media(number, body) => Goto(w, t, Loaded(number, body, w.shared.last)))
    case (StartReset(t), Idle) =>
      Goto(w.(shared := w.shared.(last := 0)), t, Clearing(Return(false)))
    case (Decide(t), Loaded(number, body, lastSeen)) =>
      if Repeats(number, lastSeen) then Goto(w.(shared := Ignore(w.shared)), t, Idle)
      else if Restarts(number, lastSeen)
      then Goto(w.(shared := w.shared.(last := 0)), t, Clearing(Continue(lastSeen, body)))
      else Goto(w, t, Waiting(lastSeen, body))
    case (Clear(t), Clearing(after)) =>
      var w' := w.(shared := w.shared.(table := []));
      (match after
       case Return(stop) => Goto(w'.(output := w'.output + if stop then [StopFrame] else []), t, Idle)
       case Continue(lastSeen, body) => Goto(w', t, Waiting(lastSeen, body)))
    case (Enter(t, now), Waiting(lastSeen, body)) =>
      (match body
       case None => Goto(w.(shared := Ignore(w.shared)), t, Idle)
       case Some(c) =>
         var r := Assemble(w.shared, lastSeen, c, now);
         Goto(World(r.0, w.tasks, w.entered + {c}, w.output + FrameList(r.1)), t, Idle))
    case _ => w
  }

  function Interleave(w: World, moves: seq<Move>): World
  {
    if moves == [] then w else Next(Interleave(w, moves[..|moves| - 1]), moves[|moves| - 1])
  }

  const Start := World(Initial, map[], {}, [])

  // ---- where the bytes come from ----

  ghost predicate Supplies(entered: set<Chunk>, number: nat, h: Header, i: nat, payload: bytes)
  {
    exists c :: c in entered && c.number == number && c.index == i && c.payload == payload && SameHeader(h, c.header)
  }

  /** Every filled slot came from a packet with this number, index and header. */
  ghost predicate Sourced(a: Assembly, entered: set<Chunk>)
  {
    forall i :: 0 <= i < |a.chunks| && a.chunks[i].Some? ==> Supplies(entered, a.number, a.header, i, a.chunks[i].value)
  }

  ghost predicate AllSourced(t: seq<Assembly>, entered: set<Chunk>)
  {
    forall a :: a in t ==> Sourced(a, entered)
  }

  /** The frame is the join, in index order, of one payload for each index, all from
      packets with its number and one header. */
  ghost predicate FrameSourced(f: Frame, entered: set<Chunk>)
  {
    f.AccessUnit? ==>
      exists pieces: seq<bytes> ::
        && |pieces| == f.header.total
        && f.data == Flatten(pieces)
        && forall i :: 0 <= i < |pieces| ==> Supplies(entered, f.number, f.header, i, pieces[i])
  }

  lemma FillSourced(a: Assembly, c: Chunk, entered: set<Chunk>)
    requires Sourced(a, entered) && c in entered && c.number == a.number && SameHeader(a.header, c.header)
    ensures Sourced(Fill(a, c), entered)
  {
    assert Supplies(entered, a.number, a.header, c.index, c.payload);
  }

  lemma OpenSourced(c: Chunk, now: int, entered: set<Chunk>)
    requires c in entered
    ensures Sourced(Open(c, now), entered)
  {
    assert Supplies(entered, c.number, c.header, c.index, c.payload);
  }

  lemma PlaceSourced(s: State, c: Chunk, now: int, entered: set<Chunk>)
    requires AllSourced(s.table, entered) && c in entered && Place(s, c, now).Some?
    ensures AllSourced(Place(s, c, now).value.table, entered)
  {
    var t' := Place(s, c, now).value.table;
    var i := Position(Numbered(c.number), s.table);
    if i < |s.table| {
      assert s.table[i] in s.table;
      if s.table[i].chunks[c.index].None? { FillSourced(s.table[i], c, entered); }
    } else {
      OpenSourced(c, now, entered);
    }
    forall a | a in t' ensures Sourced(a, entered) {
      var j :| 0 <= j < |t'| && t'[j] == a;
      if j < |s.table| {
        assert s.table[j] in s.table;
        if j + 1 < |s.table| { assert s.table[j + 1] in s.table; }
      }
    }
  }

  lemma {:induction false} GatherIsFlatten(chunks: seq<Option<bytes>>) returns (pieces: seq<bytes>)
    requires Full(chunks)
    ensures |pieces| == |chunks| && Gather(chunks) == Some(Flatten(pieces))
    ensures forall i :: 0 <= i < |pieces| ==> chunks[i] == Some(pieces[i])
  {
    if chunks == [] {
      pieces := [];
    } else {
      assert chunks[0].Some?;
      var rest := GatherIsFlatten(chunks[1..]);
      pieces := [chunks[0].value] + rest;
      forall i | 0 <= i < |pieces| ensures chunks[i] == Some(pieces[i]) {
        if i > 0 { assert chunks[1..][i - 1] == Some(rest[i - 1]); }
      }
    }
  }

  lemma CompleteSourced(s: State, number: nat, entered: set<Chunk>)
    requires PlacedOK(s.table, number) && AllSourced(s.table, entered)
    ensures var r := Complete(s, number);
            AllSourced(r.0.table, entered) && (r.1.Some? ==> FrameSourced(r.1.value, entered))
  {
    var i := Position(Finished(number), s.table);
    if i < |s.table| {
      TakenIsFull(s.table, number);
      var done := s.table[i];
      assert done in s.table;
      var pieces := GatherIsFlatten(done.chunks);
      var f := Complete(s, number).1;
      if f.Some? {
        assert f.value == AccessUnit(done.number, done.header, Flatten(pieces), done.firstAt);
        forall k | 0 <= k < |pieces| ensures Supplies(entered, done.number, done.header, k, pieces[k]) {
          assert done.chunks[k].Some?;
        }
        assert FrameSourced(f.value, entered);
      }
    }
  }

  lemma AssembleSourced(s: State, lastSeen: nat, c: Chunk, now: int, entered: set<Chunk>)
    requires TableOK(s.table) && AllSourced(s.table, entered) && c in entered
    ensures var r := Assemble(s, lastSeen, c, now);
            AllSourced(r.0.table, entered) && (r.1.Some? ==> FrameSourced(r.1.value, entered))
  {
    FilterTable(Live(now, lastSeen), s.table);
    var e := Expire(s, lastSeen, now);
    if Place(e, c, now).Some? {
      PlaceKeeps(e, c, now);
      PlaceSourced(e, c, now, entered);
      CompleteSourced(Place(e, c, now).value, c.number, entered);
    }
  }

  lemma SourcedGrows(a: Assembly, entered: set<Chunk>, more: set<Chunk>)
    requires Sourced(a, entered) && entered <= more
    ensures Sourced(a, more)
  {
    forall i | 0 <= i < |a.chunks| && a.chunks[i].Some?
      ensures Supplies(more, a.number, a.header, i, a.chunks[i].value)
    {
      assert Supplies(entered, a.number, a.header, i, a.chunks[i].value);
    }
  }

  lemma FrameSourcedGrows(f: Frame, entered: set<Chunk>, more: set<Chunk>)
    requires FrameSourced(f, entered) && entered <= more
    ensures FrameSourced(f, more)
  {
    if f.AccessUnit? {
      var pieces: seq<bytes> :| |pieces| == f.header.total && f.data == Flatten(pieces)
        && forall i :: 0 <= i < |pieces| ==> Supplies(entered, f.number, f.header, i, pieces[i]);
      forall i | 0 <= i < |pieces| ensures Supplies(more, f.number, f.header, i, pieces[i]) {
        assert Supplies(entered, f.number, f.header, i, pieces[i]);
      }
    }
  }

  // ---- every interleaving ----

  ghost predicate Safe(w: World)
  {
    TableOK(w.shared.table) && AllSourced(w.shared.table, w.entered)
    && forall f :: f in w.output ==> FrameSourced(f, w.entered)
  }

  lemma EnterSafe(w: World, lastSeen: nat, c: Chunk, now: int)
    requires Safe(w)
    ensures var r := Assemble(w.shared, lastSeen, c, now);
            Safe(World(r.0, w.tasks, w.entered + {c}, w.output + FrameList(r.1)))
  {
    var more := w.entered + {c};
    forall a | a in w.shared.table ensures Sourced(a, more) {
      SourcedGrows(a, w.entered, more);
    }
    AssembleKeeps(w.shared, lastSeen, c, now);
    AssembleSourced(w.shared, lastSeen, c, now, more);
    forall f | f in w.output ensures FrameSourced(f, more) {
      FrameSourcedGrows(f, w.entered, more);
    }
  }

  lemma NextSafe(w: World, m: Move)
    requires Safe(w)
    ensures Safe(Next(w, m))
  {
    match (m, PhaseOf(w, m.task)) {
      case (Enter(t, now), Waiting(lastSeen, body)) =>
        if body.Some? { EnterSafe(w, lastSeen, body.value, now); }
      case _ =>
    }
  }

  /** Whatever the interleaving: at most 32 entries with distinct numbers, each with one
      slot for each chunk of its header, a correct count and a chunk still missing; every
      filled slot and every emitted frame made of packets with one identical header. */
  lemma {:induction false} InterleavingsSafe(w: World, moves: seq<Move>)
    requires Safe(w)
    ensures Safe(Interleave(w, moves))
  {
    if moves == [] {
    } else {
      InterleavingsSafe(w, moves[..|moves| - 1]);
      NextSafe(Interleave(w, moves[..|moves| - 1]), moves[|moves| - 1]);
    }
  }

  /** In every interleaving, an assembly taken for emission has all its slots filled: the
      early return that drops a frame with an empty slot cannot be reached. */
  lemma EmptySlotUnreachable(moves: seq<Move>, lastSeen: nat, c: Chunk, now: int)
    ensures var s := Interleave(Start, moves).shared;
            var placed := Place(Expire(s, lastSeen, now), c, now);
            placed.Some? ==>
              var i := Position(Finished(c.number), placed.value.table);
              i < |placed.value.table| ==>
                Full(placed.value.table[i].chunks) && Gather(placed.value.table[i].chunks).Some?
  {
    assert Safe(Start);
    InterleavingsSafe(Start, moves);
    var s := Interleave(Start, moves).shared;
    FilterTable(Live(now, lastSeen), s.table);
    var e := Expire(s, lastSeen, now);
    if Place(e, c, now).Some? {
      PlaceKeeps(e, c, now);
      TakenIsFull(Place(e, c, now).value.table, c.number);
    }
  }

  /** A call that nothing interrupts is the sequential call. */
  lemma Uninterrupted(w: World, t: nat, p: Parsed, now: int)
    requires PhaseOf(w, t) == Idle
    ensures var w' := Next(Next(Next(Next(w, Arrive(t, p)), Decide(t)), Clear(t)), Enter(t, now));
            && PhaseOf(w', t) == Idle
            && w'.shared == Deliver(w.shared, p, now).0
            && w'.output == w.output + FrameList(Deliver(w.shared, p, now).1)
  {
    var w1 := Next(w, Arrive(t, p));
    var w2 := Next(w1, Decide(t));
    var w3 := Next(w2, Clear(t));
    match p {
      case Unrecognised =>
      case StopMarker =>
        assert w3.shared == Reset(w.shared);
      case Media(number, body) =>
        assert w1.tasks[t] == Loaded(number, body, w.shared.last);
        if Repeats(number, w.shared.last) {
          assert PhaseOf(w2, t) == Idle;
        } else {
          assert PhaseOf(w3, t) == Waiting(w.shared.last, body);
          assert w3.shared == if Restarts(number, w.shared.last) then Reset(w.shared) else w.shared;
        }
    }
  }

  /** So is a reset: it forgets the number and the table and emits nothing. */
  lemma UninterruptedReset(w: World, t: nat)
    requires PhaseOf(w, t) == Idle
    ensures var w' := Next(Next(w, StartReset(t)), Clear(t));
            && PhaseOf(w', t) == Idle && w'.output == w.output && w'.entered == w.entered
            && w'.shared == State(0, [], w.shared.counters)
  {
    assert w.output + [] == w.output;
  }

  /** Order is not safe under interleaving: two tasks that read the last-completed number
      before either enters can both emit the same frame. */
  lemma RaceEmitsTwice(c: Chunk, now: int)
    requires c.header.total == 1
    ensures var read := Next(Next(Start, Arrive(0, Media(c.number, Some(c)))), Arrive(1, Media(c.number, Some(c))));
            var decided := Next(Next(read, Decide(0)), Decide(1));
            Next(Next(decided, Enter(0, now)), Enter(1, now)).output
            == [AccessUnit(c.number, c.header, c.payload, now), AccessUnit(c.number, c.header, c.payload, now)]
  {
    var p := Media(c.number, Some(c));
    var read := Next(Next(Start, Arrive(0, p)), Arrive(1, p));
    assert PhaseOf(read, 0) == PhaseOf(read, 1) == Loaded(c.number, Some(c), 0);
    var decided := Next(Next(read, Decide(0)), Decide(1));
    assert PhaseOf(decided, 0) == PhaseOf(decided, 1) == Waiting(0, Some(c));
    var frame := AccessUnit(c.number, c.header, c.payload, now);
    SingleChunk(decided.shared, 0, c, now);
    hide Assemble;
    var once := Next(decided, Enter(0, now));
    assert once.output == [frame] && PhaseOf(once, 1) == Waiting(0, Some(c));
    SingleChunk(once.shared, 0, c, now);
  }
}
