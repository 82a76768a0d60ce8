/** Bookkeeping over whole runs: every assembly ever opened has exactly one fate, and
    between resets the emitted numbers increase. */
module ReassemblyLedger {
  import opened Prelude
  import opened Wire
  import opened Reassembly
  import opened ReassemblyTable

  /** What became of assemblies during a call or a run. */
  datatype Fates = Fates(
    started: nat,
    emitted: nat,     // returned as a frame
    oversize: nat,    // finished, but longer than an access unit may be
    timedOut: nat,    // expired or stale when a later call came
    evicted: nat,     // dropped to make room
    purged: nat,      // at or below a number that was just finished
    cleared: nat)     // thrown away by a pipeline reset

  const NoFates := Fates(0, 0, 0, 0, 0, 0, 0)

  function Plus(a: Fates, b: Fates): Fates
  {
    Fates(a.started + b.started, a.emitted + b.emitted, a.oversize + b.oversize, a.timedOut + b.timedOut,
          a.evicted + b.evicted, a.purged + b.purged, a.cleared + b.cleared)
  }

  function CompleteFates(s: State, number: nat): Fates
  {
    var i := Position(Finished(number), s.table);
    if i == |s.table| then NoFates else
    var others := Without(s.table, i);
    var kept := Filter(Above(s.table[i].number), others);
    var emits := Complete(s, number).1.Some?;
    NoFates.(emitted := if emits then 1 else 0, oversize := if emits then 0 else 1, purged := |others| - |kept|)
  }

  function AssembleFates(s: State, lastSeen: nat, c: Chunk, now: int): Fates
  {
    var e := Expire(s, lastSeen, now);
    var expired := NoFates.(timedOut := |s.table| - |e.table|);
    match Place(e, c, now)
    case None => expired
    case Some(placed) =>
      var opens := Lookup(e.table, c.number).None?;
      var placing := NoFates.(started := if opens then 1 else 0,
                              evicted := if opens && |e.table| == MAX_IN_FLIGHT then 1 else 0);
      Plus(Plus(expired, placing), CompleteFates(placed, c.number))
  }

  /** The events that empty the table: an explicit reset, a stop marker, a restart. */
  predicate Resets(s: State, e: Event)
  {
    e.PipelineReset? || e.packet.StopMarker? || (e.packet.Media? && Restarts(e.packet.number, s.last))
  }

  /** The reset rule, as read off a call: with a frame completed, a lower number and a repeat of
      a number up to 5 restart the pipeline, and only a repeat of a number above 5 is ignored. */
  lemma ResetRule(s: State, number: nat, body: Option<Chunk>, now: int)
    requires s.last > 0
    ensures var packet := Media(number, body);
            var restarts := number < s.last || (number == s.last && number <= 5);
            && (Resets(s, Arrival(packet, now)) <==> restarts)
            && (restarts && body.None? ==> Deliver(s, packet, now) == (Ignore(Reset(s)), None))
            && (restarts && body.Some? ==> Deliver(s, packet, now) == Assemble(Reset(s), s.last, body.value, now))
            && (number == s.last && !restarts ==> Deliver(s, packet, now) == (Ignore(s), None))
            && (number > s.last && body.Some? ==> Deliver(s, packet, now) == Assemble(s, s.last, body.value, now))
  {
  }

  /** The events that reach the table. */
  predicate Assembles(s: State, e: Event)
  {
    e.Arrival? && e.packet.Media? && e.packet.body.Some? && !Repeats(e.packet.number, s.last)
  }

  function Cleared(s: State, e: Event): State { if Resets(s, e) then Reset(s) else s }

  lemma StepShape(s: State, e: Event)
    ensures Assembles(s, e) ==> Step(s, e) == Assemble(Cleared(s, e), s.last, e.packet.body.value, e.now)
    ensures !Assembles(s, e) ==>
              var r := Step(s, e);
              && (r.0 == Cleared(s, e) || r.0 == Ignore(Cleared(s, e)))
              && (r.1 == None || r.1 == Some(StopFrame))
  {
  }

  function StepFates(s: State, e: Event): Fates
  {
    Plus(NoFates.(cleared := if Resets(s, e) then |s.table| else 0),
         if Assembles(s, e) then AssembleFates(Cleared(s, e), s.last, e.packet.body.value, e.now) else NoFates)
  }

  function RunFates(s: State, events: seq<Event>): Fates
  {
    if events == [] then NoFates else
    var before := events[..|events| - 1];
    Plus(RunFates(s, before), StepFates(After(s, before), events[|events| - 1]))
  }

  // ---- conservation ----

  predicate Balances(s: State, f: Fates, s': State)
  {
    && |s.table| + f.started
       == |s'.table| + f.emitted + f.oversize + f.timedOut + f.evicted + f.purged + f.cleared
    && s'.counters.completed == s.counters.completed + f.emitted
    && s'.counters.timedOut == s.counters.timedOut + f.timedOut
    && s'.counters.evicted == s.counters.evicted + f.evicted
  }

  lemma BalancesTrans(a: State, f: Fates, b: State, g: Fates, c: State)
    requires Balances(a, f, b) && Balances(b, g, c)
    ensures Balances(a, Plus(f, g), c)
  {
  }

  lemma PlaceBalances(s: State, c: Chunk, now: int)
    requires TableOK(s.table) && Place(s, c, now).Some?
    ensures var opens := Lookup(s.table, c.number).None?;
            Balances(s, NoFates.(started := if opens then 1 else 0,
                                 evicted := if opens && |s.table| == MAX_IN_FLIGHT then 1 else 0),
                     Place(s, c, now).value)
  {
  }

  lemma CompleteBalances(s: State, number: nat)
    requires PlacedOK(s.table, number)
    ensures Balances(s, CompleteFates(s, number), Complete(s, number).0)
  {
    TakenIsFull(s.table, number);
  }

  lemma AssembleBalances(s: State, lastSeen: nat, c: Chunk, now: int)
    requires TableOK(s.table)
    ensures Balances(s, AssembleFates(s, lastSeen, c, now), Assemble(s, lastSeen, c, now).0)
  {
    FilterTable(Live(now, lastSeen), s.table);
    var e := Expire(s, lastSeen, now);
    assert Balances(s, NoFates.(timedOut := |s.table| - |e.table|), e);
    if Place(e, c, now).Some? {
      var placed := Place(e, c, now).value;
      PlaceKeeps(e, c, now);
      PlaceBalances(e, c, now);
      CompleteBalances(placed, c.number);
      var opens := Lookup(e.table, c.number).None?;
      var expired := NoFates.(timedOut := |s.table| - |e.table|);
      var placing := NoFates.(started := if opens then 1 else 0,
                              evicted := if opens && |e.table| == MAX_IN_FLIGHT then 1 else 0);
      BalancesTrans(s, expired, e, placing, placed);
      BalancesTrans(s, Plus(expired, placing), placed, CompleteFates(placed, c.number), Complete(placed, c.number).0);
    }
  }

  lemma StepBalances(s: State, e: Event)
    requires TableOK(s.table)
    ensures Balances(s, StepFates(s, e), Step(s, e).0)
  {
    StepShape(s, e);
    var clearing := NoFates.(cleared := if Resets(s, e) then |s.table| else 0);
    var m := Cleared(s, e);
    assert Balances(s, clearing, m);
    if Assembles(s, e) {
      AssembleBalances(m, s.last, e.packet.body.value, e.now);
      BalancesTrans(s, clearing, m, AssembleFates(m, s.last, e.packet.body.value, e.now), Step(s, e).0);
    } else {
      BalancesTrans(s, clearing, m, NoFates, Step(s, e).0);
    }
  }

  /** The access units among a list of frames. */
  function AccessUnits(frames: seq<Frame>): seq<Frame> { Filter((f: Frame) => f.AccessUnit?, frames) }

  lemma OneAccessUnit(f: Option<Frame>)
    ensures |AccessUnits(FrameList(f))| == if f.Some? && f.value.AccessUnit? then 1 else 0
  {
    assert AccessUnits([]) == [];
  }

  lemma StepEmits(s: State, e: Event)
    ensures |AccessUnits(FrameList(Step(s, e).1))| == StepFates(s, e).emitted
  {
    StepShape(s, e);
    OneAccessUnit(Step(s, e).1);
    if Assembles(s, e) {
      AssembleEmits(Cleared(s, e), s.last, e.packet.body.value, e.now);
    }
  }

  lemma AssembleEmits(s: State, lastSeen: nat, c: Chunk, now: int)
    ensures var f := Assemble(s, lastSeen, c, now).1;
            && (f.Some? ==> f.value.AccessUnit?)
            && (if f.Some? then 1 else 0) == AssembleFates(s, lastSeen, c, now).emitted
  {
    hide Expire, Place, Complete, CompleteFates, Lookup;
    var placed := Place(Expire(s, lastSeen, now), c, now);
    if placed.Some? { CompleteEmits(placed.value, c.number); }
  }

  lemma CompleteEmits(s: State, number: nat)
    ensures var f := Complete(s, number).1;
            && (f.Some? ==> f.value.AccessUnit?)
            && (if f.Some? then 1 else 0) == CompleteFates(s, number).emitted
  {
    hide Filter, Position, Gather, Size, Without;
  }

  /** Over every run: each assembly opened was emitted, rejected as oversize, timed out,
      evicted, purged by a newer completion, cleared by a reset, or is still in flight;
      the counters and the emitted frames say how many. */
  lemma {:induction false} Conservation(s: State, events: seq<Event>)
    requires TableOK(s.table)
    ensures Balances(s, RunFates(s, events), After(s, events))
    ensures |AccessUnits(Emitted(s, events))| == RunFates(s, events).emitted
  {
    if events == [] {
    } else {
      var before := events[..|events| - 1];
      var e := events[|events| - 1];
      Conservation(s, before);
      RunKeeps(s, before);
      StepBalances(After(s, before), e);
      StepEmits(After(s, before), e);
      BalancesTrans(s, RunFates(s, before), After(s, before), StepFates(After(s, before), e), After(s, events));
      FilterAppend((f: Frame) => f.AccessUnit?, Emitted(s, before), FrameList(Step(After(s, before), e).1));
    }
  }

  /** The same for the object, from its creation. */
  lemma ReassemblerConservation(r: Reassembler)
    requires r.Valid()
    ensures var f := RunFates(Initial, r.history);
            && f.started == f.emitted + f.oversize + r.droppedTimeout + r.droppedEvicted + f.purged + f.cleared
                           + |r.assemblies|
            && f.emitted == r.completed == |AccessUnits(r.output)|
  {
    Conservation(Initial, r.history);
    assert r.View() == After(Initial, r.history);
  }

  // ---- ignored packets ----

  /** The entry takes the chunks of the event's number: it is not above 50 ms old, and above the
      last completed number. */
  predicate OpenFor(s: State, e: Event, a: Assembly)
    requires e.Arrival? && e.packet.Media?
  {
    a.number == e.packet.number && a.number > s.last && e.now - a.firstAt <= 50_000_000
  }

  predicate Disagrees(s: State, e: Event, a: Assembly)
    requires e.Arrival? && e.packet.Media? && e.packet.body.Some?
  {
    OpenFor(s, e, a) && !SameHeader(a.header, e.packet.body.value.header)
  }

  predicate Duplicates(s: State, e: Event, a: Assembly)
    requires e.Arrival? && e.packet.Media? && e.packet.body.Some?
  {
    var c := e.packet.body.value;
    OpenFor(s, e, a) && SameHeader(a.header, c.header) && a.chunks[c.index].Some?
  }

  /** The chunk disagrees with the open entry about the frame ... */
  ghost predicate Disagreeing(s: State, e: Event)
    requires e.Arrival? && e.packet.Media? && e.packet.body.Some?
  {
    exists a :: a in s.table && Disagrees(s, e, a)
  }

  /** ... or is there already. */
  ghost predicate Duplicate(s: State, e: Event)
    requires e.Arrival? && e.packet.Media? && e.packet.body.Some?
  {
    exists a :: a in s.table && Duplicates(s, e, a)
  }

  /** The packet is not recognised, repeats the last completed number above 5, has fields that
      are rejected, disagrees with the open entry, is there already, or finishes a frame that
      is too long. */
  ghost predicate Rejected(s: State, e: Event)
  {
    e.Arrival? &&
    match e.packet
    case StopMarker => false
    case Unrecognised => true
    case Media(number, body) =>
      || (number == s.last && number > 5) || body.None?
      || Disagreeing(s, e) || Duplicate(s, e) || StepFates(s, e).oversize == 1
  }

  ghost function Rejections(s: State, events: seq<Event>): nat
  {
    if events == [] then 0 else
    var before := events[..|events| - 1];
    Rejections(s, before) + if Rejected(After(s, before), events[|events| - 1]) then 1 else 0
  }

  /** Placing counts a duplicate, and nothing else. */
  lemma PlaceIgnores(s: State, c: Chunk, now: int)
    ensures var a := Lookup(s.table, c.number);
            && (Place(s, c, now).None? <==> a.Some? && !SameHeader(a.value.header, c.header))
            && (Place(s, c, now).Some? ==>
                  Place(s, c, now).value.counters.ignored
                  == s.counters.ignored
                     + if a.Some? && SameHeader(a.value.header, c.header)
                          && a.value.chunks[c.index].Some? then 1 else 0)
  {
  }

  /** Completing counts a frame that is too long. */
  lemma CompleteIgnores(s: State, number: nat)
    requires PlacedOK(s.table, number)
    ensures Complete(s, number).0.counters.ignored == s.counters.ignored + CompleteFates(s, number).oversize
  {
    TakenIsFull(s.table, number);
    hide Above, Finished, Without, Filter;
  }

  /** A duplicate finishes nothing. */
  lemma DuplicateFinishesNothing(e: State, c: Chunk, now: int)
    requires TableOK(e.table) && Lookup(e.table, c.number).Some? && Place(e, c, now).Some?
    requires Lookup(e.table, c.number).value.chunks[c.index].Some?
    ensures CompleteFates(Place(e, c, now).value, c.number) == NoFates
  {
    LookupFound(e.table, c.number);
    assert Place(e, c, now).value.table == e.table;
    forall a | a in e.table ensures !Finished(c.number)(a) { assert Partial(a); }
  }

  /** Looking up among the live entries finds the one open for the event. */
  lemma LookupIsOpen(s: State, m: State, e: Event)
    requires TableOK(s.table) && Consistent(e) && Assembles(s, e) && m == Cleared(s, e)
    ensures var found := Lookup(Expire(m, s.last, e.now).table, e.packet.body.value.number);
            && (found.Some? ==> found.value in s.table && OpenFor(s, e, found.value))
            && (forall a :: a in s.table && OpenFor(s, e, a) ==> found == Some(a))
  {
    FilterTable(Live(e.now, s.last), m.table);
    var t := Expire(m, s.last, e.now).table;
    LookupFound(t, e.packet.body.value.number);
    forall a | a in s.table && OpenFor(s, e, a) ensures Lookup(t, e.packet.body.value.number) == Some(a) {
      assert !Resets(s, e);
      assert Live(e.now, s.last)(a) && a in t;
      LookupMember(t, a);
    }
  }

  lemma FoundDisagrees(s: State, e: Event, found: Option<Assembly>)
    requires e.Arrival? && e.packet.Media? && e.packet.body.Some?
    requires found.Some? ==> found.value in s.table && OpenFor(s, e, found.value)
    requires forall a :: a in s.table && OpenFor(s, e, a) ==> found == Some(a)
    ensures Disagreeing(s, e) <==> found.Some? && !SameHeader(found.value.header, e.packet.body.value.header)
  {
    hide SameHeader, OpenFor;
    if found.Some? && !SameHeader(found.value.header, e.packet.body.value.header) {
      assert Disagrees(s, e, found.value);
    }
  }

  lemma FoundDuplicates(s: State, e: Event, found: Option<Assembly>)
    requires Consistent(e) && e.Arrival? && e.packet.Media? && e.packet.body.Some?
    requires found.Some? ==> found.value in s.table && OpenFor(s, e, found.value)
    requires forall a :: a in s.table && OpenFor(s, e, a) ==> found == Some(a)
    ensures var c := e.packet.body.value;
            Duplicate(s, e)
            <==> found.Some? && SameHeader(found.value.header, c.header) && found.value.chunks[c.index].Some?
  {
    var c := e.packet.body.value;
    hide OpenFor;
    if found.Some? && SameHeader(found.value.header, c.header) && found.value.chunks[c.index].Some? {
      assert Duplicates(s, e, found.value);
    }
  }

  lemma RejectedWhenFound(s: State, m: State, e: Event)
    requires TableOK(s.table) && Consistent(e) && Assembles(s, e) && m == Cleared(s, e)
    ensures var c := e.packet.body.value;
            var found := Lookup(Expire(m, s.last, e.now).table, c.number);
            Rejected(s, e) <==>
              || (found.Some? && !SameHeader(found.value.header, c.header))
              || (found.Some? && SameHeader(found.value.header, c.header) && found.value.chunks[c.index].Some?)
              || StepFates(s, e).oversize == 1
  {
    assert !(e.packet.number == s.last && e.packet.number > 5);
    LookupIsOpen(s, m, e);
    var found := Lookup(Expire(m, s.last, e.now).table, e.packet.body.value.number);
    hide Lookup, Expire, Cleared, StepFates, SameHeader, OpenFor, TableOK, Disagreeing, Duplicate, Repeats;
    FoundDisagrees(s, e, found);
    FoundDuplicates(s, e, found);
  }

  lemma StepIgnores(s: State, e: Event)
    requires TableOK(s.table) && Consistent(e)
    ensures Step(s, e).0.counters.ignored == s.counters.ignored + if Rejected(s, e) then 1 else 0
  {
    StepShape(s, e);
    if Assembles(s, e) {
      hide Step, Rejected, Assemble;
      AssembleIgnores(s, Cleared(s, e), e);
    } else {
      OtherwiseIgnores(s, e);
    }
  }

  lemma OtherwiseIgnores(s: State, e: Event)
    requires !Assembles(s, e)
    ensures Step(s, e).0.counters.ignored == s.counters.ignored + if Rejected(s, e) then 1 else 0
  {
    hide Disagreeing, Duplicate, AssembleFates, StepFates;
    if e.Arrival? && e.packet.Media? {
      MediaIgnores(s, e);
    }
  }

  lemma MediaIgnores(s: State, e: Event)
    requires !Assembles(s, e) && e.Arrival? && e.packet.Media?
    ensures Rejected(s, e) && Step(s, e).0.counters.ignored == s.counters.ignored + 1
  {
    hide Disagreeing, Duplicate, StepFates, Assemble;
  }

  lemma AssembleIgnores(s: State, m: State, e: Event)
    requires TableOK(s.table) && Consistent(e) && Assembles(s, e) && m == Cleared(s, e)
    ensures Assemble(m, s.last, e.packet.body.value, e.now).0.counters.ignored
            == s.counters.ignored + if Rejected(s, e) then 1 else 0
  {
    RejectedWhenFound(s, m, e);
    assert TableOK(m.table) && m.counters == s.counters;
    assert StepFates(s, e).oversize == AssembleFates(m, s.last, e.packet.body.value, e.now).oversize;
    hide Rejected, StepFates, Cleared, Assembles;
    CriticalIgnores(m, s.last, e.packet.body.value, e.now);
  }

  /** The critical section counts a disagreement, a duplicate, or a frame that is too long. */
  lemma CriticalIgnores(m: State, lastSeen: nat, c: Chunk, now: int)
    requires TableOK(m.table)
    ensures var found := Lookup(Expire(m, lastSeen, now).table, c.number);
            Assemble(m, lastSeen, c, now).0.counters.ignored ==
            m.counters.ignored
            + if || (found.Some? && !SameHeader(found.value.header, c.header))
                 || (found.Some? && SameHeader(found.value.header, c.header) && found.value.chunks[c.index].Some?)
                 || AssembleFates(m, lastSeen, c, now).oversize == 1
              then 1 else 0
  {
    FilterTable(Live(now, lastSeen), m.table);
    var live := Expire(m, lastSeen, now);
    assert live.counters.ignored == m.counters.ignored;
    PlaceIgnores(live, c, now);
    hide Place, Complete, CompleteFates, Lookup, Expire, SameHeader, TableOK;
    if Place(live, c, now).Some? {
      PlaceKeeps(live, c, now);
      CompleteIgnores(Place(live, c, now).value, c.number);
      var found := Lookup(live.table, c.number);
      if found.Some? && found.value.chunks[c.index].Some? { DuplicateFinishesNothing(live, c, now); }
    }
  }

  /** Over every run the counter of ignored packets counts exactly the rejected ones. */
  lemma {:induction false} IgnoredAreRejected(s: State, events: seq<Event>)
    requires TableOK(s.table) && forall i :: 0 <= i < |events| ==> Consistent(events[i])
    ensures After(s, events).counters.ignored == s.counters.ignored + Rejections(s, events)
  {
    hide Step, Rejected;
    if events == [] {
    } else {
      var before := events[..|events| - 1];
      IgnoredAreRejected(s, before);
      RunKeeps(s, before);
      StepIgnores(After(s, before), events[|events| - 1]);
    }
  }

  // ---- order ----

  /** Every open assembly numbered from 1 up is above the last completed one. */
  ghost predicate AboveLast(s: State)
  {
    forall a :: a in s.table ==> a.number == 0 || a.number > s.last
  }

  lemma PlaceAbove(s: State, c: Chunk, now: int)
    requires AboveLast(s) && (c.number == 0 || c.number > s.last) && Place(s, c, now).Some?
    ensures AboveLast(Place(s, c, now).value)
  {
    var t' := Place(s, c, now).value.table;
    forall a | a in t' ensures a.number == 0 || a.number > s.last {
      var j :| 0 <= j < |t'| && t'[j] == a;
      if j < |s.table| { assert s.table[j] in s.table; }
    }
  }

  lemma CompleteAbove(s: State, number: nat)
    requires AboveLast(s)
    ensures AboveLast(Complete(s, number).0)
  {
  }

  lemma AssembleAbove(s: State, lastSeen: nat, c: Chunk, now: int)
    requires AboveLast(s) && (c.number == 0 || c.number > s.last)
    ensures AboveLast(Assemble(s, lastSeen, c, now).0)
  {
    var e := Expire(s, lastSeen, now);
    assert AboveLast(e);
    if Place(e, c, now).Some? {
      PlaceAbove(e, c, now);
      CompleteAbove(Place(e, c, now).value, c.number);
    }
  }

  /** A parsed packet carries its own number in its chunk. */
  predicate Consistent(e: Event)
  {
    e.Arrival? && e.packet.Media? && e.packet.body.Some? ==> e.packet.body.value.number == e.packet.number
  }

  lemma StepAbove(s: State, e: Event)
    requires AboveLast(s) && Consistent(e)
    ensures AboveLast(Step(s, e).0)
  {
    StepShape(s, e);
    if Assembles(s, e) {
      AssembleAbove(Cleared(s, e), s.last, e.packet.body.value, e.now);
    }
  }

  /** Over every run from the initial state, open numbers stay above the last completed. */
  lemma {:induction false} RunAbove(s: State, events: seq<Event>)
    requires AboveLast(s) && forall e :: e in events ==> Consistent(e)
    ensures AboveLast(After(s, events))
  {
    if events == [] {
    } else {
      var before := events[..|events| - 1];
      var e := events[|events| - 1];
      forall b | b in before ensures b in events {
      }
      RunAbove(s, before);
      assert e in events;
      StepAbove(After(s, before), e);
    }
  }

  /** No event of the run resets the pipeline. */
  ghost predicate NoReset(s: State, events: seq<Event>)
  {
    events == [] ||
    var before := events[..|events| - 1];
    NoReset(s, before) && !Resets(After(s, before), events[|events| - 1])
  }

  ghost predicate Increasing(frames: seq<Frame>)
  {
    forall i, j :: 0 <= i < j < |frames| && Counted(frames[i]) && Counted(frames[j]) ==>
                     frames[i].number < frames[j].number
  }

  predicate Counted(f: Frame) { f.AccessUnit? && f.number > 0 }

  ghost predicate UpTo(frames: seq<Frame>, last: nat)
  {
    forall f :: f in frames && f.AccessUnit? ==> f.number <= last
  }

  lemma CompleteLast(s: State, number: nat)
    ensures var r := Complete(s, number);
            || r == (s, None)
            || (r.0.last == number && (r.1.Some? ==> r.1.value.AccessUnit? && r.1.value.number == number))
  {
  }

  lemma AssembleLast(s: State, lastSeen: nat, c: Chunk, now: int)
    ensures var r := Assemble(s, lastSeen, c, now);
            || (r.0.last == s.last && r.1 == None)
            || (r.0.last == c.number && (r.1.Some? ==> r.1.value.AccessUnit? && r.1.value.number == c.number))
  {
    var e := Expire(s, lastSeen, now);
    assert e.last == s.last;
    if Place(e, c, now).Some? {
      var placed := Place(e, c, now).value;
      assert placed.last == e.last;
      CompleteLast(placed, c.number);
    }
  }

  lemma StepOrder(s: State, e: Event)
    requires Consistent(e) && !Resets(s, e)
    ensures var r := Step(s, e);
            && r.0.last >= s.last
            && (r.1.Some? ==> r.1.value.AccessUnit? && r.1.value.number == r.0.last)
            && (r.1.Some? && r.1.value.number > 0 ==> r.1.value.number > s.last)
  {
    StepShape(s, e);
    if Assembles(s, e) {
      AssembleLast(s, s.last, e.packet.body.value, e.now);
    }
  }

  /** Between resets, from any state, the emitted numbers from 1 up strictly increase. */
  lemma {:induction false} EmittedIncrease(s: State, events: seq<Event>)
    requires NoReset(s, events) && forall e :: e in events ==> Consistent(e)
    ensures Increasing(Emitted(s, events))
    ensures UpTo(Emitted(s, events), After(s, events).last)
  {
    if events == [] {
    } else {
      var before := events[..|events| - 1];
      var e := events[|events| - 1];
      forall b | b in before ensures b in events {
      }
      EmittedIncrease(s, before);
      StepOrder(After(s, before), e);
      var frames := Emitted(s, before);
      var f := Step(After(s, before), e).1;
      if f.Some? {
        forall i, j | 0 <= i < j < |frames + [f.value]| && Counted((frames + [f.value])[i])
                     && Counted((frames + [f.value])[j])
          ensures (frames + [f.value])[i].number < (frames + [f.value])[j].number
        {
          assert frames[i] in frames;
        }
      }
    }
  }

  lemma PlacedNumbers(s: State, c: Chunk, now: int)
    requires Place(s, c, now).Some?
    ensures forall a :: a in Place(s, c, now).value.table ==>
              a.number == c.number || exists b :: b in s.table && b.number == a.number
  {
    var t' := Place(s, c, now).value.table;
    forall a | a in t' && a.number != c.number ensures exists b :: b in s.table && b.number == a.number {
      var j :| 0 <= j < |t'| && t'[j] == a;
      if j < |s.table| {
        assert s.table[j] in s.table;
        if j + 1 < |s.table| { assert s.table[j + 1] in s.table; }
      }
    }
  }

  lemma CompletedNumbers(s: State, number: nat)
    ensures forall a :: a in Complete(s, number).0.table ==> a in s.table
  {
  }

  /** A frame numbered 0 never survives the next media packet that reaches the table. */
  lemma ZeroNeverSurvives(s: State, lastSeen: nat, c: Chunk, now: int)
    requires c.number != 0
    ensures forall a :: a in Assemble(s, lastSeen, c, now).0.table ==> a.number != 0
  {
    var e := Expire(s, lastSeen, now);
    forall a | a in e.table ensures a.number != 0 {
      assert Live(now, lastSeen)(a);
    }
    if Place(e, c, now).Some? {
      PlacedNumbers(e, c, now);
      CompletedNumbers(Place(e, c, now).value, c.number);
    }
  }
}
