/** When concurrent callers emit in order. The last-completed number is read before the lock is
    taken, so a critical section may finish a number that others have passed meanwhile; from any
    reachable state, and until the next reset, order holds exactly as long as none does. */
module ReassemblyOrder {
  import opened Prelude
  import opened Wire
  import opened Reassembly
  import opened ReassemblyTable
  import opened ReassemblyConcurrent

  /** The chunk that the move takes into the critical section, if it does. */
  function Entering(w: World, m: Move): Option<Chunk>
  {
    match (m, PhaseOf(w, m.task))
    case (Enter(_, _), Waiting(_, body)) => body
    case _ => None
  }

  /** The number of that chunk. */
  function Entered(w: World, m: Move): nat
  {
    match Entering(w, m)
    case Some(c) => c.number
    case None => 0
  }

  /** The table as the critical section leaves it before it looks for a finished entry. */
  function PlacedBy(w: World, m: Move): Option<State>
  {
    match (m, PhaseOf(w, m.task))
    case (Enter(_, now), Waiting(lastSeen, Some(c))) => Place(Expire(w.shared, lastSeen, now), c, now)
    case _ => None
  }

  /** The critical section finishes the number of its chunk ... */
  predicate Finishes(w: World, m: Move)
  {
    Entering(w, m).Some? && PlacedBy(w, m).Some?
    && Position(Finished(Entered(w, m)), PlacedBy(w, m).value.table) < |PlacedBy(w, m).value.table|
  }

  /** ... but emits nothing, because the joined chunks are too long. */
  predicate Oversize(w: World, m: Move) { Finishes(w, m) && Next(w, m).output == w.output }

  /** The move stores zero into the last-completed number. */
  predicate Zeroes(w: World, m: Move)
  {
    match (m, PhaseOf(w, m.task))
    case (Arrive(_, p), Idle) => p.StopMarker?
    case (StartReset(_), Idle) => true
    case (Decide(_), Loaded(number, _, lastSeen)) => Restarts(number, lastSeen)
    case _ => false
  }

  /** The numbers of the access units among the frames, in order. */
  function Numbers(frames: seq<Frame>): seq<nat>
  {
    if frames == [] then [] else
    var f := frames[|frames| - 1];
    Numbers(frames[..|frames| - 1]) + if f.AccessUnit? then [f.number] else []
  }

  /** The numbers emitted between two states of a run. */
  function Since(w0: World, w: World): seq<nat>
  {
    if |w0.output| <= |w.output| then Numbers(w.output[|w0.output|..]) else []
  }

  /** Strictly increasing, and above a floor. */
  predicate Ascending(numbers: seq<nat>, floor: int)
  {
    && (forall i :: 0 <= i < |numbers| ==> numbers[i] > floor)
    && forall i, j :: 0 <= i < j < |numbers| ==> numbers[i] < numbers[j]
  }

  predicate BoundedBy(numbers: seq<nat>, last: nat)
  {
    forall i :: 0 <= i < |numbers| ==> numbers[i] <= last
  }

  /** What is finished under the lock is above the last-completed number at that moment; until
      something has been emitted, above the floor. */
  predicate InOrder(w0: World, floor: int, w: World, m: Move)
  {
    Finishes(w, m) ==> Entered(w, m) > if Since(w0, w) == [] then floor else w.shared.last
  }

  /** ... and without a floor, above the last-completed number throughout. */
  predicate Rises(w: World, m: Move)
  {
    Finishes(w, m) ==> Entered(w, m) > w.shared.last
  }

  ghost predicate NoneZeroes(w0: World, moves: seq<Move>)
  {
    moves == [] ||
    var before := moves[..|moves| - 1];
    NoneZeroes(w0, before) && !Zeroes(Interleave(w0, before), moves[|moves| - 1])
  }

  ghost predicate NoneOversize(w0: World, moves: seq<Move>)
  {
    moves == [] ||
    var before := moves[..|moves| - 1];
    NoneOversize(w0, before) && !Oversize(Interleave(w0, before), moves[|moves| - 1])
  }

  ghost predicate AllInOrder(w0: World, floor: int, moves: seq<Move>)
  {
    moves == [] ||
    var before := moves[..|moves| - 1];
    AllInOrder(w0, floor, before) && InOrder(w0, floor, Interleave(w0, before), moves[|moves| - 1])
  }

  ghost predicate AllRise(w0: World, moves: seq<Move>)
  {
    moves == [] ||
    var before := moves[..|moves| - 1];
    AllRise(w0, before) && Rises(Interleave(w0, before), moves[|moves| - 1])
  }

  // ---- what one move does to the number and the output ----

  lemma CompleteShape(s: State, number: nat)
    requires PlacedOK(s.table, number)
    ensures var r := Complete(s, number);
            if Position(Finished(number), s.table) < |s.table|
            then r.0.last == number && (r.1.Some? ==> r.1.value.AccessUnit? && r.1.value.number == number)
            else r.0.last == s.last && r.1 == None
  {
  }

  lemma PlaceKeepsLast(s: State, c: Chunk, now: int)
    ensures Place(s, c, now).Some? ==> Place(s, c, now).value.last == s.last
  {
  }

  lemma EnterShape(s: State, lastSeen: nat, c: Chunk, now: int)
    requires TableOK(s.table)
    ensures var placed := Place(Expire(s, lastSeen, now), c, now);
            var r := Assemble(s, lastSeen, c, now);
            if placed.Some? && Position(Finished(c.number), placed.value.table) < |placed.value.table|
            then r.0.last == c.number && (r.1.Some? ==> r.1.value.AccessUnit? && r.1.value.number == c.number)
            else r.0.last == s.last && r.1 == None
  {
    FilterTable(Live(now, lastSeen), s.table);
    var e := Expire(s, lastSeen, now);
    assert e.last == s.last;
    PlaceKeepsLast(e, c, now);
    hide Expire, Place, Complete;
    if Place(e, c, now).Some? {
      PlaceKeeps(e, c, now);
      CompleteShape(Place(e, c, now).value, c.number);
    }
  }

  /** Without a stored zero, a move changes the number, and emits an access unit, only by
      finishing; a reset that is still clearing may emit its stop frame. */
  lemma MoveShape(w: World, m: Move)
    requires Safe(w) && !Zeroes(w, m)
    ensures var w' := Next(w, m);
            && w'.shared.last == (if Finishes(w, m) then Entered(w, m) else w.shared.last)
            && (|| w'.output == w.output
                || exists f :: w'.output == w.output + [f]
                               && if Finishes(w, m) then f.AccessUnit? && f.number == Entered(w, m)
                                  else f.StopFrame?)
  {
    hide Place, Complete, Expire;
    assert w.output + [] == w.output;
    match (m, PhaseOf(w, m.task)) {
      case (Enter(_, now), Waiting(lastSeen, Some(c))) =>
        EnterShape(w.shared, lastSeen, c, now);
        var frame := Assemble(w.shared, lastSeen, c, now).1;
        assert frame.Some? ==> FrameList(frame) == [frame.value];
      case _ =>
    }
  }

  lemma NumbersSnoc(frames: seq<Frame>, f: Frame)
    ensures Numbers(frames + [f]) == Numbers(frames) + if f.AccessUnit? then [f.number] else []
  {
  }

  /** The numbers emitted since `w0` grow by the number that is finished, unless its frame is
      too long. */
  lemma SinceGrows(w0: World, w: World, m: Move)
    requires Safe(w) && !Zeroes(w, m) && w0.output <= w.output
    ensures var w' := Next(w, m);
            && w0.output <= w'.output
            && w'.shared.last == (if Finishes(w, m) then Entered(w, m) else w.shared.last)
            && Since(w0, w') == Since(w0, w) + if Finishes(w, m) && !Oversize(w, m)
                                               then [Entered(w, m)] else []
  {
    MoveShape(w, m);
    hide Next, Finishes, Entered, Zeroes, Safe, Numbers;
    var w' := Next(w, m);
    var earlier := w.output[|w0.output|..];
    if w'.output == w.output {
      assert Since(w0, w) + [] == Since(w0, w);
    } else {
      var f :| w'.output == w.output + [f]
               && if Finishes(w, m) then f.AccessUnit? && f.number == Entered(w, m) else f.StopFrame?;
      assert w'.output[|w0.output|..] == earlier + [f];
      NumbersSnoc(earlier, f);
    }
  }

  lemma AscendingSnoc(numbers: seq<nat>, n: nat, floor: int)
    ensures Ascending(numbers + [n], floor)
            <==> Ascending(numbers, floor) && n > if numbers == [] then floor else numbers[|numbers| - 1]
  {
    var all := numbers + [n];
    assert forall i :: 0 <= i < |numbers| ==> all[i] == numbers[i];
    assert all[|numbers|] == n;
  }

  // ---- every interleaving, from any safe state ----

  lemma {:induction false} RunSafe(w0: World, moves: seq<Move>)
    requires Safe(w0) && NoneZeroes(w0, moves)
    ensures Safe(Interleave(w0, moves)) && w0.output <= Interleave(w0, moves).output
  {
    hide Next, Safe, Zeroes;
    if moves == [] {
    } else {
      var before := moves[..|moves| - 1];
      RunSafe(w0, before);
      NextSafe(Interleave(w0, before), moves[|moves| - 1]);
      SinceGrows(w0, Interleave(w0, before), moves[|moves| - 1]);
    }
  }

  /** As long as whatever is finished under the lock is in order, the emitted numbers strictly
      increase, up to the last-completed one. */
  lemma {:induction false} InOrderSuffices(w0: World, floor: int, moves: seq<Move>)
    requires Safe(w0) && NoneZeroes(w0, moves) && AllInOrder(w0, floor, moves)
    ensures var w := Interleave(w0, moves);
            Ascending(Since(w0, w), floor) && BoundedBy(Since(w0, w), w.shared.last)
  {
    hide Next, Safe, Finishes, Entered, Zeroes, Oversize;
    if moves == [] {
      assert Since(w0, w0) == [];
    } else {
      var before := moves[..|moves| - 1];
      var m := moves[|moves| - 1];
      var w := Interleave(w0, before);
      InOrderSuffices(w0, floor, before);
      RunSafe(w0, before);
      SinceGrows(w0, w, m);
      hide Since, Ascending, BoundedBy;
      if Finishes(w, m) { InOrderStep(Since(w0, w), Entered(w, m), floor, w.shared.last); }
      assert Since(w0, w) + [] == Since(w0, w);
    }
  }

  lemma InOrderStep(numbers: seq<nat>, n: nat, floor: int, last: nat)
    requires Ascending(numbers, floor) && BoundedBy(numbers, last) && n > if numbers == [] then floor else last
    ensures Ascending(numbers + [n], floor) && BoundedBy(numbers + [n], n) && BoundedBy(numbers, n)
  {
    AscendingSnoc(numbers, n, floor);
  }

  /** Without an oversize completion, the last-completed number is the one emitted last. */
  lemma {:induction false} LastIsEmitted(w0: World, moves: seq<Move>)
    requires Safe(w0) && NoneZeroes(w0, moves) && NoneOversize(w0, moves)
    ensures var w := Interleave(w0, moves);
            var numbers := Since(w0, w);
            w.shared.last == if numbers == [] then w0.shared.last else numbers[|numbers| - 1]
  {
    hide Next, Safe, Finishes, Entered, Zeroes, Oversize;
    if moves == [] {
      assert Since(w0, w0) == [];
    } else {
      var before := moves[..|moves| - 1];
      LastIsEmitted(w0, before);
      RunSafe(w0, before);
      SinceGrows(w0, Interleave(w0, before), moves[|moves| - 1]);
    }
  }

  /** And then nothing less suffices: whatever the floor, the emitted numbers strictly increase
      above it if and only if every number finished under the lock is in order. */
  lemma {:induction false} InOrderExactly(w0: World, floor: int, moves: seq<Move>)
    requires Safe(w0) && NoneZeroes(w0, moves) && NoneOversize(w0, moves)
    ensures Ascending(Since(w0, Interleave(w0, moves)), floor) <==> AllInOrder(w0, floor, moves)
  {
    hide Next, Safe, Finishes, Entered, Zeroes, Oversize;
    if moves == [] {
      assert Since(w0, w0) == [];
    } else {
      var before := moves[..|moves| - 1];
      var m := moves[|moves| - 1];
      var w := Interleave(w0, before);
      InOrderExactly(w0, floor, before);
      RunSafe(w0, before);
      LastIsEmitted(w0, before);
      SinceGrows(w0, w, m);
      hide Since, Ascending;
      assert Since(w0, w) + [] == Since(w0, w);
      if Finishes(w, m) { AscendingSnoc(Since(w0, w), Entered(w, m), floor); }
    }
  }

  /** From any reachable state until the next reset: if every number finished under the lock is
      above the last-completed number at that moment, the numbers emitted from there on strictly
      increase, from above the last-completed number of that state up to the present one. */
  lemma {:induction false} OrderSuffices(w0: World, moves: seq<Move>)
    requires Safe(w0) && NoneZeroes(w0, moves) && AllRise(w0, moves)
    ensures AllInOrder(w0, w0.shared.last, moves)
    ensures var w := Interleave(w0, moves);
            && Ascending(Since(w0, w), w0.shared.last) && BoundedBy(Since(w0, w), w.shared.last)
            && w0.shared.last <= w.shared.last
  {
    hide Next, Safe, Finishes, Entered, Zeroes, Oversize, Since, Ascending, BoundedBy;
    if moves == [] {
    } else {
      var before := moves[..|moves| - 1];
      OrderSuffices(w0, before);
      RunSafe(w0, before);
      SinceGrows(w0, Interleave(w0, before), moves[|moves| - 1]);
    }
    InOrderSuffices(w0, w0.shared.last, moves);
  }

  /** And exactly then, if nothing that is finished is too long. Stop frames of resets that are
      still clearing may come in between. */
  lemma {:induction false} OrderExactly(w0: World, moves: seq<Move>)
    requires Safe(w0) && NoneZeroes(w0, moves) && NoneOversize(w0, moves)
    ensures Ascending(Since(w0, Interleave(w0, moves)), w0.shared.last) <==> AllRise(w0, moves)
  {
    hide Next, Safe, Finishes, Entered, Zeroes, Oversize, Since, Ascending;
    InOrderExactly(w0, w0.shared.last, moves);
    if moves == [] {
    } else {
      var before := moves[..|moves| - 1];
      OrderExactly(w0, before);
      InOrderExactly(w0, w0.shared.last, before);
      LastIsEmitted(w0, before);
    }
  }

  // ---- from the start ----

  ghost predicate OnlyAccessUnits(frames: seq<Frame>)
  {
    forall i :: 0 <= i < |frames| ==> frames[i].AccessUnit?
  }

  /** No task is about to clear the table. */
  ghost predicate NoneClearing(w: World) { forall t :: t in w.tasks ==> !w.tasks[t].Clearing? }

  lemma StaysUnclear(w: World, m: Move)
    requires Safe(w) && NoneClearing(w) && !Zeroes(w, m) && OnlyAccessUnits(w.output)
    ensures NoneClearing(Next(w, m)) && OnlyAccessUnits(Next(w, m).output)
  {
    MoveShape(w, m);
    hide Assemble, Finishes, Entered;
  }

  lemma StartSafe()
    ensures Safe(Start) && NoneClearing(Start) && Interleave(Start, []) == Start
  {
  }

  lemma {:induction false} UnclearFromStart(moves: seq<Move>)
    requires NoneZeroes(Start, moves)
    ensures NoneClearing(Interleave(Start, moves)) && OnlyAccessUnits(Interleave(Start, moves).output)
  {
    StartSafe();
    hide Next, Safe, Zeroes, NoneClearing;
    if moves == [] {
    } else {
      var before := moves[..|moves| - 1];
      UnclearFromStart(before);
      RunSafe(Start, before);
      StaysUnclear(Interleave(Start, before), moves[|moves| - 1]);
    }
  }

  /** From the start, where the first number may be 0: only access units are emitted, and their
      numbers strictly increase if and only if every number finished under the lock, after the
      first, is above the last-completed number at that moment. */
  lemma OrderFromStart(moves: seq<Move>)
    requires NoneZeroes(Start, moves)
    ensures var w := Interleave(Start, moves);
            && OnlyAccessUnits(w.output)
            && (AllInOrder(Start, -1, moves) ==>
                  Ascending(Numbers(w.output), -1) && BoundedBy(Numbers(w.output), w.shared.last))
            && (NoneOversize(Start, moves) ==> (Ascending(Numbers(w.output), -1) <==> AllInOrder(Start, -1, moves)))
  {
    var w := Interleave(Start, moves);
    StartSafe();
    UnclearFromStart(moves);
    assert w.output[0..] == w.output;
    assert Since(Start, w) == Numbers(w.output);
    hide Next, Safe, Zeroes, Finishes, Interleave, Since, Numbers, Ascending, BoundedBy;
    if AllInOrder(Start, -1, moves) { InOrderSuffices(Start, -1, moves); }
    if NoneOversize(Start, moves) { InOrderExactly(Start, -1, moves); }
  }

  // ---- calls that do not overlap ----

  /** A call starts only when no other is under way; packets carry positive numbers, and the
      chunk of a packet carries the packet's number. */
  predicate Apart(w: World, m: Move)
  {
    (m.Arrive? || m.StartReset? ==> forall t :: t in w.tasks ==> w.tasks[t].Idle?)
    && (m.Arrive? && m.packet.Media? ==>
          m.packet.number > 0 && (m.packet.body.Some? ==> m.packet.body.value.number == m.packet.number))
  }

  ghost predicate AllApart(w0: World, moves: seq<Move>)
  {
    moves == [] ||
    var before := moves[..|moves| - 1];
    AllApart(w0, before) && Apart(Interleave(w0, before), moves[|moves| - 1])
  }

  /** At most one task is under way; the number it read is still the last completed, unless it
      resets. */
  ghost predicate OneAtATime(w: World)
  {
    && (forall t, u :: t in w.tasks && u in w.tasks && !w.tasks[t].Idle? && !w.tasks[u].Idle? ==> t == u)
    && forall t :: t in w.tasks ==> Current(w, w.tasks[t])
  }

  predicate Current(w: World, p: Phase)
  {
    match p
    case Idle => true
    case Loaded(number, body, lastSeen) =>
      lastSeen == w.shared.last && number > 0 && (body.Some? ==> body.value.number == number)
    case Clearing(Return(_)) => true
    case Clearing(Continue(_, body)) => body.Some? ==> body.value.number > w.shared.last
    case Waiting(_, body) => body.Some? ==> body.value.number > w.shared.last
  }

  /** Calls that do not overlap stay so, resets included, and finish above the last-completed
      number. */
  lemma ApartStep(w: World, m: Move)
    requires OneAtATime(w) && Apart(w, m)
    ensures OneAtATime(Next(w, m)) && Rises(w, m)
  {
    hide Assemble, Position, Place, Expire;
    var t := m.task;
    if t in w.tasks { assert Current(w, w.tasks[t]); }
  }

  lemma {:induction false} ApartRises(w0: World, moves: seq<Move>)
    requires Safe(w0) && OneAtATime(w0) && AllApart(w0, moves)
    ensures Safe(Interleave(w0, moves)) && OneAtATime(Interleave(w0, moves)) && AllRise(w0, moves)
  {
    hide Next, Safe, OneAtATime, Apart, Rises;
    if moves == [] {
    } else {
      var before := moves[..|moves| - 1];
      ApartRises(w0, before);
      NextSafe(Interleave(w0, before), moves[|moves| - 1]);
      ApartStep(Interleave(w0, before), moves[|moves| - 1]);
    }
  }

  /** Calls that do not overlap, whatever their tasks: the numbers emitted until the next reset
      strictly increase above the last-completed one. */
  lemma ApartAscending(w0: World, moves: seq<Move>)
    requires Safe(w0) && OneAtATime(w0) && AllApart(w0, moves) && NoneZeroes(w0, moves)
    ensures var w := Interleave(w0, moves);
            Ascending(Since(w0, w), w0.shared.last) && BoundedBy(Since(w0, w), w.shared.last)
  {
    hide Next, Safe, OneAtATime, AllApart, NoneZeroes, Ascending, BoundedBy, Since, Interleave;
    ApartRises(w0, moves);
    OrderSuffices(w0, moves);
  }

  /** So it is between any two resets of calls that never overlap. */
  lemma ApartBetweenResets(before: seq<Move>, moves: seq<Move>)
    requires var w0 := Interleave(Start, before);
             AllApart(Start, before) && AllApart(w0, moves) && NoneZeroes(w0, moves)
    ensures var w0 := Interleave(Start, before);
            var w := Interleave(w0, moves);
            Ascending(Since(w0, w), w0.shared.last) && BoundedBy(Since(w0, w), w.shared.last)
  {
    hide Next, Safe, OneAtATime, AllApart, NoneZeroes, Ascending, BoundedBy, Since, Interleave;
    StartApart();
    ApartRises(Start, before);
    ApartAscending(Interleave(Start, before), moves);
  }

  lemma StartApart()
    ensures Safe(Start) && OneAtATime(Start)
  {
  }
}
