/** What the reassembler makes of whole casts: the packets of units numbered 1, 2, ..., and
    perhaps a stop marker behind them. */
module CastRuns {
  import opened Prelude
  import opened Wire
  import WireExact
  import opened Reassembly
  import opened ReassemblyTable
  import ReassemblyDelivery

  function Packets(units: seq<Unit>): seq<bytes>
  {
    seq(|units|, i requires 0 <= i < |units| => PacketOf(units[i]))
  }

  function Arrivals(packets: seq<bytes>, clock: nat -> int): seq<Event>
  {
    seq(|packets|, i requires 0 <= i < |packets| => Arrival(Parse(packets[i]), clock(i)))
  }

  /** The frame that the receiver owes for a unit: same number, size, codec, timing bits
      and bytes. */
  function FrameOf(u: Unit, now: int): Frame
  {
    AccessUnit(u.number, Header(1, u.width, u.height, u.codec, u.timing), u.data, now)
  }

  function FramesOf(units: seq<Unit>, clock: nat -> int): seq<Frame>
  {
    seq(|units|, i requires 0 <= i < |units| => FrameOf(units[i], clock(i)))
  }

  predicate NumberedFromOne(units: seq<Unit>)
  {
    forall i :: 0 <= i < |units| ==> units[i].number == i + 1
  }

  predicate AllSendable(units: seq<Unit>)
  {
    forall i :: 0 <= i < |units| ==> Sendable(units[i])
  }

  // ---- runs ----

  lemma {:induction false} RunAppend(s: State, a: seq<Event>, b: seq<Event>)
    ensures After(s, a + b) == After(After(s, a), b)
    ensures Emitted(s, a + b) == Emitted(s, a) + Emitted(After(s, a), b)
  {
    hide Step;
    if b == [] {
      assert a + b == a;
    } else {
      var init := b[..|b| - 1];
      assert (a + b)[..|a + b| - 1] == a + init;
      assert (a + b)[|a + b| - 1] == b[|b| - 1];
      RunAppend(s, a, init);
    }
  }

  lemma NoArrivals(clock: nat -> int)
    ensures Arrivals([], clock) == []
  {
  }

  lemma ArrivalsGrow(packets: seq<bytes>, p: bytes, clock: nat -> int)
    ensures Arrivals(packets + [p], clock) == Arrivals(packets, clock) + [Arrival(Parse(p), clock(|packets|))]
  {
    hide Parse;
  }

  lemma ArrivalsSnoc(units: seq<Unit>, clock: nat -> int)
    requires units != []
    ensures var n := |units| - 1;
            Arrivals(Packets(units), clock)
            == Arrivals(Packets(units[..n]), clock) + [Arrival(Parse(PacketOf(units[n])), clock(n))]
  {
    hide Parse, PacketOf;
  }

  lemma FramesSnoc(units: seq<Unit>, clock: nat -> int)
    requires units != []
    ensures var n := |units| - 1;
            FramesOf(units, clock) == FramesOf(units[..n], clock) + [FrameOf(units[n], clock(n))]
  {
  }

  lemma {:induction false} EmittedLength(s: State, events: seq<Event>)
    ensures |Emitted(s, events)| <= |events|
  {
    hide Step;
    if events == [] {
    } else {
      EmittedLength(s, events[..|events| - 1]);
    }
  }

  // ---- into an empty table, or after a completed frame ----

  /** Ready for the unit numbered `next`: nothing is open, and the number either follows
      the last completed one or restarts the stream. */
  ghost predicate Ready(s: State, next: nat)
  {
    Restarts(next, s.last) || (s.table == [] && (next > s.last || s.last == 0))
  }

  lemma StepUnit(s: State, u: Unit, now: int)
    requires Sendable(u) && Ready(s, u.number)
    ensures var r := Step(s, Arrival(Parse(PacketOf(u)), now));
            r.1 == Some(FrameOf(u, now)) && r.0.table == [] && r.0.last == u.number
  {
    WireExact.ParsePacket(u);
    var c: Chunk := ChunkOf(u);
    SingleChunk(if Restarts(u.number, s.last) then Reset(s) else s, s.last, c, now);
  }

  lemma ReadyNext(s: State, n: nat)
    requires if n == 0 then s.last > 0 || s.table == [] else s.table == [] && s.last == n
    ensures Ready(s, n + 1)
  {
  }

  /** Units numbered 1, 2, ... each come out at once and in order. */
  lemma {:induction false} UnitsEmitted(s: State, units: seq<Unit>, clock: nat -> int)
    requires s.last > 0 || s.table == []
    requires AllSendable(units) && NumberedFromOne(units)
    ensures Emitted(s, Arrivals(Packets(units), clock)) == FramesOf(units, clock)
    ensures var s' := After(s, Arrivals(Packets(units), clock));
            if units == [] then s' == s else s'.table == [] && s'.last == |units|
  {
    hide Step, Parse, PacketOf, Sendable, Ready;
    if units == [] {
      assert Arrivals(Packets(units), clock) == [];
    } else {
      var n := |units| - 1;
      UnitsEmitted(s, units[..n], clock);
      var m := After(s, Arrivals(Packets(units[..n]), clock));
      ReadyNext(m, n);
      StepUnit(m, units[n], clock(n));
      ArrivalsSnoc(units, clock);
      FramesSnoc(units, clock);
      AfterSnoc(s, Arrivals(Packets(units[..n]), clock), Arrival(Parse(PacketOf(units[n])), clock(n)));
    }
  }

  // ---- into a table left behind by packets that completed nothing ----

  predicate Unexpired(a: Assembly, now: int) { now - a.firstAt <= ASSEMBLY_TTL }

  /** An unexpired entry of the number is open. */
  predicate Blocks(table: seq<Assembly>, number: nat, now: int)
  {
    exists i :: 0 <= i < |table| && table[i].number == number && Unexpired(table[i], now)
  }

  lemma {:induction false} FilterTwice<T>(p: T -> bool, q: T -> bool, r: T -> bool, s: seq<T>)
    requires forall x :: x in s ==> (r(x) <==> p(x) && q(x))
    ensures Filter(p, Filter(q, s)) == Filter(r, s)
  {
    if s == [] {
    } else {
      FilterTwice(p, q, r, s[1..]);
      if q(s[0]) {
        var t := Filter(q, s[1..]);
        assert Filter(q, s) == [s[0]] + t && ([s[0]] + t)[1..] == t;
      } else {
        assert Filter(q, s) == Filter(q, s[1..]);
      }
    }
  }

  lemma PositionLast<T>(p: T -> bool, r: seq<T>, x: T)
    requires p(x) && forall i :: 0 <= i < |r| ==> !p(r[i])
    ensures Position(p, r + [x]) == |r| && Without(r + [x], |r|) == r
  {
    var t := r + [x];
    assert t[|r|] == x && forall i :: 0 <= i < |r| ==> t[i] == r[i];
  }

  lemma GatherOne(b: bytes)
    ensures Gather([Some(b)]) == Some(b)
  {
    assert [Some(b)][1..] == [];
    assert b + [] == b;
  }

  /** A finished entry that is the last of the table leaves the entries above its number. */
  lemma CompleteLastEntry(s: State, r: seq<Assembly>, a: Assembly)
    requires s.table == r + [a] && a.received == a.header.total
    requires forall i :: 0 <= i < |r| ==> r[i].number != a.number
    ensures Complete(s, a.number).0.last == a.number
    ensures Complete(s, a.number).0.table == Filter(Above(a.number), r)
  {
    CompleteTakes(s, a.number);
    hide Complete, Above;
    PositionLast(Finished(a.number), r, a);
    hide Position, Without;
    assert (r + [a])[|r|] == a;
  }

  lemma CompleteTakes(s: State, number: nat)
    ensures var i := Position(Finished(number), s.table);
            i < |s.table| ==>
              && Complete(s, number).0.last == s.table[i].number
              && Complete(s, number).0.table == Filter(Above(s.table[i].number), Without(s.table, i))
  {
    hide Position, Without, Gather, Size, Finished, Above;
  }

  /** A single-chunk packet whose number is not open is emitted, however full the table is,
      and leaves the entries above its number, but for an evicted one. */
  lemma OpensAndCompletes(e: State, c: Chunk, now: int)
    requires TableOK(e.table) && Lookup(e.table, c.number).None? && c.header.total == 1
    ensures Place(e, c, now).Some?
    ensures var r := Complete(Place(e, c, now).value, c.number);
            && r.1 == Some(AccessUnit(c.number, c.header, c.payload, now))
            && r.0.last == c.number && r.0.table == Filter(Above(c.number), MakeRoom(e).table)
  {
    var placed := Place(e, c, now).value;
    var a := Open(c, now);
    assert a.chunks == [Some(c.payload)];
    assert placed.table == MakeRoom(e).table + [a];
    PlaceKeeps(e, c, now);
    NoneNumbered(e, c.number);
    GatherOne(c.payload);
    assert (MakeRoom(e).table + [a])[|MakeRoom(e).table|] == a;
    hide Place, Open, Gather, PlacedOK, TableOK, MakeRoom, Complete, Lookup;
    ReassemblyDelivery.CompleteOwn(placed, a);
    CompleteLastEntry(placed, MakeRoom(e).table, a);
  }

  lemma NoneNumbered(e: State, number: nat)
    requires Lookup(e.table, number).None?
    ensures forall i :: 0 <= i < |MakeRoom(e).table| ==> MakeRoom(e).table[i].number != number
  {
    LookupFound(e.table, number);
    var r := MakeRoom(e).table;
    forall i | 0 <= i < |r| ensures r[i].number != number {
      assert r[i] in e.table;
    }
  }

  /** An unexpired entry of the unit's number has several chunks, so the headers disagree. */
  lemma BlockedUnit(s: State, c: Chunk, now: int)
    requires TableOK(s.table) && c.number > s.last && c.header.total == 1 && Blocks(s.table, c.number, now)
    ensures Assemble(s, s.last, c, now).1 == None
  {
    FilterTable(Live(now, s.last), s.table);
    var e := Expire(s, s.last, now);
    LookupFound(e.table, c.number);
    var i :| 0 <= i < |s.table| && s.table[i].number == c.number && Unexpired(s.table[i], now);
    assert Live(now, s.last)(s.table[i]) && s.table[i] in e.table;
    assert Place(e, c, now) == None;
  }

  lemma UnblockedUnit(s: State, c: Chunk, now: int)
    requires TableOK(s.table) && c.header.total == 1 && !Blocks(s.table, c.number, now)
    ensures var r := Assemble(s, s.last, c, now);
            && r.1 == Some(AccessUnit(c.number, c.header, c.payload, now)) && r.0.last == c.number
            && r.0.table == Filter(Above(c.number), MakeRoom(Expire(s, s.last, now)).table)
  {
    FilterTable(Live(now, s.last), s.table);
    var e := Expire(s, s.last, now);
    forall a | a in e.table ensures a.number != c.number {
      assert a in s.table;
      var j :| 0 <= j < |s.table| && s.table[j] == a;
      assert Live(now, s.last)(a);
    }
    LookupAbsent(e.table, c.number);
    hide Blocks, Live, Lookup, Position, Place, Complete, MakeRoom, TableOK, Expire;
    OpensAndCompletes(e, c, now);
  }

  /** One unit: emitted if and only if no unexpired entry with its number is open. */
  lemma EmittedUnlessBlocked(s: State, u: Unit, now: int)
    requires Sendable(u) && TableOK(s.table) && (s.last == 0 || u.number > s.last)
    ensures var r := Deliver(s, Parse(PacketOf(u)), now);
            if Blocks(s.table, u.number, now) then r.1 == None
            else && r.1 == Some(FrameOf(u, now)) && r.0.last == u.number
                 && r.0.table == Filter(Above(u.number), MakeRoom(Expire(s, s.last, now)).table)
  {
    WireExact.ParsePacket(u);
    hide Parse, PacketOf, Assemble, Blocks, TableOK, MakeRoom, Expire;
    var c: Chunk := ChunkOf(u);
    if Blocks(s.table, u.number, now) {
      BlockedUnit(s, c, now);
    } else {
      UnblockedUnit(s, c, now);
    }
  }

  /** The entries left after the first call of a cast: the unexpired ones, without the first
      of them if they fill the table. */
  function Survivors(s: State, now: int): seq<Assembly> { MakeRoom(Expire(s, s.last, now)).table }

  /** No entry stands in the way of units 1 to n, arriving at their times. */
  ghost predicate ClearFor(s: State, n: nat, clock: nat -> int)
  {
    n > 0 ==> && !Blocks(s.table, 1, clock(0))
              && forall k :: 1 <= k < n ==> !Blocks(Survivors(s, clock(0)), k + 1, clock(k))
  }

  predicate NonDecreasing(clock: nat -> int, n: nat)
  {
    forall i, j :: 0 <= i <= j < n ==> clock(i) <= clock(j)
  }

  lemma SurvivorsBounded(s: State, now: int)
    requires TableOK(s.table)
    ensures TableOK(Survivors(s, now)) && |Survivors(s, now)| < MAX_IN_FLIGHT
    ensures forall a :: a in Survivors(s, now) ==> a in s.table && Live(now, s.last)(a)
  {
    FilterTable(Live(now, s.last), s.table);
    var e := Expire(s, s.last, now);
    if |e.table| == MAX_IN_FLIGHT { TailTable(e.table); }
  }

  /** The table after the first n units of a cast that meets no obstacle. */
  function Remaining(s: State, n: nat, clock: nat -> int): seq<Assembly>
    requires n > 0
  {
    Filter(Live(clock(n - 1), n), Survivors(s, clock(0)))
  }

  lemma BlocksFiltered(keep: Assembly -> bool, t: seq<Assembly>, number: nat, now: int)
    requires forall a :: a in t && a.number == number && Unexpired(a, now) ==> keep(a)
    ensures Blocks(Filter(keep, t), number, now) <==> Blocks(t, number, now)
  {
    var r := Filter(keep, t);
    if Blocks(t, number, now) {
      var i :| 0 <= i < |t| && t[i].number == number && Unexpired(t[i], now);
      assert t[i] in r;
      var j :| 0 <= j < |r| && r[j] == t[i];
    }
    if Blocks(r, number, now) {
      var i :| 0 <= i < |r| && r[i].number == number && Unexpired(r[i], now);
      assert r[i] in r && r[i] in t;
      var j :| 0 <= j < |t| && t[j] == r[i];
    }
  }

  lemma BlocksRemaining(s: State, n: nat, clock: nat -> int)
    requires n > 0 && NonDecreasing(clock, n + 1)
    ensures Blocks(Remaining(s, n, clock), n + 1, clock(n)) <==> Blocks(Survivors(s, clock(0)), n + 1, clock(n))
  {
    BlocksFiltered(Live(clock(n - 1), n), Survivors(s, clock(0)), n + 1, clock(n));
  }

  /** The first unit leaves the survivors above it. */
  lemma FirstRemaining(s: State, clock: nat -> int)
    requires TableOK(s.table) && s.last == 0
    ensures Filter(Above(1), MakeRoom(Expire(s, s.last, clock(0))).table) == Remaining(s, 1, clock)
  {
    SurvivorsBounded(s, clock(0));
    var t := Survivors(s, clock(0));
    FilterAll(Live(clock(0), 0), t);
    FilterTwice(Above(1), Live(clock(0), 0), Live(clock(0), 1), t);
  }

  lemma NextRemaining(s: State, m: State, n: nat, clock: nat -> int)
    requires TableOK(s.table) && n > 0 && NonDecreasing(clock, n + 1)
    requires m.table == Remaining(s, n, clock) && m.last == n
    ensures TableOK(m.table)
    ensures Filter(Above(n + 1), MakeRoom(Expire(m, m.last, clock(n))).table) == Remaining(s, n + 1, clock)
  {
    var t := Survivors(s, clock(0));
    SurvivorsBounded(s, clock(0));
    FilterTable(Live(clock(n - 1), n), t);
    var e := Expire(m, n, clock(n));
    assert |e.table| <= |m.table| <= |t| < MAX_IN_FLIGHT;
    assert clock(n - 1) <= clock(n);
    FilterTwice(Live(clock(n), n), Live(clock(n - 1), n), Live(clock(n), n), t);
    FilterTwice(Above(n + 1), Live(clock(n), n), Live(clock(n), n + 1), t);
  }

  /** As long as nothing is in the way, every unit is emitted. */
  lemma {:induction false} ClearCast(s: State, units: seq<Unit>, clock: nat -> int)
    requires TableOK(s.table) && s.last == 0 && AllSendable(units) && NumberedFromOne(units)
    requires NonDecreasing(clock, |units|) && ClearFor(s, |units|, clock)
    ensures Emitted(s, Arrivals(Packets(units), clock)) == FramesOf(units, clock)
    ensures var m := After(s, Arrivals(Packets(units), clock));
            if units == [] then m == s else m.last == |units| && m.table == Remaining(s, |units|, clock)
  {
    hide Deliver, Parse, PacketOf, Sendable, Remaining, Survivors, Blocks, MakeRoom, Expire;
    if units == [] {
      assert Arrivals(Packets(units), clock) == [];
    } else {
      var n := |units| - 1;
      ClearCast(s, units[..n], clock);
      var m := After(s, Arrivals(Packets(units[..n]), clock));
      if n == 0 {
        FirstRemaining(s, clock);
      } else {
        NextRemaining(s, m, n, clock);
        BlocksRemaining(s, n, clock);
      }
      EmittedUnlessBlocked(m, units[n], clock(n));
      ArrivalsSnoc(units, clock);
      FramesSnoc(units, clock);
      AfterSnoc(s, Arrivals(Packets(units[..n]), clock), Arrival(Parse(PacketOf(units[n])), clock(n)));
    }
  }

  /** As soon as something is in the way, a frame is missing for good. */
  lemma {:induction false} BlockedCast(s: State, units: seq<Unit>, clock: nat -> int)
    requires TableOK(s.table) && s.last == 0 && AllSendable(units) && NumberedFromOne(units)
    requires NonDecreasing(clock, |units|) && !ClearFor(s, |units|, clock)
    ensures |Emitted(s, Arrivals(Packets(units), clock))| < |units|
  {
    hide Deliver, Parse, PacketOf, Sendable, Remaining, Survivors, Blocks, MakeRoom, Expire;
    var n := |units| - 1;
    var before := Arrivals(Packets(units[..n]), clock);
    var m := After(s, before);
    ArrivalsSnoc(units, clock);
    AfterSnoc(s, before, Arrival(Parse(PacketOf(units[n])), clock(n)));
    if ClearFor(s, n, clock) {
      ClearCast(s, units[..n], clock);
      if n > 0 {
        NextRemaining(s, m, n, clock);
        BlocksRemaining(s, n, clock);
      }
      EmittedUnlessBlocked(m, units[n], clock(n));
      EmittedLength(s, before);
    } else {
      BlockedCast(s, units[..n], clock);
    }
  }

  /** The whole cast, from any table: every unit is emitted, in order and unchanged, if and
      only if a frame was completed before or no entry is in the way. */
  lemma CastEmittedExactly(s: State, units: seq<Unit>, clock: nat -> int)
    requires TableOK(s.table) && AllSendable(units) && NumberedFromOne(units) && NonDecreasing(clock, |units|)
    ensures Emitted(s, Arrivals(Packets(units), clock)) == FramesOf(units, clock)
            <==> s.last > 0 || ClearFor(s, |units|, clock)
  {
    hide ClearFor, AllSendable, NonDecreasing, Emitted, Packets;
    if s.last > 0 {
      UnitsEmitted(s, units, clock);
    } else if ClearFor(s, |units|, clock) {
      ClearCast(s, units, clock);
    } else {
      BlockedCast(s, units, clock);
    }
  }

  /** With room in the table the condition is on its entries alone: none numbered like a unit
      is unexpired when that unit arrives. */
  lemma ClearWithRoom(s: State, n: nat, clock: nat -> int)
    requires TableOK(s.table) && |s.table| < 32 && s.last == 0 && NonDecreasing(clock, n)
    ensures ClearFor(s, n, clock) <==> forall k :: 0 <= k < n ==> !Blocks(s.table, k + 1, clock(k))
  {
    if n > 0 {
      var t := Survivors(s, clock(0));
      assert t == Filter(Live(clock(0), 0), s.table);
      forall k | 1 <= k < n ensures Blocks(t, k + 1, clock(k)) <==> Blocks(s.table, k + 1, clock(k)) {
        BlocksFiltered(Live(clock(0), 0), s.table, k + 1, clock(k));
      }
    }
  }

  /** A table full of unexpired entries loses its first one to unit 1, unless that is the one
      in the way of unit 1: from then on only the others count. */
  lemma ClearWhenFull(s: State, n: nat, clock: nat -> int)
    requires TableOK(s.table) && |s.table| == 32 && s.last == 0 && NonDecreasing(clock, n)
    requires n > 0 && forall a :: a in s.table ==> Live(clock(0), 0)(a)
    ensures ClearFor(s, n, clock) <==>
            && !Blocks(s.table, 1, clock(0))
            && forall k :: 1 <= k < n ==> !Blocks(s.table[1..], k + 1, clock(k))
  {
    FilterAll(Live(clock(0), 0), s.table);
    assert Survivors(s, clock(0)) == s.table[1..];
  }

  // ---- how an entry comes to be in the way ----

  /** A packet that carries the first of two chunks. */
  function Stray(number: nat): bytes { Encoded(H264_TAG, StrayChunk(number)) }

  function StrayChunk(number: nat): Chunk { Chunk(number, 0, Header(2, 1, 1, H264, Untimed), [0]) }

  function StrayEntry(number: nat, at: int): Assembly
  {
    Assembly(number, StrayChunk(number).header, [Some([0]), None], 1, at)
  }

  lemma OpensOnly(s: State, c: Chunk, now: int)
    requires s.table == [] && c.header.total > 1
    ensures Assemble(s, s.last, c, now) == (s.(table := [Open(c, now)]), None)
  {
    var e := Expire(s, s.last, now);
    assert e == s;
    var placed := Place(e, c, now);
    assert s.table + [Open(c, now)] == [Open(c, now)];
    assert placed == Some(s.(table := [Open(c, now)]));
    assert !Finished(c.number)(Open(c, now));
    assert [Open(c, now)][1..] == [];
    assert Position(Finished(c.number), [Open(c, now)]) == 1;
  }

  lemma StrayOpens(number: nat, at: int)
    requires 0 < number < 0x1_0000_0000
    ensures Deliver(Initial, Parse(Stray(number)), at) == (Initial.(table := [StrayEntry(number, at)]), None)
  {
    var c := StrayChunk(number);
    assert WireExact.TagFits(H264_TAG, c.header);
    assert Open(c, at) == StrayEntry(number, at);
    hide Encoded, WireExact.TagFits, Assemble, Open;
    WireExact.ChunksExactly(Stray(number), c);
    hide Parse;
    OpensOnly(Initial, c, at);
  }

  /** A receiver that starts with a stray chunk: the cast that follows is complete if and only
      if the stray is not numbered like one of its units, or has expired when that unit comes.
      A stray numbered 2, say, lets unit 1 through and swallows unit 2. */
  lemma StaleEntryBlocks(number: nat, at: int, units: seq<Unit>, clock: nat -> int)
    requires 0 < number < 0x1_0000_0000
    requires AllSendable(units) && NumberedFromOne(units) && NonDecreasing(clock, |units|)
    ensures var s := After(Initial, [Arrival(Parse(Stray(number)), at)]);
            Emitted(s, Arrivals(Packets(units), clock)) == FramesOf(units, clock)
            <==> number > |units| || clock(number - 1) - at > ASSEMBLY_TTL
  {
    var stray := [Arrival(Parse(Stray(number)), at)];
    var s := After(Initial, stray);
    assert stray[..0] == [] && After(Initial, []) == Initial;
    StrayOpens(number, at);
    hide Deliver, Parse;
    assert s.table == [StrayEntry(number, at)];
    RunKeeps(Initial, stray);
    hide AllSendable, Emitted, Packets, ClearFor, Arrivals, FramesOf;
    CastEmittedExactly(s, units, clock);
    ClearWithRoom(s, |units|, clock);
    StrayInTheWay(s, number, at, |units|, clock);
  }

  lemma StrayInTheWay(s: State, number: nat, at: int, n: nat, clock: nat -> int)
    requires s.table == [StrayEntry(number, at)] && number > 0
    ensures (forall k :: 0 <= k < n ==> !Blocks(s.table, k + 1, clock(k)))
            <==> number > n || clock(number - 1) - at > ASSEMBLY_TTL
  {
    assert s.table[0].number == number && s.table[0].firstAt == at;
    if number <= n {
      var k := number - 1;
      assert Blocks(s.table, k + 1, clock(k)) <==> Unexpired(s.table[0], clock(k));
    }
  }

  // ---- casts that end, and the next ones ----

  /** The packets of one cast; a stop is sent behind its last unit. */
  function CastPackets(units: seq<Unit>, stopped: bool): seq<bytes>
  {
    Packets(units) + if stopped then [StopPacket()] else []
  }

  function CastFrames(units: seq<Unit>, stopped: bool, clock: nat -> int): seq<Frame>
  {
    FramesOf(units, clock) + if stopped then [StopFrame] else []
  }

  /** The stop marker adds its frame and resets the reassembler. */
  lemma StopBehind(s: State, units: seq<Unit>, clock: nat -> int)
    ensures var events := Arrivals(CastPackets(units, true), clock);
            && Emitted(s, events) == Emitted(s, Arrivals(Packets(units), clock)) + [StopFrame]
            && After(s, events).last == 0 && After(s, events).table == []
  {
    hide Packets, Parse, Arrivals;
    var before := Arrivals(Packets(units), clock);
    ArrivalsGrow(Packets(units), StopPacket(), clock);
    AfterSnoc(s, before, Arrival(StopMarker, clock(|Packets(units)|)));
  }

  lemma StopAtEnd(frames: seq<Frame>, others: seq<Frame>)
    ensures frames + [StopFrame] == others + [StopFrame] <==> frames == others
  {
    if frames + [StopFrame] == others + [StopFrame] {
      assert frames == (frames + [StopFrame])[..|frames|];
      assert others == (others + [StopFrame])[..|others|];
    }
  }

  /** A cast, stopped or not, gives its frames, and behind them a stop frame if it was stopped,
      exactly when nothing is in the way of its units; a stopped cast leaves the reassembler
      reset in any case. */
  lemma WholeCastExactly(s: State, units: seq<Unit>, stopped: bool, clock: nat -> int)
    requires TableOK(s.table) && AllSendable(units) && NumberedFromOne(units) && NonDecreasing(clock, |units|)
    ensures var events := Arrivals(CastPackets(units, stopped), clock);
            && (Emitted(s, events) == CastFrames(units, stopped, clock) <==> s.last > 0 || ClearFor(s, |units|, clock))
            && (stopped ==> After(s, events).last == 0 && After(s, events).table == [])
  {
    hide ClearFor, AllSendable, NonDecreasing, Emitted, Packets, Arrivals, After, FramesOf;
    CastEmittedExactly(s, units, clock);
    if stopped {
      StopBehind(s, units, clock);
      StopAtEnd(Emitted(s, Arrivals(Packets(units), clock)), FramesOf(units, clock));
    } else {
      assert Packets(units) + [] == Packets(units) && FramesOf(units, clock) + [] == FramesOf(units, clock);
    }
  }

  /** The same without a condition on the clock, for a receiver that has completed a frame or
      has an empty table: it is then ready for the next cast as well. */
  lemma CastLeavesReady(s: State, units: seq<Unit>, stopped: bool, clock: nat -> int)
    requires (s.last > 0 || s.table == []) && AllSendable(units) && NumberedFromOne(units)
    ensures var events := Arrivals(CastPackets(units, stopped), clock);
            && Emitted(s, events) == CastFrames(units, stopped, clock)
            && (After(s, events).last > 0 || After(s, events).table == [])
            && (stopped ==> After(s, events).last == 0 && After(s, events).table == [])
  {
    hide AllSendable, Emitted, Packets, Arrivals, After, FramesOf;
    UnitsEmitted(s, units, clock);
    if stopped {
      StopBehind(s, units, clock);
    } else {
      assert Packets(units) + [] == Packets(units) && FramesOf(units, clock) + [] == FramesOf(units, clock);
    }
  }

  datatype Cast = Cast(units: seq<Unit>, stopped: bool, clock: nat -> int)

  function AllEvents(casts: seq<Cast>): seq<Event>
  {
    if casts == [] then [] else
    Arrivals(CastPackets(casts[0].units, casts[0].stopped), casts[0].clock) + AllEvents(casts[1..])
  }

  function AllFrames(casts: seq<Cast>): seq<Frame>
  {
    if casts == [] then [] else
    CastFrames(casts[0].units, casts[0].stopped, casts[0].clock) + AllFrames(casts[1..])
  }

  /** Any number of casts, one after the other, each numbered from 1 again and stopped or not. */
  lemma {:induction false} ConsecutiveCasts(s: State, casts: seq<Cast>)
    requires s.last > 0 || s.table == []
    requires forall i :: 0 <= i < |casts| ==> AllSendable(casts[i].units) && NumberedFromOne(casts[i].units)
    ensures Emitted(s, AllEvents(casts)) == AllFrames(casts)
    decreases |casts|
  {
    hide Arrivals, CastPackets, CastFrames, AllSendable, NumberedFromOne, After;
    if casts == [] {
    } else {
      var c := casts[0];
      var events := Arrivals(CastPackets(c.units, c.stopped), c.clock);
      CastLeavesReady(s, c.units, c.stopped, c.clock);
      RunAppend(s, events, AllEvents(casts[1..]));
      ConsecutiveCasts(After(s, events), casts[1..]);
    }
  }
}
