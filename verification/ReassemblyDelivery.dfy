/** Order and duplicates do not matter: an access unit is emitted on exactly the call that
    supplies its last missing chunk, joined in index order, the first copy of each chunk
    winning, however other packets are interleaved with it. */
module ReassemblyDelivery {
  import opened Prelude
  import opened Wire
  import opened Reassembly
  import opened ReassemblyTable

  // ---- what a run supplies for one number, read off the packets alone ----

  predicate Carries(e: Event, number: nat)
  {
    e.Arrival? && e.packet.Media? && e.packet.body.Some? && e.packet.body.value.number == number
  }

  predicate CarriesChunk(e: Event, number: nat, i: nat)
  {
    Carries(e, number) && e.packet.body.value.index == i
  }

  /** The first payload that arrived for a chunk. */
  function FirstCopy(events: seq<Event>, number: nat, i: nat): Option<bytes>
  {
    if events == [] then None
    else if CarriesChunk(events[0], number, i) then Some(events[0].packet.body.value.payload)
    else FirstCopy(events[1..], number, i)
  }

  function FirstCopies(events: seq<Event>, number: nat, total: nat): seq<Option<bytes>>
  {
    seq(total, i requires 0 <= i < total => FirstCopy(events, number, i))
  }

  /** The first packet of the number. */
  function Opener(events: seq<Event>, number: nat): Option<Event>
    ensures Opener(events, number).Some? ==> Carries(Opener(events, number).value, number)
  {
    if events == [] then None
    else if Carries(events[0], number) then Some(events[0])
    else Opener(events[1..], number)
  }

  predicate Supplied(events: seq<Event>, number: nat, total: nat)
  {
    Full(FirstCopies(events, number, total))
  }

  /** The assembly the table should hold for the number. */
  function Expected(events: seq<Event>, number: nat, total: nat): Option<RawAssembly>
  {
    match Opener(events, number)
    case None => None
    case Some(e) =>
      var slots := FirstCopies(events, number, total);
      Some(Assembly(number, e.packet.body.value.header, slots, FilledCount(slots), e.now))
  }

  // ---- the conditions on the environment ----

  predicate Other(number: nat, a: Assembly) { a.number != number }

  /** How many other frames are open during the call. */
  function OthersDuring(s: State, p: Parsed, number: nat): nat
  {
    var others := |Filter((a: Assembly) => Other(number, a), s.table)|;
    if p.Media? && p.body.Some? && p.number != number && Lookup(s.table, p.number).None? then others + 1 else others
  }

  /** The call neither resets the pipeline nor finishes a higher number, leaves fewer than
      32 other frames open, comes within the lifetime of the frame, and agrees with its
      header if it belongs to it. */
  ghost predicate Undisturbed(s: State, earlier: seq<Event>, e: Event, number: nat, h: Header)
  {
    && e.Arrival? && !e.packet.StopMarker?
    && (e.packet.Media? ==> e.packet.number > s.last || s.last == 0)
    && (e.packet.Media? && e.packet.body.Some? ==> e.packet.body.value.number == e.packet.number)
    && (Carries(e, number) ==> SameHeader(h, e.packet.body.value.header))
    && OthersDuring(s, e.packet, number) < 32
    && (Opener(earlier, number).Some? ==> e.now - Opener(earlier, number).value.now <= ASSEMBLY_TTL)
    && Step(s, e).0.last <= number
  }

  ghost predicate Undisturbing(s: State, events: seq<Event>, number: nat, h: Header)
  {
    events == [] ||
    var before := events[..|events| - 1];
    Undisturbing(s, before, number, h) && Undisturbed(After(s, before), before, events[|events| - 1], number, h)
  }

  ghost predicate Fresh(s: State, number: nat)
  {
    TableOK(s.table) && number > s.last && forall a :: a in s.table ==> a.number != number
  }

  // ---- facts about the first copies ----

  lemma {:induction false} FirstCopyAppend(events: seq<Event>, e: Event, number: nat, i: nat)
    ensures FirstCopy(events + [e], number, i) ==
            if FirstCopy(events, number, i).Some? then FirstCopy(events, number, i)
            else if CarriesChunk(e, number, i) then Some(e.packet.body.value.payload) else None
  {
    if events == [] {
      assert (events + [e])[1..] == [];
    } else {
      assert (events + [e])[1..] == events[1..] + [e];
      FirstCopyAppend(events[1..], e, number, i);
    }
  }

  lemma {:induction false} OpenerAppend(events: seq<Event>, e: Event, number: nat)
    ensures Opener(events + [e], number) ==
            if Opener(events, number).Some? then Opener(events, number)
            else if Carries(e, number) then Some(e) else None
  {
    if events == [] {
      assert (events + [e])[1..] == [];
    } else {
      assert (events + [e])[1..] == events[1..] + [e];
      OpenerAppend(events[1..], e, number);
    }
  }

  lemma {:induction false} NothingFirst(events: seq<Event>, number: nat, i: nat)
    requires Opener(events, number).None?
    ensures FirstCopy(events, number, i).None?
  {
    if events != [] { NothingFirst(events[1..], number, i); }
  }

  lemma FirstCopiesAppend(events: seq<Event>, e: Event, number: nat, total: nat)
    ensures var earlier := FirstCopies(events, number, total);
            FirstCopies(events + [e], number, total) ==
            if Carries(e, number) && e.packet.body.value.index < total && earlier[e.packet.body.value.index].None?
            then earlier[e.packet.body.value.index := Some(e.packet.body.value.payload)] else earlier
  {
    forall i | 0 <= i < total
      ensures FirstCopy(events + [e], number, i) ==
              if FirstCopy(events, number, i).Some? then FirstCopy(events, number, i)
              else if CarriesChunk(e, number, i) then Some(e.packet.body.value.payload) else None
    {
      FirstCopyAppend(events, e, number, i);
    }
  }

  // ---- one call ----

  lemma ExpireKeepsOpen(s: State, lastSeen: nat, now: int, number: nat)
    requires Distinct(s.table) && number > lastSeen
    requires Lookup(s.table, number).Some? ==> now - Lookup(s.table, number).value.firstAt <= ASSEMBLY_TTL
    ensures Lookup(Expire(s, lastSeen, now).table, number) == Lookup(s.table, number)
  {
    LookupFound(s.table, number);
    FilterDistinct(Live(now, lastSeen), s.table);
    var kept := Filter(Live(now, lastSeen), s.table);
    if Lookup(s.table, number).Some? {
      assert Lookup(s.table, number).value in kept;
      LookupMember(kept, Lookup(s.table, number).value);
    } else {
      LookupAbsent(kept, number);
    }
  }

  lemma {:induction false} CountOthers(t: seq<Assembly>, number: nat)
    requires Distinct(t)
    ensures |Filter((a: Assembly) => Other(number, a), t)| == |t| - (if Lookup(t, number).Some? then 1 else 0)
  {
    if t == [] {
    } else {
      CountOthers(t[1..], number);
      LookupFound(t[1..], number);
      if t[0].number == number {
        forall a | a in t[1..] ensures a.number != number {
          var j :| 0 <= j < |t[1..]| && t[1..][j] == a;
          assert t[j + 1] == a;
        }
        LookupAbsent(t[1..], number);
      } else if Lookup(t[1..], number).Some? {
        LookupMember(t, Lookup(t[1..], number).value);
      } else {
        LookupAbsent(t, number);
      }
    }
  }

  /** A chunk of another number leaves the open assembly alone while there is room. */
  lemma PlaceOther(s: State, c: Chunk, now: int, number: nat)
    requires TableOK(s.table) && c.number != number
    requires Lookup(s.table, c.number).None? ==> |s.table| < MAX_IN_FLIGHT
    requires Place(s, c, now).Some?
    ensures Lookup(Place(s, c, now).value.table, number) == Lookup(s.table, number)
  {
    PlaceKeeps(s, c, now);
    LookupFound(s.table, number);
    LookupFound(s.table, c.number);
    var t' := Place(s, c, now).value.table;
    if Lookup(s.table, number).Some? {
      var a := Lookup(s.table, number).value;
      assert a in t' by {
        var j :| 0 <= j < |s.table| && s.table[j] == a;
        assert t'[j] == a;
      }
      LookupMember(t', a);
    } else {
      LookupAbsent(t', number);
    }
  }

  /** Finishing a lower number leaves the open assembly alone. */
  lemma CompleteOther(s: State, n: nat, number: nat)
    requires PlacedOK(s.table, n) && n != number
    requires Complete(s, n).0.last <= number
    ensures Lookup(Complete(s, n).0.table, number) == Lookup(s.table, number)
    ensures Complete(s, n).1.Some? ==> Complete(s, n).1.value.AccessUnit? && Complete(s, n).1.value.number == n
  {
    CompleteKeeps(s, n);
    LookupFound(s.table, number);
    var i := Position(Finished(n), s.table);
    if i < |s.table| {
      var t' := Complete(s, n).0.table;
      WithoutDistinct(s.table, i);
      if Lookup(s.table, number).Some? {
        assert Lookup(s.table, number).value in t';
        LookupMember(t', Lookup(s.table, number).value);
      } else {
        LookupAbsent(t', number);
      }
    }
  }

  lemma AssembleOther(s: State, c: Chunk, now: int, number: nat)
    requires TableOK(s.table) && c.number != number && s.last < number
    requires Lookup(s.table, number).Some? ==> now - Lookup(s.table, number).value.firstAt <= ASSEMBLY_TTL
    requires |Filter((a: Assembly) => Other(number, a), s.table)|
             + (if Lookup(s.table, c.number).None? then 1 else 0) < MAX_IN_FLIGHT
    requires Assemble(s, s.last, c, now).0.last <= number
    ensures var r := Assemble(s, s.last, c, now);
            && Lookup(r.0.table, number) == Lookup(s.table, number)
            && (r.1.Some? ==> r.1.value.AccessUnit? && r.1.value.number == c.number)
  {
    FilterTable(Live(now, s.last), s.table);
    ExpireKeepsOpen(s, s.last, now, number);
    var e := Expire(s, s.last, now);
    if Place(e, c, now).Some? {
      if Lookup(e.table, c.number).None? {
        CountOthers(s.table, number);
        if |e.table| == MAX_IN_FLIGHT {
          // Nothing expired, so the number was not open before the call either.
          KeptAll(Live(now, s.last), s.table);
        }
      }
      PlaceOther(e, c, now, number);
      PlaceKeeps(e, c, now);
      CompleteOther(Place(e, c, now).value, c.number, number);
    }
  }

  lemma {:induction false} KeptAll<T>(keep: T -> bool, s: seq<T>)
    requires |Filter(keep, s)| == |s|
    ensures Filter(keep, s) == s
  {
    if s == [] {
    } else {
      assert keep(s[0]);
      KeptAll(keep, s[1..]);
    }
  }

  /** The frame a finished set of slots makes: none if one is empty or the whole is too long. */
  function Outcome(number: nat, h: Header, slots: seq<Option<bytes>>, firstAt: int): Option<Frame>
  {
    match Gather(slots)
    case None => None
    case Some(data) =>
      if 0 < |data| <= MAX_ACCESS_UNIT_BYTES then Some(AccessUnit(number, h, data, firstAt)) else None
  }

  /** What a chunk of the number itself leaves in the table, or emits. */
  lemma AssembleOwn(s: State, c: Chunk, now: int, slots: seq<Option<bytes>>, h: Header, firstAt: int)
    requires TableOK(s.table) && s.last < c.number
    requires |slots| == c.header.total && h.total == c.header.total && SameHeader(h, c.header)
    requires Lookup(s.table, c.number).Some? ==>
               Lookup(s.table, c.number) == Some(Assembly(c.number, h, slots, FilledCount(slots), firstAt))
               && now - firstAt <= ASSEMBLY_TTL
    requires Lookup(s.table, c.number).None? ==>
               slots == seq(c.header.total, _ => None) && h == c.header && firstAt == now && |s.table| < MAX_IN_FLIGHT
    ensures var slots' := if slots[c.index].None? then slots[c.index := Some(c.payload)] else slots;
            var r := Assemble(s, s.last, c, now);
            && r.1 == Outcome(c.number, h, slots', firstAt)
            && (!Full(slots') ==>
                  r.0.last == s.last
                  && Lookup(r.0.table, c.number) == Some(Assembly(c.number, h, slots', FilledCount(slots'), firstAt)))
  {
    FilterTable(Live(now, s.last), s.table);
    ExpireKeepsOpen(s, s.last, now, c.number);
    LookupFound(s.table, c.number);
    var e := Expire(s, s.last, now);
    LookupFound(e.table, c.number);
    var slots' := if slots[c.index].None? then slots[c.index := Some(c.payload)] else slots;
    PlaceKeeps(e, c, now);
    var placed := Place(e, c, now).value;
    var a: Assembly := Assembly(c.number, h, slots', FilledCount(slots'), firstAt);
    assert a in placed.table by {
      if Lookup(e.table, c.number).Some? {
        var i := Position(Numbered(c.number), e.table);
        if slots[c.index].None? {
          FillOne(slots, c.index, c.payload);
          assert Fill(e.table[i], c) == a;
          assert placed.table[i] == a;
        } else {
          assert placed.table[i] == a;
        }
      } else {
        OpenOne(c, now);
        assert Open(c, now) == a;
        assert placed.table[|placed.table| - 1] == a;
      }
    }
    FilledAll(slots');
    CompleteOwn(placed, a);
  }

  lemma CompleteOwn(s: State, a: Assembly)
    requires PlacedOK(s.table, a.number) && a in s.table
    requires a.received == a.header.total <==> Full(a.chunks)
    ensures var r := Complete(s, a.number);
            && r.1 == Outcome(a.number, a.header, a.chunks, a.firstAt)
            && (!Full(a.chunks) ==> r == (s, None) && Lookup(s.table, a.number) == Some(a))
  {
    LookupMember(s.table, a);
    GatherFull(a.chunks);
    var j :| 0 <= j < |s.table| && s.table[j] == a;
    forall k | 0 <= k < |s.table| && s.table[k].number == a.number ensures k == j {
    }
    var i := Position(Finished(a.number), s.table);
    if Full(a.chunks) {
      assert Finished(a.number)(s.table[j]);
      assert i == j;
    }
  }

  // ---- runs ----

  /** The table holds exactly what the packets so far supply. */
  ghost predicate Tracks(s: State, events: seq<Event>, number: nat, h: Header)
  {
    && TableOK(s.table) && s.last < number
    && (Opener(events, number).Some? ==> SameHeader(h, Opener(events, number).value.packet.body.value.header))
    && Lookup(s.table, number) == Expected(events, number, h.total)
  }

  lemma StepOther(s: State, events: seq<Event>, e: Event, number: nat, h: Header)
    requires Tracks(s, events, number, h) && Undisturbed(s, events, e, number, h) && !Carries(e, number)
    ensures Tracks(Step(s, e).0, events + [e], number, h)
    ensures Step(s, e).1.Some? ==> !Names(Step(s, e).1.value, number)
  {
    OpenerAppend(events, e, number);
    FirstCopiesAppend(events, e, number, h.total);
    DeliverKeeps(s, e.packet, e.now);
    if e.packet.Media? && e.packet.body.Some? {
      AssembleOther(s, e.packet.body.value, e.now, number);
      LastAfterAssemble(s, e.packet.body.value, e.now);
    }
  }

  lemma LastAfterAssemble(s: State, c: Chunk, now: int)
    ensures var r := Assemble(s, s.last, c, now).0.last; r == s.last || r == c.number
  {
  }

  lemma StepOwn(s: State, events: seq<Event>, e: Event, number: nat, h: Header)
    requires Tracks(s, events, number, h) && Undisturbed(s, events, e, number, h) && Carries(e, number)
    requires Admissible(h)
    ensures Opener(events + [e], number).Some?
    ensures var slots := FirstCopies(events + [e], number, h.total);
            var first := Opener(events + [e], number).value;
            && Step(s, e).1 == Outcome(number, first.packet.body.value.header, slots, first.now)
            && (!Full(slots) ==> Step(s, e).1 == None && Tracks(Step(s, e).0, events + [e], number, h))
  {
    var c := e.packet.body.value;
    OpenerAppend(events, e, number);
    FirstCopiesAppend(events, e, number, h.total);
    DeliverKeeps(s, e.packet, e.now);
    var slots := FirstCopies(events, number, h.total);
    if Opener(events, number).Some? {
      var first := Opener(events, number).value;
      SameHeaderTrans(h, first.packet.body.value.header, c.header);
      AssembleOwn(s, c, e.now, slots, first.packet.body.value.header, first.now);
    } else {
      forall i | 0 <= i < h.total ensures slots[i] == None {
        NothingFirst(events, number, i);
      }
      assert slots == seq(h.total, _ => None);
      CountOthers(s.table, number);
      SameHeaderTrans(c.header, c.header, c.header);
      AssembleOwn(s, c, e.now, slots, c.header, e.now);
    }
    GatherFull(FirstCopies(events + [e], number, h.total));
  }

  /** Header agreement is an equivalence. */
  lemma SameHeaderTrans(a: Header, b: Header, c: Header)
    ensures SameHeader(a, a)
    ensures SameHeader(a, b) ==> SameHeader(b, a)
    ensures SameHeader(a, b) && SameHeader(b, c) ==> SameHeader(a, c)
    ensures SameHeader(a, b) && SameHeader(a, c) ==> SameHeader(b, c)
  {
  }

  predicate Names(f: Frame, number: nat) { f.AccessUnit? && f.number == number }

  lemma NothingTracked(s: State, number: nat, h: Header)
    requires Fresh(s, number)
    ensures Tracks(s, [], number, h)
  {
    LookupAbsent(s.table, number);
  }

  lemma StillMissing(events: seq<Event>, e: Event, number: nat, total: nat)
    requires !Supplied(events + [e], number, total)
    ensures !Supplied(events, number, total)
  {
    FirstCopiesAppend(events, e, number, total);
  }

  /** Until every index has been supplied, the frame is not emitted and the table holds
      exactly the first copies that arrived. */
  lemma {:induction false} Pending(s: State, events: seq<Event>, number: nat, h: Header)
    requires Fresh(s, number) && Admissible(h) && Undisturbing(s, events, number, h)
    requires !Supplied(events, number, h.total)
    ensures Tracks(After(s, events), events, number, h)
    ensures forall f :: f in Emitted(s, events) ==> !Names(f, number)
  {
    hide Step, Lookup, Undisturbed, TableOK, FirstCopies, Full, Tracks;
    if events == [] {
      NothingTracked(s, number, h);
    } else {
      var before := events[..|events| - 1];
      var e := events[|events| - 1];
      assert events == before + [e];
      StillMissing(before, e, number, h.total);
      Pending(s, before, number, h);
      AfterSnoc(s, before, e);
      if Carries(e, number) {
        StepOwn(After(s, before), before, e, number, h);
      } else {
        StepOther(After(s, before), before, e, number, h);
      }
    }
  }

  /** The call that supplies the last missing index emits the frame at once, unless the
      joined chunks exceed the access-unit limit. */
  lemma Delivered(s: State, events: seq<Event>, e: Event, number: nat, h: Header)
    requires Fresh(s, number) && Admissible(h) && Undisturbing(s, events + [e], number, h)
    requires !Supplied(events, number, h.total) && Supplied(events + [e], number, h.total)
    ensures var slots := FirstCopies(events + [e], number, h.total);
            var first := Opener(events + [e], number);
            && first.Some? && Gather(slots).Some?
            && Step(After(s, events), e).1 ==
               if |Gather(slots).value| <= MAX_ACCESS_UNIT_BYTES
               then Some(AccessUnit(number, first.value.packet.body.value.header, Gather(slots).value, first.value.now))
               else None
  {
    assert (events + [e])[..|events + [e]| - 1] == events;
    Pending(s, events, number, h);
    FirstCopiesAppend(events, e, number, h.total);
    OpenerAppend(events, e, number);
    assert Carries(e, number);
    StepOwn(After(s, events), events, e, number, h);
    var slots := FirstCopies(events + [e], number, h.total);
    GatherFull(slots);
    assert slots[e.packet.body.value.index] == Some(e.packet.body.value.payload);
    SizePositive(slots, e.packet.body.value.index);
  }

  lemma {:induction false} SizePositive(chunks: seq<Option<bytes>>, i: nat)
    requires i < |chunks| && chunks[i].Some? && chunks[i].value != []
    ensures Size(chunks) > 0
  {
    if i == 0 {
    } else {
      assert chunks[1..][i - 1] == chunks[i];
      SizePositive(chunks[1..], i - 1);
    }
  }

  lemma {:induction false} GatherPieces(pieces: seq<bytes>)
    ensures Gather(seq(|pieces|, i requires 0 <= i < |pieces| => Some(pieces[i]))) == Some(Flatten(pieces))
  {
    if pieces == [] {
    } else {
      var all := seq(|pieces|, i requires 0 <= i < |pieces| => Some(pieces[i]));
      var rest := pieces[1..];
      assert all[1..] == seq(|rest|, i requires 0 <= i < |rest| => Some(rest[i]));
      GatherPieces(rest);
    }
  }

  lemma {:induction false} FirstCopyIsPiece(events: seq<Event>, number: nat, i: nat, piece: bytes)
    requires forall k :: 0 <= k < |events| && CarriesChunk(events[k], number, i) ==>
                           events[k].packet.body.value.payload == piece
    ensures FirstCopy(events, number, i).Some? ==> FirstCopy(events, number, i).value == piece
  {
    if events != [] && !CarriesChunk(events[0], number, i) {
      forall k | 0 <= k < |events[1..]| && CarriesChunk(events[1..][k], number, i)
        ensures events[1..][k].packet.body.value.payload == piece
      {
        assert events[k + 1] == events[1..][k];
      }
      FirstCopyIsPiece(events[1..], number, i, piece);
    }
  }

  /** Whatever the order and repetition of its chunks, an access unit cut into pieces is
      emitted as those pieces joined. */
  lemma ReassembledFromPieces(s: State, events: seq<Event>, e: Event, number: nat, h: Header, pieces: seq<bytes>)
    requires Fresh(s, number) && Admissible(h) && Undisturbing(s, events + [e], number, h)
    requires !Supplied(events, number, h.total) && Supplied(events + [e], number, h.total)
    requires |pieces| == h.total && |Flatten(pieces)| <= MAX_ACCESS_UNIT_BYTES
    requires forall k, i :: 0 <= k < |events + [e]| && 0 <= i < |pieces| ==>
               (CarriesChunk((events + [e])[k], number, i) ==>
                  (events + [e])[k].packet.body.value.payload == pieces[i])
    ensures var f := Step(After(s, events), e).1;
            f.Some? && Names(f.value, number) && f.value.data == Flatten(pieces) && SameHeader(h, f.value.header)
  {
    Delivered(s, events, e, number, h);
    var all := events + [e];
    var slots := FirstCopies(all, number, h.total);
    forall i | 0 <= i < h.total ensures slots[i] == Some(pieces[i]) {
      FirstCopyIsPiece(all, number, i, pieces[i]);
    }
    assert slots == seq(|pieces|, i requires 0 <= i < |pieces| => Some(pieces[i]));
    GatherPieces(pieces);
    GatherFull(slots);
    assert all[..|all| - 1] == events;
    Pending(s, events, number, h);
    OpenerAppend(events, e, number);
  }
}
