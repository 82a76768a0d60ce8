/** What every critical section keeps of the reassembly table, whatever last-completed
    number it was started with; used for sequential and for concurrent callers. */
module ReassemblyTable {
  import opened Prelude
  import opened Wire
  import opened Reassembly

  function FilledCount(chunks: seq<Option<bytes>>): (n: nat)
    ensures n <= |chunks|
  {
    if chunks == [] then 0 else (if chunks[0].Some? then 1 else 0) + FilledCount(chunks[1..])
  }

  predicate Full(chunks: seq<Option<bytes>>)
  {
    forall i :: 0 <= i < |chunks| ==> chunks[i].Some?
  }

  ghost predicate Distinct(t: seq<Assembly>)
  {
    forall i, j :: 0 <= i < j < |t| ==> t[i].number != t[j].number
  }

  /** The count of an open assembly is right, and at least one chunk is missing. */
  ghost predicate Partial(a: Assembly)
  {
    0 < a.received == FilledCount(a.chunks) < a.header.total
  }

  ghost predicate TableOK(t: seq<Assembly>)
  {
    |t| <= 32 && Distinct(t) && forall a :: a in t ==> Partial(a)
  }

  /** Between storing a chunk and taking the finished assembly out, only the assembly
      just touched may be full. */
  ghost predicate PlacedOK(t: seq<Assembly>, number: nat)
  {
    && |t| <= 32 && Distinct(t)
    && (forall a :: a in t ==> 0 < a.received == FilledCount(a.chunks) <= a.header.total)
    && (forall a :: a in t && a.number != number ==> Partial(a))
  }

  /** The open assembly of a number. */
  function Lookup(t: seq<Assembly>, number: nat): Option<Assembly>
  {
    var i := Position(Numbered(number), t);
    if i < |t| then Some(t[i]) else None
  }

  lemma LookupMember(t: seq<Assembly>, a: Assembly)
    requires Distinct(t) && a in t
    ensures Lookup(t, a.number) == Some(a)
  {
    var j :| 0 <= j < |t| && t[j] == a;
    var i := Position(Numbered(a.number), t);
    assert Numbered(a.number)(t[j]);
    assert i <= j;
    assert t[i].number == t[j].number;
  }

  lemma LookupAbsent(t: seq<Assembly>, number: nat)
    requires forall a :: a in t ==> a.number != number
    ensures Lookup(t, number) == None
  {
  }

  lemma LookupFound(t: seq<Assembly>, number: nat)
    ensures Lookup(t, number).Some? ==> Lookup(t, number).value in t && Lookup(t, number).value.number == number
    ensures Lookup(t, number).None? ==> forall a :: a in t ==> a.number != number
  {
    var i := Position(Numbered(number), t);
    if i == |t| {
      forall a | a in t ensures a.number != number {
        var j :| 0 <= j < |t| && t[j] == a;
        assert !Numbered(number)(t[j]);
      }
    }
  }

  // ---- slots ----

  lemma {:induction false} FillOne(chunks: seq<Option<bytes>>, i: nat, b: bytes)
    requires i < |chunks| && chunks[i].None?
    ensures FilledCount(chunks[i := Some(b)]) == FilledCount(chunks) + 1
  {
    var filled := chunks[i := Some(b)];
    if i == 0 {
      assert filled[1..] == chunks[1..];
    } else {
      assert filled[1..] == chunks[1..][i - 1 := Some(b)];
      FillOne(chunks[1..], i - 1, b);
    }
  }

  lemma {:induction false} FilledAll(chunks: seq<Option<bytes>>)
    ensures FilledCount(chunks) == |chunks| <==> Full(chunks)
  {
    if chunks == [] {
    } else {
      FilledAll(chunks[1..]);
      if Full(chunks) {
        assert chunks[0].Some? && Full(chunks[1..]);
      } else if chunks[0].Some? {
        assert !Full(chunks[1..]) by {
          if Full(chunks[1..]) {
            forall i | 0 <= i < |chunks| ensures chunks[i].Some? {
              if i > 0 { assert chunks[i] == chunks[1..][i - 1]; }
            }
          }
        }
      }
    }
  }

  lemma {:induction false} FilledNone(n: nat)
    ensures FilledCount(seq(n, _ => None)) == 0
  {
    if n == 0 {
    } else {
      assert seq<Option<bytes>>(n, _ => None)[1..] == seq(n - 1, _ => None);
      FilledNone(n - 1);
    }
  }

  lemma {:induction false} GatherFull(chunks: seq<Option<bytes>>)
    ensures Gather(chunks).Some? <==> Full(chunks)
    ensures Full(chunks) ==> |Gather(chunks).value| == Size(chunks)
  {
    if chunks == [] {
    } else {
      GatherFull(chunks[1..]);
      if Full(chunks) {
        assert chunks[0].Some? && Full(chunks[1..]);
      } else if chunks[0].Some? && Full(chunks[1..]) {
        forall i | 0 <= i < |chunks| ensures chunks[i].Some? {
          if i > 0 { assert chunks[i] == chunks[1..][i - 1]; }
        }
      }
    }
  }

  // ---- table operations ----

  lemma {:induction false} FilterDistinct(keep: Assembly -> bool, t: seq<Assembly>)
    requires Distinct(t)
    ensures Distinct(Filter(keep, t))
  {
    if t == [] {
    } else {
      assert Distinct(t[1..]);
      FilterDistinct(keep, t[1..]);
      var r := Filter(keep, t[1..]);
      forall a | a in r ensures a.number != t[0].number {
        var j :| 0 <= j < |t[1..]| && t[1..][j] == a;
        assert t[j + 1] == a;
      }
    }
  }

  lemma FilterTable(keep: Assembly -> bool, t: seq<Assembly>)
    requires TableOK(t)
    ensures TableOK(Filter(keep, t))
  {
    FilterDistinct(keep, t);
  }

  lemma OpenOne(c: Chunk, now: int)
    ensures Open(c, now).received == FilledCount(Open(c, now).chunks) == 1
  {
    var empty := seq<Option<bytes>>(c.header.total, _ => None);
    FilledNone(c.header.total);
    FillOne(empty, c.index, c.payload);
  }

  lemma AppendPlaced(t: seq<Assembly>, a: Assembly)
    requires TableOK(t) && |t| < MAX_IN_FLIGHT
    requires forall b :: b in t ==> b.number != a.number
    requires 0 < a.received == FilledCount(a.chunks)
    ensures PlacedOK(t + [a], a.number)
  {
    forall i, j | 0 <= i < j < |t + [a]| ensures (t + [a])[i].number != (t + [a])[j].number {
      assert t[i] in t;
    }
  }

  lemma ReplacePlaced(t: seq<Assembly>, i: nat, a: Assembly)
    requires TableOK(t) && i < |t| && a.number == t[i].number
    requires 0 < a.received == FilledCount(a.chunks)
    ensures PlacedOK(t[i := a], a.number)
  {
    forall b | b in t[i := a] && b.number != a.number ensures Partial(b) {
      var j :| 0 <= j < |t| && t[i := a][j] == b;
      assert j != i;
    }
  }

  lemma TailTable(t: seq<Assembly>)
    requires TableOK(t) && t != []
    ensures TableOK(t[1..])
  {
    forall a | a in t[1..] ensures a in t {
    }
  }

  lemma PlaceKeeps(s: State, c: Chunk, now: int)
    requires TableOK(s.table) && Place(s, c, now).Some?
    ensures PlacedOK(Place(s, c, now).value.table, c.number)
  {
    LookupFound(s.table, c.number);
    var i := Position(Numbered(c.number), s.table);
    if i < |s.table| {
      var a := s.table[i];
      if a.chunks[c.index].None? {
        FillOne(a.chunks, c.index, c.payload);
        ReplacePlaced(s.table, i, Fill(a, c));
      }
    } else {
      OpenOne(c, now);
      if |s.table| == MAX_IN_FLIGHT { TailTable(s.table); }
      AppendPlaced(MakeRoom(s).table, Open(c, now));
    }
  }

  /** An assembly taken out of a table has every slot filled, so joining it cannot
      stop at an empty slot. */
  lemma TakenIsFull(t: seq<Assembly>, number: nat)
    requires PlacedOK(t, number)
    ensures var i := Position(Finished(number), t);
            i < |t| ==> Full(t[i].chunks) && Gather(t[i].chunks).Some?
  {
    var i := Position(Finished(number), t);
    if i < |t| {
      assert t[i] in t;
      FilledAll(t[i].chunks);
      GatherFull(t[i].chunks);
    }
  }

  lemma WithoutDistinct(t: seq<Assembly>, i: nat)
    requires Distinct(t) && i < |t|
    ensures Distinct(Without(t, i))
    ensures forall a :: a in Without(t, i) ==> a in t && a.number != t[i].number
    ensures forall a :: a in t && a.number != t[i].number ==> a in Without(t, i)
  {
    var w := Without(t, i);
    forall j | 0 <= j < |w| ensures w[j] == t[if j < i then j else j + 1] {
    }
    forall a | a in t && a.number != t[i].number ensures a in w {
      var j :| 0 <= j < |t| && t[j] == a;
      assert w[if j < i then j else j - 1] == a;
    }
  }

  lemma CompleteKeeps(s: State, number: nat)
    requires PlacedOK(s.table, number)
    ensures TableOK(Complete(s, number).0.table)
  {
    var t := s.table;
    var i := Position(Finished(number), t);
    if i < |t| {
      WithoutDistinct(t, i);
      FilterDistinct(Above(t[i].number), Without(t, i));
    } else {
      forall a | a in t ensures Partial(a) {
        var j :| 0 <= j < |t| && t[j] == a;
        assert !Finished(number)(t[j]);
      }
    }
  }

  /** Every critical section keeps the table bounded, its numbers distinct, and every
      remaining assembly partial, for any last-completed number it was started with. */
  lemma AssembleKeeps(s: State, lastSeen: nat, c: Chunk, now: int)
    requires TableOK(s.table)
    ensures TableOK(Assemble(s, lastSeen, c, now).0.table)
  {
    FilterTable(Live(now, lastSeen), s.table);
    var e := Expire(s, lastSeen, now);
    if Place(e, c, now).Some? {
      PlaceKeeps(e, c, now);
      CompleteKeeps(Place(e, c, now).value, c.number);
    }
  }

  lemma DeliverKeeps(s: State, p: Parsed, now: int)
    requires TableOK(s.table)
    ensures TableOK(Deliver(s, p, now).0.table)
  {
    if p.Media? && p.body.Some? && !Repeats(p.number, s.last) {
      AssembleKeeps(if Restarts(p.number, s.last) then Reset(s) else s, s.last, p.body.value, now);
    }
  }

  lemma {:induction false} AfterSnoc(s: State, events: seq<Event>, e: Event)
    ensures After(s, events + [e]) == Step(After(s, events), e).0
    ensures Emitted(s, events + [e]) == Emitted(s, events) + FrameList(Step(After(s, events), e).1)
  {
    assert (events + [e])[..|events + [e]| - 1] == events;
  }

  lemma {:induction false} RunKeeps(s: State, events: seq<Event>)
    requires TableOK(s.table)
    ensures TableOK(After(s, events).table)
  {
    if events == [] {
    } else {
      var before := events[..|events| - 1];
      RunKeeps(s, before);
      var e := events[|events| - 1];
      if e.Arrival? { DeliverKeeps(After(s, before), e.packet, e.now); }
    }
  }

  /** The same for the object: whatever calls were made on it. */
  lemma ReassemblerKeeps(r: Reassembler)
    requires r.Valid()
    ensures TableOK(r.assemblies)
  {
    RunKeeps(Initial, r.history);
    assert r.View().table == r.assemblies;
  }

  /** A single-chunk packet that finds the table empty is emitted at once and leaves the
      table empty. */
  lemma SingleChunk(s: State, lastSeen: nat, c: Chunk, now: int)
    requires s.table == [] && c.header.total == 1
    ensures var r := Assemble(s, lastSeen, c, now);
            && r.1 == Some(AccessUnit(c.number, c.header, c.payload, now))
            && r.0.table == [] && r.0.last == c.number
  {
    var e := Expire(s, lastSeen, now);
    assert e.table == [];
    var a := Open(c, now);
    assert a.chunks == [Some(c.payload)];
    var placed := Place(e, c, now).value;
    assert placed.table == [a];
    assert Position(Finished(c.number), placed.table) == 0;
    assert Without(placed.table, 0) == [];
    assert a.chunks[1..] == [];
    assert Gather(a.chunks) == Some(c.payload + []) && c.payload + [] == c.payload;
    assert Size(a.chunks) == |c.payload|;
  }

  /** The chunks that are there, in index order. */
  function Present(chunks: seq<Option<bytes>>): seq<bytes>
  {
    if chunks == [] then []
    else (match chunks[0] case None => [] case Some(b) => [b]) + Present(chunks[1..])
  }

  /** The size that is tested is that of all the chunks there are. */
  lemma {:induction false} SizeExactly(chunks: seq<Option<bytes>>)
    ensures Size(chunks) == |Flatten(Present(chunks))|
  {
    if chunks == [] {
    } else {
      SizeExactly(chunks[1..]);
      match chunks[0] {
        case None =>
          assert [] + Present(chunks[1..]) == Present(chunks[1..]);
        case Some(b) =>
          FlattenAppend([b], Present(chunks[1..]));
          FlattenOne(b);
      }
    }
  }
}
