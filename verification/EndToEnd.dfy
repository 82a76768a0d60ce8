/** From the encoder's output to the receiver's frame channel: the sender's ordered write
    chain, the receiver's read loop, and their composition. */
module EndToEnd {
  import opened Prelude
  import opened Wire
  import opened Reassembly
  import opened ReassemblyTable
  import opened CastRuns
  import AnnexB
  import Framing

  // ---- the sender ----

  datatype EncoderTiming = EncoderTiming(captureTime: bytes, encodeDuration: bytes)

  type Marked = t: EncoderTiming | |t.captureTime| == 8 && |t.encodeDuration| == 4
    witness EncoderTiming([0, 0, 0, 0, 0, 0, 0, 0], [0, 0, 0, 0])

  /** A write waiting its turn on the chain. */
  datatype Job = Job(number: nat, data: bytes, timing: Option<Marked>)

  class StreamWorker {
    const width: nat
    const height: nat
    const codec: Codec
    var sequence: nat
    var chain: seq<Job>
    var stopRequested: bool
    var sink: bytes
    var running: bool
    // The units whose packets have been written, and whether a stop packet was written last.
    ghost var written: seq<Unit>
    ghost var stopped: bool

    /** The stream holds exactly the framed packets of the written units, numbered 1, 2, ...,
        and perhaps a stop packet behind them; until a stop is requested or the stream ends
        the waiting writes carry the numbers that follow. */
    ghost predicate Valid()
      reads this
    {
      && sink == Framing.FramedAll(CastPackets(written, stopped))
      && (stopped ==> !running)
      && (forall i :: 0 <= i < |written| ==> written[i].number == i + 1)
      && (running && !stopRequested ==>
            && |written| + |chain| == sequence
            && forall i :: 0 <= i < |chain| ==> chain[i].number == |written| + i + 1)
    }

    constructor (width: nat, height: nat, codec: Codec)
      ensures Valid() && sequence == 0 && chain == [] && !stopRequested && written == [] && running && !stopped
      ensures this.width == width && this.height == height && this.codec == codec
    {
      this.width, this.height, this.codec := width, height, codec;
      sequence, chain, stopRequested, sink, written := 0, [], false, [], [];
      running, stopped := true, false;
      new;
      assert CastPackets([], false) == [];
    }

    /** The encoder's output callback: numbers the access unit and queues its write; an
        access unit over the decoder's limit stops the stream instead. */
    method EncoderOutput(accessUnit: bytes, timing: Option<Marked>)
      requires Valid() && running
      modifies this`sequence, this`chain, this`stopRequested
      ensures Valid() && sequence == old(sequence) + 1
      ensures |accessUnit| > MAX_ACCESS_UNIT_BYTES ==> stopRequested && chain == old(chain)
      ensures |accessUnit| <= MAX_ACCESS_UNIT_BYTES ==>
                stopRequested == old(stopRequested) && chain == old(chain) + [Job(sequence, accessUnit, timing)]
    {
      sequence := sequence + 1;
      if |accessUnit| > MAX_ACCESS_UNIT_BYTES {
        stopRequested := true;
        return;
      }
      chain := chain + [Job(sequence, accessUnit, timing)];
    }

    function UnitOf(job: Job, sendStart: bytes): Unit
    {
      Unit(job.number, width, height, codec,
           match job.timing
           case None => Untimed
           case Some(t) => Synchronised(t.captureTime, t.encodeDuration, sendStart),
           job.data)
    }

    /** Runs the write at the head of the chain. The send time is taken only now. A stop or
        the end of the stream skips the write; a failed write stops the stream. */
    method RunNextWrite(sendStart: bytes, writeSucceeds: bool)
      requires Valid() && chain != [] && |sendStart| == 8
      modifies this`chain, this`stopRequested, this`sink, this`written
      ensures Valid() && chain == old(chain)[1..]
      ensures if running && !old(stopRequested) && writeSucceeds
              then !stopRequested && written == old(written) + [UnitOf(old(chain)[0], sendStart)]
              else sink == old(sink) && written == old(written)
                   && stopRequested == (running || old(stopRequested))
      ensures |written| > |old(written)| ==>
                var job, u := old(chain)[0], written[|old(written)|];
                && u.number == job.number && u.data == job.data
                && u.width == width && u.height == height && u.codec == codec
                && u.timing == (match job.timing
                                case None => Untimed
                                case Some(t) => Synchronised(t.captureTime, t.encodeDuration, sendStart))
    {
      hide PacketOf, CastPackets, Framing.FramedAll;
      var job := chain[0];
      chain := chain[1..];
      if !running || stopRequested { return; }
      var unit := UnitOf(job, sendStart);
      var packet := MakePacket(unit);
      if !writeSucceeds {
        stopRequested := true;
        return;
      }
      AppendFramed(written, unit);
      sink := sink + packet[..];
      written := written + [unit];
    }

    method RequestStop()
      requires Valid()
      modifies this`stopRequested
      ensures Valid() && stopRequested
    {
      stopRequested := true;
    }

    /** The end of the stream: a stop that was requested is told to the receiver, unless that
        write fails. Writes that are still waiting will find the stream ended. */
    method Finish(writeSucceeds: bool)
      requires Valid() && running
      modifies this`running, this`sink, this`stopped
      ensures Valid() && !running && stopped == (stopRequested && writeSucceeds)
    {
      hide PacketOf, CastPackets, StopPacket, Framing.FramedAll;
      if stopRequested && writeSucceeds {
        var packet := MakeStopPacket();
        AppendStop(written);
        sink := sink + packet[..];
        stopped := true;
      }
      running := false;
    }
  }

  lemma {:induction false} FramedSnoc(payloads: seq<bytes>, p: bytes)
    ensures Framing.FramedAll(payloads + [p]) == Framing.FramedAll(payloads) + Framing.Framed(p)
  {
    if payloads == [] {
      assert (payloads + [p])[1..] == [];
      assert Framing.FramedAll([]) == [];
    } else {
      assert (payloads + [p])[1..] == payloads[1..] + [p];
      FramedSnoc(payloads[1..], p);
    }
  }

  lemma AppendFramed(units: seq<Unit>, u: Unit)
    ensures Framing.FramedAll(CastPackets(units + [u], false))
            == Framing.FramedAll(CastPackets(units, false)) + (U32(|PacketOf(u)|) + PacketOf(u))
  {
    hide PacketOf;
    assert CastPackets(units, false) == Packets(units);
    assert CastPackets(units + [u], false) == Packets(units) + [PacketOf(u)];
    FramedSnoc(Packets(units), PacketOf(u));
  }

  lemma AppendStop(units: seq<Unit>)
    ensures Framing.FramedAll(CastPackets(units, true))
            == Framing.FramedAll(CastPackets(units, false)) + (U32(|StopPacket()|) + StopPacket())
  {
    hide PacketOf, StopPacket;
    assert CastPackets(units, false) == Packets(units);
    FramedSnoc(Packets(units), StopPacket());
  }

  // ---- the receiver ----

  /** Serves one incoming stream: reads a length, then that many bytes, and hands the packet to
      the reassembler, until the stream ends, a length is out of range, or the frame channel
      is closed. `accepts` says whether the channel takes the frame of the k-th packet. */
  method ServeStream(stream: Framing.IncomingStream, r: Reassembler, clock: nat -> int, accepts: nat -> bool)
    returns (sent: seq<Frame>, ghost served: nat, ghost lost: seq<Frame>)
    requires r.Valid()
    modifies stream, r
    ensures r.Valid() && r.output == old(r.output) + sent + lost
    ensures var packets := Framing.Deframe(old(Flatten(stream.pieces)), 8388644).payloads;
            && served <= |packets|
            && r.history == old(r.history) + Arrivals(packets[..served], clock)
            && (served < |packets| ==> lost != [])
    ensures lost != [] ==> |lost| == 1 && served > 0 && !accepts(served - 1)
  {
    hide Parse, Deliver, After, Emitted, Arrivals, Flatten, Framing.FrontOf, Framing.Deframe;
    assert MAX_UNI_STREAM_MESSAGE_BYTES == 8388644;
    NoArrivals(clock);
    sent, lost := [], [];
    var calls := 0;
    ghost var handled: seq<bytes> := [];
    ghost var all := Framing.Deframe(Flatten(stream.pieces), MAX_UNI_STREAM_MESSAGE_BYTES).payloads;
    assert handled + all == all;
    while true
      invariant calls == |handled|
      invariant r.Valid() && r.output == old(r.output) + sent
      invariant r.history == old(r.history) + Arrivals(handled, clock)
      invariant handled + Framing.Deframe(Flatten(stream.pieces), MAX_UNI_STREAM_MESSAGE_BYTES).payloads == all
      decreases |Flatten(stream.pieces)|
    {
      Framing.DeframeUnfolds(Flatten(stream.pieces), MAX_UNI_STREAM_MESSAGE_BYTES);
      var packet := stream.ReadMessage(MAX_UNI_STREAM_MESSAGE_BYTES);
      if packet.None? {
        assert handled + [] == handled;
        break;
      }
      var frame := r.ProcessChunk(packet.value, clock(calls));
      ArrivalsGrow(handled, packet.value, clock);
      Associate(handled, [packet.value],
                Framing.Deframe(Flatten(stream.pieces), MAX_UNI_STREAM_MESSAGE_BYTES).payloads);
      handled := handled + [packet.value];
      calls := calls + 1;
      if frame.Some? && !accepts(calls - 1) {
        served, lost := calls, FrameList(frame);
        assert all[..served] == handled;
        return;
      }
      sent := sent + FrameList(frame);
    }
    served := calls;
    assert all[..served] == all == handled;
    assert sent + lost == sent && old(r.output) + sent + lost == old(r.output) + sent;
  }

  // ---- the composition ----

  lemma PacketsFit(units: seq<Unit>, stopped: bool)
    requires AllSendable(units)
    ensures Framing.Fits(CastPackets(units, stopped), MAX_UNI_STREAM_MESSAGE_BYTES)
  {
    hide Sendable, PacketOf;
    forall i | 0 <= i < |CastPackets(units, stopped)|
      ensures 0 < |CastPackets(units, stopped)[i]| <= MAX_UNI_STREAM_MESSAGE_BYTES
    {
      if i < |units| { PacketFits(units[i]); }
    }
  }

  lemma PacketFits(u: Unit)
    requires Sendable(u)
    ensures 0 < |PacketOf(u)| <= MAX_UNI_STREAM_MESSAGE_BYTES
  {
  }

  lemma StreamDeframes(units: seq<Unit>, stopped: bool)
    requires AllSendable(units)
    ensures Framing.Deframe(Framing.FramedAll(CastPackets(units, stopped)), MAX_UNI_STREAM_MESSAGE_BYTES).payloads
            == CastPackets(units, stopped)
  {
    PacketsFit(units, stopped);
    hide CastPackets;
    var stream := Framing.FramedAll(CastPackets(units, stopped));
    assert stream + [] == stream;
    assert Framing.Deframe([], MAX_UNI_STREAM_MESSAGE_BYTES).payloads == [];
    Framing.DeframeFramed(CastPackets(units, stopped), [], MAX_UNI_STREAM_MESSAGE_BYTES);
    assert CastPackets(units, stopped) + [] == CastPackets(units, stopped);
  }

  /** End to end: whatever the sender has written, cut into pieces in any way, the receiver
      sends on exactly the written access units, in order and unchanged, and a stop frame
      behind them if a stop packet was written, if and only if it has completed a frame before
      or no entry of its table is in the way. Scanning the frames then lists the NAL types that
      the encoder and the cache supplied. A stop packet leaves the reassembler reset, so
      that the next cast meets the condition. */
  method ReceiveCast(worker: StreamWorker, stream: Framing.IncomingStream, r: Reassembler, clock: nat -> int)
    returns (sent: seq<Frame>)
    requires worker.Valid() && AllSendable(worker.written)
    requires Flatten(stream.pieces) == worker.sink
    requires r.Valid()
    modifies stream, r
    ensures r.Valid()
    ensures old(r.lastCompleted > 0 || r.assemblies == []) ==>
              && sent == old(CastFrames(worker.written, worker.stopped, clock))
              && (r.lastCompleted > 0 || r.assemblies == [])
    ensures NonDecreasing(clock, |old(worker.written)|) ==>
              (sent == old(CastFrames(worker.written, worker.stopped, clock))
               <==> old(r.lastCompleted > 0 || ClearFor(r.View(), |worker.written|, clock)))
    ensures old(worker.stopped) ==> r.lastCompleted == 0 && r.assemblies == []
    ensures forall supplies: seq<Supply> ::
              AllConverted(old(worker.written), supplies)
              && sent == old(CastFrames(worker.written, worker.stopped, clock))
              ==> AllList(sent, supplies)
  {
    hide Parse, PacketOf, Step, Sendable, After, Emitted, Framing.Deframe, Framing.FramedAll, CastPackets, CastFrames;
    hide ClearFor, NonDecreasing, AllConverted, AllList;
    ghost var units, stopped := worker.written, worker.stopped;
    ghost var earlier, start := r.history, r.View();
    ghost var events := Arrivals(CastPackets(units, stopped), clock);
    StreamDeframes(units, stopped);
    ghost var served, lost;
    sent, served, lost := ServeStream(stream, r, clock, _ => true);
    assert CastPackets(units, stopped)[..served] == CastPackets(units, stopped);
    assert r.output == old(r.output) + sent + lost == old(r.output) + sent;
    RunAppend(Initial, earlier, events);
    Cancel(Emitted(Initial, earlier), sent, Emitted(start, events));
    ReassemblerStart(earlier, start);
    if start.last > 0 || start.table == [] { CastLeavesReady(start, units, stopped, clock); }
    if NonDecreasing(clock, |units|) { WholeCastExactly(start, units, stopped, clock); }
    if stopped { StopBehind(start, units, clock); }
    assert r.View() == After(start, events);
    forall supplies: seq<Supply> | AllConverted(units, supplies)
      ensures AllList(CastFrames(units, stopped, clock), supplies)
    {
      CastTypesArrive(units, supplies, stopped, clock);
    }
  }

  lemma ReassemblerStart(history: seq<Event>, s: State)
    requires s == After(Initial, history)
    ensures TableOK(s.table)
  {
    RunKeeps(Initial, history);
  }

  /** Composed with the conversion: a converted access unit is never empty, and scanning the
      emitted frame lists exactly the NAL types that the encoder and the cache supplied. */
  lemma NalTypesArrive(nals: seq<bytes>, keyOrFirst: bool, p: AnnexB.ParameterSets, u: Unit, now: int)
    requires AnnexB.Encodable(nals) && AnnexB.AllClean(nals)
    requires keyOrFirst ==> AnnexB.AllClean(AnnexB.ParameterNals(u.codec, p))
    requires u.data == AnnexB.Converted(AnnexB.LengthPrefixed(nals), u.codec, keyOrFirst, p)
    ensures u.data != [] && AnnexB.AllClean(AnnexB.Prologue(u.codec, keyOrFirst, p) + nals)
    ensures var f := FrameOf(u, now);
            AnnexB.ScanFrom(f.data, 0, f.header.codec)
            == AnnexB.Types(AnnexB.Prologue(u.codec, keyOrFirst, p) + nals, u.codec)
  {
    AnnexB.ScannerSeesConversion(nals, u.codec, keyOrFirst, p);
  }

  /** What the encoder and the cache supply for one access unit. */
  datatype Supply = Supply(nals: seq<bytes>, keyOrFirst: bool, parameters: AnnexB.ParameterSets)

  /** The unit is a conversion of clean NAL units. */
  ghost predicate ConvertedFrom(u: Unit, e: Supply)
  {
    && AnnexB.Encodable(e.nals) && AnnexB.AllClean(e.nals)
    && (e.keyOrFirst ==> AnnexB.AllClean(AnnexB.ParameterNals(u.codec, e.parameters)))
    && u.data == AnnexB.Converted(AnnexB.LengthPrefixed(e.nals), u.codec, e.keyOrFirst, e.parameters)
  }

  ghost predicate AllConverted(units: seq<Unit>, supplies: seq<Supply>)
  {
    |supplies| == |units| && forall i :: 0 <= i < |units| ==> ConvertedFrom(units[i], supplies[i])
  }

  /** Scanning the frame lists exactly the types of the NAL units supplied for it. */
  ghost predicate Lists(f: Frame, e: Supply)
  {
    f.AccessUnit? &&
    var all := AnnexB.Prologue(f.header.codec, e.keyOrFirst, e.parameters) + e.nals;
    AnnexB.AllClean(all) && AnnexB.ScanFrom(f.data, 0, f.header.codec) == AnnexB.Types(all, f.header.codec)
  }

  ghost predicate AllList(frames: seq<Frame>, supplies: seq<Supply>)
  {
    |supplies| <= |frames| && forall i :: 0 <= i < |supplies| ==> Lists(frames[i], supplies[i])
  }

  /** The same for all frames of a cast. */
  lemma CastTypesArrive(units: seq<Unit>, supplies: seq<Supply>, stopped: bool, clock: nat -> int)
    requires AllConverted(units, supplies)
    ensures AllList(CastFrames(units, stopped, clock), supplies)
  {
    var frames := CastFrames(units, stopped, clock);
    forall i | 0 <= i < |supplies| ensures Lists(frames[i], supplies[i]) {
      var e := supplies[i];
      assert ConvertedFrom(units[i], e);
      assert frames[i] == FrameOf(units[i], clock(i));
      NalTypesArrive(e.nals, e.keyOrFirst, e.parameters, units[i], clock(i));
      hide AnnexB.ScanFrom, AnnexB.Types, AnnexB.Prologue, AnnexB.AllClean;
    }
  }
}
