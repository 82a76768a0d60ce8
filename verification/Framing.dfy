/** Length-prefixed messages over a byte stream: the sender's frame, the two receive loops
    that undo it, and why neither depends on how the stream is cut into reads. */
module Framing {
  import opened Prelude
  import opened Wire

  const MAX_CONTROL_MESSAGE_BYTES: nat := 64 * 1024

  function Framed(payload: bytes): (r: bytes)
    ensures |r| == 4 + |payload|
  {
    U32(|payload|) + payload
  }

  function FramedAll(payloads: seq<bytes>): bytes
  {
    if payloads == [] then [] else Framed(payloads[0]) + FramedAll(payloads[1..])
  }

  predicate Fits(payloads: seq<bytes>, limit: nat)
  {
    forall i :: 0 <= i < |payloads| ==> 0 < |payloads[i]| <= limit
  }

  // ---- what a stream of bytes means ----

  datatype Deframed = Deframed(payloads: seq<bytes>, rest: bytes, valid: bool)

  datatype Front =
    | Incomplete
    | Invalid
    | Message(payload: bytes, later: bytes)

  /** What the first bytes of a stream are. */
  function FrontOf(stream: bytes, limit: nat): (f: Front)
    ensures f.Message? ==> |f.later| + LENGTH_PREFIX_BYTES + |f.payload| == |stream|
  {
    if |stream| < LENGTH_PREFIX_BYTES then Incomplete else
    var length := ReadU32(stream, 0);
    if length == 0 || length > limit then Invalid
    else if |stream| < LENGTH_PREFIX_BYTES + length then Incomplete
    else Message(stream[LENGTH_PREFIX_BYTES..LENGTH_PREFIX_BYTES + length], stream[LENGTH_PREFIX_BYTES + length..])
  }

  /** In bytes: the first four say how long the message is, from one byte up to the limit. */
  lemma FrontExactly(stream: bytes, limit: nat)
    ensures |stream| < 4 ==> FrontOf(stream, limit) == Incomplete
    ensures |stream| >= 4 ==>
              var n := stream[0] as int * 0x100_0000 + stream[1] as int * 0x1_0000 + stream[2] as int * 0x100
                       + stream[3] as int;
              FrontOf(stream, limit) ==
              if n < 1 || n > limit then Invalid
              else if 4 + n <= |stream| then Message(stream[4..4 + n], stream[4 + n..])
              else Incomplete
  {
  }

  function Before(payload: bytes, d: Deframed): Deframed { d.(payloads := [payload] + d.payloads) }

  /** The complete messages at the front of a stream, the bytes after them, and whether
      those bytes can still become a message. */
  function Deframe(stream: bytes, limit: nat): Deframed
    decreases |stream|
  {
    match FrontOf(stream, limit)
    case Incomplete => Deframed([], stream, true)
    case Invalid => Deframed([], stream, false)
    case Message(payload, later) => Before(payload, Deframe(later, limit))
  }

  /** Deframing loses no byte: the messages, framed again, and the rest are the stream; and what is
      left either lacks bytes of its next message, or begins with a length out of range. */
  lemma {:induction false} DeframeExactly(stream: bytes, limit: nat)
    requires limit < 0x1_0000_0000
    ensures var d := Deframe(stream, limit);
            && FramedAll(d.payloads) + d.rest == stream && Fits(d.payloads, limit)
            && FrontOf(d.rest, limit) == if d.valid then Incomplete else Invalid
    decreases |stream|
  {
    hide Framed, FrontOf;
    NothingFramedYet(stream);
    match FrontOf(stream, limit)
    case Incomplete =>
    case Invalid =>
    case Message(payload, later) =>
      DeframeExactly(later, limit);
      FrontReframed(stream, limit);
      hide Deframe;
      OneMoreFramed(payload, Deframe(later, limit), limit);
  }

  lemma NothingFramedYet(stream: bytes)
    ensures FramedAll([]) + stream == stream
  {
  }

  lemma OneMoreFramed(payload: bytes, d: Deframed, limit: nat)
    requires 0 < |payload| <= limit && Fits(d.payloads, limit)
    ensures FramedAll([payload] + d.payloads) + d.rest == Framed(payload) + (FramedAll(d.payloads) + d.rest)
    ensures Fits([payload] + d.payloads, limit)
  {
    hide Framed;
    assert ([payload] + d.payloads)[1..] == d.payloads;
    Associate(Framed(payload), FramedAll(d.payloads), d.rest);
  }

  lemma FrontReframed(stream: bytes, limit: nat)
    requires FrontOf(stream, limit).Message? && limit < 0x1_0000_0000
    ensures var f := FrontOf(stream, limit);
            0 < |f.payload| <= limit && stream == Framed(f.payload) + f.later
  {
    ReadBack32(stream, 0);
    var n := ReadU32(stream, 0);
    assert stream == stream[0..4] + stream[4..4 + n] + stream[4 + n..];
  }

  lemma DeframeUnfolds(stream: bytes, limit: nat)
    ensures Deframe(stream, limit).payloads ==
            match FrontOf(stream, limit)
            case Message(payload, later) => [payload] + Deframe(later, limit).payloads
            case _ => []
  {
  }

  lemma FrontAppend(a: bytes, b: bytes, limit: nat)
    ensures var f := FrontOf(a, limit);
            && (f.Invalid? ==> FrontOf(a + b, limit) == Invalid)
            && (f.Message? ==> FrontOf(a + b, limit) == Message(f.payload, f.later + b))
  {
    if |a| >= LENGTH_PREFIX_BYTES {
      var length := ReadU32(a, 0);
      assert ReadU32(a + b, 0) == length;
      if |a| >= LENGTH_PREFIX_BYTES + length {
        assert (a + b)[LENGTH_PREFIX_BYTES..LENGTH_PREFIX_BYTES + length]
               == a[LENGTH_PREFIX_BYTES..LENGTH_PREFIX_BYTES + length];
        assert (a + b)[LENGTH_PREFIX_BYTES + length..] == a[LENGTH_PREFIX_BYTES + length..] + b;
      }
    }
  }

  /** More bytes only extend what was already understood. */
  lemma {:induction false} DeframeAppend(a: bytes, b: bytes, limit: nat)
    ensures Deframe(a + b, limit) == Extend(Deframe(a, limit), b, limit)
    decreases |a|
  {
    FrontAppend(a, b, limit);
    match FrontOf(a, limit)
    case Incomplete =>
      assert [] + Deframe(a + b, limit).payloads == Deframe(a + b, limit).payloads;
    case Invalid =>
    case Message(payload, later) =>
      DeframeAppend(later, b, limit);
      var d := Deframe(later, limit);
      if d.valid {
        var more := Deframe(d.rest + b, limit).payloads;
        assert [payload] + (d.payloads + more) == [payload] + d.payloads + more;
      }
  }

  function Extend(d: Deframed, b: bytes, limit: nat): Deframed
  {
    if d.valid
    then var more := Deframe(d.rest + b, limit); Deframed(d.payloads + more.payloads, more.rest, more.valid)
    else Deframed(d.payloads, d.rest + b, false)
  }

  lemma FrontFramed(payload: bytes, tail: bytes, limit: nat)
    requires 0 < |payload| <= limit && |payload| < 0x1_0000_0000
    ensures FrontOf(Framed(payload) + tail, limit) == Message(payload, tail)
  {
    var s := Framed(payload) + tail;
    assert s[0..4] == U32(|payload|);
    U32RoundTrip(s, 0, |payload|);
    assert s[4..4 + |payload|] == payload;
    assert s[4 + |payload|..] == tail;
  }

  lemma DeframeFront(payload: bytes, later: bytes, stream: bytes, limit: nat)
    requires 0 < |payload| <= limit && |payload| < 0x1_0000_0000
    requires stream == Framed(payload) + later
    ensures Deframe(stream, limit) == Before(payload, Deframe(later, limit))
  {
    FrontFramed(payload, later, limit);
  }

  lemma FramedFront(payloads: seq<bytes>, tail: bytes)
    requires payloads != []
    ensures FramedAll(payloads) + tail == Framed(payloads[0]) + (FramedAll(payloads[1..]) + tail)
  {
  }

  /** Framing is undone exactly, whatever incomplete bytes follow. */
  lemma {:induction false} DeframeFramed(payloads: seq<bytes>, tail: bytes, limit: nat)
    requires Fits(payloads, limit) && limit < 0x1_0000_0000
    ensures Deframe(FramedAll(payloads) + tail, limit) == After(payloads, Deframe(tail, limit))
  {
    var d := Deframe(tail, limit);
    if payloads == [] {
      assert FramedAll(payloads) + tail == tail;
      assert payloads + d.payloads == d.payloads;
    } else {
      FramedFront(payloads, tail);
      DeframeFramed(payloads[1..], tail, limit);
      DeframeFront(payloads[0], FramedAll(payloads[1..]) + tail, FramedAll(payloads) + tail, limit);
      ConsAppend(payloads, d.payloads);
    }
  }

  lemma ConsAppend<T>(s: seq<T>, t: seq<T>)
    requires s != []
    ensures [s[0]] + (s[1..] + t) == s + t
  {
  }

  function After(payloads: seq<bytes>, d: Deframed): Deframed { d.(payloads := payloads + d.payloads) }

  /** A strict prefix of a frame is kept for later, complete and valid. */
  lemma DeframePrefix(payload: bytes, tail: bytes, limit: nat)
    requires 0 < |payload| <= limit && |payload| < 0x1_0000_0000
    requires tail < Framed(payload)
    ensures Deframe(tail, limit) == Deframed([], tail, true)
  {
    if |tail| >= LENGTH_PREFIX_BYTES {
      assert tail == Framed(payload)[..|tail|];
      assert tail[0..4] == Framed(payload)[0..4] == U32(|payload|);
      U32RoundTrip(tail, 0, |payload|);
    }
    assert FrontOf(tail, limit) == Incomplete;
  }

  /** Where a prefix of a framed stream ends: after some whole messages, inside the next. */
  lemma {:induction false} PrefixSplits(payloads: seq<bytes>, received: bytes) returns (k: nat, tail: bytes)
    requires received <= FramedAll(payloads)
    ensures k <= |payloads| && received == FramedAll(payloads[..k]) + tail
    ensures if k == |payloads| then tail == [] else tail < Framed(payloads[k])
    decreases |payloads|
  {
    if payloads == [] {
      return 0, [];
    }
    var first := Framed(payloads[0]);
    if |received| < |first| {
      assert received == FramedAll(payloads)[..|received|] == first[..|received|];
      assert received < first;
      assert payloads[..0] == [] && FramedAll([]) == [];
      return 0, received;
    }
    var later := received[|first|..];
    assert received[..|first|] == FramedAll(payloads)[..|first|] == first;
    assert later == FramedAll(payloads)[..|received|][|first|..] == FramedAll(payloads[1..])[..|later|];
    var j, t := PrefixSplits(payloads[1..], later);
    k, tail := j + 1, t;
    assert payloads[..k][1..] == payloads[1..][..j];
    assert received == first + later;
    assert FramedAll(payloads[..k]) == first + FramedAll(payloads[1..][..j]);
  }

  // ---- the control stream ----

  /** Frames one control message; a message over the limit is refused. What is framed reads back
      as exactly that message, unless it is empty. */
  method SendControlMessage(payload: bytes) returns (framed: Option<bytes>)
    ensures framed.Some? <==> |payload| <= 65536
    ensures framed.Some? && payload != [] ==>
              Deframe(framed.value, MAX_CONTROL_MESSAGE_BYTES) == Deframed([payload], [], true)
    ensures framed.Some? ==> framed.value == Framed(payload)
  {
    if |payload| > MAX_CONTROL_MESSAGE_BYTES { return None; }
    if payload != [] { OneMessage(payload, MAX_CONTROL_MESSAGE_BYTES); }
    return Some(U32(|payload|) + payload);
  }

  lemma OneMessage(payload: bytes, limit: nat)
    requires 0 < |payload| <= limit < 0x1_0000_0000
    ensures Deframe(Framed(payload), limit) == Deframed([payload], [], true)
  {
    hide Framed, Deframe, FrontOf;
    assert FramedAll([payload]) + [] == Framed(payload) by {
      assert [payload][1..] == [] && FramedAll([]) == [];
    }
    assert Deframe([], limit) == Deframed([], [], true) by { NothingFramed(limit); }
    DeframeFramed([payload], [], limit);
    assert [payload] + [] == [payload];
  }

  lemma NothingFramed(limit: nat)
    ensures Deframe([], limit) == Deframed([], [], true)
  {
  }

  /** The inner loop of the control-stream reader: takes every complete message off the
      pending bytes, and stops at an invalid length. */
  method TakeMessages(received: bytes) returns (handled: seq<bytes>, pending: bytes, valid: bool)
    ensures Deframed(handled, pending, valid) == Deframe(received, MAX_CONTROL_MESSAGE_BYTES)
  {
    handled, pending, valid := [], received, true;
    assert After(handled, Deframe(received, MAX_CONTROL_MESSAGE_BYTES)) == Deframe(received, MAX_CONTROL_MESSAGE_BYTES);
    while |pending| >= LENGTH_PREFIX_BYTES
      invariant valid
      invariant After(handled, Deframe(pending, MAX_CONTROL_MESSAGE_BYTES))
                == Deframe(received, MAX_CONTROL_MESSAGE_BYTES)
      decreases |pending|
    {
      var length := ReadU32(pending, 0);
      if length == 0 || length > MAX_CONTROL_MESSAGE_BYTES {
        valid := false;
        assert handled + [] == handled;
        return;
      }
      if |pending| < LENGTH_PREFIX_BYTES + length { break; }
      var payload := pending[LENGTH_PREFIX_BYTES..LENGTH_PREFIX_BYTES + length];
      var later := pending[LENGTH_PREFIX_BYTES + length..];
      Associate(handled, [payload], Deframe(later, MAX_CONTROL_MESSAGE_BYTES).payloads);
      pending := later;
      handled := handled + [payload];
    }
    assert handled + [] == handled;
  }

  /** The control-stream reader: appends every read to the pending bytes and hands over the
      complete messages, until the reads end or a length is invalid. */
  method ReadControlMessages(cuts: seq<bytes>) returns (handled: seq<bytes>, pending: bytes, valid: bool)
    ensures var d := Deframe(Flatten(cuts), MAX_CONTROL_MESSAGE_BYTES);
            handled == d.payloads && valid == d.valid && (valid ==> pending == d.rest)
  {
    hide FrontOf, Deframe;
    handled, pending, valid := [], [], true;
    NothingYet();
    var i := 0;
    while i < |cuts|
      invariant 0 <= i <= |cuts| && valid
      invariant Deframe(Flatten(cuts[..i]), MAX_CONTROL_MESSAGE_BYTES) == Deframed(handled, pending, true)
    {
      FlattenStep(cuts, i);
      DeframeAppend(Flatten(cuts[..i]), cuts[i], MAX_CONTROL_MESSAGE_BYTES);
      var messages, rest, ok := TakeMessages(pending + cuts[i]);
      handled, pending, valid := handled + messages, rest, ok;
      i := i + 1;
      if !valid {
        FlattenSplit(cuts, i);
        DeframeAppend(Flatten(cuts[..i]), Flatten(cuts[i..]), MAX_CONTROL_MESSAGE_BYTES);
        return;
      }
    }
    assert cuts[..i] == cuts;
  }

  lemma NothingYet()
    ensures Deframe(Flatten([]), MAX_CONTROL_MESSAGE_BYTES) == Deframed([], [], true)
  {
  }

  /** For any messages and any cut of their framed bytes, every number of reads hands over
      exactly the messages that are complete, in order, and keeps a strict prefix of the
      next one. */
  lemma ControlDeframing(payloads: seq<bytes>, cuts: seq<bytes>) returns (k: nat)
    requires Fits(payloads, MAX_CONTROL_MESSAGE_BYTES)
    requires Flatten(cuts) <= FramedAll(payloads)
    ensures k <= |payloads|
    ensures var d := Deframe(Flatten(cuts), MAX_CONTROL_MESSAGE_BYTES);
            && d.payloads == payloads[..k] && d.valid
            && Flatten(cuts) == FramedAll(payloads[..k]) + d.rest
            && (if k == |payloads| then d.rest == [] else d.rest < Framed(payloads[k]))
    ensures Flatten(cuts) == FramedAll(payloads) ==> k == |payloads|
  {
    var tail;
    k, tail := PrefixSplits(payloads, Flatten(cuts));
    if k < |payloads| {
      DeframePrefix(payloads[k], tail, MAX_CONTROL_MESSAGE_BYTES);
      FramedLength(payloads, k);
    }
    DeframeFramed(payloads[..k], tail, MAX_CONTROL_MESSAGE_BYTES);
  }

  lemma {:induction false} FramedLength(payloads: seq<bytes>, k: nat)
    requires k < |payloads|
    ensures |FramedAll(payloads)| >= |FramedAll(payloads[..k])| + |Framed(payloads[k])|
  {
    if k == 0 {
    } else {
      assert payloads[..k][1..] == payloads[1..][..k - 1];
      FramedLength(payloads[1..], k - 1);
    }
  }

  // ---- the media stream ----

  /** The front of a stream as two successive exact reads see it. */
  lemma FrontByReads(stream: bytes, limit: nat)
    ensures var f := FrontOf(stream, limit);
            if |stream| < LENGTH_PREFIX_BYTES then f == Incomplete else
            var length := ReadU32(stream[..LENGTH_PREFIX_BYTES], 0);
            var rest := stream[LENGTH_PREFIX_BYTES..];
            if length == 0 || length > limit then f == Invalid
            else if |rest| < length then f == Incomplete
            else f == Message(rest[..length], rest[length..])
  {
    if |stream| >= LENGTH_PREFIX_BYTES {
      assert ReadU32(stream[..LENGTH_PREFIX_BYTES], 0) == ReadU32(stream, 0);
    }
  }

  function AfterTaking(pieces: seq<bytes>, take: nat): seq<bytes>
    requires pieces != [] && take <= |pieces[0]|
  {
    if take == |pieces[0]| then pieces[1..] else [pieces[0][take..]] + pieces[1..]
  }

  lemma TakeFromFirst(pieces: seq<bytes>, take: nat)
    requires pieces != [] && take <= |pieces[0]|
    ensures Flatten(pieces) == pieces[0][..take] + Flatten(AfterTaking(pieces, take))
  {
    var p := pieces[0];
    assert p == p[..take] + p[take..];
    if take < |p| {
      assert AfterTaking(pieces, take)[1..] == pieces[1..];
      Associate(p[..take], p[take..], Flatten(pieces[1..]));
    }
  }

  /** A stream of bytes that arrives in arbitrary pieces. */
  class IncomingStream {
    var pieces: seq<bytes>

    constructor (pieces: seq<bytes>)
      ensures this.pieces == pieces
    {
      this.pieces := pieces;
    }

    /** Reads exactly `n` bytes, across as many pieces as it takes; fails at the end. */
    method ReadExact(n: nat) returns (data: Option<bytes>)
      modifies this
      ensures |old(Flatten(pieces))| < n ==> data == None
      ensures |old(Flatten(pieces))| >= n ==>
                data == Some(old(Flatten(pieces))[..n]) && Flatten(pieces) == old(Flatten(pieces))[n..]
      ensures |Flatten(pieces)| <= |old(Flatten(pieces))|
    {
      var got: bytes := [];
      while |got| < n
        invariant |got| <= n
        invariant got + Flatten(pieces) == old(Flatten(pieces))
        decreases |pieces|, n - |got|
      {
        if pieces == [] { return None; }
        var piece := pieces[0];
        var take := Min(n - |got|, |piece|);
        TakeFromFirst(pieces, take);
        Associate(got, piece[..take], Flatten(AfterTaking(pieces, take)));
        pieces := AfterTaking(pieces, take);
        got := got + piece[..take];
      }
      return Some(got);
    }

    /** Reads one length-prefixed message; fails at the end of the stream or on a length
        that is zero or over the limit. */
    method ReadMessage(limit: nat) returns (message: Option<bytes>)
      modifies this
      ensures match FrontOf(old(Flatten(pieces)), limit)
              case Message(payload, later) => message == Some(payload) && Flatten(pieces) == later
              case _ => message == None
    {
      FrontByReads(Flatten(pieces), limit);
      var prefix := ReadExact(LENGTH_PREFIX_BYTES);
      if prefix.None? { return None; }
      var length := ReadU32(prefix.value, 0);
      if length == 0 || length > limit { return None; }
      message := ReadExact(length);
    }
  }
}
