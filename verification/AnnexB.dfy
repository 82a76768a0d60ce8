/** Length-prefixed access units to Annex B (section B.1 of ITU-T H.264, section B.2 of
    ITU-T H.265), the decoder-description parser that fills the parameter-set cache
    (section 8.3.3.1, hvcC, and section 5.3.3.1, avcC, of ISO/IEC 14496-15), and the
    receiver's start-code scanner. */
module AnnexB {
  import opened Prelude
  import opened Wire

  const START_CODE: bytes := [0, 0, 0, 1]
  const HEVC_NUM_ARRAYS_OFFSET := 22
  const AVC_NUM_SPS_OFFSET := 5
  const DESCRIPTION_MIN_BYTES := 7
  const VPS_TYPE := 32
  const SPS_TYPE := 33
  const PPS_TYPE := 34

  datatype ParameterSets = ParameterSets(vps: Option<bytes>, sps: Option<bytes>, pps: Option<bytes>)

  class NalCache {
    var vps: Option<bytes>
    var sps: Option<bytes>
    var pps: Option<bytes>

    constructor ()
      ensures View() == ParameterSets(None, None, None)
    {
      vps, sps, pps := None, None, None;
    }

    function View(): ParameterSets
      reads this
    {
      ParameterSets(vps, sps, pps)
    }
  }

  // ---- the decoder description ----

  /** A NAL unit of a type the cache keeps replaces the one cached before. */
  function Cached(p: ParameterSets, nalType: nat, nal: bytes): ParameterSets
  {
    if nalType == VPS_TYPE then p.(vps := Some(nal))
    else if nalType == SPS_TYPE then p.(sps := Some(nal))
    else if nalType == PPS_TYPE then p.(pps := Some(nal))
    else p
  }

  /** Reads up to `count` NAL units of one type; stops at a truncated one. */
  function NalsAt(d: bytes, at: nat, count: nat, nalType: nat, p: ParameterSets): (r: (ParameterSets, nat))
    ensures at <= |d| ==> r.1 <= |d|
    decreases count
  {
    if count == 0 || at + 2 > |d| then (p, at) else
    var length := ReadU16(d, at);
    if at + 2 + length > |d| then (p, at + 2)
    else NalsAt(d, at + 2 + length, count - 1, nalType, Cached(p, nalType, d[at + 2..at + 2 + length]))
  }

  function ArraysAt(d: bytes, at: nat, count: nat, p: ParameterSets): ParameterSets
    decreases count
  {
    if count == 0 || at + 3 > |d| then p else
    var r := NalsAt(d, at + 3, ReadU16(d, at + 1), d[at] % 64, p);
    ArraysAt(d, r.1, count - 1, r.0)
  }

  function Described(d: bytes, codec: Codec, p: ParameterSets): ParameterSets
  {
    if |d| < DESCRIPTION_MIN_BYTES then p
    else if codec == Hevc then
      if |d| <= HEVC_NUM_ARRAYS_OFFSET then p
      else ArraysAt(d, HEVC_NUM_ARRAYS_OFFSET + 1, d[HEVC_NUM_ARRAYS_OFFSET], p)
    else
      var r := NalsAt(d, AVC_NUM_SPS_OFFSET + 1, d[AVC_NUM_SPS_OFFSET] % 32, SPS_TYPE, p);
      if r.1 + 1 > |d| then r.0 else NalsAt(d, r.1 + 1, d[r.1], PPS_TYPE, r.0).0
  }

  method ReadNals(d: bytes, start: nat, count: nat, nalType: nat, cache: NalCache) returns (offset: nat)
    modifies cache
    ensures (cache.View(), offset) == NalsAt(d, start, count, nalType, old(cache.View()))
  {
    offset := start;
    var j := 0;
    while j < count
      invariant 0 <= j <= count
      invariant NalsAt(d, offset, count - j, nalType, cache.View())
                == NalsAt(d, start, count, nalType, old(cache.View()))
    {
      if offset + 2 > |d| { break; }
      var nalLen := ReadU16(d, offset);
      if offset + 2 + nalLen > |d| {
        offset := offset + 2;
        return;
      }
      var nal := d[offset + 2..offset + 2 + nalLen];
      if nalType == VPS_TYPE { cache.vps := Some(nal); }
      if nalType == SPS_TYPE { cache.sps := Some(nal); }
      if nalType == PPS_TYPE { cache.pps := Some(nal); }
      offset := offset + 2 + nalLen;
      j := j + 1;
    }
  }

  /** Fills the cache from a decoder description, if there is one. */
  method ParseDecoderDescription(description: Option<bytes>, codec: Codec, cache: NalCache)
    modifies cache
    ensures description.None? ==> cache.View() == old(cache.View())
    ensures description.Some? ==> cache.View() == Described(description.value, codec, old(cache.View()))
  {
    if description.None? { return; }
    var d := description.value;
    if |d| < DESCRIPTION_MIN_BYTES { return; }
    if codec == Hevc {
      if |d| <= HEVC_NUM_ARRAYS_OFFSET { return; }
      var numOfArrays := d[HEVC_NUM_ARRAYS_OFFSET];
      var offset: nat := HEVC_NUM_ARRAYS_OFFSET + 1;
      var i := 0;
      while i < numOfArrays
        invariant 0 <= i <= numOfArrays
        invariant ArraysAt(d, offset, numOfArrays - i, cache.View())
                  == ArraysAt(d, HEVC_NUM_ARRAYS_OFFSET + 1, numOfArrays, old(cache.View()))
      {
        if offset + 3 > |d| { break; }
        offset := ReadNals(d, offset + 3, ReadU16(d, offset + 1), d[offset] % 64, cache);
        i := i + 1;
      }
    } else {
      var offset := ReadNals(d, AVC_NUM_SPS_OFFSET + 1, d[AVC_NUM_SPS_OFFSET] % 32, SPS_TYPE, cache);
      if offset + 1 > |d| { return; }
      offset := ReadNals(d, offset + 1, d[offset], PPS_TYPE, cache);
    }
  }

  // ---- a reference encoder for descriptions ----

  datatype NalArray = NalArray(typeByte: byte, nals: seq<bytes>)

  predicate Short(nals: seq<bytes>)
  {
    |nals| < 0x1_0000 && forall i :: 0 <= i < |nals| ==> |nals[i]| < 0x1_0000
  }

  function EncodeNals(nals: seq<bytes>): bytes
  {
    if nals == [] then [] else U16(|nals[0]|) + nals[0] + EncodeNals(nals[1..])
  }

  function EncodeArrays(arrays: seq<NalArray>): bytes
  {
    if arrays == [] then []
    else [arrays[0].typeByte] + U16(|arrays[0].nals|) + EncodeNals(arrays[0].nals) + EncodeArrays(arrays[1..])
  }

  /** Later NAL units win. */
  function CacheNals(p: ParameterSets, nalType: nat, nals: seq<bytes>): ParameterSets
    decreases |nals|
  {
    if nals == [] then p else CacheNals(Cached(p, nalType, nals[0]), nalType, nals[1..])
  }

  function CacheArrays(p: ParameterSets, arrays: seq<NalArray>): ParameterSets
    decreases |arrays|
  {
    if arrays == [] then p else CacheArrays(CacheNals(p, arrays[0].typeByte % 64, arrays[0].nals), arrays[1..])
  }

  lemma NalsStep(d: bytes, at: nat, count: nat, nalType: nat, p: ParameterSets, nal: bytes, later: bytes)
    requires at <= |d| && count > 0 && |nal| < 0x1_0000
    requires d[at..] == U16(|nal|) + nal + later
    ensures at + 2 + |nal| <= |d| && d[at + 2 + |nal|..] == later
    ensures NalsAt(d, at, count, nalType, p) == NalsAt(d, at + 2 + |nal|, count - 1, nalType, Cached(p, nalType, nal))
  {
    hide U16, ReadU16;
    Slices(d, at, U16(|nal|), nal, later);
    U16RoundTrip(d, at, |nal|);
  }

  lemma {:induction false} NalsDecode(d: bytes, at: nat, nalType: nat, p: ParameterSets, nals: seq<bytes>, later: bytes)
    requires at <= |d| && Short(nals) && d[at..] == EncodeNals(nals) + later
    ensures NalsAt(d, at, |nals|, nalType, p).0 == CacheNals(p, nalType, nals)
    ensures var end := NalsAt(d, at, |nals|, nalType, p).1; end <= |d| && d[end..] == later
    decreases |nals|
  {
    hide U16, ReadU16;
    if nals == [] {
      assert EncodeNals(nals) + later == later;
    } else {
      var rest := EncodeNals(nals[1..]) + later;
      assert EncodeNals(nals) + later == U16(|nals[0]|) + nals[0] + rest;
      NalsStep(d, at, |nals|, nalType, p, nals[0], rest);
      NalsDecode(d, at + 2 + |nals[0]|, nalType, Cached(p, nalType, nals[0]), nals[1..], later);
    }
  }

  lemma ArraysStep(d: bytes, at: nat, count: nat, p: ParameterSets, a: NalArray, later: bytes) returns (next: nat)
    requires at <= |d| && count > 0 && Short(a.nals)
    requires d[at..] == [a.typeByte] + U16(|a.nals|) + (EncodeNals(a.nals) + later)
    ensures next <= |d| && d[next..] == later
    ensures ArraysAt(d, at, count, p) == ArraysAt(d, next, count - 1, CacheNals(p, a.typeByte % 64, a.nals))
  {
    hide U16, ReadU16, EncodeNals, NalsAt, CacheNals;
    Slices(d, at, [a.typeByte], U16(|a.nals|), EncodeNals(a.nals) + later);
    assert d[at] == d[at..at + 1][0];
    U16RoundTrip(d, at + 1, |a.nals|);
    NalsDecode(d, at + 3, a.typeByte % 64, p, a.nals, later);
    next := NalsAt(d, at + 3, |a.nals|, a.typeByte % 64, p).1;
  }

  predicate ShortArrays(arrays: seq<NalArray>)
  {
    forall i :: 0 <= i < |arrays| ==> Short(arrays[i].nals)
  }

  lemma {:induction false} ArraysDecode(d: bytes, at: nat, p: ParameterSets, arrays: seq<NalArray>, later: bytes)
    requires at <= |d| && ShortArrays(arrays) && d[at..] == EncodeArrays(arrays) + later
    ensures ArraysAt(d, at, |arrays|, p) == CacheArrays(p, arrays)
    decreases |arrays|
  {
    hide U16, ReadU16, EncodeNals, NalsAt, CacheNals;
    if arrays == [] {
    } else {
      var a := arrays[0];
      var rest := EncodeArrays(arrays[1..]) + later;
      assert EncodeArrays(arrays) + later == [a.typeByte] + U16(|a.nals|) + (EncodeNals(a.nals) + rest);
      var next := ArraysStep(d, at, |arrays|, p, a, rest);
      ArraysDecode(d, next, CacheNals(p, a.typeByte % 64, a.nals), arrays[1..], later);
    }
  }

  /** The last of the NAL units, or what was there before. */
  function LastOr(nals: seq<bytes>, earlier: Option<bytes>): Option<bytes>
  {
    if nals == [] then earlier else Some(nals[|nals| - 1])
  }

  /** All NAL units of one type, in the order of the record. */
  function OfType(arrays: seq<NalArray>, nalType: nat): seq<bytes>
  {
    if arrays == [] then []
    else (if arrays[0].typeByte % 64 == nalType then arrays[0].nals else []) + OfType(arrays[1..], nalType)
  }

  lemma LastOrAppend(a: seq<bytes>, b: seq<bytes>, earlier: Option<bytes>)
    ensures LastOr(a + b, earlier) == LastOr(b, LastOr(a, earlier))
  {
  }

  /** Caching the arrays leaves, for each kind of parameter set, the last NAL unit of its type. */
  lemma {:induction false} CacheArraysLast(p: ParameterSets, arrays: seq<NalArray>)
    ensures CacheArrays(p, arrays).vps == LastOr(OfType(arrays, 32), p.vps)
    ensures CacheArrays(p, arrays).sps == LastOr(OfType(arrays, 33), p.sps)
    ensures CacheArrays(p, arrays).pps == LastOr(OfType(arrays, 34), p.pps)
    decreases |arrays|
  {
    hide LastOr, CacheNals;
    if arrays == [] {
      assert forall o: Option<bytes> :: LastOr([], o) == o by { LastOrNothing(); }
    } else {
      var t, nals, rest := arrays[0].typeByte % 64, arrays[0].nals, arrays[1..];
      CacheNalsLast(p, t, nals);
      CacheArraysLast(CacheNals(p, t, nals), rest);
      LastOrNothing();
      LastOrAppend(if t == 32 then nals else [], OfType(rest, 32), p.vps);
      LastOrAppend(if t == 33 then nals else [], OfType(rest, 33), p.sps);
      LastOrAppend(if t == 34 then nals else [], OfType(rest, 34), p.pps);
    }
  }

  lemma LastOrNothing()
    ensures forall o: Option<bytes> :: LastOr([], o) == o
  {
  }

  lemma HevcParsed(head: bytes, arrays: seq<NalArray>, extension: bytes, p: ParameterSets)
    requires |head| == 22 && |arrays| < 0x100 && ShortArrays(arrays)
    ensures Described(head + [|arrays|] + EncodeArrays(arrays) + extension, Hevc, p) == CacheArrays(p, arrays)
  {
    var d := head + [|arrays|] + EncodeArrays(arrays) + extension;
    hide ArraysAt, EncodeArrays, ShortArrays, CacheArrays;
    assert d[HEVC_NUM_ARRAYS_OFFSET] == |arrays|;
    assert d[HEVC_NUM_ARRAYS_OFFSET + 1..] == EncodeArrays(arrays) + extension;
    ArraysDecode(d, HEVC_NUM_ARRAYS_OFFSET + 1, p, arrays, extension);
  }

  /** An HEVC configuration record, whatever its first 22 bytes and its extension bytes: each
      parameter set is the last NAL unit of type 32, 33 or 34 in the record, or stays. */
  lemma HevcDescription(head: bytes, arrays: seq<NalArray>, extension: bytes, p: ParameterSets)
    requires |head| == 22 && |arrays| < 0x100 && ShortArrays(arrays)
    ensures var r := Described(head + [|arrays|] + EncodeArrays(arrays) + extension, Hevc, p);
            && r == CacheArrays(p, arrays)
            && r.vps == LastOr(OfType(arrays, 32), p.vps)
            && r.sps == LastOr(OfType(arrays, 33), p.sps)
            && r.pps == LastOr(OfType(arrays, 34), p.pps)
  {
    hide Described, CacheArrays, EncodeArrays, LastOr, OfType;
    HevcParsed(head, arrays, extension, p);
    CacheArraysLast(p, arrays);
  }

  lemma AvcParsed(head: bytes, countByte: byte, sps: seq<bytes>, pps: seq<bytes>, extension: bytes,
                  p: ParameterSets)
    requires |head| == 5 && countByte % 32 == |sps| && |pps| < 0x100
    requires Short(sps) && Short(pps)
    ensures Described(head + [countByte] + EncodeNals(sps) + [|pps|] + EncodeNals(pps) + extension, H264, p)
            == CacheNals(CacheNals(p, SPS_TYPE, sps), PPS_TYPE, pps)
  {
    var tail := EncodeNals(pps) + extension;
    var d := head + [countByte] + EncodeNals(sps) + [|pps|] + EncodeNals(pps) + extension;
    hide NalsAt, EncodeNals, Short, CacheNals;
    assert d[AVC_NUM_SPS_OFFSET] == countByte;
    assert d[AVC_NUM_SPS_OFFSET + 1..] == EncodeNals(sps) + ([|pps|] + tail);
    NalsDecode(d, AVC_NUM_SPS_OFFSET + 1, SPS_TYPE, p, sps, [|pps|] + tail);
    var at := NalsAt(d, AVC_NUM_SPS_OFFSET + 1, |sps|, SPS_TYPE, p).1;
    assert d[at] == d[at..][0] == |pps|;
    assert d[at + 1..] == d[at..][1..] == tail;
    NalsDecode(d, at + 1, PPS_TYPE, CacheNals(p, SPS_TYPE, sps), pps, extension);
  }

  /** An AVC configuration record: the SPS and the PPS are its last ones, or stay; the VPS is left
      alone. */
  lemma AvcDescription(head: bytes, countByte: byte, sps: seq<bytes>, pps: seq<bytes>, extension: bytes,
                       p: ParameterSets)
    requires |head| == 5 && countByte % 32 == |sps| && |pps| < 0x100
    requires Short(sps) && Short(pps)
    ensures var r := Described(head + [countByte] + EncodeNals(sps) + [|pps|] + EncodeNals(pps) + extension, H264, p);
            && r == CacheNals(CacheNals(p, SPS_TYPE, sps), PPS_TYPE, pps)
            && r.sps == LastOr(sps, p.sps) && r.pps == LastOr(pps, p.pps) && r.vps == p.vps
  {
    hide Described, CacheNals, EncodeNals, LastOr, Short;
    AvcParsed(head, countByte, sps, pps, extension, p);
    CacheNalsLast(p, SPS_TYPE, sps);
    CacheNalsLast(CacheNals(p, SPS_TYPE, sps), PPS_TYPE, pps);
  }

  /** What caching a list of one type means: its last element, if any, is the parameter set of
      that type, and nothing else changes. */
  lemma {:induction false} CacheNalsLast(p: ParameterSets, nalType: nat, nals: seq<bytes>)
    ensures nals == [] ==> CacheNals(p, nalType, nals) == p
    ensures nals != [] ==> CacheNals(p, nalType, nals) == Cached(p, nalType, nals[|nals| - 1])
    ensures var r := CacheNals(p, nalType, nals);
            && r.vps == (if nalType == 32 then LastOr(nals, p.vps) else p.vps)
            && r.sps == (if nalType == 33 then LastOr(nals, p.sps) else p.sps)
            && r.pps == (if nalType == 34 then LastOr(nals, p.pps) else p.pps)
    decreases |nals|
  {
    if nals == [] {
    } else {
      CacheNalsLast(Cached(p, nalType, nals[0]), nalType, nals[1..]);
    }
  }

  // ---- conversion ----

  function WithStart(nal: bytes): bytes { START_CODE + nal }

  function Stream(nals: seq<bytes>): bytes
  {
    if nals == [] then [] else WithStart(nals[0]) + Stream(nals[1..])
  }

  function AccessUnitDelimiter(codec: Codec): bytes
  {
    if codec == Hevc then [0x46, 0x01, 0x50] else [0x09, 0xf0]
  }

  function OptionList<T>(o: Option<T>): seq<T> { match o case None => [] case Some(x) => [x] }

  function ParameterNals(codec: Codec, p: ParameterSets): seq<bytes>
  {
    if codec == Hevc then OptionList(p.vps) + OptionList(p.sps) + OptionList(p.pps)
    else OptionList(p.sps) + OptionList(p.pps)
  }

  /** What is appended when a length does not fit: the whole input if it begins with a start
      code, and otherwise the input from the bad length on, behind a start code. */
  function Fallback(chunk: bytes, at: nat): bytes
    requires 4 <= |chunk| && at <= |chunk|
  {
    if chunk[0] == 0 && chunk[1] == 0 && (chunk[2] == 1 || (chunk[2] == 0 && chunk[3] == 1)) then chunk
    else WithStart(chunk[at..])
  }

  function BodyFrom(chunk: bytes, at: nat): bytes
    requires at <= |chunk|
    decreases |chunk| - at
  {
    if at + 4 > |chunk| then [] else
    var length := ReadU32(chunk, at);
    if length == 0 || at + 4 + length > |chunk| then Fallback(chunk, at)
    else WithStart(chunk[at + 4..at + 4 + length]) + BodyFrom(chunk, at + 4 + length)
  }

  function Prologue(codec: Codec, keyOrFirst: bool, p: ParameterSets): seq<bytes>
  {
    [AccessUnitDelimiter(codec)] + (if keyOrFirst then ParameterNals(codec, p) else [])
  }

  function Converted(chunk: bytes, codec: Codec, keyOrFirst: bool, p: ParameterSets): bytes
  {
    Stream(Prologue(codec, keyOrFirst, p)) + BodyFrom(chunk, 0)
  }

  /** The conversion as the sender runs it: caches the parameter sets, collects the parts,
      and copies them into one buffer. */
  method ConvertToAnnexB(chunk: bytes, isKey: bool, description: Option<bytes>, codec: Codec, cache: NalCache,
                         seqNum: nat)
    returns (result: array<byte>)
    modifies cache
    ensures fresh(result)
    ensures cache.View() ==
            match description case None => old(cache.View()) case Some(d) => Described(d, codec, old(cache.View()))
    ensures result[..] == Converted(chunk, codec, isKey || seqNum == 1, cache.View())
  {
    hide Described, BodyFrom, PrologueParts, Prologue;
    ParseDecoderDescription(description, codec, cache);
    var prologue := CollectPrologue(codec, isKey || seqNum == 1, cache);
    PrologueFlattens(codec, isKey || seqNum == 1, cache.View());
    var body := BodyParts(chunk);
    FlattenAppend(prologue, body);
    result := Assembled(prologue + body);
  }

  /** The delimiter and, for a key frame or the first frame, the cached parameter sets. */
  method CollectPrologue(codec: Codec, keyOrFirst: bool, cache: NalCache) returns (nalParts: seq<bytes>)
    ensures nalParts == PrologueParts(codec, keyOrFirst, cache.View())
  {
    nalParts := [];
    if codec == Hevc {
      nalParts := nalParts + [START_CODE + [0x46, 0x01, 0x50]];
    } else {
      nalParts := nalParts + [START_CODE + [0x09, 0xf0]];
    }
    if keyOrFirst {
      if codec == Hevc && cache.vps.Some? { nalParts := nalParts + [START_CODE, cache.vps.value]; }
      if cache.sps.Some? { nalParts := nalParts + [START_CODE, cache.sps.value]; }
      if cache.pps.Some? { nalParts := nalParts + [START_CODE, cache.pps.value]; }
    }
  }

  function OptionParts(o: Option<bytes>): seq<bytes>
  {
    match o case None => [] case Some(nal) => [START_CODE, nal]
  }

  function PrologueParts(codec: Codec, keyOrFirst: bool, p: ParameterSets): seq<bytes>
  {
    [START_CODE + AccessUnitDelimiter(codec)]
    + if keyOrFirst
      then OptionParts(if codec == Hevc then p.vps else None) + OptionParts(p.sps) + OptionParts(p.pps)
      else []
  }

  lemma PrologueFlattens(codec: Codec, keyOrFirst: bool, p: ParameterSets)
    ensures Flatten(PrologueParts(codec, keyOrFirst, p)) == Stream(Prologue(codec, keyOrFirst, p))
  {
    var aud := AccessUnitDelimiter(codec);
    FlattenOne(START_CODE + aud);
    StreamOne(aud);
    if keyOrFirst {
      ParametersFlatten(if codec == Hevc then p.vps else None, p.sps, p.pps);
      var vps := if codec == Hevc then p.vps else None;
      FlattenAppend([START_CODE + aud], OptionParts(vps) + OptionParts(p.sps) + OptionParts(p.pps));
      StreamAppend([aud], OptionList(vps) + OptionList(p.sps) + OptionList(p.pps));
      assert ParameterNals(codec, p) == OptionList(vps) + OptionList(p.sps) + OptionList(p.pps);
    } else {
      assert PrologueParts(codec, keyOrFirst, p) == [START_CODE + aud];
      assert Prologue(codec, keyOrFirst, p) == [aud];
    }
  }

  lemma ParametersFlatten(a: Option<bytes>, b: Option<bytes>, c: Option<bytes>)
    ensures Flatten(OptionParts(a) + OptionParts(b) + OptionParts(c))
            == Stream(OptionList(a) + OptionList(b) + OptionList(c))
  {
    OptionFlattens(a);
    OptionFlattens(b);
    OptionFlattens(c);
    hide OptionParts, OptionList;
    FlattenAppend(OptionParts(a), OptionParts(b));
    FlattenAppend(OptionParts(a) + OptionParts(b), OptionParts(c));
    StreamAppend(OptionList(a), OptionList(b));
    StreamAppend(OptionList(a) + OptionList(b), OptionList(c));
  }

  lemma OptionFlattens(o: Option<bytes>)
    ensures Flatten(OptionParts(o)) == Stream(OptionList(o))
  {
    match o
    case None =>
      assert Flatten<byte>([]) == [] && Stream([]) == [];
    case Some(nal) =>
      assert [START_CODE, nal] == [START_CODE] + [nal];
      FlattenAppend([START_CODE], [nal]);
      FlattenOne(START_CODE);
      FlattenOne(nal);
      StreamOne(nal);
  }

  lemma StreamOne(nal: bytes)
    ensures Stream([nal]) == START_CODE + nal
  {
    assert [nal][1..] == [];
    assert Stream([]) == [];
  }

  lemma {:induction false} StreamAppend(a: seq<bytes>, b: seq<bytes>)
    ensures Stream(a + b) == Stream(a) + Stream(b)
  {
    if a == [] {
      assert a + b == b;
    } else {
      assert (a + b)[1..] == a[1..] + b;
      StreamAppend(a[1..], b);
    }
  }

  lemma BodyUnfolds(chunk: bytes, at: nat)
    requires at + 4 <= |chunk| && 0 < ReadU32(chunk, at) <= |chunk| - at - 4
    ensures var next := at + 4 + ReadU32(chunk, at);
            BodyFrom(chunk, at) == WithStart(chunk[at + 4..next]) + BodyFrom(chunk, next)
  {
  }

  lemma BodyStops(chunk: bytes, at: nat)
    requires at <= |chunk|
    requires at + 4 <= |chunk| ==> ReadU32(chunk, at) == 0 || at + 4 + ReadU32(chunk, at) > |chunk|
    ensures BodyFrom(chunk, at) == if at + 4 > |chunk| then [] else Fallback(chunk, at)
  {
  }

  /** The conversion loop over the length-prefixed NAL units. */
  method BodyParts(chunk: bytes) returns (parts: seq<bytes>)
    ensures Flatten(parts) == BodyFrom(chunk, 0)
  {
    hide ReadU32, BodyFrom, WithStart;
    parts := [];
    var offset := 0;
    assert [] + BodyFrom(chunk, 0) == BodyFrom(chunk, 0);
    while offset + 4 <= |chunk|
      invariant offset <= |chunk|
      invariant Flatten(parts) + BodyFrom(chunk, offset) == BodyFrom(chunk, 0)
    {
      var nalLen := ReadU32(chunk, offset);
      offset := offset + 4;
      if nalLen == 0 || offset + nalLen > |chunk| {
        BodyStops(chunk, offset - 4);
        if chunk[0] == 0 && chunk[1] == 0 && (chunk[2] == 1 || (chunk[2] == 0 && chunk[3] == 1)) {
          FlattenAppend(parts, [chunk]);
          FlattenOne(chunk);
          parts := parts + [chunk];
        } else {
          TwoParts(parts, chunk[offset - 4..]);
          parts := parts + [START_CODE, chunk[offset - 4..]];
        }
        return;
      }
      BodyUnfolds(chunk, offset - 4);
      var nal := chunk[offset..offset + nalLen];
      TwoParts(parts, nal);
      Associate(Flatten(parts), WithStart(nal), BodyFrom(chunk, offset + nalLen));
      parts := parts + [START_CODE, nal];
      offset := offset + nalLen;
    }
    BodyStops(chunk, offset);
    assert Flatten(parts) + [] == Flatten(parts);
  }

  lemma TwoParts(parts: seq<bytes>, nal: bytes)
    ensures Flatten(parts + [START_CODE, nal]) == Flatten(parts) + WithStart(nal)
  {
    assert [START_CODE, nal] == [START_CODE] + [nal];
    FlattenAppend([START_CODE], [nal]);
    FlattenOne(START_CODE);
    FlattenOne(nal);
    FlattenAppend(parts, [START_CODE, nal]);
  }

  /** Measures the parts and copies them one behind the other. */
  method Assembled(parts: seq<bytes>) returns (result: array<byte>)
    ensures fresh(result) && result[..] == Flatten(parts)
  {
    var totalLen := 0;
    for i := 0 to |parts|
      invariant totalLen == |Flatten(parts[..i])|
    {
      FlattenStep(parts, i);
      totalLen := totalLen + |parts[i]|;
    }
    assert parts[..|parts|] == parts;
    result := new byte[totalLen](_ => 0);
    var pos := 0;
    for i := 0 to |parts|
      invariant pos == |Flatten(parts[..i])| <= result.Length
      invariant result[..pos] == Flatten(parts[..i])
    {
      FlattenStep(parts, i);
      PartsLeft(parts, i);
      Put(result, pos, parts[i]);
      pos := pos + |parts[i]|;
    }
  }

  lemma PartsLeft(parts: seq<bytes>, i: nat)
    requires i < |parts|
    ensures |Flatten(parts[..i])| + |parts[i]| <= |Flatten(parts)|
  {
    FlattenStep(parts, i);
    FlattenSplit(parts, i + 1);
  }

  // ---- what the conversion preserves ----

  /** The input format: each NAL unit behind its 4-byte length. */
  function LengthPrefixed(nals: seq<bytes>): bytes
  {
    if nals == [] then [] else U32(|nals[0]|) + nals[0] + LengthPrefixed(nals[1..])
  }

  predicate Encodable(nals: seq<bytes>)
  {
    forall i :: 0 <= i < |nals| ==> 0 < |nals[i]| < 0x1_0000_0000
  }

  lemma BodyStep(chunk: bytes, at: nat, nal: bytes, later: bytes)
    requires at <= |chunk| && 0 < |nal| < 0x1_0000_0000 && chunk[at..] == U32(|nal|) + nal + later
    ensures at + 4 + |nal| <= |chunk| && chunk[at + 4 + |nal|..] == later
    ensures BodyFrom(chunk, at) == WithStart(nal) + BodyFrom(chunk, at + 4 + |nal|)
  {
    hide U32, ReadU32, BodyFrom, WithStart;
    Slices(chunk, at, U32(|nal|), nal, later);
    U32RoundTrip(chunk, at, |nal|);
    BodyUnfolds(chunk, at);
  }

  lemma PrefixedFront(nals: seq<bytes>)
    requires nals != []
    ensures LengthPrefixed(nals) == U32(|nals[0]|) + nals[0] + LengthPrefixed(nals[1..])
  {
  }

  lemma {:induction false} BodyOfPrefixed(chunk: bytes, at: nat, nals: seq<bytes>)
    requires at <= |chunk| && Encodable(nals) && chunk[at..] == LengthPrefixed(nals)
    ensures BodyFrom(chunk, at) == Stream(nals)
    decreases |nals|
  {
    hide U32, ReadU32, Fallback, WithStart;
    if nals == [] {
    } else {
      PrefixedFront(nals);
      BodyStep(chunk, at, nals[0], LengthPrefixed(nals[1..]));
      BodyOfPrefixed(chunk, at + 4 + |nals[0]|, nals[1..]);
    }
  }

  /** Well-formed input: the delimiter, the cached parameter sets exactly when the frame is
      a key frame or the first, and every NAL unit in order, each behind a start code. */
  lemma ConvertedWellFormed(nals: seq<bytes>, codec: Codec, keyOrFirst: bool, p: ParameterSets)
    requires Encodable(nals)
    ensures Converted(LengthPrefixed(nals), codec, keyOrFirst, p) == Stream(Prologue(codec, keyOrFirst, p) + nals)
  {
    var chunk := LengthPrefixed(nals);
    assert chunk[0..] == chunk;
    BodyOfPrefixed(chunk, 0, nals);
    StreamAppend(Prologue(codec, keyOrFirst, p), nals);
  }

  // ---- the receiver's scanner ----

  predicate Start4(b: bytes, i: nat)
  {
    i + 4 <= |b| && b[i] == 0 && b[i + 1] == 0 && b[i + 2] == 0 && b[i + 3] == 1
  }

  predicate Start3(b: bytes, i: nat)
  {
    i + 3 <= |b| && b[i] == 0 && b[i + 1] == 0 && b[i + 2] == 1
  }

  function NalType(codec: Codec, header: byte): nat
  {
    if codec == Hevc then header / 2 % 64 else header % 32
  }

  function ScanFrom(b: bytes, i: nat, codec: Codec): seq<nat>
    decreases |b| - i
  {
    if i + 4 > |b| then []
    else if Start4(b, i) then HeaderAt(b, i + 4, codec) + ScanFrom(b, i + 4, codec)
    else if Start3(b, i) then HeaderAt(b, i + 3, codec) + ScanFrom(b, i + 3, codec)
    else ScanFrom(b, i + 1, codec)
  }

  function HeaderAt(b: bytes, i: nat, codec: Codec): seq<nat>
  {
    if i < |b| then [NalType(codec, b[i])] else []
  }

  /** The scanning loop; `None` when the access unit is too short to look at. */
  method ScanAccessUnit(b: bytes, codec: Codec) returns (nalTypes: Option<seq<nat>>)
    ensures nalTypes == if |b| < 4 then None else Some(ScanFrom(b, 0, codec))
  {
    if |b| < 4 { return None; }
    var found: seq<nat> := [];
    var i := 0;
    assert found + ScanFrom(b, 0, codec) == ScanFrom(b, 0, codec);
    while i <= |b| - 4
      invariant 0 <= i <= |b|
      invariant found + ScanFrom(b, i, codec) == ScanFrom(b, 0, codec)
    {
      var isStart4 := b[i] == 0 && b[i + 1] == 0 && b[i + 2] == 0 && b[i + 3] == 1;
      var isStart3 := b[i] == 0 && b[i + 1] == 0 && b[i + 2] == 1;
      if isStart4 || isStart3 {
        var headerOffset := if isStart4 then i + 4 else i + 3;
        assert found + (HeaderAt(b, headerOffset, codec) + ScanFrom(b, headerOffset, codec))
               == found + HeaderAt(b, headerOffset, codec) + ScanFrom(b, headerOffset, codec);
        if headerOffset < |b| {
          found := found + [NalType(codec, b[headerOffset])];
        }
        i := headerOffset;
      } else {
        i := i + 1;
      }
    }
    assert found + [] == found;
    return Some(found);
  }

  /** The bytes 0, 0, 1 begin at the position. */
  predicate CodeAt(b: bytes, i: nat) { i + 2 < |b| && b[i] == 0 && b[i + 1] == 0 && b[i + 2] == 1 }

  /** The types of the bytes behind 0, 0, 1, position by position. */
  function TypesBehind(b: bytes, i: nat, codec: Codec): seq<nat>
    decreases |b| - i
  {
    if i + 3 >= |b| then []
    else (if CodeAt(b, i) then [NalType(codec, b[i + 3])] else []) + TypesBehind(b, i + 1, codec)
  }

  lemma NoCodeHere(b: bytes, i: nat, codec: Codec)
    requires !CodeAt(b, i)
    ensures TypesBehind(b, i, codec) == TypesBehind(b, i + 1, codec)
  {
  }

  /** Whatever the bytes, the scanner lists the type behind each 0, 0, 1 that has a byte behind it,
      with or without a zero in front, and nothing else. */
  lemma {:induction false} ScanExactly(b: bytes, i: nat, codec: Codec)
    ensures ScanFrom(b, i, codec) == TypesBehind(b, i, codec)
    decreases |b| - i
  {
    if i + 4 > |b| {
    } else if Start4(b, i) {
      ScanExactly(b, i + 4, codec);
      NoCodeHere(b, i, codec);
      NoCodeHere(b, i + 2, codec);
      NoCodeHere(b, i + 3, codec);
      hide NalType;
    } else if Start3(b, i) {
      ScanExactly(b, i + 3, codec);
      NoCodeHere(b, i + 1, codec);
      NoCodeHere(b, i + 2, codec);
      hide NalType;
    } else {
      ScanExactly(b, i + 1, codec);
      NoCodeHere(b, i, codec);
    }
  }

  /** Nothing in the NAL unit looks like a start code. */
  predicate Clean(nal: bytes)
  {
    nal != [] && forall i :: 0 <= i < |nal| - 2 ==> !Start3(nal, i)
  }

  predicate AllClean(nals: seq<bytes>)
  {
    forall i :: 0 <= i < |nals| ==> Clean(nals[i])
  }

  function Types(nals: seq<bytes>, codec: Codec): seq<nat>
    requires AllClean(nals)
  {
    seq(|nals|, i requires 0 <= i < |nals| => NalType(codec, nals[i][0]))
  }

  /** No start code begins inside a clean NAL unit that the end of the stream or another
      start code follows. */
  lemma NoStartInside(b: bytes, at: nat, nal: bytes, i: nat)
    requires Clean(nal) && at + |nal| <= |b| && b[at..at + |nal|] == nal
    requires at <= i < at + |nal|
    requires at + |nal| == |b| || Start4(b, at + |nal|)
    ensures !Start4(b, i) && !Start3(b, i)
  {
    var end := at + |nal|;
    if Start3(b, i) && i + 3 <= end {
      assert nal[i - at] == b[i] && nal[i - at + 1] == b[i + 1] && nal[i - at + 2] == b[i + 2];
      assert Start3(nal, i - at);
    }
    if Start4(b, i) && i + 4 <= end {
      assert nal[i - at + 1] == b[i + 1] && nal[i - at + 2] == b[i + 2] && nal[i - at + 3] == b[i + 3];
      assert Start3(nal, i + 1 - at);
    }
  }

  lemma {:induction false} SkipNal(b: bytes, at: nat, nal: bytes, i: nat, codec: Codec)
    requires Clean(nal) && at + |nal| <= |b| && b[at..at + |nal|] == nal
    requires at <= i <= at + |nal|
    requires at + |nal| == |b| || Start4(b, at + |nal|)
    ensures ScanFrom(b, i, codec) == ScanFrom(b, at + |nal|, codec)
    decreases at + |nal| - i
  {
    if i < at + |nal| {
      NoStartInside(b, at, nal, i);
      SkipNal(b, at, nal, i + 1, codec);
    }
  }

  lemma ScanAtStart(b: bytes, at: nat, codec: Codec)
    requires Start4(b, at)
    ensures ScanFrom(b, at, codec) == HeaderAt(b, at + 4, codec) + ScanFrom(b, at + 4, codec)
  {
  }

  /** The scanner reports one type for the NAL unit in front of it and then stands at the
      end of that unit. */
  lemma ScanOne(b: bytes, at: nat, nal: bytes, rest: bytes, codec: Codec)
    requires Clean(nal) && at <= |b| && b[at..] == START_CODE + nal + rest
    requires rest == [] || (|rest| >= 4 && rest[..4] == START_CODE)
    ensures var end := at + 4 + |nal|;
            && end <= |b| && b[end..] == rest
            && ScanFrom(b, at, codec) == [NalType(codec, nal[0])] + ScanFrom(b, end, codec)
  {
    hide ScanFrom, Start4, Start3;
    var end := at + 4 + |nal|;
    Slices(b, at, START_CODE, nal, rest);
    BeginsStart4(b, at);
    ScanAtStart(b, at, codec);
    assert b[at + 4] == b[at + 4..end][0];
    if rest != [] {
      assert b[end..end + 4] == b[end..][..4];
      BeginsStart4(b, end);
    }
    SkipNal(b, at + 4, nal, at + 4, codec);
  }

  lemma {:induction false} ScanStream(b: bytes, at: nat, nals: seq<bytes>, codec: Codec)
    requires AllClean(nals) && at <= |b| && b[at..] == Stream(nals)
    ensures ScanFrom(b, at, codec) == Types(nals, codec)
    decreases |nals|
  {
    hide Clean, AllClean, NalType, Stream, Types, ScanFrom, Start4;
    StreamEmpty();
    if nals == [] {
      ScanNothing(b, at, codec);
      NoTypes(codec);
    } else {
      StreamFront(nals);
      StreamBegins(nals[1..]);
      TypesFront(nals, codec);
      ScanOne(b, at, nals[0], Stream(nals[1..]), codec);
      ScanStream(b, at + 4 + |nals[0]|, nals[1..], codec);
    }
  }

  lemma NoTypes(codec: Codec)
    ensures AllClean([]) && Types([], codec) == []
  {
  }

  lemma TypesFront(nals: seq<bytes>, codec: Codec)
    requires nals != [] && AllClean(nals)
    ensures Clean(nals[0]) && nals[0] != [] && AllClean(nals[1..])
    ensures Types(nals, codec) == [NalType(codec, nals[0][0])] + Types(nals[1..], codec)
  {
    hide NalType;
    assert forall i :: 0 <= i < |nals| - 1 ==> nals[1..][i] == nals[i + 1];
  }

  lemma StreamEmpty()
    ensures Stream([]) == []
  {
  }

  lemma ScanNothing(b: bytes, at: nat, codec: Codec)
    requires at <= |b| && b[at..] == []
    ensures ScanFrom(b, at, codec) == []
  {
  }

  lemma StreamBegins(nals: seq<bytes>)
    ensures Stream(nals) == [] || (|Stream(nals)| >= 4 && Stream(nals)[..4] == START_CODE)
  {
    if nals != [] {
      StreamFront(nals);
    }
  }

  lemma BeginsStart4(b: bytes, i: nat)
    requires i + 4 <= |b| && b[i..i + 4] == START_CODE
    ensures Start4(b, i)
  {
    var s := b[i..i + 4];
    assert b[i] == s[0] && b[i + 1] == s[1] && b[i + 2] == s[2] && b[i + 3] == s[3];
  }

  lemma StreamFront(nals: seq<bytes>)
    requires nals != []
    ensures Stream(nals) == START_CODE + nals[0] + Stream(nals[1..])
  {
    assert WithStart(nals[0]) + Stream(nals[1..]) == START_CODE + nals[0] + Stream(nals[1..]);
  }

  lemma PrologueClean(codec: Codec, keyOrFirst: bool, p: ParameterSets)
    requires keyOrFirst ==> AllClean(ParameterNals(codec, p))
    ensures AllClean(Prologue(codec, keyOrFirst, p))
  {
  }

  /** If no NAL unit or prepended parameter set is empty or contains a start code, the
      receiver's scanner lists exactly the types of the delimiter, of the parameter sets
      and of the NAL units, in order. */
  lemma ScannerSeesConversion(nals: seq<bytes>, codec: Codec, keyOrFirst: bool, p: ParameterSets)
    requires Encodable(nals) && AllClean(nals)
    requires keyOrFirst ==> AllClean(ParameterNals(codec, p))
    ensures AllClean(Prologue(codec, keyOrFirst, p) + nals)
    ensures ScanFrom(Converted(LengthPrefixed(nals), codec, keyOrFirst, p), 0, codec)
            == Types(Prologue(codec, keyOrFirst, p) + nals, codec)
  {
    PrologueClean(codec, keyOrFirst, p);
    ConvertedWellFormed(nals, codec, keyOrFirst, p);
    var all := Prologue(codec, keyOrFirst, p) + nals;
    assert Stream(all)[0..] == Stream(all);
    ScanStream(Stream(all), 0, all, codec);
  }

  /** Input that already is Annex B is not passed through in general: its start code is read
      as a length of one. */
  lemma AnnexBInputIsNotKept(header: byte, payload: byte)
    requires header != 0
    ensures BodyFrom([0, 0, 0, 1, header, payload], 0) != [0, 0, 0, 1, header, payload]
  {
    var chunk: bytes := [0, 0, 0, 1, header, payload];
    assert ReadU32(chunk, 0) == 1;
    assert BodyFrom(chunk, 0) == WithStart(chunk[4..5]) + BodyFrom(chunk, 5);
  }

  /** The first length does not fit, and the input begins with a start code. */
  predicate LooksLikeAnnexB(chunk: bytes)
  {
    && 4 <= |chunk|
    && (ReadU32(chunk, 0) == 0 || 4 + ReadU32(chunk, 0) > |chunk|)
    && chunk[0] == 0 && chunk[1] == 0 && (chunk[2] == 1 || (chunk[2] == 0 && chunk[3] == 1))
  }

  /** From a position on, nothing but start codes followed by single bytes. */
  predicate OneByteUnits(chunk: bytes, at: nat)
    decreases |chunk| - at
  {
    at == |chunk| || (at + 5 <= |chunk| && chunk[at..at + 4] == START_CODE && OneByteUnits(chunk, at + 5))
  }

  /** Exactly which input the body of a conversion equals. */
  lemma KeptExactly(chunk: bytes)
    ensures BodyFrom(chunk, 0) == chunk <==> LooksLikeAnnexB(chunk) || OneByteUnits(chunk, 0)
  {
    assert chunk[0..] == chunk;
    KeptFrom(chunk, 0);
  }

  lemma {:induction false} KeptFrom(chunk: bytes, at: nat)
    requires at <= |chunk|
    ensures BodyFrom(chunk, at) == chunk[at..] <==> (at == 0 && LooksLikeAnnexB(chunk)) || OneByteUnits(chunk, at)
    decreases |chunk| - at
  {
    if at + 4 <= |chunk| {
      var length := ReadU32(chunk, at);
      if length == 0 || at + 4 + length > |chunk| {
        assert !OneByteUnits(chunk, at) by { LengthOfStart(chunk, at); }
        assert |Fallback(chunk, at)| == |chunk| || |Fallback(chunk, at)| == |chunk| - at + 4;
        assert chunk[0..] == chunk;
      } else {
        var next := at + 4 + length;
        KeptFrom(chunk, next);
        LengthOfStart(chunk, at);
        SameParts(chunk, at, next, BodyFrom(chunk, next));
      }
    }
  }

  /** A start code read as a length is one. */
  lemma LengthOfStart(chunk: bytes, at: nat)
    requires at + 4 <= |chunk|
    ensures chunk[at..at + 4] == START_CODE ==> ReadU32(chunk, at) == 1
  {
    if chunk[at..at + 4] == START_CODE {
      assert chunk[at..at + 4] == U32(1);
      U32RoundTrip(chunk, at, 1);
    }
  }

  lemma SameParts(chunk: bytes, at: nat, next: nat, rest: bytes)
    requires at + 4 <= next <= |chunk|
    ensures WithStart(chunk[at + 4..next]) + rest == chunk[at..]
            <==> chunk[at..at + 4] == START_CODE && rest == chunk[next..]
  {
    var nal := chunk[at + 4..next];
    assert chunk[at..] == chunk[at..at + 4] + nal + chunk[next..];
    if WithStart(nal) + rest == chunk[at..] {
      assert (WithStart(nal) + rest)[..4] == chunk[at..][..4];
      assert (WithStart(nal) + rest)[next - at..] == chunk[at..][next - at..];
    }
  }

  // ---- headers ----

  /** The type in a NAL unit header: under H.265 six bits behind the forbidden one, under H.264
      the last five. */
  lemma NalTypeExactly(forbidden: nat, field: nat, low: nat)
    requires forbidden < 2
    ensures field < 64 && low < 2 ==> NalType(Hevc, forbidden * 128 + field * 2 + low) == field
    ensures field < 4 && low < 32 ==> NalType(H264, forbidden * 128 + field * 32 + low) == low
  {
  }

  /** The delimiters are NAL units of type 35 and 9 that allow any slice in the picture. */
  lemma DelimitersAre()
    ensures AccessUnitDelimiter(Hevc) == [35 * 2, 1, 2 * 32 + 16] && AccessUnitDelimiter(H264) == [9, 7 * 32 + 16]
    ensures NalType(Hevc, AccessUnitDelimiter(Hevc)[0]) == 35 && NalType(H264, AccessUnitDelimiter(H264)[0]) == 9
  {
  }

  /** What stands in front of the NAL units: the delimiter, and if asked for the parameter sets
      that there are, VPS (under H.265 alone), SPS and PPS in this order. */
  lemma PrologueExactly(vps: seq<bytes>, sps: seq<bytes>, pps: seq<bytes>, p: ParameterSets)
    requires vps == (if p.vps.Some? then [p.vps.value] else [])
    requires sps == (if p.sps.Some? then [p.sps.value] else [])
    requires pps == (if p.pps.Some? then [p.pps.value] else [])
    ensures Prologue(Hevc, true, p) == [[0x46, 0x01, 0x50]] + vps + sps + pps
    ensures Prologue(H264, true, p) == [[0x09, 0xf0]] + sps + pps
    ensures Prologue(Hevc, false, p) == [[0x46, 0x01, 0x50]] && Prologue(H264, false, p) == [[0x09, 0xf0]]
  {
    var delimiter: seq<bytes> := [[0x46, 0x01, 0x50]];
    assert delimiter + (vps + sps + pps) == delimiter + vps + sps + pps && delimiter + [] == delimiter;
    var short: seq<bytes> := [[0x09, 0xf0]];
    assert short + (sps + pps) == short + sps + pps && short + [] == short;
  }
}
