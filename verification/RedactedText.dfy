/** What redacted text looks like: every credential marker is followed by the replacement,
    redacting again changes nothing, and no value leaves a trace. */
module RedactedText {
  import opened Prelude
  import opened Redaction

  /** Ends in its only equals sign, has no bracket or line break, and no separator after its
      first character. */
  predicate Marker(m: string)
  {
    m != [] && m[|m| - 1] == '=' && forall j :: 0 <= j < |m| ==>
      m[j] != '[' && m[j] != ']' && m[j] != '\r' && m[j] != '\n' && (m[j] == '=' ==> j == |m| - 1)
      && (Separator(m[j]) ==> j == 0)
  }

  lemma MarkersAre()
    ensures forall i :: 0 <= i < |MARKERS| ==> Marker(MARKERS[i])
  {
  }

  /** The replacement stands at position i, and the value ends with it. */
  predicate ReplacedAt(s: string, i: nat)
  {
    && i + 10 <= |s| && s[i..i + 10] == Replacement()
    && (i + 10 < |s| ==> Separator(s[i + 10]))
  }

  /** Every occurrence of the marker is followed by the replacement. */
  ghost predicate Clean(m: string, s: string)
  {
    forall i: nat :: MatchAt(m, s, i) ==> ReplacedAt(s, i + |m|)
  }

  /** The same for a text that a replacement will follow. */
  ghost predicate CleanBefore(m: string, s: string)
  {
    forall i: nat :: MatchAt(m, s, i) ==> i + |m| == |s| || (i + |m| + 10 < |s| && ReplacedAt(s, i + |m|))
  }

  /** A value, and what may stand behind one. */
  predicate Plain(v: string) { forall i :: 0 <= i < |v| ==> !Separator(v[i]) }

  predicate Closed(b: string) { b == [] || Separator(b[0]) }

  lemma ReplacementShape()
    ensures |Replacement()| == 10 && Replacement()[0] == '[' && Replacement()[9] == ']' && Plain(Replacement())
    ensures forall j :: 0 <= j < 10 ==> Lower(Replacement()[j]) != '='
  {
  }

  lemma MatchInSuffix(m: string, s: string, from: nat, i: nat)
    requires from <= |s|
    ensures MatchAt(m, s[from..], i) <==> MatchAt(m, s, from + i)
  {
    if i + |m| <= |s| - from { assert s[from..][i..i + |m|] == s[from + i..from + i + |m|]; }
  }

  lemma MatchInPrefix(m: string, s: string, to: nat, i: nat)
    requires i + |m| <= to <= |s|
    ensures MatchAt(m, s[..to], i) <==> MatchAt(m, s, i)
  {
    assert s[..to][i..i + |m|] == s[i..i + |m|];
  }

  lemma ReplacedInSuffix(s: string, from: nat, i: nat)
    requires from <= |s|
    ensures ReplacedAt(s[from..], i) <==> ReplacedAt(s, from + i)
  {
    if i + 10 <= |s| - from { assert s[from..][i..i + 10] == s[from + i..from + i + 10]; }
  }

  lemma CleanSuffix(m: string, s: string, from: nat)
    requires from <= |s| && Clean(m, s)
    ensures Clean(m, s[from..])
  {
    forall i: nat | MatchAt(m, s[from..], i) ensures ReplacedAt(s[from..], i + |m|) {
      MatchInSuffix(m, s, from, i);
      ReplacedInSuffix(s, from, i + |m|);
    }
  }

  // ---- one replacement in the middle of a text ----

  /** The characters of an occurrence: no bracket, an equals sign exactly at its end, and a
      separator at most at its start. */
  lemma Inside(m: string, s: string, i: nat, x: nat)
    requires Marker(m) && MatchAt(m, s, i) && i <= x < i + |m|
    ensures s[x] != '[' && s[x] != ']' && (Lower(s[x]) == '=' <==> x == i + |m| - 1) && (Separator(s[x]) ==> x == i)
  {
    assert s[x] == s[i..i + |m|][x - i];
  }

  /** An occurrence of a marker never touches the replacement. */
  lemma MatchAside(m: string, a: string, u: string, i: nat)
    requires Marker(m) && MatchAt(m, a + Replacement() + u, i)
    ensures i + |m| <= |a| || i >= |a| + 10
  {
    ReplacementShape();
    hide Replacement, MatchAt, Lower;
    var s, k := a + Replacement() + u, |a|;
    assert forall x :: k <= x < k + 10 ==> s[x] == Replacement()[x - k];
    if k < i + |m| && i < k + 10 {
      Inside(m, s, i, if i <= k then k else if k + 9 < i + |m| then k + 9 else i + |m| - 1);
    }
  }

  lemma CleanAround(m: string, a: string, u: string)
    requires Marker(m) && CleanBefore(m, a) && Clean(m, u) && Closed(u)
    ensures Clean(m, a + Replacement() + u)
  {
    ReplacementShape();
    var s := a + Replacement() + u;
    assert s[|a| + 10..] == u && s[|a|..|a| + 10] == Replacement();
    forall i: nat | MatchAt(m, s, i) ensures ReplacedAt(s, i + |m|) {
      MatchAside(m, a, u, i);
      hide Replacement;
      if i + |m| <= |a| {
        assert s[..|a|] == a;
        MatchInPrefix(m, s, |a|, i);
        if i + |m| < |a| { assert s[i + |m|..i + |m| + 10] == a[i + |m|..i + |m| + 10]; }
      } else {
        MatchInSuffix(m, s, |a| + 10, i - |a| - 10);
        ReplacedInSuffix(s, |a| + 10, i - |a| - 10 + |m|);
      }
    }
  }

  /** In clean text, what stands before a value of another marker stays clean when the value
      is replaced. */
  lemma CleanPrefix(m: string, s: string, from: nat)
    requires Clean(m, s) && 0 < from <= |s| && Lower(s[from - 1]) == '='
    ensures CleanBefore(m, s[..from])
  {
    ReplacementShape();
    hide Replacement;
    var a := s[..from];
    forall i: nat | MatchAt(m, a, i) ensures i + |m| == |a| || (i + |m| + 10 < |a| && ReplacedAt(a, i + |m|)) {
      MatchInPrefix(m, s, |a|, i);
      var k := i + |m|;
      if k < from {
        forall x | k <= x < k + 10 ensures Lower(s[x]) != '=' {
          assert s[x] == s[k..k + 10][x - k];
        }
        assert k + 10 < from;
        assert s[k..k + 10] == a[k..k + 10];
      }
    }
  }

  // ---- one pass ----

  /** The first occurrence of a marker ends in an equals sign, and its value before a separator. */
  lemma FirstMatch(m: string, s: string, start: nat)
    requires Marker(m) && FindFrom(m, s, 0) == Some(start)
    ensures var from := start + |m|;
            from <= |s| && Lower(s[from - 1]) == '=' && Closed(s[ValueEnd(s, from)..])
  {
    hide FindFrom, ValueEnd;
    Inside(m, s, start, start + |m| - 1);
  }

  lemma {:induction false} ClosedAfterPass(m: string, s: string)
    requires Marker(m) && Closed(s)
    ensures Closed(Pass(m, s))
  {
    var found := FindFrom(m, s, 0);
    if found.Some? {
      PassUnfolds(m, s);
      FirstMatch(m, s, found.value);
      hide Pass, FindFrom;
      assert Pass(m, s)[0] == s[0];
    }
  }

  /** A pass leaves the text clean for every marker that it was clean for. */
  lemma {:induction false} PassKeepsClean(m: string, other: string, s: string)
    requires Marker(m) && Marker(other) && Clean(m, s)
    ensures Clean(m, Pass(other, s))
    decreases |s|
  {
    hide Pass, FindFrom, ValueEnd, Clean, CleanBefore, MatchAt, Replacement, Closed;
    var found := FindFrom(other, s, 0);
    PassUnfolds(other, s);
    if found.None? {
    } else {
      FirstMatch(other, s, found.value);
      var from := found.value + |other|;
      var rest := s[ValueEnd(s, from)..];
      CleanSuffix(m, s, ValueEnd(s, from));
      PassKeepsClean(m, other, rest);
      ClosedAfterPass(other, rest);
      CleanPrefix(m, s, from);
      CleanAround(m, s[..from], Pass(other, rest));
    }
  }

  lemma NoEarlierMatch(m: string, s: string, start: nat)
    requires Marker(m) && FindFrom(m, s, 0) == Some(start)
    ensures CleanBefore(m, s[..start + |m|])
  {
    var a := s[..start + |m|];
    forall i: nat | MatchAt(m, a, i) ensures i + |m| == |a| {
      MatchInPrefix(m, s, |a|, i);
    }
  }

  lemma NothingFound(m: string, s: string)
    requires Marker(m) && FindFrom(m, s, 0).None?
    ensures Clean(m, s)
  {
  }

  /** A pass leaves the text clean for its own marker. */
  lemma {:induction false} PassCleans(m: string, s: string)
    requires Marker(m)
    ensures Clean(m, Pass(m, s))
    decreases |s|
  {
    hide Pass, FindFrom, ValueEnd, Clean, CleanBefore, MatchAt, Replacement, Closed;
    var found := FindFrom(m, s, 0);
    PassUnfolds(m, s);
    if found.None? {
      NothingFound(m, s);
    } else {
      FirstMatch(m, s, found.value);
      NoEarlierMatch(m, s, found.value);
      var from := found.value + |m|;
      var rest := s[ValueEnd(s, from)..];
      PassCleans(m, rest);
      ClosedAfterPass(m, rest);
      CleanAround(m, s[..from], Pass(m, rest));
    }
  }

  lemma {:induction false} ValueEndIs(s: string, at: nat, end: nat)
    requires at <= end <= |s| && Plain(s[at..end]) && Closed(s[end..])
    ensures ValueEnd(s, at) == end
    decreases end - at
  {
    if at < end {
      assert s[at] == s[at..end][0] && s[at + 1..end] == s[at..end][1..];
      ValueEndIs(s, at + 1, end);
    } else if end < |s| {
      assert s[end] == s[end..][0];
    }
  }

  /** In clean text the first value is the replacement already. */
  lemma FirstValue(m: string, s: string, start: nat)
    requires Marker(m) && Clean(m, s) && FindFrom(m, s, 0) == Some(start)
    ensures var from := start + |m|;
            from + 10 <= |s| && s[from..from + 10] == Replacement() && ValueEnd(s, from) == from + 10
  {
    hide FindFrom, ValueEnd, Replacement;
    var from := start + |m|;
    assert ReplacedAt(s, from);
    ReplacementShape();
    ValueEndIs(s, from, from + 10);
  }

  /** A pass over text that is clean for its marker changes nothing. */
  lemma {:induction false} CleanUnchanged(m: string, s: string)
    requires Marker(m) && Clean(m, s)
    ensures Pass(m, s) == s
    decreases |s|
  {
    hide Pass, FindFrom, ValueEnd, Clean, MatchAt, Replacement, Closed;
    var found := FindFrom(m, s, 0);
    PassUnfolds(m, s);
    if found.None? {
    } else {
      var from := found.value + |m|;
      FirstValue(m, s, found.value);
      CleanSuffix(m, s, from + 10);
      CleanUnchanged(m, s[from + 10..]);
      assert s == s[..from] + s[from..from + 10] + s[from + 10..];
    }
  }

  // ---- all passes ----

  ghost predicate AllMarkers(markers: seq<string>) { forall i :: 0 <= i < |markers| ==> Marker(markers[i]) }

  lemma {:induction false} PassesKeepClean(m: string, markers: seq<string>, s: string)
    requires Marker(m) && AllMarkers(markers) && Clean(m, s)
    ensures Clean(m, Passes(markers, s))
    decreases |markers|
  {
    hide Clean, Pass;
    if markers == [] {
    } else {
      PassKeepsClean(m, markers[0], s);
      PassesKeepClean(m, markers[1..], Pass(markers[0], s));
    }
  }

  lemma {:induction false} PassesClean(markers: seq<string>, s: string)
    requires AllMarkers(markers)
    ensures forall i :: 0 <= i < |markers| ==> Clean(markers[i], Passes(markers, s))
    decreases |markers|
  {
    hide Clean, Pass;
    if markers == [] {
    } else {
      var t := Pass(markers[0], s);
      PassCleans(markers[0], s);
      PassesKeepClean(markers[0], markers[1..], t);
      PassesClean(markers[1..], t);
      assert forall i :: 0 < i < |markers| ==> markers[i] == markers[1..][i - 1];
    }
  }

  lemma {:induction false} CleanStays(markers: seq<string>, s: string)
    requires AllMarkers(markers) && forall i :: 0 <= i < |markers| ==> Clean(markers[i], s)
    ensures Passes(markers, s) == s
    decreases |markers|
  {
    hide Clean, Pass;
    if markers == [] {
    } else {
      CleanUnchanged(markers[0], s);
      assert forall i :: 0 <= i < |markers| - 1 ==> markers[1..][i] == markers[i + 1];
      CleanStays(markers[1..], s);
    }
  }

  /** In redacted text every occurrence of a marker, in any case, is followed by the
      replacement and then by the end of the text, '&', a space or a quote. */
  lemma RedactedIsClean(input: string, secrets: seq<string>)
    ensures forall i :: 0 <= i < |MARKERS| ==> Clean(MARKERS[i], Redacted(input, secrets))
  {
    MarkersAre();
    PassesClean(MARKERS, WithoutSecrets(OneLine(input), secrets));
  }

  // ---- redacting twice ----

  predicate Breakless(s: string) { forall i :: 0 <= i < |s| ==> s[i] != '\r' && s[i] != '\n' }

  lemma {:induction false} PassesBreakless(markers: seq<string>, s: string)
    requires AllMarkers(markers) && Breakless(s)
    ensures Breakless(Passes(markers, s))
    decreases |markers|
  {
    hide Pass;
    if markers == [] {
    } else {
      PassBreakless(markers[0], s);
      PassesBreakless(markers[1..], Pass(markers[0], s));
    }
  }

  lemma {:induction false} PassBreakless(m: string, s: string)
    requires Marker(m) && Breakless(s)
    ensures Breakless(Pass(m, s))
    decreases |s|
  {
    hide Pass, FindFrom, ValueEnd;
    PassUnfolds(m, s);
    var found := FindFrom(m, s, 0);
    if found.Some? { PassBreakless(m, s[ValueEnd(s, found.value + |m|)..]); }
  }

  lemma OneLineBreakless(s: string)
    ensures Breakless(OneLine(s)) && (Breakless(s) ==> OneLine(s) == s)
  {
  }

  // ---- a value leaves no trace ----

  predicate EndsWith(m: string, a: string) { |m| <= |a| && MatchAt(m, a, |a| - |m|) }

  lemma MatchBehind(m: string, a: string, b: string, i: nat)
    ensures MatchAt(m, a + b, |a| + i) <==> MatchAt(m, b, i)
  {
    assert (a + b)[|a|..] == b;
    MatchInSuffix(m, a + b, |a|, i);
  }

  lemma MatchAhead(m: string, a: string, b: string, i: nat)
    requires i + |m| <= |a|
    ensures MatchAt(m, a + b, i) <==> MatchAt(m, a, i)
  {
    assert (a + b)[..|a|] == a;
    MatchInPrefix(m, a + b, |a|, i);
  }

  lemma FoundAt(m: string, s: string, k: nat)
    requires m != [] && MatchAt(m, s, k) && forall j: nat :: j < k ==> !MatchAt(m, s, j)
    ensures FindFrom(m, s, 0) == Some(k)
  {
    hide MatchAt;
    var found := FindFrom(m, s, 0);
    assert found.Some?;
  }

  lemma FoundBehind(m: string, a: string, b: string)
    requires m != [] && forall j: nat :: j < |a| ==> !MatchAt(m, a + b, j)
    ensures FindFrom(m, a + b, 0)
            == match FindFrom(m, b, 0) case None => None case Some(k) => Some(|a| + k)
  {
    hide MatchAt;
    var found := FindFrom(m, b, 0);
    if found.Some? {
      MatchBehind(m, a, b, found.value);
      forall j: nat | j < |a| + found.value ensures !MatchAt(m, a + b, j) {
        if j >= |a| { MatchBehind(m, a, b, j - |a|); }
      }
      FoundAt(m, a + b, |a| + found.value);
    } else {
      var whole := FindFrom(m, a + b, 0);
      if whole.Some? { MatchBehind(m, a, b, whole.value - |a|); }
    }
  }

  /** Text before every occurrence is copied by a pass. */
  lemma PassBehind(m: string, a: string, b: string)
    requires m != [] && forall j: nat :: j < |a| ==> !MatchAt(m, a + b, j)
    ensures Pass(m, a + b) == a + Pass(m, b)
  {
    hide Pass, ValueEnd, MatchAt, FindFrom, Replacement;
    PassUnfolds(m, a + b);
    PassUnfolds(m, b);
    FoundBehind(m, a, b);
    if FindFrom(m, b, 0).Some? {
      var from := FindFrom(m, b, 0).value + |m|;
      ValueEndBehind(a, b, from);
      SliceBehind(a, b, from, ValueEnd(b, from));
      Associate(a, b[..from], Replacement());
      Associate(a, b[..from] + Replacement(), Pass(m, b[ValueEnd(b, from)..]));
    }
  }

  lemma SliceBehind(a: string, b: string, from: nat, end: nat)
    requires from <= end <= |b|
    ensures (a + b)[..|a| + from] == a + b[..from] && (a + b)[|a| + end..] == b[end..]
  {
  }

  lemma {:induction false} ValueEndBehind(a: string, b: string, at: nat)
    requires at <= |b|
    ensures ValueEnd(a + b, |a| + at) == |a| + ValueEnd(b, at)
    decreases |b| - at
  {
    if at < |b| && !Separator(b[at]) { ValueEndBehind(a, b, at + 1); }
  }

  lemma FoundAhead(m: string, a: string, b: string)
    requires m != [] && FindFrom(m, a, 0).Some?
    ensures FindFrom(m, a + b, 0) == FindFrom(m, a, 0)
  {
    var k := FindFrom(m, a, 0).value;
    assert k + |m| <= |a|;
    hide MatchAt;
    forall j: nat | j <= k ensures MatchAt(m, a + b, j) <==> MatchAt(m, a, j) {
      MatchAhead(m, a, b, j);
    }
    FoundAt(m, a + b, k);
  }

  lemma PassAt(m: string, s: string, from: nat, end: nat)
    requires m != [] && FindFrom(m, s, 0).Some? && from == FindFrom(m, s, 0).value + |m| <= end <= |s|
    requires Plain(s[from..end]) && Closed(s[end..])
    ensures Pass(m, s) == s[..from] + Replacement() + Pass(m, s[end..])
  {
    hide Pass, FindFrom, MatchAt, Replacement, ValueEnd, Plain, Closed;
    PassUnfolds(m, s);
    ValueEndIs(s, from, end);
  }

  /** The first occurrence lies in `a`, and its value ends with `v`. */
  lemma PassSwallows(m: string, a: string, v: string, b: string)
    requires Marker(m) && Plain(v) && Closed(b) && FindFrom(m, a, 0).Some?
    requires var from := FindFrom(m, a, 0).value + |m|; from <= |a| && Plain(a[from..])
    ensures Pass(m, a + v + b) == a[..FindFrom(m, a, 0).value + |m|] + Replacement() + Pass(m, b)
  {
    var s, from := a + v + b, FindFrom(m, a, 0).value + |m|;
    hide Pass, FindFrom, MatchAt, Replacement, ValueEnd, Plain, Closed, Separator;
    assert m != [];
    hide Marker;
    FoundAhead(m, a, v + b);
    Associate(a, v, b);
    SwallowedSlices(a, v, b, from);
    PassAt(m, s, from, |a| + |v|);
  }

  lemma SwallowedSlices(a: string, v: string, b: string, from: nat)
    requires from <= |a| && Plain(a[from..]) && Plain(v)
    ensures var s := a + v + b;
            s[..from] == a[..from] && Plain(s[from..|a| + |v|]) && s[|a| + |v|..] == b
  {
    var s := a + v + b;
    assert s[from..|a| + |v|] == a[from..] + v;
  }

  /** A pass treats a value and what follows it separately. */
  lemma PassPlain(m: string, v: string, b: string)
    requires Marker(m) && Plain(v) && Closed(b)
    ensures Pass(m, v + b) == Pass(m, v) + Pass(m, b) && Plain(Pass(m, v))
  {
    hide Pass, FindFrom, MatchAt, Replacement;
    PassUnfolds(m, v);
    ReplacementShape();
    var found := FindFrom(m, v, 0);
    if found.Some? {
      FirstMatch(m, v, found.value);
      var from := found.value + |m|;
      assert Plain(v[from..]);
      PassSwallows(m, v, [], b);
      PassSwallows(m, v, [], []);
      NothingToPass(m);
      assert v + [] == v && v + [] + b == v + b && v + [] + [] == v;
      assert v[..from] + Replacement() + [] == v[..from] + Replacement();
    } else {
      forall j: nat | j < |v| ensures !MatchAt(m, v + b, j) {
        if j + |m| <= |v| {
          MatchAhead(m, v, b, j);
        } else if MatchAt(m, v + b, j) {
          assert j + |m| <= |v + b| by { MatchFits(m, v + b, j); }
          assert (v + b)[|v|] == b[0];
          Inside(m, v + b, j, |v|);
        }
      }
      PassBehind(m, v, b);
    }
  }

  lemma MatchFits(m: string, s: string, i: nat)
    requires MatchAt(m, s, i)
    ensures i + |m| <= |s|
  {
  }

  lemma NothingToPass(m: string)
    requires m != []
    ensures Pass(m, []) == []
  {
  }

  /** What a pass makes of the text before a value, and whether it swallows the value with it. */
  function Before(m: string, a: string): (string, bool)
    requires m != []
    decreases |a|
  {
    match FindFrom(m, a, 0)
    case None => (a, false)
    case Some(start) =>
      var from := start + |m|;
      var end := ValueEnd(a, from);
      if end == |a| then (a[..from], true)
      else
        var rest := Before(m, a[end..]);
        (a[..from] + Replacement() + rest.0, rest.1)
  }

  lemma BeforeUnfolds(m: string, a: string)
    requires m != []
    ensures match FindFrom(m, a, 0)
            case None => Before(m, a) == (a, false)
            case Some(start) =>
              var from := start + |m|;
              var end := ValueEnd(a, from);
              if end == |a| then Before(m, a) == (a[..from], true)
              else Before(m, a) == (a[..from] + Replacement() + Before(m, a[end..]).0, Before(m, a[end..]).1)
  {
  }

  /** Behind a marker, a pass leaves either the replacement or the value passed on its own. */
  lemma {:induction false} PassSplits(m: string, other: string, a: string, v: string, b: string)
    requires Marker(m) && Marker(other) && EndsWith(other, a) && Plain(v) && Closed(b)
    ensures var before := Before(m, a);
            Pass(m, a + v + b) == before.0 + (if before.1 then Replacement() else Pass(m, v)) + Pass(m, b)
    decreases |a|
  {
    hide Pass, Before, MatchAt, FindFrom, ValueEnd, Replacement;
    BeforeUnfolds(m, a);
    var found := FindFrom(m, a, 0);
    if found.None? {
      NoMatchAcross(m, other, a, v + b);
      PassBehind(m, a, v + b);
      PassPlain(m, v, b);
      Associate(a, v, b);
      Associate(a, Pass(m, v), Pass(m, b));
    } else {
      FirstMatch(m, a, found.value);
      var from := found.value + |m|;
      var end := ValueEnd(a, from);
      if end == |a| {
        PassSwallows(m, a, v, b);
      } else {
        LaterValue(m, other, a, from, end, v + b);
        PassSplits(m, other, a[end..], v, b);
        var rest := Before(m, a[end..]);
        var tail := (if rest.1 then Replacement() else Pass(m, v)) + Pass(m, b);
        Associate(a, v, b);
        Associate(a[end..], v, b);
        Regroup(a[..from] + Replacement(), rest.0, if rest.1 then Replacement() else Pass(m, v), Pass(m, b));
      }
    }
  }

  lemma Regroup(p: string, q: string, r: string, t: string)
    ensures p + (q + r + t) == p + q + r + t
  {
  }

  /** A first value that ends inside `a` is replaced whatever follows `a`. */
  lemma ValueInside(m: string, a: string, x: string)
    requires Marker(m) && FindFrom(m, a, 0).Some? && FindFrom(m, a, 0).value + |m| <= |a|
    requires ValueEnd(a, FindFrom(m, a, 0).value + |m|) < |a|
    ensures var from := FindFrom(m, a, 0).value + |m|;
            var end := ValueEnd(a, from);
            Pass(m, a + x) == a[..from] + Replacement() + Pass(m, a[end..] + x)
  {
    hide Pass, FindFrom, MatchAt, Replacement, ValueEnd;
    var from := FindFrom(m, a, 0).value + |m|;
    var end := ValueEnd(a, from);
    FoundAhead(m, a, x);
    PassUnfolds(m, a + x);
    ValueEndAhead(a, x, from);
    assert (a + x)[..from] == a[..from] && (a + x)[end..] == a[end..] + x;
  }

  /** A value inside `a` ends before the marker at the end of `a`. */
  lemma LaterValue(m: string, other: string, a: string, from: nat, end: nat, x: string)
    requires Marker(m) && Marker(other) && EndsWith(other, a)
    requires FindFrom(m, a, 0).Some? && from == FindFrom(m, a, 0).value + |m| <= |a| && end == ValueEnd(a, from) < |a|
    ensures EndsWith(other, a[end..])
    ensures Pass(m, a + x) == a[..from] + Replacement() + Pass(m, a[end..] + x)
  {
    hide Pass, FindFrom, MatchAt, Replacement, ValueEnd;
    if end >= |a| - |other| { Inside(other, a, |a| - |other|, end); }
    MatchInSuffix(other, a, end, |a| - |other| - end);
    ValueInside(m, a, x);
  }

  lemma {:induction false} ValueEndAhead(a: string, b: string, at: nat)
    requires at <= |a| && ValueEnd(a, at) < |a|
    ensures ValueEnd(a + b, at) == ValueEnd(a, at)
    decreases |a| - at
  {
    if !Separator(a[at]) { ValueEndAhead(a, b, at + 1); }
  }

  /** No marker starts before the end of another marker and ends behind it. */
  lemma NoMatchAcross(m: string, other: string, a: string, x: string)
    requires Marker(m) && Marker(other) && EndsWith(other, a) && FindFrom(m, a, 0).None?
    ensures forall j: nat :: j < |a| ==> !MatchAt(m, a + x, j)
  {
    hide MatchAt;
    Inside(other, a, |a| - |other|, |a| - 1);
    forall j: nat | j < |a| ensures !MatchAt(m, a + x, j) {
      if j + |m| <= |a| {
        MatchAhead(m, a, x, j);
      } else if MatchAt(m, a + x, j) {
        assert (a + x)[|a| - 1] == a[|a| - 1];
        Inside(m, a + x, j, |a| - 1);
      }
    }
  }

  /** The pass of its own marker swallows the value; another pass may leave the marker. */
  lemma {:induction false} BeforeEnds(m: string, other: string, a: string)
    requires Marker(m) && Marker(other) && EndsWith(other, a) && !Before(m, a).1
    ensures m != other && EndsWith(other, Before(m, a).0)
    decreases |a|
  {
    hide Before, MatchAt, FindFrom, ValueEnd, Replacement;
    BeforeUnfolds(m, a);
    var found := FindFrom(m, a, 0);
    if found.None? {
    } else {
      FirstMatch(m, a, found.value);
      var from := found.value + |m|;
      var end := ValueEnd(a, from);
      LaterValue(m, other, a, from, end, []);
      BeforeEnds(m, other, a[end..]);
      EndsBehind(other, a[..from] + Replacement(), Before(m, a[end..]).0);
    }
  }

  lemma EndsBehind(m: string, a: string, b: string)
    requires EndsWith(m, b)
    ensures EndsWith(m, a + b)
  {
    MatchBehind(m, a, b, |b| - |m|);
  }

  lemma {:induction false} PassesForget(markers: seq<string>, m: string, a: string, v: string, w: string, b: string)
    requires AllMarkers(markers) && Marker(m) && (exists i :: 0 <= i < |markers| && markers[i] == m)
    requires EndsWith(m, a) && Plain(v) && Plain(w) && Closed(b)
    ensures Passes(markers, a + v + b) == Passes(markers, a + w + b)
    decreases |markers|
  {
    hide Pass, Before, EndsWith, Replacement;
    var first, before := markers[0], Before(markers[0], a);
    PassSplits(first, m, a, v, b);
    PassSplits(first, m, a, w, b);
    if !before.1 {
      BeforeEnds(first, m, a);
      PassPlain(first, v, b);
      PassPlain(first, w, b);
      ClosedAfterPass(first, b);
      var i :| 0 <= i < |markers| && markers[i] == m;
      assert markers[1..][i - 1] == m;
      PassesForget(markers[1..], m, before.0, Pass(first, v), Pass(first, w), Pass(first, b));
    }
  }

  /** The marker occurs, and no separator stands between it and the end. */
  ghost predicate Open(m: string, a: string)
  {
    exists i: nat :: MatchAt(m, a, i) && Plain(a[i + |m|..])
  }

  ghost predicate SomeOpen(a: string) { exists i :: 0 <= i < |MARKERS| && Open(MARKERS[i], a) }

  /** A value that belongs to an open marker has no influence on the result, whatever it
      contains and whatever stands around it. */
  lemma OpenValueForgotten(m: string, a: string, v: string, w: string, b: string)
    requires m in MARKERS && Open(m, a) && Plain(v) && Plain(w)
    ensures Passes(MARKERS, a + v + b) == Passes(MARKERS, a + w + b)
  {
    hide MatchAt, Passes, Plain, EndsWith, Closed, ValueEnd, Marker;
    MarkersAre();
    var front, q := OpenParts(m, a);
    var later, rest := PlainStart(b);
    Recut(front, q, v, later, rest);
    Recut(front, q, w, later, rest);
    PlainThree(q, v, later);
    PlainThree(q, w, later);
    PassesForget(MARKERS, m, front, q + v + later, q + w + later, rest);
  }

  lemma OpenParts(m: string, a: string) returns (front: string, q: string)
    requires Open(m, a)
    ensures a == front + q && EndsWith(m, front) && Plain(q)
  {
    var i: nat :| MatchAt(m, a, i) && Plain(a[i + |m|..]);
    front, q := a[..i + |m|], a[i + |m|..];
    MatchInPrefix(m, a, i + |m|, i);
    assert |front| - |m| == i;
  }

  lemma PlainStart(b: string) returns (later: string, rest: string)
    ensures b == later + rest && Plain(later) && Closed(rest)
  {
    var end := ValueEnd(b, 0);
    later, rest := b[..end], b[end..];
  }

  lemma Recut(front: string, q: string, v: string, later: string, rest: string)
    ensures (front + q) + v + (later + rest) == front + (q + v + later) + rest
  {
  }

  lemma PlainThree(a: string, b: string, c: string)
    requires Plain(a) && Plain(b) && Plain(c)
    ensures Plain(a + b + c)
  {
  }

  // ---- and without an open marker every value does ----

  /** Text that no marker contains a character of. */
  predicate Zeros(z: string) { z != [] && forall i :: 0 <= i < |z| ==> z[i] == '0' }

  lemma NoMarkerHasZero(m: string, s: string, i: nat, x: nat)
    requires m in MARKERS && MatchAt(m, s, i) && i <= x < i + |m|
    ensures s[x] != '0'
  {
    assert s[x] == s[i..i + |m|][x - i];
  }

  lemma NoMatchWithZero(m: string, a: string, z: string, b: string)
    requires m in MARKERS && Zeros(z)
    ensures forall j: nat :: j <= |a| < j + |m| ==> !MatchAt(m, a + z + b, j)
    ensures forall j: nat :: j < |z| ==> !MatchAt(m, z + b, j)
  {
    forall j: nat | j <= |a| < j + |m| ensures !MatchAt(m, a + z + b, j) {
      if MatchAt(m, a + z + b, j) {
        assert (a + z + b)[|a|] == z[0];
        hide MatchAt;
        NoMarkerHasZero(m, a + z + b, j, |a|);
      }
    }
    forall j: nat | j < |z| ensures !MatchAt(m, z + b, j) {
      if MatchAt(m, z + b, j) {
        assert (z + b)[j] == z[j];
        MarkersAre();
        hide MatchAt;
        NoMarkerHasZero(m, z + b, j, j);
      }
    }
  }

  lemma OpenSuffix(m: string, a: string, end: nat)
    requires end <= |a| && Open(m, a[end..])
    ensures Open(m, a)
  {
    var i: nat :| MatchAt(m, a[end..], i) && Plain(a[end..][i + |m|..]);
    MatchInSuffix(m, a, end, i);
    assert a[end + i + |m|..] == a[end..][i + |m|..];
  }

  /** The first value of a marker that is not open ends inside the text. */
  lemma ShutValueEnds(m: string, a: string, from: nat)
    requires m != [] && !Open(m, a) && FindFrom(m, a, 0).Some? && from == FindFrom(m, a, 0).value + |m| <= |a|
    ensures ValueEnd(a, from) < |a|
  {
    hide FindFrom, MatchAt, ValueEnd, Plain;
    if ValueEnd(a, from) == |a| { PlainToEnd(a, from); }
  }

  lemma PlainToEnd(a: string, from: nat)
    requires from <= |a| && ValueEnd(a, from) == |a|
    ensures Plain(a[from..])
  {
    hide ValueEnd;
  }

  /** A pass copies text that belongs to no value of its marker. */
  lemma {:induction false} PassSpares(m: string, a: string, z: string, b: string)
    requires m in MARKERS && Marker(m) && !Open(m, a) && Zeros(z)
    ensures Pass(m, a + z + b) == Before(m, a).0 + z + Pass(m, b)
    decreases |a|
  {
    hide Pass, Before, MatchAt, FindFrom, ValueEnd, Replacement;
    BeforeUnfolds(m, a);
    var found := FindFrom(m, a, 0);
    Associate(a, z, b);
    NoMatchWithZero(m, a, z, b);
    if found.None? {
      forall j: nat | j < |a| ensures !MatchAt(m, a + (z + b), j) {
        if j + |m| <= |a| { MatchAhead(m, a, z + b, j); }
      }
      PassBehind(m, a, z + b);
      PassBehind(m, z, b);
      Associate(a, z, Pass(m, b));
    } else {
      FirstMatch(m, a, found.value);
      var from := found.value + |m|;
      var end := ValueEnd(a, from);
      ShutValueEnds(m, a, from);
      ValueInside(m, a, z + b);
      if Open(m, a[end..]) { OpenSuffix(m, a, end); }
      PassSpares(m, a[end..], z, b);
      Associate(a[end..], z, b);
      Regroup(a[..from] + Replacement(), Before(m, a[end..]).0, z, Pass(m, b));
    }
  }

  lemma {:induction false} BeforeKeepsHead(m: string, a: string)
    requires m != [] && a != []
    ensures Before(m, a).0 != [] && Before(m, a).0[0] == a[0]
  {
    hide MatchAt, FindFrom, ValueEnd, Replacement, Before;
    BeforeUnfolds(m, a);
  }

  /** A pass for one marker opens no other. */
  lemma {:induction false} BeforeStaysShut(m: string, other: string, a: string)
    requires Marker(m) && Marker(other) && !Open(m, a) && !Open(other, a)
    ensures !Open(other, Before(m, a).0)
    decreases |a|
  {
    hide Before, MatchAt, FindFrom, ValueEnd, Replacement;
    BeforeUnfolds(m, a);
    var found := FindFrom(m, a, 0);
    if found.None? {
    } else {
      FirstMatch(m, a, found.value);
      var from := found.value + |m|;
      var end := ValueEnd(a, from);
      ShutValueEnds(m, a, from);
      var rest := a[end..];
      if Open(m, rest) { OpenSuffix(m, a, end); }
      if Open(other, rest) { OpenSuffix(other, a, end); }
      BeforeStaysShut(m, other, rest);
      BeforeKeepsHead(m, rest);
      assert rest[0] == a[end];
      ShutAround(other, a[..from], Before(m, rest).0);
    }
  }

  lemma ShutAround(m: string, a: string, u: string)
    requires Marker(m) && u != [] && Separator(u[0]) && !Open(m, u)
    ensures !Open(m, a + Replacement() + u)
  {
    ReplacementShape();
    var s := a + Replacement() + u;
    assert s[|a| + 10..] == u && s[|a| + 10] == u[0];
    hide Replacement, Plain;
    forall i: nat | MatchAt(m, s, i) ensures !Plain(s[i + |m|..]) {
      MatchAside(m, a, u, i);
      if i + |m| <= |a| {
        NotPlain(s, i + |m|, |a| + 10);
      } else {
        MatchInSuffix(m, s, |a| + 10, i - |a| - 10);
        assert u[i - |a| - 10 + |m|..] == s[i + |m|..];
      }
    }
  }

  lemma NotPlain(s: string, from: nat, k: nat)
    requires from <= k < |s| && Separator(s[k])
    ensures !Plain(s[from..])
  {
    assert s[from..][k - from] == s[k];
  }

  function BeforeAll(markers: seq<string>, a: string): string
    requires forall i :: 0 <= i < |markers| ==> markers[i] != []
  {
    if markers == [] then a else BeforeAll(markers[1..], Before(markers[0], a).0)
  }

  lemma {:induction false} PassesSpare(markers: seq<string>, a: string, z: string, b: string)
    requires AllMarkers(markers) && Zeros(z)
    requires forall i :: 0 <= i < |markers| ==> markers[i] in MARKERS && !Open(markers[i], a)
    ensures Passes(markers, a + z + b) == BeforeAll(markers, a) + z + Passes(markers, b)
    decreases |markers|
  {
    hide Pass, Before, Open, Zeros;
    if markers == [] {
    } else {
      var m := markers[0];
      PassSpares(m, a, z, b);
      forall i | 0 <= i < |markers[1..]|
        ensures markers[1..][i] in MARKERS && !Open(markers[1..][i], Before(m, a).0)
      {
        assert markers[1..][i] == markers[i + 1];
        BeforeStaysShut(m, markers[i + 1], a);
      }
      PassesSpare(markers[1..], Before(m, a).0, z, Pass(m, b));
    }
  }

  ghost predicate Forgotten(a: string, b: string)
  {
    forall v, w :: Plain(v) && Plain(w) ==> Passes(MARKERS, a + v + b) == Passes(MARKERS, a + w + b)
  }

  /** Between two texts, a value has no influence on the result if and only if a marker is open
      at its start. */
  lemma ForgottenExactly(a: string, b: string)
    ensures Forgotten(a, b) <==> SomeOpen(a)
  {
    MarkersAre();
    hide Passes, Open, Plain;
    if SomeOpen(a) {
      var i :| 0 <= i < |MARKERS| && Open(MARKERS[i], a);
      forall v, w | Plain(v) && Plain(w) ensures Passes(MARKERS, a + v + b) == Passes(MARKERS, a + w + b) {
        OpenValueForgotten(MARKERS[i], a, v, w, b);
      }
    } else {
      PassesSpare(MARKERS, a, "0", b);
      PassesSpare(MARKERS, a, "00", b);
      ZerosPlain("0");
      ZerosPlain("00");
      assert Passes(MARKERS, a + "0" + b) != Passes(MARKERS, a + "00" + b);
    }
  }

  lemma ZerosPlain(z: string)
    requires Zeros(z)
    ensures Plain(z)
  {
  }

  lemma OneLineAppend(a: string, b: string, c: string)
    ensures OneLine(a + b + c) == OneLine(a) + OneLine(b) + OneLine(c)
  {
  }

  lemma OneLineEnds(m: string, a: string)
    requires Marker(m) && EndsWith(m, a)
    ensures EndsWith(m, OneLine(a))
  {
    var k := |a| - |m|;
    forall j | 0 <= j < |m| ensures OneLine(a)[k..][j] == a[k..][j] {
      assert Lower(a[k..][j]) == m[j];
    }
    assert OneLine(a)[k..] == a[k..];
  }
}
