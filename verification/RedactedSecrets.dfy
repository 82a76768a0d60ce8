/** What redaction does about secrets taken from the environment: which of them are gone from
    the text, when redacting twice is redacting once, and when a value leaves no trace. */
module RedactedSecrets {
  import opened Prelude
  import opened Redaction
  import opened RedactedText

  predicate At(s: string, t: string, i: nat) { i + |s| <= |t| && t[i..i + |s|] == s }

  ghost predicate Occurs(s: string, t: string) { exists i: nat :: At(s, t, i) }

  predicate BracketFree(s: string) { forall i :: 0 <= i < |s| ==> s[i] != '[' && s[i] != ']' }

  /** The secret is part of the word that replaces it. */
  ghost predicate InsideWord(s: string) { Occurs(s, "REDACTED") }

  /** Laid over the replacement, with its start `d` places behind that of the replacement, the
      secret agrees with it wherever they overlap. */
  predicate Meets(s: string, d: int)
  {
    -|s| < d < |Replacement()|
    && forall j :: 0 <= j < |s| && 0 <= j + d < |Replacement()| ==> s[j] == Replacement()[j + d]
  }

  /** A secret that, once replaced, cannot come back: it neither contains the replacement, nor
      is part of it, nor ends as it begins, nor begins as it ends. */
  ghost predicate Lasting(s: string) { s == [] || forall d :: !Meets(s, d) }

  /** An occurrence in a part of a text, and in the text. */
  lemma AtInPart(s: string, t: string, from: nat, to: nat, i: nat)
    requires from <= to <= |t| && i + |s| <= to - from
    ensures At(s, t[from..to], i) <==> At(s, t, from + i)
  {
    var l, r := t[from..to][i..i + |s|], t[from + i..from + i + |s|];
    assert forall j :: 0 <= j < |s| ==> l[j] == r[j];
  }

  lemma AtStart(s: string, t: string)
    ensures At(s, t, 0) <==> s <= t
  {
    if |s| <= |t| { assert t[0..0 + |s|] == t[..|s|]; }
  }

  lemma OccursInPart(s: string, t: string, from: nat, to: nat)
    requires from <= to <= |t| && Occurs(s, t[from..to])
    ensures Occurs(s, t)
  {
    var i: nat :| At(s, t[from..to], i);
    AtInPart(s, t, from, to, i);
  }

  // ---- an occurrence beside a replacement ----

  lemma NoBracketAt(s: string, t: string, i: nat, x: nat)
    requires BracketFree(s) && At(s, t, i) && i <= x < i + |s|
    ensures t[x] != '[' && t[x] != ']'
  {
    assert t[i..i + |s|][x - i] == t[x];
  }

  lemma WordInside()
    ensures Replacement() == "[" + "REDACTED" + "]"
  {
  }

  lemma OverlapMeets(s: string, a: string, u: string, i: nat)
    requires At(s, a + Replacement() + u, i) && |a| < i + |s| && i < |a| + |Replacement()|
    ensures Meets(s, i - |a|)
  {
    var t := a + Replacement() + u;
    assert forall x :: 0 <= x < |Replacement()| ==> t[|a| + x] == Replacement()[x];
    hide Replacement;
    assert forall j :: 0 <= j < |s| ==> s[j] == t[i..i + |s|][j] == t[i + j];
  }

  /** A lasting secret occurs beside a replacement. */
  lemma OccursAside(s: string, a: string, u: string)
    requires Lasting(s) && s != [] && Occurs(s, a + Replacement() + u)
    ensures Occurs(s, a) || Occurs(s, u)
  {
    var t, k, n := a + Replacement() + u, |a|, |Replacement()|;
    assert t[0..k] == a && t[k + n..|t|] == u;
    hide Replacement, At, Meets;
    var i: nat :| At(s, t, i);
    Fits(s, t, i);
    if i + |s| <= k {
      AtInPart(s, t, 0, k, i);
    } else if i >= k + n {
      AtInPart(s, t, k + n, |t|, i - k - n);
    } else {
      OverlapMeets(s, a, u, i);
    }
  }

  lemma Fits(s: string, t: string, i: nat)
    requires At(s, t, i)
    ensures i + |s| <= |t|
  {
  }

  // ---- replacing one secret ----

  /** The first occurrence is cut out and the rest treated the same, or there is none. */
  lemma {:induction false} ReplacedUnfolds(t: string, s: string) returns (found: Option<nat>)
    requires s != []
    ensures found.None? ==> !Occurs(s, t) && Replaced(t, s) == t
    ensures found.Some? ==>
              var k := found.value;
              && At(s, t, k) && k + |s| <= |t| && !Occurs(s, t[..k])
              && Replaced(t, s) == t[..k] + Replacement() + Replaced(t[k + |s|..], s)
    decreases |t|
  {
    hide Replaced, Replacement, At, Occurs;
    if t == [] {
      NothingThere(s);
      found := None;
    } else if s <= t {
      FoundFirst(t, s);
      found := Some(0);
    } else {
      StepLater(t, s);
      var later := ReplacedUnfolds(t[1..], s);
      if later.None? {
        assert t == [t[0]] + t[1..];
        found := None;
      } else {
        found := Some(later.value + 1);
        FoundLater(t, s, later.value, Replaced(t[1..][later.value + |s|..], s));
      }
    }
  }

  lemma NothingThere(s: string)
    requires s != []
    ensures !Occurs(s, []) && Replaced([], s) == []
  {
  }

  lemma FoundFirst(t: string, s: string)
    requires s != [] && s <= t
    ensures At(s, t, 0) && !Occurs(s, t[..0])
    ensures Replaced(t, s) == t[..0] + Replacement() + Replaced(t[0 + |s|..], s)
  {
    hide Replacement;
    AtStart(s, t);
    NothingThere(s);
    assert t[..0] == [];
    assert t[..0] + Replacement() == Replacement();
  }

  lemma StepLater(t: string, s: string)
    requires t != [] && s != [] && !(s <= t)
    ensures Replaced(t, s) == [t[0]] + Replaced(t[1..], s)
    ensures !Occurs(s, t[1..]) ==> !Occurs(s, t)
  {
    hide Replacement;
    if Occurs(s, t) {
      var i: nat :| At(s, t, i);
      AtStart(s, t);
      assert t[1..] == t[1..|t|];
      AtInPart(s, t, 1, |t|, i - 1);
    }
  }

  lemma FoundLater(t: string, s: string, k: nat, after: string)
    requires t != [] && s != [] && !(s <= t)
    requires At(s, t[1..], k) && k + |s| <= |t| - 1 && !Occurs(s, t[1..][..k])
    ensures At(s, t, k + 1) && !Occurs(s, t[..k + 1])
    ensures t[1..][k + |s|..] == t[k + 1 + |s|..]
    ensures [t[0]] + (t[1..][..k] + Replacement() + after) == t[..k + 1] + Replacement() + after
  {
    hide Replacement;
    assert t[1..] == t[1..|t|];
    AtInPart(s, t, 1, |t|, k);
    var front := t[..k + 1];
    assert front == t[0..k + 1] && front[1..|front|] == t[1..][..k];
    assert [t[0]] + t[1..][..k] == front;
    hide At;
    AtStart(s, t);
    if Occurs(s, front) {
      var i: nat :| At(s, front, i);
      Fits(s, front, i);
      AtInPart(s, t, 0, k + 1, i);
      AtInPart(s, front, 1, |front|, i - 1);
    }
  }

  /** After its replacement a lasting secret does not occur. */
  lemma {:induction false} ReplacedRemoves(t: string, s: string)
    requires s != [] && Lasting(s)
    ensures !Occurs(s, Replaced(t, s))
    decreases |t|
  {
    hide Replaced, At, Occurs, Replacement, Lasting;
    var found := ReplacedUnfolds(t, s);
    if found.None? {
    } else {
      var k := found.value;
      var rest := t[k + |s|..];
      ReplacedRemoves(rest, s);
      if Occurs(s, t[..k] + Replacement() + Replaced(rest, s)) { OccursAside(s, t[..k], Replaced(rest, s)); }
    }
  }

  /** Nor does another replacement bring it back. */
  lemma {:induction false} ReplacedKeepsOut(x: string, t: string, s: string)
    requires x != [] && Lasting(x) && s != [] && !Occurs(x, t)
    ensures !Occurs(x, Replaced(t, s))
    decreases |t|
  {
    hide Replaced, At, Occurs, Replacement, Lasting;
    var found := ReplacedUnfolds(t, s);
    if found.None? {
    } else {
      var k := found.value;
      var rest := t[k + |s|..];
      NotInParts(x, t, k, k + |s|);
      ReplacedKeepsOut(x, rest, s);
      if Occurs(x, t[..k] + Replacement() + Replaced(rest, s)) { OccursAside(x, t[..k], Replaced(rest, s)); }
    }
  }

  lemma NotInParts(x: string, t: string, k: nat, end: nat)
    requires k <= |t| && end <= |t| && !Occurs(x, t)
    ensures !Occurs(x, t[..k]) && !Occurs(x, t[end..])
  {
    assert t[..k] == t[0..k] && t[end..] == t[end..|t|];
    hide Occurs;
    if Occurs(x, t[..k]) { OccursInPart(x, t, 0, k); }
    if Occurs(x, t[end..]) { OccursInPart(x, t, end, |t|); }
  }

  lemma {:induction false} PassKeepsOut(x: string, m: string, t: string)
    requires x != [] && Lasting(x) && Marker(m) && !Occurs(x, t)
    ensures !Occurs(x, Pass(m, t))
    decreases |t|
  {
    hide Pass, FindFrom, ValueEnd, Occurs, Replacement, Lasting;
    PassUnfolds(m, t);
    var found := FindFrom(m, t, 0);
    if found.None? {
    } else {
      FirstMatch(m, t, found.value);
      var from := found.value + |m|;
      var rest := t[ValueEnd(t, from)..];
      NotInParts(x, t, from, ValueEnd(t, from));
      PassKeepsOut(x, m, rest);
      if Occurs(x, t[..from] + Replacement() + Pass(m, rest)) { OccursAside(x, t[..from], Pass(m, rest)); }
    }
  }

  lemma {:induction false} PassesKeepOut(x: string, markers: seq<string>, t: string)
    requires x != [] && Lasting(x) && AllMarkers(markers) && !Occurs(x, t)
    ensures !Occurs(x, Passes(markers, t))
    decreases |markers|
  {
    hide Pass, Occurs, Lasting;
    if markers == [] {
    } else {
      PassKeepsOut(x, markers[0], t);
      PassesKeepOut(x, markers[1..], Pass(markers[0], t));
    }
  }

  // ---- all secrets ----

  function WithoutSecret(t: string, s: string): string { if s == [] then t else Replaced(t, s) }

  lemma {:induction false} SecretsKeepOut(x: string, t: string, secrets: seq<string>)
    requires x != [] && Lasting(x) && !Occurs(x, t)
    ensures !Occurs(x, WithoutSecrets(t, secrets))
    decreases |secrets|
  {
    hide Replaced, Occurs, Lasting;
    if secrets == [] {
    } else {
      if secrets[0] != [] { ReplacedKeepsOut(x, t, secrets[0]); }
      SecretsKeepOut(x, WithoutSecret(t, secrets[0]), secrets[1..]);
    }
  }

  lemma {:induction false} SecretsRemove(t: string, secrets: seq<string>, i: nat)
    requires i < |secrets| && secrets[i] != [] && Lasting(secrets[i])
    ensures !Occurs(secrets[i], WithoutSecrets(t, secrets))
    decreases |secrets|
  {
    hide Replaced, Occurs, Lasting;
    if i == 0 {
      ReplacedRemoves(t, secrets[0]);
      SecretsKeepOut(secrets[0], Replaced(t, secrets[0]), secrets[1..]);
    } else {
      SecretsRemove(WithoutSecret(t, secrets[0]), secrets[1..], i - 1);
    }
  }

  /** No lasting secret occurs in redacted text, whatever the other secrets are. */
  lemma NoSecretRemains(input: string, secrets: seq<string>, i: nat)
    requires i < |secrets| && secrets[i] != [] && Lasting(secrets[i])
    ensures !Occurs(secrets[i], Redacted(input, secrets))
  {
    MarkersAre();
    SecretsRemove(OneLine(input), secrets, i);
    PassesKeepOut(secrets[i], MARKERS, WithoutSecrets(OneLine(input), secrets));
  }

  lemma MeetsBracket(s: string, d: int)
    requires s != [] && Meets(s, d) && (d <= 0 || d + |s| >= 10)
    ensures !BracketFree(s)
  {
    if d <= 0 {
      assert s[-d] == Replacement()[-d + d] == '[';
    } else {
      assert s[9 - d] == Replacement()[9 - d + d] == ']';
    }
  }

  /** Laid over the word between the brackets, the secret occurs there. */
  lemma MeetsWord(s: string, d: int)
    requires 0 < d && d + |s| < 10
    ensures Meets(s, d) <==> At(s, "REDACTED", d - 1)
  {
    WordLetters();
    var word := "REDACTED";
    hide Replacement;
    if Meets(s, d) {
      assert forall j :: 0 <= j < |s| ==> s[j] == word[d - 1 + j];
      assert word[d - 1..d - 1 + |s|] == s;
    }
    if At(s, word, d - 1) {
      assert forall j :: 0 <= j < |s| ==> s[j] == word[d - 1..d - 1 + |s|][j] == word[d - 1 + j];
    }
  }

  lemma WordLetters()
    ensures |Replacement()| == 10 && |"REDACTED"| == 8
    ensures forall x :: 0 < x < 9 ==> Replacement()[x] == "REDACTED"[x - 1]
  {
  }

  /** Without brackets, only a part of the replacement word is not lasting. */
  lemma BracketFreeLasting(s: string)
    requires BracketFree(s) && s != []
    ensures Lasting(s) <==> !InsideWord(s)
  {
    WordLetters();
    hide Replacement, BracketFree, Meets, At;
    if InsideWord(s) {
      var i: nat :| At(s, "REDACTED", i);
      Fits(s, "REDACTED", i);
      MeetsWord(s, i + 1);
    }
    if d :| Meets(s, d) {
      if d <= 0 || d + |s| >= 10 {
        MeetsBracket(s, d);
      } else {
        MeetsWord(s, d);
      }
    }
  }

  // ---- exactly the lasting secrets are removed ----

  /** A mark that begins nowhere but at its start. */
  function Mark(n: nat): string { "0" + seq(n, _ => '1') }

  /** What stands before and behind the part of the secret that is over the replacement. */
  function Left(s: string, d: int): string { if -|s| < d < 0 then s[..-d] else [] }

  function Right(s: string, d: int): string
  {
    if 0 <= |Replacement()| - d <= |s| then s[|Replacement()| - d..] else []
  }

  lemma MarkedWithout(s: string, d: int, n: nat)
    requires s != [] && Meets(s, d)
    ensures !Occurs(s, Left(s, d) + Mark(n) + Right(s, d))
  {
    var j := if d < 0 then -d else 0;
    assert s[j] == Replacement()[j + d];
    assert s[j] != '0' && s[j] != '1';
    var l, r := Left(s, d), Right(s, d);
    var t := l + Mark(n) + r;
    forall i: nat ensures !At(s, t, i) {
      if i + |s| <= |t| {
        assert |l| <= i + j < |l| + |Mark(n)|;
        assert t[i..i + |s|][j] == t[i + j] == Mark(n)[i + j - |l|];
      }
    }
  }

  lemma MarkReplaced(l: string, r: string, n: nat)
    requires |l| <= n && |r| <= n
    ensures Replaced(l + Mark(n) + r, Mark(n)) == l + Replacement() + r
  {
    var z := Mark(n);
    var t := l + z + r;
    assert t[|l|..|l| + |z|] == z;
    assert At(z, t, |l|) && t[..|l|] == l && t[|l| + |z|..] == r;
    forall i: nat | i != |l| ensures !At(z, t, i) { MarkOnce(l, r, n, i); }
    assert !Occurs(z, r);
    hide Replaced, Replacement, At, Mark;
    var found := ReplacedUnfolds(t, z);
    assert found.Some?;
    AbsentUnchanged(r, z);
  }

  lemma MarkOnce(l: string, r: string, n: nat, i: nat)
    requires |l| <= n && |r| <= n && i != |l|
    ensures !At(Mark(n), l + Mark(n) + r, i)
  {
    var z, t := Mark(n), l + Mark(n) + r;
    if i + |z| <= |t| {
      if i < |l| {
        assert t[i..i + |z|][|l| - i] == t[|l|] == '0' && z[|l| - i] == '1';
      } else {
        assert t[i..i + |z|][0] == t[i] == z[i - |l|] == '1';
      }
    }
  }

  lemma MeetsAround(s: string, d: int)
    requires Meets(s, d)
    ensures Occurs(s, Left(s, d) + Replacement() + Right(s, d))
  {
    var t := Left(s, d) + Replacement() + Right(s, d);
    var i := if d < 0 then 0 else d;
    assert forall j :: 0 <= j < |s| ==> s[j] == t[i + j];
    assert t[i..i + |s|] == s;
    assert At(s, t, i);
  }

  /** A secret is removed from every text, whatever the other secrets are, if and only if it is
      lasting. */
  lemma RemovedExactly(s: string)
    requires s != []
    ensures Lasting(s) <==> forall t, secrets: seq<string> :: s in secrets ==> !Occurs(s, WithoutSecrets(t, secrets))
  {
    hide Occurs, WithoutSecrets, Meets;
    if Lasting(s) {
      forall t, secrets: seq<string> | s in secrets ensures !Occurs(s, WithoutSecrets(t, secrets)) {
        var i :| 0 <= i < |secrets| && secrets[i] == s;
        SecretsRemove(t, secrets, i);
      }
    } else {
      var d :| Meets(s, d);
      ReturnsThrough(s, d);
    }
  }

  lemma ReturnsThrough(s: string, d: int)
    requires s != [] && Meets(s, d)
    ensures exists t, secrets: seq<string> :: s in secrets && Occurs(s, WithoutSecrets(t, secrets))
  {
    var l, r, z := Left(s, d), Right(s, d), Mark(|s|);
    var t := l + z + r;
    MarkedWithout(s, d, |s|);
    MarkReplaced(l, r, |s|);
    MeetsAround(s, d);
    assert z != [];
    hide Occurs, Mark, Left, Right, Replaced, Meets, Replacement;
    AbsentUnchanged(t, s);
    TwoSecrets(t, s, z);
    assert s in [s, z];
  }

  lemma TwoSecrets(t: string, s: string, z: string)
    requires s != [] && z != []
    ensures WithoutSecrets(t, [s, z]) == Replaced(Replaced(t, s), z)
  {
    assert [s, z][1..] == [z] && [z][1..] == [];
    hide Replaced;
    assert WithoutSecrets(Replaced(t, s), [z]) == Replaced(Replaced(t, s), z);
  }

  // ---- secrets of several lines ----

  lemma BreakNeverOccurs(s: string, t: string)
    requires !Breakless(s) && Breakless(t)
    ensures !Occurs(s, t)
  {
    var j :| 0 <= j < |s| && (s[j] == '\r' || s[j] == '\n');
    forall i: nat ensures !At(s, t, i) {
      if i + |s| <= |t| { assert t[i..i + |s|][j] == t[i + j]; }
    }
  }

  lemma {:induction false} BreakSecretsIdle(t: string, secrets: seq<string>)
    requires Breakless(t)
    ensures WithoutSecrets(t, secrets) == WithoutSecrets(t, Filter(Breakless, secrets))
    decreases |secrets|
  {
    hide Breakless, Replaced;
    if secrets == [] {
    } else {
      var s, rest := secrets[0], secrets[1..];
      var kept := Filter(Breakless, rest);
      assert [] + kept == kept && ([s] + kept)[1..] == kept;
      assert Filter(Breakless, secrets) == if Breakless(s) then [s] + kept else kept;
      if Breakless(s) {
        if s != [] { ReplacedBreakless(t, s); }
        BreakSecretsIdle(WithoutSecret(t, s), rest);
      } else {
        assert s != [] by { EmptyBreakless(); }
        BreakNeverOccurs(s, t);
        AbsentUnchanged(t, s);
        BreakSecretsIdle(t, rest);
      }
    }
  }

  lemma EmptyBreakless()
    ensures Breakless("")
  {
  }

  /** Secrets with a line break are never redacted, because the breaks of the text are blanked
      first: among any secrets they might as well be missing. */
  lemma MultiLineSecretKept(input: string, secrets: seq<string>)
    ensures Redacted(input, secrets) == Redacted(input, Filter(Breakless, secrets))
  {
    OneLineBreakless(input);
    hide OneLine, Breakless, WithoutSecrets, Passes;
    BreakSecretsIdle(OneLine(input), secrets);
  }

  lemma AbsentUnchanged(t: string, s: string)
    requires s != [] && !Occurs(s, t)
    ensures Replaced(t, s) == t
  {
    hide Replaced, At;
    var found := ReplacedUnfolds(t, s);
  }

  /** In particular a text that is nothing but the secret comes out whole, on one line. */
  lemma TwoLineSecret()
    ensures Redacted("A\nB", ["A\nB"]) == "A B"
  {
    assert OneLine("A\nB") == "A B";
    assert "A\nB"[1] == '\n';
    hide OneLine, Passes, WithoutSecrets, Breakless;
    MultiLineSecretKept("A\nB", ["A\nB"]);
    assert Filter(Breakless, ["A\nB"]) == [] by { assert ["A\nB"][1..] == []; }
    assert WithoutSecrets("A B", []) == "A B" by { NoSecrets("A B"); }
    MarkersAre();
    NoEqualsNoMarker("A B");
    CleanStays(MARKERS, "A B");
  }

  lemma NoSecrets(t: string)
    ensures WithoutSecrets(t, []) == t
  {
  }

  lemma NoEqualsNoMarker(t: string)
    requires forall i :: 0 <= i < |t| ==> t[i] != '='
    ensures forall i :: 0 <= i < |MARKERS| ==> Clean(MARKERS[i], t)
  {
    MarkersAre();
    forall i | 0 <= i < |MARKERS| ensures Clean(MARKERS[i], t) {
      NoEqualsNoMatch(MARKERS[i], t);
    }
  }

  lemma NoEqualsNoMatch(m: string, t: string)
    requires Marker(m) && forall i :: 0 <= i < |t| ==> t[i] != '='
    ensures Clean(m, t)
  {
    forall j: nat ensures !MatchAt(m, t, j) {
      if j + |m| <= |t| {
        assert t[j..j + |m|][|m| - 1] == t[j + |m| - 1];
      }
    }
  }

  // ---- redacting twice ----

  lemma {:induction false} ReplacedBreakless(t: string, s: string)
    requires s != [] && Breakless(t)
    ensures Breakless(Replaced(t, s))
    decreases |t|
  {
    hide Replaced, At, Occurs;
    var found := ReplacedUnfolds(t, s);
    if found.None? {
    } else {
      var k := found.value;
      ReplacedBreakless(t[k + |s|..], s);
      BreaklessAround(t[..k], Replaced(t[k + |s|..], s));
    }
  }

  lemma BreaklessAround(a: string, u: string)
    requires Breakless(a) && Breakless(u)
    ensures Breakless(a + Replacement() + u)
  {
  }

  lemma {:induction false} SecretsBreakless(t: string, secrets: seq<string>)
    requires Breakless(t)
    ensures Breakless(WithoutSecrets(t, secrets))
    decreases |secrets|
  {
    hide Replaced, Breakless;
    if secrets == [] {
    } else {
      if secrets[0] != [] { ReplacedBreakless(t, secrets[0]); }
      SecretsBreakless(WithoutSecret(t, secrets[0]), secrets[1..]);
    }
  }

  lemma {:induction false} SecretsAbsent(t: string, secrets: seq<string>)
    requires forall i :: 0 <= i < |secrets| && secrets[i] != [] ==> !Occurs(secrets[i], t)
    ensures WithoutSecrets(t, secrets) == t
    decreases |secrets|
  {
    hide Replaced, Occurs;
    if secrets == [] {
    } else {
      if secrets[0] != [] { AbsentUnchanged(t, secrets[0]); }
      assert forall i :: 0 <= i < |secrets| - 1 ==> secrets[1..][i] == secrets[i + 1];
      SecretsAbsent(t, secrets[1..]);
    }
  }

  lemma RedactedStays(input: string, secrets: seq<string>)
    requires forall i :: 0 <= i < |secrets| ==> Lasting(secrets[i])
    ensures Redacted(Redacted(input, secrets), secrets) == Redacted(input, secrets)
  {
    var once := Redacted(input, secrets);
    MarkersAre();
    OneLineBreakless(input);
    SecretsBreakless(OneLine(input), secrets);
    PassesBreakless(MARKERS, WithoutSecrets(OneLine(input), secrets));
    OneLineBreakless(once);
    forall i | 0 <= i < |secrets| && secrets[i] != [] ensures !Occurs(secrets[i], once) {
      NoSecretRemains(input, secrets, i);
    }
    RedactedIsClean(input, secrets);
    hide OneLine, Passes, Clean, Occurs, Lasting;
    SecretsAbsent(once, secrets);
    CleanStays(MARKERS, once);
  }

  /** Nothing but letters of the replacement. */
  predicate Wordlike(t: string) { forall i :: 0 <= i < |t| ==> t[i] in "[REDACTED]" }

  predicate Bracketed(t: string, i: nat)
  {
    exists j :: i <= j < i + 9 && j < |t| && (t[j] == '[' || t[j] == ']')
  }

  /** No nine characters in a row without a bracket. */
  predicate Fenced(t: string) { forall i :: 0 <= i <= |t| - 9 ==> Bracketed(t, i) }

  predicate Built(t: string) { Wordlike(t) && Fenced(t) }

  lemma BracketedPart(t: string, from: nat, to: nat, i: nat)
    requires from <= to <= |t| && i + 9 <= to - from
    ensures Bracketed(t[from..to], i) <==> Bracketed(t, from + i)
  {
    if Bracketed(t, from + i) {
      var j :| from + i <= j < from + i + 9 && (t[j] == '[' || t[j] == ']');
      assert t[from..to][j - from] == t[j];
    }
  }

  lemma FencedAround(a: string, u: string)
    requires Fenced(a) && Fenced(u)
    ensures Fenced(a + Replacement() + u)
  {
    var t, k := a + Replacement() + u, |a|;
    WordInside();
    assert t[k] == '[' && t[k + 9] == ']' && t[0..k] == a && t[k + 10..|t|] == u;
    forall i | 0 <= i <= |t| - 9 ensures Bracketed(t, i) {
      if i + 9 <= k {
        BracketedPart(t, 0, k, i);
      } else if i >= k + 10 {
        BracketedPart(t, k + 10, |t|, i - k - 10);
      }
    }
  }

  lemma BuiltParts(t: string, k: nat, end: nat)
    requires Built(t) && k <= |t| && end <= |t|
    ensures Built(t[..k]) && Built(t[end..])
  {
    assert t[..k] == t[0..k] && t[end..] == t[end..|t|];
    forall i | 0 <= i <= k - 9 ensures Bracketed(t[0..k], i) {
      BracketedPart(t, 0, k, i);
    }
    forall i | 0 <= i <= |t| - end - 9 ensures Bracketed(t[end..|t|], i) {
      assert Bracketed(t, end + i);
      BracketedPart(t, end, |t|, i);
    }
  }

  lemma BuiltAround(a: string, u: string)
    requires Built(a) && Built(u)
    ensures Built(a + Replacement() + u)
  {
    FencedAround(a, u);
    hide Fenced;
  }

  lemma FencedOccurrence(t: string, s: string, k: nat)
    requires Fenced(t) && BracketFree(s) && At(s, t, k)
    ensures |s| < 9
  {
    if |s| >= 9 {
      assert Bracketed(t, k);
      var j :| k <= j < k + 9 && j < |t| && (t[j] == '[' || t[j] == ']');
      NoBracketAt(s, t, k, j);
    }
  }

  /** Replacing a bracket-free secret in such a text makes it longer, unless it does not occur. */
  lemma {:induction false} ReplacedGrows(t: string, s: string)
    requires s != [] && BracketFree(s) && Built(t)
    ensures Built(Replaced(t, s)) && |Replaced(t, s)| >= |t|
    ensures Occurs(s, t) ==> |Replaced(t, s)| > |t|
    ensures Occurs(Replacement(), t) ==> Occurs(Replacement(), Replaced(t, s))
    decreases |t|
  {
    hide Replaced, At, Occurs, Built, Replacement, BracketFree;
    var found := ReplacedUnfolds(t, s);
    if found.None? {
    } else {
      var k := found.value;
      var rest := t[k + |s|..];
      BuiltParts(t, k, k + |s|);
      ReplacedGrows(rest, s);
      BuiltAround(t[..k], Replaced(rest, s));
      assert Fenced(t) by { BuiltFenced(t); }
      FencedOccurrence(t, s, k);
      ReplacementShape();
      ReplacementOccurs(t[..k], Replaced(rest, s));
    }
  }

  lemma ReplacementOccurs(a: string, u: string)
    ensures Occurs(Replacement(), a + Replacement() + u)
  {
    var r := a + Replacement() + u;
    assert r[|a|..|a| + |Replacement()|] == Replacement();
    assert At(Replacement(), r, |a|);
  }

  lemma BuiltFenced(t: string)
    requires Built(t)
    ensures Fenced(t)
  {
  }

  lemma WordOccurs(s: string, t: string)
    requires InsideWord(s) && Occurs(Replacement(), t)
    ensures Occurs(s, t)
  {
    WordInside();
    ReplacementShape();
    hide Replacement;
    var i: nat :| At(s, "REDACTED", i);
    var j: nat :| At(Replacement(), t, j);
    var r := t[j..j + 10];
    assert r[1..9] == "REDACTED";
    AtInPart(s, r, 1, 9, i);
    AtInPart(s, t, j, j + 10, 1 + i);
  }

  /** And so do all of them together, if one of them is part of the word. */
  lemma {:induction false} SecretsGrow(t: string, secrets: seq<string>)
    requires Built(t) && Occurs(Replacement(), t) && forall i :: 0 <= i < |secrets| ==> BracketFree(secrets[i])
    ensures Built(WithoutSecrets(t, secrets)) && Occurs(Replacement(), WithoutSecrets(t, secrets))
    ensures |WithoutSecrets(t, secrets)| >= |t|
    ensures (exists i :: 0 <= i < |secrets| && secrets[i] != [] && InsideWord(secrets[i]))
            ==> |WithoutSecrets(t, secrets)| > |t|
    decreases |secrets|
  {
    hide Replaced, Occurs, Built, Replacement, BracketFree, InsideWord;
    if secrets == [] {
    } else {
      var s, next := secrets[0], WithoutSecret(t, secrets[0]);
      if s != [] { ReplacedGrows(t, s); }
      if s != [] && InsideWord(s) { WordOccurs(s, t); }
      assert forall i :: 0 <= i < |secrets| - 1 ==> secrets[1..][i] == secrets[i + 1];
      SecretsGrow(next, secrets[1..]);
      if i :| 0 < i < |secrets| && secrets[i] != [] && InsideWord(secrets[i]) {
        assert secrets[1..][i - 1] == secrets[i];
      }
    }
  }

  lemma BuiltRedacted(t: string, secrets: seq<string>)
    requires Built(t) && Built(WithoutSecrets(t, secrets))
    ensures Redacted(t, secrets) == WithoutSecrets(t, secrets)
  {
    OneLineBreakless(t);
    MarkersAre();
    hide OneLine, Passes, Clean;
    NoEqualsNoMarker(WithoutSecrets(t, secrets));
    CleanStays(MARKERS, WithoutSecrets(t, secrets));
  }

  lemma ReplacementBuilt()
    ensures Built(Replacement()) && Occurs(Replacement(), Replacement())
  {
    var t := Replacement();
    assert t[0..0 + |t|] == t && At(t, t, 0);
    forall i | 0 <= i <= |t| - 9 ensures Bracketed(t, i) {
      assert t[0] == '[' && t[9] == ']';
    }
  }

  ghost predicate Idempotent(secrets: seq<string>)
  {
    forall input :: Redacted(Redacted(input, secrets), secrets) == Redacted(input, secrets)
  }

  lemma RedactedGrows(secrets: seq<string>, k: nat)
    requires forall i :: 0 <= i < |secrets| ==> BracketFree(secrets[i])
    requires k < |secrets| && secrets[k] != [] && InsideWord(secrets[k])
    ensures var once := Redacted(Replacement(), secrets); Redacted(once, secrets) != once
  {
    ReplacementBuilt();
    hide Built, Occurs, Replacement, BracketFree, InsideWord, Redacted;
    SecretsGrow(Replacement(), secrets);
    var once := WithoutSecrets(Replacement(), secrets);
    BuiltRedacted(Replacement(), secrets);
    SecretsGrow(once, secrets);
    BuiltRedacted(once, secrets);
  }

  /** Redacting twice is redacting once, for every text, if and only if no secret is part of the
      replacement word; the secrets being free of brackets. */
  lemma RedactedTwice(secrets: seq<string>)
    requires forall i :: 0 <= i < |secrets| ==> BracketFree(secrets[i])
    ensures Idempotent(secrets) <==> forall i :: 0 <= i < |secrets| && secrets[i] != [] ==> !InsideWord(secrets[i])
  {
    hide Redacted, InsideWord, BracketFree;
    if forall i :: 0 <= i < |secrets| && secrets[i] != [] ==> !InsideWord(secrets[i]) {
      forall i | 0 <= i < |secrets| ensures Lasting(secrets[i]) {
        if secrets[i] != [] { BracketFreeLasting(secrets[i]); }
      }
      forall input ensures Redacted(Redacted(input, secrets), secrets) == Redacted(input, secrets) {
        RedactedStays(input, secrets);
      }
    } else {
      var k :| 0 <= k < |secrets| && secrets[k] != [] && InsideWord(secrets[k]);
      RedactedGrows(secrets, k);
    }
  }

  /** Such as "E": the secret is replaced, and redacting the replacement changes it. */
  lemma WordPartReturns(s: string)
    requires s != [] && InsideWord(s)
    ensures Redacted(s, [s]) == Replacement() && Redacted(Replacement(), [s]) != Replacement()
  {
    WordPartBuilt(s);
    ReplacementBuilt();
    ReplacedWhole(s);
    hide Replacement, Built, Occurs, At, Redacted, BracketFree, InsideWord, WithoutSecrets;
    BuiltRedacted(s, [s]);
    SecretsGrow(Replacement(), [s]);
    BuiltRedacted(Replacement(), [s]);
  }

  lemma WordPartBuilt(s: string)
    requires InsideWord(s)
    ensures Built(s) && BracketFree(s)
  {
    var i: nat :| At(s, "REDACTED", i);
    forall j | 0 <= j < |s| ensures s[j] == "REDACTED"[i + j] {
      assert s[j] == "REDACTED"[i..i + |s|][j];
    }
  }

  lemma ReplacedWhole(s: string)
    requires s != []
    ensures WithoutSecrets(s, [s]) == Replacement()
  {
    hide Replacement;
    assert s[|s|..] == [] && [s][1..] == [];
    assert Replaced(s, s) == Replacement() + Replaced(s[|s|..], s);
    assert Replacement() + [] == Replacement();
  }

  // ---- a value leaves no trace ----

  /** The secret contains no equals sign and no separator. */
  predicate Apart(s: string) { forall i :: 0 <= i < |s| ==> s[i] != '=' && !Separator(s[i]) }

  predicate EndsInEquals(a: string) { a != [] && a[|a| - 1] == '=' }

  /** No occurrence lies across the seam of two texts. */
  ghost predicate Seamless(x: string, y: string, s: string)
  {
    forall i: nat :: i < |x| < i + |s| ==> !At(s, x + y, i)
  }

  lemma {:induction false} ReplacedSplits(x: string, y: string, s: string)
    requires s != [] && Seamless(x, y, s)
    ensures Replaced(x + y, s) == Replaced(x, s) + Replaced(y, s)
    decreases |x|
  {
    hide Replacement, Seamless, Replaced;
    if x == [] {
      assert x + y == y;
      NothingThere(s);
    } else {
      var k := Taken(x, s);
      PrefixSplits(x, y, s);
      SeamlessLater(x, y, s, k);
      ReplacedSplits(x[k..], y, s);
      assert (x + y)[k..] == x[k..] + y;
      ReplacedOnce(x, s);
      ReplacedOnce(x + y, s);
      assert Given(x + y, s) == Given(x, s);
      Associate(Given(x, s), Replaced(x[k..], s), Replaced(y, s));
    }
  }

  /** What one step of the replacement takes from the front, and what it gives for it. */
  function Taken(x: string, s: string): nat { if s <= x then |s| else 1 }

  function Given(x: string, s: string): string
    requires x != []
  {
    if s <= x then Replacement() else [x[0]]
  }

  lemma ReplacedOnce(x: string, s: string)
    requires x != [] && s != []
    ensures Taken(x, s) <= |x| && Replaced(x, s) == Given(x, s) + Replaced(x[Taken(x, s)..], s)
  {
  }

  lemma PrefixSplits(x: string, y: string, s: string)
    requires x != [] && s != [] && Seamless(x, y, s)
    ensures s <= x + y <==> s <= x
  {
    if s <= x {
      assert (x + y)[..|s|] == x[..|s|];
    }
    if s <= x + y {
      assert (x + y)[0..0 + |s|] == s;
      assert At(s, x + y, 0);
      assert (x + y)[..|s|] == x[..|s|];
    }
  }

  lemma SeamlessLater(x: string, y: string, s: string, k: nat)
    requires k <= |x| && Seamless(x, y, s)
    ensures Seamless(x[k..], y, s)
  {
    var t := x + y;
    assert t[k..|t|] == x[k..] + y;
    forall i: nat | i < |x[k..]| < i + |s| ensures !At(s, x[k..] + y, i) {
      if i + |s| <= |t| - k { AtInPart(s, t, k, |t|, i); }
    }
  }

  lemma EqualsIsSeam(x: string, y: string, s: string)
    requires Apart(s) && EndsInEquals(x)
    ensures Seamless(x, y, s)
  {
    var t := x + y;
    forall i: nat | i < |x| < i + |s| ensures !At(s, t, i) {
      if i + |s| <= |t| { assert t[i..i + |s|][|x| - 1 - i] == t[|x| - 1] == '='; }
    }
  }

  lemma SeparatorIsSeam(x: string, y: string, s: string)
    requires Apart(s) && Closed(y)
    ensures Seamless(x, y, s)
  {
    var t := x + y;
    forall i: nat | i < |x| < i + |s| ensures !At(s, t, i) {
      if i + |s| <= |t| { assert t[i..i + |s|][|x| - i] == t[|x|] == y[0]; }
    }
  }

  lemma ApartNotWhole(x: string, s: string)
    requires Apart(s) && EndsInEquals(x) && s <= x
    ensures |s| < |x|
  {
    assert s == x[..|s|];
  }

  lemma {:induction false} KeepsEquals(x: string, s: string)
    requires s != [] && Apart(s) && EndsInEquals(x)
    ensures EndsInEquals(Replaced(x, s))
    decreases |x|
  {
    hide Replacement, Apart;
    if s <= x {
      ApartNotWhole(x, s);
      KeepsEquals(x[|s|..], s);
    } else if |x| > 1 {
      KeepsEquals(x[1..], s);
    } else {
      assert x[1..] == [];
    }
  }

  lemma KeepsClosed(y: string, s: string)
    requires s != [] && Apart(s) && Closed(y)
    ensures Closed(Replaced(y, s))
  {
    assert y != [] ==> s[0] != y[0];
  }

  lemma {:induction false} KeepsPlain(v: string, s: string)
    requires s != [] && Plain(v)
    ensures Plain(Replaced(v, s))
    decreases |v|
  {
    hide Replaced, Replacement, At, Occurs;
    var found := ReplacedUnfolds(v, s);
    if found.None? {
    } else {
      ReplacementShape();
      KeepsPlain(v[found.value + |s|..], s);
    }
  }

  /** Replacing such secrets treats the text before a value, the value and the text behind it
      separately. */
  lemma {:induction false} SecretsSplit(a: string, v: string, b: string, secrets: seq<string>)
    requires EndsInEquals(a) && Plain(v) && Closed(b) && forall i :: 0 <= i < |secrets| ==> Apart(secrets[i])
    ensures WithoutSecrets(a + v + b, secrets)
            == WithoutSecrets(a, secrets) + WithoutSecrets(v, secrets) + WithoutSecrets(b, secrets)
    ensures Plain(WithoutSecrets(v, secrets)) && Closed(WithoutSecrets(b, secrets))
    decreases |secrets|
  {
    hide Replaced, Apart, EndsInEquals, Plain, Closed, Seamless;
    if secrets == [] {
    } else {
      var s := secrets[0];
      assert forall i :: 0 <= i < |secrets| - 1 ==> secrets[1..][i] == secrets[i + 1];
      if s != [] {
        SeparatorIsSeam(a + v, b, s);
        ReplacedSplits(a + v, b, s);
        EqualsIsSeam(a, v, s);
        ReplacedSplits(a, v, s);
        KeepsEquals(a, s);
        KeepsPlain(v, s);
        KeepsClosed(b, s);
      }
      SecretsSplit(WithoutSecret(a, s), WithoutSecret(v, s), WithoutSecret(b, s), secrets[1..]);
    }
  }

  lemma MarkerEndsInEquals(m: string, a: string)
    requires m in MARKERS && EndsWith(m, a)
    ensures EndsInEquals(OneLine(a))
  {
    MarkersAre();
    assert Lower(a[|a| - 1]) == '=' by { Inside(m, a, |a| - |m|, |a| - 1); }
  }

  /** The value behind a marker, up to a separator or the end, has no influence on the redacted
      text, whatever it contains and whatever stands around it: for any secrets without equals
      signs and separators, as long as they leave the marker open. */
  lemma ValueLeavesNoTrace(m: string, a: string, v: string, w: string, b: string, secrets: seq<string>)
    requires m in MARKERS && EndsWith(m, a) && Plain(v) && Plain(w) && Closed(OneLine(b))
    requires Breakless(v) && Breakless(w)
    requires forall k :: 0 <= k < |secrets| ==> Apart(secrets[k])
    requires Open(m, WithoutSecrets(OneLine(a), secrets))
    ensures Redacted(a + v + b, secrets) == Redacted(a + w + b, secrets)
  {
    MarkerEndsInEquals(m, a);
    hide OneLine, Passes, EndsWith, Open, Plain, Closed, Apart, WithoutSecrets, EndsInEquals, Breakless;
    LinesAround(a, v, b);
    LinesAround(a, w, b);
    var x, z := OneLine(a), OneLine(b);
    SecretsSplit(x, v, z, secrets);
    SecretsSplit(x, w, z, secrets);
    OpenValueForgotten(m, WithoutSecrets(x, secrets), WithoutSecrets(v, secrets), WithoutSecrets(w, secrets),
                       WithoutSecrets(z, secrets));
  }

  lemma LinesAround(a: string, v: string, b: string)
    requires Breakless(v)
    ensures OneLine(a + v + b) == OneLine(a) + v + OneLine(b)
  {
    OneLineBreakless(v);
    OneLineAppend(a, v, b);
  }

  /** Without secrets the marker is open where it stands. */
  lemma OpenWithoutSecrets(m: string, a: string)
    requires m in MARKERS && EndsWith(m, a)
    ensures Open(m, WithoutSecrets(OneLine(a), []))
  {
    MarkersAre();
    OneLineEnds(m, a);
    var t := OneLine(a);
    assert MatchAt(m, t, |t| - |m|) && Plain(t[|t| - |m| + |m|..]);
  }

  /** So without secrets the value behind any marker leaves no trace. */
  lemma ValueAloneLeavesNoTrace(m: string, a: string, v: string, w: string, b: string)
    requires m in MARKERS && EndsWith(m, a) && Plain(v) && Plain(w) && Closed(OneLine(b))
    requires Breakless(v) && Breakless(w)
    ensures Redacted(a + v + b, []) == Redacted(a + w + b, [])
  {
    OpenWithoutSecrets(m, a);
    ValueLeavesNoTrace(m, a, v, w, b, []);
  }
}
