/** Redaction of log text: values of credential fields are cut out up to the next separator. */
module Redaction {
  import opened Prelude

  function Replacement(): string { "[REDACTED]" }

  const MARKERS := ["?code=", "&code=", "?token=", "&token=", "signature="]

  function Lower(c: char): char
  {
    if 'A' <= c <= 'Z' then (c as int + 32) as char else c
  }

  /** Where a value ends. */
  predicate Separator(c: char) { c == '&' || c == ' ' || c == '"' }

  /** The text is the lower-case marker in any mixture of cases. */
  predicate Spells(marker: string, text: string)
  {
    |marker| == |text| && forall j :: 0 <= j < |marker| ==> Lower(text[j]) == marker[j]
  }

  predicate MatchAt(marker: string, s: string, i: nat)
  {
    i + |marker| <= |s| && Spells(marker, s[i..i + |marker|])
  }

  function FindFrom(marker: string, s: string, i: nat): (r: Option<nat>)
    requires i <= |s| && marker != []
    ensures r.Some? ==> r.value >= i && MatchAt(marker, s, r.value)
    ensures r.Some? ==> forall j :: i <= j < r.value ==> !MatchAt(marker, s, j)
    ensures r.None? ==> forall j :: i <= j ==> !MatchAt(marker, s, j)
    decreases |s| - i
  {
    if MatchAt(marker, s, i) then Some(i) else if i == |s| then None else FindFrom(marker, s, i + 1)
  }

  /** The first separator from `at` on, or the end of the text. */
  function ValueEnd(s: string, at: nat): (end: nat)
    requires at <= |s|
    ensures at <= end <= |s| && (end < |s| ==> Separator(s[end]))
    ensures forall i :: at <= i < end ==> !Separator(s[i])
    decreases |s| - at
  {
    if at == |s| || Separator(s[at]) then at else ValueEnd(s, at + 1)
  }

  /** The text with every value of one marker replaced. */
  function Pass(marker: string, s: string): string
    requires marker != []
    decreases |s|
  {
    match FindFrom(marker, s, 0)
    case None => s
    case Some(start) =>
      var from := start + |marker|;
      s[..from] + Replacement() + Pass(marker, s[ValueEnd(s, from)..])
  }

  function Passes(markers: seq<string>, s: string): string
    requires forall i :: 0 <= i < |markers| ==> markers[i] != []
  {
    if markers == [] then s else Passes(markers[1..], Pass(markers[0], s))
  }

  /** One character replaced by a space throughout. */
  function Blanked(c: char, s: string): string { seq(|s|, i requires 0 <= i < |s| => if s[i] == c then ' ' else s[i]) }

  function OneLine(s: string): string { Blanked('\n', Blanked('\r', s)) }

  /** Every occurrence of a secret replaced, from left to right. */
  function Replaced(s: string, secret: string): string
    requires secret != []
  {
    if s == [] then []
    else if secret <= s then Replacement() + Replaced(s[|secret|..], secret)
    else [s[0]] + Replaced(s[1..], secret)
  }

  /** Secrets taken from the environment; empty ones are skipped. */
  function WithoutSecrets(s: string, secrets: seq<string>): string
    decreases |secrets|
  {
    if secrets == [] then s
    else WithoutSecrets(if secrets[0] == [] then s else Replaced(s, secrets[0]), secrets[1..])
  }

  lemma MarkersNonEmpty()
    ensures forall i :: 0 <= i < |MARKERS| ==> MARKERS[i] != []
  {
  }

  function Redacted(input: string, secrets: seq<string>): string
  {
    MarkersNonEmpty();
    Passes(MARKERS, WithoutSecrets(OneLine(input), secrets))
  }

  lemma PassUnfolds(marker: string, s: string)
    requires marker != []
    ensures match FindFrom(marker, s, 0)
            case None => Pass(marker, s) == s
            case Some(start) =>
              var from := start + |marker|;
              Pass(marker, s) == s[..from] + Replacement() + Pass(marker, s[ValueEnd(s, from)..])
  {
  }

  /** What lies before the cursor is final. */
  ghost predicate Progress(marker: string, input: string, value: string, cursor: nat)
    requires marker != [] && cursor <= |value|
  {
    value[..cursor] + Pass(marker, value[cursor..]) == Pass(marker, input)
  }

  lemma ProgressStep(marker: string, input: string, value: string, cursor: nat, from: nat, end: nat, edited: string)
    requires marker != [] && cursor <= |value| && Progress(marker, input, value, cursor)
    requires from <= end <= |value[cursor..]|
    requires edited == value[..cursor + from] + Replacement() + value[cursor + end..]
    requires Pass(marker, value[cursor..])
             == value[cursor..][..from] + Replacement() + Pass(marker, value[cursor..][end..])
    ensures cursor + from + |Replacement()| <= |edited|
    ensures Progress(marker, input, edited, cursor + from + |Replacement()|)
  {
    hide Replacement, Pass;
    var kept, next := value[cursor..][..from], cursor + from + |Replacement()|;
    assert value[..cursor + from] == value[..cursor] + kept;
    assert edited[next..] == value[cursor..][end..];
    var after := Pass(marker, edited[next..]);
    Associate(value[..cursor], kept, Replacement());
    Associate(value[..cursor], kept + Replacement(), after);
  }

  /** One marker's loop: it edits the text in place and moves a cursor behind each edit. */
  method RedactMarker(input: string, marker: string) returns (value: string)
    requires marker != []
    ensures value == Pass(marker, input)
  {
    hide Progress, Pass, FindFrom, ValueEnd, MatchAt, Replacement;
    value := input;
    var cursor := 0;
    Started(marker, input);
    while true
      invariant 0 <= cursor <= |value|
      invariant Progress(marker, input, value, cursor)
      decreases |value| - cursor
    {
      var rest := value[cursor..];
      PassUnfolds(marker, rest);
      var relative := FindFrom(marker, rest, 0);
      if relative.None? {
        Finished(marker, input, value, cursor);
        return;
      }
      var from := relative.value + |marker|;
      var end := ValueEnd(rest, from);
      var edited := value[..cursor + from] + Replacement() + value[cursor + end..];
      ProgressStep(marker, input, value, cursor, from, end, edited);
      value := edited;
      cursor := cursor + from + |Replacement()|;
    }
  }

  lemma Started(marker: string, input: string)
    requires marker != []
    ensures Progress(marker, input, input, 0)
  {
    assert input[0..] == input;
  }

  lemma Finished(marker: string, input: string, value: string, cursor: nat)
    requires marker != [] && cursor <= |value| && Progress(marker, input, value, cursor)
    requires Pass(marker, value[cursor..]) == value[cursor..]
    ensures value == Pass(marker, input)
  {
    assert value[..cursor] + value[cursor..] == value;
  }

  method Redact(input: string, secrets: seq<string>) returns (value: string)
    ensures value == Redacted(input, secrets)
  {
    value := OneLine(input);
    for i := 0 to |secrets|
      invariant WithoutSecrets(value, secrets[i..]) == WithoutSecrets(OneLine(input), secrets)
    {
      assert secrets[i..][1..] == secrets[i + 1..];
      if secrets[i] != [] { value := Replaced(value, secrets[i]); }
    }
    MarkersNonEmpty();
    for i := 0 to |MARKERS|
      invariant Passes(MARKERS[i..], value) == Redacted(input, secrets)
    {
      assert MARKERS[i..][1..] == MARKERS[i + 1..];
      value := RedactMarker(value, MARKERS[i]);
    }
  }
}
