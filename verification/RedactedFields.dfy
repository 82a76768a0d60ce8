/** Redaction in characters: which fields are cut, where a value ends, and what is kept. */
module RedactedFields {
  import opened Prelude
  import opened Redaction
  import opened RedactedText
  import opened RedactedSecrets

  function Fields(): seq<string> { ["?code=", "&code=", "?token=", "&token=", "signature="] }

  /** The character, or the capital of a small letter. */
  predicate InAnyCase(c: char, small: char)
  {
    c == small || ('a' <= small <= 'z' && c as int == small as int - 32)
  }

  /** The field in any mixture of cases. */
  predicate Spelled(f: string, field: string)
  {
    |f| == |field| && forall j :: 0 <= j < |f| ==> InAnyCase(f[j], field[j])
  }

  /** Characters that neither end a value nor break a line. */
  predicate InValue(v: string)
  {
    forall i :: 0 <= i < |v| ==> v[i] != '&' && v[i] != ' ' && v[i] != '"' && v[i] != '\r' && v[i] != '\n'
  }

  lemma SpellingsAgree(f: string, field: string)
    requires field in Fields()
    ensures Spelled(f, field) <==> Spells(field, f)
  {
    assert forall j :: 0 <= j < |field| ==> field[j] in "?&=" || 'a' <= field[j] <= 'z';
  }

  lemma FieldsAreMarkers()
    ensures Fields() == MARKERS
  {
  }

  /** A field ends in the only equals sign of its text. */
  lemma OnlyEquals(m: string, t: string, k: nat, i: nat)
    requires Marker(m) && k > 0 && MatchAt(m, t, i)
    requires forall j :: 0 <= j < |t| && t[j] == '=' ==> j == k - 1
    ensures i + |m| == k
  {
    var s := t[i..i + |m|];
    assert Lower(s[|m| - 1]) == '=' && s[|m| - 1] == t[i + |m| - 1];
  }

  /** A value behind a field, in whatever case, is cut up to the first ampersand, space or quote,
      or the end, and nothing else is. */
  lemma ValueCut(field: string, f: string, v: string, q: string)
    requires field in Fields() && Spelled(f, field) && InValue(v) && q in ["", "&", " ", "\""]
    ensures Redacted(f + v + q, []) == f + "[REDACTED]" + q
  {
    FieldsAreMarkers();
    MarkersAre();
    SpellingsAgree(f, field);
    FieldCharacters(field, f);
    assert f[0..0 + |field|] == f && f[|field|..] == "";
    assert Open(field, f) by { assert MatchAt(field, f, 0) && Plain(f[0 + |field|..]); }
    var r := "[REDACTED]";
    var t := f + r + q;
    ReplacementIs();
    hide Replacement, Passes, OneLine, MatchAt, Open, Spells;
    OneLineBreakless(f + v + q);
    NoSecrets(f + v + q);
    OpenValueForgotten(field, f, v, r, q);
    forall k | 0 <= k < |MARKERS| ensures Clean(MARKERS[k], t) { FieldClean(MARKERS[k], f, q); }
    CleanStays(MARKERS, t);
  }

  lemma ReplacementIs()
    ensures Replacement() == "[REDACTED]" && Plain("[REDACTED]")
  {
  }

  /** A spelling of a field is on one line and has its equals sign at its end. */
  lemma FieldCharacters(field: string, f: string)
    requires field in Fields() && Spelled(f, field)
    ensures f != [] && f[|f| - 1] == '=' && forall j :: 0 <= j < |f| - 1 ==> f[j] != '='
    ensures Breakless(f)
  {
    assert forall j :: 0 <= j < |field| ==> field[j] in "?&=" || 'a' <= field[j] <= 'z';
    assert forall j :: 0 <= j < |field| - 1 ==> field[j] != '=';
  }

  lemma FieldClean(m: string, f: string, q: string)
    requires Marker(m) && f != [] && f[|f| - 1] == '=' && forall j :: 0 <= j < |f| - 1 ==> f[j] != '='
    requires q in ["", "&", " ", "\""]
    ensures Clean(m, f + "[REDACTED]" + q)
  {
    var r := "[REDACTED]";
    var t := f + r + q;
    ReplacementIs();
    assert forall j :: 0 <= j < |r| ==> r[j] != '=';
    hide Replacement, Marker;
    assert forall j :: 0 <= j < |r + q| ==> (r + q)[j] != '=';
    assert forall j :: |f| <= j < |t| ==> t[j] == (r + q)[j - |f|];
    assert t[|f|..|f| + 10] == r;
    assert q != [] ==> t[|f| + 10] == q[0];
    forall i: nat | MatchAt(m, t, i) ensures ReplacedAt(t, i + |m|) { OnlyEquals(m, t, |f|, i); }
  }

  /** Line breaks as spaces. */
  function Unbroken(s: string): string
  {
    seq(|s|, i requires 0 <= i < |s| => if s[i] == '\r' || s[i] == '\n' then ' ' else s[i])
  }

  /** A field stands at position i. */
  predicate FieldAt(field: string, s: string, i: nat) { i + |field| <= |s| && Spelled(s[i..i + |field|], field) }

  /** A text without fields is kept, but for its line breaks. */
  lemma OtherTextKept(s: string)
    requires forall k, i: nat :: 0 <= k < |Fields()| ==> !FieldAt(Fields()[k], Unbroken(s), i)
    ensures Redacted(s, []) == Unbroken(s)
  {
    FieldsAreMarkers();
    MarkersAre();
    assert OneLine(s) == Unbroken(s);
    NoSecrets(Unbroken(s));
    hide Passes, OneLine, Unbroken, Spells, Spelled;
    forall k | 0 <= k < |MARKERS| ensures Clean(MARKERS[k], Unbroken(s)) {
      forall i: nat ensures !MatchAt(MARKERS[k], Unbroken(s), i) {
        assert !FieldAt(Fields()[k], Unbroken(s), i);
        if i + |MARKERS[k]| <= |Unbroken(s)| {
          SpellingsAgree(Unbroken(s)[i..i + |MARKERS[k]|], MARKERS[k]);
        }
      }
    }
    CleanStays(MARKERS, Unbroken(s));
  }
}
