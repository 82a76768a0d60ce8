/** What the evaluator accepts: exactly the spellings of expressions, with their values; and
    what extraction makes of a set of constants. */
module ConstantMeaning {
  import opened Prelude
  import opened ConstantExpressions

  // ---- accepted tokens are printed expressions ----

  predicate Atomic(e: Expr) { !e.Binary? }

  predicate Product(e: Expr) { Atomic(e) || Precedence(e.op) == 1 }

  /** `e` is printed between two positions, and is worth `value`. */
  predicate Spans(e: Expr, tokens: seq<Token>, from: nat, to: nat, resolve: string -> Outcome, value: Numeral)
  {
    from <= to <= |tokens| && Print(e, 0) == tokens[from..to] && Value(e, resolve) == Ok(value)
  }

  lemma SameAtLevels(e: Expr)
    ensures Atomic(e) ==> Print(e, 2) == Print(e, 0)
    ensures Product(e) ==> Print(e, 1) == Print(e, 0)
  {
  }

  lemma Cut(tokens: seq<Token>, a: nat, b: nat, c: nat)
    requires a <= b <= c <= |tokens|
    ensures tokens[a..c] == tokens[a..b] + tokens[b..c]
  {
  }

  lemma CutOne(tokens: seq<Token>, a: nat, b: nat)
    requires a < b <= |tokens|
    ensures tokens[a..b] == [tokens[a]] + tokens[a + 1..b]
  {
  }

  lemma SpansOperation(tokens: seq<Token>, from: nat, middle: nat, to: nat, left: Expr, right: Expr, a: Numeral,
                       b: Numeral, resolve: string -> Outcome)
    returns (e: Expr)
    requires Spans(left, tokens, from, middle, resolve, a) && middle < |tokens| && tokens[middle].Sign?
    requires Spans(right, tokens, middle + 1, to, resolve, b)
    requires if Precedence(tokens[middle].op) == 1 then Product(left) && Atomic(right) else Product(right)
    ensures e == Binary(tokens[middle].op, left, right)
    ensures Spans(e, tokens, from, to, resolve, Apply(tokens[middle].op, a, b))
  {
    var op := tokens[middle].op;
    e := Binary(op, left, right);
    SameAtLevels(left);
    SameAtLevels(right);
    assert Print(e, 0) == Print(left, 0) + [Sign(op)] + Print(right, 0);
    hide Print;
    Cut(tokens, from, middle, to);
    CutOne(tokens, middle, to);
    Associate(tokens[from..middle], [Sign(op)], tokens[middle + 1..to]);
  }

  lemma {:induction false} PrimaryRead(tokens: seq<Token>, at: nat, resolve: string -> Outcome) returns (e: Expr)
    requires at <= |tokens| && ParsePrimary(tokens, at, resolve).Ok?
    ensures var parsed := ParsePrimary(tokens, at, resolve).value;
            Atomic(e) && Spans(e, tokens, at, parsed.1, resolve, parsed.0)
    decreases |tokens| - at, 0
  {
    hide ParseSum, ParseProduct, ParseTerms, ParseFactors;
    match tokens[at]
    case Number(n) =>
      e := Literal(n);
      CutOne(tokens, at, at + 1);
    case Name(name) =>
      e := Reference(name);
      CutOne(tokens, at, at + 1);
    case Sign(Minus) =>
      var operand := PrimaryRead(tokens, at + 1, resolve);
      e := Negated(operand);
      SameAtLevels(operand);
      CutOne(tokens, at, ParsePrimary(tokens, at, resolve).value.1);
    case Open =>
      var inner := SumRead(tokens, at + 1, resolve);
      e := Group(inner);
      var end := ParseSum(tokens, at + 1, resolve).value.1;
      Cut(tokens, at, end, end + 1);
      CutOne(tokens, at, end);
      CutOne(tokens, end, end + 1);
  }

  lemma {:induction false} FactorsRead(tokens: seq<Token>, from: nat, at: nat, left: Expr, value: Numeral,
                                       resolve: string -> Outcome) returns (e: Expr)
    requires Product(left) && Spans(left, tokens, from, at, resolve, value)
    requires ParseFactors(tokens, value, at, resolve).Ok?
    ensures var parsed := ParseFactors(tokens, value, at, resolve).value;
            Product(e) && Spans(e, tokens, from, parsed.1, resolve, parsed.0)
    decreases |tokens| - at, 1
  {
    hide ParsePrimary, Print, Value;
    e := left;
    if !SignAt(tokens, at, 1) {
    } else {
      var operand := ParsePrimary(tokens, at + 1, resolve).value;
      var right := PrimaryRead(tokens, at + 1, resolve);
      e := SpansOperation(tokens, from, at, operand.1, left, right, value, operand.0, resolve);
      e := FactorsRead(tokens, from, operand.1, e, Apply(tokens[at].op, value, operand.0), resolve);
    }
  }

  lemma {:induction false} ProductRead(tokens: seq<Token>, at: nat, resolve: string -> Outcome) returns (e: Expr)
    requires at <= |tokens| && ParseProduct(tokens, at, resolve).Ok?
    ensures var parsed := ParseProduct(tokens, at, resolve).value;
            Product(e) && Spans(e, tokens, at, parsed.1, resolve, parsed.0)
    decreases |tokens| - at, 2
  {
    hide ParsePrimary, ParseFactors, Print, Value;
    var first := ParsePrimary(tokens, at, resolve).value;
    e := PrimaryRead(tokens, at, resolve);
    e := FactorsRead(tokens, at, first.1, e, first.0, resolve);
  }

  lemma {:induction false} TermsRead(tokens: seq<Token>, from: nat, at: nat, left: Expr, value: Numeral,
                                     resolve: string -> Outcome) returns (e: Expr)
    requires Spans(left, tokens, from, at, resolve, value)
    requires ParseTerms(tokens, value, at, resolve).Ok?
    ensures var parsed := ParseTerms(tokens, value, at, resolve).value;
            Spans(e, tokens, from, parsed.1, resolve, parsed.0)
    decreases |tokens| - at, 3
  {
    hide ParseProduct, Print, Value;
    e := left;
    if !SignAt(tokens, at, 0) {
    } else {
      var operand := ParseProduct(tokens, at + 1, resolve).value;
      var right := ProductRead(tokens, at + 1, resolve);
      e := SpansOperation(tokens, from, at, operand.1, left, right, value, operand.0, resolve);
      e := TermsRead(tokens, from, operand.1, e, Apply(tokens[at].op, value, operand.0), resolve);
    }
  }

  lemma {:induction false} SumRead(tokens: seq<Token>, at: nat, resolve: string -> Outcome) returns (e: Expr)
    requires at <= |tokens| && ParseSum(tokens, at, resolve).Ok?
    ensures var parsed := ParseSum(tokens, at, resolve).value;
            Spans(e, tokens, at, parsed.1, resolve, parsed.0)
    decreases |tokens| - at, 4
  {
    hide ParseProduct, ParseTerms, Print, Value;
    var first := ParseProduct(tokens, at, resolve).value;
    e := ProductRead(tokens, at, resolve);
    e := TermsRead(tokens, at, first.1, e, first.0, resolve);
  }

  /** The evaluator accepts exactly the printed forms of expressions that have a value. */
  lemma AcceptsExpressions(tokens: seq<Token>, resolve: string -> Outcome, value: Numeral)
    ensures EvaluateTokens(tokens, resolve) == Ok(value)
            <==> exists e :: Print(e, 0) == tokens && Value(e, resolve) == Ok(value)
  {
    if EvaluateTokens(tokens, resolve) == Ok(value) {
      var e := SumRead(tokens, 0, resolve);
      assert tokens[0..|tokens|] == tokens;
      assert Print(e, 0) == tokens && Value(e, resolve) == Ok(value);
    }
    if e :| Print(e, 0) == tokens && Value(e, resolve) == Ok(value) {
      PrintedEvaluates(e, resolve);
    }
  }

  // ---- accepted texts are spellings of tokens ----

  /** A token as written: spaces before it, then its text. */
  datatype Piece = Piece(gap: string, text: string, token: Token)

  predicate AllOf(p: char -> bool, s: string) { forall i :: 0 <= i < |s| ==> p(s[i]) }

  /** Digits may be grouped by underscores; a name and a symbol are written as they are. */
  predicate Writes(text: string, token: Token)
  {
    match token
    case Number(n) => |text| > 0 && IsDigit(text[0]) && AllOf(InNumber, text) && NumberOf(text) == n
    case Name(name) => |text| > 0 && IsUpper(text[0]) && AllOf(InName, text) && text == name
    case _ => |text| == 1 && SymbolFor(text[0]) == Some(token)
  }

  /** The text behind a token would be read as part of it. */
  predicate Glued(token: Token, rest: string)
  {
    |rest| > 0 && match token case Number(_) => InNumber(rest[0]) case Name(_) => InName(rest[0]) case _ => false
  }

  function Text(pieces: seq<Piece>): string
  {
    if pieces == [] then [] else pieces[0].gap + pieces[0].text + Text(pieces[1..])
  }

  function Tokens(pieces: seq<Piece>): seq<Token>
  {
    if pieces == [] then [] else [pieces[0].token] + Tokens(pieces[1..])
  }

  predicate WellSpelled(pieces: seq<Piece>)
  {
    pieces == [] || (AllOf(IsSpace, pieces[0].gap) && Writes(pieces[0].text, pieces[0].token)
                     && !Glued(pieces[0].token, Text(pieces[1..])) && WellSpelled(pieces[1..]))
  }

  lemma RunStops(p: char -> bool, a: string, b: string)
    requires AllOf(p, a) && (b == [] || !p(b[0]))
    ensures Run(p, a + b) == |a|
  {
    assert forall i :: 0 <= i < |a| ==> (a + b)[i] == a[i];
    assert b != [] ==> (a + b)[|a|] == b[0];
  }

  lemma TokenAtSpelled(piece: Piece, rest: string)
    requires AllOf(IsSpace, piece.gap) && Writes(piece.text, piece.token) && !Glued(piece.token, rest)
    ensures TokenAt(piece.gap + piece.text + rest) == Some((piece.token, |piece.gap| + |piece.text|))
  {
    var s := piece.gap + piece.text + rest;
    Associate(piece.gap, piece.text, rest);
    RunStops(IsSpace, piece.gap, piece.text + rest);
    assert s[|piece.gap|] == piece.text[0] && s[|piece.gap|..] == piece.text + rest;
    assert (piece.text + rest)[..|piece.text|] == piece.text;
    if piece.token.Number? {
      RunStops(InNumber, piece.text, rest);
    } else if piece.token.Name? {
      RunStops(InName, piece.text, rest);
    }
  }

  lemma TokenAtRead(s: string) returns (piece: Piece)
    requires TokenAt(s).Some?
    ensures var found := TokenAt(s).value;
            && piece.token == found.0 && s == piece.gap + piece.text + s[found.1..]
            && |piece.gap| + |piece.text| == found.1
            && AllOf(IsSpace, piece.gap) && Writes(piece.text, piece.token) && !Glued(piece.token, s[found.1..])
  {
    var found := TokenAt(s).value;
    var gap := Run(IsSpace, s);
    piece := Piece(s[..gap], s[gap..found.1], found.0);
    assert s[gap..][..found.1 - gap] == s[gap..found.1];
    assert found.1 < |s| ==> s[gap..][found.1 - gap] == s[found.1];
  }

  lemma {:induction false} SpelledTokenizes(pieces: seq<Piece>)
    requires WellSpelled(pieces)
    ensures Tokenize(Text(pieces)) == Ok(Tokens(pieces))
  {
    if pieces == [] {
    } else {
      var first, rest := pieces[0], Text(pieces[1..]);
      TokenAtSpelled(first, rest);
      assert Text(pieces)[|first.gap| + |first.text|..] == rest;
      hide TokenAt, Writes, Glued;
      SpelledTokenizes(pieces[1..]);
    }
  }

  lemma {:induction false} TokenizedIsSpelled(s: string) returns (pieces: seq<Piece>)
    requires Tokenize(s).Ok?
    ensures WellSpelled(pieces) && Text(pieces) == s && Tokens(pieces) == Tokenize(s).value
  {
    if s == [] {
      pieces := [];
    } else {
      var piece := TokenAtRead(s);
      hide TokenAt, Writes, Glued;
      var rest := TokenizedIsSpelled(s[TokenAt(s).value.1..]);
      pieces := [piece] + rest;
      assert pieces[1..] == rest;
    }
  }

  /** The tokenizer accepts exactly the spellings of its tokens, however they are spaced and
      however digits are grouped. */
  lemma TokenizesSpellings(s: string, tokens: seq<Token>)
    ensures Tokenize(s) == Ok(tokens)
            <==> exists pieces :: WellSpelled(pieces) && Text(pieces) == s && Tokens(pieces) == tokens
  {
    if Tokenize(s) == Ok(tokens) {
      var pieces := TokenizedIsSpelled(s);
      assert WellSpelled(pieces) && Text(pieces) == s && Tokens(pieces) == tokens;
    }
    if pieces :| WellSpelled(pieces) && Text(pieces) == s && Tokens(pieces) == tokens {
      SpelledTokenizes(pieces);
    }
  }

  /** From text to value: evaluation succeeds exactly on the spellings of expressions that have
      a value, and returns that value. */
  lemma EvaluatesSpellings(s: string, resolve: string -> Outcome, value: Numeral)
    ensures Evaluate(s, resolve) == Ok(value)
            <==> exists pieces, e :: WellSpelled(pieces) && Text(pieces) == s && Tokens(pieces) == Print(e, 0)
                                     && Value(e, resolve) == Ok(value)
  {
    hide Tokenize, EvaluateTokens, WellSpelled, Text, Tokens, Print, Value;
    if Evaluate(s, resolve) == Ok(value) {
      var tokens := Tokenize(s).value;
      TokenizesSpellings(s, tokens);
      AcceptsExpressions(tokens, resolve, value);
      var pieces :| WellSpelled(pieces) && Text(pieces) == s && Tokens(pieces) == tokens;
      var e :| Print(e, 0) == tokens && Value(e, resolve) == Ok(value);
      assert WellSpelled(pieces) && Text(pieces) == s && Tokens(pieces) == Print(e, 0)
             && Value(e, resolve) == Ok(value);
    }
    if pieces, e :| WellSpelled(pieces) && Text(pieces) == s && Tokens(pieces) == Print(e, 0)
                    && Value(e, resolve) == Ok(value) {
      SpelledTokenizes(pieces);
      PrintedEvaluates(e, resolve);
    }
  }

  // ---- constants defined by constants ----

  /** The resolvers agree on every name in the tokens. */
  predicate Agree(tokens: seq<Token>, r: string -> Outcome, s: string -> Outcome)
  {
    forall i :: 0 <= i < |tokens| && tokens[i].Name? ==> r(tokens[i].name) == s(tokens[i].name)
  }

  predicate Names(tokens: seq<Token>, name: string)
  {
    exists i :: 0 <= i < |tokens| && tokens[i] == Name(name)
  }

  lemma {:induction false} SamePrimary(tokens: seq<Token>, at: nat, r: string -> Outcome, s: string -> Outcome)
    requires at <= |tokens| && Agree(tokens, r, s)
    ensures ParsePrimary(tokens, at, r) == ParsePrimary(tokens, at, s)
    decreases |tokens| - at, 0
  {
    if at == |tokens| {
    } else {
      if tokens[at] == Open { SameSum(tokens, at + 1, r, s); }
      if tokens[at] == Sign(Minus) { SamePrimary(tokens, at + 1, r, s); }
    }
  }

  lemma {:induction false} SameFactors(tokens: seq<Token>, value: Numeral, at: nat, r: string -> Outcome,
                                       s: string -> Outcome)
    requires at <= |tokens| && Agree(tokens, r, s)
    ensures ParseFactors(tokens, value, at, r) == ParseFactors(tokens, value, at, s)
    decreases |tokens| - at, 1
  {
    hide Agree, ParsePrimary;
    if !SignAt(tokens, at, 1) {
    } else {
      SamePrimary(tokens, at + 1, r, s);
      var operand := ParsePrimary(tokens, at + 1, r);
      if operand.Ok? {
        SameFactors(tokens, Apply(tokens[at].op, value, operand.value.0), operand.value.1, r, s);
      }
    }
  }

  lemma {:induction false} SameProduct(tokens: seq<Token>, at: nat, r: string -> Outcome, s: string -> Outcome)
    requires at <= |tokens| && Agree(tokens, r, s)
    ensures ParseProduct(tokens, at, r) == ParseProduct(tokens, at, s)
    decreases |tokens| - at, 2
  {
    hide Agree, ParsePrimary, ParseFactors;
    SamePrimary(tokens, at, r, s);
    var first := ParsePrimary(tokens, at, r);
    if first.Ok? { SameFactors(tokens, first.value.0, first.value.1, r, s); }
  }

  lemma {:induction false} SameTerms(tokens: seq<Token>, value: Numeral, at: nat, r: string -> Outcome,
                                     s: string -> Outcome)
    requires at <= |tokens| && Agree(tokens, r, s)
    ensures ParseTerms(tokens, value, at, r) == ParseTerms(tokens, value, at, s)
    decreases |tokens| - at, 3
  {
    hide Agree, ParseProduct;
    if !SignAt(tokens, at, 0) {
    } else {
      SameProduct(tokens, at + 1, r, s);
      var operand := ParseProduct(tokens, at + 1, r);
      if operand.Ok? {
        SameTerms(tokens, Apply(tokens[at].op, value, operand.value.0), operand.value.1, r, s);
      }
    }
  }

  lemma {:induction false} SameSum(tokens: seq<Token>, at: nat, r: string -> Outcome, s: string -> Outcome)
    requires at <= |tokens| && Agree(tokens, r, s)
    ensures ParseSum(tokens, at, r) == ParseSum(tokens, at, s)
    decreases |tokens| - at, 4
  {
    hide Agree, ParseProduct, ParseTerms;
    SameProduct(tokens, at, r, s);
    var first := ParseProduct(tokens, at, r);
    if first.Ok? { SameTerms(tokens, first.value.0, first.value.1, r, s); }
  }

  /** Evaluation depends only on the names that occur. */
  lemma SameEvaluation(s: string, r: string -> Outcome, other: string -> Outcome)
    requires Tokenize(s).Ok? ==> Agree(Tokenize(s).value, r, other)
    ensures Evaluate(s, r) == Evaluate(s, other)
  {
    if Tokenize(s).Ok? { SameSum(Tokenize(s).value, 0, r, other); }
  }

  /** If an expression has a value then so has every name in its printed form. */
  lemma {:induction false} NamesHaveValues(e: Expr, level: nat, i: nat, resolve: string -> Outcome)
    requires i < |Print(e, level)| && Print(e, level)[i].Name? && Value(e, resolve).Ok?
    ensures resolve(Print(e, level)[i].name).Ok?
  {
    match e
    case Literal(_) =>
    case Reference(_) =>
    case Negated(operand) => NamesHaveValues(operand, 2, i - 1, resolve);
    case Group(inner) => NamesHaveValues(inner, 0, i - 1, resolve);
    case Binary(op, left, right) =>
      var p := Precedence(op);
      var k := if level > p then i - 1 else i;
      if k < |Print(left, p)| {
        NamesHaveValues(left, p, k, resolve);
      } else {
        NamesHaveValues(right, p + 1, k - |Print(left, p)| - 1, resolve);
      }
  }

  /** The definition of `name` mentions `other`. */
  predicate Mentions(definitions: map<string, string>, name: string, other: string)
  {
    name in definitions && Tokenize(definitions[name]).Ok? && Names(Tokenize(definitions[name]).value, other)
  }

  lemma MentionedHasValue(definitions: map<string, string>, name: string, other: string, resolve: string -> Outcome)
    requires Mentions(definitions, name, other) && Evaluate(definitions[name], resolve).Ok?
    ensures resolve(other).Ok?
  {
    var tokens := Tokenize(definitions[name]).value;
    var value := EvaluateTokens(tokens, resolve).value;
    AcceptsExpressions(tokens, resolve, value);
    var e :| Print(e, 0) == tokens && Value(e, resolve) == Ok(value);
    var i :| 0 <= i < |tokens| && tokens[i] == Name(other);
    NamesHaveValues(e, 0, i, resolve);
  }

  predicate Chain(definitions: map<string, string>, path: seq<string>)
  {
    forall i :: 0 <= i < |path| - 1 ==> Mentions(definitions, path[i], path[i + 1])
  }

  /** A constant whose definition leads back to itself, or to a constant under evaluation, is
      rejected: extraction neither loops nor invents a value. */
  lemma {:induction false} CycleRejected(definitions: map<string, string>, path: seq<string>, ancestors: seq<string>)
    requires |path| > 0 && Chain(definitions, path)
    requires path[|path| - 1] in ancestors || path[|path| - 1] in path[..|path| - 1]
    ensures Extract(definitions, path[0], ancestors).Err?
    decreases |path|
  {
    var name := path[0];
    if name !in ancestors && |path| > 1 {
      assert Mentions(definitions, path[0], path[1]);
      if Extract(definitions, name, ancestors).Ok? {
        MentionedHasValue(definitions, name, path[1], Resolver(definitions, ancestors + [name]));
        var rest := path[1..];
        assert forall i :: 0 <= i < |rest| ==> rest[i] == path[i + 1];
        assert path[..|path| - 1] == [name] + rest[..|rest| - 1];
        hide Tokenize, Evaluate, Mentions;
        CycleRejected(definitions, rest, ancestors + [name]);
      }
    }
  }

  /** Every definition mentions only names of a lower rank: there are no cycles. */
  ghost predicate Ranked(definitions: map<string, string>, rank: string -> nat)
  {
    forall name, other :: Mentions(definitions, name, other) ==> rank(other) < rank(name)
  }

  lemma Resolves(definitions: map<string, string>, name: string, ancestors: seq<string>)
    ensures Resolver(definitions, ancestors)(name) == Extract(definitions, name, ancestors)
  {
  }

  /** Without cycles, the list of ancestors makes no difference to a constant below them all. */
  lemma {:induction false} AncestorsIrrelevant(definitions: map<string, string>, rank: string -> nat, name: string,
                                               ancestors: seq<string>)
    requires Ranked(definitions, rank)
    requires forall i :: 0 <= i < |ancestors| ==> rank(ancestors[i]) > rank(name)
    ensures Extract(definitions, name, ancestors) == Extract(definitions, name, [])
    decreases rank(name)
  {
    if name in definitions && Tokenize(definitions[name]).Ok? {
      var tokens := Tokenize(definitions[name]).value;
      var above, alone := ancestors + [name], [] + [name];
      forall i | 0 <= i < |tokens| && tokens[i].Name?
        ensures Resolver(definitions, above)(tokens[i].name) == Resolver(definitions, alone)(tokens[i].name)
      {
        var other := tokens[i].name;
        assert Mentions(definitions, name, other);
        hide Extract, Resolver, Tokenize, Evaluate, Mentions;
        AncestorsIrrelevant(definitions, rank, other, above);
        AncestorsIrrelevant(definitions, rank, other, alone);
        Resolves(definitions, other, above);
        Resolves(definitions, other, alone);
      }
      SameEvaluation(definitions[name], Resolver(definitions, above), Resolver(definitions, alone));
    }
  }

  /** Without cycles, every constant has the value of its definition when each name in it
      stands for the constant of that name. */
  lemma ConstantsMeanTheirDefinitions(definitions: map<string, string>, rank: string -> nat, name: string)
    requires Ranked(definitions, rank) && name in definitions
    ensures Extract(definitions, name, []) == Evaluate(definitions[name], other => Extract(definitions, other, []))
  {
    var s: string -> Outcome := other => Extract(definitions, other, []);
    if Tokenize(definitions[name]).Ok? {
      var tokens := Tokenize(definitions[name]).value;
      var r := Resolver(definitions, [] + [name]);
      forall i | 0 <= i < |tokens| && tokens[i].Name?
        ensures r(tokens[i].name) == s(tokens[i].name)
      {
        assert Mentions(definitions, name, tokens[i].name);
        AncestorsIrrelevant(definitions, rank, tokens[i].name, [] + [name]);
        Resolves(definitions, tokens[i].name, [] + [name]);
      }
      SameEvaluation(definitions[name], r, s);
    }
  }
}
