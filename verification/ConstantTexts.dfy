/** Expressions as they are written: decimal numbers, names, and the order of operations. */
module ConstantTexts {
  import opened Prelude
  import opened ConstantExpressions
  import opened ConstantMeaning

  // ---- numbers ----

  function Digit(n: nat): char
    requires n < 10
  {
    ['0', '1', '2', '3', '4', '5', '6', '7', '8', '9'][n]
  }

  /** The decimal digits of a number. */
  function Decimal(n: nat): (r: string)
    ensures r != []
  {
    if n < 10 then [Digit(n)] else Decimal(n / 10) + [Digit(n % 10)]
  }

  lemma {:induction false} DecimalDigits(n: nat)
    ensures forall i :: 0 <= i < |Decimal(n)| ==> '0' <= Decimal(n)[i] <= '9'
  {
    if n < 10 {
    } else {
      DecimalDigits(n / 10);
    }
  }

  lemma InNumberAll(s: string)
    requires forall i :: 0 <= i < |s| ==> '0' <= s[i] <= '9' || s[i] == '_'
    ensures AllOf(InNumber, s)
  {
  }

  /** The digits of a number are read as that number. */
  lemma {:induction false} DecimalRead(n: nat)
    ensures AllOf(InNumber, Decimal(n)) && NumberOf(Decimal(n)) == n
  {
    DecimalDigits(n);
    InNumberAll(Decimal(n));
    if n < 10 {
      assert Decimal(n)[..0] == [];
    } else {
      DecimalRead(n / 10);
      var text := Decimal(n);
      assert text[..|text| - 1] == Decimal(n / 10);
    }
  }

  /** Underscores between the digits make no difference. */
  lemma {:induction false} UnderscoresDropped(a: string, b: string)
    requires AllOf(InNumber, a) && AllOf(InNumber, b)
    ensures AllOf(InNumber, a + "_" + b) && AllOf(InNumber, a + b)
    ensures NumberOf(a + "_" + b) == NumberOf(a + b)
    decreases |b|
  {
    AllAppend(InNumber, a, "_" + b);
    AllAppend(InNumber, a, b);
    AllAppend(InNumber, "_", b);
    assert a + "_" + b == a + ("_" + b);
    if b == [] {
      assert a + "_" + b == a + "_" && a + b == a;
      assert (a + "_")[..|a|] == a;
    } else {
      var front, c := b[..|b| - 1], b[|b| - 1];
      assert b == front + [c];
      assert (a + "_" + b)[..|a + "_" + b| - 1] == a + "_" + front;
      assert (a + b)[..|a + b| - 1] == a + front;
      UnderscoresDropped(a, front);
    }
  }

  lemma AllAppend(p: char -> bool, a: string, b: string)
    requires AllOf(p, a) && AllOf(p, b)
    ensures AllOf(p, a + b)
  {
  }

  // ---- pieces ----

  function NumberPiece(n: nat): Piece { Piece("", Decimal(n), Number(n)) }

  function SymbolPiece(c: char, token: Token): Piece { Piece("", [c], token) }

  /** The characters that stand for themselves. */
  function Symbols(): seq<(char, Token)>
  {
    [('(', Open), (')', Close), ('+', Sign(Plus)), ('-', Sign(Minus)), ('*', Sign(Times)), ('/', Sign(Over))]
  }

  lemma SymbolWritten(c: char, token: Token)
    requires (c, token) in Symbols()
    ensures Writes([c], token) && !token.Number? && !token.Name? && !InNumber(c)
  {
  }

  lemma NumberWritten(n: nat)
    ensures Writes(Decimal(n), Number(n)) && IsDigit(Decimal(n)[0])
  {
    DecimalDigits(n);
    DecimalRead(n);
  }

  /** A piece that is a number or a symbol. */
  predicate Simple(p: Piece)
  {
    || (p.token.Number? && p == NumberPiece(p.token.n))
    || (exists k :: 0 <= k < |Symbols()| && p == SymbolPiece(Symbols()[k].0, Symbols()[k].1))
  }

  /** Numbers and symbols by turns, no two numbers side by side. */
  predicate Apart(pieces: seq<Piece>)
  {
    (forall i :: 0 <= i < |pieces| ==> Simple(pieces[i]))
    && forall i :: 0 < i < |pieces| ==> !(pieces[i - 1].token.Number? && pieces[i].token.Number?)
  }

  lemma SimpleWritten(p: Piece)
    requires Simple(p)
    ensures p.gap == "" && Writes(p.text, p.token) && !p.token.Name? && p.text != []
    ensures !p.token.Number? ==> !InNumber(p.text[0])
  {
    hide Decimal, NumberOf, Writes, AllOf;
    if p.token.Number? && p == NumberPiece(p.token.n) {
      NumberWritten(p.token.n);
    } else {
      var k :| 0 <= k < |Symbols()| && p == SymbolPiece(Symbols()[k].0, Symbols()[k].1);
      SymbolWritten(Symbols()[k].0, Symbols()[k].1);
    }
  }

  lemma {:induction false} ApartSpells(pieces: seq<Piece>)
    requires Apart(pieces)
    ensures WellSpelled(pieces)
  {
    hide Writes, Simple;
    if pieces == [] {
    } else {
      var rest := pieces[1..];
      forall i | 0 <= i < |rest| ensures Simple(rest[i]) { assert rest[i] == pieces[i + 1]; }
      forall i | 0 < i < |rest| ensures !(rest[i - 1].token.Number? && rest[i].token.Number?) {
        assert rest[i] == pieces[i + 1] && rest[i - 1] == pieces[i];
      }
      ApartSpells(rest);
      SimpleWritten(pieces[0]);
      if rest != [] {
        SimpleWritten(rest[0]);
        assert rest[0] == pieces[1];
        assert Text(rest)[0] == rest[0].text[0];
      }
    }
  }

  // ---- the order of operations ----

  /** Evaluating the text of such pieces, when they are the printed form of an expression. */
  lemma TextEvaluates(pieces: seq<Piece>, e: Expr, resolve: string -> Outcome)
    requires Apart(pieces) && Tokens(pieces) == Print(e, 0)
    ensures Evaluate(Text(pieces), resolve) == Value(e, resolve)
  {
    hide Apart, WellSpelled, Text, Tokens, Print, Value, Tokenize, EvaluateTokens;
    ApartSpells(pieces);
    SpelledTokenizes(pieces);
    PrintedEvaluates(e, resolve);
  }

  lemma Simples(n: nat)
    ensures Simple(NumberPiece(n))
    ensures Simple(SymbolPiece('(', Open)) && Simple(SymbolPiece(')', Close))
    ensures Simple(SymbolPiece('+', Sign(Plus))) && Simple(SymbolPiece('-', Sign(Minus)))
    ensures Simple(SymbolPiece('*', Sign(Times))) && Simple(SymbolPiece('/', Sign(Over)))
  {
    var s := Symbols();
    assert s[0] == ('(', Open) && s[1] == (')', Close) && s[2] == ('+', Sign(Plus));
    assert s[3] == ('-', Sign(Minus)) && s[4] == ('*', Sign(Times)) && s[5] == ('/', Sign(Over));
  }

  lemma PiecesBefore(p: Piece, rest: seq<Piece>)
    requires p.gap == ""
    ensures Text([p] + rest) == p.text + Text(rest) && Tokens([p] + rest) == [p.token] + Tokens(rest)
  {
    assert ([p] + rest)[1..] == rest;
    assert "" + p.text == p.text;
  }

  lemma ApartBefore(p: Piece, rest: seq<Piece>)
    requires Simple(p) && Apart(rest) && (rest != [] ==> !(p.token.Number? && rest[0].token.Number?))
    ensures Apart([p] + rest)
  {
    hide Simple;
    var all := [p] + rest;
    assert forall i :: 0 < i < |all| ==> all[i] == rest[i - 1];
  }

  /** Puts a number, or a symbol and a number, in front of pieces that begin with a symbol. */
  lemma OperandBefore(a: nat, p: char, op: Operator, rest: seq<Piece>) returns (all: seq<Piece>)
    requires (p, Sign(op)) in Symbols() && Apart(rest) && rest != [] && rest[0].token.Number?
    ensures Apart(all) && all != [] && all[0].token.Number?
    ensures Text(all) == Decimal(a) + ([p] + Text(rest)) && Tokens(all) == [Number(a)] + ([Sign(op)] + Tokens(rest))
  {
    Simples(a);
    assert Simple(SymbolPiece(p, Sign(op)));
    hide Decimal, Simple, Text, Tokens, Apart;
    PiecesBefore(SymbolPiece(p, Sign(op)), rest);
    ApartBefore(SymbolPiece(p, Sign(op)), rest);
    var later := [SymbolPiece(p, Sign(op))] + rest;
    PiecesBefore(NumberPiece(a), later);
    ApartBefore(NumberPiece(a), later);
    all := [NumberPiece(a)] + later;
  }

  lemma OnlyNumber(c: nat) returns (all: seq<Piece>)
    ensures Apart(all) && all != [] && all[0].token.Number?
    ensures Text(all) == Decimal(c) && Tokens(all) == [Number(c)]
  {
    Simples(c);
    hide Decimal, Simple;
    PiecesBefore(NumberPiece(c), []);
    ApartBefore(NumberPiece(c), []);
    all := [NumberPiece(c)] + [];
    assert Decimal(c) + "" == Decimal(c);
  }

  function Five(a: nat, first: Operator, b: nat, second: Operator, c: nat): seq<Token>
  {
    [Number(a)] + ([Sign(first)] + ([Number(b)] + ([Sign(second)] + [Number(c)])))
  }

  function FiveText(a: nat, p: char, b: nat, q: char, c: nat): string
  {
    Decimal(a) + ([p] + (Decimal(b) + ([q] + Decimal(c))))
  }

  /** Two operations without parentheses. */
  lemma TwoOperations(a: nat, p: char, first: Operator, b: nat, q: char, second: Operator, c: nat, e: Expr, value: int,
                      resolve: string -> Outcome)
    requires (p, Sign(first)) in Symbols() && (q, Sign(second)) in Symbols()
    requires Print(e, 0) == Five(a, first, b, second, c) && Exact(e, resolve) == Some(value)
    ensures Holds(Evaluate(FiveText(a, p, b, q, c), resolve), value)
  {
    hide Decimal, Print, Value, Evaluate, Exact, Apart, Text, Tokens, Holds, Symbols;
    var pieces := OnlyNumber(c);
    pieces := OperandBefore(b, q, second, pieces);
    pieces := OperandBefore(a, p, first, pieces);
    TextEvaluates(pieces, e, resolve);
    ExactValue(e, resolve);
  }

  lemma SymbolsAre()
    ensures ('+', Sign(Plus)) in Symbols() && ('-', Sign(Minus)) in Symbols()
    ensures ('*', Sign(Times)) in Symbols() && ('/', Sign(Over)) in Symbols()
  {
  }

  lemma RightFirst(a: nat, first: Operator, b: nat, second: Operator, c: nat, resolve: string -> Outcome)
    returns (e: Expr)
    requires Precedence(first) < Precedence(second)
    ensures Print(e, 0) == Five(a, first, b, second, c)
    ensures Exact(e, resolve) == ExactCombined(first, Some(a), ExactCombined(second, Some(b), Some(c)))
  {
    var right := Binary(second, Literal(b), Literal(c));
    e := Binary(first, Literal(a), right);
    assert Print(right, 1) == [Number(b)] + [Sign(second)] + [Number(c)];
    assert Print(e, 0) == [Number(a)] + [Sign(first)] + Print(right, 1);
    assert Exact(Literal(b), resolve) == Some(b) && Exact(Literal(c), resolve) == Some(c);
    assert Exact(right, resolve) == ExactCombined(second, Some(b), Some(c));
    assert Exact(Literal(a), resolve) == Some(a);
    hide ExactCombined;
  }

  lemma LeftFirst(a: nat, first: Operator, b: nat, second: Operator, c: nat, resolve: string -> Outcome)
    returns (e: Expr)
    requires Precedence(first) >= Precedence(second)
    ensures Print(e, 0) == Five(a, first, b, second, c)
    ensures Exact(e, resolve) == ExactCombined(second, ExactCombined(first, Some(a), Some(b)), Some(c))
  {
    var left := Binary(first, Literal(a), Literal(b));
    e := Binary(second, left, Literal(c));
    var p := Precedence(second);
    assert Print(left, p) == [Number(a)] + [Sign(first)] + [Number(b)];
    assert Print(e, 0) == Print(left, p) + [Sign(second)] + [Number(c)];
    assert Exact(Literal(a), resolve) == Some(a) && Exact(Literal(b), resolve) == Some(b);
    assert Exact(left, resolve) == ExactCombined(first, Some(a), Some(b));
    assert Exact(Literal(c), resolve) == Some(c);
    hide ExactCombined;
  }

  /** Products bind before sums, and operations of one kind go from left to right. */
  lemma OrderOfOperations(a: nat, b: nat, c: nat, resolve: string -> Outcome)
    ensures Holds(Evaluate(FiveText(a, '+', b, '*', c), resolve), a + b * c)
    ensures Holds(Evaluate(FiveText(a, '*', b, '-', c), resolve), a * b - c)
    ensures Holds(Evaluate(FiveText(a, '-', b, '-', c), resolve), a - b - c)
    ensures Holds(Evaluate(FiveText(a, '-', b, '+', c), resolve), a - b + c)
    ensures b > 0 && c > 0 ==> Holds(Evaluate(FiveText(a, '/', b, '/', c), resolve), a / b / c)
    ensures b > 0 ==> Holds(Evaluate(FiveText(a, '/', b, '*', c), resolve), a / b * c)
  {
    hide Evaluate, Exact, Print, Five, FiveText, Symbols, Holds;
    SymbolsAre();
    var e := RightFirst(a, Plus, b, Times, c, resolve);
    TwoOperations(a, '+', Plus, b, '*', Times, c, e, a + b * c, resolve);
    e := LeftFirst(a, Times, b, Minus, c, resolve);
    TwoOperations(a, '*', Times, b, '-', Minus, c, e, a * b - c, resolve);
    e := LeftFirst(a, Minus, b, Minus, c, resolve);
    TwoOperations(a, '-', Minus, b, '-', Minus, c, e, a - b - c, resolve);
    e := LeftFirst(a, Minus, b, Plus, c, resolve);
    TwoOperations(a, '-', Minus, b, '+', Plus, c, e, a - b + c, resolve);
    if b > 0 {
      e := LeftFirst(a, Over, b, Times, c, resolve);
      TwoOperations(a, '/', Over, b, '*', Times, c, e, a / b * c, resolve);
      if c > 0 {
        e := LeftFirst(a, Over, b, Over, c, resolve);
        TwoOperations(a, '/', Over, b, '/', Over, c, e, a / b / c, resolve);
      }
    }
  }

  // ---- infinities, no number, and the two zeros ----

  const Endless := Infinite(false)

  predicate ZeroOf(x: Numeral) { x == Finite(0) || x == MinusZero }

  /** Below zero, or the negative zero. */
  predicate Below(x: Numeral) { x == Infinite(true) || x == MinusZero || (x.Finite? && x.n < 0) }

  /** What an operation is that meets no number: none. What meets an infinity is one, or a zero that
      it divides, unless opposite infinities are added, a zero is multiplied, or infinities are
      divided. */
  lemma InfinitiesAre(x: Numeral)
    ensures Add(NotANumber, x) == Multiply(NotANumber, x) == NotANumber
    ensures Divide(NotANumber, x) == Divide(x, NotANumber) == NotANumber
    ensures Add(Endless, x) == if x == NotANumber || x == Infinite(true) then NotANumber else Endless
    ensures Multiply(Endless, x) == if x == NotANumber || ZeroOf(x) then NotANumber else Infinite(Below(x))
    ensures Divide(Endless, x) == if x == NotANumber || x.Infinite? then NotANumber else Infinite(Below(x))
    ensures Divide(x, Endless) ==
            if x == NotANumber || x.Infinite? then NotANumber else if Below(x) then MinusZero else Finite(0)
    ensures Divide(x, Finite(0)) == if x == NotANumber || ZeroOf(x) then NotANumber else Infinite(Below(x))
  {
  }

  /** Two zeros are the positive one unless both are negative; a zero product or quotient is negative
      if exactly one operand is. */
  lemma ZerosAre(x: Numeral)
    requires x.Finite? || x == MinusZero
    ensures Add(Finite(0), x) == (if ZeroOf(x) then Finite(0) else x)
    ensures Add(MinusZero, x) == x
    ensures Multiply(Finite(0), x) == (if Below(x) then MinusZero else Finite(0))
    ensures !ZeroOf(x) ==> Divide(Finite(0), x) == if Below(x) then MinusZero else Finite(0)
  {
    ZeroProduct(x);
    if !ZeroOf(x) { ZeroQuotient(x); }
    ZeroSum(x);
    hide Multiply, Divide, Add;
  }

  lemma ZeroSum(x: Numeral)
    requires x.Finite? || x == MinusZero
    ensures Add(Finite(0), x) == (if ZeroOf(x) then Finite(0) else x) && Add(MinusZero, x) == x
  {
  }

  lemma ZeroProduct(x: Numeral)
    requires x.Finite? || x == MinusZero
    ensures Multiply(Finite(0), x) == if Below(x) then MinusZero else Finite(0)
  {
    var n := IntegerOf(x);
    assert 0 * n == 0;
  }

  lemma ZeroQuotient(x: Numeral)
    requires x.Finite? && x.n != 0
    ensures Divide(Finite(0), x) == if Below(x) then MinusZero else Finite(0)
  {
    hide FloorDivide;
  }

  /** Signs: sums and products do not mind the order, and a sign can be taken out of a product and
      off a divisor and its dividend together. */
  lemma SignsAre(x: Numeral, y: Numeral)
    ensures Negate(Negate(x)) == x && Negate(Endless) == Infinite(true) && Negate(Finite(0)) == MinusZero
    ensures Add(x, y) == Add(y, x) && Multiply(x, y) == Multiply(y, x)
    ensures Multiply(Negate(x), y) == Negate(Multiply(x, y))
    ensures Divide(Negate(x), Negate(y)) == Divide(x, y)
    ensures x.Finite? && y.Finite? ==> Apply(Minus, x, y) == Finite(x.n - y.n)
    ensures Apply(Minus, x, y) == Add(x, Negate(y))
  {
    ProductSigns(x, y);
    QuotientSigns(x, y);
    hide Multiply, Divide;
  }

  lemma ProductSigns(x: Numeral, y: Numeral)
    ensures Multiply(x, y) == Multiply(y, x)
    ensures Multiply(Negate(x), y) == Negate(Multiply(x, y))
  {
    if Integral(x) && Integral(y) {
      var m, n := IntegerOf(x), IntegerOf(y);
      assert IntegerOf(Negate(x)) == -m;
      assert m * n == n * m && (-m) * n == -(m * n);
      assert m * n == 0 <==> m == 0 || n == 0;
    }
  }

  lemma QuotientSigns(x: Numeral, y: Numeral)
    ensures Divide(Negate(x), Negate(y)) == Divide(x, y)
  {
    if Integral(x) && Integral(y) && IntegerOf(y) != 0 {
      SameQuotient(IntegerOf(x), IntegerOf(y));
      assert IntegerOf(Negate(x)) == -IntegerOf(x) && IntegerOf(Negate(y)) == -IntegerOf(y);
    }
    hide FloorDivide;
  }

  lemma SameQuotient(m: int, n: int)
    requires n != 0
    ensures FloorDivide(-m, -n) == FloorDivide(m, n)
  {
  }

  // ---- names ----

  predicate Capital(c: char) { 'A' <= c <= 'Z' }

  /** A name is resolved as it is written: a capital, then capitals, digits and underscores. */
  lemma NameText(name: string, resolve: string -> Outcome)
    requires name != [] && Capital(name[0])
    requires forall i :: 0 <= i < |name| ==> Capital(name[i]) || '0' <= name[i] <= '9' || name[i] == '_'
    ensures Evaluate(name, resolve) == resolve(name)
  {
    var pieces := [Piece("", name, Name(name))];
    assert pieces[1..] == [] && WellSpelled([]) && Text([]) == [] && Tokens([]) == [];
    assert AllOf(InName, name);
    assert Text(pieces) == "" + name + "" == name;
    SpelledTokenizes(pieces);
    assert Print(Reference(name), 0) == Tokens(pieces);
    hide Tokenize, EvaluateTokens;
    PrintedEvaluates(Reference(name), resolve);
  }

  /** A text that begins with anything else is refused. */
  lemma OtherText(c: char, rest: string, resolve: string -> Outcome)
    requires !Capital(c) && !('0' <= c <= '9') && c !in "()+-*/" && !IsSpace(c)
    ensures Evaluate([c] + rest, resolve) == Err(Unsupported)
  {
    var s := [c] + rest;
    assert s[0] == c;
    assert c !in ['(', ')', '+', '-', '*', '/'];
    assert TokenAt(s).None?;
  }

  /** What may stand between tokens: the white space and line terminators of sections 12.2 and
      12.3 of ECMA-262. */
  lemma SpacesAre(c: char)
    ensures IsSpace(c) <==>
            || c == '\t' || c == '\U{0B}' || c == '\U{0C}' || c == '\U{FEFF}'
            || c == '\n' || c == '\r' || c == '\U{2028}' || c == '\U{2029}'
            || c == ' ' || c == '\U{A0}' || c == '\U{1680}' || '\U{2000}' <= c <= '\U{200A}'
            || c == '\U{202F}' || c == '\U{205F}' || c == '\U{3000}'
  {
  }

  // ---- faults ----

  /** A constant that is not defined, and one that is being evaluated already. */
  lemma ExtractFaults(definitions: map<string, string>, name: string, ancestors: seq<string>)
    ensures name in ancestors ==> Extract(definitions, name, ancestors) == Err(Circular)
    ensures name !in ancestors && name !in definitions ==> Extract(definitions, name, ancestors) == Err(Missing)
  {
  }
}
