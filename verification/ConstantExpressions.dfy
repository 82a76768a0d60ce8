/** Integer constants of the configuration, evaluated from their source text: a tokenizer, a
    recursive-descent evaluator with a moving position, and the extraction of one constant in
    terms of others. Values are numbers as the language has them, integers without rounding:
    dividing by zero gives an infinity or no number at all, and evaluation goes on. */
module ConstantExpressions {
  import opened Prelude

  datatype Operator = Plus | Minus | Times | Over

  datatype Token = Number(n: nat) | Name(name: string) | Open | Close | Sign(op: Operator)

  datatype Fault = Unsupported | Unbalanced | Expected | Trailing | Circular | Missing

  /** Zero has two signs; `Finite(0)` is the positive one. */
  datatype Numeral = Finite(n: int) | MinusZero | Infinite(negative: bool) | NotANumber

  type Outcome = Result<Numeral, Fault>

  /** A value and the position after it. */
  type Parsed = Result<(Numeral, nat), Fault>

  // ---- tokens ----

  predicate IsSpace(c: char)
  {
    var n := c as int;
    || 0x09 <= n <= 0x0D || n == 0x20 || n == 0xA0 || n == 0x1680 || 0x2000 <= n <= 0x200A
    || n == 0x2028 || n == 0x2029 || n == 0x202F || n == 0x205F || n == 0x3000 || n == 0xFEFF
  }

  predicate IsDigit(c: char) { '0' <= c <= '9' }

  predicate IsUpper(c: char) { 'A' <= c <= 'Z' }

  predicate InNumber(c: char) { IsDigit(c) || c == '_' }

  predicate InName(c: char) { IsUpper(c) || IsDigit(c) || c == '_' }

  function SymbolFor(c: char): Option<Token>
  {
    match c
    case '(' => Some(Open)
    case ')' => Some(Close)
    case '+' => Some(Sign(Plus))
    case '-' => Some(Sign(Minus))
    case '*' => Some(Sign(Times))
    case '/' => Some(Sign(Over))
    case _ => None
  }

  /** The length of the longest prefix whose characters all satisfy `p`. */
  function Run(p: char -> bool, s: string): (n: nat)
    ensures n <= |s| && (n < |s| ==> !p(s[n]))
    ensures forall i :: 0 <= i < n ==> p(s[i])
  {
    if s != [] && p(s[0]) then 1 + Run(p, s[1..]) else 0
  }

  /** The decimal value of a number, whose underscores are dropped. */
  function NumberOf(text: string): nat
    requires forall i :: 0 <= i < |text| ==> InNumber(text[i])
  {
    if text == [] then 0
    else
      var front, c := text[..|text| - 1], text[|text| - 1];
      assert InNumber(text[|text| - 1]);
      if c == '_' then NumberOf(front) else 10 * NumberOf(front) + (c as int - '0' as int)
  }

  /** The token that starts the text, after any spaces, and where it ends. */
  function TokenAt(s: string): (r: Option<(Token, nat)>)
    ensures r.Some? ==> 0 < r.value.1 <= |s|
  {
    var gap := Run(IsSpace, s);
    if gap == |s| then None
    else
      var c, rest := s[gap], s[gap..];
      if IsDigit(c) then
        var n := Run(InNumber, rest);
        Some((Number(NumberOf(rest[..n])), gap + n))
      else if IsUpper(c) then
        var n := Run(InName, rest);
        Some((Name(rest[..n]), gap + n))
      else if SymbolFor(c).Some? then Some((SymbolFor(c).value, gap + 1))
      else None
  }

  function Tokenize(s: string): Result<seq<Token>, Fault>
  {
    if s == [] then Ok([])
    else
      match TokenAt(s)
      case None => Err(Unsupported)
      case Some(found) =>
        match Tokenize(s[found.1..])
        case Err(fault) => Err(fault)
        case Ok(rest) => Ok([found.0] + rest)
  }

  function Prepend(tokens: seq<Token>, r: Result<seq<Token>, Fault>): Result<seq<Token>, Fault>
  {
    match r
    case Err(fault) => Err(fault)
    case Ok(rest) => Ok(tokens + rest)
  }

  lemma PrependNothing(r: Result<seq<Token>, Fault>)
    ensures Prepend([], r) == r
  {
    if r.Ok? { assert [] + r.value == r.value; }
  }

  lemma TokenizeStep(s: string, position: nat, tokens: seq<Token>)
    requires position < |s| && TokenAt(s[position..]).Some?
    ensures var found := TokenAt(s[position..]).value;
            Prepend(tokens, Tokenize(s[position..])) == Prepend(tokens + [found.0], Tokenize(s[position + found.1..]))
  {
    var rest, found := s[position..], TokenAt(s[position..]).value;
    assert rest[found.1..] == s[position + found.1..];
    hide TokenAt;
    if Tokenize(rest).Ok? { Associate(tokens, [found.0], Tokenize(rest[found.1..]).value); }
  }

  method TokenizeText(expression: string) returns (r: Result<seq<Token>, Fault>)
    ensures r == Tokenize(expression)
  {
    hide TokenAt;
    var tokens: seq<Token> := [];
    var position := 0;
    assert expression[0..] == expression;
    PrependNothing(Tokenize(expression));
    while position < |expression|
      invariant 0 <= position <= |expression|
      invariant Tokenize(expression) == Prepend(tokens, Tokenize(expression[position..]))
    {
      var found := TokenAt(expression[position..]);
      if found.None? { return Err(Unsupported); }
      TokenizeStep(expression, position, tokens);
      tokens := tokens + [found.value.0];
      position := position + found.value.1;
    }
    assert tokens + [] == tokens;
    r := Ok(tokens);
  }

  // ---- the evaluator ----

  /** Math.floor(a / b). */
  function FloorDivide(a: int, b: int): int
    requires b != 0
  {
    if b > 0 then a / b else (-a) / (-b)
  }

  predicate Integral(a: Numeral) { a.Finite? || a.MinusZero? }

  function IntegerOf(a: Numeral): int
    requires Integral(a)
  {
    if a.Finite? then a.n else 0
  }

  predicate Negative(a: Numeral)
    requires !a.NotANumber?
  {
    match a
    case Finite(n) => n < 0
    case MinusZero => true
    case Infinite(negative) => negative
    case NotANumber => false
  }

  function Zero(negative: bool): Numeral { if negative then MinusZero else Finite(0) }

  function Negate(a: Numeral): Numeral
  {
    match a
    case Finite(n) => if n == 0 then MinusZero else Finite(-n)
    case MinusZero => Finite(0)
    case Infinite(negative) => Infinite(!negative)
    case NotANumber => NotANumber
  }

  function Add(a: Numeral, b: Numeral): Numeral
  {
    if a.NotANumber? || b.NotANumber? || (a.Infinite? && b == Negate(a)) then NotANumber
    else if a.Infinite? then a
    else if b.Infinite? then b
    else if a.MinusZero? && b.MinusZero? then MinusZero
    else Finite(IntegerOf(a) + IntegerOf(b))
  }

  function Multiply(a: Numeral, b: Numeral): Numeral
  {
    if a.NotANumber? || b.NotANumber? then NotANumber
    else
      var negative := Negative(a) != Negative(b);
      if Integral(a) && Integral(b) then
        var product := IntegerOf(a) * IntegerOf(b);
        if product == 0 then Zero(negative) else Finite(product)
      else if (Integral(a) && IntegerOf(a) == 0) || (Integral(b) && IntegerOf(b) == 0) then NotANumber
      else Infinite(negative)
  }

  /** The quotient, rounded down. */
  function Divide(a: Numeral, b: Numeral): Numeral
  {
    if a.NotANumber? || b.NotANumber? || (a.Infinite? && b.Infinite?) then NotANumber
    else
      var negative := Negative(a) != Negative(b);
      if a.Infinite? then Infinite(negative)
      else if b.Infinite? then Zero(negative)
      else if IntegerOf(b) == 0 then (if IntegerOf(a) == 0 then NotANumber else Infinite(negative))
      else if IntegerOf(a) == 0 then Zero(negative)
      else Finite(FloorDivide(IntegerOf(a), IntegerOf(b)))
  }

  function Apply(op: Operator, a: Numeral, b: Numeral): Numeral
  {
    match op
    case Plus => Add(a, b)
    case Minus => Add(a, Negate(b))
    case Times => Multiply(a, b)
    case Over => Divide(a, b)
  }

  /** 1 for the operators that bind tighter. */
  function Precedence(op: Operator): nat { if op == Plus || op == Minus then 0 else 1 }

  predicate SignAt(tokens: seq<Token>, at: nat, precedence: nat)
  {
    at < |tokens| && tokens[at].Sign? && Precedence(tokens[at].op) == precedence
  }

  function ParsePrimary(tokens: seq<Token>, at: nat, resolve: string -> Outcome): (r: Parsed)
    requires at <= |tokens|
    ensures r.Ok? ==> at < r.value.1 <= |tokens|
    decreases |tokens| - at, 0
  {
    if at == |tokens| then Err(Expected)
    else
      match tokens[at]
      case Number(n) => Ok((Finite(n), at + 1))
      case Open =>
        (match ParseSum(tokens, at + 1, resolve)
         case Err(fault) => Err(fault)
         case Ok(inner) =>
           if inner.1 < |tokens| && tokens[inner.1] == Close then Ok((inner.0, inner.1 + 1)) else Err(Unbalanced))
      case Sign(Minus) =>
        (match ParsePrimary(tokens, at + 1, resolve)
         case Err(fault) => Err(fault)
         case Ok(inner) => Ok((Negate(inner.0), inner.1)))
      case Name(name) =>
        (match resolve(name)
         case Err(fault) => Err(fault)
         case Ok(value) => Ok((value, at + 1)))
      case _ => Err(Expected)
  }

  /** The rest of a product whose first factors are worth `value`. */
  function ParseFactors(tokens: seq<Token>, value: Numeral, at: nat, resolve: string -> Outcome): (r: Parsed)
    requires at <= |tokens|
    ensures r.Ok? ==> at <= r.value.1 <= |tokens|
    decreases |tokens| - at, 1
  {
    if !SignAt(tokens, at, 1) then Ok((value, at))
    else
      match ParsePrimary(tokens, at + 1, resolve)
      case Err(fault) => Err(fault)
      case Ok(operand) => ParseFactors(tokens, Apply(tokens[at].op, value, operand.0), operand.1, resolve)
  }

  function ParseProduct(tokens: seq<Token>, at: nat, resolve: string -> Outcome): (r: Parsed)
    requires at <= |tokens|
    ensures r.Ok? ==> at < r.value.1 <= |tokens|
    decreases |tokens| - at, 2
  {
    match ParsePrimary(tokens, at, resolve)
    case Err(fault) => Err(fault)
    case Ok(first) => ParseFactors(tokens, first.0, first.1, resolve)
  }

  /** The rest of a sum whose first terms are worth `value`. */
  function ParseTerms(tokens: seq<Token>, value: Numeral, at: nat, resolve: string -> Outcome): (r: Parsed)
    requires at <= |tokens|
    ensures r.Ok? ==> at <= r.value.1 <= |tokens|
    decreases |tokens| - at, 3
  {
    if !SignAt(tokens, at, 0) then Ok((value, at))
    else
      match ParseProduct(tokens, at + 1, resolve)
      case Err(fault) => Err(fault)
      case Ok(operand) => ParseTerms(tokens, Apply(tokens[at].op, value, operand.0), operand.1, resolve)
  }

  function ParseSum(tokens: seq<Token>, at: nat, resolve: string -> Outcome): (r: Parsed)
    requires at <= |tokens|
    ensures r.Ok? ==> at < r.value.1 <= |tokens|
    decreases |tokens| - at, 4
  {
    match ParseProduct(tokens, at, resolve)
    case Err(fault) => Err(fault)
    case Ok(first) => ParseTerms(tokens, first.0, first.1, resolve)
  }

  function EvaluateTokens(tokens: seq<Token>, resolve: string -> Outcome): Outcome
  {
    match ParseSum(tokens, 0, resolve)
    case Err(fault) => Err(fault)
    case Ok(whole) => if whole.1 == |tokens| then Ok(whole.0) else Err(Trailing)
  }

  function Evaluate(expression: string, resolve: string -> Outcome): Outcome
  {
    match Tokenize(expression)
    case Err(fault) => Err(fault)
    case Ok(tokens) => EvaluateTokens(tokens, resolve)
  }

  /** What an evaluating method returns, and where it leaves the position. */
  predicate Agrees(spec: Parsed, r: Outcome, position: nat)
  {
    match spec
    case Ok(parsed) => r == Ok(parsed.0) && position == parsed.1
    case Err(fault) => r == Err(fault)
  }

  /** One evaluation: its methods share and advance the position in the token list. */
  class Evaluation {
    const tokens: seq<Token>
    const resolve: string -> Outcome
    var position: nat

    constructor (tokens: seq<Token>, resolve: string -> Outcome)
      ensures this.tokens == tokens && this.resolve == resolve && position == 0
    {
      this.tokens := tokens;
      this.resolve := resolve;
      position := 0;
    }

    method Primary() returns (r: Outcome)
      requires position <= |tokens|
      modifies this
      ensures Agrees(ParsePrimary(tokens, old(position), resolve), r, position)
      decreases |tokens| - position, 0
    {
      if position == |tokens| { return Err(Expected); }
      var token := tokens[position];
      position := position + 1;
      match token {
        case Number(n) => r := Ok(Finite(n));
        case Open =>
          r := Additive();
          if r.Ok? {
            if position == |tokens| || tokens[position] != Close { return Err(Unbalanced); }
            position := position + 1;
          }
        case Sign(Minus) =>
          r := Primary();
          if r.Ok? { r := Ok(Negate(r.value)); }
        case Name(name) => r := resolve(name);
        case _ => r := Err(Expected);
      }
    }

    method Multiplicative() returns (r: Outcome)
      requires position <= |tokens|
      modifies this
      ensures Agrees(ParseProduct(tokens, old(position), resolve), r, position)
      decreases |tokens| - position, 1
    {
      r := Primary();
      if r.Err? { return; }
      var value := r.value;
      while SignAt(tokens, position, 1)
        invariant old(position) < position <= |tokens|
        invariant ParseProduct(tokens, old(position), resolve) == ParseFactors(tokens, value, position, resolve)
        decreases |tokens| - position
      {
        var op := tokens[position].op;
        position := position + 1;
        r := Primary();
        if r.Err? { return; }
        value := Apply(op, value, r.value);
      }
      r := Ok(value);
    }

    method Additive() returns (r: Outcome)
      requires position <= |tokens|
      modifies this
      ensures Agrees(ParseSum(tokens, old(position), resolve), r, position)
      decreases |tokens| - position, 2
    {
      r := Multiplicative();
      if r.Err? { return; }
      var value := r.value;
      while SignAt(tokens, position, 0)
        invariant old(position) < position <= |tokens|
        invariant ParseSum(tokens, old(position), resolve) == ParseTerms(tokens, value, position, resolve)
        decreases |tokens| - position
      {
        var op := tokens[position].op;
        position := position + 1;
        r := Multiplicative();
        if r.Err? { return; }
        value := Apply(op, value, r.value);
      }
      r := Ok(value);
    }
  }

  method EvaluateInteger(expression: string, resolve: string -> Outcome) returns (r: Outcome)
    ensures r == Evaluate(expression, resolve)
  {
    var tokens := TokenizeText(expression);
    if tokens.Err? { return Err(tokens.error); }
    var evaluation := new Evaluation(tokens.value, resolve);
    r := evaluation.Additive();
    if r.Ok? && evaluation.position != |tokens.value| { return Err(Trailing); }
  }

  /** The quotient is rounded towards minus infinity, whatever the signs. */
  lemma FloorDivideMeaning(a: int, b: int)
    requires b != 0
    ensures var q := FloorDivide(a, b);
            if b > 0 then q * b <= a < (q + 1) * b else q * b >= a > (q + 1) * b
  {
  }

  // ---- expressions and their printed form ----

  datatype Expr =
    | Literal(n: nat)
    | Reference(name: string)
    | Negated(operand: Expr)
    | Group(inner: Expr)
    | Binary(op: Operator, left: Expr, right: Expr)

  function Value(e: Expr, resolve: string -> Outcome): Outcome
  {
    match e
    case Literal(n) => Ok(Finite(n))
    case Reference(name) => resolve(name)
    case Group(inner) => Value(inner, resolve)
    case Negated(operand) =>
      (match Value(operand, resolve)
       case Err(fault) => Err(fault)
       case Ok(value) => Ok(Negate(value)))
    case Binary(op, left, right) => Combined(op, Value(left, resolve), Value(right, resolve))
  }

  function Combined(op: Operator, a: Outcome, b: Outcome): Outcome
  {
    if a.Err? then a else if b.Err? then b else Ok(Apply(op, a.value, b.value))
  }

  /** Prints with the parentheses that the level needs: 0 where a sum may stand, 1 where a
      product may, 2 where only a single operand may. */
  function Print(e: Expr, level: nat): (r: seq<Token>)
    ensures r != []
  {
    match e
    case Literal(n) => [Number(n)]
    case Reference(name) => [Name(name)]
    case Negated(operand) => [Sign(Minus)] + Print(operand, 2)
    case Group(inner) => [Open] + Print(inner, 0) + [Close]
    case Binary(op, left, right) =>
      var p := Precedence(op);
      var body := Print(left, p) + [Sign(op)] + Print(right, p + 1);
      if level > p then [Open] + body + [Close] else body
  }

  predicate Occurs(tokens: seq<Token>, at: nat, part: seq<Token>)
  {
    at + |part| <= |tokens| && tokens[at..at + |part|] == part
  }

  lemma OccursParts(tokens: seq<Token>, at: nat, a: seq<Token>, b: seq<Token>, c: seq<Token>)
    requires Occurs(tokens, at, a + b + c)
    ensures Occurs(tokens, at, a) && Occurs(tokens, at + |a|, b) && Occurs(tokens, at + |a| + |b|, c)
  {
    var end := at + |a| + |b| + |c|;
    assert tokens[..end][at..] == a + b + c;
    Slices(tokens[..end], at, a, b, c);
    assert tokens[..end][at + |a| + |b|..] == tokens[at + |a| + |b|..end];
  }

  lemma OccursPair(tokens: seq<Token>, at: nat, a: Token, b: seq<Token>)
    requires Occurs(tokens, at, [a] + b)
    ensures at < |tokens| && tokens[at] == a && Occurs(tokens, at + 1, b)
  {
    assert [a] + b == [a] + b + [];
    OccursParts(tokens, at, [a], b, []);
    assert tokens[at] == tokens[at..at + 1][0];
  }

  lemma OccursBetween(tokens: seq<Token>, at: nat, a: Token, b: seq<Token>, c: Token)
    requires Occurs(tokens, at, [a] + b + [c])
    ensures at + 1 + |b| < |tokens| && tokens[at] == a && Occurs(tokens, at + 1, b) && tokens[at + 1 + |b|] == c
  {
    OccursParts(tokens, at, [a], b, [c]);
    assert tokens[at] == tokens[at..at + 1][0];
    assert tokens[at + 1 + |b|] == tokens[at + 1 + |b|..at + 1 + |b| + 1][0];
  }

  lemma OccursAround(tokens: seq<Token>, at: nat, a: seq<Token>, b: Token, c: seq<Token>)
    requires Occurs(tokens, at, a + [b] + c)
    ensures at + |a| < |tokens| && Occurs(tokens, at, a) && tokens[at + |a|] == b && Occurs(tokens, at + |a| + 1, c)
  {
    OccursParts(tokens, at, a, [b], c);
    assert tokens[at + |a|] == tokens[at + |a|..at + |a| + 1][0];
  }

  function ParseAt(level: nat, tokens: seq<Token>, at: nat, resolve: string -> Outcome): Parsed
    requires at <= |tokens|
  {
    if level == 0 then ParseSum(tokens, at, resolve)
    else if level == 1 then ParseProduct(tokens, at, resolve)
    else ParsePrimary(tokens, at, resolve)
  }

  /** What the parser of a level does once an operand worth `o` ends at `at`. */
  function Resume(level: nat, tokens: seq<Token>, o: Outcome, at: nat, resolve: string -> Outcome): Parsed
    requires at <= |tokens|
  {
    match o
    case Err(fault) => Err(fault)
    case Ok(value) =>
      if level == 0 then ParseTerms(tokens, value, at, resolve)
      else if level == 1 then ParseFactors(tokens, value, at, resolve)
      else Ok((value, at))
  }

  /** Orders the three levels at which one expression can be printed. */
  function Rank(e: Expr, level: nat): nat
  {
    if e.Binary? then (if level == Precedence(e.op) then 0 else if level == 2 - 2 * Precedence(e.op) then 1 else 2)
    else 2 - Min(level, 2)
  }

  /** Parsing the printed form of an expression, wherever it occurs, computes its value and
      continues behind it. */
  lemma {:induction false} PrintedParses(e: Expr, level: nat, tokens: seq<Token>, at: nat, resolve: string -> Outcome)
    requires level <= 2 && Occurs(tokens, at, Print(e, level))
    requires level == 0 ==> !SignAt(tokens, at + |Print(e, level)|, 1)
    ensures ParseAt(level, tokens, at, resolve)
            == Resume(level, tokens, Value(e, resolve), at + |Print(e, level)|, resolve)
    decreases e, Rank(e, level), 1
  {
    assert at + |Print(e, level)| <= |tokens|;
    hide Value, Occurs, ParseAt, Resume, ParsePrimary, ParseProduct, ParseSum, SignAt;
    if e.Binary? && level == Precedence(e.op) {
      hide Print;
      OperandsParse(e, tokens, at, resolve);
    } else if level < 2 {
      assert Print(e, level + 1) == Print(e, level);
      hide Print;
      PrintedParses(e, level + 1, tokens, at, resolve);
      Lower(level, tokens, Value(e, resolve), at, at + |Print(e, level)|, resolve);
    } else {
      AtLevelTwo(e, tokens, at, resolve);
      hide Print;
      if e.Binary? {
        GroupParses(e, tokens, at, resolve);
      } else {
        OperandParses(e, tokens, at, resolve);
      }
    }
  }

  /** Where a single operand must stand, an operation is grouped. */
  lemma AtLevelTwo(e: Expr, tokens: seq<Token>, at: nat, resolve: string -> Outcome)
    ensures e.Binary? ==> Print(e, 2) == [Open] + Print(e, 0) + [Close] && |Print(e, 2)| == |Print(e, 0)| + 2
    ensures at <= |tokens| ==> ParseAt(2, tokens, at, resolve) == ParsePrimary(tokens, at, resolve)
  {
    hide ParsePrimary, ParseProduct, ParseSum;
  }

  lemma Lower(level: nat, tokens: seq<Token>, o: Outcome, at: nat, end: nat, resolve: string -> Outcome)
    requires level < 2 && at <= end <= |tokens| && (level == 0 ==> !SignAt(tokens, end, 1))
    requires ParseAt(level + 1, tokens, at, resolve) == Resume(level + 1, tokens, o, end, resolve)
    ensures ParseAt(level, tokens, at, resolve) == Resume(level, tokens, o, end, resolve)
  {
  }

  lemma {:induction false} OperandParses(e: Expr, tokens: seq<Token>, at: nat, resolve: string -> Outcome)
    requires !e.Binary? && Occurs(tokens, at, Print(e, 2))
    ensures ParsePrimary(tokens, at, resolve) == Resume(2, tokens, Value(e, resolve), at + |Print(e, 2)|, resolve)
    decreases e, 0, 0
  {
    hide ParseSum, ParseProduct, ParseTerms, ParseFactors, Occurs;
    assert forall t: Token :: [t] == [t] + [];
    match e
    case Literal(n) => OccursPair(tokens, at, Number(n), []);
    case Reference(name) => OccursPair(tokens, at, Name(name), []);
    case Negated(operand) =>
      OccursPair(tokens, at, Sign(Minus), Print(operand, 2));
      PrintedParses(operand, 2, tokens, at + 1, resolve);
    case Group(inner) => GroupParses(inner, tokens, at, resolve);
  }

  lemma {:induction false} GroupParses(inner: Expr, tokens: seq<Token>, at: nat, resolve: string -> Outcome)
    requires Occurs(tokens, at, [Open] + Print(inner, 0) + [Close])
    ensures ParsePrimary(tokens, at, resolve)
            == Resume(2, tokens, Value(inner, resolve), at + |Print(inner, 0)| + 2, resolve)
    decreases inner, if inner.Binary? then Rank(inner, 2) else 3, 0
  {
    OccursBetween(tokens, at, Open, Print(inner, 0), Close);
    PrintedParses(inner, 0, tokens, at + 1, resolve);
    hide Print, Value, Occurs, ParseProduct, ParseFactors;
  }

  /** An operation, printed at its own level. */
  lemma {:induction false} OperandsParse(e: Expr, tokens: seq<Token>, at: nat, resolve: string -> Outcome)
    requires e.Binary? && Occurs(tokens, at, Print(e, Precedence(e.op)))
    requires Precedence(e.op) == 0 ==> !SignAt(tokens, at + |Print(e, 0)|, 1)
    ensures ParseAt(Precedence(e.op), tokens, at, resolve)
            == Resume(Precedence(e.op), tokens, Value(e, resolve), at + |Print(e, Precedence(e.op))|, resolve)
    decreases e, 0, 0
  {
    var p := Precedence(e.op);
    var left, right := Print(e.left, p), Print(e.right, p + 1);
    assert Print(e, p) == left + [Sign(e.op)] + right;
    assert Value(e, resolve) == Combined(e.op, Value(e.left, resolve), Value(e.right, resolve));
    hide ParseAt, Resume, Print, Value, Occurs, Combined;
    OccursAround(tokens, at, left, Sign(e.op), right);
    PrintedParses(e.left, p, tokens, at, resolve);
    PrintedParses(e.right, p + 1, tokens, at + |left| + 1, resolve);
    OperationResumes(e.op, tokens, Value(e.left, resolve), Value(e.right, resolve), at + |left|,
                     at + |left| + 1 + |right|, resolve);
  }

  /** Between its operands, an operation applies its operator and goes on. */
  lemma OperationResumes(op: Operator, tokens: seq<Token>, a: Outcome, b: Outcome, at: nat, end: nat,
                         resolve: string -> Outcome)
    requires at < end <= |tokens| && tokens[at] == Sign(op)
    requires var p := Precedence(op);
             && (p == 0 ==> !SignAt(tokens, end, 1))
             && ParseAt(p + 1, tokens, at + 1, resolve) == Resume(p + 1, tokens, b, end, resolve)
    ensures var p := Precedence(op);
            Resume(p, tokens, a, at, resolve) == Resume(p, tokens, Combined(op, a, b), end, resolve)
  {
  }

  /** Evaluating a printed expression gives its value, with every token consumed; an undefined
      name surfaces as the same fault. */
  lemma PrintedEvaluates(e: Expr, resolve: string -> Outcome)
    ensures EvaluateTokens(Print(e, 0), resolve) == Value(e, resolve)
  {
    var tokens := Print(e, 0);
    assert tokens[0..0 + |tokens|] == tokens;
    PrintedParses(e, 0, tokens, 0, resolve);
    hide Print, Value;
    assert !SignAt(tokens, |tokens|, 0);
  }

  // ---- the value is the exact integer ----

  /** The value by integer arithmetic alone, if every name is an integer and no divisor zero. */
  function Exact(e: Expr, resolve: string -> Outcome): Option<int>
  {
    match e
    case Literal(n) => Some(n)
    case Reference(name) =>
      (match resolve(name)
       case Ok(value) => if Integral(value) then Some(IntegerOf(value)) else None
       case Err(_) => None)
    case Group(inner) => Exact(inner, resolve)
    case Negated(operand) =>
      (match Exact(operand, resolve)
       case Some(n) => Some(-n)
       case None => None)
    case Binary(op, left, right) => ExactCombined(op, Exact(left, resolve), Exact(right, resolve))
  }

  function ExactCombined(op: Operator, a: Option<int>, b: Option<int>): Option<int>
  {
    if a.None? || b.None? then None
    else
      match op
      case Plus => Some(a.value + b.value)
      case Minus => Some(a.value - b.value)
      case Times => Some(a.value * b.value)
      case Over => if b.value == 0 then None else Some(FloorDivide(a.value, b.value))
  }

  /** No quotient occurs, except in names. */
  predicate Undivided(e: Expr)
  {
    match e
    case Literal(_) => true
    case Reference(_) => true
    case Group(inner) => Undivided(inner)
    case Negated(operand) => Undivided(operand)
    case Binary(op, left, right) => op != Over && Undivided(left) && Undivided(right)
  }

  /** No quotient and no name that is no integer occurs inside a divisor. */
  predicate PlainDivisors(e: Expr, resolve: string -> Outcome)
  {
    match e
    case Literal(_) => true
    case Reference(_) => true
    case Group(inner) => PlainDivisors(inner, resolve)
    case Negated(operand) => PlainDivisors(operand, resolve)
    case Binary(op, left, right) =>
      && PlainDivisors(left, resolve) && PlainDivisors(right, resolve)
      && (op == Over ==> Undivided(right) && Integers(right, resolve))
  }

  predicate Integers(e: Expr, resolve: string -> Outcome)
  {
    match e
    case Literal(_) => true
    case Reference(name) => resolve(name).Ok? ==> Integral(resolve(name).value)
    case Group(inner) => Integers(inner, resolve)
    case Negated(operand) => Integers(operand, resolve)
    case Binary(op, left, right) => Integers(left, resolve) && Integers(right, resolve)
  }

  /** The value is the exact one. */
  predicate Holds(value: Outcome, exact: int)
  {
    value.Ok? && Integral(value.value) && IntegerOf(value.value) == exact
  }

  lemma HoldsCombined(op: Operator, a: Outcome, b: Outcome, m: int, n: int)
    requires Holds(a, m) && Holds(b, n) && ExactCombined(op, Some(m), Some(n)).Some?
    ensures Holds(Combined(op, a, b), ExactCombined(op, Some(m), Some(n)).value)
  {
  }

  /** With integer operands only a zero divisor gives no integer; an operand that is none stays
      none, unless it divides. */
  lemma IntegralCombined(op: Operator, a: Numeral, b: Numeral)
    requires Integral(Apply(op, a, b)) && (op == Over ==> Integral(b))
    ensures Integral(a) && Integral(b) && (op == Over ==> IntegerOf(b) != 0)
  {
  }

  /** Wherever integer arithmetic gives a value, evaluation gives the same one. */
  lemma {:induction false} ExactValue(e: Expr, resolve: string -> Outcome)
    requires Exact(e, resolve).Some?
    ensures Holds(Value(e, resolve), Exact(e, resolve).value)
  {
    match e
    case Literal(_) =>
    case Reference(_) =>
    case Group(inner) => ExactValue(inner, resolve);
    case Negated(operand) => ExactValue(operand, resolve);
    case Binary(op, left, right) =>
      ExactValue(left, resolve);
      ExactValue(right, resolve);
      HoldsCombined(op, Value(left, resolve), Value(right, resolve), Exact(left, resolve).value,
                    Exact(right, resolve).value);
  }

  lemma {:induction false} UndividedIntegral(e: Expr, resolve: string -> Outcome)
    requires Undivided(e) && Integers(e, resolve) && Value(e, resolve).Ok?
    ensures Exact(e, resolve).Some? && Integral(Value(e, resolve).value)
  {
    match e
    case Literal(_) =>
    case Reference(_) =>
    case Group(inner) => UndividedIntegral(inner, resolve);
    case Negated(operand) => UndividedIntegral(operand, resolve);
    case Binary(op, left, right) =>
      UndividedIntegral(left, resolve);
      UndividedIntegral(right, resolve);
      ExactValue(e, resolve);
  }

  /** With no quotient inside a divisor, the value is an integer exactly if every name is one
      and no divisor is zero, and then it is the exact one: a division by zero cannot hide. */
  lemma {:induction false} IntegerExactly(e: Expr, resolve: string -> Outcome)
    requires PlainDivisors(e, resolve)
    ensures Value(e, resolve).Ok? && Integral(Value(e, resolve).value) <==> Exact(e, resolve).Some?
    ensures Exact(e, resolve).Some? ==> Holds(Value(e, resolve), Exact(e, resolve).value)
  {
    if Exact(e, resolve).Some? { ExactValue(e, resolve); }
    if Value(e, resolve).Ok? && Integral(Value(e, resolve).value) {
      match e
      case Literal(_) =>
      case Reference(_) =>
      case Group(inner) => IntegerExactly(inner, resolve);
      case Negated(operand) => IntegerExactly(operand, resolve);
      case Binary(op, left, right) =>
        if op == Over { UndividedIntegral(right, resolve); }
        IntegralCombined(op, Value(left, resolve).value, Value(right, resolve).value);
        IntegerExactly(left, resolve);
        IntegerExactly(right, resolve);
        ExactValue(right, resolve);
    }
  }

  /** Inside a divisor it can: 1/(1/0) is worth 0. */
  lemma HiddenZeroDivisor(resolve: string -> Outcome)
    ensures var e := Binary(Over, Literal(1), Group(Binary(Over, Literal(1), Literal(0))));
            Exact(e, resolve).None? && EvaluateTokens(Print(e, 0), resolve) == Ok(Finite(0))
  {
    var quotient := Binary(Over, Literal(1), Literal(0));
    var e := Binary(Over, Literal(1), Group(quotient));
    assert Value(quotient, resolve) == Ok(Infinite(false));
    PrintedEvaluates(e, resolve);
  }

  // ---- one constant in terms of others ----

  function Ancestry(ancestors: seq<string>): set<string> { set i | 0 <= i < |ancestors| :: ancestors[i] }

  /** The value of a constant, whose defining text may name other constants. */
  function Extract(definitions: map<string, string>, name: string, ancestors: seq<string>): Outcome
    decreases definitions.Keys - Ancestry(ancestors), 0
  {
    if name in ancestors then Err(Circular)
    else if name !in definitions then Err(Missing)
    else
      assert name in Ancestry(ancestors + [name]) by { assert (ancestors + [name])[|ancestors|] == name; }
      assert Ancestry(ancestors) <= Ancestry(ancestors + [name]) by {
        assert forall i :: 0 <= i < |ancestors| ==> (ancestors + [name])[i] == ancestors[i];
      }
      assert name in definitions.Keys - Ancestry(ancestors);
      Evaluate(definitions[name], Resolver(definitions, ancestors + [name]))
  }

  function Resolver(definitions: map<string, string>, ancestors: seq<string>): string -> Outcome
    decreases definitions.Keys - Ancestry(ancestors), 1
  {
    name => Extract(definitions, name, ancestors)
  }
}
