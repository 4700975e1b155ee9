/** The calculator of calc.rs: tokenizer, recursive-descent parser and evaluator.

    Numbers are an arbitrary type with arbitrary operations (`Ops`), so nothing here depends on
    floating point. The parser is specified by the functions `ExprAt`, `TermAt` and `FactorAt`;
    `CalcGrammar.dfy` relates those to the grammar. */
module Calc {
  import opened Wrappers

  datatype Ops<!N> = Ops(add: (N, N) -> N, sub: (N, N) -> N, mul: (N, N) -> N, div: (N, N) -> N,
                         neg: N -> N, isZero: N -> bool, parse: string -> Option<N>)

  datatype Token<N> = Num(n: N) | Plus | Minus | Star | Slash | LParen | RParen

  datatype ParseFailure =
    | InvalidNumber(text: string) | UnexpectedCharacter(c: char)
    | EmptyExpression | UnexpectedToken | UnexpectedEnd | ExpectedRParen | TrailingInput

  datatype CalcError = ParseError(why: ParseFailure) | DivisionByZero

  // ----- tokenizer

  predicate IsSpace(c: char) { c == ' ' || c == '\t' || c == '\r' || c == '\n' }

  predicate IsNumeral(c: char) { '0' <= c <= '9' || c == '.' }

  /** The token a single character stands for. */
  function Symbol<N>(c: char): Option<Token<N>> {
    match c
    case '+' => Some(Plus)
    case '-' => Some(Minus)
    case '*' => Some(Star)
    case '/' => Some(Slash)
    case '(' => Some(LParen)
    case ')' => Some(RParen)
    case _ => None
  }

  /** End of the run of digits and dots that starts at `i`. */
  function NumeralEnd(s: string, i: nat): (j: nat)
    requires i <= |s|
    ensures i <= j <= |s|
    ensures forall k :: i <= k < j ==> IsNumeral(s[k])
    ensures j < |s| ==> !IsNumeral(s[j])
    decreases |s| - i
  {
    if i < |s| && IsNumeral(s[i]) then NumeralEnd(s, i + 1) else i
  }

  function Push<N>(t: Token<N>, rest: Result<seq<Token<N>>, CalcError>): Result<seq<Token<N>>, CalcError> {
    match rest
    case Ok(ts) => Ok([t] + ts)
    case Err(e) => Err(e)
  }

  function TokensFrom<N>(s: string, i: nat, ops: Ops<N>): Result<seq<Token<N>>, CalcError>
    requires i <= |s|
    decreases |s| - i
  {
    if i == |s| then Ok([])
    else if IsSpace(s[i]) then TokensFrom(s, i + 1, ops)
    else if Symbol<N>(s[i]).Some? then Push(Symbol<N>(s[i]).value, TokensFrom(s, i + 1, ops))
    else if IsNumeral(s[i]) then
      var j := NumeralEnd(s, i + 1);
      var v := ops.parse(s[i..j]);
      if v.None? then Err(ParseError(InvalidNumber(s[i..j])))
      else Push(Num(v.value), TokensFrom(s, j, ops))
    else Err(ParseError(UnexpectedCharacter(s[i])))
  }

  /** Put the tokens already read in front of the rest. */
  function Join<N>(done: seq<Token<N>>, rest: Result<seq<Token<N>>, CalcError>): Result<seq<Token<N>>, CalcError> {
    match rest
    case Ok(ts) => Ok(done + ts)
    case Err(e) => Err(e)
  }

  lemma JoinPush<N>(done: seq<Token<N>>, t: Token<N>, rest: Result<seq<Token<N>>, CalcError>)
    ensures Join(done, Push(t, rest)) == Join(done + [t], rest)
  {
    if rest.Ok? {
      assert done + ([t] + rest.value) == done + [t] + rest.value;
    }
  }

  lemma JoinNothing<N>(rest: Result<seq<Token<N>>, CalcError>)
    ensures Join([], rest) == rest
  {
    if rest.Ok? {
      assert [] + rest.value == rest.value;
    }
  }

  method Tokenize<N>(input: string, ops: Ops<N>) returns (r: Result<seq<Token<N>>, CalcError>)
    ensures r == TokensFrom(input, 0, ops)
  {
    var tokens: seq<Token<N>> := [];
    var i := 0;
    JoinNothing(TokensFrom(input, 0, ops));
    while i < |input|
      invariant i <= |input|
      invariant TokensFrom(input, 0, ops) == Join(tokens, TokensFrom(input, i, ops))
    {
      var c := input[i];
      if IsSpace(c) {
        i := i + 1;
      } else if Symbol<N>(c).Some? {
        JoinPush(tokens, Symbol<N>(c).value, TokensFrom(input, i + 1, ops));
        tokens := tokens + [Symbol<N>(c).value];
        i := i + 1;
      } else if IsNumeral(c) {
        var start := i;
        while i < |input| && IsNumeral(input[i])
          invariant start <= i <= |input|
          invariant i == start || NumeralEnd(input, start + 1) == NumeralEnd(input, i)
        {
          i := i + 1;
        }
        var v := ops.parse(input[start..i]);
        if v.None? {
          return Err(ParseError(InvalidNumber(input[start..i])));
        }
        JoinPush(tokens, Num(v.value), TokensFrom(input, i, ops));
        tokens := tokens + [Num(v.value)];
      } else {
        return Err(ParseError(UnexpectedCharacter(c)));
      }
    }
    assert tokens + [] == tokens;
    r := Ok(tokens);
  }

  // ----- parser, as functions of the token list and a position

  datatype Parsed<N> = Value(v: N, pos: nat) | Failed(error: CalcError)

  function TokenAt<N>(ts: seq<Token<N>>, pos: nat): Option<Token<N>> {
    if pos < |ts| then Some(ts[pos]) else None
  }

  ghost function ExprAt<N>(ts: seq<Token<N>>, pos: nat, ops: Ops<N>): (r: Parsed<N>)
    requires pos <= |ts|
    ensures r.Value? ==> pos < r.pos <= |ts|
    decreases |ts| - pos, 4
  {
    var r := TermAt(ts, pos, ops);
    if r.Failed? then r else ExprTail(ts, r.pos, r.v, ops)
  }

  /** The loop of `expr`, with the value so far. */
  ghost function ExprTail<N>(ts: seq<Token<N>>, pos: nat, value: N, ops: Ops<N>): (r: Parsed<N>)
    requires pos <= |ts|
    ensures r.Value? ==> pos <= r.pos <= |ts|
    decreases |ts| - pos, 3
  {
    var t := TokenAt(ts, pos);
    if t == Some(Plus) || t == Some(Minus) then
      var r := TermAt(ts, pos + 1, ops);
      if r.Failed? then r
      else ExprTail(ts, r.pos, if t == Some(Plus) then ops.add(value, r.v) else ops.sub(value, r.v), ops)
    else Value(value, pos)
  }

  ghost function TermAt<N>(ts: seq<Token<N>>, pos: nat, ops: Ops<N>): (r: Parsed<N>)
    requires pos <= |ts|
    ensures r.Value? ==> pos < r.pos <= |ts|
    decreases |ts| - pos, 2
  {
    var r := FactorAt(ts, pos, ops);
    if r.Failed? then r else TermTail(ts, r.pos, r.v, ops)
  }

  /** The loop of `term`, with the value so far. */
  ghost function TermTail<N>(ts: seq<Token<N>>, pos: nat, value: N, ops: Ops<N>): (r: Parsed<N>)
    requires pos <= |ts|
    ensures r.Value? ==> pos <= r.pos <= |ts|
    decreases |ts| - pos, 1
  {
    var t := TokenAt(ts, pos);
    if t == Some(Star) || t == Some(Slash) then
      var r := FactorAt(ts, pos + 1, ops);
      if r.Failed? then r
      else if t == Some(Star) then TermTail(ts, r.pos, ops.mul(value, r.v), ops)
      else if ops.isZero(r.v) then Failed(DivisionByZero)
      else TermTail(ts, r.pos, ops.div(value, r.v), ops)
    else Value(value, pos)
  }

  ghost function FactorAt<N>(ts: seq<Token<N>>, pos: nat, ops: Ops<N>): (r: Parsed<N>)
    requires pos <= |ts|
    ensures r.Value? ==> pos < r.pos <= |ts|
    decreases |ts| - pos, 0
  {
    match TokenAt(ts, pos)
    case Some(Num(n)) => Value(n, pos + 1)
    case Some(Minus) =>
      var r := FactorAt(ts, pos + 1, ops);
      if r.Failed? then r else Value(ops.neg(r.v), r.pos)
    case Some(LParen) =>
      var r := ExprAt(ts, pos + 1, ops);
      if r.Failed? then r
      else if TokenAt(ts, r.pos) == Some(RParen) then Value(r.v, r.pos + 1)
      else Failed(ParseError(ExpectedRParen))
    case Some(_) => Failed(ParseError(UnexpectedToken))
    case None => Failed(ParseError(UnexpectedEnd))
  }

  ghost function EvaluateTokens<N>(ts: seq<Token<N>>, ops: Ops<N>): Result<N, CalcError> {
    if ts == [] then Err(ParseError(EmptyExpression))
    else
      var r := ExprAt(ts, 0, ops);
      if r.Failed? then Err(r.error)
      else if r.pos != |ts| then Err(ParseError(TrailingInput))
      else Ok(r.v)
  }

  ghost function EvaluateText<N>(input: string, ops: Ops<N>): Result<N, CalcError> {
    match TokensFrom(input, 0, ops)
    case Err(e) => Err(e)
    case Ok(ts) => EvaluateTokens(ts, ops)
  }

  // ----- parser, as the program

  /** What a parsing method returned and where it left the cursor agree with the specification. */
  ghost predicate Agrees<N>(r: Result<N, CalcError>, pos: nat, spec: Parsed<N>) {
    match spec
    case Value(v, q) => r == Ok(v) && pos == q
    case Failed(e) => r == Err(e)
  }

  class Parser<N(==)> {
    const tokens: seq<Token<N>>
    var pos: nat

    constructor (tokens: seq<Token<N>>)
      ensures this.tokens == tokens && pos == 0
    {
      this.tokens := tokens;
      pos := 0;
    }

    method Advance() returns (t: Option<Token<N>>)
      requires pos <= |tokens|
      modifies this
      ensures t == TokenAt(tokens, old(pos))
      ensures pos == (if t.Some? then old(pos) + 1 else old(pos)) && pos <= |tokens|
    {
      t := TokenAt(tokens, pos);
      if t.Some? {
        pos := pos + 1;
      }
    }

    method Expr(ops: Ops<N>) returns (r: Result<N, CalcError>)
      requires pos <= |tokens|
      modifies this
      ensures pos <= |tokens|
      ensures Agrees(r, pos, ExprAt(tokens, old(pos), ops))
      decreases |tokens| - pos, 2
    {
      r := Term(ops);
      if r.Err? {
        return;
      }
      var value := r.value;
      while pos < |tokens| && (tokens[pos] == Plus || tokens[pos] == Minus)
        invariant old(pos) < pos <= |tokens|
        invariant ExprAt(tokens, old(pos), ops) == ExprTail(tokens, pos, value, ops)
        decreases |tokens| - pos
      {
        var plus := tokens[pos] == Plus;
        pos := pos + 1;
        r := Term(ops);
        if r.Err? {
          return;
        }
        value := if plus then ops.add(value, r.value) else ops.sub(value, r.value);
      }
      r := Ok(value);
    }

    method Term(ops: Ops<N>) returns (r: Result<N, CalcError>)
      requires pos <= |tokens|
      modifies this
      ensures pos <= |tokens|
      ensures Agrees(r, pos, TermAt(tokens, old(pos), ops))
      decreases |tokens| - pos, 1
    {
      r := Factor(ops);
      if r.Err? {
        return;
      }
      var value := r.value;
      while pos < |tokens| && (tokens[pos] == Star || tokens[pos] == Slash)
        invariant old(pos) < pos <= |tokens|
        invariant TermAt(tokens, old(pos), ops) == TermTail(tokens, pos, value, ops)
        decreases |tokens| - pos
      {
        var star := tokens[pos] == Star;
        pos := pos + 1;
        r := Factor(ops);
        if r.Err? {
          return;
        }
        if star {
          value := ops.mul(value, r.value);
        } else {
          if ops.isZero(r.value) {
            return Err(DivisionByZero);
          }
          value := ops.div(value, r.value);
        }
      }
      r := Ok(value);
    }

    method Factor(ops: Ops<N>) returns (r: Result<N, CalcError>)
      requires pos <= |tokens|
      modifies this
      ensures pos <= |tokens|
      ensures Agrees(r, pos, FactorAt(tokens, old(pos), ops))
      decreases |tokens| - pos, 0
    {
      var t := Advance();
      match t {
        case Some(Num(n)) =>
          r := Ok(n);
        case Some(Minus) =>
          r := Factor(ops);
          if r.Ok? {
            r := Ok(ops.neg(r.value));
          }
        case Some(LParen) =>
          r := Expr(ops);
          if r.Err? {
            return;
          }
          var close := Advance();
          if close != Some(RParen) {
            r := Err(ParseError(ExpectedRParen));
          }
        case Some(_) =>
          r := Err(ParseError(UnexpectedToken));
        case None =>
          r := Err(ParseError(UnexpectedEnd));
      }
    }
  }

  method Evaluate<N(==)>(input: string, ops: Ops<N>) returns (r: Result<N, CalcError>)
    ensures r == EvaluateText(input, ops)
  {
    var tokens := Tokenize(input, ops);
    if tokens.Err? {
      return Err(tokens.error);
    }
    if tokens.value == [] {
      return Err(ParseError(EmptyExpression));
    }
    var parser := new Parser(tokens.value);
    r := parser.Expr(ops);
    if r.Ok? && parser.pos != |parser.tokens| {
      r := Err(ParseError(TrailingInput));
    }
  }
}
