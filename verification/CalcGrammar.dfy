/** What the calculator accepts and what it answers.

    A concrete syntax tree keeps its parentheses. `InExpr`, `InTerm` and `InFactor` are the grammar
      expr   = term   { ("+" | "-") term }
      term   = factor { ("*" | "/") factor }
      factor = number | "-" factor | "(" expr ")"
    with both repetitions read left-associatively. */
module CalcGrammar {
  import opened Calc
  import opened Sequences
  import opened Wrappers

  datatype Op = Add | Sub | Mul | Div

  datatype Expr<N> = Lit(n: N) | Neg(e: Expr) | Bin(op: Op, l: Expr, r: Expr) | Paren(e: Expr)

  predicate Additive(op: Op) { op == Add || op == Sub }

  function OpToken<N>(op: Op): Token<N> {
    match op
    case Add => Plus
    case Sub => Minus
    case Mul => Star
    case Div => Slash
  }

  function Flatten<N>(e: Expr<N>): (ts: seq<Token<N>>)
    ensures ts != []
  {
    match e
    case Lit(n) => [Num(n)]
    case Neg(x) => [Minus] + Flatten(x)
    case Bin(op, l, r) => Flatten(l) + [OpToken(op)] + Flatten(r)
    case Paren(x) => [LParen] + Flatten(x) + [RParen]
  }

  predicate InExpr<N>(e: Expr<N>)
    decreases e, 2
  {
    if e.Bin? && Additive(e.op) then InExpr(e.l) && InTerm(e.r) else InTerm(e)
  }

  predicate InTerm<N>(e: Expr<N>)
    decreases e, 1
  {
    if e.Bin? then !Additive(e.op) && InTerm(e.l) && InFactor(e.r) else InFactor(e)
  }

  predicate InFactor<N>(e: Expr<N>)
    decreases e, 0
  {
    match e
    case Lit(_) => true
    case Neg(x) => InFactor(x)
    case Paren(x) => InExpr(x)
    case Bin(_, _, _) => false
  }

  /** The value of a tree: operands from left to right, a zero divisor stops everything. */
  function Eval<N>(e: Expr<N>, ops: Ops<N>): Result<N, CalcError> {
    match e
    case Lit(n) => Ok(n)
    case Paren(x) => Eval(x, ops)
    case Neg(x) =>
      var v := Eval(x, ops);
      if v.Err? then v else Ok(ops.neg(v.value))
    case Bin(op, l, r) =>
      var a := Eval(l, ops);
      if a.Err? then a else Applied(op, a.value, Eval(r, ops), ops)
  }

  function Applied<N>(op: Op, a: N, b: Result<N, CalcError>, ops: Ops<N>): Result<N, CalcError> {
    if b.Err? then b else Combine(op, a, b.value, ops)
  }

  function Combine<N>(op: Op, a: N, b: N, ops: Ops<N>): Result<N, CalcError> {
    match op
    case Add => Ok(ops.add(a, b))
    case Sub => Ok(ops.sub(a, b))
    case Mul => Ok(ops.mul(a, b))
    case Div => if ops.isZero(b) then Err(DivisionByZero) else Ok(ops.div(a, b))
  }

  lemma {:induction false} EvalErrors<N>(e: Expr<N>, ops: Ops<N>)
    ensures Eval(e, ops).Err? ==> Eval(e, ops).error == DivisionByZero
  {
    match e
    case Lit(_) =>
    case Paren(x) => EvalErrors(x, ops);
    case Neg(x) => EvalErrors(x, ops);
    case Bin(_, l, r) =>
      EvalErrors(l, ops);
      EvalErrors(r, ops);
  }

  // ----- completeness: every derivable token list evaluates to its tree

  /** `part` stands in `ts` at `pos`. */
  ghost predicate Stands<N>(ts: seq<Token<N>>, pos: nat, part: seq<Token<N>>) {
    pos + |part| <= |ts| && ts[pos..pos + |part|] == part
  }

  lemma StandsSplit<N>(ts: seq<Token<N>>, pos: nat, a: seq<Token<N>>, t: Token<N>, b: seq<Token<N>>)
    requires Stands(ts, pos, a + [t] + b)
    ensures Stands(ts, pos, a) && TokenAt(ts, pos + |a|) == Some(t) && Stands(ts, pos + |a| + 1, b)
  {
    var whole := a + [t] + b;
    assert ts[pos..pos + |a|] == whole[..|a|] == a;
    assert ts[pos + |a|] == whole[|a|] == t;
    assert ts[pos + |a| + 1..pos + |whole|] == whole[|a| + 1..] == b;
  }

  lemma StandsPart<N>(ts: seq<Token<N>>, pos: nat, part: seq<Token<N>>, i: nat, j: nat)
    requires Stands(ts, pos, part) && i <= j <= |part|
    ensures Stands(ts, pos + i, part[i..j])
    ensures j < |part| ==> TokenAt(ts, pos + j) == Some(part[j])
  {
    var here := ts[pos..pos + |part|];
    forall k | 0 <= k < |part| ensures ts[pos + k] == part[k] {
      assert here[k] == part[k];
    }
    assert pos + i + |part[i..j]| == pos + j;
    assert ts[pos + i..pos + j] == part[i..j];
  }

  lemma NegStands<N>(ts: seq<Token<N>>, pos: nat, x: Expr<N>)
    requires Stands(ts, pos, Flatten(Neg(x)))
    ensures TokenAt(ts, pos) == Some(Minus) && Stands(ts, pos + 1, Flatten(x))
  {
    var inner := Flatten(x);
    var whole := Flatten(Neg(x));
    StandsPart(ts, pos, whole, 0, 0);
    StandsPart(ts, pos, whole, 1, |inner| + 1);
    assert whole[1..|inner| + 1] == inner;
  }

  lemma Enclosed<N>(ts: seq<Token<N>>, pos: nat, whole: seq<Token<N>>, a: Token<N>, inner: seq<Token<N>>, b: Token<N>)
    requires Stands(ts, pos, whole) && whole == [a] + inner + [b]
    ensures TokenAt(ts, pos) == Some(a) && Stands(ts, pos + 1, inner)
    ensures TokenAt(ts, pos + 1 + |inner|) == Some(b) && pos + 2 + |inner| <= |ts|
  {
    var n := |inner|;
    StandsPart(ts, pos, whole, 0, 0);
    StandsPart(ts, pos, whole, 1, n + 1);
    assert whole[1..n + 1] == inner;
  }

  lemma {:induction false} FactorComplete<N>(ts: seq<Token<N>>, pos: nat, e: Expr<N>, ops: Ops<N>)
    requires InFactor(e) && Stands(ts, pos, Flatten(e))
    ensures var v := Eval(e, ops);
      FactorAt(ts, pos, ops) == if v.Err? then Failed(v.error) else Value(v.value, pos + |Flatten(e)|)
    decreases e, 0
  {
    match e {
      case Lit(n) =>
        assert ts[pos] == Flatten(e)[0];
      case Neg(x) =>
        NegStands(ts, pos, x);
        FactorComplete(ts, pos + 1, x, ops);
      case Paren(x) =>
        Enclosed(ts, pos, Flatten(e), LParen, Flatten(x), RParen);
        ExprComplete(ts, pos + 1, x, ops);
    }
  }

  /** The loop of `term` goes on with this value, or stops with this error. */
  ghost function TermFrom<N>(ts: seq<Token<N>>, pos: nat, v: Result<N, CalcError>, ops: Ops<N>): Parsed<N>
    requires pos <= |ts|
  {
    if v.Err? then Failed(v.error) else TermTail(ts, pos, v.value, ops)
  }

  /** The loop of `expr` goes on with this value, or stops with this error. */
  ghost function ExprFrom<N>(ts: seq<Token<N>>, pos: nat, v: Result<N, CalcError>, ops: Ops<N>): Parsed<N>
    requires pos <= |ts|
  {
    if v.Err? then Failed(v.error) else ExprTail(ts, pos, v.value, ops)
  }

  lemma ProductRound<N>(ts: seq<Token<N>>, pos: nat, op: Op, a: N, ops: Ops<N>)
    requires !Additive(op) && TokenAt(ts, pos) == Some(OpToken(op))
    ensures var f := FactorAt(ts, pos + 1, ops);
      TermTail(ts, pos, a, ops) == if f.Failed? then f else TermFrom(ts, f.pos, Combine(op, a, f.v, ops), ops)
  {
  }

  lemma SumRound<N>(ts: seq<Token<N>>, pos: nat, op: Op, a: N, ops: Ops<N>)
    requires Additive(op) && TokenAt(ts, pos) == Some(OpToken(op))
    ensures var f := TermAt(ts, pos + 1, ops);
      ExprTail(ts, pos, a, ops) == if f.Failed? then f else ExprFrom(ts, f.pos, Combine(op, a, f.v, ops), ops)
  {
  }

  /** One round of the loop of `term`. */
  lemma ProductStep<N>(ts: seq<Token<N>>, pos: nat, end: nat, op: Op, a: N, r: Expr<N>, ops: Ops<N>)
    requires !Additive(op) && TokenAt(ts, pos) == Some(OpToken(op))
    requires InFactor(r) && Stands(ts, pos + 1, Flatten(r)) && end == pos + 1 + |Flatten(r)|
    ensures TermTail(ts, pos, a, ops) == TermFrom(ts, end, Applied(op, a, Eval(r, ops), ops), ops)
    decreases r, 1
  {
    FactorComplete(ts, pos + 1, r, ops);
    ProductRound(ts, pos, op, a, ops);
  }

  lemma BinParts<N>(ts: seq<Token<N>>, pos: nat, e: Expr<N>) returns (mid: nat, end: nat)
    requires e.Bin? && Stands(ts, pos, Flatten(e))
    ensures mid == pos + |Flatten(e.l)| && end == pos + |Flatten(e)| == mid + 1 + |Flatten(e.r)|
    ensures Stands(ts, pos, Flatten(e.l)) && TokenAt(ts, mid) == Some(OpToken(e.op))
    ensures Stands(ts, mid + 1, Flatten(e.r))
  {
    mid, end := pos + |Flatten(e.l)|, pos + |Flatten(e)|;
    StandsSplit(ts, pos, Flatten(e.l), OpToken(e.op), Flatten(e.r));
  }

  /** A left operand read up to `mid`, then one round of the loop. */
  lemma TermOfBin<N>(ts: seq<Token<N>>, pos: nat, mid: nat, end: nat, e: Expr<N>, ops: Ops<N>)
    requires e.Bin? && pos <= |ts| && mid <= |ts| && end <= |ts|
    requires TermAt(ts, pos, ops) == TermFrom(ts, mid, Eval(e.l, ops), ops)
    requires var a := Eval(e.l, ops);
      a.Ok? ==>
        TermTail(ts, mid, a.value, ops) == TermFrom(ts, end, Applied(e.op, a.value, Eval(e.r, ops), ops), ops)
    ensures TermAt(ts, pos, ops) == TermFrom(ts, end, Eval(e, ops), ops)
  {
  }

  lemma ProductComplete<N>(ts: seq<Token<N>>, pos: nat, e: Expr<N>, ops: Ops<N>)
    requires e.Bin? && InTerm(e) && Stands(ts, pos, Flatten(e))
    ensures TermAt(ts, pos, ops) == TermFrom(ts, pos + |Flatten(e)|, Eval(e, ops), ops)
    decreases e, 0
  {
    var mid, end := BinParts(ts, pos, e);
    TermComplete(ts, pos, e.l, ops);
    var a := Eval(e.l, ops);
    if a.Ok? { ProductStep(ts, mid, end, e.op, a.value, e.r, ops); }
    TermOfBin(ts, pos, mid, end, e, ops);
  }

  lemma SingleFactor<N>(ts: seq<Token<N>>, pos: nat, e: Expr<N>, ops: Ops<N>)
    requires InFactor(e) && Stands(ts, pos, Flatten(e))
    ensures TermAt(ts, pos, ops) == TermFrom(ts, pos + |Flatten(e)|, Eval(e, ops), ops)
    decreases e, 1
  {
    FactorComplete(ts, pos, e, ops);
  }

  /** A term followed by anything: the loop goes on with the term's value. */
  lemma {:induction false} TermComplete<N>(ts: seq<Token<N>>, pos: nat, e: Expr<N>, ops: Ops<N>)
    requires InTerm(e) && Stands(ts, pos, Flatten(e))
    ensures TermAt(ts, pos, ops) == TermFrom(ts, pos + |Flatten(e)|, Eval(e, ops), ops)
    decreases e, 2
  {
    if e.Bin? {
      ProductComplete(ts, pos, e, ops);
    } else {
      SingleFactor(ts, pos, e, ops);
    }
  }

  predicate AfterTerm<N>(ts: seq<Token<N>>, pos: nat) {
    TokenAt(ts, pos) != Some(Star) && TokenAt(ts, pos) != Some(Slash)
  }

  /** A term that is not followed by `*` or `/` is a whole operand of a sum. */
  lemma TermAlone<N>(ts: seq<Token<N>>, pos: nat, e: Expr<N>, ops: Ops<N>)
    requires InTerm(e) && Stands(ts, pos, Flatten(e)) && AfterTerm(ts, pos + |Flatten(e)|)
    ensures var v := Eval(e, ops);
      TermAt(ts, pos, ops) == if v.Err? then Failed(v.error) else Value(v.value, pos + |Flatten(e)|)
    decreases e, 3
  {
    TermComplete(ts, pos, e, ops);
  }

  lemma RoundOfOperand<N>(ts: seq<Token<N>>, pos: nat, op: Op, a: N, f: Parsed<N>, v: Result<N, CalcError>, end: nat,
                          ops: Ops<N>)
    requires pos <= |ts| && end <= |ts| && Additive(op)
    requires f == if v.Err? then Failed(v.error) else Value(v.value, end)
    requires ExprTail(ts, pos, a, ops) == if f.Failed? then f else ExprFrom(ts, f.pos, Combine(op, a, f.v, ops), ops)
    ensures ExprTail(ts, pos, a, ops) == ExprFrom(ts, end, Applied(op, a, v, ops), ops)
  {
  }

  /** One round of the loop of `expr`. */
  lemma SumStep<N>(ts: seq<Token<N>>, pos: nat, end: nat, op: Op, a: N, r: Expr<N>, ops: Ops<N>)
    requires Additive(op) && TokenAt(ts, pos) == Some(OpToken(op))
    requires InTerm(r) && Stands(ts, pos + 1, Flatten(r)) && end == pos + 1 + |Flatten(r)| && AfterTerm(ts, end)
    ensures ExprTail(ts, pos, a, ops) == ExprFrom(ts, end, Applied(op, a, Eval(r, ops), ops), ops)
    decreases r, 4
  {
    TermAlone(ts, pos + 1, r, ops);
    SumRound(ts, pos, op, a, ops);
    RoundOfOperand(ts, pos, op, a, TermAt(ts, pos + 1, ops), Eval(r, ops), end, ops);
  }

  lemma ExprOfBin<N>(ts: seq<Token<N>>, pos: nat, mid: nat, end: nat, e: Expr<N>, ops: Ops<N>)
    requires e.Bin? && pos <= |ts| && mid <= |ts| && end <= |ts|
    requires ExprAt(ts, pos, ops) == ExprFrom(ts, mid, Eval(e.l, ops), ops)
    requires var a := Eval(e.l, ops);
      a.Ok? ==>
        ExprTail(ts, mid, a.value, ops) == ExprFrom(ts, end, Applied(e.op, a.value, Eval(e.r, ops), ops), ops)
    ensures ExprAt(ts, pos, ops) == ExprFrom(ts, end, Eval(e, ops), ops)
  {
  }

  lemma SumComplete<N>(ts: seq<Token<N>>, pos: nat, e: Expr<N>, ops: Ops<N>)
    requires e.Bin? && Additive(e.op) && InExpr(e) && Stands(ts, pos, Flatten(e))
    requires AfterTerm(ts, pos + |Flatten(e)|)
    ensures ExprAt(ts, pos, ops) == ExprFrom(ts, pos + |Flatten(e)|, Eval(e, ops), ops)
    decreases e, 4
  {
    var mid, end := BinParts(ts, pos, e);
    ExprPrefix(ts, pos, e.l, ops);
    var a := Eval(e.l, ops);
    if a.Ok? { SumStep(ts, mid, end, e.op, a.value, e.r, ops); }
    ExprOfBin(ts, pos, mid, end, e, ops);
  }

  lemma SingleTerm<N>(ts: seq<Token<N>>, pos: nat, e: Expr<N>, ops: Ops<N>)
    requires InTerm(e) && Stands(ts, pos, Flatten(e)) && AfterTerm(ts, pos + |Flatten(e)|)
    ensures ExprAt(ts, pos, ops) == ExprFrom(ts, pos + |Flatten(e)|, Eval(e, ops), ops)
    decreases e, 4
  {
    TermAlone(ts, pos, e, ops);
  }

  /** An expression followed by neither `*` nor `/`. */
  lemma {:induction false} ExprPrefix<N>(ts: seq<Token<N>>, pos: nat, e: Expr<N>, ops: Ops<N>)
    requires InExpr(e) && Stands(ts, pos, Flatten(e)) && AfterTerm(ts, pos + |Flatten(e)|)
    ensures ExprAt(ts, pos, ops) == ExprFrom(ts, pos + |Flatten(e)|, Eval(e, ops), ops)
    decreases e, 5
  {
    if e.Bin? && Additive(e.op) {
      SumComplete(ts, pos, e, ops);
    } else {
      SingleTerm(ts, pos, e, ops);
    }
  }

  lemma {:induction false} ExprComplete<N>(ts: seq<Token<N>>, pos: nat, e: Expr<N>, ops: Ops<N>)
    requires InExpr(e) && Stands(ts, pos, Flatten(e))
    requires var t := TokenAt(ts, pos + |Flatten(e)|); t == None || t == Some(RParen)
    ensures var v := Eval(e, ops);
      ExprAt(ts, pos, ops) == if v.Err? then Failed(v.error) else Value(v.value, pos + |Flatten(e)|)
    decreases e, 6
  {
    ExprPrefix(ts, pos, e, ops);
  }

  /** A derivable token list never yields a parse error: it yields its tree's value or division by zero. */
  lemma EvaluateComplete<N>(e: Expr<N>, ops: Ops<N>)
    requires InExpr(e)
    ensures EvaluateTokens(Flatten(e), ops) == Eval(e, ops)
  {
    var ts := Flatten(e);
    assert ts[0..|ts|] == ts;
    ExprComplete(ts, 0, e, ops);
  }

  // ----- soundness: an answer comes from a derivation

  lemma Glue<N>(ts: seq<Token<N>>, i: nat, j: nat, k: nat)
    requires i <= j < k <= |ts|
    ensures ts[i..k] == ts[i..j] + [ts[j]] + ts[j + 1..k]
  {
  }

  lemma GlueFirst<N>(ts: seq<Token<N>>, i: nat, k: nat)
    requires i < k <= |ts|
    ensures ts[i..k] == [ts[i]] + ts[i + 1..k]
  {
  }

  lemma GlueAround<N>(ts: seq<Token<N>>, i: nat, j: nat)
    requires i < j < |ts|
    ensures ts[i..j + 1] == [ts[i]] + ts[i + 1..j] + [ts[j]]
  {
  }

  lemma NegSound<N>(ts: seq<Token<N>>, pos: nat, x: Expr<N>, ops: Ops<N>)
    requires pos < |ts| && ts[pos] == Minus && FactorAt(ts, pos + 1, ops).Value?
    requires var r := FactorAt(ts, pos + 1, ops);
      InFactor(x) && Flatten(x) == ts[pos + 1..r.pos] && Eval(x, ops) == Ok(r.v)
    ensures var r := FactorAt(ts, pos, ops);
      r.Value? && Flatten(Neg(x)) == ts[pos..r.pos] && Eval(Neg(x), ops) == Ok(r.v)
  {
    GlueFirst(ts, pos, FactorAt(ts, pos + 1, ops).pos);
  }

  lemma ParenSound<N>(ts: seq<Token<N>>, pos: nat, x: Expr<N>, ops: Ops<N>)
    requires pos < |ts| && ts[pos] == LParen && FactorAt(ts, pos, ops).Value? && ExprAt(ts, pos + 1, ops).Value?
    requires var r := ExprAt(ts, pos + 1, ops);
      InExpr(x) && Flatten(x) == ts[pos + 1..r.pos] && Eval(x, ops) == Ok(r.v)
    ensures var r := FactorAt(ts, pos, ops);
      Flatten(Paren(x)) == ts[pos..r.pos] && Eval(Paren(x), ops) == Ok(r.v)
  {
    GlueAround(ts, pos, ExprAt(ts, pos + 1, ops).pos);
  }

  lemma {:induction false} FactorSound<N>(ts: seq<Token<N>>, pos: nat, ops: Ops<N>) returns (e: Expr<N>)
    requires pos <= |ts| && FactorAt(ts, pos, ops).Value?
    ensures var r := FactorAt(ts, pos, ops);
      InFactor(e) && Flatten(e) == ts[pos..r.pos] && Eval(e, ops) == Ok(r.v)
    decreases |ts| - pos, 0
  {
    match ts[pos] {
      case Num(n) =>
        e := Lit(n);
      case Minus =>
        var x := FactorSound(ts, pos + 1, ops);
        NegSound(ts, pos, x, ops);
        e := Neg(x);
      case LParen =>
        var x := ExprSound(ts, pos + 1, ops);
        ParenSound(ts, pos, x, ops);
        e := Paren(x);
    }
  }

  lemma {:induction false} TermSound<N>(ts: seq<Token<N>>, pos: nat, ops: Ops<N>) returns (e: Expr<N>)
    requires pos <= |ts| && TermAt(ts, pos, ops).Value?
    ensures var r := TermAt(ts, pos, ops);
      InTerm(e) && Flatten(e) == ts[pos..r.pos] && Eval(e, ops) == Ok(r.v)
    decreases |ts| - pos, 2
  {
    var f := FactorAt(ts, pos, ops);
    var x := FactorSound(ts, pos, ops);
    e := TermTailSound(ts, pos, f.pos, x, f.v, ops);
  }

  lemma {:induction false} TermTailSound<N>(ts: seq<Token<N>>, start: nat, pos: nat, e0: Expr<N>, v: N, ops: Ops<N>)
    returns (e: Expr<N>)
    requires start < pos <= |ts| && TermTail(ts, pos, v, ops).Value?
    requires InTerm(e0) && Flatten(e0) == ts[start..pos] && Eval(e0, ops) == Ok(v)
    ensures var r := TermTail(ts, pos, v, ops);
      InTerm(e) && Flatten(e) == ts[start..r.pos] && Eval(e, ops) == Ok(r.v)
    decreases |ts| - pos, 1
  {
    var t := TokenAt(ts, pos);
    if t == Some(Star) || t == Some(Slash) {
      var f := FactorAt(ts, pos + 1, ops);
      var x := FactorSound(ts, pos + 1, ops);
      Glue(ts, start, pos, f.pos);
      var e1 := Bin(if t == Some(Star) then Mul else Div, e0, x);
      e := TermTailSound(ts, start, f.pos, e1, Eval(e1, ops).value, ops);
    } else {
      e := e0;
    }
  }

  lemma {:induction false} ExprSound<N>(ts: seq<Token<N>>, pos: nat, ops: Ops<N>) returns (e: Expr<N>)
    requires pos <= |ts| && ExprAt(ts, pos, ops).Value?
    ensures var r := ExprAt(ts, pos, ops);
      InExpr(e) && Flatten(e) == ts[pos..r.pos] && Eval(e, ops) == Ok(r.v)
    decreases |ts| - pos, 4
  {
    var f := TermAt(ts, pos, ops);
    var x := TermSound(ts, pos, ops);
    e := ExprTailSound(ts, pos, f.pos, x, f.v, ops);
  }

  lemma {:induction false} ExprTailSound<N>(ts: seq<Token<N>>, start: nat, pos: nat, e0: Expr<N>, v: N, ops: Ops<N>)
    returns (e: Expr<N>)
    requires start < pos <= |ts| && ExprTail(ts, pos, v, ops).Value?
    requires InExpr(e0) && Flatten(e0) == ts[start..pos] && Eval(e0, ops) == Ok(v)
    ensures var r := ExprTail(ts, pos, v, ops);
      InExpr(e) && Flatten(e) == ts[start..r.pos] && Eval(e, ops) == Ok(r.v)
    decreases |ts| - pos, 3
  {
    var t := TokenAt(ts, pos);
    if t == Some(Plus) || t == Some(Minus) {
      var f := TermAt(ts, pos + 1, ops);
      var x := TermSound(ts, pos + 1, ops);
      Glue(ts, start, pos, f.pos);
      var e1 := Bin(if t == Some(Plus) then Add else Sub, e0, x);
      e := ExprTailSound(ts, start, f.pos, e1, Eval(e1, ops).value, ops);
    } else {
      e := e0;
    }
  }

  /** Ok(v) is returned exactly for the token lists the grammar derives with a tree of value v. */
  lemma EvaluateExact<N>(ts: seq<Token<N>>, ops: Ops<N>, v: N)
    ensures EvaluateTokens(ts, ops) == Ok(v)
       <==> exists e :: InExpr(e) && Flatten(e) == ts && Eval(e, ops) == Ok(v)
  {
    if EvaluateTokens(ts, ops) == Ok(v) {
      var e := ExprSound(ts, 0, ops);
      assert ts[0..|ts|] == ts;
    }
    if e :| InExpr(e) && Flatten(e) == ts && Eval(e, ops) == Ok(v) {
      EvaluateComplete(e, ops);
    }
  }

  // ----- the grammar is unambiguous: run the same parser over trees as numbers

  /** The operations that build trees instead of computing. */
  function TreeOps<N>(): Ops<Expr<N>> {
    Ops((a, b) => Bin(Add, a, b), (a, b) => Bin(Sub, a, b), (a, b) => Bin(Mul, a, b), (a, b) => Bin(Div, a, b),
        a => Neg(a), a => false, text => None)
  }

  function Quote<N>(e: Expr<N>): Expr<Expr<N>> {
    match e
    case Lit(n) => Lit(Lit(n))
    case Neg(x) => Neg(Quote(x))
    case Bin(op, l, r) => Bin(op, Quote(l), Quote(r))
    case Paren(x) => Paren(Quote(x))
  }

  /** The abstract tree: parentheses have done their work. */
  function Strip<N>(e: Expr<N>): Expr<N> {
    match e
    case Lit(_) => e
    case Neg(x) => Neg(Strip(x))
    case Bin(op, l, r) => Bin(op, Strip(l), Strip(r))
    case Paren(x) => Strip(x)
  }

  function QuoteTokens<N>(ts: seq<Token<N>>): (qs: seq<Token<Expr<N>>>)
    ensures |qs| == |ts|
  {
    if ts == [] then [] else
      [match ts[0]
       case Num(n) => Num(Lit(n))
       case Plus => Plus
       case Minus => Minus
       case Star => Star
       case Slash => Slash
       case LParen => LParen
       case RParen => RParen] + QuoteTokens(ts[1..])
  }

  lemma {:induction false} QuoteAppend<N>(a: seq<Token<N>>, b: seq<Token<N>>)
    ensures QuoteTokens(a + b) == QuoteTokens(a) + QuoteTokens(b)
  {
    if a == [] {
      assert a + b == b;
    } else {
      assert (a + b)[0] == a[0] && (a + b)[1..] == a[1..] + b;
      QuoteAppend(a[1..], b);
    }
  }

  lemma {:induction false} QuoteFlatten<N>(e: Expr<N>)
    ensures Flatten(Quote(e)) == QuoteTokens(Flatten(e))
  {
    match e
    case Lit(_) =>
    case Neg(x) =>
      QuoteFlatten(x);
      QuoteAppend([Minus], Flatten(x));
    case Bin(op, l, r) =>
      QuoteFlatten(l);
      QuoteFlatten(r);
      QuoteAppend(Flatten(l) + [OpToken(op)], Flatten(r));
      QuoteAppend(Flatten(l), [OpToken(op)]);
    case Paren(x) =>
      QuoteFlatten(x);
      QuoteAppend([LParen] + Flatten(x), [RParen]);
      QuoteAppend([LParen], Flatten(x));
  }

  lemma {:induction false} QuoteEval<N>(e: Expr<N>)
    ensures Eval(Quote(e), TreeOps()) == Ok(Strip(e))
  {
    match e
    case Lit(_) =>
    case Neg(x) => QuoteEval(x);
    case Bin(_, l, r) =>
      QuoteEval(l);
      QuoteEval(r);
    case Paren(x) => QuoteEval(x);
  }

  lemma {:induction false} QuoteInGrammar<N>(e: Expr<N>)
    ensures InFactor(Quote(e)) == InFactor(e)
    ensures InTerm(Quote(e)) == InTerm(e)
    ensures InExpr(Quote(e)) == InExpr(e)
  {
    match e {
      case Lit(_) =>
      case Neg(x) => QuoteInGrammar(x);
      case Bin(_, l, r) =>
        QuoteInGrammar(l);
        QuoteInGrammar(r);
      case Paren(x) => QuoteInGrammar(x);
    }
    assert InFactor(Quote(e)) == InFactor(e);
    assert InTerm(Quote(e)) == InTerm(e);
  }

  /** A token list has at most one tree: precedence and left associativity leave no choice. */
  lemma UniqueTree<N>(e: Expr<N>, f: Expr<N>)
    requires InExpr(e) && InExpr(f) && Flatten(e) == Flatten(f)
    ensures Strip(e) == Strip(f)
  {
    QuoteInGrammar(e);
    QuoteInGrammar(f);
    QuoteFlatten(e);
    QuoteFlatten(f);
    QuoteEval(e);
    QuoteEval(f);
    EvaluateComplete(Quote(e), TreeOps());
    EvaluateComplete(Quote(f), TreeOps());
  }

  // ----- rendering with only the parentheses that precedence needs

  predicate NoParens<N>(e: Expr<N>) {
    match e
    case Lit(_) => true
    case Neg(x) => NoParens(x)
    case Bin(_, l, r) => NoParens(l) && NoParens(r)
    case Paren(_) => false
  }

  /** 0 for sums, 1 for products, 2 for what binds tighter. */
  function Level<N>(e: Expr<N>): nat {
    if e.Bin? then (if Additive(e.op) then 0 else 1) else 2
  }

  /** Parenthesise where an operand binds looser than its place, and nowhere else. */
  function Minimal<N>(e: Expr<N>, place: nat): Expr<N>
    decreases e
  {
    var core := match e
      case Lit(_) => e
      case Neg(x) => Neg(Minimal(x, 2))
      case Bin(op, l, r) => Bin(op, Minimal(l, Level(e)), Minimal(r, Level(e) + 1))
      case Paren(x) => Minimal(x, 0);
    if Level(e) < place then Paren(core) else core
  }

  lemma {:induction false} MinimalDerivable<N>(e: Expr<N>, place: nat, ops: Ops<N>)
    requires NoParens(e) && place <= 2
    ensures place == 0 ==> InExpr(Minimal(e, place))
    ensures place == 1 ==> InTerm(Minimal(e, place))
    ensures place == 2 ==> InFactor(Minimal(e, place))
    ensures Eval(Minimal(e, place), ops) == Eval(e, ops)
    ensures Strip(Minimal(e, place)) == e
    decreases e
  {
    match e
    case Lit(_) =>
    case Neg(x) => MinimalDerivable(x, 2, ops);
    case Bin(_, l, r) =>
      MinimalDerivable(l, Level(e), ops);
      MinimalDerivable(r, Level(e) + 1, ops);
  }

  /** Rendering a tree and evaluating the tokens gives the tree's value, or division by zero. */
  lemma RenderRoundTrip<N>(e: Expr<N>, ops: Ops<N>)
    requires NoParens(e)
    ensures EvaluateTokens(Flatten(Minimal(e, 0)), ops) == Eval(e, ops)
    ensures forall f :: InExpr(f) && Flatten(f) == Flatten(Minimal(e, 0)) ==> Strip(f) == e
  {
    MinimalDerivable(e, 0, ops);
    EvaluateComplete(Minimal(e, 0), ops);
    forall f | InExpr(f) && Flatten(f) == Flatten(Minimal(e, 0)) ensures Strip(f) == e {
      UniqueTree(f, Minimal(e, 0));
    }
  }

  // ----- error order: nothing after a zero divisor is looked at

  /** How a parse continues when more tokens are appended: unless it saw the end, it does not notice. */
  ghost predicate Unaffected<N>(n: nat, before: Parsed<N>, after: Parsed<N>) {
    match before
    case Value(_, q) => q < n ==> after == before
    case Failed(e) => e == DivisionByZero ==> after == before
  }

  lemma {:induction false} FactorExtend<N>(ts: seq<Token<N>>, us: seq<Token<N>>, pos: nat, ops: Ops<N>)
    requires pos <= |ts|
    ensures var r := FactorAt(ts, pos, ops);
      r.Value? || r == Failed(DivisionByZero) ==> FactorAt(ts + us, pos, ops) == r
    decreases |ts| - pos, 0
  {
    if pos < |ts| {
      assert (ts + us)[pos] == ts[pos];
      match ts[pos]
      case Minus => FactorExtend(ts, us, pos + 1, ops);
      case LParen => ExprExtend(ts, us, pos + 1, ops);
      case _ =>
    }
  }

  lemma {:induction false} TermExtend<N>(ts: seq<Token<N>>, us: seq<Token<N>>, pos: nat, ops: Ops<N>)
    requires pos <= |ts|
    ensures Unaffected(|ts|, TermAt(ts, pos, ops), TermAt(ts + us, pos, ops))
    decreases |ts| - pos, 2
  {
    FactorExtend(ts, us, pos, ops);
    var r := FactorAt(ts, pos, ops);
    if r.Value? { TermTailExtend(ts, us, r.pos, r.v, ops); }
  }

  lemma {:induction false} TermTailExtend<N>(ts: seq<Token<N>>, us: seq<Token<N>>, pos: nat, v: N, ops: Ops<N>)
    requires pos <= |ts|
    ensures Unaffected(|ts|, TermTail(ts, pos, v, ops), TermTail(ts + us, pos, v, ops))
    decreases |ts| - pos, 1
  {
    var t := TokenAt(ts, pos);
    if t == Some(Star) || t == Some(Slash) {
      FactorExtend(ts, us, pos + 1, ops);
      var r := FactorAt(ts, pos + 1, ops);
      if r.Value? && !(t == Some(Slash) && ops.isZero(r.v)) {
        TermTailExtend(ts, us, r.pos, if t == Some(Star) then ops.mul(v, r.v) else ops.div(v, r.v), ops);
      }
    }
  }

  lemma {:induction false} ExprExtend<N>(ts: seq<Token<N>>, us: seq<Token<N>>, pos: nat, ops: Ops<N>)
    requires pos <= |ts|
    ensures Unaffected(|ts|, ExprAt(ts, pos, ops), ExprAt(ts + us, pos, ops))
    decreases |ts| - pos, 4
  {
    TermExtend(ts, us, pos, ops);
    var r := TermAt(ts, pos, ops);
    if r.Value? {
      if r.pos < |ts| {
        ExprTailExtend(ts, us, r.pos, r.v, ops);
      }
    }
  }

  lemma {:induction false} ExprTailExtend<N>(ts: seq<Token<N>>, us: seq<Token<N>>, pos: nat, v: N, ops: Ops<N>)
    requires pos <= |ts|
    ensures Unaffected(|ts|, ExprTail(ts, pos, v, ops), ExprTail(ts + us, pos, v, ops))
    decreases |ts| - pos, 3
  {
    var t := TokenAt(ts, pos);
    if t == Some(Plus) || t == Some(Minus) {
      TermExtend(ts, us, pos + 1, ops);
      var r := TermAt(ts, pos + 1, ops);
      if r.Value? && r.pos < |ts| {
        ExprTailExtend(ts, us, r.pos, if t == Some(Plus) then ops.add(v, r.v) else ops.sub(v, r.v), ops);
      }
    }
  }

  /** Once a zero divisor is met the answer is fixed: no continuation, well-formed or not, changes it. */
  lemma DivisionByZeroWins<N>(ts: seq<Token<N>>, us: seq<Token<N>>, ops: Ops<N>)
    requires EvaluateTokens(ts, ops) == Err(DivisionByZero)
    ensures EvaluateTokens(ts + us, ops) == Err(DivisionByZero)
  {
    ExprExtend(ts, us, 0, ops);
  }

  // ----- from characters

  /** The words of a tree over numeral texts, one for each token. */
  function Words(e: Expr<string>): seq<string> {
    match e
    case Lit(text) => [text]
    case Neg(x) => ["-"] + Words(x)
    case Bin(op, l, r) => Words(l) + [[OpChar(op)]] + Words(r)
    case Paren(x) => ["("] + Words(x) + [")"]
  }

  /** The words written one after the other, with a gap before, between and after them. */
  function Spread(words: seq<string>, gaps: seq<string>): string
    requires |gaps| == |words| + 1
  {
    if words == [] then gaps[0] else gaps[0] + (words[0] + Spread(words[1..], gaps[1..]))
  }

  /** The characters of numerals and of gaps, written out. */
  predicate OfNumerals(text: string) { forall c :: c in text ==> c in "0123456789." }

  predicate OfSpaces(gap: string) { forall c :: c in gap ==> c in " \t\r\n" }

  /** Gaps hold any white space, or nothing. */
  predicate Blank(gaps: seq<string>) {
    forall g :: g in gaps ==> OfSpaces(g)
  }

  /** The tokenizer's character classes are those, and the operators and parentheses have one each. */
  lemma CharacterClasses<N>(c: char)
    ensures IsNumeral(c) <==> c in "0123456789."
    ensures IsSpace(c) <==> c in " \t\r\n"
    ensures Symbol<N>(c).Some? <==> c in "+-*/()"
    ensures !(IsNumeral(c) && IsSpace(c)) && (Symbol<N>(c).Some? ==> !IsNumeral(c) && !IsSpace(c))
  {
  }

  lemma NumeralCharacters(text: string)
    requires OfNumerals(text)
    ensures forall c :: c in text ==> IsNumeral(c)
  {
    forall c | c in text ensures IsNumeral(c) { CharacterClasses<int>(c); }
  }

  lemma SpaceCharacters(gap: string)
    requires OfSpaces(gap)
    ensures forall c :: c in gap ==> IsSpace(c)
  {
    forall c | c in gap ensures IsSpace(c) { CharacterClasses<int>(c); }
  }

  function OpChar(op: Op): char {
    match op
    case Add => '+'
    case Sub => '-'
    case Mul => '*'
    case Div => '/'
  }

  /** Every literal is a numeral the number parser accepts. */
  ghost predicate Readable<N>(e: Expr<string>, ops: Ops<N>) {
    match e
    case Lit(text) => text != [] && OfNumerals(text) && ops.parse(text).Some?
    case Neg(x) => Readable(x, ops)
    case Bin(_, l, r) => Readable(l, ops) && Readable(r, ops)
    case Paren(x) => Readable(x, ops)
  }

  function Read<N>(e: Expr<string>, ops: Ops<N>): Expr<N>
    requires Readable(e, ops)
  {
    match e
    case Lit(text) => Lit(ops.parse(text).value)
    case Neg(x) => Neg(Read(x, ops))
    case Bin(op, l, r) => Bin(op, Read(l, ops), Read(r, ops))
    case Paren(x) => Paren(Read(x, ops))
  }

  ghost function Tokens<N>(s: string, ops: Ops<N>): Result<seq<Token<N>>, CalcError> {
    TokensFrom(s, 0, ops)
  }

  lemma {:induction false} ShiftNumeral(s: string, t: string, i: nat)
    requires i <= |t|
    ensures NumeralEnd(s + t, |s| + i) == |s| + NumeralEnd(t, i)
    decreases |t| - i
  {
    if i < |t| && IsNumeral(t[i]) {
      assert (s + t)[|s| + i] == t[i];
      ShiftNumeral(s, t, i + 1);
    } else if i < |t| {
      assert (s + t)[|s| + i] == t[i];
    }
  }

  lemma AlikeCharacter<N>(s: string, i: nat, t: string, j: nat, ops: Ops<N>)
    requires i < |s| && j < |t| && s[i] == t[j] && (IsSpace(t[j]) || Symbol<N>(t[j]).Some?)
    requires TokensFrom(s, i + 1, ops) == TokensFrom(t, j + 1, ops)
    ensures TokensFrom(s, i, ops) == TokensFrom(t, j, ops)
  {
  }

  lemma AlikeNumeral<N>(s: string, i: nat, m: nat, t: string, j: nat, n: nat, ops: Ops<N>)
    requires i < |s| && j < |t| && s[i] == t[j] && IsNumeral(t[j])
    requires m == NumeralEnd(s, i + 1) && n == NumeralEnd(t, j + 1) && s[i..m] == t[j..n]
    requires TokensFrom(s, m, ops) == TokensFrom(t, n, ops)
    ensures TokensFrom(s, i, ops) == TokensFrom(t, j, ops)
  {
  }

  lemma {:induction false} ShiftTokens<N>(s: string, t: string, i: nat, ops: Ops<N>)
    requires i <= |t|
    ensures TokensFrom(s + t, |s| + i, ops) == TokensFrom(t, i, ops)
    decreases |t| - i
  {
    if i < |t| {
      assert (s + t)[|s| + i] == t[i];
      if IsSpace(t[i]) || Symbol<N>(t[i]).Some? {
        ShiftTokens(s, t, i + 1, ops);
        AlikeCharacter(s + t, |s| + i, t, i, ops);
      } else if IsNumeral(t[i]) {
        var j := NumeralEnd(t, i + 1);
        ShiftNumeral(s, t, i + 1);
        SliceOfSum(s, t, i, j);
        ShiftTokens(s, t, j, ops);
        AlikeNumeral(s + t, |s| + i, |s| + j, t, i, j, ops);
      }
    }
  }

  lemma {:induction false} SkipGap<N>(gap: string, rest: string, ops: Ops<N>)
    requires OfSpaces(gap)
    ensures Tokens(gap + rest, ops) == Tokens(rest, ops)
    decreases |gap|
  {
    if gap == [] {
      assert gap + rest == rest;
    } else {
      assert gap + rest == [gap[0]] + (gap[1..] + rest);
      SpaceCharacters(gap);
      ShiftTokens([gap[0]], gap[1..] + rest, 0, ops);
      SkipGap(gap[1..], rest, ops);
    }
  }

  lemma ReadSymbol<N>(c: char, rest: string, ops: Ops<N>)
    requires Symbol<N>(c).Some?
    ensures Tokens([c] + rest, ops) == Push(Symbol<N>(c).value, Tokens(rest, ops))
  {
    ShiftTokens([c], rest, 0, ops);
  }

  lemma {:induction false} NumeralRun(text: string, rest: string, i: nat)
    requires i <= |text| && (forall c :: c in text ==> IsNumeral(c))
    requires rest == [] || !IsNumeral(rest[0])
    ensures NumeralEnd(text + rest, i) == |text|
    decreases |text| - i
  {
    if i < |text| {
      assert (text + rest)[i] == text[i] && text[i] in text;
      NumeralRun(text, rest, i + 1);
    } else if rest != [] {
      assert (text + rest)[i] == rest[0];
    }
  }

  lemma ReadNumeral<N>(text: string, rest: string, ops: Ops<N>)
    requires Readable(Lit(text), ops) && (rest == [] || !IsNumeral(rest[0]))
    ensures Tokens(text + rest, ops) == Push(Num(ops.parse(text).value), Tokens(rest, ops))
  {
    NumeralCharacters(text);
    NumeralRun(text, rest, 1);
    assert text[0] in text && (text + rest)[0] == text[0];
    assert (text + rest)[0..|text|] == text;
    ShiftTokens(text, rest, 0, ops);
  }

  predicate IsSymbolWord<N>(w: string, ops: Ops<N>) {
    |w| == 1 && Symbol<N>(w[0]).Some?
  }

  ghost predicate IsWord<N>(w: string, ops: Ops<N>) {
    IsSymbolWord(w, ops) || Readable(Lit(w), ops)
  }

  ghost function TokenOf<N>(w: string, ops: Ops<N>): Token<N>
    requires IsWord(w, ops)
  {
    if IsSymbolWord(w, ops) then Symbol<N>(w[0]).value else Num(ops.parse(w).value)
  }

  ghost predicate AreWords<N>(ws: seq<string>, ops: Ops<N>) {
    forall i :: 0 <= i < |ws| ==> IsWord(ws[i], ops)
  }

  /** Words of which no two numerals are neighbours. */
  ghost predicate Separate<N>(ws: seq<string>, ops: Ops<N>) {
    && AreWords(ws, ops)
    && (forall i, j :: 0 <= i < j < |ws| && j == i + 1 ==> IsSymbolWord(ws[i], ops) || IsSymbolWord(ws[j], ops))
  }

  /** Words with gaps, some white space standing between neighbouring numerals. */
  ghost predicate Apart<N>(ws: seq<string>, gaps: seq<string>, ops: Ops<N>) {
    && |gaps| == |ws| + 1 && Blank(gaps) && AreWords(ws, ops)
    && (forall i, j :: 0 <= i < j < |ws| && j == i + 1 ==>
          IsSymbolWord(ws[i], ops) || IsSymbolWord(ws[j], ops) || gaps[j] != [])
  }

  ghost function TokensOf<N>(ws: seq<string>, ops: Ops<N>): seq<Token<N>>
    requires AreWords(ws, ops)
  {
    seq(|ws|, i requires 0 <= i < |ws| => TokenOf(ws[i], ops))
  }

  /** What follows a numeral does not continue it. */
  lemma SpreadHead<N>(ws: seq<string>, gaps: seq<string>, ops: Ops<N>)
    requires |gaps| == |ws| + 1 && Blank(gaps) && (ws == [] || IsSymbolWord(ws[0], ops) || gaps[0] != [])
    ensures Spread(ws, gaps) == [] || !IsNumeral(Spread(ws, gaps)[0])
  {
    assert gaps[0] in gaps;
    SpaceCharacters(gaps[0]);
    if gaps[0] != [] {
      assert gaps[0][0] in gaps[0];
    }
  }

  lemma ApartTail<N>(ws: seq<string>, gaps: seq<string>, ops: Ops<N>)
    requires Apart(ws, gaps, ops) && ws != []
    ensures Apart(ws[1..], gaps[1..], ops)
    ensures IsSymbolWord(ws[0], ops) || |ws| == 1 || IsSymbolWord(ws[1], ops) || gaps[1] != []
  {
    assert forall g :: g in gaps[1..] ==> g in gaps;
  }

  /** The characters give back the tokens, whatever the gaps. */
  lemma {:induction false} SpreadTokens<N>(ws: seq<string>, gaps: seq<string>, ops: Ops<N>)
    requires Apart(ws, gaps, ops)
    ensures Tokens(Spread(ws, gaps), ops) == Ok(TokensOf(ws, ops))
    decreases |ws|
  {
    assert gaps[0] in gaps;
    if ws == [] {
      assert gaps[0] + [] == gaps[0];
      SkipGap(gaps[0], [], ops);
      assert TokensOf(ws, ops) == [];
    } else {
      ApartTail(ws, gaps, ops);
      var rest := Spread(ws[1..], gaps[1..]);
      SkipGap(gaps[0], ws[0] + rest, ops);
      SpreadTokens(ws[1..], gaps[1..], ops);
      if IsSymbolWord(ws[0], ops) {
        assert ws[0] == [ws[0][0]];
        ReadSymbol(ws[0][0], rest, ops);
      } else {
        SpreadHead(ws[1..], gaps[1..], ops);
        ReadNumeral(ws[0], rest, ops);
      }
      assert TokensOf(ws, ops) == [TokenOf(ws[0], ops)] + TokensOf(ws[1..], ops);
    }
  }

  /** Two pieces with a symbol between them stay separate. */
  lemma JoinWords<N>(a: seq<string>, symbol: string, b: seq<string>, ops: Ops<N>)
    requires Separate(a, ops) && IsSymbolWord(symbol, ops) && Separate(b, ops)
    ensures Separate(a + [symbol] + b, ops)
    ensures TokensOf(a + [symbol] + b, ops) == TokensOf(a, ops) + [TokenOf(symbol, ops)] + TokensOf(b, ops)
  {
    var all := a + [symbol] + b;
    forall i | 0 <= i < |all| ensures IsWord(all[i], ops) {
      assert all[i] == if i < |a| then a[i] else if i == |a| then symbol else b[i - |a| - 1];
    }
    forall i, j | 0 <= i < j < |all| && j == i + 1 ensures IsSymbolWord(all[i], ops) || IsSymbolWord(all[j], ops) {
      if j < |a| {
        assert all[i] == a[i] && all[j] == a[j];
      } else if i > |a| {
        assert all[i] == b[i - |a| - 1] && all[j] == b[j - |a| - 1];
      }
    }
  }

  lemma NumeralWord<N>(text: string, ops: Ops<N>)
    requires Readable(Lit(text), ops)
    ensures !IsSymbolWord(text, ops)
    ensures Separate([text], ops) && TokensOf([text], ops) == [Num(ops.parse(text).value)]
  {
    NumeralCharacters(text);
    assert text[0] in text;
  }

  lemma ParenWords<N>(ws: seq<string>, ops: Ops<N>)
    requires Separate(ws, ops)
    ensures Separate(["("] + ws + [")"], ops)
    ensures TokensOf(["("] + ws + [")"], ops) == [LParen] + TokensOf(ws, ops) + [RParen]
  {
    JoinWords([], "(", ws, ops);
    assert [] + ["("] + ws == ["("] + ws;
    JoinWords(["("] + ws, ")", [], ops);
    assert ["("] + ws + [")"] + [] == ["("] + ws + [")"];
  }

  /** Two literals are never adjacent, so the words of a tree are its tokens. */
  lemma {:induction false} WordsAreTokens<N>(e: Expr<string>, ops: Ops<N>)
    requires Readable(e, ops)
    ensures Separate(Words(e), ops) && TokensOf(Words(e), ops) == Flatten(Read(e, ops))
    decreases e
  {
    match e
    case Lit(text) =>
      NumeralWord(text, ops);
    case Neg(x) =>
      WordsAreTokens(x, ops);
      JoinWords([], "-", Words(x), ops);
      assert [] + ["-"] + Words(x) == Words(e);
    case Bin(op, l, r) =>
      WordsAreTokens(l, ops);
      WordsAreTokens(r, ops);
      JoinWords(Words(l), [OpChar(op)], Words(r), ops);
    case Paren(x) =>
      WordsAreTokens(x, ops);
      ParenWords(Words(x), ops);
  }

  /** Writing an expression out, with any white space before, between and after its tokens and any
      redundant parentheses, and evaluating the text gives the value of the expression. */
  lemma TextRoundTrip<N>(e: Expr<string>, gaps: seq<string>, ops: Ops<N>)
    requires Readable(e, ops) && InExpr(Read(e, ops)) && Blank(gaps) && |gaps| == |Words(e)| + 1
    ensures EvaluateText(Spread(Words(e), gaps), ops) == Eval(Read(e, ops), ops)
  {
    WordsAreTokens(e, ops);
    SpreadTokens(Words(e), gaps, ops);
    EvaluateComplete(Read(e, ops), ops);
  }

  lemma {:induction false} ReadMinimal<N>(e: Expr<string>, place: nat, ops: Ops<N>)
    requires NoParens(e) && Readable(e, ops)
    ensures Readable(Minimal(e, place), ops) && Read(Minimal(e, place), ops) == Minimal(Read(e, ops), place)
    ensures NoParens(Read(e, ops))
    decreases e
  {
    match e
    case Lit(_) =>
    case Neg(x) => ReadMinimal(x, 2, ops);
    case Bin(_, l, r) =>
      ReadMinimal(l, Level(e), ops);
      ReadMinimal(r, Level(e) + 1, ops);
  }

  /** For every expression: write it with only the parentheses precedence needs, call `evaluate` on
      the text, and get its value or division by zero, never a parse error. */
  lemma RenderTextRoundTrip<N>(e: Expr<string>, gaps: seq<string>, ops: Ops<N>)
    requires NoParens(e) && Readable(e, ops) && Blank(gaps) && |gaps| == |Words(Minimal(e, 0))| + 1
    ensures EvaluateText(Spread(Words(Minimal(e, 0)), gaps), ops) == Eval(Read(e, ops), ops)
    ensures var r := EvaluateText(Spread(Words(Minimal(e, 0)), gaps), ops); r.Ok? || r.error == DivisionByZero
  {
    ReadMinimal(e, 0, ops);
    MinimalDerivable(Read(e, ops), 0, ops);
    TextRoundTrip(Minimal(e, 0), gaps, ops);
    EvalErrors(Read(e, ops), ops);
  }
}
