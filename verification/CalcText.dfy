/** Which texts the calculator accepts, and what it answers for them.

    `Spread(words, gaps)` is the text of words with white space around them. The tokenizer accepts
    exactly such texts, and `evaluate` returns a value exactly for those whose words are the words of
    an expression in the grammar. */
module CalcText {
  import opened Calc
  import opened CalcGrammar
  import opened Sequences
  import opened Wrappers

  // ----- the tokenizer

  lemma TokensTail<N>(s: string, i: nat, ops: Ops<N>)
    requires i <= |s|
    ensures TokensFrom(s, i, ops) == Tokens(s[i..], ops)
  {
    TwoPieces(s, i);
    ShiftTokens(s[..i], s[i..], 0, ops);
  }

  lemma GapFirst<N>(c: char, ws: seq<string>, gaps: seq<string>, ops: Ops<N>)
    requires IsSpace(c) && Apart(ws, gaps, ops)
    ensures Apart(ws, gaps[0 := [c] + gaps[0]], ops)
    ensures Spread(ws, gaps[0 := [c] + gaps[0]]) == [c] + Spread(ws, gaps)
  {
    var longer := gaps[0 := [c] + gaps[0]];
    CharacterClasses<N>(c);
    assert gaps[0] in gaps;
    assert OfSpaces([c] + gaps[0]);
    forall g | g in longer ensures OfSpaces(g) {
      assert g == longer[0] || g in gaps;
    }
    assert longer[1..] == gaps[1..];
  }

  lemma ApartFirst<N>(w: string, ws: seq<string>, gaps: seq<string>, ops: Ops<N>)
    requires IsWord(w, ops) && Apart(ws, gaps, ops)
    requires IsSymbolWord(w, ops) || ws == [] || IsSymbolWord(ws[0], ops) || gaps[0] != []
    ensures Apart([w] + ws, [""] + gaps, ops)
  {
    var words, spaces := [w] + ws, [""] + gaps;
    forall g | g in spaces ensures OfSpaces(g) {
      assert g == "" || g in gaps;
    }
    forall i, j | 0 <= i < j < |words| && j == i + 1
      ensures IsSymbolWord(words[i], ops) || IsSymbolWord(words[j], ops) || spaces[j] != []
    {
      if i > 0 {
        assert words[i] == ws[i - 1] && words[j] == ws[j - 1] && spaces[j] == gaps[j - 1];
      }
    }
  }

  lemma SpreadFirst(w: string, ws: seq<string>, gaps: seq<string>)
    requires |gaps| == |ws| + 1
    ensures Spread([w] + ws, [""] + gaps) == w + Spread(ws, gaps)
  {
    assert ([w] + ws)[1..] == ws && ([""] + gaps)[1..] == gaps;
    assert "" + (w + Spread(ws, gaps)) == w + Spread(ws, gaps);
  }

  lemma TokensOfFirst<N>(w: string, ws: seq<string>, ops: Ops<N>)
    requires IsWord(w, ops) && AreWords(ws, ops)
    ensures AreWords([w] + ws, ops) && TokensOf([w] + ws, ops) == [TokenOf(w, ops)] + TokensOf(ws, ops)
  {
  }

  lemma WordFirst<N>(w: string, ws: seq<string>, gaps: seq<string>, ops: Ops<N>)
    requires IsWord(w, ops) && Apart(ws, gaps, ops)
    requires IsSymbolWord(w, ops) || ws == [] || IsSymbolWord(ws[0], ops) || gaps[0] != []
    ensures Apart([w] + ws, [""] + gaps, ops)
    ensures Spread([w] + ws, [""] + gaps) == w + Spread(ws, gaps)
    ensures TokensOf([w] + ws, ops) == [TokenOf(w, ops)] + TokensOf(ws, ops)
  {
    ApartFirst(w, ws, gaps, ops);
    SpreadFirst(w, ws, gaps);
    TokensOfFirst(w, ws, ops);
  }

  /** A text the tokenizer accepts is a text of words. */
  lemma {:induction false} Unspread<N>(s: string, ops: Ops<N>) returns (ws: seq<string>, gaps: seq<string>)
    requires Tokens(s, ops).Ok?
    ensures Apart(ws, gaps, ops) && s == Spread(ws, gaps) && Tokens(s, ops) == Ok(TokensOf(ws, ops))
    decreases |s|
  {
    if s == [] {
      ws, gaps := [], [""];
      assert TokensOf<N>([], ops) == [];
    } else if IsSpace(s[0]) {
      TokensTail(s, 1, ops);
      ws, gaps := Unspread(s[1..], ops);
      GapFirst(s[0], ws, gaps, ops);
      gaps := gaps[0 := [s[0]] + gaps[0]];
    } else if Symbol<N>(s[0]).Some? {
      TokensTail(s, 1, ops);
      ws, gaps := Unspread(s[1..], ops);
      WordFirst([s[0]], ws, gaps, ops);
      ws, gaps := [[s[0]]] + ws, [""] + gaps;
    } else {
      ws, gaps := UnspreadNumeral(s, ops);
    }
  }

  lemma {:induction false} UnspreadNumeral<N>(s: string, ops: Ops<N>) returns (ws: seq<string>, gaps: seq<string>)
    requires s != [] && Tokens(s, ops).Ok? && !IsSpace(s[0]) && Symbol<N>(s[0]).None?
    ensures Apart(ws, gaps, ops) && s == Spread(ws, gaps) && Tokens(s, ops) == Ok(TokensOf(ws, ops))
    decreases |s|, 0
  {
    var j := NumeralEnd(s, 1);
    var w := s[..j];
    assert s[0..j] == w;
    TokensTail(s, j, ops);
    ws, gaps := Unspread(s[j..], ops);
    forall c | c in w ensures c in "0123456789." { CharacterClasses<N>(c); }
    NumeralWord(w, ops);
    NumeralStops(s, j, ws, gaps, ops);
    WordFirst(w, ws, gaps, ops);
    TwoPieces(s, j);
    ws, gaps := [w] + ws, [""] + gaps;
  }

  lemma NumeralHead<N>(ws: seq<string>, gaps: seq<string>, ops: Ops<N>)
    requires Apart(ws, gaps, ops) && ws != [] && !IsSymbolWord(ws[0], ops) && gaps[0] == []
    ensures Spread(ws, gaps) != [] && IsNumeral(Spread(ws, gaps)[0])
  {
    assert IsWord(ws[0], ops);
    NumeralCharacters(ws[0]);
    assert Spread(ws, gaps)[0] == ws[0][0] && ws[0][0] in ws[0];
  }

  /** The run of a numeral is as long as it can be. */
  lemma NumeralStops<N>(s: string, j: nat, ws: seq<string>, gaps: seq<string>, ops: Ops<N>)
    requires j <= |s| && (j < |s| ==> !IsNumeral(s[j]))
    requires Apart(ws, gaps, ops) && s[j..] == Spread(ws, gaps)
    ensures ws == [] || IsSymbolWord(ws[0], ops) || gaps[0] != []
  {
    if ws != [] && !IsSymbolWord(ws[0], ops) && gaps[0] == [] {
      NumeralHead(ws, gaps, ops);
    }
  }

  /** The tokenizer accepts exactly the texts of words and gaps, and reads one token from each word. */
  lemma TokenizeExact<N>(s: string, ts: seq<Token<N>>, ops: Ops<N>)
    ensures Tokens(s, ops) == Ok(ts) <==>
      exists ws: seq<string>, gaps: seq<string> ::
        Apart(ws, gaps, ops) && s == Spread(ws, gaps) && ts == TokensOf(ws, ops)
  {
    if Tokens(s, ops) == Ok(ts) {
      var ws, gaps := Unspread(s, ops);
    } else {
      forall ws: seq<string>, gaps: seq<string> | Apart(ws, gaps, ops) && s == Spread(ws, gaps)
        ensures ts != TokensOf(ws, ops)
      {
        SpreadTokens(ws, gaps, ops);
      }
    }
  }

  // ----- what is rejected

  /** A character that is neither of a numeral nor white space, an operator or a parenthesis. */
  predicate Foreign(c: char) { c !in "0123456789." && c !in " \t\r\n" && c !in "+-*/()" }

  lemma {:induction false} ForeignStops<N>(s: string, i: nat, k: nat, ops: Ops<N>) returns (e: ParseFailure)
    requires i <= k < |s| && Foreign(s[k])
    ensures TokensFrom(s, i, ops) == Err(ParseError(e))
    ensures e.InvalidNumber? || (e.UnexpectedCharacter? && (exists j :: i <= j <= k && s[j] == e.c) && Foreign(e.c))
    decreases k - i
  {
    CharacterClasses<N>(s[i]);
    if IsSpace(s[i]) || Symbol<N>(s[i]).Some? {
      CharacterClasses<N>(s[k]);
      e := ForeignStops(s, i + 1, k, ops);
    } else if IsNumeral(s[i]) {
      CharacterClasses<N>(s[k]);
      var j := NumeralEnd(s, i + 1);
      if ops.parse(s[i..j]).None? {
        e := InvalidNumber(s[i..j]);
      } else {
        e := ForeignStops(s, j, k, ops);
      }
    } else {
      e := UnexpectedCharacter(s[i]);
    }
  }

  /** A foreign character anywhere makes the whole text a parse error: it, an earlier one, or a numeral
      before it that does not parse is blamed. */
  lemma ForeignRejected<N>(s: string, k: nat, ops: Ops<N>)
    requires k < |s| && s[k] !in "0123456789." && s[k] !in " \t\r\n" && s[k] !in "+-*/()"
    ensures var r := EvaluateText(s, ops);
      r.Err? && r.error.ParseError?
      && (r.error.why.InvalidNumber?
          || (r.error.why.UnexpectedCharacter? && r.error.why.c in s[..k + 1] && Foreign(r.error.why.c)))
  {
    var e := ForeignStops(s, 0, k, ops);
    if e.UnexpectedCharacter? {
      var j :| 0 <= j <= k && s[j] == e.c;
      assert s[..k + 1][j] == e.c;
    }
  }

  // ----- the accepted texts

  lemma FlattenBin<N>(ws: seq<string>, a: seq<Token<N>>, t: Token<N>, b: seq<Token<N>>, ops: Ops<N>)
    requires AreWords(ws, ops) && TokensOf(ws, ops) == a + [t] + b
    ensures |ws| == |a| + 1 + |b|
    ensures AreWords(ws[..|a|], ops) && TokensOf(ws[..|a|], ops) == a
    ensures TokenOf(ws[|a|], ops) == t
    ensures AreWords(ws[|a| + 1..], ops) && TokensOf(ws[|a| + 1..], ops) == b
    ensures ws == ws[..|a|] + [ws[|a|]] + ws[|a| + 1..]
  {
    var whole := a + [t] + b;
    assert |TokensOf(ws, ops)| == |whole|;
    assert forall i :: 0 <= i < |ws| ==> TokenOf(ws[i], ops) == whole[i];
    assert TokensOf(ws[..|a|], ops) == a;
    assert whole[|a|] == t;
    forall i | 0 <= i < |b| ensures TokensOf(ws[|a| + 1..], ops)[i] == b[i] {
      assert whole[|a| + 1 + i] == b[i];
    }
  }

  lemma SymbolText<N>(w: string, c: char, ops: Ops<N>)
    requires IsWord(w, ops) && Symbol<N>(c).Some? && TokenOf(w, ops) == Symbol<N>(c).value
    ensures w == [c]
  {
    assert IsSymbolWord(w, ops);
    assert w == [w[0]];
  }

  /** The words of a derivable token list are the words of an expression over their numerals. */
  lemma {:induction false} Reword<N>(e: Expr<N>, ws: seq<string>, ops: Ops<N>) returns (f: Expr<string>)
    requires AreWords(ws, ops) && TokensOf(ws, ops) == Flatten(e)
    ensures Readable(f, ops) && Read(f, ops) == e && Words(f) == ws
    decreases e, 1
  {
    match e
    case Lit(n) =>
      assert |ws| == |TokensOf(ws, ops)| == 1;
      assert TokensOf(ws, ops)[0] == Num(n);
      assert IsWord(ws[0], ops) && !IsSymbolWord(ws[0], ops);
      f := Lit(ws[0]);
      assert ws == [ws[0]];
    case Neg(x) =>
      assert [] + [Minus] + Flatten(x) == [Minus] + Flatten(x);
      FlattenBin(ws, [], Minus, Flatten(x), ops);
      SymbolText(ws[0], '-', ops);
      var g := Reword(x, ws[1..], ops);
      f := Neg(g);
      assert ws == ["-"] + ws[1..];
    case Bin(op, l, r) =>
      FlattenBin(ws, Flatten(l), OpToken(op), Flatten(r), ops);
      SymbolText(ws[|Flatten(l)|], OpChar(op), ops);
      var g := Reword(l, ws[..|Flatten(l)|], ops);
      var h := Reword(r, ws[|Flatten(l)| + 1..], ops);
      f := Bin(op, g, h);
    case Paren(x) =>
      f := RewordParen(x, ws, ops);
  }

  lemma {:induction false} RewordParen<N>(x: Expr<N>, ws: seq<string>, ops: Ops<N>) returns (f: Expr<string>)
    requires AreWords(ws, ops) && TokensOf(ws, ops) == Flatten(Paren(x))
    ensures Readable(f, ops) && Read(f, ops) == Paren(x) && Words(f) == ws
    decreases Paren(x), 0
  {
    var inner := Flatten(x);
    assert Flatten(Paren(x)) == [LParen] + inner + [RParen] + [];
    FlattenBin(ws, [LParen] + inner, RParen, [], ops);
    var front := ws[..|inner| + 1];
    assert [LParen] + inner == [] + [LParen] + inner;
    FlattenBin(front, [], LParen, inner, ops);
    SymbolText(front[0], '(', ops);
    SymbolText(ws[|inner| + 1], ')', ops);
    var g := Reword(x, front[1..], ops);
    f := Paren(g);
    assert front == ["("] + front[1..];
    assert ws == front + [")"];
  }

  /** `s` is a way to write `e`: its words with any white space around them. */
  ghost predicate Writes<N>(s: string, e: Expr<string>, gaps: seq<string>, ops: Ops<N>) {
    && Readable(e, ops) && InExpr(Read(e, ops)) && Blank(gaps) && |gaps| == |Words(e)| + 1
    && s == Spread(Words(e), gaps)
  }

  /** `evaluate` returns `v` exactly for the texts that write an expression of value `v`. */
  lemma EvaluateTextExact<N>(s: string, v: N, ops: Ops<N>)
    ensures EvaluateText(s, ops) == Ok(v) <==>
      exists e: Expr<string>, gaps: seq<string> :: Writes(s, e, gaps, ops) && Eval(Read(e, ops), ops) == Ok(v)
  {
    if EvaluateText(s, ops) == Ok(v) {
      var ws, gaps := Unspread(s, ops);
      EvaluateExact(TokensOf(ws, ops), ops, v);
      var d: Expr<N> :| InExpr(d) && Flatten(d) == TokensOf(ws, ops) && Eval(d, ops) == Ok(v);
      var e := Reword(d, ws, ops);
      assert Writes(s, e, gaps, ops);
    } else {
      forall e: Expr<string>, gaps: seq<string> | Writes(s, e, gaps, ops)
        ensures Eval(Read(e, ops), ops) != Ok(v)
      {
        TextRoundTrip(e, gaps, ops);
      }
    }
  }

  // ----- spelled out

  /** Words with nothing between them. */
  function Run(words: seq<string>): string {
    if words == [] then "" else words[0] + Run(words[1..])
  }

  lemma {:induction false} SpreadTight(words: seq<string>)
    ensures var gaps := seq(|words| + 1, _ => ""); Spread(words, gaps) == Run(words) && Blank(gaps)
  {
    if words != [] {
      SpreadTight(words[1..]);
      assert seq(|words| + 1, _ => "")[1..] == seq(|words[1..]| + 1, _ => "");
    }
  }

  lemma Tight<N>(e: Expr<string>, ops: Ops<N>)
    requires Readable(e, ops) && InExpr(Read(e, ops))
    ensures EvaluateText(Run(Words(e)), ops) == Eval(Read(e, ops), ops)
  {
    SpreadTight(Words(e));
    TextRoundTrip(e, seq(|Words(e)| + 1, _ => ""), ops);
  }

  ghost predicate Literal<N>(text: string, v: N, ops: Ops<N>) {
    text != [] && (forall c :: c in text ==> c in "0123456789.") && ops.parse(text) == Some(v)
  }

  lemma RunTwo(a: string, b: string)
    ensures Run([a, b]) == a + b
  {
    assert [a, b][1..] == [b] && [b][1..] == [];
    assert Run([b]) == b + "" == b;
  }

  lemma RunThree(a: string, b: string, c: string)
    ensures Run([a, b, c]) == a + b + c
  {
    assert [a, b, c][1..] == [b, c];
    RunTwo(b, c);
    Associative(a, b, c);
  }

  lemma RunFive(a: string, b: string, c: string, d: string, e: string)
    ensures Run([a, b, c, d, e]) == a + b + c + d + e
  {
    assert [a, b, c, d, e][1..] == [b, c, d, e] && [b, c, d, e][1..] == [c, d, e];
    RunThree(c, d, e);
    Associative(b, c + d, e);
    Associative(b, c, d);
    Associative(a, b + c + d, e);
    Associative(a, b + c, d);
    Associative(a, b, c);
  }

  lemma LitParts<N>(a: string, x: N, ops: Ops<N>)
    requires Literal(a, x, ops)
    ensures Readable(Lit(a), ops) && Read(Lit(a), ops) == Lit(x) && Words(Lit(a)) == [a]
    ensures InFactor<N>(Lit(x)) && InTerm<N>(Lit(x)) && InExpr<N>(Lit(x)) && Eval(Lit(x), ops) == Ok(x)
  {
  }

  lemma BinParts<N>(op: Op, l: Expr<string>, r: Expr<string>, ops: Ops<N>)
    requires Readable(l, ops) && Readable(r, ops)
    ensures var e := Bin(op, l, r);
      && Readable(e, ops) && Read(e, ops) == Bin(op, Read(l, ops), Read(r, ops))
      && Words(e) == Words(l) + [[OpChar(op)]] + Words(r)
      && (Additive(op) && InExpr(Read(l, ops)) && InTerm(Read(r, ops)) ==> InExpr(Read(e, ops)))
      && (!Additive(op) && InTerm(Read(l, ops)) && InFactor(Read(r, ops)) ==>
            InTerm(Read(e, ops)) && InExpr(Read(e, ops)))
  {
  }

  lemma EvalBin<N>(op: Op, l: Expr<N>, r: Expr<N>, v: Result<N, CalcError>, w: Result<N, CalcError>, ops: Ops<N>)
    requires Eval(l, ops) == v && Eval(r, ops) == w
    ensures Eval(Bin(op, l, r), ops)
         == if v.Err? then v else if w.Err? then w else Combine(op, v.value, w.value, ops)
  {
  }

  lemma OneBetween<N>(op: Op, a: string, b: string, x: N, y: N, ops: Ops<N>)
    requires Literal(a, x, ops) && Literal(b, y, ops)
    ensures EvaluateText(a + [OpChar(op)] + b, ops) == Combine(op, x, y, ops)
  {
    LitParts(a, x, ops);
    LitParts(b, y, ops);
    BinParts(op, Lit(a), Lit(b), ops);
    EvalBin(op, Lit(x), Lit(y), Ok(x), Ok(y), ops);
    RunThree(a, [OpChar(op)], b);
    assert [a] + [[OpChar(op)]] + [b] == [a, [OpChar(op)], b];
    Tight(Bin(op, Lit(a), Lit(b)), ops);
  }

  /** Two operators from left to right, unless the second binds tighter. */
  lemma TwoFromLeft<N>(p: Op, q: Op, a: string, b: string, c: string, x: N, y: N, z: N, ops: Ops<N>)
    requires Literal(a, x, ops) && Literal(b, y, ops) && Literal(c, z, ops) && (Additive(p) ==> Additive(q))
    ensures var first := Combine(p, x, y, ops);
      EvaluateText(a + [OpChar(p)] + b + [OpChar(q)] + c, ops)
        == if first.Err? then first else Combine(q, first.value, z, ops)
  {
    LitParts(a, x, ops);
    LitParts(b, y, ops);
    LitParts(c, z, ops);
    var inner := Bin(p, Lit(a), Lit(b));
    BinParts(p, Lit(a), Lit(b), ops);
    BinParts(q, inner, Lit(c), ops);
    EvalBin(p, Lit(x), Lit(y), Ok(x), Ok(y), ops);
    EvalBin(q, Read(inner, ops), Lit(z), Combine(p, x, y, ops), Ok(z), ops);
    RunFive(a, [OpChar(p)], b, [OpChar(q)], c);
    assert [a] + [[OpChar(p)]] + [b] + [[OpChar(q)]] + [c] == [a, [OpChar(p)], b, [OpChar(q)], c];
    Tight(Bin(q, inner, Lit(c)), ops);
  }

  /** A product after a sum is taken first. */
  lemma TwoFromRight<N>(p: Op, q: Op, a: string, b: string, c: string, x: N, y: N, z: N, ops: Ops<N>)
    requires Literal(a, x, ops) && Literal(b, y, ops) && Literal(c, z, ops) && Additive(p) && !Additive(q)
    ensures var last := Combine(q, y, z, ops);
      EvaluateText(a + [OpChar(p)] + b + [OpChar(q)] + c, ops)
        == if last.Err? then last else Combine(p, x, last.value, ops)
  {
    LitParts(a, x, ops);
    LitParts(b, y, ops);
    LitParts(c, z, ops);
    var inner := Bin(q, Lit(b), Lit(c));
    BinParts(q, Lit(b), Lit(c), ops);
    BinParts(p, Lit(a), inner, ops);
    EvalBin(q, Lit(y), Lit(z), Ok(y), Ok(z), ops);
    EvalBin(p, Lit(x), Read(inner, ops), Ok(x), Combine(q, y, z, ops), ops);
    RunFive(a, [OpChar(p)], b, [OpChar(q)], c);
    assert [a] + [[OpChar(p)]] + ([b] + [[OpChar(q)]] + [c]) == [a, [OpChar(p)], b, [OpChar(q)], c];
    Tight(Bin(p, Lit(a), inner), ops);
  }

  lemma Around<N>(a: string, x: N, ops: Ops<N>)
    requires Literal(a, x, ops)
    ensures EvaluateText("-" + a, ops) == Ok(ops.neg(x))
    ensures EvaluateText("(" + a + ")", ops) == Ok(x)
  {
    LitParts(a, x, ops);
    var n, p := Neg(Lit(a)), Paren(Lit(a));
    RunTwo("-", a);
    assert Words(n) == ["-", a] && Read(n, ops) == Neg(Lit(x)) && InExpr(Neg(Lit(x)));
    assert Eval(Neg(Lit(x)), ops) == Ok(ops.neg(x));
    Tight(n, ops);
    RunThree("(", a, ")");
    assert Words(p) == ["(", a, ")"] && Read(p, ops) == Paren(Lit(x));
    Tight(p, ops);
  }

  /** The four operators between any two literals, the minus before one, and parentheses around it. */
  lemma OneOperator<N>(a: string, b: string, x: N, y: N, ops: Ops<N>)
    requires Literal(a, x, ops) && Literal(b, y, ops)
    ensures EvaluateText(a + "+" + b, ops) == Ok(ops.add(x, y))
    ensures EvaluateText(a + "-" + b, ops) == Ok(ops.sub(x, y))
    ensures EvaluateText(a + "*" + b, ops) == Ok(ops.mul(x, y))
    ensures EvaluateText(a + "/" + b, ops) == if ops.isZero(y) then Err(DivisionByZero) else Ok(ops.div(x, y))
    ensures EvaluateText("-" + a, ops) == Ok(ops.neg(x))
    ensures EvaluateText("(" + a + ")", ops) == Ok(x)
  {
    OneBetween(Add, a, b, x, y, ops);
    OneBetween(Sub, a, b, x, y, ops);
    OneBetween(Mul, a, b, x, y, ops);
    OneBetween(Div, a, b, x, y, ops);
    Around(a, x, ops);
  }

  /** Two operators between any three literals: the same level from left to right, products before sums. */
  lemma TwoOperators<N>(a: string, b: string, c: string, x: N, y: N, z: N, ops: Ops<N>)
    requires Literal(a, x, ops) && Literal(b, y, ops) && Literal(c, z, ops)
    ensures EvaluateText(a + "-" + b + "-" + c, ops) == Ok(ops.sub(ops.sub(x, y), z))
    ensures EvaluateText(a + "+" + b + "*" + c, ops) == Ok(ops.add(x, ops.mul(y, z)))
    ensures EvaluateText(a + "*" + b + "+" + c, ops) == Ok(ops.add(ops.mul(x, y), z))
    ensures !ops.isZero(y) && !ops.isZero(z) ==>
      EvaluateText(a + "/" + b + "/" + c, ops) == Ok(ops.div(ops.div(x, y), z))
  {
    TwoFromLeft(Sub, Sub, a, b, c, x, y, z, ops);
    TwoFromRight(Add, Mul, a, b, c, x, y, z, ops);
    TwoFromLeft(Mul, Add, a, b, c, x, y, z, ops);
    TwoFromLeft(Div, Div, a, b, c, x, y, z, ops);
  }

  lemma RunTokens<N>(ws: seq<string>, ops: Ops<N>)
    requires Separate(ws, ops)
    ensures EvaluateText(Run(ws), ops) == EvaluateTokens(TokensOf(ws, ops), ops)
  {
    SpreadTight(ws);
    SpreadTokens(ws, seq(|ws| + 1, _ => ""), ops);
  }

  lemma TwoWords<N>(v: string, w: string, ops: Ops<N>)
    requires IsWord(v, ops) && IsWord(w, ops) && (IsSymbolWord(v, ops) || IsSymbolWord(w, ops))
    ensures EvaluateText(v + w, ops) == EvaluateTokens([TokenOf(v, ops), TokenOf(w, ops)], ops)
  {
    RunTwo(v, w);
    assert TokensOf([v, w], ops) == [TokenOf(v, ops), TokenOf(w, ops)];
    RunTokens([v, w], ops);
  }

  predicate Operator<N>(t: Token<N>) { t == Plus || t == Minus || t == Star || t == Slash }

  /** A literal before anything but an operator is a whole expression. */
  lemma LiteralAt<N>(ts: seq<Token<N>>, pos: nat, x: N, ops: Ops<N>)
    requires pos < |ts| && ts[pos] == Num(x) && (pos + 1 < |ts| ==> !Operator(ts[pos + 1]))
    ensures ExprAt(ts, pos, ops) == Value(x, pos + 1)
  {
    assert FactorAt(ts, pos, ops) == Value(x, pos + 1);
    assert TermTail(ts, pos + 1, x, ops) == Value(x, pos + 1);
    assert ExprTail(ts, pos + 1, x, ops) == Value(x, pos + 1);
  }

  lemma FailedFactor<N>(ts: seq<Token<N>>, why: ParseFailure, ops: Ops<N>)
    requires ts != [] && FactorAt(ts, 0, ops) == Failed(ParseError(why))
    ensures EvaluateTokens(ts, ops) == Err(ParseError(why))
  {
    assert TermAt(ts, 0, ops) == Failed(ParseError(why));
  }

  lemma MissingOperand<N>(x: N, ops: Ops<N>)
    ensures EvaluateTokens([Num(x), Plus], ops) == Err(ParseError(UnexpectedEnd))
  {
    var ts: seq<Token<N>> := [Num(x), Plus];
    assert FactorAt(ts, 0, ops) == Value(x, 1) && TermTail(ts, 1, x, ops) == Value(x, 1);
    assert TermAt(ts, 0, ops) == Value(x, 1);
    assert FactorAt(ts, 2, ops) == Failed(ParseError(UnexpectedEnd));
    assert TermAt(ts, 2, ops) == Failed(ParseError(UnexpectedEnd));
    assert ExprTail(ts, 1, x, ops) == Failed(ParseError(UnexpectedEnd));
    assert ExprAt(ts, 0, ops) == Failed(ParseError(UnexpectedEnd));
  }

  lemma MalformedTokens<N>(x: N, y: N, ops: Ops<N>)
    ensures EvaluateTokens([Num(x), Plus], ops) == Err(ParseError(UnexpectedEnd))
    ensures EvaluateTokens([Star, Num(x)], ops) == Err(ParseError(UnexpectedToken))
    ensures EvaluateTokens([LParen, Num(x)], ops) == Err(ParseError(ExpectedRParen))
    ensures EvaluateTokens([Num(x), RParen], ops) == Err(ParseError(TrailingInput))
    ensures EvaluateTokens([Num(x), Num(y)], ops) == Err(ParseError(TrailingInput))
  {
    MissingOperand(x, ops);
    FailedFactor([Star, Num(x)], UnexpectedToken, ops);
    LiteralAt([LParen, Num(x)], 1, x, ops);
    FailedFactor([LParen, Num(x)], ExpectedRParen, ops);
    LiteralAt([Num(x), RParen], 0, x, ops);
    LiteralAt([Num(x), Num(y)], 0, x, ops);
  }

  /** White space alone, a missing operand, parenthesis or operator, and a numeral that does not parse. */
  lemma Malformed<N>(gap: string, a: string, b: string, x: N, y: N, ops: Ops<N>)
    requires (forall c :: c in gap ==> c in " \t\r\n") && Literal(a, x, ops) && Literal(b, y, ops)
    ensures EvaluateText(gap, ops) == Err(ParseError(EmptyExpression))
    ensures EvaluateText(a + "+", ops) == Err(ParseError(UnexpectedEnd))
    ensures EvaluateText("*" + a, ops) == Err(ParseError(UnexpectedToken))
    ensures EvaluateText("(" + a, ops) == Err(ParseError(ExpectedRParen))
    ensures EvaluateText(a + ")", ops) == Err(ParseError(TrailingInput))
    ensures EvaluateText(a + " " + b, ops) == Err(ParseError(TrailingInput))
  {
    assert gap + "" == gap;
    SkipGap(gap, "", ops);
    LitParts(a, x, ops);
    LitParts(b, y, ops);
    NumeralWord(a, ops);
    NumeralWord(b, ops);
    MalformedTokens(x, y, ops);
    TwoWords(a, "+", ops);
    TwoWords("*", a, ops);
    TwoWords("(", a, ops);
    TwoWords(a, ")", ops);
    TwoNumerals(a, b, x, y, ops);
  }

  lemma TwoNumerals<N>(a: string, b: string, x: N, y: N, ops: Ops<N>)
    requires Literal(a, x, ops) && Literal(b, y, ops)
    ensures EvaluateText(a + " " + b, ops) == Err(ParseError(TrailingInput))
  {
    var ws, gaps := [a, b], ["", " ", ""];
    NumeralWord(a, ops);
    NumeralWord(b, ops);
    assert OfSpaces(" ") && Blank(gaps);
    assert ws[1..] == [b] && gaps[1..] == [" ", ""] && [b][1..] == [] && [" ", ""][1..] == [""];
    assert Spread([b], [" ", ""]) == " " + (b + "");
    assert Spread(ws, gaps) == "" + (a + (" " + (b + ""))) == a + " " + b;
    SpreadTokens(ws, gaps, ops);
    assert TokensOf(ws, ops) == [Num(x), Num(y)];
    MalformedTokens(x, y, ops);
  }

  lemma WholeNumeral(text: string)
    requires text != [] && OfNumerals(text)
    ensures IsNumeral(text[0]) && NumeralEnd(text, 1) == |text| && text[0..|text|] == text
  {
    NumeralCharacters(text);
    assert text + "" == text && text[0] in text;
    NumeralRun(text, "", 1);
  }

  lemma InvalidNumeral<N>(text: string, ops: Ops<N>)
    requires text != [] && (forall c :: c in text ==> c in "0123456789.") && ops.parse(text).None?
    ensures EvaluateText(text, ops) == Err(ParseError(InvalidNumber(text)))
  {
    WholeNumeral(text);
    CharacterClasses<N>(text[0]);
  }
}
