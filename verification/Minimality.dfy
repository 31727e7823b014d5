/** The printer of module Printing uses the fewest tokens there are: no token sequence that the grammar of
    src/compiler.c reads as an expression is shorter than the print of that expression. So no pair of parentheses can
    be left out. */
module Minimality {
  import opened Syntax
  import opened Parsing
  import opened Printing

  /** What the left operand of an infix token must bind as tightly as. */
  function OperandLevel(t: Token): nat
    requires RulePrec(t) > PREC_NONE
  {
    if t.TBin? then BinPrec(t.op)
    else if t == TLParen then PREC_CALL
    else if t == TAnd || t == TAmpAmp then PREC_AND + 1
    else PREC_OR + 1
  }

  /** n tokens are enough to print e at level p, and as the left operand of the infix token that follows. */
  ghost predicate Enough(e: Expr, n: nat, ts: seq<Token>, p: nat) {
    && |PrintExpr(e, p)| <= n
    && (NextPrec(ts) > PREC_NONE ==> |PrintExpr(e, OperandLevel(ts[0]))| <= n)
  }

  /** An expression whose level is above the next token's operand level needs no parentheses. */
  lemma EnoughBare(e: Expr, n: nat, ts: seq<Token>, p: nat)
    requires |PrintBare(e)| <= n && p <= Level(e)
    requires NextPrec(ts) > PREC_NONE ==> OperandLevel(ts[0]) <= Level(e)
    ensures Enough(e, n, ts, p)
  {
    hide PrintBare;
  }

  /** With two more tokens it may be parenthesised. */
  lemma EnoughGrouped(e: Expr, n: nat, ts: seq<Token>, p: nat)
    requires |PrintExpr(e, PREC_ASSIGNMENT)| + 2 <= n
    ensures Enough(e, n, ts, p)
  {
    hide PrintBare;
  }

  /** The infix loop stops in front of a token that binds less tightly. */
  lemma {:induction false} InfixEnds(left: Expr, ts: seq<Token>, p: nat)
    ensures var r := ParseInfix(left, ts, p);
            r.Parsed? && NextPrec(r.rest) > PREC_NONE ==> NextPrec(r.rest) < p
    decreases |ts|
  {
    hide ParseOperator;
    if ts != [] && p <= RulePrec(ts[0]) && RulePrec(ts[0]) > PREC_NONE {
      var r := ParseOperator(left, ts);
      if r.Parsed? { InfixEnds(r.value, r.rest, p); }
    }
  }

  lemma PrecedenceEnds(ts: seq<Token>, p: nat)
    ensures var r := ParsePrecedence(ts, p);
            r.Parsed? && NextPrec(r.rest) > PREC_NONE ==> NextPrec(r.rest) < p
  {
    hide ParseInfix, ParsePrefix;
    var s := SkipNewlines(ts);
    var r := ParsePrefix(s, p <= PREC_ASSIGNMENT);
    if r.Parsed? { InfixEnds(r.value, r.rest, p); }
  }

  /** What is read at level p took at least as many tokens as its print at that level. */
  lemma {:induction false} PrecedenceTakes(ts: seq<Token>, p: nat)
    requires PREC_ASSIGNMENT <= p <= PREC_UNARY
    ensures var r := ParsePrecedence(ts, p);
            r.Parsed? ==> |PrintExpr(r.value, p)| <= |ts| - |r.rest|
    decreases |ts|, 3
  {
    hide ParseInfix, ParsePrefix, PrintExpr, Enough;
    var s := SkipNewlines(ts);
    var e := ParsePrefix(s, p <= PREC_ASSIGNMENT);
    if e.Parsed? {
      PrefixTakes(s, p);
      InfixTakes(e.value, e.rest, p, |s| - |e.rest|);
    }
  }

  lemma {:induction false} PrefixTakes(ts: seq<Token>, p: nat)
    requires PREC_ASSIGNMENT <= p <= PREC_UNARY
    ensures var r := ParsePrefix(ts, p <= PREC_ASSIGNMENT);
            r.Parsed? ==> Enough(r.value, |ts| - |r.rest|, r.rest, p)
    decreases |ts|, 2
  {
    hide ParsePrecedence, PrintExpr, Enough;
    var r := ParsePrefix(ts, p <= PREC_ASSIGNMENT);
    if r.Parsed? {
      var n := |ts| - |r.rest|;
      if ts[0].TLit? {
        EnoughBare(r.value, n, r.rest, p);
      } else if ts[0].TIdent? {
        if r.value.Assign? {
          PrecedenceTakes(SkipNewlines(ts[2..]), PREC_ASSIGNMENT);
          PrecedenceEnds(SkipNewlines(ts[2..]), PREC_ASSIGNMENT);
        }
        EnoughBare(r.value, n, r.rest, p);
      } else if ts[0] == TLParen {
        PrecedenceTakes(SkipNewlines(ts[1..]), PREC_ASSIGNMENT);
        EnoughGrouped(r.value, n, r.rest, p);
      } else {
        PrecedenceTakes(ts[1..], PREC_UNARY);
        PrecedenceEnds(ts[1..], PREC_UNARY);
        EnoughBare(r.value, n, r.rest, p);
      }
    }
  }

  lemma {:induction false} InfixTakes(left: Expr, ts: seq<Token>, p: nat, n: nat)
    requires PREC_ASSIGNMENT <= p <= PREC_UNARY && Enough(left, n, ts, p)
    ensures var r := ParseInfix(left, ts, p);
            r.Parsed? ==> |PrintExpr(r.value, p)| <= n + |ts| - |r.rest|
    decreases |ts|, 1
  {
    hide ParseOperator, PrintExpr;
    if ts != [] && p <= RulePrec(ts[0]) && RulePrec(ts[0]) > PREC_NONE {
      OperatorTakes(left, ts, p, n);
      var r := ParseOperator(left, ts);
      if r.Parsed? { InfixTakes(r.value, r.rest, p, n + |ts| - |r.rest|); }
    }
  }

  lemma {:induction false} OperatorTakes(left: Expr, ts: seq<Token>, p: nat, n: nat)
    requires ts != [] && RulePrec(ts[0]) > PREC_NONE && PREC_ASSIGNMENT <= p <= RulePrec(ts[0])
    requires |PrintExpr(left, OperandLevel(ts[0]))| <= n
    ensures var r := ParseOperator(left, ts);
            r.Parsed? ==> Enough(r.value, n + |ts| - |r.rest|, r.rest, p)
    decreases |ts|, 0
  {
    hide ParseOperator, PrintExpr, PrintBare, Enough;
    var r := ParseOperator(left, ts);
    if r.Parsed? {
      if ts[0] == TLParen { CallTakes(left, ts, n); } else { OperandTakes(left, ts, n); }
      EnoughBare(r.value, n + |ts| - |r.rest|, r.rest, p);
    }
  }

  lemma {:induction false} CallTakes(left: Expr, ts: seq<Token>, n: nat)
    requires StartsWith(ts, TLParen) && |PrintExpr(left, PREC_CALL)| <= n && ParseOperator(left, ts).Parsed?
    ensures var r := ParseOperator(left, ts);
            |PrintBare(r.value)| <= n + |ts| - |r.rest| && Level(r.value) == PREC_CALL
    ensures NextPrec(ParseOperator(left, ts).rest) > PREC_NONE ==> OperandLevel(ParseOperator(left, ts).rest[0]) <= PREC_CALL
    decreases |ts|, 0, 0
  {
    hide ParsePrecedence, ParseArguments, PrintExpr;
    ArgumentsTake(ts[1..]);
  }

  lemma {:induction false} OperandTakes(left: Expr, ts: seq<Token>, n: nat)
    requires ts != [] && RulePrec(ts[0]) > PREC_NONE && ts[0] != TLParen
    requires |PrintExpr(left, OperandLevel(ts[0]))| <= n && ParseOperator(left, ts).Parsed?
    ensures var r := ParseOperator(left, ts);
            && |PrintBare(r.value)| <= n + |ts| - |r.rest| && Level(r.value) == RulePrec(ts[0])
            && (NextPrec(r.rest) > PREC_NONE ==> OperandLevel(r.rest[0]) <= Level(r.value))
    decreases |ts|, 0, 0
  {
    hide ParsePrecedence, PrintExpr;
    var rest := if ts[0].TBin? then ts[1..] else SkipNewlines(ts[1..]);
    var q := if ts[0].TBin? then BinPrec(ts[0].op) + 1 else RulePrec(ts[0]);
    PrecedenceTakes(rest, q);
    PrecedenceEnds(rest, q);
  }

  lemma {:induction false} ArgumentsTake(ts: seq<Token>)
    ensures var r := ParseArguments(ts);
            r.Parsed? ==> |PrintArguments(r.value)| + 1 <= |ts| - |r.rest|
    decreases |ts|, 6
  {
    hide ParseArgumentList;
    if !StartsWith(ts, TRParen) { ArgumentListTakes(ts, 0); }
  }

  lemma {:induction false} ArgumentListTakes(ts: seq<Token>, n: nat)
    ensures var r := ParseArgumentList(ts, n);
            r.Parsed? ==> r.value.ECons? && |PrintArguments(r.value)| + 1 <= |ts| - |r.rest|
    decreases |ts|, 5
  {
    hide ParsePrecedence, PrintExpr;
    PrecedenceTakes(SkipNewlines(ts), PREC_ASSIGNMENT);
    var e := ParseExpression(SkipNewlines(ts));
    if e.Parsed? {
      var rest := SkipNewlines(e.rest);
      if StartsWith(rest, TComma) { ArgumentListTakes(rest[1..], n + 1); }
    }
  }

  /** No token sequence that is read as an expression is shorter than its print, and the print is one of them. */
  lemma PrintIsShortest(ts: seq<Token>, e: Expr)
    requires ParseExpression(ts) == Parsed(e, [])
    ensures |PrintExpr(e, PREC_ASSIGNMENT)| <= |ts|
    ensures ParseExpression(PrintExpr(e, PREC_ASSIGNMENT)) == Parsed(e, [])
  {
    hide ParsePrecedence, PrintExpr;
    PrecedenceTakes(ts, PREC_ASSIGNMENT);
    ParsedExpressionFits(ts);
    ParsePrinted(e, PREC_ASSIGNMENT, PREC_ASSIGNMENT, []);
    assert PrintExpr(e, PREC_ASSIGNMENT) + [] == PrintExpr(e, PREC_ASSIGNMENT);
  }
}
