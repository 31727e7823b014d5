/** What arithmetic in a script comes to: the value of an integer expression as text, compiled and run, is its exact
    value wrapped once to 48 bits, whatever parentheses it is written with. */
module ScriptValues {
  import opened Syntax
  import opened Runtime
  import opened Machine
  import opened Codegen
  import opened Evaluation
  import opened Values
  import opened Precedence
  import Simulation
  import CompilerCorrectness
  import Compiling
  import Printing
  import Parsing
  import Operators
  import Chains

  // ---- Trees ----

  /** The numbers of the expression can be written: there are no negative literals. */
  predicate Literals(e: IntExpr) {
    match e
    case Num(n) => n >= 0
    case Sum(l, r) => Literals(l) && Literals(r)
    case Difference(l, r) => Literals(l) && Literals(r)
    case Product(l, r) => Literals(l) && Literals(r)
    case Negation(e) => Literals(e)
  }

  function Source(e: IntExpr): Expr
    requires Literals(e)
  {
    match e
    case Num(n) => Lit(IntLit(n))
    case Sum(l, r) => Binary(Plus, Source(l), Source(r))
    case Difference(l, r) => Binary(Minus, Source(l), Source(r))
    case Product(l, r) => Binary(Star, Source(l), Source(r))
    case Negation(e) => Unary(Neg, Source(e))
  }

  function Max(a: nat, b: nat): nat {
    if a < b then b else a
  }

  /** How much of the value stack the expression needs. */
  function Depth(e: IntExpr): (d: nat)
    ensures d > 0
  {
    match e
    case Num(_) => 1
    case Sum(l, r) => Max(Depth(l), 1 + Depth(r))
    case Difference(l, r) => Max(Depth(l), 1 + Depth(r))
    case Product(l, r) => Max(Depth(l), 1 + Depth(r))
    case Negation(e) => Depth(e)
  }

  function Numbers(e: IntExpr): nat {
    match e
    case Num(_) => 1
    case Sum(l, r) => Numbers(l) + Numbers(r)
    case Difference(l, r) => Numbers(l) + Numbers(r)
    case Product(l, r) => Numbers(l) + Numbers(r)
    case Negation(e) => Numbers(e)
  }

  lemma OperandsFit(l: IntExpr, r: IntExpr)
    requires Defined(l) && Defined(r)
    ensures FitsInt64(AsInt(Boxed(l)) + AsInt(Boxed(r))) && FitsInt64(AsInt(Boxed(l)) - AsInt(Boxed(r)))
    ensures FitsInt64(-AsInt(Boxed(l)))
  {
    hide Wrap48, AsInt, Boxed, Defined;
    BoxedArithmetic(l);
    BoxedArithmetic(r);
    CongruentSum(Exact(l), Exact(r));
  }

  /** What stands for a 64-bit result is what boxing and unboxing makes of it. */
  lemma BoxedResult(r: Runtime.Result, exact: int)
    requires Operators.Gives(r, exact) && FitsInt64(exact)
    ensures r == Ok(Int(AsInt(IntVal(exact))))
  {
    hide Wrap48, AsInt, IntVal;
    UnboxBox(exact);
    Wrap48Unique(exact, r.value.i);
  }

  function Operator(e: IntExpr): BinOp
    requires !e.Num? && !e.Negation?
  {
    match e
    case Sum(_, _) => Plus
    case Difference(_, _) => Minus
    case Product(_, _) => Star
  }

  lemma OperationValue(h: Host, e: IntExpr)
    requires Defined(e) && !e.Num? && !e.Negation?
    ensures Apply(h, Operator(e), Int(AsInt(Boxed(e.l))), Int(AsInt(Boxed(e.r)))) == Ok(Int(AsInt(Boxed(e))))
  {
    hide IntVal, AsInt, Wrap48, Apply, Operators.Gives;
    OperandsFit(e.l, e.r);
    var a, b := AsInt(Boxed(e.l)), AsInt(Boxed(e.r));
    Operators.Arithmetic(h, a, b);
    BoxedResult(Apply(h, Operator(e), Int(a), Int(b)), if e.Sum? then a + b else if e.Difference? then a - b else a * b);
  }

  lemma NegationValue(h: Host, e: IntExpr)
    requires Defined(e)
    ensures ApplyUnary(h, Neg, Int(AsInt(Boxed(e)))) == Ok(Int(AsInt(Boxed(Negation(e)))))
  {
    hide IntVal, AsInt, Wrap48, ApplyUnary, Operators.Gives;
    OperandsFit(e, e);
    Operators.Arithmetic(h, AsInt(Boxed(e)), 0);
    BoxedResult(ApplyUnary(h, Neg, Int(AsInt(Boxed(e)))), -AsInt(Boxed(e)));
  }

  /** An integer expression evaluates to what boxed words make of it, or overflows the stack, as it has room. */
  lemma {:induction false} TreeValue(h: Host, e: IntExpr, g: Globals, d: nat)
    requires Literals(e) && Defined(e)
    ensures Eval(h, Source(e), g, d) ==
            if d + Depth(e) <= 65536 then Val(Int(AsInt(Boxed(e))), g) else Err(StackOverflow, g)
  {
    hide IntVal, AsInt, Wrap48, Apply, ApplyUnary, Boxed;
    match e {
      case Num(n) => NumberValue(n);
      case Negation(e') =>
        TreeValue(h, e', g, d);
        NegationValue(h, e');
      case _ =>
        TreeValue(h, e.l, g, d);
        TreeValue(h, e.r, g, d + 1);
        OperationValue(h, e);
    }
  }

  lemma NumberValue(n: nat)
    requires FitsInt64(n)
    ensures LiteralValue(IntLit(n)) == Int(AsInt(Boxed(Num(n))))
  {
    UnboxBox(n);
  }

  // ---- Scripts ----

  /** What runs in the end: the script `name = <phrase>`, where the phrase is any way to write the expression. */
  function Line(name: string, p: Phrase): seq<Token> {
    PhraseText(SetTo(name, p))
  }

  lemma LineParses(name: string, p: Phrase, e: IntExpr)
    requires ProperPhrase(p) && Literals(e) && PhraseTree(p) == Source(e)
    ensures Parsing.ParseScript(Line(name, p)) == Parsing.Parsed(BCons(ExprStmt(Assign(name, Source(e))), BNil), [])
  {
    PhraseIsScript(SetTo(name, p));
  }

  lemma {:induction false} SourceFits(e: IntExpr)
    requires Literals(e)
    ensures ExprFits(Source(e)) && Printing.CallsFit(Source(e)) && |ExprConstants(Source(e))| == Numbers(e)
  {
    match e
    case Num(_) =>
    case Negation(e') => SourceFits(e');
    case _ =>
      SourceFits(e.l);
      SourceFits(e.r);
  }

  function Assigned(name: string, e: IntExpr): Block
    requires Literals(e)
  {
    BCons(ExprStmt(Assign(name, Source(e))), BNil)
  }

  lemma AssignedFits(name: string, e: IntExpr)
    requires Literals(e) && Numbers(e) < 65536
    ensures ScriptFits(Assigned(name, e)) && Printing.WellFormed(Assigned(name, e), false) && ChainsFit(Assigned(name, e))
  {
    SourceFits(e);
    var s := ExprStmt(Assign(name, Source(e)));
    assert BlockConstants(Assigned(name, e)) == StmtConstants(s) + BlockConstants(BNil) == [Str(name)] + ExprConstants(Source(e));
    assert StmtFits(s, 0, 0, Unknown) && Printing.WellFormedStmt(s, false) && StmtChainsFit(s);
  }

  lemma AssignedValue(h: Host, name: string, e: IntExpr, g: Globals)
    requires Literals(e) && Defined(e) && 1 + Depth(e) <= 65536
    ensures EvalBlock(h, Assigned(name, e), g, 1, 0) == Normal(g[name := Int(AsInt(Boxed(e)))])
  {
    hide AsInt, Boxed, Eval, Source, Depth;
    var line := Assign(name, Source(e));
    TreeValue(h, e, g, 1);
    assert Eval(h, line, g, 1) == Val(Int(AsInt(Boxed(e))), g[name := Int(AsInt(Boxed(e)))]) by { AssignValue(h, name, Source(e), g); }
    assert EvalStmt(h, ExprStmt(line), g, 1, 0) == Normal(g[name := Int(AsInt(Boxed(e)))]);
  }

  lemma AssignValue(h: Host, name: string, value: Expr, g: Globals)
    requires Eval(h, value, g, 1).Val?
    ensures Eval(h, Assign(name, value), g, 1)
         == Val(Eval(h, value, g, 1).v, Eval(h, value, g, 1).g[name := Eval(h, value, g, 1).v])
  {
  }

  /** A script that assigns an integer expression is compiled, and its run leaves the exact value, wrapped once to 48
      bits, in the global, and all other globals as they were. */
  lemma LineRuns(h: Host, name: string, p: Phrase, e: IntExpr, slot0: Value, g: Globals) returns (chunk: Chunk, n: nat)
    requires ProperPhrase(p) && Literals(e) && PhraseTree(p) == Source(e)
    requires Defined(e) && Numbers(e) < 65536 && 1 + Depth(e) <= 65536
    ensures Chains.ScriptInRange(Line(name, p)) && Compiling.CompileSpec(Line(name, p)) == Compiling.Function(chunk)
    ensures Steps(h, Load(chunk), Simulation.At(0, [slot0], g), n) == Halted(Nil, g[name := Int(Wrap48(Exact(e)))])
  {
    hide AsInt, Boxed, Wrap48, Eval, Source, Depth, Exact, Steps, ScriptFits, ScriptChunk, EvalBlock, PhraseTree, ProperPhrase,
      Line, Printing.WellFormed, ChainsFit, Numbers, Parsing.ParseScript, Chains.ScriptInRange;
    var b := Assigned(name, e);
    LineParses(name, p, e);
    AssignedFits(name, e);
    Chains.ScriptInRangeIff(Line(name, p));
    chunk := ScriptChunk(b);
    n := CompilerCorrectness.CompiledScriptRuns(h, b, slot0, g, 0);
    AssignedValue(h, name, e, g);
    BoxedArithmetic(e);
  }

  // ---- Every expression can be written ----

  /** The expression with parentheses around every operation. */
  function Factor(e: IntExpr): Operand
    requires Literals(e)
  {
    match e
    case Num(n) => Atom(IntLit(n))
    case Negation(e) => Signed(MinusSign, Factor(e))
    case _ => Group(Plain(Longer(Factor(e.l), TBin(Operator(e)), Single(Factor(e.r)))))
  }

  lemma {:induction false} FactorReads(e: IntExpr)
    requires Literals(e)
    ensures ProperOperand(Factor(e)) && OperandTree(Factor(e)) == Source(e)
  {
    hide Reading;
    match e {
      case Num(_) =>
      case Negation(e') => FactorReads(e');
      case _ =>
        FactorReads(e.l);
        FactorReads(e.r);
        PairReads(Factor(e.l), TBin(Operator(e)), Factor(e.r), if e.Product? then 9 else 8);
    }
  }

  lemma PairReads(a: Operand, t: Token, b: Operand, tier: nat)
    requires ProperOperand(a) && ProperOperand(b) && InTier(t, tier)
    ensures var row := Longer(a, t, Single(b));
            ProperRow(row) && PhraseTree(Plain(row)) == Node(OperandTree(a), t, OperandTree(b))
  {
    hide Reading, OperandTree, ProperOperand, InTier;
    var last := Single(b);
    var row := Longer(a, t, last);
    assert ProperRow(last) && RowTrees(last) == [OperandTree(b)] && RowOps(last) == [];
    assert ProperRow(row) && RowTrees(row) == [OperandTree(a), OperandTree(b)] && RowOps(row) == [t];
    ReadingOfOne(OperandTree(a), t, OperandTree(b));
  }

  /** So every expression has a script that computes it. */
  lemma EveryExpressionRuns(h: Host, name: string, e: IntExpr, slot0: Value, g: Globals) returns (chunk: Chunk, n: nat)
    requires Literals(e) && Defined(e) && Numbers(e) < 65536 && 1 + Depth(e) <= 65536
    ensures Compiling.CompileSpec([TIdent(name), TEqual] + OperandText(Factor(e))) == Compiling.Function(chunk)
    ensures Steps(h, Load(chunk), Simulation.At(0, [slot0], g), n) == Halted(Nil, g[name := Int(Wrap48(Exact(e)))])
  {
    hide *;
    FactorReads(e);
    SingleRow(Factor(e));
    LineText(name, Single(Factor(e)));
    chunk, n := LineRuns(h, name, Plain(Single(Factor(e))), e, slot0, g);
  }

  lemma SingleRow(o: Operand)
    requires ProperOperand(o)
    ensures ProperPhrase(Plain(Single(o))) && PhraseTree(Plain(Single(o))) == OperandTree(o)
    ensures RowText(Single(o)) == OperandText(o)
  {
    hide ProperOperand, OperandTree, OperandText, Reading;
    assert RowTrees(Single(o)) == [OperandTree(o)] && RowOps(Single(o)) == [];
    ReadingOfNone(OperandTree(o));
  }

  lemma LineText(name: string, row: Row)
    ensures Line(name, Plain(row)) == [TIdent(name), TEqual] + RowText(row)
  {
    hide RowText;
    assert PhraseText(Plain(row)) == RowText(row);
  }

  lemma ReadingOfNone(x: Expr)
    ensures Reading([x], []) == x
  {
  }

  /** The tokens of `x = a <t> b <u> c`. */
  function Three(a: nat, t: Token, b: nat, u: Token, c: nat): seq<Token> {
    [TIdent("x"), TEqual, TLit(IntLit(a)), t, TLit(IntLit(b)), u, TLit(IntLit(c))]
  }

  lemma ThreeNumbers(h: Host, a: nat, t: Token, b: nat, u: Token, c: nat, e: IntExpr, slot0: Value, g: Globals)
    returns (chunk: Chunk, n: nat)
    requires IsInfix(t) && IsInfix(u) && Literals(e) && Defined(e) && Numbers(e) < 65536 && 1 + Depth(e) <= 65536
    requires var x, y, z := Lit(IntLit(a)), Lit(IntLit(b)), Lit(IntLit(c));
             Source(e) == if Looser(t, u) || (!Looser(u, t) && GroupsRight(t)) then Node(x, t, Node(y, u, z))
                          else Node(Node(x, t, y), u, z)
    ensures Compiling.CompileSpec(Three(a, t, b, u, c)) == Compiling.Function(chunk)
    ensures Steps(h, Load(chunk), Simulation.At(0, [slot0], g), n) == Halted(Nil, g["x" := Int(Wrap48(Exact(e)))])
  {
    hide *;
    ThreeRow(a, t, b, u, c);
    ReadingOfTwo(Lit(IntLit(a)), t, Lit(IntLit(b)), u, Lit(IntLit(c)));
    chunk, n := LineRuns(h, "x", Plain(RowOfThree(a, t, b, u, c)), e, slot0, g);
  }

  function RowOfThree(a: nat, t: Token, b: nat, u: Token, c: nat): Row {
    Longer(Atom(IntLit(a)), t, Longer(Atom(IntLit(b)), u, Single(Atom(IntLit(c)))))
  }

  lemma NumberOperand(n: nat)
    ensures ProperOperand(Atom(IntLit(n))) && OperandTree(Atom(IntLit(n))) == Lit(IntLit(n))
    ensures OperandText(Atom(IntLit(n))) == [TLit(IntLit(n))]
  {
  }

  lemma ThreeRow(a: nat, t: Token, b: nat, u: Token, c: nat)
    requires IsInfix(t) && IsInfix(u)
    ensures var row := RowOfThree(a, t, b, u, c);
            && ProperPhrase(Plain(row)) && Line("x", Plain(row)) == Three(a, t, b, u, c)
            && PhraseTree(Plain(row)) == Reading([Lit(IntLit(a)), Lit(IntLit(b)), Lit(IntLit(c))], [t, u])
  {
    hide Reading, IsInfix, ProperOperand, OperandTree, OperandText;
    var x, y, z := Atom(IntLit(a)), Atom(IntLit(b)), Atom(IntLit(c));
    var last := Single(z);
    var later := Longer(y, u, last);
    var row := Longer(x, t, later);
    NumberOperand(a);
    NumberOperand(b);
    NumberOperand(c);
    assert ProperRow(last) && RowTrees(last) == [Lit(IntLit(c))] && RowOps(last) == [];
    assert ProperRow(later) && RowTrees(later) == [Lit(IntLit(b)), Lit(IntLit(c))] && RowOps(later) == [u];
    assert RowTrees(row) == [Lit(IntLit(a)), Lit(IntLit(b)), Lit(IntLit(c))] && RowOps(row) == [t, u];
    assert RowText(later) == [TLit(IntLit(b)), u, TLit(IntLit(c))];
    LineText("x", row);
  }

  /** The usual order of operations, on tokens: 2 + 3 * 4 is 14, and 10 - 4 - 3 is 3. */
  lemma UsualOrder(h: Host, slot0: Value, g: Globals) returns (mixed: Chunk, m: nat, left: Chunk, l: nat)
    ensures Compiling.CompileSpec([TIdent("x"), TEqual, TLit(IntLit(2)), TBin(Plus), TLit(IntLit(3)), TBin(Star), TLit(IntLit(4))])
         == Compiling.Function(mixed)
    ensures Steps(h, Load(mixed), Simulation.At(0, [slot0], g), m) == Halted(Nil, g["x" := Int(14)])
    ensures Compiling.CompileSpec([TIdent("x"), TEqual, TLit(IntLit(10)), TBin(Minus), TLit(IntLit(4)), TBin(Minus), TLit(IntLit(3))])
         == Compiling.Function(left)
    ensures Steps(h, Load(left), Simulation.At(0, [slot0], g), l) == Halted(Nil, g["x" := Int(3)])
  {
    hide *;
    PlusBeforeTimes();
    MixedValue();
    ChainValue();
    mixed, m := ThreeNumbers(h, 2, TBin(Plus), 3, TBin(Star), 4, Sum(Num(2), Product(Num(3), Num(4))), slot0, g);
    left, l := ThreeNumbers(h, 10, TBin(Minus), 4, TBin(Minus), 3, Difference(Difference(Num(10), Num(4)), Num(3)), slot0, g);
    ThreeTokens(2, TBin(Plus), 3, TBin(Star), 4);
    ThreeTokens(10, TBin(Minus), 4, TBin(Minus), 3);
  }

  lemma ThreeTokens(a: nat, t: Token, b: nat, u: Token, c: nat)
    ensures Three(a, t, b, u, c) == [TIdent("x"), TEqual, TLit(IntLit(a)), t, TLit(IntLit(b)), u, TLit(IntLit(c))]
  {
  }

  lemma PlusBeforeTimes()
    ensures IsInfix(TBin(Plus)) && IsInfix(TBin(Star)) && IsInfix(TBin(Minus))
    ensures Looser(TBin(Plus), TBin(Star)) && !Looser(TBin(Minus), TBin(Minus)) && !GroupsRight(TBin(Minus))
  {
    assert InTier(TBin(Plus), 8) && InTier(TBin(Star), 9) && InTier(TBin(Minus), 8);
    LooserIff(TBin(Minus), TBin(Minus));
  }

  lemma MixedValue()
    ensures var e := Sum(Num(2), Product(Num(3), Num(4)));
            && Literals(e) && Defined(e) && Numbers(e) < 65536 && 1 + Depth(e) <= 65536 && Wrap48(Exact(e)) == 14
            && Source(e) == Node(Lit(IntLit(2)), TBin(Plus), Node(Lit(IntLit(3)), TBin(Star), Lit(IntLit(4))))
  {
    hide AsInt, IntVal;
    var l, r := Num(3), Num(4);
    UnboxBox(3);
    UnboxBox(4);
    assert Defined(l) && Defined(r) && Defined(Product(l, r));
    assert Source(Product(l, r)) == Node(Lit(IntLit(3)), TBin(Star), Lit(IntLit(4)));
  }

  lemma ChainValue()
    ensures var e := Difference(Difference(Num(10), Num(4)), Num(3));
            && Literals(e) && Defined(e) && Numbers(e) < 65536 && 1 + Depth(e) <= 65536 && Wrap48(Exact(e)) == 3
            && Source(e) == Node(Node(Lit(IntLit(10)), TBin(Minus), Lit(IntLit(4))), TBin(Minus), Lit(IntLit(3)))
  {
    hide AsInt, IntVal;
    assert Source(Difference(Num(10), Num(4))) == Node(Lit(IntLit(10)), TBin(Minus), Lit(IntLit(4)));
  }
}
