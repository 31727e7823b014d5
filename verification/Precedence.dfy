/** How expressions are to be read (the rules table of src/compiler.c, from line 790): the infix operators in a list
    from the loosest to the tightest, with nothing of the precedence levels of module Syntax; and the proof that the
    parser reads every row of operands and operators, however long, as this list says. */
module Precedence {
  import opened Syntax
  import opened Parsing
  import Printing

  // ---- The order of the operators ----

  /** The infix operators, the loosest first. */
  const TIERS: seq<set<Token>> := [
    {TOr, TPipePipe},
    {TAnd, TAmpAmp},
    {TBin(Pipe)},
    {TBin(Caret)},
    {TBin(Amp)},
    {TBin(EqualEqual), TBin(BangEqual)},
    {TBin(Less), TBin(LessEqual), TBin(Greater), TBin(GreaterEqual)},
    {TBin(LShift), TBin(RShift)},
    {TBin(Plus), TBin(Minus)},
    {TBin(Star), TBin(Slash), TBin(Percent)},
    {TBin(StarStar)}]

  ghost predicate InTier(t: Token, i: nat) {
    i < |TIERS| && t in TIERS[i]
  }

  ghost predicate IsInfix(t: Token) {
    exists i: nat :: InTier(t, i)
  }

  /** a is in an earlier set than b. */
  ghost predicate Looser(a: Token, b: Token) {
    exists i: nat, j: nat :: i < j && InTier(a, i) && InTier(b, j)
  }

  /** `a or b or c` is `a or (b or c)`, and so with `and`; all others group to the left. */
  predicate GroupsRight(t: Token) {
    t in {TOr, TPipePipe, TAnd, TAmpAmp}
  }

  /** Where a row of operators is split: at the loosest one, and among several of that set at the first or at the
      last, as they group. */
  ghost predicate SplitsAt(ops: seq<Token>, k: nat) {
    && k < |ops|
    && (forall j :: 0 <= j < |ops| ==> !Looser(ops[j], ops[k]))
    && (forall j :: 0 <= j < |ops| && j != k && !Looser(ops[k], ops[j]) ==> if GroupsRight(ops[k]) then k < j else j < k)
  }

  /** What an infix operator makes of its operands. */
  function Node(l: Expr, t: Token, r: Expr): Expr {
    if t.TBin? then Binary(t.op, l, r) else if t == TAnd || t == TAmpAmp then And(l, r) else Or(l, r)
  }

  ghost function Split(ops: seq<Token>): (k: nat)
    requires ops != [] && forall i :: 0 <= i < |ops| ==> IsInfix(ops[i])
    ensures k < |ops| && SplitsAt(ops, k)
  {
    SplitExists(ops);
    var k: nat :| SplitsAt(ops, k);
    k
  }

  /** The tree of operands with infix operators between them. */
  ghost function Reading(operands: seq<Expr>, ops: seq<Token>): Expr
    requires |operands| == |ops| + 1 && forall i :: 0 <= i < |ops| ==> IsInfix(ops[i])
    decreases |ops|
  {
    if ops == [] then operands[0]
    else
      var k := Split(ops);
      Node(Reading(operands[..k + 1], ops[..k]), ops[k], Reading(operands[k + 1..], ops[k + 1..]))
  }

  // ---- Texts ----

  /** What stands between infix operators. Signs and calls are tighter than all of them, and a call is tighter than a
      sign. */
  datatype Operand =
    | Atom(lit: Literal)
    | Name(name: string)
    | Signed(sign: Sign, inner: Operand)
    | Applied(callee: Operand, args: Phrases)
    | Group(inside: Phrase)

  datatype Sign = MinusSign | BangSign | NotSign | TildeSign

  /** Operands with infix operators between them. */
  datatype Row = Single(o: Operand) | Longer(o: Operand, t: Token, rest: Row)

  /** An assignment is looser than all operators. */
  datatype Phrase = Plain(row: Row) | SetTo(name: string, value: Phrase)

  datatype Phrases = None | More(first: Phrase, rest: Phrases)

  function SignText(s: Sign): Token {
    match s
    case MinusSign => TBin(Minus)
    case BangSign => TBang
    case NotSign => TNot
    case TildeSign => TTilde
  }

  function SignOp(s: Sign): UnOp {
    match s
    case MinusSign => Neg
    case BangSign => Not
    case NotSign => Not
    case TildeSign => BitNot
  }

  function OperandText(o: Operand): seq<Token> {
    match o
    case Atom(lit) => [TLit(lit)]
    case Name(name) => [TIdent(name)]
    case Signed(s, inner) => [SignText(s)] + OperandText(inner)
    case Applied(callee, args) => OperandText(callee) + ([TLParen] + (PhrasesText(args) + [TRParen]))
    case Group(inside) => [TLParen] + (PhraseText(inside) + [TRParen])
  }

  function RowText(r: Row): seq<Token> {
    match r
    case Single(o) => OperandText(o)
    case Longer(o, t, rest) => OperandText(o) + ([t] + RowText(rest))
  }

  function PhraseText(p: Phrase): seq<Token> {
    match p
    case Plain(row) => RowText(row)
    case SetTo(name, value) => [TIdent(name), TEqual] + PhraseText(value)
  }

  function PhrasesText(ps: Phrases): seq<Token> {
    match ps
    case None => []
    case More(p, None) => PhraseText(p)
    case More(p, rest) => PhraseText(p) + ([TComma] + PhrasesText(rest))
  }

  // ---- Their trees ----

  function Count(ps: Phrases): nat {
    match ps
    case None => 0
    case More(_, rest) => 1 + Count(rest)
  }

  function RowOps(r: Row): (ops: seq<Token>) {
    match r
    case Single(_) => []
    case Longer(_, t, rest) => [t] + RowOps(rest)
  }

  /** Infix operators stand between operands, what is called is no signed operand, and it gets 255 arguments at most. */
  ghost predicate ProperOperand(o: Operand) {
    match o
    case Atom(_) => true
    case Name(_) => true
    case Signed(_, inner) => ProperOperand(inner)
    case Applied(callee, args) => ProperOperand(callee) && !callee.Signed? && ProperPhrases(args) && Count(args) <= 255
    case Group(inside) => ProperPhrase(inside)
  }

  ghost predicate ProperRow(r: Row) {
    match r
    case Single(o) => ProperOperand(o)
    case Longer(o, t, rest) => ProperOperand(o) && IsInfix(t) && ProperRow(rest)
  }

  ghost predicate ProperPhrase(p: Phrase) {
    match p
    case Plain(row) => ProperRow(row)
    case SetTo(_, value) => ProperPhrase(value)
  }

  ghost predicate ProperPhrases(ps: Phrases) {
    match ps
    case None => true
    case More(p, rest) => ProperPhrase(p) && ProperPhrases(rest)
  }

  ghost function OperandTree(o: Operand): Expr
    requires ProperOperand(o)
  {
    match o
    case Atom(lit) => Lit(lit)
    case Name(name) => Var(name)
    case Signed(s, inner) => Unary(SignOp(s), OperandTree(inner))
    case Applied(callee, args) => Call(OperandTree(callee), PhraseTrees(args))
    case Group(inside) => PhraseTree(inside)
  }

  ghost function RowTrees(r: Row): (trees: seq<Expr>)
    requires ProperRow(r)
    ensures |trees| == |RowOps(r)| + 1 && forall i :: 0 <= i < |RowOps(r)| ==> IsInfix(RowOps(r)[i])
  {
    match r
    case Single(o) => [OperandTree(o)]
    case Longer(o, t, rest) => [OperandTree(o)] + RowTrees(rest)
  }

  ghost function PhraseTree(p: Phrase): Expr
    requires ProperPhrase(p)
  {
    match p
    case Plain(row) => Reading(RowTrees(row), RowOps(row))
    case SetTo(name, value) => Assign(name, PhraseTree(value))
  }

  ghost function PhraseTrees(ps: Phrases): Exprs
    requires ProperPhrases(ps)
  {
    match ps
    case None => ENil
    case More(p, rest) => ECons(PhraseTree(p), PhraseTrees(rest))
  }

  // ---- The list and the table agree ----

  function TierLevel(i: nat): nat {
    if i < 8 then i + 2 else i + 3
  }

  lemma LevelOfTier(t: Token, i: nat)
    requires InTier(t, i)
    ensures i < |TIERS| && RulePrec(t) == TierLevel(i) && (GroupsRight(t) <==> i < 2)
    ensures t.TBin? || t == TAnd || t == TAmpAmp || t == TOr || t == TPipePipe
  {
  }

  lemma LooserIff(a: Token, b: Token)
    requires IsInfix(a) && IsInfix(b)
    ensures Looser(a, b) <==> RulePrec(a) < RulePrec(b)
    ensures RulePrec(a) == RulePrec(b) ==> (GroupsRight(a) <==> GroupsRight(b))
    ensures PREC_OR <= RulePrec(a) <= PREC_POWER && (GroupsRight(a) <==> RulePrec(a) <= PREC_AND)
  {
    hide InTier, RulePrec, GroupsRight;
    var i: nat, j: nat :| InTier(a, i) && InTier(b, j);
    LevelOfTier(a, i);
    LevelOfTier(b, j);
    if Looser(a, b) {
      var i': nat, j': nat :| i' < j' && InTier(a, i') && InTier(b, j');
      LevelOfTier(a, i');
      LevelOfTier(b, j');
    }
  }

  /** The split in terms of the levels. */
  predicate SplitsLevels(ops: seq<Token>, k: nat) {
    && k < |ops|
    && (forall j :: 0 <= j < |ops| ==> RulePrec(ops[k]) <= RulePrec(ops[j]))
    && (forall j :: 0 <= j < k && RulePrec(ops[j]) == RulePrec(ops[k]) ==> RulePrec(ops[k]) > PREC_AND)
    && (forall j :: k < j < |ops| && RulePrec(ops[j]) == RulePrec(ops[k]) ==> RulePrec(ops[k]) <= PREC_AND)
  }

  lemma SplitsIff(ops: seq<Token>, k: nat)
    requires forall i :: 0 <= i < |ops| ==> IsInfix(ops[i])
    ensures SplitsAt(ops, k) <==> SplitsLevels(ops, k)
  {
    hide IsInfix, Looser, RulePrec, GroupsRight;
    if k < |ops| {
      forall j | 0 <= j < |ops|
        ensures Looser(ops[j], ops[k]) <==> RulePrec(ops[j]) < RulePrec(ops[k])
        ensures Looser(ops[k], ops[j]) <==> RulePrec(ops[k]) < RulePrec(ops[j])
        ensures GroupsRight(ops[k]) <==> RulePrec(ops[k]) <= PREC_AND
      {
        LooserIff(ops[j], ops[k]);
        LooserIff(ops[k], ops[j]);
      }
    }
  }

  lemma {:induction false} LevelsSplit(ops: seq<Token>) returns (k: nat)
    requires ops != []
    ensures SplitsLevels(ops, k)
    decreases |ops|
  {
    hide RulePrec;
    if |ops| == 1 { return 0; }
    k := LevelsSplit(ops[1..]);
    k := if FirstIsRoot(ops[0], ops[k + 1]) then 0 else k + 1;
    assert forall j :: 1 <= j < |ops| ==> ops[j] == ops[1..][j - 1];
  }

  predicate FirstIsRoot(first: Token, root: Token) {
    RulePrec(first) < RulePrec(root) || (RulePrec(first) == RulePrec(root) && RulePrec(root) <= PREC_AND)
  }

  lemma SplitExists(ops: seq<Token>)
    requires ops != [] && forall i :: 0 <= i < |ops| ==> IsInfix(ops[i])
    ensures exists k: nat :: SplitsAt(ops, k)
  {
    var k := LevelsSplit(ops);
    SplitsIff(ops, k);
  }

  /** A row is split in one place only, so it has one reading. */
  lemma SplitIsUnique(ops: seq<Token>, k: nat, k': nat)
    requires forall i :: 0 <= i < |ops| ==> IsInfix(ops[i])
    requires SplitsAt(ops, k) && SplitsAt(ops, k')
    ensures k == k'
  {
    hide RulePrec, IsInfix, Looser, SplitsAt;
    SplitsIff(ops, k);
    SplitsIff(ops, k');
    SplitsOnce(ops, k, k');
    SplitsOnce(ops, k', k);
  }

  lemma SplitsOnce(ops: seq<Token>, k: nat, k': nat)
    requires SplitsLevels(ops, k) && SplitsLevels(ops, k')
    ensures k >= k'
  {
    hide RulePrec;
    assert RulePrec(ops[k]) <= RulePrec(ops[k']) && RulePrec(ops[k']) <= RulePrec(ops[k]);
  }

  // ---- The parser reads rows ----

  /** The text of an operand is read as its tree wherever an operand can stand; `last` is the level up to which an
      infix operator may follow. */
  ghost predicate Reads(text: seq<Token>, tree: Expr, last: nat) {
    && Printing.StartsExpression(text)
    && forall p: nat, rest: seq<Token> ::
      PREC_ASSIGNMENT <= p <= PREC_UNARY && NextPrec(rest) <= last && !StartsWith(rest, TEqual)
      ==> ParsePrecedence(text + rest, p) == ParseInfix(tree, rest, p)
  }

  function Interleaved(texts: seq<seq<Token>>, ops: seq<Token>): seq<Token>
    requires |texts| == |ops| + 1
    decreases |ops|
  {
    if ops == [] then texts[0] else texts[0] + ([ops[0]] + Interleaved(texts[1..], ops[1..]))
  }

  lemma {:induction false} InterleavedAt(texts: seq<seq<Token>>, ops: seq<Token>, k: nat)
    requires |texts| == |ops| + 1 && k < |ops|
    ensures Interleaved(texts, ops) ==
            Interleaved(texts[..k + 1], ops[..k]) + ([ops[k]] + Interleaved(texts[k + 1..], ops[k + 1..]))
    decreases k
  {
    if k > 0 {
      InterleavedAt(texts[1..], ops[1..], k - 1);
      assert texts[1..][..k] == texts[..k + 1][1..] && ops[1..][..k - 1] == ops[..k][1..];
      assert texts[1..][k..] == texts[k + 1..] && ops[1..][k..] == ops[k + 1..];
    }
  }

  lemma {:induction false} StartsLikeOperand(texts: seq<seq<Token>>, ops: seq<Token>)
    requires |texts| == |ops| + 1 && Printing.StartsExpression(texts[0])
    ensures Printing.StartsExpression(Interleaved(texts, ops))
  {
  }

  function RightLevel(t: Token): nat {
    if t.TBin? then RulePrec(t) + 1 else RulePrec(t)
  }

  lemma OperatorReads(l: Expr, t: Token, r: Expr, ts: seq<Token>, p: nat, rest: seq<Token>)
    requires IsInfix(t) && p <= RulePrec(t) && !StartsWith(ts, TNewline)
    requires NextPrec(rest) < RightLevel(t) && !StartsWith(rest, TEqual)
    requires ParsePrecedence(ts, RightLevel(t)) == ParseInfix(r, rest, RightLevel(t))
    ensures ParseInfix(l, [t] + ts, p) == ParseInfix(Node(l, t, r), rest, p)
  {
    hide ParsePrecedence, ParseInfix, IsInfix;
    LooserIff(t, t);
    Printing.ParseStops(r, RightLevel(t), rest);
    OperatorParses(l, t, r, ts, rest);
    Printing.InfixStep(l, [t] + ts, p, Node(l, t, r), rest);
  }

  lemma OperatorParses(l: Expr, t: Token, r: Expr, ts: seq<Token>, rest: seq<Token>)
    requires IsInfix(t) && !StartsWith(ts, TNewline)
    requires ParsePrecedence(ts, RightLevel(t)) == Parsed(r, rest)
    ensures RulePrec(t) > PREC_NONE && ParseOperator(l, [t] + ts) == Parsed(Node(l, t, r), rest)
  {
    hide ParsePrecedence, InTier;
    var i: nat :| InTier(t, i);
    LevelOfTier(t, i);
    assert ([t] + ts)[1..] == ts;
  }

  /** What may follow a row that is read at level p. */
  ghost predicate Bounded(ops: seq<Token>, p: nat, rest: seq<Token>) {
    && PREC_ASSIGNMENT <= p <= PREC_UNARY && NextPrec(rest) <= PREC_POWER && !StartsWith(rest, TEqual)
    && forall i :: 0 <= i < |ops| ==> p <= RulePrec(ops[i]) && NextPrec(rest) < RightLevel(ops[i])
  }

  lemma ReadsAt(text: seq<Token>, tree: Expr, last: nat, p: nat, rest: seq<Token>)
    requires Reads(text, tree, last) && PREC_ASSIGNMENT <= p <= PREC_UNARY && NextPrec(rest) <= last && !StartsWith(rest, TEqual)
    ensures ParsePrecedence(text + rest, p) == ParseInfix(tree, rest, p)
  {
    hide ParsePrecedence, ParseInfix, NextPrec;
  }

  lemma OperandStarts(text: seq<Token>, tree: Expr, last: nat)
    requires Reads(text, tree, last)
    ensures Printing.StartsExpression(text)
  {
    hide ParsePrecedence, ParseInfix, NextPrec;
  }

  lemma {:induction false} RowReads(texts: seq<seq<Token>>, trees: seq<Expr>, ops: seq<Token>, p: nat, rest: seq<Token>)
    requires |texts| == |trees| == |ops| + 1 && forall i :: 0 <= i < |ops| ==> IsInfix(ops[i])
    requires forall i :: 0 <= i < |texts| ==> Reads(texts[i], trees[i], PREC_POWER)
    requires Bounded(ops, p, rest)
    ensures ParsePrecedence(Interleaved(texts, ops) + rest, p) == ParseInfix(Reading(trees, ops), rest, p)
    decreases |ops|
  {
    hide ParsePrecedence, ParseInfix, IsInfix, RulePrec, Looser, SplitsAt, SplitsLevels, Reads, NextPrec, RightLevel, Bounded;
    OperandBounded(ops, p, rest);
    if ops == [] {
      ReadsAt(texts[0], trees[0], PREC_POWER, p, rest);
    } else {
      var k := Split(ops);
      SplitsIff(ops, k);
      RowParts(ops, k, p, rest, Interleaved(texts[k + 1..], ops[k + 1..]) + rest);
      RowReads(texts[..k + 1], trees[..k + 1], ops[..k], p, [ops[k]] + (Interleaved(texts[k + 1..], ops[k + 1..]) + rest));
      RowReads(texts[k + 1..], trees[k + 1..], ops[k + 1..], RightLevel(ops[k]), rest);
      OperandStarts(texts[k + 1], trees[k + 1], PREC_POWER);
      StartsLikeOperand(texts[k + 1..], ops[k + 1..]);
      JoinReads(Interleaved(texts[..k + 1], ops[..k]), Reading(trees[..k + 1], ops[..k]), ops[k],
                Interleaved(texts[k + 1..], ops[k + 1..]), Reading(trees[k + 1..], ops[k + 1..]), p, rest);
      InterleavedAt(texts, ops, k);
    }
  }

  lemma JoinReads(left: seq<Token>, l: Expr, t: Token, right: seq<Token>, r: Expr, p: nat, rest: seq<Token>)
    requires IsInfix(t) && p <= RulePrec(t) && Printing.StartsExpression(right)
    requires NextPrec(rest) < RightLevel(t) && !StartsWith(rest, TEqual)
    requires ParsePrecedence(left + ([t] + (right + rest)), p) == ParseInfix(l, [t] + (right + rest), p)
    requires ParsePrecedence(right + rest, RightLevel(t)) == ParseInfix(r, rest, RightLevel(t))
    ensures ParsePrecedence(left + ([t] + right) + rest, p) == ParseInfix(Node(l, t, r), rest, p)
  {
    hide ParsePrecedence, ParseInfix, IsInfix, RulePrec, NextPrec, RightLevel;
    OperatorReads(l, t, r, right + rest, p, rest);
    assert left + ([t] + right) + rest == left + ([t] + (right + rest));
  }

  lemma OperandBounded(ops: seq<Token>, p: nat, rest: seq<Token>)
    requires Bounded(ops, p, rest)
    ensures PREC_ASSIGNMENT <= p <= PREC_UNARY && NextPrec(rest) <= PREC_POWER && !StartsWith(rest, TEqual)
  {
  }

  lemma RowParts(ops: seq<Token>, k: nat, p: nat, rest: seq<Token>, after: seq<Token>)
    requires k < |ops| && forall i :: 0 <= i < |ops| ==> IsInfix(ops[i])
    requires SplitsLevels(ops, k) && Bounded(ops, p, rest)
    ensures Bounded(ops[..k], p, [ops[k]] + after)
    ensures Bounded(ops[k + 1..], RightLevel(ops[k]), rest)
    ensures p <= RulePrec(ops[k]) && NextPrec(rest) < RightLevel(ops[k])
  {
    hide RulePrec, IsInfix;
    LevelsOf(ops[k]);
    forall i | 0 <= i < |ops|
      ensures if RulePrec(ops[i]) > PREC_AND then ops[i].TBin? else !ops[i].TBin?
    {
      LevelsOf(ops[i]);
    }
  }

  lemma LevelsOf(t: Token)
    requires IsInfix(t)
    ensures PREC_OR <= RulePrec(t) <= PREC_POWER && (t.TBin? <==> RulePrec(t) > PREC_AND)
    ensures t != TEqual && NextPrec([t]) == RulePrec(t)
  {
    hide InTier;
    var i: nat :| InTier(t, i);
    LevelOfTier(t, i);
  }

  // ---- The parser reads phrases ----

  function RowTexts(r: Row): (texts: seq<seq<Token>>)
    ensures |texts| == |RowOps(r)| + 1
  {
    match r
    case Single(o) => [OperandText(o)]
    case Longer(o, _, rest) => [OperandText(o)] + RowTexts(rest)
  }

  lemma {:induction false} RowTextIsInterleaved(r: Row)
    ensures RowText(r) == Interleaved(RowTexts(r), RowOps(r))
  {
    if r.Longer? {
      RowTextIsInterleaved(r.rest);
      assert RowTexts(r)[1..] == RowTexts(r.rest) && RowOps(r)[1..] == RowOps(r.rest);
    }
  }

  function LastLevel(o: Operand): nat {
    if o.Signed? then PREC_POWER else PREC_CALL
  }

  lemma {:induction false} OperandReads(o: Operand)
    requires ProperOperand(o)
    ensures Reads(OperandText(o), OperandTree(o), LastLevel(o))
    decreases o, 1
  {
    match o
    case Atom(_) => AtomReads(o);
    case Name(_) => AtomReads(o);
    case Signed(s, inner) =>
      OperandReads(inner);
      SignedReads(s, OperandText(inner), OperandTree(inner), LastLevel(inner));
    case Applied(_, _) => AppliedReads(o);
    case Group(inside) => GroupReads(inside);
  }

  lemma AtomReads(o: Operand)
    requires o.Atom? || o.Name?
    ensures Reads(OperandText(o), OperandTree(o), PREC_CALL)
  {
    forall p: nat, rest: seq<Token> | PREC_ASSIGNMENT <= p <= PREC_UNARY && !StartsWith(rest, TEqual)
      ensures ParsePrecedence(OperandText(o) + rest, p) == ParseInfix(OperandTree(o), rest, p)
    {
      hide ParsePrecedence, ParseInfix;
      Printing.LeafStep(OperandText(o)[0], p, rest);
    }
  }

  lemma SignedReads(s: Sign, text: seq<Token>, tree: Expr, last: nat)
    requires Reads(text, tree, last) && last >= PREC_POWER
    ensures Reads([SignText(s)] + text, Unary(SignOp(s), tree), PREC_POWER)
  {
    hide ParsePrecedence, ParseInfix, NextPrec;
    forall p: nat, rest: seq<Token> | PREC_ASSIGNMENT <= p <= PREC_UNARY && NextPrec(rest) <= PREC_POWER && !StartsWith(rest, TEqual)
      ensures ParsePrecedence([SignText(s)] + text + rest, p) == ParseInfix(Unary(SignOp(s), tree), rest, p)
    {
      SignedReadsAt(s, text, tree, last, p, rest);
    }
  }

  lemma SignedReadsAt(s: Sign, text: seq<Token>, tree: Expr, last: nat, p: nat, rest: seq<Token>)
    requires Reads(text, tree, last) && last >= PREC_POWER
    requires PREC_ASSIGNMENT <= p <= PREC_UNARY && NextPrec(rest) <= PREC_POWER && !StartsWith(rest, TEqual)
    ensures ParsePrecedence([SignText(s)] + text + rest, p) == ParseInfix(Unary(SignOp(s), tree), rest, p)
  {
    hide ParsePrecedence, ParseInfix, Reads, NextPrec, SignText, SignOp;
    ReadsAt(text, tree, last, PREC_UNARY, rest);
    Printing.ParseStops(tree, PREC_UNARY, rest);
    SignStep(s, tree, text + rest, p, rest);
    assert [SignText(s)] + text + rest == [SignText(s)] + (text + rest);
  }

  lemma SignStep(s: Sign, tree: Expr, ts: seq<Token>, p: nat, rest: seq<Token>)
    requires ParsePrecedence(ts, PREC_UNARY) == Parsed(tree, rest)
    ensures ParsePrecedence([SignText(s)] + ts, p) == ParseInfix(Unary(SignOp(s), tree), rest, p)
  {
    hide ParseInfix;
    var all := [SignText(s)] + ts;
    assert all[1..] == ts;
    assert ParsePrefix(all, p <= PREC_ASSIGNMENT) == Parsed(Unary(SignOp(s), tree), rest);
  }

  /** What can follow a phrase: nothing, or a token that is no part of an expression. */
  predicate Ends(rest: seq<Token>) {
    rest == [] || rest[0] in {TRParen, TComma, TNewline, TThen, TElsif, TElse, TEnd, TDo}
  }

  lemma {:induction false} GroupReads(inside: Phrase)
    requires ProperPhrase(inside)
    ensures Reads(OperandText(Group(inside)), OperandTree(Group(inside)), PREC_CALL)
    decreases inside, 5
  {
    hide ParsePrecedence, ParseInfix, PhraseText, PhraseTree, ProperPhrase, NextPrec;
    var text, tree := PhraseText(inside), PhraseTree(inside);
    forall p: nat, rest: seq<Token> | PREC_ASSIGNMENT <= p <= PREC_UNARY
      ensures ParsePrecedence([TLParen] + (text + [TRParen]) + rest, p) == ParseInfix(tree, rest, p)
    {
      PhraseReads(inside, [TRParen] + rest);
      Printing.ParenStep(tree, text, p, rest);
      assert [TLParen] + (text + [TRParen]) + rest == [TLParen] + (text + ([TRParen] + rest));
    }
  }

  lemma {:induction false} AppliedReads(o: Operand)
    requires o.Applied? && ProperOperand(o)
    ensures Reads(OperandText(o), OperandTree(o), PREC_CALL)
    decreases o, 0
  {
    hide ParsePrecedence, ParseInfix, NextPrec, PhrasesText, PhraseTrees, ProperPhrases;
    OperandReads(o.callee);
    OperandStarts(OperandText(o.callee), OperandTree(o.callee), PREC_CALL);
    forall p: nat, rest: seq<Token> | PREC_ASSIGNMENT <= p <= PREC_UNARY
      ensures ParsePrecedence(OperandText(o) + rest, p) == ParseInfix(OperandTree(o), rest, p)
    {
      ArgumentsRead(o.args, rest);
      CallReads(OperandText(o.callee), OperandTree(o.callee), PhrasesText(o.args), PhraseTrees(o.args), p, rest);
      assert OperandText(o) + rest
          == OperandText(o.callee) + ([TLParen] + (PhrasesText(o.args) + ([TRParen] + rest)));
    }
  }

  lemma CallReads(callee: seq<Token>, f: Expr, args: seq<Token>, es: Exprs, p: nat, rest: seq<Token>)
    requires Reads(callee, f, PREC_CALL) && ParseArguments(args + ([TRParen] + rest)) == Parsed(es, rest)
    requires PREC_ASSIGNMENT <= p <= PREC_UNARY
    ensures ParsePrecedence(callee + ([TLParen] + (args + ([TRParen] + rest))), p) == ParseInfix(Call(f, es), rest, p)
  {
    hide ParsePrecedence, ParseInfix, ParseArguments, Reads, ParseOperator;
    var inner := args + ([TRParen] + rest);
    Printing.CallParses(f, es, inner, rest);
    ReadsAt(callee, f, PREC_CALL, p, [TLParen] + inner);
    Printing.InfixStep(f, [TLParen] + inner, p, Call(f, es), rest);
  }

  lemma {:induction false} RowIsRead(r: Row)
    requires ProperRow(r)
    ensures forall i :: 0 <= i < |RowTexts(r)| ==> Reads(RowTexts(r)[i], RowTrees(r)[i], PREC_POWER)
    decreases r, 2
  {
    OperandReads(r.o);
    if r.Longer? { RowIsRead(r.rest); }
  }

  lemma {:induction false} PlainReads(row: Row, rest: seq<Token>)
    requires ProperRow(row) && Ends(rest)
    ensures Printing.StartsExpression(RowText(row))
    ensures ParsePrecedence(RowText(row) + rest, PREC_ASSIGNMENT)
         == ParseInfix(Reading(RowTrees(row), RowOps(row)), rest, PREC_ASSIGNMENT)
    decreases row, 3
  {
    hide ParsePrecedence, ParseInfix, Reading, Reads, RowTexts, RowText, RowTrees, ProperRow, RightLevel, RulePrec, IsInfix;
    RowIsRead(row);
    RowTextIsInterleaved(row);
    OperandStarts(RowTexts(row)[0], RowTrees(row)[0], PREC_POWER);
    StartsLikeOperand(RowTexts(row), RowOps(row));
    forall i | 0 <= i < |RowOps(row)|
      ensures PREC_ASSIGNMENT <= RulePrec(RowOps(row)[i]) && PREC_NONE < RightLevel(RowOps(row)[i])
    {
      RightIsTight(RowOps(row)[i]);
    }
    EndsIsLoose(rest);
    RowReads(RowTexts(row), RowTrees(row), RowOps(row), PREC_ASSIGNMENT, rest);
  }

  lemma RightIsTight(t: Token)
    requires IsInfix(t)
    ensures PREC_ASSIGNMENT <= RulePrec(t) && PREC_NONE < RightLevel(t)
  {
    hide IsInfix;
    LevelsOf(t);
  }

  lemma EndsIsLoose(rest: seq<Token>)
    requires Ends(rest)
    ensures NextPrec(rest) == PREC_NONE && !StartsWith(rest, TEqual)
  {
  }

  /** The parser reads every phrase as its tree, and stops where it ends. */
  lemma {:induction false} PhraseReads(p: Phrase, rest: seq<Token>)
    requires ProperPhrase(p) && Ends(rest)
    ensures Printing.StartsExpression(PhraseText(p))
    ensures ParseExpression(PhraseText(p) + rest) == Parsed(PhraseTree(p), rest)
    decreases p, 4
  {
    hide ParsePrecedence, ParseInfix, Reading, RowText, ProperRow, RowTrees, RowOps, Ends, NextPrec;
    EndsIsLoose(rest);
    match p {
      case Plain(row) => PlainReads(row, rest);
      case SetTo(name, value) =>
        PhraseReads(value, rest);
        Printing.AssignStep(name, PhraseTree(value), PhraseText(value) + rest, PREC_ASSIGNMENT, rest);
        assert PhraseText(p) + rest == [TIdent(name), TEqual] + (PhraseText(value) + rest);
    }
    Printing.ParseStops(PhraseTree(p), PREC_ASSIGNMENT, rest);
  }

  lemma {:induction false} ArgumentsRead(ps: Phrases, rest: seq<Token>)
    requires ProperPhrases(ps) && Count(ps) <= 255
    ensures ParseArguments(PhrasesText(ps) + ([TRParen] + rest)) == Parsed(PhraseTrees(ps), rest)
    decreases ps, 2
  {
    hide ParseArgumentList;
    var ts := PhrasesText(ps) + ([TRParen] + rest);
    if ps.None? {
      assert ts == [TRParen] + rest && ts[1..] == rest;
    } else {
      ArgumentListReads(ps, 0, rest);
      PhraseReads(ps.first, []);
      assert ts[0] == PhraseText(ps.first)[0];
    }
  }

  lemma {:induction false} ArgumentListReads(ps: Phrases, n: nat, rest: seq<Token>)
    requires ps.More? && ProperPhrases(ps) && n + Count(ps) <= 255
    ensures ParseArgumentList(PhrasesText(ps) + ([TRParen] + rest), n) == Parsed(PhraseTrees(ps), rest)
    decreases ps, 1
  {
    hide ParseArgumentList, ParsePrecedence, ParseInfix, PhraseText, PhraseTree, ProperPhrase, SkipNewlines;
    var text, tree := PhraseText(ps.first), PhraseTree(ps.first);
    if ps.rest.More? {
      var after := PhrasesText(ps.rest) + ([TRParen] + rest);
      PhraseReads(ps.first, [TComma] + after);
      ArgumentListReads(ps.rest, n + 1, rest);
      Printing.MoreArgumentsStep(tree, text + ([TComma] + after), PhraseTrees(ps.rest), after, n, rest);
      assert PhrasesText(ps) + ([TRParen] + rest) == text + ([TComma] + after);
    } else {
      PhraseReads(ps.first, [TRParen] + rest);
      Printing.LastArgumentStep(tree, text + ([TRParen] + rest), n, rest);
    }
  }

  /** The reading of two operators. The later operator gets the middle operand if it is tighter, or if both are of one
      set that groups to the right. */
  lemma TwoOperators(a: Operand, t: Token, b: Operand, u: Token, c: Operand, rest: seq<Token>)
    requires ProperOperand(a) && ProperOperand(b) && ProperOperand(c) && IsInfix(t) && IsInfix(u) && Ends(rest)
    ensures var x, y, z := OperandTree(a), OperandTree(b), OperandTree(c);
            ParseExpression(OperandText(a) + ([t] + (OperandText(b) + ([u] + OperandText(c)))) + rest) ==
            Parsed(if Looser(t, u) || (!Looser(u, t) && GroupsRight(t)) then Node(x, t, Node(y, u, z))
                   else Node(Node(x, t, y), u, z), rest)
  {
    hide ParsePrecedence, Looser, IsInfix, SplitsAt, ProperOperand, OperandTree, OperandText;
    var last := Single(c);
    var later := Longer(b, u, last);
    var row := Longer(a, t, later);
    var x, y, z := OperandTree(a), OperandTree(b), OperandTree(c);
    assert ProperRow(last) && RowTrees(last) == [z] && RowOps(last) == [];
    assert ProperRow(later) && RowTrees(later) == [y, z] && RowOps(later) == [u];
    assert ProperRow(row) && RowTrees(row) == [x, y, z] && RowOps(row) == [t, u];
    assert RowText(later) == OperandText(b) + ([u] + OperandText(c));
    PhraseReads(Plain(row), rest);
    ReadingOfTwo(x, t, y, u, z);
  }

  lemma ReadingOfOne(x: Expr, t: Token, y: Expr)
    requires IsInfix(t)
    ensures Reading([x, y], [t]) == Node(x, t, y)
  {
    hide IsInfix, SplitsAt;
    assert Split([t]) == 0;
    assert [x, y][..1] == [x] && [x, y][1..] == [y] && [t][..0] == [] && [t][1..] == [];
  }

  lemma ReadingOfTwo(x: Expr, t: Token, y: Expr, u: Token, z: Expr)
    requires IsInfix(t) && IsInfix(u)
    ensures Reading([x, y, z], [t, u]) ==
            if Looser(t, u) || (!Looser(u, t) && GroupsRight(t)) then Node(x, t, Node(y, u, z)) else Node(Node(x, t, y), u, z)
  {
    hide IsInfix, Looser;
    var ops := [t, u];
    var k := Split(ops);
    LooserIff(t, u);
    LooserIff(u, t);
    assert ops[0] == t && ops[1] == u;
    assert [x, y, z][..1] == [x] && [x, y, z][1..] == [y, z] && [x, y, z][..2] == [x, y] && [x, y, z][2..] == [z];
    assert ops[..0] == [] && ops[1..] == [u] && ops[..1] == [t] && ops[2..] == [];
    ReadingOfOne(x, t, y);
    ReadingOfOne(y, u, z);
    assert k == if Looser(t, u) || (!Looser(u, t) && GroupsRight(t)) then 0 else 1 by { hide RulePrec; }
  }

  /** A phrase by itself is a script. */
  lemma PhraseIsScript(p: Phrase)
    requires ProperPhrase(p)
    ensures ParseScript(PhraseText(p)) == Parsed(BCons(ExprStmt(PhraseTree(p)), BNil), [])
  {
    hide ParsePrecedence, PhraseText, PhraseTree, ProperPhrase, ParseStatement;
    var ts := PhraseText(p);
    PhraseReads(p, []);
    assert ts + [] == ts;
    Printing.ExprStmtParses(ts, false);
    assert SkipNewlines(ts) == ts;
    assert ParseScript([]) == Parsed(BNil, []);
  }
}
