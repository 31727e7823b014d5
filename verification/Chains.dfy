/** The exit jumps of if/elsif/else chains (src/compiler.c:904-949). The compiler keeps them in an array of 256
    and does not check the index. Here is which indices it uses while it compiles tokens, and the proof that for a
    script they stay in the array exactly if no chain has more than 256 guarded arms. */
module Chains {
  import opened Syntax
  import opened Parsing
  import opened Codegen
  import Printing

  // ---- The indices used while tokens are compiled, up to where they stop making sense ----

  predicate StatementInRange(ts: seq<Token>, inLoop: bool)
    decreases |ts|, 5
  {
    if StartsWith(ts, TIf) then ArmInRange(ts[1..], inLoop, 0)
    else if StartsWith(ts, TWhile) || StartsWith(ts, TUntil) then GuardedInRange(ts[1..])
    else if StartsWith(ts, TLoop) then LoopInRange(ts[1..])
    else true
  }

  predicate GuardedInRange(ts: seq<Token>)
    decreases |ts|, 8
  {
    var c := ParseExpression(SkipNewlines(ts));
    c.Parsed? ==> BlockInRange(SkipNewlines(c.rest), true, false)
  }

  predicate LoopInRange(ts: seq<Token>)
    decreases |ts|, 8
  {
    BlockInRange(SkipNewlines(SkipOptional(ts, TDo)), true, false)
  }

  predicate BlockInRange(ts: seq<Token>, inLoop: bool, inArm: bool)
    decreases |ts|, 6
  {
    if EndsBlock(ts, inArm) then true
    else
      && StatementInRange(ts, inLoop)
      && var s := ParseStatement(ts, inLoop);
         s.Parsed? ==> BlockInRange(SkipNewlines(s.rest), inLoop, inArm)
  }

  /** A condition, its block and the rest of the chain, with n exit jumps stored before: the next one goes to
      index n. */
  predicate ArmInRange(ts: seq<Token>, inLoop: bool, n: nat)
    decreases |ts|, 7
  {
    var c := ParseExpression(SkipNewlines(ts));
    c.Parsed? ==> ArmBlockInRange(SkipNewlines(SkipOptional(SkipNewlines(c.rest), TThen)), inLoop, n)
  }

  predicate ArmBlockInRange(ts: seq<Token>, inLoop: bool, n: nat)
    decreases |ts|, 10
  {
    && BlockInRange(ts, inLoop, true)
    && var b := ParseBlock(ts, inLoop, true);
       b.Parsed? ==> n < MAX_ARMS && TailInRange(b.rest, inLoop, n + 1)
  }

  predicate TailInRange(ts: seq<Token>, inLoop: bool, n: nat)
    decreases |ts|, 8
  {
    if StartsWith(ts, TElsif) then ArmInRange(ts[1..], inLoop, n)
    else if StartsWith(ts, TElse) then BlockInRange(SkipNewlines(ts[1..]), inLoop, false)
    else true
  }

  predicate ScriptInRange(ts: seq<Token>)
    decreases |ts|
  {
    var ts := SkipNewlines(ts);
    ts != [] ==>
      && StatementInRange(ts, false)
      && var s := ParseStatement(ts, false);
         s.Parsed? ==> ScriptInRange(s.rest)
  }

  lemma BlockInRangeStep(ts: seq<Token>, inLoop: bool, inArm: bool)
    requires BlockInRange(ts, inLoop, inArm) && !EndsBlock(ts, inArm)
    ensures StatementInRange(ts, inLoop)
    ensures ParseStatement(ts, inLoop).Parsed? ==> BlockInRange(SkipNewlines(ParseStatement(ts, inLoop).rest), inLoop, inArm)
  {
    hide ParseStatement, StatementInRange;
  }

  lemma ScriptInRangeStep(ts: seq<Token>)
    requires ScriptInRange(ts) && SkipNewlines(ts) != []
    ensures StatementInRange(SkipNewlines(ts), false)
    ensures var s := ParseStatement(SkipNewlines(ts), false); s.Parsed? ==> ScriptInRange(s.rest)
  {
    hide ParseStatement, StatementInRange;
  }

  lemma NothingInRange()
    ensures ScriptInRange([])
  {
  }

  // ---- For what parses, the indices are those of the tree ----

  lemma {:induction false} BlockInRangeIff(ts: seq<Token>, inLoop: bool, inArm: bool)
    requires ParseBlock(ts, inLoop, inArm).Parsed?
    ensures BlockInRange(ts, inLoop, inArm) <==> ChainsFit(ParseBlock(ts, inLoop, inArm).value)
    decreases |ts|, 6
  {
    hide ParseStatement, StatementInRange, StmtChainsFit;
    if !EndsBlock(ts, inArm) {
      StatementInRangeIff(ts, inLoop);
      BlockInRangeIff(SkipNewlines(ParseStatement(ts, inLoop).rest), inLoop, inArm);
    }
  }

  lemma LoopBodyInRangeIff(ts: seq<Token>)
    requires ParseLoopBody(ts).Parsed?
    ensures BlockInRange(ts, true, false) <==> ChainsFit(ParseLoopBody(ts).value)
    decreases |ts|, 7
  {
    hide ParseBlock, BlockInRange, ChainsFit;
    BlockInRangeIff(ts, true, false);
  }

  lemma {:induction false} StatementInRangeIff(ts: seq<Token>, inLoop: bool)
    requires ParseStatement(ts, inLoop).Parsed?
    ensures StatementInRange(ts, inLoop) <==> StmtChainsFit(ParseStatement(ts, inLoop).value)
    decreases |ts|, 5
  {
    hide ParseExpression, ParseArm, ParseLoopBody, ArmInRange, BlockInRange, ChainsFit, ArmsChainsFit, ArmCount, SkipNewlines, SkipOptional;
    if StartsWith(ts, TIf) {
      ArmInRangeIff(ts[1..], inLoop, 0);
      assert ParseArm(ts[1..], inLoop).value.Arm? by { ArmParsed(ts[1..], inLoop); }
    } else if StartsWith(ts, TWhile) || StartsWith(ts, TUntil) {
      LoopBodyInRangeIff(SkipNewlines(ParseExpression(SkipNewlines(ts[1..])).rest));
    } else if StartsWith(ts, TLoop) {
      LoopBodyInRangeIff(SkipNewlines(SkipOptional(ts[1..], TDo)));
    }
  }

  lemma ArmParsed(ts: seq<Token>, inLoop: bool)
    ensures ParseArm(ts, inLoop).Parsed? ==> ParseArm(ts, inLoop).value.Arm?
  {
    hide ParseExpression, ParseBlock, ParseArmTail;
  }

  lemma {:induction false} ArmInRangeIff(ts: seq<Token>, inLoop: bool, n: nat)
    requires ParseArm(ts, inLoop).Parsed?
    ensures ArmInRange(ts, inLoop, n) <==>
            n + ArmCount(ParseArm(ts, inLoop).value) <= MAX_ARMS && ArmsChainsFit(ParseArm(ts, inLoop).value)
    decreases |ts|, 7
  {
    hide ParseExpression, ParseBlock, ParseArmTail, BlockInRange, TailInRange, ChainsFit, SkipNewlines, SkipOptional;
    var block := SkipNewlines(SkipOptional(SkipNewlines(ParseExpression(SkipNewlines(ts)).rest), TThen));
    BlockInRangeIff(block, inLoop, true);
    TailInRangeIff(ParseBlock(block, inLoop, true).rest, inLoop, n + 1);
  }

  lemma {:induction false} TailInRangeIff(ts: seq<Token>, inLoop: bool, n: nat)
    requires ParseArmTail(ts, inLoop).Parsed?
    ensures TailInRange(ts, inLoop, n) && n <= MAX_ARMS <==>
            n + ArmCount(ParseArmTail(ts, inLoop).value) <= MAX_ARMS && ArmsChainsFit(ParseArmTail(ts, inLoop).value)
    decreases |ts|, 8
  {
    hide ParseArm, ParseBlock, ArmInRange, BlockInRange, SkipNewlines;
    if StartsWith(ts, TElsif) {
      ArmInRangeIff(ts[1..], inLoop, n);
    } else if StartsWith(ts, TElse) {
      BlockInRangeIff(SkipNewlines(ts[1..]), inLoop, false);
    }
  }

  /** While a script is compiled, every index into the array of exit jumps is below 256 if and only if no chain of
      the script has more than 256 guarded arms. */
  lemma {:induction false} ScriptInRangeIff(ts: seq<Token>)
    requires ParseScript(ts).Parsed?
    ensures ScriptInRange(ts) <==> ChainsFit(ParseScript(ts).value)
    decreases |ts|
  {
    hide ParseStatement, StatementInRange, StmtChainsFit;
    var s := SkipNewlines(ts);
    if s != [] {
      StatementInRangeIff(s, false);
      ScriptInRangeIff(ParseStatement(s, false).rest);
    }
  }

  // ---- A chain that is too long, in a script that breaks no other limit ----

  function LongChain(n: nat): Arms {
    if n == 0 then Else(BNil) else Arm(Lit(NilLit), BNil, LongChain(n - 1))
  }

  function OneChain(n: nat): Block {
    BCons(If(LongChain(n)), BNil)
  }

  lemma {:induction false} LongChainSize(n: nat, at: nat)
    ensures ArmCount(LongChain(n)) == n && ArmsChainsFit(LongChain(n)) && ArmsSize(LongChain(n)) == 9 * n
    ensures ArmsConstants(LongChain(n)) == [] && Printing.WellFormedArms(LongChain(n), false)
    ensures 9 * n <= MAX_JUMP ==> ArmsFits(LongChain(n), at, 0, Unknown)
    decreases n
  {
    if n > 0 {
      var rest := LongChain(n - 1);
      LongChainSize(n - 1, at + 9);
      assert ExprSize(Lit(NilLit)) == 1 && ExprConstants(Lit(NilLit)) == [] && BlockSize(BNil) == 0 && BlockConstants(BNil) == [];
      assert LongChain(n) == Arm(Lit(NilLit), BNil, rest);
      assert BlockFits(BNil, at + 5, 0, Unknown) && ExprFits(Lit(NilLit)) && Printing.CallsFit(Lit(NilLit));
      assert ArmsConstants(LongChain(n)) == [] + [] + ArmsConstants(rest);
    }
  }

  /** An `if` with 257 guarded arms of nine bytes each is well formed and within every limit of the bytecode, but its
      last exit jump is stored behind the array. */
  lemma TooManyArms(n: nat)
    requires 0 < n && 9 * n <= MAX_JUMP
    ensures Printing.WellFormed(OneChain(n), false) && ScriptFits(OneChain(n))
    ensures ScriptInRange(Printing.PrintBlock(OneChain(n))) <==> n <= 256
  {
    hide ParseScript, LongChain, ScriptFits, ScriptInRange, Printing.PrintBlock;
    var b := OneChain(n);
    LongChainSize(n, 0);
    LongChainStart(n);
    OneChainFits(n);
    assert Printing.WellFormed(b, false);
    Printing.ScriptRoundTrip(b);
    ScriptInRangeIff(Printing.PrintBlock(b));
  }

  lemma OneChainFits(n: nat)
    requires 9 * n <= MAX_JUMP
    ensures ScriptFits(OneChain(n))
  {
    hide LongChain, ArmsFits, ArmsConstants;
    LongChainSize(n, 0);
    var b := OneChain(n);
    assert BlockConstants(b) == ArmsConstants(LongChain(n)) + BlockConstants(BNil);
    assert BlockFits(BNil, StmtSize(If(LongChain(n))), 0, Unknown) && StmtFits(If(LongChain(n)), 0, 0, Unknown);
  }

  lemma LongChainStart(n: nat)
    requires n > 0
    ensures LongChain(n).Arm?
  {
  }
}
