/** Jumps land on instruction boundaries.

    A boundary is an address that reading the code one whole instruction at a time, from its first
    byte, arrives at. Nothing here depends on values: the machine stays on boundaries on every path
    through the code, taken or not. */
module Boundaries {
  import opened Syntax
  import opened Runtime
  import opened Machine
  import opened Codegen
  import opened Evaluation
  import opened Printing
  import opened Simulation
  import opened CompilerCorrectness

  /** Reading whole instructions from `a` arrives exactly at `b`. */
  ghost predicate Sweeps(p: Program, a: nat, b: nat)
    decreases b - a
  {
    a == b || (a < b && p.fetch(a).Fetched? && a < p.fetch(a).next <= b && Sweeps(p, p.fetch(a).next, b))
  }

  /** Where control can go after an instruction other than to the next one. */
  function JumpTargets(i: Instr, next: nat): set<int> {
    match i
    case Jump(off) => {next + off}
    case JumpIfFalse(off) => {next + off}
    case LoopBack(off) => {next - off}
    case _ => {}
  }

  ghost predicate OnBoundary(p: Program, a: nat, b: nat, t: int) {
    a <= t <= b && Sweeps(p, a, t)
  }

  /** The jumps of one instruction of the code from `a` to `b` land in it or on one of `exits`. */
  ghost predicate Lands(p: Program, a: nat, b: nat, exits: set<int>, x: nat) {
    && p.fetch(x).Fetched? && x < p.fetch(x).next <= b
    && forall t :: t in JumpTargets(p.fetch(x).instr, p.fetch(x).next) ==> t in exits || OnBoundary(p, a, b, t)
  }

  /** Whole instructions from `a` to `b`, whose jumps land among them or on one of `exits`. */
  ghost predicate Segment(p: Program, a: nat, b: nat, exits: set<int>) {
    Sweeps(p, a, b) && forall x :: a <= x < b && Sweeps(p, a, x) ==> Lands(p, a, b, exits, x)
  }

  lemma {:induction false} SweepsOn(p: Program, a: nat, b: nat, c: nat)
    requires Sweeps(p, a, b) && Sweeps(p, b, c)
    ensures Sweeps(p, a, c)
    decreases b - a
  {
    if a != b { SweepsOn(p, p.fetch(a).next, b, c); }
  }

  /** Two sweeps from the same address visit the same boundaries. */
  lemma {:induction false} SweepsMeet(p: Program, a: nat, b: nat, c: nat)
    requires Sweeps(p, a, b) && Sweeps(p, a, c) && b <= c
    ensures Sweeps(p, b, c)
    decreases b - a
  {
    if a != b { SweepsMeet(p, p.fetch(a).next, b, c); }
  }

  lemma One(p: Program, i: Instr, at: nat)
    requires InstrAt(p, at, i)
    ensures Segment(p, at, at + Size(i), JumpTargets(i, at + Size(i)))
  {
    var end := at + Size(i);
    assert Sweeps(p, end, end);
    forall x | at <= x < end && Sweeps(p, at, x) ensures Lands(p, at, end, JumpTargets(i, end), x) {
      assert x == at;
    }
  }

  lemma Join(p: Program, a: nat, b: nat, c: nat, e1: set<int>, e2: set<int>)
    requires Segment(p, a, b, e1) && Segment(p, b, c, e2)
    ensures Segment(p, a, c, e1 + e2)
  {
    SweepsOn(p, a, b, c);
    SweepsOrder(p, a, b);
    SweepsOrder(p, b, c);
    forall x | a <= x < c && Sweeps(p, a, x) ensures Lands(p, a, c, e1 + e2, x) {
      if x < b {
        assert Lands(p, a, b, e1, x);
      } else {
        SweepsMeet(p, a, b, x);
        assert Lands(p, b, c, e2, x);
        forall t | OnBoundary(p, b, c, t) ensures OnBoundary(p, a, c, t) { SweepsOn(p, a, b, t); }
      }
    }
  }

  lemma SweepsOrder(p: Program, a: nat, b: nat)
    requires Sweeps(p, a, b)
    ensures a <= b
  {
  }

  /** An exit that is a boundary of the segment itself is no exit. */
  lemma Close(p: Program, a: nat, b: nat, exits: set<int>, fewer: set<int>)
    requires Segment(p, a, b, exits)
    requires forall t :: t in exits ==> t in fewer || OnBoundary(p, a, b, t)
    ensures Segment(p, a, b, fewer)
  {
    forall x | a <= x < b && Sweeps(p, a, x) ensures Lands(p, a, b, fewer, x) {
      assert Lands(p, a, b, exits, x);
    }
  }

  lemma Ends(p: Program, a: nat, b: nat, exits: set<int>)
    requires Segment(p, a, b, exits)
    ensures a <= b && OnBoundary(p, a, b, a) && OnBoundary(p, a, b, b)
  {
    SweepsOrder(p, a, b);
  }

  lemma Inner(p: Program, a: nat, b: nat, c: nat, e1: set<int>, e2: set<int>)
    requires Segment(p, a, b, e1) && Segment(p, b, c, e2)
    ensures OnBoundary(p, a, c, b)
  {
    SweepsOrder(p, a, b);
    SweepsOrder(p, b, c);
  }

  // ---- The shapes the compiler emits ----

  lemma Empty(p: Program, a: nat)
    ensures Segment(p, a, a, {})
  {
  }

  /** Code, a forward jump over the rest, and the rest. */
  lemma JumpOver(p: Program, a: nat, mid: nat, i: Instr, c: nat, e1: set<int>, e2: set<int>)
    requires Segment(p, a, mid, e1) && InstrAt(p, mid, i) && (i.Jump? || i.JumpIfFalse?)
    requires mid + 3 + i.offset == c && Segment(p, mid + 3, c, e2)
    ensures Segment(p, a, c, e1 + e2)
  {
    hide Segment, InstrAt, OnBoundary;
    One(p, i, mid);
    Join(p, a, mid, mid + 3, e1, {c});
    Join(p, a, mid + 3, c, e1 + {c}, e2);
    Ends(p, a, c, e1 + {c} + e2);
    Close(p, a, c, e1 + {c} + e2, e1 + e2);
  }

  /** A plain instruction in front of code. */
  lemma Before(p: Program, i: Instr, at: nat, b: nat, exits: set<int>)
    requires InstrAt(p, at, i) && JumpTargets(i, at + Size(i)) == {} && Segment(p, at + Size(i), b, exits)
    ensures Segment(p, at, b, exits)
  {
    hide Segment, InstrAt, JumpTargets;
    One(p, i, at);
    Join(p, at, at + Size(i), b, {}, exits);
    assert {} + exits == exits;
  }

  /** A plain instruction after code. */
  lemma AfterCode(p: Program, a: nat, at: nat, i: Instr, exits: set<int>)
    requires Segment(p, a, at, exits) && InstrAt(p, at, i) && JumpTargets(i, at + Size(i)) == {}
    ensures Segment(p, a, at + Size(i), exits)
  {
    hide Segment, InstrAt, JumpTargets;
    One(p, i, at);
    Join(p, a, at, at + Size(i), exits, {});
    assert exits + {} == exits;
  }

  lemma JoinClosed(p: Program, a: nat, b: nat, c: nat, exits: set<int>)
    requires Segment(p, a, b, {}) && Segment(p, b, c, exits)
    ensures Segment(p, a, c, exits)
  {
    hide Segment;
    Join(p, a, b, c, {}, exits);
    assert {} + exits == exits;
  }

  // ---- Expressions ----

  lemma {:induction false} ExprSegment(p: Program, e: Expr, at: nat, k: nat)
    requires ExprAt(p, e, at, k)
    ensures Segment(p, at, at + ExprSize(e), {})
    decreases e
  {
    hide Segment, InstrAt, ExprConstants, ArgsAt, ArgsSize, ExprAt, ExprSize;
    match e
    case Lit(_) => LeafSegment(p, e, at, k);
    case Var(_) => LeafSegment(p, e, at, k);
    case Assign(_, _) => AssignSegment(p, e, at, k);
    case Unary(_, _) => UnarySegment(p, e, at, k);
    case Binary(_, _, _) => BinarySegment(p, e, at, k);
    case And(_, _) => AndSegment(p, e, at, k);
    case Or(_, _) => OrSegment(p, e, at, k);
    case Call(_, _) => CallSegment(p, e, at, k);
  }

  lemma LeafSegment(p: Program, e: Expr, at: nat, k: nat)
    requires (e.Lit? || e.Var?) && ExprAt(p, e, at, k)
    ensures Segment(p, at, at + ExprSize(e), {})
  {
    hide Segment, InstrAt;
    One(p, if e.Lit? then LiteralInstr(e.lit, k) else GetGlobal(k), at);
  }

  lemma {:induction false} AssignSegment(p: Program, e: Expr, at: nat, k: nat)
    requires e.Assign? && ExprAt(p, e, at, k)
    ensures Segment(p, at, at + ExprSize(e), {})
    decreases e, 0
  {
    hide Segment, InstrAt;
    ExprSegment(p, e.value, at, k + 1);
    AfterCode(p, at, at + ExprSize(e.value), SetGlobal(k), {});
  }

  lemma {:induction false} UnarySegment(p: Program, e: Expr, at: nat, k: nat)
    requires e.Unary? && ExprAt(p, e, at, k)
    ensures Segment(p, at, at + ExprSize(e), {})
    decreases e, 0
  {
    hide Segment, InstrAt;
    ExprSegment(p, e.operand, at, k);
    AfterCode(p, at, at + ExprSize(e.operand), UnaryInstr(e.uop), {});
  }

  lemma {:induction false} BinarySegment(p: Program, e: Expr, at: nat, k: nat)
    requires e.Binary? && ExprAt(p, e, at, k)
    ensures Segment(p, at, at + ExprSize(e), {})
    decreases e, 0
  {
    hide Segment, InstrAt, ExprConstants;
    var mid := at + ExprSize(e.left);
    ExprSegment(p, e.left, at, k);
    ExprSegment(p, e.right, mid, k + |ExprConstants(e.left)|);
    JoinClosed(p, at, mid, mid + ExprSize(e.right), {});
    AfterCode(p, at, mid + ExprSize(e.right), Operate(BinaryCode(e.op)), {});
  }

  lemma {:induction false} AndSegment(p: Program, e: Expr, at: nat, k: nat)
    requires e.And? && ExprAt(p, e, at, k)
    ensures Segment(p, at, at + ExprSize(e), {})
    decreases e, 0
  {
    hide Segment, InstrAt, ExprConstants;
    var mid := at + ExprSize(e.left);
    ExprSegment(p, e.left, at, k);
    ExprSegment(p, e.right, mid + 4, k + |ExprConstants(e.left)|);
    Before(p, Pop, mid + 3, at + ExprSize(e), {});
    var none: set<int> := {};
    JumpOver(p, at, mid, JumpIfFalse(1 + ExprSize(e.right)), at + ExprSize(e), none, none);
    assert none + none == none;
  }

  lemma OrCode(p: Program, e: Expr, at: nat, k: nat)
    requires e.Or? && ExprAt(p, e, at, k)
    ensures var mid := at + ExprSize(e.left);
            && ExprAt(p, e.left, at, k) && ExprAt(p, e.right, mid + 7, k + |ExprConstants(e.left)|)
            && InstrAt(p, mid, JumpIfFalse(3)) && InstrAt(p, mid + 3, Jump(1 + ExprSize(e.right))) && InstrAt(p, mid + 6, Pop)
            && ExprSize(e) == ExprSize(e.left) + 7 + ExprSize(e.right)
  {
    hide InstrAt, ExprConstants;
  }

  lemma {:induction false} OrSegment(p: Program, e: Expr, at: nat, k: nat)
    requires e.Or? && ExprAt(p, e, at, k)
    ensures Segment(p, at, at + ExprSize(e), {})
    decreases e, 0
  {
    hide Segment, InstrAt, ExprConstants, ExprAt, ExprSize;
    OrCode(p, e, at, k);
    var mid := at + ExprSize(e.left);
    ExprSegment(p, e.left, at, k);
    ExprSegment(p, e.right, mid + 7, k + |ExprConstants(e.left)|);
    OrJumps(p, at, mid, 1 + ExprSize(e.right));
  }

  lemma {:induction false} CallSegment(p: Program, e: Expr, at: nat, k: nat)
    requires e.Call? && ExprAt(p, e, at, k)
    ensures Segment(p, at, at + ExprSize(e), {})
    decreases e, 0
  {
    hide Segment, InstrAt, ExprConstants, ArgsSize, ArgsAt;
    var mid := at + ExprSize(e.callee);
    ExprSegment(p, e.callee, at, k);
    ArgsSegment(p, e.args, mid, k + |ExprConstants(e.callee)|);
    JoinClosed(p, at, mid, mid + ArgsSize(e.args), {});
    AfterCode(p, at, mid + ArgsSize(e.args), CallOp(e.args.Length()), {});
  }

  /** The two jumps of `or`: the conditional one lands between the other and the right operand. */
  lemma OrJumps(p: Program, at: nat, mid: nat, off: nat)
    requires off > 0 && Segment(p, at, mid, {}) && Segment(p, mid + 7, mid + 6 + off, {})
    requires InstrAt(p, mid, JumpIfFalse(3)) && InstrAt(p, mid + 3, Jump(off)) && InstrAt(p, mid + 6, Pop)
    ensures Segment(p, at, mid + 6 + off, {})
  {
    hide Segment, InstrAt, OnBoundary;
    var end: int := mid + 6 + off;
    One(p, Jump(off), mid + 3);
    JumpOver(p, at, mid, JumpIfFalse(3), mid + 6, {}, {end});
    Before(p, Pop, mid + 6, end, {});
    Join(p, at, mid + 6, end, {} + {end}, {});
    Ends(p, at, end, {} + {end} + {});
    Close(p, at, end, {} + {end} + {}, {});
  }

  lemma {:induction false} ArgsSegment(p: Program, es: Exprs, at: nat, k: nat)
    requires ArgsAt(p, es, at, k)
    ensures Segment(p, at, at + ArgsSize(es), {})
    decreases es
  {
    hide Segment, ExprAt, ExprSize, ExprConstants;
    match es
    case ENil => Empty(p, at);
    case ECons(e, tail) =>
      ExprSegment(p, e, at, k);
      ArgsSegment(p, tail, at + ExprSize(e), k + |ExprConstants(e)|);
      JoinClosed(p, at, at + ExprSize(e), at + ArgsSize(es), {});
  }

  // ---- Statements ----

  /** The addresses outside a loop body that its `next` and `break` jump to. */
  function LoopExits(start: nat, exit: Target): set<int> {
    match exit
    case Unknown => {}
    case Address(a) => {start, a}
  }

  lemma {:induction false} BlockSegment(p: Program, b: Block, at: nat, k: nat, start: nat, exit: Target)
    requires BlockAt(p, b, at, k, start, exit)
    ensures Segment(p, at, at + BlockSize(b), LoopExits(start, exit))
    decreases b, 0
  {
    hide Segment, StmtAt, StmtSize, StmtConstants, LoopExits;
    var exits := LoopExits(start, exit);
    match b
    case BNil =>
      Empty(p, at);
      Close(p, at, at, {}, exits);
    case BCons(s, tail) =>
      StmtSegment(p, s, at, k, start, exit);
      BlockSegment(p, tail, at + StmtSize(s), k + |StmtConstants(s)|, start, exit);
      Join(p, at, at + StmtSize(s), at + BlockSize(b), exits, exits);
      assert exits + exits == exits;
  }

  lemma {:induction false} StmtSegment(p: Program, s: Stmt, at: nat, k: nat, start: nat, exit: Target)
    requires StmtAt(p, s, at, k, start, exit)
    ensures Segment(p, at, at + StmtSize(s), LoopExits(start, exit))
    decreases s
  {
    hide Segment, ExprAt, ExprSize, ExprConstants, ArmsAt, ArmsSize, LoopAt, GuardAt, BlockSize, InstrAt;
    var exits := LoopExits(start, exit);
    match s
    case ExprStmt(e) =>
      ExprSegment(p, e, at, k);
      AfterCode(p, at, at + ExprSize(e), Pop, {});
      Close(p, at, at + StmtSize(s), {}, exits);
    case If(arms) => ArmsSegment(p, arms, at, k, start, exit);
    case While(c, b) =>
      ExprSegment(p, c, at, k);
      GuardedSegment(p, b, at, at + ExprSize(c), k + |ExprConstants(c)|);
      Close(p, at, at + StmtSize(s), {}, exits);
    case Until(c, b) =>
      ExprSegment(p, c, at, k);
      AfterCode(p, at, at + ExprSize(c), OpNot, {});
      GuardedSegment(p, b, at, at + ExprSize(c) + 1, k + |ExprConstants(c)|);
      Close(p, at, at + StmtSize(s), {}, exits);
    case Loop(b) =>
      EndlessSegment(p, b, at, k);
      Close(p, at, at + StmtSize(s), {}, exits);
    case Break => One(p, Jump(exit.a - (at + 3)), at); Close(p, at, at + 3, {exit.a}, exits);
    case Next => One(p, LoopBack(at + 3 - start), at); Close(p, at, at + 3, {start}, exits);
  }

  /** A loop body after other code, and the jump back to its start. */
  lemma {:induction false} LoopSegment(p: Program, b: Block, start: nat, at: nat, k: nat, exit: nat, before: set<int>)
    requires Segment(p, start, at, before) && LoopAt(p, b, at, k, start, exit)
    ensures Segment(p, start, at + BlockSize(b) + 3, before + {exit})
    decreases b, 1
  {
    hide Segment, BlockAt, BlockSize, InstrAt, OnBoundary;
    var jump, end := at + BlockSize(b), at + BlockSize(b) + 3;
    var exits := LoopExits(start, Address(exit));
    BlockSegment(p, b, at, k, start, Address(exit));
    Join(p, start, at, jump, before, exits);
    One(p, LoopBack(jump + 3 - start), jump);
    Join(p, start, jump, end, before + exits, {start});
    Ends(p, start, end, before + exits + {start});
    Close(p, start, end, before + exits + {start}, before + {exit});
  }

  lemma {:induction false} EndlessSegment(p: Program, b: Block, at: nat, k: nat)
    requires LoopAt(p, b, at, k, at, at + BlockSize(b) + 3)
    ensures Segment(p, at, at + BlockSize(b) + 3, {})
    decreases b, 2
  {
    hide Segment, LoopAt, BlockSize, OnBoundary;
    var end := at + BlockSize(b) + 3;
    Empty(p, at);
    LoopSegment(p, b, at, at, k, end, {});
    Ends(p, at, end, {} + {end});
    Close(p, at, end, {} + {end}, {});
  }

  /** A conditional loop after the code of its condition. */
  lemma {:induction false} GuardedSegment(p: Program, b: Block, start: nat, at: nat, k: nat)
    requires Segment(p, start, at, {}) && GuardAt(p, at, BlockSize(b) + 4)
    requires LoopAt(p, b, at + 4, k, start, at + BlockSize(b) + 8) && InstrAt(p, at + BlockSize(b) + 7, Pop)
    ensures Segment(p, start, at + BlockSize(b) + 8, {})
    decreases b, 2
  {
    hide Segment, BlockSize, InstrAt, OnBoundary, LoopAt;
    var last: nat, end: nat := at + BlockSize(b) + 7, at + BlockSize(b) + 8;
    var exits := {} + {last} + {end};
    One(p, JumpIfFalse(BlockSize(b) + 4), at);
    Join(p, start, at, at + 3, {}, {last});
    AfterCode(p, start, at + 3, Pop, {} + {last});
    LoopSegment(p, b, start, at + 4, k, end, {} + {last});
    One(p, Pop, last);
    Inner(p, start, last, end, exits, {});
    AfterCode(p, start, last, Pop, exits);
    Ends(p, start, end, exits);
    Close(p, start, end, exits, {});
  }

  /** A guarded arm: the conditional jump lands on the pop in front of the rest of the chain. */
  lemma ArmSegment(p: Program, at: nat, mid: nat, size: nat, next: nat, off: nat, end: nat, exits: set<int>)
    requires Segment(p, at, mid, {}) && GuardAt(p, mid, size + 4) && Segment(p, mid + 4, mid + 4 + size, exits)
    requires InstrAt(p, mid + 4 + size, Jump(off)) && InstrAt(p, mid + 7 + size, Pop)
    requires next == mid + 8 + size && end == mid + 7 + size + off && Segment(p, next, end, exits)
    ensures Segment(p, at, end, exits)
  {
    hide Segment, InstrAt, OnBoundary;
    var skip: nat := mid + 7 + size;
    Before(p, Pop, mid + 3, mid + 4 + size, exits);
    One(p, Jump(off), mid + 4 + size);
    Join(p, mid + 3, mid + 4 + size, skip, exits, {end});
    JumpOver(p, at, mid, JumpIfFalse(size + 4), skip, {}, exits + {end});
    Before(p, Pop, skip, end, exits);
    var all := {} + (exits + {end}) + exits;
    Join(p, at, skip, end, {} + (exits + {end}), exits);
    Ends(p, at, end, all);
    Close(p, at, end, all, exits);
  }

  lemma {:induction false} ArmsSegment(p: Program, arms: Arms, at: nat, k: nat, start: nat, exit: Target)
    requires ArmsAt(p, arms, at, k, start, exit)
    ensures Segment(p, at, at + ArmsSize(arms), LoopExits(start, exit))
    decreases arms
  {
    hide Segment, ExprAt, ExprSize, ExprConstants, BlockAt, BlockConstants, BlockSize, GuardAt, InstrAt, LoopExits;
    match arms
    case Else(b) => BlockSegment(p, b, at, k, start, exit);
    case Arm(c, b, rest) =>
      var mid, next := at + ExprSize(c), at + ExprSize(c) + BlockSize(b) + 8;
      ExprSegment(p, c, at, k);
      BlockSegment(p, b, mid + 4, k + |ExprConstants(c)|, start, exit);
      ArmsSegment(p, rest, next, k + |ExprConstants(c)| + |BlockConstants(b)|, start, exit);
      ArmSegment(p, at, mid, BlockSize(b), next, 1 + ArmsSize(rest), at + ArmsSize(arms), LoopExits(start, exit));
  }

  // ---- Scripts ----

  /** Every jump in the code of a script lands on a boundary of that code. */
  lemma ScriptSegment(b: Block)
    requires ScriptFits(b) && WellFormed(b, false)
    ensures Segment(Load(ScriptChunk(b)), 0, BlockSize(b) + 2, {})
  {
    hide Segment, BlockAt, InstrAt, BlockCode, BlockConstants, BlockFits, WellFormed, BlockSize, Load, ScriptChunk;
    var p := Load(ScriptChunk(b));
    PlaceScript(b);
    BlockSegment(p, b, 0, 0, 0, Unknown);
    AfterCode(p, 0, BlockSize(b), PushNil, {});
    AfterCode(p, 0, BlockSize(b) + 1, Return, {});
  }

  /** Control goes to the next instruction or to a jump target. */
  lemma ExecuteStays(h: Host, constants: seq<Value>, i: Instr, st: State)
    ensures var c := Execute(h, constants, i, st);
            c.Running? ==> c.state.ip == st.ip || c.state.ip in JumpTargets(i, st.ip)
  {
    hide Operation, Negate, Falsy, Complement, CallValue;
  }

  /** A run that starts on a boundary stays on boundaries. */
  lemma {:induction false} RunStaysOnBoundaries(h: Host, p: Program, end: nat, st: State, n: nat)
    requires Segment(p, 0, end, {}) && p.fetch(end).NoInstr? && st.ip <= end && Sweeps(p, 0, st.ip)
    ensures var c := Steps(h, p, Running(st), n);
            c.Running? ==> c.state.ip <= end && Sweeps(p, 0, c.state.ip)
    decreases n
  {
    hide Execute;
    if n > 0 {
      var c := Step(h, p, Running(st));
      if !c.Running? {
        StepsFinal(h, p, c, n - 1);
      } else {
        assert Lands(p, 0, end, {}, st.ip);
        ExecuteStays(h, p.constants, p.fetch(st.ip).instr, st.(ip := p.fetch(st.ip).next));
        SweepsStep(p, st.ip);
        RunStaysOnBoundaries(h, p, end, c.state, n - 1);
      }
    }
  }

  lemma SweepsStep(p: Program, at: nat)
    requires Sweeps(p, 0, at) && p.fetch(at).Fetched? && at < p.fetch(at).next
    ensures Sweeps(p, 0, p.fetch(at).next)
  {
    var next := p.fetch(at).next;
    assert Sweeps(p, next, next);
    SweepsOn(p, 0, at, next);
  }

  /** The instruction pointer of a compiled script is on a boundary at every step of every run. */
  lemma ScriptStaysOnBoundaries(h: Host, b: Block, slot0: Value, g: Globals, n: nat)
    requires ScriptFits(b) && WellFormed(b, false)
    ensures var p := Load(ScriptChunk(b));
            var c := Steps(h, p, At(0, [slot0], g), n);
            c.Running? ==> c.state.ip <= |ScriptCode(b)| && Sweeps(p, 0, c.state.ip)
  {
    hide Execute, Segment, BlockCode, BlockConstants, BlockFits, WellFormed, BlockSize, Steps;
    ScriptSegment(b);
    RunStaysOnBoundaries(h, Load(ScriptChunk(b)), |ScriptCode(b)|, State(0, [slot0], g), n);
  }
}
