/** Bytecode and the dispatch loop of the virtual machine (src/chunk.h, src/vm.c), for the opcodes
    that script code at scope depth 0 uses. */
module Machine {
  import opened Bytes
  import opened Runtime

  // ---- Instructions ----

  datatype BinCode =
    | OpAdd | OpSub | OpMul | OpDiv | OpMod | OpPower
    | OpBand | OpBor | OpBxor | OpShl | OpShr
    | OpEqual | OpNotEqual | OpLess | OpLessEqual | OpGreater | OpGreaterEqual

  datatype Instr =
    | Constant(index: nat)
    | PushNil | PushTrue | PushFalse
    | Operate(code: BinCode)
    | OpNeg | OpNot | OpBnot
    | Pop
    | GetGlobal(index: nat)
    | SetGlobal(index: nat)
    | Jump(offset: nat)
    | JumpIfFalse(offset: nat)
    | LoopBack(offset: nat)
    | CallOp(count: nat)
    | Return

  function BinOpcode(c: BinCode): Byte {
    match c
    case OpAdd => 4
    case OpSub => 5
    case OpMul => 6
    case OpDiv => 7
    case OpMod => 8
    case OpBand => 11
    case OpBor => 12
    case OpBxor => 13
    case OpShl => 15
    case OpShr => 16
    case OpEqual => 17
    case OpNotEqual => 18
    case OpLess => 19
    case OpLessEqual => 20
    case OpGreater => 21
    case OpGreaterEqual => 22
    case OpPower => 48
  }

  /** The opcode numbers are the positions in the OpCode enumeration. */
  function Opcode(i: Instr): Byte {
    match i
    case Constant(_) => 0
    case PushNil => 1
    case PushTrue => 2
    case PushFalse => 3
    case Operate(c) => BinOpcode(c)
    case OpNeg => 9
    case OpNot => 10
    case OpBnot => 14
    case Pop => 24
    case GetGlobal(_) => 28
    case SetGlobal(_) => 29
    case Jump(_) => 34
    case JumpIfFalse(_) => 35
    case LoopBack(_) => 36
    case CallOp(_) => 37
    case Return => 38
  }

  /** The bytes the compiler emits; operands are truncated to their width. */
  function Encode(i: Instr): (bytes: seq<Byte>)
    ensures |bytes| == Size(i)
  {
    match i
    case Constant(k) => [Opcode(i)] + U16(k)
    case GetGlobal(k) => [Opcode(i)] + U16(k)
    case SetGlobal(k) => [Opcode(i)] + U16(k)
    case Jump(n) => [Opcode(i)] + U16(n)
    case JumpIfFalse(n) => [Opcode(i)] + U16(n)
    case LoopBack(n) => [Opcode(i)] + U16(n)
    case CallOp(n) => [Opcode(i), n % 256]
    case _ => [Opcode(i)]
  }

  function Size(i: Instr): (n: nat)
    ensures 1 <= n <= 3
  {
    match i
    case Constant(_) => 3
    case GetGlobal(_) => 3
    case SetGlobal(_) => 3
    case Jump(_) => 3
    case JumpIfFalse(_) => 3
    case LoopBack(_) => 3
    case CallOp(_) => 2
    case _ => 1
  }

  datatype Fetch = Fetched(instr: Instr, next: nat) | NoInstr

  /** READ_BYTE and READ_SHORT: the instruction at `ip` and the address after its operands. */
  function Decode(code: seq<Byte>, ip: nat): Fetch {
    if ip >= |code| then NoInstr
    else
      var op := code[ip];
      if op == 37 then
        if ip + 2 <= |code| then Fetched(CallOp(code[ip + 1]), ip + 2) else NoInstr
      else if op in {0, 28, 29, 34, 35, 36} then
        if ip + 3 > |code| then NoInstr
        else
          var n := FromU16(code[ip + 1], code[ip + 2]);
          Fetched(
            if op == 0 then Constant(n) else if op == 28 then GetGlobal(n) else if op == 29 then SetGlobal(n)
            else if op == 34 then Jump(n) else if op == 35 then JumpIfFalse(n) else LoopBack(n), ip + 3)
      else match SimpleInstr(op)
        case NoInstr => NoInstr
        case Fetched(i, _) => Fetched(i, ip + 1)
  }

  /** The instructions without operands. */
  function SimpleInstr(op: Byte): Fetch {
    match op
    case 1 => Fetched(PushNil, 1)
    case 2 => Fetched(PushTrue, 1)
    case 3 => Fetched(PushFalse, 1)
    case 4 => Fetched(Operate(OpAdd), 1)
    case 5 => Fetched(Operate(OpSub), 1)
    case 6 => Fetched(Operate(OpMul), 1)
    case 7 => Fetched(Operate(OpDiv), 1)
    case 8 => Fetched(Operate(OpMod), 1)
    case 9 => Fetched(OpNeg, 1)
    case 10 => Fetched(OpNot, 1)
    case 11 => Fetched(Operate(OpBand), 1)
    case 12 => Fetched(Operate(OpBor), 1)
    case 13 => Fetched(Operate(OpBxor), 1)
    case 14 => Fetched(OpBnot, 1)
    case 15 => Fetched(Operate(OpShl), 1)
    case 16 => Fetched(Operate(OpShr), 1)
    case 17 => Fetched(Operate(OpEqual), 1)
    case 18 => Fetched(Operate(OpNotEqual), 1)
    case 19 => Fetched(Operate(OpLess), 1)
    case 20 => Fetched(Operate(OpLessEqual), 1)
    case 21 => Fetched(Operate(OpGreater), 1)
    case 22 => Fetched(Operate(OpGreaterEqual), 1)
    case 24 => Fetched(Pop, 1)
    case 38 => Fetched(Return, 1)
    case 48 => Fetched(Operate(OpPower), 1)
    case _ => NoInstr
  }

  /** `part` stands in `code` at address `at`. */
  ghost predicate Holds(code: seq<Byte>, at: nat, part: seq<Byte>) {
    at + |part| <= |code| && code[at..at + |part|] == part
  }

  /** Operands that fit their width in bytes. */
  predicate OperandFits(i: Instr) {
    match i
    case Constant(k) => k < 0x10000
    case GetGlobal(k) => k < 0x10000
    case SetGlobal(k) => k < 0x10000
    case Jump(n) => n < 0x10000
    case JumpIfFalse(n) => n < 0x10000
    case LoopBack(n) => n < 0x10000
    case CallOp(n) => n < 256
    case _ => true
  }

  /** Decoding undoes encoding, at any address, whenever the operand fits. */
  lemma DecodeEncode(code: seq<Byte>, at: nat, i: Instr)
    requires Holds(code, at, Encode(i)) && OperandFits(i)
    ensures Decode(code, at) == Fetched(i, at + Size(i))
  {
    var bytes := code[at..at + |Encode(i)|];
    assert code[at] == bytes[0] == Opcode(i);
    if Size(i) == 3 {
      assert code[at + 1] == bytes[1] && code[at + 2] == bytes[2];
    } else if Size(i) == 2 {
      assert code[at + 1] == bytes[1];
    }
  }

  // ---- Execution ----

  const STACK_MAX := 65536

  datatype Chunk = Chunk(code: seq<Byte>, constants: seq<Value>)

  /** A chunk as the dispatch loop sees it: an instruction at each address. */
  datatype Program = Program(fetch: nat -> Fetch, constants: seq<Value>)

  function Load(ch: Chunk): Program {
    Program((ip: nat) => Decode(ch.code, ip), ch.constants)
  }

  datatype State = State(ip: nat, stack: seq<Value>, globals: map<string, Value>)

  /** `Stuck` is everything the source leaves undefined: running off the code, an unknown opcode,
      popping an empty stack, a missing or ill-typed constant. */
  datatype Config =
    | Running(state: State)
    | Halted(result: Value, globals: map<string, Value>)
    | Failed(error: RuntimeError, globals: map<string, Value>)
    | Stuck

  /** vm_push followed by the error check of the next dispatch. */
  function Push(st: State, v: Value): Config {
    if |st.stack| >= STACK_MAX then Failed(StackOverflow, st.globals)
    else Running(st.(stack := st.stack + [v]))
  }

  /** Replaces the top `n` values by a result. */
  function Finish(st: State, n: nat, r: Result): Config
    requires n <= |st.stack|
  {
    match r
    case Ok(v) => Push(st.(stack := st.stack[..|st.stack| - n]), v)
    case Error(e) => Failed(e, st.globals)
  }

  function Operation(h: Host, c: BinCode, a: Value, b: Value): Result {
    match c
    case OpAdd => Add(h, a, b)
    case OpSub => Subtract(h, a, b)
    case OpMul => Multiply(h, a, b)
    case OpDiv => Divide(h, a, b)
    case OpMod => Remainder(h, a, b)
    case OpPower => Power(h, a, b)
    case OpBand => Bitwise(BitAnd, a, b)
    case OpBor => Bitwise(BitOr, a, b)
    case OpBxor => Bitwise(BitXor, a, b)
    case OpShl => Shift(a, b, true)
    case OpShr => Shift(a, b, false)
    case OpEqual => Ok(Bool(Equal(h, a, b)))
    case OpNotEqual => Ok(Bool(!Equal(h, a, b)))
    case OpLess => Compare(h, RelLess, a, b)
    case OpLessEqual => Compare(h, RelLessEqual, a, b)
    case OpGreater => Compare(h, RelGreater, a, b)
    case OpGreaterEqual => Compare(h, RelGreaterEqual, a, b)
  }

  /** One instruction, with `st.ip` already past its operands. */
  function Execute(h: Host, constants: seq<Value>, i: Instr, st: State): Config {
    var n := |st.stack|;
    match i
    case Constant(k) => if k < |constants| then Push(st, constants[k]) else Stuck
    case PushNil => Push(st, Nil)
    case PushTrue => Push(st, Bool(true))
    case PushFalse => Push(st, Bool(false))
    case Operate(c) =>
      if n < 2 then Stuck else Finish(st, 2, Operation(h, c, st.stack[n - 2], st.stack[n - 1]))
    case OpNeg => if n < 1 then Stuck else Finish(st, 1, Negate(h, st.stack[n - 1]))
    case OpNot => if n < 1 then Stuck else Finish(st, 1, Ok(Bool(Falsy(st.stack[n - 1]))))
    case OpBnot => if n < 1 then Stuck else Finish(st, 1, Complement(st.stack[n - 1]))
    case Pop => if n < 1 then Stuck else Running(st.(stack := st.stack[..n - 1]))
    case GetGlobal(k) =>
      if k >= |constants| || !constants[k].Str? then Stuck
      else if constants[k].s !in st.globals then Failed(UndefinedVariable(constants[k].s), st.globals)
      else Push(st, st.globals[constants[k].s])
    case SetGlobal(k) =>
      if k >= |constants| || !constants[k].Str? || n < 1 then Stuck
      else Running(st.(globals := st.globals[constants[k].s := st.stack[n - 1]]))
    case Jump(off) => Running(st.(ip := st.ip + off))
    case JumpIfFalse(off) =>
      if n < 1 then Stuck
      else if Falsy(st.stack[n - 1]) then Running(st.(ip := st.ip + off)) else Running(st)
    case LoopBack(off) => if off > st.ip then Stuck else Running(st.(ip := st.ip - off))
    case CallOp(argc) =>
      if n < argc + 1 then Stuck
      else
        var r := CallValue(h, st.stack[n - argc - 1], st.stack[n - argc..], st.globals, n);
        Finish(st.(globals := r.globals), argc + 1, r.result)
    case Return => if n < 2 then Stuck else Halted(st.stack[n - 1], st.globals)
  }

  function Step(h: Host, p: Program, c: Config): Config {
    if !c.Running? then c
    else
      match p.fetch(c.state.ip)
      case NoInstr => Stuck
      case Fetched(i, next) => Execute(h, p.constants, i, c.state.(ip := next))
  }

  function Steps(h: Host, p: Program, c: Config, n: nat): Config
    decreases n
  {
    if n == 0 then c else Steps(h, p, Step(h, p, c), n - 1)
  }

  lemma {:induction false} StepsAdd(h: Host, p: Program, c: Config, m: nat, n: nat)
    ensures Steps(h, p, c, m + n) == Steps(h, p, Steps(h, p, c, m), n)
    decreases m
  {
    if m > 0 { StepsAdd(h, p, Step(h, p, c), m - 1, n); }
  }

  /** A configuration that is not running stays as it is. */
  lemma {:induction false} StepsFinal(h: Host, p: Program, c: Config, n: nat)
    requires !c.Running?
    ensures Steps(h, p, c, n) == c
  {
    if n > 0 { StepsFinal(h, p, c, n - 1); }
  }

  // ---- The machine object ----

  /** The global `vm` of the source, running one script. */
  class VM {
    var ip: nat
    var stack: seq<Value>
    var globals: map<string, Value>
    var outcome: Config  // what run() returns; Running while it has not returned

    /** The machine as a value. */
    ghost function Configuration(): Config
      reads this
    {
      if outcome.Running? then Running(State(ip, stack, globals)) else outcome
    }

    /** vm_interpret pushes the script's closure into slot 0 and starts at the first byte. */
    constructor (slot0: Value, globals: map<string, Value>)
      ensures Configuration() == Running(State(0, [slot0], globals))
    {
      this.ip := 0;
      this.stack := [slot0];
      this.globals := globals;
      this.outcome := Running(State(0, [slot0], globals));
    }

    method PushValue(v: Value)
      requires outcome.Running?
      modifies this
      ensures Configuration() == Push(old(State(ip, stack, globals)), v)
      ensures ip == old(ip) && globals == old(globals)
    {
      if |stack| >= STACK_MAX {
        outcome := Failed(StackOverflow, globals);
      } else {
        stack := stack + [v];
      }
    }

    method PopValue() returns (v: Value)
      requires outcome.Running? && stack != []
      modifies this
      ensures v == old(stack)[|old(stack)| - 1] && stack == old(stack)[..|old(stack)| - 1]
      ensures ip == old(ip) && globals == old(globals) && outcome == old(outcome)
    {
      v := stack[|stack| - 1];
      stack := stack[..|stack| - 1];
    }

    /** Pushes the result of an operator or stops the run with its error. */
    method Complete(r: Result)
      requires outcome.Running?
      modifies this
      ensures Configuration() == match r case Ok(v) => Push(old(State(ip, stack, globals)), v)
                                         case Error(e) => Failed(e, old(globals))
    {
      match r
      case Ok(v) => PushValue(v);
      case Error(e) => outcome := Failed(e, globals);
    }

    /** The handlers that pop operands and push a result. */
    method ExecuteOperator(h: Host, ghost constants: seq<Value>, i: Instr)
      requires outcome.Running?
      requires i.Operate? || i.OpNeg? || i.OpNot? || i.OpBnot? || i.CallOp?
      modifies this
      ensures Configuration() == Execute(h, constants, i, old(State(ip, stack, globals)))
    {
      var n := |stack|;
      if i.Operate? {
        if n < 2 { outcome := Stuck; return; }
        var b := PopValue();
        var a := PopValue();
        assert stack == old(stack)[..n - 2];
        Complete(Operation(h, i.code, a, b));
      } else if i.CallOp? {
        var argc := i.count;
        if n < argc + 1 { outcome := Stuck; return; }
        var r := CallValue(h, stack[n - argc - 1], stack[n - argc..], globals, n);
        stack, globals := stack[..n - (argc + 1)], r.globals;
        Complete(r.result);
      } else {
        if n < 1 { outcome := Stuck; return; }
        var v := PopValue();
        Complete(if i.OpNeg? then Negate(h, v) else if i.OpNot? then Ok(Bool(Falsy(v))) else Complement(v));
      }
    }

    /** The handlers of constants, globals and jumps, and the end of the script. */
    method ExecuteOther(ghost h: Host, constants: seq<Value>, i: Instr)
      requires outcome.Running?
      requires !(i.Operate? || i.OpNeg? || i.OpNot? || i.OpBnot? || i.CallOp?)
      modifies this
      ensures Configuration() == Execute(h, constants, i, old(State(ip, stack, globals)))
    {
      var n := |stack|;
      match i
      case Constant(k) => if k < |constants| { PushValue(constants[k]); } else { outcome := Stuck; }
      case PushNil => PushValue(Nil);
      case PushTrue => PushValue(Bool(true));
      case PushFalse => PushValue(Bool(false));
      case Pop =>
        if n < 1 { outcome := Stuck; return; }
        var _ := PopValue();
      case GetGlobal(k) =>
        if k >= |constants| || !constants[k].Str? { outcome := Stuck; return; }
        var name := constants[k].s;
        if name !in globals { outcome := Failed(UndefinedVariable(name), globals); } else { PushValue(globals[name]); }
      case SetGlobal(k) =>
        if k >= |constants| || !constants[k].Str? || n < 1 { outcome := Stuck; return; }
        globals := globals[constants[k].s := stack[n - 1]];
      case Jump(off) => ip := ip + off;
      case JumpIfFalse(off) =>
        if n < 1 { outcome := Stuck; return; }
        if Falsy(stack[n - 1]) { ip := ip + off; }
      case LoopBack(off) => if off > ip { outcome := Stuck; } else { ip := ip - off; }
      case Return =>
        if n < 2 { outcome := Stuck; return; }
        outcome := Halted(stack[n - 1], globals);
    }

    /** One turn of the dispatch loop. */
    method Dispatch(h: Host, ch: Chunk)
      requires outcome.Running?
      modifies this
      ensures Configuration() == Step(h, Load(ch), old(Configuration()))
    {
      var fetched := Decode(ch.code, ip);
      if fetched.NoInstr? {
        outcome := Stuck;
        return;
      }
      ip := fetched.next;
      var i := fetched.instr;
      if i.Operate? || i.OpNeg? || i.OpNot? || i.OpBnot? || i.CallOp? {
        ExecuteOperator(h, ch.constants, i);
      } else {
        ExecuteOther(h, ch.constants, i);
      }
    }

    /** run(), stopped after `limit` instructions if it has not returned by then. */
    method Run(h: Host, ch: Chunk, limit: nat) returns (finished: bool)
      modifies this
      ensures Configuration() == Steps(h, Load(ch), old(Configuration()), limit)
      ensures finished == !Configuration().Running?
    {
      ghost var start := Configuration();
      var i := 0;
      while i < limit && outcome.Running?
        invariant i <= limit
        invariant Steps(h, Load(ch), Configuration(), limit - i) == Steps(h, Load(ch), start, limit)
        decreases limit - i
      {
        Dispatch(h, ch);
        i := i + 1;
      }
      if !outcome.Running? { StepsFinal(h, Load(ch), Configuration(), limit - i); }
      finished := !outcome.Running?;
    }
  }
}
