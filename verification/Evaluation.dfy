/** What a script means: a big-step evaluator over its syntax tree.

    `room` of the value stack is part of the meaning: `d` values are on the stack already, and
    pushing onto a full stack is a run-time error. Loops consume fuel, so a script that never ends
    runs out of every amount of it. */
module Evaluation {
  import opened Syntax
  import opened Runtime
  import opened Machine
  import opened Codegen

  type Globals = map<string, Value>

  datatype ExprResult = Val(v: Value, g: Globals) | Err(error: RuntimeError, g: Globals)

  datatype ArgsResult = Vals(vs: seq<Value>, g: Globals) | ArgsErr(error: RuntimeError, g: Globals)

  /** The meaning of the operators of the language. */
  function Apply(h: Host, op: BinOp, a: Value, b: Value): Result {
    match op
    case Plus => Add(h, a, b)
    case Minus => Subtract(h, a, b)
    case Star => Multiply(h, a, b)
    case Slash => Divide(h, a, b)
    case Percent => Remainder(h, a, b)
    case StarStar => Power(h, a, b)
    case EqualEqual => Ok(Bool(Equal(h, a, b)))
    case BangEqual => Ok(Bool(!Equal(h, a, b)))
    case Less => Compare(h, RelLess, a, b)
    case LessEqual => Compare(h, RelLessEqual, a, b)
    case Greater => Compare(h, RelGreater, a, b)
    case GreaterEqual => Compare(h, RelGreaterEqual, a, b)
    case Amp => Bitwise(BitAnd, a, b)
    case Pipe => Bitwise(BitOr, a, b)
    case Caret => Bitwise(BitXor, a, b)
    case LShift => Shift(a, b, true)
    case RShift => Shift(a, b, false)
  }

  function ApplyUnary(h: Host, op: UnOp, v: Value): Result {
    match op
    case Neg => Negate(h, v)
    case Not => Ok(Bool(Falsy(v)))
    case BitNot => Complement(v)
  }

  function FromResult(r: Result, g: Globals): ExprResult {
    match r
    case Ok(v) => Val(v, g)
    case Error(e) => Err(e, g)
  }

  function FromCall(c: Called): ExprResult {
    FromResult(c.result, c.globals)
  }

  function Eval(h: Host, e: Expr, g: Globals, d: nat): (r: ExprResult)
    ensures r.Val? ==> d < STACK_MAX
  {
    match e
    case Lit(lit) => if d < STACK_MAX then Val(LiteralValue(lit), g) else Err(StackOverflow, g)
    case Var(name) =>
      if name !in g then Err(UndefinedVariable(name), g)
      else if d < STACK_MAX then Val(g[name], g)
      else Err(StackOverflow, g)
    case Assign(name, value) =>
      (match Eval(h, value, g, d)
       case Err(error, g) => Err(error, g)
       case Val(v, g) => Val(v, g[name := v]))
    case Unary(op, operand) =>
      (match Eval(h, operand, g, d)
       case Err(error, g) => Err(error, g)
       case Val(v, g) => FromResult(ApplyUnary(h, op, v), g))
    case Binary(op, l, r) =>
      (match Eval(h, l, g, d)
       case Err(error, g) => Err(error, g)
       case Val(a, g) =>
         match Eval(h, r, g, d + 1)
         case Err(error, g) => Err(error, g)
         case Val(b, g) => FromResult(Apply(h, op, a, b), g))
    case And(l, r) =>
      (match Eval(h, l, g, d)
       case Err(error, g) => Err(error, g)
       case Val(a, g) => if Falsy(a) then Val(a, g) else Eval(h, r, g, d))
    case Or(l, r) =>
      (match Eval(h, l, g, d)
       case Err(error, g) => Err(error, g)
       case Val(a, g) => if Falsy(a) then Eval(h, r, g, d) else Val(a, g))
    case Call(callee, args) =>
      (match Eval(h, callee, g, d)
       case Err(error, g) => Err(error, g)
       case Val(f, g) =>
         match EvalArgs(h, args, g, d + 1)
         case ArgsErr(error, g) => Err(error, g)
         case Vals(vs, g) => FromCall(CallValue(h, f, vs, g, d + 1 + |vs|)))
  }

  function EvalArgs(h: Host, es: Exprs, g: Globals, d: nat): (r: ArgsResult)
    ensures r.Vals? ==> |r.vs| == es.Length()
  {
    match es
    case ENil => Vals([], g)
    case ECons(e, es) =>
      match Eval(h, e, g, d)
      case Err(error, g) => ArgsErr(error, g)
      case Val(v, g) =>
        match EvalArgs(h, es, g, d + 1)
        case ArgsErr(error, g) => ArgsErr(error, g)
        case Vals(vs, g) => Vals([v] + vs, g)
  }

  /** How a statement ends. */
  datatype Outcome =
    | Normal(g: Globals)
    | Broke(g: Globals)
    | Continued(g: Globals)
    | Raised(error: RuntimeError, g: Globals)
    | OutOfFuel

  function EvalStmt(h: Host, s: Stmt, g: Globals, d: nat, fuel: nat): Outcome
    decreases fuel, s
  {
    match s
    case ExprStmt(e) =>
      (match Eval(h, e, g, d)
       case Err(error, g) => Raised(error, g)
       case Val(_, g) => Normal(g))
    case If(arms) => EvalArms(h, arms, g, d, fuel)
    case While(c, b) => EvalGuarded(h, s, c, true, b, g, d, fuel)
    case Until(c, b) => EvalGuarded(h, s, c, false, b, g, d, fuel)
    case Loop(b) => if fuel == 0 then OutOfFuel else EvalRound(h, s, b, g, d, fuel)
    case Break => Broke(g)
    case Next => Continued(g)
  }

  /** A loop `s` with a condition: it goes on while the condition's truth is `wanted`. */
  function EvalGuarded(h: Host, s: Stmt, c: Expr, wanted: bool, b: Block, g: Globals, d: nat, fuel: nat): Outcome
    requires b < s
    decreases fuel, s, 1
  {
    if fuel == 0 then OutOfFuel
    else
      match Eval(h, c, g, d)
      case Err(error, g) => Raised(error, g)
      case Val(v, g) => if !Falsy(v) == wanted then EvalRound(h, s, b, g, d, fuel) else Normal(g)
  }

  /** One execution of the body of loop `s`, and the rounds after it. */
  function EvalRound(h: Host, s: Stmt, b: Block, g: Globals, d: nat, fuel: nat): Outcome
    requires fuel > 0 && b < s
    decreases fuel, s, 0
  {
    match EvalBlock(h, b, g, d, fuel)
    case Normal(g) => EvalStmt(h, s, g, d, fuel - 1)
    case Continued(g) => EvalStmt(h, s, g, d, fuel - 1)
    case Broke(g) => Normal(g)
    case Raised(error, g) => Raised(error, g)
    case OutOfFuel => OutOfFuel
  }

  function EvalArms(h: Host, arms: Arms, g: Globals, d: nat, fuel: nat): Outcome
    decreases fuel, arms
  {
    match arms
    case Else(b) => EvalBlock(h, b, g, d, fuel)
    case Arm(c, b, rest) =>
      match Eval(h, c, g, d)
      case Err(error, g) => Raised(error, g)
      case Val(v, g) => if Falsy(v) then EvalArms(h, rest, g, d, fuel) else EvalBlock(h, b, g, d, fuel)
  }

  function EvalBlock(h: Host, b: Block, g: Globals, d: nat, fuel: nat): Outcome
    decreases fuel, b
  {
    match b
    case BNil => Normal(g)
    case BCons(s, b) =>
      match EvalStmt(h, s, g, d, fuel)
      case Normal(g) => EvalBlock(h, b, g, d, fuel)
      case other => other
  }
}
