/** Tokens, precedences and syntax trees of the script fragment that the compiler accepts at
    scope depth 0: literals, operators, calls, globals, conditionals and loops. */
module Syntax {

  import Values

  datatype Literal =
    | IntLit(n: nat)
    | FloatLit(d: Values.Double)
    | StrLit(s: string)
    | SymbolLit(s: string)
    | NilLit
    | TrueLit
    | FalseLit

  datatype BinOp =
    | Plus | Minus | Star | Slash | Percent | StarStar
    | EqualEqual | BangEqual | Less | LessEqual | Greater | GreaterEqual
    | Amp | Pipe | Caret | LShift | RShift

  /** The end of the token sequence plays the part of the end-of-file token. */
  datatype Token =
    | TLit(lit: Literal)
    | TIdent(name: string)
    | TBin(op: BinOp)
    | TBang | TNot | TTilde
    | TAnd | TAmpAmp | TOr | TPipePipe
    | TEqual | TLParen | TRParen | TComma | TNewline
    | TIf | TThen | TElsif | TElse | TEnd
    | TWhile | TUntil | TLoop | TDo | TBreak | TNext

  datatype UnOp = Neg | Not | BitNot

  datatype Expr =
    | Lit(lit: Literal)
    | Var(name: string)
    | Assign(name: string, value: Expr)
    | Unary(uop: UnOp, operand: Expr)
    | Binary(op: BinOp, left: Expr, right: Expr)
    | And(left: Expr, right: Expr)
    | Or(left: Expr, right: Expr)
    | Call(callee: Expr, args: Exprs)

  datatype Exprs = ENil | ECons(head: Expr, tail: Exprs) {
    function Length(): nat {
      match this
      case ENil => 0
      case ECons(_, tail) => 1 + tail.Length()
    }
  }

  datatype Stmt =
    | ExprStmt(e: Expr)
    | If(arms: Arms)
    | While(cond: Expr, body: Block)
    | Until(cond: Expr, body: Block)
    | Loop(body: Block)
    | Break
    | Next

  /** The chain after `if`: guarded arms, then the (possibly empty) else block. */
  datatype Arms = Arm(cond: Expr, body: Block, rest: Arms) | Else(body: Block)

  datatype Block = BNil | BCons(head: Stmt, tail: Block)

  // ---- Precedence levels ----

  const PREC_NONE := 0
  const PREC_ASSIGNMENT := 1
  const PREC_OR := 2
  const PREC_AND := 3
  const PREC_BITWISE_OR := 4
  const PREC_BITWISE_XOR := 5
  const PREC_BITWISE_AND := 6
  const PREC_EQUALITY := 7
  const PREC_COMPARISON := 8
  const PREC_SHIFT := 9
  const PREC_TERM := 11
  const PREC_FACTOR := 12
  const PREC_POWER := 13
  const PREC_UNARY := 14
  const PREC_CALL := 15
  const PREC_PRIMARY := 16

  /** The precedence column of the rules table, for the binary operators. */
  function BinPrec(op: BinOp): (p: nat)
    ensures PREC_BITWISE_OR <= p <= PREC_POWER
  {
    match op
    case Pipe => PREC_BITWISE_OR
    case Caret => PREC_BITWISE_XOR
    case Amp => PREC_BITWISE_AND
    case EqualEqual => PREC_EQUALITY
    case BangEqual => PREC_EQUALITY
    case Less => PREC_COMPARISON
    case LessEqual => PREC_COMPARISON
    case Greater => PREC_COMPARISON
    case GreaterEqual => PREC_COMPARISON
    case LShift => PREC_SHIFT
    case RShift => PREC_SHIFT
    case Plus => PREC_TERM
    case Minus => PREC_TERM
    case Star => PREC_FACTOR
    case Slash => PREC_FACTOR
    case Percent => PREC_FACTOR
    case StarStar => PREC_POWER
  }

  /** The precedence column of the rules table; tokens without an infix rule have PREC_NONE. */
  function RulePrec(t: Token): nat {
    match t
    case TBin(op) => BinPrec(op)
    case TAnd => PREC_AND
    case TAmpAmp => PREC_AND
    case TOr => PREC_OR
    case TPipePipe => PREC_OR
    case TLParen => PREC_CALL
    case _ => PREC_NONE
  }

  /** The precedence of the next token; the end of the input has none. */
  function NextPrec(ts: seq<Token>): nat {
    if ts == [] then PREC_NONE else RulePrec(ts[0])
  }

  predicate StartsWith(ts: seq<Token>, t: Token) {
    ts != [] && ts[0] == t
  }

  function SkipNewlines(ts: seq<Token>): (r: seq<Token>)
    ensures |r| <= |ts| && !StartsWith(r, TNewline)
    ensures !StartsWith(ts, TNewline) ==> r == ts
  {
    if StartsWith(ts, TNewline) then SkipNewlines(ts[1..]) else ts
  }
}
