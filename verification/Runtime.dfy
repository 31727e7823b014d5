/** Run-time values and the operators of the virtual machine (src/vm.c).

    Integers are the unboxed payloads of 48-bit boxed words (module Values). Floating point is
    opaque: the functions of the C library and the processor are parameters, collected in `Host`. */
module Runtime {
  import opened Values

  datatype Value =
    | Nil
    | Bool(b: bool)
    | Int(i: int)
    | Float(d: Double)
    | Str(s: string)        // strings are interned, so pointer equality is content equality
    | Native(id: nat)       // a native function, or a native method bound to its receiver: both are called alike
    | Object(address: nat)  // any other heap object; none of these can be called

  datatype RuntimeError =
    | Message(text: string)
    | UndefinedVariable(name: string)
    | WrongArity(expected: int, got: nat)
    | StackOverflow

  datatype Result = Ok(value: Value) | Error(error: RuntimeError)

  /** What a native function did: its result or its error, and the globals it leaves. */
  datatype Called = Called(result: Result, globals: map<string, Value>)

  datatype FloatOp = FAdd | FSub | FMul | FDiv | FMod | FPow

  datatype Relation = RelLess | RelLessEqual | RelGreater | RelGreaterEqual

  /** What the machine calls but does not define: double arithmetic and native functions. A native function gets its
      arguments, the globals and the height of the stack, on which the Vek functions it calls run. */
  datatype Host = Host(
    arith: (FloatOp, Double, Double) -> Double,
    equal: (Double, Double) -> bool,
    compare: (Relation, Double, Double) -> bool,
    negate: Double -> Double,
    fromInt: int -> Double,
    toInt: Double -> int,
    arity: nat -> int,
    native: (nat, seq<Value>, map<string, Value>, nat) -> Called)

  predicate Falsy(v: Value) {
    v == Nil || v == Bool(false)
  }

  predicate IsNumber(v: Value) {
    v.Int? || v.Float?
  }

  function ToDouble(h: Host, v: Value): Double
    requires IsNumber(v)
  {
    if v.Int? then h.fromInt(v.i) else v.d
  }

  function Fail(text: string): Result {
    Error(Message(text))
  }

  // ---- Arithmetic ----

  function Add(h: Host, a: Value, b: Value): Result {
    if a.Int? && b.Int? then Ok(Int(Wrap48(a.i + b.i)))
    else if IsNumber(a) && IsNumber(b) then Ok(Float(h.arith(FAdd, ToDouble(h, a), ToDouble(h, b))))
    else if a.Str? && b.Str? then Ok(Str(a.s + b.s))
    else Fail("Operands must be numbers or strings for '+'.")
  }

  function Subtract(h: Host, a: Value, b: Value): Result {
    if a.Int? && b.Int? then Ok(Int(Wrap48(a.i - b.i)))
    else if IsNumber(a) && IsNumber(b) then Ok(Float(h.arith(FSub, ToDouble(h, a), ToDouble(h, b))))
    else Fail("Operands must be numbers for '-'.")
  }

  function Multiply(h: Host, a: Value, b: Value): Result {
    if a.Int? && b.Int? then Ok(Int(Wrap48(a.i * b.i)))
    else if IsNumber(a) && IsNumber(b) then Ok(Float(h.arith(FMul, ToDouble(h, a), ToDouble(h, b))))
    else Fail("Operands must be numbers for '*'.")
  }

  predicate IsZero(h: Host, d: Double) {
    h.equal(d, h.fromInt(0))
  }

  /** Division always gives a float, also for two integers. */
  function Divide(h: Host, a: Value, b: Value): Result {
    if !IsNumber(a) || !IsNumber(b) then Fail("Operands must be numbers for '/'.")
    else if IsZero(h, ToDouble(h, b)) then Fail("Division by zero.")
    else Ok(Float(h.arith(FDiv, ToDouble(h, a), ToDouble(h, b))))
  }

  /** The remainder of C: it takes the sign of the dividend. */
  function TruncatedRemainder(a: int, b: int): int
    requires b != 0
  {
    if a >= 0 then a % b else -(-a % b)
  }

  function Remainder(h: Host, a: Value, b: Value): Result {
    if a.Int? && b.Int? then
      if b.i == 0 then Fail("Modulo by zero.") else Ok(Int(Wrap48(TruncatedRemainder(a.i, b.i))))
    else if !IsNumber(a) || !IsNumber(b) then Fail("Operands must be numbers for '%'.")
    else if IsZero(h, ToDouble(h, b)) then Fail("Modulo by zero.")
    else Ok(Float(h.arith(FMod, ToDouble(h, a), ToDouble(h, b))))
  }

  function Power(h: Host, a: Value, b: Value): Result {
    if !IsNumber(a) || !IsNumber(b) then Fail("Operands must be numbers for '**'.")
    else
      var result := h.arith(FPow, ToDouble(h, a), ToDouble(h, b));
      if a.Int? && b.Int? && b.i >= 0 then Ok(Int(Wrap48(h.toInt(result)))) else Ok(Float(result))
  }

  function Negate(h: Host, v: Value): Result {
    if v.Int? then Ok(Int(Wrap48(-v.i)))
    else if v.Float? then Ok(Float(h.negate(v.d)))
    else Fail("Operand must be a number for unary '-'.")
  }

  // ---- Bits ----

  datatype BitOp = BitAnd | BitOr | BitXor

  function OneBit(op: BitOp, a: bool, b: bool): bool {
    match op
    case BitAnd => a && b
    case BitOr => a || b
    case BitXor => a != b
  }

  /** The operation on the low `n` bits of the two's complement representations. */
  function Bits(op: BitOp, a: int, b: int, n: nat): nat
    decreases n
  {
    if n == 0 then 0
    else 2 * Bits(op, a / 2, b / 2, n - 1) + if OneBit(op, a % 2 == 1, b % 2 == 1) then 1 else 0
  }

  function Bitwise(op: BitOp, a: Value, b: Value): Result {
    if !a.Int? || !b.Int? then Fail("Bitwise operations require integers.")
    else Ok(Int(Wrap48(Bits(op, a.i, b.i, 48))))
  }

  function Complement(v: Value): Result {
    if !v.Int? then Fail("Bitwise NOT requires an integer.") else Ok(Int(Wrap48(-v.i - 1)))
  }

  function PowerOfTwo(n: nat): (p: nat)
    ensures p > 0
  {
    if n == 0 then 1 else 2 * PowerOfTwo(n - 1)
  }

  function Shift(a: Value, b: Value, left: bool): Result {
    if !a.Int? || !b.Int? then Fail("Shift operations require integers.")
    else if b.i < 0 || b.i >= 64 then Fail("Shift count must be between 0 and 63.")
    else Ok(Int(Wrap48(if left then a.i * PowerOfTwo(b.i) else a.i / PowerOfTwo(b.i))))
  }

  // ---- Comparison ----

  /** Numbers compare by value across the two types, everything else by identity. */
  function Equal(h: Host, a: Value, b: Value): bool {
    if IsNumber(a) && IsNumber(b) && (a.Float? || b.Float?) then h.equal(ToDouble(h, a), ToDouble(h, b))
    else a == b
  }

  /** The order of strcmp, which stops at the first NUL: -1, 0 or 1. */
  function CompareCStrings(a: string, b: string): int {
    var endA, endB := a == "" || a[0] as int == 0, b == "" || b[0] as int == 0;
    if endA || endB then if endA && endB then 0 else if endA then -1 else 1
    else if a[0] < b[0] then -1
    else if a[0] > b[0] then 1
    else CompareCStrings(a[1..], b[1..])
  }

  function SignHolds(r: Relation, sign: int): bool {
    match r
    case RelLess => sign < 0
    case RelLessEqual => sign <= 0
    case RelGreater => sign > 0
    case RelGreaterEqual => sign >= 0
  }

  function RelationSymbol(r: Relation): string {
    match r
    case RelLess => "<"
    case RelLessEqual => "<="
    case RelGreater => ">"
    case RelGreaterEqual => ">="
  }

  function Compare(h: Host, r: Relation, a: Value, b: Value): Result {
    if a.Int? && b.Int? then Ok(Bool(SignHolds(r, a.i - b.i)))
    else if IsNumber(a) && IsNumber(b) then Ok(Bool(h.compare(r, ToDouble(h, a), ToDouble(h, b))))
    else if a.Str? && b.Str? then Ok(Bool(SignHolds(r, CompareCStrings(a.s, b.s))))
    else Fail("Operands must be numbers or strings for '" + RelationSymbol(r) + "'.")
  }

  // ---- Calls ----

  /** Calling a native function from a stack of the given height; an arity of -1 marks a variadic one. */
  function CallValue(h: Host, callee: Value, args: seq<Value>, g: map<string, Value>, height: nat): Called {
    if callee.Native? then
      var expected := h.arity(callee.id);
      if expected != -1 && |args| != expected then Called(Error(WrongArity(expected, |args|)), g)
      else h.native(callee.id, args, g, height)
    else Called(Fail("Can only call functions and closures."), g)
  }
}
