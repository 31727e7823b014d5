/** What the operators compute (src/vm.c), in terms of the integers, their bits, the order of numbers and of byte strings,
    and not of the functions of module Runtime; and what an integer expression in a script comes to. */
module Operators {
  import opened Syntax
  import opened Runtime
  import opened Evaluation
  import Values

  // ---- Integers ----

  /** r is the 48-bit integer that stands for an exact result. */
  predicate Represents(r: int, exact: int) {
    -0x8000_0000_0000 <= r < 0x8000_0000_0000 && (r - exact) % 0x1_0000_0000_0000 == 0
  }

  /** The result is an integer that stands for an exact one. */
  predicate Gives(r: Result, exact: int) {
    r.Ok? && r.value.Int? && Represents(r.value.i, exact)
  }

  lemma WrapRepresents(i: int)
    ensures Represents(Values.Wrap48(i), i)
  {
    Values.Wrap48Congruent(i);
  }

  lemma GivesWrapped(r: Result, exact: int)
    requires Gives(r, exact)
    ensures r == Ok(Int(Values.Wrap48(exact)))
    ensures -0x8000_0000_0000 <= exact < 0x8000_0000_0000 ==> r == Ok(Int(exact))
  {
    Values.Wrap48Unique(exact, r.value.i);
  }

  /** Wrapping a summand first makes no difference. */
  lemma WrapAgain(a: int, b: int)
    ensures Values.Wrap48(Values.Wrap48(a) + b) == Values.Wrap48(a + b)
  {
    hide Values.Wrap48;
    Values.Wrap48Congruent(a);
    Values.CongruentToWrapped(Values.Wrap48(a) + b, a + b);
  }

  /** Sums, differences, products and negations of integers are the exact ones, up to multiples of 2^48. */
  lemma Arithmetic(h: Host, a: int, b: int)
    ensures Gives(Apply(h, Plus, Int(a), Int(b)), a + b)
    ensures Gives(Apply(h, Minus, Int(a), Int(b)), a - b)
    ensures Gives(Apply(h, Star, Int(a), Int(b)), a * b)
    ensures Gives(ApplyUnary(h, Neg, Int(a)), -a)
  {
    hide Values.Wrap48, Represents;
    WrapRepresents(a + b);
    WrapRepresents(a - b);
    WrapRepresents(a * b);
    WrapRepresents(-a);
  }

  predicate Word48(i: int) {
    -0x8000_0000_0000 <= i < 0x8000_0000_0000
  }

  /** The remainder of a division that is cut off towards zero: smaller than the divisor, and of the sign of the
      dividend. */
  lemma RemainderMeans(h: Host, a: int, b: int) returns (q: int)
    requires Word48(a) && Word48(b) && b != 0
    ensures var r := Apply(h, Percent, Int(a), Int(b));
            && r.Ok? && r.value.Int?
            && a == q * b + r.value.i
            && -(if b > 0 then b else -b) < r.value.i < (if b > 0 then b else -b)
            && (r.value.i > 0 ==> a > 0) && (r.value.i < 0 ==> a < 0)
  {
    hide TruncatedRemainder;
    q := TruncatedMeans(a, b);
    var r := TruncatedRemainder(a, b);
    Values.Wrap48Unique(r, r);
  }

  lemma TruncatedMeans(a: int, b: int) returns (q: int)
    requires b != 0
    ensures var r := TruncatedRemainder(a, b);
            && a == q * b + r && -(if b > 0 then b else -b) < r < (if b > 0 then b else -b)
            && (r > 0 ==> a > 0) && (r < 0 ==> a < 0)
  {
    var m := if a >= 0 then a else -a;
    DivisionOf(m, b);
    q := if a >= 0 then m / b else -(m / b);
    assert -(m / b) * b == -(m / b * b);
  }

  lemma DivisionOf(m: nat, b: int)
    requires b != 0
    ensures m == m / b * b + m % b && 0 <= m % b < (if b > 0 then b else -b)
    ensures m == 0 ==> m % b == 0
  {
  }

  lemma ZeroDivisor(h: Host, a: int)
    ensures Apply(h, Percent, Int(a), Int(0)) == Error(Message("Modulo by zero."))
  {
  }

  /** The four relations are those of the integers. */
  lemma IntegerOrder(h: Host, a: int, b: int)
    ensures Apply(h, Less, Int(a), Int(b)) == Ok(Bool(a < b))
    ensures Apply(h, LessEqual, Int(a), Int(b)) == Ok(Bool(a <= b))
    ensures Apply(h, Greater, Int(a), Int(b)) == Ok(Bool(a > b))
    ensures Apply(h, GreaterEqual, Int(a), Int(b)) == Ok(Bool(a >= b))
  {
  }

  // ---- Bits ----

  /** Bit k of the two's complement of an integer. */
  predicate Bit(i: int, k: nat)
    decreases k
  {
    if k == 0 then i % 2 == 1 else Bit(i / 2, k - 1)
  }

  lemma {:induction false} HighPartIsAbove(i: int, d: int, n: nat, k: nat)
    requires k < n
    ensures Bit(i + d * PowerOfTwo(n), k) == Bit(i, k)
    decreases k
  {
    var p := PowerOfTwo(n - 1);
    assert d * PowerOfTwo(n) == 2 * (d * p);
    if k > 0 {
      assert (i + 2 * (d * p)) / 2 == i / 2 + d * p;
      HighPartIsAbove(i / 2, d, n - 1, k - 1);
    }
  }

  lemma Power48()
    ensures PowerOfTwo(48) == 0x1_0000_0000_0000
  {
    hide PowerOfTwo;
    Power3();
    PowersAdd(3, 3);
    PowersAdd(6, 6);
    PowersAdd(12, 12);
    PowersAdd(24, 24);
  }

  lemma Power3()
    ensures PowerOfTwo(3) == 8
  {
    assert PowerOfTwo(2) == 2 * PowerOfTwo(1) && PowerOfTwo(1) == 2;
  }

  lemma {:induction false} PowersAdd(a: nat, b: nat)
    ensures PowerOfTwo(a + b) == PowerOfTwo(a) * PowerOfTwo(b)
    decreases b
  {
    if b > 0 { PowersAdd(a, b - 1); }
  }

  /** What stands for an integer has its low 48 bits. */
  lemma SameLowBits(r: int, exact: int, k: nat)
    requires Represents(r, exact) && k < 48
    ensures Bit(r, k) == Bit(exact, k)
  {
    hide Bit, PowerOfTwo;
    var d := (r - exact) / 0x1_0000_0000_0000;
    Power48();
    assert r == exact + d * PowerOfTwo(48);
    HighPartIsAbove(exact, d, 48, k);
  }

  lemma {:induction false} BitOfBits(op: BitOp, a: int, b: int, n: nat, k: nat)
    requires k < n
    ensures Bit(Bits(op, a, b, n), k) == OneBit(op, Bit(a, k), Bit(b, k))
    decreases k
  {
    var more, low := Bits(op, a / 2, b / 2, n - 1), if OneBit(op, a % 2 == 1, b % 2 == 1) then 1 else 0;
    assert Bits(op, a, b, n) == 2 * more + low;
    assert (2 * more + low) / 2 == more && (2 * more + low) % 2 == low;
    if k > 0 { BitOfBits(op, a / 2, b / 2, n - 1, k - 1); }
  }

  /** The result is a 48-bit integer with these bits. */
  ghost predicate HasBits(r: Result, bit: nat -> bool) {
    r.Ok? && r.value.Int? && Word48(r.value.i) && forall k: nat :: k < 48 ==> Bit(r.value.i, k) == bit(k)
  }

  lemma WrappedBits(exact: int, bit: nat -> bool)
    requires forall k: nat :: k < 48 ==> Bit(exact, k) == bit(k)
    ensures HasBits(Ok(Int(Values.Wrap48(exact))), bit)
  {
    hide Bit, Values.Wrap48;
    WrapRepresents(exact);
    forall k: nat | k < 48 ensures Bit(Values.Wrap48(exact), k) == bit(k) {
      SameLowBits(Values.Wrap48(exact), exact, k);
    }
  }

  lemma AndMeans(h: Host, a: int, b: int)
    ensures HasBits(Apply(h, Amp, Int(a), Int(b)), (k: nat) => Bit(a, k) && Bit(b, k))
  {
    hide Bit, Bits, HasBits, Values.Wrap48;
    forall k: nat | k < 48 ensures Bit(Bits(BitAnd, a, b, 48), k) == (Bit(a, k) && Bit(b, k)) {
      BitOfBits(BitAnd, a, b, 48, k);
    }
    WrappedBits(Bits(BitAnd, a, b, 48), (k: nat) => Bit(a, k) && Bit(b, k));
  }

  lemma OrMeans(h: Host, a: int, b: int)
    ensures HasBits(Apply(h, Pipe, Int(a), Int(b)), (k: nat) => Bit(a, k) || Bit(b, k))
  {
    hide Bit, Bits, HasBits, Values.Wrap48;
    forall k: nat | k < 48 ensures Bit(Bits(BitOr, a, b, 48), k) == (Bit(a, k) || Bit(b, k)) {
      BitOfBits(BitOr, a, b, 48, k);
    }
    WrappedBits(Bits(BitOr, a, b, 48), (k: nat) => Bit(a, k) || Bit(b, k));
  }

  lemma XorMeans(h: Host, a: int, b: int)
    ensures HasBits(Apply(h, Caret, Int(a), Int(b)), (k: nat) => Bit(a, k) != Bit(b, k))
  {
    hide Bit, Bits, HasBits, Values.Wrap48;
    forall k: nat | k < 48 ensures Bit(Bits(BitXor, a, b, 48), k) == (Bit(a, k) != Bit(b, k)) {
      BitOfBits(BitXor, a, b, 48, k);
    }
    WrappedBits(Bits(BitXor, a, b, 48), (k: nat) => Bit(a, k) != Bit(b, k));
  }

  lemma {:induction false} BitOfComplement(a: int, k: nat)
    ensures Bit(-a - 1, k) == !Bit(a, k)
    decreases k
  {
    if k > 0 {
      assert (-a - 1) / 2 == -(a / 2) - 1;
      BitOfComplement(a / 2, k - 1);
    }
  }

  lemma ComplementMeans(h: Host, a: int)
    ensures HasBits(ApplyUnary(h, BitNot, Int(a)), (k: nat) => !Bit(a, k))
  {
    hide Bit, Values.Wrap48;
    forall k: nat ensures Bit(-a - 1, k) == !Bit(a, k) { BitOfComplement(a, k); }
    WrappedBits(-a - 1, (k: nat) => !Bit(a, k));
  }

  lemma {:induction false} BitShiftedLeft(a: int, n: nat, k: nat)
    ensures Bit(a * PowerOfTwo(n), k) == (k >= n && Bit(a, k - n))
    decreases n
  {
    if n > 0 {
      var b := a * PowerOfTwo(n - 1);
      assert a * PowerOfTwo(n) == 2 * b;
      assert 2 * b / 2 == b && 2 * b % 2 == 0;
      if k > 0 { BitShiftedLeft(a, n - 1, k - 1); }
    }
  }

  lemma {:induction false} BitShiftedRight(a: int, n: nat, k: nat)
    ensures Bit(a / PowerOfTwo(n), k) == Bit(a, k + n)
    decreases n
  {
    if n > 0 {
      DivideTwice(a, PowerOfTwo(n - 1));
      BitShiftedRight(a / 2, n - 1, k);
    }
  }

  lemma DivideTwice(a: int, p: nat)
    requires p > 0
    ensures a / (2 * p) == a / 2 / p
  {
    var q, r := a / 2 / p, a / 2 % p;
    assert a == 2 * (q * p + r) + a % 2;
    assert a == (2 * p) * q + (2 * r + a % 2);
    assert 0 <= r < p && 0 <= a % 2 < 2;
    Quotient(a, 2 * p, q, 2 * r + a % 2);
  }

  lemma Quotient(a: int, b: nat, q: int, r: nat)
    requires r < b && a == b * q + r
    ensures a / b == q
  {
    var e := a / b;
    assert e < q ==> b * (e + 1) <= b * q;
    assert e > q ==> b * (q + 1) <= b * e;
  }

  /** Shifting left moves the bits up and fills with zeros; shifting right moves them down and fills with the sign. */
  lemma ShiftMeans(h: Host, a: int, n: nat)
    requires n < 64
    ensures HasBits(Apply(h, LShift, Int(a), Int(n)), (k: nat) => k >= n && Bit(a, k - n))
    ensures HasBits(Apply(h, RShift, Int(a), Int(n)), (k: nat) => Bit(a, k + n))
  {
    hide Bit, Values.Wrap48, PowerOfTwo;
    forall k: nat
      ensures Bit(a * PowerOfTwo(n), k) == (k >= n && Bit(a, k - n)) && Bit(a / PowerOfTwo(n), k) == Bit(a, k + n)
    {
      BitShiftedLeft(a, n, k);
      BitShiftedRight(a, n, k);
    }
    WrappedBits(a * PowerOfTwo(n), (k: nat) => k >= n && Bit(a, k - n));
    WrappedBits(a / PowerOfTwo(n), (k: nat) => Bit(a, k + n));
  }

  lemma ShiftCounts(h: Host, a: int, n: int, op: BinOp)
    requires op.LShift? || op.RShift?
    ensures Apply(h, op, Int(a), Int(n)).Ok? <==> 0 <= n < 64
    ensures n < 0 || n >= 64 ==> Apply(h, op, Int(a), Int(n)) == Error(Message("Shift count must be between 0 and 63."))
  {
  }

  /** The range of n-bit two's complement. */
  predicate InSigned(i: int, n: nat)
    requires n > 0
  {
    0 <= i + PowerOfTwo(n - 1) < PowerOfTwo(n)
  }

  /** A 48-bit integer is known by its bits, so these statements fix the results. */
  lemma WordsDiffer(a: int, b: int)
    requires Word48(a) && Word48(b) && forall k: nat :: k < 48 ==> Bit(a, k) == Bit(b, k)
    ensures a == b
  {
    hide Bit;
    Power48();
    assert PowerOfTwo(48) == 2 * PowerOfTwo(47);
    BitsDecide(a, b, 48);
  }

  lemma {:induction false} BitsDecide(a: int, b: int, n: nat)
    requires n > 0 && InSigned(a, n) && InSigned(b, n)
    requires forall k: nat :: k < n ==> Bit(a, k) == Bit(b, k)
    ensures a == b
    decreases n
  {
    assert Bit(a, 0) == Bit(b, 0);
    if n > 1 {
      forall k: nat | k < n - 1 ensures Bit(a / 2, k) == Bit(b / 2, k) {
        assert Bit(a, k + 1) == Bit(b, k + 1);
      }
      BitsDecide(a / 2, b / 2, n - 1);
    }
  }

  // ---- Strings ----

  /** What strcmp sees of a string: everything before the first NUL. */
  function CText(s: string): (t: string)
    ensures t <= s && (forall i :: 0 <= i < |t| ==> t[i] as int != 0) && (|t| < |s| ==> s[|t|] as int == 0)
  {
    if s == "" || s[0] as int == 0 then "" else [s[0]] + CText(s[1..])
  }

  /** a comes before b: they agree up to somewhere, and there a ends or has the smaller character. */
  ghost predicate ComesBefore(a: string, b: string) {
    exists k: nat :: DiffersAt(a, b, k)
  }

  predicate DiffersAt(a: string, b: string, k: nat) {
    k <= |a| && k < |b| && a[..k] == b[..k] && (k == |a| || a[k] < b[k])
  }

  lemma DiffersLater(a: string, b: string, k: nat)
    requires a != "" && b != "" && a[0] == b[0] && k > 0
    ensures DiffersAt(a, b, k) <==> DiffersAt(a[1..], b[1..], k - 1)
  {
    if k <= |a| && k < |b| {
      assert a[..k] == [a[0]] + a[1..][..k - 1] && b[..k] == [b[0]] + b[1..][..k - 1];
      if a[..k] == b[..k] { assert a[1..][..k - 1] == a[..k][1..] && b[1..][..k - 1] == b[..k][1..]; }
    }
  }

  lemma BeforeStep(a: string, b: string)
    requires a != "" && b != "" && a[0] == b[0]
    ensures ComesBefore(a, b) <==> ComesBefore(a[1..], b[1..])
  {
    if ComesBefore(a, b) {
      var k: nat :| DiffersAt(a, b, k);
      DiffersLater(a, b, k);
    }
    if ComesBefore(a[1..], b[1..]) {
      var k: nat :| DiffersAt(a[1..], b[1..], k);
      DiffersLater(a, b, k + 1);
    }
  }

  lemma SameFirst(a: string, b: string, k: nat)
    requires DiffersAt(a, b, k)
    ensures k > 0 ==> a != "" && b != "" && a[0] == b[0]
  {
    if k > 0 { assert a[..k][0] == a[0] && b[..k][0] == b[0]; }
  }

  lemma FirstDecides(a: string, b: string)
    requires a == "" || b == "" || a[0] != b[0]
    ensures ComesBefore(a, b) <==> b != "" && (a == "" || a[0] < b[0])
  {
    if b != "" && (a == "" || a[0] < b[0]) { assert DiffersAt(a, b, 0); }
    forall k: nat | DiffersAt(a, b, k) ensures k == 0 { SameFirst(a, b, k); }
  }

  lemma {:induction false} CompareMeans(a: string, b: string)
    ensures CompareCStrings(a, b) < 0 <==> ComesBefore(CText(a), CText(b))
    ensures CompareCStrings(a, b) > 0 <==> ComesBefore(CText(b), CText(a))
    ensures CompareCStrings(a, b) == 0 <==> CText(a) == CText(b)
    decreases |a|
  {
    hide ComesBefore;
    var x, y := CText(a), CText(b);
    if x == "" || y == "" || x[0] != y[0] {
      FirstDecides(x, y);
      FirstDecides(y, x);
    } else {
      CompareMeans(a[1..], b[1..]);
      BeforeStep(x, y);
      BeforeStep(y, x);
      assert x[1..] == CText(a[1..]) && y[1..] == CText(b[1..]);
      assert x == [x[0]] + x[1..] && y == [y[0]] + y[1..];
    }
  }

  /** The four relations on strings are the order of what strcmp sees of them. */
  lemma StringOrder(h: Host, a: string, b: string)
    ensures Apply(h, Less, Str(a), Str(b)) == Ok(Bool(ComesBefore(CText(a), CText(b))))
    ensures Apply(h, LessEqual, Str(a), Str(b)) == Ok(Bool(ComesBefore(CText(a), CText(b)) || CText(a) == CText(b)))
    ensures Apply(h, Greater, Str(a), Str(b)) == Ok(Bool(ComesBefore(CText(b), CText(a))))
    ensures Apply(h, GreaterEqual, Str(a), Str(b)) == Ok(Bool(ComesBefore(CText(b), CText(a)) || CText(a) == CText(b)))
    ensures Apply(h, Plus, Str(a), Str(b)) == Ok(Str(a + b))
  {
    hide ComesBefore, CompareCStrings, CText;
    CompareMeans(a, b);
  }

  // ---- Floating point ----

  /** The double that stands for a number. */
  predicate Stands(h: Host, v: Value, d: Values.Double) {
    match v
    case Int(i) => d == h.fromInt(i)
    case Float(x) => d == x
    case _ => false
  }

  /** With a float among the operands, arithmetic and the relations are those of doubles. */
  lemma FloatOperators(h: Host, a: Value, b: Value, x: Values.Double, y: Values.Double)
    requires Stands(h, a, x) && Stands(h, b, y) && (a.Float? || b.Float?)
    ensures Apply(h, Plus, a, b) == Ok(Float(h.arith(FAdd, x, y)))
    ensures Apply(h, Minus, a, b) == Ok(Float(h.arith(FSub, x, y)))
    ensures Apply(h, Star, a, b) == Ok(Float(h.arith(FMul, x, y)))
    ensures Apply(h, Percent, a, b) ==
            if h.equal(y, h.fromInt(0)) then Error(Message("Modulo by zero.")) else Ok(Float(h.arith(FMod, x, y)))
  {
  }

  lemma FloatRelations(h: Host, a: Value, b: Value, x: Values.Double, y: Values.Double)
    requires Stands(h, a, x) && Stands(h, b, y) && (a.Float? || b.Float?)
    ensures Apply(h, Less, a, b) == Ok(Bool(h.compare(RelLess, x, y)))
    ensures Apply(h, LessEqual, a, b) == Ok(Bool(h.compare(RelLessEqual, x, y)))
    ensures Apply(h, Greater, a, b) == Ok(Bool(h.compare(RelGreater, x, y)))
    ensures Apply(h, GreaterEqual, a, b) == Ok(Bool(h.compare(RelGreaterEqual, x, y)))
    ensures Apply(h, EqualEqual, a, b) == Ok(Bool(h.equal(x, y)))
    ensures Apply(h, BangEqual, a, b) == Ok(Bool(!h.equal(x, y)))
  {
  }

  /** Division is always that of doubles; a power of integers is an integer if the exponent is not negative. */
  lemma DivisionAndPower(h: Host, a: Value, b: Value, x: Values.Double, y: Values.Double)
    requires Stands(h, a, x) && Stands(h, b, y)
    ensures Apply(h, Slash, a, b) ==
            if h.equal(y, h.fromInt(0)) then Error(Message("Division by zero.")) else Ok(Float(h.arith(FDiv, x, y)))
    ensures if a.Int? && b.Int? && b.i >= 0 then Gives(Apply(h, StarStar, a, b), h.toInt(h.arith(FPow, x, y)))
            else Apply(h, StarStar, a, b) == Ok(Float(h.arith(FPow, x, y)))
  {
    WrapRepresents(h.toInt(h.arith(FPow, x, y)));
  }

  lemma NegatedFloat(h: Host, d: Values.Double)
    ensures ApplyUnary(h, Neg, Float(d)) == Ok(Float(h.negate(d)))
  {
  }

  // ---- Truth and equality ----

  /** Everything but nil and false is true, also zero and the empty string. */
  lemma Truth(h: Host, v: Value)
    ensures Falsy(v) <==> v in {Nil, Bool(false)}
    ensures ApplyUnary(h, Not, v) == Ok(Bool(v == Nil || v == Bool(false)))
  {
  }

  /** Without a float, values are equal if they are of one kind and the same number, text or object. */
  lemma SameOrNot(h: Host, a: Value, b: Value)
    requires !a.Float? && !b.Float?
    ensures Apply(h, EqualEqual, a, b) == Ok(Bool(a == b)) && Apply(h, BangEqual, a, b) == Ok(Bool(a != b))
  {
  }

  /** A float and what is no number are never equal. */
  lemma FloatAndOther(h: Host, a: Value, b: Value)
    requires a.Float? != b.Float? && !a.Int? && !b.Int?
    ensures Apply(h, EqualEqual, a, b) == Ok(Bool(false)) && Apply(h, BangEqual, a, b) == Ok(Bool(true))
  {
  }

  // ---- Operands of the wrong kind ----

  predicate Number(v: Value) {
    v.Int? || v.Float?
  }

  /** Which operands each operator refuses, and with which words. */
  function Refusal(op: BinOp): string {
    match op
    case Plus => "Operands must be numbers or strings for '+'."
    case Minus => "Operands must be numbers for '-'."
    case Star => "Operands must be numbers for '*'."
    case Slash => "Operands must be numbers for '/'."
    case Percent => "Operands must be numbers for '%'."
    case StarStar => "Operands must be numbers for '**'."
    case Less => "Operands must be numbers or strings for '<'."
    case LessEqual => "Operands must be numbers or strings for '<='."
    case Greater => "Operands must be numbers or strings for '>'."
    case GreaterEqual => "Operands must be numbers or strings for '>='."
    case LShift => "Shift operations require integers."
    case RShift => "Shift operations require integers."
    case _ => "Bitwise operations require integers."
  }

  predicate Fits(op: BinOp, a: Value, b: Value) {
    match op
    case Amp => a.Int? && b.Int?
    case Pipe => a.Int? && b.Int?
    case Caret => a.Int? && b.Int?
    case LShift => a.Int? && b.Int?
    case RShift => a.Int? && b.Int?
    case EqualEqual => true
    case BangEqual => true
    case Minus => Number(a) && Number(b)
    case Star => Number(a) && Number(b)
    case Slash => Number(a) && Number(b)
    case Percent => Number(a) && Number(b)
    case StarStar => Number(a) && Number(b)
    case _ => (Number(a) && Number(b)) || (a.Str? && b.Str?)
  }

  /** Operands that do not fit are refused with these words, and what fits fails only for a zero divisor or a count
      out of range. */
  lemma Refused(h: Host, op: BinOp, a: Value, b: Value)
    ensures !Fits(op, a, b) ==> Apply(h, op, a, b) == Error(Message(Refusal(op)))
    ensures Fits(op, a, b) && op !in {Slash, Percent, LShift, RShift} ==> Apply(h, op, a, b).Ok?
  {
    hide Apply, Refusal, Fits;
    match op
    case Less => RefusedRelation(h, RelLess, op, a, b);
    case LessEqual => RefusedRelation(h, RelLessEqual, op, a, b);
    case Greater => RefusedRelation(h, RelGreater, op, a, b);
    case GreaterEqual => RefusedRelation(h, RelGreaterEqual, op, a, b);
    case Plus => RefusedNumbers(h, op, a, b);
    case Minus => RefusedNumbers(h, op, a, b);
    case Star => RefusedNumbers(h, op, a, b);
    case Slash => RefusedNumbers(h, op, a, b);
    case Percent => RefusedNumbers(h, op, a, b);
    case StarStar => RefusedNumbers(h, op, a, b);
    case _ => RefusedIntegers(h, op, a, b);
  }

  lemma RefusedNumbers(h: Host, op: BinOp, a: Value, b: Value)
    requires op in {Plus, Minus, Star, Slash, Percent, StarStar}
    ensures !Fits(op, a, b) ==> Apply(h, op, a, b) == Error(Message(Refusal(op)))
    ensures Fits(op, a, b) && op != Slash && op != Percent ==> Apply(h, op, a, b).Ok?
  {
    hide Values.Wrap48, TruncatedRemainder;
  }

  lemma RefusedIntegers(h: Host, op: BinOp, a: Value, b: Value)
    requires op in {Amp, Pipe, Caret, LShift, RShift, EqualEqual, BangEqual}
    ensures !Fits(op, a, b) ==> Apply(h, op, a, b) == Error(Message(Refusal(op)))
    ensures Fits(op, a, b) && op != LShift && op != RShift ==> Apply(h, op, a, b).Ok?
  {
    hide Values.Wrap48, Bits, PowerOfTwo;
  }

  lemma RefusedRelation(h: Host, r: Relation, op: BinOp, a: Value, b: Value)
    requires (r.RelLess? && op.Less?) || (r.RelLessEqual? && op.LessEqual?)
          || (r.RelGreater? && op.Greater?) || (r.RelGreaterEqual? && op.GreaterEqual?)
    ensures if Fits(op, a, b) then Apply(h, op, a, b).Ok? else Apply(h, op, a, b) == Error(Message(Refusal(op)))
  {
    hide CompareCStrings, Refusal, RelationSymbol, SignHolds;
    RelationWords(r, op);
  }

  lemma RelationWords(r: Relation, op: BinOp)
    requires (r.RelLess? && op.Less?) || (r.RelLessEqual? && op.LessEqual?)
          || (r.RelGreater? && op.Greater?) || (r.RelGreaterEqual? && op.GreaterEqual?)
    ensures "Operands must be numbers or strings for '" + RelationSymbol(r) + "'." == Refusal(op)
  {
  }

  lemma UnaryRefusedIff(h: Host, v: Value)
    ensures ApplyUnary(h, Neg, v) == Error(Message("Operand must be a number for unary '-'.")) <==> !Number(v)
    ensures ApplyUnary(h, BitNot, v) == Error(Message("Bitwise NOT requires an integer.")) <==> !v.Int?
  {
  }

  // ---- Calls ----

  /** A native function gets its arguments if they are as many as it wants, and any number if it wants -1. */
  lemma Calls(h: Host, f: Value, args: seq<Value>, g: Globals, height: nat)
    ensures f.Native? && (h.arity(f.id) == |args| || h.arity(f.id) == -1) ==>
              CallValue(h, f, args, g, height) == h.native(f.id, args, g, height)
    ensures f.Native? && h.arity(f.id) != |args| && h.arity(f.id) != -1 ==>
              CallValue(h, f, args, g, height) == Called(Error(WrongArity(h.arity(f.id), |args|)), g)
    ensures !f.Native? ==>
              CallValue(h, f, args, g, height) == Called(Error(Message("Can only call functions and closures.")), g)
  {
  }
}
