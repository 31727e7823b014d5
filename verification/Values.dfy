/** NaN-boxed values (src/value.h): every script value is one 64-bit word.

    Words are modelled as naturals below 2^64.  All masks of the source select a contiguous
    run of bits, so each of them is a division or a remainder by a power of two. */
module Values {

  type Word = w: int | 0 <= w < 0x1_0000_0000_0000_0000

  const TWO_47 := 0x8000_0000_0000
  const TWO_48 := 0x1_0000_0000_0000
  const TWO_63 := 0x8000_0000_0000_0000
  const TWO_64 := 0x1_0000_0000_0000_0000

  const TAG_PTR: Word := 0x7FF8_0000_0000_0000
  const TAG_INT: Word := 0x7FF9_0000_0000_0000
  const VAL_FALSE: Word := 0x7FFA_0000_0000_0000
  const VAL_TRUE: Word := 0x7FFA_8000_0000_0000
  const VAL_NIL: Word := 0x7FFB_0000_0000_0000
  const VAL_UNDEFINED: Word := 0x7FFB_8000_0000_0000

  // ---- The machine's integer conversions ----

  /** An IEEE double, as an opaque carrier: its bits are never looked at. */
  datatype Double = Double(bits: nat)

  predicate FitsInt64(i: int) {
    -TWO_63 <= i < TWO_63
  }

  /** The cast of a signed 64-bit integer to an unsigned one. */
  function ToUnsigned64(i: int): Word {
    i % TWO_64
  }

  /** The cast of an unsigned 64-bit integer to a signed one. */
  function ToSigned64(w: Word): int {
    if w < TWO_63 then w else w - TWO_64
  }

  // ---- Tags ----

  function Tag16(w: Word): int { w / TWO_48 }

  function Payload(w: Word): int { w % TWO_48 }

  predicate IsFloat(w: Word) {
    // The top 13 bits are not the quiet-NaN pattern.
    w / 0x8_0000_0000_0000 != 0x0FFF
  }

  predicate IsInt(w: Word) {
    Tag16(w) == 0x7FF9
  }

  predicate IsPtr(w: Word) {
    Tag16(w) == 0x7FF8 && w % 16 == 0
  }

  predicate IsBool(w: Word) {
    w == VAL_TRUE || w == VAL_FALSE
  }

  predicate IsNil(w: Word) {
    w == VAL_NIL
  }

  predicate IsUndefined(w: Word) {
    w == VAL_UNDEFINED
  }

  // ---- Boxed integers ----

  function IntVal(i: int): Word {
    TAG_INT + ToUnsigned64(i) % TWO_48
  }

  /** Sign extension from bit 47. */
  function AsInt(w: Word): int {
    var raw := Payload(w);
    ToSigned64(if raw / TWO_47 % 2 == 1 then raw + 0xFFFF * TWO_48 else raw)
  }

  // ---- Boxed pointers ----

  /** A heap address: 47 bits, aligned to 16 bytes. */
  type Address = a: int | 0 <= a < TWO_47 && a % 16 == 0

  function PtrVal(a: Address): Word {
    TAG_PTR + a % TWO_47
  }

  function AsPtr(w: Word): int {
    w % TWO_47
  }

  /** The seven kinds of word a running program can hold; `Unused` is the rest of the tag space. */
  datatype Kind = FloatKind | IntKind | PtrKind | BoolKind | NilKind | UndefinedKind | Unused

  /** The tests of the source, in no particular order, decide one kind. */
  predicate HasKind(w: Word, k: Kind) {
    match k
    case FloatKind => IsFloat(w)
    case IntKind => IsInt(w)
    case PtrKind => IsPtr(w)
    case BoolKind => IsBool(w)
    case NilKind => IsNil(w)
    case UndefinedKind => IsUndefined(w)
    case Unused => !IsFloat(w) && !IsInt(w) && !IsPtr(w) && !IsBool(w) && !IsNil(w) && !IsUndefined(w)
  }

  lemma Tag16OfSum(tag: int, low: int)
    requires 0 <= tag < 0x10000 && 0 <= low < TWO_48
    ensures (tag * TWO_48 + low) / TWO_48 == tag
    ensures (tag * TWO_48 + low) % TWO_48 == low
    ensures (tag * TWO_48 + low) / 0x8_0000_0000_0000 == tag / 8
  {
  }

  /** Every word has exactly one kind, so the type tests of the virtual machine never overlap. */
  lemma KindsAreDisjoint(w: Word)
    ensures exists k :: HasKind(w, k)
    ensures forall k, k' :: HasKind(w, k) && HasKind(w, k') ==> k == k'
  {
    Tag16OfSum(w / TWO_48, w % TWO_48);
    var k := if IsFloat(w) then FloatKind else if IsInt(w) then IntKind else if IsPtr(w) then PtrKind
      else if IsBool(w) then BoolKind else if IsNil(w) then NilKind
      else if IsUndefined(w) then UndefinedKind else Unused;
    assert HasKind(w, k);
  }

  // ---- 48-bit two's complement ----

  /** The representative of `i` modulo 2^48 in the signed 48-bit range. */
  function Wrap48(i: int): int {
    (i + TWO_47) % TWO_48 - TWO_47
  }

  lemma Wrap48Unique(i: int, r: int)
    requires -TWO_47 <= r < TWO_47 && (r - i) % TWO_48 == 0
    ensures Wrap48(i) == r
  {
    var q := (r - i) / TWO_48;
    assert r + TWO_47 == i + TWO_47 + q * TWO_48;
  }

  lemma Wrap48Congruent(i: int)
    ensures -TWO_47 <= Wrap48(i) < TWO_47
    ensures (Wrap48(i) - i) % TWO_48 == 0
  {
    assert Wrap48(i) - i == -((i + TWO_47) / TWO_48) * TWO_48;
  }

  /** Boxing and unboxing an integer wraps it to 48 bits, whatever 64-bit integer went in;
      it is lossless exactly on the signed 48-bit range. */
  lemma UnboxBox(i: int)
    requires FitsInt64(i)
    ensures IsInt(IntVal(i)) && HasKind(IntVal(i), IntKind)
    ensures AsInt(IntVal(i)) == Wrap48(i)
    ensures AsInt(IntVal(i)) == i <==> -TWO_47 <= i < TWO_47
  {
    LowBits(i);
    Tag16OfSum(0x7FF9, i % TWO_48);
    assert Payload(IntVal(i)) == i % TWO_48;
    SignExtend(IntVal(i));
    assert (i % TWO_48 - i) % TWO_48 == 0;
    Wrap48Unique(i, AsInt(IntVal(i)));
  }

  lemma LowBits(i: int)
    ensures ToUnsigned64(i) % TWO_48 == i % TWO_48
  {
    var r := i % TWO_64;
    assert i == r + (i / TWO_64 * 0x10000) * TWO_48;
    DropMultiple(r, i / TWO_64 * 0x10000);
  }

  lemma DropMultiple(a: int, k: int)
    ensures (a + k * TWO_48) % TWO_48 == a % TWO_48
  {
    assert a + k * TWO_48 == a % TWO_48 + (a / TWO_48 + k) * TWO_48;
  }

  /** Sign extension subtracts 2^48 from the payloads with bit 47 set. */
  lemma SignExtend(w: Word)
    ensures AsInt(w) == if Payload(w) < TWO_47 then Payload(w) else Payload(w) - TWO_48
  {
  }

  /** Pointers survive boxing and are never mistaken for integers. */
  lemma UnboxBoxPointer(a: Address)
    ensures IsPtr(PtrVal(a)) && HasKind(PtrVal(a), PtrKind)
    ensures AsPtr(PtrVal(a)) == a
  {
    Tag16OfSum(0x7FF8, a);
    assert TAG_PTR == 0xFFF0 * TWO_47;
    assert TAG_PTR == 0x7FF_8000_0000_0000 * 16;
  }

  // ---- Integer expressions over boxed words ----

  /** The integer fragment of OP_ADD, OP_SUB, OP_MUL and OP_NEG. */
  datatype IntExpr =
    | Num(n: int)
    | Sum(l: IntExpr, r: IntExpr)
    | Difference(l: IntExpr, r: IntExpr)
    | Product(l: IntExpr, r: IntExpr)
    | Negation(e: IntExpr)

  /** What the virtual machine computes: every operation unboxes, works in 64 bits and boxes again. */
  function Boxed(e: IntExpr): Word {
    match e
    case Num(n) => IntVal(n)
    case Sum(l, r) => IntVal(AsInt(Boxed(l)) + AsInt(Boxed(r)))
    case Difference(l, r) => IntVal(AsInt(Boxed(l)) - AsInt(Boxed(r)))
    case Product(l, r) => IntVal(AsInt(Boxed(l)) * AsInt(Boxed(r)))
    case Negation(e) => IntVal(-AsInt(Boxed(e)))
  }

  /** The exact integer value. */
  function Exact(e: IntExpr): int {
    match e
    case Num(n) => n
    case Sum(l, r) => Exact(l) + Exact(r)
    case Difference(l, r) => Exact(l) - Exact(r)
    case Product(l, r) => Exact(l) * Exact(r)
    case Negation(e) => -Exact(e)
  }

  /** The literals fit 64 bits, and so does every product of two unboxed operands. */
  predicate Defined(e: IntExpr) {
    match e
    case Num(n) => FitsInt64(n)
    case Sum(l, r) => Defined(l) && Defined(r)
    case Difference(l, r) => Defined(l) && Defined(r)
    case Product(l, r) => Defined(l) && Defined(r) && FitsInt64(AsInt(Boxed(l)) * AsInt(Boxed(r)))
    case Negation(e) => Defined(e)
  }

  lemma CongruentProduct(a: int, b: int, x: int, y: int)
    requires (a - x) % TWO_48 == 0 && (b - y) % TWO_48 == 0
    ensures (a * b - x * y) % TWO_48 == 0
  {
    var p, q := (a - x) / TWO_48, (b - y) / TWO_48;
    assert a == x + p * TWO_48 && b == y + q * TWO_48;
    assert a * b == x * y + (x * q + p * y + p * q * TWO_48) * TWO_48 by {
      assert a * b == x * y + x * (q * TWO_48) + (p * TWO_48) * y + (p * TWO_48) * (q * TWO_48);
    }
    MultipleHasNoRemainder(x * q + p * y + p * q * TWO_48);
  }

  lemma MultipleHasNoRemainder(k: int)
    ensures (k * TWO_48) % TWO_48 == 0
  {
  }

  lemma CongruentToWrapped(i: int, exact: int)
    requires (i - exact) % TWO_48 == 0
    ensures Wrap48(i) == Wrap48(exact)
  {
    Wrap48Congruent(i);
    var p, q := (i - exact) / TWO_48, (Wrap48(i) - i) / TWO_48;
    assert Wrap48(i) - exact == (p + q) * TWO_48;
    MultipleHasNoRemainder(p + q);
    Wrap48Unique(exact, Wrap48(i));
  }

  /** Boxing an operation's 64-bit result gives the exact result wrapped, when the two are congruent. */
  lemma BoxCongruent(i: int, exact: int)
    requires FitsInt64(i) && (i - exact) % TWO_48 == 0
    ensures IsInt(IntVal(i)) && AsInt(IntVal(i)) == Wrap48(exact)
  {
    UnboxBox(i);
    CongruentToWrapped(i, exact);
  }

  lemma CongruentSum(x: int, y: int)
    ensures (Wrap48(x) + Wrap48(y) - (x + y)) % TWO_48 == 0
    ensures (Wrap48(x) - Wrap48(y) - (x - y)) % TWO_48 == 0
    ensures (-Wrap48(x) - -x) % TWO_48 == 0
    ensures FitsInt64(Wrap48(x) + Wrap48(y)) && FitsInt64(Wrap48(x) - Wrap48(y)) && FitsInt64(-Wrap48(x))
  {
    Wrap48Congruent(x); Wrap48Congruent(y);
  }

  /** Boxed arithmetic is a homomorphism onto 48-bit two's complement: any nest of operations
      unboxes to the exact result, wrapped once. */
  lemma {:induction false} BoxedArithmetic(e: IntExpr)
    requires Defined(e)
    ensures IsInt(Boxed(e)) && AsInt(Boxed(e)) == Wrap48(Exact(e))
  {
    match e
    case Num(n) => UnboxBox(n);
    case Sum(l, r) =>
      BoxedArithmetic(l); BoxedArithmetic(r);
      CongruentSum(Exact(l), Exact(r));
      BoxCongruent(AsInt(Boxed(l)) + AsInt(Boxed(r)), Exact(l) + Exact(r));
    case Difference(l, r) =>
      BoxedArithmetic(l); BoxedArithmetic(r);
      CongruentSum(Exact(l), Exact(r));
      BoxCongruent(AsInt(Boxed(l)) - AsInt(Boxed(r)), Exact(l) - Exact(r));
    case Product(l, r) =>
      BoxedArithmetic(l); BoxedArithmetic(r);
      Wrap48Congruent(Exact(l)); Wrap48Congruent(Exact(r));
      CongruentProduct(AsInt(Boxed(l)), AsInt(Boxed(r)), Exact(l), Exact(r));
      BoxCongruent(AsInt(Boxed(l)) * AsInt(Boxed(r)), Exact(l) * Exact(r));
    case Negation(e') =>
      BoxedArithmetic(e');
      CongruentSum(Exact(e'), 0);
      BoxCongruent(-AsInt(Boxed(e')), -Exact(e'));
  }

  // ---- Known words ----

  /** The layout of src/value.h on some words: the tag in the top 16 bits, 48 bits of integer or 47 of address below. */
  lemma Layout()
    ensures IntVal(5) == 0x7FF9_0000_0000_0005 && IntVal(-1) == 0x7FF9_FFFF_FFFF_FFFF
    ensures AsInt(0x7FF9_7FFF_FFFF_FFFF) == 0x7FFF_FFFF_FFFF && AsInt(0x7FF9_8000_0000_0000) == -0x8000_0000_0000
    ensures PtrVal(0x1230) == 0x7FF8_0000_0000_1230 && AsPtr(0x7FF8_0000_0000_1230) == 0x1230
    ensures IsBool(0x7FFA_0000_0000_0000) && IsBool(0x7FFA_8000_0000_0000) && VAL_TRUE == 0x7FFA_8000_0000_0000
    ensures IsNil(0x7FFB_0000_0000_0000) && IsUndefined(0x7FFB_8000_0000_0000)
    ensures IsFloat(0x3FF0_0000_0000_0000) && IsFloat(0xFFF8_0000_0000_0000) && IsFloat(0x7FF0_0000_0000_0000)
  {
  }
}
