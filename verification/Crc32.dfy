/** CRC-32 (src/stdlib_compress.c, section 8 of RFC 1952): the table-driven computation is the division of the
    message by the polynomial, bit by bit. */
module Crc32 {
  import opened Bytes

  const POLYNOMIAL: bv32 := 0xEDB88320

  // ---- The definition: one bit of the message at a time ----

  function Half(x: bv32): bv32 {
    x >> 1
  }

  function Xor(a: bv32, b: bv32): bv32 {
    a ^ b
  }

  /** One step of the division without a message bit, in reflected order. */
  function Shift(c: bv32): bv32 {
    if LowBit(c) == 1 then Xor(POLYNOMIAL, Half(c)) else Half(c)
  }

  function LowBit(x: bv32): bv32 {
    x & 1
  }

  /** The remainder after one more message bit. */
  function AddBit(crc: bv32, x: bv32): bv32 {
    Shift(Xor(crc, LowBit(x)))
  }

  /** The remainder after the low `k` bits of `x`, lowest first. */
  function AddBits(crc: bv32, x: bv32, k: nat): bv32
    decreases k
  {
    if k == 0 then crc else AddBits(AddBit(crc, x), Half(x), k - 1)
  }

  function ToBits(b: Byte): bv32 {
    b as bv32
  }

  /** The remainder of a message. */
  function Remainder(message: seq<Byte>): bv32 {
    if message == [] then 0xFFFFFFFF
    else AddBits(Remainder(message[..|message| - 1]), ToBits(message[|message| - 1]), 8)
  }

  /** The CRC of a message: the register starts and ends complemented. */
  function Crc(message: seq<Byte>): bv32 {
    Xor(Remainder(message), 0xFFFFFFFF)
  }

  // ---- Linearity ----

  function Shifts(c: bv32, k: nat): bv32
    decreases k
  {
    if k == 0 then c else Shifts(Shift(c), k - 1)
  }

  /** `x` without its low `k` bits. */
  function Halves(x: bv32, k: nat): bv32
    decreases k
  {
    if k == 0 then x else Halves(Half(x), k - 1)
  }

  /** The low `k` bits are zero. */
  predicate LowZero(x: bv32, k: nat)
    decreases k
  {
    k == 0 || (LowBit(x) == 0 && LowZero(Half(x), k - 1))
  }

  /** An addend with a zero low bit goes through a step as a plain shift. */
  lemma ShiftEven(a: bv32, b: bv32)
    requires LowBit(b) == 0
    ensures Shift(Xor(a, b)) == Xor(Shift(a), Half(b))
  {
    hide Xor, Half, LowBit;
    EvenKeepsLowBit(a, b);
    HalfOfXor(a, b);
    XorAssociates(POLYNOMIAL, Half(a), Half(b));
  }

  lemma EvenKeepsLowBit(a: bv32, b: bv32)
    requires LowBit(b) == 0
    ensures LowBit(Xor(a, b)) == LowBit(a)
  {
  }

  lemma HalfOfXor(a: bv32, b: bv32)
    ensures Half(Xor(a, b)) == Xor(Half(a), Half(b))
  {
  }

  lemma XorAssociates(a: bv32, b: bv32, c: bv32)
    ensures Xor(a, Xor(b, c)) == Xor(Xor(a, b), c)
  {
  }

  lemma LowBitApart(crc: bv32, x: bv32)
    ensures Xor(crc, x) == Xor(Xor(crc, LowBit(x)), Xor(x, LowBit(x)))
  {
  }

  lemma WithoutLowBit(x: bv32)
    ensures LowBit(Xor(x, LowBit(x))) == 0 && Half(Xor(x, LowBit(x))) == Half(x)
  {
  }

  lemma XorZero(a: bv32)
    ensures Xor(a, 0) == a
  {
  }

  lemma SplitLowBit(crc: bv32, x: bv32)
    ensures Shift(Xor(crc, x)) == Xor(AddBit(crc, x), Half(x))
  {
    hide Shift, Xor, LowBit, Half;
    LowBitApart(crc, x);
    WithoutLowBit(x);
    ShiftEven(Xor(crc, LowBit(x)), Xor(x, LowBit(x)));
  }

  /** Adding bits one at a time is adding them all and then shifting, if there are no further bits. */
  lemma {:induction false} AddAllThenShift(crc: bv32, x: bv32, k: nat)
    requires Halves(x, k) == 0
    ensures AddBits(crc, x, k) == Shifts(Xor(crc, x), k)
    decreases k
  {
    hide Shift, Xor, LowBit, Half, AddBit;
    if k == 0 {
      XorZero(crc);
    } else {
      SplitLowBit(crc, x);
      AddAllThenShift(AddBit(crc, x), Half(x), k - 1);
    }
  }

  /** An addend with `k` zero low bits goes through `k` steps as a plain shift. */
  lemma {:induction false} ShiftsHigh(a: bv32, b: bv32, k: nat)
    requires LowZero(b, k)
    ensures Shifts(Xor(a, b), k) == Xor(Shifts(a, k), Halves(b, k))
    decreases k
  {
    hide Shift, Xor, LowBit, Half;
    if k > 0 {
      ShiftEven(a, b);
      ShiftsHigh(Shift(a), Half(b), k - 1);
    }
  }

  // ---- Bytes ----

  function LowByte(x: bv32): bv32 {
    x & 0xFF
  }

  function HighBytes(x: bv32): bv32 {
    x >> 8
  }

  lemma HalvesStep(x: bv32, k: nat)
    ensures Halves(x, k + 1) == Halves(Half(x), k) && (LowZero(x, k + 1) <==> LowBit(x) == 0 && LowZero(Half(x), k))
  {
  }

  function Half8(x: bv32): bv32 {
    Half(Half(Half(Half(Half(Half(Half(Half(x))))))))
  }

  lemma {:induction false} HalvesEight(x: bv32)
    ensures Halves(x, 8) == Half8(x)
  {
    hide Half, LowBit, Halves;
    HalvesStep(x, 7);
    HalvesStep(Half(x), 6);
    HalvesStep(Half(Half(x)), 5);
    HalvesStep(Half(Half(Half(x))), 4);
    HalvesStep(Half(Half(Half(Half(x)))), 3);
    HalvesStep(Half(Half(Half(Half(Half(x))))), 2);
    HalvesStep(Half(Half(Half(Half(Half(Half(x)))))), 1);
    HalvesStep(Half(Half(Half(Half(Half(Half(Half(x))))))), 0);
    HalvesNone(Half8(x));
  }

  lemma HalvesNone(x: bv32)
    ensures Halves(x, 0) == x && LowZero(x, 0)
  {
  }

  lemma HalvesAreShift(x: bv32)
    ensures Half8(x) == HighBytes(x)
  {
  }

  lemma {:induction false} LowZeroEight(x: bv32)
    requires LowByte(x) == 0
    ensures LowZero(x, 8)
  {
    hide Half, LowBit, LowZero, LowByte;
    LowBits(x);
    HalvesStep(x, 7);
    HalvesStep(Half(x), 6);
    HalvesStep(Half(Half(x)), 5);
    HalvesStep(Half(Half(Half(x))), 4);
    HalvesStep(Half(Half(Half(Half(x)))), 3);
    HalvesStep(Half(Half(Half(Half(Half(x))))), 2);
    HalvesStep(Half(Half(Half(Half(Half(Half(x)))))), 1);
    HalvesStep(Half(Half(Half(Half(Half(Half(Half(x))))))), 0);
    HalvesNone(Half8(x));
  }

  lemma LowBits(x: bv32)
    requires LowByte(x) == 0
    ensures LowBit(x) == 0 && LowBit(Half(x)) == 0 && LowBit(Half(Half(x))) == 0 && LowBit(Half(Half(Half(x)))) == 0
    ensures LowBit(Half(Half(Half(Half(x))))) == 0 && LowBit(Half(Half(Half(Half(Half(x)))))) == 0
    ensures LowBit(Half(Half(Half(Half(Half(Half(x))))))) == 0
    ensures LowBit(Half(Half(Half(Half(Half(Half(Half(x)))))))) == 0
  {
  }

  /** Eight steps: the low byte goes through them, the others are shifted. */
  lemma ShiftsEight(c: bv32)
    ensures Shifts(c, 8) == Xor(Shifts(LowByte(c), 8), HighBytes(c))
  {
    hide Shifts, Half, LowByte, HighBytes, Half8, Xor;
    var high := Xor(c, LowByte(c));
    ApartBytes(c);
    LowZeroEight(high);
    ShiftsHigh(LowByte(c), high, 8);
    HalvesEight(high);
    HalvesAreShift(high);
  }

  lemma ApartBytes(c: bv32)
    ensures var high := Xor(c, LowByte(c));
            c == Xor(LowByte(c), high) && LowByte(high) == 0 && HighBytes(high) == HighBytes(c)
  {
  }

  lemma ByteIsSmall(b: Byte)
    ensures HighBytes(ToBits(b)) == 0
  {
  }

  // ---- The table ----

  lemma BackAndForth(x: bv32)
    ensures (x as nat) as bv32 == x
  {
  }

  lemma SmallIndex(x: bv32)
    requires x < 256
    ensures x as nat < 256
  {
  }

  lemma LowByteIsSmall(x: bv32)
    ensures LowByte(x) < 256
  {
  }

  /** Index into the table. */
  function Index(x: bv32): (i: nat)
    ensures i < 256
  {
    hide LowByte;
    LowByteIsSmall(x);
    SmallIndex(LowByte(x));
    LowByte(x) as nat
  }

  lemma IndexIsLowByte(x: bv32)
    ensures ToBits(Index(x)) == LowByte(x)
  {
    hide LowByte;
    BackAndForth(LowByte(x));
  }

  ghost predicate TableOk(table: seq<bv32>) {
    |table| == 256 && forall i :: 0 <= i < 256 ==> table[i] == Shifts(ToBits(i), 8)
  }

  /** One round of crc32_compute is the division by eight more bits of the message. */
  lemma TableStep(table: seq<bv32>, crc: bv32, b: Byte)
    requires TableOk(table)
    ensures Xor(table[Index(Xor(crc, ToBits(b)))], HighBytes(crc)) == AddBits(crc, ToBits(b), 8)
  {
    hide Shifts, Xor, LowByte, HighBytes, ToBits, Index, Half8, AddBits;
    var x, c := ToBits(b), Xor(crc, ToBits(b));
    ByteIsSmall(b);
    HalvesEight(x);
    HalvesAreShift(x);
    AddAllThenShift(crc, x, 8);
    ShiftsEight(c);
    IndexIsLowByte(c);
    HighOfXor(crc, x);
    XorZero(HighBytes(crc));
  }

  lemma HighOfXor(a: bv32, b: bv32)
    ensures HighBytes(Xor(a, b)) == Xor(HighBytes(a), HighBytes(b))
  {
  }

  /** crc32_init_table. */
  method InitTable(table: array<bv32>)
    requires table.Length == 256
    modifies table
    ensures TableOk(table[..])
  {
    hide Shifts, ToBits;
    var i := 0;
    while i < 256
      invariant 0 <= i <= 256 && forall k :: 0 <= k < i ==> table[k] == Shifts(ToBits(k), 8)
    {
      table[i] := TableEntry(i);
      i := i + 1;
    }
  }

  /** The inner loop of the table: eight steps. */
  method TableEntry(i: Byte) returns (c: bv32)
    ensures c == Shifts(ToBits(i), 8)
  {
    hide Shift, ToBits, LowBit, Half, Xor;
    c := ToBits(i);
    var j := 0;
    while j < 8
      invariant 0 <= j <= 8 && Shifts(c, 8 - j) == Shifts(ToBits(i), 8)
    {
      ShiftCases(c);
      if LowBit(c) == 1 {
        c := Xor(POLYNOMIAL, Half(c));
      } else {
        c := Half(c);
      }
      j := j + 1;
    }
  }

  lemma ShiftCases(c: bv32)
    ensures Shift(c) == if LowBit(c) == 1 then Xor(POLYNOMIAL, Half(c)) else Half(c)
  {
  }

  /** crc32_compute: for every message, the table-driven result is the CRC. */
  method Compute(data: seq<Byte>) returns (crc: bv32)
    ensures crc == Crc(data)
  {
    hide Shifts, Xor, LowByte, HighBytes, ToBits, Index, AddBits;
    var table := new bv32[256];
    InitTable(table);
    crc := 0xFFFFFFFF;
    var i := 0;
    while i < |data|
      invariant 0 <= i <= |data| && TableOk(table[..]) && crc == Remainder(data[..i])
    {
      assert data[..i + 1][..i] == data[..i];
      TableStep(table[..], crc, data[i]);
      crc := Xor(table[Index(Xor(crc, ToBits(data[i])))], HighBytes(crc));
      i := i + 1;
    }
    assert data[..i] == data;
    crc := Xor(crc, 0xFFFFFFFF);
  }

  // ---- The polynomial and the check value ----

  /** The bit of x^e in reflected order. */
  function Term(e: nat): bv32
    requires e < 32
  {
    1 << (31 - e)
  }

  /** x^32 + x^26 + x^23 + x^22 + x^16 + x^12 + x^11 + x^10 + x^8 + x^7 + x^5 + x^4 + x^2 + x + 1, whose highest term is
      not written. */
  lemma PolynomialIs()
    ensures POLYNOMIAL == Term(26) | Term(23) | Term(22) | Term(16) | Term(12) | Term(11) | Term(10) |
                          Term(8) | Term(7) | Term(5) | Term(4) | Term(2) | Term(1) | Term(0)
  {
  }

  lemma NextRemainder(message: seq<Byte>, b: Byte)
    ensures Remainder(message + [b]) == AddBits(Remainder(message), ToBits(b), 8)
  {
    hide AddBits;
    assert (message + [b])[..|message|] == message;
  }

  lemma Digit1()
    ensures AddBits(0xffffffff, 49, 8) == 0x7c231048
  {
  }

  lemma Digit2()
    ensures AddBits(0x7c231048, 50, 8) == 0xb0acbb32
  {
  }

  lemma Digit3()
    ensures AddBits(0xb0acbb32, 51, 8) == 0x77b79c2d
  {
  }

  lemma Digit4()
    ensures AddBits(0x77b79c2d, 52, 8) == 0x641c1f5c
  {
  }

  lemma Digit5()
    ensures AddBits(0x641c1f5c, 53, 8) == 0x340ac5e3
  {
  }

  lemma Digit6()
    ensures AddBits(0x340ac5e3, 54, 8) == 0xf68d2c9e
  {
  }

  lemma Digit7()
    ensures AddBits(0xf68d2c9e, 55, 8) == 0xaffc9660
  {
  }

  lemma Digit8()
    ensures AddBits(0xaffc9660, 56, 8) == 0x651f2550
  {
  }

  lemma Digit9()
    ensures AddBits(0x651f2550, 57, 8) == 0x340bc6d9
  {
  }

  /** The check value: the CRC of the characters 1 to 9. */
  lemma CheckValue()
    ensures Crc([49, 50, 51, 52, 53, 54, 55, 56, 57]) == 0xCBF43926
  {
    hide AddBits, Remainder;
    NoMessage();
    NextRemainder([], 49);
    Digit1();
    assert [] + [49] == [49];
    NextRemainder([49], 50);
    Digit2();
    assert [49] + [50] == [49, 50];
    NextRemainder([49, 50], 51);
    Digit3();
    assert [49, 50] + [51] == [49, 50, 51];
    NextRemainder([49, 50, 51], 52);
    Digit4();
    assert [49, 50, 51] + [52] == [49, 50, 51, 52];
    NextRemainder([49, 50, 51, 52], 53);
    Digit5();
    assert [49, 50, 51, 52] + [53] == [49, 50, 51, 52, 53];
    NextRemainder([49, 50, 51, 52, 53], 54);
    Digit6();
    assert [49, 50, 51, 52, 53] + [54] == [49, 50, 51, 52, 53, 54];
    NextRemainder([49, 50, 51, 52, 53, 54], 55);
    Digit7();
    assert [49, 50, 51, 52, 53, 54] + [55] == [49, 50, 51, 52, 53, 54, 55];
    NextRemainder([49, 50, 51, 52, 53, 54, 55], 56);
    Digit8();
    assert [49, 50, 51, 52, 53, 54, 55] + [56] == [49, 50, 51, 52, 53, 54, 55, 56];
    NextRemainder([49, 50, 51, 52, 53, 54, 55, 56], 57);
    Digit9();
    assert [49, 50, 51, 52, 53, 54, 55, 56] + [57] == [49, 50, 51, 52, 53, 54, 55, 56, 57];
  }

  lemma NoMessage()
    ensures Remainder([]) == 0xFFFFFFFF
  {
  }
}
