/** The value of a Content-Length field: what number the digits of a text make, what a list of numbers says, and when
    the loop of src/http_parser.c reads that number. */
module ContentLength {
  import opened Bytes
  import opened Http

  // ---- Numbers ----

  predicate IsDigit(c: Byte) {
    48 <= c <= 57
  }

  /** The digits of a text, without everything between them. */
  function OnlyDigits(s: seq<Byte>): (r: seq<Byte>)
    ensures forall i :: 0 <= i < |r| ==> IsDigit(r[i])
  {
    if s == [] then [] else OnlyDigits(s[..|s| - 1]) + if IsDigit(s[|s| - 1]) then [s[|s| - 1]] else []
  }

  function DigitValue(c: Byte): nat {
    if IsDigit(c) then c - 48 else 0
  }

  /** A digit in place n, counted from the right. */
  function InPlace(d: nat, n: nat): nat {
    if n == 0 then d else 10 * InPlace(d, n - 1)
  }

  /** The decimal number that digits stand for, without bound: each by its place. */
  function Decimal(s: seq<Byte>): nat
    requires forall i :: 0 <= i < |s| ==> IsDigit(s[i])
  {
    if s == [] then 0 else InPlace(DigitValue(s[0]), |s| - 1) + Decimal(s[1..])
  }

  /** 1*DIGIT, the form of a valid value. */
  predicate IsNumber(s: seq<Byte>) {
    s != [] && forall i :: 0 <= i < |s| ==> IsDigit(s[i])
  }

  lemma {:induction false} DecimalSnoc(s: seq<Byte>, c: Byte)
    requires IsDigit(c) && forall i :: 0 <= i < |s| ==> IsDigit(s[i])
    ensures Decimal(s + [c]) == 10 * Decimal(s) + (c - 48)
    decreases |s|
  {
    if s == [] {
      assert [c][1..] == [] && s + [c] == [c];
    } else {
      assert (s + [c])[0] == s[0] && (s + [c])[1..] == s[1..] + [c];
      DecimalSnoc(s[1..], c);
    }
  }

  lemma ModStep(n: nat, d: nat)
    ensures (n % TWO_64 * 10 + d) % TWO_64 == (10 * n + d) % TWO_64
  {
    var q := n / TWO_64;
    assert 10 * n + d == n % TWO_64 * 10 + d + (10 * q) * TWO_64;
    DropMultiple(n % TWO_64 * 10 + d, 10 * q);
  }

  lemma DropMultiple(a: nat, k: nat)
    ensures (a + k * TWO_64) % TWO_64 == a % TWO_64
  {
    var m, r := a / TWO_64, a % TWO_64;
    assert a + k * TWO_64 == r + (m + k) * TWO_64;
    assert (r + (m + k) * TWO_64) / TWO_64 == m + k;
  }

  /** Whatever the text of a Content-Length is, it is read as the number its digits make, modulo 2^64. */
  lemma {:induction false} LengthMeaning(s: seq<Byte>)
    ensures LengthValue(s) == Decimal(OnlyDigits(s)) % TWO_64
    decreases |s|
  {
    hide Decimal;
    if s == [] {
      NoDigits();
    } else {
      var t, c := s[..|s| - 1], s[|s| - 1];
      LengthMeaning(t);
      if IsDigit(c) {
        DecimalSnoc(OnlyDigits(t), c);
        ModStep(Decimal(OnlyDigits(t)), c - 48);
      } else {
        assert OnlyDigits(s) == OnlyDigits(t);
      }
    }
  }

  lemma NoDigits()
    ensures Decimal([]) == 0 && OnlyDigits([]) == []
  {
  }

  lemma {:induction false} DigitsOfNumber(s: seq<Byte>)
    requires forall i :: 0 <= i < |s| ==> IsDigit(s[i])
    ensures OnlyDigits(s) == s
    decreases |s|
  {
    if s != [] { DigitsOfNumber(s[..|s| - 1]); }
  }

  /** A valid value is read as the number it stands for exactly if that number is below 2^64. */
  lemma NumberReadIff(s: seq<Byte>)
    requires IsNumber(s)
    ensures LengthValue(s) == Decimal(s) <==> Decimal(s) < TWO_64
  {
    hide Decimal, LengthValue, OnlyDigits;
    LengthMeaning(s);
    DigitsOfNumber(s);
  }

  // ---- List members ----

  const COMMA: Byte := 44
  const TAB: Byte := 9

  predicate IsBlank(c: Byte) {
    c == SPACE || c == TAB
  }

  function TrimLeft(s: seq<Byte>): seq<Byte> {
    if s != [] && IsBlank(s[0]) then TrimLeft(s[1..]) else s
  }

  function TrimRight(s: seq<Byte>): seq<Byte> {
    if s != [] && IsBlank(s[|s| - 1]) then TrimRight(s[..|s| - 1]) else s
  }

  /** The text without the blanks around it. */
  function Trim(s: seq<Byte>): seq<Byte> {
    TrimRight(TrimLeft(s))
  }

  /** What stands between the commas. */
  function Pieces(s: seq<Byte>): (r: seq<seq<Byte>>)
    ensures r != []
  {
    if s == [] then [[]]
    else
      var before, c := Pieces(s[..|s| - 1]), s[|s| - 1];
      if c == COMMA then before + [[]] else before[..|before| - 1] + [before[|before| - 1] + [c]]
  }

  /** The elements of a list: what stands between commas, without the blanks around it; empty ones do not count. */
  function Elements(pieces: seq<seq<Byte>>): seq<seq<Byte>> {
    if pieces == [] then []
    else
      var last := Trim(pieces[|pieces| - 1]);
      Elements(pieces[..|pieces| - 1]) + if last == [] then [] else [last]
  }

  function Members(field: seq<Byte>): seq<seq<Byte>> {
    Elements(Pieces(field))
  }

  /** The elements of several fields, which stand for one list. */
  function AllMembers(fields: seq<seq<Byte>>): seq<seq<Byte>> {
    if fields == [] then [] else AllMembers(fields[..|fields| - 1]) + Members(fields[|fields| - 1])
  }

  predicate AllSay(members: seq<seq<Byte>>, n: nat) {
    forall i :: 0 <= i < |members| ==> IsNumber(members[i]) && Decimal(members[i]) == n
  }

  // ---- What the digits of a list make ----

  function Concat(members: seq<seq<Byte>>): seq<Byte> {
    if members == [] then [] else Concat(members[..|members| - 1]) + members[|members| - 1]
  }

  lemma {:induction false} DigitsConcat(a: seq<Byte>, b: seq<Byte>)
    ensures OnlyDigits(a + b) == OnlyDigits(a) + OnlyDigits(b)
    decreases |b|
  {
    if b == [] {
      assert a + b == a;
    } else {
      assert (a + b)[..|a + b| - 1] == a + b[..|b| - 1];
      DigitsConcat(a, b[..|b| - 1]);
    }
  }

  lemma TrimKeepsDigits(s: seq<Byte>)
    ensures OnlyDigits(Trim(s)) == OnlyDigits(s)
  {
    TrimLeftKeepsDigits(s);
    TrimRightKeepsDigits(TrimLeft(s));
  }

  lemma {:induction false} TrimLeftKeepsDigits(s: seq<Byte>)
    ensures OnlyDigits(TrimLeft(s)) == OnlyDigits(s)
    decreases |s|
  {
    hide OnlyDigits;
    if s != [] && IsBlank(s[0]) {
      TrimLeftKeepsDigits(s[1..]);
      assert s == [s[0]] + s[1..];
      DigitsConcat([s[0]], s[1..]);
      NoDigit(s[0]);
    }
  }

  lemma NoDigit(c: Byte)
    requires !IsDigit(c)
    ensures OnlyDigits([c]) == []
  {
    assert [c][..0] == [];
  }

  lemma {:induction false} TrimRightKeepsDigits(s: seq<Byte>)
    ensures OnlyDigits(TrimRight(s)) == OnlyDigits(s)
    decreases |s|
  {
    if s != [] && IsBlank(s[|s| - 1]) { TrimRightKeepsDigits(s[..|s| - 1]); }
  }

  /** The digits of every piece, one after the other. */
  function PieceDigits(pieces: seq<seq<Byte>>): seq<Byte> {
    if pieces == [] then [] else PieceDigits(pieces[..|pieces| - 1]) + OnlyDigits(pieces[|pieces| - 1])
  }

  lemma {:induction false} DigitsOfPieces(s: seq<Byte>)
    ensures OnlyDigits(s) == PieceDigits(Pieces(s))
    decreases |s|
  {
    if s == [] {
      var one: seq<seq<Byte>> := [[]];
      assert one[..0] == [] && PieceDigits([]) == [];
    } else {
      var t, c := s[..|s| - 1], s[|s| - 1];
      DigitsOfPieces(t);
      var before := Pieces(t);
      var n := |before| - 1;
      if c == COMMA {
        assert Pieces(s)[..|before|] == before;
      } else {
        assert Pieces(s)[..n] == before[..n];
        DigitsConcat(before[n], [c]);
        assert [c][..0] == [];
        assert [] + OnlyDigits([c]) == OnlyDigits([c]);
      }
    }
  }

  /** When every element is a number, the digits of a field are its elements, one after the other. */
  lemma {:induction false} DigitsOfElements(pieces: seq<seq<Byte>>)
    requires forall i :: 0 <= i < |Elements(pieces)| ==> IsNumber(Elements(pieces)[i])
    ensures PieceDigits(pieces) == Concat(Elements(pieces))
    decreases |pieces|
  {
    hide OnlyDigits, TrimLeft, TrimRight;
    if pieces != [] {
      var init, last := pieces[..|pieces| - 1], Trim(pieces[|pieces| - 1]);
      var all, before := Elements(pieces), Elements(init);
      assert forall i :: 0 <= i < |before| ==> before[i] == all[i];
      DigitsOfElements(init);
      TrimKeepsDigits(pieces[|pieces| - 1]);
      if last == [] {
        NoDigits();
        assert all == before && PieceDigits(init) + [] == PieceDigits(init);
      } else {
        assert all[|before|] == last;
        DigitsOfNumber(last);
        assert all[..|before|] == before;
      }
    }
  }

  /** 10 to the n. */
  function Power(n: nat): (p: nat)
    ensures p > 0
  {
    if n == 0 then 1 else 10 * Power(n - 1)
  }

  lemma {:induction false} DecimalConcat(a: seq<Byte>, b: seq<Byte>)
    requires (forall i :: 0 <= i < |a| ==> IsDigit(a[i])) && (forall i :: 0 <= i < |b| ==> IsDigit(b[i]))
    ensures Decimal(a + b) == Decimal(a) * Power(|b|) + Decimal(b)
    decreases |b|
  {
    hide Decimal;
    if b == [] {
      assert a + b == a;
      NoDigits();
    } else {
      var init, c := b[..|b| - 1], b[|b| - 1];
      assert a + b == a + init + [c] && b == init + [c];
      DecimalConcat(a, init);
      DecimalSnoc(a + init, c);
      DecimalSnoc(init, c);
      assert Decimal(a) * (10 * Power(|init|)) == 10 * (Decimal(a) * Power(|init|));
    }
  }

  lemma PowerIsEven(n: nat)
    requires n > 0
    ensures Power(n) % 2 == 0
  {
  }

  lemma EvenTimes(a: nat, b: nat)
    requires b % 2 == 0
    ensures a * b % 2 == 0
  {
    assert a * b == 2 * (a * (b / 2));
  }

  lemma ConcatSnoc(members: seq<seq<Byte>>, n: nat)
    requires members != [] && AllSay(members, n)
    ensures var init, last := members[..|members| - 1], members[|members| - 1];
            && AllSay(init, n) && IsNumber(last) && Decimal(last) == n
            && (forall i :: 0 <= i < |Concat(init)| ==> IsDigit(Concat(init)[i]))
            && (forall i :: 0 <= i < |Concat(members)| ==> IsDigit(Concat(members)[i]))
            && Decimal(Concat(members)) == Decimal(Concat(init)) * Power(|last|) + n
  {
    hide Decimal, Power;
    var init, last := members[..|members| - 1], members[|members| - 1];
    ConcatDigits(init, n);
    DecimalConcat(Concat(init), last);
  }

  lemma {:induction false} ConcatDigits(members: seq<seq<Byte>>, n: nat)
    requires AllSay(members, n)
    ensures forall i :: 0 <= i < |Concat(members)| ==> IsDigit(Concat(members)[i])
    decreases |members|
  {
    hide Decimal;
    if members != [] { ConcatDigits(members[..|members| - 1], n); }
  }

  /** The elements of a list of one number, written one after the other, make an odd multiple of it. */
  lemma {:induction false} OddMultiple(members: seq<seq<Byte>>, n: nat) returns (q: nat)
    requires members != [] && AllSay(members, n)
    ensures forall i :: 0 <= i < |Concat(members)| ==> IsDigit(Concat(members)[i])
    ensures q % 2 == 1 && Decimal(Concat(members)) == n * q
    decreases |members|
  {
    hide Decimal, Power, Concat;
    var init, last := members[..|members| - 1], members[|members| - 1];
    ConcatSnoc(members, n);
    if init == [] {
      NoConcat();
      q := 1;
    } else {
      var r := OddMultiple(init, n);
      PowerIsEven(|last|);
      EvenTimes(r, Power(|last|));
      q := r * Power(|last|) + 1;
      assert n * r * Power(|last|) + n == n * (r * Power(|last|) + 1);
    }
  }

  lemma NoConcat()
    ensures Concat([]) == [] && Decimal([]) == 0
  {
  }

  /** 2 to the k. */
  function Two(k: nat): (p: nat)
    ensures p > 0
  {
    if k == 0 then 1 else 2 * Two(k - 1)
  }

  /** An odd factor makes nothing a multiple of a power of two. */
  lemma {:induction false} OddFactor(a: nat, q: nat, k: nat)
    requires q % 2 == 1
    ensures a * q % Two(k) == 0 <==> a % Two(k) == 0
    decreases k
  {
    if k > 0 {
      if a % 2 == 0 {
        OddFactor(a / 2, q, k - 1);
        assert a * q == 2 * (a / 2 * q);
        DoubleBoth(a / 2 * q, Two(k - 1));
        DoubleBoth(a / 2, Two(k - 1));
      } else {
        OddTimesOdd(a, q);
        OddIsNoMultiple(a, Two(k - 1));
        OddIsNoMultiple(a * q, Two(k - 1));
      }
    }
  }

  lemma DoubleBoth(x: nat, y: nat)
    requires y > 0
    ensures 2 * x % (2 * y) == 2 * (x % y)
  {
    var d, r := x / y, x % y;
    assert x == y * d + r;
    assert 2 * x == 2 * y * d + 2 * r;
    QuotientIs(2 * x, 2 * y, d, 2 * r);
  }

  lemma QuotientIs(a: nat, b: nat, d: nat, r: nat)
    requires b > 0 && r < b && a == b * d + r
    ensures a % b == r
  {
    var e := a / b;
    assert a == b * e + a % b;
    assert e < d ==> b * (e + 1) <= b * d;
    assert e > d ==> b * (d + 1) <= b * e;
  }

  lemma OddTimesOdd(a: nat, b: nat)
    requires a % 2 == 1 && b % 2 == 1
    ensures a * b % 2 == 1
  {
    EvenTimes(b, a - 1);
    assert a * b == b * (a - 1) + b;
  }

  lemma OddIsNoMultiple(a: nat, y: nat)
    requires a % 2 == 1 && y > 0
    ensures a % (2 * y) != 0
  {
    var d := a / (2 * y);
    assert a == 2 * (y * d) + a % (2 * y);
  }

  lemma Two64()
    ensures Two(64) == TWO_64
  {
    assert Two(4) == 16;
    TwoSum(4, 4);
    TwoSum(8, 8);
    TwoSum(16, 16);
    TwoSum(32, 32);
  }

  lemma {:induction false} TwoSum(a: nat, b: nat)
    ensures Two(a + b) == Two(a) * Two(b)
    decreases b
  {
    if b > 0 { TwoSum(a, b - 1); }
  }

  lemma SumReads(a: nat, n: nat)
    ensures (a + n) % TWO_64 == n <==> n < TWO_64 && a % TWO_64 == 0
  {
    if n < TWO_64 {
      var d, r := a / TWO_64, a % TWO_64;
      assert a + n == r + n + d * TWO_64;
      DropMultiple(r + n, d);
    }
  }

  // ---- How a field is read ----

  /** A field whose elements all say n: one element is read right below 2^64; several are written one after the other,
      which changes the number unless it is 0, or so many zeros stand in front of the last one that what comes before
      it is lost modulo 2^64; none is read as 0. */
  predicate ReadRight(field: seq<Byte>, n: nat) {
    var members := Members(field);
    if members == [] then n == 0
    else n < TWO_64 && (|members| == 1 || n * Power(|members[|members| - 1]|) % TWO_64 == 0)
  }

  lemma FieldDigits(field: seq<Byte>, n: nat)
    requires AllSay(Members(field), n)
    ensures OnlyDigits(field) == Concat(Members(field))
  {
    hide Decimal, Pieces, Elements;
    DigitsOfPieces(field);
    DigitsOfElements(Pieces(field));
  }

  lemma FieldReadIff(field: seq<Byte>, n: nat)
    requires AllSay(Members(field), n)
    ensures LengthValue(field) == n <==> ReadRight(field, n)
    ensures |Members(field)| == 1 ==> LengthValue(field) == n % TWO_64
  {
    hide Decimal, OnlyDigits, LengthValue, Members, Power, Concat, Two;
    var members := Members(field);
    LengthMeaning(field);
    FieldDigits(field, n);
    NoConcat();
    if members != [] {
      var init, last := members[..|members| - 1], members[|members| - 1];
      ConcatSnoc(members, n);
      if init != [] {
        var q := OddMultiple(init, n);
        SumReads(Decimal(Concat(init)) * Power(|last|), n);
        assert Decimal(Concat(init)) * Power(|last|) == n * Power(|last|) * q;
        OddFactor(n * Power(|last|), q, 64);
        Two64();
      }
    }
  }
}
