/** What follows a JSON value (src/stdlib_json.c): json.decode reads the shortest front of its input that is a value, or
    the longest if that is a number, and nothing behind it has any influence. */
module JsonTrailing {
  import opened Bytes
  import opened JsonText

  predicate EndsWith(s: seq<Byte>, t: seq<Byte>) {
    |t| <= |s| && s[|s| - |t|..] == t
  }

  /** s without its last |t| bytes. */
  function Front(s: seq<Byte>, t: seq<Byte>): (r: seq<Byte>)
    requires |t| <= |s|
    ensures EndsWith(s, t) ==> s == r + t
  {
    s[..|s| - |t|]
  }

  /** What stopped in front of x stops in front of y. */
  predicate Stops(x: seq<Byte>, y: seq<Byte>) {
    y == [] || (x != [] && x[0] == y[0])
  }

  lemma StopsLater(b: seq<Byte>, x: seq<Byte>, y: seq<Byte>)
    requires EndsWith(b, x) && (Stops(x, y) || |b| > |x|)
    ensures Stops(b, Front(b, x) + y)
  {
  }

  lemma FrontsJoin(s: seq<Byte>, t: seq<Byte>, x: seq<Byte>, y: seq<Byte>)
    requires EndsWith(s, t) && EndsWith(t, x)
    ensures EndsWith(s, x) && Front(s, t) + (Front(t, x) + y) == Front(s, x) + y
  {
  }

  /** The first byte of s, when x is an end of what follows it. */
  lemma FirstByte(s: seq<Byte>, x: seq<Byte>, y: seq<Byte>)
    requires s != [] && EndsWith(s[1..], x)
    ensures EndsWith(s, x)
    ensures var t := Front(s, x) + y;
            t != [] && t[0] == s[0] && t[1..] == Front(s[1..], x) + y
  {
    assert s == [s[0]] + s[1..];
  }

  lemma NothingInFront(s: seq<Byte>, y: seq<Byte>)
    ensures EndsWith(s, s) && Front(s, s) + y == y
  {
  }

  // ---- Numbers ----

  lemma {:induction false} DigitsLocal(s: seq<Byte>, y: seq<Byte>)
    requires Stops(SkipDigits(s), y)
    ensures EndsWith(s, SkipDigits(s)) && SkipDigits(Front(s, SkipDigits(s)) + y) == y
    decreases |s|
  {
    hide EndsWith, Front;
    if s != [] && IsDigit(s[0]) {
      DigitsLocal(s[1..], y);
      FirstByte(s, SkipDigits(s), y);
    } else {
      NothingInFront(s, y);
    }
  }

  lemma FractionLocal(s: seq<Byte>, y: seq<Byte>)
    requires Stops(SkipFraction(s), y)
    ensures EndsWith(s, SkipFraction(s)) && SkipFraction(Front(s, SkipFraction(s)) + y) == y
  {
    hide EndsWith, Front, SkipDigits;
    if s != [] && s[0] == DOT {
      DigitsLocal(s[1..], y);
      FirstByte(s, SkipFraction(s), y);
    } else {
      NothingInFront(s, y);
    }
  }

  function SkipSign(s: seq<Byte>): seq<Byte> {
    if s != [] && (s[0] == PLUS || s[0] == MINUS) then s[1..] else s
  }

  lemma SignLocal(s: seq<Byte>, x: seq<Byte>, y: seq<Byte>)
    requires EndsWith(SkipSign(s), x) && Stops(x, y)
    ensures EndsWith(s, x) && SkipSign(Front(s, x) + y) == Front(SkipSign(s), x) + y
  {
    hide EndsWith, Front;
    if SkipSign(s) != s {
      FirstByte(s, x, y);
    } else {
      StopsLater(s, x, y);
    }
  }

  lemma ExponentLocal(s: seq<Byte>, y: seq<Byte>)
    requires Stops(SkipExponent(s), y)
    ensures EndsWith(s, SkipExponent(s)) && SkipExponent(Front(s, SkipExponent(s)) + y) == y
  {
    hide EndsWith, Front, SkipDigits;
    var x := SkipExponent(s);
    if s != [] && (s[0] == LOWER_E || s[0] == BIG_E) {
      DigitsLocal(SkipSign(s[1..]), y);
      SignLocal(s[1..], x, y);
      FirstByte(s, x, y);
    } else {
      NothingInFront(s, y);
    }
  }

  /** A number starts with a minus or a digit. */
  lemma MinusLocal(s: seq<Byte>, x: seq<Byte>, y: seq<Byte>)
    requires s != [] && (s[0] == MINUS || |SkipMinus(s)| > |x|)
    requires EndsWith(SkipMinus(s), x)
    ensures EndsWith(s, x) && SkipMinus(Front(s, x) + y) == Front(SkipMinus(s), x) + y
  {
    hide EndsWith, Front;
    if s[0] == MINUS {
      FirstByte(s, x, y);
    } else {
      StopsLater(s, x, y);
    }
  }

  /** The text of a number is the same in front of anything that stops it. */
  lemma NumberLocal(f: Floats, s: seq<Byte>, y: seq<Byte>)
    requires ParseNumber(f, s).Ok? && Stops(ParseNumber(f, s).rest, y)
    ensures var r := ParseNumber(f, s);
            EndsWith(s, r.rest) && ParseNumber(f, Front(s, r.rest) + y) == Ok(r.value, y)
  {
    hide SkipDigits, SkipMinus, SkipFraction, SkipExponent, Strtoll;
    var a := SkipMinus(s);
    var b := SkipDigits(a);
    var c := SkipFraction(b);
    var x := SkipExponent(c);
    NumberParts(s, y);
    var t := Front(s, x) + y;
    var n := |s| - |x|;
    assert t[..n] == s[..n];
    assert n >= 64 ==> t[..63] == s[..63];
  }

  lemma NumberParts(s: seq<Byte>, y: seq<Byte>)
    requires s != []
    requires Stops(SkipExponent(SkipFraction(SkipDigits(SkipMinus(s)))), y)
    requires |SkipExponent(SkipFraction(SkipDigits(SkipMinus(s))))| < |s|
    ensures var b := SkipDigits(SkipMinus(s));
            var x := SkipExponent(SkipFraction(b));
            && EndsWith(s, x) && EndsWith(b, x)
            && SkipDigits(SkipMinus(Front(s, x) + y)) == Front(b, x) + y
            && SkipExponent(SkipFraction(Front(b, x) + y)) == y
  {
    hide SkipDigits, SkipFraction, SkipExponent, EndsWith, Front;
    var a := SkipMinus(s);
    var b := SkipDigits(a);
    var c := SkipFraction(b);
    var x := SkipExponent(c);
    ExponentLocal(c, y);
    StopsLater(c, x, y);
    FractionLocal(b, Front(c, x) + y);
    FrontsJoin(b, c, x, y);
    StopsLater(b, x, y);
    DigitsLocal(a, Front(b, x) + y);
    FrontsJoin(a, b, x, y);
    MinusLocal(s, x, y);
  }

  // ---- Strings and blanks ----

  lemma {:induction false} SpaceLocal(s: seq<Byte>, x: seq<Byte>, y: seq<Byte>)
    requires EndsWith(s, x) && |SkipSpace(s)| > |x|
    ensures EndsWith(SkipSpace(s), x) && EndsWith(s, SkipSpace(s))
    ensures SkipSpace(Front(s, x) + y) == Front(SkipSpace(s), x) + y
    decreases |s|
  {
    if IsSpace(s[0]) {
      assert EndsWith(s[1..], x);
      SpaceLocal(s[1..], x, y);
      FirstByte(s, x, y);
      FirstByte(s, SkipSpace(s), y);
    }
  }

  lemma {:induction false} SpaceSuffix(s: seq<Byte>)
    ensures EndsWith(s, SkipSpace(s))
    decreases |s|
  {
    if s != [] && IsSpace(s[0]) {
      SpaceSuffix(s[1..]);
      FirstByte(s, SkipSpace(s), []);
    }
  }

  lemma {:induction false} CharsLocal(s: seq<Byte>, done: seq<Byte>, y: seq<Byte>)
    requires ParseChars(s, done).Ok?
    ensures var r := ParseChars(s, done);
            EndsWith(s, r.rest) && ParseChars(Front(s, r.rest) + y, done) == Ok(r.value, y)
    decreases |s|
  {
    hide Utf8, Unescape, HexValue;
    var r := ParseChars(s, done);
    var k := if s[0] == QUOTE || s[0] != BACKSLASH then 1 else if s[1] != LOWER_U then 2 else 6;
    var t := s[k..];
    if s[0] == QUOTE {
      assert Front(s, r.rest) + y == [QUOTE] + y;
    } else {
      CharsLocal(t, if k == 1 then done + [s[0]] else if k == 2 then done + [Unescape(s[1])]
                    else done + Utf8(Hex4(s[2..])), y);
      CharsFront(s, k, r.rest, y);
    }
  }

  lemma CharsFront(s: seq<Byte>, k: nat, x: seq<Byte>, y: seq<Byte>)
    requires k in {1, 2, 6} && k <= |s| && EndsWith(s[k..], x)
    ensures EndsWith(s, x)
    ensures var t := Front(s, x) + y;
            && |t| >= k && t[..k] == s[..k] && t[k..] == Front(s[k..], x) + y
            && (k == 6 ==> (IsHex4(s[2..]) ==> IsHex4(t[2..]) && Hex4(t[2..]) == Hex4(s[2..])))
            && t[0] == s[0] && (k >= 2 ==> t[1] == s[1])
  {
    hide HexValue;
    var t := Front(s, x) + y;
    assert t[..k] == s[..k];
    assert forall i :: 0 <= i < k ==> t[i] == s[i];
  }
  lemma StringLocal(s: seq<Byte>, y: seq<Byte>)
    requires ParseString(s).Ok?
    ensures var r := ParseString(s);
            EndsWith(s, r.rest) && ParseString(Front(s, r.rest) + y) == Ok(r.value, y)
  {
    hide EndsWith, Front, ParseChars, SkipSpace;
    var inner := SkipSpace(s)[1..];
    CharsLocal(inner, [], y);
    AfterLocal(s, ParseString(s).rest, y);
  }

  /** The first byte that is not blank, when x is an end of what follows it. */
  lemma AfterLocal(s: seq<Byte>, x: seq<Byte>, y: seq<Byte>)
    requires SkipSpace(s) != [] && EndsWith(SkipSpace(s)[1..], x)
    ensures EndsWith(s, x) && Stops(s, Front(s, x) + y)
    ensures var t := SkipSpace(Front(s, x) + y);
            t != [] && t[0] == SkipSpace(s)[0] && t[1..] == Front(SkipSpace(s)[1..], x) + y
  {
    hide SkipSpace;
    SpaceSuffix(s);
    FirstByte(SkipSpace(s), x, y);
    FrontsJoin(s, SkipSpace(s), x, y);
    assert |SkipSpace(s)| > |x|;
    SpaceLocal(s, x, y);
    StopsLater(s, x, y);
  }

  // ---- Values ----

  predicate IsNumber(v: Json) {
    v.Int? || v.Float?
  }

  /** The value in front of x is the value in front of any y, unless it is a number that y would go on with. */
  lemma {:induction false} ValueLocal(f: Floats, s: seq<Byte>, y: seq<Byte>)
    requires ParseValue(f, s).Ok?
    requires IsNumber(ParseValue(f, s).value) ==> Stops(ParseValue(f, s).rest, y)
    ensures var r := ParseValue(f, s);
            EndsWith(s, r.rest) && ParseValue(f, Front(s, r.rest) + y) == Ok(r.value, y)
    decreases |s|, 0
  {
    hide EndsWith, Front, ParseString, ParseNumber, SkipSpace, ParseItems, ParseMembers, Stops;
    var c := SkipSpace(s)[0];
    if c == OPEN_BRACE {
      MapLocal(f, s, y);
    } else if c == OPEN_BRACKET {
      ListLocal(f, s, y);
    } else {
      ScalarLocal(f, s, y);
    }
  }

  lemma ScalarLocal(f: Floats, s: seq<Byte>, y: seq<Byte>)
    requires ParseValue(f, s).Ok?
    requires IsNumber(ParseValue(f, s).value) ==> Stops(ParseValue(f, s).rest, y)
    requires SkipSpace(s)[0] != OPEN_BRACE && SkipSpace(s)[0] != OPEN_BRACKET
    ensures var r := ParseValue(f, s);
            EndsWith(s, r.rest) && ParseValue(f, Front(s, r.rest) + y) == Ok(r.value, y)
  {
    hide EndsWith, Front, ParseString, ParseNumber, SkipSpace, ParseItems, ParseMembers, Match;
    var t, x := SkipSpace(s), ParseValue(f, s).rest;
    if t[0] == QUOTE {
      StringLocal(t, y);
    } else if t[0] == LOWER_T {
      MatchLocal(t, TRUE_TEXT, Bool(true), y);
    } else if t[0] == LOWER_F {
      MatchLocal(t, FALSE_TEXT, Bool(false), y);
    } else if t[0] == LOWER_N {
      MatchLocal(t, NULL_TEXT, Null, y);
    } else {
      NumberIsNumber(f, t);
      NumberLocal(f, t, y);
    }
    assert |x| < |t|;
    TailOf(t, x);
    AfterLocal(s, x, y);
    SameFront(t, x, y);
  }

  lemma NumberIsNumber(f: Floats, s: seq<Byte>)
    ensures ParseNumber(f, s).Ok? ==> IsNumber(ParseNumber(f, s).value)
  {
  }

  lemma MatchLocal(s: seq<Byte>, text: seq<Byte>, v: Json, y: seq<Byte>)
    requires Match(s, text, v).Ok? && text != []
    ensures var r := Match(s, text, v);
            r.value == v && |r.rest| < |s| && EndsWith(s, r.rest) && Match(Front(s, r.rest) + y, text, v) == Ok(v, y)
  {
    assert s == text + s[|text|..];
    assert (text + y)[|text|..] == y;
  }

  lemma TailOf(t: seq<Byte>, x: seq<Byte>)
    requires EndsWith(t, x) && |x| < |t|
    ensures EndsWith(t[1..], x)
  {
  }

  lemma SameFront(t: seq<Byte>, x: seq<Byte>, y: seq<Byte>)
    requires EndsWith(t, x) && |x| < |t|
    ensures EndsWith(t[1..], x)
    ensures forall u: seq<Byte> :: u != [] && u[0] == t[0] && u[1..] == Front(t[1..], x) + y ==> u == Front(t, x) + y
  {
    forall u: seq<Byte> | u != [] && u[0] == t[0] && u[1..] == Front(t[1..], x) + y ensures u == Front(t, x) + y {
      assert u == [u[0]] + u[1..];
    }
  }

  lemma {:induction false} ListLocal(f: Floats, s: seq<Byte>, y: seq<Byte>)
    requires ParseValue(f, s).Ok? && SkipSpace(s)[0] == OPEN_BRACKET
    ensures var r := ParseValue(f, s);
            EndsWith(s, r.rest) && ParseValue(f, Front(s, r.rest) + y) == Ok(r.value, y)
    decreases |s|, 0, 0
  {
    hide EndsWith, Front, SkipSpace, ParseItems, ParseMembers, ParseString, ParseNumber;
    var t, x := SkipSpace(s), ParseValue(f, s).rest;
    var inner := SkipSpace(t[1..]);
    if inner[0] == CLOSE_BRACKET {
      NothingInFront(x, y);
    } else {
      ItemsLocal(f, inner, [], y);
      TailOf(inner, x);
    }
    AfterLocal(t[1..], x, y);
    AfterLocal(s, x, y);
    SameFront(inner, x, y);
  }

  lemma {:induction false} ItemsLocal(f: Floats, s: seq<Byte>, done: seq<Json>, y: seq<Byte>)
    requires ParseItems(f, s, done).Ok?
    ensures var r := ParseItems(f, s, done);
            EndsWith(s, r.rest) && ParseItems(f, Front(s, r.rest) + y, done) == Ok(r.value, y)
    decreases |s|, 1
  {
    hide EndsWith, Front, SkipSpace, ParseItems, ParseValue, Stops;
    ItemsStep(f, s, done);
    var x, v := ParseItems(f, s, done).rest, ParseValue(f, s);
    var next := SkipSpace(v.rest)[1..];
    if SkipSpace(v.rest)[0] == CLOSE_BRACKET {
      NothingInFront(x, y);
    } else {
      ItemsLocal(f, next, done + [v.value], y);
    }
    AfterLocal(v.rest, x, y);
    ValueLocal(f, s, Front(v.rest, x) + y);
    FrontsJoin(s, v.rest, x, y);
    ItemsStep(f, Front(s, x) + y, done);
  }

  lemma {:induction false} MapLocal(f: Floats, s: seq<Byte>, y: seq<Byte>)
    requires ParseValue(f, s).Ok? && SkipSpace(s)[0] == OPEN_BRACE
    ensures var r := ParseValue(f, s);
            EndsWith(s, r.rest) && ParseValue(f, Front(s, r.rest) + y) == Ok(r.value, y)
    decreases |s|, 0, 0
  {
    hide EndsWith, Front, SkipSpace, ParseItems, ParseMembers, ParseString, ParseNumber;
    var t, x := SkipSpace(s), ParseValue(f, s).rest;
    var inner := SkipSpace(t[1..]);
    if inner != [] && inner[0] == CLOSE_BRACE {
      NothingInFront(x, y);
    } else {
      MembersLocal(f, inner, [], y);
      TailOf(inner, x);
    }
    AfterLocal(t[1..], x, y);
    AfterLocal(s, x, y);
    SameFront(inner, x, y);
  }

  lemma {:induction false} MembersLocal(f: Floats, s: seq<Byte>, done: seq<Member>, y: seq<Byte>)
    requires ParseMembers(f, s, done).Ok?
    ensures var r := ParseMembers(f, s, done);
            EndsWith(s, r.rest) && ParseMembers(f, Front(s, r.rest) + y, done) == Ok(r.value, y)
    decreases |s|, 1
  {
    hide EndsWith, Front, SkipSpace, ParseMembers, ParseValue, ParseString, Stops, SetMember;
    MembersStep(f, s, done);
    var x, k := ParseMembers(f, s, done).rest, ParseString(s);
    var v := ParseValue(f, SkipSpace(k.rest)[1..]);
    var next := SkipSpace(v.rest)[1..];
    if SkipSpace(v.rest)[0] == CLOSE_BRACE {
      NothingInFront(x, y);
    } else {
      MembersLocal(f, next, SetMember(done, k.value, v.value), y);
    }
    MemberLocal(f, s, x, y);
    MembersStep(f, Front(s, x) + y, done);
  }

  /** One entry, and the byte behind it. */
  lemma {:induction false} MemberLocal(f: Floats, s: seq<Byte>, x: seq<Byte>, y: seq<Byte>)
    requires ParseString(s).Ok?
    requires var k := SkipSpace(ParseString(s).rest);
             && k != []
             && ParseValue(f, k[1..]).Ok?
             && var after := SkipSpace(ParseValue(f, k[1..]).rest);
                after != [] && EndsWith(after[1..], x)
    ensures var k := ParseString(s);
            var v := ParseValue(f, SkipSpace(k.rest)[1..]);
            var after := SkipSpace(v.rest);
            && EndsWith(s, x)
            && var k' := ParseString(Front(s, x) + y);
               && k'.Ok? && k'.value == k.value
               && SkipSpace(k'.rest) != [] && SkipSpace(k'.rest)[0] == SkipSpace(k.rest)[0]
               && var v' := ParseValue(f, SkipSpace(k'.rest)[1..]);
                  && v'.Ok? && v'.value == v.value
                  && SkipSpace(v'.rest) != [] && SkipSpace(v'.rest)[0] == after[0]
                  && SkipSpace(v'.rest)[1..] == Front(after[1..], x) + y
    decreases |s|, 0, 1
  {
    hide EndsWith, Front, SkipSpace, ParseMembers, ParseValue, ParseString, Stops;
    var k := ParseString(s);
    var colon := SkipSpace(k.rest);
    var v := ParseValue(f, colon[1..]);
    AfterLocal(v.rest, x, y);
    ValueLocal(f, colon[1..], Front(v.rest, x) + y);
    FrontsJoin(colon[1..], v.rest, x, y);
    AfterLocal(k.rest, x, y);
    StringLocal(s, Front(k.rest, x) + y);
    FrontsJoin(s, k.rest, x, y);
  }

  // ---- A front of a number is a number ----

  lemma {:induction false} DigitsFront(p: seq<Byte>, z: seq<Byte>)
    ensures SkipDigits(p) == [] || SkipDigits(p + z) == SkipDigits(p) + z
    decreases |p|
  {
    if p != [] && IsDigit(p[0]) {
      DigitsFront(p[1..], z);
      assert (p + z)[1..] == p[1..] + z;
    }
  }

  lemma FractionFront(p: seq<Byte>, z: seq<Byte>)
    ensures SkipFraction(p) == [] || SkipFraction(p + z) == SkipFraction(p) + z
  {
    if p != [] && p[0] == DOT {
      DigitsFront(p[1..], z);
      assert (p + z)[1..] == p[1..] + z;
    }
  }

  lemma ExponentFront(p: seq<Byte>, z: seq<Byte>)
    ensures SkipExponent(p) == [] || SkipExponent(p + z) == SkipExponent(p) + z
  {
    hide SkipDigits;
    if |p| > 1 && (p[0] == LOWER_E || p[0] == BIG_E) {
      var t := p[1..];
      assert (p + z)[1..] == t + z;
      assert SkipSign(t + z) == SkipSign(t) + z;
      DigitsFront(SkipSign(t), z);
    } else if |p| == 1 {
      DigitsFront([], z);
    }
  }

  lemma NumberFront(f: Floats, p: seq<Byte>, z: seq<Byte>)
    requires p != [] && ParseNumber(f, p + z).Ok? && ParseNumber(f, p + z).rest == []
    ensures ParseNumber(f, p).Ok? && ParseNumber(f, p).rest == []
  {
    hide SkipDigits, SkipFraction, SkipExponent, Strtoll;
    var a := SkipMinus(p);
    assert SkipMinus(p + z) == a + z;
    var b := SkipDigits(a);
    DigitsFront(a, z);
    FractionFront(b, z);
    ExponentFront(SkipFraction(b), z);
    NothingSkipped();
  }

  lemma NothingSkipped()
    ensures SkipFraction([]) == [] && SkipExponent([]) == []
  {
  }

  // ---- What is read ----

  /** p, from its first byte to its last, is a value. */
  predicate IsText(f: Floats, p: seq<Byte>) {
    ParseValue(f, p).Ok? && ParseValue(f, p).rest == []
  }

  /** The first k bytes of s are a number which the next byte goes on with. */
  predicate Grows(f: Floats, s: seq<Byte>, k: nat)
    requires k <= |s| && IsText(f, s[..k])
  {
    IsNumber(ParseValue(f, s[..k]).value) && k < |s| && IsText(f, s[..k + 1])
  }

  lemma FrontAndRest(s: seq<Byte>, k: nat, j: nat)
    requires k <= j <= |s|
    ensures EndsWith(s, s[k..]) && Front(s, s[k..]) + s[k..j] == s[..j]
    ensures Front(s, s[k..]) + [] == s[..k]
    ensures k < |s| ==> Front(s, s[k..]) + [s[k]] == s[..k + 1]
    ensures Front(s[..k], []) + s[k..] == s
  {
    assert s[..k] + s[k..] == s;
    assert s[..k] + s[k..j] == s[..j];
    if k < |s| { assert s[..k] + [s[k]] == s[..k + 1]; }
  }

  /** The first k bytes of s are what is read if and only if they are a value that does not grow. */
  lemma ValueIsFrontIff(f: Floats, s: seq<Byte>, k: nat)
    requires k <= |s|
    ensures ParseValue(f, s).Ok? && ParseValue(f, s).rest == s[k..] <==> IsText(f, s[..k]) && !Grows(f, s, k)
    ensures ParseValue(f, s).Ok? && ParseValue(f, s).rest == s[k..] ==>
            ParseValue(f, s).value == ParseValue(f, s[..k]).value
  {
    hide ParseValue;
    FrontAndRest(s, k, k);
    var r := ParseValue(f, s);
    if r.Ok? && r.rest == s[k..] {
      ValueLocal(f, s, []);
      if k < |s| && IsNumber(r.value) { ValueLocal(f, s, [s[k]]); }
    } else if IsText(f, s[..k]) {
      if IsNumber(ParseValue(f, s[..k]).value) {
        if !Grows(f, s, k) { NumberIsFront(f, s, k); }
      } else {
        ValueLocal(f, s[..k], s[k..]);
      }
    }
  }

  /** A number that does not grow is read up to its last byte. */
  lemma NumberIsFront(f: Floats, s: seq<Byte>, k: nat)
    requires k <= |s| && IsText(f, s[..k]) && IsNumber(ParseValue(f, s[..k]).value) && !Grows(f, s, k)
    ensures ParseValue(f, s).Ok? && ParseValue(f, s).rest == s[k..]
  {
    hide ParseValue;
    NumberStaysNumber(f, s, k);
    ValueLocal(f, s, []);
    var j := |s| - |ParseValue(f, s).rest|;
    if j < k { NotShorter(f, s, k, j); } else if j > k { NotLonger(f, s, k, j); }
  }

  lemma NotShorter(f: Floats, s: seq<Byte>, k: nat, j: nat)
    requires j < k <= |s| && ParseValue(f, s).Ok? && ParseValue(f, s).rest == s[j..]
    ensures !IsText(f, s[..k])
  {
    hide ParseValue;
    FrontAndRest(s, j, k);
    ValueLocal(f, s, s[j..k]);
  }

  lemma NotLonger(f: Floats, s: seq<Byte>, k: nat, j: nat)
    requires k < j <= |s| && ParseValue(f, s).Ok? && ParseValue(f, s).rest == s[j..]
    requires IsText(f, s[..k]) && IsNumber(ParseValue(f, s[..k]).value)
    ensures IsText(f, s[..k + 1])
  {
    hide ParseValue;
    FrontAndRest(s, j, j);
    ValueLocal(f, s, []);
    var t := s[..j];
    assert t[..k] == s[..k] && t[..k + 1] == s[..k + 1];
    NumberStaysNumber(f, t, k);
    SpaceStays(t, k);
    ShorterNumber(f, t, k + 1);
  }

  lemma {:induction false} SpaceStays(s: seq<Byte>, k: nat)
    requires k < |s| && SkipSpace(s[..k]) != []
    ensures SkipSpace(s[..k + 1]) != []
  {
    assert s[..k + 1][..k] == s[..k];
    SpaceFront(s[..k + 1], k);
  }

  lemma SpaceFront(s: seq<Byte>, k: nat)
    requires k <= |s| && SkipSpace(s[..k]) != []
    ensures SkipSpace(s) == SkipSpace(s[..k]) + s[k..]
  {
    hide SkipSpace;
    FrontAndRest(s, k, k);
    NothingInFront(SkipSpace(s[..k]), s[k..]);
    SpaceLocal(s[..k], [], s[k..]);
    assert Front(SkipSpace(s[..k]), []) == SkipSpace(s[..k]);
  }

  lemma NumberStaysNumber(f: Floats, s: seq<Byte>, k: nat)
    requires k <= |s| && IsText(f, s[..k]) && IsNumber(ParseValue(f, s[..k]).value)
    ensures ParseValue(f, s).Ok? && IsNumber(ParseValue(f, s).value)
    ensures SkipSpace(s) != [] && ParseValue(f, s) == ParseNumber(f, SkipSpace(s))
    ensures SkipSpace(s[..k]) != [] && (SkipSpace(s)[0] == MINUS || IsDigit(SkipSpace(s)[0]))
  {
    hide ParseItems, ParseMembers, ParseString, SkipSpace, ParseNumber;
    NumberKind(f, s[..k]);
    SpaceFront(s, k);
    NumberIsNumber(f, SkipSpace(s));
    NumberStarts(f, SkipSpace(s));
  }

  /** A value is a number exactly if it starts like one. */
  lemma NumberKind(f: Floats, s: seq<Byte>)
    requires ParseValue(f, s).Ok? && IsNumber(ParseValue(f, s).value)
    ensures SkipSpace(s) != [] && (SkipSpace(s)[0] == MINUS || IsDigit(SkipSpace(s)[0]))
  {
    hide ParseString, SkipSpace, ParseNumber;
    ItemsAreLists(f, SkipSpace(SkipSpace(s)[1..]), []);
    MembersAreMaps(f, SkipSpace(SkipSpace(s)[1..]), []);
  }

  lemma {:induction false} ItemsAreLists(f: Floats, s: seq<Byte>, done: seq<Json>)
    ensures ParseItems(f, s, done).Ok? ==> ParseItems(f, s, done).value.List?
    decreases |s|
  {
    hide ParseItems, ParseValue, SkipSpace;
    ItemsStep(f, s, done);
    var v := ParseValue(f, s);
    if v.Ok? && SkipSpace(v.rest) != [] { ItemsAreLists(f, SkipSpace(v.rest)[1..], done + [v.value]); }
  }

  lemma {:induction false} MembersAreMaps(f: Floats, s: seq<Byte>, done: seq<Member>)
    ensures ParseMembers(f, s, done).Ok? ==> ParseMembers(f, s, done).value.Map?
    decreases |s|
  {
    hide ParseMembers, ParseValue, SkipSpace, ParseString, SetMember;
    MembersStep(f, s, done);
    var k := ParseString(s);
    if k.Ok? && SkipSpace(k.rest) != [] {
      var v := ParseValue(f, SkipSpace(k.rest)[1..]);
      if v.Ok? && SkipSpace(v.rest) != [] {
        MembersAreMaps(f, SkipSpace(v.rest)[1..], SetMember(done, k.value, v.value));
      }
    }
  }

  lemma NumberStarts(f: Floats, s: seq<Byte>)
    requires s != [] && (s[0] == MINUS || IsDigit(s[0]))
    ensures ParseNumber(f, s).Ok?
  {
    assert |SkipDigits(SkipMinus(s))| < |s|;
  }

  /** Shorter fronts of a number are numbers. */
  lemma ShorterNumber(f: Floats, s: seq<Byte>, k: nat)
    requires 0 < k <= |s| && IsText(f, s) && ParseValue(f, s) == ParseNumber(f, SkipSpace(s))
    requires SkipSpace(s[..k]) != [] && SkipSpace(s) != [] && (SkipSpace(s)[0] == MINUS || IsDigit(SkipSpace(s)[0]))
    ensures IsText(f, s[..k])
  {
    hide ParseItems, ParseMembers, ParseString, SkipSpace, ParseNumber;
    var p := SkipSpace(s[..k]);
    SpaceFront(s, k);
    NumberFront(f, p, s[k..]);
    assert p[0] == SkipSpace(s)[0];
  }

  // ---- json.decode ----

  predicate Blank(s: seq<Byte>) {
    SkipSpace(s) == []
  }

  /** A value, as this parser has values, and blanks; module JsonGrammar has what the standard calls a JSON text. */
  predicate IsDocument(f: Floats, s: seq<Byte>) {
    ParseValue(f, s).Ok? && Blank(ParseValue(f, s).rest)
  }

  /** s has a value at its front and something other than blanks behind it. */
  ghost predicate HasTrailingText(f: Floats, s: seq<Byte>) {
    exists k: nat | k <= |s| :: IsText(f, s[..k]) && !Grows(f, s, k) && !Blank(s[k..])
  }

  /** What is not a document is accepted, and read as the value at its front, exactly if it has text behind that value;
      everything else that is not a document is nil because nothing could be read. */
  lemma AcceptedIff(f: Floats, s: seq<Byte>)
    ensures HasTrailingText(f, s) <==> ParseValue(f, s).Ok? && !IsDocument(f, s)
    ensures !IsDocument(f, s) && !HasTrailingText(f, s) ==> Decode(f, s) == Null
  {
    hide ParseValue, SkipSpace;
    if ParseValue(f, s).Ok? {
      ValueLocal(f, s, []);
      var k := |s| - |ParseValue(f, s).rest|;
      ValueIsFrontIff(f, s, k);
    }
    forall k: nat | k <= |s| && IsText(f, s[..k]) && !Grows(f, s, k) && !Blank(s[k..])
      ensures ParseValue(f, s).Ok? && !IsDocument(f, s)
    {
      ValueIsFrontIff(f, s, k);
    }
  }

  /** Whatever is written behind a value that is not a number, the value is read. */
  lemma TrailingTextIsIgnored(f: Floats, p: seq<Byte>, more: seq<Byte>)
    requires IsText(f, p) && !IsNumber(ParseValue(f, p).value)
    ensures Decode(f, p + more) == Decode(f, p) && (IsDocument(f, p + more) <==> Blank(more))
  {
    hide ParseValue, SkipSpace;
    ValueLocal(f, p, more);
    assert Front(p, []) == p;
  }

  /** nil means a failure, or an input that starts with the word null. */
  lemma NullIff(f: Floats, s: seq<Byte>)
    ensures Decode(f, s) == Null <==> ParseValue(f, s).Fail? || NULL_TEXT <= SkipSpace(s)
  {
    hide ParseString, SkipSpace, ParseNumber;
    var t := SkipSpace(s);
    if t != [] {
      ItemsAreLists(f, SkipSpace(t[1..]), []);
      MembersAreMaps(f, SkipSpace(t[1..]), []);
      NumberIsNumber(f, t);
    }
  }

  /** `nullx`, `null` and `x` give nil; only the second is a document. */
  lemma NullExamples(f: Floats)
    ensures Decode(f, NULL_TEXT) == Null && IsDocument(f, NULL_TEXT)
    ensures Decode(f, NULL_TEXT + [120]) == Null && ParseValue(f, NULL_TEXT + [120]).Ok? && !IsDocument(f, NULL_TEXT + [120])
    ensures Decode(f, [120]) == Null && ParseValue(f, [120]).Fail?
  {
    hide ParseString, ParseNumber, ParseItems, ParseMembers;
    var n, m := NULL_TEXT, NULL_TEXT + [120];
    assert SkipSpace(n) == n && SkipSpace(m) == m;
    assert n[4..] == [] && m[4..] == [120];
    var x: seq<Byte> := [120];
    assert SkipSpace(x) == x;
  }
}
