/** JSON text (src/stdlib_json.c): what the encoder writes and what the parser reads, as functions on
    values and bytes, and the proof that the second undoes the first. */
module JsonText {
  import opened Bytes
  import opened Values

  const TAB: Byte := 9
  const NEWLINE: Byte := 10
  const RETURN: Byte := 13
  const SPACE: Byte := 32
  const QUOTE: Byte := 34
  const PLUS: Byte := 43
  const COMMA: Byte := 44
  const MINUS: Byte := 45
  const DOT: Byte := 46
  const SLASH: Byte := 47
  const ZERO: Byte := 48
  const COLON: Byte := 58
  const BIG_E: Byte := 69
  const OPEN_BRACKET: Byte := 91
  const BACKSLASH: Byte := 92
  const CLOSE_BRACKET: Byte := 93
  const LOWER_B: Byte := 98
  const LOWER_E: Byte := 101
  const LOWER_F: Byte := 102
  const LOWER_N: Byte := 110
  const LOWER_R: Byte := 114
  const LOWER_T: Byte := 116
  const LOWER_U: Byte := 117
  const OPEN_BRACE: Byte := 123
  const CLOSE_BRACE: Byte := 125
  const NULL_TEXT: seq<Byte> := [110, 117, 108, 108]
  const TRUE_TEXT: seq<Byte> := [116, 114, 117, 101]
  const FALSE_TEXT: seq<Byte> := [102, 97, 108, 115, 101]

  /** printf("%g"), strtod and the finiteness test of the C library. */
  datatype Floats = Floats(show: Double -> seq<Byte>, read: seq<Byte> -> Double, finite: Double -> bool)

  /** A script value; a map as its entries in table order, and every other kind of object as Other. */
  datatype Json =
    | Null
    | Bool(b: bool)
    | Int(n: int)
    | Float(d: Double)
    | Str(s: seq<Byte>)
    | List(items: seq<Json>)
    | Map(members: seq<Member>)
    | Other

  datatype Member = Member(key: seq<Byte>, value: Json)

  // ---- The encoder ----

  function Hex(n: nat): Byte
    requires n < 16
  {
    if n < 10 then 48 + n else 87 + n
  }

  /** One byte of a string, escaped where JSON needs it. */
  function Escape(c: Byte): (r: seq<Byte>)
    ensures 1 <= |r| <= 6
  {
    if c == QUOTE then [BACKSLASH, QUOTE]
    else if c == BACKSLASH then [BACKSLASH, BACKSLASH]
    else if c == NEWLINE then [BACKSLASH, LOWER_N]
    else if c == RETURN then [BACKSLASH, LOWER_R]
    else if c == TAB then [BACKSLASH, LOWER_T]
    else if c < 32 then [BACKSLASH, LOWER_U, ZERO, ZERO, Hex(c / 16), Hex(c % 16)]
    else [c]
  }

  function EscapeAll(s: seq<Byte>): seq<Byte> {
    if s == [] then [] else Escape(s[0]) + EscapeAll(s[1..])
  }

  function EncodeString(s: seq<Byte>): seq<Byte> {
    [QUOTE] + EscapeAll(s) + [QUOTE]
  }

  function Digits(n: nat): (r: seq<Byte>)
    ensures r != []
  {
    if n < 10 then [48 + n] else Digits(n / 10) + [48 + n % 10]
  }

  /** printf("%lld"). */
  function Decimal(n: int): (r: seq<Byte>)
    ensures r != []
  {
    if n < 0 then [MINUS] + Digits(-n) else Digits(n)
  }

  function Encode(f: Floats, v: Json): seq<Byte> {
    match v
    case Null => NULL_TEXT
    case Bool(b) => if b then TRUE_TEXT else FALSE_TEXT
    case Int(n) => Decimal(n)
    case Float(d) => if f.finite(d) then f.show(d) else NULL_TEXT
    case Str(s) => EncodeString(s)
    case List(items) => [OPEN_BRACKET] + EncodeItems(f, items) + [CLOSE_BRACKET]
    case Map(members) => [OPEN_BRACE] + EncodeMembers(f, members) + [CLOSE_BRACE]
    case Other => NULL_TEXT
  }

  function EncodeItems(f: Floats, items: seq<Json>): seq<Byte> {
    if items == [] then []
    else if |items| == 1 then Encode(f, items[0])
    else Encode(f, items[0]) + [COMMA] + EncodeItems(f, items[1..])
  }

  function EncodeMember(f: Floats, m: Member): seq<Byte> {
    EncodeString(m.key) + [COLON] + Encode(f, m.value)
  }

  function EncodeMembers(f: Floats, members: seq<Member>): seq<Byte> {
    if members == [] then []
    else if |members| == 1 then EncodeMember(f, members[0])
    else EncodeMember(f, members[0]) + [COMMA] + EncodeMembers(f, members[1..])
  }

  // ---- The parser, on the input that is left ----

  datatype Parsed<+T> = Ok(value: T, rest: seq<Byte>) | Fail

  predicate IsSpace(c: Byte) {
    c == SPACE || c == TAB || c == NEWLINE || c == RETURN
  }

  function SkipSpace(s: seq<Byte>): (r: seq<Byte>)
    ensures |r| <= |s| && (r != [] ==> !IsSpace(r[0]))
    ensures s == [] || !IsSpace(s[0]) ==> r == s
  {
    if s != [] && IsSpace(s[0]) then SkipSpace(s[1..]) else s
  }

  /** json_match. */
  function Match(s: seq<Byte>, text: seq<Byte>, v: Json): (r: Parsed<Json>)
    ensures r.Ok? ==> |r.rest| <= |s|
  {
    if text <= s then Ok(v, s[|text|..]) else Fail
  }

  /** The value of a hexadecimal digit, or 16. */
  function HexValue(h: Byte): (n: nat)
    ensures n <= 16
  {
    if 48 <= h <= 57 then h - 48
    else if 97 <= h <= 102 then h - 87
    else if 65 <= h <= 70 then h - 55
    else 16
  }

  /** The UTF-8 bytes of a code point from a `\u` escape. */
  function Utf8(cp: nat): seq<Byte>
    requires cp < 0x10000
  {
    if cp < 0x80 then [cp]
    else if cp < 0x800 then [0xC0 + cp / 64, 0x80 + cp % 64]
    else [0xE0 + cp / 4096, 0x80 + cp / 64 % 64, 0x80 + cp % 64]
  }

  /** The byte that a one-letter escape stands for; unknown letters stand for themselves. */
  function Unescape(c: Byte): Byte {
    if c == LOWER_N then NEWLINE else if c == LOWER_R then RETURN else if c == LOWER_T then TAB
    else if c == LOWER_B then 8 else if c == LOWER_F then 12 else c
  }

  predicate IsHex4(s: seq<Byte>) {
    |s| >= 4 && HexValue(s[0]) < 16 && HexValue(s[1]) < 16 && HexValue(s[2]) < 16 && HexValue(s[3]) < 16
  }

  function Hex4(s: seq<Byte>): (cp: nat)
    requires IsHex4(s)
    ensures cp < 0x10000
  {
    ((HexValue(s[0]) * 16 + HexValue(s[1])) * 16 + HexValue(s[2])) * 16 + HexValue(s[3])
  }

  /** The rest of a string after its opening quote; `done` has been read. */
  function ParseChars(s: seq<Byte>, done: seq<Byte>): (r: Parsed<seq<Byte>>)
    ensures r.Ok? ==> |r.rest| < |s|
    decreases |s|
  {
    if s == [] then Fail
    else if s[0] == QUOTE then Ok(done, s[1..])
    else if s[0] != BACKSLASH then ParseChars(s[1..], done + [s[0]])
    else if |s| < 2 then Fail
    else if s[1] != LOWER_U then ParseChars(s[2..], done + [Unescape(s[1])])
    else if IsHex4(s[2..]) then ParseChars(s[6..], done + Utf8(Hex4(s[2..])))
    else Fail
  }

  function ParseString(s: seq<Byte>): (r: Parsed<seq<Byte>>)
    ensures r.Ok? ==> |r.rest| < |s|
  {
    var s := SkipSpace(s);
    if s == [] || s[0] != QUOTE then Fail else ParseChars(s[1..], [])
  }

  predicate IsDigit(c: Byte) {
    48 <= c <= 57
  }

  function SkipDigits(s: seq<Byte>): (r: seq<Byte>)
    ensures |r| <= |s| && (r != [] ==> !IsDigit(r[0]))
  {
    if s != [] && IsDigit(s[0]) then SkipDigits(s[1..]) else s
  }

  function SkipFraction(s: seq<Byte>): (r: seq<Byte>)
    ensures |r| <= |s|
  {
    if s != [] && s[0] == DOT then SkipDigits(s[1..]) else s
  }

  function SkipExponent(s: seq<Byte>): (r: seq<Byte>)
    ensures |r| <= |s|
  {
    if s != [] && (s[0] == LOWER_E || s[0] == BIG_E) then
      var s := s[1..];
      SkipDigits(if s != [] && (s[0] == PLUS || s[0] == MINUS) then s[1..] else s)
    else s
  }

  function SkipMinus(s: seq<Byte>): (r: seq<Byte>)
    ensures |r| <= |s|
  {
    if s != [] && s[0] == MINUS then s[1..] else s
  }

  function DigitsValue(s: seq<Byte>): nat {
    if s == [] then 0 else DigitsValue(s[..|s| - 1]) * 10 + if IsDigit(s[|s| - 1]) then s[|s| - 1] - 48 else 0
  }

  /** strtoll on an optional minus and digits; it saturates at 64 bits. */
  function Strtoll(s: seq<Byte>): int {
    if s != [] && s[0] == MINUS then
      var n: int := DigitsValue(s[1..]);
      if n > 0x8000_0000_0000_0000 then -0x8000_0000_0000_0000 else -n
    else
      var n: int := DigitsValue(s);
      if n >= 0x8000_0000_0000_0000 then 0x7FFF_FFFF_FFFF_FFFF else n
  }

  function ParseNumber(f: Floats, s: seq<Byte>): (r: Parsed<Json>)
    ensures r.Ok? ==> |r.rest| < |s|
  {
    var whole := SkipDigits(SkipMinus(s));
    var rest := SkipExponent(SkipFraction(whole));
    if |rest| == |s| then Fail
    else
      var n := |s| - |rest|;
      var text := s[..if n >= 64 then 63 else n];
      Ok(if |rest| == |whole| then Int(Wrap48(Strtoll(text))) else Float(f.read(text)), rest)
  }

  /** obj_map_set on the entries so far. */
  function SetMember(members: seq<Member>, key: seq<Byte>, value: Json): seq<Member> {
    if members == [] then [Member(key, value)]
    else if members[0].key == key then [Member(key, value)] + members[1..]
    else [members[0]] + SetMember(members[1..], key, value)
  }

  function ParseValue(f: Floats, s: seq<Byte>): (r: Parsed<Json>)
    ensures r.Ok? ==> |r.rest| < |s|
    decreases |s|, 0
  {
    var s := SkipSpace(s);
    if s == [] then Fail
    else if s[0] == QUOTE then
      match ParseString(s)
      case Fail => Fail
      case Ok(text, rest) => Ok(Str(text), rest)
    else if s[0] == OPEN_BRACE then
      var inner := SkipSpace(s[1..]);
      if inner != [] && inner[0] == CLOSE_BRACE then Ok(Map([]), inner[1..]) else ParseMembers(f, inner, [])
    else if s[0] == OPEN_BRACKET then
      var inner := SkipSpace(s[1..]);
      if inner != [] && inner[0] == CLOSE_BRACKET then Ok(List([]), inner[1..]) else ParseItems(f, inner, [])
    else if s[0] == LOWER_T then Match(s, TRUE_TEXT, Bool(true))
    else if s[0] == LOWER_F then Match(s, FALSE_TEXT, Bool(false))
    else if s[0] == LOWER_N then Match(s, NULL_TEXT, Null)
    else if s[0] == MINUS || IsDigit(s[0]) then ParseNumber(f, s)
    else Fail
  }

  /** The items of a list from the next one on. */
  function ParseItems(f: Floats, s: seq<Byte>, done: seq<Json>): (r: Parsed<Json>)
    ensures r.Ok? ==> |r.rest| < |s|
    decreases |s|, 1
  {
    match ParseValue(f, s)
    case Fail => Fail
    case Ok(v, rest) =>
      var rest := SkipSpace(rest);
      if rest == [] then Fail
      else if rest[0] == CLOSE_BRACKET then Ok(List(done + [v]), rest[1..])
      else if rest[0] == COMMA then ParseItems(f, rest[1..], done + [v])
      else Fail
  }

  /** The entries of a map from the next one on. */
  function ParseMembers(f: Floats, s: seq<Byte>, done: seq<Member>): (r: Parsed<Json>)
    ensures r.Ok? ==> |r.rest| < |s|
    decreases |s|, 1
  {
    match ParseString(s)
    case Fail => Fail
    case Ok(key, rest) =>
      var rest := SkipSpace(rest);
      if rest == [] || rest[0] != COLON then Fail
      else
        match ParseValue(f, rest[1..])
        case Fail => Fail
        case Ok(v, rest) =>
          var rest := SkipSpace(rest);
          if rest == [] then Fail
          else if rest[0] == CLOSE_BRACE then Ok(Map(SetMember(done, key, v)), rest[1..])
          else if rest[0] == COMMA then ParseMembers(f, rest[1..], SetMember(done, key, v))
          else Fail
  }

  // ---- One step of each, with the rest hidden ----

  lemma ValueStep(f: Floats, s: seq<Byte>)
    ensures ParseValue(f, s) == ParseValue(f, SkipSpace(s))
  {
    hide ParseItems, ParseMembers, ParseString, ParseNumber;
  }

  lemma ItemsStep(f: Floats, s: seq<Byte>, done: seq<Json>)
    ensures var r := ParseValue(f, s);
            ParseItems(f, s, done) ==
            if r.Fail? then Fail
            else
              var rest := SkipSpace(r.rest);
              if rest == [] then Fail
              else if rest[0] == CLOSE_BRACKET then Ok(List(done + [r.value]), rest[1..])
              else if rest[0] == COMMA then ParseItems(f, rest[1..], done + [r.value])
              else Fail
  {
    hide ParseValue, SkipSpace;
  }

  lemma MembersStep(f: Floats, s: seq<Byte>, done: seq<Member>)
    ensures var k := ParseString(s);
            ParseMembers(f, s, done) ==
            if k.Fail? || SkipSpace(k.rest) == [] || SkipSpace(k.rest)[0] != COLON then Fail
            else
              var r := ParseValue(f, SkipSpace(k.rest)[1..]);
              if r.Fail? then Fail
              else
                var rest := SkipSpace(r.rest);
                if rest == [] then Fail
                else if rest[0] == CLOSE_BRACE then Ok(Map(SetMember(done, k.value, r.value)), rest[1..])
                else if rest[0] == COMMA then ParseMembers(f, rest[1..], SetMember(done, k.value, r.value))
                else Fail
  {
    hide ParseValue, SkipSpace, ParseString, SetMember;
  }

  /** json.decode on a string: text behind the value is ignored, and a failure is nil. */
  function Decode(f: Floats, s: seq<Byte>): Json {
    match ParseValue(f, s)
    case Fail => Null
    case Ok(v, _) => v
  }

  // ---- Strings round-trip ----

  /** Every escape is read back as the byte it stands for. */
  lemma ParseEscaped(c: Byte, rest: seq<Byte>, done: seq<Byte>)
    ensures ParseChars(Escape(c) + rest, done) == ParseChars(rest, done + [c])
  {
    var s := Escape(c) + rest;
    if c == QUOTE || c == BACKSLASH || c == NEWLINE || c == RETURN || c == TAB {
      assert s[2..] == rest && Unescape(s[1]) == c;
    } else if c < 32 {
      assert s[2..][0] == ZERO && s[2..][1] == ZERO && s[2..][2] == Hex(c / 16) && s[2..][3] == Hex(c % 16);
      assert HexValue(Hex(c / 16)) == c / 16 && HexValue(Hex(c % 16)) == c % 16;
      assert Hex4(s[2..]) == c && s[6..] == rest;
    } else {
      assert s[1..] == rest;
    }
  }

  lemma {:induction false} ParseEscapedAll(str: seq<Byte>, rest: seq<Byte>, done: seq<Byte>)
    ensures ParseChars(EscapeAll(str) + ([QUOTE] + rest), done) == Ok(done + str, rest)
    decreases |str|
  {
    hide Escape;
    if str == [] {
      var s := EscapeAll(str) + ([QUOTE] + rest);
      assert s[0] == QUOTE && s[1..] == rest && done + str == done;
    } else {
      var tail := EscapeAll(str[1..]) + ([QUOTE] + rest);
      assert EscapeAll(str) + ([QUOTE] + rest) == Escape(str[0]) + tail;
      ParseEscaped(str[0], tail, done);
      ParseEscapedAll(str[1..], rest, done + [str[0]]);
      assert done + [str[0]] + str[1..] == done + str;
    }
  }

  /** Every byte string is read back from its JSON string, and exactly that text is consumed. */
  lemma StringRoundTrip(str: seq<Byte>, rest: seq<Byte>)
    ensures ParseString(EncodeString(str) + rest) == Ok(str, rest)
  {
    hide EscapeAll, ParseChars;
    var s := EncodeString(str) + rest;
    assert s[0] == QUOTE && s[1..] == EscapeAll(str) + ([QUOTE] + rest);
    ParseEscapedAll(str, rest, []);
    assert [] + str == str;
  }

  // ---- Numbers round-trip ----

  predicate ContinuesNumber(s: seq<Byte>) {
    s != [] && (IsDigit(s[0]) || s[0] == DOT || s[0] == LOWER_E || s[0] == BIG_E)
  }

  predicate AllDigits(s: seq<Byte>) {
    forall i :: 0 <= i < |s| ==> IsDigit(s[i])
  }

  lemma {:induction false} DigitsMeaning(n: nat)
    ensures AllDigits(Digits(n)) && DigitsValue(Digits(n)) == n
    decreases n
  {
    if n < 10 {
      assert DigitsValue([48 + n]) == DigitsValue([48 + n][..0]) * 10 + n;
    } else {
      DigitsMeaning(n / 10);
      var s := Digits(n);
      assert s[..|s| - 1] == Digits(n / 10) && s[|s| - 1] == 48 + n % 10;
    }
  }

  function Power(k: nat): nat {
    if k == 0 then 1 else 2 * Power(k - 1)
  }

  lemma {:induction false} DigitsShort(n: nat, k: nat)
    requires n < Power(k)
    ensures |Digits(n)| <= k + 1
    decreases k
  {
    if n >= 10 { DigitsShort(n / 10, k - 1); }
  }

  lemma PowerOctet(k: nat)
    ensures Power(k + 8) == 256 * Power(k)
  {
    assert Power(k + 2) == 4 * Power(k);
    assert Power(k + 4) == 4 * Power(k + 2);
    assert Power(k + 6) == 4 * Power(k + 4);
    assert Power(k + 8) == 4 * Power(k + 6);
  }

  lemma Power48()
    ensures Power(48) == 0x1_0000_0000_0000
  {
    PowerOctet(0);
    PowerOctet(8);
    PowerOctet(16);
    PowerOctet(24);
    PowerOctet(32);
    PowerOctet(40);
  }

  lemma {:induction false} SkipAllDigits(ds: seq<Byte>, rest: seq<Byte>)
    requires AllDigits(ds) && (rest == [] || !IsDigit(rest[0]))
    ensures SkipDigits(ds + rest) == rest
    decreases |ds|
  {
    if ds == [] {
      assert ds + rest == rest;
    } else {
      assert (ds + rest)[0] == ds[0] && (ds + rest)[1..] == ds[1..] + rest;
      SkipAllDigits(ds[1..], rest);
    }
  }

  /** strtoll undoes printf("%lld") on 48-bit integers, whose text is short. */
  lemma DecimalMeaning(n: int)
    requires -TWO_47 <= n < TWO_47
    ensures Strtoll(Decimal(n)) == n && |Decimal(n)| < 64
  {
    var m := if n < 0 then -n else n;
    DigitsMeaning(m);
    Power48();
    DigitsShort(m, 48);
    if n < 0 { assert Decimal(n)[1..] == Digits(m); } else { assert IsDigit(Digits(m)[0]); }
  }

  lemma NumberRoundTrip(f: Floats, n: int, rest: seq<Byte>)
    requires -TWO_47 <= n < TWO_47 && !ContinuesNumber(rest)
    ensures ParseNumber(f, Decimal(n) + rest) == Ok(Int(n), rest)
  {
    hide Digits, Strtoll, Wrap48, DigitsValue, SkipMinus, SkipDigits, SkipFraction, SkipExponent, IsDigit, Decimal;
    var s := Decimal(n) + rest;
    DecimalMeaning(n);
    WholeNumber(n, rest);
    assert s[..|s| - |rest|] == Decimal(n);
    Wrap48Unique(n, n);
  }

  lemma WholeNumber(n: int, rest: seq<Byte>)
    requires !ContinuesNumber(rest)
    ensures SkipDigits(SkipMinus(Decimal(n) + rest)) == rest
    ensures SkipExponent(SkipFraction(rest)) == rest
  {
    hide Digits, DigitsValue, SkipDigits;
    var m := if n < 0 then -n else n;
    var s := Decimal(n) + rest;
    DigitsMeaning(m);
    assert SkipMinus(s) == Digits(m) + rest by {
      if n < 0 { assert s[1..] == Digits(m) + rest; } else { assert IsDigit(Digits(m)[0]); }
    }
    SkipAllDigits(Digits(m), rest);
  }

  // ---- Values round-trip ----

  /** No floats and no other objects; integers of 48 bits; and, as in every map, different keys. */
  predicate Plain(v: Json) {
    match v
    case Int(n) => -TWO_47 <= n < TWO_47
    case List(items) => forall i :: 0 <= i < |items| ==> Plain(items[i])
    case Map(members) => DistinctKeys(members) && forall i :: 0 <= i < |members| ==> Plain(members[i].value)
    case Float(_) => false
    case Other => false
    case _ => true
  }

  predicate DistinctKeys(members: seq<Member>) {
    forall i, j :: 0 <= i < j < |members| ==> members[i].key != members[j].key
  }

  lemma EncodedStart(f: Floats, v: Json)
    requires Plain(v)
    ensures var t := Encode(f, v);
            t != [] && !IsSpace(t[0]) && t[0] != CLOSE_BRACKET &&
            (v.Int? ==> t[0] == MINUS || IsDigit(t[0])) && (v.Str? ==> t[0] == QUOTE) &&
            (v.List? ==> t[0] == OPEN_BRACKET) && (v.Map? ==> t[0] == OPEN_BRACE)
  {
    hide EncodeItems, EncodeMembers, EscapeAll;
    if v.Int? { DigitsMeaning(if v.n < 0 then -v.n else v.n); }
  }

  lemma LiteralRoundTrip(f: Floats, v: Json, rest: seq<Byte>)
    requires v.Null? || v.Bool?
    ensures ParseValue(f, Encode(f, v) + rest) == Ok(v, rest)
  {
    hide ParseItems, ParseMembers, ParseString, ParseNumber;
    var text := Encode(f, v);
    var s := text + rest;
    assert text <= s && s[|text|..] == rest && s[0] == text[0];
  }

  lemma IntRoundTrip(f: Floats, n: int, rest: seq<Byte>)
    requires -TWO_47 <= n < TWO_47 && !ContinuesNumber(rest)
    ensures ParseValue(f, Decimal(n) + rest) == Ok(Int(n), rest)
  {
    hide ParseItems, ParseMembers, ParseString, ParseNumber, Decimal;
    EncodedStart(f, Int(n));
    NumberRoundTrip(f, n, rest);
    assert (Decimal(n) + rest)[0] == Decimal(n)[0];
  }

  lemma TextRoundTrip(f: Floats, str: seq<Byte>, rest: seq<Byte>)
    ensures ParseValue(f, EncodeString(str) + rest) == Ok(Str(str), rest)
  {
    hide ParseItems, ParseMembers, ParseString, ParseNumber, EscapeAll;
    StringRoundTrip(str, rest);
    assert (EncodeString(str) + rest)[0] == QUOTE;
  }

  /** Parsing the encoding of a value gives the value back and consumes exactly that text. */
  lemma {:induction false} ValueRoundTrip(f: Floats, v: Json, rest: seq<Byte>)
    requires Plain(v) && (v.Int? ==> !ContinuesNumber(rest))
    ensures ParseValue(f, Encode(f, v) + rest) == Ok(v, rest)
    decreases v, 2
  {
    hide ParseValue, EncodeItems, EncodeMembers, EncodeString, Decimal, ContinuesNumber;
    match v {
      case Null => LiteralRoundTrip(f, v, rest);
      case Bool(_) => LiteralRoundTrip(f, v, rest);
      case Int(n) => IntRoundTrip(f, n, rest);
      case Str(str) => TextRoundTrip(f, str, rest);
      case List(items) => ListRoundTrip(f, v, rest);
      case Map(members) => MapRoundTrip(f, v, rest);
    }
  }

  lemma {:induction false} ListRoundTrip(f: Floats, v: Json, rest: seq<Byte>)
    requires v.List? && Plain(v)
    ensures ParseValue(f, Encode(f, v) + rest) == Ok(v, rest)
    decreases v, 1
  {
    hide ParseItems, ParseMembers, ParseString, ParseNumber, EncodeItems;
    var inner := EncodeItems(f, v.items) + ([CLOSE_BRACKET] + rest);
    var s := Encode(f, v) + rest;
    assert s[0] == OPEN_BRACKET && s[1..] == inner;
    NoItems(f);
    if v.items == [] {
      assert inner == [CLOSE_BRACKET] + rest && inner[1..] == rest;
    } else {
      ItemsStart(f, v.items, [CLOSE_BRACKET] + rest);
      ItemsRoundTrip(f, v.items, [], rest);
      assert [] + v.items == v.items;
    }
  }

  lemma NoItems(f: Floats)
    ensures EncodeItems(f, []) == [] && EncodeMembers(f, []) == []
  {
  }

  lemma ItemsStart(f: Floats, items: seq<Json>, rest: seq<Byte>)
    requires items != [] && Plain(items[0])
    ensures var s := EncodeItems(f, items) + rest;
            s != [] && !IsSpace(s[0]) && s[0] != CLOSE_BRACKET
  {
    hide Encode;
    EncodedStart(f, items[0]);
  }

  lemma {:induction false} ItemsRoundTrip(f: Floats, items: seq<Json>, done: seq<Json>, rest: seq<Byte>)
    requires items != [] && forall i :: 0 <= i < |items| ==> Plain(items[i])
    ensures ParseItems(f, EncodeItems(f, items) + ([CLOSE_BRACKET] + rest), done) == Ok(List(done + items), rest)
    decreases items, 3
  {
    hide ParseValue, Encode, Plain;
    var v, text := items[0], Encode(f, items[0]);
    if |items| == 1 {
      var after := [CLOSE_BRACKET] + rest;
      ValueRoundTrip(f, v, after);
      assert after[0] == CLOSE_BRACKET && after[1..] == rest && items == [v];
    } else {
      var more := EncodeItems(f, items[1..]) + ([CLOSE_BRACKET] + rest);
      var after := [COMMA] + more;
      assert EncodeItems(f, items) + ([CLOSE_BRACKET] + rest) == text + after;
      ValueRoundTrip(f, v, after);
      assert after[0] == COMMA && after[1..] == more;
      ItemsRoundTrip(f, items[1..], done + [v], rest);
      assert done + [v] + items[1..] == done + items;
    }
  }

  lemma {:induction false} MapRoundTrip(f: Floats, v: Json, rest: seq<Byte>)
    requires v.Map? && Plain(v)
    ensures ParseValue(f, Encode(f, v) + rest) == Ok(v, rest)
    decreases v, 1
  {
    hide ParseItems, ParseMembers, ParseString, ParseNumber, EncodeMembers;
    var inner := EncodeMembers(f, v.members) + ([CLOSE_BRACE] + rest);
    var s := Encode(f, v) + rest;
    assert s[0] == OPEN_BRACE && s[1..] == inner;
    NoItems(f);
    if v.members == [] {
      assert inner == [CLOSE_BRACE] + rest && inner[1..] == rest;
    } else {
      MembersStart(f, v.members, [CLOSE_BRACE] + rest);
      MembersRoundTrip(f, v.members, [], rest);
      assert [] + v.members == v.members;
    }
  }

  lemma MembersStart(f: Floats, members: seq<Member>, rest: seq<Byte>)
    requires members != []
    ensures var s := EncodeMembers(f, members) + rest;
            s != [] && s[0] == QUOTE
  {
    hide Encode, EscapeAll;
  }

  lemma {:induction false} SetNewMember(members: seq<Member>, key: seq<Byte>, value: Json)
    requires forall i :: 0 <= i < |members| ==> members[i].key != key
    ensures SetMember(members, key, value) == members + [Member(key, value)]
    decreases |members|
  {
    if members != [] {
      SetNewMember(members[1..], key, value);
    }
  }

  /** One key and its value, as far as the comma or brace after it. */
  lemma {:induction false} MemberRoundTrip(f: Floats, m: Member, after: seq<Byte>)
    requires Plain(m.value) && !ContinuesNumber(after)
    ensures var r := ParseString(EncodeMember(f, m) + after);
            && r == Ok(m.key, [COLON] + (Encode(f, m.value) + after))
            && ParseValue(f, r.rest[1..]) == Ok(m.value, after)
    decreases m, 3
  {
    hide ParseString, ParseValue, EncodeString, Encode, Plain, ContinuesNumber;
    var tail := [COLON] + (Encode(f, m.value) + after);
    StringRoundTrip(m.key, tail);
    assert EncodeMember(f, m) + after == EncodeString(m.key) + tail;
    assert tail[1..] == Encode(f, m.value) + after;
    ValueRoundTrip(f, m.value, after);
  }

  lemma {:induction false} MembersRoundTrip(f: Floats, members: seq<Member>, done: seq<Member>, rest: seq<Byte>)
    requires members != [] && (forall i :: 0 <= i < |members| ==> Plain(members[i].value)) && DistinctKeys(done + members)
    ensures ParseMembers(f, EncodeMembers(f, members) + ([CLOSE_BRACE] + rest), done) == Ok(Map(done + members), rest)
    decreases members, 4
  {
    hide ParseValue, ParseString, EncodeMember, Plain, SetMember;
    var m := members[0];
    assert forall i :: 0 <= i < |done| ==> (done + members)[i] == done[i];
    assert (done + members)[|done|] == m;
    SetNewMember(done, m.key, m.value);
    if |members| == 1 {
      var after := [CLOSE_BRACE] + rest;
      assert after[0] == CLOSE_BRACE && after[1..] == rest && members == [m];
      MemberRoundTrip(f, m, after);
    } else {
      var more := EncodeMembers(f, members[1..]) + ([CLOSE_BRACE] + rest);
      var after := [COMMA] + more;
      assert EncodeMembers(f, members) + ([CLOSE_BRACE] + rest) == EncodeMember(f, m) + after;
      assert after[0] == COMMA && after[1..] == more;
      MemberRoundTrip(f, m, after);
      assert done + [m] + members[1..] == done + members;
      MembersRoundTrip(f, members[1..], done + [m], rest);
    }
  }

  /** native_json_decode on the output of native_json_encode. */
  lemma DecodeEncode(f: Floats, v: Json)
    requires Plain(v)
    ensures ParseValue(f, Encode(f, v)) == Ok(v, [])
  {
    ValueRoundTrip(f, v, []);
    assert Encode(f, v) + [] == Encode(f, v);
  }
}
