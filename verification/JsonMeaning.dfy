/** What JSON texts mean (sections 3 to 7 of RFC 8259), said of the trees of module JsonGrammar and not of the parser,
    and the proof that the parser of src/stdlib_json.c returns the meaning of the tree it reads. */
module JsonMeaning {
  import opened Bytes
  import opened JsonText
  import opened JsonGrammar
  import opened Utf8Text
  import Options
  import Values

  // ---- Characters ----

  /** The bytes are these ASCII characters. */
  predicate Ascii(s: seq<Byte>, text: string) {
    |s| == |text| && forall i :: 0 <= i < |s| ==> s[i] as int == text[i] as int
  }

  /** The escape letters and what they stand for. */
  const LETTERS := "\"\\/bfnrt"
  const MEANT: seq<Byte> := [0x22, 0x5C, 0x2F, 0x08, 0x0C, 0x0A, 0x0D, 0x09]

  predicate LetterMeans(letter: Byte, b: Byte) {
    || (exists i :: 0 <= i < |LETTERS| && LETTERS[i] as int == letter && b == MEANT[i])
    || ((forall i :: 0 <= i < |LETTERS| ==> LETTERS[i] as int != letter) && b == letter)
  }

  const HEX_LOWER := "0123456789abcdef"
  const HEX_UPPER := "0123456789ABCDEF"

  /** h is the hexadecimal digit with this value. */
  predicate HexDigit(h: Byte, v: nat) {
    v < 16 && (h == HEX_LOWER[v] as int || h == HEX_UPPER[v] as int)
  }

  ghost predicate HexMeans(hex: seq<Byte>, cp: nat) {
    |hex| == 4 && exists a: nat, b: nat, c: nat, d: nat ::
      && HexDigit(hex[0], a) && HexDigit(hex[1], b) && HexDigit(hex[2], c) && HexDigit(hex[3], d)
      && cp == 0x1000 * a + 0x100 * b + 0x10 * c + d
  }

  ghost predicate CharMeans(c: Char, bytes: seq<Byte>) {
    match c
    case Plain(c) => bytes == [c]
    case Escaped(letter) => |bytes| == 1 && LetterMeans(letter, bytes[0])
    case Unicode(hex) => exists cp: nat :: HexMeans(hex, cp) && Shows(bytes, cp)
  }

  /** Each character in turn. */
  ghost predicate CharsMean(chars: seq<Char>, bytes: seq<Byte>) {
    if chars == [] then bytes == []
    else exists k: nat :: k <= |bytes| && CharMeans(chars[0], bytes[..k]) && CharsMean(chars[1..], bytes[k..])
  }

  // ---- Numbers ----

  function Power10(n: nat): nat {
    if n == 0 then 1 else 10 * Power10(n - 1)
  }

  /** The number that digits write, place by place. */
  function Decimal10(digits: seq<Byte>): int {
    if digits == [] then 0 else (digits[0] as int - '0' as int) * Power10(|digits| - 1) + Decimal10(digits[1..])
  }

  /** The 64-bit integer nearest to n. */
  function Saturated(n: int): int {
    if n < -0x8000_0000_0000_0000 then -0x8000_0000_0000_0000 else if n > 0x7FFF_FFFF_FFFF_FFFF then 0x7FFF_FFFF_FFFF_FFFF else n
  }

  /** A 48-bit integer that is n up to multiples of 2^48. */
  predicate Fits48(r: int, n: int) {
    -0x8000_0000_0000 <= r < 0x8000_0000_0000 && (r - n) % 0x1_0000_0000_0000 == 0
  }

  /** The text of a number, of which the parser copies 63 bytes. */
  function Copied(n: Number): seq<Byte> {
    if |NumberText(n)| > 63 then NumberText(n)[..63] else NumberText(n)
  }

  function IntegerOf(text: seq<Byte>): int {
    if text != [] && text[0] == '-' as int then -Decimal10(text[1..]) else Decimal10(text)
  }

  predicate NumberMeans(f: Floats, n: Number, v: Json) {
    if n.fraction.None? && n.exponent.None? then v.Int? && Fits48(v.n, Saturated(IntegerOf(Copied(n))))
    else v == Float(f.read(Copied(n)))
  }

  // ---- Values ----

  function ItemSeq(items: Items): seq<Value> {
    match items
    case LastItem(item) => [item.value]
    case MoreItems(item, rest) => [item.value] + ItemSeq(rest)
  }

  predicate KeysDiffer(members: seq<Member>) {
    forall i, j :: 0 <= i < j < |members| ==> members[i].key != members[j].key
  }

  /** The entries of a map: for each name the last of its values, and every name once. */
  ghost predicate LastWins(names: seq<seq<Byte>>, values: seq<Json>, members: seq<Member>)
    requires |names| == |values|
  {
    && KeysDiffer(members)
    && (forall k :: 0 <= k < |members| ==> Wins(names, values, members[k]))
    && (forall i :: 0 <= i < |names| ==> exists k :: 0 <= k < |members| && members[k].key == names[i])
  }

  /** Name i is this name, and no later one is. */
  ghost predicate LastOf(names: seq<seq<Byte>>, i: int, name: seq<Byte>) {
    0 <= i < |names| && names[i] == name && forall j :: i < j < |names| ==> names[j] != name
  }

  /** Some entry is the last of the name and has the value. */
  ghost predicate Wins(names: seq<seq<Byte>>, values: seq<Json>, m: Member)
    requires |names| == |values|
  {
    exists i :: LastOf(names, i, m.key) && m.value == values[i]
  }

  ghost predicate Means(f: Floats, t: Value, v: Json) {
    match t
    case Word(word) =>
      (Ascii(word, "null") && v == Null) || (Ascii(word, "true") && v == Bool(true)) || (Ascii(word, "false") && v == Bool(false))
    case Num(n) => NumberMeans(f, n, v)
    case String(chars) => v.Str? && CharsMean(chars, v.s)
    case EmptyArray(_) => v == List([])
    case Array(items) => v.List? && ItemsMean(f, items, v.items)
    case EmptyObject(_) => v == Map([])
    case Object(entries) =>
      v.Map? && exists names: seq<seq<Byte>>, values: seq<Json> ::
        |names| == |values| && EntriesMean(f, entries, names, values) && LastWins(names, values, v.members)
  }

  ghost predicate ItemsMean(f: Floats, items: Items, vs: seq<Json>) {
    match items
    case LastItem(item) => |vs| == 1 && Means(f, item.value, vs[0])
    case MoreItems(item, rest) => |vs| > 1 && Means(f, item.value, vs[0]) && ItemsMean(f, rest, vs[1..])
  }

  ghost predicate EntryMeans(f: Floats, e: Entry, name: seq<Byte>, v: Json) {
    CharsMean(e.name, name) && Means(f, e.item.value, v)
  }

  ghost predicate EntriesMean(f: Floats, entries: Entries, names: seq<seq<Byte>>, values: seq<Json>)
    requires |names| == |values|
  {
    match entries
    case LastEntry(e) => |names| == 1 && EntryMeans(f, e, names[0], values[0])
    case MoreEntries(e, rest) => |names| > 1 && EntryMeans(f, e, names[0], values[0]) && EntriesMean(f, rest, names[1..], values[1..])
  }

  // ---- The bytes that have names ----

  /** The bytes that the grammar is written with are these characters. */
  lemma NamedBytes()
    ensures Ascii([SPACE, TAB, NEWLINE, RETURN], " \t\n\r") && forall c: Byte :: IsSpace(c) <==> c in {SPACE, TAB, NEWLINE, RETURN}
    ensures Ascii([OPEN_BRACKET, COMMA, CLOSE_BRACKET, OPEN_BRACE, COLON, CLOSE_BRACE, QUOTE, BACKSLASH], "[,]{:}\"\\")
    ensures Ascii([SLASH, LOWER_B, LOWER_F, LOWER_N, LOWER_R, LOWER_T, LOWER_U], "/bfnrtu")
    ensures Ascii([MINUS, PLUS, DOT, ZERO, LOWER_E, BIG_E], "-+.0eE") && forall c: Byte :: IsDigit(c) <==> '0' as int <= c <= '9' as int
    ensures Ascii(NULL_TEXT, "null") && Ascii(TRUE_TEXT, "true") && Ascii(FALSE_TEXT, "false")
  {
  }

  // ---- Characters are read as they mean ----

  lemma HexIsMeant(h: Byte)
    requires HexValue(h) < 16
    ensures HexDigit(h, HexValue(h))
  {
  }

  lemma LetterIsMeant(letter: Byte)
    ensures LetterMeans(letter, Unescape(letter))
  {
    var i := if letter == 0x22 then 0 else if letter == 0x5C then 1 else if letter == 0x2F then 2 else if letter == 98 then 3
      else if letter == 102 then 4 else if letter == 110 then 5 else if letter == 114 then 6 else 7;
    if letter in {0x22, 0x5C, 0x2F, 98, 102, 110, 114, 116} {
      assert LETTERS[i] as int == letter && Unescape(letter) == MEANT[i];
    }
  }

  lemma UnicodeIsMeant(hex: seq<Byte>)
    requires |hex| == 4 && IsHex4(hex)
    ensures CharMeans(Unicode(hex), Utf8(Hex4(hex)))
  {
    hide Shows, HexDigit, HexValue, Utf8;
    HexIsMeant(hex[0]);
    HexIsMeant(hex[1]);
    HexIsMeant(hex[2]);
    HexIsMeant(hex[3]);
    assert HexMeans(hex, Hex4(hex));
    EscapeShows(Hex4(hex));
  }

  lemma FirstChar(c: Char, more: seq<Char>, piece: seq<Byte>, bytes: seq<Byte>)
    requires CharMeans(c, piece) && CharsMean(more, bytes)
    ensures CharsMean([c] + more, piece + bytes)
  {
    hide CharMeans;
    var all, chars := piece + bytes, [c] + more;
    assert all[..|piece|] == piece && all[|piece|..] == bytes && chars[1..] == more;
  }

  lemma {:induction false} CharsParsed(s: seq<Byte>, done: seq<Byte>) returns (bytes: seq<Byte>)
    requires ReadChars(s).Ok?
    ensures ParseChars(s, done).Ok? && ParseChars(s, done).value == done + bytes && CharsMean(ReadChars(s).value, bytes)
    decreases |s|
  {
    hide Unescape, Utf8, IsHex4, Hex4, CharsMean, CharMeans, HexValue;
    if s[0] == QUOTE {
      bytes := [];
      NoChars();
      assert done + [] == done;
    } else {
      var k := if s[0] != BACKSLASH then 1 else if s[1] != LOWER_U then 2 else 6;
      var piece := PieceParsed(s, k, done);
      var more := CharsParsed(s[k..], done + piece);
      bytes := piece + more;
      assert done + piece + more == done + bytes;
      FirstChar(ReadChars(s).value[0], ReadChars(s[k..]).value, piece, more);
      assert ReadChars(s).value == [ReadChars(s).value[0]] + ReadChars(s[k..]).value;
    }
  }

  lemma NoChars()
    ensures CharsMean([], [])
  {
  }

  lemma PieceParsed(s: seq<Byte>, k: nat, done: seq<Byte>) returns (piece: seq<Byte>)
    requires ReadChars(s).Ok? && s[0] != QUOTE && k == if s[0] != BACKSLASH then 1 else if s[1] != LOWER_U then 2 else 6
    ensures k <= |s| && ParseChars(s, done) == ParseChars(s[k..], done + piece) && ReadChars(s[k..]).Ok?
    ensures ReadChars(s).value != [] && CharMeans(ReadChars(s).value[0], piece)
  {
    hide HexValue, Utf8, HexMeans, Shows, LetterMeans;
    if k == 1 {
      piece := [s[0]];
    } else if k == 2 {
      piece := [Unescape(s[1])];
      LetterIsMeant(s[1]);
    } else {
      piece := Utf8(Hex4(s[2..]));
      SameHex4(s[2..]);
      UnicodeIsMeant(s[2..6]);
    }
  }

  lemma SameHex4(s: seq<Byte>)
    requires IsHex4(s)
    ensures IsHex4(s[..4]) && Hex4(s[..4]) == Hex4(s)
  {
    hide HexValue;
  }

  // ---- Numbers are read as they mean ----

  lemma {:induction false} DecimalSnoc(digits: seq<Byte>, d: Byte)
    ensures Decimal10(digits + [d]) == 10 * Decimal10(digits) + (d as int - '0' as int)
    decreases |digits|
  {
    if digits == [] {
      assert ([] + [d])[1..] == [] && ([] + [d])[0] == d;
    } else {
      var rest := digits[1..];
      assert (digits + [d])[1..] == rest + [d];
      DecimalSnoc(rest, d);
      var first, p := digits[0] as int - '0' as int, Power10(|rest|);
      assert Power10(|rest| + 1) == 10 * p;
      assert first * (10 * p) == 10 * (first * p);
    }
  }

  lemma {:induction false} DigitsAreDecimal(s: seq<Byte>)
    requires forall i :: 0 <= i < |s| ==> IsDigit(s[i])
    ensures DigitsValue(s) == Decimal10(s)
    decreases |s|
  {
    if s != [] {
      var n := |s| - 1;
      assert s == s[..n] + [s[n]];
      DecimalSnoc(s[..n], s[n]);
      DigitsAreDecimal(s[..n]);
    }
  }

  lemma WrappedFits(n: int)
    ensures Fits48(Values.Wrap48(n), n)
  {
    Values.Wrap48Congruent(n);
  }

  lemma SaturatingRead(text: seq<Byte>)
    requires forall i :: 0 <= i < |text| ==> IsDigit(text[i]) || (i == 0 && text[i] == MINUS)
    ensures Strtoll(text) == Saturated(IntegerOf(text))
  {
    hide Decimal10, DigitsValue;
    DigitsAreDecimal(if text != [] && text[0] == MINUS then text[1..] else text);
  }

  /** Without fraction and exponent the text is an optional minus and digits. */
  lemma IntegerText(n: Number)
    requires LooseNumber(n) && n.fraction.None? && n.exponent.None?
    ensures forall i :: 0 <= i < |NumberText(n)| ==> IsDigit(NumberText(n)[i]) || (i == 0 && NumberText(n)[i] == MINUS)
  {
    assert NumberText(n) == (if n.minus then [MINUS] else []) + n.whole;
  }

  /** The parser takes a number for an integer if it has neither fraction nor exponent. */
  lemma FloatIff(s: seq<Byte>)
    requires ReadNumber(s).Ok?
    ensures var n := ReadNumber(s).value;
            n.fraction.None? && n.exponent.None? <==> |ReadNumber(s).rest| == |SkipDigits(SkipMinus(s))|
  {
    hide SkipMinus;
    SkipDigitsShorter(SkipDigits(SkipMinus(s)));
  }

  lemma SkipDigitsShorter(whole: seq<Byte>)
    ensures |SkipExponent(SkipFraction(whole))| == |whole| <==>
            whole == [] || (whole[0] != DOT && whole[0] != LOWER_E && whole[0] != BIG_E)
    ensures whole != [] && whole[0] != DOT && whole[0] != LOWER_E && whole[0] != BIG_E ==> SkipFraction(whole) == whole
  {
    hide SkipDigits;
  }

  lemma NumberParsed(f: Floats, s: seq<Byte>)
    requires s != [] && (s[0] == MINUS || IsDigit(s[0])) && ReadNumber(s).Ok?
    ensures ParseNumber(f, s).Ok? && NumberMeans(f, ReadNumber(s).value, ParseNumber(f, s).value)
  {
    hide SkipDigits, SkipMinus, SkipFraction, SkipExponent, ReadFraction, ReadExponent, NumberText, LooseNumber, Strtoll, Saturated,
      IntegerOf, Fits48, Values.Wrap48;
    var n, rest := ReadNumber(s).value, ReadNumber(s).rest;
    NumberWritten(s);
    FloatIff(s);
    var text := NumberText(n);
    assert s[..|text|] == text;
    assert |text| > 63 ==> s[..63] == text[..63];
    if n.fraction.None? && n.exponent.None? {
      IntegerText(n);
      SaturatingRead(Copied(n));
      WrappedFits(Strtoll(Copied(n)));
    }
  }

  // ---- Values are read as they mean ----

  /** Setting the entries one by one, as obj_map_set does. */
  function SetAll(members: seq<Member>, names: seq<seq<Byte>>, values: seq<Json>): seq<Member>
    requires |names| == |values|
    decreases |names|
  {
    if names == [] then members else SetAll(SetMember(members, names[0], values[0]), names[1..], values[1..])
  }

  lemma FirstKey(members: seq<Member>)
    requires members != [] && KeysDiffer(members)
    ensures KeysDiffer(members[1..]) && forall m :: m in members[1..] ==> m.key != members[0].key
  {
    forall m | m in members[1..] ensures m.key != members[0].key {
      var j :| 0 <= j < |members[1..]| && members[1..][j] == m;
      assert members[j + 1] == m;
    }
  }

  lemma AddFirstKey(first: Member, rest: seq<Member>)
    requires KeysDiffer(rest) && forall m :: m in rest ==> m.key != first.key
    ensures KeysDiffer([first] + rest)
  {
    var all := [first] + rest;
    forall i, j | 0 <= i < j < |all| ensures all[i].key != all[j].key {
      assert all[j] == rest[j - 1] && rest[j - 1] in rest;
      if i > 0 { assert all[i] == rest[i - 1]; }
    }
  }

  /** SetMember replaces the value of a name or adds the name. */
  lemma {:induction false} SetMemberMeans(members: seq<Member>, key: seq<Byte>, value: Json)
    requires KeysDiffer(members)
    ensures var r := SetMember(members, key, value);
            && KeysDiffer(r)
            && (forall m :: m in r <==> m == Member(key, value) || (m in members && m.key != key))
  {
    hide KeysDiffer;
    if members == [] {
      OneKey(Member(key, value));
    } else {
      var first, rest := members[0], members[1..];
      assert members == [first] + rest;
      FirstKey(members);
      if first.key == key {
        AddFirstKey(Member(key, value), rest);
      } else {
        SetMemberMeans(rest, key, value);
        AddFirstKey(first, SetMember(rest, key, value));
      }
    }
  }

  lemma OneKey(m: Member)
    ensures KeysDiffer([m])
  {
  }

  lemma LastOfTail(names: seq<seq<Byte>>, i: int, name: seq<Byte>)
    requires names != []
    ensures LastOf(names[1..], i, name) <==> i >= 0 && LastOf(names, i + 1, name)
  {
    if LastOf(names[1..], i, name) {
      assert forall j :: i + 1 < j < |names| ==> names[j] == names[1..][j - 1];
    }
  }

  lemma NamedTail(names: seq<seq<Byte>>, name: seq<Byte>)
    requires names != []
    ensures name in names <==> names[0] == name || name in names[1..]
    ensures LastOf(names, 0, name) <==> names[0] == name && name !in names[1..]
  {
    assert names == [names[0]] + names[1..];
    if names[0] == name && name !in names[1..] {
      assert forall j :: 0 < j < |names| ==> names[j] == names[1..][j - 1];
    }
    if LastOf(names, 0, name) {
      forall j | 0 <= j < |names[1..]| ensures names[1..][j] != name { assert names[1..][j] == names[j + 1]; }
    }
  }

  lemma WinsTail(names: seq<seq<Byte>>, values: seq<Json>, m: Member)
    requires |names| == |values| > 0
    ensures Wins(names, values, m) <==>
            Wins(names[1..], values[1..], m) || (names[0] == m.key && m.key !in names[1..] && m.value == values[0])
  {
    NamedTail(names, m.key);
    if Wins(names[1..], values[1..], m) {
      var i :| LastOf(names[1..], i, m.key) && m.value == values[1..][i];
      LastOfTail(names, i, m.key);
      assert LastOf(names, i + 1, m.key) && m.value == values[i + 1];
    }
    if Wins(names, values, m) {
      var i :| LastOf(names, i, m.key) && m.value == values[i];
      LastOfTail(names, i - 1, m.key);
      if i > 0 { assert LastOf(names[1..], i - 1, m.key) && m.value == values[1..][i - 1]; }
    }
  }

  /** A member comes from the last entry of its name, or from before if there is none. */
  ghost predicate SetFrom(members: seq<Member>, names: seq<seq<Byte>>, values: seq<Json>, m: Member)
    requires |names| == |values|
  {
    Wins(names, values, m) || (m in members && m.key !in names)
  }

  lemma SetFromFirst(members: seq<Member>, names: seq<seq<Byte>>, values: seq<Json>, m: Member)
    requires |names| == |values| > 0 && KeysDiffer(members)
    ensures SetFrom(SetMember(members, names[0], values[0]), names[1..], values[1..], m) <==> SetFrom(members, names, values, m)
  {
    hide Wins, SetMember;
    SetMemberMeans(members, names[0], values[0]);
    WinsTail(names, values, m);
    NamedTail(names, m.key);
  }

  lemma {:induction false} SetAllMeans(members: seq<Member>, names: seq<seq<Byte>>, values: seq<Json>, r: seq<Member>)
    requires |names| == |values| && KeysDiffer(members) && r == SetAll(members, names, values)
    ensures KeysDiffer(r) && forall m :: m in r <==> SetFrom(members, names, values, m)
    decreases |names|
  {
    hide SetFrom, SetMember, KeysDiffer;
    if names == [] {
      forall m ensures m in members <==> SetFrom(members, names, values, m) { SetFromNone(members, m); }
    } else {
      SetMemberMeans(members, names[0], values[0]);
      SetAllMeans(SetMember(members, names[0], values[0]), names[1..], values[1..], r);
      forall m ensures m in r <==> SetFrom(members, names, values, m) {
        SetFromFirst(members, names, values, m);
      }
    }
  }

  lemma SetFromNone(members: seq<Member>, m: Member)
    ensures SetFrom(members, [], [], m) <==> m in members
  {
  }

  /** Whatever the parser accepts, it returns what the tree that is read means. */
  lemma {:induction false} ValueParsed(f: Floats, s: seq<Byte>)
    requires ReadValue(s).Ok?
    ensures ParseValue(f, s).Ok? && ParseValue(f, s).rest == ReadValue(s).rest
    ensures Means(f, ReadValue(s).value.value, ParseValue(f, s).value)
    decreases |s|, 0
  {
    hide ParseValue, ReadValue, SkipSpace, Means;
    SameValue(f, s);
    ValueStarts(s);
    var c := SkipSpace(s)[0];
    if c == OPEN_BRACE {
      ObjectParsed(f, s);
    } else if c == OPEN_BRACKET {
      ArrayParsed(f, s);
    } else {
      ScalarParsed(f, s);
    }
  }

  lemma ScalarParsed(f: Floats, s: seq<Byte>)
    requires ReadValue(s).Ok? && SkipSpace(s)[0] != OPEN_BRACE && SkipSpace(s)[0] != OPEN_BRACKET
    ensures ParseValue(f, s).Ok? ==> Means(f, ReadValue(s).value.value, ParseValue(f, s).value)
  {
    hide SkipSpace, ParseNumber, ReadNumber, ParseChars, ReadChars, ParseItems, ReadItems, ParseMembers, ReadEntries, NumberMeans,
      CharsMean;
    var t := SkipSpace(s);
    if t[0] == QUOTE {
      SpaceTwice(s);
      var bytes := CharsParsed(t[1..], []);
      assert [] + bytes == bytes;
    } else if t[0] == MINUS || IsDigit(t[0]) {
      NumberParsed(f, t);
    } else {
      NamedBytes();
    }
  }

  lemma {:induction false} ArrayParsed(f: Floats, s: seq<Byte>)
    requires ReadValue(s).Ok? && SkipSpace(s)[0] == OPEN_BRACKET
    ensures ParseValue(f, s).Ok? ==> Means(f, ReadValue(s).value.value, ParseValue(f, s).value)
    decreases |s|, 0, 0
  {
    hide SkipSpace, ParseNumber, ReadNumber, ParseChars, ReadChars, ParseItems, ReadItems, ParseMembers, ReadEntries, ItemsMean;
    var t := SkipSpace(s);
    var inner := SkipSpace(t[1..]);
    if !(inner != [] && inner[0] == CLOSE_BRACKET) {
      var vs := ItemsParsed(f, t[1..], []);
      ItemsAfterSpace(f, t[1..], []);
      assert [] + vs == vs;
    }
  }

  lemma {:induction false} ObjectParsed(f: Floats, s: seq<Byte>)
    requires ReadValue(s).Ok? && SkipSpace(s)[0] == OPEN_BRACE
    ensures ParseValue(f, s).Ok? ==> Means(f, ReadValue(s).value.value, ParseValue(f, s).value)
    decreases |s|, 0, 0
  {
    hide SkipSpace, ParseNumber, ReadNumber, ParseChars, ReadChars, ParseItems, ReadItems, ParseMembers, ReadEntries, EntriesMean,
      LastWins;
    var t := SkipSpace(s);
    var inner := SkipSpace(t[1..]);
    if !(inner != [] && inner[0] == CLOSE_BRACE) {
      var names, values := EntriesParsed(f, t[1..], []);
      MembersAfterSpace(f, t[1..], []);
      LastWinsOf(names, values);
    }
  }

  lemma LastWinsOf(names: seq<seq<Byte>>, values: seq<Json>)
    requires |names| == |values|
    ensures LastWins(names, values, SetAll([], names, values))
  {
    hide Wins, SetMember, SetFrom, LastWins;
    var members := SetAll([], names, values);
    SetAllMeans([], names, values, members);
    WinnersOnly(members, names, values);
  }

  lemma WinnersOnly(members: seq<Member>, names: seq<seq<Byte>>, values: seq<Json>)
    requires |names| == |values| && KeysDiffer(members)
    requires forall m :: m in members <==> SetFrom([], names, values, m)
    ensures LastWins(names, values, members)
  {
    hide Wins;
    forall k | 0 <= k < |members| ensures Wins(names, values, members[k]) {
      assert members[k] in members;
    }
    forall i | 0 <= i < |names| ensures exists k :: 0 <= k < |members| && members[k].key == names[i] {
      var last := LastIndex(names, i);
      var m := Member(names[i], values[last]);
      assert Wins(names, values, m) by { WinsAt(names, values, last); }
      assert m in members;
    }
    assert forall k :: 0 <= k < |members| ==> Wins(names, values, members[k]);
    assert forall i :: 0 <= i < |names| ==> exists k :: 0 <= k < |members| && members[k].key == names[i];
  }

  lemma WinsAt(names: seq<seq<Byte>>, values: seq<Json>, i: nat)
    requires |names| == |values| && i < |names| && LastOf(names, i, names[i])
    ensures Wins(names, values, Member(names[i], values[i]))
  {
    assert LastOf(names, i, Member(names[i], values[i]).key);
  }

  lemma {:induction false} LastIndex(names: seq<seq<Byte>>, i: nat) returns (last: nat)
    requires i < |names|
    ensures last < |names| && names[last] == names[i] && LastOf(names, last, names[i])
    decreases |names| - i
  {
    if j :| i < j < |names| && names[j] == names[i] {
      last := LastIndex(names, j);
    } else {
      last := i;
    }
  }

  lemma {:induction false} ItemsParsed(f: Floats, s: seq<Byte>, done: seq<Json>) returns (vs: seq<Json>)
    requires ReadItems(s).Ok?
    ensures ParseItems(f, s, done).Ok? && ParseItems(f, s, done).value == List(done + vs)
    ensures vs != [] && ItemsMean(f, ReadItems(s).value, vs)
    decreases |s|, 1
  {
    hide SkipSpace, ParseItems, ParseValue, ReadValue, Means;
    ItemsStep(f, s, done);
    ValueParsed(f, s);
    var v := ParseValue(f, s);
    var t := SkipSpace(v.rest);
    if t[0] == COMMA && t[0] != CLOSE_BRACKET {
      var more := ItemsParsed(f, t[1..], done + [v.value]);
      vs := [v.value] + more;
      assert vs[1..] == more && done + [v.value] + more == done + vs;
    } else {
      vs := [v.value];
    }
  }

  lemma NameParsed(s: seq<Byte>)
    requires ReadName(s).Ok?
    ensures ParseString(s).Ok? && CharsMean(ReadName(s).value.value.value, ParseString(s).value)
  {
    hide SkipSpace, ParseChars, ReadChars, CharsMean;
    var t := SkipSpace(s);
    var bytes := CharsParsed(t[1..], []);
    assert [] + bytes == bytes;
  }

  lemma {:induction false} EntriesParsed(f: Floats, s: seq<Byte>, done: seq<Member>)
    returns (names: seq<seq<Byte>>, values: seq<Json>)
    requires ReadEntries(s).Ok?
    ensures |names| == |values| > 0 && EntriesMean(f, ReadEntries(s).value, names, values)
    ensures ParseMembers(f, s, done).Ok? && ParseMembers(f, s, done).value == Map(SetAll(done, names, values))
    decreases |s|, 1
  {
    hide SkipSpace, ParseMembers, ParseValue, ReadValue, ParseString, ReadName, SetMember, Means, CharsMean;
    MembersStep(f, s, done);
    SameName(s);
    NameParsed(s);
    var name := ReadName(s);
    ValueParsed(f, name.rest);
    var key, v := ParseString(s).value, ParseValue(f, name.rest);
    var t := SkipSpace(v.rest);
    if t[0] == COMMA && t[0] != CLOSE_BRACE {
      var moreNames, moreValues := EntriesParsed(f, t[1..], SetMember(done, key, v.value));
      names, values := [key] + moreNames, [v.value] + moreValues;
      assert names[1..] == moreNames && values[1..] == moreValues;
    } else {
      names, values := [key], [v.value];
      assert names[1..] == [] && values[1..] == [];
    }
  }

  // ---- The theorems ----

  /** Every text of every tree is read as what the tree means. */
  lemma TextMeans(f: Floats, before: seq<Byte>, t: Value, rest: seq<Byte>)
    requires Blanks(before) && LooseValue(t) && EndsValue(t, rest)
    ensures var r := ParseValue(f, before + (ValueText(t) + rest));
            r.Ok? && r.rest == rest && Means(f, t, r.value)
  {
    hide *;
    ValueReadBack(before, t, rest);
    ValueParsed(f, before + (ValueText(t) + rest));
  }

  /** So every JSON text is decoded to its meaning. */
  lemma JsonTextMeans(f: Floats, item: Item)
    requires LooseItem(item) && Strict(item.value)
    ensures Means(f, item.value, Decode(f, ItemText(item)))
  {
    hide ParseValue, Means, LooseValue, ValueText, Blanks, Strict, EndsValue;
    BlankOr(item.after, []);
    assert item.after + [] == item.after;
    EndsAt(item.value, item.after);
    TextMeans(f, item.before, item.value, item.after);
  }

  // ---- One meaning ----

  function DigitAt(h: Byte): int {
    if h <= 57 then h - 48 else if h <= 70 then h - 55 else h - 87
  }

  lemma HexDigitValue(h: Byte, v: nat)
    requires HexDigit(h, v)
    ensures v as int == DigitAt(h)
  {
  }

  lemma HexValueOf(hex: seq<Byte>, cp: nat)
    requires HexMeans(hex, cp)
    ensures |hex| == 4
    ensures cp as int == 0x1000 * DigitAt(hex[0]) + 0x100 * DigitAt(hex[1]) + 0x10 * DigitAt(hex[2]) + DigitAt(hex[3])
  {
    hide HexDigit, DigitAt;
    var a: nat, b: nat, c: nat, d: nat :| HexDigit(hex[0], a) && HexDigit(hex[1], b) && HexDigit(hex[2], c) && HexDigit(hex[3], d)
      && cp == 0x1000 * a + 0x100 * b + 0x10 * c + d;
    HexDigitValue(hex[0], a);
    HexDigitValue(hex[1], b);
    HexDigitValue(hex[2], c);
    HexDigitValue(hex[3], d);
  }

  lemma HexOnce(hex: seq<Byte>, cp: nat, cp': nat)
    requires HexMeans(hex, cp) && HexMeans(hex, cp')
    ensures cp == cp'
  {
    hide HexMeans, DigitAt;
    HexValueOf(hex, cp);
    HexValueOf(hex, cp');
  }

  lemma LetterOnce(letter: Byte, b: Byte, b': Byte)
    requires LetterMeans(letter, b) && LetterMeans(letter, b')
    ensures b == b'
  {
  }

  lemma CharOnce(c: Char, piece: seq<Byte>, piece': seq<Byte>)
    requires CharMeans(c, piece) && CharMeans(c, piece')
    ensures piece == piece'
  {
    hide HexMeans, Shows, LetterMeans;
    match c
    case Plain(_) =>
    case Escaped(letter) => LetterOnce(letter, piece[0], piece'[0]);
    case Unicode(hex) =>
      var cp: nat :| HexMeans(hex, cp) && Shows(piece, cp);
      var cp': nat :| HexMeans(hex, cp') && Shows(piece', cp');
      HexOnce(hex, cp, cp');
      ShownOnce(piece, piece', cp);
  }

  /** A string has one meaning. */
  lemma {:induction false} CharsMeanOnce(chars: seq<Char>, bytes: seq<Byte>, bytes': seq<Byte>)
    requires CharsMean(chars, bytes) && CharsMean(chars, bytes')
    ensures bytes == bytes'
    decreases |chars|
  {
    hide CharMeans;
    if chars != [] {
      var k: nat :| k <= |bytes| && CharMeans(chars[0], bytes[..k]) && CharsMean(chars[1..], bytes[k..]);
      var k': nat :| k' <= |bytes'| && CharMeans(chars[0], bytes'[..k']) && CharsMean(chars[1..], bytes'[k'..]);
      CharOnce(chars[0], bytes[..k], bytes'[..k']);
      CharsMeanOnce(chars[1..], bytes[k..], bytes'[k'..]);
      assert bytes == bytes[..k] + bytes[k..] && bytes' == bytes'[..k'] + bytes'[k'..];
    }
  }

  // ---- Surrogates ----

  ghost predicate Surrogate(c: Char, from: nat, to: nat) {
    c.Unicode? && exists cp: nat :: HexMeans(c.hex, cp) && from <= cp <= to
  }

  /** Section 7 of RFC 8259: two escapes that are a surrogate pair are one character, which is shown in four bytes. */
  ghost predicate PairMeans(c: Char, d: Char, bytes: seq<Byte>) {
    && c.Unicode? && d.Unicode? && IsLongCharacter(bytes)
    && exists high: nat, low: nat ::
      && HexMeans(c.hex, high) && HexMeans(d.hex, low) && 0xD800 <= high <= 0xDBFF && 0xDC00 <= low <= 0xDFFF
      && LongCodePoint(bytes) == 0x1_0000 + (high - 0xD800) * 0x400 + (low - 0xDC00)
  }

  /** The bytes that the standard has for a string: surrogates by pairs only. */
  ghost predicate StandardMean(chars: seq<Char>, bytes: seq<Byte>)
    decreases |chars|
  {
    if chars == [] then bytes == []
    else if Surrogate(chars[0], 0xD800, 0xDFFF) then
      |chars| > 1 && |bytes| >= 4 && PairMeans(chars[0], chars[1], bytes[..4]) && StandardMean(chars[2..], bytes[4..])
    else
      exists k: nat :: k <= |bytes| && CharMeans(chars[0], bytes[..k]) && StandardMean(chars[1..], bytes[k..])
  }

  lemma SurrogateBytes(c: Char, piece: seq<Byte>)
    requires Surrogate(c, 0xD800, 0xDFFF) && CharMeans(c, piece)
    ensures |piece| == 3 && piece[0] == 0xED
  {
    hide HexMeans;
    var cp: nat :| HexMeans(c.hex, cp) && 0xD800 <= cp <= 0xDFFF;
    var cp': nat :| HexMeans(c.hex, cp') && Shows(piece, cp');
    HexOnce(c.hex, cp, cp');
  }

  /** The parser reads a string as the standard does if and only if it has no surrogate escapes; it takes each of them
      for a character of its own. */
  lemma {:induction false} StandardIff(chars: seq<Char>, bytes: seq<Byte>)
    requires CharsMean(chars, bytes)
    ensures StandardMean(chars, bytes) <==> forall i :: 0 <= i < |chars| ==> !Surrogate(chars[i], 0xD800, 0xDFFF)
    decreases |chars|
  {
    hide CharMeans, Surrogate, PairMeans;
    if chars != [] {
      var k: nat :| k <= |bytes| && CharMeans(chars[0], bytes[..k]) && CharsMean(chars[1..], bytes[k..]);
      if Surrogate(chars[0], 0xD800, 0xDFFF) {
        SurrogateBytes(chars[0], bytes[..k]);
        PairStarts(chars[0], chars[1..], bytes);
      } else {
        StandardIff(chars[1..], bytes[k..]);
        forall k': nat | k' <= |bytes| && CharMeans(chars[0], bytes[..k']) ensures k' == k {
          CharOnce(chars[0], bytes[..k], bytes[..k']);
          assert |bytes[..k]| == |bytes[..k']|;
        }
        assert forall i :: 1 <= i < |chars| ==> chars[i] == chars[1..][i - 1];
        assert forall i :: 0 <= i < |chars| - 1 ==> chars[1..][i] == chars[i + 1];
      }
    }
  }

  lemma PairStarts(c: Char, more: seq<Char>, bytes: seq<Byte>)
    ensures more != [] && |bytes| >= 4 && PairMeans(c, more[0], bytes[..4]) ==> bytes[0] >= 0xF0
  {
  }

  /** What the escape in the text `"\u00e9"` means. */
  lemma EAcute(bytes: seq<Byte>)
    ensures CharMeans(Unicode([48, 48, 101, 57]), bytes) <==> bytes == [0xC3, 0xA9]
  {
    hide Shows;
    var hex: seq<Byte> := [48, 48, 101, 57];
    HexIsMeant(48);
    HexIsMeant(101);
    HexIsMeant(57);
    assert HexMeans(hex, 0xE9) by {
      assert HexDigit(hex[0], 0) && HexDigit(hex[1], 0) && HexDigit(hex[2], 14) && HexDigit(hex[3], 9);
      assert 0xE9 == 0x1000 * 0 + 0x100 * 0 + 0x10 * 14 + 9;
    }
    ShowsEAcute();
    if CharMeans(Unicode(hex), bytes) { CharOnce(Unicode(hex), bytes, [0xC3, 0xA9]); }
  }

  lemma ShowsEAcute()
    ensures Shows([0xC3, 0xA9], 0xE9)
  {
  }

  // ---- What the encoder writes is a JSON text of its value ----

  function CharOf(c: Byte): Char {
    if c == QUOTE || c == BACKSLASH then Escaped(c)
    else if c == NEWLINE then Escaped(LOWER_N)
    else if c == RETURN then Escaped(LOWER_R)
    else if c == TAB then Escaped(LOWER_T)
    else if c < 32 then Unicode([ZERO, ZERO, Hex(c / 16), Hex(c % 16)])
    else Char.Plain(c)
  }

  function CharsOf(s: seq<Byte>): (chars: seq<Char>)
    ensures |chars| == |s| && forall i :: 0 <= i < |s| ==> chars[i] == CharOf(s[i])
  {
    if s == [] then [] else [CharOf(s[0])] + CharsOf(s[1..])
  }

  function NumberOf(n: int): Number {
    Number(n < 0, Digits(if n < 0 then -n else n), Options.None, Options.None)
  }

  /** The tree of a value without floats and other objects. */
  function TreeOf(v: Json): Value
    requires JsonText.Plain(v)
  {
    match v
    case Null => Word(NULL_TEXT)
    case Bool(b) => Word(if b then TRUE_TEXT else FALSE_TEXT)
    case Int(n) => Num(NumberOf(n))
    case Str(s) => String(CharsOf(s))
    case List(items) => if items == [] then EmptyArray([]) else Array(ItemsOf(items))
    case Map(members) => if members == [] then EmptyObject([]) else Object(EntriesOf(members))
  }

  function ItemsOf(items: seq<Json>): Items
    requires items != [] && forall i :: 0 <= i < |items| ==> JsonText.Plain(items[i])
  {
    var item := Item([], TreeOf(items[0]), []);
    if |items| == 1 then LastItem(item) else MoreItems(item, ItemsOf(items[1..]))
  }

  function EntriesOf(members: seq<Member>): Entries
    requires members != [] && forall i :: 0 <= i < |members| ==> JsonText.Plain(members[i].value)
  {
    var e := Entry([], CharsOf(members[0].key), [], Item([], TreeOf(members[0].value), []));
    if |members| == 1 then LastEntry(e) else MoreEntries(e, EntriesOf(members[1..]))
  }

  lemma CharOfEscapes(c: Byte)
    ensures CharText(CharOf(c)) == Escape(c) && LooseChar(CharOf(c)) && StrictChar(CharOf(c))
  {
    if c < 32 && c != NEWLINE && c != RETURN && c != TAB {
      assert HexValue(Hex(c / 16)) < 16 && HexValue(Hex(c % 16)) < 16;
    }
  }

  lemma {:induction false} CharsOfEscape(s: seq<Byte>)
    ensures CharsText(CharsOf(s)) == EscapeAll(s) + [QUOTE]
    decreases |s|
  {
    hide Escape, CharText, CharOf;
    if s != [] {
      CharOfEscapes(s[0]);
      CharsOfEscape(s[1..]);
      assert CharsOf(s)[1..] == CharsOf(s[1..]);
      Assoc3(Escape(s[0]), EscapeAll(s[1..]), [QUOTE]);
    }
  }

  lemma CharsOfAreStrict(s: seq<Byte>)
    ensures LooseChars(CharsOf(s)) && forall c :: c in CharsOf(s) ==> StrictChar(c)
  {
    hide LooseChar, StrictChar, CharOf;
    forall i | 0 <= i < |s| ensures LooseChar(CharsOf(s)[i]) && StrictChar(CharsOf(s)[i]) { CharOfEscapes(s[i]); }
  }

  lemma {:induction false} NoLeadingZero(n: nat)
    ensures AllDigits(Digits(n)) && (Digits(n)[0] == ZERO ==> n == 0)
    decreases n
  {
    if n >= 10 {
      NoLeadingZero(n / 10);
      assert Digits(n)[0] == Digits(n / 10)[0];
    }
  }

  lemma NumberOfWrites(n: int)
    ensures NumberText(NumberOf(n)) == Decimal(n) && LooseNumber(NumberOf(n)) && StrictNumber(NumberOf(n))
  {
    NoLeadingZero(if n < 0 then -n else n);
    assert NumberOf(n).whole + ([] + []) == NumberOf(n).whole;
  }

  /** The tree is written as what the encoder writes, and is strict. */
  ghost predicate Written(f: Floats, v: Json, t: Value) {
    ValueText(t) == Encode(f, v) && LooseValue(t) && Strict(t)
  }

  lemma {:induction false} TreeIsWritten(f: Floats, v: Json)
    requires JsonText.Plain(v)
    ensures Written(f, v, TreeOf(v))
    decreases v, 1
  {
    hide Encode, ValueText, LooseValue, TreeOf, Strict;
    match v {
      case List(items) =>
        if items != [] { ItemsAreWritten(f, items); }
        ListIsWritten(f, items);
      case Map(members) =>
        if members != [] { EntriesAreWritten(f, members); }
        MapIsWritten(f, members);
      case Int(n) => IntIsWritten(f, n);
      case Str(s) => StrIsWritten(f, s);
      case _ => WordIsWritten(f, v);
    }
  }

  lemma WordIsWritten(f: Floats, v: Json)
    requires v.Null? || v.Bool?
    ensures Written(f, v, TreeOf(v))
  {
  }

  lemma IntIsWritten(f: Floats, n: int)
    requires JsonText.Plain(Json.Int(n))
    ensures Written(f, Json.Int(n), TreeOf(Json.Int(n)))
  {
    hide NumberText, NumberOf, LooseNumber, StrictNumber;
    NumberOfWrites(n);
  }

  lemma StrIsWritten(f: Floats, s: seq<Byte>)
    ensures Written(f, Json.Str(s), TreeOf(Json.Str(s)))
  {
    hide CharsText, EscapeAll, LooseChars, StrictChar, CharsOf;
    CharsOfEscape(s);
    CharsOfAreStrict(s);
  }

  ghost predicate ItemsWritten(f: Floats, items: seq<Json>, t: Items) {
    && ItemsText(t) == EncodeItems(f, items) + [CLOSE_BRACKET] && LooseItems(t)
    && (forall n :: n in NumbersOfItems(t) ==> StrictNumber(n)) && (forall c :: c in CharsOfItems(t) ==> StrictChar(c))
  }

  ghost predicate EntriesWritten(f: Floats, members: seq<Member>, t: Entries) {
    && EntriesText(t) == EncodeMembers(f, members) + [CLOSE_BRACE] && LooseEntries(t)
    && (forall n :: n in NumbersOfEntries(t) ==> StrictNumber(n)) && (forall c :: c in CharsOfEntries(t) ==> StrictChar(c))
  }

  lemma ListIsWritten(f: Floats, items: seq<Json>)
    requires JsonText.Plain(Json.List(items)) && (items != [] ==> ItemsWritten(f, items, ItemsOf(items)))
    ensures Written(f, Json.List(items), TreeOf(Json.List(items)))
  {
    hide EncodeItems, ItemsText, LooseItems, NumbersOfItems, CharsOfItems, StrictNumber, StrictChar, ItemsOf;
    NoItems(f);
  }

  lemma MapIsWritten(f: Floats, members: seq<Member>)
    requires JsonText.Plain(Json.Map(members)) && (members != [] ==> EntriesWritten(f, members, EntriesOf(members)))
    ensures Written(f, Json.Map(members), TreeOf(Json.Map(members)))
  {
    hide EncodeMembers, EntriesText, LooseEntries, NumbersOfEntries, CharsOfEntries, StrictNumber, StrictChar, EntriesOf;
    NoItems(f);
  }

  lemma {:induction false} ItemsAreWritten(f: Floats, items: seq<Json>)
    requires items != [] && forall i :: 0 <= i < |items| ==> JsonText.Plain(items[i])
    ensures ItemsWritten(f, items, ItemsOf(items))
    decreases items
  {
    hide Encode, ValueText, LooseValue, TreeOf, StrictNumber, StrictChar, Numbers, Chars, JsonText.Plain;
    TreeIsWritten(f, items[0]);
    var item := Item([], TreeOf(items[0]), []);
    BareItem(item);
    assert ItemsOf(items).item == item;
    if |items| > 1 {
      ItemsAreWritten(f, items[1..]);
      assert ItemsOf(items) == MoreItems(item, ItemsOf(items[1..]));
      var rest := EncodeItems(f, items[1..]);
      Assoc3([COMMA], rest, [CLOSE_BRACKET]);
      Assoc3(Encode(f, items[0]), [COMMA] + rest, [CLOSE_BRACKET]);
      Assoc3(Encode(f, items[0]), [COMMA], rest);
    }
  }

  lemma BareItem(item: Item)
    requires item.before == [] && item.after == []
    ensures ItemText(item) == ValueText(item.value) && (LooseItem(item) <==> LooseValue(item.value))
  {
    hide ValueText, LooseValue;
  }

  lemma EntryIsWritten(f: Floats, m: Member)
    requires JsonText.Plain(m.value) && Written(f, m.value, TreeOf(m.value))
    ensures var e := Entry([], CharsOf(m.key), [], Item([], TreeOf(m.value), []));
            && EntryText(e) == EncodeMember(f, m) && LooseEntry(e)
            && (forall n :: n in Numbers(e.item.value) ==> StrictNumber(n))
            && (forall c :: c in CharSet(e.name) + Chars(e.item.value) ==> StrictChar(c))
  {
    hide Encode, ValueText, LooseValue, TreeOf, StrictNumber, StrictChar, Numbers, Chars, JsonText.Plain, CharsText, EscapeAll,
      LooseChars, CharsOf;
    var item := Item([], TreeOf(m.value), []);
    BareItem(item);
    CharsOfEscape(m.key);
    CharsOfAreStrict(m.key);
    var text := Encode(f, m.value);
    Assoc3([QUOTE], EscapeAll(m.key), [QUOTE]);
    Assoc3([QUOTE], EscapeAll(m.key) + [QUOTE], [COLON] + text);
    Assoc3(EncodeString(m.key), [COLON], text);
  }

  lemma {:induction false} EntriesAreWritten(f: Floats, members: seq<Member>)
    requires members != [] && forall i :: 0 <= i < |members| ==> JsonText.Plain(members[i].value)
    ensures EntriesWritten(f, members, EntriesOf(members))
    decreases members
  {
    hide Encode, EncodeMember, EntryText, ValueText, LooseEntry, TreeOf, StrictNumber, StrictChar, Numbers, Chars, JsonText.Plain,
      CharSet, Written, CharsOf;
    var m := members[0];
    TreeIsWritten(f, m.value);
    EntryIsWritten(f, m);
    var e := Entry([], CharsOf(m.key), [], Item([], TreeOf(m.value), []));
    assert EntriesOf(members).entry == e;
    if |members| > 1 {
      EntriesAreWritten(f, members[1..]);
      assert EntriesOf(members) == MoreEntries(e, EntriesOf(members[1..]));
      var rest := EncodeMembers(f, members[1..]);
      Assoc3([COMMA], rest, [CLOSE_BRACE]);
      Assoc3(EncodeMember(f, m), [COMMA] + rest, [CLOSE_BRACE]);
      Assoc3(EncodeMember(f, m), [COMMA], rest);
    }
  }

  /** The encoder writes a JSON text, and the text means the value. */
  lemma EncodeWritesMeaning(f: Floats, v: Json)
    requires JsonText.Plain(v)
    ensures IsJsonText(Encode(f, v)) && Encode(f, v) == ValueText(TreeOf(v)) && Means(f, TreeOf(v), v)
  {
    hide Encode, ValueText, LooseValue, TreeOf, Strict, Means, ParseValue, EndsValue, Blanks;
    TreeIsWritten(f, v);
    var item := Item([], TreeOf(v), []);
    BareItem(item);
    assert LooseItem(item) by { NoBlanks(); }
    JsonTextMeans(f, item);
    DecodeEncode(f, v);
  }

  lemma NoBlanks()
    ensures Blanks([])
  {
  }
}
