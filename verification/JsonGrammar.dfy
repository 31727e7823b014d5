/** The grammar of JSON texts (sections 2 to 7 of RFC 8259) as trees that are written out, and what the parser of
    src/stdlib_json.c accepts in its terms: the same trees with looser numbers and characters, and anything behind them.
    Bytes stand for characters; that they are UTF-8 (section 8.1) is apart. */
module JsonGrammar {
  import opened Bytes
  import opened Options
  import opened JsonText
  import opened JsonTrailing

  // ---- Trees ----

  datatype Char = Plain(c: Byte) | Escaped(letter: Byte) | Unicode(hex: seq<Byte>)

  datatype Exponent = Exponent(mark: Byte, sign: Option<Byte>, digits: seq<Byte>)

  datatype Number = Number(minus: bool, whole: seq<Byte>, fraction: Option<seq<Byte>>, exponent: Option<Exponent>)

  datatype Value =
    | Word(word: seq<Byte>)
    | Num(n: Number)
    | String(chars: seq<Char>)
    | EmptyArray(blank: seq<Byte>)
    | Array(items: Items)
    | EmptyObject(blank: seq<Byte>)
    | Object(entries: Entries)

  /** A value with the blanks around it. */
  datatype Item = Item(before: seq<Byte>, value: Value, after: seq<Byte>)

  datatype Items = LastItem(item: Item) | MoreItems(item: Item, rest: Items)

  /** A name with the blanks around it, and its value. */
  datatype Entry = Entry(before: seq<Byte>, name: seq<Char>, after: seq<Byte>, item: Item)

  datatype Entries = LastEntry(entry: Entry) | MoreEntries(entry: Entry, rest: Entries)

  // ---- Writing them out ----

  function CharText(c: Char): (r: seq<Byte>)
    ensures r != []
  {
    match c
    case Plain(c) => [c]
    case Escaped(letter) => [BACKSLASH, letter]
    case Unicode(hex) => [BACKSLASH, LOWER_U] + hex
  }

  /** Characters and the closing quote. */
  function CharsText(chars: seq<Char>): seq<Byte> {
    if chars == [] then [QUOTE] else CharText(chars[0]) + CharsText(chars[1..])
  }

  function FractionText(fraction: Option<seq<Byte>>): seq<Byte> {
    if fraction.Some? then [DOT] + fraction.value else []
  }

  function SignText(sign: Option<Byte>): seq<Byte> {
    if sign.Some? then [sign.value] else []
  }

  function ExponentText(e: Option<Exponent>): seq<Byte> {
    if e.Some? then [e.value.mark] + (SignText(e.value.sign) + e.value.digits) else []
  }

  function NumberText(n: Number): seq<Byte> {
    (if n.minus then [MINUS] else []) + (n.whole + (FractionText(n.fraction) + ExponentText(n.exponent)))
  }

  function ValueText(v: Value): seq<Byte> {
    match v
    case Word(word) => word
    case Num(n) => NumberText(n)
    case String(chars) => [QUOTE] + CharsText(chars)
    case EmptyArray(blank) => [OPEN_BRACKET] + (blank + [CLOSE_BRACKET])
    case Array(items) => [OPEN_BRACKET] + ItemsText(items)
    case EmptyObject(blank) => [OPEN_BRACE] + (blank + [CLOSE_BRACE])
    case Object(entries) => [OPEN_BRACE] + EntriesText(entries)
  }

  function ItemText(item: Item): seq<Byte> {
    item.before + (ValueText(item.value) + item.after)
  }

  /** Items, the commas between them and the closing bracket. */
  function ItemsText(items: Items): seq<Byte> {
    match items
    case LastItem(item) => ItemText(item) + [CLOSE_BRACKET]
    case MoreItems(item, rest) => ItemText(item) + ([COMMA] + ItemsText(rest))
  }

  function EntryText(e: Entry): seq<Byte> {
    e.before + ([QUOTE] + (CharsText(e.name) + (e.after + ([COLON] + ItemText(e.item)))))
  }

  function EntriesText(entries: Entries): seq<Byte> {
    match entries
    case LastEntry(e) => EntryText(e) + [CLOSE_BRACE]
    case MoreEntries(e, rest) => EntryText(e) + ([COMMA] + EntriesText(rest))
  }

  // ---- What the parser allows ----

  predicate Blanks(s: seq<Byte>) {
    forall i :: 0 <= i < |s| ==> IsSpace(s[i])
  }

  /** Any byte but a quote or a backslash, any escape letter, four hexadecimal digits. */
  predicate LooseChar(c: Char) {
    match c
    case Plain(c) => c != QUOTE && c != BACKSLASH
    case Escaped(letter) => letter != LOWER_U
    case Unicode(hex) => |hex| == 4 && IsHex4(hex)
  }

  predicate LooseExponent(e: Exponent) {
    (e.mark == LOWER_E || e.mark == BIG_E) && (e.sign.Some? ==> e.sign.value == PLUS || e.sign.value == MINUS) && AllDigits(e.digits)
  }

  /** Digits may be missing everywhere, as long as the text starts with a minus or a digit. */
  predicate LooseNumber(n: Number) {
    && AllDigits(n.whole) && (n.minus || n.whole != [])
    && (n.fraction.Some? ==> AllDigits(n.fraction.value))
    && (n.exponent.Some? ==> LooseExponent(n.exponent.value))
  }

  predicate LooseChars(chars: seq<Char>) {
    forall i :: 0 <= i < |chars| ==> LooseChar(chars[i])
  }

  predicate LooseValue(v: Value) {
    match v
    case Word(word) => word == TRUE_TEXT || word == FALSE_TEXT || word == NULL_TEXT
    case Num(n) => LooseNumber(n)
    case String(chars) => LooseChars(chars)
    case EmptyArray(blank) => Blanks(blank)
    case Array(items) => LooseItems(items)
    case EmptyObject(blank) => Blanks(blank)
    case Object(entries) => LooseEntries(entries)
  }

  predicate LooseItem(item: Item) {
    Blanks(item.before) && LooseValue(item.value) && Blanks(item.after)
  }

  predicate LooseItems(items: Items) {
    match items
    case LastItem(item) => LooseItem(item)
    case MoreItems(item, rest) => LooseItem(item) && LooseItems(rest)
  }

  predicate LooseEntry(e: Entry) {
    Blanks(e.before) && LooseChars(e.name) && Blanks(e.after) && LooseItem(e.item)
  }

  predicate LooseEntries(entries: Entries) {
    match entries
    case LastEntry(e) => LooseEntry(e)
    case MoreEntries(e, rest) => LooseEntry(e) && LooseEntries(rest)
  }

  // ---- What the standard allows ----

  /** Section 7: no control characters, and eight escape letters. */
  predicate StrictChar(c: Char) {
    match c
    case Plain(c) => c >= 0x20
    case Escaped(letter) => letter in {QUOTE, BACKSLASH, SLASH, LOWER_B, LOWER_F, LOWER_N, LOWER_R, LOWER_T}
    case Unicode(_) => true
  }

  /** Section 6: an integer part without leading zeros, and no empty parts. */
  predicate StrictNumber(n: Number) {
    && n.whole != [] && (n.whole[0] == ZERO ==> |n.whole| == 1)
    && (n.fraction.Some? ==> n.fraction.value != [])
    && (n.exponent.Some? ==> n.exponent.value.digits != [])
  }

  /** All numbers of a tree. */
  function Numbers(v: Value): set<Number> {
    match v
    case Num(n) => {n}
    case Array(items) => NumbersOfItems(items)
    case Object(entries) => NumbersOfEntries(entries)
    case _ => {}
  }

  function NumbersOfItems(items: Items): set<Number> {
    match items
    case LastItem(item) => Numbers(item.value)
    case MoreItems(item, rest) => Numbers(item.value) + NumbersOfItems(rest)
  }

  function NumbersOfEntries(entries: Entries): set<Number> {
    match entries
    case LastEntry(e) => Numbers(e.item.value)
    case MoreEntries(e, rest) => Numbers(e.item.value) + NumbersOfEntries(rest)
  }

  function CharSet(chars: seq<Char>): set<Char> {
    set c | c in chars
  }

  /** All characters of the strings and names of a tree. */
  function Chars(v: Value): set<Char> {
    match v
    case String(chars) => CharSet(chars)
    case Array(items) => CharsOfItems(items)
    case Object(entries) => CharsOfEntries(entries)
    case _ => {}
  }

  function CharsOfItems(items: Items): set<Char> {
    match items
    case LastItem(item) => Chars(item.value)
    case MoreItems(item, rest) => Chars(item.value) + CharsOfItems(rest)
  }

  function CharsOfEntries(entries: Entries): set<Char> {
    match entries
    case LastEntry(e) => CharSet(e.name) + Chars(e.item.value)
    case MoreEntries(e, rest) => CharSet(e.name) + Chars(e.item.value) + CharsOfEntries(rest)
  }

  /** Every number and every character is as the standard has it. */
  predicate Strict(v: Value) {
    (forall n :: n in Numbers(v) ==> StrictNumber(n)) && (forall c :: c in Chars(v) ==> StrictChar(c))
  }

  /** JSON-text, section 2: a value with blanks around it. */
  ghost predicate IsJsonText(s: seq<Byte>) {
    exists item: Item :: LooseItem(item) && Strict(item.value) && s == ItemText(item)
  }

  // ---- Reading a tree ----

  function ReadChars(s: seq<Byte>): (r: Parsed<seq<Char>>)
    ensures r.Ok? ==> |r.rest| < |s|
    decreases |s|
  {
    if s == [] then Fail
    else if s[0] == QUOTE then Ok([], s[1..])
    else if s[0] != BACKSLASH then After(Plain(s[0]), ReadChars(s[1..]))
    else if |s| < 2 then Fail
    else if s[1] != LOWER_U then After(Escaped(s[1]), ReadChars(s[2..]))
    else if IsHex4(s[2..]) then After(Unicode(s[2..6]), ReadChars(s[6..]))
    else Fail
  }

  function After(c: Char, r: Parsed<seq<Char>>): Parsed<seq<Char>> {
    match r
    case Fail => Fail
    case Ok(chars, rest) => Ok([c] + chars, rest)
  }

  /** The exponent in front of what SkipExponent leaves. */
  function ReadExponent(s: seq<Byte>): Option<Exponent> {
    if s != [] && (s[0] == LOWER_E || s[0] == BIG_E) then
      var t := SkipSign(s[1..]);
      DigitsSuffix(t);
      Some(Exponent(s[0], if t != s[1..] then Some(s[1]) else None, Front(t, SkipDigits(t))))
    else None
  }

  function ReadFraction(s: seq<Byte>): Option<seq<Byte>> {
    if s != [] && s[0] == DOT then
      DigitsSuffix(s[1..]);
      Some(Front(s[1..], SkipDigits(s[1..])))
    else None
  }

  function ReadNumber(s: seq<Byte>): (r: Parsed<Number>)
    ensures r.Ok? ==> |r.rest| < |s|
  {
    var digits := SkipMinus(s);
    DigitsSuffix(digits);
    var whole := SkipDigits(digits);
    var rest := SkipExponent(SkipFraction(whole));
    if |rest| == |s| then Fail
    else Ok(Number(digits != s, Front(digits, whole), ReadFraction(whole), ReadExponent(SkipFraction(whole))), rest)
  }

  datatype Spaced<+T> = Spaced(before: seq<Byte>, value: T)

  function ReadValue(s: seq<Byte>): (r: Parsed<Spaced<Value>>)
    ensures r.Ok? ==> |r.rest| < |s|
    decreases |s|, 0
  {
    var t := SkipSpace(s);
    SpaceSuffix(s);
    var before := Front(s, t);
    if t == [] then Fail
    else if t[0] == QUOTE then
      match ReadChars(t[1..])
      case Fail => Fail
      case Ok(chars, rest) => Ok(Spaced(before, String(chars)), rest)
    else if t[0] == OPEN_BRACE then
      var inner := SkipSpace(t[1..]);
      SpaceSuffix(t[1..]);
      if inner != [] && inner[0] == CLOSE_BRACE then Ok(Spaced(before, EmptyObject(Front(t[1..], inner))), inner[1..])
      else
        match ReadEntries(t[1..])
        case Fail => Fail
        case Ok(entries, rest) => Ok(Spaced(before, Object(entries)), rest)
    else if t[0] == OPEN_BRACKET then
      var inner := SkipSpace(t[1..]);
      SpaceSuffix(t[1..]);
      if inner != [] && inner[0] == CLOSE_BRACKET then Ok(Spaced(before, EmptyArray(Front(t[1..], inner))), inner[1..])
      else
        match ReadItems(t[1..])
        case Fail => Fail
        case Ok(items, rest) => Ok(Spaced(before, Array(items)), rest)
    else if t[0] == LOWER_T then ReadWord(before, t, TRUE_TEXT)
    else if t[0] == LOWER_F then ReadWord(before, t, FALSE_TEXT)
    else if t[0] == LOWER_N then ReadWord(before, t, NULL_TEXT)
    else if t[0] == MINUS || IsDigit(t[0]) then
      match ReadNumber(t)
      case Fail => Fail
      case Ok(n, rest) => Ok(Spaced(before, Num(n)), rest)
    else Fail
  }

  function ReadWord(before: seq<Byte>, t: seq<Byte>, word: seq<Byte>): (r: Parsed<Spaced<Value>>)
    requires word != []
    ensures r.Ok? ==> |r.rest| < |t|
  {
    if word <= t then Ok(Spaced(before, Word(word)), t[|word|..]) else Fail
  }

  function ReadItems(s: seq<Byte>): (r: Parsed<Items>)
    ensures r.Ok? ==> |r.rest| < |s|
    decreases |s|, 1
  {
    match ReadValue(s)
    case Fail => Fail
    case Ok(v, rest) =>
      var t := SkipSpace(rest);
      SpaceSuffix(rest);
      var item := Item(v.before, v.value, Front(rest, t));
      if t == [] then Fail
      else if t[0] == CLOSE_BRACKET then Ok(LastItem(item), t[1..])
      else if t[0] == COMMA then
        match ReadItems(t[1..])
        case Fail => Fail
        case Ok(items, rest) => Ok(MoreItems(item, items), rest)
      else Fail
  }

  /** A name, with the blanks before and behind it. */
  function ReadName(s: seq<Byte>): (r: Parsed<Spaced<Spaced<seq<Char>>>>)
    ensures r.Ok? ==> |r.rest| < |s|
  {
    var t := SkipSpace(s);
    SpaceSuffix(s);
    if t == [] || t[0] != QUOTE then Fail
    else
      match ReadChars(t[1..])
      case Fail => Fail
      case Ok(name, rest) =>
        var u := SkipSpace(rest);
        SpaceSuffix(rest);
        if u == [] || u[0] != COLON then Fail else Ok(Spaced(Front(s, t), Spaced(Front(rest, u), name)), u[1..])
  }

  function ReadEntries(s: seq<Byte>): (r: Parsed<Entries>)
    ensures r.Ok? ==> |r.rest| < |s|
    decreases |s|, 1
  {
    match ReadName(s)
    case Fail => Fail
    case Ok(name, rest) =>
      match ReadValue(rest)
      case Fail => Fail
      case Ok(v, rest) =>
        var t := SkipSpace(rest);
        SpaceSuffix(rest);
        var e := Entry(name.before, name.value.value, name.value.before, Item(v.before, v.value, Front(rest, t)));
        if t == [] then Fail
        else if t[0] == CLOSE_BRACE then Ok(LastEntry(e), t[1..])
        else if t[0] == COMMA then
          match ReadEntries(t[1..])
          case Fail => Fail
          case Ok(entries, rest) => Ok(MoreEntries(e, entries), rest)
        else Fail
  }

  lemma {:induction false} DigitsSuffix(s: seq<Byte>)
    ensures EndsWith(s, SkipDigits(s)) && AllDigits(Front(s, SkipDigits(s)))
    decreases |s|
  {
    if s != [] && IsDigit(s[0]) {
      DigitsSuffix(s[1..]);
      FirstByte(s, SkipDigits(s), []);
      var front := Front(s, SkipDigits(s));
      assert front[0] == s[0] && front[1..] == Front(s[1..], SkipDigits(s));
    }
  }

  // ---- The tree is read exactly where the parser succeeds ----

  lemma {:induction false} SameChars(s: seq<Byte>, done: seq<Byte>)
    ensures ParseChars(s, done).Ok? <==> ReadChars(s).Ok?
    ensures ReadChars(s).Ok? ==> ParseChars(s, done).rest == ReadChars(s).rest
    decreases |s|
  {
    hide HexValue, Utf8, Hex4, Unescape;
    if s != [] && s[0] != QUOTE {
      if s[0] != BACKSLASH {
        SameChars(s[1..], done + [s[0]]);
      } else if |s| >= 2 && s[1] != LOWER_U {
        SameChars(s[2..], done + [Unescape(s[1])]);
      } else if |s| >= 2 && IsHex4(s[2..]) {
        SameChars(s[6..], done + Utf8(Hex4(s[2..])));
      }
    }
  }

  /** Reading the tree succeeds where the parser does, and leaves the same rest. */
  predicate SameRest<T, U>(a: Parsed<T>, b: Parsed<U>) {
    (a.Ok? <==> b.Ok?) && (a.Ok? ==> a.rest == b.rest)
  }

  lemma {:induction false} SameValue(f: Floats, s: seq<Byte>)
    ensures SameRest(ParseValue(f, s), ReadValue(s))
    decreases |s|, 0
  {
    hide SkipSpace, ParseNumber, ReadNumber, ParseChars, ReadChars, ParseItems, ReadItems, ParseMembers, ReadEntries;
    var t := SkipSpace(s);
    if t != [] {
      if t[0] == QUOTE {
        SpaceTwice(s);
        SameChars(t[1..], []);
      } else if t[0] == OPEN_BRACE {
        SameEntries(f, t[1..], []);
        MembersAfterSpace(f, t[1..], []);
      } else if t[0] == OPEN_BRACKET {
        SameItems(f, t[1..], []);
        ItemsAfterSpace(f, t[1..], []);
      } else if t[0] == MINUS || IsDigit(t[0]) {
        SameNumber(f, t);
      }
    }
  }

  lemma SpaceTwice(s: seq<Byte>)
    ensures SkipSpace(SkipSpace(s)) == SkipSpace(s)
  {
  }

  lemma SameNumber(f: Floats, s: seq<Byte>)
    ensures SameRest(ParseNumber(f, s), ReadNumber(s))
  {
    hide SkipDigits, SkipMinus, SkipFraction, SkipExponent, Strtoll, ReadFraction, ReadExponent;
  }

  lemma ItemsAfterSpace(f: Floats, s: seq<Byte>, done: seq<Json>)
    ensures ParseItems(f, SkipSpace(s), done) == ParseItems(f, s, done)
  {
    hide ParseItems, ParseValue, SkipSpace;
    ItemsStep(f, s, done);
    ItemsStep(f, SkipSpace(s), done);
    ValueStep(f, s);
  }

  lemma MembersAfterSpace(f: Floats, s: seq<Byte>, done: seq<Member>)
    ensures ParseMembers(f, SkipSpace(s), done) == ParseMembers(f, s, done)
  {
    hide ParseMembers, ParseValue, SkipSpace, SetMember;
    MembersStep(f, s, done);
    MembersStep(f, SkipSpace(s), done);
    SpaceTwice(s);
  }

  lemma {:induction false} SameItems(f: Floats, s: seq<Byte>, done: seq<Json>)
    ensures SameRest(ParseItems(f, s, done), ReadItems(s))
    decreases |s|, 1
  {
    hide SkipSpace, ParseItems, ParseValue, ReadValue;
    ItemsStep(f, s, done);
    SameValue(f, s);
    var v := ParseValue(f, s);
    if v.Ok? {
      var t := SkipSpace(v.rest);
      if t != [] && t[0] == COMMA { SameItems(f, t[1..], done + [v.value]); }
    }
  }

  lemma SameName(s: seq<Byte>)
    ensures var k := ParseString(s);
            && (ReadName(s).Ok? <==> k.Ok? && SkipSpace(k.rest) != [] && SkipSpace(k.rest)[0] == COLON)
            && (ReadName(s).Ok? ==> ReadName(s).rest == SkipSpace(k.rest)[1..])
  {
    hide SkipSpace, ParseChars, ReadChars;
    var t := SkipSpace(s);
    if t != [] && t[0] == QUOTE { SameChars(t[1..], []); }
  }

  lemma {:induction false} SameEntries(f: Floats, s: seq<Byte>, done: seq<Member>)
    ensures SameRest(ParseMembers(f, s, done), ReadEntries(s))
    decreases |s|, 1
  {
    hide SkipSpace, ParseMembers, ParseValue, ReadValue, ParseString, ReadName, SetMember;
    MembersStep(f, s, done);
    SameName(s);
    var name := ReadName(s);
    if name.Ok? {
      SameValue(f, name.rest);
      var v := ParseValue(f, name.rest);
      if v.Ok? {
        var t := SkipSpace(v.rest);
        if t != [] && t[0] == COMMA { SameEntries(f, t[1..], SetMember(done, ParseString(s).value, v.value)); }
      }
    }
  }

  // ---- What is read is what is written out ----

  lemma {:induction false} CharsWritten(s: seq<Byte>)
    requires ReadChars(s).Ok?
    ensures var r := ReadChars(s);
            s == CharsText(r.value) + r.rest && LooseChars(r.value)
    decreases |s|
  {
    hide HexValue;
    var r := ReadChars(s);
    if s[0] == QUOTE {
      assert s == [QUOTE] + s[1..];
    } else {
      var k := if s[0] != BACKSLASH then 1 else if s[1] != LOWER_U then 2 else 6;
      CharsWritten(s[k..]);
      var c, more := r.value[0], ReadChars(s[k..]).value;
      assert r.value == [c] + more && r.value[1..] == more;
      assert CharText(c) == s[..k];
      assert s == s[..k] + s[k..];
      Assoc3(CharText(c), CharsText(more), r.rest);
      assert forall i :: 0 < i < |r.value| ==> r.value[i] == more[i - 1];
    }
  }

  lemma Assoc3<T>(a: seq<T>, b: seq<T>, c: seq<T>)
    ensures a + b + c == a + (b + c)
  {
  }

  lemma FirstOf(s: seq<Byte>)
    ensures s != [] ==> s == [s[0]] + s[1..]
  {
  }

  /** The digits at the front, and the rest. */
  lemma DigitsWritten(s: seq<Byte>)
    ensures EndsWith(s, SkipDigits(s)) && AllDigits(Front(s, SkipDigits(s))) && s == Front(s, SkipDigits(s)) + SkipDigits(s)
  {
    hide SkipDigits;
    DigitsSuffix(s);
  }

  lemma FractionWritten(s: seq<Byte>)
    ensures s == FractionText(ReadFraction(s)) + SkipFraction(s)
    ensures ReadFraction(s).Some? ==> AllDigits(ReadFraction(s).value)
  {
    hide SkipDigits, EndsWith, Front, AllDigits;
    if s != [] && s[0] == DOT {
      FirstOf(s);
      DigitsWritten(s[1..]);
      Assoc3([DOT], Front(s[1..], SkipDigits(s[1..])), SkipDigits(s[1..]));
    }
  }

  lemma SignWritten(s: seq<Byte>)
    ensures s == SignText(if SkipSign(s) != s then Some(s[0]) else None) + SkipSign(s)
    ensures SkipSign(s) != s ==> s != [] && (s[0] == PLUS || s[0] == MINUS)
  {
    FirstOf(s);
  }

  lemma ExponentWritten(s: seq<Byte>)
    ensures s == ExponentText(ReadExponent(s)) + SkipExponent(s)
    ensures ReadExponent(s).Some? ==> LooseExponent(ReadExponent(s).value)
  {
    hide SkipDigits, EndsWith, Front, AllDigits, SkipSign, SignText;
    if s != [] && (s[0] == LOWER_E || s[0] == BIG_E) {
      var t := SkipSign(s[1..]);
      FirstOf(s);
      SignWritten(s[1..]);
      DigitsWritten(t);
      SameSign(s[1..]);
      var e, rest := ReadExponent(s).value, SkipDigits(t);
      Assoc3([s[0]], SignText(e.sign) + e.digits, rest);
      Assoc3(SignText(e.sign), e.digits, rest);
    }
  }

  /** SkipExponent skips the sign in the same way. */
  lemma SameSign(s: seq<Byte>)
    ensures SkipSign(s) == if s != [] && (s[0] == PLUS || s[0] == MINUS) then s[1..] else s
  {
  }

  /** What follows a number when the parser leaves it. */
  predicate Ends(n: Number, rest: seq<Byte>) {
    rest == [] ||
    var c := rest[0];
    && !IsDigit(c)
    && (n.exponent.None? ==> c != LOWER_E && c != BIG_E)
    && (n.exponent.None? && n.fraction.None? ==> c != DOT)
    && (n.exponent.Some? && n.exponent.value.digits == [] && n.exponent.value.sign.None? ==> c != PLUS && c != MINUS)
  }

  lemma NumberWritten(s: seq<Byte>)
    requires s != [] && (s[0] == MINUS || IsDigit(s[0])) && ReadNumber(s).Ok?
    ensures var r := ReadNumber(s);
            s == NumberText(r.value) + r.rest && LooseNumber(r.value) && Ends(r.value, r.rest)
  {
    hide SkipDigits, ReadFraction, ReadExponent, SkipFraction, SkipExponent, AllDigits, LooseExponent, EndsWith, Front, FractionText,
         ExponentText, Ends;
    var n, rest := ReadNumber(s).value, ReadNumber(s).rest;
    var digits := SkipMinus(s);
    var whole := SkipDigits(digits);
    var part := SkipFraction(whole);
    DigitsWritten(digits);
    FractionWritten(whole);
    ExponentWritten(part);
    FirstOf(s);
    Assoc3(FractionText(n.fraction), ExponentText(n.exponent), rest);
    Assoc3(n.whole, FractionText(n.fraction) + ExponentText(n.exponent), rest);
    var sign: seq<Byte> := if n.minus then [MINUS] else [];
    assert s == sign + digits;
    Assoc3(sign, n.whole + (FractionText(n.fraction) + ExponentText(n.exponent)), rest);
    NumberEnds(s);
    if !n.minus { FirstDigit(s); }
  }

  lemma FirstDigit(s: seq<Byte>)
    requires s != [] && IsDigit(s[0])
    ensures |SkipDigits(s)| < |s|
  {
  }

  lemma NumberEnds(s: seq<Byte>)
    requires s != [] && ReadNumber(s).Ok?
    ensures Ends(ReadNumber(s).value, ReadNumber(s).rest)
  {
    hide SkipDigits;
    var whole := SkipDigits(SkipMinus(s));
    var part := SkipFraction(whole);
    DigitsSuffix(SkipMinus(s));
    if part != [] && (part[0] == LOWER_E || part[0] == BIG_E) {
      var t := SkipSign(part[1..]);
      DigitsSuffix(t);
    }
  }

  /** The blanks that are skipped, and the rest. */
  lemma {:induction false} SpaceWritten(s: seq<Byte>)
    ensures EndsWith(s, SkipSpace(s)) && Blanks(Front(s, SkipSpace(s))) && s == Front(s, SkipSpace(s)) + SkipSpace(s)
    decreases |s|
  {
    SpaceSuffix(s);
    if s != [] && IsSpace(s[0]) {
      SpaceWritten(s[1..]);
      FirstByte(s, SkipSpace(s), []);
      var front := Front(s, SkipSpace(s));
      assert front + [] == front && front[0] == s[0] && front[1..] == Front(s[1..], SkipSpace(s)) + [];
      assert forall i :: 0 < i < |front| ==> front[i] == front[1..][i - 1];
    }
  }

  predicate EndsValue(v: Value, rest: seq<Byte>) {
    v.Num? ==> Ends(v.n, rest)
  }

  ghost predicate WrittenAs(s: seq<Byte>, r: Spaced<Value>, rest: seq<Byte>) {
    s == r.before + (ValueText(r.value) + rest) && Blanks(r.before) && LooseValue(r.value) && EndsValue(r.value, rest)
  }

  lemma {:induction false} ValueWritten(s: seq<Byte>)
    requires ReadValue(s).Ok?
    ensures WrittenAs(s, ReadValue(s).value, ReadValue(s).rest)
    decreases |s|, 0
  {
    hide ReadValue, SkipSpace, Front, WrittenAs;
    ValueStarts(s);
    var c := SkipSpace(s)[0];
    if c == OPEN_BRACE {
      ObjectWritten(s);
    } else if c == OPEN_BRACKET {
      ArrayWritten(s);
    } else {
      ScalarWritten(s);
    }
  }

  lemma ValueStarts(s: seq<Byte>)
    ensures ReadValue(s).Ok? ==> SkipSpace(s) != []
  {
    hide SkipSpace, ReadEntries, ReadItems, ReadNumber, ReadChars;
  }

  lemma ScalarWritten(s: seq<Byte>)
    requires ReadValue(s).Ok? && SkipSpace(s)[0] != OPEN_BRACE && SkipSpace(s)[0] != OPEN_BRACKET
    ensures WrittenAs(s, ReadValue(s).value, ReadValue(s).rest)
  {
    hide SkipSpace, ReadNumber, ReadChars, ReadItems, ReadEntries, Front, EndsWith, Blanks, LooseNumber, LooseChars, CharsText, NumberText, Ends;
    var t, r := SkipSpace(s), ReadValue(s);
    SpaceWritten(s);
    FirstOf(t);
    var v, rest := r.value.value, r.rest;
    if t[0] == QUOTE {
      CharsWritten(t[1..]);
      Assoc3([QUOTE], CharsText(v.chars), rest);
    } else if v.Word? {
      assert t == v.word + rest;
    } else {
      NumberWritten(t);
    }
  }

  lemma {:induction false} ObjectWritten(s: seq<Byte>)
    requires ReadValue(s).Ok? && SkipSpace(s)[0] == OPEN_BRACE
    ensures WrittenAs(s, ReadValue(s).value, ReadValue(s).rest)
    decreases |s|, 0, 0
  {
    hide SkipSpace, ReadItems, ReadEntries, ReadChars, ReadNumber, Front, EndsWith, Blanks, LooseEntries, EntriesText;
    var t, r := SkipSpace(s), ReadValue(s);
    SpaceWritten(s);
    FirstOf(t);
    SpaceWritten(t[1..]);
    FirstOf(SkipSpace(t[1..]));
    var v, rest := r.value.value, r.rest;
    if v.EmptyObject? {
      Assoc3([OPEN_BRACE], v.blank + [CLOSE_BRACE], rest);
      Assoc3(v.blank, [CLOSE_BRACE], rest);
    } else {
      EntriesWritten(t[1..]);
      Assoc3([OPEN_BRACE], EntriesText(v.entries), rest);
    }
  }

  lemma {:induction false} ArrayWritten(s: seq<Byte>)
    requires ReadValue(s).Ok? && SkipSpace(s)[0] == OPEN_BRACKET
    ensures WrittenAs(s, ReadValue(s).value, ReadValue(s).rest)
    decreases |s|, 0, 0
  {
    hide SkipSpace, ReadItems, ReadEntries, ReadChars, ReadNumber, Front, EndsWith, Blanks, LooseItems, ItemsText;
    var t, r := SkipSpace(s), ReadValue(s);
    SpaceWritten(s);
    FirstOf(t);
    SpaceWritten(t[1..]);
    FirstOf(SkipSpace(t[1..]));
    var v, rest := r.value.value, r.rest;
    if v.EmptyArray? {
      Assoc3([OPEN_BRACKET], v.blank + [CLOSE_BRACKET], rest);
      Assoc3(v.blank, [CLOSE_BRACKET], rest);
    } else {
      ItemsWritten(t[1..]);
      Assoc3([OPEN_BRACKET], ItemsText(v.items), rest);
    }
  }

  lemma {:induction false} ItemsWritten(s: seq<Byte>)
    requires ReadItems(s).Ok?
    ensures var r := ReadItems(s);
            s == ItemsText(r.value) + r.rest && LooseItems(r.value)
    decreases |s|, 1
  {
    hide SkipSpace, ReadValue, Front, Blanks, LooseValue, ValueText, EndsValue;
    var v, r := ReadValue(s), ReadItems(s);
    ValueWritten(s);
    SpaceWritten(v.rest);
    var t := SkipSpace(v.rest);
    FirstOf(t);
    var item := r.value.item;
    assert s == ItemText(item) + t by { ItemAndRest(item, t); }
    if r.value.LastItem? {
      Assoc3(ItemText(item), [CLOSE_BRACKET], r.rest);
    } else {
      ItemsWritten(t[1..]);
      Assoc3([COMMA], ItemsText(r.value.rest), r.rest);
      Assoc3(ItemText(item), [COMMA] + ItemsText(r.value.rest), r.rest);
    }
  }

  lemma ItemAndRest(item: Item, t: seq<Byte>)
    ensures ItemText(item) + t == item.before + (ValueText(item.value) + (item.after + t))
  {
  }

  lemma NameWritten(s: seq<Byte>)
    requires ReadName(s).Ok?
    ensures var r := ReadName(s);
            && s == r.value.before + ([QUOTE] + (CharsText(r.value.value.value) + (r.value.value.before + ([COLON] + r.rest))))
            && Blanks(r.value.before) && Blanks(r.value.value.before) && LooseChars(r.value.value.value)
  {
    hide SkipSpace, ReadChars, Front, Blanks, LooseChars, CharsText;
    var t := SkipSpace(s);
    SpaceWritten(s);
    FirstOf(t);
    CharsWritten(t[1..]);
    SpaceWritten(ReadChars(t[1..]).rest);
    FirstOf(SkipSpace(ReadChars(t[1..]).rest));
  }

  lemma EntryAndRest(e: Entry, t: seq<Byte>)
    ensures EntryText(e) + t == e.before + ([QUOTE] + (CharsText(e.name) + (e.after + ([COLON] + (ItemText(e.item) + t)))))
  {
    hide CharsText, ItemText;
  }

  lemma {:induction false} EntriesWritten(s: seq<Byte>)
    requires ReadEntries(s).Ok?
    ensures var r := ReadEntries(s);
            s == EntriesText(r.value) + r.rest && LooseEntries(r.value)
    decreases |s|, 1
  {
    hide SkipSpace, ReadValue, ReadName, Front, Blanks, LooseValue, LooseChars, ValueText, CharsText, EntryText, ItemText, EndsValue;
    var r := ReadEntries(s);
    var name := ReadName(s);
    var v := ReadValue(name.rest);
    NameWritten(s);
    ValueWritten(name.rest);
    SpaceWritten(v.rest);
    var t := SkipSpace(v.rest);
    FirstOf(t);
    var e := r.value.entry;
    assert name.rest == ItemText(e.item) + t by { ItemAndRest(e.item, t); }
    assert s == EntryText(e) + t by { EntryAndRest(e, t); }
    assert LooseEntry(e);
    if r.value.LastEntry? {
      assert t == [CLOSE_BRACE] + r.rest;
      Assoc3(EntryText(e), [CLOSE_BRACE], r.rest);
    } else {
      EntriesWritten(t[1..]);
      assert t == [COMMA] + (EntriesText(r.value.rest) + r.rest);
      Assoc3([COMMA], EntriesText(r.value.rest), r.rest);
      Assoc3(EntryText(e), [COMMA] + EntriesText(r.value.rest), r.rest);
    }
  }

  // ---- What is written out is read back ----

  lemma {:induction false} CharsReadBack(chars: seq<Char>, rest: seq<Byte>)
    requires LooseChars(chars)
    ensures ReadChars(CharsText(chars) + rest) == Ok(chars, rest)
    decreases |chars|
  {
    hide HexValue;
    var s := CharsText(chars) + rest;
    if chars == [] {
      assert s[1..] == rest;
    } else {
      var c, more := chars[0], chars[1..];
      CharsReadBack(more, rest);
      Assoc3(CharText(c), CharsText(more), rest);
      var k := |CharText(c)|;
      assert s[..k] == CharText(c) && s[k..] == CharsText(more) + rest;
      assert [c] + more == chars;
      if c.Unicode? {
        assert s[2..6] == c.hex && s[6..] == s[k..];
        assert s[0] == BACKSLASH && s[1] == LOWER_U;
        SameHex(c.hex, s[2..]);
      } else if c.Escaped? {
        assert s[0] == BACKSLASH && s[1] == c.letter;
      } else {
        assert s[0] == c.c;
      }
    }
  }

  lemma SameHex(hex: seq<Byte>, s: seq<Byte>)
    requires |hex| == 4 && IsHex4(hex) && |s| >= 4 && s[..4] == hex
    ensures IsHex4(s)
  {
    hide HexValue;
    assert hex[0] == s[0] && hex[1] == s[1] && hex[2] == s[2] && hex[3] == s[3];
  }

  lemma {:induction false} DigitsReadBack(digits: seq<Byte>, rest: seq<Byte>)
    requires AllDigits(digits) && (rest == [] || !IsDigit(rest[0]))
    ensures SkipDigits(digits + rest) == rest && Front(digits + rest, rest) == digits
    decreases |digits|
  {
    if digits == [] {
      assert digits + rest == rest;
    } else {
      DigitsReadBack(digits[1..], rest);
      assert (digits + rest)[1..] == digits[1..] + rest;
    }
  }

  lemma FractionReadBack(fraction: Option<seq<Byte>>, rest: seq<Byte>)
    requires fraction.Some? ==> AllDigits(fraction.value)
    requires rest == [] || (!IsDigit(rest[0]) && (fraction.None? ==> rest[0] != DOT))
    ensures var s := FractionText(fraction) + rest;
            ReadFraction(s) == fraction && SkipFraction(s) == rest && (s == [] || !IsDigit(s[0]))
  {
    hide SkipDigits, Front;
    var s := FractionText(fraction) + rest;
    if fraction.Some? {
      DigitsReadBack(fraction.value, rest);
      assert s[1..] == fraction.value + rest;
    } else {
      assert s == rest;
    }
  }

  lemma ExponentReadBack(e: Option<Exponent>, rest: seq<Byte>)
    requires e.Some? ==> LooseExponent(e.value)
    requires rest == [] || (!IsDigit(rest[0]) && (e.None? ==> rest[0] != LOWER_E && rest[0] != BIG_E))
    requires rest != [] && e.Some? && e.value.digits == [] && e.value.sign.None? ==> rest[0] != PLUS && rest[0] != MINUS
    ensures var s := ExponentText(e) + rest;
            ReadExponent(s) == e && SkipExponent(s) == rest && (s == [] || !IsDigit(s[0]))
            && (e.Some? ==> s != [] && s[0] != DOT)
  {
    hide SkipDigits, Front;
    var s := ExponentText(e) + rest;
    if e.Some? {
      var sign, t := SignText(e.value.sign), e.value.digits + rest;
      DigitsReadBack(e.value.digits, rest);
      assert s[1..] == sign + t by { Assoc3([e.value.mark], sign + e.value.digits, rest); Assoc3(sign, e.value.digits, rest); }
      assert SkipSign(s[1..]) == t by { SignReadBack(e.value.sign, e.value.digits, rest); }
      SameSign(s[1..]);
    } else {
      assert s == rest;
    }
  }

  lemma SignReadBack(sign: Option<Byte>, digits: seq<Byte>, rest: seq<Byte>)
    requires AllDigits(digits) && (sign.Some? ==> sign.value == PLUS || sign.value == MINUS)
    requires rest != [] && digits == [] && sign.None? ==> rest[0] != PLUS && rest[0] != MINUS
    ensures SkipSign(SignText(sign) + (digits + rest)) == digits + rest
  {
    var s := SignText(sign) + (digits + rest);
    if sign.Some? {
      assert s[1..] == digits + rest;
    } else {
      assert s == digits + rest;
      if digits != [] { assert s[0] == digits[0] && IsDigit(digits[0]); }
    }
  }

  lemma NumberReadBack(n: Number, rest: seq<Byte>)
    requires LooseNumber(n) && Ends(n, rest)
    ensures ReadNumber(NumberText(n) + rest) == Ok(n, rest)
    ensures var s := NumberText(n) + rest;
            s != [] && (s[0] == MINUS || IsDigit(s[0]))
  {
    hide SkipDigits, Front, ReadFraction, ReadExponent, SkipFraction, SkipExponent, FractionText, ExponentText, LooseExponent;
    var e := ExponentText(n.exponent) + rest;
    var f := FractionText(n.fraction) + e;
    var digits := n.whole + f;
    var sign: seq<Byte> := if n.minus then [MINUS] else [];
    var s := NumberText(n) + rest;
    assert s == sign + digits by {
      Assoc3(FractionText(n.fraction), ExponentText(n.exponent), rest);
      Assoc3(n.whole, FractionText(n.fraction) + ExponentText(n.exponent), rest);
      Assoc3(sign, n.whole + (FractionText(n.fraction) + ExponentText(n.exponent)), rest);
    }
    ExponentReadBack(n.exponent, rest);
    assert n.exponent.None? ==> e == rest by { NoExponent(rest); }
    FractionReadBack(n.fraction, e);
    DigitsReadBack(n.whole, f);
    MinusReadBack(n, digits);
  }

  lemma NoExponent(rest: seq<Byte>)
    ensures ExponentText(None) + rest == rest
  {
  }

  lemma MinusReadBack(n: Number, digits: seq<Byte>)
    requires LooseNumber(n) && n.whole <= digits
    ensures var s := (if n.minus then [MINUS] else []) + digits;
            && s != [] && (s[0] == MINUS || IsDigit(s[0]))
            && SkipMinus(s) == digits && (digits != s <==> n.minus)
  {
    var s := (if n.minus then [MINUS] else []) + digits;
    if n.minus {
      assert s[1..] == digits;
    } else {
      assert s == digits && IsDigit(n.whole[0]);
    }
  }

  lemma {:induction false} SpaceReadBack(blank: seq<Byte>, rest: seq<Byte>)
    requires Blanks(blank) && (rest == [] || !IsSpace(rest[0]))
    ensures SkipSpace(blank + rest) == rest && Front(blank + rest, rest) == blank
    decreases |blank|
  {
    if blank == [] {
      assert blank + rest == rest;
    } else {
      SpaceReadBack(blank[1..], rest);
      assert (blank + rest)[1..] == blank[1..] + rest;
    }
  }

  /** How the text of a value starts. */
  lemma ValueStart(v: Value, rest: seq<Byte>)
    requires LooseValue(v)
    ensures var s := ValueText(v) + rest;
            s != [] && !IsSpace(s[0]) && s[0] != CLOSE_BRACKET
  {
    hide NumberText, LooseNumber, CharsText, ItemsText, EntriesText;
    if v.Num? { NumberStart(v.n, rest); }
  }

  lemma NumberStart(n: Number, rest: seq<Byte>)
    requires LooseNumber(n)
    ensures var s := NumberText(n) + rest;
            s != [] && (s[0] == MINUS || IsDigit(s[0]))
  {
    hide FractionText, ExponentText;
    if !n.minus {
      assert IsDigit(n.whole[0]);
      assert NumberText(n)[0] == n.whole[0];
    }
  }

  lemma EndsAt(v: Value, rest: seq<Byte>)
    requires rest == [] || IsSpace(rest[0]) || rest[0] in {COMMA, CLOSE_BRACKET, CLOSE_BRACE}
    ensures EndsValue(v, rest)
  {
  }

  lemma BlankOr(blank: seq<Byte>, rest: seq<Byte>)
    requires Blanks(blank)
    ensures blank + rest == [] || IsSpace((blank + rest)[0]) || (rest != [] && (blank + rest)[0] == rest[0])
  {
    if blank == [] { assert blank + rest == rest; }
  }

  lemma {:induction false} ValueReadBack(before: seq<Byte>, v: Value, rest: seq<Byte>)
    requires Blanks(before) && LooseValue(v) && EndsValue(v, rest)
    ensures ReadValue(before + (ValueText(v) + rest)) == Ok(Spaced(before, v), rest)
    decreases v, 0
  {
    hide ReadValue, ValueText, SkipSpace, Front, Blanks;
    if v.Array? || v.EmptyArray? {
      ArrayReadBack(before, v, rest);
    } else if v.Object? || v.EmptyObject? {
      ObjectReadBack(before, v, rest);
    } else {
      ScalarReadBack(before, v, rest);
    }
  }

  lemma ScalarReadBack(before: seq<Byte>, v: Value, rest: seq<Byte>)
    requires Blanks(before) && LooseValue(v) && EndsValue(v, rest) && (v.Word? || v.Num? || v.String?)
    ensures ReadValue(before + (ValueText(v) + rest)) == Ok(Spaced(before, v), rest)
  {
    hide SkipSpace, Front, Blanks, ReadNumber, ReadChars, ReadItems, ReadEntries, NumberText, LooseNumber, CharsText, LooseChars, Ends;
    var t := ValueText(v) + rest;
    ValueStart(v, rest);
    SpaceReadBack(before, t);
    match v {
      case Word(word) =>
        assert t[..|word|] == word && t[|word|..] == rest;
        assert t[0] == word[0];
      case Num(n) =>
        NumberReadBack(n, rest);
      case String(chars) =>
        CharsReadBack(chars, rest);
        assert t[1..] == CharsText(chars) + rest;
    }
  }

  lemma {:induction false} ArrayReadBack(before: seq<Byte>, v: Value, rest: seq<Byte>)
    requires Blanks(before) && LooseValue(v) && (v.Array? || v.EmptyArray?)
    ensures ReadValue(before + (ValueText(v) + rest)) == Ok(Spaced(before, v), rest)
    decreases v, 0, 0
  {
    hide SkipSpace, Front, Blanks, ReadItems, ReadEntries, ReadChars, ReadNumber, LooseItems, ItemsText;
    var t := ValueText(v) + rest;
    ValueStart(v, rest);
    SpaceReadBack(before, t);
    if v.EmptyArray? {
      assert t[1..] == v.blank + ([CLOSE_BRACKET] + rest);
      SpaceReadBack(v.blank, [CLOSE_BRACKET] + rest);
      assert ([CLOSE_BRACKET] + rest)[1..] == rest;
    } else {
      assert t[1..] == ItemsText(v.items) + rest;
      ItemsReadBack(v.items, rest);
      ItemsStartValue(v.items, rest);
    }
  }

  lemma {:induction false} ObjectReadBack(before: seq<Byte>, v: Value, rest: seq<Byte>)
    requires Blanks(before) && LooseValue(v) && (v.Object? || v.EmptyObject?)
    ensures ReadValue(before + (ValueText(v) + rest)) == Ok(Spaced(before, v), rest)
    decreases v, 0, 0
  {
    hide SkipSpace, Front, Blanks, ReadItems, ReadEntries, ReadChars, ReadNumber, LooseEntries, EntriesText;
    var t := ValueText(v) + rest;
    ValueStart(v, rest);
    SpaceReadBack(before, t);
    if v.EmptyObject? {
      assert t[1..] == v.blank + ([CLOSE_BRACE] + rest);
      SpaceReadBack(v.blank, [CLOSE_BRACE] + rest);
      assert ([CLOSE_BRACE] + rest)[1..] == rest;
    } else {
      assert t[1..] == EntriesText(v.entries) + rest;
      EntriesReadBack(v.entries, rest);
      EntriesStartName(v.entries, rest);
    }
  }

  /** What closes an item: a bracket, or a comma and further items. */
  function Closing(items: Items, rest: seq<Byte>): seq<Byte> {
    match items
    case LastItem(_) => [CLOSE_BRACKET] + rest
    case MoreItems(_, more) => [COMMA] + (ItemsText(more) + rest)
  }

  lemma ItemsParts(items: Items, rest: seq<Byte>)
    ensures ItemsText(items) + rest == items.item.before + (ValueText(items.item.value) + (items.item.after + Closing(items, rest)))
  {
    hide ItemText, ValueText;
    var close := Closing(items, rest);
    ItemAndRest(items.item, close);
    match items {
      case LastItem(item) => Assoc3(ItemText(item), [CLOSE_BRACKET], rest);
      case MoreItems(item, more) =>
        Assoc3(ItemText(item), [COMMA] + ItemsText(more), rest);
        Assoc3([COMMA], ItemsText(more), rest);
    }
  }

  lemma ItemsStartValue(items: Items, rest: seq<Byte>)
    requires LooseItems(items)
    ensures var t := SkipSpace(ItemsText(items) + rest);
            t != [] && t[0] != CLOSE_BRACKET
  {
    hide SkipSpace, ItemsText, ValueText, LooseValue, Blanks, Closing;
    ItemsParts(items, rest);
    ValueStart(items.item.value, items.item.after + Closing(items, rest));
    SpaceReadBack(items.item.before, ValueText(items.item.value) + (items.item.after + Closing(items, rest)));
  }

  lemma {:induction false} ItemsReadBack(items: Items, rest: seq<Byte>)
    requires LooseItems(items)
    ensures ReadItems(ItemsText(items) + rest) == Ok(items, rest)
    decreases items, 1
  {
    hide SkipSpace, Front, ReadValue, ValueText, LooseValue, Blanks, ItemsText, EndsValue;
    var item, close := items.item, Closing(items, rest);
    ItemsParts(items, rest);
    assert LooseItem(item);
    BlankOr(item.after, close);
    EndsAt(item.value, item.after + close);
    ValueReadBack(item.before, item.value, item.after + close);
    SpaceReadBack(item.after, close);
    assert Item(item.before, item.value, item.after) == item;
    match items {
      case LastItem(_) =>
        assert close[1..] == rest;
      case MoreItems(_, more) =>
        assert close[1..] == ItemsText(more) + rest;
        ItemsReadBack(more, rest);
    }
  }

  function ClosingEntry(entries: Entries, rest: seq<Byte>): seq<Byte> {
    match entries
    case LastEntry(_) => [CLOSE_BRACE] + rest
    case MoreEntries(_, more) => [COMMA] + (EntriesText(more) + rest)
  }

  lemma EntriesParts(entries: Entries, rest: seq<Byte>)
    ensures var e := entries.entry;
            EntriesText(entries) + rest ==
            e.before + ([QUOTE] + (CharsText(e.name) + (e.after + ([COLON] +
              (e.item.before + (ValueText(e.item.value) + (e.item.after + ClosingEntry(entries, rest))))))))
  {
    hide EntryText, ItemText, ValueText, CharsText;
    var e, close := entries.entry, ClosingEntry(entries, rest);
    EntryAndRest(e, close);
    ItemAndRest(e.item, close);
    match entries {
      case LastEntry(e) => Assoc3(EntryText(e), [CLOSE_BRACE], rest);
      case MoreEntries(e, more) =>
        Assoc3(EntryText(e), [COMMA] + EntriesText(more), rest);
        Assoc3([COMMA], EntriesText(more), rest);
    }
  }

  lemma EntriesStartName(entries: Entries, rest: seq<Byte>)
    requires LooseEntries(entries)
    ensures var t := SkipSpace(EntriesText(entries) + rest);
            t != [] && t[0] != CLOSE_BRACE
  {
    hide SkipSpace, EntriesText, ValueText, LooseValue, Blanks, ClosingEntry, CharsText;
    EntriesParts(entries, rest);
    var e := entries.entry;
    var more := CharsText(e.name) + (e.after + ([COLON] + (e.item.before + (ValueText(e.item.value) +
                (e.item.after + ClosingEntry(entries, rest))))));
    assert ([QUOTE] + more)[0] == QUOTE;
    SpaceReadBack(e.before, [QUOTE] + more);
  }

  lemma NameReadBack(before: seq<Byte>, name: seq<Char>, after: seq<Byte>, rest: seq<Byte>)
    requires Blanks(before) && LooseChars(name) && Blanks(after)
    ensures ReadName(before + ([QUOTE] + (CharsText(name) + (after + ([COLON] + rest))))) == Ok(Spaced(before, Spaced(after, name)), rest)
  {
    hide SkipSpace, Front, ReadChars, CharsText, Blanks, LooseChars;
    var tail := [COLON] + rest;
    var t := [QUOTE] + (CharsText(name) + (after + tail));
    assert t[0] == QUOTE && t[1..] == CharsText(name) + (after + tail);
    SpaceReadBack(before, t);
    CharsReadBack(name, after + tail);
    assert tail[0] == COLON && tail[1..] == rest;
    SpaceReadBack(after, tail);
  }

  lemma {:induction false} EntriesReadBack(entries: Entries, rest: seq<Byte>)
    requires LooseEntries(entries)
    ensures ReadEntries(EntriesText(entries) + rest) == Ok(entries, rest)
    decreases entries, 1
  {
    hide SkipSpace, Front, ReadValue, ReadName, ValueText, LooseValue, Blanks, EntriesText, EndsValue, CharsText, LooseChars;
    var e, close := entries.entry, ClosingEntry(entries, rest);
    var item := e.item;
    EntriesParts(entries, rest);
    assert LooseEntry(e) && LooseItem(item);
    NameReadBack(e.before, e.name, e.after, item.before + (ValueText(item.value) + (item.after + close)));
    BlankOr(item.after, close);
    EndsAt(item.value, item.after + close);
    ValueReadBack(item.before, item.value, item.after + close);
    SpaceReadBack(item.after, close);
    assert Entry(e.before, e.name, e.after, Item(item.before, item.value, item.after)) == e;
    match entries {
      case LastEntry(_) =>
        assert close[1..] == rest;
      case MoreEntries(_, more) =>
        assert close[1..] == EntriesText(more) + rest;
        EntriesReadBack(more, rest);
    }
  }

  // ---- What json.decode accepts ----

  /** s is some value of the loose grammar and a rest that does not go on with it. */
  ghost predicate SplitsInto(s: seq<Byte>, before: seq<Byte>, v: Value, rest: seq<Byte>) {
    WrittenAs(s, Spaced(before, v), rest)
  }

  /** The parser accepts exactly what is blanks, a value of the loose grammar and any rest, and there is one way only to
      take it apart. */
  lemma AcceptedIff(f: Floats, s: seq<Byte>)
    ensures ParseValue(f, s).Ok? <==> exists before, v, rest :: SplitsInto(s, before, v, rest)
    ensures forall before, v, rest :: SplitsInto(s, before, v, rest) ==> ReadValue(s) == Ok(Spaced(before, v), rest)
    ensures ParseValue(f, s).Ok? ==> ReadValue(s).Ok? && ParseValue(f, s).rest == ReadValue(s).rest
  {
    hide ParseValue, ReadValue, ValueText, LooseValue, Blanks, EndsValue;
    SameValue(f, s);
    if ReadValue(s).Ok? {
      ValueWritten(s);
      var r := ReadValue(s);
      assert SplitsInto(s, r.value.before, r.value.value, r.rest);
    }
    forall before, v, rest | SplitsInto(s, before, v, rest) ensures ReadValue(s) == Ok(Spaced(before, v), rest) {
      ValueReadBack(before, v, rest);
    }
  }

  lemma BlankIff(s: seq<Byte>)
    ensures Blank(s) <==> Blanks(s)
  {
    SpaceWritten(s);
    if Blanks(s) { SpaceReadBack(s, []); assert s + [] == s; }
  }

  /** Whatever is accepted is a JSON text exactly if all its numbers and characters are as the standard has them, and
      nothing but blanks is left; and every JSON text is accepted. */
  lemma JsonTextIff(f: Floats, s: seq<Byte>)
    ensures var r := ReadValue(s);
            && (ParseValue(f, s).Ok? <==> r.Ok?)
            && (IsJsonText(s) <==> r.Ok? && Strict(r.value.value) && Blank(r.rest))
    ensures IsJsonText(s) ==> IsDocument(f, s)
  {
    hide ParseValue, ReadValue, ValueText, LooseValue, Strict;
    AcceptedIff(f, s);
    SameValue(f, s);
    if IsJsonText(s) {
      var item: Item :| LooseItem(item) && Strict(item.value) && s == ItemText(item);
      BlankOr(item.after, []);
      assert item.after + [] == item.after;
      EndsAt(item.value, item.after);
      BlankIff(item.after);
      assert SplitsInto(s, item.before, item.value, item.after);
    }
    if ReadValue(s).Ok? && Strict(ReadValue(s).value.value) && Blank(ReadValue(s).rest) {
      var r := ReadValue(s);
      ValueWritten(s);
      BlankIff(r.rest);
      var item := Item(r.value.before, r.value.value, r.rest);
      assert LooseItem(item) && s == ItemText(item);
    }
  }

  /** Some number is not as the standard has it, or some character is not, or there is text behind the value. */
  ghost predicate Beyond(v: Value, rest: seq<Byte>) {
    (exists n :: n in Numbers(v) && !StrictNumber(n)) || (exists c :: c in Chars(v) && !StrictChar(c)) || !Blanks(rest)
  }

  /** What is accepted although it is no JSON text: exactly what is a value of the loose grammar, with something in it or
      behind it that the standard does not have. */
  lemma AcceptedBeyondIff(f: Floats, s: seq<Byte>)
    ensures ParseValue(f, s).Ok? && !IsJsonText(s) <==>
            exists before, v, rest :: SplitsInto(s, before, v, rest) && Beyond(v, rest)
  {
    hide ParseValue, ReadValue, ValueText, LooseValue, SplitsInto, StrictNumber, StrictChar;
    AcceptedIff(f, s);
    JsonTextIff(f, s);
    forall before, v, rest | SplitsInto(s, before, v, rest)
      ensures Beyond(v, rest) <==> !(Strict(v) && Blank(rest))
    {
      BlankIff(rest);
    }
  }

  /** A lone minus, a leading zero, a number without its fraction, an unknown escape and a control character: all are
      accepted and read to the end, none is a JSON text. */
  lemma AcceptedExamples(f: Floats)
    ensures forall s :: s in [[MINUS], [ZERO, 49], [49, DOT], [QUOTE, BACKSLASH, 113, QUOTE], [QUOTE, NEWLINE, QUOTE]] ==>
              ParseValue(f, s).Ok? && ParseValue(f, s).rest == [] && !IsJsonText(s)
  {
    hide ParseValue, ReadValue, IsJsonText, ValueText, LooseNumber, StrictNumber, StrictChar, LooseChars;
    Example(f, Num(Number(true, [], None, None)), [MINUS]) by { NumberExamples(); }
    Example(f, Num(Number(false, [ZERO, 49], None, None)), [ZERO, 49]) by { NumberExamples(); }
    Example(f, Num(Number(false, [49], Some([]), None)), [49, DOT]) by { NumberExamples(); }
    Example(f, String([Escaped(113)]), [QUOTE, BACKSLASH, 113, QUOTE]) by { StringExamples(); }
    Example(f, String([Plain(NEWLINE)]), [QUOTE, NEWLINE, QUOTE]) by { StringExamples(); }
  }

  lemma Example(f: Floats, v: Value, s: seq<Byte>)
    requires LooseValue(v) && !Strict(v) && ValueText(v) == s
    ensures ParseValue(f, s).Ok? && ParseValue(f, s).rest == [] && !IsJsonText(s)
  {
    hide ParseValue, ReadValue, IsJsonText, LooseValue, Strict, ValueText;
    assert s == [] + (s + []);
    EndsAt(v, []);
    assert SplitsInto(s, [], v, []);
    AcceptedIff(f, s);
    JsonTextIff(f, s);
  }

  lemma NumberExamples()
    ensures var n := Number(true, [], None, None); LooseNumber(n) && !StrictNumber(n) && ValueText(Num(n)) == [MINUS]
    ensures var n := Number(false, [ZERO, 49], None, None); LooseNumber(n) && !StrictNumber(n) && ValueText(Num(n)) == [ZERO, 49]
    ensures var n := Number(false, [49], Some([]), None); LooseNumber(n) && !StrictNumber(n) && ValueText(Num(n)) == [49, DOT]
  {
  }

  lemma StringExamples()
    ensures LooseChars([Escaped(113)]) && !StrictChar(Escaped(113))
    ensures ValueText(String([Escaped(113)])) == [QUOTE, BACKSLASH, 113, QUOTE]
    ensures LooseChars([Plain(NEWLINE)]) && !StrictChar(Plain(NEWLINE))
    ensures ValueText(String([Plain(NEWLINE)])) == [QUOTE, NEWLINE, QUOTE]
    ensures Escaped(113) in Chars(String([Escaped(113)])) && Plain(NEWLINE) in Chars(String([Plain(NEWLINE)]))
  {
    assert CharsText([]) == [QUOTE];
    assert [Escaped(113)][1..] == [] && [Plain(NEWLINE)][1..] == [];
    assert CharsText([Escaped(113)]) == [BACKSLASH, 113, QUOTE];
    assert CharsText([Plain(NEWLINE)]) == [NEWLINE, QUOTE];
  }
}
