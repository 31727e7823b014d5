/** The JSON encoder and parser of src/stdlib_json.c as they run: an output buffer that grows, and a
    position that moves over the input. */
module JsonCodec {
  import opened Bytes
  import opened Buffers
  import opened JsonText
  import opened Sequences
  import opened Values

  // ---- Encoding ----

  method EncodeStringTo(str: seq<Byte>, buf: Buffer)
    requires buf.Valid()
    modifies buf, buf.data
    ensures buf.Valid() && buf.Text() == old(buf.Text()) + EncodeString(str)
    ensures buf.data == old(buf.data) || fresh(buf.data)
  {
    hide Escape;
    buf.Append([QUOTE]);
    var i := 0;
    ghost var start := buf.Text();
    NothingEscaped(start);
    while i < |str|
      invariant 0 <= i <= |str| && buf.Valid() && buf.Text() == start + EscapeAll(str[..i])
      invariant buf.data == old(buf.data) || fresh(buf.data)
    {
      OneMoreEscaped(start, str, i);
      var c := str[i];
      if c == QUOTE {
        buf.Append([BACKSLASH, QUOTE]);
      } else if c == BACKSLASH {
        buf.Append([BACKSLASH, BACKSLASH]);
      } else if c == NEWLINE {
        buf.Append([BACKSLASH, LOWER_N]);
      } else if c == RETURN {
        buf.Append([BACKSLASH, LOWER_R]);
      } else if c == TAB {
        buf.Append([BACKSLASH, LOWER_T]);
      } else if c < 32 {
        buf.Append([BACKSLASH, LOWER_U, ZERO, ZERO, Hex(c / 16), Hex(c % 16)]);
      } else {
        buf.Append([c]);
      }
      EscapeCases(c);
      i := i + 1;
    }
    assert str[..i] == str;
    buf.Append([QUOTE]);
    Regroup(old(buf.Text()), [QUOTE], EscapeAll(str), [QUOTE]);
  }

  lemma EscapeCases(c: Byte)
    ensures Escape(c) ==
            if c == QUOTE then [BACKSLASH, QUOTE]
            else if c == BACKSLASH then [BACKSLASH, BACKSLASH]
            else if c == NEWLINE then [BACKSLASH, LOWER_N]
            else if c == RETURN then [BACKSLASH, LOWER_R]
            else if c == TAB then [BACKSLASH, LOWER_T]
            else if c < 32 then [BACKSLASH, LOWER_U, ZERO, ZERO, Hex(c / 16), Hex(c % 16)]
            else [c]
  {
  }

  lemma NothingEscaped(start: seq<Byte>)
    ensures start + EscapeAll([]) == start
  {
  }

  lemma OneMoreEscaped(start: seq<Byte>, str: seq<Byte>, i: nat)
    requires i < |str|
    ensures start + EscapeAll(str[..i + 1]) == start + EscapeAll(str[..i]) + Escape(str[i])
  {
    hide Escape;
    assert str[..i + 1] == str[..i] + [str[i]];
    EscapeConcat(str[..i], str[i]);
    Assoc(start, EscapeAll(str[..i]), Escape(str[i]));
  }

  lemma {:induction false} EscapeConcat(a: seq<Byte>, c: Byte)
    ensures EscapeAll(a + [c]) == EscapeAll(a) + Escape(c)
    decreases |a|
  {
    hide Escape;
    if a == [] {
      assert [c][1..] == [] && EscapeAll([c]) == Escape(c) + EscapeAll([]) == Escape(c);
      assert a + [c] == [c] && EscapeAll(a) + Escape(c) == Escape(c);
    } else {
      assert (a + [c])[0] == a[0] && (a + [c])[1..] == a[1..] + [c];
      EscapeConcat(a[1..], c);
      Assoc(Escape(a[0]), EscapeAll(a[1..]), Escape(c));
    }
  }

  /** json_encode_value. */
  method EncodeTo(f: Floats, v: Json, buf: Buffer)
    requires buf.Valid()
    modifies buf, buf.data
    ensures buf.Valid() && buf.Text() == old(buf.Text()) + Encode(f, v)
    ensures buf.data == old(buf.data) || fresh(buf.data)
    decreases v, 1
  {
    hide EncodeString, Decimal, EncodeItems, EncodeMembers;
    match v {
      case Null => buf.Append(NULL_TEXT);
      case Bool(b) => if b { buf.Append(TRUE_TEXT); } else { buf.Append(FALSE_TEXT); }
      case Int(n) => buf.Append(Decimal(n));
      case Float(d) => if f.finite(d) { buf.Append(f.show(d)); } else { buf.Append(NULL_TEXT); }
      case Str(s) => EncodeStringTo(s, buf);
      case List(items) => EncodeListTo(f, v, buf);
      case Map(members) => EncodeMapTo(f, v, buf);
      case Other => buf.Append(NULL_TEXT);
    }
  }

  method EncodeListTo(f: Floats, v: Json, buf: Buffer)
    requires buf.Valid() && v.List?
    modifies buf, buf.data
    ensures buf.Valid() && buf.Text() == old(buf.Text()) + Encode(f, v)
    ensures buf.data == old(buf.data) || fresh(buf.data)
    decreases v, 0
  {
    hide Encode, EncodeItems;
    var items := v.items;
    buf.Append([OPEN_BRACKET]);
    ghost var start := buf.Text();
    var i := 0;
    NoItemsYet(f, start);
    while i < |items|
      invariant 0 <= i <= |items| && buf.Valid() && buf.Text() == start + EncodeItems(f, items[..i])
      invariant buf.data == old(buf.data) || fresh(buf.data)
    {
      OneMoreItem(f, start, items, i);
      if i > 0 { buf.Append([COMMA]); }
      EncodeTo(f, items[i], buf);
      i := i + 1;
    }
    assert items[..i] == items;
    buf.Append([CLOSE_BRACKET]);
    ListEncoded(f, v);
    Regroup(old(buf.Text()), [OPEN_BRACKET], EncodeItems(f, items), [CLOSE_BRACKET]);
  }

  lemma ListEncoded(f: Floats, v: Json)
    requires v.List?
    ensures Encode(f, v) == [OPEN_BRACKET] + EncodeItems(f, v.items) + [CLOSE_BRACKET]
  {
  }

  lemma NoItemsYet(f: Floats, start: seq<Byte>)
    ensures start + EncodeItems(f, []) == start && start + EncodeMembers(f, []) == start
  {
  }

  lemma OneMoreItem(f: Floats, start: seq<Byte>, items: seq<Json>, i: nat)
    requires i < |items|
    ensures start + EncodeItems(f, items[..i + 1]) ==
            start + EncodeItems(f, items[..i]) + (if i > 0 then [COMMA] else []) + Encode(f, items[i])
  {
    hide Encode;
    assert items[..i + 1] == items[..i] + [items[i]];
    ItemsConcat(f, items[..i], items[i]);
    Regroup(start, EncodeItems(f, items[..i]), if i > 0 then [COMMA] else [], Encode(f, items[i]));
  }

  lemma {:induction false} ItemsConcat(f: Floats, a: seq<Json>, v: Json)
    ensures EncodeItems(f, a + [v]) == EncodeItems(f, a) + (if a != [] then [COMMA] else []) + Encode(f, v)
    decreases |a|
  {
    hide Encode;
    if a == [] {
      assert a + [v] == [v] && EncodeItems(f, a) + [] + Encode(f, v) == Encode(f, v);
    } else {
      assert (a + [v])[0] == a[0] && (a + [v])[1..] == a[1..] + [v];
      ItemsConcat(f, a[1..], v);
      if |a| == 1 {
        assert a[1..] == [] && EncodeItems(f, []) + [] + Encode(f, v) == Encode(f, v);
      } else {
        assert Encode(f, a[0]) + [COMMA] + (EncodeItems(f, a[1..]) + [COMMA] + Encode(f, v)) ==
               Encode(f, a[0]) + [COMMA] + EncodeItems(f, a[1..]) + [COMMA] + Encode(f, v);
      }
    }
  }

  method EncodeMapTo(f: Floats, v: Json, buf: Buffer)
    requires buf.Valid() && v.Map?
    modifies buf, buf.data
    ensures buf.Valid() && buf.Text() == old(buf.Text()) + Encode(f, v)
    ensures buf.data == old(buf.data) || fresh(buf.data)
    decreases v, 0
  {
    hide *;
    var members := v.members;
    buf.Append([OPEN_BRACE]);
    ghost var start := buf.Text();
    var i, first := 0, true;
    NoItemsYet(f, start);
    while i < |members|
      invariant 0 <= i <= |members| && buf.Valid() && buf.Text() == start + EncodeMembers(f, members[..i])
      invariant first == (i == 0)
      invariant buf.data == old(buf.data) || fresh(buf.data)
    {
      OneMoreMember(f, start, members, i);
      if !first { buf.Append([COMMA]); }
      first := false;
      EncodeMemberTo(f, members[i], buf);
      i := i + 1;
    }
    assert members[..i] == members;
    buf.Append([CLOSE_BRACE]);
    MapEncoded(f, v);
    Regroup(old(buf.Text()), [OPEN_BRACE], EncodeMembers(f, members), [CLOSE_BRACE]);
  }

  method EncodeMemberTo(f: Floats, m: Member, buf: Buffer)
    requires buf.Valid()
    modifies buf, buf.data
    ensures buf.Valid() && buf.Text() == old(buf.Text()) + EncodeMember(f, m)
    ensures buf.data == old(buf.data) || fresh(buf.data)
    decreases m, 0
  {
    hide EncodeString, Encode, buf.Valid, buf.Text;
    EncodeStringTo(m.key, buf);
    buf.Append([COLON]);
    EncodeTo(f, m.value, buf);
    Regroup(old(buf.Text()), EncodeString(m.key), [COLON], Encode(f, m.value));
  }

  lemma MapEncoded(f: Floats, v: Json)
    requires v.Map?
    ensures Encode(f, v) == [OPEN_BRACE] + EncodeMembers(f, v.members) + [CLOSE_BRACE]
  {
  }

  lemma OneMoreMember(f: Floats, start: seq<Byte>, members: seq<Member>, i: nat)
    requires i < |members|
    ensures start + EncodeMembers(f, members[..i + 1]) ==
            start + EncodeMembers(f, members[..i]) + (if i > 0 then [COMMA] else []) + EncodeMember(f, members[i])
  {
    hide Encode, EncodeString;
    assert members[..i + 1] == members[..i] + [members[i]];
    MembersConcat(f, members[..i], members[i]);
    Regroup(start, EncodeMembers(f, members[..i]), if i > 0 then [COMMA] else [], EncodeMember(f, members[i]));
  }

  lemma {:induction false} MembersConcat(f: Floats, a: seq<Member>, m: Member)
    ensures EncodeMembers(f, a + [m]) == EncodeMembers(f, a) + (if a != [] then [COMMA] else []) + EncodeMember(f, m)
    decreases |a|
  {
    hide EncodeMember;
    if a == [] {
      assert a + [m] == [m] && EncodeMembers(f, a) + [] + EncodeMember(f, m) == EncodeMember(f, m);
    } else {
      assert (a + [m])[0] == a[0] && (a + [m])[1..] == a[1..] + [m];
      MembersConcat(f, a[1..], m);
      if |a| == 1 {
        assert a[1..] == [] && EncodeMembers(f, []) + [] + EncodeMember(f, m) == EncodeMember(f, m);
      } else {
        assert EncodeMember(f, a[0]) + [COMMA] + (EncodeMembers(f, a[1..]) + [COMMA] + EncodeMember(f, m)) ==
               EncodeMember(f, a[0]) + [COMMA] + EncodeMembers(f, a[1..]) + [COMMA] + EncodeMember(f, m);
      }
    }
  }

  // ---- Parsing ----

  class JsonParser {
    const src: seq<Byte>
    var pos: nat

    ghost predicate Valid()
      reads this
    {
      pos <= |src|
    }

    /** The input that is left. */
    ghost function Rest(): (s: seq<Byte>)
      reads this
      requires Valid()
    {
      src[pos..]
    }

    constructor (src: seq<Byte>)
      ensures Valid() && Rest() == src
    {
      this.src, pos := src, 0;
    }

    method SkipSpace()
      requires Valid()
      modifies this
      ensures Valid() && Rest() == JsonText.SkipSpace(old(Rest())) && pos >= old(pos)
    {
      while pos < |src| && IsSpace(src[pos])
        invariant Valid() && JsonText.SkipSpace(Rest()) == JsonText.SkipSpace(old(Rest())) && pos >= old(pos)
      {
        Next(src, pos);
        pos := pos + 1;
      }
      Next(src, pos);
    }

    /** json_match. */
    method MatchText(text: seq<Byte>) returns (ok: bool)
      requires Valid() && SkipsNothing(Rest())
      modifies this
      ensures Valid() && pos >= old(pos) && ok == (text <= old(Rest()))
      ensures if ok then Rest() == old(Rest())[|text|..] else pos == old(pos)
    {
      if pos + |text| > |src| { return false; }
      ok := src[pos..pos + |text|] == text;
      if ok {
        assert Rest()[..|text|] == text;
        pos := pos + |text|;
      } else {
        assert src[pos..][..|text|] == src[pos..pos + |text|];
      }
    }

    ghost predicate SkipsNothing(s: seq<Byte>) {
      JsonText.SkipSpace(s) == s
    }

    /** json_parse_string. */
    method ParseString() returns (ok: bool, text: seq<Byte>)
      requires Valid()
      modifies this
      ensures Valid() && Agrees(JsonText.ParseString(old(Rest())), ok, text, Rest()) && (ok ==> pos > old(pos))
    {
      hide ParseChars;
      text := [];
      SkipSpace();
      Next(src, pos);
      if pos >= |src| { return false, []; }
      var c := src[pos];
      pos := pos + 1;
      if c != QUOTE { return false, []; }
      ok, text := ParseCharacters();
    }

    method ParseCharacters() returns (ok: bool, text: seq<Byte>)
      requires Valid()
      modifies this
      ensures Valid() && Agrees(ParseChars(old(Rest()), []), ok, text, Rest()) && pos >= old(pos)
    {
      hide ParseChars, HexValue, Utf8, Hex4, IsHex4, Unescape;
      var buf := new Buffer();
      while pos < |src|
        invariant Valid() && buf.Valid() && fresh(buf) && fresh(buf.data) && pos >= old(pos)
        invariant ParseChars(old(Rest()), []) == ParseChars(Rest(), buf.Text())
        decreases |src| - pos
      {
        Next(src, pos);
        CharStep(src, pos, buf.Text());
        var c := src[pos];
        pos := pos + 1;
        if c == QUOTE {
          return true, buf.data[..buf.len];
        }
        if c == BACKSLASH {
          var valid, bytes := ParseEscape();
          if !valid { return false, []; }
          buf.Append(bytes);
        } else {
          buf.Append([c]);
        }
      }
      NoInput(buf.Text());
      return false, [];
    }

    /** An escape after its backslash, as the bytes it stands for. */
    method ParseEscape() returns (ok: bool, bytes: seq<Byte>)
      requires Valid()
      modifies this
      ensures Valid() && pos >= old(pos) && (ok ==> pos > old(pos))
      ensures var s := old(Rest());
              if s == [] then !ok
              else if s[0] != LOWER_U then ok && bytes == [Unescape(s[0])] && Rest() == s[1..]
              else if IsHex4(s[1..]) then ok && bytes == Utf8(Hex4(s[1..])) && Rest() == s[1..][4..]
              else !ok
    {
      hide HexValue, Utf8, Hex4, IsHex4, Unescape;
      if pos >= |src| { return false, []; }
      Next(src, pos);
      var esc := src[pos];
      pos := pos + 1;
      if esc == LOWER_U {
        ok, bytes := UnicodeEscape();
      } else {
        ok, bytes := true, [Unescape(esc)];
      }
    }

    /** Four hexadecimal digits, and the UTF-8 of the code point. */
    method UnicodeEscape() returns (ok: bool, bytes: seq<Byte>)
      requires Valid()
      modifies this
      ensures Valid() && ok == IsHex4(old(Rest())) && pos >= old(pos)
      ensures ok ==> bytes == Utf8(Hex4(old(Rest()))) && Rest() == old(Rest())[4..]
    {
      bytes := [];
      if pos + 4 > |src| { return false, []; }
      ghost var s := Rest();
      var cp, i := 0, 0;
      while i < 4
        invariant 0 <= i <= 4 && pos == old(pos) + i && |s| >= 4 && s == src[old(pos)..]
        invariant forall j :: 0 <= j < i ==> HexValue(s[j]) < 16
        invariant cp == HexPrefix(s, i)
      {
        var h := HexValue(src[pos]);
        assert src[pos] == s[i];
        pos := pos + 1;
        if h == 16 { return false, []; }
        cp := cp * 16 + h;
        i := i + 1;
      }
      HexPrefixIsHex4(s);
      bytes := Utf8(cp);
      ok := true;
    }

    method SkipDigits()
      requires Valid()
      modifies this
      ensures Valid() && Rest() == JsonText.SkipDigits(old(Rest())) && pos >= old(pos)
    {
      while pos < |src| && IsDigit(src[pos])
        invariant Valid() && JsonText.SkipDigits(Rest()) == JsonText.SkipDigits(old(Rest())) && pos >= old(pos)
      {
        Next(src, pos);
        pos := pos + 1;
      }
      Next(src, pos);
    }

    method SkipFraction()
      requires Valid()
      modifies this
      ensures Valid() && Rest() == JsonText.SkipFraction(old(Rest())) && pos >= old(pos)
    {
      hide JsonText.SkipDigits;
      Next(src, pos);
      if pos < |src| && src[pos] == DOT {
        pos := pos + 1;
        SkipDigits();
      }
    }

    method SkipExponent()
      requires Valid()
      modifies this
      ensures Valid() && Rest() == JsonText.SkipExponent(old(Rest())) && pos >= old(pos)
    {
      hide JsonText.SkipDigits;
      Next(src, pos);
      if pos < |src| && (src[pos] == LOWER_E || src[pos] == BIG_E) {
        pos := pos + 1;
        Next(src, pos);
        if pos < |src| && (src[pos] == PLUS || src[pos] == MINUS) { pos := pos + 1; }
        SkipDigits();
      }
    }

    /** json_parse_number. */
    method ParseNumber(f: Floats) returns (ok: bool, v: Json)
      requires Valid() && SkipsNothing(Rest())
      modifies this
      ensures Valid() && Agrees(JsonText.ParseNumber(f, old(Rest())), ok, v, Rest()) && (ok ==> pos > old(pos))
    {
      hide Strtoll, Wrap48, JsonText.SkipDigits, JsonText.SkipFraction, JsonText.SkipExponent;
      var start := pos;
      ghost var s := Rest();
      Next(src, pos);
      if pos < |src| && src[pos] == MINUS { pos := pos + 1; }
      SkipDigits();
      var whole := pos;
      SkipFraction();
      SkipExponent();
      var isFloat := pos != whole;
      v := Null;
      if pos == start { return false, Null; }
      var n := pos - start;
      var text := src[start..start + if n >= 64 then 63 else n];
      assert text == s[..if n >= 64 then 63 else n];
      ok := true;
      v := if isFloat then Float(f.read(text)) else Int(Wrap48(Strtoll(text)));
    }

    /** json_parse_value. */
    method ParseValue(f: Floats) returns (ok: bool, v: Json)
      requires Valid()
      modifies this
      ensures Valid() && Agrees(JsonText.ParseValue(f, old(Rest())), ok, v, Rest()) && (ok ==> pos > old(pos))
      decreases |src| - pos, 1
    {
      hide ParseItems, ParseMembers, JsonText.ParseString, JsonText.ParseNumber, JsonText.SkipSpace;
      v := Null;
      SkipSpace();
      Next(src, pos);
      Skipped(old(Rest()));
      ValueStep(f, old(Rest()));
      if pos >= |src| { return false, Null; }
      var c := src[pos];
      if c == QUOTE {
        var text;
        ok, text := ParseString();
        v := Str(text);
      } else if c == OPEN_BRACE {
        ok, v := ParseObject(f);
      } else if c == OPEN_BRACKET {
        ok, v := ParseArray(f);
      } else if c == LOWER_T {
        ok := MatchText(TRUE_TEXT);
        v := Bool(true);
      } else if c == LOWER_F {
        ok := MatchText(FALSE_TEXT);
        v := Bool(false);
      } else if c == LOWER_N {
        ok := MatchText(NULL_TEXT);
      } else if c == MINUS || IsDigit(c) {
        ok, v := ParseNumber(f);
      } else {
        ok := false;
      }
    }

    /** The byte after an element, past white space. */
    method Separator() returns (ok: bool, c: Byte)
      requires Valid()
      modifies this
      ensures Valid() && (ok ==> pos > old(pos))
      ensures var r := JsonText.SkipSpace(old(Rest()));
              if r == [] then !ok else ok && c == r[0] && Rest() == r[1..]
    {
      hide JsonText.SkipSpace;
      SkipSpace();
      Next(src, pos);
      if pos >= |src| { return false, 0; }
      c := src[pos];
      pos := pos + 1;
      ok := true;
    }

    /** json_parse_array, at its opening bracket. */
    method ParseArray(f: Floats) returns (ok: bool, v: Json)
      requires Valid() && pos < |src|
      modifies this
      ensures Valid() && (ok ==> pos > old(pos))
      ensures var inner := JsonText.SkipSpace(old(Rest())[1..]);
              Agrees(if inner != [] && inner[0] == CLOSE_BRACKET then Ok(List([]), inner[1..]) else ParseItems(f, inner, []),
                     ok, v, Rest())
      decreases |src| - pos, 0
    {
      hide ParseItems, JsonText.ParseValue, JsonText.SkipSpace;
      v := Null;
      Next(src, pos);
      pos := pos + 1;
      SkipSpace();
      Next(src, pos);
      if pos < |src| && src[pos] == CLOSE_BRACKET {
        pos := pos + 1;
        return true, List([]);
      }
      ghost var all := ParseItems(f, Rest(), []);
      var items := [];
      while true
        invariant Valid() && pos > old(pos) && ParseItems(f, Rest(), items) == all
        decreases |src| - pos
      {
        ghost var at, s := pos, Rest();
        ItemsStep(f, s, items);
        var valid, item := ParseValue(f);
        if !valid { return false, Null; }
        var c;
        valid, c := Separator();
        if !valid { return false, Null; }
        items := items + [item];
        if c == CLOSE_BRACKET { return true, List(items); }
        if c != COMMA { return false, Null; }
      }
    }

    /** A key and the colon after it. */
    method ParseKey() returns (ok: bool, key: seq<Byte>)
      requires Valid()
      modifies this
      ensures Valid() && (ok ==> pos > old(pos))
      ensures var k := JsonText.ParseString(old(Rest()));
              if k.Fail? || JsonText.SkipSpace(k.rest) == [] || JsonText.SkipSpace(k.rest)[0] != COLON then !ok
              else ok && key == k.value && Rest() == JsonText.SkipSpace(k.rest)[1..]
    {
      hide JsonText.ParseString, JsonText.SkipSpace;
      ok, key := ParseString();
      if !ok { return false, []; }
      SkipSpace();
      Next(src, pos);
      if pos >= |src| || src[pos] != COLON { return false, []; }
      pos := pos + 1;
    }

    /** json_parse_object, at its opening brace. */
    method ParseObject(f: Floats) returns (ok: bool, v: Json)
      requires Valid() && pos < |src|
      modifies this
      ensures Valid() && (ok ==> pos > old(pos))
      ensures var inner := JsonText.SkipSpace(old(Rest())[1..]);
              Agrees(if inner != [] && inner[0] == CLOSE_BRACE then Ok(Map([]), inner[1..]) else ParseMembers(f, inner, []),
                     ok, v, Rest())
      decreases |src| - pos, 0
    {
      hide ParseMembers, JsonText.ParseValue, JsonText.ParseString, JsonText.SkipSpace, SetMember;
      v := Null;
      Next(src, pos);
      pos := pos + 1;
      SkipSpace();
      Next(src, pos);
      if pos < |src| && src[pos] == CLOSE_BRACE {
        pos := pos + 1;
        return true, Map([]);
      }
      ghost var all := ParseMembers(f, Rest(), []);
      var members := [];
      while true
        invariant Valid() && pos > old(pos) && ParseMembers(f, Rest(), members) == all
        decreases |src| - pos
      {
        MembersStep(f, Rest(), members);
        var valid, key := ParseKey();
        if !valid { return false, Null; }
        var value;
        valid, value := ParseValue(f);
        if !valid { return false, Null; }
        members := SetMember(members, key, value);
        var c;
        valid, c := Separator();
        if !valid { return false, Null; }
        if c == CLOSE_BRACE { return true, Map(members); }
        if c != COMMA { return false, Null; }
      }
    }
  }

  /** native_json_decode on a string. */
  method Decode(f: Floats, src: seq<Byte>) returns (v: Json)
    ensures v == JsonText.Decode(f, src)
  {
    var parser := new JsonParser(src);
    var ok, result := parser.ParseValue(f);
    v := if ok then result else Null;
  }

  /** A method's outcome is what the function says. */
  ghost predicate Agrees<T(!new)>(r: Parsed<T>, ok: bool, v: T, rest: seq<Byte>) {
    match r
    case Fail => !ok
    case Ok(value, after) => ok && v == value && rest == after
  }

  lemma Next(src: seq<Byte>, pos: nat)
    requires pos <= |src|
    ensures pos < |src| ==> src[pos..] != [] && src[pos..][0] == src[pos] && src[pos..][1..] == src[pos + 1..]
    ensures pos == |src| ==> src[pos..] == []
  {
  }

  ghost function HexPrefix(s: seq<Byte>, i: nat): nat
    requires i <= |s|
  {
    if i == 0 then 0 else HexPrefix(s, i - 1) * 16 + HexValue(s[i - 1])
  }

  lemma HexPrefixIsHex4(s: seq<Byte>)
    requires IsHex4(s)
    ensures HexPrefix(s, 4) == Hex4(s)
  {
    assert HexPrefix(s, 1) == HexValue(s[0]);
    assert HexPrefix(s, 2) == HexValue(s[0]) * 16 + HexValue(s[1]);
    assert HexPrefix(s, 3) == HexPrefix(s, 2) * 16 + HexValue(s[2]);
  }

  lemma Skipped(s: seq<Byte>)
    ensures JsonText.SkipSpace(JsonText.SkipSpace(s)) == JsonText.SkipSpace(s)
  {
  }

  /** One character of a string, or one escape. */
  lemma CharStep(src: seq<Byte>, pos: nat, done: seq<Byte>)
    requires pos < |src|
    ensures var c := src[pos];
            ParseChars(src[pos..], done) ==
            if c == QUOTE then Ok(done, src[pos + 1..])
            else if c != BACKSLASH then ParseChars(src[pos + 1..], done + [c])
            else
              var t := src[pos + 1..];
              if t == [] then Fail
              else if t[0] != LOWER_U then ParseChars(t[1..], done + [Unescape(t[0])])
              else if IsHex4(t[1..]) then ParseChars(t[1..][4..], done + Utf8(Hex4(t[1..])))
              else Fail
  {
    var s, t := src[pos..], src[pos + 1..];
    assert s[1..] == t;
    if |s| >= 2 { assert s[1] == t[0] && s[2..] == t[1..]; }
    if |s| >= 6 { assert s[6..] == t[1..][4..]; }
  }

  lemma NoInput(done: seq<Byte>)
    ensures ParseChars([], done) == Fail
  {
  }
}
