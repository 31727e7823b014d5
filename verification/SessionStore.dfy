/** Sessions as they run (src/stdlib_session.c): JSON written to a growing buffer and read by a moving
    position, and the session whose entries a decoded cookie replaces. */
module SessionStore {
  import opened Bytes
  import opened Buffers
  import opened JsonCodec
  import opened JsonText
  import opened Options
  import opened Sessions
  import opened Values
  import Base64

  // ---- Writing ----

  method WriteString(str: Text, buf: Buffer)
    requires buf.Valid()
    modifies buf, buf.data
    ensures buf.Valid() && buf.Text() == old(buf.Text()) + SessionString(str)
    ensures buf.data == old(buf.data) || fresh(buf.data)
  {
    hide *;
    buf.Append([QUOTE]);
    WriteEscapes(str, buf);
    buf.Append([QUOTE]);
    StringParts(old(buf.Text()), str);
  }

  lemma StringParts(before: Text, str: Text)
    ensures before + [QUOTE] + SessionEscapes(str) + [QUOTE] == before + SessionString(str)
  {
    hide SessionEscapes;
    assert before + [QUOTE] + SessionEscapes(str) + [QUOTE] == before + ([QUOTE] + SessionEscapes(str) + [QUOTE]);
  }

  method WriteEscapes(str: Text, buf: Buffer)
    requires buf.Valid()
    modifies buf, buf.data
    ensures buf.Valid() && buf.Text() == old(buf.Text()) + SessionEscapes(str)
    ensures buf.data == old(buf.data) || fresh(buf.data)
  {
    hide *;
    var i := 0;
    NoEscapes(old(buf.Text()));
    assert str[..0] == [];
    while i < |str|
      invariant 0 <= i <= |str| && buf.Valid() && buf.Text() == old(buf.Text()) + SessionEscapes(str[..i])
      invariant buf.data == old(buf.data) || fresh(buf.data)
    {
      var c := str[i];
      EscapeCases(c);
      OneMoreEscape(old(buf.Text()), str, i);
      if c == QUOTE { buf.Append([BACKSLASH, QUOTE]); }
      else if c == BACKSLASH { buf.Append([BACKSLASH, BACKSLASH]); }
      else if c == NEWLINE { buf.Append([BACKSLASH, LOWER_N]); }
      else if c == RETURN { buf.Append([BACKSLASH, LOWER_R]); }
      else if c == TAB { buf.Append([BACKSLASH, LOWER_T]); }
      else { buf.Append([c]); }
      i := i + 1;
    }
    assert str[..i] == str;
  }

  lemma EscapeCases(c: Byte)
    ensures SessionEscape(c) ==
            if c == QUOTE then [BACKSLASH, QUOTE]
            else if c == BACKSLASH then [BACKSLASH, BACKSLASH]
            else if c == NEWLINE then [BACKSLASH, LOWER_N]
            else if c == RETURN then [BACKSLASH, LOWER_R]
            else if c == TAB then [BACKSLASH, LOWER_T]
            else [c]
  {
  }

  lemma NoEscapes(before: Text)
    ensures before == before + SessionEscapes([])
  {
  }

  lemma {:induction false} EscapesConcat(a: Text, b: Text)
    ensures SessionEscapes(a + b) == SessionEscapes(a) + SessionEscapes(b)
    decreases |a|
  {
    hide SessionEscape;
    if a == [] {
      assert a + b == b;
    } else {
      assert (a + b)[0] == a[0] && (a + b)[1..] == a[1..] + b;
      EscapesConcat(a[1..], b);
    }
  }

  lemma OneMoreEscape(before: Text, str: Text, i: nat)
    requires i < |str|
    ensures before + SessionEscapes(str[..i]) + SessionEscape(str[i]) == before + SessionEscapes(str[..i + 1])
  {
    hide SessionEscape;
    assert str[..i + 1] == str[..i] + [str[i]];
    EscapesConcat(str[..i], [str[i]]);
    assert [str[i]][1..] == [] && SessionEscapes([str[i]]) == SessionEscape(str[i]) + [];
  }

  /** session_json_encode_value. */
  method WriteValue(f: Floats, v: Json, buf: Buffer)
    requires buf.Valid()
    modifies buf, buf.data
    ensures buf.Valid() && buf.Text() == old(buf.Text()) + SessionValue(f, v)
    ensures buf.data == old(buf.data) || fresh(buf.data)
  {
    hide SessionString, Decimal;
    match v {
      case Null => buf.Append(NULL_TEXT);
      case Bool(b) => if b { buf.Append(TRUE_TEXT); } else { buf.Append(FALSE_TEXT); }
      case Int(n) => buf.Append(Decimal(n));
      case Float(d) => buf.Append(f.show(d));
      case Str(s) => WriteString(s, buf);
      case _ => buf.Append(NULL_TEXT);
    }
  }

  /** The entries already written, each with the comma before it. */
  ghost function WrittenMembers(f: Floats, members: seq<Member>, i: nat): Text
    requires i <= |members|
  {
    SessionMembers(f, members[..i])
  }

  lemma {:induction false} OneMoreMember(f: Floats, members: seq<Member>, i: nat)
    requires i < |members|
    ensures WrittenMembers(f, members, i + 1) ==
            WrittenMembers(f, members, i) + (if i == 0 then [] else [COMMA]) + SessionMember(f, members[i])
  {
    hide SessionMember;
    assert members[..i + 1] == members[..i] + [members[i]];
    MembersConcat(f, members[..i], members[i]);
  }

  lemma {:induction false} MembersConcat(f: Floats, a: seq<Member>, m: Member)
    ensures SessionMembers(f, a + [m]) == SessionMembers(f, a) + (if a == [] then [] else [COMMA]) + SessionMember(f, m)
    decreases |a|
  {
    hide SessionMember;
    if a != [] {
      assert (a + [m])[0] == a[0] && (a + [m])[1..] == a[1..] + [m];
      MembersConcat(f, a[1..], m);
      if |a| == 1 { assert a[1..] == []; }
    }
  }

  /** session_map_to_json. */
  method WriteSession(f: Floats, members: seq<Member>) returns (json: Text)
    ensures json == SessionJson(f, members)
  {
    hide *;
    var buf := new Buffer();
    buf.Append([OPEN_BRACE]);
    var first, i := true, 0;
    NoneWritten(f, members);
    while i < |members|
      invariant 0 <= i <= |members| && first == (i == 0)
      invariant buf.Valid() && fresh(buf) && fresh(buf.data)
      invariant buf.Text() == [OPEN_BRACE] + WrittenMembers(f, members, i)
    {
      ghost var before := WrittenMembers(f, members, i);
      ghost var comma: Text := if i == 0 then [] else [COMMA];
      OneMoreMember(f, members, i);
      if !first { buf.Append([COMMA]); }
      assert buf.Text() == [OPEN_BRACE] + before + comma;
      first := false;
      WriteString(members[i].key, buf);
      buf.Append([COLON]);
      WriteValue(f, members[i].value, buf);
      MemberParts(f, [OPEN_BRACE], before, comma, members[i]);
      i := i + 1;
    }
    buf.Append([CLOSE_BRACE]);
    AllWritten(f, members);
    json := buf.data[..buf.len];
    assert json == buf.Text() by { TextParts(buf); }
  }

  lemma TextParts(buf: Buffer)
    requires buf.Valid()
    ensures buf.len <= buf.data.Length && buf.Text() == buf.data[..buf.len]
  {
  }

  lemma NoneWritten(f: Floats, members: seq<Member>)
    ensures WrittenMembers(f, members, 0) == []
  {
  }

  lemma AllWritten(f: Floats, members: seq<Member>)
    ensures [OPEN_BRACE] + WrittenMembers(f, members, |members|) + [CLOSE_BRACE] == SessionJson(f, members)
  {
    assert members[..|members|] == members;
  }

  lemma MemberParts(f: Floats, start: Text, before: Text, comma: Text, m: Member)
    ensures start + before + comma + SessionString(m.key) + [COLON] + SessionValue(f, m.value) ==
            start + (before + comma + SessionMember(f, m))
  {
    hide SessionString, SessionValue;
    assert SessionMember(f, m) == SessionString(m.key) + [COLON] + SessionValue(f, m.value);
  }

  // ---- Reading ----

  /** json_parse_string, at its opening quote. */
  method ReadStringFrom(p: JsonParser) returns (text: Text)
    requires p.Valid() && p.pos < |p.src|
    modifies p
    ensures p.Valid() && Read(text, p.Rest()) == ReadChars(old(p.Rest())[1..], []) && p.pos > old(p.pos)
  {
    hide ReadChars, SessionUnescape;
    Next(p.src, p.pos);
    p.pos := p.pos + 1;
    text := [];
    ghost var all := ReadChars(p.src[p.pos..], []);
    while p.pos < |p.src| && p.src[p.pos] != QUOTE
      invariant p.Valid() && p.pos > old(p.pos) && ReadChars(p.src[p.pos..], text) == all
    {
      CharsStep(p.src, p.pos, text);
      var c := p.src[p.pos];
      p.pos := p.pos + 1;
      if c == BACKSLASH && p.pos < |p.src| {
        c := SessionUnescape(p.src[p.pos]);
        p.pos := p.pos + 1;
      }
      text := text + [c];
    }
    CharsStep(p.src, p.pos, text);
    if p.pos < |p.src| { p.pos := p.pos + 1; }
  }

  lemma CharsStep(src: Text, pos: nat, done: Text)
    requires pos <= |src|
    ensures ReadChars(src[pos..], done) ==
            if pos == |src| then Read(done, src[pos..])
            else if src[pos] == QUOTE then Read(done, src[pos + 1..])
            else if src[pos] == BACKSLASH && pos + 1 < |src| then ReadChars(src[pos + 2..], done + [SessionUnescape(src[pos + 1])])
            else ReadChars(src[pos + 1..], done + [src[pos]])
  {
    hide SessionUnescape;
    var s := src[pos..];
    if pos < |src| { assert s[1..] == src[pos + 1..]; }
    if pos + 1 < |src| { assert s[2..] == src[pos + 2..]; }
  }

  /** json_parse_number. */
  method ReadNumberFrom(f: Floats, p: JsonParser) returns (v: Json)
    requires p.Valid() && p.pos < |p.src|
    modifies p
    ensures p.Valid() && Read(v, p.Rest()) == ReadNumber(f, old(p.Rest())) && p.pos >= old(p.pos)
  {
    hide Strtoll, Wrap48, JsonText.SkipDigits;
    var start := p.pos;
    ghost var s := p.Rest();
    Next(p.src, p.pos);
    if p.src[p.pos] == MINUS { p.pos := p.pos + 1; }
    p.SkipDigits();
    ghost var whole := p.Rest();
    var digitsEnd := p.pos;
    Next(p.src, p.pos);
    var isFloat := p.pos < |p.src| && p.src[p.pos] == DOT;
    p.SkipFraction();
    if isFloat {
      v := Float(f.read(p.src[start..]));
    } else {
      assert s[..|s| - |whole|] == p.src[start..digitsEnd];
      v := Int(Wrap48(Strtoll(p.src[start..digitsEnd])));
    }
  }

  /** json_parse_value. */
  method ReadValueFrom(f: Floats, p: JsonParser) returns (v: Json)
    requires p.Valid()
    modifies p
    ensures p.Valid() && Read(v, p.Rest()) == ReadValue(f, old(p.Rest())) && p.pos >= old(p.pos)
  {
    hide ReadNumber, ReadChars, JsonText.SkipSpace;
    Skipped(p.Rest());
    p.SkipSpace();
    Next(p.src, p.pos);
    if p.pos >= |p.src| { return Null; }
    var c := p.src[p.pos];
    if c == QUOTE {
      var text := ReadStringFrom(p);
      return Str(text);
    } else if c == MINUS || IsDigit(c) {
      v := ReadNumberFrom(f, p);
      return;
    }
    var found := p.MatchText(TRUE_TEXT);
    if found { return Bool(true); }
    found := p.MatchText(FALSE_TEXT);
    if found { return Bool(false); }
    found := p.MatchText(NULL_TEXT);
    return Null;
  }

  lemma MembersReadStep(f: Floats, text: Text, done: seq<Member>)
    ensures var s := JsonText.SkipSpace(text);
            ReadMembers(f, text, done) ==
            if s == [] || s[0] != QUOTE then done
            else
              var key := ReadChars(s[1..], []);
              var rest := JsonText.SkipSpace(key.rest);
              if rest == [] || rest[0] != COLON then done
              else
                var v := ReadValue(f, rest[1..]);
                var members := SetMember(done, key.value, v.value);
                var rest := JsonText.SkipSpace(v.rest);
                if rest == [] || rest[0] != COMMA then members else ReadMembers(f, rest[1..], members)
  {
    hide ReadValue, ReadChars, JsonText.SkipSpace, SetMember;
  }

  /** The loop of json_parse_object; obj_map_set on the entries so far. */
  method ReadMembersFrom(f: Floats, p: JsonParser) returns (members: seq<Member>)
    requires p.Valid()
    modifies p
    ensures p.Valid() && members == ReadMembers(f, old(p.Rest()), [])
  {
    hide *;
    members := [];
    ghost var all := ReadMembers(f, p.Rest(), []);
    while p.pos < |p.src|
      invariant p.Valid() && ReadMembers(f, p.Rest(), members) == all
      decreases |p.src| - p.pos
    {
      MembersReadStep(f, p.Rest(), members);
      p.SkipSpace();
      RestParts(p);
      if p.pos >= |p.src| || p.src[p.pos] != QUOTE { return; }
      var key := ReadStringFrom(p);
      p.SkipSpace();
      RestParts(p);
      if p.pos >= |p.src| || p.src[p.pos] != COLON { return; }
      p.pos := p.pos + 1;
      Within(p);
      RestParts(p);
      var v := ReadValueFrom(f, p);
      members := SetMember(members, key, v);
      p.SkipSpace();
      RestParts(p);
      if p.pos < |p.src| && p.src[p.pos] == COMMA { p.pos := p.pos + 1; } else { return; }
      Within(p);
      RestParts(p);
    }
    NothingToRead(f, members);
    RestParts(p);
  }

  lemma Within(p: JsonParser)
    ensures p.Valid() == (p.pos <= |p.src|)
  {
  }

  lemma RestParts(p: JsonParser)
    requires p.Valid()
    ensures p.pos <= |p.src| && p.Rest() == p.src[p.pos..] && (p.pos == |p.src|) == (p.Rest() == [])
    ensures p.pos < |p.src| ==> p.Rest()[0] == p.src[p.pos] && p.Rest()[1..] == p.src[p.pos + 1..]
  {
  }

  lemma NothingToRead(f: Floats, done: seq<Member>)
    ensures ReadMembers(f, [], done) == done
  {
  }

  /** json_parse_object. */
  method ReadSession(f: Floats, json: Text) returns (r: Option<seq<Member>>)
    ensures r == ReadObject(f, json)
  {
    hide ReadMembers, JsonText.SkipSpace;
    var p := new JsonParser(json);
    p.SkipSpace();
    RestParts(p);
    if p.pos >= |p.src| || p.src[p.pos] != OPEN_BRACE { return None; }
    p.pos := p.pos + 1;
    p.SkipSpace();
    RestParts(p);
    if p.pos < |p.src| && p.src[p.pos] == CLOSE_BRACE { return Some([]); }
    var members := ReadMembersFrom(f, p);
    r := Some(members);
  }

  // ---- The session ----

  /** The comparison that looks at all 32 bytes whatever they are; its difference bits as one flag. */
  method SameDigest(a: Digest, b: Digest) returns (same: bool)
    ensures same == (a == b)
  {
    var diff, i := false, 0;
    while i < 32
      invariant 0 <= i <= 32 && !diff == (a[..i] == b[..i])
    {
      diff := diff || a[i] != b[i];
      assert a[..i + 1] == a[..i] + [a[i]] && b[..i + 1] == b[..i] + [b[i]];
      i := i + 1;
    }
    assert a[..32] == a && b[..32] == b;
    same := !diff;
  }

  /** session_secret and session_data. */
  class Session {
    var secret: Text
    var data: seq<Member>

    ghost predicate Valid()
      reads this
    {
      DistinctKeys(data)
    }

    constructor ()
      ensures Valid() && secret == [] && data == []
    {
      secret, data := [], [];
    }

    /** session.init. */
    method Init(secret: Text)
      requires Valid()
      modifies this`secret
      ensures Valid() && this.secret == secret
    {
      this.secret := secret;
    }

    /** session.set: afterwards the key, and no other, has the new value. */
    method Set(key: Text, value: Json)
      requires Valid()
      modifies this`data
      ensures Valid() && Member(key, value) in data
      ensures forall m: Member :: m.key != key ==> (m in data <==> m in old(data))
    {
      SetKeepsDistinct(data, key, value);
      data := SetMember(data, key, value);
    }

    /** session.encode. */
    method Encode(f: Floats, mac: (Text, Text) -> Digest) returns (cookie: Option<Text>)
      ensures cookie == MakeCookie(f, mac, secret, data)
    {
      hide Base64.Encode, SessionJson;
      if |secret| == 0 { return None; }
      var json := WriteSession(f, data);
      var text := Base64.EncodeBytes(json);
      var part := text[..text.Length - 1];
      var sig := Base64.EncodeBytes(mac(secret, part));
      cookie := Some(part + [DOT] + sig[..sig.Length - 1]);
    }

    /** session.decode: a cookie that is not accepted leaves the session as it is. */
    method Decode(f: Floats, mac: (Text, Text) -> Digest, cookie: Text) returns (ok: bool)
      modifies this`data
      ensures ok == ReadCookie(f, mac, secret, cookie).Some?
      ensures data == if ok then ReadCookie(f, mac, secret, cookie).value else old(data)
    {
      hide Base64.Decode, ReadObject, FirstDot;
      if |secret| == 0 { return false; }
      var n := FindDot(cookie);
      if n == |cookie| { return false; }
      var expected := mac(secret, cookie[..n]);
      var sig := Base64.DecodeBytes(cookie[n + 1..]);
      if sig == null || sig.Length - 1 != 32 { return false; }
      var same := SameDigest(expected, sig[..32]);
      if !same { return false; }
      var bytes := Base64.DecodeBytes(cookie[..n]);
      if bytes == null { return false; }
      var newData := ReadSession(f, bytes[..bytes.Length - 1]);
      if newData.None? { return false; }
      data := newData.value;
      ok := true;
    }
  }

  method FindDot(cookie: Text) returns (n: nat)
    ensures n == FirstDot(cookie)
  {
    n := 0;
    assert cookie[0..] == cookie;
    while n < |cookie| && cookie[n] != DOT
      invariant n <= |cookie| && FirstDot(cookie) == n + FirstDot(cookie[n..])
    {
      assert cookie[n..][1..] == cookie[n + 1..];
      n := n + 1;
    }
  }

  lemma {:induction false} SetKeepsDistinct(members: seq<Member>, key: Text, value: Json)
    requires DistinctKeys(members)
    ensures DistinctKeys(SetMember(members, key, value)) && Member(key, value) in SetMember(members, key, value)
    ensures forall m: Member :: m.key != key ==> (m in SetMember(members, key, value) <==> m in members)
    decreases |members|
  {
    if members != [] && members[0].key != key {
      var r := SetMember(members[1..], key, value);
      SetKeepsDistinct(members[1..], key, value);
      assert members == [members[0]] + members[1..];
      forall j | 0 <= j < |r| ensures r[j].key != members[0].key {
        if r[j].key != key { assert r[j] in members[1..]; }
      }
    } else if members != [] {
      assert members == [members[0]] + members[1..];
    }
  }

  /** A session that is encoded and decoded by the running code, under one secret, with only flat values. */
  method EncodeThenDecode(f: Floats, mac: (Text, Text) -> Digest, session: Session)
    requires session.Valid() && session.secret != []
    requires forall i :: 0 <= i < |session.data| ==> Storable(session.data[i].value)
    modifies session`data
    ensures session.Valid() && session.data == KeptMembers(old(session.data))
  {
    hide MakeCookie, ReadCookie, Storable;
    CookieRoundTrip(f, mac, session.secret, session.data);
    ghost var before := session.data;
    var cookie := session.Encode(f, mac);
    var ok := session.Decode(f, mac, cookie.value);
    assert forall i :: 0 <= i < |before| ==> session.data[i].key == before[i].key;
  }
}
