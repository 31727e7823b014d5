/** Signed session cookies (src/stdlib_session.c): the JSON of a session, the cookie made of it, and the proof
    that a cookie decodes, under its own secret, to the session it was made from. */
module Sessions {
  import opened Bytes
  import opened Options
  import opened Values
  import opened JsonText
  import Base64

  type Text = seq<Byte>

  // ---- The encoder ----

  /** Only five bytes are escaped. */
  function SessionEscape(c: Byte): Text {
    if c == QUOTE then [BACKSLASH, QUOTE]
    else if c == BACKSLASH then [BACKSLASH, BACKSLASH]
    else if c == NEWLINE then [BACKSLASH, LOWER_N]
    else if c == RETURN then [BACKSLASH, LOWER_R]
    else if c == TAB then [BACKSLASH, LOWER_T]
    else [c]
  }

  function SessionEscapes(s: Text): Text {
    if s == [] then [] else SessionEscape(s[0]) + SessionEscapes(s[1..])
  }

  function SessionString(s: Text): Text {
    [QUOTE] + SessionEscapes(s) + [QUOTE]
  }

  /** Lists, maps and other objects are written as null. */
  function SessionValue(f: Floats, v: Json): Text {
    match v
    case Null => NULL_TEXT
    case Bool(b) => if b then TRUE_TEXT else FALSE_TEXT
    case Int(n) => Decimal(n)
    case Float(d) => f.show(d)
    case Str(s) => SessionString(s)
    case _ => NULL_TEXT
  }

  function SessionMember(f: Floats, m: Member): Text {
    SessionString(m.key) + [COLON] + SessionValue(f, m.value)
  }

  function SessionMembers(f: Floats, members: seq<Member>): Text {
    if members == [] then []
    else if |members| == 1 then SessionMember(f, members[0])
    else SessionMember(f, members[0]) + [COMMA] + SessionMembers(f, members[1..])
  }

  /** session_map_to_json. */
  function SessionJson(f: Floats, members: seq<Member>): Text {
    [OPEN_BRACE] + SessionMembers(f, members) + [CLOSE_BRACE]
  }

  // ---- The parser, which has no failure inside an object ----

  function SessionUnescape(c: Byte): Byte {
    if c == LOWER_N then NEWLINE else if c == LOWER_R then RETURN else if c == LOWER_T then TAB else c
  }

  /** What was read, and what is left. */
  datatype Read<+T> = Read(value: T, rest: Text)

  function ReadChars(s: Text, done: Text): (r: Read<Text>)
    ensures |r.rest| <= |s|
    decreases |s|
  {
    if s == [] then Read(done, [])
    else if s[0] == QUOTE then Read(done, s[1..])
    else if s[0] == BACKSLASH && |s| > 1 then ReadChars(s[2..], done + [SessionUnescape(s[1])])
    else ReadChars(s[1..], done + [s[0]])
  }

  function ReadNumber(f: Floats, s: Text): (r: Read<Json>)
    ensures |r.rest| <= |s|
  {
    var whole := SkipDigits(SkipMinus(s));
    if whole != [] && whole[0] == DOT then Read(Float(f.read(s)), SkipFraction(whole))
    else Read(Int(Wrap48(Strtoll(s[..|s| - |whole|]))), whole)
  }

  function ReadValue(f: Floats, text: Text): (r: Read<Json>)
    ensures |r.rest| <= |text|
  {
    var s := SkipSpace(text);
    if s == [] then Read(Null, s)
    else if s[0] == QUOTE then
      var r := ReadChars(s[1..], []);
      Read(Str(r.value), r.rest)
    else if s[0] == MINUS || IsDigit(s[0]) then ReadNumber(f, s)
    else if TRUE_TEXT <= s then Read(Bool(true), s[4..])
    else if FALSE_TEXT <= s then Read(Bool(false), s[5..])
    else if NULL_TEXT <= s then Read(Null, s[4..])
    else Read(Null, s)
  }

  /** The rest of an object; whatever does not fit ends it. */
  function ReadMembers(f: Floats, text: Text, done: seq<Member>): seq<Member>
    decreases |text|
  {
    var s := SkipSpace(text);
    if s == [] || s[0] != QUOTE then done
    else
      var key := ReadChars(s[1..], []);
      var rest := SkipSpace(key.rest);
      if rest == [] || rest[0] != COLON then done
      else
        var v := ReadValue(f, rest[1..]);
        var members := SetMember(done, key.value, v.value);
        var rest := SkipSpace(v.rest);
        if rest == [] || rest[0] != COMMA then members else ReadMembers(f, rest[1..], members)
  }

  /** json_parse_object. */
  function ReadObject(f: Floats, text: Text): Option<seq<Member>> {
    var s := SkipSpace(text);
    if s == [] || s[0] != OPEN_BRACE then None
    else
      var inner := SkipSpace(s[1..]);
      if inner != [] && inner[0] == CLOSE_BRACE then Some([]) else Some(ReadMembers(f, inner, []))
  }

  // ---- The JSON round trip ----

  lemma ReadEscaped(c: Byte, rest: Text, done: Text)
    ensures ReadChars(SessionEscape(c) + rest, done) == ReadChars(rest, done + [c])
  {
    var s := SessionEscape(c) + rest;
    if c == QUOTE || c == BACKSLASH || c == NEWLINE || c == RETURN || c == TAB {
      assert s[2..] == rest && SessionUnescape(s[1]) == c;
    } else {
      assert s[1..] == rest;
    }
  }

  lemma {:induction false} ReadEscapes(str: Text, rest: Text, done: Text)
    ensures ReadChars(SessionEscapes(str) + ([QUOTE] + rest), done) == Read(done + str, rest)
    decreases |str|
  {
    hide SessionEscape;
    if str == [] {
      var s := SessionEscapes(str) + ([QUOTE] + rest);
      assert s[0] == QUOTE && s[1..] == rest && done + str == done;
    } else {
      var tail := SessionEscapes(str[1..]) + ([QUOTE] + rest);
      assert SessionEscapes(str) + ([QUOTE] + rest) == SessionEscape(str[0]) + tail;
      ReadEscaped(str[0], tail, done);
      ReadEscapes(str[1..], rest, done + [str[0]]);
      assert done + [str[0]] + str[1..] == done + str;
    }
  }

  lemma ReadString(str: Text, rest: Text)
    ensures var s := SessionString(str) + rest;
            s != [] && s[0] == QUOTE && ReadChars(s[1..], []) == Read(str, rest)
  {
    hide SessionEscapes, ReadChars;
    var s := SessionString(str) + rest;
    assert s[0] == QUOTE && s[1..] == SessionEscapes(str) + ([QUOTE] + rest);
    ReadEscapes(str, rest, []);
    assert [] + str == str;
  }

  /** What a value can be after a cookie: everything the encoder writes as null comes back as nil. */
  function Kept(v: Json): Json {
    if v.List? || v.Map? || v.Other? then Null else v
  }

  /** Integers are of 48 bits; floats are left out. */
  predicate Storable(v: Json) {
    !v.Float? && (v.Int? ==> -TWO_47 <= v.n < TWO_47)
  }

  lemma ReadInt(f: Floats, n: int, rest: Text)
    requires -TWO_47 <= n < TWO_47 && !ContinuesNumber(rest)
    ensures ReadNumber(f, Decimal(n) + rest) == Read(Int(n), rest)
  {
    hide Digits, Strtoll, Wrap48, SkipMinus, SkipDigits, SkipFraction, Decimal;
    var s := Decimal(n) + rest;
    DecimalMeaning(n);
    WholeNumber(n, rest);
    assert s[..|s| - |rest|] == Decimal(n);
    Wrap48Unique(n, n);
  }

  lemma ReadLiteral(f: Floats, text: Text, v: Json, rest: Text)
    requires (text == NULL_TEXT && v == Null) || (text == TRUE_TEXT && v == Bool(true)) || (text == FALSE_TEXT && v == Bool(false))
    ensures ReadValue(f, text + rest) == Read(v, rest)
  {
    hide ReadChars, ReadNumber;
    var s := text + rest;
    assert s[0] == text[0] && text <= s && s[|text|..] == rest;
  }

  lemma ReadValueBack(f: Floats, v: Json, rest: Text)
    requires Storable(v) && !ContinuesNumber(rest)
    ensures ReadValue(f, SessionValue(f, v) + rest) == Read(Kept(v), rest)
  {
    hide ReadChars, ReadNumber, Decimal, SessionString, ContinuesNumber;
    match v {
      case Bool(b) => ReadLiteral(f, SessionValue(f, v), v, rest);
      case Int(n) =>
        EncodedStart(f, v);
        assert (Decimal(n) + rest)[0] == Decimal(n)[0];
        ReadInt(f, n, rest);
      case Str(s) => ReadString(s, rest);
      case _ => ReadLiteral(f, NULL_TEXT, Null, rest);
    }
  }

  function KeptMembers(members: seq<Member>): (r: seq<Member>)
    ensures |r| == |members|
    ensures forall i :: 0 <= i < |r| ==> r[i] == Member(members[i].key, Kept(members[i].value))
  {
    seq(|members|, i requires 0 <= i < |members| => Member(members[i].key, Kept(members[i].value)))
  }

  /** One entry, as far as the comma or brace behind it. */
  lemma ReadMember(f: Floats, m: Member, after: Text)
    requires Storable(m.value) && after != [] && (after[0] == COMMA || after[0] == CLOSE_BRACE)
    ensures var s := SessionMember(f, m) + after;
            && s != [] && s[0] == QUOTE && SkipSpace(s) == s
            && var key := ReadChars(s[1..], []);
               && key.value == m.key
               && key.rest != [] && key.rest[0] == COLON && SkipSpace(key.rest) == key.rest
               && ReadValue(f, key.rest[1..]) == Read(Kept(m.value), after)
  {
    hide ReadChars, ReadValue, SessionString, SessionValue, Kept;
    var tail := [COLON] + (SessionValue(f, m.value) + after);
    ReadString(m.key, tail);
    assert SessionMember(f, m) + after == SessionString(m.key) + tail;
    assert tail[1..] == SessionValue(f, m.value) + after;
    ReadValueBack(f, m.value, after);
  }

  lemma {:induction false} ReadMembersBack(f: Floats, members: seq<Member>, done: seq<Member>)
    requires members != [] && DistinctKeys(done + members)
    requires forall i :: 0 <= i < |members| ==> Storable(members[i].value)
    ensures ReadMembers(f, SessionMembers(f, members) + [CLOSE_BRACE], done) == done + KeptMembers(members)
    decreases |members|
  {
    hide ReadValue, ReadChars, SessionMember, Storable, SetMember, Kept;
    var m := members[0];
    assert forall i :: 0 <= i < |done| ==> (done + members)[i] == done[i];
    assert (done + members)[|done|] == m;
    var kept := Member(m.key, Kept(m.value));
    SetNewMember(done, m.key, Kept(m.value));
    if |members| == 1 {
      ReadMember(f, m, [CLOSE_BRACE]);
      assert KeptMembers(members) == [kept];
    } else {
      var more := SessionMembers(f, members[1..]) + [CLOSE_BRACE];
      var after := [COMMA] + more;
      FirstMember(f, members);
      assert after[0] == COMMA && after[1..] == more;
      ReadMember(f, m, after);
      KeepsDistinct(done, kept, members);
      ReadMembersBack(f, members[1..], done + [kept]);
      FirstKept(done, members);
    }
  }

  lemma FirstMember(f: Floats, members: seq<Member>)
    requires |members| > 1
    ensures SessionMembers(f, members) + [CLOSE_BRACE] ==
            SessionMember(f, members[0]) + ([COMMA] + (SessionMembers(f, members[1..]) + [CLOSE_BRACE]))
  {
    hide SessionMember;
  }

  lemma FirstKept(done: seq<Member>, members: seq<Member>)
    requires members != []
    ensures done + [Member(members[0].key, Kept(members[0].value))] + KeptMembers(members[1..]) == done + KeptMembers(members)
  {
    hide Kept;
  }

  lemma KeepsDistinct(done: seq<Member>, kept: Member, members: seq<Member>)
    requires members != [] && kept.key == members[0].key && DistinctKeys(done + members)
    ensures DistinctKeys(done + [kept] + members[1..])
  {
    var a, b := done + members, done + [kept] + members[1..];
    assert forall i :: 0 <= i < |a| ==> a[i].key == b[i].key;
  }

  /** Reading the JSON of a session gives its entries back, in order, with what is not flat as nil. */
  lemma SessionJsonRoundTrip(f: Floats, members: seq<Member>)
    requires DistinctKeys(members) && forall i :: 0 <= i < |members| ==> Storable(members[i].value)
    ensures ReadObject(f, SessionJson(f, members)) == Some(KeptMembers(members))
  {
    hide ReadMembers, Storable, Kept, SessionMember;
    var s := SessionJson(f, members);
    var inner := SessionMembers(f, members) + [CLOSE_BRACE];
    assert s[0] == OPEN_BRACE && s[1..] == inner;
    if members != [] {
      ReadMembersBack(f, members, []);
      MembersStartWithQuote(f, members);
      assert [] + members == members && [] + KeptMembers(members) == KeptMembers(members);
    }
  }

  lemma MembersStartWithQuote(f: Floats, members: seq<Member>)
    requires members != []
    ensures var s := SessionMembers(f, members) + [CLOSE_BRACE];
            s[0] == QUOTE && SkipSpace(s) == s
  {
    hide SessionEscapes, SessionValue;
  }

  // ---- Cookies ----

  /** A message authentication code of 32 bytes. */
  type Digest = d: Text | |d| == 32 witness seq(32, _ => 0)

  /** native_session_encode: base64 of the JSON, a dot, base64 of the code of the former. */
  function MakeCookie(f: Floats, mac: (Text, Text) -> Digest, secret: Text, members: seq<Member>): Option<Text> {
    if secret == [] then None
    else
      var data := Base64.Encode(SessionJson(f, members));
      Some(data + [DOT] + Base64.Encode(mac(secret, data)))
  }

  /** The first dot of a text, or its length. */
  function FirstDot(s: Text): (n: nat)
    ensures n <= |s| && (n < |s| ==> s[n] == DOT)
    ensures forall i :: 0 <= i < n ==> s[i] != DOT
  {
    if s == [] || s[0] == DOT then 0 else 1 + FirstDot(s[1..])
  }

  /** native_session_decode: the entries of the new session, or nothing if the session stays as it is. */
  function ReadCookie(f: Floats, mac: (Text, Text) -> Digest, secret: Text, cookie: Text): Option<seq<Member>> {
    var n := FirstDot(cookie);
    if secret == [] || n == |cookie| then None
    else
      var sig := Base64.Decode(cookie[n + 1..]);
      if sig.None? || sig.value != mac(secret, cookie[..n]) then None
      else
        var data := Base64.Decode(cookie[..n]);
        if data.None? then None else ReadObject(f, data.value)
  }

  /** Base64 text has no dot, so the first dot of a cookie is its separator. */
  lemma NoDots(s: Text)
    ensures DOT !in Base64.Encode(s)
  {
    hide Base64.Encode;
    Base64.NoDots(s);
  }

  lemma DotSplits(data: Text, sig: Text)
    requires DOT !in data
    ensures FirstDot(data + [DOT] + sig) == |data|
  {
    hide FirstDot;
    var s := data + [DOT] + sig;
    assert s[|data|] == DOT;
    assert forall i :: 0 <= i < |data| ==> s[i] == data[i];
  }

  /** A cookie read under any secret: it is accepted exactly when the two codes of its data agree, and then
      the session is the one it was made from. */
  lemma CookieUnderSecret(f: Floats, mac: (Text, Text) -> Digest, secret: Text, other: Text, members: seq<Member>)
    requires secret != [] && other != []
    requires DistinctKeys(members) && forall i :: 0 <= i < |members| ==> Storable(members[i].value)
    ensures var data := Base64.Encode(SessionJson(f, members));
            ReadCookie(f, mac, other, MakeCookie(f, mac, secret, members).value) ==
            if mac(other, data) == mac(secret, data) then Some(KeptMembers(members)) else None
  {
    hide *;
    var json := SessionJson(f, members);
    var data := Base64.Encode(json);
    var sig := Base64.Encode(mac(secret, data));
    var cookie := data + [DOT] + sig;
    assert MakeCookie(f, mac, secret, members) == Some(cookie) by { CookieParts(f, mac, secret, members); }
    NoDots(json);
    DotSplits(data, sig);
    assert cookie[..|data|] == data && cookie[|data| + 1..] == sig;
    Base64.DecodeEncode(json);
    Base64.DecodeEncode(mac(secret, data));
    SessionJsonRoundTrip(f, members);
    CookieSteps(f, mac, other, cookie, |data|);
  }

  lemma CookieParts(f: Floats, mac: (Text, Text) -> Digest, secret: Text, members: seq<Member>)
    requires secret != []
    ensures var data := Base64.Encode(SessionJson(f, members));
            MakeCookie(f, mac, secret, members) == Some(data + [DOT] + Base64.Encode(mac(secret, data)))
  {
    hide SessionJson, Base64.Encode;
  }

  lemma CookieSteps(f: Floats, mac: (Text, Text) -> Digest, secret: Text, cookie: Text, n: nat)
    requires secret != [] && n < |cookie| && FirstDot(cookie) == n
    requires Base64.Decode(cookie[n + 1..]).Some? && Base64.Decode(cookie[..n]).Some?
    ensures ReadCookie(f, mac, secret, cookie) ==
            if Base64.Decode(cookie[n + 1..]).value != mac(secret, cookie[..n]) then None
            else ReadObject(f, Base64.Decode(cookie[..n]).value)
  {
    hide FirstDot, Base64.Decode, ReadObject;
  }

  /** Decoding a cookie under its own secret restores the session, with what is not flat as nil. */
  lemma CookieRoundTrip(f: Floats, mac: (Text, Text) -> Digest, secret: Text, members: seq<Member>)
    requires secret != []
    requires DistinctKeys(members) && forall i :: 0 <= i < |members| ==> Storable(members[i].value)
    ensures MakeCookie(f, mac, secret, members).Some?
    ensures ReadCookie(f, mac, secret, MakeCookie(f, mac, secret, members).value) == Some(KeptMembers(members))
  {
    hide KeptMembers, ReadCookie, SessionJson, Base64.Encode, Storable;
    CookieUnderSecret(f, mac, secret, secret, members);
  }

  /** So a session comes back as it was exactly when it is flat: it holds no list, map or other object. */
  lemma RestoredIffFlat(f: Floats, mac: (Text, Text) -> Digest, secret: Text, members: seq<Member>)
    requires secret != []
    requires DistinctKeys(members) && forall i :: 0 <= i < |members| ==> Storable(members[i].value)
    ensures ReadCookie(f, mac, secret, MakeCookie(f, mac, secret, members).value) == Some(members) <==>
            forall i :: 0 <= i < |members| ==> !members[i].value.List? && !members[i].value.Map? && !members[i].value.Other?
  {
    hide ReadCookie, MakeCookie, Storable;
    CookieRoundTrip(f, mac, secret, members);
    var kept := KeptMembers(members);
    if kept == members {
      forall i | 0 <= i < |members| ensures !members[i].value.List? && !members[i].value.Map? && !members[i].value.Other? {
        assert kept[i].value == Kept(members[i].value);
      }
    } else {
      var i :| 0 <= i < |members| && kept[i] != members[i];
    }
  }

  /** Whatever is accepted was signed: the part before the first dot has the code that the rest decodes to. */
  lemma AcceptedIsSigned(f: Floats, mac: (Text, Text) -> Digest, secret: Text, cookie: Text)
    requires ReadCookie(f, mac, secret, cookie).Some?
    ensures exists data: Text, sig: Text ::
              cookie == data + [DOT] + sig && DOT !in data && Base64.Decode(sig) == Some(mac(secret, data))
  {
    hide Base64.Decode, ReadObject;
    var n := FirstDot(cookie);
    var data, sig := cookie[..n], cookie[n + 1..];
    assert cookie == data + [DOT] + sig;
    assert Base64.Decode(sig) == Some(mac(secret, data));
  }
}
