/** The text of a session cookie (src/stdlib_session.c): the session part is an object of JSON, read by the grammar of
    module JsonGrammar as the entries of the session, and the dot is a dot. */
module SessionTexts {
  import opened Bytes
  import opened Values
  import opened JsonText
  import opened Sessions
  import JsonGrammar
  import JsonMeaning
  import Base64

  /** Every escape of a session string is the JSON escape of its byte. */
  lemma EscapeParsed(c: Byte, rest: Text, done: Text)
    ensures ParseChars(SessionEscape(c) + rest, done) == ParseChars(rest, done + [c])
  {
    var s := SessionEscape(c) + rest;
    if c == QUOTE || c == BACKSLASH || c == NEWLINE || c == RETURN || c == TAB {
      assert s[2..] == rest && Unescape(s[1]) == c;
    } else {
      assert s[1..] == rest;
    }
  }

  lemma {:induction false} EscapesParsed(str: Text, rest: Text, done: Text)
    ensures ParseChars(SessionEscapes(str) + ([QUOTE] + rest), done) == Ok(done + str, rest)
    decreases |str|
  {
    hide SessionEscape, ParseChars;
    if str == [] {
      assert SessionEscapes(str) + ([QUOTE] + rest) == [QUOTE] + rest && done + str == done;
      QuoteEnds(rest, done);
    } else {
      var tail := SessionEscapes(str[1..]) + ([QUOTE] + rest);
      assert SessionEscapes(str) + ([QUOTE] + rest) == SessionEscape(str[0]) + tail;
      EscapeParsed(str[0], tail, done);
      EscapesParsed(str[1..], rest, done + [str[0]]);
      assert done + [str[0]] + str[1..] == done + str;
    }
  }

  lemma QuoteEnds(rest: Text, done: Text)
    ensures ParseChars([QUOTE] + rest, done) == Ok(done, rest)
  {
    assert ([QUOTE] + rest)[1..] == rest;
  }

  lemma StringParsed(str: Text, rest: Text)
    ensures ParseString(SessionString(str) + rest) == Ok(str, rest)
  {
    hide SessionEscapes, ParseChars;
    var s := SessionString(str) + rest;
    assert s[0] == QUOTE && s[1..] == SessionEscapes(str) + ([QUOTE] + rest);
    EscapesParsed(str, rest, []);
    assert [] + str == str;
  }

  lemma TextParsed(f: Floats, str: Text, rest: Text)
    ensures ParseValue(f, SessionString(str) + rest) == Ok(Json.Str(str), rest)
  {
    hide ParseItems, ParseMembers, ParseString, ParseNumber, SessionEscapes;
    StringParsed(str, rest);
    assert (SessionString(str) + rest)[0] == QUOTE;
  }

  lemma ValueParsed(f: Floats, v: Json, rest: Text)
    requires Storable(v) && !ContinuesNumber(rest)
    ensures ParseValue(f, SessionValue(f, v) + rest) == Ok(Kept(v), rest)
  {
    hide ParseValue, Decimal, SessionString, ContinuesNumber;
    match v {
      case Int(n) => IntRoundTrip(f, n, rest);
      case Str(s) => TextParsed(f, s, rest);
      case Bool(_) => LiteralRoundTrip(f, v, rest);
      case _ => LiteralRoundTrip(f, Json.Null, rest);
    }
  }

  lemma MemberParsed(f: Floats, m: Member, after: Text)
    requires Storable(m.value) && !ContinuesNumber(after)
    ensures var r := ParseString(SessionMember(f, m) + after);
            && r == Ok(m.key, [COLON] + (SessionValue(f, m.value) + after))
            && ParseValue(f, r.rest[1..]) == Ok(Kept(m.value), after)
  {
    hide ParseString, ParseValue, SessionString, SessionValue, Storable, ContinuesNumber, Kept;
    var tail := [COLON] + (SessionValue(f, m.value) + after);
    StringParsed(m.key, tail);
    assert SessionMember(f, m) + after == SessionString(m.key) + tail;
    assert tail[1..] == SessionValue(f, m.value) + after;
    ValueParsed(f, m.value, after);
  }

  lemma {:induction false} MembersParsed(f: Floats, members: seq<Member>, done: seq<Member>)
    requires members != [] && DistinctKeys(done + members)
    requires forall i :: 0 <= i < |members| ==> Storable(members[i].value)
    ensures ParseMembers(f, SessionMembers(f, members) + [CLOSE_BRACE], done) == Ok(Json.Map(done + KeptMembers(members)), [])
    decreases |members|
  {
    hide ParseValue, ParseString, SessionMember, Storable, SetMember, Kept;
    var m := members[0];
    assert forall i :: 0 <= i < |done| ==> (done + members)[i] == done[i];
    assert (done + members)[|done|] == m;
    var kept := Member(m.key, Kept(m.value));
    SetNewMember(done, m.key, Kept(m.value));
    if |members| == 1 {
      MemberParsed(f, m, [CLOSE_BRACE]);
      assert KeptMembers(members) == [kept];
    } else {
      var more := SessionMembers(f, members[1..]) + [CLOSE_BRACE];
      var after := [COMMA] + more;
      FirstMember(f, members);
      assert after[0] == COMMA && after[1..] == more;
      MemberParsed(f, m, after);
      KeepsDistinct(done, kept, members);
      MembersParsed(f, members[1..], done + [kept]);
      FirstKept(done, members);
    }
  }

  /** The session part of a cookie is read by json.decode as the map of its entries. */
  lemma SessionParsed(f: Floats, members: seq<Member>)
    requires DistinctKeys(members) && forall i :: 0 <= i < |members| ==> Storable(members[i].value)
    ensures ParseValue(f, SessionJson(f, members)) == Ok(Json.Map(KeptMembers(members)), [])
  {
    hide ParseMembers, ParseItems, ParseString, ParseNumber, Storable, Kept, SessionMembers;
    var s := SessionJson(f, members);
    var inner := SessionMembers(f, members) + [CLOSE_BRACE];
    assert s[0] == OPEN_BRACE && s[1..] == inner;
    if members == [] {
      NoMembers(f);
      assert inner[0] == CLOSE_BRACE && inner[1..] == [];
      assert KeptMembers(members) == [];
    } else {
      MembersParsed(f, members, []);
      MembersStartWithQuote(f, members);
      assert [] + members == members && [] + KeptMembers(members) == KeptMembers(members);
    }
  }

  lemma NoMembers(f: Floats)
    ensures SessionMembers(f, []) == []
  {
  }

  /** So it is the text of a JSON tree that means these entries; only control characters in strings, which are written as
      they are, keep it from being a JSON text. */
  lemma SessionMeans(f: Floats, members: seq<Member>) returns (t: JsonGrammar.Value)
    requires DistinctKeys(members) && forall i :: 0 <= i < |members| ==> Storable(members[i].value)
    ensures JsonGrammar.LooseValue(t) && JsonGrammar.ValueText(t) == SessionJson(f, members)
    ensures JsonMeaning.Means(f, t, Json.Map(KeptMembers(members)))
  {
    hide *;
    var s := SessionJson(f, members);
    SessionParsed(f, members);
    JsonGrammar.SameValue(f, s);
    SameMeans(ParseValue(f, s), JsonGrammar.ReadValue(s));
    JsonGrammar.ValueWritten(s);
    JsonMeaning.ValueParsed(f, s);
    var r := JsonGrammar.ReadValue(s);
    t := r.value.value;
    NoBlankInFront(f, members, r.value, r.rest);
  }

  lemma SameMeans<T, U>(a: Parsed<T>, b: Parsed<U>)
    requires JsonGrammar.SameRest(a, b) && a.Ok?
    ensures b.Ok? && b.rest == a.rest
  {
  }

  lemma BlankFirst(s: Text, before: Text, text: Text)
    requires s == before + (text + []) && JsonGrammar.Blanks(before)
    ensures s != [] && !IsSpace(s[0]) ==> before == []
  {
    assert before != [] ==> s[0] == before[0];
  }

  lemma NoBlankInFront(f: Floats, members: seq<Member>, r: JsonGrammar.Spaced<JsonGrammar.Value>, rest: Text)
    requires JsonGrammar.WrittenAs(SessionJson(f, members), r, rest) && rest == []
    ensures SessionJson(f, members) == JsonGrammar.ValueText(r.value) && JsonGrammar.LooseValue(r.value)
  {
    hide SessionMembers, JsonGrammar.ValueText, JsonGrammar.LooseValue;
    var s := SessionJson(f, members);
    assert s[0] == OPEN_BRACE;
    BlankFirst(s, r.before, JsonGrammar.ValueText(r.value));
    assert JsonGrammar.ValueText(r.value) + [] == JsonGrammar.ValueText(r.value);
  }

  /** A cookie is base64, a dot and base64 of 32 bytes. */
  lemma CookieText(f: Floats, mac: (Text, Text) -> Digest, secret: Text, members: seq<Member>)
    requires secret != []
    ensures var data := Base64.Encode(SessionJson(f, members));
            MakeCookie(f, mac, secret, members).Some? &&
            MakeCookie(f, mac, secret, members).value == data + ['.' as int] + Base64.Encode(mac(secret, data))
  {
    hide SessionJson, Base64.Encode;
  }
}
