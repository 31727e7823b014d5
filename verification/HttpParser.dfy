/** http_parse_request (src/http_parser.c) as it runs: a position that moves over the buffer, and a request
    object whose fields and header array are filled in, proved to be the function of module Http. */
module HttpParser {
  import opened Bytes
  import opened Http
  import opened Options

  datatype Code = HTTP_PARSE_OK | HTTP_PARSE_INCOMPLETE | HTTP_PARSE_ERROR

  class HttpRequest {
    var method_: Method
    var methodText: seq<Byte>
    var path: seq<Byte>
    var query: Option<seq<Byte>>
    var major: int
    var minor: int
    const headers: array<Header>
    var headerCount: nat
    var contentLength: nat
    var keepAlive: bool
    var body: seq<Byte>
    var consumed: nat

    ghost predicate Valid()
      reads this
    {
      headers.Length == HTTP_MAX_HEADERS && headerCount <= HTTP_MAX_HEADERS
    }

    ghost function Headers(): seq<Header>
      reads this, headers
      requires Valid()
    {
      headers[..headerCount]
    }

    ghost function View(): Request
      reads this, headers
      requires Valid()
    {
      Request(method_, methodText, path, query, major, minor, Headers(), contentLength, keepAlive, body, consumed)
    }

    constructor ()
      ensures Valid() && fresh(headers)
    {
      headers := new Header[HTTP_MAX_HEADERS](_ => Header([], []));
      method_, methodText, path, query, major, minor := Unknown, [], [], None, 0, 0;
      headerCount, contentLength, keepAlive, body, consumed := 0, 0, false, [], 0;
    }

    /** http_parse_request. */
    method Parse(buf: seq<Byte>) returns (code: Code)
      requires Valid()
      modifies this, headers
      ensures Valid()
      ensures match ParseRequest(buf)
              case Ok(request) => code == HTTP_PARSE_OK && View() == request
              case Incomplete => code == HTTP_PARSE_INCOMPLETE
              case Error => code == HTTP_PARSE_ERROR
    {
      hide HeaderEnd, FindCrlf, ParseLine, ParseHeaders, ReadHeaders, HasConnection;
      headerCount, contentLength, keepAlive, query, body := 0, 0, false, None, [];
      var headEnd := SearchHeaderEnd(buf);
      if headEnd.None? { return HTTP_PARSE_INCOMPLETE; }
      var lineEnd := SearchCrlf(buf, 0);
      if lineEnd.None? { return HTTP_PARSE_ERROR; }
      var ok := RequestLine(buf, lineEnd.value);
      if !ok { return HTTP_PARSE_ERROR; }
      ok := HeaderLines(buf, lineEnd.value + 2, headEnd.value);
      if !ok { return HTTP_PARSE_ERROR; }
      var pos := headEnd.value + 4;
      ok := ReadFraming();
      if !ok { return HTTP_PARSE_ERROR; }
      code := TakeBody(buf, pos);
    }

    /** The body, when all of it is there. */
    method TakeBody(buf: seq<Byte>, start: nat) returns (code: Code)
      requires Valid() && start <= |buf| && body == []
      modifies this`body, this`consumed
      ensures Valid()
      ensures if |buf| - start < contentLength then code == HTTP_PARSE_INCOMPLETE
              else code == HTTP_PARSE_OK && consumed == start + contentLength && body == buf[start..start + contentLength]
    {
      var pos := start;
      if contentLength > 0 {
        if |buf| - pos < contentLength { return HTTP_PARSE_INCOMPLETE; }
        body := buf[pos..pos + contentLength];
        pos := pos + contentLength;
      }
      consumed := pos;
      code := HTTP_PARSE_OK;
    }

    /** The request line up to `end`. */
    method RequestLine(buf: seq<Byte>, end: nat) returns (ok: bool)
      requires Valid() && end <= |buf|
      modifies this`method_, this`methodText, this`path, this`query, this`major, this`minor
      ensures ok == ParseLine(buf, end).Some?
      ensures ok ==> ParseLine(buf, end).value == Line(method_, methodText, path, query, major, minor)
    {
      hide FindByte, ParseMethod;
      var sp1 := SearchByte(buf, 0, end, SPACE);
      if sp1.None? { return false; }
      methodText := buf[..sp1.value];
      method_ := ParseMethod(methodText);
      var pos := sp1.value + 1;
      var sp2 := SearchByte(buf, pos, end, SPACE);
      if sp2.None? { return false; }
      var mark := SearchByte(buf, pos, sp2.value, QUESTION);
      if mark.Some? {
        path := buf[pos..mark.value];
        query := Some(buf[mark.value + 1..sp2.value]);
      } else {
        path := buf[pos..sp2.value];
        query := None;
      }
      pos := sp2.value + 1;
      if end < pos + 8 { return false; }
      if buf[pos..pos + 5] != HTTP_SLASH { return false; }
      major := buf[pos + 5] - ZERO;
      minor := buf[pos + 7] - ZERO;
      ok := true;
    }

    /** The loop over the header lines. */
    method HeaderLines(buf: seq<Byte>, start: nat, headEnd: nat) returns (ok: bool)
      requires Valid() && headerCount == 0 && headEnd <= |buf|
      modifies this`headerCount, headers
      ensures Valid() && ok == ParseHeaders(buf, start, headEnd, []).Some?
      ensures ok ==> ParseHeaders(buf, start, headEnd, []).value == Headers()
    {
      hide FindCrlf, ParseHeader;
      var pos := start;
      while pos < headEnd
        invariant Valid() && pos >= start
        invariant ParseHeaders(buf, start, headEnd, []) == ParseHeaders(buf, pos, headEnd, Headers())
        decreases |buf| - pos
      {
        var end := SearchCrlf(buf, pos);
        if end.None? { return false; }
        if end.value == pos { return true; }
        var h := HeaderLine(buf, pos, end.value);
        if h.None? || headerCount >= HTTP_MAX_HEADERS { return false; }
        ghost var before := Headers();
        headers[headerCount] := h.value;
        headerCount := headerCount + 1;
        assert Headers() == before + [h.value];
        pos := end.value + 2;
      }
      ok := true;
    }

    /** The two loops over the headers that find the length of the body and whether the connection stays open. */
    method ReadFraming() returns (ok: bool)
      requires Valid() && contentLength == 0 && !keepAlive
      modifies this`contentLength, this`keepAlive
      ensures ok == !ReadHeaders(Headers()).tooLarge
      ensures ok ==> contentLength == ReadHeaders(Headers()).length
      ensures ok ==> keepAlive == if HasConnection(Headers()) then ReadHeaders(Headers()).keepAlive
                                  else major == 1 && minor == 1
    {
      hide SameName, LengthValue, HasConnection;
      var i := 0;
      ghost var all := Headers();
      NoHeaders(all);
      while i < headerCount
        invariant 0 <= i <= headerCount
        invariant ReadHeaders(all[..i]) == Framing(contentLength, false, keepAlive)
      {
        var h := headers[i];
        OneMoreHeader(all, i);
        var isLength := EqualNames(h.name, CONTENT_LENGTH);
        if isLength {
          contentLength := ReadLength(h.value);
          if contentLength > MAX_BODY_SIZE {
            StaysTooLarge(all, i + 1);
            return false;
          }
        }
        var isConnection := EqualNames(h.name, CONNECTION);
        if isConnection {
          var closes := EqualNames(h.value, CLOSE);
          if closes {
            keepAlive := false;
          } else {
            var keeps := EqualNames(h.value, KEEP_ALIVE);
            if keeps { keepAlive := true; }
          }
        }
        i := i + 1;
      }
      assert all[..i] == all;
      var found := SearchConnection();
      if !found { keepAlive := major == 1 && minor == 1; }
      ok := true;
    }

    method SearchConnection() returns (found: bool)
      requires Valid()
      ensures found == HasConnection(Headers())
    {
      hide SameName;
      found := false;
      var i := 0;
      while i < headerCount && !found
        invariant 0 <= i <= headerCount
        invariant found ==> HasConnection(Headers())
        invariant !found ==> forall j :: 0 <= j < i ==> !SameName(Headers()[j].name, CONNECTION)
      {
        found := EqualNames(headers[i].name, CONNECTION);
        assert Headers()[i] == headers[i];
        i := i + 1;
      }
    }
  }

  lemma NoHeaders(headers: seq<Header>)
    ensures ReadHeaders(headers[..0]) == Framing(0, false, false)
  {
  }

  lemma OneMoreHeader(headers: seq<Header>, i: nat)
    requires i < |headers|
    ensures ReadHeaders(headers[..i + 1]) == ReadHeader(ReadHeaders(headers[..i]), headers[i])
  {
    assert headers[..i + 1][..i] == headers[..i];
  }

  /** A length that was too large once makes the request an error. */
  lemma {:induction false} StaysTooLarge(headers: seq<Header>, i: nat)
    requires i <= |headers| && ReadHeaders(headers[..i]).tooLarge
    ensures ReadHeaders(headers).tooLarge
    decreases |headers| - i
  {
    hide SameName, LengthValue;
    if i == |headers| {
      assert headers[..i] == headers;
    } else {
      OneMoreHeader(headers, i);
      StaysTooLarge(headers, i + 1);
    }
  }

  // ---- The searches ----

  method SearchHeaderEnd(buf: seq<Byte>) returns (r: Option<nat>)
    ensures r == HeaderEnd(buf, 0)
  {
    var i := 0;
    while i + 3 < |buf|
      invariant HeaderEnd(buf, 0) == HeaderEnd(buf, i)
      decreases |buf| - i
    {
      if buf[i] == CR && buf[i + 1] == LF && buf[i + 2] == CR && buf[i + 3] == LF { return Some(i); }
      i := i + 1;
    }
    r := None;
  }

  method SearchCrlf(buf: seq<Byte>, pos: nat) returns (r: Option<nat>)
    ensures r == FindCrlf(buf, pos)
  {
    var i := pos;
    while i + 1 < |buf|
      invariant pos <= i && FindCrlf(buf, pos) == FindCrlf(buf, i)
      decreases |buf| - i
    {
      if buf[i] == CR && buf[i + 1] == LF { return Some(i); }
      i := i + 1;
    }
    r := None;
  }

  method SearchByte(buf: seq<Byte>, from: nat, limit: nat, c: Byte) returns (r: Option<nat>)
    requires limit <= |buf|
    ensures r == FindByte(buf, from, limit, c)
  {
    var i := from;
    while i < limit
      invariant from <= i && FindByte(buf, from, limit, c) == FindByte(buf, i, limit, c)
    {
      if buf[i] == c { return Some(i); }
      i := i + 1;
    }
    r := None;
  }

  method HeaderLine(buf: seq<Byte>, pos: nat, end: nat) returns (h: Option<Header>)
    requires end <= |buf|
    ensures h == ParseHeader(buf, pos, end)
  {
    hide FindByte, SkipSpaces;
    var colon := SearchByte(buf, pos, end, COLON);
    if colon.None? { return None; }
    var value := SkipBlanks(buf, colon.value + 1, end);
    h := Some(Header(buf[pos..colon.value], buf[value..end]));
  }

  method SkipBlanks(buf: seq<Byte>, from: nat, limit: nat) returns (i: nat)
    requires from <= limit <= |buf|
    ensures i == SkipSpaces(buf, from, limit)
  {
    i := from;
    while i < limit && buf[i] == SPACE
      invariant from <= i <= limit && SkipSpaces(buf, from, limit) == SkipSpaces(buf, i, limit)
    {
      i := i + 1;
    }
  }

  method EqualNames(a: seq<Byte>, b: seq<Byte>) returns (equal: bool)
    ensures equal == SameName(a, b)
  {
    if |a| != |b| { return false; }
    var i := 0;
    while i < |a|
      invariant 0 <= i <= |a| && forall j :: 0 <= j < i ==> Lower(a[j]) == Lower(b[j])
    {
      if Lower(a[i]) != Lower(b[i]) { return false; }
      i := i + 1;
    }
    equal := true;
  }

  method ReadLength(s: seq<Byte>) returns (n: nat)
    ensures n == LengthValue(s)
  {
    n := 0;
    var i := 0;
    while i < |s|
      invariant 0 <= i <= |s| && n == LengthValue(s[..i])
    {
      assert s[..i + 1][..i] == s[..i];
      if s[i] >= 48 && s[i] <= 57 {
        n := (n * 10 + (s[i] - 48)) % TWO_64;
      }
      i := i + 1;
    }
    assert s[..i] == s;
  }
}
