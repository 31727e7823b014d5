/** HTTP/1.1 request parsing (src/http_parser.c) as a function of the bytes received so far, and the proof
    that requests delimit themselves: once a buffer gives a request or an error, more bytes change nothing,
    and no shorter buffer gives the request. */
module Http {
  import opened Bytes
  import opened Options

  const MAX_BODY_SIZE := 1048576
  const HTTP_MAX_HEADERS := 64
  const TWO_64 := 0x1_0000_0000_0000_0000

  const CR: Byte := 13
  const LF: Byte := 10
  const SPACE: Byte := 32
  const ZERO: Byte := 48
  const COLON: Byte := 58
  const QUESTION: Byte := 63

  const HTTP_SLASH: seq<Byte> := [72, 84, 84, 80, 47]
  const CONTENT_LENGTH: seq<Byte> := [99, 111, 110, 116, 101, 110, 116, 45, 108, 101, 110, 103, 116, 104]
  const CONNECTION: seq<Byte> := [99, 111, 110, 110, 101, 99, 116, 105, 111, 110]
  const CLOSE: seq<Byte> := [99, 108, 111, 115, 101]
  const KEEP_ALIVE: seq<Byte> := [107, 101, 101, 112, 45, 97, 108, 105, 118, 101]

  datatype Method = Get | Post | Put | Patch | Delete | Head | Options | Unknown

  datatype Header = Header(name: seq<Byte>, value: seq<Byte>)

  /** A parsed request; names and values are the bytes that the source points at. */
  datatype Request = Request(method_: Method, methodText: seq<Byte>, path: seq<Byte>, query: Option<seq<Byte>>,
                             major: int, minor: int, headers: seq<Header>, contentLength: nat, keepAlive: bool,
                             body: seq<Byte>, consumed: nat)

  datatype Result = Ok(request: Request) | Incomplete | Error

  // ---- Searching ----

  /** The first CRLFCRLF from `i` on. */
  function HeaderEnd(buf: seq<Byte>, i: nat): (r: Option<nat>)
    ensures r.Some? ==> i <= r.value && r.value + 4 <= |buf| && EndsHead(buf, r.value)
    ensures r.Some? ==> forall j :: i <= j < r.value ==> !EndsHead(buf, j)
    ensures r.None? ==> forall j :: i <= j && j + 4 <= |buf| ==> !EndsHead(buf, j)
    decreases |buf| - i
  {
    if i + 4 > |buf| then None else if EndsHead(buf, i) then Some(i) else HeaderEnd(buf, i + 1)
  }

  predicate EndsHead(buf: seq<Byte>, i: nat)
    requires i + 4 <= |buf|
  {
    buf[i] == CR && buf[i + 1] == LF && buf[i + 2] == CR && buf[i + 3] == LF
  }

  /** find_crlf: the first CRLF from `pos` on, anywhere in the buffer. */
  function FindCrlf(buf: seq<Byte>, pos: nat): (r: Option<nat>)
    ensures r.Some? ==> pos <= r.value && r.value + 2 <= |buf| && buf[r.value] == CR && buf[r.value + 1] == LF
    ensures r.Some? ==> forall j :: pos <= j < r.value ==> !(buf[j] == CR && buf[j + 1] == LF)
    ensures r.None? ==> forall j :: pos <= j && j + 1 < |buf| ==> !(buf[j] == CR && buf[j + 1] == LF)
    decreases |buf| - pos
  {
    if pos + 2 > |buf| then None
    else if buf[pos] == CR && buf[pos + 1] == LF then Some(pos)
    else FindCrlf(buf, pos + 1)
  }

  /** memchr: the first `c` in `from..limit`. */
  function FindByte(buf: seq<Byte>, from: nat, limit: nat, c: Byte): (r: Option<nat>)
    requires limit <= |buf|
    ensures r.Some? ==> from <= r.value < limit && buf[r.value] == c
    decreases if from < limit then limit - from else 0
  {
    if from >= limit then None else if buf[from] == c then Some(from) else FindByte(buf, from + 1, limit, c)
  }

  // ---- The request line ----

  function ParseMethod(s: seq<Byte>): Method {
    if s == [71, 69, 84] then Get
    else if s == [80, 85, 84] then Put
    else if s == [80, 79, 83, 84] then Post
    else if s == [72, 69, 65, 68] then Head
    else if s == [80, 65, 84, 67, 72] then Patch
    else if s == [68, 69, 76, 69, 84, 69] then Delete
    else if s == [79, 80, 84, 73, 79, 78, 83] then Options
    else Unknown
  }

  datatype Line = Line(method_: Method, methodText: seq<Byte>, path: seq<Byte>, query: Option<seq<Byte>>, major: int,
                       minor: int)

  /** METHOD SP PATH [? QUERY] SP HTTP/x.y, up to the end of the line. */
  function ParseLine(buf: seq<Byte>, end: nat): Option<Line>
    requires end <= |buf|
  {
    match FindByte(buf, 0, end, SPACE)
    case None => None
    case Some(sp1) =>
      match FindByte(buf, sp1 + 1, end, SPACE)
      case None => None
      case Some(sp2) =>
        var version := ParseVersion(buf, sp2 + 1, end);
        if version.None? then None
        else
          var target := ParseTarget(buf, sp1 + 1, sp2);
          Some(Line(ParseMethod(buf[..sp1]), buf[..sp1], target.0, target.1, version.value.0, version.value.1))
  }

  /** The path and, after a question mark, the query. */
  function ParseTarget(buf: seq<Byte>, from: nat, end: nat): (seq<Byte>, Option<seq<Byte>>)
    requires from <= end <= |buf|
  {
    match FindByte(buf, from, end, QUESTION)
    case None => (buf[from..end], None)
    case Some(mark) => (buf[from..mark], Some(buf[mark + 1..end]))
  }

  /** HTTP/x.y; the digits are not checked. */
  function ParseVersion(buf: seq<Byte>, from: nat, end: nat): Option<(int, int)>
    requires end <= |buf|
  {
    if end < from + 8 || buf[from..from + 5] != HTTP_SLASH then None
    else Some((buf[from + 5] - ZERO, buf[from + 7] - ZERO))
  }

  // ---- Headers ----

  function SkipSpaces(buf: seq<Byte>, i: nat, limit: nat): (r: nat)
    requires i <= limit <= |buf|
    ensures i <= r <= limit
    decreases limit - i
  {
    if i < limit && buf[i] == SPACE then SkipSpaces(buf, i + 1, limit) else i
  }

  /** NAME : VALUE, with spaces before the value. */
  function ParseHeader(buf: seq<Byte>, pos: nat, end: nat): Option<Header>
    requires end <= |buf|
  {
    match FindByte(buf, pos, end, COLON)
    case None => None
    case Some(colon) => Some(Header(buf[pos..colon], buf[SkipSpaces(buf, colon + 1, end)..end]))
  }

  /** The headers from `pos` up to the end of the head, after those in `done`. */
  function ParseHeaders(buf: seq<Byte>, pos: nat, headEnd: nat, done: seq<Header>): (r: Option<seq<Header>>)
    requires headEnd <= |buf|
    decreases |buf| - pos
  {
    if pos >= headEnd then Some(done)
    else
      match FindCrlf(buf, pos)
      case None => None
      case Some(end) =>
        if end == pos then Some(done)
        else
          match ParseHeader(buf, pos, end)
          case None => None
          case Some(h) =>
            if |done| >= HTTP_MAX_HEADERS then None else ParseHeaders(buf, end + 2, headEnd, done + [h])
  }

  function Lower(c: Byte): Byte {
    if 65 <= c <= 90 then c + 32 else c
  }

  /** strncasecmp_eq. */
  predicate SameName(a: seq<Byte>, b: seq<Byte>) {
    |a| == |b| && forall i :: 0 <= i < |a| ==> Lower(a[i]) == Lower(b[i])
  }

  /** The digits of a Content-Length value, modulo 2^64; other bytes are skipped. */
  function LengthValue(s: seq<Byte>): (n: nat)
    ensures n < TWO_64
  {
    if s == [] then 0
    else
      var n, c := LengthValue(s[..|s| - 1]), s[|s| - 1];
      if 48 <= c <= 57 then (n * 10 + (c - 48)) % TWO_64 else n
  }

  /** What the header loop has found: the last Content-Length, whether one was too large, and keep-alive. */
  datatype Framing = Framing(length: nat, tooLarge: bool, keepAlive: bool)

  function ReadHeader(f: Framing, h: Header): Framing {
    var f :=
      if SameName(h.name, CONTENT_LENGTH) then
        f.(length := LengthValue(h.value), tooLarge := f.tooLarge || LengthValue(h.value) > MAX_BODY_SIZE)
      else f;
    if SameName(h.name, CONNECTION) then
      if SameName(h.value, CLOSE) then f.(keepAlive := false)
      else if SameName(h.value, KEEP_ALIVE) then f.(keepAlive := true)
      else f
    else f
  }

  function ReadHeaders(headers: seq<Header>): Framing {
    if headers == [] then Framing(0, false, false)
    else ReadHeader(ReadHeaders(headers[..|headers| - 1]), headers[|headers| - 1])
  }

  predicate HasConnection(headers: seq<Header>) {
    exists i :: 0 <= i < |headers| && SameName(headers[i].name, CONNECTION)
  }

  // ---- The request ----

  function ParseRequest(buf: seq<Byte>): Result {
    match HeaderEnd(buf, 0)
    case None => Incomplete
    case Some(headEnd) =>
      match ParseHead(buf, headEnd)
      case None => Error
      case Some((line, headers)) =>
        var f := ReadHeaders(headers);
        var bodyStart := headEnd + 4;
        if f.tooLarge then Error
        else if |buf| - bodyStart < f.length then Incomplete
        else
          Ok(Request(line.method_, line.methodText, line.path, line.query, line.major, line.minor, headers, f.length,
                     if HasConnection(headers) then f.keepAlive else line.major == 1 && line.minor == 1,
                     buf[bodyStart..bodyStart + f.length], bodyStart + f.length))
  }

  /** The request line and the headers. */
  function ParseHead(buf: seq<Byte>, headEnd: nat): Option<(Line, seq<Header>)>
    requires headEnd <= |buf|
  {
    match FindCrlf(buf, 0)
    case None => None
    case Some(lineEnd) =>
      match ParseLine(buf, lineEnd)
      case None => None
      case Some(line) =>
        match ParseHeaders(buf, lineEnd + 2, headEnd, [])
        case None => None
        case Some(headers) => Some((line, headers))
  }

  // ---- Two buffers that agree on the head ----

  /** `a` and `b` are the same up to the end of the head. */
  ghost predicate SameHead(a: seq<Byte>, b: seq<Byte>, headEnd: nat) {
    && headEnd + 4 <= |a| && headEnd + 4 <= |b| && a[..headEnd + 4] == b[..headEnd + 4]
    && EndsHead(a, headEnd)
  }

  lemma SameByte(a: seq<Byte>, b: seq<Byte>, headEnd: nat, i: nat)
    requires SameHead(a, b, headEnd) && i < headEnd + 4
    ensures a[i] == b[i]
  {
    assert a[..headEnd + 4][i] == b[..headEnd + 4][i];
  }

  lemma SameSlice(a: seq<Byte>, b: seq<Byte>, headEnd: nat, i: nat, j: nat)
    requires SameHead(a, b, headEnd) && i <= j <= headEnd + 4
    ensures a[i..j] == b[i..j]
  {
    assert a[i..j] == a[..headEnd + 4][i..j];
    assert b[i..j] == b[..headEnd + 4][i..j];
  }

  /** A line that starts in the head ends in it, at the same place in both. */
  lemma {:induction false} SameCrlf(a: seq<Byte>, b: seq<Byte>, headEnd: nat, pos: nat)
    requires SameHead(a, b, headEnd) && pos <= headEnd
    ensures FindCrlf(a, pos) == FindCrlf(b, pos)
    ensures FindCrlf(a, pos).Some? && FindCrlf(a, pos).value <= headEnd
    decreases headEnd - pos
  {
    SameByte(a, b, headEnd, pos);
    SameByte(a, b, headEnd, pos + 1);
    if pos < headEnd { SameCrlf(a, b, headEnd, pos + 1); }
  }

  lemma {:induction false} SameFind(a: seq<Byte>, b: seq<Byte>, headEnd: nat, from: nat, limit: nat, c: Byte)
    requires SameHead(a, b, headEnd) && limit <= headEnd + 4
    ensures FindByte(a, from, limit, c) == FindByte(b, from, limit, c)
    decreases if from < limit then limit - from else 0
  {
    if from < limit {
      SameByte(a, b, headEnd, from);
      SameFind(a, b, headEnd, from + 1, limit, c);
    }
  }

  lemma {:induction false} SameSkip(a: seq<Byte>, b: seq<Byte>, headEnd: nat, i: nat, limit: nat)
    requires SameHead(a, b, headEnd) && i <= limit <= headEnd + 4
    ensures SkipSpaces(a, i, limit) == SkipSpaces(b, i, limit)
    decreases limit - i
  {
    if i < limit {
      SameByte(a, b, headEnd, i);
      SameSkip(a, b, headEnd, i + 1, limit);
    }
  }

  lemma SameLine(a: seq<Byte>, b: seq<Byte>, headEnd: nat, end: nat)
    requires SameHead(a, b, headEnd) && end <= headEnd
    ensures ParseLine(a, end) == ParseLine(b, end)
  {
    hide ParseMethod, SameHead, FindByte, ParseTarget, ParseVersion;
    SameLength(a, b, headEnd);
    SameFind(a, b, headEnd, 0, end, SPACE);
    var sp1 := FindByte(a, 0, end, SPACE);
    if sp1.Some? {
      SameSlice(a, b, headEnd, 0, sp1.value);
      SameFind(a, b, headEnd, sp1.value + 1, end, SPACE);
      var sp2 := FindByte(a, sp1.value + 1, end, SPACE);
      if sp2.Some? {
        SameTarget(a, b, headEnd, sp1.value + 1, sp2.value);
        SameVersion(a, b, headEnd, sp2.value + 1, end);
      }
    }
  }

  lemma SameTarget(a: seq<Byte>, b: seq<Byte>, headEnd: nat, from: nat, end: nat)
    requires SameHead(a, b, headEnd) && from <= end <= headEnd
    ensures ParseTarget(a, from, end) == ParseTarget(b, from, end)
  {
    hide SameHead, FindByte;
    SameLength(a, b, headEnd);
    SameFind(a, b, headEnd, from, end, QUESTION);
    SameSlice(a, b, headEnd, from, end);
    var mark := FindByte(a, from, end, QUESTION);
    if mark.Some? {
      SameSlice(a, b, headEnd, from, mark.value);
      SameSlice(a, b, headEnd, mark.value + 1, end);
    }
  }

  lemma SameVersion(a: seq<Byte>, b: seq<Byte>, headEnd: nat, from: nat, end: nat)
    requires SameHead(a, b, headEnd) && end <= headEnd
    ensures ParseVersion(a, from, end) == ParseVersion(b, from, end)
  {
    hide SameHead;
    SameLength(a, b, headEnd);
    if end >= from + 8 {
      SameSlice(a, b, headEnd, from, from + 5);
      SameByte(a, b, headEnd, from + 5);
      SameByte(a, b, headEnd, from + 7);
    }
  }

  lemma SameLength(a: seq<Byte>, b: seq<Byte>, headEnd: nat)
    requires SameHead(a, b, headEnd)
    ensures headEnd + 4 <= |a| && headEnd + 4 <= |b|
  {
  }

  lemma {:induction false} SameHeaders(a: seq<Byte>, b: seq<Byte>, headEnd: nat, pos: nat, done: seq<Header>)
    requires SameHead(a, b, headEnd)
    ensures ParseHeaders(a, pos, headEnd, done) == ParseHeaders(b, pos, headEnd, done)
    decreases |a| - pos
  {
    hide SameHead, ParseHeader, FindCrlf;
    SameLength(a, b, headEnd);
    if pos < headEnd {
      SameCrlf(a, b, headEnd, pos);
      var end := FindCrlf(a, pos).value;
      SameHeader(a, b, headEnd, pos, end);
      var h := ParseHeader(a, pos, end);
      if end != pos && h.Some? { SameHeaders(a, b, headEnd, end + 2, done + [h.value]); }
    }
  }

  lemma SameHeader(a: seq<Byte>, b: seq<Byte>, headEnd: nat, pos: nat, end: nat)
    requires SameHead(a, b, headEnd) && end <= headEnd
    ensures ParseHeader(a, pos, end) == ParseHeader(b, pos, end)
  {
    hide SameHead, FindByte, SkipSpaces;
    SameLength(a, b, headEnd);
    SameFind(a, b, headEnd, pos, end, COLON);
    var colon := FindByte(a, pos, end, COLON);
    if colon.Some? {
      SameSkip(a, b, headEnd, colon.value + 1, end);
      SameSlice(a, b, headEnd, pos, colon.value);
      SameSlice(a, b, headEnd, SkipSpaces(a, colon.value + 1, end), end);
    }
  }

  lemma SameParsedHead(a: seq<Byte>, b: seq<Byte>, headEnd: nat)
    requires SameHead(a, b, headEnd)
    ensures ParseHead(a, headEnd) == ParseHead(b, headEnd)
  {
    hide SameHead, FindCrlf, ParseLine, ParseHeaders;
    SameLength(a, b, headEnd);
    SameCrlf(a, b, headEnd, 0);
    var end := FindCrlf(a, 0).value;
    SameLine(a, b, headEnd, end);
    if ParseLine(a, end).Some? { SameHeaders(a, b, headEnd, end + 2, []); }
  }

  // ---- Extending and cutting the buffer ----

  /** The head of an extended buffer ends where it did. */
  lemma HeadOfExtension(buf: seq<Byte>, more: seq<Byte>)
    requires HeaderEnd(buf, 0).Some?
    ensures HeaderEnd(buf + more, 0) == HeaderEnd(buf, 0)
    ensures SameHead(buf, buf + more, HeaderEnd(buf, 0).value)
  {
    var headEnd := HeaderEnd(buf, 0).value;
    assert EndsHead(buf + more, headEnd);
    forall j: nat | j < headEnd ensures EndsHead(buf + more, j) == EndsHead(buf, j) {
    }
  }

  /** An error stays an error, and a request stays the same request with the same length, whatever follows. */
  lemma ResultIsStable(buf: seq<Byte>, more: seq<Byte>)
    requires !ParseRequest(buf).Incomplete?
    ensures ParseRequest(buf + more) == ParseRequest(buf)
  {
    hide ParseHead, ReadHeaders, HasConnection, SameHead, HeaderEnd;
    HeadOfExtension(buf, more);
    var headEnd := HeaderEnd(buf, 0).value;
    SameLength(buf, buf + more, headEnd);
    SameParsedHead(buf, buf + more, headEnd);
    var r := ParseRequest(buf);
    if r.Ok? {
      var start := headEnd + 4;
      assert (buf + more)[start..start + r.request.contentLength] == buf[start..start + r.request.contentLength];
    }
  }

  /** No proper prefix of the bytes of a request is a request, or an error. */
  lemma PrefixIsIncomplete(buf: seq<Byte>, k: nat)
    requires ParseRequest(buf).Ok? && k < ParseRequest(buf).request.consumed
    ensures k <= |buf| && ParseRequest(buf[..k]) == Incomplete
  {
    hide ParseHead, ReadHeaders, HasConnection, SameHead, HeaderEnd;
    var prefix := buf[..k];
    assert prefix + buf[k..] == buf;
    if HeaderEnd(prefix, 0).Some? {
      HeadOfExtension(prefix, buf[k..]);
      var headEnd := HeaderEnd(buf, 0).value;
      SameLength(prefix, buf, headEnd);
      SameParsedHead(prefix, buf, headEnd);
    }
  }

  /** The consumed bytes are a request by themselves: the result depends on nothing else. */
  lemma RequestDelimitsItself(buf: seq<Byte>)
    requires ParseRequest(buf).Ok?
    ensures ParseRequest(buf).request.consumed <= |buf|
    ensures ParseRequest(buf[..ParseRequest(buf).request.consumed]) == ParseRequest(buf)
  {
    hide ParseHead, ReadHeaders, HasConnection, SameHead, HeaderEnd;
    var r := ParseRequest(buf).request;
    var headEnd := HeaderEnd(buf, 0).value;
    var exact := buf[..r.consumed];
    assert exact + buf[r.consumed..] == buf;
    assert EndsHead(exact, headEnd);
    SomeHeadEnd(exact, headEnd);
    HeadOfExtension(exact, buf[r.consumed..]);
    SameLength(exact, buf, headEnd);
    SameParsedHead(exact, buf, headEnd);
    assert exact[headEnd + 4..headEnd + 4 + r.contentLength] == buf[headEnd + 4..headEnd + 4 + r.contentLength];
  }

  lemma SomeHeadEnd(buf: seq<Byte>, i: nat)
    requires i + 4 <= |buf| && EndsHead(buf, i)
    ensures HeaderEnd(buf, 0).Some?
  {
  }

  /** However the bytes of a stream arrive: the answer at the first moment when there is one is the answer for
      the whole stream, and for every moment after it. */
  lemma ArrivalDoesNotMatter(stream: seq<Byte>, k: nat, n: nat)
    requires k <= n <= |stream| && !ParseRequest(stream[..k]).Incomplete?
    ensures ParseRequest(stream[..n]) == ParseRequest(stream[..k]) == ParseRequest(stream)
  {
    hide ParseRequest;
    assert stream[..n] == stream[..k] + stream[k..n];
    assert stream == stream[..k] + stream[k..];
    ResultIsStable(stream[..k], stream[k..n]);
    ResultIsStable(stream[..k], stream[k..]);
  }
}
