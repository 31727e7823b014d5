/** Requests as they are written (RFC 9112, sections 3 and 5): a request line, fields and an empty line; and the proof
    that the parser of src/http_parser.c finds in such a text what was written. */
module HttpFields {
  import opened Bytes
  import opened Options
  import opened Http
  import ContentLength

  // ---- Texts ----

  /** The bytes are these ASCII characters. */
  predicate Ascii(s: seq<Byte>, text: string) {
    |s| == |text| && forall i :: 0 <= i < |s| ==> s[i] as int == text[i] as int
  }

  /** The same, with letters in either case; the text is in lower case. */
  predicate AnyCase(s: seq<Byte>, text: string) {
    |s| == |text| && forall i :: 0 <= i < |s| ==>
      s[i] as int == text[i] as int || ('a' <= text[i] <= 'z' && s[i] as int == text[i] as int - 32)
  }

  /** A field: name, colon, spaces, value. */
  datatype Field = Field(name: seq<Byte>, spaces: nat, value: seq<Byte>)

  /** The request line: method, target with its query if there is one, and version; the parser allows anything between
      the digits of the version and behind it. */
  datatype Start = Start(methodText: seq<Byte>, path: seq<Byte>, query: Option<seq<Byte>>, major: Byte, between: Byte,
                         minor: Byte, behind: seq<Byte>)

  function Spaces(n: nat): (s: seq<Byte>)
    ensures |s| == n && forall i :: 0 <= i < n ==> s[i] == 32
  {
    if n == 0 then [] else [32] + Spaces(n - 1)
  }

  function FieldText(f: Field): seq<Byte> {
    f.name + ([58] + (Spaces(f.spaces) + f.value))
  }

  function TargetText(s: Start): seq<Byte> {
    s.path + if s.query.Some? then [63] + s.query.value else []
  }

  /** HTTP/x.y */
  function VersionText(s: Start): seq<Byte> {
    [72, 84, 84, 80, 47, s.major, s.between, s.minor] + s.behind
  }

  function StartText(s: Start): seq<Byte> {
    s.methodText + ([32] + (TargetText(s) + ([32] + VersionText(s))))
  }

  function FieldTexts(fields: seq<Field>): (lines: seq<seq<Byte>>)
    ensures |lines| == |fields|
  {
    if fields == [] then [] else [FieldText(fields[0])] + FieldTexts(fields[1..])
  }

  /** Lines, each with its end. */
  function LinesText(lines: seq<seq<Byte>>): seq<Byte> {
    if lines == [] then [] else lines[0] + ([13, 10] + LinesText(lines[1..]))
  }

  /** The request line, the fields and the empty line. */
  function HeadText(s: Start, fields: seq<Field>): seq<Byte> {
    LinesText([StartText(s)] + FieldTexts(fields)) + [13, 10]
  }

  // ---- What can be written ----

  predicate NoLineEnd(line: seq<Byte>) {
    forall j :: 0 <= j < |line| - 1 ==> !(line[j] == 13 && line[j + 1] == 10)
  }

  predicate ProperField(f: Field) {
    58 !in f.name && (f.value != [] ==> f.value[0] != 32) && NoLineEnd(FieldText(f))
  }

  /** No space before the one behind the method, none in the target, and no question mark in the path. */
  predicate ProperStart(s: Start) {
    && 32 !in s.methodText && 32 !in s.path && 63 !in s.path && (s.query.Some? ==> 32 !in s.query.value)
    && NoLineEnd(StartText(s))
  }

  predicate ProperFields(fields: seq<Field>) {
    forall i :: 0 <= i < |fields| ==> ProperField(fields[i])
  }

  // ---- What it says ----

  predicate MethodMeans(text: seq<Byte>, m: Method) {
    match m
    case Get => Ascii(text, "GET")
    case Post => Ascii(text, "POST")
    case Put => Ascii(text, "PUT")
    case Patch => Ascii(text, "PATCH")
    case Delete => Ascii(text, "DELETE")
    case Head => Ascii(text, "HEAD")
    case Options => Ascii(text, "OPTIONS")
    case Unknown =>
      !Ascii(text, "GET") && !Ascii(text, "POST") && !Ascii(text, "PUT") && !Ascii(text, "PATCH") &&
      !Ascii(text, "DELETE") && !Ascii(text, "HEAD") && !Ascii(text, "OPTIONS")
  }

  predicate IsConnection(f: Field) {
    AnyCase(f.name, "connection")
  }

  /** Some Connection field says keep-alive, and no later one says close. */
  ghost predicate Kept(fields: seq<Field>) {
    exists i :: Keeps(fields, i) && forall j :: i < j < |fields| ==> !Closes(fields, j)
  }

  /** The Connection fields decide, and without any the version does. */
  ghost predicate KeepAliveMeans(s: Start, fields: seq<Field>, keepAlive: bool) {
    if exists i :: 0 <= i < |fields| && IsConnection(fields[i]) then keepAlive <==> Kept(fields)
    else keepAlive <==> s.major as int == '1' as int && s.minor as int == '1' as int
  }

  predicate IsLength(f: Field) {
    AnyCase(f.name, "content-length")
  }

  /** The number that the digits of a Content-Length write, modulo 2^64. */
  function LengthOf(f: Field): nat {
    ContentLength.Decimal(ContentLength.OnlyDigits(f.value)) % 0x1_0000_0000_0000_0000
  }

  /** What the last Content-Length asks for. */
  function Asked(fields: seq<Field>): nat {
    if fields == [] then 0
    else if IsLength(fields[|fields| - 1]) then LengthOf(fields[|fields| - 1])
    else Asked(fields[..|fields| - 1])
  }

  /** Some Content-Length asks for more than a mebibyte. */
  ghost predicate Oversized(fields: seq<Field>) {
    exists i :: 0 <= i < |fields| && IsLength(fields[i]) && LengthOf(fields[i]) > 1048576
  }

  predicate Keeps(fields: seq<Field>, i: int) {
    0 <= i < |fields| && IsConnection(fields[i]) && AnyCase(fields[i].value, "keep-alive")
  }

  predicate Closes(fields: seq<Field>, i: int) {
    0 <= i < |fields| && IsConnection(fields[i]) && AnyCase(fields[i].value, "close")
  }

  function HeadersOf(fields: seq<Field>): (headers: seq<Header>)
    ensures |headers| == |fields|
    ensures forall i :: 0 <= i < |fields| ==> headers[i] == Header(fields[i].name, fields[i].value)
  {
    if fields == [] then [] else [Header(fields[0].name, fields[0].value)] + HeadersOf(fields[1..])
  }

  /** The request says what was written. */
  ghost predicate Says(s: Start, fields: seq<Field>, r: Request) {
    && MethodMeans(s.methodText, r.method_) && r.methodText == s.methodText
    && r.path == s.path && r.query == s.query
    && r.major == s.major as int - '0' as int && r.minor == s.minor as int - '0' as int
    && r.headers == HeadersOf(fields) && KeepAliveMeans(s, fields, r.keepAlive)
  }

  // ---- Finding the ends of lines ----

  lemma FindThere(buf: seq<Byte>, from: nat, end: nat, limit: nat, c: Byte)
    requires from <= end <= limit <= |buf| && forall j :: from <= j < end ==> buf[j] != c
    ensures FindByte(buf, from, limit, c) == FindByte(buf, end, limit, c)
    decreases end - from
  {
    if from < end { FindThere(buf, from + 1, end, limit, c); }
  }

  /** A line stands at pos with its end behind it. */
  ghost predicate LineAt(buf: seq<Byte>, pos: nat, line: seq<Byte>) {
    && pos + |line| + 2 <= |buf| && buf[pos..pos + |line|] == line
    && buf[pos + |line|] == 13 && buf[pos + |line| + 1] == 10
  }

  lemma ByteOfLine(buf: seq<Byte>, pos: nat, line: seq<Byte>, j: nat)
    requires LineAt(buf, pos, line) && j < |line|
    ensures buf[pos + j] == line[j]
  {
    assert buf[pos..pos + |line|][j] == line[j];
  }

  /** The first line end in a line with its end is that end. */
  lemma NoEarlierEnd(buf: seq<Byte>, pos: nat, line: seq<Byte>, j: nat)
    requires LineAt(buf, pos, line) && NoLineEnd(line) && pos <= j < pos + |line|
    ensures !(buf[j] == 13 && buf[j + 1] == 10)
  {
    ByteOfLine(buf, pos, line, j - pos);
    if j + 1 < pos + |line| { ByteOfLine(buf, pos, line, j + 1 - pos); }
  }

  lemma LineEndsThere(buf: seq<Byte>, pos: nat, line: seq<Byte>)
    requires LineAt(buf, pos, line) && NoLineEnd(line)
    ensures FindCrlf(buf, pos) == Some(pos + |line|)
  {
    hide NoLineEnd;
    forall j | pos <= j < pos + |line| ensures !(buf[j] == 13 && buf[j + 1] == 10) { NoEarlierEnd(buf, pos, line, j); }
    var r := FindCrlf(buf, pos);
    assert buf[pos + |line|] == CR && buf[pos + |line| + 1] == LF;
  }

  /** The lines stand at pos, and an empty line behind them. */
  ghost predicate LinesAt(buf: seq<Byte>, pos: nat, lines: seq<seq<Byte>>) {
    pos + |LinesText(lines)| + 2 <= |buf| && buf[pos..pos + |LinesText(lines)| + 2] == LinesText(lines) + [13, 10]
  }

  lemma FirstLine(buf: seq<Byte>, pos: nat, lines: seq<seq<Byte>>)
    requires LinesAt(buf, pos, lines) && lines != []
    ensures LineAt(buf, pos, lines[0]) && LinesAt(buf, pos + |lines[0]| + 2, lines[1..])
    ensures |LinesText(lines)| == |lines[0]| + 2 + |LinesText(lines[1..])|
  {
    hide LinesText;
    var line, rest := lines[0], LinesText(lines[1..]);
    TextOfLines(lines);
    TextsApart(LinesText(lines) + [13, 10], line, rest + [13, 10]);
    SliceOfSlice(buf, pos, pos + |line| + 2 + |rest| + 2, |line|);
  }

  lemma TextOfLines(lines: seq<seq<Byte>>)
    requires lines != []
    ensures LinesText(lines) + [13, 10] == lines[0] + ([13, 10] + (LinesText(lines[1..]) + [13, 10]))
    ensures |LinesText(lines)| == |lines[0]| + 2 + |LinesText(lines[1..])|
  {
  }

  lemma TextsApart(text: seq<Byte>, line: seq<Byte>, rest: seq<Byte>)
    ensures text == line + ([13, 10] + rest) ==>
              |text| == |line| + 2 + |rest| && text[..|line|] == line && text[|line|] == 13 && text[|line| + 1] == 10 &&
              text[|line| + 2..] == rest
  {
  }

  lemma SliceOfSlice(buf: seq<Byte>, from: nat, to: nat, k: nat)
    requires from + k + 2 <= to <= |buf|
    ensures buf[from..to][..k] == buf[from..from + k] && buf[from..to][k + 2..] == buf[from + k + 2..to]
    ensures buf[from..to][k] == buf[from + k] && buf[from..to][k + 1] == buf[from + k + 1]
  {
  }

  predicate ProperLines(lines: seq<seq<Byte>>) {
    forall i :: 0 <= i < |lines| ==> lines[i] != [] && NoLineEnd(lines[i])
  }

  /** Where lines start, there is no line end unless nothing is left. */
  lemma NoEmptyLine(buf: seq<Byte>, pos: nat, lines: seq<seq<Byte>>)
    requires LinesAt(buf, pos, lines) && ProperLines(lines)
    ensures (buf[pos] == 13 && buf[pos + 1] == 10) <==> lines == []
  {
    hide NoLineEnd;
    if lines == [] {
      assert LinesText(lines) == [];
      assert buf[pos..pos + 2][0] == 13 && buf[pos..pos + 2][1] == 10;
    } else {
      FirstLine(buf, pos, lines);
      NoEarlierEnd(buf, pos, lines[0], pos);
    }
  }

  /** The first empty line is the one behind the lines. */
  lemma {:induction false} NoEarlierHeadEnd(buf: seq<Byte>, pos: nat, lines: seq<seq<Byte>>, j: nat)
    requires LinesAt(buf, pos, lines) && ProperLines(lines) && pos <= j < pos + |LinesText(lines)| - 2 && j + 4 <= |buf|
    ensures !EndsHead(buf, j)
    decreases |lines|
  {
    hide NoLineEnd, LinesAt, LineAt;
    if lines != [] {
      FirstLine(buf, pos, lines);
      var line, next := lines[0], pos + |lines[0]| + 2;
      if j < pos + |line| {
        NoEarlierEnd(buf, pos, line, j);
      } else if j == pos + |line| {
        NoText();
        assert lines[1..] != [];
        NextStarts(buf, next, lines[1..], j);
      } else if j == pos + |line| + 1 {
        EndBytes(buf, pos, line);
      } else {
        NoEarlierHeadEnd(buf, next, lines[1..], j);
      }
    }
  }

  lemma EndBytes(buf: seq<Byte>, pos: nat, line: seq<Byte>)
    requires LineAt(buf, pos, line)
    ensures pos + |line| + 2 <= |buf| && buf[pos + |line|] == 13 && buf[pos + |line| + 1] == 10
  {
  }

  lemma NoText()
    ensures LinesText([]) == []
  {
  }

  lemma NextStarts(buf: seq<Byte>, next: nat, lines: seq<seq<Byte>>, j: nat)
    requires LinesAt(buf, next, lines) && ProperLines(lines) && lines != [] && j + 2 == next && j + 4 <= |buf|
    ensures !EndsHead(buf, j)
  {
    hide NoLineEnd;
    NoEmptyLine(buf, next, lines);
  }

  lemma HeadEndsThere(buf: seq<Byte>, lines: seq<seq<Byte>>)
    requires LinesAt(buf, 0, lines) && ProperLines(lines) && lines != []
    ensures |LinesText(lines)| >= 2 && HeaderEnd(buf, 0) == Some(|LinesText(lines)| - 2)
  {
    hide ProperLines, HeaderEnd, LinesAt, LinesText, EndsHead;
    LastEnd(buf, 0, lines);
    var h := |LinesText(lines)| - 2;
    forall j: nat | j < h ensures j + 4 <= |buf| && !EndsHead(buf, j) { NoEarlierHeadEnd(buf, 0, lines, j); }
    EndsThere(buf, h);
  }

  lemma EndsThere(buf: seq<Byte>, h: nat)
    requires h + 4 <= |buf| && buf[h] == 13 && buf[h + 1] == 10 && buf[h + 2] == 13 && buf[h + 3] == 10
    requires forall j: nat :: j < h ==> !EndsHead(buf, j)
    ensures HeaderEnd(buf, 0) == Some(h)
  {
    hide HeaderEnd;
    assert EndsHead(buf, h);
  }

  /** The end of the last line stands before the empty line. */
  lemma {:induction false} LastEnd(buf: seq<Byte>, pos: nat, lines: seq<seq<Byte>>)
    requires LinesAt(buf, pos, lines) && lines != []
    ensures var h := pos + |LinesText(lines)| - 2;
            h >= pos && h + 4 <= |buf| && buf[h] == 13 && buf[h + 1] == 10 && buf[h + 2] == 13 && buf[h + 3] == 10
    decreases |lines|
  {
    FirstLine(buf, pos, lines);
    if |lines| == 1 {
      assert lines[1..] == [] && LinesText([]) == [];
      var next := pos + |lines[0]| + 2;
      assert buf[next..next + 2][0] == 13 && buf[next..next + 2][1] == 10;
    } else {
      LastEnd(buf, pos + |lines[0]| + 2, lines[1..]);
    }
  }

  // ---- The request line ----

  /** A piece of text stands in the buffer. */
  ghost predicate TextAt(buf: seq<Byte>, pos: nat, text: seq<Byte>) {
    pos + |text| <= |buf| && buf[pos..pos + |text|] == text
  }

  lemma TwoTexts(buf: seq<Byte>, pos: nat, a: seq<Byte>, b: seq<Byte>)
    requires TextAt(buf, pos, a + b)
    ensures TextAt(buf, pos, a) && TextAt(buf, pos + |a|, b)
  {
    var text := buf[pos..pos + |a + b|];
    assert text[..|a|] == a && text[|a|..] == b;
    assert buf[pos..pos + |a|] == text[..|a|];
    assert buf[pos + |a|..pos + |a| + |b|] == text[|a|..];
  }

  lemma ByteAt(buf: seq<Byte>, pos: nat, text: seq<Byte>, j: nat)
    requires TextAt(buf, pos, text) && j < |text|
    ensures buf[pos + j] == text[j]
  {
    assert buf[pos..pos + |text|][j] == text[j];
  }

  /** The first c behind a text without it. */
  lemma FoundBehind(buf: seq<Byte>, pos: nat, text: seq<Byte>, limit: nat, c: Byte)
    requires TextAt(buf, pos, text) && c !in text && pos + |text| < limit <= |buf| && buf[pos + |text|] == c
    ensures FindByte(buf, pos, limit, c) == Some(pos + |text|)
  {
    hide TextAt;
    NotInText(buf, pos, text, limit, c);
    assert FindByte(buf, pos + |text|, limit, c) == Some(pos + |text|);
  }

  lemma NotInText(buf: seq<Byte>, pos: nat, text: seq<Byte>, limit: nat, c: Byte)
    requires TextAt(buf, pos, text) && c !in text && pos + |text| <= limit <= |buf|
    ensures FindByte(buf, pos, limit, c) == FindByte(buf, pos + |text|, limit, c)
  {
    hide TextAt;
    forall j | pos <= j < pos + |text| ensures j < |buf| && buf[j] != c {
      ByteAt(buf, pos, text, j - pos);
      assert text[j - pos] in text;
    }
    FindThere(buf, pos, pos + |text|, limit, c);
  }

  lemma StartParts(buf: seq<Byte>, s: Start)
    requires TextAt(buf, 0, StartText(s))
    ensures var m, t := |s.methodText|, |TargetText(s)|;
            && TextAt(buf, 0, s.methodText) && TextAt(buf, m, [32]) && TextAt(buf, m + 1, TargetText(s))
            && TextAt(buf, m + 1 + t, [32]) && TextAt(buf, m + 2 + t, VersionText(s))
            && |StartText(s)| == m + 2 + t + |VersionText(s)|
  {
    hide TextAt, TargetText, VersionText;
    var m, t := |s.methodText|, |TargetText(s)|;
    TwoTexts(buf, 0, s.methodText, [32] + (TargetText(s) + ([32] + VersionText(s))));
    TwoTexts(buf, m, [32], TargetText(s) + ([32] + VersionText(s)));
    TwoTexts(buf, m + 1, TargetText(s), [32] + VersionText(s));
    TwoTexts(buf, m + 1 + t, [32], VersionText(s));
  }

  lemma TargetParses(buf: seq<Byte>, from: nat, s: Start)
    requires TextAt(buf, from, TargetText(s)) && 63 !in s.path
    ensures from + |TargetText(s)| <= |buf| && ParseTarget(buf, from, from + |TargetText(s)|) == (s.path, s.query)
  {
    hide FindByte;
    var end := from + |TargetText(s)|;
    if s.query.Some? {
      TwoTexts(buf, from, s.path, [63] + s.query.value);
      TwoTexts(buf, from + |s.path|, [63], s.query.value);
      ByteAt(buf, from + |s.path|, [63], 0);
      FoundBehind(buf, from, s.path, end, 63);
    } else {
      assert s.path + [] == s.path;
      NotInText(buf, from, s.path, end, 63);
      NothingFound(buf, end, 63);
    }
  }

  lemma NothingFound(buf: seq<Byte>, end: nat, c: Byte)
    requires end <= |buf|
    ensures FindByte(buf, end, end, c) == None
  {
  }

  lemma VersionParses(buf: seq<Byte>, from: nat, s: Start, end: nat)
    requires TextAt(buf, from, VersionText(s)) && end == from + |VersionText(s)|
    ensures end <= |buf| && ParseVersion(buf, from, end) == Some((s.major as int - 48, s.minor as int - 48))
  {
    var v := VersionText(s);
    assert v[..5] == HTTP_SLASH && v[5] == s.major && v[7] == s.minor && |v| >= 8;
    ByteAt(buf, from, v, 5);
    ByteAt(buf, from, v, 7);
    assert buf[from..from + 5] == buf[from..from + |v|][..5];
  }

  lemma TargetHasNoSpace(s: Start)
    requires ProperStart(s)
    ensures 32 !in TargetText(s)
  {
    hide NoLineEnd;
  }

  lemma StartParses(buf: seq<Byte>, s: Start)
    requires TextAt(buf, 0, StartText(s)) && ProperStart(s)
    ensures ParseLine(buf, |StartText(s)|) ==
            Some(Line(ParseMethod(s.methodText), s.methodText, s.path, s.query, s.major as int - 48, s.minor as int - 48))
  {
    hide TargetText, VersionText, StartText, NoLineEnd, FindByte, ParseTarget, ParseVersion, ParseMethod;
    var m, t, end := |s.methodText|, |TargetText(s)|, |StartText(s)|;
    StartParts(buf, s);
    TargetHasNoSpace(s);
    ByteAt(buf, m, [32], 0);
    ByteAt(buf, m + 1 + t, [32], 0);
    FoundBehind(buf, 0, s.methodText, end, 32);
    FoundBehind(buf, m + 1, TargetText(s), end, 32);
    TargetParses(buf, m + 1, s);
    VersionParses(buf, m + 2 + t, s, end);
  }

  lemma MethodParses(text: seq<Byte>)
    ensures MethodMeans(text, ParseMethod(text))
  {
  }

  // ---- The fields ----

  lemma SpacesSkipped(buf: seq<Byte>, i: nat, n: nat, limit: nat)
    requires i + n <= limit <= |buf| && (forall j :: i <= j < i + n ==> buf[j] == 32)
    requires i + n < limit ==> buf[i + n] != 32
    ensures SkipSpaces(buf, i, limit) == i + n
    decreases n
  {
    if n > 0 { SpacesSkipped(buf, i + 1, n - 1, limit); }
  }

  lemma FieldParses(buf: seq<Byte>, pos: nat, f: Field)
    requires TextAt(buf, pos, FieldText(f)) && ProperField(f)
    ensures ParseHeader(buf, pos, pos + |FieldText(f)|) == Some(Header(f.name, f.value))
  {
    hide *;
    var end, colon := pos + |FieldText(f)|, pos + |f.name|;
    FieldParts(buf, pos, f);
    FieldInside(buf, pos, FieldText(f));
    NameFound(buf, pos, f);
    ValueFound(buf, colon + 1, f, end);
    HeaderFound(buf, pos, f, end);
  }

  lemma FieldParts(buf: seq<Byte>, pos: nat, f: Field)
    requires TextAt(buf, pos, FieldText(f))
    ensures var colon := pos + |f.name|;
            && TextAt(buf, pos, f.name) && TextAt(buf, colon, [58]) && TextAt(buf, colon + 1, Spaces(f.spaces))
            && TextAt(buf, colon + 1 + f.spaces, f.value)
            && pos + |FieldText(f)| == colon + 1 + f.spaces + |f.value|
  {
    hide TextAt;
    var colon, blank := pos + |f.name|, Spaces(f.spaces);
    TwoTexts(buf, pos, f.name, [58] + (blank + f.value));
    TwoTexts(buf, colon, [58], blank + f.value);
    TwoTexts(buf, colon + 1, blank, f.value);
  }

  lemma NameFound(buf: seq<Byte>, pos: nat, f: Field)
    requires TextAt(buf, pos, f.name) && TextAt(buf, pos + |f.name|, [58]) && pos + |FieldText(f)| <= |buf|
    requires ProperField(f)
    ensures pos + |f.name| < pos + |FieldText(f)|
    ensures FindByte(buf, pos, pos + |FieldText(f)|, 58) == Some(pos + |f.name|)
  {
    hide NoLineEnd, FindByte, TextAt;
    ByteAt(buf, pos + |f.name|, [58], 0);
    FoundBehind(buf, pos, f.name, pos + |FieldText(f)|, 58);
  }

  lemma ValueFound(buf: seq<Byte>, from: nat, f: Field, end: nat)
    requires TextAt(buf, from, Spaces(f.spaces)) && TextAt(buf, from + f.spaces, f.value) && ProperField(f)
    requires end == from + f.spaces + |f.value| && end <= |buf|
    ensures SkipSpaces(buf, from, end) == from + f.spaces && buf[from + f.spaces..end] == f.value
  {
    hide NoLineEnd, TextAt, Spaces;
    forall j | from <= j < from + f.spaces ensures buf[j] == 32 { ByteAt(buf, from, Spaces(f.spaces), j - from); }
    if f.value != [] { ByteAt(buf, from + f.spaces, f.value, 0); }
    SpacesSkipped(buf, from, f.spaces, end);
    TextIs(buf, from + f.spaces, f.value);
  }

  lemma HeaderFound(buf: seq<Byte>, pos: nat, f: Field, end: nat)
    requires TextAt(buf, pos, f.name) && pos + |f.name| + 1 + f.spaces <= end <= |buf|
    requires FindByte(buf, pos, end, 58) == Some(pos + |f.name|)
    requires SkipSpaces(buf, pos + |f.name| + 1, end) == pos + |f.name| + 1 + f.spaces
    requires buf[pos + |f.name| + 1 + f.spaces..end] == f.value
    ensures ParseHeader(buf, pos, end) == Some(Header(f.name, f.value))
  {
    hide FindByte, SkipSpaces;
  }

  lemma FieldInside(buf: seq<Byte>, pos: nat, text: seq<Byte>)
    requires TextAt(buf, pos, text)
    ensures pos + |text| <= |buf|
  {
  }

  lemma TextIs(buf: seq<Byte>, pos: nat, text: seq<Byte>)
    requires TextAt(buf, pos, text)
    ensures pos + |text| <= |buf| && buf[pos..pos + |text|] == text
  {
  }

  lemma {:induction false} FieldsParse(buf: seq<Byte>, pos: nat, fields: seq<Field>, headEnd: nat, done: seq<Header>)
    requires LinesAt(buf, pos, FieldTexts(fields)) && ProperFields(fields)
    requires headEnd + 2 == pos + |LinesText(FieldTexts(fields))| && headEnd <= |buf|
    ensures ParseHeaders(buf, pos, headEnd, done) ==
            if fields == [] || |done| + |fields| <= 64 then Some(done + HeadersOf(fields)) else None
    decreases |fields|
  {
    hide LinesAt, LinesText, ProperField, FieldText, ParseHeader, FindCrlf, LineAt, ParseHeaders;
    if fields == [] {
      NoText();
      assert FieldTexts(fields) == [];
      assert done + [] == done;
      HeadersEnd(buf, pos, headEnd, done);
    } else {
      var f := fields[0];
      var end, h := pos + |FieldText(f)|, Header(f.name, f.value);
      FirstFieldText(fields);
      FirstLine(buf, pos, FieldTexts(fields));
      FieldLine(buf, pos, f);
      HeadersStep(buf, pos, headEnd, done, h, end);
      FieldsParse(buf, end + 2, fields[1..], headEnd, done + [h]);
      HeadersOfFirst(fields, done);
    }
  }

  lemma FirstFieldText(fields: seq<Field>)
    requires fields != []
    ensures FieldTexts(fields)[0] == FieldText(fields[0]) && FieldTexts(fields)[1..] == FieldTexts(fields[1..])
  {
    hide FieldText;
  }

  lemma HeadersOfFirst(fields: seq<Field>, done: seq<Header>)
    requires fields != []
    ensures done + [Header(fields[0].name, fields[0].value)] + HeadersOf(fields[1..]) == done + HeadersOf(fields)
  {
  }

  lemma HeadersEnd(buf: seq<Byte>, pos: nat, headEnd: nat, done: seq<Header>)
    requires headEnd <= pos && headEnd <= |buf|
    ensures ParseHeaders(buf, pos, headEnd, done) == Some(done)
  {
  }

  lemma HeadersStep(buf: seq<Byte>, pos: nat, headEnd: nat, done: seq<Header>, h: Header, end: nat)
    requires pos < headEnd <= |buf| && FindCrlf(buf, pos) == Some(end) && end > pos
    requires end <= |buf| && ParseHeader(buf, pos, end) == Some(h)
    ensures ParseHeaders(buf, pos, headEnd, done) ==
            if |done| >= 64 then None else ParseHeaders(buf, end + 2, headEnd, done + [h])
  {
    hide FindCrlf, ParseHeader;
  }

  lemma FieldLine(buf: seq<Byte>, pos: nat, f: Field)
    requires LineAt(buf, pos, FieldText(f)) && ProperField(f)
    ensures var end := pos + |FieldText(f)|;
            && pos < end <= |buf| && FindCrlf(buf, pos) == Some(end) && ParseHeader(buf, pos, end) == Some(Header(f.name, f.value))
  {
    hide NoLineEnd, FindCrlf, ParseHeader;
    LineEndsThere(buf, pos, FieldText(f));
    FieldParses(buf, pos, f);
  }

  // ---- What the fields say ----

  lemma SameNameIff(name: seq<Byte>, b: seq<Byte>, text: string)
    requires Ascii(b, text) && forall i :: 0 <= i < |text| ==> text[i] == '-' || 'a' <= text[i] <= 'z'
    ensures SameName(name, b) <==> AnyCase(name, text)
  {
    forall i | 0 <= i < |name| && |name| == |text|
      ensures Lower(name[i]) == Lower(b[i]) <==>
              (name[i] as int == text[i] as int || ('a' <= text[i] <= 'z' && name[i] as int == text[i] as int - 32))
    {
      assert b[i] as int == text[i] as int;
    }
  }

  lemma KnownNames(f: Field)
    ensures SameName(f.name, CONTENT_LENGTH) <==> IsLength(f)
    ensures SameName(f.name, CONNECTION) <==> IsConnection(f)
    ensures SameName(f.value, CLOSE) <==> AnyCase(f.value, "close")
    ensures SameName(f.value, KEEP_ALIVE) <==> AnyCase(f.value, "keep-alive")
  {
    hide SameName, AnyCase;
    SameNameIff(f.name, CONTENT_LENGTH, "content-length");
    SameNameIff(f.name, CONNECTION, "connection");
    SameNameIff(f.value, CLOSE, "close");
    SameNameIff(f.value, KEEP_ALIVE, "keep-alive");
  }

  lemma HeadersOfLast(fields: seq<Field>)
    requires fields != []
    ensures HeadersOf(fields)[..|fields| - 1] == HeadersOf(fields[..|fields| - 1])
  {
  }

  lemma CloseOrKeep(value: seq<Byte>)
    ensures !(AnyCase(value, "close") && AnyCase(value, "keep-alive"))
  {
  }

  lemma KeptLast(fields: seq<Field>)
    requires fields != []
    ensures var n := |fields| - 1;
            Kept(fields) <==> Keeps(fields, n) || (Kept(fields[..n]) && !Closes(fields, n))
  {
    hide AnyCase;
    var n := |fields| - 1;
    var init := fields[..n];
    CloseOrKeep(fields[n].value);
    forall i | 0 <= i < n ensures (Keeps(init, i) <==> Keeps(fields, i)) && (Closes(init, i) <==> Closes(fields, i)) {
      assert init[i] == fields[i];
    }
    if i :| Keeps(fields, i) && forall j :: i < j < |fields| ==> !Closes(fields, j) {
      if i < n {
        forall j | i < j < |init| ensures !Closes(init, j) { assert !Closes(fields, j); }
        assert Keeps(init, i);
      }
    }
    if Keeps(fields, n) { assert forall j :: n < j < |fields| ==> !Closes(fields, j); }
    if Kept(init) && !Closes(fields, n) {
      var i :| Keeps(init, i) && forall j :: i < j < |init| ==> !Closes(init, j);
      forall j | i < j < |fields| ensures !Closes(fields, j) {
        if j < n { assert !Closes(init, j); }
      }
      assert Keeps(fields, i);
    }
  }

  lemma OversizedLast(fields: seq<Field>)
    requires fields != []
    ensures var f := fields[|fields| - 1];
            Oversized(fields) <==> Oversized(fields[..|fields| - 1]) || (IsLength(f) && LengthOf(f) > 1048576)
  {
    hide IsLength, LengthOf;
    var init := fields[..|fields| - 1];
    if Oversized(init) {
      var i :| 0 <= i < |init| && IsLength(init[i]) && LengthOf(init[i]) > 1048576;
      assert fields[i] == init[i];
    }
    if Oversized(fields) {
      var i :| 0 <= i < |fields| && IsLength(fields[i]) && LengthOf(fields[i]) > 1048576;
      assert i < |init| ==> init[i] == fields[i];
    }
  }

  lemma ReadLast(before: Framing, f: Field)
    ensures var r := ReadHeader(before, Header(f.name, f.value));
            && r.length == (if IsLength(f) then LengthOf(f) else before.length)
            && (r.tooLarge <==> before.tooLarge || (IsLength(f) && LengthOf(f) > 1048576))
            && (r.keepAlive <==> if IsConnection(f) && AnyCase(f.value, "close") then false
                                 else if IsConnection(f) && AnyCase(f.value, "keep-alive") then true else before.keepAlive)
  {
    hide SameName, AnyCase, LengthValue, IsLength, IsConnection, ContentLength.Decimal, ContentLength.OnlyDigits;
    KnownNames(f);
    ContentLength.LengthMeaning(f.value);
  }

  lemma {:induction false} FieldsSay(fields: seq<Field>)
    ensures var r := ReadHeaders(HeadersOf(fields));
            r.length == Asked(fields) && (r.tooLarge <==> Oversized(fields)) && (r.keepAlive <==> Kept(fields))
    decreases |fields|
  {
    hide ReadHeader, IsLength, LengthOf, IsConnection, AnyCase, HeadersOf;
    if fields == [] {
      NoFields();
    } else {
      var n := |fields| - 1;
      FieldsSay(fields[..n]);
      HeadersOfLast(fields);
      KeptLast(fields);
      OversizedLast(fields);
      CloseOrKeep(fields[n].value);
      ReadLast(ReadHeaders(HeadersOf(fields[..n])), fields[n]);
    }
  }

  lemma NoFields()
    ensures HeadersOf([]) == [] && !Kept([]) && !Oversized([])
  {
  }

  lemma HasConnectionIff(fields: seq<Field>)
    ensures HasConnection(HeadersOf(fields)) <==> exists i :: 0 <= i < |fields| && IsConnection(fields[i])
  {
    hide SameName, IsConnection, HeadersOf;
    forall i | 0 <= i < |fields| ensures SameName(HeadersOf(fields)[i].name, CONNECTION) <==> IsConnection(fields[i]) {
      KnownNames(fields[i]);
    }
    if i :| 0 <= i < |fields| && IsConnection(fields[i]) {
      assert SameName(HeadersOf(fields)[i].name, CONNECTION);
    }
  }

  // ---- The request ----

  lemma {:induction false} FieldLinesAreProper(fields: seq<Field>)
    requires ProperFields(fields)
    ensures ProperLines(FieldTexts(fields))
    decreases |fields|
  {
    hide NoLineEnd;
    if fields != [] {
      var rest := FieldTexts(fields[1..]);
      FieldLinesAreProper(fields[1..]);
      assert FieldTexts(fields) == [FieldText(fields[0])] + rest;
      assert ProperField(fields[0]);
    }
  }

  lemma HeadIsThere(s: Start, fields: seq<Field>, body: seq<Byte>)
    ensures LinesAt(HeadText(s, fields) + body, 0, [StartText(s)] + FieldTexts(fields))
  {
    hide StartText, FieldTexts, LinesText;
    var text := LinesText([StartText(s)] + FieldTexts(fields)) + [13, 10];
    assert (text + body)[0..|text|] == text;
  }

  lemma HeadParses(buf: seq<Byte>, s: Start, fields: seq<Field>)
    requires LinesAt(buf, 0, [StartText(s)] + FieldTexts(fields)) && ProperStart(s) && ProperFields(fields)
    ensures var h := |LinesText([StartText(s)] + FieldTexts(fields))| - 2;
            && 0 <= h && h + 4 <= |buf| && HeaderEnd(buf, 0) == Some(h)
            && ParseHead(buf, h) ==
               if |fields| > 64 then None
               else Some((Line(ParseMethod(s.methodText), s.methodText, s.path, s.query, s.major as int - 48, s.minor as int - 48),
                          HeadersOf(fields)))
  {
    hide StartText, FieldTexts, LinesText, ParseLine, ParseHeaders, FindCrlf, HeaderEnd, LinesAt, LineAt, ProperFields, ProperStart,
      ParseMethod, ProperLines, HeadersOf;
    var lines := [StartText(s)] + FieldTexts(fields);
    FieldLinesAreProper(fields);
    StartIsProper(s, FieldTexts(fields));
    HeadEndsThere(buf, lines);
    FirstLine(buf, 0, lines);
    assert lines[1..] == FieldTexts(fields);
    LineEndsThere(buf, 0, StartText(s));
    LineIsText(buf, StartText(s));
    StartParses(buf, s);
    FieldsParse(buf, |StartText(s)| + 2, fields, |LinesText(lines)| - 2, []);
    assert [] + HeadersOf(fields) == HeadersOf(fields);
  }

  lemma LineIsText(buf: seq<Byte>, line: seq<Byte>)
    requires LineAt(buf, 0, line)
    ensures TextAt(buf, 0, line)
  {
  }

  lemma StartIsProper(s: Start, lines: seq<seq<Byte>>)
    requires ProperStart(s) && ProperLines(lines)
    ensures NoLineEnd(StartText(s)) && ProperLines([StartText(s)] + lines)
  {
    hide NoLineEnd, TargetText, VersionText;
  }

  /** What is parsed of a request that is written like this, with anything behind its head: it is refused if it has more
      than 64 fields or one of them asks for too much; it waits for the bytes its last Content-Length asks for; and then
      it is a request that says what was written, and ends there. */
  lemma WrittenIsParsed(s: Start, fields: seq<Field>, body: seq<Byte>)
    requires ProperStart(s) && ProperFields(fields)
    ensures var r, n := ParseRequest(HeadText(s, fields) + body), Asked(fields);
            if |fields| > 64 || Oversized(fields) then r == Error
            else if |body| < n then r == Incomplete
            else r.Ok? && Says(s, fields, r.request) && r.request.contentLength == n && r.request.body == body[..n] &&
                 r.request.consumed == |HeadText(s, fields)| + n
  {
    hide StartText, FieldTexts, LinesText, HeaderEnd, LinesAt, ProperFields, ProperStart, ParseMethod, HeadersOf, Oversized, Asked,
      ParseHead, ReadHeaders, HasConnection, IsConnection, Kept, MethodMeans;
    var buf, head := HeadText(s, fields) + body, HeadText(s, fields);
    HeadIsThere(s, fields, body);
    HeadParses(buf, s, fields);
    FieldsSay(fields);
    HasConnectionIff(fields);
    MethodParses(s.methodText);
    var h := |LinesText([StartText(s)] + FieldTexts(fields))| - 2;
    assert |head| == h + 4;
    assert |body| >= Asked(fields) ==> buf[h + 4..h + 4 + Asked(fields)] == body[..Asked(fields)];
  }

  // ---- Whatever is accepted is written like this ----

  lemma {:induction false} FirstFound(buf: seq<Byte>, from: nat, limit: nat, c: Byte)
    requires from <= limit <= |buf|
    ensures var r := FindByte(buf, from, limit, c);
            if r.Some? then c !in buf[from..r.value] else c !in buf[from..limit]
    decreases limit - from
  {
    if from < limit && buf[from] != c {
      FirstFound(buf, from + 1, limit, c);
      var r := FindByte(buf, from, limit, c);
      var end := if r.Some? then r.value else limit;
      assert buf[from..end] == [buf[from]] + buf[from + 1..end];
    }
  }

  lemma NoLineEndBefore(buf: seq<Byte>, pos: nat)
    ensures FindCrlf(buf, pos).Some? ==> NoLineEnd(buf[pos..FindCrlf(buf, pos).value])
  {
    var r := FindCrlf(buf, pos);
    if r.Some? {
      var line := buf[pos..r.value];
      forall j | 0 <= j < |line| - 1 ensures !(line[j] == 13 && line[j + 1] == 10) {
        assert line[j] == buf[pos + j] && line[j + 1] == buf[pos + j + 1];
      }
    }
  }

  lemma ThreeSlices(buf: seq<Byte>, a: nat, b: nat, c: nat)
    requires a <= b <= c <= |buf|
    ensures buf[a..c] == buf[a..b] + buf[b..c] && (b < c ==> buf[b..c] == [buf[b]] + buf[b + 1..c])
  {
  }

  lemma TargetWritten(buf: seq<Byte>, from: nat, end: nat)
    requires from <= end <= |buf| && 32 !in buf[from..end]
    ensures var t := ParseTarget(buf, from, end);
            && buf[from..end] == t.0 + (if t.1.Some? then [63] + t.1.value else [])
            && 63 !in t.0 && 32 !in t.0 && (t.1.Some? ==> 32 !in t.1.value)
  {
    hide FindByte;
    FirstFound(buf, from, end, 63);
    var r := FindByte(buf, from, end, QUESTION);
    if r.Some? {
      ThreeSlices(buf, from, r.value, end);
      forall x | x in buf[from..r.value] || x in buf[r.value + 1..end] ensures x in buf[from..end] {}
    } else {
      assert buf[from..end] + [] == buf[from..end];
    }
  }

  lemma VersionWritten(buf: seq<Byte>, from: nat, end: nat)
    requires end <= |buf| && ParseVersion(buf, from, end).Some?
    ensures from + 8 <= end
    ensures buf[from..end] == [72, 84, 84, 80, 47, buf[from + 5], buf[from + 6], buf[from + 7]] + buf[from + 8..end]
  {
    var five := buf[from..from + 5];
    assert forall i :: 0 <= i < 5 ==> buf[from + i] == five[i];
  }

  lemma StartWritten(buf: seq<Byte>, end: nat) returns (s: Start)
    requires end <= |buf| && NoLineEnd(buf[..end]) && ParseLine(buf, end).Some?
    ensures ProperStart(s) && StartText(s) == buf[..end]
  {
    hide NoLineEnd, FindByte, ParseTarget, ParseVersion, ParseMethod;
    var sp1 := FindByte(buf, 0, end, SPACE).value;
    var sp2 := FindByte(buf, sp1 + 1, end, SPACE).value;
    FirstFound(buf, 0, end, SPACE);
    FirstFound(buf, sp1 + 1, end, SPACE);
    TargetWritten(buf, sp1 + 1, sp2);
    VersionWritten(buf, sp2 + 1, end);
    var t, v := ParseTarget(buf, sp1 + 1, sp2), sp2 + 1;
    s := Start(buf[..sp1], t.0, t.1, buf[v + 5], buf[v + 6], buf[v + 7], buf[v + 8..end]);
    ThreeSlices(buf, 0, sp1, end);
    ThreeSlices(buf, sp1 + 1, sp2, end);
    assert TargetText(s) == buf[sp1 + 1..sp2] && VersionText(s) == buf[v..end];
    assert StartText(s) == buf[..sp1] + ([32] + (buf[sp1 + 1..sp2] + ([32] + buf[v..end])));
  }

  lemma {:induction false} SkippedSpaces(buf: seq<Byte>, i: nat, limit: nat)
    requires i <= limit <= |buf|
    ensures var r := SkipSpaces(buf, i, limit);
            buf[i..r] == Spaces(r - i) && (r < limit ==> buf[r] != 32)
    decreases limit - i
  {
    if i < limit && buf[i] == 32 {
      SkippedSpaces(buf, i + 1, limit);
      var r := SkipSpaces(buf, i, limit);
      assert buf[i..r] == [buf[i]] + buf[i + 1..r];
    }
  }

  lemma FieldWritten(buf: seq<Byte>, pos: nat, end: nat) returns (f: Field)
    requires pos <= end <= |buf| && NoLineEnd(buf[pos..end]) && ParseHeader(buf, pos, end).Some?
    ensures ProperField(f) && FieldText(f) == buf[pos..end] && ParseHeader(buf, pos, end).value == Header(f.name, f.value)
  {
    hide NoLineEnd, FindByte, SkipSpaces, Spaces;
    var colon := FindByte(buf, pos, end, COLON).value;
    var start := SkipSpaces(buf, colon + 1, end);
    FirstFound(buf, pos, end, COLON);
    SkippedSpaces(buf, colon + 1, end);
    f := Field(buf[pos..colon], start - (colon + 1), buf[start..end]);
    ThreeSlices(buf, pos, colon, end);
    ThreeSlices(buf, colon + 1, start, end);
  }

  /** A line starts at pos, and the first empty line is the one that ends the head. */
  ghost predicate LineStart(buf: seq<Byte>, pos: nat, headEnd: nat) {
    && HeaderEnd(buf, 0) == Some(headEnd) && 2 <= pos <= headEnd + 2
    && buf[pos - 2] == 13 && buf[pos - 1] == 10
  }

  /** Before the end of the head every line has text and ends in the head. */
  lemma LineInHead(buf: seq<Byte>, pos: nat, headEnd: nat)
    requires LineStart(buf, pos, headEnd)
    ensures if pos >= headEnd then pos == headEnd + 2
            else var end := FindCrlf(buf, pos); end.Some? && pos < end.value <= headEnd
    ensures pos < headEnd ==> LineStart(buf, FindCrlf(buf, pos).value + 2, headEnd)
  {
    hide HeaderEnd, FindCrlf;
    assert EndsHead(buf, headEnd);
    assert !(pos - 2 < headEnd && EndsHead(buf, pos - 2));
  }

  lemma {:induction false} FieldsWritten(buf: seq<Byte>, pos: nat, headEnd: nat, done: seq<Header>) returns (fields: seq<Field>)
    requires LineStart(buf, pos, headEnd) && headEnd + 4 <= |buf| && ParseHeaders(buf, pos, headEnd, done).Some?
    ensures ProperFields(fields) && LinesText(FieldTexts(fields)) == buf[pos..headEnd + 2]
    ensures fields == [] || |done| + |fields| <= 64
    decreases |buf| - pos
  {
    hide HeaderEnd, FindCrlf, ParseHeader, ProperField, FieldText, LineStart;
    LineInHead(buf, pos, headEnd);
    if pos >= headEnd {
      fields := [];
      NoText();
      assert buf[pos..headEnd + 2] == [];
    } else {
      var end := FindCrlf(buf, pos).value;
      NoLineEndBefore(buf, pos);
      assert ParseHeader(buf, pos, end).Some?;
      var f := FieldWritten(buf, pos, end);
      var h := ParseHeader(buf, pos, end).value;
      var rest := FieldsWritten(buf, end + 2, headEnd, done + [h]);
      fields := [f] + rest;
      FirstFieldText(fields);
      assert fields[1..] == rest;
      LineThere(buf, pos, end, headEnd + 2);
      assert LinesText(FieldTexts(fields)) == FieldText(f) + ([13, 10] + LinesText(FieldTexts(rest)));
    }
  }

  lemma LineThere(buf: seq<Byte>, pos: nat, end: nat, to: nat)
    requires pos <= end && end + 2 <= to <= |buf| && buf[end] == 13 && buf[end + 1] == 10
    ensures buf[pos..to] == buf[pos..end] + ([13, 10] + buf[end + 2..to])
  {
  }

  /** The bytes up to the end of the head are what is written. */
  ghost predicate IsHead(buf: seq<Byte>, h: nat, s: Start, fields: seq<Field>) {
    ProperStart(s) && ProperFields(fields) && |fields| <= 64 && h + 4 <= |buf| && buf[..h + 4] == HeadText(s, fields)
  }

  lemma HeadWritten(buf: seq<Byte>, h: nat) returns (s: Start, fields: seq<Field>)
    requires HeaderEnd(buf, 0) == Some(h) && ParseHead(buf, h).Some?
    ensures IsHead(buf, h, s, fields)
  {
    hide HeaderEnd, FindCrlf, ParseLine, ParseHeaders, ProperFields, ProperStart, StartText, FieldTexts, LinesText, NoLineEnd;
    var end := FindCrlf(buf, 0).value;
    NoLineEndBefore(buf, 0);
    LineHasText(buf, end);
    assert EndsHead(buf, h);
    s := StartWritten(buf, end);
    fields := FieldsWritten(buf, end + 2, h, []);
    LineThere(buf, 0, end, h + 2);
    LinesOfHead(s, fields);
    assert buf[..h + 4] == buf[0..h + 2] + [13, 10];
  }

  lemma LinesOfHead(s: Start, fields: seq<Field>)
    ensures HeadText(s, fields) == StartText(s) + ([13, 10] + LinesText(FieldTexts(fields))) + [13, 10]
  {
    hide StartText, FieldTexts;
    var lines := [StartText(s)] + FieldTexts(fields);
    assert lines[1..] == FieldTexts(fields);
  }

  lemma LineHasText(buf: seq<Byte>, end: nat)
    requires end <= |buf| && ParseLine(buf, end).Some?
    ensures end > 0
  {
  }

  /** A complete head is accepted if and only if it is written in this way. */
  lemma AcceptedIff(buf: seq<Byte>, h: nat)
    requires HeaderEnd(buf, 0) == Some(h)
    ensures ParseHead(buf, h).Some? <==> exists s: Start, fields: seq<Field> :: IsHead(buf, h, s, fields)
  {
    hide HeaderEnd, ParseHead, HeadText;
    if ParseHead(buf, h).Some? {
      var s, fields := HeadWritten(buf, h);
      assert IsHead(buf, h, s, fields);
    }
    if s: Start, fields: seq<Field> :| IsHead(buf, h, s, fields) {
      HeadIsThere(s, fields, buf[h + 4..]);
      assert buf == HeadText(s, fields) + buf[h + 4..];
      HeadParses(buf, s, fields);
    }
  }
}
