/** Markdown rendering (src/stdlib_markdown.c) as a function from source text to tags and text, and the proof
    that the HTML is well nested for every input. */
module Markdown {
  import opened Bytes
  import opened Options

  const NEWLINE: Byte := 10
  const SPACE: Byte := 32
  const DOUBLE_QUOTE: Byte := 34
  const HASH: Byte := 35
  const AMPERSAND: Byte := 38
  const QUOTE: Byte := 39
  const OPEN_PAREN: Byte := 40
  const CLOSE_PAREN: Byte := 41
  const STAR: Byte := 42
  const MINUS: Byte := 45
  const DOT: Byte := 46
  const SLASH: Byte := 47
  const LESS: Byte := 60
  const GREATER: Byte := 62
  const OPEN_BRACKET: Byte := 91
  const CLOSE_BRACKET: Byte := 93
  const UNDERSCORE: Byte := 95
  const BACKTICK: Byte := 96

  type Text = seq<Byte>

  // The names of the tags.
  const STRONG: Text := [115, 116, 114, 111, 110, 103]
  const EM: Text := [101, 109]
  const CODE: Text := [99, 111, 100, 101]
  const A: Text := [97]
  const PRE: Text := [112, 114, 101]
  const UL: Text := [117, 108]
  const OL: Text := [111, 108]
  const LI: Text := [108, 105]
  const P: Text := [112]
  const HR: Text := [104, 114]
  const BLOCKQUOTE: Text := [98, 108, 111, 99, 107, 113, 117, 111, 116, 101]
  const HREF: Text := [97, 32, 104, 114, 101, 102, 61, 34]   // a href="
  const AMP_ENTITY: Text := [38, 97, 109, 112, 59]
  const LT_ENTITY: Text := [38, 108, 116, 59]
  const GT_ENTITY: Text := [38, 103, 116, 59]
  const QUOT_ENTITY: Text := [38, 113, 117, 111, 116, 59]
  const APOS_ENTITY: Text := [38, 35, 120, 50, 55, 59]

  /** Output is escaped text and tags; a tag is what stands between its angle brackets. */
  datatype Piece = Plain(text: Text) | Tag(tag: Text)

  function Close(name: Text): Piece {
    Tag([SLASH] + name)
  }

  function Bytes_(p: Piece): Text {
    match p
    case Plain(text) => text
    case Tag(tag) => [LESS] + tag + [GREATER]
  }

  function Flatten(ps: seq<Piece>): Text {
    if ps == [] then [] else Flatten(ps[..|ps| - 1]) + Bytes_(ps[|ps| - 1])
  }

  // ---- Escaping ----

  function EscapeByte(c: Byte): Text {
    if c == AMPERSAND then AMP_ENTITY
    else if c == LESS then LT_ENTITY
    else if c == GREATER then GT_ENTITY
    else if c == DOUBLE_QUOTE then QUOT_ENTITY
    else if c == QUOTE then APOS_ENTITY
    else [c]
  }

  function Escape(s: Text): Text {
    if s == [] then [] else Escape(s[..|s| - 1]) + EscapeByte(s[|s| - 1])
  }

  // ---- Inline formatting ----

  /** The first `c` from `i` on, or the end. */
  function Find(s: Text, i: nat, c: Byte): (r: nat)
    requires i <= |s|
    ensures i <= r <= |s| && (r < |s| ==> s[r] == c)
    decreases |s| - i
  {
    if i == |s| || s[i] == c then i else Find(s, i + 1, c)
  }

  /** The first pair of stars from `i` on, or a position with no pair. */
  function FindStars(s: Text, i: nat): (r: nat)
    ensures i <= r && (r + 1 < |s| ==> s[r] == STAR && s[r + 1] == STAR)
    decreases |s| - i
  {
    if i + 1 < |s| && !(s[i] == STAR && s[i + 1] == STAR) then FindStars(s, i + 1) else i
  }

  /** An inline construct at the start of the text: its pieces and its length. */
  datatype Span = Span(pieces: seq<Piece>, size: nat)

  function Enclosed(name: Text, s: Text): seq<Piece> {
    [Tag(name), Plain(Escape(s)), Close(name)]
  }

  function Linked(url: Text, text: Text): seq<Piece> {
    [Tag(HREF + Escape(url) + [DOUBLE_QUOTE]), Plain(Escape(text)), Close(A)]
  }

  predicate IsBold(s: Text) {
    |s| > 1 && s[0] == STAR && s[1] == STAR && FindStars(s, 2) + 1 < |s|
  }

  predicate IsItalic(s: Text) {
    |s| > 1 && s[0] == STAR && s[1] != STAR && Find(s, 1, STAR) < |s|
  }

  predicate IsCode(s: Text) {
    |s| > 0 && s[0] == BACKTICK && Find(s, 1, BACKTICK) < |s|
  }

  predicate IsLink(s: Text) {
    && |s| > 0 && s[0] == OPEN_BRACKET
    && var end := Find(s, 1, CLOSE_BRACKET);
       end + 1 < |s| && s[end + 1] == OPEN_PAREN && Find(s, end + 2, CLOSE_PAREN) < |s|
  }

  function FirstSpan(s: Text): (r: Span)
    requires s != []
    ensures 0 < r.size <= |s|
  {
    if IsBold(s) then
      var end := FindStars(s, 2);
      Span(Enclosed(STRONG, s[2..end]), end + 2)
    else if IsItalic(s) then
      var end := Find(s, 1, STAR);
      Span(Enclosed(EM, s[1..end]), end + 1)
    else if IsCode(s) then
      var end := Find(s, 1, BACKTICK);
      Span(Enclosed(CODE, s[1..end]), end + 1)
    else if IsLink(s) then
      var end := Find(s, 1, CLOSE_BRACKET);
      var urlEnd := Find(s, end + 2, CLOSE_PAREN);
      Span(Linked(s[end + 2..urlEnd], s[1..end]), urlEnd + 1)
    else Span([Plain(EscapeByte(s[0]))], 1)
  }

  function Inline(s: Text): seq<Piece>
    decreases |s|
  {
    if s == [] then []
    else
      var span := FirstSpan(s);
      span.pieces + Inline(s[span.size..])
  }

  // ---- Lines ----

  /** The flags of the line loop. */
  datatype State = State(inCode: bool, inUl: bool, inOl: bool, inQuote: bool, first: bool)

  const START := State(false, false, false, false, true)

  /** At most one block is open. */
  predicate OneOpen(st: State) {
    && !(st.inCode && (st.inUl || st.inOl || st.inQuote))
    && !(st.inUl && (st.inOl || st.inQuote)) && !(st.inOl && st.inQuote)
  }

  function CloseIf(open: bool, name: Text): seq<Piece> {
    if open then [Close(name)] else []
  }

  function CloseLists(st: State): seq<Piece> {
    CloseIf(st.inUl, UL) + CloseIf(st.inOl, OL) + CloseIf(st.inQuote, BLOCKQUOTE)
  }

  function ListsClosed(st: State): State {
    st.(inUl := false, inOl := false, inQuote := false)
  }

  /** A newline before every block but the first. */
  function Separator(st: State): seq<Piece> {
    if st.first then [] else [Plain([NEWLINE])]
  }

  predicate IsFence(line: Text) {
    |line| >= 3 && line[0] == BACKTICK && line[1] == BACKTICK && line[2] == BACKTICK
  }

  /** Three or more of one of - * _, and spaces. */
  function RuleCount(line: Text, c: Byte, count: nat): nat {
    if line == [] then count
    else if line[0] == SPACE then RuleCount(line[1..], c, count)
    else if line[0] != MINUS && line[0] != STAR && line[0] != UNDERSCORE then 0
    else if c != 0 && line[0] != c then 0
    else RuleCount(line[1..], line[0], count + 1)
  }

  predicate IsRule(line: Text) {
    |line| >= 3 && RuleCount(line, 0, 0) >= 3
  }

  function HeadingLevel(line: Text, level: nat): (r: nat)
    requires level <= 6 && level <= |line|
    ensures level <= r <= 6 && r <= |line|
    decreases 6 - level
  {
    if level < |line| && line[level] == HASH && level < 6 then HeadingLevel(line, level + 1) else level
  }

  predicate IsHeading(line: Text) {
    && line != [] && line[0] == HASH
    && var level := HeadingLevel(line, 0);
       level < |line| && line[level] == SPACE
  }

  function HeadingTag(level: nat): Text
    requires level <= 6
  {
    [104, 48 + level]
  }

  function CountDigits(line: Text, i: nat): (r: nat)
    requires i <= |line|
    ensures i <= r <= |line|
    decreases |line| - i
  {
    if i < |line| && 48 <= line[i] <= 57 then CountDigits(line, i + 1) else i
  }

  predicate IsItem(line: Text) {
    |line| >= 2 && line[0] == MINUS && line[1] == SPACE
  }

  predicate IsNumbered(line: Text) {
    && line != [] && 49 <= line[0] <= 57
    && var j := CountDigits(line, 0);
       j + 1 < |line| && line[j] == DOT && line[j + 1] == SPACE
  }

  predicate IsQuoted(line: Text) {
    |line| >= 2 && line[0] == GREATER && line[1] == SPACE
  }

  function Element(name: Text, inner: seq<Piece>): seq<Piece> {
    [Tag(name)] + inner + [Close(name)]
  }

  /** A block on its own: whatever list is open is closed first. */
  function Block(st: State, body: seq<Piece>): (seq<Piece>, State) {
    (CloseLists(st) + Separator(st) + body, ListsClosed(st).(first := false))
  }

  function OpenIf(st: State, isOpen: bool, name: Text): seq<Piece> {
    if isOpen then [] else Separator(st) + [Tag(name)]
  }

  /** What one line adds to the output, and the flags after it. */
  function LineStep(st: State, line: Text): (seq<Piece>, State) {
    if IsFence(line) then
      if st.inCode then ([Close(CODE), Close(PRE)], st.(inCode := false))
      else
        var (pieces, next) := Block(st, [Tag(PRE), Tag(CODE)]);
        (pieces, next.(inCode := true))
    else if st.inCode then ([Plain(Escape(line)), Plain([NEWLINE])], st)
    else if line == [] then (CloseLists(st), ListsClosed(st))
    else if IsRule(line) then Block(st, [Tag(HR)])
    else if IsHeading(line) then
      var level := HeadingLevel(line, 0);
      Block(st, Element(HeadingTag(level), Inline(line[level + 1..])))
    else if IsItem(line) then
      (CloseIf(st.inOl, OL) + CloseIf(st.inQuote, BLOCKQUOTE) + OpenIf(st, st.inUl, UL) + Element(LI, Inline(line[2..])),
       st.(inUl := true, inOl := false, inQuote := false, first := st.first && st.inUl))
    else if IsNumbered(line) then
      var j := CountDigits(line, 0);
      (CloseIf(st.inUl, UL) + CloseIf(st.inQuote, BLOCKQUOTE) + OpenIf(st, st.inOl, OL) +
       Element(LI, Inline(line[j + 2..])),
       st.(inUl := false, inOl := true, inQuote := false, first := st.first && st.inOl))
    else if IsQuoted(line) then
      (CloseIf(st.inUl, UL) + CloseIf(st.inOl, OL) + OpenIf(st, st.inQuote, BLOCKQUOTE) + Inline(line[2..]),
       st.(inUl := false, inOl := false, inQuote := true, first := st.first && st.inQuote))
    else Block(st, Element(P, Inline(line)))
  }

  function CloseCode(st: State): seq<Piece> {
    if st.inCode then [Close(CODE), Close(PRE)] else []
  }

  /** The lines from here to the end, and the closing of what is still open. */
  function Lines(st: State, src: Text): seq<Piece>
    decreases |src|
  {
    if src == [] then CloseCode(st) + CloseLists(st)
    else
      var n := Find(src, 0, NEWLINE);
      var (pieces, next) := LineStep(st, src[..n]);
      pieces + Lines(next, src[if n < |src| then n + 1 else n..])
  }

  function Render(src: Text): Text {
    Flatten(Lines(START, src))
  }

  // ---- Reading the tags of HTML ----

  /** What stands between angle brackets, in order; nothing if the brackets do not pair up one by one. */
  function Tags(s: Text): Option<seq<Text>>
    decreases |s|
  {
    if s == [] then Some([])
    else if s[0] == GREATER then None
    else if s[0] != LESS then Tags(s[1..])
    else
      var end := Find(s, 1, GREATER);
      if end == |s| || Find(s, 1, LESS) < end then None
      else
        match Tags(s[end + 1..])
        case None => None
        case Some(ts) => Some([s[1..end]] + ts)
  }

  function TagName(tag: Text): Text {
    tag[..Find(tag, 0, SPACE)]
  }

  /** The open elements after a tag: a closing tag must close the innermost one, and a rule is empty. */
  function Apply(open: seq<Text>, tag: Text): Option<seq<Text>> {
    if tag != [] && tag[0] == SLASH then
      if open != [] && open[|open| - 1] == tag[1..] then Some(open[..|open| - 1]) else None
    else if tag == HR then Some(open)
    else Some(open + [TagName(tag)])
  }

  function Nest(open: seq<Text>, ts: seq<Text>): Option<seq<Text>>
    decreases |ts|
  {
    if ts == [] then Some(open)
    else
      match Apply(open, ts[0])
      case None => None
      case Some(open) => Nest(open, ts[1..])
  }

  lemma {:induction false} NestConcat(open: seq<Text>, a: seq<Text>, b: seq<Text>)
    requires Nest(open, a).Some?
    ensures Nest(open, a + b) == Nest(Nest(open, a).value, b)
    decreases |a|
  {
    hide Apply;
    if a == [] {
      assert a + b == b;
    } else {
      assert (a + b)[0] == a[0] && (a + b)[1..] == a[1..] + b;
      NestConcat(Apply(open, a[0]).value, a[1..], b);
    }
  }

  // ---- The brackets of the output are those of its tags ----

  function TagList(ps: seq<Piece>): seq<Text> {
    if ps == [] then [] else (if ps[0].Tag? then [ps[0].tag] else []) + TagList(ps[1..])
  }

  lemma {:induction false} TagListConcat(a: seq<Piece>, b: seq<Piece>)
    ensures TagList(a + b) == TagList(a) + TagList(b)
    decreases |a|
  {
    if a == [] {
      assert a + b == b;
    } else {
      assert (a + b)[0] == a[0] && (a + b)[1..] == a[1..] + b;
      TagListConcat(a[1..], b);
    }
  }

  predicate NoAngles(s: Text) {
    forall i :: 0 <= i < |s| ==> s[i] != LESS && s[i] != GREATER
  }

  predicate Clean(ps: seq<Piece>) {
    forall i :: 0 <= i < |ps| ==> NoAngles(if ps[i].Plain? then ps[i].text else ps[i].tag)
  }

  lemma {:induction false} FlattenConcat(a: seq<Piece>, b: seq<Piece>)
    ensures Flatten(a + b) == Flatten(a) + Flatten(b)
    decreases |b|
  {
    hide Bytes_;
    if b == [] {
      assert a + b == a;
    } else {
      assert (a + b)[..|a + b| - 1] == a + b[..|b| - 1];
      FlattenConcat(a, b[..|b| - 1]);
    }
  }

  lemma {:induction false} TagsPlain(text: Text, rest: Text)
    requires NoAngles(text)
    ensures Tags(text + rest) == Tags(rest)
    decreases |text|
  {
    if text == [] {
      assert text + rest == rest;
    } else {
      assert (text + rest)[0] == text[0] && (text + rest)[1..] == text[1..] + rest;
      TagsPlain(text[1..], rest);
    }
  }

  lemma {:induction false} FindPast(s: Text, i: nat, end: nat, c: Byte)
    requires i <= end < |s| && s[end] == c && forall j :: i <= j < end ==> s[j] != c
    ensures Find(s, i, c) == end
    decreases end - i
  {
    if i < end { FindPast(s, i + 1, end, c); }
  }

  lemma {:induction false} FindAfter(s: Text, i: nat, end: nat, c: Byte)
    requires i <= end <= |s| && forall j :: i <= j < end ==> s[j] != c
    ensures Find(s, i, c) >= end
    decreases end - i
  {
    if i < end { FindAfter(s, i + 1, end, c); }
  }

  lemma TagsTag(tag: Text, rest: Text)
    requires NoAngles(tag)
    ensures Tags([LESS] + tag + [GREATER] + rest) ==
            match Tags(rest) case None => None case Some(ts) => Some([tag] + ts)
  {
    hide Find;
    var s, end := [LESS] + tag + [GREATER] + rest, |tag| + 1;
    assert forall j :: 1 <= j < end ==> s[j] == tag[j - 1];
    FindPast(s, 1, end, GREATER);
    FindAfter(s, 1, end, LESS);
    assert s[1..end] == tag && s[end + 1..] == rest;
  }

  /** In the output of clean pieces every angle bracket belongs to a tag, and the tags are those emitted. */
  lemma {:induction false} TagsOfFlatten(ps: seq<Piece>)
    requires Clean(ps)
    ensures Tags(Flatten(ps)) == Some(TagList(ps))
    decreases |ps|
  {
    hide Tags;
    if ps == [] {
      TagsOfNothing();
    } else {
      var rest := Flatten(ps[1..]);
      assert ps == [ps[0]] + ps[1..];
      FlattenConcat([ps[0]], ps[1..]);
      FlattenOne(ps[0]);
      TagsOfFlatten(ps[1..]);
      if ps[0].Plain? {
        TagsPlain(ps[0].text, rest);
        assert TagList(ps) == TagList(ps[1..]);
      } else {
        TagsTag(ps[0].tag, rest);
      }
    }
  }

  lemma TagsOfNothing()
    ensures Tags([]) == Some([])
  {
  }

  lemma FlattenOne(p: Piece)
    ensures Flatten([p]) == Bytes_(p)
  {
    assert [p][..0] == [];
    assert [] + Bytes_(p) == Bytes_(p);
  }

  // ---- Escaped text ----

  lemma {:induction false} EscapedIsClean(s: Text)
    ensures NoAngles(Escape(s)) && forall i :: 0 <= i < |Escape(s)| ==> Escape(s)[i] != DOUBLE_QUOTE
    decreases |s|
  {
    hide EscapeByte;
    if s != [] {
      EscapedIsClean(s[..|s| - 1]);
      ByteIsClean(s[|s| - 1]);
    }
  }

  lemma ByteIsClean(c: Byte)
    ensures NoAngles(EscapeByte(c)) && forall i :: 0 <= i < |EscapeByte(c)| ==> EscapeByte(c)[i] != DOUBLE_QUOTE
  {
  }

  // ---- Tags that open and close ----

  /** The tag opens an element with this name. */
  predicate Opens(tag: Text, name: Text) {
    tag != [] && tag[0] != SLASH && tag != HR && TagName(tag) == name
  }

  predicate IsName(name: Text) {
    name != [] && name[0] != SLASH && name != HR && NoAngles(name) && forall i :: 0 <= i < |name| ==> name[i] != SPACE
  }

  lemma Names()
    ensures IsName(STRONG) && IsName(EM) && IsName(CODE) && IsName(A) && IsName(PRE) && IsName(UL) && IsName(OL)
    ensures IsName(LI) && IsName(P) && IsName(BLOCKQUOTE)
    ensures forall level: nat :: level <= 6 ==> IsName(HeadingTag(level))
    ensures NoAngles(HR) && NoAngles(HREF)
  {
  }

  lemma NameOpens(name: Text)
    requires IsName(name)
    ensures Opens(name, name) && NoAngles([SLASH] + name)
  {
    FindAfter(name, 0, |name|, SPACE);
  }

  lemma LinkOpens(url: Text)
    requires NoAngles(url)
    ensures Opens(HREF + url + [DOUBLE_QUOTE], A) && NoAngles(HREF + url + [DOUBLE_QUOTE])
  {
    var tag := HREF + url + [DOUBLE_QUOTE];
    Names();
    assert tag[0] == 97 && tag[1] == SPACE;
    FindPast(tag, 0, 1, SPACE);
    assert tag[..1] == A;
    assert forall i :: 0 <= i < |tag| ==>
      tag[i] == if i < |HREF| then HREF[i] else if i < |HREF| + |url| then url[i - |HREF|] else DOUBLE_QUOTE;
  }

  /** Pieces that leave the open elements as they are, whatever is open. */
  ghost predicate Neutral(ps: seq<Piece>) {
    Clean(ps) && forall open: seq<Text> :: Nest(open, TagList(ps)) == Some(open)
  }

  /** Pieces that change the open elements from `before` to `after`. */
  ghost predicate Changes(ps: seq<Piece>, before: seq<Text>, after: seq<Text>) {
    Clean(ps) && Nest(before, TagList(ps)) == Some(after)
  }

  lemma ChangesConcat(a: seq<Piece>, b: seq<Piece>, x: seq<Text>, y: seq<Text>, z: seq<Text>)
    requires Changes(a, x, y) && Changes(b, y, z)
    ensures Changes(a + b, x, z)
  {
    hide Nest;
    TagListConcat(a, b);
    NestConcat(x, TagList(a), TagList(b));
  }

  lemma NeutralChanges(ps: seq<Piece>, open: seq<Text>)
    requires Neutral(ps)
    ensures Changes(ps, open, open)
  {
  }

  lemma OpenChanges(tag: Text, name: Text, open: seq<Text>)
    requires Opens(tag, name) && NoAngles(tag)
    ensures Changes([Tag(tag)], open, open + [name])
  {
    var tags: seq<Text> := [tag];
    assert [Tag(tag)][1..] == [];
    assert TagList([Tag(tag)]) == tags && |tags[1..]| == 0;
  }

  lemma CloseChanges(name: Text, open: seq<Text>)
    requires IsName(name)
    ensures Changes([Close(name)], open + [name], open)
  {
    var tag: Text, tags: seq<Text> := [SLASH] + name, [[SLASH] + name];
    NameOpens(name);
    assert [Close(name)][1..] == [];
    assert TagList([Close(name)]) == tags;
    assert tag[1..] == name && (open + [name])[..|open|] == open && |tags[1..]| == 0;
  }

  lemma PlainIsNeutral(text: Text)
    requires NoAngles(text)
    ensures Neutral([Plain(text)])
  {
    var none: seq<Text> := [];
    assert [Plain(text)][1..] == [];
    assert TagList([Plain(text)]) == none;
  }

  lemma EmptyIsNeutral()
    ensures Neutral([])
  {
  }

  lemma NeutralConcat(a: seq<Piece>, b: seq<Piece>)
    requires Neutral(a) && Neutral(b)
    ensures Neutral(a + b)
  {
    hide Nest;
    forall open: seq<Text> ensures Nest(open, TagList(a + b)) == Some(open) {
      NeutralChanges(a, open);
      NeutralChanges(b, open);
      ChangesConcat(a, b, open, open, open);
    }
  }

  /** An element around neutral pieces. */
  lemma ElementIsNeutral(tag: Text, name: Text, inner: seq<Piece>)
    requires Opens(tag, name) && NoAngles(tag) && IsName(name) && Neutral(inner)
    ensures Neutral([Tag(tag)] + inner + [Close(name)])
  {
    hide Neutral, Nest, Opens, Clean;
    var ps := [Tag(tag)] + inner + [Close(name)];
    forall open: seq<Text> ensures Changes(ps, open, open) {
      OpenChanges(tag, name, open);
      NeutralChanges(inner, open + [name]);
      CloseChanges(name, open);
      ChangesConcat([Tag(tag)], inner, open, open + [name], open + [name]);
      ChangesConcat([Tag(tag)] + inner, [Close(name)], open, open + [name], open);
    }
    AlwaysChangesNothing(ps);
  }

  lemma AlwaysChangesNothing(ps: seq<Piece>)
    requires forall open: seq<Text> :: Changes(ps, open, open)
    ensures Neutral(ps)
  {
    assert Changes(ps, [], []);
    forall open: seq<Text> ensures Nest(open, TagList(ps)) == Some(open) { assert Changes(ps, open, open); }
  }

  lemma EnclosedIsNeutral(name: Text, s: Text)
    requires IsName(name)
    ensures Neutral(Enclosed(name, s))
  {
    hide Neutral, Escape;
    NameOpens(name);
    EscapedIsClean(s);
    PlainIsNeutral(Escape(s));
    ElementIsNeutral(name, name, [Plain(Escape(s))]);
    assert [Tag(name)] + [Plain(Escape(s))] + [Close(name)] == Enclosed(name, s);
  }

  lemma SpanIsNeutral(s: Text)
    requires s != []
    ensures Neutral(FirstSpan(s).pieces)
  {
    hide Neutral, Escape, EscapeByte, Enclosed, Find, FindStars;
    Names();
    if IsBold(s) {
      EnclosedIsNeutral(STRONG, s[2..FindStars(s, 2)]);
    } else if IsItalic(s) {
      EnclosedIsNeutral(EM, s[1..Find(s, 1, STAR)]);
    } else if IsCode(s) {
      EnclosedIsNeutral(CODE, s[1..Find(s, 1, BACKTICK)]);
    } else if IsLink(s) {
      var end := Find(s, 1, CLOSE_BRACKET);
      var urlEnd := Find(s, end + 2, CLOSE_PAREN);
      LinkIsNeutral(s[end + 2..urlEnd], s[1..end]);
    } else {
      ByteIsClean(s[0]);
      PlainIsNeutral(EscapeByte(s[0]));
    }
  }

  /** A link closes what it opens, and its tag is `a` with one attribute, which ends at the last quote: the escaped
      address has no quote and no angle bracket to end the attribute or the tag with. */
  lemma LinkIsNeutral(url: Text, text: Text)
    ensures Neutral(Linked(url, text))
    ensures Linked(url, text)[0] == Tag(HREF + Escape(url) + [DOUBLE_QUOTE])
    ensures DOUBLE_QUOTE !in Escape(url) && LESS !in Escape(url) && GREATER !in Escape(url)
  {
    hide Neutral, Escape;
    Names();
    EscapedIsClean(url);
    EscapedIsClean(text);
    LinkOpens(Escape(url));
    PlainIsNeutral(Escape(text));
    var tag := HREF + Escape(url) + [DOUBLE_QUOTE];
    ElementIsNeutral(tag, A, [Plain(Escape(text))]);
    assert [Tag(tag)] + [Plain(Escape(text))] + [Close(A)] == Linked(url, text);
  }

  /** Inline formatting closes everything it opens. */
  lemma {:induction false} InlineIsNeutral(s: Text)
    ensures Neutral(Inline(s))
    decreases |s|
  {
    hide Neutral, FirstSpan;
    if s == [] {
      EmptyIsNeutral();
    } else {
      SpanIsNeutral(s);
      InlineIsNeutral(s[FirstSpan(s).size..]);
      NeutralConcat(FirstSpan(s).pieces, Inline(s[FirstSpan(s).size..]));
    }
  }

  // ---- Lines ----

  /** The elements that are open between lines. */
  function OpenTags(st: State): seq<Text> {
    if st.inCode then [PRE, CODE]
    else if st.inUl then [UL]
    else if st.inOl then [OL]
    else if st.inQuote then [BLOCKQUOTE]
    else []
  }

  lemma CloseIfChanges(open: bool, name: Text)
    requires IsName(name)
    ensures Changes(CloseIf(open, name), if open then [name] else [], [])
  {
    if open {
      CloseChanges(name, []);
      assert [] + [name] == [name];
    }
  }

  lemma NothingChanges(open: seq<Text>)
    ensures Changes([], open, open)
  {
  }

  /** Closing the lists leaves nothing open. */
  lemma CloseListsChanges(st: State)
    requires OneOpen(st) && !st.inCode
    ensures Changes(CloseLists(st), OpenTags(st), [])
  {
    hide Changes;
    Names();
    TwoClose(st.inUl, UL, st.inOl, OL);
    CloseIfChanges(st.inQuote, BLOCKQUOTE);
    NothingChanges([]);
    NothingChanges(OpenTags(st));
    var a, b := CloseIf(st.inUl, UL) + CloseIf(st.inOl, OL), CloseIf(st.inQuote, BLOCKQUOTE);
    if st.inQuote {
      assert a == [] && [] + b == b;
    } else {
      assert b == [] && a + [] == a;
    }
  }

  /** Closing whichever of two elements is open. */
  lemma TwoClose(x: bool, nameX: Text, y: bool, nameY: Text)
    requires IsName(nameX) && IsName(nameY) && !(x && y)
    ensures Changes(CloseIf(x, nameX) + CloseIf(y, nameY), if x then [nameX] else if y then [nameY] else [], [])
  {
    hide Changes;
    CloseIfChanges(x, nameX);
    CloseIfChanges(y, nameY);
    if x {
      assert CloseIf(x, nameX) + [] == CloseIf(x, nameX);
    } else {
      assert [] + CloseIf(y, nameY) == CloseIf(y, nameY);
    }
  }

  lemma SeparatorIsNeutral(st: State)
    ensures Neutral(Separator(st))
  {
    hide Neutral;
    EmptyIsNeutral();
    PlainIsNeutral([NEWLINE]);
  }

  /** A neutral block leaves nothing open. */
  lemma BlockChanges(st: State, body: seq<Piece>, after: seq<Text>)
    requires OneOpen(st) && !st.inCode && Changes(body, [], after)
    ensures Changes(Block(st, body).0, OpenTags(st), after)
  {
    hide Changes, CloseLists, Separator, OpenTags, Neutral;
    CloseListsChanges(st);
    SeparatorIsNeutral(st);
    NeutralChanges(Separator(st), []);
    ChangesConcat(CloseLists(st), Separator(st), OpenTags(st), [], []);
    ChangesConcat(CloseLists(st) + Separator(st), body, OpenTags(st), [], after);
  }

  lemma NamedElementIsNeutral(name: Text, inner: seq<Piece>)
    requires IsName(name) && Neutral(inner)
    ensures Neutral(Element(name, inner))
  {
    hide Neutral;
    NameOpens(name);
    ElementIsNeutral(name, name, inner);
  }

  lemma CodeOpens()
    ensures Changes([Tag(PRE), Tag(CODE)], [], [PRE, CODE])
    ensures Changes([Close(CODE), Close(PRE)], [PRE, CODE], [])
  {
    hide Changes;
    Names();
    NameOpens(PRE);
    NameOpens(CODE);
    OpenChanges(PRE, PRE, []);
    OpenChanges(CODE, CODE, [PRE]);
    CloseChanges(CODE, [PRE]);
    CloseChanges(PRE, []);
    var none: seq<Text> := [];
    assert none + [PRE] == [PRE] && [PRE] + [CODE] == [PRE, CODE];
    ChangesConcat([Tag(PRE)], [Tag(CODE)], [], [PRE], [PRE, CODE]);
    ChangesConcat([Close(CODE)], [Close(PRE)], [PRE, CODE], [PRE], []);
    assert [Tag(PRE)] + [Tag(CODE)] == [Tag(PRE), Tag(CODE)];
    assert [Close(CODE)] + [Close(PRE)] == [Close(CODE), Close(PRE)];
  }

  lemma RuleIsNeutral()
    ensures Neutral([Tag(HR)])
  {
    var tags: seq<Text> := [HR];
    assert [Tag(HR)][1..] == [];
    assert TagList([Tag(HR)]) == tags && |tags[1..]| == 0;
  }

  lemma OpenIfChanges(st: State, isOpen: bool, name: Text)
    requires IsName(name)
    ensures Changes(OpenIf(st, isOpen, name), if isOpen then [name] else [], [name])
  {
    hide Changes, Separator, Neutral;
    NothingChanges([name]);
    SeparatorIsNeutral(st);
    NeutralChanges(Separator(st), []);
    NameOpens(name);
    OpenChanges(name, name, []);
    var none: seq<Text> := [];
    assert none + [name] == [name];
    ChangesConcat(Separator(st), [Tag(name)], [], [], [name]);
  }

  /** A line of a list: the other two kinds are closed and this one is opened unless it is open already. */
  lemma ListLineChanges(st: State, a: bool, nameA: Text, b: bool, nameB: Text, isOpen: bool, name: Text, body: seq<Piece>)
    requires IsName(nameA) && IsName(nameB) && IsName(name) && Neutral(body)
    requires !(a && b) && !(isOpen && (a || b))
    ensures Changes(CloseIf(a, nameA) + CloseIf(b, nameB) + OpenIf(st, isOpen, name) + body,
                    if a then [nameA] else if b then [nameB] else if isOpen then [name] else [], [name])
  {
    hide Changes, OpenIf, Neutral;
    var closing, opening := CloseIf(a, nameA) + CloseIf(b, nameB), OpenIf(st, isOpen, name);
    var before := if a then [nameA] else if b then [nameB] else if isOpen then [name] else [];
    OpenIfChanges(st, isOpen, name);
    NeutralChanges(body, [name]);
    if isOpen {
      assert closing + opening == opening;
    } else {
      TwoClose(a, nameA, b, nameB);
      ChangesConcat(closing, opening, before, [], [name]);
    }
    ChangesConcat(closing + opening, body, before, [name], [name]);
  }

  /** Every line keeps at most one block open, and its tags take the open elements from those of the flags
      before it to those of the flags after it. */
  lemma LineStepIsNested(st: State, line: Text)
    requires OneOpen(st)
    ensures OneOpen(LineStep(st, line).1)
    ensures Changes(LineStep(st, line).0, OpenTags(st), OpenTags(LineStep(st, line).1))
  {
    hide Changes, Neutral, Inline, Element, Escape, CloseIf, OpenIf, IsFence, IsRule, IsName, CloseLists, Separator;
    Names();
    if IsFence(line) {
      CodeOpens();
      if !st.inCode { BlockChanges(st, [Tag(PRE), Tag(CODE)], [PRE, CODE]); }
    } else if st.inCode {
      EscapedIsClean(line);
      PlainIsNeutral(Escape(line));
      PlainIsNeutral([NEWLINE]);
      NeutralConcat([Plain(Escape(line))], [Plain([NEWLINE])]);
      assert [Plain(Escape(line))] + [Plain([NEWLINE])] == [Plain(Escape(line)), Plain([NEWLINE])];
      NeutralChanges([Plain(Escape(line)), Plain([NEWLINE])], OpenTags(st));
    } else if line == [] {
      CloseListsChanges(st);
    } else if IsRule(line) {
      RuleIsNeutral();
      NeutralChanges([Tag(HR)], []);
      BlockChanges(st, [Tag(HR)], []);
    } else if IsHeading(line) {
      HeadingIsNested(st, line);
    } else if IsItem(line) || IsNumbered(line) || IsQuoted(line) {
      ListLineIsNested(st, line);
    } else {
      InlineIsNeutral(line);
      NamedElementIsNeutral(P, Inline(line));
      NeutralChanges(Element(P, Inline(line)), []);
      BlockChanges(st, Element(P, Inline(line)), []);
    }
  }

  lemma HeadingIsNested(st: State, line: Text)
    requires OneOpen(st) && !st.inCode && IsHeading(line)
    ensures var level := HeadingLevel(line, 0);
            Changes(Block(st, Element(HeadingTag(level), Inline(line[level + 1..]))).0, OpenTags(st), [])
  {
    hide Changes, Neutral, Inline, Element, IsName, Block;
    var level := HeadingLevel(line, 0);
    Names();
    InlineIsNeutral(line[level + 1..]);
    NamedElementIsNeutral(HeadingTag(level), Inline(line[level + 1..]));
    NeutralChanges(Element(HeadingTag(level), Inline(line[level + 1..])), []);
    BlockChanges(st, Element(HeadingTag(level), Inline(line[level + 1..])), []);
  }

  lemma ListLineIsNested(st: State, line: Text)
    requires OneOpen(st) && !st.inCode && line != [] && !IsFence(line) && !IsRule(line) && !IsHeading(line)
    requires IsItem(line) || IsNumbered(line) || IsQuoted(line)
    ensures Changes(LineStep(st, line).0, OpenTags(st), OpenTags(LineStep(st, line).1))
  {
    hide Changes, Neutral, Inline, Element, CloseIf, OpenIf, IsFence, IsRule, IsHeading, IsName, CloseLists, Separator;
    Names();
    if IsItem(line) {
      InlineIsNeutral(line[2..]);
      NamedElementIsNeutral(LI, Inline(line[2..]));
      ListLineChanges(st, st.inOl, OL, st.inQuote, BLOCKQUOTE, st.inUl, UL, Element(LI, Inline(line[2..])));
    } else if IsNumbered(line) {
      var inner := Inline(line[CountDigits(line, 0) + 2..]);
      InlineIsNeutral(line[CountDigits(line, 0) + 2..]);
      NamedElementIsNeutral(LI, inner);
      ListLineChanges(st, st.inUl, UL, st.inQuote, BLOCKQUOTE, st.inOl, OL, Element(LI, inner));
    } else {
      InlineIsNeutral(line[2..]);
      ListLineChanges(st, st.inUl, UL, st.inOl, OL, st.inQuote, BLOCKQUOTE, Inline(line[2..]));
    }
  }

  lemma EndCloses(st: State)
    requires OneOpen(st)
    ensures Changes(CloseCode(st) + CloseLists(st), OpenTags(st), [])
  {
    hide Changes, CloseIf;
    if st.inCode {
      CodeOpens();
      assert CloseLists(st) == [] by { ClosedListsAreEmpty(st); }
      assert CloseCode(st) + [] == CloseCode(st);
    } else {
      CloseListsChanges(st);
      assert [] + CloseLists(st) == CloseLists(st);
    }
  }

  lemma ClosedListsAreEmpty(st: State)
    requires OneOpen(st) && st.inCode
    ensures CloseLists(st) == []
  {
  }

  /** From any point of the source to the end, the output closes what is open there and all it opens. */
  lemma {:induction false} LinesAreNested(st: State, src: Text)
    requires OneOpen(st)
    ensures Changes(Lines(st, src), OpenTags(st), [])
    decreases |src|
  {
    hide Changes, LineStep, OneOpen, OpenTags, CloseCode, CloseLists;
    if src == [] {
      EndCloses(st);
    } else {
      var n := Find(src, 0, NEWLINE);
      var rest := src[if n < |src| then n + 1 else n..];
      var (pieces, next) := LineStep(st, src[..n]);
      LineStepIsNested(st, src[..n]);
      LinesAreNested(next, rest);
      ChangesConcat(pieces, Lines(next, rest), OpenTags(st), OpenTags(next), []);
    }
  }

  /** For every source text, the angle brackets of the output pair up into the emitted tags, every tag that
      opens an element is closed, and the elements are closed innermost first. */
  lemma RenderIsWellNested(src: Text)
    ensures Tags(Render(src)).Some?
    ensures Nest([], Tags(Render(src)).value) == Some([])
  {
    hide Tags, Nest, Lines;
    LinesAreNested(START, src);
    TagsOfFlatten(Lines(START, src));
  }
}
