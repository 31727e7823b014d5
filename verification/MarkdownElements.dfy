/** Which HTML each construct of Markdown gives (src/stdlib_markdown.c), written out as text: spans inside a line, the
    kinds of lines, and what a line closes and opens. */
module MarkdownElements {
  import opened Bytes
  import opened Markdown

  /** The bytes are these ASCII characters. */
  predicate Is(s: Text, text: string) {
    |s| == |text| && forall i :: 0 <= i < |s| ==> s[i] as int == text[i] as int
  }

  function Open(name: Text): Text {
    [60] + name + [62]
  }

  function End(name: Text): Text {
    [60, 47] + name + [62]
  }

  /** The names of the elements, the entities, and the angle brackets around names. */
  lemma NamesAre()
    ensures Is(STRONG, "strong") && Is(EM, "em") && Is(CODE, "code") && Is(HREF, "a href=\"") && Is(A, "a")
    ensures Is(PRE, "pre") && Is(UL, "ul") && Is(OL, "ol") && Is(LI, "li") && Is(P, "p") && Is(HR, "hr")
    ensures Is(BLOCKQUOTE, "blockquote") && Is(Open([]), "<>") && Is(End([]), "</>")
  {
  }

  lemma EntitiesAre()
    ensures Is(AMP_ENTITY, "&amp;") && Is(LT_ENTITY, "&lt;") && Is(GT_ENTITY, "&gt;")
    ensures Is(QUOT_ENTITY, "&quot;") && Is(APOS_ENTITY, "&#x27;")
  {
  }

  /** The text of some pieces. */
  function Html(ps: seq<Piece>): Text {
    Flatten(ps)
  }

  lemma HtmlOfTwo(a: seq<Piece>, b: seq<Piece>)
    ensures Html(a + b) == Html(a) + Html(b)
  {
    FlattenConcat(a, b);
  }

  lemma HtmlOfOne(p: Piece)
    ensures Html([p]) == match p case Plain(text) => text case Tag(tag) => [60] + tag + [62]
  {
    FlattenOne(p);
  }

  lemma HtmlOfNone()
    ensures Html([]) == []
  {
  }

  // ---- Characters ----

  /** The five characters with entities, and all others. */
  lemma Entities(c: Byte)
    ensures c == '&' as int ==> Is(EscapeByte(c), "&amp;")
    ensures c == '<' as int ==> Is(EscapeByte(c), "&lt;")
    ensures c == '>' as int ==> Is(EscapeByte(c), "&gt;")
    ensures c == '"' as int ==> Is(EscapeByte(c), "&quot;")
    ensures c == '\'' as int ==> Is(EscapeByte(c), "&#x27;")
    ensures c !in {'&' as int, '<' as int, '>' as int, '"' as int, '\'' as int} ==> EscapeByte(c) == [c]
  {
    hide Is;
    EntitiesAre();
  }

  /** Escaping goes character by character. */
  lemma {:induction false} EscapeConcat(s: Text, t: Text)
    ensures Escape(s + t) == Escape(s) + Escape(t)
    decreases |t|
  {
    hide EscapeByte;
    if t == [] {
      assert s + t == s;
    } else {
      assert (s + t)[..|s + t| - 1] == s + t[..|t| - 1];
      EscapeConcat(s, t[..|t| - 1]);
    }
  }

  // ---- Spans ----

  lemma EnclosedHtml(name: Text, x: Text)
    ensures Html(Enclosed(name, x)) == Open(name) + Escape(x) + End(name)
  {
    hide Escape;
    var a, b, c := Tag(name), Plain(Escape(x)), Close(name);
    assert Enclosed(name, x) == [a] + [b] + [c];
    HtmlOfTwo([a] + [b], [c]);
    HtmlOfTwo([a], [b]);
    HtmlOfOne(a);
    HtmlOfOne(b);
    HtmlOfOne(c);
    assert [60] + ([47] + name) + [62] == [60, 47] + name + [62];
  }

  /** What a span of the given length at the front of a line gives. */
  ghost predicate Gives(s: Text, html: Text, size: nat) {
    && 0 < size <= |s| && Html(Inline(s)) == html + Html(Inline(s[size..]))
  }

  lemma SpanGives(s: Text, pieces: seq<Piece>, size: nat)
    requires s != [] && FirstSpan(s) == Span(pieces, size)
    ensures Gives(s, Html(pieces), size)
  {
    hide FirstSpan;
    HtmlOfTwo(pieces, Inline(s[size..]));
  }

  /** No two stars in a row, also not with the first of those behind. */
  predicate NoPair(x: Text) {
    (forall j :: 0 <= j < |x| - 1 ==> !(x[j] == 42 && x[j + 1] == 42)) && (x != [] ==> x[|x| - 1] != 42)
  }

  lemma {:induction false} PairFound(s: Text, i: nat, end: nat)
    requires i <= end && end + 1 < |s| && s[end] == 42 && s[end + 1] == 42
    requires forall j :: i <= j < end ==> !(s[j] == 42 && s[j + 1] == 42)
    ensures FindStars(s, i) == end
    decreases end - i
  {
    if i < end { PairFound(s, i + 1, end); }
  }

  /** Where the parts of a text stand. */
  lemma Parts(a: Text, x: Text, b: Text, rest: Text)
    ensures var s, n := a + x + b + rest, |a| + |x|;
            && |s| == n + |b| + |rest|
            && (forall j :: 0 <= j < |a| ==> s[j] == a[j])
            && (forall j :: |a| <= j < n ==> s[j] == x[j - |a|])
            && (forall j :: n <= j < n + |b| ==> s[j] == b[j - n])
            && s[|a|..n] == x && s[n + |b|..] == rest
  {
  }

  /** **x** is strong. */
  lemma Bold(x: Text, rest: Text)
    requires NoPair(x)
    ensures Gives([42, 42] + x + [42, 42] + rest, Open(STRONG) + Escape(x) + End(STRONG), |x| + 4)
  {
    hide Inline, Escape, Enclosed, NoPair;
    var s := [42, 42] + x + [42, 42] + rest;
    Parts([42, 42], x, [42, 42], rest);
    BoldAt(s, x);
    SpanGives(s, Enclosed(STRONG, x), |x| + 4);
    EnclosedHtml(STRONG, x);
  }

  lemma BoldAt(s: Text, x: Text)
    requires NoPair(x) && |s| >= |x| + 4 && s[2..|x| + 2] == x
    requires s[0] == 42 && s[1] == 42 && s[|x| + 2] == 42 && s[|x| + 3] == 42
    ensures FirstSpan(s) == Span(Enclosed(STRONG, x), |x| + 4)
  {
    hide Enclosed;
    forall j | 2 <= j < |x| + 2 ensures !(s[j] == 42 && s[j + 1] == 42) {
      assert s[j] == s[2..|x| + 2][j - 2] && (j + 1 < |x| + 2 ==> s[j + 1] == s[2..|x| + 2][j - 1]);
    }
    PairFound(s, 2, |x| + 2);
  }

  /** *x* is em. */
  lemma Italic(x: Text, rest: Text)
    requires x != [] && 42 !in x
    ensures Gives([42] + x + [42] + rest, Open(EM) + Escape(x) + End(EM), |x| + 2)
  {
    hide Inline, Escape, Enclosed, FirstSpan;
    var s := [42] + x + [42] + rest;
    Parts([42], x, [42], rest);
    ItalicAt(s, x);
    SpanGives(s, Enclosed(EM, x), |x| + 2);
    EnclosedHtml(EM, x);
  }

  lemma ItalicAt(s: Text, x: Text)
    requires x != [] && 42 !in x && |s| >= |x| + 2 && s[1..|x| + 1] == x && s[0] == 42 && s[|x| + 1] == 42
    ensures FirstSpan(s) == Span(Enclosed(EM, x), |x| + 2)
  {
    hide Enclosed;
    forall j | 1 <= j < |x| + 1 ensures s[j] != 42 { assert s[1..|x| + 1][j - 1] in x; }
    FindPast(s, 1, |x| + 1, 42);
  }

  /** `x` is code. */
  lemma Code(x: Text, rest: Text)
    requires 96 !in x
    ensures Gives([96] + x + [96] + rest, Open(CODE) + Escape(x) + End(CODE), |x| + 2)
  {
    hide Inline, Escape, Enclosed, FirstSpan;
    var s := [96] + x + [96] + rest;
    Parts([96], x, [96], rest);
    CodeAt(s, x);
    SpanGives(s, Enclosed(CODE, x), |x| + 2);
    EnclosedHtml(CODE, x);
  }

  lemma CodeAt(s: Text, x: Text)
    requires 96 !in x && |s| >= |x| + 2 && s[1..|x| + 1] == x && s[0] == 96 && s[|x| + 1] == 96
    ensures FirstSpan(s) == Span(Enclosed(CODE, x), |x| + 2)
  {
    hide Enclosed;
    forall j | 1 <= j < |x| + 1 ensures s[j] != 96 { assert s[1..|x| + 1][j - 1] in x; }
    FindPast(s, 1, |x| + 1, 96);
  }

  /** [x](u) is a link to u. */
  lemma Link(x: Text, u: Text, rest: Text)
    requires 93 !in x && 41 !in u
    ensures Gives([91] + x + [93, 40] + (u + [41] + rest), Open(HREF + Escape(u) + [34]) + Escape(x) + End(A), |x| + |u| + 4)
  {
    hide *;
    LinkParts(x, u, rest);
    LinkGives([91] + x + [93, 40] + (u + [41] + rest), x, u);
  }

  lemma LinkGives(s: Text, x: Text, u: Text)
    requires 93 !in x && 41 !in u && |s| >= |x| + |u| + 4
    requires s[0] == 91 && s[1..|x| + 1] == x && s[|x| + 1] == 93 && s[|x| + 2] == 40
    requires s[|x| + 3..|x| + 3 + |u|] == u && s[|x| + 3 + |u|] == 41
    ensures Gives(s, Open(HREF + Escape(u) + [34]) + Escape(x) + End(A), |x| + |u| + 4)
  {
    hide *;
    LinkAt(s, x, u);
    SpanGives(s, Linked(u, x), |x| + |u| + 4);
    LinkHtml(u, x);
  }

  lemma LinkParts(x: Text, u: Text, rest: Text)
    ensures var s := [91] + x + [93, 40] + (u + [41] + rest);
            && |s| >= |x| + |u| + 4
            && s[0] == 91 && s[1..|x| + 1] == x && s[|x| + 1] == 93 && s[|x| + 2] == 40
            && s[|x| + 3..|x| + 3 + |u|] == u && s[|x| + 3 + |u|] == 41
  {
    var s, tail := [91] + x + [93, 40] + (u + [41] + rest), u + [41] + rest;
    Parts([91], x, [93, 40], tail);
    UrlAt(s, |x| + 3, u, rest);
  }

  lemma UrlAt(s: Text, from: nat, u: Text, rest: Text)
    requires from <= |s| && s[from..] == u + [41] + rest
    ensures from + |u| < |s| && s[from..from + |u|] == u && s[from + |u|] == 41
  {
    assert s[from..][..|u|] == u && s[from..][|u|] == 41;
  }

  lemma LinkAt(s: Text, x: Text, u: Text)
    requires 93 !in x && 41 !in u && |s| >= |x| + |u| + 4
    requires s[0] == 91 && s[1..|x| + 1] == x && s[|x| + 1] == 93 && s[|x| + 2] == 40
    requires s[|x| + 3..|x| + 3 + |u|] == u && s[|x| + 3 + |u|] == 41
    ensures FirstSpan(s) == Span(Linked(u, x), |x| + |u| + 4)
  {
    hide Linked;
    var n := |x| + 1;
    forall j | 1 <= j < n ensures s[j] != 93 { assert s[1..n][j - 1] in x; }
    FindPast(s, 1, n, 93);
    forall j | n + 2 <= j < n + 2 + |u| ensures s[j] != 41 { assert s[n + 2..n + 2 + |u|][j - (n + 2)] in u; }
    FindPast(s, n + 2, n + 2 + |u|, 41);
  }

  lemma LinkHtml(u: Text, x: Text)
    ensures Html(Linked(u, x)) == Open(HREF + Escape(u) + [34]) + Escape(x) + End(A)
  {
    hide Escape;
    var a, b, c := Tag(HREF + Escape(u) + [DOUBLE_QUOTE]), Plain(Escape(x)), Close(A);
    assert Linked(u, x) == [a] + [b] + [c];
    HtmlOfTwo([a] + [b], [c]);
    HtmlOfTwo([a], [b]);
    HtmlOfOne(a);
    HtmlOfOne(b);
    HtmlOfOne(c);
    assert [60] + ([47] + A) + [62] == [60, 47] + A + [62];
  }

  /** Any character but a star, a backtick or an opening bracket is only escaped. */
  lemma Other(c: Byte, rest: Text)
    requires c != 42 && c != 96 && c != 91
    ensures Gives([c] + rest, EscapeByte(c), 1)
  {
    hide Inline, EscapeByte, Find, FindStars;
    SpanGives([c] + rest, [Plain(EscapeByte(c))], 1);
    HtmlOfOne(Plain(EscapeByte(c)));
  }

  /** A star, a backtick or an opening bracket that nothing closes stays as it is. */
  lemma Lonely(c: Byte, rest: Text)
    requires ((c == 42 || c == 96) && c !in rest) || (c == 91 && 93 !in rest)
    ensures Gives([c] + rest, [c], 1)
  {
    hide Inline, Enclosed, Linked;
    var s, close := [c] + rest, if c == 91 then 93 else c;
    forall j | 1 <= j < |s| ensures s[j] != close { assert s[j] == rest[j - 1]; }
    assert FindStars(s, 2) + 1 < |s| ==> s[FindStars(s, 2)] == 42;
    FindAfter(s, 1, |s|, close);
    SpanGives(s, [Plain([c])], 1);
    HtmlOfOne(Plain([c]));
  }

  /** A text without these three is escaped as it is. */
  lemma {:induction false} PlainText(t: Text)
    requires forall c :: c in t ==> c != 42 && c != 96 && c != 91
    ensures Html(Inline(t)) == Escape(t)
    decreases |t|
  {
    hide EscapeByte;
    if t == [] {
      HtmlOfNone();
    } else {
      assert t == [t[0]] + t[1..] && t[0] in t && forall c :: c in t[1..] ==> c in t;
      Other(t[0], t[1..]);
      assert ([t[0]] + t[1..])[1..] == t[1..];
      PlainText(t[1..]);
      EscapeConcat([t[0]], t[1..]);
      EscapeOne(t[0]);
    }
  }

  lemma EscapeOne(c: Byte)
    ensures Escape([c]) == EscapeByte(c)
  {
    hide EscapeByte;
    assert [c][..0] == [] && Escape([]) == [];
  }

  // ---- Lines ----

  /** The closing tags of the lists that are open, but for those that go on. */
  function Leaving(st: State, ul: bool, ol: bool, quote: bool): Text {
    (if st.inUl && !ul then End(UL) else []) + (if st.inOl && !ol then End(OL) else []) +
    (if st.inQuote && !quote then End(BLOCKQUOTE) else [])
  }

  /** A newline before every block but the first. */
  function NewBlock(st: State): Text {
    if st.first then [] else [10]
  }

  function Wrapped(name: Text, html: Text): Text {
    Open(name) + html + End(name)
  }

  /** What a line adds, and the flags behind it. */
  ghost predicate LineGives(st: State, line: Text, html: Text, next: State) {
    Html(LineStep(st, line).0) == html && LineStep(st, line).1 == next
  }

  /** The flags when no list is open. */
  function NoLists(st: State): State {
    State(st.inCode, false, false, false, false)
  }

  lemma CloseIfHtml(open: bool, name: Text)
    ensures Html(CloseIf(open, name)) == if open then End(name) else []
  {
    HtmlOfNone();
    HtmlOfOne(Close(name));
    assert [60] + ([47] + name) + [62] == [60, 47] + name + [62];
  }

  lemma CloseListsHtml(st: State)
    ensures Html(CloseLists(st)) == Leaving(st, false, false, false)
  {
    hide Flatten, End, CloseIf, Html;
    HtmlOfTwo(CloseIf(st.inUl, UL) + CloseIf(st.inOl, OL), CloseIf(st.inQuote, BLOCKQUOTE));
    HtmlOfTwo(CloseIf(st.inUl, UL), CloseIf(st.inOl, OL));
    CloseIfHtml(st.inUl, UL);
    CloseIfHtml(st.inOl, OL);
    CloseIfHtml(st.inQuote, BLOCKQUOTE);
  }

  lemma SeparatorHtml(st: State)
    ensures Html(Separator(st)) == NewBlock(st)
  {
    HtmlOfNone();
    HtmlOfOne(Plain([10]));
  }

  lemma BlockHtml(st: State, body: seq<Piece>)
    ensures Html(Block(st, body).0) == Leaving(st, false, false, false) + NewBlock(st) + Html(body)
    ensures Block(st, body).1 == NoLists(st)
  {
    hide Html, CloseLists, Separator, Leaving, NewBlock;
    HtmlOfTwo(CloseLists(st) + Separator(st), body);
    HtmlOfTwo(CloseLists(st), Separator(st));
    CloseListsHtml(st);
    SeparatorHtml(st);
  }

  lemma ElementHtml(name: Text, inner: seq<Piece>)
    ensures Html(Element(name, inner)) == Wrapped(name, Html(inner))
  {
    hide Flatten, Html;
    HtmlOfTwo([Tag(name)] + inner, [Close(name)]);
    HtmlOfTwo([Tag(name)], inner);
    HtmlOfOne(Tag(name));
    HtmlOfOne(Close(name));
    assert [60] + ([47] + name) + [62] == [60, 47] + name + [62];
  }

  // ---- Which line is which ----

  /** Three or more of one of - * _, and otherwise spaces only. */
  ghost predicate IsRuleText(line: Text) {
    exists c: Byte :: RuleOf(line, c)
  }

  predicate RuleOf(line: Text, c: Byte) {
    (c == 45 || c == 42 || c == 95) && (forall i :: 0 <= i < |line| ==> line[i] == c || line[i] == 32) && multiset(line)[c] >= 3
  }

  /** The rest of a line of which `count` are found; 0 stands for none yet. */
  lemma {:induction false} RuleCounts(line: Text, c: Byte, count: nat)
    requires c == 45 || c == 42 || c == 95
    ensures var ok := forall i :: 0 <= i < |line| ==> line[i] == c || line[i] == 32;
            RuleCount(line, c, count) == if ok then count + multiset(line)[c] else 0
    decreases |line|
  {
    if line != [] {
      RuleCounts(line[1..], c, if line[0] == 32 then count else count + 1);
      assert line == [line[0]] + line[1..];
      assert forall i :: 0 <= i < |line| - 1 ==> line[1..][i] == line[i + 1];
      assert forall i :: 1 <= i < |line| ==> line[i] == line[1..][i - 1];
    }
  }

  lemma {:induction false} RuleStarts(line: Text)
    ensures RuleCount(line, 0, 0) >= 3 <==> IsRuleText(line)
    decreases |line|
  {
    if line == [] {
    } else if line[0] == 32 {
      RuleStarts(line[1..]);
      assert line == [line[0]] + line[1..];
      forall c: Byte ensures RuleOf(line, c) <==> RuleOf(line[1..], c) { SpaceBefore(line, c); }
    } else {
      RuleStartsWith(line);
    }
  }

  lemma SpaceBefore(line: Text, c: Byte)
    requires line != [] && line[0] == 32
    ensures RuleOf(line, c) <==> RuleOf(line[1..], c)
  {
    assert line == [line[0]] + line[1..];
    assert forall i :: 0 <= i < |line| - 1 ==> line[1..][i] == line[i + 1];
    assert forall i :: 1 <= i < |line| ==> line[i] == line[1..][i - 1];
  }

  lemma RuleStartsWith(line: Text)
    requires line != [] && line[0] != 32
    ensures RuleCount(line, 0, 0) >= 3 <==> IsRuleText(line)
  {
    var c := line[0];
    assert forall d: Byte :: RuleOf(line, d) ==> d == c;
    if c == 45 || c == 42 || c == 95 {
      RuleCounts(line[1..], c, 1);
      assert line == [c] + line[1..];
      assert forall i :: 0 <= i < |line| - 1 ==> line[1..][i] == line[i + 1];
      assert forall i :: 1 <= i < |line| ==> line[i] == line[1..][i - 1];
      assert RuleOf(line, c) <==> RuleCount(line, 0, 0) >= 3;
    }
  }

  lemma RuleIff(line: Text)
    ensures IsRule(line) <==> IsRuleText(line)
  {
    hide RuleCount;
    RuleStarts(line);
    forall c: Byte | RuleOf(line, c) ensures |line| >= 3 { assert multiset(line)[c] <= |multiset(line)|; }
  }

  /** n hashes and a space. */
  predicate HeadingOf(line: Text, n: nat) {
    1 <= n <= 6 && n < |line| && line[n] == 32 && forall j :: 0 <= j < n ==> line[j] == 35
  }

  lemma {:induction false} LevelIs(line: Text, n: nat, from: nat)
    requires HeadingOf(line, n) && from <= n
    ensures HeadingLevel(line, from) == n
    decreases n - from
  {
    if from < n { LevelIs(line, n, from + 1); }
  }

  lemma {:induction false} LevelHashes(line: Text, from: nat)
    requires from <= 6 && from <= |line| && forall j :: 0 <= j < from ==> line[j] == 35
    ensures forall j :: 0 <= j < HeadingLevel(line, from) ==> line[j] == 35
    decreases 6 - from
  {
    if from < |line| && line[from] == 35 && from < 6 { LevelHashes(line, from + 1); }
  }

  lemma HeadingIff(line: Text)
    ensures IsHeading(line) <==> exists n: nat :: HeadingOf(line, n)
    ensures forall n: nat :: HeadingOf(line, n) ==> HeadingLevel(line, 0) == n
  {
    hide HeadingLevel;
    forall n: nat | HeadingOf(line, n) ensures HeadingLevel(line, 0) == n { LevelIs(line, n, 0); }
    LevelHashes(line, 0);
    if IsHeading(line) {
      OneHash(line);
      assert HeadingOf(line, HeadingLevel(line, 0));
    }
  }

  lemma OneHash(line: Text)
    requires line != [] && line[0] == 35
    ensures HeadingLevel(line, 0) >= 1
  {
  }

  /** A number that does not start with 0, a dot and a space. */
  predicate NumberOf(line: Text, j: nat) {
    && 1 <= j && j + 1 < |line| && line[j] == 46 && line[j + 1] == 32 && line[0] != 48
    && forall i :: 0 <= i < j ==> 48 <= line[i] <= 57
  }

  lemma {:induction false} DigitsAre(line: Text, j: nat, from: nat)
    requires from <= j < |line| && !(48 <= line[j] <= 57) && forall i :: from <= i < j ==> 48 <= line[i] <= 57
    ensures CountDigits(line, from) == j
    decreases j - from
  {
    if from < j { DigitsAre(line, j, from + 1); }
  }

  lemma {:induction false} DigitsBefore(line: Text, from: nat)
    requires from <= |line|
    ensures forall i :: from <= i < CountDigits(line, from) ==> 48 <= line[i] <= 57
    decreases |line| - from
  {
    if from < |line| && 48 <= line[from] <= 57 { DigitsBefore(line, from + 1); }
  }

  lemma NumberedIff(line: Text)
    ensures IsNumbered(line) <==> exists j: nat :: NumberOf(line, j)
    ensures forall j: nat :: NumberOf(line, j) ==> CountDigits(line, 0) == j
  {
    hide CountDigits;
    forall j: nat | NumberOf(line, j) ensures CountDigits(line, 0) == j { DigitsAre(line, j, 0); }
    DigitsBefore(line, 0);
    if IsNumbered(line) {
      OneDigit(line);
      assert NumberOf(line, CountDigits(line, 0));
    }
    if j: nat :| NumberOf(line, j) { assert 48 <= line[0] <= 57; }
  }

  lemma OneDigit(line: Text)
    requires line != [] && 48 <= line[0] <= 57
    ensures CountDigits(line, 0) >= 1
  {
  }

  /** Three backticks. */
  predicate FenceText(line: Text) {
    |line| >= 3 && line[..3] == [96, 96, 96]
  }

  predicate StartsWith(line: Text, c: Byte) {
    |line| >= 2 && line[0] == c && line[1] == 32
  }

  lemma FenceIff(line: Text)
    ensures IsFence(line) <==> FenceText(line)
    ensures FenceText(line) ==> !IsRuleText(line)
  {
    if |line| >= 3 {
      assert line[..3] == [line[0], line[1], line[2]];
      assert IsRuleText(line) ==> line[0] != 96;
    }
  }

  // ---- What each line gives ----

  /** n hashes give hn. */
  lemma Heading(st: State, line: Text, n: nat)
    requires !st.inCode && HeadingOf(line, n)
    ensures LineGives(st, line, Leaving(st, false, false, false) + NewBlock(st) +
                                Wrapped(['h' as int, '0' as int + n], Html(Inline(line[n + 1..]))), NoLists(st))
  {
    hide Html, Leaving, NewBlock, Wrapped, Inline, Block, IsRule, HeadingLevel, IsHeading;
    HeadingIff(line);
    RuleIff(line);
    NoRuleWith(line, 35);
    BlockHtml(st, Element(HeadingTag(n), Inline(line[n + 1..])));
    ElementHtml(HeadingTag(n), Inline(line[n + 1..]));
  }

  lemma NoRuleWith(line: Text, c: Byte)
    requires line != [] && line[0] == c && c != 32 && c != 45 && c != 42 && c != 95
    ensures !IsRuleText(line)
  {
  }

  /** A rule is hr alone. */
  lemma Rule(st: State, line: Text)
    requires !st.inCode && IsRuleText(line)
    ensures LineGives(st, line, Leaving(st, false, false, false) + NewBlock(st) + Open(HR), NoLists(st))
  {
    hide Html, Leaving, NewBlock, Block, IsRule, IsRuleText;
    RuleIff(line);
    FenceIff(line);
    SomeRule(line);
    BlockHtml(st, [Tag(HR)]);
    HtmlOfOne(Tag(HR));
  }

  lemma SomeRule(line: Text)
    requires IsRuleText(line)
    ensures line != []
  {
  }

  lemma OpenIfHtml(st: State, isOpen: bool, name: Text)
    ensures Html(OpenIf(st, isOpen, name)) == if isOpen then [] else NewBlock(st) + Open(name)
  {
    hide Flatten, Html, NewBlock, Separator;
    HtmlOfNone();
    HtmlOfTwo(Separator(st), [Tag(name)]);
    SeparatorHtml(st);
    HtmlOfOne(Tag(name));
  }

  /** - and a space give an item of an unordered list, which is opened if it is not open. */
  lemma Item(st: State, line: Text)
    requires !st.inCode && StartsWith(line, 45) && !IsRuleText(line)
    ensures LineGives(st, line, Leaving(st, true, false, false) + (if st.inUl then [] else NewBlock(st) + Open(UL)) +
                                Wrapped(LI, Html(Inline(line[2..]))), State(false, true, false, false, st.first && st.inUl))
  {
    hide Html, NewBlock, Wrapped, Inline, CloseIf, OpenIf, Element, End, LineStep, IsRuleText;
    ItemStep(st, line);
    FourHtml(CloseIf(st.inOl, OL), CloseIf(st.inQuote, BLOCKQUOTE), OpenIf(st, st.inUl, UL), Element(LI, Inline(line[2..])));
    CloseIfHtml(st.inOl, OL);
    CloseIfHtml(st.inQuote, BLOCKQUOTE);
    OpenIfHtml(st, st.inUl, UL);
    ElementHtml(LI, Inline(line[2..]));
  }

  lemma ItemStep(st: State, line: Text)
    requires !st.inCode && StartsWith(line, 45) && !IsRuleText(line)
    ensures LineStep(st, line).0
         == CloseIf(st.inOl, OL) + CloseIf(st.inQuote, BLOCKQUOTE) + OpenIf(st, st.inUl, UL) + Element(LI, Inline(line[2..]))
    ensures LineStep(st, line).1 == State(false, true, false, false, st.first && st.inUl)
  {
    hide Inline, IsRule, CloseIf, OpenIf, Element, IsRuleText;
    RuleIff(line);
  }

  lemma FourHtml(a: seq<Piece>, b: seq<Piece>, c: seq<Piece>, d: seq<Piece>)
    ensures Html(a + b + c + d) == Html(a) + Html(b) + Html(c) + Html(d)
  {
    hide Html;
    HtmlOfTwo(a + b + c, d);
    HtmlOfTwo(a + b, c);
    HtmlOfTwo(a, b);
  }

  /** A number, a dot and a space give an item of an ordered list. */
  lemma Numbered(st: State, line: Text, j: nat)
    requires !st.inCode && NumberOf(line, j)
    ensures LineGives(st, line, Leaving(st, false, true, false) + (if st.inOl then [] else NewBlock(st) + Open(OL)) +
                                Wrapped(LI, Html(Inline(line[j + 2..]))), State(false, false, true, false, st.first && st.inOl))
  {
    hide Html, NewBlock, Wrapped, Inline, CloseIf, OpenIf, Element, End, LineStep;
    NumberedStep(st, line, j);
    FourHtml(CloseIf(st.inUl, UL), CloseIf(st.inQuote, BLOCKQUOTE), OpenIf(st, st.inOl, OL), Element(LI, Inline(line[j + 2..])));
    CloseIfHtml(st.inUl, UL);
    CloseIfHtml(st.inQuote, BLOCKQUOTE);
    OpenIfHtml(st, st.inOl, OL);
    ElementHtml(LI, Inline(line[j + 2..]));
  }

  lemma NumberedStep(st: State, line: Text, j: nat)
    requires !st.inCode && NumberOf(line, j)
    ensures LineStep(st, line).0
         == CloseIf(st.inUl, UL) + CloseIf(st.inQuote, BLOCKQUOTE) + OpenIf(st, st.inOl, OL) + Element(LI, Inline(line[j + 2..]))
    ensures LineStep(st, line).1 == State(false, false, true, false, st.first && st.inOl)
  {
    hide Inline, IsRule, CloseIf, OpenIf, Element, CountDigits, IsNumbered;
    NumberedIff(line);
    RuleIff(line);
    assert 48 <= line[0] <= 57;
    NoRuleWith(line, line[0]);
  }

  /** > and a space give a line of a quotation. */
  lemma Quoted(st: State, line: Text)
    requires !st.inCode && StartsWith(line, 62)
    ensures LineGives(st, line, Leaving(st, false, false, true) + (if st.inQuote then [] else NewBlock(st) + Open(BLOCKQUOTE)) +
                                Html(Inline(line[2..])), State(false, false, false, true, st.first && st.inQuote))
  {
    hide Html, NewBlock, Inline, CloseIf, OpenIf, End, LineStep;
    QuotedStep(st, line);
    FourHtml(CloseIf(st.inUl, UL), CloseIf(st.inOl, OL), OpenIf(st, st.inQuote, BLOCKQUOTE), Inline(line[2..]));
    CloseIfHtml(st.inUl, UL);
    CloseIfHtml(st.inOl, OL);
    OpenIfHtml(st, st.inQuote, BLOCKQUOTE);
  }

  lemma QuotedStep(st: State, line: Text)
    requires !st.inCode && StartsWith(line, 62)
    ensures LineStep(st, line).0
         == CloseIf(st.inUl, UL) + CloseIf(st.inOl, OL) + OpenIf(st, st.inQuote, BLOCKQUOTE) + Inline(line[2..])
    ensures LineStep(st, line).1 == State(false, false, false, true, st.first && st.inQuote)
  {
    hide Inline, IsRule, CloseIf, OpenIf;
    RuleIff(line);
    NoRuleWith(line, 62);
  }

  /** Three backticks open a block of code, and close it. */
  lemma Fence(st: State, line: Text)
    requires FenceText(line)
    ensures !st.inCode ==>
              LineGives(st, line, Leaving(st, false, false, false) + NewBlock(st) + Open(PRE) + Open(CODE),
                        State(true, false, false, false, false))
    ensures st.inCode ==> LineGives(st, line, End(CODE) + End(PRE), st.(inCode := false))
  {
    hide Html, NewBlock, Leaving, Block, IsFence;
    FenceIff(line);
    BlockHtml(st, [Tag(PRE), Tag(CODE)]);
    assert [Tag(PRE), Tag(CODE)] == [Tag(PRE)] + [Tag(CODE)] && [Close(CODE), Close(PRE)] == [Close(CODE)] + [Close(PRE)];
    HtmlOfTwo([Tag(PRE)], [Tag(CODE)]);
    HtmlOfTwo([Close(CODE)], [Close(PRE)]);
    HtmlOfOne(Tag(PRE));
    HtmlOfOne(Tag(CODE));
    HtmlOfOne(Close(CODE));
    HtmlOfOne(Close(PRE));
    assert [60] + ([47] + CODE) + [62] == End(CODE) && [60] + ([47] + PRE) + [62] == End(PRE);
  }

  /** A line of code is only escaped. */
  lemma CodeLine(st: State, line: Text)
    requires st.inCode && !FenceText(line)
    ensures LineGives(st, line, Escape(line) + [10], st)
  {
    hide Html, Escape, IsFence;
    FenceIff(line);
    assert [Plain(Escape(line)), Plain([NEWLINE])] == [Plain(Escape(line))] + [Plain([NEWLINE])];
    HtmlOfTwo([Plain(Escape(line))], [Plain([NEWLINE])]);
    HtmlOfOne(Plain(Escape(line)));
    HtmlOfOne(Plain([NEWLINE]));
  }

  /** An empty line closes what is open. */
  lemma EmptyLine(st: State)
    requires !st.inCode
    ensures LineGives(st, [], Leaving(st, false, false, false), st.(inUl := false, inOl := false, inQuote := false))
  {
    hide Html, Leaving, CloseLists;
    CloseListsHtml(st);
  }

  /** Every other line is a paragraph. */
  lemma Paragraph(st: State, line: Text)
    requires !st.inCode && line != [] && !FenceText(line) && !IsRuleText(line) && !StartsWith(line, 45) && !StartsWith(line, 62)
    requires (forall n: nat :: !HeadingOf(line, n)) && (forall j: nat :: !NumberOf(line, j))
    ensures LineGives(st, line, Leaving(st, false, false, false) + NewBlock(st) + Wrapped(P, Html(Inline(line))), NoLists(st))
  {
    hide Html, Leaving, NewBlock, Wrapped, Inline, Block, IsRule, IsHeading, IsNumbered, IsRuleText, IsFence;
    FenceIff(line);
    RuleIff(line);
    HeadingIff(line);
    NumberedIff(line);
    BlockHtml(st, Element(P, Inline(line)));
    ElementHtml(P, Inline(line));
  }

  // ---- Documents ----

  /** A document line by line. */
  lemma OneMoreLine(st: State, line: Text, rest: Text, html: Text, next: State)
    requires 10 !in line && LineGives(st, line, html, next)
    ensures Html(Lines(st, line + [10] + rest)) == html + Html(Lines(next, rest))
    ensures line != [] ==> Html(Lines(st, line)) == html + Html(Lines(next, []))
  {
    hide LineStep, Html;
    var src := line + [10] + rest;
    assert forall j :: 0 <= j < |line| ==> src[j] in line;
    FindPast(src, 0, |line|, 10);
    assert src[..|line|] == line && src[|line| + 1..] == rest;
    HtmlOfTwo(LineStep(st, line).0, Lines(next, rest));
    if line != [] {
      assert forall j :: 0 <= j < |line| ==> line[j] in line;
      FindAfter(line, 0, |line|, 10);
      assert line[..|line|] == line && line[|line|..] == [];
      HtmlOfTwo(LineStep(st, line).0, Lines(next, []));
    }
  }

  /** What is open at the end is closed. */
  lemma LastLine(st: State)
    ensures Html(Lines(st, [])) == (if st.inCode then End(CODE) + End(PRE) else []) + Leaving(st, false, false, false)
  {
    hide Html, CloseLists, Leaving, End;
    HtmlOfTwo(CloseCode(st), CloseLists(st));
    CloseListsHtml(st);
    CloseCodeHtml(st);
  }

  lemma CloseCodeHtml(st: State)
    ensures Html(CloseCode(st)) == if st.inCode then End(CODE) + End(PRE) else []
  {
    hide Html, Flatten;
    HtmlOfNone();
    assert [Close(CODE), Close(PRE)] == [Close(CODE)] + [Close(PRE)];
    HtmlOfTwo([Close(CODE)], [Close(PRE)]);
    HtmlOfOne(Close(CODE));
    HtmlOfOne(Close(PRE));
    assert [60] + ([47] + CODE) + [62] == End(CODE) && [60] + ([47] + PRE) + [62] == End(PRE);
  }

  /** A document starts with nothing open. */
  lemma FirstLine(src: Text)
    ensures Render(src) == Html(Lines(State(false, false, false, false, true), src))
  {
  }
}
