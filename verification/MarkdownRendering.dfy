/** The Markdown renderer as it runs: a buffer that grows, scanning loops, and a loop over lines with flags. */
module MarkdownRendering {
  import opened Bytes
  import opened Markdown
  import opened Options

  /** MdBuf: an array that doubles, and how much of it is used. */
  class MdBuf {
    var data: array<Byte>   // its length is the capacity
    var len: nat

    ghost predicate Valid()
      reads this`data, this`len
    {
      len < data.Length
    }

    ghost function Text(): (s: seq<Byte>)
      reads this, data
      requires Valid()
    {
      data[..len]
    }

    constructor ()
      ensures Valid() && Text() == [] && fresh(data)
    {
      data, len := new Byte[256], 0;
    }

    method Ensure(extra: nat)
      requires Valid()
      modifies this`data
      ensures Valid() && len + extra < data.Length && Text() == old(Text())
      ensures data == old(data) || fresh(data)
    {
      var capacity := data.Length;
      while len + extra >= capacity
        invariant capacity >= data.Length
        decreases len + extra - capacity
      {
        capacity := capacity * 2;
      }
      if capacity > data.Length { Reallocate(capacity); }
    }

    method Reallocate(capacity: nat)
      requires Valid() && capacity > data.Length
      modifies this`data
      ensures Valid() && fresh(data) && data.Length == capacity && Text() == old(Text())
    {
      var larger := new Byte[capacity];
      var i := 0;
      while i < len
        invariant 0 <= i <= len < data.Length && data == old(data) && data[..len] == old(data[..len])
        invariant forall j :: 0 <= j < i ==> larger[j] == data[j]
      {
        larger[i] := data[i];
        i := i + 1;
      }
      data := larger;
    }

    method Append(str: seq<Byte>)
      requires Valid()
      modifies this, data
      ensures Valid() && Text() == old(Text()) + str
      ensures data == old(data) || fresh(data)
    {
      Ensure(|str|);
      Copy(str);
      len := len + |str|;
      assert data[..len] == old(data[..len]) + str;
    }

    method Copy(str: seq<Byte>)
      requires len + |str| < data.Length
      modifies data
      ensures data[..len] == old(data[..len]) && data[len..len + |str|] == str
    {
      var i := 0;
      while i < |str|
        invariant 0 <= i <= |str|
        invariant forall j :: 0 <= j < len ==> data[j] == old(data[j])
        invariant forall j :: 0 <= j < i ==> data[len + j] == str[j]
      {
        data[len + i] := str[i];
        i := i + 1;
      }
    }

    method Char(c: Byte)
      requires Valid()
      modifies this, data
      ensures Valid() && Text() == old(Text()) + [c]
      ensures data == old(data) || fresh(data)
    {
      Ensure(1);
      data[len] := c;
      len := len + 1;
      assert data[..len] == old(data[..len]) + [c];
    }
  }

  // ---- Text ----

  method EscapeChar(b: MdBuf, c: Byte)
    requires b.Valid()
    modifies b, b.data
    ensures b.Valid() && b.Text() == old(b.Text()) + EscapeByte(c)
    ensures b.data == old(b.data) || fresh(b.data)
  {
    if c == AMPERSAND { b.Append(AMP_ENTITY); }
    else if c == LESS { b.Append(LT_ENTITY); }
    else if c == GREATER { b.Append(GT_ENTITY); }
    else if c == DOUBLE_QUOTE { b.Append(QUOT_ENTITY); }
    else if c == QUOTE { b.Append(APOS_ENTITY); }
    else { b.Char(c); }
  }

  /** md_escape_append. */
  method EscapeAppend(b: MdBuf, text: Text)
    requires b.Valid()
    modifies b, b.data
    ensures b.Valid() && b.Text() == old(b.Text()) + Escape(text)
    ensures b.data == old(b.data) || fresh(b.data)
  {
    hide EscapeByte;
    var i := 0;
    while i < |text|
      invariant 0 <= i <= |text|
      invariant b.Valid() && (b.data == old(b.data) || fresh(b.data))
      invariant b.Text() == old(b.Text()) + Escape(text[..i])
    {
      EscapeChar(b, text[i]);
      assert text[..i + 1][..i] == text[..i];
      i := i + 1;
    }
    assert text[..i] == text;
  }

  /** The scan of the inline loops: to the next `c`, or to the end. */
  method Scan(text: Text, start: nat, c: Byte) returns (end: nat)
    requires start <= |text|
    ensures end == Find(text, start, c)
  {
    end := start;
    while end < |text| && text[end] != c
      invariant start <= end <= |text| && Find(text, start, c) == Find(text, end, c)
    {
      end := end + 1;
    }
  }

  method ScanStars(text: Text, start: nat) returns (end: nat)
    ensures end == FindStars(text, start)
  {
    end := start;
    while end + 1 < |text| && !(text[end] == STAR && text[end + 1] == STAR)
      invariant start <= end && FindStars(text, start) == FindStars(text, end)
      decreases |text| - end
    {
      end := end + 1;
    }
  }

  lemma {:induction false} FindShift(text: Text, i: nat, k: nat, c: Byte)
    requires i + k <= |text|
    ensures Find(text, i + k, c) == i + Find(text[i..], k, c)
    decreases |text| - i - k
  {
    if i + k < |text| && text[i + k] != c { FindShift(text, i, k + 1, c); }
  }

  lemma {:induction false} FindStarsShift(text: Text, i: nat, k: nat)
    requires i + k <= |text|
    ensures FindStars(text, i + k) == i + FindStars(text[i..], k)
    decreases |text| - i - k
  {
    if i + k + 1 < |text| && !(text[i + k] == STAR && text[i + k + 1] == STAR) { FindStarsShift(text, i, k + 1); }
  }

  /** A tag on its own. */
  method Emit(b: MdBuf, p: Piece)
    requires b.Valid()
    modifies b, b.data
    ensures b.Valid() && b.Text() == old(b.Text()) + Flatten([p])
    ensures b.data == old(b.data) || fresh(b.data)
  {
    hide Flatten;
    b.Append(Bytes_(p));
    FlattenOne(p);
  }

  lemma FlattenText(text: Text)
    ensures Flatten([Plain(text)]) == text
  {
    FlattenOne(Plain(text));
  }

  /** Writing pieces after pieces. */
  lemma Appended(before: Text, xs: seq<Piece>, ys: seq<Piece>)
    ensures before + Flatten(xs) + Flatten(ys) == before + Flatten(xs + ys)
  {
    hide *;
    FlattenConcat(xs, ys);
    assert before + Flatten(xs) + Flatten(ys) == before + (Flatten(xs) + Flatten(ys));
  }

  lemma FlattenTwo(x: Piece, y: Piece)
    ensures Flatten([x, y]) == Flatten([x]) + Flatten([y])
  {
    hide *;
    FlattenConcat([x], [y]);
    assert [x] + [y] == [x, y];
  }

  lemma FlattenThree(x: Piece, y: Piece, z: Piece)
    ensures Flatten([x, y, z]) == Flatten([x]) + Flatten([y]) + Flatten([z])
  {
    hide *;
    FlattenTwo(x, y);
    FlattenConcat([x, y], [z]);
    assert [x, y] + [z] == [x, y, z];
  }

  /** An opening tag, escaped text and a closing tag. */
  method Enclose(b: MdBuf, text: Text, name: Text)
    requires b.Valid()
    modifies b, b.data
    ensures b.Valid() && b.Text() == old(b.Text()) + Flatten(Enclosed(name, text))
    ensures b.data == old(b.data) || fresh(b.data)
  {
    hide Escape, Flatten, Bytes_, b.Valid, b.Text;
    Emit(b, Tag(name));
    EscapeAppend(b, text);
    Emit(b, Close(name));
    FlattenText(Escape(text));
    FlattenThree(Tag(name), Plain(Escape(text)), Close(name));
  }

  method Link(b: MdBuf, url: Text, text: Text)
    requires b.Valid()
    modifies b, b.data
    ensures b.Valid() && b.Text() == old(b.Text()) + Flatten(Linked(url, text))
    ensures b.data == old(b.data) || fresh(b.data)
  {
    hide Escape, Flatten, Bytes_, b.Valid, b.Text;
    LinkTag(b, url);
    EscapeAppend(b, text);
    Emit(b, Close(A));
    FlattenText(Escape(text));
    FlattenThree(Tag(HREF + Escape(url) + [DOUBLE_QUOTE]), Plain(Escape(text)), Close(A));
  }

  method LinkTag(b: MdBuf, url: Text)
    requires b.Valid()
    modifies b, b.data
    ensures b.Valid() && b.Text() == old(b.Text()) + Flatten([Tag(HREF + Escape(url) + [DOUBLE_QUOTE])])
    ensures b.data == old(b.data) || fresh(b.data)
  {
    hide *;
    b.Append([LESS] + HREF);
    EscapeAppend(b, url);
    b.Append([DOUBLE_QUOTE, GREATER]);
    LinkTagBytes(Escape(url));
    assert b.Text() == old(b.Text()) + ([LESS] + HREF + Escape(url) + [DOUBLE_QUOTE, GREATER]);
  }

  lemma LinkTagBytes(url: Text)
    ensures Flatten([Tag(HREF + url + [DOUBLE_QUOTE])]) == [LESS] + HREF + url + [DOUBLE_QUOTE, GREATER]
  {
    FlattenOne(Tag(HREF + url + [DOUBLE_QUOTE]));
    assert [LESS] + (HREF + url + [DOUBLE_QUOTE]) + [GREATER] == [LESS] + HREF + url + [DOUBLE_QUOTE, GREATER];
  }

  // What each branch of the loop tests and finds, in positions of the whole text.

  lemma BoldAt(text: Text, i: nat)
    requires i < |text|
    ensures IsBold(text[i..]) ==
            (i + 1 < |text| && text[i] == STAR && text[i + 1] == STAR && FindStars(text, i + 2) + 1 < |text|)
    ensures IsBold(text[i..]) ==> var end := FindStars(text, i + 2);
            FirstSpan(text[i..]) == Span(Enclosed(STRONG, text[i + 2..end]), end + 2 - i)
  {
    hide FindStars, Find, Enclosed, IsItalic, IsCode, IsLink;
    if i + 1 < |text| { FindStarsShift(text, i, 2); }
    assert IsBold(text[i..]) ==> text[i..][2..FindStars(text[i..], 2)] == text[i + 2..FindStars(text, i + 2)];
  }

  lemma ItalicAt(text: Text, i: nat)
    requires i < |text|
    ensures IsItalic(text[i..]) ==
            (i + 1 < |text| && text[i] == STAR && text[i + 1] != STAR && Find(text, i + 1, STAR) < |text|)
    ensures IsItalic(text[i..]) ==> var end := Find(text, i + 1, STAR);
            FirstSpan(text[i..]) == Span(Enclosed(EM, text[i + 1..end]), end + 1 - i)
  {
    hide FindStars, Find, Enclosed, IsCode, IsLink;
    FindShift(text, i, 1, STAR);
    assert IsItalic(text[i..]) ==> text[i..][1..Find(text[i..], 1, STAR)] == text[i + 1..Find(text, i + 1, STAR)];
  }

  lemma CodeAt(text: Text, i: nat)
    requires i < |text|
    ensures IsCode(text[i..]) == (text[i] == BACKTICK && Find(text, i + 1, BACKTICK) < |text|)
    ensures IsCode(text[i..]) ==> var end := Find(text, i + 1, BACKTICK);
            FirstSpan(text[i..]) == Span(Enclosed(CODE, text[i + 1..end]), end + 1 - i)
  {
    hide FindStars, Find, Enclosed, IsLink;
    FindShift(text, i, 1, BACKTICK);
    assert IsCode(text[i..]) ==> text[i..][1..Find(text[i..], 1, BACKTICK)] == text[i + 1..Find(text, i + 1, BACKTICK)];
  }

  predicate LinkHere(text: Text, i: nat)
    requires i < |text|
  {
    && text[i] == OPEN_BRACKET
    && var end := Find(text, i + 1, CLOSE_BRACKET);
       end + 1 < |text| && text[end + 1] == OPEN_PAREN && Find(text, end + 2, CLOSE_PAREN) < |text|
  }

  lemma LinkTestAt(text: Text, i: nat)
    requires i < |text|
    ensures IsLink(text[i..]) == LinkHere(text, i)
  {
    hide Find;
    var end := Find(text, i + 1, CLOSE_BRACKET);
    FindShift(text, i, 1, CLOSE_BRACKET);
    if end + 1 < |text| { FindShift(text, i, end + 2 - i, CLOSE_PAREN); }
  }

  lemma LinkParts(s: Text)
    requires IsLink(s)
    ensures var end := Find(s, 1, CLOSE_BRACKET);
            end + 2 <= |s| && Find(s, end + 2, CLOSE_PAREN) < |s| &&
            FirstSpan(s) == Span(Linked(s[end + 2..Find(s, end + 2, CLOSE_PAREN)], s[1..end]), Find(s, end + 2, CLOSE_PAREN) + 1)
  {
    hide FindStars, Find, Linked;
  }

  lemma SubText(text: Text, i: nat, j: nat, k: nat)
    requires i <= j <= k <= |text|
    ensures text[i..][j - i..k - i] == text[j..k]
  {
  }

  lemma LinkAt(text: Text, i: nat)
    requires i < |text| && LinkHere(text, i)
    ensures var end := Find(text, i + 1, CLOSE_BRACKET);
            var urlEnd := Find(text, end + 2, CLOSE_PAREN);
            FirstSpan(text[i..]) == Span(Linked(text[end + 2..urlEnd], text[i + 1..end]), urlEnd + 1 - i)
  {
    hide FindStars, Find, Enclosed, Linked, IsLink, FirstSpan;
    LinkTestAt(text, i);
    LinkParts(text[i..]);
    var end := Find(text, i + 1, CLOSE_BRACKET);
    FindShift(text, i, 1, CLOSE_BRACKET);
    FindShift(text, i, end + 2 - i, CLOSE_PAREN);
    SubText(text, i, end + 2, Find(text, end + 2, CLOSE_PAREN));
    SubText(text, i, i + 1, end);
  }

  lemma PlainAt(text: Text, i: nat)
    requires i < |text| && !IsBold(text[i..]) && !IsItalic(text[i..]) && !IsCode(text[i..]) && !IsLink(text[i..])
    ensures FirstSpan(text[i..]) == Span([Plain(EscapeByte(text[i]))], 1)
    ensures Flatten(FirstSpan(text[i..]).pieces) == EscapeByte(text[i])
  {
    hide Flatten, EscapeByte, IsBold, IsItalic, IsCode, IsLink;
    FlattenText(EscapeByte(text[i]));
  }

  /** One turn of the loop of md_render_inline. */
  method InlineStep(b: MdBuf, text: Text, i: nat) returns (next: nat)
    requires b.Valid() && i < |text|
    modifies b, b.data
    ensures b.Valid() && b.Text() == old(b.Text()) + Flatten(FirstSpan(text[i..]).pieces)
    ensures next == i + FirstSpan(text[i..]).size
    ensures b.data == old(b.data) || fresh(b.data)
  {
    hide *;
    BoldAt(text, i);
    ItalicAt(text, i);
    CodeAt(text, i);
    if i + 1 < |text| && text[i] == STAR && text[i + 1] == STAR {
      var end := ScanStars(text, i + 2);
      if end + 1 < |text| {
        Enclose(b, text[i + 2..end], STRONG);
        return end + 2;
      }
    }
    if text[i] == STAR && i + 1 < |text| && text[i + 1] != STAR {
      var end := Scan(text, i + 1, STAR);
      if end < |text| {
        Enclose(b, text[i + 1..end], EM);
        return end + 1;
      }
    }
    if text[i] == BACKTICK {
      var end := Scan(text, i + 1, BACKTICK);
      if end < |text| {
        Enclose(b, text[i + 1..end], CODE);
        return end + 1;
      }
    }
    var isLink: bool;
    isLink, next := TryLink(b, text, i);
    if isLink { return; }
    LinkTestAt(text, i);
    EscapeChar(b, text[i]);
    PlainAt(text, i);
    next := i + 1;
  }

  /** The link branch of the loop: nothing is written unless all of it is there. */
  method TryLink(b: MdBuf, text: Text, i: nat) returns (found: bool, next: nat)
    requires b.Valid() && i < |text|
    modifies b, b.data
    ensures b.Valid() && found == LinkHere(text, i) && (b.data == old(b.data) || fresh(b.data))
    ensures found ==> b.Text() == old(b.Text()) + Flatten(FirstSpan(text[i..]).pieces)
    ensures found ==> next == i + FirstSpan(text[i..]).size
    ensures !found ==> b.Text() == old(b.Text()) && b.data == old(b.data)
  {
    hide Find, Flatten, FirstSpan, Linked, b.Valid, b.Text;
    if text[i] == OPEN_BRACKET {
      var textEnd := Scan(text, i + 1, CLOSE_BRACKET);
      if textEnd < |text| && textEnd + 1 < |text| && text[textEnd + 1] == OPEN_PAREN {
        var urlEnd := Scan(text, textEnd + 2, CLOSE_PAREN);
        if urlEnd < |text| {
          LinkAt(text, i);
          Link(b, text[textEnd + 2..urlEnd], text[i + 1..textEnd]);
          return true, urlEnd + 1;
        }
      }
    }
    return false, i;
  }

  /** md_render_inline. */
  method RenderInline(b: MdBuf, text: Text)
    requires b.Valid()
    modifies b, b.data
    ensures b.Valid() && b.Text() == old(b.Text()) + Flatten(Inline(text))
    ensures b.data == old(b.data) || fresh(b.data)
  {
    hide Flatten, FirstSpan;
    var i := 0;
    assert text[0..] == text;
    while i < |text|
      invariant 0 <= i <= |text|
      invariant b.Valid() && (b.data == old(b.data) || fresh(b.data))
      invariant b.Text() + Flatten(Inline(text[i..])) == old(b.Text()) + Flatten(Inline(text))
      decreases |text| - i
    {
      ghost var span := FirstSpan(text[i..]);
      assert text[i..][span.size..] == text[i + span.size..];
      FlattenConcat(span.pieces, Inline(text[i + span.size..]));
      i := InlineStep(b, text, i);
    }
    assert Flatten(Inline(text[i..])) == [] by { FlattenNothing(); }
  }

  lemma FlattenNothing()
    ensures Flatten([]) == []
  {
  }

  // ---- Lines ----

  method IsRuleLine(line: Text) returns (r: bool)
    ensures r == IsRule(line)
  {
    if |line| < 3 { return false; }
    var c, count, i := 0, 0, 0;
    assert line[0..] == line;
    while i < |line|
      invariant 0 <= i <= |line| && 0 <= c < 256
      invariant RuleCount(line[i..], c, count) == RuleCount(line, 0, 0)
    {
      assert line[i..][0] == line[i] && line[i..][1..] == line[i + 1..];
      if line[i] == SPACE {
      } else if line[i] == MINUS || line[i] == STAR || line[i] == UNDERSCORE {
        if c == 0 { c := line[i]; } else if line[i] != c { return false; }
        count := count + 1;
      } else {
        return false;
      }
      i := i + 1;
    }
    r := count >= 3;
  }

  method EmitIf(b: MdBuf, open: bool, name: Text)
    requires b.Valid()
    modifies b, b.data
    ensures b.Valid() && b.Text() == old(b.Text()) + Flatten(CloseIf(open, name))
    ensures b.data == old(b.data) || fresh(b.data)
  {
    if open { Emit(b, Close(name)); } else { FlattenNothing(); }
  }

  method CloseOpenLists(b: MdBuf, st: State) returns (next: State)
    requires b.Valid()
    modifies b, b.data
    ensures b.Valid() && b.Text() == old(b.Text()) + Flatten(CloseLists(st))
    ensures next == ListsClosed(st)
    ensures b.data == old(b.data) || fresh(b.data)
  {
    hide Flatten, CloseIf;
    EmitIf(b, st.inUl, UL);
    EmitIf(b, st.inOl, OL);
    EmitIf(b, st.inQuote, BLOCKQUOTE);
    Appended(old(b.Text()), CloseIf(st.inUl, UL), CloseIf(st.inOl, OL));
    Appended(old(b.Text()), CloseIf(st.inUl, UL) + CloseIf(st.inOl, OL), CloseIf(st.inQuote, BLOCKQUOTE));
    next := st.(inUl := false, inOl := false, inQuote := false);
  }

  method Separate(b: MdBuf, st: State) returns (next: State)
    requires b.Valid()
    modifies b, b.data
    ensures b.Valid() && b.Text() == old(b.Text()) + Flatten(Separator(st))
    ensures next == st.(first := false)
    ensures b.data == old(b.data) || fresh(b.data)
  {
    if !st.first { b.Char(NEWLINE); FlattenOne(Plain([NEWLINE])); } else { FlattenNothing(); }
    next := st.(first := false);
  }

  /** Every block starts with this: the lists are closed and a newline written. */
  method StartBlock(b: MdBuf, st: State) returns (next: State)
    requires b.Valid()
    modifies b, b.data
    ensures b.Valid() && b.Text() == old(b.Text()) + Flatten(CloseLists(st) + Separator(st))
    ensures next == ListsClosed(st).(first := false)
    ensures b.data == old(b.data) || fresh(b.data)
  {
    hide Flatten, CloseLists, Separator;
    next := CloseOpenLists(b, st);
    next := Separate(b, next);
    assert Separator(ListsClosed(st)) == Separator(st) by { SeparatorOfClosed(st); }
    Appended(old(b.Text()), CloseLists(st), Separator(st));
  }

  lemma SeparatorOfClosed(st: State)
    ensures Separator(ListsClosed(st)) == Separator(st)
  {
  }

  method RenderElement(b: MdBuf, name: Text, text: Text)
    requires b.Valid()
    modifies b, b.data
    ensures b.Valid() && b.Text() == old(b.Text()) + Flatten(Element(name, Inline(text)))
    ensures b.data == old(b.data) || fresh(b.data)
  {
    hide Flatten, Inline;
    Emit(b, Tag(name));
    RenderInline(b, text);
    Emit(b, Close(name));
    Appended(old(b.Text()), [Tag(name)], Inline(text));
    Appended(old(b.Text()), [Tag(name)] + Inline(text), [Close(name)]);
  }

  /** The start of a list line: two kinds are closed and the third opened unless it is open. */
  method StartItem(b: MdBuf, st: State, x: bool, nameX: Text, y: bool, nameY: Text, isOpen: bool, name: Text)
    requires b.Valid()
    modifies b, b.data
    ensures b.Valid()
    ensures b.Text() == old(b.Text()) + Flatten(CloseIf(x, nameX) + CloseIf(y, nameY) + OpenIf(st, isOpen, name))
    ensures b.data == old(b.data) || fresh(b.data)
  {
    hide *;
    EmitIf(b, x, nameX);
    EmitIf(b, y, nameY);
    Appended(old(b.Text()), CloseIf(x, nameX), CloseIf(y, nameY));
    if !isOpen { OpenList(b, st, name); }
    OpenIfParts(st, isOpen, name);
    Appended(old(b.Text()), CloseIf(x, nameX) + CloseIf(y, nameY), OpenIf(st, isOpen, name));
  }

  lemma OpenIfParts(st: State, isOpen: bool, name: Text)
    ensures Flatten(OpenIf(st, isOpen, name)) == if isOpen then [] else Flatten(Separator(st) + [Tag(name)])
  {
  }

  method OpenList(b: MdBuf, st: State, name: Text)
    requires b.Valid()
    modifies b, b.data
    ensures b.Valid() && b.Text() == old(b.Text()) + Flatten(Separator(st) + [Tag(name)])
    ensures b.data == old(b.data) || fresh(b.data)
  {
    hide *;
    var _ := Separate(b, st);
    Emit(b, Tag(name));
    Appended(old(b.Text()), Separator(st), [Tag(name)]);
  }

  /** What md_render does with one line. */
  method RenderLine(b: MdBuf, st: State, line: Text) returns (next: State)
    requires b.Valid()
    modifies b, b.data
    ensures b.Valid() && b.Text() == old(b.Text()) + Flatten(LineStep(st, line).0)
    ensures next == LineStep(st, line).1
    ensures b.data == old(b.data) || fresh(b.data)
  {
    hide Flatten, Escape, Inline, CloseLists, Separator, CloseIf, OpenIf, Element, RuleCount, HeadingLevel, CountDigits;
    if IsFence(line) {
      next := RenderFence(b, st);
      return;
    }
    if st.inCode {
      EscapeAppend(b, line);
      b.Char(NEWLINE);
      FlattenTwo(Plain(Escape(line)), Plain([NEWLINE]));
      FlattenText(Escape(line));
      FlattenText([NEWLINE]);
      return st;
    }
    if |line| == 0 {
      next := CloseOpenLists(b, st);
      return;
    }
    var isRule := IsRuleLine(line);
    if isRule {
      next := StartBlock(b, st);
      Emit(b, Tag(HR));
      Appended(old(b.Text()), CloseLists(st) + Separator(st), [Tag(HR)]);
      return;
    }
    if line[0] == HASH {
      var level := Level(line);
      if level < |line| && line[level] == SPACE {
        next := RenderBlock(b, st, HeadingTag(level), line[level + 1..]);
        return;
      }
    }
    next := RenderListOrParagraph(b, st, line);
  }

  method RenderFence(b: MdBuf, st: State) returns (next: State)
    requires b.Valid()
    modifies b, b.data
    ensures b.Valid()
    ensures b.Text() == old(b.Text()) + Flatten(if st.inCode then [Close(CODE), Close(PRE)] else Block(st, [Tag(PRE), Tag(CODE)]).0)
    ensures next == if st.inCode then st.(inCode := false) else Block(st, [Tag(PRE), Tag(CODE)]).1.(inCode := true)
    ensures b.data == old(b.data) || fresh(b.data)
  {
    hide Flatten, CloseLists, Separator, Bytes_, b.Valid, b.Text;
    if !st.inCode {
      next := StartBlock(b, st);
      Emit(b, Tag(PRE));
      Emit(b, Tag(CODE));
      FlattenTwo(Tag(PRE), Tag(CODE));
      Appended(old(b.Text()), CloseLists(st) + Separator(st), [Tag(PRE), Tag(CODE)]);
      next := next.(inCode := true);
    } else {
      Emit(b, Close(CODE));
      Emit(b, Close(PRE));
      FlattenTwo(Close(CODE), Close(PRE));
      next := st.(inCode := false);
    }
  }

  method Level(line: Text) returns (level: nat)
    ensures level == HeadingLevel(line, 0)
  {
    level := 0;
    while level < |line| && line[level] == HASH && level < 6
      invariant level <= |line| && level <= 6 && HeadingLevel(line, 0) == HeadingLevel(line, level)
    {
      level := level + 1;
    }
  }

  method Digits(line: Text) returns (j: nat)
    ensures j == CountDigits(line, 0)
  {
    j := 0;
    while j < |line| && 48 <= line[j] <= 57
      invariant j <= |line| && CountDigits(line, 0) == CountDigits(line, j)
    {
      j := j + 1;
    }
  }

  method RenderBlock(b: MdBuf, st: State, name: Text, text: Text) returns (next: State)
    requires b.Valid()
    modifies b, b.data
    ensures b.Valid() && b.Text() == old(b.Text()) + Flatten(Block(st, Element(name, Inline(text))).0)
    ensures next == Block(st, Element(name, Inline(text))).1
    ensures b.data == old(b.data) || fresh(b.data)
  {
    hide Flatten, Inline, CloseLists, Separator, Element;
    next := StartBlock(b, st);
    RenderElement(b, name, text);
    Appended(old(b.Text()), CloseLists(st) + Separator(st), Element(name, Inline(text)));
  }

  /** What the last cases of the line loop test, and what they add. */
  lemma LastCases(st: State, line: Text)
    requires line != [] && !IsFence(line) && !st.inCode && !IsRule(line) && !IsHeading(line)
    ensures LineStep(st, line) ==
            if |line| >= 2 && line[0] == MINUS && line[1] == SPACE then
              (CloseIf(st.inOl, OL) + CloseIf(st.inQuote, BLOCKQUOTE) + OpenIf(st, st.inUl, UL) + Element(LI, Inline(line[2..])),
               st.(inUl := true, inOl := false, inQuote := false, first := st.first && st.inUl))
            else if (49 <= line[0] <= 57 && var j := CountDigits(line, 0); j + 1 < |line| && line[j] == DOT && line[j + 1] == SPACE) then
              (CloseIf(st.inUl, UL) + CloseIf(st.inQuote, BLOCKQUOTE) + OpenIf(st, st.inOl, OL) +
               Element(LI, Inline(line[CountDigits(line, 0) + 2..])),
               st.(inUl := false, inOl := true, inQuote := false, first := st.first && st.inOl))
            else if line[0] == GREATER && |line| >= 2 && line[1] == SPACE then
              (CloseIf(st.inUl, UL) + CloseIf(st.inOl, OL) + OpenIf(st, st.inQuote, BLOCKQUOTE) + Inline(line[2..]),
               st.(inUl := false, inOl := false, inQuote := true, first := st.first && st.inQuote))
            else Block(st, Element(P, Inline(line)))
  {
    hide Flatten, Inline, CloseIf, OpenIf, Element, IsFence, IsRule, IsHeading, CountDigits, Block;
  }

  /** The last cases of the line loop. */
  method RenderListOrParagraph(b: MdBuf, st: State, line: Text) returns (next: State)
    requires b.Valid() && line != [] && !IsFence(line) && !st.inCode && !IsRule(line) && !IsHeading(line)
    modifies b, b.data
    ensures b.Valid() && b.Text() == old(b.Text()) + Flatten(LineStep(st, line).0)
    ensures next == LineStep(st, line).1
    ensures b.data == old(b.data) || fresh(b.data)
  {
    hide *;
    LastCases(st, line);
    if |line| >= 2 && line[0] == MINUS && line[1] == SPACE {
      StartItem(b, st, st.inOl, OL, st.inQuote, BLOCKQUOTE, st.inUl, UL);
      RenderElement(b, LI, line[2..]);
      Appended(old(b.Text()), CloseIf(st.inOl, OL) + CloseIf(st.inQuote, BLOCKQUOTE) + OpenIf(st, st.inUl, UL), Element(LI, Inline(line[2..])));
      return st.(inUl := true, inOl := false, inQuote := false, first := st.first && st.inUl);
    }
    if 49 <= line[0] <= 57 {
      var j := Digits(line);
      if j + 1 < |line| && line[j] == DOT && line[j + 1] == SPACE {
        StartItem(b, st, st.inUl, UL, st.inQuote, BLOCKQUOTE, st.inOl, OL);
        RenderElement(b, LI, line[j + 2..]);
        Appended(old(b.Text()), CloseIf(st.inUl, UL) + CloseIf(st.inQuote, BLOCKQUOTE) + OpenIf(st, st.inOl, OL),
                      Element(LI, Inline(line[j + 2..])));
        return st.(inUl := false, inOl := true, inQuote := false, first := st.first && st.inOl);
      }
    }
    if line[0] == GREATER && |line| >= 2 && line[1] == SPACE {
      StartItem(b, st, st.inUl, UL, st.inOl, OL, st.inQuote, BLOCKQUOTE);
      RenderInline(b, line[2..]);
      Appended(old(b.Text()), CloseIf(st.inUl, UL) + CloseIf(st.inOl, OL) + OpenIf(st, st.inQuote, BLOCKQUOTE), Inline(line[2..]));
      return st.(inUl := false, inOl := false, inQuote := true, first := st.first && st.inQuote);
    }
    next := RenderBlock(b, st, P, line);
  }

  lemma LinesAt(st: State, src: Text, pos: nat)
    requires pos < |src|
    ensures var end := Find(src, pos, NEWLINE);
            var (pieces, next) := LineStep(st, src[pos..end]);
            Flatten(Lines(st, src[pos..])) == Flatten(pieces) + Flatten(Lines(next, src[if end < |src| then end + 1 else end..]))
  {
    hide LineStep, Find, Flatten, CloseLists;
    var end := Find(src, pos, NEWLINE);
    var rest, after := src[pos..], if end < |src| then end + 1 else end;
    FindShift(src, pos, 0, NEWLINE);
    assert rest[..end - pos] == src[pos..end];
    assert rest[after - pos..] == src[after..];
    FlattenConcat(LineStep(st, src[pos..end]).0, Lines(LineStep(st, src[pos..end]).1, src[after..]));
  }

  lemma LinesAtEnd(st: State)
    ensures Flatten(Lines(st, [])) == Flatten(CloseCode(st)) + Flatten(CloseLists(st))
  {
    hide Flatten, CloseLists, CloseCode;
    FlattenConcat(CloseCode(st), CloseLists(st));
  }

  method FinishCode(b: MdBuf, st: State)
    requires b.Valid()
    modifies b, b.data
    ensures b.Valid() && b.Text() == old(b.Text()) + Flatten(CloseCode(st))
    ensures b.data == old(b.data) || fresh(b.data)
  {
    hide Flatten;
    if st.inCode {
      Emit(b, Close(CODE));
      Emit(b, Close(PRE));
      FlattenTwo(Close(CODE), Close(PRE));
    } else {
      FlattenNothing();
    }
  }

  /** native_markdown_render: the HTML of the specification, and so well nested. */
  method RenderDocument(src: Text) returns (result: Text)
    ensures result == Render(src)
    ensures Tags(result).Some? && Nest([], Tags(result).value) == Some([])
  {
    var b := new MdBuf();
    FillDocument(b, src);
    result := b.data[..b.len];
    hide *;
    RenderIsWellNested(src);
  }

  /** The line loop and the closing of what it leaves open. */
  method FillDocument(b: MdBuf, src: Text)
    requires b.Valid() && b.Text() == []
    modifies b, b.data
    ensures b.Valid() && b.Text() == Render(src)
    ensures b.data == old(b.data) || fresh(b.data)
  {
    hide *;
    var pos: nat, st := 0, START;
    assert src[0..] == src;
    assert Render(src) == Flatten(Lines(START, src)) by { RenderParts(src); }
    while pos < |src|
      invariant pos <= |src| && b.Valid() && (b.data == old(b.data) || fresh(b.data))
      invariant b.Text() + Flatten(Lines(st, src[pos..])) == Render(src)
      decreases |src| - pos
    {
      var end := Scan(src, pos, NEWLINE);
      LinesAt(st, src, pos);
      st := RenderLine(b, st, src[pos..end]);
      pos := if end < |src| then end + 1 else end;
    }
    assert src[pos..] == [];
    LinesAtEnd(st);
    FinishCode(b, st);
    var _ := CloseOpenLists(b, st);
  }

  lemma RenderParts(src: Text)
    ensures Render(src) == Flatten(Lines(START, src))
  {
  }
}
