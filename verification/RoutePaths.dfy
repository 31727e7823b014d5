/** Routes and paths as they are written (src/router.c): what a written path splits into, which written routes fit it,
    what is captured, and where a preference is decided. */
module RoutePaths {
  import opened Bytes
  import opened Options
  import opened Routes

  // ---- Written paths ----

  /** Each segment behind a slash. */
  function PathText(segments: seq<seq<Byte>>): seq<Byte> {
    if segments == [] then [] else [47] + segments[0] + PathText(segments[1..])
  }

  /** No slash in a segment, and the last one is not empty. */
  predicate Written(segments: seq<seq<Byte>>) {
    (forall i :: 0 <= i < |segments| ==> 47 !in segments[i]) && (segments != [] ==> segments[|segments| - 1] != [])
  }

  lemma {:induction false} LengthOfFirst(text: seq<Byte>, rest: seq<Byte>)
    requires 47 !in text && (rest == [] || rest[0] == 47)
    ensures SegmentLength(text + rest) == |text|
    decreases |text|
  {
    if text == [] {
      assert text + rest == rest;
    } else {
      assert (text + rest)[0] == text[0] && (text + rest)[1..] == text[1..] + rest;
      LengthOfFirst(text[1..], rest);
    }
  }

  /** A written path splits into its segments, with a slash at its end or without. */
  lemma {:induction false} SplitWritten(segments: seq<seq<Byte>>)
    requires Written(segments)
    ensures Split(PathText(segments)) == segments && Split(PathText(segments) + [47]) == segments
    decreases |segments|
  {
    SplitFrom(segments, []);
    SplitFrom(segments, [47]);
    assert PathText(segments) + [] == PathText(segments);
  }

  lemma {:induction false} SplitFrom(segments: seq<seq<Byte>>, end: seq<Byte>)
    requires Written(segments) && (end == [] || end == [47])
    ensures Split(PathText(segments) + end) == segments
    decreases |segments|
  {
    hide Split, SegmentLength;
    if segments == [] {
      assert PathText(segments) + end == end;
      NothingToSplit(end);
    } else {
      var first, rest := segments[0], PathText(segments[1..]) + end;
      assert PathText(segments) + end == [47] + (first + rest);
      RestStarts(segments[1..], end);
      OneSegment(segments);
      WrittenTail(segments);
      SplitFirst(first, rest);
      SplitFrom(segments[1..], end);
    }
  }

  lemma NothingToSplit(end: seq<Byte>)
    requires end == [] || end == [47]
    ensures Split(end) == []
  {
  }

  lemma OneSegment(segments: seq<seq<Byte>>)
    requires Written(segments) && segments != []
    ensures 47 !in segments[0] && (segments[0] == [] ==> segments[1..] != [])
  {
  }

  lemma WrittenTail(segments: seq<seq<Byte>>)
    requires Written(segments) && segments != []
    ensures Written(segments[1..]) && segments == [segments[0]] + segments[1..]
  {
    var tail := segments[1..];
    assert forall i :: 0 <= i < |tail| ==> tail[i] == segments[i + 1];
  }

  lemma SplitFirst(first: seq<Byte>, rest: seq<Byte>)
    requires 47 !in first && first + rest != [] && (rest == [] || rest[0] == 47)
    ensures Split([47] + (first + rest)) == [first] + Split(rest)
  {
    hide SegmentLength;
    var inner := first + rest;
    assert SkipSlash([47] + inner) == inner;
    LengthOfFirst(first, rest);
    assert inner[..|first|] == first && inner[|first|..] == rest;
  }

  lemma RestStarts(segments: seq<seq<Byte>>, end: seq<Byte>)
    requires end == [] || end == [47]
    ensures var rest := PathText(segments) + end; rest == [] || rest[0] == 47
    ensures segments != [] ==> PathText(segments) + end != []
  {
  }

  /** The slash in front does not count. */
  lemma SlashInFront(path: seq<Byte>)
    requires path == [] || path[0] != 47
    ensures Split([47] + path) == Split(path)
  {
    assert SkipSlash([47] + path) == path && SkipSlash(path) == path;
  }

  // ---- Written routes ----

  /** A fixed segment, or a colon and the name of a parameter. */
  datatype Part = Fixed(text: seq<Byte>) | Hole(name: seq<Byte>)

  function PartText(p: Part): seq<Byte> {
    match p
    case Fixed(text) => text
    case Hole(name) => [58] + name
  }

  function PartTexts(parts: seq<Part>): (texts: seq<seq<Byte>>)
    ensures |texts| == |parts| && forall i :: 0 <= i < |parts| ==> texts[i] == PartText(parts[i])
  {
    if parts == [] then [] else [PartText(parts[0])] + PartTexts(parts[1..])
  }

  /** No slash in a part, no colon in front of a fixed one, and the last one is not empty. */
  predicate ProperParts(parts: seq<Part>) {
    && (forall i :: 0 <= i < |parts| ==> 47 !in PartText(parts[i]))
    && (forall i :: 0 <= i < |parts| && parts[i].Fixed? && parts[i].text != [] ==> parts[i].text[0] != 58)
    && (parts != [] ==> PartText(parts[|parts| - 1]) != [])
  }

  function RouteText(parts: seq<Part>): seq<Byte> {
    PathText(PartTexts(parts))
  }

  /** The pattern that is read from a written route. */
  lemma PatternRead(parts: seq<Part>)
    requires ProperParts(parts)
    ensures var p := PatternOf(Split(RouteText(parts)));
            && |p| == |parts|
            && forall i :: 0 <= i < |parts| ==>
                 p[i] == match parts[i] case Fixed(text) => Literal(text, 0) case Hole(name) => Param(name, 0)
  {
    SplitWritten(PartTexts(parts));
    forall i | 0 <= i < |parts| ensures SegmentOf(PartText(parts[i])) ==
        match parts[i] case Fixed(text) => Literal(text, 0) case Hole(name) => Param(name, 0)
    {
      if parts[i].Hole? { assert ([58] + parts[i].name)[1..] == parts[i].name; }
    }
  }

  function Holes(parts: seq<Part>): set<nat> {
    set i: nat | i < |parts| && parts[i].Hole?
  }

  lemma {:induction false} ParamsAreHoles(p: Pattern, parts: seq<Part>)
    requires |p| == |parts| && forall i :: 0 <= i < |p| ==> p[i].Param? == parts[i].Hole?
    ensures ParamCount(p) == |Holes(parts)|
    decreases |p|
  {
    hide Holes;
    if p == [] {
      NoHoles();
    } else {
      ParamsAreHoles(p[1..], parts[1..]);
      HolesStep(parts);
    }
  }

  lemma NoHoles()
    ensures Holes([]) == {}
  {
  }

  lemma HolesStep(parts: seq<Part>)
    requires parts != []
    ensures |Holes(parts)| == |Holes(parts[1..])| + if parts[0].Hole? then 1 else 0
  {
    var rest := Holes(parts[1..]);
    var moved := set i | i in rest :: i + 1;
    ShiftedSize(rest, moved);
    forall i: nat ensures i in Holes(parts) <==> i in moved || (i == 0 && parts[0].Hole?) {
      if i in Holes(parts) && i > 0 {
        assert parts[i] == parts[1..][i - 1];
        assert i - 1 in rest;
      }
    }
    assert Holes(parts) == moved + (if parts[0].Hole? then {0} else {});
  }

  lemma {:induction false} ShiftedSize(s: set<nat>, t: set<nat>)
    requires t == set i | i in s :: i + 1
    ensures |t| == |s|
    decreases |s|
  {
    if s != {} {
      var x :| x in s;
      var s', t' := s - {x}, t - {x + 1};
      forall y ensures y in t' <==> y in (set i | i in s' :: i + 1) {
        if y in t' { assert y - 1 in s'; }
      }
      ShiftedSize(s', t');
    }
  }

  /** A written route fits a path if it has its method and as many parts as the path has segments, its fixed parts are
      the segments in their places, and there are no more than 16 parameters. */
  lemma FitsIff(m: nat, parts: seq<Part>, handler: nat, segments: seq<seq<Byte>>, method_: nat)
    requires ProperParts(parts) && Written(segments)
    ensures Fits(Route(m, PatternOf(Split(RouteText(parts))), handler), Split(PathText(segments)), method_) <==>
            && m == method_ && |parts| == |segments| && |Holes(parts)| <= 16
            && forall i :: 0 <= i < |parts| ==> parts[i].Hole? || parts[i] == Fixed(segments[i])
  {
    hide PatternOf, Split, RouteText, ParamCount, Holes, Matches, PathText, ProperParts, Written;
    var p := PatternOf(Split(RouteText(parts)));
    PatternRead(parts);
    SplitWritten(segments);
    ParamsAreHoles(p, parts);
    MatchesIff(p, parts, segments);
  }

  lemma MatchesIff(p: Pattern, parts: seq<Part>, segments: seq<seq<Byte>>)
    requires |p| == |parts|
    requires forall i :: 0 <= i < |parts| ==>
               p[i] == match parts[i] case Fixed(text) => Literal(text, 0) case Hole(name) => Param(name, 0)
    ensures Matches(p, segments) <==>
            |parts| == |segments| && forall i :: 0 <= i < |parts| ==> parts[i].Hole? || parts[i] == Fixed(segments[i])
  {
  }

  /** Each parameter is captured with the segment in its place, in the order of their places. */
  lemma {:induction false} CapturedAt(p: Pattern, segments: seq<seq<Byte>>, i: nat)
    requires |p| == |segments| && i < |p| && p[i].Param?
    ensures ParamCount(p[..i]) < |Captured(p, segments)|
    ensures Captured(p, segments)[ParamCount(p[..i])] == RouteParam(p[i].name, segments[i])
    decreases |p|
  {
    if i == 0 {
      assert p[..0] == [];
    } else {
      CapturedAt(p[1..], segments[1..], i - 1);
      assert p[..i][1..] == p[1..][..i - 1] && p[..i][0] == p[0];
    }
  }

  /** Two patterns first differ at i. */
  predicate DifferAt(p: Pattern, q: Pattern, i: nat) {
    i < |p| && i < |q| && p[i] != q[i] && forall j :: 0 <= j < i ==> p[j] == q[j]
  }

  /** The first difference decides: a literal comes before a parameter, and of two of a kind the one that some route of
      the list begins with first. */
  lemma {:induction false} FirstDifference(routes: seq<Route>, base: Pattern, p: Pattern, q: Pattern, i: nat)
    requires |p| == |q| && DifferAt(p, q, i)
    ensures BeforeInList(routes, base, p, q) <==>
            || (p[i].Literal? && q[i].Param?)
            || (p[i].Literal? == q[i].Literal? &&
                FirstWith(routes, base + p[..i + 1]) < FirstWith(routes, base + q[..i + 1]))
    decreases i
  {
    hide FirstWith;
    if i == 0 {
      assert p[..1] == [p[0]] && q[..1] == [q[0]];
    } else {
      FirstDifference(routes, base + [p[0]], p[1..], q[1..], i - 1);
      assert base + [p[0]] + p[1..][..i] == base + p[..i + 1];
      assert base + [q[0]] + q[1..][..i] == base + q[..i + 1];
    }
  }

  lemma EqualPatterns(routes: seq<Route>, base: Pattern, p: Pattern)
    ensures BeforeInList(routes, base, p, p)
    decreases |p|
  {
    hide FirstWith;
    if p != [] { EqualPatterns(routes, base + [p[0]], p[1..]); }
  }

  // ---- Literals and parameters together ----

  /** Of two routes that both fit, the one with a fixed segment where they first differ is taken, whichever of them was
      added first. */
  lemma FixedWins(routes: seq<Route>, segments: seq<seq<Byte>>, m: nat, r: Option<nat>, captured: seq<RouteParam>,
                  k: nat, l: nat, i: nat)
    requires ChosenFromList(routes, segments, m, r, captured) && |routes| == 2 && k < 2 && l == 1 - k
    requires Fits(routes[k], segments, m) && Fits(routes[l], segments, m) && DifferAt(routes[k].pattern, routes[l].pattern, i)
    requires routes[k].pattern[i].Literal? && routes[l].pattern[i].Param?
    ensures r == Some(routes[k].handler) && captured == Captured(routes[k].pattern, segments)
  {
    hide BeforeInList, Captured, ParamCount;
    assert r.Some?;
    var chosen: nat :| chosen < |routes| && FirstInList(routes, segments, m, r.value, captured, chosen);
    FirstDifference(routes, [], routes[l].pattern, routes[k].pattern, i);
    assert chosen == k;
    HandlerOfOne(routes, k, m);
  }

  lemma HandlerOfOne(routes: seq<Route>, k: nat, m: nat)
    requires |routes| == 2 && k < 2 && routes[k].method_ == m && routes[0].pattern != routes[1].pattern
    ensures HandlerOf(routes, routes[k].pattern, m) == Some(routes[k].handler)
  {
    assert routes[..1] == [routes[0]] && [routes[0]][..0] == [];
  }

  /** The limits of nodes: 127 bytes of text, 32 children. */
  lemma LimitsAre(routes: seq<Route>, text: seq<Byte>)
    ensures TooLong(text) <==> |text| > 127 && text[0] != 58
    ensures WithinLimits(routes) <==> forall base: Pattern :: |Branches(routes, base)| <= 32
  {
    hide Branches;
  }
}
