/** URL routes as a flat list of patterns (src/router.c): how a path splits into segments, which patterns
    match it, and in which order the router prefers them. */
module Routes {
  import opened Bytes
  import opened Options

  const SLASH: Byte := 47
  const COLON: Byte := 58
  const ROUTER_MAX_PARAMS := 16
  const ROUTER_MAX_CHILDREN := 32
  const ROUTER_MAX_SEGMENT := 128
  const ROUTE_METHOD_COUNT := 7

  const MAX_TEXT := ROUTER_MAX_SEGMENT - 1

  /** A segment of a pattern. One that does not fit its node is cut, and its node is found by nothing that does not fit:
      every registration makes one anew. `copy` tells these apart; it is 0 for a segment that fits. */
  datatype Segment = Literal(text: seq<Byte>, copy: nat) | Param(name: seq<Byte>, copy: nat)

  type Pattern = seq<Segment>

  datatype Route = Route(method_: nat, pattern: Pattern, handler: nat)

  datatype RouteParam = RouteParam(name: seq<Byte>, value: seq<Byte>)

  // ---- Splitting ----

  /** The length of the text before the next slash. */
  function SegmentLength(path: seq<Byte>): (n: nat)
    ensures n <= |path| && (n < |path| ==> path[n] == SLASH)
    ensures forall i :: 0 <= i < n ==> path[i] != SLASH
  {
    if path == [] || path[0] == SLASH then 0 else 1 + SegmentLength(path[1..])
  }

  function SkipSlash(path: seq<Byte>): (r: seq<Byte>)
    ensures |r| <= |path|
  {
    if path != [] && path[0] == SLASH then path[1..] else path
  }

  /** The segments of a path: a slash separates them, and one before the first and one after the last do not
      count. */
  function Split(path: seq<Byte>): seq<seq<Byte>>
    decreases |path|
  {
    var inner := SkipSlash(path);
    if inner == [] then []
    else
      var n := SegmentLength(inner);
      [inner[..n]] + Split(inner[n..])
  }

  /** A segment that starts with a colon is a parameter with the rest as its name. */
  function SegmentOf(text: seq<Byte>): Segment {
    if text != [] && text[0] == COLON then Param(text[1..], 0) else Literal(text, 0)
  }

  function TextOf(s: Segment): seq<Byte> {
    match s
    case Literal(text, _) => text
    case Param(name, _) => name
  }

  /** What the search among the children compares. */
  predicate SameText(a: Segment, b: Segment) {
    a.Literal? == b.Literal? && TextOf(a) == TextOf(b)
  }

  function PatternOf(segments: seq<seq<Byte>>): (p: Pattern)
    ensures |p| == |segments|
    ensures forall i :: 0 <= i < |p| ==> p[i] == SegmentOf(segments[i])
  {
    if segments == [] then [] else [SegmentOf(segments[0])] + PatternOf(segments[1..])
  }

  // ---- Matching ----

  predicate Matches(p: Pattern, segments: seq<seq<Byte>>) {
    |p| == |segments| && forall i :: 0 <= i < |p| ==> p[i].Literal? ==> p[i].text == segments[i]
  }

  function ParamCount(p: Pattern): nat {
    if p == [] then 0 else (if p[0].Param? then 1 else 0) + ParamCount(p[1..])
  }

  /** The parameters of a pattern with the segments they stand for, in order. */
  function Captured(p: Pattern, segments: seq<seq<Byte>>): (r: seq<RouteParam>)
    requires |p| == |segments|
    ensures |r| == ParamCount(p)
  {
    if p == [] then []
    else (if p[0].Param? then [RouteParam(p[0].name, segments[0])] else []) + Captured(p[1..], segments[1..])
  }

  // ---- Preference ----

  /** The position of a pattern among those known, or their number. */
  function IndexOf(known: seq<Pattern>, p: Pattern): (i: nat)
    ensures i <= |known| && (i < |known| ==> known[i] == p)
    ensures forall j :: 0 <= j < i ==> known[j] != p
  {
    if known == [] || known[0] == p then 0 else 1 + IndexOf(known[1..], p)
  }

  /** `p` is preferred to `q` below `base`: where they first differ, a literal comes before a parameter, and otherwise
      the one that was known first. */
  predicate Before(known: seq<Pattern>, base: Pattern, p: Pattern, q: Pattern)
    requires |p| == |q|
    decreases |p|
  {
    if p == [] then true
    else if p[0] == q[0] then Before(known, base + [p[0]], p[1..], q[1..])
    else Precedes(known, base, p[0], q[0])
  }

  predicate Precedes(known: seq<Pattern>, base: Pattern, s: Segment, t: Segment) {
    (s.Literal? && t.Param?) || (s.Literal? == t.Literal? && IndexOf(known, base + [s]) < IndexOf(known, base + [t]))
  }

  /** The handler of the last route registered with this pattern and method. */
  function HandlerOf(routes: seq<Route>, p: Pattern, m: nat): Option<nat> {
    if routes == [] then None
    else
      var last := routes[|routes| - 1];
      if last.pattern == p && last.method_ == m then Some(last.handler) else HandlerOf(routes[..|routes| - 1], p, m)
  }

  lemma {:induction false} HandlerExists(routes: seq<Route>, p: Pattern, m: nat)
    ensures HandlerOf(routes, p, m).Some? <==>
            exists i :: 0 <= i < |routes| && routes[i].pattern == p && routes[i].method_ == m
    decreases |routes|
  {
    if routes != [] {
      var init := routes[..|routes| - 1];
      HandlerExists(init, p, m);
      if exists i :: 0 <= i < |init| && init[i].pattern == p && init[i].method_ == m {
        var i :| 0 <= i < |init| && init[i].pattern == p && init[i].method_ == m;
        assert routes[i].pattern == p && routes[i].method_ == m;
      }
    }
  }

  // ---- The patterns known to the router ----

  function AddNew(known: seq<Pattern>, p: Pattern): seq<Pattern> {
    if p in known then known else known + [p]
  }

  /** The prefixes of a pattern up to length `n`, shortest first, added where they are new. So the known
      patterns are in the order in which some route first had them as a prefix. */
  function Extend(known: seq<Pattern>, p: Pattern, n: nat): seq<Pattern>
    requires n <= |p|
  {
    if n == 0 then AddNew(known, []) else AddNew(Extend(known, p, n - 1), p[..n])
  }

  ghost predicate PrefixClosed(known: seq<Pattern>) {
    forall i, n :: 0 <= i < |known| && 0 <= n <= |known[i]| ==> known[i][..n] in known
  }

  ghost predicate Distinct(known: seq<Pattern>) {
    forall i, j :: 0 <= i < j < |known| ==> known[i] != known[j]
  }

  // ---- The pattern under which a route is registered ----

  /** A known pattern is `base` and a segment with the text of s. */
  predicate IsChildWith(q: Pattern, base: Pattern, s: Segment) {
    |q| == |base| + 1 && base <= q && SameText(q[|base|], s)
  }

  /** The first child of `base` with the text of s, from position j on, or their number. */
  function FirstChild(known: seq<Pattern>, base: Pattern, s: Segment, j: nat): (r: nat)
    requires j <= |known|
    ensures j <= r <= |known| && (r < |known| ==> IsChildWith(known[r], base, s))
    ensures forall k :: j <= k < r ==> !IsChildWith(known[k], base, s)
    decreases |known| - j
  {
    if j == |known| || IsChildWith(known[j], base, s) then j else FirstChild(known, base, s, j + 1)
  }

  /** A segment for a new node, which is cut if it does not fit. */
  function NewSegment(s: Segment, copy: nat): (t: Segment)
    ensures |TextOf(t)| <= MAX_TEXT && t.Literal? == s.Literal?
  {
    if |TextOf(s)| <= MAX_TEXT then (match s case Literal(text, _) => Literal(text, 0) case Param(name, _) => Param(name, 0))
    else match s
      case Literal(text, _) => Literal(text[..MAX_TEXT], copy)
      case Param(name, _) => Param(name[..MAX_TEXT], copy)
  }

  /** The segment that a search for s below `base` ends at: that of the first child with its text, or a new one. */
  function Step(known: seq<Pattern>, base: Pattern, s: Segment): Segment {
    var j := FirstChild(known, base, s, 0);
    if j < |known| then known[j][|base|] else NewSegment(s, |known|)
  }

  /** The pattern that a path is registered under below `base`. */
  function Walk(known: seq<Pattern>, base: Pattern, segments: seq<seq<Byte>>): (p: Pattern)
    ensures |p| == |base| + |segments| && base <= p
    decreases |segments|
  {
    if segments == [] then base
    else
      var next := base + [Step(known, base, SegmentOf(segments[0]))];
      Walk(AddNew(known, next), next, segments[1..])
  }

  /** No known pattern has a segment that was cut. */
  predicate NothingCut(known: seq<Pattern>) {
    forall j, k :: 0 <= j < |known| && 0 <= k < |known[j]| ==> known[j][k].copy == 0
  }

  predicate AllFit(segments: seq<seq<Byte>>) {
    forall i :: 0 <= i < |segments| ==> |TextOf(SegmentOf(segments[i]))| <= MAX_TEXT
  }

  lemma StepOfFitting(known: seq<Pattern>, base: Pattern, text: seq<Byte>)
    requires NothingCut(known) && |TextOf(SegmentOf(text))| <= MAX_TEXT
    ensures Step(known, base, SegmentOf(text)) == SegmentOf(text)
  {
    var s := SegmentOf(text);
    var j := FirstChild(known, base, s, 0);
    if j < |known| { assert known[j][|base|].copy == 0; }
  }

  /** As long as nothing is cut, a path whose segments fit is registered under just these segments. */
  lemma {:induction false} WalkOfFitting(known: seq<Pattern>, base: Pattern, segments: seq<seq<Byte>>)
    requires NothingCut(known) && AllFit(segments) && forall k :: 0 <= k < |base| ==> base[k].copy == 0
    ensures Walk(known, base, segments) == base + PatternOf(segments)
    decreases |segments|
  {
    hide Step, SegmentOf, TextOf;
    if segments == [] {
      assert base + [] == base;
    } else {
      StepOfFitting(known, base, segments[0]);
      var next := base + [SegmentOf(segments[0])];
      assert SegmentOf(segments[0]).copy == 0 by { PlainSegment(segments[0]); }
      assert AllFit(segments[1..]) by { assert forall i :: 0 <= i < |segments[1..]| ==> segments[1..][i] == segments[i + 1]; }
      WalkOfFitting(AddNew(known, next), next, segments[1..]);
      assert next + PatternOf(segments[1..]) == base + ([SegmentOf(segments[0])] + PatternOf(segments[1..]));
    }
  }

  lemma PlainSegment(text: seq<Byte>)
    ensures SegmentOf(text).copy == 0
  {
  }

  /** A literal segment that does not fit its node. */
  predicate TooLong(text: seq<Byte>) {
    SegmentOf(text).Literal? && |text| > MAX_TEXT
  }

  lemma StepMatchesIff(known: seq<Pattern>, base: Pattern, text: seq<Byte>)
    requires forall j, k :: 0 <= j < |known| && 0 <= k < |known[j]| ==> |TextOf(known[j][k])| <= MAX_TEXT
    ensures var s := Step(known, base, SegmentOf(text));
            (s.Literal? ==> s.text == text) <==> !TooLong(text)
    ensures |TextOf(Step(known, base, SegmentOf(text)))| <= MAX_TEXT
  {
    var j := FirstChild(known, base, SegmentOf(text), 0);
    if j < |known| { assert |TextOf(known[j][|base|])| <= MAX_TEXT; }
  }

  /** A route matches the path it was registered with if and only if no literal segment of it is too long for its node:
      a longer one is cut, and the cut text is what a path must have. */
  lemma {:induction false} OwnPathIff(known: seq<Pattern>, base: Pattern, segments: seq<seq<Byte>>)
    requires forall j, k :: 0 <= j < |known| && 0 <= k < |known[j]| ==> |TextOf(known[j][k])| <= MAX_TEXT
    requires forall k :: 0 <= k < |base| ==> |TextOf(base[k])| <= MAX_TEXT
    ensures Matches(Walk(known, base, segments)[|base|..], segments) <==> forall i :: 0 <= i < |segments| ==> !TooLong(segments[i])
    decreases |segments|
  {
    hide Step, SegmentOf, TextOf, TooLong;
    if segments != [] {
      var s := Step(known, base, SegmentOf(segments[0]));
      var next := base + [s];
      StepMatchesIff(known, base, segments[0]);
      OwnPathIff(AddNew(known, next), next, segments[1..]);
      var p := Walk(known, base, segments);
      FirstMatches(p[|base|..], segments);
      assert next <= p && next[|base|] == s;
      assert p[|base|..][0] == s && p[|base|..][1..] == p[|next|..];
      assert forall i :: 0 < i < |segments| ==> segments[i] == segments[1..][i - 1];
      assert forall i :: 0 <= i < |segments[1..]| ==> segments[1..][i] == segments[i + 1];
    }
  }

  lemma FirstMatches(p: Pattern, segments: seq<seq<Byte>>)
    requires |p| == |segments| > 0
    ensures Matches(p, segments) <==> (p[0].Literal? ==> p[0].text == segments[0]) && Matches(p[1..], segments[1..])
  {
    if Matches(p[1..], segments[1..]) {
      assert forall i :: 0 < i < |p| ==> p[i] == p[1..][i - 1] && segments[i] == segments[1..][i - 1];
    }
  }

  lemma {:induction false} ExtendKeepsUncut(known: seq<Pattern>, p: Pattern, n: nat)
    requires NothingCut(known) && n <= |p| && forall k :: 0 <= k < |p| ==> p[k].copy == 0
    ensures NothingCut(Extend(known, p, n))
    decreases n
  {
    if n > 0 { ExtendKeepsUncut(known, p, n - 1); }
  }

  // ---- The limit on children ----

  /** The segments that follow `base` in the known patterns: the children of its node. */
  ghost function NextSegments(known: seq<Pattern>, base: Pattern): set<Segment> {
    set j | 0 <= j < |known| && |known[j]| == |base| + 1 && base <= known[j] :: known[j][|base|]
  }

  /** The node of the first n segments exists and is full, and has no child for the next one. */
  ghost predicate FullAt(known: seq<Pattern>, p: Pattern, n: nat) {
    n < |p| && p[..n] in known && p[..n + 1] !in known && |NextSegments(known, p[..n])| >= ROUTER_MAX_CHILDREN
  }

  /** A route with this pattern meets a full node on its way. */
  ghost predicate Blocked(known: seq<Pattern>, p: Pattern) {
    exists n: nat :: FullAt(known, p, n)
  }

  lemma NextSegmentKnown(known: seq<Pattern>, base: Pattern, s: Segment)
    ensures s in NextSegments(known, base) <==> base + [s] in known
  {
    if base + [s] in known {
      var j :| 0 <= j < |known| && known[j] == base + [s];
      assert known[j][|base|] == s;
    }
    if s in NextSegments(known, base) {
      var j :| 0 <= j < |known| && |known[j]| == |base| + 1 && base <= known[j] && known[j][|base|] == s;
      assert known[j] == base + [s];
    }
  }

  /** Nothing follows a pattern that is new. */
  lemma NothingFollowsNew(known: seq<Pattern>, q: Pattern)
    requires PrefixClosed(known) && q !in known
    ensures NextSegments(known + [q], q) == {}
  {
    forall s ensures s !in NextSegments(known + [q], q) {
      NextSegmentKnown(known + [q], q, s);
      forall j | 0 <= j < |known| ensures known[j] != q + [s] {
        assert |q| <= |known[j]| ==> known[j][..|q|] in known;
        assert (q + [s])[..|q|] == q;
      }
      assert |q + [s]| != |q|;
    }
  }

  /** Extending by prefixes that are known changes nothing. */
  lemma {:induction false} ExtendKnown(known: seq<Pattern>, p: Pattern, n: nat)
    requires n <= |p| && forall k :: 0 <= k <= n ==> p[..k] in known
    ensures Extend(known, p, n) == known
    decreases n
  {
    assert p[..0] == [];
    if n > 0 { ExtendKnown(known, p, n - 1); }
  }

  lemma {:induction false} ExtendMembers(known: seq<Pattern>, p: Pattern, n: nat, q: Pattern)
    requires n <= |p|
    ensures q in Extend(known, p, n) <==> q in known || (|q| <= n && q <= p)
    decreases n
  {
    if n == 0 {
      assert q == [] <==> |q| <= 0;
    } else {
      ExtendMembers(known, p, n - 1, q);
      ExtendMembers(known, p, n - 1, p[..n]);
      assert |q| == n && q <= p ==> q == p[..n];
    }
  }

  // ---- A list of routes ----

  /** What the patterns of some routes, one after the other, make known. */
  function KnownOf(routes: seq<Route>): seq<Pattern> {
    if routes == [] then [[]]
    else
      var last := routes[|routes| - 1].pattern;
      Extend(KnownOf(routes[..|routes| - 1]), last, |last|)
  }

  /** The segments that follow `base` in the patterns of some routes. */
  ghost function Branches(routes: seq<Route>, base: Pattern): set<Segment> {
    set i | 0 <= i < |routes| && |base| < |routes[i].pattern| && base <= routes[i].pattern :: routes[i].pattern[|base|]
  }

  /** No pattern, and no beginning of one, goes on in more ways than a node has children. */
  ghost predicate WithinLimits(routes: seq<Route>) {
    forall base: Pattern :: |Branches(routes, base)| <= ROUTER_MAX_CHILDREN
  }

  /** Every known pattern is the beginning of one of the routes. */
  ghost predicate From(known: seq<Pattern>, routes: seq<Route>) {
    forall q :: q in known && q != [] ==> exists i :: 0 <= i < |routes| && q <= routes[i].pattern
  }

  /** Within the limits no route of the list meets a full node, whichever of them have been added before it. */
  lemma NeverBlocked(known: seq<Pattern>, routes: seq<Route>, k: nat)
    requires WithinLimits(routes) && From(known, routes) && k < |routes|
    ensures !Blocked(known, routes[k].pattern)
  {
    var p := routes[k].pattern;
    forall n: nat ensures !FullAt(known, p, n) {
      if n < |p| && p[..n + 1] !in known {
        var base, next, branches := p[..n], NextSegments(known, p[..n]), Branches(routes, p[..n]);
        assert p[n] in branches;
        assert p[..n + 1] == base + [p[n]];
        NextSegmentKnown(known, base, p[n]);
        forall s | s in next ensures s in branches - {p[n]} {
          NextSegmentKnown(known, base, s);
          var i :| 0 <= i < |routes| && base + [s] <= routes[i].pattern;
          assert routes[i].pattern[|base|] == (base + [s])[|base|] && base <= routes[i].pattern;
        }
        SmallerSet(next, branches - {p[n]});
      }
    }
  }

  lemma {:induction false} SmallerSet<T>(a: set<T>, b: set<T>)
    requires a <= b
    ensures |a| <= |b|
    decreases a
  {
    if a != {} {
      var x :| x in a;
      SmallerSet(a - {x}, b - {x});
    }
  }

  /** What is known has no more ways on than the nodes have children, so a list that is known throughout is within
      the limits. */
  lemma KnownIsWithinLimits(known: seq<Pattern>, routes: seq<Route>)
    requires PrefixClosed(known) && forall i :: 0 <= i < |routes| ==> routes[i].pattern in known
    requires forall base: Pattern :: |NextSegments(known, base)| <= ROUTER_MAX_CHILDREN
    ensures WithinLimits(routes)
  {
    forall base: Pattern ensures |Branches(routes, base)| <= ROUTER_MAX_CHILDREN {
      forall s | s in Branches(routes, base) ensures s in NextSegments(known, base) {
        var i :| 0 <= i < |routes| && |base| < |routes[i].pattern| && base <= routes[i].pattern && routes[i].pattern[|base|] == s;
        var j :| 0 <= j < |known| && known[j] == routes[i].pattern;
        assert known[j][..|base| + 1] == base + [s];
        NextSegmentKnown(known, base, s);
      }
      SmallerSet(Branches(routes, base), NextSegments(known, base));
    }
  }

  lemma FromExtended(known: seq<Pattern>, routes: seq<Route>, k: nat)
    requires From(known, routes) && k < |routes|
    ensures From(Extend(known, routes[k].pattern, |routes[k].pattern|), routes)
  {
    var p := routes[k].pattern;
    forall q | q in Extend(known, p, |p|) && q != [] ensures exists i :: 0 <= i < |routes| && q <= routes[i].pattern {
      ExtendMembers(known, p, |p|, q);
      if q !in known { assert q <= routes[k].pattern; }
    }
  }

  /** What the router prefers among the patterns below `base`. */
  datatype Table = Table(known: seq<Pattern>, handlers: seq<seq<Option<nat>>>)

  ghost predicate TableOk(t: Table) {
    && |t.handlers| == |t.known| && Distinct(t.known) && PrefixClosed(t.known)
    && forall i :: 0 <= i < |t.handlers| ==> |t.handlers[i]| == ROUTE_METHOD_COUNT
  }

  /** Pattern `j` goes on from `base`, matches the segments with at most `room` parameters, and has a handler. */
  ghost predicate Candidate(t: Table, base: Pattern, segments: seq<seq<Byte>>, room: nat, m: nat, j: nat)
    requires TableOk(t) && m < ROUTE_METHOD_COUNT
  {
    && j < |t.known| && base <= t.known[j] && Matches(t.known[j][|base|..], segments)
    && ParamCount(t.known[j][|base|..]) <= room && t.handlers[j][m].Some?
  }

  /** The candidate that comes before all others. */
  ghost predicate Best(t: Table, base: Pattern, segments: seq<seq<Byte>>, room: nat, m: nat, j: nat)
    requires TableOk(t) && m < ROUTE_METHOD_COUNT
  {
    && Candidate(t, base, segments, room, m, j)
    && forall k: nat :: Candidate(t, base, segments, room, m, k) ==>
         Before(t.known, base, t.known[j][|base|..], t.known[k][|base|..])
  }

  // ---- Going down one segment ----

  function RoomAfter(room: nat, s: Segment): int {
    if s.Param? then room - 1 else room
  }

  /** A segment of a pattern accepts a segment of the path. */
  predicate Accepts(s: Segment, text: seq<Byte>, room: nat) {
    if s.Literal? then s.text == text else room > 0
  }

  /** A candidate below `base` is one below `base` and its next segment. */
  lemma CandidateBelow(t: Table, base: Pattern, segments: seq<seq<Byte>>, room: nat, m: nat, k: nat)
    requires TableOk(t) && m < ROUTE_METHOD_COUNT && segments != [] && Candidate(t, base, segments, room, m, k)
    ensures |t.known[k]| > |base|
    ensures var s := t.known[k][|base|];
            && base + [s] in t.known && Accepts(s, segments[0], room)
            && Candidate(t, base + [s], segments[1..], RoomAfter(room, s), m, k)
            && t.known[k][|base + [s]|..] == t.known[k][|base|..][1..]
  {
    var q, n := t.known[k][|base|..], |base|;
    assert q[0] == t.known[k][n];
    var s := q[0];
    assert t.known[k][..n + 1] == base + [s];
    assert t.known[k][..n + 1] in t.known;
    assert t.known[k][n + 1..] == q[1..];
    forall i | 0 <= i < |q| - 1 ensures q[1..][i].Literal? ==> q[1..][i].text == segments[1..][i] {
      assert q[1..][i] == q[i + 1];
    }
  }

  lemma CandidateAbove(t: Table, base: Pattern, s: Segment, segments: seq<seq<Byte>>, room: nat, m: nat, k: nat)
    requires TableOk(t) && m < ROUTE_METHOD_COUNT && segments != [] && Accepts(s, segments[0], room)
    requires Candidate(t, base + [s], segments[1..], RoomAfter(room, s), m, k)
    ensures Candidate(t, base, segments, room, m, k) && t.known[k][|base|] == s
    ensures t.known[k][|base + [s]|..] == t.known[k][|base|..][1..]
  {
    var q, n := t.known[k][|base|..], |base|;
    assert t.known[k][..n + 1] == base + [s];
    assert t.known[k][n] == (base + [s])[n];
    assert q[0] == s && t.known[k][n + 1..] == q[1..];
    assert base <= t.known[k];
    forall i | 0 <= i < |q| ensures q[i].Literal? ==> q[i].text == segments[i] {
      if i > 0 { assert q[i] == q[1..][i - 1] && segments[i] == segments[1..][i - 1]; }
    }
  }

  /** The segment of pattern `k` after `base`. */
  function NextSegment(t: Table, base: Pattern, k: nat): Segment {
    if k < |t.known| && |base| < |t.known[k]| then t.known[k][|base|] else Literal([], 0)
  }

  predicate ComesFirst(known: seq<Pattern>, base: Pattern, s: Segment, other: Segment) {
    s == other || Precedes(known, base, s, other)
  }

  /** The best below a child is the best of all, when every other child with a candidate comes later. */
  lemma BestAbove(t: Table, base: Pattern, s: Segment, segments: seq<seq<Byte>>, room: nat, m: nat, j: nat)
    requires TableOk(t) && m < ROUTE_METHOD_COUNT && segments != [] && Accepts(s, segments[0], room)
    requires Best(t, base + [s], segments[1..], RoomAfter(room, s), m, j)
    requires forall k: nat :: Candidate(t, base, segments, room, m, k) ==> ComesFirst(t.known, base, s, NextSegment(t, base, k))
    ensures Best(t, base, segments, room, m, j)
    ensures t.known[j][|base|] == s && t.known[j][|base + [s]|..] == t.known[j][|base|..][1..]
  {
    hide Candidate, Before;
    CandidateAbove(t, base, s, segments, room, m, j);
    CandidateShape(t, base, segments, room, m, j);
    forall k: nat | Candidate(t, base, segments, room, m, k)
      ensures k < |t.known| && |t.known[k]| == |base| + |segments| && Before(t.known, base, t.known[j][|base|..], t.known[k][|base|..])
    {
      CandidateBelow(t, base, segments, room, m, k);
      CandidateShape(t, base, segments, room, m, k);
      BeforeStep(t.known, base, t.known[j][|base|..], t.known[k][|base|..]);
    }
  }

  lemma CandidateShape(t: Table, base: Pattern, segments: seq<seq<Byte>>, room: nat, m: nat, k: nat)
    requires TableOk(t) && m < ROUTE_METHOD_COUNT && Candidate(t, base, segments, room, m, k)
    ensures k < |t.known| && base <= t.known[k] && |t.known[k]| == |base| + |segments|
  {
  }

  lemma BeforeStep(known: seq<Pattern>, base: Pattern, p: Pattern, q: Pattern)
    requires |p| == |q| > 0
    ensures Before(known, base, p, q) ==
            if p[0] == q[0] then Before(known, base + [p[0]], p[1..], q[1..])
            else Precedes(known, base, p[0], q[0])
  {
  }

  /** At the end of the path only the pattern itself is left. */
  lemma CandidateHere(t: Table, base: Pattern, room: nat, m: nat, i: nat)
    requires TableOk(t) && m < ROUTE_METHOD_COUNT && i < |t.known| && t.known[i] == base
    ensures if t.handlers[i][m].Some? then Best(t, base, [], room, m, i)
            else forall k: nat :: !Candidate(t, base, [], room, m, k)
    ensures t.known[i][|base|..] == []
  {
    forall k: nat | Candidate(t, base, [], room, m, k) ensures k == i {
      assert t.known[k] == base;
    }
    assert t.known[i][|base|..] == [];
  }

  // ---- The answer, in terms of the registered routes alone ----

  predicate Fits(r: Route, segments: seq<seq<Byte>>, m: nat) {
    r.method_ == m && Matches(r.pattern, segments) && ParamCount(r.pattern) <= ROUTER_MAX_PARAMS
  }

  /** Route `i` fits, its pattern comes before that of every other route that fits, the handler is the last one
      registered with this pattern, and the parameters are its captured segments. */
  ghost predicate ChosenRoute(routes: seq<Route>, known: seq<Pattern>, segments: seq<seq<Byte>>, m: nat, h: nat,
                              captured: seq<RouteParam>, i: nat)
    requires i < |routes|
  {
    && Fits(routes[i], segments, m) && HandlerOf(routes, routes[i].pattern, m) == Some(h)
    && captured == Captured(routes[i].pattern, segments)
    && forall k :: 0 <= k < |routes| && Fits(routes[k], segments, m) ==>
         Before(known, [], routes[i].pattern, routes[k].pattern)
  }

  /** A path is matched exactly when some route fits it, and then by the preferred one. */
  ghost predicate Chosen(routes: seq<Route>, known: seq<Pattern>, segments: seq<seq<Byte>>, m: nat, r: Option<nat>,
                         captured: seq<RouteParam>)
  {
    match r
    case None => captured == [] && forall k :: 0 <= k < |routes| ==> !Fits(routes[k], segments, m)
    case Some(h) => exists i: nat :: i < |routes| && ChosenRoute(routes, known, segments, m, h, captured, i)
  }

  // ---- The answer, in terms of a list of routes ----

  /** The first route whose pattern begins with q, or their number. */
  function FirstWith(routes: seq<Route>, q: Pattern): (i: nat)
    ensures i <= |routes| && (i < |routes| ==> q <= routes[i].pattern)
    ensures forall k :: 0 <= k < i ==> !(q <= routes[k].pattern)
  {
    if routes == [] || q <= routes[0].pattern then 0 else 1 + FirstWith(routes[1..], q)
  }

  lemma FirstWithSnoc(routes: seq<Route>, q: Pattern)
    requires routes != []
    ensures var init := routes[..|routes| - 1];
            FirstWith(routes, q) ==
            if FirstWith(init, q) < |init| then FirstWith(init, q) else if q <= routes[|routes| - 1].pattern then |init| else |routes|
  {
    var init := routes[..|routes| - 1];
    var i, j := FirstWith(routes, q), FirstWith(init, q);
    assert forall k :: 0 <= k < |init| ==> init[k] == routes[k];
    assert i < |init| ==> init[i] == routes[i];
  }

  lemma {:induction false} KnownMembers(routes: seq<Route>, q: Pattern)
    ensures q in KnownOf(routes) <==> q == [] || FirstWith(routes, q) < |routes|
    decreases |routes|
  {
    if routes != [] {
      var last := routes[|routes| - 1].pattern;
      KnownMembers(routes[..|routes| - 1], q);
      ExtendMembers(KnownOf(routes[..|routes| - 1]), last, |last|, q);
      FirstWithSnoc(routes, q);
    }
  }

  lemma {:induction false} IndexInFront(known: seq<Pattern>, more: seq<Pattern>, q: Pattern)
    ensures IndexOf(known + more, q) == if q in known then IndexOf(known, q) else |known| + IndexOf(more, q)
    decreases |known|
  {
    if known == [] {
      assert known + more == more;
    } else {
      assert (known + more)[1..] == known[1..] + more;
      IndexInFront(known[1..], more, q);
    }
  }

  lemma {:induction false} ExtendAppends(known: seq<Pattern>, p: Pattern, n: nat) returns (more: seq<Pattern>)
    requires n <= |p|
    ensures Extend(known, p, n) == known + more
    decreases n
  {
    if n == 0 {
      more := if [] in known then [] else [[]];
    } else {
      var before := ExtendAppends(known, p, n - 1);
      more := if p[..n] in known + before then before else before + [p[..n]];
    }
  }

  lemma {:induction false} IndexOfMember(known: seq<Pattern>, q: Pattern)
    ensures q in known <==> IndexOf(known, q) < |known|
  {
    var i := IndexOf(known, q);
    if q in known { var j :| 0 <= j < |known| && known[j] == q; }
  }

  /** Of two different beginnings of the same length, the one that some route of the list has first is known first. */
  lemma {:induction false} KnownOrder(routes: seq<Route>, q: Pattern, q': Pattern)
    requires q != q' && |q| == |q'| && q in KnownOf(routes) && q' in KnownOf(routes)
    ensures IndexOf(KnownOf(routes), q) < IndexOf(KnownOf(routes), q') <==> FirstWith(routes, q) < FirstWith(routes, q')
    decreases |routes|
  {
    hide IndexOf, Extend;
    if routes != [] {
      var init, last := routes[..|routes| - 1], routes[|routes| - 1].pattern;
      var known := KnownOf(init);
      var more := ExtendAppends(known, last, |last|);
      IndexInFront(known, more, q);
      IndexInFront(known, more, q');
      FirstWithSnoc(routes, q);
      FirstWithSnoc(routes, q');
      KnownMembers(init, q);
      KnownMembers(init, q');
      KnownMembers(routes, q);
      KnownMembers(routes, q');
      IndexOfMember(known, q);
      IndexOfMember(known, q');
      OnePrefix(last, q, q');
      if q in known && q' in known { KnownOrder(init, q, q'); }
    }
  }

  lemma OnePrefix(p: Pattern, q: Pattern, q': Pattern)
    requires |q| == |q'|
    ensures q <= p && q' <= p ==> q == q'
  {
  }

  /** `p` is preferred to `q` below `base` by a list of routes: where they first differ, a literal comes before a
      parameter, and otherwise the one that a route of the list has first. */
  predicate BeforeInList(routes: seq<Route>, base: Pattern, p: Pattern, q: Pattern)
    requires |p| == |q|
    decreases |p|
  {
    if p == [] then true
    else if p[0] == q[0] then BeforeInList(routes, base + [p[0]], p[1..], q[1..])
    else
      (p[0].Literal? && q[0].Param?) ||
      (p[0].Literal? == q[0].Literal? && FirstWith(routes, base + [p[0]]) < FirstWith(routes, base + [q[0]]))
  }

  lemma {:induction false} BeforeIsListOrder(routes: seq<Route>, base: Pattern, p: Pattern, q: Pattern)
    requires |p| == |q| && FirstWith(routes, base + p) < |routes| && FirstWith(routes, base + q) < |routes|
    ensures Before(KnownOf(routes), base, p, q) == BeforeInList(routes, base, p, q)
    decreases |p|
  {
    hide IndexOf, KnownOf, FirstWith;
    if p != [] {
      var s, t := base + [p[0]], base + [q[0]];
      assert base + p == s + p[1..] && base + q == t + q[1..];
      if p[0] == q[0] {
        BeforeIsListOrder(routes, s, p[1..], q[1..]);
      } else {
        ShorterIsKnown(routes, s, p[1..]);
        ShorterIsKnown(routes, t, q[1..]);
        assert s[|base|] != t[|base|];
        KnownOrder(routes, s, t);
      }
    }
  }

  lemma ShorterIsKnown(routes: seq<Route>, q: Pattern, more: Pattern)
    requires FirstWith(routes, q + more) < |routes|
    ensures q in KnownOf(routes)
  {
    KnownMembers(routes, q);
    var i := FirstWith(routes, q + more);
    assert q <= q + more <= routes[i].pattern;
  }

  /** A path is matched exactly when some route of the list fits it, and then by the one that comes before all others
      that fit, in the order of the list. */
  ghost predicate ChosenFromList(routes: seq<Route>, segments: seq<seq<Byte>>, m: nat, r: Option<nat>, captured: seq<RouteParam>) {
    match r
    case None => captured == [] && forall k :: 0 <= k < |routes| ==> !Fits(routes[k], segments, m)
    case Some(h) => exists i: nat :: i < |routes| && FirstInList(routes, segments, m, h, captured, i)
  }

  ghost predicate FirstInList(routes: seq<Route>, segments: seq<seq<Byte>>, m: nat, h: nat, captured: seq<RouteParam>, i: nat)
    requires i < |routes|
  {
    && Fits(routes[i], segments, m) && HandlerOf(routes, routes[i].pattern, m) == Some(h)
    && captured == Captured(routes[i].pattern, segments)
    && forall k :: 0 <= k < |routes| && Fits(routes[k], segments, m) ==>
         BeforeInList(routes, [], routes[i].pattern, routes[k].pattern)
  }

  /** What a router prefers that knows just this list is what comes first in the list. */
  lemma ListDecides(routes: seq<Route>, segments: seq<seq<Byte>>, m: nat, r: Option<nat>, captured: seq<RouteParam>)
    requires Chosen(routes, KnownOf(routes), segments, m, r, captured)
    ensures ChosenFromList(routes, segments, m, r, captured)
  {
    hide KnownOf, Before, BeforeInList, HandlerOf;
    if r.Some? {
      var i: nat :| i < |routes| && ChosenRoute(routes, KnownOf(routes), segments, m, r.value, captured, i);
      forall k | 0 <= k < |routes| && Fits(routes[k], segments, m)
        ensures BeforeInList(routes, [], routes[i].pattern, routes[k].pattern)
      {
        assert [] + routes[i].pattern == routes[i].pattern && [] + routes[k].pattern == routes[k].pattern;
        BeforeIsListOrder(routes, [], routes[i].pattern, routes[k].pattern);
      }
      assert FirstInList(routes, segments, m, r.value, captured, i);
    }
  }
}
