/** The trie router of src/router.c: nodes with children in the order they were added, and a recursive match
    that captures parameters and backtracks, proved against the flat list of module Routes. A pointer to a
    node is its index. */
module Router {
  import opened Bytes
  import opened Options
  import opened Routes

  datatype RouterNode = RouterNode(segment: Segment, handlers: seq<Option<nat>>, children: seq<nat>)

  /** The captured parameters: a buffer of 16 and how much of it is in use. */
  class RouteParams {
    const params: array<RouteParam>
    var count: nat

    ghost predicate Valid()
      reads this
    {
      params.Length == ROUTER_MAX_PARAMS && count <= ROUTER_MAX_PARAMS
    }

    ghost function View(): seq<RouteParam>
      requires Valid()
      reads this, params
    {
      params[..count]
    }

    constructor ()
      ensures Valid() && View() == [] && fresh(params)
    {
      params := new RouteParam[ROUTER_MAX_PARAMS](_ => RouteParam([], []));
      count := 0;
    }
  }

  function NoHandlers(): seq<Option<nat>> {
    seq(ROUTE_METHOD_COUNT, _ => None)
  }

  /** node_new, for a segment that has been cut to fit. */
  function NewNode(s: Segment): RouterNode {
    RouterNode(s, NoHandlers(), [])
  }

  ghost function TableOf(nodes: seq<RouterNode>, known: seq<Pattern>): Table {
    Table(known, seq(|nodes|, i requires 0 <= i < |nodes| => nodes[i].handlers))
  }

  /** Children are the one-segment extensions of their parent's pattern, in the order of their indices. */
  ghost predicate LinksOk(nodes: seq<RouterNode>, known: seq<Pattern>) {
    && |nodes| == |known| > 0 && known[0] == []
    && (forall i, x :: 0 <= i < |nodes| && 0 <= x < |nodes[i].children| ==>
          i < nodes[i].children[x] < |nodes| &&
          known[nodes[i].children[x]] == known[i] + [nodes[nodes[i].children[x]].segment])
    && (forall i, x, y :: 0 <= i < |nodes| && 0 <= x < y < |nodes[i].children| ==>
          nodes[i].children[x] < nodes[i].children[y])
    && (forall i, c :: 0 <= i < |nodes| && 0 <= c < |nodes| && IsChild(known, i, c) ==> c in nodes[i].children)
  }

  /** Pattern `c` is pattern `i` and one more segment. */
  ghost predicate IsChild(known: seq<Pattern>, i: nat, c: nat) {
    i < |known| && c < |known| && |known[c]| == |known[i]| + 1 && known[c][..|known[i]|] == known[i]
  }

  /** Each node has the handler of the last route with its pattern, for each method. */
  ghost predicate HandlersOk(nodes: seq<RouterNode>, known: seq<Pattern>, routes: seq<Route>) {
    && (forall i: nat, m: nat :: i < |nodes| && i < |known| && m < |nodes[i].handlers| ==>
          HandlerIsLast(nodes, known, routes, i, m))
    && (forall i :: 0 <= i < |routes| ==> routes[i].pattern in known && routes[i].method_ < ROUTE_METHOD_COUNT)
  }

  ghost predicate HandlerIsLast(nodes: seq<RouterNode>, known: seq<Pattern>, routes: seq<Route>, i: nat, m: nat)
    requires i < |nodes| && i < |known| && m < |nodes[i].handlers|
  {
    nodes[i].handlers[m] == HandlerOf(routes, known[i], m)
  }

  /** No node has more children than fit its array. */
  predicate ChildrenFit(nodes: seq<RouterNode>) {
    forall i :: 0 <= i < |nodes| ==> |nodes[i].children| <= ROUTER_MAX_CHILDREN
  }

  /** The texts of the nodes fit, and a cut segment is marked with the node made for it. */
  ghost predicate TextsFit(nodes: seq<RouterNode>, known: seq<Pattern>) {
    && (forall c :: 0 <= c < |nodes| ==> |TextOf(nodes[c].segment)| <= MAX_TEXT)
    && (forall c, k :: 0 <= c < |known| && 0 <= k < |known[c]| ==> known[c][k].copy <= c)
  }

  class Router {
    var nodes: seq<RouterNode>
    ghost var known: seq<Pattern>      // the pattern of each node
    ghost var routes: seq<Route>       // what has been registered

    ghost function Table_(): Table
      reads this
    {
      TableOf(nodes, known)
    }

    ghost predicate Valid()
      reads this
    {
      && LinksOk(nodes, known) && TableOk(Table_()) && HandlersOk(nodes, known, routes) && ChildrenFit(nodes)
      && TextsFit(nodes, known)
    }

    /** router_init: a root without handlers. */
    constructor ()
      ensures Valid() && routes == [] && known == [[]]
    {
      hide LinksOk, TableOk, HandlersOk, ChildrenFit, TextsFit, TableOf;
      nodes, known, routes := [NewNode(Literal([], 0))], [[]], [];
      new;
      EmptyRouter();
    }

    /** The matched node is the preferred candidate below node `i`, and its parameters have been captured. */
    ghost predicate Found(i: nat, segments: seq<seq<Byte>>, before: seq<RouteParam>, m: nat, r: Option<nat>, j: nat,
                          params: RouteParams)
      requires Valid() && i < |nodes| && m < ROUTE_METHOD_COUNT && |before| <= ROUTER_MAX_PARAMS && params.Valid()
      reads this, params, params.params
    {
      match r
      case None =>
        params.View() == before && NothingUnder(i, segments, ROUTER_MAX_PARAMS - |before|, m)
      case Some(h) =>
        && Best(Table_(), known[i], segments, ROUTER_MAX_PARAMS - |before|, m, j)
        && nodes[j].handlers[m] == Some(h)
        && params.View() == before + Captured(known[j][|known[i]|..], segments)
    }

    /** Nothing below node `c` matches. */
    ghost predicate NothingUnder(c: nat, rest: seq<seq<Byte>>, room: nat, m: nat)
      requires TableOk(Table_()) && m < ROUTE_METHOD_COUNT
      reads this
    {
      c < |known| && forall k: nat :: !Candidate(Table_(), known[c], rest, room, m, k)
    }

    ghost predicate TriedLiteral(c: nat, segment: seq<Byte>, rest: seq<seq<Byte>>, room: nat, m: nat)
      requires TableOk(Table_()) && m < ROUTE_METHOD_COUNT
      reads this
    {
      c < |nodes| && nodes[c].segment.Literal? && nodes[c].segment.text == segment ==> NothingUnder(c, rest, room, m)
    }

    ghost predicate TriedParam(c: nat, rest: seq<seq<Byte>>, room: nat, m: nat)
      requires TableOk(Table_()) && m < ROUTE_METHOD_COUNT
      reads this
    {
      c < |nodes| && nodes[c].segment.Param? && room > 0 ==> NothingUnder(c, rest, room - 1, m)
    }

    /** Every candidate below node `i` goes on with a parameter. */
    ghost predicate NoLiteralFits(i: nat, segments: seq<seq<Byte>>, room: nat, m: nat)
      requires TableOk(Table_()) && m < ROUTE_METHOD_COUNT
      reads this
    {
      i < |known| && forall k: nat :: Candidate(Table_(), known[i], segments, room, m, k) ==>
        NextSegment(Table_(), known[i], k).Param?
    }

    /** At the end of the path the node's own handler is the only candidate. */
    lemma HandlerHere(i: nat, m: nat, params: RouteParams)
      requires Valid() && i < |nodes| && m < ROUTE_METHOD_COUNT && params.Valid()
      ensures |nodes[i].handlers| == ROUTE_METHOD_COUNT
      ensures Found(i, [], params.View(), m, nodes[i].handlers[m], i, params)
    {
      hide LinksOk, HandlersOk, Candidate, Best;
      assert Table_().handlers[i] == nodes[i].handlers;
      CandidateHere(Table_(), known[i], ROUTER_MAX_PARAMS - params.count, m, i);
      assert params.View() + [] == params.View();
    }

    lemma ChildInRange(i: nat, x: nat)
      requires Valid() && i < |nodes| && x < |nodes[i].children|
      ensures i < nodes[i].children[x] < |nodes| == |known|
      ensures known[nodes[i].children[x]] == known[i] + [nodes[nodes[i].children[x]].segment]
    {
    }

    /** Every known extension of a node's pattern by one segment is one of its children. */
    lemma ChildFor(i: nat, s: Segment) returns (x: nat)
      requires Valid() && i < |nodes| && known[i] + [s] in known
      ensures x < |nodes[i].children| && nodes[i].children[x] < |nodes|
      ensures known[nodes[i].children[x]] == known[i] + [s] && nodes[nodes[i].children[x]].segment == s
      ensures IndexOf(known, known[i] + [s]) == nodes[i].children[x]
    {
      var c := IndexOf(known, known[i] + [s]);
      var j :| 0 <= j < |known| && known[j] == known[i] + [s];
      assert c <= j;
      assert IsChild(known, i, c);
      x :| 0 <= x < |nodes[i].children| && nodes[i].children[x] == c;
      assert (known[i] + [nodes[c].segment])[|known[i]|] == (known[i] + [s])[|known[i]|];
    }

    lemma AllLiteralsTried(i: nat, segment: seq<Byte>, rest: seq<seq<Byte>>, room: nat, m: nat)
      requires Valid() && i < |nodes| && m < ROUTE_METHOD_COUNT
      requires forall y :: 0 <= y < |nodes[i].children| ==> TriedLiteral(nodes[i].children[y], segment, rest, room, m)
      ensures NoLiteralFits(i, [segment] + rest, room, m)
    {
      hide LinksOk, Candidate, HandlersOk, Table_, TableOk;
      var t := Table_();
      SameKnown();
      forall k: nat | Candidate(t, known[i], [segment] + rest, room, m, k) ensures NextSegment(t, known[i], k).Param? {
        CandidateBelow(t, known[i], [segment] + rest, room, m, k);
        var s := t.known[k][|known[i]|];
        assert ([segment] + rest)[1..] == rest;
        if s.Literal? {
          var x := ChildFor(i, s);
        }
      }
      SameKnown();
    }

    lemma SameKnown()
      requires Valid()
      ensures Table_().known == known && |known| == |nodes|
    {
    }

    lemma AllParamsTried(i: nat, segment: seq<Byte>, rest: seq<seq<Byte>>, before: seq<RouteParam>, m: nat,
                         params: RouteParams)
      requires Valid() && i < |nodes| && m < ROUTE_METHOD_COUNT && params.Valid() && |before| <= ROUTER_MAX_PARAMS
      requires params.View() == before && NoLiteralFits(i, [segment] + rest, ROUTER_MAX_PARAMS - |before|, m)
      requires forall y :: 0 <= y < |nodes[i].children| ==>
                 TriedParam(nodes[i].children[y], rest, ROUTER_MAX_PARAMS - |before|, m)
      ensures Found(i, [segment] + rest, before, m, None, 0, params)
    {
      hide LinksOk, Candidate, HandlersOk, Table_, TableOk;
      var t, room := Table_(), ROUTER_MAX_PARAMS - |before|;
      SameKnown();
      forall k: nat ensures !Candidate(t, known[i], [segment] + rest, room, m, k) {
        if Candidate(t, known[i], [segment] + rest, room, m, k) {
          CandidateBelow(t, known[i], [segment] + rest, room, m, k);
          var s := t.known[k][|known[i]|];
          assert ([segment] + rest)[1..] == rest && s == NextSegment(t, known[i], k);
          CandidateShape(t, known[i], [segment] + rest, room, m, k);
          var x := ChildFor(i, s);
        }
      }
    }

    /** A match below a literal child is a match below its parent when no earlier child with the same text has one;
        without a match the child is done. */
    lemma FoundBelow(i: nat, x: nat, segment: seq<Byte>, rest: seq<seq<Byte>>, before: seq<RouteParam>, m: nat,
                     r: Option<nat>, j: nat, params: RouteParams)
      requires Valid() && i < |nodes| && x < |nodes[i].children| && m < ROUTE_METHOD_COUNT && params.Valid()
      requires |before| <= ROUTER_MAX_PARAMS && nodes[i].children[x] < |nodes|
      requires nodes[nodes[i].children[x]].segment.Literal? && nodes[nodes[i].children[x]].segment.text == segment
      requires forall y :: 0 <= y < x ==> TriedLiteral(nodes[i].children[y], segment, rest, ROUTER_MAX_PARAMS - |before|, m)
      requires Found(nodes[i].children[x], rest, before, m, r, j, params)
      ensures r.Some? ==> Found(i, [segment] + rest, before, m, r, j, params)
      ensures r.None? ==> params.View() == before
      ensures r.None? ==> TriedLiteral(nodes[i].children[x], segment, rest, ROUTER_MAX_PARAMS - |before|, m)
    {
      hide LinksOk, Candidate, HandlersOk, Table_, TableOk, Best, IndexOf;
      ChildInRange(i, x);
      SameKnown();
      if r.Some? {
        var t, s, segments := Table_(), nodes[nodes[i].children[x]].segment, [segment] + rest;
        var room := ROUTER_MAX_PARAMS - |before|;
        assert segments[1..] == rest;
        forall k: nat | Candidate(t, known[i], segments, room, m, k)
          ensures ComesFirst(t.known, known[i], s, NextSegment(t, known[i], k))
        {
          OtherLiteralComesLater(i, x, segment, rest, room, m, k);
        }
        BestAbove(t, known[i], s, segments, room, m, j);
        BestShape(t, known[i], segments, room, m, j);
        CapturedStep(t.known[j][|known[i]|..], segments);
      }
    }

    lemma OtherLiteralComesLater(i: nat, x: nat, segment: seq<Byte>, rest: seq<seq<Byte>>, room: nat, m: nat, k: nat)
      requires Valid() && i < |nodes| && x < |nodes[i].children| && m < ROUTE_METHOD_COUNT
      requires nodes[i].children[x] < |nodes| && nodes[nodes[i].children[x]].segment.Literal?
      requires forall y :: 0 <= y < x ==> TriedLiteral(nodes[i].children[y], segment, rest, room, m)
      requires Candidate(Table_(), known[i], [segment] + rest, room, m, k)
      ensures ComesFirst(known, known[i], nodes[nodes[i].children[x]].segment, NextSegment(Table_(), known[i], k))
    {
      hide Candidate, HandlersOk, Table_, TableOk, IndexOf;
      SameKnown();
      var t := Table_();
      CandidateBelow(t, known[i], [segment] + rest, room, m, k);
      CandidateShape(t, known[i], [segment] + rest, room, m, k);
      var other := NextSegment(t, known[i], k);
      assert ([segment] + rest)[1..] == rest;
      var z := ChildFor(i, other);
      ChildInRange(i, x);
      var own := ChildFor(i, nodes[nodes[i].children[x]].segment);
      SameChild(i, x, own);
    }

    lemma NothingBelow(c: nat, rest: seq<seq<Byte>>, before: seq<RouteParam>, m: nat, r: Option<nat>, j: nat,
                       params: RouteParams)
      requires Valid() && c < |nodes| && m < ROUTE_METHOD_COUNT && params.Valid() && |before| <= ROUTER_MAX_PARAMS
      requires Found(c, rest, before, m, r, j, params) && r.None?
      ensures params.View() == before && NothingUnder(c, rest, ROUTER_MAX_PARAMS - |before|, m)
    {
    }

    /** A match below a parameter child is the preferred one when no literal and no earlier parameter fits. */
    lemma ParamFound(i: nat, x: nat, segment: seq<Byte>, rest: seq<seq<Byte>>, before: seq<RouteParam>, m: nat,
                     r: Option<nat>, j: nat, params: RouteParams)
      requires Valid() && i < |nodes| && x < |nodes[i].children| && m < ROUTE_METHOD_COUNT && params.Valid()
      requires |before| < ROUTER_MAX_PARAMS && nodes[i].children[x] < |nodes|
      requires nodes[nodes[i].children[x]].segment.Param? && r.Some?
      requires NoLiteralFits(i, [segment] + rest, ROUTER_MAX_PARAMS - |before|, m)
      requires forall y :: 0 <= y < x ==> TriedParam(nodes[i].children[y], rest, ROUTER_MAX_PARAMS - |before|, m)
      requires Found(nodes[i].children[x], rest,
                     before + [RouteParam(nodes[nodes[i].children[x]].segment.name, segment)], m, r, j, params)
      ensures Found(i, [segment] + rest, before, m, r, j, params)
    {
      hide LinksOk, Candidate, HandlersOk, Table_, TableOk, Best, IndexOf;
      ChildInRange(i, x);
      SameKnown();
      var t, s, segments := Table_(), nodes[nodes[i].children[x]].segment, [segment] + rest;
      var room := ROUTER_MAX_PARAMS - |before|;
      assert segments[1..] == rest;
      forall k: nat | Candidate(t, known[i], segments, room, m, k)
        ensures ComesFirst(t.known, known[i], s, NextSegment(t, known[i], k))
      {
        OtherComesLater(i, x, segment, rest, room, m, k);
      }
      BestAbove(t, known[i], s, segments, room, m, j);
      BestShape(t, known[i], segments, room, m, j);
      CapturedStep(t.known[j][|known[i]|..], segments);
      assert before + [RouteParam(s.name, segment)] + Captured(t.known[j][|known[i]|..][1..], rest) ==
             before + ([RouteParam(s.name, segment)] + Captured(t.known[j][|known[i]|..][1..], rest));
    }

    lemma OtherComesLater(i: nat, x: nat, segment: seq<Byte>, rest: seq<seq<Byte>>, room: nat, m: nat, k: nat)
      requires Valid() && i < |nodes| && x < |nodes[i].children| && m < ROUTE_METHOD_COUNT && room > 0
      requires nodes[i].children[x] < |nodes| && nodes[nodes[i].children[x]].segment.Param?
      requires NoLiteralFits(i, [segment] + rest, room, m)
      requires forall y :: 0 <= y < x ==> TriedParam(nodes[i].children[y], rest, room, m)
      requires Candidate(Table_(), known[i], [segment] + rest, room, m, k)
      ensures ComesFirst(known, known[i], nodes[nodes[i].children[x]].segment, NextSegment(Table_(), known[i], k))
    {
      hide Candidate, HandlersOk, Table_, TableOk, IndexOf;
      SameKnown();
      var t := Table_();
      CandidateBelow(t, known[i], [segment] + rest, room, m, k);
      CandidateShape(t, known[i], [segment] + rest, room, m, k);
      var other := NextSegment(t, known[i], k);
      assert ([segment] + rest)[1..] == rest;
      var z := ChildFor(i, other);
      ChildInRange(i, x);
      var own := ChildFor(i, nodes[nodes[i].children[x]].segment);
      SameChild(i, x, own);
    }

    lemma SameChild(i: nat, x: nat, y: nat)
      requires Valid() && i < |nodes| && x < |nodes[i].children| && y < |nodes[i].children|
      requires known[nodes[i].children[x]] == known[nodes[i].children[y]]
      ensures x == y
    {
      assert Distinct(Table_().known);
    }

    /** match_recursive: literal children first, then parameters; a failed try restores the count. */
    method MatchRecursive(i: nat, path: seq<Byte>, m: nat, params: RouteParams) returns (r: Option<nat>, ghost j: nat)
      requires Valid() && i < |nodes| && m < ROUTE_METHOD_COUNT && params.Valid()
      modifies params, params.params
      ensures params.Valid() && Found(i, Split(path), old(params.View()), m, r, j, params)
      decreases |path|, 0
    {
      hide LinksOk, TableOk, HandlersOk, Candidate, Best, Split, Captured;
      var inner := SkipSlash(path);
      SplitParts(path);
      if inner == [] {
        HandlerHere(i, m, params);
        return nodes[i].handlers[m], i;
      }
      var length := Length(inner);
      var segment, remaining := inner[..length], inner[length..];
      r, j := MatchLiterals(i, segment, remaining, m, params);
      if r.Some? { return; }
      r, j := MatchParams(i, segment, remaining, m, params);
    }

    /** The loop over the literal children. */
    method MatchLiterals(i: nat, segment: seq<Byte>, remaining: seq<Byte>, m: nat, params: RouteParams)
      returns (r: Option<nat>, ghost j: nat)
      requires Valid() && i < |nodes| && m < ROUTE_METHOD_COUNT && params.Valid()
      modifies params, params.params
      ensures params.Valid()
      ensures r.Some? ==> Found(i, [segment] + Split(remaining), old(params.View()), m, r, j, params)
      ensures r.None? ==>
                && params.View() == old(params.View())
                && NoLiteralFits(i, [segment] + Split(remaining), ROUTER_MAX_PARAMS - params.count, m)
      decreases |remaining|, 1
    {
      hide LinksOk, TableOk, HandlersOk, Candidate, Best, Split, Captured, Table_, Found;
      r, j := None, 0;
      var x := 0;
      ghost var before, rest, room := params.View(), Split(remaining), ROUTER_MAX_PARAMS - params.count;
      while x < |nodes[i].children|
        invariant x <= |nodes[i].children| && params.Valid() && params.View() == before
        invariant forall y :: 0 <= y < x ==> TriedLiteral(nodes[i].children[y], segment, rest, room, m)
      {
        var c := nodes[i].children[x];
        ChildInRange(i, x);
        var child := nodes[c];
        if child.segment.Literal? {
          if child.segment.text == segment {
            r, j := MatchRecursive(c, remaining, m, params);
            FoundBelow(i, x, segment, rest, before, m, r, j, params);
            if r.Some? { return; }
          }
        }
        x := x + 1;
      }
      AllLiteralsTried(i, segment, rest, room, m);
      r := None;
    }

    /** The loop over the parameter children, once no literal child has led to a match. */
    method MatchParams(i: nat, segment: seq<Byte>, remaining: seq<Byte>, m: nat, params: RouteParams)
      returns (r: Option<nat>, ghost j: nat)
      requires Valid() && i < |nodes| && m < ROUTE_METHOD_COUNT && params.Valid()
      requires NoLiteralFits(i, [segment] + Split(remaining), ROUTER_MAX_PARAMS - params.count, m)
      modifies params, params.params
      ensures params.Valid() && Found(i, [segment] + Split(remaining), old(params.View()), m, r, j, params)
      decreases |remaining|, 1
    {
      hide LinksOk, TableOk, HandlersOk, Candidate, Best, Split, Captured, Table_, Found, NoLiteralFits;
      r, j := None, 0;
      var x := 0;
      ghost var before, rest, room := params.View(), Split(remaining), ROUTER_MAX_PARAMS - params.count;
      while x < |nodes[i].children|
        invariant x <= |nodes[i].children| && params.Valid() && params.View() == before
        invariant forall y :: 0 <= y < x ==> TriedParam(nodes[i].children[y], rest, room, m)
      {
        var c := nodes[i].children[x];
        ChildInRange(i, x);
        var child := nodes[c];
        if child.segment.Param? && params.count < ROUTER_MAX_PARAMS {
          var saved := params.count;
          params.params[params.count] := RouteParam(child.segment.name, segment);
          params.count := params.count + 1;
          ghost var captured := before + [RouteParam(child.segment.name, segment)];
          assert params.View() == captured;
          r, j := MatchRecursive(c, remaining, m, params);
          if r.Some? {
            ParamFound(i, x, segment, rest, before, m, r, j, params);
            return;
          }
          NothingBelow(c, rest, captured, m, r, j, params);
          params.count := saved;
          assert params.View() == captured[..saved] == before;
        }
        x := x + 1;
      }
      AllParamsTried(i, segment, rest, before, m, params);
      r, j := None, 0;
    }

    // ---- Adding routes ----

    /** The first child with the text of s. */
    method Search(i: nat, s: Segment) returns (c: Option<nat>)
      requires Valid() && i < |nodes|
      ensures var j := FirstChild(known, known[i], s, 0);
              c == if j < |known| then Some(j) else None
      ensures |nodes| == |known|
    {
      hide LinksOk, TableOk, HandlersOk, TextsFit, Table_, FirstChild;
      SameKnown();
      var x := 0;
      while x < |nodes[i].children|
        invariant x <= |nodes[i].children|
        invariant forall y :: 0 <= y < x ==> nodes[i].children[y] < |nodes| && !SameText(nodes[nodes[i].children[y]].segment, s)
      {
        ChildInRange(i, x);
        if SameText(nodes[nodes[i].children[x]].segment, s) {
          FirstIsThere(i, x, s);
          return Some(nodes[i].children[x]);
        }
        x := x + 1;
      }
      NoneIsThere(i, s);
      c := None;
    }

    /** The first child that is known is among the children. */
    lemma FirstIsChild(i: nat, s: Segment) returns (z: nat)
      requires Valid() && i < |nodes| == |known| && FirstChild(known, known[i], s, 0) < |known|
      ensures z < |nodes[i].children| && nodes[i].children[z] == FirstChild(known, known[i], s, 0)
      ensures SameText(nodes[nodes[i].children[z]].segment, s)
    {
      hide TableOk, HandlersOk, TextsFit, Table_, SameText;
      var j := FirstChild(known, known[i], s, 0);
      assert IsChild(known, i, j);
      z :| 0 <= z < |nodes[i].children| && nodes[i].children[z] == j;
      ChildInRange(i, z);
    }

    /** The children come in the order in which they were made known. */
    lemma FirstIsThere(i: nat, x: nat, s: Segment)
      requires Valid() && i < |nodes| && x < |nodes[i].children| && |nodes| == |known|
      requires forall y :: 0 <= y <= x ==> nodes[i].children[y] < |nodes|
      requires SameText(nodes[nodes[i].children[x]].segment, s)
      requires forall y :: 0 <= y < x ==> !SameText(nodes[nodes[i].children[y]].segment, s)
      ensures FirstChild(known, known[i], s, 0) == nodes[i].children[x]
    {
      hide TableOk, HandlersOk, TextsFit, Table_, SameText;
      var c := nodes[i].children[x];
      ChildInRange(i, x);
      assert IsChildWith(known[c], known[i], s);
      var z := FirstIsChild(i, s);
    }

    lemma NoneIsThere(i: nat, s: Segment)
      requires Valid() && i < |nodes| && |nodes| == |known|
      requires forall y :: 0 <= y < |nodes[i].children| ==> nodes[i].children[y] < |nodes| && !SameText(nodes[nodes[i].children[y]].segment, s)
      ensures FirstChild(known, known[i], s, 0) == |known|
    {
      hide LinksOk, TableOk, HandlersOk, TextsFit, Table_, SameText;
      if FirstChild(known, known[i], s, 0) < |known| {
        var z := FirstIsChild(i, s);
      }
    }

    /** find_or_create_child: the first child with the text of a segment, or a new one; nothing exactly when there is
        none and the node has 32 children already. */
    method FindOrCreateChild(i: nat, s: Segment) returns (c: Option<nat>)
      requires Valid() && i < |nodes|
      modifies this
      ensures Valid() && routes == old(routes)
      ensures var next := old(known)[i] + [Step(old(known), old(known)[i], s)];
              && (c.None? <==> next !in old(known) && |old(nodes)[i].children| == ROUTER_MAX_CHILDREN)
              && (c.Some? ==> c.value < |nodes| && known == AddNew(old(known), next) && known[c.value] == next)
              && (c.Some? && next !in old(known) ==> NextSegments(known, known[c.value]) == {})
      ensures |NextSegments(old(known), old(known)[i])| == |old(nodes)[i].children| <= ROUTER_MAX_CHILDREN
      ensures c.None? ==> known == old(known)
    {
      hide LinksOk, TableOk, HandlersOk, TextsFit, IndexOf, TableOf, NextSegments, ChildrenFit, FirstChild, NewSegment, SameText;
      SameKnown();
      KnownClosed();
      CountChildren(nodes, known, i);
      FullMeans(nodes, i);
      c := Search(i, s);
      if c.Some? {
        ChildIsStep(c.value, known[i]);
        return;
      }
      NewIsUnknown(i, s);
      if |nodes[i].children| >= ROUTER_MAX_CHILDREN { return None; }
      ghost var next := known[i] + [NewSegment(s, |known|)];
      CreateKeepsValid(nodes, known, routes, i, NewSegment(s, |known|));
      CreateKeepsChildrenFit(nodes, i, NewSegment(s, |known|));
      CreateKeepsTexts(nodes, known, i, s);
      NothingFollowsNew(known, next);
      c := Some(|nodes|);
      nodes := Created(nodes, i, NewSegment(s, |nodes|));
      known := known + [next];
    }

    lemma ChildIsStep(c: nat, base: Pattern)
      requires c < |known| && |known[c]| == |base| + 1 && base <= known[c]
      ensures known[c] == base + [known[c][|base|]]
    {
    }

    /** What is made for a segment that was not found is new. */
    lemma NewIsUnknown(i: nat, s: Segment)
      requires Valid() && i < |nodes| == |known| && FirstChild(known, known[i], s, 0) == |known|
      ensures known[i] + [NewSegment(s, |known|)] !in known
    {
      hide LinksOk, TableOk, HandlersOk, ChildrenFit, Table_;
      var t := NewSegment(s, |known|);
      forall c | 0 <= c < |known| ensures known[c] != known[i] + [t] {
        assert !IsChildWith(known[c], known[i], s);
        assert |known[c]| > |known[i]| ==> known[c][|known[i]|].copy <= c;
        assert (known[i] + [t])[|known[i]|] == t;
      }
    }

    lemma KnownClosed()
      requires Valid()
      ensures PrefixClosed(known) && Distinct(known)
    {
      hide LinksOk, HandlersOk;
      assert Table_().known == known;
    }

    /** router_add. The route is registered under the pattern that its path leads to, unless its method is unknown or it
        meets a full node on its way, and then nothing is changed. */
    method Add(m: int, path: seq<Byte>, handler: nat) returns (ok: bool)
      requires Valid()
      modifies this
      ensures Valid()
      ensures ok <==> 0 <= m < ROUTE_METHOD_COUNT && !Blocked(old(known), Walk(old(known), [], Split(path)))
      ensures var p := Walk(old(known), [], Split(path));
              ok ==> known == Extend(old(known), p, |p|) && routes == old(routes) + [Route(m, p, handler)]
      ensures !ok ==> known == old(known) && routes == old(routes)
    {
      hide LinksOk, TableOk, HandlersOk, TextsFit, IndexOf, TableOf, Split, SegmentOf, Extend, SkipSlash, NextSegments, ChildrenFit, FullAt,
           Walk, Step, SegmentLength, PrefixClosed, Distinct;
      if m < 0 || m >= ROUTE_METHOD_COUNT { return false; }
      ghost var p, start := Walk(known, [], Split(path)), known;
      ghost var n: nat := 0;
      var current: nat, rest := 0, path;
      Root();
      KnownClosed();
      assert p[..0] == [];
      while SkipSlash(rest) != []
        invariant Valid() && routes == old(routes) && current < |nodes| && n <= |p|
        invariant |nodes| == |known| && known[current] == p[..n]
        invariant known == Extend(start, p, n) && p == Walk(known, p[..n], Split(rest))
        invariant if p[..n] in start then known == start else NextSegments(known, p[..n]) == {}
        invariant forall k: nat :: k < n ==> !FullAt(start, p, k)
        decreases |rest|
      {
        SplitParts(rest);
        rest := SkipSlash(rest);
        var length := Length(rest);
        var text := rest[..length];
        NextStep(start, known, p, n, text, Split(rest[length..]));
        FullHere(start, known, p, n);
        var child := FindOrCreateChild(current, SegmentOf(text));
        if child.None? {
          assert FullAt(start, p, n);
          return false;
        }
        current := child.value;
        rest := rest[length..];
        n := n + 1;
        SameKnown();
      }
      SplitParts(rest);
      WalkEnds(known, p[..n]);
      assert n == |p| && p[..n] == p;
      NotFullBeyond(start, p);
      SetHandler(current, m, handler);
      ok := true;
    }

    /** The handler of a node, which makes its pattern a route. */
    method SetHandler(i: nat, m: nat, handler: nat)
      requires Valid() && i < |nodes| == |known| && m < ROUTE_METHOD_COUNT
      modifies this`nodes, this`routes
      ensures Valid() && routes == old(routes) + [Route(m, known[i], handler)]
    {
      hide LinksOk, TableOk, HandlersOk, TextsFit, TableOf, ChildrenFit;
      SetHandlerKeepsValid(nodes, known, routes, i, m, handler);
      SetHandlerKeepsChildrenFit(nodes, i, m, handler);
      SetHandlerKeepsTexts(nodes, known, i, m, handler);
      nodes := WithHandler(nodes, i, m, handler);
      routes := routes + [Route(m, known[i], handler)];
    }

    /** The routes of an application, one after the other. When their segments fit: all with a known method are
        registered exactly if they stay within the limits, that is, no pattern goes on in more ways than a node has
        children; and then what is known, and with it the order of preference, follows from the list. */
    method AddAll(list: seq<(int, seq<Byte>, nat)>)
      requires Valid() && routes == [] && known == [[]]
      modifies this
      ensures Valid() && (known, routes) == AddedAll(list)
      ensures (forall i :: 0 <= i < |list| ==> AllFit(Split(list[i].1))) ==>
                (routes == RoutesOf(list) <==> WithinLimits(RoutesOf(list))) &&
                (routes == RoutesOf(list) ==> known == KnownOf(routes))
    {
      hide LinksOk, TableOk, HandlersOk, TextsFit, IndexOf, TableOf, Split, PatternOf, SegmentOf, Extend, NextSegments, ChildrenFit, FullAt,
           Blocked, WithinLimits, From, Walk, NothingCut, AllFit, KnownOf, RoutesOf, AddedAll;
      ghost var all := RoutesOf(list);
      ghost var fitting := forall i :: 0 <= i < |list| ==> AllFit(Split(list[i].1));
      NothingFrom(all);
      NothingYet(list);
      var i := 0;
      while i < |list|
        invariant 0 <= i <= |list| && Valid() && (known, routes) == AddedAll(list[..i])
        invariant fitting ==> NothingCut(known)
        invariant fitting && WithinLimits(all) ==> From(known, all) && routes == RoutesOf(list[..i]) && known == KnownOf(routes)
      {
        var (m, path, handler) := list[i];
        AddedStep(list, i);
        if fitting { FittingStep(list, i, known, routes, all); }
        var ok := Add(m, path, handler);
        i := i + 1;
      }
      assert list[..i] == list;
      if routes == all { RegisteredIsWithinLimits(); }
    }

    lemma RegisteredIsWithinLimits()
      requires Valid()
      ensures WithinLimits(routes)
    {
      hide LinksOk, TableOk, IndexOf, TableOf, NextSegments, WithinLimits, PrefixClosed, Distinct;
      SameKnown();
      KnownClosed();
      forall base: Pattern ensures |NextSegments(known, base)| <= ROUTER_MAX_CHILDREN {
        if base in known {
          var i :| 0 <= i < |known| && known[i] == base;
          CountChildren(nodes, known, i);
        } else {
          NothingFollowsUnknown(known, base);
        }
      }
      KnownIsWithinLimits(known, routes);
    }

    lemma Root()
      requires Valid()
      ensures |nodes| == |known| > 0 && known[0] == [] && forall p: Pattern :: Extend(known, p, 0) == known
    {
      assert known[0] in known;
    }

    lemma ChosenAtRoot(segments: seq<seq<Byte>>, m: nat, r: Option<nat>, j: nat, params: RouteParams)
      requires Valid() && |nodes| > 0 && m < ROUTE_METHOD_COUNT && params.Valid()
      requires Found(0, segments, [], m, r, j, params)
      ensures Chosen(routes, known, segments, m, r, params.View())
    {
      hide LinksOk, TableOk, HandlersOk, Candidate, Captured, Fits, Before;
      Root();
      var t := Table_();
      SameKnown();
      match r {
        case None =>
          forall k | 0 <= k < |routes| ensures !Fits(routes[k], segments, m) {
            if Fits(routes[k], segments, m) { FitsIsCandidate(nodes, known, routes, segments, m, k); }
          }
        case Some(h) =>
          assert Candidate(t, [], segments, ROUTER_MAX_PARAMS, m, j);
          var i := CandidateFits(nodes, known, routes, segments, m, j);
          CandidateShape(t, [], segments, ROUTER_MAX_PARAMS, m, j);
          assert known[j][|known[0]|..] == known[j];
          assert [] + Captured(known[j], segments) == Captured(known[j], segments);
          forall k | 0 <= k < |routes| && Fits(routes[k], segments, m)
            ensures |routes[i].pattern| == |routes[k].pattern| && Before(known, [], routes[i].pattern, routes[k].pattern)
          {
            FitsIsCandidate(nodes, known, routes, segments, m, k);
            var other := IndexOf(known, routes[k].pattern);
            CandidateShape(t, [], segments, ROUTER_MAX_PARAMS, m, other);
            assert known[other][0..] == known[other];
          }
          assert ChosenRoute(routes, known, segments, m, h, params.View(), i);
      }
    }

    /** router_match: no parameters captured yet, from the root. */
    method Match(m: int, path: seq<Byte>, params: RouteParams) returns (r: Option<nat>)
      requires Valid() && params.Valid()
      modifies params, params.params
      ensures params.Valid()
      ensures m < 0 || m >= ROUTE_METHOD_COUNT ==> r.None?
      ensures 0 <= m < ROUTE_METHOD_COUNT ==> Chosen(routes, known, Split(path), m, r, params.View())
    {
      hide LinksOk, TableOk, HandlersOk, Candidate, Best, Split, Captured, Table_, Found;
      if m < 0 || m >= ROUTE_METHOD_COUNT { return None; }
      params.count := 0;
      Root();
      ghost var j;
      r, j := MatchRecursive(0, path, m, params);
      ChosenAtRoot(Split(path), m, r, j, params);
    }
  }

  lemma EmptyRouter()
    ensures var nodes, known: seq<Pattern> := [NewNode(Literal([], 0))], [[]];
            && LinksOk(nodes, known) && TableOk(TableOf(nodes, known)) && HandlersOk(nodes, known, []) && ChildrenFit(nodes)
            && TextsFit(nodes, known)
  {
    var nodes, known: seq<Pattern> := [NewNode(Literal([], 0))], [[]];
    assert TableOf(nodes, known).handlers[0] == NoHandlers();
  }

  /** One more segment of the path of a new route. */
  lemma NextStep(start: seq<Pattern>, known: seq<Pattern>, p: Pattern, n: nat, text: seq<Byte>, rest: seq<seq<Byte>>)
    requires n <= |p| && known == Extend(start, p, n) && p == Walk(known, p[..n], [text] + rest)
    ensures n < |p|
    ensures var next := p[..n] + [Step(known, p[..n], SegmentOf(text))];
            && next == p[..n + 1] && p[..n + 1] == p[..n] + [p[n]] && Extend(start, p, n + 1) == AddNew(known, next)
            && p == Walk(AddNew(known, next), next, rest)
  {
    hide Step, SegmentOf, Extend;
    assert ([text] + rest)[1..] == rest;
    var next := p[..n] + [Step(known, p[..n], SegmentOf(text))];
    assert next <= p;
    assert p[..n + 1] == p[..n] + [p[n]];
    ExtendOnce(start, p, n);
  }

  lemma ExtendOnce(start: seq<Pattern>, p: Pattern, n: nat)
    requires n < |p|
    ensures Extend(start, p, n + 1) == AddNew(Extend(start, p, n), p[..n + 1])
  {
  }

  lemma WalkEnds(known: seq<Pattern>, base: Pattern)
    ensures Walk(known, base, []) == base
  {
  }

  lemma BestShape(t: Table, base: Pattern, segments: seq<seq<Byte>>, room: nat, m: nat, j: nat)
    requires TableOk(t) && m < ROUTE_METHOD_COUNT && Best(t, base, segments, room, m, j)
    ensures j < |t.known| && base <= t.known[j] && |t.known[j]| == |base| + |segments|
  {
  }

  lemma CapturedStep(p: Pattern, segments: seq<seq<Byte>>)
    requires |p| == |segments| > 0
    ensures Captured(p, segments) ==
            (if p[0].Param? then [RouteParam(p[0].name, segments[0])] else []) + Captured(p[1..], segments[1..])
  {
  }

  lemma SplitParts(path: seq<Byte>)
    ensures var inner := SkipSlash(path);
            if inner == [] then Split(path) == []
            else
              var n := SegmentLength(inner);
              Split(path) == [inner[..n]] + Split(inner[n..]) && |inner[n..]| < |path|
  {
  }

  /** The loop that looks for the end of a segment. */
  method Length(path: seq<Byte>) returns (n: nat)
    ensures n == SegmentLength(path)
  {
    n := 0;
    while n < |path| && path[n] != SLASH
      invariant n <= |path| && n + SegmentLength(path[n..]) == SegmentLength(path)
    {
      assert path[n..][1..] == path[n + 1..];
      n := n + 1;
    }
  }

  // ---- The limit on children ----

  /** The routes of a list whose methods are known, with segments that fit. */
  function RoutesOf(list: seq<(int, seq<Byte>, nat)>): (r: seq<Route>)
    ensures |r| <= |list|
  {
    if list == [] then []
    else
      var (m, path, handler) := list[|list| - 1];
      RoutesOf(list[..|list| - 1]) +
      if 0 <= m < ROUTE_METHOD_COUNT then [Route(m, PatternOf(Split(path)), handler)] else []
  }

  /** What is known and registered after adding one route. */
  ghost function Added(before: (seq<Pattern>, seq<Route>), m: int, path: seq<Byte>, handler: nat): (seq<Pattern>, seq<Route>) {
    var p := Walk(before.0, [], Split(path));
    if 0 <= m < ROUTE_METHOD_COUNT && !Blocked(before.0, p) then (Extend(before.0, p, |p|), before.1 + [Route(m, p, handler)])
    else before
  }

  ghost function AddedAll(list: seq<(int, seq<Byte>, nat)>): (seq<Pattern>, seq<Route>) {
    if list == [] then ([[]], [])
    else
      var last := list[|list| - 1];
      Added(AddedAll(list[..|list| - 1]), last.0, last.1, last.2)
  }

  lemma NothingYet(list: seq<(int, seq<Byte>, nat)>)
    ensures list[..0] == [] && AddedAll([]) == ([[]], []) && RoutesOf([]) == [] && KnownOf([]) == [[]] && NothingCut([[]])
  {
  }

  lemma AddedStep(list: seq<(int, seq<Byte>, nat)>, i: nat)
    requires i < |list|
    ensures AddedAll(list[..i + 1]) == Added(AddedAll(list[..i]), list[i].0, list[i].1, list[i].2)
    ensures RoutesOf(list[..i + 1]) ==
            RoutesOf(list[..i]) + if 0 <= list[i].0 < ROUTE_METHOD_COUNT then [Route(list[i].0, PatternOf(Split(list[i].1)), list[i].2)] else []
  {
    hide Added, PatternOf, Split;
    assert list[..i + 1][..i] == list[..i];
  }

  lemma {:induction false} RoutesInFront(list: seq<(int, seq<Byte>, nat)>, i: nat)
    requires i <= |list|
    ensures RoutesOf(list[..i]) <= RoutesOf(list)
    decreases |list|
  {
    hide PatternOf, Split;
    if i == |list| {
      assert list[..i] == list;
    } else {
      assert list[..|list| - 1][..i] == list[..i];
      RoutesInFront(list[..|list| - 1], i);
    }
  }

  lemma {:induction false} PatternIsPlain(segments: seq<seq<Byte>>)
    ensures forall k :: 0 <= k < |PatternOf(segments)| ==> PatternOf(segments)[k].copy == 0
    decreases |segments|
  {
    hide SegmentOf;
    forall k | 0 <= k < |PatternOf(segments)| ensures PatternOf(segments)[k].copy == 0 { PlainSegment(segments[k]); }
  }

  /** One more route of a list whose segments fit. */
  lemma FittingStep(list: seq<(int, seq<Byte>, nat)>, i: nat, known: seq<Pattern>, routes: seq<Route>, all: seq<Route>)
    requires i < |list| && all == RoutesOf(list) && NothingCut(known) && AllFit(Split(list[i].1))
    ensures var (m, path, handler) := list[i];
            var (known', routes') := Added((known, routes), m, path, handler);
            && NothingCut(known')
            && (WithinLimits(all) && From(known, all) && routes == RoutesOf(list[..i]) && known == KnownOf(routes) ==>
                  From(known', all) && routes' == RoutesOf(list[..i + 1]) && known' == KnownOf(routes'))
  {
    hide NothingCut, AllFit, Split, PatternOf, Walk, Extend, Blocked, WithinLimits, From, KnownOf, RoutesOf;
    var (m, path, handler) := list[i];
    var p := PatternOf(Split(path));
    WalkOfFitting(known, [], Split(path));
    assert [] + p == p;
    PatternIsPlain(Split(path));
    ExtendKeepsUncut(known, p, |p|);
    AddedStep(list, i);
    if 0 <= m < ROUTE_METHOD_COUNT && WithinLimits(all) && From(known, all) && routes == RoutesOf(list[..i]) && known == KnownOf(routes) {
      RoutesInFront(list, i + 1);
      var more := routes + [Route(m, p, handler)];
      assert RoutesOf(list[..i + 1]) == more;
      assert all[|routes|] == more[|routes|];
      NeverBlocked(known, all, |routes|);
      FromExtended(known, all, |routes|);
      KnownSnoc(routes, Route(m, p, handler));
    }
  }

  lemma KnownSnoc(routes: seq<Route>, r: Route)
    ensures KnownOf(routes + [r]) == Extend(KnownOf(routes), r.pattern, |r.pattern|)
  {
    assert (routes + [r])[..|routes|] == routes;
  }

  /** The children of a node are the known extensions of its pattern by one segment, once each. */
  lemma CountChildren(nodes: seq<RouterNode>, known: seq<Pattern>, i: nat)
    requires LinksOk(nodes, known) && Distinct(known) && i < |nodes|
    ensures |nodes[i].children| == |NextSegments(known, known[i])|
  {
    var children, base := nodes[i].children, known[i];
    var segments := seq(|children|, x requires 0 <= x < |children| => nodes[children[x]].segment);
    forall x, y | 0 <= x < y < |segments| ensures segments[x] != segments[y] {
      assert children[x] < children[y];
      assert known[children[x]] != known[children[y]];
    }
    forall s ensures s in segments <==> s in NextSegments(known, base) {
      NextSegmentKnown(known, base, s);
      if s in segments {
        var x :| 0 <= x < |segments| && segments[x] == s;
        assert known[children[x]] == base + [s];
      }
      if base + [s] in known {
        var c: nat :| c < |known| && known[c] == base + [s];
        assert known[c][..|base|] == base && IsChild(known, i, c);
        var x :| 0 <= x < |children| && children[x] == c;
        assert known[c] == base + [segments[x]] && known[c][|base|] == s;
        assert segments[x] == s;
      }
    }
    SizeOfList(segments, NextSegments(known, base));
  }

  lemma {:induction false} SizeOfList<T>(list: seq<T>, s: set<T>)
    requires (forall x, y :: 0 <= x < y < |list| ==> list[x] != list[y]) && forall t :: t in list <==> t in s
    ensures |list| == |s|
    decreases |list|
  {
    if list == [] {
      assert s == {};
    } else {
      var last, init := list[|list| - 1], list[..|list| - 1];
      assert last in s && list == init + [last];
      forall t ensures t in init <==> t in s - {last} {
        if t in init { assert t in list; }
        if t in s - {last} { assert t in list; }
      }
      SizeOfList(init, s - {last});
    }
  }

  lemma FullMeans(nodes: seq<RouterNode>, i: nat)
    requires ChildrenFit(nodes) && i < |nodes|
    ensures |nodes[i].children| <= ROUTER_MAX_CHILDREN
  {
  }

  lemma CreateKeepsChildrenFit(nodes: seq<RouterNode>, i: nat, s: Segment)
    requires ChildrenFit(nodes) && i < |nodes| && |nodes[i].children| < ROUTER_MAX_CHILDREN
    ensures ChildrenFit(Created(nodes, i, s))
  {
  }

  lemma CreateKeepsTexts(nodes: seq<RouterNode>, known: seq<Pattern>, i: nat, s: Segment)
    requires TextsFit(nodes, known) && i < |nodes| == |known|
    ensures TextsFit(Created(nodes, i, NewSegment(s, |known|)), known + [known[i] + [NewSegment(s, |known|)]])
  {
    hide TextOf;
    var t := NewSegment(s, |known|);
    var known': seq<Pattern> := known + [known[i] + [t]];
    forall c: nat, k: nat | c < |known'| && k < |known'[c]| ensures known'[c][k].copy <= c {
      if c == |known| && k < |known[i]| { assert known[i][k].copy <= i; }
    }
  }

  lemma SetHandlerKeepsTexts(nodes: seq<RouterNode>, known: seq<Pattern>, i: nat, m: nat, handler: nat)
    requires TextsFit(nodes, known) && i < |nodes| && m < |nodes[i].handlers|
    ensures TextsFit(WithHandler(nodes, i, m, handler), known)
  {
  }

  lemma SetHandlerKeepsChildrenFit(nodes: seq<RouterNode>, i: nat, m: nat, handler: nat)
    requires ChildrenFit(nodes) && i < |nodes| && m < |nodes[i].handlers|
    ensures ChildrenFit(WithHandler(nodes, i, m, handler))
  {
  }

  /** On the way of a pattern, a node that was there before has the children it had, and a new one has none. */
  lemma FullHere(start: seq<Pattern>, known: seq<Pattern>, p: Pattern, n: nat)
    requires n < |p| && PrefixClosed(start)
    requires if p[..n] in start then known == start else NextSegments(known, p[..n]) == {}
    ensures FullAt(start, p, n) <==> p[..n + 1] !in known && |NextSegments(known, p[..n])| >= ROUTER_MAX_CHILDREN
    ensures p[..n] !in start ==> p[..n + 1] !in start
    ensures p[..n + 1] in known <==> p[..n + 1] in start
  {
    hide NextSegments;
    NextSegmentKnown(known, p[..n], p[n]);
    assert p[..n + 1] == p[..n] + [p[n]];
    if p[..n + 1] in start {
      var j :| 0 <= j < |start| && start[j] == p[..n + 1];
      assert start[j][..n] == p[..n];
    }
  }

  lemma NotFullBeyond(start: seq<Pattern>, p: Pattern)
    requires forall k: nat :: k < |p| ==> !FullAt(start, p, k)
    ensures !Blocked(start, p)
  {
  }

  lemma NothingFrom(routes: seq<Route>)
    ensures From([[]], routes)
  {
  }

  lemma NothingFollowsUnknown(known: seq<Pattern>, base: Pattern)
    requires PrefixClosed(known) && base !in known
    ensures NextSegments(known, base) == {}
  {
    forall s ensures s !in NextSegments(known, base) {
      NextSegmentKnown(known, base, s);
      forall j | 0 <= j < |known| ensures known[j] != base + [s] {
        assert |base| <= |known[j]| ==> known[j][..|base|] in known;
        assert (base + [s])[..|base|] == base;
      }
    }
  }

  // ---- What adding changes ----

  function Created(nodes: seq<RouterNode>, i: nat, s: Segment): seq<RouterNode>
    requires i < |nodes|
  {
    nodes[i := nodes[i].(children := nodes[i].children + [|nodes|])] + [NewNode(s)]
  }

  function WithHandler(nodes: seq<RouterNode>, i: nat, m: nat, handler: nat): seq<RouterNode>
    requires i < |nodes| && m < |nodes[i].handlers|
  {
    nodes[i := nodes[i].(handlers := nodes[i].handlers[m := Some(handler)])]
  }

  lemma CreateKeepsValid(nodes: seq<RouterNode>, known: seq<Pattern>, routes: seq<Route>, i: nat, s: Segment)
    requires LinksOk(nodes, known) && TableOk(TableOf(nodes, known)) && HandlersOk(nodes, known, routes)
    requires i < |nodes| && known[i] + [s] !in known
    ensures var (nodes', known') := (Created(nodes, i, s), known + [known[i] + [s]]);
            LinksOk(nodes', known') && TableOk(TableOf(nodes', known')) && HandlersOk(nodes', known', routes)
  {
    hide LinksOk, HandlersOk, TableOk;
    CreateKeepsLinks(nodes, known, i, s);
    CreateKeepsTable(nodes, known, i, s);
    CreateKeepsHandlers(nodes, known, routes, i, s);
  }

  lemma CreateKeepsLinks(nodes: seq<RouterNode>, known: seq<Pattern>, i: nat, s: Segment)
    requires LinksOk(nodes, known) && i < |nodes| && known[i] + [s] !in known && TableOk(TableOf(nodes, known))
    ensures LinksOk(Created(nodes, i, s), known + [known[i] + [s]])
  {
    var nodes', known', n := Created(nodes, i, s), known + [known[i] + [s]], |nodes|;
    forall k, x | 0 <= k <= n && 0 <= x < |nodes'[k].children|
      ensures k < nodes'[k].children[x] <= n &&
              known'[nodes'[k].children[x]] == known'[k] + [nodes'[nodes'[k].children[x]].segment]
    {
      ChildrenOf(nodes, i, s, k, x);
    }
    forall k, x, y | 0 <= k <= n && 0 <= x < y < |nodes'[k].children|
      ensures nodes'[k].children[x] < nodes'[k].children[y]
    {
      ChildrenOf(nodes, i, s, k, x);
      ChildrenOf(nodes, i, s, k, y);
    }
    forall k, c | 0 <= k <= n && 0 <= c <= n && IsChild(known', k, c) ensures c in nodes'[k].children {
      CreatedLink(nodes, known, i, s, k, c);
    }
  }

  /** The children after a new one was created below node `i`. */
  lemma ChildrenOf(nodes: seq<RouterNode>, i: nat, s: Segment, k: nat, x: nat)
    requires i < |nodes| && k <= |nodes| && x < |Created(nodes, i, s)[k].children|
    ensures var c := Created(nodes, i, s)[k].children[x];
            && k < |nodes|
            && (if x < |nodes[k].children| then c == nodes[k].children[x]
                else k == i && x == |nodes[i].children| && c == |nodes|)
            && (c < |nodes| ==> Created(nodes, i, s)[c].segment == nodes[c].segment)
            && (c == |nodes| ==> Created(nodes, i, s)[c].segment == s)
  {
  }

  lemma CreatedLink(nodes: seq<RouterNode>, known: seq<Pattern>, i: nat, s: Segment, k: nat, c: nat)
    requires LinksOk(nodes, known) && i < |nodes| && known[i] + [s] !in known && TableOk(TableOf(nodes, known))
    requires k <= |nodes| && c <= |nodes| && IsChild(known + [known[i] + [s]], k, c)
    ensures c in Created(nodes, i, s)[k].children
  {
    var nodes', known', n := Created(nodes, i, s), known + [known[i] + [s]], |nodes|;
    NewHasNoChildren(nodes, known, i, s, c);
    assert Distinct(TableOf(nodes, known).known);
    if c == n {
      assert known'[n][..|known[i]|] == known[i];
      SamePattern(known, k, i);
      assert nodes'[i].children[|nodes[i].children|] == n;
    } else {
      assert IsChild(known, k, c);
      var x :| 0 <= x < |nodes[k].children| && nodes[k].children[x] == c;
      assert nodes'[k].children[x] == c;
    }
  }

  lemma SamePattern(known: seq<Pattern>, k: nat, i: nat)
    requires Distinct(known) && k < |known| && i < |known| && known[k] == known[i]
    ensures k == i
  {
  }

  lemma NewHasNoChildren(nodes: seq<RouterNode>, known: seq<Pattern>, i: nat, s: Segment, c: nat)
    requires |nodes| == |known| && i < |nodes| && known[i] + [s] !in known && TableOk(TableOf(nodes, known))
    requires c <= |nodes|
    ensures !IsChild(known + [known[i] + [s]], |nodes|, c)
  {
    assert PrefixClosed(TableOf(nodes, known).known);
    if c < |known| && |known[c]| > |known[i]| { assert known[c][..|known[i]| + 1] in known; }
  }

  lemma CreateKeepsTable(nodes: seq<RouterNode>, known: seq<Pattern>, i: nat, s: Segment)
    requires LinksOk(nodes, known) && i < |nodes| && known[i] + [s] !in known && TableOk(TableOf(nodes, known))
    ensures TableOk(TableOf(Created(nodes, i, s), known + [known[i] + [s]]))
  {
    var nodes', known', n := Created(nodes, i, s), known + [known[i] + [s]], |nodes|;
    var t, t' := TableOf(nodes, known), TableOf(nodes', known');
    assert forall k :: 0 <= k < n ==> nodes'[k].handlers == nodes[k].handlers == t.handlers[k];
    assert Distinct(t.known) && PrefixClosed(t.known);
    forall k, l | 0 <= k <= n && 0 <= l <= |known'[k]| ensures known'[k][..l] in known' {
      if k < n {
        assert known[k][..l] in known;
      } else if l <= |known[i]| {
        assert known'[n][..l] == known[i][..l] && known[i][..l] in known;
      } else {
        assert known'[n][..l] == known'[n];
      }
    }
  }

  lemma CreateKeepsHandlers(nodes: seq<RouterNode>, known: seq<Pattern>, routes: seq<Route>, i: nat, s: Segment)
    requires |nodes| == |known| && i < |nodes| && known[i] + [s] !in known && HandlersOk(nodes, known, routes)
    ensures HandlersOk(Created(nodes, i, s), known + [known[i] + [s]], routes)
  {
    var nodes', known', n := Created(nodes, i, s), known + [known[i] + [s]], |nodes|;
    forall k: nat, m: nat | k <= n && m < |nodes'[k].handlers| ensures HandlerIsLast(nodes', known', routes, k, m) {
      if k < n {
        assert HandlerIsLast(nodes, known, routes, k, m);
      } else {
        HandlerExists(routes, known'[n], m);
      }
    }
  }

  lemma SetHandlerKeepsValid(nodes: seq<RouterNode>, known: seq<Pattern>, routes: seq<Route>, i: nat, m: nat, handler: nat)
    requires LinksOk(nodes, known) && TableOk(TableOf(nodes, known)) && HandlersOk(nodes, known, routes)
    requires i < |nodes| && m < ROUTE_METHOD_COUNT
    ensures m < |nodes[i].handlers| == ROUTE_METHOD_COUNT
    ensures var nodes' := WithHandler(nodes, i, m, handler);
            && LinksOk(nodes', known) && TableOk(TableOf(nodes', known))
            && HandlersOk(nodes', known, routes + [Route(m, known[i], handler)])
  {
    assert TableOf(nodes, known).handlers[i] == nodes[i].handlers;
    var nodes' := WithHandler(nodes, i, m, handler);
    SameLinks(nodes, nodes', known);
    var t, t' := TableOf(nodes, known), TableOf(nodes', known);
    assert forall k :: 0 <= k < |nodes| ==> |nodes'[k].handlers| == |nodes[k].handlers| == |t.handlers[k]|;
    SetHandlerKeepsHandlers(nodes, known, routes, i, m, handler);
  }

  lemma SameLinks(nodes: seq<RouterNode>, nodes': seq<RouterNode>, known: seq<Pattern>)
    requires LinksOk(nodes, known) && |nodes'| == |nodes|
    requires forall k :: 0 <= k < |nodes| ==> nodes'[k].segment == nodes[k].segment && nodes'[k].children == nodes[k].children
    ensures LinksOk(nodes', known)
  {
  }

  lemma SetHandlerKeepsHandlers(nodes: seq<RouterNode>, known: seq<Pattern>, routes: seq<Route>, i: nat, m: nat,
                                handler: nat)
    requires |nodes| == |known| && i < |nodes| && m < |nodes[i].handlers| == ROUTE_METHOD_COUNT
    requires HandlersOk(nodes, known, routes) && Distinct(known)
    ensures HandlersOk(WithHandler(nodes, i, m, handler), known, routes + [Route(m, known[i], handler)])
  {
    var nodes', routes' := WithHandler(nodes, i, m, handler), routes + [Route(m, known[i], handler)];
    assert routes'[..|routes|] == routes;
    forall k: nat, l: nat | k < |nodes'| && l < |nodes'[k].handlers| ensures HandlerIsLast(nodes', known, routes', k, l) {
      assert HandlerIsLast(nodes, known, routes, k, l);
      assert k < i ==> known[k] != known[i];
      assert i < k ==> known[i] != known[k];
    }
  }

  // ---- From candidates to routes ----

  lemma FitsIsCandidate(nodes: seq<RouterNode>, known: seq<Pattern>, routes: seq<Route>, segments: seq<seq<Byte>>, m: nat,
                        k: nat)
    requires LinksOk(nodes, known) && TableOk(TableOf(nodes, known)) && HandlersOk(nodes, known, routes)
    requires m < ROUTE_METHOD_COUNT && k < |routes| && Fits(routes[k], segments, m)
    ensures var j := IndexOf(known, routes[k].pattern);
            Candidate(TableOf(nodes, known), [], segments, ROUTER_MAX_PARAMS, m, j) && known[j] == routes[k].pattern
  {
    var t, p := TableOf(nodes, known), routes[k].pattern;
    var i :| 0 <= i < |known| && known[i] == p;
    var j := IndexOf(known, p);
    assert j <= i;
    assert known[j][0..] == p;
    HandlerExists(routes, p, m);
    assert t.handlers[j] == nodes[j].handlers;
    assert HandlerIsLast(nodes, known, routes, j, m);
  }

  lemma CandidateFits(nodes: seq<RouterNode>, known: seq<Pattern>, routes: seq<Route>, segments: seq<seq<Byte>>, m: nat,
                      j: nat) returns (k: nat)
    requires LinksOk(nodes, known) && TableOk(TableOf(nodes, known)) && HandlersOk(nodes, known, routes)
    requires m < ROUTE_METHOD_COUNT && Candidate(TableOf(nodes, known), [], segments, ROUTER_MAX_PARAMS, m, j)
    ensures k < |routes| && j < |known| && routes[k].pattern == known[j] && Fits(routes[k], segments, m)
    ensures nodes[j].handlers[m] == HandlerOf(routes, known[j], m)
  {
    var t := TableOf(nodes, known);
    assert t.handlers[j] == nodes[j].handlers;
    assert HandlerIsLast(nodes, known, routes, j, m);
    HandlerExists(routes, known[j], m);
    assert known[j][0..] == known[j];
    k :| 0 <= k < |routes| && routes[k].pattern == known[j] && routes[k].method_ == m;
  }
}
