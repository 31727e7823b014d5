/** The object graph of the collector (src/gc.c) as values: which objects an object refers to, what is
    reachable, and marking with a gray stack. */
module Tracing {
  import opened Bytes

  datatype Ref = Null | To(address: nat)

  /** A boxed value either refers to an object or does not. */
  datatype Value = Plain | Object(address: nat)

  datatype MapEntry = NoEntry | Tombstone | Entry(key: nat, value: Value)

  /** What the tracer sees of an object, by kind. An upvalue is traced through its `closed` field. */
  datatype Payload =
    | StringObject(bytes: seq<Byte>)
    | BytesObject
    | FunctionObject(name: Ref, constants: seq<Value>)
    | ListObject(data: seq<Value>)
    | MapObject(entries: seq<MapEntry>)
    | ClosureObject(fn: nat, upvalues: seq<Value>)
    | UpvalueObject(closed: Value)
    | NativeObject
    | BoundMethodObject(receiver: Value)

  function RefOf(r: Ref): seq<nat> {
    if r.Null? then [] else [r.address]
  }

  function ValueRefs(v: Value): seq<nat> {
    if v.Plain? then [] else [v.address]
  }

  function AllRefs(vs: seq<Value>): seq<nat> {
    if vs == [] then [] else AllRefs(vs[..|vs| - 1]) + ValueRefs(vs[|vs| - 1])
  }

  function AllRefsOf(rs: seq<Ref>): seq<nat> {
    if rs == [] then [] else AllRefsOf(rs[..|rs| - 1]) + RefOf(rs[|rs| - 1])
  }

  function EntryRefs(e: MapEntry): seq<nat> {
    if e.Entry? then [e.key] + ValueRefs(e.value) else []
  }

  function AllEntryRefs(es: seq<MapEntry>): seq<nat> {
    if es == [] then [] else AllEntryRefs(es[..|es| - 1]) + EntryRefs(es[|es| - 1])
  }

  /** The references of an object, in the order they are traced. */
  function Children(p: Payload): seq<nat> {
    match p
    case StringObject(_) => []
    case BytesObject => []
    case FunctionObject(name, constants) => RefOf(name) + AllRefs(constants)
    case ListObject(data) => AllRefs(data)
    case MapObject(entries) => AllEntryRefs(entries)
    case ClosureObject(fn, upvalues) => [fn] + AllRefs(upvalues)
    case UpvalueObject(closed) => ValueRefs(closed)
    case NativeObject => []
    case BoundMethodObject(receiver) => ValueRefs(receiver)
  }

  // ---- Reachability ----

  ghost predicate Edge(objects: seq<Payload>, a: nat, b: nat) {
    a < |objects| && b in Children(objects[a])
  }

  ghost predicate Path(objects: seq<Payload>, path: seq<nat>) {
    path != [] && forall i :: 0 <= i < |path| - 1 ==> Edge(objects, path[i], path[i + 1])
  }

  ghost predicate PathFrom(objects: seq<Payload>, roots: seq<nat>, path: seq<nat>, a: nat) {
    Path(objects, path) && path[0] in roots && path[|path| - 1] == a
  }

  /** `a` is a root or is referred to, directly or not, by a root. */
  ghost predicate Reachable(objects: seq<Payload>, roots: seq<nat>, a: nat) {
    exists path :: PathFrom(objects, roots, path, a)
  }

  lemma RootIsReachable(objects: seq<Payload>, roots: seq<nat>, a: nat)
    requires a in roots
    ensures Reachable(objects, roots, a)
  {
    assert PathFrom(objects, roots, [a], a);
  }

  lemma ChildIsReachable(objects: seq<Payload>, roots: seq<nat>, a: nat, b: nat)
    requires Reachable(objects, roots, a) && Edge(objects, a, b)
    ensures Reachable(objects, roots, b)
  {
    var path :| PathFrom(objects, roots, path, a);
    var longer := path + [b];
    forall i | 0 <= i < |longer| - 1 ensures Edge(objects, longer[i], longer[i + 1]) {
      if i < |path| - 1 { assert Edge(objects, path[i], path[i + 1]); }
    }
    assert PathFrom(objects, roots, longer, b);
  }

  /** A set that holds the roots and is closed under references holds everything reachable. */
  ghost predicate Closed(objects: seq<Payload>, roots: seq<nat>, s: set<nat>) {
    (forall a :: a in roots ==> a in s) && (forall a: nat, b: nat :: a in s && Edge(objects, a, b) ==> b in s)
  }

  lemma {:induction false} ClosedHoldsPath(objects: seq<Payload>, roots: seq<nat>, s: set<nat>, path: seq<nat>, i: nat)
    requires Closed(objects, roots, s) && Path(objects, path) && path[0] in roots && i < |path|
    ensures path[i] in s
    decreases i
  {
    if i > 0 {
      ClosedHoldsPath(objects, roots, s, path, i - 1);
      assert Edge(objects, path[i - 1], path[i - 1 + 1]);
    }
  }

  lemma ClosedHoldsReachable(objects: seq<Payload>, roots: seq<nat>, s: set<nat>, a: nat)
    requires Closed(objects, roots, s) && Reachable(objects, roots, a)
    ensures a in s
  {
    var path :| PathFrom(objects, roots, path, a);
    ClosedHoldsPath(objects, roots, s, path, |path| - 1);
  }

  // ---- Marking ----

  /** The mark bits, and the gray stack with its top last. */
  datatype Marking = Marking(marks: seq<bool>, gray: seq<nat>)

  /** gc_mark_object: mark and push, once. */
  function MarkOne(m: Marking, a: nat): Marking {
    if a >= |m.marks| || m.marks[a] then m else Marking(m.marks[a := true], m.gray + [a])
  }

  function MarkSeq(m: Marking, s: seq<nat>): Marking {
    if s == [] then m else MarkOne(MarkSeq(m, s[..|s| - 1]), s[|s| - 1])
  }

  lemma {:induction false} MarkSeqConcat(m: Marking, a: seq<nat>, b: seq<nat>)
    ensures MarkSeq(m, a + b) == MarkSeq(MarkSeq(m, a), b)
    decreases |b|
  {
    if b == [] {
      assert a + b == a;
    } else {
      assert (a + b)[..|a + b| - 1] == a + b[..|b| - 1];
      MarkSeqConcat(m, a, b[..|b| - 1]);
    }
  }

  /** gc_trace_references: pop a gray object and mark its children until none is gray. */
  function TraceStep(objects: seq<Payload>, m: Marking): Marking
    requires m.gray != []
  {
    var a := m.gray[|m.gray| - 1];
    var popped := m.(gray := m.gray[..|m.gray| - 1]);
    if a < |objects| then MarkSeq(popped, Children(objects[a])) else popped
  }

  ghost predicate NoRepeats(s: seq<nat>) {
    forall i, j :: 0 <= i < j < |s| ==> s[i] != s[j]
  }

  function CountUnmarked(marks: seq<bool>): nat {
    if marks == [] then 0 else CountUnmarked(marks[..|marks| - 1]) + if marks[|marks| - 1] then 0 else 1
  }

  lemma {:induction false} CountMark(marks: seq<bool>, a: nat)
    requires a < |marks| && !marks[a]
    ensures CountUnmarked(marks[a := true]) == CountUnmarked(marks) - 1
    decreases |marks|
  {
    var n := |marks| - 1;
    if a == n {
      assert marks[a := true][..n] == marks[..n];
    } else {
      assert marks[a := true][..n] == marks[..n][a := true];
      CountMark(marks[..n], a);
    }
  }

  /** The state of the mark phase between two steps; `pending` holds references still to be marked. The
      gray objects are marked and listed once; every marked object is reachable; and whatever a marked
      object that is no longer gray refers to is marked or pending. */
  ghost predicate Marked(objects: seq<Payload>, roots: seq<nat>, m: Marking, pending: seq<nat>) {
    && |m.marks| == |objects| && NoRepeats(m.gray)
    && (forall a :: a in m.gray ==> a < |objects| && m.marks[a])
    && (forall a: nat :: a < |objects| && m.marks[a] ==> Reachable(objects, roots, a))
    && (forall a: nat, b: nat :: a < |objects| && m.marks[a] && a !in m.gray && Edge(objects, a, b) ==>
          b in pending || (b < |objects| && m.marks[b]))
    && (forall a :: a in roots ==> a in pending || (a < |objects| && m.marks[a]))
    && (forall a :: a in pending ==> a < |objects| && Reachable(objects, roots, a))
  }

  /** Marking one pending reference. */
  lemma MarkPending(objects: seq<Payload>, roots: seq<nat>, m: Marking, a: nat, pending: seq<nat>)
    requires Marked(objects, roots, m, [a] + pending)
    ensures Marked(objects, roots, MarkOne(m, a), pending)
    ensures CountUnmarked(MarkOne(m, a).marks) + |MarkOne(m, a).gray| == CountUnmarked(m.marks) + |m.gray|
  {
    hide Reachable;
    assert a in [a] + pending;
    assert forall b :: b in pending ==> b in [a] + pending;
    assert forall b :: b in [a] + pending ==> b == a || b in pending;
    if !m.marks[a] { CountMark(m.marks, a); }
  }

  lemma {:induction false} MarkAllPending(objects: seq<Payload>, roots: seq<nat>, m: Marking, s: seq<nat>)
    requires Marked(objects, roots, m, s)
    ensures var m' := MarkSeq(m, s);
            && Marked(objects, roots, m', [])
            && CountUnmarked(m'.marks) + |m'.gray| == CountUnmarked(m.marks) + |m.gray|
    decreases |s|
  {
    hide Marked, CountUnmarked;
    MarkFirst(objects, roots, m, s, |s|);
    assert s[|s|..] == [] && s[..|s|] == s;
  }

  lemma {:induction false} MarkFirst(objects: seq<Payload>, roots: seq<nat>, m: Marking, s: seq<nat>, n: nat)
    requires n <= |s| && Marked(objects, roots, m, s)
    ensures var m' := MarkSeq(m, s[..n]);
            && Marked(objects, roots, m', s[n..])
            && CountUnmarked(m'.marks) + |m'.gray| == CountUnmarked(m.marks) + |m.gray|
    decreases n
  {
    hide Marked, CountUnmarked;
    if n == 0 {
      assert s[0..] == s;
    } else {
      MarkFirst(objects, roots, m, s, n - 1);
      assert s[..n][..n - 1] == s[..n - 1] && s[n - 1..] == [s[n - 1]] + s[n..];
      MarkPending(objects, roots, MarkSeq(m, s[..n - 1]), s[n - 1], s[n..]);
    }
  }

  /** One step of the trace keeps the invariant, and uses up one unit of the measure: the number of
      unmarked objects plus the height of the gray stack. */
  lemma TraceStepKeeps(objects: seq<Payload>, roots: seq<nat>, m: Marking)
    requires Marked(objects, roots, m, []) && m.gray != []
    requires forall a: nat, b: nat :: a < |objects| && Reachable(objects, roots, a) && Edge(objects, a, b) ==> b < |objects|
    ensures var m' := TraceStep(objects, m);
            && Marked(objects, roots, m', [])
            && CountUnmarked(m'.marks) + |m'.gray| == CountUnmarked(m.marks) + |m.gray| - 1
  {
    hide CountUnmarked, Children, Reachable;
    var n := |m.gray| - 1;
    var a := m.gray[n];
    assert a in m.gray && a < |objects|;
    var popped, children := m.(gray := m.gray[..n]), Children(objects[a]);
    forall b | b in children ensures b < |objects| && Reachable(objects, roots, b) {
      assert Edge(objects, a, b);
      ChildIsReachable(objects, roots, a, b);
    }
    assert m.gray == m.gray[..n] + [a];
    forall x: nat, b: nat | x < |objects| && m.marks[x] && x !in popped.gray && Edge(objects, x, b)
      ensures b in children || (b < |objects| && m.marks[b])
    {
      if x != a { assert x !in m.gray; }
    }
    assert forall x :: x in popped.gray ==> x in m.gray;
    assert Marked(objects, roots, popped, children);
    MarkAllPending(objects, roots, popped, children);
  }

  /** When nothing is gray or pending, exactly the reachable objects are marked. */
  lemma MarkedIsReachable(objects: seq<Payload>, roots: seq<nat>, m: Marking, a: nat)
    requires Marked(objects, roots, m, []) && m.gray == [] && a < |objects|
    ensures m.marks[a] <==> Reachable(objects, roots, a)
  {
    if Reachable(objects, roots, a) {
      var s := set b: nat | b < |objects| && m.marks[b];
      assert Closed(objects, roots, s);
      ClosedHoldsReachable(objects, roots, s, a);
    }
  }
}
