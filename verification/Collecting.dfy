/** The mark-sweep collector of src/gc.c over a heap of tracked objects, with the weak intern table of
    src/object.c: a collection keeps exactly the reachable objects, and interned strings stay canonical. */
module Collecting {
  import opened Bytes
  import opened Tracing
  import References
  import Interning

  /** The references among `s` whose objects are marked, in order. */
  function KeepMarked(s: seq<Ref>, marks: seq<bool>): seq<Ref> {
    if s == [] then []
    else
      var last := s[|s| - 1];
      KeepMarked(s[..|s| - 1], marks) + if IsMarked(last, marks) then [last] else []
  }

  predicate IsMarked(r: Ref, marks: seq<bool>) {
    r.To? && r.address < |marks| && marks[r.address]
  }

  lemma {:induction false} KeepMarkedMeaning(s: seq<Ref>, marks: seq<bool>, r: Ref)
    ensures r in KeepMarked(s, marks) <==> r in s && IsMarked(r, marks)
    decreases |s|
  {
    if s != [] {
      KeepMarkedMeaning(s[..|s| - 1], marks, r);
      assert s == s[..|s| - 1] + [s[|s| - 1]];
    }
  }

  ghost predicate NoTwice(s: seq<Ref>) {
    forall i, j :: 0 <= i < j < |s| ==> s[i] != s[j]
  }

  lemma {:induction false} KeepMarkedNoTwice(s: seq<Ref>, marks: seq<bool>)
    requires NoTwice(s)
    ensures NoTwice(KeepMarked(s, marks)) && |KeepMarked(s, marks)| <= |s|
    decreases |s|
  {
    if s != [] {
      var init, last := s[..|s| - 1], s[|s| - 1];
      KeepMarkedNoTwice(init, marks);
      KeepMarkedMeaning(init, marks, last);
      assert last !in init;
    }
  }

  /** Tracked objects are different and not freed; the roots and every live object refer to live objects
      only. */
  ghost predicate GraphOk(objects: seq<Payload>, live: seq<Ref>, roots: seq<nat>, freed: set<nat>) {
    && NoTwice(live)
    && (forall r :: r in live ==> r.To? && r.address < |objects| && r.address !in freed)
    && (forall a :: a in roots ==> To(a) in live)
    && (forall a: nat, b: nat :: To(a) in live && Edge(objects, a, b) ==> To(b) in live)
  }

  /** The interned strings are exactly the live ones. */
  ghost predicate StringsOk(objects: seq<Payload>, live: seq<Ref>, strings: map<seq<Byte>, nat>) {
    && (forall bytes :: bytes in strings ==> IsString(objects, live, strings[bytes], bytes))
    && (forall a: nat, bytes :: IsString(objects, live, a, bytes) ==> bytes in strings && strings[bytes] == a)
  }

  ghost predicate HeapOk(objects: seq<Payload>, live: seq<Ref>, roots: seq<nat>, freed: set<nat>,
                         strings: map<seq<Byte>, nat>)
  {
    GraphOk(objects, live, roots, freed) && StringsOk(objects, live, strings)
  }

  /** What the collector starts from, in the order it marks it. */
  ghost function RootsOf(pinned: seq<Ref>, roots: seq<Value>, stack: seq<Value>, frames: seq<Ref>, globals: Ref,
                         openUpvalues: seq<Ref>): seq<nat>
  {
    References.RootSeq(References.RootFields(pinned, roots, stack, frames, globals, openUpvalues))
  }

  /** A live string object with these bytes. */
  ghost predicate IsString(objects: seq<Payload>, live: seq<Ref>, a: nat, bytes: seq<Byte>) {
    To(a) in live && a < |objects| && objects[a] == StringObject(bytes)
  }

  /** Two live strings with equal bytes are the same object, which is what lets maps compare keys by
      address. */
  lemma StringsAreCanonical(objects: seq<Payload>, live: seq<Ref>, roots: seq<nat>, freed: set<nat>,
                            strings: map<seq<Byte>, nat>, a: nat, b: nat, bytes: seq<Byte>)
    requires HeapOk(objects, live, roots, freed, strings)
    requires IsString(objects, live, a, bytes) && IsString(objects, live, b, bytes)
    ensures a == b
  {
  }

  lemma ReachableIsLive(objects: seq<Payload>, live: seq<Ref>, roots: seq<nat>, freed: set<nat>,
                        strings: map<seq<Byte>, nat>, a: nat)
    requires HeapOk(objects, live, roots, freed, strings) && Reachable(objects, roots, a)
    ensures To(a) in live && a < |objects|
  {
    var addresses := set r | r in live && r.To? :: r.address;
    forall b: nat ensures To(b) in live <==> b in addresses {
      if To(b) in live { assert To(b).address in addresses; }
    }
    assert Closed(objects, roots, addresses);
    ClosedHoldsReachable(objects, roots, addresses, a);
  }

  /** Dropping exactly the unreachable objects, and their strings from the intern table, keeps the heap in
      order. */
  lemma CollectKeepsHeapOk(objects: seq<Payload>, live: seq<Ref>, roots: seq<nat>, freed: set<nat>,
                           strings: map<seq<Byte>, nat>)
    requires HeapOk(objects, live, roots, freed, strings)
    ensures var alive := ReachableMarks(objects, roots);
            HeapOk(objects, KeepMarked(live, alive), roots, freed + Unmarked(live, alive), Interning.Marked(strings, alive))
  {
    hide GraphOk, StringsOk;
    CollectKeepsGraph(objects, live, roots, freed);
    CollectKeepsStrings(objects, live, roots, strings);
  }

  lemma CollectKeepsGraph(objects: seq<Payload>, live: seq<Ref>, roots: seq<nat>, freed: set<nat>)
    requires GraphOk(objects, live, roots, freed)
    ensures var alive := ReachableMarks(objects, roots);
            GraphOk(objects, KeepMarked(live, alive), roots, freed + Unmarked(live, alive))
  {
    hide Reachable, KeepMarked, Unmarked, NoTwice, Edge;
    var alive := ReachableMarks(objects, roots);
    var kept := KeepMarked(live, alive);
    KeepMarkedNoTwice(live, alive);
    forall r ensures r in kept <==> r in live && IsMarked(r, alive) { KeepMarkedMeaning(live, alive, r); }
    forall a | a in roots ensures To(a) in kept {
      RootIsReachable(objects, roots, a);
      assert To(a) in live;
    }
    forall a: nat, b: nat | To(a) in kept && Edge(objects, a, b) ensures To(b) in kept {
      ChildIsReachable(objects, roots, a, b);
      assert To(b) in live;
    }
    forall r | r in kept ensures r.To? && r.address < |objects| && r.address !in freed + Unmarked(live, alive) {
      assert r in live;
      UnmarkedMeaning(live, alive, r.address);
    }
  }

  lemma UnmarkedMeaning(live: seq<Ref>, marks: seq<bool>, a: nat)
    ensures a in Unmarked(live, marks) <==> To(a) in live && !IsMarked(To(a), marks)
  {
    if To(a) in live && !IsMarked(To(a), marks) { assert To(a).address in Unmarked(live, marks); }
  }

  lemma CollectKeepsStrings(objects: seq<Payload>, live: seq<Ref>, roots: seq<nat>, strings: map<seq<Byte>, nat>)
    requires StringsOk(objects, live, strings)
    ensures var alive := ReachableMarks(objects, roots);
            StringsOk(objects, KeepMarked(live, alive), Interning.Marked(strings, alive))
  {
    hide Reachable, KeepMarked;
    var alive := ReachableMarks(objects, roots);
    var kept := KeepMarked(live, alive);
    forall r ensures r in kept <==> r in live && IsMarked(r, alive) { KeepMarkedMeaning(live, alive, r); }
    forall bytes | bytes in Interning.Marked(strings, alive) ensures IsString(objects, kept, strings[bytes], bytes) {
      assert IsString(objects, live, strings[bytes], bytes);
    }
    forall a: nat, bytes | IsString(objects, kept, a, bytes) ensures IsString(objects, live, a, bytes) { }
  }

  lemma EmptyHeapOk()
    ensures HeapOk([], [], [], {}, map[])
  {
  }

  class Heap {
    var objects: seq<Payload>
    var marks: seq<bool>            // the mark bit in each object's header
    var grayStack: seq<nat>
    var tracked: array<Ref>
    var trackedCount: nat
    var pinned: seq<Ref>
    var roots: seq<Value>           // values held by C code
    var stack: seq<Value>           // the VM's value stack
    var frames: seq<Ref>            // the closures of the call frames
    var globals: Ref
    var openUpvalues: seq<Ref>
    var enabled: bool
    const interned: Interning.InternTable
    ghost var grayed: seq<nat>      // every object pushed on the gray stack since marking began
    ghost var freed: set<nat>

    constructor ()
      ensures Valid() && objects == [] && Tracked() == [] && interned.contents == map[] && fresh(tracked) &&
              fresh(interned) && fresh(interned.entries)
    {
      objects, marks, grayStack, trackedCount := [], [], [], 0;
      tracked := new Ref[0];
      pinned, roots, stack, frames, globals, openUpvalues, enabled := [], [], [], [], Null, [], true;
      interned := new Interning.InternTable();
      grayed, freed := [], {};
      new;
      hide *;
      StartsEmpty();
    }

    lemma StartsEmpty()
      requires objects == [] && marks == [] && grayStack == [] && trackedCount == 0 && freed == {} && interned.Valid()
      requires pinned == [] && roots == [] && stack == [] && frames == [] && globals == Null && openUpvalues == []
      requires interned.contents == map[]
      ensures Valid() && Tracked() == []
    {
      hide HeapOk, interned.Valid;
      assert RootRefs() == [] && Tracked() == [];
      EmptyHeapOk();
    }

    /** All references the collector starts from, in the order it marks them. */
    ghost function RootRefs(): seq<nat>
      reads this`pinned, this`roots, this`stack, this`frames, this`globals, this`openUpvalues
    {
      RootsOf(pinned, roots, stack, frames, globals, openUpvalues)
    }

    ghost function Fields(): References.RootFields
      reads this`pinned, this`roots, this`stack, this`frames, this`globals, this`openUpvalues
    {
      References.RootFields(pinned, roots, stack, frames, globals, openUpvalues)
    }

    /** No field of a tracked object and no root names an object that is freed or not tracked. */
    ghost predicate NamesLiveOnly()
      reads this, tracked
    {
      && (forall a: nat, b: nat :: To(a) in Tracked() && a < |objects| && References.Mentions(objects[a], b) ==>
            To(b) in Tracked() && b !in freed)
      && (forall a: nat :: References.IsRoot(Fields(), a) ==> To(a) in Tracked() && a !in freed)
    }

    lemma ValidNamesLiveOnly()
      requires Valid()
      ensures NamesLiveOnly()
    {
      hide References.Mentions, References.IsRoot, Children, References.RootSeq, NoTwice;
      forall a: nat, b: nat | To(a) in Tracked() && a < |objects| && References.Mentions(objects[a], b)
        ensures To(b) in Tracked() && b !in freed
      {
        References.ChildrenAreMentioned(objects[a], b);
        assert Edge(objects, a, b);
      }
      forall a: nat | References.IsRoot(Fields(), a) ensures To(a) in Tracked() && a !in freed {
        References.RootsAreMentioned(Fields(), a);
      }
    }

    /** The tracked references. */
    ghost function Tracked(): seq<Ref>
      reads this, tracked
    {
      tracked[..if trackedCount <= tracked.Length then trackedCount else tracked.Length]
    }

    /** What holds between collections. */
    ghost predicate Valid()
      reads this, tracked, interned, interned.entries
    {
      && trackedCount <= tracked.Length && interned.Valid()
      && |marks| == |objects| && (forall a :: 0 <= a < |marks| ==> !marks[a]) && grayStack == []
      && HeapOk(objects, Tracked(), RootRefs(), freed, interned.contents)
    }

    // ---- Marking ----

    ghost function State(): Marking
      reads this`marks, this`grayStack
    {
      Marking(marks, grayStack)
    }

    /** Every marked object was pushed on the gray stack exactly once. */
    ghost predicate GrayedOnce()
      reads this`marks, this`grayed
    {
      NoRepeats(grayed) && forall a: nat :: a in grayed <==> a < |marks| && marks[a]
    }

    /** gc_mark_object. */
    method MarkObject(obj: Ref)
      requires GrayedOnce() && InRange(RefOf(obj), |marks|)
      modifies this`marks, this`grayStack, this`grayed
      ensures GrayedOnce() && |marks| == |old(marks)| && State() == MarkSeq(old(State()), RefOf(obj))
    {
      MarkSeqOne(State(), obj);
      assert obj.To? ==> obj.address in RefOf(obj);
      if obj.Null? || marks[obj.address] { return; }
      marks := marks[obj.address := true];
      grayStack := grayStack + [obj.address];
      grayed := grayed + [obj.address];
    }

    method MarkValue(value: Value)
      requires GrayedOnce() && InRange(ValueRefs(value), |marks|)
      modifies this`marks, this`grayStack, this`grayed
      ensures GrayedOnce() && |marks| == |old(marks)| && State() == MarkSeq(old(State()), ValueRefs(value))
    {
      if value.Object? { MarkObject(To(value.address)); }
    }

    /** The loops over values: roots, stack, constants, list elements, upvalues. */
    method MarkValues(values: seq<Value>)
      requires GrayedOnce() && InRange(AllRefs(values), |marks|)
      modifies this`marks, this`grayStack, this`grayed
      ensures GrayedOnce() && |marks| == |old(marks)| && State() == MarkSeq(old(State()), AllRefs(values))
    {
      hide GrayedOnce, MarkSeq, AllRefs, ValueRefs, InRange;
      ghost var m := State();
      NoValues(m, values);
      var i := 0;
      while i < |values|
        invariant 0 <= i <= |values| && GrayedOnce() && |marks| == |old(marks)|
        invariant State() == MarkSeq(m, AllRefs(values[..i]))
      {
        OneMoreValue(m, values, i, |marks|);
        MarkValue(values[i]);
        i := i + 1;
      }
      assert values[..i] == values;
    }

    /** The loops over object pointers: pinned objects, frames, open upvalues. */
    method MarkRefs(refs: seq<Ref>)
      requires GrayedOnce() && InRange(AllRefsOf(refs), |marks|)
      modifies this`marks, this`grayStack, this`grayed
      ensures GrayedOnce() && |marks| == |old(marks)| && State() == MarkSeq(old(State()), AllRefsOf(refs))
    {
      hide GrayedOnce, MarkSeq, AllRefsOf, RefOf, InRange;
      ghost var m := State();
      NoRefs(m, refs);
      var i := 0;
      while i < |refs|
        invariant 0 <= i <= |refs| && GrayedOnce() && |marks| == |old(marks)|
        invariant State() == MarkSeq(m, AllRefsOf(refs[..i]))
      {
        OneMoreRef(m, refs, i, |marks|);
        MarkObject(refs[i]);
        i := i + 1;
      }
      assert refs[..i] == refs;
    }

    /** The loop over the entries of a map: keys and values of live entries. */
    method MarkEntries(entries: seq<MapEntry>)
      requires GrayedOnce() && InRange(AllEntryRefs(entries), |marks|)
      modifies this`marks, this`grayStack, this`grayed
      ensures GrayedOnce() && |marks| == |old(marks)| && State() == MarkSeq(old(State()), AllEntryRefs(entries))
    {
      hide GrayedOnce, MarkSeq, AllEntryRefs, ValueRefs, InRange;
      ghost var m := State();
      NoEntries(m, entries);
      var i := 0;
      while i < |entries|
        invariant 0 <= i <= |entries| && GrayedOnce() && |marks| == |old(marks)|
        invariant State() == MarkSeq(m, AllEntryRefs(entries[..i]))
      {
        OneMoreEntry(m, entries, i, |marks|);
        var e := entries[i];
        if e.Entry? {
          KeyThenValue(State(), e, |marks|);
          MarkObject(To(e.key));
          MarkValue(e.value);
        }
        i := i + 1;
      }
      assert entries[..i] == entries;
    }

    /** gc_trace_object, by kind. */
    method TraceObject(a: nat)
      requires GrayedOnce() && a < |objects| && InRange(Children(objects[a]), |marks|)
      modifies this`marks, this`grayStack, this`grayed
      ensures GrayedOnce() && |marks| == |old(marks)| && State() == MarkSeq(old(State()), Children(objects[a]))
    {
      hide GrayedOnce, MarkSeq, AllRefs, AllEntryRefs, InRange, RefOf, ValueRefs;
      ghost var m := State();
      MarkNothing(m);
      match objects[a] {
        case StringObject(_) =>
        case BytesObject =>
        case FunctionObject(name, constants) =>
          Both(m, RefOf(name), AllRefs(constants), |marks|);
          MarkObject(name);
          MarkValues(constants);
        case ListObject(data) => MarkValues(data);
        case MapObject(entries) => MarkEntries(entries);
        case ClosureObject(fn, upvalues) =>
          Both(m, [fn], AllRefs(upvalues), |marks|);
          RefToRef(fn);
          MarkObject(To(fn));
          MarkValues(upvalues);
        case UpvalueObject(closed) => MarkValue(closed);
        case NativeObject =>
        case BoundMethodObject(receiver) => MarkValue(receiver);
      }
    }

    /** gc_mark_roots, with vm_mark_roots: pinned objects, C roots, stack, frames, globals, open upvalues. */
    method MarkRoots()
      requires GrayedOnce() && InRange(RootRefs(), |marks|)
      modifies this`marks, this`grayStack, this`grayed
      ensures GrayedOnce() && |marks| == |old(marks)| && State() == MarkSeq(old(State()), RootRefs())
    {
      hide GrayedOnce, MarkSeq, AllRefs, AllRefsOf, InRange, RefOf;
      ghost var m, n := State(), |marks|;
      ghost var a, b, c, d, e, f := AllRefsOf(pinned), AllRefs(roots), AllRefs(stack), AllRefsOf(frames), RefOf(globals),
                                    AllRefsOf(openUpvalues);
      Both(m, a + b + c + d + e, f, n);
      Both(m, a + b + c + d, e, n);
      Both(m, a + b + c, d, n);
      Both(m, a + b, c, n);
      Both(m, a, b, n);
      MarkRefs(pinned);
      MarkValues(roots);
      MarkValues(stack);
      MarkRefs(frames);
      MarkObject(globals);
      MarkRefs(openUpvalues);
    }

    /** Whatever a reachable object refers to exists. */
    ghost predicate NoDangling()
      reads this`objects, this`pinned, this`roots, this`stack, this`frames, this`globals, this`openUpvalues
    {
      forall a: nat, b: nat :: a < |objects| && Reachable(objects, RootRefs(), a) && Edge(objects, a, b) ==> b < |objects|
    }

    /** gc_trace_references: each round takes one unit from the unmarked objects plus the gray ones. */
    method TraceReferences()
      requires GrayedOnce() && NoDangling() && Tracing.Marked(objects, RootRefs(), State(), [])
      modifies this`marks, this`grayStack, this`grayed
      ensures GrayedOnce() && Tracing.Marked(objects, RootRefs(), State(), []) && grayStack == []
    {
      hide GrayedOnce, NoDangling, Tracing.Marked, MarkSeq, Children, CountUnmarked, RootRefs;
      ghost var all, from := objects, RootRefs();
      while |grayStack| > 0
        invariant GrayedOnce() && Tracing.Marked(all, from, State(), [])
        decreases CountUnmarked(marks) + |grayStack|
      {
        ghost var m := State();
        NothingDangles();
        TraceStepKeeps(all, from, m);
        TopInRange(all, from, m);
        var obj := grayStack[|grayStack| - 1];
        grayStack := grayStack[..|grayStack| - 1];
        TraceObject(obj);
      }
    }

    lemma NothingDangles()
      requires NoDangling()
      ensures forall a: nat, b: nat :: a < |objects| && Reachable(objects, RootRefs(), a) && Edge(objects, a, b) ==>
                b < |objects|
    {
    }

    // ---- Sweeping ----

    /** gc_sweep: compacts the tracked array in place, keeping the marked objects and clearing their marks. */
    method Sweep()
      requires trackedCount <= tracked.Length && NoTwice(Tracked())
      requires forall r :: r in Tracked() ==> r.To? && r.address < |marks|
      requires forall a: nat :: a < |marks| && marks[a] ==> To(a) in Tracked()
      modifies this`marks, this`trackedCount, this`freed, tracked
      ensures trackedCount <= tracked.Length && Tracked() == KeepMarked(old(Tracked()), old(marks))
      ensures |marks| == |old(marks)| && forall a :: 0 <= a < |marks| ==> !marks[a]
      ensures freed == old(freed) + Unmarked(old(Tracked()), old(marks))
    {
      hide KeepMarked, Unmarked, NoTwice;
      ghost var before, all := Tracked(), marks;
      var write, i := 0, 0;
      SweepStart(before, all);
      while i < trackedCount
        invariant 0 <= write <= i <= trackedCount == |before| <= tracked.Length
        invariant tracked[..write] == KeepMarked(before[..i], all)
        invariant forall j :: i <= j < |before| ==> tracked[j] == before[j]
        invariant |marks| == |all| && forall a: nat :: a < |all| ==> marks[a] == (all[a] && To(a) !in before[..i])
        invariant freed == old(freed) + Unmarked(before[..i], all)
      {
        SweepNext(before, all, i);
        var obj := tracked[i];
        assert obj == before[i] && obj in before;
        if obj.To? {
          if marks[obj.address] {
            marks := marks[obj.address := false];
            tracked[write] := obj;
            write := write + 1;
          } else {
            freed := freed + {obj.address};
          }
        }
        i := i + 1;
      }
      assert before[..i] == before;
      trackedCount := write;
    }

    // ---- A full collection ----

    /** gc_collect. The survivors are the tracked objects to which a chain of references leads from a root, in their
        old order; the others are freed; nothing that is left names what was freed; all marks are clear again; no object
        was gray twice; and the intern table has exactly the surviving strings. */
    method Collect()
      requires Valid()
      modifies this`marks, this`grayStack, this`grayed, this`trackedCount, this`freed, tracked, interned, interned.entries
      ensures Valid() && NamesLiveOnly() && objects == old(objects) && Fields() == old(Fields())
      ensures enabled ==> Survivors(objects, Fields(), old(Tracked()), old(freed), old(interned.contents),
                                    Tracked(), freed, interned.contents)
      ensures !enabled ==> Tracked() == old(Tracked()) && freed == old(freed) && interned.contents == old(interned.contents)
      ensures enabled ==>
                var alive := ReachableMarks(objects, RootRefs());
                && Tracked() == KeepMarked(old(Tracked()), alive)
                && freed == old(freed) + Unmarked(old(Tracked()), alive)
                && interned.contents == Interning.Marked(old(interned.contents), alive)
                && NoRepeats(grayed) && forall a: nat :: a in grayed <==> a < |objects| && Reachable(objects, RootRefs(), a)
    {
      hide HeapOk, Reachable, ReachableMarks, KeepMarked, Unmarked, RootRefs, Interning.Marked, NoRepeats, NoTwice, NamesLiveOnly,
        Survivors;
      ValidNamesLiveOnly();
      if !enabled { return; }
      CollectedSurvive(objects, Fields(), Tracked(), freed, interned.contents, RootRefs()) by { RootsAreFields(); LiveIsKnown(); }
      CollectKeepsHeapOk(objects, Tracked(), RootRefs(), freed, interned.contents);
      MarkPhase();
      BeforeSweep();
      GrayedReachable();
      interned.RemoveUnmarked(marks);
      Sweep();
      ValidNamesLiveOnly();
    }

    lemma RootsAreFields()
      ensures RootRefs() == References.RootSeq(Fields())
    {
    }

    lemma LiveIsKnown()
      requires Valid()
      ensures (forall r :: r in Tracked() ==> r.To? && r.address < |objects|)
      ensures forall bytes :: bytes in interned.contents ==> interned.contents[bytes] < |objects|
    {
      forall bytes | bytes in interned.contents ensures interned.contents[bytes] < |objects| {
        assert IsString(objects, Tracked(), interned.contents[bytes], bytes);
      }
    }

    lemma GrayedReachable()
      requires GrayedOnce() && marks == ReachableMarks(objects, RootRefs())
      ensures NoRepeats(grayed) && forall a: nat :: a in grayed <==> a < |objects| && Reachable(objects, RootRefs(), a)
    {
    }

    /** Everything marked is tracked, and every interned string has a mark bit. */
    lemma BeforeSweep()
      requires HeapOk(objects, Tracked(), RootRefs(), freed, interned.contents)
      requires marks == ReachableMarks(objects, RootRefs())
      ensures NoTwice(Tracked()) && forall r :: r in Tracked() ==> r.To? && r.address < |marks|
      ensures forall a: nat :: a < |marks| && marks[a] ==> To(a) in Tracked()
      ensures forall bytes :: bytes in interned.contents ==> interned.contents[bytes] < |marks|
    {
      forall a: nat | a < |marks| && marks[a] ensures To(a) in Tracked() {
        ReachableIsLive(objects, Tracked(), RootRefs(), freed, interned.contents, a);
      }
      forall bytes | bytes in interned.contents ensures interned.contents[bytes] < |marks| {
        assert IsString(objects, Tracked(), interned.contents[bytes], bytes);
      }
    }

    /** The mark phase marks exactly the reachable objects. */
    method MarkPhase()
      requires Valid()
      modifies this`marks, this`grayStack, this`grayed
      ensures marks == ReachableMarks(objects, RootRefs()) && |marks| == |objects| && grayStack == [] && GrayedOnce()
    {
      hide Tracing.Marked, MarkSeq, RootRefs, Children, CountUnmarked;
      grayed := [];
      ghost var roots := RootRefs();
      StartMarking();
      MarkAllPending(objects, roots, State(), roots);
      MarkRoots();
      TraceReferences();
      forall a: nat | a < |objects| ensures |marks| == |objects| && marks[a] == ReachableMarks(objects, roots)[a] {
        MarkedLength(objects, roots, State());
        MarkedIsReachable(objects, roots, State(), a);
      }
      MarkedLength(objects, roots, State());
    }

    lemma StartMarking()
      requires Valid()
      ensures Tracing.Marked(objects, RootRefs(), State(), RootRefs()) && NoDangling() && InRange(RootRefs(), |marks|)
    {
      forall a | a in RootRefs() ensures a < |objects| && Reachable(objects, RootRefs(), a) {
        RootIsReachable(objects, RootRefs(), a);
        assert To(a) in Tracked();
      }
      forall a: nat, b: nat | a < |objects| && Reachable(objects, RootRefs(), a) && Edge(objects, a, b)
        ensures b < |objects|
      {
        ReachableIsLive(objects, Tracked(), RootRefs(), freed, interned.contents, a);
        assert To(b) in Tracked();
      }
    }

    // ---- The mutator ----

    /** gc_track_object: appends to the tracked array, which doubles when it is full. */
    method TrackObject(obj: Ref)
      requires trackedCount <= tracked.Length
      modifies this`tracked, this`trackedCount, tracked
      ensures trackedCount <= tracked.Length && Tracked() == old(Tracked()) + [obj]
      ensures tracked == old(tracked) || fresh(tracked)
    {
      if trackedCount >= tracked.Length {
        var capacity := if tracked.Length < 256 then 256 else tracked.Length * 2;
        var larger := new Ref[capacity](_ => Null);
        var i := 0;
        while i < trackedCount
          invariant 0 <= i <= trackedCount <= tracked.Length && larger.Length == capacity
          invariant tracked == old(tracked) && trackedCount == old(trackedCount) && tracked[..] == old(tracked[..])
          invariant forall j :: 0 <= j < i ==> larger[j] == tracked[j]
        {
          larger[i] := tracked[i];
          i := i + 1;
        }
        tracked := larger;
        assert tracked[..trackedCount] == old(tracked[..trackedCount]);
      }
      tracked[trackedCount] := obj;
      trackedCount := trackedCount + 1;
      assert tracked[..trackedCount] == old(tracked[..trackedCount]) + [obj];
    }

    /** alloc_object: a new, unmarked, tracked object. */
    method Allocate(payload: Payload) returns (a: nat)
      requires trackedCount <= tracked.Length && |marks| == |objects|
      modifies this`objects, this`marks, this`freed, this`tracked, this`trackedCount, tracked
      ensures a == |old(objects)| && objects == old(objects) + [payload] && marks == old(marks) + [false]
      ensures trackedCount <= tracked.Length && Tracked() == old(Tracked()) + [To(a)]
      ensures freed == old(freed) - {a} && (tracked == old(tracked) || fresh(tracked))
    {
      a := |objects|;
      objects := objects + [payload];
      marks := marks + [false];
      freed := freed - {a};
      TrackObject(To(a));
    }

    /** obj_string_new: the interned string with these bytes, made if there is none. */
    method NewString(bytes: seq<Byte>) returns (a: nat)
      requires Valid() && interned.Stoppable(bytes)
      modifies this`objects, this`marks, this`freed, this`tracked, this`trackedCount, tracked, interned, interned.entries
      ensures Valid() && IsString(objects, Tracked(), a, bytes)
      ensures bytes in old(interned.contents) ==> a == old(interned.contents)[bytes] && objects == old(objects)
      ensures bytes !in old(interned.contents) ==>
                a == |old(objects)| && interned.contents == old(interned.contents)[bytes := a]
    {
      hide HeapOk, RootRefs, IsString, Interning.PlacedAtHome, Interning.HashOf;
      StringsKnown(objects, Tracked(), RootRefs(), freed, interned.contents);
      var known := interned.Find(bytes);
      if known.Some? { return known.value; }
      NewStringKeepsHeapOk(objects, Tracked(), RootRefs(), freed, interned.contents, bytes);
      a := Allocate(StringObject(bytes));
      interned.Insert(bytes, a);
    }

    /** Any other object, referring to live objects. */
    method NewObject(payload: Payload) returns (a: nat)
      requires Valid() && !payload.StringObject? && forall b: nat :: References.Mentions(payload, b) ==> To(b) in Tracked()
      modifies this`objects, this`marks, this`freed, this`tracked, this`trackedCount, tracked
      ensures Valid() && a == |old(objects)| && objects == old(objects) + [payload]
      ensures Tracked() == old(Tracked()) + [To(a)]
    {
      hide HeapOk, RootRefs, Children, References.Mentions;
      OnlyMentioned(payload);
      NewObjectKeepsHeapOk(objects, Tracked(), RootRefs(), freed, interned.contents, payload);
      a := Allocate(payload);
    }

    /** Any change to a live object other than a string: list elements, map entries, a closed upvalue. */
    method Update(a: nat, payload: Payload)
      requires Valid() && To(a) in Tracked() && a < |objects|
      requires !payload.StringObject? && !objects[a].StringObject?
      requires forall b: nat :: References.Mentions(payload, b) ==> To(b) in Tracked()
      modifies this`objects
      ensures Valid() && objects == old(objects)[a := payload]
    {
      hide HeapOk, RootRefs, Children, References.Mentions;
      OnlyMentioned(payload);
      UpdateKeepsHeapOk(objects, Tracked(), RootRefs(), freed, interned.contents, a, payload);
      objects := objects[a := payload];
    }

    /** Pushing, popping and assigning variables: any other choice of live roots. */
    method SetRoots(pinned: seq<Ref>, roots: seq<Value>, stack: seq<Value>, frames: seq<Ref>, globals: Ref,
                    openUpvalues: seq<Ref>)
      requires Valid()
      requires forall a: nat :: References.IsRoot(References.RootFields(pinned, roots, stack, frames, globals, openUpvalues), a) ==>
                 To(a) in Tracked()
      modifies this`pinned, this`roots, this`stack, this`frames, this`globals, this`openUpvalues
      ensures Valid() && Fields() == References.RootFields(pinned, roots, stack, frames, globals, openUpvalues)
    {
      hide HeapOk, References.RootSeq, References.IsRoot;
      OnlyRoots(References.RootFields(pinned, roots, stack, frames, globals, openUpvalues));
      NewRootsKeepHeapOk(objects, Tracked(), RootRefs(), freed, interned.contents,
                         RootsOf(pinned, roots, stack, frames, globals, openUpvalues));
      this.pinned, this.roots, this.stack := pinned, roots, stack;
      this.frames, this.globals, this.openUpvalues := frames, globals, openUpvalues;
    }
  }

  lemma OnlyMentioned(p: Payload)
    ensures forall b: nat :: b in Children(p) ==> References.Mentions(p, b)
  {
    hide Children, References.Mentions;
    forall b: nat | b in Children(p) ensures References.Mentions(p, b) { References.ChildrenAreMentioned(p, b); }
  }

  lemma OnlyRoots(f: References.RootFields)
    ensures forall a: nat :: a in References.RootSeq(f) ==> References.IsRoot(f, a)
  {
    hide References.RootSeq, References.IsRoot;
    forall a: nat | a in References.RootSeq(f) ensures References.IsRoot(f, a) { References.RootsAreMentioned(f, a); }
  }

  lemma StringsKnown(objects: seq<Payload>, live: seq<Ref>, roots: seq<nat>, freed: set<nat>, strings: map<seq<Byte>, nat>)
    requires HeapOk(objects, live, roots, freed, strings)
    ensures forall bytes :: bytes in strings ==> IsString(objects, live, strings[bytes], bytes)
    ensures To(|objects|) !in live
  {
  }

  lemma NewStringKeepsHeapOk(objects: seq<Payload>, live: seq<Ref>, roots: seq<nat>, freed: set<nat>,
                             strings: map<seq<Byte>, nat>, bytes: seq<Byte>)
    requires HeapOk(objects, live, roots, freed, strings) && bytes !in strings
    ensures var a := |objects|;
            var (objects', live') := (objects + [StringObject(bytes)], live + [To(a)]);
            HeapOk(objects', live', roots, freed - {a}, strings[bytes := a]) && IsString(objects', live', a, bytes)
  {
    var p := StringObject(bytes);
    GrowKeepsGraph(objects, live, roots, freed, p);
    var objects', live' := objects + [p], live + [To(|objects|)];
    forall a: nat, b | IsString(objects', live', a, b) ensures b in strings[bytes := |objects|] && strings[bytes := |objects|][b] == a {
      if a < |objects| { assert IsString(objects, live, a, b); }
    }
    forall b | b in strings ensures IsString(objects', live', strings[b], b) {
      assert IsString(objects, live, strings[b], b);
    }
  }

  lemma GrowKeepsGraph(objects: seq<Payload>, live: seq<Ref>, roots: seq<nat>, freed: set<nat>, p: Payload)
    requires GraphOk(objects, live, roots, freed) && forall b :: b in Children(p) ==> To(b) in live
    ensures GraphOk(objects + [p], live + [To(|objects|)], roots, freed - {|objects|})
  {
    hide Children;
    var objects', live' := objects + [p], live + [To(|objects|)];
    forall a: nat, b: nat | To(a) in live' && Edge(objects', a, b) ensures To(b) in live' {
      if a < |objects| { assert To(a) in live && Edge(objects, a, b); }
    }
  }

  lemma NewObjectKeepsHeapOk(objects: seq<Payload>, live: seq<Ref>, roots: seq<nat>, freed: set<nat>,
                             strings: map<seq<Byte>, nat>, p: Payload)
    requires HeapOk(objects, live, roots, freed, strings) && !p.StringObject?
    requires forall b :: b in Children(p) ==> To(b) in live
    ensures HeapOk(objects + [p], live + [To(|objects|)], roots, freed - {|objects|}, strings)
  {
    GrowKeepsGraph(objects, live, roots, freed, p);
    var objects', live' := objects + [p], live + [To(|objects|)];
    forall b | b in strings ensures IsString(objects', live', strings[b], b) {
      assert IsString(objects, live, strings[b], b);
    }
    forall a: nat, b | IsString(objects', live', a, b) ensures IsString(objects, live, a, b) { }
  }

  lemma UpdateKeepsHeapOk(objects: seq<Payload>, live: seq<Ref>, roots: seq<nat>, freed: set<nat>,
                          strings: map<seq<Byte>, nat>, a: nat, p: Payload)
    requires HeapOk(objects, live, roots, freed, strings) && a < |objects| && To(a) in live
    requires !p.StringObject? && !objects[a].StringObject? && forall b :: b in Children(p) ==> To(b) in live
    ensures HeapOk(objects[a := p], live, roots, freed, strings)
  {
    hide Children;
    var objects' := objects[a := p];
    forall b | b in strings ensures IsString(objects', live, strings[b], b) {
      assert IsString(objects, live, strings[b], b);
    }
    forall x: nat, b | IsString(objects', live, x, b) ensures b in strings && strings[b] == x {
      assert IsString(objects, live, x, b);
    }
    forall x: nat, b: nat | To(x) in live && Edge(objects[a := p], x, b) ensures To(b) in live {
      if x != a { assert Edge(objects, x, b); }
    }
  }

  lemma NewRootsKeepHeapOk(objects: seq<Payload>, live: seq<Ref>, roots: seq<nat>, freed: set<nat>,
                           strings: map<seq<Byte>, nat>, roots': seq<nat>)
    requires HeapOk(objects, live, roots, freed, strings) && forall a :: a in roots' ==> To(a) in live
    ensures HeapOk(objects, live, roots', freed, strings)
  {
  }

  /** What a collection leaves: of the tracked objects, exactly those that are alive stay, in their order, and exactly
      the others are freed; of the strings, exactly those that are alive stay. */
  ghost predicate Survivors(objects: seq<Payload>, f: References.RootFields, live: seq<Ref>, freed: set<nat>,
                            strings: map<seq<Byte>, nat>, live': seq<Ref>, freed': set<nat>, strings': map<seq<Byte>, nat>)
  {
    && (forall a: nat :: To(a) in live' <==> To(a) in live && References.Alive(objects, f, a))
    && (forall a: nat :: a in freed' <==> a in freed || (To(a) in live && !References.Alive(objects, f, a)))
    && (forall i, j :: 0 <= i < j < |live'| ==> Before(live, live'[i], live'[j]))
    && (forall bytes :: bytes in strings' <==> bytes in strings && References.Alive(objects, f, strings[bytes]))
    && (forall bytes :: bytes in strings' && bytes in strings ==> strings'[bytes] == strings[bytes])
  }

  /** r stands before t. */
  ghost predicate Before(s: seq<Ref>, r: Ref, t: Ref) {
    exists i, j :: 0 <= i < j < |s| && s[i] == r && s[j] == t
  }

  lemma {:induction false} KeptInOrder(s: seq<Ref>, marks: seq<bool>, i: nat, j: nat)
    requires i < j < |KeepMarked(s, marks)|
    ensures Before(s, KeepMarked(s, marks)[i], KeepMarked(s, marks)[j])
    decreases |s|
  {
    var init, last := s[..|s| - 1], s[|s| - 1];
    var kept := KeepMarked(s, marks);
    if j < |KeepMarked(init, marks)| {
      KeptInOrder(init, marks, i, j);
      var i', j' :| 0 <= i' < j' < |init| && init[i'] == kept[i] && init[j'] == kept[j];
      assert s[i'] == kept[i] && s[j'] == kept[j];
    } else {
      assert kept[i] in KeepMarked(init, marks);
      KeepMarkedMeaning(init, marks, kept[i]);
      var i' :| 0 <= i' < |init| && init[i'] == kept[i];
      assert s[i'] == kept[i] && s[|s| - 1] == kept[j];
    }
  }

  lemma CollectedSurvive(objects: seq<Payload>, f: References.RootFields, live: seq<Ref>, freed: set<nat>,
                         strings: map<seq<Byte>, nat>, roots: seq<nat>)
    requires roots == References.RootSeq(f) && forall r :: r in live ==> r.To? && r.address < |objects|
    requires forall bytes :: bytes in strings ==> strings[bytes] < |objects|
    ensures var alive := ReachableMarks(objects, roots);
            Survivors(objects, f, live, freed, strings,
                      KeepMarked(live, alive), freed + Unmarked(live, alive), Interning.Marked(strings, alive))
  {
    hide Reachable, References.Alive, KeepMarked, Unmarked, Before, References.RootSeq;
    var alive := ReachableMarks(objects, roots);
    forall a: nat ensures Reachable(objects, roots, a) <==> References.Alive(objects, f, a) {
      References.ReachableIsAlive(objects, f, a);
    }
    forall a: nat | a < |objects| ensures alive[a] <==> References.Alive(objects, f, a) {}
    forall a: nat
      ensures To(a) in KeepMarked(live, alive) <==> To(a) in live && References.Alive(objects, f, a)
      ensures a in Unmarked(live, alive) <==> To(a) in live && !References.Alive(objects, f, a)
    {
      KeepMarkedMeaning(live, alive, To(a));
      UnmarkedMeaning(live, alive, a);
      assert To(a) in live ==> To(a).address < |objects|;
    }
    forall i, j | 0 <= i < j < |KeepMarked(live, alive)| ensures Before(live, KeepMarked(live, alive)[i], KeepMarked(live, alive)[j]) {
      KeptInOrder(live, alive, i, j);
    }
  }

  /** The mark bits that say what is reachable. */
  ghost function ReachableMarks(objects: seq<Payload>, roots: seq<nat>): seq<bool> {
    seq(|objects|, a requires 0 <= a < |objects| => Reachable(objects, roots, a))
  }

  lemma MarkedLength(objects: seq<Payload>, roots: seq<nat>, m: Marking)
    requires Tracing.Marked(objects, roots, m, [])
    ensures |m.marks| == |objects|
  {
  }

  /** The addresses among `s` whose objects are not marked. */
  ghost function Unmarked(s: seq<Ref>, marks: seq<bool>): set<nat> {
    set r | r in s && r.To? && !IsMarked(r, marks) :: r.address
  }

  lemma SweepStart(s: seq<Ref>, marks: seq<bool>)
    ensures KeepMarked(s[..0], marks) == [] && Unmarked(s[..0], marks) == {}
  {
  }

  lemma SweepNext(s: seq<Ref>, marks: seq<bool>, i: nat)
    requires i < |s| && NoTwice(s)
    ensures KeepMarked(s[..i + 1], marks) == KeepMarked(s[..i], marks) + (if IsMarked(s[i], marks) then [s[i]] else [])
    ensures Unmarked(s[..i + 1], marks) ==
            Unmarked(s[..i], marks) + (if s[i].To? && !IsMarked(s[i], marks) then {s[i].address} else {})
    ensures s[i] !in s[..i] && forall r :: r in s[..i + 1] <==> r in s[..i] || r == s[i]
  {
    assert s[..i + 1] == s[..i] + [s[i]];
    assert s[..i + 1][..i] == s[..i];
    forall r | r in Unmarked(s[..i + 1], marks)
      ensures r in Unmarked(s[..i], marks) || (s[i].To? && !IsMarked(s[i], marks) && r == s[i].address)
    {
      assert To(r) in s[..i + 1];
    }
    forall r | r in Unmarked(s[..i], marks) ensures r in Unmarked(s[..i + 1], marks) {
      assert To(r) in s[..i];
      assert To(r) in s[..i + 1];
    }
    if s[i].To? && !IsMarked(s[i], marks) { assert s[i] in s[..i + 1]; }
  }

  lemma TopInRange(objects: seq<Payload>, roots: seq<nat>, m: Marking)
    requires Tracing.Marked(objects, roots, m, []) && m.gray != []
    requires forall a: nat, b: nat :: a < |objects| && Reachable(objects, roots, a) && Edge(objects, a, b) ==> b < |objects|
    ensures var a := m.gray[|m.gray| - 1];
            a < |objects| && |m.marks| == |objects| && InRange(Children(objects[a]), |m.marks|)
  {
    var a := m.gray[|m.gray| - 1];
    assert a in m.gray;
    forall b | b in Children(objects[a]) ensures b < |objects| { assert Edge(objects, a, b); }
  }

  ghost predicate InRange(s: seq<nat>, n: nat) {
    forall a :: a in s ==> a < n
  }

  lemma MarkNothing(m: Marking)
    ensures MarkSeq(m, []) == m
  {
  }

  lemma RefToRef(a: nat)
    ensures RefOf(To(a)) == [a]
  {
  }

  lemma MarkSeqOne(m: Marking, r: Ref)
    ensures MarkSeq(m, RefOf(r)) == if r.Null? then m else MarkOne(m, r.address)
  {
    if r.To? {
      assert [r.address][..0] == [];
      assert MarkSeq(m, []) == m;
    }
  }

  lemma Both(m: Marking, a: seq<nat>, b: seq<nat>, n: nat)
    requires InRange(a + b, n)
    ensures InRange(a, n) && InRange(b, n) && MarkSeq(m, a + b) == MarkSeq(MarkSeq(m, a), b)
  {
    MarkSeqConcat(m, a, b);
    assert forall x :: x in a || x in b ==> x in a + b;
  }

  lemma KeyThenValue(m: Marking, e: MapEntry, n: nat)
    requires e.Entry? && InRange(EntryRefs(e), n)
    ensures InRange(RefOf(To(e.key)), n) && InRange(ValueRefs(e.value), n)
    ensures MarkSeq(m, EntryRefs(e)) == MarkSeq(MarkSeq(m, RefOf(To(e.key))), ValueRefs(e.value))
  {
    hide MarkSeq, InRange, ValueRefs;
    Both(m, [e.key], ValueRefs(e.value), n);
  }

  lemma NoValues(m: Marking, values: seq<Value>)
    ensures MarkSeq(m, AllRefs(values[..0])) == m
  {
  }

  lemma OneMoreValue(m: Marking, values: seq<Value>, i: nat, n: nat)
    requires i < |values| && InRange(AllRefs(values), n)
    ensures InRange(ValueRefs(values[i]), n)
    ensures MarkSeq(m, AllRefs(values[..i + 1])) == MarkSeq(MarkSeq(m, AllRefs(values[..i])), ValueRefs(values[i]))
  {
    assert values[..i + 1][..i] == values[..i];
    MarkSeqConcat(m, AllRefs(values[..i]), ValueRefs(values[i]));
    PrefixValues(values, i + 1);
  }

  lemma {:induction false} PrefixValues(values: seq<Value>, i: nat)
    requires i <= |values|
    ensures forall a :: a in AllRefs(values[..i]) ==> a in AllRefs(values)
    decreases |values|
  {
    if i < |values| {
      assert values[..|values| - 1][..i] == values[..i];
      PrefixValues(values[..|values| - 1], i);
    } else {
      assert values[..i] == values;
    }
  }

  lemma NoRefs(m: Marking, refs: seq<Ref>)
    ensures MarkSeq(m, AllRefsOf(refs[..0])) == m
  {
  }

  lemma OneMoreRef(m: Marking, refs: seq<Ref>, i: nat, n: nat)
    requires i < |refs| && InRange(AllRefsOf(refs), n)
    ensures InRange(RefOf(refs[i]), n)
    ensures MarkSeq(m, AllRefsOf(refs[..i + 1])) == MarkSeq(MarkSeq(m, AllRefsOf(refs[..i])), RefOf(refs[i]))
  {
    assert refs[..i + 1][..i] == refs[..i];
    MarkSeqConcat(m, AllRefsOf(refs[..i]), RefOf(refs[i]));
    PrefixRefs(refs, i + 1);
  }

  lemma {:induction false} PrefixRefs(refs: seq<Ref>, i: nat)
    requires i <= |refs|
    ensures forall a :: a in AllRefsOf(refs[..i]) ==> a in AllRefsOf(refs)
    decreases |refs|
  {
    if i < |refs| {
      assert refs[..|refs| - 1][..i] == refs[..i];
      PrefixRefs(refs[..|refs| - 1], i);
    } else {
      assert refs[..i] == refs;
    }
  }

  lemma NoEntries(m: Marking, entries: seq<MapEntry>)
    ensures MarkSeq(m, AllEntryRefs(entries[..0])) == m
  {
  }

  lemma OneMoreEntry(m: Marking, entries: seq<MapEntry>, i: nat, n: nat)
    requires i < |entries| && InRange(AllEntryRefs(entries), n)
    ensures InRange(EntryRefs(entries[i]), n)
    ensures MarkSeq(m, AllEntryRefs(entries[..i + 1])) ==
            MarkSeq(MarkSeq(m, AllEntryRefs(entries[..i])), EntryRefs(entries[i]))
    ensures !entries[i].Entry? ==> MarkSeq(m, AllEntryRefs(entries[..i + 1])) == MarkSeq(m, AllEntryRefs(entries[..i]))
  {
    hide MarkSeq;
    var before, more := AllEntryRefs(entries[..i]), EntryRefs(entries[i]);
    assert entries[..i + 1][..i] == entries[..i] && entries[..i + 1][i] == entries[i];
    assert AllEntryRefs(entries[..i + 1]) == before + more;
    MarkSeqConcat(m, before, more);
    PrefixEntries(entries, i + 1);
    forall a | a in more ensures a < n { assert a in before + more; }
    MarkNothing(MarkSeq(m, before));
  }

  lemma {:induction false} PrefixEntries(entries: seq<MapEntry>, i: nat)
    requires i <= |entries|
    ensures forall a :: a in AllEntryRefs(entries[..i]) ==> a in AllEntryRefs(entries)
    decreases |entries|
  {
    if i < |entries| {
      assert entries[..|entries| - 1][..i] == entries[..i];
      PrefixEntries(entries[..|entries| - 1], i);
    } else {
      assert entries[..i] == entries;
    }
  }
}
