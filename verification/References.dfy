/** Which objects an object refers to (gc_trace_object of src/gc.c), by the fields of each kind and not by the sequences
    that the tracer walks; which objects the collector starts from; and what is alive, by chains of such references. */
module References {
  import opened Tracing

  ghost predicate Among(vs: seq<Value>, b: nat) {
    exists i :: 0 <= i < |vs| && vs[i] == Object(b)
  }

  ghost predicate AmongRefs(rs: seq<Ref>, b: nat) {
    exists i :: 0 <= i < |rs| && rs[i] == To(b)
  }

  /** Entry i of a map is in use, and b is its key or its value. */
  predicate EntryMentions(entries: seq<MapEntry>, i: int, b: nat) {
    0 <= i < |entries| && entries[i].Entry? && (entries[i].key == b || entries[i].value == Object(b))
  }

  ghost predicate AmongEntries(entries: seq<MapEntry>, b: nat) {
    exists i :: EntryMentions(entries, i, b)
  }

  /** Some field of the object refers to object b. */
  ghost predicate Mentions(p: Payload, b: nat) {
    match p
    case StringObject(_) => false
    case BytesObject => false
    case NativeObject => false
    case FunctionObject(name, constants) => name == To(b) || Among(constants, b)
    case ListObject(data) => Among(data, b)
    case MapObject(entries) => AmongEntries(entries, b)
    case ClosureObject(fn, upvalues) => fn == b || Among(upvalues, b)
    case UpvalueObject(closed) => closed == Object(b)
    case BoundMethodObject(receiver) => receiver == Object(b)
  }

  /** What the collector starts from. */
  datatype RootFields = RootFields(pinned: seq<Ref>, roots: seq<Value>, stack: seq<Value>, frames: seq<Ref>, globals: Ref,
                                   openUpvalues: seq<Ref>)

  ghost predicate IsRoot(f: RootFields, a: nat) {
    || AmongRefs(f.pinned, a) || Among(f.roots, a) || Among(f.stack, a) || AmongRefs(f.frames, a)
    || f.globals == To(a) || AmongRefs(f.openUpvalues, a)
  }

  function RootSeq(f: RootFields): seq<nat> {
    AllRefsOf(f.pinned) + AllRefs(f.roots) + AllRefs(f.stack) + AllRefsOf(f.frames) + RefOf(f.globals) + AllRefsOf(f.openUpvalues)
  }

  ghost predicate Chain(objects: seq<Payload>, chain: seq<nat>) {
    chain != [] && forall i :: 0 <= i < |chain| - 1 ==> chain[i] < |objects| && Mentions(objects[chain[i]], chain[i + 1])
  }

  ghost predicate LeadsTo(objects: seq<Payload>, f: RootFields, chain: seq<nat>, a: nat) {
    Chain(objects, chain) && IsRoot(f, chain[0]) && chain[|chain| - 1] == a
  }

  /** A chain of references leads from a root to a. */
  ghost predicate Alive(objects: seq<Payload>, f: RootFields, a: nat) {
    exists chain :: LeadsTo(objects, f, chain, a)
  }

  // ---- The sequences of the tracer hold the references ----

  lemma {:induction false} AllRefsMeaning(vs: seq<Value>, b: nat)
    ensures b in AllRefs(vs) <==> Among(vs, b)
    decreases |vs|
  {
    if vs != [] {
      var init, last := vs[..|vs| - 1], vs[|vs| - 1];
      AllRefsMeaning(init, b);
      if Among(vs, b) {
        var i :| 0 <= i < |vs| && vs[i] == Object(b);
        assert i < |init| ==> init[i] == Object(b);
      }
      if Among(init, b) {
        var i :| 0 <= i < |init| && init[i] == Object(b);
        assert vs[i] == Object(b);
      }
      assert last == vs[|vs| - 1];
    }
  }

  lemma {:induction false} AllRefsOfMeaning(rs: seq<Ref>, b: nat)
    ensures b in AllRefsOf(rs) <==> AmongRefs(rs, b)
    decreases |rs|
  {
    if rs != [] {
      var init, last := rs[..|rs| - 1], rs[|rs| - 1];
      AllRefsOfMeaning(init, b);
      if AmongRefs(rs, b) {
        var i :| 0 <= i < |rs| && rs[i] == To(b);
        assert i < |init| ==> init[i] == To(b);
      }
      if AmongRefs(init, b) {
        var i :| 0 <= i < |init| && init[i] == To(b);
        assert rs[i] == To(b);
      }
      assert last == rs[|rs| - 1];
    }
  }

  lemma {:induction false} AllEntryRefsMeaning(es: seq<MapEntry>, b: nat)
    ensures b in AllEntryRefs(es) <==> AmongEntries(es, b)
    decreases |es|
  {
    hide EntryMentions, EntryRefs;
    if es != [] {
      var n := |es| - 1;
      AllEntryRefsMeaning(es[..n], b);
      EntryRefsMeaning(es, n, b);
      InFront(es, b);
    } else {
      NoEntries(es, b);
    }
  }

  lemma NoEntries(es: seq<MapEntry>, b: nat)
    requires es == []
    ensures !AmongEntries(es, b)
  {
  }

  lemma EntryRefsMeaning(es: seq<MapEntry>, i: nat, b: nat)
    requires i < |es|
    ensures b in EntryRefs(es[i]) <==> EntryMentions(es, i, b)
  {
  }

  lemma InFront(es: seq<MapEntry>, b: nat)
    requires es != []
    ensures AmongEntries(es, b) <==> AmongEntries(es[..|es| - 1], b) || EntryMentions(es, |es| - 1, b)
  {
    var n := |es| - 1;
    forall i ensures EntryMentions(es, i, b) <==> EntryMentions(es[..n], i, b) || (i == n && EntryMentions(es, n, b)) {}
  }

  /** The tracer follows exactly the references of an object. */
  lemma ChildrenAreMentioned(p: Payload, b: nat)
    ensures b in Children(p) <==> Mentions(p, b)
  {
    hide AllRefs, AllEntryRefs, Among, AmongEntries;
    match p
    case FunctionObject(_, constants) => AllRefsMeaning(constants, b);
    case ListObject(data) => AllRefsMeaning(data, b);
    case MapObject(entries) => AllEntryRefsMeaning(entries, b);
    case ClosureObject(_, upvalues) => AllRefsMeaning(upvalues, b);
    case _ =>
  }

  /** The collector starts from exactly the roots. */
  lemma RootsAreMentioned(f: RootFields, a: nat)
    ensures a in RootSeq(f) <==> IsRoot(f, a)
  {
    hide AllRefs, AllRefsOf, Among, AmongRefs;
    AllRefsOfMeaning(f.pinned, a);
    AllRefsMeaning(f.roots, a);
    AllRefsMeaning(f.stack, a);
    AllRefsOfMeaning(f.frames, a);
    AllRefsOfMeaning(f.openUpvalues, a);
  }

  /** What the mark phase takes for reachable is what is alive. */
  lemma ReachableIsAlive(objects: seq<Payload>, f: RootFields, a: nat)
    ensures Reachable(objects, RootSeq(f), a) <==> Alive(objects, f, a)
  {
    hide Path, Chain, IsRoot, RootSeq, LeadsTo, PathFrom;
    if Reachable(objects, RootSeq(f), a) {
      var path :| PathFrom(objects, RootSeq(f), path, a);
      PathLeads(objects, f, path, a);
    }
    if Alive(objects, f, a) {
      var path :| LeadsTo(objects, f, path, a);
      PathLeads(objects, f, path, a);
    }
  }

  lemma PathLeads(objects: seq<Payload>, f: RootFields, path: seq<nat>, a: nat)
    ensures PathFrom(objects, RootSeq(f), path, a) <==> LeadsTo(objects, f, path, a)
  {
    hide IsRoot, RootSeq;
    PathIsChain(objects, path);
    if path != [] { RootsAreMentioned(f, path[0]); }
  }

  lemma PathIsChain(objects: seq<Payload>, path: seq<nat>)
    ensures Path(objects, path) <==> Chain(objects, path)
  {
    hide Children, Mentions;
    if Path(objects, path) {
      forall i | 0 <= i < |path| - 1 ensures path[i] < |objects| && Mentions(objects[path[i]], path[i + 1]) {
        assert Edge(objects, path[i], path[i + 1]);
        ChildrenAreMentioned(objects[path[i]], path[i + 1]);
      }
    }
    if Chain(objects, path) {
      forall i | 0 <= i < |path| - 1 ensures Edge(objects, path[i], path[i + 1]) {
        assert path[i] < |objects| && Mentions(objects[path[i]], path[i + 1]);
        ChildrenAreMentioned(objects[path[i]], path[i + 1]);
      }
    }
  }
}
