/** How the compiler finds the variable behind a name (src/compiler.c): resolve_local, add_upvalue and
    resolve_upvalue over the functions being compiled, innermost first.

    The main result is that following the (is_local, index) pairs from closure to closure at run
    time arrives at the cell of the nearest enclosing local with the name. */
module Resolution {
  import opened Options
  import opened Upvalues

  const MAX_LOCALS := 256
  const MAX_UPVALUES := 256

  /** `ready` is false while the variable's own initialiser is compiled (depth -1). */
  datatype Local = Local(name: string, ready: bool, captured: bool)

  /** A function being compiled. Its upvalues are the first `count` entries of a table of 256, and the
      count is a byte. */
  datatype Fn = Fn(locals: seq<Local>, table: seq<Descriptor>, count: nat)

  ghost predicate FnOk(fn: Fn) {
    |fn.table| == MAX_UPVALUES && fn.count < 256 && |fn.locals| <= MAX_LOCALS
  }

  ghost predicate ChainOk(chain: seq<Fn>) {
    forall k :: 0 <= k < |chain| ==> FnOk(chain[k])
  }

  // ---- The three functions ----

  /** The last local with the name, or -1. */
  function ResolveLocal(locals: seq<Local>, name: string): (i: int)
    ensures -1 <= i < |locals|
  {
    if locals == [] then -1
    else if locals[|locals| - 1].name == name then |locals| - 1
    else ResolveLocal(locals[..|locals| - 1], name)
  }

  /** The first entry from `i` on that equals `d`, or the count. */
  function Find(table: seq<Descriptor>, count: nat, d: Descriptor, i: nat): (r: nat)
    requires i <= count <= |table|
    ensures i <= r <= count && (r < count ==> table[r] == d)
    ensures forall j :: i <= j < r ==> table[j] != d
    decreases count - i
  {
    if i == count || table[i] == d then i else Find(table, count, d, i + 1)
  }

  /** A function after an upvalue was looked up or added, and the index of the upvalue. The check for
      too many upvalues never fires, because the count wraps around first. */
  function AddUpvalue(fn: Fn, d: Descriptor): (Fn, nat)
    requires FnOk(fn)
  {
    var i := Find(fn.table, fn.count, d, 0);
    if i < fn.count then (fn, i)
    else (fn.(table := fn.table[fn.count := d], count := (fn.count + 1) % 256), fn.count)
  }

  datatype Resolved = Resolved(chain: seq<Fn>, index: int, error: bool)

  function ResolveUpvalue(chain: seq<Fn>, name: string): (r: Resolved)
    requires chain != [] && ChainOk(chain)
    ensures |r.chain| == |chain| && ChainOk(r.chain) && -1 <= r.index < 256
    decreases |chain|
  {
    if |chain| == 1 then Resolved(chain, -1, false)
    else
      var outer := chain[1];
      var local := ResolveLocal(outer.locals, name);
      if local != -1 then
        var l := outer.locals[local];
        var outer' := outer.(locals := outer.locals[local := l.(captured := true)]);
        var (fn, i) := AddUpvalue(chain[0], Descriptor(true, local));
        Resolved([fn, outer'] + chain[2..], i, !l.ready)
      else
        var r := ResolveUpvalue(chain[1..], name);
        if r.index == -1 then Resolved([chain[0]] + r.chain, -1, r.error)
        else
          var (fn, i) := AddUpvalue(chain[0], Descriptor(false, r.index));
          Resolved([fn] + r.chain, i, r.error)
  }

  // ---- What resolve_local finds ----

  lemma {:induction false} LocalMeaning(locals: seq<Local>, name: string)
    ensures var i := ResolveLocal(locals, name);
            if i == -1 then forall j :: 0 <= j < |locals| ==> locals[j].name != name
            else locals[i].name == name && forall j :: i < j < |locals| ==> locals[j].name != name
  {
    if locals != [] && locals[|locals| - 1].name != name {
      var rest := locals[..|locals| - 1];
      assert forall j :: 0 <= j < |rest| ==> rest[j] == locals[j];
      LocalMeaning(rest, name);
    }
  }

  lemma {:induction false} CapturingKeepsNames(locals: seq<Local>, k: nat, name: string)
    requires k < |locals|
    ensures ResolveLocal(locals[k := locals[k].(captured := true)], name) == ResolveLocal(locals, name)
    decreases |locals|
  {
    var after := locals[k := locals[k].(captured := true)];
    LocalMeaning(locals, name);
    LocalMeaning(after, name);
    var a, b := ResolveLocal(locals, name), ResolveLocal(after, name);
    assert forall j :: 0 <= j < |locals| ==> after[j].name == locals[j].name;
  }

  // ---- Descriptors once issued never change ----

  /** `after` still has every upvalue of `before` at its index. */
  ghost predicate Extends(before: Fn, after: Fn) {
    && before.count <= after.count && before.count <= |before.table| && after.count <= |after.table|
    && forall j :: 0 <= j < before.count ==> after.table[j] == before.table[j]
  }

  ghost predicate ChainExtends(before: seq<Fn>, after: seq<Fn>) {
    |before| == |after| && forall k :: 0 <= k < |before| ==> Extends(before[k], after[k])
  }

  /** Room for an upvalue: the descriptor is there already, or one more does not make the count wrap around. */
  ghost predicate RoomFor(fn: Fn, d: Descriptor)
    requires FnOk(fn)
  {
    fn.count < 255 || d in fn.table[..fn.count]
  }

  /** Room at every level at which resolving the name needs an upvalue. */
  ghost predicate HasRoom(chain: seq<Fn>, name: string)
    requires chain != [] && ChainOk(chain)
    decreases |chain|
  {
    |chain| == 1 ||
    var local := ResolveLocal(chain[1].locals, name);
    if local != -1 then RoomFor(chain[0], Descriptor(true, local))
    else
      var r := ResolveUpvalue(chain[1..], name);
      HasRoom(chain[1..], name) && (r.index == -1 || RoomFor(chain[0], Descriptor(false, r.index)))
  }

  /** Adding an upvalue keeps those already issued, and gives a valid index, if and only if there is room for it:
      with 255 others the byte count wraps to 0 and every upvalue is lost. */
  lemma AddKeepsIff(fn: Fn, d: Descriptor)
    requires FnOk(fn)
    ensures var (fn', i) := AddUpvalue(fn, d);
            && (Extends(fn, fn') <==> RoomFor(fn, d))
            && (RoomFor(fn, d) ==> i < fn'.count && fn'.table[i] == d)
            && (!RoomFor(fn, d) ==> fn'.count == 0)
  {
    var i := Find(fn.table, fn.count, d, 0);
    if i < fn.count { assert fn.table[..fn.count][i] == d; }
  }

  /** No descriptor is issued twice, so equal captures share an index. */
  ghost predicate NoDuplicates(fn: Fn) {
    fn.count <= |fn.table| && forall i, j :: 0 <= i < j < fn.count ==> fn.table[i] != fn.table[j]
  }

  lemma AddKeepsNoDuplicates(fn: Fn, d: Descriptor)
    requires FnOk(fn) && RoomFor(fn, d) && NoDuplicates(fn)
    ensures NoDuplicates(AddUpvalue(fn, d).0)
    ensures AddUpvalue(AddUpvalue(fn, d).0, d) == AddUpvalue(fn, d)
  {
    FoundAgain(fn, d);
    AddKeepsIff(fn, d);
  }

  /** Resolving a name keeps the descriptors issued at every level of the nest, and gives a valid index, if and only
      if there is room. */
  lemma {:induction false} ResolveExtendsIff(chain: seq<Fn>, name: string)
    requires chain != [] && ChainOk(chain)
    ensures ChainExtends(chain, ResolveUpvalue(chain, name).chain) <==> HasRoom(chain, name)
    ensures var r := ResolveUpvalue(chain, name);
            HasRoom(chain, name) && r.index >= 0 ==> r.index < r.chain[0].count
    decreases |chain|
  {
    var after := ResolveUpvalue(chain, name).chain;
    if |chain| > 1 {
      var outer := chain[1];
      var local := ResolveLocal(outer.locals, name);
      if local != -1 {
        AddKeepsIff(chain[0], Descriptor(true, local));
      } else {
        ResolveExtendsIff(chain[1..], name);
        var r := ResolveUpvalue(chain[1..], name);
        if r.index != -1 { AddKeepsIff(chain[0], Descriptor(false, r.index)); }
        assert after[1..] == r.chain;
        OuterExtends(chain, after);
      }
    }
  }

  lemma OuterExtends(chain: seq<Fn>, after: seq<Fn>)
    requires |chain| == |after| > 0
    ensures ChainExtends(chain, after) <==> Extends(chain[0], after[0]) && ChainExtends(chain[1..], after[1..])
  {
    if ChainExtends(chain, after) {
      forall k | 0 <= k < |chain| - 1 ensures Extends(chain[1..][k], after[1..][k]) {
        assert Extends(chain[k + 1], after[k + 1]);
      }
    }
    if Extends(chain[0], after[0]) && ChainExtends(chain[1..], after[1..]) {
      forall k | 0 <= k < |chain| ensures Extends(chain[k], after[k]) {
        if k > 0 { assert Extends(chain[1..][k - 1], after[1..][k - 1]); }
      }
    }
  }

  // ---- What the descriptors mean at run time ----

  /** One activation per function of the nest, innermost first: the cells of its variables by slot, and
      the upvalues of the closure it runs. */
  datatype Activation = Activation(cells: map<nat, nat>, upvalues: seq<nat>)

  /** Each closure was made by OP_CLOSURE in the next outer activation from the descriptors of its function. */
  ghost predicate Built(chain: seq<Fn>, env: seq<Activation>) {
    && |chain| == |env|
    && forall k :: 0 <= k < |chain| - 1 ==> BuiltFrom(chain[k], env[k].upvalues, env[k + 1])
  }

  ghost predicate BuiltFrom(fn: Fn, upvalues: seq<nat>, outer: Activation) {
    && |upvalues| == fn.count <= |fn.table|
    && forall j :: 0 <= j < fn.count ==> Denotes(fn.table[j], upvalues[j], outer)
  }

  /** What OP_CLOSURE stores for one descriptor. */
  ghost predicate Denotes(d: Descriptor, id: nat, outer: Activation) {
    if d.isLocal then d.index in outer.cells && id == outer.cells[d.index]
    else d.index < |outer.upvalues| && id == outer.upvalues[d.index]
  }

  /** The cell of the nearest enclosing local with the name. */
  ghost function NearestCell(chain: seq<Fn>, env: seq<Activation>, name: string): Option<nat>
    requires |chain| == |env|
    decreases |chain|
  {
    if |chain| <= 1 then None
    else
      var i := ResolveLocal(chain[1].locals, name);
      if i == -1 then NearestCell(chain[1..], env[1..], name)
      else if i in env[1].cells then Some(env[1].cells[i]) else None
  }

  ghost predicate Bound(chain: seq<Fn>, name: string) {
    exists k :: 1 <= k < |chain| && ResolveLocal(chain[k].locals, name) != -1
  }

  lemma BoundFurtherOut(chain: seq<Fn>, name: string)
    requires |chain| > 1
    ensures Bound(chain, name) <==> ResolveLocal(chain[1].locals, name) != -1 || Bound(chain[1..], name)
  {
    if Bound(chain, name) {
      var k :| 1 <= k < |chain| && ResolveLocal(chain[k].locals, name) != -1;
      if k > 1 { assert chain[1..][k - 1] == chain[k]; }
    }
    if Bound(chain[1..], name) {
      var k :| 1 <= k < |chain[1..]| && ResolveLocal(chain[1..][k].locals, name) != -1;
      assert chain[1..][k] == chain[k + 1];
    }
  }

  /** resolve_upvalue fails exactly when no enclosing function has a local with the name. */
  lemma {:induction false} ResolvesIffBound(chain: seq<Fn>, name: string)
    requires chain != [] && ChainOk(chain)
    ensures ResolveUpvalue(chain, name).index != -1 <==> Bound(chain, name)
    decreases |chain|
  {
    if |chain| > 1 {
      BoundFurtherOut(chain, name);
      if ResolveLocal(chain[1].locals, name) == -1 { ResolvesIffBound(chain[1..], name); }
    }
  }

  /** For any nest of functions and any name: in every run-time nest built from the descriptors, or from
      any later ones, the upvalue at the index found is the cell of the nearest enclosing local. */
  lemma {:induction false} ResolvedUpvalueIsNearestCell(chain: seq<Fn>, name: string, final: seq<Fn>, env: seq<Activation>)
    requires chain != [] && ChainOk(chain) && HasRoom(chain, name)
    requires ChainExtends(ResolveUpvalue(chain, name).chain, final) && Built(final, env)
    ensures var r := ResolveUpvalue(chain, name);
            r.index >= 0 ==> r.index < |env[0].upvalues| && NearestCell(chain, env, name) == Some(env[0].upvalues[r.index])
    decreases |chain|
  {
    var r := ResolveUpvalue(chain, name);
    ResolveExtendsIff(chain, name);
    if r.index >= 0 {
      assert Extends(r.chain[0], final[0]);
      assert BuiltFrom(final[0], env[0].upvalues, env[1]);
      assert Denotes(final[0].table[r.index], env[0].upvalues[r.index], env[1]);
      var local := ResolveLocal(chain[1].locals, name);
      if local != -1 {
        AddKeepsIff(chain[0], Descriptor(true, local));
      } else {
        var inner := ResolveUpvalue(chain[1..], name);
        AddKeepsIff(chain[0], Descriptor(false, inner.index));
        RestExtends(chain, name, final);
        RestBuilt(final, env);
        ResolvedUpvalueIsNearestCell(chain[1..], name, final[1..], env[1..]);
      }
    }
  }

  lemma RestExtends(chain: seq<Fn>, name: string, final: seq<Fn>)
    requires |chain| > 1 && ChainOk(chain) && ResolveLocal(chain[1].locals, name) == -1
    requires ChainExtends(ResolveUpvalue(chain, name).chain, final)
    ensures ChainExtends(ResolveUpvalue(chain[1..], name).chain, final[1..])
  {
    var r, rest := ResolveUpvalue(chain, name), ResolveUpvalue(chain[1..], name);
    forall k | 0 <= k < |rest.chain| ensures Extends(rest.chain[k], final[1..][k]) {
      assert rest.chain[k] == r.chain[k + 1];
      assert Extends(r.chain[k + 1], final[k + 1]);
    }
  }

  lemma RestBuilt(final: seq<Fn>, env: seq<Activation>)
    requires |final| > 1 && Built(final, env)
    ensures Built(final[1..], env[1..])
  {
    forall k | 0 <= k < |final| - 2 ensures BuiltFrom(final[1..][k], env[1..][k].upvalues, env[1..][k + 1]) {
      assert BuiltFrom(final[k + 1], env[k + 1].upvalues, env[k + 2]);
    }
  }

  /** Using a name twice in a function uses one upvalue: resolving again finds the same index and adds
      nothing at any level. */
  lemma {:induction false} ResolveAgain(chain: seq<Fn>, name: string)
    requires chain != [] && ChainOk(chain) && HasRoom(chain, name)
    ensures var r := ResolveUpvalue(chain, name);
            var again := ResolveUpvalue(r.chain, name);
            again.index == r.index && again.chain == r.chain
    decreases |chain|
  {
    if |chain| > 1 {
      var r := ResolveUpvalue(chain, name);
      var local := ResolveLocal(chain[1].locals, name);
      if local != -1 {
        CapturingKeepsNames(chain[1].locals, local, name);
        FoundAgain(chain[0], Descriptor(true, local));
        assert r.chain[2..] == chain[2..];
        var l := r.chain[1].locals[local];
        assert r.chain[1].locals[local := l.(captured := true)] == r.chain[1].locals;
        assert ResolveUpvalue(r.chain, name).chain == r.chain;
      } else {
        var inner := ResolveUpvalue(chain[1..], name);
        ResolveAgain(chain[1..], name);
        NamesKept(chain[1..], name);
        assert r.chain[1..] == inner.chain;
        if inner.index != -1 { FoundAgain(chain[0], Descriptor(false, inner.index)); }
      }
    }
  }

  /** Resolving never changes which names are bound where. */
  lemma {:induction false} NamesKept(chain: seq<Fn>, name: string)
    requires chain != [] && ChainOk(chain)
    ensures ResolveUpvalue(chain, name).chain[0].locals == chain[0].locals
  {
  }

  lemma FoundAgain(fn: Fn, d: Descriptor)
    requires FnOk(fn) && RoomFor(fn, d)
    ensures var (fn', i) := AddUpvalue(fn, d);
            AddUpvalue(fn', d) == (fn', i)
  {
    var (fn', i) := AddUpvalue(fn, d);
    assert fn'.table[i] == d;
    var k := Find(fn'.table, fn'.count, d, 0);
    assert k <= i;
    if i < fn.count { assert k == i; }
  }

  // ---- OP_CLOSURE builds what the descriptors say ----

  /** The open upvalue of a captured slot. */
  ghost function OpenUpvalueOf(m: Machine, slot: nat): (id: nat)
    requires Captured(m, slot)
    ensures SlotOf(m.upvalues, id) == slot
  {
    var id: nat :| SlotOf(m.upvalues, id) == slot;
    id
  }

  ghost predicate CapturedIn(m: Machine, f: Frame, slot: nat) {
    Captured(m, f.base + slot)
  }

  /** The running function as an activation: its captured variables, and its closure's upvalues. */
  ghost function ActivationOf(m: Machine, f: Frame): Activation
    requires f.closure < |m.closures|
  {
    Activation(map slot: nat | slot < |m.stack| && CapturedIn(m, f, slot) :: OpenUpvalueOf(m, f.base + slot),
               m.closures[f.closure].upvalues)
  }

  ghost predicate Filled(m: Machine, f: Frame, d: Descriptor, id: nat) {
    if d.isLocal then SlotOf(m.upvalues, id) == f.base + d.index
    else f.closure < |m.closures| && d.index < |m.closures[f.closure].upvalues| &&
         id == m.closures[f.closure].upvalues[d.index]
  }

  lemma {:induction false} FillMeaning(m: Machine, f: Frame, ds: seq<Descriptor>)
    requires ListOk(m) && AllFillOk(|m.stack|, m.closures, f, ds)
    ensures var (m', ids) := FillAll(m, f, ds);
            && ListOk(m') && m.upvalues <= m'.upvalues
            && forall j :: 0 <= j < |ds| ==> Filled(m', f, ds[j], ids[j])
    decreases |ds|
  {
    hide Capture, ListOk;
    if ds != [] {
      var d := ds[0];
      assert d in ds;
      if d.isLocal { CaptureMeaning(m, f.base + d.index); }
      var (m1, id) := Fill(m, f, d);
      FillMeaning(m1, f, ds[1..]);
      var (m', ids) := FillAll(m, f, ds);
      forall j | 0 <= j < |ds|
        ensures Filled(m', f, ds[j], ids[j])
      {
        if j > 0 { assert ds[1..][j - 1] == ds[j] && Filled(m', f, ds[1..][j - 1], ids[j]); }
      }
    }
  }

  /** The upvalues of a closure are what its descriptors say about the activation that made it. */
  ghost predicate Described(ds: seq<Descriptor>, upvalues: seq<nat>, outer: Activation) {
    |upvalues| == |ds| && forall j :: 0 <= j < |ds| ==> Denotes(ds[j], upvalues[j], outer)
  }

  lemma ClosureIsDescribed(m: Machine, ds: seq<Descriptor>, arity: nat)
    requires ListOk(m) && m.frames != [] && m.frames[|m.frames| - 1].closure < |m.closures|
    requires Execute(m, MakeClosure(arity, ds)).Go?
    ensures var m' := Execute(m, MakeClosure(arity, ds)).m;
            && |m'.closures| == |m.closures| + 1 && m'.closures[..|m.closures|] == m.closures && m'.frames == m.frames
            && Described(ds, m'.closures[|m.closures|].upvalues, ActivationOf(m', m.frames[|m.frames| - 1]))
  {
    hide ListOk, FillAll, AllFillOk;
    var f := m.frames[|m.frames| - 1];
    var m1 := m.(stack := m.stack + [Closure(|m.closures|)]);
    PushKeepsList(m, Closure(|m.closures|));
    FillMeaning(m1, f, ds);
    var (m2, ids) := FillAll(m1, f, ds);
    var m' := m2.(closures := m2.closures + [ClosureObject(arity, ids)]);
    forall j | 0 <= j < |ds| ensures Denotes(ds[j], ids[j], ActivationOf(m', f)) {
      assert Filled(m2, f, ds[j], ids[j]);
      if ds[j].isLocal { OpenOnce(m2, m', f, ds[j].index, ids[j]); }
    }
  }

  /** The closure that OP_CLOSURE makes denotes, upvalue by upvalue, what its descriptors say about the
      activation that makes it. */
  lemma ClosureIsBuilt(m: Machine, fn: Fn, arity: nat)
    requires ListOk(m) && m.frames != [] && FnOk(fn)
    requires Execute(m, MakeClosure(arity, fn.table[..fn.count])).Go?
    ensures var m' := Execute(m, MakeClosure(arity, fn.table[..fn.count])).m;
            var f := m.frames[|m.frames| - 1];
            && |m'.closures| == |m.closures| + 1 && m'.stack == m.stack + [Closure(|m.closures|)]
            && (f.closure < |m.closures| ==>
                  BuiltFrom(fn, m'.closures[|m.closures|].upvalues, ActivationOf(m', f)))
  {
    hide ListOk, FillAll, AllFillOk;
    var ds, f := fn.table[..fn.count], m.frames[|m.frames| - 1];
    if f.closure < |m.closures| {
      ClosureIsDescribed(m, ds, arity);
      forall j | 0 <= j < fn.count ensures Denotes(fn.table[j], Execute(m, MakeClosure(arity, ds)).m.closures[|m.closures|].upvalues[j],
                                                   ActivationOf(Execute(m, MakeClosure(arity, ds)).m, f)) {
        assert ds[j] == fn.table[j];
      }
    }
  }

  lemma OpenOnce(m: Machine, m': Machine, f: Frame, slot: nat, id: nat)
    requires ListOk(m) && m'.upvalues == m.upvalues && m'.stack == m.stack
    requires f.closure < |m'.closures| && SlotOf(m.upvalues, id) == f.base + slot
    ensures slot in ActivationOf(m', f).cells && ActivationOf(m', f).cells[slot] == id
  {
    var i := IndexOf(m.open, id);
    assert SlotOf(m.upvalues, m.open[i]) < |m.stack|;
    assert Captured(m', f.base + slot);
    OneUpvaluePerSlot(m, id, OpenUpvalueOf(m', f.base + slot));
  }

  // ---- A nest that runs out of room ----

  function Name(j: nat): string
    requires j < 255
  {
    [(97 + j) as char]
  }

  function Unused(n: nat): (table: seq<Descriptor>)
    ensures |table| == n
  {
    if n == 0 then [] else [Descriptor(false, 0)] + Unused(n - 1)
  }

  /** Slot 0 is the function itself, which has no name; after it n locals. */
  function Named(n: nat): (r: seq<Local>)
    requires n <= 255
    ensures |r| == n + 1 && r[0].name == "" && forall j :: 1 <= j <= n ==> r[j].name == Name(j - 1)
  {
    if n == 0 then [Local("", true, false)] else Named(n - 1) + [Local(Name(n - 1), true, false)]
  }

  /** All slots taken. */
  function FullLocals(): (r: seq<Local>)
    ensures |r| == MAX_LOCALS && r[0].name == "" && forall j :: 1 <= j < MAX_LOCALS ==> r[j].name == Name(j - 1)
  {
    Named(255)
  }

  /** A function in a function with 255 locals in a function with a local x. */
  function DeepNest(): (chain: seq<Fn>)
    ensures |chain| == 3 && ChainOk(chain)
  {
    [Fn([Local("", true, false)], Unused(MAX_UPVALUES), 0), Fn(FullLocals(), Unused(MAX_UPVALUES), 0),
     Fn([Local("", true, false), Local("x!", true, false)], Unused(MAX_UPVALUES), 0)]
  }

  /** The nest after the innermost function has used the first k locals of the middle one. */
  function AfterUses(k: nat): (chain: seq<Fn>)
    requires k <= 255
    ensures |chain| == 3 && ChainOk(chain)
  {
    if k == 0 then DeepNest() else ResolveUpvalue(AfterUses(k - 1), Name(k - 1)).chain
  }

  ghost predicate SameNames(a: seq<Local>, b: seq<Local>) {
    |a| == |b| && forall j :: 0 <= j < |a| ==> a[j].name == b[j].name
  }

  lemma {:induction false} UsesAdd(k: nat)
    requires k <= 255
    ensures var chain := AfterUses(k);
            && chain[0].count == k && (forall j :: 0 <= j < k ==> chain[0].table[j] == Descriptor(true, j + 1))
            && SameNames(chain[1].locals, FullLocals()) && chain[1].count == 0 && chain[2] == DeepNest()[2]
    decreases k
  {
    hide FullLocals, ResolveLocal, SameNames;
    if k == 0 {
      SameAsItself();
    } else {
      UsesAdd(k - 1);
      var chain := AfterUses(k - 1);
      NameAt(chain[1].locals, k - 1);
      NewUpvalue(chain[0], Descriptor(true, k));
      CaptureKeepsSame(chain[1].locals, k);
    }
  }

  lemma SameAsItself()
    ensures SameNames(FullLocals(), FullLocals())
  {
    hide FullLocals;
  }

  lemma CaptureKeepsSame(locals: seq<Local>, i: nat)
    requires SameNames(locals, FullLocals()) && i < |locals|
    ensures SameNames(locals[i := locals[i].(captured := true)], FullLocals())
  {
    hide FullLocals;
  }

  lemma NameAt(locals: seq<Local>, j: nat)
    requires SameNames(locals, FullLocals()) && j < 255
    ensures ResolveLocal(locals, Name(j)) == j + 1
  {
    LocalMeaning(locals, Name(j));
    assert locals[j + 1].name == Name(j);
    forall i | 0 <= i < |locals| && i != j + 1 ensures locals[i].name != Name(j) {
      if i > 0 { assert locals[i].name == Name(i - 1) && Name(i - 1)[0] != Name(j)[0]; }
    }
  }

  /** A descriptor that is not there goes to the end. */
  lemma NewUpvalue(fn: Fn, d: Descriptor)
    requires FnOk(fn) && fn.count < 255 && forall j :: 0 <= j < fn.count ==> fn.table[j] != d
    ensures var (fn', i) := AddUpvalue(fn, d);
            i == fn.count && fn' == fn.(table := fn.table[fn.count := d], count := fn.count + 1)
  {
  }

  /** The 256th capture: the outermost local, after the 255 of the middle function. There is no room, no error is
      reported, and the innermost function is left with no upvalues at all. */
  lemma LastCaptureLosesAll()
    ensures var chain := AfterUses(255);
            var r := ResolveUpvalue(chain, "x!");
            && chain[0].count == 255 && !HasRoom(chain, "x!")
            && r.index == 255 && !r.error && r.chain[0].count == 0
  {
    hide FullLocals, SameNames, AfterUses;
    UsesAdd(255);
    var chain := AfterUses(255);
    NoX(chain[1].locals);
    var d := Descriptor(false, 0);
    OutermostX(chain[1..]);
    NoSuchDescriptor(chain[0], d);
  }

  lemma NoX(locals: seq<Local>)
    requires SameNames(locals, FullLocals())
    ensures ResolveLocal(locals, "x!") == -1
  {
    LocalMeaning(locals, "x!");
    forall i | 0 <= i < |locals| ensures locals[i].name != "x!" {
      if i > 0 { assert locals[i].name == Name(i - 1); }
    }
  }

  lemma OutermostX(chain: seq<Fn>)
    requires |chain| == 2 && ChainOk(chain) && chain[0].count == 0 && chain[1] == DeepNest()[2]
    ensures var r := ResolveUpvalue(chain, "x!");
            r.index == 0 && !r.error && HasRoom(chain, "x!")
  {
    var locals := chain[1].locals;
    assert locals[1].name == "x!" && locals[..1] == [Local("", true, false)];
    assert ResolveLocal(locals, "x!") == 1;
  }

  lemma NoSuchDescriptor(fn: Fn, d: Descriptor)
    requires FnOk(fn) && fn.count == 255 && forall j :: 0 <= j < 255 ==> fn.table[j] != d
    ensures !RoomFor(fn, d) && AddUpvalue(fn, d).0.count == 0 && AddUpvalue(fn, d).1 == 255
  {
  }
}
