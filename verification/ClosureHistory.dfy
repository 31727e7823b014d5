/** Closures over whole runs: every closure that a run has made is built from its descriptors and the activation that made
    it, all the way out, so a name resolved by the compiler is the nearest enclosing variable in every run. */
module ClosureHistory {
  import opened Options
  import opened Upvalues
  import opened Resolution

  /** How a closure was made: from which descriptors, by an activation of which closure, and the cells that the slots of
      that activation had then. */
  datatype Birth = Birth(descriptors: seq<Descriptor>, parent: nat, cells: map<nat, nat>)

  /** A machine and how each of its closures was made. */
  datatype Recorded = Recorded(m: Machine, births: seq<Birth>)

  ghost function Record(r: Recorded, op: Op): Step<Recorded> {
    match Execute(r.m, op)
    case Stop => Stop
    case Go(m) =>
      if op.MakeClosure? && r.m.frames != [] && r.m.frames[|r.m.frames| - 1].closure < |m.closures| then
        var f := r.m.frames[|r.m.frames| - 1];
        Go(Recorded(m, r.births + [Birth(op.descriptors, f.closure, ActivationOf(m, f).cells)]))
      else Go(Recorded(m, r.births))
  }

  ghost function RecordAll(r: Recorded, ops: seq<Op>): Step<Recorded>
    decreases |ops|
  {
    if ops == [] then Go(r)
    else match Record(r, ops[0])
      case Stop => Stop
      case Go(r) => RecordAll(r, ops[1..])
  }

  /** The script itself has no descriptors. */
  ghost function Begin(): Recorded {
    Recorded(Start(0), [Birth([], 0, map[])])
  }

  /** Closure c has the upvalues that its descriptors say, in the activation that made it. */
  ghost predicate WellBorn(r: Recorded, c: nat)
    requires 0 < c < |r.births| == |r.m.closures|
  {
    var b := r.births[c];
    b.parent < c && Described(b.descriptors, r.m.closures[c].upvalues, Activation(b.cells, r.m.closures[b.parent].upvalues))
  }

  ghost predicate RecordOk(r: Recorded) {
    && ListOk(r.m) && |r.births| == |r.m.closures| > 0
    && (forall k :: 0 <= k < |r.m.frames| ==> r.m.frames[k].closure < |r.m.closures|)
    && forall c :: 0 < c < |r.births| ==> WellBorn(r, c)
  }

  // ---- Every run keeps the record ----

  /** Closures are only ever added, by OP_CLOSURE, and frames only ever run closures that exist. */
  lemma StepKeepsClosures(m: Machine, op: Op)
    requires Execute(m, op).Go? && forall k :: 0 <= k < |m.frames| ==> m.frames[k].closure < |m.closures|
    ensures var m' := Execute(m, op).m;
            && m.frames != [] && (!op.MakeClosure? ==> m'.closures == m.closures)
            && forall k :: 0 <= k < |m'.frames| ==> m'.frames[k].closure < |m'.closures|
  {
    hide CloseFrom, FillAll, AllFillOk;
  }

  lemma BirthKept(r: Recorded, r': Recorded, c: nat)
    requires 0 < c < |r.births| == |r.m.closures| && WellBorn(r, c)
    requires |r'.births| == |r'.m.closures| && |r.births| <= |r'.births|
    requires r'.births[..|r.births|] == r.births && r'.m.closures[..|r.m.closures|] == r.m.closures
    ensures WellBorn(r', c)
  {
    hide Described;
    assert r'.births[c] == r.births[c] && r'.m.closures[c] == r.m.closures[c];
    assert r'.m.closures[r.births[c].parent] == r.m.closures[r.births[c].parent];
  }

  lemma StepKeepsRecord(r: Recorded, op: Op)
    requires RecordOk(r) && Disciplined(r.m, op) && Record(r, op).Go?
    ensures RecordOk(Record(r, op).m) && Execute(r.m, op) == Go(Record(r, op).m.m)
  {
    hide Execute, ListOk, WellBorn, Disciplined;
    var r' := Record(r, op).m;
    StepKeepsList(r.m, op);
    StepKeepsClosures(r.m, op);
    if op.MakeClosure? {
      ClosureIsDescribed(r.m, op.descriptors, op.arity);
      NewIsWellBorn(r, op);
      assert r'.births[..|r.births|] == r.births;
    } else {
      assert r'.births[..|r.births|] == r.births && r'.m.closures[..|r.m.closures|] == r.m.closures;
    }
    forall c | 0 < c < |r'.births| ensures WellBorn(r', c) {
      if c < |r.births| { BirthKept(r, r', c); }
    }
  }

  lemma NewIsWellBorn(r: Recorded, op: Op)
    requires RecordOk(r) && op.MakeClosure? && Record(r, op).Go? && r.m.frames != []
    ensures var r' := Record(r, op).m;
            && |r'.births| == |r'.m.closures| == |r.births| + 1 && WellBorn(r', |r.births|)
  {
    hide Execute, ListOk, Described;
    ClosureIsDescribed(r.m, op.descriptors, op.arity);
    var r', f := Record(r, op).m, r.m.frames[|r.m.frames| - 1];
    assert r'.m.closures[f.closure] == r'.m.closures[..|r.m.closures|][f.closure];
    assert ActivationOf(r'.m, f) == Activation(ActivationOf(r'.m, f).cells, r'.m.closures[f.closure].upvalues);
  }

  lemma {:induction false} RunKeepsRecord(r: Recorded, ops: seq<Op>)
    requires RecordOk(r) && DisciplinedRun(r.m, ops) && Run(r.m, ops).Go?
    ensures RecordAll(r, ops).Go? && RecordAll(r, ops).m.m == Run(r.m, ops).m && RecordOk(RecordAll(r, ops).m)
    decreases |ops|
  {
    hide Execute, RecordOk, Disciplined;
    if ops != [] {
      StepKeepsRecord(r, ops[0]);
      RunKeepsRecord(Record(r, ops[0]).m, ops[1..]);
    }
  }

  // ---- The nest of a closure ----

  /** The activations around closure c: the one it runs in, with the given cells, the one that made it, and so on out to
      the script. */
  ghost function Nest(r: Recorded, c: nat, cells: map<nat, nat>): (env: seq<Activation>)
    requires RecordOk(r) && c < |r.births|
    ensures |env| > 0 && env[0] == Activation(cells, r.m.closures[c].upvalues)
    decreases c
  {
    if c == 0 then [Activation(cells, r.m.closures[0].upvalues)]
    else
      assert WellBorn(r, c);
      [Activation(cells, r.m.closures[c].upvalues)] + Nest(r, r.births[c].parent, r.births[c].cells)
  }

  /** The functions of a chain are those that closure c and the closures around it were made from. */
  ghost predicate CodeOf(chain: seq<Fn>, r: Recorded, c: nat)
    requires RecordOk(r) && c < |r.births|
    decreases c
  {
    chain != [] && ChainOk(chain) &&
    if c == 0 then |chain| == 1
    else
      assert WellBorn(r, c);
      && r.births[c].descriptors == chain[0].table[..chain[0].count]
      && CodeOf(chain[1..], r, r.births[c].parent)
  }

  lemma {:induction false} NestIsBuilt(r: Recorded, c: nat, cells: map<nat, nat>, chain: seq<Fn>)
    requires RecordOk(r) && c < |r.births| && CodeOf(chain, r, c)
    ensures Built(chain, Nest(r, c, cells))
    decreases c
  {
    if c > 0 {
      assert WellBorn(r, c);
      var b := r.births[c];
      var outer := Nest(r, b.parent, b.cells);
      var env := Nest(r, c, cells);
      NestIsBuilt(r, b.parent, b.cells, chain[1..]);
      DescribedIsBuilt(chain[0], r.m.closures[c].upvalues, outer[0]);
      forall k | 0 <= k < |chain| - 1 ensures BuiltFrom(chain[k], env[k].upvalues, env[k + 1]) {
        if k > 0 {
          assert chain[1..][k - 1] == chain[k] && env[k] == outer[k - 1] && env[k + 1] == outer[k];
          assert BuiltFrom(chain[1..][k - 1], outer[k - 1].upvalues, outer[k]);
        }
      }
    }
  }

  lemma DescribedIsBuilt(fn: Fn, upvalues: seq<nat>, outer: Activation)
    requires FnOk(fn) && Described(fn.table[..fn.count], upvalues, outer)
    ensures BuiltFrom(fn, upvalues, outer)
  {
    var ds := fn.table[..fn.count];
    forall j | 0 <= j < fn.count ensures Denotes(fn.table[j], upvalues[j], outer) {
      assert ds[j] == fn.table[j] && Denotes(ds[j], upvalues[j], outer);
    }
  }

  // ---- The theorem ----

  lemma BeginIsOk()
    ensures RecordOk(Begin())
  {
  }

  /** After every disciplined run of a script, for every closure it has made and the functions these closures come from:
      the nest of the closure is built from its descriptors, level by level. */
  lemma EveryClosureIsBuilt(ops: seq<Op>, c: nat, cells: map<nat, nat>, chain: seq<Fn>)
    requires DisciplinedRun(Start(0), ops) && Run(Start(0), ops).Go?
    ensures RecordAll(Begin(), ops).Go? && RecordAll(Begin(), ops).m.m == Run(Start(0), ops).m
    ensures var r := RecordAll(Begin(), ops).m;
            RecordOk(r) && (c < |r.births| && CodeOf(chain, r, c) ==> Built(chain, Nest(r, c, cells)))
  {
    hide RecordOk, DisciplinedRun, Run;
    BeginIsOk();
    RunKeepsRecord(Begin(), ops);
    var r := RecordAll(Begin(), ops).m;
    if c < |r.births| && CodeOf(chain, r, c) { NestIsBuilt(r, c, cells, chain); }
  }

  /** A name that the compiler resolved while it compiled a function, used in any run by a closure of that function: the
      upvalue read is the cell of the nearest enclosing variable with the name. */
  lemma NamesFollowCells(ops: seq<Op>, c: nat, cells: map<nat, nat>, chain: seq<Fn>, name: string, final: seq<Fn>)
    requires DisciplinedRun(Start(0), ops) && Run(Start(0), ops).Go? && RecordAll(Begin(), ops).Go?
    requires var r := RecordAll(Begin(), ops).m;
             RecordOk(r) && c < |r.births| && CodeOf(final, r, c)
    requires chain != [] && ChainOk(chain) && HasRoom(chain, name) && ChainExtends(ResolveUpvalue(chain, name).chain, final)
    ensures var m, j := Run(Start(0), ops).m, ResolveUpvalue(chain, name).index;
            j >= 0 ==>
              && c < |m.closures| && j < |m.closures[c].upvalues|
              && |chain| == |Nest(RecordAll(Begin(), ops).m, c, cells)|
              && NearestCell(chain, Nest(RecordAll(Begin(), ops).m, c, cells), name) == Some(m.closures[c].upvalues[j])
              && (m.frames != [] && m.frames[|m.frames| - 1].closure == c ==>
                    Execute(m, GetUpvalue(j)) == PushValue(m, ReadUpvalue(m, m.closures[c].upvalues[j])))
  {
    hide ListOk, WellBorn, DisciplinedRun, Run, ResolveUpvalue, HasRoom, NearestCell, RecordAll;
    EveryClosureIsBuilt(ops, c, cells, final);
    var r := RecordAll(Begin(), ops).m;
    ResolvedUpvalueIsNearestCell(chain, name, final, Nest(r, c, cells));
  }
}
