/** What the compiler emits where a scope ends (src/compiler.c): OP_CLOSE_UPVALUE for a local that is marked as captured,
    OP_POP for another. The marks are set while inner functions are compiled, the captures are made when their closures
    are; this module joins the two. */
module Scopes {
  import opened Upvalues
  import opened Resolution

  /** end_scope on locals with these marks, the last local first. */
  function ExitOps(marks: seq<bool>): (ops: seq<Op>)
    ensures |ops| == |marks|
  {
    if marks == [] then []
    else [if marks[|marks| - 1] then CloseUpvalue else Pop] + ExitOps(marks[..|marks| - 1])
  }

  /** Of the slots from `base` on, only those with a mark are captured. */
  ghost predicate Covered(m: Machine, base: nat, marks: seq<bool>) {
    forall i :: 0 <= i < |marks| && Captured(m, base + i) ==> marks[i]
  }

  /** The machine after the locals from `base` on are gone: their upvalues have taken their values along. */
  ghost predicate Exited(m: Machine, m': Machine, base: nat) {
    && base <= |m.stack| && m'.stack == m.stack[..base] && m'.frames == m.frames && m'.closures == m.closures
    && |m'.upvalues| == |m.upvalues| && ListOk(m')
    && forall id: nat :: id < |m.upvalues| ==>
         m'.upvalues[id] == if base <= SlotOf(m.upvalues, id) < |m.stack| then Closed(m.stack[SlotOf(m.upvalues, id)])
                            else m.upvalues[id]
  }

  /** The code at the end of a scope drops no captured local if and only if every captured local is marked; then it
      drops exactly the locals of the scope and every closure keeps their values. */
  lemma {:induction false} ExitIff(m: Machine, base: nat, marks: seq<bool>)
    requires ListOk(m) && m.frames != [] && |m.stack| == base + |marks|
    ensures DisciplinedRun(m, ExitOps(marks)) <==> Covered(m, base, marks)
    ensures Covered(m, base, marks) ==> Run(m, ExitOps(marks)).Go? && Exited(m, Run(m, ExitOps(marks)).m, base)
    decreases |marks|
  {
    hide Execute, Captured, ListOk;
    if marks == [] {
      assert m.stack[..base] == m.stack;
      NothingAbove(m);
    } else {
      var n := |marks| - 1;
      var op := ExitOps(marks)[0];
      if marks[n] || !Captured(m, base + n) {
        OneLess(m, op);
        var m' := Execute(m, op).m;
        ExitIff(m', base, marks[..n]);
        CoveredStep(m, m', base, marks);
        NothingAbove(m);
        if Covered(m, base, marks) { ExitedStep(m, m', Run(m', ExitOps(marks[..n])).m, base); }
      }
    }
  }

  lemma NothingAbove(m: Machine)
    requires ListOk(m)
    ensures forall id: nat :: SlotOf(m.upvalues, id) < |m.stack|
  {
    forall id: nat ensures SlotOf(m.upvalues, id) < |m.stack| {
      if SlotOf(m.upvalues, id) >= 0 { var i := IndexOf(m.open, id); }
    }
  }

  /** One local is dropped. */
  lemma OneLess(m: Machine, op: Op)
    requires ListOk(m) && m.frames != [] && m.stack != []
    requires op == CloseUpvalue || (op == Pop && !Captured(m, |m.stack| - 1))
    ensures Execute(m, op).Go? && Exited(m, Execute(m, op).m, |m.stack| - 1)
    ensures forall slot: nat :: slot < |m.stack| - 1 ==> (Captured(Execute(m, op).m, slot) <==> Captured(m, slot))
  {
    hide Execute, Exited, ListOk, Captured;
    if op == CloseUpvalue { OneClosed(m); } else { OnePopped(m); }
  }

  lemma OneClosed(m: Machine)
    requires ListOk(m) && m.frames != [] && m.stack != []
    ensures Execute(m, CloseUpvalue).Go? && Exited(m, Execute(m, CloseUpvalue).m, |m.stack| - 1)
    ensures forall slot: nat :: slot < |m.stack| - 1 ==> (Captured(Execute(m, CloseUpvalue).m, slot) <==> Captured(m, slot))
  {
    hide ListOk, Captured, CloseFrom, SlotOf;
    var last := |m.stack| - 1;
    NothingAbove(m);
    CloseMeaning(m, last);
    CloseKeepsList(m, last);
    SameCaptures(m, Execute(m, CloseUpvalue).m, last);
  }

  lemma OnePopped(m: Machine)
    requires ListOk(m) && m.frames != [] && m.stack != [] && !Captured(m, |m.stack| - 1)
    ensures Execute(m, Pop).Go? && Exited(m, Execute(m, Pop).m, |m.stack| - 1)
    ensures forall slot: nat :: slot < |m.stack| - 1 ==> (Captured(Execute(m, Pop).m, slot) <==> Captured(m, slot))
  {
    hide ListOk;
    NothingAbove(m);
    PopKeepsListIff(m);
    forall id: nat ensures SlotOf(m.upvalues, id) != |m.stack| - 1 { }
  }

  lemma CloseKeepsList(m: Machine, last: nat)
    requires ListOk(m) && m.frames != [] && |m.stack| == last + 1
    ensures ListOk(Execute(m, CloseUpvalue).m)
  {
    hide ListOk;
    StepKeepsList(m, CloseUpvalue);
  }

  lemma SameCaptures(m: Machine, m': Machine, last: nat)
    requires |m'.upvalues| == |m.upvalues| && |m.stack| == last + 1
    requires forall id: nat :: id < |m.upvalues| ==>
               m'.upvalues[id] == if SlotOf(m.upvalues, id) >= last then Closed(m.stack[last]) else m.upvalues[id]
    ensures forall slot: nat :: slot < last ==> (Captured(m', slot) <==> Captured(m, slot))
  {
    forall slot: nat | slot < last ensures Captured(m', slot) <==> Captured(m, slot) {
      if Captured(m, slot) {
        var id: nat :| SlotOf(m.upvalues, id) == slot;
        assert SlotOf(m'.upvalues, id) == slot;
      }
      if Captured(m', slot) {
        var id: nat :| SlotOf(m'.upvalues, id) == slot;
        assert SlotOf(m.upvalues, id) == slot;
      }
    }
  }

  lemma CoveredStep(m: Machine, m': Machine, base: nat, marks: seq<bool>)
    requires marks != [] && (marks[|marks| - 1] || !Captured(m, base + |marks| - 1))
    requires forall slot: nat :: slot < base + |marks| - 1 ==> (Captured(m', slot) <==> Captured(m, slot))
    ensures Covered(m, base, marks) <==> Covered(m', base, marks[..|marks| - 1])
  {
    hide Captured;
    var n := |marks| - 1;
    forall i | 0 <= i < n ensures marks[..n][i] == marks[i] && (Captured(m', base + i) <==> Captured(m, base + i)) { }
    if Covered(m', base, marks[..n]) {
      forall i | 0 <= i < |marks| && Captured(m, base + i) ensures marks[i] {
        if i < n { assert Captured(m', base + i); }
      }
    }
    if Covered(m, base, marks) {
      forall i | 0 <= i < n && Captured(m', base + i) ensures marks[..n][i] {
        assert Captured(m, base + i);
      }
    }
  }

  lemma ExitedStep(m: Machine, m1: Machine, m2: Machine, base: nat)
    requires |m.stack| > base && Exited(m, m1, |m.stack| - 1) && Exited(m1, m2, base)
    requires forall id: nat :: SlotOf(m.upvalues, id) < |m.stack|
    ensures Exited(m, m2, base)
  {
    hide ListOk;
    forall id: nat | id < |m.upvalues|
      ensures m2.upvalues[id] == if base <= SlotOf(m.upvalues, id) < |m.stack| then Closed(m.stack[SlotOf(m.upvalues, id)])
                                 else m.upvalues[id]
    {
      assert SlotOf(m.upvalues, id) < |m.stack|;
    }
  }

  // ---- Who captures a slot ----

  /** Among the slots from `base` on, a closure made in a frame at `frame` captures marked ones only. */
  predicate CapturesMarked(frame: nat, ds: seq<Descriptor>, base: nat, marks: seq<bool>) {
    forall d :: d in ds && d.isLocal && base <= frame + d.index < base + |marks| ==> marks[frame + d.index - base]
  }

  /** So does every closure made during a run, in this frame or in those of the functions it calls. */
  ghost predicate RunCapturesMarked(m: Machine, ops: seq<Op>, base: nat, marks: seq<bool>)
    decreases |ops|
  {
    ops == [] || m.frames == [] ||
    ((ops[0].MakeClosure? ==> CapturesMarked(m.frames[|m.frames| - 1].base, ops[0].descriptors, base, marks)) &&
     match Execute(m, ops[0])
     case Stop => true
     case Go(m') => RunCapturesMarked(m', ops[1..], base, marks))
  }

  ghost predicate NewCapture(m: Machine, op: Op, slot: nat) {
    op.MakeClosure? && m.frames != [] &&
    var frame := m.frames[|m.frames| - 1].base;
    frame <= slot && Descriptor(true, slot - frame) in op.descriptors
  }

  lemma {:induction false} FillCaptures(m: Machine, f: Frame, ds: seq<Descriptor>, slot: nat)
    requires ListOk(m) && AllFillOk(|m.stack|, m.closures, f, ds)
    requires Captured(FillAll(m, f, ds).0, slot)
    ensures Captured(m, slot) || (f.base <= slot && Descriptor(true, slot - f.base) in ds)
    decreases |ds|
  {
    hide ListOk, Capture;
    if ds != [] {
      var d := ds[0];
      assert d in ds;
      if d.isLocal { CaptureMeaning(m, f.base + d.index); }
      var m1 := Fill(m, f, d).0;
      if !Captured(m1, slot) {
        FillCaptures(m1, f, ds[1..], slot);
      } else if !Captured(m, slot) {
        OnlyNew(m, m1, f.base + d.index, slot);
        assert d == Descriptor(true, slot - f.base);
      }
    }
  }

  lemma OnlyNew(m: Machine, m1: Machine, captured: nat, slot: nat)
    requires m1.upvalues == m.upvalues || m1.upvalues == m.upvalues + [Open(captured)]
    requires Captured(m1, slot) && !Captured(m, slot)
    ensures slot == captured && m1 != m
  {
    var id: nat :| SlotOf(m1.upvalues, id) == slot;
    assert SlotOf(m.upvalues, id) != slot;
  }

  /** A step captures no slot but those that its closure names. */
  lemma StepCaptures(m: Machine, op: Op, slot: nat)
    requires ListOk(m) && Execute(m, op).Go? && Captured(Execute(m, op).m, slot)
    ensures Captured(m, slot) || NewCapture(m, op, slot)
  {
    hide ListOk, FillAll, CloseFrom;
    var f := m.frames[|m.frames| - 1];
    if op.MakeClosure? {
      var m1 := m.(stack := m.stack + [Closure(|m.closures|)]);
      PushKeepsList(m, Closure(|m.closures|));
      assert Captured(FillAll(m1, f, op.descriptors).0, slot) by { Recaptured(Execute(m, op).m, FillAll(m1, f, op.descriptors).0, slot); }
      FillCaptures(m1, f, op.descriptors, slot);
      if Captured(m1, slot) { Recaptured(m1, m, slot); }
    } else if op.CloseUpvalue? || op.Return? {
      var last := if op.Return? then f.base else |m.stack| - 1;
      CloseMeaning(m, last);
      assert Execute(m, op).m.upvalues == CloseFrom(m, last).upvalues;
      StillOpen(m, Execute(m, op).m, slot);
    } else {
      Recaptured(Execute(m, op).m, m, slot);
    }
  }

  lemma Recaptured(m: Machine, m': Machine, slot: nat)
    requires Captured(m, slot) && |m.upvalues| == |m'.upvalues|
    requires forall id :: 0 <= id < |m.upvalues| ==> SlotOf(m.upvalues, id) == SlotOf(m'.upvalues, id)
    ensures Captured(m', slot)
  {
    var id: nat :| SlotOf(m.upvalues, id) == slot;
    assert SlotOf(m'.upvalues, id) == slot;
  }

  lemma StillOpen(m: Machine, m': Machine, slot: nat)
    requires |m'.upvalues| == |m.upvalues| && Captured(m', slot)
    requires forall id: nat :: id < |m.upvalues| ==> m'.upvalues[id].Closed? || m'.upvalues[id] == m.upvalues[id]
    ensures Captured(m, slot)
  {
    var id: nat :| SlotOf(m'.upvalues, id) == slot;
    assert SlotOf(m.upvalues, id) == slot;
  }

  // ---- A scope ----

  /** No slot from the top of the stack on is captured when a scope starts; after any run of its body whose closures
      capture marked locals only, the code at its end is disciplined and the locals leave as cells. */
  lemma ScopeIsDisciplined(m: Machine, ops: seq<Op>, marks: seq<bool>)
    requires ListOk(m) && DisciplinedRun(m, ops) && RunCapturesMarked(m, ops, |m.stack|, marks)
    requires Run(m, ops).Go? && Run(m, ops).m.frames != [] && |Run(m, ops).m.stack| == |m.stack| + |marks|
    ensures DisciplinedRun(m, ops + ExitOps(marks))
    ensures Run(m, ops + ExitOps(marks)).Go?
    ensures Exited(Run(m, ops).m, Run(m, ops + ExitOps(marks)).m, |m.stack|)
  {
    hide ListOk, Execute, Captured, DisciplinedRun, RunCapturesMarked;
    NothingAbove(m);
    forall slot: nat | slot >= |m.stack| ensures !Captured(m, slot) { NotCaptured(m, slot); }
    BodyCaptures(m, ops, |m.stack|, marks);
    ExitIff(Run(m, ops).m, |m.stack|, marks);
    RunsJoin(m, ops, ExitOps(marks));
  }

  lemma NotCaptured(m: Machine, slot: nat)
    requires forall id: nat :: SlotOf(m.upvalues, id) < |m.stack|
    requires slot >= |m.stack|
    ensures !Captured(m, slot)
  {
  }

  lemma {:induction false} BodyCaptures(m: Machine, ops: seq<Op>, base: nat, marks: seq<bool>)
    requires ListOk(m) && DisciplinedRun(m, ops) && RunCapturesMarked(m, ops, base, marks)
    requires Run(m, ops).Go? && Covered(m, base, marks)
    ensures ListOk(Run(m, ops).m) && Covered(Run(m, ops).m, base, marks)
    decreases |ops|
  {
    hide ListOk, Captured, Execute, Disciplined;
    if ops != [] {
      var m' := Execute(m, ops[0]).m;
      StepKeepsList(m, ops[0]);
      StepCovered(m, ops[0], base, marks);
      BodyCaptures(m', ops[1..], base, marks);
    }
  }

  lemma StepCovered(m: Machine, op: Op, base: nat, marks: seq<bool>)
    requires ListOk(m) && Execute(m, op).Go? && Covered(m, base, marks)
    requires m.frames != [] && op.MakeClosure? ==> CapturesMarked(m.frames[|m.frames| - 1].base, op.descriptors, base, marks)
    ensures m.frames != [] && Covered(Execute(m, op).m, base, marks)
  {
    hide ListOk, Captured;
    forall i | 0 <= i < |marks| && Captured(Execute(m, op).m, base + i) ensures marks[i] {
      StepCaptures(m, op, base + i);
    }
  }

  lemma {:induction false} RunsJoin(m: Machine, a: seq<Op>, b: seq<Op>)
    requires Run(m, a).Go?
    ensures Run(m, a + b) == Run(Run(m, a).m, b)
    ensures DisciplinedRun(m, a + b) <==> DisciplinedRun(m, a) && DisciplinedRun(Run(m, a).m, b)
    decreases |a|
  {
    hide Execute, Disciplined;
    if a == [] {
      assert a + b == b;
    } else {
      assert (a + b)[1..] == a[1..] + b;
      RunsJoin(Execute(m, a[0]).m, a[1..], b);
    }
  }

  // ---- The marks of the compiler ----

  /** Every local that a descriptor of an inner function names is marked. */
  ghost predicate MarksCover(fn: Fn, outer: Fn) {
    fn.count <= |fn.table| &&
    forall j :: 0 <= j < fn.count && fn.table[j].isLocal ==>
      fn.table[j].index < |outer.locals| && outer.locals[fn.table[j].index].captured
  }

  ghost predicate AllMarksCover(chain: seq<Fn>) {
    forall k :: 0 <= k < |chain| - 1 ==> MarksCover(chain[k], chain[k + 1])
  }

  lemma AddKeepsMarks(fn: Fn, d: Descriptor, outer: Fn)
    requires FnOk(fn) && MarksCover(fn, outer)
    requires d.isLocal ==> d.index < |outer.locals| && outer.locals[d.index].captured
    ensures MarksCover(AddUpvalue(fn, d).0, outer)
  {
  }

  /** Locals are only ever marked. */
  lemma MoreMarks(fn: Fn, outer: Fn, i: nat)
    requires MarksCover(fn, outer) && i < |outer.locals|
    ensures MarksCover(fn, outer.(locals := outer.locals[i := outer.locals[i].(captured := true)]))
  {
  }

  /** Resolving a name keeps every captured local marked, at every level of the nest, room or no room. */
  lemma {:induction false} ResolveKeepsMarks(chain: seq<Fn>, name: string)
    requires chain != [] && ChainOk(chain) && AllMarksCover(chain)
    ensures AllMarksCover(ResolveUpvalue(chain, name).chain)
    ensures ResolveUpvalue(chain, name).chain[0].locals == chain[0].locals
    decreases |chain|
  {
    hide MarksCover, FnOk;
    if |chain| > 1 {
      var r := ResolveUpvalue(chain, name);
      var local := ResolveLocal(chain[1].locals, name);
      if local != -1 {
        var d := Descriptor(true, local);
        MoreMarks(chain[0], chain[1], local);
        AddKeepsMarks(chain[0], d, r.chain[1]);
        OuterMarks(chain[1], r.chain[1]);
        forall k | 0 <= k < |chain| - 1 ensures MarksCover(r.chain[k], r.chain[k + 1]) {
          if k > 0 { assert MarksCover(chain[k], chain[k + 1]); }
        }
      } else {
        var inner := ResolveUpvalue(chain[1..], name);
        assert AllMarksCover(chain[1..]);
        ResolveKeepsMarks(chain[1..], name);
        SameLocals(chain[0], chain[1], inner.chain[0]);
        if inner.index != -1 { AddKeepsMarks(chain[0], Descriptor(false, inner.index), inner.chain[0]); }
        assert r.chain[1..] == inner.chain;
        forall k | 0 <= k < |chain| - 1 ensures MarksCover(r.chain[k], r.chain[k + 1]) {
          if k > 0 { assert MarksCover(inner.chain[k - 1], inner.chain[k]); }
        }
      }
    }
  }

  lemma OuterMarks(fn: Fn, fn': Fn)
    requires fn'.table == fn.table && fn'.count == fn.count
    ensures forall outer :: MarksCover(fn, outer) ==> MarksCover(fn', outer)
  {
  }

  lemma SameLocals(fn: Fn, outer: Fn, outer': Fn)
    requires MarksCover(fn, outer) && outer'.locals == outer.locals
    ensures MarksCover(fn, outer')
  {
  }

  /** The marks of the locals from `from` on. */
  function Marks(locals: seq<Local>, from: nat): (marks: seq<bool>)
    requires from <= |locals|
    ensures |marks| == |locals| - from && forall i :: 0 <= i < |marks| ==> marks[i] == locals[from + i].captured
    decreases |locals| - from
  {
    if from == |locals| then [] else [locals[from].captured] + Marks(locals, from + 1)
  }

  /** A closure made from the descriptors of an inner function captures marked locals only: so the run of a scope meets
      the condition of ScopeIsDisciplined with the marks the compiler has at its end. */
  lemma ClosureCapturesMarked(fn: Fn, outer: Fn, frame: nat, from: nat)
    requires MarksCover(fn, outer) && from <= |outer.locals|
    ensures CapturesMarked(frame, fn.table[..fn.count], frame + from, Marks(outer.locals, from))
  {
    var ds, marks := fn.table[..fn.count], Marks(outer.locals, from);
    forall d | d in ds && d.isLocal && frame + from <= frame + d.index < frame + from + |marks|
      ensures marks[frame + d.index - (frame + from)]
    {
      var j :| 0 <= j < |ds| && ds[j] == d;
      assert fn.table[j] == d;
      assert marks[d.index - from] == outer.locals[from + (d.index - from)].captured;
    }
  }
}
