/** What calls and captured variables do (src/vm.c), instruction by instruction on the machine with open upvalues:
    where a called closure finds itself and its arguments, what a return leaves, and a variable that two closures
    share, while it is on the stack and after it has left it. */
module UpvalueLaws {
  import opened Upvalues

  lemma Next(m: Machine, op: Op, ops: seq<Op>, next: Machine)
    requires Execute(m, op) == Go(next)
    ensures Run(m, [op] + ops) == Run(next, ops)
  {
    hide Execute;
    assert ([op] + ops)[0] == op && ([op] + ops)[1..] == ops;
  }

  // ---- Calls ----

  /** A closure stands below its arguments, it takes that many, and there is room for a frame. */
  predicate Callable(m: Machine, below: seq<Value>, id: nat, args: seq<Value>) {
    && m.frames != [] && |m.frames| < 256 && m.stack == below + [Closure(id)] + args
    && id < |m.closures| && m.closures[id].arity == |args|
  }

  /** Local 0 of a called closure is the closure, and local i its argument i. */
  lemma Locals(m: Machine, below: seq<Value>, id: nat, args: seq<Value>, i: nat)
    requires Callable(m, below, id, args) && i <= |args| && |m.stack| < 65536
    ensures var r := Run(m, [Call(|args|), GetLocal(i)]);
            r.Go? && r.m.stack == m.stack + [if i == 0 then Closure(id) else args[i - 1]]
  {
    var base := |below|;
    var called := m.(frames := m.frames + [Frame(base, id)]);
    assert m.stack[base] == Closure(id) && (i > 0 ==> m.stack[base + i] == args[i - 1]);
    assert Execute(m, Call(|args|)) == Go(called);
    var next := called.(stack := m.stack + [m.stack[base + i]]);
    assert Execute(called, GetLocal(i)) == Go(next);
    assert [Call(|args|), GetLocal(i)] == [Call(|args|)] + [GetLocal(i)] && [GetLocal(i)] == [GetLocal(i)] + [];
    Next(m, Call(|args|), [GetLocal(i)], called);
    Next(called, GetLocal(i), [], next);
  }

  /** A call of what is no closure, or with another number of arguments, stops with an error. */
  lemma BadCalls(m: Machine, argc: nat)
    requires m.frames != [] && |m.stack| > argc
    ensures var callee := m.stack[|m.stack| - argc - 1];
            Execute(m, Call(argc)).Go? <==>
            && callee.Closure? && callee.id < |m.closures| && m.closures[callee.id].arity == argc && |m.frames| < 256
  {
  }

  /** The stack has room for 65536 values. */
  lemma PushIff(m: Machine, v: Value)
    requires m.frames != []
    ensures Execute(m, Push(v)) == if |m.stack| < 65536 then Go(m.(stack := m.stack + [v])) else Stop
  {
  }

  /** A return replaces the closure and its arguments by the result. */
  lemma Returned(m: Machine, below: seq<Value>, id: nat, args: seq<Value>, v: Value)
    requires Callable(m, below, id, args) && |m.stack| < 65536
    ensures var r := Run(m, [Call(|args|), Push(v), Return]);
            r.Go? && r.m.stack == below + [v] && r.m.frames == m.frames
  {
    hide CloseFrom;
    var base := |below|;
    var called := m.(frames := m.frames + [Frame(base, id)]);
    assert m.stack[base] == Closure(id);
    assert Execute(m, Call(|args|)) == Go(called);
    var pushed := called.(stack := m.stack + [v]);
    assert Execute(called, Push(v)) == Go(pushed);
    var closed := CloseFrom(pushed, base);
    var next := closed.(stack := below + [v], frames := m.frames);
    assert pushed.stack[..base] == below && pushed.frames[..|pushed.frames| - 1] == m.frames;
    assert Execute(pushed, Return) == Go(next);
    assert [Call(|args|), Push(v), Return] == [Call(|args|)] + [Push(v), Return] && [Push(v), Return] == [Push(v)] + [Return];
    Next(m, Call(|args|), [Push(v), Return], called);
    Next(called, Push(v), [Return], pushed);
    assert [Return] == [Return] + [];
    Next(pushed, Return, [], next);
  }

  // ---- Two closures and their variable ----

  /** The script, in whose first variable is a. */
  function Start(a: Value): Machine {
    Machine([Closure(0), a], [], [], [Frame(0, 0)], [ClosureObject(0, [])])
  }

  const CAPTURE := MakeClosure(0, [Descriptor(true, 1)])

  /** Two closures that have captured the variable. */
  function Shared(a: Value): Machine {
    Machine([Closure(0), a, Closure(1), Closure(2)], [Open(1)], [0], [Frame(0, 0)],
            [ClosureObject(0, []), ClosureObject(0, [0]), ClosureObject(0, [0])])
  }

  lemma BothCapture(a: Value)
    ensures Run(Start(a), [CAPTURE, CAPTURE]) == Go(Shared(a))
  {
    var m := Start(a);
    var one := Machine([Closure(0), a, Closure(1)], [Open(1)], [0], [Frame(0, 0)], [ClosureObject(0, []), ClosureObject(0, [0])]);
    FirstCapture(a);
    SecondCapture(a);
    assert [CAPTURE, CAPTURE] == [CAPTURE] + [CAPTURE] && [CAPTURE] == [CAPTURE] + [];
    Next(m, CAPTURE, [CAPTURE], one);
    Next(one, CAPTURE, [], Shared(a));
  }

  lemma FirstCapture(a: Value)
    ensures Execute(Start(a), CAPTURE) ==
            Go(Machine([Closure(0), a, Closure(1)], [Open(1)], [0], [Frame(0, 0)], [ClosureObject(0, []), ClosureObject(0, [0])]))
  {
    var ds := [Descriptor(true, 1)];
    var m := Start(a).(stack := [Closure(0), a] + [Closure(1)]);
    var captured := m.(upvalues := [Open(1)], open := [0]);
    assert m.open == [] && m.open[..0] + [0] + m.open[0..] == [0] && m.upvalues + [Open(1)] == [Open(1)];
    assert Capture(m, 1) == (captured, 0);
    OneFilled(m, Frame(0, 0), Descriptor(true, 1), captured, 0);
    assert m.stack == [Closure(0), a, Closure(1)];
    assert [ClosureObject(0, [])] + [ClosureObject(0, [0])] == [ClosureObject(0, []), ClosureObject(0, [0])];
  }

  lemma OneFilled(m: Machine, f: Frame, d: Descriptor, next: Machine, id: nat)
    requires FillOk(|m.stack|, m.closures, f, d) && Fill(m, f, d) == (next, id)
    ensures FillAll(m, f, [d]) == (next, [id])
  {
    hide Fill;
    assert [d][1..] == [] && FillAll(next, f, []) == (next, []);
    assert [id] + [] == [id];
  }

  lemma SecondCapture(a: Value)
    ensures Execute(Machine([Closure(0), a, Closure(1)], [Open(1)], [0], [Frame(0, 0)],
                            [ClosureObject(0, []), ClosureObject(0, [0])]), CAPTURE) == Go(Shared(a))
  {
    var ds := [Descriptor(true, 1)];
    var m := Machine([Closure(0), a, Closure(1)] + [Closure(2)], [Open(1)], [0], [Frame(0, 0)],
                     [ClosureObject(0, []), ClosureObject(0, [0])]);
    assert m.open[0] == 0 && Position(m.upvalues, m.open, 1) == 0;
    assert Capture(m, 1) == (m, 0);
    OneFilled(m, Frame(0, 0), Descriptor(true, 1), m, 0);
    assert m.stack == Shared(a).stack;
    assert m.closures + [ClosureObject(0, [0])] == Shared(a).closures;
  }

  /** While closure 1 runs, with b pushed last: writing its upvalue writes the variable on the stack. */
  lemma WriteOpen(a: Value, b: Value)
    ensures var m := Shared(a).(stack := Shared(a).stack + [Closure(1), b], frames := [Frame(0, 0), Frame(4, 1)]);
            Execute(m, SetUpvalue(0)) == Go(m.(stack := [Closure(0), b, Closure(1), Closure(2), Closure(1), b]))
  {
    var m := Shared(a).(stack := Shared(a).stack + [Closure(1), b], frames := [Frame(0, 0), Frame(4, 1)]);
    assert m.stack == [Closure(0), a, Closure(1), Closure(2), Closure(1), b];
    assert m.frames[1] == Frame(4, 1) && m.closures[1].upvalues[0] == 0 && m.upvalues[0] == Open(1) && m.stack[5] == b;
    assert WriteUpvalue(m, 0, b) == m.(stack := m.stack[1 := b]);
    assert m.stack[1 := b] == [Closure(0), b, Closure(1), Closure(2), Closure(1), b];
  }

  /** And closure 2 then reads b. */
  lemma ReadOpen(b: Value)
    ensures var m := Shared(b).(stack := Shared(b).stack + [Closure(2)], frames := [Frame(0, 0), Frame(4, 2)]);
            Execute(m, GetUpvalue(0)) == Go(m.(stack := m.stack + [b]))
  {
    var m := Shared(b).(stack := Shared(b).stack + [Closure(2)], frames := [Frame(0, 0), Frame(4, 2)]);
    assert m.stack == [Closure(0), b, Closure(1), Closure(2), Closure(2)];
    assert m.frames[1] == Frame(4, 2) && m.closures[2].upvalues[0] == 0 && m.upvalues[0] == Open(1);
    assert ReadUpvalue(m, 0) == b;
  }

  /** When the variable leaves the stack, closing takes its value along; both closures then have the same closed one. */
  lemma CloseShared(a: Value)
    ensures Execute(Shared(a).(stack := [Closure(0), a]), CloseUpvalue)
         == Go(Shared(a).(stack := [Closure(0)], upvalues := [Closed(a)], open := []))
  {
    var m := Shared(a).(stack := [Closure(0), a]);
    assert m.open[1..] == [] && m.upvalues[0 := Closed(a)] == [Closed(a)] && m.stack[..1] == [Closure(0)];
    assert CloseFrom(m.(upvalues := [Closed(a)], open := []), 1) == m.(upvalues := [Closed(a)], open := []);
    assert CloseFrom(m, 1) == m.(upvalues := [Closed(a)], open := []);
  }

  /** Writing through one closure and reading through the other, when the variable has left the stack. */
  lemma SharedClosed(a: Value, b: Value)
    ensures var m := Shared(a).(stack := [Closure(0), Closure(1), b], upvalues := [Closed(a)], open := [],
                                frames := [Frame(0, 0), Frame(1, 1)]);
            Execute(m, SetUpvalue(0)) == Go(m.(upvalues := [Closed(b)]))
    ensures var n := Shared(a).(stack := [Closure(0), Closure(2)], upvalues := [Closed(b)], open := [],
                                frames := [Frame(0, 0), Frame(1, 2)]);
            Execute(n, GetUpvalue(0)) == Go(n.(stack := [Closure(0), Closure(2), b]))
  {
    assert [Closed(a)][0 := Closed(b)] == [Closed(b)];
    assert [Closure(0), Closure(2)] + [b] == [Closure(0), Closure(2), b];
  }
}
