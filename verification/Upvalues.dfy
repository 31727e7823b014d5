/** Captured variables at run time (src/vm.c): while a variable is on the stack its closures share an
    open upvalue that points at the slot; when the slot goes away the upvalue takes the value along.

    This module has the machine as a value, the simple semantics in which a captured variable is a
    heap cell from the start, and the proof that the first refines the second over every run. The
    linked list itself is in module OpenUpvalues. */
module Upvalues {

  const STACK_MAX := 65536
  const FRAMES_MAX := 256

  /** A value is plain data or a reference to a closure object. */
  datatype Value = Data(n: int) | Closure(id: nat)

  /** How OP_CLOSURE fills one upvalue of a new closure: from a slot of the running frame, or from an
      upvalue of the running closure. */
  datatype Descriptor = Descriptor(isLocal: bool, index: nat)

  datatype ClosureObject = ClosureObject(arity: nat, upvalues: seq<nat>)

  /** `base` is the slot of the called closure, the first of the frame. */
  datatype Frame = Frame(base: nat, closure: nat)

  datatype Op =
    | Push(v: Value)
    | Pop
    | CloseUpvalue
    | GetLocal(slot: nat)
    | SetLocal(slot: nat)
    | GetUpvalue(index: nat)
    | SetUpvalue(index: nat)
    | MakeClosure(arity: nat, descriptors: seq<Descriptor>)
    | Call(argc: nat)
    | Return

  /** A step gives the next state, or stops: a run-time error, or an operand that is out of range. */
  datatype Step<+M> = Go(m: M) | Stop

  // ---- The machine with open upvalues ----

  datatype Upvalue = Open(slot: nat) | Closed(v: Value)

  /** Upvalues are numbered in the order of their creation; `open` is the list of the open ones. */
  datatype Machine = Machine(stack: seq<Value>, upvalues: seq<Upvalue>, open: seq<nat>, frames: seq<Frame>,
                             closures: seq<ClosureObject>)

  /** The slot an upvalue points at, or -1 for one that is not open. */
  function SlotOf(upvalues: seq<Upvalue>, id: nat): int {
    if id < |upvalues| && upvalues[id].Open? then upvalues[id].slot else -1
  }

  /** Where capture_upvalue stops walking: the first entry that is not above `slot`. */
  function Position(upvalues: seq<Upvalue>, open: seq<nat>, slot: nat): (i: nat)
    ensures i <= |open|
  {
    if open == [] || SlotOf(upvalues, open[0]) <= slot then 0 else 1 + Position(upvalues, open[1..], slot)
  }

  /** The upvalue of `slot`: the open one if there is one, otherwise a new one put in its place. */
  function Capture(m: Machine, slot: nat): (r: (Machine, nat))
    ensures r.0.stack == m.stack && r.0.closures == m.closures && r.0.frames == m.frames
  {
    var i := Position(m.upvalues, m.open, slot);
    if i < |m.open| && SlotOf(m.upvalues, m.open[i]) == slot then (m, m.open[i])
    else
      var id := |m.upvalues|;
      (m.(upvalues := m.upvalues + [Open(slot)], open := m.open[..i] + [id] + m.open[i..]), id)
  }

  function ReadSlot(stack: seq<Value>, slot: int): Value {
    if 0 <= slot < |stack| then stack[slot] else Data(0)
  }

  /** Closes from the head of the list down to the first upvalue below `last`. */
  function CloseFrom(m: Machine, last: nat): (r: Machine)
    ensures r.stack == m.stack && r.frames == m.frames && r.closures == m.closures && |r.upvalues| == |m.upvalues|
    decreases |m.open|
  {
    if m.open == [] || SlotOf(m.upvalues, m.open[0]) < last then m
    else
      var id := m.open[0];
      var v := ReadSlot(m.stack, SlotOf(m.upvalues, id));
      CloseFrom(m.(upvalues := if id < |m.upvalues| then m.upvalues[id := Closed(v)] else m.upvalues,
                   open := m.open[1..]), last)
  }

  function ReadUpvalue(m: Machine, id: nat): Value {
    if id >= |m.upvalues| then Data(0)
    else match m.upvalues[id]
      case Open(slot) => ReadSlot(m.stack, slot)
      case Closed(v) => v
  }

  function WriteUpvalue(m: Machine, id: nat, v: Value): Machine {
    if id >= |m.upvalues| then m
    else match m.upvalues[id]
      case Open(slot) => if slot < |m.stack| then m.(stack := m.stack[slot := v]) else m
      case Closed(_) => m.(upvalues := m.upvalues[id := Closed(v)])
  }

  /** The upvalue that one descriptor of a new closure stands for. */
  function Fill(m: Machine, f: Frame, d: Descriptor): (Machine, nat)
    requires FillOk(|m.stack|, m.closures, f, d)
  {
    if d.isLocal then Capture(m, f.base + d.index) else (m, m.closures[f.closure].upvalues[d.index])
  }

  /** The operands of a descriptor are in range. */
  predicate FillOk(height: nat, closures: seq<ClosureObject>, f: Frame, d: Descriptor) {
    if d.isLocal then f.base + d.index < height
    else f.closure < |closures| && d.index < |closures[f.closure].upvalues|
  }

  predicate AllFillOk(height: nat, closures: seq<ClosureObject>, f: Frame, ds: seq<Descriptor>) {
    forall d :: d in ds ==> FillOk(height, closures, f, d)
  }

  /** The loop of OP_CLOSURE over the descriptors. */
  function FillAll(m: Machine, f: Frame, ds: seq<Descriptor>): (r: (Machine, seq<nat>))
    requires AllFillOk(|m.stack|, m.closures, f, ds)
    ensures |r.1| == |ds| && r.0.stack == m.stack && r.0.closures == m.closures && r.0.frames == m.frames
    decreases |ds|
  {
    if ds == [] then (m, [])
    else
      var (m', id) := Fill(m, f, ds[0]);
      var (m'', ids) := FillAll(m', f, ds[1..]);
      (m'', [id] + ids)
  }

  function PushValue(m: Machine, v: Value): Step<Machine> {
    if |m.stack| >= STACK_MAX then Stop else Go(m.(stack := m.stack + [v]))
  }

  /** What OP_CALL checks before it opens a frame. */
  predicate CallOk(callee: Value, argc: nat, closures: seq<ClosureObject>, frames: seq<Frame>) {
    callee.Closure? && callee.id < |closures| && closures[callee.id].arity == argc && |frames| < FRAMES_MAX
  }

  function Execute(m: Machine, op: Op): Step<Machine> {
    if m.frames == [] then Stop
    else
      var n, f := |m.stack|, m.frames[|m.frames| - 1];
      match op
      case Push(v) => PushValue(m, v)
      case Pop => if n == 0 then Stop else Go(m.(stack := m.stack[..n - 1]))
      case CloseUpvalue =>
        if n == 0 then Stop
        else
          var m := CloseFrom(m, n - 1);
          Go(m.(stack := m.stack[..n - 1]))
      case GetLocal(slot) => if f.base + slot >= n then Stop else PushValue(m, m.stack[f.base + slot])
      case SetLocal(slot) =>
        if f.base + slot >= n then Stop else Go(m.(stack := m.stack[f.base + slot := m.stack[n - 1]]))
      case GetUpvalue(j) =>
        if f.closure >= |m.closures| || j >= |m.closures[f.closure].upvalues| then Stop
        else PushValue(m, ReadUpvalue(m, m.closures[f.closure].upvalues[j]))
      case SetUpvalue(j) =>
        if f.closure >= |m.closures| || j >= |m.closures[f.closure].upvalues| || n == 0 then Stop
        else Go(WriteUpvalue(m, m.closures[f.closure].upvalues[j], m.stack[n - 1]))
      case MakeClosure(arity, ds) =>
        // The closure object is on the stack before its upvalues are captured, so it can capture itself.
        if n >= STACK_MAX || !AllFillOk(n + 1, m.closures, f, ds) then Stop
        else
          var (m', ids) := FillAll(m.(stack := m.stack + [Closure(|m.closures|)]), f, ds);
          Go(m'.(closures := m'.closures + [ClosureObject(arity, ids)]))
      case Call(argc) =>
        if n < argc + 1 || !CallOk(m.stack[n - argc - 1], argc, m.closures, m.frames) then Stop
        else Go(m.(frames := m.frames + [Frame(n - argc - 1, m.stack[n - argc - 1].id)]))
      case Return =>
        if n == 0 || |m.frames| == 1 || f.base >= n then Stop
        else
          // Popping the result leaves it in memory, so the upvalues are closed over the whole stack.
          var m' := CloseFrom(m, f.base);
          PushValue(m'.(stack := m.stack[..f.base], frames := m.frames[..|m.frames| - 1]), m.stack[n - 1])
  }

  function Run(m: Machine, ops: seq<Op>): Step<Machine>
    decreases |ops|
  {
    if ops == [] then Go(m)
    else match Execute(m, ops[0])
      case Stop => Stop
      case Go(m) => Run(m, ops[1..])
  }

  // ---- The semantics with heap cells ----

  /** A captured variable's slot holds its cell from the first capture on. */
  datatype Slot = Plain(v: Value) | Boxed(cell: nat)

  datatype Cells = Cells(stack: seq<Slot>, heap: seq<Value>, frames: seq<Frame>, closures: seq<ClosureObject>)

  function SlotValue(heap: seq<Value>, s: Slot): Value {
    match s
    case Plain(v) => v
    case Boxed(cell) => if cell < |heap| then heap[cell] else Data(0)
  }

  /** The values on the stack. */
  function Values(c: Cells): (vs: seq<Value>)
    ensures |vs| == |c.stack|
  {
    seq(|c.stack|, i requires 0 <= i < |c.stack| => SlotValue(c.heap, c.stack[i]))
  }

  /** The cell of a slot, made when it is captured for the first time. */
  function Box(c: Cells, slot: nat): (r: (Cells, nat))
    requires slot < |c.stack|
    ensures |r.0.stack| == |c.stack| && r.0.closures == c.closures && r.0.frames == c.frames
  {
    match c.stack[slot]
    case Boxed(cell) => (c, cell)
    case Plain(v) => (c.(stack := c.stack[slot := Boxed(|c.heap|)], heap := c.heap + [v]), |c.heap|)
  }

  function WriteSlot(c: Cells, slot: nat, v: Value): Cells
    requires slot < |c.stack|
  {
    match c.stack[slot]
    case Plain(_) => c.(stack := c.stack[slot := Plain(v)])
    case Boxed(cell) => WriteCell(c, cell, v)
  }

  function WriteCell(c: Cells, cell: nat, v: Value): Cells {
    if cell < |c.heap| then c.(heap := c.heap[cell := v]) else c
  }

  function FillCell(c: Cells, f: Frame, d: Descriptor): (r: (Cells, nat))
    requires FillOk(|c.stack|, c.closures, f, d)
    ensures |r.0.stack| == |c.stack| && r.0.closures == c.closures && r.0.frames == c.frames
  {
    if d.isLocal then Box(c, f.base + d.index) else (c, c.closures[f.closure].upvalues[d.index])
  }

  function FillCells(c: Cells, f: Frame, ds: seq<Descriptor>): (r: (Cells, seq<nat>))
    requires AllFillOk(|c.stack|, c.closures, f, ds)
    ensures |r.1| == |ds| && |r.0.stack| == |c.stack| && r.0.closures == c.closures && r.0.frames == c.frames
    decreases |ds|
  {
    if ds == [] then (c, [])
    else
      var (c', id) := FillCell(c, f, ds[0]);
      var (c'', ids) := FillCells(c', f, ds[1..]);
      (c'', [id] + ids)
  }

  function PushPlain(c: Cells, v: Value): Step<Cells> {
    if |c.stack| >= STACK_MAX then Stop else Go(c.(stack := c.stack + [Plain(v)]))
  }

  /** Nothing is ever closed: popping a variable leaves its cell to the closures that have it. */
  function ExecuteCells(c: Cells, op: Op): Step<Cells> {
    if c.frames == [] then Stop
    else
      var n, f := |c.stack|, c.frames[|c.frames| - 1];
      match op
      case Push(v) => PushPlain(c, v)
      case Pop => if n == 0 then Stop else Go(c.(stack := c.stack[..n - 1]))
      case CloseUpvalue => if n == 0 then Stop else Go(c.(stack := c.stack[..n - 1]))
      case GetLocal(slot) =>
        if f.base + slot >= n then Stop else PushPlain(c, SlotValue(c.heap, c.stack[f.base + slot]))
      case SetLocal(slot) =>
        if f.base + slot >= n then Stop else Go(WriteSlot(c, f.base + slot, SlotValue(c.heap, c.stack[n - 1])))
      case GetUpvalue(j) =>
        if f.closure >= |c.closures| || j >= |c.closures[f.closure].upvalues| then Stop
        else PushPlain(c, SlotValue(c.heap, Boxed(c.closures[f.closure].upvalues[j])))
      case SetUpvalue(j) =>
        if f.closure >= |c.closures| || j >= |c.closures[f.closure].upvalues| || n == 0 then Stop
        else Go(WriteCell(c, c.closures[f.closure].upvalues[j], SlotValue(c.heap, c.stack[n - 1])))
      case MakeClosure(arity, ds) =>
        if n >= STACK_MAX || !AllFillOk(n + 1, c.closures, f, ds) then Stop
        else
          var (c', ids) := FillCells(c.(stack := c.stack + [Plain(Closure(|c.closures|))]), f, ds);
          Go(c'.(closures := c'.closures + [ClosureObject(arity, ids)]))
      case Call(argc) =>
        if n < argc + 1 || !CallOk(SlotValue(c.heap, c.stack[n - argc - 1]), argc, c.closures, c.frames) then Stop
        else Go(c.(frames := c.frames + [Frame(n - argc - 1, SlotValue(c.heap, c.stack[n - argc - 1]).id)]))
      case Return =>
        if n == 0 || |c.frames| == 1 || f.base >= n then Stop
        else
          PushPlain(c.(stack := c.stack[..f.base], frames := c.frames[..|c.frames| - 1]),
                    SlotValue(c.heap, c.stack[n - 1]))
  }

  function RunCells(c: Cells, ops: seq<Op>): Step<Cells>
    decreases |ops|
  {
    if ops == [] then Go(c)
    else match ExecuteCells(c, ops[0])
      case Stop => Stop
      case Go(c) => RunCells(c, ops[1..])
  }

  // ---- The open list ----

  /** The list is strictly descending by slot and holds exactly the open upvalues, all of live slots. */
  ghost predicate ListOk(m: Machine) {
    && (forall i :: 0 <= i < |m.open| ==> 0 <= SlotOf(m.upvalues, m.open[i]) < |m.stack|)
    && Descending(m.upvalues, m.open)
    && (forall id: nat :: SlotOf(m.upvalues, id) >= 0 ==> id in m.open)
  }

  ghost predicate Descending(upvalues: seq<Upvalue>, open: seq<nat>) {
    forall i, j :: 0 <= i < j < |open| ==> SlotOf(upvalues, open[i]) > SlotOf(upvalues, open[j])
  }

  /** A slot has at most one open upvalue, so all its closures share it. */
  lemma OneUpvaluePerSlot(m: Machine, a: nat, b: nat)
    requires ListOk(m) && SlotOf(m.upvalues, a) >= 0 && SlotOf(m.upvalues, a) == SlotOf(m.upvalues, b)
    ensures a == b
  {
    assert a in m.open && b in m.open;
    var i :| 0 <= i < |m.open| && m.open[i] == a;
    var j :| 0 <= j < |m.open| && m.open[j] == b;
    assert SlotOf(m.upvalues, m.open[i]) == SlotOf(m.upvalues, m.open[j]);
  }

  lemma {:induction false} PositionSplits(upvalues: seq<Upvalue>, open: seq<nat>, slot: nat)
    requires Descending(upvalues, open)
    ensures var i := Position(upvalues, open, slot);
            && (forall j :: 0 <= j < i ==> SlotOf(upvalues, open[j]) > slot)
            && (forall j :: i <= j < |open| ==> SlotOf(upvalues, open[j]) <= slot)
            && (forall j :: i < j < |open| ==> SlotOf(upvalues, open[j]) < slot)
  {
    if open != [] && SlotOf(upvalues, open[0]) > slot {
      assert forall j :: 0 <= j < |open| - 1 ==> open[1..][j] == open[j + 1];
      PositionSplits(upvalues, open[1..], slot);
      var i := Position(upvalues, open, slot);
      forall j | 0 <= j < i ensures SlotOf(upvalues, open[j]) > slot {
        if j > 0 { assert open[1..][j - 1] == open[j]; }
      }
      forall j | i <= j < |open| ensures SlotOf(upvalues, open[j]) <= slot && (i < j ==> SlotOf(upvalues, open[j]) < slot) {
        assert open[1..][j - 1] == open[j];
      }
    }
  }

  /** What capturing a slot does, whatever the list looked like: the list stays in order, the result
      is the open upvalue of the slot, nothing else changes, and only an uncaptured slot gets a new one. */
  lemma CaptureMeaning(m: Machine, slot: nat)
    requires ListOk(m) && slot < |m.stack|
    ensures var (m', id) := Capture(m, slot);
            && ListOk(m') && SlotOf(m'.upvalues, id) == slot && id < |m'.upvalues|
            && (if exists known: nat :: SlotOf(m.upvalues, known) == slot then m' == m
                else id == |m.upvalues| && m'.upvalues == m.upvalues + [Open(slot)] &&
                     m' == m.(upvalues := m'.upvalues, open := m'.open))
  {
    hide SlotOf, Descending;
    var i := Position(m.upvalues, m.open, slot);
    PositionSplits(m.upvalues, m.open, slot);
    if i < |m.open| && SlotOf(m.upvalues, m.open[i]) == slot {
      InRange(m.upvalues, m.open[i]);
    } else {
      forall known: nat ensures SlotOf(m.upvalues, known) != slot {
        if known in m.open {
          var j := IndexOf(m.open, known);
          assert SlotOf(m.upvalues, m.open[j]) != slot;
        }
      }
      Inserted(m, slot, i);
      SlotOfAppended(m.upvalues, slot, |m.upvalues|);
    }
  }

  lemma InRange(upvalues: seq<Upvalue>, id: nat)
    ensures SlotOf(upvalues, id) >= 0 ==> id < |upvalues|
  {
  }

  lemma Inserted(m: Machine, slot: nat, i: nat)
    requires ListOk(m) && slot < |m.stack| && i <= |m.open|
    requires forall j :: 0 <= j < i ==> SlotOf(m.upvalues, m.open[j]) > slot
    requires forall j :: i <= j < |m.open| ==> SlotOf(m.upvalues, m.open[j]) < slot
    ensures var id := |m.upvalues|;
            ListOk(m.(upvalues := m.upvalues + [Open(slot)], open := m.open[..i] + [id] + m.open[i..]))
  {
    hide SlotOf;
    var id := |m.upvalues|;
    var upvalues, open := m.upvalues + [Open(slot)], m.open[..i] + [id] + m.open[i..];
    forall a, b | 0 <= a < b < |open| ensures SlotOf(upvalues, open[a]) > SlotOf(upvalues, open[b]) {
      InsertedEntry(m, slot, i, a);
      InsertedEntry(m, slot, i, b);
    }
    forall a | 0 <= a < |open| ensures 0 <= SlotOf(upvalues, open[a]) < |m.stack| {
      InsertedEntry(m, slot, i, a);
    }
    forall known: nat | SlotOf(upvalues, known) >= 0 ensures known in open {
      SlotOfAppended(m.upvalues, slot, known);
      if known == id {
        assert open[i] == id;
      } else {
        var j := IndexOf(m.open, known);
        assert open[if j < i then j else j + 1] == known;
      }
    }
  }

  lemma InsertedEntry(m: Machine, slot: nat, i: nat, j: nat)
    requires ListOk(m) && i <= |m.open| && j <= |m.open|
    ensures var id := |m.upvalues|;
            var open := m.open[..i] + [id] + m.open[i..];
            SlotOf(m.upvalues + [Open(slot)], open[j]) ==
            if j < i then SlotOf(m.upvalues, m.open[j]) else if j == i then slot else SlotOf(m.upvalues, m.open[j - 1])
  {
    var open := m.open[..i] + [|m.upvalues|] + m.open[i..];
    SlotOfAppended(m.upvalues, slot, open[j]);
  }

  lemma SlotOfAppended(upvalues: seq<Upvalue>, slot: nat, id: nat)
    ensures SlotOf(upvalues + [Open(slot)], id) == if id == |upvalues| then slot else SlotOf(upvalues, id)
    ensures SlotOf(upvalues, id) >= 0 ==> id < |upvalues|
  {
  }

  lemma IndexOf(open: seq<nat>, id: nat) returns (i: nat)
    requires id in open
    ensures i < |open| && open[i] == id
  {
    i :| 0 <= i < |open| && open[i] == id;
  }

  /** Two captures of one slot give the same upvalue. */
  lemma CaptureTwice(m: Machine, slot: nat)
    requires ListOk(m) && slot < |m.stack|
    ensures var (m', id) := Capture(m, slot);
            Capture(m', slot) == (m', id)
  {
    hide Capture, ListOk;
    CaptureMeaning(m, slot);
    var (m', id) := Capture(m, slot);
    CaptureMeaning(m', slot);
    OneUpvaluePerSlot(m', id, Capture(m', slot).1);
  }

  /** close_upvalues(last) closes exactly the open upvalues at or above `last`, each with the value
      its slot holds, and leaves the list in order with exactly the others. */
  lemma {:induction false} CloseMeaning(m: Machine, last: nat)
    requires ListOk(m)
    ensures var m' := CloseFrom(m, last);
            && ListOk(m')
            && forall id: nat :: id < |m.upvalues| ==>
                 m'.upvalues[id] == if SlotOf(m.upvalues, id) >= last then Closed(m.stack[SlotOf(m.upvalues, id)])
                                    else m.upvalues[id]
    decreases |m.open|
  {
    if m.open == [] || SlotOf(m.upvalues, m.open[0]) < last {
      forall id: nat ensures SlotOf(m.upvalues, id) < last {
        if id in m.open {
          var j := IndexOf(m.open, id);
          assert j > 0 ==> SlotOf(m.upvalues, m.open[0]) > SlotOf(m.upvalues, m.open[j]);
        }
      }
    } else {
      var id := m.open[0];
      var v := m.stack[SlotOf(m.upvalues, id)];
      var next := m.(upvalues := m.upvalues[id := Closed(v)], open := m.open[1..]);
      HeadClosed(m, v);
      CloseMeaning(next, last);
    }
  }

  lemma HeadClosed(m: Machine, v: Value)
    requires ListOk(m) && m.open != []
    ensures m.open[0] < |m.upvalues| && ListOk(m.(upvalues := m.upvalues[m.open[0] := Closed(v)], open := m.open[1..]))
    ensures forall id: nat :: id != m.open[0] ==>
              SlotOf(m.upvalues[m.open[0] := Closed(v)], id) == SlotOf(m.upvalues, id)
  {
    var head := m.open[0];
    var upvalues, open := m.upvalues[head := Closed(v)], m.open[1..];
    assert forall i :: 0 <= i < |open| ==> open[i] == m.open[i + 1];
    forall i | 0 <= i < |open| ensures open[i] != head && SlotOf(upvalues, open[i]) == SlotOf(m.upvalues, open[i]) {
      assert SlotOf(m.upvalues, m.open[0]) > SlotOf(m.upvalues, m.open[i + 1]);
    }
    forall id: nat | SlotOf(upvalues, id) >= 0 ensures id in open {
      assert id in m.open;
      var j := IndexOf(m.open, id);
      assert open[j - 1] == id;
    }
  }

  // ---- The refinement ----

  /** The two machines are in step: same frames and closures, and the same value in every variable,
      whether it is on the stack, in an open upvalue or in a closed one. */
  ghost predicate Matches(m: Machine, c: Cells) {
    && |m.stack| == |c.stack| && |m.upvalues| == |c.heap| && m.frames == c.frames && m.closures == c.closures
    && (forall i :: 0 <= i < |c.stack| ==> SlotMatches(m, c, i))
    && (forall id :: 0 <= id < |c.heap| ==> CellMatches(m, c, id))
  }

  ghost predicate SlotMatches(m: Machine, c: Cells, i: nat)
    requires i < |m.stack| && i < |c.stack|
  {
    match c.stack[i]
    case Plain(v) => m.stack[i] == v
    case Boxed(cell) => SlotOf(m.upvalues, cell) == i
  }

  ghost predicate CellMatches(m: Machine, c: Cells, id: nat)
    requires id < |m.upvalues| && id < |c.heap|
  {
    match m.upvalues[id]
    case Open(slot) => slot < |m.stack| && slot < |c.stack| && c.stack[slot] == Boxed(id) && c.heap[id] == m.stack[slot]
    case Closed(v) => c.heap[id] == v
  }

  ghost predicate InStep(m: Machine, c: Cells) {
    ListOk(m) && Matches(m, c)
  }

  /** The variable in `slot` has an open upvalue. */
  ghost predicate Captured(m: Machine, slot: nat) {
    exists id: nat :: SlotOf(m.upvalues, id) == slot
  }

  /** OP_POP never drops a captured variable: the compiler emits OP_CLOSE_UPVALUE for those. */
  ghost predicate Disciplined(m: Machine, op: Op) {
    op.Pop? && m.stack != [] ==> !Captured(m, |m.stack| - 1)
  }

  lemma SameValue(m: Machine, c: Cells, i: nat)
    requires Matches(m, c) && i < |m.stack|
    ensures SlotValue(c.heap, c.stack[i]) == m.stack[i]
  {
    assert SlotMatches(m, c, i);
    if c.stack[i].Boxed? { assert CellMatches(m, c, c.stack[i].cell); }
  }

  lemma SameUpvalue(m: Machine, c: Cells, id: nat)
    requires Matches(m, c)
    ensures ReadUpvalue(m, id) == SlotValue(c.heap, Boxed(id))
  {
    if id < |c.heap| { assert CellMatches(m, c, id); }
  }

  lemma PushInStep(m: Machine, c: Cells, v: Value)
    requires InStep(m, c)
    ensures InStep(m.(stack := m.stack + [v]), c.(stack := c.stack + [Plain(v)]))
  {
    var m', c' := m.(stack := m.stack + [v]), c.(stack := c.stack + [Plain(v)]);
    forall i | 0 <= i < |c'.stack| ensures SlotMatches(m', c', i) {
      if i < |c.stack| { assert SlotMatches(m, c, i); }
    }
    forall id | 0 <= id < |c.heap| ensures CellMatches(m', c', id) { assert CellMatches(m, c, id); }
  }

  /** Closing everything from `last` up and dropping those slots. */
  lemma DropInStep(m: Machine, c: Cells, last: nat)
    requires InStep(m, c) && last <= |m.stack|
    ensures InStep(CloseFrom(m, last).(stack := m.stack[..last]), c.(stack := c.stack[..last]))
  {
    hide CloseFrom, Descending;
    CloseMeaning(m, last);
    var closed := CloseFrom(m, last);
    var m', c' := closed.(stack := m.stack[..last]), c.(stack := c.stack[..last]);
    forall i | 0 <= i < |c'.stack| ensures SlotMatches(m', c', i) {
      assert SlotMatches(m, c, i);
    }
    forall id | 0 <= id < |c.heap| ensures CellMatches(m', c', id) { assert CellMatches(m, c, id); }
    forall i | 0 <= i < |m'.open| ensures SlotOf(m'.upvalues, m'.open[i]) < last {
      assert 0 <= SlotOf(closed.upvalues, closed.open[i]);
    }
  }

  lemma NothingToClose(m: Machine, last: nat)
    requires ListOk(m) && forall id: nat :: SlotOf(m.upvalues, id) < last
    ensures CloseFrom(m, last) == m
  {
  }

  lemma WriteSlotInStep(m: Machine, c: Cells, slot: nat, v: Value)
    requires InStep(m, c) && slot < |m.stack|
    ensures InStep(m.(stack := m.stack[slot := v]), WriteSlot(c, slot, v))
  {
    assert SlotMatches(m, c, slot);
    var m', c' := m.(stack := m.stack[slot := v]), WriteSlot(c, slot, v);
    forall i | 0 <= i < |c'.stack| ensures SlotMatches(m', c', i) { assert SlotMatches(m, c, i); }
    forall id | 0 <= id < |c'.heap| ensures CellMatches(m', c', id) { assert CellMatches(m, c, id); }
  }

  lemma WriteUpvalueInStep(m: Machine, c: Cells, id: nat, v: Value)
    requires InStep(m, c)
    ensures InStep(WriteUpvalue(m, id, v), WriteCell(c, id, v))
  {
    if id < |c.heap| {
      assert CellMatches(m, c, id);
      if m.upvalues[id].Open? {
        WriteSlotInStep(m, c, m.upvalues[id].slot, v);
      } else {
        ClosedWritten(m, c, id, v);
      }
    }
  }

  lemma ClosedWritten(m: Machine, c: Cells, id: nat, v: Value)
    requires InStep(m, c) && id < |m.upvalues| && m.upvalues[id].Closed?
    ensures InStep(m.(upvalues := m.upvalues[id := Closed(v)]), c.(heap := c.heap[id := v]))
  {
    hide Descending;
    var m', c' := m.(upvalues := m.upvalues[id := Closed(v)]), c.(heap := c.heap[id := v]);
    assert forall other: nat :: SlotOf(m'.upvalues, other) == SlotOf(m.upvalues, other);
    assert Descending(m'.upvalues, m'.open) by { SameOrder(m.upvalues, m'.upvalues, m.open); }
    forall i | 0 <= i < |c.stack| ensures SlotMatches(m', c', i) { assert SlotMatches(m, c, i); }
    forall other | 0 <= other < |c.heap| ensures CellMatches(m', c', other) { assert CellMatches(m, c, other); }
  }

  lemma SameOrder(upvalues: seq<Upvalue>, upvalues': seq<Upvalue>, open: seq<nat>)
    requires Descending(upvalues, open) && forall id: nat :: SlotOf(upvalues', id) == SlotOf(upvalues, id)
    ensures Descending(upvalues', open)
  {
  }

  /** Capturing a slot on one side is boxing it on the other, with the same number. */
  lemma CaptureInStep(m: Machine, c: Cells, slot: nat)
    requires InStep(m, c) && slot < |m.stack|
    ensures Capture(m, slot).1 == Box(c, slot).1 && InStep(Capture(m, slot).0, Box(c, slot).0)
  {
    hide Capture, ListOk, Descending;
    CaptureMeaning(m, slot);
    assert SlotMatches(m, c, slot);
    var (m', id) := Capture(m, slot);
    if c.stack[slot].Boxed? {
      assert SlotOf(m.upvalues, c.stack[slot].cell) == slot;
      OneUpvaluePerSlot(m, id, c.stack[slot].cell);
    } else {
      forall known: nat ensures SlotOf(m.upvalues, known) != slot {
        if known < |c.heap| { assert CellMatches(m, c, known); }
      }
      BoxedInStep(m, c, slot, m');
    }
  }

  lemma BoxedInStep(m: Machine, c: Cells, slot: nat, m': Machine)
    requires Matches(m, c) && slot < |m.stack| && c.stack[slot].Plain?
    requires forall known: nat :: SlotOf(m.upvalues, known) != slot
    requires m'.upvalues == m.upvalues + [Open(slot)] && m' == m.(upvalues := m'.upvalues, open := m'.open)
    ensures Matches(m', Box(c, slot).0)
  {
    var c' := Box(c, slot).0;
    assert SlotMatches(m, c, slot);
    forall i | 0 <= i < |c'.stack| ensures SlotMatches(m', c', i) {
      assert SlotMatches(m, c, i);
    }
    forall id | 0 <= id < |c'.heap| ensures CellMatches(m', c', id) {
      if id < |c.heap| {
        assert CellMatches(m, c, id);
        assert SlotOf(m.upvalues, id) != slot;
      }
    }
  }

  lemma {:induction false} FillInStep(m: Machine, c: Cells, f: Frame, ds: seq<Descriptor>)
    requires InStep(m, c) && AllFillOk(|m.stack|, m.closures, f, ds)
    ensures AllFillOk(|c.stack|, c.closures, f, ds)
    ensures FillAll(m, f, ds).1 == FillCells(c, f, ds).1
    ensures InStep(FillAll(m, f, ds).0, FillCells(c, f, ds).0)
    decreases |ds|
  {
    hide Capture, Box, ListOk;
    if ds != [] {
      var d := ds[0];
      assert d in ds && FillOk(|c.stack|, c.closures, f, d);
      if d.isLocal { CaptureInStep(m, c, f.base + d.index); }
      FillInStep(Fill(m, f, d).0, FillCell(c, f, d).0, f, ds[1..]);
    }
  }

  ghost predicate StepsMatch(a: Step<Machine>, b: Step<Cells>) {
    match (a, b)
    case (Go(m), Go(c)) => InStep(m, c)
    case (Stop, Stop) => true
    case _ => false
  }

  lemma PopInStep(m: Machine, c: Cells)
    requires InStep(m, c) && m.frames != [] && Disciplined(m, Pop)
    ensures StepsMatch(Execute(m, Pop), ExecuteCells(c, Pop))
  {
    hide CloseFrom, SlotMatches, CellMatches;
    if m.stack != [] {
      var last := |m.stack| - 1;
      forall id: nat ensures SlotOf(m.upvalues, id) < last {
        assert SlotOf(m.upvalues, id) != last;
        if id in m.open { var i := IndexOf(m.open, id); assert SlotOf(m.upvalues, m.open[i]) < |m.stack|; }
      }
      NothingToClose(m, last);
      DropInStep(m, c, last);
    }
  }

  lemma CloseInStep(m: Machine, c: Cells)
    requires InStep(m, c) && m.frames != []
    ensures StepsMatch(Execute(m, CloseUpvalue), ExecuteCells(c, CloseUpvalue))
  {
    hide ListOk, SlotMatches, CellMatches, CloseFrom;
    if m.stack != [] { DropInStep(m, c, |m.stack| - 1); }
  }

  lemma GetLocalInStep(m: Machine, c: Cells, slot: nat)
    requires InStep(m, c) && m.frames != []
    ensures StepsMatch(Execute(m, GetLocal(slot)), ExecuteCells(c, GetLocal(slot)))
  {
    hide ListOk, SlotMatches, CellMatches, SlotValue;
    var i := m.frames[|m.frames| - 1].base + slot;
    if i < |m.stack| {
      SameValue(m, c, i);
      PushInStep(m, c, m.stack[i]);
    }
  }

  lemma SetLocalInStep(m: Machine, c: Cells, slot: nat)
    requires InStep(m, c) && m.frames != []
    ensures StepsMatch(Execute(m, SetLocal(slot)), ExecuteCells(c, SetLocal(slot)))
  {
    hide ListOk, SlotMatches, CellMatches, SlotValue, WriteSlot;
    var i := m.frames[|m.frames| - 1].base + slot;
    if i < |m.stack| {
      SameValue(m, c, |m.stack| - 1);
      WriteSlotInStep(m, c, i, m.stack[|m.stack| - 1]);
    }
  }

  lemma GetUpvalueInStep(m: Machine, c: Cells, j: nat)
    requires InStep(m, c) && m.frames != []
    ensures StepsMatch(Execute(m, GetUpvalue(j)), ExecuteCells(c, GetUpvalue(j)))
  {
    hide ListOk, SlotMatches, CellMatches, SlotValue, ReadUpvalue;
    var f := m.frames[|m.frames| - 1];
    if f.closure < |m.closures| && j < |m.closures[f.closure].upvalues| {
      var id := m.closures[f.closure].upvalues[j];
      SameUpvalue(m, c, id);
      PushInStep(m, c, ReadUpvalue(m, id));
    }
  }

  lemma SetUpvalueInStep(m: Machine, c: Cells, j: nat)
    requires InStep(m, c) && m.frames != []
    ensures StepsMatch(Execute(m, SetUpvalue(j)), ExecuteCells(c, SetUpvalue(j)))
  {
    hide ListOk, SlotMatches, CellMatches, SlotValue, WriteUpvalue, WriteCell;
    var f := m.frames[|m.frames| - 1];
    if f.closure < |m.closures| && j < |m.closures[f.closure].upvalues| && m.stack != [] {
      SameValue(m, c, |m.stack| - 1);
      WriteUpvalueInStep(m, c, m.closures[f.closure].upvalues[j], m.stack[|m.stack| - 1]);
    }
  }

  lemma MakeClosureInStep(m: Machine, c: Cells, arity: nat, ds: seq<Descriptor>)
    requires InStep(m, c) && m.frames != []
    ensures StepsMatch(Execute(m, MakeClosure(arity, ds)), ExecuteCells(c, MakeClosure(arity, ds)))
  {
    hide ListOk, SlotMatches, CellMatches, FillAll, FillCells, AllFillOk;
    var n, f := |m.stack|, m.frames[|m.frames| - 1];
    if n < STACK_MAX && AllFillOk(n + 1, m.closures, f, ds) {
      var v := Closure(|m.closures|);
      var m1, c1 := m.(stack := m.stack + [v]), c.(stack := c.stack + [Plain(v)]);
      PushInStep(m, c, v);
      FillInStep(m1, c1, f, ds);
      var o := ClosureObject(arity, FillAll(m1, f, ds).1);
      ClosureAdded(FillAll(m1, f, ds).0, FillCells(c1, f, ds).0, o);
    }
  }

  lemma ClosureAdded(m: Machine, c: Cells, o: ClosureObject)
    requires InStep(m, c)
    ensures InStep(m.(closures := m.closures + [o]), c.(closures := c.closures + [o]))
  {
    var m', c' := m.(closures := m.closures + [o]), c.(closures := c.closures + [o]);
    forall i | 0 <= i < |c.stack| ensures SlotMatches(m', c', i) { assert SlotMatches(m, c, i); }
    forall id | 0 <= id < |c.heap| ensures CellMatches(m', c', id) { assert CellMatches(m, c, id); }
  }

  lemma FramesChanged(m: Machine, c: Cells, frames: seq<Frame>)
    requires InStep(m, c)
    ensures InStep(m.(frames := frames), c.(frames := frames))
  {
    var m', c' := m.(frames := frames), c.(frames := frames);
    forall i | 0 <= i < |c.stack| ensures SlotMatches(m', c', i) { assert SlotMatches(m, c, i); }
    forall id | 0 <= id < |c.heap| ensures CellMatches(m', c', id) { assert CellMatches(m, c, id); }
  }

  lemma CallInStep(m: Machine, c: Cells, argc: nat)
    requires InStep(m, c) && m.frames != []
    ensures StepsMatch(Execute(m, Call(argc)), ExecuteCells(c, Call(argc)))
  {
    hide ListOk, SlotMatches, CellMatches, SlotValue;
    var n := |m.stack|;
    if n >= argc + 1 {
      SameValue(m, c, n - argc - 1);
      var callee := m.stack[n - argc - 1];
      if callee.Closure? { FramesChanged(m, c, m.frames + [Frame(n - argc - 1, callee.id)]); }
    }
  }

  lemma ReturnInStep(m: Machine, c: Cells)
    requires InStep(m, c) && m.frames != []
    ensures StepsMatch(Execute(m, Return), ExecuteCells(c, Return))
  {
    hide ListOk, SlotMatches, CellMatches, SlotValue, CloseFrom;
    var n, f := |m.stack|, m.frames[|m.frames| - 1];
    if n > 0 && |m.frames| > 1 && f.base < n {
      SameValue(m, c, n - 1);
      DropInStep(m, c, f.base);
      var m1, c1 := CloseFrom(m, f.base).(stack := m.stack[..f.base]), c.(stack := c.stack[..f.base]);
      var callers := m.frames[..|m.frames| - 1];
      FramesChanged(m1, c1, callers);
      PushInStep(m1.(frames := callers), c1.(frames := callers), m.stack[n - 1]);
    }
  }

  /** One instruction keeps the machines in step, and one stops exactly when the other does. */
  lemma StepInStep(m: Machine, c: Cells, op: Op)
    requires InStep(m, c) && Disciplined(m, op)
    ensures StepsMatch(Execute(m, op), ExecuteCells(c, op))
  {
    hide Execute, ExecuteCells, ListOk, SlotMatches, CellMatches, SlotValue, CloseFrom;
    if m.frames == [] {
      NoFrame(m, c, op);
    } else {
      match op
      case Push(v) => PushStepInStep(m, c, v);
      case Pop => PopInStep(m, c);
      case CloseUpvalue => CloseInStep(m, c);
      case GetLocal(slot) => GetLocalInStep(m, c, slot);
      case SetLocal(slot) => SetLocalInStep(m, c, slot);
      case GetUpvalue(j) => GetUpvalueInStep(m, c, j);
      case SetUpvalue(j) => SetUpvalueInStep(m, c, j);
      case MakeClosure(arity, ds) => MakeClosureInStep(m, c, arity, ds);
      case Call(argc) => CallInStep(m, c, argc);
      case Return => ReturnInStep(m, c);
    }
  }

  lemma NoFrame(m: Machine, c: Cells, op: Op)
    requires m.frames == [] && c.frames == []
    ensures Execute(m, op) == Stop && ExecuteCells(c, op) == Stop
  {
  }

  lemma PushStepInStep(m: Machine, c: Cells, v: Value)
    requires InStep(m, c) && m.frames != []
    ensures StepsMatch(Execute(m, Push(v)), ExecuteCells(c, Push(v)))
  {
    hide ListOk, SlotMatches, CellMatches, SlotValue;
    PushInStep(m, c, v);
  }

  /** Every pop of the run drops an uncaptured slot. */
  ghost predicate DisciplinedRun(m: Machine, ops: seq<Op>)
    decreases |ops|
  {
    ops == [] ||
    (Disciplined(m, ops[0]) &&
     match Execute(m, ops[0])
     case Stop => true
     case Go(m') => DisciplinedRun(m', ops[1..]))
  }

  /** Over every run, the machine with open upvalues does what the machine with heap cells does. */
  lemma {:induction false} RunInStep(m: Machine, c: Cells, ops: seq<Op>)
    requires InStep(m, c) && DisciplinedRun(m, ops)
    ensures StepsMatch(Run(m, ops), RunCells(c, ops))
    decreases |ops|
  {
    hide InStep, Disciplined, Execute, ExecuteCells;
    if ops != [] {
      StepInStep(m, c, ops[0]);
      match (Execute(m, ops[0]), ExecuteCells(c, ops[0])) {
        case (Go(m'), Go(c')) => RunInStep(m', c', ops[1..]);
        case _ =>
      }
    }
  }

  /** A script starts with its own closure in slot 0 and nothing captured. */
  function Start(arity: nat): Machine {
    Machine([Closure(0)], [], [], [Frame(0, 0)], [ClosureObject(arity, [])])
  }

  function StartCells(arity: nat): Cells {
    Cells([Plain(Closure(0))], [], [Frame(0, 0)], [ClosureObject(arity, [])])
  }

  /** The whole run of a script: both machines stop, or both end with the same values on the stack and
      the same value behind every upvalue of every closure; the open list is in order, one per slot. */
  lemma UpvaluesAreCells(ops: seq<Op>)
    requires DisciplinedRun(Start(0), ops)
    ensures match (Run(Start(0), ops), RunCells(StartCells(0), ops))
            case (Stop, Stop) => true
            case (Go(m), Go(c)) =>
              && m.stack == Values(c) && m.closures == c.closures && m.frames == c.frames && ListOk(m)
              && |m.upvalues| == |c.heap|
              && forall id: nat :: id < |c.heap| ==> ReadUpvalue(m, id) == c.heap[id]
            case _ => false
  {
    hide Execute, ExecuteCells, DisciplinedRun;
    assert InStep(Start(0), StartCells(0));
    RunInStep(Start(0), StartCells(0), ops);
    match (Run(Start(0), ops), RunCells(StartCells(0), ops)) {
      case (Go(m), Go(c)) => SameState(m, c);
      case _ =>
    }
  }

  lemma SameState(m: Machine, c: Cells)
    requires Matches(m, c)
    ensures m.stack == Values(c) && forall id: nat :: id < |c.heap| ==> ReadUpvalue(m, id) == c.heap[id]
  {
    hide Matches, SlotValue, ReadUpvalue;
    forall i | 0 <= i < |m.stack| ensures |m.stack| == |c.stack| && Values(c)[i] == m.stack[i] {
      SameHeight(m, c);
      SameValue(m, c, i);
    }
    SameHeight(m, c);
    forall id: nat | id < |c.heap| ensures ReadUpvalue(m, id) == c.heap[id] {
      SameUpvalue(m, c, id);
      assert SlotValue(c.heap, Boxed(id)) == c.heap[id] by { BoxedValue(c.heap, id); }
    }
  }

  lemma SameHeight(m: Machine, c: Cells)
    requires Matches(m, c)
    ensures |m.stack| == |c.stack|
  {
  }

  lemma BoxedValue(heap: seq<Value>, id: nat)
    requires id < |heap|
    ensures SlotValue(heap, Boxed(id)) == heap[id]
  {
  }

  /** The condition is needed, and it is exact: a pop keeps the open list about live slots only if the
      popped slot is not captured. */
  lemma PopKeepsListIff(m: Machine)
    requires ListOk(m) && m.stack != [] && m.frames != []
    ensures ListOk(Execute(m, Pop).m) <==> !Captured(m, |m.stack| - 1)
  {
    var last := |m.stack| - 1;
    var m' := Execute(m, Pop).m;
    if Captured(m, last) {
      var id: nat :| SlotOf(m.upvalues, id) == last;
      var i := IndexOf(m.open, id);
      assert m'.open[i] == id && SlotOf(m'.upvalues, m'.open[i]) == last;
    } else {
      forall i | 0 <= i < |m.open| ensures 0 <= SlotOf(m'.upvalues, m'.open[i]) < last {
        assert SlotOf(m.upvalues, m.open[i]) < |m.stack|;
      }
    }
  }

  // ---- The invariant of the list over every run ----

  /** The heap-cell state that a machine stands for. */
  ghost function CellsOf(m: Machine): Cells {
    Cells(seq(|m.stack|, i requires 0 <= i < |m.stack| => SlotCell(m, i)),
          seq(|m.upvalues|, id requires 0 <= id < |m.upvalues| => ReadUpvalue(m, id)), m.frames, m.closures)
  }

  ghost function SlotCell(m: Machine, i: nat): Slot
    requires i < |m.stack|
  {
    if Captured(m, i) then
      var id: nat :| SlotOf(m.upvalues, id) == i;
      Boxed(id)
    else Plain(m.stack[i])
  }

  lemma EveryStateIsInStep(m: Machine)
    requires ListOk(m)
    ensures InStep(m, CellsOf(m))
  {
    var c := CellsOf(m);
    forall id | 0 <= id < |c.heap| ensures CellMatches(m, c, id) {
      if m.upvalues[id].Open? {
        var slot := m.upvalues[id].slot;
        assert SlotOf(m.upvalues, id) == slot && id in m.open;
        var i := IndexOf(m.open, id);
        assert SlotOf(m.upvalues, m.open[i]) < |m.stack|;
        assert Captured(m, slot);
        OneUpvaluePerSlot(m, id, SlotCell(m, slot).cell);
      }
    }
  }

  /** Every instruction keeps the open list in order, about live slots, with one upvalue per slot. */
  lemma StepKeepsList(m: Machine, op: Op)
    requires ListOk(m) && Disciplined(m, op)
    ensures Execute(m, op).Go? ==> ListOk(Execute(m, op).m)
  {
    hide Execute, ExecuteCells, ListOk, Matches, CellsOf, Disciplined;
    EveryStateIsInStep(m);
    StepInStep(m, CellsOf(m), op);
  }

  /** Every closure refers to upvalues that exist. */
  ghost predicate RefsOk(m: Machine) {
    forall k, j :: 0 <= k < |m.closures| && 0 <= j < |m.closures[k].upvalues| ==>
      m.closures[k].upvalues[j] < |m.upvalues|
  }

  lemma {:induction false} FillRefs(m: Machine, f: Frame, ds: seq<Descriptor>)
    requires ListOk(m) && RefsOk(m) && AllFillOk(|m.stack|, m.closures, f, ds)
    ensures |FillAll(m, f, ds).0.upvalues| >= |m.upvalues|
    ensures forall id :: id in FillAll(m, f, ds).1 ==> id < |FillAll(m, f, ds).0.upvalues|
    decreases |ds|
  {
    hide Capture, ListOk;
    if ds != [] {
      assert ds[0] in ds;
      if ds[0].isLocal { CaptureMeaning(m, f.base + ds[0].index); }
      FillRefs(Fill(m, f, ds[0]).0, f, ds[1..]);
    }
  }

  lemma StepKeepsRefs(m: Machine, op: Op)
    requires ListOk(m) && RefsOk(m)
    ensures Execute(m, op).Go? ==> RefsOk(Execute(m, op).m)
  {
    hide ListOk, CloseFrom, FillAll, AllFillOk, ReadUpvalue, CallOk;
    if op.MakeClosure? { MakeClosureKeepsRefs(m, op.arity, op.descriptors); }
  }

  lemma MakeClosureKeepsRefs(m: Machine, arity: nat, ds: seq<Descriptor>)
    requires ListOk(m) && RefsOk(m)
    ensures Execute(m, MakeClosure(arity, ds)).Go? ==> RefsOk(Execute(m, MakeClosure(arity, ds)).m)
  {
    hide ListOk, FillAll, AllFillOk;
    if Execute(m, MakeClosure(arity, ds)).Go? {
      var m1, f := m.(stack := m.stack + [Closure(|m.closures|)]), m.frames[|m.frames| - 1];
      PushKeepsList(m, Closure(|m.closures|));
      FillRefs(m1, f, ds);
      var (m2, ids) := FillAll(m1, f, ds);
      var m3 := m2.(closures := m2.closures + [ClosureObject(arity, ids)]);
      forall k, j | 0 <= k < |m3.closures| && 0 <= j < |m3.closures[k].upvalues|
        ensures m3.closures[k].upvalues[j] < |m3.upvalues|
      {
        if k < |m.closures| { assert m3.closures[k] == m.closures[k]; } else { assert ids[j] in ids; }
      }
    }
  }

  lemma PushKeepsList(m: Machine, v: Value)
    requires ListOk(m)
    ensures ListOk(m.(stack := m.stack + [v]))
  {
  }

  /** What goes wrong otherwise, for every state: after OP_POP of a captured variable its closures read
      whatever is pushed next, while the cell semantics still has the value of the variable. */
  lemma CapturedPopDiverges(m: Machine, c: Cells, id: nat, v: Value)
    requires InStep(m, c) && m.frames != [] && m.stack != [] && SlotOf(m.upvalues, id) == |m.stack| - 1
    requires |m.stack| <= STACK_MAX
    ensures Execute(m, Pop).Go? && Execute(Execute(m, Pop).m, Push(v)).Go?
    ensures ExecuteCells(c, Pop).Go? && ExecuteCells(ExecuteCells(c, Pop).m, Push(v)).Go?
    ensures ReadUpvalue(Execute(Execute(m, Pop).m, Push(v)).m, id) == v
    ensures SlotValue(ExecuteCells(ExecuteCells(c, Pop).m, Push(v)).m.heap, Boxed(id)) == m.stack[|m.stack| - 1]
  {
    hide ListOk;
    assert CellMatches(m, c, id);
  }
}
