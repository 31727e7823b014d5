/** The linked list of open upvalues (src/vm.c) as objects that are updated in place: capture_upvalue,
    close_upvalues and the instructions on closures, proved to be the machine of module Upvalues. */
module OpenUpvalues {
  import opened Upvalues

  /** Where an upvalue's value is: in a stack slot, or in its own `closed` field. */
  datatype Location = Slot(slot: nat) | Own

  class ObjUpvalue {
    const address: nat
    var location: Location
    var closed: Value
    var next: ObjUpvalue?

    ghost function View(): Upvalue
      reads this
    {
      match location
      case Slot(slot) => Upvalue.Open(slot)
      case Own => Upvalue.Closed(closed)
    }

    constructor (address: nat, slot: nat, next: ObjUpvalue?)
      ensures this.address == address && location == Slot(slot) && this.next == next
    {
      this.address, this.location, this.closed, this.next := address, Slot(slot), Data(0), next;
    }
  }

  ghost function Views(heap: seq<ObjUpvalue>): (r: seq<Upvalue>)
    reads heap
    ensures |r| == |heap| && forall i :: 0 <= i < |heap| ==> r[i] == heap[i].View()
  {
    if heap == [] then [] else Views(heap[..|heap| - 1]) + [heap[|heap| - 1].View()]
  }

  ghost function Nexts(heap: seq<ObjUpvalue>): (r: seq<ObjUpvalue?>)
    reads heap
    ensures |r| == |heap| && forall i :: 0 <= i < |heap| ==> r[i] == heap[i].next
  {
    if heap == [] then [] else Nexts(heap[..|heap| - 1]) + [heap[|heap| - 1].next]
  }

  // ---- The list as values ----

  /** The object at position `i` of the list, or null after its end. */
  ghost function NodeAt(heap: seq<ObjUpvalue>, list: seq<nat>, i: nat): ObjUpvalue? {
    if i < |list| && list[i] < |heap| then heap[list[i]] else null
  }

  /** The objects at the addresses of the list are linked in order from `head`. */
  ghost predicate Linked(head: ObjUpvalue?, heap: seq<ObjUpvalue>, nexts: seq<ObjUpvalue?>, list: seq<nat>) {
    && |nexts| == |heap| && head == NodeAt(heap, list, 0)
    && (forall a :: 0 <= a < |heap| ==> heap[a].address == a)
    && (forall i :: 0 <= i < |list| ==> list[i] < |heap|)
    && (forall i :: 0 <= i < |list| ==> nexts[list[i]] == NodeAt(heap, list, i + 1))
  }

  ghost predicate NoRepeats(list: seq<nat>) {
    forall i, j :: 0 <= i < j < |list| ==> list[i] != list[j]
  }

  /** Linking a new object in at position `i` changes one pointer: the head or one `next`. */
  lemma LinkInserted(head: ObjUpvalue?, heap: seq<ObjUpvalue>, nexts: seq<ObjUpvalue?>, list: seq<nat>, i: nat,
                     created: ObjUpvalue)
    requires Linked(head, heap, nexts, list) && NoRepeats(list) && i <= |list| && created.address == |heap|
    ensures Linked(if i == 0 then created else head, heap + [created],
                   (if i == 0 then nexts else nexts[list[i - 1] := created]) + [NodeAt(heap, list, i)],
                   list[..i] + [|heap|] + list[i..])
  {
    hide NodeAt, NoRepeats;
    var list' := list[..i] + [|heap|] + list[i..];
    InsertedAt(list, i, |heap|);
    NodeInserted(heap, list, i, 0, created);
    forall j: nat | j < |list'| ensures list'[j] < |heap| + 1 {
    }
    forall j: nat | j < |list'|
      ensures ((if i == 0 then nexts else nexts[list[i - 1] := created]) + [NodeAt(heap, list, i)])[list'[j]] ==
              NodeAt(heap + [created], list', j + 1)
    {
      NextInserted(head, heap, nexts, list, i, created, j);
    }
  }

  lemma NextInserted(head: ObjUpvalue?, heap: seq<ObjUpvalue>, nexts: seq<ObjUpvalue?>, list: seq<nat>, i: nat,
                     created: ObjUpvalue, j: nat)
    requires Linked(head, heap, nexts, list) && NoRepeats(list) && i <= |list| && j <= |list|
    ensures var list' := list[..i] + [|heap|] + list[i..];
            list'[j] < |heap| + 1 &&
            ((if i == 0 then nexts else nexts[list[i - 1] := created]) + [NodeAt(heap, list, i)])[list'[j]] ==
            NodeAt(heap + [created], list', j + 1)
  {
    hide NodeAt, NoRepeats;
    InsertedAt(list, i, |heap|);
    NodeInserted(heap, list, i, j + 1, created);
    if j < i {
      NextBefore(nexts, list, i, j, created);
    } else if j > i && i > 0 {
      NextBehind(nexts, list, i, j - 1, created);
    }
  }

  /** A list with one more entry. */
  lemma InsertedAt(list: seq<nat>, i: nat, a: nat)
    requires i <= |list|
    ensures var list' := list[..i] + [a] + list[i..];
            |list'| == |list| + 1 && forall j :: 0 <= j < |list'| ==> list'[j] == if j < i then list[j] else if j == i then a else list[j - 1]
  {
  }

  /** The objects at the entries after the insertion. */
  lemma NodeInserted(heap: seq<ObjUpvalue>, list: seq<nat>, i: nat, j: nat, created: ObjUpvalue)
    requires i <= |list| && forall k :: 0 <= k < |list| ==> list[k] < |heap|
    ensures NodeAt(heap + [created], list[..i] + [|heap|] + list[i..], j) ==
            if j < i then NodeAt(heap, list, j) else if j == i then created else NodeAt(heap, list, j - 1)
  {
    InsertedAt(list, i, |heap|);
  }

  /** Only the entry before the insertion gets another next one. */
  lemma NextBefore(nexts: seq<ObjUpvalue?>, list: seq<nat>, i: nat, j: nat, created: ObjUpvalue)
    requires NoRepeats(list) && j < i <= |list| && forall k :: 0 <= k < |list| ==> list[k] < |nexts|
    ensures nexts[list[i - 1] := created][list[j]] == if j == i - 1 then created else nexts[list[j]]
  {
    assert j < i - 1 ==> list[j] != list[i - 1];
  }

  lemma NextBehind(nexts: seq<ObjUpvalue?>, list: seq<nat>, i: nat, j: nat, created: ObjUpvalue)
    requires NoRepeats(list) && 0 < i <= j < |list| && forall k :: 0 <= k < |list| ==> list[k] < |nexts|
    ensures nexts[list[i - 1] := created][list[j]] == nexts[list[j]]
  {
    assert list[i - 1] != list[j];
  }

  /** Unlinking the first object of the list. */
  lemma HeadUnlinked(head: ObjUpvalue?, heap: seq<ObjUpvalue>, nexts: seq<ObjUpvalue?>, list: seq<nat>)
    requires Linked(head, heap, nexts, list) && list != []
    ensures Linked(nexts[list[0]], heap, nexts, list[1..])
  {
    forall i | 0 <= i < |list| - 1 ensures nexts[list[1..][i]] == NodeAt(heap, list[1..], i + 1) {
      assert list[1..][i] == list[i + 1];
    }
  }

  lemma ListHasNoRepeats(m: Machine)
    requires ListOk(m)
    ensures NoRepeats(m.open)
  {
    forall i, j | 0 <= i < j < |m.open| ensures m.open[i] != m.open[j] {
      assert SlotOf(m.upvalues, m.open[i]) > SlotOf(m.upvalues, m.open[j]);
    }
  }

  lemma CaptureParts(m: Machine, slot: nat)
    ensures var i := Position(m.upvalues, m.open, slot);
            Capture(m, slot) ==
            if i < |m.open| && SlotOf(m.upvalues, m.open[i]) == slot then (m, m.open[i])
            else (m.(upvalues := m.upvalues + [Upvalue.Open(slot)],
                     open := m.open[..i] + [|m.upvalues|] + m.open[i..]), |m.upvalues|)
  {
  }

  class VM {
    const stack: array<Value>
    var top: nat
    var openUpvalues: ObjUpvalue?
    var frames: seq<Frame>
    var closures: seq<ClosureObject>
    var heap: seq<ObjUpvalue>    // the upvalue objects; closures refer to them by address
    ghost var list: seq<nat>     // the addresses on the open list, in order

    ghost function View(): Machine
      reads this, stack, heap
    {
      Machine(stack[..if top <= stack.Length then top else stack.Length], Views(heap), list, frames, closures)
    }

    ghost predicate Valid()
      reads this, stack, heap
    {
      && stack.Length == STACK_MAX && top <= STACK_MAX
      && Linked(openUpvalues, heap, Nexts(heap), list) && ListOk(View())
    }

    ghost function Node(i: nat): ObjUpvalue?
      reads this
    {
      NodeAt(heap, list, i)
    }

    constructor (arity: nat)
      ensures Valid() && View() == Start(arity) && fresh(stack)
    {
      stack := new Value[STACK_MAX](_ => Data(0));
      top, openUpvalues, frames := 1, null, [Frame(0, 0)];
      closures, heap, list := [ClosureObject(arity, [])], [], [];
      new;
      stack[0] := Closure(0);
      assert stack[..1] == [Closure(0)];
    }

    /** What the list looks like from one of its objects. */
    lemma NodeOpen(i: nat)
      requires Valid() && i < |list|
      ensures var node := Node(i);
              && list[i] < |heap| && node == heap[list[i]] && node.next == Node(i + 1) && node.address == list[i]
              && node.location.Slot? && node.location.slot == SlotOf(View().upvalues, list[i]) < top
    {
      assert SlotOf(View().upvalues, View().open[i]) >= 0;
      assert Nexts(heap)[list[i]] == heap[list[i]].next;
    }

    lemma Distinct()
      requires Valid()
      ensures NoRepeats(list)
    {
      ListHasNoRepeats(View());
    }

    lemma Addresses()
      requires Valid()
      ensures forall a :: 0 <= a < |heap| ==> heap[a].address == a
    {
    }

    lemma Ends()
      requires Valid()
      ensures openUpvalues == Node(0) && Node(|list|) == null && View().open == list
      ensures list == [] <==> openUpvalues == null
    {
    }

    lemma Splits(local: nat)
      requires Valid()
      ensures var i := Position(View().upvalues, list, local);
              && i <= |list| && (forall j :: 0 <= j < i ==> SlotOf(View().upvalues, list[j]) > local)
              && (i < |list| ==> SlotOf(View().upvalues, list[i]) <= local)
    {
      PositionSplits(View().upvalues, View().open, local);
    }

    /** The walk of capture_upvalue: the entries around the place of a slot. */
    method Walk(local: nat) returns (prev: ObjUpvalue?, upvalue: ObjUpvalue?)
      requires Valid()
      ensures var i := Position(View().upvalues, list, local);
              upvalue == Node(i) && prev == if i == 0 then null else Node(i - 1)
    {
      hide *;
      ghost var place := Position(View().upvalues, list, local);
      Splits(local);
      Ends();
      ghost var i := 0;
      prev, upvalue := null, openUpvalues;
      if list != [] { NodeOpen(0); }
      while upvalue != null && upvalue.location.slot > local
        invariant i <= place <= |list| && upvalue == Node(i) && prev == if i == 0 then null else Node(i - 1)
        invariant if i < |list| then upvalue != null && upvalue.location.Slot? && upvalue.location.slot == SlotOf(View().upvalues, list[i])
                  else upvalue == null
        decreases place - i
      {
        NodeOpen(i);
        prev := upvalue;
        upvalue := upvalue.next;
        i := i + 1;
        if i < |list| { NodeOpen(i); }
      }
    }

    /** capture_upvalue: the open upvalue of a slot, or a new one linked in at its place. */
    method CaptureUpvalue(local: nat) returns (id: nat)
      requires Valid() && local < top
      modifies this`heap, this`list, this`openUpvalues, heap
      ensures Valid() && (View(), id) == Capture(old(View()), local)
      ensures fresh(set u | u in heap && u !in old(heap))
    {
      hide Views, Nexts, ListOk, Linked, NodeAt, Position, SlotOf, Capture, Descending;
      ghost var m := View();
      ghost var i := Position(m.upvalues, list, local);
      var prev, upvalue := Walk(local);
      CaptureMeaning(m, local);
      CaptureParts(m, local);
      if i < |list| { NodeOpen(i); } else { Ends(); }
      if upvalue != null && upvalue.location.slot == local {
        return upvalue.address;
      }
      id := |heap|;
      Link(prev, upvalue, local, i);
    }

    /** Puts a new upvalue between two neighbours of the list. */
    method Link(prev: ObjUpvalue?, upvalue: ObjUpvalue?, local: nat, ghost i: nat)
      requires Valid() && i <= |list|
      requires upvalue == Node(i) && prev == if i == 0 then null else Node(i - 1)
      modifies this`heap, this`list, this`openUpvalues, heap
      ensures Linked(openUpvalues, heap, Nexts(heap), list)
      ensures list == old(list)[..i] + [|old(heap)|] + old(list)[i..]
      ensures Views(heap) == old(Views(heap)) + [Upvalue.Open(local)]
      ensures fresh(set u | u in heap && u !in old(heap))
    {
      hide Views, Nexts, ListOk, View, NodeAt, Linked;
      ghost var nexts := Nexts(heap);
      Distinct();
      Addresses();
      if i > 0 { NodeOpen(i - 1); }
      var created := new ObjUpvalue(|heap|, local, upvalue);
      LinkInserted(openUpvalues, heap, nexts, list, i, created);
      if prev == null {
        openUpvalues := created;
      } else {
        prev.next := created;
      }
      heap := heap + [created];
      list := list[..i] + [|old(heap)|] + list[i..];
      assert Nexts(heap) == (if i == 0 then nexts else nexts[old(list)[i - 1] := created]) + [upvalue];
      assert Views(heap) == old(Views(heap)) + [Upvalue.Open(local)];
    }

    /** One round of close_upvalues: the first upvalue of the list takes its value along. */
    method CloseFirst(upvalue: ObjUpvalue)
      requires Valid() && list != [] && upvalue == Node(0)
      modifies this`list, this`openUpvalues, upvalue
      ensures Valid()
      ensures var m := old(View());
              var id := m.open[0];
              && id < |m.upvalues|
              && View() == m.(upvalues := m.upvalues[id := Upvalue.Closed(ReadSlot(m.stack, SlotOf(m.upvalues, id)))],
                              open := m.open[1..])
    {
      hide Views, Nexts, ListOk, Linked, NodeAt, SlotOf, Descending;
      ghost var m, id := View(), list[0];
      ghost var nexts := Nexts(heap);
      NodeOpen(0);
      Addresses();
      HeadClosed(m, ReadSlot(m.stack, SlotOf(m.upvalues, id)));
      HeadUnlinked(openUpvalues, heap, nexts, list);
      Ends();
      upvalue.closed := stack[upvalue.location.slot];
      upvalue.location := Own;
      openUpvalues := upvalue.next;
      list := list[1..];
      assert Views(heap) == m.upvalues[id := Upvalue.Closed(ReadSlot(m.stack, SlotOf(m.upvalues, id)))];
      assert Nexts(heap) == nexts;
    }

    /** close_upvalues: every open upvalue at or above `last` is closed. */
    method CloseUpvalues(last: nat)
      requires Valid()
      modifies this`list, this`openUpvalues, heap
      ensures Valid() && View() == CloseFrom(old(View()), last)
    {
      hide *;
      ghost var m := View();
      Ends();
      if list != [] { NodeOpen(0); }
      while openUpvalues != null && openUpvalues.location.slot >= last
        invariant Valid() && CloseFrom(View(), last) == CloseFrom(m, last) && openUpvalues == Node(0)
        invariant View().open == list
        invariant list == [] <==> openUpvalues == null
        invariant openUpvalues != null ==>
                    && openUpvalues in heap && openUpvalues.location.Slot?
                    && openUpvalues.location.slot == SlotOf(View().upvalues, list[0])
        decreases |list|
      {
        CloseParts(View(), last);
        CloseFirst(openUpvalues);
        Ends();
        if list != [] { NodeOpen(0); }
      }
      CloseParts(View(), last);
    }

    // ---- The stack ----

    method PushValue(v: Value) returns (ok: bool)
      requires Valid()
      modifies this`top, stack
      ensures ok == Upvalues.PushValue(old(View()), v).Go?
      ensures ok ==> View() == Upvalues.PushValue(old(View()), v).m && StacksOk()
    {
      hide Views, Nexts, ListOk, Linked;
      if top >= STACK_MAX { return false; }
      stack[top] := v;
      top := top + 1;
      assert stack[..top] == old(stack[..top]) + [v];
      ok := true;
    }

    /** What is left of Valid when the stack has changed. */
    ghost predicate StacksOk()
      reads this, stack, heap
    {
      stack.Length == STACK_MAX && top <= STACK_MAX && Linked(openUpvalues, heap, Nexts(heap), list)
    }

    /** The value behind an upvalue. */
    method ReadUpvalue(id: nat) returns (v: Value)
      requires Valid() && id < |heap|
      ensures v == Upvalues.ReadUpvalue(View(), id)
    {
      hide Nexts, ListOk, Linked;
      var upvalue := heap[id];
      match upvalue.location
      case Slot(slot) => if slot < top { v := stack[slot]; } else { v := Data(0); }
      case Own => v := upvalue.closed;
    }

    method WriteUpvalue(id: nat, v: Value)
      requires Valid() && id < |heap|
      modifies heap, stack
      ensures View() == Upvalues.WriteUpvalue(old(View()), id, v) && StacksOk()
    {
      hide ListOk, Linked, Views, Nexts;
      Addresses();
      var upvalue := heap[id];
      match upvalue.location
      case Slot(slot) =>
        if slot < top { stack[slot] := v; }
        assert Views(heap) == old(Views(heap));
      case Own =>
        upvalue.closed := v;
        assert Views(heap) == old(Views(heap))[id := Upvalue.Closed(v)];
        assert Nexts(heap) == old(Nexts(heap));
    }

    /** One descriptor of OP_CLOSURE. */
    method FillUpvalue(f: Frame, d: Descriptor) returns (id: nat)
      requires Valid() && FillOk(|View().stack|, View().closures, f, d)
      modifies this`heap, this`list, this`openUpvalues, heap
      ensures Valid() && (View(), id) == Fill(old(View()), f, d)
      ensures fresh(set u | u in heap && u !in old(heap))
    {
      hide Views, Nexts, ListOk, Linked, Capture;
      if d.isLocal {
        id := CaptureUpvalue(f.base + d.index);
      } else {
        id := closures[f.closure].upvalues[d.index];
      }
    }

    /** The loop of OP_CLOSURE over the descriptors of the new closure. */
    method FillUpvalues(f: Frame, ds: seq<Descriptor>) returns (ids: seq<nat>)
      requires Valid() && AllFillOk(|View().stack|, View().closures, f, ds)
      modifies this`heap, this`list, this`openUpvalues, heap
      ensures Valid() && (View(), ids) == FillAll(old(View()), f, ds)
    {
      hide *;
      ghost var m := View();
      ids := [];
      var i := 0;
      FillStart(m, f, ds);
      while i < |ds|
        invariant 0 <= i <= |ds| && Valid()
        invariant AllFillOk(|View().stack|, View().closures, f, ds[i..])
        invariant fresh(set u | u in heap && u !in old(heap))
        invariant FillAll(m, f, ds) == FillOn(View(), f, ids, ds[i..])
      {
        FillStep(View(), f, ids, ds, i);
        var id := FillUpvalue(f, ds[i]);
        ids := ids + [id];
        i := i + 1;
      }
      FillEnd(View(), f, ids, ds);
    }

    // ---- The instructions ----

    /** One instruction: the machine of module Upvalues, on these objects. */
    method Execute(op: Op) returns (ok: bool)
      requires Valid() && RefsOk(View()) && Disciplined(View(), op)
      modifies this, stack, heap
      ensures ok == Upvalues.Execute(old(View()), op).Go?
      ensures ok ==> Valid() && RefsOk(View()) && View() == Upvalues.Execute(old(View()), op).m
    {
      hide *;
      InOrder();
      StepKeepsList(View(), op);
      StepKeepsRefs(View(), op);
      if frames == [] {
        NoFrames(op);
        return false;
      }
      ghost var expected := Upvalues.Execute(View(), op);
      match op {
        case Push(v) => ok := ExecutePush(v);
        case Pop => ok := ExecutePop();
        case CloseUpvalue => ok := ExecuteClose();
        case GetLocal(slot) => ok := ExecuteGetLocal(slot);
        case SetLocal(slot) => ok := ExecuteSetLocal(slot);
        case GetUpvalue(j) => ok := ExecuteGetUpvalue(j);
        case SetUpvalue(j) => ok := ExecuteSetUpvalue(j);
        case MakeClosure(arity, ds) => ok := ExecuteClosure(arity, ds);
        case Call(argc) => ok := ExecuteCall(argc);
        case Return => ok := ExecuteReturn();
      }
      if ok {
        assert View() == expected.m;
        Restored();
      }
    }

    lemma NoFrames(op: Op)
      requires frames == []
      ensures Upvalues.Execute(View(), op) == Stop
    {
    }

    lemma InOrder()
      requires Valid()
      ensures ListOk(View())
    {
    }

    lemma Restored()
      requires StacksOk() && ListOk(View())
      ensures Valid()
    {
    }

    method ExecutePush(v: Value) returns (ok: bool)
      requires Valid() && frames != []
      modifies this`top, stack
      ensures ok == Upvalues.Execute(old(View()), Push(v)).Go?
      ensures ok ==> View() == Upvalues.Execute(old(View()), Push(v)).m && StacksOk()
    {
      hide Views, Nexts, ListOk, Linked;
      ok := PushValue(v);
    }

    method ExecutePop() returns (ok: bool)
      requires Valid() && frames != []
      modifies this`top
      ensures ok == Upvalues.Execute(old(View()), Pop).Go?
      ensures ok ==> View() == Upvalues.Execute(old(View()), Pop).m && StacksOk()
    {
      hide Views, Nexts, ListOk, Linked;
      if top == 0 { return false; }
      top := top - 1;
      assert stack[..top] == old(stack[..top])[..top];
      ok := true;
    }

    method ExecuteClose() returns (ok: bool)
      requires Valid() && frames != []
      modifies this, heap
      ensures ok == Upvalues.Execute(old(View()), CloseUpvalue).Go?
      ensures ok ==> View() == Upvalues.Execute(old(View()), CloseUpvalue).m && StacksOk()
    {
      hide Views, Nexts, ListOk, Linked, CloseFrom;
      if top == 0 { return false; }
      CloseUpvalues(top - 1);
      top := top - 1;
      assert stack[..top] == old(stack[..top])[..top];
      ok := true;
    }

    method ExecuteGetLocal(slot: nat) returns (ok: bool)
      requires Valid() && frames != []
      modifies this`top, stack
      ensures ok == Upvalues.Execute(old(View()), GetLocal(slot)).Go?
      ensures ok ==> View() == Upvalues.Execute(old(View()), GetLocal(slot)).m && StacksOk()
    {
      hide Views, Nexts, ListOk, Linked;
      var at := frames[|frames| - 1].base + slot;
      if at >= top { return false; }
      ok := PushValue(stack[at]);
    }

    method ExecuteSetLocal(slot: nat) returns (ok: bool)
      requires Valid() && frames != []
      modifies stack
      ensures ok == Upvalues.Execute(old(View()), SetLocal(slot)).Go?
      ensures ok ==> View() == Upvalues.Execute(old(View()), SetLocal(slot)).m && StacksOk()
    {
      hide Views, Nexts, ListOk, Linked;
      var at := frames[|frames| - 1].base + slot;
      if at >= top { return false; }
      stack[at] := stack[top - 1];
      assert stack[..top] == old(stack[..top])[at := old(stack[top - 1])];
      ok := true;
    }

    method ExecuteGetUpvalue(j: nat) returns (ok: bool)
      requires Valid() && RefsOk(View()) && frames != []
      modifies this`top, stack
      ensures ok == Upvalues.Execute(old(View()), GetUpvalue(j)).Go?
      ensures ok ==> View() == Upvalues.Execute(old(View()), GetUpvalue(j)).m && StacksOk()
    {
      hide Views, Nexts, ListOk, Linked, Upvalues.ReadUpvalue;
      var k := frames[|frames| - 1].closure;
      if k >= |closures| || j >= |closures[k].upvalues| { return false; }
      var v := ReadUpvalue(closures[k].upvalues[j]);
      ok := PushValue(v);
    }

    method ExecuteSetUpvalue(j: nat) returns (ok: bool)
      requires Valid() && RefsOk(View()) && frames != []
      modifies stack, heap
      ensures ok == Upvalues.Execute(old(View()), SetUpvalue(j)).Go?
      ensures ok ==> View() == Upvalues.Execute(old(View()), SetUpvalue(j)).m && StacksOk()
    {
      hide Views, Nexts, ListOk, Linked, Upvalues.WriteUpvalue;
      var k := frames[|frames| - 1].closure;
      if k >= |closures| || j >= |closures[k].upvalues| || top == 0 { return false; }
      WriteUpvalue(closures[k].upvalues[j], stack[top - 1]);
      ok := true;
    }

    /** OP_CLOSURE: the closure object is pushed first, then its upvalues are filled. */
    method ExecuteClosure(arity: nat, ds: seq<Descriptor>) returns (ok: bool)
      requires Valid() && frames != []
      modifies this, stack, heap
      ensures ok == Upvalues.Execute(old(View()), MakeClosure(arity, ds)).Go?
      ensures ok ==> View() == Upvalues.Execute(old(View()), MakeClosure(arity, ds)).m && StacksOk()
    {
      hide Views, Nexts, ListOk, Linked, FillAll, AllFillOk;
      var f := frames[|frames| - 1];
      if top >= STACK_MAX || !AllFillOk(top + 1, closures, f, ds) { return false; }
      PushKeepsList(View(), Closure(|closures|));
      var pushed := PushValue(Closure(|closures|));
      var ids := FillUpvalues(f, ds);
      closures := closures + [ClosureObject(arity, ids)];
      ok := true;
    }

    method ExecuteCall(argc: nat) returns (ok: bool)
      requires Valid() && frames != []
      modifies this`frames
      ensures ok == Upvalues.Execute(old(View()), Call(argc)).Go?
      ensures ok ==> View() == Upvalues.Execute(old(View()), Call(argc)).m && StacksOk()
    {
      hide Views, Nexts, ListOk, Linked;
      if top < argc + 1 { return false; }
      var callee := stack[top - argc - 1];
      if !CallOk(callee, argc, closures, frames) { return false; }
      frames := frames + [Frame(top - argc - 1, callee.id)];
      ok := true;
    }

    method ExecuteReturn() returns (ok: bool)
      requires Valid() && frames != []
      modifies this, stack, heap
      ensures ok == Upvalues.Execute(old(View()), Return).Go?
      ensures ok ==> View() == Upvalues.Execute(old(View()), Return).m && StacksOk()
    {
      hide Views, Nexts, ListOk, Linked, CloseFrom;
      var f := frames[|frames| - 1];
      if top == 0 || |frames| == 1 || f.base >= top { return false; }
      var result := stack[top - 1];
      CloseUpvalues(f.base);
      DropFrame(f.base, result);
      ok := true;
    }

    /** The frame goes, and the result takes the place of the called closure. */
    method DropFrame(base: nat, result: Value)
      requires StacksOk() && frames != [] && base < top
      modifies this`frames, this`top, stack
      ensures StacksOk()
      ensures var m := old(View());
              View() == m.(stack := m.stack[..base] + [result], frames := m.frames[..|m.frames| - 1])
    {
      hide Views, Nexts, ListOk, Linked;
      ghost var before := stack[..top];
      frames := frames[..|frames| - 1];
      stack[base] := result;
      top := base + 1;
      assert stack[..top] == before[..base] + [result];
    }
  }

  /** The rest of the descriptors, with the upvalues filled so far in front. */
  ghost function FillOn(m: Machine, f: Frame, ids: seq<nat>, ds: seq<Descriptor>): (Machine, seq<nat>)
    requires AllFillOk(|m.stack|, m.closures, f, ds)
  {
    (FillAll(m, f, ds).0, ids + FillAll(m, f, ds).1)
  }

  lemma FillStart(m: Machine, f: Frame, ds: seq<Descriptor>)
    requires AllFillOk(|m.stack|, m.closures, f, ds)
    ensures ds[0..] == ds && FillAll(m, f, ds) == FillOn(m, f, [], ds)
  {
    assert [] + FillAll(m, f, ds).1 == FillAll(m, f, ds).1;
  }

  lemma FillStep(m: Machine, f: Frame, ids: seq<nat>, ds: seq<Descriptor>, i: nat)
    requires i < |ds| && AllFillOk(|m.stack|, m.closures, f, ds[i..])
    ensures FillOk(|m.stack|, m.closures, f, ds[i])
    ensures var (m', id) := Fill(m, f, ds[i]);
            && AllFillOk(|m'.stack|, m'.closures, f, ds[i + 1..])
            && FillOn(m, f, ids, ds[i..]) == FillOn(m', f, ids + [id], ds[i + 1..])
  {
    hide Capture;
    assert ds[i..][0] == ds[i] && ds[i..][1..] == ds[i + 1..] && ds[i] in ds[i..];
    var (m', id) := Fill(m, f, ds[i]);
    forall d | d in ds[i + 1..] ensures d in ds[i..] { assert d in ds[i..][1..]; }
    Concat(ids, id, FillAll(m', f, ds[i + 1..]).1);
  }

  lemma FillEnd(m: Machine, f: Frame, ids: seq<nat>, ds: seq<Descriptor>)
    ensures AllFillOk(|m.stack|, m.closures, f, ds[|ds|..]) && FillOn(m, f, ids, ds[|ds|..]) == (m, ids)
  {
    assert ids + [] == ids;
  }

  lemma Concat(a: seq<nat>, x: nat, b: seq<nat>)
    ensures a + [x] + b == a + ([x] + b)
  {
  }

  lemma CloseParts(m: Machine, last: nat)
    ensures CloseFrom(m, last) ==
            if m.open == [] || SlotOf(m.upvalues, m.open[0]) < last then m
            else
              var id := m.open[0];
              var v := ReadSlot(m.stack, SlotOf(m.upvalues, id));
              CloseFrom(m.(upvalues := if id < |m.upvalues| then m.upvalues[id := Upvalue.Closed(v)] else m.upvalues,
                           open := m.open[1..]), last)
  {
  }
}
