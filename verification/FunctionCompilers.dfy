/** The Compiler structs of src/compiler.c, one per function being compiled, each pointing at the one
    around it: name resolution in place, proved to be the functions of module Resolution. */
module FunctionCompilers {
  import opened Upvalues
  import opened Resolution

  class FnCompiler {
    const enclosing: FnCompiler?
    const locals: array<Local>
    var localCount: nat
    const upvalues: array<Descriptor>
    var upvalueCount: nat         // a byte
    ghost const Repr: set<object>

    /** The fields of this function alone. */
    ghost predicate InBounds()
      reads this
    {
      && locals.Length == MAX_LOCALS && localCount <= MAX_LOCALS
      && upvalues.Length == MAX_UPVALUES && upvalueCount < 256
    }

    ghost predicate Valid()
      reads this, Repr
      decreases Repr
    {
      && this in Repr && locals in Repr && upvalues in Repr && InBounds()
      && (enclosing != null ==>
            && enclosing in Repr && enclosing.Repr < Repr
            && this !in enclosing.Repr && locals !in enclosing.Repr && upvalues !in enclosing.Repr
            && enclosing.Valid())
    }

    ghost function Head(): (fn: Fn)
      requires InBounds()
      reads this, locals, upvalues
      ensures FnOk(fn)
    {
      Fn(locals[..localCount], upvalues[..], upvalueCount)
    }

    /** This function and those around it. */
    ghost function Chain(): (chain: seq<Fn>)
      requires Valid()
      reads this, Repr
      ensures chain != [] && ChainOk(chain)
      decreases Repr
    {
      [Head()] + if enclosing == null then [] else enclosing.Chain()
    }

    /** init_compiler: slot 0 is taken by the function itself, under a name no identifier has. */
    constructor (enclosing: FnCompiler?)
      requires enclosing != null ==> enclosing.Valid()
      ensures Valid() && this.enclosing == enclosing
      ensures Chain() == [Head()] + if enclosing == null then [] else enclosing.Chain()
      ensures Head().locals == [Local("", true, false)] && Head().count == 0
    {
      var ls := new Local[MAX_LOCALS](_ => Local("", true, false));
      var us := new Descriptor[MAX_UPVALUES](_ => Descriptor(false, 0));
      this.enclosing, locals, localCount, upvalues, upvalueCount := enclosing, ls, 1, us, 0;
      Repr := {this, ls, us} + if enclosing == null then {} else enclosing.Repr;
      new;
      assert locals[..1] == [Local("", true, false)];
    }

    /** resolve_local: from the last local down; reading a variable in its own initialiser is an error. */
    method ResolveLocal(name: string) returns (i: int, error: bool)
      requires Valid()
      ensures i == Resolution.ResolveLocal(Head().locals, name)
      ensures error == (i >= 0 && !Head().locals[i].ready)
    {
      hide Resolution.ResolveLocal;
      i := localCount - 1;
      ghost var all := locals[..localCount];
      LookDown(all, localCount, name);
      assert all[..localCount] == all;
      while i >= 0
        invariant -1 <= i < localCount
        invariant Resolution.ResolveLocal(all, name) == Resolution.ResolveLocal(all[..i + 1], name)
      {
        LookDown(all, i + 1, name);
        if locals[i].name == name {
          return i, !locals[i].ready;
        }
        i := i - 1;
      }
      LookDown(all, 0, name);
      error := false;
    }

    /** add_upvalue: the index of the descriptor, added if it is new. */
    method AddUpvalue(index: nat, isLocal: bool) returns (i: nat)
      requires Valid()
      modifies upvalues, this`upvalueCount
      ensures Valid() && (Head(), i) == Resolution.AddUpvalue(old(Head()), Descriptor(isLocal, index))
    {
      ghost var d := Descriptor(isLocal, index);
      i := 0;
      while i < upvalueCount
        invariant i <= upvalueCount
        invariant Find(upvalues[..], upvalueCount, d, 0) == Find(upvalues[..], upvalueCount, d, i)
      {
        if upvalues[i].index == index && upvalues[i].isLocal == isLocal { return; }
        i := i + 1;
      }
      upvalues[upvalueCount] := Descriptor(isLocal, index);
      assert upvalues[..] == old(upvalues[..])[old(upvalueCount) := d];
      i := upvalueCount;
      upvalueCount := (upvalueCount + 1) % 256;
    }

    method MarkCaptured(i: nat)
      requires Valid() && i < localCount
      modifies locals
      ensures Valid()
      ensures Head() == old(Head()).(locals := old(Head()).locals[i := old(Head()).locals[i].(captured := true)])
    {
      locals[i] := locals[i].(captured := true);
      assert locals[..localCount] == old(locals[..localCount])[i := old(locals[i]).(captured := true)];
    }

    /** resolve_upvalue: -1 if no enclosing function has a local with the name. */
    method ResolveUpvalue(name: string) returns (index: int, error: bool)
      requires Valid()
      modifies Repr
      ensures Valid()
      ensures Resolved(Chain(), index, error) == Resolution.ResolveUpvalue(old(Chain()), name)
      decreases Repr
    {
      hide Resolution.ResolveLocal, Resolution.AddUpvalue;
      if enclosing == null { return -1, false; }
      ghost var chain := Chain();
      assert chain[1..] == enclosing.Chain();
      var local, early := enclosing.ResolveLocal(name);
      if local != -1 {
        index := CaptureLocal(local);
        error := early;
        return;
      }
      index, error := enclosing.ResolveUpvalue(name);
      if index != -1 {
        index := AddUpvalue(index, false);
      }
    }

    /** A local of the enclosing function is captured. */
    method CaptureLocal(local: nat) returns (index: nat)
      requires Valid() && enclosing != null && local < enclosing.localCount
      modifies Repr
      ensures Valid()
      ensures |old(Chain())| > 1
      ensures var chain := old(Chain());
              var outer := chain[1];
              var (fn, i) := Resolution.AddUpvalue(chain[0], Descriptor(true, local));
              && index == i && local < |outer.locals|
              && Chain() == [fn, outer.(locals := outer.locals[local := outer.locals[local].(captured := true)])] + chain[2..]
    {
      hide Resolution.AddUpvalue, Chain, Head;
      TwoHeads();
      ghost var fn, outer, further := Head(), enclosing.Head(), ChainFrom(enclosing.enclosing);
      enclosing.MarkCaptured(local);
      assert Head() == fn && ChainFrom(enclosing.enclosing) == further;
      index := AddUpvalue(local, true);
      assert enclosing.Head() == outer.(locals := outer.locals[local := outer.locals[local].(captured := true)]);
      TwoHeads();
      assert ([fn, outer] + further)[2..] == further;
    }

    /** The functions from this one out, if there are any. */
    static ghost function ChainFrom(fn: FnCompiler?): seq<Fn>
      requires fn != null ==> fn.Valid()
      reads if fn == null then {} else {fn} + fn.Repr
    {
      if fn == null then [] else fn.Chain()
    }

    lemma TwoHeads()
      requires Valid() && enclosing != null
      ensures enclosing.Valid() && (enclosing.enclosing != null ==> enclosing.enclosing.Valid())
      ensures Chain() == [Head(), enclosing.Head()] + ChainFrom(enclosing.enclosing)
      ensures |enclosing.Head().locals| == enclosing.localCount
    {
    }
  }

  lemma LookDown(locals: seq<Local>, n: nat, name: string)
    requires n <= |locals|
    ensures Resolution.ResolveLocal(locals[..n], name) ==
            if n == 0 then -1 else if locals[n - 1].name == name then n - 1
            else Resolution.ResolveLocal(locals[..n - 1], name)
  {
    if n > 0 { assert locals[..n][..n - 1] == locals[..n - 1]; }
  }
}
