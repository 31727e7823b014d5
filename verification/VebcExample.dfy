/** A small .vebc file, byte by byte (src/vebc_writer.c): one function with a constant of every kind. */
module VebcExample {
  import opened Bytes
  import opened Options
  import opened Vebc

  /** fn f with one parameter: two bytes of code on lines 3 and 4, and the constants 5, 1.0, "x", a blob and a
      function. */
  function F(): Function {
    Function(Some([102]), 1, 0, [1, 38], [3, 4],
             [Int(5), Float(0x3FF0_0000_0000_0000), Str([120]), Blob([7]), Fn])
  }

  function Built(): Builder {
    Builder([[102], [120]],
            [IntC(5), FloatC(0x3FF0_0000_0000_0000), StrC(1), BlobC([7]), FuncC(0)],
            [Entry(0, 17, 1, 0, 0, 2, 0, 2)], [], [1, 38], [LineEntry(0, 3), LineEntry(1, 4)], [])
  }

  lemma RunsOfF()
    ensures Runs([3, 4], 0, -1) == [LineEntry(0, 3), LineEntry(1, 4)]
  {
    assert Runs([3, 4], 2, 4) == [];
    assert Runs([3, 4], 1, 3) == [LineEntry(1, 4)];
  }

  lemma StringsOfF()
    ensures AddString([], [102]) == ([[102]], 0) && AddString([[102]], [120]) == ([[102], [120]], 1)
  {
    var a: Text, b: Text := [102], [120];
    assert a[0] != b[0];
    assert IndexOf([], a) == 0;
    assert IndexOf([a], b) == 1 by { assert [a][0] != b; }
    assert [a] + [b] == [a, b] && [] + [a] == [a];
  }

  lemma ConstantsOfF(b: Builder)
    requires b.strings == [[102]] && b.constants == [] && b.functions == []
    ensures AddConstants(b, F().constants) ==
            b.(strings := [[102], [120]], constants := [IntC(5), FloatC(0x3FF0_0000_0000_0000), StrC(1), BlobC([7]), FuncC(0)])
  {
    hide *;
    StringsOfF();
    var vs := F().constants;
    TailsOfF();
    var b1 := b.(constants := [IntC(5)]);
    var b2 := b.(constants := [IntC(5), FloatC(0x3FF0_0000_0000_0000)]);
    var b3 := b2.(strings := [[102], [120]], constants := [IntC(5), FloatC(0x3FF0_0000_0000_0000), StrC(1)]);
    var b4 := b3.(constants := [IntC(5), FloatC(0x3FF0_0000_0000_0000), StrC(1), BlobC([7])]);
    var b5 := b3.(constants := [IntC(5), FloatC(0x3FF0_0000_0000_0000), StrC(1), BlobC([7]), FuncC(0)]);
    OneConstant(b, vs, b1) by { AddedTo(b, vs[0]); }
    OneConstant(b1, vs[1..], b2) by { AddedTo(b1, vs[1]); }
    OneConstant(b2, vs[2..], b3) by { AddedTo(b2, vs[2]); }
    OneConstant(b3, vs[3..], b4) by { AddedTo(b3, vs[3]); }
    OneConstant(b4, vs[4..], b5) by { AddedTo(b4, vs[4]); }
    NoConstants(b5);
  }

  lemma NoConstants(b: Builder)
    ensures AddConstants(b, []) == b
  {
  }

  lemma TailsOfF()
    ensures var vs := F().constants;
            && |vs| == 5 && vs[0] == Int(5) && vs[1] == Float(0x3FF0_0000_0000_0000) && vs[2] == Str([120]) && vs[3] == Blob([7])
            && vs[4] == Fn
            && vs[1..][0] == vs[1] && vs[2..][0] == vs[2] && vs[3..][0] == vs[3] && vs[4..][0] == vs[4]
            && vs[1..][1..] == vs[2..] && vs[2..][1..] == vs[3..] && vs[3..][1..] == vs[4..] && vs[4..][1..] == []
  {
  }

  lemma AddedTo(b: Builder, v: Value)
    ensures v.Int? ==> AddConstant(b, v) == b.(constants := b.constants + [IntC(v.n)])
    ensures v.Float? ==> AddConstant(b, v) == b.(constants := b.constants + [FloatC(v.bits)])
    ensures v.Str? ==> AddConstant(b, v) ==
                       b.(strings := AddString(b.strings, v.s).0, constants := b.constants + [StrC(AddString(b.strings, v.s).1)])
    ensures v.Blob? ==> AddConstant(b, v) == b.(constants := b.constants + [BlobC(v.s)])
    ensures v.Fn? ==> AddConstant(b, v) == b.(constants := b.constants + [FuncC(|b.functions|)])
  {
    hide AddString;
  }

  lemma OneConstant(b: Builder, vs: seq<Value>, next: Builder)
    requires vs != [] && |b.constants| < 100 && AddConstant(b, vs[0]) == next
    ensures AddConstants(b, vs) == AddConstants(next, vs[1..])
  {
    hide AddConstant;
  }

  lemma BuiltFromF()
    ensures Build([AddFn(F())]) == Built()
  {
    hide AddConstants, Runs, AddString;
    RunsOfF();
    StringsOfF();
    var b := EMPTY.(strings := [[102]], instructions := [1, 38], lines := [LineEntry(0, 3), LineEntry(1, 4)]);
    ConstantsOfF(b);
    assert [AddFn(F())][..0] == [];
    assert Build([]) == EMPTY;
    assert [] + F().code == F().code && [] + Runs(F().lines, 0, -1) == Runs(F().lines, 0, -1);
    assert AddFunction(EMPTY, F()) == AddConstants(b, F().constants).(functions := [] + Built().functions);
  }

  // ---- The bytes ----

  /** Each kind of constant: a tag and its content, with the low byte first. */
  lemma ConstantTable()
    ensures Table(ConstantBytes, Built().constants) ==
            [1, 5, 0, 0, 0, 0, 0, 0, 0] + [2, 0, 0, 0, 0, 0, 0, 0xF0, 0x3F] + [3, 1, 0, 0, 0] + [4, 1, 0, 0, 0, 7] + [5, 0, 0, 0, 0]
  {
    hide ConstantBytes;
    var xs := Built().constants;
    EachConstant();
    assert xs[1..][1..] == xs[2..] && xs[2..][1..] == xs[3..] && xs[3..][1..] == xs[4..] && xs[4..][1..] == [];
    TableStep(ConstantBytes, xs);
    TableStep(ConstantBytes, xs[1..]);
    TableStep(ConstantBytes, xs[2..]);
    TableStep(ConstantBytes, xs[3..]);
    TableStep(ConstantBytes, xs[4..]);
    NoTable(ConstantBytes);
  }

  lemma EachConstant()
    ensures ConstantBytes(IntC(5)) == [1, 5, 0, 0, 0, 0, 0, 0, 0]
    ensures ConstantBytes(FloatC(0x3FF0_0000_0000_0000)) == [2, 0, 0, 0, 0, 0, 0, 0xF0, 0x3F]
    ensures ConstantBytes(StrC(1)) == [3, 1, 0, 0, 0] && ConstantBytes(FuncC(0)) == [5, 0, 0, 0, 0]
    ensures ConstantBytes(BlobC([7])) == [4, 1, 0, 0, 0, 7]
  {
  }

  lemma TableStep<T>(f: T -> Text, xs: seq<T>)
    requires xs != []
    ensures Table(f, xs) == f(xs[0]) + Table(f, xs[1..])
  {
  }

  lemma NoTable<T>(f: T -> Text)
    ensures Table(f, []) == []
  {
  }

  lemma OneRow<T>(f: T -> Text, x: T)
    ensures Table(f, [x]) == f(x)
  {
    TableStep(f, [x]);
    NoTable(f);
    assert [x][1..] == [];
  }

  lemma TwoRows<T>(f: T -> Text, x: T, y: T)
    ensures Table(f, [x, y]) == f(x) + f(y)
  {
    TableStep(f, [x, y]);
    assert [x, y][1..] == [y];
    OneRow(f, y);
  }

  lemma Rows()
    ensures StringBytes([102]) == [1, 0, 0, 0, 102] && StringBytes([120]) == [1, 0, 0, 0, 120]
    ensures EntryBytes(Entry(0, 17, 1, 0, 0, 2, 0, 2)) ==
            [0, 0, 0, 0, 17, 0, 1, 0, 0, 0, 0, 0, 2, 0, 0, 0, 0, 0, 0, 0, 2, 0, 0, 0]
    ensures LineBytes(LineEntry(0, 3)) == [0, 0, 0, 0, 3, 0, 0, 0] && LineBytes(LineEntry(1, 4)) == [1, 0, 0, 0, 4, 0, 0, 0]
  {
  }

  lemma Counts()
    ensures U32(0) == [0, 0, 0, 0] && U32(1) == [1, 0, 0, 0] && U32(2) == [2, 0, 0, 0] && U32(5) == [5, 0, 0, 0]
  {
  }

  /** The sections in their order: constants, strings, functions, upvalues, instructions, lines, assets. */
  lemma BodyOfF()
    ensures Body(Built()) ==
            [5, 0, 0, 0] + Table(ConstantBytes, Built().constants) +
            [2, 0, 0, 0] + [1, 0, 0, 0, 102] + [1, 0, 0, 0, 120] +
            [1, 0, 0, 0] + [0, 0, 0, 0, 17, 0, 1, 0, 0, 0, 0, 0, 2, 0, 0, 0, 0, 0, 0, 0, 2, 0, 0, 0] +
            [0, 0, 0, 0] +
            [2, 0, 0, 0] + [1, 38] +
            [2, 0, 0, 0] + [0, 0, 0, 0, 3, 0, 0, 0] + [1, 0, 0, 0, 4, 0, 0, 0] +
            [0, 0, 0, 0]
  {
    hide U32, ConstantBytes, StringBytes, EntryBytes, UpvalueBytes, LineBytes, AssetBytes, Table;
    Rows();
    Counts();
    TwoRows<Text>(StringBytes, [102], [120]);
    OneRow(EntryBytes, Entry(0, 17, 1, 0, 0, 2, 0, 2));
    TwoRows(LineBytes, LineEntry(0, 3), LineEntry(1, 4));
    NoTable(UpvalueBytes);
    NoTable(AssetBytes);
  }

  /** All of it. */
  function SectionBytes(): Text {
    [5, 0, 0, 0] +
    ([1, 5, 0, 0, 0, 0, 0, 0, 0] + [2, 0, 0, 0, 0, 0, 0, 0xF0, 0x3F] + [3, 1, 0, 0, 0] + [4, 1, 0, 0, 0, 7] + [5, 0, 0, 0, 0]) +
    [2, 0, 0, 0] + [1, 0, 0, 0, 102] + [1, 0, 0, 0, 120] +
    [1, 0, 0, 0] + [0, 0, 0, 0, 17, 0, 1, 0, 0, 0, 0, 0, 2, 0, 0, 0, 0, 0, 0, 0, 2, 0, 0, 0] +
    [0, 0, 0, 0] +
    [2, 0, 0, 0] + [1, 38] +
    [2, 0, 0, 0] + [0, 0, 0, 0, 3, 0, 0, 0] + [1, 0, 0, 0, 4, 0, 0, 0] +
    [0, 0, 0, 0]
  }

  lemma SectionsOfF()
    ensures Body(Built()) == SectionBytes()
  {
    hide Body, Table, ConstantBytes, Built;
    BodyOfF();
    ConstantTable();
  }

  /** The whole file: VEBC, version 1, no flags, the digest of what follows the header, 24 zero bytes, and the sections. */
  lemma FileOfF(sha: Text -> Digest)
    ensures File(sha, Build([AddFn(F())])) ==
            ['V' as int, 'E' as int, 'B' as int, 'C' as int, 1, 0, 0, 0] +
            (sha(SectionBytes()) + (seq(24, _ => 0) + SectionBytes()))
  {
    hide Body, Build, Built, SectionBytes;
    BuiltFromF();
    SectionsOfF();
  }

  // ---- The limits of a builder ----

  /** 4096 strings: a new one beyond them gets index 0. */
  lemma StringLimit(strings: seq<Text>, t: Text)
    requires t !in strings
    ensures AddString(strings, t) == if |strings| < 4096 then (strings + [t], |strings|) else (strings, 0)
  {
    assert IndexOf(strings, t) == |strings|;
  }

  /** 4096 constants: of more integers than there is room for, the first ones are kept. */
  lemma {:induction false} ConstantLimit(b: Builder, n: Int48, count: nat)
    requires |b.constants| <= 4096
    ensures var vs := seq(count, _ => Int(n));
            |AddConstants(b, vs).constants| == if |b.constants| + count < 4096 then |b.constants| + count else 4096
    decreases count
  {
    var vs := seq(count, _ => Int(n));
    if count > 0 && |b.constants| < 4096 {
      assert vs[1..] == seq(count - 1, _ => Int(n));
      ConstantLimit(b.(constants := b.constants + [IntC(n)]), n, count - 1);
    }
  }

  /** 1024 functions and 1024 assets: more are not added. */
  lemma FunctionLimit(b: Builder, fn: Function, path: Text, data: Text)
    ensures |AddFunction(b, fn).functions| == |b.functions| + if |b.functions| < 1024 then 1 else 0
    ensures |AddAsset(b, path, data).assets| == |b.assets| + if |b.assets| < 1024 then 1 else 0
  {
    hide AddString, Runs;
    forall x: Builder ensures AddConstants(x, fn.constants).functions == x.functions { ConstantsKeepFunctions(x, fn.constants); }
  }

  lemma {:induction false} ConstantsKeepFunctions(b: Builder, vs: seq<Value>)
    ensures AddConstants(b, vs).functions == b.functions
    decreases |vs|
  {
    hide AddString;
    if vs != [] && |b.constants| < MAX_CONSTANTS { ConstantsKeepFunctions(AddConstant(b, vs[0]), vs[1..]); }
  }
}
