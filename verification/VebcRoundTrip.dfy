/** Writing a .vebc file and loading it back (src/vebc_writer.c, src/vebc_loader.c) returns the first function. */
module VebcRoundTrip {
  import opened Bytes
  import opened Options
  import opened Values
  import opened Vebc

  // ---- Parts of a file ----

  predicate At(data: Text, pos: nat, x: Text) {
    pos + |x| <= |data| && data[pos..pos + |x|] == x
  }

  lemma AtSplit(data: Text, pos: nat, x: Text, y: Text)
    requires At(data, pos, x + y)
    ensures At(data, pos, x) && At(data, pos + |x|, y)
  {
    var whole := data[pos..pos + |x + y|];
    assert whole[..|x|] == x && whole[|x|..] == y;
    assert data[pos..pos + |x|] == whole[..|x|];
    assert data[pos + |x|..pos + |x| + |y|] == whole[|x|..];
  }

  lemma CountAt(data: Text, pos: nat, n: nat)
    requires At(data, pos, U32(n)) && n < TWO_32
    ensures Count(data, pos) == Some(n)
  {
    hide U32, FromU32;
    U32RoundTrip(n);
  }

  // ---- Constants ----

  predicate ConstantFits(c: Constant) {
    (c.BlobC? ==> |c.s| < TWO_32) && (c.StrC? ==> c.index < TWO_32)
  }

  /** The value a constant is loaded as. */
  function Meaning(c: Constant, strings: seq<Text>): Value {
    match c
    case IntC(n) => Int(n)
    case FloatC(bits) => Float(bits)
    case StrC(index) => if index < |strings| then Str(strings[index]) else Nil
    case FuncC(_) => Nil
    case BlobC(s) => Blob(s)
  }

  function Meanings(cs: seq<Constant>, strings: seq<Text>): (r: seq<Value>)
    ensures |r| == |cs| && forall i :: 0 <= i < |r| ==> r[i] == Meaning(cs[i], strings)
  {
    seq(|cs|, i requires 0 <= i < |cs| => Meaning(cs[i], strings))
  }

  lemma U64RoundTrip(w: Word)
    ensures ReadU64(U64(w)) == w
  {
    hide U32, FromU32;
    var low, high := w % TWO_32, w / TWO_32;
    U32RoundTrip(low);
    U32RoundTrip(high);
    assert U64(w)[..4] == U32(low) && U64(w)[4..] == U32(high);
    assert w == low + TWO_32 * high;
  }

  lemma IntRoundTrip(n: Int48)
    ensures Wrap48(ToSigned64(ToUnsigned64(n))) == n
  {
    Wrap48Unique(n, n);
  }

  lemma SkipConstantAt(data: Text, pos: nat, c: Constant)
    requires At(data, pos, ConstantBytes(c)) && ConstantFits(c)
    ensures SkipConstant(data, pos) == Some(pos + |ConstantBytes(c)|)
  {
    hide U32, U64, Count, FromU32;
    var x := ConstantBytes(c);
    AtSplit(data, pos, [x[0]], x[1..]);
    assert [x[0]] + x[1..] == x && data[pos] == data[pos..pos + |x|][0];
    if c.BlobC? {
      assert x[1..] == U32(|c.s|) + c.s;
      AtSplit(data, pos + 1, U32(|c.s|), c.s);
      CountAt(data, pos + 1, |c.s|);
    }
  }

  lemma ReadConstantAt(data: Text, pos: nat, c: Constant, strings: seq<Text>)
    requires At(data, pos, ConstantBytes(c)) && ConstantFits(c)
    ensures SkipConstant(data, pos).Some? && ReadConstant(data, pos, strings) == Meaning(c, strings)
  {
    hide U32, U64, FromU32, ReadU64, SkipConstant, Wrap48, ToSigned64, ToUnsigned64;
    SkipConstantAt(data, pos, c);
    var x := ConstantBytes(c);
    assert [x[0]] + x[1..] == x && data[pos] == data[pos..pos + |x|][0];
    AtSplit(data, pos, [x[0]], x[1..]);
    match c {
      case IntC(n) =>
        assert x[1..] == U64(ToUnsigned64(n));
        U64RoundTrip(ToUnsigned64(n));
        IntRoundTrip(n);
      case FloatC(bits) =>
        assert x[1..] == U64(bits);
        U64RoundTrip(bits);
      case StrC(index) =>
        assert x[1..] == U32(index);
        U32RoundTrip(index);
      case FuncC(_) =>
      case BlobC(s) =>
        assert x[1..] == U32(|s|) + s;
        AtSplit(data, pos + 1, U32(|s|), s);
        U32RoundTrip(|s|);
    }
  }

  lemma SkipConstantsStep(data: Text, pos: nat, n: nat, after: nat)
    requires SkipConstant(data, pos) == Some(after) && n > 0
    ensures SkipConstants(data, pos, n) == SkipConstants(data, after, n - 1)
  {
    hide SkipConstant;
  }

  lemma ReadConstantsStep(data: Text, pos: nat, n: nat, after: nat, strings: seq<Text>)
    requires SkipConstant(data, pos) == Some(after) && n > 0 && SkipConstants(data, after, n - 1).Some?
    ensures SkipConstants(data, pos, n).Some?
    ensures ReadConstants(data, pos, n, strings) == [ReadConstant(data, pos, strings)] + ReadConstants(data, after, n - 1, strings)
  {
    hide SkipConstant, ReadConstant;
  }

  lemma NoConstants(data: Text, pos: nat, strings: seq<Text>)
    ensures SkipConstants(data, pos, 0) == Some(pos) && ReadConstants(data, pos, 0, strings) == []
  {
  }

  lemma {:induction false} ConstantsAt(data: Text, pos: nat, cs: seq<Constant>, strings: seq<Text>)
    requires At(data, pos, Table(ConstantBytes, cs)) && forall i :: 0 <= i < |cs| ==> ConstantFits(cs[i])
    ensures SkipConstants(data, pos, |cs|) == Some(pos + |Table(ConstantBytes, cs)|)
    ensures ReadConstants(data, pos, |cs|, strings) == Meanings(cs, strings)
    decreases |cs|
  {
    hide ConstantBytes, SkipConstant, ReadConstant, Meaning, ConstantFits, SkipConstants, ReadConstants, At;
    NoConstants(data, pos, strings);
    if cs != [] {
      var after := pos + |ConstantBytes(cs[0])|;
      AtSplit(data, pos, ConstantBytes(cs[0]), Table(ConstantBytes, cs[1..]));
      SkipConstantAt(data, pos, cs[0]);
      ReadConstantAt(data, pos, cs[0], strings);
      ConstantsAt(data, after, cs[1..], strings);
      SkipConstantsStep(data, pos, |cs|, after);
      ReadConstantsStep(data, pos, |cs|, after, strings);
      assert Meanings(cs, strings) == [Meaning(cs[0], strings)] + Meanings(cs[1..], strings);
    }
  }

  // ---- Strings, entries and lines ----

  lemma {:induction false} StringsAt(data: Text, pos: nat, strings: seq<Text>)
    requires At(data, pos, Table(StringBytes, strings)) && forall i :: 0 <= i < |strings| ==> |strings[i]| < TWO_32
    ensures ReadStrings(data, pos, |strings|) == Some((strings, pos + |Table(StringBytes, strings)|))
    decreases |strings|
  {
    hide U32, Count;
    if strings != [] {
      var s := strings[0];
      AtSplit(data, pos, StringBytes(s), Table(StringBytes, strings[1..]));
      AtSplit(data, pos, U32(|s|), s);
      CountAt(data, pos, |s|);
      StringsAt(data, pos + |StringBytes(s)|, strings[1..]);
      assert [s] + strings[1..] == strings;
    }
  }

  predicate EntryFits(e: Entry) {
    && e.name < TWO_32 && e.regs < 65536 && e.codeOffset < TWO_32 && e.codeLength < TWO_32
    && e.lineOffset < TWO_32 && e.lineLength < TWO_32
  }

  lemma EntryParts(e: Entry)
    ensures var s := EntryBytes(e);
            && s[..4] == U32(e.name) && s[4..6] == U16(e.regs) && s[6] == e.params && s[7] == e.upvalues
            && s[8..12] == U32(e.codeOffset) && s[12..16] == U32(e.codeLength)
            && s[16..20] == U32(e.lineOffset) && s[20..24] == U32(e.lineLength)
  {
    hide U32, U16;
  }

  lemma FirstEntryAt(file: Loaded, e: Entry)
    requires file.Valid() && file.funcCount > 0 && At(file.data, file.funcOffset, EntryBytes(e)) && EntryFits(e)
    ensures FirstEntry(file) == e
  {
    hide U32, U16, FromU32, FromU16, EntryBytes, file.Valid;
    EntryParts(e);
    U32RoundTrip(e.name);
    U16RoundTrip(e.regs);
    U32RoundTrip(e.codeOffset);
    U32RoundTrip(e.codeLength);
    U32RoundTrip(e.lineOffset);
    U32RoundTrip(e.lineLength);
    var s := EntryBytes(e);
    assert s[4] == s[4..6][0] && s[5] == s[4..6][1];
  }

  lemma {:induction false} TableSize<T>(f: T -> Text, xs: seq<T>, n: nat)
    requires forall x :: x in xs ==> |f(x)| == n
    ensures |Table(f, xs)| == n * |xs|
    decreases |xs|
  {
    if xs != [] {
      TableSize(f, xs[1..], n);
      assert n * |xs| == n + n * (|xs| - 1);
    }
  }

  lemma {:induction false} LinesAt(data: Text, pos: nat, es: seq<LineEntry>, k: nat)
    requires At(data, pos, Table(LineBytes, es)) && k < |es|
    ensures At(data, pos + 8 * k, LineBytes(es[k]))
    decreases k
  {
    hide LineBytes;
    AtSplit(data, pos, LineBytes(es[0]), Table(LineBytes, es[1..]));
    if k > 0 { LinesAt(data, pos + 8, es[1..], k - 1); }
  }

  predicate LineFits(e: LineEntry) {
    e.offset < TWO_32 && e.line < TWO_32
  }

  lemma ReadLineAt(data: Text, pos: nat, es: seq<LineEntry>, k: nat)
    requires At(data, pos, Table(LineBytes, es)) && k < |es| && LineFits(es[k])
    ensures pos + 8 * k + 8 <= |data| && ReadLine(data, pos, k) == es[k]
  {
    hide U32, FromU32, Table;
    var e := es[k];
    LinesAt(data, pos, es, k);
    AtSplit(data, pos + 8 * k, U32(e.offset), U32(e.line));
    U32RoundTrip(e.offset);
    U32RoundTrip(e.line);
  }

  // ---- Line runs ----

  lemma SignedUnsigned(n: Int32)
    ensures Signed32(Unsigned32(n)) == n
  {
  }

  lemma AdvanceStops(entries: seq<LineEntry>, i: nat, k: nat, line: nat)
    requires k <= |entries| && (k < |entries| ==> entries[k].offset > i)
    ensures Advance(entries, i, k, line) == (k, line)
  {
  }

  lemma AdvanceOne(entries: seq<LineEntry>, i: nat, k: nat, line: nat)
    requires k < |entries| && entries[k].offset <= i && (k + 1 < |entries| ==> entries[k + 1].offset > i)
    ensures Advance(entries, i, k, line) == (k + 1, entries[k].line)
  {
    AdvanceStops(entries, i, k + 1, entries[k].line);
  }

  lemma ExpandStep(entries: seq<LineEntry>, i: nat, n: nat, k: nat, line: nat)
    requires i < n && k <= |entries|
    ensures var (next, now) := Advance(entries, i, k, line);
            Expand(entries, i, n, k, line) == [Signed32(now)] + Expand(entries, i + 1, n, next, now)
  {
    hide Advance, Signed32;
  }

  lemma RunsStep(lines: seq<Int32>, i: nat, previous: Int32)
    requires i < |lines|
    ensures Runs(lines, i, previous) ==
            (if lines[i] != previous then [LineEntry(i, Unsigned32(lines[i]))] else []) + Runs(lines, i + 1, lines[i])
  {
    hide Unsigned32;
  }

  /** From byte i on, with the entries from k on being its runs and `line` the line in force. */
  lemma {:induction false} ExpandRuns(lines: seq<Int32>, entries: seq<LineEntry>, i: nat, previous: Int32, k: nat, line: nat)
    requires i <= |lines| && k <= |entries| && entries[k..] == Runs(lines, i, previous)
    requires i < |lines| && lines[i] == previous ==> Signed32(line) == previous
    ensures Expand(entries, i, |lines|, k, line) == lines[i..]
    decreases |lines| - i
  {
    hide Signed32, Unsigned32, Advance, Expand, Runs;
    if i == |lines| {
      NothingToExpand(entries, i, k, line);
    } else {
      var x := lines[i];
      SignedUnsigned(x);
      RunsStep(lines, i, previous);
      RunsLater(lines, i + 1, x);
      ExpandStep(entries, i, |lines|, k, line);
      if x != previous {
        assert entries[k] == entries[k..][0] && entries[k + 1..] == entries[k..][1..];
        assert k + 1 < |entries| ==> entries[k + 1] == entries[k + 1..][0];
        AdvanceOne(entries, i, k, line);
        ExpandRuns(lines, entries, i + 1, x, k + 1, Unsigned32(x));
      } else {
        assert k < |entries| ==> entries[k] == entries[k..][0];
        AdvanceStops(entries, i, k, line);
        ExpandRuns(lines, entries, i + 1, x, k, line);
      }
    }
  }

  lemma NothingToExpand(entries: seq<LineEntry>, n: nat, k: nat, line: nat)
    requires k <= |entries|
    ensures Expand(entries, n, n, k, line) == []
  {
  }

  lemma RunsLater(lines: seq<Int32>, i: nat, previous: Int32)
    requires i <= |lines|
    ensures Runs(lines, i, previous) != [] ==> Runs(lines, i, previous)[0].offset >= i
  {
  }

  /** The lines as they come back. */
  function Relined(lines: seq<Int32>): seq<Int32> {
    var runs := Runs(lines, 0, -1);
    if runs == [] then NoLines(|lines|) else Expand(runs, 0, |lines|, 0, 1)
  }

  /** The line of every byte comes back exactly when the first one is not -1, the mark that stands before it. */
  lemma LinesRestoredIff(lines: seq<Int32>)
    ensures Relined(lines) == lines <==> lines == [] || lines[0] != -1
  {
    hide Signed32, Unsigned32, Runs, Expand, Advance;
    var runs := Runs(lines, 0, -1);
    if lines == [] {
      RelinedNothing();
    } else if lines[0] != -1 {
      FirstRun(lines);
      assert runs[0..] == runs && lines[0..] == lines;
      ExpandRuns(lines, runs, 0, -1, 0, 1);
    } else {
      UnmarkedStart(lines);
    }
  }

  lemma RelinedNothing()
    ensures Relined([]) == []
  {
  }

  lemma FirstRun(lines: seq<Int32>)
    requires lines != [] && lines[0] != -1
    ensures Runs(lines, 0, -1) != []
  {
  }

  lemma UnmarkedStart(lines: seq<Int32>)
    requires lines != [] && lines[0] == -1
    ensures Relined(lines)[0] != -1
  {
    var runs := Runs(lines, 0, -1);
    assert runs == Runs(lines, 1, -1);
    if runs != [] { assert Advance(runs, 0, 0, 1) == (0, 1); }
  }

  // ---- What later calls keep ----

  predicate Extends(a: Builder, b: Builder) {
    && a.strings <= b.strings && a.constants <= b.constants && a.functions <= b.functions
    && a.instructions <= b.instructions && a.lines <= b.lines && b.upvalues == a.upvalues
  }

  lemma AddConstantExtends(b: Builder, v: Value)
    ensures Extends(b, AddConstant(b, v)) && AddConstant(b, v).functions == b.functions
    ensures AddConstant(b, v).instructions == b.instructions && AddConstant(b, v).lines == b.lines
  {
    hide AddString;
  }

  lemma {:induction false} AddConstantsExtends(b: Builder, vs: seq<Value>)
    ensures Extends(b, AddConstants(b, vs)) && AddConstants(b, vs).functions == b.functions
    ensures AddConstants(b, vs).instructions == b.instructions && AddConstants(b, vs).lines == b.lines
    decreases |vs|
  {
    hide AddConstant;
    if vs != [] && |b.constants| < MAX_CONSTANTS {
      AddConstantExtends(b, vs[0]);
      AddConstantsExtends(AddConstant(b, vs[0]), vs[1..]);
    }
  }

  /** AddFunction in steps: the builder with the code and the lines, and then with the constants. */
  function WithCode(b: Builder, fn: Function): Builder {
    b.(strings := AddString(b.strings, NameOf(fn)).0, instructions := b.instructions + fn.code, lines := b.lines + Runs(fn.lines, 0, -1))
  }

  function EntryOf(b: Builder, fn: Function): Entry {
    Entry(AddString(b.strings, NameOf(fn)).1, fn.arity + 16, fn.arity, fn.upvalues, |b.instructions|, |fn.code|, |b.lines|,
          |Runs(fn.lines, 0, -1)|)
  }

  lemma AddFunctionSteps(b: Builder, fn: Function)
    requires |b.functions| < MAX_FUNCTIONS
    ensures var c := AddConstants(WithCode(b, fn), fn.constants);
            AddFunction(b, fn) == c.(functions := c.functions + [EntryOf(b, fn)])
  {
    hide AddConstants, AddString, Runs;
  }

  lemma AddFunctionExtends(b: Builder, fn: Function)
    ensures Extends(b, AddFunction(b, fn))
  {
    hide AddConstants, AddString, Runs, AddFunction;
    if |b.functions| < MAX_FUNCTIONS {
      AddFunctionSteps(b, fn);
      AddConstantsExtends(WithCode(b, fn), fn.constants);
    } else {
      FullBuilder(b, fn);
    }
  }

  lemma FullBuilder(b: Builder, fn: Function)
    requires |b.functions| >= MAX_FUNCTIONS
    ensures AddFunction(b, fn) == b
  {
  }

  lemma ApplyExtends(b: Builder, c: Call)
    ensures Extends(b, Apply(b, c))
  {
    hide AddFunction, AddString;
    if c.AddFn? { AddFunctionExtends(b, c.fn); }
  }

  // ---- The constants of a function ----

  /** What the writer keeps of a function's constants, as the loader makes it: functions become nil, and other
      objects, booleans and nil are dropped. */
  function Kept(vs: seq<Value>): seq<Value> {
    if vs == [] then []
    else
      (match vs[0]
       case Nil => []
       case Bool(_) => []
       case Other => []
       case Fn => [Nil]
       case _ => [vs[0]]) + Kept(vs[1..])
  }

  predicate Storable(v: Value) {
    v.Int? || v.Float? || v.Str? || v.Blob?
  }

  lemma {:induction false} KeptSize(vs: seq<Value>)
    ensures |Kept(vs)| <= |vs|
    decreases |vs|
  {
    if vs != [] { KeptSize(vs[1..]); }
  }

  /** The constants are all there, in their places, exactly when each is an integer, a float, a string or bytes. */
  lemma {:induction false} KeptIff(vs: seq<Value>)
    ensures Kept(vs) == vs <==> forall i :: 0 <= i < |vs| ==> Storable(vs[i])
    decreases |vs|
  {
    if vs != [] {
      KeptIff(vs[1..]);
      KeptSize(vs[1..]);
      assert vs == [vs[0]] + vs[1..];
      if Storable(vs[0]) {
        assert Kept(vs)[1..] == Kept(vs[1..]);
        assert forall i :: 0 <= i < |vs| ==> vs[i] == if i == 0 then vs[0] else vs[1..][i - 1];
      } else if vs[0].Fn? {
        assert Kept(vs)[0] == Nil;
      } else {
        assert |Kept(vs)| < |vs|;
      }
    }
  }

  /** Every string constant has an index in the table. */
  predicate IndexesFit(b: Builder) {
    forall i :: 0 <= i < |b.constants| ==> b.constants[i].StrC? ==> b.constants[i].index < |b.strings|
  }

  lemma MeaningsKeep(cs: seq<Constant>, strings: seq<Text>, more: seq<Text>)
    requires strings <= more && forall i :: 0 <= i < |cs| ==> cs[i].StrC? ==> cs[i].index < |strings|
    ensures Meanings(cs, more) == Meanings(cs, strings)
  {
    assert forall i :: 0 <= i < |cs| ==> Meaning(cs[i], more) == Meaning(cs[i], strings);
  }

  /** One constant, while the string table is not full afterwards. */
  lemma AddConstantMeans(b: Builder, v: Value)
    requires IndexesFit(b) && |AddConstant(b, v).strings| < MAX_STRINGS
    ensures var r := AddConstant(b, v);
            IndexesFit(r) && Meanings(r.constants, r.strings) == Meanings(b.constants, b.strings) + Kept([v])
  {
    hide AddString, Meaning;
    var r := AddConstant(b, v);
    MeaningsKeep(b.constants, b.strings, r.strings);
    KeptAdds(b, v);
    if r.constants != b.constants {
      LastMeaning(b, v);
      var c := r.constants[|b.constants|];
      assert r.constants == b.constants + [c];
      assert Meanings(r.constants, r.strings) == Meanings(b.constants, r.strings) + [Meaning(c, r.strings)];
    } else {
      assert Meanings(b.constants, b.strings) + Kept([v]) == Meanings(b.constants, b.strings);
    }
  }

  lemma KeptOne(v: Value)
    ensures Kept([v]) == match v case Nil => [] case Bool(_) => [] case Other => [] case Fn => [Nil] case _ => [v]
  {
    assert [v][1..] == [];
  }

  lemma KeptAdds(b: Builder, v: Value)
    ensures |AddConstant(b, v).constants| == |b.constants| + |Kept([v])|
  {
    hide AddString;
    KeptOne(v);
  }

  lemma LastMeaning(b: Builder, v: Value)
    requires AddConstant(b, v).constants != b.constants && |AddConstant(b, v).strings| < MAX_STRINGS
    ensures var r := AddConstant(b, v);
            && |r.constants| == |b.constants| + 1 && r.constants[..|b.constants|] == b.constants
            && [Meaning(r.constants[|b.constants|], r.strings)] == Kept([v])
            && (r.constants[|b.constants|].StrC? ==> r.constants[|b.constants|].index < |r.strings|)
  {
    hide AddString;
    KeptOne(v);
  }

  lemma AddConstantsStep(b: Builder, vs: seq<Value>)
    requires vs != [] && |AddConstants(b, vs).constants| < MAX_CONSTANTS
    ensures AddConstants(b, vs) == AddConstants(AddConstant(b, vs[0]), vs[1..])
    ensures Kept(vs) == Kept([vs[0]]) + Kept(vs[1..])
  {
    hide AddConstant;
    KeptOne(vs[0]);
  }

  lemma {:induction false} AddConstantsMeans(b: Builder, vs: seq<Value>)
    requires IndexesFit(b) && |AddConstants(b, vs).strings| < MAX_STRINGS && |AddConstants(b, vs).constants| < MAX_CONSTANTS
    ensures var r := AddConstants(b, vs);
            IndexesFit(r) && Meanings(r.constants, r.strings) == Meanings(b.constants, b.strings) + Kept(vs)
    decreases |vs|
  {
    hide AddConstant, IndexesFit, Meanings, Kept, AddConstants;
    var start := Meanings(b.constants, b.strings);
    if vs == [] {
      NoneAdded(b);
      assert start + [] == start;
    } else {
      var next := AddConstant(b, vs[0]);
      AddConstantsStep(b, vs);
      AddConstantsExtends(next, vs[1..]);
      AddConstantMeans(b, vs[0]);
      AddConstantsMeans(next, vs[1..]);
      assert start + Kept([vs[0]]) + Kept(vs[1..]) == start + Kept(vs);
    }
  }

  lemma NoneAdded(b: Builder)
    ensures AddConstants(b, []) == b && Kept([]) == []
  {
  }

  // ---- The first function in the builder ----

  /** The builder holds fn as its first function. */
  predicate HasFirst(b: Builder, fn: Function) {
    && b.functions != []
    && var e := b.functions[0];
       var runs := Runs(fn.lines, 0, -1);
       && e.name < |b.strings| && b.strings[e.name] == NameOf(fn)
       && e.regs < 65536 && e.params == fn.arity && e.upvalues == fn.upvalues
       && e.codeOffset == 0 && e.codeLength == |fn.code| && fn.code <= b.instructions
       && e.lineOffset == 0 && e.lineLength == |runs| && runs <= b.lines
  }

  /** Its constants come first in the table. */
  predicate HasConstants(b: Builder, fn: Function) {
    IndexesFit(b) && Kept(fn.constants) <= Meanings(b.constants, b.strings)
  }

  lemma HasFirstStays(a: Builder, b: Builder, fn: Function)
    requires HasFirst(a, fn) && Extends(a, b)
    ensures HasFirst(b, fn)
  {
    hide Runs, NameOf;
  }

  lemma FirstAdded(b: Builder, fn: Function)
    requires b.functions == [] && b.instructions == [] && b.lines == [] && |AddFunction(b, fn).strings| < MAX_STRINGS
    ensures HasFirst(AddFunction(b, fn), fn)
  {
    hide Runs, AddConstants, AddFunction, NameOf;
    var c := WithCode(b, fn);
    AddFunctionSteps(b, fn);
    AddConstantsExtends(c, fn.constants);
    assert [] + fn.code == fn.code && [] + Runs(fn.lines, 0, -1) == Runs(fn.lines, 0, -1);
  }

  /** A call adds the constants of its function behind those that are there. */
  lemma ApplyMeans(b: Builder, c: Call)
    requires IndexesFit(b) && |Apply(b, c).strings| < MAX_STRINGS && |Apply(b, c).constants| < MAX_CONSTANTS
    ensures var r := Apply(b, c);
            IndexesFit(r) && Meanings(r.constants, r.strings) ==
            Meanings(b.constants, b.strings) + if c.AddFn? && |b.functions| < MAX_FUNCTIONS then Kept(c.fn.constants) else []
  {
    hide AddString, AddConstants, AddFunction, Meanings, Kept, Runs;
    var r := Apply(b, c);
    var before := Meanings(b.constants, b.strings);
    assert before + [] == before;
    if c.AddFn? {
      if |b.functions| < MAX_FUNCTIONS {
        AddFunctionSteps(b, c.fn);
        var code := WithCode(b, c.fn);
        MeaningsKeep(b.constants, b.strings, code.strings);
        AddConstantsMeans(code, c.fn.constants);
      } else {
        FullBuilder(b, c.fn);
      }
    } else {
      MeaningsKeep(b.constants, b.strings, r.strings);
    }
  }

  /** The function of the first call that adds one. */
  function FirstFunction(calls: seq<Call>): Option<Function> {
    if calls == [] then None else if calls[0].AddFn? then Some(calls[0].fn) else FirstFunction(calls[1..])
  }

  lemma {:induction false} FirstFunctionStep(calls: seq<Call>, c: Call)
    ensures FirstFunction(calls + [c]) ==
            if FirstFunction(calls).Some? then FirstFunction(calls) else if c.AddFn? then Some(c.fn) else None
    decreases |calls|
  {
    if calls == [] {
      assert (calls + [c])[1..] == [];
    } else {
      assert (calls + [c])[0] == calls[0] && (calls + [c])[1..] == calls[1..] + [c];
      FirstFunctionStep(calls[1..], c);
    }
  }

  /** What every builder holds, after any calls that stay within the limits of strings and constants. */
  lemma {:induction false} BuilderHolds(calls: seq<Call>)
    requires |Build(calls).strings| < MAX_STRINGS && |Build(calls).constants| < MAX_CONSTANTS
    ensures var b := Build(calls);
            var first := FirstFunction(calls);
            && IndexesFit(b) && b.upvalues == []
            && (first.Some? ==> HasFirst(b, first.value) && HasConstants(b, first.value))
            && (first.None? ==> b.functions == [] && b.instructions == [] && b.lines == [] && b.constants == [])
    decreases |calls|
  {
    hide Apply, HasFirst, IndexesFit, Meanings, Kept, FirstFunction;
    if calls == [] {
      NothingBuilt();
    } else {
      var c := calls[|calls| - 1];
      var b := Build(calls[..|calls| - 1]);
      assert calls == calls[..|calls| - 1] + [c];
      FirstFunctionStep(calls[..|calls| - 1], c);
      ApplyExtends(b, c);
      BuilderHolds(calls[..|calls| - 1]);
      ApplyMeans(b, c);
      if FirstFunction(calls[..|calls| - 1]).Some? {
        HasFirstStays(b, Apply(b, c), FirstFunction(calls).value);
      } else {
        NothingMeant(b.strings);
        FirstCall(b, c);
      }
    }
  }

  lemma NothingBuilt()
    ensures Build([]) == EMPTY && IndexesFit(EMPTY) && FirstFunction([]) == None
  {
  }

  lemma NothingMeant(strings: seq<Text>)
    ensures Meanings([], strings) == []
  {
  }

  lemma FirstCall(b: Builder, c: Call)
    requires b.functions == [] && b.instructions == [] && b.lines == [] && b.constants == []
    requires |Apply(b, c).strings| < MAX_STRINGS
    ensures c.AddFn? ==> HasFirst(Apply(b, c), c.fn)
    ensures c.AddFile? ==> var r := Apply(b, c);
            r.functions == [] && r.instructions == [] && r.lines == [] && r.constants == []
  {
    hide AddString, AddFunction, HasFirst;
    if c.AddFn? { FirstAdded(b, c.fn); }
  }

  // ---- The sections of a written file ----

  lemma {:induction false} TableBounds<T>(f: T -> Text, xs: seq<T>)
    requires forall i :: 0 <= i < |xs| ==> |f(xs[i])| >= 1
    ensures |xs| <= |Table(f, xs)| && forall i :: 0 <= i < |xs| ==> |f(xs[i])| <= |Table(f, xs)|
    decreases |xs|
  {
    if xs != [] {
      TableBounds(f, xs[1..]);
      assert forall i :: 1 <= i < |xs| ==> xs[i] == xs[1..][i - 1];
    }
  }

  function ConstEnd(b: Builder): nat {
    68 + |Table(ConstantBytes, b.constants)|
  }

  function StringEnd(b: Builder): nat {
    ConstEnd(b) + 4 + |Table(StringBytes, b.strings)|
  }

  function FuncEnd(b: Builder): nat {
    StringEnd(b) + 4 + |Table(EntryBytes, b.functions)|
  }

  function UpvalueEnd(b: Builder): nat {
    FuncEnd(b) + 4 + |Table(UpvalueBytes, b.upvalues)|
  }

  function InstrEnd(b: Builder): nat {
    UpvalueEnd(b) + 4 + |b.instructions|
  }

  function LineEnd(b: Builder): nat {
    InstrEnd(b) + 4 + |Table(LineBytes, b.lines)|
  }

  /** Where every section of the file is. */
  predicate LaidOut(data: Text, b: Builder) {
    && At(data, 64, U32(|b.constants|)) && At(data, 68, Table(ConstantBytes, b.constants))
    && At(data, ConstEnd(b), U32(|b.strings|)) && At(data, ConstEnd(b) + 4, Table(StringBytes, b.strings))
    && At(data, StringEnd(b), U32(|b.functions|)) && At(data, StringEnd(b) + 4, Table(EntryBytes, b.functions))
    && At(data, FuncEnd(b), U32(|b.upvalues|)) && At(data, FuncEnd(b) + 4, Table(UpvalueBytes, b.upvalues))
    && At(data, UpvalueEnd(b), U32(|b.instructions|)) && At(data, UpvalueEnd(b) + 4, b.instructions)
    && At(data, InstrEnd(b), U32(|b.lines|)) && At(data, InstrEnd(b) + 4, Table(LineBytes, b.lines))
    && At(data, LineEnd(b), U32(|b.assets|))
  }

  lemma BodyParts(b: Builder)
    ensures Body(b) == U32(|b.constants|) + (Table(ConstantBytes, b.constants) + FromStrings(b))
    ensures FromStrings(b) == U32(|b.strings|) + (Table(StringBytes, b.strings) + FromFunctions(b))
    ensures FromFunctions(b) == U32(|b.functions|) + (Table(EntryBytes, b.functions) + FromUpvalues(b))
    ensures FromUpvalues(b) == U32(|b.upvalues|) + (Table(UpvalueBytes, b.upvalues) + FromInstructions(b))
    ensures FromInstructions(b) == U32(|b.instructions|) + (b.instructions + FromLines(b))
    ensures FromLines(b) == U32(|b.lines|) + (Table(LineBytes, b.lines) + FromAssets(b))
    ensures FromAssets(b) == U32(|b.assets|) + Table(AssetBytes, b.assets)
  {
  }

  lemma SectionAt(data: Text, pos: nat, n: nat, x: Text, tail: Text)
    requires At(data, pos, U32(n) + (x + tail))
    ensures At(data, pos, U32(n)) && At(data, pos + 4, x) && At(data, pos + 4 + |x|, tail)
  {
    hide At, U32;
    AtSplit(data, pos, U32(n), x + tail);
    AtSplit(data, pos + 4, x, tail);
  }

  lemma BodyLaidOut(data: Text, b: Builder)
    requires At(data, 64, Body(b))
    ensures LaidOut(data, b)
  {
    hide At, U32, ConstantBytes, StringBytes, EntryBytes, UpvalueBytes, LineBytes, AssetBytes, Table, Body, FromStrings,
         FromFunctions, FromUpvalues, FromInstructions, FromLines, FromAssets;
    BodyParts(b);
    SectionAt(data, 64, |b.constants|, Table(ConstantBytes, b.constants), FromStrings(b));
    SectionAt(data, ConstEnd(b), |b.strings|, Table(StringBytes, b.strings), FromFunctions(b));
    SectionAt(data, StringEnd(b), |b.functions|, Table(EntryBytes, b.functions), FromUpvalues(b));
    SectionAt(data, FuncEnd(b), |b.upvalues|, Table(UpvalueBytes, b.upvalues), FromInstructions(b));
    SectionAt(data, UpvalueEnd(b), |b.instructions|, b.instructions, FromLines(b));
    SectionAt(data, InstrEnd(b), |b.lines|, Table(LineBytes, b.lines), FromAssets(b));
    AtSplit(data, LineEnd(b), U32(|b.assets|), Table(AssetBytes, b.assets));
  }

  /** Every number of the file is within its field. */
  predicate NumbersFit(b: Builder) {
    && |b.constants| < TWO_32 && |b.strings| < TWO_32 && |b.functions| < TWO_32 && |b.upvalues| < TWO_32
    && |b.instructions| < TWO_32 && |b.lines| < TWO_32 && |b.assets| < TWO_32
    && (forall i :: 0 <= i < |b.constants| ==> ConstantFits(b.constants[i]))
    && (forall i :: 0 <= i < |b.strings| ==> |b.strings[i]| < TWO_32)
  }

  lemma BodySize(b: Builder)
    ensures |Body(b)| == 28 + |Table(ConstantBytes, b.constants)| + |Table(StringBytes, b.strings)| +
            |Table(EntryBytes, b.functions)| + |Table(UpvalueBytes, b.upvalues)| + |b.instructions| +
            |Table(LineBytes, b.lines)| + |Table(AssetBytes, b.assets)|
  {
    hide Table, U32;
  }

  lemma SmallFileFits(b: Builder)
    requires |Body(b)| < TWO_32 && IndexesFit(b)
    ensures NumbersFit(b)
  {
    hide Table, U32, Body, U64;
    BodySize(b);
    TableBounds(ConstantBytes, b.constants);
    TableBounds(StringBytes, b.strings);
    TableBounds(EntryBytes, b.functions);
    TableBounds(UpvalueBytes, b.upvalues);
    TableBounds(LineBytes, b.lines);
    TableBounds(AssetBytes, b.assets);
    forall i | 0 <= i < |b.constants| ensures ConstantFits(b.constants[i]) {
      assert |ConstantBytes(b.constants[i])| < TWO_32;
    }
    forall i | 0 <= i < |b.strings| ensures |b.strings[i]| < TWO_32 {
      assert |StringBytes(b.strings[i])| < TWO_32;
    }
  }

  function LoadedOf(data: Text, b: Builder): Loaded {
    Loaded(data, |b.constants|, 68, b.strings, |b.functions|, StringEnd(b) + 4, |b.instructions|, UpvalueEnd(b) + 4, |b.lines|, InstrEnd(b) + 4)
  }

  lemma AtWithin(data: Text, pos: nat, x: Text)
    requires At(data, pos, x)
    ensures Skip(data, pos, |x|) == Some(pos + |x|)
  {
  }

  /** The section walk finds every section of a written file. */
  lemma SectionsFound(data: Text, b: Builder)
    requires LaidOut(data, b) && NumbersFit(b)
    ensures Sections(data) == Some(LoadedOf(data, b))
  {
    hide At, U32, Count, Skip, SkipConstants, ReadStrings, Table, ConstantFits, ConstantBytes, StringBytes, EntryBytes, UpvalueBytes,
         LineBytes;
    CountAt(data, 64, |b.constants|);
    ConstantsAt(data, 68, b.constants, b.strings);
    CountAt(data, ConstEnd(b), |b.strings|);
    StringsAt(data, ConstEnd(b) + 4, b.strings);
    CountAt(data, StringEnd(b), |b.functions|);
    TableSize(EntryBytes, b.functions, 24);
    AtWithin(data, StringEnd(b) + 4, Table(EntryBytes, b.functions));
    CountAt(data, FuncEnd(b), |b.upvalues|);
    TableSize(UpvalueBytes, b.upvalues, 6);
    AtWithin(data, FuncEnd(b) + 4, Table(UpvalueBytes, b.upvalues));
    CountAt(data, UpvalueEnd(b), |b.instructions|);
    AtWithin(data, UpvalueEnd(b) + 4, b.instructions);
    CountAt(data, InstrEnd(b), |b.lines|);
    TableSize(LineBytes, b.lines, 8);
    AtWithin(data, InstrEnd(b) + 4, Table(LineBytes, b.lines));
    CountAt(data, LineEnd(b), |b.assets|);
  }

  lemma FileParts(sha: Text -> Digest, b: Builder)
    ensures var data := File(sha, b);
            && |data| == 64 + |Body(b)| && data[..4] == PREAMBLE[..4] && data[4..6] == PREAMBLE[4..6]
            && data[8..40] == sha(Body(b)) && data[64..] == Body(b) && At(data, 64, Body(b))
  {
    hide Body;
  }

  /** A written file is loaded, with all its sections where the writer put them, and its digest is right. */
  lemma WrittenFileLoads(sha: Text -> Digest, b: Builder)
    requires |Body(b)| < TWO_32 && IndexesFit(b)
    ensures Load(File(sha, b)) == Some(LoadedOf(File(sha, b), b)) && Verify(sha, File(sha, b))
    ensures LaidOut(File(sha, b), b)
  {
    hide File, Body, Sections, At, LaidOut, NumbersFit, LoadedOf;
    FileParts(sha, b);
    BodyLaidOut(File(sha, b), b);
    SmallFileFits(b);
    SectionsFound(File(sha, b), b);
  }

  // ---- The function that comes back ----

  lemma CodeAt(data: Text, pos: nat, instructions: Text, code: Text)
    requires At(data, pos, instructions) && code <= instructions
    ensures pos + |code| <= |data| && data[pos..pos + |code|] == code
  {
    assert data[pos..pos + |code|] == data[pos..pos + |instructions|][..|code|];
  }

  lemma ReadLinesAt(data: Text, pos: nat, es: seq<LineEntry>, runs: seq<LineEntry>)
    requires At(data, pos, Table(LineBytes, es)) && runs <= es && forall k :: 0 <= k < |runs| ==> LineFits(runs[k])
    ensures pos + 8 * |runs| <= |data| && ReadLines(data, pos, |runs|) == runs
  {
    hide At, Table, ReadLine, LineBytes, LineFits;
    forall k: nat | k < |runs| ensures pos + 8 * k + 8 <= |data| && ReadLine(data, pos, k) == runs[k] {
      assert es[k] == runs[k];
      ReadLineAt(data, pos, es, k);
    }
    TableSize(LineBytes, es, 8) by { LineSizes(es); }
    AtFits(data, pos, Table(LineBytes, es));
  }

  lemma LineSizes(es: seq<LineEntry>)
    ensures forall e :: e in es ==> |LineBytes(e)| == 8
  {
  }

  lemma AtFits(data: Text, pos: nat, x: Text)
    requires At(data, pos, x)
    ensures pos + |x| <= |data|
  {
  }

  /** What ToFunction makes of a file that holds fn as its first function. */
  lemma FunctionRead(data: Text, b: Builder, fn: Function)
    requires LaidOut(data, b) && NumbersFit(b) && HasFirst(b, fn) && fn.Valid() && LoadedOf(data, b).Valid()
    ensures ToFunction(LoadedOf(data, b)) ==
            Some(Function(Some(NameOf(fn)), fn.arity, fn.upvalues, fn.code, Relined(fn.lines), Meanings(b.constants, b.strings)))
  {
    hide At, U32, Table, Runs, Expand, Relined, NameOf, ReadLines, FirstEntry, ReadConstants, Meanings, ConstantFits, LineFits,
         ConstantBytes, StringBytes, EntryBytes, UpvalueBytes, LineBytes, SkipConstants, ConstEnd, StringEnd, UpvalueEnd, InstrEnd, FuncEnd, LineEnd;
    var file, e, runs := LoadedOf(data, b), b.functions[0], Runs(fn.lines, 0, -1);
    FirstEntryPart(data, StringEnd(b) + 4, b.functions);
    FirstEntryAt(file, e);
    CodeAt(data, UpvalueEnd(b) + 4, b.instructions, fn.code);
    RunsFit(fn.lines);
    ReadLinesAt(data, InstrEnd(b) + 4, b.lines, runs);
    ConstantsAt(data, 68, b.constants, b.strings);
    RelinedParts(fn.lines);
  }

  lemma FirstEntryPart(data: Text, pos: nat, es: seq<Entry>)
    requires es != [] && At(data, pos, Table(EntryBytes, es))
    ensures At(data, pos, EntryBytes(es[0]))
  {
    hide At, EntryBytes;
    AtSplit(data, pos, EntryBytes(es[0]), Table(EntryBytes, es[1..]));
  }

  lemma RunsFit(lines: seq<Int32>)
    requires |lines| < TWO_32
    ensures forall k :: 0 <= k < |Runs(lines, 0, -1)| ==> LineFits(Runs(lines, 0, -1)[k])
  {
    hide Runs;
  }

  lemma RelinedParts(lines: seq<Int32>)
    ensures var runs := Runs(lines, 0, -1);
            Relined(lines) == if |runs| > 0 then Expand(runs, 0, |lines|, 0, 1) else NoLines(|lines|)
  {
    hide Runs, Expand;
  }

  /** Whatever functions and assets a builder was given, within its limits: its file loads and is intact, and
      the function read from it is the first one given, with the same code, arity and number of upvalues, its
      own name or <script>, its lines, and its constants before those of the functions after it. */
  lemma FirstFunctionComesBack(sha: Text -> Digest, calls: seq<Call>, fn: Function)
    requires FirstFunction(calls) == Some(fn) && fn.Valid()
    requires |Build(calls).strings| < MAX_STRINGS && |Build(calls).constants| < MAX_CONSTANTS && |Body(Build(calls))| < TWO_32
    ensures var data := File(sha, Build(calls));
            && Verify(sha, data) && Load(data).Some?
            && var r := ToFunction(Load(data).value);
               && r.Some? && r.value.name == Some(NameOf(fn)) && r.value.arity == fn.arity && r.value.upvalues == fn.upvalues
               && r.value.code == fn.code && r.value.lines == Relined(fn.lines) && Kept(fn.constants) <= r.value.constants
  {
    hide *;
    var b := Build(calls);
    var data := File(sha, b);
    BuilderHolds(calls);
    WrittenFileLoads(sha, b);
    SmallFileFits(b);
    FunctionRead(data, b, fn);
    assert Kept(fn.constants) <= Meanings(b.constants, b.strings) by { HasConstantsParts(b, fn); }
  }

  lemma HasConstantsParts(b: Builder, fn: Function)
    requires HasConstants(b, fn)
    ensures Kept(fn.constants) <= Meanings(b.constants, b.strings)
  {
  }

  /** A function that the compiler made without inner functions, from source with lines, comes back unchanged
      but for the name of one that has none. */
  lemma PlainFunctionComesBack(sha: Text -> Digest, calls: seq<Call>, fn: Function)
    requires FirstFunction(calls) == Some(fn) && fn.Valid()
    requires |Build(calls).strings| < MAX_STRINGS && |Build(calls).constants| < MAX_CONSTANTS && |Body(Build(calls))| < TWO_32
    ensures var data := File(sha, Build(calls));
            && Load(data).Some? && ToFunction(Load(data).value).Some?
            && var r := ToFunction(Load(data).value).value;
               && (r.lines == fn.lines <==> fn.lines == [] || fn.lines[0] != -1)
               && ((forall i :: 0 <= i < |fn.constants| ==> Storable(fn.constants[i])) ==> fn.constants <= r.constants)
  {
    hide Build, Body, File, Load, ToFunction, Relined, Kept, Storable;
    FirstFunctionComesBack(sha, calls, fn);
    LinesRestoredIff(fn.lines);
    KeptIff(fn.constants);
  }
}
