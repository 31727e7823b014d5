/** The .vebc format (src/vebc_writer.c, src/vebc_loader.c): what a builder gathers, the file it is written
    to, what a loader reads from a file, and the proof that the first function comes back. */
module Vebc {
  import opened Bytes
  import opened Options
  import opened Values

  const MAX_STRINGS := 4096
  const MAX_CONSTANTS := 4096
  const MAX_FUNCTIONS := 1024
  const MAX_ASSETS := 1024
  const TWO_32 := 0x1_0000_0000

  const TAG_INT_CONST: Byte := 1
  const TAG_FLOAT_CONST: Byte := 2
  const TAG_STRING_CONST: Byte := 3
  const TAG_BYTES_CONST: Byte := 4
  const TAG_FUNC_CONST: Byte := 5

  type Text = seq<Byte>
  type Digest = d: Text | |d| == 32 witness seq(32, _ => 0)
  type Int48 = n: int | -TWO_47 <= n < TWO_47 witness 0
  type Int32 = n: int | -0x8000_0000 <= n < 0x8000_0000 witness 0

  // ---- Functions and builders ----

  /** A value of a constant table; functions and all objects the format cannot hold have no content here. */
  datatype Value = Nil | Bool(b: bool) | Int(n: Int48) | Float(bits: Word) | Str(s: Text) | Blob(s: Text) | Fn | Other

  /** ObjFunction with its chunk; there is a line for every byte of code. */
  datatype Function = Function(name: Option<Text>, arity: Byte, upvalues: Byte, code: Text, lines: seq<Int32>, constants: seq<Value>) {
    predicate Valid() {
      |lines| == |code|
    }
  }

  datatype Constant = IntC(n: Int48) | FloatC(bits: Word) | StrC(index: nat) | FuncC(index: nat) | BlobC(s: Text)

  datatype Entry = Entry(name: nat, regs: nat, params: Byte, upvalues: Byte, codeOffset: nat, codeLength: nat, lineOffset: nat, lineLength: nat)

  datatype LineEntry = LineEntry(offset: nat, line: nat)

  datatype Asset = Asset(path: nat, data: Text)

  /** No builder function adds to the upvalue table; it is written as it is. */
  datatype Upvalue = Upvalue(source: nat, slot: Byte, isLocal: Byte)

  datatype Builder = Builder(strings: seq<Text>, constants: seq<Constant>, functions: seq<Entry>, upvalues: seq<Upvalue>,
                             instructions: Text, lines: seq<LineEntry>, assets: seq<Asset>)

  const EMPTY := Builder([], [], [], [], [], [], [])

  const SCRIPT_NAME: Text := [60, 115, 99, 114, 105, 112, 116, 62]   // <script>

  /** The first index of a string, or the number of strings. */
  function IndexOf(strings: seq<Text>, s: Text): (k: nat)
    ensures k <= |strings| && (k < |strings| ==> strings[k] == s)
    ensures forall j :: 0 <= j < k ==> strings[j] != s
  {
    if strings == [] || strings[0] == s then 0 else 1 + IndexOf(strings[1..], s)
  }

  /** vebc_builder_add_string: the strings, and the index of this one; index 0 when there are too many. */
  function AddString(strings: seq<Text>, s: Text): (r: (seq<Text>, nat))
    ensures strings <= r.0
    ensures |r.0| < MAX_STRINGS ==> r.1 < |r.0| && r.0[r.1] == s
  {
    var k := IndexOf(strings, s);
    if k < |strings| then (strings, k)
    else if |strings| >= MAX_STRINGS then (strings, 0)
    else (strings + [s], |strings|)
  }

  function Unsigned32(n: Int32): (r: nat)
    ensures r < TWO_32
  {
    if n < 0 then n + TWO_32 else n
  }

  function Signed32(n: nat): Int32 {
    var r := n % TWO_32;
    if r < 0x8000_0000 then r else r - TWO_32
  }

  /** An entry wherever the line differs from the one before; before the first byte stands line -1. */
  function Runs(lines: seq<Int32>, i: nat, previous: Int32): (r: seq<LineEntry>)
    requires i <= |lines|
    ensures forall k :: 0 <= k < |r| ==> i <= r[k].offset < |lines| && r[k].line < TWO_32
    decreases |lines| - i
  {
    if i == |lines| then []
    else if lines[i] != previous then [LineEntry(i, Unsigned32(lines[i]))] + Runs(lines, i + 1, lines[i])
    else Runs(lines, i + 1, previous)
  }

  /** One constant; what the format cannot hold is left out. */
  function AddConstant(b: Builder, v: Value): Builder {
    match v
    case Int(n) => b.(constants := b.constants + [IntC(n)])
    case Float(bits) => b.(constants := b.constants + [FloatC(bits)])
    case Str(s) =>
      var (strings, k) := AddString(b.strings, s);
      b.(strings := strings, constants := b.constants + [StrC(k)])
    case Fn => b.(constants := b.constants + [FuncC(|b.functions|)])
    case Blob(s) => b.(constants := b.constants + [BlobC(s)])
    case _ => b
  }

  function AddConstants(b: Builder, vs: seq<Value>): Builder
    decreases |vs|
  {
    if vs == [] || |b.constants| >= MAX_CONSTANTS then b else AddConstants(AddConstant(b, vs[0]), vs[1..])
  }

  function NameOf(fn: Function): Text {
    if fn.name.Some? then fn.name.value else SCRIPT_NAME
  }

  /** vebc_builder_add_function. */
  function AddFunction(b: Builder, fn: Function): Builder {
    if |b.functions| >= MAX_FUNCTIONS then b
    else
      var (strings, name) := AddString(b.strings, NameOf(fn));
      var runs := Runs(fn.lines, 0, -1);
      var e := Entry(name, fn.arity + 16, fn.arity, fn.upvalues, |b.instructions|, |fn.code|, |b.lines|, |runs|);
      var b := b.(strings := strings, instructions := b.instructions + fn.code, lines := b.lines + runs);
      var b := AddConstants(b, fn.constants);
      b.(functions := b.functions + [e])
  }

  /** vebc_builder_add_asset. */
  function AddAsset(b: Builder, path: Text, data: Text): Builder {
    if |b.assets| >= MAX_ASSETS then b
    else
      var (strings, k) := AddString(b.strings, path);
      b.(strings := strings, assets := b.assets + [Asset(k, data)])
  }

  /** The calls that fill a builder. */
  datatype Call = AddFn(fn: Function) | AddFile(path: Text, data: Text)

  function Apply(b: Builder, c: Call): Builder {
    match c
    case AddFn(fn) => AddFunction(b, fn)
    case AddFile(path, data) => AddAsset(b, path, data)
  }

  function Build(calls: seq<Call>): Builder {
    if calls == [] then EMPTY else Apply(Build(calls[..|calls| - 1]), calls[|calls| - 1])
  }

  // ---- The file ----

  function Table<T>(f: T -> Text, xs: seq<T>): Text {
    if xs == [] then [] else f(xs[0]) + Table(f, xs[1..])
  }

  function U64(w: Word): (r: Text)
    ensures |r| == 8
  {
    U32(w % TWO_32) + U32(w / TWO_32)
  }

  function ConstantBytes(c: Constant): Text {
    match c
    case IntC(n) => [TAG_INT_CONST] + U64(ToUnsigned64(n))
    case FloatC(bits) => [TAG_FLOAT_CONST] + U64(bits)
    case StrC(index) => [TAG_STRING_CONST] + U32(index)
    case FuncC(index) => [TAG_FUNC_CONST] + U32(index)
    case BlobC(s) => [TAG_BYTES_CONST] + (U32(|s|) + s)
  }

  function StringBytes(s: Text): Text {
    U32(|s|) + s
  }

  function EntryBytes(e: Entry): (r: Text)
    ensures |r| == 24
  {
    U32(e.name) + (U16(e.regs) + ([e.params, e.upvalues] +
    (U32(e.codeOffset) + (U32(e.codeLength) + (U32(e.lineOffset) + U32(e.lineLength))))))
  }

  function UpvalueBytes(u: Upvalue): (r: Text)
    ensures |r| == 6
  {
    U32(u.source) + [u.slot, u.isLocal]
  }

  function LineBytes(e: LineEntry): (r: Text)
    ensures |r| == 8
  {
    U32(e.offset) + U32(e.line)
  }

  function AssetBytes(a: Asset): Text {
    U32(a.path) + (U32(|a.data|) + a.data)
  }

  // The sections, each its number of entries and then the entries; every part runs to the end of the file.

  function FromAssets(b: Builder): Text {
    U32(|b.assets|) + Table(AssetBytes, b.assets)
  }

  function FromLines(b: Builder): Text {
    U32(|b.lines|) + (Table(LineBytes, b.lines) + FromAssets(b))
  }

  function FromInstructions(b: Builder): Text {
    U32(|b.instructions|) + (b.instructions + FromLines(b))
  }

  function FromUpvalues(b: Builder): Text {
    U32(|b.upvalues|) + (Table(UpvalueBytes, b.upvalues) + FromInstructions(b))
  }

  function FromFunctions(b: Builder): Text {
    U32(|b.functions|) + (Table(EntryBytes, b.functions) + FromUpvalues(b))
  }

  function FromStrings(b: Builder): Text {
    U32(|b.strings|) + (Table(StringBytes, b.strings) + FromFunctions(b))
  }

  function Body(b: Builder): Text {
    U32(|b.constants|) + (Table(ConstantBytes, b.constants) + FromStrings(b))
  }

  /** Magic number, version 1, no flags. */
  const PREAMBLE: Text := [0x56, 0x45, 0x42, 0x43, 1, 0, 0, 0]

  const RESERVED: Text := seq(24, _ => 0)

  /** A header of 64 bytes and the sections, whose digest is in the header. */
  function File(sha: Text -> Digest, b: Builder): Text {
    PREAMBLE + (sha(Body(b)) + (RESERVED + Body(b)))
  }

  // ---- The loader ----

  function Count(data: Text, pos: nat): Option<nat> {
    if pos + 4 > |data| then None else Some(FromU32(data[pos..pos + 4]))
  }

  function Skip(data: Text, pos: nat, n: nat): (r: Option<nat>)
    ensures r.Some? ==> pos <= r.value <= |data|
  {
    if pos + n > |data| then None else Some(pos + n)
  }

  function SkipConstant(data: Text, pos: nat): (r: Option<nat>)
    ensures r.Some? ==> pos < r.value <= |data|
  {
    if pos + 1 > |data| then None
    else if data[pos] == TAG_INT_CONST || data[pos] == TAG_FLOAT_CONST then Skip(data, pos + 1, 8)
    else if data[pos] == TAG_STRING_CONST || data[pos] == TAG_FUNC_CONST then Skip(data, pos + 1, 4)
    else if data[pos] == TAG_BYTES_CONST then
      var n :- Count(data, pos + 1);
      Skip(data, pos + 5, n)
    else None
  }

  function SkipConstants(data: Text, pos: nat, n: nat): Option<nat>
    decreases n
  {
    if n == 0 then Some(pos)
    else
      var pos :- SkipConstant(data, pos);
      SkipConstants(data, pos, n - 1)
  }

  function ReadStrings(data: Text, pos: nat, n: nat): Option<(seq<Text>, nat)>
    decreases n
  {
    if n == 0 then Some(([], pos))
    else
      var size :- Count(data, pos);
      var end :- Skip(data, pos + 4, size);
      var (strings, after) :- ReadStrings(data, end, n - 1);
      Some(([data[pos + 4..end]] + strings, after))
  }

  /** VebcFile: where the sections are. */
  datatype Loaded = Loaded(data: Text, constCount: nat, constOffset: nat, strings: seq<Text>, funcCount: nat, funcOffset: nat,
                           instrLength: nat, instrOffset: nat, lineCount: nat, lineOffset: nat) {
    /** What the section walk has made sure of. */
    predicate Valid() {
      && SkipConstants(data, constOffset, constCount).Some?
      && funcOffset + funcCount * 24 <= |data| && instrOffset + instrLength <= |data| && lineOffset + lineCount * 8 <= |data|
    }
  }

  /** The section walk of vebc_load. */
  function Sections(data: Text): (r: Option<Loaded>)
    ensures r.Some? ==> r.value.data == data && r.value.Valid()
  {
    var constCount :- Count(data, 64);
    var pos :- SkipConstants(data, 68, constCount);
    var stringCount :- Count(data, pos);
    var (strings, pos) :- ReadStrings(data, pos + 4, stringCount);
    var funcCount :- Count(data, pos);
    var funcOffset := pos + 4;
    var pos :- Skip(data, pos + 4, funcCount * 24);
    var upvalueCount :- Count(data, pos);
    var pos :- Skip(data, pos + 4, upvalueCount * 6);
    var instrLength :- Count(data, pos);
    var instrOffset := pos + 4;
    var pos :- Skip(data, pos + 4, instrLength);
    var lineCount :- Count(data, pos);
    var lineOffset := pos + 4;
    var pos :- Skip(data, pos + 4, lineCount * 8);
    var assetCount :- Count(data, pos);
    Some(Loaded(data, constCount, 68, strings, funcCount, funcOffset, instrLength, instrOffset, lineCount, lineOffset))
  }

  /** vebc_load. */
  function Load(data: Text): (r: Option<Loaded>)
    ensures r.Some? ==> r.value.data == data && r.value.Valid()
  {
    if |data| < 64 || data[..4] != PREAMBLE[..4] || data[4..6] != PREAMBLE[4..6] then None else Sections(data)
  }

  /** vebc_verify. */
  predicate Verify(sha: Text -> Digest, data: Text) {
    |data| >= 64 && sha(data[64..]) == data[8..40]
  }

  function ReadU64(s: Text): Word
    requires |s| == 8
  {
    FromU32(s[..4]) + TWO_32 * FromU32(s[4..])
  }

  /** INT_VAL keeps 48 bits. */
  function ReadConstant(data: Text, pos: nat, strings: seq<Text>): Value
    requires SkipConstant(data, pos).Some?
  {
    if data[pos] == TAG_INT_CONST then Int(Wrap48(ToSigned64(ReadU64(data[pos + 1..pos + 9]))))
    else if data[pos] == TAG_FLOAT_CONST then Float(ReadU64(data[pos + 1..pos + 9]))
    else if data[pos] == TAG_STRING_CONST then
      var k := FromU32(data[pos + 1..pos + 5]);
      if k < |strings| then Str(strings[k]) else Nil
    else if data[pos] == TAG_BYTES_CONST then Blob(data[pos + 5..pos + 5 + FromU32(data[pos + 1..pos + 5])])
    else Nil
  }

  function ReadConstants(data: Text, pos: nat, n: nat, strings: seq<Text>): seq<Value>
    requires SkipConstants(data, pos, n).Some?
    decreases n
  {
    if n == 0 then []
    else [ReadConstant(data, pos, strings)] + ReadConstants(data, SkipConstant(data, pos).value, n - 1, strings)
  }

  /** Line entry k of the table at pos. */
  function ReadLine(data: Text, pos: nat, k: nat): LineEntry
    requires pos + 8 * k + 8 <= |data|
  {
    LineEntry(FromU32(data[pos + 8 * k..pos + 8 * k + 4]), FromU32(data[pos + 8 * k + 4..pos + 8 * k + 8]))
  }

  function ReadLines(data: Text, pos: nat, n: nat): (r: seq<LineEntry>)
    requires pos + 8 * n <= |data|
    ensures |r| == n && forall k: nat :: k < n ==> r[k] == ReadLine(data, pos, k)
  {
    seq(n, k requires 0 <= k < n => ReadLine(data, pos, k))
  }

  /** The entries that start at or before byte i, from entry k on: the next entry, and the line they lead to. */
  function Advance(entries: seq<LineEntry>, i: nat, k: nat, line: nat): (r: (nat, nat))
    requires k <= |entries|
    ensures k <= r.0 <= |entries|
    decreases |entries| - k
  {
    if k < |entries| && entries[k].offset <= i then Advance(entries, i, k + 1, entries[k].line) else (k, line)
  }

  /** The lines of bytes i to n. */
  function Expand(entries: seq<LineEntry>, i: nat, n: nat, k: nat, line: nat): (r: seq<Int32>)
    requires i <= n && k <= |entries|
    ensures |r| == n - i
    decreases n - i
  {
    if i == n then []
    else
      var (k, line) := Advance(entries, i, k, line);
      [Signed32(line)] + Expand(entries, i + 1, n, k, line)
  }

  function NoLines(n: nat): seq<Int32> {
    seq(n, _ => 0)
  }

  /** The entry of function 0. */
  function FirstEntry(file: Loaded): Entry
    requires file.Valid() && file.funcCount > 0
  {
    var s := file.data[file.funcOffset..file.funcOffset + 24];
    Entry(FromU32(s[..4]), FromU16(s[4], s[5]), s[6], s[7], FromU32(s[8..12]), FromU32(s[12..16]), FromU32(s[16..20]), FromU32(s[20..24]))
  }

  /** vebc_to_function, where the sums of its bounds checks do not wrap around; module VebcBounds has the others. */
  function ToFunction(file: Loaded): Option<Function>
    requires file.Valid()
  {
    if file.funcCount == 0 then None
    else
      var e := FirstEntry(file);
      if e.codeLength > 0 && e.codeOffset + e.codeLength > file.instrLength then None
      else
        var code := if e.codeLength > 0 then file.data[file.instrOffset + e.codeOffset..file.instrOffset + e.codeOffset + e.codeLength] else [];
        var lines :=
          if e.lineLength > 0 && e.lineOffset + e.lineLength <= file.lineCount then
            Expand(ReadLines(file.data, file.lineOffset + 8 * e.lineOffset, e.lineLength), 0, e.codeLength, 0, 1)
          else NoLines(e.codeLength);
        Some(Function(if e.name < |file.strings| then Some(file.strings[e.name]) else None, e.params, e.upvalues, code, lines,
                      ReadConstants(file.data, file.constOffset, file.constCount, file.strings)))
  }
}
