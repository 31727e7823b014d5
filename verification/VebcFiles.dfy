/** Builders, the writer and the loader of .vebc files as they run. */
module VebcFiles {
  import opened Bytes
  import opened Options
  import opened Vebc
  import opened VebcBounds
  import opened VebcRoundTrip

  // ---- The output ----

  /** The buffer of vebc_builder_write behind its header, and the position at which it is written. */
  class Output {
    const buf: array<Byte>
    var pos: nat
    ghost const body: Text
    ghost var rest: Text   // what is still to be written

    ghost predicate Valid()
      reads this`pos, this`rest, buf
    {
      64 <= pos && pos + |rest| == buf.Length && buf[64..pos] + rest == body
    }

    constructor (buf: array<Byte>, ghost body: Text)
      requires buf.Length == 64 + |body|
      ensures Valid() && this.buf == buf && this.body == body && rest == body && pos == 64
    {
      this.buf, this.body, pos, rest := buf, body, 64, body;
    }

    /** A field: its bytes, and the position moved behind them. */
    method Put(x: Text, ghost tail: Text)
      requires Valid() && rest == x + tail
      modifies this`pos, this`rest, buf
      ensures Valid() && rest == tail && buf[..64] == old(buf[..64])
    {
      var i := 0;
      while i < |x|
        invariant 0 <= i <= |x| && pos == old(pos) && rest == old(rest)
        invariant buf[..pos] == old(buf[..pos])
        invariant buf[pos..pos + i] == x[..i]
      {
        buf[pos + i] := x[i];
        i := i + 1;
      }
      assert buf[64..pos + |x|] == buf[64..pos] + buf[pos..pos + |x|];
      assert buf[64..pos] == old(buf[64..pos]) && buf[..64] == buf[..pos][..64];
      assert old(buf[64..pos]) + (x + tail) == old(buf[64..pos]) + x + tail;
      pos := pos + |x|;
      rest := tail;
    }

    /** The entries of a section, one after the other. */
    method PutTable<T>(f: T -> Text, xs: seq<T>, ghost tail: Text)
      requires Valid() && rest == Table(f, xs) + tail
      modifies this`pos, this`rest, buf
      ensures Valid() && rest == tail && buf[..64] == old(buf[..64])
    {
      hide Table;
      var i := 0;
      assert xs[0..] == xs;
      while i < |xs|
        invariant 0 <= i <= |xs| && Valid() && rest == Table(f, xs[i..]) + tail && buf[..64] == old(buf[..64])
      {
        TableStep(f, xs, i, tail);
        Put(f(xs[i]), Table(f, xs[i + 1..]) + tail);
        i := i + 1;
      }
      TableEnd(f, xs[i..], tail);
    }

    /** A section: the number of entries and the entries. */
    method PutSection<T>(f: T -> Text, xs: seq<T>, ghost tail: Text)
      requires Valid() && rest == U32(|xs|) + (Table(f, xs) + tail)
      modifies this`pos, this`rest, buf
      ensures Valid() && rest == tail && buf[..64] == old(buf[..64])
    {
      hide Table, U32;
      Put(U32(|xs|), Table(f, xs) + tail);
      PutTable(f, xs, tail);
    }
  }

  lemma TableAlone<T>(f: T -> Text, xs: seq<T>)
    ensures Table(f, xs) == Table(f, xs) + []
  {
  }

  lemma TableStep<T>(f: T -> Text, xs: seq<T>, i: nat, tail: Text)
    requires i < |xs|
    ensures Table(f, xs[i..]) + tail == f(xs[i]) + (Table(f, xs[i + 1..]) + tail)
  {
    assert xs[i..][1..] == xs[i + 1..];
  }

  lemma TableEnd<T>(f: T -> Text, xs: seq<T>, tail: Text)
    requires xs == []
    ensures Table(f, xs) + tail == tail
  {
  }

  // ---- Builders ----

  class VebcBuilder {
    var strings: seq<Text>
    var constants: seq<Constant>
    var functions: seq<Entry>
    var upvalues: seq<Upvalue>
    var instructions: Text
    var lines: seq<LineEntry>
    var assets: seq<Asset>

    ghost function Contents(): Builder
      reads this
    {
      Builder(strings, constants, functions, upvalues, instructions, lines, assets)
    }

    /** vebc_builder_init. */
    constructor ()
      ensures Contents() == EMPTY
    {
      strings, constants, functions, upvalues, instructions, lines, assets := [], [], [], [], [], [], [];
    }

    /** vebc_builder_add_string. */
    method AddString(s: Text) returns (k: nat)
      modifies this`strings
      ensures (strings, k) == Vebc.AddString(old(strings), s)
    {
      var found: bool;
      found, k := FindString(strings, s);
      if found { return; }
      if |strings| >= MAX_STRINGS { return 0; }
      k := |strings|;
      strings := strings + [s];
    }

    /** vebc_builder_add_function. */
    method AddFunction(fn: Function)
      requires fn.Valid()
      modifies this
      ensures Contents() == Vebc.AddFunction(old(Contents()), fn)
    {
      hide Vebc.AddString, AddConstants, Runs;
      if |functions| >= MAX_FUNCTIONS { return; }
      var name := AddString(if fn.name.Some? then fn.name.value else SCRIPT_NAME);
      var codeOffset := |instructions|;
      instructions := instructions + fn.code;
      var lineOffset := |lines|;
      var runs := LineRuns(fn.lines);
      lines := lines + runs;
      AddConstantsOf(fn);
      functions := functions + [Entry(name, fn.arity + 16, fn.arity, fn.upvalues, codeOffset, |fn.code|, lineOffset, |runs|)];
    }

    /** The loop over the constants of a function; a full table ends it. */
    method AddConstantsOf(fn: Function)
      modifies this`strings, this`constants
      ensures Contents() == AddConstants(old(Contents()), fn.constants)
    {
      hide AddConstants, AddConstant;
      var vs, i := fn.constants, 0;
      assert vs[0..] == vs;
      while i < |vs|
        invariant 0 <= i <= |vs|
        invariant functions == old(functions) && upvalues == old(upvalues) && instructions == old(instructions)
        invariant lines == old(lines) && assets == old(assets)
        invariant AddConstants(Contents(), vs[i..]) == AddConstants(old(Contents()), vs)
      {
        ConstantsStep(Contents(), vs, i);
        if |constants| >= MAX_CONSTANTS { return; }
        AddOne(vs[i]);
        i := i + 1;
      }
      NoMoreConstants(Contents(), vs[i..]);
    }

    method AddOne(v: Value)
      modifies this`strings, this`constants
      ensures Contents() == AddConstant(old(Contents()), v)
    {
      hide Vebc.AddString;
      match v {
        case Int(n) => constants := constants + [IntC(n)];
        case Float(bits) => constants := constants + [FloatC(bits)];
        case Str(s) =>
          var k := AddString(s);
          constants := constants + [StrC(k)];
        case Fn => constants := constants + [FuncC(|functions|)];
        case Blob(s) => constants := constants + [BlobC(s)];
        case _ =>
      }
    }

    /** vebc_builder_add_asset. */
    method AddAsset(path: Text, data: Text)
      modifies this`strings, this`assets
      ensures Contents() == Vebc.AddAsset(old(Contents()), path, data)
    {
      hide Vebc.AddString;
      if |assets| >= MAX_ASSETS { return; }
      var k := AddString(path);
      assets := assets + [Asset(k, data)];
    }

    /** The file size, computed before anything is written. */
    method FileSize() returns (size: nat)
      ensures size == 64 + |Body(Contents())|
    {
      hide Body, Table, ConstantBytes, StringBytes, EntryBytes, UpvalueBytes, LineBytes, AssetBytes;
      size := 64 + 4 + 4 + 4 + |functions| * 24 + 4 + |upvalues| * 6 + 4 + |instructions| + 4 + |lines| * 8 + 4;
      BodySize(Contents());
      TableSize(EntryBytes, functions, 24);
      TableSize(UpvalueBytes, upvalues, 6);
      TableSize(LineBytes, lines, 8);
      var constantSize := TableBytes(ConstantBytes, constants);
      var stringSize := TableBytes(StringBytes, strings);
      var assetSize := TableBytes(AssetBytes, assets);
      size := size + constantSize + stringSize + assetSize;
    }

    /** vebc_builder_write: the bytes given to fwrite. The precomputed size is the position after the last byte. */
    method Write(sha: Text -> Digest) returns (buf: array<Byte>)
      ensures fresh(buf) && buf[..] == File(sha, Contents())
    {
      hide Body, File, PREAMBLE, RESERVED;
      ghost var b := Contents();
      var size := FileSize();
      buf := NewFile(size);
      var pos := WriteBody(buf, Body(b));
      assert pos == buf.Length;
      ghost var header := buf[..64];
      assert buf[..8] == header[..8] && buf[40..64] == header[40..64];
      assert buf[64..pos] == buf[64..];
      var digest := sha(buf[64..pos]);
      StoreDigest(buf, digest);
      assert buf[40..][..24] == buf[40..64] && buf[40..][24..] == buf[64..];
      ghost var data := buf[..];
      assert data[..8] == buf[..8] && data[8..40] == buf[8..40] && data[40..64] == buf[40..64] && data[64..] == buf[64..];
      FileWritten(sha, b, buf[..]);
    }

    lemma ContentsParts()
      ensures Contents() == Builder(strings, constants, functions, upvalues, instructions, lines, assets)
    {
    }

    method WriteBody(buf: array<Byte>, ghost body: Text) returns (pos: nat)
      requires body == Body(Contents()) && buf.Length == 64 + |body|
      modifies buf
      ensures pos == buf.Length && buf[64..] == body && buf[..64] == old(buf[..64])
    {
      hide *;
      ghost var b := Contents();
      ContentsParts();
      BodyParts(b);
      TableAlone(AssetBytes, assets);
      var out := new Output(buf, body);
      out.PutSection(ConstantBytes, constants, FromStrings(b));
      out.PutSection(StringBytes, strings, FromFunctions(b));
      out.PutSection(EntryBytes, functions, FromUpvalues(b));
      out.PutSection(UpvalueBytes, upvalues, FromInstructions(b));
      out.Put(U32(|instructions|), instructions + FromLines(b));
      out.Put(instructions, FromLines(b));
      out.PutSection(LineBytes, lines, FromAssets(b));
      out.PutSection(AssetBytes, assets, []);
      pos := out.pos;
      AllWritten(out);
    }
  }

  /** calloc, the magic number, the version and the flags. */
  method NewFile(size: nat) returns (buf: array<Byte>)
    requires size >= 64
    ensures fresh(buf) && buf.Length == size && buf[..64][..8] == PREAMBLE && buf[..64][40..64] == RESERVED
  {
    buf := new Byte[size](_ => 0);
    buf[0], buf[1], buf[2], buf[3] := 0x56, 0x45, 0x42, 0x43;
    buf[4], buf[5], buf[6], buf[7] := 1, 0, 0, 0;
    assert buf[..64][40..64] == buf[40..64];
    assert buf[..64][..8] == buf[..8];
  }

  lemma AllWritten(out: Output)
    requires out.Valid() && out.rest == []
    ensures out.pos == out.buf.Length && out.buf[64..] == out.body
  {
    assert out.buf[64..] == out.buf[64..out.pos] + [];
  }

  method StoreDigest(buf: array<Byte>, digest: Digest)
    requires buf.Length >= 64
    modifies buf
    ensures buf[8..40] == digest && buf[..8] == old(buf[..8]) && buf[40..] == old(buf[40..])
  {
    var i := 0;
    while i < 32
      invariant 0 <= i <= 32 && buf[..8] == old(buf[..8]) && buf[40..] == old(buf[40..]) && buf[8..8 + i] == digest[..i]
    {
      buf[8 + i] := digest[i];
      i := i + 1;
    }
  }

  lemma FileWritten(sha: Text -> Digest, b: Builder, data: Text)
    requires |data| >= 64 && data[..8] == PREAMBLE && data[8..40] == sha(Body(b)) && data[40..64] == RESERVED && data[64..] == Body(b)
    ensures data == File(sha, b)
  {
    hide Body;
    assert data == data[..8] + (data[8..40] + (data[40..64] + data[64..]));
  }

  method FindString(strings: seq<Text>, s: Text) returns (found: bool, k: nat)
    ensures k == IndexOf(strings, s) && found == (k < |strings|)
  {
    k := 0;
    assert strings[0..] == strings;
    while k < |strings|
      invariant k <= |strings| && IndexOf(strings, s) == k + IndexOf(strings[k..], s)
    {
      assert strings[k..][1..] == strings[k + 1..];
      if strings[k] == s { return true, k; }
      k := k + 1;
    }
    found := false;
  }

  /** The loop that makes line entries. */
  method LineRuns(lines: seq<Int32>) returns (runs: seq<LineEntry>)
    ensures runs == Runs(lines, 0, -1)
  {
    hide Runs, Unsigned32;
    runs := [];
    var previous: Int32, i := -1, 0;
    ghost var all := Runs(lines, 0, -1);
    assert [] + all == all;
    while i < |lines|
      invariant 0 <= i <= |lines| && all == runs + Runs(lines, i, previous)
    {
      RunsStep(lines, i, previous);
      ghost var more := Runs(lines, i + 1, lines[i]);
      if lines[i] != previous {
        assert runs + ([LineEntry(i, Unsigned32(lines[i]))] + more) == runs + [LineEntry(i, Unsigned32(lines[i]))] + more;
        runs := runs + [LineEntry(i, Unsigned32(lines[i]))];
        previous := lines[i];
      } else {
        assert [] + more == more;
      }
      i := i + 1;
    }
    NoRuns(lines, previous);
  }

  lemma NoRuns(lines: seq<Int32>, previous: Int32)
    ensures Runs(lines, |lines|, previous) == []
  {
  }

  lemma ConstantsStep(b: Builder, vs: seq<Value>, i: nat)
    requires i < |vs|
    ensures AddConstants(b, vs[i..]) ==
            if |b.constants| >= MAX_CONSTANTS then b else AddConstants(AddConstant(b, vs[i]), vs[i + 1..])
  {
    hide AddConstant;
    assert vs[i..][1..] == vs[i + 1..];
  }

  lemma NoMoreConstants(b: Builder, vs: seq<Value>)
    requires vs == []
    ensures AddConstants(b, vs) == b
  {
  }

  method TableBytes<T>(f: T -> Text, xs: seq<T>) returns (size: nat)
    ensures size == |Table(f, xs)|
  {
    size := 0;
    var i := 0;
    assert xs[0..] == xs;
    while i < |xs|
      invariant 0 <= i <= |xs| && size + |Table(f, xs[i..])| == |Table(f, xs)|
    {
      TableStep(f, xs, i, []);
      size := size + |f(xs[i])|;
      i := i + 1;
    }
  }

  // ---- The loader ----

  /** The loop that skips the constants. */
  method SkipAll(data: Text, start: nat, n: nat) returns (r: Option<nat>)
    ensures r == SkipConstants(data, start, n)
  {
    hide SkipConstant, SkipConstants;
    var pos: nat, i := start, 0;
    while i < n
      invariant 0 <= i <= n && SkipConstants(data, start, n) == SkipConstants(data, pos, n - i)
    {
      SkipStep(data, pos, n - i);
      var next := SkipOne(data, pos);
      if next.None? { return None; }
      pos := next.value;
      i := i + 1;
    }
    NoConstants(data, pos, []);
    r := Some(pos);
  }

  lemma SkipStep(data: Text, pos: nat, n: nat)
    requires n > 0
    ensures SkipConstants(data, pos, n) ==
            if SkipConstant(data, pos).None? then None else SkipConstants(data, SkipConstant(data, pos).value, n - 1)
  {
    hide SkipConstant;
  }

  /** One turn: the tag, and the bounds of what it says is there. */
  method SkipOne(data: Text, start: nat) returns (r: Option<nat>)
    ensures r == SkipConstant(data, start)
  {
    hide FromU32;
    var pos := start;
    if pos + 1 > |data| { return None; }
    var tag := data[pos];
    pos := pos + 1;
    if tag == TAG_INT_CONST || tag == TAG_FLOAT_CONST {
      if pos + 8 > |data| { return None; }
      pos := pos + 8;
    } else if tag == TAG_STRING_CONST || tag == TAG_FUNC_CONST {
      if pos + 4 > |data| { return None; }
      pos := pos + 4;
    } else if tag == TAG_BYTES_CONST {
      if pos + 4 > |data| { return None; }
      var n := FromU32(data[pos..pos + 4]);
      pos := pos + 4;
      if pos + n > |data| { return None; }
      pos := pos + n;
    } else {
      return None;
    }
    r := Some(pos);
  }

  function After(strings: seq<Text>, r: Option<(seq<Text>, nat)>): Option<(seq<Text>, nat)> {
    match r
    case None => None
    case Some((more, pos)) => Some((strings + more, pos))
  }

  lemma StringsStep(data: Text, pos: nat, n: nat, strings: seq<Text>)
    requires n > 0
    ensures After(strings, ReadStrings(data, pos, n)) ==
            if Count(data, pos).None? || Skip(data, pos + 4, Count(data, pos).value).None? then None
            else
              var end := Skip(data, pos + 4, Count(data, pos).value).value;
              After(strings + [data[pos + 4..end]], ReadStrings(data, end, n - 1))
  {
    hide Count;
    if Count(data, pos).Some? && Skip(data, pos + 4, Count(data, pos).value).Some? {
      var end := Skip(data, pos + 4, Count(data, pos).value).value;
      match ReadStrings(data, end, n - 1) {
        case None =>
        case Some((more, _)) => assert strings + ([data[pos + 4..end]] + more) == strings + [data[pos + 4..end]] + more;
      }
    }
  }

  lemma StringsStart(data: Text, pos: nat, n: nat)
    ensures After([], ReadStrings(data, pos, n)) == ReadStrings(data, pos, n)
  {
    hide ReadStrings;
    match ReadStrings(data, pos, n) {
      case None =>
      case Some((more, _)) => assert [] + more == more;
    }
  }

  lemma StringsEnd(data: Text, pos: nat, strings: seq<Text>)
    ensures After(strings, ReadStrings(data, pos, 0)) == Some((strings, pos))
  {
    assert strings + [] == strings;
  }

  /** The loop that gathers the strings. */
  method ReadAllStrings(data: Text, start: nat, n: nat) returns (r: Option<(seq<Text>, nat)>)
    ensures r == ReadStrings(data, start, n)
  {
    hide ReadStrings, After, FromU32;
    var pos: nat, strings, i := start, [], 0;
    StringsStart(data, start, n);
    while i < n
      invariant 0 <= i <= n && ReadStrings(data, start, n) == After(strings, ReadStrings(data, pos, n - i))
    {
      StringsStep(data, pos, n - i, strings);
      if pos + 4 > |data| { return None; }
      var size := FromU32(data[pos..pos + 4]);
      pos := pos + 4;
      if pos + size > |data| { return None; }
      strings := strings + [data[pos..pos + size]];
      pos := pos + size;
      i := i + 1;
    }
    StringsEnd(data, pos, strings);
    r := Some((strings, pos));
  }

  /** A section of fixed size: its count, and the position behind it. */
  method SkipTable(data: Text, start: nat, size: nat) returns (r: Option<(nat, nat)>)
    ensures r == (if Count(data, start).None? then None
                  else
                    var n := Count(data, start).value;
                    if Skip(data, start + 4, n * size).None? then None else Some((n, start + 4 + n * size)))
  {
    hide FromU32;
    var pos := start;
    if pos + 4 > |data| { return None; }
    var n := FromU32(data[pos..pos + 4]);
    pos := pos + 4;
    if pos + n * size > |data| { return None; }
    pos := pos + n * size;
    r := Some((n, pos));
  }

  /** vebc_load on the bytes of the file. */
  method LoadFile(data: Text) returns (r: Option<Loaded>)
    ensures r == Load(data)
  {
    hide Sections;
    if |data| < 64 { return None; }
    MagicAndVersion(data);
    if data[0] != 0x56 || data[1] != 0x45 || data[2] != 0x42 || data[3] != 0x43 { return None; }
    if FromU16(data[4], data[5]) != 1 { return None; }
    r := LoadSections(data);
  }

  lemma MagicAndVersion(data: Text)
    requires |data| >= 64
    ensures data[..4] == PREAMBLE[..4] <==> data[0] == 0x56 && data[1] == 0x45 && data[2] == 0x42 && data[3] == 0x43
    ensures data[4..6] == PREAMBLE[4..6] <==> FromU16(data[4], data[5]) == 1
  {
    var m, v := data[..4], data[4..6];
    assert m[0] == data[0] && m[1] == data[1] && m[2] == data[2] && m[3] == data[3] && v[0] == data[4] && v[1] == data[5];
  }

  method LoadSections(data: Text) returns (r: Option<Loaded>)
    ensures r == Sections(data)
  {
    hide Count, Skip, SkipConstants, ReadStrings;
    var constCount := ReadCount(data, 64);
    if constCount.None? { return None; }
    var afterConstants := SkipAll(data, 68, constCount.value);
    if afterConstants.None? { return None; }
    var stringCount := ReadCount(data, afterConstants.value);
    if stringCount.None? { return None; }
    var strings := ReadAllStrings(data, afterConstants.value + 4, stringCount.value);
    if strings.None? { return None; }
    var pos := strings.value.1;
    var functions := SkipTable(data, pos, 24);
    if functions.None? { return None; }
    SkipIs(data, pos + 4, functions.value.0 * 24);
    var funcOffset := pos + 4;
    pos := functions.value.1;
    var upvalues := SkipTable(data, pos, 6);
    if upvalues.None? { return None; }
    SkipIs(data, pos + 4, upvalues.value.0 * 6);
    pos := upvalues.value.1;
    var instructions := SkipTable(data, pos, 1);
    if instructions.None? { return None; }
    SkipIs(data, pos + 4, instructions.value.0);
    var instrOffset := pos + 4;
    pos := instructions.value.1;
    var lines := SkipTable(data, pos, 8);
    if lines.None? { return None; }
    SkipIs(data, pos + 4, lines.value.0 * 8);
    var lineOffset := pos + 4;
    pos := lines.value.1;
    var assets := ReadCount(data, pos);
    if assets.None? { return None; }
    r := Some(Loaded(data, constCount.value, 68, strings.value.0, functions.value.0, funcOffset, instructions.value.0, instrOffset,
                     lines.value.0, lineOffset));
  }

  lemma SkipIs(data: Text, pos: nat, n: nat)
    ensures Skip(data, pos, n).Some? ==> Skip(data, pos, n) == Some(pos + n)
  {
  }

  method ReadCount(data: Text, pos: nat) returns (r: Option<nat>)
    ensures r == Count(data, pos)
  {
    if pos + 4 > |data| { return None; }
    r := Some(FromU32(data[pos..pos + 4]));
  }

  // ---- The function ----

  /** The nested loops that give every byte its line, from the entries that the walk reads. */
  method FillLines(data: Text, pos: nat, count: nat, lines: array<Int32>)
    requires WalkInside(data, pos, count, lines.Length)
    modifies lines
    ensures lines[..] == Expand(EntriesRead(data, pos, count, lines.Length), 0, lines.Length, 0, 1)
  {
    hide Expand, Advance, Signed32, WalkInside, EntriesRead;
    ghost var es := EntriesRead(data, pos, count, lines.Length);
    ghost var all := Expand(es, 0, lines.Length, 0, 1);
    var k: nat, line: nat, i := 0, 1, 0;
    while i < lines.Length
      invariant 0 <= i <= lines.Length && k <= |es| && forall j :: 0 <= j < k ==> es[j].offset < i
      invariant lines[..i] + Expand(es, i, lines.Length, k, line) == all
    {
      ExpandStep(es, i, lines.Length, k, line);
      k, line := NextLine(data, pos, count, lines.Length, i, k, line);
      ghost var more := Expand(es, i + 1, lines.Length, k, line);
      assert lines[..i] + ([Signed32(line)] + more) == lines[..i] + [Signed32(line)] + more;
      lines[i] := Signed32(line);
      i := i + 1;
    }
    NothingToExpand(es, i, k, line);
    assert lines[..i] == lines[..];
  }

  method NextLine(data: Text, pos: nat, count: nat, ghost length: nat, i: nat, start: nat, current: nat) returns (k: nat, line: nat)
    requires WalkInside(data, pos, count, length) && i < length && start <= |EntriesRead(data, pos, count, length)|
    requires forall j :: 0 <= j < start ==> EntriesRead(data, pos, count, length)[j].offset < i
    ensures k <= |EntriesRead(data, pos, count, length)|
    ensures (k, line) == Advance(EntriesRead(data, pos, count, length), i, start, current)
    ensures forall j :: 0 <= j < k ==> EntriesRead(data, pos, count, length)[j].offset <= i
  {
    hide FromU32, WalkInside, EntriesRead, ReadLine;
    k, line := start, current;
    ghost var es := EntriesRead(data, pos, count, length);
    while k < count
      invariant k <= |es| && Advance(es, i, start, current) == Advance(es, i, k, line)
      invariant forall j :: 0 <= j < k ==> es[j].offset <= i
    {
      EntryThere(data, pos, count, length, k, i);
      var offset := FromU32(data[pos + 8 * k..pos + 8 * k + 4]);
      var source := FromU32(data[pos + 8 * k + 4..pos + 8 * k + 8]);
      if offset > i { return; }
      line := source;
      k := k + 1;
    }
    AllRead(data, pos, count, length);
  }

  /** As long as all entries so far are for bytes within the code, the next one is inside the file. */
  lemma EntryThere(data: Text, pos: nat, count: nat, length: nat, k: nat, i: nat)
    requires WalkInside(data, pos, count, length) && i < length && k < count && k <= |EntriesRead(data, pos, count, length)|
    requires forall j :: 0 <= j < k ==> EntriesRead(data, pos, count, length)[j].offset <= i
    ensures var es := EntriesRead(data, pos, count, length);
            && k < |es| && pos + 8 * k + 8 <= |data|
            && es[k].offset == FromU32(data[pos + 8 * k..pos + 8 * k + 4])
            && es[k].line == FromU32(data[pos + 8 * k + 4..pos + 8 * k + 8])
  {
    hide FromU32, WalkInside, Visited;
    VisitedEnds(data, pos, count, length);
    var es := EntriesRead(data, pos, count, length);
    assert k > 0 ==> es[k - 1] == ReadLine(data, pos, k - 1);
  }

  lemma AllRead(data: Text, pos: nat, count: nat, length: nat)
    requires WalkInside(data, pos, count, length)
    ensures |EntriesRead(data, pos, count, length)| <= count
  {
    hide WalkInside, Visited;
  }

  /** The loop that makes the constants anew. */
  method ReadAllConstants(data: Text, start: nat, n: nat, strings: seq<Text>) returns (values: seq<Value>)
    requires SkipConstants(data, start, n).Some?
    ensures values == ReadConstants(data, start, n, strings)
  {
    hide SkipConstant, SkipConstants, ReadConstants, ReadConstant;
    values := [];
    var pos, i := start, 0;
    ghost var all := ReadConstants(data, start, n, strings);
    assert [] + all == all;
    while i < n
      invariant 0 <= i <= n && SkipConstants(data, pos, n - i).Some?
      invariant values + ReadConstants(data, pos, n - i, strings) == all
    {
      SkipStep(data, pos, n - i);
      var after := SkipConstant(data, pos).value;
      ReadConstantsStep(data, pos, n - i, after, strings);
      var v := ReadConstant(data, pos, strings);
      assert values + ([v] + ReadConstants(data, after, n - i - 1, strings)) == values + [v] + ReadConstants(data, after, n - i - 1, strings);
      values := values + [v];
      pos := after;
      i := i + 1;
    }
    NoConstants(data, pos, strings);
  }

  /** vebc_to_function, with its sums of 32 bits, where it reads inside the file. */
  method LoadFunction(file: Loaded) returns (r: Option<Function>)
    requires file.Valid() && ReadsInside(file)
    ensures r == ToFunction32(file)
  {
    hide FirstEntry, SkipConstants, ReadConstants, Expand, ReadLines, WalkInside, EntriesRead, Sum32;
    if file.funcCount == 0 { return None; }
    var e := FirstEntry(file);
    var code: Text := [];
    if e.codeLength > 0 {
      if Sum32(e.codeOffset, e.codeLength) > file.instrLength { return None; }
      code := CopyCode(file.data, file.instrOffset + e.codeOffset, e.codeLength);
    }
    var lines := new Int32[e.codeLength](_ => 0);
    assert lines[..] == NoLines(e.codeLength);
    if e.lineLength > 0 && Sum32(e.lineOffset, e.lineLength) <= file.lineCount {
      FillLines(file.data, file.lineOffset + 8 * e.lineOffset, e.lineLength, lines);
    }
    var constants := ReadAllConstants(file.data, file.constOffset, file.constCount, file.strings);
    r := Some(Function(if e.name < |file.strings| then Some(file.strings[e.name]) else None, e.params, e.upvalues, code, lines[..], constants));
  }

  /** The chunk written byte by byte. */
  method CopyCode(data: Text, pos: nat, n: nat) returns (code: Text)
    requires pos + n <= |data|
    ensures code == data[pos..pos + n]
  {
    code := [];
    var i := 0;
    while i < n
      invariant 0 <= i <= n && code == data[pos..pos + i]
    {
      code := code + [data[pos + i]];
      i := i + 1;
    }
  }
}
