/** The bounds checks of vebc_to_function (src/vebc_loader.c), whose sums have 32 bits: exactly which entries make it read
    outside the file, and what it makes of all others. */
module VebcBounds {
  import opened Bytes
  import opened Options
  import opened Vebc
  import opened VebcRoundTrip

  function Sum32(a: nat, b: nat): nat {
    (a + b) % TWO_32
  }

  /** The test of the code: passed unless it is known to be too long. */
  predicate CodePasses(file: Loaded, e: Entry) {
    e.codeLength > 0 ==> Sum32(e.codeOffset, e.codeLength) <= file.instrLength
  }

  predicate LinesPass(file: Loaded, e: Entry) {
    e.lineLength > 0 && Sum32(e.lineOffset, e.lineLength) <= file.lineCount
  }

  /** The walk over at most n line entries reads inside the file: it ends behind the first entry for a byte beyond the
      code. */
  predicate WalkInside(data: Text, pos: nat, n: nat, length: nat)
    decreases n
  {
    n == 0 || length == 0 ||
    (pos + 8 <= |data| && (FromU32(data[pos..pos + 4]) < length ==> WalkInside(data, pos + 8, n - 1, length)))
  }

  /** How many entries the walk reads. */
  function Visited(data: Text, pos: nat, n: nat, length: nat): (v: nat)
    requires WalkInside(data, pos, n, length)
    ensures v <= n && (v == 0 || pos + 8 * v <= |data|)
    decreases n
  {
    if n == 0 || length == 0 then 0
    else if FromU32(data[pos..pos + 4]) < length then 1 + Visited(data, pos + 8, n - 1, length)
    else 1
  }

  /** Everything that vebc_to_function reads for its entry is inside the file. */
  predicate ReadsInside(file: Loaded)
    requires file.Valid()
  {
    file.funcCount > 0 ==>
      var e := FirstEntry(file);
      CodePasses(file, e) ==>
        && (e.codeLength > 0 ==> file.instrOffset + e.codeOffset + e.codeLength <= |file.data|)
        && (LinesPass(file, e) ==> WalkInside(file.data, file.lineOffset + 8 * e.lineOffset, e.lineLength, e.codeLength))
  }

  /** The entries that are read. */
  function EntriesRead(data: Text, pos: nat, n: nat, length: nat): (es: seq<LineEntry>)
    requires WalkInside(data, pos, n, length)
    ensures |es| == Visited(data, pos, n, length)
  {
    var v := Visited(data, pos, n, length);
    if v == 0 then [] else ReadLines(data, pos, v)
  }

  /** vebc_to_function on any file that it does not read outside of. */
  function ToFunction32(file: Loaded): Option<Function>
    requires file.Valid() && ReadsInside(file)
  {
    if file.funcCount == 0 then None
    else
      var e := FirstEntry(file);
      if !CodePasses(file, e) then None
      else
        var code := if e.codeLength > 0 then file.data[file.instrOffset + e.codeOffset..file.instrOffset + e.codeOffset + e.codeLength] else [];
        var lines :=
          if LinesPass(file, e) then
            Expand(EntriesRead(file.data, file.lineOffset + 8 * e.lineOffset, e.lineLength, e.codeLength), 0, e.codeLength, 0, 1)
          else NoLines(e.codeLength);
        Some(Function(if e.name < |file.strings| then Some(file.strings[e.name]) else None, e.params, e.upvalues, code, lines,
                      ReadConstants(file.data, file.constOffset, file.constCount, file.strings)))
  }

  // ---- When that is ----

  lemma Small(s: Text)
    requires |s| == 4
    ensures FromU32(s) < TWO_32
  {
  }

  lemma EntryIsSmall(file: Loaded)
    requires file.Valid() && file.funcCount > 0
    ensures var e := FirstEntry(file);
            e.codeOffset < TWO_32 && e.codeLength < TWO_32 && e.lineOffset < TWO_32 && e.lineLength < TWO_32
  {
    hide FromU32, FromU16;
    var s := file.data[file.funcOffset..file.funcOffset + 24];
    Small(s[8..12]);
    Small(s[12..16]);
    Small(s[16..20]);
    Small(s[20..24]);
  }

  lemma SumOf(a: nat, b: nat)
    requires a < TWO_32 && b < TWO_32
    ensures Sum32(a, b) == if a + b < TWO_32 then a + b else a + b - TWO_32
  {
  }

  lemma {:induction false} TableInside(data: Text, pos: nat, n: nat, length: nat)
    requires pos + 8 * n <= |data|
    ensures WalkInside(data, pos, n, length)
    decreases n
  {
    hide FromU32;
    if n > 0 { TableInside(data, pos + 8, n - 1, length); }
  }

  /** In a file below 4 GB the reads stay inside exactly if the function is refused, or the sum for the code does not
      wrap around, and a sum for the lines that wraps around and passes belongs to a walk that ends in time. */
  lemma ReadsInsideIff(file: Loaded)
    requires file.Valid() && |file.data| < TWO_32 && file.funcCount > 0
    ensures var e := FirstEntry(file);
            ReadsInside(file) <==>
            !CodePasses(file, e) ||
            (&& (e.codeLength > 0 ==> e.codeOffset + e.codeLength < TWO_32)
             && (LinesPass(file, e) && e.lineOffset + e.lineLength >= TWO_32 ==>
                   WalkInside(file.data, file.lineOffset + 8 * e.lineOffset, e.lineLength, e.codeLength)))
  {
    hide FirstEntry, WalkInside, SkipConstants, Sum32;
    var e := FirstEntry(file);
    EntryIsSmall(file);
    SumOf(e.codeOffset, e.codeLength);
    SumOf(e.lineOffset, e.lineLength);
    if e.lineOffset + e.lineLength <= file.lineCount {
      TableInside(file.data, file.lineOffset + 8 * e.lineOffset, e.lineLength, e.codeLength);
    }
  }

  // ---- Without wrapping ----

  lemma {:induction false} VisitedEnds(data: Text, pos: nat, n: nat, length: nat)
    requires WalkInside(data, pos, n, length)
    ensures var v := Visited(data, pos, n, length);
            && (forall k: nat :: k + 1 < v ==> pos + 8 * k + 8 <= |data| && ReadLine(data, pos, k).offset < length)
            && (v < n && length > 0 ==> v > 0 && ReadLine(data, pos, v - 1).offset >= length)
    decreases n
  {
    hide FromU32;
    if n > 0 && length > 0 && FromU32(data[pos..pos + 4]) < length {
      var v := Visited(data, pos, n, length);
      VisitedEnds(data, pos + 8, n - 1, length);
      forall k: nat | k + 1 < v ensures pos + 8 * k + 8 <= |data| && ReadLine(data, pos, k).offset < length {
        if k > 0 { assert ReadLine(data, pos, k) == ReadLine(data, pos + 8, k - 1); }
      }
      if v < n { assert ReadLine(data, pos, v - 1) == ReadLine(data, pos + 8, v - 2); }
    }
  }

  lemma {:induction false} AdvanceFront(es: seq<LineEntry>, v: nat, i: nat, k: nat, line: nat)
    requires v <= |es| && k <= v && (v < |es| ==> k < v && es[v - 1].offset > i)
    ensures Advance(es[..v], i, k, line) == Advance(es, i, k, line)
    ensures v < |es| ==> Advance(es, i, k, line).0 < v
    decreases v - k
  {
    if k < v && es[k].offset <= i { AdvanceFront(es, v, i, k + 1, es[k].line); }
  }

  /** Entries behind one for a byte beyond the end do not matter. */
  lemma {:induction false} ExpandFront(es: seq<LineEntry>, v: nat, i: nat, n: nat, k: nat, line: nat)
    requires v <= |es| && i <= n && k <= v && (v < |es| ==> k < v && es[v - 1].offset >= n)
    ensures Expand(es[..v], i, n, k, line) == Expand(es, i, n, k, line)
    decreases n - i
  {
    hide Advance;
    if i < n {
      AdvanceFront(es, v, i, k, line);
      var (next, now) := Advance(es, i, k, line);
      ExpandFront(es, v, i + 1, n, next, now);
    }
  }

  lemma ReadIsEnough(data: Text, pos: nat, n: nat, length: nat)
    requires pos + 8 * n <= |data|
    ensures WalkInside(data, pos, n, length)
    ensures Expand(EntriesRead(data, pos, n, length), 0, length, 0, 1) == Expand(ReadLines(data, pos, n), 0, length, 0, 1)
  {
    hide Expand, ReadLine, WalkInside, Visited;
    TableInside(data, pos, n, length);
    if length == 0 {
      NothingToExpand(EntriesRead(data, pos, n, length), 0, 0, 1);
      NothingToExpand(ReadLines(data, pos, n), 0, 0, 1);
    } else {
      var es, v := ReadLines(data, pos, n), Visited(data, pos, n, length);
      VisitedEnds(data, pos, n, length);
      assert EntriesRead(data, pos, n, length) == es[..v];
      ExpandFront(es, v, 0, length, 0, 1);
    }
  }

  /** Where no sum wraps around, the reads stay inside and the function is that of module Vebc. */
  lemma SameFunction(file: Loaded)
    requires file.Valid()
    requires file.funcCount > 0 ==>
               FirstEntry(file).codeOffset + FirstEntry(file).codeLength < TWO_32 &&
               FirstEntry(file).lineOffset + FirstEntry(file).lineLength < TWO_32
    ensures ReadsInside(file) && ToFunction32(file) == ToFunction(file)
  {
    hide FirstEntry, WalkInside, SkipConstants, Sum32, Expand, ReadConstants, EntriesRead, ReadLines, NoLines;
    if file.funcCount > 0 {
      var e := FirstEntry(file);
      SumOf(e.codeOffset, e.codeLength);
      SumOf(e.lineOffset, e.lineLength);
      if e.lineOffset + e.lineLength <= file.lineCount {
        ReadIsEnough(file.data, file.lineOffset + 8 * e.lineOffset, e.lineLength, e.codeLength);
      }
    }
  }

  /** Every written file is read inside, and read as module VebcRoundTrip has it. */
  lemma WrittenFileIsInside(sha: Text -> Digest, calls: seq<Call>, fn: Function)
    requires FirstFunction(calls) == Some(fn) && fn.Valid()
    requires |Build(calls).strings| < MAX_STRINGS && |Build(calls).constants| < MAX_CONSTANTS && |Body(Build(calls))| < TWO_32
    ensures var data := File(sha, Build(calls));
            Load(data).Some? && ReadsInside(Load(data).value) && ToFunction32(Load(data).value) == ToFunction(Load(data).value)
  {
    hide *;
    var b := Build(calls);
    var data := File(sha, b);
    BuilderHolds(calls);
    WrittenFileLoads(sha, b);
    SmallFileFits(b);
    FirstEntryRead(data, b, fn);
    SameFunction(Load(data).value);
  }

  lemma FirstEntryRead(data: Text, b: Builder, fn: Function)
    requires LaidOut(data, b) && NumbersFit(b) && HasFirst(b, fn) && fn.Valid() && LoadedOf(data, b).Valid()
    ensures var file := LoadedOf(data, b);
            file.funcCount > 0 ==>
              FirstEntry(file).codeOffset + FirstEntry(file).codeLength < TWO_32 &&
              FirstEntry(file).lineOffset + FirstEntry(file).lineLength < TWO_32
  {
    hide At, U32, Table, Runs, FirstEntry, ReadConstants, Meanings, ConstantFits, LineFits, ConstantBytes, StringBytes, EntryBytes,
         UpvalueBytes, LineBytes, SkipConstants, ConstEnd, StringEnd, UpvalueEnd, InstrEnd, FuncEnd, LineEnd;
    var file, e := LoadedOf(data, b), b.functions[0];
    FirstEntryPart(data, StringEnd(b) + 4, b.functions);
    FirstEntryAt(file, e);
  }
}
