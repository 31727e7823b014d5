/** Stored-block DEFLATE and gzip framing (src/stdlib_compress.c; section 3.2.4 of RFC 1951 and section 2.3 of
    RFC 1952): inflating undoes deflating, and gunzip undoes gzip, for every byte string. */
module Deflate {
  import opened Bytes
  import opened Options
  import opened Sequences
  import Crc32

  const MAX_BLOCK := 65535

  /** One stored block: the final flag, LEN, its complement NLEN, and the data. */
  function Block(data: seq<Byte>, last: bool): (r: seq<Byte>)
    requires |data| <= MAX_BLOCK
    ensures |r| == 5 + |data|
  {
    [if last then 1 else 0] + U16(|data|) + U16(65535 - |data|) + data
  }

  function DeflateStored(data: seq<Byte>): (r: seq<Byte>)
    ensures r != []
    decreases |data|
  {
    if |data| <= MAX_BLOCK then Block(data, true)
    else Block(data[..MAX_BLOCK], false) + DeflateStored(data[MAX_BLOCK..])
  }

  /** The size computed in advance: five bytes for each block. */
  function DeflatedSize(n: nat): nat {
    (if n == 0 then 1 else (n + 65534) / 65535) * 5 + n
  }

  lemma {:induction false} SizeIsExact(data: seq<Byte>)
    ensures |DeflateStored(data)| == DeflatedSize(|data|)
    decreases |data|
  {
    hide Block;
    if |data| > MAX_BLOCK {
      SizeIsExact(data[MAX_BLOCK..]);
      assert (|data| + 65534) / 65535 == (|data| - 65535 + 65534) / 65535 + 1;
    }
  }

  function LengthOf(s: seq<Byte>): nat
    requires |s| >= 5
  {
    FromU16(s[1], s[2])
  }

  /** The second pass of inflate_stored: what is extracted. NLEN and the block type are not checked. */
  function Inflate(s: seq<Byte>): seq<Byte>
    decreases |s|
  {
    if |s| < 5 || 5 + LengthOf(s) > |s| then []
    else
      var n := LengthOf(s);
      s[5..5 + n] + if s[0] % 2 == 1 then [] else Inflate(s[5 + n..])
  }

  /** The first pass: how much room is allocated. */
  function TotalSize(s: seq<Byte>): nat
    decreases |s|
  {
    if |s| < 5 then 0
    else
      var n := LengthOf(s);
      n + if s[0] % 2 == 1 || 5 + n >= |s| then 0 else TotalSize(s[5 + n..])
  }

  /** Whatever the input, what is extracted fits the room. */
  lemma {:induction false} ExtractedFits(s: seq<Byte>)
    ensures |Inflate(s)| <= TotalSize(s)
    decreases |s|
  {
    if |s| >= 5 && 5 + LengthOf(s) < |s| && s[0] % 2 == 0 { ExtractedFits(s[5 + LengthOf(s)..]); }
  }

  lemma BlockParts(data: seq<Byte>, last: bool, more: seq<Byte>)
    requires |data| <= MAX_BLOCK
    ensures var s := Block(data, last) + more;
            && |s| >= 5 + |data| && LengthOf(s) == |data| && s[0] == (if last then 1 else 0)
            && s[5..5 + |data|] == data && s[5 + |data|..] == more
  {
    hide U16, FromU16;
    var s := Block(data, last) + more;
    U16RoundTrip(|data|);
    assert s[1] == U16(|data|)[0] && s[2] == U16(|data|)[1];
  }

  /** Inflating what deflate wrote gives the data back, from room of exactly its size, even with other bytes
      behind the last block. */
  lemma {:induction false} InflateUndoesDeflate(data: seq<Byte>, more: seq<Byte>)
    ensures Inflate(DeflateStored(data) + more) == data && TotalSize(DeflateStored(data) + more) == |data|
    decreases |data|
  {
    hide Block, LengthOf;
    if |data| <= MAX_BLOCK {
      BlockParts(data, true, more);
      assert data + [] == data;
    } else {
      var rest := DeflateStored(data[MAX_BLOCK..]) + more;
      assert DeflateStored(data) + more == Block(data[..MAX_BLOCK], false) + rest;
      BlockParts(data[..MAX_BLOCK], false, rest);
      InflateUndoesDeflate(data[MAX_BLOCK..], more);
      assert data[..MAX_BLOCK] + data[MAX_BLOCK..] == data;
    }
  }

  // ---- gzip ----

  /** Magic number, method, no flags, no time, unknown system. */
  const GZIP_HEADER: seq<Byte> := [0x1F, 0x8B, 8, 0, 0, 0, 0, 0, 0, 0xFF]

  /** Checksum and size. */
  function Trailer(data: seq<Byte>): (r: seq<Byte>)
    ensures |r| == 8
  {
    U32(Crc32.Crc(data) as nat) + U32(|data|)
  }

  function Gzip(data: seq<Byte>): seq<Byte> {
    GZIP_HEADER + DeflateStored(data) + Trailer(data)
  }

  predicate Flag(flags: Byte, bit: nat)
    requires bit > 0
  {
    flags / bit % 2 == 1
  }

  /** Past a NUL-terminated field; one past the end if there is no NUL. */
  function SkipName(s: seq<Byte>, i: nat): (r: nat)
    ensures r > i
    decreases if i < |s| then |s| - i else 0
  {
    if i < |s| && s[i] != 0 then SkipName(s, i + 1) else i + 1
  }

  /** Past the extra field. The check is there for a field that is not complete, but it tests its length bytes only. */
  function PastExtra(s: seq<Byte>): Option<nat>
    requires |s| >= 4
  {
    if !Flag(s[3], 4) then Some(10)
    else if 12 > |s| then None
    else Some(12 + FromU16(s[10], s[11]))
  }

  /** Where the compressed data starts, past the optional fields. */
  function DataStart(s: seq<Byte>): Option<nat>
    requires |s| >= 4
  {
    match PastExtra(s)
    case None => None
    case Some(a) =>
      var b := if Flag(s[3], 8) then SkipName(s, a) else a;
      var c := if Flag(s[3], 16) then SkipName(s, b) else b;
      Some(if Flag(s[3], 2) then c + 2 else c)
  }

  function Gunzip(s: seq<Byte>): Option<seq<Byte>> {
    if |s| < 18 || s[0] != 0x1F || s[1] != 0x8B || s[2] != 8 then None
    else
      match DataStart(s)
      case None => None
      case Some(start) => if start + 8 > |s| then None else Some(Inflate(s[start..|s| - 8]))
  }

  /** gunzip undoes gzip on every byte string. */
  lemma GunzipUndoesGzip(data: seq<Byte>)
    ensures Gunzip(Gzip(data)) == Some(data)
  {
    hide DeflateStored, Inflate, Trailer;
    var d, s := DeflateStored(data), Gzip(data);
    var trailer := Trailer(data);
    SizeIsExact(data);
    assert s == GZIP_HEADER + d + trailer;
    assert s[..10] == GZIP_HEADER;
    assert s[0] == GZIP_HEADER[0] && s[1] == GZIP_HEADER[1] && s[2] == GZIP_HEADER[2] && s[3] == GZIP_HEADER[3];
    assert s[10..|s| - 8] == d;
    InflateUndoesDeflate(data, []);
    assert d + [] == d;
  }

  // ---- The loops ----

  /** deflate_stored: blocks written into a buffer of the size computed in advance. */
  method Compress(data: seq<Byte>) returns (out: array<Byte>, outLen: nat)
    ensures fresh(out) && outLen == out.Length && out[..] == DeflateStored(data)
  {
    hide Block, DeflateStored, DeflatedSize;
    SizeIsExact(data);
    out := new Byte[DeflatedSize(|data|)];
    var pos: nat, remaining: nat, srcPos: nat := 0, |data|, 0;
    assert out[..0] + DeflateStored(data[0..]) == DeflateStored(data) by { assert data[0..] == data; }
    while remaining > 0 || srcPos == 0
      invariant srcPos + remaining == |data| && pos <= out.Length
      invariant srcPos == 0 || remaining > 0 || pos == out.Length
      invariant if srcPos > 0 && remaining == 0 then out[..pos] == DeflateStored(data)
                else out[..pos] + DeflateStored(data[srcPos..]) == DeflateStored(data)
      invariant srcPos == 0 ==> pos == 0
      decreases remaining, if srcPos == 0 then 1 else 0
    {
      var size := if remaining > MAX_BLOCK then MAX_BLOCK else remaining;
      var last := remaining <= MAX_BLOCK;
      ghost var before := out[..pos];
      NextBlock(before, data, srcPos, out.Length);
      WriteBlock(out, pos, data[srcPos..srcPos + size], last);
      pos := pos + 5 + size;
      srcPos := srcPos + size;
      remaining := remaining - size;
      if |data| == 0 { break; }
    }
    outLen := pos;
    assert out[..] == out[..pos];
  }

  /** What one round writes, and what is left to write. */
  lemma NextBlock(before: seq<Byte>, data: seq<Byte>, srcPos: nat, total: nat)
    requires srcPos <= |data| && before + DeflateStored(data[srcPos..]) == DeflateStored(data)
    requires total == |DeflateStored(data)|
    ensures var remaining := |data| - srcPos;
            var size := if remaining > MAX_BLOCK then MAX_BLOCK else remaining;
            var block := Block(data[srcPos..srcPos + size], remaining <= MAX_BLOCK);
            && |before| + |block| <= total
            && (if remaining <= MAX_BLOCK then before + block == DeflateStored(data)
                else before + block + DeflateStored(data[srcPos + size..]) == DeflateStored(data))
  {
    hide Block;
    var rest := data[srcPos..];
    if |rest| <= MAX_BLOCK {
      assert data[srcPos..srcPos + |rest|] == rest;
    } else {
      assert rest[..MAX_BLOCK] == data[srcPos..srcPos + MAX_BLOCK] && rest[MAX_BLOCK..] == data[srcPos + MAX_BLOCK..];
    }
  }

  method WriteBlock(out: array<Byte>, pos: nat, data: seq<Byte>, last: bool)
    requires |data| <= MAX_BLOCK && pos + 5 + |data| <= out.Length
    modifies out
    ensures out[..pos + 5 + |data|] == old(out[..pos]) + Block(data, last)
  {
    hide U16;
    ghost var before := out[..pos];
    WriteHeader(out, pos, |data|, last);
    assert out[..pos] == before;
    ghost var header := [if last then 1 else 0] + U16(|data|) + U16(65535 - |data|);
    assert out[..pos + 5] == before + header;
    CopyBlock(out, pos + 5, data, before + header);
    Assoc(before, header, data);
  }

  method WriteHeader(out: array<Byte>, pos: nat, n: nat, last: bool)
    requires n <= MAX_BLOCK && pos + 5 <= out.Length
    modifies out
    ensures forall j :: 0 <= j < pos ==> out[j] == old(out[j])
    ensures out[pos..pos + 5] == [if last then 1 else 0] + U16(n) + U16(65535 - n)
  {
    var complement := 65535 - n;
    out[pos] := if last then 1 else 0;
    out[pos + 1] := n % 256;
    out[pos + 2] := n / 256 % 256;
    out[pos + 3] := complement % 256;
    out[pos + 4] := complement / 256 % 256;
  }

  /** inflate_stored: a pass to find the size, and a pass to extract. */
  method Decompress(s: seq<Byte>) returns (out: array<Byte>, outLen: nat)
    ensures fresh(out) && outLen <= out.Length && out[..outLen] == Inflate(s)
    ensures out.Length == TotalSize(s) + 1
  {
    hide *;
    var total := FirstPass(s);
    out := new Byte[total + 1];
    outLen := 0;
    var pos := 0;
    ExtractedFits(s);
    assert s[0..] == s && [] + Inflate(s) == Inflate(s);
    while pos < |s|
      invariant pos <= |s| && outLen <= total
      invariant out[..outLen] + Inflate(s[pos..]) == Inflate(s)
      decreases |s| - pos
    {
      var done;
      done, pos, outLen := ExtractBlock(s, out, pos, outLen, total);
      if done { return; }
    }
    NothingLeft(s, pos);
    NothingMore(out[..outLen]);
  }

  /** One block: its data behind what has been extracted, unless it is not complete; the last one ends the pass. */
  method ExtractBlock(s: seq<Byte>, out: array<Byte>, from: nat, before: nat, total: nat)
    returns (done: bool, pos: nat, outLen: nat)
    requires from < |s| && before <= total < out.Length && |Inflate(s)| <= total
    requires out[..before] + Inflate(s[from..]) == Inflate(s)
    modifies out
    ensures outLen <= total
    ensures if done then out[..outLen] == Inflate(s)
            else from < pos <= |s| && out[..outLen] + Inflate(s[pos..]) == Inflate(s)
  {
    hide *;
    InflateStep(s, from);
    NothingMore(out[..before]);
    pos, outLen := from + 1, before;
    if pos + 4 > |s| { return true, pos, outLen; }
    var n := Word(s, pos);
    pos := pos + 4;
    if pos + n > |s| { return true, pos, outLen; }
    ghost var had, more := out[..outLen], if s[from] % 2 == 1 then [] else Inflate(s[pos + n..]);
    Assoc(had, s[pos..pos + n], more);
    CopyBlock(out, outLen, s[pos..pos + n], had);
    outLen := outLen + n;
    pos := pos + n;
    NothingMore(out[..outLen]);
    done := s[from] % 2 == 1;
  }

  lemma NothingMore(a: seq<Byte>)
    ensures a + [] == a
  {
  }

  lemma NothingLeft(s: seq<Byte>, pos: nat)
    requires pos == |s|
    ensures Inflate(s[pos..]) == []
  {
  }

  lemma InflateOnce(s: seq<Byte>)
    ensures Inflate(s) ==
            if |s| < 5 || 5 + LengthOf(s) > |s| then []
            else s[5..5 + LengthOf(s)] + if s[0] % 2 == 1 then [] else Inflate(s[5 + LengthOf(s)..])
  {
    hide LengthOf;
  }

  /** One block of the stream at `pos`. */
  lemma InflateStep(s: seq<Byte>, pos: nat)
    requires pos < |s|
    ensures Inflate(s[pos..]) ==
            if pos + 5 > |s| || pos + 5 + Word(s, pos + 1) > |s| then []
            else
              var n := Word(s, pos + 1);
              s[pos + 5..pos + 5 + n] + if s[pos] % 2 == 1 then [] else Inflate(s[pos + 5 + n..])
  {
    hide LengthOf, Word, Inflate;
    var rest := s[pos..];
    InflateOnce(rest);
    assert |rest| >= 5 ==> LengthOf(rest) == Word(s, pos + 1);
    if |rest| >= 5 && 5 + LengthOf(rest) <= |rest| {
      var n := LengthOf(rest);
      assert rest[5..5 + n] == s[pos + 5..pos + 5 + n] && rest[5 + n..] == s[pos + 5 + n..];
    }
  }

  /** LEN at `pos`. */
  function Word(s: seq<Byte>, pos: nat): (n: nat)
    requires pos + 2 <= |s|
    ensures pos > 0 && pos + 4 <= |s| ==> n == LengthOf(s[pos - 1..])
  {
    FromU16(s[pos], s[pos + 1])
  }

  method CopyBlock(out: array<Byte>, outLen: nat, data: seq<Byte>, ghost before: seq<Byte>)
    requires outLen + |data| <= out.Length && before == out[..outLen]
    modifies out
    ensures out[..outLen + |data|] == before + data
  {
    var i := 0;
    while i < |data|
      invariant 0 <= i <= |data|
      invariant forall j :: 0 <= j < outLen ==> out[j] == before[j]
      invariant forall j :: 0 <= j < i ==> out[outLen + j] == data[j]
    {
      out[outLen + i] := data[i];
      i := i + 1;
    }
    assert out[..outLen] == before && out[outLen..outLen + |data|] == data;
    assert out[..outLen + |data|] == out[..outLen] + out[outLen..outLen + |data|];
  }

  method FirstPass(s: seq<Byte>) returns (total: nat)
    ensures total == TotalSize(s)
  {
    hide LengthOf;
    total := 0;
    var pos := 0;
    assert s[0..] == s;
    while pos < |s|
      invariant pos <= |s| ==> total + TotalSize(s[pos..]) == TotalSize(s)
      invariant pos > |s| ==> total == TotalSize(s)
      decreases |s| - pos
    {
      ghost var rest := s[pos..];
      var header := s[pos];
      pos := pos + 1;
      if pos + 4 > |s| { break; }
      var n := Word(s, pos);
      pos := pos + 4;
      total := total + n;
      pos := pos + n;
      if header % 2 == 1 { break; }
      if pos <= |s| { assert rest[5 + n..] == s[pos..]; }
    }
  }

  /** compress.gzip: the header, the blocks and the trailer copied into one buffer. */
  method GzipBytes(data: seq<Byte>) returns (out: array<Byte>)
    ensures out[..] == Gzip(data)
  {
    hide DeflateStored, U32, Crc32.Crc;
    var deflated, n := Compress(data);
    var crc := Crc32.Compute(data);
    out := new Byte[10 + n + 8];
    var header := GZIP_HEADER;
    assert |header| == 10;
    var blocks := deflated[..n];
    CopyBlock(out, 0, header, []);
    assert [] + header == header;
    CopyBlock(out, 10, blocks, header);
    CopyBlock(out, 10 + n, U32(crc as nat) + U32(|data|), header + blocks);
    assert out[..] == out[..10 + n + 8];
  }

  /** compress.gunzip: nil, or what is inflated between the header and the trailer. */
  method GunzipBytes(s: seq<Byte>) returns (out: Option<seq<Byte>>)
    ensures out == Gunzip(s)
  {
    hide SkipName, Inflate, FromU16, Flag, TotalSize;
    if |s| < 18 { return None; }
    if s[0] != 0x1F || s[1] != 0x8B { return None; }
    if s[2] != 8 { return None; }
    var headerEnd := 10;
    var flags := s[3];
    if Flag(flags, 4) {
      if headerEnd + 2 > |s| { return None; }
      var extra := FromU16(s[headerEnd], s[headerEnd + 1]);
      headerEnd := headerEnd + 2 + extra;
    }
    if Flag(flags, 8) { headerEnd := PastName(s, headerEnd); }
    if Flag(flags, 16) { headerEnd := PastName(s, headerEnd); }
    if Flag(flags, 2) { headerEnd := headerEnd + 2; }
    if headerEnd + 8 > |s| { return None; }
    var inflated, n := Decompress(s[headerEnd..|s| - 8]);
    out := Some(inflated[..n]);
  }

  /** The loop over a NUL-terminated field. */
  method PastName(s: seq<Byte>, start: nat) returns (end: nat)
    ensures end == SkipName(s, start)
  {
    end := start;
    while end < |s| && s[end] != 0
      invariant SkipName(s, end) == SkipName(s, start)
      decreases |s| - end
    {
      end := end + 1;
    }
    end := end + 1;
  }

  // ---- A whole file ----

  /** gzip of the characters 1 to 9, whose checksum is CBF43926: header, one final block of nine bytes, the checksum and
      the size, each with its low byte first. */
  lemma NineDigits()
    ensures Gzip([49, 50, 51, 52, 53, 54, 55, 56, 57]) ==
            [0x1F, 0x8B, 8, 0, 0, 0, 0, 0, 0, 0xFF] + [1, 9, 0, 0xF6, 0xFF, 49, 50, 51, 52, 53, 54, 55, 56, 57] +
            [0x26, 0x39, 0xF4, 0xCB, 9, 0, 0, 0]
  {
    hide Crc32.Crc, U32, Block;
    var data: seq<Byte> := [49, 50, 51, 52, 53, 54, 55, 56, 57];
    Crc32.CheckValue();
    ChecksumBytes();
    NineBlock();
    assert DeflateStored(data) == Block(data, true);
  }

  lemma ChecksumBytes()
    ensures U32(0xCBF4_3926) == [0x26, 0x39, 0xF4, 0xCB] && U32(9) == [9, 0, 0, 0]
  {
  }

  lemma NineBlock()
    ensures Block([49, 50, 51, 52, 53, 54, 55, 56, 57], true) == [1, 9, 0, 0xF6, 0xFF, 49, 50, 51, 52, 53, 54, 55, 56, 57]
  {
  }
}
