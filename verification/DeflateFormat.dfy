/** What inflate accepts (src/stdlib_compress.c), against section 3.2.4 of RFC 1951. The code checks neither the type of
    a block nor the complement of its length nor that the last block is there; so it reads every byte string, as the
    standard reads that string with these things put right. */
module DeflateFormat {
  import opened Bytes
  import opened Options
  import opened Sequences
  import opened Deflate

  /** BTYPE, the two bits above the final flag; 0 is a stored block. */
  function BlockType(header: Byte): nat {
    header / 2 % 4
  }

  /** One complete stored block at the front of s, as the standard has it. */
  predicate BlockConforms(s: seq<Byte>) {
    && |s| >= 5 && BlockType(s[0]) == 0
    && FromU16(s[3], s[4]) == 65535 - LengthOf(s)
    && 5 + LengthOf(s) <= |s|
  }

  datatype Stream = Stream(data: seq<Byte>, rest: seq<Byte>)

  /** Blocks up to the first final one, and what is behind it; or no stream of stored blocks. */
  function ReadStream(s: seq<Byte>): Option<Stream>
    decreases |s|
  {
    if !BlockConforms(s) then None
    else
      var data, rest := s[5..5 + LengthOf(s)], s[5 + LengthOf(s)..];
      if s[0] % 2 == 1 then Some(Stream(data, rest))
      else
        match ReadStream(rest)
        case None => None
        case Some(more) => Some(Stream(data + more.data, more.rest))
  }

  const EMPTY_BLOCK: seq<Byte> := [1, 0, 0, 0xFF, 0xFF]

  /** The block at the front of s with its type set to stored and NLEN to the complement of LEN. */
  function RepairedBlock(s: seq<Byte>): (r: seq<Byte>)
    requires |s| >= 5 && 5 + LengthOf(s) <= |s|
    ensures |r| == 5 + LengthOf(s)
  {
    [s[0] % 2 + s[0] / 8 * 8] + s[1..3] + U16(65535 - LengthOf(s)) + s[5..5 + LengthOf(s)]
  }

  /** All blocks that inflate visits repaired, with an empty final one in place of a block that is not complete. */
  function Repaired(s: seq<Byte>): seq<Byte>
    decreases |s|
  {
    if |s| < 5 || 5 + LengthOf(s) > |s| then EMPTY_BLOCK
    else
      var rest := s[5 + LengthOf(s)..];
      RepairedBlock(s) + if s[0] % 2 == 1 then rest else Repaired(rest)
  }

  lemma RepairedBlockParts(s: seq<Byte>, more: seq<Byte>)
    requires |s| >= 5 && 5 + LengthOf(s) <= |s|
    ensures var t := RepairedBlock(s) + more;
            && BlockConforms(t) && LengthOf(t) == LengthOf(s) && t[0] % 2 == s[0] % 2
            && t[5..5 + LengthOf(t)] == s[5..5 + LengthOf(s)] && t[5 + LengthOf(t)..] == more
  {
    hide U16, FromU16;
    var n, t := LengthOf(s), RepairedBlock(s) + more;
    LengthIsWord(s);
    assert t[1] == s[1] && t[2] == s[2] && t[3] == U16(65535 - n)[0] && t[4] == U16(65535 - n)[1];
    U16RoundTrip(65535 - n);
  }

  lemma LengthIsWord(s: seq<Byte>)
    requires |s| >= 5
    ensures LengthOf(s) < 65536
  {
  }

  /** A block is its own repair exactly if it conforms. */
  lemma RepairedBlockIff(s: seq<Byte>)
    requires |s| >= 5 && 5 + LengthOf(s) <= |s|
    ensures RepairedBlock(s) == s[..5 + LengthOf(s)] <==> BlockConforms(s)
  {
    hide U16;
    var n, r, front := LengthOf(s), RepairedBlock(s), s[..5 + LengthOf(s)];
    RepairedBlockParts(s, s[5 + n..]);
    assert r + s[5 + n..] == RepairedBlock(s) + s[5 + n..];
    if r == front {
      assert front + s[5 + n..] == s;
    }
    if BlockConforms(s) {
      WordBytes(s[3], s[4]);
      assert r[0] == front[0] && r[1] == front[1] && r[2] == front[2] && r[3] == front[3] && r[4] == front[4];
      assert forall i :: 5 <= i < 5 + n ==> r[i] == front[i];
    }
  }

  lemma WordBytes(lo: Byte, hi: Byte)
    ensures U16(FromU16(lo, hi)) == [lo, hi]
  {
  }

  /** Inflate reads any byte string as the standard reads its repair. */
  lemma {:induction false} InflateReadsRepaired(s: seq<Byte>)
    ensures ReadStream(Repaired(s)).Some? && ReadStream(Repaired(s)).value.data == Inflate(s)
    decreases |s|
  {
    hide LengthOf, RepairedBlock, BlockConforms;
    if |s| < 5 || 5 + LengthOf(s) > |s| {
      EmptyBlockReads();
    } else {
      var rest := s[5 + LengthOf(s)..];
      if s[0] % 2 == 1 {
        RepairedBlockParts(s, rest);
        assert s[5..5 + LengthOf(s)] + [] == s[5..5 + LengthOf(s)];
      } else {
        RepairedBlockParts(s, Repaired(rest));
        InflateReadsRepaired(rest);
      }
    }
  }

  lemma EmptyBlockReads()
    ensures ReadStream(EMPTY_BLOCK) == Some(Stream([], []))
  {
    hide LengthOf, BlockConforms, ReadStream;
    var b := EMPTY_BLOCK;
    SmallHeader(1, 0, 0xFF, 0xFF, []);
    assert b == [1, 0, 0, 0xFF, 0xFF] + [];
    FinalBlock(b);
  }

  lemma FinalBlock(s: seq<Byte>)
    requires |s| >= 5 && s[0] % 2 == 1
    ensures ReadStream(s) ==
            if BlockConforms(s) then Some(Stream(s[5..5 + LengthOf(s)], s[5 + LengthOf(s)..])) else None
    ensures Inflate(s) == if 5 + LengthOf(s) > |s| then [] else s[5..5 + LengthOf(s)]
  {
    hide LengthOf;
    if 5 + LengthOf(s) <= |s| { assert s[5..5 + LengthOf(s)] + [] == s[5..5 + LengthOf(s)]; }
  }

  lemma SmallHeader(header: Byte, n: Byte, lo: Byte, hi: Byte, data: seq<Byte>)
    ensures var s := [header, n, 0, lo, hi] + data;
            && LengthOf(s) == n && s[5..] == data
            && (BlockConforms(s) <==> BlockType(header) == 0 && lo == 255 - n && hi == 255 && n <= |data|)
  {
  }

  /** The standard accepts exactly the byte strings that are their own repair. */
  lemma {:induction false} StandardIff(s: seq<Byte>)
    ensures ReadStream(s).Some? <==> Repaired(s) == s
    decreases |s|
  {
    hide LengthOf, RepairedBlock;
    if |s| < 5 || 5 + LengthOf(s) > |s| {
      if s == EMPTY_BLOCK { EmptyBlockReads(); EmptyBlockIsComplete(); }
    } else {
      var n := LengthOf(s);
      var rest := s[5 + n..];
      RepairedBlockIff(s);
      assert s == s[..5 + n] + rest;
      var more := if s[0] % 2 == 1 then rest else Repaired(rest);
      assert Repaired(s)[..5 + n] == RepairedBlock(s) && Repaired(s)[5 + n..] == more;
      if s[0] % 2 == 0 { StandardIff(rest); }
    }
  }

  lemma EmptyBlockIsComplete()
    ensures LengthOf(EMPTY_BLOCK) == 0
  {
  }

  /** What the standard accepts, inflate reads alike; what inflate accepts besides is exactly what is not its own
      repair. */
  lemma InflateByStandardIff(s: seq<Byte>)
    ensures Repaired(s) == s <==> ReadStream(s).Some? && ReadStream(s).value.data == Inflate(s)
    ensures ReadStream(s).Some? ==> ReadStream(s).value.data == Inflate(s)
  {
    StandardIff(s);
    InflateReadsRepaired(s);
  }

  /** What deflate writes is a stream of the standard, and ends where it ends. */
  lemma {:induction false} DeflateWritesStream(data: seq<Byte>, more: seq<Byte>)
    ensures ReadStream(DeflateStored(data) + more) == Some(Stream(data, more))
    decreases |data|
  {
    hide Block, LengthOf, BlockConforms;
    if |data| <= MAX_BLOCK {
      BlockParts(data, true, more);
      BlockIsStored(data, true, more);
    } else {
      var rest := DeflateStored(data[MAX_BLOCK..]) + more;
      Assoc(Block(data[..MAX_BLOCK], false), DeflateStored(data[MAX_BLOCK..]), more);
      BlockParts(data[..MAX_BLOCK], false, rest);
      BlockIsStored(data[..MAX_BLOCK], false, rest);
      DeflateWritesStream(data[MAX_BLOCK..], more);
      assert data[..MAX_BLOCK] + data[MAX_BLOCK..] == data;
    }
  }

  lemma BlockIsStored(data: seq<Byte>, last: bool, more: seq<Byte>)
    requires |data| <= MAX_BLOCK
    ensures BlockConforms(Block(data, last) + more)
  {
    hide U16, FromU16;
    var s := Block(data, last) + more;
    BlockParts(data, last, more);
    U16RoundTrip(65535 - |data|);
    assert s[3] == U16(65535 - |data|)[0] && s[4] == U16(65535 - |data|)[1];
  }

  /** One byte of data behind any header: inflate gives it whatever the type and NLEN are, the standard only for type 0
      and an NLEN of 0xFFFE. */
  lemma OneByteBlock(kind: nat, lo: Byte, hi: Byte, x: Byte)
    requires kind < 4
    ensures var s: seq<Byte> := [1 + 2 * kind, 1, 0, lo, hi, x];
            && Inflate(s) == [x]
            && (ReadStream(s).Some? <==> kind == 0 && lo == 0xFE && hi == 0xFF)
  {
    hide LengthOf, BlockConforms, ReadStream, Inflate;
    var s: seq<Byte> := [1 + 2 * kind, 1, 0, lo, hi, x];
    assert s == [1 + 2 * kind, 1, 0, lo, hi] + [x];
    SmallHeader(1 + 2 * kind, 1, lo, hi, [x]);
    FinalBlock(s);
    assert s[5..6] == [x];
  }

  /** Five bytes promised and one there: inflate gives the empty string, the standard nothing. */
  lemma IncompleteBlock()
    ensures var s: seq<Byte> := [1, 5, 0, 0xFA, 0xFF, 65];
            Inflate(s) == [] && ReadStream(s).None?
  {
    hide LengthOf, BlockConforms, ReadStream, Inflate;
    var s: seq<Byte> := [1, 5, 0, 0xFA, 0xFF, 65];
    assert s == [1, 5, 0, 0xFA, 0xFF] + [65];
    SmallHeader(1, 5, 0xFA, 0xFF, [65]);
    FinalBlock(s);
  }
}
