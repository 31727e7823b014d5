/** What gunzip accepts (src/stdlib_compress.c), against section 2.3 of RFC 1952: every file of one member, whatever
    optional fields its header has. What it does not check are the reserved flags, the header checksum, the blocks and
    the trailer, and exactly these separate what it accepts from the standard's files of one member of stored blocks. */
module GzipFormat {
  import opened Bytes
  import opened Options
  import opened Sequences
  import opened Deflate
  import opened DeflateFormat

  /** The header of a member. The six bytes after the flags are time, extra flags and system. */
  datatype Header = Header(
    text: bool,
    reserved: nat,
    times: seq<Byte>,
    extra: Option<seq<Byte>>,
    name: Option<seq<Byte>>,
    comment: Option<seq<Byte>>,
    checksum: Option<seq<Byte>>)

  predicate NoNul(s: seq<Byte>) {
    forall i :: 0 <= i < |s| ==> s[i] != 0
  }

  /** The fields have the sizes of the format; the reserved flags and the checksum may be anything. */
  predicate WellFormed(h: Header) {
    && h.reserved < 8 && |h.times| == 6
    && (h.extra.Some? ==> |h.extra.value| < 65536)
    && (h.name.Some? ==> NoNul(h.name.value))
    && (h.comment.Some? ==> NoNul(h.comment.value))
    && (h.checksum.Some? ==> |h.checksum.value| == 2)
  }

  function Bit(b: bool, weight: nat): nat {
    if b then weight else 0
  }

  function Flags(h: Header): Byte
    requires WellFormed(h)
  {
    Bit(h.text, 1) + Bit(h.checksum.Some?, 2) + Bit(h.extra.Some?, 4) + Bit(h.name.Some?, 8) + Bit(h.comment.Some?, 16) +
    32 * h.reserved
  }

  function ExtraBytes(extra: Option<seq<Byte>>): seq<Byte> {
    match extra
    case None => []
    case Some(data) => U16(|data|) + data
  }

  function NameBytes(name: Option<seq<Byte>>): seq<Byte> {
    match name
    case None => []
    case Some(text) => text + [0]
  }

  function FixedBytes(h: Header): (r: seq<Byte>)
    requires WellFormed(h)
    ensures |r| == 10
  {
    [0x1F, 0x8B, 8, Flags(h)] + h.times
  }

  /** The header without its checksum, which is over these bytes. */
  function CheckedBytes(h: Header): seq<Byte>
    requires WellFormed(h)
  {
    FixedBytes(h) + ExtraBytes(h.extra) + NameBytes(h.name) + NameBytes(h.comment)
  }

  function ChecksumBytes(checksum: Option<seq<Byte>>): seq<Byte> {
    match checksum
    case None => []
    case Some(c) => c
  }

  function HeaderBytes(h: Header): seq<Byte>
    requires WellFormed(h)
  {
    CheckedBytes(h) + ChecksumBytes(h.checksum)
  }

  // ---- Reading a header ----

  lemma FlagsOf(h: Header)
    requires WellFormed(h)
    ensures var f := Flags(h);
            && (Flag(f, 4) <==> h.extra.Some?) && (Flag(f, 8) <==> h.name.Some?)
            && (Flag(f, 16) <==> h.comment.Some?) && (Flag(f, 2) <==> h.checksum.Some?)
  {
    hide Flag, Bit;
    SecondFlag(h.text, h.checksum.Some?, h.extra.Some?, h.name.Some?, h.comment.Some?, h.reserved, Flags(h));
    ThirdFlag(h.text, h.checksum.Some?, h.extra.Some?, h.name.Some?, h.comment.Some?, h.reserved, Flags(h));
    FourthFlag(h.text, h.checksum.Some?, h.extra.Some?, h.name.Some?, h.comment.Some?, h.reserved, Flags(h));
    FifthFlag(h.text, h.checksum.Some?, h.extra.Some?, h.name.Some?, h.comment.Some?, h.reserved, Flags(h));
  }

  /** A sum of powers of two; below, one bit of it each: what is below it is less than its weight, and what is above it
      is even in its place. */
  predicate IsSum(f: Byte, b1: bool, b2: bool, b4: bool, b8: bool, b16: bool, r: nat) {
    f == Bit(b1, 1) + Bit(b2, 2) + Bit(b4, 4) + Bit(b8, 8) + Bit(b16, 16) + 32 * r
  }

  lemma SecondFlag(b1: bool, b2: bool, b4: bool, b8: bool, b16: bool, r: nat, f: Byte)
    requires IsSum(f, b1, b2, b4, b8, b16, r)
    ensures Flag(f, 2) <==> b2
  {
    var x := Bit(b4, 1) + Bit(b8, 2) + Bit(b16, 4) + 8 * r;
    var y := Bit(b2, 1) + 2 * x;
    assert f == Bit(b1, 1) + 2 * y;
    assert f / 2 == y;
  }

  lemma ThirdFlag(b1: bool, b2: bool, b4: bool, b8: bool, b16: bool, r: nat, f: Byte)
    requires IsSum(f, b1, b2, b4, b8, b16, r)
    ensures Flag(f, 4) <==> b4
  {
    var x := Bit(b8, 1) + Bit(b16, 2) + 4 * r;
    var y := Bit(b4, 1) + 2 * x;
    assert f == Bit(b1, 1) + Bit(b2, 2) + 4 * y;
    assert f / 4 == y;
  }

  lemma FourthFlag(b1: bool, b2: bool, b4: bool, b8: bool, b16: bool, r: nat, f: Byte)
    requires IsSum(f, b1, b2, b4, b8, b16, r)
    ensures Flag(f, 8) <==> b8
  {
    var x := Bit(b16, 1) + 2 * r;
    var y := Bit(b8, 1) + 2 * x;
    assert f == Bit(b1, 1) + Bit(b2, 2) + Bit(b4, 4) + 8 * y;
    assert f / 8 == y;
  }

  lemma FifthFlag(b1: bool, b2: bool, b4: bool, b8: bool, b16: bool, r: nat, f: Byte)
    requires IsSum(f, b1, b2, b4, b8, b16, r)
    ensures Flag(f, 16) <==> b16
  {
    var y := Bit(b16, 1) + 2 * r;
    assert f == Bit(b1, 1) + Bit(b2, 2) + Bit(b4, 4) + Bit(b8, 8) + 16 * y;
    assert f / 16 == y;
  }

  /** A NUL-terminated field at i is passed over. */
  lemma {:induction false} SkipNameOver(s: seq<Byte>, i: nat, text: seq<Byte>)
    requires i + |text| < |s| && s[i..i + |text|] == text && s[i + |text|] == 0 && NoNul(text)
    ensures SkipName(s, i) == i + |text| + 1
    decreases |text|
  {
    if text != [] {
      assert s[i] == text[0];
      assert s[i + 1..i + 1 + |text[1..]|] == text[1..];
      SkipNameOver(s, i + 1, text[1..]);
    }
  }

  lemma OptionalName(pre: seq<Byte>, name: Option<seq<Byte>>, post: seq<Byte>)
    requires name.Some? ==> NoNul(name.value)
    ensures name.Some? ==> SkipName(pre + NameBytes(name) + post, |pre|) == |pre| + |NameBytes(name)|
    ensures name.None? ==> NameBytes(name) == []
  {
    if name.Some? {
      var s := pre + NameBytes(name) + post;
      assert s[|pre|..|pre| + |name.value|] == name.value;
      SkipNameOver(s, |pre|, name.value);
    }
  }

  lemma ExtraPassed(h: Header, post: seq<Byte>)
    requires WellFormed(h)
    ensures PastExtra(FixedBytes(h) + ExtraBytes(h.extra) + post) == Some(10 + |ExtraBytes(h.extra)|)
  {
    hide U16, FromU16, Flags;
    var s := FixedBytes(h) + ExtraBytes(h.extra) + post;
    FlagsOf(h);
    assert s[3] == Flags(h);
    if h.extra.Some? {
      U16RoundTrip(|h.extra.value|);
      assert s[10] == U16(|h.extra.value|)[0] && s[11] == U16(|h.extra.value|)[1];
    }
  }

  /** The data starts right behind the header. */
  lemma DataBehindHeader(h: Header, post: seq<Byte>)
    requires WellFormed(h)
    ensures var s := HeaderBytes(h) + post;
            && |s| >= 10 && s[0] == 0x1F && s[1] == 0x8B && s[2] == 8
            && DataStart(s) == Some(|HeaderBytes(h)|)
  {
    hide PastExtra, ExtraBytes, NameBytes, Flags, SkipName;
    var s := HeaderBytes(h) + post;
    var sum := ChecksumBytes(h.checksum);
    var a := FixedBytes(h) + ExtraBytes(h.extra);
    var b := a + NameBytes(h.name);
    HeaderSplits(h, post);
    assert s[3] == Flags(h);
    FlagsOf(h);
    ExtraPassed(h, NameBytes(h.name) + NameBytes(h.comment) + sum + post);
    OptionalName(a, h.name, NameBytes(h.comment) + sum + post);
    OptionalName(b, h.comment, sum + post);
  }

  /** Any header, any body and any trailer: gunzip inflates the body. */
  lemma GunzipReads(h: Header, body: seq<Byte>, trailer: seq<Byte>)
    requires WellFormed(h) && |trailer| == 8
    ensures Gunzip(HeaderBytes(h) + body + trailer) == Some(Inflate(body))
  {
    hide HeaderBytes, DataStart, Inflate;
    var s := HeaderBytes(h) + body + trailer;
    Assoc(HeaderBytes(h), body, trailer);
    DataBehindHeader(h, body + trailer);
    assert s[|HeaderBytes(h)|..|s| - 8] == body;
    HeaderSize(h);
  }

  lemma HeaderSize(h: Header)
    requires WellFormed(h)
    ensures |HeaderBytes(h)| >= 10
  {
  }

  // ---- Taking a file apart ----

  lemma {:induction false} NameFound(s: seq<Byte>, i: nat)
    requires SkipName(s, i) <= |s|
    ensures var end := SkipName(s, i) - 1;
            i <= end && NoNul(s[i..end]) && s[end] == 0
    decreases |s| - i
  {
    if s[i] != 0 {
      NameFound(s, i + 1);
      var end := SkipName(s, i) - 1;
      assert s[i..end] == [s[i]] + s[i + 1..end];
    }
  }

  /** The optional field between two positions. */
  function FieldBetween(s: seq<Byte>, there: bool, from: nat, to: int): Option<seq<Byte>>
    requires there ==> from <= to <= |s|
  {
    if there then Some(s[from..to]) else None
  }

  /** The header of an accepted file. */
  ghost function HeaderOf(s: seq<Byte>): (h: Header)
    requires Gunzip(s).Some?
  {
    var f, a := s[3], PastExtra(s).value;
    var b := if Flag(f, 8) then SkipName(s, a) else a;
    var c := if Flag(f, 16) then SkipName(s, b) else b;
    Header(f % 2 == 1, f / 32, s[4..10],
           FieldBetween(s, Flag(f, 4), 12, a), FieldBetween(s, Flag(f, 8), a, b - 1),
           FieldBetween(s, Flag(f, 16), b, c - 1), FieldBetween(s, Flag(f, 2), c, c + 2))
  }

  lemma FlagBits(f: Byte)
    ensures f == Bit(f % 2 == 1, 1) + Bit(Flag(f, 2), 2) + Bit(Flag(f, 4), 4) + Bit(Flag(f, 8), 8) + Bit(Flag(f, 16), 16) +
                 32 * (f / 32)
  {
    Halves(f, 1);
    Halves(f, 2);
    Halves(f, 4);
    Halves(f, 8);
    Halves(f, 16);
  }

  lemma Halves(f: Byte, weight: nat)
    requires weight in {1, 2, 4, 8, 16}
    ensures f / weight == 2 * (f / (2 * weight)) + f / weight % 2
  {
    if weight == 1 { } else if weight == 2 { } else if weight == 4 { } else if weight == 8 { } else { }
  }

  /** What the fixed part and the extra field of an accepted file are. */
  lemma FrontOf(s: seq<Byte>)
    requires Gunzip(s).Some?
    ensures var a := PastExtra(s).value;
            && 10 <= a <= |s| && (Flag(s[3], 4) ==> 12 <= a && a - 12 < 65536)
            && s[..a] == s[..10] + ExtraBytes(FieldBetween(s, Flag(s[3], 4), 12, a))
            && s[..10] == [0x1F, 0x8B, 8, s[3]] + s[4..10]
  {
    hide Inflate, U16;
    var a := PastExtra(s).value;
    if Flag(s[3], 4) {
      WordBytes(s[10], s[11]);
      assert s[..a] == s[..10] + [s[10], s[11]] + s[12..a];
    }
  }

  /** A name field of an accepted file. */
  lemma NameOf(s: seq<Byte>, there: bool, from: nat)
    requires there ==> SkipName(s, from) <= |s|
    requires from <= |s|
    ensures var to := if there then SkipName(s, from) else from;
            && from <= to <= |s|
            && (there ==> from < to && NoNul(s[from..to - 1]))
            && s[..to] == s[..from] + NameBytes(FieldBetween(s, there, from, to - 1))
  {
    hide SkipName, NoNul;
    if there {
      NameFound(s, from);
      var to := SkipName(s, from);
      assert s[..to] == s[..from] + s[from..to - 1] + [s[to - 1]];
    }
  }

  /** The end of the comment, where the checksum follows. */
  function ChecksumStart(s: seq<Byte>): nat
    requires Gunzip(s).Some?
  {
    var a := PastExtra(s).value;
    var b := if Flag(s[3], 8) then SkipName(s, a) else a;
    if Flag(s[3], 16) then SkipName(s, b) else b
  }

  lemma StartOfData(s: seq<Byte>)
    requires Gunzip(s).Some?
    ensures var c := ChecksumStart(s);
            var start := if Flag(s[3], 2) then c + 2 else c;
            && DataStart(s) == Some(start) && 10 <= c && start + 8 <= |s|
            && Gunzip(s) == Some(Inflate(s[start..|s| - 8]))
  {
    hide Inflate, SkipName;
    GrowingStarts(s);
  }

  lemma GrowingStarts(s: seq<Byte>)
    requires Gunzip(s).Some?
    ensures |s| >= 18 && PastExtra(s).Some?
    ensures var a := PastExtra(s).value;
            var b := if Flag(s[3], 8) then SkipName(s, a) else a;
            10 <= a <= b <= ChecksumStart(s) <= |s|
  {
    hide Inflate;
  }

  lemma FieldsOf(s: seq<Byte>)
    requires Gunzip(s).Some?
    ensures WellFormed(HeaderOf(s)) && ChecksumStart(s) <= |s| && CheckedBytes(HeaderOf(s)) == s[..ChecksumStart(s)]
  {
    hide Inflate, ExtraBytes, NameBytes, SkipName, PastExtra, Gunzip, Flag, Bit;
    GrowingStarts(s);
    var f, a := s[3], PastExtra(s).value;
    var b := if Flag(f, 8) then SkipName(s, a) else a;
    StartOfData(s);
    FrontOf(s);
    NameOf(s, Flag(f, 8), a);
    NameOf(s, Flag(f, 16), b);
    FlagBits(f);
  }

  /** Every accepted file is a header, a body and eight bytes. */
  lemma AcceptedParts(s: seq<Byte>)
    requires Gunzip(s).Some?
    ensures var h := HeaderOf(s);
            && WellFormed(h) && |HeaderBytes(h)| + 8 <= |s|
            && s == HeaderBytes(h) + s[|HeaderBytes(h)|..|s| - 8] + s[|s| - 8..]
            && Gunzip(s) == Some(Inflate(s[|HeaderBytes(h)|..|s| - 8]))
  {
    hide Inflate, SkipName, PastExtra, Gunzip, Flag, WellFormed, CheckedBytes, ChecksumStart;
    FieldsOf(s);
    StartOfData(s);
    var start := DataStart(s).value;
    assert HeaderBytes(HeaderOf(s)) == s[..start];
    assert s == s[..start] + s[start..|s| - 8] + s[|s| - 8..];
  }

  /** s is a header, a body and a trailer of eight bytes. */
  ghost predicate SplitsInto(s: seq<Byte>, h: Header, body: seq<Byte>, trailer: seq<Byte>) {
    WellFormed(h) && |trailer| == 8 && s == HeaderBytes(h) + body + trailer
  }

  /** gunzip accepts exactly the byte strings that are some header, any body and any eight bytes. */
  lemma AcceptedIff(s: seq<Byte>)
    ensures Gunzip(s).Some? <==> exists h, body, trailer :: SplitsInto(s, h, body, trailer)
  {
    hide Gunzip, HeaderBytes, WellFormed;
    if Gunzip(s).Some? {
      AcceptedParts(s);
      var n := |HeaderBytes(HeaderOf(s))|;
      assert SplitsInto(s, HeaderOf(s), s[n..|s| - 8], s[|s| - 8..]);
    }
    forall h, body, trailer | SplitsInto(s, h, body, trailer) ensures Gunzip(s).Some? {
      GunzipReads(h, body, trailer);
    }
  }

  // ---- The standard ----

  /** The last two bytes of the CRC-32 of the header before them. */
  function HeaderChecksum(h: Header): seq<Byte>
    requires WellFormed(h)
  {
    U16(Crc32.Crc(CheckedBytes(h)) as nat)
  }

  /** What the standard demands of the parts beyond their sizes: no reserved flag, the right checksums and size, and
      a stream of stored blocks that ends where the trailer starts. */
  predicate PartsConform(h: Header, body: seq<Byte>, trailer: seq<Byte>)
    requires WellFormed(h)
  {
    && h.reserved == 0
    && (h.checksum.Some? ==> h.checksum.value == HeaderChecksum(h))
    && ReadStream(body).Some? && ReadStream(body).value.rest == []
    && trailer == Trailer(ReadStream(body).value.data)
  }

  /** s is a file of one member of stored blocks that holds data. */
  ghost predicate IsMember(s: seq<Byte>, data: seq<Byte>) {
    exists h, body, trailer ::
      && SplitsInto(s, h, body, trailer) && PartsConform(h, body, trailer)
      && data == ReadStream(body).value.data
  }

  /** Every such file is read as its data, whatever optional fields it has. */
  lemma MembersAreRead(s: seq<Byte>, data: seq<Byte>)
    requires IsMember(s, data)
    ensures Gunzip(s) == Some(data)
  {
    hide HeaderBytes, WellFormed, Gunzip, Trailer, HeaderChecksum, Inflate;
    var h, body, trailer :|
      && SplitsInto(s, h, body, trailer) && PartsConform(h, body, trailer)
      && data == ReadStream(body).value.data;
    GunzipReads(h, body, trailer);
    InflateByStandardIff(body);
  }

  /** The optional field written between two positions is the one read there. */
  lemma FieldIsBetween(pre: seq<Byte>, name: Option<seq<Byte>>, post: seq<Byte>)
    ensures var s, to := pre + NameBytes(name) + post, |pre| + |NameBytes(name)|;
            FieldBetween(s, name.Some?, |pre|, to - 1) == name
  {
    if name.Some? {
      var s := pre + NameBytes(name) + post;
      assert s[|pre|..|pre| + |name.value|] == name.value;
    }
  }

  lemma OneExtra(h: Header, post: seq<Byte>)
    requires WellFormed(h)
    ensures var s := FixedBytes(h) + ExtraBytes(h.extra) + post;
            FieldBetween(s, h.extra.Some?, 12, 10 + |ExtraBytes(h.extra)|) == h.extra
  {
    hide U16, Flags;
    if h.extra.Some? {
      var s := FixedBytes(h) + ExtraBytes(h.extra) + post;
      assert s[12..12 + |h.extra.value|] == h.extra.value;
    }
  }

  lemma FixedOf(h: Header, post: seq<Byte>)
    requires WellFormed(h)
    ensures var s := FixedBytes(h) + post;
            && s[3] == Flags(h) && s[4..10] == h.times && (Flags(h) % 2 == 1 <==> h.text) && Flags(h) / 32 == h.reserved
  {
    var f := Flags(h);
    FlagsOf(h);
    assert f == 32 * h.reserved + (Bit(h.text, 1) + Bit(h.checksum.Some?, 2) + Bit(h.extra.Some?, 4) + Bit(h.name.Some?, 8) +
                                   Bit(h.comment.Some?, 16));
  }

  /** There is one way only to take a file apart. */
  lemma SplitIsUnique(s: seq<Byte>, h: Header, body: seq<Byte>, trailer: seq<Byte>)
    requires SplitsInto(s, h, body, trailer)
    ensures Gunzip(s).Some? && h == HeaderOf(s)
    ensures var start := |HeaderBytes(h)|;
            start + 8 <= |s| && body == s[start..|s| - 8] && trailer == s[|s| - 8..]
  {
    GunzipReads(h, body, trailer);
    HeaderIsUnique(h, body + trailer) by {
      hide Gunzip, HeaderBytes;
      Assoc(HeaderBytes(h), body, trailer);
    }
    assert HeaderBytes(h) + body + trailer == HeaderBytes(h) + (body + trailer);
  }

  /** Where each field of a header starts. */
  lemma FieldStarts(h: Header, post: seq<Byte>)
    requires WellFormed(h)
    ensures var s := HeaderBytes(h) + post;
            var a := FixedBytes(h) + ExtraBytes(h.extra);
            var b := a + NameBytes(h.name);
            && s[3] == Flags(h) && PastExtra(s) == Some(|a|)
            && (if Flag(s[3], 8) then SkipName(s, |a|) else |a|) == |b|
            && (if Flag(s[3], 16) then SkipName(s, |b|) else |b|) == |CheckedBytes(h)|
  {
    hide PastExtra, ExtraBytes, NameBytes, Flags, SkipName;
    var s := HeaderBytes(h) + post;
    var sum := ChecksumBytes(h.checksum);
    var a := FixedBytes(h) + ExtraBytes(h.extra);
    var b := a + NameBytes(h.name);
    HeaderSplits(h, post);
    assert s[3] == Flags(h);
    FlagsOf(h);
    ExtraPassed(h, NameBytes(h.name) + NameBytes(h.comment) + sum + post);
    OptionalName(a, h.name, NameBytes(h.comment) + sum + post);
    OptionalName(b, h.comment, sum + post);
  }

  /** What is read between these places. */
  lemma FieldsBetween(h: Header, post: seq<Byte>)
    requires WellFormed(h)
    ensures var s := HeaderBytes(h) + post;
            var a := FixedBytes(h) + ExtraBytes(h.extra);
            var b := a + NameBytes(h.name);
            var c := |CheckedBytes(h)|;
            && |s| >= 10 && s[4..10] == h.times && (Flags(h) % 2 == 1 <==> h.text) && Flags(h) / 32 == h.reserved
            && (h.extra.Some? ==> 12 <= |a| <= |s|) && FieldBetween(s, h.extra.Some?, 12, |a|) == h.extra
            && |b| <= |s| && (h.name.Some? ==> |a| < |b|) && FieldBetween(s, h.name.Some?, |a|, |b| - 1) == h.name
            && c <= |s| && (h.comment.Some? ==> |b| < c) && FieldBetween(s, h.comment.Some?, |b|, c - 1) == h.comment
            && (h.checksum.Some? ==> c + 2 <= |s|) && FieldBetween(s, h.checksum.Some?, c, c + 2) == h.checksum
  {
    hide ExtraBytes, NameBytes, Flags, FieldBetween, FixedBytes, HeaderBytes, CheckedBytes;
    FixedBetween(h, post);
    ExtraBetween(h, post);
    NameBetween(h, post);
    CommentBetween(h, post);
    ChecksumBetween(h, post);
  }

  /** A header and what follows it, taken apart behind each field. */
  lemma HeaderSplits(h: Header, post: seq<Byte>)
    requires WellFormed(h)
    ensures var s := HeaderBytes(h) + post;
            var sum := ChecksumBytes(h.checksum);
            var a := FixedBytes(h) + ExtraBytes(h.extra);
            var b := a + NameBytes(h.name);
            && CheckedBytes(h) == b + NameBytes(h.comment)
            && s == FixedBytes(h) + (ExtraBytes(h.extra) + NameBytes(h.name) + NameBytes(h.comment) + sum + post)
            && s == FixedBytes(h) + ExtraBytes(h.extra) + (NameBytes(h.name) + NameBytes(h.comment) + sum + post)
            && s == a + NameBytes(h.name) + (NameBytes(h.comment) + sum + post)
            && s == b + NameBytes(h.comment) + (sum + post)
            && s == CheckedBytes(h) + sum + post
  {
    hide ExtraBytes, NameBytes, FixedBytes;
  }

  lemma FixedBetween(h: Header, post: seq<Byte>)
    requires WellFormed(h)
    ensures var s := HeaderBytes(h) + post;
            |s| >= 10 && s[4..10] == h.times && (Flags(h) % 2 == 1 <==> h.text) && Flags(h) / 32 == h.reserved
  {
    hide ExtraBytes, NameBytes, Flags, FixedBytes, HeaderBytes, CheckedBytes;
    HeaderSplits(h, post);
    FixedOf(h, ExtraBytes(h.extra) + NameBytes(h.name) + NameBytes(h.comment) + ChecksumBytes(h.checksum) + post);
  }

  lemma ExtraBetween(h: Header, post: seq<Byte>)
    requires WellFormed(h)
    ensures var s, a := HeaderBytes(h) + post, FixedBytes(h) + ExtraBytes(h.extra);
            |a| <= |s| && (h.extra.Some? ==> 12 <= |a|) && FieldBetween(s, h.extra.Some?, 12, |a|) == h.extra
  {
    hide ExtraBytes, NameBytes, Flags, FieldBetween, HeaderBytes, CheckedBytes;
    HeaderSplits(h, post);
    ExtraSize(h.extra);
    OneExtra(h, NameBytes(h.name) + NameBytes(h.comment) + ChecksumBytes(h.checksum) + post);
  }

  lemma NameBetween(h: Header, post: seq<Byte>)
    requires WellFormed(h)
    ensures var s, a := HeaderBytes(h) + post, FixedBytes(h) + ExtraBytes(h.extra);
            var b := a + NameBytes(h.name);
            |b| <= |s| && (h.name.Some? ==> |a| < |b|) && FieldBetween(s, h.name.Some?, |a|, |b| - 1) == h.name
  {
    hide ExtraBytes, NameBytes, FixedBytes, FieldBetween, HeaderBytes, CheckedBytes;
    HeaderSplits(h, post);
    NameSize(h.name);
    FieldIsBetween(FixedBytes(h) + ExtraBytes(h.extra), h.name, NameBytes(h.comment) + ChecksumBytes(h.checksum) + post);
  }

  lemma CommentBetween(h: Header, post: seq<Byte>)
    requires WellFormed(h)
    ensures var s, b, c := HeaderBytes(h) + post, FixedBytes(h) + ExtraBytes(h.extra) + NameBytes(h.name), |CheckedBytes(h)|;
            c <= |s| && (h.comment.Some? ==> |b| < c) && FieldBetween(s, h.comment.Some?, |b|, c - 1) == h.comment
  {
    hide ExtraBytes, NameBytes, FixedBytes, FieldBetween, HeaderBytes, CheckedBytes;
    HeaderSplits(h, post);
    NameSize(h.comment);
    FieldIsBetween(FixedBytes(h) + ExtraBytes(h.extra) + NameBytes(h.name), h.comment, ChecksumBytes(h.checksum) + post);
  }

  lemma ChecksumBetween(h: Header, post: seq<Byte>)
    requires WellFormed(h)
    ensures var s, c := HeaderBytes(h) + post, |CheckedBytes(h)|;
            (h.checksum.Some? ==> c + 2 <= |s|) && FieldBetween(s, h.checksum.Some?, c, c + 2) == h.checksum
  {
    hide ExtraBytes, NameBytes, FixedBytes, FieldBetween, HeaderBytes, CheckedBytes;
    HeaderSplits(h, post);
    SumIsBetween(CheckedBytes(h), h.checksum, post);
  }

  lemma ExtraSize(extra: Option<seq<Byte>>)
    ensures extra.Some? ==> |ExtraBytes(extra)| == 2 + |extra.value|
  {
  }

  lemma NameSize(name: Option<seq<Byte>>)
    ensures name.Some? ==> |NameBytes(name)| == |name.value| + 1
  {
  }

  lemma HeaderIsUnique(h: Header, post: seq<Byte>)
    requires WellFormed(h) && Gunzip(HeaderBytes(h) + post).Some?
    ensures HeaderOf(HeaderBytes(h) + post) == h
  {
    hide PastExtra, ExtraBytes, NameBytes, Flags, SkipName, Gunzip, FieldBetween, FixedBytes, HeaderBytes, CheckedBytes, Flag;
    FieldStarts(h, post);
    FieldsBetween(h, post);
    FlagsOf(h);
    GrowingStarts(HeaderBytes(h) + post);
  }

  lemma SumIsBetween(pre: seq<Byte>, sum: Option<seq<Byte>>, post: seq<Byte>)
    requires sum.Some? ==> |sum.value| == 2
    ensures FieldBetween(pre + ChecksumBytes(sum) + post, sum.Some?, |pre|, |pre| + 2) == sum
  {
    if sum.Some? { assert (pre + sum.value + post)[|pre|..|pre| + 2] == sum.value; }
  }

  /** What gunzip accepts is a file of the standard exactly if the parts it does not check conform. */
  lemma GunzipByStandardIff(s: seq<Byte>, data: seq<Byte>)
    requires Gunzip(s) == Some(data)
    ensures var h := HeaderOf(s);
            && WellFormed(h) && |HeaderBytes(h)| + 8 <= |s|
            && (IsMember(s, data) <==> PartsConform(h, s[|HeaderBytes(h)|..|s| - 8], s[|s| - 8..]))
  {
    hide HeaderBytes, WellFormed, Gunzip, Trailer, HeaderChecksum, Inflate, HeaderOf;
    AcceptedParts(s);
    var h := HeaderOf(s);
    var body, trailer := s[|HeaderBytes(h)|..|s| - 8], s[|s| - 8..];
    assert SplitsInto(s, h, body, trailer);
    InflateByStandardIff(body);
    if IsMember(s, data) {
      var h', body', trailer' :|
        && SplitsInto(s, h', body', trailer') && PartsConform(h', body', trailer')
        && data == ReadStream(body').value.data;
      SplitIsUnique(s, h', body', trailer');
    }
  }

  /** The header that gzip writes. */
  const PLAIN := Header(false, 0, [0, 0, 0, 0, 0, 0xFF], None, None, None, None)

  /** With gzip's header and blocks, any eight bytes do for gunzip as the trailer, and one choice of them for the
      standard. */
  lemma TrailerIsNotChecked(data: seq<Byte>, trailer: seq<Byte>)
    requires |trailer| == 8
    ensures var s := GZIP_HEADER + DeflateStored(data) + trailer;
            Gunzip(s) == Some(data) && (IsMember(s, data) <==> trailer == Trailer(data))
  {
    hide DeflateStored, Trailer, Inflate;
    var s, body := GZIP_HEADER + DeflateStored(data) + trailer, DeflateStored(data);
    assert HeaderBytes(PLAIN) == GZIP_HEADER;
    GunzipReads(PLAIN, body, trailer);
    InflateUndoesDeflate(data, []);
    DeflateWritesStream(data, []);
    assert body + [] == body;
    assert SplitsInto(s, PLAIN, body, trailer);
    SplitIsUnique(s, PLAIN, body, trailer);
    GunzipByStandardIff(s, data);
  }

  /** gzip writes files of the standard. */
  lemma GzipWritesMember(data: seq<Byte>)
    ensures IsMember(Gzip(data), data)
  {
    hide DeflateStored, Trailer, IsMember, Gunzip;
    TrailerIsNotChecked(data, Trailer(data));
  }

  /** The check of the extra field refuses what is shorter than 12 bytes, which the first test refused already; an extra
      field that is not complete is refused by the last test. */
  lemma ExtraCheckIff(s: seq<Byte>)
    requires |s| >= 4
    ensures DataStart(s).None? <==> Flag(s[3], 4) && |s| < 12
    ensures |s| >= 18 ==> DataStart(s).Some?
    ensures |s| >= 18 && Flag(s[3], 4) && 12 + FromU16(s[10], s[11]) > |s| ==> Gunzip(s).None?
  {
    hide FromU16, Inflate;
    if Gunzip(s).Some? { GrowingStarts(s); }
  }
}
