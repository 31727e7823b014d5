/** Base64 (src/stdlib_session.c; section 4 of RFC 4648): groups of three bytes as four letters, the proof
    that the letters are the bits of the bytes six at a time, and that decoding undoes encoding. */
module Base64 {
  import opened Bytes
  import opened Options

  const PAD: Byte := 61
  const DOT: Byte := 46

  // ---- Letters ----

  function Letter(n: nat): (c: Byte)
    requires n < 64
    ensures c != PAD && c != DOT
  {
    if n < 26 then 65 + n
    else if n < 52 then 71 + n
    else if n < 62 then n - 4
    else if n == 62 then 43
    else 47
  }

  /** b64_decode_char. */
  function LetterValue(c: Byte): (n: int)
    ensures -1 <= n < 64
  {
    if 65 <= c <= 90 then c - 65
    else if 97 <= c <= 122 then c - 71
    else if 48 <= c <= 57 then c + 4
    else if c == 43 then 62
    else if c == 47 then 63
    else -1
  }

  /** The decoder reads a pad anywhere as zero bits. */
  function PadOrValue(c: Byte): (n: int)
    ensures -1 <= n < 64
  {
    if c == PAD then 0 else LetterValue(c)
  }

  lemma LetterRoundTrip(n: nat)
    requires n < 64
    ensures LetterValue(Letter(n)) == n
  {
  }

  // ---- Encoding ----

  function Quad(a: Byte, b: Byte, c: Byte): (r: seq<Byte>)
    ensures |r| == 4
  {
    var triple := a * 65536 + b * 256 + c;
    [Letter(triple / 262144 % 64), Letter(triple / 4096 % 64), Letter(triple / 64 % 64), Letter(triple % 64)]
  }

  /** How many groups of three bytes there are, the last one perhaps short. */
  function Groups(n: nat): (g: nat)
    ensures n <= 3 * g < n + 3
  {
    if n == 0 then 0 else if n <= 3 then 1 else 1 + Groups(n - 3)
  }

  function Padding(n: nat): (p: nat)
    ensures p < 3
  {
    3 * Groups(n) - n
  }

  function Encode(s: seq<Byte>): (r: seq<Byte>)
    ensures |r| == 4 * Groups(|s|)
  {
    if s == [] then []
    else if |s| == 1 then Quad(s[0], 0, 0)[..2] + [PAD, PAD]
    else if |s| == 2 then Quad(s[0], s[1], 0)[..3] + [PAD]
    else Quad(s[0], s[1], s[2]) + Encode(s[3..])
  }

  // ---- The letters are the bits ----

  /** Bit p of a byte string, the highest bit of each byte first; zero behind the end. */
  function Bit(s: seq<Byte>, p: nat): (b: nat)
    ensures b < 2
  {
    if p / 8 >= |s| then 0 else ByteBit(s[p / 8], p % 8)
  }

  function ByteBit(b: Byte, k: nat): (r: nat)
    requires k < 8
    ensures r < 2
  {
    if k == 0 then b / 128 % 2 else if k == 1 then b / 64 % 2 else if k == 2 then b / 32 % 2 else if k == 3 then b / 16 % 2
    else if k == 4 then b / 8 % 2 else if k == 5 then b / 4 % 2 else if k == 6 then b / 2 % 2 else b % 2
  }

  function Sextet(s: seq<Byte>, k: nat): (n: nat)
    ensures n < 64
  {
    Bit(s, 6 * k) * 32 + Bit(s, 6 * k + 1) * 16 + Bit(s, 6 * k + 2) * 8 + Bit(s, 6 * k + 3) * 4 + Bit(s, 6 * k + 4) * 2 +
    Bit(s, 6 * k + 5)
  }

  lemma ByteBits(b: Byte)
    ensures ByteBit(b, 7) == b % 2 && ByteBit(b, 6) == b / 2 % 2 && ByteBit(b, 5) == b / 4 % 2 && ByteBit(b, 4) == b / 8 % 2
    ensures ByteBit(b, 3) == b / 16 % 2 && ByteBit(b, 2) == b / 32 % 2 && ByteBit(b, 1) == b / 64 % 2 && ByteBit(b, 0) == b / 128 % 2
  {
  }

  /** A byte from its bits, and the parts of it that fall into different letters. */
  lemma ByteOfBits(b: Byte)
    ensures b / 4 == ByteBit(b, 0) * 32 + ByteBit(b, 1) * 16 + ByteBit(b, 2) * 8 + ByteBit(b, 3) * 4 + ByteBit(b, 4) * 2 + ByteBit(b, 5)
    ensures b % 4 == ByteBit(b, 6) * 2 + ByteBit(b, 7)
    ensures b / 16 == ByteBit(b, 0) * 8 + ByteBit(b, 1) * 4 + ByteBit(b, 2) * 2 + ByteBit(b, 3)
    ensures b % 16 == ByteBit(b, 4) * 8 + ByteBit(b, 5) * 4 + ByteBit(b, 6) * 2 + ByteBit(b, 7)
    ensures b / 64 == ByteBit(b, 0) * 2 + ByteBit(b, 1)
    ensures b % 64 == ByteBit(b, 2) * 32 + ByteBit(b, 3) * 16 + ByteBit(b, 4) * 8 + ByteBit(b, 5) * 4 + ByteBit(b, 6) * 2 + ByteBit(b, 7)
  {
    hide ByteBit;
    ByteBits(b);
    HighHalves(b);
    LowHalves(b);
    LowParts(b);
  }

  lemma HighHalves(b: Byte)
    ensures b / 128 % 2 == b / 128 && b / 64 == b / 128 * 2 + b / 64 % 2
    ensures b / 32 == b / 64 * 2 + b / 32 % 2 && b / 16 == b / 32 * 2 + b / 16 % 2
  {
  }

  lemma LowHalves(b: Byte)
    ensures b / 8 == b / 16 * 2 + b / 8 % 2 && b / 4 == b / 8 * 2 + b / 4 % 2
    ensures b / 2 == b / 4 * 2 + b / 2 % 2 && b == b / 2 * 2 + b % 2
  {
  }

  lemma LowParts(b: Byte)
    ensures b == b / 4 * 4 + b % 4 && b == b / 16 * 16 + b % 16 && b == b / 64 * 64 + b % 64
  {
  }

  lemma QuadDigits(a: Byte, b: Byte, c: Byte)
    ensures Quad(a, b, c) == [Letter(a / 4), Letter(a % 4 * 16 + b / 16), Letter(b % 16 * 4 + c / 64), Letter(c % 64)]
  {
    hide Letter;
    DigitsApart(a, b, c);
  }

  lemma DigitsApart(a: Byte, b: Byte, c: Byte)
    ensures var triple := a * 65536 + b * 256 + c;
            triple / 262144 % 64 == a / 4 && triple / 4096 % 64 == a % 4 * 16 + b / 16 &&
            triple / 64 % 64 == b % 16 * 4 + c / 64 && triple % 64 == c % 64
  {
    TopDigit(a, b * 256 + c);
    SecondDigit(a, b, c);
    ThirdDigit(a * 256 + b, c);
    LastDigits(a, b, c);
  }

  lemma LastDigits(a: Byte, b: Byte, c: Byte)
    ensures (a * 65536 + b * 256 + c) % 64 == c % 64 && (a * 256 + b) % 16 == b % 16
  {
  }

  lemma TopDigit(a: Byte, low: nat)
    requires low < 65536
    ensures (a * 65536 + low) / 262144 % 64 == a / 4
  {
    assert a == a / 4 * 4 + a % 4;
  }

  lemma SecondDigit(a: Byte, b: Byte, c: Byte)
    ensures (a * 65536 + b * 256 + c) / 4096 % 64 == a % 4 * 16 + b / 16
  {
    assert b == b / 16 * 16 + b % 16;
    assert (a * 65536 + b * 256 + c) / 4096 == a * 16 + b / 16;
    assert a == a / 4 * 4 + a % 4;
    assert a * 16 + b / 16 == a / 4 * 64 + (a % 4 * 16 + b / 16);
  }

  lemma ThirdDigit(high: nat, c: Byte)
    ensures (high * 256 + c) / 64 % 64 == high % 16 * 4 + c / 64
  {
    assert (high * 256 + c) / 64 == high * 4 + c / 64;
    assert high == high / 16 * 16 + high % 16;
  }

  /** The byte at j, or zero behind the end. */
  function At(s: seq<Byte>, j: nat): Byte {
    if j < |s| then s[j] else 0
  }

  lemma BitAt(s: seq<Byte>, j: nat, k: nat)
    requires k < 8
    ensures Bit(s, 8 * j + k) == ByteBit(At(s, j), k)
  {
    hide ByteBit;
    assert (8 * j + k) / 8 == j && (8 * j + k) % 8 == k;
    ByteBits(0);
  }

  /** The bits of one byte. */
  lemma BitsAt(s: seq<Byte>, j: nat, p: nat)
    requires p == 8 * j
    ensures var b := At(s, j);
            && Bit(s, p) == ByteBit(b, 0) && Bit(s, p + 1) == ByteBit(b, 1) && Bit(s, p + 2) == ByteBit(b, 2)
            && Bit(s, p + 3) == ByteBit(b, 3) && Bit(s, p + 4) == ByteBit(b, 4) && Bit(s, p + 5) == ByteBit(b, 5)
            && Bit(s, p + 6) == ByteBit(b, 6) && Bit(s, p + 7) == ByteBit(b, 7)
  {
    hide *;
    BitAt(s, j, 0);
    BitAt(s, j, 1);
    BitAt(s, j, 2);
    BitAt(s, j, 3);
    BitAt(s, j, 4);
    BitAt(s, j, 5);
    BitAt(s, j, 6);
    BitAt(s, j, 7);
  }

  /** The letters of group g. */
  lemma GroupBits(s: seq<Byte>, g: nat)
    ensures Sextet(s, 4 * g) == At(s, 3 * g) / 4
    ensures Sextet(s, 4 * g + 1) == At(s, 3 * g) % 4 * 16 + At(s, 3 * g + 1) / 16
    ensures Sextet(s, 4 * g + 2) == At(s, 3 * g + 1) % 16 * 4 + At(s, 3 * g + 2) / 64
    ensures Sextet(s, 4 * g + 3) == At(s, 3 * g + 2) % 64
  {
    hide Bit, ByteBit, At;
    BitsAt(s, 3 * g, 24 * g);
    BitsAt(s, 3 * g + 1, 24 * g + 8);
    BitsAt(s, 3 * g + 2, 24 * g + 16);
    ByteOfBits(At(s, 3 * g));
    ByteOfBits(At(s, 3 * g + 1));
    ByteOfBits(At(s, 3 * g + 2));
  }

  lemma LaterBit(s: seq<Byte>, p: nat)
    requires |s| >= 3
    ensures Bit(s, p + 24) == Bit(s[3..], p)
  {
    hide ByteBit;
    assert (p + 24) / 8 == p / 8 + 3 && (p + 24) % 8 == p % 8;
  }

  lemma LaterBits(s: seq<Byte>, k: nat)
    requires |s| >= 3
    ensures Sextet(s, k + 4) == Sextet(s[3..], k)
  {
    hide Bit;
    LaterBit(s, 6 * k);
    LaterBit(s, 6 * k + 1);
    LaterBit(s, 6 * k + 2);
    LaterBit(s, 6 * k + 3);
    LaterBit(s, 6 * k + 4);
    LaterBit(s, 6 * k + 5);
  }

  /** Section 4 of RFC 4648: each letter stands for the next six bits of the input, with zero bits after its
      end; and what does not hold a bit of the input is padding. */
  lemma {:induction false} EncodeIsBits(s: seq<Byte>, k: nat)
    requires k < |Encode(s)|
    ensures Encode(s)[k] == if 6 * k < 8 * |s| then Letter(Sextet(s, k)) else PAD
    decreases |s|
  {
    hide Letter, Sextet, Quad;
    GroupBits(s, 0);
    QuadDigits(s[0], At(s, 1), At(s, 2));
    if |s| >= 3 && k >= 4 {
      LaterBits(s, k - 4);
      EncodeIsBits(s[3..], k - 4);
    }
  }

  lemma {:induction false} NoDots(s: seq<Byte>)
    ensures DOT !in Encode(s)
    decreases |s|
  {
    forall k: nat | k < |Encode(s)| ensures Encode(s)[k] != DOT { EncodeIsBits(s, k); }
  }

  // ---- Decoding ----

  /** The bytes of whole groups of letters; nothing if some letter is not one. */
  function DecodeQuads(s: seq<Byte>): (r: Option<seq<Byte>>)
    ensures r.Some? ==> |r.value| == |s| / 4 * 3
  {
    if |s| < 4 then Some([])
    else
      var a, b, c, d := PadOrValue(s[0]), PadOrValue(s[1]), PadOrValue(s[2]), PadOrValue(s[3]);
      if a < 0 || b < 0 || c < 0 || d < 0 then None
      else
        match DecodeQuads(s[4..])
        case None => None
        case Some(rest) => Some(Triple(a, b, c, d) + rest)
  }

  function Triple(a: nat, b: nat, c: nat, d: nat): (r: seq<Byte>)
    requires a < 64 && b < 64 && c < 64 && d < 64
    ensures |r| == 3
  {
    var triple := a * 262144 + b * 4096 + c * 64 + d;
    [triple / 65536 % 256, triple / 256 % 256, triple % 256]
  }

  /** How many bytes the text stands for, judged by its last two letters. */
  function DecodedSize(s: seq<Byte>): int {
    |s| / 4 * 3 - (if |s| > 0 && s[|s| - 1] == PAD then 1 else 0) - (if |s| > 1 && s[|s| - 2] == PAD then 1 else 0)
  }

  function Decode(s: seq<Byte>): Option<seq<Byte>> {
    if |s| % 4 != 0 then None
    else
      match DecodeQuads(s)
      case None => None
      case Some(bytes) => Some(bytes[..DecodedSize(s)])
  }

  lemma TripleOfQuad(a: Byte, b: Byte, c: Byte)
    ensures var q := Quad(a, b, c);
            && (forall k :: 0 <= k < 4 ==> q[k] != PAD && LetterValue(q[k]) >= 0)
            && Triple(LetterValue(q[0]), LetterValue(q[1]), LetterValue(q[2]), LetterValue(q[3])) == [a, b, c]
  {
    hide Letter, LetterValue, Quad, Triple;
    QuadDigits(a, b, c);
    LetterRoundTrip(a / 4);
    LetterRoundTrip(a % 4 * 16 + b / 16);
    LetterRoundTrip(b % 16 * 4 + c / 64);
    LetterRoundTrip(c % 64);
    TripleOfDigits(a, b, c);
  }

  lemma TripleOfDigits(a: Byte, b: Byte, c: Byte)
    ensures Triple(a / 4, a % 4 * 16 + b / 16, b % 16 * 4 + c / 64, c % 64) == [a, b, c]
  {
    DigitsTogether(a, b, c);
    BytesApart(a, b, c);
  }

  lemma DigitsTogether(a: Byte, b: Byte, c: Byte)
    ensures a / 4 * 262144 + (a % 4 * 16 + b / 16) * 4096 + (b % 16 * 4 + c / 64) * 64 + c % 64 == a * 65536 + b * 256 + c
  {
    assert a == a / 4 * 4 + a % 4;
    assert b == b / 16 * 16 + b % 16;
    assert c == c / 64 * 64 + c % 64;
  }

  lemma BytesApart(a: Byte, b: Byte, c: Byte)
    ensures var triple := a * 65536 + b * 256 + c;
            triple / 65536 % 256 == a && triple / 256 % 256 == b && triple % 256 == c
  {
    var triple := a * 65536 + b * 256 + c;
    assert triple / 65536 == a;
    assert triple / 256 == a * 256 + b;
  }

  function Zeros(n: nat): seq<Byte> {
    seq(n, _ => 0)
  }

  /** A last group whose letters stand for no bits of the input may as well be pads. */
  lemma ShortTriple(a: Byte, b: Byte)
    ensures Quad(a, b, 0)[3] == Letter(0) && Quad(a, 0, 0)[2] == Letter(0)
  {
    hide Letter;
    QuadDigits(a, b, 0);
    QuadDigits(a, 0, 0);
  }

  lemma {:induction false} QuadsRoundTrip(s: seq<Byte>)
    ensures DecodeQuads(Encode(s)) == Some(s + Zeros(Padding(|s|)))
    decreases |s|
  {
    hide Quad, Triple, LetterValue, Letter;
    if s == [] {
    } else if |s| >= 3 {
      TripleOfQuad(s[0], s[1], s[2]);
      QuadsRoundTrip(s[3..]);
      assert Encode(s)[4..] == Encode(s[3..]);
      assert [s[0], s[1], s[2]] + (s[3..] + Zeros(Padding(|s|))) == s + Zeros(Padding(|s|));
    } else {
      LastQuadRoundTrip(s);
    }
  }

  lemma OneQuad(e: seq<Byte>)
    requires |e| == 4 && forall k :: 0 <= k < 4 ==> PadOrValue(e[k]) >= 0
    ensures DecodeQuads(e) == Some(Triple(PadOrValue(e[0]), PadOrValue(e[1]), PadOrValue(e[2]), PadOrValue(e[3])))
  {
    hide PadOrValue, Triple;
    var t := Triple(PadOrValue(e[0]), PadOrValue(e[1]), PadOrValue(e[2]), PadOrValue(e[3]));
    assert e[4..] == [] && DecodeQuads(e[4..]) == Some([]);
    assert t + [] == t;
  }

  lemma LastQuadRoundTrip(s: seq<Byte>)
    requires 1 <= |s| <= 2
    ensures DecodeQuads(Encode(s)) == Some(s + Zeros(3 - |s|))
  {
    hide Quad, Triple, LetterValue, Letter, DecodeQuads, Encode, PadOrValue, Zeros;
    var b: Byte := At(s, 1);
    LastTriple(s, b);
    OneQuad(Encode(s));
    ShortZeros(s, b);
  }

  lemma LastTriple(s: seq<Byte>, b: Byte)
    requires 1 <= |s| <= 2 && b == At(s, 1)
    ensures |Encode(s)| == 4 && forall k :: 0 <= k < 4 ==> PadOrValue(Encode(s)[k]) >= 0
    ensures var e := Encode(s);
            Triple(PadOrValue(e[0]), PadOrValue(e[1]), PadOrValue(e[2]), PadOrValue(e[3])) == [s[0], b, 0]
  {
    hide Quad, Triple, LetterValue, Letter, Encode, PadOrValue;
    var q := Quad(s[0], b, 0);
    TripleOfQuad(s[0], b, 0);
    LastQuadValues(s, b);
    assert LetterValue(q[0]) >= 0 && LetterValue(q[1]) >= 0 && LetterValue(q[2]) >= 0 && LetterValue(q[3]) >= 0;
  }

  lemma ShortZeros(s: seq<Byte>, b: Byte)
    requires 1 <= |s| <= 2 && b == At(s, 1)
    ensures s + Zeros(3 - |s|) == [s[0], b, 0]
  {
  }

  /** Padding is read as the letter that would stand there. */
  lemma LastQuadValues(s: seq<Byte>, b: Byte)
    requires 1 <= |s| <= 2 && b == At(s, 1)
    ensures var q, e := Quad(s[0], b, 0), Encode(s);
            && |e| == 4 && PadOrValue(e[0]) == LetterValue(q[0]) && PadOrValue(e[1]) == LetterValue(q[1])
            && PadOrValue(e[2]) == LetterValue(q[2]) && PadOrValue(e[3]) == LetterValue(q[3])
  {
    hide Quad, Triple, LetterValue, Letter;
    ShortTriple(s[0], b);
    LetterRoundTrip(0);
    TripleOfQuad(s[0], b, 0);
  }

  lemma SizeOfGroups(e: seq<Byte>, g: nat)
    requires |e| == 4 * g && g > 0
    ensures DecodedSize(e) == 3 * g - (if e[4 * g - 1] == PAD then 1 else 0) - (if e[4 * g - 2] == PAD then 1 else 0)
  {
    assert |e| / 4 == g;
  }

  lemma LastLetters(s: seq<Byte>, g: nat)
    requires s != [] && g == Groups(|s|)
    ensures (Encode(s)[4 * g - 1] == PAD) == (|s| < 3 * g) && (Encode(s)[4 * g - 2] == PAD) == (|s| < 3 * g - 1)
  {
    hide Letter, Encode, Sextet, Groups;
    EncodeIsBits(s, 4 * g - 1);
    EncodeIsBits(s, 4 * g - 2);
  }

  lemma SizeRoundTrip(s: seq<Byte>)
    ensures DecodedSize(Encode(s)) == |s|
  {
    hide *;
    var g := Groups(|s|);
    if s == [] {
      NothingDecoded();
    } else {
      LastLetters(s, g);
      SizeOfGroups(Encode(s), g);
    }
  }

  lemma NothingDecoded()
    ensures Encode([]) == [] && DecodedSize([]) == 0
  {
  }

  lemma WholeGroups(n: nat, g: nat)
    requires n == 4 * g
    ensures n % 4 == 0
  {
  }

  /** Decoding undoes encoding, for every byte string. */
  lemma DecodeEncode(s: seq<Byte>)
    ensures Decode(Encode(s)) == Some(s)
  {
    hide Encode, DecodeQuads, DecodedSize, Groups;
    WholeGroups(|Encode(s)|, Groups(|s|));
    QuadsRoundTrip(s);
    SizeRoundTrip(s);
    assert (s + Zeros(Padding(|s|)))[..|s|] == s;
  }

  // ---- The loops ----

  lemma GroupsFormula(n: nat)
    ensures Groups(n) == (n + 2) / 3
  {
    hide Groups;
    assert Groups(n) <= (n + 2) / 3;
  }

  /** base64_encode: every group of letters, and then pads over those that hold no bits of the input. */
  method EncodeBytes(data: seq<Byte>) returns (out: array<Byte>)
    ensures fresh(out) && out.Length == |Encode(data)| + 1
    ensures out[..|Encode(data)|] == Encode(data) && out[|Encode(data)|] == 0
  {
    hide *;
    GroupsFormula(|data|);
    var size := 4 * ((|data| + 2) / 3);
    out := new Byte[size + 1];
    EncodeGroups(data, out);
    if |data| % 3 == 1 {
      out[size - 1] := PAD;
      out[size - 2] := PAD;
    } else if |data| % 3 == 2 {
      out[size - 1] := PAD;
    }
    out[size] := 0;
    forall k: nat | k < size ensures out[k] == Encode(data)[k] {
      EncodedAt(data, k);
    }
  }

  /** Which letters of the encoding are pads. */
  lemma EncodedAt(data: seq<Byte>, k: nat)
    requires k < 4 * ((|data| + 2) / 3)
    ensures |Encode(data)| == 4 * ((|data| + 2) / 3)
    ensures var pads := if |data| % 3 == 1 then 2 else if |data| % 3 == 2 then 1 else 0;
            Encode(data)[k] == if k < |Encode(data)| - pads then Letter(Sextet(data, k)) else PAD
  {
    hide Encode, Letter, Sextet, Groups;
    GroupsFormula(|data|);
    EncodeIsBits(data, k);
  }

  method EncodeGroups(data: seq<Byte>, out: array<Byte>)
    requires out.Length == 4 * Groups(|data|) + 1
    modifies out
    ensures forall k: nat :: k < 4 * Groups(|data|) ==> out[k] == Letter(Sextet(data, k))
  {
    hide *;
    var i: nat, j: nat := 0, 0;
    ghost var g: nat := 0;
    while i < |data|
      invariant i <= |data| && i == (if 3 * g < |data| then 3 * g else |data|) && j == 4 * g && g <= Groups(|data|)
      invariant i == |data| ==> g == Groups(|data|)
      invariant forall k: nat :: k < j ==> out[k] == Letter(Sextet(data, k))
    {
      var a: Byte, b: Byte, c: Byte := 0, 0, 0;
      if i < |data| { a := data[i]; i := i + 1; }
      if i < |data| { b := data[i]; i := i + 1; }
      if i < |data| { c := data[i]; i := i + 1; }
      Parts(data, g);
      GroupBits(data, g);
      WriteQuad(out, j, a, b, c);
      j := j + 4;
      g := g + 1;
    }
  }

  /** The four letters of a group. */
  method WriteQuad(out: array<Byte>, j: nat, a: Byte, b: Byte, c: Byte)
    requires j + 4 <= out.Length
    modifies out
    ensures forall k :: 0 <= k < j ==> out[k] == old(out[k])
    ensures out[j] == Letter(a / 4) && out[j + 1] == Letter(a % 4 * 16 + b / 16)
    ensures out[j + 2] == Letter(b % 16 * 4 + c / 64) && out[j + 3] == Letter(c % 64)
  {
    hide Letter;
    var triple := a * 65536 + b * 256 + c;
    DigitsApart(a, b, c);
    out[j] := Letter(triple / 262144 % 64);
    out[j + 1] := Letter(triple / 4096 % 64);
    out[j + 2] := Letter(triple / 64 % 64);
    out[j + 3] := Letter(triple % 64);
  }

  lemma Parts(data: seq<Byte>, g: nat)
    ensures At(data, 3 * g) == if 3 * g < |data| then data[3 * g] else 0
    ensures At(data, 3 * g + 1) == if 3 * g + 1 < |data| then data[3 * g + 1] else 0
    ensures At(data, 3 * g + 2) == if 3 * g + 2 < |data| then data[3 * g + 2] else 0
  {
  }

  lemma QuadsStep(s: seq<Byte>, i: nat)
    requires i + 4 <= |s|
    ensures var a, b, c, d := PadOrValue(s[i]), PadOrValue(s[i + 1]), PadOrValue(s[i + 2]), PadOrValue(s[i + 3]);
            && (a < 0 || b < 0 || c < 0 || d < 0 ==> DecodeQuads(s[i..]) == None)
            && (a >= 0 && b >= 0 && c >= 0 && d >= 0 ==>
                 DecodeQuads(s[i..]) == Prepend(Triple(a, b, c, d), DecodeQuads(s[i + 4..])))
  {
    hide PadOrValue, Triple;
    assert s[i..][4..] == s[i + 4..];
  }

  function Prepend(bytes: seq<Byte>, r: Option<seq<Byte>>): Option<seq<Byte>> {
    match r
    case None => None
    case Some(rest) => Some(bytes + rest)
  }

  lemma PrependTwice(x: seq<Byte>, y: seq<Byte>, r: Option<seq<Byte>>)
    ensures Prepend(x, Prepend(y, r)) == Prepend(x + y, r)
  {
    if r.Some? { assert x + (y + r.value) == x + y + r.value; }
  }

  /** base64_decode; null for what the source returns NULL for. */
  method DecodeBytes(data: seq<Byte>) returns (out: array?<Byte>)
    ensures (out != null) == Decode(data).Some?
    ensures out != null ==> fresh(out) && out.Length == |Decode(data).value| + 1
    ensures out != null ==> out[..out.Length - 1] == Decode(data).value && out[out.Length - 1] == 0
  {
    hide DecodeQuads, Triple, PadOrValue;
    if |data| % 4 != 0 { return null; }
    var size := |data| / 4 * 3;
    if |data| > 0 && data[|data| - 1] == PAD { size := size - 1; }
    if |data| > 1 && data[|data| - 2] == PAD { size := size - 1; }
    out := new Byte[size + 1];
    var ok := DecodeGroups(data, out, size);
    if !ok { return null; }
    out[size] := 0;
  }

  method DecodeGroups(data: seq<Byte>, out: array<Byte>, size: nat) returns (ok: bool)
    requires |data| % 4 == 0 && out.Length == size + 1 && size <= |data| / 4 * 3
    modifies out
    ensures ok == DecodeQuads(data).Some?
    ensures ok ==> out[..size] == DecodeQuads(data).value[..size]
  {
    hide *;
    var i: nat, j: nat := 0, 0;
    ghost var done: seq<Byte> := [];
    NothingPrepended(data);
    while i < |data|
      invariant i <= |data| && (|data| - i) % 4 == 0 && j == (if |done| < size then |done| else size)
      invariant DecodeQuads(data) == Prepend(done, DecodeQuads(data[i..]))
      invariant out[..j] == done[..j]
    {
      var a, b, c, d := PadOrValue(data[i]), PadOrValue(data[i + 1]), PadOrValue(data[i + 2]), PadOrValue(data[i + 3]);
      QuadsStep(data, i);
      i := i + 4;
      NothingAfter(done);
      if a < 0 || b < 0 || c < 0 || d < 0 { return false; }
      ghost var bytes := Triple(a, b, c, d);
      PrependTwice(done, bytes, DecodeQuads(data[i..]));
      ghost var start, was := j, out[..j];
      j := StoreTriple(out, j, size, a, b, c, d);
      assert out[..j] == was + out[start..j] by { Halves(out[..j], start); }
      StoredFront(done, bytes, start, j, size);
      done := done + bytes;
    }
    NoQuads(data[i..]);
    NothingAfter(done);
    QuadsSize(data);
    ok := true;
  }

  /** The bytes of four letters, as far as there is room. */
  method StoreTriple(out: array<Byte>, j: nat, size: nat, a: nat, b: nat, c: nat, d: nat) returns (next: nat)
    requires j <= size < out.Length && a < 64 && b < 64 && c < 64 && d < 64
    modifies out
    ensures next == if j + 3 < size then j + 3 else size
    ensures out[..j] == old(out[..j]) && out[j..next] == Triple(a, b, c, d)[..next - j]
  {
    hide Triple;
    var triple := a * 262144 + b * 4096 + c * 64 + d;
    TripleParts(a, b, c, d);
    next := StoreWithin(out, j, size, triple / 65536 % 256, triple / 256 % 256, triple % 256);
  }

  lemma Halves(s: seq<Byte>, n: nat)
    requires n <= |s|
    ensures s == s[..n] + s[n..]
  {
  }

  /** The bytes that were stored are the next ones of all. */
  lemma StoredFront(done: seq<Byte>, bytes: seq<Byte>, start: nat, next: nat, size: nat)
    requires |bytes| == 3 && start == (if |done| < size then |done| else size)
    requires next == if start + 3 < size then start + 3 else size
    ensures start <= next && done[..start] + bytes[..next - start] == (done + bytes)[..next]
    ensures next == if |done + bytes| < size then |done + bytes| else size
  {
  }

  /** The three guarded stores of the decoding loop. */
  method StoreWithin(out: array<Byte>, j: nat, size: nat, x: Byte, y: Byte, z: Byte) returns (next: nat)
    requires j <= size < out.Length
    modifies out
    ensures next == if j + 3 < size then j + 3 else size
    ensures out[..j] == old(out[..j]) && out[j..next] == [x, y, z][..next - j]
  {
    next := j;
    if next < size { out[next] := x; next := next + 1; }
    if next < size { out[next] := y; next := next + 1; }
    if next < size { out[next] := z; next := next + 1; }
    assert out[..j] == old(out[..j]);
    assert out[j..next] == [x, y, z][..next - j];
  }

  lemma NothingAfter(done: seq<Byte>)
    ensures Prepend(done, Some([])) == Some(done) && Prepend(done, None) == None
  {
    assert done + [] == done;
  }

  lemma QuadsSize(data: seq<Byte>)
    ensures DecodeQuads(data).Some? ==> |DecodeQuads(data).value| == |data| / 4 * 3
  {
  }

  lemma NothingPrepended(data: seq<Byte>)
    ensures DecodeQuads(data) == Prepend([], DecodeQuads(data[0..]))
  {
    assert data[0..] == data;
    if DecodeQuads(data).Some? { assert [] + DecodeQuads(data).value == DecodeQuads(data).value; }
  }

  lemma NoQuads(s: seq<Byte>)
    requires s == []
    ensures DecodeQuads(s) == Some([])
  {
  }

  lemma TripleParts(a: nat, b: nat, c: nat, d: nat)
    requires a < 64 && b < 64 && c < 64 && d < 64
    ensures var triple := a * 262144 + b * 4096 + c * 64 + d;
            Triple(a, b, c, d) == [triple / 65536 % 256, triple / 256 % 256, triple % 256]
  {
  }

  // ---- Known texts ----

  /** The alphabet of section 4 of RFC 4648. */
  lemma Alphabet(n: nat)
    requires n < 64
    ensures n < 26 ==> Letter(n) as int == 'A' as int + n
    ensures 26 <= n < 52 ==> Letter(n) as int == 'a' as int + (n - 26)
    ensures 52 <= n < 62 ==> Letter(n) as int == '0' as int + (n - 52)
    ensures Letter(62) as int == '+' as int && Letter(63) as int == '/' as int && PAD as int == '=' as int
  {
  }

  /** Test vectors of section 10: f, fo, foo and foobar give Zg==, Zm8=, Zm9v and Zm9vYmFy. */
  lemma TestVectors()
    ensures Encode([102]) == [90, 103, 61, 61] && Encode([102, 111]) == [90, 109, 56, 61]
    ensures Encode([102, 111, 111]) == [90, 109, 57, 118]
    ensures Encode([102, 111, 111, 98, 97, 114]) == [90, 109, 57, 118, 89, 109, 70, 121]
  {
    hide Quad;
    Quads();
    assert Encode([]) == [];
    assert [102, 111, 111][3..] == [];
    assert [98, 97, 114][3..] == [];
    assert [102, 111, 111, 98, 97, 114][3..] == [98, 97, 114];
    assert Encode([98, 97, 114]) == Quad(98, 97, 114) + [];
  }

  lemma Quads()
    ensures Quad(102, 0, 0) == [90, 103, 65, 65]
    ensures Quad(102, 111, 0) == [90, 109, 56, 65]
    ensures Quad(102, 111, 111) == [90, 109, 57, 118]
    ensures Quad(98, 97, 114) == [89, 109, 70, 121]
  {
    hide Letter;
    QuadLetters();
  }

  lemma QuadLetters()
    ensures Letter(0) == 65 && Letter(5) == 70 && Letter(24) == 89 && Letter(25) == 90 && Letter(32) == 103
    ensures Letter(38) == 109 && Letter(47) == 118 && Letter(50) == 121 && Letter(60) == 56 && Letter(61) == 57
  {
  }
}
