/** UTF-8 as a reader sees it (sections 3 and 4 of RFC 3629): which byte sequences are a character, and which one; and
    that the parser of src/stdlib_json.c writes the character of a `\u` escape in it. */
module Utf8Text {
  import opened Bytes
  import opened JsonText

  predicate Tail(b: Byte) {
    0x80 <= b <= 0xBF
  }

  /** The byte sequences of section 4 with up to three bytes: the shortest form only, and no surrogates. */
  predicate IsCharacter(s: seq<Byte>) {
    || (|s| == 1 && s[0] <= 0x7F)
    || (|s| == 2 && 0xC2 <= s[0] <= 0xDF && Tail(s[1]))
    || (|s| == 3 && Tail(s[2]) && Tail(s[1]) &&
        ((s[0] == 0xE0 && s[1] >= 0xA0) || 0xE1 <= s[0] <= 0xEC || (s[0] == 0xED && s[1] <= 0x9F) || 0xEE <= s[0] <= 0xEF))
  }

  /** The surrogates in the same form, which the standard does not allow. */
  predicate IsSurrogate(s: seq<Byte>) {
    |s| == 3 && s[0] == 0xED && 0xA0 <= s[1] <= 0xBF && Tail(s[2])
  }

  /** The bits that the bytes carry: seven, five and six, or four, six and six. */
  function CodePoint(s: seq<Byte>): nat
    requires 1 <= |s| <= 3
  {
    var b: int := s[0];
    if |s| == 1 then b % 0x80
    else
      var c: int := s[1];
      if |s| == 2 then b % 0x20 * 0x40 + c % 0x40
      else
        var d: int := s[2];
        b % 0x10 * 0x1000 + c % 0x40 * 0x40 + d % 0x40
  }

  /** s is the UTF-8 form of a code point, or would be if surrogates had one. */
  predicate Shows(s: seq<Byte>, cp: nat) {
    (if 0xD800 <= cp <= 0xDFFF then IsSurrogate(s) else IsCharacter(s)) && CodePoint(s) == cp
  }

  /** No two sequences show the same code point. */
  lemma ShownOnce(s: seq<Byte>, t: seq<Byte>, cp: nat)
    requires Shows(s, cp) && Shows(t, cp)
    ensures s == t
  {
    hide Shows;
    Length(s, cp);
    Length(t, cp);
    BytesOf(s, cp);
    BytesOf(t, cp);
    assert forall i :: 0 <= i < |s| ==> s[i] == t[i];
  }

  lemma BytesOf(s: seq<Byte>, cp: nat)
    requires Shows(s, cp)
    ensures 1 <= |s| <= 3
    ensures |s| == 1 ==> s[0] == cp
    ensures |s| == 2 ==> s[0] as int == 0xC0 + cp / 64 && s[1] as int == 0x80 + cp % 64
    ensures |s| == 3 ==> s[0] as int == 0xE0 + cp / 4096 && s[1] as int == 0x80 + cp / 64 % 64 && s[2] as int == 0x80 + cp % 64
  {
    if |s| == 3 {
      Carried(s[0] - 0xE0, s[1] - 0x80, s[2] - 0x80, 0xE0);
      Parts(s[0] - 0xE0, s[1] - 0x80, s[2] - 0x80);
    } else if |s| == 2 {
      Carried(0, s[0] - 0xC0, s[1] - 0x80, 0xC0);
      Parts(0, s[0] - 0xC0, s[1] - 0x80);
    }
  }

  /** Three groups of bits and the number they make. */
  lemma Parts(a: int, b: int, c: int)
    requires 0 <= a && 0 <= b < 64 && 0 <= c < 64
    ensures var n := a * 4096 + b * 64 + c; n / 4096 == a && n / 64 % 64 == b && n % 64 == c && n / 64 == a * 64 + b
  {
  }

  /** The low bits of marked bytes. */
  lemma Carried(a: int, b: int, c: int, mark: int)
    requires 0 <= a < 16 && 0 <= b < 64 && 0 <= c < 64 && (mark == 0xE0 || (mark == 0xC0 && a == 0 && b < 32))
    ensures mark == 0xE0 ==> (0xE0 + a) % 0x10 == a && (0x80 + b) % 0x40 == b
    ensures mark == 0xC0 ==> (0xC0 + b) % 0x20 == b
    ensures (0x80 + c) % 0x40 == c
  {
  }

  /** The shortest form: the length is that of the standard's table. */
  lemma Length(s: seq<Byte>, cp: nat)
    requires Shows(s, cp)
    ensures cp <= 0x7F <==> |s| == 1
    ensures 0x80 <= cp <= 0x7FF <==> |s| == 2
    ensures 0x800 <= cp <= 0xFFFF <==> |s| == 3
  {
  }

  /** What the parser writes is read back as the code point of the escape. */
  lemma EscapeShows(cp: nat)
    requires cp < 0x10000
    ensures Shows(Utf8(cp), cp)
  {
    var a, b, c := cp / 4096, cp / 64 % 64, cp % 64;
    assert cp == a * 4096 + b * 64 + c;
    if cp >= 0x800 {
      Carried(a, b, c, 0xE0);
      ThreeBytes(a, b, c, cp);
    } else if cp >= 0x80 {
      assert a == 0 && cp / 64 == b && b < 32;
      Carried(0, b, c, 0xC0);
    }
  }

  lemma ThreeBytes(a: int, b: int, c: int, cp: nat)
    requires 0 <= a < 16 && 0 <= b < 64 && 0 <= c < 64 && cp == a * 4096 + b * 64 + c && cp >= 0x800
    ensures Shows([0xE0 + a, 0x80 + b, 0x80 + c], cp)
  {
    Carried(a, b, c, 0xE0);
  }

  /** The sequences of four bytes, for the code points from 0x10000 on. */
  predicate IsLongCharacter(s: seq<Byte>) {
    |s| == 4 && Tail(s[2]) && Tail(s[3]) &&
    ((s[0] == 0xF0 && 0x90 <= s[1] <= 0xBF) || (0xF1 <= s[0] <= 0xF3 && Tail(s[1])) || (s[0] == 0xF4 && 0x80 <= s[1] <= 0x8F))
  }

  function LongCodePoint(s: seq<Byte>): nat
    requires |s| == 4
  {
    var a: int, b: int, c: int, d: int := s[0], s[1], s[2], s[3];
    a % 8 * 0x4_0000 + b % 0x40 * 0x1000 + c % 0x40 * 0x40 + d % 0x40
  }
}
