/** Bytes and little-endian numbers. */
module Bytes {

  type Byte = b: int | 0 <= b < 256

  function U16(n: nat): (r: seq<Byte>)
    ensures |r| == 2
  {
    [n % 256, n / 256 % 256]
  }

  function FromU16(lo: Byte, hi: Byte): nat {
    lo + 256 * hi
  }

  /** Two bytes hold exactly the numbers below 65536; larger ones lose their high bits. */
  lemma U16RoundTrip(n: nat)
    ensures FromU16(U16(n)[0], U16(n)[1]) == n % 0x10000
  {
  }

  function Octet(n: nat): Byte {
    n % 256
  }

  function U32(n: nat): (r: seq<Byte>)
    ensures |r| == 4
  {
    [Octet(n), Octet(n / 256), Octet(n / 65536), Octet(n / 16777216)]
  }

  function FromU32(s: seq<Byte>): nat
    requires |s| == 4
  {
    s[0] as nat + 256 * s[1] as nat + 65536 * s[2] as nat + 16777216 * s[3] as nat
  }

  lemma U32RoundTrip(n: nat)
    requires n < 0x1_0000_0000
    ensures FromU32(U32(n)) == n
  {
    assert n / 65536 == n / 65536 % 256 + 256 * (n / 16777216) && n / 16777216 % 256 == n / 16777216;
    assert n / 256 == n / 256 % 256 + 256 * (n / 65536);
    assert n == n % 256 + 256 * (n / 256);
  }

  /** The low byte comes first. */
  lemma LowByteFirst(n: nat)
    ensures var r := U16(n); n % 0x1_0000 == r[0] as int + 0x100 * r[1] as int
    ensures n < 0x1_0000_0000 ==>
              var r := U32(n); n == r[0] as int + 0x100 * r[1] as int + 0x1_0000 * r[2] as int + 0x100_0000 * r[3] as int
    ensures U16(0x1234) == [0x34, 0x12] && U32(0x1234_5678) == [0x78, 0x56, 0x34, 0x12]
  {
    U16RoundTrip(n);
    if n < 0x1_0000_0000 { U32RoundTrip(n); }
  }
}
