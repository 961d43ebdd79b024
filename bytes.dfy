// Bytes and the fixed-width little-endian integers of the wire protocol.
// The server copies 4-byte fields with memcpy on a little-endian host, so a
// `uint32_t` on the wire is four bytes, least significant first.
module Bytes {

  /** An octet, as `uint8_t`. */
  newtype byte = x: int | 0 <= x < 0x100

  /** 2^32: every `uint32_t` lies below it. */
  const U32_LIMIT: int := 0x1_0000_0000

  /** The four little-endian bytes of a 32-bit unsigned integer. */
  function U32Le(x: nat): (r: seq<byte>)
    requires x < U32_LIMIT
    ensures |r| == 4
  {
    var x1 := x / 0x100;
    var x2 := x1 / 0x100;
    [(x % 0x100) as byte, (x1 % 0x100) as byte, (x2 % 0x100) as byte, (x2 / 0x100) as byte]
  }

  /** The 32-bit unsigned integer held by the first four bytes of `s`. */
  function ReadU32Le(s: seq<byte>): (x: nat)
    requires |s| >= 4
    ensures x < U32_LIMIT
  {
    s[0] as nat + 0x100 * s[1] as nat + 0x1_0000 * s[2] as nat + 0x100_0000 * s[3] as nat
  }

  /** Reading back what U32Le wrote gives the original integer. */
  lemma ReadWriteU32(x: nat)
    requires x < U32_LIMIT
    ensures ReadU32Le(U32Le(x)) == x
  {
    var x1 := x / 0x100;
    var x2 := x1 / 0x100;
    var s := U32Le(x);
    assert s[0] as nat == x % 0x100;
    assert s[1] as nat == x1 % 0x100;
    assert s[2] as nat == x2 % 0x100;
    assert s[3] as nat == x2 / 0x100;
    assert x2 == x2 % 0x100 + 0x100 * (x2 / 0x100);
    assert x1 == x1 % 0x100 + 0x100 * x2;
    assert x == x % 0x100 + 0x100 * x1;
  }

  /** Four bytes are determined by the integer they encode. */
  lemma WriteReadU32(s: seq<byte>)
    requires |s| == 4
    ensures U32Le(ReadU32Le(s)) == s
  {
    var a, b, c, d := s[0] as nat, s[1] as nat, s[2] as nat, s[3] as nat;
    var x2 := c + 0x100 * d;
    var x1 := b + 0x100 * x2;
    var x := a + 0x100 * x1;
    assert x == ReadU32Le(s);
    assert x / 0x100 == x1 && x % 0x100 == a;
    assert x1 / 0x100 == x2 && x1 % 0x100 == b;
    assert x2 / 0x100 == d && x2 % 0x100 == c;
  }

  /** Quotient and remainder are the only pair with the remainder in range. */
  lemma ModUnique(a: int, d: int, q: int, r: int)
    requires d > 0 && 0 <= r < d && a == d * q + r
    ensures a % d == r
  {
    var q', r' := a / d, a % d;
    assert a == d * q' + r';
    var e := q' - q;
    assert d * q' == d * q + d * e;
    assert d * e == r - r';
    if e > 0 {
      MulMono(d, e);
    } else if e < 0 {
      MulMono(d, -e);
    }
  }

  lemma MulMono(d: int, e: int)
    requires d > 0 && e >= 1
    ensures d * e >= d
  {
    assert d * e == d + d * (e - 1);
  }
}
