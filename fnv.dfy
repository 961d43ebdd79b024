// The 64-bit FNV-1a string hash used to spread keys over hash-table slots.
// `bv64` arithmetic wraps modulo 2^64, as `uint64_t` does.
module Fnv {
  import opened Bytes

  /** The 64-bit FNV offset basis: the hash of the empty string. */
  const OFFSET_BASIS: bv64 := 0xcbf29ce484222325
  /** The 64-bit FNV prime. */
  const PRIME: bv64 := 0x100000001b3

  /** One byte step: XOR the byte into the low bits, then multiply by the prime. */
  function Step(h: bv64, b: byte): bv64 {
    (h ^ (b as bv64)) * PRIME
  }

  /** FNV-1a of `s`, as a left fold of Step that starts from the offset basis;
      written with the last byte outermost, `Hash(a + [b]) == Step(Hash(a), b)`. */
  function Hash(s: seq<byte>): bv64 {
    if s == [] then OFFSET_BASIS else Step(Hash(s[..|s| - 1]), s[|s| - 1])
  }

  /** Continue a hash whose state is `h` over the further bytes `s`, first byte first. */
  function Fold(h: bv64, s: seq<byte>): bv64
    decreases |s|
  {
    if s == [] then h else Fold(Step(h, s[0]), s[1..])
  }

  /** The loop of `str_hash`: walk the bytes in order, updating the accumulator. */
  method StrHash(data: seq<byte>) returns (h: bv64)
    ensures h == Hash(data)
    ensures data == [] ==> h == OFFSET_BASIS
  {
    h := OFFSET_BASIS;
    for i := 0 to |data|
      invariant h == Hash(data[..i])
    {
      assert data[..i + 1][..i] == data[..i];
      assert Hash(data[..i + 1]) == Step(h, data[i]);
      h := Step(h, data[i]);
    }
    assert data[..|data|] == data;
  }

  /** Hashing a concatenation is hashing the first part and folding in the second:
      the hash can be computed incrementally. */
  lemma {:induction false} HashAppend(a: seq<byte>, b: seq<byte>)
    ensures Hash(a + b) == Fold(Hash(a), b)
    decreases |b|
  {
    if b == [] {
      assert a + b == a;
    } else {
      var a' := a + [b[0]];
      assert Hash(a') == Step(Hash(a), b[0]) by {
        assert a'[..|a'| - 1] == a;
      }
      assert a + b == a' + b[1..];
      HashAppend(a', b[1..]);
    }
  }

  /** The first-byte-first fold from the offset basis is the same hash. */
  lemma HashIsFold(s: seq<byte>)
    ensures Fold(OFFSET_BASIS, s) == Hash(s)
  {
    HashAppend([], s);
    assert [] + s == s;
  }
}
