/** Bytes and the little-endian integer encoding used by the tunnel frame header
    (the `bytes` crate's `LittleEndian::read_u32` / `write_u32`). */
module Bytes {

  type Byte = b: int | 0 <= b < 256

  /** 2^32: every `u32` is below it. */
  const U32Limit: nat := 0x1_0000_0000

  /** 256^k, the number of values `k` little-endian bytes can hold. */
  function Pow256(k: nat): (p: nat)
    ensures p >= 1
  {
    if k == 0 then 1 else 256 * Pow256(k - 1)
  }

  /** The unsigned value of `b`, least significant byte first. */
  function FromLe(b: seq<Byte>): nat
  {
    if b == [] then 0 else b[0] + 256 * FromLe(b[1..])
  }

  /** The `width` least significant bytes of `n`, least significant first. */
  function ToLe(n: nat, width: nat): seq<Byte>
  {
    if width == 0 then [] else [n % 256] + ToLe(n / 256, width - 1)
  }

  lemma {:induction false} FromLeBound(b: seq<Byte>)
    ensures FromLe(b) < Pow256(|b|)
  {
    if b != [] {
      FromLeBound(b[1..]);
    }
  }

  lemma {:induction false} ToLeLength(n: nat, width: nat)
    ensures |ToLe(n, width)| == width
  {
    if width > 0 {
      ToLeLength(n / 256, width - 1);
    }
  }

  /** Reading back what was written gives the number, when it fits in `width` bytes. */
  lemma {:induction false} FromLeToLe(n: nat, width: nat)
    requires n < Pow256(width)
    ensures FromLe(ToLe(n, width)) == n
  {
    if width > 0 {
      FromLeToLe(n / 256, width - 1);
    }
  }

  /** Writing back what was read gives the same bytes. */
  lemma {:induction false} ToLeFromLe(b: seq<Byte>)
    ensures ToLe(FromLe(b), |b|) == b
  {
    if b != [] {
      var rest := FromLe(b[1..]);
      DigitSplit(b[0], rest);
      ToLeFromLe(b[1..]);
      calc {
        ToLe(FromLe(b), |b|);
        [b[0]] + ToLe(rest, |b| - 1);
        [b[0]] + b[1..];
      }
      assert [b[0]] + b[1..] == b;
    }
  }

  lemma DigitSplit(d: Byte, rest: nat)
    ensures (d + 256 * rest) % 256 == d
    ensures (d + 256 * rest) / 256 == rest
  {
  }

  /** `LittleEndian::read_u32`: the `u32` held in four bytes. */
  function ReadU32(b: seq<Byte>): (n: nat)
    requires |b| == 4
    ensures n < U32Limit
    ensures U32Bytes(n) == b
  {
    FromLeBound(b);
    ToLeFromLe(b);
    FromLe(b)
  }

  /** The four bytes `LittleEndian::write_u32` stores for `n`. */
  function U32Bytes(n: nat): (b: seq<Byte>)
    requires n < U32Limit
    ensures |b| == 4
  {
    ToLeLength(n, 4);
    ToLe(n, 4)
  }

  /** Decoding an encoded length gives the length back. */
  lemma ReadU32OfU32Bytes(n: nat)
    requires n < U32Limit
    ensures ReadU32(U32Bytes(n)) == n
  {
    FromLeToLe(n, 4);
  }

  /** Distinct lengths have distinct headers. */
  lemma U32BytesInjective(m: nat, n: nat)
    requires m < U32Limit && n < U32Limit
    requires U32Bytes(m) == U32Bytes(n)
    ensures m == n
  {
    ReadU32OfU32Bytes(m);
    ReadU32OfU32Bytes(n);
  }

  /** Two adjacent written slices make one. */
  lemma SliceGrows(prefix: seq<Byte>, s: seq<Byte>, from: nat, mid: nat, to: nat)
    requires from <= mid <= to <= |s|
    ensures prefix + s[from..mid] + s[mid..to] == prefix + s[from..to]
  {
    assert s[from..to] == s[from..mid] + s[mid..to];
  }
}
