/** Byte sequences as the Python code sees them through `struct` and `bytes`:
    little-endian integers of fixed width, NUL padding and ASCII constants. */
module Bytes {

  type Byte = x: int | 0 <= x < 256

  /** 256^k, the number of values a k-byte unsigned field can hold. */
  function Pow256(k: nat): (p: nat)
    ensures p >= 1
  {
    if k == 0 then 1 else 256 * Pow256(k - 1)
  }

  lemma Pow256Widths()
    ensures Pow256(4) == 0x1_0000_0000
    ensures Pow256(8) == 0x1_0000_0000_0000_0000
  {
  }

  /** The bytes of `s` read as an unsigned little-endian integer (`struct` code `<I`, `<Q`). */
  function LeUnsigned(bs: seq<Byte>): (n: nat)
    ensures n < Pow256(|bs|)
  {
    if bs == [] then 0 else bs[0] + 256 * LeUnsigned(bs[1..])
  }

  /** The k-byte little-endian encoding of n. */
  function LeBytes(n: nat, k: nat): (bs: seq<Byte>)
    requires n < Pow256(k)
    ensures |bs| == k
  {
    if k == 0 then [] else [n % 256] + LeBytes(n / 256, k - 1)
  }

  lemma {:induction false} LeUnsignedOfLeBytes(n: nat, k: nat)
    requires n < Pow256(k)
    ensures LeUnsigned(LeBytes(n, k)) == n
  {
    if k > 0 {
      LeUnsignedOfLeBytes(n / 256, k - 1);
      assert LeBytes(n, k)[1..] == LeBytes(n / 256, k - 1);
    }
  }

  /** An unsigned value is zero exactly when every byte is zero. */
  lemma {:induction false} LeUnsignedZero(bs: seq<Byte>)
    ensures LeUnsigned(bs) == 0 <==> forall k :: 0 <= k < |bs| ==> bs[k] == 0
  {
    if bs != [] {
      LeUnsignedZero(bs[1..]);
      assert forall k :: 1 <= k < |bs| ==> bs[k] == bs[1..][k - 1];
    }
  }

  /** The bytes read as a two's-complement little-endian integer (`struct` code `<i`, `<q`). */
  function LeSigned(bs: seq<Byte>): (i: int)
    requires |bs| > 0
    ensures -(Pow256(|bs|) / 2) <= i < Pow256(|bs|) / 2
    ensures i >= 0 ==> i == LeUnsigned(bs)
    ensures i < 0 ==> i == LeUnsigned(bs) - Pow256(|bs|)
  {
    var u := LeUnsigned(bs);
    if u < Pow256(|bs|) / 2 then u else u - Pow256(|bs|)
  }

  /** The unsigned k-byte pattern that stores the signed value i. */
  function TwosComplement(i: int, k: nat): (n: nat)
    requires k > 0 && -(Pow256(k) / 2) <= i < Pow256(k) / 2
    ensures n < Pow256(k)
  {
    if i < 0 then i + Pow256(k) else i
  }

  lemma LeSignedOfTwosComplement(i: int, k: nat)
    requires k > 0 && -(Pow256(k) / 2) <= i < Pow256(k) / 2
    ensures LeSigned(LeBytes(TwosComplement(i, k), k)) == i
  {
    LeUnsignedOfLeBytes(TwosComplement(i, k), k);
  }

  /** A signed value is non-zero exactly when some byte is non-zero (Python's `bool(q)`). */
  lemma LeSignedNonZero(bs: seq<Byte>)
    requires |bs| > 0
    ensures LeSigned(bs) != 0 <==> exists k :: 0 <= k < |bs| && bs[k] != 0
  {
    LeUnsignedZero(bs);
  }

  function Zeros(n: nat): (z: seq<Byte>)
    ensures |z| == n && forall k :: 0 <= k < n ==> z[k] == 0
  {
    seq(n, _ => 0)
  }

  /** `bs.rstrip(b"\x00")`: the longest prefix of bs that does not end in NUL,
      all of whose dropped bytes are NUL. */
  function RStripNul(bs: seq<Byte>): (r: seq<Byte>)
    ensures r <= bs
    ensures r == [] || r[|r| - 1] != 0
    ensures forall k :: |r| <= k < |bs| ==> bs[k] == 0
  {
    if bs == [] || bs[|bs| - 1] != 0 then bs else RStripNul(bs[..|bs| - 1])
  }

  predicate NoTrailingNul(bs: seq<Byte>) {
    bs == [] || bs[|bs| - 1] != 0
  }

  /** Stripping undoes NUL padding of a field that does not itself end in NUL. */
  lemma RStripPadded(bs: seq<Byte>, n: nat)
    requires NoTrailingNul(bs)
    ensures RStripNul(bs + Zeros(n)) == bs
  {
    var s := bs + Zeros(n);
    assert s[..|bs|] == bs;
  }

  /** `bs` padded with NUL to `width` bytes, as a fixed-width `struct` string field. */
  function Pad(bs: seq<Byte>, width: nat): (r: seq<Byte>)
    requires |bs| <= width
    ensures |r| == width && r[..|bs|] == bs
  {
    bs + Zeros(width - |bs|)
  }
}
