/**
 Base 128 varints of the Protocol Buffers encoding: the forward encoder, the decoder
 as a function of the remaining input, and their round trip.
 */
module Varints {
  import opened Base

  /** Least significant group first, continuation bit on every byte but the last. */
  function Varint(v: nat): (s: bytes)
    ensures |s| >= 1
  {
    if v < 128 then [v] else [128 + v % 128] + Varint(v / 128)
  }

  /**
   The number a varint at the head of `bs` spells out, before it is cut to 64 bits, and
   the bytes it takes. The `k` bytes already read count against the limit of ten: a shift
   of 7 * 10 is the first that reaches 64.
   */
  function ReadGroups(bs: bytes, k: nat): (r: Option<(nat, nat)>)
    ensures r.Some? ==> 1 <= r.value.1 <= |bs|
    decreases |bs|
  {
    if k >= 10 || bs == [] then None
    else if bs[0] < 128 then Some((bs[0], 1))
    else
      match ReadGroups(bs[1..], k + 1)
      case None => None
      case Some((v, n)) => Some((bs[0] - 128 + 128 * v, n + 1))
  }

  /** A varint at the head of `bs`, cut to 64 bits as the shifts of the reader cut it. */
  function ReadVarint(bs: bytes): (r: Option<(uint64, nat)>)
    ensures r.Some? ==> 1 <= r.value.1 <= |bs|
  {
    match ReadGroups(bs, 0)
    case None => None
    case Some((v, n)) => Some((ToUint64(v), n))
  }

  /** Values that fit in the groups left after `k` bytes. */
  function Capacity(k: nat): nat
    requires k <= 10
    decreases 10 - k
  {
    if k == 10 then 1 else 128 * Capacity(k + 1)
  }

  lemma {:induction false} ReadGroupsLocal(bs: bytes, cs: bytes, k: nat)
    requires ReadGroups(bs, k).Some?
    requires var n := ReadGroups(bs, k).value.1; n <= |cs| && cs[..n] == bs[..n]
    ensures ReadGroups(cs, k) == ReadGroups(bs, k)
    decreases |bs|
  {
    var n := ReadGroups(bs, k).value.1;
    assert cs[0] == cs[..n][0] == bs[..n][0] == bs[0];
    if bs[0] >= 128 {
      assert cs[1..][..n - 1] == cs[..n][1..] == bs[..n][1..] == bs[1..][..n - 1];
      ReadGroupsLocal(bs[1..], cs[1..], k + 1);
    }
  }

  /** What a varint reads depends only on the bytes it takes. */
  lemma ReadVarintLocal(bs: bytes, cs: bytes)
    requires ReadVarint(bs).Some?
    requires var n := ReadVarint(bs).value.1; n <= |cs| && cs[..n] == bs[..n]
    ensures ReadVarint(cs) == ReadVarint(bs)
  {
    ReadGroupsLocal(bs, cs, 0);
  }

  /** The number that seven-bit groups spell, least significant first. */
  function GroupSum(bs: bytes): nat {
    if bs == [] then 0 else bs[0] % 128 + 128 * GroupSum(bs[1..])
  }

  /** `n` bytes at the head of `bs` that end at the first one without a continuation bit. */
  predicate Terminated(bs: bytes, n: nat) {
    1 <= n <= |bs| && bs[n - 1] < 128 && forall i :: 0 <= i < n - 1 ==> bs[i] >= 128
  }

  lemma {:induction false} ReadGroupsExactly(bs: bytes, k: nat, v: nat, n: nat)
    requires k <= 10
    ensures ReadGroups(bs, k) == Some((v, n)) <==> Terminated(bs, n) && k + n <= 10 && v == GroupSum(bs[..n])
    decreases |bs|
  {
    if k < 10 && bs != [] {
      if bs[0] < 128 {
        assert bs[..1] == [bs[0]] && bs[..1][1..] == [];
        assert GroupSum(bs[..1]) == bs[0] + 128 * GroupSum([]);
        assert Terminated(bs, n) ==> n == 1;
      } else {
        if Terminated(bs, n) {
          assert bs[..n][1..] == bs[1..][..n - 1];
          assert Terminated(bs[1..], n - 1);
          ReadGroupsExactly(bs[1..], k + 1, GroupSum(bs[1..][..n - 1]), n - 1);
        }
        if ReadGroups(bs[1..], k + 1).Some? {
          var (u, j) := ReadGroups(bs[1..], k + 1).value;
          ReadGroupsExactly(bs[1..], k + 1, u, j);
          assert Terminated(bs, j + 1) by {
            forall i | 0 <= i < j ensures bs[i] >= 128 {
              if i > 0 { assert bs[i] == bs[1..][i - 1]; }
            }
          }
          assert bs[..j + 1][1..] == bs[1..][..j];
        }
      }
    }
  }

  /** A varint is read exactly when one of the first ten bytes ends it, and is the number they spell, cut to 64 bits. */
  lemma ReadVarintExactly(bs: bytes, v: uint64, n: nat)
    ensures ReadVarint(bs) == Some((v, n)) <==> Terminated(bs, n) && n <= 10 && v == ToUint64(GroupSum(bs[..n]))
  {
    if Terminated(bs, n) {
      ReadGroupsExactly(bs, 0, GroupSum(bs[..n]), n);
    }
    if ReadVarint(bs).Some? {
      var (w, k) := ReadGroups(bs, 0).value;
      ReadGroupsExactly(bs, 0, w, k);
    }
  }

  lemma {:induction false} ReadGroupsOfVarint(v: nat, rest: bytes, k: nat)
    requires k < 10 && v < Capacity(k)
    ensures ReadGroups(Varint(v) + rest, k) == Some((v, |Varint(v)|))
    decreases v
  {
    var s := Varint(v) + rest;
    if v >= 128 {
      assert k + 1 < 10;
      assert s[1..] == Varint(v / 128) + rest;
      ReadGroupsOfVarint(v / 128, rest, k + 1);
    }
  }

  lemma TenGroupsHold64Bits()
    ensures Capacity(0) == 64 * TWO_64
  {
    assert Capacity(9) == 128;
    assert Capacity(8) == 128 * 128;
    assert Capacity(7) == 0x20_0000;
    assert Capacity(6) == 0x1000_0000;
    assert Capacity(5) == 0x8_0000_0000;
    assert Capacity(4) == 0x400_0000_0000;
    assert Capacity(3) == 0x2_0000_0000_0000;
    assert Capacity(2) == 0x100_0000_0000_0000;
    assert Capacity(1) == 0x8000_0000_0000_0000;
  }

  /** Every 64-bit value is read back, whatever follows it. */
  lemma VarintRoundTrip(v: uint64, rest: bytes)
    ensures ReadVarint(Varint(v) + rest) == Some((v, |Varint(v)|))
  {
    TenGroupsHold64Bits();
    ReadGroupsOfVarint(v, rest, 0);
  }

  /** Bits needed to write `x`: `bits.Len64`. */
  function BitLength(x: nat): nat {
    if x == 0 then 0 else 1 + BitLength(x / 2)
  }

  /** The closed form the size pass uses: (bits.Len64(x|1) + 6) / 7. */
  function SizeOfVarint(x: uint64): (n: nat)
  {
    var odd := if x % 2 == 0 then x + 1 else x;
    (BitLength(odd) + 6) / 7
  }

  lemma BitLengthBy7(x: nat)
    requires x >= 128
    ensures BitLength(x) == 7 + BitLength(x / 128)
  {
    assert x / 2 / 2 / 2 / 2 / 2 / 2 / 2 == x / 128;
    assert BitLength(x) == 2 + BitLength(x / 2 / 2);
    assert BitLength(x / 2 / 2) == 2 + BitLength(x / 2 / 2 / 2 / 2);
    assert BitLength(x / 2 / 2 / 2 / 2) == 2 + BitLength(x / 2 / 2 / 2 / 2 / 2 / 2);
  }

  lemma {:induction false} BitLengthCountsGroups(x: nat)
    requires x > 0
    ensures (BitLength(x) + 6) / 7 == |Varint(x)|
  {
    if x < 128 {
      assert BitLength(x) == 1 + BitLength(x / 2);
      assert x / 2 < 64 && x / 4 < 32 && x / 8 < 16 && x / 16 < 8 && x / 32 < 4 && x / 64 < 2;
      BitLengthBelow128(x);
    } else {
      BitLengthBy7(x);
      BitLengthCountsGroups(x / 128);
    }
  }

  lemma {:induction false} BitLengthBound(x: nat, b: nat, k: nat)
    requires x < b && b == Pow2(k)
    ensures BitLength(x) <= k
    decreases k
  {
    if x > 0 && k > 0 {
      BitLengthBound(x / 2, Pow2(k - 1), k - 1);
    }
  }

  function Pow2(k: nat): nat { if k == 0 then 1 else 2 * Pow2(k - 1) }

  lemma BitLengthBelow128(x: nat)
    requires 0 < x < 128
    ensures 1 <= BitLength(x) <= 7
  {
    assert Pow2(3) == 8;
    assert Pow2(5) == 32;
    assert Pow2(7) == 128;
    BitLengthBound(x, 128, 7);
  }

  /** The size pass counts exactly the bytes the encoder writes. */
  lemma SizeOfVarintIsExact(x: uint64)
    ensures SizeOfVarint(x) == |Varint(x)|
  {
    var odd := if x % 2 == 0 then x + 1 else x;
    BitLengthCountsGroups(odd);
    VarintOfOdd(x);
  }

  lemma {:induction false} VarintOfOdd(x: nat)
    ensures |Varint(if x % 2 == 0 then x + 1 else x)| == |Varint(x)|
  {
    if x % 2 == 0 && x >= 128 {
      assert (x + 1) / 128 == x / 128;
    }
  }
}
