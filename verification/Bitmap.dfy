/** Bits packed eight to a byte, as the page, block and fragment bitmaps all are. */
module Bitmap {
  import opened Bytes

  function Pow2(n: nat): (p: nat)
    ensures p > 0
  {
    if n == 0 then 1 else 2 * Pow2(n - 1)
  }

  /** Bit `k` of `x`. */
  predicate BitOf(x: nat, k: nat)
  {
    if k == 0 then x % 2 == 1 else BitOf(x / 2, k - 1)
  }

  /** `x` with bit `k` set or cleared, and every other bit as it was. */
  function WithBit(x: nat, k: nat, v: bool, ghost width: nat): (r: nat)
    requires k < width
    ensures x < Pow2(width) ==> r < Pow2(width)
    ensures BitOf(r, k) == v
    decreases k
  {
    if k == 0 then x - x % 2 + if v then 1 else 0
    else 2 * WithBit(x / 2, k - 1, v, width - 1) + x % 2
  }

  lemma {:induction false} OtherBits(x: nat, k: nat, v: bool, j: nat, width: nat)
    requires k < width && j != k
    ensures BitOf(WithBit(x, k, v, width), j) == BitOf(x, j)
  {
    if k > 0 {
      assert WithBit(x, k, v, width) / 2 == WithBit(x / 2, k - 1, v, width - 1);
      assert WithBit(x, k, v, width) % 2 == x % 2;
    } else {
      assert WithBit(x, k, v, width) / 2 == x / 2;
    }
    if k > 0 && j > 0 {
      OtherBits(x / 2, k - 1, v, j - 1, width - 1);
    }
  }

  /** Two numbers of `width` bits with the same bits are equal. */
  lemma {:induction false} BitsDetermine(x: nat, y: nat, width: nat)
    requires x < Pow2(width) && y < Pow2(width)
    requires forall k :: 0 <= k < width ==> BitOf(x, k) == BitOf(y, k)
    ensures x == y
  {
    if width > 0 {
      assert BitOf(x, 0) == BitOf(y, 0);
      forall k | 0 <= k < width - 1 ensures BitOf(x / 2, k) == BitOf(y / 2, k) {
        assert BitOf(x, k + 1) == BitOf(y, k + 1);
      }
      BitsDetermine(x / 2, y / 2, width - 1);
    }
  }

  predicate Test(bits: seq<byte>, i: nat)
    requires i < 8 * |bits|
  {
    BitOf(bits[i / 8], i % 8)
  }

  /** The bitmap with bit `i` set to `v`. */
  function Put(bits: seq<byte>, i: nat, v: bool): (r: seq<byte>)
    requires i < 8 * |bits|
    ensures |r| == |bits|
    ensures forall j :: 0 <= j < 8 * |bits| ==> Test(r, j) == if j == i then v else Test(bits, j)
  {
    assert Pow2(8) == 256;
    var r := bits[i / 8 := WithBit(bits[i / 8], i % 8, v, 8)];
    assert forall j :: 0 <= j < 8 * |bits| ==> Test(r, j) == if j == i then v else Test(bits, j) by {
      forall j | 0 <= j < 8 * |bits| ensures Test(r, j) == if j == i then v else Test(bits, j) {
        if j / 8 == i / 8 && j != i {
          OtherBits(bits[i / 8], i % 8, v, j % 8, 8);
        }
      }
    }
    r
  }

  /** Bit `i` is the bit of value 2^(i mod 8) in byte i / 8. */
  lemma BitIsPower(n: nat, i: nat)
    requires i < 8 * n
    ensures Put(seq(n, _ => 0), i, true)[i / 8] == Pow2(i % 8)
  {
    SetInZero(i % 8, 8);
  }

  lemma {:induction false} SetInZero(k: nat, width: nat)
    requires k < width
    ensures WithBit(0, k, true, width) == Pow2(k)
  {
    if k > 0 { SetInZero(k - 1, width - 1); }
  }

  /** Bitmaps of one length with the same bits are equal. */
  lemma SameBits(a: seq<byte>, b: seq<byte>)
    requires |a| == |b|
    requires forall i :: 0 <= i < 8 * |a| ==> Test(a, i) == Test(b, i)
    ensures a == b
  {
    assert Pow2(8) == 256;
    forall n | 0 <= n < |a| ensures a[n] == b[n] {
      forall k | 0 <= k < 8 ensures BitOf(a[n], k) == BitOf(b[n], k) {
        assert Test(a, 8 * n + k) == Test(b, 8 * n + k);
      }
      BitsDetermine(a[n], b[n], 8);
    }
  }

  lemma {:induction false} ZeroBits(k: nat)
    ensures !BitOf(0, k)
  {
    if k > 0 { ZeroBits(k - 1); }
  }
}
