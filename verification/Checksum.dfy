/** The Internet checksum (section 1 of RFC 1071) as kernel/net.c computes it. */
module Checksum {
  import opened Bytes

  /** Longest buffer whose sum of 16-bit words still fits the 32-bit accumulator. */
  const MAX_SUMMED: int := 131074

  /** Sum of the first `w` big-endian 16-bit words. */
  function WordSum(data: seq<byte>, w: nat): (s: nat)
    requires 2 * w <= |data|
    ensures s <= w * 0xFFFF
  {
    if w == 0 then 0 else WordSum(data, w - 1) + ReadBe16(data, 2 * w - 2)
  }

  /** Sum of all words; an odd last byte counts as the high half of a word. */
  function Total(data: seq<byte>): (s: nat)
    ensures |data| <= MAX_SUMMED ==> s < TWO32
  {
    WordSum(data, |data| / 2) + if |data| % 2 == 1 then data[|data| - 1] as int * 0x100 else 0
  }

  /** The one's-complement representative of `s`: the end-around carry makes
      arithmetic modulo 65535, with 65535 standing for every non-zero multiple. */
  function Ones(s: nat): u16
  {
    if s == 0 then 0 else (s - 1) % 0xFFFF + 1
  }

  function InternetChecksum(data: seq<byte>): u16
  {
    0xFFFF - Ones(Total(data))
  }

  lemma OnesFoldStep(s: nat)
    requires s >= 0x1_0000
    ensures s % 0x1_0000 + s / 0x1_0000 < s
    ensures Ones(s % 0x1_0000 + s / 0x1_0000) == Ones(s)
  {
    var hi, lo := s / 0x1_0000, s % 0x1_0000;
    assert s == hi * 0x1_0000 + lo;
    assert s - 1 == (hi + lo - 1) + hi * 0xFFFF;
    ModAddMultiple(hi + lo - 1, hi);
  }

  lemma ModAddMultiple(x: int, k: int)
    ensures (x + k * 0xFFFF) % 0xFFFF == x % 0xFFFF
  {
  }

  /** internet_checksum: accumulate in 32 bits, fold the carries, complement. */
  method ComputeChecksum(data: seq<byte>) returns (c: u16)
    ensures |data| <= MAX_SUMMED ==> c == InternetChecksum(data)
  {
    var sum := AddWords(data);
    var folded := FoldCarries(sum);
    c := 0xFFFF - folded;
  }

  method AddWords(data: seq<byte>) returns (sum: u32)
    ensures |data| <= MAX_SUMMED ==> sum == Total(data)
  {
    sum := 0;
    var w := 0;
    while 2 * w + 1 < |data|
      invariant 0 <= 2 * w <= |data|
      invariant |data| <= MAX_SUMMED ==> sum == WordSum(data, w)
    {
      sum := Wrap(sum + ReadBe16(data, 2 * w));
      w := w + 1;
    }
    if |data| % 2 == 1 {
      sum := Wrap(sum + data[|data| - 1] as int * 0x100);
    }
  }

  function Wrap(x: nat): (r: u32)
    ensures x < TWO32 ==> r == x
  {
    x % TWO32
  }

  method FoldCarries(total: u32) returns (r: u16)
    ensures r == Ones(total)
  {
    var sum: nat := total;
    while sum / 0x1_0000 != 0
      invariant Ones(sum) == Ones(total)
      decreases sum
    {
      OnesFoldStep(sum);
      sum := sum % 0x1_0000 + sum / 0x1_0000;
    }
    r := sum;
  }

  /** A buffer verifies exactly when its word sum is a non-zero multiple of 65535. */
  lemma VerifiesIff(data: seq<byte>)
    ensures InternetChecksum(data) == 0 <==> Total(data) > 0 && Total(data) % 0xFFFF == 0
  {
    var s := Total(data);
    if s > 0 {
      assert (s - 1) % 0xFFFF == 0xFFFE <==> s % 0xFFFF == 0;
    }
  }

  /** Replacing the word at an even offset changes the total by the difference. */
  lemma {:induction false} WordSumReplace(data: seq<byte>, k: nat, v: u16, w: nat)
    requires 2 * k + 2 <= |data| && 2 * w <= |data|
    ensures WordSum(Splice(data, 2 * k, Be16(v)), w)
         == WordSum(data, w) + if k < w then v - ReadBe16(data, 2 * k) else 0
  {
    if w > 0 {
      WordSumReplace(data, k, v, w - 1);
      var d := Splice(data, 2 * k, Be16(v));
      if w - 1 == k {
        assert ReadBe16(d, 2 * k) == v;
      } else {
        assert ReadBe16(d, 2 * w - 2) == ReadBe16(data, 2 * w - 2);
      }
    }
  }

  lemma TotalReplace(data: seq<byte>, off: nat, v: u16)
    requires off % 2 == 0 && off + 2 <= |data|
    ensures Total(Splice(data, off, Be16(v))) == Total(data) + v - ReadBe16(data, off)
  {
    assert off == 2 * (off / 2);
    WordSumReplace(data, off / 2, v, |data| / 2);
  }

  /** Storing `v` in a field that was zero makes the buffer verify exactly when `v`
      is the checksum, or 65535 where the checksum is zero. */
  lemma StoredChecksumVerifies(data: seq<byte>, off: nat, v: u16)
    requires off % 2 == 0 && off + 2 <= |data|
    requires data[off] == 0 && data[off + 1] == 0
    ensures InternetChecksum(Splice(data, off, Be16(v))) == 0
       <==> (v == InternetChecksum(data) || (v == 0xFFFF && InternetChecksum(data) == 0))
  {
    TotalReplace(data, off, v);
    VerifiesIff(Splice(data, off, Be16(v)));
    Complement(Total(data), v);
  }

  lemma Complement(s: nat, v: u16)
    ensures (s + v > 0 && (s + v) % 0xFFFF == 0)
       <==> (v == 0xFFFF - Ones(s) || (v == 0xFFFF && Ones(s) == 0xFFFF))
  {
    if s > 0 {
      var q, r := (s - 1) / 0xFFFF, (s - 1) % 0xFFFF;
      assert s + v == (r + 1 + v) + q * 0xFFFF;
      ModAddMultiple(r + 1 + v, q);
    }
  }

  /** A verifying buffer whose word at an even offset is replaced by another
      still verifies only if the two words are 0 and 65535. */
  lemma WordErrorDetected(data: seq<byte>, off: nat, v: u16)
    requires off % 2 == 0 && off + 2 <= |data|
    requires InternetChecksum(data) == 0 && v != ReadBe16(data, off)
    ensures InternetChecksum(Splice(data, off, Be16(v))) == 0
        ==> {v, ReadBe16(data, off)} == {0, 0xFFFF}
  {
    var w := ReadBe16(data, off);
    TotalReplace(data, off, v);
    VerifiesIff(data);
    VerifiesIff(Splice(data, off, Be16(v)));
    var s := Total(data);
    if (s + v - w) % 0xFFFF == 0 {
      var q := s / 0xFFFF;
      assert s + v - w == (v - w) + q * 0xFFFF;
      ModAddMultiple(v - w, q);
      assert v - w == 0xFFFF || v - w == -0xFFFF;
    }
  }
}
