/** Ring buffers: `count` elements of `buf` from index `head`, wrapping at the end. */
module Ring {
  function Wrap(i: nat, n: nat): (r: nat)
    requires n > 0 && i < 2 * n
    ensures r < n && (r == i || r == i - n)
  {
    if i < n then i else i - n
  }

  lemma WrapIsMod(i: nat, n: nat)
    requires n > 0 && i < 2 * n
    ensures i % n == Wrap(i, n)
  {
    if i >= n { assert i == n + (i - n); }
  }

  predicate Fits<T>(buf: seq<T>, head: nat, tail: nat, count: nat)
  {
    head < |buf| && count <= |buf| && tail == Wrap(head + count, |buf|)
  }

  /** The elements, oldest first. */
  function Contents<T>(buf: seq<T>, head: nat, count: nat): (r: seq<T>)
    requires head < |buf| && count <= |buf|
    ensures |r| == count
    ensures forall i :: 0 <= i < count ==> r[i] == buf[Wrap(head + i, |buf|)]
  {
    (buf + buf)[head..head + count]
  }

  lemma Push<T>(buf: seq<T>, head: nat, tail: nat, count: nat, x: T)
    requires Fits(buf, head, tail, count) && count < |buf|
    ensures (tail + 1) % |buf| < |buf|
    ensures Fits(buf[tail := x], head, (tail + 1) % |buf|, count + 1)
    ensures Contents(buf[tail := x], head, count + 1) == Contents(buf, head, count) + [x]
  {
    WrapIsMod(tail + 1, |buf|);
  }

  lemma Pop<T>(buf: seq<T>, head: nat, tail: nat, count: nat)
    requires Fits(buf, head, tail, count) && count > 0
    ensures (head + 1) % |buf| < |buf|
    ensures Fits(buf, (head + 1) % |buf|, tail, count - 1)
    ensures Contents(buf, (head + 1) % |buf|, count - 1) == Contents(buf, head, count)[1..]
    ensures Contents(buf, head, count)[0] == buf[head]
  {
    WrapIsMod(head + 1, |buf|);
  }

  /** Overwriting the slot that was just vacated changes nothing that is queued. */
  lemma Vacate<T>(buf: seq<T>, head: nat, tail: nat, count: nat, x: T)
    requires Fits(buf, head, tail, count) && count > 0
    ensures (head + 1) % |buf| < |buf|
    ensures Fits(buf[head := x], (head + 1) % |buf|, tail, count - 1)
    ensures Contents(buf[head := x], (head + 1) % |buf|, count - 1) == Contents(buf, head, count)[1..]
  {
    WrapIsMod(head + 1, |buf|);
  }
}
