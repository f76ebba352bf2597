/** Finite sets of numbers and their sizes. */
module Sets {
  /** The numbers under `n`. */
  function Below(n: nat): (s: set<nat>)
    ensures |s| == n && forall p: nat :: p in s <==> p < n
  {
    if n == 0 then {} else Below(n - 1) + {n - 1}
  }

  lemma Subset<T>(a: set<T>, b: set<T>)
    requires a <= b
    ensures |a| <= |b|
  {
    assert b == a + (b - a);
  }

  lemma ProperSubset<T>(a: set<T>, b: set<T>)
    requires a < b
    ensures |a| < |b|
  {
    assert b == a + (b - a) && b - a != {};
  }

  lemma DisjointUnion<T>(a: set<T>, b: set<T>)
    requires a !! b
    ensures |a + b| == |a| + |b|
  {
  }

  lemma PartSize<T>(a: set<T>, b: set<T>)
    requires a <= b
    ensures |b| == |b - a| + |a|
  {
    assert b == (b - a) + a;
  }

  lemma UnionAtMost<T>(a: set<T>, b: set<T>)
    ensures |a + b| <= |a| + |b|
  {
    assert a + b == a + (b - a);
    Subset(b - a, b);
  }

  /** The least number of a set, 0 if there is none. */
  ghost function Least(s: set<nat>): (r: nat)
    ensures s == {} ==> r == 0
    ensures s != {} ==> r in s && forall x :: x in s ==> r <= x
  {
    if s == {} then 0
    else
      var x :| x in s;
      var rest := s - {x};
      assert s == rest + {x};
      if rest == {} then x
      else
        var r := Least(rest);
        if x < r then x else r
  }
}
