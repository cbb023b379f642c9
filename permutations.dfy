/** Index sequences and the permutations of them: the rank table of the
    binning and the output addresses of a sorter are both permutations of
    `[0, n)`. */
module Permutations {

  /** `[0, 1, ..., n - 1]`, what `std::iota` writes. */
  function Iota(n: nat): (s: seq<nat>)
    ensures |s| == n && forall k :: 0 <= k < n ==> s[k] == k
  {
    if n == 0 then [] else Iota(n - 1) + [n - 1]
  }

  /** A permutation of `Iota(n)` holds every entry number exactly once. */
  lemma PermutationOfIota(rs: seq<nat>, n: nat)
    requires multiset(rs) == multiset(Iota(n))
    ensures |rs| == n
    ensures forall j :: 0 <= j < n ==> multiset(rs)[j] == 1
    ensures forall k :: 0 <= k < |rs| ==> rs[k] < n
  {
    assert |multiset(rs)| == |multiset(Iota(n))|;
    forall j | 0 <= j < n
      ensures multiset(rs)[j] == 1
    {
      IotaCount(n, j);
    }
    forall k | 0 <= k < |rs|
      ensures rs[k] < n
    {
      assert rs[k] in multiset(rs);
      IotaCount(n, rs[k]);
    }
  }

  /** `Iota(n)` holds each number below `n` once and nothing else. */
  lemma {:induction false} IotaCount(n: nat, v: nat)
    ensures multiset(Iota(n))[v] == if v < n then 1 else 0
  {
    if n > 0 {
      IotaSnoc(n, v);
      IotaCount(n - 1, v);
    }
  }

  lemma IotaSnoc(n: nat, v: nat)
    requires n > 0
    ensures multiset(Iota(n))[v] == multiset(Iota(n - 1))[v] + if v == n - 1 then 1 else 0
  {
    assert Iota(n) == Iota(n - 1) + [n - 1];
  }

  /** Every position in `p` is below `n`. */
  predicate Below(p: seq<nat>, n: nat)
  {
    forall k :: 0 <= k < |p| ==> p[k] < n
  }

  /** The entries of `s` at the positions `p`. */
  function Pick<T>(s: seq<T>, p: seq<nat>): (r: seq<T>)
    requires Below(p, |s|)
    ensures |r| == |p| && forall k :: 0 <= k < |p| ==> r[k] == s[p[k]]
  {
    seq(|p|, k requires 0 <= k < |p| => s[p[k]])
  }

  /** Picking at every position in order gives the sequence back. */
  lemma PickIota<T>(s: seq<T>)
    ensures Pick(s, Iota(|s|)) == s
  {
  }

  /** Picking at positions that are a rearrangement of each other gives
      rearrangements of each other. */
  lemma {:induction false} PickRearranged<T>(s: seq<T>, p: seq<nat>, q: seq<nat>)
    requires Below(p, |s|) && Below(q, |s|)
    requires multiset(p) == multiset(q)
    ensures multiset(Pick(s, p)) == multiset(Pick(s, q))
    decreases |p|
  {
    if |p| > 0 {
      var last := |p| - 1;
      var x := p[last];
      assert x in multiset(q);
      var i :| 0 <= i < |q| && q[i] == x;
      DropOne(p, last);
      DropOne(q, i);
      PickDrop(s, p, last);
      PickDrop(s, q, i);
      PickRearranged(s, p[..last] + p[last + 1..], q[..i] + q[i + 1..]);
    }
  }

  /** Picking at all positions but one misses one copy of that entry. */
  lemma PickDrop<T>(s: seq<T>, p: seq<nat>, i: nat)
    requires Below(p, |s|) && i < |p|
    ensures Below(p[..i] + p[i + 1..], |s|)
    ensures multiset(Pick(s, p)) == multiset(Pick(s, p[..i] + p[i + 1..])) + multiset{s[p[i]]}
  {
    var p1, p2, mid := p[..i], p[i + 1..], [p[i]] + p[i + 1..];
    var v := s[p[i]];
    assert p == p1 + mid;
    PickAppend(s, p1, mid);
    PickAppend(s, [p[i]], p2);
    PickAppend(s, p1, p2);
    assert Pick(s, [p[i]]) == [v];
    MiddleOut(Pick(s, p1), v, Pick(s, p2));
  }

  lemma MiddleOut<T>(a: seq<T>, v: T, b: seq<T>)
    ensures multiset(a + ([v] + b)) == multiset(a + b) + multiset{v}
  {
  }

  lemma PickAppend<T>(s: seq<T>, p1: seq<nat>, p2: seq<nat>)
    requires Below(p1, |s|) && Below(p2, |s|)
    ensures Below(p1 + p2, |s|) && Pick(s, p1 + p2) == Pick(s, p1) + Pick(s, p2)
  {
  }

  /** Dropping one entry takes one copy of it out of the multiset. */
  lemma DropOne<T>(q: seq<T>, i: nat)
    requires i < |q|
    ensures multiset(q[..i] + q[i + 1..]) == multiset(q) - multiset{q[i]}
  {
    assert q == q[..i] + [q[i]] + q[i + 1..];
  }

  /** Picking at a permutation of all positions rearranges the sequence. */
  lemma PickPermutation<T>(s: seq<T>, p: seq<nat>)
    requires multiset(p) == multiset(Iota(|s|))
    ensures Below(p, |s|) && multiset(Pick(s, p)) == multiset(s)
  {
    PermutationOfIota(p, |s|);
    PickRearranged(s, p, Iota(|s|));
    PickIota(s);
  }
}
