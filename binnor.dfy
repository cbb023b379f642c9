/** `binnor`: a two-dimensional bin table over two axes.  Entries are
    registered as pairs of fine bins; `finalize_registration` sorts the
    entry numbers (ranks) by the pair's sort key and records, for every
    coarse bin, the run of ranks that fall into it. */
module Binning {
  import opened BitArith
  import opened Axes
  import opened BinPairs
  import opened Permutations

  /** One pass of the registration loop over a cell: the first entry of an
      empty cell sets its start to the entry's rank position `i`, and every
      entry adds one to the count.  Both bit-fields keep only their low
      `nbFirst` and `nbCount` bits. */
  function Bump(c: CPair, i: nat, nbFirst: nat, nbCount: nat): (d: CPair)
    ensures c.count == 0 && i < Pow2(nbFirst) ==> d.first == i
    ensures c.count != 0 ==> d.first == c.first
    ensures c.count + 1 < Pow2(nbCount) ==> d.count == c.count + 1
  {
    var d1, d2 := Pow2(nbFirst), Pow2(nbCount);
    assert i < d1 ==> i % d1 == i by {
      if i < d1 { ModOfSmall(i, d1); }
    }
    assert c.count + 1 < d2 ==> (c.count + 1) % d2 == c.count + 1 by {
      if c.count + 1 < d2 { ModOfSmall(c.count + 1, d2); }
    }
    CPair(if c.count == 0 then i % Pow2(nbFirst) else c.first, (c.count + 1) % Pow2(nbCount))
  }

  /** The table after the registration loop has visited the first `n`
      cells of `xs` in order, the `k`-th visit being rank position `k`. */
  function Fill(t: seq<CPair>, xs: seq<nat>, n: nat, nbFirst: nat, nbCount: nat): (u: seq<CPair>)
    requires n <= |xs| && forall k :: 0 <= k < |xs| ==> xs[k] < |t|
    ensures |u| == |t|
    decreases n
  {
    if n == 0 then t
    else
      var u := Fill(t, xs, n - 1, nbFirst, nbCount);
      u[xs[n - 1] := Bump(u[xs[n - 1]], n - 1, nbFirst, nbCount)]
  }

  /** Visits leave every cell that is not visited as it was. */
  lemma {:induction false} FillUnvisited(t: seq<CPair>, xs: seq<nat>, n: nat, nbFirst: nat, nbCount: nat, x: nat)
    requires n <= |xs| && forall k :: 0 <= k < |xs| ==> xs[k] < |t|
    requires x < |t| && forall k :: 0 <= k < n ==> xs[k] != x
    ensures Fill(t, xs, n, nbFirst, nbCount)[x] == t[x]
  {
    if n > 0 {
      FillUnvisited(t, xs, n - 1, nbFirst, nbCount, x);
    }
  }

  /** Equal cells are visited in one unbroken run. */
  predicate Grouped(xs: seq<nat>)
  {
    forall i, j, k :: 0 <= i < j < k < |xs| && xs[i] == xs[k] ==> xs[j] == xs[i]
  }

  /** After the first `n` visits, every cell's `[first, end())` is exactly
      the set of positions below `n` that visited it. */
  predicate Runs(xs: seq<nat>, n: nat, u: seq<CPair>)
  {
    && n <= |xs|
    && (forall x :: 0 <= x < |u| ==> u[x].first + u[x].count <= n)
    && (forall x, i :: 0 <= x < |u| && 0 <= i < n ==> (xs[i] == x <==> u[x].first <= i < u[x].first + u[x].count))
  }

  /** With fewer than `1 << cBits` ranks, exact runs are delimited by the
      `C`-typed `end()`: it never wraps. */
  lemma RunsByEnd(xs: seq<nat>, n: nat, u: seq<CPair>, cBits: nat)
    requires Runs(xs, n, u) && n < Pow2(cBits)
    ensures forall x :: 0 <= x < |u| ==> u[x].End(cBits) == u[x].first + u[x].count
    ensures forall x, i :: 0 <= x < |u| && 0 <= i < n ==> (xs[i] == x <==> u[x].first <= i < u[x].End(cBits))
  {
  }

  /** A cell that already has a run when the grouped visits reach it once
      more has its run ending exactly there. */
  lemma RunEndsAtLast(xs: seq<nat>, n: nat, u: seq<CPair>)
    requires 1 <= n <= |xs| && xs[n - 1] < |u| && Grouped(xs)
    requires Runs(xs, n - 1, u)
    ensures var c := u[xs[n - 1]]; c.count > 0 ==> c.first + c.count == n - 1
  {
    var last := n - 1;
    var y := xs[last];
    var c := u[y];
    if c.count > 0 {
      assert xs[c.first] == y;
      if c.first < last - 1 {
        assert xs[last - 1] == y;
      }
    }
  }

  /** One more visit keeps the runs exact. */
  lemma RunsStep(xs: seq<nat>, n: nat, u: seq<CPair>, nbFirst: nat, nbCount: nat)
    requires 1 <= n <= |xs| && xs[n - 1] < |u| && Grouped(xs)
    requires n <= Pow2(nbFirst) && n < Pow2(nbCount)
    requires Runs(xs, n - 1, u)
    ensures Runs(xs, n, u[xs[n - 1] := Bump(u[xs[n - 1]], n - 1, nbFirst, nbCount)])
  {
    var last := n - 1;
    var y := xs[last];
    var c := u[y];
    var d := Bump(c, last, nbFirst, nbCount);
    var w := u[y := d];
    RunEndsAtLast(xs, n, u);
    assert d.first + d.count == last + 1 && d.first <= last;
    assert c.count == 0 ==> d.first == last;
    assert c.count > 0 ==> d.first == c.first;
    forall x, i | 0 <= x < |w| && 0 <= i < n
      ensures xs[i] == x <==> w[x].first <= i < w[x].first + w[x].count
    {
    }
  }

  /** Starting from an empty table, visiting grouped cells makes every
      cell's `[first, end())` exactly the rank positions that visited it,
      provided neither bit-field overflows. */
  lemma {:induction false} FillBlocks(t: seq<CPair>, xs: seq<nat>, n: nat, nbFirst: nat, nbCount: nat)
    requires n <= |xs| && forall k :: 0 <= k < |xs| ==> xs[k] < |t|
    requires forall x :: 0 <= x < |t| ==> t[x] == CPair(0, 0)
    requires Grouped(xs) && n <= Pow2(nbFirst) && n < Pow2(nbCount)
    ensures Runs(xs, n, Fill(t, xs, n, nbFirst, nbCount))
  {
    if n > 0 {
      FillBlocks(t, xs, n - 1, nbFirst, nbCount);
      RunsStep(xs, n, Fill(t, xs, n - 1, nbFirst, nbCount), nbFirst, nbCount);
    }
  }

  /** The counts of the first `n` cells of a table, added up. */
  function SumCounts(t: seq<CPair>, n: nat): nat
    requires n <= |t|
  {
    if n == 0 then 0 else SumCounts(t, n - 1) + t[n - 1].count
  }

  /** Changing one cell changes the sum by the change of its count. */
  lemma {:induction false} SumCountsUpdate(t: seq<CPair>, n: nat, x: nat, d: CPair)
    requires n <= |t| && x < |t|
    ensures SumCounts(t[x := d], n) == SumCounts(t, n) + if x < n then d.count - t[x].count else 0
  {
    if n > 0 {
      SumCountsUpdate(t, n - 1, x, d);
    }
  }

  /** No cell counts more than the whole table. */
  lemma {:induction false} CountBelowSum(t: seq<CPair>, n: nat, x: nat)
    requires x < n <= |t|
    ensures t[x].count <= SumCounts(t, n)
  {
    if x < n - 1 {
      CountBelowSum(t, n - 1, x);
    }
  }

  lemma {:induction false} EmptySum(t: seq<CPair>, n: nat)
    requires n <= |t| && forall x :: 0 <= x < |t| ==> t[x] == CPair(0, 0)
    ensures SumCounts(t, n) == 0
  {
    if n > 0 {
      EmptySum(t, n - 1);
    }
  }

  /** Starting from an empty table, `n` visits add up to `n` counts when
      the count bit-field does not overflow: no entry is lost. */
  lemma {:induction false} FillCountsAll(t: seq<CPair>, xs: seq<nat>, n: nat, nbFirst: nat, nbCount: nat)
    requires n <= |xs| && forall k :: 0 <= k < |xs| ==> xs[k] < |t|
    requires forall x :: 0 <= x < |t| ==> t[x] == CPair(0, 0)
    requires n < Pow2(nbCount)
    ensures SumCounts(Fill(t, xs, n, nbFirst, nbCount), |t|) == n
  {
    if n == 0 {
      EmptySum(t, |t|);
    } else {
      FillCountsAll(t, xs, n - 1, nbFirst, nbCount);
      var u := Fill(t, xs, n - 1, nbFirst, nbCount);
      var x := xs[n - 1];
      CountBelowSum(u, |u|, x);
      SumCountsUpdate(u, |u|, x, Bump(u[x], n - 1, nbFirst, nbCount));
    }
  }

  /** `ref_content(n_bin)`'s position: row `bin2`, column `bin1`, rows of
      the first axis's `N_size` cells. */
  function CellIndex(a1: Axis, n: BPair): nat
  {
    Bin2(a1.m, n) * a1.nSize + Bin1(a1.m, n)
  }

  /** The positions `ranks[..k]` sorted in order of `keys`. */
  predicate SortedByKey(ranks: seq<nat>, keys: seq<nat>)
    requires forall k :: 0 <= k < |ranks| ==> ranks[k] < |keys|
  {
    forall i, j :: 0 <= i < j < |ranks| ==> keys[ranks[i]] <= keys[ranks[j]]
  }

  /** The positions `a[..n]` are in key order. */
  predicate SortedPrefix(a: seq<nat>, n: nat, keys: seq<nat>)
    requires n <= |a| && Below(a, |keys|)
  {
    forall m, p :: 0 <= m < p < n ==> keys[a[m]] <= keys[a[p]]
  }

  /** The state inside one insertion step: the sorted prefix `s[..i + 1]`
      except for the entry at `j`, whose key is below every key after it. */
  predicate Inserting(s: seq<nat>, keys: seq<nat>, i: nat, j: nat)
    requires j <= i < |s| && Below(s, |keys|)
  {
    (forall m, n :: 0 <= m < n <= i && m != j && n != j ==> keys[s[m]] <= keys[s[n]]) &&
    (forall n :: j < n <= i ==> keys[s[j]] < keys[s[n]])
  }

  /** Starting the step: `a[i]` is out of place, the rest is sorted. */
  lemma InsertingStart(s: seq<nat>, keys: seq<nat>, i: nat)
    requires i < |s| && Below(s, |keys|)
    requires SortedPrefix(s, i, keys)
    ensures Inserting(s, keys, i, i)
  {
  }

  /** Swapping the out-of-place entry with a neighbour of larger key moves
      it one place down. */
  lemma InsertingSwap(s: seq<nat>, keys: seq<nat>, i: nat, j: nat)
    requires 0 < j <= i < |s| && Below(s, |keys|)
    requires Inserting(s, keys, i, j) && keys[s[j - 1]] > keys[s[j]]
    ensures Below(s[j - 1 := s[j]][j := s[j - 1]], |keys|)
    ensures Inserting(s[j - 1 := s[j]][j := s[j - 1]], keys, i, j - 1)
  {
    var t := s[j - 1 := s[j]][j := s[j - 1]];
    assert forall k :: 0 <= k < |t| ==> t[k] == if k == j - 1 then s[j] else if k == j then s[j - 1] else s[k];
    forall m, n | 0 <= m < n <= i && m != j - 1 && n != j - 1
      ensures keys[t[m]] <= keys[t[n]]
    {
      if n == j {
        assert keys[s[m]] <= keys[s[j - 1]];
      } else if m == j {
        assert keys[s[j - 1]] <= keys[s[n]];
      } else {
        assert keys[s[m]] <= keys[s[n]];
      }
    }
    forall n | j - 1 < n <= i
      ensures keys[t[j - 1]] < keys[t[n]]
    {
      if n > j {
        assert keys[s[j]] < keys[s[n]];
      }
    }
  }

  lemma SwapPermutes(s: seq<nat>, i: nat, j: nat)
    requires i < j < |s|
    ensures multiset(s[i := s[j]][j := s[i]]) == multiset(s)
  {
    var t := s[i := s[j]][j := s[i]];
    assert s == s[..i] + [s[i]] + s[i + 1..j] + [s[j]] + s[j + 1..];
    assert t == s[..i] + [s[j]] + s[i + 1..j] + [s[i]] + s[j + 1..];
  }

  /** Stopping the step: once the neighbour below has no larger key the
      prefix `s[..i + 1]` is sorted. */
  lemma InsertingDone(s: seq<nat>, keys: seq<nat>, i: nat, j: nat)
    requires j <= i < |s| && Below(s, |keys|)
    requires Inserting(s, keys, i, j) && (j == 0 || keys[s[j - 1]] <= keys[s[j]])
    ensures SortedPrefix(s, i + 1, keys)
  {
  }

  /** One insertion step: moves `a[i]` down into the sorted prefix
      `a[..i]`, giving the sorted prefix `a[..i + 1]`. */
  method InsertDown(a: array<nat>, keys: seq<nat>, i: nat)
    requires i < a.Length
    requires Below(a[..], |keys|)
    requires SortedPrefix(a[..], i, keys)
    modifies a
    ensures Below(a[..], |keys|)
    ensures SortedPrefix(a[..], i + 1, keys)
    ensures multiset(a[..]) == multiset(old(a[..]))
  {
    InsertingStart(a[..], keys, i);
    var j := i;
    while j > 0 && keys[a[j - 1]] > keys[a[j]]
      invariant 0 <= j <= i
      invariant Below(a[..], |keys|)
      invariant Inserting(a[..], keys, i, j)
      invariant multiset(a[..]) == multiset(old(a[..]))
    {
      ghost var before := a[..];
      InsertingSwap(before, keys, i, j);
      SwapPermutes(before, j - 1, j);
      a[j - 1], a[j] := a[j], a[j - 1];
      assert a[..] == before[j - 1 := before[j]][j := before[j - 1]];
      j := j - 1;
    }
    InsertingDone(a[..], keys, i, j);
  }

  /** The rank sort of `finalize_registration`: reorders `a` so that the
      keys of its elements do not decrease, as a permutation. */
  method SortByKey(a: array<nat>, keys: seq<nat>)
    requires Below(a[..], |keys|)
    modifies a
    ensures Below(a[..], |keys|)
    ensures SortedByKey(a[..], keys)
    ensures multiset(a[..]) == multiset(old(a[..]))
  {
    var i := 0;
    while i < a.Length
      invariant 0 <= i <= a.Length
      invariant Below(a[..], |keys|)
      invariant SortedPrefix(a[..], i, keys)
      invariant multiset(a[..]) == multiset(old(a[..]))
    {
      InsertDown(a, keys, i);
      i := i + 1;
    }
  }

  class Binnor {
    /** `m_a1`, `m_a2`: the axes, indexed by the fine bits of the first. */
    const a1: Axis
    const a2: Axis
    /** Width of the content type `C` and of the two bit-fields of `C_pair`. */
    const cBits: nat
    const nbFirst: nat
    const nbCount: nat
    /** `m_cons`: the registered pairs of fine bins. */
    var cons: seq<BPair>
    /** `m_bins`: one `C_pair` per coarse bin pair. */
    const bins: array<CPair>
    /** `m_ranks`: the entry numbers sorted by their sort keys. */
    var ranks: seq<nat>

    /** A registered pair has both fine bins inside their axes. */
    predicate InFine(p: BPair)
    {
      Bin1(a1.m, p) < a1.mSize && Bin2(a1.m, p) < a2.mSize
    }

    /** Every pair in `cs` is in range. */
    predicate AllInFine(cs: seq<BPair>)
    {
      forall k :: 0 <= k < |cs| ==> InFine(cs[k])
    }

    /** The template's `static_assert`s and the table size fixed at
        construction. */
    predicate Valid()
      reads this
    {
      && a1.Valid() && a2.Valid() && a1.m + a2.m <= 32
      && nbFirst <= cBits && nbCount <= cBits
      && bins.Length == a1.nSize * a2.nSize
    }

    /** Every pair in `cs` is counted in a cell inside the table. */
    predicate Counted(cs: seq<BPair>)
      requires a1.Valid() && a2.Valid()
    {
      forall k :: 0 <= k < |cs| ==> CellOf(cs[k]) < a1.nSize * a2.nSize
    }

    /** Appending one pair keeps both predicates exactly when the pair
        satisfies them. */
    lemma AppendPair(cs: seq<BPair>, p: BPair)
      requires a1.Valid() && a2.Valid()
      ensures AllInFine(cs + [p]) <==> AllInFine(cs) && InFine(p)
      ensures Counted(cs + [p]) <==> Counted(cs) && CellOf(p) < a1.nSize * a2.nSize
    {
      assert forall k :: 0 <= k < |cs| ==> (cs + [p])[k] == cs[k];
      assert (cs + [p])[|cs|] == p;
    }

    /** `binnor(a1, a2)`: an empty table of `N_size1 * N_size2` cells. */
    constructor (a1: Axis, a2: Axis, cBits: nat, nbFirst: nat, nbCount: nat)
      requires a1.Valid() && a2.Valid() && a1.m + a2.m <= 32
      requires nbFirst <= cBits && nbCount <= cBits
      ensures Valid() && fresh(bins)
      ensures this.a1 == a1 && this.a2 == a2
      ensures this.cBits == cBits && this.nbFirst == nbFirst && this.nbCount == nbCount
      ensures cons == [] && ranks == []
      ensures forall x :: 0 <= x < bins.Length ==> bins[x] == CPair(0, 0)
    {
      this.a1, this.a2 := a1, a2;
      this.cBits, this.nbFirst, this.nbCount := cBits, nbFirst, nbCount;
      bins := new CPair[a1.nSize * a2.nSize](_ => CPair(0, 0));
      cons, ranks := [], [];
    }

    /** The sort key of `finalize_registration`: `mask_A2_M_bins()`. */
    function Key(p: BPair): (k: nat)
      requires a2.n <= a2.m
      ensures k == Bin1(a1.m, p) + Pow2(a1.m + (a2.m - a2.n)) * Coarse2(a1.m, a2.m - a2.n, p)
    {
      SortKeyParts(a1.m, a2.m - a2.n, p);
      SortKey(a1.m, a2.m - a2.n, p)
    }

    /** `m_bin_to_n_bin`: the coarse pair of a fine pair. */
    function MBinToNBin(p: BPair): (n: BPair)
      requires a1.Valid() && a2.Valid()
      ensures Bin1(a1.m, n) == Coarse1(a1.m, a1.m - a1.n, p)
      ensures Bin2(a1.m, n) == Coarse2(a1.m, a2.m - a2.n, p)
      ensures InFine(p) ==> Bin1(a1.m, n) < a1.nSize && Bin2(a1.m, n) < a2.nSize
    {
      var c1 := a1.FromMBinToNBin(Bin1(a1.m, p));
      var c2 := a2.FromMBinToNBin(Bin2(a1.m, p));
      CoarseBelow(a1, Bin1(a1.m, p));
      Bin2Below(a1.m, p);
      Pack(a1.m, c1, c2)
    }

    /** `get_n_bin(n1, n2)`: the pair of two coarse bins, of which the
        second keeps its low `32 - M1` bits. */
    function GetNBin(n1: nat, n2: nat): (n: BPair)
      requires a1.Valid() && n1 < Pow2(a1.m)
      ensures Bin1(a1.m, n) == n1 && Bin2(a1.m, n) == LowBits(n2, 32 - a1.m)
      ensures n2 < Pow2(32 - a1.m) ==> Bin2(a1.m, n) == n2
    {
      Pack(a1.m, n1, n2)
    }

    /** The fine pair `register_entry(r1, r2)` records. */
    function FinePair(r1: real, r2: real): (p: BPair)
      requires a1.Valid() && a2.Valid() && a1.m + a2.m <= 32
      requires a1.rMin <= r1 < a1.rMax && a2.rMin <= r2 < a2.rMax
      ensures Bin1(a1.m, p) == a1.FromRToMBin(r1) && Bin2(a1.m, p) == a2.FromRToMBin(r2)
      ensures InFine(p)
    {
      a1.SizesFit();
      SecondFits(a1, a2);
      Pack(a1.m, a1.FromRToMBin(r1), a2.FromRToMBin(r2))
    }

    /** The fine pair `register_entry_safe(r1, r2)` records: clamped on
        bounded axes, wrapped on the periodic one. */
    function FinePairSafe(r1: real, r2: real): (p: BPair)
      requires a1.Valid() && a2.Valid() && a1.m + a2.m <= 32
      requires a1.kind == Pow2Periodic ==> r1 >= a1.rMin
      requires a2.kind == Pow2Periodic ==> r2 >= a2.rMin
      ensures Bin1(a1.m, p) == a1.FromRToMBinSafe(r1) && Bin2(a1.m, p) == a2.FromRToMBinSafe(r2)
      ensures InFine(p)
      ensures a1.rMin <= r1 < a1.rMax && a2.rMin <= r2 < a2.rMax ==> p == FinePair(r1, r2)
    {
      a1.SizesFit();
      SecondFits(a1, a2);
      Pack(a1.m, a1.FromRToMBinSafe(r1), a2.FromRToMBinSafe(r2))
    }

    /** `get_n_bin(r1, r2)`: the coarse pair of two coordinates; it is the
        coarse pair of the fine pair that `register_entry(r1, r2)` records. */
    function GetNBinAt(r1: real, r2: real): (n: BPair)
      requires a1.Valid() && a2.Valid() && a1.m + a2.m <= 32
      requires a1.rMin <= r1 < a1.rMax && a2.rMin <= r2 < a2.rMax
      ensures n == MBinToNBin(FinePair(r1, r2))
    {
      var f := FinePair(r1, r2);
      FineToCoarseExact(a1, r1);
      FineToCoarseExact(a2, r2);
      CoarseBelow(a1, a1.FromRToMBin(r1));
      SecondFits(a1, a2);
      assert MBinToNBin(f) == Pack(a1.m, a1.FromRToNBin(r1), a2.FromRToNBin(r2));
      Pack(a1.m, a1.FromRToNBin(r1), a2.FromRToNBin(r2))
    }

    /** The cell in which `finalize_registration` counts a fine pair. */
    function CellOf(p: BPair): (x: nat)
      requires a1.Valid() && a2.Valid()
      ensures InFine(p) ==> x < a1.nSize * a2.nSize
      ensures x == Coarse2(a1.m, a2.m - a2.n, p) * a1.nSize + Coarse1(a1.m, a1.m - a1.n, p)
    {
      var n := MBinToNBin(p);
      if InFine(p) then
        RowMajorBelow(Bin2(a1.m, n), Bin1(a1.m, n), a1.nSize, a2.nSize);
        CellIndex(a1, n)
      else CellIndex(a1, n)
    }

    /** `get_content(n_bin)`: the cell at row `bin2`, column `bin1`. */
    function GetContent(n: BPair): CPair
      requires Valid() && CellIndex(a1, n) < bins.Length
      reads this, bins
    {
      bins[CellIndex(a1, n)]
    }

    /** `get_content(n1, n2)`: reads the same cell as the pair overload. */
    function GetContentAt(n1: nat, n2: nat): (c: CPair)
      requires Valid() && n2 * a1.nSize + n1 < bins.Length
      reads this, bins
      ensures n1 < Pow2(a1.m) ==> CellIndex(a1, GetNBin(n1, n2)) == n2 * a1.nSize + n1
      ensures n1 < Pow2(a1.m) ==> c == GetContent(GetNBin(n1, n2))
    {
      var c := bins[n2 * a1.nSize + n1];
      RowBelow(n2, n1, a1.nSize, a2.nSize);
      if n1 < Pow2(a1.m) then GetNBinCell(n1, n2); c else c
    }

    /** A coarse pair whose second bin is inside its axis sits at row
        `n2`, column `n1`. */
    lemma GetNBinCell(n1: nat, n2: nat)
      requires a1.Valid() && a2.Valid() && a1.m + a2.m <= 32
      requires n1 < Pow2(a1.m) && n2 < a2.nSize
      ensures CellIndex(a1, GetNBin(n1, n2)) == n2 * a1.nSize + n1
    {
      SecondFits(a1, a2);
    }

    /** `get_content(r1, r2)`: the cell in which an entry registered at
        `(r1, r2)` is counted. */
    function GetContentAtR(r1: real, r2: real): (c: CPair)
      requires Valid()
      requires a1.rMin <= r1 < a1.rMax && a2.rMin <= r2 < a2.rMax
      reads this, bins
      ensures c == bins[CellOf(FinePair(r1, r2))]
    {
      var n := GetNBinAt(r1, r2);
      var n1, n2 := a1.FromRToNBin(r1), a2.FromRToNBin(r2);
      SecondFits(a1, a2);
      assert Bin1(a1.m, n) == n1 && Bin2(a1.m, n) == n2;
      RowMajorBelow(n2, n1, a1.nSize, a2.nSize);
      assert n2 * a1.nSize + n1 == CellOf(FinePair(r1, r2));
      GetContentAt(n1, n2)
    }

    /** The cells visited, in rank order, by the registration loop. */
    function Cells(cs: seq<BPair>, rs: seq<nat>): (xs: seq<nat>)
      requires a1.Valid() && a2.Valid()
      requires forall k :: 0 <= k < |rs| ==> rs[k] < |cs|
      ensures |xs| == |rs|
      ensures forall k :: 0 <= k < |rs| ==> xs[k] == CellOf(cs[rs[k]])
      ensures Counted(cs) ==> forall k :: 0 <= k < |xs| ==> xs[k] < a1.nSize * a2.nSize
    {
      if rs == [] then [] else Cells(cs, rs[..|rs| - 1]) + [CellOf(cs[rs[|rs| - 1]])]
    }

    /** The sort keys of the registered pairs, by entry number. */
    function KeysOf(cs: seq<BPair>): (keys: seq<nat>)
      requires a2.n <= a2.m
      ensures |keys| == |cs|
      ensures forall k :: 0 <= k < |cs| ==> keys[k] == Key(cs[k])
    {
      if cs == [] then [] else KeysOf(cs[..|cs| - 1]) + [Key(cs[|cs| - 1])]
    }

    /** Two in-range pairs are counted in the same cell exactly when they
        have the same coarse bins. */
    lemma SameCell(p: BPair, q: BPair)
      requires a1.Valid() && a2.Valid() && InFine(p) && InFine(q)
      ensures CellOf(p) == CellOf(q) <==>
        Coarse1(a1.m, a1.m - a1.n, p) == Coarse1(a1.m, a1.m - a1.n, q) &&
        Coarse2(a1.m, a2.m - a2.n, p) == Coarse2(a1.m, a2.m - a2.n, q)
    {
      var np, nq := MBinToNBin(p), MBinToNBin(q);
      if CellOf(p) == CellOf(q) {
        RowMajorUnique(Bin2(a1.m, np), Bin1(a1.m, np), Bin2(a1.m, nq), Bin1(a1.m, nq), a1.nSize);
      }
    }

    /** A pair whose sort key lies between those of two pairs counted in
        one cell is counted in that cell too. */
    lemma KeyBetweenSameCell(p: BPair, q: BPair, r: BPair)
      requires a1.Valid() && a2.Valid() && InFine(p) && InFine(q) && InFine(r)
      requires Key(p) <= Key(q) <= Key(r) && CellOf(p) == CellOf(r)
      ensures CellOf(q) == CellOf(p)
    {
      SameCell(p, r);
      SortKeyGroupsCoarse(a1.m, a1.m - a1.n, a2.m - a2.n, p, q, r);
      SameCell(p, q);
    }

    /** Ranks sorted by the sort key visit every cell in one unbroken run. */
    lemma SortedRanksGrouped(cs: seq<BPair>, rs: seq<nat>)
      requires a1.Valid() && a2.Valid()
      requires AllInFine(cs)
      requires forall k :: 0 <= k < |rs| ==> rs[k] < |cs|
      requires SortedByKey(rs, KeysOf(cs))
      ensures Grouped(Cells(cs, rs))
    {
      var xs := Cells(cs, rs);
      var keys := KeysOf(cs);
      forall i, j, k | 0 <= i < j < k < |xs| && xs[i] == xs[k]
        ensures xs[j] == xs[i]
      {
        assert keys[rs[i]] <= keys[rs[j]] <= keys[rs[k]];
        KeyBetweenSameCell(cs[rs[i]], cs[rs[j]], cs[rs[k]]);
      }
    }

    /** `reset_contents`: every cell back to `(0, 0)` and no ranks. */
    method ResetContents()
      requires Valid()
      modifies this, bins
      ensures Valid() && cons == old(cons) && ranks == []
      ensures forall x :: 0 <= x < bins.Length ==> bins[x] == CPair(0, 0)
    {
      forall x | 0 <= x < bins.Length {
        bins[x] := CPair(0, 0);
      }
      ranks := [];
    }

    /** `register_entry(r1, r2)`: records the fine pair of two coordinates.
        Outside `[min, max)` the source produces an index past the table
        (or converts a negative value to unsigned), so the model requires
        the coordinates inside. */
    method RegisterEntry(r1: real, r2: real)
      requires Valid()
      requires a1.rMin <= r1 < a1.rMax && a2.rMin <= r2 < a2.rMax
      modifies this
      ensures Valid() && ranks == old(ranks)
      ensures cons == old(cons) + [FinePair(r1, r2)]
      ensures AllInFine(cons) <==> AllInFine(old(cons))
      ensures Counted(cons) <==> Counted(old(cons))
    {
      AppendPair(cons, FinePair(r1, r2));
      cons := cons + [FinePair(r1, r2)];
    }

    /** `register_entry_safe(r1, r2)`: records the clamped or wrapped fine
        pair of two coordinates. */
    method RegisterEntrySafe(r1: real, r2: real)
      requires Valid()
      requires a1.kind == Pow2Periodic ==> r1 >= a1.rMin
      requires a2.kind == Pow2Periodic ==> r2 >= a2.rMin
      modifies this
      ensures Valid() && ranks == old(ranks)
      ensures cons == old(cons) + [FinePairSafe(r1, r2)]
      ensures AllInFine(cons) <==> AllInFine(old(cons))
      ensures Counted(cons) <==> Counted(old(cons))
    {
      AppendPair(cons, FinePairSafe(r1, r2));
      cons := cons + [FinePairSafe(r1, r2)];
    }

    /** `register_m_bins(m1, m2)`: records a pair of fine bins computed
        outside, unchecked.  `m2 << M1` is kept to the 32-bit word, so only
        the low `32 - M1` bits of `m2` survive.  Bits of `m1` above `M1`
        would be ORed into the second bin; the model requires there are
        none. */
    method RegisterMBins(m1: nat, m2: nat)
      requires Valid() && m1 < Pow2(a1.m)
      modifies this
      ensures Valid() && ranks == old(ranks)
      ensures |cons| == |old(cons)| + 1 && cons[..|old(cons)|] == old(cons)
      ensures Bin1(a1.m, cons[|old(cons)|]) == m1 && Bin2(a1.m, cons[|old(cons)|]) == m2 % Pow2(32 - a1.m)
      ensures m2 < a2.mSize ==> Bin2(a1.m, cons[|old(cons)|]) == m2
      ensures AllInFine(cons) <==> AllInFine(old(cons)) && m1 < a1.mSize && m2 % Pow2(32 - a1.m) < a2.mSize
      ensures Counted(cons) <==> Counted(old(cons)) && CellOf(cons[|old(cons)|]) < a1.nSize * a2.nSize
    {
      SecondFits(a1, a2);
      AppendPair(cons, Pack(a1.m, m1, m2));
      cons := cons + [Pack(a1.m, m1, m2)];
    }

    /** The counting loop of `finalize_registration` over the ranks `rs`
        of the pairs `cs`. */
    method CountRanks(cs: seq<BPair>, rs: seq<nat>)
      requires Valid() && |rs| < Pow2(cBits)
      requires Counted(cs)
      requires forall k :: 0 <= k < |rs| ==> rs[k] < |cs|
      modifies bins
      ensures bins[..] == Fill(old(bins[..]), Cells(cs, rs), |rs|, nbFirst, nbCount)
    {
      ghost var xs := Cells(cs, rs);
      ghost var t := bins[..];
      assert forall k :: 0 <= k < |xs| ==> xs[k] < |t|;
      var i := 0;
      while i < |rs|
        invariant 0 <= i <= |rs|
        invariant bins[..] == Fill(t, xs, i, nbFirst, nbCount)
      {
        var x := CellOf(cs[rs[i]]);
        var c := bins[x];
        ghost var before := c;
        if c.count == 0 {
          c := c.(first := i % Pow2(nbFirst));
        }
        c := c.(count := (c.count + 1) % Pow2(nbCount));
        assert c == Bump(before, i, nbFirst, nbCount);
        bins[x] := c;
        i := i + 1;
      }
    }

    /** `finalize_registration`: sorts the entry numbers by sort key into
        `ranks`, then walks them in order, setting a cell's `first` at its
        first entry and counting every entry in its `count`; finally forgets
        the registered pairs.  The loop counter has the content type, so the
        source only terminates with fewer than `1 << cBits` entries.
        Every entry must fall into a cell of the table, or the loop would
        index `m_bins` out of bounds.  When the table started empty, all
        entries are in range and neither bit-field overflows, every
        cell's `[first, end())` is exactly the positions in `ranks` of the
        entries counted in it (`Runs`). */
    method FinalizeRegistration()
      requires Valid() && |cons| < Pow2(cBits) && Counted(cons)
      modifies this, bins
      ensures Valid() && cons == [] && |ranks| == |old(cons)|
      ensures forall k :: 0 <= k < |ranks| ==> ranks[k] < |old(cons)|
      ensures multiset(ranks) == multiset(Iota(|old(cons)|))
      ensures SortedByKey(ranks, KeysOf(old(cons)))
      ensures bins[..] == Fill(old(bins[..]), Cells(old(cons), ranks), |ranks|, nbFirst, nbCount)
      ensures EmptyTable(old(bins[..])) && AllInFine(old(cons)) && |old(cons)| <= Pow2(nbFirst) && |old(cons)| < Pow2(nbCount) ==>
        Runs(Cells(old(cons), ranks), |ranks|, bins[..])
      ensures EmptyTable(old(bins[..])) && |old(cons)| < Pow2(nbCount) ==> SumCounts(bins[..], bins.Length) == |old(cons)|
    {
      ghost var cs, b0 := cons, bins[..];
      var n := |cons|;
      var a := new nat[n](k => k);
      assert a[..] == Iota(n);
      SortByKey(a, KeysOf(cons));
      assert bins[..] == b0;
      ranks := a[..];
      CountRanks(cons, ranks);
      ghost var xs := Cells(cs, ranks);
      assert bins[..] == Fill(b0, xs, n, nbFirst, nbCount);
      if EmptyTable(b0) && AllInFine(cs) && n <= Pow2(nbFirst) && n < Pow2(nbCount) {
        SortedRanksGrouped(cs, ranks);
        FillBlocks(b0, xs, n, nbFirst, nbCount);
      }
      if EmptyTable(b0) && n < Pow2(nbCount) {
        FillCountsAll(b0, xs, n, nbFirst, nbCount);
      }
      cons := [];
    }
  }

  /** Every cell is `(0, 0)`. */
  predicate EmptyTable(t: seq<CPair>)
  {
    forall x :: 0 <= x < |t| ==> t[x] == CPair(0, 0)
  }

  /** With `M1 + M2 <= 32` every fine or coarse bin of the second axis
      fits above the first axis's `M1` bits. */
  lemma SecondFits(a1: Axis, a2: Axis)
    requires a1.Valid() && a2.Valid() && a1.m + a2.m <= 32
    ensures a2.nSize <= a2.mSize <= Pow2(32 - a1.m)
  {
    a2.SizesFit();
    Pow2Monotone(a2.m, 32 - a1.m);
  }

  /** A row-major position inside a `w` by `h` table is in one of its `h`
      rows. */
  lemma RowBelow(row: nat, col: nat, w: nat, h: nat)
    requires row * w + col < w * h
    ensures row < h
  {
    if row >= h {
      MulMonotone(w, h, row);
    }
  }

  /** A fine bin below `1 << m` shifts to a coarse bin below `1 << m`. */
  lemma CoarseBelow(a: Axis, b: nat)
    requires a.Valid() && b < Pow2(a.m)
    ensures a.FromMBinToNBin(b) < Pow2(a.m)
  {
    ShiftRightDiv(b, a.m - a.n);
  }
}
