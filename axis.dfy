/** The axis family of the two-dimensional binning index: `axis_base`,
    `axis_pow2_base` (with `axis_pow2`), `axis_pow2_u1` and `axis`.
    An axis turns a real coordinate into a bin index at a fine resolution
    (M bits) and a coarse resolution (N bits, N <= M).  Coordinates are exact
    reals here; the source computes in floating point. */
module Axes {
  import opened BitArith

  /** Which of the source's axis types an `Axis` value stands for.
      Linear:       `axis` built from a bin count (bounded, any count of coarse bins).
      Pow2Bounded:  `axis_pow2` (bounded, bin counts fixed by the bit widths).
      Pow2Periodic: `axis_pow2_u1` (periodic with period rMax - rMin; the safe
                    conversions mask instead of clamping). */
  datatype AxisKind = Linear | Pow2Bounded | Pow2Periodic

  /** `I_pair`: a range of coarse bins, `begin` inclusive, `end` exclusive. */
  datatype IPair = IPair(begin: nat, end: nat)

  /** Why `axis(min, max, n_bins)` yields no usable axis: the
      construction-time check `N_size <= (1 << N)` failed, or no bins were
      asked for. */
  datatype AxisError = TooManyBins(requested: nat, limit: nat) | NoBins

  datatype Result<T> = Success(value: T) | Failure(error: AxisError)

  /** Truncation of a non-negative real to an unsigned bin index. */
  function Trunc(x: real): (t: nat)
    requires x >= 0.0
    ensures t as real <= x < t as real + 1.0
  {
    x.Floor
  }

  /** `x * f` with `f >= 0` does not decrease when `x` grows. */
  lemma ScaleMonotone(x: real, y: real, f: real)
    requires x <= y && f >= 0.0
    ensures x * f <= y * f
  {
    assert y * f - x * f == (y - x) * f;
  }

  /** Scaling `[0, w)` by `s / w` lands in `[0, s)`. */
  lemma ScaleBelow(x: real, w: real, s: nat)
    requires 0.0 <= x < w && s >= 1
    ensures 0.0 <= x * (s as real / w) < s as real
  {
    var f := s as real / w;
    assert f * w == s as real;
    assert w * f - x * f == (w - x) * f;
    assert (w - x) * f > 0.0;
  }

  /** Truncation is monotone. */
  lemma TruncMonotone(x: real, y: real)
    requires 0.0 <= x <= y
    ensures Trunc(x) <= Trunc(y)
  {
  }

  /** `iBits` is the width of the unsigned bin index type `I`: bin
      arithmetic on `I` values wraps modulo `1 << iBits`. */
  datatype Axis = Axis(kind: AxisKind, rMin: real, rMax: real, m: nat, n: nat, iBits: nat, mSize: nat, nSize: nat)
  {
    /** What every constructor establishes: M >= N (`static_assert(M >= N)`),
        a non-empty real extent, `N_size <= 1 << N` (the construction-time
        assert), `M_size == N_size << (M - N)`, and for the power-of-two
        variants sizes fixed by the bit widths.  `1 << M` is an `int`
        shift in the source, so M is at most 30; a fine bin fits in `I`. */
    predicate Valid()
    {
      && n <= m <= 30 && m <= iBits
      && rMin < rMax
      && 1 <= nSize <= Pow2(n)
      && mSize == Shl(nSize, m - n)
      && (kind != Linear ==> nSize == Pow2(n))
    }

    /** The fine bins fit in M bits; on power-of-two axes they fill them. */
    lemma SizesFit()
      requires Valid()
      ensures mSize <= Pow2(m)
      ensures kind != Linear ==> mSize == Pow2(m)
    {
      ShlMonotone(nSize, Pow2(n), m - n);
      ShlPow2(n, m - n);
    }

    /** `m_M_fac` and `m_N_fac` are `Factor(M_size)` and `Factor(N_size)`. */
    function Factor(size: nat): (f: real)
      requires rMin < rMax
      ensures f >= 0.0 && f * (rMax - rMin) == size as real
    {
      size as real / (rMax - rMin)
    }

    /** `from_R_to_M_bin` / `from_R_to_N_bin` at resolution `size`:
        `(r - m_R_min) * fac`, truncated.  Below `rMin` the source converts
        a negative real to an unsigned index, so the model requires `r >= rMin`. */
    function Scaled(r: real, size: nat): (b: nat)
      requires rMin < rMax && r >= rMin && size >= 1
      ensures r < rMax ==> b < size
    {
      var x := r - rMin;
      ScaleMonotone(0.0, x, Factor(size));
      if r < rMax then ScaleBelow(x, rMax - rMin, size); Trunc(x * Factor(size))
      else Trunc(x * Factor(size))
    }

    /** `from_R_to_M_bin_safe` / `from_R_to_N_bin_safe` at resolution
        `size == 1 << bits`.  Bounded axes clamp to `[0, size - 1]`
        (`m_last_*_bin`); the periodic axis masks with `(1 << bits) - 1`. */
    function SafeScaled(r: real, size: nat, bits: nat): (b: nat)
      requires rMin < rMax && size >= 1 && size <= Pow2(bits)
      requires kind == Pow2Periodic ==> r >= rMin && size == Pow2(bits)
      ensures b < size
      ensures rMin <= r < rMax ==> b == Scaled(r, size)
      ensures kind != Pow2Periodic && r <= rMin ==> b == 0
      ensures kind != Pow2Periodic && r >= rMax ==> b == size - 1
    {
      if kind == Pow2Periodic then
        var s := Scaled(r, size);
        var d := Pow2(bits);
        ModBelow(s, d);
        if r < rMax then ModOfSmall(s, d); s % d else s % d
      else if r <= rMin then 0
      else if r >= rMax then size - 1
      else Scaled(r, size)
    }

    function FromRToMBin(r: real): (b: nat)
      requires Valid() && r >= rMin
      ensures r < rMax ==> b < mSize
    {
      Scaled(r, mSize)
    }

    function FromRToNBin(r: real): (b: nat)
      requires Valid() && r >= rMin
      ensures r < rMax ==> b < nSize
    {
      Scaled(r, nSize)
    }

    function FromRToMBinSafe(r: real): (b: nat)
      requires Valid() && (kind == Pow2Periodic ==> r >= rMin)
      ensures b < mSize
      ensures rMin <= r < rMax ==> b == FromRToMBin(r)
      ensures kind != Pow2Periodic && r <= rMin ==> b == 0
      ensures kind != Pow2Periodic && r >= rMax ==> b == mSize - 1
    {
      SizesFit();
      SafeScaled(r, mSize, m)
    }

    function FromRToNBinSafe(r: real): (b: nat)
      requires Valid() && (kind == Pow2Periodic ==> r >= rMin)
      ensures b < nSize
      ensures rMin <= r < rMax ==> b == FromRToNBin(r)
      ensures kind != Pow2Periodic && r <= rMin ==> b == 0
      ensures kind != Pow2Periodic && r >= rMax ==> b == nSize - 1
    {
      SafeScaled(r, nSize, n)
    }

    /** `from_M_bin_to_N_bin`: `m >> c_M2N_shift`. */
    function FromMBinToNBin(b: nat): (c: nat)
      requires Valid()
      ensures b < mSize ==> c < nSize
    {
      ShiftRightDiv(b, m - n);
      if b < mSize then ShrBelow(b, nSize, m - n); ShiftRight(b, m - n) else ShiftRight(b, m - n)
    }

    /** `from_R_minmax_to_N_bins`: the coarse bins covering `[rmin, rmax]`.
        Bounded axes return `(safe(rmin), safe(rmax) + 1)`, the end held in
        `I`, so it wraps to 0 when the last bin is the largest `I` value; the
        periodic axis masks the end, so `end <= begin` signals a range that
        wraps around. */
    function FromRMinMaxToNBins(rmin: real, rmax: real): (p: IPair)
      requires Valid()
      requires kind == Pow2Periodic ==> rmin >= rMin && rmax >= rMin
      ensures p.begin < nSize && p.end <= nSize
      ensures kind == Pow2Periodic ==> p.end < nSize
      ensures p.begin == FromRToNBinSafe(rmin)
      ensures kind != Pow2Periodic ==> (p.end == 0 <==> FromRToNBinSafe(rmax) + 1 == Pow2(iBits))
      ensures kind != Pow2Periodic && p.end != 0 ==> p.end == FromRToNBinSafe(rmax) + 1
      ensures FromRToNBinSafe(rmax) < Pow2(iBits) && p.end == NextNBin(FromRToNBinSafe(rmax))
    {
      Pow2Monotone(n, iBits);
      if kind == Pow2Periodic then
        ModSucc(FromRToNBin(rmax), Pow2(n));
        IPair(FromRToNBinSafe(rmin), (FromRToNBin(rmax) + 1) % Pow2(n))
      else
        var e := FromRToNBinSafe(rmax) + 1;
        if e < Pow2(iBits) then ModOfSmall(e, Pow2(iBits)); IPair(FromRToNBinSafe(rmin), e % Pow2(iBits))
        else ModAddMultiple(0, 1, Pow2(iBits)); IPair(FromRToNBinSafe(rmin), e % Pow2(iBits))
    }

    /** `from_R_rdr_to_N_bins`: the coarse bins covering `[r - dr, r + dr]`. */
    function FromRRdrToNBins(r: real, dr: real): (p: IPair)
      requires Valid()
      requires kind == Pow2Periodic ==> r - dr >= rMin && r + dr >= rMin
      ensures p.begin < nSize && p.end <= nSize
    {
      FromRMinMaxToNBins(r - dr, r + dr)
    }

    /** `next_N_bin`: the following coarse bin, an `I` value; the periodic
        axis wraps the last bin around to bin 0, the bounded axes wrap only
        past the largest `I` value. */
    function NextNBin(bin: nat): (next: nat)
      requires Valid() && bin < Pow2(iBits)
      ensures next < Pow2(iBits)
      ensures kind == Pow2Periodic && bin < nSize ==> next < nSize
      ensures kind == Pow2Periodic && bin == nSize - 1 ==> next == 0
      ensures bin + 1 < nSize ==> next == bin + 1
      ensures kind != Pow2Periodic ==> (next == 0 <==> bin + 1 == Pow2(iBits))
      ensures kind != Pow2Periodic && bin + 1 < Pow2(iBits) ==> next == bin + 1
    {
      Pow2Monotone(n, iBits);
      var d := if kind == Pow2Periodic then Pow2(n) else Pow2(iBits);
      ModBelow(bin + 1, d);
      Pow2Monotone(n, iBits);
      if bin + 1 < d then ModOfSmall(bin + 1, d); (bin + 1) % d
      else if bin + 1 == d then ModAddMultiple(0, 1, d); (bin + 1) % d
      else (bin + 1) % d
    }
  }

  /** The unchecked conversion never decreases as the coordinate grows. */
  lemma ScaledMonotone(a: Axis, r1: real, r2: real, size: nat)
    requires a.rMin < a.rMax && a.rMin <= r1 <= r2 && size >= 1
    ensures a.Scaled(r1, size) <= a.Scaled(r2, size)
  {
    var f := a.Factor(size);
    var x1, x2 := r1 - a.rMin, r2 - a.rMin;
    ScaleMonotone(x1, x2, f);
    ScaleMonotone(0.0, x1, f);
    TruncMonotone(x1 * f, x2 * f);
  }

  /** On a bounded axis the safe conversion never decreases as the
      coordinate grows. */
  lemma SafeMonotone(a: Axis, r1: real, r2: real, size: nat, bits: nat)
    requires a.rMin < a.rMax && a.kind != Pow2Periodic && size >= 1 && size <= Pow2(bits)
    requires r1 <= r2
    ensures a.SafeScaled(r1, size, bits) <= a.SafeScaled(r2, size, bits)
  {
    if a.rMin < r1 && r2 < a.rMax {
      ScaledMonotone(a, r1, r2, size);
    }
  }

  /** A bounded query window `[rmin, rmax]` with `rmin <= rmax` yields a
      non-empty range of coarse bins, except when its last bin is the
      largest `I` value and the end wraps to 0. */
  lemma RangeNonEmpty(a: Axis, rmin: real, rmax: real)
    requires a.Valid() && a.kind != Pow2Periodic && rmin <= rmax
    ensures var p := a.FromRMinMaxToNBins(rmin, rmax);
            p.begin < p.end <==> a.FromRToNBinSafe(rmax) + 1 < Pow2(a.iBits)
  {
    var p := a.FromRMinMaxToNBins(rmin, rmax);
    SafeMonotone(a, rmin, rmax, a.nSize, a.n);
    assert p.begin <= a.FromRToNBinSafe(rmax);
  }

  /** The range of a bounded window covers the coarse bin of every
      coordinate in the window (up to the end that wrapped to 0). */
  lemma RangeCovers(a: Axis, rmin: real, rmax: real, r: real)
    requires a.Valid() && a.kind != Pow2Periodic && rmin <= r <= rmax
    ensures var p := a.FromRMinMaxToNBins(rmin, rmax); var b := a.FromRToNBinSafe(r);
            p.begin <= b && (p.end == 0 || b < p.end)
  {
    var p := a.FromRMinMaxToNBins(rmin, rmax);
    SafeMonotone(a, rmin, r, a.nSize, a.n);
    SafeMonotone(a, r, rmax, a.nSize, a.n);
    assert p.begin <= a.FromRToNBinSafe(r) <= a.FromRToNBinSafe(rmax);
  }

  /** On the periodic axis, the range of a window inside one period covers
      the coarse bin of every coordinate in the window (up to the end that
      wrapped to 0). */
  lemma PeriodicRangeCovers(a: Axis, rmin: real, rmax: real, r: real)
    requires a.Valid() && a.kind == Pow2Periodic
    requires a.rMin <= rmin <= r <= rmax < a.rMax
    ensures var p := a.FromRMinMaxToNBins(rmin, rmax); var b := a.FromRToNBinSafe(r);
            p.begin <= b && (p.end == 0 || b < p.end)
  {
    ScaledMonotone(a, rmin, r, a.nSize);
    ScaledMonotone(a, r, rmax, a.nSize);
    var e := a.FromRToNBin(rmax) + 1;
    if e == a.nSize {
      ModAddMultiple(0, 1, a.nSize);
    } else {
      ModOfSmall(e, a.nSize);
    }
  }

  /** On the periodic axis, a window inside one period ends at or before the
      top coarse bin; its end wraps to bin 0 exactly when the window reaches
      the top bin, and otherwise begin < end. */
  lemma PeriodicRangeInDomain(a: Axis, rmin: real, rmax: real)
    requires a.Valid() && a.kind == Pow2Periodic
    requires a.rMin <= rmin <= rmax < a.rMax
    ensures var p := a.FromRMinMaxToNBins(rmin, rmax);
            if a.FromRToNBin(rmax) == a.nSize - 1 then p.end == 0 else p.begin < p.end
  {
    ScaledMonotone(a, rmin, rmax, a.nSize);
    var e := a.FromRToNBin(rmax) + 1;
    if e == a.nSize {
      ModAddMultiple(0, 1, a.nSize);
    } else {
      ModOfSmall(e, a.nSize);
    }
  }

  /** Moving a coordinate by one full extent moves its unchecked bin by
      exactly `size` bins. */
  lemma ScaledShift(a: Axis, r: real, size: nat)
    requires a.Valid() && r >= a.rMin && size >= 1
    ensures a.Scaled(r + (a.rMax - a.rMin), size) == a.Scaled(r, size) + size
  {
    var w, f := a.rMax - a.rMin, a.Factor(size);
    var x := r - a.rMin;
    assert w * f == size as real;
    assert (x + w) * f == x * f + size as real;
    var t, t' := a.Scaled(r, size), a.Scaled(r + w, size);
    assert t as real <= x * f < t as real + 1.0;
    assert t' as real <= x * f + size as real < t' as real + 1.0;
  }

  /** The periodic axis is periodic: the safe conversions give the same
      fine and coarse bins for `r` and `r + (rMax - rMin)`. */
  lemma PeriodicSafeIsPeriodic(a: Axis, r: real)
    requires a.Valid() && a.kind == Pow2Periodic && r >= a.rMin
    ensures a.FromRToMBinSafe(r + (a.rMax - a.rMin)) == a.FromRToMBinSafe(r)
    ensures a.FromRToNBinSafe(r + (a.rMax - a.rMin)) == a.FromRToNBinSafe(r)
  {
    a.SizesFit();
    ScaledShift(a, r, a.mSize);
    ScaledShift(a, r, a.nSize);
    ModAddMultiple(a.Scaled(r, a.mSize), 1, Pow2(a.m));
    ModAddMultiple(a.Scaled(r, a.nSize), 1, Pow2(a.n));
  }

  /** On the periodic axis, a window that wraps around (`rmax` below
      `rmin`, in an earlier coarse bin) yields `end <= begin`: its bins are
      `[begin, N_size)` followed by `[0, end)`, and they hold the coarse bin
      of every coordinate in `[rmin, rMax)` and in `[rMin, rmax]`. */
  lemma PeriodicWrappedCovers(a: Axis, rmin: real, rmax: real, r: real)
    requires a.Valid() && a.kind == Pow2Periodic
    requires a.rMin <= rmax < rmin < a.rMax && a.FromRToNBin(rmax) < a.FromRToNBin(rmin)
    requires rmin <= r < a.rMax || a.rMin <= r <= rmax
    ensures var p := a.FromRMinMaxToNBins(rmin, rmax); var b := a.FromRToNBinSafe(r);
            p.end <= p.begin && (p.begin <= b || b < p.end)
  {
    ModOfSmall(a.FromRToNBin(rmax) + 1, Pow2(a.n));
    if rmin <= r {
      ScaledMonotone(a, rmin, r, a.nSize);
    } else {
      ScaledMonotone(a, r, rmax, a.nSize);
    }
  }

  /** Moving the end of a periodic window by one period leaves its range
      unchanged. */
  lemma PeriodicEndShift(a: Axis, rmin: real, rmax: real)
    requires a.Valid() && a.kind == Pow2Periodic && rmin >= a.rMin && rmax >= a.rMin
    ensures a.FromRMinMaxToNBins(rmin, rmax + (a.rMax - a.rMin)) == a.FromRMinMaxToNBins(rmin, rmax)
  {
    PeriodicSafeIsPeriodic(a, rmax);
  }

  /** A window whose end runs past the top of the period, as
      `from_R_rdr_to_N_bins` gives near the top, wraps the same way: the
      range holds the coarse bin of every coordinate of `[rmin, rmax]`. */
  lemma PeriodicWrappedCoversBeyond(a: Axis, rmin: real, rmax: real, r: real)
    requires a.Valid() && a.kind == Pow2Periodic
    requires a.rMin <= rmin < a.rMax <= rmax && rmax - (a.rMax - a.rMin) < rmin
    requires a.FromRToNBin(rmax - (a.rMax - a.rMin)) < a.FromRToNBin(rmin)
    requires rmin <= r <= rmax
    ensures var p := a.FromRMinMaxToNBins(rmin, rmax); var b := a.FromRToNBinSafe(r);
            p.end <= p.begin && (p.begin <= b || b < p.end)
  {
    var w := a.rMax - a.rMin;
    PeriodicEndShift(a, rmin, rmax - w);
    if r < a.rMax {
      PeriodicWrappedCovers(a, rmin, rmax - w, r);
    } else {
      PeriodicSafeIsPeriodic(a, r - w);
      PeriodicWrappedCovers(a, rmin, rmax - w, r - w);
    }
  }

  /** A periodic window that wraps around but ends in the coarse bin it
      starts in spans nearly the whole period, yet its range is the one bin
      `begin`: the end is the bin after it, and not `end <= begin`. */
  lemma PeriodicWrapSameBin(a: Axis, rmin: real, rmax: real)
    requires a.Valid() && a.kind == Pow2Periodic
    requires a.rMin <= rmax < rmin < a.rMax && a.FromRToNBin(rmax) == a.FromRToNBin(rmin)
    ensures var p := a.FromRMinMaxToNBins(rmin, rmax);
            p.end == a.NextNBin(p.begin) && (p.begin < p.end || (p.begin == a.nSize - 1 && p.end == 0))
  {
  }

  lemma TruncScaledLower(y: real, q: nat)
    requires y >= 0.0 && q >= 1
    ensures y * q as real >= 0.0 && Trunc(y) * q <= Trunc(y * q as real)
  {
    var c, qr := Trunc(y), q as real;
    ScaleMonotone(0.0, y, qr);
    ScaleMonotone(c as real, y, qr);
    assert (c * q) as real == c as real * qr;
  }

  lemma TruncScaledUpper(y: real, q: nat)
    requires y >= 0.0 && q >= 1
    ensures y * q as real >= 0.0 && Trunc(y * q as real) < (Trunc(y) + 1) * q
  {
    var c := Trunc(y);
    ScaleMonotone(0.0, y, q as real);
    StrictScaleCast(y, c + 1, q);
    TruncBelow(y * q as real, (c + 1) * q);
  }

  /** A real below the integer `n`, scaled by `q`, is below `n * q`. */
  lemma StrictScaleCast(y: real, n: int, q: int)
    requires y < n as real && q > 0
    ensures y * q as real < (n * q) as real
  {
    var d := n as real - y;
    assert d * q as real > 0.0;
    assert (n * q) as real == n as real * q as real;
    assert (n * q) as real - y * q as real == d * q as real;
  }

  /** A non-negative real below an integer truncates below it. */
  lemma TruncBelow(z: real, k: int)
    requires 0.0 <= z < k as real
    ensures Trunc(z) < k
  {
  }

  /** Truncating a real scaled by an integer `q` and then dividing by `q`
      truncates the real itself. */
  lemma TruncScaledDiv(y: real, q: nat)
    requires y >= 0.0 && q >= 1
    ensures y * q as real >= 0.0 && Trunc(y * q as real) / q == Trunc(y)
  {
    TruncScaledLower(y, q);
    TruncScaledUpper(y, q);
    var c, f := Trunc(y), Trunc(y * q as real);
    DivModUnique(f, q, c, f - c * q);
  }

  lemma FactorOfMultiple(a: Axis, x: real, size: nat, q: nat)
    requires a.rMin < a.rMax
    ensures x * a.Factor(size * q) == (x * a.Factor(size)) * q as real
  {
    assert (size * q) as real == size as real * q as real;
    assert a.Factor(size * q) == a.Factor(size) * q as real;
  }

  /** Converting at resolution `size * q` and dividing by `q` is converting
      at resolution `size`. */
  lemma ScaledDivExact(a: Axis, r: real, size: nat, q: nat)
    requires a.rMin < a.rMax && r >= a.rMin && size >= 1 && q >= 1
    ensures size * q >= 1 && a.Scaled(r, size * q) / q == a.Scaled(r, size)
  {
    MulMonotone(size, 1, q);
    var big := size * q;
    var x := r - a.rMin;
    var y := x * a.Factor(size);
    ScaleMonotone(0.0, x, a.Factor(size));
    assert a.Scaled(r, size) == Trunc(y);
    assert a.Scaled(r, big) == Trunc(x * a.Factor(big));
    FactorOfMultiple(a, x, size, q);
    assert x * a.Factor(big) == y * q as real;
    TruncScaledDiv(y, q);
  }

  /** Fine-to-coarse by shifting agrees with converting the coordinate
      directly at the coarse resolution. */
  lemma FineToCoarseExact(a: Axis, r: real)
    requires a.Valid() && r >= a.rMin
    ensures a.FromMBinToNBin(a.FromRToMBin(r)) == a.FromRToNBin(r)
  {
    ShlMul(a.nSize, a.m - a.n);
    ShiftRightDiv(a.FromRToMBin(r), a.m - a.n);
    ScaledDivExact(a, r, a.nSize, Pow2(a.m - a.n));
  }

  /** The same agreement for the safe conversions of every axis kind:
      clamped or wrapped fine bins shift to the clamped or wrapped coarse bin. */
  lemma SafeFineToCoarseExact(a: Axis, r: real)
    requires a.Valid() && (a.kind == Pow2Periodic ==> r >= a.rMin)
    ensures a.FromMBinToNBin(a.FromRToMBinSafe(r)) == a.FromRToNBinSafe(r)
  {
    a.SizesFit();
    ShiftRightDiv(a.FromRToMBinSafe(r), a.m - a.n);
    if a.kind == Pow2Periodic {
      FineToCoarseExact(a, r);
      ShiftRightDiv(a.FromRToMBin(r), a.m - a.n);
      MaskThenShift(a.FromRToMBin(r), a.m - a.n, a.n);
    } else if r <= a.rMin {
      ModOfSmall(0, Pow2(a.m - a.n));
    } else if r >= a.rMax {
      ShrTop(a.nSize, a.m - a.n);
    } else {
      FineToCoarseExact(a, r);
    }
  }

  /** `axis(min, max, n_bins)`: `n_bins` coarse bins, `n_bins << (M - N)`
      fine bins; the construction fails when `n_bins > 1 << N`.  With no
      bins the source builds an axis without a single bin (`m_last_*_bin`
      is `I(-1)`), which the model reports as `NoBins`. */
  function NewAxis(rMin: real, rMax: real, nBins: nat, m: nat, n: nat, iBits: nat): (r: Result<Axis>)
    requires rMin < rMax && n <= m <= 30 && m <= iBits
    ensures r.Success? <==> 1 <= nBins <= Pow2(n)
    ensures r.Success? ==> r.value.Valid() && r.value.kind == Linear && r.value.iBits == iBits
    ensures r.Success? ==> r.value.nSize == nBins && r.value.mSize == nBins * Pow2(m - n)
    ensures r.Failure? && nBins == 0 ==> r.error == NoBins
    ensures r.Failure? && nBins != 0 ==> r.error == TooManyBins(nBins, Pow2(n))
  {
    ShlMul(nBins, m - n);
    if nBins == 0 then Failure(NoBins)
    else if nBins <= Pow2(n) then Success(Axis(Linear, rMin, rMax, m, n, iBits, Shl(nBins, m - n), nBins))
    else Failure(TooManyBins(nBins, Pow2(n)))
  }

  /** `axis_pow2(min, max)` (periodic == false) and `axis_pow2_u1(min, max)`
      (periodic == true): `1 << M` fine and `1 << N` coarse bins. */
  function NewAxisPow2(rMin: real, rMax: real, m: nat, n: nat, iBits: nat, periodic: bool): (a: Axis)
    requires rMin < rMax && n <= m <= 30 && m <= iBits
    ensures a.Valid() && a.iBits == iBits
    ensures a.mSize == Pow2(m) && a.nSize == Pow2(n)
    ensures a.kind == (if periodic then Pow2Periodic else Pow2Bounded)
  {
    ShlPow2(n, m - n);
    Axis(if periodic then Pow2Periodic else Pow2Bounded, rMin, rMax, m, n, iBits, Pow2(m), Pow2(n))
  }
}
