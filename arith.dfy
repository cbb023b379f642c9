/** Integer facts behind the shifts and masks used by the binning code:
    `x >> k` is `x / Pow2(k)` and `x & ((1 << k) - 1)` is `x % Pow2(k)` for
    non-negative `x`. */
module BitArith {

  /** 2^k, the value of `1 << k`. */
  function Pow2(k: nat): (r: nat)
    ensures r >= 1
  {
    if k == 0 then 1 else 2 * Pow2(k - 1)
  }

  /** `x << k`, doubling `x` `k` times. */
  function Shl(x: nat, k: nat): (r: nat)
    ensures r >= x
  {
    if k == 0 then x else 2 * Shl(x, k - 1)
  }

  lemma {:induction false} ShlMul(x: nat, k: nat)
    ensures Shl(x, k) == x * Pow2(k)
  {
    if k > 0 {
      ShlMul(x, k - 1);
      assert x * Pow2(k) == 2 * (x * Pow2(k - 1));
    }
  }

  lemma {:induction false} ShlMonotone(x: nat, y: nat, k: nat)
    requires x <= y
    ensures Shl(x, k) <= Shl(y, k)
  {
    if k > 0 {
      ShlMonotone(x, y, k - 1);
    }
  }

  lemma {:induction false} ShlPow2(n: nat, k: nat)
    ensures Shl(Pow2(n), k) == Pow2(n + k)
  {
    if k > 0 {
      ShlPow2(n, k - 1);
      assert Pow2(n + k) == 2 * Pow2(n + k - 1);
    }
  }

  /** A value below `x << k` shifts right by `k` to below `x`. */
  lemma ShrBelow(b: nat, x: nat, k: nat)
    requires b < Shl(x, k)
    ensures b / Pow2(k) < x
  {
    ShlMul(x, k);
    DivBelow(b, Pow2(k), x);
  }

  /** The last value below `x << k` shifts right by `k` to `x - 1`. */
  lemma ShrTop(x: nat, k: nat)
    requires x >= 1
    ensures Shl(x, k) >= 1 && (Shl(x, k) - 1) / Pow2(k) == x - 1
  {
    ShlMul(x, k);
    var q := Pow2(k);
    assert x * q - 1 == (x - 1) * q + (q - 1);
    DivModUnique(x * q - 1, q, x - 1, q - 1);
  }

  /** Masking to `n + k` bits and then shifting right by `k` is shifting
      right by `k` and then masking to `n` bits. */
  lemma MaskThenShift(x: nat, k: nat, n: nat)
    ensures (x % Pow2(k + n)) / Pow2(k) == (x / Pow2(k)) % Pow2(n)
  {
    Pow2Add(n, k);
    assert k + n == n + k;
    ModThenDiv(x, Pow2(k), Pow2(n));
  }

  /** `x >> k` for an unsigned `x`: `k` halvings. */
  function ShiftRight(x: nat, k: nat): (r: nat)
    ensures r <= x
  {
    if k == 0 then x else ShiftRight(x / 2, k - 1)
  }

  lemma {:induction false} ShiftRightDiv(x: nat, k: nat)
    ensures ShiftRight(x, k) == x / Pow2(k)
  {
    if k > 0 {
      ShiftRightDiv(x / 2, k - 1);
      DivDiv(x, 2, Pow2(k - 1));
    }
  }

  lemma {:induction false} ShiftRightMonotone(x: nat, y: nat, k: nat)
    requires x <= y
    ensures ShiftRight(x, k) <= ShiftRight(y, k)
  {
    if k > 0 {
      ShiftRightMonotone(x / 2, y / 2, k - 1);
    }
  }

  /** `x & ((1 << k) - 1)` for an unsigned `x`. */
  function LowBits(x: nat, k: nat): (r: nat)
    ensures r < Pow2(k)
  {
    x % Pow2(k)
  }

  /** `1 << 32`: one more than the largest 32-bit unsigned value. */
  const U32: nat := 0x1_0000_0000

  lemma {:induction false} Pow2Add(a: nat, b: nat)
    ensures Pow2(a + b) == Pow2(a) * Pow2(b)
  {
    if a > 0 {
      Pow2Add(a - 1, b);
      assert Pow2(a + b) == 2 * Pow2(a - 1 + b);
    }
  }

  lemma Pow2Monotone(a: nat, b: nat)
    requires a <= b
    ensures Pow2(a) <= Pow2(b)
  {
    Pow2Add(a, b - a);
    MulMonotone(Pow2(a), 1, Pow2(b - a));
  }

  lemma Pow2Of32()
    ensures Pow2(32) == U32
  {
    Pow2Add(16, 16);
    Pow2Add(8, 8);
    Pow2Add(4, 4);
    Pow2Add(2, 2);
    assert Pow2(2) == 4;
  }

  lemma MulMonotone(x: nat, a: nat, b: nat)
    requires a <= b
    ensures x * a <= x * b
  {
    assert x * b == x * a + x * (b - a);
  }

  /** Division and remainder are determined by any decomposition
      `x == q * d + r` with `0 <= r < d`. */
  lemma DivModUnique(x: int, d: int, q: int, r: int)
    requires d > 0 && 0 <= r < d && x == q * d + r
    ensures x / d == q && x % d == r
  {
    var q', r' := x / d, x % d;
    assert x == q' * d + r';
    assert (q - q') * d == r' - r;
    if q > q' {
      MulMonotone(d, 1, q - q');
      assert false;
    } else if q < q' {
      MulMonotone(d, 1, q' - q);
      assert false;
    }
  }

  lemma DivMonotone(x: int, y: int, d: int)
    requires 0 <= x <= y && d > 0
    ensures x / d <= y / d
  {
    var qx, qy := x / d, y / d;
    assert qx * d + x % d == x;
    assert qy * d + y % d == y;
    if qx > qy {
      MulMonotone(d, qy + 1, qx);
      assert false;
    }
  }

  /** Taking the low `k*q` part and then dividing by `q` is the same as
      dividing first and then keeping the low `k` part. */
  lemma ModThenDiv(x: nat, q: nat, k: nat)
    requires q > 0 && k > 0
    ensures (x % (k * q)) / q == (x / q) % k
  {
    var a, b := x / (k * q), x % (k * q);
    var c, e := b / q, b % q;
    assert b == c * q + e;
    if c >= k {
      MulMonotone(q, k, c);
      assert false;
    }
    assert x == (a * k + c) * q + e;
    DivModUnique(x, q, a * k + c, e);
    DivModUnique(a * k + c, k, a, c);
  }

  /** Dividing by `a` then by `b` is dividing by `a * b`. */
  lemma DivDiv(x: nat, a: nat, b: nat)
    requires a > 0 && b > 0
    ensures x / a / b == x / (a * b)
  {
    var q1 := x / a;
    var q2 := q1 / b;
    assert x == q1 * a + x % a;
    assert q1 == q2 * b + q1 % b;
    assert x == q2 * (a * b) + ((q1 % b) * a + x % a);
    MulMonotone(a, q1 % b, b - 1);
    DivModUnique(x, a * b, q2, (q1 % b) * a + x % a);
  }

  /** Quotient and remainder put back together. */
  lemma DivModParts(x: nat, d: nat)
    requires d > 0
    ensures x == (x / d) * d + x % d && x % d < d
  {
  }

  /** `lo + k * hi` with `lo < k` orders lexicographically by `hi`, then `lo`. */
  lemma LexOrder(k: nat, lo1: nat, hi1: nat, lo2: nat, hi2: nat)
    requires lo1 < k && lo2 < k
    ensures lo1 + k * hi1 <= lo2 + k * hi2 <==> hi1 < hi2 || (hi1 == hi2 && lo1 <= lo2)
  {
    if hi1 < hi2 {
      MulMonotone(k, hi1 + 1, hi2);
    } else if hi1 > hi2 {
      MulMonotone(k, hi2 + 1, hi1);
    }
  }

  /** A row-major position inside a `w`-wide, `h`-high table is below
      `w * h`. */
  lemma RowMajorBelow(row: nat, col: nat, w: nat, h: nat)
    requires col < w && row < h
    ensures row * w + col < w * h
  {
    MulMonotone(w, row + 1, h);
    assert w * (row + 1) == w * row + w;
  }

  /** A row-major position determines its row and column. */
  lemma RowMajorUnique(row1: nat, col1: nat, row2: nat, col2: nat, w: nat)
    requires col1 < w && col2 < w && row1 * w + col1 == row2 * w + col2
    ensures row1 == row2 && col1 == col2
  {
    DivModUnique(row1 * w + col1, w, row1, col1);
    DivModUnique(row2 * w + col2, w, row2, col2);
  }

  lemma ModOfSmall(x: nat, d: nat)
    requires x < d
    ensures x % d == x && x / d == 0
  {
    DivModUnique(x, d, 0, x);
  }

  lemma ModBelow(x: nat, d: nat)
    requires d > 0
    ensures x % d < d
  {
  }

  /** A value below `k * q` has quotient below `k`. */
  lemma DivBelow(x: nat, q: nat, k: nat)
    requires q > 0 && x < k * q
    ensures x / q < k
  {
    assert x == (x / q) * q + x % q;
    if x / q >= k {
      MulMonotone(q, k, x / q);
      assert false;
    }
  }

  /** Adding a multiple of `d` does not change the remainder. */
  /** Taking the successor commutes with reducing modulo `d`. */
  lemma ModSucc(x: nat, d: nat)
    requires d > 0
    ensures (x + 1) % d == (x % d + 1) % d
  {
    DivModParts(x, d);
    ModAddMultiple(x % d + 1, x / d, d);
  }

  lemma ModAddMultiple(x: nat, k: nat, d: nat)
    requires d > 0
    ensures (x + k * d) % d == x % d
  {
    DivModUnique(x + k * d, d, x / d + k, x % d);
  }
}
