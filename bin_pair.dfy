/** The packed index pairs of the two-axis bin table: a `B_pair` holds a
    fine (or coarse) bin of the first axis in its low `m1` bits and the bin
    of the second axis above them; a `C_pair` holds the start and length
    of one bin's run in the rank table. */
module BinPairs {
  import opened BitArith

  /** A 32-bit unsigned word. */
  type Word = x: nat | x < 0x1_0000_0000

  /** `B_pair`: `packed_value`, an `unsigned int`. */
  datatype BPair = BPair(packed: Word)

  /** `B_pair(i1, i2)`: `i2 << m1 | i1` in the 32-bit word, so only the low
      `32 - m1` bits of `i2` survive the shift.  With `i1 < 1 << m1` the OR
      adds the two parts; the model requires that. */
  function Pack(m1: nat, i1: nat, i2: nat): (p: BPair)
    requires m1 <= 32 && i1 < Pow2(m1)
    ensures Bin1(m1, p) == i1 && Bin2(m1, p) == LowBits(i2, 32 - m1)
    ensures i2 < Pow2(32 - m1) ==> Bin2(m1, p) == i2
  {
    PackWord(m1, i1, i2);
    var p := BPair((i2 % Pow2(32 - m1)) * Pow2(m1) + i1);
    ShiftRightDiv(p.packed, m1);
    p
  }

  /** The word `Pack` builds fits in 32 bits and splits back into its
      parts. */
  lemma PackWord(m1: nat, i1: nat, i2: nat)
    requires m1 <= 32 && i1 < Pow2(m1)
    ensures (i2 % Pow2(32 - m1)) * Pow2(m1) + i1 < U32
    ensures ((i2 % Pow2(32 - m1)) * Pow2(m1) + i1) / Pow2(m1) == i2 % Pow2(32 - m1)
    ensures ((i2 % Pow2(32 - m1)) * Pow2(m1) + i1) % Pow2(m1) == i1
    ensures i2 < Pow2(32 - m1) ==> i2 % Pow2(32 - m1) == i2
  {
    var w, d := Pow2(32 - m1), Pow2(m1);
    var hi := i2 % w;
    Pow2Add(32 - m1, m1);
    Pow2Of32();
    ModBelow(i2, w);
    SplitWord(hi, i1, d, w);
    if i2 < w {
      ModOfSmall(i2, w);
    }
  }

  lemma SplitWord(hi: nat, lo: nat, d: nat, w: nat)
    requires hi < w && lo < d
    ensures hi * d + lo < d * w
    ensures (hi * d + lo) / d == hi && (hi * d + lo) % d == lo
  {
    RowMajorBelow(hi, lo, d, w);
    DivModUnique(hi * d + lo, d, hi, lo);
  }

  /** `bin1()`: the low `m1` bits. */
  function Bin1(m1: nat, p: BPair): (i1: nat)
    ensures i1 < Pow2(m1)
  {
    LowBits(p.packed, m1)
  }

  /** `bin2()`: the bits above the low `m1`. */
  function Bin2(m1: nat, p: BPair): (i2: nat)
  {
    ShiftRight(p.packed, m1)
  }

  /** The word has `32 - m1` bits above the low `m1`. */
  lemma Bin2Below(m1: nat, p: BPair)
    requires m1 <= 32
    ensures Bin2(m1, p) < Pow2(32 - m1)
  {
    ShiftRightDiv(p.packed, m1);
    Pow2Add(32 - m1, m1);
    Pow2Of32();
    DivBelow(p.packed, Pow2(m1), Pow2(32 - m1));
  }

  /** A packed word is its second index above its first. */
  lemma Halves(m1: nat, p: BPair)
    ensures p.packed == Bin2(m1, p) * Pow2(m1) + Bin1(m1, p)
  {
    DivModParts(p.packed, Pow2(m1));
    ShiftRightDiv(p.packed, m1);
  }

  /** Every packed word is the pair of its two halves. */
  lemma PackUnpack(m1: nat, p: BPair)
    requires m1 <= 32
    ensures Pack(m1, Bin1(m1, p), Bin2(m1, p)) == p
  {
    Bin2Below(m1, p);
    Halves(m1, p);
    Halves(m1, Pack(m1, Bin1(m1, p), Bin2(m1, p)));
  }

  /** Two indices of at most `m1` and `m2` bits pack into `m1 + m2` bits,
      and with `m1 + m2 <= 32` the shift loses no bit of the second. */
  lemma PackFits(m1: nat, m2: nat, i1: nat, i2: nat)
    requires m1 <= 32 && i1 < Pow2(m1) && i2 < Pow2(m2)
    ensures Pack(m1, i1, i2).packed < Pow2(m1 + m2)
    ensures m1 + m2 <= 32 ==> Bin2(m1, Pack(m1, i1, i2)) == i2
  {
    var p := Pack(m1, i1, i2);
    var hi := Bin2(m1, p);
    Halves(m1, p);
    DivModParts(i2, Pow2(32 - m1));
    assert hi <= i2;
    Pow2Add(m1, m2);
    RowMajorBelow(hi, Bin1(m1, p), Pow2(m1), Pow2(m2));
    if m1 + m2 <= 32 {
      Pow2Monotone(m2, 32 - m1);
    }
  }

  /** `mask_A2_M_bins()`: the packed word with the `s2` low bits of the
      second index cleared (`c_A2_Mout_mask`).  This is the sort key of the
      rank table. */
  function SortKey(m1: nat, s2: nat, p: BPair): (k: nat)
    ensures k <= p.packed
  {
    var p1, q := Pow2(m1), Pow2(s2);
    Halves(m1, p);
    MulMonotone(p1, Bin2(m1, p) % q, Bin2(m1, p));
    p.packed - (Bin2(m1, p) % q) * p1
  }

  lemma KeyAlgebra(x: int, b1: int, b2: int, hi: int, lo: int, p1: int, q: int)
    requires x == b2 * p1 + b1 && b2 == hi * q + lo
    ensures x - lo * p1 == b1 + (p1 * q) * hi
  {
    assert b2 * p1 == hi * q * p1 + lo * p1;
  }

  /** The coarse second index: `bin2 >> s2`. */
  function Coarse2(m1: nat, s2: nat, p: BPair): nat
  {
    ShiftRight(Bin2(m1, p), s2)
  }

  /** The coarse first index: `bin1 >> s1`. */
  function Coarse1(m1: nat, s1: nat, p: BPair): nat
  {
    ShiftRight(Bin1(m1, p), s1)
  }

  /** Clearing those bits leaves the fine first index under the coarse
      second index shifted above `m1 + s2` bits. */
  lemma SortKeyParts(m1: nat, s2: nat, p: BPair)
    ensures SortKey(m1, s2, p) == Bin1(m1, p) + Pow2(m1 + s2) * Coarse2(m1, s2, p)
  {
    var p1, q := Pow2(m1), Pow2(s2);
    var b1, b2 := Bin1(m1, p), Bin2(m1, p);
    Halves(m1, p);
    DivModParts(b2, q);
    ShiftRightDiv(b2, s2);
    Pow2Add(m1, s2);
    KeyAlgebra(p.packed, b1, b2, b2 / q, b2 % q, p1, q);
  }

  /** The sort key orders pairs by coarse second index first and by fine
      first index second. */
  lemma SortKeyOrder(m1: nat, s2: nat, p: BPair, q: BPair)
    ensures SortKey(m1, s2, p) <= SortKey(m1, s2, q) <==>
      Coarse2(m1, s2, p) < Coarse2(m1, s2, q) ||
      (Coarse2(m1, s2, p) == Coarse2(m1, s2, q) && Bin1(m1, p) <= Bin1(m1, q))
  {
    SortKeyParts(m1, s2, p);
    SortKeyParts(m1, s2, q);
    Pow2Monotone(m1, m1 + s2);
    LexOrder(Pow2(m1 + s2), Bin1(m1, p), Coarse2(m1, s2, p), Bin1(m1, q), Coarse2(m1, s2, q));
  }

  /** Pairs whose sort keys lie between those of two pairs in the same
      coarse bin are in that coarse bin too: sorting by the key keeps every
      coarse bin contiguous. */
  lemma SortKeyGroupsCoarse(m1: nat, s1: nat, s2: nat, p: BPair, q: BPair, r: BPair)
    requires SortKey(m1, s2, p) <= SortKey(m1, s2, q) <= SortKey(m1, s2, r)
    requires Coarse1(m1, s1, p) == Coarse1(m1, s1, r) && Coarse2(m1, s2, p) == Coarse2(m1, s2, r)
    ensures Coarse1(m1, s1, q) == Coarse1(m1, s1, p) && Coarse2(m1, s2, q) == Coarse2(m1, s2, p)
  {
    SortKeyOrder(m1, s2, p, q);
    SortKeyOrder(m1, s2, q, r);
    ShiftRightMonotone(Bin1(m1, p), Bin1(m1, q), s1);
    ShiftRightMonotone(Bin1(m1, q), Bin1(m1, r), s1);
  }

  /** `C_pair`: the first rank and the number of ranks of one coarse bin,
      kept in bit-fields of `NB_first` and `NB_count` bits. */
  datatype CPair = CPair(first: nat, count: nat)
  {
    /** `end()`: one past the last rank of the bin, computed in the
        content type `C` of `cBits` bits, so the sum wraps. */
    function End(cBits: nat): (e: nat)
      ensures e < Pow2(cBits)
      ensures first + count < Pow2(cBits) ==> e == first + count
    {
      ModBelow(first + count, Pow2(cBits));
      if first + count < Pow2(cBits) then ModOfSmall(first + count, Pow2(cBits)); (first + count) % Pow2(cBits)
      else (first + count) % Pow2(cBits)
    }
  }
}
