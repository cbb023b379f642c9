/** The layer-1 truncation of the HGCal trigger back-end emulator: trigger
    cells are grouped by a packed (r/z bin, phi bin) key, each group is fed
    to a sorter sized to a multiple of four, and the sorter's output
    addresses select either a cell of the group or a dummy cell. */
module Layer1Truncation {
  import opened BitArith
  import opened Permutations

  /** A trigger cell as the truncation reads and writes it. */
  datatype TriggerCell = TriggerCell(
    frameValid: bool,
    dataValid: bool,
    rOverZ: nat,
    phi: int,
    layer: nat,
    energy: nat,
    index: nat,
    cmsswIndex: (nat, nat))

  /** `doTruncate()` and `maxTcsPerBin()` of the configuration. */
  datatype Config = Config(doTruncate: bool, maxTcsPerBin: seq<nat>)

  /** An (r/z bin, phi bin) pair, the out-parameters of `unpackBin`. */
  datatype BinCoords = BinCoords(roz: nat, phi: nat)

  /** The dummy cell's module index, the firmware's marker. */
  const DummyIndex: nat := 255

  /** The dummy cell's CMSSW index: the largest `unsigned` and 63. */
  const DummyCmsswIndex: (nat, nat) := (U32 - 1, 63)

  /** The cell standing in for an output address past the end of a group:
      no valid flags, zero energy, the group's bin. */
  function DummyCell(bin: BinCoords): TriggerCell
  {
    TriggerCell(false, false, bin.roz, bin.phi, 0, 0, DummyIndex, DummyCmsswIndex)
  }

  /** `packBin`: the low six bits of the r/z bin shifted up by one, with
      the low bit of the phi bin below them.  The two fields do not
      overlap, so the OR is a sum. */
  function PackBin(roz: nat, phi: nat): nat
  {
    (roz % 64) * 2 + phi % 2
  }

  /** `unpackBin`: bits 1 to 6 and bit 0 of the key. */
  function UnpackBin(key: nat): (bin: BinCoords)
    ensures bin.roz < 64 && bin.phi < 2
  {
    BinCoords((key / 2) % 64, key % 2)
  }

  /** A key is below 128 and unpacks to the low six bits of the r/z bin
      and the low bit of the phi bin. */
  lemma PackBinRoundTrip(roz: nat, phi: nat)
    ensures PackBin(roz, phi) < 128
    ensures UnpackBin(PackBin(roz, phi)) == BinCoords(roz % 64, phi % 2)
  {
    var key := PackBin(roz, phi);
    DivModUnique(key, 2, roz % 64, phi % 2);
    ModOfSmall(roz % 64, 64);
  }

  /** Every seven-bit key is the packing of its own unpacking. */
  lemma PackUnpack(key: nat)
    requires key < 128
    ensures PackBin(UnpackBin(key).roz, UnpackBin(key).phi) == key
  {
    var bin := UnpackBin(key);
    DivModUnique(key / 2, 64, 0, key / 2);
  }

  /** Keys of in-range bins are distinct exactly when the bins are. */
  lemma PackInjective(r1: nat, p1: nat, r2: nat, p2: nat)
    requires r1 < 64 && p1 < 2 && r2 < 64 && p2 < 2
    ensures PackBin(r1, p1) == PackBin(r2, p2) <==> r1 == r2 && p1 == p2
  {
    PackBinRoundTrip(r1, p1);
    PackBinRoundTrip(r2, p2);
    if PackBin(r1, p1) == PackBin(r2, p2) {
      assert UnpackBin(PackBin(r1, p1)) == UnpackBin(PackBin(r2, p2));
    }
  }

  /** `smallerMultOfFourGreaterThan` on a 32-bit `unsigned`: `N + 4` and
      `N + 4 - remnant` wrap around modulo 2^32. */
  function SmallerMultOfFourGreaterThan(n: nat): nat
  {
    var remnant := ((n + 4) % U32) % 4;
    if remnant == 0 then n else (n + 4 - remnant) % U32
  }

  /** The result is a 32-bit multiple of four; it is `n` itself when `n`
      is a multiple of four, and otherwise the next multiple of four, which
      wraps around to 0 for the three largest `unsigned` values. */
  lemma SmallerMultOfFourBounds(n: nat)
    requires n < U32
    ensures var r := SmallerMultOfFourGreaterThan(n);
      && r < U32 && r % 4 == 0
      && (n % 4 == 0 ==> r == n)
      && (n <= U32 - 4 ==> n <= r < n + 4)
      && (U32 - 4 < n && n % 4 != 0 ==> r == 0)
  {
  }

  /** `phiBin`: -1 for an r/z bin without a phi edge, otherwise 1 above
      the edge and 0 at or below it. */
  function PhiBin(roz: nat, phi: real, phiEdges: seq<real>): (b: int)
    ensures b == -1 <==> roz >= |phiEdges|
    ensures roz < |phiEdges| ==> (b == 1 <==> phi > phiEdges[roz]) && (b == 0 <==> phi <= phiEdges[roz])
  {
    if roz >= |phiEdges| then -1
    else if phi > phiEdges[roz] then 1
    else 0
  }

  /** A larger phi never falls in a lower phi bin. */
  lemma PhiBinMonotone(roz: nat, phi1: real, phi2: real, phiEdges: seq<real>)
    requires phi1 <= phi2
    ensures PhiBin(roz, phi1, phiEdges) <= PhiBin(roz, phi2, phiEdges)
  {
  }

  /** `std::clamp(v, lo, hi)` for `lo <= hi`. */
  function Clamp(v: real, lo: real, hi: real): (c: real)
    requires lo <= hi
    ensures lo <= c <= hi
    ensures lo <= v <= hi ==> c == v
  {
    if v < lo then lo else if hi < v then hi else v
  }

  /** The width of one r/z bin: the range widened by the 1.001 margin and
      split into `rozBins` parts, or 0 when there are no bins. */
  function RozBinSize(rozMin: real, rozMax: real, rozBins: nat): real
  {
    if rozBins > 0 then (rozMax - rozMin) * (1001.0 / 1000.0) / rozBins as real else 0.0
  }

  /** `rozBin`: the r/z offset from `rozMin`, clamped to the range, divided
      by the bin width and truncated; 0 when the width is not positive. */
  function RozBin(rOverZ: real, rozMin: real, rozMax: real, rozBins: nat): (b: nat)
    ensures RozBinSize(rozMin, rozMax, rozBins) <= 0.0 ==> b == 0
    ensures rOverZ <= rozMin ==> b == 0
    ensures rozBins > 0 ==> b < rozBins
  {
    var size := RozBinSize(rozMin, rozMax, rozBins);
    if size > 0.0 then
      RangePositive(rozMin, rozMax, rozBins);
      var x := Clamp(rOverZ - rozMin, 0.0, rozMax - rozMin);
      QuotientBelow(x, rozMax - rozMin, rozBins);
      (x / size).Floor
    else 0
  }

  /** A positive bin width comes from a non-empty range. */
  lemma RangePositive(rozMin: real, rozMax: real, rozBins: nat)
    requires RozBinSize(rozMin, rozMax, rozBins) > 0.0
    ensures rozBins > 0 && rozMax - rozMin > 0.0
  {
  }

  /** Thanks to the margin, an offset inside the range divides to below
      the number of bins. */
  lemma QuotientBelow(x: real, w: real, n: nat)
    requires n > 0 && w > 0.0 && 0.0 <= x <= w
    ensures x / (w * (1001.0 / 1000.0) / n as real) < n as real
    ensures 0.0 <= x / (w * (1001.0 / 1000.0) / n as real)
  {
    var size := w * (1001.0 / 1000.0) / n as real;
    assert size * n as real == w * (1001.0 / 1000.0);
    assert size > 0.0;
    assert x < size * n as real;
    DivBelowReal(x, size, n as real);
  }

  lemma DivBelowReal(x: real, d: real, k: real)
    requires d > 0.0 && 0.0 <= x < d * k
    ensures 0.0 <= x / d < k
  {
    assert x / d * d == x;
  }

  /** A larger r/z never falls in a lower r/z bin. */
  lemma RozBinMonotone(r1: real, r2: real, rozMin: real, rozMax: real, rozBins: nat)
    requires r1 <= r2
    ensures RozBin(r1, rozMin, rozMax, rozBins) <= RozBin(r2, rozMin, rozMax, rozBins)
  {
    var size := RozBinSize(rozMin, rozMax, rozBins);
    if size > 0.0 {
      RangePositive(rozMin, rozMax, rozBins);
      var x1 := Clamp(r1 - rozMin, 0.0, rozMax - rozMin);
      var x2 := Clamp(r2 - rozMin, 0.0, rozMax - rozMin);
      assert x1 <= x2;
      assert x1 / size <= x2 / size by {
        assert x1 / size * size == x1;
        assert x2 / size * size == x2;
      }
    }
  }

  /** No cell among the first `n` of `tcs` has a negative phi bin. */
  predicate PhisNonNegative(tcs: seq<TriggerCell>, n: nat)
  {
    n <= |tcs| && forall k :: 0 <= k < n ==> tcs[k].phi >= 0
  }

  /** The packed bin of a cell. */
  function KeyOf(c: TriggerCell): nat
    requires c.phi >= 0
  {
    PackBin(c.rOverZ, c.phi as nat)
  }

  /** The cells among the first `n` of `tcs` whose packed bin is `key`,
      in input order. */
  function Members(tcs: seq<TriggerCell>, n: nat, key: nat): seq<TriggerCell>
    requires PhisNonNegative(tcs, n)
  {
    if n == 0 then []
    else Members(tcs, n - 1, key) + (if KeyOf(tcs[n - 1]) == key then [tcs[n - 1]] else [])
  }

  /** The packed bins of the first `n` cells of `tcs`. */
  function KeySet(tcs: seq<TriggerCell>, n: nat): set<nat>
    requires PhisNonNegative(tcs, n)
  {
    if n == 0 then {} else KeySet(tcs, n - 1) + {KeyOf(tcs[n - 1])}
  }

  /** A key is in `KeySet(tcs, n)` exactly when one of the first `n`
      cells has it. */
  lemma {:induction false} KeySetMembers(tcs: seq<TriggerCell>, n: nat, key: nat)
    requires PhisNonNegative(tcs, n)
    ensures key in KeySet(tcs, n) <==> exists k :: 0 <= k < n && KeyOf(tcs[k]) == key
  {
    if n > 0 {
      KeySetMembers(tcs, n - 1, key);
    }
  }

  /** `tcs_per_bin` after the first `n` cells: the map from each packed
      bin to its cells, as the grouping loop builds it by `push_back`. */
  function Groups(tcs: seq<TriggerCell>, n: nat): map<nat, seq<TriggerCell>>
    requires PhisNonNegative(tcs, n)
  {
    if n == 0 then map[]
    else
      var m := Groups(tcs, n - 1);
      var key := KeyOf(tcs[n - 1]);
      m[key := (if key in m then m[key] else []) + [tcs[n - 1]]]
  }

  /** The grouping has a group for exactly the packed bins of the input,
      and each group holds the cells of its bin in input order. */
  lemma {:induction false} GroupsMembers(tcs: seq<TriggerCell>, n: nat)
    requires PhisNonNegative(tcs, n)
    ensures Groups(tcs, n).Keys == KeySet(tcs, n)
    ensures forall key :: key in Groups(tcs, n) ==> Groups(tcs, n)[key] == Members(tcs, n, key)
  {
    if n > 0 {
      GroupsMembers(tcs, n - 1);
      MembersOutside(tcs, n - 1, KeyOf(tcs[n - 1]));
    }
  }

  /** A key no cell has collects no cells. */
  lemma {:induction false} MembersOutside(tcs: seq<TriggerCell>, n: nat, key: nat)
    requires PhisNonNegative(tcs, n)
    ensures key !in KeySet(tcs, n) ==> Members(tcs, n, key) == []
  {
    if n > 0 {
      MembersOutside(tcs, n - 1, key);
    }
  }

  /** `order` lists every key of `m` once: the iteration order of the
      unordered map, which the model leaves open. */
  ghost predicate IsKeyOrder(order: seq<nat>, m: map<nat, seq<TriggerCell>>)
  {
    && (forall i, j :: 0 <= i < j < |order| ==> order[i] != order[j])
    && (forall key :: key in order <==> key in m)
  }

  /** `ntcin`: the sorter's input width, the larger of the group size and
      the bin's limit, each rounded up to a multiple of four. */
  function NTcIn(size: nat, maxTcs: nat): nat
  {
    var a, b := SmallerMultOfFourGreaterThan(size), SmallerMultOfFourGreaterThan(maxTcs);
    if a >= b then a else b
  }

  /** The sorter's input width is a multiple of four that holds both the
      group and the bin's limit. */
  lemma NTcInBounds(size: nat, maxTcs: nat)
    requires size < U32 && maxTcs < U32
    ensures NTcIn(size, maxTcs) % 4 == 0
    ensures size <= U32 - 4 && maxTcs <= U32 - 4 ==> size <= NTcIn(size, maxTcs) && maxTcs <= NTcIn(size, maxTcs)
  {
    SmallerMultOfFourBounds(size);
    SmallerMultOfFourBounds(maxTcs);
  }

  /** `ntcout`: the bin's limit when truncating, the group size if not. */
  function NTcOut(doTruncate: bool, size: nat, maxTcs: nat): nat
  {
    if doTruncate then maxTcs else size
  }

  /** `theTCsIn_mipt`: the group's energies padded with zeros to `ntcin`. */
  function Mipt(cells: seq<TriggerCell>, ntcin: nat): (e: seq<nat>)
    ensures |e| == ntcin
    ensures forall i :: 0 <= i < ntcin ==> e[i] == (if i < |cells| then cells[i].energy else 0)
  {
    seq(ntcin, i requires 0 <= i < ntcin => if i < |cells| then cells[i].energy else 0)
  }

  /** The cell written for one output address. */
  function EmitOne(cells: seq<TriggerCell>, bin: BinCoords, addr: nat): TriggerCell
  {
    if addr < |cells| then cells[addr] else DummyCell(bin)
  }

  /** The cells written for the output addresses `addrs`, in order. */
  function Emit(cells: seq<TriggerCell>, bin: BinCoords, addrs: seq<nat>): (out: seq<TriggerCell>)
    ensures |out| == |addrs|
    ensures forall j :: 0 <= j < |addrs| && addrs[j] < |cells| ==> out[j] == cells[addrs[j]]
    ensures forall j :: 0 <= j < |addrs| && addrs[j] >= |cells| ==>
      out[j].index == DummyIndex && out[j].cmsswIndex == DummyCmsswIndex && out[j].energy == 0 &&
      out[j].rOverZ == bin.roz && out[j].phi == bin.phi
  {
    seq(|addrs|, j requires 0 <= j < |addrs| => EmitOne(cells, bin, addrs[j]))
  }

  /** A sorter that, for inputs of width `ntcin`, returns `ntcout` output
      addresses: `BatcherSorter(ntcin, ntcout).sorting`, which is not part
      of this model. */
  type Sorter = (seq<nat>, nat) -> seq<nat>

  /** Whether the bin of `key` has an entry in `maxTcsPerBin`. */
  predicate HasLimit(conf: Config, key: nat)
  {
    UnpackBin(key).roz < |conf.maxTcsPerBin|
  }

  /** The 32-bit quantities that `run` converts to `unsigned`. */
  predicate Fits32(conf: Config)
  {
    forall k :: 0 <= k < |conf.maxTcsPerBin| ==> conf.maxTcsPerBin[k] < U32
  }

  /** The sorter's addresses for one group. */
  function Addresses(conf: Config, sorter: Sorter, key: nat, cells: seq<TriggerCell>): seq<nat>
    requires HasLimit(conf, key)
  {
    var maxTcs := conf.maxTcsPerBin[UnpackBin(key).roz];
    sorter(Mipt(cells, NTcIn(|cells|, maxTcs)), NTcOut(conf.doTruncate, |cells|, maxTcs))
  }

  /** What one iteration of the group loop appends to `tcs_out`. */
  function GroupOutput(conf: Config, sorter: Sorter, key: nat, cells: seq<TriggerCell>): seq<TriggerCell>
    requires HasLimit(conf, key)
  {
    Emit(cells, UnpackBin(key), Addresses(conf, sorter, key, cells))
  }

  /** Whether every key of `order` is a group with a limit. */
  predicate GroupsReady(conf: Config, order: seq<nat>, m: map<nat, seq<TriggerCell>>)
  {
    forall i :: 0 <= i < |order| ==> order[i] in m && HasLimit(conf, order[i])
  }

  /** Everything the group loop appends for the first `n` groups of
      `order`, group by group. */
  function Emitted(conf: Config, sorter: Sorter, order: seq<nat>, n: nat, m: map<nat, seq<TriggerCell>>): seq<TriggerCell>
    requires GroupsReady(conf, order, m) && n <= |order|
  {
    if n == 0 then []
    else Emitted(conf, sorter, order, n - 1, m) + GroupOutput(conf, sorter, order[n - 1], m[order[n - 1]])
  }

  /** Appending the output of group `g` to the output of the groups
      before it gives the output of the first `g + 1` groups. */
  lemma EmittedStep(conf: Config, sorter: Sorter, order: seq<nat>, m: map<nat, seq<TriggerCell>>, g: nat,
                    base: seq<TriggerCell>, before: seq<TriggerCell>, after: seq<TriggerCell>)
    requires GroupsReady(conf, order, m) && g < |order|
    requires before == base + Emitted(conf, sorter, order, g, m)
    requires after == before + GroupOutput(conf, sorter, order[g], m[order[g]])
    ensures after == base + Emitted(conf, sorter, order, g + 1, m)
  {
  }

  /** The cells of the first `n` groups of `order`, group by group. */
  function Concat(order: seq<nat>, n: nat, m: map<nat, seq<TriggerCell>>): seq<TriggerCell>
    requires n <= |order| && forall i :: 0 <= i < |order| ==> order[i] in m
  {
    if n == 0 then [] else Concat(order, n - 1, m) + m[order[n - 1]]
  }

  /** A cell occurs in the group of `key` as often as in the input when
      its bin is `key`, and not at all otherwise. */
  lemma {:induction false} MembersCount(tcs: seq<TriggerCell>, n: nat, key: nat, c: TriggerCell)
    requires PhisNonNegative(tcs, n)
    ensures multiset(Members(tcs, n, key))[c] == if c.phi >= 0 && KeyOf(c) == key then multiset(tcs[..n])[c] else 0
  {
    if n > 0 {
      var x := tcs[n - 1];
      MembersCount(tcs, n - 1, key, c);
      SnocCount(Members(tcs, n - 1, key), tcs[..n - 1], x, c, KeyOf(x) == key, c.phi >= 0 && KeyOf(c) == key);
      PrefixSnoc(tcs, n);
    }
  }

  lemma PrefixSnoc<T>(s: seq<T>, n: nat)
    requires 0 < n <= |s|
    ensures s[..n] == s[..n - 1] + [s[n - 1]]
  {
  }

  /** One more input cell adds one copy of `c` to a group that keeps
      the cells of its bin exactly when `c` is that cell and is in the bin. */
  lemma SnocCount(group: seq<TriggerCell>, input: seq<TriggerCell>, x: TriggerCell, c: TriggerCell,
                  keep: bool, wanted: bool)
    requires multiset(group)[c] == if wanted then multiset(input)[c] else 0
    requires x == c ==> keep == wanted
    ensures multiset(group + (if keep then [x] else []))[c] == if wanted then multiset(input + [x])[c] else 0
  {
  }

  /** A group holds each cell of its bin as often as the input does, and
      no other cells. */
  lemma GroupCount(tcs: seq<TriggerCell>, key: nat, c: TriggerCell)
    requires PhisNonNegative(tcs, |tcs|) && key in Groups(tcs, |tcs|)
    ensures multiset(Groups(tcs, |tcs|)[key])[c] == if c.phi >= 0 && KeyOf(c) == key then multiset(tcs)[c] else 0
  {
    GroupsMembers(tcs, |tcs|);
    MembersCount(tcs, |tcs|, key, c);
    assert tcs[..|tcs|] == tcs;
  }

  /** If each group of a list of distinct keys holds `count` copies of a
      cell when the key is the cell's bin and none otherwise, the groups
      together hold `count` copies when the cell's bin is listed and none
      otherwise. */
  lemma {:induction false} ConcatCount(order: seq<nat>, g: nat, m: map<nat, seq<TriggerCell>>, c: TriggerCell, count: nat)
    requires g <= |order|
    requires forall i, j :: 0 <= i < j < |order| ==> order[i] != order[j]
    requires forall i :: 0 <= i < |order| ==> order[i] in m
    requires forall i :: 0 <= i < |order| ==>
      multiset(m[order[i]])[c] == if c.phi >= 0 && KeyOf(c) == order[i] then count else 0
    ensures multiset(Concat(order, g, m))[c] == if c.phi >= 0 && KeyOf(c) in order[..g] then count else 0
  {
    if g > 0 {
      var key := order[g - 1];
      ConcatCount(order, g - 1, m, c, count);
      assert multiset(Concat(order, g, m)) == multiset(Concat(order, g - 1, m)) + multiset(m[key]);
      assert order[..g] == order[..g - 1] + [key];
    }
  }

  /** `ConcatCount` for all the keys. */
  lemma ConcatCountAll(order: seq<nat>, m: map<nat, seq<TriggerCell>>, c: TriggerCell, count: nat)
    requires forall i, j :: 0 <= i < j < |order| ==> order[i] != order[j]
    requires forall i :: 0 <= i < |order| ==> order[i] in m
    requires forall i :: 0 <= i < |order| ==>
      multiset(m[order[i]])[c] == if c.phi >= 0 && KeyOf(c) == order[i] then count else 0
    ensures multiset(Concat(order, |order|, m))[c] == if c.phi >= 0 && KeyOf(c) in order then count else 0
  {
    ConcatCount(order, |order|, m, c, count);
    assert order[..|order|] == order;
  }

  /** Each key of a key order has a group. */
  lemma OrderedGroups(tcs: seq<TriggerCell>, order: seq<nat>)
    requires PhisNonNegative(tcs, |tcs|) && IsKeyOrder(order, Groups(tcs, |tcs|))
    ensures forall i :: 0 <= i < |order| ==> order[i] in Groups(tcs, |tcs|)
  {
    forall i | 0 <= i < |order|
      ensures order[i] in Groups(tcs, |tcs|)
    {
      assert order[i] in order;
    }
  }

  /** A key order lists the bin of every input cell. */
  lemma CellKeyListed(tcs: seq<TriggerCell>, order: seq<nat>, k: nat)
    requires PhisNonNegative(tcs, |tcs|) && IsKeyOrder(order, Groups(tcs, |tcs|)) && k < |tcs|
    ensures KeyOf(tcs[k]) in order
  {
    GroupsMembers(tcs, |tcs|);
    KeySetMembers(tcs, |tcs|, KeyOf(tcs[k]));
  }

  /** Groups of distinct keys that hold each input cell as often as the
      input does when the key is the cell's bin, and nothing else, and
      that list the bin of every input cell, rearrange the input. */
  lemma PartitionByCounts(tcs: seq<TriggerCell>, order: seq<nat>, m: map<nat, seq<TriggerCell>>)
    requires forall i, j :: 0 <= i < j < |order| ==> order[i] != order[j]
    requires forall i :: 0 <= i < |order| ==> order[i] in m
    requires forall i, c :: 0 <= i < |order| ==>
      multiset(m[order[i]])[c] == if c.phi >= 0 && KeyOf(c) == order[i] then multiset(tcs)[c] else 0
    requires forall k :: 0 <= k < |tcs| ==> tcs[k].phi >= 0 && KeyOf(tcs[k]) in order
    ensures multiset(Concat(order, |order|, m)) == multiset(tcs)
  {
    forall c
      ensures multiset(Concat(order, |order|, m))[c] == multiset(tcs)[c]
    {
      ConcatCountAll(order, m, c, multiset(tcs)[c]);
      if c in multiset(tcs) {
        var k :| 0 <= k < |tcs| && tcs[k] == c;
      }
    }
  }

  /** The groups, taken in a key order, rearrange the input: no cell is
      lost and none is duplicated. */
  lemma GroupsPartition(tcs: seq<TriggerCell>, order: seq<nat>)
    requires PhisNonNegative(tcs, |tcs|) && IsKeyOrder(order, Groups(tcs, |tcs|))
    ensures forall i :: 0 <= i < |order| ==> order[i] in Groups(tcs, |tcs|)
    ensures multiset(Concat(order, |order|, Groups(tcs, |tcs|))) == multiset(tcs)
  {
    var m := Groups(tcs, |tcs|);
    OrderedGroups(tcs, order);
    forall i, c: TriggerCell | 0 <= i < |order|
      ensures multiset(m[order[i]])[c] == if c.phi >= 0 && KeyOf(c) == order[i] then multiset(tcs)[c] else 0
    {
      GroupCount(tcs, order[i], c);
    }
    forall k | 0 <= k < |tcs|
      ensures KeyOf(tcs[k]) in order
    {
      CellKeyListed(tcs, order, k);
    }
    PartitionByCounts(tcs, order, m);
  }

  /** A sorter that always returns as many addresses as it is asked for. */
  ghost predicate SorterWidth(sorter: Sorter)
  {
    forall energies, n :: |sorter(energies, n)| == n
  }

  /** Each group appends `ntcout` cells: the bin's limit when truncating,
      the group size otherwise. */
  lemma GroupOutputSize(conf: Config, sorter: Sorter, key: nat, cells: seq<TriggerCell>)
    requires HasLimit(conf, key) && SorterWidth(sorter)
    ensures |GroupOutput(conf, sorter, key, cells)| ==
      if conf.doTruncate then conf.maxTcsPerBin[UnpackBin(key).roz] else |cells|
  {
  }

  /** A group whose sorter addresses are a rearrangement of the group's
      positions appends a rearrangement of the group, and no dummy. */
  lemma GroupOutputPermutes(conf: Config, sorter: Sorter, key: nat, cells: seq<TriggerCell>)
    requires HasLimit(conf, key)
    requires multiset(Addresses(conf, sorter, key, cells)) == multiset(Iota(|cells|))
    ensures multiset(GroupOutput(conf, sorter, key, cells)) == multiset(cells)
  {
    var addrs := Addresses(conf, sorter, key, cells);
    PickPermutation(cells, addrs);
    assert GroupOutput(conf, sorter, key, cells) == Pick(cells, addrs);
  }

  /** Whether, for every group of `order`, the sorter's addresses are a
      rearrangement of the group's positions. */
  ghost predicate SorterPermutes(conf: Config, sorter: Sorter, order: seq<nat>, m: map<nat, seq<TriggerCell>>)
    requires GroupsReady(conf, order, m)
  {
    forall i :: 0 <= i < |order| ==>
      multiset(Addresses(conf, sorter, order[i], m[order[i]])) == multiset(Iota(|m[order[i]]|))
  }

  /** The output of group `n - 1` adds a rearrangement of its cells. */
  lemma EmittedPermutesStep(conf: Config, sorter: Sorter, order: seq<nat>, n: nat, m: map<nat, seq<TriggerCell>>)
    requires GroupsReady(conf, order, m) && 0 < n <= |order| && SorterPermutes(conf, sorter, order, m)
    ensures multiset(Emitted(conf, sorter, order, n, m)) ==
      multiset(Emitted(conf, sorter, order, n - 1, m)) + multiset(m[order[n - 1]])
  {
    GroupOutputPermutes(conf, sorter, order[n - 1], m[order[n - 1]]);
  }

  /** With such a sorter the output of the first `n` groups rearranges
      their cells. */
  lemma EmittedRearranges(conf: Config, sorter: Sorter, order: seq<nat>, n: nat, m: map<nat, seq<TriggerCell>>)
    requires GroupsReady(conf, order, m) && n <= |order| && SorterPermutes(conf, sorter, order, m)
    ensures multiset(Emitted(conf, sorter, order, n, m)) == multiset(Concat(order, n, m))
    decreases n, 1
  {
    if n > 0 {
      EmittedRearrangesStep(conf, sorter, order, n, m);
    }
  }

  /** The induction step of `EmittedRearranges`: the groups before `n - 1`
      are rearranged, and group `n - 1` adds a rearrangement of its cells. */
  lemma EmittedRearrangesStep(conf: Config, sorter: Sorter, order: seq<nat>, n: nat, m: map<nat, seq<TriggerCell>>)
    requires GroupsReady(conf, order, m) && 0 < n <= |order| && SorterPermutes(conf, sorter, order, m)
    ensures multiset(Emitted(conf, sorter, order, n, m)) == multiset(Concat(order, n, m))
    decreases n, 0
  {
    EmittedRearranges(conf, sorter, order, n - 1, m);
    EmittedPermutesStep(conf, sorter, order, n, m);
    ConcatStep(order, n, m);
  }

  lemma ConcatStep(order: seq<nat>, n: nat, m: map<nat, seq<TriggerCell>>)
    requires 0 < n <= |order| && forall i :: 0 <= i < |order| ==> order[i] in m
    ensures multiset(Concat(order, n, m)) == multiset(Concat(order, n - 1, m)) + multiset(m[order[n - 1]])
  {
  }

  /** When the sorter returns every position of every group once, which
      needs `ntcout` to be the group size and so holds only without
      truncation or with limits equal to the group sizes, `run` emits
      every input cell exactly once and no dummy. */
  lemma NothingLostWithoutTruncation(tcs: seq<TriggerCell>, conf: Config, sorter: Sorter, order: seq<nat>)
    requires PhisNonNegative(tcs, |tcs|) && IsKeyOrder(order, Groups(tcs, |tcs|))
    requires GroupsReady(conf, order, Groups(tcs, |tcs|))
    requires SorterPermutes(conf, sorter, order, Groups(tcs, |tcs|))
    ensures multiset(Emitted(conf, sorter, order, |order|, Groups(tcs, |tcs|))) == multiset(tcs)
  {
    GroupsPartition(tcs, order);
    EmittedRearranges(conf, sorter, order, |order|, Groups(tcs, |tcs|));
  }

  /** `run`: returns 1 at the first cell with a negative phi bin, leaving
      `tcs_out` as it was; otherwise appends each group's output to
      `tcs_out`, groups in the map's iteration order `order`, and returns
      0. */
  method Run(tcsIn: seq<TriggerCell>, conf: Config, order: seq<nat>, sorter: Sorter, tcsOutIn: seq<TriggerCell>)
    returns (status: nat, tcsOut: seq<TriggerCell>)
    requires |tcsIn| < U32 && Fits32(conf)
    requires PhisNonNegative(tcsIn, |tcsIn|) ==> forall k :: 0 <= k < |tcsIn| ==> HasLimit(conf, KeyOf(tcsIn[k]))
    requires PhisNonNegative(tcsIn, |tcsIn|) ==> IsKeyOrder(order, Groups(tcsIn, |tcsIn|))
    ensures status == 0 || status == 1
    ensures status == 1 <==> !PhisNonNegative(tcsIn, |tcsIn|)
    ensures status == 1 ==> tcsOut == tcsOutIn
    ensures status == 0 ==>
      GroupsReadyFor(conf, order, tcsIn) && tcsOut == tcsOutIn + Emitted(conf, sorter, order, |order|, Groups(tcsIn, |tcsIn|))
  {
    var tcsPerBin: map<nat, seq<TriggerCell>> := map[];
    var i := 0;
    while i < |tcsIn|
      invariant 0 <= i <= |tcsIn|
      invariant PhisNonNegative(tcsIn, i)
      invariant tcsPerBin == Groups(tcsIn, i)
    {
      var tc := tcsIn[i];
      if tc.phi < 0 {
        assert !PhisNonNegative(tcsIn, |tcsIn|);
        return 1, tcsOutIn;
      }
      var key := PackBin(tc.rOverZ, tc.phi as nat);
      tcsPerBin := tcsPerBin[key := (if key in tcsPerBin then tcsPerBin[key] else []) + [tc]];
      i := i + 1;
    }
    ReadyFromInput(conf, order, tcsIn);
    assert GroupsReady(conf, order, tcsPerBin);

    tcsOut := EmitGroups(conf, sorter, order, tcsPerBin, tcsOutIn);
    status := 0;
  }

  /** The group loop: every group, in the map's iteration order, appends
      its output to `tcs_out`. */
  method EmitGroups(conf: Config, sorter: Sorter, order: seq<nat>, tcsPerBin: map<nat, seq<TriggerCell>>,
                    tcsOutIn: seq<TriggerCell>)
    returns (tcsOut: seq<TriggerCell>)
    requires GroupsReady(conf, order, tcsPerBin)
    ensures tcsOut == tcsOutIn + Emitted(conf, sorter, order, |order|, tcsPerBin)
  {
    tcsOut := tcsOutIn;
    var g := 0;
    while g < |order|
      invariant 0 <= g <= |order|
      invariant tcsOut == tcsOutIn + Emitted(conf, sorter, order, g, tcsPerBin)
    {
      var key := order[g];
      ghost var before := tcsOut;
      tcsOut := EmitGroup(conf, sorter, key, tcsPerBin[key], tcsOut);
      EmittedStep(conf, sorter, order, tcsPerBin, g, tcsOutIn, before, tcsOut);
      g := g + 1;
    }
  }

  /** One iteration of the group loop: unpack the key, size the sorter,
      pad the energies to its input width, sort, and append the cell or a
      dummy for each output address. */
  method EmitGroup(conf: Config, sorter: Sorter, key: nat, cells: seq<TriggerCell>, tcsOutIn: seq<TriggerCell>)
    returns (tcsOut: seq<TriggerCell>)
    requires HasLimit(conf, key)
    ensures tcsOut == tcsOutIn + GroupOutput(conf, sorter, key, cells)
  {
    tcsOut := tcsOutIn;
    var bin := UnpackBin(key);
    var maxTcs := conf.maxTcsPerBin[bin.roz];
    var ntcin := NTcIn(|cells|, maxTcs);
    var ntcout := NTcOut(conf.doTruncate, |cells|, maxTcs);
    var mipt := new nat[ntcin];
    var j := 0;
    while j < ntcin
      invariant 0 <= j <= ntcin
      invariant forall k :: 0 <= k < j ==> mipt[k] == (if k < |cells| then cells[k].energy else 0)
    {
      if j < |cells| {
        mipt[j] := cells[j].energy;
      } else {
        mipt[j] := 0;
      }
      j := j + 1;
    }
    assert mipt[..] == Mipt(cells, ntcin);
    var addrs := sorter(mipt[..], ntcout);
    var a := 0;
    while a < |addrs|
      invariant 0 <= a <= |addrs|
      invariant tcsOut == tcsOutIn + Emit(cells, bin, addrs[..a])
    {
      if addrs[a] < |cells| {
        tcsOut := tcsOut + [cells[addrs[a]]];
      } else {
        tcsOut := tcsOut + [DummyCell(bin)];
      }
      assert addrs[..a + 1] == addrs[..a] + [addrs[a]];
      a := a + 1;
    }
    assert addrs[..a] == addrs;
  }

  /** The groups of an input without negative phi bins are ready for the
      group loop in any key order. */
  predicate GroupsReadyFor(conf: Config, order: seq<nat>, tcsIn: seq<TriggerCell>)
  {
    PhisNonNegative(tcsIn, |tcsIn|) && GroupsReady(conf, order, Groups(tcsIn, |tcsIn|))
  }

  lemma ReadyFromInput(conf: Config, order: seq<nat>, tcsIn: seq<TriggerCell>)
    requires |tcsIn| < U32
    requires PhisNonNegative(tcsIn, |tcsIn|)
    requires forall k :: 0 <= k < |tcsIn| ==> HasLimit(conf, KeyOf(tcsIn[k]))
    requires IsKeyOrder(order, Groups(tcsIn, |tcsIn|))
    ensures GroupsReadyFor(conf, order, tcsIn)
  {
    var m := Groups(tcsIn, |tcsIn|);
    GroupsMembers(tcsIn, |tcsIn|);
    forall i | 0 <= i < |order|
      ensures order[i] in m && HasLimit(conf, order[i])
    {
      assert order[i] in order;
      KeySetMembers(tcsIn, |tcsIn|, order[i]);
      var k :| 0 <= k < |tcsIn| && KeyOf(tcsIn[k]) == order[i];
    }
  }
}
