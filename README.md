# Binning, truncation and calendar cores, modelled in Dafny

This project models three pieces of a particle-physics software repository and proves properties of them.

- **`binnor`** (`RecoTracker/MkFitCore/interface/binnor.h`) is a two-dimensional bin index. It has two parts.
  - The axis family (`axis_base`, `axis_pow2`, `axis_pow2_u1`, `axis`) turns a real coordinate into a fine bin of M bits and a coarse bin of N bits. The bounded axes clamp; the periodic axis masks.
  - `binnor` packs pairs of fine bins into 32-bit `B_pair` words. `finalize_registration` sorts the entry numbers ("ranks") by a key that keeps the fine first bin and the coarse second bin. One pass over the sorted ranks then fills a row-major table of `(first, count)` records, one record per coarse cell.
- **The layer-1 truncation** of the HGCal trigger back-end emulator (`HGCalLayer1TruncationFwImpl.cc`) covers the 6+1-bit packing of (r/z, phi) bins, the multiple-of-four rounding, the phi and r/z binning, and `run`.
  - `run` groups trigger cells by packed bin and pads each group's energies to a sorter width.
  - For every sorter output address, it emits either the group's cell or a dummy cell.
- **`RPCFw::UTtoT` and `RPCFw::TtoUT`** (`CondTools/RPC/src/RPCFw.cc`) convert unix seconds to a `coral::TimeStamp` and back, using 365-day years, a truncating leap-day count and hand-written month chains. A Gregorian calendar (`CivilFromUnix`, `UnixFromCivil`) with proved round trips serves as the reference; both conversions are measured against it.

Files:
- `arith.dfy` (`BitArith`): shifts and masks as arithmetic; division facts.
- `axis.dfy` (`Axes`): the axis family, as one datatype with a kind.
- `bin_pair.dfy` (`BinPairs`): `B_pair`, its sort key, `C_pair`.
- `permutations.dfy` (`Permutations`): `iota` and rearrangements.
- `binnor.dfy` (`Binning`): the `binnor` class.
- `truncation.dfy` (`Layer1Truncation`): the truncation.
- `rpc_time.dfy` (`RpcTime`): the two calendar conversions.

C++ semantics made explicit:
- `/` and `%` truncate toward zero (`TruncDiv`, `TruncRem`).
- `unsigned` arithmetic in `smallerMultOfFourGreaterThan` wraps modulo 2^32.
- `TtoUT` returns `unsigned long long`, so negative values wrap modulo 2^64.
- The `C_pair` bit-fields keep their low `NB_first` and `NB_count` bits.
- Coordinates and the r/z and phi inputs are exact reals.

Behaviour of the code that a reader might not expect:
- `binnor` has no phase flag (empty, registering, finalized) and does not detect calls made out of order; neither does the model.
- The counts of all coarse bins add up to the number of entries only while the `count` bit-field does not overflow, so `FinalizeRegistration` states it under that condition.
- `B_pair` is a 32-bit `unsigned int`, so `B_pair(i1, i2)` keeps only the low `32 - M1` bits of `i2`; `Pack`, `GetNBin` and `RegisterMBins` model that cut.
- On the periodic axis a window that wraps around but ends in its own starting coarse bin gets the one-bin range `[begin, begin + 1)`, not the `end <= begin` of other wrapping windows (`PeriodicWrapSameBin`).

## Model

| member | source | states |
|---|---|---|
| `Axes.Axis.SizesFit` | RecoTracker/MkFitCore/interface/binnor.h:123-126 | the fine bin count `N_size << (M-N)` fits in M bits, and fills them exactly on the power-of-two axes |
| `Axes.Axis.Factor` | RecoTracker/MkFitCore/interface/binnor.h:47-48 | `m_M_fac`/`m_N_fac` are non-negative and scale the extent `max - min` to exactly the bin count |
| `Axes.Axis.Scaled` | RecoTracker/MkFitCore/interface/binnor.h:55-56 | the unchecked conversion of a coordinate in `[min, max)` is below the bin count |
| `Axes.Axis.SafeScaled` | RecoTracker/MkFitCore/interface/binnor.h:58-59 | the safe conversion is always below the bin count and agrees with the unchecked one inside `[min, max)`; bounded axes return 0 at or below `min` and the last bin at or above `max` |
| `Axes.Axis.FromRToMBin` | RecoTracker/MkFitCore/interface/binnor.h:55 | a coordinate in `[min, max)` gets a fine bin below `M_size` |
| `Axes.Axis.FromRToNBin` | RecoTracker/MkFitCore/interface/binnor.h:56 | a coordinate in `[min, max)` gets a coarse bin below `N_size` |
| `Axes.Axis.FromRToMBinSafe` | RecoTracker/MkFitCore/interface/binnor.h:96 | every coordinate gets a fine bin below `M_size`: the unchecked bin inside the domain; on bounded axes bin 0 below it and `m_last_M_bin` above it |
| `Axes.Axis.FromRToNBinSafe` | RecoTracker/MkFitCore/interface/binnor.h:97 | the same for coarse bins and `m_last_N_bin` |
| `Axes.Axis.FromMBinToNBin` | RecoTracker/MkFitCore/interface/binnor.h:61 | every fine bin below `M_size` shifts to a coarse bin below `N_size` |
| `Axes.Axis.FromRMinMaxToNBins` | RecoTracker/MkFitCore/interface/binnor.h:63-65 | the coarse range begins at the safe bin of `rmin` below `N_size` and ends at most at `N_size`; a bounded end is the safe bin of `rmax` plus one, held in `I`, so it is 0 exactly when that sum is `1 << 8*sizeof(I)`; the periodic end (binnor.h:99-102) is masked below `N_size`; on every axis the end is `next_N_bin` of the safe bin of `rmax` |
| `Axes.Axis.FromRRdrToNBins` | RecoTracker/MkFitCore/interface/binnor.h:67 | the window `[r - dr, r + dr]` gives a coarse range within the axis |
| `Axes.Axis.NextNBin` | RecoTracker/MkFitCore/interface/binnor.h:68 | the next bin is an `I` value: `bin + 1` below the last coarse bin on every axis; the bounded axes wrap to 0 exactly past the largest `I` value; the periodic axis (binnor.h:107) wraps its last coarse bin to 0 and stays below `N_size` |
| `Axes.ScaledMonotone` | RecoTracker/MkFitCore/interface/binnor.h:55-56 | the unchecked conversion never decreases as the coordinate grows |
| `Axes.SafeMonotone` | RecoTracker/MkFitCore/interface/binnor.h:58-59 | on bounded axes the clamped conversion never decreases as the coordinate grows |
| `Axes.RangeNonEmpty` | RecoTracker/MkFitCore/interface/binnor.h:63-65 | a bounded window with `rmin <= rmax` yields `begin < end` exactly when the end `safe(rmax) + 1` does not wrap in `I` |
| `Axes.RangeCovers` | RecoTracker/MkFitCore/interface/binnor.h:63-65 | the range of a bounded window `[rmin, rmax]` contains the safe coarse bin of every coordinate in the window (`begin <= bin`, and `bin < end` unless the end wrapped to 0) |
| `Axes.PeriodicRangeCovers` | RecoTracker/MkFitCore/interface/binnor.h:99-102 | on the periodic axis, the range of a window inside one period contains the coarse bin of every coordinate in the window (`begin <= bin`, and `bin < end` unless the end wrapped to 0) |
| `Axes.PeriodicWrappedCovers` | RecoTracker/MkFitCore/interface/binnor.h:99-102 | a periodic window with `rmax` below `rmin`, in an earlier coarse bin, gets `end <= begin`, and `[begin, N_size)` with `[0, end)` holds the coarse bin of every coordinate of `[rmin, max)` and `[min, rmax]` |
| `Axes.PeriodicEndShift` | RecoTracker/MkFitCore/interface/binnor.h:99-102 | moving `rmax` by one period leaves the periodic range unchanged |
| `Axes.PeriodicWrappedCoversBeyond` | RecoTracker/MkFitCore/interface/binnor.h:99-102 | a periodic window whose `rmax` runs past `max` (as `from_R_rdr_to_N_bins` gives) wraps the same way and holds the coarse bin of every coordinate of `[rmin, rmax]` |
| `Axes.PeriodicWrapSameBin` | RecoTracker/MkFitCore/interface/binnor.h:99-102 | a periodic window that wraps around within its starting coarse bin gets the single bin `begin`, with `end` the next bin |
| `Axes.PeriodicRangeInDomain` | RecoTracker/MkFitCore/interface/binnor.h:99-102 | on the periodic axis a window inside one period ends at 0 (wrapped) when `rmax` lies in the top coarse bin, and has `begin < end` otherwise |
| `Axes.ScaledShift` | RecoTracker/MkFitCore/interface/binnor.h:55-56 | moving a coordinate by one period moves its unchecked bin by exactly the bin count |
| `Axes.PeriodicSafeIsPeriodic` | RecoTracker/MkFitCore/interface/binnor.h:96-97 | the periodic axis's safe fine and coarse bins are unchanged when the coordinate moves by one period |
| `Axes.ScaledDivExact` | RecoTracker/MkFitCore/interface/binnor.h:55-56 | converting at `q` times the resolution and dividing by `q` equals converting at the lower resolution |
| `Axes.FineToCoarseExact` | RecoTracker/MkFitCore/interface/binnor.h:61 | shifting the fine bin of a coordinate gives the coarse bin of the same coordinate |
| `Axes.SafeFineToCoarseExact` | RecoTracker/MkFitCore/interface/binnor.h:58-61 | the same holds for the clamped or masked safe conversions of every axis kind |
| `Axes.NewAxis` | RecoTracker/MkFitCore/interface/binnor.h:123-126 | `axis(min, max, n_bins)` yields a usable axis exactly when `1 <= n_bins <= 1 << N`, with `n_bins` coarse and `n_bins << (M-N)` fine bins; `n_bins == 0` gives `NoBins`, more than `1 << N` bins gives `TooManyBins` with the sizes |
| `Axes.NewAxisPow2` | RecoTracker/MkFitCore/interface/binnor.h:76-79 | the power-of-two axes have `1 << M` fine and `1 << N` coarse bins and the requested kind |
| `BinPairs.Pack` | RecoTracker/MkFitCore/interface/binnor.h:166-170 | `B_pair(i1, i2).bin1() == i1`, and `bin2()` is the low `32 - m1` bits of `i2`, all of `i2` when it fits, for `i1 < 1 << m1` |
| `BinPairs.Bin2Below` | RecoTracker/MkFitCore/interface/binnor.h:166-173 | `bin2()` of the 32-bit word is below `1 << (32 - m1)` |
| `BinPairs.Bin1` | RecoTracker/MkFitCore/interface/binnor.h:172 | `bin1()` is below `1 << m1` |
| `BinPairs.Halves` | RecoTracker/MkFitCore/interface/binnor.h:166-176 | a packed word is `bin2` above `bin1` |
| `BinPairs.PackUnpack` | RecoTracker/MkFitCore/interface/binnor.h:170-173 | every word is the packing of its two halves |
| `BinPairs.PackFits` | RecoTracker/MkFitCore/interface/binnor.h:160 | a pair of indices of `m1` and `m2` bits packs below `1 << (m1 + m2)`, and with `m1 + m2 <= 32` the second index survives the shift whole |
| `BinPairs.SortKey` | RecoTracker/MkFitCore/interface/binnor.h:175 | `mask_A2_M_bins()` never exceeds the packed word |
| `BinPairs.SortKeyParts` | RecoTracker/MkFitCore/interface/binnor.h:163 | the key is the fine `bin1` plus the coarse `bin2` shifted above `m1 + s2` bits |
| `BinPairs.SortKeyOrder` | RecoTracker/MkFitCore/interface/binnor.h:248-250 | keys order pairs by coarse `bin2` first and fine `bin1` second, in both directions |
| `BinPairs.SortKeyGroupsCoarse` | RecoTracker/MkFitCore/interface/binnor.h:248-250 | a key between two keys of one coarse cell belongs to that cell |
| `BinPairs.CPair.End` | RecoTracker/MkFitCore/interface/binnor.h:186 | `end()`, computed in the content type `C`, is below `1 << cBits`, and is `first + count` whenever that sum fits |
| `Binning.Bump` | RecoTracker/MkFitCore/interface/binnor.h:255-257 | the first entry of an empty cell sets `first` to its position; later entries keep `first`; the count grows by one unless the bit-field overflows |
| `Binning.Fill` | RecoTracker/MkFitCore/interface/binnor.h:252-258 | the counting loop keeps the table size |
| `Binning.FillUnvisited` | RecoTracker/MkFitCore/interface/binnor.h:252-258 | cells the loop never visits keep their records |
| `Binning.FillBlocks` | RecoTracker/MkFitCore/interface/binnor.h:252-258 | from an empty table, grouped visits make every cell's `[first, end())` exactly the positions that visited it |
| `Binning.RunsByEnd` | RecoTracker/MkFitCore/interface/binnor.h:186 | with fewer than `1 << cBits` ranks counted into exact runs, the `C`-typed `end()` never wraps, and `[first, end())` is exactly the positions that visited the cell |
| `Binning.FillCountsAll` | RecoTracker/MkFitCore/interface/binnor.h:252-258 | from an empty table, without count overflow, the counts add up to the number of entries |
| `Binning.InsertDown` | RecoTracker/MkFitCore/interface/binnor.h:248-250 | one insertion step extends the key-sorted prefix by one, as a permutation |
| `Binning.SortByKey` | RecoTracker/MkFitCore/interface/binnor.h:248-250 | the rank sort leaves keys non-decreasing and is a permutation of its input |
| `Binning.Binnor.constructor` | RecoTracker/MkFitCore/interface/binnor.h:195 | a new `binnor` has `N_size1 * N_size2` empty cells and no entries or ranks |
| `Binning.Binnor.Key` | RecoTracker/MkFitCore/interface/binnor.h:249 | the sort key keeps the fine first bin and the coarse second bin |
| `Binning.Binnor.MBinToNBin` | RecoTracker/MkFitCore/interface/binnor.h:199-201 | the coarse pair holds the shifted halves, within the coarse bin counts when the fine pair is in range |
| `Binning.Binnor.GetNBin` | RecoTracker/MkFitCore/interface/binnor.h:203 | `get_n_bin(n1, n2)` unpacks to `n1` and the low `32 - M1` bits of `n2`, all of `n2` when it fits |
| `Binning.Binnor.FinePair` | RecoTracker/MkFitCore/interface/binnor.h:231-233 | `register_entry` records the two unchecked fine bins, both in range |
| `Binning.Binnor.FinePairSafe` | RecoTracker/MkFitCore/interface/binnor.h:235-237 | `register_entry_safe` records the two safe fine bins, always in range, and matches `register_entry` inside the domains |
| `Binning.Binnor.GetNBinAt` | RecoTracker/MkFitCore/interface/binnor.h:205-207 | `get_n_bin(r1, r2)` is the coarse pair of the fine pair `register_entry(r1, r2)` records |
| `Binning.Binnor.CellOf` | RecoTracker/MkFitCore/interface/binnor.h:209 | `ref_content(m_bin_to_n_bin(p))` is row coarse `bin2`, column coarse `bin1`, inside the table |
| `Binning.Binnor.GetContentAt` | RecoTracker/MkFitCore/interface/binnor.h:213-215 | `get_content(n1, n2)` reads the same cell as `get_content(get_n_bin(n1, n2))`, at row `n2` and column `n1` |
| `Binning.Binnor.GetContentAtR` | RecoTracker/MkFitCore/interface/binnor.h:217-219 | `get_content(r1, r2)` reads the cell in which an entry registered at `(r1, r2)` is counted |
| `Binning.Binnor.Cells` | RecoTracker/MkFitCore/interface/binnor.h:252-254 | the loop visits, in rank order, the cell of each ranked entry, all inside the table |
| `Binning.Binnor.SameCell` | RecoTracker/MkFitCore/interface/binnor.h:209 | two in-range pairs share a cell exactly when both coarse bins agree |
| `Binning.Binnor.KeyBetweenSameCell` | RecoTracker/MkFitCore/interface/binnor.h:248-250 | an entry whose key lies between two keys of one cell is in that cell |
| `Binning.Binnor.SortedRanksGrouped` | RecoTracker/MkFitCore/interface/binnor.h:248-254 | ranks sorted by key visit each cell in one unbroken run |
| `Binning.Binnor.ResetContents` | RecoTracker/MkFitCore/interface/binnor.h:223-227 | every cell becomes `(0, 0)`, ranks are emptied, the table size and the entries are kept |
| `Binning.Binnor.RegisterEntry` | RecoTracker/MkFitCore/interface/binnor.h:231-233 | appends the fine pair of the coordinates, which is in range, and changes nothing else |
| `Binning.Binnor.RegisterEntrySafe` | RecoTracker/MkFitCore/interface/binnor.h:235-237 | appends the clamped or wrapped fine pair, which is in range, and changes nothing else |
| `Binning.Binnor.RegisterMBins` | RecoTracker/MkFitCore/interface/binnor.h:240 | appends any pair unchecked: it unpacks to `m1` and the low `32 - M1` bits of `m2` (all of `m2` when inside the axis), keeps the earlier entries, keeps every entry in range exactly when the new one is, and keeps every entry inside the table exactly when the new one is |
| `Binning.Binnor.CountRanks` | RecoTracker/MkFitCore/interface/binnor.h:252-258 | the counting loop leaves the table as `Fill` of the visited cells |
| `Binning.Binnor.FinalizeRegistration` | RecoTracker/MkFitCore/interface/binnor.h:242-269 | ranks are a permutation of `0..n-1` sorted by key; the table is the old one counted over them; from an empty table without bit-field overflow, the counts add up to `n`, and when every entry is inside the axes each cell's `[first, end())` is exactly the ranks of its entries; entries are cleared |
| `Layer1Truncation.UnpackBin` | L1Trigger/L1THGCal/src/backend_emulator/HGCalLayer1TruncationFwImpl.cc:77-80 | `unpackBin` yields an r/z bin below 64 and a phi bin below 2 |
| `Layer1Truncation.PackBinRoundTrip` | L1Trigger/L1THGCal/src/backend_emulator/HGCalLayer1TruncationFwImpl.cc:70-80 | `packBin` is below 128, and `unpackBin(packBin(r, p)) == (r & 0x3f, p & 1)` |
| `Layer1Truncation.PackUnpack` | L1Trigger/L1THGCal/src/backend_emulator/HGCalLayer1TruncationFwImpl.cc:70-80 | `packBin(unpackBin(x)) == x` for `x < 128` |
| `Layer1Truncation.PackInjective` | L1Trigger/L1THGCal/src/backend_emulator/HGCalLayer1TruncationFwImpl.cc:70-75 | in-range bins share a key exactly when they are equal |
| `Layer1Truncation.SmallerMultOfFourBounds` | L1Trigger/L1THGCal/src/backend_emulator/HGCalLayer1TruncationFwImpl.cc:124-130 | the result is a 32-bit multiple of four; it equals `N` when `N % 4 == 0`; without wrap-around `N <= r < N + 4`; for the three largest `unsigned` values that are not multiples of four it wraps to 0 |
| `Layer1Truncation.PhiBin` | L1Trigger/L1THGCal/src/backend_emulator/HGCalLayer1TruncationFwImpl.cc:82-90 | -1 exactly for an r/z bin without an edge; otherwise 1 above the edge and 0 at or below it |
| `Layer1Truncation.PhiBinMonotone` | L1Trigger/L1THGCal/src/backend_emulator/HGCalLayer1TruncationFwImpl.cc:82-90 | a larger phi never gets a lower phi bin |
| `Layer1Truncation.Clamp` | L1Trigger/L1THGCal/src/backend_emulator/HGCalLayer1TruncationFwImpl.cc:117 | `std::clamp` lands in `[lo, hi]` and leaves values inside unchanged |
| `Layer1Truncation.RozBin` | L1Trigger/L1THGCal/src/backend_emulator/HGCalLayer1TruncationFwImpl.cc:111-122 | 0 when the bin size is not positive (including `rozbins == 0`) and for `roverz <= rozmin`; below `rozbins` whenever `rozbins > 0`, the 1.001 margin keeping `rozmax` inside |
| `Layer1Truncation.RozBinMonotone` | L1Trigger/L1THGCal/src/backend_emulator/HGCalLayer1TruncationFwImpl.cc:111-122 | a larger r/z never gets a lower r/z bin |
| `Layer1Truncation.KeySetMembers` | L1Trigger/L1THGCal/src/backend_emulator/HGCalLayer1TruncationFwImpl.cc:19-27 | a packed bin is a key of the grouping exactly when some input cell has it |
| `Layer1Truncation.GroupsMembers` | L1Trigger/L1THGCal/src/backend_emulator/HGCalLayer1TruncationFwImpl.cc:19-27 | `tcs_per_bin` has a group for exactly the input's packed bins, each holding the cells of its bin in input order |
| `Layer1Truncation.GroupCount` | L1Trigger/L1THGCal/src/backend_emulator/HGCalLayer1TruncationFwImpl.cc:19-27 | a group holds each cell of its bin as often as the input does, and no other cell |
| `Layer1Truncation.GroupsPartition` | L1Trigger/L1THGCal/src/backend_emulator/HGCalLayer1TruncationFwImpl.cc:19-29 | the groups, taken in the map's iteration order, rearrange the input: no cell lost or duplicated |
| `Layer1Truncation.NTcInBounds` | L1Trigger/L1THGCal/src/backend_emulator/HGCalLayer1TruncationFwImpl.cc:34-35 | `ntcin` is a multiple of four and, without wrap-around, at least both the group size and the bin's limit |
| `Layer1Truncation.Emit` | L1Trigger/L1THGCal/src/backend_emulator/HGCalLayer1TruncationFwImpl.cc:53-64 | one cell per address: the group's cell at that address, or a dummy with index 255, CMSSW index `(UINT_MAX, 63)`, zero energy and the group's bin |
| `Layer1Truncation.GroupOutputSize` | L1Trigger/L1THGCal/src/backend_emulator/HGCalLayer1TruncationFwImpl.cc:36-42 | each group appends `ntcout` cells: the bin's limit when truncating, the group size otherwise |
| `Layer1Truncation.GroupOutputPermutes` | L1Trigger/L1THGCal/src/backend_emulator/HGCalLayer1TruncationFwImpl.cc:53-55 | addresses that rearrange the group's positions emit a rearrangement of the group |
| `Layer1Truncation.EmittedRearranges` | L1Trigger/L1THGCal/src/backend_emulator/HGCalLayer1TruncationFwImpl.cc:29-65 | with such a sorter, the output of the first `n` groups rearranges their cells |
| `Layer1Truncation.NothingLostWithoutTruncation` | L1Trigger/L1THGCal/src/backend_emulator/HGCalLayer1TruncationFwImpl.cc:9-68 | when the sorter returns each position of each group once, `run` emits every input cell exactly once |
| `Layer1Truncation.Run` | L1Trigger/L1THGCal/src/backend_emulator/HGCalLayer1TruncationFwImpl.cc:9-68 | returns 1, leaving `tcs_out` unchanged, exactly when some cell has a negative phi bin; otherwise returns 0 and appends the groups' outputs in iteration order |
| `Layer1Truncation.EmitGroups` | L1Trigger/L1THGCal/src/backend_emulator/HGCalLayer1TruncationFwImpl.cc:29-65 | the group loop appends every group's output in order |
| `Layer1Truncation.EmitGroup` | L1Trigger/L1THGCal/src/backend_emulator/HGCalLayer1TruncationFwImpl.cc:30-64 | one group's iteration appends exactly that group's output |
| `RpcTime.TruncDiv` | CondTools/RPC/src/RPCFw.cc:938 | C++ `/` rounds toward zero: the quotient times the divisor lies between the dividend and zero, within one divisor |
| `RpcTime.TruncRem` | CondTools/RPC/src/RPCFw.cc:935 | C++ `%` has the sign of the dividend and is smaller than the divisor |
| `RpcTime.EstimatedYearRange` | CondTools/RPC/src/RPCFw.cc:933 | from the epoch to 2038 `yea` is a year from 1970 to 2038 |
| `RpcTime.YearStart` | CondTools/RPC/src/RPCFw.cc:934-937 | `yes` is a whole number of days |
| `RpcTime.YearStartVsCalendar` | CondTools/RPC/src/RPCFw.cc:934-937 | for years 1901 to 2099, `yes` is the Gregorian start of `yea` for leap years and up to 1972, one day early for common years after 1972; `cony == 0` picks out the leap years |
| `RpcTime.TruncLeapCount` | CondTools/RPC/src/RPCFw.cc:935-937 | for years 1901 to 2099, the truncating leap count `(yea-1972)/4` is the Gregorian count for leap years and up to 1972, one short for common years after 1972; the truncated remainder is 0 exactly in leap years |
| `RpcTime.LeapChainIsCalendar` | CondTools/RPC/src/RPCFw.cc:942-992 | each branch of the leap chain tests the 1-based days of one Gregorian month of a leap year and subtracts the days before it |
| `RpcTime.PlainChainIsCalendar` | CondTools/RPC/src/RPCFw.cc:994-1043 | the same for the other chain and a common year |
| `RpcTime.ChainStep` | CondTools/RPC/src/RPCFw.cc:944-991 | branch `k` of a chain that follows the calendar turns the state after `k` months into the state after `k + 1`: it fires exactly for the days of its own month that no earlier branch took, and subtracts the days before that month |
| `RpcTime.RunChainState` | CondTools/RPC/src/RPCFw.cc:942-1043 | running the branches from `k` on turns the state after `k` months into the final (month, day of month) |
| `RpcTime.Months` | CondTools/RPC/src/RPCFw.cc:942-1043 | the chain run on a 1-based day of the year yields the Gregorian month of that day and the day within that month |
| `RpcTime.MonthsOfDay` | CondTools/RPC/src/RPCFw.cc:943 | run on the 1-based day `d + 1`, the chain gives the month of 0-based day `d` |
| `RpcTime.Clock` | CondTools/RPC/src/RPCFw.cc:1045-1049 | hours, minutes and seconds put back together give `rest` |
| `RpcTime.ClockOfDay` | CondTools/RPC/src/RPCFw.cc:1045-1049 | within a day the split is `rest / 3600`, `rest / 60 % 60`, `rest % 60`, with `hou < 24`, `min < 60`, `sec < 60` |
| `RpcTime.UTtoT` | CondTools/RPC/src/RPCFw.cc:929-1058 | nanoseconds are 0, the month is in 1..12 and the year is the 365-day estimate |
| `RpcTime.UTtoTClock` | CondTools/RPC/src/RPCFw.cc:938-1049 | when `utime >= yes`, the time fields are in range and put together give the second of the day |
| `RpcTime.UTtoTKnownYear` | CondTools/RPC/src/RPCFw.cc:933-1056 | on a second whose year is its estimate, the day count is the 0-based day of the year, except in 1970 and 1971 where it is one less; the month is the Gregorian month of that day; the time is the time of day |
| `RpcTime.UTtoTOfDay` | CondTools/RPC/src/RPCFw.cc:938-1056 | once `cony`, `day` and `rest` are known for a second, the result is that year, the Gregorian month of the 0-based day, its day of month and the time of `rest` |
| `RpcTime.KnownYearDay` | CondTools/RPC/src/RPCFw.cc:934-939 | for a second on day `doy` of year `y`, `day` is `doy` in leap years and in 1970 and 1971 and `doy + 1` in later common years, `rest` is the second of the day, and `cony == 0` exactly in leap years |
| `RpcTime.UTtoTRightYears` | CondTools/RPC/src/RPCFw.cc:929-1058 | from 1972 on, when the estimated year is the true year, `UTtoT` is the Gregorian date and time |
| `RpcTime.UTtoTEarlyYears` | CondTools/RPC/src/RPCFw.cc:994-998 | in 1970 and 1971 `UTtoT` never gives the Gregorian date |
| `RpcTime.UTtoTMatchesCivil` | CondTools/RPC/src/RPCFw.cc:929-1058 | for seconds from 1970 to 2038, `UTtoT` is the Gregorian date and time exactly when the year is 1972 or later and the estimate is right |
| `RpcTime.CivilFromUnix` | CondTools/RPC/src/RPCFw.cc:929-1058 | the intended conversion: a real date with nanoseconds 0 |
| `RpcTime.CivilRoundTrip` | CondTools/RPC/src/RPCFw.cc:929-1058 | the intended conversions: every second is the second of its own date |
| `RpcTime.UnixRoundTrip` | CondTools/RPC/src/RPCFw.cc:1063-1081 | the intended conversions: every real date is the date of its own second |
| `RpcTime.MonthCorrection` | CondTools/RPC/src/RPCFw.cc:1069-1078 | the correction is between 0 and 7 days |
| `RpcTime.CorrectionIsCommonYear` | CondTools/RPC/src/RPCFw.cc:1069-1078 | 31 days per month less the correction are the days before the month in a common year (0, 31, 59, ..., 334) |
| `RpcTime.TtoUTTable` | CondTools/RPC/src/RPCFw.cc:1066-1078 | `TtoUT` is years times 31536000, plus the truncated `(year-1968)/4` leap days, the common-year table, the days, hours, minutes and seconds |
| `RpcTime.TtoUTIncrements` | CondTools/RPC/src/RPCFw.cc:1066-1067 | one more day, hour, minute or second adds 86400, 3600, 60 or 1 |
| `RpcTime.TtoUT` | CondTools/RPC/src/RPCFw.cc:1063-1081 | the `unsigned long long` result is below 2^64: the signed sum when it is non-negative, the sum plus 2^64 when negative |
| `RpcTime.TtoUTLastSecond` | CondTools/RPC/src/RPCFw.cc:1066-1067 | the `int` sum reaches `0x7fffffff` at 2038-01-19 03:14:07 and overflows one second later, outside the model's domain |
| `RpcTime.TtoUTVsCivil` | CondTools/RPC/src/RPCFw.cc:1066-1078 | from 1970 on, `TtoUT` is the Gregorian second of the date, except one day late in January and February of leap years |
| `RpcTime.TtoUTNoWrap` | CondTools/RPC/src/RPCFw.cc:1080 | a real date from 1970 on never wraps |
| `RpcTime.TtoUTAfterUTtoT` | CondTools/RPC/src/RPCFw.cc:929-1081 | `TtoUT(UTtoT(t)) == t` wherever `UTtoT` is right and the date is not in January or February of a leap year |
| `RpcTime.UTtoTAfterTtoUT` | CondTools/RPC/src/RPCFw.cc:929-1081 | `UTtoT(TtoUT(ts)) == ts` for real dates from 1972 outside January and February of leap years whose year estimate is right |
| `RpcTime.UTtoTEpochDayZero` | CondTools/RPC/src/RPCFw.cc:994-998 | `UTtoT(0)` is 1970-01-00 |
| `RpcTime.CivilEpoch` | CondTools/RPC/src/RPCFw.cc:994-998 | second 0 is 1970-01-01 on the calendar |
| `RpcTime.UTtoTYearRollover` | CondTools/RPC/src/RPCFw.cc:933 | `UTtoT(126144000)` is 1974-01-00 |
| `RpcTime.CivilYearRollover` | CondTools/RPC/src/RPCFw.cc:933 | second 126144000 is 1973-12-31 on the calendar |
| `RpcTime.TtoUTLeapDayCollision` | CondTools/RPC/src/RPCFw.cc:1066-1067 | 1972-02-29 and 1972-03-01 both go to 68256000; the calendar puts the leap day at 68169600 |

## Left out

- `begin_registration` (binnor.h:229): it only reserves capacity, which has no observable effect.
- The `DEBUG` printf in `finalize_registration`: logging.
- The `axis(min, max, bin_width)` constructor: it computes with floating `std::ceil` and builds a discarded temporary. It has no coherent behaviour to state.
- Floating point: coordinates, `m_M_fac`, r/z and phi are exact reals, so rounding in `(r - m_R_min) * m_M_fac` and in `rozBin` is not modelled.
- `rotatedphi`: `atan2` and multiples of pi.
- `BatcherSorter`: it is not part of this model. The sorter is a function parameter from (energies, `ntcout`) to addresses. `SorterWidth` and `SorterPermutes` state what particular lemmas assume of it.
- The `std::unordered_map` iteration order in `run` is a parameter `order` listing each key once.
- `HGCalTriggerCell_SA.h` is not part of this model. The trigger cell's fields are those that `run` reads and writes; the dummy cell's constructor arguments are mapped onto them.
- `HGCalLayer1TruncationFwConfig.h` is not part of this model. The configuration is the two values `run` reads.
- The order in which `std::sort` leaves entries with equal keys is unspecified. The model uses one particular sort (insertion sort), and `FinalizeRegistration` states only what every such sort guarantees.
- `coral::TimeStamp` validation is not part of this model. A time stamp is the tuple of its constructor arguments, so `UTtoT` may return day 0 or a negative day.
- The other `RPCFw` functions, including the database readers and `isMajor`, are left out: they are database I/O and double arithmetic.
- `Axes.Axis.Scaled`: requires `r >= min`. Below `min` the source converts a negative real to an unsigned index, which is undefined.
- `Axes.Axis.Valid`: requires `M <= 30`, because `1 << M` is an `int` shift in the source, and `M <= 8*sizeof(I)`, so that every fine bin fits the index type.
- `Axes.NewAxis`: for `n_bins == 0` the source builds an axis with no bins (`m_last_*_bin` is `I(-1)`, both factors 0) on which no conversion yields a bin of the table; the model returns `NoBins` instead of such an axis.
- `Axes.Axis.FromRToMBinSafe`: on the periodic axis, a coordinate so far past `max` that its unchecked bin does not fit `I` is converted with undefined behaviour in the source; the model masks the exact bin. The same holds for `Axes.Axis.FromRToNBinSafe` and the periodic end of `Axes.Axis.FromRMinMaxToNBins`.
- `BinPairs.Pack`: requires `i1 < 1 << m1`. When the fields overlap, the OR is not modelled.
- `Binning.Binnor.RegisterEntry`: requires both coordinates inside their axes. Outside, the source produces an out-of-range index or converts a negative real to unsigned.
- `Binning.Binnor.RegisterMBins`: requires `m1 < 1 << M1`. Larger values have bits that the source ORs into the second bin, and that overlap is not modelled (as for `BinPairs.Pack`).
- `Binning.Binnor.GetNBinAt`: requires both coordinates inside their axes, for the same reason as `register_entry`.
- `Binning.Binnor.GetContentAtR`: requires both coordinates inside their axes; outside, the source reads `m_bins` at an index the model cannot give meaning to.
- `Binning.Binnor.FinalizeRegistration`: requires fewer than `2^cBits` entries. The loop counter has the content type and would otherwise wrap. It also requires every entry to fall in a cell of the table (`Counted`): an entry registered by `register_m_bins` past the axes can make the source index `m_bins` out of bounds. The runs are stated only when every entry is inside the axes, since an entry past the first axis is counted in a neighbouring row's cell. The run and sum properties are stated only when the `first` and `count` bit-fields do not overflow; their wrap-around is modelled in `Bump` but not characterised further.
- `Layer1Truncation.Run`: requires fewer than 2^32 input cells and 32-bit limits, because `run` converts these to `unsigned`. It also requires a `maxTcsPerBin` entry for every cell's r/z bin, because the source indexes the vector unchecked.
- `Layer1Truncation.SmallerMultOfFourBounds`: requires `N < 2^32`, the range of `unsigned`. `SmallerMultOfFourGreaterThan` itself models the wrap-around.
- `RpcTime.UTtoT`: requires `utime` within 69 years of the epoch. Beyond that, `(yea-1970)*31536000` overflows the 32-bit `int`.
- `RpcTime.TtoUT`: requires every term and every partial sum, the full seven-term sum included, to fit in 32 bits (`TtoUTInRange`). The source adds them in `int`, and signed overflow is undefined; from 03:14:08 on 19 January 2038 the sum overflows (`TtoUTLastSecond`).
- `RpcTime.UTtoTMatchesCivil`: covers seconds from 1970 to 2038 only. Before 1970 the truncating leap count and the estimated year behave differently, and the model states nothing about them.

## Findings

| source | as written | input that shows it | evidently intended | confidence | as-written member | corrected member |
|---|---|---|---|---|---|---|
| CondTools/RPC/src/RPCFw.cc:994-998 | for 1970 and 1971 the common-year chain runs on the 0-based day count, which starts at the true year start there | `UTtoT(0)` gives 1970-01-00, and every date of 1970 and 1971 comes out a day early | 1970-01-01, the Gregorian date | not executed | `RpcTime.UTtoTEpochDayZero` | `RpcTime.CivilFromUnix` |
| CondTools/RPC/src/RPCFw.cc:933 | the year is estimated by counting 365-day years | `UTtoT(126144000)` (31 December 1973, 00:00) gives 1974-01-00 | 1973-12-31 | not executed | `RpcTime.UTtoTYearRollover` | `RpcTime.CivilRoundTrip` |
| CondTools/RPC/src/RPCFw.cc:1066-1067 | the leap count `(year-1968)/4` includes the current year's leap day even in January and February | 1972-02-29 and 1972-03-01 both give 68256000 | 68169600 for 1972-02-29 | not executed | `RpcTime.TtoUTLeapDayCollision` | `RpcTime.UnixRoundTrip` |
