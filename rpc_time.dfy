/** The calendar conversions of the RPC condition tools: `UTtoT` turns unix
    seconds into a `coral::TimeStamp` and `TtoUT` turns a time stamp back
    into unix seconds, both reckoning in 365-day years plus a hand-written
    leap-day count.  Beside them stands a Gregorian calendar
    (`CivilFromUnix`, `UnixFromCivil`) against which both are measured. */
module RpcTime {
  import opened BitArith

  /** `coral::TimeStamp`, as the tuple of its constructor arguments. */
  datatype TimeStamp = TimeStamp(year: int, month: int, day: int, hour: int, minute: int, second: int,
                                 nanosecond: int)

  const SecondsPerDay: int := 86400
  /** A 365-day year. */
  const SecondsPerYear: int := 31536000

  /** C++ integer `/` with a positive divisor: rounds toward zero. */
  function TruncDiv(a: int, b: int): (q: int)
    requires b > 0
    ensures a >= 0 ==> q * b <= a < q * b + b
    ensures a < 0 ==> a <= q * b < a + b
  {
    if a >= 0 then a / b else -((-a) / b)
  }

  /** C++ integer `%` with a positive divisor: `a - (a / b) * b`, which has
      the sign of `a`. */
  function TruncRem(a: int, b: int): (r: int)
    requires b > 0
    ensures a >= 0 ==> 0 <= r < b
    ensures a < 0 ==> -b < r <= 0
  {
    a - TruncDiv(a, b) * b
  }

  // ----------------------------------------------------------------------
  // A Gregorian calendar, counted from 1970-01-01.

  predicate IsLeapYear(y: int)
  {
    y % 4 == 0 && (y % 100 != 0 || y % 400 == 0)
  }

  function YearLength(y: int): (n: int)
    ensures n == 365 || n == 366
  {
    if IsLeapYear(y) then 366 else 365
  }

  /** Days from 1970-01-01 to the first day of year `y`. */
  function DaysFromEpoch(y: int): int
    decreases if y >= 1970 then y - 1970 else 1970 - y
  {
    if y == 1970 then 0
    else if y > 1970 then DaysFromEpoch(y - 1) + YearLength(y - 1)
    else DaysFromEpoch(y + 1) - YearLength(y)
  }

  /** Days of the year before the first of month `m` (`m == 13`: the whole
      year). */
  function DaysBeforeMonth(m: int, leap: bool): (n: int)
    requires 1 <= m <= 13
    ensures 0 <= n <= 366
  {
    [0, 31, 59, 90, 120, 151, 181, 212, 243, 273, 304, 334, 365][m - 1] + if leap && m > 2 then 1 else 0
  }

  function MonthLength(y: int, m: int): int
    requires 1 <= m <= 12
  {
    DaysBeforeMonth(m + 1, IsLeapYear(y)) - DaysBeforeMonth(m, IsLeapYear(y))
  }

  /** A real date and time of day. */
  predicate ValidDate(ts: TimeStamp)
  {
    1 <= ts.month <= 12 && 1 <= ts.day <= MonthLength(ts.year, ts.month) &&
    0 <= ts.hour < 24 && 0 <= ts.minute < 60 && 0 <= ts.second < 60
  }

  /** The year holding day `d` counted from the first day of year `y`, and
      the 0-based day of that year. */
  function FindYear(y: int, d: int): (r: (int, int))
    ensures 0 <= r.1 < YearLength(r.0) && DaysFromEpoch(r.0) + r.1 == DaysFromEpoch(y) + d
    ensures d >= 0 ==> r.0 >= y
    decreases if d < 0 then 1 else 0, if d < 0 then -d else d
  {
    if d < 0 then FindYear(y - 1, d + YearLength(y - 1))
    else if d >= YearLength(y) then FindYear(y + 1, d - YearLength(y))
    else (y, d)
  }

  /** The last month of at most `m` that begins on or before 0-based day
      `doy`. */
  function MonthSearch(doy: int, leap: bool, m: int): (r: int)
    requires 1 <= m <= 12
    ensures 1 <= r <= m
    ensures (r == 1 || DaysBeforeMonth(r, leap) <= doy) && (r == m || doy < DaysBeforeMonth(r + 1, leap))
  {
    if m == 1 || DaysBeforeMonth(m, leap) <= doy then m else MonthSearch(doy, leap, m - 1)
  }

  /** The month holding 0-based day `doy` of a year. */
  function MonthOf(doy: int, leap: bool): (m: int)
    ensures 1 <= m <= 12
    ensures (m == 1 || DaysBeforeMonth(m, leap) <= doy) && (m == 12 || doy < DaysBeforeMonth(m + 1, leap))
  {
    MonthSearch(doy, leap, 12)
  }

  /** The Gregorian date and time of unix second `t`. */
  function CivilFromUnix(t: int): (ts: TimeStamp)
    ensures ValidDate(ts) && ts.nanosecond == 0
  {
    var days, secs := t / SecondsPerDay, t % SecondsPerDay;
    var yd := FindYear(1970, days);
    var leap := IsLeapYear(yd.0);
    var m := MonthOf(yd.1, leap);
    TimeStamp(yd.0, m, yd.1 - DaysBeforeMonth(m, leap) + 1, secs / 3600, secs / 60 % 60, secs % 60, 0)
  }

  /** The unix second of a Gregorian date and time. */
  function UnixFromCivil(ts: TimeStamp): int
    requires 1 <= ts.month <= 12
  {
    (DaysFromEpoch(ts.year) + DaysBeforeMonth(ts.month, IsLeapYear(ts.year)) + ts.day - 1) * SecondsPerDay +
    ts.hour * 3600 + ts.minute * 60 + ts.second
  }

  /** Seconds of a day split into hours, minutes and seconds. */
  lemma ClockParts(c: int)
    requires 0 <= c < SecondsPerDay
    ensures c / 3600 < 24 && c / 3600 * 3600 + c / 60 % 60 * 60 + c % 60 == c
    ensures (c - c / 3600 * 3600) / 60 == c / 60 % 60
    ensures c - c / 3600 * 3600 - (c - c / 3600 * 3600) / 60 * 60 == c % 60
  {
    var h, m, s := c / 3600, c % 3600 / 60, c % 60;
    DivModUnique(c, 3600, h, c % 3600);
    DivModUnique(c % 3600, 60, m, c % 3600 % 60);
    DivModUnique(c, 60, h * 60 + m, c % 3600 % 60);
    DivModUnique(h * 60 + m, 60, h, m);
    DivBelow(c, 3600, 24);
  }

  /** Hours, minutes and seconds put back together split the same way. */
  lemma ClockUnique(h: int, m: int, s: int)
    requires 0 <= h < 24 && 0 <= m < 60 && 0 <= s < 60
    ensures 0 <= h * 3600 + m * 60 + s < SecondsPerDay
    ensures (h * 3600 + m * 60 + s) / 3600 == h
    ensures (h * 3600 + m * 60 + s) / 60 % 60 == m
    ensures (h * 3600 + m * 60 + s) % 60 == s
  {
    var c := h * 3600 + m * 60 + s;
    DivModUnique(c, 3600, h, m * 60 + s);
    DivModUnique(c, 60, h * 60 + m, s);
    DivModUnique(h * 60 + m, 60, h, m);
  }

  /** Year starts grow by the length of each year. */
  lemma DaysFromEpochStep(y: int)
    ensures DaysFromEpoch(y + 1) == DaysFromEpoch(y) + YearLength(y)
  {
  }

  lemma {:induction false} DaysFromEpochMonotone(y1: int, y2: int)
    requires y1 < y2
    ensures DaysFromEpoch(y1) + YearLength(y1) <= DaysFromEpoch(y2)
    decreases y2 - y1
  {
    DaysFromEpochStep(y1);
    if y1 + 1 < y2 {
      DaysFromEpochMonotone(y1 + 1, y2);
    }
  }

  /** A day number has one year and one day of that year. */
  lemma YearUnique(y1: int, d1: int, y2: int, d2: int)
    requires 0 <= d1 < YearLength(y1) && 0 <= d2 < YearLength(y2)
    requires DaysFromEpoch(y1) + d1 == DaysFromEpoch(y2) + d2
    ensures y1 == y2 && d1 == d2
  {
    if y1 < y2 {
      DaysFromEpochMonotone(y1, y2);
    } else if y2 < y1 {
      DaysFromEpochMonotone(y2, y1);
    }
  }

  /** A day of a year lies in one month. */
  lemma MonthUnique(doy: int, leap: bool, m1: int, m2: int)
    requires 1 <= m1 <= 12 && 1 <= m2 <= 12
    requires (m1 == 1 || DaysBeforeMonth(m1, leap) <= doy) && (m1 == 12 || doy < DaysBeforeMonth(m1 + 1, leap))
    requires (m2 == 1 || DaysBeforeMonth(m2, leap) <= doy) && (m2 == 12 || doy < DaysBeforeMonth(m2 + 1, leap))
    ensures m1 == m2
  {
    if m1 < m2 {
      MonthsIncrease(m1 + 1, m2, leap);
    } else if m2 < m1 {
      MonthsIncrease(m2 + 1, m1, leap);
    }
  }

  lemma MonthsIncrease(m1: int, m2: int, leap: bool)
    requires 1 <= m1 <= m2 <= 13
    ensures DaysBeforeMonth(m1, leap) <= DaysBeforeMonth(m2, leap)
  {
  }

  /** Every unix second is the second of its Gregorian date and time. */
  lemma CivilRoundTrip(t: int)
    ensures UnixFromCivil(CivilFromUnix(t)) == t
  {
    var days, secs := t / SecondsPerDay, t % SecondsPerDay;
    ClockParts(secs);
  }

  /** Every Gregorian date and time is the date and time of its unix
      second. */
  lemma UnixRoundTrip(ts: TimeStamp)
    requires ValidDate(ts) && ts.nanosecond == 0
    ensures CivilFromUnix(UnixFromCivil(ts)) == ts
  {
    var leap := IsLeapYear(ts.year);
    var doy := DaysBeforeMonth(ts.month, leap) + ts.day - 1;
    var days := DaysFromEpoch(ts.year) + doy;
    var c := ts.hour * 3600 + ts.minute * 60 + ts.second;
    ClockUnique(ts.hour, ts.minute, ts.second);
    DivModUnique(UnixFromCivil(ts), SecondsPerDay, days, c);
    MonthsIncrease(ts.month + 1, 13, leap);
    var yd := FindYear(1970, days);
    YearUnique(yd.0, yd.1, ts.year, doy);
    MonthUnique(doy, leap, MonthOf(doy, leap), ts.month);
  }

  // ----------------------------------------------------------------------
  // `UTtoT`.

  /** `UTtoT` computes `(yea - 1970) * 31536000` in `int`, which fits in 32
      bits for at most 68 years either side of 1970. */
  predicate UTtoTInRange(utime: int)
  {
    -69 * SecondsPerYear < utime < 69 * SecondsPerYear
  }

  /** `yea`: the year `UTtoT` assigns to `utime`, counting 365-day years. */
  function EstimatedYear(utime: int): int
  {
    TruncDiv(utime, SecondsPerYear) + 1970
  }

  /** From 1970 to 2038 the estimate counts whole 365-day years. */
  lemma EstimatedYearRange(t: int)
    requires 0 <= t < 69 * SecondsPerYear
    ensures 1970 <= EstimatedYear(t) <= 2038
  {
  }

  /** `yes`: the first second of `yea` as `UTtoT` reckons it, with one leap
      day for every fourth year from 1972 counted by truncating division. */
  function YearStart(yea: int): (yes: int)
    ensures yes % SecondsPerDay == 0
  {
    var yes := (yea - 1970) * SecondsPerYear;
    var leaps := TruncDiv(yea - 1972, 4);
    DivModUnique(yes + leaps * SecondsPerDay, SecondsPerDay, (yea - 1970) * 365 + leaps, 0);
    if TruncRem(yea - 1972, 4) == 0 then yes + leaps * SecondsPerDay
    else yes + leaps * SecondsPerDay
  }

  /** The test of one `if` of the month chain: `day < hi`,
      `day >= lo && day < hi` or `day >= lo`. */
  datatype DayTest = Below(hi: int) | Within(lo: int, hi: int) | AtLeast(lo: int)

  /** `if (test) { mon = month; day = day - off; }` */
  datatype MonthBranch = MonthBranch(test: DayTest, month: int, off: int)

  predicate Holds(test: DayTest, day: int)
  {
    match test
    case Below(hi) => day < hi
    case Within(lo, hi) => lo <= day < hi
    case AtLeast(lo) => day >= lo
  }

  /** The branches of the leap-year chain (`cony == 0`), in source order. */
  const LeapChain: seq<MonthBranch> := [
    MonthBranch(Below(32), 1, 0), MonthBranch(Within(32, 61), 2, 31), MonthBranch(Within(61, 92), 3, 60),
    MonthBranch(Within(92, 122), 4, 91), MonthBranch(Within(122, 153), 5, 121),
    MonthBranch(Within(153, 183), 6, 152), MonthBranch(Within(183, 214), 7, 182),
    MonthBranch(Within(214, 245), 8, 213), MonthBranch(Within(245, 275), 9, 244),
    MonthBranch(Within(275, 306), 10, 274), MonthBranch(Within(306, 336), 11, 305),
    MonthBranch(AtLeast(336), 12, 335)]

  /** The branches of the chain for the other years, in source order. */
  const PlainChain: seq<MonthBranch> := [
    MonthBranch(Below(32), 1, 0), MonthBranch(Within(32, 60), 2, 31), MonthBranch(Within(60, 91), 3, 59),
    MonthBranch(Within(91, 121), 4, 90), MonthBranch(Within(121, 152), 5, 120),
    MonthBranch(Within(152, 182), 6, 151), MonthBranch(Within(182, 213), 7, 181),
    MonthBranch(Within(213, 244), 8, 212), MonthBranch(Within(244, 274), 9, 243),
    MonthBranch(Within(274, 305), 10, 273), MonthBranch(Within(305, 335), 11, 304),
    MonthBranch(AtLeast(335), 12, 334)]

  /** The branch for month `k + 1` of the Gregorian calendar: it tests for
      the 1-based days of that month and subtracts the days before it. */
  function CalendarBranch(leap: bool, k: nat): MonthBranch
    requires k < 12
  {
    MonthBranch(
      if k == 0 then Below(DaysBeforeMonth(2, leap) + 1)
      else if k == 11 then AtLeast(DaysBeforeMonth(12, leap) + 1)
      else Within(DaysBeforeMonth(k + 1, leap) + 1, DaysBeforeMonth(k + 2, leap) + 1),
      k + 1, DaysBeforeMonth(k + 1, leap))
  }

  /** Branch `k` of `chain` is the branch for month `k + 1`. */
  predicate FollowsCalendar(chain: seq<MonthBranch>, leap: bool)
  {
    |chain| == 12 && forall k: nat :: k < 12 ==> chain[k] == CalendarBranch(leap, k)
  }

  /** The chain `UTtoT` runs: the leap-year one when `cony == 0`. */
  function ChainFor(leap: bool): seq<MonthBranch>
  {
    if leap then LeapChain else PlainChain
  }

  /** The leap-year chain's ranges and offsets are those of the Gregorian
      months of a leap year. */
  lemma LeapChainIsCalendar()
    ensures FollowsCalendar(LeapChain, true)
  {
    forall k: nat | k < 12
      ensures LeapChain[k] == CalendarBranch(true, k)
    {
    }
  }

  /** The other chain's are those of a common year. */
  lemma PlainChainIsCalendar()
    ensures FollowsCalendar(PlainChain, false)
  {
    forall k: nat | k < 12
      ensures PlainChain[k] == CalendarBranch(false, k)
    {
    }
  }

  lemma ChainIsCalendar(leap: bool)
    ensures FollowsCalendar(ChainFor(leap), leap)
  {
    if leap {
      LeapChainIsCalendar();
    } else {
      PlainChainIsCalendar();
    }
  }

  /** The branches from `k` on, each tested on the day as the branches
      before it left it, applied to the pair (mon, day). */
  function RunChain(chain: seq<MonthBranch>, k: nat, md: (int, int)): (int, int)
    requires k <= |chain|
    decreases |chain| - k
  {
    if k == |chain| then md
    else
      var b := chain[k];
      RunChain(chain, k + 1, if Holds(b.test, md.1) then (b.month, md.1 - b.off) else md)
  }

  /** What the first `k` branches make of (0, `day`): the month and day of
      month of the 1-based day `day` once its branch has run, (0, `day`)
      before. */
  function ChainState(day: int, leap: bool, k: int): (int, int)
  {
    var m := MonthOf(day - 1, leap);
    if m <= k then (m, day - DaysBeforeMonth(m, leap)) else (0, day)
  }

  /** Branch `k` moves the state past it: it fires for the days of its own
      month only, and no branch fires on a day it has already reduced. */
  lemma ChainStep(chain: seq<MonthBranch>, leap: bool, day: int, k: nat)
    requires FollowsCalendar(chain, leap) && k < 12
    ensures var md := ChainState(day, leap, k); var b := chain[k];
      (if Holds(b.test, md.1) then (b.month, md.1 - b.off) else md) == ChainState(day, leap, k + 1)
  {
    var m := MonthOf(day - 1, leap);
    if m <= k && m < 12 {
      MonthsIncrease(2, k + 1, leap);
    }
  }

  lemma {:induction false} RunChainState(chain: seq<MonthBranch>, leap: bool, day: int, k: nat)
    requires FollowsCalendar(chain, leap) && k <= 12
    ensures RunChain(chain, k, ChainState(day, leap, k)) == ChainState(day, leap, 12)
    decreases 12 - k
  {
    if k < 12 {
      ChainStep(chain, leap, day, k);
      RunChainState(chain, leap, day, k + 1);
    }
  }

  /** The month chain run on the 1-based day `day` of a year: exactly the
      branch whose range holds `day` fires, so the result is the month of
      that day and the day of that month. */
  function Months(leap: bool, day: int): (md: (int, int))
    ensures md == (MonthOf(day - 1, leap), day - DaysBeforeMonth(MonthOf(day - 1, leap), leap))
  {
    ChainIsCalendar(leap);
    RunChainState(ChainFor(leap), leap, day, 0);
    RunChain(ChainFor(leap), 0, (0, day))
  }

  /** The chain run on the 1-based day `d + 1`. */
  lemma MonthsOfDay(leap: bool, d: int)
    ensures Months(leap, d + 1) == (MonthOf(d, leap), d + 1 - DaysBeforeMonth(MonthOf(d, leap), leap))
  {
    var md := Months(leap, d + 1);
    assert d + 1 - 1 == d;
  }

  /** `hou`, `min` and `sec`: the rest of the day split by truncating
      division into hours, minutes and seconds. */
  function Clock(rest: int): (hms: (int, int, int))
    ensures hms.0 * 3600 + hms.1 * 60 + hms.2 == rest
  {
    var hou := TruncDiv(rest, 3600);
    var rest := rest - hou * 3600;
    var min := TruncDiv(rest, 60);
    (hou, min, rest - min * 60)
  }

  /** Within a day the split is the usual one. */
  lemma ClockOfDay(rest: int)
    requires 0 <= rest < SecondsPerDay
    ensures Clock(rest) == (rest / 3600, rest / 60 % 60, rest % 60)
    ensures 0 <= rest / 3600 < 24 && 0 <= rest / 60 % 60 < 60 && 0 <= rest % 60 < 60
  {
    ClockParts(rest);
  }

  /** `UTtoT`: the estimated year, the day counted from that year's start
      (made 1-based in the leap branch), the month chain, and the rest of
      the day split into hours, minutes and seconds; nanoseconds are 0. */
  function UTtoT(utime: int): (ts: TimeStamp)
    requires UTtoTInRange(utime)
    ensures ts.nanosecond == 0 && 1 <= ts.month <= 12 && ts.year == EstimatedYear(utime)
  {
    var yea := EstimatedYear(utime);
    var yes := YearStart(yea);
    var cony := TruncRem(yea - 1972, 4);
    var day := TruncDiv(utime - yes, SecondsPerDay);
    var md := Months(cony == 0, if cony == 0 then day + 1 else day);
    var hms := Clock(utime - yes - day * SecondsPerDay);
    TimeStamp(yea, md.0, md.1, hms.0, hms.1, hms.2, 0)
  }

  /** The fields of `UTtoT`'s result are the rest of the day split into
      hours, minutes and seconds whenever `utime` is not before the year
      start it computed. */
  lemma UTtoTClock(utime: int)
    requires UTtoTInRange(utime) && utime >= YearStart(EstimatedYear(utime))
    ensures var ts := UTtoT(utime);
      0 <= ts.hour < 24 && 0 <= ts.minute < 60 && 0 <= ts.second < 60 &&
      ts.hour * 3600 + ts.minute * 60 + ts.second == utime % SecondsPerDay
  {
    var yes := YearStart(EstimatedYear(utime));
    var day := TruncDiv(utime - yes, SecondsPerDay);
    var rest := utime - yes - day * SecondsPerDay;
    UTtoTParts(utime);
    ClockOfDay(rest);
    DivModUnique(utime, SecondsPerDay, yes / SecondsPerDay + day, rest);
  }

  /** Between 1901 and 2099 the Gregorian leap years are the multiples of
      four. */
  lemma LeapInRange(y: int)
    requires 1901 <= y <= 2099
    ensures IsLeapYear(y) <==> y % 4 == 0
  {
    if y % 100 == 0 {
      assert y == 2000;
    }
  }

  /** `365` days per year after 1970 plus one day per fourth year, counted
      from 1969. */
  function ClosedDays(y: int): int
  {
    (y - 1970) * 365 + (y - 1969) / 4
  }

  /** Between 1901 and 2099 the closed form grows by the length of each
      year. */
  lemma ClosedDaysStep(y: int)
    requires 1901 <= y < 2099
    ensures ClosedDays(y + 1) == ClosedDays(y) + YearLength(y)
  {
    LeapInRange(y);
    QuarterStep(y - 1969);
  }

  /** One more year adds a leap day to the count `x / 4` exactly when it
      completes a group of four. */
  lemma QuarterStep(x: int)
    ensures (x + 1) / 4 == x / 4 + if (x + 1) % 4 == 0 then 1 else 0
  {
  }

  /** Between 1901 and 2099 a year starts `365` days per year after 1970
      plus one day per leap year between. */
  lemma {:induction false} DaysFromEpochClosed(y: int)
    requires 1901 <= y <= 2099
    ensures DaysFromEpoch(y) == ClosedDays(y)
    decreases if y >= 1970 then y - 1970 else 1970 - y
  {
    if y > 1970 {
      DaysFromEpochClosed(y - 1);
      DaysFromEpochStep(y - 1);
      ClosedDaysStep(y - 1);
    } else if y < 1970 {
      DaysFromEpochClosed(y + 1);
      DaysFromEpochStep(y);
      ClosedDaysStep(y);
    }
  }

  /** `UTtoT`'s truncating leap count against the true one: it matches for
      leap years and for the years before 1973, and is one short for the
      common years after 1972. */
  lemma TruncLeapCount(y: int)
    requires 1901 <= y <= 2099
    ensures TruncDiv(y - 1972, 4) == (y - 1969) / 4 - if y > 1972 && y % 4 != 0 then 1 else 0
    ensures TruncRem(y - 1972, 4) == 0 <==> y % 4 == 0
  {
  }

  /** `yes` is the first second of year `yea` for leap years and for the
      years up to 1972, and one day before it for the common years after
      1972; `cony == 0` picks out the leap years. */
  lemma YearStartVsCalendar(yea: int)
    requires 1901 <= yea <= 2099
    ensures YearStart(yea) == (DaysFromEpoch(yea) - if yea > 1972 && !IsLeapYear(yea) then 1 else 0) * SecondsPerDay
    ensures TruncRem(yea - 1972, 4) == 0 <==> IsLeapYear(yea)
  {
    TruncLeapCount(yea);
    DaysFromEpochClosed(yea);
    LeapInRange(yea);
  }

  /** `UTtoT` on a second whose year is its 365-day estimate `y`: the day
      count it makes is the 0-based day of the year `doy` for leap years and
      for the common years after 1972 (where `yes` is a day early and the
      leap branch adds no 1) and `doy - 1` in 1970 and 1971; the month is
      the Gregorian month of that day and the rest is the time of day. */
  lemma UTtoTKnownYear(t: int, doy: int, secs: int)
    requires 0 <= t < 69 * SecondsPerYear
    requires 0 <= doy + (if EstimatedYear(t) > 1972 && !IsLeapYear(EstimatedYear(t)) then 1 else 0)
    requires 0 <= secs < SecondsPerDay
    requires t == (DaysFromEpoch(EstimatedYear(t)) + doy) * SecondsPerDay + secs
    ensures var y := EstimatedYear(t);
      var leap := IsLeapYear(y);
      var d := if leap || y > 1972 then doy else doy - 1;
      var m := MonthOf(d, leap);
      UTtoT(t) == TimeStamp(y, m, d + 1 - DaysBeforeMonth(m, leap), secs / 3600, secs / 60 % 60, secs % 60, 0)
  {
    EstimatedYearRange(t);
    KnownYearDay(t, EstimatedYear(t), doy, secs);
    UTtoTOfDay(t, if IsLeapYear(EstimatedYear(t)) || EstimatedYear(t) > 1972 then doy else doy - 1, secs);
  }

  /** `UTtoT` once its day count is known to be `d`, plus one in common
      years, and the rest of the day `secs`. */
  lemma UTtoTOfDay(t: int, d: int, secs: int)
    requires UTtoTInRange(t) && 0 <= secs < SecondsPerDay
    requires var y := EstimatedYear(t); var leap := IsLeapYear(y);
      var day := d + if leap then 0 else 1;
      (TruncRem(y - 1972, 4) == 0 <==> leap) &&
      TruncDiv(t - YearStart(y), SecondsPerDay) == day &&
      t - YearStart(y) - day * SecondsPerDay == secs
    ensures var y := EstimatedYear(t); var leap := IsLeapYear(y); var m := MonthOf(d, leap);
      UTtoT(t) == TimeStamp(y, m, d + 1 - DaysBeforeMonth(m, leap), secs / 3600, secs / 60 % 60, secs % 60, 0)
  {
    UTtoTParts(t);
    ClockOfDay(secs);
    MonthsOfDay(IsLeapYear(EstimatedYear(t)), d);
  }

  /** `UTtoT` put together from the values of its intermediates. */
  lemma UTtoTParts(t: int)
    requires UTtoTInRange(t)
    ensures var yea := EstimatedYear(t);
      var yes := YearStart(yea);
      var cony := TruncRem(yea - 1972, 4);
      var day := TruncDiv(t - yes, SecondsPerDay);
      var md := Months(cony == 0, if cony == 0 then day + 1 else day);
      var hms := Clock(t - yes - day * SecondsPerDay);
      UTtoT(t) == TimeStamp(yea, md.0, md.1, hms.0, hms.1, hms.2, 0)
  {
  }

  /** The day count and the rest of the day `UTtoT` computes for such a
      second. */
  lemma KnownYearDay(t: int, y: int, doy: int, secs: int)
    requires 1970 <= y <= 2099
    requires 0 <= doy + (if y > 1972 && !IsLeapYear(y) then 1 else 0)
    requires 0 <= secs < SecondsPerDay && t == (DaysFromEpoch(y) + doy) * SecondsPerDay + secs
    ensures var leap := IsLeapYear(y);
      var day := (if leap || y > 1972 then doy else doy - 1) + if leap then 0 else 1;
      (TruncRem(y - 1972, 4) == 0 <==> leap) &&
      TruncDiv(t - YearStart(y), SecondsPerDay) == day &&
      t - YearStart(y) - day * SecondsPerDay == secs
  {
    YearStartVsCalendar(y);
    var e := if y > 1972 && !IsLeapYear(y) then 1 else 0;
    assert t - YearStart(y) == (doy + e) * SecondsPerDay + secs;
    DivModUnique(t - YearStart(y), SecondsPerDay, doy + e, secs);
  }

  /** The Gregorian fields of the second `secs` of 0-based day `doy` of
      year `y`. */
  lemma CivilFields(t: int, y: int, doy: int, secs: int)
    requires 0 <= doy < YearLength(y) && 0 <= secs < SecondsPerDay
    requires t == (DaysFromEpoch(y) + doy) * SecondsPerDay + secs
    ensures var leap := IsLeapYear(y); var m := MonthOf(doy, leap);
      CivilFromUnix(t) == TimeStamp(y, m, doy - DaysBeforeMonth(m, leap) + 1, secs / 3600, secs / 60 % 60, secs % 60, 0)
  {
    DivModUnique(t, SecondsPerDay, DaysFromEpoch(y) + doy, secs);
    var yd := FindYear(1970, DaysFromEpoch(y) + doy);
    YearUnique(yd.0, yd.1, y, doy);
  }

  /** From 1972 on, when the estimated year is the true year, `UTtoT`
      gives the Gregorian date and time. */
  lemma UTtoTRightYears(t: int)
    requires 0 <= t < 69 * SecondsPerYear
    requires 1972 <= CivilFromUnix(t).year == EstimatedYear(t)
    ensures UTtoT(t) == CivilFromUnix(t)
  {
    var yd := FindYear(1970, t / SecondsPerDay);
    var y, doy, secs := yd.0, yd.1, t % SecondsPerDay;
    CivilFields(t, y, doy, secs);
    assert IsLeapYear(y) || y > 1972;
    UTtoTKnownYear(t, doy, secs);
  }

  /** In 1970 and 1971 `UTtoT` is always a day behind the Gregorian
      date. */
  lemma UTtoTEarlyYears(t: int)
    requires 0 <= t < 69 * SecondsPerYear && CivilFromUnix(t).year < 1972
    ensures UTtoT(t) != CivilFromUnix(t)
  {
    var yd := FindYear(1970, t / SecondsPerDay);
    var y, doy, secs := yd.0, yd.1, t % SecondsPerDay;
    CivilFields(t, y, doy, secs);
    if y == EstimatedYear(t) {
      UTtoTKnownYear(t, doy, secs);
    }
  }

  /** For a unix second from 1970 on, `UTtoT` gives the Gregorian date and
      time exactly when the true year is 1972 or later and the 365-day
      estimate of the year is the true year: in 1970 and 1971 it gives the
      day before (day 0 for the first of a month), and in the last days of
      a year it gives day 0 or less of the next year. */
  lemma UTtoTMatchesCivil(t: int)
    requires 0 <= t < 69 * SecondsPerYear
    ensures UTtoT(t) == CivilFromUnix(t) <==>
      1972 <= CivilFromUnix(t).year && CivilFromUnix(t).year == EstimatedYear(t)
  {
    if CivilFromUnix(t).year < 1972 {
      UTtoTEarlyYears(t);
    } else if CivilFromUnix(t).year == EstimatedYear(t) {
      UTtoTRightYears(t);
    }
  }

  // ----------------------------------------------------------------------
  // TtoUT: a time stamp to a unix second.

  predicate IsInt32(x: int)
  {
    -0x8000_0000 <= x < 0x8000_0000
  }

  /** The `int` terms `TtoUT` adds, left to right. */
  function TtoUTTerms(ts: TimeStamp): seq<int>
  {
    [(ts.year - 1970) * SecondsPerYear, TruncDiv(ts.year - 1968, 4) * SecondsPerDay,
     (ts.month - 1) * 31 * SecondsPerDay, (ts.day - 1) * SecondsPerDay,
     ts.hour * 3600, ts.minute * 60, ts.second]
  }

  /** `TtoUT` adds its terms in `int` and only then widens the sum to `long
      long`: every term and every partial sum must fit in 32 bits. */
  predicate TtoUTInRange(ts: TimeStamp)
  {
    var a := TtoUTTerms(ts);
    IsInt32(a[0]) && IsInt32(a[1]) && IsInt32(a[2]) && IsInt32(a[3]) &&
    IsInt32(a[4]) && IsInt32(a[5]) && IsInt32(a[6]) &&
    IsInt32(a[0] + a[1]) && IsInt32(a[0] + a[1] + a[2]) &&
    IsInt32(a[0] + a[1] + a[2] + a[3]) && IsInt32(a[0] + a[1] + a[2] + a[3] + a[4]) &&
    IsInt32(a[0] + a[1] + a[2] + a[3] + a[4] + a[5]) &&
    IsInt32(a[0] + a[1] + a[2] + a[3] + a[4] + a[5] + a[6])
  }

  /** The days `TtoUT` takes off for months 3 to 12, after counting every
      month as 31 days long. */
  function MonthCorrection(month: int): (days: int)
    ensures 0 <= days <= 7
  {
    if month == 3 then 3
    else if month == 4 then 3
    else if month == 5 then 4
    else if month == 6 then 4
    else if month == 7 then 5
    else if month == 8 then 5
    else if month == 9 then 5
    else if month == 10 then 6
    else if month == 11 then 6
    else if month == 12 then 7
    else 0
  }

  /** 31 days per month less the correction are the days before the month
      in a common year. */
  lemma CorrectionIsCommonYear(month: int)
    requires 1 <= month <= 12
    ensures (month - 1) * 31 - MonthCorrection(month) == DaysBeforeMonth(month, false)
  {
  }

  /** `utime` in `long long`: the sum of the terms less the correction. */
  function TtoUTSigned(ts: TimeStamp): int
    requires TtoUTInRange(ts)
  {
    var a := TtoUTTerms(ts);
    a[0] + a[1] + a[2] + a[3] + a[4] + a[5] + a[6] - MonthCorrection(ts.month) * SecondsPerDay
  }

  /** With the corrections applied, `TtoUT` counts the days before the
      month from the cumulative table of a common year. */
  lemma TtoUTTable(ts: TimeStamp)
    requires TtoUTInRange(ts) && 1 <= ts.month <= 12
    ensures TtoUTSigned(ts) ==
      (ts.year - 1970) * SecondsPerYear + TruncDiv(ts.year - 1968, 4) * SecondsPerDay +
      DaysBeforeMonth(ts.month, false) * SecondsPerDay + (ts.day - 1) * SecondsPerDay +
      ts.hour * 3600 + ts.minute * 60 + ts.second
  {
    CorrectionIsCommonYear(ts.month);
  }

  /** Within a year and month, one more day, hour, minute or second adds
      that many seconds. */
  lemma TtoUTIncrements(ts: TimeStamp)
    requires TtoUTInRange(ts)
    ensures TtoUTInRange(ts.(day := ts.day + 1)) ==> TtoUTSigned(ts.(day := ts.day + 1)) == TtoUTSigned(ts) + SecondsPerDay
    ensures TtoUTInRange(ts.(hour := ts.hour + 1)) ==> TtoUTSigned(ts.(hour := ts.hour + 1)) == TtoUTSigned(ts) + 3600
    ensures TtoUTInRange(ts.(minute := ts.minute + 1)) ==> TtoUTSigned(ts.(minute := ts.minute + 1)) == TtoUTSigned(ts) + 60
    ensures TtoUTInRange(ts.(second := ts.second + 1)) ==> TtoUTSigned(ts.(second := ts.second + 1)) == TtoUTSigned(ts) + 1
  {
  }

  /** `TtoUT`: `utime` returned as `unsigned long long`, so that a negative
      value wraps around modulo 2^64. */
  function TtoUT(ts: TimeStamp): (u: nat)
    requires TtoUTInRange(ts)
    ensures u < 0x1_0000_0000_0000_0000
    ensures TtoUTSigned(ts) >= 0 ==> u == TtoUTSigned(ts)
    ensures TtoUTSigned(ts) < 0 ==> u == TtoUTSigned(ts) + 0x1_0000_0000_0000_0000
  {
    TtoUTSigned(ts) % 0x1_0000_0000_0000_0000
  }

  /** From 1970 on `TtoUT`'s leap count `(year - 1968) / 4` already counts
      the leap day of the current leap year: `TtoUT` is the unix second of
      the date, except in January and February of a leap year, where it is
      one day late. */
  lemma TtoUTVsCivil(ts: TimeStamp)
    requires TtoUTInRange(ts) && 1 <= ts.month <= 12 && ts.year >= 1970
    ensures TtoUTSigned(ts) == UnixFromCivil(ts) + if IsLeapYear(ts.year) && ts.month <= 2 then SecondsPerDay else 0
  {
    var y := ts.year;
    assert y <= 2038;
    DaysFromEpochClosed(y);
    LeapInRange(y);
    QuarterStep(y - 1969);
    CorrectionIsCommonYear(ts.month);
  }

  /** A real date from 1970 on goes to a second from 1970 on: the value never
      wraps around. */
  lemma TtoUTNoWrap(ts: TimeStamp)
    requires TtoUTInRange(ts) && ValidDate(ts) && ts.year >= 1970
    ensures TtoUT(ts) == TtoUTSigned(ts)
  {
    TtoUTVsCivil(ts);
    DaysFromEpochNonNegative(ts.year);
  }

  lemma {:induction false} DaysFromEpochNonNegative(y: int)
    requires y >= 1970
    ensures DaysFromEpoch(y) >= 0
    decreases y - 1970
  {
    if y > 1970 {
      DaysFromEpochNonNegative(y - 1);
    }
  }

  /** `TtoUT` undoes `UTtoT` wherever `UTtoT` gives the Gregorian date and
      the date is not in January or February of a leap year. */
  lemma TtoUTAfterUTtoT(t: int)
    requires 0 <= t < 69 * SecondsPerYear
    requires 1972 <= CivilFromUnix(t).year == EstimatedYear(t)
    requires !(IsLeapYear(CivilFromUnix(t).year) && CivilFromUnix(t).month <= 2)
    requires TtoUTInRange(UTtoT(t))
    ensures TtoUT(UTtoT(t)) == t
  {
    UTtoTMatchesCivil(t);
    var ts := CivilFromUnix(t);
    TtoUTVsCivil(ts);
    CivilRoundTrip(t);
  }

  /** `UTtoT` undoes `TtoUT` on a real date from 1972 on outside January and
      February of leap years, when its 365-day estimate of the year is
      right. */
  lemma UTtoTAfterTtoUT(ts: TimeStamp)
    requires TtoUTInRange(ts) && ValidDate(ts) && ts.nanosecond == 0
    requires 1972 <= ts.year && !(IsLeapYear(ts.year) && ts.month <= 2)
    requires TtoUT(ts) < 69 * SecondsPerYear && EstimatedYear(TtoUT(ts)) == ts.year
    ensures UTtoT(TtoUT(ts)) == ts
  {
    TtoUTNoWrap(ts);
    TtoUTVsCivil(ts);
    UnixRoundTrip(ts);
    UTtoTRightYears(TtoUT(ts));
  }

  // ----------------------------------------------------------------------
  // Inputs on which the functions as written and the calendar part.

  /** The epoch: `UTtoT(0)` is day 0 of January 1970; in 1970 and 1971
      the common-year chain runs on a 0-based day. */
  lemma UTtoTEpochDayZero()
    ensures UTtoT(0) == TimeStamp(1970, 1, 0, 0, 0, 0, 0)
  {
    UTtoTKnownYear(0, 0, 0);
  }

  /** On the calendar the epoch is day 1 of January 1970. */
  lemma CivilEpoch()
    ensures CivilFromUnix(0) == TimeStamp(1970, 1, 1, 0, 0, 0, 0)
  {
    CivilFields(0, 1970, 0, 0);
  }

  /** The last day of 1973: four 365-day years have passed, so `UTtoT`
      already reckons it in 1974, as day 0 of January. */
  lemma UTtoTYearRollover()
    ensures UTtoT(126144000) == TimeStamp(1974, 1, 0, 0, 0, 0, 0)
  {
    DaysFromEpochClosed(1974);
    UTtoTKnownYear(126144000, -1, 0);
  }

  /** The same second is 31 December 1973 on the calendar. */
  lemma CivilYearRollover()
    ensures CivilFromUnix(126144000) == TimeStamp(1973, 12, 31, 0, 0, 0, 0)
  {
    DaysFromEpochClosed(1973);
    CivilFields(126144000, 1973, 364, 0);
    assert MonthOf(364, false) == 12;
  }

  /** 29 February and 1 March 1972 go to the same second under `TtoUT`,
      the second of 1 March; the leap day itself starts a day earlier. */
  lemma TtoUTLeapDayCollision()
    ensures TtoUTInRange(TimeStamp(1972, 2, 29, 0, 0, 0, 0)) && TtoUTInRange(TimeStamp(1972, 3, 1, 0, 0, 0, 0))
    ensures TtoUT(TimeStamp(1972, 2, 29, 0, 0, 0, 0)) == 68256000
    ensures TtoUT(TimeStamp(1972, 3, 1, 0, 0, 0, 0)) == 68256000
    ensures UnixFromCivil(TimeStamp(1972, 2, 29, 0, 0, 0, 0)) == 68169600
    ensures UnixFromCivil(TimeStamp(1972, 3, 1, 0, 0, 0, 0)) == 68256000
  {
    DaysFromEpochClosed(1972);
  }

  /** The `int` sum of `TtoUT` reaches its last value at 03:14:07 on
      19 January 2038; one second later it overflows, and that date is
      outside the model's domain. */
  lemma TtoUTLastSecond()
    ensures TtoUTInRange(TimeStamp(2038, 1, 19, 3, 14, 7, 0))
    ensures TtoUT(TimeStamp(2038, 1, 19, 3, 14, 7, 0)) == 0x7fff_ffff
    ensures !TtoUTInRange(TimeStamp(2038, 1, 19, 3, 14, 8, 0))
  {
  }
}
