/**
  The intensity tier of a bucket and the summary figures the component
  computes. Fees are integer lamports.
 */
module Statistics {
  import opened Calendar
  import opened Seqs
  import opened Transactions
  import opened HeatmapGrid

  /** The least count of each tier 0..4. */
  const TierFloor: seq<int> := [0, 1, 2, 4, 7]

  /**
    `getIntensity`: the tier of a day's count, fixed thresholds and no
    scaling against the busiest day.
   */
  function Intensity(count: nat): (tier: nat)
    ensures tier <= 4
    ensures TierFloor[tier] <= count
    ensures tier < 4 ==> count < TierFloor[tier + 1]
  {
    if count == 0 then 0
    else if count == 1 then 1
    else if count <= 3 then 2
    else if count <= 6 then 3
    else 4
  }

  /** A larger count never gets a lower tier. */
  lemma IntensityMonotone(a: nat, b: nat)
    requires a <= b
    ensures Intensity(a) <= Intensity(b)
  {
  }

  predicate Active(d: DayData) {
    d.count > 0
  }

  /** `heatmapData.filter((d) => d.count > 0).length`: the days with a transaction. */
  function ActiveDays(days: seq<DayData>): (n: nat)
    ensures n <= |days|
  {
    |Filter(days, d => Active(d))|
  }

  /** No day is active exactly when every count is zero. */
  lemma ActiveDaysZero(days: seq<DayData>)
    ensures ActiveDays(days) == 0 <==> forall i :: 0 <= i < |days| ==> days[i].count == 0
  {
    var r := Filter(days, d => Active(d));
    if r != [] {
      assert Active(r[0]) && r[0] in days;
    }
    if exists i :: 0 <= i < |days| && days[i].count > 0 {
      var i :| 0 <= i < |days| && days[i].count > 0;
      assert days[i] in r;
    }
  }

  /** Every active day holds at least one transaction. */
  lemma {:induction false} ActiveDaysAtMostSum(days: seq<DayData>)
    ensures ActiveDays(days) <= SumCounts(days)
  {
    if days != [] {
      ActiveDaysAtMostSum(days[..|days| - 1]);
    }
  }

  /** At most 371 active days, and never more than there are transactions. */
  lemma GridActiveDays(txs: seq<Transaction>, today: int)
    ensures ActiveDays(Grid(txs, today)) <= DayCount
    ensures ActiveDays(Grid(txs, today)) <= |txs|
  {
    ActiveDaysAtMostSum(Grid(txs, today));
    GridCountTotal(txs, today);
  }

  /** `Math.max(...heatmapData.map((d) => d.count))` on a non-empty grid: the busiest day's count. */
  function PeakCount(days: seq<DayData>): (peak: int)
    requires |days| > 0
    ensures forall i :: 0 <= i < |days| ==> days[i].count <= peak
    ensures exists i :: 0 <= i < |days| && days[i].count == peak
  {
    if |days| == 1 then days[0].count
    else
      var rest := PeakCount(days[..|days| - 1]);
      var last := days[|days| - 1].count;
      assert forall i :: 0 <= i < |days| - 1 ==> days[..|days| - 1][i] == days[i];
      if rest < last then last else rest
  }

  /** `Math.max(...heatmapData.map((d) => d.count), 1)`: the busiest count, floored at 1. */
  function MaxCount(days: seq<DayData>): (m: int)
    ensures 1 <= m
    ensures forall i :: 0 <= i < |days| ==> days[i].count <= m
    ensures m == 1 || exists i :: 0 <= i < |days| && days[i].count == m
  {
    if days == [] then 1
    else
      var peak := PeakCount(days);
      if peak < 1 then 1 else peak
  }

  /** `transactions.reduce((sum, tx) => sum + fee, 0)`: total fees in lamports. */
  function TotalFees(txs: seq<Transaction>): (total: int)
    ensures (forall i :: 0 <= i < |txs| ==> Fee(txs[i]) == 0) ==> total == 0
    ensures FeesNonNegative(txs) ==> 0 <= total
    ensures FeesNonNegative(txs) ==> forall i :: 0 <= i < |txs| ==> Fee(txs[i]) <= total
  {
    if txs == [] then 0
    else
      var prefix := txs[..|txs| - 1];
      assert forall i :: 0 <= i < |prefix| ==> prefix[i] == txs[i];
      TotalFees(prefix) + Fee(txs[|txs| - 1])
  }

  /**
    Today's fees: the same sum over the transactions whose day key is today.
    It is 0 when no transaction is from today and the total when all are.
   */
  function TodayFees(txs: seq<Transaction>, today: int): (fees: int)
    ensures (forall i :: 0 <= i < |txs| ==> DayKey(txs[i]) != today) ==> fees == 0
    ensures (forall i :: 0 <= i < |txs| ==> DayKey(txs[i]) == today) ==> fees == TotalFees(txs)
  {
    OnDayExtremes(txs, today);
    TotalFees(OnDay(txs, today))
  }

  predicate FeesNonNegative(txs: seq<Transaction>) {
    forall i :: 0 <= i < |txs| ==> Fee(txs[i]) >= 0
  }

  /** The fee sum of a concatenation is the sum of the fee sums. */
  lemma {:induction false} TotalFeesConcat(a: seq<Transaction>, b: seq<Transaction>)
    ensures TotalFees(a + b) == TotalFees(a) + TotalFees(b)
    decreases |b|
  {
    if b == [] {
      assert a + b == a;
    } else {
      assert (a + b)[..|a + b| - 1] == a + b[..|b| - 1];
      TotalFeesConcat(a, b[..|b| - 1]);
    }
  }

  /** With non-negative fees, the fees of any filtered part are between 0 and the total. */
  lemma {:induction false} FilteredFeesAtMostTotal(txs: seq<Transaction>, p: Transaction -> bool)
    requires FeesNonNegative(txs)
    ensures 0 <= TotalFees(Filter(txs, p)) <= TotalFees(txs)
  {
    if txs != [] {
      var n := |txs| - 1;
      var prefix := txs[..n];
      assert FeesNonNegative(prefix) by {
        assert forall i :: 0 <= i < n ==> prefix[i] == txs[i];
      }
      FilteredFeesAtMostTotal(prefix, p);
      var tail := if p(txs[n]) then [txs[n]] else [];
      assert Filter(txs, p) == Filter(prefix, p) + tail;
      TotalFeesConcat(Filter(prefix, p), tail);
      assert TotalFees(tail) == if p(txs[n]) then Fee(txs[n]) else 0 by {
        assert [txs[n]][..0] == [];
      }
      assert TotalFees(txs) == TotalFees(prefix) + Fee(txs[n]);
    }
  }

  /** With non-negative fees, today's fees never exceed the total fees. */
  lemma TodayFeesAtMostTotal(txs: seq<Transaction>, today: int)
    requires FeesNonNegative(txs)
    ensures 0 <= TodayFees(txs, today) <= TotalFees(txs)
  {
    FilteredFeesAtMostTotal(txs, tx => OnDayPred(today, tx));
  }

  /** Today's fees are the fees of the transactions in today's bucket of the grid. */
  lemma TodayFeesInGrid(txs: seq<Transaction>, today: int)
    ensures TodayFees(txs, today) == TotalFees(Grid(txs, today)[364 + Weekday(today)].transactions)
  {
    var i := 364 + Weekday(today);
    assert GridStart(today) + i == today;
    assert Grid(txs, today)[i].transactions == OnDay(txs, today);
  }

  predicate AtOrAfter(fromMs: int, tx: Transaction) {
    TimeValue(tx) >= fromMs
  }

  /** The transactions at or after time value `fromMs`. */
  function Since(txs: seq<Transaction>, fromMs: int): seq<Transaction> {
    Filter(txs, tx => AtOrAfter(fromMs, tx))
  }

  /** The one-year count: transactions at or after the same instant one calendar year ago. */
  function YearCount(txs: seq<Transaction>, nowMs: int): (n: nat)
    ensures n <= |txs|
  {
    |Since(txs, OneYearBefore(nowMs))|
  }

  /**
    The one-year window reaches back 365 or 366 days: the count includes
    everything of the last 365 days and nothing older than 366 days.
   */
  lemma YearCountWindow(txs: seq<Transaction>, nowMs: int)
    ensures |Since(txs, nowMs - 365 * MsPerDay)| <= YearCount(txs, nowMs)
    ensures YearCount(txs, nowMs) <= |Since(txs, nowMs - 366 * MsPerDay)|
  {
    OneYearBeforeSpan(nowMs);
    var from := OneYearBefore(nowMs);
    FilterWeaker(txs, tx => AtOrAfter(nowMs - 365 * MsPerDay, tx), tx => AtOrAfter(from, tx));
    FilterWeaker(txs, tx => AtOrAfter(from, tx), tx => AtOrAfter(nowMs - 366 * MsPerDay, tx));
  }

  /**
    The figures the component computes (fees in lamports). `maxCount` and
    today's fees are computed but never displayed.
   */
  datatype Summary = Summary(
    totalTransactions: nat,
    yearTransactions: nat,
    activeDays: nat,
    busiestDay: int,
    maxCount: int,
    totalFees: int,
    todayFees: int)

  /** The summary for `txs` at clock reading `nowMs`, from its grid `days`. */
  function Summarize(txs: seq<Transaction>, days: seq<DayData>, nowMs: int): (s: Summary)
    requires |days| > 0
    ensures s.totalTransactions == |txs| && s.yearTransactions <= |txs|
    ensures s.activeDays <= |days|
    ensures s.maxCount == (if s.busiestDay < 1 then 1 else s.busiestDay)
  {
    Summary(|txs|, YearCount(txs, nowMs), ActiveDays(days), PeakCount(days), MaxCount(days),
            TotalFees(txs), TodayFees(txs, Today(nowMs)))
  }

  /**
    The figures of a render agree with each other: active days and the
    one-year count never exceed the total, `maxCount` is the busiest
    day's count floored at 1, and with non-negative fees today's fees lie
    between 0 and the total fees. This holds whatever day `gridToday` the
    grid was built for, so also for a grid reused from an earlier render.
   */
  lemma SummaryConsistent(txs: seq<Transaction>, gridToday: int, nowMs: int)
    ensures var s := Summarize(txs, Grid(txs, gridToday), nowMs);
      && s.activeDays <= s.totalTransactions
      && s.activeDays <= DayCount
      && s.yearTransactions <= s.totalTransactions
      && s.maxCount == (if s.busiestDay < 1 then 1 else s.busiestDay)
      && (FeesNonNegative(txs) ==> 0 <= s.todayFees <= s.totalFees)
  {
    GridActiveDays(txs, gridToday);
    if FeesNonNegative(txs) {
      TodayFeesAtMostTotal(txs, Today(nowMs));
    }
  }

  /**
    An empty transaction list gives an all-zero grid and zero figures, with
    maxCount 1, for a grid built on any day.
   */
  lemma EmptyInput(gridToday: int, nowMs: int)
    ensures forall i :: 0 <= i < DayCount ==> Grid([], gridToday)[i].count == 0
    ensures Summarize([], Grid([], gridToday), nowMs) == Summary(0, 0, 0, 0, 1, 0, 0)
  {
    var g := Grid([], gridToday);
    ActiveDaysZero(g);
  }
}
