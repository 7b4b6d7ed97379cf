/**
  The day grid of the heatmap: the transactions grouped by calendar day, and
  53 weeks of day buckets ending in the week of today, each week starting on
  a Sunday.
 */
module HeatmapGrid {
  import opened Calendar
  import opened Seqs
  import opened Transactions

  const WeekCount: int := 53
  const DayCount: int := 53 * 7

  /** One cell of the heatmap. */
  datatype DayData = DayData(
    date: int,
    count: nat,
    transactions: seq<Transaction>,
    dayOfWeek: int,
    weekIndex: int)

  /** Today, the day of the clock reading `nowMs`. */
  function Today(nowMs: int): int {
    DayOfTime(nowMs)
  }

  /**
    The first day of the grid: 52 weeks and today's weekday before today.
    It is the one Sunday 364 to 370 days before today.
   */
  function GridStart(today: int): (start: int)
    ensures Weekday(start) == 0
    ensures 364 <= today - start < DayCount
  {
    today - 52 * 7 - Weekday(today)
  }

  /** The bucket at offset `i` from `start`. */
  function Bucket(txs: seq<Transaction>, start: int, i: int): DayData {
    var date := start + i;
    var dayTransactions := OnDay(txs, date);
    DayData(date, |dayTransactions|, dayTransactions, Weekday(date), i / 7)
  }

  /** The grid the component computes for `txs` on day `today`. */
  function Grid(txs: seq<Transaction>, today: int): (g: seq<DayData>)
    ensures |g| == DayCount
  {
    seq(DayCount, i => Bucket(txs, GridStart(today), i))
  }

  /** Appending a transaction adds it to the list of its own day only. */
  lemma OnDaySnoc(txs: seq<Transaction>, tx: Transaction, day: int)
    ensures OnDay(txs + [tx], day) == OnDay(txs, day) + (if DayKey(tx) == day then [tx] else [])
  {
  }

  /** The map of day lists of `txs`: exactly the days that have transactions, each with its list. */
  ghost predicate GroupedBy(byDay: map<int, seq<Transaction>>, txs: seq<Transaction>) {
    && (forall day :: day in byDay <==> OnDay(txs, day) != [])
    && (forall day :: day in byDay ==> byDay[day] == OnDay(txs, day))
  }

  /** Pushing one more transaction onto its day's list, created if missing, keeps the map grouped. */
  lemma GroupPush(byDay: map<int, seq<Transaction>>, txs: seq<Transaction>, tx: Transaction)
    requires GroupedBy(byDay, txs)
    ensures var key := DayKey(tx);
      GroupedBy(byDay[key := (if key in byDay then byDay[key] else []) + [tx]], txs + [tx])
  {
    var key := DayKey(tx);
    var next := byDay[key := (if key in byDay then byDay[key] else []) + [tx]];
    forall day
      ensures day in next <==> OnDay(txs + [tx], day) != []
      ensures day in next ==> next[day] == OnDay(txs + [tx], day)
    {
      OnDaySnoc(txs, tx, day);
      if day == key {
        assert next[day] == (if key in byDay then OnDay(txs, day) else []) + [tx];
        assert key !in byDay ==> OnDay(txs, key) == [];
      }
    }
  }

  /** The map the grouping pass builds, one transaction at a time from the front. */
  ghost function Grouped(txs: seq<Transaction>): map<int, seq<Transaction>>
    decreases |txs|
  {
    if txs == [] then map[]
    else
      var byDay := Grouped(txs[..|txs| - 1]);
      var key := DayKey(txs[|txs| - 1]);
      byDay[key := (if key in byDay then byDay[key] else []) + [txs[|txs| - 1]]]
  }

  /** The map built from `txs` holds exactly the day lists of `txs`. */
  lemma {:induction false} GroupedHoldsDays(txs: seq<Transaction>)
    ensures GroupedBy(Grouped(txs), txs)
    decreases |txs|
  {
    if txs != [] {
      var prefix := txs[..|txs| - 1];
      GroupedHoldsDays(prefix);
      GroupPush(Grouped(prefix), prefix, txs[|txs| - 1]);
      assert prefix + [txs[|txs| - 1]] == txs;
    }
  }

  /**
    The grouping pass: every transaction is pushed onto the list of its day
    key, the list being created on first use.
   */
  method GroupByDay(txs: seq<Transaction>) returns (byDay: map<int, seq<Transaction>>)
    ensures forall day :: day in byDay <==> OnDay(txs, day) != []
    ensures forall day :: day in byDay ==> byDay[day] == OnDay(txs, day)
  {
    byDay := map[];
    var i := 0;
    while i < |txs|
      invariant 0 <= i <= |txs|
      invariant byDay == Grouped(txs[..i])
    {
      var tx := txs[i];
      var key := DayKey(tx);
      ghost var next := byDay[key := (if key in byDay then byDay[key] else []) + [tx]];
      if key !in byDay {
        byDay := byDay[key := []];
      }
      byDay := byDay[key := byDay[key] + [tx]];
      assert byDay == next;
      assert txs[..i + 1][..i] == txs[..i];
      i := i + 1;
    }
    assert txs[..i] == txs;
    GroupedHoldsDays(txs);
  }

  /**
    The body of the memoised computation: group the transactions by day,
    then emit the 371 buckets from the grid start onward.
   */
  method HeatmapData(txs: seq<Transaction>, today: int) returns (days: seq<DayData>)
    ensures days == Grid(txs, today)
  {
    var byDay := GroupByDay(txs);
    var start := GridStart(today);
    days := [];
    for i := 0 to DayCount
      invariant |days| == i
      invariant forall j :: 0 <= j < i ==> days[j] == Bucket(txs, start, j)
    {
      var date := start + i;
      var dayTransactions := if date in byDay then byDay[date] else [];
      days := days + [DayData(date, |dayTransactions|, dayTransactions, Weekday(date), i / 7)];
    }
  }

  /** The grid depends on the day only through its start: two days of one week have the same grid. */
  lemma SameWeekSameGrid(txs: seq<Transaction>, today1: int, today2: int)
    requires GridStart(today1) == GridStart(today2)
    ensures Grid(txs, today1) == Grid(txs, today2)
  {
  }

  /** Bucket `i` lies in week `i / 7`, on weekday `i % 7`: each week column runs Sunday to Saturday. */
  lemma GridColumns(txs: seq<Transaction>, today: int, i: int)
    requires 0 <= i < DayCount
    ensures Grid(txs, today)[i].weekIndex == i / 7 < WeekCount
    ensures Grid(txs, today)[i].dayOfWeek == i % 7
  {
  }

  /** Today's bucket sits at index 364 + weekday(today) and holds exactly today's transactions. */
  lemma TodayInGrid(txs: seq<Transaction>, today: int)
    ensures 364 + Weekday(today) < DayCount
    ensures Grid(txs, today)[364 + Weekday(today)].date == today
    ensures Grid(txs, today)[364 + Weekday(today)].transactions == OnDay(txs, today)
  {
  }

  /** The buckets cover consecutive, hence pairwise distinct, days. */
  lemma GridDays(txs: seq<Transaction>, today: int, i: int, j: int)
    requires 0 <= i < DayCount && 0 <= j < DayCount
    ensures Grid(txs, today)[j].date - Grid(txs, today)[i].date == j - i
  {
  }

  /**
    A bucket holds a transaction exactly when the transaction is in the input
    and its day key is the bucket's day; its count is the length of its list.
   */
  lemma BucketContents(txs: seq<Transaction>, today: int, i: int, tx: Transaction)
    requires 0 <= i < DayCount
    ensures Grid(txs, today)[i].count == |Grid(txs, today)[i].transactions|
    ensures tx in Grid(txs, today)[i].transactions <==> tx in txs && DayKey(tx) == GridStart(today) + i
  {
  }

  /** A transaction lands in at most one bucket. */
  lemma AtMostOneBucket(txs: seq<Transaction>, today: int, tx: Transaction, i: int, j: int)
    requires 0 <= i < DayCount && 0 <= j < DayCount
    requires tx in Grid(txs, today)[i].transactions && tx in Grid(txs, today)[j].transactions
    ensures i == j
  {
  }

  predicate InSpan(lo: int, n: int, tx: Transaction) {
    lo <= DayKey(tx) < lo + n
  }

  /** The transactions whose day falls in the `n` days from `lo`. */
  function InDays(txs: seq<Transaction>, lo: int, n: int): seq<Transaction> {
    Filter(txs, tx => InSpan(lo, n, tx))
  }

  /** The transactions whose day falls in the grid window. */
  function InWindow(txs: seq<Transaction>, today: int): seq<Transaction> {
    InDays(txs, GridStart(today), DayCount)
  }

  /** Sum of the counts of `days`. */
  function SumCounts(days: seq<DayData>): int {
    if days == [] then 0 else SumCounts(days[..|days| - 1]) + days[|days| - 1].count
  }

  lemma {:induction false} InDaysStep(txs: seq<Transaction>, lo: int, n: nat)
    ensures |InDays(txs, lo, n + 1)| == |InDays(txs, lo, n)| + |OnDay(txs, lo + n)|
  {
    FilterSplit(txs, tx => InSpan(lo, n + 1, tx), tx => InSpan(lo, n, tx), tx => OnDayPred(lo + n, tx));
  }

  lemma {:induction false} GridPrefixCounts(txs: seq<Transaction>, today: int, n: nat)
    requires n <= DayCount
    ensures SumCounts(Grid(txs, today)[..n]) == |InDays(txs, GridStart(today), n)|
  {
    var g := Grid(txs, today);
    if n == 0 {
      assert g[..0] == [];
      FilterNone(txs, tx => InSpan(GridStart(today), 0, tx));
    } else {
      assert g[..n][..n - 1] == g[..n - 1];
      GridPrefixCounts(txs, today, n - 1);
      InDaysStep(txs, GridStart(today), n - 1);
    }
  }

  /**
    The bucket counts add up to the number of transactions whose day lies in
    the window, so they never exceed the input length, and they reach it
    exactly when every transaction's day lies in the window.
   */
  lemma GridCountTotal(txs: seq<Transaction>, today: int)
    ensures SumCounts(Grid(txs, today)) == |InWindow(txs, today)|
    ensures SumCounts(Grid(txs, today)) <= |txs|
    ensures SumCounts(Grid(txs, today)) == |txs| <==>
            forall i :: 0 <= i < |txs| ==> GridStart(today) <= DayKey(txs[i]) < GridStart(today) + DayCount
  {
    var g := Grid(txs, today);
    assert g[..DayCount] == g;
    GridPrefixCounts(txs, today, DayCount);
    FilterKeepsAll(txs, tx => InSpan(GridStart(today), DayCount, tx));
  }
}
