/**
  One render of the heatmap component: the day grid, the summary figures,
  the week columns and the month labels above them.
 */
module Heatmap {
  import opened Transactions
  import opened HeatmapGrid
  import opened MonthLabels
  import opened Statistics

  /**
    One render. The grid is memoised on the transaction list, so it keeps
    the clock reading `gridNowMs` of the render that built it, while the
    figures read the clock `nowMs` of the current render. A reused grid
    is today's grid while both readings fall in the same Sunday-to-Saturday
    week, and holds only earlier days once the grid's week is an earlier one.
   */
  method Render(txs: seq<Transaction>, gridNowMs: int, nowMs: int)
    returns (days: seq<DayData>, summary: Summary, weeks: seq<seq<DayData>>, labels: seq<MonthLabel>)
    ensures days == Grid(txs, Today(gridNowMs))
    ensures summary == Summarize(txs, days, nowMs)
    ensures |weeks| == WeekCount && forall w :: 0 <= w < WeekCount ==> weeks[w] == WeekOf(days, w)
    ensures labels == Labels(weeks)
  {
    days := HeatmapData(txs, Today(gridNowMs));
    summary := Summarize(txs, days, nowMs);
    weeks := SplitWeeks(days);
    labels := PlaceMonthLabels(weeks);
  }

  /**
    Today's fee figure is the fee sum of a grid bucket while the grid was
    built in the current Sunday-to-Saturday week: the grid start is then the
    same, so the grid is the one for today, with today at 364 + weekday.
   */
  lemma TodayFeesMatchGrid(txs: seq<Transaction>, gridNowMs: int, nowMs: int)
    requires GridStart(Today(gridNowMs)) == GridStart(Today(nowMs))
    ensures var days := Grid(txs, Today(gridNowMs));
      Summarize(txs, days, nowMs).todayFees == TotalFees(days[364 + Calendar.Weekday(Today(nowMs))].transactions)
  {
    SameWeekSameGrid(txs, Today(gridNowMs), Today(nowMs));
    TodayFeesInGrid(txs, Today(nowMs));
  }

  /**
    Once the grid was built in an earlier week, it no longer holds today:
    both grid starts are Sundays, so the earlier one lies at least a week
    back, and the reused grid ends before today's week begins.
   */
  lemma StaleGridMissesToday(txs: seq<Transaction>, gridNowMs: int, nowMs: int)
    requires GridStart(Today(gridNowMs)) < GridStart(Today(nowMs))
    ensures forall i :: 0 <= i < DayCount ==> Grid(txs, Today(gridNowMs))[i].date < Today(nowMs)
  {
    var a, b := GridStart(Today(gridNowMs)), GridStart(Today(nowMs));
    assert a + 4 == 7 * ((a + 4) / 7) && b + 4 == 7 * ((b + 4) / 7);
    assert a + 7 <= b;
  }
}
