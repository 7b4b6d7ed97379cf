/**
  The week columns of the heatmap and the month labels placed above them.
 */
module MonthLabels {
  import opened Calendar
  import opened Seqs
  import opened HeatmapGrid

  datatype MonthLabel = MonthLabel(month: string, weekIndex: int)

  const MonthNames: seq<string> :=
    ["Jan", "Feb", "Mar", "Apr", "May", "Jun", "Jul", "Aug", "Sep", "Oct", "Nov", "Dec"]

  predicate InWeek(w: int, d: DayData) {
    d.weekIndex == w
  }

  /** `heatmapData.filter((day) => day.weekIndex === w)` */
  function WeekOf(days: seq<DayData>, w: int): seq<DayData> {
    Filter(days, d => InWeek(w, d))
  }

  /** A day is in column `w` exactly when it is one of the days with week index `w`. */
  lemma WeekOfMembers(days: seq<DayData>, w: int, d: DayData)
    ensures d in WeekOf(days, w) <==> d in days && d.weekIndex == w
  {
  }

  /** The week-splitting loop: column `w` holds the days of week `w`, for w in 0..52. */
  method SplitWeeks(days: seq<DayData>) returns (weeks: seq<seq<DayData>>)
    ensures |weeks| == WeekCount
    ensures forall w :: 0 <= w < WeekCount ==> weeks[w] == WeekOf(days, w)
  {
    weeks := [];
    for weekIndex := 0 to WeekCount
      invariant |weeks| == weekIndex
      invariant forall w :: 0 <= w < weekIndex ==> weeks[w] == WeekOf(days, w)
    {
      var weekDays := WeekOf(days, weekIndex);
      weeks := weeks + [weekDays];
    }
  }

  /** Days numbered as the grid numbers them: day `i` belongs to week `i / 7`. */
  predicate WeekNumbered(days: seq<DayData>) {
    forall i :: 0 <= i < |days| ==> days[i].weekIndex == i / 7
  }

  function Clamp(x: int, n: int): int {
    if x < n then x else n
  }

  lemma {:induction false} WeekOfPrefix(days: seq<DayData>, w: nat, n: nat)
    requires WeekNumbered(days) && n <= |days|
    ensures Clamp(7 * w, n) <= Clamp(7 * w + 7, n)
    ensures WeekOf(days[..n], w) == days[Clamp(7 * w, n)..Clamp(7 * w + 7, n)]
  {
    if n == 0 {
      FilterNone(days[..0], d => InWeek(w, d));
    } else {
      var m := n - 1;
      var prefix := days[..n];
      assert prefix[..|prefix| - 1] == days[..m];
      assert prefix[|prefix| - 1] == days[m];
      assert WeekOf(prefix, w) == WeekOf(days[..m], w) + (if InWeek(w, days[m]) then [days[m]] else []);
      WeekOfPrefix(days, w, m);
      assert InWeek(w, days[m]) <==> 7 * w <= m < 7 * w + 7;
      if 7 * w <= m < 7 * w + 7 {
        SliceSnoc(days, 7 * w, m);
      }
    }
  }

  /** Week `w` of a grid-numbered sequence of 371 days is the slice of its seven days. */
  lemma WeekOfSlice(days: seq<DayData>, w: nat)
    requires WeekNumbered(days) && |days| == DayCount && w < WeekCount
    ensures WeekOf(days, w) == days[7 * w..7 * w + 7]
  {
    assert days[..|days|] == days;
    WeekOfPrefix(days, w, |days|);
  }

  /**
    Week column `w` of the grid holds exactly its seven buckets, Sunday to
    Saturday; its first day is the Sunday 7 * w days after the grid start.
   */
  lemma GridWeeks(txs: seq<Transactions.Transaction>, today: int, w: nat)
    requires w < WeekCount
    ensures WeekOf(Grid(txs, today), w) == Grid(txs, today)[7 * w..7 * w + 7]
    ensures forall j :: 0 <= j < 7 ==> WeekOf(Grid(txs, today), w)[j].dayOfWeek == j
    ensures WeekOf(Grid(txs, today), w)[0].date == GridStart(today) + 7 * w
    ensures Weekday(GridStart(today) + 7 * w) == 0
  {
    var g := Grid(txs, today);
    forall i | 0 <= i < DayCount
      ensures g[i].weekIndex == i / 7 && g[i].dayOfWeek == i % 7
    {
      GridColumns(txs, today, i);
    }
    WeekOfSlice(g, w);
    GridColumns(txs, today, 7 * w);
  }

  /** The label list and the month last labelled, after some week columns. */
  datatype LabelState = LabelState(labels: seq<MonthLabel>, currentMonth: int)

  /** The label pass over the first `n` week columns. */
  ghost function LabelPass(weeks: seq<seq<DayData>>, n: nat): LabelState
    requires n <= |weeks|
  {
    if n == 0 then LabelState([], -1)
    else
      var s := LabelPass(weeks, n - 1);
      var week := weeks[n - 1];
      if |week| > 0 && MonthOf(week[0].date) != s.currentMonth && DayOfMonth(week[0].date) <= 7 then
        LabelState(s.labels + [MonthLabel(MonthNames[MonthOf(week[0].date)], n - 1)], MonthOf(week[0].date))
      else s
  }

  /**
    The month labels of the week columns: on existing columns, left to
    right.
   */
  ghost function Labels(weeks: seq<seq<DayData>>): (labels: seq<MonthLabel>)
    ensures forall k :: 0 <= k < |labels| ==> 0 <= labels[k].weekIndex < |weeks|
    ensures forall a, b :: 0 <= a < b < |labels| ==> labels[a].weekIndex < labels[b].weekIndex
  {
    var labels := LabelPass(weeks, |weeks|).labels;
    LabelsWellPlaced(weeks, |weeks|);
    LabelsIncrease(weeks, |weeks|);
    assert forall k :: 0 <= k < |labels| ==> WellPlaced(weeks, |weeks|, labels[k]);
    labels
  }

  /** The label loop, carrying the last labelled month from column to column. */
  method PlaceMonthLabels(weeks: seq<seq<DayData>>) returns (monthLabels: seq<MonthLabel>)
    ensures monthLabels == Labels(weeks)
  {
    monthLabels := [];
    var currentMonth := -1;
    for weekIndex := 0 to |weeks|
      invariant LabelState(monthLabels, currentMonth) == LabelPass(weeks, weekIndex)
    {
      var week := weeks[weekIndex];
      if |week| > 0 {
        var firstDay := week[0];
        var date := CivilFromDays(firstDay.date);
        CivilFromDaysIsDateOf(firstDay.date);
        var month := date.month;
        if month != currentMonth && date.day <= 7 {
          monthLabels := monthLabels + [MonthLabel(MonthNames[month], weekIndex)];
          currentMonth := month;
        }
      }
    }
  }

  lemma MonthNamesDistinct(a: int, b: int)
    requires 0 <= a < 12 && 0 <= b < 12 && a != b
    ensures MonthNames[a] != MonthNames[b]
  {
  }

  /** The month of the first day of the week column a label sits on (-1 for no such day). */
  ghost function LabelMonth(weeks: seq<seq<DayData>>, l: MonthLabel): int {
    if 0 <= l.weekIndex < |weeks| && |weeks[l.weekIndex]| > 0 then MonthOf(weeks[l.weekIndex][0].date) else -1
  }

  /** What every label of a pass satisfies. */
  ghost predicate WellPlaced(weeks: seq<seq<DayData>>, n: nat, l: MonthLabel) {
    0 <= l.weekIndex < n <= |weeks|
    && |weeks[l.weekIndex]| > 0
    && DayOfMonth(weeks[l.weekIndex][0].date) <= 7
    && l.month == MonthNames[LabelMonth(weeks, l)]
  }

  /**
    Each label sits on a column before `n` whose first day is among the
    first seven of its month, and names that month; the month carried along
    is that of the last label, or -1 before the first.
   */
  lemma {:induction false} LabelsWellPlaced(weeks: seq<seq<DayData>>, n: nat)
    requires n <= |weeks|
    ensures forall k :: 0 <= k < |LabelPass(weeks, n).labels| ==> WellPlaced(weeks, n, LabelPass(weeks, n).labels[k])
    ensures var s := LabelPass(weeks, n);
      if s.labels == [] then s.currentMonth == -1
      else s.currentMonth == LabelMonth(weeks, s.labels[|s.labels| - 1])
  {
    if n > 0 {
      LabelsWellPlaced(weeks, n - 1);
      var s := LabelPass(weeks, n - 1);
      forall k | 0 <= k < |s.labels|
        ensures WellPlaced(weeks, n, s.labels[k])
      {
        assert WellPlaced(weeks, n - 1, s.labels[k]);
      }
      var week := weeks[n - 1];
      if |week| > 0 && MonthOf(week[0].date) != s.currentMonth && DayOfMonth(week[0].date) <= 7 {
        var l := MonthLabel(MonthNames[MonthOf(week[0].date)], n - 1);
        assert WellPlaced(weeks, n, l);
        var ls := s.labels + [l];
        assert LabelPass(weeks, n) == LabelState(ls, MonthOf(week[0].date));
        assert forall k :: 0 <= k < |ls| ==> ls[k] == (if k < |s.labels| then s.labels[k] else l);
      } else {
        assert LabelPass(weeks, n) == s;
      }
    }
  }

  /** Labels go left to right: their week indices strictly increase. */
  lemma {:induction false} LabelsIncrease(weeks: seq<seq<DayData>>, n: nat)
    requires n <= |weeks|
    ensures var ls := LabelPass(weeks, n).labels;
      forall a, b :: 0 <= a < b < |ls| ==> ls[a].weekIndex < ls[b].weekIndex
  {
    if n > 0 {
      LabelsIncrease(weeks, n - 1);
      LabelsWellPlaced(weeks, n - 1);
      var s := LabelPass(weeks, n - 1);
      assert forall k :: 0 <= k < |s.labels| ==> s.labels[k].weekIndex < n - 1 by {
        forall k | 0 <= k < |s.labels| ensures s.labels[k].weekIndex < n - 1 {
          assert WellPlaced(weeks, n - 1, s.labels[k]);
        }
      }
    }
  }

  /** Consecutive labels name different months. */
  lemma {:induction false} LabelsChangeMonth(weeks: seq<seq<DayData>>, n: nat)
    requires n <= |weeks|
    ensures var ls := LabelPass(weeks, n).labels;
      forall k :: 0 <= k < |ls| - 1 ==> ls[k].month != ls[k + 1].month
  {
    if n > 0 {
      LabelsChangeMonth(weeks, n - 1);
      LabelsWellPlaced(weeks, n - 1);
      var s := LabelPass(weeks, n - 1);
      var week := weeks[n - 1];
      if |week| > 0 && MonthOf(week[0].date) != s.currentMonth && DayOfMonth(week[0].date) <= 7 {
        if s.labels != [] {
          var last := s.labels[|s.labels| - 1];
          assert WellPlaced(weeks, n - 1, last);
          MonthNamesDistinct(LabelMonth(weeks, last), MonthOf(week[0].date));
          var ls := LabelPass(weeks, n).labels;
          assert ls == s.labels + [MonthLabel(MonthNames[MonthOf(week[0].date)], n - 1)];
          assert ls[|ls| - 2] == last;
        }
      }
    }
  }

  /** Week columns whose first days are the Sundays `start`, `start + 7`, ... */
  predicate SundayColumns(weeks: seq<seq<DayData>>, start: int) {
    forall w :: 0 <= w < |weeks| ==> |weeks[w]| > 0 && weeks[w][0].date == start + 7 * w
  }

  /** Column `w`'s first day is among the first seven days of its month. */
  ghost predicate OpensMonth(start: int, w: int) {
    DayOfMonth(start + 7 * w) <= 7
  }

  /** The last column before `n` that opens a month, or -1 if there is none. */
  ghost function LastOpening(start: int, n: nat): (r: int)
    ensures -1 <= r < n
    ensures r >= 0 ==> OpensMonth(start, r)
    ensures forall i :: r < i < n ==> !OpensMonth(start, i)
  {
    if n == 0 then -1
    else if OpensMonth(start, n - 1) then n - 1
    else LastOpening(start, n - 1)
  }

  predicate Labelled(labels: seq<MonthLabel>, w: int) {
    exists k :: 0 <= k < |labels| && labels[k].weekIndex == w
  }

  lemma LabelledAppend(labels: seq<MonthLabel>, l: MonthLabel, w: int)
    ensures Labelled(labels + [l], w) <==> Labelled(labels, w) || l.weekIndex == w
  {
    var ls := labels + [l];
    if Labelled(labels, w) {
      var k :| 0 <= k < |labels| && labels[k].weekIndex == w;
      assert ls[k] == labels[k];
    }
    if l.weekIndex == w {
      assert ls[|labels|] == l;
    }
  }

  /** A column that opens a month lies in a different month from the last opening column before it. */
  lemma OpeningChangesMonth(start: int, n: nat)
    requires 1 <= n && OpensMonth(start, n - 1) && LastOpening(start, n - 1) >= 0
    ensures MonthOf(start + 7 * (n - 1)) != MonthOf(start + 7 * LastOpening(start, n - 1))
  {
    var a := LastOpening(start, n - 1);
    forall i | a < i < n - 1 ensures DayOfMonth(start + 7 * i) > 7 {
      assert !OpensMonth(start, i);
    }
    NextFirstWeekChangesMonth(start, a, n - 1);
  }

  /** What the label pass over columns `start`, `start + 7`, ... has placed after `n` of them. */
  ghost predicate OpeningsLabelled(weeks: seq<seq<DayData>>, start: int, n: nat)
    requires n <= |weeks|
  {
    && (forall w :: 0 <= w < n ==> (Labelled(LabelPass(weeks, n).labels, w) <==> OpensMonth(start, w)))
    && LabelPass(weeks, n).currentMonth ==
       if LastOpening(start, n) < 0 then -1 else MonthOf(start + 7 * LastOpening(start, n))
  }

  /** No label of the first `n` columns sits on column `n`. */
  lemma NotYetLabelled(weeks: seq<seq<DayData>>, n: nat)
    requires n <= |weeks|
    ensures !Labelled(LabelPass(weeks, n).labels, n)
  {
    LabelsWellPlaced(weeks, n);
    var ls := LabelPass(weeks, n).labels;
    forall k | 0 <= k < |ls| ensures ls[k].weekIndex != n {
      assert WellPlaced(weeks, n, ls[k]);
    }
  }

  lemma OpeningStep(weeks: seq<seq<DayData>>, start: int, n: nat)
    requires SundayColumns(weeks, start) && 1 <= n <= |weeks|
    requires OpeningsLabelled(weeks, start, n - 1) && OpensMonth(start, n - 1)
    ensures OpeningsLabelled(weeks, start, n)
  {
    var s := LabelPass(weeks, n - 1);
    var date := weeks[n - 1][0].date;
    assert date == start + 7 * (n - 1);
    NotYetLabelled(weeks, n - 1);
    if LastOpening(start, n - 1) >= 0 {
      OpeningChangesMonth(start, n);
    }
    var l := MonthLabel(MonthNames[MonthOf(date)], n - 1);
    assert LabelPass(weeks, n) == LabelState(s.labels + [l], MonthOf(date));
    forall w | 0 <= w < n ensures Labelled(s.labels + [l], w) <==> OpensMonth(start, w) {
      LabelledAppend(s.labels, l, w);
    }
  }

  lemma PlainStep(weeks: seq<seq<DayData>>, start: int, n: nat)
    requires SundayColumns(weeks, start) && 1 <= n <= |weeks|
    requires OpeningsLabelled(weeks, start, n - 1) && !OpensMonth(start, n - 1)
    ensures OpeningsLabelled(weeks, start, n)
  {
    NotYetLabelled(weeks, n - 1);
    assert weeks[n - 1][0].date == start + 7 * (n - 1);
    assert LabelPass(weeks, n) == LabelPass(weeks, n - 1);
  }

  lemma {:induction false} OpeningsLabelledUpTo(weeks: seq<seq<DayData>>, start: int, n: nat)
    requires SundayColumns(weeks, start) && n <= |weeks|
    ensures OpeningsLabelled(weeks, start, n)
  {
    if n > 0 {
      OpeningsLabelledUpTo(weeks, start, n - 1);
      if OpensMonth(start, n - 1) {
        OpeningStep(weeks, start, n);
      } else {
        PlainStep(weeks, start, n);
      }
    }
  }

  /**
    On Sunday-aligned columns the month check never holds a label back: a
    column is labelled exactly when its Sunday is among the first seven days
    of its month, and the month carried along is that of the last such
    column.
   */
  lemma LabelsOnOpeningColumns(weeks: seq<seq<DayData>>, start: int, n: nat)
    requires SundayColumns(weeks, start) && n <= |weeks|
    ensures forall w :: 0 <= w < n ==> (Labelled(LabelPass(weeks, n).labels, w) <==> OpensMonth(start, w))
    ensures LabelPass(weeks, n).currentMonth ==
            if LastOpening(start, n) < 0 then -1 else MonthOf(start + 7 * LastOpening(start, n))
  {
    OpeningsLabelledUpTo(weeks, start, n);
  }

  /** The heatmap's week columns begin on the Sundays `GridStart(today) + 7 * w`. */
  lemma GridSundayColumns(txs: seq<Transactions.Transaction>, today: int, weeks: seq<seq<DayData>>)
    requires |weeks| == WeekCount
    requires forall w :: 0 <= w < WeekCount ==> weeks[w] == WeekOf(Grid(txs, today), w)
    ensures SundayColumns(weeks, GridStart(today))
  {
    forall w | 0 <= w < WeekCount ensures |weeks[w]| > 0 && weeks[w][0].date == GridStart(today) + 7 * w {
      GridWeeks(txs, today, w);
    }
  }

  /** Each label names the month of the Sunday its column begins with. */
  lemma LabelNamesColumnMonth(weeks: seq<seq<DayData>>, start: int, k: int)
    requires SundayColumns(weeks, start) && 0 <= k < |Labels(weeks)|
    ensures Labels(weeks)[k].month == MonthNames[MonthOf(start + 7 * Labels(weeks)[k].weekIndex)]
  {
    LabelsWellPlaced(weeks, |weeks|);
    var l := Labels(weeks)[k];
    assert WellPlaced(weeks, |weeks|, l);
    assert weeks[l.weekIndex][0].date == start + 7 * l.weekIndex;
  }

  /** Every label names the month of the Sunday its column begins with. */
  lemma LabelsNameColumnMonth(weeks: seq<seq<DayData>>, start: int)
    requires SundayColumns(weeks, start)
    ensures forall k :: 0 <= k < |Labels(weeks)| ==>
      Labels(weeks)[k].month == MonthNames[MonthOf(start + 7 * Labels(weeks)[k].weekIndex)]
  {
    forall k | 0 <= k < |Labels(weeks)|
      ensures Labels(weeks)[k].month == MonthNames[MonthOf(start + 7 * Labels(weeks)[k].weekIndex)]
    {
      LabelNamesColumnMonth(weeks, start, k);
    }
  }

  /**
    On the heatmap's 53 week columns, a column carries a month label exactly
    when its Sunday is among the first seven days of its month.
   */
  lemma GridMonthLabels(txs: seq<Transactions.Transaction>, today: int, weeks: seq<seq<DayData>>)
    requires |weeks| == WeekCount
    requires forall w :: 0 <= w < WeekCount ==> weeks[w] == WeekOf(Grid(txs, today), w)
    ensures forall w :: 0 <= w < WeekCount ==>
      (Labelled(Labels(weeks), w) <==> DayOfMonth(GridStart(today) + 7 * w) <= 7)
  {
    GridSundayColumns(txs, today, weeks);
    LabelsOnOpeningColumns(weeks, GridStart(today), WeekCount);
  }

  /** On the heatmap's week columns, each label names the month of its column's Sunday. */
  lemma GridLabelMonths(txs: seq<Transactions.Transaction>, today: int, weeks: seq<seq<DayData>>)
    requires |weeks| == WeekCount
    requires forall w :: 0 <= w < WeekCount ==> weeks[w] == WeekOf(Grid(txs, today), w)
    ensures forall k :: 0 <= k < |Labels(weeks)| ==>
      Labels(weeks)[k].month == MonthNames[MonthOf(GridStart(today) + 7 * Labels(weeks)[k].weekIndex)]
  {
    var start := GridStart(today);
    assert SundayColumns(weeks, start) by {
      GridSundayColumns(txs, today, weeks);
    }
    LabelsNameColumnMonth(weeks, start);
  }
}
