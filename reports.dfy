/** The second half of `report` in `src/reports.rs`: the calendar pages, one per month in
    ascending year and month order, and the closing total line.

    The text the report writes is modelled as a sequence of cells, one per `write!`/`writeln!`
    of the source; widths, alignment and colours are not modelled. */
module Reports {
  import opened Wrappers
  import opened Calendar
  import opened Configurations
  import opened JobLists
  import opened Sums
  import opened Buckets

  datatype Cell =
    | Title(month: int, year: int)          // "month/year", centred
    | HeaderRow                             // "Day", the weekday names and "Week"
    | Indent                                // the empty day-of-month column of the first row
    | Pad                                   // one blank column before the month's first weekday
    | WeekSum(hours: real)                  // a week's hours, ending the row
    | DayNumber(day: int)                   // the day-of-month column starting a Sunday's row
    | DayHours(hours: real)                 // the hours of a day with work
    | NoWork                                // "-" for a day without a bucket
    | Filler                                // one empty column after the month's last rendered day
    | MonthSummary(name: string, year: int, hours: real, cost: Option<real>)
    | BlankLine
    | Summary(count: nat, hours: real, pay: Option<real>)   // "Total: n job(s), h hours[ = $p]"

  const MonthNames: seq<string> := ["Jan", "Feb", "Mar", "Apr", "May", "Jun", "Jul", "Aug", "Sep", "Oct", "Nov", "Dec"]

  function MonthName(month: int): (name: string)
    requires 1 <= month <= 12
    ensures |name| == 3
  {
    MonthNames[month - 1]
  }

  // ---- reading the cells back ----

  /** The values `f` picks out of the cells, in order. */
  function Project<T>(cells: seq<Cell>, f: Cell -> Option<T>): seq<T>
  {
    if cells == [] then [] else Project(cells[..|cells| - 1], f) + Picked(f(cells[|cells| - 1]))
  }

  function Picked<T>(o: Option<T>): seq<T>
  {
    if o.Some? then [o.value] else []
  }

  lemma ProjectSingle<T>(c: Cell, f: Cell -> Option<T>)
    ensures Project([c], f) == Picked(f(c))
  {
    assert [c][..0] == [];
  }

  lemma Project3<T>(a: Cell, b: Cell, c: Cell, f: Cell -> Option<T>)
    ensures Project([a, b, c], f) == Picked(f(a)) + Picked(f(b)) + Picked(f(c))
  {
    assert [a, b, c] == [a] + [b] + [c];
    ProjectAppend([a], [b], f);
    ProjectAppend([a] + [b], [c], f);
    ProjectSingle(a, f);
    ProjectSingle(b, f);
    ProjectSingle(c, f);
  }

  /** Cells `f` picks a value from each project to as many values. */
  lemma {:induction false} ProjectAll<T>(cells: seq<Cell>, f: Cell -> Option<T>)
    requires forall k :: 0 <= k < |cells| ==> f(cells[k]).Some?
    ensures |Project(cells, f)| == |cells|
  {
    if cells != [] {
      ProjectAll(cells[..|cells| - 1], f);
    }
  }

  /** Cells `f` picks nothing from project to nothing. */
  lemma {:induction false} ProjectNone<T>(cells: seq<Cell>, f: Cell -> Option<T>)
    requires forall k :: 0 <= k < |cells| ==> f(cells[k]).None?
    ensures Project(cells, f) == []
  {
    if cells != [] {
      ProjectNone(cells[..|cells| - 1], f);
    }
  }

  lemma {:induction false} ProjectAppend<T>(a: seq<Cell>, b: seq<Cell>, f: Cell -> Option<T>)
    ensures Project(a + b, f) == Project(a, f) + Project(b, f)
    decreases |b|
  {
    if b == [] {
      assert a + b == a;
    } else {
      assert (a + b)[..|a + b| - 1] == a + b[..|b| - 1];
      ProjectAppend(a, b[..|b| - 1], f);
    }
  }

  function Sum(s: seq<real>): real
  {
    if s == [] then 0.0 else Sum(s[..|s| - 1]) + s[|s| - 1]
  }

  lemma {:induction false} SumAppend(a: seq<real>, b: seq<real>)
    ensures Sum(a + b) == Sum(a) + Sum(b)
    decreases |b|
  {
    if b == [] {
      assert a + b == a;
    } else {
      assert (a + b)[..|a + b| - 1] == a + b[..|b| - 1];
      SumAppend(a, b[..|b| - 1]);
    }
  }

  lemma SumSingle(x: real)
    ensures Sum([x]) == x
  {
    assert [x][..0] == [];
  }

  /** (year, month) of a month title. */
  function TitleOf(c: Cell): Option<(int, int)>
  {
    if c.Title? then Some((c.year, c.month)) else None
  }

  /** The cell a day of the month renders to. */
  function DayCellOf(c: Cell): Option<Cell>
  {
    if c.DayHours? || c.NoWork? then Some(c) else None
  }

  function WeekSumOf(c: Cell): Option<real>
  {
    if c.WeekSum? then Some(c.hours) else None
  }

  function MonthHoursOf(c: Cell): Option<real>
  {
    if c.MonthSummary? then Some(c.hours) else None
  }

  function PadOf(c: Cell): Option<bool>
  {
    if c.Pad? then Some(true) else None
  }

  /** Lexicographic order on (year, month). */
  predicate Before(a: (int, int), b: (int, int))
  {
    a.0 < b.0 || (a.0 == b.0 && a.1 < b.1)
  }

  predicate Ascending(titles: seq<(int, int)>)
  {
    forall i, j :: 0 <= i < j < |titles| ==> Before(titles[i], titles[j])
  }

  // ---- what a day and a month amount to ----

  /** The rate `get_checked` gives for a bucket's tag, if any. */
  function RateOf(conf: Configuration, tag: Option<string>): Option<real>
  {
    match GetChecked(conf, tag)
    case Success(properties) => properties.rate
    case Failure(_) => None
  }

  /** What a tag's hours cost: hours times rate, or nothing without a rate. */
  function Cost(conf: Configuration, tag: Option<string>, hours: real): real
  {
    if RateOf(conf, tag).Some? then hours * RateOf(conf, tag).value else 0.0
  }

  function CostTerm(conf: Configuration): (Option<string>, real) -> real
  {
    (tag: Option<string>, hours: real) => Cost(conf, tag, hours)
  }

  predicate AnyRatedTag(conf: Configuration, tagHours: TagHours)
  {
    exists tag :: tag in tagHours && RateOf(conf, tag).Some?
  }

  /** A day's cost: the rated tags' hours times their rates, or nothing when no tag is rated. */
  ghost function DayCost(conf: Configuration, tagHours: TagHours): Option<real>
  {
    if AnyRatedTag(conf, tagHours) then Some(MapSum(tagHours, CostTerm(conf))) else None
  }

  /** What a day renders to: its total hours, or "-" when it has no bucket. */
  ghost function DayCell(days: Days, day: int): Cell
  {
    if day in days then DayHours(DayTotal(days[day])) else NoWork
  }

  /** The cells of the days `1 .. end - 1`. */
  ghost function DayCells(days: Days, end: int): seq<Cell>
    decreases end
  {
    if end <= 1 then [] else DayCells(days, end - 1) + [DayCell(days, end - 1)]
  }

  /** The hours of a day, nothing without a bucket. */
  ghost function HoursOn(days: Days, day: int): real
  {
    if day in days then DayTotal(days[day]) else 0.0
  }

  /** The cost of a day, none without a bucket. */
  ghost function CostOn(conf: Configuration, days: Days, day: int): Option<real>
  {
    if day in days then DayCost(conf, days[day]) else None
  }

  /** The hours of the days `1 .. end - 1`. */
  ghost function HoursUpTo(days: Days, end: int): real
    decreases end
  {
    if end <= 1 then 0.0
    else HoursUpTo(days, end - 1) + HoursOn(days, end - 1)
  }

  /** Adding a day's cost to a month's: a month cost comes into being with its first day cost. */
  function AddCost(month: Option<real>, day: Option<real>): (r: Option<real>)
    ensures r.None? <==> month.None? && day.None?
  {
    match day
    case None => month
    case Some(c) => Some((if month.Some? then month.value else 0.0) + c)
  }

  /** The cost of the days `1 .. end - 1`. */
  ghost function CostUpTo(conf: Configuration, days: Days, end: int): Option<real>
    decreases end
  {
    if end <= 1 then None
    else AddCost(CostUpTo(conf, days, end - 1), CostOn(conf, days, end - 1))
  }

  /** How many day cells the current row can hold before `day` is written: a full row of seven
      before a Sunday (which then starts a new row), otherwise the days since the row's Sunday. */
  function Column(year: int, month: int, day: int): (c: int)
    requires 1 <= month <= 12
    ensures 1 <= c <= 7
  {
    if Weekday(year, month, day) == Sunday then 7 else Weekday(year, month, day)
  }

  /** One more day. */
  lemma UpToStep(conf: Configuration, days: Days, day: int)
    requires day >= 1
    ensures HoursUpTo(days, day + 1) == HoursUpTo(days, day) + HoursOn(days, day)
    ensures CostUpTo(conf, days, day + 1) == AddCost(CostUpTo(conf, days, day), CostOn(conf, days, day))
    ensures DayCells(days, day + 1) == DayCells(days, day) + [DayCell(days, day)]
  {
  }

  /** The day after a Sunday has only the Sunday before it in its row; any other day one more. */
  lemma ColumnStep(year: int, month: int, day: int)
    requires 1 <= month <= 12
    ensures Column(year, month, day + 1) == if Weekday(year, month, day) == Sunday then 1 else Column(year, month, day) + 1
  {
    NextDayWeekday(year, month, day);
  }

  // ---- properties of the specification ----

  /** A month has a cost exactly when some rendered day has a rated tag. */
  lemma {:induction false} CostUpToNone(conf: Configuration, days: Days, end: int)
    ensures CostUpTo(conf, days, end).None? <==>
      forall day :: 1 <= day < end && day in days ==> !AnyRatedTag(conf, days[day])
    decreases end
  {
    if end > 1 {
      CostUpToNone(conf, days, end - 1);
    }
  }

  /** A day without a bucket renders "-" and adds neither hours nor cost. */
  lemma NoBucketAddsNothing(conf: Configuration, days: Days, day: int)
    requires day >= 1 && day !in days
    ensures DayCell(days, day) == NoWork
    ensures HoursUpTo(days, day + 1) == HoursUpTo(days, day)
    ensures CostUpTo(conf, days, day + 1) == CostUpTo(conf, days, day)
  {
  }

  /** Removing a day outside `1 .. end - 1` changes nothing below `end`. */
  lemma {:induction false} HoursUpToIgnores(days: Days, end: int, day: int)
    requires day in days && day >= end - 1
    ensures HoursUpTo(days - {day}, end - 1) == HoursUpTo(days, end - 1)
    decreases end
  {
    if end - 1 > 1 {
      HoursUpToIgnores(days, end - 1, day);
    }
  }

  /** When every day of the buckets lies in `1 .. end - 1`, the rendered days hold all of the
      month's bucketed hours. */
  lemma {:induction false} HoursUpToAll(days: Days, end: int)
    requires forall day :: day in days ==> 1 <= day < end
    ensures HoursUpTo(days, end) == MonthTotal(days)
    decreases end
  {
    if end <= 1 {
      if days.Keys != {} {
        var day := Member(days.Keys);
        assert false;
      }
    } else if end - 1 in days {
      var rest := days - {end - 1};
      HoursUpToIgnores(days, end, end - 1);
      HoursUpToAll(rest, end - 1);
      MapSumRemove(days, end - 1, DayTerm);
    } else {
      HoursUpToAll(days, end - 1);
    }
  }

  /** The days a month renders: `1 .. end - 1`. */
  lemma {:induction false} DayCellsLength(days: Days, end: int)
    requires end >= 1
    ensures |DayCells(days, end)| == end - 1
    ensures forall i :: 0 <= i < end - 1 ==> DayCells(days, end)[i] == DayCell(days, i + 1)
    decreases end
  {
    if end > 1 {
      DayCellsLength(days, end - 1);
    }
  }

  // ---- the loop bound of the day loop ----

  /** As written, the day loop runs over `1..days_in_month(year, month)`, which stops before
      the month's last day. */
  function DayBoundAsWritten(year: int, month: int): (end: int)
    requires 1 <= month <= 12
    ensures end == DayBound(year, month) - 1
  {
    DaysInMonth(year, month)
  }

  /** As written, the 31st of January is never rendered: with 8 hours on that day, the month
      renders 30 days and a total of 0 hours although its bucket holds 8. */
  lemma LastDayDroppedAsWritten()
    ensures var days: Days := map[31 := map[None := 8.0]];
            var end := DayBoundAsWritten(2023, 1);
            |DayCells(days, end)| == 30 && HoursUpTo(days, end) == 0.0 && MonthTotal(days) == 8.0
  {
    var days: Days := map[31 := map[None := 8.0]];
    DayCellsLength(days, 31);
    HoursUpToAll(days, 32);
    assert HoursUpTo(days, 31) == 0.0 by {
      HoursUpToZero(days, 31);
    }
    var bucket: TagHours := map[None := 8.0];
    assert DayTotal(bucket) == 8.0 by {
      MapSumRemove(bucket, None, TagTerm);
      assert bucket - {None} == map[];
    }
  }

  lemma {:induction false} HoursUpToZero(days: Days, end: int)
    requires forall day :: day in days ==> day >= end
    ensures HoursUpTo(days, end) == 0.0
    decreases end
  {
    if end > 1 {
      HoursUpToZero(days, end - 1);
    }
  }

  /** The evidently intended bound: through the month's last day. */
  function DayBound(year: int, month: int): (end: int)
    requires 1 <= month <= 12
    ensures end == DaysInMonth(year, month) + 1
  {
    DaysInMonth(year, month) + 1
  }

  /** With the intended bound, every day of the month is rendered and the month total is all
      of the month's bucketed hours. */
  lemma EveryDayRendered(conf: Configuration, year: int, month: int, days: Days)
    requires DaysValid(conf, year, month, days)
    ensures |DayCells(days, DayBound(year, month))| == DaysInMonth(year, month)
    ensures HoursUpTo(days, DayBound(year, month)) == MonthTotal(days)
  {
    DayCellsLength(days, DayBound(year, month));
    HoursUpToAll(days, DayBound(year, month));
  }

  // ---- the rendering loops ----

  /** Taking one tag out of a day's buckets. */
  lemma TakeTag(conf: Configuration, remaining: TagHours, tag: Option<string>)
    requires tag in remaining
    ensures DayTotal(remaining) == remaining[tag] + DayTotal(remaining - {tag})
    ensures MapSum(remaining, CostTerm(conf)) == Cost(conf, tag, remaining[tag]) + MapSum(remaining - {tag}, CostTerm(conf))
  {
    MapSumRemove(remaining, tag, TagTerm);
    MapSumRemove(remaining, tag, CostTerm(conf));
  }

  lemma TakeRatedTag(conf: Configuration, remaining: TagHours, tag: Option<string>)
    requires tag in remaining
    ensures AnyRatedTag(conf, remaining) <==> RateOf(conf, tag).Some? || AnyRatedTag(conf, remaining - {tag})
  {
    if AnyRatedTag(conf, remaining) {
      var t :| t in remaining && RateOf(conf, t).Some?;
      if t != tag {
        assert t in remaining - {tag};
      }
    }
  }

  /** The hours and the cost of one day, going over its tag buckets in whatever order the map
      yields them; a tag's properties come from `get_checked`, which cannot fail for a tag the
      bucketing put there. */
  method SumDay(tagHours: TagHours, conf: Configuration) returns (dayHours: real, dayCosts: Option<real>)
    requires TagsKnown(conf, tagHours)
    ensures dayHours == DayTotal(tagHours)
    ensures dayCosts == DayCost(conf, tagHours)
    ensures dayCosts.None? <==> forall tag :: tag in tagHours ==> RateOf(conf, tag).None?
  {
    dayHours := 0.0;
    dayCosts := None;
    var remaining := tagHours;
    while remaining.Keys != {}
      invariant TagsKnown(conf, remaining)
      invariant SumDayInvariant(conf, tagHours, remaining, dayHours, dayCosts)
      decreases |remaining.Keys|
    {
      var tag :| tag in remaining;
      ghost var hoursBefore, costsBefore := dayHours, dayCosts;
      dayHours, dayCosts := AddTag(conf, tag, remaining[tag], dayHours, dayCosts);
      SumDayStep(conf, tagHours, remaining, tag, hoursBefore, costsBefore, dayHours, dayCosts);
      remaining := remaining - {tag};
    }
    SumDayDone(conf, tagHours, remaining, dayHours, dayCosts);
  }

  /** One pass of the loop over a day's tags: the tag's hours join the day's hours, and when
      `get_checked` gives the tag a rate, its cost joins the day's cost, which comes into being
      with the first rated tag. */
  method AddTag(conf: Configuration, tag: Option<string>, hours: real, dayHours: real, dayCosts: Option<real>)
    returns (dayHours': real, dayCosts': Option<real>)
    requires KnownTag(conf, tag)
    ensures dayHours' == dayHours + hours
    ensures RateOf(conf, tag).None? ==> dayCosts' == dayCosts
    ensures RateOf(conf, tag).Some? ==>
      dayCosts' == Some((if dayCosts.Some? then dayCosts.value else 0.0) + Cost(conf, tag, hours))
  {
    var properties := GetChecked(conf, tag).value;
    assert properties.rate == RateOf(conf, tag);
    assert properties.rate.Some? ==> hours * properties.rate.value == Cost(conf, tag, hours);
    dayHours' := dayHours + hours;
    dayCosts' := dayCosts;
    if properties.rate.Some? {
      if dayCosts'.None? {
        dayCosts' := Some(0.0);
      }
      dayCosts' := Some(dayCosts'.value + hours * properties.rate.value);
    }
  }

  /** Once no tag remains, the sums are the day's hours and cost. */
  lemma SumDayDone(conf: Configuration, tagHours: TagHours, remaining: TagHours, dayHours: real, dayCosts: Option<real>)
    requires remaining.Keys == {}
    requires SumDayInvariant(conf, tagHours, remaining, dayHours, dayCosts)
    ensures dayHours == DayTotal(tagHours)
    ensures dayCosts == DayCost(conf, tagHours)
    ensures dayCosts.None? <==> forall tag :: tag in tagHours ==> RateOf(conf, tag).None?
  {
    assert remaining == map[];
  }

  /** What is summed and what remains of a day account for the whole day. */
  ghost predicate SumDayInvariant(conf: Configuration, tagHours: TagHours, remaining: TagHours, dayHours: real, dayCosts: Option<real>)
  {
    && dayHours + DayTotal(remaining) == DayTotal(tagHours)
    && (if dayCosts.Some? then dayCosts.value else 0.0) + MapSum(remaining, CostTerm(conf)) == MapSum(tagHours, CostTerm(conf))
    && (AnyRatedTag(conf, tagHours) <==> dayCosts.Some? || AnyRatedTag(conf, remaining))
  }

  lemma SumDayStep(conf: Configuration, tagHours: TagHours, remaining: TagHours, tag: Option<string>,
                   dayHours: real, dayCosts: Option<real>, dayHours': real, dayCosts': Option<real>)
    requires tag in remaining
    requires SumDayInvariant(conf, tagHours, remaining, dayHours, dayCosts)
    requires dayHours' == dayHours + remaining[tag]
    requires RateOf(conf, tag).None? ==> dayCosts' == dayCosts
    requires RateOf(conf, tag).Some? ==>
      dayCosts' == Some((if dayCosts.Some? then dayCosts.value else 0.0) + Cost(conf, tag, remaining[tag]))
    ensures SumDayInvariant(conf, tagHours, remaining - {tag}, dayHours', dayCosts')
  {
    TakeTag(conf, remaining, tag);
    TakeRatedTag(conf, remaining, tag);
    if RateOf(conf, tag).None? {
      assert Cost(conf, tag, remaining[tag]) == 0.0;
    }
  }

  /** A cell of the rows of days. */
  predicate RowCell(c: Cell)
  {
    c.WeekSum? || c.DayNumber? || c.DayHours? || c.NoWork?
  }

  /** What the cells written for one day contribute: the week's sum and the day number when a
      Sunday starts a new row, then the day's own cell. */
  lemma StepProjections(step: seq<Cell>, sunday: bool, closed: real, day: int, dayCell: Cell)
    requires dayCell.DayHours? || dayCell.NoWork?
    requires step == (if sunday then [WeekSum(closed), DayNumber(day)] else []) + [dayCell]
    ensures Project(step, DayCellOf) == [dayCell]
    ensures Project(step, WeekSumOf) == (if sunday then [closed] else [])
  {
    if sunday {
      assert step == [WeekSum(closed), DayNumber(day), dayCell];
      Project3(WeekSum(closed), DayNumber(day), dayCell, DayCellOf);
      Project3(WeekSum(closed), DayNumber(day), dayCell, WeekSumOf);
    } else {
      assert step == [dayCell];
      ProjectSingle(dayCell, DayCellOf);
      ProjectSingle(dayCell, WeekSumOf);
    }
  }

  /** The days `1 .. end - 1`, each Sunday closing the running week's row first. Gives the rows,
      the hours and cost of the month and the open last week's hours and day count. */
  method RenderDays(year: int, month: int, days: Days, conf: Configuration, end: int)
    returns (rows: seq<Cell>, weekHours: real, weekDayNumber: int, monthHours: real, monthCosts: Option<real>)
    requires DaysValid(conf, year, month, days)
    requires 1 <= end
    ensures 0 <= weekDayNumber <= 7
    ensures monthHours == HoursUpTo(days, end)
    ensures monthCosts == CostUpTo(conf, days, end)
    ensures Sum(Project(rows, WeekSumOf)) + weekHours == monthHours
    ensures Project(rows, DayCellOf) == DayCells(days, end)
    ensures forall k :: 0 <= k < |rows| ==> RowCell(rows[k])
  {
    rows := [];
    weekHours := 0.0;
    weekDayNumber := 0;
    monthHours := 0.0;
    monthCosts := None;
    for day := 1 to end
      invariant 0 <= weekDayNumber <= Column(year, month, day)
      invariant DaysSoFar(conf, days, day, rows, weekHours, monthHours, monthCosts)
    {
      ghost var rowsBefore, weekBefore, hoursBefore, costsBefore := rows, weekHours, monthHours, monthCosts;
      var step, sunday;
      step, sunday, weekHours, monthHours, monthCosts := RenderDay(year, month, days, conf, day, weekHours, monthHours, monthCosts);
      if sunday {
        weekDayNumber := 0;
      }
      weekDayNumber := weekDayNumber + 1;
      ColumnStep(year, month, day);
      rows := rows + step;
      DaysSoFarStep(conf, days, day, rowsBefore, weekBefore, hoursBefore, costsBefore, step, sunday,
                    weekHours, monthHours, monthCosts);
    }
  }

  /** What the rows written for the days `1 .. day - 1` amount to. */
  ghost predicate DaysSoFar(conf: Configuration, days: Days, day: int, rows: seq<Cell>, weekHours: real,
                            monthHours: real, monthCosts: Option<real>)
  {
    && monthHours == HoursUpTo(days, day)
    && monthCosts == CostUpTo(conf, days, day)
    && Sum(Project(rows, WeekSumOf)) + weekHours == monthHours
    && Project(rows, DayCellOf) == DayCells(days, day)
    && forall k :: 0 <= k < |rows| ==> RowCell(rows[k])
  }

  lemma DaysSoFarStep(conf: Configuration, days: Days, day: int, rows: seq<Cell>, weekHours: real,
                      monthHours: real, monthCosts: Option<real>, step: seq<Cell>, sunday: bool,
                      weekHours': real, monthHours': real, monthCosts': Option<real>)
    requires day >= 1
    requires DaysSoFar(conf, days, day, rows, weekHours, monthHours, monthCosts)
    requires step == (if sunday then [WeekSum(weekHours), DayNumber(day)] else []) + [DayCell(days, day)]
    requires weekHours' == (if sunday then 0.0 else weekHours) + HoursOn(days, day)
    requires monthHours' == monthHours + HoursOn(days, day)
    requires monthCosts' == AddCost(monthCosts, CostOn(conf, days, day))
    ensures DaysSoFar(conf, days, day + 1, rows + step, weekHours', monthHours', monthCosts')
  {
    UpToStep(conf, days, day);
    StepProjections(step, sunday, weekHours, day, DayCell(days, day));
    StepIsRows(step, sunday, weekHours, day, DayCell(days, day));
    StepRowCells(rows, step);
    ProjectAppend(rows, step, DayCellOf);
    StepWeekSums(rows, step, sunday, weekHours, Sum(Project(rows, WeekSumOf)) + weekHours);
  }

  lemma StepIsRows(step: seq<Cell>, sunday: bool, closed: real, day: int, dayCell: Cell)
    requires dayCell.DayHours? || dayCell.NoWork?
    requires step == (if sunday then [WeekSum(closed), DayNumber(day)] else []) + [dayCell]
    ensures forall k :: 0 <= k < |step| ==> RowCell(step[k])
  {
  }

  lemma StepRowCells(rows: seq<Cell>, step: seq<Cell>)
    requires forall k :: 0 <= k < |rows| ==> RowCell(rows[k])
    requires forall k :: 0 <= k < |step| ==> RowCell(step[k])
    ensures forall k :: 0 <= k < |rows + step| ==> RowCell((rows + step)[k])
  {
  }

  lemma StepWeekSums(rows: seq<Cell>, step: seq<Cell>, sunday: bool, weekHours: real, total: real)
    requires Sum(Project(rows, WeekSumOf)) + weekHours == total
    requires Project(step, WeekSumOf) == (if sunday then [weekHours] else [])
    ensures Sum(Project(rows + step, WeekSumOf)) + (if sunday then 0.0 else weekHours) == total
  {
    ProjectAppend(rows, step, WeekSumOf);
    SumAppend(Project(rows, WeekSumOf), Project(step, WeekSumOf));
    SumSingle(weekHours);
    if !sunday {
      assert Project(rows, WeekSumOf) + [] == Project(rows, WeekSumOf);
    }
  }

  /** One day of the month: on a Sunday the running week's sum closes the row and a new row
      starts with the day number; then the day's hours, or "-" without a bucket, which also
      go into the week's and the month's hours, and its cost into the month's cost. */
  method RenderDay(year: int, month: int, days: Days, conf: Configuration, day: int,
                   weekHours: real, monthHours: real, monthCosts: Option<real>)
    returns (step: seq<Cell>, sunday: bool, weekHours': real, monthHours': real, monthCosts': Option<real>)
    requires DaysValid(conf, year, month, days)
    ensures sunday == (Weekday(year, month, day) == Sunday)
    ensures step == (if sunday then [WeekSum(weekHours), DayNumber(day)] else []) + [DayCell(days, day)]
    ensures weekHours' == (if sunday then 0.0 else weekHours) + HoursOn(days, day)
    ensures monthHours' == monthHours + HoursOn(days, day)
    ensures monthCosts' == AddCost(monthCosts, CostOn(conf, days, day))
  {
    sunday := Weekday(year, month, day) == Sunday;
    step := [];
    weekHours' := weekHours;
    if sunday {
      step := [WeekSum(weekHours), DayNumber(day)];
      weekHours' := 0.0;
    }
    monthHours' := monthHours;
    monthCosts' := monthCosts;
    if day in days {
      var dayHours, dayCosts := SumDay(days[day], conf);
      step := step + [DayHours(dayHours)];
      weekHours' := weekHours' + dayHours;
      monthHours' := monthHours' + dayHours;
      if dayCosts.Some? {
        if monthCosts'.None? {
          monthCosts' := Some(0.0);
        }
        monthCosts' := Some(monthCosts'.value + dayCosts.value);
      }
    } else {
      step := step + [NoWork];
    }
  }

  /** The page of one month: title, header, the first row indented to the month's first
      weekday, the days `1 .. end - 1`, the last row filled up to seven columns and closed with
      its week's sum, then the month's hours and cost. The month's accumulators start at zero,
      as the reset after the previous month's line leaves them. */
  method RenderMonth(year: int, month: int, days: Days, conf: Configuration, end: int) returns (cells: seq<Cell>)
    requires DaysValid(conf, year, month, days)
    requires 1 <= end <= DaysInMonth(year, month) + 1
    ensures Project(cells, TitleOf) == [(year, month)]
    ensures |Project(cells, PadOf)| == Weekday(year, month, 1)
    ensures Project(cells, DayCellOf) == DayCells(days, end)
    ensures Sum(Project(cells, WeekSumOf)) == HoursUpTo(days, end)
    ensures Project(cells, MonthHoursOf) == [HoursUpTo(days, end)]
    ensures |cells| >= 2 && cells[|cells| - 1] == BlankLine
    ensures cells[|cells| - 2] == MonthSummary(MonthName(month), year, HoursUpTo(days, end), CostUpTo(conf, days, end))
  {
    var pads := [];
    var firstWeekday := Weekday(year, month, 1) + 1;
    for i := 1 to firstWeekday
      invariant |pads| == i - 1
      invariant forall k :: 0 <= k < |pads| ==> pads[k] == Pad
    {
      pads := pads + [Pad];
    }
    var rows, weekHours, weekDayNumber, monthHours, monthCosts := RenderDays(year, month, days, conf, end);
    var filler := [];
    for i := 0 to 7 - weekDayNumber
      invariant forall k :: 0 <= k < |filler| ==> filler[k] == Filler
    {
      filler := filler + [Filler];
    }
    var summary := MonthSummary(MonthName(month), year, monthHours, monthCosts);
    cells := [Title(month, year), HeaderRow, Indent] + pads + rows + filler + [WeekSum(weekHours), summary, BlankLine];
    MonthPage(year, month, pads, rows, filler, weekHours, summary);
  }

  /** What a month's page shows, from its parts: the head, the pads, the day rows, the filler
      and the closing week sum, summary and blank line. */
  lemma MonthPage(year: int, month: int, pads: seq<Cell>, rows: seq<Cell>, filler: seq<Cell>, weekHours: real, summary: Cell)
    requires summary.MonthSummary?
    requires forall k :: 0 <= k < |pads| ==> pads[k] == Pad
    requires forall k :: 0 <= k < |rows| ==> RowCell(rows[k])
    requires forall k :: 0 <= k < |filler| ==> filler[k] == Filler
    ensures var cells := [Title(month, year), HeaderRow, Indent] + pads + rows + filler + [WeekSum(weekHours), summary, BlankLine];
            && Project(cells, TitleOf) == [(year, month)]
            && |Project(cells, PadOf)| == |pads|
            && Project(cells, DayCellOf) == Project(rows, DayCellOf)
            && Sum(Project(cells, WeekSumOf)) == Sum(Project(rows, WeekSumOf)) + weekHours
            && Project(cells, MonthHoursOf) == [summary.hours]
            && |cells| >= 2 && cells[|cells| - 1] == BlankLine && cells[|cells| - 2] == summary
  {
    var head := [Title(month, year), HeaderRow, Indent];
    var closing := [WeekSum(weekHours), summary, BlankLine];
    HeadProjections(year, month);
    ClosingProjections(weekHours, summary);
    MonthProjections(head, pads, rows, filler, closing);
    SumAppend(Project(rows, WeekSumOf), [weekHours]);
    SumSingle(weekHours);
  }

  /** The projections of a month's page from those of its parts: the title comes from the
      head, the padding from the pads, the days from the rows, the week sums from the rows and
      the closing, the month's hours from the closing. */
  lemma MonthProjections(head: seq<Cell>, pads: seq<Cell>, rows: seq<Cell>, filler: seq<Cell>, closing: seq<Cell>)
    requires Project(head, PadOf) == [] && Project(head, DayCellOf) == [] && Project(head, WeekSumOf) == []
             && Project(head, MonthHoursOf) == []
    requires Project(closing, TitleOf) == [] && Project(closing, PadOf) == [] && Project(closing, DayCellOf) == []
    requires forall k :: 0 <= k < |pads| ==> pads[k] == Pad
    requires forall k :: 0 <= k < |rows| ==> RowCell(rows[k])
    requires forall k :: 0 <= k < |filler| ==> filler[k] == Filler
    ensures var cells := head + pads + rows + filler + closing;
            && Project(cells, TitleOf) == Project(head, TitleOf)
            && |Project(cells, PadOf)| == |pads|
            && Project(cells, DayCellOf) == Project(rows, DayCellOf)
            && Project(cells, WeekSumOf) == Project(rows, WeekSumOf) + Project(closing, WeekSumOf)
            && Project(cells, MonthHoursOf) == Project(closing, MonthHoursOf)
  {
    ProjectNone(filler, TitleOf);
    ProjectNone(filler, PadOf);
    ProjectNone(filler, DayCellOf);
    ProjectNone(filler, WeekSumOf);
    ProjectNone(filler, MonthHoursOf);
    MonthTitle(head, pads, rows, filler, closing);
    MonthPads(head, pads, rows, filler, closing);
    MonthDays(head, pads, rows, filler, closing);
    MonthWeekSums(head, pads, rows, filler, closing);
    MonthHours(head, pads, rows, filler, closing);
  }

  lemma MonthTitle(head: seq<Cell>, pads: seq<Cell>, rows: seq<Cell>, filler: seq<Cell>, closing: seq<Cell>)
    requires Project(closing, TitleOf) == [] && Project(filler, TitleOf) == []
    requires forall k :: 0 <= k < |pads| ==> pads[k] == Pad
    requires forall k :: 0 <= k < |rows| ==> RowCell(rows[k])
    ensures Project(head + pads + rows + filler + closing, TitleOf) == Project(head, TitleOf)
  {
    ProjectNone(pads, TitleOf);
    ProjectNone(rows, TitleOf);
    Project5(head, pads, rows, filler, closing, TitleOf);
    assert Project(head, TitleOf) + [] + [] + [] + [] == Project(head, TitleOf);
  }

  lemma MonthPads(head: seq<Cell>, pads: seq<Cell>, rows: seq<Cell>, filler: seq<Cell>, closing: seq<Cell>)
    requires Project(head, PadOf) == [] && Project(closing, PadOf) == [] && Project(filler, PadOf) == []
    requires forall k :: 0 <= k < |pads| ==> pads[k] == Pad
    requires forall k :: 0 <= k < |rows| ==> RowCell(rows[k])
    ensures |Project(head + pads + rows + filler + closing, PadOf)| == |pads|
  {
    ProjectAll(pads, PadOf);
    ProjectNone(rows, PadOf);
    ProjectAppend(head, pads, PadOf);
    assert Project(head + pads, PadOf) == Project(pads, PadOf);
    ProjectAppend(head + pads, rows, PadOf);
    assert Project(head + pads + rows, PadOf) == Project(pads, PadOf);
    ProjectAppend(head + pads + rows, filler, PadOf);
    assert Project(head + pads + rows + filler, PadOf) == Project(pads, PadOf);
    ProjectAppend(head + pads + rows + filler, closing, PadOf);
  }

  lemma MonthDays(head: seq<Cell>, pads: seq<Cell>, rows: seq<Cell>, filler: seq<Cell>, closing: seq<Cell>)
    requires Project(head, DayCellOf) == [] && Project(closing, DayCellOf) == [] && Project(filler, DayCellOf) == []
    requires forall k :: 0 <= k < |pads| ==> pads[k] == Pad
    ensures Project(head + pads + rows + filler + closing, DayCellOf) == Project(rows, DayCellOf)
  {
    ProjectNone(pads, DayCellOf);
    Project5(head, pads, rows, filler, closing, DayCellOf);
    assert [] + [] + Project(rows, DayCellOf) + [] + [] == Project(rows, DayCellOf);
  }

  lemma MonthWeekSums(head: seq<Cell>, pads: seq<Cell>, rows: seq<Cell>, filler: seq<Cell>, closing: seq<Cell>)
    requires Project(head, WeekSumOf) == [] && Project(filler, WeekSumOf) == []
    requires forall k :: 0 <= k < |pads| ==> pads[k] == Pad
    ensures Project(head + pads + rows + filler + closing, WeekSumOf)
         == Project(rows, WeekSumOf) + Project(closing, WeekSumOf)
  {
    ProjectNone(pads, WeekSumOf);
    ProjectAppend(head, pads, WeekSumOf);
    assert Project(head + pads, WeekSumOf) == [];
    ProjectAppend(head + pads, rows, WeekSumOf);
    assert Project(head + pads + rows, WeekSumOf) == Project(rows, WeekSumOf);
    ProjectAppend(head + pads + rows, filler, WeekSumOf);
    assert Project(head + pads + rows + filler, WeekSumOf) == Project(rows, WeekSumOf);
    ProjectAppend(head + pads + rows + filler, closing, WeekSumOf);
  }

  lemma MonthHours(head: seq<Cell>, pads: seq<Cell>, rows: seq<Cell>, filler: seq<Cell>, closing: seq<Cell>)
    requires Project(head, MonthHoursOf) == [] && Project(filler, MonthHoursOf) == []
    requires forall k :: 0 <= k < |pads| ==> pads[k] == Pad
    requires forall k :: 0 <= k < |rows| ==> RowCell(rows[k])
    ensures Project(head + pads + rows + filler + closing, MonthHoursOf) == Project(closing, MonthHoursOf)
  {
    ProjectNone(pads, MonthHoursOf);
    ProjectNone(rows, MonthHoursOf);
    Project5(head, pads, rows, filler, closing, MonthHoursOf);
    assert [] + [] + [] + [] + Project(closing, MonthHoursOf) == Project(closing, MonthHoursOf);
  }

  lemma Project5<T>(a: seq<Cell>, b: seq<Cell>, c: seq<Cell>, d: seq<Cell>, e: seq<Cell>, f: Cell -> Option<T>)
    ensures Project(a + b + c + d + e, f) == Project(a, f) + Project(b, f) + Project(c, f) + Project(d, f) + Project(e, f)
  {
    ProjectAppend(a, b, f);
    ProjectAppend(a + b, c, f);
    ProjectAppend(a + b + c, d, f);
    ProjectAppend(a + b + c + d, e, f);
  }

  lemma HeadProjections(year: int, month: int)
    ensures var head := [Title(month, year), HeaderRow, Indent];
            Project(head, TitleOf) == [(year, month)] && Project(head, PadOf) == [] && Project(head, DayCellOf) == []
            && Project(head, WeekSumOf) == [] && Project(head, MonthHoursOf) == []
  {
    Project3(Title(month, year), HeaderRow, Indent, TitleOf);
    Project3(Title(month, year), HeaderRow, Indent, PadOf);
    Project3(Title(month, year), HeaderRow, Indent, DayCellOf);
    Project3(Title(month, year), HeaderRow, Indent, WeekSumOf);
    Project3(Title(month, year), HeaderRow, Indent, MonthHoursOf);
  }

  lemma ClosingProjections(weekHours: real, summary: Cell)
    requires summary.MonthSummary?
    ensures var closing := [WeekSum(weekHours), summary, BlankLine];
            Project(closing, TitleOf) == [] && Project(closing, PadOf) == [] && Project(closing, DayCellOf) == []
            && Project(closing, WeekSumOf) == [weekHours] && Project(closing, MonthHoursOf) == [summary.hours]
  {
    Project3(WeekSum(weekHours), summary, BlankLine, TitleOf);
    Project3(WeekSum(weekHours), summary, BlankLine, PadOf);
    Project3(WeekSum(weekHours), summary, BlankLine, DayCellOf);
    Project3(WeekSum(weekHours), summary, BlankLine, WeekSumOf);
    Project3(WeekSum(weekHours), summary, BlankLine, MonthHoursOf);
  }

  // ---- years and the whole report ----

  /** The pages of one year's months, in ascending month order; each month renders all of its
      days (the intended bound, see `DayBound`). */
  method RenderYear(year: int, months: Months, conf: Configuration) returns (cells: seq<Cell>)
    requires MonthsValid(conf, year, months)
    ensures Ascending(Project(cells, TitleOf))
    ensures forall t :: t in Project(cells, TitleOf) <==> t.0 == year && t.1 in months
    ensures Sum(Project(cells, MonthHoursOf)) == YearTotal(months)
    ensures MonthsPaired(Project(cells, TitleOf), Project(cells, MonthHoursOf), map[year := months])
  {
    cells := [];
    var rest := months;
    while rest.Keys != {}
      invariant YearSoFar(year, months, rest, cells)
      decreases |rest.Keys|
    {
      LeastExists(rest.Keys);
      var month :| month in rest && forall m :: m in rest ==> month <= m;
      var days := rest[month];
      assert DaysValid(conf, year, month, days);
      var monthCells := RenderMonth(year, month, days, conf, DayBound(year, month));
      EveryDayRendered(conf, year, month, days);
      YearStep(year, months, rest, cells, month, monthCells);
      cells := cells + monthCells;
      rest := rest - {month};
    }
    assert rest == map[];
  }

  /** The pages rendered so far cover exactly the months no longer in `rest`, in ascending
      order and before every month still to come, with their hours. */
  ghost predicate YearSoFar(year: int, months: Months, rest: Months, cells: seq<Cell>)
  {
    var titles := Project(cells, TitleOf);
    && (forall m :: m in rest ==> m in months && rest[m] == months[m])
    && Ascending(titles)
    && (forall t :: t in titles <==> t.0 == year && t.1 in months && t.1 !in rest)
    && (forall i, m :: 0 <= i < |titles| && m in rest ==> titles[i].1 < m)
    && Sum(Project(cells, MonthHoursOf)) + YearTotal(rest) == YearTotal(months)
    && MonthsPaired(titles, Project(cells, MonthHoursOf), map[year := months])
  }

  lemma YearStep(year: int, months: Months, rest: Months, cells: seq<Cell>, month: int, monthCells: seq<Cell>)
    requires YearSoFar(year, months, rest, cells)
    requires month in rest && forall m :: m in rest ==> month <= m
    requires Project(monthCells, TitleOf) == [(year, month)]
    requires Project(monthCells, MonthHoursOf) == [MonthTotal(rest[month])]
    ensures YearSoFar(year, months, rest - {month}, cells + monthCells)
  {
    ProjectAppend(cells, monthCells, TitleOf);
    YearTitlesStep(year, months, rest, Project(cells, TitleOf), month);
    YearHoursStep(months, rest, cells, month, monthCells);
    YearPairedStep(year, months, rest, cells, month, monthCells);
  }

  lemma YearPairedStep(year: int, months: Months, rest: Months, cells: seq<Cell>, month: int, monthCells: seq<Cell>)
    requires month in rest && month in months && rest[month] == months[month]
    requires MonthsPaired(Project(cells, TitleOf), Project(cells, MonthHoursOf), map[year := months])
    requires Project(monthCells, TitleOf) == [(year, month)]
    requires Project(monthCells, MonthHoursOf) == [MonthTotal(rest[month])]
    ensures MonthsPaired(Project(cells + monthCells, TitleOf), Project(cells + monthCells, MonthHoursOf), map[year := months])
  {
    ProjectAppend(cells, monthCells, TitleOf);
    ProjectAppend(cells, monthCells, MonthHoursOf);
    var single := map[year := months];
    assert MonthsPaired([(year, month)], [MonthTotal(rest[month])], single);
    PairedAppend(Project(cells, TitleOf), Project(cells, MonthHoursOf), [(year, month)], [MonthTotal(rest[month])], single);
  }

  /** Each title is paired with the month summary in the same place: the i-th month summary
      holds the hours of the month the i-th title names. */
  ghost predicate MonthsPaired(titles: seq<(int, int)>, hours: seq<real>, years: Years)
  {
    && |titles| == |hours|
    && forall i :: 0 <= i < |titles| ==>
         titles[i].0 in years && titles[i].1 in years[titles[i].0]
         && hours[i] == MonthTotal(years[titles[i].0][titles[i].1])
  }

  lemma PairedAppend(titles: seq<(int, int)>, hours: seq<real>, titles': seq<(int, int)>, hours': seq<real>, years: Years)
    requires MonthsPaired(titles, hours, years) && MonthsPaired(titles', hours', years)
    ensures MonthsPaired(titles + titles', hours + hours', years)
  {
    forall i | |titles| <= i < |titles| + |titles'|
      ensures (titles + titles')[i] == titles'[i - |titles|] && (hours + hours')[i] == hours'[i - |titles|]
    {
    }
  }

  /** A year's pairing holds within all years when that year's months are the same. */
  lemma PairedLift(titles: seq<(int, int)>, hours: seq<real>, year: int, months: Months, years: Years)
    requires year in years && years[year] == months
    requires MonthsPaired(titles, hours, map[year := months])
    ensures MonthsPaired(titles, hours, years)
  {
  }

  lemma YearHoursStep(months: Months, rest: Months, cells: seq<Cell>, month: int, monthCells: seq<Cell>)
    requires month in rest
    requires Sum(Project(cells, MonthHoursOf)) + YearTotal(rest) == YearTotal(months)
    requires Project(monthCells, MonthHoursOf) == [MonthTotal(rest[month])]
    ensures Sum(Project(cells + monthCells, MonthHoursOf)) + YearTotal(rest - {month}) == YearTotal(months)
  {
    ProjectAppend(cells, monthCells, MonthHoursOf);
    SumAppend(Project(cells, MonthHoursOf), [MonthTotal(rest[month])]);
    SumSingle(MonthTotal(rest[month]));
    MapSumRemove(rest, month, MonthTerm);
  }

  lemma YearTitlesStep(year: int, months: Months, rest: Months, titles: seq<(int, int)>, month: int)
    requires forall m :: m in rest ==> m in months
    requires Ascending(titles)
    requires forall t :: t in titles <==> t.0 == year && t.1 in months && t.1 !in rest
    requires forall i, m :: 0 <= i < |titles| && m in rest ==> titles[i].1 < m
    requires month in rest && forall m :: m in rest ==> month <= m
    ensures var titles' := titles + [(year, month)];
            && Ascending(titles')
            && (forall t :: t in titles' <==> t.0 == year && t.1 in months && t.1 !in rest - {month})
            && (forall i, m :: 0 <= i < |titles'| && m in rest - {month} ==> titles'[i].1 < m)
  {
    forall i | 0 <= i < |titles|
      ensures Before(titles[i], (year, month))
    {
      assert titles[i] in titles;
    }
    AscendingAppend(titles, (year, month));
  }

  /** A title after every earlier title keeps the titles ascending. */
  lemma AscendingAppend(titles: seq<(int, int)>, t: (int, int))
    requires Ascending(titles)
    requires forall i :: 0 <= i < |titles| ==> Before(titles[i], t)
    ensures Ascending(titles + [t])
  {
  }

  /** `report`: the calendar pages of every year in ascending order, then the total line with
      the number of jobs, their hours and their pay, if any job is paid. */
  method Report(jobs: JobList, env: ReportEnv) returns (cells: seq<Cell>)
    ensures var years := Bucketed(Fragments(jobs.configuration, env, jobs.jobs));
            && Ascending(Project(cells, TitleOf))
            && (forall t :: t in Project(cells, TitleOf) <==> t.0 in years && t.1 in years[t.0])
    ensures Sum(Project(cells, MonthHoursOf)) == FragmentHours(Fragments(jobs.configuration, env, jobs.jobs))
    ensures MonthsPaired(Project(cells, TitleOf), Project(cells, MonthHoursOf), Bucketed(Fragments(jobs.configuration, env, jobs.jobs)))
    ensures |cells| >= 1 && cells[|cells| - 1].Summary?
    ensures cells[|cells| - 1].count == |jobs.jobs|
    ensures cells[|cells| - 1].hours == TotalHours(jobs.jobs, jobs.configuration, env.hours)
    ensures cells[|cells| - 1].pay.None? <==> forall i :: 0 <= i < |jobs.jobs| ==> !Rated(jobs.configuration, jobs.jobs[i].job)
    ensures cells[|cells| - 1].pay.Some? ==> cells[|cells| - 1].pay.value == TotalPay(jobs.jobs, jobs.configuration, env.hours)
  {
    var years := CollectHours(jobs.jobs, jobs.configuration, env);
    cells := [];
    var rest := years;
    while rest.Keys != {}
      invariant ReportSoFar(years, rest, cells)
      invariant forall y :: y in rest ==> y in years && rest[y] == years[y]
      decreases |rest.Keys|
    {
      LeastExists(rest.Keys);
      var year :| year in rest && forall y :: y in rest ==> year <= y;
      var yearCells := RenderYear(year, rest[year], jobs.configuration);
      ReportStep(years, rest, cells, year, yearCells);
      cells := cells + yearCells;
      rest := rest - {year};
    }
    assert rest == map[];
    var hours := jobs.HoursOverall(env.hours);
    var pay := jobs.PayOverall(env.hours);
    var summary := Summary(|jobs.jobs|, hours, pay);
    SummaryProjections(cells, summary);
    cells := cells + [summary];
  }

  /** The years rendered so far cover exactly the years no longer in `rest`, in ascending
      order and before every year still to come, with their hours. */
  ghost predicate ReportSoFar(years: Years, rest: Years, cells: seq<Cell>)
  {
    var titles := Project(cells, TitleOf);
    && Ascending(titles)
    && (forall t :: t in titles <==> t.0 in years && t.1 in years[t.0] && t.0 !in rest)
    && (forall i, y :: 0 <= i < |titles| && y in rest ==> titles[i].0 < y)
    && Sum(Project(cells, MonthHoursOf)) + Total(rest) == Total(years)
    && MonthsPaired(titles, Project(cells, MonthHoursOf), years)
  }

  lemma ReportStep(years: Years, rest: Years, cells: seq<Cell>, year: int, yearCells: seq<Cell>)
    requires ReportSoFar(years, rest, cells)
    requires forall y :: y in rest ==> y in years && rest[y] == years[y]
    requires year in rest && forall y :: y in rest ==> year <= y
    requires Ascending(Project(yearCells, TitleOf))
    requires forall t :: t in Project(yearCells, TitleOf) <==> t.0 == year && t.1 in rest[year]
    requires Sum(Project(yearCells, MonthHoursOf)) == YearTotal(rest[year])
    requires MonthsPaired(Project(yearCells, TitleOf), Project(yearCells, MonthHoursOf), map[year := rest[year]])
    ensures ReportSoFar(years, rest - {year}, cells + yearCells)
  {
    ProjectAppend(cells, yearCells, TitleOf);
    ReportTitlesStep(years, rest, Project(cells, TitleOf), year, Project(yearCells, TitleOf));
    ReportHoursStep(years, rest, cells, year, yearCells);
    ReportPairedStep(years, rest, cells, year, yearCells);
  }

  lemma ReportPairedStep(years: Years, rest: Years, cells: seq<Cell>, year: int, yearCells: seq<Cell>)
    requires year in rest && year in years && rest[year] == years[year]
    requires MonthsPaired(Project(cells, TitleOf), Project(cells, MonthHoursOf), years)
    requires MonthsPaired(Project(yearCells, TitleOf), Project(yearCells, MonthHoursOf), map[year := rest[year]])
    ensures MonthsPaired(Project(cells + yearCells, TitleOf), Project(cells + yearCells, MonthHoursOf), years)
  {
    ProjectAppend(cells, yearCells, TitleOf);
    ProjectAppend(cells, yearCells, MonthHoursOf);
    PairedLift(Project(yearCells, TitleOf), Project(yearCells, MonthHoursOf), year, rest[year], years);
    PairedAppend(Project(cells, TitleOf), Project(cells, MonthHoursOf),
                 Project(yearCells, TitleOf), Project(yearCells, MonthHoursOf), years);
  }

  lemma ReportHoursStep(years: Years, rest: Years, cells: seq<Cell>, year: int, yearCells: seq<Cell>)
    requires year in rest
    requires Sum(Project(cells, MonthHoursOf)) + Total(rest) == Total(years)
    requires Sum(Project(yearCells, MonthHoursOf)) == YearTotal(rest[year])
    ensures Sum(Project(cells + yearCells, MonthHoursOf)) + Total(rest - {year}) == Total(years)
  {
    ProjectAppend(cells, yearCells, MonthHoursOf);
    SumAppend(Project(cells, MonthHoursOf), Project(yearCells, MonthHoursOf));
    MapSumRemove(rest, year, YearTerm);
  }

  lemma ReportTitlesStep(years: Years, rest: Years, titles: seq<(int, int)>, year: int, more: seq<(int, int)>)
    requires forall y :: y in rest ==> y in years && rest[y] == years[y]
    requires Ascending(titles)
    requires forall t :: t in titles <==> t.0 in years && t.1 in years[t.0] && t.0 !in rest
    requires forall i, y :: 0 <= i < |titles| && y in rest ==> titles[i].0 < y
    requires year in rest && forall y :: y in rest ==> year <= y
    requires Ascending(more)
    requires forall t :: t in more <==> t.0 == year && t.1 in rest[year]
    ensures var titles' := titles + more;
            && Ascending(titles')
            && (forall t :: t in titles' <==> t.0 in years && t.1 in years[t.0] && t.0 !in rest - {year})
            && (forall i, y :: 0 <= i < |titles'| && y in rest - {year} ==> titles'[i].0 < y)
  {
    forall i, j | 0 <= i < |titles| && 0 <= j < |more|
      ensures Before(titles[i], more[j])
    {
      assert more[j] in more;
    }
    AscendingConcat(titles, more);
    var titles' := titles + more;
    forall i, y | 0 <= i < |titles'| && y in rest - {year}
      ensures titles'[i].0 < y
    {
      if i >= |titles| {
        assert titles'[i] == more[i - |titles|];
        assert more[i - |titles|] in more;
      }
    }
  }

  lemma AscendingConcat(a: seq<(int, int)>, b: seq<(int, int)>)
    requires Ascending(a) && Ascending(b)
    requires forall i, j :: 0 <= i < |a| && 0 <= j < |b| ==> Before(a[i], b[j])
    ensures Ascending(a + b)
  {
    forall i, j | 0 <= i < j < |a + b|
      ensures Before((a + b)[i], (a + b)[j])
    {
      if j < |a| {
      } else if i < |a| {
        assert (a + b)[j] == b[j - |a|];
      } else {
        assert (a + b)[i] == b[i - |a|] && (a + b)[j] == b[j - |a|];
      }
    }
  }

  /** The total line adds no title and no month's hours. */
  lemma SummaryProjections(cells: seq<Cell>, summary: Cell)
    requires summary.Summary?
    ensures Project(cells + [summary], TitleOf) == Project(cells, TitleOf)
    ensures Project(cells + [summary], MonthHoursOf) == Project(cells, MonthHoursOf)
  {
    ProjectAppend(cells, [summary], TitleOf);
    ProjectAppend(cells, [summary], MonthHoursOf);
    ProjectSingle(summary, TitleOf);
    ProjectSingle(summary, MonthHoursOf);
    assert Project(cells, TitleOf) + [] == Project(cells, TitleOf);
    assert Project(cells, MonthHoursOf) + [] == Project(cells, MonthHoursOf);
  }
}
