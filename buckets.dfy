/** The first half of `report` in `src/reports.rs`: every job is split into per-day fragments
    and each fragment's hours are added to the bucket year -> month -> day -> tag, where the tag
    is the one the fragment's own tags resolve to (`None` for the base properties).

    `Job::split` and the calendar date of an instant live in files that are not part of this
    model; they are functions of a `ReportEnv`, as is `Job::hours`. */
module Buckets {
  import opened Wrappers
  import opened Calendar
  import opened Instants
  import opened Configurations
  import opened JobLists
  import opened Sums

  datatype Date = Date(year: int, month: int, day: int)

  /** A date of the calendar (what chrono's `year()`, `month()` and `day()` give). */
  type ValidDate = d: Date | IsDate(d.year, d.month, d.day) witness Date(1970, 1, 1)

  /** Splitting a job into its per-day fragments, the calendar date of an instant, and
      `Job::hours` under given properties. */
  datatype ReportEnv = ReportEnv(
    split: Job -> seq<Job>,
    dateOf: DateTime -> ValidDate,
    hours: (Job, Properties) -> real)

  type TagHours = map<Option<string>, real>
  type Days = map<int, TagHours>
  type Months = map<int, Days>
  type Years = map<int, Months>

  /** What one fragment contributes: its date, the tag it resolves to and its hours. */
  datatype Fragment = Fragment(date: ValidDate, tag: Option<string>, hours: real)

  /** A fragment's bucket and hours, with the properties its own tags resolve to. */
  function FragmentOf(conf: Configuration, env: ReportEnv, part: Job): (f: Fragment)
    ensures KnownTag(conf, f.tag)
    ensures f.hours == env.hours(part, Resolve(conf, part.tags))
    ensures f.date == env.dateOf(part.start)
  {
    var (tag, properties) := GetAndWhy(conf, part.tags);
    Fragment(env.dateOf(part.start), tag, env.hours(part, properties))
  }

  /** The fragments of the parts of one job. */
  function PartFragments(conf: Configuration, env: ReportEnv, parts: seq<Job>): (fs: seq<Fragment>)
    ensures |fs| == |parts|
    ensures forall i :: 0 <= i < |parts| ==> fs[i] == FragmentOf(conf, env, parts[i])
  {
    seq(|parts|, i requires 0 <= i < |parts| => FragmentOf(conf, env, parts[i]))
  }

  /** The fragments of all jobs, job after job. */
  function Fragments(conf: Configuration, env: ReportEnv, jobs: seq<IndexedJob>): seq<Fragment>
  {
    if jobs == [] then []
    else Fragments(conf, env, jobs[..|jobs| - 1]) + PartFragments(conf, env, env.split(jobs[|jobs| - 1].job))
  }

  /** The hours in one bucket; zero for a bucket that does not exist. */
  function Lookup(years: Years, year: int, month: int, day: int, tag: Option<string>): real
  {
    if year in years && month in years[year] && day in years[year][month] && tag in years[year][month][day]
    then years[year][month][day][tag]
    else 0.0
  }

  /** Adding one fragment: buckets that do not exist yet are created on the way down. */
  function AddFragment(years: Years, f: Fragment): (r: Years)
    ensures r.Keys == years.Keys + {f.date.year}
  {
    var Date(year, month, day) := f.date;
    var months := if year in years then years[year] else map[];
    var days := if month in months then months[month] else map[];
    var tagHours := if day in days then days[day] else map[];
    var hours := if f.tag in tagHours then tagHours[f.tag] else 0.0;
    years[year := months[month := days[day := tagHours[f.tag := hours + f.hours]]]]
  }

  /** The buckets after adding the fragments in order. */
  function Bucketed(fs: seq<Fragment>): Years
  {
    if fs == [] then map[] else AddFragment(Bucketed(fs[..|fs| - 1]), fs[|fs| - 1])
  }

  /** The hours of the fragments that fall into one bucket. */
  function MatchingHours(fs: seq<Fragment>, year: int, month: int, day: int, tag: Option<string>): real
  {
    if fs == [] then 0.0
    else
      var f := fs[|fs| - 1];
      MatchingHours(fs[..|fs| - 1], year, month, day, tag)
        + (if f.date == Date(year, month, day) && f.tag == tag then f.hours else 0.0)
  }

  /** The hours of all fragments. */
  function FragmentHours(fs: seq<Fragment>): real
  {
    if fs == [] then 0.0 else FragmentHours(fs[..|fs| - 1]) + fs[|fs| - 1].hours
  }

  // ---- totals over the buckets ----

  function TagTerm(tag: Option<string>, hours: real): real { hours }

  ghost function DayTotal(tagHours: TagHours): real
  {
    MapSum(tagHours, TagTerm)
  }

  ghost function DayTerm(day: int, tagHours: TagHours): real { DayTotal(tagHours) }

  ghost function MonthTotal(days: Days): real
  {
    MapSum(days, DayTerm)
  }

  ghost function MonthTerm(month: int, days: Days): real { MonthTotal(days) }

  ghost function YearTotal(months: Months): real
  {
    MapSum(months, MonthTerm)
  }

  ghost function YearTerm(year: int, months: Months): real { YearTotal(months) }

  /** The hours in all buckets. */
  ghost function Total(years: Years): real
  {
    MapSum(years, YearTerm)
  }

  // ---- well-formed buckets ----

  predicate TagsKnown(conf: Configuration, tagHours: TagHours)
  {
    forall tag :: tag in tagHours ==> KnownTag(conf, tag)
  }

  /** The days of a month are days of that month and hold only tags the configuration knows. */
  predicate DaysValid(conf: Configuration, year: int, month: int, days: Days)
  {
    1 <= month <= 12 && forall day :: day in days ==> 1 <= day <= DaysInMonth(year, month) && TagsKnown(conf, days[day])
  }

  predicate MonthsValid(conf: Configuration, year: int, months: Months)
  {
    forall month :: month in months ==> DaysValid(conf, year, month, months[month])
  }

  predicate YearsValid(conf: Configuration, years: Years)
  {
    forall year :: year in years ==> MonthsValid(conf, year, years[year])
  }

  // ---- properties of the bucketing ----

  /** A fragment goes into exactly one bucket: its own, by its hours; every other bucket keeps
      its hours. */
  lemma AddFragmentLookup(years: Years, f: Fragment, year: int, month: int, day: int, tag: Option<string>)
    ensures Lookup(AddFragment(years, f), year, month, day, tag)
         == Lookup(years, year, month, day, tag)
            + (if f.date == Date(year, month, day) && f.tag == tag then f.hours else 0.0)
  {
  }

  /** Each bucket holds exactly the hours of the fragments that belong to it. */
  lemma {:induction false} BucketedLookup(fs: seq<Fragment>, year: int, month: int, day: int, tag: Option<string>)
    ensures Lookup(Bucketed(fs), year, month, day, tag) == MatchingHours(fs, year, month, day, tag)
  {
    if fs != [] {
      BucketedLookup(fs[..|fs| - 1], year, month, day, tag);
      AddFragmentLookup(Bucketed(fs[..|fs| - 1]), fs[|fs| - 1], year, month, day, tag);
    }
  }

  /** Adding a fragment adds its hours to the total. */
  lemma AddFragmentTotal(years: Years, f: Fragment)
    ensures Total(AddFragment(years, f)) == Total(years) + f.hours
  {
    var Date(year, month, day) := f.date;
    var months := if year in years then years[year] else map[];
    var days := if month in months then months[month] else map[];
    var tagHours := if day in days then days[day] else map[];
    var hours := if f.tag in tagHours then tagHours[f.tag] else 0.0;
    var tagHours' := tagHours[f.tag := hours + f.hours];
    var days' := days[day := tagHours'];
    var months' := months[month := days'];
    assert AddFragment(years, f) == years[year := months'];
    EmptyTotals();
    MapSumGrow(tagHours, f.tag, 0.0, hours + f.hours, TagTerm, f.hours);
    assert DayTerm(day, tagHours') == DayTerm(day, tagHours) + f.hours;
    MapSumGrow(days, day, map[], tagHours', DayTerm, f.hours);
    assert MonthTerm(month, days') == MonthTerm(month, days) + f.hours;
    MapSumGrow(months, month, map[], days', MonthTerm, f.hours);
    assert YearTerm(year, months') == YearTerm(year, months) + f.hours;
    MapSumGrow(years, year, map[], months', YearTerm, f.hours);
  }

  /** Empty buckets hold no hours. */
  lemma EmptyTotals()
    ensures DayTotal(map[]) == 0.0 && MonthTotal(map[]) == 0.0 && YearTotal(map[]) == 0.0
  {
    var noTags: TagHours, noDays: Days, noMonths: Months := map[], map[], map[];
    assert noTags.Keys == {} && noDays.Keys == {} && noMonths.Keys == {};
  }

  /** The buckets hold the hours of all fragments, no more and no less. */
  lemma {:induction false} BucketedTotal(fs: seq<Fragment>)
    ensures Total(Bucketed(fs)) == FragmentHours(fs)
  {
    if fs != [] {
      BucketedTotal(fs[..|fs| - 1]);
      AddFragmentTotal(Bucketed(fs[..|fs| - 1]), fs[|fs| - 1]);
    }
  }

  /** Every bucket is a calendar day with a tag the configuration knows, provided every
      fragment's tag is known. */
  lemma {:induction false} BucketedValid(conf: Configuration, fs: seq<Fragment>)
    requires forall i :: 0 <= i < |fs| ==> KnownTag(conf, fs[i].tag)
    ensures YearsValid(conf, Bucketed(fs))
  {
    if fs != [] {
      BucketedValid(conf, fs[..|fs| - 1]);
      var f := fs[|fs| - 1];
      assert KnownTag(conf, f.tag);
    }
  }

  /** The buckets `report` builds from a job list. */
  lemma FragmentsValid(conf: Configuration, env: ReportEnv, jobs: seq<IndexedJob>)
    ensures forall i :: 0 <= i < |Fragments(conf, env, jobs)| ==> KnownTag(conf, Fragments(conf, env, jobs)[i].tag)
  {
    FragmentsKnown(conf, env, jobs);
  }

  lemma {:induction false} FragmentsKnown(conf: Configuration, env: ReportEnv, jobs: seq<IndexedJob>)
    ensures forall i :: 0 <= i < |Fragments(conf, env, jobs)| ==> KnownTag(conf, Fragments(conf, env, jobs)[i].tag)
  {
    if jobs != [] {
      FragmentsKnown(conf, env, jobs[..|jobs| - 1]);
    }
  }

  lemma PartStep(conf: Configuration, env: ReportEnv, before: seq<Fragment>, parts: seq<Job>, j: nat)
    requires j < |parts|
    ensures Bucketed(before + PartFragments(conf, env, parts[..j + 1]))
         == AddFragment(Bucketed(before + PartFragments(conf, env, parts[..j])), FragmentOf(conf, env, parts[j]))
  {
    var done := before + PartFragments(conf, env, parts[..j]);
    assert before + PartFragments(conf, env, parts[..j + 1]) == done + [FragmentOf(conf, env, parts[j])];
    assert (done + [FragmentOf(conf, env, parts[j])])[..|done|] == done;
  }

  lemma FragmentsStep(conf: Configuration, env: ReportEnv, jobs: seq<IndexedJob>, i: nat)
    requires i < |jobs|
    ensures Fragments(conf, env, jobs[..i + 1])
         == Fragments(conf, env, jobs[..i]) + PartFragments(conf, env, env.split(jobs[i].job))
  {
    assert jobs[..i + 1][..i] == jobs[..i];
  }

  /** One step of the bucketing loop: find or create the year, month, day and tag entries of
      the fragment and add its hours. */
  method AddPart(years: Years, conf: Configuration, env: ReportEnv, part: Job) returns (updated: Years)
    ensures updated == AddFragment(years, FragmentOf(conf, env, part))
  {
    var date := env.dateOf(part.start);
    var (tag, properties) := GetAndWhy(conf, part.tags);
    var year := date.year;
    var months := if year in years then years[year] else map[];
    var month := date.month;
    var days := if month in months then months[month] else map[];
    var day := date.day;
    var tagHours := if day in days then days[day] else map[];
    var jobHours := env.hours(part, properties);
    var hours := if tag in tagHours then tagHours[tag] else 0.0;
    updated := years[year := months[month := days[day := tagHours[tag := hours + jobHours]]]];
  }

  /** The bucketing loop of `report`: every fragment of every job's split, in order. */
  method CollectHours(jobs: seq<IndexedJob>, conf: Configuration, env: ReportEnv) returns (years: Years)
    ensures years == Bucketed(Fragments(conf, env, jobs))
    ensures YearsValid(conf, years)
    ensures Total(years) == FragmentHours(Fragments(conf, env, jobs))
  {
    years := map[];
    for i := 0 to |jobs|
      invariant years == Bucketed(Fragments(conf, env, jobs[..i]))
    {
      var parts := env.split(jobs[i].job);
      ghost var before := Fragments(conf, env, jobs[..i]);
      assert before + PartFragments(conf, env, parts[..0]) == before;
      for j := 0 to |parts|
        invariant years == Bucketed(before + PartFragments(conf, env, parts[..j]))
      {
        years := AddPart(years, conf, env, parts[j]);
        PartStep(conf, env, before, parts, j);
      }
      assert parts[..|parts|] == parts;
      FragmentsStep(conf, env, jobs, i);
    }
    assert jobs[..|jobs|] == jobs;
    FragmentsValid(conf, env, jobs);
    BucketedValid(conf, Fragments(conf, env, jobs));
    BucketedTotal(Fragments(conf, env, jobs));
  }
}
