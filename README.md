# jobber, modelled in Dafny

jobber is a command-line time tracker. It records jobs, each with a start, an optional end, a
message and tags, and stores them in a database together with a configuration. The
configuration gives base properties (resolution, hourly rate, daily hour limit), and tags can
override them. This project models the core of the program and proves properties of it:

- **Instants** (`instants.dfy`): `DateTime` as whole seconds, and jobber's `Duration` (`Zero`
  or hours and minutes). It covers addition and subtraction of both duration kinds, the
  assigning operators, the difference of two instants and the total order.
- **Calendar** (`calendar.dfy`): leap years, month lengths and the weekday of a date. The
  report needs these and takes them from chrono and `days_in_month`.
- **Configurations** (`configurations.dfy`): the first-match resolution of a job's
  properties. `get_and_why` and `get_checked` are not part of this model; they are given the
  bodies listed under "Left out". The `tag.into()` conversion the report applies before
  `get_checked` is modelled.
- **Tag sets** (`tag_sets.dfy`): `TagSet` as a class over a sequence of tags, with `insert`,
  `insert_many`, `remove` and `modify`. It also covers the `From` conversions, `filter` and
  `contains`.
- **Commands** (`commands.dfy`): the decision tree of `Command::parse`, the rollover rules
  for start and end times, and `set_message`.
- **Job lists** (`job_lists.dfy`): `JobList` as a class with `new_from`, `push`, `drain`,
  `tags`, `positions`, the configuration lookups, `hours_overall` and `pay_overall`.
- **Report** (`buckets.dfy`, `reports.dfy`): `report`.
  - Every job's per-day parts are bucketed by year, month, day and resolved tag.
  - Each month renders as a calendar page with weekly and monthly sums and the month's cost.
  - The pages come in ascending order and end with a total line.
  - The text is a sequence of cells, one per write of the source.
- **Formatting** (`formatting.dfy`): the colourless `message`, the hours bar and `pay`.
- **Changes** (`changes.dfy`): the confirmation text of `Display for Change`.
- **Shared helpers:** `sums.dfy` (sums over map entries in any order, the least element of a
  set), `text.dfy` (split, join, repeat, decimal digits) and `wrappers.dfy`.

Some collaborators are parameters of the model:
- `PartialDateTime`, `Duration` and `Range` parsing are fields of a `Parsers` record.
- `Job::split`, `Job::hours` and the calendar date of an instant are fields of a `ReportEnv`.
- The printed forms of a job, a tag set and a configuration are fields of a `Texts` record.

Where the code's behaviour differs from what its names or comments suggest, the model follows
the code:
- `drain(count)` fails when `count` exceeds the number of jobs, and otherwise keeps the last
  `count` jobs.
- `ListTags` is chosen only after `SetConfiguration` and `LegacyImport`.
- `modify` builds its result from an empty set and never reads the set it is called on.
- Converting from a vector removes only adjacent duplicates.
- `modify` always drops an entry's first character, even when the marker is at the end. The
  model follows this; see Findings.
- The report's day loop stops before the month's last day. This is the one place where the
  model does not follow the code: the report is modelled with the corrected bound, and the
  bound as written is modelled beside it (see Findings and "Left out").

## Model

| member | source | states |
|---|---|---|
| Wrappers.Flatten | src/command.rs:269-272 | `Option::flatten`: a value exactly when both layers hold one |
| Text.Split | src/tag_set.rs:122-126 | splitting gives at least one part, no part holds the separator, and joining the parts gives back the input |
| Text.SplitJoin | src/command.rs:111-115 | splitting joined parts that do not hold the separator gives back the parts |
| Text.SplitNoSeparator | src/format.rs:207-209 | a text without the separator splits into itself alone |
| Text.Repeat | src/format.rs:214-216 | `n` copies of one character |
| Text.NatToString | src/change.rs:33-35 | a count renders as decimal digits without leading zeros |
| Text.DecimalRoundTrip | src/change.rs:33-35 | reading the rendered digits back gives the count |
| Instants.Days | src/command.rs:156-158 | `Duration::days(n)` spans exactly `n * 24 * 60` minutes |
| Instants.IntoChrono | src/date_time.rs:64-87 | a duration converts to 60 seconds per minute it spans |
| Instants.OrderIsTotal | src/date_time.rs:5-9 | the derived order on instants is reflexive, antisymmetric, transitive and total, and `<` is `<=` without equality |
| Instants.Add | src/date_time.rs:88-101 | adding a duration moves the instant later by the duration's minutes; `Zero` leaves it unchanged |
| Instants.Sub | src/date_time.rs:102-115 | subtracting a duration moves the instant earlier by the duration's minutes |
| Instants.AddAssign | src/date_time.rs:76-87 | `+=` gives the same instant as `+` |
| Instants.SubAssign | src/date_time.rs:64-75 | `-=` gives the same instant as `-` |
| Instants.AddChrono | src/date_time.rs:116-124 | adding a chrono duration moves the instant by that many seconds, so it is later exactly when the duration is positive |
| Instants.SubChrono | src/date_time.rs:125-133 | subtracting a chrono duration moves the instant back by that many seconds, so it is earlier exactly when the duration is positive |
| Instants.AddSubRoundTrip | src/date_time.rs:88-133 | subtracting what was added, or adding what was subtracted, gives back the instant, for both duration kinds |
| Instants.TruncDiv | src/date_time.rs:136-141 | integer division rounds toward zero, as Rust's `/` does |
| Instants.TruncRem | src/date_time.rs:136-141 | the remainder is what the truncating quotient leaves, with the dividend's sign |
| Instants.Diff | src/date_time.rs:134-142 | the difference of two instants is always `HM`: whole minutes rounded toward zero, hours and minutes with the same sign, and minutes below 60 in size |
| Instants.DiffOfAdd | src/date_time.rs:88-142 | the difference between `b + HM{h, m}` and `b` is `HM{h, m}` when both parts share a sign and the minutes are below 60 |
| Instants.DiffOfMinutes | src/date_time.rs:134-142 | instants a whole number of minutes apart differ by that many minutes, split into hours and minutes by truncating division |
| Instants.TruncDivExact | src/date_time.rs:136-141 | whole hours divide exactly |
| Instants.TruncSplit | src/date_time.rs:136-141 | `h * 60 + m` splits back into `h` and `m` when both share a sign |
| Calendar.DaysInMonth | src/reports.rs:92 | a month has 28 to 31 days, and 29 exactly for February of a leap year |
| Calendar.Weekday | src/reports.rs:80-84 | a weekday counted from Sunday, between 0 and 6 |
| Calendar.NextDayWeekday | src/reports.rs:92-98 | the next day is one weekday further, wrapping from Saturday to Sunday |
| Calendar.KnownWeekdays | src/reports.rs:80-98 | 1970-01-01 is a Thursday, 2023-01-01 a Sunday, and 2023-06-30 and 2023-07-01 a Friday and a Saturday |
| Configurations.FirstOverride | src/job_list.rs:98-105 | the index of the first tag with an override, or none exactly when no tag has one |
| Configurations.Resolve | src/job_list.rs:94-105 | a job's properties are the base properties or one tag's override, never a merge |
| Configurations.GetAndWhy | src/reports.rs:39-40 | resolves the properties and names the deciding tag, present exactly when some tag has an override |
| Configurations.GetChecked | src/reports.rs:119-122 | succeeds exactly for no tag or a configured tag, giving the base properties or that tag's override |
| Configurations.FirstMatchNotMerge | src/job_list.rs:98-105 | with overrides for two tags, a job tagged with both takes only the first tag's rate |
| Configurations.CheckedAgreesWithResolution | src/reports.rs:119-122 | the tag that `get_and_why` names is always accepted by `get_checked`, which gives back the same properties; `tag.into()` passes the one-tag set exactly when that tag holds no `*` |
| Configurations.TagIntoOneTag | src/tag_set.rs:108-116 | `tag.into()` makes the one-tag set of a tag exactly when the tag holds no `*` |
| Configurations.TagIntoSplitsStar | src/reports.rs:121 | a configured tag "a*b" reaches `get_checked` as the two tags "a" and "b" |
| TagSets.InsertedAllProperties | src/tag_set.rs:57-69 | inserting many tags keeps the old tags as a prefix, holds exactly the old and the new tags, and keeps a duplicate-free set duplicate-free |
| TagSets.InsertedAllAppend | src/tag_set.rs:65-69 | inserting two lists one after the other is the same as inserting their concatenation |
| TagSets.RemovedMembers | src/tag_set.rs:70-77 | after removal the list holds exactly the other tags it held before |
| TagSets.RemovedCounts | src/tag_set.rs:70-77 | removal keeps every other tag as often as before |
| TagSets.RemovedInOrder | src/tag_set.rs:70-77 | removal keeps the remaining tags in their order |
| TagSets.RemovedNoDuplicates | src/tag_set.rs:70-77 | removal keeps a duplicate-free set duplicate-free |
| TagSets.ApplyEntry | src/tag_set.rs:39-46 | an addition entry adds its name after the first character, a removal entry takes that name away, and any other entry changes nothing |
| TagSets.Modified | src/tag_set.rs:36-53 | without marked entries the result is the modification itself; with them it is built from nothing, holds no duplicates, and holds only names that addition entries inserted |
| TagSets.AnyMarkerExists | src/tag_set.rs:39-47 | marker mode is on exactly when some entry starts or ends with '+' or '-' |
| TagSets.ModifiedWithoutMarkers | src/tag_set.rs:48-52 | without markers, `modify` returns the modification unchanged |
| TagSets.BuiltProperties | src/tag_set.rs:36-47 | in marker mode the result is built from an empty set: it is duplicate-free and holds only names of addition entries |
| TagSets.ModifyAddsTag | src/tag_set.rs:36-53 | "+urgent" gives ["urgent"] |
| TagSets.ModifyRemovalAlone | src/tag_set.rs:36-53 | "-work" on its own gives the empty set, as the result is built from nothing |
| TagSets.ModifyUnmarkedReplaces | src/tag_set.rs:48-52 | an unmarked entry replaces the tags |
| TagSets.ModifyCancels | src/tag_set.rs:36-53 | "-a" after "+a" cancels it |
| TagSets.SuffixMarkerAsWritten | src/tag_set.rs:40-41 | as written, the entry "urgent+" adds "rgent+" |
| TagSets.StripMarkerNamesTag | src/tag_set.rs:40-44 | stripping the marker from either end of a marked entry gives the tag's name |
| TagSets.SuffixMarkerIntended | src/tag_set.rs:40-44 | with the marker stripped at the end it occurs, "urgent+" adds "urgent", and "urgent+" then "urgent-" cancel out |
| TagSets.Dedup | src/tag_set.rs:90-96 | `dedup` keeps the first and the last tag, leaves no two equal neighbours, keeps the same tags and never grows |
| TagSets.DedupSnoc | src/tag_set.rs:90-96 | pins `dedup` down for every list: each further element is dropped exactly when it equals the one before it |
| TagSets.DedupOfNoAdjacentRepeats | src/tag_set.rs:90-96 | a list without equal neighbours is left as it is |
| TagSets.DedupKeepsDistantRepeats | src/tag_set.rs:90-96 | only adjacent repeats go: ["a", "b", "a"] stays |
| TagSets.FromOptionVec | src/tag_set.rs:97-107 | `None` gives the empty set and `Some(v)` gives `v` without adjacent repeats |
| TagSets.FromOptionVecOption | src/tag_set.rs:11-17 | `from_option_vec` keeps `None` and converts a present vector |
| TagSets.FromStr | src/tag_set.rs:117-126 | a text splits on '*' into parts that join back to it |
| TagSets.FromOptionStr | src/tag_set.rs:108-116 | no text gives the empty set, and a text splits on '*' |
| TagSets.Filter | src/tag_set.rs:18-23 | `filter` keeps the tags the predicate accepts, in their order and each as often as before, and drops every other tag |
| TagSets.Contains | src/tag_set.rs:27-29 | `contains` holds exactly when some position holds the tag |
| TagSets.TagSet.constructor | src/tag_set.rs:8-10 | a new tag set is empty |
| TagSets.TagSet.FromVector | src/tag_set.rs:90-96 | converting a vector gives the vector after `dedup` |
| TagSets.TagSet.Insert | src/tag_set.rs:57-64 | returns true exactly when the tag was absent; an absent tag is appended at the end and a present one changes nothing |
| TagSets.TagSet.InsertMany | src/tag_set.rs:65-69 | inserts each tag in turn |
| TagSets.TagSet.Remove | src/tag_set.rs:70-77 | deletes every occurrence of the tag |
| TagSets.TagSet.Modify | src/tag_set.rs:36-53 | returns the modified tags, whatever the set itself holds |
| Commands.Interval | src/command.rs:151-191 | the result is closed exactly when an end or a duration is given |
| Commands.MapOption | src/command.rs:90-132 | a parsed option is present exactly when the argument is |
| Commands.TagList | src/command.rs:111-115 | the tags argument splits on ',' into parts that join back to it |
| Commands.Parse | src/command.rs:87-277 | parsing fails, with the source's "unknown command", exactly when no rule applies |
| Commands.StartWithBareEnd | src/command.rs:153-164 | start with a bare end: end resolves against now, start moves back one day exactly when end < start, giving `Add` |
| Commands.StartWithExplicitEnd | src/command.rs:165-176 | start with an explicit end: end resolves against the start, and moves forward one day exactly when it is before the start, giving `Add` |
| Commands.SameDayInterval | src/command.rs:418-434 | an end after the start on the same day stays on that day |
| Commands.StartWithoutEnd | src/command.rs:177-191 | start without an end: a duration gives `Add` ending at start + duration, and without one the result is `Start` |
| Commands.BackMirrorsStart | src/command.rs:192-232 | a back spec follows the start rules, giving `BackAdd`/`Back`, and is ignored when a start spec is present |
| Commands.EndOnly | src/command.rs:233-239 | end alone resolves against the open job's start if there is one, otherwise against now, giving `End` |
| Commands.QueryPriority | src/command.rs:240-267 | without times the priority is List, ExportCSV, Report, ShowConfiguration, SetConfiguration, LegacyImport, ListTags, and SetConfiguration is chosen exactly when a configuration item is given |
| Commands.MessageTagsOnlyAsLastResort | src/command.rs:268-275 | `MessageTags` comes only when no other rule applies and a message or tags are given; its message is flattened and its tags split on ',' |
| Commands.SetMessage | src/command.rs:279-309 | on the five commands with a message it sets `Some(Some(m))` and changes no other field; on any other command it fails |
| JobLists.AnyRatedExists | src/job_list.rs:113-128 | `has_payment` ends true exactly when some job resolves to a rate |
| JobLists.UnratedPayIsZero | src/job_list.rs:113-128 | without rated jobs the pay sum stays zero |
| JobLists.HoursAppend | src/job_list.rs:106-112 | the overall hours of two consecutive parts of a list add up |
| JobLists.PayAppend | src/job_list.rs:113-128 | the pay of two consecutive parts of a list adds up |
| JobLists.TagsAppend | src/job_list.rs:83-89 | the tags of two consecutive parts come one after the other |
| JobLists.RatedAppend | src/job_list.rs:113-128 | two consecutive parts hold a rated job exactly when one of them does |
| JobLists.TagsOfPrefix | src/job_list.rs:83-89 | the tags collected so far are a prefix of all the list's tags, which are duplicate-free and are exactly the tags of its jobs |
| JobLists.AllTagsMembers | src/job_list.rs:83-89 | the concatenated tags are exactly the tags of some job |
| JobLists.RatedZeroHours | src/job_list.rs:113-128 | a rated job with zero hours still makes the pay present, at zero |
| JobLists.JobList.NewFrom | src/job_list.rs:53-58 | no jobs, and the database's configuration |
| JobLists.JobList.Push | src/job_list.rs:60-62 | appends the indexed job and keeps the rest |
| JobLists.JobList.Drain | src/job_list.rs:76-82 | more than the list holds is an error that changes nothing; otherwise only the last `count` jobs are kept |
| JobLists.JobList.Tags | src/job_list.rs:83-89 | every job's tags, each once, in order of first appearance |
| JobLists.JobList.Positions | src/job_list.rs:90-92 | exactly the positions of the listed jobs |
| JobLists.JobList.GetConfigurationWithTag | src/job_list.rs:98-105 | the first tag with an override and its properties, or the empty name and the base properties |
| JobLists.JobList.GetConfiguration | src/job_list.rs:94-96 | the resolved properties of the tags |
| JobLists.JobList.HoursOverall | src/job_list.rs:106-112 | the sum of every job's hours under its resolved properties |
| JobLists.JobList.PayOverall | src/job_list.rs:113-128 | none exactly when no job is rated, otherwise rate times hours summed over the rated jobs |
| Sums.MapSumRemove | src/reports.rs:118-138 | a sum over map entries does not depend on the order of the entries |
| Sums.MapSumUpdate | src/reports.rs:44-51 | setting one entry changes the sum by that entry's difference |
| Sums.MapSumGrow | src/reports.rs:44-51 | raising one entry, or creating it from an empty one, raises the sum by the same amount |
| Sums.LeastExists | src/reports.rs:56-60 | a finite non-empty set of years or months has a least element, which sorted iteration visits first |
| Buckets.FragmentOf | src/reports.rs:22-43 | a fragment's bucket tag is known to the configuration, and its hours are those under the resolved properties |
| Buckets.PartFragments | src/reports.rs:20 | one fragment per part of the split job, in order |
| Buckets.AddFragment | src/reports.rs:22-51 | adds the fragment's hours to its bucket, creating missing levels on the way |
| Buckets.AddFragmentLookup | src/reports.rs:44-51 | a fragment adds its hours to exactly its own bucket and leaves every other bucket as it was |
| Buckets.BucketedLookup | src/reports.rs:18-53 | every bucket holds the hours of exactly the fragments with its date and tag |
| Buckets.AddFragmentTotal | src/reports.rs:44-51 | adding a fragment raises the total of all buckets by the fragment's hours |
| Buckets.BucketedTotal | src/reports.rs:18-53 | the buckets hold all hours of all fragments |
| Buckets.BucketedValid | src/reports.rs:22-37 | every bucket is a real date and every bucket tag is known |
| Buckets.FragmentsValid | src/reports.rs:19-43 | the fragments of all jobs have known tags |
| Buckets.FragmentsKnown | src/reports.rs:19-43 | every fragment's tag is known to the configuration |
| Buckets.AddPart | src/reports.rs:20-51 | one loop step of the bucketing adds the part's fragment to its bucket |
| Buckets.CollectHours | src/reports.rs:18-53 | the bucketing loop builds the buckets of all fragments, which are valid and hold all their hours |
| Reports.MonthName | src/reports.rs:177-193 | a month's three-letter name |
| Reports.Column | src/reports.rs:166-171 | how many day cells a row can hold before a day is written, between 1 and 7, so the filler after the last day is never negative |
| Reports.AddCost | src/reports.rs:155-164 | a month's cost comes into being with its first day that has a cost |
| Reports.CostUpToNone | src/reports.rs:155-164 | a month has no cost exactly when no rendered day has a rated tag |
| Reports.NoBucketAddsNothing | src/reports.rs:165-167 | a day without a bucket renders "-" and adds neither hours nor cost |
| Reports.HoursUpToAll | src/reports.rs:92-158 | when all of a month's bucketed days are rendered, the month's hours are all its bucketed hours |
| Reports.DayCellsLength | src/reports.rs:92 | the day loop renders days `1 .. end - 1`, one cell each, in order |
| Reports.DayBoundAsWritten | src/reports.rs:92 | the loop bound as written is one less than the intended one, so the month's last day is left out |
| Reports.LastDayDroppedAsWritten | src/reports.rs:92 | as written, January 2023 renders 30 days, and 8 hours on the 31st are missing from the month's 0 hours |
| Reports.HoursUpToZero | src/reports.rs:92 | days at or after the loop's end add no hours to the month |
| Reports.HoursUpToIgnores | src/reports.rs:92 | a day the loop does not reach makes no difference to the month's hours |
| Reports.DayBound | src/reports.rs:92 | the intended loop bound runs through the month's last day |
| Reports.EveryDayRendered | src/reports.rs:92 | with the intended bound every day is rendered and the month's hours are all its bucketed hours |
| Reports.TakeTag | src/reports.rs:118-138 | taking one tag out of a day splits off that tag's hours and cost |
| Reports.TakeRatedTag | src/reports.rs:118-138 | a day has a rated tag exactly when the taken tag is rated or the rest has one |
| Reports.SumDay | src/reports.rs:111-139 | a day's hours are the sum over its tags; its cost is the rated tags' hours times rates, present exactly when some tag is rated |
| Reports.AddTag | src/reports.rs:118-138 | one tag adds its hours to the day, and its cost when `get_checked` gives it a rate; the day's cost comes into being with the first rated tag |
| Reports.SumDayDone | src/reports.rs:111-139 | once no tag remains, the sums are the day's hours and cost |
| Reports.SumDayStep | src/reports.rs:118-138 | one tag keeps the sums so far and what remains accounting for the whole day |
| Reports.StepProjections | src/reports.rs:93-167 | a day writes the week's sum and its number when it is a Sunday, then its own cell |
| Reports.RenderDay | src/reports.rs:93-168 | a Sunday closes the week's row; the day's hours go into the week and the month, and its cost into the month's cost |
| Reports.RenderDays | src/reports.rs:90-169 | the rows hold every rendered day's cell in order; the week sums plus the open week give the month's hours; and the month's hours and cost are those of the rendered days |
| Reports.DaysSoFarStep | src/reports.rs:92-169 | one day keeps the rows, sums and costs accounting for the days so far |
| Reports.RenderMonth | src/reports.rs:60-200 | one title, padding to the first weekday, the rendered days in order, week sums adding up to the month's hours, and a summary with the month's hours and cost, followed by a blank line |
| Reports.MonthProjections | src/reports.rs:60-200 | the title comes from the head, the days from the rows, the week sums from the rows and the closing, the month's hours from the summary |
| Reports.RenderYear | src/reports.rs:56-200 | the year's months in ascending order, each exactly once; the i-th month summary holds the hours of the i-th title's month, and together they hold all of the year's hours |
| Reports.YearPairedStep | src/reports.rs:177-198 | one more month pairs its title with its own summary |
| Reports.PairedAppend | src/reports.rs:56-60 | pages paired title by title stay paired when concatenated |
| Reports.YearStep | src/reports.rs:60-200 | one more month keeps the titles ascending and complete so far, with their hours |
| Reports.Report | src/reports.rs:14-219 | titles in ascending year and month order for exactly the bucketed months; the i-th month summary holds the bucketed hours of the i-th title's month; month hours adding up to all of the split jobs' hours; and a total line with the job count, the overall hours and the pay, present exactly when some job is rated |
| Reports.ReportStep | src/reports.rs:56-200 | one more year keeps the titles ascending and complete so far, with their hours |
| Reports.ReportPairedStep | src/reports.rs:56-200 | one more year keeps each title paired with its own month summary |
| Reports.AscendingConcat | src/reports.rs:56-60 | a later year's titles after an earlier year's keep the order |
| Reports.SummaryProjections | src/reports.rs:203-216 | the total line adds no title and no month hours |
| Formatting.LineBreak | src/format.rs:214-217 | a line break, then `indent` spaces |
| Formatting.Message | src/format.rs:207-222 | builds the message line by line, as `Built` specifies |
| Formatting.BuiltIsIndentedJoin | src/format.rs:210-218 | leading empty lines are dropped; the first non-empty line comes out unindented and every later line after a line break and `indent` spaces, in order |
| Formatting.SingleLineUnchanged | src/format.rs:207-221 | a message without a line break comes out unchanged |
| Formatting.TwoLines | src/format.rs:213-218 | a second line comes after a line break and `indent` spaces |
| Formatting.LeadingBreakDropped | src/format.rs:210-212 | a leading empty line is dropped |
| Formatting.DropEmpty | src/format.rs:210-212 | dropping leading empty lines leaves a suffix that starts with a non-empty line |
| Formatting.Fract | src/format.rs:163 | the fractional part lies in [0, 1) |
| Formatting.Bar | src/format.rs:159-172 | the bar is empty exactly unless 0 < hours < 24; otherwise it is a space, one '+' per whole hour, then '+' for a fraction above a half or '-' for one above a quarter, with nothing more, at most 25 characters in all |
| Formatting.BarApproximates | src/format.rs:159-172 | a bar stands for its hours to within a quarter below and half an hour above |
| Formatting.HoursBar | src/format.rs:158-180 | without colours the hours bar is the inner bar, whatever the limit |
| Formatting.HoursBarIgnoresLimit | src/format.rs:174-179 | without colours the bar is the same whether or not the limit is exceeded |
| Formatting.Pay | src/format.rs:104-109 | no rate gives the empty text; a rate gives the text of rate times hours |
| Formatting.PayEmptyIffNoRate | src/format.rs:104-109 | the pay text is empty exactly when there is no rate |
| Changes.Show | src/change.rs:18-61 | the text is never empty; a pushed or modified job's text ends with the job, a configuration change's with the configuration |
| Changes.NothingShown | src/change.rs:21-23 | no change reads "Database unchanged." |
| Changes.PushHeader | src/change.rs:24-30 | a pushed job is announced as started exactly when it is open, otherwise as added, followed by the job |
| Changes.ModifyShowsPosition | src/change.rs:31-37 | a modified job shows its position counted from one, under "Ended open job" exactly when it is open |
| Changes.ImportClause | src/change.rs:38-44 | the clause about new tags appears exactly when the import added tags |
| Changes.ConfigurationHeader | src/change.rs:45-59 | the header names tags exactly when the change was made for tags, otherwise it is the default-configuration header |

## Left out

- Local-time conversion, the current time, RFC 3339 parsing and the printed form of instants
  are left out. They are time-zone and I/O matters; an instant is a count of seconds.
- `f64` is modelled as a real number, so rounding and the printed form of numbers
  (`separated_string`, `{}`) are not modelled. The pay text takes the printed form of a
  number as a parameter.
- All colour and style output (termion) and the colour-only "exceeded" flag of the day loop
  are left out, as are column widths and alignment. The report is modelled as cells.
- `Debug for Command`, and the `Display` of `JobList`, `TagSet`, `Job` and `Configuration`,
  are left out. A change's text takes the printed forms of its payload as parameters.
- Configurations.GetAndWhy: `get_and_why` is not part of this model. It is assumed to be the
  same first-match resolution as `get_configuration_with_tag`, naming the matching tag.
- Configurations.GetChecked: `get_checked` is not part of this model. On the one-tag set of a
  tag without `*` it is assumed to give that tag's override, or an error for a tag with no
  override; on the empty set it gives the base properties. Its behaviour on a set of several
  tags is not modelled.
- Configurations.CheckedAgreesWithResolution: shows that `expect("unexpected tag collision")`
  cannot fire only for tags without `*`. A configured tag holding `*` reaches `get_checked`
  split into several tags (`TagIntoSplitsStar`), and the model says nothing about that case.
- Instants.Days: `Duration::days` is not part of this model. It is assumed to be
  `HM { hours: 24 * n, minutes: 0 }`.
- Instants.IntoChrono: `Duration::into_chrono` is not part of this model. It is assumed to
  keep the length, at 60 seconds per minute.
- Calendar.DaysInMonth, Calendar.Weekday: `days_in_month` and chrono's weekday are not part of
  this model. They are computed from the Gregorian calendar, with dates as days from
  1970-01-01.
- Strings are sequences of characters, while Rust slices them by byte.
- TagSets.ApplyEntry, TagSets.TagSet.Modify: `tag[1..]` drops one character here. In the source it drops one byte,
  and it panics when the first character takes more than one byte. That can happen for a
  suffix-marked entry such as "über+", which the model turns into "ber+".
- Collaborators outside the core are parameters of the model:
  - `PartialDateTime::parse` and `into`, `Duration::parse`, `Range::parse`;
  - `Job::split`, `Job::hours` and the calendar date of an instant;
  - the clap argument parser.
- `Context` is reduced to its current instant.
- Instants.AddAssign, Instants.SubAssign: modelled as returning the updated value instead of
  updating in place. `DateTime` is `Copy`, so aliasing cannot arise.
- A job carries its tags as a plain sequence instead of a `TagSet` object. `TagSet` is a
  class only where its methods update it.
- Commands.SetMessage: modelled as returning the updated command, or none where the source
  panics. It does not update in place.
- Commands.Parse: returns none where the source panics with "unknown command".
- The iteration order of a `HashMap` is modelled as an arbitrary choice. Years and months
  are visited least first, as `sorted_by_key` does.
- Reports.RenderYear, Reports.Report: render each month with the intended day bound (through
  the month's last day), not the bound as written. Their hour totals and per-month summaries
  are those of the corrected program. The as-written bound and what it drops are stated in
  Findings.
- Reports.RenderMonth: does not state the number of filler columns after the last day.
- Integer widths (`usize`, `i32`, `i64`) are unbounded here. Overflow is not modelled.

## Findings

| source | as written | input that shows it | evidently intended | confidence | as-written member | corrected member |
|---|---|---|---|---|---|---|
| src/tag_set.rs:40-44 | a marked entry always loses its first character (`tag[1..]`), even when the marker is a suffix | the modification ["urgent+"] adds "rgent+" | strip the marker from the end it occurs at, so "urgent+" adds "urgent" | medium, not executed | TagSets.SuffixMarkerAsWritten | TagSets.SuffixMarkerIntended |
| src/reports.rs:92 | the day loop runs over `1..days_in_month(year, month)`, which excludes the last day of the month | 8 hours on 2023-01-31: January renders 30 days and a month total of 0 hours | run through the last day (`1..=days_in_month`) so every bucketed hour is shown | high, not executed | Reports.LastDayDroppedAsWritten | Reports.EveryDayRendered |
