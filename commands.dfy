/** `src/command.rs`: the decision tree that turns the optional command-line fields into
    exactly one `Command`, and `set_message`.

    Parsing a time, a duration or a range and resolving a partial time against a base instant
    live in files that are not part of this model; they are the functions of a `Parsers`
    record. A call that panics in the source yields `None` here. */
module Commands {
  import opened Wrappers
  import opened Text
  import opened Instants

  /** A time as the user wrote it, fields possibly omitted. `NoTime` stands for
      `PartialDateTime::None`, the bare end marker; the other forms are kept as written. */
  datatype PartialDateTime = NoTime | Written(text: string)

  /** A time range to list, report or export; only its bounds are kept. */
  datatype Range = Range(from: Option<DateTime>, to: Option<DateTime>)

  /** The invocation context; only the current instant is read here. */
  datatype Context = Context(current: DateTime)

  /** The parsers and the resolution of a partial time against a base instant. */
  datatype Parsers = Parsers(
    partial: string -> PartialDateTime,
    resolve: (PartialDateTime, DateTime) -> DateTime,
    duration: string -> Duration,
    range: (string, Context) -> Range)

  /** The command-line fields `parse` reads. */
  datatype Args = Args(
    start: Option<string>, back: Option<string>, end: Option<string>, duration: Option<string>,
    message: Option<Option<string>>, tags: Option<string>,
    list: Option<string>, report: Option<string>, exportCsv: Option<string>, csv: string,
    resolution: Option<real>, pay: Option<real>, maxHours: Option<nat>,
    configuration: bool, legacyImport: Option<string>, listTags: Option<string>)

  /** The commands. `MessageTags` carries an already flattened message, kept under the name
      `text` because its type differs from the other variants' `message`. */
  datatype Command =
    | Start(start: DateTime, message: Option<Option<string>>, tags: Option<seq<string>>)
    | Add(start: DateTime, end: DateTime, message: Option<Option<string>>, tags: Option<seq<string>>)
    | Back(start: DateTime, message: Option<Option<string>>, tags: Option<seq<string>>)
    | BackAdd(start: DateTime, end: DateTime, message: Option<Option<string>>, tags: Option<seq<string>>)
    | End(end: DateTime, message: Option<Option<string>>, tags: Option<seq<string>>)
    | MessageTags(text: Option<string>, tags: Option<seq<string>>)
    | List(range: Range, tags: Option<seq<string>>)
    | Report(range: Range, tags: Option<seq<string>>, context: Context)
    | ExportCSV(range: Range, tags: Option<seq<string>>, context: Context, columns: string)
    | ShowConfiguration
    | SetConfiguration(resolution: Option<real>, pay: Option<real>, tags: Option<seq<string>>, maxHours: Option<nat>)
    | LegacyImport(filename: string)
    | ListTags(range: Range, tags: Option<seq<string>>)

  /** The interval a start (or back) specification describes. */
  datatype Timing = Opened(start: DateTime) | Closed(start: DateTime, end: DateTime)

  const OneDay: int := 24 * 60 * 60

  /** The start/back branch: resolve the start against now, then
      - a bare end resolves against now and pulls the start back one day if it comes first,
      - an explicit end resolves against the start and moves forward one day if it comes first,
      - a duration gives the end directly,
      - and nothing leaves the interval open. */
  function Interval(startSpec: PartialDateTime, end: Option<PartialDateTime>, duration: Option<Duration>,
                    now: DateTime, resolve: (PartialDateTime, DateTime) -> DateTime): (t: Timing)
    ensures t.Closed? <==> end.Some? || duration.Some?
  {
    var start := resolve(startSpec, now);
    if end.Some? then
      if end.value == NoTime then
        var e := resolve(NoTime, now);
        Closed(if Less(e, start) then Sub(start, Days(1)) else start, e)
      else
        var e := resolve(end.value, start);
        Closed(start, if Less(e, start) then Instants.Add(e, Days(1)) else e)
    else if duration.Some? then
      Closed(start, AddChrono(start, IntoChrono(duration.value)))
    else
      Opened(start)
  }

  /** Whether any configuration item is given. */
  predicate SetsConfiguration(args: Args)
  {
    args.resolution.Some? || args.pay.Some? || args.maxHours.Some?
  }

  /** The argument combinations `parse` rejects with "unknown command". */
  predicate Unrecognised(args: Args)
  {
    args.start.None? && args.back.None? && args.end.None? && args.list.None? && args.exportCsv.None?
    && args.report.None? && !args.configuration && !SetsConfiguration(args)
    && args.legacyImport.None? && args.listTags.None? && args.message.None? && args.tags.None?
  }

  function MapOption<T, U>(o: Option<T>, f: T -> U): (r: Option<U>)
    ensures r.Some? <==> o.Some?
    ensures r.Some? ==> r.value == f(o.value)
  {
    match o
    case None => None
    case Some(v) => Some(f(v))
  }

  /** The comma-separated tag list. */
  function TagList(tags: string): (r: seq<string>)
    ensures |r| >= 1 && Join(r, ',') == tags
    ensures forall i :: 0 <= i < |r| ==> ',' !in r[i]
  {
    Split(tags, ',')
  }

  /** `Command::parse`; `None` when the source panics. */
  function Parse(args: Args, openStart: Option<DateTime>, context: Context, p: Parsers): (r: Option<Command>)
    ensures r.None? <==> Unrecognised(args)
  {
    var start := MapOption(args.start, p.partial);
    var back := MapOption(args.back, p.partial);
    var end := MapOption(args.end, p.partial);
    var duration := MapOption(args.duration, p.duration);
    var message := args.message;
    var tags := MapOption(args.tags, TagList);
    var list := MapOption(args.list, s => p.range(s, context));
    var report := MapOption(args.report, s => p.range(s, context));
    var exportCsv := MapOption(args.exportCsv, s => p.range(s, context));
    var listTags := MapOption(args.listTags, s => p.range(s, context));
    var setConfiguration := SetsConfiguration(args);
    if start.Some? then
      match Interval(start.value, end, duration, context.current, p.resolve)
      case Opened(s) => Some(Start(s, message, tags))
      case Closed(s, e) => Some(Add(s, e, message, tags))
    else if back.Some? then
      match Interval(back.value, end, duration, context.current, p.resolve)
      case Opened(s) => Some(Back(s, message, tags))
      case Closed(s, e) => Some(BackAdd(s, e, message, tags))
    else if end.Some? then
      var base := if openStart.Some? then openStart.value else context.current;
      Some(End(p.resolve(end.value, base), message, tags))
    else if list.Some? then
      Some(List(list.value, tags))
    else if exportCsv.Some? then
      Some(ExportCSV(exportCsv.value, tags, context, args.csv))
    else if report.Some? then
      Some(Report(report.value, tags, context))
    else if args.configuration then
      Some(ShowConfiguration)
    else if args.resolution.Some? || args.pay.Some? || args.maxHours.Some? then
      Some(SetConfiguration(args.resolution, args.pay, tags, args.maxHours))
    else if args.legacyImport.Some? then
      Some(LegacyImport(args.legacyImport.value))
    else if listTags.Some? then
      Some(ListTags(listTags.value, tags))
    else if !setConfiguration && (message.Some? || tags.Some?) then
      Some(MessageTags(Flatten(message), tags))
    else
      None
  }

  /** The start instant a start or back specification resolves to, before any rollover. */
  function ResolvedStart(spec: string, context: Context, p: Parsers): DateTime
  {
    p.resolve(p.partial(spec), context.current)
  }

  /** Start with a bare end marker: the end is now, and the start moves back exactly one day
      exactly when the end comes before it. */
  lemma StartWithBareEnd(args: Args, openStart: Option<DateTime>, context: Context, p: Parsers)
    requires args.start.Some? && args.end.Some? && p.partial(args.end.value) == NoTime
    ensures var r := Parse(args, openStart, context, p);
            var s := ResolvedStart(args.start.value, context, p);
            r.Some? && r.value.Add? && r.value.end == p.resolve(NoTime, context.current)
            && (Less(r.value.end, s) ==> r.value.start.seconds == s.seconds - OneDay)
            && (!Less(r.value.end, s) ==> r.value.start == s)
            && r.value.message == args.message
  {
  }

  /** Start with an explicit end: the end resolves against the start and moves forward exactly
      one day exactly when it comes before the start. */
  lemma StartWithExplicitEnd(args: Args, openStart: Option<DateTime>, context: Context, p: Parsers)
    requires args.start.Some? && args.end.Some? && p.partial(args.end.value) != NoTime
    ensures var r := Parse(args, openStart, context, p);
            var s := ResolvedStart(args.start.value, context, p);
            var e := p.resolve(p.partial(args.end.value), s);
            r.Some? && r.value.Add? && r.value.start == s
            && (Less(e, s) ==> r.value.end.seconds == e.seconds + OneDay)
            && (!Less(e, s) ==> r.value.end == e)
  {
  }

  /** An end that falls after the start on the start's day stays on that day: 12:00 to 13:00
      gives a one-hour `Add`. */
  lemma SameDayInterval(args: Args, openStart: Option<DateTime>, context: Context, p: Parsers)
    requires args.start.Some? && args.end.Some? && p.partial(args.end.value) != NoTime
    requires var s := ResolvedStart(args.start.value, context, p);
             p.resolve(p.partial(args.end.value), s).seconds == s.seconds + 3600
    ensures var r := Parse(args, openStart, context, p);
            r.Some? && r.value.Add? && r.value.end.seconds - r.value.start.seconds == 3600
  {
  }

  /** Start without an end: a duration gives the end it spans, no duration leaves the job open. */
  lemma StartWithoutEnd(args: Args, openStart: Option<DateTime>, context: Context, p: Parsers)
    requires args.start.Some? && args.end.None?
    ensures var r := Parse(args, openStart, context, p);
            var s := ResolvedStart(args.start.value, context, p);
            r.Some? && r.value.start == s
            && (args.duration.Some? ==>
                  r.value.Add? && r.value.end.seconds == s.seconds + 60 * TotalMinutes(p.duration(args.duration.value)))
            && (args.duration.None? ==> r.value.Start?)
  {
  }

  /** The command a start specification gives, renamed to its back counterpart. */
  function AsBack(c: Command): Command
  {
    match c
    case Start(s, m, t) => Back(s, m, t)
    case Add(s, e, m, t) => BackAdd(s, e, m, t)
    case _ => c
  }

  /** A back specification follows exactly the rules of a start specification, giving `Back`
      for `Start` and `BackAdd` for `Add`; and it is ignored when a start is also given. */
  lemma BackMirrorsStart(args: Args, openStart: Option<DateTime>, context: Context, p: Parsers)
    requires args.back.Some?
    ensures args.start.None? ==>
      var asStart := args.(start := args.back, back := None);
      Parse(args, openStart, context, p) == MapOption(Parse(asStart, openStart, context, p), AsBack)
    ensures args.start.Some? ==>
      Parse(args, openStart, context, p) == Parse(args.(back := None), openStart, context, p)
  {
  }

  /** Only an end: it resolves against the open job's start if there is one, else against now. */
  lemma EndOnly(args: Args, openStart: Option<DateTime>, context: Context, p: Parsers)
    requires args.start.None? && args.back.None? && args.end.Some?
    ensures var r := Parse(args, openStart, context, p);
            var base := if openStart.Some? then openStart.value else context.current;
            r == Some(End(p.resolve(p.partial(args.end.value), base), args.message,
                          MapOption(args.tags, TagList)))
  {
  }

  /** No time specification: the queries are tried in the order List, ExportCSV, Report,
      ShowConfiguration, SetConfiguration, LegacyImport, ListTags, and `SetConfiguration`
      is chosen exactly when no earlier one applies and a configuration item is given. */
  lemma QueryPriority(args: Args, openStart: Option<DateTime>, context: Context, p: Parsers)
    requires args.start.None? && args.back.None? && args.end.None?
    ensures var r := Parse(args, openStart, context, p);
            (args.list.Some? ==> r.Some? && r.value.List?)
            && (args.list.None? && args.exportCsv.Some? ==> r.Some? && r.value.ExportCSV? && r.value.columns == args.csv)
            && (args.list.None? && args.exportCsv.None? && args.report.Some? ==> r.Some? && r.value.Report?)
            && (args.list.None? && args.exportCsv.None? && args.report.None? ==>
                  (args.configuration ==> r == Some(ShowConfiguration))
                  && (r.Some? && r.value.SetConfiguration? <==> !args.configuration && SetsConfiguration(args))
                  && (!args.configuration && !SetsConfiguration(args) && args.legacyImport.Some? ==>
                        r == Some(LegacyImport(args.legacyImport.value)))
                  && ((!args.configuration && !SetsConfiguration(args) && args.legacyImport.None?
                       && args.listTags.Some?) ==> r.Some? && r.value.ListTags?))
  {
  }

  /** `MessageTags` comes only when nothing else applies, no configuration item is given and a
      message or tags are; it carries the flattened message and the comma-split tags. */
  lemma MessageTagsOnlyAsLastResort(args: Args, openStart: Option<DateTime>, context: Context, p: Parsers)
    ensures var r := Parse(args, openStart, context, p);
            r.Some? && r.value.MessageTags? <==>
              args.start.None? && args.back.None? && args.end.None? && args.list.None?
              && args.exportCsv.None? && args.report.None? && !args.configuration
              && !SetsConfiguration(args) && args.legacyImport.None? && args.listTags.None?
              && (args.message.Some? || args.tags.Some?)
    ensures var r := Parse(args, openStart, context, p);
            r.Some? && r.value.MessageTags? ==>
              r.value.text == Flatten(args.message) && r.value.tags == MapOption(args.tags, TagList)
  {
  }

  /** The variants that carry a message. */
  predicate HasMessage(c: Command)
  {
    c.Start? || c.Add? || c.Back? || c.BackAdd? || c.End?
  }

  /** `Command::set_message`: on a variant carrying a message, the message becomes
      `Some(Some(newMessage))` and nothing else changes; on any other variant the source panics,
      which is `None` here. */
  method SetMessage(self: Command, newMessage: string) returns (updated: Option<Command>)
    ensures updated.Some? <==> HasMessage(self)
    ensures updated.Some? ==> HasMessage(updated.value) && updated.value.message == Some(Some(newMessage))
    ensures updated.Some? ==> updated.value.(message := self.message) == self
  {
    match self {
      case Start(start, _, tags) => updated := Some(Start(start, Some(Some(newMessage)), tags));
      case Add(start, end, _, tags) => updated := Some(Add(start, end, Some(Some(newMessage)), tags));
      case Back(start, _, tags) => updated := Some(Back(start, Some(Some(newMessage)), tags));
      case BackAdd(start, end, _, tags) => updated := Some(BackAdd(start, end, Some(Some(newMessage)), tags));
      case End(end, _, tags) => updated := Some(End(end, Some(Some(newMessage)), tags));
      case _ => updated := None;
    }
  }
}
