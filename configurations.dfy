/** The job record and the configuration the core reads: a base `Properties` record and
    per-tag overrides, resolved by first match over a job's ordered tags.

    `Job` and `Configuration` live in files that are not part of this model; only the fields
    the core reads are kept. A job's `TagSet` is carried as the tag sequence it wraps. */
module Configurations {
  import opened Wrappers
  import opened Instants
  import opened Text
  import TagSets

  /** Rounding unit in hours, hourly rate (absent: no pay) and daily limit (absent: no flag). */
  datatype Properties = Properties(resolution: real, rate: Option<real>, maxHours: Option<nat>)

  /** The base properties and the per-tag overrides. */
  datatype Configuration = Configuration(base: Properties, tags: map<string, Properties>)

  /** A recorded interval; no `end` means the job is still open. */
  datatype Job = Job(start: DateTime, end: Option<DateTime>, message: Option<string>, tags: seq<string>)

  /** `Job::is_open` */
  predicate IsOpen(job: Job)
  {
    job.end.None?
  }

  /** The position of the first tag, in the tags' own order, that has an override. */
  function FirstOverride(tags: seq<string>, overrides: map<string, Properties>): (r: Option<nat>)
    ensures r.Some? ==> r.value < |tags| && tags[r.value] in overrides
    ensures r.Some? ==> forall j :: 0 <= j < r.value ==> tags[j] !in overrides
    ensures r.None? <==> forall j :: 0 <= j < |tags| ==> tags[j] !in overrides
  {
    if tags == [] then None
    else if tags[0] in overrides then Some(0)
    else
      match FirstOverride(tags[1..], overrides)
      case None => None
      case Some(i) => Some(i + 1)
  }

  /** The properties that apply to a job with these tags: the override of the first overridden
      tag, or the base properties when no tag is overridden. Overrides are never merged. */
  function Resolve(conf: Configuration, tags: seq<string>): (p: Properties)
    ensures p == conf.base || p in conf.tags.Values
  {
    match FirstOverride(tags, conf.tags)
    case Some(i) => conf.tags[tags[i]]
    case None => conf.base
  }

  /** `Configuration::get_and_why`, not part of this model, taken to be the same first-match
      resolution, reporting the matching tag (`None` for the base properties). */
  function GetAndWhy(conf: Configuration, tags: seq<string>): (r: (Option<string>, Properties))
    ensures r.1 == Resolve(conf, tags)
    ensures r.0.Some? <==> exists i :: 0 <= i < |tags| && tags[i] in conf.tags
    ensures r.0.Some? ==> r.0.value in tags && r.0.value in conf.tags && r.1 == conf.tags[r.0.value]
  {
    match FirstOverride(tags, conf.tags)
    case Some(i) => (Some(tags[i]), conf.tags[tags[i]])
    case None => (None, conf.base)
  }

  /** A tag that `get_and_why` can report. */
  predicate KnownTag(conf: Configuration, tag: Option<string>)
  {
    tag.None? || tag.value in conf.tags
  }

  datatype ConfigurationError = UnknownTag(tag: string)

  /** `configuration.get_checked(&tag.into())` as the calendar report calls it. `get_checked` is
      not part of this model; it is taken to give the base properties for no tag, the override of
      a configured tag, and an error otherwise. This is its behaviour on the one-tag set that
      `tag.into()` makes of a tag without `*` (see `TagIntoOneTag`); a tag holding `*` is split
      into several tags, on which the behaviour of `get_checked` is not modelled. */
  function GetChecked(conf: Configuration, tag: Option<string>): (r: Result<Properties, ConfigurationError>)
    ensures r.Success? <==> KnownTag(conf, tag)
    ensures r.Success? && tag.None? ==> r.value == conf.base
    ensures r.Success? && tag.Some? ==> r.value == conf.tags[tag.value]
  {
    match tag
    case None => Success(conf.base)
    case Some(t) => if t in conf.tags then Success(conf.tags[t]) else Failure(UnknownTag(t))
  }

  /** Resolution is first match, not merge: with tags ["b", "a"] and overrides for both, the
      override of "b" applies and "b" is the reported tag. */
  lemma FirstMatchNotMerge(base: Properties, a: Properties, b: Properties)
    requires a.rate == Some(10.0) && b.rate == Some(20.0)
    ensures var conf := Configuration(base, map["a" := a, "b" := b]);
            GetAndWhy(conf, ["b", "a"]) == (Some("b"), b) && Resolve(conf, ["b", "a"]).rate == Some(20.0)
  {
    var conf := Configuration(base, map["a" := a, "b" := b]);
    assert FirstOverride(["b", "a"], conf.tags) == Some(0);
  }

  /** Whatever `get_and_why` reports, `get_checked` accepts and agrees with, and `tag.into()`
      hands it the one-tag (or empty) set it is modelled on exactly when the reported tag holds
      no `*`. */
  lemma {:induction false} CheckedAgreesWithResolution(conf: Configuration, tags: seq<string>)
    ensures KnownTag(conf, GetAndWhy(conf, tags).0)
    ensures GetChecked(conf, GetAndWhy(conf, tags).0) == Success(Resolve(conf, tags))
    ensures var tag := GetAndWhy(conf, tags).0;
            (TagSets.FromOptionStr(tag) == (if tag.Some? then [tag.value] else [])
             <==> tag.None? || '*' !in tag.value)
  {
    var tag := GetAndWhy(conf, tags).0;
    if tag.Some? {
      TagIntoOneTag(tag.value);
    }
  }

  /** `tag.into()` (`From<&Option<String>>` for `TagSet`) gives the set of the one tag exactly
      when the tag holds no `*`. */
  lemma TagIntoOneTag(t: string)
    ensures TagSets.FromOptionStr(Some(t)) == [t] <==> '*' !in t
  {
    if '*' !in t {
      SplitNoSeparator(t, '*');
    }
  }

  /** A configured tag "a*b" reaches `get_checked` as the two tags "a" and "b". */
  lemma TagIntoSplitsStar()
    ensures TagSets.FromOptionStr(Some("a*b")) == ["a", "b"]
  {
    var parts := ["a", "b"];
    assert Join(parts, '*') == "a*b" by {
      assert parts[1..] == ["b"];
    }
    SplitJoin(parts, '*');
  }
}
