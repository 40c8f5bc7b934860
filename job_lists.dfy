/** `src/job_list.rs`: the jobs a query selected from the database, each paired with its
    original position, together with a copy of the database's configuration.

    `Job::hours` lives in a file that is not part of this model; it is the parameter `hoursOf`,
    a function of the job and the properties that apply to it. Hours and pay are reals. */
module JobLists {
  import opened Wrappers
  import opened TagSets
  import opened Configurations

  /** The database the list is drawn from; only what `new_from` reads is kept. */
  datatype Jobs = Jobs(jobs: seq<Job>, configuration: Configuration)

  /** A job and its position in the database. */
  datatype IndexedJob = IndexedJob(pos: nat, job: Job)

  /** The error `drain` reports: requested and available counts. */
  datatype Error = ToFewJobs(requested: nat, available: nat)

  // ---- specification functions ----

  /** The tags of all jobs, one job after the other. */
  function AllTags(jobs: seq<IndexedJob>): seq<string>
  {
    if jobs == [] then [] else AllTags(jobs[..|jobs| - 1]) + jobs[|jobs| - 1].job.tags
  }

  /** The properties a job's tags resolve to. */
  function PropertiesOf(conf: Configuration, job: Job): Properties
  {
    Resolve(conf, job.tags)
  }

  /** Hours over all jobs, each with the properties its tags resolve to. */
  function TotalHours(jobs: seq<IndexedJob>, conf: Configuration, hoursOf: (Job, Properties) -> real): real
  {
    if jobs == [] then 0.0
    else
      var last := jobs[|jobs| - 1].job;
      TotalHours(jobs[..|jobs| - 1], conf, hoursOf) + hoursOf(last, PropertiesOf(conf, last))
  }

  /** Whether the job's properties carry a rate. */
  predicate Rated(conf: Configuration, job: Job)
  {
    PropertiesOf(conf, job).rate.Some?
  }

  /** What one job earns: rate times hours when rated, nothing otherwise. */
  function PayOf(conf: Configuration, job: Job, hoursOf: (Job, Properties) -> real): real
  {
    var properties := PropertiesOf(conf, job);
    if properties.rate.Some? then properties.rate.value * hoursOf(job, properties) else 0.0
  }

  /** Pay over the rated jobs. */
  function TotalPay(jobs: seq<IndexedJob>, conf: Configuration, hoursOf: (Job, Properties) -> real): real
  {
    if jobs == [] then 0.0
    else TotalPay(jobs[..|jobs| - 1], conf, hoursOf) + PayOf(conf, jobs[|jobs| - 1].job, hoursOf)
  }

  /** Whether some job up to the end of the list is rated, computed job by job. */
  predicate AnyRated(jobs: seq<IndexedJob>, conf: Configuration)
  {
    jobs != [] && (AnyRated(jobs[..|jobs| - 1], conf) || Rated(conf, jobs[|jobs| - 1].job))
  }

  // ---- properties of the specification ----

  /** `AnyRated` says exactly that some job is rated. */
  lemma {:induction false} AnyRatedExists(jobs: seq<IndexedJob>, conf: Configuration)
    ensures AnyRated(jobs, conf) <==> exists i :: 0 <= i < |jobs| && Rated(conf, jobs[i].job)
  {
    if jobs != [] {
      var init := jobs[..|jobs| - 1];
      AnyRatedExists(init, conf);
      if AnyRated(init, conf) {
        var i :| 0 <= i < |init| && Rated(conf, init[i].job);
        assert jobs[i] == init[i];
      }
      if exists i :: 0 <= i < |jobs| && Rated(conf, jobs[i].job) {
        var i :| 0 <= i < |jobs| && Rated(conf, jobs[i].job);
        if i < |init| {
          assert init[i] == jobs[i];
        }
      }
    }
  }

  /** Without any rated job the pay sum is zero (and `pay_overall` says `None`, not `Some(0)`). */
  lemma {:induction false} UnratedPayIsZero(jobs: seq<IndexedJob>, conf: Configuration, hoursOf: (Job, Properties) -> real)
    requires !AnyRated(jobs, conf)
    ensures TotalPay(jobs, conf, hoursOf) == 0.0
  {
    if jobs != [] {
      UnratedPayIsZero(jobs[..|jobs| - 1], conf, hoursOf);
    }
  }

  /** Removing the last job of `b` from `a + b` leaves `a` followed by the rest of `b`. */
  lemma AppendInit(a: seq<IndexedJob>, b: seq<IndexedJob>)
    requires b != []
    ensures (a + b)[..|a + b| - 1] == a + b[..|b| - 1]
    ensures (a + b)[|a + b| - 1] == b[|b| - 1]
  {
    assert (a + b)[..|a + b| - 1] == a + b[..|b| - 1];
  }

  /** Hours add up over consecutive parts of the list. */
  lemma {:induction false} HoursAppend(a: seq<IndexedJob>, b: seq<IndexedJob>, conf: Configuration,
                                       hoursOf: (Job, Properties) -> real)
    ensures TotalHours(a + b, conf, hoursOf) == TotalHours(a, conf, hoursOf) + TotalHours(b, conf, hoursOf)
    decreases |b|
  {
    if b == [] {
      assert a + b == a;
    } else {
      AppendInit(a, b);
      HoursAppend(a, b[..|b| - 1], conf, hoursOf);
    }
  }

  /** Pay adds up over consecutive parts of the list. */
  lemma {:induction false} PayAppend(a: seq<IndexedJob>, b: seq<IndexedJob>, conf: Configuration,
                                     hoursOf: (Job, Properties) -> real)
    ensures TotalPay(a + b, conf, hoursOf) == TotalPay(a, conf, hoursOf) + TotalPay(b, conf, hoursOf)
    decreases |b|
  {
    if b == [] {
      assert a + b == a;
    } else {
      AppendInit(a, b);
      PayAppend(a, b[..|b| - 1], conf, hoursOf);
    }
  }

  /** The tags of consecutive parts come one after the other. */
  lemma {:induction false} TagsAppend(a: seq<IndexedJob>, b: seq<IndexedJob>)
    ensures AllTags(a + b) == AllTags(a) + AllTags(b)
    decreases |b|
  {
    if b == [] {
      assert a + b == a;
    } else {
      AppendInit(a, b);
      TagsAppend(a, b[..|b| - 1]);
    }
  }

  /** Two parts hold a rated job exactly when one of them does. */
  lemma {:induction false} RatedAppend(a: seq<IndexedJob>, b: seq<IndexedJob>, conf: Configuration)
    ensures AnyRated(a + b, conf) <==> AnyRated(a, conf) || AnyRated(b, conf)
    decreases |b|
  {
    if b == [] {
      assert a + b == a;
    } else {
      AppendInit(a, b);
      RatedAppend(a, b[..|b| - 1], conf);
    }
  }

  /** The tags of the first jobs are a prefix of the tags of all jobs, the list holds no
      duplicates and it holds exactly the tags some job carries. */
  lemma TagsOfPrefix(jobs: seq<IndexedJob>, k: nat)
    requires k <= |jobs|
    ensures InsertedAll([], AllTags(jobs[..k])) <= InsertedAll([], AllTags(jobs))
    ensures NoDuplicates(InsertedAll([], AllTags(jobs)))
    ensures forall t :: t in InsertedAll([], AllTags(jobs)) <==> exists i :: 0 <= i < |jobs| && t in jobs[i].job.tags
  {
    assert jobs == jobs[..k] + jobs[k..];
    TagsAppend(jobs[..k], jobs[k..]);
    InsertedAllAppend([], AllTags(jobs[..k]), AllTags(jobs[k..]));
    InsertedAllProperties(InsertedAll([], AllTags(jobs[..k])), AllTags(jobs[k..]));
    InsertedAllProperties([], AllTags(jobs));
    AllTagsMembers(jobs);
  }

  lemma {:induction false} AllTagsMembers(jobs: seq<IndexedJob>)
    ensures forall t :: t in AllTags(jobs) <==> exists i :: 0 <= i < |jobs| && t in jobs[i].job.tags
  {
    if jobs != [] {
      var init := jobs[..|jobs| - 1];
      AllTagsMembers(init);
      forall t | t in AllTags(jobs)
        ensures exists i :: 0 <= i < |jobs| && t in jobs[i].job.tags
      {
        if t in AllTags(init) {
          var i :| 0 <= i < |init| && t in init[i].job.tags;
          assert jobs[i] == init[i];
        } else {
          assert t in jobs[|jobs| - 1].job.tags;
        }
      }
      forall t | exists i :: 0 <= i < |jobs| && t in jobs[i].job.tags
        ensures t in AllTags(jobs)
      {
        var i :| 0 <= i < |jobs| && t in jobs[i].job.tags;
        if i < |init| {
          assert init[i] == jobs[i];
        }
      }
    }
  }

  /** Rated jobs earn even when they earn nothing: a single rated job of zero hours gives a pay
      of zero that `pay_overall` reports as `Some(0)`. */
  lemma RatedZeroHours(entry: IndexedJob, conf: Configuration, hoursOf: (Job, Properties) -> real)
    requires Rated(conf, entry.job) && hoursOf(entry.job, PropertiesOf(conf, entry.job)) == 0.0
    ensures AnyRated([entry], conf) && TotalPay([entry], conf, hoursOf) == 0.0
  {
    assert [entry][..0] == [];
  }

  /** A list of jobs with the configuration of the database it was drawn from. */
  class JobList {
    var jobs: seq<IndexedJob>
    var configuration: Configuration

    /** `JobList::new_from`: no jobs, the database's configuration. */
    constructor NewFrom(db: Jobs)
      ensures jobs == [] && configuration == db.configuration
    {
      jobs := [];
      configuration := db.configuration;
    }

    /** `JobList::push`: appends the entry with the caller's position. */
    method Push(pos: nat, job: Job)
      modifies this
      ensures jobs == old(jobs) + [IndexedJob(pos, job)]
      ensures |jobs| == |old(jobs)| + 1 && jobs[..|old(jobs)|] == old(jobs)
      ensures configuration == old(configuration)
    {
      jobs := jobs + [IndexedJob(pos, job)];
    }

    /** `JobList::drain`: keeps the last `count` entries, or reports too few and changes nothing. */
    method Drain(count: nat) returns (r: Result<(), Error>)
      modifies this
      ensures count > |old(jobs)| ==> r == Failure(ToFewJobs(count, |old(jobs)|)) && jobs == old(jobs)
      ensures count <= |old(jobs)| ==> r.Success? && |jobs| == count
      ensures count <= |old(jobs)| ==> jobs == old(jobs)[|old(jobs)| - count..]
      ensures count == |old(jobs)| ==> jobs == old(jobs)
      ensures configuration == old(configuration)
    {
      if count > |jobs| {
        return Failure(ToFewJobs(count, |jobs|));
      }
      jobs := jobs[|jobs| - count..];
      return Success(());
    }

    /** `JobList::tags`: every job's tags inserted into one set, job by job. */
    method Tags() returns (r: seq<string>)
      ensures r == InsertedAll([], AllTags(jobs))
      ensures NoDuplicates(r)
      ensures forall t :: t in r <==> exists i :: 0 <= i < |jobs| && t in jobs[i].job.tags
    {
      var tags := new TagSet();
      for i := 0 to |jobs|
        invariant tags.tags == InsertedAll([], AllTags(jobs[..i]))
      {
        assert jobs[..i + 1][..i] == jobs[..i];
        InsertedAllAppend([], AllTags(jobs[..i]), jobs[i].job.tags);
        tags.InsertMany(jobs[i].job.tags);
      }
      assert jobs[..|jobs|] == jobs;
      r := tags.tags;
      TagsOfPrefix(jobs, |jobs|);
    }

    /** `JobList::positions`: the positions of the stored entries. */
    function Positions(): (r: set<nat>)
      reads this
      ensures forall n :: n in r <==> exists i :: 0 <= i < |jobs| && jobs[i].pos == n
    {
      set i | 0 <= i < |jobs| :: jobs[i].pos
    }

    /** `JobList::get_configuration_with_tag`: the first tag with an override and that override,
        or the empty name and the base properties. */
    method GetConfigurationWithTag(tags: seq<string>) returns (tag: string, properties: Properties)
      ensures (exists j :: 0 <= j < |tags| && tags[j] in configuration.tags) ==>
        exists k :: 0 <= k < |tags| && tag == tags[k] && tag in configuration.tags
          && properties == configuration.tags[tag]
          && forall j :: 0 <= j < k ==> tags[j] !in configuration.tags
      ensures (forall j :: 0 <= j < |tags| ==> tags[j] !in configuration.tags) ==>
        tag == "" && properties == configuration.base
      ensures properties == Resolve(configuration, tags)
    {
      for i := 0 to |tags|
        invariant forall j :: 0 <= j < i ==> tags[j] !in configuration.tags
      {
        if tags[i] in configuration.tags {
          return tags[i], configuration.tags[tags[i]];
        }
      }
      return "", configuration.base;
    }

    /** `JobList::get_configuration` */
    method GetConfiguration(tags: seq<string>) returns (properties: Properties)
      ensures properties == Resolve(configuration, tags)
    {
      var _, p := GetConfigurationWithTag(tags);
      properties := p;
    }

    /** `JobList::hours_overall` */
    method HoursOverall(hoursOf: (Job, Properties) -> real) returns (hours: real)
      ensures hours == TotalHours(jobs, configuration, hoursOf)
    {
      hours := 0.0;
      for i := 0 to |jobs|
        invariant hours == TotalHours(jobs[..i], configuration, hoursOf)
      {
        assert jobs[..i + 1][..i] == jobs[..i];
        var properties := GetConfiguration(jobs[i].job.tags);
        hours := hours + hoursOf(jobs[i].job, properties);
      }
      assert jobs[..|jobs|] == jobs;
    }

    /** `JobList::pay_overall`: `None` exactly when no job is rated, otherwise the pay of the
        rated jobs. */
    method PayOverall(hoursOf: (Job, Properties) -> real) returns (pay: Option<real>)
      ensures pay.None? <==> forall i :: 0 <= i < |jobs| ==> !Rated(configuration, jobs[i].job)
      ensures pay.Some? ==> pay.value == TotalPay(jobs, configuration, hoursOf)
    {
      var paySum := 0.0;
      var hasPayment := false;
      for i := 0 to |jobs|
        invariant paySum == TotalPay(jobs[..i], configuration, hoursOf)
        invariant hasPayment == AnyRated(jobs[..i], configuration)
      {
        assert jobs[..i + 1][..i] == jobs[..i];
        var properties := GetConfiguration(jobs[i].job.tags);
        if properties.rate.Some? {
          paySum := paySum + properties.rate.value * hoursOf(jobs[i].job, properties);
          hasPayment := true;
        }
      }
      assert jobs[..|jobs|] == jobs;
      AnyRatedExists(jobs, configuration);
      if hasPayment {
        pay := Some(paySum);
      } else {
        pay := None;
      }
    }
  }
}
