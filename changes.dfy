/** `Change` of `src/change.rs`: what a command did to the database, and the confirmation
    text shown for it. How a job, a tag set and a configuration print is given by a `Texts`
    record; only the text around them is modelled. */
module Changes {
  import opened Wrappers
  import opened Text
  import C = Configurations

  datatype Change =
    | Nothing
    | Push(job: C.Job)
    | Modify(position: nat, job: C.Job)
    | Import(count: nat, newTags: seq<string>)
    | Configuration(tags: Option<seq<string>>, configuration: C.Configuration)

  /** How the payloads print (their `Display`). */
  datatype Texts = Texts(job: C.Job -> string, tagSet: seq<string> -> string, configuration: C.Configuration -> string)

  const Unchanged := "Database unchanged."
  const Started := "Started new job:\n\n"
  const Added := "Added new job:\n\n"
  const Ended := "Ended open job:"
  const Modified := "Modified job:"
  const Position := "\n\n    Pos: "
  const ForTags := "Changed the following configuration values for tag(s) "
  const ForDefault := "Changed the following default configuration values:\n\n"

  /** `Display for Change`. */
  function Show(change: Change, texts: Texts): (r: string)
    ensures r != []
    ensures (change.Push? || change.Modify?) ==> EndsWith(r, texts.job(change.job))
    ensures change.Configuration? ==> EndsWith(r, texts.configuration(change.configuration))
  {
    match change
    case Nothing => Unchanged
    case Push(job) => (if C.IsOpen(job) then Started else Added) + texts.job(job)
    case Modify(position, job) =>
      (if C.IsOpen(job) then Ended else Modified) + Position + NatToString(position + 1) + "\n" + texts.job(job)
    case Import(count, newTags) =>
      if newTags == [] then "Imported " + NatToString(count) + " jobs."
      else "Imported " + NatToString(count) + " jobs added new tags " + texts.tagSet(newTags) + "."
    case Configuration(tags, configuration) =>
      if tags.Some? then ForTags + texts.tagSet(tags.value) + ":\n\n" + texts.configuration(configuration)
      else ForDefault + texts.configuration(configuration)
  }

  /** Nothing changed: a fixed sentence. */
  lemma NothingShown(texts: Texts)
    ensures Show(Nothing, texts) == "Database unchanged."
  {
  }

  /** A pushed job is announced as started exactly when it is open, and as added otherwise;
      the job itself follows the header. */
  lemma PushHeader(job: C.Job, texts: Texts)
    ensures StartsWith(Show(Push(job), texts), "Started new job:") <==> C.IsOpen(job)
    ensures StartsWith(Show(Push(job), texts), "Added new job:") <==> !C.IsOpen(job)
    ensures EndsWith(Show(Push(job), texts), texts.job(job))
  {
    var shown := Show(Push(job), texts);
    if C.IsOpen(job) {
      assert shown[..16] == Started[..16];
      assert shown[0] != "Added new job:"[0];
    } else {
      assert shown[..14] == Added[..14];
      assert shown[0] != "Started new job:"[0];
    }
  }

  /** A modified job is shown with its position counted from one, under "Ended open job" exactly
      when it is open and "Modified job" otherwise. */
  lemma ModifyShowsPosition(position: nat, job: C.Job, texts: Texts)
    ensures exists digits ::
              (IsDecimal(digits) && DecimalValue(digits) == position + 1 &&
               Show(Modify(position, job), texts)
                 == (if C.IsOpen(job) then Ended else Modified) + "\n\n    Pos: " + digits + "\n" + texts.job(job))
    ensures StartsWith(Show(Modify(position, job), texts), "Ended open job:") <==> C.IsOpen(job)
  {
    var header := if C.IsOpen(job) then Ended else Modified;
    var digits := NatToString(position + 1);
    DecimalRoundTrip(position + 1);
    var rest := Position + digits + "\n" + texts.job(job);
    assert Show(Modify(position, job), texts) == header + rest;
    PrefixOfConcat(header, rest);
    if !C.IsOpen(job) {
      assert (header + rest)[0] != Ended[0];
    }
  }

  lemma PrefixOfConcat(a: string, b: string)
    ensures (a + b)[..|a|] == a
  {
  }

  /** The clause about new tags appears exactly when the import added some. */
  lemma ImportClause(count: nat, newTags: seq<string>, texts: Texts)
    ensures Show(Import(count, newTags), texts) == "Imported " + NatToString(count) + " jobs."
        <==> newTags == []
  {
    var short := "Imported " + NatToString(count) + " jobs.";
    var shown := Show(Import(count, newTags), texts);
    if newTags != [] {
      assert |shown| > |short|;
    }
  }

  /** A configuration change names its tags exactly when it was made for tags; otherwise it
      announces the default configuration. */
  lemma ConfigurationHeader(tags: Option<seq<string>>, configuration: C.Configuration, texts: Texts)
    ensures StartsWith(Show(Configuration(tags, configuration), texts), ForTags) <==> tags.Some?
    ensures StartsWith(Show(Configuration(tags, configuration), texts), ForDefault) <==> tags.None?
    ensures EndsWith(Show(Configuration(tags, configuration), texts), texts.configuration(configuration))
  {
    var shown := Show(Configuration(tags, configuration), texts);
    if tags.Some? {
      assert shown[..|ForTags|] == ForTags;
      assert shown[22] != ForDefault[22];
    } else {
      assert shown[..|ForDefault|] == ForDefault;
      assert shown[22] != ForTags[22];
    }
  }
}
