/** `src/tag_set.rs`: an ordered list of tag names.

    `insert`, `insert_many` and `remove` change the list in place and are methods of the class
    `TagSet`; `modify` builds a fresh `TagSet` step by step. The conversions, `filter` and
    `contains` are pure and are functions over the tag sequence a `TagSet` wraps. */
module TagSets {
  import opened Wrappers
  import opened Text

  predicate NoDuplicates(s: seq<string>)
  {
    forall i, j :: 0 <= i < j < |s| ==> s[i] != s[j]
  }

  /** `a` is `b` with some elements left out, the rest kept in order. */
  predicate IsSubsequence(a: seq<string>, b: seq<string>)
    decreases |b|
  {
    if a == [] then true
    else if b == [] then false
    else if a[0] == b[0] then IsSubsequence(a[1..], b[1..])
    else IsSubsequence(a, b[1..])
  }

  // ---- specification of the in-place operations ----

  /** The list `insert` leaves: unchanged when the tag is present, else the tag appended. */
  function Inserted(s: seq<string>, tag: string): seq<string>
  {
    if tag in s then s else s + [tag]
  }

  /** The list `insert_many` leaves: each tag inserted in turn. */
  function InsertedAll(s: seq<string>, ts: seq<string>): seq<string>
    decreases |ts|
  {
    if ts == [] then s else InsertedAll(Inserted(s, ts[0]), ts[1..])
  }

  /** The list `remove` leaves: every occurrence of the tag dropped. */
  function Removed(s: seq<string>, tag: string): seq<string>
  {
    if s == [] then [] else (if s[0] == tag then [] else [s[0]]) + Removed(s[1..], tag)
  }

  /** Inserting many keeps what was there as a prefix, adds exactly the new tags, and keeps a
      duplicate-free list duplicate-free. */
  lemma {:induction false} InsertedAllProperties(s: seq<string>, ts: seq<string>)
    ensures s <= InsertedAll(s, ts)
    ensures forall x :: x in InsertedAll(s, ts) <==> x in s || x in ts
    ensures NoDuplicates(s) ==> NoDuplicates(InsertedAll(s, ts))
    decreases |ts|
  {
    if ts != [] {
      var s' := Inserted(s, ts[0]);
      InsertedAllProperties(s', ts[1..]);
      assert forall x :: x in ts <==> x == ts[0] || x in ts[1..];
    }
  }

  /** Inserting `a` then `b` is inserting `a + b`. */
  lemma {:induction false} InsertedAllAppend(s: seq<string>, a: seq<string>, b: seq<string>)
    ensures InsertedAll(s, a + b) == InsertedAll(InsertedAll(s, a), b)
    decreases |a|
  {
    if a != [] {
      assert (a + b)[0] == a[0] && (a + b)[1..] == a[1..] + b;
      InsertedAllAppend(Inserted(s, a[0]), a[1..], b);
    } else {
      assert a + b == b;
    }
  }

  /** Removing drops every occurrence of the tag and keeps only tags that were there. */
  lemma {:induction false} RemovedMembers(s: seq<string>, tag: string)
    ensures tag !in Removed(s, tag)
    ensures forall x :: x in Removed(s, tag) <==> x in s && x != tag
  {
    if s != [] {
      RemovedMembers(s[1..], tag);
    }
  }

  /** Removing keeps every other tag as often as before. */
  lemma {:induction false} RemovedCounts(s: seq<string>, tag: string)
    ensures forall x :: x != tag ==> multiset(Removed(s, tag))[x] == multiset(s)[x]
  {
    if s != [] {
      RemovedCounts(s[1..], tag);
      assert s == [s[0]] + s[1..];
    }
  }

  /** Removing keeps the remaining tags in their order. */
  lemma {:induction false} RemovedInOrder(s: seq<string>, tag: string)
    ensures IsSubsequence(Removed(s, tag), s)
  {
    if s != [] {
      RemovedInOrder(s[1..], tag);
      var r := Removed(s, tag);
      if s[0] != tag {
        assert r[1..] == Removed(s[1..], tag);
      } else {
        assert r == Removed(s[1..], tag);
        SkipHead(r, s);
      }
    }
  }

  /** Removing keeps a duplicate-free list duplicate-free. */
  lemma {:induction false} RemovedNoDuplicates(s: seq<string>, tag: string)
    requires NoDuplicates(s)
    ensures NoDuplicates(Removed(s, tag))
  {
    if s != [] {
      RemovedNoDuplicates(s[1..], tag);
      RemovedMembers(s[1..], tag);
      if s[0] != tag {
        var r := Removed(s, tag);
        assert r[1..] == Removed(s[1..], tag);
        assert s[0] !in s[1..];
      }
    }
  }

  // ---- specification of `modify` ----

  /** An entry that asks for an addition: marked with '+' at either end. */
  predicate IsAddition(entry: string)
  {
    StartsWith(entry, "+") || EndsWith(entry, "+")
  }

  /** An entry that asks for a removal: marked with '-' at either end and not an addition. */
  predicate IsRemoval(entry: string)
  {
    !IsAddition(entry) && (StartsWith(entry, "-") || EndsWith(entry, "-"))
  }

  predicate HasMarker(entry: string)
  {
    IsAddition(entry) || IsRemoval(entry)
  }

  /** Whether any entry carries a marker. */
  predicate AnyMarker(mods: seq<string>)
  {
    mods != [] && (AnyMarker(mods[..|mods| - 1]) || HasMarker(mods[|mods| - 1]))
  }

  /** One step of marker mode, as written: the first character is dropped, wherever the marker is. */
  function ApplyEntry(acc: seq<string>, entry: string): (r: seq<string>)
    ensures IsAddition(entry) ==> forall x :: x in r <==> x in acc || x == entry[1..]
    ensures IsRemoval(entry) ==> forall x :: x in r <==> x in acc && x != entry[1..]
    ensures !HasMarker(entry) ==> r == acc
  {
    if IsAddition(entry) then Inserted(acc, entry[1..])
    else if IsRemoval(entry) then
      RemovedMembers(acc, entry[1..]);
      Removed(acc, entry[1..])
    else acc
  }

  /** The set marker mode builds, starting from an empty set. */
  function Built(mods: seq<string>): seq<string>
  {
    if mods == [] then [] else ApplyEntry(Built(mods[..|mods| - 1]), mods[|mods| - 1])
  }

  /** What `modify` returns: the modification itself when no entry is marked; otherwise a set
      built from nothing, without duplicates, of names that addition entries inserted. */
  function Modified(mods: seq<string>): (r: seq<string>)
    ensures !AnyMarker(mods) ==> r == mods
    ensures AnyMarker(mods) ==> NoDuplicates(r)
    ensures AnyMarker(mods) ==> forall x :: x in r ==>
      exists i :: 0 <= i < |mods| && IsAddition(mods[i]) && mods[i][1..] == x
  {
    if AnyMarker(mods) then
      BuiltProperties(mods);
      Built(mods)
    else mods
  }

  /** `AnyMarker` holds exactly when some entry has a marker. */
  lemma {:induction false} AnyMarkerExists(mods: seq<string>)
    ensures AnyMarker(mods) <==> exists i :: 0 <= i < |mods| && HasMarker(mods[i])
  {
    if mods != [] {
      var init := mods[..|mods| - 1];
      AnyMarkerExists(init);
      if AnyMarker(init) {
        var i :| 0 <= i < |init| && HasMarker(init[i]);
        assert mods[i] == init[i];
      }
      if exists i :: 0 <= i < |mods| && HasMarker(mods[i]) {
        var i :| 0 <= i < |mods| && HasMarker(mods[i]);
        if i < |init| {
          assert init[i] == mods[i];
        }
      }
    }
  }

  /** Without any marker, `modify` hands back the modification unchanged (a full replacement). */
  lemma ModifiedWithoutMarkers(mods: seq<string>)
    requires forall i :: 0 <= i < |mods| ==> !HasMarker(mods[i])
    ensures Modified(mods) == mods
  {
    AnyMarkerExists(mods);
  }

  /** In marker mode the result is built from nothing: it holds no duplicates, and each of its
      tags is what an addition entry inserted (`entry[1..]`). */
  lemma {:induction false} BuiltProperties(mods: seq<string>)
    ensures NoDuplicates(Built(mods))
    ensures forall x :: x in Built(mods) ==>
      exists i :: 0 <= i < |mods| && IsAddition(mods[i]) && mods[i][1..] == x
  {
    if mods != [] {
      var init := mods[..|mods| - 1];
      var last := mods[|mods| - 1];
      BuiltProperties(init);
      var acc := Built(init);
      if IsAddition(last) {
        InsertedAllProperties(acc, [last[1..]]);
        assert InsertedAll(acc, [last[1..]]) == Inserted(acc, last[1..]);
      } else if IsRemoval(last) {
        RemovedNoDuplicates(acc, last[1..]);
        RemovedMembers(acc, last[1..]);
      }
      forall x | x in Built(mods)
        ensures exists i :: 0 <= i < |mods| && IsAddition(mods[i]) && mods[i][1..] == x
      {
        if x in acc {
          var i :| 0 <= i < |init| && IsAddition(init[i]) && init[i][1..] == x;
          assert mods[i] == init[i];
        } else {
          assert mods[|mods| - 1] == last;
        }
      }
    }
  }

  /** Example: "+urgent" gives ["urgent"]. */
  lemma ModifyAddsTag()
    ensures Modified(["+urgent"]) == ["urgent"]
  {
    assert ["+urgent"][..0] == [];
    assert "+urgent"[..1] == "+" && "+urgent"[1..] == "urgent";
    assert IsAddition("+urgent");
    assert AnyMarker(["+urgent"]);
  }

  /** Example: "-work" on its own gives the empty set, since the result is built from nothing. */
  lemma ModifyRemovalAlone()
    ensures Modified(["-work"]) == []
  {
    assert ["-work"][..0] == [];
    assert "-work"[..1] == "-" && "-work"[4..] == "k";
    assert !IsAddition("-work") && IsRemoval("-work");
    assert Removed([], "work") == [];
    assert AnyMarker(["-work"]);
  }

  /** Example: an unmarked entry replaces the tags. */
  lemma ModifyUnmarkedReplaces()
    ensures Modified(["personal"]) == ["personal"]
  {
    assert "personal"[..1] == "p" && "personal"[7..] == "l";
    assert !HasMarker("personal");
    assert ["personal"][..0] == [];
    assert !AnyMarker(["personal"]);
  }

  /** Example: "-a" after "+a" cancels it. */
  lemma ModifyCancels()
    ensures Modified(["+a", "-a"]) == []
  {
    assert ["+a", "-a"][..1] == ["+a"];
    assert "+a"[1..] == "a" && "-a"[1..] == "a";
    assert "+a"[..1] == "+" && "-a"[..1] == "-";
    assert IsAddition("+a") && IsRemoval("-a");
    assert Built(["+a"]) == ["a"];
    assert AnyMarker(["+a", "-a"]);
    assert Removed(["a"], "a") == [];
  }

  /** As written, a suffix marker drops the first character of the tag and keeps the marker:
      "urgent+" inserts "rgent+". */
  lemma SuffixMarkerAsWritten()
    ensures Modified(["urgent+"]) == ["rgent+"]
  {
    assert IsAddition("urgent+");
    assert "urgent+"[1..] == "rgent+";
  }

  // ---- marker stripping as evidently intended ----

  /** The tag an entry names, with its marker removed from whichever end carries it. */
  function StripMarker(entry: string, marker: char): string
    requires StartsWith(entry, [marker]) || EndsWith(entry, [marker])
  {
    if entry[0] == marker then entry[1..] else entry[..|entry| - 1]
  }

  /** One step of marker mode with the marker stripped from the end that carries it. */
  function ApplyEntryIntended(acc: seq<string>, entry: string): seq<string>
  {
    if IsAddition(entry) then Inserted(acc, StripMarker(entry, '+'))
    else if IsRemoval(entry) then Removed(acc, StripMarker(entry, '-'))
    else acc
  }

  function BuiltIntended(mods: seq<string>): seq<string>
  {
    if mods == [] then [] else ApplyEntryIntended(BuiltIntended(mods[..|mods| - 1]), mods[|mods| - 1])
  }

  function ModifiedIntended(mods: seq<string>): seq<string>
  {
    if AnyMarker(mods) then BuiltIntended(mods) else mods
  }

  /** With the marker stripped from its own end, "+tag", "tag+", "-tag" and "tag-" all name
      `tag` (for a tag that does not itself begin with the marker). */
  lemma StripMarkerNamesTag(tag: string, marker: char)
    requires tag != [] && tag[0] != marker
    ensures StripMarker([marker] + tag, marker) == tag
    ensures StripMarker(tag + [marker], marker) == tag
  {
    assert (tag + [marker])[..|tag|] == tag;
  }

  /** The intended reading of "urgent+" inserts "urgent", and "urgent-" removes it again. */
  lemma SuffixMarkerIntended()
    ensures ModifiedIntended(["urgent+"]) == ["urgent"]
    ensures ModifiedIntended(["urgent+", "urgent-"]) == []
  {
    StripMarkerNamesTag("urgent", '+');
    StripMarkerNamesTag("urgent", '-');
    assert "urgent+" == "urgent" + ['+'];
    assert "urgent-" == "urgent" + ['-'];
    assert IsAddition("urgent+");
    assert IsRemoval("urgent-");
    assert ["urgent+", "urgent-"][..1] == ["urgent+"];
    assert BuiltIntended(["urgent+"]) == ["urgent"];
    assert AnyMarker(["urgent+", "urgent-"]);
    assert Removed(["urgent"], "urgent") == [];
  }

  // ---- conversions and pure queries ----

  /** `Vec::dedup`: drops an element equal to the one just before it. */
  function Dedup(s: seq<string>): (r: seq<string>)
    ensures |r| <= |s|
    ensures s != [] ==> r != [] && r[0] == s[0] && r[|r| - 1] == s[|s| - 1]
    ensures forall i :: 0 <= i < |r| - 1 ==> r[i] != r[i + 1]
    ensures forall x :: x in r <==> x in s
  {
    if |s| <= 1 then s
    else if s[0] == s[1] then Dedup(s[1..])
    else [s[0]] + Dedup(s[1..])
  }

  /** `dedup` pinned down element by element: a further element is dropped exactly when it
      equals the one before it, and is kept otherwise. */
  lemma {:induction false} DedupSnoc(s: seq<string>, x: string)
    ensures Dedup(s + [x]) == if s != [] && s[|s| - 1] == x then Dedup(s) else Dedup(s) + [x]
    decreases |s|
  {
    var t := s + [x];
    if |s| == 1 {
      assert t[1..] == [x];
    } else if |s| > 1 {
      assert t[0] == s[0] && t[1] == s[1];
      assert t[1..] == s[1..] + [x];
      DedupSnoc(s[1..], x);
      if s[0] != s[1] && !(s[|s| - 1] == x) {
        assert [s[0]] + (Dedup(s[1..]) + [x]) == [s[0]] + Dedup(s[1..]) + [x];
      }
    }
  }

  /** A list without adjacent repeats is left as it is, so `dedup` is idempotent. */
  lemma {:induction false} DedupOfNoAdjacentRepeats(s: seq<string>)
    requires forall i :: 0 <= i < |s| - 1 ==> s[i] != s[i + 1]
    ensures Dedup(s) == s
  {
    if |s| > 1 {
      DedupOfNoAdjacentRepeats(s[1..]);
    }
  }

  /** Only adjacent duplicates go: ["a", "b", "a"] is kept whole. */
  lemma DedupKeepsDistantRepeats()
    ensures Dedup(["a", "b", "a"]) == ["a", "b", "a"]
  {
    DedupOfNoAdjacentRepeats(["a", "b", "a"]);
  }

  /** `From<Option<Vec<String>>>`: no list gives the empty set. */
  function FromOptionVec(v: Option<seq<string>>): (r: seq<string>)
    ensures v.None? ==> r == []
    ensures v.Some? ==> r == Dedup(v.value)
  {
    match v
    case None => []
    case Some(tags) => Dedup(tags)
  }

  /** `TagSet::from_option_vec` */
  function FromOptionVecOption(v: Option<seq<string>>): (r: Option<seq<string>>)
    ensures r.Some? <==> v.Some?
    ensures r.Some? ==> r.value == Dedup(v.value)
  {
    match v
    case None => None
    case Some(tags) => Some(Dedup(tags))
  }

  /** `From<&String>` / `From<&str>`: the string split at every '*'. */
  function FromStr(s: string): (r: seq<string>)
    ensures |r| >= 1 && Join(r, '*') == s
    ensures forall i :: 0 <= i < |r| ==> '*' !in r[i]
  {
    Split(s, '*')
  }

  /** `From<&Option<String>>` */
  function FromOptionStr(s: Option<string>): (r: seq<string>)
    ensures s.None? ==> r == []
    ensures s.Some? ==> |r| >= 1 && Join(r, '*') == s.value
  {
    match s
    case None => []
    case Some(t) => FromStr(t)
  }

  /** `TagSet::filter`: the tags the predicate keeps, in their original order. */
  function Filter(tags: seq<string>, keep: string -> bool): (r: seq<string>)
    ensures IsSubsequence(r, tags)
    ensures forall x :: x in r <==> x in tags && keep(x)
    ensures forall x :: multiset(r)[x] == if keep(x) then multiset(tags)[x] else 0
  {
    if tags == [] then []
    else if keep(tags[0]) then
      assert tags == [tags[0]] + tags[1..];
      [tags[0]] + Filter(tags[1..], keep)
    else
      var rest := Filter(tags[1..], keep);
      SkipHead(rest, tags);
      assert tags == [tags[0]] + tags[1..];
      rest
  }

  lemma {:induction false} SkipHead(a: seq<string>, b: seq<string>)
    requires b != [] && IsSubsequence(a, b[1..])
    ensures IsSubsequence(a, b)
    decreases |b|, 0
  {
    if a != [] && a[0] == b[0] {
      SubsequenceTail(a, b[1..]);
    }
  }

  lemma {:induction false} SubsequenceTail(a: seq<string>, c: seq<string>)
    requires a != [] && IsSubsequence(a, c)
    ensures IsSubsequence(a[1..], c)
    decreases |c|, 1
  {
    if a[0] == c[0] {
      SkipHead(a[1..], c);
    } else {
      SubsequenceTail(a, c[1..]);
      SkipHead(a[1..], c);
    }
  }

  /** `TagSet::contains` */
  function Contains(tags: seq<string>, tag: string): (b: bool)
    ensures b <==> exists i :: 0 <= i < |tags| && tags[i] == tag
  {
    tag in tags
  }

  /** A `TagSet` whose list the methods below change in place. */
  class TagSet {
    var tags: seq<string>

    /** `TagSet::new` */
    constructor ()
      ensures tags == []
    {
      tags := [];
    }

    /** `From<Vec<String>>` */
    constructor FromVector(v: seq<string>)
      ensures tags == Dedup(v)
    {
      tags := Dedup(v);
    }

    /** `TagSet::insert`: appends the tag unless present and says whether it did. */
    method Insert(tag: string) returns (added: bool)
      modifies this
      ensures added <==> tag !in old(tags)
      ensures tags == Inserted(old(tags), tag)
    {
      if tag in tags {
        added := false;
      } else {
        tags := tags + [tag];
        added := true;
      }
    }

    /** `TagSet::insert_many` */
    method InsertMany(ts: seq<string>)
      modifies this
      ensures tags == InsertedAll(old(tags), ts)
    {
      ghost var before := tags;
      for i := 0 to |ts|
        invariant tags == InsertedAll(before, ts[..i])
      {
        InsertedAllAppend(before, ts[..i], [ts[i]]);
        assert ts[..i + 1] == ts[..i] + [ts[i]];
        assert InsertedAll(tags, [ts[i]]) == Inserted(tags, ts[i]);
        var _ := Insert(ts[i]);
      }
      assert ts[..|ts|] == ts;
    }

    /** `TagSet::remove` */
    method Remove(tag: string)
      modifies this
      ensures tags == Removed(old(tags), tag)
    {
      tags := Removed(tags, tag);
    }

    /** `TagSet::modify`. It never reads `this`: in marker mode the result is built in a fresh
        set, otherwise the modification itself is returned. */
    method Modify(modification: seq<string>) returns (r: seq<string>)
      ensures r == Modified(modification)
    {
      var marked := false;
      var built := new TagSet();
      for i := 0 to |modification|
        invariant built.tags == Built(modification[..i])
        invariant marked == AnyMarker(modification[..i])
      {
        assert modification[..i + 1][..i] == modification[..i];
        var tag := modification[i];
        if StartsWith(tag, "+") || EndsWith(tag, "+") {
          var _ := built.Insert(tag[1..]);
          marked := true;
        } else if StartsWith(tag, "-") || EndsWith(tag, "-") {
          built.Remove(tag[1..]);
          marked := true;
        }
      }
      assert modification[..|modification|] == modification;
      if marked {
        r := built.tags;
      } else {
        r := modification;
      }
    }
  }
}
