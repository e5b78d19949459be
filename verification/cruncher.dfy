/** The driver of html-cruncher, run sequentially: collect from every HTML
    file, then from every CSS and JS file, then optionally drop single-file
    records, sort by weight and hand out short names; the rewrite phase only
    reads the finished registry. */
module Cruncher {
  import opened Registry
  import opened Collection
  import opened CommonFilter
  import opened WeightSort
  import opened ShortNames

  /** An identifier a producer reported: its kind, its file and its name. */
  datatype Sighting = Sighting(tagType: TagType, fileName: string, name: string)

  /** HTML `id` and `class` attributes declare identifiers: each one is a call
      aimed at its key that may create the record. */
  function HtmlAdds(fs: seq<Sighting>): (r: seq<Occurrence>)
    ensures |r| == |fs|
    ensures forall i :: 0 <= i < |fs| ==>
      Creates(r[i], fs[i].tagType, fs[i].name) && r[i].fileName == fs[i].fileName
  {
    seq(|fs|, i requires 0 <= i < |fs| => Occurrence(fs[i].tagType, fs[i].fileName, fs[i].name, false))
  }

  /** CSS selectors and JS calls only refer to identifiers: each one is a call
      aimed at its key that never creates a record. */
  function RefAdds(fs: seq<Sighting>): (r: seq<Occurrence>)
    ensures |r| == |fs| && UpdateOnly(r)
    ensures forall i :: 0 <= i < |fs| ==>
      Hits(r[i], fs[i].tagType, fs[i].name) && r[i].fileName == fs[i].fileName
  {
    seq(|fs|, i requires 0 <= i < |fs| => Occurrence(fs[i].tagType, fs[i].fileName, fs[i].name, true))
  }

  /** The registry once both collection phases are over: HTML collection on an
      empty registry, then CSS and JS collection on its result. */
  function Collected(html: seq<Sighting>, other: seq<Sighting>): (r: seq<Tag>)
    ensures Unique(r)
  {
    AddAll(AddAll([], HtmlAdds(html)), RefAdds(other))
  }

  /** Some HTML attribute declares the record's key. */
  predicate DeclaredInHtml(t: Tag, html: seq<Sighting>) {
    exists i :: 0 <= i < |html| && html[i].tagType == t.tagType && html[i].name == t.name
  }

  /** The records the naming step sees. */
  function Survivors(html: seq<Sighting>, other: seq<Sighting>, renameOnlyCommonTags: bool): (r: seq<Tag>)
    ensures forall t :: t in r ==> t in Collected(html, other)
    ensures renameOnlyCommonTags ==> forall t :: t in r ==> !t.onlyExistInOneFile
  {
    if renameOnlyCommonTags then Common(Collected(html, other)) else Collected(html, other)
  }

  /** The records with their assigned names erased. */
  function Strip(tags: seq<Tag>): (r: seq<Tag>)
    ensures |r| == |tags|
  {
    seq(|tags|, i requires 0 <= i < |tags| => tags[i].(newName := ""))
  }

  lemma {:induction false} CountHitsNone(s: seq<Occurrence>, tagType: TagType, name: string)
    requires forall i :: 0 <= i < |s| ==> !Hits(s[i], tagType, name)
    ensures CountHits(s, tagType, name) == 0
    decreases |s|
  {
    if |s| > 0 {
      CountHitsNone(s[..|s| - 1], tagType, name);
    }
  }

  /** When every add may create, the record's weight counts every add aimed
      at its key. */
  lemma {:induction false} WeightFromAllAdds(occs: seq<Occurrence>, refs: seq<Occurrence>, t0: Tag, t: Tag)
    requires Accounted(t0, occs)
    requires forall i :: 0 <= i < |occs| ==> !occs[i].onlyIfExists
    requires t == Absorb(t0, refs)
    ensures t.weight == |t.name| * (CountHits(occs, t.tagType, t.name) + CountHits(refs, t.tagType, t.name))
  {
    var c := Creator(occs, t0.tagType, t0.name);
    assert occs == occs[..c] + occs[c..];
    CountHitsNone(occs[..c], t0.tagType, t0.name);
    CountHitsConcat(occs[..c], occs[c..], t0.tagType, t0.name);
    var n := |t0.name|;
    var a := CountHits(occs, t0.tagType, t0.name);
    var b := CountHits(refs, t0.tagType, t0.name);
    assert CountHits(occs[c..], t0.tagType, t0.name) == a;
    assert t0.weight == n * a;
    assert t.weight == n * a + n * b;
    Distribute(n, a, b);
    assert t.weight == n * (a + b);
  }

  /** Because all HTML collection ends before CSS and JS collection starts,
      every record is declared by some HTML file; the registry is unique and
      nothing is named yet. */
  lemma {:induction false} CollectedKeys(html: seq<Sighting>, other: seq<Sighting>)
    ensures Unique(Collected(html, other))
    ensures forall t :: t in Collected(html, other) ==> t.newName == "" && DeclaredInHtml(t, html)
  {
    CollectFromEmpty(HtmlAdds(html));
    forall t | t in Collected(html, other)
      ensures t.newName == "" && DeclaredInHtml(t, html)
    {
      CollectedDeclared(html, other, t);
    }
  }

  lemma CollectedDeclared(html: seq<Sighting>, other: seq<Sighting>, t: Tag)
    requires t in Collected(html, other)
    ensures t.newName == "" && DeclaredInHtml(t, html)
  {
    var occs := HtmlAdds(html);
    var t0 := CollectedOrigin(html, other, t);
    var j :| 0 <= j < |occs| && Creates(occs[j], t0.tagType, t0.name);
    assert html[j].tagType == t.tagType && html[j].name == t.name;
  }

  /** Each collected record is an HTML-phase record that absorbed the CSS/JS phase. */
  lemma {:induction false} CollectedOrigin(html: seq<Sighting>, other: seq<Sighting>, t: Tag) returns (t0: Tag)
    requires t in Collected(html, other)
    ensures Accounted(t0, HtmlAdds(html)) && t == Absorb(t0, RefAdds(other))
  {
    var occs := HtmlAdds(html);
    var reg := AddAll([], occs);
    CollectFromEmpty(occs);
    UpdatePhase(reg, RefAdds(other));
    var i :| 0 <= i < |reg| && Collected(html, other)[i] == t;
    assert reg[i] in reg;
    t0 := reg[i];
  }

  /** When every add may create, the record stays single-file exactly when
      every add aimed at its key came from its first file. */
  lemma {:induction false} FlagFromAllAdds(occs: seq<Occurrence>, refs: seq<Occurrence>, t0: Tag)
    requires Accounted(t0, occs)
    requires forall i :: 0 <= i < |occs| ==> !occs[i].onlyIfExists
    ensures var t := Absorb(t0, refs);
      t.onlyExistInOneFile <==>
        (forall o :: o in occs && Hits(o, t.tagType, t.name) ==> o.fileName == t.fileNameFirstFound) &&
        (forall o :: o in refs && Hits(o, t.tagType, t.name) ==> o.fileName == t.fileNameFirstFound)
  {
    var c := Creator(occs, t0.tagType, t0.name);
    assert (forall o :: o in occs && Hits(o, t0.tagType, t0.name) ==> o.fileName == t0.fileNameFirstFound)
       <==> (forall k :: c <= k < |occs| && Hits(occs[k], t0.tagType, t0.name) ==> occs[k].fileName == occs[c].fileName);
  }

  /** Every record's weight is its name's length times the number of adds
      aimed at its key, its first file is that of its first HTML declaration,
      and it is single-file exactly when every add aimed at its key came from
      that file. */
  lemma {:induction false} CollectedAccount(html: seq<Sighting>, other: seq<Sighting>, t: Tag)
    requires t in Collected(html, other)
    ensures Created(HtmlAdds(html), t.tagType, t.name)
    ensures t.weight ==
      |t.name| * (CountHits(HtmlAdds(html), t.tagType, t.name) + CountHits(RefAdds(other), t.tagType, t.name))
    ensures t.fileNameFirstFound == HtmlAdds(html)[Creator(HtmlAdds(html), t.tagType, t.name)].fileName
    ensures t.onlyExistInOneFile <==>
      (forall o :: o in HtmlAdds(html) && Hits(o, t.tagType, t.name) ==> o.fileName == t.fileNameFirstFound) &&
      (forall o :: o in RefAdds(other) && Hits(o, t.tagType, t.name) ==> o.fileName == t.fileNameFirstFound)
  {
    var t0 := CollectedOrigin(html, other, t);
    HtmlAddsMayCreate(html);
    AbsorbedAccount(HtmlAdds(html), RefAdds(other), t0, t);
    CollectedWeight(html, other, t);
  }

  lemma CollectedWeight(html: seq<Sighting>, other: seq<Sighting>, t: Tag)
    requires t in Collected(html, other)
    ensures t.weight ==
      |t.name| * (CountHits(HtmlAdds(html), t.tagType, t.name) + CountHits(RefAdds(other), t.tagType, t.name))
  {
    var t0 := CollectedOrigin(html, other, t);
    HtmlAddsMayCreate(html);
    WeightFromAllAdds(HtmlAdds(html), RefAdds(other), t0, t);
  }

  lemma HtmlAddsMayCreate(html: seq<Sighting>)
    ensures forall i :: 0 <= i < |HtmlAdds(html)| ==> !HtmlAdds(html)[i].onlyIfExists
  {
  }

  /** The account of a record created by adds that may all create, after it
      absorbed a run of update-only adds. */
  lemma AbsorbedAccount(occs: seq<Occurrence>, refs: seq<Occurrence>, t0: Tag, t: Tag)
    requires Accounted(t0, occs)
    requires forall i :: 0 <= i < |occs| ==> !occs[i].onlyIfExists
    requires t == Absorb(t0, refs)
    ensures Created(occs, t.tagType, t.name)
    ensures t.weight == |t.name| * (CountHits(occs, t.tagType, t.name) + CountHits(refs, t.tagType, t.name))
    ensures t.fileNameFirstFound == occs[Creator(occs, t.tagType, t.name)].fileName
    ensures t.onlyExistInOneFile <==>
      (forall o :: o in occs && Hits(o, t.tagType, t.name) ==> o.fileName == t.fileNameFirstFound) &&
      (forall o :: o in refs && Hits(o, t.tagType, t.name) ==> o.fileName == t.fileNameFirstFound)
  {
    assert SameKey(t, t0) && t.fileNameFirstFound == t0.fileNameFirstFound;
    WeightFromAllAdds(occs, refs, t0, t);
    FlagFromAllAdds(occs, refs, t0);
  }

  /** How the driver ends. */
  datatype Outcome =
    | Exit(status: int)       // no HTML file given
    | Panicked                // the name generator indexed past its alphabet
    | Renamed(tags: seq<Tag>) // the frozen registry the rewrite phase reads

  /** The driver's phase sequence, from the HTML file check to the naming step.
      `htmlFiles` is the list the file check reads; `html` and `other` are the
      identifiers the HTML and the CSS/JS loaders report. The lexing that links
      the two is not part of this model, so the sightings are taken as given,
      independent of the file list. */
  method Run(htmlFiles: seq<string>, html: seq<Sighting>, other: seq<Sighting>, renameOnlyCommonTags: bool)
    returns (o: Outcome)
    ensures |htmlFiles| == 0 <==> o == Exit(1)
    ensures o.Panicked? <==> |htmlFiles| > 0 && |Survivors(html, other, renameOnlyCommonTags)| > MaxNames
    ensures o.Renamed? ==>
      && multiset(Strip(o.tags)) == multiset(Survivors(html, other, renameOnlyCommonTags))
      && NonIncreasing(o.tags)
      && Unique(o.tags)
      && |o.tags| <= MaxNames
      && (forall k :: 0 <= k < |o.tags| ==> o.tags[k].newName == ShortName(k))
      && (forall i, j :: 0 <= i < j < |o.tags| ==> o.tags[i].newName != o.tags[j].newName)
      && (forall t :: t in o.tags ==> DeclaredInHtml(t, html))
      && (renameOnlyCommonTags ==> forall t :: t in o.tags ==> !t.onlyExistInOneFile)
  {
    if |htmlFiles| == 0 {
      return Exit(1);
    }
    var collected := Collected(html, other);
    var kept := if renameOnlyCommonTags then DropNoCommon(collected) else collected;
    KeptFacts(html, other, renameOnlyCommonTags);
    var sorted := SortByWeight(kept);
    SortedFacts(kept, sorted);
    assert |sorted| == |Survivors(html, other, renameOnlyCommonTags)| by {
      assert |multiset(sorted)| == |multiset(Survivors(html, other, renameOnlyCommonTags))|;
    }
    var named := GiveNewNames(sorted);
    if named.IndexPanic? {
      return Panicked;
    }
    var tags := named.tags;
    NamedFacts(sorted, tags);
    forall t | t in tags
      ensures DeclaredInHtml(t, html)
      ensures renameOnlyCommonTags ==> !t.onlyExistInOneFile
    {
      assert t.(newName := "") in sorted;
    }
    return Renamed(tags);
  }

  /** What the filter step leaves: the survivors, unique, unnamed, declared in
      HTML, and common when the filter ran. */
  lemma {:induction false} KeptFacts(html: seq<Sighting>, other: seq<Sighting>, renameOnlyCommonTags: bool)
    ensures var kept := if renameOnlyCommonTags then DropNoCommon(Collected(html, other)) else Collected(html, other);
      && multiset(kept) == multiset(Survivors(html, other, renameOnlyCommonTags))
      && Unique(kept)
      && forall t :: t in kept ==>
           && t.newName == ""
           && DeclaredInHtml(t, html)
           && (renameOnlyCommonTags ==> !t.onlyExistInOneFile)
  {
    var collected := Collected(html, other);
    CollectedKeys(html, other);
    if renameOnlyCommonTags {
      DropNoCommonIsFilter(collected);
      var kept := DropNoCommon(collected);
      forall t | t in kept
        ensures t in collected
      {
        assert t in multiset(kept);
      }
    }
  }

  /** Sorting keeps every per-record fact and the identity invariant. */
  lemma SortedFacts(kept: seq<Tag>, sorted: seq<Tag>)
    requires multiset(sorted) == multiset(kept)
    requires Unique(kept)
    ensures Unique(sorted)
    ensures forall t :: t in sorted ==> t in kept
  {
    UniquePermutation(kept, sorted);
    forall t | t in sorted
      ensures t in kept
    {
      assert t in multiset(sorted);
    }
  }

  /** Naming an unnamed, sorted, unique registry: only the names change, and
      they are the sequence's first names in order. */
  lemma NamedFacts(sorted: seq<Tag>, tags: seq<Tag>)
    requires |tags| == |sorted| <= MaxNames
    requires forall k :: 0 <= k < |tags| ==> tags[k] == AssignedName(sorted[k], k)
    requires forall t :: t in sorted ==> t.newName == ""
    requires NonIncreasing(sorted) && Unique(sorted)
    ensures Strip(tags) == sorted
    ensures NonIncreasing(tags) && Unique(tags)
    ensures forall k :: 0 <= k < |tags| ==> tags[k].newName == ShortName(k)
    ensures forall i, j :: 0 <= i < j < |tags| ==> tags[i].newName != tags[j].newName
    ensures forall t :: t in tags ==> t.(newName := "") in sorted
  {
    forall k | 0 <= k < |tags|
      ensures tags[k] == sorted[k].(newName := ShortName(k))
    {
      assert sorted[k] in sorted;
    }
    forall i, j | 0 <= i < j < |tags|
      ensures tags[i].newName != tags[j].newName
    {
      ShortNamesDistinct(i, j);
    }
    RenamingKeepsRecords(sorted, tags);
  }

  /** Records that differ only in their new names keep the order, the keys and
      everything but the names. */
  lemma RenamingKeepsRecords(sorted: seq<Tag>, tags: seq<Tag>)
    requires |tags| == |sorted|
    requires forall k :: 0 <= k < |tags| ==> tags[k] == sorted[k].(newName := tags[k].newName)
    requires forall t :: t in sorted ==> t.newName == ""
    requires NonIncreasing(sorted) && Unique(sorted)
    ensures Strip(tags) == sorted
    ensures NonIncreasing(tags) && Unique(tags)
    ensures forall t :: t in tags ==> t.(newName := "") in sorted
  {
    forall k | 0 <= k < |tags|
      ensures Strip(tags)[k] == sorted[k]
    {
      assert sorted[k] in sorted;
    }
    forall t | t in tags
      ensures t.(newName := "") in sorted
    {
      var k :| 0 <= k < |tags| && tags[k] == t;
      assert Strip(tags)[k] == t.(newName := "");
    }
    assert NonIncreasing(tags) by {
      forall i, j | 0 <= i < j < |tags|
        ensures !Less(tags[j], tags[i])
      {
        assert !Less(sorted[j], sorted[i]);
      }
    }
    assert Unique(tags) by {
      forall i, j | 0 <= i < |tags| && 0 <= j < |tags| && i != j
        ensures !SameKey(tags[i], tags[j])
      {
        assert !SameKey(sorted[i], sorted[j]);
      }
    }
  }

  // ---------------------------------------------------------------------------
  // The rewrite phase

  /** What a rewriter writes in place of an identifier: the record's new name
      when the lookup succeeds, the identifier itself otherwise. */
  function Translate(tags: seq<Tag>, tagType: TagType, name: string): (r: string)
    ensures !Present(tags, tagType, name) ==> r == name
    ensures Present(tags, tagType, name) ==>
      exists i :: 0 <= i < |tags| && Matches(tags[i], tagType, name) && r == tags[i].newName
  {
    match TagGet(tags, tagType, name)
    case Found(t) => t.newName
    case NotFound => name
  }

  /** On a unique registry every record's identifier is rewritten to that
      record's own new name. */
  lemma TranslateUsesOwnName(tags: seq<Tag>, i: int)
    requires Unique(tags)
    requires 0 <= i < |tags|
    ensures Translate(tags, tags[i].tagType, tags[i].name) == tags[i].newName
  {
    TagGetFindsEachRecord(tags, i);
  }
}
