/** Phase 1 of html-cruncher as a sequential fold of `TagAdd` over the
    occurrences the producers report, with a per-key account of what the fold
    leaves in each record. */
module Collection {
  import opened Registry

  /** One `TagAdd` call: the identifier found, the file it was found in, and
      whether it may only update an existing record. */
  datatype Occurrence = Occurrence(tagType: TagType, fileName: string, name: string, onlyIfExists: bool)

  function AddOne(tags: seq<Tag>, o: Occurrence): seq<Tag> {
    TagAdd(tags, o.tagType, o.fileName, o.name, o.onlyIfExists)
  }

  /** The registry after the calls `occs`, in order. */
  function AddAll(tags: seq<Tag>, occs: seq<Occurrence>): (r: seq<Tag>)
    ensures Unique(tags) ==> Unique(r)
    ensures |tags| <= |r| && forall j :: 0 <= j < |tags| ==> SameKey(r[j], tags[j])
    decreases |occs|
  {
    if |occs| == 0 then tags
    else AddOne(AddAll(tags, occs[..|occs| - 1]), occs[|occs| - 1])
  }

  lemma AddAllSnoc(tags: seq<Tag>, occs: seq<Occurrence>, o: Occurrence)
    ensures AddAll(tags, occs + [o]) == AddOne(AddAll(tags, occs), o)
  {
    assert (occs + [o])[..|occs|] == occs;
  }

  // ---------------------------------------------------------------------------
  // Per-key account of a run of calls

  /** The call is aimed at the key. This is the key test of `Matches`, asked
      of a call rather than of a record, since a call is not a `Tag`. */
  predicate Hits(o: Occurrence, tagType: TagType, name: string) {
    o.tagType == tagType && o.name == name
  }

  /** A call that may create the record for the key. */
  predicate Creates(o: Occurrence, tagType: TagType, name: string) {
    Hits(o, tagType, name) && !o.onlyIfExists
  }

  predicate Created(occs: seq<Occurrence>, tagType: TagType, name: string) {
    exists i :: 0 <= i < |occs| && Creates(occs[i], tagType, name)
  }

  /** The number of calls in `occs` aimed at the key. */
  function CountHits(occs: seq<Occurrence>, tagType: TagType, name: string): nat
    decreases |occs|
  {
    if |occs| == 0 then 0
    else CountHits(occs[..|occs| - 1], tagType, name) + (if Hits(occs[|occs| - 1], tagType, name) then 1 else 0)
  }

  function CreatorFrom(occs: seq<Occurrence>, tagType: TagType, name: string, from: nat): (c: nat)
    requires from <= |occs|
    requires exists i :: from <= i < |occs| && Creates(occs[i], tagType, name)
    ensures from <= c < |occs| && Creates(occs[c], tagType, name)
    ensures forall i :: from <= i < c ==> !Creates(occs[i], tagType, name)
    decreases |occs| - from
  {
    if Creates(occs[from], tagType, name) then from else CreatorFrom(occs, tagType, name, from + 1)
  }

  /** The call that creates the record: the first creating call for the key. */
  function Creator(occs: seq<Occurrence>, tagType: TagType, name: string): (c: nat)
    requires Created(occs, tagType, name)
    ensures c < |occs| && Creates(occs[c], tagType, name)
    ensures forall i :: 0 <= i < c ==> !Creates(occs[i], tagType, name)
  {
    CreatorFrom(occs, tagType, name, 0)
  }

  /** What the record for a key must look like after the calls `occs`, started
      on an empty registry: its weight counts every call aimed at the key from
      its creation on, its first file is the creating call's file, and it is
      single-file exactly when all those calls came from that file. */
  predicate Accounted(t: Tag, occs: seq<Occurrence>) {
    && Created(occs, t.tagType, t.name)
    && var c := Creator(occs, t.tagType, t.name);
    && t.weight == |t.name| * CountHits(occs[c..], t.tagType, t.name)
    && t.fileNameFirstFound == occs[c].fileName
    && (t.onlyExistInOneFile <==>
          forall i :: c <= i < |occs| && Hits(occs[i], t.tagType, t.name) ==> occs[i].fileName == occs[c].fileName)
    && t.newName == ""
  }

  lemma CountHitsSnoc(occs: seq<Occurrence>, o: Occurrence, tagType: TagType, name: string)
    ensures CountHits(occs + [o], tagType, name) == CountHits(occs, tagType, name) + (if Hits(o, tagType, name) then 1 else 0)
  {
    assert (occs + [o])[..|occs|] == occs;
  }

  /** A call appended after the key was created does not change its creator. */
  lemma CreatorSnoc(occs: seq<Occurrence>, o: Occurrence, tagType: TagType, name: string)
    requires Created(occs, tagType, name)
    ensures Created(occs + [o], tagType, name)
    ensures var c := Creator(occs, tagType, name);
      && Creator(occs + [o], tagType, name) == c
      && (occs + [o])[c] == occs[c]
      && (occs + [o])[c..] == occs[c..] + [o]
  {
    var occs' := occs + [o];
    var c := Creator(occs, tagType, name);
    assert Creates(occs'[c], tagType, name);
    var c' := Creator(occs', tagType, name);
    assert forall i :: 0 <= i < |occs| ==> occs'[i] == occs[i];
    assert c' == c;
  }

  /** A call aimed at another key leaves the account of this record as it was. */
  lemma AccountedSnocOther(t: Tag, occs: seq<Occurrence>, o: Occurrence)
    requires Accounted(t, occs)
    requires !Hits(o, t.tagType, t.name)
    ensures Accounted(t, occs + [o])
  {
    var c := Creator(occs, t.tagType, t.name);
    CreatorSnoc(occs, o, t.tagType, t.name);
    CountHitsSnoc(occs[c..], o, t.tagType, t.name);
  }

  /** A call aimed at this record's key, which exists already, bumps it. */
  lemma AccountedSnocHit(t: Tag, occs: seq<Occurrence>, o: Occurrence)
    requires Accounted(t, occs)
    requires Hits(o, t.tagType, t.name)
    ensures Accounted(Bump(t, o.fileName), occs + [o])
  {
    var c := Creator(occs, t.tagType, t.name);
    CreatorSnoc(occs, o, t.tagType, t.name);
    CountHitsSnoc(occs[c..], o, t.tagType, t.name);
    var n := CountHits(occs[c..], t.tagType, t.name);
    Distribute(|t.name|, n, 1);
  }

  /** Weight is a multiple of the name length: `n` hits and `m` more hits
      weigh as much as `n + m` hits. */
  lemma Distribute(len: int, n: int, m: int)
    ensures len * n + len * m == len * (n + m)
  {
  }

  /** A creating call for a key not yet created makes a fresh, accounted record. */
  lemma AccountedSnocCreate(occs: seq<Occurrence>, o: Occurrence)
    requires !Created(occs, o.tagType, o.name)
    requires !o.onlyIfExists
    ensures Accounted(NewTag(o.tagType, o.fileName, o.name), occs + [o])
  {
    var occs' := occs + [o];
    assert Creates(occs'[|occs|], o.tagType, o.name);
    var c' := Creator(occs', o.tagType, o.name);
    assert forall i :: 0 <= i < |occs| ==> occs'[i] == occs[i];
    assert c' == |occs|;
    assert occs'[c'..] == [o];
    assert CountHits([o], o.tagType, o.name) == 1 by {
      assert [o][..0] == [];
    }
  }

  /** Collection started on an empty registry: every record is accounted for
      by the calls, and a key has a record exactly when some call could create
      it. */
  lemma {:induction false} CollectFromEmpty(occs: seq<Occurrence>)
    ensures Unique(AddAll([], occs))
    ensures forall t :: t in AddAll([], occs) ==> Accounted(t, occs)
    ensures forall tagType, name ::
      Present(AddAll([], occs), tagType, name) <==> Created(occs, tagType, name)
    decreases |occs|
  {
    if |occs| > 0 {
      var init := occs[..|occs| - 1];
      var o := occs[|occs| - 1];
      assert occs == init + [o];
      CollectFromEmpty(init);
      var tags := AddAll([], init);
      var r := AddOne(tags, o);
      assert r == AddAll([], occs);
      forall t | t in r
        ensures Accounted(t, occs)
      {
        var j :| 0 <= j < |r| && r[j] == t;
        RecordAccountedAfter(tags, init, o, j);
      }
      forall tagType, name
        ensures Present(r, tagType, name) <==> Created(occs, tagType, name)
      {
        KeyCreatedAfter(tags, init, o, tagType, name);
      }
    }
  }

  /** One more call keeps every record of the registry accounted for. */
  lemma RecordAccountedAfter(tags: seq<Tag>, init: seq<Occurrence>, o: Occurrence, j: int)
    requires Unique(tags)
    requires forall t :: t in tags ==> Accounted(t, init)
    requires Present(tags, o.tagType, o.name) <==> Created(init, o.tagType, o.name)
    requires 0 <= j < |AddOne(tags, o)|
    ensures Accounted(AddOne(tags, o)[j], init + [o])
  {
    var r := AddOne(tags, o);
    if j < |tags| {
      var t0 := tags[j];
      assert t0 in tags;
      if Hits(o, t0.tagType, t0.name) {
        IndexIsOnlyMatch(tags, o.tagType, o.name, j);
        AccountedSnocHit(t0, init, o);
      } else {
        AccountedSnocOther(t0, init, o);
      }
    } else {
      AccountedSnocCreate(init, o);
    }
  }

  /** One more call creates a record exactly for a key it may create and that
      had none. */
  lemma KeyCreatedAfter(tags: seq<Tag>, init: seq<Occurrence>, o: Occurrence,
                        tagType: TagType, name: string)
    requires Present(tags, tagType, name) <==> Created(init, tagType, name)
    ensures Present(AddOne(tags, o), tagType, name) <==> Created(init + [o], tagType, name)
  {
    var r := AddOne(tags, o);
    var occs := init + [o];
    if Created(occs, tagType, name) && !Created(init, tagType, name) {
      assert Creates(o, tagType, name);
      assert Matches(r[|tags|], tagType, name);
    }
    if Present(r, tagType, name) && !Present(tags, tagType, name) {
      assert Creates(occs[|init|], tagType, name);
    }
    if Created(init, tagType, name) {
      var i :| 0 <= i < |init| && Creates(init[i], tagType, name);
      assert occs[i] == init[i];
      var p :| 0 <= p < |tags| && Matches(tags[p], tagType, name);
      assert SameKey(r[p], tags[p]);
    }
  }

  // ---------------------------------------------------------------------------
  // The update-only phase (CSS and JS)

  predicate UpdateOnly(occs: seq<Occurrence>) {
    forall i :: 0 <= i < |occs| ==> occs[i].onlyIfExists
  }

  /** A record after the update-only calls `occs`: every call aimed at its key
      adds the name's length, and any such call from a file other than the
      first one clears the single-file mark. */
  function Absorb(t: Tag, occs: seq<Occurrence>): Tag {
    t.(weight := t.weight + |t.name| * CountHits(occs, t.tagType, t.name),
       onlyExistInOneFile := t.onlyExistInOneFile &&
         forall o :: o in occs && Hits(o, t.tagType, t.name) ==> o.fileName == t.fileNameFirstFound)
  }

  lemma AbsorbSnoc(t: Tag, occs: seq<Occurrence>, o: Occurrence)
    ensures Absorb(t, occs + [o]) ==
      if Hits(o, t.tagType, t.name) then Bump(Absorb(t, occs), o.fileName) else Absorb(t, occs)
  {
    CountHitsSnoc(occs, o, t.tagType, t.name);
    Distribute(|t.name|, CountHits(occs, t.tagType, t.name), 1);
  }

  /** The update-only phase in closed form: the registry keeps its length and
      order, and each record absorbs the calls aimed at its key. */
  lemma {:induction false} UpdatePhase(tags: seq<Tag>, occs: seq<Occurrence>)
    requires Unique(tags)
    requires UpdateOnly(occs)
    ensures |AddAll(tags, occs)| == |tags|
    ensures forall i :: 0 <= i < |tags| ==> AddAll(tags, occs)[i] == Absorb(tags[i], occs)
    decreases |occs|
  {
    if |occs| == 0 {
      forall i | 0 <= i < |tags|
        ensures AddAll(tags, occs)[i] == Absorb(tags[i], occs)
      {
        assert tags[i].(weight := tags[i].weight) == tags[i];
      }
    } else {
      var init := occs[..|occs| - 1];
      var o := occs[|occs| - 1];
      assert occs == init + [o];
      UpdatePhase(tags, init);
      var r := AddAll(tags, init);
      var r' := AddOne(r, o);
      assert r' == AddAll(tags, occs);
      forall i | 0 <= i < |tags|
        ensures r'[i] == Absorb(tags[i], occs)
      {
        AbsorbSnoc(tags[i], init, o);
        if Hits(o, tags[i].tagType, tags[i].name) {
          assert Matches(r[i], o.tagType, o.name);
          IndexIsOnlyMatch(r, o.tagType, o.name, i);
        } else if Present(r, o.tagType, o.name) {
          var nr := GetIndexByName(r, o.tagType, o.name);
          assert nr != i;
        }
      }
    }
  }

  lemma {:induction false} CountHitsConcat(a: seq<Occurrence>, b: seq<Occurrence>, tagType: TagType, name: string)
    ensures CountHits(a + b, tagType, name) == CountHits(a, tagType, name) + CountHits(b, tagType, name)
    decreases |b|
  {
    if |b| > 0 {
      var b' := b[..|b| - 1];
      assert a + b == (a + b') + [b[|b| - 1]];
      assert b == b' + [b[|b| - 1]];
      CountHitsConcat(a, b', tagType, name);
      CountHitsSnoc(a + b', b[|b| - 1], tagType, name);
      CountHitsSnoc(b', b[|b| - 1], tagType, name);
    } else {
      assert a + b == a;
    }
  }

  /** Taking one call out of a run lowers the count by that call's hit. */
  lemma CountHitsRemove(b: seq<Occurrence>, p: int, tagType: TagType, name: string)
    requires 0 <= p < |b|
    ensures CountHits(b, tagType, name) ==
      CountHits(b[..p] + b[p + 1..], tagType, name) + (if Hits(b[p], tagType, name) then 1 else 0)
  {
    assert b == (b[..p] + [b[p]]) + b[p + 1..];
    CountHitsConcat(b[..p], b[p + 1..], tagType, name);
    CountHitsConcat(b[..p] + [b[p]], b[p + 1..], tagType, name);
    CountHitsSnoc(b[..p], b[p], tagType, name);
  }

  /** Counting the calls aimed at a key does not depend on their order. */
  lemma {:induction false} CountHitsPermutation(a: seq<Occurrence>, b: seq<Occurrence>, tagType: TagType, name: string)
    requires multiset(a) == multiset(b)
    ensures CountHits(a, tagType, name) == CountHits(b, tagType, name)
    decreases |a|
  {
    if |a| == 0 {
      assert |b| == |multiset(b)| == 0;
    } else {
      var x := a[|a| - 1];
      var a' := a[..|a| - 1];
      assert a == a' + [x];
      assert multiset(a') == multiset(a) - multiset{x};
      assert x in multiset(b);
      var p :| 0 <= p < |b| && b[p] == x;
      MultisetRemove(b, p);
      CountHitsPermutation(a', b[..p] + b[p + 1..], tagType, name);
      CountHitsSnoc(a', x, tagType, name);
      CountHitsRemove(b, p, tagType, name);
    }
  }

  /** The same calls in another order leave a record the same. */
  lemma AbsorbPermutation(t: Tag, a: seq<Occurrence>, b: seq<Occurrence>)
    requires multiset(a) == multiset(b)
    ensures Absorb(t, a) == Absorb(t, b)
  {
    CountHitsPermutation(a, b, t.tagType, t.name);
    assert forall o :: o in a <==> o in multiset(a);
    assert forall o :: o in b <==> o in multiset(b);
  }

  /** The CSS and JS producers run concurrently; their calls only update, so
      any order of the same calls yields the same registry. */
  lemma UpdatePhaseOrderFree(tags: seq<Tag>, a: seq<Occurrence>, b: seq<Occurrence>)
    requires Unique(tags)
    requires UpdateOnly(a) && UpdateOnly(b)
    requires multiset(a) == multiset(b)
    ensures AddAll(tags, a) == AddAll(tags, b)
  {
    UpdatePhase(tags, a);
    UpdatePhase(tags, b);
    forall i | 0 <= i < |tags|
      ensures Absorb(tags[i], a) == Absorb(tags[i], b)
    {
      AbsorbPermutation(tags[i], a, b);
    }
  }

  /** A call on an existing key acts as its update-only version, and no call
      loses a key. */
  lemma AddOnExistingKeyAsUpdate(tags: seq<Tag>, o: Occurrence, tagType: TagType, name: string)
    requires Present(tags, o.tagType, o.name)
    requires Present(tags, tagType, name)
    ensures AddOne(tags, o) == AddOne(tags, o.(onlyIfExists := true))
    ensures Present(AddOne(tags, o), tagType, name)
  {
    TagAddIgnoresFlagWhenPresent(tags, o.tagType, o.fileName, o.name);
    var i :| 0 <= i < |tags| && Matches(tags[i], tagType, name);
    assert Matches(AddOne(tags, o)[i], tagType, name);
  }

  lemma AddAllPair(tags: seq<Tag>, a: Occurrence, b: Occurrence)
    ensures AddAll(tags, [a, b]) == AddOne(AddOne(tags, a), b)
  {
    assert [a, b] == [a] + [b];
    AddAllSnoc(tags, [a], b);
    assert [a] == [] + [a];
    AddAllSnoc(tags, [], a);
  }

  /** Two calls on existing keys act as the same two calls made update-only. */
  lemma AddsOnExistingKeysAsUpdates(tags: seq<Tag>, o1: Occurrence, o2: Occurrence)
    requires Present(tags, o1.tagType, o1.name) && Present(tags, o2.tagType, o2.name)
    ensures AddOne(AddOne(tags, o1), o2) ==
      AddAll(tags, [o1.(onlyIfExists := true), o2.(onlyIfExists := true)])
  {
    AddOnExistingKeyAsUpdate(tags, o1, o2.tagType, o2.name);
    AddOnExistingKeyAsUpdate(AddOne(tags, o1), o2, o2.tagType, o2.name);
    AddAllPair(tags, o1.(onlyIfExists := true), o2.(onlyIfExists := true));
  }

  /** Two calls whose keys both exist already commute, whatever their flags. */
  lemma AddsOnExistingKeysCommute(tags: seq<Tag>, o1: Occurrence, o2: Occurrence)
    requires Unique(tags)
    requires Present(tags, o1.tagType, o1.name) && Present(tags, o2.tagType, o2.name)
    ensures AddOne(AddOne(tags, o1), o2) == AddOne(AddOne(tags, o2), o1)
  {
    AddsOnExistingKeysAsUpdates(tags, o1, o2);
    AddsOnExistingKeysAsUpdates(tags, o2, o1);
    UpdatePairOrderFree(tags, o1.(onlyIfExists := true), o2.(onlyIfExists := true));
  }

  lemma UpdatePairOrderFree(tags: seq<Tag>, u1: Occurrence, u2: Occurrence)
    requires Unique(tags)
    requires u1.onlyIfExists && u2.onlyIfExists
    ensures AddAll(tags, [u1, u2]) == AddAll(tags, [u2, u1])
  {
    assert multiset([u1, u2]) == multiset([u2, u1]);
    UpdatePhaseOrderFree(tags, [u1, u2], [u2, u1]);
  }
}
