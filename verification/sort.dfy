/** The weight ordering of html-cruncher: `sort.Sort` under `Less(i, j) =
    Weight[i] > Weight[j]`, so heavier records come first. */
module WeightSort {
  import opened Registry

  /** `tagsArray.Less`. */
  predicate Less(a: Tag, b: Tag) {
    a.weight > b.weight
  }

  /** `Less` is the strict weak order `sort.Sort` needs: irreflexive and
      transitive, and two records are unordered exactly when they weigh the
      same, which is why the order among equal weights is left open. */
  lemma LessIsStrictWeakOrder(a: Tag, b: Tag, c: Tag)
    ensures !Less(a, a)
    ensures Less(a, b) ==> !Less(b, a)
    ensures Less(a, b) && Less(b, c) ==> Less(a, c)
    ensures !Less(a, b) && !Less(b, a) <==> a.weight == b.weight
    ensures !Less(a, b) && !Less(b, c) ==> !Less(a, c)
  {
  }

  /** No record is `Less` than one after it: weights never increase. */
  predicate NonIncreasing(s: seq<Tag>) {
    forall i, j :: 0 <= i < j < |s| ==> !Less(s[j], s[i])
  }

  /** Puts `t` before the first record it is not lighter than. */
  function Insert(t: Tag, s: seq<Tag>): (r: seq<Tag>)
    requires NonIncreasing(s)
    ensures NonIncreasing(r)
    ensures multiset(r) == multiset(s) + multiset{t}
    decreases |s|
  {
    if |s| == 0 then [t]
    else if !Less(s[0], t) then [t] + s
    else
      var rest := Insert(t, s[1..]);
      assert s == [s[0]] + s[1..];
      BoundedHead(s[0], s[1..], t, rest);
      [s[0]] + rest
  }

  /** A record no lighter than everything after it can lead a non-increasing sequence. */
  lemma BoundedHead(h: Tag, tail: seq<Tag>, t: Tag, rest: seq<Tag>)
    requires NonIncreasing([h] + tail)
    requires Less(h, t)
    requires NonIncreasing(rest)
    requires multiset(rest) == multiset(tail) + multiset{t}
    ensures NonIncreasing([h] + rest)
  {
    forall y | y in rest
      ensures !Less(y, h)
    {
      assert y in multiset(rest);
      if y != t {
        assert y in tail;
        var k :| 0 <= k < |tail| && tail[k] == y;
        assert ([h] + tail)[k + 1] == y && ([h] + tail)[0] == h;
      }
    }
    forall i, j | 0 <= i < j < |[h] + rest|
      ensures !Less(([h] + rest)[j], ([h] + rest)[i])
    {
      if i == 0 {
        assert ([h] + rest)[j] == rest[j - 1];
        assert rest[j - 1] in rest;
      } else {
        assert ([h] + rest)[j] == rest[j - 1] && ([h] + rest)[i] == rest[i - 1];
      }
    }
  }

  /** Go's `TagSortByWeight`: a permutation of the registry with weights non-increasing. */
  function SortByWeight(s: seq<Tag>): (r: seq<Tag>)
    ensures NonIncreasing(r)
    ensures multiset(r) == multiset(s)
    decreases |s|
  {
    if |s| == 0 then []
    else
      assert s == [s[0]] + s[1..];
      Insert(s[0], SortByWeight(s[1..]))
  }
}
