/** The common-tag filter of html-cruncher: drop every record still marked as
    seen in one file only, by repeated swap-delete and a rescan from the
    start. */
module CommonFilter {
  import opened Registry

  /** Go's `tagDelete`: move the last record into position `i` and shorten. */
  function Delete(s: seq<Tag>, i: int): (r: seq<Tag>)
    requires 0 <= i < |s|
    ensures |r| == |s| - 1
    ensures multiset(r) == multiset(s) - multiset{s[i]}
    ensures forall j :: 0 <= j < |r| && j != i ==> r[j] == s[j]
  {
    var r := s[i := s[|s| - 1]][..|s| - 1];
    DeleteMultiset(s, i, r);
    r
  }

  lemma DeleteMultiset(s: seq<Tag>, i: int, r: seq<Tag>)
    requires 0 <= i < |s|
    requires r == s[i := s[|s| - 1]][..|s| - 1]
    ensures multiset(r) == multiset(s) - multiset{s[i]}
  {
    var n := |s|;
    if i == n - 1 {
      assert s == r + [s[i]];
    } else {
      DeleteShape(s, i, r);
      SwapOut(s[..i], s[i], s[i + 1..n - 1], s[n - 1]);
    }
  }

  lemma DeleteShape(s: seq<Tag>, i: int, r: seq<Tag>)
    requires 0 <= i < |s| - 1
    requires r == s[i := s[|s| - 1]][..|s| - 1]
    ensures r == s[..i] + [s[|s| - 1]] + s[i + 1..|s| - 1]
    ensures s == s[..i] + [s[i]] + s[i + 1..|s| - 1] + [s[|s| - 1]]
  {
  }

  lemma SwapOut(a: seq<Tag>, x: Tag, b: seq<Tag>, y: Tag)
    ensures multiset(a + [y] + b) == multiset(a + [x] + b + [y]) - multiset{x}
  {
    calc {
      multiset(a + [x] + b + [y]) - multiset{x};
      (multiset(a) + multiset{x} + multiset(b) + multiset{y}) - multiset{x};
      multiset(a) + multiset{y} + multiset(b);
      multiset(a + [y] + b);
    }
  }

  /** The first record from `from` on still marked single-file, or -1. */
  function FirstSingleFrom(s: seq<Tag>, from: nat): (r: int)
    requires from <= |s|
    ensures r == -1 || from <= r < |s|
    ensures r == -1 <==> forall j :: from <= j < |s| ==> !s[j].onlyExistInOneFile
    ensures r != -1 ==> s[r].onlyExistInOneFile
    ensures r != -1 ==> forall j :: from <= j < r ==> !s[j].onlyExistInOneFile
    decreases |s| - from
  {
    if from == |s| then -1
    else if s[from].onlyExistInOneFile then from
    else FirstSingleFrom(s, from + 1)
  }

  /** Go's `TagDropNoCommon`: find the first single-file record, delete it and
      start over; stop when none is left. Each round removes one record. */
  function DropNoCommon(tags: seq<Tag>): (r: seq<Tag>)
    ensures forall t :: t in r ==> !t.onlyExistInOneFile
    ensures forall x :: multiset(r)[x] == if x.onlyExistInOneFile then 0 else multiset(tags)[x]
    ensures Unique(tags) ==> Unique(r)
    decreases |tags|
  {
    var nr := FirstSingleFrom(tags, 0);
    if nr == -1 then
      assert forall x :: x in tags ==> !x.onlyExistInOneFile;
      tags
    else
      var d := Delete(tags, nr);
      DeleteSingle(tags, nr);
      DropNoCommon(d)
  }

  /** Deleting a single-file record changes neither which common records
      there are nor the identity invariant. */
  lemma DeleteSingle(tags: seq<Tag>, nr: int)
    requires 0 <= nr < |tags| && tags[nr].onlyExistInOneFile
    ensures forall x: Tag :: !x.onlyExistInOneFile ==> multiset(Delete(tags, nr))[x] == multiset(tags)[x]
    ensures Unique(tags) ==> Unique(Delete(tags, nr))
  {
    var d := Delete(tags, nr);
    if Unique(tags) {
      MultisetRemove(tags, nr);
      UniqueRemove(tags, nr);
      UniquePermutation(tags[..nr] + tags[nr + 1..], d);
    }
  }

  /** Removing the single-file records a second time removes nothing. */
  lemma DropNoCommonIdempotent(tags: seq<Tag>)
    ensures DropNoCommon(DropNoCommon(tags)) == DropNoCommon(tags)
  {
  }

  /** The same selection made by one in-order pass. */
  function Common(s: seq<Tag>): (r: seq<Tag>)
    ensures forall t :: t in r ==> t in s && !t.onlyExistInOneFile
    decreases |s|
  {
    if |s| == 0 then []
    else Common(s[..|s| - 1]) + (if s[|s| - 1].onlyExistInOneFile then [] else [s[|s| - 1]])
  }

  lemma {:induction false} CommonCount(s: seq<Tag>, x: Tag)
    ensures multiset(Common(s))[x] == if x.onlyExistInOneFile then 0 else multiset(s)[x]
    decreases |s|
  {
    if |s| > 0 {
      var init := s[..|s| - 1];
      assert s == init + [s[|s| - 1]];
      CommonCount(init, x);
    }
  }

  /** The swap-delete loop keeps exactly the records a one-pass filter keeps,
      up to order. */
  lemma DropNoCommonIsFilter(tags: seq<Tag>)
    ensures multiset(DropNoCommon(tags)) == multiset(Common(tags))
    ensures |DropNoCommon(tags)| == |Common(tags)|
  {
    forall x
      ensures multiset(DropNoCommon(tags))[x] == multiset(Common(tags))[x]
    {
      CommonCount(tags, x);
    }
    assert multiset(DropNoCommon(tags)) == multiset(Common(tags));
    assert |multiset(DropNoCommon(tags))| == |multiset(Common(tags))|;
  }
}
