/** The tag registry of html-cruncher: an ordered sequence of tag records, each
    keyed by its kind and its original name, with lookup and create-or-update.
    The process-wide slice and its mutex become a value passed in and returned;
    each operation is one atomic step on that value. */
module Registry {

  /** The kind of an identifier. `Name` exists in the source but no producer
      ever passes it. */
  datatype TagType = Id | Class | Name

  /** One registry record. */
  datatype Tag = Tag(
    tagType: TagType,
    name: string,
    newName: string,
    fileNameFirstFound: string,
    weight: int,
    onlyExistInOneFile: bool)

  /** The result of a lookup: the record, or the "not found" error. */
  datatype Lookup = Found(tag: Tag) | NotFound

  predicate Matches(t: Tag, tagType: TagType, name: string) {
    t.tagType == tagType && t.name == name
  }

  /** Tags with the same kind and name are the same key. */
  predicate SameKey(a: Tag, b: Tag) {
    a.tagType == b.tagType && a.name == b.name
  }

  /** The identity invariant: at most one record per (kind, name). */
  predicate Unique(tags: seq<Tag>) {
    forall i, j :: 0 <= i < |tags| && 0 <= j < |tags| && i != j ==> !SameKey(tags[i], tags[j])
  }

  /** Some record carries the key. */
  predicate Present(tags: seq<Tag>, tagType: TagType, name: string) {
    exists i :: 0 <= i < |tags| && Matches(tags[i], tagType, name)
  }

  /** Linear scan from position `from`: the first matching position, or -1. */
  function IndexFrom(tags: seq<Tag>, tagType: TagType, name: string, from: nat): (r: int)
    requires from <= |tags|
    ensures r == -1 || from <= r < |tags|
    ensures r == -1 <==> forall j :: from <= j < |tags| ==> !Matches(tags[j], tagType, name)
    ensures r != -1 ==> Matches(tags[r], tagType, name)
    ensures r != -1 ==> forall j :: from <= j < r ==> !Matches(tags[j], tagType, name)
    decreases |tags| - from
  {
    if from == |tags| then -1
    else if Matches(tags[from], tagType, name) then from
    else IndexFrom(tags, tagType, name, from + 1)
  }

  /** The position of the first record with the key, or -1 when there is none. */
  function GetIndexByName(tags: seq<Tag>, tagType: TagType, name: string): (r: int)
    ensures -1 <= r < |tags|
    ensures r == -1 <==> !Present(tags, tagType, name)
    ensures r != -1 ==> Matches(tags[r], tagType, name)
    ensures r != -1 ==> forall j :: 0 <= j < r ==> !Matches(tags[j], tagType, name)
  {
    IndexFrom(tags, tagType, name, 0)
  }

  /** Under the identity invariant the index found is the only one with the key. */
  lemma IndexIsOnlyMatch(tags: seq<Tag>, tagType: TagType, name: string, i: int)
    requires Unique(tags)
    requires 0 <= i < |tags| && Matches(tags[i], tagType, name)
    ensures GetIndexByName(tags, tagType, name) == i
  {
  }

  /** Reads one record; the registry is a value, so it cannot change. */
  function TagGet(tags: seq<Tag>, tagType: TagType, name: string): (r: Lookup)
    ensures r.NotFound? <==> !Present(tags, tagType, name)
    ensures r.Found? ==> r.tag in tags && Matches(r.tag, tagType, name)
  {
    var nr := GetIndexByName(tags, tagType, name);
    if nr < 0 then NotFound else Found(tags[nr])
  }

  /** Under the identity invariant, looking up any record's key yields that record. */
  lemma TagGetFindsEachRecord(tags: seq<Tag>, i: int)
    requires Unique(tags)
    requires 0 <= i < |tags|
    ensures TagGet(tags, tags[i].tagType, tags[i].name) == Found(tags[i])
  {
    IndexIsOnlyMatch(tags, tags[i].tagType, tags[i].name, i);
  }

  /** The record a creating add appends. */
  function NewTag(tagType: TagType, fileName: string, name: string): Tag {
    Tag(tagType, name, "", fileName, |name|, true)
  }

  /** One more occurrence of an existing record, seen in file `fileName`. */
  function Bump(t: Tag, fileName: string): Tag {
    t.(weight := t.weight + |t.name|,
       onlyExistInOneFile := t.onlyExistInOneFile && t.fileNameFirstFound == fileName)
  }

  /** Create-or-update. A missing key is appended unless `onlyIfExists`; an
      existing key gains `|name|` of weight whatever `onlyIfExists` is, and
      loses its single-file mark when seen from another file. */
  function TagAdd(tags: seq<Tag>, tagType: TagType, fileName: string, name: string,
                  onlyIfExists: bool): (r: seq<Tag>)
    ensures Unique(tags) ==> Unique(r)
    // a missing key
    ensures !Present(tags, tagType, name) && onlyIfExists ==> r == tags
    ensures !Present(tags, tagType, name) && !onlyIfExists ==>
      |r| == |tags| + 1 && r[..|tags|] == tags &&
      var t := r[|tags|];
      Matches(t, tagType, name) && t.weight == |name| && t.fileNameFirstFound == fileName &&
      t.onlyExistInOneFile && t.newName == ""
    // an existing key
    ensures Present(tags, tagType, name) ==>
      |r| == |tags| &&
      var nr := GetIndexByName(tags, tagType, name);
      (forall j :: 0 <= j < |tags| && j != nr ==> r[j] == tags[j]) &&
      r[nr].weight == tags[nr].weight + |name| &&
      (r[nr].onlyExistInOneFile <==>
         tags[nr].onlyExistInOneFile && fileName == tags[nr].fileNameFirstFound) &&
      r[nr] == tags[nr].(weight := r[nr].weight, onlyExistInOneFile := r[nr].onlyExistInOneFile)
    // the single-file mark is never set back, and no existing record moves
    ensures |tags| <= |r| && forall j :: 0 <= j < |tags| ==>
      SameKey(r[j], tags[j]) && (r[j].onlyExistInOneFile ==> tags[j].onlyExistInOneFile)
  {
    var nr := GetIndexByName(tags, tagType, name);
    if nr == -1 then
      if !onlyIfExists then tags + [NewTag(tagType, fileName, name)] else tags
    else
      tags[nr := Bump(tags[nr], fileName)]
  }

  /** When the key already exists, the `onlyIfExists` flag makes no difference. */
  lemma TagAddIgnoresFlagWhenPresent(tags: seq<Tag>, tagType: TagType, fileName: string,
                                     name: string)
    requires Present(tags, tagType, name)
    ensures TagAdd(tags, tagType, fileName, name, true) == TagAdd(tags, tagType, fileName, name, false)
  {
  }

  /** Removing one record keeps the identity invariant. */
  lemma UniqueRemove(s: seq<Tag>, p: int)
    requires Unique(s)
    requires 0 <= p < |s|
    ensures Unique(s[..p] + s[p + 1..])
  {
    var s' := s[..p] + s[p + 1..];
    forall i, j | 0 <= i < |s'| && 0 <= j < |s'| && i != j
      ensures !SameKey(s'[i], s'[j])
    {
      var i' := if i < p then i else i + 1;
      var j' := if j < p then j else j + 1;
      assert s'[i] == s[i'] && s'[j] == s[j'];
    }
  }

  /** Appending a record whose key is new keeps the identity invariant. */
  lemma UniqueAppend(s: seq<Tag>, x: Tag)
    requires Unique(s)
    requires forall i :: 0 <= i < |s| ==> !SameKey(s[i], x)
    ensures Unique(s + [x])
  {
  }

  /** No record left after removing position `p` shares its key. */
  lemma RemovedKeyIsGone(s: seq<Tag>, p: int, rest: seq<Tag>)
    requires Unique(s)
    requires 0 <= p < |s|
    requires multiset(s[..p] + s[p + 1..]) == multiset(rest)
    ensures forall i :: 0 <= i < |rest| ==> !SameKey(rest[i], s[p])
  {
    var s' := s[..p] + s[p + 1..];
    forall i | 0 <= i < |rest|
      ensures !SameKey(rest[i], s[p])
    {
      assert rest[i] in multiset(s');
      assert rest[i] in s';
      var q :| 0 <= q < |s'| && s'[q] == rest[i];
      var q' := if q < p then q else q + 1;
      assert s[q'] == rest[i];
    }
  }

  /** Taking out the element at `p` takes one copy of it out of the multiset. */
  lemma MultisetRemove<T>(s: seq<T>, p: int)
    requires 0 <= p < |s|
    ensures multiset(s[..p] + s[p + 1..]) == multiset(s) - multiset{s[p]}
  {
    assert s == s[..p] + [s[p]] + s[p + 1..];
  }

  /** Reordering the records keeps the identity invariant. */
  lemma {:induction false} UniquePermutation(s: seq<Tag>, r: seq<Tag>)
    requires multiset(s) == multiset(r)
    requires Unique(s)
    ensures Unique(r)
    decreases |r|
  {
    if |r| > 0 {
      var x := r[|r| - 1];
      var r' := r[..|r| - 1];
      assert r == r' + [x];
      assert multiset(r') == multiset(r) - multiset{x};
      assert x in multiset(s);
      var p :| 0 <= p < |s| && s[p] == x;
      var s' := s[..p] + s[p + 1..];
      MultisetRemove(s, p);
      UniqueRemove(s, p);
      UniquePermutation(s', r');
      RemovedKeyIsGone(s, p, r');
      UniqueAppend(r', x);
    }
  }
}
