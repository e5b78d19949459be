/** The short-name generator of html-cruncher: a counter machine over
    `charsPos` that hands each tag, in registry order, the next name of the
    sequence a..z, aa..a9, ba..b9, ..., za..z9, and then crashes on an index
    out of range. */
module ShortNames {
  import opened Wrappers
  import opened Registry

  const NewNameFirstChars: string := "abcdefghijklmnopqrstuvwxyz"
  const NewNameOtherChars: string := NewNameFirstChars + "0123456789"

  /** How many names the machine hands out before it reads past
      `NewNameOtherChars`: 26 one-letter names and 26 * 36 two-letter ones. */
  const MaxNames: nat := 962

  lemma AlphabetLayout()
    ensures |NewNameFirstChars| == 26 && |NewNameOtherChars| == 36
    ensures forall i :: 0 <= i < 36 ==>
      NewNameOtherChars[i] as int == if i < 26 then 'a' as int + i else '0' as int + i - 26
    ensures forall i :: 0 <= i < 26 ==> NewNameFirstChars[i] == NewNameOtherChars[i]
  {
  }

  // ---------------------------------------------------------------------------
  // The counter machine

  /** The loop state: the current name position and one counter per position. */
  datatype Counter = Counter(namePos: nat, charsPos: seq<int>)

  /** The machine never indexes `charsPos` past its end: `namePos` is in range. */
  predicate Valid(c: Counter) {
    c.namePos < |c.charsPos|
  }

  /** The state before the first tag: ten zero counters. */
  function Initial(): (c: Counter)
    ensures Valid(c)
  {
    Counter(0, seq(10, _ => 0))
  }

  /** Reads `NewNameOtherChars` at every position of `ps`, or fails (a Go
      index panic) when some position is out of range. */
  function Spell(ps: seq<int>): (r: Option<string>)
    ensures r.Some? <==> forall i :: 0 <= i < |ps| ==> 0 <= ps[i] < |NewNameOtherChars|
    ensures r.Some? ==>
      |r.value| == |ps| && forall i :: 0 <= i < |ps| ==> r.value[i] == NewNameOtherChars[ps[i]]
  {
    if |ps| == 0 then Some([])
    else
      var last := ps[|ps| - 1];
      match Spell(ps[..|ps| - 1])
      case None => None
      case Some(s) =>
        if 0 <= last < |NewNameOtherChars| then Some(s + [NewNameOtherChars[last]]) else None
  }

  /** The name one tag receives from state `c`, given the tag's current
      `NewName`. At position 0 the name is overwritten with one letter; at a
      later position the fill loop and the final character are appended to it.
      None is the index panic. */
  function Emit(c: Counter, current: string): (r: Option<string>)
    requires Valid(c)
    ensures c.namePos == 0 ==>
      (r.Some? <==> 0 <= c.charsPos[0] < |NewNameFirstChars|) &&
      (r.Some? ==> r.value == [NewNameFirstChars[c.charsPos[0]]])
    ensures c.namePos > 0 ==>
      (r.Some? <==> forall i :: 0 <= i <= c.namePos ==> 0 <= c.charsPos[i] < |NewNameOtherChars|) &&
      (r.Some? ==>
         && |r.value| == |current| + c.namePos + 1
         && r.value[..|current|] == current
         && forall i :: 0 <= i <= c.namePos ==> r.value[|current| + i] == NewNameOtherChars[c.charsPos[i]])
  {
    if c.namePos == 0 then
      var p := c.charsPos[0];
      if 0 <= p < |NewNameFirstChars| then Some([NewNameFirstChars[p]]) else None
    else
      match Spell(c.charsPos[..c.namePos + 1])
      case None => None
      case Some(s) => Some(current + s)
  }

  /** Appends a zero counter when `namePos` has reached the end of `charsPos`. */
  function Grow(charsPos: seq<int>, namePos: nat): (r: seq<int>)
    requires namePos <= |charsPos|
    ensures namePos < |r| && |charsPos| <= |r| && r[..|charsPos|] == charsPos
  {
    if namePos >= |charsPos| then charsPos + [0] else charsPos
  }

  /** The counter update after one name: advance the last position and carry
      into the one before it when it wraps. */
  function Step(c: Counter): (r: Counter)
    requires Valid(c)
    ensures Valid(r)
    ensures c.namePos <= r.namePos <= c.namePos + 1
    ensures |c.charsPos| <= |r.charsPos|
  {
    var np := c.namePos;
    if np == 0 then
      var cp := c.charsPos[0 := c.charsPos[0] + 1];
      if cp[0] == |NewNameFirstChars| then
        Counter(1, Grow(cp[0 := 0], 1))
      else
        Counter(0, cp)
    else
      var cp := c.charsPos[np := c.charsPos[np] + 1];
      if cp[np] == |NewNameOtherChars| then
        var last := if np == 1 then |NewNameFirstChars| - 1 else |NewNameOtherChars| - 1;
        var np' := if cp[np - 1] == last then np + 1 else np;
        var cp' := if cp[np - 1] == last then cp else cp[np - 1 := cp[np - 1] + 1];
        Counter(np', Grow(cp', np')[np' := 0])
      else
        Counter(np, cp)
  }

  // ---------------------------------------------------------------------------
  // The closed form

  /** The machine's state before tag `k`. */
  function CounterAt(k: nat): (c: Counter)
    requires k <= MaxNames
    ensures Valid(c)
  {
    var zeros: seq<int> := seq(10, _ => 0);
    if k < 26 then Counter(0, zeros[0 := k])
    else if k < MaxNames then Counter(1, zeros[0 := (k - 26) / 36][1 := (k - 26) % 36])
    else Counter(2, zeros[0 := 25][1 := 36])
  }

  /** The `k`-th name of the sequence. */
  function ShortName(k: nat): (r: string)
    requires k < MaxNames
    ensures |r| == (if k < 26 then 1 else 2)
    ensures r[0] in NewNameFirstChars
  {
    if k < 26 then [NewNameFirstChars[k]]
    else [NewNameFirstChars[(k - 26) / 36], NewNameOtherChars[(k - 26) % 36]]
  }

  lemma DivMod36(n: int, q: int, m: int)
    requires n == 36 * q + m && 0 <= m < 36
    ensures n / 36 == q && n % 36 == m
  {
  }

  lemma {:induction false} InitialIsCounterAtZero()
    ensures Initial() == CounterAt(0)
  {
    assert Initial().charsPos == seq(10, _ => 0)[0 := 0];
  }

  lemma FirstIsOther(i: int)
    requires 0 <= i < 26
    ensures NewNameFirstChars[i] == NewNameOtherChars[i]
  {
    AlphabetLayout();
  }

  /** One step of the machine moves the closed form from `k` to `k + 1`. */
  lemma StepFollowsClosedForm(k: nat)
    requires k < MaxNames
    ensures Step(CounterAt(k)) == CounterAt(k + 1)
  {
    if k < 26 {
      StepOnLetters(k);
    } else {
      var q := (k - 26) / 36;
      var m := (k - 26) % 36;
      if m < 35 {
        StepWithinPairs(k, q, m);
      } else if q < 25 {
        StepCarry(k, q);
      } else {
        StepLast(k);
      }
    }
  }

  lemma StepOnLetters(k: nat)
    requires k < 26
    ensures Step(CounterAt(k)) == CounterAt(k + 1)
  {
    if k == 25 {
      StepToPairs();
    } else {
      var zeros: seq<int> := seq(10, _ => 0);
      assert zeros[0 := k][0 := k + 1] == zeros[0 := k + 1];
    }
  }

  lemma StepToPairs()
    ensures Step(CounterAt(25)) == CounterAt(26)
  {
    var zeros: seq<int> := seq(10, _ => 0);
    assert CounterAt(26) == Counter(1, zeros[0 := 0][1 := 0]);
    assert zeros[0 := 0][1 := 0] == zeros;
    assert zeros[0 := 25][0 := 26][0 := 0] == zeros;
  }

  lemma StepWithinPairs(k: nat, q: int, m: int)
    requires 26 <= k < MaxNames
    requires q == (k - 26) / 36 && m == (k - 26) % 36 && m < 35
    ensures Step(CounterAt(k)) == CounterAt(k + 1)
  {
    var zeros: seq<int> := seq(10, _ => 0);
    DivMod36(k + 1 - 26, q, m + 1);
    assert CounterAt(k + 1) == Counter(1, zeros[0 := q][1 := m + 1]);
    assert zeros[0 := q][1 := m][1 := m + 1] == zeros[0 := q][1 := m + 1];
  }

  lemma StepCarry(k: nat, q: int)
    requires 26 <= k < MaxNames
    requires k - 26 == 36 * q + 35 && 0 <= q < 25
    ensures Step(CounterAt(k)) == CounterAt(k + 1)
  {
    var zeros: seq<int> := seq(10, _ => 0);
    DivMod36(k - 26, q, 35);
    DivMod36(k + 1 - 26, q + 1, 0);
    var cs := zeros[0 := q][1 := 35];
    assert CounterAt(k) == Counter(1, cs);
    assert CounterAt(k + 1) == Counter(1, zeros[0 := q + 1][1 := 0]);
    CarryShape(cs, q);
    assert cs[0 := q + 1][1 := 0] == zeros[0 := q + 1][1 := 0];
  }

  /** The second position wraps and carries into the first. */
  lemma CarryShape(cs: seq<int>, q: int)
    requires |cs| == 10 && cs[0] == q && cs[1] == 35 && 0 <= q < 25
    ensures Step(Counter(1, cs)) == Counter(1, cs[0 := q + 1][1 := 0])
  {
    var cp := cs[1 := 36];
    assert cp[0 := q + 1][1 := 0] == cs[0 := q + 1][1 := 0];
  }

  lemma StepLast(k: nat)
    requires 26 <= k < MaxNames
    requires (k - 26) / 36 == 25 && (k - 26) % 36 == 35
    ensures Step(CounterAt(k)) == CounterAt(k + 1)
  {
    var zeros: seq<int> := seq(10, _ => 0);
    assert k + 1 == MaxNames;
    assert zeros[0 := 25][1 := 35][1 := 36][2 := 0] == zeros[0 := 25][1 := 36];
  }

  /** Before tag `k < MaxNames` the machine emits the `k`-th name (appended to
      the tag's current `NewName` once names have two letters). */
  lemma EmitFollowsClosedForm(k: nat, current: string)
    requires k < MaxNames
    ensures Emit(CounterAt(k), current) == Some(if k < 26 then ShortName(k) else current + ShortName(k))
  {
    if 26 <= k {
      var q := (k - 26) / 36;
      var m := (k - 26) % 36;
      FirstIsOther(q);
      var c := CounterAt(k);
      assert c.charsPos[..2] == [q, m];
      var sp := Spell([q, m]);
      assert sp.Some? && sp.value == [NewNameOtherChars[q], NewNameOtherChars[m]];
    }
  }

  /** Before tag number `MaxNames` the machine reads `NewNameOtherChars[36]`. */
  lemma EmitPanicsAtLimit(current: string)
    ensures Emit(CounterAt(MaxNames), current) == None
  {
    AlphabetLayout();
    assert CounterAt(MaxNames).charsPos[1] == 36;
  }

  // ---------------------------------------------------------------------------
  // The names as a sequence: inverse, distinctness, order

  /** Position of a character in `NewNameOtherChars`, or -1. */
  function Rank(ch: char): (r: int)
    ensures -1 <= r < 36
    ensures r >= 0 ==> NewNameOtherChars[r] == ch
    ensures r == -1 ==> ch !in NewNameOtherChars
  {
    AlphabetLayout();
    if 'a' <= ch <= 'z' then ch as int - 'a' as int
    else if '0' <= ch <= '9' then 26 + ch as int - '0' as int
    else -1
  }

  lemma RankOfOtherChar(i: int)
    requires 0 <= i < 36
    ensures Rank(NewNameOtherChars[i]) == i
  {
    AlphabetLayout();
  }

  /** A one-letter name, or a letter followed by a letter or digit. */
  predicate IsShortName(s: string) {
    && (|s| == 1 || |s| == 2)
    && 0 <= Rank(s[0]) < 26
    && (|s| == 2 ==> 0 <= Rank(s[1]))
  }

  /** The position of a name in the sequence; None for anything else. */
  function ParseShortName(s: string): (r: Option<nat>)
    ensures r.Some? <==> IsShortName(s)
    ensures r.Some? ==> r.value < MaxNames
  {
    if !IsShortName(s) then None
    else if |s| == 1 then Some(Rank(s[0]))
    else Some(26 + 36 * Rank(s[0]) + Rank(s[1]))
  }

  /** Every name of the sequence parses back to its own position. */
  lemma ParseShortNameInverse(k: nat)
    requires k < MaxNames
    ensures ParseShortName(ShortName(k)) == Some(k)
  {
    if k < 26 {
      ParseLetter(k);
    } else {
      ParsePair(k);
    }
  }

  lemma ParseLetter(k: nat)
    requires k < 26
    ensures ParseShortName(ShortName(k)) == Some(k)
  {
    var s := ShortName(k);
    FirstIsOther(k);
    RankOfOtherChar(k);
    assert Rank(s[0]) == k;
  }

  lemma ParsePair(k: nat)
    requires 26 <= k < MaxNames
    ensures ParseShortName(ShortName(k)) == Some(k)
  {
    var s := ShortName(k);
    var q := (k - 26) / 36;
    var m := (k - 26) % 36;
    assert k == 26 + 36 * q + m;
    FirstIsOther(q);
    RankOfOtherChar(q);
    RankOfOtherChar(m);
    assert Rank(s[0]) == q && Rank(s[1]) == m;
  }

  /** The sequence skips nothing: every short name occurs in it. */
  lemma ShortNameCoversEveryName(s: string)
    requires IsShortName(s)
    ensures ShortName(ParseShortName(s).value) == s
  {
    if |s| == 1 {
      CoversLetter(s);
    } else {
      CoversPair(s);
    }
  }

  lemma CoversLetter(s: string)
    requires IsShortName(s) && |s| == 1
    ensures ShortName(ParseShortName(s).value) == s
  {
    var q := Rank(s[0]);
    FirstIsOther(q);
    assert ParseShortName(s).value == q;
    assert ShortName(q) == [NewNameFirstChars[q]];
  }

  lemma CoversPair(s: string)
    requires IsShortName(s) && |s| == 2
    ensures ShortName(ParseShortName(s).value) == s
  {
    var q, m := Rank(s[0]), Rank(s[1]);
    var k := 26 + 36 * q + m;
    assert ParseShortName(s).value == k;
    FirstIsOther(q);
    DivMod36(k - 26, q, m);
    assert ShortName(k) == [NewNameFirstChars[q], NewNameOtherChars[m]];
  }

  /** No name is handed out twice. */
  lemma ShortNamesDistinct(j: nat, k: nat)
    requires j < MaxNames && k < MaxNames && j != k
    ensures ShortName(j) != ShortName(k)
  {
    ParseShortNameInverse(j);
    ParseShortNameInverse(k);
  }

  /** Same-length names compared character by character by alphabet position. */
  predicate AlphabetLess(a: string, b: string)
    requires |a| == |b|
  {
    |a| > 0 && (Rank(a[0]) < Rank(b[0]) || (a[0] == b[0] && AlphabetLess(a[1..], b[1..])))
  }

  /** Shorter first, then alphabet order. */
  predicate NameLess(a: string, b: string) {
    |a| < |b| || (|a| == |b| && AlphabetLess(a, b))
  }

  /** The names strictly increase along the sequence. */
  lemma ShortNamesIncrease(j: nat, k: nat)
    requires j < k < MaxNames
    ensures NameLess(ShortName(j), ShortName(k))
  {
    var a, b := ShortName(j), ShortName(k);
    if k < 26 {
      FirstIsOther(j);
      FirstIsOther(k);
      RankOfOtherChar(j);
      RankOfOtherChar(k);
    } else if 26 <= j {
      var qj, mj := (j - 26) / 36, (j - 26) % 36;
      var qk, mk := (k - 26) / 36, (k - 26) % 36;
      FirstIsOther(qj);
      FirstIsOther(qk);
      RankOfOtherChar(qj);
      RankOfOtherChar(qk);
      RankOfOtherChar(mj);
      RankOfOtherChar(mk);
      assert qj <= qk;
      if qj == qk {
        assert mj < mk;
        assert a[0] == b[0];
        assert AlphabetLess(a[1..], b[1..]);
      }
    }
  }

  // ---------------------------------------------------------------------------
  // The naming loop

  /** What tag number `k` holds after naming. */
  function AssignedName(t: Tag, k: nat): Tag
    requires k < MaxNames
  {
    t.(newName := if k < 26 then ShortName(k) else t.newName + ShortName(k))
  }

  /** The outcome of naming: the renamed registry, or the index panic. */
  datatype Naming = Named(tags: seq<Tag>) | IndexPanic

  /** The machine's name for tag number `k`, or the panic at `MaxNames`. */
  lemma EmitIsAssigned(k: nat, t: Tag)
    requires k <= MaxNames
    ensures k < MaxNames ==> Emit(CounterAt(k), t.newName) == Some(AssignedName(t, k).newName)
    ensures k == MaxNames ==> Emit(CounterAt(k), t.newName) == None
  {
    if k < MaxNames {
      EmitFollowsClosedForm(k, t.newName);
    } else {
      EmitPanicsAtLimit(t.newName);
    }
  }

  /** On tags without a name yet, the assigned name is the sequence's own. */
  lemma AssignedToUnnamed(tags: seq<Tag>, named: seq<Tag>)
    requires |named| == |tags| <= MaxNames
    requires forall k :: 0 <= k < |tags| ==> named[k] == AssignedName(tags[k], k)
    requires forall k :: 0 <= k < |tags| ==> tags[k].newName == ""
    ensures forall k :: 0 <= k < |tags| ==> named[k].newName == ShortName(k)
  {
    forall k | 0 <= k < |tags|
      ensures named[k].newName == ShortName(k)
    {
      assert "" + ShortName(k) == ShortName(k);
    }
  }

  /** Runs the counter machine over the registry in order, giving every tag the
      next name; panics on tag number `MaxNames`. */
  method GiveNewNames(tags: seq<Tag>) returns (r: Naming)
    ensures r.IndexPanic? <==> |tags| > MaxNames
    ensures r.Named? ==>
      |r.tags| == |tags| && forall k :: 0 <= k < |tags| ==> r.tags[k] == AssignedName(tags[k], k)
    ensures r.Named? && (forall k :: 0 <= k < |tags| ==> tags[k].newName == "") ==>
      forall k :: 0 <= k < |tags| ==> r.tags[k].newName == ShortName(k)
  {
    var out := tags;
    var c := Initial();
    InitialIsCounterAtZero();
    var nr := 0;
    while nr < |out|
      invariant |out| == |tags|
      invariant 0 <= nr <= |tags| && nr <= MaxNames
      invariant c == CounterAt(nr)
      invariant forall k :: 0 <= k < nr ==> out[k] == AssignedName(tags[k], k)
      invariant forall k :: nr <= k < |out| ==> out[k] == tags[k]
    {
      var e := Emit(c, out[nr].newName);
      EmitIsAssigned(nr, tags[nr]);
      if e.None? {
        return IndexPanic;
      }
      out := out[nr := out[nr].(newName := e.value)];
      StepFollowsClosedForm(nr);
      c := Step(c);
      nr := nr + 1;
    }
    if forall k :: 0 <= k < |tags| ==> tags[k].newName == "" {
      AssignedToUnnamed(tags, out);
    }
    return Named(out);
  }
}
