# html-cruncher tag registry in Dafny

html-cruncher shortens the `id` and `class` names of a set of HTML, CSS and JS
files. Its core is a tag registry, an ordered list of records keyed by
(kind, name). The HTML loaders declare identifiers in it, and the CSS and JS
loaders add weight to identifiers that already exist. Once collection is
over, the driver can drop every record seen in one file only. It then sorts
the records by weight, heaviest first, and hands out the short names
`a`..`z`, `aa`..`a9`, `ba`..`z9`. In the rewrite phase every loader looks each
identifier up and writes its new name.

This project models that core as pure functions over `seq<Tag>`:

- `tags.dfy`, module `Registry`: the record, lookup and create-or-update.
- `collection.dfy`, module `Collection`: phase 1 as a fold of `TagAdd` over a
  sequence of calls. For each key it accounts for what that fold leaves in
  the key's record.
- `filter.dfy`, module `CommonFilter`: swap-delete, and the restart-from-scratch
  filter that drops single-file records.
- `sort.dfy`, module `WeightSort`: the weight order.
- `naming.dfy`, module `ShortNames`: the `charsPos` counter machine of
  `TagGiveNewNames`, its closed form, and the index panic on the 963rd tag.
- `cruncher.dfy`, module `Cruncher`: the driver's phase sequence and the
  read-only rewrite lookup.
- `wrappers.dfy`, module `Wrappers`: `Option`.

The process-wide `tags` slice and its mutex become a value that each
operation takes and returns. The concurrent loaders of one phase are modelled
as one sequential run of their `TagAdd` calls, in an order that is a
parameter. The HTML order stands for whichever interleaving the loaders
happened to take. This matters because the record's first file is the file of
the first call that creates it, and that race has no fixed winner in the
program.

Two behaviours of the code are worth stating because a reader might expect
otherwise:

- `TagSortByWeight` (tag.go:127-133) calls `sort.Sort`, which promises nothing
  about the order of records with equal weight. The model claims only a
  permutation with non-increasing weights.
- The carry in `TagGiveNewNames` (tag.go:180-198) moves `namePos` to 2 after
  `z9` but leaves `charsPos[1]` at 36. On the 963rd tag the fill loop reads
  `newNameOtherChars[36]` (tag.go:162) and the program panics, so no
  three-letter name is ever made. The model returns `IndexPanic` there.

## Model

| member | source | states |
|---|---|---|
| Registry.GetIndexByName | tag.go:48-55 | The result is -1 exactly when no record has the (kind, name) key. Otherwise it is a matching position, and no earlier position matches. |
| Registry.IndexIsOnlyMatch | tag.go:48-55 | On a registry with unique keys, the scan finds the one record that carries the key. |
| Registry.TagGet | tag.go:58-66 | A lookup fails ("not found") exactly when no record has the key. A successful lookup returns a record of the registry that has the key. |
| Registry.TagGetFindsEachRecord | tag.go:58-66 | On a unique registry, looking up any record's own key returns that record. |
| Registry.TagAdd | tag.go:71-91 | Covers every case. A missing key is ignored when `onlyIfExists`, and otherwise a record is appended with weight `len(name)`, the caller's file, single-file set and no new name. An existing key gains `len(name)` of weight and loses single-file iff the file differs from its first file; nothing else changes. Key uniqueness is preserved, no record moves, and the single-file mark is never set back. |
| Registry.TagAddIgnoresFlagWhenPresent | tag.go:74-88 | When the key exists, `onlyIfExists` makes no difference to the result. |
| Registry.UniquePermutation | tag.go:106 | Any reordering of a unique registry is unique, so swap-delete and sorting cannot create duplicate keys. |
| Collection.AddAll | tag.go:71-91 | A run of `TagAdd` calls keeps key uniqueness and never moves or re-keys an existing record. |
| Collection.CollectFromEmpty | tag.go:71-91 | Starting from an empty registry, a key has a record iff some call for it could create. Each record's weight is `len(name)` times the number of calls aimed at its key from the creating call on. Its first file is the creating call's file. It is single-file iff all those calls came from that file. |
| Collection.UpdatePhase | tag.go:82-88 | After update-only calls on a unique registry, length and order are unchanged. Each record gains `len(name)` per call aimed at its key and is cleared of single-file by any such call from another file. |
| Collection.UpdatePhaseOrderFree | html-cruncher.go:87-95 | The concurrent CSS and JS phase gives the same registry for any order of its update-only calls. |
| Collection.CountHitsPermutation | html-cruncher.go:87-95 | The number of calls aimed at a key does not depend on the order of the calls. |
| Collection.AddsOnExistingKeysCommute | tag.go:82-88 | Two calls whose keys both already exist commute, whatever their `onlyIfExists` flags. |
| CommonFilter.Delete | tag.go:93-96 | Swap-delete removes exactly one copy of the record at `i` from the multiset. The length drops by one, and every other position below the new length is untouched. |
| CommonFilter.FirstSingleFrom | tag.go:103-104 | The scan returns -1 exactly when no record from `from` on is single-file. Otherwise it returns the first single-file position from `from`, which is the record swap-delete removes next. |
| CommonFilter.DropNoCommon | tag.go:100-114 | No single-file record remains. Each common record keeps its multiplicity and each single-file record drops to zero. Key uniqueness is preserved. |
| CommonFilter.DropNoCommonIdempotent | tag.go:100-114 | Dropping the single-file records a second time changes nothing. |
| CommonFilter.DeleteSingle | tag.go:103-106 | Deleting one single-file record keeps the multiplicity of every common record and keeps key uniqueness. |
| CommonFilter.DropNoCommonIsFilter | tag.go:100-114 | The delete-and-rescan loop keeps exactly the multiset a one-pass in-order filter of the common records keeps. |
| CommonFilter.CommonCount | tag.go:103-104 | The one-pass filter keeps every common record with its multiplicity and no single-file record. |
| WeightSort.LessIsStrictWeakOrder | tag.go:122-124 | `tagsArray.Less` (heavier first) is irreflexive, asymmetric and transitive, and two records are unordered under it exactly when their weights are equal, so it is a strict weak order as `sort.Sort` requires. |
| WeightSort.Insert | tag.go:130 | One step of the insertion sort that stands for `sort.Sort`. Inserting into a sequence ordered by `Less` keeps it ordered and adds exactly the one record to the multiset. |
| WeightSort.SortByWeight | tag.go:116-133 | The result is a permutation of the registry in which no record is heavier than one before it. |
| ShortNames.Spell | tag.go:158-163 | Spelling positions fails exactly when some position is outside `newNameOtherChars`. Otherwise the result is that alphabet read at each position. |
| ShortNames.Emit | tag.go:156-178 | At name position 0 a tag's new name is overwritten with one first-alphabet letter. At a later position the counters up to it are appended to the current new name. An out-of-range counter is the index panic. |
| ShortNames.Step | tag.go:166-199 | The counter update keeps the name position within the counters and moves it up by at most one. |
| ShortNames.StepFollowsClosedForm | tag.go:166-199 | For each tag `k < 962`, one counter update takes the counter state for `k` to the state for `k + 1`: `[k]` for one-letter names, otherwise `[(k-26)/36, (k-26)%36]` at position 1. |
| ShortNames.EmitFollowsClosedForm | tag.go:156-178 | Before tag `k < 962` the machine emits the `k`-th name of the sequence. |
| ShortNames.EmitPanicsAtLimit | tag.go:158-163 | Before tag 962 the fill loop reads `newNameOtherChars[36]` and fails. |
| ShortNames.ParseShortNameInverse | tag.go:152-153 | Each of the 962 names parses back to its own position. |
| ShortNames.ShortNameCoversEveryName | tag.go:152-153 | Every one-letter name and every letter followed by a letter or digit occurs in the sequence at its parsed position. |
| ShortNames.ShortNamesDistinct | tag.go:156-199 | No name is handed out twice. |
| ShortNames.ShortNamesIncrease | tag.go:156-199 | Names strictly increase: shorter first, then by alphabet position. |
| ShortNames.GiveNewNames | tag.go:148-204 | Naming panics exactly when there are more than 962 tags. Otherwise tag `k` gets the `k`-th name (appended to an existing new name once names have two letters), and nothing else changes. On unnamed tags, tag `k`'s new name is exactly the `k`-th name. |
| Cruncher.Run | html-cruncher.go:74-101 | With no HTML files the exit status is 1. The run panics exactly when more than 962 records reach naming. Otherwise the result is a permutation of the collected records, filtered when `-rc` is set and with only the names changed. It has non-increasing weights and unique keys. Record `k` is named with the `k`-th short name, names are distinct, and every record is declared by some HTML file. With `-rc`, no record is single-file. |
| Cruncher.HtmlAdds | html.go:45-49 | Definition: each `id` or `class` attribute becomes one `TagAdd` call from its file that is aimed at its key and may create the record (`onlyIfExists` false). |
| Cruncher.RefAdds | css.go:31-34 | Definition: each CSS `#id` or `.class` selector, and likewise each JS id or class call and each `querySelector` or `$` selector passed to the CSS scanner (js.go:34-46), becomes one `TagAdd` call from its file that is aimed at its key and only updates (`onlyIfExists` true). |
| Cruncher.Collected | html-cruncher.go:79-95 | Definition of the collected registry: all HTML calls on an empty registry, and after that barrier all CSS and JS calls. Its keys are unique. |
| Cruncher.Survivors | html-cruncher.go:97-99 | Definition of the records that reach sorting: the collected records, filtered to the common ones when `-rc` is set. Every survivor is a collected record, and with `-rc` none is single-file. |
| Cruncher.CollectedKeys | html-cruncher.go:79-95 | Because HTML collection finishes before CSS/JS collection starts, every collected record is declared in HTML. The collected registry is unique and unnamed. |
| Cruncher.CollectedAccount | html-cruncher.go:79-95 | A collected record's weight is `len(name)` times the number of HTML and CSS/JS adds aimed at its key. Its first file is its first HTML declaration's file. It is single-file iff every such add came from that file. |
| Cruncher.AbsorbedAccount | tag.go:71-91 | A record created by adds that may all create, and then updated by a run of update-only adds, has weight `len(name)` times all adds aimed at its key. It is single-file iff all of them came from its first file. |
| Cruncher.Translate | html.go:115-118 | A rewriter writes a record's new name when the lookup succeeds and the identifier unchanged when it fails. |
| Cruncher.TranslateUsesOwnName | css.go:77-80 | On the unique frozen registry, each record's identifier is rewritten to that record's own new name. |

## Left out

- Lexing of HTML, CSS and JS, and the text substitution the rewriters perform. These are parameters: the sequences of `(kind, file, name)` occurrences, and `Translate` for one lookup.
- File I/O, `scanDir`, flag parsing, output directories and the byte-size and percentage report. They are I/O and floating point.
- `TagPrint` and `TagType.String`. They only write to standard output.
- Goroutines, `sync.WaitGroup` and `tagsMutex`. Each phase is one sequential fold over a given order of the calls.
- `tagsArray.Len` and `tagsArray.Swap`. They exist only to drive `sort.Sort`, which is modelled by its result.
- WeightSort.SortByWeight: does not model the order `sort.Sort` leaves among records of equal weight. That order is unspecified, so the insertion sort here states only the permutation and the weight order.
- Registry.TagAdd: `len(name)` counts bytes in Go and characters here. The two agree for ASCII identifiers.
- Registry.TagAdd: weight is an unbounded integer, while Go's `int` is 32 or 64 bits and `Weight += len(name)` (tag.go:84) wraps. The model agrees with the program while the total identifier length counted for one record stays below `math.MaxInt` (2^31-1 on 32-bit targets such as 386 and arm). The bound depends only on the size of the input, so nothing in the program guarantees it. Past it a weight turns negative and `Less` (tag.go:122-124) orders that record last.
- ShortNames.Emit: the `namePos == 0` branch inside the fill loop is left out. The loop runs only while `i < namePos`, so that branch can never run.
- The `Name` tag kind is kept in `TagType`, but no producer passes it.
