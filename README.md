# strs — a verified model of the Go string-set and string-slice utilities

This project models the Go package `strs`:

- **`SetList`** (strs/setlist.go) is an insertion-ordered set of distinct strings. It keeps three fields:
  - `items`, the strings in order;
  - `size`, their number;
  - `pos`, a map from each string to its position.
- **Free functions over string slices** (strs/slices.go): `Equal`, `IfElse`, `Map`, `Prefix`, `Suffix`, `Combine`, `MapErr`, `Filter`, `First`, `Count`, `Contains` and `Index`.

The files are:

| file | module | what it holds |
|---|---|---|
| `slices.dfy` | `Slices` | The slice functions. Each Go loop becomes a method with loop invariants. `Map`, `Combine`, `Filter` and `Count` are proved equal to a recursive specification function, and lemmas prove what those functions mean. `Equal`, `MapErr`, `First`, `Contains` and `Index` state their result directly in their postconditions. |
| `string_order.dfy` | `StringOrder` | Go's byte-wise string order `<=`, proved a total order. An insertion sort `Sort` stands in for `sort.Strings`, with a proof that it agrees with every ascending sort. |
| `setlist.dfy` | `SetLists` | The class `SetList` with the Go fields. A Go `nil` map is the `Nil` case of `PosMap`. Each method is proved to move the fields from `Model()` to a value-level function of the old state (`AppendAll`, `AfterPull`, `AfterRemove`, …). It also holds the lemmas that `Append` and `Pull` keep the invariant `Indexed`, which those two methods state as `old(Valid()) ==> Valid()`. |
| `setlist_properties.dfy` | `SetListProperties` | Lemmas about the value-level functions: the ordered-set invariant `Indexed`, the inverses, and `Match` as set equality. Two defects of the source are exhibited here, with corrected versions. The scenario of strs/setlist_test.go is replayed on the class. |

`Indexed` is the invariant an ordered set is meant to keep:
- `size` is the number of items;
- no item occurs twice;
- `pos` maps exactly the items, each to its own position.

`Append` and `Pull` keep `Indexed`. `Remove` and `Sorted`, as written, do not (see "## Findings"). The class therefore does not assume `Indexed`, and every method is specified on arbitrary field values. A Go runtime panic (an index out of range) becomes a precondition.

The Go comments call `SetList` "an ordered, distinct set of strings" (strs/setlist.go:5). They say `Remove` removes "the given value" (strs/setlist.go:76) and `Len` returns "the number of items" (strs/setlist.go:92). Measured against those promises, `Remove` and `Sorted` fall short. The model keeps their behaviour as written, and "## Findings" gives corrected versions.

## Model

| member | source | states |
|---|---|---|
| Slices.Equal | strs/slices.go:7-20 | true exactly when the slices have the same length and the same element at every index |
| Slices.IfElse | strs/slices.go:23-28 | the first string when the condition holds, the second otherwise |
| Slices.Mapped | strs/slices.go:31-40 | same length as the input, and element i is f applied to input element i |
| Slices.Map | strs/slices.go:31-40 | the loop that fills a result of the input's length index by index returns exactly `Mapped` |
| Slices.Prefix | strs/slices.go:43-48 | same length, and element i is the prefix followed by input element i |
| Slices.Suffix | strs/slices.go:51-56 | same length, and element i is input element i followed by the suffix |
| Slices.Combine | strs/slices.go:60-76 | the buffer loop (joiner before every element but the first) builds exactly `Combined` |
| Slices.CombinedEnds | strs/slices.go:60-76 | `Combined`, the reference for `Combine`'s result, is the empty string for no elements. Otherwise it starts with the first element wrapped in prefix and suffix, and ends with the last element wrapped |
| Slices.CombinedSplit | strs/slices.go:64-73 | combining two non-empty runs gives each run combined, with exactly one joiner between them |
| Slices.CombinedFront | strs/slices.go:64-73 | the first element is wrapped with no joiner before it; any rest follows after one joiner |
| Slices.MapErr | strs/slices.go:81-94 | the result has the input's length. No error comes back iff f succeeds on every element, and then slot j holds f's value on element j. An error comes back iff some element fails; it is the error of the first failing element k; slots before k hold f's values and slots from k on are "" |
| Slices.Filtered | strs/slices.go:108-119 | no longer than the input, and every kept string is in the input and satisfies f |
| Slices.Filter | strs/slices.go:108-119 | the appending loop returns exactly `Filtered` |
| Slices.FilteredIsSubsequence | strs/slices.go:112-116 | `Filter` keeps elements in their original order: the result is a subsequence of the input |
| Slices.FilteredComplete | strs/slices.go:112-116 | every input element satisfying f is kept, and the result's length is `Counted` |
| Slices.Counted | strs/slices.go:137-148 | the count is a natural number no larger than the input's length |
| Slices.Count | strs/slices.go:137-148 | the counting loop returns exactly `Counted` |
| Slices.CountedIsMatching | strs/slices.go:141-145 | the count is the number of indices whose element satisfies f |
| Slices.First | strs/slices.go:124-133 | when found, the string is the element at the least index satisfying f; otherwise "" and no element satisfies f |
| Slices.Contains | strs/slices.go:151-160 | true exactly when the search string is an element |
| Slices.Index | strs/slices.go:164-173 | found iff the string occurs; the index is its first occurrence; (0, false) when absent |
| StringOrder.LessEqTotal | strs/setlist.go:126 | any two strings are comparable in the byte-wise order `sort.Strings` uses |
| StringOrder.LessEqAntisymmetric | strs/setlist.go:126 | two strings each no later than the other are equal |
| StringOrder.LessEqTransitive | strs/setlist.go:126 | the order is transitive |
| StringOrder.AscendingAllPairs | strs/setlist.go:126 | in an ascending sequence every earlier string sorts no later than every later one |
| StringOrder.Insert | strs/setlist.go:126 | inserting into an ascending sequence keeps it ascending, adds exactly one copy of the string, and keeps it repeat-free when the string was new |
| StringOrder.Sort | strs/setlist.go:126 | the result is ascending and a permutation of the input, and repeat-free when the input is |
| StringOrder.AscendingPermutationUnique | strs/setlist.go:126 | two ascending permutations of the same strings are equal, so `Sort` gives what any correct `sort.Strings` gives |
| SetLists.PosMap.Delete | strs/setlist.go:71 | deleting a key removes exactly that key, and deleting from a nil map leaves it nil |
| SetLists.IndexMap | strs/setlist.go:128-130 | the map left by writing `pos[s[i]] = i` for every i has exactly the strings of s as keys, and maps each key to a position holding it |
| SetLists.IndexMapKeepsLast | strs/setlist.go:128-130 | the last write wins: each key maps to the last position holding it |
| SetLists.SetList.constructor | strs/setlist.go:6-10 | the zero value: size 0, no items, a nil map; it is `Valid`, so `Append` and `Pull` keep every set built from it `Valid` |
| SetLists.SetList.Init | strs/setlist.go:13-17 | afterwards the map is allocated; an allocated map and the fields are unchanged |
| SetLists.SetList.Equal | strs/setlist.go:21-23 | true exactly when both item slices are equal |
| SetLists.SetList.Match | strs/setlist.go:27-40 | true exactly when the sizes agree and every item of this set is a key of the other's map |
| SetLists.SetList.Append | strs/setlist.go:44-57 | the map is allocated, and the fields become `AppendAll` of the old fields: each value not yet a key is appended at position `size`, in argument order. A set that was `Valid` stays `Valid` |
| SetLists.SetList.Pull | strs/setlist.go:62-74 | on size 0 returns ("", false) and changes nothing; otherwise returns the item at size-1, truncates items there, and deletes its key. A set that was `Valid` stays `Valid` |
| SetLists.SetList.Remove | strs/setlist.go:78-90 | returns whether the value was a key. If it was not, nothing changes. If it was, its item is spliced out at the recorded position, size drops by one, its key is deleted, and the other positions are left as they were |
| SetLists.SetList.Len | strs/setlist.go:93-95 | returns size, which is the number of items on an indexed set |
| SetLists.SetList.Get | strs/setlist.go:99-105 | returns the item at i below size and "" from size on, including a negative i when size is negative; on an indexed set the map sends the result back to i |
| SetLists.SetList.Contains | strs/setlist.go:108-112 | true exactly when the value is a key of the map; on an indexed set, exactly when it is an item |
| SetLists.SetList.Items | strs/setlist.go:115-117 | a copy of the items; on an indexed set it has `Len()` entries, none repeated |
| SetLists.SetList.Sorted | strs/setlist.go:120-133 | a fresh set whose items are the sorted items, whose map gives each its sorted position, and whose size is 0 |
| SetListProperties.DistinctCard | strs/setlist.go:5 | a repeat-free sequence has as many distinct strings as entries |
| SetLists.AppendOneSpec | strs/setlist.go:47-56 | one appended value keeps the set indexed; it is added at the end unless already present |
| SetLists.AppendAllIndexed | strs/setlist.go:44-57 | `Append` keeps the set indexed and keeps the old items as a prefix |
| SetListProperties.AppendAllElements | strs/setlist.go:44-57 | after `Append` the set's strings are the old ones plus the values, and the keys still match the items |
| SetListProperties.AppendGrowsLen | strs/setlist.go:44-57 | `Len` grows by the number of distinct values not yet present |
| SetListProperties.AppendPresentIsNoOp | strs/setlist.go:48-51 | appending values that are all present changes nothing |
| SetListProperties.FirstIndex | strs/setlist.go:47 | the position of a value's first occurrence among the arguments |
| SetListProperties.AppendInArgumentOrder | strs/setlist.go:47-56 | the new items come from the arguments, ordered by where each first occurs among them |
| SetLists.PullSpec | strs/setlist.go:62-74 | on an indexed set `Pull` cannot panic, keeps the set indexed, and removes exactly the last item |
| SetListProperties.PullUndoesAppend | strs/setlist.go:59-74 | appending a new value and then pulling returns that value and restores the set exactly |
| SetListProperties.AppendUndoesPull | strs/setlist.go:59-74 | appending the value `Pull` returned restores a non-empty indexed set exactly |
| SetListProperties.RemovePresent | strs/setlist.go:78-90 | on an indexed set, removing an item cannot panic; it deletes exactly that item, keeps the others in order and distinct, and lowers size by one |
| SetListProperties.Splice | strs/setlist.go:85 | cutting one entry out of a repeat-free sequence leaves it repeat-free, with just that string gone |
| SetListProperties.RemoveLeavesStale | strs/setlist.go:85-87 | every item after the removed one keeps its old position in the map, one too high |
| SetListProperties.RemoveIndexedOnlyAtEnd | strs/setlist.go:85-89 | after `Remove` the set is indexed exactly when the removed item was the last one |
| SetListProperties.SecondRemoveDeletesWrongItem | strs/setlist.go:80-87 | on a, b, c: removing "a" and then "b" deletes "c"'s slot and leaves ["b"]; a remove of "c" would index out of range |
| SetListProperties.IndexMapIndexes | strs/setlist.go:128-130 | a repeat-free sequence, its length and its rebuilt map form an indexed set |
| SetListProperties.RemoveReindexedSpec | strs/setlist.go:85-87 | a `Remove` that re-indexes keeps the set indexed and deletes exactly the value |
| SetListProperties.AppendAllKeepsGap | strs/setlist.go:53-55 | `Append` raises `size` and the number of items together, so their difference is unchanged |
| SetListProperties.SizeAtMostItemsKept | strs/setlist.go:6-133 | `size` is at most the number of items in the zero value, and after `Append`, `Pull`, `Remove` and a `Sorted` copy; so `Pull` cannot panic by indexing past the items |
| SetListProperties.SizeIsItemsKept | strs/setlist.go:44-90 | while `Sorted` is not involved, `Append`, `Pull` and `Remove` keep `size` equal to the number of items; `Pull` never panics there |
| SetListProperties.NegativeSizeAfterSortedRemove | strs/setlist.go:62-69 | the sorted copy of {"a"} has size 0; removing "a" gives size -1, a state on which `Pull` panics |
| SetListProperties.SortedCopyOfAB | strs/setlist.go:120-133 | the sorted copy of {"a", "b"} holds a, b at positions 0 and 1 |
| SetListProperties.PullAfterSortedAppendStrands | strs/setlist.go:53-85 | on that copy (size 0), Append "c" records "c" at 0. `Pull` then leaves no items but keys "b" and "c", and a `Remove` of either panics |
| SetListProperties.EqualWithoutMatchAfterSorted | strs/setlist.go:19-40 | a set holding "a" and its sorted copy are `Equal` (same items) but do not `Match`, because the copy's size is 0 |
| SetListProperties.SubsetSameCard | strs/setlist.go:29-37 | a subset of a finite set with as many elements is the whole set |
| SetListProperties.MatchIffSameElements | strs/setlist.go:27-40 | on indexed sets, `Match` holds exactly when both hold the same strings; `Equal` implies `Match` |
| SetListProperties.MatchWithoutEqual | strs/setlist_test.go:63-73 | the same two strings appended in opposite orders `Match` but are not `Equal` |
| SetListProperties.SortedCopy | strs/setlist.go:120-133 | for repeat-free items: the sorted items are an ascending, repeat-free permutation with the same strings, and the map gives each its position; with size 0 the copy is not indexed unless empty |
| SetListProperties.MultisetElements | strs/setlist.go:126 | a permutation holds the same strings |
| SetListProperties.SortedFixedSpec | strs/setlist.go:120-133 | a `Sorted` that also sets size returns an indexed, ascending permutation whose size is the number of items |
| SetListProperties.NewFooScenario | strs/setlist_test.go:11-21 | on the class: a zero-value set has `Len` 0, and after Append "foo" it is 1 |
| SetListProperties.FooScenario | strs/setlist_test.go:23-27 | then Remove of the absent "bar" leaves `Len` at 1 |
| SetListProperties.AppendScenario | strs/setlist_test.go:29-33 | then Append "bar", "cat" gives foo, bar, cat at positions 0, 1, 2 and `Len` 3 |
| SetListProperties.RemoveScenario | strs/setlist_test.go:35-39 | then Remove "bar" leaves foo, cat with `Len` 2, and "cat" still recorded at position 2 |
| SetListProperties.EqualScenario | strs/setlist_test.go:41-47 | a second set given "foo", "cat" is `Equal` to the first |
| SetListProperties.PullScenario | strs/setlist_test.go:49-61 | `Pull` on the second set succeeds with "cat", after which the two sets are not `Equal` |
| SetListProperties.RefillScenario | strs/setlist_test.go:63-65 | a second `Pull` empties the second set, and Append "cat", "foo" refills it in the other order |
| SetListProperties.EqualMatchScenario | strs/setlist_test.go:67-73 | the refilled set is not `Equal` to the first, but it does `Match` |

## Left out

- `Every` (strs/slices.go:98-103) is not modelled. It only calls a callback for its side effects, and Dafny function values have none.
- Callbacks are pure total Dafny functions. A callback that panics, loops or has side effects is not modelled.
- Slices.MapErr: the model does not state that f is never applied past the first failing element. A pure callback leaves no trace of being called.
- SetLists.SetList.Pull: Go panics when `size` is negative, or positive but beyond the items' length (strs/setlist.go:68-69). The precondition `CanPull` excludes exactly these cases, so they are not modelled.
  - A negative `size` arises only from `Sorted` followed by `Remove`: size 0, then -1. SetListProperties.NegativeSizeAfterSortedRemove shows this.
  - A `size` beyond the items cannot arise at all. SetListProperties.SizeAtMostItemsKept shows this.
- SetLists.SetList.Remove: Go panics when a recorded position is out of range. The model turns this into the precondition `CanRemove`. Such a position arises in two ways:
  - after an earlier `Remove` (SetListProperties.SecondRemoveDeletesWrongItem);
  - after `Pull` on a `Sorted` copy that has been appended to, because `Pull` cuts `items` at `size - 1` but deletes only one key (SetListProperties.PullAfterSortedAppendStrands).
- SetLists.SetList.Get: Go panics for an index below `size` that lies outside the items, negative indices included. The model turns this into the precondition `i < size ==> 0 <= i < |items|`. An index at or above `size` returns "", even a negative one when `size` is negative.
- Slice aliasing and capacity are not modelled. Items are values.
  - `append(sl.items[:p], …)` in `Remove` shifts the later items within the shared backing array. A `SetList` copied by value, as in `y := x`, shares that array, so its `items` would see the shift while keeping its own `size` and sharing the `pos` map, which `Remove` also changes.
  - `Items` returns a fresh copy, so a slice it returned sees no later change to the set.
- `sort.Strings` is stood in for by an insertion sort. StringOrder.AscendingPermutationUnique shows that any two ascending permutations of the same strings are equal, with or without repeats. Equal strings cannot be told apart, so the sort's algorithm and stability make no difference. Repeats can occur: after the stale `Remove` of "## Findings", a later `Append` can add an item twice.
- Strings are sequences of Unicode characters compared by code point. For valid UTF-8, this order is Go's byte order. Invalid UTF-8 is not modelled.
- `strings.Builder` is modelled as string concatenation. Allocation and growth are left out.
- `int` is unbounded. Overflow of `size` or of a `Count` is not modelled.
- Map iteration order and hashing are not modelled. `pos` is a mathematical map.

## Findings

| source | as written | input that shows it | evidently intended | confidence | as-written member | corrected member |
|---|---|---|---|---|---|---|
| strs/setlist.go:85-87 | `Remove` splices the item out but leaves the positions of all later items one too high | Append "a", "b", "c"; Remove "a"; Remove "b" deletes "c" (position 1) and leaves ["b"]; a later Remove "c" indexes out of range | later items are re-indexed, so the set stays an ordered set | not executed | SetListProperties.SecondRemoveDeletesWrongItem | SetListProperties.RemoveReindexedSpec |
| strs/setlist.go:122-131 | `Sorted` builds the items and the map but never sets `size`, so the copy's `Len()` is 0 and `Get` returns "" for every index | Append "b", "a"; Sorted().Len() is 0 and Sorted().Get(0) is "". Append "a"; the set `Equal`s its sorted copy but does not `Match` it | the copy has `size` equal to its number of items | not executed | SetListProperties.SortedCopy | SetListProperties.SortedFixedSpec |

The class `SetList` keeps the behaviour as written; the corrected members `RemoveReindexed` and `SortedFixed` are value-level definitions with their properties proved.
