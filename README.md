# util-ts core, modelled in Dafny

This project models the four files of the `util-ts` utility library that hold
logic, and proves properties of them:

- **`CountMap<T>`** (countMap.ts) is a mutable table of counters, in effect a multiset.
  - It is modelled as a class `CountMaps.CountMap` with two fields. `counts` is a `map<T, int>`. `order` is the key sequence the JavaScript `Map` iterates in, which is first-insertion order.
  - `increment` and `decrement` return `Result` values. Each of the three thrown errors is a constructor of `CountMapError`.
  - Three loops are methods with loop invariants: `increamentFromArray`, `sum` and the loop inside `merge`. Each is specified against a pure function (`AddEach`, `SumOf`, `AddEntries`), and lemmas state the properties of those functions.
- **`enumarteCombination` and `cartesianProduct`** (mathExtensions.ts) are lazy generators. Here each is a recursive function returning the full sequence of tuples it would yield, in yield order.
  - The repetition flag is modelled as written. The recursive call does not pass the flag on (see Findings).
- **The array helpers** (arrayExtensions.ts) are modelled on `seq<T>`:
  - `count`, `except`, `first`, `last`, `max`, `min` and `sum` are functions.
  - `distinct`, `divide` and `zip` are methods, proved against the pure functions `FirstOccurrences`, `DivideSpec` and the zip length and element rule.
- **`ListMap<K, V>`** (listMap.ts) is a mutable key-to-list table. It is modelled as a class `ListMaps.ListMap` with fields `lists` and `order`. `add` is specified against the pure table update `AddTo`.

The shared notions are in `sequences.dfy`:

- duplicate-freedom;
- first-occurrence order, which is what a JavaScript `Set` or `Map` iterates in;
- `Tracks`, meaning a key order lists exactly the keys of a table, once each;
- the table `new Map(entries)` builds, where the last pair for a key wins and the first pair fixes its place.

`wrappers.dfy` holds `Option` and `Result`.

JavaScript numbers are modelled as unbounded integers. Callbacks (selectors, predicates, zip functions) are total Dafny functions.

## Model

| member | source | states |
|---|---|---|
| CountMaps.CountMap.constructor | countMap.ts:10-18 | The three forms (`Empty`, `Copy`, `FromEntries`) each give a valid table. The copy has the same counters and order as the original. The array form keeps the last counter given for each key, placed where the key first appears. It is positive when every given counter is. |
| CountMaps.CountMap.Get | countMap.ts:24-26 | A non-zero counter belongs to a stored key; an absent key reads as 0 |
| CountMaps.CountMap.GetPositive | countMap.ts:24-26 | In a table of positive counters, `get(key) > 0` exactly when the key is stored |
| CountMaps.CountMap.Set | countMap.ts:38 | `Map.set`: the table gets the new counter, a new key goes to the end of the order, the sum changes by new minus old, positivity is kept |
| CountMaps.CountMap.Delete | countMap.ts:68 | `Map.delete`: the key leaves the table and the order, the others keep their order, the sum drops by the removed counter, positivity is kept |
| CountMaps.CountMap.Increment | countMap.ts:35-40 | `steps <= 0` fails with the invalid-steps error and changes nothing. Otherwise the counter rises by `steps` (an absent key starts from 0), nothing else changes, a new key is appended to the order, and `this` is returned. |
| CountMaps.BumpSum | countMap.ts:35-40 | An increment by `steps` raises the sum of all counters by exactly `steps` |
| CountMaps.BumpPositive | countMap.ts:35-40 | An increment keeps every counter of a positive table positive |
| CountMaps.AddEach | countMap.ts:47-52 | The table after one `increment(item)` per item, in array order; AddEachCounts gives each counter, AddEachTracked the key order, AddEachSum the sum and AddEachPositive positivity |
| CountMaps.CountMap.IncrementFromArray | countMap.ts:47-52 | The loop leaves the table equal to `AddEach` of the items, with the order the first occurrences of old order then items. Every `get(k)` rises by the number of occurrences of `k` in the array, and `this` is returned. |
| CountMaps.AddEachCounts | countMap.ts:47-52 | Counting an array adds each key's multiplicity to its counter |
| CountMaps.AddEachTracked | countMap.ts:47-52 | After counting an array, the order still lists exactly the stored keys |
| CountMaps.AddEachSum | countMap.ts:47-52 | Counting an array raises the sum by the array's length |
| CountMaps.AddEachPositive | countMap.ts:47-52 | Counting an array keeps a positive table positive |
| CountMaps.CountMap.Decrement | countMap.ts:62-75 | The call fails in three cases, each an if-and-only-if, and on failure nothing changes. The cases are: `steps <= 0`; key absent or stored as 0; counter below `steps`. If the counter reaches exactly 0, the key is deleted, so `size` drops by one and the key leaves `keys()`. Otherwise the counter falls by `steps`. The sum falls by `steps`, positivity is kept, and `this` is returned. |
| CountMaps.SetSum | countMap.ts:72 | Storing a counter changes the sum by the new value minus the old one |
| CountMaps.DeleteSum | countMap.ts:68 | Deleting a key lowers the sum by its counter |
| CountMaps.SetPositive | countMap.ts:72 | Storing a positive counter keeps a positive table positive |
| CountMaps.DeletePositive | countMap.ts:68 | Deleting a key keeps a positive table positive |
| CountMaps.DeleteOrder | countMap.ts:68 | Deleting a key from the order is the same as filtering it out (`except`) |
| CountMaps.CountMap.Total | countMap.ts:80-86 | The sum of the counters in key order, which `sum()` returns (CountMap.Sum); Set, Delete, Decrement and Merge state how they change it, SizeAtMostTotal bounds `size` by it |
| CountMaps.CountMap.Sum | countMap.ts:80-86 | The accumulating loop returns the sum of all stored counters |
| CountMaps.CountMap.SizeAtMostTotal | countMap.ts:80-127 | In a positive table, `size` (the number of keys) never exceeds `sum()` |
| CountMaps.SumOfPositive | countMap.ts:80-86 | A list of positive counters sums to at least its length |
| CountMaps.CountMap.Keys | countMap.ts:91-93 | The keys come without duplicates, and they are exactly the stored keys |
| CountMaps.CountMap.Values | countMap.ts:98-100 | One counter per key, each equal to `get` of the key at the same place in key order |
| CountMaps.CountMap.Entries | countMap.ts:105-107 | The pairs list the keys in key order, each with its counter |
| CountMaps.EntriesOfRoundTrip | countMap.ts:105-107 | `EntriesOf` pairs each key of the order with its counter, in order; rebuilding a table from those entries gives back the same counters |
| Sequences.TracksOrder | countMap.ts:105-107 | A valid key order is its own first-occurrence order, so rebuilding from entries also keeps the order |
| CountMaps.EntriesOfPositive | countMap.ts:114-120 | Every step `merge` passes to `increment` is positive exactly when every counter of `other` is positive |
| CountMaps.AddEntriesCounts | countMap.ts:114-120 | Incrementing by a list of pairs with distinct keys adds each pair's value to its key |
| CountMaps.AddEntriesTracked | countMap.ts:114-120 | After incrementing by pairs, the order still lists exactly the stored keys |
| CountMaps.AddEntriesSum | countMap.ts:114-120 | Incrementing by pairs raises the sum by the sum of the pairs' values |
| CountMaps.AddEntriesPositive | countMap.ts:114-120 | Incrementing by positive pairs keeps a positive table positive |
| CountMaps.AddEntries | countMap.ts:116-118 | The table after `increment(key, value)` for each pair, in list order; AddEntriesCounts, AddEntriesTracked, AddEntriesSum and AddEntriesPositive characterise it |
| CountMaps.CountMap.IncrementEntries | countMap.ts:116-118 | The loop of `merge` fails exactly when some step is not positive. On success the table equals `AddEntries` of the pairs, and the order is the first occurrences of the old order followed by the pair keys. |
| CountMaps.MergeCounts | countMap.ts:114-120 | After merging, every key's counter is the sum of the two tables' counters |
| CountMaps.MergeSum | countMap.ts:114-120 | After merging, the sum is the sum of both tables' sums |
| CountMaps.MergePositive | countMap.ts:114-120 | Merging two positive tables gives a positive table |
| CountMaps.CountMap.Merge | countMap.ts:114-120 | The merge fails exactly when `other` holds a non-positive counter. Otherwise it returns a fresh table, and `this` and `other` are left unchanged. In that table `get(k) == this.get(k) + other.get(k)` for every key, the order is this table's keys followed by the new keys of `other`, the sum is the sum of both sums, and positivity is kept. |
| CountMaps.CountMap.Size | countMap.ts:125-127 | `size` is the number of stored keys |
| ListMaps.ListMap.constructor | listMap.ts:7-13 | The empty form and the entries form each give a valid table. The entries form keeps the last list given per key, in first-occurrence key order. |
| ListMaps.ListMap.Get | listMap.ts:19-21 | Nothing exactly when the key is absent, otherwise the stored list |
| ListMaps.AddTo | listMap.ts:30-36 | The list of `key` gains `value` at its end and keeps its earlier items in order. An absent key gets `[value]`. Every other key keeps its list, and no other key appears. |
| ListMaps.ListMap.Add | listMap.ts:30-36 | The table becomes `AddTo` of the old table, a new key goes to the end of the order, and `this` is returned |
| ListMaps.AddPairsGroups | listMap.ts:30-36 | A run of `add` calls leaves each key's list extended by exactly the values added under that key, in call order |
| ListMaps.ListMap.Entries | listMap.ts:41-43 | The pairs list the keys in key order, each with its stored list |
| ListMaps.ListMap.EntriesRoundTrip | listMap.ts:41-43 | Rebuilding a table from its entries gives back the same lists in the same key order |
| Sequences.FirstOccurrencesDistinct | arrayExtensions.ts:105-106 | First-occurrence order has no duplicates |
| Sequences.FirstOccurrencesOfDistinct | arrayExtensions.ts:105-106 | A duplicate-free sequence is its own first-occurrence order |
| Sequences.SetTracks | countMap.ts:38 | `Map.set` appends a new key to the iteration order and leaves an existing one in place |
| Sequences.DeleteTracks | countMap.ts:68 | `Map.delete` removes the key from the iteration order |
| Sequences.EntryMapDistinct | countMap.ts:16 | With distinct keys, `new Map(entries)` stores each pair's value under its key |
| Sequences.EntryMapLastWins | countMap.ts:16 | Every key of `new Map(entries)` holds the value of the last pair for that key |
| ArrayExtensions.Count | arrayExtensions.ts:91-94 | The count lies between 0 and the length. It is 0 exactly when no element passes, and the length exactly when all pass. |
| ArrayExtensions.CountAppend | arrayExtensions.ts:91-94 | Counting distributes over concatenation |
| ArrayExtensions.CountIsSum | arrayExtensions.ts:91-94 | `count(p)` equals the sum of 1 over the elements passing `p` |
| ArrayExtensions.Distinct | arrayExtensions.ts:105-106 | The result is duplicate-free, has the same elements as the input, and is in first-occurrence order |
| ArrayExtensions.DistinctOrder | arrayExtensions.ts:105-106 | The kept elements are ordered by the position of their first occurrence in the input |
| ArrayExtensions.Chunks | arrayExtensions.ts:120-130 | The chunks concatenate back to the input. There are none exactly when the input is empty. Every chunk but the last has exactly `k` elements, and the last has 1 to `k`. |
| ArrayExtensions.ChunksAppend | arrayExtensions.ts:120-130 | Chunking splits at any boundary that is a multiple of `k` |
| ArrayExtensions.DivideStep | arrayExtensions.ts:121-126 | One loop iteration keeps the loop's invariant: the emitted chunks are the chunks of the consumed prefix, and the buffer is the rest |
| ArrayExtensions.DivideEnd | arrayExtensions.ts:128-130 | Emitting a non-empty leftover buffer completes the chunking |
| ArrayExtensions.DivideSpec | arrayExtensions.ts:120-130 | What `divide(k)` yields: the chunks of size `|k|` for `k != 0` (Chunks states their shape, ChunksAppend how they split), one chunk of the whole input (none when empty) for `k == 0` |
| ArrayExtensions.Divide | arrayExtensions.ts:120-130 | The buffer-filling loop yields exactly `DivideSpec`: the chunks of size `|k|` for `k != 0`, and a single chunk (or none for an empty input) for `k == 0` |
| ArrayExtensions.Except | arrayExtensions.ts:141 | The result is no longer than the input. It keeps every element not excluded, and only those. |
| ArrayExtensions.ExceptAppend | arrayExtensions.ts:141 | Filtering distributes over concatenation, so the kept elements stay in input order |
| ArrayExtensions.ExceptMultiset | arrayExtensions.ts:141 | Each kept value keeps all its occurrences, and each excluded value loses all of them |
| ArrayExtensions.ExceptNothing | arrayExtensions.ts:141 | With nothing excluded, the input comes back unchanged |
| ArrayExtensions.ExceptOne | arrayExtensions.ts:141 | Excluding the element at one position of a duplicate-free sequence removes exactly that position |
| ArrayExtensions.First | arrayExtensions.ts:152 | Nothing exactly when the sequence is empty, otherwise element 0 |
| ArrayExtensions.Last | arrayExtensions.ts:163 | Nothing exactly when the sequence is empty, otherwise the last element |
| ArrayExtensions.Max | arrayExtensions.ts:177-181 | Fails exactly on an empty sequence. Otherwise the result is at least every selector value and equal to one of them. |
| ArrayExtensions.Min | arrayExtensions.ts:195-199 | Fails exactly on an empty sequence. Otherwise the result is at most every selector value and equal to one of them. |
| ArrayExtensions.Sum | arrayExtensions.ts:213 | The left fold of the selector values from 0 (0 for an empty sequence); SumAppend and CountIsSum characterise it |
| ArrayExtensions.SumAppend | arrayExtensions.ts:213 | The fold from 0 distributes over concatenation |
| ArrayExtensions.Zip | arrayExtensions.ts:228-235 | The loop returns `min(|a|, |b|)` elements, element `i` being `f(a[i], b[i])` |
| MathExtensions.EnumCombin | mathExtensions.ts:18-45 | `enumCombin` as written: `[[]]` for count 0, otherwise the loop `EnumFrom` over the positions. Decompose, TupleShape, CombinationCount, ChooseAll, IncreasingPositions, RepetitionPositions, PositionsSorted and the two selection lemmas characterise it |
| MathExtensions.EnumFrom | mathExtensions.ts:26-43 | The loop of `enumCombin` from one position on: each item prepended to the tuples of its slice, with the flag not passed on; EnumFromShift relates it to the loop over the slice |
| MathExtensions.InPrepend | mathExtensions.ts:41 | `Prepend` is `[item].concat(rest)` for every rest tuple, in order; a tuple is yielded by the inner loop exactly when it starts with the item and continues with a rest tuple |
| MathExtensions.Decompose | mathExtensions.ts:23-43 | The first item's tuples come first, built from the slice at 35 with the flag dropped, followed by the tuples of the remaining items |
| MathExtensions.TupleShape | mathExtensions.ts:33-41 | Every tuple has exactly `count` items, all drawn from the input |
| MathExtensions.CombinationCount | mathExtensions.ts:26-43 | Without repetition there are C(n, count) tuples |
| MathExtensions.ChooseAll | mathExtensions.ts:26-43 | Choosing all `n` items without repetition yields exactly `[items]` |
| MathExtensions.EnumerateCombination | mathExtensions.ts:7-48 | It fails exactly when `count < 0` or `count > n`, whatever the flag. `count == 0` gives one empty tuple. Each tuple has `count` items of the input. Without repetition there are C(n, count) tuples, and `count == n` gives `[items]`. |
| MathExtensions.SelectCommutes | mathExtensions.ts:26-43 | Enumerating a selection of items equals selecting by the enumerated position tuples |
| MathExtensions.CombinationsSelectPositions | mathExtensions.ts:26-43 | Each combination is the selection of items by a position tuple, in the same order |
| MathExtensions.IncreasingPositions | mathExtensions.ts:26-43 | Without repetition, the position tuples are exactly the strictly increasing in-range tuples of length `count` |
| MathExtensions.RepetitionPositions | mathExtensions.ts:33-39 | With the flag, the position tuples are exactly those that may repeat only the first position and then strictly increase |
| MathExtensions.PositionsSorted | mathExtensions.ts:26-43 | The position tuples come in lexicographic order |
| MathExtensions.CombinationsAreIncreasingSelections | mathExtensions.ts:26-43 | Without repetition, the combinations are the selections by strictly increasing position tuples, in lexicographic order |
| MathExtensions.CombinationsWithFlagRepeatOnlyFirst | mathExtensions.ts:33-39 | With the flag, the combinations are the selections by tuples that repeat only the first position, in lexicographic order |
| MathExtensions.SingleItemTuples | mathExtensions.ts:33-39 | For `count == 1` the flag makes no difference and agrees with true multiset combinations |
| MathExtensions.AgreesUpToTwo | mathExtensions.ts:33-39 | For `count <= 2` the code as written agrees with true multiset combinations, for example `[1,2], 2, true` |
| MathExtensions.Singletons | mathExtensions.ts:26-43 | With `count == 1` each item becomes a one-item tuple, in order |
| MathExtensions.PairsExample | mathExtensions.ts:7-48 | The pairs of `[1,2,3]` are `[1,2], [1,3], [2,3]` |
| MathExtensions.PairsWithRepetitionExample | mathExtensions.ts:7-48 | `[1,2], 2, true` yields `[1,1], [1,2], [2,2]` |
| MathExtensions.TooManyExample | mathExtensions.ts:12-16 | Asking for 4 of 3 items fails |
| MathExtensions.EnumCombinRepeated | mathExtensions.ts:18-45 | The corrected `enumCombin` that passes the flag on; RepeatedCount, NonDecreasingPositions and AgreesUpToTwo characterise it |
| MathExtensions.RepeatedCount | mathExtensions.ts:33-39 | The corrected enumeration, which passes the flag on, yields C(n + count - 1, count) tuples |
| MathExtensions.RepetitionFlagCounterexample | mathExtensions.ts:33-39 | As written, `[1,2,3], 3, true` yields 4 tuples and misses `[1,1,1]`, where the corrected enumeration yields 10 including it |
| MathExtensions.EnumerateCombinationIntended | mathExtensions.ts:7-48 | The corrected generator fails on the same counts, and yields C(n + count - 1, count) tuples with repetition and C(n, count) without |
| MathExtensions.NonDecreasingPositions | mathExtensions.ts:33-39 | The corrected enumeration's position tuples are exactly the non-decreasing in-range tuples of length `count` |
| MathExtensions.CartesianProduct | mathExtensions.ts:54-67 | `cartesianProduct` as the full sequence it yields: `[[]]` for no sequences, otherwise PrependEach of the first sequence over the product of the rest. CartesianProductLength, EmptyFactor, InCartesianProduct and CartesianProductOrder characterise it |
| MathExtensions.PrependEach | mathExtensions.ts:61-64 | The two nested loops: each element of the first sequence, in order, followed by each rest tuple; PrependEachLength, PrependEachIndex and InPrependEach characterise it |
| MathExtensions.CartesianProductLength | mathExtensions.ts:54-67 | There are as many tuples as the product of the sequence lengths (one empty tuple for no sequences) |
| MathExtensions.EmptyFactor | mathExtensions.ts:60-65 | Any empty sequence makes the product empty |
| MathExtensions.InCartesianProduct | mathExtensions.ts:54-67 | A tuple is yielded exactly when it has one item per sequence, item `i` drawn from sequence `i` |
| MathExtensions.PrependEachIndex | mathExtensions.ts:61-64 | The nested loops put `[first[i]] + rest[j]` at position `i * |rests| + j` |
| MathExtensions.CartesianProductOrder | mathExtensions.ts:60-65 | Nested-loop order: the first sequence varies slowest, and the last varies fastest |
| MathExtensions.CartesianProductExamples | mathExtensions.ts:54-67 | No sequences give `[[]]`, `[1,2] x [10,20]` gives four tuples in loop order, and an empty factor gives nothing |

## Left out

- The generators are lazy in the source. Here each returns its whole output. The `count` check of `enumarteCombination` therefore happens at the call rather than on the first `next()`.
- JavaScript numbers are modelled as unbounded integers:
  - floating-point sums, `NaN` and non-integer `count`, `steps` or `numElements` are not modelled;
  - `max` and `min` fold from the first selector value instead of from `-Infinity`/`+Infinity`, which gives the same result on a non-empty array;
  - `divide(0)` is modelled as never emitting until the end, which is what `(i + 1) % 0` being `NaN` does;
  - a negative `numElements` divides like its absolute value, as JavaScript's `%` takes the sign of the dividend.
- `keys`, `values` and `entries` return live `Map` iterators, and `ListMap.get` returns the stored array itself. Here they are snapshots, and aliasing through them is not modelled.
- Key and element equality is Dafny equality on the type. The source compares by SameValueZero and object identity in `Map` (countMap.ts, listMap.ts), in the `Set` that `distinct` builds (arrayExtensions.ts:105) and in the `includes` that `except` calls (arrayExtensions.ts:141).
- Generic keys are declared `(==,!new)`. That rules out keys that are heap objects of the model itself.
- The `Object.defineProperty` installation and its `== null` guards are not modelled, only the function bodies. The source installs the helpers on `Array` rather than `Array.prototype` (arrayExtensions.ts:83, 100 and onwards).
- The doc comment of `distinct` promises an ascending sort. The code does not sort, and the model follows the code: first-occurrence order.
- stringExtensions.ts and deepMutable.ts are not part of this model. The first wraps `String.split` and `parseInt`; the second is a compile-time type.
- `increamentFromArray` is named `IncrementFromArray` here. The loop of `merge` is a separate method, `IncrementEntries`.
- CountMaps.CountMap.Increment: its contract states the new table and order. The sum and positivity promises of `increment` are stated on the same update by the lemmas BumpSum and BumpPositive.
- CountMaps.CountMap.IncrementFromArray: its contract states the table, the order and every `get`. Its sum and positivity are stated by the lemmas AddEachSum and AddEachPositive.
- CountMaps.CountMap.IncrementEntries: its contract states the table, the order and the failure condition. Its sum and positivity are stated by AddEntriesSum and AddEntriesPositive. On failure the partly updated copy is discarded by `merge`, as in the source.
- CountMaps.EntriesOfRoundTrip: states the counters only. The key order of the rebuilt table is stated by Sequences.TracksOrder.
- CountMaps.CountMap.constructor: the array form does not check that counters are positive, as in the source. Positivity is a separate predicate that follows when every given counter is positive.
- ListMaps.ListMap.Add: lists are values here. The source's `new Map(iterable)` keeps the caller's arrays (listMap.ts:11) and `add` pushes onto the stored array in place (listMap.ts:34), so an array adopted from the constructor, shared between keys, or shared with another `ListMap` (for example one built from `entries()`) changes for every holder; the model does not capture that sharing, and `AddTo` leaves every other key's list unchanged.
- ListMaps.ListMap.constructor: the entries form stores copies of the given lists, not the caller's arrays (see ListMaps.ListMap.Add).
- CountMaps.CountMap.Get: states only that a non-zero result comes from a stored key. The exact value is its one-line body, and GetPositive and Values relate it to the table.

## Findings

| source | as written | input that shows it | evidently intended | confidence | as-written member | corrected member |
|---|---|---|---|---|---|---|
| mathExtensions.ts:33-39 | The recursive `enumCombin` call omits `isRepitision`, so only the first position may repeat | `enumarteCombination([1, 2, 3], 3, true)` yields 4 tuples and misses `[1, 1, 1]` | Combinations with repetition: C(n + k - 1, k) tuples, 10 here | not executed | MathExtensions.RepetitionFlagCounterexample | MathExtensions.EnumerateCombinationIntended |
