/**
 * `CountMap<T>` (countMap.ts): a table of counters keyed by item, in effect
 * a mutable multiset. The private JavaScript `Map` is the pair of fields
 * `counts` (key to counter) and `order` (the keys in the order the `Map`
 * iterates them, which is the order they were first inserted).
 */
module CountMaps {
  import opened Wrappers
  import opened Sequences
  import ArrayExtensions

  /** The errors `increment` and `decrement` throw, one per message. */
  datatype CountMapError =
    | InvalidSteps  // 'steps' should be a positive number.
    | KeyNotFound   // 'key' is not found.
    | StepsTooBig   // 'steps' is too big.

  /** The selector that sums counters as they are. */
  function Identity(x: int): int {
    x
  }

  /** The sum of a list of counters. */
  function SumOf(values: seq<int>): int {
    ArrayExtensions.Sum(values, Identity)
  }

  lemma SumOfSingle(v: int)
    ensures SumOf([v]) == v
  {
    assert [v][..0] == [];
    assert ArrayExtensions.Sum([v], Identity) == ArrayExtensions.Sum([v][..0], Identity) + Identity(v);
  }

  lemma SumOfStep(s: seq<int>, i: nat)
    requires i < |s|
    ensures SumOf(s[..i + 1]) == SumOf(s[..i]) + s[i]
  {
    assert s[..i + 1][..i] == s[..i];
  }

  /** Replacing one counter changes the sum by the difference. */
  lemma SumOfUpdate(s: seq<int>, j: nat, v: int)
    requires j < |s|
    ensures SumOf(s[j := v]) == SumOf(s) - s[j] + v
  {
    var before, after := s[..j], s[j + 1..];
    assert s == (before + [s[j]]) + after;
    assert s[j := v] == (before + [v]) + after;
    ArrayExtensions.SumAppend(before + [s[j]], after, Identity);
    ArrayExtensions.SumAppend(before, [s[j]], Identity);
    ArrayExtensions.SumAppend(before + [v], after, Identity);
    ArrayExtensions.SumAppend(before, [v], Identity);
    SumOfSingle(s[j]);
    SumOfSingle(v);
  }

  /** Cutting out one counter lowers the sum by that counter. */
  lemma SumOfRemove(s: seq<int>, j: nat)
    requires j < |s|
    ensures SumOf(s[..j] + s[j + 1..]) == SumOf(s) - s[j]
  {
    var before, after := s[..j], s[j + 1..];
    assert s == (before + [s[j]]) + after;
    ArrayExtensions.SumAppend(before + [s[j]], after, Identity);
    ArrayExtensions.SumAppend(before, [s[j]], Identity);
    ArrayExtensions.SumAppend(before, after, Identity);
    SumOfSingle(s[j]);
  }

  /** Positive whole counters add up to at least their number. */
  lemma {:induction false} SumOfPositive(s: seq<int>)
    requires forall i :: 0 <= i < |s| ==> s[i] > 0
    ensures SumOf(s) >= |s|
  {
    if s != [] {
      SumOfPositive(s[..|s| - 1]);
    }
  }

  /** `new Map(entries)` stores only counters that some pair carries. */
  lemma EntryMapPositive<T>(entries: seq<(T, int)>)
    requires forall i :: 0 <= i < |entries| ==> entries[i].1 > 0
    ensures forall k :: k in EntryMap(entries) ==> EntryMap(entries)[k] > 0
  {
    forall k | k in EntryMap(entries)
      ensures EntryMap(entries)[k] > 0
    {
      var i := EntryMapLastWins(entries, k);
    }
  }

  /** The counter a table reports for `key`: the stored one, or 0. */
  function CounterOf<T>(counts: map<T, int>, key: T): int {
    if key in counts then counts[key] else 0
  }

  /** The counters of `keys`, in that order. */
  function ValuesOf<T>(counts: map<T, int>, keys: seq<T>): (vs: seq<int>)
    ensures |vs| == |keys|
    ensures forall i :: 0 <= i < |keys| ==> vs[i] == CounterOf(counts, keys[i])
  {
    seq(|keys|, i requires 0 <= i < |keys| => CounterOf(counts, keys[i]))
  }

  /** `Map.set` moves the sum of the counters by the difference between the new and the old counter. */
  lemma SetSum<T>(counts: map<T, int>, keys: seq<T>, key: T, value: int)
    requires Tracks(counts, keys)
    ensures SumOf(ValuesOf(counts[key := value], AppendIfNew(keys, key)))
         == SumOf(ValuesOf(counts, keys)) - CounterOf(counts, key) + value
  {
    var values := ValuesOf(counts, keys);
    if key in counts {
      assert AppendIfNew(keys, key) == keys;
      TracksDistinct(counts, keys);
      var j := FirstIndex(keys, key);
      assert ValuesOf(counts[key := value], keys) == values[j := value];
      SumOfUpdate(values, j, value);
    } else {
      assert AppendIfNew(keys, key) == keys + [key];
      assert ValuesOf(counts[key := value], keys + [key]) == values + [value];
      ArrayExtensions.SumAppend(values, [value], Identity);
      SumOfSingle(value);
    }
  }

  /** `Map.delete` lowers the sum of the counters by the deleted counter. */
  lemma DeleteSum<T>(counts: map<T, int>, keys: seq<T>, j: nat)
    requires Tracks(counts, keys) && j < |keys|
    ensures SumOf(ValuesOf(counts - {keys[j]}, keys[..j] + keys[j + 1..]))
         == SumOf(ValuesOf(counts, keys)) - CounterOf(counts, keys[j])
  {
    DeleteTracks(counts, keys, j);
    var values := ValuesOf(counts, keys);
    var rest := keys[..j] + keys[j + 1..];
    var removed := counts - {keys[j]};
    forall i | 0 <= i < |rest|
      ensures CounterOf(removed, rest[i]) == CounterOf(counts, rest[i])
    {
      assert rest[i] in removed;
    }
    ValuesOfSame(removed, counts, rest);
    ValuesOfConcat(counts, keys[..j], keys[j + 1..]);
    assert ValuesOf(counts, keys[..j]) == values[..j];
    assert ValuesOf(counts, keys[j + 1..]) == values[j + 1..];
    SumOfRemove(values, j);
  }

  /** Two tables that agree on the listed keys list the same counters. */
  lemma ValuesOfSame<T>(counts: map<T, int>, other: map<T, int>, keys: seq<T>)
    requires forall i :: 0 <= i < |keys| ==> CounterOf(counts, keys[i]) == CounterOf(other, keys[i])
    ensures ValuesOf(counts, keys) == ValuesOf(other, keys)
  {
  }

  /** The counters of two key lists one after the other. */
  lemma ValuesOfConcat<T>(counts: map<T, int>, a: seq<T>, b: seq<T>)
    ensures ValuesOf(counts, a + b) == ValuesOf(counts, a) + ValuesOf(counts, b)
  {
  }

  /** The table after raising the counter of `key` by `steps` (a missing key starts from 0). */
  function Bump<T>(counts: map<T, int>, key: T, steps: int): map<T, int> {
    counts[key := CounterOf(counts, key) + steps]
  }

  /** Raising one counter by `steps` raises the sum of the counters by `steps`. */
  lemma BumpSum<T>(counts: map<T, int>, keys: seq<T>, key: T, steps: int)
    requires Tracks(counts, keys)
    ensures SumOf(ValuesOf(Bump(counts, key, steps), AppendIfNew(keys, key)))
         == SumOf(ValuesOf(counts, keys)) + steps
  {
    SetSum(counts, keys, key, CounterOf(counts, key) + steps);
  }

  /** Every key of `keys` has a strictly positive counter in `counts`. */
  ghost predicate AllPositive<T>(counts: map<T, int>, keys: seq<T>) {
    forall i :: 0 <= i < |keys| ==> CounterOf(counts, keys[i]) > 0
  }

  /** Storing a positive counter keeps every counter positive. */
  lemma SetPositive<T>(counts: map<T, int>, keys: seq<T>, key: T, value: int)
    requires Tracks(counts, keys) && AllPositive(counts, keys) && value > 0
    ensures AllPositive(counts[key := value], AppendIfNew(keys, key))
  {
    var stored := counts[key := value];
    if key in keys {
      assert AppendIfNew(keys, key) == keys;
      forall i | 0 <= i < |keys|
        ensures CounterOf(stored, keys[i]) > 0
      {
        assert CounterOf(counts, keys[i]) > 0;
      }
    } else {
      var after := keys + [key];
      assert AppendIfNew(keys, key) == after;
      forall i | 0 <= i < |after|
        ensures CounterOf(stored, after[i]) > 0
      {
        if i < |keys| {
          assert after[i] == keys[i] && keys[i] != key;
          assert CounterOf(counts, keys[i]) > 0;
        }
      }
    }
  }

  /** Raising one counter by a positive amount keeps every counter positive. */
  lemma BumpPositive<T>(counts: map<T, int>, keys: seq<T>, key: T, steps: int)
    requires Tracks(counts, keys) && AllPositive(counts, keys) && steps > 0
    ensures AllPositive(Bump(counts, key, steps), AppendIfNew(keys, key))
  {
    if key in keys {
      var j := FirstIndex(keys, key);
      assert CounterOf(counts, keys[j]) > 0;
    }
    SetPositive(counts, keys, key, CounterOf(counts, key) + steps);
  }

  /** Deleting a key keeps every remaining counter positive. */
  lemma DeletePositive<T>(counts: map<T, int>, keys: seq<T>, j: nat)
    requires Tracks(counts, keys) && AllPositive(counts, keys) && j < |keys|
    ensures AllPositive(counts - {keys[j]}, keys[..j] + keys[j + 1..])
  {
    DeleteTracks(counts, keys, j);
    var rest := keys[..j] + keys[j + 1..];
    forall i | 0 <= i < |rest|
      ensures CounterOf(counts - {keys[j]}, rest[i]) > 0
    {
      var from := if i < j then i else i + 1;
      assert rest[i] == keys[from];
      assert CounterOf(counts, keys[from]) > 0;
    }
  }

  /** The key order after `Map.delete` is the old order without the key. */
  lemma DeleteOrder<T>(counts: map<T, int>, keys: seq<T>, j: nat)
    requires Tracks(counts, keys) && j < |keys|
    ensures ArrayExtensions.Except(keys, [keys[j]]) == keys[..j] + keys[j + 1..]
  {
    TracksDistinct(counts, keys);
    ArrayExtensions.ExceptOne(keys, j);
  }

  /** The table after one increment per item, taken in item order. */
  function AddEach<T>(counts: map<T, int>, items: seq<T>): map<T, int> {
    if items == [] then counts
    else
      var prior := AddEach(counts, items[..|items| - 1]);
      var x := items[|items| - 1];
      Bump(prior, x, 1)
  }

  lemma AddEachStep<T>(counts: map<T, int>, items: seq<T>, i: nat)
    requires i < |items|
    ensures AddEach(counts, items[..i + 1]) == Bump(AddEach(counts, items[..i]), items[i], 1)
  {
    assert items[..i + 1][..i] == items[..i];
  }

  /** One increment per item raises each counter by the number of occurrences of its key. */
  lemma {:induction false} AddEachCounts<T>(counts: map<T, int>, items: seq<T>, k: T)
    ensures CounterOf(AddEach(counts, items), k) == CounterOf(counts, k) + multiset(items)[k]
  {
    if items != [] {
      var prefix := items[..|items| - 1];
      AddEachCounts(counts, prefix, k);
      assert items == prefix + [items[|items| - 1]];
    }
  }

  /** One increment per item keeps the pair tracked, with new keys in first-occurrence order. */
  lemma {:induction false} AddEachTracked<T>(counts: map<T, int>, keys: seq<T>, items: seq<T>)
    requires Tracks(counts, keys)
    ensures Tracks(AddEach(counts, items), FirstOccurrences(keys + items))
  {
    if items == [] {
      assert keys + items == keys;
      TracksOrder(counts, keys);
    } else {
      var n := |items| - 1;
      AddEachTracked(counts, keys, items[..n]);
      AddEachStep(counts, items, n);
      FirstOccurrencesStep(keys, items, n);
      assert items[..n + 1] == items;
      var prior := AddEach(counts, items[..n]);
      SetTracks(prior, FirstOccurrences(keys + items[..n]), items[n], CounterOf(prior, items[n]) + 1);
    }
  }

  /** One increment per item raises the sum of the counters by the number of items. */
  lemma {:induction false} AddEachSum<T>(counts: map<T, int>, keys: seq<T>, items: seq<T>)
    requires Tracks(counts, keys)
    ensures SumOf(ValuesOf(AddEach(counts, items), FirstOccurrences(keys + items)))
         == SumOf(ValuesOf(counts, keys)) + |items|
  {
    if items == [] {
      assert keys + items == keys;
      TracksOrder(counts, keys);
    } else {
      var n := |items| - 1;
      AddEachSum(counts, keys, items[..n]);
      AddEachTracked(counts, keys, items[..n]);
      AddEachSumStep(counts, keys, items, n);
    }
  }

  lemma AddEachSumStep<T>(counts: map<T, int>, keys: seq<T>, items: seq<T>, n: nat)
    requires n + 1 == |items|
    requires Tracks(AddEach(counts, items[..n]), FirstOccurrences(keys + items[..n]))
    ensures SumOf(ValuesOf(AddEach(counts, items), FirstOccurrences(keys + items)))
         == SumOf(ValuesOf(AddEach(counts, items[..n]), FirstOccurrences(keys + items[..n]))) + 1
  {
    AddEachStep(counts, items, n);
    FirstOccurrencesStep(keys, items, n);
    assert items[..n + 1] == items;
    BumpSum(AddEach(counts, items[..n]), FirstOccurrences(keys + items[..n]), items[n], 1);
  }

  /** One increment per item keeps every counter positive. */
  lemma {:induction false} AddEachPositive<T>(counts: map<T, int>, keys: seq<T>, items: seq<T>)
    requires Tracks(counts, keys) && AllPositive(counts, keys)
    ensures AllPositive(AddEach(counts, items), FirstOccurrences(keys + items))
  {
    if items == [] {
      assert keys + items == keys;
      TracksOrder(counts, keys);
    } else {
      var n := |items| - 1;
      AddEachPositive(counts, keys, items[..n]);
      AddEachTracked(counts, keys, items[..n]);
      AddEachStep(counts, items, n);
      FirstOccurrencesStep(keys, items, n);
      assert items[..n + 1] == items;
      BumpPositive(AddEach(counts, items[..n]), FirstOccurrences(keys + items[..n]), items[n], 1);
    }
  }

  /** The table after incrementing each pair's key by the pair's counter, in list order. */
  function AddEntries<T>(counts: map<T, int>, entries: seq<(T, int)>): map<T, int> {
    if entries == [] then counts
    else
      var prior := AddEntries(counts, entries[..|entries| - 1]);
      var (key, steps) := entries[|entries| - 1];
      Bump(prior, key, steps)
  }

  /** The counters of a list of key-value pairs, in list order. */
  function EntryValues<T>(entries: seq<(T, int)>): (vs: seq<int>)
    ensures |vs| == |entries|
    ensures forall i :: 0 <= i < |entries| ==> vs[i] == entries[i].1
  {
    seq(|entries|, i requires 0 <= i < |entries| => entries[i].1)
  }

  lemma AddEntriesStep<T>(counts: map<T, int>, entries: seq<(T, int)>, i: nat)
    requires i < |entries|
    ensures AddEntries(counts, entries[..i + 1]) ==
      Bump(AddEntries(counts, entries[..i]), entries[i].0, entries[i].1)
  {
    assert entries[..i + 1][..i] == entries[..i];
  }

  /**
   * When no key repeats, adding the pairs one by one gives every key its
   * own counter plus the counter the pairs name for it.
   */
  lemma {:induction false} AddEntriesCounts<T>(counts: map<T, int>, entries: seq<(T, int)>, k: T)
    requires NoDuplicates(EntryKeys(entries))
    ensures CounterOf(AddEntries(counts, entries), k) == CounterOf(counts, k) + CounterOf(EntryMap(entries), k)
  {
    if entries != [] {
      var n := |entries| - 1;
      var prefix := entries[..n];
      assert EntryKeys(prefix) == EntryKeys(entries)[..n];
      AddEntriesCounts(counts, prefix, k);
      if entries[n].0 == k {
        assert k !in EntryKeys(prefix);
      }
    }
  }

  /** The keys and the keys of one more pair: the last pair's key follows the others. */
  lemma EntryKeysStep<T>(keys: seq<T>, entries: seq<(T, int)>, n: nat)
    requires n + 1 == |entries|
    ensures FirstOccurrences(keys + EntryKeys(entries))
         == AppendIfNew(FirstOccurrences(keys + EntryKeys(entries[..n])), entries[n].0)
    ensures entries[..n + 1] == entries
  {
    assert EntryKeys(entries[..n]) == EntryKeys(entries)[..n];
    FirstOccurrencesStep(keys, EntryKeys(entries), n);
    assert EntryKeys(entries)[..n + 1] == EntryKeys(entries);
  }

  /** Incrementing by each pair in turn keeps the pair tracked, with new keys in first-occurrence order. */
  lemma {:induction false} AddEntriesTracked<T>(counts: map<T, int>, keys: seq<T>, entries: seq<(T, int)>)
    requires Tracks(counts, keys)
    ensures Tracks(AddEntries(counts, entries), FirstOccurrences(keys + EntryKeys(entries)))
  {
    if entries == [] {
      assert keys + EntryKeys(entries) == keys;
      TracksOrder(counts, keys);
    } else {
      var n := |entries| - 1;
      var prefix := entries[..n];
      AddEntriesTracked(counts, keys, prefix);
      AddEntriesStep(counts, entries, n);
      EntryKeysStep(keys, entries, n);
      var prior := AddEntries(counts, prefix);
      SetTracks(prior, FirstOccurrences(keys + EntryKeys(prefix)), entries[n].0,
        CounterOf(prior, entries[n].0) + entries[n].1);
    }
  }

  /** Incrementing by each pair in turn raises the sum of the counters by the pairs' counters. */
  lemma {:induction false} AddEntriesSum<T>(counts: map<T, int>, keys: seq<T>, entries: seq<(T, int)>)
    requires Tracks(counts, keys)
    ensures SumOf(ValuesOf(AddEntries(counts, entries), FirstOccurrences(keys + EntryKeys(entries))))
         == SumOf(ValuesOf(counts, keys)) + SumOf(EntryValues(entries))
  {
    if entries == [] {
      assert keys + EntryKeys(entries) == keys;
      TracksOrder(counts, keys);
    } else {
      var n := |entries| - 1;
      var prefix := entries[..n];
      AddEntriesSum(counts, keys, prefix);
      AddEntriesTracked(counts, keys, prefix);
      AddEntriesSumStep(counts, keys, entries, n);
      assert EntryValues(prefix) == EntryValues(entries)[..n];
      SumOfStep(EntryValues(entries), n);
      assert EntryValues(entries)[..n + 1] == EntryValues(entries);
    }
  }

  lemma AddEntriesSumStep<T>(counts: map<T, int>, keys: seq<T>, entries: seq<(T, int)>, n: nat)
    requires n + 1 == |entries|
    requires Tracks(AddEntries(counts, entries[..n]), FirstOccurrences(keys + EntryKeys(entries[..n])))
    ensures SumOf(ValuesOf(AddEntries(counts, entries), FirstOccurrences(keys + EntryKeys(entries))))
         == SumOf(ValuesOf(AddEntries(counts, entries[..n]), FirstOccurrences(keys + EntryKeys(entries[..n]))))
            + entries[n].1
  {
    AddEntriesStep(counts, entries, n);
    EntryKeysStep(keys, entries, n);
    BumpSum(AddEntries(counts, entries[..n]), FirstOccurrences(keys + EntryKeys(entries[..n])), entries[n].0, entries[n].1);
  }

  /** Incrementing by each pair in turn keeps every counter positive when the pairs' counters are. */
  lemma {:induction false} AddEntriesPositive<T>(counts: map<T, int>, keys: seq<T>, entries: seq<(T, int)>)
    requires Tracks(counts, keys) && AllPositive(counts, keys)
    requires forall i :: 0 <= i < |entries| ==> entries[i].1 > 0
    ensures AllPositive(AddEntries(counts, entries), FirstOccurrences(keys + EntryKeys(entries)))
  {
    if entries == [] {
      assert keys + EntryKeys(entries) == keys;
      TracksOrder(counts, keys);
    } else {
      var n := |entries| - 1;
      var prefix := entries[..n];
      AddEntriesPositive(counts, keys, prefix);
      AddEntriesTracked(counts, keys, prefix);
      AddEntriesStep(counts, entries, n);
      EntryKeysStep(keys, entries, n);
      BumpPositive(AddEntries(counts, prefix), FirstOccurrences(keys + EntryKeys(prefix)), entries[n].0, entries[n].1);
    }
  }

  /** Each key of `keys` paired with its counter, in key order. */
  function EntriesOf<T>(counts: map<T, int>, keys: seq<T>): (es: seq<(T, int)>)
    ensures EntryKeys(es) == keys
    ensures EntryValues(es) == ValuesOf(counts, keys)
  {
    var es := seq(|keys|, i requires 0 <= i < |keys| => (keys[i], CounterOf(counts, keys[i])));
    assert EntryKeys(es) == keys;
    assert EntryValues(es) == ValuesOf(counts, keys);
    es
  }

  /** Every pair carries a strictly positive counter. */
  ghost predicate StepsPositive<T>(entries: seq<(T, int)>) {
    forall i :: 0 <= i < |entries| ==> entries[i].1 > 0
  }

  /** Building a table from the listed pairs gives back the same counters in the same order. */
  lemma EntriesOfRoundTrip<T>(counts: map<T, int>, keys: seq<T>)
    requires Tracks(counts, keys)
    ensures EntryMap(EntriesOf(counts, keys)) == counts
  {
    TracksDistinct(counts, keys);
    var stored := EntryMap(EntriesOf(counts, keys));
    assert forall k :: k in stored ==> k in counts;
    forall k | k in counts
      ensures k in stored && stored[k] == counts[k]
    {
      EntriesOfStored(counts, keys, FirstIndex(keys, k));
    }
  }

  /** A key listed once is stored with its own counter. */
  lemma EntriesOfStored<T>(counts: map<T, int>, keys: seq<T>, i: nat)
    requires NoDuplicates(keys) && i < |keys| && keys[i] in counts
    ensures EntryMap(EntriesOf(counts, keys))[keys[i]] == counts[keys[i]]
  {
    var es := EntriesOf(counts, keys);
    assert es[i].0 == EntryKeys(es)[i] && es[i].1 == EntryValues(es)[i];
    EntryMapDistinct(es, i);
  }

  /** The listed pairs all carry positive counters exactly when every stored counter is positive. */
  lemma EntriesOfPositive<T>(counts: map<T, int>, keys: seq<T>)
    requires Tracks(counts, keys)
    ensures StepsPositive(EntriesOf(counts, keys)) <==> forall k :: k in counts ==> counts[k] > 0
    ensures StepsPositive(EntriesOf(counts, keys)) <==> AllPositive(counts, keys)
  {
    var es := EntriesOf(counts, keys);
    if StepsPositive(es) {
      forall k | k in counts
        ensures counts[k] > 0
      {
        var i := FirstIndex(keys, k);
        assert es[i].1 == counts[k];
      }
    }
  }

  /** Adding another table's pairs gives every key the sum of its two counters. */
  lemma MergeCounts<T>(counts: map<T, int>, other: map<T, int>, otherKeys: seq<T>, k: T)
    requires Tracks(other, otherKeys)
    ensures CounterOf(AddEntries(counts, EntriesOf(other, otherKeys)), k) == CounterOf(counts, k) + CounterOf(other, k)
  {
    TracksDistinct(other, otherKeys);
    EntriesOfRoundTrip(other, otherKeys);
    AddEntriesCounts(counts, EntriesOf(other, otherKeys), k);
  }

  /** Adding another table's pairs adds up the two sums of counters. */
  lemma MergeSum<T>(counts: map<T, int>, keys: seq<T>, other: map<T, int>, otherKeys: seq<T>)
    requires Tracks(counts, keys)
    ensures SumOf(ValuesOf(AddEntries(counts, EntriesOf(other, otherKeys)), FirstOccurrences(keys + otherKeys)))
         == SumOf(ValuesOf(counts, keys)) + SumOf(ValuesOf(other, otherKeys))
  {
    AddEntriesSum(counts, keys, EntriesOf(other, otherKeys));
  }

  /** Adding another table's positive pairs to positive counters keeps them positive. */
  lemma MergePositive<T>(counts: map<T, int>, keys: seq<T>, other: map<T, int>, otherKeys: seq<T>)
    requires Tracks(counts, keys) && AllPositive(counts, keys)
    requires Tracks(other, otherKeys) && AllPositive(other, otherKeys)
    ensures AllPositive(AddEntries(counts, EntriesOf(other, otherKeys)), FirstOccurrences(keys + otherKeys))
  {
    EntriesOfPositive(other, otherKeys);
    AddEntriesPositive(counts, keys, EntriesOf(other, otherKeys));
  }

  class CountMap<T(==,!new)> {
    /** The counter of every stored key. */
    var counts: map<T, int>
    /** The stored keys in insertion order. */
    var order: seq<T>

    /** `order` lists every stored key exactly once. */
    ghost predicate Valid()
      reads this
    {
      Tracks(counts, order)
    }

    /**
     * Every stored counter is strictly positive, the invariant the
     * operations keep (stated over the key order, which lists every key).
     */
    ghost predicate Positive()
      reads this
    {
      AllPositive(counts, order)
    }

    /** `new CountMap()`. */
    constructor Empty()
      ensures Valid() && Positive()
      ensures counts == map[] && order == []
    {
      counts := map[];
      order := [];
    }

    /** `new CountMap(countMap)`: an independent copy with the same counters in the same order. */
    constructor Copy(other: CountMap<T>)
      requires other.Valid()
      ensures Valid()
      ensures counts == other.counts && order == other.order
      ensures other.Positive() ==> Positive()
    {
      counts := other.counts;
      order := other.order;
    }

    /**
     * `new CountMap(entries)`: the pairs are stored left to right, so the
     * last pair for a key gives its counter and the first gives its place.
     * The counters are not checked.
     */
    constructor FromEntries(entries: seq<(T, int)>)
      ensures Valid()
      ensures counts == EntryMap(entries)
      ensures order == FirstOccurrences(EntryKeys(entries))
      ensures (forall i :: 0 <= i < |entries| ==> entries[i].1 > 0) ==> Positive()
    {
      counts := EntryMap(entries);
      order := FirstOccurrences(EntryKeys(entries));
      new;
      FirstOccurrencesDistinct(EntryKeys(entries));
      DistinctTracks(counts, order);
      if forall i :: 0 <= i < |entries| ==> entries[i].1 > 0 {
        EntryMapPositive(entries);
      }
    }

    /** `get(key)`: the stored counter, or 0 for a key that is not stored. */
    function Get(key: T): (r: int)
      reads this
      ensures r != 0 ==> key in counts
    {
      CounterOf(counts, key)
    }

    /** While every counter is positive, a key is stored exactly when its counter is positive. */
    lemma GetPositive(key: T)
      requires Valid() && Positive()
      ensures Get(key) > 0 <==> key in counts
    {
    }

    /** `keys()`, taken as a snapshot: every stored key once, in insertion order. */
    function Keys(): (ks: seq<T>)
      reads this
      requires Valid()
      ensures NoDuplicates(ks)
      ensures forall k :: k in ks ==> k in counts
      ensures forall k :: k in counts ==> k in ks
    {
      TracksDistinct(counts, order);
      order
    }

    /** `values()`, taken as a snapshot: the counter of each key, in key order. */
    function Values(): (vs: seq<int>)
      reads this
      requires Valid()
      ensures |vs| == |order|
      ensures forall i :: 0 <= i < |vs| ==> vs[i] == Get(order[i])
    {
      ValuesOf(counts, order)
    }

    /** `entries()`, taken as a snapshot: each key with its counter, in key order. */
    function Entries(): (es: seq<(T, int)>)
      reads this
      requires Valid()
      ensures EntryKeys(es) == order
      ensures forall i :: 0 <= i < |es| ==> es[i].1 == Get(es[i].0)
    {
      EntriesOf(counts, order)
    }

    /** The sum of all stored counters, which `sum()` computes. */
    ghost function Total(): int
      reads this
      requires Valid()
    {
      SumOf(Values())
    }

    /** `size`: the number of stored keys (not the sum of the counters). */
    function Size(): (n: nat)
      reads this
      requires Valid()
      ensures n == |order|
    {
      |counts|
    }

    /** `sum()`: adds up the counters one by one. */
    method Sum() returns (sum: int)
      requires Valid()
      ensures sum == Total()
    {
      sum := 0;
      var values := Values();
      for i := 0 to |values|
        invariant sum == SumOf(values[..i])
      {
        assert values[..i + 1][..i] == values[..i];
        sum := sum + values[i];
      }
      assert values[..|values|] == values;
    }

    /** With positive counters there are never more keys than the counters add up to. */
    lemma SizeAtMostTotal()
      requires Valid() && Positive()
      ensures Size() <= Total()
    {
      SumOfPositive(Values());
    }

    /** The underlying `Map.set`: a new key goes last, a stored key keeps its place. */
    method Set(key: T, value: int)
      requires Valid()
      modifies this
      ensures Valid()
      ensures counts == old(counts)[key := value]
      ensures order == AppendIfNew(old(order), key)
      ensures Total() == old(Total()) - old(Get(key)) + value
      ensures old(Positive()) && value > 0 ==> Positive()
    {
      SetTracks(counts, order, key, value);
      SetSum(counts, order, key, value);
      if Positive() && value > 0 {
        SetPositive(counts, order, key, value);
      }
      if key !in counts {
        order := order + [key];
      }
      counts := counts[key := value];
    }

    /** The underlying `Map.delete`: the key leaves both the table and the order. */
    method Delete(key: T)
      requires Valid() && key in counts
      modifies this
      ensures Valid()
      ensures counts == old(counts) - {key}
      ensures order == ArrayExtensions.Except(old(order), [key])
      ensures Total() == old(Total()) - old(Get(key))
      ensures old(Positive()) ==> Positive()
    {
      var j := FirstIndex(order, key);
      DeleteTracks(counts, order, j);
      DeleteOrder(counts, order, j);
      DeleteSum(counts, order, j);
      if Positive() {
        DeletePositive(counts, order, j);
      }
      counts := counts - {key};
      order := order[..j] + order[j + 1..];
    }

    /**
     * `increment(key, steps)`: rejects a non-positive `steps` before any
     * change; otherwise raises the counter of `key` by `steps` (a missing
     * or zero counter starts from `steps`) and returns this map.
     */
    method Increment(key: T, steps: int := 1) returns (r: Result<CountMap<T>, CountMapError>)
      requires Valid()
      modifies this
      ensures Valid()
      ensures steps <= 0 ==> r == Failure(InvalidSteps) && counts == old(counts) && order == old(order)
      ensures steps > 0 ==> r == Success(this)
      ensures steps > 0 ==> counts == Bump(old(counts), key, steps)
      ensures steps > 0 ==> order == AppendIfNew(old(order), key)
    {
      if steps <= 0 {
        return Failure(InvalidSteps);
      }
      var count: Option<int> := if key in counts then Some(counts[key]) else None;
      Set(key, if count.Some? && count.value != 0 then count.value + steps else steps);
      r := Success(this);
    }

    /**
     * `increamentFromArray(array)`: increments once per item, so each
     * counter rises by the number of occurrences of its key, and new keys
     * join in the order they first occur.
     */
    method IncrementFromArray(items: seq<T>) returns (r: CountMap<T>)
      requires Valid()
      modifies this
      ensures r == this && Valid()
      ensures counts == AddEach(old(counts), items)
      ensures order == FirstOccurrences(old(order) + items)
      ensures forall k :: Get(k) == old(Get(k)) + multiset(items)[k]
    {
      ghost var start, startOrder := counts, order;
      TracksOrder(counts, order);
      assert startOrder + items[..0] == startOrder;
      for i := 0 to |items|
        invariant Valid()
        invariant counts == AddEach(start, items[..i])
        invariant order == FirstOccurrences(startOrder + items[..i])
      {
        AddEachStep(start, items, i);
        FirstOccurrencesStep(startOrder, items, i);
        var _ := Increment(items[i]);
      }
      assert items[..|items|] == items;
      forall k
        ensures Get(k) == old(Get(k)) + multiset(items)[k]
      {
        AddEachCounts(start, items, k);
      }
      r := this;
    }

    /**
     * `decrement(key, steps)`: rejects, before any change, a non-positive
     * `steps`, a key whose counter is missing or zero, and a `steps` larger
     * than the counter; otherwise lowers the counter by `steps`, deleting
     * the key when the counter reaches zero, and returns this map.
     */
    method Decrement(key: T, steps: int := 1) returns (r: Result<CountMap<T>, CountMapError>)
      requires Valid()
      modifies this
      ensures Valid()
      ensures r == Failure(InvalidSteps) <==> steps <= 0
      ensures r == Failure(KeyNotFound) <==> steps > 0 && old(Get(key)) == 0
      ensures r == Failure(StepsTooBig) <==> steps > 0 && old(Get(key)) != 0 && old(Get(key)) < steps
      ensures r.Failure? ==> counts == old(counts) && order == old(order)
      ensures r.Success? ==> r.value == this
      ensures r.Success? && old(Get(key)) == steps ==>
        counts == old(counts) - {key} && order == ArrayExtensions.Except(old(order), [key])
      ensures r.Success? && old(Get(key)) == steps ==> Size() == old(Size()) - 1 && key !in Keys()
      ensures r.Success? && old(Get(key)) != steps ==>
        counts == Bump(old(counts), key, -steps) && order == old(order)
      ensures r.Success? ==> Total() == old(Total()) - steps
      ensures old(Positive()) ==> Positive()
    {
      if steps <= 0 {
        return Failure(InvalidSteps);
      }
      var count: Option<int> := if key in counts then Some(counts[key]) else None;
      if count.None? || count.value == 0 {
        return Failure(KeyNotFound);
      }
      var newCount := count.value - steps;
      if newCount == 0 {
        Delete(key);
      } else if newCount < 0 {
        return Failure(StepsTooBig);
      } else {
        Set(key, newCount);
      }
      r := Success(this);
    }

    /**
     * The loop of `merge`: increments each pair's key by the pair's counter,
     * in list order, and stops at the first counter that is not positive.
     */
    method IncrementEntries(entries: seq<(T, int)>) returns (r: Result<CountMap<T>, CountMapError>)
      requires Valid()
      modifies this
      ensures Valid()
      ensures r.Failure? <==> !StepsPositive(entries)
      ensures r.Failure? ==> r.error == InvalidSteps
      ensures r.Success? ==> r.value == this
      ensures r.Success? ==> counts == AddEntries(old(counts), entries)
      ensures r.Success? ==> order == FirstOccurrences(old(order) + EntryKeys(entries))
    {
      ghost var start, startOrder := counts, order;
      TracksOrder(counts, order);
      assert startOrder + EntryKeys(entries[..0]) == startOrder;
      for i := 0 to |entries|
        invariant Valid()
        invariant forall j :: 0 <= j < i ==> entries[j].1 > 0
        invariant counts == AddEntries(start, entries[..i])
        invariant order == FirstOccurrences(startOrder + EntryKeys(entries[..i]))
      {
        AddEntriesStep(start, entries, i);
        assert entries[..i + 1][..i] == entries[..i];
        EntryKeysStep(startOrder, entries[..i + 1], i);
        var step := Increment(entries[i].0, entries[i].1);
        if step.Failure? {
          assert entries[i].1 <= 0;
          return Failure(step.error);
        }
        assert entries[i].1 > 0;
        assert forall j :: 0 <= j < i + 1 ==> entries[j].1 > 0;
      }
      assert entries[..|entries|] == entries;
      r := Success(this);
    }

    /**
     * `merge(other)`: a new map holding, for every key, the sum of both
     * counters; this map and `other` are left as they were. It fails as
     * `increment` does when `other` holds a counter that is not positive.
     */
    method Merge(other: CountMap<T>) returns (r: Result<CountMap<T>, CountMapError>)
      requires Valid() && other.Valid()
      ensures r.Failure? <==> exists k :: k in other.counts && other.counts[k] <= 0
      ensures r.Failure? ==> r.error == InvalidSteps
      ensures r.Success? ==> fresh(r.value) && r.value.Valid()
      ensures r.Success? ==> forall k :: r.value.Get(k) == Get(k) + other.Get(k)
      ensures r.Success? ==> r.value.order == FirstOccurrences(order + other.order)
      ensures r.Success? ==> r.value.Total() == Total() + other.Total()
      ensures r.Success? && Positive() ==> r.value.Positive()
    {
      var newMap := new CountMap.Copy(this);
      var added := newMap.IncrementEntries(other.Entries());
      EntriesOfPositive(other.counts, other.order);
      if added.Failure? {
        return Failure(added.error);
      }
      forall k
        ensures newMap.Get(k) == Get(k) + other.Get(k)
      {
        MergeCounts(counts, other.counts, other.order, k);
      }
      MergeSum(counts, order, other.counts, other.order);
      if Positive() {
        MergePositive(counts, order, other.counts, other.order);
      }
      r := Success(newMap);
    }
  }
}
