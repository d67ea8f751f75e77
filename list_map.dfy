/**
 * `ListMap<K, V>` (listMap.ts): a table from keys to lists of values that
 * grows one value at a time. The private JavaScript `Map` is the pair of
 * fields `lists` (key to list) and `order` (the keys in the order they were
 * first inserted, which is the order the `Map` iterates them).
 */
module ListMaps {
  import opened Wrappers
  import opened Sequences

  /** The list a table holds for `key`, or the empty list when it holds none. */
  function ListOf<K, V>(lists: map<K, seq<V>>, key: K): seq<V> {
    if key in lists then lists[key] else []
  }

  /**
   * The table after `add(key, value)`: `value` goes at the end of the list
   * of `key` (a missing key starts from the empty list), the earlier values
   * keep their order, and every other key keeps its list.
   */
  function AddTo<K, V>(lists: map<K, seq<V>>, key: K, value: V): (r: map<K, seq<V>>)
    ensures key in r && |r[key]| > 0
    ensures r[key][|r[key]| - 1] == value
    ensures r[key][..|r[key]| - 1] == ListOf(lists, key)
    ensures forall k :: k in lists && k != key ==> k in r && r[k] == lists[k]
    ensures forall k :: k in r ==> k in lists || k == key
  {
    var list := ListOf(lists, key) + [value];
    assert list[..|list| - 1] == ListOf(lists, key);
    lists[key := list]
  }

  /** The table after adding each pair's value under the pair's key, in list order. */
  function AddPairs<K, V>(lists: map<K, seq<V>>, pairs: seq<(K, V)>): map<K, seq<V>> {
    if pairs == [] then lists
    else
      var (key, value) := pairs[|pairs| - 1];
      AddTo(AddPairs(lists, pairs[..|pairs| - 1]), key, value)
  }

  /** The values of the pairs whose key is `key`, in list order. */
  function ValuesFor<K(==), V>(pairs: seq<(K, V)>, key: K): seq<V> {
    if pairs == [] then []
    else
      var (k, value) := pairs[|pairs| - 1];
      ValuesFor(pairs[..|pairs| - 1], key) + (if k == key then [value] else [])
  }

  /**
   * A run of `add` calls groups the values by key: each key's list gains
   * exactly the values added under that key, in the order they were added.
   */
  lemma {:induction false} AddPairsGroups<K, V>(lists: map<K, seq<V>>, pairs: seq<(K, V)>, key: K)
    ensures ListOf(AddPairs(lists, pairs), key) == ListOf(lists, key) + ValuesFor(pairs, key)
  {
    if pairs != [] {
      var prefix := pairs[..|pairs| - 1];
      AddPairsGroups(lists, prefix, key);
      var after := AddPairs(lists, pairs);
      if pairs[|pairs| - 1].0 == key {
        var list := after[key];
        assert list == list[..|list| - 1] + [list[|list| - 1]];
      }
    }
  }

  class ListMap<K(==,!new), V> {
    /** The list of every stored key. */
    var lists: map<K, seq<V>>
    /** The stored keys in insertion order. */
    var order: seq<K>

    /** `order` lists every stored key exactly once. */
    ghost predicate Valid()
      reads this
    {
      Tracks(lists, order)
    }

    /** `new ListMap()`. */
    constructor Empty()
      ensures Valid()
      ensures lists == map[] && order == []
    {
      lists := map[];
      order := [];
    }

    /**
     * `new ListMap(entries)`: the pairs are stored left to right, so the
     * last pair for a key gives its list and the first gives its place.
     */
    constructor FromEntries(entries: seq<(K, seq<V>)>)
      ensures Valid()
      ensures lists == EntryMap(entries)
      ensures order == FirstOccurrences(EntryKeys(entries))
    {
      lists := EntryMap(entries);
      order := FirstOccurrences(EntryKeys(entries));
      new;
      FirstOccurrencesDistinct(EntryKeys(entries));
      DistinctTracks(lists, order);
    }

    /** `get(key)`: the stored list, or nothing for a key that is not stored. */
    function Get(key: K): (r: Option<seq<V>>)
      reads this
      ensures r.None? <==> key !in lists
      ensures r.Some? ==> key in lists && r.value == lists[key]
    {
      if key in lists then Some(lists[key]) else None
    }

    /**
     * `add(key, value)`: a missing key first gets an empty list at the end
     * of the order; then `value` is pushed onto the key's list, and this
     * map is returned.
     */
    method Add(key: K, value: V) returns (r: ListMap<K, V>)
      requires Valid()
      modifies this
      ensures r == this && Valid()
      ensures lists == AddTo(old(lists), key, value)
      ensures order == AppendIfNew(old(order), key)
    {
      if key !in lists {
        SetTracks(lists, order, key, []);
        lists := lists[key := []];
        order := order + [key];
      }
      SetTracks(lists, order, key, lists[key] + [value]);
      lists := lists[key := lists[key] + [value]];
      r := this;
    }

    /** `entries()`, taken as a snapshot: each key with its list, in key order. */
    function Entries(): (es: seq<(K, seq<V>)>)
      reads this
      requires Valid()
      ensures EntryKeys(es) == order
      ensures forall i :: 0 <= i < |es| ==> es[i].0 in lists && es[i].1 == lists[es[i].0]
    {
      var es := seq(|order|, i requires 0 <= i < |order| && order[i] in lists reads this =>
        (order[i], lists[order[i]]));
      assert EntryKeys(es) == order;
      es
    }

    /** Building a `ListMap` from `entries()` gives back the same lists in the same order. */
    lemma EntriesRoundTrip()
      requires Valid()
      ensures EntryMap(Entries()) == lists
      ensures FirstOccurrences(EntryKeys(Entries())) == order
    {
      var es := Entries();
      TracksOrder(lists, order);
      TracksDistinct(lists, order);
      forall k | k in lists
        ensures k in EntryMap(es) && EntryMap(es)[k] == lists[k]
      {
        EntryMapDistinct(es, FirstIndex(order, k));
      }
    }
  }
}
