/**
 * Sequence notions shared by the collections: duplicate-freedom, the
 * first-occurrence order that JavaScript's Set and Map iterate in, a table
 * together with the order its keys were inserted in, and the map that
 * `new Map(entries)` builds from a list of key-value pairs.
 */
module Sequences {

  /** No element occurs twice. */
  predicate NoDuplicates<T(==)>(s: seq<T>) {
    forall i, j :: 0 <= i < j < |s| ==> s[i] != s[j]
  }

  /** The elements of `s`, each kept at its first occurrence. */
  function FirstOccurrences<T(==)>(s: seq<T>): (r: seq<T>)
    ensures forall x :: x in r ==> x in s
    ensures forall x :: x in s ==> x in r
    ensures |r| <= |s|
  {
    if s == [] then []
    else
      var prefix := FirstOccurrences(s[..|s| - 1]);
      assert s == s[..|s| - 1] + [s[|s| - 1]];
      AppendIfNew(prefix, s[|s| - 1])
  }

  /** No element occurs twice in the first-occurrence order. */
  lemma {:induction false} FirstOccurrencesDistinct<T>(s: seq<T>)
    ensures NoDuplicates(FirstOccurrences(s))
  {
    if s != [] {
      var prefix := s[..|s| - 1];
      FirstOccurrencesDistinct(prefix);
    }
  }

  /** `s` with `x` added at the end unless it already occurs: how a new key joins an insertion order. */
  function AppendIfNew<T(==)>(s: seq<T>, x: T): (r: seq<T>)
    ensures x in r
    ensures forall y :: y in s ==> y in r
    ensures forall y :: y in r ==> y in s || y == x
  {
    if x in s then s else s + [x]
  }

  /** Appending one element extends the first occurrences only when the element is new. */
  lemma FirstOccurrencesSnoc<T>(s: seq<T>, x: T)
    ensures FirstOccurrences(s + [x]) == AppendIfNew(FirstOccurrences(s), x)
  {
    assert (s + [x])[..|s + [x]| - 1] == s;
  }

  /** One more element of `items` after `base` extends the first occurrences when it is new. */
  lemma FirstOccurrencesStep<T>(base: seq<T>, items: seq<T>, i: nat)
    requires i < |items|
    ensures FirstOccurrences(base + items[..i + 1]) ==
      AppendIfNew(FirstOccurrences(base + items[..i]), items[i])
  {
    assert base + items[..i + 1] == (base + items[..i]) + [items[i]];
    FirstOccurrencesSnoc(base + items[..i], items[i]);
  }

  /** A duplicate-free sequence is its own first-occurrence order. */
  lemma {:induction false} FirstOccurrencesOfDistinct<T>(s: seq<T>)
    requires NoDuplicates(s)
    ensures FirstOccurrences(s) == s
  {
    if s != [] {
      var prefix := s[..|s| - 1];
      FirstOccurrencesOfDistinct(prefix);
      FirstOccurrencesSnoc(prefix, s[|s| - 1]);
      assert s == prefix + [s[|s| - 1]];
    }
  }

  /** Cutting one position out of a duplicate-free sequence removes exactly that element. */
  lemma RemoveAtDistinct<T>(s: seq<T>, j: nat)
    requires NoDuplicates(s) && j < |s|
    ensures NoDuplicates(s[..j] + s[j + 1..])
    ensures forall x :: x in s[..j] + s[j + 1..] <==> x in s && x != s[j]
  {
    var rest := s[..j] + s[j + 1..];
    assert forall i :: 0 <= i < |rest| ==> rest[i] == s[if i < j then i else i + 1];
    forall x | x in s && x != s[j]
      ensures x in rest
    {
      var i :| 0 <= i < |s| && s[i] == x;
      assert rest[if i < j then i else i - 1] == x;
    }
  }

  /** The position of the first occurrence of `x` in `s`. */
  function FirstIndex<T(==)>(s: seq<T>, x: T): (i: nat)
    requires x in s
    ensures i < |s| && s[i] == x
    ensures forall j :: 0 <= j < i ==> s[j] != x
  {
    if s[0] == x then 0 else 1 + FirstIndex(s[1..], x)
  }

  /** A duplicate-free sequence has as many elements as its set. */
  lemma {:induction false} NoDuplicatesCardinality<T>(s: seq<T>)
    requires NoDuplicates(s)
    ensures |set x | x in s| == |s|
  {
    if s != [] {
      var prefix := s[..|s| - 1];
      NoDuplicatesCardinality(prefix);
      assert s == prefix + [s[|s| - 1]];
      assert (set x | x in s) == (set x | x in prefix) + {s[|s| - 1]};
    }
  }

  /** A sequence has at most as many distinct elements as positions. */
  lemma {:induction false} CardinalityAtMost<T>(s: seq<T>)
    ensures |set x | x in s| <= |s|
  {
    if s != [] {
      var prefix := s[..|s| - 1];
      CardinalityAtMost(prefix);
      assert s == prefix + [s[|s| - 1]];
      assert (set x | x in s) == (set x | x in prefix) + {s[|s| - 1]};
    }
  }

  /** An element that occurs twice leaves fewer distinct elements than positions. */
  lemma DuplicateCardinality<T>(s: seq<T>, i: nat, j: nat)
    requires i < j < |s| && s[i] == s[j]
    ensures |set x | x in s| < |s|
  {
    var rest := s[..j] + s[j + 1..];
    forall x | x in s
      ensures x in rest
    {
      var k :| 0 <= k < |s| && s[k] == x;
      if k < j {
        assert rest[k] == x;
      } else if k == j {
        assert rest[i] == x;
      } else {
        assert rest[k - 1] == x;
      }
    }
    assert (set x | x in s) == (set x | x in rest);
    CardinalityAtMost(rest);
  }

  /** A sequence with as many distinct elements as positions has no duplicates. */
  lemma CardinalityDistinct<T>(s: seq<T>)
    requires |set x | x in s| == |s|
    ensures NoDuplicates(s)
  {
    forall i, j | 0 <= i < j < |s|
      ensures s[i] != s[j]
    {
      if s[i] == s[j] {
        DuplicateCardinality(s, i, j);
      }
    }
  }

  /**
   * `keys` lists every key of `m` exactly once: the same keys, and as
   * many positions as keys.
   */
  ghost predicate Tracks<K, V>(m: map<K, V>, keys: seq<K>) {
    |keys| == |m| &&
    (forall k :: k in keys ==> k in m) &&
    (forall k :: k in m ==> k in keys)
  }

  /** A tracked key order has no duplicates. */
  lemma TracksDistinct<K, V>(m: map<K, V>, keys: seq<K>)
    requires Tracks(m, keys)
    ensures NoDuplicates(keys)
  {
    assert (set x | x in keys) == m.Keys;
    CardinalityDistinct(keys);
  }

  /** A duplicate-free order listing exactly the keys of `m` tracks `m`. */
  lemma DistinctTracks<K, V>(m: map<K, V>, keys: seq<K>)
    requires NoDuplicates(keys)
    requires forall k :: k in keys ==> k in m
    requires forall k :: k in m ==> k in keys
    ensures Tracks(m, keys)
  {
    NoDuplicatesCardinality(keys);
    assert (set x | x in keys) == m.Keys;
  }

  /** A tracked key order is its own first-occurrence order. */
  lemma TracksOrder<K, V>(m: map<K, V>, keys: seq<K>)
    requires Tracks(m, keys)
    ensures FirstOccurrences(keys) == keys
  {
    TracksDistinct(m, keys);
    FirstOccurrencesOfDistinct(keys);
  }

  /** `Map.set` on a table and its key order: a new key goes last, a stored key keeps its place. */
  lemma SetTracks<K, V>(m: map<K, V>, keys: seq<K>, key: K, value: V)
    requires Tracks(m, keys)
    ensures Tracks(m[key := value], AppendIfNew(keys, key))
  {
    if key in m {
      assert AppendIfNew(keys, key) == keys;
    } else {
      assert AppendIfNew(keys, key) == keys + [key];
    }
  }

  /** `Map.delete` on a table and its key order: the key leaves the table and its place in the order. */
  lemma DeleteTracks<K, V>(m: map<K, V>, keys: seq<K>, j: nat)
    requires Tracks(m, keys) && j < |keys|
    ensures Tracks(m - {keys[j]}, keys[..j] + keys[j + 1..])
  {
    TracksDistinct(m, keys);
    RemoveAtDistinct(keys, j);
    DistinctTracks(m - {keys[j]}, keys[..j] + keys[j + 1..]);
  }

  /** The concatenation of all the sequences in `ss`, in order. */
  function Flatten<T>(ss: seq<seq<T>>): seq<T> {
    if ss == [] then [] else ss[0] + Flatten(ss[1..])
  }

  lemma {:induction false} FlattenAppend<T>(a: seq<seq<T>>, b: seq<seq<T>>)
    ensures Flatten(a + b) == Flatten(a) + Flatten(b)
  {
    if a != [] {
      assert (a + b)[1..] == a[1..] + b;
      FlattenAppend(a[1..], b);
    } else {
      assert a + b == b;
    }
  }

  /** The keys of a list of key-value pairs, in list order. */
  function EntryKeys<K, V>(entries: seq<(K, V)>): (ks: seq<K>)
    ensures |ks| == |entries|
    ensures forall i :: 0 <= i < |entries| ==> ks[i] == entries[i].0
  {
    seq(|entries|, i requires 0 <= i < |entries| => entries[i].0)
  }

  /**
   * The map `new Map(entries)` holds: the pairs are stored left to right,
   * so a later pair for the same key overwrites an earlier one.
   */
  function EntryMap<K(==), V>(entries: seq<(K, V)>): (m: map<K, V>)
    ensures forall k :: k in m ==> k in EntryKeys(entries)
    ensures forall k :: k in EntryKeys(entries) ==> k in m
  {
    if entries == [] then map[]
    else
      var last := entries[|entries| - 1];
      assert EntryKeys(entries) == EntryKeys(entries[..|entries| - 1]) + [last.0];
      EntryMap(entries[..|entries| - 1])[last.0 := last.1]
  }

  /** When no key repeats, every pair is stored as given. */
  lemma {:induction false} EntryMapDistinct<K, V>(entries: seq<(K, V)>, i: nat)
    requires NoDuplicates(EntryKeys(entries))
    requires i < |entries|
    ensures entries[i].0 in EntryMap(entries)
    ensures EntryMap(entries)[entries[i].0] == entries[i].1
  {
    var n := |entries| - 1;
    var prefix := entries[..n];
    if i < n {
      assert EntryKeys(prefix) == EntryKeys(entries)[..n];
      EntryMapDistinct(prefix, i);
      assert entries[i].0 != entries[n].0;
    }
  }

  /**
   * The last pair wins: the value stored for a key comes from the pair at
   * position `i`, which names that key, and no later pair names it again.
   */
  lemma {:induction false} EntryMapLastWins<K, V>(entries: seq<(K, V)>, k: K) returns (i: nat)
    requires k in EntryMap(entries)
    ensures i < |entries| && entries[i] == (k, EntryMap(entries)[k])
    ensures forall j :: i < j < |entries| ==> entries[j].0 != k
  {
    var n := |entries| - 1;
    if entries[n].0 == k {
      i := n;
    } else {
      var prefix := entries[..n];
      i := EntryMapLastWins(prefix, k);
      assert entries[i] == prefix[i];
      forall j | i < j < |entries|
        ensures entries[j].0 != k
      {
        if j < n {
          assert entries[j] == prefix[j];
        }
      }
    }
  }

}
