/**
 * The helpers that arrayExtensions.ts installs on arrays, as operations on
 * sequences: counting, de-duplication, chunking, filtering, first/last,
 * extremes, sums and zipping. Selectors and predicates are total Dafny
 * functions; JavaScript numbers are modelled as unbounded integers.
 */
module ArrayExtensions {
  import opened Wrappers
  import opened Sequences

  /** The error `max` and `min` throw on an empty array. */
  datatype ArrayError = EmptyArray

  // ---------------------------------------------------------------------
  // count: a left fold adding one for every element that passes the test

  function Count<T>(s: seq<T>, test: T -> bool): (n: nat)
    ensures n <= |s|
    ensures n == 0 <==> forall i :: 0 <= i < |s| ==> !test(s[i])
    ensures n == |s| <==> forall i :: 0 <= i < |s| ==> test(s[i])
  {
    if s == [] then 0
    else
      var prefix := s[..|s| - 1];
      assert forall i :: 0 <= i < |prefix| ==> prefix[i] == s[i];
      Count(prefix, test) + (if test(s[|s| - 1]) then 1 else 0)
  }

  /** Counting distributes over concatenation. */
  lemma {:induction false} CountAppend<T>(a: seq<T>, b: seq<T>, test: T -> bool)
    ensures Count(a + b, test) == Count(a, test) + Count(b, test)
  {
    if b == [] {
      assert a + b == a;
    } else {
      assert (a + b)[..|a + b| - 1] == a + b[..|b| - 1];
      CountAppend(a, b[..|b| - 1], test);
    }
  }

  // ---------------------------------------------------------------------
  // distinct: the elements go through a Set, which keeps first occurrences

  method Distinct<T(==)>(s: seq<T>) returns (r: seq<T>)
    ensures r == FirstOccurrences(s)
    ensures NoDuplicates(r)
    ensures forall x :: x in r <==> x in s
  {
    var seen: set<T> := {};
    r := [];
    for i := 0 to |s|
      invariant r == FirstOccurrences(s[..i])
      invariant seen == set x | x in r
    {
      assert s[..i + 1][..i] == s[..i];
      if s[i] !in seen {
        seen := seen + {s[i]};
        r := r + [s[i]];
      }
    }
    assert s[..|s|] == s;
    FirstOccurrencesDistinct(s);
  }

  /** The position of an element's first occurrence is unaffected by appending. */
  lemma {:induction false} FirstIndexAppend<T>(s: seq<T>, x: T, y: T)
    requires y in s
    ensures FirstIndex(s + [x], y) == FirstIndex(s, y)
  {
    if s[0] != y {
      assert (s + [x])[1..] == s[1..] + [x];
      FirstIndexAppend(s[1..], x, y);
    }
  }

  /** `distinct` lists elements in the order of their first occurrence in the input. */
  lemma {:induction false} DistinctOrder<T>(s: seq<T>)
    ensures forall i, j :: 0 <= i < j < |FirstOccurrences(s)| ==>
      FirstIndex(s, FirstOccurrences(s)[i]) < FirstIndex(s, FirstOccurrences(s)[j])
  {
    if s != [] {
      var prefix, x := s[..|s| - 1], s[|s| - 1];
      assert s == prefix + [x];
      DistinctOrder(prefix);
      FirstOccurrencesSnoc(prefix, x);
      DistinctOrderSnoc(prefix, x);
    }
  }

  /** Appending one element keeps the first occurrences ordered by first index. */
  lemma DistinctOrderSnoc<T>(prefix: seq<T>, x: T)
    requires forall i, j :: 0 <= i < j < |FirstOccurrences(prefix)| ==>
      FirstIndex(prefix, FirstOccurrences(prefix)[i]) < FirstIndex(prefix, FirstOccurrences(prefix)[j])
    ensures forall i, j :: 0 <= i < j < |AppendIfNew(FirstOccurrences(prefix), x)| ==>
      FirstIndex(prefix + [x], AppendIfNew(FirstOccurrences(prefix), x)[i])
        < FirstIndex(prefix + [x], AppendIfNew(FirstOccurrences(prefix), x)[j])
  {
    var f := FirstOccurrences(prefix);
    var g := AppendIfNew(f, x);
    var s := prefix + [x];
    forall i, j | 0 <= i < j < |g|
      ensures FirstIndex(s, g[i]) < FirstIndex(s, g[j])
    {
      assert g[i] == f[i] && g[i] in prefix;
      FirstIndexAppend(prefix, x, g[i]);
      if j < |f| {
        assert g[j] == f[j] && g[j] in prefix;
        FirstIndexAppend(prefix, x, g[j]);
      } else {
        assert g[j] == x && x !in prefix;
      }
    }
  }

  // ---------------------------------------------------------------------
  // divide: a loop that fills a buffer and emits it every numElements items

  /** The chunks of `s` of `m` elements each, the last one possibly shorter. */
  function Chunks<T>(s: seq<T>, m: nat): (r: seq<seq<T>>)
    requires m > 0
    ensures Flatten(r) == s
    ensures r == [] <==> s == []
    ensures forall i :: 0 <= i < |r| - 1 ==> |r[i]| == m
    ensures forall i :: 0 <= i < |r| ==> 0 < |r[i]| <= m
    decreases |s|
  {
    if s == [] then []
    else if |s| <= m then
      assert Flatten([s]) == s + Flatten([]);
      [s]
    else
      var rest := Chunks(s[m..], m);
      assert Flatten([s[..m]] + rest) == s[..m] + Flatten(rest) by {
        assert ([s[..m]] + rest)[1..] == rest;
      }
      assert s == s[..m] + s[m..];
      [s[..m]] + rest
  }

  /**
   * What `divide(numElements)` yields. A zero size never matches the
   * `(i + 1) % numElements === 0` test (the remainder is NaN), so the whole
   * array comes out as one chunk; a negative size behaves as its absolute
   * value, since a zero remainder does not depend on the divisor's sign.
   */
  function DivideSpec<T>(s: seq<T>, numElements: int): seq<seq<T>> {
    if numElements == 0 then (if s == [] then [] else [s])
    else Chunks(s, Abs(numElements))
  }

  lemma MulAtLeast(m: int, d: int)
    requires m > 0 && d >= 1
    ensures m * d >= m
  {
    if d > 1 {
      MulAtLeast(m, d - 1);
      assert m * d == m * (d - 1) + m;
    }
  }

  /** Euclidean remainders are unique. */
  lemma ModUnique(x: int, m: int, q: int, r: int)
    requires m > 0 && 0 <= r < m && x == m * q + r
    ensures x % m == r
  {
    var q', r' := x / m, x % m;
    assert m * q' + r' == x;
    var d := q - q';
    assert m * q - m * q' == m * d;
    if d >= 1 {
      MulAtLeast(m, d);
    } else if d <= -1 {
      MulAtLeast(m, -d);
    }
  }

  /** Whether a remainder is zero does not depend on the divisor's sign. */
  lemma ModNegative(x: int, k: int)
    requires k < 0
    ensures x % k == x % -k
  {
  }

  /** Past a multiple of m, the next multiple comes exactly m steps later. */
  lemma ModStep(done: int, b: int, m: int)
    requires m > 0 && done % m == 0 && 1 <= b <= m
    ensures (done + b) % m == 0 <==> b == m
  {
    var q := done / m;
    assert done == m * q;
    if b == m {
      ModUnique(done + b, m, q + 1, 0);
    } else {
      ModUnique(done + b, m, q, b);
    }
  }

  /** Chunking splits at a boundary that is a multiple of the chunk size. */
  lemma {:induction false} ChunksAppend<T>(a: seq<T>, b: seq<T>, m: nat)
    requires m > 0 && |a| % m == 0
    ensures Chunks(a + b, m) == Chunks(a, m) + Chunks(b, m)
    decreases |a|
  {
    if a == [] {
      assert a + b == b;
    } else {
      var q := |a| / m;
      assert |a| == m * q;
      if q < 1 {
        assert false;
      }
      MulAtLeast(m, q);
      ModUnique(|a| - m, m, q - 1, 0);
      if |a + b| <= m {
        assert b == [] && a + b == a;
      } else {
        assert (a + b)[..m] == a[..m];
        assert (a + b)[m..] == a[m..] + b;
        ChunksAppend(a[m..], b, m);
        if |a| == m {
          assert a[m..] == [];
        }
      }
    }
  }

  /** A full buffer ending at `next` adds one chunk. */
  lemma ChunksFullBuffer<T>(s: seq<T>, done: nat, next: nat, m: nat)
    requires m > 0 && done % m == 0 && done + m == next <= |s|
    ensures Chunks(s[..next], m) == Chunks(s[..done], m) + [s[done..next]]
  {
    assert s[..done] + s[done..next] == s[..next];
    ChunksAppend(s[..done], s[done..next], m);
  }

  /** A non-empty buffer left over at the end is the last chunk. */
  lemma ChunksLeftover<T>(s: seq<T>, done: nat, m: nat)
    requires m > 0 && done % m == 0 && done < |s| && |s| - done < m
    ensures Chunks(s, m) == Chunks(s[..done], m) + [s[done..]]
  {
    assert s[..done] + s[done..] == s;
    ChunksAppend(s[..done], s[done..], m);
  }

  function Abs(k: int): nat {
    if k < 0 then -k else k
  }

  /** The state of `divide`'s loop after the first `i` elements. */
  ghost predicate DivideInvariant<T>(s: seq<T>, numElements: int, i: nat, chunks: seq<seq<T>>, buffer: seq<T>) {
    && i <= |s|
    && |buffer| <= i
    && buffer == s[i - |buffer|..i]
    && (numElements == 0 ==> chunks == [] && |buffer| == i)
    && (numElements != 0 ==>
          && |buffer| < Abs(numElements)
          && (i - |buffer|) % Abs(numElements) == 0
          && chunks == Chunks(s[..i - |buffer|], Abs(numElements)))
  }

  /** With a size of zero nothing is ever emitted: the element only joins the buffer. */
  lemma DivideStepZero<T>(s: seq<T>, i: nat, chunks: seq<seq<T>>, buffer: seq<T>)
    requires DivideInvariant(s, 0, i, chunks, buffer) && i < |s|
    ensures DivideInvariant(s, 0, i + 1, chunks, buffer + [s[i]])
  {
    var b := buffer + [s[i]];
    assert b == s[i + 1 - |b|..i + 1];
  }

  /** One iteration: push the element, and emit the buffer when `i + 1` is a multiple of the size. */
  lemma DivideStep<T>(s: seq<T>, numElements: int, i: nat, chunks: seq<seq<T>>, buffer: seq<T>)
    requires DivideInvariant(s, numElements, i, chunks, buffer) && i < |s|
    ensures numElements != 0 && (i + 1) % numElements == 0 ==>
      DivideInvariant(s, numElements, i + 1, chunks + [buffer + [s[i]]], [])
    ensures !(numElements != 0 && (i + 1) % numElements == 0) ==>
      DivideInvariant(s, numElements, i + 1, chunks, buffer + [s[i]])
  {
    if numElements == 0 {
      DivideStepZero(s, i, chunks, buffer);
    } else if (i + 1) % numElements == 0 {
      DivideStepFull(s, numElements, i, chunks, buffer);
    } else {
      DivideStepPartial(s, numElements, i, chunks, buffer);
    }
  }

  /** The pushed element fills the buffer, which becomes the next chunk. */
  lemma DivideStepFull<T>(s: seq<T>, numElements: int, i: nat, chunks: seq<seq<T>>, buffer: seq<T>)
    requires DivideInvariant(s, numElements, i, chunks, buffer) && i < |s|
    requires numElements != 0 && (i + 1) % numElements == 0
    ensures DivideInvariant(s, numElements, i + 1, chunks + [buffer + [s[i]]], [])
  {
    var b := buffer + [s[i]];
    var m := Abs(numElements);
    var done := i - |buffer|;
    assert b == s[done..i + 1];
    if numElements < 0 {
      ModNegative(i + 1, numElements);
    }
    ModStep(done, |b|, m);
    ChunksFullBuffer(s, done, i + 1, m);
  }

  /** The pushed element leaves the buffer short of a chunk. */
  lemma DivideStepPartial<T>(s: seq<T>, numElements: int, i: nat, chunks: seq<seq<T>>, buffer: seq<T>)
    requires DivideInvariant(s, numElements, i, chunks, buffer) && i < |s|
    requires numElements != 0 && (i + 1) % numElements != 0
    ensures DivideInvariant(s, numElements, i + 1, chunks, buffer + [s[i]])
  {
    var b := buffer + [s[i]];
    var m := Abs(numElements);
    var done := i - |buffer|;
    assert b == s[done..i + 1];
    if numElements < 0 {
      ModNegative(i + 1, numElements);
    }
    ModStep(done, |b|, m);
  }

  /** After the loop, emitting a non-empty buffer completes the chunking. */
  lemma DivideEnd<T>(s: seq<T>, numElements: int, chunks: seq<seq<T>>, buffer: seq<T>)
    requires DivideInvariant(s, numElements, |s|, chunks, buffer)
    ensures (if |buffer| > 0 then chunks + [buffer] else chunks) == DivideSpec(s, numElements)
  {
    assert s[..|s|] == s;
    if |buffer| > 0 && numElements != 0 {
      ChunksLeftover(s, |s| - |buffer|, Abs(numElements));
    }
  }

  method Divide<T>(s: seq<T>, numElements: int) returns (chunks: seq<seq<T>>)
    ensures chunks == DivideSpec(s, numElements)
  {
    chunks := [];
    var buffer: seq<T> := [];
    for i := 0 to |s|
      invariant DivideInvariant(s, numElements, i, chunks, buffer)
    {
      DivideStep(s, numElements, i, chunks, buffer);
      buffer := buffer + [s[i]];
      if numElements != 0 && (i + 1) % numElements == 0 {
        chunks := chunks + [buffer];
        buffer := [];
      }
    }
    DivideEnd(s, numElements, chunks, buffer);
    if |buffer| > 0 {
      chunks := chunks + [buffer];
    }
  }

  // ---------------------------------------------------------------------
  // except: a filter dropping every element contained in the exclusion list

  function Except<T(==)>(s: seq<T>, excluded: seq<T>): (r: seq<T>)
    ensures |r| <= |s|
    ensures forall x :: x in r ==> x in s && x !in excluded
    ensures forall x :: x in s && x !in excluded ==> x in r
  {
    if s == [] then []
    else
      var prefix := s[..|s| - 1];
      assert s == prefix + [s[|s| - 1]];
      Except(prefix, excluded) + (if s[|s| - 1] in excluded then [] else [s[|s| - 1]])
  }

  /** Filtering distributes over concatenation, so the kept elements stay in input order. */
  lemma {:induction false} ExceptAppend<T>(a: seq<T>, b: seq<T>, excluded: seq<T>)
    ensures Except(a + b, excluded) == Except(a, excluded) + Except(b, excluded)
  {
    if b == [] {
      assert a + b == a;
    } else {
      assert (a + b)[..|a + b| - 1] == a + b[..|b| - 1];
      ExceptAppend(a, b[..|b| - 1], excluded);
    }
  }

  /** Every kept value keeps all its occurrences; every excluded value loses all of them. */
  lemma {:induction false} ExceptMultiset<T>(s: seq<T>, excluded: seq<T>)
    ensures forall x ::
      multiset(Except(s, excluded))[x] == if x in excluded then 0 else multiset(s)[x]
  {
    if s != [] {
      var prefix := s[..|s| - 1];
      assert s == prefix + [s[|s| - 1]];
      ExceptMultiset(prefix, excluded);
    }
  }

  /** Nothing is dropped when no element is excluded. */
  lemma {:induction false} ExceptNothing<T>(s: seq<T>, excluded: seq<T>)
    requires forall i :: 0 <= i < |s| ==> s[i] !in excluded
    ensures Except(s, excluded) == s
  {
    if s != [] {
      var prefix := s[..|s| - 1];
      ExceptNothing(prefix, excluded);
      assert s[|s| - 1] !in excluded;
      assert s == prefix + [s[|s| - 1]];
    }
  }

  /** Excluding the element at `j` of a duplicate-free sequence cuts out exactly that position. */
  lemma ExceptOne<T>(s: seq<T>, j: nat)
    requires NoDuplicates(s) && j < |s|
    ensures Except(s, [s[j]]) == s[..j] + s[j + 1..]
  {
    var x := s[j];
    var before, after := s[..j], s[j + 1..];
    assert s == (before + [x]) + after;
    forall i | 0 <= i < |before|
      ensures before[i] != x
    {
      assert before[i] == s[i];
    }
    ExceptAppend(before + [x], after, [x]);
    ExceptDropsLast(before, x);
    ExceptKeepsAfter(s, j);
  }

  /** Excluding the last element of a sequence free of it leaves the rest. */
  lemma ExceptDropsLast<T>(before: seq<T>, x: T)
    requires x !in before
    ensures Except(before + [x], [x]) == before
  {
    ExceptAppend(before, [x], [x]);
    ExceptNothing(before, [x]);
    assert [x][..0] == [];
  }

  /** Nothing after position `j` of a duplicate-free sequence equals its element `j`. */
  lemma ExceptKeepsAfter<T>(s: seq<T>, j: nat)
    requires NoDuplicates(s) && j < |s|
    ensures Except(s[j + 1..], [s[j]]) == s[j + 1..]
  {
    var after := s[j + 1..];
    forall i | 0 <= i < |after|
      ensures after[i] !in [s[j]]
    {
      assert after[i] == s[j + 1 + i];
    }
    ExceptNothing(after, [s[j]]);
  }

  // ---------------------------------------------------------------------
  // first and last

  function First<T>(s: seq<T>): (r: Option<T>)
    ensures r.None? <==> s == []
    ensures r.Some? ==> r.value == s[0]
  {
    if |s| != 0 then Some(s[0]) else None
  }

  function Last<T>(s: seq<T>): (r: Option<T>)
    ensures r.None? <==> s == []
    ensures r.Some? ==> r.value == s[|s| - 1]
  {
    if |s| != 0 then Some(s[|s| - 1]) else None
  }

  // ---------------------------------------------------------------------
  // max and min: folds over the selected values; an empty array throws

  /**
   * The largest selected value. The source seeds its fold with negative
   * infinity, which the first element always replaces, so the fold here
   * starts from the first element.
   */
  function MaxOf<T>(s: seq<T>, selector: T -> int): (r: int)
    requires s != []
    ensures forall i :: 0 <= i < |s| ==> selector(s[i]) <= r
    ensures exists i :: 0 <= i < |s| && r == selector(s[i])
  {
    if |s| == 1 then selector(s[0])
    else
      var prefix := s[..|s| - 1];
      assert forall i :: 0 <= i < |prefix| ==> prefix[i] == s[i];
      var best := MaxOf(prefix, selector);
      var value := selector(s[|s| - 1]);
      if value > best then value else best
  }

  function Max<T>(s: seq<T>, selector: T -> int): (r: Result<int, ArrayError>)
    ensures r.Failure? <==> s == []
    ensures r.Success? ==> forall i :: 0 <= i < |s| ==> selector(s[i]) <= r.value
    ensures r.Success? ==> exists i :: 0 <= i < |s| && r.value == selector(s[i])
  {
    if |s| == 0 then Failure(EmptyArray) else Success(MaxOf(s, selector))
  }

  /** The smallest selected value; the source's positive-infinity seed is dropped as for MaxOf. */
  function MinOf<T>(s: seq<T>, selector: T -> int): (r: int)
    requires s != []
    ensures forall i :: 0 <= i < |s| ==> r <= selector(s[i])
    ensures exists i :: 0 <= i < |s| && r == selector(s[i])
  {
    if |s| == 1 then selector(s[0])
    else
      var prefix := s[..|s| - 1];
      assert forall i :: 0 <= i < |prefix| ==> prefix[i] == s[i];
      var best := MinOf(prefix, selector);
      var value := selector(s[|s| - 1]);
      if value < best then value else best
  }

  function Min<T>(s: seq<T>, selector: T -> int): (r: Result<int, ArrayError>)
    ensures r.Failure? <==> s == []
    ensures r.Success? ==> forall i :: 0 <= i < |s| ==> r.value <= selector(s[i])
    ensures r.Success? ==> exists i :: 0 <= i < |s| && r.value == selector(s[i])
  {
    if |s| == 0 then Failure(EmptyArray) else Success(MinOf(s, selector))
  }

  // ---------------------------------------------------------------------
  // sum: a left fold of the selected values starting at 0

  function Sum<T>(s: seq<T>, selector: T -> int): int {
    if s == [] then 0 else Sum(s[..|s| - 1], selector) + selector(s[|s| - 1])
  }

  /** Summing distributes over concatenation. */
  lemma {:induction false} SumAppend<T>(a: seq<T>, b: seq<T>, selector: T -> int)
    ensures Sum(a + b, selector) == Sum(a, selector) + Sum(b, selector)
  {
    if b == [] {
      assert a + b == a;
    } else {
      assert (a + b)[..|a + b| - 1] == a + b[..|b| - 1];
      SumAppend(a, b[..|b| - 1], selector);
    }
  }

  /** Counting is summing one for each element that passes the test. */
  lemma {:induction false} CountIsSum<T>(s: seq<T>, test: T -> bool)
    ensures Count(s, test) == Sum(s, x => if test(x) then 1 else 0)
  {
    if s != [] {
      CountIsSum(s[..|s| - 1], test);
    }
  }

  // ---------------------------------------------------------------------
  // zip: a loop over the common length, pushing selector(first[i], second[i])

  method Zip<T, U, V>(first: seq<T>, second: seq<U>, selector: (T, U) -> V) returns (r: seq<V>)
    ensures |r| == if |first| < |second| then |first| else |second|
    ensures forall i :: 0 <= i < |r| ==> r[i] == selector(first[i], second[i])
  {
    var iMax := if |first| < |second| then |first| else |second|;
    r := [];
    for i := 0 to iMax
      invariant |r| == i
      invariant forall j :: 0 <= j < i ==> r[j] == selector(first[j], second[j])
    {
      r := r + [selector(first[i], second[i])];
    }
  }
}
