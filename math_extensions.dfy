/**
 * The combinatorial generators of mathExtensions.ts: k-combinations of a
 * sequence (with the source's repetition flag) and the n-ary Cartesian
 * product. The generators are lazy in the source; here each one is the
 * function that returns the whole sequence of tuples it yields, in order.
 */
module MathExtensions {
  import opened Wrappers

  /** The error `enumarteCombination` throws for a count outside 0..|items|. */
  datatype CombinationError = CountOutOfRange

  /** `[x].concat(tail)` for every tail, in order. */
  function Prepend<T>(x: T, tails: seq<seq<T>>): (r: seq<seq<T>>)
    ensures |r| == |tails|
    ensures forall i :: 0 <= i < |r| ==> r[i] == [x] + tails[i]
  {
    seq(|tails|, i requires 0 <= i < |tails| => [x] + tails[i])
  }

  lemma InPrepend<T>(x: T, tails: seq<seq<T>>, t: seq<T>)
    ensures t in Prepend(x, tails) <==> |t| > 0 && t[0] == x && t[1..] in tails
  {
    if |t| > 0 && t[0] == x && t[1..] in tails {
      var i :| 0 <= i < |tails| && tails[i] == t[1..];
      assert Prepend(x, tails)[i] == t;
    }
    if t in Prepend(x, tails) {
      var i :| 0 <= i < |tails| && Prepend(x, tails)[i] == t;
      assert t[1..] == tails[i];
    }
  }

  // ---------------------------------------------------------------------
  // k-combinations, as written

  /**
   * `enumCombin(items, count, isRepetition)`: for every position, in
   * ascending order, the item there followed by each combination of
   * `count - 1` items taken from the slice after it (from the position
   * itself when `isRepetition` holds). The recursive call does not pass the
   * flag on, so it falls back to its default, false.
   */
  function EnumCombin<T>(items: seq<T>, count: nat, isRepetition: bool): seq<seq<T>>
    decreases count, 1, 0
  {
    if count == 0 then [[]] else EnumFrom(items, count, isRepetition, 0)
  }

  /** The loop of `enumCombin` from position `index` on. */
  function EnumFrom<T>(items: seq<T>, count: nat, isRepetition: bool, index: nat): seq<seq<T>>
    requires 0 < count && index <= |items|
    decreases count, 0, |items| - index
  {
    if index == |items| then []
    else
      var rest := items[if isRepetition then index else index + 1..];
      Prepend(items[index], EnumCombin(rest, count - 1, false))
        + EnumFrom(items, count, isRepetition, index + 1)
  }

  /** The loop from position `index` is the loop over the slice without the first item. */
  lemma {:induction false} EnumFromShift<T>(items: seq<T>, count: nat, isRepetition: bool, index: nat)
    requires 0 < count && 1 <= index <= |items|
    ensures EnumFrom(items, count, isRepetition, index) == EnumFrom(items[1..], count, isRepetition, index - 1)
    decreases |items| - index
  {
    if index < |items| {
      assert items[1..][index - 1] == items[index];
      assert items[1..][if isRepetition then index - 1 else index..]
          == items[if isRepetition then index else index + 1..];
      EnumFromShift(items, count, isRepetition, index + 1);
    }
  }

  /**
   * The combinations either start with the first item (followed by
   * combinations of the rest) or are the combinations of the items after it.
   */
  lemma Decompose<T>(items: seq<T>, count: nat, isRepetition: bool)
    requires 0 < count
    ensures EnumCombin(items, count, isRepetition) ==
      if items == [] then []
      else
        Prepend(items[0], EnumCombin(items[if isRepetition then 0 else 1..], count - 1, false))
          + EnumCombin(items[1..], count, isRepetition)
  {
    if items != [] {
      EnumFromShift(items, count, isRepetition, 1);
    }
  }

  /** `t` has `count` items, each drawn from `items`. */
  ghost predicate TupleOf<T>(t: seq<T>, count: nat, items: seq<T>) {
    |t| == count && forall j :: 0 <= j < |t| ==> t[j] in items
  }

  /** Every tuple in `ts` has `count` items drawn from `items`. */
  ghost predicate AllTuplesOf<T>(ts: seq<seq<T>>, count: nat, items: seq<T>) {
    forall t :: t in ts ==> TupleOf(t, count, items)
  }

  lemma TupleOfCons<T>(t: seq<T>, count: nat, items: seq<T>, rest: seq<T>)
    requires count > 0 && |t| > 0 && t[0] in items && TupleOf(t[1..], count - 1, rest)
    requires forall x :: x in rest ==> x in items
    ensures TupleOf(t, count, items)
  {
    forall j | 1 <= j < |t|
      ensures t[j] in items
    {
      assert t[j] == t[1..][j - 1];
    }
  }

  /** Every emitted tuple has exactly `count` items, and each is drawn from `items`. */
  lemma {:induction false} TupleShape<T>(items: seq<T>, count: nat, isRepetition: bool)
    ensures AllTuplesOf(EnumCombin(items, count, isRepetition), count, items)
    decreases count, |items|
  {
    if count > 0 {
      Decompose(items, count, isRepetition);
      if items != [] {
        var rest := items[if isRepetition then 0 else 1..];
        TupleShape(rest, count - 1, false);
        TupleShape(items[1..], count, isRepetition);
        forall t | t in EnumCombin(items, count, isRepetition)
          ensures TupleOf(t, count, items)
        {
          TupleShapeStep(items, count, isRepetition, rest, t);
        }
      }
    }
  }

  lemma TupleShapeStep<T>(items: seq<T>, count: nat, isRepetition: bool, rest: seq<T>, t: seq<T>)
    requires count > 0 && items != [] && rest == items[if isRepetition then 0 else 1..]
    requires AllTuplesOf(EnumCombin(rest, count - 1, false), count - 1, rest)
    requires AllTuplesOf(EnumCombin(items[1..], count, isRepetition), count, items[1..])
    requires t in EnumCombin(items, count, isRepetition)
    ensures TupleOf(t, count, items)
  {
    var firsts := EnumCombin(rest, count - 1, false);
    var others := EnumCombin(items[1..], count, isRepetition);
    Decompose(items, count, isRepetition);
    assert t in Prepend(items[0], firsts) || t in others;
    if t in others {
      assert TupleOf(t, count, items[1..]);
    } else {
      InPrepend(items[0], firsts, t);
      TupleOfCons(t, count, items, rest);
    }
  }

  /** The number of ways to choose k of n: Pascal's rule. */
  function Binomial(n: int, k: nat): nat
    decreases k, n
  {
    if k == 0 then 1
    else if n <= 0 then 0
    else Binomial(n - 1, k - 1) + Binomial(n - 1, k)
  }

  lemma {:induction false} BinomialTooMany(n: int, k: nat)
    requires 0 <= n < k
    ensures Binomial(n, k) == 0
    decreases k, n
  {
    if n > 0 {
      BinomialTooMany(n - 1, k - 1);
      BinomialTooMany(n - 1, k);
    }
  }

  /** Without repetition there are C(n, count) combinations. */
  lemma {:induction false} CombinationCount<T>(items: seq<T>, count: nat)
    ensures |EnumCombin(items, count, false)| == Binomial(|items|, count)
    decreases count, |items|
  {
    if count > 0 {
      Decompose(items, count, false);
      if items != [] {
        CombinationCount(items[1..], count - 1);
        CombinationCount(items[1..], count);
      }
    }
  }

  /** Choosing all n of n items, without repetition, yields the items themselves, once. */
  lemma {:induction false} ChooseAll<T>(items: seq<T>)
    ensures EnumCombin(items, |items|, false) == [items]
    decreases |items|
  {
    if items != [] {
      Decompose(items, |items|, false);
      ChooseAll(items[1..]);
      CombinationCount(items[1..], |items|);
      BinomialTooMany(|items| - 1, |items|);
      assert [items[0]] + items[1..] == items;
    }
  }

  /** `enumarteCombination`: validate `count`, then enumerate. */
  function EnumerateCombination<T>(items: seq<T>, count: int, isRepetition: bool := false)
    : (r: Result<seq<seq<T>>, CombinationError>)
    ensures r.Failure? <==> count < 0 || count > |items|
    ensures r.Success? && count == 0 ==> r.value == [[]]
    ensures r.Success? ==> AllTuplesOf(r.value, count, items)
    ensures r.Success? && !isRepetition ==> |r.value| == Binomial(|items|, count)
    ensures r.Success? && !isRepetition && count == |items| ==> r.value == [items]
  {
    if count < 0 || count > |items| then Failure(CountOutOfRange)
    else
      TupleShape(items, count, isRepetition);
      CombinationCount(items, count);
      ChooseAll(items);
      Success(EnumCombin(items, count, isRepetition))
  }

  // ---------------------------------------------------------------------
  // Combinations seen through the positions they pick

  /** Every position in `t` lies in lo..hi-1. */
  ghost predicate Between(t: seq<int>, lo: int, hi: int) {
    forall j :: 0 <= j < |t| ==> lo <= t[j] < hi
  }

  ghost predicate AllBetween(ts: seq<seq<int>>, lo: int, hi: int) {
    forall i :: 0 <= i < |ts| ==> Between(ts[i], lo, hi)
  }

  /** Strictly increasing positions: no position is picked twice. */
  ghost predicate Increasing(t: seq<int>) {
    forall a, b :: 0 <= a < b < |t| ==> t[a] < t[b]
  }

  /** The positions lo, lo + 1, ..., hi - 1. */
  function Range(lo: int, hi: int): (r: seq<int>)
    requires lo <= hi
    ensures |r| == hi - lo
    ensures forall j :: 0 <= j < |r| ==> r[j] == lo + j
  {
    seq(hi - lo, j => lo + j)
  }

  /** The items at the given positions, in the order of the positions. */
  function Select<T>(items: seq<T>, positions: seq<int>): (r: seq<T>)
    requires Between(positions, 0, |items|)
    ensures |r| == |positions|
    ensures forall j :: 0 <= j < |r| ==> r[j] == items[positions[j]]
  {
    seq(|positions|, j requires 0 <= j < |positions| => items[positions[j]])
  }

  function SelectAll<T>(items: seq<T>, ts: seq<seq<int>>): (r: seq<seq<T>>)
    requires AllBetween(ts, 0, |items|)
    ensures |r| == |ts|
    ensures forall i :: 0 <= i < |ts| ==> r[i] == Select(items, ts[i])
  {
    seq(|ts|, i requires 0 <= i < |ts| => Select(items, ts[i]))
  }

  /** The position tuples `enumCombin` visits over a sequence of length n. */
  function PositionTuples(n: nat, count: nat, isRepetition: bool): seq<seq<int>> {
    EnumCombin(Range(0, n), count, isRepetition)
  }

  lemma SelectAllSplit<T>(items: seq<T>, p: int, a: seq<seq<int>>, b: seq<seq<int>>)
    requires 0 <= p < |items| && AllBetween(a, 0, |items|) && AllBetween(b, 0, |items|)
    ensures AllBetween(Prepend(p, a) + b, 0, |items|)
    ensures SelectAll(items, Prepend(p, a) + b) == Prepend(items[p], SelectAll(items, a)) + SelectAll(items, b)
  {
    var whole := Prepend(p, a) + b;
    forall i | 0 <= i < |whole|
      ensures Between(whole[i], 0, |items|)
    {
      if i >= |a| {
        assert whole[i] == b[i - |a|];
      }
    }
    forall i | 0 <= i < |a|
      ensures Select(items, [p] + a[i]) == [items[p]] + Select(items, a[i])
    {
    }
  }

  /** Enumerating the selected items is selecting from the enumerated positions. */
  lemma {:induction false} SelectCommutes<T>(items: seq<T>, positions: seq<int>, count: nat, isRepetition: bool)
    requires Between(positions, 0, |items|)
    ensures AllBetween(EnumCombin(positions, count, isRepetition), 0, |items|)
    ensures EnumCombin(Select(items, positions), count, isRepetition)
         == SelectAll(items, EnumCombin(positions, count, isRepetition))
    decreases count, |positions|
  {
    PositionTuplesBetween(positions, count, isRepetition, |items|);
    var chosen := Select(items, positions);
    if count == 0 {
      assert Select(items, []) == [];
    } else if positions == [] {
      Decompose(chosen, count, isRepetition);
      Decompose(positions, count, isRepetition);
    } else {
      var j := if isRepetition then 0 else 1;
      SelectCommutes(items, positions[j..], count - 1, false);
      SelectCommutes(items, positions[1..], count, isRepetition);
      SelectCommutesCons(items, positions, count, isRepetition);
    }
  }

  /** Tuples enumerated from positions below `n` hold only positions below `n`. */
  lemma PositionTuplesBetween(positions: seq<int>, count: nat, isRepetition: bool, n: int)
    requires Between(positions, 0, n)
    ensures AllBetween(EnumCombin(positions, count, isRepetition), 0, n)
  {
    var ts := EnumCombin(positions, count, isRepetition);
    TupleShape(positions, count, isRepetition);
    forall i | 0 <= i < |ts|
      ensures Between(ts[i], 0, n)
    {
      assert TupleOf(ts[i], count, positions);
    }
  }

  /** The inductive step of SelectCommutes: both halves of the decomposition commute. */
  lemma SelectCommutesCons<T>(items: seq<T>, positions: seq<int>, count: nat, isRepetition: bool)
    requires count > 0 && positions != [] && Between(positions, 0, |items|)
    requires var rest := positions[if isRepetition then 0 else 1..];
      && AllBetween(EnumCombin(rest, count - 1, false), 0, |items|)
      && EnumCombin(Select(items, rest), count - 1, false) == SelectAll(items, EnumCombin(rest, count - 1, false))
    requires AllBetween(EnumCombin(positions[1..], count, isRepetition), 0, |items|)
    requires EnumCombin(Select(items, positions[1..]), count, isRepetition)
      == SelectAll(items, EnumCombin(positions[1..], count, isRepetition))
    requires AllBetween(EnumCombin(positions, count, isRepetition), 0, |items|)
    ensures EnumCombin(Select(items, positions), count, isRepetition)
         == SelectAll(items, EnumCombin(positions, count, isRepetition))
  {
    var j := if isRepetition then 0 else 1;
    var chosen := Select(items, positions);
    Decompose(chosen, count, isRepetition);
    Decompose(positions, count, isRepetition);
    assert chosen[j..] == Select(items, positions[j..]);
    assert chosen[1..] == Select(items, positions[1..]);
    SelectAllSplit(items, positions[0], EnumCombin(positions[j..], count - 1, false),
      EnumCombin(positions[1..], count, isRepetition));
  }

  /** Each combination of `items` is the selection of a position tuple, in the same order. */
  lemma CombinationsSelectPositions<T>(items: seq<T>, count: nat, isRepetition: bool)
    ensures AllBetween(PositionTuples(|items|, count, isRepetition), 0, |items|)
    ensures EnumCombin(items, count, isRepetition) == SelectAll(items, PositionTuples(|items|, count, isRepetition))
  {
    var positions := Range(0, |items|);
    assert Select(items, positions) == items;
    SelectCommutes(items, positions, count, isRepetition);
  }

  lemma RangeTail(lo: int, hi: int)
    requires lo < hi
    ensures Range(lo, hi)[0] == lo && Range(lo, hi)[1..] == Range(lo + 1, hi)
  {
  }

  /**
   * Without repetition, the position tuples are exactly the strictly
   * increasing tuples of `count` positions in lo..hi-1.
   */
  lemma {:induction false} IncreasingPositions(lo: int, hi: int, count: nat)
    requires lo <= hi
    ensures forall t :: t in EnumCombin(Range(lo, hi), count, false) <==>
      |t| == count && Increasing(t) && Between(t, lo, hi)
    decreases count, hi - lo
  {
    if count > 0 {
      if lo < hi {
        IncreasingPositions(lo + 1, hi, count - 1);
        IncreasingPositions(lo + 1, hi, count);
        IncreasingPositionsCons(lo, hi, count);
      } else {
        Decompose(Range(lo, hi), count, false);
        forall t | |t| > 0
          ensures !Between(t, lo, hi)
        {
          assert !(lo <= t[0] < hi);
        }
      }
    }
  }

  lemma IncreasingPositionsCons(lo: int, hi: int, count: nat)
    requires lo < hi && count > 0
    requires forall u :: u in EnumCombin(Range(lo + 1, hi), count - 1, false) <==>
      |u| == count - 1 && Increasing(u) && Between(u, lo + 1, hi)
    requires forall u :: u in EnumCombin(Range(lo + 1, hi), count, false) <==>
      |u| == count && Increasing(u) && Between(u, lo + 1, hi)
    ensures forall t :: t in EnumCombin(Range(lo, hi), count, false) <==>
      |t| == count && Increasing(t) && Between(t, lo, hi)
  {
    forall t
      ensures t in EnumCombin(Range(lo, hi), count, false) <==>
        |t| == count && Increasing(t) && Between(t, lo, hi)
    {
      IncreasingPositionsStep(lo, hi, count, t);
    }
  }

  lemma IncreasingPositionsStep(lo: int, hi: int, count: nat, t: seq<int>)
    requires lo < hi && count > 0
    requires forall u :: u in EnumCombin(Range(lo + 1, hi), count - 1, false) <==>
      |u| == count - 1 && Increasing(u) && Between(u, lo + 1, hi)
    requires forall u :: u in EnumCombin(Range(lo + 1, hi), count, false) <==>
      |u| == count && Increasing(u) && Between(u, lo + 1, hi)
    ensures t in EnumCombin(Range(lo, hi), count, false) <==>
      |t| == count && Increasing(t) && Between(t, lo, hi)
  {
    var firsts := EnumCombin(Range(lo + 1, hi), count - 1, false);
    var others := EnumCombin(Range(lo + 1, hi), count, false);
    RangeTail(lo, hi);
    Decompose(Range(lo, hi), count, false);
    assert EnumCombin(Range(lo, hi), count, false) == Prepend(lo, firsts) + others;
    InPrepend(lo, firsts, t);
    if t in Prepend(lo, firsts) {
      ConsIncreasing(lo, t, lo + 1, hi);
    }
    if |t| == count && Increasing(t) && Between(t, lo, hi) {
      if t[0] == lo {
        ConsIncreasing(lo, t, lo + 1, hi);
      } else {
        assert Between(t, lo + 1, hi);
      }
    }
  }

  /** A tuple headed by `x` is increasing and in range iff its tail is and lies above `x`. */
  lemma ConsIncreasing(x: int, t: seq<int>, lo: int, hi: int)
    requires |t| > 0 && t[0] == x && lo == x + 1 && x < hi
    ensures Increasing(t) && Between(t, x, hi) <==> Increasing(t[1..]) && Between(t[1..], lo, hi)
  {
    assert forall j :: 1 <= j < |t| ==> t[j] == t[1..][j - 1];
    if Increasing(t[1..]) && Between(t[1..], lo, hi) {
      forall a, b | 0 <= a < b < |t|
        ensures t[a] < t[b]
      {
        if a > 0 {
          assert t[1..][a - 1] < t[1..][b - 1];
        }
      }
    }
  }

  /** Only the first two positions may coincide; from the second on they strictly increase. */
  ghost predicate RepeatsOnlyFirst(t: seq<int>) {
    |t| <= 1 || (t[0] <= t[1] && Increasing(t[1..]))
  }

  /**
   * With the repetition flag, as written: the first position may be picked
   * again once, every later position is strictly larger than the one before.
   */
  lemma {:induction false} RepetitionPositions(lo: int, hi: int, count: nat)
    requires lo <= hi
    ensures forall t :: t in EnumCombin(Range(lo, hi), count, true) <==>
      |t| == count && RepeatsOnlyFirst(t) && Between(t, lo, hi)
    decreases count, hi - lo
  {
    if count > 0 {
      if lo < hi {
        IncreasingPositions(lo, hi, count - 1);
        RepetitionPositions(lo + 1, hi, count);
        RepetitionPositionsCons(lo, hi, count);
      } else {
        Decompose(Range(lo, hi), count, true);
        forall t | |t| > 0
          ensures !Between(t, lo, hi)
        {
          assert !(lo <= t[0] < hi);
        }
      }
    }
  }

  lemma RepetitionPositionsCons(lo: int, hi: int, count: nat)
    requires lo < hi && count > 0
    requires forall u :: u in EnumCombin(Range(lo, hi), count - 1, false) <==>
      |u| == count - 1 && Increasing(u) && Between(u, lo, hi)
    requires forall u :: u in EnumCombin(Range(lo + 1, hi), count, true) <==>
      |u| == count && RepeatsOnlyFirst(u) && Between(u, lo + 1, hi)
    ensures forall t :: t in EnumCombin(Range(lo, hi), count, true) <==>
      |t| == count && RepeatsOnlyFirst(t) && Between(t, lo, hi)
  {
    forall t
      ensures t in EnumCombin(Range(lo, hi), count, true) <==>
        |t| == count && RepeatsOnlyFirst(t) && Between(t, lo, hi)
    {
      RepetitionPositionsStep(lo, hi, count, t);
    }
  }

  lemma RepetitionPositionsStep(lo: int, hi: int, count: nat, t: seq<int>)
    requires lo < hi && count > 0
    requires forall u :: u in EnumCombin(Range(lo, hi), count - 1, false) <==>
      |u| == count - 1 && Increasing(u) && Between(u, lo, hi)
    requires forall u :: u in EnumCombin(Range(lo + 1, hi), count, true) <==>
      |u| == count && RepeatsOnlyFirst(u) && Between(u, lo + 1, hi)
    ensures t in EnumCombin(Range(lo, hi), count, true) <==>
      |t| == count && RepeatsOnlyFirst(t) && Between(t, lo, hi)
  {
    var firsts := EnumCombin(Range(lo, hi), count - 1, false);
    var others := EnumCombin(Range(lo + 1, hi), count, true);
    RangeTail(lo, hi);
    Decompose(Range(lo, hi), count, true);
    assert EnumCombin(Range(lo, hi), count, true) == Prepend(lo, firsts) + others;
    InPrepend(lo, firsts, t);
    if |t| > 0 && t[0] == lo {
      ConsRepeatsOnlyFirst(t, hi);
    }
    if |t| == count && RepeatsOnlyFirst(t) && Between(t, lo, hi) && t[0] != lo {
      ConsRepeatsOnlyFirst(t, hi);
      forall j | 0 <= j < |t|
        ensures lo + 1 <= t[j]
      {
        if j > 0 {
          assert t[j] == t[1..][j - 1];
        }
      }
    }
  }

  /**
   * A tuple repeats only its first position and stays in range from its
   * head iff its tail strictly increases and stays in that range.
   */
  lemma ConsRepeatsOnlyFirst(t: seq<int>, hi: int)
    requires |t| > 0 && t[0] < hi
    ensures RepeatsOnlyFirst(t) && Between(t, t[0], hi) <==> Increasing(t[1..]) && Between(t[1..], t[0], hi)
  {
    var tail := t[1..];
    assert forall j :: 1 <= j < |t| ==> t[j] == tail[j - 1];
    if RepeatsOnlyFirst(t) && |t| > 1 {
      forall j | 0 < j < |tail|
        ensures tail[0] < tail[j]
      {
      }
    }
  }

  /** `a` comes before `b` in lexicographic order. */
  ghost predicate LexLess(a: seq<int>, b: seq<int>) {
    |a| > 0 && |b| > 0 && (a[0] < b[0] || (a[0] == b[0] && LexLess(a[1..], b[1..])))
  }

  ghost predicate LexSorted(ts: seq<seq<int>>) {
    forall a, b :: 0 <= a < b < |ts| ==> LexLess(ts[a], ts[b])
  }

  lemma LexSortedPrepend(x: int, ts: seq<seq<int>>)
    requires LexSorted(ts)
    ensures LexSorted(Prepend(x, ts))
  {
    var r := Prepend(x, ts);
    forall a, b | 0 <= a < b < |r|
      ensures LexLess(r[a], r[b])
    {
      assert r[a][1..] == ts[a] && r[b][1..] == ts[b];
    }
  }

  lemma LexSortedConcat(p: seq<seq<int>>, q: seq<seq<int>>)
    requires LexSorted(p) && LexSorted(q)
    requires forall a, b :: 0 <= a < |p| && 0 <= b < |q| ==> LexLess(p[a], q[b])
    ensures LexSorted(p + q)
  {
    var r := p + q;
    forall a, b | 0 <= a < b < |r|
      ensures LexLess(r[a], r[b])
    {
      if b < |p| {
        assert r[a] == p[a] && r[b] == p[b];
      } else if a >= |p| {
        assert r[a] == q[a - |p|] && r[b] == q[b - |p|];
      } else {
        assert r[a] == p[a] && r[b] == q[b - |p|];
      }
    }
  }

  /** With or without the flag, the position tuples come out in ascending lexicographic order. */
  lemma {:induction false} PositionsSorted(lo: int, hi: int, count: nat, isRepetition: bool)
    requires lo <= hi
    ensures LexSorted(EnumCombin(Range(lo, hi), count, isRepetition))
    decreases count, hi - lo
  {
    if count > 0 {
      Decompose(Range(lo, hi), count, isRepetition);
      if lo < hi {
        RangeTail(lo, hi);
        var start := if isRepetition then lo else lo + 1;
        assert Range(lo, hi)[if isRepetition then 0 else 1..] == Range(start, hi);
        var firsts := EnumCombin(Range(start, hi), count - 1, false);
        var others := EnumCombin(Range(lo + 1, hi), count, isRepetition);
        PositionsSorted(start, hi, count - 1, false);
        PositionsSorted(lo + 1, hi, count, isRepetition);
        LexSortedPrepend(lo, firsts);
        TupleShape(Range(lo + 1, hi), count, isRepetition);
        forall a, b | 0 <= a < |Prepend(lo, firsts)| && 0 <= b < |others|
          ensures LexLess(Prepend(lo, firsts)[a], others[b])
        {
          assert TupleOf(others[b], count, Range(lo + 1, hi));
          assert others[b][0] in Range(lo + 1, hi);
        }
        LexSortedConcat(Prepend(lo, firsts), others);
      }
    }
  }

  /**
   * Without repetition, `enumCombin` yields exactly the selections of
   * `count` items at strictly increasing positions, in lexicographic order
   * of the positions.
   */
  lemma CombinationsAreIncreasingSelections<T>(items: seq<T>, count: nat)
    ensures AllBetween(PositionTuples(|items|, count, false), 0, |items|)
    ensures EnumCombin(items, count, false) == SelectAll(items, PositionTuples(|items|, count, false))
    ensures LexSorted(PositionTuples(|items|, count, false))
    ensures forall t :: t in PositionTuples(|items|, count, false) <==>
      |t| == count && Increasing(t) && Between(t, 0, |items|)
  {
    CombinationsSelectPositions(items, count, false);
    PositionsSorted(0, |items|, count, false);
    IncreasingPositions(0, |items|, count);
  }

  /**
   * With the repetition flag, `enumCombin` yields the selections at
   * positions where only the first may repeat, in lexicographic order.
   */
  lemma CombinationsWithFlagRepeatOnlyFirst<T>(items: seq<T>, count: nat)
    ensures AllBetween(PositionTuples(|items|, count, true), 0, |items|)
    ensures EnumCombin(items, count, true) == SelectAll(items, PositionTuples(|items|, count, true))
    ensures LexSorted(PositionTuples(|items|, count, true))
    ensures forall t :: t in PositionTuples(|items|, count, true) <==>
      |t| == count && RepeatsOnlyFirst(t) && Between(t, 0, |items|)
  {
    CombinationsSelectPositions(items, count, true);
    PositionsSorted(0, |items|, count, true);
    RepetitionPositions(0, |items|, count);
  }

  // ---------------------------------------------------------------------
  // Combinations with repetition, as evidently intended

  /**
   * `enumCombin` with the flag passed on to the recursive call: every
   * position, not only the first, may repeat the one before it.
   */
  function EnumCombinRepeated<T>(items: seq<T>, count: nat): seq<seq<T>>
    decreases count, 1, 0
  {
    if count == 0 then [[]] else EnumRepeatedFrom(items, count, 0)
  }

  function EnumRepeatedFrom<T>(items: seq<T>, count: nat, index: nat): seq<seq<T>>
    requires 0 < count && index <= |items|
    decreases count, 0, |items| - index
  {
    if index == |items| then []
    else
      Prepend(items[index], EnumCombinRepeated(items[index..], count - 1))
        + EnumRepeatedFrom(items, count, index + 1)
  }

  lemma {:induction false} EnumRepeatedFromShift<T>(items: seq<T>, count: nat, index: nat)
    requires 0 < count && 1 <= index <= |items|
    ensures EnumRepeatedFrom(items, count, index) == EnumRepeatedFrom(items[1..], count, index - 1)
    decreases |items| - index
  {
    if index < |items| {
      assert items[1..][index - 1..] == items[index..];
      EnumRepeatedFromShift(items, count, index + 1);
    }
  }

  lemma DecomposeRepeated<T>(items: seq<T>, count: nat)
    requires 0 < count
    ensures EnumCombinRepeated(items, count) ==
      if items == [] then []
      else Prepend(items[0], EnumCombinRepeated(items, count - 1)) + EnumCombinRepeated(items[1..], count)
  {
    if items != [] {
      EnumRepeatedFromShift(items, count, 1);
      assert items[0..] == items;
    }
  }

  /** With repetition passed on, there are C(n + count - 1, count) combinations. */
  lemma {:induction false} RepeatedCount<T>(items: seq<T>, count: nat)
    ensures |EnumCombinRepeated(items, count)| == Binomial(|items| + count - 1, count)
    decreases count, |items|
  {
    if count > 0 {
      DecomposeRepeated(items, count);
      if items == [] {
        BinomialTooMany(count - 1, count);
      } else {
        RepeatedCount(items, count - 1);
        RepeatedCount(items[1..], count);
      }
    }
  }

  /** Positions never decrease. */
  ghost predicate NonDecreasing(t: seq<int>) {
    forall a, b :: 0 <= a < b < |t| ==> t[a] <= t[b]
  }

  /** The intended position tuples are exactly the non-decreasing ones. */
  lemma {:induction false} NonDecreasingPositions(lo: int, hi: int, count: nat)
    requires lo <= hi
    ensures forall t :: t in EnumCombinRepeated(Range(lo, hi), count) <==>
      |t| == count && NonDecreasing(t) && Between(t, lo, hi)
    decreases count, hi - lo
  {
    if count > 0 {
      if lo < hi {
        NonDecreasingPositions(lo, hi, count - 1);
        NonDecreasingPositions(lo + 1, hi, count);
        NonDecreasingPositionsCons(lo, hi, count);
      } else {
        DecomposeRepeated(Range(lo, hi), count);
        forall t | |t| > 0
          ensures !Between(t, lo, hi)
        {
          assert !(lo <= t[0] < hi);
        }
      }
    }
  }

  lemma NonDecreasingPositionsCons(lo: int, hi: int, count: nat)
    requires lo < hi && count > 0
    requires forall u :: u in EnumCombinRepeated(Range(lo, hi), count - 1) <==>
      |u| == count - 1 && NonDecreasing(u) && Between(u, lo, hi)
    requires forall u :: u in EnumCombinRepeated(Range(lo + 1, hi), count) <==>
      |u| == count && NonDecreasing(u) && Between(u, lo + 1, hi)
    ensures forall t :: t in EnumCombinRepeated(Range(lo, hi), count) <==>
      |t| == count && NonDecreasing(t) && Between(t, lo, hi)
  {
    forall t
      ensures t in EnumCombinRepeated(Range(lo, hi), count) <==>
        |t| == count && NonDecreasing(t) && Between(t, lo, hi)
    {
      NonDecreasingPositionsStep(lo, hi, count, t);
    }
  }

  lemma NonDecreasingPositionsStep(lo: int, hi: int, count: nat, t: seq<int>)
    requires lo < hi && count > 0
    requires forall u :: u in EnumCombinRepeated(Range(lo, hi), count - 1) <==>
      |u| == count - 1 && NonDecreasing(u) && Between(u, lo, hi)
    requires forall u :: u in EnumCombinRepeated(Range(lo + 1, hi), count) <==>
      |u| == count && NonDecreasing(u) && Between(u, lo + 1, hi)
    ensures t in EnumCombinRepeated(Range(lo, hi), count) <==>
      |t| == count && NonDecreasing(t) && Between(t, lo, hi)
  {
    var firsts := EnumCombinRepeated(Range(lo, hi), count - 1);
    var others := EnumCombinRepeated(Range(lo + 1, hi), count);
    RangeTail(lo, hi);
    DecomposeRepeated(Range(lo, hi), count);
    assert EnumCombinRepeated(Range(lo, hi), count) == Prepend(lo, firsts) + others;
    InPrepend(lo, firsts, t);
    if |t| > 0 && t[0] == lo {
      ConsNonDecreasing(t, hi);
    }
    if |t| == count && NonDecreasing(t) && Between(t, lo, hi) && t[0] != lo {
      assert forall j :: 0 <= j < |t| ==> t[0] <= t[j];
      assert Between(t, lo + 1, hi);
    }
  }

  /** A tuple is non-decreasing and in range from its head iff its tail is. */
  lemma ConsNonDecreasing(t: seq<int>, hi: int)
    requires |t| > 0 && t[0] < hi
    ensures NonDecreasing(t) && Between(t, t[0], hi) <==> NonDecreasing(t[1..]) && Between(t[1..], t[0], hi)
  {
    assert forall j :: 1 <= j < |t| ==> t[j] == t[1..][j - 1];
    if NonDecreasing(t[1..]) && Between(t[1..], t[0], hi) {
      forall a, b | 0 <= a < b < |t|
        ensures t[a] <= t[b]
      {
        if a > 0 {
          assert t[1..][a - 1] <= t[1..][b - 1];
        }
      }
    }
  }

  /** Up to two items per tuple, the flag as written and the flag passed on agree. */
  lemma {:induction false} SingleItemTuples<T>(items: seq<T>, isRepetition: bool)
    ensures EnumCombin(items, 1, isRepetition) == EnumCombinRepeated(items, 1)
    decreases |items|
  {
    Decompose(items, 1, isRepetition);
    DecomposeRepeated(items, 1);
    if items != [] {
      SingleItemTuples(items[1..], isRepetition);
    }
  }

  lemma {:induction false} AgreesUpToTwo<T>(items: seq<T>, count: nat)
    requires count <= 2
    ensures EnumCombin(items, count, true) == EnumCombinRepeated(items, count)
    decreases |items|
  {
    if count == 1 {
      SingleItemTuples(items, true);
    } else if count == 2 {
      Decompose(items, 2, true);
      DecomposeRepeated(items, 2);
      if items != [] {
        SingleItemTuples(items, false);
        AgreesUpToTwo(items[1..], 2);
      }
    }
  }

  /**
   * Three items of [1, 2, 3] with the flag set: as written, 4 tuples come
   * out where C(5, 3) = 10 are intended, and [1, 1, 1] is among the missing.
   */
  lemma RepetitionFlagCounterexample()
    ensures |EnumCombin([1, 2, 3], 3, true)| == 4
    ensures |EnumCombinRepeated([1, 2, 3], 3)| == 10
    ensures [1, 1, 1] !in EnumCombin([1, 2, 3], 3, true)
    ensures [1, 1, 1] in EnumCombinRepeated([1, 2, 3], 3)
  {
    CounterexampleCount();
    CounterexampleIntendedCount();
    CounterexampleMissing();
    CounterexampleIntended();
  }

  lemma CounterexampleIntendedCount()
    ensures |EnumCombinRepeated([1, 2, 3], 3)| == 10
  {
    assert Binomial(5, 3) == 10;
    RepeatedCount([1, 2, 3], 3);
  }

  lemma CounterexampleCount()
    ensures |EnumCombin([1, 2, 3], 3, true)| == 4
  {
    var items := [1, 2, 3];
    assert items[1..] == [2, 3] && [2, 3][1..] == [3];
    Decompose(items, 3, true);
    Decompose([2, 3], 3, true);
    Decompose([3], 3, true);
    Decompose([3][1..], 3, true);
    CombinationCount(items, 2);
    CombinationCount([2, 3], 2);
    CombinationCount([3], 2);
    assert Binomial(3, 2) == 3 && Binomial(2, 2) == 1 && Binomial(1, 2) == 0;
  }

  lemma CounterexampleMissing()
    ensures [1, 1, 1] !in EnumCombin([1, 2, 3], 3, true)
  {
    var items := [1, 2, 3];
    assert items[1..] == [2, 3];
    Decompose(items, 3, true);
    Decompose(items, 2, false);
    TupleShape([2, 3], 3, true);
    TupleShape([2, 3], 2, false);
    TupleShape([2, 3], 1, false);
    assert 1 !in [2, 3];
    assert [1][0] == 1 && [1, 1][0] == 1 && [1, 1, 1][0] == 1;
    assert !TupleOf([1], 1, [2, 3]) && !TupleOf([1, 1], 2, [2, 3]) && !TupleOf([1, 1, 1], 3, [2, 3]);
    InPrepend(1, EnumCombin([2, 3], 1, false), [1, 1]);
    InPrepend(1, EnumCombin(items, 2, false), [1, 1, 1]);
  }

  lemma CounterexampleIntended()
    ensures [1, 1, 1] in EnumCombinRepeated([1, 2, 3], 3)
  {
    var items := [1, 2, 3];
    DecomposeRepeated(items, 3);
    DecomposeRepeated(items, 2);
    DecomposeRepeated(items, 1);
    InPrepend(1, EnumCombinRepeated(items, 0), [1]);
    InPrepend(1, EnumCombinRepeated(items, 1), [1, 1]);
    InPrepend(1, EnumCombinRepeated(items, 2), [1, 1, 1]);
  }

  /** `enumarteCombination` with the repetition flag passed on in the recursion. */
  function EnumerateCombinationIntended<T>(items: seq<T>, count: int, isRepetition: bool := false)
    : (r: Result<seq<seq<T>>, CombinationError>)
    ensures r.Failure? <==> count < 0 || count > |items|
    ensures r.Success? && isRepetition ==> |r.value| == Binomial(|items| + count - 1, count)
    ensures r.Success? && !isRepetition ==> |r.value| == Binomial(|items|, count)
  {
    if count < 0 || count > |items| then Failure(CountOutOfRange)
    else if isRepetition then
      RepeatedCount(items, count);
      Success(EnumCombinRepeated(items, count))
    else
      CombinationCount(items, count);
      Success(EnumCombin(items, count, false))
  }

  lemma PrependOne<T>(x: T, a: seq<T>)
    ensures Prepend(x, [a]) == [[x] + a]
  {
  }

  lemma PrependTwo<T>(x: T, a: seq<T>, b: seq<T>)
    ensures Prepend(x, [a, b]) == [[x] + a, [x] + b]
  {
  }

  /** Taking one item gives each item on its own, in order, with or without the flag. */
  lemma {:induction false} Singletons<T>(items: seq<T>, isRepetition: bool)
    ensures EnumCombin(items, 1, isRepetition) == seq(|items|, i requires 0 <= i < |items| => [items[i]])
    decreases |items|
  {
    Decompose(items, 1, isRepetition);
    if items != [] {
      Singletons(items[1..], isRepetition);
      assert EnumCombin(items[if isRepetition then 0 else 1..], 0, false) == [[]];
      PrependOne(items[0], []);
      assert [items[0]] + [] == [items[0]];
      var r := EnumCombin(items, 1, isRepetition);
      forall i | 0 <= i < |items|
        ensures r[i] == [items[i]]
      {
        if i > 0 {
          assert r[i] == EnumCombin(items[1..], 1, isRepetition)[i - 1];
        }
      }
    }
  }

  /** Two of [1, 2, 3] without repetition. */
  lemma PairsExample()
    ensures EnumerateCombination([1, 2, 3], 2) == Success([[1, 2], [1, 3], [2, 3]])
  {
    var items := [1, 2, 3];
    assert items[1..] == [2, 3];
    Decompose(items, 2, false);
    Singletons([2, 3], false);
    assert EnumCombin([2, 3], 1, false) == [[2], [3]];
    PrependTwo(1, [2], [3]);
    assert [1] + [2] == [1, 2] && [1] + [3] == [1, 3];
    ChooseAll([2, 3]);
    assert EnumCombin(items, 2, false) == [[1, 2], [1, 3]] + [[2, 3]] == [[1, 2], [1, 3], [2, 3]];
    assert EnumerateCombination(items, 2) == Success(EnumCombin(items, 2, false));
  }

  /** Two of [1, 2] with the flag set. */
  lemma PairsWithRepetitionExample()
    ensures EnumerateCombination([1, 2], 2, true) == Success([[1, 1], [1, 2], [2, 2]])
  {
    var items := [1, 2];
    assert items[1..] == [2];
    Decompose(items, 2, true);
    Singletons(items, false);
    assert EnumCombin(items, 1, false) == [[1], [2]];
    PrependTwo(1, [1], [2]);
    assert [1] + [1] == [1, 1] && [1] + [2] == [1, 2];
    Decompose([2], 2, true);
    Singletons([2], false);
    assert EnumCombin([2], 1, false) == [[2]];
    PrependOne(2, [2]);
    assert [2] + [2] == [2, 2];
    Decompose([2][1..], 2, true);
    assert EnumCombin([2], 2, true) == [[2, 2]];
    assert EnumCombin(items, 2, true) == [[1, 1], [1, 2]] + [[2, 2]] == [[1, 1], [1, 2], [2, 2]];
    assert EnumerateCombination(items, 2, true) == Success(EnumCombin(items, 2, true));
  }

  /** Asking for more items than there are fails. */
  lemma TooManyExample()
    ensures EnumerateCombination([1, 2, 3], 4) == Failure(CountOutOfRange)
  {
  }

  // ---------------------------------------------------------------------
  // Cartesian product

  /**
   * `cartesianProduct(...args)`: no sequences give the one empty tuple;
   * otherwise every element of the first sequence, in order, followed by
   * each tuple of the product of the rest.
   */
  function CartesianProduct<T>(args: seq<seq<T>>): seq<seq<T>>
    decreases |args|
  {
    if |args| == 0 then [[]] else PrependEach(args[0], CartesianProduct(args[1..]))
  }

  /** For every element of `firsts`, in order, that element followed by each of `rests`. */
  function PrependEach<T>(firsts: seq<T>, rests: seq<seq<T>>): seq<seq<T>> {
    if firsts == [] then [] else Prepend(firsts[0], rests) + PrependEach(firsts[1..], rests)
  }

  lemma {:induction false} PrependEachLength<T>(firsts: seq<T>, rests: seq<seq<T>>)
    ensures |PrependEach(firsts, rests)| == |firsts| * |rests|
  {
    if firsts != [] {
      PrependEachLength(firsts[1..], rests);
      assert |firsts| * |rests| == |rests| + (|firsts| - 1) * |rests|;
    }
  }

  /** Tuple number i * |rests| + j is element i of `firsts` followed by tuple j of `rests`. */
  lemma {:induction false} PrependEachIndex<T>(firsts: seq<T>, rests: seq<seq<T>>, i: nat, j: nat)
    requires i < |firsts| && j < |rests|
    ensures i * |rests| + j < |PrependEach(firsts, rests)|
    ensures PrependEach(firsts, rests)[i * |rests| + j] == [firsts[i]] + rests[j]
  {
    var head := Prepend(firsts[0], rests);
    var tail := PrependEach(firsts[1..], rests);
    assert PrependEach(firsts, rests) == head + tail;
    if i > 0 {
      var k := (i - 1) * |rests| + j;
      PrependEachIndex(firsts[1..], rests, i - 1, j);
      assert i * |rests| + j == |rests| + k by {
        assert i * |rests| == (i - 1) * |rests| + |rests|;
      }
      assert (head + tail)[|rests| + k] == tail[k];
    }
  }

  lemma {:induction false} InPrependEach<T>(firsts: seq<T>, rests: seq<seq<T>>, t: seq<T>)
    ensures t in PrependEach(firsts, rests) <==> |t| > 0 && t[0] in firsts && t[1..] in rests
  {
    if firsts != [] {
      InPrepend(firsts[0], rests, t);
      InPrependEach(firsts[1..], rests, t);
    }
  }

  /** The product of the lengths of the sequences. */
  function LengthProduct<T>(args: seq<seq<T>>): nat {
    if |args| == 0 then 1 else |args[0]| * LengthProduct(args[1..])
  }

  /** There are as many tuples as the product of the sequence lengths. */
  lemma {:induction false} CartesianProductLength<T>(args: seq<seq<T>>)
    ensures |CartesianProduct(args)| == LengthProduct(args)
  {
    if |args| > 0 {
      CartesianProductLength(args[1..]);
      PrependEachLength(args[0], CartesianProduct(args[1..]));
    }
  }

  /** One empty sequence makes the whole product empty, unlike no sequences at all. */
  lemma {:induction false} EmptyFactor<T>(args: seq<seq<T>>, k: nat)
    requires k < |args| && args[k] == []
    ensures CartesianProduct(args) == []
  {
    if k > 0 {
      EmptyFactor(args[1..], k - 1);
    }
    CartesianProductLength(args);
    CartesianProductLength(args[1..]);
  }

  /** The tuples are exactly those that take their i-th item from the i-th sequence. */
  lemma {:induction false} InCartesianProduct<T>(args: seq<seq<T>>, t: seq<T>)
    ensures t in CartesianProduct(args) <==>
      |t| == |args| && forall i :: 0 <= i < |t| ==> t[i] in args[i]
  {
    if |args| > 0 {
      InPrependEach(args[0], CartesianProduct(args[1..]), t);
      if |t| > 0 {
        InCartesianProduct(args[1..], t[1..]);
      }
      if |t| == |args| > 0 {
        assert forall i :: 1 <= i < |t| ==> t[i] == t[1..][i - 1] && args[i] == args[1..][i - 1];
      }
    }
  }

  /**
   * Nested-loop order, the last sequence varying fastest: tuple number
   * i * |rest| + j is item i of the first sequence followed by tuple j of
   * the product of the others.
   */
  lemma CartesianProductOrder<T>(args: seq<seq<T>>, i: nat, j: nat)
    requires |args| > 0 && i < |args[0]| && j < |CartesianProduct(args[1..])|
    ensures i * |CartesianProduct(args[1..])| + j < |CartesianProduct(args)|
    ensures CartesianProduct(args)[i * |CartesianProduct(args[1..])| + j]
         == [args[0][i]] + CartesianProduct(args[1..])[j]
  {
    PrependEachIndex(args[0], CartesianProduct(args[1..]), i, j);
  }

  /** Small products: no sequences, two sequences of two, and an empty factor. */
  lemma CartesianProductExamples()
    ensures CartesianProduct<int>([]) == [[]]
    ensures CartesianProduct([[1, 2], [10, 20]]) == [[1, 10], [1, 20], [2, 10], [2, 20]]
    ensures CartesianProduct([[1, 2], []]) == []
  {
    var args: seq<seq<int>> := [[1, 2], [10, 20]];
    assert args[1..] == [[10, 20]] && |args[1..][1..]| == 0;
    assert CartesianProduct(args[1..]) == [[10], [20]] by {
      var none: seq<seq<int>> := [[]];
      assert [10, 20][1..] == [20];
      assert PrependEach([20][1..], none) == [];
      PrependOne(20, []);
      PrependOne(10, []);
      assert [20] + [] == [20] && [10] + [] == [10];
      assert PrependEach([10, 20], none) == [[10], [20]];
    }
    assert PrependEach([1, 2], [[10], [20]]) == [[1, 10], [1, 20], [2, 10], [2, 20]] by {
      assert [1, 2][1..] == [2];
      assert PrependEach([2][1..], [[10], [20]]) == [];
      PrependTwo(2, [10], [20]);
      PrependTwo(1, [10], [20]);
      assert [2] + [10] == [2, 10] && [2] + [20] == [2, 20];
      assert [1] + [10] == [1, 10] && [1] + [20] == [1, 20];
    }
    EmptyFactor([[1, 2], []], 1);
  }
}
