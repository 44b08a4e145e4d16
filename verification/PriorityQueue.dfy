/** log_tools::priority_queue for pointers: a list that leaves in the order of its priority factors. */
module PriorityQueue {

  /** The position of the first item with factor f, or the length of c. */
  function FirstWith<V, F(==)>(factorOf: V -> F, f: F, c: seq<V>): (r: nat)
    ensures r <= |c|
    ensures forall k :: 0 <= k < r ==> factorOf(c[k]) != f
    ensures r < |c| ==> factorOf(c[r]) == f
  {
    if c == [] || factorOf(c[0]) == f then 0 else 1 + FirstWith(factorOf, f, c[1..])
  }

  /** Where top() leaves max_value: factor after factor, then the front. */
  function TopIndex<V, F(==)>(factorOf: V -> F, factors: seq<F>, c: seq<V>): (r: nat)
    requires c != []
    ensures r < |c|
  {
    if factors == [] then 0
    else
      var i := FirstWith(factorOf, factors[0], c);
      if i < |c| then i else TopIndex(factorOf, factors[1..], c)
  }

  function Without<V>(c: seq<V>, i: nat): (r: seq<V>)
    requires i < |c|
    ensures |r| == |c| - 1
  {
    c[..i] + c[i + 1..]
  }

  /** The first position of f among the factors; unlisted factors come last. */
  function Rank<F(==)>(factors: seq<F>, f: F): (r: nat)
    ensures r <= |factors|
    ensures r < |factors| ==> factors[r] == f
    ensures forall k :: 0 <= k < r ==> factors[k] != f
  {
    if factors == [] || factors[0] == f then 0 else 1 + Rank(factors[1..], f)
  }

  /** top() picks the first item of the lowest rank present. */
  lemma {:induction false} TopIsFirstOfLowestRank<V, F>(factorOf: V -> F, factors: seq<F>, c: seq<V>, j: nat)
    requires j < |c|
    ensures var i := TopIndex(factorOf, factors, c);
            && Rank(factors, factorOf(c[i])) <= Rank(factors, factorOf(c[j]))
            && (j < i ==> Rank(factors, factorOf(c[i])) < Rank(factors, factorOf(c[j])))
  {
    if factors != [] {
      var i := FirstWith(factorOf, factors[0], c);
      if i == |c| {
        TopIsFirstOfLowestRank(factorOf, factors[1..], c, j);
      }
    }
  }

  /** The items of c with rank r, in their order. */
  function OfRank<V, F(==)>(factorOf: V -> F, factors: seq<F>, c: seq<V>, r: nat): seq<V> {
    if c == [] then []
    else (if Rank(factors, factorOf(c[0])) == r then [c[0]] else []) + OfRank(factorOf, factors, c[1..], r)
  }

  lemma OfRankCons<V, F>(factorOf: V -> F, factors: seq<F>, v: V, c: seq<V>, r: nat)
    ensures OfRank(factorOf, factors, [v] + c, r) ==
            (if Rank(factors, factorOf(v)) == r then [v] else []) + OfRank(factorOf, factors, c, r)
    ensures OfRank(factorOf, factors, [v], r) == if Rank(factors, factorOf(v)) == r then [v] else []
  {
    hide Rank;
    assert ([v] + c)[1..] == c && [v][1..] == [];
  }

  lemma {:induction false} OfRankAppend<V, F>(factorOf: V -> F, factors: seq<F>, a: seq<V>, b: seq<V>, r: nat)
    ensures OfRank(factorOf, factors, a + b, r) == OfRank(factorOf, factors, a, r) + OfRank(factorOf, factors, b, r)
  {
    hide Rank;
    if a == [] {
      assert a + b == b;
    } else {
      OfRankAppend(factorOf, factors, a[1..], b, r);
      OfRankCons(factorOf, factors, a[0], a[1..] + b, r);
      OfRankCons(factorOf, factors, a[0], a[1..], r);
      hide OfRank;
      assert a == [a[0]] + a[1..] && a + b == [a[0]] + (a[1..] + b);
    }
  }

  lemma {:induction false} NoneOfRank<V, F>(factorOf: V -> F, factors: seq<F>, a: seq<V>, r: nat)
    requires forall k :: 0 <= k < |a| ==> Rank(factors, factorOf(a[k])) != r
    ensures OfRank(factorOf, factors, a, r) == []
  {
    if a != [] {
      NoneOfRank(factorOf, factors, a[1..], r);
    }
  }

  /** The items from rank r on: rank after rank, each in its own order. */
  function PartitionFrom<V, F(==)>(factorOf: V -> F, factors: seq<F>, c: seq<V>, r: nat): seq<V>
    decreases |factors| + 1 - r
  {
    if r > |factors| then []
    else OfRank(factorOf, factors, c, r) + PartitionFrom(factorOf, factors, c, r + 1)
  }

  /** Taking the front and popping it until nothing is left. */
  function Drain<V, F(==)>(factorOf: V -> F, factors: seq<F>, c: seq<V>): seq<V>
    decreases |c|
  {
    if c == [] then []
    else
      var i := TopIndex(factorOf, factors, c);
      [c[i]] + Drain(factorOf, factors, Without(c, i))
  }

  /** Removing the top item changes only its own rank, where it was first. */
  lemma RemoveTop<V, F>(factorOf: V -> F, factors: seq<F>, c: seq<V>, r: nat)
    requires c != []
    ensures var i := TopIndex(factorOf, factors, c);
            var rest := OfRank(factorOf, factors, Without(c, i), r);
            var top := Rank(factors, factorOf(c[i]));
            && (r < top ==> OfRank(factorOf, factors, c, r) == [])
            && OfRank(factorOf, factors, c, r) == if r == top then [c[i]] + rest else rest
  {
    var i := TopIndex(factorOf, factors, c);
    forall k | 0 <= k < |c|
      ensures Rank(factors, factorOf(c[i])) <= Rank(factors, factorOf(c[k]))
      ensures k < i ==> Rank(factors, factorOf(c[k])) != Rank(factors, factorOf(c[i]))
    {
      TopIsFirstOfLowestRank(factorOf, factors, c, k);
    }
    var before, after := c[..i], c[i + 1..];
    assert c == before + ([c[i]] + after);
    OfRankAppend(factorOf, factors, before, [c[i]] + after, r);
    OfRankAppend(factorOf, factors, [c[i]], after, r);
    OfRankAppend(factorOf, factors, before, after, r);
    if r <= Rank(factors, factorOf(c[i])) {
      NoneOfRank(factorOf, factors, before, r);
    }
    if r < Rank(factors, factorOf(c[i])) {
      NoneOfRank(factorOf, factors, c, r);
    }
  }

  lemma {:induction false} PartitionRemoveTop<V, F>(factorOf: V -> F, factors: seq<F>, c: seq<V>, r: nat)
    requires c != []
    ensures var i := TopIndex(factorOf, factors, c);
            var rest := PartitionFrom(factorOf, factors, Without(c, i), r);
            PartitionFrom(factorOf, factors, c, r) ==
            if r <= Rank(factors, factorOf(c[i])) then [c[i]] + rest else rest
    decreases |factors| + 1 - r
  {
    hide OfRank, TopIndex, Rank;
    if r <= |factors| {
      RemoveTop(factorOf, factors, c, r);
      PartitionRemoveTop(factorOf, factors, c, r + 1);
    }
  }

  /** Draining yields the stable partition: factor 0 in push order, factor 1, ..., then the unlisted rest. */
  lemma {:induction false} DrainIsStablePartition<V, F>(factorOf: V -> F, factors: seq<F>, c: seq<V>)
    ensures Drain(factorOf, factors, c) == PartitionFrom(factorOf, factors, c, 0)
    decreases |c|
  {
    if c == [] {
      EmptyPartition(factorOf, factors, 0);
    } else {
      PartitionRemoveTop(factorOf, factors, c, 0);
      DrainIsStablePartition(factorOf, factors, Without(c, TopIndex(factorOf, factors, c)));
    }
  }

  lemma {:induction false} EmptyPartition<V, F>(factorOf: V -> F, factors: seq<F>, r: nat)
    ensures PartitionFrom<V, F>(factorOf, factors, [], r) == []
    decreases |factors| + 1 - r
  {
    if r <= |factors| {
      EmptyPartition(factorOf, factors, r + 1);
    }
  }

  // ----- pushes and pops in any order -----

  datatype Op<V> = Push(item: V) | Pop

  datatype History<V> = History(c: seq<V>, pushed: seq<V>, popped: seq<V>)

  /** Pop stands for front() and pop(), which the owner calls only on a nonempty queue. */
  function Apply<V, F(==)>(factorOf: V -> F, factors: seq<F>, h: History<V>, op: Op<V>): History<V> {
    match op
    case Push(v) => History(h.c + [v], h.pushed + [v], h.popped)
    case Pop =>
      if h.c == [] then h
      else
        var i := TopIndex(factorOf, factors, h.c);
        History(Without(h.c, i), h.pushed, h.popped + [h.c[i]])
  }

  function ApplyAll<V, F(==)>(factorOf: V -> F, factors: seq<F>, h: History<V>, ops: seq<Op<V>>): History<V>
    decreases |ops|
  {
    if ops == [] then h else ApplyAll(factorOf, factors, Apply(factorOf, factors, h, ops[0]), ops[1..])
  }

  lemma FifoStep<V, F>(factorOf: V -> F, factors: seq<F>, h: History<V>, op: Op<V>, r: nat)
    requires OfRank(factorOf, factors, h.popped, r) + OfRank(factorOf, factors, h.c, r)
             == OfRank(factorOf, factors, h.pushed, r)
    ensures var h' := Apply(factorOf, factors, h, op);
            OfRank(factorOf, factors, h'.popped, r) + OfRank(factorOf, factors, h'.c, r)
            == OfRank(factorOf, factors, h'.pushed, r)
  {
    hide OfRank, Rank, TopIndex;
    if op.Push? {
      OfRankAppend(factorOf, factors, h.c, [op.item], r);
      OfRankAppend(factorOf, factors, h.pushed, [op.item], r);
    } else if h.c != [] {
      var top := h.c[TopIndex(factorOf, factors, h.c)];
      RemoveTop(factorOf, factors, h.c, r);
      OfRankAppend(factorOf, factors, h.popped, [top], r);
      OfRankCons(factorOf, factors, top, [], r);
    }
  }

  /** Within every rank the queue stays first in, first out, however pushes and pops interleave. */
  lemma {:induction false} FifoWithinRank<V, F>(
      factorOf: V -> F, factors: seq<F>, h: History<V>, ops: seq<Op<V>>, r: nat)
    requires OfRank(factorOf, factors, h.popped, r) + OfRank(factorOf, factors, h.c, r)
             == OfRank(factorOf, factors, h.pushed, r)
    ensures var end := ApplyAll(factorOf, factors, h, ops);
            OfRank(factorOf, factors, end.popped, r) + OfRank(factorOf, factors, end.c, r)
            == OfRank(factorOf, factors, end.pushed, r)
    decreases |ops|
  {
    hide OfRank, Apply;
    if ops != [] {
      FifoStep(factorOf, factors, h, ops[0], r);
      FifoWithinRank(factorOf, factors, Apply(factorOf, factors, h, ops[0]), ops[1..], r);
    }
  }

  /** No item without a listed factor leaves while an item with one is present. */
  lemma UnlistedWaits<V, F>(factorOf: V -> F, factors: seq<F>, c: seq<V>, j: nat)
    requires j < |c| && factorOf(c[j]) in factors
    ensures factorOf(c[TopIndex(factorOf, factors, c)]) in factors
  {
    TopIsFirstOfLowestRank(factorOf, factors, c, j);
  }

  // ----- the object -----

  class PriorityQueue<V, F(==)> {
    const factorOf: V -> F
    const factors: seq<F>
    var c: seq<V>
    var maxValue: nat
    ghost var chosen: bool  // maxValue refers to an item that has not been erased

    ghost predicate Valid()
      reads this
    {
      chosen ==> maxValue < |c|
    }

    /** An empty queue with the given settings, whose factors the source asserts to be distinct. */
    constructor (factorOf: V -> F, factors: seq<F>)
      requires forall i, j :: 0 <= i < j < |factors| ==> factors[i] != factors[j]
      ensures Valid() && c == [] && this.factorOf == factorOf && this.factors == factors
    {
      this.factorOf, this.factors := factorOf, factors;
      c, maxValue, chosen := [], 0, false;
    }

    method Push(x: V)
      requires Valid()
      modifies this`c
      ensures Valid() && c == old(c) + [x]
    {
      c := c + [x];
    }

    method Top() returns (v: V)
      requires Valid() && c != []
      modifies this`maxValue, this`chosen
      ensures Valid() && chosen && maxValue == TopIndex(factorOf, factors, c) && v == c[maxValue]
    {
      chosen := true;
      var f := 0;
      assert factors[0..] == factors;
      while f < |factors|
        invariant 0 <= f <= |factors|
        invariant TopIndex(factorOf, factors[f..], c) == TopIndex(factorOf, factors, c)
      {
        assert factors[f..][1..] == factors[f + 1..];
        var it := 0;
        while it < |c|
          invariant 0 <= it <= |c|
          invariant forall k :: 0 <= k < it ==> factorOf(c[k]) != factors[f]
        {
          if factorOf(c[it]) == factors[f] {
            maxValue := it;
            return c[it];
          }
          it := it + 1;
        }
        f := f + 1;
      }
      maxValue := 0;
      return c[0];
    }

    method Pop()
      requires Valid() && chosen
      modifies this`c, this`chosen
      ensures Valid() && !chosen && c == Without(old(c), maxValue)
    {
      c := Without(c, maxValue);
      chosen := false;
    }

    method Empty() returns (e: bool)
      ensures e == (c == [])
    {
      return |c| == 0;
    }
  }
}
