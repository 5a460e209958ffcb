/** Orderings of the candidate space by a score per candidate. A score list
    `s` is aligned with the candidate space: `s[i]` belongs to candidate `i`,
    and candidates are named by their index. */
module Ranking {

  /** The indices below `n` whose score is `k`, in increasing order. */
  function LevelBelow(s: seq<nat>, k: int, n: nat): (r: seq<nat>)
    requires n <= |s|
    ensures forall p :: 0 <= p < |r| ==> r[p] < n && s[r[p]] == k
  {
    if n == 0 then []
    else LevelBelow(s, k, n - 1) + (if s[n - 1] == k then [n - 1] else [])
  }

  /** The indices whose score is `k`, in increasing order. */
  function Level(s: seq<nat>, k: int): (r: seq<nat>)
    ensures forall p :: 0 <= p < |r| ==> r[p] < |s| && s[r[p]] == k
  {
    LevelBelow(s, k, |s|)
  }

  lemma {:induction false} LevelBelowSorted(s: seq<nat>, k: int, n: nat)
    requires n <= |s|
    ensures forall p, q :: 0 <= p < q < |LevelBelow(s, k, n)| ==>
      LevelBelow(s, k, n)[p] < LevelBelow(s, k, n)[q]
  {
    if n > 0 {
      var prev := LevelBelow(s, k, n - 1);
      var r := LevelBelow(s, k, n);
      LevelBelowSorted(s, k, n - 1);
      forall p, q | 0 <= p < q < |r|
        ensures r[p] < r[q]
      {
        if q >= |prev| {
          assert r[p] == prev[p] && r[q] == n - 1;
        } else {
          assert r[p] == prev[p] && r[q] == prev[q];
        }
      }
    }
  }

  /** A level lists its indices in increasing order. */
  lemma LevelSorted(s: seq<nat>, k: int)
    ensures forall p, q :: 0 <= p < q < |Level(s, k)| ==> Level(s, k)[p] < Level(s, k)[q]
  {
    LevelBelowSorted(s, k, |s|);
  }

  lemma {:induction false} LevelBelowHas(s: seq<nat>, k: int, n: nat, i: int)
    requires 0 <= i < n <= |s| && s[i] == k
    ensures i in LevelBelow(s, k, n)
  {
    if i < n - 1 {
      LevelBelowHas(s, k, n - 1, i);
    }
  }

  /** A level misses no index of its score. */
  lemma LevelHas(s: seq<nat>, k: int, i: int)
    requires 0 <= i < |s| && s[i] == k
    ensures i in Level(s, k)
  {
    LevelBelowHas(s, k, |s|, i);
  }

  /** Scores never increase along `r`. */
  predicate Descending(s: seq<nat>, r: seq<nat>)
    requires forall p :: 0 <= p < |r| ==> r[p] < |s|
  {
    forall p, q :: 0 <= p < q < |r| ==> s[r[p]] >= s[r[q]]
  }

  /** Entries of equal score appear along `r` in increasing index order. */
  predicate Stable(s: seq<nat>, r: seq<nat>)
    requires forall p :: 0 <= p < |r| ==> r[p] < |s|
  {
    forall p, q :: 0 <= p < q < |r| && s[r[p]] == s[r[q]] ==> r[p] < r[q]
  }

  /** The indices whose score is at most `top`, highest score first and, among
      equal scores, in increasing index order: what a stable sort by
      descending score makes of the candidate space. */
  function SortDesc(s: seq<nat>, top: int): (r: seq<nat>)
    ensures forall p :: 0 <= p < |r| ==> r[p] < |s| && s[r[p]] <= top
    decreases top
  {
    if top < 0 then [] else Level(s, top) + SortDesc(s, top - 1)
  }

  /** A level followed by lower scores, already in order, is in order. */
  lemma ConcatInOrder(s: seq<nat>, head: seq<nat>, tail: seq<nat>, top: int)
    requires forall p :: 0 <= p < |head| ==> head[p] < |s| && s[head[p]] == top
    requires forall p, q :: 0 <= p < q < |head| ==> head[p] < head[q]
    requires forall p :: 0 <= p < |tail| ==> tail[p] < |s| && s[tail[p]] < top
    requires Descending(s, tail) && Stable(s, tail)
    ensures Descending(s, head + tail) && Stable(s, head + tail)
  {
  }

  /** The sort holds every index of score at most `top`, in descending,
      stable order. */
  lemma {:induction false} SortDescSpec(s: seq<nat>, top: int)
    ensures var r := SortDesc(s, top);
      (forall i :: 0 <= i < |s| && s[i] <= top ==> i in r) &&
      Descending(s, r) && Stable(s, r)
    decreases top
  {
    if top >= 0 {
      var head := Level(s, top);
      var tail := SortDesc(s, top - 1);
      LevelSorted(s, top);
      SortDescSpec(s, top - 1);
      ConcatInOrder(s, head, tail, top);
      forall i | 0 <= i < |s| && s[i] <= top
        ensures i in head + tail
      {
        if s[i] == top {
          LevelHas(s, top, i);
        } else {
          assert i in tail;
        }
      }
    }
  }

  /** The best score among the first `n` entries of `s`. */
  function MaxBelow(s: seq<nat>, n: nat): nat
    requires 1 <= n <= |s|
  {
    if n == 1 then s[0]
    else
      var m := MaxBelow(s, n - 1);
      if s[n - 1] > m then s[n - 1] else m
  }

  /** The best score in `s`; `MaxScoreBound` and `MaxScoreAt` show that it
      bounds every score and is reached. */
  function MaxScore(s: seq<nat>): nat
    requires |s| > 0
  {
    MaxBelow(s, |s|)
  }

  lemma {:induction false} MaxBelowBound(s: seq<nat>, n: nat, i: int)
    requires 0 <= i < n <= |s|
    ensures s[i] <= MaxBelow(s, n)
  {
    if i < n - 1 {
      MaxBelowBound(s, n - 1, i);
    }
  }

  lemma MaxScoreBound(s: seq<nat>, i: int)
    requires 0 <= i < |s|
    ensures s[i] <= MaxScore(s)
  {
    MaxBelowBound(s, |s|, i);
  }

  lemma {:induction false} MaxBelowAt(s: seq<nat>, n: nat) returns (i: nat)
    requires 1 <= n <= |s|
    ensures i < n && s[i] == MaxBelow(s, n)
  {
    if n == 1 {
      i := 0;
    } else if s[n - 1] > MaxBelow(s, n - 1) {
      i := n - 1;
    } else {
      i := MaxBelowAt(s, n - 1);
    }
  }

  lemma MaxScoreAt(s: seq<nat>) returns (i: nat)
    requires |s| > 0
    ensures i < |s| && s[i] == MaxScore(s)
  {
    i := MaxBelowAt(s, |s|);
  }

  /** The entries of `idx` whose score reaches `bound`, in their order. */
  function AtLeast(idx: seq<nat>, s: seq<nat>, bound: int): (r: seq<nat>)
    requires forall p :: 0 <= p < |idx| ==> idx[p] < |s|
  {
    if |idx| == 0 then []
    else (if s[idx[0]] >= bound then [idx[0]] else []) + AtLeast(idx[1..], s, bound)
  }

  /** The relaxed candidate set: the best score's indices, then those one
      below it, each in increasing order. */
  function RelaxedIndices(s: seq<nat>): (r: seq<nat>)
    requires |s| > 0
  {
    var m: int := MaxScore(s);
    Level(s, m) + Level(s, m - 1)
  }

  /** The items at the given indices, in the order of the indices. */
  function Pick<T>(items: seq<T>, idx: seq<nat>): (r: seq<T>)
    requires forall p :: 0 <= p < |idx| ==> idx[p] < |items|
    ensures |r| == |idx|
    ensures forall p :: 0 <= p < |idx| ==> r[p] == items[idx[p]]
  {
    seq(|idx|, p requires 0 <= p < |idx| => items[idx[p]])
  }

  lemma {:induction false} AtLeastAppend(a: seq<nat>, b: seq<nat>, s: seq<nat>, bound: int)
    requires forall p :: 0 <= p < |a| ==> a[p] < |s|
    requires forall p :: 0 <= p < |b| ==> b[p] < |s|
    ensures AtLeast(a + b, s, bound) == AtLeast(a, s, bound) + AtLeast(b, s, bound)
  {
    if |a| > 0 {
      assert (a + b)[1..] == a[1..] + b;
      AtLeastAppend(a[1..], b, s, bound);
    } else {
      assert a + b == b;
    }
  }

  lemma {:induction false} AtLeastKeepsAll(a: seq<nat>, s: seq<nat>, bound: int)
    requires forall p :: 0 <= p < |a| ==> a[p] < |s| && s[a[p]] >= bound
    ensures AtLeast(a, s, bound) == a
  {
    if |a| > 0 {
      AtLeastKeepsAll(a[1..], s, bound);
      assert a == [a[0]] + a[1..];
    }
  }

  lemma {:induction false} AtLeastDropsAll(a: seq<nat>, s: seq<nat>, bound: int)
    requires forall p :: 0 <= p < |a| ==> a[p] < |s| && s[a[p]] < bound
    ensures AtLeast(a, s, bound) == []
  {
    if |a| > 0 {
      AtLeastDropsAll(a[1..], s, bound);
    }
  }

  /** Sorting the whole candidate space by descending score (stably) puts
      every index in it exactly once, and its head carries the best score. */
  lemma SortIsStablePermutation(s: seq<nat>)
    requires |s| > 0
    ensures var sorted := SortDesc(s, MaxScore(s));
      (forall i :: 0 <= i < |s| <==> i in sorted) &&
      (forall p, q :: 0 <= p < q < |sorted| ==> sorted[p] != sorted[q]) &&
      Descending(s, sorted) && Stable(s, sorted) &&
      |sorted| > 0 && s[sorted[0]] == MaxScore(s)
  {
    var m := MaxScore(s);
    var sorted := SortDesc(s, m);
    SortDescSpec(s, m);
    forall i | 0 <= i < |s|
      ensures i in sorted
    {
      MaxScoreBound(s, i);
    }
    forall p, q | 0 <= p < q < |sorted|
      ensures sorted[p] != sorted[q]
    {
      assert s[sorted[p]] >= s[sorted[q]];
    }
    HeadIsBest(s);
  }

  lemma HeadIsBest(s: seq<nat>)
    requires |s| > 0
    ensures |SortDesc(s, MaxScore(s))| > 0
    ensures s[SortDesc(s, MaxScore(s))[0]] == MaxScore(s)
  {
    var m: int := MaxScore(s);
    var head := Level(s, m);
    var i := MaxScoreAt(s);
    LevelHas(s, m, i);
    var sorted := SortDesc(s, m);
    assert sorted == head + SortDesc(s, m - 1);
    assert sorted[0] == head[0];
  }

  /** Keeping the entries of the sorted list that reach one below the top
      score leaves the top level followed by the level below it. */
  lemma FilterTopTwo(s: seq<nat>, top: int)
    requires top >= 0
    ensures AtLeast(SortDesc(s, top), s, top - 1) == Level(s, top) + Level(s, top - 1)
  {
    if top == 0 {
      FilterTopOnly(s);
    } else {
      var head := Level(s, top);
      var tail := SortDesc(s, top - 1);
      assert SortDesc(s, top) == head + tail;
      FilterSplit(head, tail, s, top - 1);
      FilterNextLevel(s, top);
    }
  }

  /** Filtering entries that all pass, followed by others, keeps the first
      part whole. */
  lemma FilterSplit(head: seq<nat>, tail: seq<nat>, s: seq<nat>, bound: int)
    requires forall p :: 0 <= p < |head| ==> head[p] < |s| && s[head[p]] >= bound
    requires forall p :: 0 <= p < |tail| ==> tail[p] < |s|
    ensures AtLeast(head + tail, s, bound) == head + AtLeast(tail, s, bound)
  {
    AtLeastAppend(head, tail, s, bound);
    AtLeastKeepsAll(head, s, bound);
  }

  lemma FilterTopOnly(s: seq<nat>)
    ensures AtLeast(SortDesc(s, 0), s, -1) == Level(s, 0) + Level(s, -1)
  {
    var head := Level(s, 0);
    var next := Level(s, -1);
    NegativeLevel(s, -1);
    AtLeastKeepsAll(head, s, -1);
    var sorted := SortDesc(s, 0);
    assert SortDesc(s, -1) == [];
    assert sorted == head + [] == head;
    assert AtLeast(sorted, s, -1) == head;
    assert head + next == head;
  }

  lemma {:induction false} NegativeLevelBelow(s: seq<nat>, k: int, n: nat)
    requires k < 0 && n <= |s|
    ensures LevelBelow(s, k, n) == []
  {
    if n > 0 {
      NegativeLevelBelow(s, k, n - 1);
    }
  }

  /** No score is negative, so a negative level is empty. */
  lemma NegativeLevel(s: seq<nat>, k: int)
    requires k < 0
    ensures Level(s, k) == []
  {
    NegativeLevelBelow(s, k, |s|);
  }

  lemma FilterNextLevel(s: seq<nat>, top: int)
    requires top >= 1
    ensures AtLeast(SortDesc(s, top - 1), s, top - 1) == Level(s, top - 1)
  {
    var next := Level(s, top - 1);
    var rest := SortDesc(s, top - 2);
    var sorted := SortDesc(s, top - 1);
    assert sorted == next + rest;
    AtLeastKeepsAll(next, s, top - 1);
    AtLeastDropsAll(rest, s, top - 1);
    AtLeastAppend(next, rest, s, top - 1);
    assert AtLeast(sorted, s, top - 1) == next + [];
  }

  /** What the source does after sorting — read the best score off the head
      and keep the entries that reach one below it — yields exactly the
      relaxed candidate set. */
  lemma SortThenFilter(s: seq<nat>)
    requires |s| > 0
    ensures |SortDesc(s, MaxScore(s))| > 0
    ensures AtLeast(SortDesc(s, MaxScore(s)), s, s[SortDesc(s, MaxScore(s))[0]] as int - 1)
      == RelaxedIndices(s)
  {
    var m: int := MaxScore(s);
    var sorted := SortDesc(s, m);
    HeadIsBest(s);
    var bound := s[sorted[0]] as int - 1;
    assert bound == m - 1;
    FilterTopTwo(s, m);
    assert RelaxedIndices(s) == Level(s, m) + Level(s, m - 1);
    assert AtLeast(sorted, s, bound) == Level(s, m) + Level(s, m - 1);
  }

  /** The relaxed set is never empty. */
  lemma RelaxedNonEmpty(s: seq<nat>)
    requires |s| > 0
    ensures |RelaxedIndices(s)| > 0
  {
    var m: int := MaxScore(s);
    var i := MaxScoreAt(s);
    LevelHas(s, m, i);
  }

  /** The relaxed set holds exactly the indices whose score is at least the
      best score minus one. */
  lemma RelaxedMembers(s: seq<nat>)
    requires |s| > 0
    ensures forall p :: 0 <= p < |RelaxedIndices(s)| ==>
      RelaxedIndices(s)[p] < |s| && s[RelaxedIndices(s)[p]] >= MaxScore(s) - 1
    ensures forall i :: 0 <= i < |s| && s[i] >= MaxScore(s) - 1 ==> i in RelaxedIndices(s)
  {
    RelaxedOnlyNearBest(s);
    RelaxedAllNearBest(s);
  }

  lemma RelaxedOnlyNearBest(s: seq<nat>)
    requires |s| > 0
    ensures forall p :: 0 <= p < |RelaxedIndices(s)| ==>
      RelaxedIndices(s)[p] < |s| && s[RelaxedIndices(s)[p]] >= MaxScore(s) - 1
  {
  }

  lemma RelaxedAllNearBest(s: seq<nat>)
    requires |s| > 0
    ensures forall i :: 0 <= i < |s| && s[i] >= MaxScore(s) - 1 ==> i in RelaxedIndices(s)
  {
    forall j | 0 <= j < |s| && s[j] >= MaxScore(s) - 1
      ensures j in RelaxedIndices(s)
    {
      RelaxedHas(s, j);
    }
  }

  lemma RelaxedHas(s: seq<nat>, j: int)
    requires 0 <= j < |s| && s[j] >= MaxScore(s) - 1
    ensures j in RelaxedIndices(s)
  {
    var m: int := MaxScore(s);
    var top := Level(s, m);
    var next := Level(s, m - 1);
    assert RelaxedIndices(s) == top + next;
    MaxScoreBound(s, j);
    if s[j] == m {
      LevelHas(s, m, j);
    } else {
      LevelHas(s, m - 1, j);
    }
  }

  /** Along the relaxed set scores never increase, and equal scores keep
      increasing index order. */
  lemma RelaxedInOrder(s: seq<nat>)
    requires |s| > 0
    ensures Descending(s, RelaxedIndices(s)) && Stable(s, RelaxedIndices(s))
  {
    var m: int := MaxScore(s);
    LevelSorted(s, m);
    LevelSorted(s, m - 1);
    ConcatInOrder(s, Level(s, m), Level(s, m - 1), m);
  }
}
