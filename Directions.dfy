/**
  The direction set of the maze carver and the in-place shuffle that reorders
  it before every visit.

  The shuffle walks the array forwards and, at step i, exchanges position i
  with a position j drawn from [0, i] (the "inside-out" form of Fisher-Yates).
  `Shuffled` gives the array that a whole sequence of such picks produces; the
  lemmas below show that it only permutes, that every permutation can be
  produced, and that distinct pick sequences produce distinct arrangements.
 */
module Directions {

  /** A step (dRow, dCol); the source keeps each one as a two-element int array. */
  type Dir = (int, int)

  /** The four unit steps, in the order the directions field starts in: down, right, up, left. */
  const Units: seq<Dir> := [(1, 0), (0, 1), (-1, 0), (0, -1)]

  predicate IsUnit(d: Dir) {
    d == (1, 0) || d == (0, 1) || d == (-1, 0) || d == (0, -1)
  }

  /**
    The direction array holds the four unit steps, one of each: four entries,
    each a unit step, no two alike.
   */
  predicate IsArrangement(s: seq<Dir>) {
    |s| == 4 && IsUnit(s[0]) && IsUnit(s[1]) && IsUnit(s[2]) && IsUnit(s[3]) &&
    s[0] != s[1] && s[0] != s[2] && s[0] != s[3] && s[1] != s[2] && s[1] != s[3] && s[2] != s[3]
  }

  /** A random number as the random generator returns it: a real in [0, 1). */
  type Fraction = r: real | 0.0 <= r < 1.0

  ghost predicate Distinct<T>(s: seq<T>) {
    forall i, j :: 0 <= i < j < |s| ==> s[i] != s[j]
  }

  /** Picks that the shuffle may draw: the pick of step i lies in [0, i]. */
  predicate ValidPicks(js: seq<int>) {
    forall i :: 0 <= i < |js| ==> 0 <= js[i] <= i
  }

  /**
    The index drawn from a random number r in [0, 1) for a range of `bound`
    values: the integer part of r * bound, which is what the cast of
    `Math.random() * (i + 1)` to int yields for a non-negative product.
   */
  function Scale(r: Fraction, bound: int): (j: int)
    requires bound >= 1
    ensures 0 <= j < bound
    ensures j as real <= r * bound as real < j as real + 1.0
  {
    assert r * bound as real < bound as real by {
      assert (1.0 - r) * bound as real > 0.0;
    }
    (r * bound as real).Floor
  }

  /** Exchanges positions i and j through a temporary, as the shuffle's loop body does. */
  function Swap<T>(s: seq<T>, i: int, j: int): (r: seq<T>)
    requires 0 <= i < |s| && 0 <= j < |s|
    ensures |r| == |s|
  {
    s[i := s[j]][j := s[i]]
  }

  /** The arrangement left after the shuffle has run the steps 0 .. |js|-1 with picks js. */
  function Shuffled<T>(s: seq<T>, js: seq<int>): (r: seq<T>)
    requires |js| <= |s| && ValidPicks(js)
    ensures |r| == |s|
    decreases |js|
  {
    if js == [] then s
    else
      var n := |js| - 1;
      Swap(Shuffled(s, js[..n]), n, js[n])
  }

  lemma SwapPermutes<T>(s: seq<T>, i: int, j: int)
    requires 0 <= i < |s| && 0 <= j < |s|
    ensures multiset(Swap(s, i, j)) == multiset(s)
  {
    var t := s[i := s[j]];
    assert multiset(t) == multiset(s) - multiset{s[i]} + multiset{s[j]};
    assert multiset(t[j := s[i]]) == multiset(t) - multiset{t[j]} + multiset{s[i]};
  }

  /** The shuffle only exchanges elements: the result is a permutation of its input. */
  lemma {:induction false} ShuffledPermutes<T>(s: seq<T>, js: seq<int>)
    requires |js| <= |s| && ValidPicks(js)
    ensures multiset(Shuffled(s, js)) == multiset(s)
    decreases |js|
  {
    if js != [] {
      var n := |js| - 1;
      var before := Shuffled(s, js[..n]);
      ShuffledPermutes(s, js[..n]);
      assert Shuffled(s, js) == Swap(before, n, js[n]);
      SwapPermutes(before, n, js[n]);
    }
  }

  /** Steps 0 .. k-1 leave the positions from k onwards untouched. */
  lemma {:induction false} ShuffledKeepsSuffix<T>(s: seq<T>, js: seq<int>)
    requires |js| <= |s| && ValidPicks(js)
    ensures Shuffled(s, js)[|js|..] == s[|js|..]
    decreases |js|
  {
    if js != [] {
      var n := |js| - 1;
      ShuffledKeepsSuffix(s, js[..n]);
      var before := Shuffled(s, js[..n]);
      forall k | |js| <= k < |s|
        ensures Shuffled(s, js)[k] == s[k]
      {
        assert before[n..][k - n] == s[n..][k - n];
      }
    }
  }

  /** A shuffle of distinct elements keeps them distinct. */
  lemma {:induction false} ShuffledKeepsDistinct<T>(s: seq<T>, js: seq<int>)
    requires |js| <= |s| && ValidPicks(js) && Distinct(s)
    ensures Distinct(Shuffled(s, js))
    decreases |js|
  {
    if js != [] {
      var n := |js| - 1;
      ShuffledKeepsDistinct(s, js[..n]);
    }
  }

  /** Removing the same last element from two sequences with equal multisets keeps them equal. */
  lemma CancelLast<T>(a: seq<T>, b: seq<T>, x: T)
    requires multiset(a + [x]) == multiset(b + [x])
    ensures multiset(a) == multiset(b)
  {
    assert multiset(a) == multiset(a + [x]) - multiset{x};
    assert multiset(b) == multiset(b + [x]) - multiset{x};
  }

  /** Exchanging positions j and n (j < n) leaves everything from n + 1 onwards in place. */
  lemma SwapKeepsTail<T>(p: seq<T>, j: int, n: int)
    requires 0 <= j <= n < |p|
    ensures Swap(p, j, n)[n + 1..] == p[n + 1..]
  {
  }

  /** Exchanging two positions below k permutes the prefix of length k. */
  lemma SwapPermutesPrefix<T>(p: seq<T>, j: int, n: int, k: int)
    requires 0 <= j < k && 0 <= n < k <= |p|
    ensures multiset(Swap(p, j, n)[..k]) == multiset(p[..k])
  {
    assert Swap(p, j, n)[..k] == Swap(p[..k], j, n);
    SwapPermutes(p[..k], j, n);
  }

  /**
    Undoing the last step: exchanging position n of p with the position j that
    holds s[n] gives an arrangement that agrees with s from n onwards.
   */
  lemma UnswapLast<T>(s: seq<T>, p: seq<T>, k: nat, j: int)
    requires |p| == |s| && 0 < k <= |s| && 0 <= j < k && p[j] == s[k - 1]
    requires p[k..] == s[k..] && multiset(p[..k]) == multiset(s[..k])
    ensures Swap(p, j, k - 1)[k - 1..] == s[k - 1..]
    ensures multiset(Swap(p, j, k - 1)[..k - 1]) == multiset(s[..k - 1])
    ensures Swap(Swap(p, j, k - 1), k - 1, j) == p
  {
    UnswapTail(s, p, k, j);
    UnswapPrefix(s, p, k, j);
    SwapBack(p, j, k - 1);
  }

  /** After undoing the last step, the arrangement agrees with s from k - 1 onwards. */
  lemma UnswapTail<T>(s: seq<T>, p: seq<T>, k: nat, j: int)
    requires |p| == |s| && 0 < k <= |s| && 0 <= j < k && p[j] == s[k - 1] && p[k..] == s[k..]
    ensures Swap(p, j, k - 1)[k - 1..] == s[k - 1..]
  {
    var n := k - 1;
    SwapKeepsTail(p, j, n);
    assert Swap(p, j, n)[n..] == [s[n]] + s[k..];
    assert s[n..] == [s[n]] + s[k..];
  }

  /** After undoing the last step, the first k - 1 entries still rearrange those of s. */
  lemma UnswapPrefix<T>(s: seq<T>, p: seq<T>, k: nat, j: int)
    requires |p| == |s| && 0 < k <= |s| && 0 <= j < k && p[j] == s[k - 1]
    requires multiset(p[..k]) == multiset(s[..k])
    ensures multiset(Swap(p, j, k - 1)[..k - 1]) == multiset(s[..k - 1])
  {
    var n := k - 1;
    var q := Swap(p, j, n);
    SwapPermutesPrefix(p, j, n, k);
    assert q[..k] == q[..n] + [s[n]];
    assert s[..k] == s[..n] + [s[n]];
    CancelLast(q[..n], s[..n], s[n]);
  }

  /** Exchanging j and n, then n and j, restores the sequence. */
  lemma SwapBack<T>(s: seq<T>, j: int, n: int)
    requires 0 <= j < |s| && 0 <= n < |s|
    ensures Swap(Swap(s, j, n), n, j) == s
  {
  }

  /** One more step of the shuffle exchanges position |js| with the new pick. */
  lemma ShuffledSnoc<T>(s: seq<T>, js: seq<int>, j: int)
    requires |js| < |s| && ValidPicks(js) && 0 <= j <= |js|
    ensures ValidPicks(js + [j])
    ensures Shuffled(s, js + [j]) == Swap(Shuffled(s, js), |js|, j)
  {
    assert (js + [j])[..|js|] == js;
  }

  /** A value of the prefix s[..k] has a position in any rearrangement p[..k] of it. */
  lemma PickFor<T>(s: seq<T>, p: seq<T>, k: nat) returns (j: int)
    requires |p| == |s| && 0 < k <= |s| && multiset(p[..k]) == multiset(s[..k])
    ensures 0 <= j < k && p[j] == s[k - 1]
  {
    assert s[..k][k - 1] == s[k - 1];
    assert s[k - 1] in multiset(p[..k]);
    j :| 0 <= j < k && p[..k][j] == s[k - 1];
  }

  /**
    Every arrangement is reachable: if p agrees with s from k onwards and
    rearranges its first k entries, some picks for the steps 0 .. k-1 turn s
    into p.
   */
  lemma {:induction false} ShuffleReaches<T>(s: seq<T>, p: seq<T>, k: nat) returns (js: seq<int>)
    requires |p| == |s| && k <= |s|
    requires p[k..] == s[k..] && multiset(p[..k]) == multiset(s[..k])
    ensures |js| == k && ValidPicks(js) && Shuffled(s, js) == p
    decreases k
  {
    if k == 0 {
      assert p == p[0..] == s[0..] == s;
      js := [];
    } else {
      var n := k - 1;
      var j := PickFor(s, p, k);
      UnswapLast(s, p, k, j);
      var rest := ShuffleReaches(s, Swap(p, j, n), n);
      ShuffledSnoc(s, rest, j);
      js := rest + [j];
    }
  }

  /**
    The last step of a shuffle moved s[n] to the picked position, and undoing
    that exchange gives the arrangement before the step.
   */
  lemma LastPick<T>(s: seq<T>, js: seq<int>)
    requires 0 < |js| <= |s| && ValidPicks(js)
    ensures Shuffled(s, js)[js[|js| - 1]] == s[|js| - 1]
    ensures Shuffled(s, js[..|js| - 1]) == Swap(Shuffled(s, js), |js| - 1, js[|js| - 1])
  {
    var n := |js| - 1;
    var j := js[n];
    var before := Shuffled(s, js[..n]);
    assert Shuffled(s, js) == Swap(before, n, j);
    assert before[n] == s[n] by {
      ShuffledKeepsSuffix(s, js[..n]);
      assert before[n..][0] == s[n..][0];
    }
    SwapTwice(before, n, j);
  }

  /** Exchanging the same two positions twice restores the sequence. */
  lemma SwapTwice<T>(s: seq<T>, i: int, j: int)
    requires 0 <= i < |s| && 0 <= j < |s|
    ensures Swap(Swap(s, i, j), i, j) == s
  {
  }

  /** Distinct pick sequences produce distinct arrangements of distinct values. */
  lemma {:induction false} ShuffleInjective<T>(s: seq<T>, js1: seq<int>, js2: seq<int>)
    requires Distinct(s)
    requires |js1| == |js2| <= |s| && ValidPicks(js1) && ValidPicks(js2)
    requires Shuffled(s, js1) == Shuffled(s, js2)
    ensures js1 == js2
    decreases |js1|
  {
    if js1 != [] {
      var n := |js1| - 1;
      SameLastPick(s, js1, js2);
      ShuffleInjective(s, js1[..n], js2[..n]);
      SameLast(js1, js2);
    }
  }

  /** Two sequences of one length that agree before their last entries and on them are equal. */
  lemma SameLast<T>(a: seq<T>, b: seq<T>)
    requires 0 < |a| == |b| && a[..|a| - 1] == b[..|a| - 1] && a[|a| - 1] == b[|a| - 1]
    ensures a == b
  {
    assert a == a[..|a| - 1] + [a[|a| - 1]];
    assert b == b[..|a| - 1] + [b[|a| - 1]];
  }

  /** Two shuffles of distinct values that end alike made the same last pick and agreed before it. */
  lemma SameLastPick<T>(s: seq<T>, js1: seq<int>, js2: seq<int>)
    requires Distinct(s)
    requires 0 < |js1| == |js2| <= |s| && ValidPicks(js1) && ValidPicks(js2)
    requires Shuffled(s, js1) == Shuffled(s, js2)
    ensures js1[|js1| - 1] == js2[|js1| - 1]
    ensures Shuffled(s, js1[..|js1| - 1]) == Shuffled(s, js2[..|js1| - 1])
  {
    LastPick(s, js1);
    LastPick(s, js2);
    ShuffledKeepsDistinct(s, js1);
    DistinctAt(Shuffled(s, js1), js1[|js1| - 1], js2[|js1| - 1]);
  }

  /** In a sequence without repetitions, equal entries sit at the same position. */
  lemma DistinctAt<T>(r: seq<T>, i: int, j: int)
    requires Distinct(r) && 0 <= i < |r| && 0 <= j < |r| && r[i] == r[j]
    ensures i == j
  {
  }

  lemma ShuffleBijective<T>(s: seq<T>, p: seq<T>)
    requires Distinct(s) && |p| == |s| && multiset(p) == multiset(s)
    ensures exists js :: |js| == |s| && ValidPicks(js) && Shuffled(s, js) == p
    ensures forall js1, js2 ::
              (|js1| == |s| && |js2| == |s| && ValidPicks(js1) && ValidPicks(js2) &&
               Shuffled(s, js1) == p && Shuffled(s, js2) == p) ==> js1 == js2
  {
    var n := |s|;
    assert p[n..] == s[n..];
    assert p[..n] == p && s[..n] == s;
    var js := ShuffleReaches(s, p, n);
    forall js1, js2 |
      |js1| == n && |js2| == n && ValidPicks(js1) && ValidPicks(js2) &&
      Shuffled(s, js1) == p && Shuffled(s, js2) == p
      ensures js1 == js2
    {
      ShuffleInjective(s, js1, js2);
    }
  }

  /** Each direction occurs at most once in Units. */
  lemma UnitsOnce(d: Dir)
    ensures multiset(Units)[d] == if IsUnit(d) then 1 else 0
  {
    assert Units == [(1, 0)] + [(0, 1)] + [(-1, 0)] + [(0, -1)];
  }

  /** Two equal entries at different positions make the element occur twice. */
  lemma Twice<T>(s: seq<T>, i: int, j: int)
    requires 0 <= i < j < |s| && s[i] == s[j]
    ensures multiset(s)[s[i]] >= 2
  {
    assert s == s[..j] + s[j..];
    assert s[..j][i] == s[i] && s[j..][0] == s[i];
    assert s[i] in multiset(s[..j]) && s[i] in multiset(s[j..]);
  }

  /** Holding the directions of Units, each once, makes a sequence an arrangement. */
  lemma ArrangementOfPermutation(s: seq<Dir>)
    requires multiset(s) == multiset(Units)
    ensures IsArrangement(s)
  {
    assert |s| == |multiset(s)| == 4;
    forall i | 0 <= i < 4
      ensures IsUnit(s[i])
    {
      assert s[i] in multiset(s);
      UnitsOnce(s[i]);
    }
    forall i, j | 0 <= i < j < 4
      ensures s[i] != s[j]
    {
      if s[i] == s[j] {
        Twice(s, i, j);
        UnitsOnce(s[i]);
      }
    }
  }

  /** Four distinct unit steps take up every unit step. */
  lemma Covers(s: seq<Dir>, d: Dir)
    requires IsArrangement(s) && IsUnit(d)
    ensures d == s[0] || d == s[1] || d == s[2] || d == s[3]
  {
  }

  /** An arrangement holds the directions of Units, each once. */
  lemma PermutationOfArrangement(s: seq<Dir>)
    requires IsArrangement(s)
    ensures multiset(s) == multiset(Units)
  {
    forall d
      ensures multiset(s)[d] == multiset(Units)[d]
    {
      Count4(s, d);
      UnitsOnce(d);
      if IsUnit(d) {
        Covers(s, d);
      }
    }
  }

  /** How often d occurs in a four-element sequence, position by position. */
  lemma Count4(s: seq<Dir>, d: Dir)
    requires |s| == 4
    ensures multiset(s)[d] ==
              (if s[0] == d then 1 else 0) + (if s[1] == d then 1 else 0) +
              (if s[2] == d then 1 else 0) + (if s[3] == d then 1 else 0)
  {
    assert s == [s[0]] + [s[1]] + [s[2]] + [s[3]];
  }
}
