/** Walks on the grid: sequences of 4-connected cells that avoid obstacles.
    They are the reference against which the search is judged: a found path
    is such a walk and no walk is shorter; a failed search means no walk
    exists. */
module Walks {
  import opened GridWorld

  /** w leads from `from` to `to` in unit moves; every cell after the first
      is free (the search starts on its start cell whatever that cell holds). */
  ghost predicate IsWalk(g: seq<seq<char>>, w: seq<Pos>, from: Pos, to: Pos) {
    && |w| > 0
    && w[0] == from
    && w[|w| - 1] == to
    && InBounds(from)
    && (forall i :: 0 < i < |w| ==> Free(g, w[i]))
    && (forall i :: 0 <= i < |w| - 1 ==> Adjacent(w[i], w[i + 1]))
  }

  /** Every walk from `from` to `to` makes at least n moves. */
  ghost predicate NoWalkShorter(g: seq<seq<char>>, from: Pos, to: Pos, n: int) {
    forall w :: IsWalk(g, w, from, to) ==> n <= |w| - 1
  }

  /** No walk leads from `from` to `to`. */
  ghost predicate Unreachable(g: seq<seq<char>>, from: Pos, to: Pos) {
    forall w :: !IsWalk(g, w, from, to)
  }

  /** Admissibility: the Manhattan distance from any cell of a walk to its end
      never exceeds the number of moves left. */
  lemma {:induction false} DistanceAtMostWalk(g: seq<seq<char>>, w: seq<Pos>, from: Pos, to: Pos, i: int)
    requires IsWalk(g, w, from, to)
    requires 0 <= i < |w|
    ensures Distance(w[i], to) <= |w| - 1 - i
    decreases |w| - i
  {
    if i < |w| - 1 {
      DistanceAtMostWalk(g, w, from, to, i + 1);
      HeuristicStep(w[i], w[i + 1], to);
    }
  }

  /** Cutting out the loop between two visits of the same cell leaves a walk. */
  lemma CutLoop(g: seq<seq<char>>, w: seq<Pos>, from: Pos, to: Pos, i: int, j: int)
    requires IsWalk(g, w, from, to)
    requires 0 <= i < j < |w| && w[i] == w[j]
    ensures IsWalk(g, w[..i] + w[j..], from, to)
    ensures |w[..i] + w[j..]| < |w|
  {
    var v := w[..i] + w[j..];
    assert forall k :: 0 <= k < i ==> v[k] == w[k];
    assert forall k :: i <= k < |v| ==> v[k] == w[k - i + j];
    forall k | 0 <= k < |v| - 1
      ensures Adjacent(v[k], v[k + 1])
    {
      if k + 1 < i {
        assert Adjacent(w[k], w[k + 1]);
      } else if k + 1 == i {
        assert Adjacent(w[k], w[k + 1]);
      } else {
        assert Adjacent(w[k - i + j], w[k - i + j + 1]);
      }
    }
  }

  /** A sequence of distinct integers drawn from a set is no longer than the set. */
  lemma {:induction false} DistinctWithin(s: seq<int>, bound: set<int>)
    requires forall k :: 0 <= k < |s| ==> s[k] in bound
    requires forall k, l :: 0 <= k < l < |s| ==> s[k] != s[l]
    ensures |s| <= |bound|
  {
    if |s| > 0 {
      DistinctWithin(s[1..], bound - {s[0]});
    }
  }

  /** The keys 0, ..., n-1, one for each cell of a grid of n cells. */
  function KeyRange(n: nat): (r: set<int>)
    ensures |r| == n
    ensures forall k :: k in r <==> 0 <= k < n
  {
    if n == 0 then {} else KeyRange(n - 1) + {n - 1}
  }

  /** Pigeonhole: more in-bounds cells than the grid has must repeat one. */
  lemma Pigeonhole(w: seq<Pos>)
    requires forall k :: 0 <= k < |w| ==> InBounds(w[k])
    requires |w| > Width * Height
    ensures exists i, j :: 0 <= i < j < |w| && w[i] == w[j]
  {
    if forall i, j :: 0 <= i < j < |w| ==> w[i] != w[j] {
      var keys := seq(|w|, k requires 0 <= k < |w| => Key(w[k]));
      forall k, l | 0 <= k < l < |keys|
        ensures keys[k] != keys[l]
      {
        KeyInjective(w[k], w[l]);
      }
      forall k | 0 <= k < |keys|
        ensures keys[k] in KeyRange(Width * Height)
      {
        KeyInjective(w[k], w[k]);
      }
      DistinctWithin(keys, KeyRange(Width * Height));
      assert false;
    }
  }

  /** Whenever some walk exists, one of at most Width * Height cells exists. */
  lemma {:induction false} ShortWalk(g: seq<seq<char>>, w: seq<Pos>, from: Pos, to: Pos)
    requires IsWalk(g, w, from, to)
    ensures exists v :: IsWalk(g, v, from, to) && |v| <= Width * Height
    decreases |w|
  {
    if |w| > Width * Height {
      assert forall k :: 0 <= k < |w| ==> InBounds(w[k]);
      Pigeonhole(w);
      var i, j :| 0 <= i < j < |w| && w[i] == w[j];
      CutLoop(g, w, from, to, i, j);
      ShortWalk(g, w[..i] + w[j..], from, to);
    }
  }
}
