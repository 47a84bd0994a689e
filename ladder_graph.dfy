/**
 * The implicit graph the word-ladder search explores: its vertices are words,
 * and there is an edge from `u` to `v` when `v` is one of the neighbours of
 * `u` in the lexicon. Ladders are paths in this graph; this module states
 * what a shortest ladder is and proves the facts the breadth-first search
 * relies on.
 */
module LadderGraph {
  import opened Neighbours

  type Ladder = seq<string>

  function Last(p: Ladder): (w: string)
    requires |p| >= 1
  {
    p[|p| - 1]
  }

  /** A non-empty word sequence in which every word after the first is a neighbour of the one before. */
  ghost predicate IsPath(lexicon: set<string>, p: Ladder) {
    && |p| >= 1
    && (forall i | 0 <= i < |p| :: IsAscii(p[i]))
    && (forall i | 0 <= i < |p| - 1 :: p[i + 1] in Nbrs(lexicon, p[i]))
  }

  ghost predicate IsPathFrom(lexicon: set<string>, start: string, p: Ladder) {
    IsPath(lexicon, p) && p[0] == start
  }

  /** A ladder: a path that starts with `start` and ends with `dest`. */
  ghost predicate IsLadder(lexicon: set<string>, start: string, dest: string, p: Ladder) {
    IsPathFrom(lexicon, start, p) && Last(p) == dest
  }

  /** A ladder no other ladder between the same two words is shorter than. */
  ghost predicate IsShortestLadder(lexicon: set<string>, start: string, dest: string, p: Ladder) {
    IsLadder(lexicon, start, dest, p) &&
    forall q {:trigger IsLadder(lexicon, start, dest, q)} | IsLadder(lexicon, start, dest, q) :: |p| <= |q|
  }

  /** Some path from `start` of at most `k` words ends in `w`. */
  ghost predicate ReachableWithin(lexicon: set<string>, start: string, w: string, k: int) {
    exists q {:trigger IsPathFrom(lexicon, start, q)} | IsPathFrom(lexicon, start, q) :: Last(q) == w && |q| <= k
  }

  /** A path from `start` that is a shortest way of reaching its last word. */
  ghost predicate IsShortestPath(lexicon: set<string>, start: string, p: Ladder) {
    IsPathFrom(lexicon, start, p) && !ReachableWithin(lexicon, start, Last(p), |p| - 1)
  }

  predicate NoRepeats(p: Ladder) {
    forall i, j | 0 <= i < j < |p| :: p[i] != p[j]
  }

  /** Every word of a path after the first is a lexicon word one letter away from the word before it. */
  lemma PathWordsInLexicon(lexicon: set<string>, p: Ladder, i: int)
    requires IsPath(lexicon, p) && 1 <= i < |p|
    ensures p[i] in lexicon && OneApart(p[i - 1], p[i]) && p[i] != p[i - 1]
  {
  }

  /** A path extended by a neighbour of its last word is a path. */
  lemma ExtendPath(lexicon: set<string>, p: Ladder, n: string)
    requires IsPath(lexicon, p) && n in Nbrs(lexicon, Last(p))
    ensures IsPath(lexicon, p + [n])
  {
  }

  /** The one-word sequence holding `start` is a shortest path, and the only one-word path from it. */
  lemma StartIsShortest(lexicon: set<string>, start: string)
    requires IsAscii(start)
    ensures IsShortestPath(lexicon, start, [start])
    ensures forall w :: ReachableWithin(lexicon, start, w, 1) <==> w == start
  {
    assert IsPathFrom(lexicon, start, [start]);
  }

  /** Whatever a path of at most `k` words reaches, one more word reaches the neighbours of. */
  lemma ReachExtend(lexicon: set<string>, start: string, w: string, n: string, k: int)
    requires IsAscii(w) && n in Nbrs(lexicon, w)
    ensures ReachableWithin(lexicon, start, w, k) ==> ReachableWithin(lexicon, start, n, k + 1)
  {
    if ReachableWithin(lexicon, start, w, k) {
      var q :| IsPathFrom(lexicon, start, q) && Last(q) == w && |q| <= k;
      ExtendPath(lexicon, q, n);
      assert IsPathFrom(lexicon, start, q + [n]) && Last(q + [n]) == n;
    }
  }

  /** A shortest path without its last word is a shortest path to the word before. */
  lemma PrefixOfShortest(lexicon: set<string>, start: string, p: Ladder)
    requires IsShortestPath(lexicon, start, p) && |p| >= 2
    ensures IsShortestPath(lexicon, start, p[..|p| - 1])
  {
    var pre := p[..|p| - 1];
    assert IsPathFrom(lexicon, start, pre);
    assert p[|p| - 1] in Nbrs(lexicon, p[|p| - 2]);
    ReachExtend(lexicon, start, Last(pre), Last(p), |pre| - 1);
  }

  /**
   * A shortest path of `k` words extended by a neighbour that no path of at
   * most `k` words reaches is a shortest path of `k + 1` words.
   */
  lemma ExtendShortest(lexicon: set<string>, start: string, p: Ladder, n: string)
    requires IsShortestPath(lexicon, start, p)
    requires n in Nbrs(lexicon, Last(p)) && !ReachableWithin(lexicon, start, n, |p|)
    ensures IsShortestPath(lexicon, start, p + [n])
  {
  }

  /**
   * When no shortest path has `k + 1` words, every path from `start`, however
   * long, ends in a word that a path of at most `k` words already reaches.
   */
  lemma {:induction false} NoLongerLevel(lexicon: set<string>, start: string, k: int, q: Ladder)
    requires k >= 1
    requires forall p {:trigger IsShortestPath(lexicon, start, p)} | IsShortestPath(lexicon, start, p) :: |p| != k + 1
    requires IsPathFrom(lexicon, start, q)
    ensures ReachableWithin(lexicon, start, Last(q), k)
    decreases |q|
  {
    if |q| <= k {
      return;
    }
    var pre := q[..|q| - 1];
    assert IsPathFrom(lexicon, start, pre);
    NoLongerLevel(lexicon, start, k, pre);
    var r :| IsPathFrom(lexicon, start, r) && Last(r) == Last(pre) && |r| <= k;
    assert Last(q) in Nbrs(lexicon, Last(r)) by {
      assert q[|q| - 1] in Nbrs(lexicon, q[|q| - 2]);
    }
    ExtendPath(lexicon, r, Last(q));
    var r' := r + [Last(q)];
    assert IsPathFrom(lexicon, start, r') && Last(r') == Last(q);
    if |r'| > k {
      // r' has k + 1 words, so it is not a shortest path
      assert !IsShortestPath(lexicon, start, r');
    }
  }

  /** A path with a repeated word can be shortened by cutting out the loop between the repeats. */
  lemma CutLoop(lexicon: set<string>, start: string, p: Ladder, i: int, j: int)
    requires IsPathFrom(lexicon, start, p) && 0 <= i < j < |p|
    ensures p[i] == p[j] ==> ReachableWithin(lexicon, start, Last(p), |p| - 1)
  {
    if p[i] == p[j] {
      var q := p[..i] + p[j..];
      assert |q| == |p| - (j - i);
      assert forall t | 0 <= t < i :: q[t] == p[t];
      assert forall t | i <= t < |q| :: q[t] == p[t + j - i];
      forall t | 0 <= t < |q| - 1 ensures q[t + 1] in Nbrs(lexicon, q[t]) {
        if t + 1 == i {
          assert q[t + 1] == p[i];
        }
      }
      assert IsPathFrom(lexicon, start, q) && Last(q) == Last(p);
    }
  }

  /** No word occurs twice in a shortest path. */
  lemma ShortestNoRepeats(lexicon: set<string>, start: string, p: Ladder)
    requires IsShortestPath(lexicon, start, p)
    ensures NoRepeats(p)
  {
    forall i, j | 0 <= i < j < |p| ensures p[i] != p[j] {
      CutLoop(lexicon, start, p, i, j);
    }
  }

  /** The shortest ladders to `dest` are exactly the shortest paths ending in `dest`. */
  lemma ShortestLadderIsShortestPath(lexicon: set<string>, start: string, dest: string, p: Ladder)
    ensures IsShortestLadder(lexicon, start, dest, p) <==>
            IsShortestPath(lexicon, start, p) && Last(p) == dest
  {
    if IsShortestLadder(lexicon, start, dest, p) {
      forall q | IsPathFrom(lexicon, start, q) && Last(q) == dest ensures |q| > |p| - 1 {
        assert IsLadder(lexicon, start, dest, q);
      }
    }
  }

  /** From a word to itself, the only shortest ladder is the one-word ladder. */
  lemma LadderToItself(lexicon: set<string>, start: string, p: Ladder)
    requires IsAscii(start)
    ensures IsShortestLadder(lexicon, start, start, p) <==> p == [start]
  {
    assert IsLadder(lexicon, start, start, [start]);
    if IsShortestLadder(lexicon, start, start, p) {
      assert |p| <= 1;
    }
  }

  /**
   * A shortest ladder starts with `start`, ends with `dest`, repeats no word,
   * and each word after the first is a lexicon word one letter away from the
   * word before it.
   */
  lemma ShortestLadderShape(lexicon: set<string>, start: string, dest: string, p: Ladder)
    requires IsShortestLadder(lexicon, start, dest, p)
    ensures |p| >= 1 && p[0] == start && Last(p) == dest && NoRepeats(p)
    ensures forall i | 1 <= i < |p| :: p[i] in lexicon && OneApart(p[i - 1], p[i])
  {
    ShortestLadderIsShortestPath(lexicon, start, dest, p);
    ShortestNoRepeats(lexicon, start, p);
    forall i | 1 <= i < |p| ensures p[i] in lexicon && OneApart(p[i - 1], p[i]) {
      PathWordsInLexicon(lexicon, p, i);
    }
  }

  /** All shortest ladders between the same two words have the same number of words. */
  lemma ShortestLaddersSameLength(lexicon: set<string>, start: string, dest: string, p: Ladder, q: Ladder)
    requires IsShortestLadder(lexicon, start, dest, p) && IsShortestLadder(lexicon, start, dest, q)
    ensures |p| == |q|
  {
  }
}
