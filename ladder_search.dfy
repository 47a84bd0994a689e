/**
 * The word-ladder search: a breadth-first search over partial ladders held in
 * a FIFO queue, level by level, that returns every shortest ladder from the
 * start word to the destination word.
 *
 * `seen` holds the words of earlier levels and blocks them; `cache` collects
 * the words reached while the current level is expanded, and is merged into
 * `seen` only when the first ladder of the next level is dequeued. Sibling
 * ladders of one level may therefore share a word, which is what lets the
 * search find all shortest ladders rather than one. Once a ladder reaches the
 * destination, the search stops at the next level boundary.
 */
module LadderSearch {
  import opened Neighbours
  import opened LadderGraph

  /** The last words of the non-empty ladders in `ls`. */
  ghost function LastWords(ls: seq<Ladder>): (r: set<string>) {
    set q {:trigger q in ls} | q in ls && |q| >= 1 :: Last(q)
  }

  /** `q` is `base` followed by one word taken from `words`. */
  ghost predicate ExtendsBy(q: Ladder, base: Ladder, words: set<string>) {
    |q| == |base| + 1 && q[..|base|] == base && q[|base|] in words
  }

  /**
   * Appends `currLadder + [n]` to the queue for every neighbour `n` that is
   * not yet seen, and records each such `n` in the cache.
   */
  method PushExtensions(ladders: seq<Ladder>, cache: set<string>, seen: set<string>,
                        currLadder: Ladder, neighbours: set<string>)
    returns (ladders': seq<Ladder>, cache': set<string>)
    ensures |ladders'| >= |ladders| && ladders'[..|ladders|] == ladders
    ensures forall q {:trigger q in ladders'[|ladders|..]} | q in ladders'[|ladders|..] ::
      ExtendsBy(q, currLadder, neighbours - seen)
    ensures forall n | n in neighbours && n !in seen :: currLadder + [n] in ladders'[|ladders|..]
    ensures |ladders'| == |ladders| + |neighbours - seen|
    ensures cache' == cache + (neighbours - seen)
  {
    ladders', cache' := ladders, cache;
    var rest := neighbours;
    // the unseen neighbours handled so far
    ghost var pushed: set<string> := {};
    // the ladders queued so far
    ghost var added: seq<Ladder> := [];
    while rest != {}
      invariant rest <= neighbours && pushed == (neighbours - rest) - seen
      invariant ladders' == ladders + added && |added| == |pushed|
      invariant forall q {:trigger q in added} | q in added :: ExtendsBy(q, currLadder, neighbours - seen)
      invariant forall n | n in pushed :: currLadder + [n] in added
      invariant cache' == cache + pushed
      decreases rest
    {
      var neighbour :| neighbour in rest;
      TakeOne(neighbours, rest, seen, neighbour);
      if neighbour !in seen {
        var newLadder := currLadder + [neighbour];
        PushOne(ladders, added, cache, pushed, currLadder, neighbours - seen, neighbour);
        ladders' := ladders' + [newLadder];
        cache' := cache' + {neighbour};
        pushed := pushed + {neighbour};
        added := added + [newLadder];
      }
      rest := rest - {neighbour};
    }
    assert neighbours - rest == neighbours;
    assert ladders'[..|ladders|] == ladders && ladders'[|ladders|..] == added;
  }

  /** Queueing `base + [n]` keeps the queued ladders extensions of `base` that cover the handled words. */
  lemma PushOne(ladders: seq<Ladder>, added: seq<Ladder>, cache: set<string>, pushed: set<string>,
                base: Ladder, words: set<string>, n: string)
    requires forall q {:trigger q in added} | q in added :: ExtendsBy(q, base, words)
    requires forall m | m in pushed :: base + [m] in added
    requires n in words && n !in pushed && |added| == |pushed|
    ensures (ladders + added) + [base + [n]] == ladders + (added + [base + [n]])
    ensures |added + [base + [n]]| == |pushed + {n}|
    ensures (cache + pushed) + {n} == cache + (pushed + {n})
    ensures forall q {:trigger q in added + [base + [n]]} | q in added + [base + [n]] ::
      ExtendsBy(q, base, words)
    ensures forall m | m in pushed + {n} :: base + [m] in added + [base + [n]]
  {
    assert (base + [n])[..|base|] == base;
  }

  /** Moving `n` out of `rest` adds it to the handled unseen neighbours exactly when it is unseen. */
  lemma TakeOne(neighbours: set<string>, rest: set<string>, seen: set<string>, n: string)
    requires rest <= neighbours && n in rest
    ensures n !in (neighbours - rest) - seen
    ensures n !in seen ==> (neighbours - (rest - {n})) - seen == ((neighbours - rest) - seen) + {n}
    ensures n in seen ==> (neighbours - (rest - {n})) - seen == (neighbours - rest) - seen
  {
  }

  /**
   * Every shortest path of `k + 1` words that extends a ladder of `done` not
   * ending in `dest` is in `nxt`.
   */
  ghost predicate Extended(lexicon: set<string>, start: string, dest: string, k: int,
                           done: set<Ladder>, nxt: seq<Ladder>)
  {
    forall q {:trigger IsShortestPath(lexicon, start, q), q[..k] in done} |
      k >= 1 && IsShortestPath(lexicon, start, q) && |q| == k + 1 && q[..k] in done && Last(q[..k]) != dest :: q in nxt
  }

  /**
   * A complete level `k` in which some ladder ends in `dest`: its ladders
   * ending in `dest` are exactly the shortest ladders.
   */
  lemma LevelReachesDest(lexicon: set<string>, start: string, dest: string, k: int,
                         done: set<Ladder>, output: set<Ladder>)
    requires forall p {:trigger p in done} {:trigger IsShortestPath(lexicon, start, p)} ::
      p in done <==> IsShortestPath(lexicon, start, p) && |p| == k
    requires forall p {:trigger p in output} :: p in output <==> p in done && |p| >= 1 && Last(p) == dest
    requires output != {}
    ensures forall p :: p in output <==> IsShortestLadder(lexicon, start, dest, p)
  {
    var r :| r in output;
    ShortestLadderIsShortestPath(lexicon, start, dest, r);
    forall p ensures p in output <==> IsShortestLadder(lexicon, start, dest, p) {
      ShortestLadderIsShortestPath(lexicon, start, dest, p);
      if IsShortestLadder(lexicon, start, dest, p) {
        assert |p| <= |r| && |r| <= |p|;
      }
    }
  }

  /**
   * A complete level `k` in which no ladder ends in `dest`, with no ladder of
   * fewer words reaching `dest` and no level after it: no ladder reaches
   * `dest` at all.
   */
  lemma LevelsExhausted(lexicon: set<string>, start: string, dest: string, k: int, done: set<Ladder>)
    requires k >= 1
    requires forall p {:trigger p in done} {:trigger IsShortestPath(lexicon, start, p)} ::
      p in done <==> IsShortestPath(lexicon, start, p) && |p| == k
    requires forall p {:trigger p in done} | p in done :: Last(p) != dest
    requires Extended(lexicon, start, dest, k, done, [])
    requires !ReachableWithin(lexicon, start, dest, k - 1)
    ensures forall p :: !IsLadder(lexicon, start, dest, p)
  {
    forall q | IsShortestPath(lexicon, start, q) ensures |q| != k + 1 {
      if |q| == k + 1 {
        PrefixOfShortest(lexicon, start, q);
      }
    }
    forall p | IsPathFrom(lexicon, start, p) ensures ReachableWithin(lexicon, start, Last(p), k) {
      NoLongerLevel(lexicon, start, k, p);
    }
    forall r | IsPathFrom(lexicon, start, r) && Last(r) == dest ensures |r| > k {
      assert |r| == k ==> r in done;
    }
  }

  /**
   * At a level boundary with the destination not yet reached: the ladders
   * queued for level `k + 1` are exactly its shortest paths, merging the
   * cache into `seen` gives the words reachable within `k + 1` words, and no
   * ladder of at most `k` words reaches `dest`.
   */
  lemma NextLevel(lexicon: set<string>, start: string, dest: string, k: int,
                  done: set<Ladder>, nxt: seq<Ladder>, seen: set<string>, cache: set<string>)
    requires k >= 1
    requires forall p {:trigger p in done} {:trigger IsShortestPath(lexicon, start, p)} ::
      p in done <==> IsShortestPath(lexicon, start, p) && |p| == k
    requires forall p {:trigger p in done} | p in done :: Last(p) != dest
    requires forall q {:trigger q in nxt} | q in nxt :: IsShortestPath(lexicon, start, q) && |q| == k + 1
    requires Extended(lexicon, start, dest, k, done, nxt)
    requires forall w {:trigger w in seen} {:trigger ReachableWithin(lexicon, start, w, k)} ::
      w in seen <==> ReachableWithin(lexicon, start, w, k)
    requires LastWords(nxt) <= cache <= seen + LastWords(nxt)
    requires !ReachableWithin(lexicon, start, dest, k - 1)
    ensures forall p {:trigger p in nxt} {:trigger IsShortestPath(lexicon, start, p)} ::
      p in nxt <==> IsShortestPath(lexicon, start, p) && |p| == k + 1
    ensures forall w {:trigger w in seen + cache} {:trigger ReachableWithin(lexicon, start, w, k + 1)} ::
      w in seen + cache <==> ReachableWithin(lexicon, start, w, k + 1)
    ensures !ReachableWithin(lexicon, start, dest, k)
  {
    forall p | IsShortestPath(lexicon, start, p) && |p| == k + 1 ensures p in nxt {
      PrefixOfShortest(lexicon, start, p);
    }
    forall w ensures w in seen + cache <==> ReachableWithin(lexicon, start, w, k + 1) {
      if w in cache && w !in seen {
        var q :| q in nxt && |q| >= 1 && Last(q) == w;
      }
      if ReachableWithin(lexicon, start, w, k + 1) && !ReachableWithin(lexicon, start, w, k) {
        var q :| IsPathFrom(lexicon, start, q) && Last(q) == w && |q| <= k + 1;
        assert IsShortestPath(lexicon, start, q);
        assert Last(q) in LastWords(nxt);
      }
    }
    forall r | IsPathFrom(lexicon, start, r) && Last(r) == dest ensures |r| > k {
      assert |r| == k ==> r in done;
    }
  }

  /**
   * Expanding one ladder of level `k` by its unseen neighbours yields exactly
   * the shortest paths of `k + 1` words that extend it.
   */
  lemma ExtendStep(lexicon: set<string>, start: string, k: int, seen: set<string>,
                   currLadder: Ladder, neighbours: set<string>, added: seq<Ladder>)
    requires IsShortestPath(lexicon, start, currLadder) && |currLadder| == k
    requires neighbours == Nbrs(lexicon, Last(currLadder))
    requires forall w {:trigger w in seen} {:trigger ReachableWithin(lexicon, start, w, k)} ::
      w in seen <==> ReachableWithin(lexicon, start, w, k)
    requires forall q {:trigger q in added} | q in added :: ExtendsBy(q, currLadder, neighbours - seen)
    requires forall n | n in neighbours && n !in seen :: currLadder + [n] in added
    ensures forall q {:trigger q in added} | q in added :: IsShortestPath(lexicon, start, q) && |q| == k + 1
    ensures forall q {:trigger IsShortestPath(lexicon, start, q)} |
      IsShortestPath(lexicon, start, q) && |q| == k + 1 && q[..k] == currLadder :: q in added
    ensures LastWords(added) == neighbours - seen
    ensures neighbours <= lexicon
  {
    forall q | q in added ensures IsShortestPath(lexicon, start, q) {
      SplitLast(q, k);
      ExtendShortest(lexicon, start, currLadder, q[k]);
    }
    forall q | IsShortestPath(lexicon, start, q) && |q| == k + 1 && q[..k] == currLadder ensures q in added {
      SplitLast(q, k);
      assert q[k] in Nbrs(lexicon, q[k - 1]);
    }
    forall n | n in neighbours - seen ensures n in LastWords(added) {
      assert Last(currLadder + [n]) == n;
    }
    forall n | n in neighbours ensures n in lexicon {
      NeighboursSound(lexicon, Last(currLadder), n);
    }
  }

  lemma SplitLast(q: Ladder, k: int)
    requires |q| == k + 1 && k >= 0
    ensures q == q[..k] + [q[k]]
  {
  }

  lemma LastWordsAppend(a: seq<Ladder>, b: seq<Ladder>)
    ensures LastWords(a + b) == LastWords(a) + LastWords(b)
  {
    assert forall q :: q in a + b <==> q in a || q in b;
  }

  lemma QueueAppend(ladders: seq<Ladder>, ladders': seq<Ladder>, cur: seq<Ladder>, nxt: seq<Ladder>)
    requires ladders == cur + nxt
    requires |ladders'| >= |ladders| && ladders'[..|ladders|] == ladders
    ensures ladders' == cur + (nxt + ladders'[|ladders|..])
  {
  }

  lemma QueuePop(cur: seq<Ladder>, nxt: seq<Ladder>)
    requires |cur| >= 1
    ensures (cur + nxt)[1..] == cur[1..] + nxt
    ensures forall p :: p in cur <==> p == cur[0] || p in cur[1..]
  {
  }

  /** Removing an element of `b` that `a` lacks makes the difference smaller. */
  lemma DifferenceShrinks(u: set<string>, a: set<string>, b: set<string>, x: string)
    requires a <= b && x in u && x in b && x !in a
    ensures |u - b| < |u - a|
  {
    assert u - b <= u - a;
    assert (u - a) == (u - b) + ((u - a) - (u - b));
    assert x in (u - a) - (u - b);
  }

  /**
   * The state of the search while level `k` is expanded: `done` and `cur`
   * (the processed and the queued ladders of `k` words) are together exactly
   * the shortest paths of `k` words; `nxt` (the ladders of `k + 1` words
   * behind them in the queue) holds shortest paths only, and every shortest
   * extension of a processed ladder that does not end in `dest`; `seen` is
   * exactly the words reachable within `k` words; the cache holds the last
   * words of `nxt` and nothing outside `seen` besides; the output is the
   * processed ladders that end in `dest`, and while it is empty no ladder of
   * fewer than `k` words reaches `dest`.
   */
  ghost predicate SearchInv(lexicon: set<string>, start: string, dest: string, k: int,
                            cur: seq<Ladder>, nxt: seq<Ladder>, done: set<Ladder>,
                            seen: set<string>, cache: set<string>, output: set<Ladder>, retFlag: bool)
  {
    && k >= 1
    && (forall p {:trigger p in cur} | p in cur :: |p| == k)
    && (forall p {:trigger p in done} {:trigger p in cur} {:trigger IsShortestPath(lexicon, start, p)} ::
          p in done || p in cur <==> IsShortestPath(lexicon, start, p) && |p| == k)
    && (forall q {:trigger q in nxt} | q in nxt :: IsShortestPath(lexicon, start, q) && |q| == k + 1)
    && Extended(lexicon, start, dest, k, done, nxt)
    && (forall w {:trigger w in seen} {:trigger ReachableWithin(lexicon, start, w, k)} ::
          w in seen <==> ReachableWithin(lexicon, start, w, k))
    && LastWords(nxt) <= cache <= seen + LastWords(nxt)
    && seen <= lexicon + {start} && cache <= lexicon + {start}
    && (forall p {:trigger p in output} {:trigger p in done} :: p in output <==> p in done && |p| >= 1 && Last(p) == dest)
    && (retFlag <==> output != {})
    && (!retFlag ==> !ReachableWithin(lexicon, start, dest, k - 1))
  }

  /**
   * The head of the queue is a non-empty ladder with an ASCII last word; it
   * has `k` words while the current level lasts, and once the level is used up
   * the queue holds the next level alone and its head has `k + 1` words.
   */
  lemma QueueHead(lexicon: set<string>, start: string, dest: string, k: int, ladders: seq<Ladder>,
                  cur: seq<Ladder>, nxt: seq<Ladder>, done: set<Ladder>,
                  seen: set<string>, cache: set<string>, output: set<Ladder>, retFlag: bool)
    requires ladders == cur + nxt && ladders != []
    requires SearchInv(lexicon, start, dest, k, cur, nxt, done, seen, cache, output, retFlag)
    ensures |ladders[0]| >= 1 && IsAscii(ladders[0][|ladders[0]| - 1])
    ensures cur != [] ==> ladders[0] == cur[0] && |ladders[0]| == k
    ensures cur == [] ==> ladders[0] == nxt[0] && |ladders[0]| == k + 1 && ladders == nxt + []
  {
    var head := ladders[0];
    if cur != [] {
      assert head == cur[0] && head in cur;
    } else {
      assert head == nxt[0] && head in nxt;
    }
    assert IsShortestPath(lexicon, start, head);
  }

  /** The search starts with the one-word ladder of `start` as the whole first level. */
  lemma InitialState(lexicon: set<string>, start: string, dest: string)
    requires IsAscii(start)
    ensures SearchInv(lexicon, start, dest, 1, [[start]], [], {}, {start}, {}, {}, false)
  {
    StartIsShortest(lexicon, start);
    forall p | IsShortestPath(lexicon, start, p) && |p| == 1 ensures p == [start] {
      assert p == [p[0]];
    }
    assert LastWords([]) == {};
  }

  /** Crossing a level boundary before `dest` was reached: the queued ladders become the whole next level. */
  lemma BoundaryStep(lexicon: set<string>, start: string, dest: string, k: int, k': int,
                     nxt: seq<Ladder>, done: set<Ladder>, seen: set<string>, cache: set<string>,
                     output: set<Ladder>, retFlag: bool)
    requires SearchInv(lexicon, start, dest, k, [], nxt, done, seen, cache, output, retFlag)
    requires nxt != [] && !retFlag && k' == k + 1
    ensures SearchInv(lexicon, start, dest, k', nxt, [], {}, seen + cache, cache, output, retFlag)
    ensures |nxt[0]| == k + 1
    ensures |lexicon + {start} - (seen + cache)| < |lexicon + {start} - seen|
  {
    NextLevel(lexicon, start, dest, k, done, nxt, seen, cache);
    assert nxt[0] in nxt;
    assert Last(nxt[0]) in LastWords(nxt);
    assert Last(nxt[0]) !in seen;
    DifferenceShrinks(lexicon + {start}, seen, seen + cache, Last(nxt[0]));
    LevelStart(lexicon, start, dest, k', nxt, seen + cache, cache, output);
  }

  /** A level whose ladders are all queued, with nothing processed yet and no output. */
  lemma LevelStart(lexicon: set<string>, start: string, dest: string, k: int,
                   cur: seq<Ladder>, seen: set<string>, cache: set<string>, output: set<Ladder>)
    requires k >= 1 && output == {}
    requires forall p {:trigger p in cur} {:trigger IsShortestPath(lexicon, start, p)} ::
      p in cur <==> IsShortestPath(lexicon, start, p) && |p| == k
    requires forall w {:trigger w in seen} {:trigger ReachableWithin(lexicon, start, w, k)} ::
      w in seen <==> ReachableWithin(lexicon, start, w, k)
    requires cache <= seen <= lexicon + {start}
    requires !ReachableWithin(lexicon, start, dest, k - 1)
    ensures SearchInv(lexicon, start, dest, k, cur, [], {}, seen, cache, output, false)
  {
  }

  /** Dequeuing a ladder that ends in `dest` records it in the output. */
  lemma DestStep(lexicon: set<string>, start: string, dest: string, k: int,
                 cur: seq<Ladder>, nxt: seq<Ladder>, done: set<Ladder>,
                 seen: set<string>, cache: set<string>, output: set<Ladder>, retFlag: bool)
    requires SearchInv(lexicon, start, dest, k, cur, nxt, done, seen, cache, output, retFlag)
    requires cur != [] && cur[0] != [] && Last(cur[0]) == dest
    ensures SearchInv(lexicon, start, dest, k, cur[1..], nxt, done + {cur[0]},
                      seen, cache, output + {cur[0]}, true)
  {
    QueuePop(cur, nxt);
  }

  /** Dequeuing a ladder that does not end in `dest` queues its extensions by unseen neighbours. */
  lemma ExpandStep(lexicon: set<string>, start: string, dest: string, k: int,
                   cur: seq<Ladder>, nxt: seq<Ladder>, done: set<Ladder>,
                   seen: set<string>, cache: set<string>, output: set<Ladder>, retFlag: bool,
                   neighbours: set<string>, added: seq<Ladder>)
    requires SearchInv(lexicon, start, dest, k, cur, nxt, done, seen, cache, output, retFlag)
    requires cur != [] && cur[0] != [] && Last(cur[0]) != dest
    requires IsAscii(Last(cur[0])) && neighbours == Nbrs(lexicon, Last(cur[0]))
    requires forall q {:trigger q in added} | q in added :: ExtendsBy(q, cur[0], neighbours - seen)
    requires forall n | n in neighbours && n !in seen :: cur[0] + [n] in added
    ensures SearchInv(lexicon, start, dest, k, cur[1..], nxt + added, done + {cur[0]},
                      seen, cache + (neighbours - seen), output, retFlag)
  {
    QueuePop(cur, nxt);
    ExtendStep(lexicon, start, k, seen, cur[0], neighbours, added);
    LastWordsAppend(nxt, added);
    forall q | IsShortestPath(lexicon, start, q) && |q| == k + 1 &&
               q[..k] in done + {cur[0]} && Last(q[..k]) != dest
      ensures q in nxt + added
    {
    }
  }

  /** The result at the end of the search: the complete last level's ladders ending in `dest`. */
  lemma FinalState(lexicon: set<string>, start: string, dest: string, k: int,
                   nxt: seq<Ladder>, done: set<Ladder>,
                   seen: set<string>, cache: set<string>, output: set<Ladder>, retFlag: bool)
    requires SearchInv(lexicon, start, dest, k, [], nxt, done, seen, cache, output, retFlag)
    requires retFlag || nxt == []
    ensures forall p :: p in output <==> IsShortestLadder(lexicon, start, dest, p)
    ensures output == {} <==> forall p :: !IsLadder(lexicon, start, dest, p)
  {
    if retFlag {
      LevelReachesDest(lexicon, start, dest, k, done, output);
      var r :| r in output;
      assert IsLadder(lexicon, start, dest, r);
    } else {
      LevelsExhausted(lexicon, start, dest, k, done);
    }
  }

  /**
   * Processes the ladder at the head of the queue, which belongs to the
   * current level: a ladder ending in `dest` goes to the output and sets the
   * flag; any other ladder is extended by each neighbour of its last word that
   * is not yet seen, the extensions are queued and their last words cached.
   * The ladder itself stays at the head of the queue for the caller to pop.
   */
  method VisitLadder(lexicon: set<string>, start: string, dest: string, currSize: int,
                     ladders: seq<Ladder>, seen: set<string>, cache: set<string>,
                     output: set<Ladder>, retFlag: bool,
                     ghost cur: seq<Ladder>, ghost nxt: seq<Ladder>, ghost done: set<Ladder>)
    returns (ladders': seq<Ladder>, cache': set<string>, output': set<Ladder>, retFlag': bool,
             ghost nxt': seq<Ladder>)
    requires ladders == cur + nxt && cur != []
    requires SearchInv(lexicon, start, dest, currSize, cur, nxt, done, seen, cache, output, retFlag)
    ensures |ladders[0]| >= 1 && IsAscii(Last(ladders[0]))
    ensures |ladders'| >= |ladders| && ladders'[..|ladders|] == ladders
    ensures Last(ladders[0]) == dest ==>
              ladders' == ladders && cache' == cache && output' == output + {ladders[0]} && retFlag'
    ensures Last(ladders[0]) != dest ==>
              output' == output && retFlag' == retFlag &&
              cache' == cache + (Nbrs(lexicon, Last(ladders[0])) - seen) &&
              |ladders'| == |ladders| + |Nbrs(lexicon, Last(ladders[0])) - seen|
    ensures Last(ladders[0]) != dest ==>
              forall q {:trigger q in ladders'[|ladders|..]} | q in ladders'[|ladders|..] ::
                ExtendsBy(q, ladders[0], Nbrs(lexicon, Last(ladders[0])) - seen)
    ensures Last(ladders[0]) != dest ==>
              forall n | n in Nbrs(lexicon, Last(ladders[0])) - seen :: ladders[0] + [n] in ladders'[|ladders|..]
    ensures ladders' == cur + nxt'
    ensures SearchInv(lexicon, start, dest, currSize, cur[1..], nxt', done + {cur[0]},
                      seen, cache', output', retFlag')
  {
    var currLadder := ladders[0];
    QueueHead(lexicon, start, dest, currSize, ladders, cur, nxt, done, seen, cache, output, retFlag);
    var currWord := currLadder[|currLadder| - 1];
    if currWord == dest {
      DestStep(lexicon, start, dest, currSize, cur, nxt, done, seen, cache, output, retFlag);
      ladders', cache', nxt' := ladders, cache, nxt;
      retFlag' := true;
      output' := output + {currLadder};
    } else {
      var neighbours := GetNeighbours(lexicon, currWord);
      output', retFlag' := output, retFlag;
      ladders', cache' := PushExtensions(ladders, cache, seen, currLadder, neighbours);
      ghost var added := ladders'[|ladders|..];
      QueueAppend(ladders, ladders', cur, nxt);
      ExpandStep(lexicon, start, dest, currSize, cur, nxt, done, seen, cache, output, retFlag,
                 neighbours, added);
      nxt' := nxt + added;
    }
  }

  /**
   * Returns the set of shortest ladders from `start` to `dest`: every ladder
   * in it is a shortest one, every shortest one is in it, and it is empty
   * exactly when no ladder reaches `dest`.
   */
  method WordLadder(lexicon: set<string>, start: string, dest: string) returns (output: set<Ladder>)
    requires IsAscii(start)
    ensures forall p :: p in output <==> IsShortestLadder(lexicon, start, dest, p)
    ensures output == {} <==> forall p :: !IsLadder(lexicon, start, dest, p)
  {
    var begin := [start];
    var ladders: seq<Ladder> := [begin];
    output := {};
    var currSize := |begin|;
    var seen: set<string> := {start};
    var cache: set<string> := {};
    var retFlag := false;

    // the queue is the rest of the current level followed by the next level
    ghost var cur: seq<Ladder> := [begin];
    ghost var nxt: seq<Ladder> := [];
    // the ladders of the current level already dequeued
    ghost var done: set<Ladder> := {};
    InitialState(lexicon, start, dest);

    while ladders != []
      invariant ladders == cur + nxt
      invariant SearchInv(lexicon, start, dest, currSize, cur, nxt, done, seen, cache, output, retFlag)
      decreases |lexicon + {start} - seen|, |cur|
    {
      var currLadder := ladders[0];
      QueueHead(lexicon, start, dest, currSize, ladders, cur, nxt, done, seen, cache, output, retFlag);

      // a longer ladder starts the next level: stop, or merge the cache into seen
      if |currLadder| != currSize {
        if retFlag {
          FinalState(lexicon, start, dest, currSize, nxt, done, seen, cache, output, retFlag);
          return;
        }
        BoundaryStep(lexicon, start, dest, currSize, |currLadder|, nxt, done, seen, cache, output, retFlag);
        seen := seen + cache;
        currSize := |currLadder|;
        cur, nxt, done := nxt, [], {};
      }

      ghost var next;
      ladders, cache, output, retFlag, next :=
        VisitLadder(lexicon, start, dest, currSize, ladders, seen, cache, output, retFlag, cur, nxt, done);
      nxt := next;
      QueuePop(cur, nxt);
      ladders := ladders[1..];
      cur, done := cur[1..], done + {cur[0]};
    }
    FinalState(lexicon, start, dest, currSize, nxt, done, seen, cache, output, retFlag);
  }

  /** Asked for ladders from a word to itself, the search's result is the one-word ladder. */
  lemma SameWordLadders(lexicon: set<string>, start: string, output: set<Ladder>)
    requires IsAscii(start)
    requires forall p :: p in output <==> IsShortestLadder(lexicon, start, start, p)
    ensures output == {[start]}
  {
    forall p ensures p in output <==> p == [start] {
      LadderToItself(lexicon, start, p);
    }
  }
}
