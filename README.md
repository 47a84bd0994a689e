# Word ladder: a verified model

This project models the word-ladder solver of `assignments/wl/word_ladder.cpp`.
A word ladder from `start` to `dest` is a sequence of words. It begins with
`start` and ends with `dest`. Each word after the first is a lexicon word that
differs from the word before it in one letter. The solver returns every
shortest ladder.

The model has three modules:

- `Neighbours` (`neighbours.dfy`) models `GetNeighbours`.
  - The method keeps both nested loops over positions and offsets 1..25.
  - It replaces one character with the same arithmetic as the source: add the
    offset, and past `'z'` take the remainder modulo `'z'` plus `'a' - 1`.
  - It is proved equal to `Nbrs`, the set of shifted candidates that the
    lexicon contains.
  - Lemmas show what that set is. For a lowercase word it holds exactly the
    lowercase lexicon words one letter away. The wrap-around never gives back
    the same character, and it reaches every other letter exactly once.
- `LadderGraph` (`ladder_graph.dfy`) holds the specification of the search.
  - Words are vertices. There is an edge from `u` to each word of
    `Nbrs(lexicon, u)`.
  - It defines paths, ladders, shortest ladders and reachability within `k`
    words.
  - It proves the graph facts the breadth-first search depends on.
- `LadderSearch` (`ladder_search.dfy`) models `WordLadder` as a method.
  - The state follows the source: a FIFO queue of partial ladders, the sets
    `seen`, `cache` and `output`, the flag `retFlag`, and the current ladder
    length `currSize`.
  - `WordLadder` returns exactly the set of shortest ladders from `start` to
    `dest`. The result is empty exactly when no ladder exists. The loop
    terminates.
  - The proof follows the search level by level:
    - Ghost state splits the queue into the rest of the current level (`cur`)
      and the next level (`nxt`). `done` holds the ladders of the current
      level already dequeued.
    - `SearchInv` states what holds at each step. `done` and `cur` together
      are all shortest paths of `k` words. `nxt` holds only shortest paths of
      `k + 1` words, and includes every extension of a processed ladder that
      does not end in `dest`. `seen` is exactly the set of words reachable
      within `k` words.
    - Each kind of step has a lemma proving that it keeps this invariant:
      crossing a level boundary, reaching `dest`, and expanding a ladder.
  - Cutting `seen` off from the words of the current level is what lets sibling
    ladders share a word. That is why every shortest ladder is returned, not
    just one.

Together with `WordLadder`'s postcondition, the graph lemmas give these
properties of the result:

- every ladder starts with `start` and ends with `dest`;
- every word after `start` is a lexicon word one letter away from the word
  before it;
- no ladder repeats a word;
- all ladders have the same length;
- when `start == dest` the result is `{[start]}`.

The solver itself decides the `start == dest` case. The driver
`assignments/wl/main.cpp` contains an unresolved merge conflict (lines 11-33),
and only one side of it (lines 23-26) rejects equal words before calling the
solver. When the solver is called with equal words, the first dequeued ladder
`[start]` already ends in `dest`, so the code returns `{[start]}`. The model
proves that outcome in `SameWordLadders`.

In the test lexicon of `assignments/wl/word_ladder_test.cpp`, the neighbours of
`"cat"` are `"cot"`, `"can"` and `"rat"`. The test only checks that the result
is non-empty and inside the lexicon. `CatNeighbours` gives the exact set.

## Model

| member | source | states |
|---|---|---|
| Neighbours.Shift | assignments/wl/word_ladder.cpp:24-25 | the replacement character of an ASCII character is ASCII and differs from it; a lowercase letter is replaced by a lowercase letter |
| Neighbours.Candidate | assignments/wl/word_ladder.cpp:22-25 | the candidate has the word's length, differs from it at position `i` and agrees with it everywhere else |
| Neighbours.GetNeighbours | assignments/wl/word_ladder.cpp:16-34 | the returned set is exactly the set of candidates (every position, offsets 1..25) that the lexicon contains |
| Neighbours.ShiftCoversAlphabet | assignments/wl/word_ladder.cpp:20-25 | for lowercase letters `c` and `d`, some offset 1..25 turns `c` into `d` if and only if `d != c` |
| Neighbours.ShiftInjective | assignments/wl/word_ladder.cpp:20-25 | two offsets that give the same character are equal, so each other letter is produced exactly once |
| Neighbours.NeighboursSound | assignments/wl/word_ladder.cpp:27-29 | every neighbour is a lexicon word of the same length, differs from the word at exactly one position (so is never the word itself), and is lowercase when the word is |
| Neighbours.LowercaseNeighbours | assignments/wl/word_ladder.cpp:16-34 | for a lowercase word, `v` is a neighbour if and only if `v` is a lowercase lexicon word one letter away |
| Neighbours.NoNeighbours | assignments/wl/word_ladder.cpp:16-34 | a lowercase word with no lowercase lexicon word one letter away has an empty neighbour set |
| Neighbours.CatNeighbours | assignments/wl/word_ladder_test.cpp:44-61 | in the test lexicon the neighbours of "cat" are exactly "cot", "can" and "rat" (non-empty and inside the lexicon) |
| Neighbours.StrangerHasNoNeighbours | assignments/wl/word_ladder_test.cpp:46-53 | in the test lexicon "zzz" has no neighbours |
| LadderGraph.PathWordsInLexicon | assignments/wl/word_ladder.cpp:89-96 | every word after the first in a ladder built from neighbours is a lexicon word one letter away from, and different from, the word before |
| LadderGraph.ExtendPath | assignments/wl/word_ladder.cpp:91-96 | appending a neighbour of the last word to a path gives a path |
| LadderGraph.StartIsShortest | assignments/wl/word_ladder.cpp:46-47 | the one-word ladder `[start]` is a shortest path, and within one word only `start` is reachable |
| LadderGraph.ReachExtend | assignments/wl/word_ladder.cpp:89-96 | if `w` is reachable within `k` words, each neighbour of `w` is reachable within `k + 1` |
| LadderGraph.PrefixOfShortest | assignments/wl/word_ladder.cpp:91-96 | dropping the last word of a shortest path leaves a shortest path |
| LadderGraph.ExtendShortest | assignments/wl/word_ladder.cpp:91-96 | a shortest path extended by a neighbour that no path of at most its length reaches is a shortest path |
| LadderGraph.NoLongerLevel | assignments/wl/word_ladder.cpp:59-101 | when no shortest path has `k + 1` words, every word reachable at all is reachable within `k` words, which is why an empty queue ends the search |
| LadderGraph.CutLoop | assignments/wl/word_ladder.cpp:91-96 | a path with a repeated word can be shortened to a path with the same last word |
| LadderGraph.ShortestNoRepeats | assignments/wl/word_ladder.cpp:91-96 | a shortest path repeats no word |
| LadderGraph.ShortestLadderIsShortestPath | assignments/wl/word_ladder.cpp:78-85 | a ladder is a shortest ladder to `dest` if and only if it is a shortest path ending in `dest` |
| LadderGraph.LadderToItself | assignments/wl/word_ladder.cpp:78-85 | from a word to itself the only shortest ladder is `[start]` |
| LadderGraph.ShortestLadderShape | assignments/wl/word_ladder.cpp:78-85 | a shortest ladder starts with `start`, ends with `dest`, repeats no word, and each later word is a lexicon word one letter from the one before |
| LadderGraph.ShortestLaddersSameLength | assignments/wl/word_ladder.cpp:63-67 | all shortest ladders between two words have the same length |
| LadderSearch.PushExtensions | assignments/wl/word_ladder.cpp:89-98 | keeps the existing queue as a prefix and appends one ladder per neighbour not in `seen`: every appended ladder is `currLadder` followed by such a neighbour, every such neighbour's ladder is appended, the queue grows by their number, and exactly those neighbours are added to the cache |
| LadderSearch.ExtendStep | assignments/wl/word_ladder.cpp:87-98 | the ladders queued for a shortest path of `k` words are exactly its shortest extensions to `k + 1` words, and their last words are the unseen neighbours |
| LadderSearch.LevelReachesDest | assignments/wl/word_ladder.cpp:63-67 | when a complete level produced output, the output is exactly the set of shortest ladders |
| LadderSearch.LevelsExhausted | assignments/wl/word_ladder.cpp:59-101 | when the queue runs empty without output, no ladder from `start` to `dest` exists |
| LadderSearch.NextLevel | assignments/wl/word_ladder.cpp:63-71 | at a level boundary without output, the queue holds exactly the shortest paths of `k + 1` words, merging the cache into `seen` gives the words reachable within `k + 1` words, and `dest` is not reachable within `k` words |
| LadderSearch.QueueHead | assignments/wl/word_ladder.cpp:59-64 | the dequeued ladder is non-empty with an ASCII last word; it has `currSize` words exactly while the current level lasts, and `currSize + 1` when it opens the next level |
| LadderSearch.InitialState | assignments/wl/word_ladder.cpp:41-56 | the initial queue `[[start]]`, `seen = {start}`, empty cache and output satisfy the search invariant |
| LadderSearch.BoundaryStep | assignments/wl/word_ladder.cpp:63-71 | at a boundary without output, merging the cache into `seen` and taking the next length keeps the invariant and strictly shrinks the set of unseen words |
| LadderSearch.LevelStart | assignments/wl/word_ladder.cpp:68-71 | a queue holding exactly the shortest paths of `k` words, with `seen` the words reachable within `k` and no output, satisfies the invariant |
| LadderSearch.DestStep | assignments/wl/word_ladder.cpp:78-85 | dequeuing a ladder that ends in `dest`, adding it to the output and setting the flag keeps the invariant |
| LadderSearch.ExpandStep | assignments/wl/word_ladder.cpp:86-98 | dequeuing any other ladder and queueing its extensions by unseen neighbours keeps the invariant |
| LadderSearch.FinalState | assignments/wl/word_ladder.cpp:63-67 | where the search returns, the output is exactly the set of shortest ladders, and is empty if and only if no ladder exists |
| LadderSearch.VisitLadder | assignments/wl/word_ladder.cpp:73-99 | the queue is only appended to; a head ladder ending in `dest` is added to the output and sets the flag, leaving queue and cache unchanged; any other head ladder leaves output and flag unchanged, adds its unseen neighbours to the cache and appends exactly one extension of the head by each of them; either way the invariant holds for the queue without the head |
| LadderSearch.WordLadder | assignments/wl/word_ladder.cpp:38-102 | the loop terminates; the result holds every shortest ladder from `start` to `dest` and nothing else, and is empty exactly when no ladder exists |
| LadderSearch.SameWordLadders | assignments/wl/word_ladder.cpp:75-85 | when `start == dest` the result is `{[start]}` |

## Left out

- Neighbours.GetNeighbours: requires an ASCII word. In C++, `next[i] + offset` on a `char` at or above 128 depends on whether `char` is signed, and the result is narrowed back to `char`. The model covers only characters below 128. For these the arithmetic needs no narrowing.
- LadderSearch.WordLadder: requires an ASCII start word, the precondition it inherits from `GetNeighbours`. Every later word is a neighbour and so is ASCII too.
- Neighbours.LowercaseNeighbours: completeness (every lexicon word one letter away is a neighbour) is stated for lowercase words only. For characters between `'z'` and 127 the wrap-around does not reach every character.
- The lexicon is an `unordered_set` and the neighbours and output are ordered `std::set`s. The model uses Dafny `set`s, so ordering is not modelled. `PushExtensions` takes the neighbours in an arbitrary order. The order of ladders within one level of the queue is therefore not the source's, but the returned set does not depend on it.
- `std::deque` is modelled as a sequence. `std::vector::size_type` and `int` are unbounded integers, because no overflow is reachable for words and offsets of realistic size.
- The driver `assignments/wl/main.cpp` and loading of the lexicon from a file (`GetLexicon`, declared in `lexicon.h`, which is not part of this model) are input and output, and are left out.
- The `assignments/ev` files (the Euclidean vector assignment) are not part of the word-ladder component and are not modelled.
- The tests in `assignments/wl/word_ladder_test.cpp:65-101` search `data/words.txt`, which is not available, so their concrete counts (2, 2 and 19 ladders) are not reproduced. The general properties they check are proved: every word after the start is in the lexicon, and all ladders have the same size. The start word is in the lexicon only because the driver checks it (`assignments/wl/main.cpp:44-47`).
