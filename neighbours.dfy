/**
 * Single-letter neighbours of a word in a lexicon.
 *
 * A candidate neighbour of `w` replaces the character at one position by the
 * character `offset` places further on (offset 1..25), wrapping past 'z' back
 * to 'a'. Candidates that are in the lexicon are the neighbours.
 */
module Neighbours {

  /** Number of letters in the alphabet the wrap-around is built for. */
  const AlphaLen: int := 26

  predicate IsAsciiChar(c: char) {
    c as int < 128
  }

  predicate IsLowerChar(c: char) {
    'a' <= c <= 'z'
  }

  /** Every character of `w` is ASCII (the words the wrap-around is defined for). */
  predicate IsAscii(w: string) {
    forall i | 0 <= i < |w| :: IsAsciiChar(w[i])
  }

  /** Every character of `w` is a lowercase letter. */
  predicate IsLower(w: string) {
    forall i | 0 <= i < |w| :: IsLowerChar(w[i])
  }

  /**
   * The character `offset` places after `c`: kept as is when it does not pass
   * 'z', otherwise reduced modulo the code of 'z' and moved back into the
   * lowercase range. For an ASCII `c` the result is ASCII and differs from `c`;
   * for a lowercase `c` it is lowercase.
   */
  function Shift(c: char, offset: int): (r: char)
    requires IsAsciiChar(c) && 1 <= offset < AlphaLen
    ensures IsAsciiChar(r) && r != c
    ensures IsLowerChar(c) ==> IsLowerChar(r)
  {
    var ch := c as int + offset;
    if ch <= 'z' as int then ch as char
    else
      assert ch % ('z' as int) == ch - 'z' as int;
      (ch % ('z' as int) + ('a' as int - 1)) as char
  }

  /** `w` with the character at position `i` shifted by `offset`. */
  function Candidate(w: string, i: int, offset: int): (v: string)
    requires IsAscii(w) && 0 <= i < |w| && 1 <= offset < AlphaLen
    ensures |v| == |w| && IsAscii(v)
    ensures v[i] != w[i] && forall j | 0 <= j < |w| && j != i :: v[j] == w[j]
  {
    w[i := Shift(w[i], offset)]
  }

  /** `u` and `v` have the same length and differ at exactly one position. */
  predicate OneApart(u: string, v: string) {
    |u| == |v| &&
    exists i | 0 <= i < |u| :: u[i] != v[i] && forall j | 0 <= j < |u| && j != i :: u[j] == v[j]
  }

  /** The neighbours of `w`: every candidate that is a member of the lexicon. */
  ghost function Nbrs(lexicon: set<string>, w: string): (r: set<string>)
    requires IsAscii(w)
  {
    set i, offset | 0 <= i < |w| && 1 <= offset < AlphaLen && Candidate(w, i, offset) in lexicon
      :: Candidate(w, i, offset)
  }

  /**
   * For each position of `str` and each offset 1..25, builds the shifted
   * candidate and keeps it when the lexicon holds it.
   */
  method GetNeighbours(lexicon: set<string>, str: string) returns (neighbours: set<string>)
    requires IsAscii(str)
    ensures neighbours == Nbrs(lexicon, str)
  {
    neighbours := {};
    for i := 0 to |str|
      invariant neighbours ==
        set j, offset | 0 <= j < i && 1 <= offset < AlphaLen && Candidate(str, j, offset) in lexicon
          :: Candidate(str, j, offset)
    {
      for offset := 1 to AlphaLen
        invariant neighbours ==
          (set j, o | 0 <= j < i && 1 <= o < AlphaLen && Candidate(str, j, o) in lexicon
             :: Candidate(str, j, o)) +
          (set o | 1 <= o < offset && Candidate(str, i, o) in lexicon :: Candidate(str, i, o))
      {
        var next := str[i := Shift(str[i], offset)];
        assert next == Candidate(str, i, offset);
        if next in lexicon {
          neighbours := neighbours + {next};
        }
      }
    }
  }

  /**
   * For a lowercase `c`, the offsets 1..25 reach every other lowercase letter:
   * `d` is reached exactly when it differs from `c`.
   */
  lemma ShiftCoversAlphabet(c: char, d: char)
    requires IsLowerChar(c) && IsLowerChar(d)
    ensures d != c <==> exists offset | 1 <= offset < AlphaLen :: Shift(c, offset) == d
  {
    if d != c {
      var offset := if d > c then d as int - c as int else d as int - c as int + AlphaLen;
      assert Shift(c, offset) == d;
    }
  }

  /** Distinct offsets give distinct characters, so each letter is reached once. */
  lemma ShiftInjective(c: char, o1: int, o2: int)
    requires IsAsciiChar(c) && 1 <= o1 < AlphaLen && 1 <= o2 < AlphaLen
    requires Shift(c, o1) == Shift(c, o2)
    ensures o1 == o2
  {
  }

  /**
   * Every neighbour is a lexicon word of the same length that differs from
   * `w` at exactly one position (so it is never `w` itself), and is ASCII.
   */
  lemma NeighboursSound(lexicon: set<string>, w: string, v: string)
    requires IsAscii(w) && v in Nbrs(lexicon, w)
    ensures v in lexicon && |v| == |w| && OneApart(w, v) && v != w && IsAscii(v)
    ensures IsLower(w) ==> IsLower(v)
  {
  }

  /**
   * For a lowercase word, the neighbours are exactly the lowercase lexicon
   * words one substitution away; when there is none, there are no neighbours.
   */
  lemma LowercaseNeighbours(lexicon: set<string>, w: string, v: string)
    requires IsLower(w)
    ensures IsAscii(w)
    ensures v in Nbrs(lexicon, w) <==> v in lexicon && OneApart(w, v) && IsLower(v)
  {
    assert IsAscii(w) by {
      forall k | 0 <= k < |w| ensures IsAsciiChar(w[k]) { assert IsLowerChar(w[k]); }
    }
    if v in Nbrs(lexicon, w) {
      NeighboursSound(lexicon, w, v);
    }
    if v in lexicon && OneApart(w, v) && IsLower(v) {
      var i :| 0 <= i < |w| && w[i] != v[i] && forall j | 0 <= j < |w| && j != i :: w[j] == v[j];
      ShiftCoversAlphabet(w[i], v[i]);
      var offset :| 1 <= offset < AlphaLen && Shift(w[i], offset) == v[i];
      assert Candidate(w, i, offset) == v;
    }
  }

  /** A lowercase word with no lowercase lexicon word one letter away has no neighbours. */
  lemma NoNeighbours(lexicon: set<string>, w: string)
    requires IsLower(w)
    requires forall v | v in lexicon :: !(OneApart(w, v) && IsLower(v))
    ensures IsAscii(w) && Nbrs(lexicon, w) == {}
  {
  }

  /** In a small lexicon, "cat" has the neighbours "cot", "can" and "rat". */
  lemma CatNeighbours()
    ensures Nbrs({"cat", "cot", "rat", "can", "con", "dog", "zzz"}, "cat") == {"cot", "can", "rat"}
  {
    var lexicon := {"cat", "cot", "rat", "can", "con", "dog", "zzz"};
    assert IsAscii("cat") by { LowercaseNeighbours(lexicon, "cat", "cat"); }
    // 'a' + 14 == 'o', 't' + 20 wraps to 'n', 'c' + 15 == 'r'
    assert Candidate("cat", 1, 14) == "cot";
    assert Candidate("cat", 2, 20) == "can";
    assert Candidate("cat", 0, 15) == "rat";
    forall v | v in Nbrs(lexicon, "cat") ensures v in {"cot", "can", "rat"} {
      NeighboursSound(lexicon, "cat", v);
      assert v != "con" by { NotOneApart("cat", "con", 1, 2); }
      assert v != "dog" by { NotOneApart("cat", "dog", 0, 1); }
      assert v != "zzz" by { NotOneApart("cat", "zzz", 0, 1); }
    }
  }

  /** Words that differ at two positions are not one apart. */
  lemma NotOneApart(u: string, v: string, i: int, j: int)
    requires 0 <= i < j < |u| && |u| == |v| && u[i] != v[i] && u[j] != v[j]
    ensures !OneApart(u, v)
  {
  }

  /** In the same lexicon, "zzz" has no neighbours: no word differs from it in one letter only. */
  lemma StrangerHasNoNeighbours()
    ensures Nbrs({"cat", "cot", "rat", "can", "con", "dog", "zzz"}, "zzz") == {}
  {
    var lexicon := {"cat", "cot", "rat", "can", "con", "dog", "zzz"};
    forall v | v in lexicon ensures !(OneApart("zzz", v) && IsLower(v)) {
      if v != "zzz" {
        assert "zzz"[0] != v[0] && "zzz"[1] != v[1];
      }
    }
    NoNeighbours(lexicon, "zzz");
  }
}
