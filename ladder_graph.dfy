/**
 * The graph a word ladder walks: the words of the lexicon that have the
 * length of the start word, two of them adjacent when they fall into a
 * common wildcard class (the word with one position replaced by `'*'`).
 */
module LadderGraph {

  /** The character that stands for any character in a word class. */
  const Star: char := '*'

  /** The class of `w` at position `i`: `w` with its `i`-th character made `'*'`. */
  function Wildcard(w: string, i: nat): (c: string)
    requires i < |w|
    ensures |c| == |w| && c[i] == Star
    ensures forall k :: 0 <= k < |w| && k != i ==> c[k] == w[k]
  {
    w[i := Star]
  }

  /** The words of the lexicon that have length `len`. */
  ghost function Words(lexicon: set<string>, len: nat): set<string> {
    set w | w in lexicon && |w| == len
  }

  /** `w` lies in the class `c`: some position of `w` starred gives `c`. */
  ghost predicate InClass(w: string, c: string) {
    exists j :: 0 <= j < |w| && Wildcard(w, j) == c
  }

  /** `u` and `w` share a word class. */
  ghost predicate Adjacent(u: string, w: string) {
    exists i :: 0 <= i < |u| && InClass(w, Wildcard(u, i))
  }

  /** Words that agree everywhere except at exactly one position. */
  ghost predicate OneApart(u: string, w: string) {
    |u| == |w| && exists i :: 0 <= i < |u| && u[i] != w[i] && forall k :: 0 <= k < |u| && k != i ==> u[k] == w[k]
  }

  /** A word without the wildcard character in it. */
  predicate StarFree(w: string) {
    forall k :: 0 <= k < |w| ==> w[k] != Star
  }

  lemma AdjacentSameLength(u: string, w: string)
    requires Adjacent(u, w)
    ensures |u| == |w|
  {
  }

  /** Sharing a class is symmetric. */
  lemma AdjacentSymmetric(u: string, w: string)
    requires Adjacent(u, w)
    ensures Adjacent(w, u)
  {
    var i :| 0 <= i < |u| && InClass(w, Wildcard(u, i));
    var j :| 0 <= j < |w| && Wildcard(w, j) == Wildcard(u, i);
    assert InClass(u, Wildcard(w, j));
  }

  /** Every non-empty word shares each of its classes with itself. */
  lemma AdjacentReflexive(u: string)
    requires |u| > 0
    ensures Adjacent(u, u)
  {
    assert InClass(u, Wildcard(u, 0));
  }

  /** Two distinct words one position apart share the class of that position. */
  lemma OneApartAdjacent(u: string, w: string)
    requires OneApart(u, w)
    ensures Adjacent(u, w) && u != w
  {
    var i :| 0 <= i < |u| && u[i] != w[i] && forall k :: 0 <= k < |u| && k != i ==> u[k] == w[k];
    assert Wildcard(u, i) == Wildcard(w, i);
    assert InClass(w, Wildcard(u, i));
  }

  /** For words without `'*'`, sharing a class means being the same word or
      one position apart: a star in a shared class sits at the same place in both. */
  lemma AdjacentOneApart(u: string, w: string)
    requires StarFree(u) && StarFree(w) && Adjacent(u, w) && u != w
    ensures OneApart(u, w)
  {
    var i :| 0 <= i < |u| && InClass(w, Wildcard(u, i));
    var j :| 0 <= j < |w| && Wildcard(w, j) == Wildcard(u, i);
    assert Wildcard(u, i)[j] == Star;
    assert i == j;
    forall k | 0 <= k < |u| && k != i
      ensures u[k] == w[k]
    {
      assert Wildcard(u, i)[k] == Wildcard(w, j)[k];
    }
    var d :| 0 <= d < |u| && u[d] != w[d];
    assert d == i;
  }

  /** A class shared between a word with `'*'` in it and another word need
      not be at the same position: `*b` and `a*` share `**`, two positions apart. */
  lemma StarWordsAdjacent()
    ensures Adjacent("*b", "a*") && !OneApart("*b", "a*")
  {
    assert Wildcard("a*", 0) == "**";
    assert InClass("a*", Wildcard("*b", 1));
  }

  /** A walk through `words`: consecutive words adjacent. */
  ghost predicate Walk(words: set<string>, p: seq<string>) {
    && |p| > 0
    && (forall k :: 0 <= k < |p| ==> p[k] in words)
    && (forall k :: 0 <= k < |p| - 1 ==> Adjacent(p[k], p[k + 1]))
  }

  /** A ladder from `src` to `dest` through `words`. */
  ghost predicate Ladder(words: set<string>, src: string, dest: string, p: seq<string>) {
    Walk(words, p) && p[0] == src && p[|p| - 1] == dest
  }

  /** A ladder no other ladder between the same words is shorter than. */
  ghost predicate Shortest(words: set<string>, src: string, dest: string, p: seq<string>) {
    Ladder(words, src, dest, p) && forall q :: Ladder(words, src, dest, q) ==> |p| <= |q|
  }

  /** Dropping the last word of a ladder of two or more words leaves a ladder
      to the word before it. */
  lemma LadderPrefix(words: set<string>, src: string, dest: string, p: seq<string>)
    requires Ladder(words, src, dest, p) && |p| > 1
    ensures Ladder(words, src, p[|p| - 2], p[..|p| - 1])
    ensures Adjacent(p[|p| - 2], dest)
  {
  }

  /** Extending a ladder by an adjacent word gives a ladder. */
  lemma LadderExtend(words: set<string>, src: string, v: string, p: seq<string>, w: string)
    requires Ladder(words, src, v, p) && w in words && Adjacent(v, w)
    ensures Ladder(words, src, w, p + [w])
  {
  }

  /** A word repeated in place can be dropped from a ladder. */
  lemma DropRepeat(words: set<string>, src: string, dest: string, p: seq<string>, k: nat)
    requires Ladder(words, src, dest, p) && k < |p| - 1 && p[k] == p[k + 1]
    ensures Ladder(words, src, dest, p[..k] + p[k + 1..]) && |p[..k] + p[k + 1..]| == |p| - 1
  {
    var q := p[..k] + p[k + 1..];
    forall m | 0 <= m < |q| - 1
      ensures Adjacent(q[m], q[m + 1])
    {
      if m < k {
        assert q[m] == p[m] && q[m + 1] == p[m + 1];
      } else {
        assert q[m] == p[m + 1] && q[m + 1] == p[m + 2];
      }
    }
    forall m | 0 <= m < |q|
      ensures q[m] in words
    {
      if m < k { assert q[m] == p[m]; } else { assert q[m] == p[m + 1]; }
    }
    if k == 0 { assert q[0] == p[1]; } else { assert q[0] == p[0]; }
    assert q[|q| - 1] == p[|p| - 1];
  }

  /** In a shortest ladder no word follows itself, so between words without
      `'*'` every step changes exactly one position. */
  lemma ShortestSteps(words: set<string>, src: string, dest: string, p: seq<string>, k: nat)
    requires Shortest(words, src, dest, p) && k < |p| - 1
    ensures p[k] != p[k + 1]
    ensures StarFree(p[k]) && StarFree(p[k + 1]) ==> OneApart(p[k], p[k + 1])
  {
    if p[k] == p[k + 1] {
      DropRepeat(words, src, dest, p, k);
    } else if StarFree(p[k]) && StarFree(p[k + 1]) {
      AdjacentOneApart(p[k], p[k + 1]);
    }
  }
}
