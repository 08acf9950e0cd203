/** Choosing the next or previous token of a walk (`_chooseRandomNextWord`
    and `_chooseRandomPreviousWord` in src/Workers.js). Both draw a uniform
    index into the node's map as a fallback and then run a weighted pass over
    the map in insertion order; the two `Math.random()` readings are passed in
    as reals in `[0, 1)`. */
module Selection {
  import opened Wrappers
  import opened Counts
  import opened Chain

  /** A `Math.random()` reading. */
  predicate Unit(u: real) {
    0.0 <= u < 1.0
  }

  /** `Math.floor(u * size)`: a uniform index into a collection of `size`
      elements. */
  function PickIndex(u: real, size: nat): (k: int)
    requires Unit(u) && size > 0
    ensures 0 <= k < size
  {
    var n := size as real;
    var x := u * n;
    assert 0.0 <= x < n by {
      assert (1.0 - u) * n > 0.0;
    }
    assert x.Floor as real <= x;
    x.Floor
  }

  /** `Math.random() * total + 1`: the weight threshold of a pass. */
  function Threshold(u: real, total: int): real {
    u * (total as real) + 1.0
  }

  // ---------------------------------------------------------------------------
  // Successor choice

  /** The weighted pass of `_chooseRandomNextWord` from entry `j` on, with
      `acc` the running `accumulate`: each entry's count is subtracted first,
      and the entry is taken once the remainder is at most `select` and the
      entry is not the current word itself. (The `inAfterWords` disjunct is
      always false: its callback has a block body without `return`.) */
  function NextRoulette(m: Counts, j: nat, acc: int, select: real, word: string): (r: Option<string>)
    requires j <= |m|
    ensures r.Some? ==> r.value in Keys(m) && r.value != word
    decreases |m| - j
  {
    if j == |m| then None
    else
      var acc' := acc - m[j].count;
      if acc' as real <= select && m[j].key != word then assert Keys(m)[j] == m[j].key; Some(m[j].key)
      else NextRoulette(m, j + 1, acc', select, word)
  }

  /** `_chooseRandomNextWord(corpus, word)` with the two readings `u1`
      (index) and `u2` (weight). `null` when the token has no successors;
      otherwise one of its successors. */
  function ChooseRandomNextWord(c: Chain, word: string, u1: real, u2: real): (r: Option<string>)
    requires Word(word) in c.nodes && Unit(u1) && Unit(u2)
    ensures r.None? <==> |c.nodes[Word(word)].nextWords| == 0
    ensures r.Some? ==> r.value in Keys(c.nodes[Word(word)].nextWords)
  {
    var n := c.nodes[Word(word)];
    var m := n.nextWords;
    if |m| == 0 then None
    else
      var fallback := Keys(m)[PickIndex(u1, |m|)];
      var select := Threshold(u2, n.nw);
      Some(NextRoulette(m, 0, n.nw, select, word).GetOr(fallback))
  }

  /** Entry `j` passes the successor test: the counts after it sum to at most
      `select`, and it is not the current word. */
  ghost predicate NextQualifies(m: Counts, select: real, word: string, j: int) {
    0 <= j < |m| && (Sum(m[j + 1..]) as real) <= select && m[j].key != word
  }

  /** The first entry at or after `j` that passes the successor test, or
      `|m|` when there is none. */
  ghost function FirstNextQualifying(m: Counts, select: real, word: string, j: nat): (k: nat)
    requires j <= |m|
    ensures j <= k <= |m|
    ensures k < |m| ==> NextQualifies(m, select, word, k)
    ensures forall i :: j <= i < k ==> !NextQualifies(m, select, word, i)
    decreases |m| - j
  {
    if j == |m| || NextQualifies(m, select, word, j) then j
    else FirstNextQualifying(m, select, word, j + 1)
  }

  /** Reading the `accumulate` of the pass as the total minus the counts seen
      so far: with `acc` equal to the sum of the entries from `j` on, the pass
      takes the first entry at or after `j` that passes the test. */
  lemma {:induction false} NextRouletteIsFirstQualifying(m: Counts, j: nat, acc: int, select: real, word: string)
    requires j <= |m| && acc == Sum(m[j..])
    ensures var k := FirstNextQualifying(m, select, word, j);
      NextRoulette(m, j, acc, select, word) == if k < |m| then Some(m[k].key) else None
    decreases |m| - j
  {
    if j < |m| {
      assert m[j..][1..] == m[j + 1..];
      assert acc - m[j].count == Sum(m[j + 1..]);
      NextRouletteIsFirstQualifying(m, j + 1, acc - m[j].count, select, word);
    }
  }

  /** The successor pick: when the map's total is its sum, the weighted pass
      returns the first successor other than `word` whose later entries sum
      to at most `select = u2 * nw + 1`; the uniformly drawn index is used
      only when no successor passes that test. */
  lemma NextPickIsFirstQualifying(c: Chain, word: string, u1: real, u2: real)
    requires Word(word) in c.nodes && Unit(u1) && Unit(u2)
    requires NodeOk(c.nodes[Word(word)])
    ensures var n := c.nodes[Word(word)];
      var m := n.nextWords;
      var k := FirstNextQualifying(m, Threshold(u2, n.nw), word, 0);
      ChooseRandomNextWord(c, word, u1, u2)
        == if |m| == 0 then None
           else if k < |m| then Some(m[k].key)
           else Some(m[PickIndex(u1, |m|)].key)
  {
    var n := c.nodes[Word(word)];
    var m := n.nextWords;
    if |m| > 0 {
      var select := Threshold(u2, n.nw);
      var idx := PickIndex(u1, |m|);
      assert m[0..] == m;
      assert n.nw == Sum(m);
      NextRouletteIsFirstQualifying(m, 0, n.nw, select, word);
      assert Keys(m)[idx] == m[idx].key;
      assert ChooseRandomNextWord(c, word, u1, u2) == Some(NextRoulette(m, 0, n.nw, select, word).GetOr(Keys(m)[idx]));
    }
  }

  /** The last successor always meets the threshold (nothing comes after it),
      so the uniform fallback is taken only when that last successor is the
      current word itself; otherwise the pick is never the current word. */
  lemma NextFallbackOnlyForSelfLoop(c: Chain, word: string, u1: real, u2: real)
    requires Word(word) in c.nodes && Unit(u1) && Unit(u2)
    requires NodeOk(c.nodes[Word(word)])
    requires var m := c.nodes[Word(word)].nextWords; |m| > 0 && m[|m| - 1].key != word
    ensures ChooseRandomNextWord(c, word, u1, u2) != Some(word)
  {
    var n := c.nodes[Word(word)];
    var m := n.nextWords;
    var select := Threshold(u2, n.nw);
    assert m[|m|..] == [];
    assert NextQualifies(m, select, word, |m| - 1);
    NextPickIsFirstQualifying(c, word, u1, u2);
  }

  // ---------------------------------------------------------------------------
  // Predecessor choice

  /** The weighted pass of `_chooseRandomPreviousWord`: unlike the successor
      pass, each count is ADDED to `accumulate`. */
  function PrevRoulette(m: Counts, j: nat, acc: int, select: real, word: string): (r: Option<string>)
    requires j <= |m|
    ensures r.Some? ==> r.value in Keys(m) && r.value != word
    decreases |m| - j
  {
    if j == |m| then None
    else
      var acc' := acc + m[j].count;
      if acc' as real <= select && m[j].key != word then assert Keys(m)[j] == m[j].key; Some(m[j].key)
      else PrevRoulette(m, j + 1, acc', select, word)
  }

  /** `_chooseRandomPreviousWord(corpus, word)` with the readings `u1`
      (index) and `u2` (weight). */
  function ChooseRandomPreviousWord(c: Chain, word: string, u1: real, u2: real): (r: Option<string>)
    requires Word(word) in c.nodes && Unit(u1) && Unit(u2)
    ensures r.None? <==> |c.nodes[Word(word)].previousWords| == 0
    ensures r.Some? ==> r.value in Keys(c.nodes[Word(word)].previousWords)
  {
    var n := c.nodes[Word(word)];
    var m := n.previousWords;
    if |m| == 0 then None
    else
      var fallback := Keys(m)[PickIndex(u1, |m|)];
      var select := Threshold(u2, n.pw);
      Some(PrevRoulette(m, 0, n.pw, select, word).GetOr(fallback))
  }

  /** Once `accumulate` exceeds `select` the growing sum never comes back
      under it, so the pass finds nothing. */
  lemma {:induction false} PrevRouletteAboveSelect(m: Counts, j: nat, acc: int, select: real, word: string)
    requires j <= |m| && (acc as real) + 1.0 > select
    ensures PrevRoulette(m, j, acc, select, word).None?
    decreases |m| - j
  {
    if j < |m| {
      PrevRouletteAboveSelect(m, j + 1, acc + m[j].count, select, word);
    }
  }

  /** The predecessor pick ignores the weights: `accumulate` starts at `pw`
      and only grows, while `select = u2 * pw + 1` stays below `pw + 1`, so
      whenever the total is positive the weighted pass never takes an entry
      and the result is the uniformly drawn index. In a node whose total is
      its sum this is every node with predecessors. */
  lemma PrevPickIsUniformIndex(c: Chain, word: string, u1: real, u2: real)
    requires Word(word) in c.nodes && Unit(u1) && Unit(u2)
    requires c.nodes[Word(word)].pw > 0
    ensures var m := c.nodes[Word(word)].previousWords;
      |m| > 0 ==> ChooseRandomPreviousWord(c, word, u1, u2) == Some(m[PickIndex(u1, |m|)].key)
  {
    var n := c.nodes[Word(word)];
    var m := n.previousWords;
    ScaledBelow(u2, n.pw as real);
    PrevRouletteAboveSelect(m, 0, n.pw, Threshold(u2, n.pw), word);
    if |m| > 0 {
      assert Keys(m)[PickIndex(u1, |m|)] == m[PickIndex(u1, |m|)].key;
    }
  }

  /** A reading below 1 scales a positive amount down. */
  lemma ScaledBelow(u: real, x: real)
    requires Unit(u) && x > 0.0
    ensures u * x < x
  {
    assert (1.0 - u) * x > 0.0;
  }
}
