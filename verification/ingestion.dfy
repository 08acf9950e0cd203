/** What one `buildChain` call does to the store, proved against the loop of
    module Chain: it is the in-order application of the loop body to every
    position before the first empty word; it keeps the store valid; it adds
    exactly the bigram counts of the words it reached; it stamps the
    ingestion's ref on every token it reached; and it updates the boundary
    indices only at the first and last positions. */
module Ingestion {
  import opened Js
  import opened Counts
  import opened Chain

  /** Where the `buildChain` loop stops: the first position holding an empty
      word, or the length of the list. */
  function AbortPoint(words: seq<string>): (k: nat)
    ensures k <= |words|
    ensures forall j :: 0 <= j < k ==> words[j] != ""
    ensures k < |words| ==> words[k] == ""
  {
    if |words| == 0 || words[0] == "" then 0
    else
      var k := AbortPoint(words[1..]);
      assert forall j :: 1 <= j < k + 1 ==> words[j] == words[1..][j - 1];
      k + 1
  }

  /** The loop body applied at positions `0 .. n-1`, in order. */
  function Processed(c: Chain, words: seq<string>, n: nat, id: int, data: Metadata): (r: Chain)
    requires HasSentinels(c) && n <= AbortPoint(words)
    ensures HasSentinels(r)
  {
    if n == 0 then c else Step(Processed(c, words, n - 1, id, data), words, n - 1, id, data)
  }

  /** The number of positions `i < n` where `w` is followed by `x` (the
      successor of the last word being `""`). */
  function NextOccurrences(words: seq<string>, n: nat, w: string, x: string): nat
    requires n <= |words|
  {
    if n == 0 then 0
    else NextOccurrences(words, n - 1, w, x) + (if words[n - 1] == w && Window(words, n) == x then 1 else 0)
  }

  /** The number of positions `0 < i < n` where `w` is preceded by `x`. */
  function PrevOccurrences(words: seq<string>, n: nat, w: string, x: string): nat
    requires n <= |words|
  {
    if n == 0 then 0
    else PrevOccurrences(words, n - 1, w, x) + (if n >= 2 && words[n - 1] == w && words[n - 2] == x then 1 else 0)
  }

  // ---------------------------------------------------------------------------
  // The early return is a truncation of the loop

  lemma {:induction false} BuildFromProcessed(c: Chain, words: seq<string>, i: nat, id: int, data: Metadata)
    requires HasSentinels(c) && i <= AbortPoint(words)
    ensures BuildFrom(Processed(c, words, i, id, data), words, i, id, data)
            == Processed(c, words, AbortPoint(words), id, data)
    decreases |words| - i
  {
    hide Step;
    var p := Processed(c, words, i, id, data);
    if i < AbortPoint(words) {
      assert Window(words, i) == words[i] != "";
      assert BuildFrom(p, words, i, id, data) == BuildFrom(Step(p, words, i, id, data), words, i + 1, id, data);
      assert Processed(c, words, i + 1, id, data) == Step(p, words, i, id, data);
      BuildFromProcessed(c, words, i + 1, id, data);
      assert BuildFrom(p, words, i, id, data) == Processed(c, words, AbortPoint(words), id, data);
    } else if i < |words| {
      assert Window(words, i) == "";
      assert BuildFrom(p, words, i, id, data) == p;
    } else {
      assert BuildFrom(p, words, i, id, data) == p;
    }
  }

  /** An empty word at position `k` ends the call: the changes made at
      positions before `k` stay, nothing happens at `k` or after (in
      particular the word before `k` is not recorded as a sentence end). */
  lemma BuildChainAborts(c: Chain, words: seq<string>, id: int, data: Metadata)
    requires HasSentinels(c)
    ensures BuildChain(c, words, id, data) == Processed(c, words, AbortPoint(words), id, data)
  {
    BuildFromProcessed(c, words, 0, id, data);
  }

  // ---------------------------------------------------------------------------
  // Validity

  ghost predicate Progress(c: Chain, words: seq<string>, n: nat)
    requires n <= |words|
  {
    && WellFormed(c)
    && ClosedExcept(c, Window(words, n))
    && (forall j :: 0 <= j < n ==> Word(words[j]) in c.nodes)
  }

  lemma TouchKeepsShape(c: Chain, w: string, id: int, record: Metadata)
    requires WellFormed(c) && ClosedExcept(c, w) && w != ""
    ensures var r := Touch(c, w, id, record);
      WellFormed(r) && ClosedExcept(r, "") && Word(w) in r.nodes && c.nodes.Keys <= r.nodes.Keys
  {
    var r := Touch(c, w, id, record);
    assert NodeOk(Blank);
    assert forall k :: k in r.nodes ==> NodeOk(r.nodes[k]);
    forall k, x | k in r.nodes && x in Keys(r.nodes[k].nextWords)
      ensures x == "" || Word(x) in r.nodes
    {
      assert r.nodes[k].nextWords == (if k == Word(w) then NodeAt(c, w) else c.nodes[k]).nextWords;
    }
    forall k, x | k in r.nodes && x in Keys(r.nodes[k].previousWords)
      ensures Word(x) in r.nodes
    {
      assert r.nodes[k].previousWords == (if k == Word(w) then NodeAt(c, w) else c.nodes[k]).previousWords;
    }
  }

  lemma IndexStartKeepsShape(c: Chain, w: string)
    requires WellFormed(c) && ClosedExcept(c, "") && Word(w) in c.nodes
    ensures var r := IndexStart(c, w);
      WellFormed(r) && ClosedExcept(r, "") && r.nodes.Keys == c.nodes.Keys
  {
    var r := IndexStart(c, w);
    var s0 := c.nodes[Start];
    BumpKeepsNodeOk(s0, w);
    IncKeys(s0.nextWords, w);
    assert forall k :: k in r.nodes ==> NodeOk(r.nodes[k]);
    assert r.nodes[End] == c.nodes[End];
    forall k, x | k in r.nodes && x in Keys(r.nodes[k].nextWords)
      ensures x == "" || Word(x) in r.nodes
    {
      if k != Start {
        assert r.nodes[k] == c.nodes[k];
      }
    }
    forall k, x | k in r.nodes && x in Keys(r.nodes[k].previousWords)
      ensures Word(x) in r.nodes
    {
      assert r.nodes[k].previousWords == c.nodes[k].previousWords;
    }
  }

  lemma IndexEndKeepsShape(c: Chain, w: string)
    requires WellFormed(c) && ClosedExcept(c, "") && Word(w) in c.nodes && w !in c.endWords
    ensures var r := IndexEnd(c, w);
      WellFormed(r) && ClosedExcept(r, "") && r.nodes.Keys == c.nodes.Keys
  {
    var r := IndexEnd(c, w);
    var e0 := c.nodes[End];
    BumpKeepsNodeOk(e0, w);
    IncKeys(e0.previousWords, w);
    assert forall k :: k in r.nodes ==> NodeOk(r.nodes[k]);
    assert r.nodes[Start] == c.nodes[Start];
    forall k, x | k in r.nodes && x in Keys(r.nodes[k].nextWords)
      ensures x == "" || Word(x) in r.nodes
    {
      assert r.nodes[k].nextWords == c.nodes[k].nextWords;
    }
    forall k, x | k in r.nodes && x in Keys(r.nodes[k].previousWords)
      ensures Word(x) in r.nodes
    {
      if k != End {
        assert r.nodes[k] == c.nodes[k];
      }
    }
  }

  lemma LinkNextKeepsShape(c: Chain, w: string, x0: string)
    requires WellFormed(c) && ClosedExcept(c, "") && Word(w) in c.nodes
    ensures var r := LinkNext(c, w, x0);
      WellFormed(r) && ClosedExcept(r, x0) && r.nodes.Keys == c.nodes.Keys
  {
    var r := LinkNext(c, w, x0);
    BumpKeepsNodeOk(c.nodes[Word(w)], x0);
    IncKeys(c.nodes[Word(w)].nextWords, x0);
    assert forall k :: k in r.nodes ==> NodeOk(r.nodes[k]);
    assert r.nodes[Start] == c.nodes[Start] && r.nodes[End] == c.nodes[End];
    forall k, x | k in r.nodes && x in Keys(r.nodes[k].nextWords)
      ensures x == "" || x == x0 || Word(x) in r.nodes
    {
      if k != Word(w) {
        assert r.nodes[k] == c.nodes[k];
      }
    }
    forall k, x | k in r.nodes && x in Keys(r.nodes[k].previousWords)
      ensures Word(x) in r.nodes
    {
      assert r.nodes[k].previousWords == c.nodes[k].previousWords;
    }
  }

  lemma LinkPrevKeepsShape(c: Chain, w: string, x0: string, pending: string)
    requires WellFormed(c) && ClosedExcept(c, pending) && Word(w) in c.nodes && Word(x0) in c.nodes
    ensures var r := LinkPrev(c, w, x0);
      WellFormed(r) && ClosedExcept(r, pending) && r.nodes.Keys == c.nodes.Keys
  {
    var r := LinkPrev(c, w, x0);
    BumpKeepsNodeOk(c.nodes[Word(w)], x0);
    IncKeys(c.nodes[Word(w)].previousWords, x0);
    assert forall k :: k in r.nodes ==> NodeOk(r.nodes[k]);
    assert r.nodes[Start] == c.nodes[Start] && r.nodes[End] == c.nodes[End];
    forall k, x | k in r.nodes && x in Keys(r.nodes[k].nextWords)
      ensures x == "" || x == pending || Word(x) in r.nodes
    {
      assert r.nodes[k].nextWords == c.nodes[k].nextWords;
    }
    forall k, x | k in r.nodes && x in Keys(r.nodes[k].previousWords)
      ensures Word(x) in r.nodes
    {
      if k != Word(w) {
        assert r.nodes[k] == c.nodes[k];
      }
    }
  }

  lemma StepShape(c: Chain, words: seq<string>, i: nat, id: int, data: Metadata)
    requires i < |words| && words[i] != ""
    requires WellFormed(c) && ClosedExcept(c, words[i])
    requires i > 0 ==> Word(words[i - 1]) in c.nodes
    ensures WellFormed(Step(c, words, i, id, data))
    ensures ClosedExcept(Step(c, words, i, id, data), Window(words, i + 1))
  {
    var w := words[i];
    var c1 := Touch(c, w, id, RefRecord(data, id));
    TouchKeepsShape(c, w, id, RefRecord(data, id));
    var c2 := if i == 0 && !BracketLookupTruthy(c1.startWords, w) then IndexStart(c1, w) else c1;
    if i == 0 && !BracketLookupTruthy(c1.startWords, w) {
      IndexStartKeepsShape(c1, w);
    }
    assert WellFormed(c2) && ClosedExcept(c2, "") && c2.nodes.Keys == c1.nodes.Keys;
    var c3 := if i == |words| - StateSize && w !in c2.endWords then IndexEnd(c2, w) else c2;
    if i == |words| - StateSize && w !in c2.endWords {
      IndexEndKeepsShape(c2, w);
    }
    assert WellFormed(c3) && ClosedExcept(c3, "") && c3.nodes.Keys == c1.nodes.Keys;
    var c4 := LinkNext(c3, w, Window(words, i + 1));
    LinkNextKeepsShape(c3, w, Window(words, i + 1));
    if i > 0 {
      LinkPrevKeepsShape(c4, w, words[i - 1], Window(words, i + 1));
    }
  }

  lemma StepProgress(c: Chain, words: seq<string>, i: nat, id: int, data: Metadata)
    requires i < |words| && words[i] != "" && Progress(c, words, i)
    ensures Progress(Step(c, words, i, id, data), words, i + 1)
  {
    StepShape(c, words, i, id, data);
    StepKeys(c, words, i, id, data);
  }

  lemma ValidProgress(c: Chain, words: seq<string>)
    requires Valid(c)
    ensures Progress(c, words, 0)
  {
    assert Window(words, 0) == "" || Window(words, 0) == words[0];
  }

  lemma {:induction false} ProcessedProgress(c: Chain, words: seq<string>, n: nat, id: int, data: Metadata)
    requires Valid(c) && n <= AbortPoint(words)
    ensures Progress(Processed(c, words, n, id, data), words, n)
  {
    if n == 0 {
      ValidProgress(c, words);
    } else {
      hide Step, Extends, Grows, Progress, WellFormed, ClosedExcept;
      var p := Processed(c, words, n - 1, id, data);
      ProcessedProgress(c, words, n - 1, id, data);
      StepProgress(p, words, n - 1, id, data);
      assert Processed(c, words, n, id, data) == Step(p, words, n - 1, id, data);
      assert Progress(Processed(c, words, n, id, data), words, n);
    }
  }

  /** Every `buildChain` call leaves a valid store valid: in every node the
      totals still equal the sums of their maps, no token refers to a key
      missing from the store, `""` is never a key, and the sentinel and
      boundary-index invariants hold. */
  lemma BuildChainKeepsValid(c: Chain, words: seq<string>, id: int, data: Metadata)
    requires Valid(c)
    ensures Valid(BuildChain(c, words, id, data))
  {
    BuildChainAborts(c, words, id, data);
    ProcessedProgress(c, words, AbortPoint(words), id, data);
  }

  // ---------------------------------------------------------------------------
  // Counts and refs

  /** One loop iteration touches only the node of its own word. */
  lemma StepOtherNodes(c: Chain, words: seq<string>, i: nat, id: int, data: Metadata)
    requires HasSentinels(c) && i < |words| && words[i] != ""
    ensures forall v :: v != words[i] ==> NodeAt(Step(c, words, i, id, data), v) == NodeAt(c, v)
  {
  }

  /** One loop iteration counts the successor of its word, the predecessor
      when there is one, and stamps the ingestion's ref. */
  lemma StepOwnNode(c: Chain, words: seq<string>, i: nat, id: int, data: Metadata)
    requires HasSentinels(c) && i < |words| && words[i] != ""
    ensures var n := NodeAt(Step(c, words, i, id, data), words[i]);
      && n.nextWords == Inc(NodeAt(c, words[i]).nextWords, Window(words, i + 1))
      && n.previousWords == (if i > 0 then Inc(NodeAt(c, words[i]).previousWords, words[i - 1])
                             else NodeAt(c, words[i]).previousWords)
      && n.refs == NodeAt(c, words[i]).refs[id := RefRecord(data, id)]
  {
  }

  lemma {:induction false} ProcessedNext(c: Chain, words: seq<string>, n: nat, id: int, data: Metadata)
    requires HasSentinels(c) && n <= AbortPoint(words)
    ensures forall w, x :: Get(NodeAt(Processed(c, words, n, id, data), w).nextWords, x)
                           == Get(NodeAt(c, w).nextWords, x) + NextOccurrences(words, n, w, x)
  {
    hide Step;
    if n > 0 {
      var p := Processed(c, words, n - 1, id, data);
      ProcessedNext(c, words, n - 1, id, data);
      StepOtherNodes(p, words, n - 1, id, data);
      StepOwnNode(p, words, n - 1, id, data);
      IncGet(NodeAt(p, words[n - 1]).nextWords, Window(words, n));
    }
  }

  lemma {:induction false} ProcessedPrev(c: Chain, words: seq<string>, n: nat, id: int, data: Metadata)
    requires HasSentinels(c) && n <= AbortPoint(words)
    ensures forall w, x :: Get(NodeAt(Processed(c, words, n, id, data), w).previousWords, x)
                           == Get(NodeAt(c, w).previousWords, x) + PrevOccurrences(words, n, w, x)
  {
    hide Step;
    if n > 0 {
      var p := Processed(c, words, n - 1, id, data);
      ProcessedPrev(c, words, n - 1, id, data);
      StepOtherNodes(p, words, n - 1, id, data);
      StepOwnNode(p, words, n - 1, id, data);
      if n >= 2 {
        IncGet(NodeAt(p, words[n - 1]).previousWords, words[n - 2]);
      }
    }
  }

  lemma {:induction false} ProcessedRefs(c: Chain, words: seq<string>, n: nat, id: int, data: Metadata)
    requires HasSentinels(c) && n <= AbortPoint(words)
    ensures forall w :: NodeAt(Processed(c, words, n, id, data), w).refs
                        == if w in words[..n] then NodeAt(c, w).refs[id := RefRecord(data, id)] else NodeAt(c, w).refs
  {
    hide Step;
    if n > 0 {
      var p := Processed(c, words, n - 1, id, data);
      ProcessedRefs(c, words, n - 1, id, data);
      StepOtherNodes(p, words, n - 1, id, data);
      StepOwnNode(p, words, n - 1, id, data);
      assert words[..n] == words[..n - 1] + [words[n - 1]];
    }
  }

  /** The counts `buildChain` adds are exactly the bigrams of the words it
      reached (the positions before the first empty word): for every token
      `w`, `nextWords[x]` grows by the number of positions where `w` is
      followed by `x` (by `""` at the last position), and `previousWords[x]`
      by the number of positions after the first where `w` is preceded by `x`. */
  lemma BuildChainCounts(c: Chain, words: seq<string>, id: int, data: Metadata)
    requires HasSentinels(c)
    ensures forall w, x :: Get(NodeAt(BuildChain(c, words, id, data), w).nextWords, x)
                           == Get(NodeAt(c, w).nextWords, x) + NextOccurrences(words, AbortPoint(words), w, x)
    ensures forall w, x :: Get(NodeAt(BuildChain(c, words, id, data), w).previousWords, x)
                           == Get(NodeAt(c, w).previousWords, x) + PrevOccurrences(words, AbortPoint(words), w, x)
  {
    BuildChainAborts(c, words, id, data);
    ProcessedNext(c, words, AbortPoint(words), id, data);
    ProcessedPrev(c, words, AbortPoint(words), id, data);
  }

  /** Every token reached gets the ingestion's ref under `id`, overwriting
      an earlier ref with the same id; refs of other ids and of tokens not
      reached are unchanged. */
  lemma BuildChainRefs(c: Chain, words: seq<string>, id: int, data: Metadata)
    requires HasSentinels(c)
    ensures forall w :: NodeAt(BuildChain(c, words, id, data), w).refs
                        == if w in words[..AbortPoint(words)] then NodeAt(c, w).refs[id := RefRecord(data, id)]
                           else NodeAt(c, w).refs
  {
    BuildChainAborts(c, words, id, data);
    ProcessedRefs(c, words, AbortPoint(words), id, data);
  }

  lemma {:induction false} NextOccurrencesOfEmpty(words: seq<string>, n: nat, w: string)
    requires n <= AbortPoint(words) == |words|
    ensures NextOccurrences(words, n, w, "") == if n == |words| && n > 0 && words[n - 1] == w then 1 else 0
  {
    if n > 0 {
      NextOccurrencesOfEmpty(words, n - 1, w);
    }
  }

  /** With a window of one the successor guard always holds, so the last
      word of a sentence with no empty word gets one more `nextWords[""]`;
      no other position adds to `""`. */
  lemma LastWordLinksToEmpty(c: Chain, words: seq<string>, id: int, data: Metadata)
    requires HasSentinels(c) && |words| > 0 && AbortPoint(words) == |words|
    ensures forall w :: Get(NodeAt(BuildChain(c, words, id, data), w).nextWords, "")
                        == Get(NodeAt(c, w).nextWords, "") + (if w == words[|words| - 1] then 1 else 0)
  {
    hide Step;
    BuildChainAborts(c, words, id, data);
    ProcessedNext(c, words, |words|, id, data);
    forall w {
      NextOccurrencesOfEmpty(words, |words|, w);
    }
  }

  /** The tokens after `n` steps: those of the store before, and the word
      of every step. */
  lemma {:induction false} ProcessedKeys(c: Chain, words: seq<string>, n: nat, id: int, data: Metadata)
    requires HasSentinels(c) && n <= AbortPoint(words)
    ensures Processed(c, words, n, id, data).nodes.Keys == c.nodes.Keys + set j | 0 <= j < n :: Word(words[j])
  {
    hide Step;
    if n > 0 {
      var p := Processed(c, words, n - 1, id, data);
      ProcessedKeys(c, words, n - 1, id, data);
      StepKeys(p, words, n - 1, id, data);
      assert (set j | 0 <= j < n :: Word(words[j])) == (set j | 0 <= j < n - 1 :: Word(words[j])) + {Word(words[n - 1])};
    }
  }

  /** `buildChain` adds exactly the tokens of the words it reached: those
      before the first empty word. */
  lemma BuildChainKeys(c: Chain, words: seq<string>, id: int, data: Metadata)
    requires HasSentinels(c)
    ensures BuildChain(c, words, id, data).nodes.Keys == c.nodes.Keys + set j | 0 <= j < AbortPoint(words) :: Word(words[j])
  {
    BuildChainAborts(c, words, id, data);
    ProcessedKeys(c, words, AbortPoint(words), id, data);
  }

  /** Ingesting the same words twice adds twice the counts of one
      ingestion, in both directions, and the second ingestion adds no
      token. */
  lemma IngestTwiceDoublesCounts(c: Chain, words: seq<string>, id1: int, id2: int, data: Metadata)
    requires HasSentinels(c)
    ensures var c1 := BuildChain(c, words, id1, data);
      BuildChain(c1, words, id2, data).nodes.Keys == c1.nodes.Keys
    ensures forall w, x ::
      Get(NodeAt(BuildChain(BuildChain(c, words, id1, data), words, id2, data), w).nextWords, x)
      == Get(NodeAt(c, w).nextWords, x) + 2 * NextOccurrences(words, AbortPoint(words), w, x)
    ensures forall w, x ::
      Get(NodeAt(BuildChain(BuildChain(c, words, id1, data), words, id2, data), w).previousWords, x)
      == Get(NodeAt(c, w).previousWords, x) + 2 * PrevOccurrences(words, AbortPoint(words), w, x)
  {
    var c1 := BuildChain(c, words, id1, data);
    BuildChainCounts(c, words, id1, data);
    BuildChainCounts(c1, words, id2, data);
    BuildChainKeys(c, words, id1, data);
    BuildChainKeys(c1, words, id2, data);
  }

  // ---------------------------------------------------------------------------
  // Boundary indices

  lemma {:induction false} ProcessedSentinels(c: Chain, words: seq<string>, n: nat, id: int, data: Metadata)
    requires HasSentinels(c) && n <= AbortPoint(words)
    ensures var p := Processed(c, words, n, id, data);
      var started := n > 0 && !BracketLookupTruthy(c.startWords, words[0]);
      && p.nodes[Start] == (if started then BumpNext(c.nodes[Start], words[0]) else c.nodes[Start])
      && p.startWords == (if started && words[0] !in c.startWords then c.startWords + [words[0]] else c.startWords)
    ensures var p := Processed(c, words, n, id, data);
      var ended := n > 0 && n == |words| && words[n - 1] !in c.endWords;
      && p.nodes[End] == (if ended then BumpPrev(c.nodes[End], words[n - 1]) else c.nodes[End])
      && p.endWords == (if ended then c.endWords + [words[n - 1]] else c.endWords)
  {
    if n > 0 {
      ProcessedSentinels(c, words, n - 1, id, data);
    }
  }

  /** The start index is guarded by a bracket lookup on the `startWords` Map,
      which misses its entries: START counts every ingestion that begins
      with `w`, not only the first, unless `w` names a property a Map
      inherits (then START and `startWords` are left alone). The end index
      is guarded by `has`: END and `endWords` change only when the call
      reaches the last word and that word has not ended a sentence before. */
  lemma BuildChainIndices(c: Chain, words: seq<string>, id: int, data: Metadata)
    requires HasSentinels(c)
    ensures var r := BuildChain(c, words, id, data);
      var started := AbortPoint(words) > 0 && !BracketLookupTruthy(c.startWords, words[0]);
      && (forall x :: Get(r.nodes[Start].nextWords, x)
                      == Get(c.nodes[Start].nextWords, x) + (if started && x == words[0] then 1 else 0))
      && r.nodes[Start].nw == c.nodes[Start].nw + (if started then 1 else 0)
      && r.startWords == (if started && words[0] !in c.startWords then c.startWords + [words[0]] else c.startWords)
    ensures var r := BuildChain(c, words, id, data);
      var ended := |words| > 0 && AbortPoint(words) == |words| && words[|words| - 1] !in c.endWords;
      && (forall x :: Get(r.nodes[End].previousWords, x)
                      == Get(c.nodes[End].previousWords, x) + (if ended && x == words[|words| - 1] then 1 else 0))
      && r.nodes[End].pw == c.nodes[End].pw + (if ended then 1 else 0)
      && r.endWords == (if ended then c.endWords + [words[|words| - 1]] else c.endWords)
  {
    BuildChainAborts(c, words, id, data);
    ProcessedSentinels(c, words, AbortPoint(words), id, data);
    if AbortPoint(words) > 0 {
      IncGet(c.nodes[Start].nextWords, words[0]);
    }
    if |words| > 0 {
      IncGet(c.nodes[End].previousWords, words[|words| - 1]);
    }
  }

  /** In a valid store END counts each end word once, so its total is the
      size of `endWords`. */
  lemma EndTotalIsEndWordCount(c: Chain)
    requires Valid(c)
    ensures c.nodes[End].pw == |c.endWords|
    ensures forall x :: Get(c.nodes[End].previousWords, x) == if x in c.endWords then 1 else 0
  {
    var m := c.nodes[End].previousWords;
    SumOfOnes(m);
    forall x
      ensures Get(m, x) == if x in c.endWords then 1 else 0
    {
      GetOfOnes(m, x);
    }
  }

  lemma {:induction false} GetOfOnes(m: Counts, x: string)
    requires forall i :: 0 <= i < |m| ==> m[i].count == 1
    ensures Get(m, x) == if x in Keys(m) then 1 else 0
  {
    if |m| > 0 {
      GetOfOnes(m[1..], x);
    }
  }

  // ---------------------------------------------------------------------------
  // addString

  lemma {:induction false} AddElementsKeepsValid(c: Chain, elems: seq<JsValue>, i: nat, data: Metadata, clock: nat -> int)
    requires Valid(c) && i <= |elems|
    ensures Valid(AddElements(c, elems, i, data, clock))
    decreases |elems| - i
  {
    hide BuildChain;
    if i < |elems| {
      var c' := AddElement(c, elems[i], data, clock(i));
      if elems[i].Str? && elems[i].s != "" && elems[i].s != " " {
        BuildChainKeepsValid(c, Split(Trim(elems[i].s)), clock(i), data);
      }
      AddElementsKeepsValid(c', elems, i + 1, data, clock);
    }
  }

  /** `addString` leaves a valid store valid, whatever it is given. */
  lemma AddStringKeepsValid(c: Chain, sentence: JsValue, data: Metadata, clock: nat -> int)
    requires Valid(c)
    ensures Valid(AddString(c, sentence, data, clock))
  {
    hide BuildChain;
    match sentence
    case Array(elems) => AddElementsKeepsValid(c, elems, 0, data, clock);
    case Str(s) =>
      if s != "" && s != " " {
        BuildChainKeepsValid(c, Split(Trim(s)), clock(0), data);
      }
    case _ =>
  }

  lemma {:induction false} AddElementsSnoc(c: Chain, elems: seq<JsValue>, e: JsValue, i: nat, data: Metadata, clock: nat -> int)
    requires HasSentinels(c) && i <= |elems|
    ensures AddElements(c, elems + [e], i, data, clock)
            == AddElement(AddElements(c, elems, i, data, clock), e, data, clock(|elems|))
    decreases |elems| - i
  {
    hide AddElement, AddSentence, BuildChain, Extends, Grows;
    var all := elems + [e];
    if i < |elems| {
      assert all[i] == elems[i];
      AddElementsSnoc(AddElement(c, elems[i], data, clock(i)), elems, e, i + 1, data, clock);
    } else {
      assert all[i] == e;
    }
  }

  /** Array elements are handled one after another in array order, element
      `i` with its own clock reading. */
  lemma AddStringArrayInOrder(c: Chain, elems: seq<JsValue>, e: JsValue, data: Metadata, clock: nat -> int)
    requires HasSentinels(c)
    ensures AddString(c, Array(elems + [e]), data, clock)
            == AddElement(AddString(c, Array(elems), data, clock), e, data, clock(|elems|))
  {
    AddElementsSnoc(c, elems, e, 0, data, clock);
  }

  /** A string that trims to nothing (two spaces, a tab, ...) passes the
      guard but reaches `buildChain` as `[""]`, which returns at once. */
  lemma AddSentenceOfBlank(c: Chain, sentence: string, data: Metadata, id: int)
    requires HasSentinels(c) && Trim(sentence) == ""
    ensures AddSentence(c, sentence, data, id) == c
  {
    assert Split("") == [""];
  }

  /** A string other than `''` and `' '` is ingested as the single-space
      pieces of its trimmed text, which join back to that text. */
  lemma AddSentenceIngestsPieces(c: Chain, sentence: string, data: Metadata, id: int)
    requires HasSentinels(c) && sentence != "" && sentence != " "
    ensures var words := Split(Trim(sentence));
      && AddSentence(c, sentence, data, id) == BuildChain(c, words, id, data)
      && Join(words) == Trim(sentence)
      && (forall i :: 0 <= i < |words| ==> ' ' !in words[i])
  {
    JoinSplit(Trim(sentence));
  }
}
