/** The two walks of src/Workers.js: `_findChainEnd` follows successors from
    a token towards the end of a sentence, `_findChainStart` follows
    predecessors towards its start. The clock and
    `Math.random()` are replaced by an oracle giving, for the `k`-th pass of
    the loop, whether the six-second budget has run out and the readings the
    pass uses. */
module Walker {
  import opened Wrappers
  import opened Js
  import opened Counts
  import opened Chain
  import opened Selection

  datatype Direction = Forward | Backward

  /** What one pass of a walk's loop reads: whether `Date.now() - initTime`
      exceeds 6000, the reading for the forced boundary pick, and the two
      readings of the chooser. */
  datatype Draw = Draw(timedOut: bool, forced: real, index: real, weight: real)

  type Oracle = nat -> Draw

  ghost predicate ValidOracle(o: Oracle) {
    forall k: nat :: Unit(o(k).forced) && Unit(o(k).index) && Unit(o(k).weight)
  }

  /** `{sentence, referenced, list}` as a worker posts it. A forced pick from
      an empty boundary index is `undefined`, hence the optional elements. */
  datatype WalkResult = WalkResult(sentence: string, referenced: Refs, list: seq<Option<string>>)

  /** The tokens of the store. */
  function Words(c: Chain): set<string> {
    set k | k in c.nodes.Keys && k.Word? :: k.w
  }

  /** The `pickedWords` set of a walk. */
  function Elems(list: seq<string>): set<string> {
    set x | x in list
  }

  function Somes(ts: seq<string>): (r: seq<Option<string>>)
    ensures |r| == |ts| && forall j :: 0 <= j < |ts| ==> r[j] == Some(ts[j])
  {
    if |ts| == 0 then [] else [Some(ts[0])] + Somes(ts[1..])
  }

  function Reverse<T>(s: seq<T>): (r: seq<T>)
    ensures |r| == |s| && forall j :: 0 <= j < |s| ==> r[j] == s[|s| - 1 - j]
  {
    if |s| == 0 then [] else Reverse(s[1..]) + [s[0]]
  }

  lemma {:induction false} SubsetCard<T>(a: set<T>, b: set<T>)
    requires a <= b
    ensures |a| <= |b|
  {
    if a != {} {
      var x :| x in a;
      SubsetCard(a - {x}, b - {x});
    }
  }

  // ---------------------------------------------------------------------------
  // One pass

  /** The map a walk follows out of `word`. */
  function Neighbours(c: Chain, dir: Direction, word: string): Counts
    requires Word(word) in c.nodes
  {
    if dir == Forward then c.nodes[Word(word)].nextWords else c.nodes[Word(word)].previousWords
  }

  /** The chooser a walk calls: `_chooseRandomNextWord` going forward,
      `_chooseRandomPreviousWord` going backward. */
  function Choose(c: Chain, dir: Direction, word: string, d: Draw): (r: Option<string>)
    requires Word(word) in c.nodes && Unit(d.index) && Unit(d.weight)
    ensures r.None? <==> |Neighbours(c, dir, word)| == 0
    ensures r.Some? ==> r.value in Keys(Neighbours(c, dir, word))
  {
    if dir == Forward then ChooseRandomNextWord(c, word, d.index, d.weight)
    else ChooseRandomPreviousWord(c, word, d.index, d.weight)
  }

  /** The boundary index a timed-out walk falls back to. */
  function Pool(c: Chain, dir: Direction): seq<string> {
    if dir == Forward then c.endWords else c.startWords
  }

  /** `words[Math.floor(Math.random() * words.length)]`: `undefined` when
      the index is empty. */
  function ForcedPick(pool: seq<string>, u: real): (r: Option<string>)
    requires Unit(u)
    ensures r.None? <==> |pool| == 0
    ensures r.Some? ==> r.value in pool
  {
    if |pool| == 0 then None else Some(pool[PickIndex(u, |pool|)])
  }

  /** Adding a picked token to the sentence: its first piece appended after
      a space going forward, its last piece prepended before a space going
      backward. */
  function Extend(dir: Direction, sentence: string, t: string): string {
    if dir == Forward then sentence + " " + FirstWord(t) else LastWord(t) + " " + sentence
  }

  /** The sentence a timed-out walk returns: only the forced token. */
  function Banner(dir: Direction, f: Option<string>): string {
    if dir == Forward then " " + Show(f) else Show(f) + " "
  }

  /** `{ ...referenced, ...chain.get(t)?.refs }`: later refs win. */
  function Merge(c: Chain, referenced: Refs, t: string): Refs {
    if Word(t) in c.nodes then referenced + c.nodes[Word(t)].refs else referenced
  }

  // ---------------------------------------------------------------------------
  // Reference definitions of what a walk produces

  function FirstWords(ts: seq<string>): (r: seq<string>)
    ensures |r| == |ts| && forall j :: 0 <= j < |ts| ==> r[j] == FirstWord(ts[j])
  {
    if |ts| == 0 then [] else [FirstWord(ts[0])] + FirstWords(ts[1..])
  }

  function LastWords(ts: seq<string>): (r: seq<string>)
    ensures |r| == |ts| && forall j :: 0 <= j < |ts| ==> r[j] == LastWord(ts[j])
  {
    if |ts| == 0 then [] else [LastWord(ts[0])] + LastWords(ts[1..])
  }

  /** The sentence of a walk that picked `ts` (in walk order): going forward,
      a leading space and the first pieces joined by spaces; going backward,
      the last pieces in reading order joined by spaces and a trailing
      space; empty when nothing was picked. */
  function Rendered(dir: Direction, ts: seq<string>): string {
    if |ts| == 0 then ""
    else if dir == Forward then " " + Join(FirstWords(ts))
    else Join(LastWords(Reverse(ts))) + " "
  }

  /** The refs collected along `ts`, merged left to right. */
  function MergeAll(c: Chain, referenced: Refs, ts: seq<string>): Refs
    decreases |ts|
  {
    if |ts| == 0 then referenced else MergeAll(c, Merge(c, referenced, ts[0]), ts[1..])
  }

  /** `ts` is a walk out of `from`: each token is a key of the map the walk
      follows out of the token before it. */
  ghost predicate Steps(c: Chain, dir: Direction, from: string, ts: seq<string>)
    decreases |ts|
  {
    |ts| == 0 || (Word(from) in c.nodes && ts[0] in Keys(Neighbours(c, dir, from)) && Steps(c, dir, ts[0], ts[1..]))
  }

  lemma {:induction false} JoinSnoc(xs: seq<string>, y: string)
    requires |xs| > 0
    ensures Join(xs + [y]) == Join(xs) + " " + y
    decreases |xs|
  {
    if |xs| == 1 {
      assert xs + [y] == [xs[0], y];
    } else {
      JoinSnoc(xs[1..], y);
      assert (xs + [y])[1..] == xs[1..] + [y];
    }
  }

  /** Rendering one more token is what a pass of the loop does to the
      sentence. */
  lemma RenderedSnoc(dir: Direction, ts: seq<string>, t: string)
    ensures Rendered(dir, ts + [t]) == Extend(dir, Rendered(dir, ts), t)
  {
    if dir == Forward {
      assert FirstWords(ts + [t]) == FirstWords(ts) + [FirstWord(t)];
      if |ts| > 0 {
        JoinSnoc(FirstWords(ts), FirstWord(t));
      }
    } else {
      assert Reverse(ts + [t]) == [t] + Reverse(ts);
      assert LastWords([t] + Reverse(ts)) == [LastWord(t)] + LastWords(Reverse(ts));
    }
  }

  /** A rendered sentence of `k` tokens splits into `k + 1` pieces. */
  lemma SplitRendered(dir: Direction, ts: seq<string>)
    ensures |Split(Rendered(dir, ts))| == |ts| + 1
  {
    if |ts| > 0 {
      if dir == Forward {
        var ps := [""] + FirstWords(ts);
        assert Join(ps) == "" + " " + Join(FirstWords(ts));
        assert Rendered(dir, ts) == Join(ps);
        assert forall i :: 0 <= i < |ps| ==> ' ' !in ps[i];
        SplitJoin(ps);
      } else {
        var ws := LastWords(Reverse(ts));
        var ps := ws + [""];
        JoinSnoc(ws, "");
        assert Rendered(dir, ts) == Join(ps);
        assert forall i :: 0 <= i < |ps| ==> ' ' !in ps[i];
        SplitJoin(ps);
      }
    }
  }

  // ---------------------------------------------------------------------------
  // The walk

  /** What holds at the top of every pass: the sentence renders the tokens
      picked so far, the current token is the last of them, every earlier
      one is in the store, and there are at most twice as many picks as
      tokens in the store. */
  ghost predicate Walking(c: Chain, dir: Direction, cur: string, sentence: string, list: seq<string>) {
    && sentence == Rendered(dir, list)
    && (|list| > 0 ==> cur == list[|list| - 1])
    && (forall j :: 0 <= j < |list| - 1 ==> Word(list[j]) in c.nodes)
    && |list| <= 2 * |Words(c)|
  }

  /** How one pass of the loop ends: the walk stops, a timed-out walk
      returns the forced token `f`, or the chooser picked `t` and the walk
      goes on. */
  datatype Turn = Halt | Forced(f: Option<string>) | Picked(t: string)

  /** The cycle guard: more pieces in the sentence than twice the distinct
      picks. */
  predicate Cycling(sentence: string, list: seq<string>) {
    |Elems(list)| > 0 && |Split(sentence)| > 2 * |Elems(list)|
  }

  /** One pass of the loop of `_findChainEnd` (forward) or `_findChainStart`
      (backward), with `list` the picks so far and `cur` the current token.
      The loop runs only while the current token is non-empty and in the
      store; on a timeout it forces a token from the boundary index; it stops
      when the chooser finds nothing or `""`, when the sentence repeats
      itself, or on the cycle guard. */
  function Round(c: Chain, dir: Direction, d: Draw, cur: string, sentence: string, list: seq<string>): (r: Turn)
    requires Unit(d.forced) && Unit(d.index) && Unit(d.weight)
    ensures r.Forced? <==> cur != "" && Word(cur) in c.nodes && d.timedOut
    ensures r.Forced? ==> (r.f.None? <==> |Pool(c, dir)| == 0) && (r.f.Some? ==> r.f.value in Pool(c, dir))
    ensures r.Picked? ==> && cur != "" && Word(cur) in c.nodes
                          && r.t != "" && r.t in Keys(Neighbours(c, dir, cur))
                          && !Repeats(sentence) && !Cycling(sentence, list)
  {
    if cur == "" || Word(cur) !in c.nodes then Halt
    else if d.timedOut then Forced(ForcedPick(Pool(c, dir), d.forced))
    else
      var next := Choose(c, dir, cur, d);
      if next.None? || next.value == "" || Repeats(sentence) || Cycling(sentence, list) then Halt
      else Picked(next.value)
  }

  /** The loop from the pass where `list` holds the picks so far. Because of
      the cycle guard no walk makes more than twice as many passes as there
      are tokens in the store, plus the forced one. */
  function Walk(c: Chain, dir: Direction, o: Oracle, cur: string, sentence: string,
                list: seq<string>, referenced: Refs): (r: WalkResult)
    requires ValidOracle(o) && Walking(c, dir, cur, sentence, list)
    ensures |list| <= |r.list| <= 2 * |Words(c)| + 1
    decreases 2 * |Words(c)| - |list|
  {
    match Round(c, dir, o(|list|), cur, sentence, list)
    case Halt => WalkResult(sentence, referenced, Somes(list))
    case Forced(f) => WalkResult(Banner(dir, f), referenced, Somes(list) + [f])
    case Picked(t) =>
      WalkTerminates(c, dir, cur, sentence, list);
      WalkingStep(c, dir, cur, sentence, list, t);
      Walk(c, dir, o, t, Extend(dir, sentence, t), list + [t], Merge(c, referenced, t))
  }

  /** Picking `t` from the current token keeps the pass invariant, given
      room for one more pick. */
  lemma WalkingStep(c: Chain, dir: Direction, cur: string, sentence: string, list: seq<string>, t: string)
    requires Walking(c, dir, cur, sentence, list) && Word(cur) in c.nodes
    requires |list| + 1 <= 2 * |Words(c)|
    ensures Walking(c, dir, t, Extend(dir, sentence, t), list + [t])
  {
    RenderedSnoc(dir, list, t);
    var l := list + [t];
    forall j | 0 <= j < |l| - 1
      ensures Word(l[j]) in c.nodes
    {
      assert l[j] == list[j];
    }
  }

  /** A pass that gets past the repetition guard with the current token in
      the store leaves room for one more pick. */
  lemma WalkTerminates(c: Chain, dir: Direction, cur: string, sentence: string, list: seq<string>)
    requires Walking(c, dir, cur, sentence, list) && Word(cur) in c.nodes
    requires !Cycling(sentence, list)
    ensures |list| + 1 <= 2 * |Words(c)|
  {
    SplitRendered(dir, list);
    assert Word(cur) in c.nodes.Keys;
    assert cur in Words(c);
    forall x | x in Elems(list)
      ensures x in Words(c)
    {
      var j :| 0 <= j < |list| && list[j] == x;
      assert Word(list[j]) in c.nodes.Keys;
    }
    SubsetCard(Elems(list), Words(c));
    if |list| > 0 {
      assert list[0] in Elems(list);
    }
  }

  // ---------------------------------------------------------------------------
  // What a walk produces

  /** The tokens of a list of picks, `""` standing in for `undefined`. */
  function Unwrap(l: seq<Option<string>>): (r: seq<string>)
    ensures |r| == |l| && forall j :: 0 <= j < |l| ==> r[j] == l[j].GetOr("")
  {
    if |l| == 0 then [] else [l[0].GetOr("")] + Unwrap(l[1..])
  }

  /** The walk that produced `r` from `list` ended on a timeout: its last
      element came from a pass whose budget had run out. */
  ghost predicate ForcedEnd(o: Oracle, list: seq<string>, r: WalkResult) {
    |list| < |r.list| && o(|r.list| - 1).timedOut
  }

  /** The tokens the chooser picked after `list`: every new element except a
      forced last one. */
  ghost function Picks(o: Oracle, list: seq<string>, r: WalkResult): seq<string>
    requires |list| <= |r.list|
  {
    Unwrap(r.list[|list|..if ForcedEnd(o, list, r) then |r.list| - 1 else |r.list|])
  }

  lemma AppendCons<T>(a: seq<T>, t: T, b: seq<T>)
    ensures a + ([t] + b) == (a + [t]) + b && a + [] == a
  {
  }

  /** A pass that halts ends the walk with what it has. */
  lemma WalkOnHalt(c: Chain, dir: Direction, o: Oracle, cur: string, sentence: string,
                   list: seq<string>, referenced: Refs)
    requires ValidOracle(o) && Walking(c, dir, cur, sentence, list)
    requires Round(c, dir, o(|list|), cur, sentence, list) == Halt
    ensures var r := Walk(c, dir, o, cur, sentence, list, referenced);
      && r == WalkResult(sentence, referenced, Somes(list))
      && |r.list| == |list| && !ForcedEnd(o, list, r) && Picks(o, list, r) == []
  {
    hide Walking, Rendered, Words, Elems, Choose, Repeats, Split, Extend, Merge, Cycling;
  }

  /** A pass that times out ends the walk with the forced token. */
  lemma WalkOnForced(c: Chain, dir: Direction, o: Oracle, cur: string, sentence: string,
                     list: seq<string>, referenced: Refs, f: Option<string>)
    requires ValidOracle(o) && Walking(c, dir, cur, sentence, list)
    requires Round(c, dir, o(|list|), cur, sentence, list) == Forced(f)
    ensures o(|list|).timedOut && f == ForcedPick(Pool(c, dir), o(|list|).forced)
    ensures var r := Walk(c, dir, o, cur, sentence, list, referenced);
      && r == WalkResult(Banner(dir, f), referenced, Somes(list) + [f])
      && |r.list| == |list| + 1 && r.list[|list|] == f && ForcedEnd(o, list, r) && Picks(o, list, r) == []
  {
    hide Walking, Rendered, Words, Elems, Choose, Repeats, Split, Extend, Merge, Cycling;
    assert (Somes(list) + [f])[|list|] == f;
  }

  /** A pass that picks `t` hands the walk on to `t`. */
  lemma AdvanceWalk(c: Chain, dir: Direction, o: Oracle, cur: string, sentence: string,
                    list: seq<string>, referenced: Refs, t: string)
    requires ValidOracle(o) && Walking(c, dir, cur, sentence, list)
    requires Round(c, dir, o(|list|), cur, sentence, list) == Picked(t)
    ensures !o(|list|).timedOut && Word(cur) in c.nodes && t in Keys(Neighbours(c, dir, cur)) && t != ""
    ensures Walking(c, dir, t, Extend(dir, sentence, t), list + [t])
    ensures |list + [t]| <= 2 * |Words(c)|
    ensures Walk(c, dir, o, cur, sentence, list, referenced)
         == Walk(c, dir, o, t, Extend(dir, sentence, t), list + [t], Merge(c, referenced, t))
  {
    WalkTerminates(c, dir, cur, sentence, list);
    WalkingStep(c, dir, cur, sentence, list, t);
  }

  /** The picks so far come first in a walk's list, unchanged. */
  lemma {:induction false} WalkPrefix(c: Chain, dir: Direction, o: Oracle, cur: string, sentence: string,
                                      list: seq<string>, referenced: Refs)
    requires ValidOracle(o) && Walking(c, dir, cur, sentence, list)
    ensures var r := Walk(c, dir, o, cur, sentence, list, referenced);
      forall j :: 0 <= j < |list| ==> r.list[j] == Some(list[j])
    decreases 2 * |Words(c)| - |list|
  {
    hide Walk, Round, Walking, Rendered, Words, Elems, Choose, Repeats, Split, Extend, Merge, Cycling, Picks, ForcedEnd, Unwrap, Somes;
    match Round(c, dir, o(|list|), cur, sentence, list)
    case Halt =>
      WalkOnHalt(c, dir, o, cur, sentence, list, referenced);
    case Forced(f) =>
      WalkOnForced(c, dir, o, cur, sentence, list, referenced, f);
    case Picked(t) =>
      AdvanceWalk(c, dir, o, cur, sentence, list, referenced, t);
      WalkPrefix(c, dir, o, t, Extend(dir, sentence, t), list + [t], Merge(c, referenced, t));
  }

  /** Peeling the first pick `t` off the picks of a longer walk. */
  lemma PicksCons(o: Oracle, list: seq<string>, t: string, r: WalkResult)
    requires |list| + 1 <= |r.list| && r.list[|list|] == Some(t)
    requires !o(|list|).timedOut
    ensures ForcedEnd(o, list, r) == ForcedEnd(o, list + [t], r)
    ensures Picks(o, list, r) == [t] + Picks(o, list + [t], r)
  {
    var m := if ForcedEnd(o, list, r) then |r.list| - 1 else |r.list|;
    assert r.list[|list|..m] == [Some(t)] + r.list[|list| + 1..m];
  }

  /** A pass that picks `t` hands the walk on to `t`: the rest of the walk is
      the walk from `t`, its first new element is `t`, and `t` heads the
      picks. */
  lemma Advance(c: Chain, dir: Direction, o: Oracle, cur: string, sentence: string,
                list: seq<string>, referenced: Refs, t: string)
    requires ValidOracle(o) && Walking(c, dir, cur, sentence, list)
    requires Round(c, dir, o(|list|), cur, sentence, list) == Picked(t)
    ensures Walking(c, dir, t, Extend(dir, sentence, t), list + [t])
    ensures |list + [t]| <= 2 * |Words(c)|
    ensures !o(|list|).timedOut && Word(cur) in c.nodes && t in Keys(Neighbours(c, dir, cur)) && t != ""
    ensures var r := Walk(c, dir, o, t, Extend(dir, sentence, t), list + [t], Merge(c, referenced, t));
      && Walk(c, dir, o, cur, sentence, list, referenced) == r
      && r.list[|list|] == Some(t)
      && ForcedEnd(o, list, r) == ForcedEnd(o, list + [t], r)
      && Picks(o, list, r) == [t] + Picks(o, list + [t], r)
  {
    AdvanceWalk(c, dir, o, cur, sentence, list, referenced, t);
    var r := Walk(c, dir, o, t, Extend(dir, sentence, t), list + [t], Merge(c, referenced, t));
    WalkPrefix(c, dir, o, t, Extend(dir, sentence, t), list + [t], Merge(c, referenced, t));
    assert r.list[|list|] == Some((list + [t])[|list|]);
    PicksCons(o, list, t, r);
  }

  /** The refs a walk returns are those of its picks merged in order onto the
      refs it started with; a forced token adds none. */
  lemma {:induction false} WalkRefs(c: Chain, dir: Direction, o: Oracle, cur: string, sentence: string,
                                    list: seq<string>, referenced: Refs)
    requires ValidOracle(o) && Walking(c, dir, cur, sentence, list)
    ensures var r := Walk(c, dir, o, cur, sentence, list, referenced);
      r.referenced == MergeAll(c, referenced, Picks(o, list, r))
    decreases 2 * |Words(c)| - |list|
  {
    hide Walk, Round, Walking, Rendered, Words, Elems, Choose, Repeats, Split, Extend, Merge, Cycling, Picks, ForcedEnd, Unwrap, Somes;
    match Round(c, dir, o(|list|), cur, sentence, list)
    case Halt =>
      WalkOnHalt(c, dir, o, cur, sentence, list, referenced);
    case Forced(f) =>
      WalkOnForced(c, dir, o, cur, sentence, list, referenced, f);
    case Picked(t) =>
      Advance(c, dir, o, cur, sentence, list, referenced, t);
      WalkRefs(c, dir, o, t, Extend(dir, sentence, t), list + [t], Merge(c, referenced, t));
      var p := Picks(o, list + [t], Walk(c, dir, o, t, Extend(dir, sentence, t), list + [t], Merge(c, referenced, t)));
      assert ([t] + p)[1..] == p;
  }

  /** A walk that runs out of time returns the token forced from the
      boundary index as its last element, and a sentence of that token
      alone. */
  lemma {:induction false} WalkForced(c: Chain, dir: Direction, o: Oracle, cur: string, sentence: string,
                                      list: seq<string>, referenced: Refs)
    requires ValidOracle(o) && Walking(c, dir, cur, sentence, list)
    ensures var r := Walk(c, dir, o, cur, sentence, list, referenced);
      ForcedEnd(o, list, r) ==>
        var n := |r.list|;
        r.list[n - 1] == ForcedPick(Pool(c, dir), o(n - 1).forced) && r.sentence == Banner(dir, r.list[n - 1])
    decreases 2 * |Words(c)| - |list|
  {
    hide Walk, Round, Walking, Rendered, Words, Elems, Choose, Repeats, Split, Extend, Merge, Cycling, Picks, ForcedEnd, Unwrap, Somes;
    match Round(c, dir, o(|list|), cur, sentence, list)
    case Halt =>
      WalkOnHalt(c, dir, o, cur, sentence, list, referenced);
    case Forced(f) =>
      WalkOnForced(c, dir, o, cur, sentence, list, referenced, f);
      assert (Somes(list) + [f])[|list|] == f;
    case Picked(t) =>
      Advance(c, dir, o, cur, sentence, list, referenced, t);
      WalkForced(c, dir, o, t, Extend(dir, sentence, t), list + [t], Merge(c, referenced, t));
  }

  /** A walk that does not run out of time returns the sentence rendered
      from all its tokens. */
  lemma {:induction false} WalkRendered(c: Chain, dir: Direction, o: Oracle, cur: string, sentence: string,
                                        list: seq<string>, referenced: Refs)
    requires ValidOracle(o) && Walking(c, dir, cur, sentence, list)
    ensures var r := Walk(c, dir, o, cur, sentence, list, referenced);
      !ForcedEnd(o, list, r) ==> r.sentence == Rendered(dir, list + Picks(o, list, r))
    decreases 2 * |Words(c)| - |list|
  {
    hide Walk, Round, Rendered, Words, Elems, Choose, Repeats, Split, Extend, Merge, Cycling, Picks, ForcedEnd, Unwrap, Somes;
    match Round(c, dir, o(|list|), cur, sentence, list)
    case Halt =>
      WalkOnHalt(c, dir, o, cur, sentence, list, referenced);
      AppendCons(list, "", []);
    case Forced(f) =>
      WalkOnForced(c, dir, o, cur, sentence, list, referenced, f);
    case Picked(t) =>
      Advance(c, dir, o, cur, sentence, list, referenced, t);
      WalkRendered(c, dir, o, t, Extend(dir, sentence, t), list + [t], Merge(c, referenced, t));
      var p := Picks(o, list + [t], Walk(c, dir, o, t, Extend(dir, sentence, t), list + [t], Merge(c, referenced, t)));
      AppendCons(list, t, p);
  }

  /** The token a walk stands on after picking `ts` out of `from`. */
  function LastOf(from: string, ts: seq<string>): string {
    if |ts| == 0 then from else ts[|ts| - 1]
  }

  /** A walk that does not run out of time ends at the first pass that
      halts: the pass that would follow its last pick stops the loop. */
  lemma {:induction false} WalkHalts(c: Chain, dir: Direction, o: Oracle, cur: string, sentence: string,
                                     list: seq<string>, referenced: Refs)
    requires ValidOracle(o) && Walking(c, dir, cur, sentence, list)
    ensures var r := Walk(c, dir, o, cur, sentence, list, referenced);
      var p := Picks(o, list, r);
      !ForcedEnd(o, list, r) ==>
        |r.list| == |list| + |p| && Round(c, dir, o(|r.list|), LastOf(cur, p), r.sentence, list + p) == Halt
    decreases 2 * |Words(c)| - |list|
  {
    hide Walk, Round, Walking, Rendered, Words, Elems, Choose, Repeats, Split, Extend, Merge, Cycling, Picks, ForcedEnd, Unwrap, Somes;
    match Round(c, dir, o(|list|), cur, sentence, list)
    case Halt =>
      WalkOnHalt(c, dir, o, cur, sentence, list, referenced);
      AppendCons(list, "", []);
    case Forced(f) =>
      WalkOnForced(c, dir, o, cur, sentence, list, referenced, f);
    case Picked(t) =>
      Advance(c, dir, o, cur, sentence, list, referenced, t);
      WalkHalts(c, dir, o, t, Extend(dir, sentence, t), list + [t], Merge(c, referenced, t));
      var p := Picks(o, list + [t], Walk(c, dir, o, t, Extend(dir, sentence, t), list + [t], Merge(c, referenced, t)));
      AppendCons(list, t, p);
      assert LastOf(cur, [t] + p) == LastOf(t, p);
  }

  /** Extending a walk out of `from` by a first step. */
  lemma StepsCons(c: Chain, dir: Direction, from: string, t: string, ts: seq<string>)
    requires Word(from) in c.nodes && t in Keys(Neighbours(c, dir, from))
    requires Steps(c, dir, t, ts)
    ensures Steps(c, dir, from, [t] + ts)
  {
    assert ([t] + ts)[1..] == ts;
  }

  /** Every pick follows an edge of the store out of the token before it
      (the first out of `cur`) and is not empty. */
  lemma {:induction false} WalkSteps(c: Chain, dir: Direction, o: Oracle, cur: string, sentence: string,
                                     list: seq<string>, referenced: Refs)
    requires ValidOracle(o) && Walking(c, dir, cur, sentence, list)
    ensures var p := Picks(o, list, Walk(c, dir, o, cur, sentence, list, referenced));
      Steps(c, dir, cur, p) && forall j :: 0 <= j < |p| ==> p[j] != ""
    decreases 2 * |Words(c)| - |list|
  {
    hide Walk, Round, Walking, Rendered, Words, Elems, Choose, Repeats, Split, Extend, Merge, Cycling, Picks, ForcedEnd, Unwrap, Somes;
    match Round(c, dir, o(|list|), cur, sentence, list)
    case Halt =>
      WalkOnHalt(c, dir, o, cur, sentence, list, referenced);
    case Forced(f) =>
      WalkOnForced(c, dir, o, cur, sentence, list, referenced, f);
    case Picked(t) =>
      Advance(c, dir, o, cur, sentence, list, referenced, t);
      WalkSteps(c, dir, o, t, Extend(dir, sentence, t), list + [t], Merge(c, referenced, t));
      var p := Picks(o, list + [t], Walk(c, dir, o, t, Extend(dir, sentence, t), list + [t], Merge(c, referenced, t)));
      StepsCons(c, dir, cur, t, p);
      assert forall j :: 1 <= j < |[t] + p| ==> ([t] + p)[j] == p[j - 1];
  }

  /** The picks are the list's new elements, each made by a pass whose
      budget had not run out; only a forced last element comes from a pass
      that timed out. */
  lemma {:induction false} WalkPicksInTime(c: Chain, dir: Direction, o: Oracle, cur: string, sentence: string,
                                           list: seq<string>, referenced: Refs)
    requires ValidOracle(o) && Walking(c, dir, cur, sentence, list)
    ensures var r := Walk(c, dir, o, cur, sentence, list, referenced);
      var p := Picks(o, list, r);
      forall j :: |list| <= j < |list| + |p| ==> r.list[j] == Some(p[j - |list|]) && !o(j).timedOut
    decreases 2 * |Words(c)| - |list|
  {
    hide Walk, Round, Walking, Rendered, Words, Elems, Choose, Repeats, Split, Extend, Merge, Cycling, Picks, ForcedEnd, Unwrap, Somes;
    match Round(c, dir, o(|list|), cur, sentence, list)
    case Halt =>
      WalkOnHalt(c, dir, o, cur, sentence, list, referenced);
    case Forced(f) =>
      WalkOnForced(c, dir, o, cur, sentence, list, referenced, f);
    case Picked(t) =>
      Advance(c, dir, o, cur, sentence, list, referenced, t);
      WalkPicksInTime(c, dir, o, t, Extend(dir, sentence, t), list + [t], Merge(c, referenced, t));
      var p := Picks(o, list + [t], Walk(c, dir, o, t, Extend(dir, sentence, t), list + [t], Merge(c, referenced, t)));
      assert forall j :: 1 <= j < |[t] + p| ==> ([t] + p)[j] == p[j - 1];
  }

  // ---------------------------------------------------------------------------
  // The two walks

  /** `Unwrap` commutes with reversal. */
  lemma UnwrapReverse(l: seq<Option<string>>)
    ensures Unwrap(Reverse(l)) == Reverse(Unwrap(l))
  {
  }

  /** The pass invariant holds before the first pass. */
  lemma WalkingAtSeed(c: Chain, dir: Direction, w: string)
    ensures Walking(c, dir, w, "", [])
  {
  }

  /** `_findChainEnd(corpus, word)`: the forward walk out of `word`, which
      is `undefined` when the caller has no seed. */
  function FindChainEnd(c: Chain, word: Option<string>, o: Oracle): (r: WalkResult)
    requires ValidOracle(o)
    ensures |r.list| <= 2 * |Words(c)| + 1
    ensures word.None? ==> r.sentence == "" && r.referenced == map[] && r.list == []
  {
    match word
    case None => WalkResult("", map[], [])
    case Some(w) => Walk(c, Forward, o, w, "", [], map[])
  }

  /** `_findChainStart(corpus, word)`: the backward walk out of `word`, its
      list reversed into reading order. */
  function FindChainStart(c: Chain, word: Option<string>, o: Oracle): (r: WalkResult)
    requires ValidOracle(o)
    ensures |r.list| <= 2 * |Words(c)| + 1
    ensures word.None? ==> r.sentence == "" && r.referenced == map[] && r.list == []
  {
    match word
    case None => WalkResult("", map[], [])
    case Some(w) =>
      var r := Walk(c, Backward, o, w, "", [], map[]);
      WalkResult(r.sentence, r.referenced, Reverse(r.list))
  }

  /** The forward walk follows successor edges: the first pick is a
      successor of the seed and each later pick a successor of the one
      before; no pick is empty or made after the budget ran out; the refs
      returned are the picks' refs merged in order. */
  lemma FindChainEndFollowsEdges(c: Chain, w: string, o: Oracle)
    requires ValidOracle(o)
    ensures var r := FindChainEnd(c, Some(w), o);
      var ts := Picks(o, [], r);
      && Steps(c, Forward, w, ts)
      && (forall j :: 0 <= j < |ts| ==> ts[j] != "" && r.list[j] == Some(ts[j]) && !o(j).timedOut)
      && r.referenced == MergeAll(c, map[], ts)
  {
    WalkingAtSeed(c, Forward, w);
    hide Walk, Round, Walking, Words, Elems, Choose, Repeats, Split, Extend, Merge, Cycling;
    WalkSteps(c, Forward, o, w, "", [], map[]);
    WalkPicksInTime(c, Forward, o, w, "", [], map[]);
    WalkRefs(c, Forward, o, w, "", [], map[]);
  }

  /** A forward walk whose last pass ran out of time ends with a word
      forced from the end index, and its sentence is that word alone after
      a space. */
  lemma FindChainEndTimeout(c: Chain, w: string, o: Oracle)
    requires ValidOracle(o)
    ensures var r := FindChainEnd(c, Some(w), o);
      var n := |r.list|;
      n > 0 && o(n - 1).timedOut ==>
        r.list[n - 1] == ForcedPick(c.endWords, o(n - 1).forced) && r.sentence == " " + Show(r.list[n - 1])
  {
    WalkingAtSeed(c, Forward, w);
    hide Walk, Round, Walking, Words, Elems, Choose, Repeats, Split, Extend, Merge, Cycling;
    WalkForced(c, Forward, o, w, "", [], map[]);
  }

  /** A walk from a seed that does not run out of time returns only tokens,
      and its sentence renders all of them. */
  lemma SeedWalkRendered(c: Chain, dir: Direction, w: string, o: Oracle)
    requires ValidOracle(o)
    ensures var r := Walk(c, dir, o, w, "", [], map[]);
      !ForcedEnd(o, [], r) ==>
        && (forall j :: 0 <= j < |r.list| ==> r.list[j].Some?)
        && r.sentence == Rendered(dir, Unwrap(r.list))
  {
    WalkingAtSeed(c, dir, w);
    hide Walk, Round, Walking, Words, Elems, Choose, Repeats, Split, Extend, Merge, Cycling, Join, FirstWords, LastWords;
    var r := Walk(c, dir, o, w, "", [], map[]);
    if !ForcedEnd(o, [], r) {
      WalkRendered(c, dir, o, w, "", [], map[]);
      WalkPicksInTime(c, dir, o, w, "", [], map[]);
      PicksWhole(o, r);
      assert [] + Picks(o, [], r) == Picks(o, [], r);
    }
  }

  /** A forward walk that does not run out of time returns only tokens, and
      its sentence is a space before the first words of its tokens joined
      by spaces. */
  lemma FindChainEndSentence(c: Chain, w: string, o: Oracle)
    requires ValidOracle(o)
    ensures var r := FindChainEnd(c, Some(w), o);
      var n := |r.list|;
      !(n > 0 && o(n - 1).timedOut) ==>
        && (forall j :: 0 <= j < n ==> r.list[j].Some?)
        && r.sentence == if n == 0 then "" else " " + Join(FirstWords(Unwrap(r.list)))
  {
    hide Walk, Round, Walking, Words, Elems, Choose, Repeats, Split, Extend, Merge, Cycling;
    SeedWalkRendered(c, Forward, w, o);
  }

  /** The backward walk follows predecessor edges: read from the end of the
      returned list, the picks go from a predecessor of the seed to a
      predecessor of the one before; the refs returned are theirs merged in
      walk order. */
  lemma FindChainStartFollowsEdges(c: Chain, w: string, o: Oracle)
    requires ValidOracle(o)
    ensures var r := FindChainStart(c, Some(w), o);
      var ts := Picks(o, [], Walk(c, Backward, o, w, "", [], map[]));
      && |ts| <= |r.list|
      && Steps(c, Backward, w, ts)
      && (forall j :: 0 <= j < |ts| ==> ts[j] != "" && r.list[|r.list| - 1 - j] == Some(ts[j]) && !o(j).timedOut)
      && r.referenced == MergeAll(c, map[], ts)
  {
    WalkingAtSeed(c, Backward, w);
    hide Walk, Round, Walking, Words, Elems, Choose, Repeats, Split, Extend, Merge, Cycling;
    WalkSteps(c, Backward, o, w, "", [], map[]);
    WalkPicksInTime(c, Backward, o, w, "", [], map[]);
    WalkRefs(c, Backward, o, w, "", [], map[]);
  }

  /** A backward walk whose last pass ran out of time returns a word forced
      from the start index at the head of its list, and its sentence is that
      word alone before a space. */
  lemma FindChainStartTimeout(c: Chain, w: string, o: Oracle)
    requires ValidOracle(o)
    ensures var r := FindChainStart(c, Some(w), o);
      var n := |r.list|;
      n > 0 && o(n - 1).timedOut ==>
        r.list[0] == ForcedPick(c.startWords, o(n - 1).forced) && r.sentence == Show(r.list[0]) + " "
  {
    WalkingAtSeed(c, Backward, w);
    hide Walk, Round, Walking, Words, Elems, Choose, Repeats, Split, Extend, Merge, Cycling;
    var r := Walk(c, Backward, o, w, "", [], map[]);
    WalkForced(c, Backward, o, w, "", [], map[]);
    if |r.list| > 0 {
      assert Reverse(r.list)[0] == r.list[|r.list| - 1];
    }
  }

  /** A backward walk that does not run out of time returns only tokens, in
      reading order, and its sentence is the last words of those tokens, in
      that order, joined by spaces, then a space. */
  lemma FindChainStartSentence(c: Chain, w: string, o: Oracle)
    requires ValidOracle(o)
    ensures var r := FindChainStart(c, Some(w), o);
      var n := |r.list|;
      !(n > 0 && o(n - 1).timedOut) ==>
        && (forall j :: 0 <= j < n ==> r.list[j].Some?)
        && r.sentence == if n == 0 then "" else Join(LastWords(Unwrap(r.list))) + " "
  {
    WalkingAtSeed(c, Backward, w);
    hide Walk, Round, Walking, Words, Elems, Choose, Repeats, Split, Extend, Merge, Cycling, Join, LastWords;
    var r := Walk(c, Backward, o, w, "", [], map[]);
    var n := |r.list|;
    SeedWalkRendered(c, Backward, w, o);
    if !ForcedEnd(o, [], r) {
      UnwrapReverse(r.list);
      forall j | 0 <= j < n
        ensures Reverse(r.list)[j].Some?
      {
        assert Reverse(r.list)[j] == r.list[n - 1 - j];
      }
    }
  }

  /** Without a forced end the picks are the whole list. */
  lemma PicksWhole(o: Oracle, r: WalkResult)
    requires !ForcedEnd(o, [], r)
    ensures Picks(o, [], r) == Unwrap(r.list)
  {
    assert r.list[0..|r.list|] == r.list;
  }
}
