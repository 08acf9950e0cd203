/** The sequential part of `generateSentence` in src/Markov.js: resolving
    the seed token, assembling a sentence from the two walks, the default
    filter and the bounded retry loop. The two walks run in worker threads
    in the source; here they are plain calls. */
module Generator {
  import opened Wrappers
  import opened Js
  import opened Chain
  import opened Selection
  import opened Walker

  /** `{refs, text, string}`; `string` is always `text`, so it is kept once. */
  datatype Generated = Generated(refs: Refs, text: string)

  type Filter = Generated -> bool

  /** The option bag: `input`, `retries` and `filter`, each possibly absent. */
  datatype Options = Options(input: Option<string>, retries: Option<int>, filter: Option<Filter>)

  /** What `generateSentence` is called with: a bare string or an option bag. */
  datatype Request = Text(s: string) | Bag(options: Options)

  const DefaultRetries: int := 20

  /** The default filter: the text splits into at least two pieces. */
  predicate DefaultFilter(g: Generated) {
    |Split(g.text)| >= 2
  }

  /** A bare string stands for `{input: string}`. */
  function OptionsOf(req: Request): Options {
    match req
    case Text(s) => Options(Some(s), None, None)
    case Bag(o) => o
  }

  // ---------------------------------------------------------------------------
  // The seed

  /** `inputStates.find(s => chain.has(s))`: the first piece that is a token
      of the store. With a window of one, the input states are the pieces of
      the input themselves. */
  function FirstInChain(c: Chain, pieces: seq<string>): (r: Option<string>)
    ensures r.Some? ==> Word(r.value) in c.nodes && r.value in pieces
  {
    if |pieces| == 0 then None
    else if Word(pieces[0]) in c.nodes then Some(pieces[0])
    else FirstInChain(c, pieces[1..])
  }

  /** `FirstInChain` finds nothing exactly when no piece is a token, and
      otherwise the piece at the first index holding a token. */
  lemma {:induction false} FirstInChainIsFirst(c: Chain, pieces: seq<string>)
    ensures var r := FirstInChain(c, pieces);
      && (r.None? <==> forall i :: 0 <= i < |pieces| ==> Word(pieces[i]) !in c.nodes)
      && (r.Some? ==> exists k :: 0 <= k < |pieces| && pieces[k] == r.value
                                  && forall j :: 0 <= j < k ==> Word(pieces[j]) !in c.nodes)
  {
    if |pieces| > 0 && Word(pieces[0]) !in c.nodes {
      var rest := pieces[1..];
      FirstInChainIsFirst(c, rest);
      var r := FirstInChain(c, rest);
      forall i | 0 < i < |pieces|
        ensures pieces[i] == rest[i - 1]
      {
      }
      if r.Some? {
        var k :| 0 <= k < |rest| && rest[k] == r.value && forall j :: 0 <= j < k ==> Word(rest[j]) !in c.nodes;
        assert pieces[k + 1] == r.value;
        assert forall j :: 0 <= j < k + 1 ==> Word(pieces[j]) !in c.nodes;
      }
    } else if |pieces| > 0 {
      assert pieces[0] == FirstInChain(c, pieces).value;
    }
  }

  /** The seed the caller asked for: the first piece of `input` that is a
      token of the store, or none when there is no input (`input?.split`). */
  function ResolveInput(c: Chain, input: Option<string>): (r: Option<string>)
    ensures input.None? ==> r.None?
    ensures input.Some? && r.None? ==> forall i :: 0 <= i < |Split(input.value)| ==> Word(Split(input.value)[i]) !in c.nodes
    ensures input.Some? && r.Some? ==> exists i :: 0 <= i < |Split(input.value)| && Word(Split(input.value)[i]) in c.nodes
    ensures r.Some? ==> Word(r.value) in c.nodes && r.value in Split(input.value)
  {
    if input.None? then None
    else
      var pieces := Split(input.value);
      FirstInChainIsFirst(c, pieces);
      FirstInChain(c, pieces)
  }

  /** `input ?? sWords[Math.floor(Math.random() * sWords.length)]`: the
      resolved input, or a drawn start word, `undefined` when the start
      index is empty. */
  function Seed(c: Chain, input: Option<string>, u: real): (r: Option<string>)
    requires Unit(u)
    ensures r.None? <==> input.None? && |c.startWords| == 0
    ensures r.Some? ==> r == input || (input.None? && r.value in c.startWords)
  {
    if input.Some? then input else ForcedPick(c.startWords, u)
  }

  /** The seed is chosen once: feeding a seed back in, as the next attempt
      does, gives it back whatever the new reading. */
  lemma SeedStable(c: Chain, input: Option<string>, u: real, u': real)
    requires Unit(u) && Unit(u')
    ensures Seed(c, Seed(c, input, u), u') == Seed(c, input, u)
  {
  }

  // ---------------------------------------------------------------------------
  // One attempt

  /** The readings of one attempt: the start-word draw and the oracles of
      the backward and forward walks. */
  datatype AttemptDraws = AttemptDraws(seed: real, start: Oracle, end: Oracle)

  type Draws = nat -> AttemptDraws

  ghost predicate ValidDraws(d: Draws) {
    forall i: nat :: Unit(d(i).seed) && ValidOracle(d(i).start) && ValidOracle(d(i).end)
  }

  /** A walk's sentence trimmed, or `""` when it is empty. */
  function Trimmed(sentence: string): string {
    if sentence != "" then Trim(sentence) else ""
  }

  /** The result of one attempt: the trimmed backward sentence, the seed
      between single spaces, the trimmed forward sentence. Its refs hold
      every key of either walk's refs, the forward walk's value winning
      where both have one; its text holds at least two spaces, so it splits
      into at least three pieces and the default filter accepts it. */
  function Assemble(start: WalkResult, end: WalkResult, seed: Option<string>): (r: Generated)
    ensures r.refs.Keys == start.referenced.Keys + end.referenced.Keys
    ensures forall k :: k in end.referenced ==> r.refs[k] == end.referenced[k]
    ensures forall k :: k in start.referenced && k !in end.referenced ==> r.refs[k] == start.referenced[k]
    ensures |Split(r.text)| >= 3 && DefaultFilter(r)
  {
    var a := Trimmed(start.sentence);
    var b := Show(seed);
    var e := Trimmed(end.sentence);
    SpacedSplits(a, b, e);
    Generated(start.referenced + end.referenced, a + " " + b + " " + e)
  }

  /** Three strings joined by two single spaces split into at least three
      pieces. */
  lemma SpacedSplits(a: string, b: string, e: string)
    ensures |Split(a + " " + b + " " + e)| >= 3
  {
    SpaceCountAppend(a, " ");
    SpaceCountAppend(a + " ", b);
    SpaceCountAppend(a + " " + b, " ");
    SpaceCountAppend(a + " " + b + " ", e);
    assert SpaceCount(" ") == 1;
  }

  /** One attempt: both walks from the seed, assembled; whatever the walks
      return, the default filter accepts it. */
  function Attempt(c: Chain, seed: Option<string>, d: AttemptDraws): (r: Generated)
    requires ValidOracle(d.start) && ValidOracle(d.end)
    ensures DefaultFilter(r)
  {
    Assemble(FindChainStart(c, seed, d.start), FindChainEnd(c, seed, d.end), seed)
  }

  /** The text of an attempt from a seed, in terms of the two walks: the
      backward walk's last words joined by spaces (or its forced start word
      on a timeout), the seed, then the forward walk's first words (or its
      forced end word), each side trimmed. */
  lemma AttemptText(c: Chain, s: string, d: AttemptDraws)
    requires ValidOracle(d.start) && ValidOracle(d.end)
    ensures var b := FindChainStart(c, Some(s), d.start);
      var f := FindChainEnd(c, Some(s), d.end);
      var nb := |b.list|;
      var nf := |f.list|;
      Attempt(c, Some(s), d).text
        == (if nb == 0 then ""
            else if d.start(nb - 1).timedOut then Trim(Show(b.list[0]) + " ")
            else Trim(Join(LastWords(Unwrap(b.list))) + " "))
           + " " + s + " "
           + (if nf == 0 then ""
              else if d.end(nf - 1).timedOut then Trim(" " + Show(f.list[nf - 1]))
              else Trim(" " + Join(FirstWords(Unwrap(f.list)))))
  {
    FindChainStartSentence(c, s, d.start);
    FindChainStartTimeout(c, s, d.start);
    FindChainEndSentence(c, s, d.end);
    FindChainEndTimeout(c, s, d.end);
  }

  /** Without a seed both walks are empty and the text is the rendering of
      `undefined` between two spaces. */
  lemma AttemptWithoutSeed(c: Chain, d: AttemptDraws)
    requires ValidOracle(d.start) && ValidOracle(d.end)
    ensures Attempt(c, None, d).text == " undefined "
    ensures Attempt(c, None, d).refs == map[]
  {
  }

  // ---------------------------------------------------------------------------
  // The retry loop

  /** The loop from attempt `i`: an accepted result is returned, and after
      `retries` rejected attempts the call throws, the message naming
      `retries`. */
  function Retry(c: Chain, input: Option<string>, draws: Draws, filter: Filter, i: nat, retries: int): (r: Result<Generated, int>)
    requires ValidDraws(draws)
    ensures r.Failure? ==> r.error == retries
    ensures r.Success? ==> filter(r.value)
    decreases retries - i
  {
    if i >= retries then Failure(retries)
    else
      var seed := Seed(c, input, draws(i).seed);
      var g := Attempt(c, seed, draws(i));
      if filter(g) then Success(g) else Retry(c, seed, draws, filter, i + 1, retries)
  }

  /** `generateSentence(options)`. */
  function GenerateSentence(c: Chain, req: Request, draws: Draws): (r: Result<Generated, int>)
    requires ValidDraws(draws)
    ensures r.Failure? ==> r.error == OptionsOf(req).retries.GetOr(DefaultRetries)
    ensures r.Success? ==> OptionsOf(req).filter.GetOr(DefaultFilter)(r.value)
    ensures OptionsOf(req).retries.GetOr(DefaultRetries) <= 0 ==> r.Failure?
  {
    var opts := OptionsOf(req);
    Retry(c, ResolveInput(c, opts.input), draws, opts.filter.GetOr(DefaultFilter), 0, opts.retries.GetOr(DefaultRetries))
  }

  /** The loop from attempt `i` with the seed `s` drawn there: it fails
      exactly when every remaining attempt, each with that same seed, is
      rejected; otherwise it returns the first accepted attempt. */
  lemma {:induction false} RetryOutcome(c: Chain, input: Option<string>, draws: Draws, filter: Filter, i: nat, retries: int)
    requires ValidDraws(draws)
    ensures var s := Seed(c, input, draws(i).seed);
      var r := Retry(c, input, draws, filter, i, retries);
      && (r.Failure? <==> forall j: nat :: i <= j < retries ==> !filter(Attempt(c, s, draws(j))))
      && (r.Success? ==> exists k: nat :: i <= k < retries && r.value == Attempt(c, s, draws(k)) && filter(r.value)
                                           && forall j: nat :: i <= j < k ==> !filter(Attempt(c, s, draws(j))))
    decreases retries - i
  {
    hide Attempt, Assemble, FindChainStart, FindChainEnd;
    var s := Seed(c, input, draws(i).seed);
    if i < retries && !filter(Attempt(c, s, draws(i))) {
      SeedStable(c, input, draws(i).seed, draws(i + 1).seed);
      RetryOutcome(c, s, draws, filter, i + 1, retries);
    }
  }

  /** `generateSentence` throws exactly when all `retries` attempts are
      rejected, and otherwise returns the first accepted one; every attempt
      uses the seed resolved from the input, or else the start word drawn
      for the first attempt. */
  lemma GenerateOutcome(c: Chain, req: Request, draws: Draws)
    requires ValidDraws(draws)
    ensures var opts := OptionsOf(req);
      var s := Seed(c, ResolveInput(c, opts.input), draws(0).seed);
      var retries := opts.retries.GetOr(DefaultRetries);
      var filter := opts.filter.GetOr(DefaultFilter);
      var r := GenerateSentence(c, req, draws);
      && (r.Failure? <==> forall j: nat :: j < retries ==> !filter(Attempt(c, s, draws(j))))
      && (r.Failure? ==> r.error == retries)
      && (r.Success? ==> exists k: nat :: k < retries && r.value == Attempt(c, s, draws(k)) && filter(r.value)
                                           && forall j: nat :: j < k ==> !filter(Attempt(c, s, draws(j))))
  {
    hide Attempt, Assemble, FindChainStart, FindChainEnd;
    var opts := OptionsOf(req);
    RetryOutcome(c, ResolveInput(c, opts.input), draws, opts.filter.GetOr(DefaultFilter), 0, opts.retries.GetOr(DefaultRetries));
  }

  /** With the default filter the first attempt is always accepted, so the
      loop never retries: a bare string, or a bag without a filter and with
      at least one retry, yields the first attempt. */
  lemma DefaultFilterFirstAttempt(c: Chain, req: Request, draws: Draws)
    requires ValidDraws(draws)
    requires OptionsOf(req).filter.None? && OptionsOf(req).retries.GetOr(DefaultRetries) >= 1
    ensures var s := Seed(c, ResolveInput(c, OptionsOf(req).input), draws(0).seed);
      GenerateSentence(c, req, draws) == Success(Attempt(c, s, draws(0)))
  {
  }
}
