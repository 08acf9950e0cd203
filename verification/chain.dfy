/** The chain store and its builder (`MarkovChain` in src/Markov.js): the
    token graph with its START/END sentinels and boundary indices, the
    constructor, `buildChain` and `addString`. */
module Chain {
  import opened Js
  import opened Counts

  /** `this.stateSize`, fixed at 1 whatever the constructor is given. */
  const StateSize: nat := 1

  /** A chain key: one of the two sentinels or a token. */
  datatype Key = Start | End | Word(w: string)

  /** Caller-supplied metadata, plus the injected `mid`/`timestamp`. */
  type Metadata = map<string, JsValue>

  /** `refs`: ingestion id to the metadata of that ingestion. */
  type Refs = map<int, Metadata>

  /** One chain entry. The sentinels carry no `refs` object in the source;
      here they carry the empty map. */
  datatype Node = Node(nextWords: Counts, nw: int, previousWords: Counts, pw: int, refs: Refs)

  /** The corpus: `chain`, `startWords` and `endWords`. The two indices are
      Maps whose values are the chain's own nodes, so only their keys, in
      insertion order, are kept. */
  datatype Chain = Chain(nodes: map<Key, Node>, startWords: seq<string>, endWords: seq<string>)

  const Blank: Node := Node([], 0, [], 0, map[])

  /** The node of token `w`, or a blank one if it is not in the chain yet. */
  function NodeAt(c: Chain, w: string): Node {
    if Word(w) in c.nodes then c.nodes[Word(w)] else Blank
  }

  // ---------------------------------------------------------------------------
  // Invariants

  /** Totals equal the sums of their maps; keys are distinct. */
  ghost predicate NodeOk(n: Node) {
    && Distinct(n.nextWords) && Distinct(n.previousWords)
    && n.nw == Sum(n.nextWords) && n.pw == Sum(n.previousWords)
  }

  predicate HasSentinels(c: Chain) {
    Start in c.nodes && End in c.nodes
  }

  /** Shape of the store: sentinels present and ref-free, the empty token
      never a key, every node's totals in step with its maps, `startWords`
      the key list of START's successors, `endWords` the key list of END's
      predecessors, each of which END counts once. */
  ghost predicate WellFormed(c: Chain) {
    && HasSentinels(c) && Word("") !in c.nodes
    && (forall k :: k in c.nodes ==> NodeOk(c.nodes[k]))
    && c.nodes[Start].previousWords == [] && c.nodes[Start].refs == map[]
    && c.nodes[End].nextWords == [] && c.nodes[End].refs == map[]
    && Keys(c.nodes[Start].nextWords) == c.startWords
    && Keys(c.nodes[End].previousWords) == c.endWords
    && (forall i :: 0 <= i < |c.nodes[End].previousWords| ==> c.nodes[End].previousWords[i].count == 1)
  }

  /** No dangling references, except that successor keys may be `""` (the
      end-of-sentence marker) or `pending`, the token about to be added. */
  ghost predicate ClosedExcept(c: Chain, pending: string) {
    && (forall k, x :: k in c.nodes && x in Keys(c.nodes[k].nextWords) ==> x == "" || x == pending || Word(x) in c.nodes)
    && (forall k, x :: k in c.nodes && x in Keys(c.nodes[k].previousWords) ==> Word(x) in c.nodes)
  }

  ghost predicate Valid(c: Chain) {
    WellFormed(c) && ClosedExcept(c, "")
  }

  /** The constructor: a chain holding exactly the two sentinels, each with
      empty maps, zero totals and no refs, and empty boundary indices. */
  function Empty(): (c: Chain)
    ensures c.nodes.Keys == {Start, End}
    ensures forall k :: k in c.nodes ==> c.nodes[k] == Node([], 0, [], 0, map[])
    ensures c.startWords == [] && c.endWords == []
    ensures Valid(c)
  {
    Chain(map[Start := Blank, End := Blank], [], [])
  }

  // ---------------------------------------------------------------------------
  // buildChain

  /** `words.slice(from, to)` for non-negative bounds. */
  function Slice(words: seq<string>, from: nat, to: nat): seq<string> {
    var a := if from <= |words| then from else |words|;
    var b := if to <= |words| then to else |words|;
    if a <= b then words[a..b] else []
  }

  /** The token at position `i` of the `buildChain` loop, `""` past the end. */
  function Window(words: seq<string>, i: nat): string {
    if i < |words| then words[i] else ""
  }

  /** `Window` is the loop's `words.slice(i, i + stateSize).join(" ")`: with
      a window of one the slice holds the word itself, or nothing past the
      end, and joining it gives that word or `""`. */
  lemma WindowIsJoinedSlice(words: seq<string>, i: nat)
    ensures Window(words, i) == Join(Slice(words, i, i + StateSize))
  {
    if i < |words| {
      assert Slice(words, i, i + StateSize) == [words[i]];
    } else {
      assert Slice(words, i, i + StateSize) == [];
    }
  }

  /** The ref stored for an ingestion: `{timestamp, ...{...data, mid: timestamp}}`.
      The spread comes last, so a `timestamp` field of the caller's data
      wins over the stamp, while `mid` is always the stamp. */
  function RefRecord(data: Metadata, id: int): (r: Metadata)
    ensures r.Keys == data.Keys + {"timestamp", "mid"}
    ensures r["mid"] == Number(id as real)
    ensures r["timestamp"] == if "timestamp" in data then data["timestamp"] else Number(id as real)
    ensures forall k :: k in data && k != "mid" ==> r[k] == data[k]
  {
    map["timestamp" := Number(id as real)] + (data + map["mid" := Number(id as real)])
  }

  /** A bracket lookup `index[w]` on a `Map` object: it reads a property of
      the object, not an entry, so it is truthy only for the names of
      inherited methods and, once the map is non-empty, for `size`. */
  predicate BracketLookupTruthy(index: seq<string>, w: string) {
    w in MapMethodNames || w in ObjectPrototypeNames || (w == "size" && |index| > 0)
  }

  /** One more successor `x`. */
  function BumpNext(n: Node, x: string): Node {
    n.(nextWords := Inc(n.nextWords, x), nw := n.nw + 1)
  }

  /** One more predecessor `x`. */
  function BumpPrev(n: Node, x: string): Node {
    n.(previousWords := Inc(n.previousWords, x), pw := n.pw + 1)
  }

  /** Bumping a count keeps the totals in step with the maps and the keys
      distinct. */
  lemma BumpKeepsNodeOk(n: Node, x: string)
    requires NodeOk(n)
    ensures NodeOk(BumpNext(n, x)) && NodeOk(BumpPrev(n, x))
  {
    IncDistinct(n.nextWords, x);
    IncDistinct(n.previousWords, x);
  }

  /** Create the node of `w` if needed and stamp the ingestion's ref on it. */
  function Touch(c: Chain, w: string, id: int, record: Metadata): Chain {
    var n := NodeAt(c, w);
    c.(nodes := c.nodes[Word(w) := n.(refs := n.refs[id := record])])
  }

  /** Record `w` as a sentence start. */
  function IndexStart(c: Chain, w: string): Chain
    requires Start in c.nodes
  {
    c.(startWords := if w in c.startWords then c.startWords else c.startWords + [w],
       nodes := c.nodes[Start := BumpNext(c.nodes[Start], w)])
  }

  /** Record `w` as a sentence end. */
  function IndexEnd(c: Chain, w: string): Chain
    requires End in c.nodes
  {
    c.(endWords := c.endWords + [w], nodes := c.nodes[End := BumpPrev(c.nodes[End], w)])
  }

  /** Count one more `w -> x` successor edge. */
  function LinkNext(c: Chain, w: string, x: string): Chain
    requires Word(w) in c.nodes
  {
    c.(nodes := c.nodes[Word(w) := BumpNext(c.nodes[Word(w)], x)])
  }

  /** Count one more `x <- w` predecessor edge. */
  function LinkPrev(c: Chain, w: string, x: string): Chain
    requires Word(w) in c.nodes
  {
    c.(nodes := c.nodes[Word(w) := BumpPrev(c.nodes[Word(w)], x)])
  }

  /** One iteration of the `buildChain` loop, at a position whose word is
      not empty. */
  function Step(c: Chain, words: seq<string>, i: nat, id: int, data: Metadata): (r: Chain)
    requires HasSentinels(c) && i < |words| && words[i] != ""
    ensures HasSentinels(r)
  {
    var w := Window(words, i);
    var c1 := Touch(c, w, id, RefRecord(data, id));
    var c2 := if i == 0 && !BracketLookupTruthy(c1.startWords, w) then IndexStart(c1, w) else c1;
    var c3 := if i == |words| - StateSize && w !in c2.endWords then IndexEnd(c2, w) else c2;
    var c4 := if i < |words| - (StateSize - 1) then LinkNext(c3, w, Window(words, i + 1)) else c3;
    if i > 0 then LinkPrev(c4, w, Window(words, i - 1)) else c4
  }

  /** One iteration adds exactly the token of its word (creating it when
      absent) and only appends to the boundary indices. */
  lemma StepKeys(c: Chain, words: seq<string>, i: nat, id: int, data: Metadata)
    requires HasSentinels(c) && i < |words| && words[i] != ""
    ensures var r := Step(c, words, i, id, data);
      && r.nodes.Keys == c.nodes.Keys + {Word(words[i])}
      && c.startWords <= r.startWords && c.endWords <= r.endWords
  {
  }

  /** The `buildChain` loop from position `i`: an empty word returns early. */
  function BuildFrom(c: Chain, words: seq<string>, i: nat, id: int, data: Metadata): (r: Chain)
    requires HasSentinels(c) && i <= |words|
    ensures HasSentinels(r)
    ensures Extends(c, r, words[i..])
    decreases |words| - i
  {
    if i >= |words| - (StateSize - 1) then c
    else if Window(words, i) == "" then c
    else
      StepKeys(c, words, i, id, data);
      assert words[i..] == [words[i]] + words[i + 1..];
      BuildFrom(Step(c, words, i, id, data), words, i + 1, id, data)
  }

  /** `buildChain(words, metadata)`, with the `Date.now()` stamp passed in as `id`. */
  function BuildChain(c: Chain, words: seq<string>, id: int, data: Metadata): (r: Chain)
    requires HasSentinels(c)
    ensures HasSentinels(r)
    ensures Extends(c, r, words)
  {
    assert words[0..] == words;
    BuildFrom(c, words, 0, id, data)
  }

  /** `r` grows out of `c` by ingesting `words`: no token is removed, every
      new token is a non-empty one of `words`, and the boundary indices only
      gain entries at their ends. */
  predicate Extends(c: Chain, r: Chain, words: seq<string>) {
    && c.nodes.Keys <= r.nodes.Keys
    && (forall k :: k in r.nodes && k !in c.nodes ==> k.Word? && k.w != "" && k.w in words)
    && c.startWords <= r.startWords && c.endWords <= r.endWords
  }

  /** `r` grows out of `c` by `addString`: as for `Extends`, with every new
      token free of spaces. */
  predicate Grows(c: Chain, r: Chain) {
    && c.nodes.Keys <= r.nodes.Keys
    && (forall k :: k in r.nodes && k !in c.nodes ==> k.Word? && k.w != "" && ' ' !in k.w)
    && c.startWords <= r.startWords && c.endWords <= r.endWords
  }

  // ---------------------------------------------------------------------------
  // addString

  /** `addString` on one string, the `Date.now()` stamp passed in as `id`. */
  function AddSentence(c: Chain, sentence: string, data: Metadata, id: int): (r: Chain)
    requires HasSentinels(c)
    ensures HasSentinels(r)
    ensures Grows(c, r)
  {
    if sentence == "" || sentence == " " then c
    else BuildChain(c, Split(Trim(sentence)), id, data)
  }

  /** One element of an array handed to `addString`: strings are added,
      nested arrays and every other value are skipped. */
  function AddElement(c: Chain, e: JsValue, data: Metadata, id: int): (r: Chain)
    requires HasSentinels(c)
    ensures HasSentinels(r)
    ensures !e.Str? ==> r == c
    ensures Grows(c, r)
  {
    match e
    case Str(s) => AddSentence(c, s, data, id)
    case _ => c
  }

  function AddElements(c: Chain, elems: seq<JsValue>, i: nat, data: Metadata, clock: nat -> int): (r: Chain)
    requires HasSentinels(c) && i <= |elems|
    ensures HasSentinels(r)
    ensures Grows(c, r)
    decreases |elems| - i
  {
    if i == |elems| then c
    else AddElements(AddElement(c, elems[i], data, clock(i)), elems, i + 1, data, clock)
  }

  /** `addString(sentence, data)`. `clock(i)` is the `Date.now()` read by the
      `buildChain` call for array element `i` (element 0 for a plain string). */
  function AddString(c: Chain, sentence: JsValue, data: Metadata, clock: nat -> int): (r: Chain)
    requires HasSentinels(c)
    ensures HasSentinels(r)
    ensures !sentence.Str? && !sentence.Array? ==> r == c
    ensures Grows(c, r)
  {
    match sentence
    case Array(elems) => AddElements(c, elems, 0, data, clock)
    case Str(s) => AddSentence(c, s, data, clock(0))
    case _ => c
  }
}
