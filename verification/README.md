# Markov chain sentence generator — a Dafny model

This project models the sequential core of a word-level Markov chain text
generator written in JavaScript:

- `MarkovChain` in `src/Markov.js`:
  - the chain store with its START and END sentinels;
  - the `buildChain` ingestion loop;
  - `addString`;
  - the sequential part of `generateSentence`: seed resolution, sentence
    assembly, the default filter and the bounded retry loop.
- The walkers of `src/Workers.js`:
  - the roulette-wheel choosers `_chooseRandomNextWord` and
    `_chooseRandomPreviousWord`;
  - the two walk loops `_findChainEnd` and `_findChainStart`;
  - `_removeOverlap`.
- The non-regex part of `src/Tokenizer.js`: `_validateInput`, the early
  return of `_tokenize`, and `groupTokens`.

## Modelling choices

- The store is an immutable `Chain` datatype and every operation is a pure
  function from the old store to the new one.
- Chain keys are `Start | End | Word(w)`, not the numeric keys `0` and `1`.
- A count map (`nextWords`, `previousWords`) is a sequence of key/count
  entries. This keeps the insertion order of a JavaScript `Map`, which the
  choosers depend on.
- The window size is fixed at 1, as in the source.
- The sentinel nodes have no `refs` object in the source. Here they carry
  the empty map.
- `Date.now()` and `Math.random()` are parameters:
  - The ingestion stamp is an `id` argument. For array input, `clock(i)` is
    the stamp of element `i`.
  - Each random reading is a real in `[0, 1)`.
  - A walk reads an oracle that gives, for its `k`-th pass, whether the
    six-second budget has run out and the three readings that pass uses.
  - Each generation attempt gets its own pair of walk oracles and its own
    seed reading.
- JavaScript values that matter are modelled by a small `JsValue` type with
  JavaScript truthiness.
- String operations are modelled with their JavaScript meaning: `trim`
  (the full whitespace set), `split(' ')`, `join(' ')`, and `indexOf` with a
  clamped start position.
- Effects of the source that are not plain data are modelled literally:
  - Bracket lookup on a `Map` (`startWords[word]`) reads object properties,
    not entries.
  - Spreading an inherited `Object.prototype` member inside `groupTokens`
    throws a TypeError.
  - A forced pick from an empty boundary index is `undefined`. It is
    rendered as `"undefined"`.

## Where the code departs from its own comments

- **Start index.** The comment at src/Markov.js:63 says a word is indexed
  as a start word only if it is not indexed yet. The test at line 64 is the
  bracket lookup `this.startWords[word]` on a `Map`, which reads object
  properties, not entries, and is falsy for ordinary words. So every
  ingestion that begins with `w` bumps `START.nextWords[w]` and `START.nw`;
  only `startWords` keeps `w` once. Inherited method names, and `size` once
  `startWords` is non-empty, are never counted. See
  `Chain.BracketLookupTruthy` and `Ingestion.BuildChainIndices`.
- **Predecessor choice.** The comment at src/Workers.js:186 says the
  previous word is chosen by its weight. The accumulator at lines 188-196
  starts at `pw` and only grows, while `select` stays below `pw + 1`. So the
  weighted test never fires when `pw > 0`, and the result is always the key
  at the uniformly drawn index. See `Selection.PrevPickIsUniformIndex`.
- **Self-loops.** The weighted successor test at src/Workers.js:116 refuses
  the word itself (`next !== word`). The uniform fallback chosen at line 108
  does not. When no other successor qualifies, the fallback can return the
  word itself even when other successors exist. It cannot do so when the
  last successor in insertion order is another token. See
  `Selection.NextPickIsFirstQualifying` and
  `Selection.NextFallbackOnlyForSelfLoop`.
- **`inAfterWords`.** The weighted successor pass computes an `inAfterWords`
  term (src/Workers.js:111-115), but its callback has a block body without
  `return`, so the term is always false. The model leaves it out of the
  test.

## Other behaviour of the code

- **Seed on retries.** The seed is resolved once (src/Markov.js:141). When
  nothing resolves, the start word drawn at line 149 is assigned to `input`,
  so every later retry reuses it instead of drawing again. See
  `Generator.SeedStable` and `Generator.RetryOutcome`.
- **Assembly.** The text is the trimmed backward sentence, the seed and the
  trimmed forward sentence (src/Markov.js:159). `_removeOverlap` is not
  called on this path; `Overlap.RemoveOverlap` is modelled on its own.
- **Bad words.** The loop returns at the first empty word
  (src/Markov.js:47-50) and keeps every mutation made for earlier
  positions. See `Ingestion.BuildChainAborts`.
- **Timeout.** A walk that runs out of time replaces its sentence with the
  forced boundary word (src/Workers.js:45-53 and 137-145). See
  `Walker.FindChainEndTimeout` and `Walker.FindChainStartTimeout`.
- **Repetition guard.** The test at src/Workers.js:58 and 151 looks at the
  sentence built so far, before the candidate is appended.

## Model

| member | source | states |
|---|---|---|
| Js.Trim | src/Markov.js:113 | the trimmed string neither starts nor ends with whitespace |
| Js.TrimIsInfix | src/Markov.js:113 | `trim` removes only whitespace, and only at the two ends: the result is an infix of the input with whitespace on both sides |
| Js.Split | src/Markov.js:113 | `split(' ')` gives one more piece than there are spaces, and no piece contains a space |
| Js.JoinSplit | src/Markov.js:113 | joining the pieces of `split(' ')` with single spaces gives the string back |
| Js.SplitJoin | src/Markov.js:113 | splitting a join of space-free pieces gives the pieces back |
| Js.Truthy | src/Tokenizer.js:67 | JavaScript truthiness: `undefined`, `null`, `false`, `0` and `''` are falsy, every other value is truthy |
| Js.Join | src/Markov.js:46 | `parts.join(' ')`; `Js.JoinSplit` and `Js.SplitJoin` show it inverts `split(' ')` |
| Js.FirstWord | src/Workers.js:67 | `t.split(' ').shift()` never contains a space |
| Js.LastWord | src/Workers.js:160 | `t.split(' ').pop()` never contains a space |
| Js.FirstWordIsPrefix | src/Workers.js:67 | `t.split(' ').shift()` is the longest space-free prefix of `t`: a prefix that is all of `t` or followed by a space |
| Js.FirstWordIdempotent | src/Workers.js:206 | taking the first word of a first word changes nothing |
| Js.IndexOf | src/Workers.js:58 | `indexOf` returns -1 or the first occurrence at or after the clamped start, with no occurrence before it |
| Js.Repeats | src/Workers.js:58 | the repetition test `(s + s).indexOf(s, 1) != s.length`, characterised by `Js.RepeatsIffProperRotation` |
| Js.RepeatsIffProperRotation | src/Workers.js:58 | the repetition test `(s + s).indexOf(s, 1) != s.length` holds exactly when `s` occurs in `s + s` at a shift strictly between 0 and `|s|`; the empty sentence never repeats |
| Counts.Get | src/Markov.js:80 | `m.get(k) \|\| 0` is positive exactly for the keys of the map |
| Counts.Inc | src/Markov.js:80-81 | one increment raises the sum of the counts by exactly one |
| Counts.IncGet | src/Markov.js:80 | an increment adds one to the count of its key and leaves every other count alone |
| Counts.IncKeys | src/Markov.js:80 | `Map.set` on a present key keeps the key order; a new key is appended with count 1 |
| Counts.IncDistinct | src/Markov.js:80 | incrementing keeps the keys of a count map distinct |
| Chain.Empty | src/Markov.js:12-35 | a fresh chain holds exactly the START and END nodes, each with empty maps, zero totals and no refs, and empty boundary indices; it satisfies the store invariant |
| Chain.WindowIsJoinedSlice | src/Markov.js:46 | with a window of one, `words.slice(i, i + 1).join(" ")` is the word at `i`, or `""` past the end |
| Chain.BumpKeepsNodeOk | src/Markov.js:78-89 | each map increment is paired with an increment of its total, so totals stay equal to the sums of their maps |
| Chain.RefRecord | src/Markov.js:40-62 | the stored ref holds the caller's fields plus `timestamp` and `mid`; `mid` is always the stamp, a caller's own `timestamp` field wins over the stamp, and every other field is the caller's |
| Chain.BracketLookupTruthy | src/Markov.js:64 | `startWords[w]` is truthy only for the names of methods a `Map` inherits and, once the index is non-empty, for `size`; an ordinary word held as an entry reads as falsy |
| Chain.Step | src/Markov.js:45-90 | one loop iteration on a non-empty word keeps the START and END sentinels in the store |
| Chain.StepKeys | src/Markov.js:51-75 | one iteration adds exactly the token of its word, creating it when absent, and only appends to the boundary indices |
| Chain.BuildFrom | src/Markov.js:45-50 | the loop from position `i` removes nothing: every new token is a non-empty word of `words[i..]`, and the boundary indices only grow |
| Chain.BuildChain | src/Markov.js:37-91 | `buildChain` keeps the sentinels and removes nothing: every new token is a non-empty word of the input, and the boundary indices only grow |
| Chain.AddSentence | src/Markov.js:106-119 | `addString` on one string removes nothing, and every token it adds is non-empty and free of spaces |
| Chain.AddElement | src/Markov.js:94-105 | array elements that are not strings (nested arrays included) leave the store unchanged; a string element only adds non-empty, space-free tokens |
| Chain.AddElements | src/Markov.js:94-105 | the array loop from element `i` removes nothing and only adds non-empty, space-free tokens |
| Chain.AddString | src/Markov.js:93-120 | a value that is neither a string nor an array leaves the store unchanged; any other value only adds non-empty, space-free tokens |
| Ingestion.AbortPoint | src/Markov.js:45-50 | the loop's stopping position: every earlier word is non-empty, and the word there, if any, is empty |
| Ingestion.BuildChainAborts | src/Markov.js:45-50 | `buildChain` performs exactly the steps for the positions before the first empty word, and those mutations remain |
| Ingestion.StepOwnNode | src/Markov.js:62-89 | a step adds one successor count for the next word (`""` after the last), one predecessor count for the previous word when there is one, and stamps the ingestion's ref |
| Ingestion.StepOtherNodes | src/Markov.js:52-89 | a step leaves the nodes of every other word unchanged |
| Ingestion.BuildChainKeepsValid | src/Markov.js:37-91 | `buildChain` keeps the store invariant: sentinels present, `""` never a key, totals equal to sums, distinct keys, boundary indices equal to the sentinel maps' key lists, and every edge ending in a node or in `""` |
| Ingestion.BuildChainCounts | src/Markov.js:77-89 | every successor and predecessor count grows by exactly the number of adjacent occurrences of that pair before the abort point |
| Ingestion.BuildChainRefs | src/Markov.js:39-62 | exactly the nodes of the words before the abort point get the ingestion's ref record, keyed by its stamp; other refs are unchanged |
| Ingestion.LastWordLinksToEmpty | src/Markov.js:77-82 | a complete ingestion adds one `""` successor count to its last word and to no other word |
| Ingestion.BuildChainKeys | src/Markov.js:45-60 | the tokens after `buildChain` are exactly the old ones plus the words before the first empty word |
| Ingestion.IngestTwiceDoublesCounts | src/Markov.js:77-89 | ingesting the same words twice adds twice the single-ingestion successor and predecessor counts, and the second ingestion adds no token |
| Ingestion.BuildChainIndices | src/Markov.js:63-75 | START's count for the first word grows on every ingestion unless the bracket lookup is truthy, and `startWords` gains the word once; END and `endWords` gain the last word only the first time it ends a complete ingestion |
| Ingestion.EndTotalIsEndWordCount | src/Markov.js:70-75 | in a valid store END's predecessor total equals the number of end words, each counted exactly once |
| Ingestion.AddStringKeepsValid | src/Markov.js:93-120 | `addString` keeps the store invariant for any input value |
| Ingestion.AddStringArrayInOrder | src/Markov.js:94-105 | array elements are added in order: the last element is processed after all the others, with its own stamp |
| Ingestion.AddSentenceOfBlank | src/Markov.js:106-118 | a string that trims to nothing leaves the store unchanged |
| Ingestion.AddSentenceIngestsPieces | src/Markov.js:113-118 | any other accepted string is ingested as the space-free pieces of its trimmed form, which join back to it |
| Selection.PickIndex | src/Workers.js:90 | `Math.floor(u * size)` is an index into the collection |
| Selection.NextRoulette | src/Workers.js:107-120 | the weighted successor pass takes only a key of the count map, and never the word itself |
| Selection.ChooseRandomNextWord | src/Workers.js:79-123 | the result is null exactly when the node has no successors, and otherwise one of its successor keys |
| Selection.NextPickIsFirstQualifying | src/Workers.js:106-120 | when `nw` is the sum of the counts, the pick is the first successor, in insertion order, that differs from the word and whose later counts sum to at most `select`; otherwise it is the key at the uniform index |
| Selection.NextFallbackOnlyForSelfLoop | src/Workers.js:106-122 | when the last successor differs from the word, the pick is never the word itself |
| Selection.ChooseRandomPreviousWord | src/Workers.js:172-199 | the result is null exactly when the node has no predecessors, and otherwise one of its predecessor keys |
| Selection.PrevRoulette | src/Workers.js:188-196 | the predecessor pass likewise takes only a key of the count map other than the word |
| Selection.PrevRouletteAboveSelect | src/Workers.js:188-196 | once the upward accumulator exceeds `select - 1`, the pass never takes an entry |
| Selection.PrevPickIsUniformIndex | src/Workers.js:182-198 | with a positive `pw`, the predecessor pick is always the key at the uniformly drawn index |
| Walker.Round | src/Workers.js:44-64 | a pass forces a boundary word exactly when the current token is non-empty, in the store and the budget has run out; it advances only to a non-empty neighbour, and only while the sentence neither repeats nor trips the cycle guard |
| Walker.WalkTerminates | src/Workers.js:62-64 | a pass that gets past the cycle guard leaves room for another pick within twice the number of tokens in the store |
| Walker.Walk | src/Workers.js:43-74 | the loop terminates without the timeout, with at most twice as many elements as there are tokens in the store, plus one forced element |
| Walker.WalkPrefix | src/Workers.js:50-70 | elements are only appended: the picks made so far remain at the front of the list |
| Walker.WalkRefs | src/Workers.js:73 | the refs returned are the refs of the picked tokens merged in pick order, later ones winning |
| Walker.WalkForced | src/Workers.js:45-53 | a walk that ends on a timeout ends with the forced boundary word and its sentence is that word alone |
| Walker.WalkRendered | src/Workers.js:67 | without a timeout the sentence renders every token listed |
| Walker.WalkHalts | src/Workers.js:44-64 | without a timeout the walk stops only at a pass that halts: empty or unknown token, no choice, repetition or cycle |
| Walker.WalkSteps | src/Workers.js:55-72 | the picks follow the chain's edges from the starting token, and none is empty |
| Walker.WalkPicksInTime | src/Workers.js:45-72 | every pick is listed at its pass and was made before the budget ran out |
| Walker.FindChainEnd | src/Workers.js:34-76 | the forward walk's list is bounded by the store size, and with no seed the result is empty |
| Walker.FindChainStart | src/Workers.js:126-169 | the backward walk's list is bounded by the store size, and with no seed the result is empty |
| Walker.FindChainEndFollowsEdges | src/Workers.js:55-73 | the first pick is a successor of the seed and each later pick a successor of the one before; picks are non-empty and made in time; refs are theirs merged in order |
| Walker.FindChainEndTimeout | src/Workers.js:45-53 | on a timeout the last element is the word forced from `endWords` and the sentence is a space before it |
| Walker.SeedWalkRendered | src/Workers.js:55-73 | a walk from a seed that does not time out returns only tokens, and its sentence renders them |
| Walker.FindChainEndSentence | src/Workers.js:55-73 | without a timeout the sentence is a space before the first words of the listed tokens joined by spaces |
| Walker.FindChainStartFollowsEdges | src/Workers.js:147-168 | read from the end of the returned list, the picks go from a predecessor of the seed to a predecessor of the one before; refs are theirs merged in walk order |
| Walker.FindChainStartTimeout | src/Workers.js:137-145 | on a timeout the word forced from `startWords` heads the returned list and the sentence is that word then a space |
| Walker.FindChainStartSentence | src/Workers.js:159-168 | without a timeout the list is in reading order and the sentence is the last words of its tokens joined by spaces, then a space |
| Overlap.RemoveOverlap | src/Workers.js:201-209 | the result has one token per input token |
| Overlap.RemoveOverlapShape | src/Workers.js:201-209 | the last token is kept whole; every other token becomes its longest space-free prefix |
| Overlap.RemoveOverlapIdempotent | src/Workers.js:201-209 | removing the overlap twice is the same as removing it once |
| Overlap.RemoveOverlapOfWords | src/Workers.js:201-209 | a list of space-free tokens is returned unchanged |
| Generator.FirstInChain | src/Markov.js:141 | a resolved seed is one of the input pieces and a token of the store |
| Generator.FirstInChainIsFirst | src/Markov.js:137-141 | no seed resolves exactly when no piece is in the store; otherwise the seed is the first such piece |
| Generator.ResolveInput | src/Markov.js:136-141 | without an input nothing resolves; with one, nothing resolves exactly when no piece of `input.split(' ')` is a token, and a resolved seed is a piece that is a token |
| Generator.Seed | src/Markov.js:146-149 | the seed is undefined exactly when nothing was resolved and `startWords` is empty; otherwise it is the resolved input or a start word |
| Generator.SeedStable | src/Markov.js:145-149 | once a seed is chosen, later retries keep it whatever they draw |
| Generator.DefaultFilter | src/Markov.js:133 | the default filter: the text splits on spaces into at least two pieces |
| Generator.SpacedSplits | src/Markov.js:159 | three strings joined by two single spaces split into at least three pieces |
| Generator.Assemble | src/Markov.js:159-166 | the text always splits into at least three pieces, so the default filter accepts it; the refs are the union of both walks' refs, the forward walk winning on a shared id |
| Generator.Attempt | src/Markov.js:149-166 | every attempt passes the default filter, whatever the walks return |
| Generator.AttemptText | src/Markov.js:152-159 | from a seed, the text is the trimmed rendering of the backward walk (its tokens' last words joined by spaces, then a space, or the forced start word then a space on a timeout), the seed between single spaces, and the trimmed rendering of the forward walk (a space, then its tokens' first words joined by spaces, or a space and the forced end word on a timeout) |
| Generator.AttemptWithoutSeed | src/Markov.js:149-160 | with no seed both walks are empty: the text is `undefined` between two spaces and there are no refs |
| Generator.Retry | src/Markov.js:145-173 | the only failure reports the retry count, and a returned result passes the filter |
| Generator.GenerateSentence | src/Markov.js:122-173 | a failure reports the retry count in force, a success passes the filter in force, and with no positive retry count the call always fails |
| Generator.RetryOutcome | src/Markov.js:145-173 | the loop fails exactly when every remaining attempt is rejected, all with the same seed; otherwise it returns the first accepted attempt |
| Generator.GenerateOutcome | src/Markov.js:122-173 | the same for `generateSentence`, with a bare string as the input, 20 retries and the two-piece filter as defaults |
| Generator.DefaultFilterFirstAttempt | src/Markov.js:130-171 | with the default filter and at least one retry, the first attempt is returned |
| Tokenizer.ValidateInput | src/Tokenizer.js:14-25 | a value passes exactly when it is a string other than `''` and `' '`; non-strings and those two strings fail with their own errors |
| Tokenizer.ValidateBlankStrings | src/Tokenizer.js:19-24 | a two-space string passes, `''` and `' '` fail, and `undefined` fails as a non-string |
| Tokenizer.Tokenize | src/Tokenizer.js:27-36 | the result is undefined exactly when validation fails, in which case no matcher is applied; with `all` false, a `match` that finds nothing returns `null` and the spread throws a TypeError; otherwise the result is the chosen matcher's result on the string |
| Tokenizer.GroupToken | src/Tokenizer.js:66-70 | one token's groups throw exactly when one of them holds a truthy value under an inherited name; otherwise the object comes to hold the values of the tokens up to and including this one |
| Tokenizer.GroupTokens | src/Tokenizer.js:63-73 | the fold throws exactly when some truthy value is captured under an inherited `Object.prototype` name; otherwise a name is a key iff some group has a truthy value under it, and its list holds those values in token order |
| Tokenizer.ValuesCountCapturing | src/Tokenizer.js:64-72 | with distinct names per token, a name's list has one value per token that captured a truthy value under it |
| Tokenizer.GroupNoTokens | src/Tokenizer.js:63-73 | no tokens give the empty object |

## Left out

- Worker threads, `postMessage`, `Promise.all` and the message switch
  (src/Markov.js:153-158 and 176-206, src/Workers.js:211-223). The two walks
  are plain sequential calls on the same immutable store.
- `Date.now()` is a parameter. The ingestion stamp is the `id`/`clock`
  argument. Stamps from the same millisecond collide, and the later ref
  then overwrites the earlier one, as in the source; the stamps are not
  assumed distinct. The six-second walk budget is one boolean per pass.
- `Math.random()` is a parameter. Its distribution is not modelled: no
  statement about probabilities is made.
- The regular expression tokenizer: `FULL_REGEX`, the matching done by
  `tokenize`/`tokenizeAll`, and `tokenizeGroups` (src/Tokenizer.js:1-12 and
  38-61). `Tokenizer.Tokenize` takes the matchers as parameters; `match`
  returning `null` is modelled as `None`.
- The unfinished `_generateStentnce` (src/Workers.js:13-32), which calls
  helpers that do not exist in that file.
- `example` (src/Markov.js:209-218), which calls `buildChain()` without
  arguments.
- Window sizes above 1, which the source disables.
- Logging through `console`.
- `addString` on a value whose `split` property is user-defined. Every
  non-string, non-array value is treated as lacking `split`. The
  `Array.isArray(words)` test after splitting can never fail and is not
  modelled.
- `generateSentence` with an `input` that is not a string (src/Markov.js:138
  throws when it has no `split`) or with `options === null` (the
  destructuring at line 130 throws). `Request` only holds a string or an
  option bag whose `input` is a string.
- `buildChain` called directly with elements that are not strings. The
  model takes a sequence of strings, which is all `addString` ever passes.
- `retries` values that are not integers (`null`, `NaN`, fractions), and
  filters that throw. An absent `retries` or `filter` takes the default.
- `groupTokens` on a token whose `groups` is `undefined` (`Object.entries`
  would throw), and the key order of the resulting object, which is a map
  here.
- Tokenizer.ValuesCountCapturing: assumes the names within one token are
  distinct, as they are for the entries of an object; the token datatype
  itself allows repeats.
- JavaScript number limits. Counts are unbounded naturals and numbers are
  reals, so there is no `NaN` and no loss of precision past 2^53.
- The result field `string`, which always equals `text`, is kept once.
- The conditional trims in the assembly (`s ? s.trim() : ''`) equal a plain
  trim. They are modelled as written.
