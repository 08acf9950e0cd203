/** `_removeOverlap` in src/Workers.js: every token but the last is cut
    down to its first space-separated word. */
module Overlap {
  import opened Js

  function RemoveOverlap(tokens: seq<string>): (r: seq<string>)
    ensures |r| == |tokens|
  {
    seq(|tokens|, i requires 0 <= i < |tokens| =>
      if i == |tokens| - 1 then tokens[i] else FirstWord(tokens[i]))
  }

  /** The last token is kept whole; every other token becomes its longest
      prefix without a space: a prefix of the token that is either all of it
      or followed by a space in it. */
  lemma RemoveOverlapShape(tokens: seq<string>)
    ensures var r := RemoveOverlap(tokens);
      && (|tokens| > 0 ==> r[|tokens| - 1] == tokens[|tokens| - 1])
      && forall i :: 0 <= i < |tokens| - 1 ==>
           && ' ' !in r[i]
           && |r[i]| <= |tokens[i]| && tokens[i][..|r[i]|] == r[i]
           && (|r[i]| == |tokens[i]| || tokens[i][|r[i]|] == ' ')
  {
    var r := RemoveOverlap(tokens);
    forall i | 0 <= i < |tokens| - 1
      ensures && ' ' !in r[i]
              && |r[i]| <= |tokens[i]| && tokens[i][..|r[i]|] == r[i]
              && (|r[i]| == |tokens[i]| || tokens[i][|r[i]|] == ' ')
    {
      FirstWordIsPrefix(tokens[i]);
    }
  }

  /** Removing the overlap twice is removing it once. */
  lemma RemoveOverlapIdempotent(tokens: seq<string>)
    ensures RemoveOverlap(RemoveOverlap(tokens)) == RemoveOverlap(tokens)
  {
    var r := RemoveOverlap(tokens);
    forall i | 0 <= i < |tokens| - 1
      ensures FirstWord(r[i]) == r[i]
    {
      FirstWordIdempotent(tokens[i]);
    }
  }

  /** Tokens without spaces have no overlap to remove. */
  lemma RemoveOverlapOfWords(tokens: seq<string>)
    requires forall i :: 0 <= i < |tokens| ==> ' ' !in tokens[i]
    ensures RemoveOverlap(tokens) == tokens
  {
    forall i | 0 <= i < |tokens| - 1
      ensures FirstWord(tokens[i]) == tokens[i]
    {
      WordOfSpaceFree(tokens[i]);
    }
  }
}
