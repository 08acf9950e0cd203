/** The slice of JavaScript value and string semantics the chain code relies
    on: truthiness, `typeof`, `String.prototype.trim`, `split(' ')`,
    `join(' ')`, `indexOf`, template-literal display of `undefined`, and the
    names a bracket lookup finds on built-in prototypes. */
module Js {
  import opened Wrappers

  /** A JavaScript value, as far as the model needs to tell values apart. */
  datatype JsValue =
    | Undefined
    | Null
    | Boolean(b: bool)
    | Number(x: real)
    | Str(s: string)
    | Array(elems: seq<JsValue>)
    | Object(fields: map<string, JsValue>)

  /** `if (v)`: the falsy values are undefined, null, false, 0 and ''. */
  predicate Truthy(v: JsValue) {
    match v
    case Undefined => false
    case Null => false
    case Boolean(b) => b
    case Number(x) => x != 0.0
    case Str(s) => s != ""
    case Array(_) => true
    case Object(_) => true
  }

  /** `${x}` for a value that is either a string or undefined. */
  function Show(x: Option<string>): string {
    match x
    case Some(s) => s
    case None => "undefined"
  }

  /** Property names every plain object inherits from `Object.prototype`;
      a bracket lookup with one of them yields a function or an object. */
  const ObjectPrototypeNames: set<string> :=
    {"constructor", "hasOwnProperty", "isPrototypeOf", "propertyIsEnumerable",
     "toLocaleString", "toString", "valueOf", "__proto__",
     "__defineGetter__", "__defineSetter__", "__lookupGetter__", "__lookupSetter__"}

  /** Method names on `Map.prototype` (the `size` accessor is treated apart,
      because its value is the entry count). */
  const MapMethodNames: set<string> :=
    {"clear", "delete", "entries", "forEach", "get", "has", "keys", "set", "values"}

  // ---------------------------------------------------------------------------
  // Whitespace and trim

  /** The WhiteSpace and LineTerminator code points `trim` removes. */
  predicate IsWhitespace(ch: char) {
    var n := ch as int;
    n == 0x09 || n == 0x0A || n == 0x0B || n == 0x0C || n == 0x0D || n == 0x20
    || n == 0xA0 || n == 0x1680 || (0x2000 <= n <= 0x200A)
    || n == 0x2028 || n == 0x2029 || n == 0x202F || n == 0x205F
    || n == 0x3000 || n == 0xFEFF
  }

  function TrimStart(s: string): (r: string)
    ensures |r| <= |s| && r == s[|s| - |r|..]
    ensures forall k :: 0 <= k < |s| - |r| ==> IsWhitespace(s[k])
    ensures r == [] || !IsWhitespace(r[0])
  {
    if |s| == 0 || !IsWhitespace(s[0]) then s else TrimStart(s[1..])
  }

  function TrimEnd(s: string): (r: string)
    ensures |r| <= |s| && r == s[..|r|]
    ensures forall k :: |r| <= k < |s| ==> IsWhitespace(s[k])
    ensures r == [] || !IsWhitespace(r[|r| - 1])
  {
    if |s| == 0 || !IsWhitespace(s[|s| - 1]) then s else TrimEnd(s[..|s| - 1])
  }

  /** `r` is the infix of `s` at offset `i`, with only whitespace around it. */
  ghost predicate TrimmedAt(s: string, r: string, i: int) {
    && 0 <= i && i + |r| <= |s| && r == s[i..i + |r|]
    && (forall k :: 0 <= k < i ==> IsWhitespace(s[k]))
    && (forall k :: i + |r| <= k < |s| ==> IsWhitespace(s[k]))
  }

  /** `s.trim()`: whitespace removed from both ends. */
  function Trim(s: string): (r: string)
    ensures r == [] || (!IsWhitespace(r[0]) && !IsWhitespace(r[|r| - 1]))
  {
    TrimEnd(TrimStart(s))
  }

  /** `trim` returns an infix of its argument with only whitespace cut off
      on either side. */
  lemma TrimIsInfix(s: string)
    ensures exists i :: TrimmedAt(s, Trim(s), i)
  {
    var t := TrimStart(s);
    var r := TrimEnd(t);
    var i := |s| - |t|;
    assert forall k :: i + |r| <= k < |s| ==> s[k] == t[k - i];
    assert r == Trim(s);
    assert TrimmedAt(s, Trim(s), i);
  }

  // ---------------------------------------------------------------------------
  // split(' ') and join(' ')

  function SpaceCount(s: string): nat {
    if |s| == 0 then 0 else (if s[0] == ' ' then 1 else 0) + SpaceCount(s[1..])
  }

  /** Spaces in a concatenation are the spaces of its parts. */
  lemma {:induction false} SpaceCountAppend(a: string, b: string)
    ensures SpaceCount(a + b) == SpaceCount(a) + SpaceCount(b)
    decreases |a|
  {
    if |a| > 0 {
      assert (a + b)[0] == a[0] && (a + b)[1..] == a[1..] + b;
      SpaceCountAppend(a[1..], b);
    } else {
      assert a + b == b;
    }
  }

  /** `s.split(' ')`: the pieces between single spaces, so `n` spaces give
      `n + 1` pieces (empty ones included) and no piece holds a space. */
  function Split(s: string): (r: seq<string>)
    ensures |r| == SpaceCount(s) + 1
    ensures forall i :: 0 <= i < |r| ==> ' ' !in r[i]
    decreases |s|
  {
    if |s| == 0 then [""]
    else if s[0] == ' ' then [""] + Split(s[1..])
    else
      var rest := Split(s[1..]);
      [[s[0]] + rest[0]] + rest[1..]
  }

  /** `parts.join(' ')`. */
  function Join(parts: seq<string>): string {
    if |parts| == 0 then ""
    else if |parts| == 1 then parts[0]
    else parts[0] + " " + Join(parts[1..])
  }

  /** Splitting on spaces and joining with spaces gives the string back. */
  lemma {:induction false} JoinSplit(s: string)
    ensures Join(Split(s)) == s
    decreases |s|
  {
    if |s| == 0 {
    } else if s[0] == ' ' {
      JoinSplit(s[1..]);
      assert Split(s) == [""] + Split(s[1..]);
      assert (Split(s))[1..] == Split(s[1..]);
      assert s == " " + s[1..];
    } else {
      var rest := Split(s[1..]);
      JoinSplit(s[1..]);
      var parts := [[s[0]] + rest[0]] + rest[1..];
      assert Split(s) == parts;
      if |rest| == 1 {
        assert Join(parts) == [s[0]] + rest[0];
      } else {
        assert parts[1..] == rest[1..];
        assert Join(rest) == rest[0] + " " + Join(rest[1..]);
        assert Join(parts) == ([s[0]] + rest[0]) + " " + Join(rest[1..]);
      }
      assert s == [s[0]] + s[1..];
    }
  }

  lemma {:induction false} SplitNoSpace(a: string)
    requires ' ' !in a
    ensures Split(a) == [a]
    decreases |a|
  {
    if |a| > 0 {
      assert a[0] in a;
      assert forall c :: c in a[1..] ==> c in a;
      SplitNoSpace(a[1..]);
      assert a == [a[0]] + a[1..];
    }
  }

  lemma {:induction false} SplitAfterWord(a: string, b: string)
    requires ' ' !in a
    ensures Split(a + " " + b) == [a] + Split(b)
    decreases |a|
  {
    var s := a + " " + b;
    if |a| == 0 {
      assert s == " " + b;
      assert s[1..] == b;
    } else {
      assert a[0] in a;
      assert forall c :: c in a[1..] ==> c in a;
      SplitAfterWord(a[1..], b);
      assert s[1..] == a[1..] + " " + b;
      assert a == [a[0]] + a[1..];
    }
  }

  /** Joining space-free pieces with spaces and splitting again gives the
      pieces back. */
  lemma {:induction false} SplitJoin(parts: seq<string>)
    requires |parts| >= 1
    requires forall i :: 0 <= i < |parts| ==> ' ' !in parts[i]
    ensures Split(Join(parts)) == parts
    decreases |parts|
  {
    if |parts| == 1 {
      SplitNoSpace(parts[0]);
    } else {
      SplitJoin(parts[1..]);
      SplitAfterWord(parts[0], Join(parts[1..]));
      assert parts == [parts[0]] + parts[1..];
    }
  }

  /** `t.split(' ')[0]` (also `shift()` of the split). */
  function FirstWord(t: string): (r: string)
    ensures ' ' !in r
  {
    Split(t)[0]
  }

  /** `t.split(' ').pop()`. */
  function LastWord(t: string): (r: string)
    ensures ' ' !in r
  {
    var parts := Split(t);
    parts[|parts| - 1]
  }

  /** A token without spaces is its own first and last word. */
  lemma WordOfSpaceFree(t: string)
    requires ' ' !in t
    ensures FirstWord(t) == t && LastWord(t) == t
  {
    SplitNoSpace(t);
  }

  /** A join starts with its first part, followed by a space when more
      parts come. */
  lemma JoinStartsWith(parts: seq<string>)
    requires |parts| > 0
    ensures |parts[0]| <= |Join(parts)| && Join(parts)[..|parts[0]|] == parts[0]
    ensures |parts| > 1 ==> |parts[0]| < |Join(parts)| && Join(parts)[|parts[0]|] == ' '
    ensures |parts| == 1 ==> Join(parts) == parts[0]
  {
    if |parts| > 1 {
      var rest := " " + Join(parts[1..]);
      assert Join(parts) == parts[0] + rest;
      assert (parts[0] + rest)[..|parts[0]|] == parts[0];
      assert (parts[0] + rest)[|parts[0]|] == rest[0];
    }
  }

  /** The first word of `t` is its longest prefix without a space: it is a
      prefix of `t`, and either all of `t` or followed by a space. */
  lemma FirstWordIsPrefix(t: string)
    ensures var f := FirstWord(t);
      |f| <= |t| && t[..|f|] == f && (|f| == |t| || t[|f|] == ' ')
  {
    JoinSplit(t);
    JoinStartsWith(Split(t));
  }

  lemma FirstWordIdempotent(t: string)
    ensures FirstWord(FirstWord(t)) == FirstWord(t)
  {
    WordOfSpaceFree(FirstWord(t));
  }

  // ---------------------------------------------------------------------------
  // indexOf

  /** `position` clamped into `[0, len]`, as `indexOf` does. */
  function ClampPosition(position: int, len: nat): (r: nat)
    ensures r <= len
  {
    if position < 0 then 0 else if position > len then len else position
  }

  predicate OccursAt(hay: string, needle: string, k: nat) {
    k + |needle| <= |hay| && hay[k..k + |needle|] == needle
  }

  function SearchFrom(hay: string, needle: string, k: nat): (r: int)
    requires k <= |hay|
    ensures r == -1 || (k <= r && OccursAt(hay, needle, r))
    ensures forall j :: k <= j && (r == -1 || j < r) ==> !OccursAt(hay, needle, j)
    decreases |hay| - k
  {
    if k + |needle| > |hay| then -1
    else if hay[k..k + |needle|] == needle then k
    else SearchFrom(hay, needle, k + 1)
  }

  /** `hay.indexOf(needle, position)`: the first occurrence at or after the
      clamped position, or -1 when there is none. */
  function IndexOf(hay: string, needle: string, position: int): (r: int)
    ensures r == -1 || (ClampPosition(position, |hay|) <= r && OccursAt(hay, needle, r))
    ensures forall j :: ClampPosition(position, |hay|) <= j && (r == -1 || j < r)
                        ==> !OccursAt(hay, needle, j)
  {
    SearchFrom(hay, needle, ClampPosition(position, |hay|))
  }

  /** The walkers' repetition test `(s + s).indexOf(s, 1) != s.length`. */
  predicate Repeats(s: string) {
    IndexOf(s + s, s, 1) != |s|
  }

  /** The repetition test holds exactly when `s` reappears inside `s + s`
      strictly between the two copies, that is, when `s` is a rotation of
      itself by a shift `0 < p < |s|`; the empty sentence never repeats. */
  lemma RepeatsIffProperRotation(s: string)
    ensures Repeats(s) <==> exists p :: 0 < p < |s| && OccursAt(s + s, s, p)
    ensures !Repeats("")
  {
    var h := s + s;
    assert h[|s|..|s| + |s|] == s;
    assert OccursAt(h, s, |s|);
    if |s| == 0 {
      assert IndexOf(h, s, 1) == 0;
    } else {
      var r := IndexOf(h, s, 1);
      assert 1 <= r <= |s|;
    }
    assert IndexOf("" + "", "", 1) == 0;
  }
}
