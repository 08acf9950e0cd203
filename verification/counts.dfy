/** The `nextWords`/`previousWords` maps of a chain node: a JavaScript `Map`
    from token to a positive count. Selection walks such a map in insertion
    order, so it is modelled as a sequence of entries with distinct keys, a
    new key going to the end and an existing key keeping its place. */
module Counts {

  type Pos = n: int | n >= 1 witness 1

  datatype Entry = Entry(key: string, count: Pos)

  type Counts = seq<Entry>

  /** `Array.from(m.keys())`. */
  function Keys(m: Counts): (r: seq<string>)
    ensures |r| == |m|
    ensures forall i :: 0 <= i < |m| ==> r[i] == m[i].key
  {
    if |m| == 0 then [] else [m[0].key] + Keys(m[1..])
  }

  predicate Distinct(m: Counts) {
    forall i, j :: 0 <= i < j < |m| ==> m[i].key != m[j].key
  }

  /** `m.get(k) || 0`. */
  function Get(m: Counts, k: string): (r: nat)
    ensures r > 0 <==> k in Keys(m)
  {
    if |m| == 0 then 0
    else if m[0].key == k then m[0].count
    else Get(m[1..], k)
  }

  /** The sum of the counts. */
  function Sum(m: Counts): (r: nat)
    ensures r >= |m|
  {
    if |m| == 0 then 0 else m[0].count + Sum(m[1..])
  }

  /** `m.set(k, (m.get(k) || 0) + 1)`: one more occurrence of `k`; a new key
      is appended with count 1, an existing key keeps its position. The
      lemmas below state its effect on lookups, keys and distinctness. */
  function Inc(m: Counts, k: string): (r: Counts)
    ensures Sum(r) == Sum(m) + 1
  {
    if |m| == 0 then [Entry(k, 1)]
    else if m[0].key == k then [Entry(k, m[0].count + 1)] + m[1..]
    else
      var rest := Inc(m[1..], k);
      assert ([m[0]] + rest)[1..] == rest;
      [m[0]] + rest
  }

  /** After `Inc(m, k)` the count of `k` is one higher and every other
      count is unchanged. */
  lemma {:induction false} IncGet(m: Counts, k: string)
    ensures forall x :: Get(Inc(m, k), x) == Get(m, x) + (if x == k then 1 else 0)
  {
    var r := Inc(m, k);
    if |m| == 0 {
      assert r[1..] == [];
    } else if m[0].key == k {
      assert r[1..] == m[1..];
    } else {
      IncGet(m[1..], k);
      assert r[1..] == Inc(m[1..], k);
    }
  }

  /** `Inc` keeps the key order and appends a new key at the end. */
  lemma {:induction false} IncKeys(m: Counts, k: string)
    ensures Keys(Inc(m, k)) == if k in Keys(m) then Keys(m) else Keys(m) + [k]
    ensures k !in Keys(m) ==> Inc(m, k) == m + [Entry(k, 1)]
  {
    if |m| > 0 && m[0].key != k {
      var rest := Inc(m[1..], k);
      IncKeys(m[1..], k);
      assert Keys(m) == [m[0].key] + Keys(m[1..]);
      assert Keys([m[0]] + rest) == [m[0].key] + Keys(rest);
      assert k !in Keys(m) ==> m + [Entry(k, 1)] == [m[0]] + (m[1..] + [Entry(k, 1)]);
    } else if |m| > 0 {
      assert Keys(m)[0] == k;
    }
  }

  /** `Inc` keeps keys distinct. */
  lemma IncDistinct(m: Counts, k: string)
    requires Distinct(m)
    ensures Distinct(Inc(m, k))
  {
    IncKeys(m, k);
    var r := Inc(m, k);
    var ks := Keys(r);
    forall i, j | 0 <= i < j < |r|
      ensures r[i].key != r[j].key
    {
      assert ks[i] == r[i].key && ks[j] == r[j].key;
      if k !in Keys(m) && j == |m| {
        assert ks[i] == Keys(m)[i] == m[i].key;
      } else {
        assert ks[i] == m[i].key && ks[j] == m[j].key;
      }
    }
  }

  /** A map whose every count is 1 sums to its size. */
  lemma {:induction false} SumOfOnes(m: Counts)
    requires forall i :: 0 <= i < |m| ==> m[i].count == 1
    ensures Sum(m) == |m|
  {
    if |m| > 0 {
      SumOfOnes(m[1..]);
    }
  }
}
