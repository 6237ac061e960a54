/** hstore/hstore_op.c: what the merge loops produce, on sequences of pairs, and the maps it
    stands for. */
module HStoreMerge {
  import opened Wrappers
  import opened Bytes
  import opened HStoreFormat
  import opened HStoreMap

  /** A position between two sorted sequences: how the pairs there compare. */
  function Difference(ps: seq<Pair>, i: nat, qs: seq<Pair>, j: nat): int
    requires i < |ps| && j < |qs|
  {
    KeyCompare(ps[i].key, qs[j].key)
  }

  /** What lies ahead has keys above the pair at the position. */
  lemma Ahead(ps: seq<Pair>, i: nat, k: Bytes)
    requires SortedPairs(ps) && i <= |ps| && (i < |ps| ==> KeyLess(k, ps[i].key))
    ensures k !in AsMap(ps[i..]) && AllAbove(k, ps[i..])
  {
    SortedSuffix(ps, i);
    forall p | p in ps[i..]
      ensures KeyLess(k, p.key)
    {
      var n :| 0 <= n < |ps[i..]| && ps[i..][n] == p;
      assert p == ps[i + n];
      if n > 0 {
        KeyLessTransitive(k, ps[i].key, p.key);
      }
    }
    NotAbove(k, ps[i..]);
  }

  lemma AheadOfItself(ps: seq<Pair>, i: nat)
    requires SortedPairs(ps) && i < |ps|
    ensures ps[i].key !in AsMap(ps[i + 1..]) && AllAbove(ps[i].key, ps[i + 1..])
    ensures AsMap(ps[i..]) == AsMap(ps[i + 1..])[ps[i].key := ps[i].val]
  {
    SortedSuffix(ps, i);
    NotAbove(ps[i].key, ps[i + 1..]);
    AsMapSuffix(ps, i);
  }

  /** All keys of a map come after k. */
  ghost predicate KeysAbove(k: Bytes, m: map<Bytes, Option<Bytes>>) {
    forall key :: key in m ==> KeyLess(k, key)
  }

  lemma AboveIsAbove(k: Bytes, ps: seq<Pair>)
    ensures AllAbove(k, ps) <==> KeysAbove(k, AsMap(ps))
  {
    forall key | key in AsMap(ps)
      ensures AllAbove(k, ps) ==> KeyLess(k, key)
    {
      KeysOfMap(ps, key);
    }
    forall p | p in ps
      ensures KeysAbove(k, AsMap(ps)) ==> KeyLess(k, p.key)
    {
      KeysOfMap(ps, p.key);
    }
  }

  /** Put a pair before sorted pairs whose map has keys above it. */
  lemma ConsSorted(x: Pair, rest: seq<Pair>)
    requires SortedPairs(rest) && KeysAbove(x.key, AsMap(rest))
    ensures SortedPairs([x] + rest) && AsMap([x] + rest) == AsMap(rest)[x.key := x.val]
  {
    AboveIsAbove(x.key, rest);
    SortedCons(x, rest);
    AsMapCons(x, rest);
  }

  // ----- Union -----

  /** The merge of hstore_concat from positions i and j on: of equal keys the second wins. */
  function Concat(p1: seq<Pair>, i: nat, p2: seq<Pair>, j: nat): seq<Pair>
    requires i <= |p1| && j <= |p2|
    decreases |p1| - i + |p2| - j
  {
    if i == |p1| && j == |p2| then []
    else if i < |p1| && (j == |p2| || Difference(p1, i, p2, j) < 0) then [p1[i]] + Concat(p1, i + 1, p2, j)
    else if i < |p1| && Difference(p1, i, p2, j) == 0 then [p2[j]] + Concat(p1, i + 1, p2, j + 1)
    else [p2[j]] + Concat(p1, i, p2, j + 1)
  }

  type PairMap = map<Bytes, Option<Bytes>>

  lemma TakeFirst(x: Pair, rest: seq<Pair>, a: PairMap, a': PairMap, b: PairMap)
    requires SortedPairs(rest) && AsMap(rest) == a' + b && a == a'[x.key := x.val]
    requires x.key !in b && KeysAbove(x.key, a') && KeysAbove(x.key, b)
    ensures SortedPairs([x] + rest) && AsMap([x] + rest) == a + b
  {
    ConsSorted(x, rest);
  }

  /** The first map may or may not have had a value for the key. */
  lemma TakeSecond(x: Pair, rest: seq<Pair>, a: PairMap, a': PairMap, v: Option<Bytes>, b: PairMap, b': PairMap)
    requires SortedPairs(rest) && AsMap(rest) == a' + b' && b == b'[x.key := x.val]
    requires a == a' || a == a'[x.key := v]
    requires KeysAbove(x.key, a') && KeysAbove(x.key, b')
    ensures SortedPairs([x] + rest) && AsMap([x] + rest) == a + b
  {
    ConsSorted(x, rest);
  }

  /** It is sorted, and its map is the right-biased union. */
  lemma {:induction false} ConcatIsUnion(p1: seq<Pair>, i: nat, p2: seq<Pair>, j: nat)
    requires SortedPairs(p1) && SortedPairs(p2) && i <= |p1| && j <= |p2|
    ensures SortedPairs(Concat(p1, i, p2, j))
    ensures AsMap(Concat(p1, i, p2, j)) == AsMap(p1[i..]) + AsMap(p2[j..])
    decreases |p1| - i + |p2| - j
  {
    if i == |p1| && j == |p2| {
    } else if i < |p1| && (j == |p2| || Difference(p1, i, p2, j) < 0) {
      ConcatIsUnion(p1, i + 1, p2, j);
      ConcatFirst(p1, i, p2, j, Concat(p1, i + 1, p2, j));
      assert Concat(p1, i, p2, j) == [p1[i]] + Concat(p1, i + 1, p2, j);
    } else if i < |p1| && Difference(p1, i, p2, j) == 0 {
      ConcatIsUnion(p1, i + 1, p2, j + 1);
      ConcatBoth(p1, i, p2, j, Concat(p1, i + 1, p2, j + 1));
      assert Concat(p1, i, p2, j) == [p2[j]] + Concat(p1, i + 1, p2, j + 1);
    } else {
      ConcatIsUnion(p1, i, p2, j + 1);
      ConcatSecond(p1, i, p2, j, Concat(p1, i, p2, j + 1));
      assert Concat(p1, i, p2, j) == [p2[j]] + Concat(p1, i, p2, j + 1);
    }
  }

  lemma ConcatFirst(p1: seq<Pair>, i: nat, p2: seq<Pair>, j: nat, rest: seq<Pair>)
    requires SortedPairs(p1) && SortedPairs(p2) && i < |p1| && j <= |p2| && (j == |p2| || Difference(p1, i, p2, j) < 0)
    requires SortedPairs(rest) && AsMap(rest) == AsMap(p1[i + 1..]) + AsMap(p2[j..])
    ensures SortedPairs([p1[i]] + rest) && AsMap([p1[i]] + rest) == AsMap(p1[i..]) + AsMap(p2[j..])
  {
    var k := p1[i].key;
    AheadOfItself(p1, i);
    Ahead(p2, j, k);
    AboveIsAbove(k, p1[i + 1..]);
    AboveIsAbove(k, p2[j..]);
    TakeFirst(p1[i], rest, AsMap(p1[i..]), AsMap(p1[i + 1..]), AsMap(p2[j..]));
  }

  lemma ConcatBoth(p1: seq<Pair>, i: nat, p2: seq<Pair>, j: nat, rest: seq<Pair>)
    requires SortedPairs(p1) && SortedPairs(p2) && i < |p1| && j < |p2| && Difference(p1, i, p2, j) == 0
    requires SortedPairs(rest) && AsMap(rest) == AsMap(p1[i + 1..]) + AsMap(p2[j + 1..])
    ensures SortedPairs([p2[j]] + rest) && AsMap([p2[j]] + rest) == AsMap(p1[i..]) + AsMap(p2[j..])
  {
    var k := p2[j].key;
    KeyCompareSwap(p1[i].key, k);
    AheadOfItself(p1, i);
    AheadOfItself(p2, j);
    AboveIsAbove(k, p1[i + 1..]);
    AboveIsAbove(k, p2[j + 1..]);
    TakeSecond(p2[j], rest, AsMap(p1[i..]), AsMap(p1[i + 1..]), p1[i].val, AsMap(p2[j..]), AsMap(p2[j + 1..]));
  }

  lemma ConcatSecond(p1: seq<Pair>, i: nat, p2: seq<Pair>, j: nat, rest: seq<Pair>)
    requires SortedPairs(p1) && SortedPairs(p2) && i <= |p1| && j < |p2| && (i == |p1| || Difference(p1, i, p2, j) > 0)
    requires SortedPairs(rest) && AsMap(rest) == AsMap(p1[i..]) + AsMap(p2[j + 1..])
    ensures SortedPairs([p2[j]] + rest) && AsMap([p2[j]] + rest) == AsMap(p1[i..]) + AsMap(p2[j..])
  {
    var k := p2[j].key;
    if i < |p1| {
      KeyCompareSwap(k, p1[i].key);
    }
    AheadOfItself(p2, j);
    Ahead(p1, i, k);
    AboveIsAbove(k, p1[i..]);
    AboveIsAbove(k, p2[j + 1..]);
    TakeSecond(p2[j], rest, AsMap(p1[i..]), AsMap(p1[i..]), None, AsMap(p2[j..]), AsMap(p2[j + 1..]));
  }

  // ----- Removal -----

  /** The merge of hstore_delete_array and hstore_delete_hstore from positions i and j on: drop a
      pair whose key is among the second pairs, the latter only if the values agree too. */
  function Remove(ps: seq<Pair>, i: nat, qs: seq<Pair>, j: nat, valuesToo: bool): seq<Pair>
    requires i <= |ps| && j <= |qs|
    decreases |ps| - i + |qs| - j
  {
    if i == |ps| then []
    else if j == |qs| || Difference(ps, i, qs, j) < 0 then [ps[i]] + Remove(ps, i + 1, qs, j, valuesToo)
    else if Difference(ps, i, qs, j) > 0 then Remove(ps, i, qs, j + 1, valuesToo)
    else if valuesToo && ps[i].val != qs[j].val then [ps[i]] + Remove(ps, i + 1, qs, j + 1, valuesToo)
    else Remove(ps, i + 1, qs, j + 1, valuesToo)
  }

  function Without(a: PairMap, b: PairMap, valuesToo: bool): PairMap {
    map k | k in a && !(k in b && (valuesToo ==> a[k] == b[k])) :: a[k]
  }

  /** A pair stays whose key the second map lacks, or has with another value. */
  lemma Keep(x: Pair, rest: seq<Pair>, a: PairMap, a': PairMap, b: PairMap, b': PairMap, w: Option<Bytes>, valuesToo: bool)
    requires SortedPairs(rest) && AsMap(rest) == Without(a', b', valuesToo) && a == a'[x.key := x.val]
    requires (b == b' && x.key !in b) || (b == b'[x.key := w] && valuesToo && x.val != w)
    requires KeysAbove(x.key, a') && x.key !in a'
    ensures SortedPairs([x] + rest) && AsMap([x] + rest) == Without(a, b, valuesToo)
  {
    ConsSorted(x, rest);
  }

  lemma Skip(k: Bytes, w: Option<Bytes>, a: PairMap, b: PairMap, b': PairMap, valuesToo: bool)
    requires k !in a && b == b'[k := w]
    ensures Without(a, b, valuesToo) == Without(a, b', valuesToo)
  {
  }

  lemma Drop(k: Bytes, v: Option<Bytes>, w: Option<Bytes>, a: PairMap, a': PairMap, b: PairMap, b': PairMap, valuesToo: bool)
    requires k !in a' && a == a'[k := v] && b == b'[k := w] && (valuesToo ==> v == w)
    ensures Without(a, b, valuesToo) == Without(a', b', valuesToo)
  {
  }

  lemma RemoveKeeps(ps: seq<Pair>, i: nat, qs: seq<Pair>, j: nat, valuesToo: bool, rest: seq<Pair>)
    requires SortedPairs(ps) && SortedPairs(qs) && i < |ps| && j <= |qs| && (j == |qs| || Difference(ps, i, qs, j) < 0)
    requires SortedPairs(rest) && AsMap(rest) == Without(AsMap(ps[i + 1..]), AsMap(qs[j..]), valuesToo)
    ensures SortedPairs([ps[i]] + rest)
    ensures AsMap([ps[i]] + rest) == Without(AsMap(ps[i..]), AsMap(qs[j..]), valuesToo)
  {
    AheadOfItself(ps, i);
    AboveIsAbove(ps[i].key, ps[i + 1..]);
    Ahead(qs, j, ps[i].key);
    Keep(ps[i], rest, AsMap(ps[i..]), AsMap(ps[i + 1..]), AsMap(qs[j..]), AsMap(qs[j..]), None, valuesToo);
  }

  lemma RemoveDiffers(ps: seq<Pair>, i: nat, qs: seq<Pair>, j: nat, rest: seq<Pair>)
    requires SortedPairs(ps) && SortedPairs(qs) && i < |ps| && j < |qs|
    requires Difference(ps, i, qs, j) == 0 && ps[i].val != qs[j].val
    requires SortedPairs(rest) && AsMap(rest) == Without(AsMap(ps[i + 1..]), AsMap(qs[j + 1..]), true)
    ensures SortedPairs([ps[i]] + rest)
    ensures AsMap([ps[i]] + rest) == Without(AsMap(ps[i..]), AsMap(qs[j..]), true)
  {
    KeyCompareSwap(ps[i].key, qs[j].key);
    AheadOfItself(ps, i);
    AheadOfItself(qs, j);
    AboveIsAbove(ps[i].key, ps[i + 1..]);
    Keep(ps[i], rest, AsMap(ps[i..]), AsMap(ps[i + 1..]), AsMap(qs[j..]), AsMap(qs[j + 1..]), qs[j].val, true);
  }

  lemma RemoveSkips(ps: seq<Pair>, i: nat, qs: seq<Pair>, j: nat, valuesToo: bool)
    requires SortedPairs(ps) && SortedPairs(qs) && i < |ps| && j < |qs| && Difference(ps, i, qs, j) > 0
    ensures Without(AsMap(ps[i..]), AsMap(qs[j..]), valuesToo) == Without(AsMap(ps[i..]), AsMap(qs[j + 1..]), valuesToo)
  {
    KeyCompareSwap(qs[j].key, ps[i].key);
    Ahead(ps, i, qs[j].key);
    AheadOfItself(qs, j);
    Skip(qs[j].key, qs[j].val, AsMap(ps[i..]), AsMap(qs[j..]), AsMap(qs[j + 1..]), valuesToo);
  }

  lemma RemoveDrops(ps: seq<Pair>, i: nat, qs: seq<Pair>, j: nat, valuesToo: bool)
    requires SortedPairs(ps) && SortedPairs(qs) && i < |ps| && j < |qs| && Difference(ps, i, qs, j) == 0
    requires valuesToo ==> ps[i].val == qs[j].val
    ensures Without(AsMap(ps[i..]), AsMap(qs[j..]), valuesToo) == Without(AsMap(ps[i + 1..]), AsMap(qs[j + 1..]), valuesToo)
  {
    KeyCompareSwap(ps[i].key, qs[j].key);
    AheadOfItself(ps, i);
    AheadOfItself(qs, j);
    Drop(ps[i].key, ps[i].val, qs[j].val, AsMap(ps[i..]), AsMap(ps[i + 1..]), AsMap(qs[j..]), AsMap(qs[j + 1..]), valuesToo);
  }

  /** It is sorted, and its map is what remains. */
  lemma {:induction false} RemoveIsWithout(ps: seq<Pair>, i: nat, qs: seq<Pair>, j: nat, valuesToo: bool)
    requires SortedPairs(ps) && SortedPairs(qs) && i <= |ps| && j <= |qs|
    ensures SortedPairs(Remove(ps, i, qs, j, valuesToo))
    ensures AsMap(Remove(ps, i, qs, j, valuesToo)) == Without(AsMap(ps[i..]), AsMap(qs[j..]), valuesToo)
    decreases |ps| - i + |qs| - j
  {
    if i < |ps| {
      if j == |qs| || Difference(ps, i, qs, j) < 0 {
        RemoveIsWithout(ps, i + 1, qs, j, valuesToo);
        RemoveKeeps(ps, i, qs, j, valuesToo, Remove(ps, i + 1, qs, j, valuesToo));
      } else if Difference(ps, i, qs, j) > 0 {
        RemoveIsWithout(ps, i, qs, j + 1, valuesToo);
        RemoveSkips(ps, i, qs, j, valuesToo);
      } else {
        RemoveIsWithout(ps, i + 1, qs, j + 1, valuesToo);
        if valuesToo && ps[i].val != qs[j].val {
          RemoveDiffers(ps, i, qs, j, Remove(ps, i + 1, qs, j + 1, valuesToo));
        } else {
          RemoveDrops(ps, i, qs, j, valuesToo);
        }
      }
    }
  }
}
