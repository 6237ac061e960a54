/** hstore: the order of keys, and the finite map a sorted sequence of pairs stands for. */
module HStoreMap {
  import opened Wrappers
  import opened Bytes
  import opened HStoreFormat

  /** Shorter keys first, then byte by byte. */
  function KeyCompare(a: Bytes, b: Bytes): int {
    if |a| == |b| then Compare(a, b) else if |a| > |b| then 1 else -1
  }

  predicate KeyLess(a: Bytes, b: Bytes) {
    KeyCompare(a, b) < 0
  }

  /** A shorter key comes first, and of two as long the one that is smaller where they first
      differ. */
  predicate Before(a: Bytes, b: Bytes) {
    |a| < |b| || (|a| == |b| && exists k :: 0 <= k < |a| && a[..k] == b[..k] && a[k] < b[k])
  }

  lemma KeyLessIsBefore(a: Bytes, b: Bytes)
    ensures KeyLess(a, b) <==> Before(a, b)
  {
    CompareIsOrder(a, b);
  }

  /** The keys of any two pairs stand in that order. */
  predicate InOrder(ps: seq<Pair>) {
    forall i, j :: 0 <= i < j < |ps| ==> Before(ps[i].key, ps[j].key)
  }

  lemma SortedIsInOrder(ps: seq<Pair>)
    ensures SortedPairs(ps) <==> InOrder(ps)
  {
    forall i, j | 0 <= i < j < |ps|
      ensures KeyLess(ps[i].key, ps[j].key) <==> Before(ps[i].key, ps[j].key)
    {
      KeyLessIsBefore(ps[i].key, ps[j].key);
    }
  }

  lemma KeyCompareSwap(a: Bytes, b: Bytes)
    ensures KeyCompare(a, b) < 0 <==> KeyCompare(b, a) > 0
    ensures KeyCompare(a, b) == 0 <==> a == b
  {
    CompareSwap(a, b);
  }

  lemma KeyLessTransitive(a: Bytes, b: Bytes, c: Bytes)
    requires KeyCompare(a, b) <= 0 && KeyCompare(b, c) <= 0
    ensures KeyCompare(a, c) <= 0
    ensures KeyLess(a, b) || KeyLess(b, c) ==> KeyLess(a, c)
  {
    if |a| == |b| == |c| {
      LeTransitive(a, b, c);
    }
  }

  /** Strictly sorted by key. */
  predicate SortedPairs(ps: seq<Pair>) {
    forall i, j :: 0 <= i < j < |ps| ==> KeyLess(ps[i].key, ps[j].key)
  }

  /** The key comes before all keys of the pairs. */
  predicate AllAbove(k: Bytes, ps: seq<Pair>) {
    forall p :: p in ps ==> KeyLess(k, p.key)
  }

  lemma SortedCons(x: Pair, rest: seq<Pair>)
    ensures SortedPairs([x] + rest) <==> SortedPairs(rest) && AllAbove(x.key, rest)
  {
    var ps := [x] + rest;
    if SortedPairs(ps) {
      forall i, j | 0 <= i < j < |rest|
        ensures KeyLess(rest[i].key, rest[j].key)
      {
        assert ps[i + 1] == rest[i] && ps[j + 1] == rest[j];
      }
      forall p | p in rest
        ensures KeyLess(x.key, p.key)
      {
        var j :| 0 <= j < |rest| && rest[j] == p;
        assert ps[0] == x && ps[j + 1] == p;
      }
    }
    if SortedPairs(rest) && AllAbove(x.key, rest) {
      forall i, j | 0 <= i < j < |ps|
        ensures KeyLess(ps[i].key, ps[j].key)
      {
        assert ps[j] == rest[j - 1] && rest[j - 1] in rest;
      }
    }
  }

  lemma SortedSuffix(ps: seq<Pair>, i: nat)
    requires SortedPairs(ps) && i <= |ps|
    ensures SortedPairs(ps[i..])
    ensures i < |ps| ==> AllAbove(ps[i].key, ps[i + 1..])
  {
    if i < |ps| {
      forall p | p in ps[i + 1..]
        ensures KeyLess(ps[i].key, p.key)
      {
        var j :| 0 <= j < |ps[i + 1..]| && ps[i + 1..][j] == p;
        assert ps[i + 1 + j] == p;
      }
    }
  }

  /** The finite map of the pairs. */
  function AsMap(ps: seq<Pair>): map<Bytes, Option<Bytes>> {
    if ps == [] then map[] else AsMap(ps[1..])[ps[0].key := ps[0].val]
  }

  lemma AsMapCons(x: Pair, rest: seq<Pair>)
    ensures AsMap([x] + rest) == AsMap(rest)[x.key := x.val]
  {
    assert ([x] + rest)[1..] == rest;
  }

  lemma AsMapSuffix(ps: seq<Pair>, i: nat)
    requires i < |ps|
    ensures AsMap(ps[i..]) == AsMap(ps[i + 1..])[ps[i].key := ps[i].val]
  {
    assert ps[i..][1..] == ps[i + 1..];
  }

  lemma {:induction false} KeysOfMap(ps: seq<Pair>, k: Bytes)
    ensures k in AsMap(ps) <==> exists p :: p in ps && p.key == k
  {
    if ps != [] {
      KeysOfMap(ps[1..], k);
      assert ps == [ps[0]] + ps[1..];
      assert forall p :: p in ps <==> p == ps[0] || p in ps[1..];
    }
  }

  /** Keys above k do not include k. */
  lemma NotAbove(k: Bytes, ps: seq<Pair>)
    requires AllAbove(k, ps)
    ensures k !in AsMap(ps)
  {
    KeysOfMap(ps, k);
    KeyCompareSwap(k, k);
  }

  /** Each pair of a sorted sequence is in its map. */
  lemma {:induction false} SortedLookup(ps: seq<Pair>, p: Pair)
    requires SortedPairs(ps) && p in ps
    ensures p.key in AsMap(ps) && AsMap(ps)[p.key] == p.val
  {
    var x, rest := ps[0], ps[1..];
    assert ps == [x] + rest;
    SortedCons(x, rest);
    if p != x {
      SortedLookup(rest, p);
      NotAbove(x.key, rest);
    }
  }

  lemma EmptyMap(ps: seq<Pair>)
    ensures AsMap(ps) == map[] <==> ps == []
  {
    assert ps != [] ==> ps[0].key in AsMap(ps);
  }

  /** A sorted sequence of pairs is determined by its map. */
  lemma {:induction false} MapDetermines(ps: seq<Pair>, qs: seq<Pair>)
    requires SortedPairs(ps) && SortedPairs(qs) && AsMap(ps) == AsMap(qs)
    ensures ps == qs
  {
    EmptyMap(ps);
    EmptyMap(qs);
    if ps != [] && qs != [] {
      var x, y, xs, ys := ps[0], qs[0], ps[1..], qs[1..];
      assert ps == [x] + xs && qs == [y] + ys;
      SortedCons(x, xs);
      SortedCons(y, ys);
      SameFirst(ps, qs, x, xs, y, ys);
      NotAbove(x.key, xs);
      NotAbove(y.key, ys);
      assert AsMap(xs) == AsMap(ps) - {x.key};
      assert AsMap(ys) == AsMap(qs) - {y.key};
      MapDetermines(xs, ys);
    }
  }

  /** A key of the map does not come before the first one. */
  lemma FirstIsLeast(k: Bytes, ps: seq<Pair>, x: Pair, xs: seq<Pair>)
    requires ps == [x] + xs && AllAbove(x.key, xs) && k in AsMap(ps)
    ensures KeyCompare(x.key, k) <= 0
  {
    KeysOfMap(ps, k);
    KeyCompareSwap(k, k);
  }

  lemma SameFirst(ps: seq<Pair>, qs: seq<Pair>, x: Pair, xs: seq<Pair>, y: Pair, ys: seq<Pair>)
    requires ps == [x] + xs && qs == [y] + ys && AllAbove(x.key, xs) && AllAbove(y.key, ys)
    requires AsMap(ps) == AsMap(qs)
    ensures x == y
  {
    AsMapCons(x, xs);
    AsMapCons(y, ys);
    assert AsMap(ps)[x.key] == x.val && AsMap(qs)[y.key] == y.val;
    FirstIsLeast(y.key, ps, x, xs);
    FirstIsLeast(x.key, qs, y, ys);
    KeyCompareSwap(x.key, y.key);
    KeyCompareSwap(y.key, x.key);
  }
}
