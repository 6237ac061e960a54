/** hstore/hstore_op.c: binary search that carries a lower bound from call to call, and what
    is built on it. */
module HStoreSearch {
  import opened Wrappers
  import opened Bytes
  import opened HStoreFormat
  import opened HStoreMap
  import opened HStorePairs
  import opened HStoreOps

  // ----- Finding a key -----

  /** All of the first n keys come before key. */
  predicate Below(ps: seq<Pair>, n: nat, key: Bytes) {
    n <= |ps| && forall i :: 0 <= i < n ==> KeyLess(ps[i].key, key)
  }

  /** idx is where the key is, or -1 when it is nowhere. */
  predicate Located(ps: seq<Pair>, key: Bytes, idx: int) {
    if idx == -1 then forall i :: 0 <= i < |ps| ==> ps[i].key != key
    else 0 <= idx < |ps| && ps[idx].key == key
  }

  /** The full search has one answer only. */
  lemma LocatedUnique(ps: seq<Pair>, key: Bytes, i: int, j: int)
    requires SortedPairs(ps) && Located(ps, key, i) && Located(ps, key, j)
    ensures i == j
  {
    KeyCompareSwap(key, key);
  }

  lemma LocatedInMap(ps: seq<Pair>, key: Bytes, idx: int)
    requires SortedPairs(ps) && Located(ps, key, idx)
    ensures key in AsMap(ps) <==> idx >= 0
    ensures idx >= 0 ==> AsMap(ps)[key] == ps[idx].val
  {
    KeysOfMap(ps, key);
    if idx >= 0 {
      SortedLookup(ps, ps[idx]);
    }
  }

  /** With no bound, or with one that all earlier keys respect, the search finds what a full
      search finds, and leaves a bound that holds for every later key. */
  method HstoreFindKey(hs: Store, lowbound: Option<nat>, key: Bytes, ghost ps: seq<Pair>) returns (idx: int, lowbound': nat)
    requires Laid(hs, ps) && SortedPairs(ps)
    requires lowbound.Some? ==> Below(ps, lowbound.value, key)
    ensures Located(ps, key, idx) && lowbound' <= |ps|
    ensures lowbound.Some? ==> lowbound.value <= lowbound' && (idx >= 0 ==> lowbound.value <= idx && lowbound' == idx + 1)
    ensures forall later :: KeyLess(key, later) ==> Below(ps, lowbound', later)
  {
    var stopLow, stopHigh := if lowbound.Some? then lowbound.value else 0, hs.count;
    while stopLow < stopHigh
      invariant 0 <= stopLow <= stopHigh <= |ps| && (lowbound.Some? ==> lowbound.value <= stopLow)
      invariant Below(ps, stopLow, key)
      invariant forall i :: stopHigh <= i < |ps| ==> KeyLess(key, ps[i].key)
    {
      var stopMiddle := stopLow + (stopHigh - stopLow) / 2;
      var difference := MiddleDifference(hs, stopMiddle, key, ps);
      if difference == 0 {
        LaterBelow(ps, stopMiddle + 1, key);
        return stopMiddle, stopMiddle + 1;
      } else if difference < 0 {
        BelowMore(ps, stopMiddle, key);
        stopLow := stopMiddle + 1;
      } else {
        AboveMore(ps, stopMiddle, key);
        stopHigh := stopMiddle;
      }
    }
    NotBetween(ps, stopLow, key);
    LaterBelow(ps, stopLow, key);
    return -1, stopLow;
  }

  method MiddleDifference(hs: Store, i: nat, key: Bytes, ghost ps: seq<Pair>) returns (d: int)
    requires Laid(hs, ps) && i < |ps|
    ensures d == KeyCompare(ps[i].key, key) && (d == 0 ==> ps[i].key == key)
  {
    ReadAt(hs, ps, i);
    KeyCompareSwap(ps[i].key, key);
    if KeyLen(hs, i) == |key| {
      d := Compare(Key(hs, i), key);
    } else {
      d := if KeyLen(hs, i) > |key| then 1 else -1;
    }
  }

  lemma BelowMore(ps: seq<Pair>, m: nat, key: Bytes)
    requires SortedPairs(ps) && m < |ps| && KeyLess(ps[m].key, key)
    ensures Below(ps, m + 1, key)
  {
    forall i | 0 <= i < m
      ensures KeyLess(ps[i].key, key)
    {
      KeyLessTransitive(ps[i].key, ps[m].key, key);
    }
  }

  lemma AboveMore(ps: seq<Pair>, m: nat, key: Bytes)
    requires SortedPairs(ps) && m < |ps| && KeyCompare(ps[m].key, key) > 0
    ensures forall i :: m <= i < |ps| ==> KeyLess(key, ps[i].key)
  {
    KeyCompareSwap(key, ps[m].key);
    forall i | m < i < |ps|
      ensures KeyLess(key, ps[i].key)
    {
      KeyLessTransitive(key, ps[m].key, ps[i].key);
    }
  }

  lemma NotBetween(ps: seq<Pair>, n: nat, key: Bytes)
    requires Below(ps, n, key) && forall i :: n <= i < |ps| ==> KeyLess(key, ps[i].key)
    ensures Located(ps, key, -1)
  {
    KeyCompareSwap(key, key);
  }

  /** The first n keys come before every later key, if they come before key or are key. */
  lemma LaterBelow(ps: seq<Pair>, n: nat, key: Bytes)
    requires SortedPairs(ps) && n <= |ps| && (Below(ps, n, key) || (n > 0 && ps[n - 1].key == key))
    ensures forall later :: KeyLess(key, later) ==> Below(ps, n, later)
  {
    forall later, i | KeyLess(key, later) && 0 <= i < n
      ensures KeyLess(ps[i].key, later)
    {
      KeyCompareSwap(key, key);
      if i < n - 1 && !Below(ps, n, key) {
        assert KeyLess(ps[i].key, ps[n - 1].key);
      }
      KeyLessTransitive(ps[i].key, key, later);
    }
  }

  // ----- Containment -----

  /** One map is part of another. */
  ghost predicate Included(a: map<Bytes, Option<Bytes>>, b: map<Bytes, Option<Bytes>>) {
    forall k :: k in a ==> k in b && b[k] == a[k]
  }

  /** The pair is in the map. */
  predicate PairIn(p: Pair, m: map<Bytes, Option<Bytes>>) {
    p.key in m && m[p.key] == p.val
  }

  lemma IncludedByPairs(ps: seq<Pair>, m: map<Bytes, Option<Bytes>>)
    requires SortedPairs(ps)
    ensures Included(AsMap(ps), m) <==> forall i :: 0 <= i < |ps| ==> PairIn(ps[i], m)
  {
    forall i | 0 <= i < |ps|
      ensures ps[i].key in AsMap(ps) && AsMap(ps)[ps[i].key] == ps[i].val
    {
      SortedLookup(ps, ps[i]);
    }
    forall k | k in AsMap(ps)
      ensures exists i :: 0 <= i < |ps| && ps[i].key == k
    {
      KeysOfMap(ps, k);
    }
  }

  /** Containment of stores is inclusion of maps. */
  method HstoreContains(val: Store, tmpl: Store) returns (res: bool)
    requires WellFormed(val) && WellFormed(tmpl)
    ensures res <==> Included(Contents(tmpl), Contents(val))
  {
    ghost var vs, ts := PairsOf(val), PairsOf(tmpl);
    IncludedByPairs(ts, AsMap(vs));
    res := ContainsLoop(val, tmpl, vs, ts);
  }

  method ContainsLoop(val: Store, tmpl: Store, ghost vs: seq<Pair>, ghost ts: seq<Pair>) returns (res: bool)
    requires Laid(val, vs) && Laid(tmpl, ts) && SortedPairs(vs) && SortedPairs(ts)
    ensures res <==> forall i :: 0 <= i < |ts| ==> PairIn(ts[i], AsMap(vs))
  {
    res := true;
    var lastidx, i: nat := 0, 0;
    while res && i < tmpl.count
      invariant 0 <= i <= |ts|
      invariant res ==> forall k :: 0 <= k < i ==> PairIn(ts[k], AsMap(vs))
      invariant !res ==> exists k :: 0 <= k < |ts| && !PairIn(ts[k], AsMap(vs))
      invariant i < |ts| ==> Below(vs, lastidx, ts[i].key)
    {
      res, lastidx := ContainsOne(val, tmpl, i, lastidx, vs, ts);
      assert i + 1 < |ts| ==> KeyLess(ts[i].key, ts[i + 1].key);
      i := i + 1;
    }
  }

  method ContainsOne(val: Store, tmpl: Store, i: nat, lastidx: nat, ghost vs: seq<Pair>, ghost ts: seq<Pair>)
      returns (res: bool, lastidx': nat)
    requires Laid(val, vs) && Laid(tmpl, ts) && SortedPairs(vs) && i < |ts| && Below(vs, lastidx, ts[i].key)
    ensures res <==> PairIn(ts[i], AsMap(vs))
    ensures forall later :: KeyLess(ts[i].key, later) ==> Below(vs, lastidx', later)
  {
    ReadAt(tmpl, ts, i);
    var idx;
    idx, lastidx' := HstoreFindKey(val, Some(lastidx), Key(tmpl, i), vs);
    LocatedInMap(vs, ts[i].key, idx);
    if idx >= 0 {
      var differ := ValuesDiffer(tmpl, i, val, idx, ts, vs);
      res := !differ;
    } else {
      res := false;
    }
  }

  // ----- Slices -----

  /** The pairs of m with the first n of the keys, in the keys' order. */
  function SliceTo(m: map<Bytes, Option<Bytes>>, ks: seq<Pair>, n: nat): seq<Pair>
    requires n <= |ks|
  {
    if n == 0 then []
    else
      var k := ks[n - 1].key;
      SliceTo(m, ks, n - 1) + if k in m then [Pair(k, m[k])] else []
  }

  lemma {:induction false} SliceMember(m: map<Bytes, Option<Bytes>>, ks: seq<Pair>, n: nat, p: Pair)
    requires n <= |ks|
    ensures p in SliceTo(m, ks, n) <==> PairIn(p, m) && exists i :: 0 <= i < n && ks[i].key == p.key
  {
    if n > 0 {
      SliceMember(m, ks, n - 1, p);
    }
  }

  lemma {:induction false} SliceSorted(m: map<Bytes, Option<Bytes>>, ks: seq<Pair>, n: nat)
    requires SortedPairs(ks) && n <= |ks|
    ensures SortedPairs(SliceTo(m, ks, n))
  {
    if n > 0 {
      var r := SliceTo(m, ks, n - 1);
      SliceSorted(m, ks, n - 1);
      forall i | 0 <= i < |r|
        ensures KeyLess(r[i].key, ks[n - 1].key)
      {
        SliceMember(m, ks, n - 1, r[i]);
      }
    }
  }

  lemma SliceIsRestriction(m: map<Bytes, Option<Bytes>>, ks: seq<Pair>)
    requires SortedPairs(ks)
    ensures SortedPairs(SliceTo(m, ks, |ks|))
    ensures AsMap(SliceTo(m, ks, |ks|)) == map k | k in m && k in AsMap(ks) :: m[k]
  {
    var r := SliceTo(m, ks, |ks|);
    SliceSorted(m, ks, |ks|);
    forall k
      ensures k in AsMap(r) <==> k in m && k in AsMap(ks)
      ensures k in AsMap(r) ==> AsMap(r)[k] == m[k]
    {
      KeysOfMap(r, k);
      KeysOfMap(ks, k);
      if k in m {
        SliceMember(m, ks, |ks|, Pair(k, m[k]));
        if k in AsMap(ks) {
          SortedLookup(r, Pair(k, m[k]));
        }
      }
      if p :| p in r && p.key == k {
        SliceMember(m, ks, |ks|, p);
      }
    }
  }

  /** The slice loop has collected r from the keys before position i. */
  ghost predicate Sliced(ps: seq<Pair>, qs: seq<Pair>, i: nat, lastidx: nat, r: seq<RawPair>, bufsiz: nat) {
    && i <= |qs| && lastidx <= |ps|
    && PairsFrom(r) == SliceTo(AsMap(ps), qs, i)
    && |r| <= lastidx && bufsiz == Room(r, |r|) <= End(ps, lastidx)
    && (i < |qs| ==> Below(ps, lastidx, qs[i].key))
  }

  lemma SlicedMissing(ps: seq<Pair>, qs: seq<Pair>, i: nat, i': nat, lastidx: nat, lastidx': nat, r: seq<RawPair>, bufsiz: nat)
    requires i < |qs| && i' == i + 1 && Sliced(ps, qs, i, lastidx, r, bufsiz) && qs[i].key !in AsMap(ps)
    requires lastidx <= lastidx' <= |ps| && (i' < |qs| ==> Below(ps, lastidx', qs[i'].key))
    ensures Sliced(ps, qs, i', lastidx', r, bufsiz)
  {
    EndMonotone(ps, lastidx, lastidx');
  }

  lemma PairsFromAppend(r: seq<RawPair>, x: RawPair)
    ensures PairsFrom(r + [x]) == PairsFrom(r) + [PairOf(x)]
    ensures Room(r + [x], |r + [x]|) == Room(r, |r|) + Used(x)
  {
    RoomExtend(r, x, |r|);
  }

  lemma SliceStep(m: map<Bytes, Option<Bytes>>, qs: seq<Pair>, i: nat, p: Pair)
    requires i < |qs| && p.key == qs[i].key && p.key in m && m[p.key] == p.val
    ensures SliceTo(m, qs, i + 1) == SliceTo(m, qs, i) + [p]
  {
  }

  lemma SlicedFound(ps: seq<Pair>, qs: seq<Pair>, i: nat, i': nat, lastidx: nat, idx: nat, r: seq<RawPair>, bufsiz: nat, x: RawPair)
    requires i < |qs| && i' == i + 1 && Sliced(ps, qs, i, lastidx, r, bufsiz)
    requires lastidx <= idx < |ps| && PairOf(x) == ps[idx] && x.key == qs[i].key
    requires x.key in AsMap(ps) && AsMap(ps)[x.key] == ps[idx].val
    requires i' < |qs| ==> Below(ps, idx + 1, qs[i'].key)
    ensures Sliced(ps, qs, i', idx + 1, r + [x], bufsiz + Used(x))
  {
    EndMonotone(ps, lastidx, idx);
    PairsFromAppend(r, x);
    SliceStep(AsMap(ps), qs, i, ps[idx]);
  }

  /** The pair found at idx, under the key that was asked for. */
  method Collected(hs: Store, key: RawPair, idx: nat, ghost ps: seq<Pair>) returns (x: RawPair)
    requires Laid(hs, ps) && idx < |ps| && key.key == ps[idx].key
    ensures PairOf(x) == ps[idx] && x.key == key.key && Used(x) == |key.key| + ValLen(hs, idx)
  {
    ReadAt(hs, ps, idx);
    x := RawPair(key.key, Val(hs, idx), ValIsNull(hs, idx), false);
  }

  /** Look one key up, and collect its pair if it is there. */
  method SliceOne(hs: Store, key: RawPair, i: nat, i': nat, lastidx: nat, r: seq<RawPair>, bufsiz: nat, ghost ps: seq<Pair>,
                  ghost qs: seq<Pair>) returns (lastidx': nat, r': seq<RawPair>, bufsiz': nat)
    requires Laid(hs, ps) && SortedPairs(ps) && SortedPairs(qs) && i < |qs| && i' == i + 1 && qs[i] == PairOf(key)
    requires Sliced(ps, qs, i, lastidx, r, bufsiz)
    ensures Sliced(ps, qs, i', lastidx', r', bufsiz')
  {
    var idx;
    idx, lastidx' := HstoreFindKey(hs, Some(lastidx), key.key, ps);
    assert i' < |qs| ==> KeyLess(qs[i].key, qs[i'].key);
    LocatedInMap(ps, key.key, idx);
    if idx >= 0 {
      var x := Collected(hs, key, idx, ps);
      r', bufsiz' := r + [x], bufsiz + |key.key| + ValLen(hs, idx);
      SlicedFound(ps, qs, i, i', lastidx, idx, r, bufsiz, x);
    } else {
      r', bufsiz' := r, bufsiz;
      SlicedMissing(ps, qs, i, i', lastidx, lastidx', r, bufsiz);
    }
  }

  /** The part of a store with the given keys. */
  method HstoreSliceToHstore(hs: Store, keyArray: seq<Option<Bytes>>, qsort: seq<RawPair> -> seq<RawPair>) returns (out: Store)
    requires WellFormed(hs) && Sorts(qsort)
    ensures WellFormed(out) && InOrder(PairsOf(out))
    ensures Contents(out) == map k | k in Contents(hs) && Some(k) in keyArray :: Contents(hs)[k]
  {
    var keys := HstoreArrayToPairs(keyArray, qsort);
    ghost var ps, qs := PairsOf(hs), PairsFrom(keys);
    UniqueSorted(KeyList(keyArray, |keyArray|), qsort);
    forall k
      ensures k in AsMap(qs) <==> Some(k) in keyArray
    {
      ArrayKeys(keyArray, qsort, k);
    }
    out := SliceStore(hs, keys, ps, qs);
    WellFormedInOrder(out);
  }

  method SliceStore(hs: Store, keys: seq<RawPair>, ghost ps: seq<Pair>, ghost qs: seq<Pair>) returns (out: Store)
    requires Laid(hs, ps) && SortedPairs(ps) && qs == PairsFrom(keys) && SortedPairs(qs)
    ensures WellFormed(out)
    ensures Contents(out) == map k | k in AsMap(ps) && k in AsMap(qs) :: AsMap(ps)[k]
  {
    var lastidx: nat, bufsiz: nat, i := 0, 0, 0;
    var outPairs: seq<RawPair> := [];
    while i < |keys|
      invariant 0 <= i <= |keys| && Sliced(ps, qs, i, lastidx, outPairs, bufsiz)
    {
      lastidx, outPairs, bufsiz := SliceOne(hs, keys[i], i, i + 1, lastidx, outPairs, bufsiz, ps, qs);
      i := i + 1;
    }
    SliceIsRestriction(AsMap(ps), qs);
    RoomIsEnd(outPairs, |outPairs|);
    EndMonotone(ps, lastidx, |ps|);
    var r := HstorePairs(outPairs, bufsiz);
    EncodeWellFormed(PairsFrom(outPairs));
    out := r.value;
  }
}
