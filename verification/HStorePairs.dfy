/** hstore/hstore_io.c: lists of key/value pairs, sorting them and dropping duplicate keys, and
    packing them. */
module HStorePairs {
  import opened Wrappers
  import opened Bytes
  import opened Memory
  import opened HStoreFormat
  import opened HStoreBuilder
  import opened HStoreMap

  datatype Error = SyntaxError | UnexpectedEnd | TooLong | TooLarge

  /** A pair as it is collected; needfree tells who owns its strings. */
  datatype RawPair = RawPair(key: Bytes, val: Bytes, isnull: bool, needfree: bool)

  function PairOf(r: RawPair): Pair {
    Pair(r.key, if r.isnull then None else Some(r.val))
  }

  function PairsFrom(s: seq<RawPair>): (r: seq<Pair>)
    ensures |r| == |s| && forall i :: 0 <= i < |s| ==> r[i] == PairOf(s[i])
  {
    seq(|s|, i requires 0 <= i < |s| => PairOf(s[i]))
  }

  /** Keys first; of equal keys those whose strings need freeing come later. */
  function ComparePairs(a: RawPair, b: RawPair): int {
    var res := KeyCompare(a.key, b.key);
    if res != 0 then res else if a.needfree == b.needfree then 0 else if a.needfree then 1 else -1
  }

  predicate NonDecreasing(s: seq<RawPair>) {
    forall i, j :: 0 <= i < j < |s| ==> ComparePairs(s[i], s[j]) <= 0
  }

  /** What `qsort` does: it leaves a sorted reordering, in whatever order of equal pairs. */
  ghost predicate Sorts(qsort: seq<RawPair> -> seq<RawPair>) {
    forall s :: multiset(qsort(s)) == multiset(s) && NonDecreasing(qsort(s))
  }

  /** Strictly ascending keys. */
  predicate Distinct(s: seq<RawPair>) {
    forall i, j :: 0 <= i < j < |s| ==> KeyLess(s[i].key, s[j].key)
  }

  // ----- Dropping duplicates -----

  /** Of the first n sorted pairs, the first with each key. */
  function UniqueTo(s: seq<RawPair>, n: nat): (r: seq<RawPair>)
    requires n <= |s|
    ensures n > 0 ==> r != [] && r[|r| - 1].key == s[n - 1].key
    ensures |r| <= n
  {
    if n == 0 then []
    else
      var r := UniqueTo(s, n - 1);
      if r != [] && r[|r| - 1].key == s[n - 1].key then r else r + [s[n - 1]]
  }

  function Unique(s: seq<RawPair>, qsort: seq<RawPair> -> seq<RawPair>): seq<RawPair> {
    if |s| < 2 then s else UniqueTo(qsort(s), |qsort(s)|)
  }

  lemma DistinctAppend(r: seq<RawPair>, x: RawPair)
    requires Distinct(r) && (r == [] || KeyLess(r[|r| - 1].key, x.key))
    ensures Distinct(r + [x])
  {
    forall i | 0 <= i < |r|
      ensures KeyLess(r[i].key, x.key)
    {
      if i < |r| - 1 {
        KeyLessTransitive(r[i].key, r[|r| - 1].key, x.key);
      }
    }
  }

  lemma {:induction false} UniqueToDistinct(s: seq<RawPair>, n: nat)
    requires NonDecreasing(s) && n <= |s|
    ensures Distinct(UniqueTo(s, n))
  {
    if n > 0 {
      var r := UniqueTo(s, n - 1);
      UniqueToDistinct(s, n - 1);
      if n > 1 && r[|r| - 1].key != s[n - 1].key {
        assert ComparePairs(s[n - 2], s[n - 1]) <= 0;
        KeyCompareSwap(s[n - 2].key, s[n - 1].key);
        DistinctAppend(r, s[n - 1]);
      }
    }
  }

  lemma {:induction false} UniqueToTaken(s: seq<RawPair>, n: nat)
    requires n <= |s|
    ensures forall p :: p in UniqueTo(s, n) ==> p in s[..n]
  {
    if n > 0 {
      UniqueToTaken(s, n - 1);
      assert s[..n] == s[..n - 1] + [s[n - 1]];
    }
  }

  /** Every key keeps a pair, and one that does not need freeing if there is one. */
  lemma {:induction false} UniqueToKeeps(s: seq<RawPair>, n: nat, i: nat)
    requires NonDecreasing(s) && i < n <= |s|
    ensures exists p :: p in UniqueTo(s, n) && p.key == s[i].key && (p.needfree ==> s[i].needfree)
  {
    var r := UniqueTo(s, n - 1);
    if n > 1 {
      UniqueToKeeps(s, n - 1, if i < n - 1 then i else n - 2);
    }
    if i < n - 1 {
      var p :| p in r && p.key == s[i].key && (p.needfree ==> s[i].needfree);
      assert p in UniqueTo(s, n);
    } else if n > 1 && r[|r| - 1].key == s[i].key {
      KeyCompareSwap(s[n - 2].key, s[i].key);
      assert s[n - 2].key == s[i].key;
      assert ComparePairs(s[n - 2], s[i]) <= 0;
      var p :| p in r && p.key == s[n - 2].key && (p.needfree ==> s[n - 2].needfree);
      assert p in UniqueTo(s, n);
    } else {
      assert s[i] in UniqueTo(s, n);
    }
  }

  lemma {:induction false} UniqueToIdentity(s: seq<RawPair>, n: nat)
    requires Distinct(s) && n <= |s|
    ensures UniqueTo(s, n) == s[..n]
  {
    if n > 0 {
      UniqueToIdentity(s, n - 1);
      if n > 1 {
        assert KeyLess(s[n - 2].key, s[n - 1].key);
        KeyCompareSwap(s[n - 2].key, s[n - 1].key);
      }
    }
  }

  /** A sorted reordering of strictly ascending pairs is those pairs. */
  lemma {:induction false} ReorderedDistinct(s: seq<RawPair>, t: seq<RawPair>)
    requires Distinct(s) && NonDecreasing(t) && multiset(s) == multiset(t)
    ensures s == t
  {
    assert |multiset(s)| == |s| && |multiset(t)| == |t|;
    if s != [] {
      SameFirstPair(s, t);
      assert s == [s[0]] + s[1..] && t == [t[0]] + t[1..];
      assert multiset(s[1..]) == multiset(s) - multiset{s[0]};
      assert multiset(t[1..]) == multiset(t) - multiset{t[0]};
      ReorderedDistinct(s[1..], t[1..]);
    }
  }

  lemma DistinctFirst(s: seq<RawPair>, y: RawPair)
    requires Distinct(s) && y in s
    ensures KeyCompare(s[0].key, y.key) <= 0 && (s[0].key == y.key ==> s[0] == y)
  {
    var j :| 0 <= j < |s| && s[j] == y;
    KeyCompareSwap(s[0].key, y.key);
    if j == 0 {
      KeyCompareSwap(y.key, y.key);
    }
  }

  lemma NonDecreasingFirst(t: seq<RawPair>, y: RawPair)
    requires NonDecreasing(t) && y in t
    ensures KeyCompare(t[0].key, y.key) <= 0
  {
    var j :| 0 <= j < |t| && t[j] == y;
    KeyCompareSwap(y.key, y.key);
    assert j > 0 ==> ComparePairs(t[0], t[j]) <= 0;
  }

  lemma SameFirstPair(s: seq<RawPair>, t: seq<RawPair>)
    requires Distinct(s) && NonDecreasing(t) && multiset(s) == multiset(t) && s != [] && t != []
    ensures s[0] == t[0]
  {
    assert s[0] in multiset(s) && t[0] in multiset(t);
    assert s[0] in t && t[0] in s;
    DistinctFirst(s, t[0]);
    NonDecreasingFirst(t, s[0]);
    KeyCompareSwap(s[0].key, t[0].key);
    KeyCompareSwap(t[0].key, s[0].key);
  }

  /** What is left is strictly sorted by key. */
  lemma UniqueSorted(s: seq<RawPair>, qsort: seq<RawPair> -> seq<RawPair>)
    requires Sorts(qsort)
    ensures SortedPairs(PairsFrom(Unique(s, qsort))) && InOrder(PairsFrom(Unique(s, qsort)))
  {
    SortedIsInOrder(PairsFrom(Unique(s, qsort)));
    if |s| >= 2 {
      UniqueToDistinct(qsort(s), |qsort(s)|);
    }
  }

  /** It has the same keys; each pair left is one of the input. */
  lemma UniqueKeeps(s: seq<RawPair>, qsort: seq<RawPair> -> seq<RawPair>, k: Bytes)
    requires Sorts(qsort)
    ensures (exists p :: p in Unique(s, qsort) && p.key == k) <==> (exists p :: p in s && p.key == k)
    ensures forall p :: p in Unique(s, qsort) ==> p in s
  {
    if |s| >= 2 {
      var t := qsort(s);
      assert |multiset(t)| == |t| && |multiset(s)| == |s|;
      assert forall p :: p in s <==> p in multiset(s);
      assert forall p :: p in t <==> p in multiset(t);
      assert t[..|t|] == t;
      UniqueToTaken(t, |t|);
      if p :| p in s && p.key == k {
        assert p in t;
        var i :| 0 <= i < |t| && t[i] == p;
        UniqueToKeeps(t, |t|, i);
      }
    }
  }

  /** Pairs that are strictly ascending already stay as they are, whatever the sort does. */
  lemma UniqueOfDistinct(s: seq<RawPair>, qsort: seq<RawPair> -> seq<RawPair>)
    requires Sorts(qsort) && Distinct(s)
    ensures Unique(s, qsort) == s
  {
    if |s| >= 2 {
      ReorderedDistinct(s, qsort(s));
      UniqueToIdentity(s, |s|);
    }
  }

  // ----- The methods -----

  function Used(p: RawPair): nat {
    |p.key| + if p.isnull then 0 else |p.val|
  }

  /** The room the strings of the first n pairs take. */
  function Room(s: seq<RawPair>, n: nat): nat
    requires n <= |s|
  {
    if n == 0 then 0 else Room(s, n - 1) + Used(s[n - 1])
  }

  lemma {:induction false} RoomExtend(s: seq<RawPair>, x: RawPair, n: nat)
    requires n <= |s|
    ensures Room(s + [x], n) == Room(s, n)
  {
    if n > 0 {
      RoomExtend(s, x, n - 1);
    }
  }

  lemma {:induction false} RoomIsEnd(s: seq<RawPair>, n: nat)
    requires n <= |s|
    ensures Room(s, n) == End(PairsFrom(s), n)
  {
    if n > 0 {
      RoomIsEnd(s, n - 1);
    }
  }

  /** Sort the first l pairs and drop duplicates in place; the first n remain, and buflen is the
      room their strings take. */
  method HstoreUniquePairs(a: array<RawPair>, l: nat, qsort: seq<RawPair> -> seq<RawPair>) returns (n: nat, buflen: nat)
    requires l <= a.Length && Sorts(qsort)
    modifies a
    ensures n <= l && a[..n] == Unique(old(a[..l]), qsort)
    ensures buflen == Room(a[..n], n)
  {
    if l < 2 {
      assert l == 1 ==> Room(a[..l], 0) == 0;
      return l, if l == 1 then |a[0].key| + (if a[0].isnull then 0 else |a[0].val|) else 0;
    }
    SortPairs(a, l, qsort);
    n, buflen := Compact(a, l);
  }

  method SortPairs(a: array<RawPair>, l: nat, qsort: seq<RawPair> -> seq<RawPair>)
    requires l <= a.Length && Sorts(qsort)
    modifies a
    ensures |qsort(old(a[..l]))| == l && a[..l] == qsort(old(a[..l]))
  {
    var sorted := qsort(a[..l]);
    assert |multiset(sorted)| == |sorted| && |multiset(a[..l])| == l;
    forall k | 0 <= k < l {
      a[k] := sorted[k];
    }
  }

  lemma KeepNext(s: seq<RawPair>, n: nat, r: seq<RawPair>, last: RawPair, x: RawPair, r': seq<RawPair>)
    requires 0 < n < |s| && r == UniqueTo(s, n) && last == r[|r| - 1] && x == s[n]
    requires r' == if last.key == x.key then r else r + [x]
    ensures r' == UniqueTo(s, n + 1)
    ensures Room(r', |r'| - 1) == Room(r, |r| - 1) + if last.key == x.key then 0 else Used(last)
  {
    RoomExtend(r, x, |r|);
  }

  /** Of the first ptr pairs s, r remain, the last at position res; buflen counts the others. */
  ghost predicate Compacted(a: array<RawPair>, s: seq<RawPair>, ptr: nat, res: nat, r: seq<RawPair>, buflen: nat)
    reads a
  {
    && res < ptr <= |s| <= a.Length && |r| == res + 1
    && (forall k :: ptr <= k < |s| ==> a[k] == s[k])
    && (forall k :: 0 <= k <= res ==> a[k] == r[k])
    && r == UniqueTo(s, ptr) && buflen == Room(r, res)
  }

  /** The body of the compaction loop. */
  method CompactOne(a: array<RawPair>, ptr: nat, res: nat, buflen: nat, ghost s: seq<RawPair>, ghost r: seq<RawPair>)
      returns (res': nat, buflen': nat, ghost r': seq<RawPair>)
    requires ptr < |s| && Compacted(a, s, ptr, res, r, buflen)
    modifies a
    ensures Compacted(a, s, ptr + 1, res', r', buflen')
  {
    res', buflen', r' := res, buflen, r;
    ghost var last, x := a[res], a[ptr];
    if !(|a[ptr].key| == |a[res].key| && a[ptr].key == a[res].key) {
      buflen' := buflen + |a[res].key| + if a[res].isnull then 0 else |a[res].val|;
      r' := r + [x];
      res' := res + 1;
      a[res'] := a[ptr];
    }
    KeepNext(s, ptr, r, last, x, r');
  }

  /** Before the loop, the first pair is kept. */
  lemma CompactStart(a: array<RawPair>, s: seq<RawPair>)
    requires 2 <= |s| <= a.Length && a[..|s|] == s
    ensures Compacted(a, s, 1, 0, [s[0]], 0)
  {
    assert UniqueTo(s, 0) == [];
    assert forall k :: 1 <= k < |s| ==> a[k] == a[..|s|][k];
    assert a[0] == a[..|s|][0];
  }

  lemma CompactEnd(a: array<RawPair>, s: seq<RawPair>, res: nat, r: seq<RawPair>, buflen: nat)
    requires Compacted(a, s, |s|, res, r, buflen)
    ensures res + 1 <= |s| && a[..res + 1] == UniqueTo(s, |s|) && Room(a[..res + 1], res + 1) == buflen + Used(a[res])
  {
    assert a[..res + 1] == r;
  }

  /** The compaction loop; buflen counts all but the last pair kept until the end. */
  method Compact(a: array<RawPair>, l: nat) returns (n: nat, buflen: nat)
    requires 2 <= l <= a.Length
    modifies a
    ensures n <= l && a[..n] == UniqueTo(old(a[..l]), l)
    ensures buflen == Room(a[..n], n)
  {
    ghost var s, r := a[..l], [a[0]];
    var ptr: nat, res: nat := 1, 0;
    buflen := 0;
    CompactStart(a, s);
    while ptr < l
      invariant 0 < ptr <= l && Compacted(a, s, ptr, res, r, buflen)
    {
      res, buflen, r := CompactOne(a, ptr, res, buflen, s, r);
      ptr := ptr + 1;
    }
    CompactEnd(a, s, res, r, buflen);
    buflen := buflen + |a[res].key| + if a[res].isnull then 0 else |a[res].val|;
    n := res + 1;
  }

  /** Pack sorted pairs into a store; buflen is the room reserved for their strings. */
  method HstorePairs(pairs: seq<RawPair>, buflen: nat) returns (r: Result<Store, Error>)
    requires buflen >= End(PairsFrom(pairs), |pairs|)
    ensures r.Failure? <==> CalcDataSize(|pairs|, buflen) > MAX_ALLOC
    ensures r == if r.Failure? then Failure(TooLarge) else Success(Encode(PairsFrom(pairs)))
  {
    var pcount := |pairs|;
    if CalcDataSize(pcount, buflen) > MAX_ALLOC {
      return Failure(TooLarge);
    }
    var b := new Builder(pcount, buflen);
    if pcount == 0 {
      return Success(Store(0, CalcDataSize(0, 0), [], []));
    }
    ghost var ps := PairsFrom(pairs);
    AddPairs(b, pairs, ps);
    var store := b.Finalize(pcount, EntriesOf(ps, |ps|), Flat(ps, |ps|));
    r := Success(store);
  }

  method AddOne(b: Builder, r: RawPair, ghost out: seq<Pair>, ghost out': seq<Pair>)
    requires b.Holds(out) && out' == out + [PairOf(r)]
    requires |out| < b.count && b.dbuf + End(out, |out|) + Used(r) <= b.mem.Length
    modifies b`dent, b`dptr, b.mem
    ensures b.Holds(out')
  {
    EncodeExtend(out, PairOf(r));
    b.AddItem(r.key, r.val, r.isnull, EntriesOf(out, |out|), Flat(out, |out|), PairOf(r));
  }

  lemma RoomLeft(done: seq<Pair>, ps: seq<Pair>, i: nat)
    requires |done| == i < |ps| && forall k :: 0 <= k < i ==> done[k] == ps[k]
    ensures End(done, i) + |ps[i].key| + |ValueBytes(ps[i])| <= End(ps, |ps|)
  {
    EndSame(done, ps, i);
    EndMonotone(ps, i + 1, |ps|);
  }

  method AddNext(b: Builder, pairs: seq<RawPair>, i: nat, ghost ps: seq<Pair>, ghost done: seq<Pair>, ghost next: seq<Pair>)
    requires i < |ps| == |pairs| && ps[i] == PairOf(pairs[i]) && done == ps[..i] && next == ps[..i + 1]
    requires b.Holds(done) && b.count == |ps| && b.mem.Length >= 2 * |ps| + End(ps, |ps|)
    modifies b`dent, b`dptr, b.mem
    ensures b.Holds(next)
  {
    RoomLeft(done, ps, i);
    AddOne(b, pairs[i], done, next);
  }

  method AddPairs(b: Builder, pairs: seq<RawPair>, ghost ps: seq<Pair>)
    requires |ps| == |pairs| && forall i :: 0 <= i < |ps| ==> ps[i] == PairOf(pairs[i])
    requires b.Holds([]) && b.count == |ps| && b.mem.Length >= 2 * |ps| + End(ps, |ps|)
    modifies b`dent, b`dptr, b.mem
    ensures b.Holds(ps)
  {
    var i := 0;
    while i < |pairs|
      invariant 0 <= i <= |pairs| && b.Holds(ps[..i])
    {
      AddNext(b, pairs, i, ps, ps[..i], ps[..i + 1]);
      i := i + 1;
    }
    assert ps[..i] == ps;
  }

  lemma {:induction false} EndSame(ps: seq<Pair>, qs: seq<Pair>, n: nat)
    requires n <= |ps| <= |qs| && forall k :: 0 <= k < n ==> ps[k] == qs[k]
    ensures End(ps, n) == End(qs, n)
  {
    if n > 0 {
      EndSame(ps, qs, n - 1);
    }
  }

  // ----- Key lists -----

  /** The keys of the first n elements of a text array, without its NULLs. */
  function KeyList(a: seq<Option<Bytes>>, n: nat): (r: seq<RawPair>)
    requires n <= |a|
    ensures |r| <= n
  {
    if n == 0 then []
    else KeyList(a, n - 1) + if a[n - 1].Some? then [RawPair(a[n - 1].value, [], true, false)] else []
  }

  lemma {:induction false} KeyListMember(a: seq<Option<Bytes>>, n: nat, k: Bytes)
    requires n <= |a|
    ensures (exists p :: p in KeyList(a, n) && p.key == k) <==> Some(k) in a[..n]
  {
    if n > 0 {
      KeyListMember(a, n - 1, k);
      assert a[..n] == a[..n - 1] + [a[n - 1]];
      if a[n - 1] == Some(k) {
        assert RawPair(k, [], true, false) in KeyList(a, n);
      }
      if p :| p in KeyList(a, n - 1) && p.key == k {
        assert p in KeyList(a, n);
      }
    }
  }

  lemma KeysOfPairs(s: seq<RawPair>, k: Bytes)
    ensures k in AsMap(PairsFrom(s)) <==> exists p :: p in s && p.key == k
  {
    KeysOfMap(PairsFrom(s), k);
    if p :| p in s && p.key == k {
      var i :| 0 <= i < |s| && s[i] == p;
      assert PairsFrom(s)[i] in PairsFrom(s);
    }
    if q :| q in PairsFrom(s) && q.key == k {
      var i :| 0 <= i < |s| && PairsFrom(s)[i] == q;
      assert s[i] in s;
    }
  }

  /** The keys of a text array, sorted and without duplicates. */
  method HstoreArrayToPairs(a: seq<Option<Bytes>>, qsort: seq<RawPair> -> seq<RawPair>) returns (pairs: seq<RawPair>)
    requires Sorts(qsort)
    ensures pairs == Unique(KeyList(a, |a|), qsort)
  {
    var keyPairs := new RawPair[|a|](_ => RawPair([], [], true, false));
    var i, j: nat := 0, 0;
    while i < |a|
      invariant 0 <= i <= |a| && j <= i && keyPairs[..j] == KeyList(a, i)
    {
      if a[i].Some? {
        keyPairs[j] := RawPair(a[i].value, [], true, false);
        j := j + 1;
      }
      i := i + 1;
    }
    var npairs, bufsiz := HstoreUniquePairs(keyPairs, j, qsort);
    pairs := keyPairs[..npairs];
  }

  lemma ArrayKeys(a: seq<Option<Bytes>>, qsort: seq<RawPair> -> seq<RawPair>, k: Bytes)
    requires Sorts(qsort)
    ensures k in AsMap(PairsFrom(Unique(KeyList(a, |a|), qsort))) <==> Some(k) in a
  {
    KeysOfPairs(Unique(KeyList(a, |a|), qsort), k);
    UniqueKeeps(KeyList(a, |a|), qsort, k);
    KeyListMember(a, |a|, k);
    assert a[..|a|] == a;
  }
}
