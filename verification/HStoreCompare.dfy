/** hstore_cmp of hstore/hstore_op.c: strings first, then counts, then entries. */
module HStoreCompare {
  import opened Wrappers
  import opened Bytes
  import opened HStoreFormat
  import opened HStoreMap
  import opened HStoreOps

  function Sign(x: int): int {
    if x > 0 then 1 else if x < 0 then -1 else 0
  }

  function Then(a: int, b: int): int {
    if a != 0 then a else b
  }

  /** By end position, then NULLs last. */
  function EntryCompare(a: Word, b: Word): int {
    Then(EndPos(a) - EndPos(b), if IsNull(a) == IsNull(b) then 0 else if IsNull(a) then 1 else -1)
  }

  /** The first difference of two entry arrays from position i on. */
  function EntriesCompare(a: seq<Word>, b: seq<Word>, i: nat): int
    requires |a| == |b| && i <= |a|
    decreases |a| - i
  {
    if i == |a| then 0 else Then(EntryCompare(a[i], b[i]), EntriesCompare(a, b, i + 1))
  }

  /** Two entries for each item. */
  predicate Paired(s: Store) {
    |s.entries| == 2 * s.count
  }

  /** Empty stores first, then by string, number of items and entries. */
  function StoreCompare(a: Store, b: Store): int
    requires Paired(a) && Paired(b)
  {
    Then((if a.count > 0 then 1 else 0) - (if b.count > 0 then 1 else 0),
    Then(Compare(a.str, b.str),
    Then(a.count - b.count,
         if a.count == b.count then EntriesCompare(a.entries, b.entries, 0) else 0)))
  }

  /** The loop over the entries: the position of the first difference. */
  method FirstDifference(a: seq<Word>, b: seq<Word>) returns (i: nat)
    requires |a| == |b|
    ensures i <= |a| && EntriesCompare(a, b, 0) == EntriesCompare(a, b, i)
    ensures i < |a| ==> EntryCompare(a[i], b[i]) != 0
  {
    i := 0;
    while i < |a| && !(EndPos(a[i]) != EndPos(b[i]) || IsNull(a[i]) != IsNull(b[i]))
      invariant 0 <= i <= |a| && EntriesCompare(a, b, 0) == EntriesCompare(a, b, i)
    {
      i := i + 1;
    }
  }

  /** `memcmp` over the common length. */
  function MemCompare(a: Bytes, b: Bytes): int {
    var n := Min(|a|, |b|);
    Compare(a[..n], b[..n])
  }

  lemma MemCompareIs(a: Bytes, b: Bytes)
    ensures Compare(a, b) == Then(MemCompare(a, b), |a| - |b|)
  {
    var n, k := Min(|a|, |b|), CommonPrefix(a, b);
    CommonPrefixAgrees(a, b);
    assert a[..n][..k] == a[..k] && b[..n][..k] == b[..k];
    CommonPrefixAt(a[..n], b[..n], k);
  }

  /** The first entries that differ: the smaller end position comes first, and of equal ones the
      entry that is no NULL. */
  ghost predicate EntriesBefore(a: seq<Word>, b: seq<Word>, from: nat)
    requires |a| == |b|
  {
    exists i :: from <= i < |a|
      && (forall k :: from <= k < i ==> EndPos(a[k]) == EndPos(b[k]) && (IsNull(a[k]) <==> IsNull(b[k])))
      && (EndPos(a[i]) < EndPos(b[i]) || (EndPos(a[i]) == EndPos(b[i]) && !IsNull(a[i]) && IsNull(b[i])))
  }

  /** An empty store comes first; of others the one with the smaller string, then with fewer items,
      then with the smaller entries. */
  ghost predicate StoreBefore(a: Store, b: Store)
    requires Paired(a) && Paired(b)
  {
    if a.count == 0 || b.count == 0 then a.count < b.count
    else if a.str != b.str then Smaller(a.str, b.str)
    else if a.count != b.count then a.count < b.count
    else EntriesBefore(a.entries, b.entries, 0)
  }

  /** One entry decides, or the later ones do. */
  lemma EntriesBeforeStep(a: seq<Word>, b: seq<Word>, from: nat)
    requires |a| == |b| && from < |a|
    ensures EntryCompare(a[from], b[from]) < 0 ==> EntriesBefore(a, b, from)
    ensures EntryCompare(a[from], b[from]) > 0 ==> !EntriesBefore(a, b, from)
    ensures EntryCompare(a[from], b[from]) == 0 ==> (EntriesBefore(a, b, from) <==> EntriesBefore(a, b, from + 1))
  {
    if EntryCompare(a[from], b[from]) == 0 && EntriesBefore(a, b, from + 1) {
      var i :| from + 1 <= i < |a|
        && (forall k :: from + 1 <= k < i ==> EndPos(a[k]) == EndPos(b[k]) && (IsNull(a[k]) <==> IsNull(b[k])))
        && (EndPos(a[i]) < EndPos(b[i]) || (EndPos(a[i]) == EndPos(b[i]) && !IsNull(a[i]) && IsNull(b[i])));
      assert forall k :: from <= k < i ==> EndPos(a[k]) == EndPos(b[k]) && (IsNull(a[k]) <==> IsNull(b[k]));
    }
  }

  lemma {:induction false} EntriesOrder(a: seq<Word>, b: seq<Word>, from: nat)
    requires |a| == |b| && from <= |a|
    ensures EntriesCompare(a, b, from) < 0 <==> EntriesBefore(a, b, from)
    decreases |a| - from
  {
    if from < |a| {
      EntriesBeforeStep(a, b, from);
      EntriesOrder(a, b, from + 1);
    }
  }

  lemma StoreOrder(a: Store, b: Store)
    requires Paired(a) && Paired(b) && (a.count == 0 ==> a.str == []) && (b.count == 0 ==> b.str == [])
    ensures StoreCompare(a, b) < 0 <==> StoreBefore(a, b)
  {
    CompareIsOrder(a.str, b.str);
    CompareSwap(a.str, b.str);
    if a.count == b.count {
      EntriesOrder(a.entries, b.entries, 0);
    }
  }

  /** -1, 0 or 1 as the first store comes before, equals or comes after the second. */
  method HstoreCmp(hs1: Store, hs2: Store) returns (res: int)
    requires WellFormed(hs1) && WellFormed(hs2)
    ensures res == Sign(StoreCompare(hs1, hs2))
    ensures (res == -1 <==> StoreBefore(hs1, hs2)) && (res == 1 <==> StoreBefore(hs2, hs1)) && -1 <= res <= 1
  {
    EmptyString(hs1);
    EmptyString(hs2);
    StoreOrder(hs1, hs2);
    StoreOrder(hs2, hs1);
    StoreCompareSwap(hs1, hs2);
    res := CmpLaid(hs1, hs2, PairsOf(hs1), PairsOf(hs2));
  }

  lemma EmptyString(s: Store)
    requires WellFormed(s)
    ensures Paired(s) && (s.count == 0 ==> s.str == [])
  {
    assert Flat(PairsOf(s), 0) == [];
  }

  method CmpLaid(hs1: Store, hs2: Store, ghost ps: seq<Pair>, ghost qs: seq<Pair>) returns (res: int)
    requires Laid(hs1, ps) && Laid(hs2, qs)
    ensures res == Sign(StoreCompare(hs1, hs2))
  {
    var hcount1, hcount2 := hs1.count, hs2.count;
    if hcount1 == 0 || hcount2 == 0 {
      return if hcount1 > 0 then 1 else if hcount2 > 0 then -1 else 0;
    }
    LastEntry(hs1, ps);
    LastEntry(hs2, qs);
    MemCompareIs(hs1.str, hs2.str);
    var len1, len2 := EndPos(hs1.entries[2 * hcount1 - 1]), EndPos(hs2.entries[2 * hcount2 - 1]);
    res := Compare(hs1.str[..Min(len1, len2)], hs2.str[..Min(len1, len2)]);
    if res != 0 {
      return if res > 0 then 1 else -1;
    } else if len1 != len2 {
      return if len1 > len2 then 1 else -1;
    } else if hcount1 != hcount2 {
      return if hcount1 > hcount2 then 1 else -1;
    }
    var i := FirstDifference(hs1.entries, hs2.entries);
    if i < hcount1 * 2 {
      res := LastResort(hs1.entries[i], hs2.entries[i]);
    }
  }

  method LastResort(e1: Word, e2: Word) returns (res: int)
    ensures res == Sign(EntryCompare(e1, e2))
  {
    if EndPos(e1) < EndPos(e2) {
      res := -1;
    } else if EndPos(e1) > EndPos(e2) {
      res := 1;
    } else if IsNull(e1) {
      res := if IsNull(e2) then 0 else 1;
    } else {
      res := if IsNull(e2) then -1 else 0;
    }
  }

  /** The last end position is the length of the string. */
  lemma LastEntry(s: Store, ps: seq<Pair>)
    requires Laid(s, ps) && ps != []
    ensures EndPos(s.entries[2 * s.count - 1]) == |s.str|
  {
    EntriesOfFit(ps, s.entries);
    assert EntryFits(ps, s.entries, |ps| - 1);
  }

  // ----- A total order, zero exactly on equal maps -----

  lemma {:induction false} EntriesCompareZero(a: seq<Word>, b: seq<Word>, i: nat)
    requires |a| == |b| && i <= |a| && EntriesCompare(a, b, i) == 0
    ensures forall k :: i <= k < |a| ==> EndPos(a[k]) == EndPos(b[k]) && IsNull(a[k]) == IsNull(b[k])
    decreases |a| - i
  {
    if i < |a| {
      EntriesCompareZero(a, b, i + 1);
    }
  }

  lemma {:induction false} EntriesCompareSame(a: seq<Word>, i: nat)
    requires i <= |a|
    ensures EntriesCompare(a, a, i) == 0
    decreases |a| - i
  {
    if i < |a| {
      EntriesCompareSame(a, i + 1);
    }
  }

  /** Only the first entry is flagged. */
  lemma FlagAt(ps: seq<Pair>, es: seq<Word>, k: nat)
    requires EntriesFit(ps, es) && k < |es|
    ensures IsFirst(es[k]) <==> k == 0
  {
    var i := k / 2;
    assert EntryFits(ps, es, i);
    if k % 2 == 0 {
      assert k == 2 * i;
    } else {
      assert k == 2 * i + 1;
    }
  }

  /** Equal comparison of two layouts means equal words. */
  lemma SameEntries(ps: seq<Pair>, qs: seq<Pair>, a: seq<Word>, b: seq<Word>)
    requires EntriesFit(ps, a) && EntriesFit(qs, b) && |a| == |b| && EntriesCompare(a, b, 0) == 0
    ensures a == b
  {
    EntriesCompareZero(a, b, 0);
    forall k | 0 <= k < |a|
      ensures a[k] == b[k]
    {
      FlagAt(ps, a, k);
      FlagAt(qs, b, k);
      EntryFromFields(a[k]);
      EntryFromFields(b[k]);
    }
  }

  /** The comparison is zero exactly for stores that hold the same map. */
  lemma ZeroIffSameMap(ps: seq<Pair>, qs: seq<Pair>)
    requires SortedPairs(ps) && Fits(ps) && SortedPairs(qs) && Fits(qs)
    ensures StoreCompare(Encode(ps), Encode(qs)) == 0 <==> AsMap(ps) == AsMap(qs)
  {
    var a, b := Encode(ps), Encode(qs);
    CompareSwap(a.str, b.str);
    if StoreCompare(a, b) == 0 {
      EntriesOfFit(ps, a.entries);
      EntriesOfFit(qs, b.entries);
      SameEntries(ps, qs, a.entries, b.entries);
      DecodeEncode(ps);
      DecodeEncode(qs);
      assert a == b;
    }
    if AsMap(ps) == AsMap(qs) {
      MapDetermines(ps, qs);
      EntriesCompareSame(a.entries, 0);
    }
  }

  predicate Opposite(x: int, y: int) {
    (x < 0 <==> y > 0) && (x == 0 <==> y == 0)
  }

  lemma {:induction false} EntriesCompareSwap(a: seq<Word>, b: seq<Word>, i: nat)
    requires |a| == |b| && i <= |a|
    ensures Opposite(EntriesCompare(a, b, i), EntriesCompare(b, a, i))
    decreases |a| - i
  {
    if i < |a| {
      EntriesCompareSwap(a, b, i + 1);
    }
  }

  lemma StoreCompareSwap(a: Store, b: Store)
    requires Paired(a) && Paired(b)
    ensures Opposite(StoreCompare(a, b), StoreCompare(b, a))
  {
    CompareSwap(a.str, b.str);
    if a.count == b.count {
      EntriesCompareSwap(a.entries, b.entries, 0);
    }
  }

  /** Three comparisons that respect transitivity. */
  predicate Chained(ab: int, bc: int, ac: int) {
    && (ab <= 0 && bc <= 0 ==> ac <= 0)
    && (ab <= 0 && bc <= 0 && (ab < 0 || bc < 0) ==> ac < 0)
    && (ab == 0 && bc == 0 ==> ac == 0)
  }

  lemma ChainedThen(ab: int, bc: int, ac: int, ab': int, bc': int, ac': int)
    requires Chained(ab, bc, ac) && (ab == 0 && bc == 0 ==> Chained(ab', bc', ac'))
    ensures Chained(Then(ab, ab'), Then(bc, bc'), Then(ac, ac'))
  {
  }

  lemma EntryCompareChained(a: Word, b: Word, c: Word)
    ensures Chained(EntryCompare(a, b), EntryCompare(b, c), EntryCompare(a, c))
  {
  }

  lemma {:induction false} EntriesCompareChained(a: seq<Word>, b: seq<Word>, c: seq<Word>, i: nat)
    requires |a| == |b| == |c| && i <= |a|
    ensures Chained(EntriesCompare(a, b, i), EntriesCompare(b, c, i), EntriesCompare(a, c, i))
    decreases |a| - i
  {
    if i < |a| {
      EntriesCompareChained(a, b, c, i + 1);
      EntryCompareChained(a[i], b[i], c[i]);
      ChainedThen(EntryCompare(a[i], b[i]), EntryCompare(b[i], c[i]), EntryCompare(a[i], c[i]),
                  EntriesCompare(a, b, i + 1), EntriesCompare(b, c, i + 1), EntriesCompare(a, c, i + 1));
    }
  }

  lemma CompareChained(a: Bytes, b: Bytes, c: Bytes)
    ensures Chained(Compare(a, b), Compare(b, c), Compare(a, c))
  {
    CompareSwap(a, b);
    CompareSwap(b, c);
    if Le(a, b) && Le(b, c) {
      LeTransitive(a, b, c);
    }
  }

  function Tail(a: Store, b: Store): int
    requires Paired(a) && Paired(b)
  {
    Then(a.count - b.count, if a.count == b.count then EntriesCompare(a.entries, b.entries, 0) else 0)
  }

  lemma TailChained(a: Store, b: Store, c: Store)
    requires Paired(a) && Paired(b) && Paired(c)
    ensures Chained(Tail(a, b), Tail(b, c), Tail(a, c))
  {
    if a.count == b.count == c.count {
      EntriesCompareChained(a.entries, b.entries, c.entries, 0);
    }
  }

  /** The comparison is transitive. */
  lemma StoreCompareTransitive(a: Store, b: Store, c: Store)
    requires Paired(a) && Paired(b) && Paired(c)
    ensures Chained(StoreCompare(a, b), StoreCompare(b, c), StoreCompare(a, c))
  {
    TailChained(a, b, c);
    CompareChained(a.str, b.str, c.str);
    ChainedThen(Compare(a.str, b.str), Compare(b.str, c.str), Compare(a.str, c.str), Tail(a, b), Tail(b, c), Tail(a, c));
  }
}
