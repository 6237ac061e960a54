/** hstore/hstore_op.c: operations on packed stores, proved against finite maps. */
module HStoreOps {
  import opened Wrappers
  import opened Sequences
  import opened Bytes
  import opened HStoreFormat
  import opened Memory
  import opened HStoreBuilder
  import opened HStoreMap
  import opened HStoreMerge
  import opened HStorePairs

  /** The layout of some strictly sorted pairs, small enough to be allocated. */
  predicate WellFormed(s: Store) {
    |s.entries| == 2 * s.count &&
    var ps := PairsOf(s);
    s == Encode(ps) && SortedPairs(ps) && Fits(ps)
  }

  /** The finite map a store stands for. */
  function Contents(s: Store): map<Bytes, Option<Bytes>>
    requires WellFormed(s)
  {
    AsMap(PairsOf(s))
  }

  lemma EncodeWellFormed(ps: seq<Pair>)
    requires SortedPairs(ps) && Fits(ps)
    ensures WellFormed(Encode(ps)) && PairsOf(Encode(ps)) == ps && Contents(Encode(ps)) == AsMap(ps)
  {
    DecodeEncode(ps);
  }

  /** Its keys stand in order. */
  lemma WellFormedInOrder(s: Store)
    requires WellFormed(s)
    ensures InOrder(PairsOf(s))
  {
    SortedIsInOrder(PairsOf(s));
  }

  /** s is the layout of ps. */
  ghost predicate Laid(s: Store, ps: seq<Pair>) {
    s == Encode(ps) && Fits(ps)
  }

  /** The accessors on a store. */
  lemma ReadAt(s: Store, ps: seq<Pair>, i: nat)
    requires Laid(s, ps) && i < |ps|
    ensures Key(s, i) == ps[i].key && KeyLen(s, i) == |ps[i].key|
    ensures Val(s, i) == ValueBytes(ps[i]) && ValLen(s, i) == |ValueBytes(ps[i])| && ValIsNull(s, i) == ps[i].val.None?
  {
    EntriesOfFit(ps, s.entries);
    KeyFrom(ps, s, i);
    ValFrom(ps, s, i);
  }

  /** The comparison of two stored keys. */
  method KeyDifference(s1: Store, i: nat, s2: Store, j: nat, ghost p1: seq<Pair>, ghost p2: seq<Pair>) returns (d: int)
    requires Laid(s1, p1) && Laid(s2, p2) && i < |p1| && j < |p2|
    ensures d == Difference(p1, i, p2, j)
  {
    ReadAt(s1, p1, i);
    ReadAt(s2, p2, j);
    if KeyLen(s1, i) == KeyLen(s2, j) {
      d := Compare(Key(s1, i), Key(s2, j));
    } else {
      d := if KeyLen(s1, i) > KeyLen(s2, j) then 1 else -1;
    }
  }

  /** The characters of an item are contiguous. */
  lemma ItemBytes(s: Store, ps: seq<Pair>, i: nat)
    requires Laid(s, ps) && i < |ps|
    ensures Off(s.entries, 2 * i) == End(ps, i) && End(ps, i + 1) <= |s.str|
    ensures End(ps, i + 1) == End(ps, i) + |ps[i].key| + |ValueBytes(ps[i])|
    ensures s.str[End(ps, i)..End(ps, i + 1)] == ps[i].key + ValueBytes(ps[i])
  {
    EntriesOfFit(ps, s.entries);
    OffAt(ps, s.entries, i);
    ItemAt(ps, |ps|, i);
  }

  /** Copy item i of a store into one under construction. */
  method CopyFrom(b: Builder, s: Store, i: nat, ghost ps: seq<Pair>, ghost out: seq<Pair>, ghost out': seq<Pair>)
    requires Laid(s, ps) && i < |ps| && out' == out + [ps[i]]
    requires b.Holds(out) && |out| < b.count
    requires b.dbuf + End(out, |out|) + End(ps, i + 1) - End(ps, i) <= b.mem.Length
    modifies b`dent, b`dptr, b.mem
    ensures b.Holds(out')
    ensures End(out', |out'|) == End(out, |out|) + End(ps, i + 1) - End(ps, i)
  {
    ReadAt(s, ps, i);
    ItemBytes(s, ps, i);
    var klen, vlen, off := KeyLen(s, i), ValLen(s, i), Off(s.entries, 2 * i);
    b.CopyItem(s.str[off..off + klen + vlen], klen, vlen, ValIsNull(s, i), EntriesOf(out, |out|), Flat(out, |out|), ps[i]);
    EncodeExtend(out, ps[i]);
    assert |Flat(out', |out'|)| == |Flat(out, |out|)| + |ps[i].key| + |ValueBytes(ps[i])|;
  }

  // ----- Union -----

  /** The merge of hstore_concat has written out, from the items before positions i and j. */
  ghost predicate Merging(b: Builder, p1: seq<Pair>, i: nat, p2: seq<Pair>, j: nat, out: seq<Pair>)
    reads b, b.mem
  {
    && i <= |p1| && j <= |p2| && b.Holds(out)
    && b.count == |p1| + |p2| && b.mem.Length >= 2 * b.count + End(p1, |p1|) + End(p2, |p2|)
    && |out| <= i + j && End(out, |out|) <= End(p1, i) + End(p2, j)
    && out + Concat(p1, i, p2, j) == Concat(p1, 0, p2, 0)
  }

  /** Copy the item of the first store, whose key comes before the other. */
  method ConcatFirstItem(b: Builder, s1: Store, i: nat, j: nat, ghost p1: seq<Pair>, ghost p2: seq<Pair>, i': nat, ghost out: seq<Pair>)
      returns (ghost out': seq<Pair>)
    requires Laid(s1, p1) && i < |p1| && i' == i + 1 && Merging(b, p1, i, p2, j, out)
    requires j == |p2| || Difference(p1, i, p2, j) < 0
    modifies b`dent, b`dptr, b.mem
    ensures Merging(b, p1, i', p2, j, out') && |out'| == |out| + 1
  {
    EndMonotone(p1, i + 1, |p1|);
    EndMonotone(p2, j, |p2|);
    out' := out + [p1[i]];
    CopyFrom(b, s1, i, p1, out, out');
    Assoc(out, [p1[i]], Concat(p1, i + 1, p2, j));
  }

  /** Copy the item of the second store; skip one of the first with the same key. */
  method ConcatSecondItem(b: Builder, i: nat, s2: Store, j: nat, ghost p1: seq<Pair>, ghost p2: seq<Pair>, i': nat, j': nat,
                          ghost out: seq<Pair>) returns (ghost out': seq<Pair>)
    requires Laid(s2, p2) && j < |p2| && j' == j + 1 && Merging(b, p1, i, p2, j, out)
    requires i == |p1| || Difference(p1, i, p2, j) >= 0
    requires i' == if i < |p1| && Difference(p1, i, p2, j) == 0 then i + 1 else i
    modifies b`dent, b`dptr, b.mem
    ensures Merging(b, p1, i', p2, j', out') && |out'| == |out| + 1
  {
    EndMonotone(p1, i, i');
    EndMonotone(p1, i', |p1|);
    EndMonotone(p2, j + 1, |p2|);
    out' := out + [p2[j]];
    CopyFrom(b, s2, j, p2, out, out');
    Assoc(out, [p2[j]], Concat(p1, i', p2, j + 1));
  }

  /** Which item comes next: the second on a positive result, both on zero. */
  method ConcatDifference(s1: Store, i: nat, s2: Store, j: nat, ghost p1: seq<Pair>, ghost p2: seq<Pair>) returns (d: int)
    requires Laid(s1, p1) && Laid(s2, p2) && i <= |p1| && j <= |p2| && (i < |p1| || j < |p2|)
    ensures d == if i == |p1| then 1 else if j == |p2| then -1 else Difference(p1, i, p2, j)
  {
    if i >= s1.count {
      return 1;
    } else if j >= s2.count {
      return -1;
    }
    d := KeyDifference(s1, i, s2, j, p1, p2);
  }

  /** The body of the merge loop of hstore_concat. */
  method ConcatStep(b: Builder, s1: Store, i: nat, s2: Store, j: nat, ghost p1: seq<Pair>, ghost p2: seq<Pair>, ghost out: seq<Pair>)
      returns (i': nat, j': nat, ghost out': seq<Pair>)
    requires Laid(s1, p1) && Laid(s2, p2) && Merging(b, p1, i, p2, j, out) && (i < |p1| || j < |p2|)
    modifies b`dent, b`dptr, b.mem
    ensures Merging(b, p1, i', p2, j', out') && |out'| == |out| + 1 && i + j < i' + j'
  {
    var difference := ConcatDifference(s1, i, s2, j, p1, p2);
    if difference >= 0 {
      i', j' := if difference == 0 then i + 1 else i, j + 1;
      out' := ConcatSecondItem(b, i, s2, j, p1, p2, i', j', out);
    } else {
      i', j' := i + 1, j;
      out' := ConcatFirstItem(b, s1, i, j, p1, p2, i', out);
    }
  }

  /** The merge loop of hstore_concat. */
  method ConcatLoop(b: Builder, s1: Store, s2: Store, ghost p1: seq<Pair>, ghost p2: seq<Pair>)
      returns (outcount: nat, ghost out: seq<Pair>)
    requires Laid(s1, p1) && Laid(s2, p2) && Merging(b, p1, 0, p2, 0, [])
    modifies b`dent, b`dptr, b.mem
    ensures b.Holds(out) && outcount == |out| && out == Concat(p1, 0, p2, 0)
    ensures |out| <= |p1| + |p2| && End(out, |out|) <= End(p1, |p1|) + End(p2, |p2|)
  {
    var s1idx: nat, s2idx: nat := 0, 0;
    outcount, out := 0, [];
    while s1idx < s1.count || s2idx < s2.count
      invariant Merging(b, p1, s1idx, p2, s2idx, out) && outcount == |out|
      decreases |p1| - s1idx + |p2| - s2idx
    {
      s1idx, s2idx, out := ConcatStep(b, s1, s1idx, s2, s2idx, p1, p2, out);
      outcount := outcount + 1;
    }
  }

  /** Right-biased union. */
  method HstoreConcat(s1: Store, s2: Store) returns (r: Result<Store, Error>)
    requires WellFormed(s1) && WellFormed(s2)
    ensures r.Failure? <==> s1.varsize + s2.varsize > MAX_ALLOC
    ensures r.Success? ==> WellFormed(r.value) && InOrder(PairsOf(r.value)) && Contents(r.value) == Contents(s1) + Contents(s2)
  {
    if s1.varsize + s2.varsize > MAX_ALLOC {
      return Failure(TooLarge);
    }
    if s1.count == 0 {
      WellFormedInOrder(s2);
      return Success(s2);
    }
    if s2.count == 0 {
      WellFormedInOrder(s1);
      return Success(s1);
    }
    ghost var p1, p2 := PairsOf(s1), PairsOf(s2);
    var store := ConcatStores(s1, s2, p1, p2);
    WellFormedInOrder(store);
    r := Success(store);
  }

  method ConcatStores(s1: Store, s2: Store, ghost p1: seq<Pair>, ghost p2: seq<Pair>) returns (r: Store)
    requires Laid(s1, p1) && SortedPairs(p1) && Laid(s2, p2) && SortedPairs(p2) && s1.varsize + s2.varsize <= MAX_ALLOC
    ensures WellFormed(r) && Contents(r) == AsMap(p1) + AsMap(p2)
  {
    var b := new Builder(s1.count + s2.count, |s1.str| + |s2.str|);
    ghost var all := Concat(p1, 0, p2, 0);
    assert [] + all == all;
    var outcount, out := ConcatLoop(b, s1, s2, p1, p2);
    r := b.Finalize(outcount, EntriesOf(out, |out|), Flat(out, |out|));
    Concatenated(p1, p2, out);
  }

  lemma Concatenated(p1: seq<Pair>, p2: seq<Pair>, out: seq<Pair>)
    requires SortedPairs(p1) && SortedPairs(p2) && out == Concat(p1, 0, p2, 0)
    requires CalcDataSize(|p1|, End(p1, |p1|)) + CalcDataSize(|p2|, End(p2, |p2|)) <= MAX_ALLOC
    requires |out| <= |p1| + |p2| && End(out, |out|) <= End(p1, |p1|) + End(p2, |p2|)
    ensures WellFormed(Encode(out)) && Contents(Encode(out)) == AsMap(p1) + AsMap(p2)
  {
    ConcatIsUnion(p1, 0, p2, 0);
    assert p1[0..] == p1 && p2[0..] == p2;
    EncodeWellFormed(out);
  }

  // ----- Removal -----

  /** The merge of a removal has written out, from the items before position i. */
  ghost predicate Removing(b: Builder, ps: seq<Pair>, i: nat, qs: seq<Pair>, j: nat, valuesToo: bool, out: seq<Pair>)
    reads b, b.mem
  {
    && i <= |ps| && j <= |qs| && b.Holds(out)
    && b.count == |ps| && b.mem.Length >= 2 * b.count + End(ps, |ps|)
    && |out| <= i && End(out, |out|) <= End(ps, i)
    && out + Remove(ps, i, qs, j, valuesToo) == Remove(ps, 0, qs, 0, valuesToo)
  }

  /** Pass items that leave nothing. */
  lemma Passed(b: Builder, ps: seq<Pair>, i: nat, i': nat, qs: seq<Pair>, j: nat, j': nat, valuesToo: bool, out: seq<Pair>)
    requires Removing(b, ps, i, qs, j, valuesToo, out) && i <= i' <= |ps| && j' <= |qs|
    requires Remove(ps, i, qs, j, valuesToo) == Remove(ps, i', qs, j', valuesToo)
    ensures Removing(b, ps, i', qs, j', valuesToo, out)
  {
    EndMonotone(ps, i, i');
  }

  /** Copy the item at position i, which stays. */
  method RemoveNot(b: Builder, s: Store, i: nat, j: nat, j': nat, ghost ps: seq<Pair>, ghost qs: seq<Pair>, ghost valuesToo: bool,
                   ghost out: seq<Pair>) returns (ghost out': seq<Pair>)
    requires Laid(s, ps) && i < |ps| && j' <= |qs| && Removing(b, ps, i, qs, j, valuesToo, out)
    requires Remove(ps, i, qs, j, valuesToo) == [ps[i]] + Remove(ps, i + 1, qs, j', valuesToo)
    modifies b`dent, b`dptr, b.mem
    ensures Removing(b, ps, i + 1, qs, j', valuesToo, out') && |out'| == |out| + 1
  {
    EndMonotone(ps, i + 1, |ps|);
    out' := out + [ps[i]];
    CopyFrom(b, s, i, ps, out, out');
    Assoc(out, [ps[i]], Remove(ps, i + 1, qs, j', valuesToo));
  }

  /** The comparison of a stored key with one of a list; negative behind the list. */
  method ArrayDifference(hs: Store, i: nat, keys: seq<RawPair>, j: nat, ghost ps: seq<Pair>) returns (d: int)
    requires Laid(hs, ps) && i < |ps| && j <= |keys|
    ensures d == if j == |keys| then -1 else KeyCompare(ps[i].key, keys[j].key)
  {
    ReadAt(hs, ps, i);
    if j >= |keys| {
      d := -1;
    } else if KeyLen(hs, i) == |keys[j].key| {
      d := Compare(Key(hs, i), keys[j].key);
    } else {
      d := if KeyLen(hs, i) > |keys[j].key| then 1 else -1;
    }
  }

  /** One round of the merge loop of hstore_delete_array. */
  method DeleteArrayStep(b: Builder, hs: Store, i: nat, j: nat, difference: int, ghost ps: seq<Pair>, ghost qs: seq<Pair>,
                         ghost out: seq<Pair>, outcount: nat) returns (i': nat, j': nat, ghost out': seq<Pair>, outcount': nat)
    requires Laid(hs, ps) && i < |ps| && outcount == |out|
    requires Removing(b, ps, i, qs, j, false, out)
    requires difference == if j == |qs| then -1 else Difference(ps, i, qs, j)
    modifies b`dent, b`dptr, b.mem
    ensures Removing(b, ps, i', qs, j', false, out') && outcount' == |out'| && i' + j' > i + j
  {
    i', j', out', outcount' := i, j, out, outcount;
    if difference < 0 {
      out' := RemoveNot(b, hs, i, j, j, ps, qs, false, out);
      i', outcount' := i + 1, outcount + 1;
    } else {
      i', j' := if difference > 0 then i else i + 1, j + 1;
      Passed(b, ps, i, i', qs, j, j', false, out);
    }
  }

  /** The merge loop of hstore_delete_array. */
  method DeleteArrayLoop(b: Builder, hs: Store, keys: seq<RawPair>, ghost ps: seq<Pair>, ghost qs: seq<Pair>)
      returns (outcount: nat, ghost out: seq<Pair>)
    requires Laid(hs, ps) && qs == PairsFrom(keys) && Removing(b, ps, 0, qs, 0, false, [])
    modifies b`dent, b`dptr, b.mem
    ensures b.Holds(out) && outcount == |out| && out == Remove(ps, 0, qs, 0, false)
    ensures |out| <= |ps| && End(out, |out|) <= End(ps, |ps|)
  {
    var i: nat, j: nat := 0, 0;
    outcount, out := 0, [];
    while i < hs.count
      invariant Removing(b, ps, i, qs, j, false, out) && outcount == |out|
      decreases hs.count + |keys| - (i + j)
    {
      var difference := ArrayDifference(hs, i, keys, j, ps);
      i, j, out, outcount := DeleteArrayStep(b, hs, i, j, difference, ps, qs, out, outcount);
    }
  }

  /** Whether two stored values differ, where NULL equals NULL. */
  method ValuesDiffer(s1: Store, i: nat, s2: Store, j: nat, ghost p1: seq<Pair>, ghost p2: seq<Pair>) returns (d: bool)
    requires Laid(s1, p1) && Laid(s2, p2) && i < |p1| && j < |p2|
    ensures d <==> p1[i].val != p2[j].val
  {
    ReadAt(s1, p1, i);
    ReadAt(s2, p2, j);
    d := ValIsNull(s1, i) != ValIsNull(s2, j)
      || (!ValIsNull(s1, i) && (ValLen(s1, i) != ValLen(s2, j) || Compare(Val(s1, i), Val(s2, j)) != 0));
    CompareSwap(Val(s1, i), Val(s2, j));
  }

  /** Of two items with one key, the first stays if the values differ. */
  method DeleteIfEqual(b: Builder, hs: Store, i: nat, hs2: Store, j: nat, ghost ps: seq<Pair>, ghost qs: seq<Pair>, ghost out: seq<Pair>,
                       outcount: nat) returns (outcount': nat, ghost out': seq<Pair>)
    requires Laid(hs, ps) && Laid(hs2, qs) && i < |ps| && j < |qs| && Removing(b, ps, i, qs, j, true, out)
    requires Difference(ps, i, qs, j) == 0 && outcount == |out|
    modifies b`dent, b`dptr, b.mem
    ensures Removing(b, ps, i + 1, qs, j + 1, true, out') && outcount' == |out'|
  {
    outcount', out' := outcount, out;
    var differ := ValuesDiffer(hs, i, hs2, j, ps, qs);
    if differ {
      out' := RemoveNot(b, hs, i, j, j + 1, ps, qs, true, out);
      outcount' := outcount + 1;
    } else {
      Passed(b, ps, i, i + 1, qs, j, j + 1, true, out);
    }
  }

  /** The comparison of two stored keys; negative behind the second store. */
  method StoreDifference(hs: Store, i: nat, hs2: Store, j: nat, ghost ps: seq<Pair>, ghost qs: seq<Pair>) returns (d: int)
    requires Laid(hs, ps) && Laid(hs2, qs) && i < |ps| && j <= |qs|
    ensures d == if j == |qs| then -1 else Difference(ps, i, qs, j)
  {
    if j >= hs2.count {
      return -1;
    }
    d := KeyDifference(hs, i, hs2, j, ps, qs);
  }

  /** One round of the merge loop of hstore_delete_hstore. */
  method DeleteHstoreStep(b: Builder, hs: Store, i: nat, hs2: Store, j: nat, ghost ps: seq<Pair>, ghost qs: seq<Pair>,
                          ghost out: seq<Pair>, outcount: nat) returns (i': nat, j': nat, ghost out': seq<Pair>, outcount': nat)
    requires Laid(hs, ps) && Laid(hs2, qs) && i < |ps| && outcount == |out|
    requires Removing(b, ps, i, qs, j, true, out)
    modifies b`dent, b`dptr, b.mem
    ensures Removing(b, ps, i', qs, j', true, out') && outcount' == |out'| && i' + j' > i + j
  {
    var difference := StoreDifference(hs, i, hs2, j, ps, qs);
    if difference > 0 {
      i', j', out', outcount' := i, j + 1, out, outcount;
      Passed(b, ps, i, i, qs, j, j', true, out);
    } else {
      i', j' := i + 1, if difference == 0 then j + 1 else j;
      outcount', out' := DeleteOrKeep(b, hs, i, i', hs2, j, j', ps, qs, out, outcount);
    }
  }

  /** The item at position i stays unless the second store has the same at position j. */
  method DeleteOrKeep(b: Builder, hs: Store, i: nat, i': nat, hs2: Store, j: nat, j': nat, ghost ps: seq<Pair>, ghost qs: seq<Pair>,
                      ghost out: seq<Pair>, outcount: nat) returns (outcount': nat, ghost out': seq<Pair>)
    requires Laid(hs, ps) && Laid(hs2, qs) && i < |ps| && i' == i + 1 && outcount == |out|
    requires Removing(b, ps, i, qs, j, true, out)
    requires j == |qs| || Difference(ps, i, qs, j) <= 0
    requires j' == if j < |qs| && Difference(ps, i, qs, j) == 0 then j + 1 else j
    modifies b`dent, b`dptr, b.mem
    ensures Removing(b, ps, i', qs, j', true, out') && outcount' == |out'|
  {
    if j' > j {
      outcount', out' := DeleteIfEqual(b, hs, i, hs2, j, ps, qs, out, outcount);
    } else {
      out' := RemoveNot(b, hs, i, j, j, ps, qs, true, out);
      outcount' := outcount + 1;
    }
  }

  /** The merge loop of hstore_delete_hstore. */
  method DeleteHstoreLoop(b: Builder, hs: Store, hs2: Store, ghost ps: seq<Pair>, ghost qs: seq<Pair>)
      returns (outcount: nat, ghost out: seq<Pair>)
    requires Laid(hs, ps) && Laid(hs2, qs) && Removing(b, ps, 0, qs, 0, true, [])
    modifies b`dent, b`dptr, b.mem
    ensures b.Holds(out) && outcount == |out| && out == Remove(ps, 0, qs, 0, true)
    ensures |out| <= |ps| && End(out, |out|) <= End(ps, |ps|)
  {
    var i: nat, j: nat := 0, 0;
    outcount, out := 0, [];
    while i < hs.count
      invariant Removing(b, ps, i, qs, j, true, out) && outcount == |out|
      decreases hs.count + hs2.count - (i + j)
    {
      i, j, out, outcount := DeleteHstoreStep(b, hs, i, hs2, j, ps, qs, out, outcount);
    }
  }

  /** Removal of a set of keys. */
  method HstoreDeleteArray(hs: Store, keyArray: seq<Option<Bytes>>, qsort: seq<RawPair> -> seq<RawPair>) returns (r: Store)
    requires WellFormed(hs) && Sorts(qsort)
    ensures WellFormed(r) && InOrder(PairsOf(r))
    ensures Contents(r) == map k | k in Contents(hs) && Some(k) !in keyArray :: Contents(hs)[k]
  {
    var keys := HstoreArrayToPairs(keyArray, qsort);
    ghost var ps, qs := PairsOf(hs), PairsFrom(keys);
    AllArrayKeys(keyArray, qsort, qs);
    r := DeleteKeys(hs, keys, ps, qs);
    WellFormedInOrder(r);
  }

  lemma AllArrayKeys(keyArray: seq<Option<Bytes>>, qsort: seq<RawPair> -> seq<RawPair>, qs: seq<Pair>)
    requires Sorts(qsort) && qs == PairsFrom(Unique(KeyList(keyArray, |keyArray|), qsort))
    ensures SortedPairs(qs) && forall k :: k in AsMap(qs) <==> Some(k) in keyArray
  {
    UniqueSorted(KeyList(keyArray, |keyArray|), qsort);
    forall k
      ensures k in AsMap(qs) <==> Some(k) in keyArray
    {
      ArrayKeys(keyArray, qsort, k);
    }
  }

  method DeleteKeys(hs: Store, keys: seq<RawPair>, ghost ps: seq<Pair>, ghost qs: seq<Pair>) returns (r: Store)
    requires WellFormed(hs) && ps == PairsOf(hs) && qs == PairsFrom(keys) && SortedPairs(qs)
    ensures WellFormed(r) && Contents(r) == Without(AsMap(ps), AsMap(qs), false)
  {
    if |keys| == 0 {
      return hs;
    }
    r := DeletePairs(hs, keys, ps, qs);
  }

  method DeletePairs(hs: Store, keys: seq<RawPair>, ghost ps: seq<Pair>, ghost qs: seq<Pair>) returns (r: Store)
    requires Laid(hs, ps) && SortedPairs(ps) && qs == PairsFrom(keys) && SortedPairs(qs)
    ensures WellFormed(r) && Contents(r) == Without(AsMap(ps), AsMap(qs), false)
  {
    var b := new Builder(hs.count, |hs.str|);
    ghost var all := Remove(ps, 0, qs, 0, false);
    assert [] + all == all;
    var outcount, out := DeleteArrayLoop(b, hs, keys, ps, qs);
    r := b.Finalize(outcount, EntriesOf(out, |out|), Flat(out, |out|));
    Removed(ps, qs, false, out);
  }

  /** Removal of the pairs of another store. */
  method HstoreDeleteHstore(hs: Store, hs2: Store) returns (r: Store)
    requires WellFormed(hs) && WellFormed(hs2)
    ensures WellFormed(r) && InOrder(PairsOf(r))
    ensures Contents(r) == Without(Contents(hs), Contents(hs2), true)
  {
    if hs2.count == 0 {
      WellFormedInOrder(hs);
      return hs;
    }
    ghost var ps, qs := PairsOf(hs), PairsOf(hs2);
    r := DeleteStore(hs, hs2, ps, qs);
    WellFormedInOrder(r);
  }

  method DeleteStore(hs: Store, hs2: Store, ghost ps: seq<Pair>, ghost qs: seq<Pair>) returns (r: Store)
    requires Laid(hs, ps) && SortedPairs(ps) && Laid(hs2, qs) && SortedPairs(qs)
    ensures WellFormed(r) && Contents(r) == Without(AsMap(ps), AsMap(qs), true)
  {
    var b := new Builder(hs.count, |hs.str|);
    ghost var all := Remove(ps, 0, qs, 0, true);
    assert [] + all == all;
    var outcount, out := DeleteHstoreLoop(b, hs, hs2, ps, qs);
    r := b.Finalize(outcount, EntriesOf(out, |out|), Flat(out, |out|));
    Removed(ps, qs, true, out);
  }

  lemma Removed(ps: seq<Pair>, qs: seq<Pair>, valuesToo: bool, out: seq<Pair>)
    requires SortedPairs(ps) && SortedPairs(qs) && Fits(ps) && out == Remove(ps, 0, qs, 0, valuesToo)
    requires |out| <= |ps| && End(out, |out|) <= End(ps, |ps|)
    ensures WellFormed(Encode(out)) && Contents(Encode(out)) == Without(AsMap(ps), AsMap(qs), valuesToo)
  {
    RemoveIsWithout(ps, 0, qs, 0, valuesToo);
    assert ps[0..] == ps && qs[0..] == qs;
    EncodeWellFormed(out);
  }
}
