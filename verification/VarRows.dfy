/** btree_gist/btree_utils_var.c: exactly when the cut of a page split makes searches lose rows.  The
    consistency test is forgiving, so that fewer splits lose rows than lose coverage. */
module VarRows {
  import opened Bytes
  import opened IndexScan
  import opened VarKey
  import opened VarSplit

  /** No operator with any query that the value satisfies is rejected by the key. */
  ghost predicate Kept(key: Key, v: Bytes) {
    forall s, q :: Satisfies(v, s, q) ==> Consistent(key, q, s, false)
  }

  /** The common prefix is all of the lower bound. */
  predicate LowerIsPrefix(k: Key) {
    PrefixLength(k) == |k.lower|
  }

  lemma CoveredIsKept(key: Key, v: Bytes)
    requires Covers(key, v)
    ensures Kept(key, v)
  {
    forall s, q | Satisfies(v, s, q)
      ensures Consistent(key, q, s, false)
    {
      ConsistentInner(key, q, s, v);
    }
  }

  /** A lower bound that is a prefix of the value and of less than the upper bound keeps it. */
  lemma PrefixKeeps(key: Key, v: Bytes)
    requires IsPrefix(key.lower, v) && Le(key.lower, key.upper) && key.lower != key.upper
    ensures Kept(key, v)
  {
    PrefixLe(key.lower, v);
    forall s, q | Satisfies(v, s, q)
      ensures Consistent(key, q, s, false)
    {
      PrefixConsistent(key, v, s, q);
    }
  }

  lemma PrefixConsistent(key: Key, v: Bytes, s: Strategy, q: Bytes)
    requires IsPrefix(key.lower, v) && Le(key.lower, v) && Le(key.lower, key.upper) && key.lower != key.upper
    requires Satisfies(v, s, q)
    ensures Consistent(key, q, s, false)
  {
    CompareSwap(v, q);
    CompareSwap(key.lower, q);
    match s {
      case Less => LeTransitive(key.lower, v, q);
      case LessEqual => LeTransitive(key.lower, v, q);
      case Equal =>
      case GreaterEqual => BelowOrExtends(key, v, q);
      case Greater => BelowOrExtends(key, v, q);
      case NotEqual =>
    }
  }

  lemma BelowOrExtends(key: Key, v: Bytes, q: Bytes)
    requires IsPrefix(key.lower, v) && Le(q, v) && Le(key.lower, key.upper)
    ensures Le(q, key.upper) || IsPrefix(key.lower, q)
  {
    BelowPrefix(q, v, key.lower);
    if Le(q, key.lower) {
      LeTransitive(q, key.lower, key.upper);
    }
  }

  /** A value that an entry covers and its half's key does not extends the entry's upper bound. */
  lemma LostExtends(k: Key, out: Key, cut: nat, v: Bytes)
    requires Covers(k, v) && Le(out.lower, k.lower) && Le(k.lower, k.upper) && Le(k.upper, out.upper)
    requires cut >= PrefixLength(out) + 1 && !Covers(NodeTruncate(out, cut), v)
    ensures Overshot(k, out.upper, cut) && IsPrefix(k.upper, v)
  {
    if !Overshot(k, out.upper, cut) {
      CoversUnlessOvershot(k, out, cut, v);
    }
    if Le(v, k.upper) {
      LeTransitive(out.lower, k.lower, v);
      LeTransitive(v, k.upper, out.upper);
      TruncateSpans(out, cut, v);
    }
  }

  /** It is kept if the half's lower bound is a prefix of its upper bound. */
  lemma LostIsKept(k: Key, out: Key, cut: nat, v: Bytes)
    requires Overshot(k, out.upper, cut) && IsPrefix(k.upper, v) && Le(out.lower, k.lower) && Le(k.lower, k.upper)
    requires cut >= PrefixLength(out) + 1 && LowerIsPrefix(out)
    ensures Kept(NodeTruncate(out, cut), v)
  {
    var p := PrefixLength(out);
    ShownPastPrefix(k, out);
    CommonPrefixAgrees(out.lower, out.upper);
    assert out.lower[..p] == out.lower;
    PrefixesNest(out.lower, k.upper, out.upper);
    PrefixTransitive(out.lower, k.upper, v);
    CutIsPrefix(out.upper, cut + 1);
    PrefixesNest(out.lower, Cut(out.upper, cut + 1), out.upper);
    PrefixLe(out.lower, Cut(out.upper, cut + 1));
    PrefixKeeps(NodeTruncate(out, cut), v);
  }

  /** Otherwise an equality search loses the value past the half's upper bound. */
  lemma LostIsMissed(k: Key, out: Key, cut: nat) returns (v: Bytes)
    requires Overshot(k, out.upper, cut) && Le(out.lower, k.lower) && Le(k.lower, k.upper)
    requires cut >= PrefixLength(out) + 1 && !LowerIsPrefix(out)
    ensures Covers(k, v) && !Consistent(NodeTruncate(out, cut), v, Equal, false)
  {
    v := LostValue(k, out, cut);
    ShownPastPrefix(k, out);
    PrefixLe(k.upper, out.upper);
    LostExtends(k, out, cut, v);
    CutIsPrefix(out.lower, cut + 1);
    LeTransitive(out.lower, k.lower, v);
    LeTransitive(Cut(out.lower, cut + 1), out.lower, v);
    DiffersPastPrefix(k, out, cut, v);
  }

  /** The value differs from the lower bound where the bounds part. */
  lemma DiffersPastPrefix(k: Key, out: Key, cut: nat, v: Bytes)
    requires IsPrefix(k.upper, out.upper) && |k.upper| >= PrefixLength(out) + 2 && cut >= PrefixLength(out) + 1
    requires !LowerIsPrefix(out) && IsPrefix(k.upper, v)
    ensures !IsPrefix(Cut(out.lower, cut + 1), v)
  {
    var p, c := PrefixLength(out), Cut(out.lower, cut + 1);
    CommonPrefixAgrees(out.lower, out.upper);
    TakeEqual(k.upper, v, |k.upper|, p);
    TakeEqual(k.upper, out.upper, |k.upper|, p);
    assert c[p] != v[p];
    assert |c| <= |v| ==> v[..|c|][p] == v[p];
  }

  /** The half's lower bound is a prefix of its upper bound, or no entry is overshot. */
  predicate Searchable(half: seq<Key>, cut: nat)
    requires half != []
  {
    LowerIsPrefix(Bounds(half)) || forall k :: k in half ==> !Overshot(k, Bounds(half).upper, cut)
  }

  lemma EntryKept(half: seq<Key>, cut: nat, k: Key, v: Bytes)
    requires k in half && Le(k.lower, k.upper) && Covers(k, v)
    requires cut >= PrefixLength(Bounds(half)) + 1 && Searchable(half, cut)
    ensures Kept(NodeTruncate(Bounds(half), cut), v)
  {
    var out := Bounds(half);
    var i :| 0 <= i < |half| && half[i] == k;
    BoundsEnclose(half, i);
    if Covers(NodeTruncate(out, cut), v) {
      CoveredIsKept(NodeTruncate(out, cut), v);
    } else {
      LostExtends(k, out, cut, v);
      LostIsKept(k, out, cut, v);
    }
  }

  /** No operator with any query misses a value that an entry of the half covers if and only if
      no entry is overshot or the half's lower bound is a prefix of its upper bound. */
  lemma PicksplitRowsIff(half: seq<Key>, cut: nat)
    requires half != [] && forall k :: k in half ==> Le(k.lower, k.upper)
    requires cut >= PrefixLength(Bounds(half)) + 1
    ensures (forall k, v, s, q :: k in half && Covers(k, v) && Satisfies(v, s, q)
                                  ==> Consistent(NodeTruncate(Bounds(half), cut), q, s, false))
       <==> Searchable(half, cut)
  {
    var key := NodeTruncate(Bounds(half), cut);
    if Searchable(half, cut) {
      forall k, v, s, q | k in half && Covers(k, v) && Satisfies(v, s, q)
        ensures Consistent(key, q, s, false)
      {
        EntryKept(half, cut, k, v);
      }
    } else {
      var k, v := MissedEntry(half, cut);
      assert Satisfies(v, Equal, v);
    }
  }

  lemma MissedEntry(half: seq<Key>, cut: nat) returns (k: Key, v: Bytes)
    requires half != [] && forall k :: k in half ==> Le(k.lower, k.upper)
    requires cut >= PrefixLength(Bounds(half)) + 1 && !Searchable(half, cut)
    ensures k in half && Covers(k, v) && !Consistent(NodeTruncate(Bounds(half), cut), v, Equal, false)
  {
    k :| k in half && Overshot(k, Bounds(half).upper, cut);
    var i :| 0 <= i < |half| && half[i] == k;
    BoundsEnclose(half, i);
    v := LostIsMissed(k, Bounds(half), cut);
  }

  // ----- Searches of the halves -----

  /** All searches of the tree return exactly the matching rows. */
  ghost predicate SearchesExact(t: KeyTree) {
    forall s, q :: Search(t, s, q) == Filter(Values(t), v => Satisfies(v, s, q))
  }

  /** Searches of a tree whose keys keep the values below them are exact. */
  lemma KeptSearchExact(t: KeyTree)
    requires Sound(t, Ordered, Kept)
    ensures SearchesExact(t)
  {
    forall s, q
      ensures Search(t, s, q) == Filter(Values(t), v => Satisfies(v, s, q))
    {
      KeptSearch(t, s, q);
    }
  }

  lemma KeptSearch(t: KeyTree, s: Strategy, q: Bytes)
    requires Sound(t, Ordered, Kept)
    ensures Search(t, s, q) == Filter(Values(t), v => Satisfies(v, s, q))
  {
    var matches := v => Satisfies(v, s, q);
    var leaf := v => Consistent(LeafKey(v), q, s, true);
    var inner := k => Consistent(k, q, s, false);
    forall v | v in Values(t)
      ensures leaf(v) == matches(v)
    {
      ConsistentLeaf(q, s, v);
    }
    ScanExact(t, Ordered, Kept, matches, leaf, inner);
  }

  lemma HalfKept(half: seq<KeyTree>, cut: nat)
    requires half != [] && SoundPage(half, Ordered, Covers) && Searchable(Keys(half), cut)
    requires cut >= PrefixLength(Bounds(Keys(half))) + 1
    ensures Sound(Inner(NodeTruncate(Bounds(Keys(half)), cut), half), Ordered, Kept)
  {
    var ks := Keys(half);
    var key := NodeTruncate(Bounds(ks), cut);
    KeysOrdered(half);
    BoundsOrdered(ks);
    TruncateOrdered(Bounds(ks), cut);
    forall k, v | Ordered(k) && Covers(k, v)
      ensures Kept(k, v)
    {
      CoveredIsKept(k, v);
    }
    SoundPageWeaker(half, Ordered, Covers, Kept);
    forall v | v in PageValues(half)
      ensures Kept(key, v)
    {
      var i := PageValueFrom(half, v);
      SoundPageAt(half, i, Ordered, Covers);
      KeyCoversValues(half[i], v);
      assert ks[i] in ks;
      EntryKept(ks, cut, ks[i], v);
    }
  }

  lemma KeysOrdered(half: seq<KeyTree>)
    requires SoundPage(half, Ordered, Covers)
    ensures forall k :: k in Keys(half) ==> Le(k.lower, k.upper)
  {
    var ks := Keys(half);
    forall k | k in ks
      ensures Le(k.lower, k.upper)
    {
      var i :| 0 <= i < |ks| && ks[i] == k;
      SoundPageAt(half, i, Ordered, Covers);
      CompareReflexive(k.lower);
    }
  }

  /** A subtree with a given key that holds one value. */
  function Stub(k: Key, v: Bytes): KeyTree {
    Inner(k, [Leaf(v)])
  }

  lemma StubSound(k: Key, v: Bytes)
    requires Le(k.lower, k.upper) && Covers(k, v)
    ensures Sound(Stub(k, v), Ordered, Covers) && Values(Stub(k, v)) == [v]
  {
    var leaf: KeyTree := Leaf(v);
    PageOfOne(leaf, Ordered, Covers);
  }

  /** A page with given keys that holds one value below each: v below k, the lower bound below
      the others. */
  function Stubs(ks: seq<Key>, k: Key, v: Bytes): (page: seq<KeyTree>)
    ensures |page| == |ks|
  {
    if ks == [] then [] else [Stub(ks[0], if ks[0] == k then v else ks[0].lower)] + Stubs(ks[1..], k, v)
  }

  lemma {:induction false} StubsSound(ks: seq<Key>, k: Key, v: Bytes)
    requires (forall x :: x in ks ==> Le(x.lower, x.upper)) && Covers(k, v)
    ensures SoundPage(Stubs(ks, k, v), Ordered, Covers) && Keys(Stubs(ks, k, v)) == ks
    ensures k in ks ==> v in PageValues(Stubs(ks, k, v))
  {
    if ks != [] {
      CompareReflexive(ks[0].lower);
      StubSound(ks[0], if ks[0] == k then v else ks[0].lower);
      StubsSound(ks[1..], k, v);
      var page := Stubs(ks, k, v);
      assert page[1..] == Stubs(ks[1..], k, v);
      assert Keys(page) == [KeyOf(page[0])] + Keys(page[1..]);
    }
  }

  lemma {:induction false} FilterKeeps(vs: seq<Bytes>, v: Bytes, matches: Bytes -> bool)
    requires v in vs && matches(v)
    ensures v in Filter(vs, matches)
  {
    if vs[0] != v {
      FilterKeeps(vs[1..], v, matches);
    }
  }

  /** The search for v stops at the key. */
  lemma StopsAtKey(key: Key, page: seq<KeyTree>, v: Bytes)
    requires v in PageValues(page) && !Consistent(key, v, Equal, false)
    ensures !SearchesExact(Inner(key, page))
  {
    var t := Inner(key, page);
    FilterKeeps(Values(t), v, w => Satisfies(w, Equal, v));
    assert Search(t, Equal, v) == [];
  }

  /** Every search below the cut key is exact, whatever sound subtrees stand under the entries'
      keys, if and only if no entry is overshot or the half's lower bound is a prefix of its
      upper bound. */
  lemma SplitSearchIff(ks: seq<Key>, cut: nat)
    requires ks != [] && forall k :: k in ks ==> Le(k.lower, k.upper)
    requires cut >= PrefixLength(Bounds(ks)) + 1
    ensures (forall half :: SoundPage(half, Ordered, Covers) && Keys(half) == ks
                            ==> SearchesExact(Inner(NodeTruncate(Bounds(ks), cut), half)))
       <==> Searchable(ks, cut)
  {
    var key := NodeTruncate(Bounds(ks), cut);
    if Searchable(ks, cut) {
      forall half | SoundPage(half, Ordered, Covers) && Keys(half) == ks
        ensures SearchesExact(Inner(key, half))
      {
        HalfSearchesExact(half, key, cut);
      }
    } else {
      var k, v := MissedEntry(ks, cut);
      StubsSound(ks, k, v);
      StopsAtKey(key, Stubs(ks, k, v), v);
    }
  }

  lemma HalfSearchesExact(half: seq<KeyTree>, key: Key, cut: nat)
    requires half != [] && SoundPage(half, Ordered, Covers) && Searchable(Keys(half), cut)
    requires cut >= PrefixLength(Bounds(Keys(half))) + 1 && key == NodeTruncate(Bounds(Keys(half)), cut)
    ensures SearchesExact(Inner(key, half))
  {
    HalfKept(half, cut);
    KeptSearchExact(Inner(key, half));
  }

  /** So it is for the two halves of a page and the keys of its split. */
  lemma PicksplitSearches(page: seq<KeyTree>, left: seq<KeyTree>, right: seq<KeyTree>, v: SplitVec, cut: nat)
    requires |page| >= 2 && SoundPage(page, Ordered, Covers) && HasSplitKeys(v, Keys(page))
    requires left == page[..|page| / 2] && right == page[|page| / 2..]
    requires cut == SplitCut(Bounds(Keys(left)), Bounds(Keys(right)))
    ensures Searchable(Keys(left), cut) ==> SearchesExact(Inner(v.leftKey, left))
    ensures Searchable(Keys(right), cut) ==> SearchesExact(Inner(v.rightKey, right))
  {
    PageHalves(page, left, right);
    SplitKeys(Keys(page), Keys(left), Keys(right), v, cut);
    if Searchable(Keys(left), cut) {
      HalfSearchesExact(left, v.leftKey, cut);
    }
    if Searchable(Keys(right), cut) {
      HalfSearchesExact(right, v.rightKey, cut);
    }
  }
}
