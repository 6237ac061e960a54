/** btree_gist/btree_utils_var.c: splitting a page of variable-length keys. */
module VarSplit {
  import opened Bytes
  import opened Wrappers
  import opened IndexScan
  import opened VarKey

  predicate VsrtLe(a: Key, b: Key) {
    if a.lower == b.lower then Compare(a.upper, b.upper) <= 0 else Compare(a.lower, b.lower) < 0
  }

  datatype SplitVec = SplitVec(left: seq<int>, right: seq<int>, leftKey: Key, rightKey: Key)

  /** An entry number with its key, as the sort moves them around together. */
  datatype Vsrt<K> = Vsrt(i: int, t: K)

  /** The entry numbers at positions lo..hi of the sorted page. */
  predicate AreNumbers<K>(numbers: seq<int>, arr: seq<Vsrt<K>>, lo: nat, hi: nat)
    requires lo <= hi <= |arr|
  {
    |numbers| == hi - lo && forall k :: 0 <= k < hi - lo ==> numbers[k] == arr[lo + k].i
  }

  /** The datum of a half after the entries lo..hi of the sorted page. */
  function Accumulated<K>(arr: seq<Vsrt<K>>, lo: nat, hi: nat, add: (Option<K>, K) -> Option<K>): Option<K>
    requires lo <= hi <= |arr|
  {
    if lo == hi then None else add(Accumulated(arr, lo, hi - 1, add), arr[hi - 1].t)
  }

  /** The first half of the sorted entries goes left, the rest right; add is the union of a
      half's datum, NULL until its first entry arrives, with one more key. */
  method Distribute<K>(arr: seq<Vsrt<K>>, add: (Option<K>, K) -> Option<K>)
      returns (left: seq<int>, right: seq<int>, ldatum: Option<K>, rdatum: Option<K>)
    ensures AreNumbers(left, arr, 0, |arr| / 2) && AreNumbers(right, arr, |arr| / 2, |arr|)
    ensures ldatum == Accumulated(arr, 0, |arr| / 2, add)
    ensures rdatum == Accumulated(arr, |arr| / 2, |arr|, add)
  {
    var maxoff, half := |arr|, |arr| / 2;
    left, right, ldatum, rdatum := [], [], None, None;
    var i := 1;
    while i <= maxoff
      invariant 1 <= i <= maxoff + 1
      invariant AreNumbers(left, arr, 0, Min(i - 1, half)) && AreNumbers(right, arr, half, Max(i - 1, half))
      invariant ldatum == Accumulated(arr, 0, Min(i - 1, half), add)
      invariant rdatum == Accumulated(arr, half, Max(i - 1, half), add)
    {
      if i <= half {
        ldatum := add(ldatum, arr[i - 1].t);
        left := left + [arr[i - 1].i];
      } else {
        rdatum := add(rdatum, arr[i - 1].t);
        right := right + [arr[i - 1].i];
      }
      i := i + 1;
    }
  }

  function AddToDatum(u: Option<Key>, e: Key): Option<Key> {
    if u.Some? then Some(BinUnion(u.value, e)) else Some(e)
  }

  function SortedKeys(arr: seq<Vsrt<Key>>): (r: seq<Key>)
    ensures |r| == |arr| && forall j :: 0 <= j < |arr| ==> r[j] == arr[j].t
  {
    seq(|arr|, j requires 0 <= j < |arr| => arr[j].t)
  }

  /** The bounds of a stretch of entries, if there are any. */
  function BoundsOf(ks: seq<Key>, lo: nat, hi: nat): Option<Key>
    requires lo <= hi <= |ks|
  {
    if lo == hi then None else Some(Bounds(ks[lo..hi]))
  }

  lemma BoundsNext(ks: seq<Key>, lo: nat, n: nat, hi: nat, before: Option<Key>, x: Key)
    requires lo <= n < hi == n + 1 <= |ks| && before == BoundsOf(ks, lo, n) && x == ks[n]
    ensures BoundsOf(ks, lo, hi) == AddToDatum(before, x)
  {
    assert ks[lo..hi][..n - lo] == ks[lo..n];
  }

  lemma DatumNext(arr: seq<Vsrt<Key>>, lo: nat, n: nat, hi: nat, before: Option<Key>, x: Key)
    requires lo <= n < hi == n + 1 <= |arr| && before == Accumulated(arr, lo, n, AddToDatum) && x == arr[n].t
    ensures Accumulated(arr, lo, hi, AddToDatum) == AddToDatum(before, x)
  {
  }

  lemma {:induction false} AccumulatedBounds(arr: seq<Vsrt<Key>>, lo: nat, hi: nat, ks: seq<Key>)
    requires lo <= hi <= |arr| == |ks| && forall k :: 0 <= k < |ks| ==> ks[k] == arr[k].t
    ensures Accumulated(arr, lo, hi, AddToDatum) == BoundsOf(ks, lo, hi)
  {
    if lo < hi {
      var n, x := hi - 1, ks[hi - 1];
      var before := BoundsOf(ks, lo, n);
      AccumulatedBounds(arr, lo, n, ks);
      BoundsNext(ks, lo, n, hi, before, x);
      DatumNext(arr, lo, n, hi, before, x);
    }
  }

  /** The cut both keys get. */
  function SplitCut(l: Key, r: Key): nat {
    Max(PrefixLength(l), PrefixLength(r)) + 1
  }

  /** Each half has its bounds, cut past the longer of the two common prefixes. */
  predicate HasSplitKeys(v: SplitVec, ks: seq<Key>)
    requires |ks| >= 2
  {
    var l, r := Bounds(ks[..|ks| / 2]), Bounds(ks[|ks| / 2..]);
    v.leftKey == NodeTruncate(l, SplitCut(l, r)) && v.rightKey == NodeTruncate(r, SplitCut(l, r))
  }

  /** Splits the page whose entries the sort left in arr, and cuts both keys at the longer
      of the two common prefixes. */
  method VarPicksplit(arr: seq<Vsrt<Key>>) returns (v: SplitVec)
    requires |arr| >= 2
    ensures AreNumbers(v.left, arr, 0, |arr| / 2) && AreNumbers(v.right, arr, |arr| / 2, |arr|)
    ensures HasSplitKeys(v, SortedKeys(arr))
  {
    ghost var ks := SortedKeys(arr);
    assert ks[..|ks| / 2] == ks[0..|arr| / 2] && ks[|ks| / 2..] == ks[|arr| / 2..|arr|];
    var left, right, ldatum, rdatum := Distribute(arr, AddToDatum);
    AccumulatedBounds(arr, 0, |arr| / 2, ks);
    AccumulatedBounds(arr, |arr| / 2, |arr|, ks);
    var ll := NodeCpLen(ldatum.value);
    var lr := NodeCpLen(rdatum.value);
    var cut := Max(ll, lr) + 1;
    v := SplitVec(left, right, NodeTruncate(ldatum.value, cut), NodeTruncate(rdatum.value, cut));
  }

  /** A leaf page splits safely: each half's key covers each of its values. */
  lemma PicksplitLeafPage(half: seq<Key>, cut: nat, i: nat)
    requires i < |half| && half[i] == LeafKey(half[i].lower)
    requires cut >= PrefixLength(Bounds(half)) + 1
    ensures Covers(NodeTruncate(Bounds(half), cut), half[i].lower)
  {
    BoundsEnclose(half, i);
    TruncateSpans(Bounds(half), cut, half[i].lower);
  }

  /** The entry's upper bound is long enough to stand for its extensions, and the upper bound of
      its half, as far as the cut leaves it, continues it with something other than bytes 255. */
  predicate Overshot(entry: Key, upper: Bytes, cut: nat) {
    && |entry.upper| >= PrefixLength(entry) + 2
    && IsPrefix(entry.upper, upper)
    && exists j :: |entry.upper| <= j < |upper| && j <= cut && upper[j] < 255
  }

  /** Cutting the key of a half at least two bytes past its common prefix keeps every value
      covered, whatever values the entries cover, exactly when no entry is overshot. */
  lemma PicksplitInnerPage(half: seq<Key>, cut: nat)
    requires half != [] && forall k :: k in half ==> Le(k.lower, k.upper)
    requires cut >= PrefixLength(Bounds(half)) + 1
    ensures (forall k, v :: k in half && Covers(k, v) ==> Covers(NodeTruncate(Bounds(half), cut), v))
       <==> (forall k :: k in half ==> !Overshot(k, Bounds(half).upper, cut))
  {
    var out := Bounds(half);
    if forall k :: k in half ==> !Overshot(k, out.upper, cut) {
      forall k, v | k in half && Covers(k, v)
        ensures Covers(NodeTruncate(out, cut), v)
      {
        var i :| 0 <= i < |half| && half[i] == k;
        BoundsEnclose(half, i);
        CoversUnlessOvershot(k, out, cut, v);
      }
    }
    forall k | k in half && Overshot(k, out.upper, cut)
      ensures exists v :: Covers(k, v) && !Covers(NodeTruncate(out, cut), v)
    {
      var v := LostValue(k, out, cut);
    }
  }

  lemma CoversUnlessOvershot(k: Key, out: Key, cut: nat, v: Bytes)
    requires Covers(k, v) && Le(out.lower, k.lower) && Le(k.lower, k.upper) && Le(k.upper, out.upper)
    requires cut >= PrefixLength(out) + 1 && !Overshot(k, out.upper, cut)
    ensures Covers(NodeTruncate(out, cut), v)
  {
    LeTransitive(out.lower, k.lower, v);
    if Le(v, k.upper) {
      LeTransitive(v, k.upper, out.upper);
      TruncateSpans(out, cut, v);
    } else if !IsPrefix(k.upper, out.upper) {
      ExtensionBelow(v, k.upper, out.upper);
      TruncateSpans(out, cut, v);
    } else {
      ExtensionStaysCovered(k, out, cut, v);
    }
  }

  /** The value extends the entry's upper bound, and so does the upper bound of the half. */
  lemma ExtensionStaysCovered(k: Key, out: Key, cut: nat, v: Bytes)
    requires Le(out.lower, k.lower) && Le(k.lower, k.upper) && Le(k.lower, v)
    requires IsPrefix(k.upper, v) && IsPrefix(k.upper, out.upper) && |k.upper| >= PrefixLength(k) + 2
    requires cut >= PrefixLength(out) + 1 && !Overshot(k, out.upper, cut)
    ensures Covers(NodeTruncate(out, cut), v)
  {
    var u := Cut(out.upper, cut + 1);
    CutIsPrefix(out.upper, cut + 1);
    CutIsPrefix(out.lower, cut + 1);
    LeTransitive(out.lower, k.lower, v);
    LeTransitive(Cut(out.lower, cut + 1), out.lower, v);
    ShownPastPrefix(k, out);
    TruncateKeepsPrefixLength(out, cut);
    if |u| <= |k.upper| {
      PrefixesNest(u, k.upper, out.upper);
      PrefixTransitive(u, k.upper, v);
    } else {
      PrefixesNest(k.upper, u, out.upper);
      BelowAllOnes(k.upper, u, v);
    }
  }

  /** A wider key has no longer common prefix, so the entry's upper bound shows at least two
      bytes beyond it. */
  lemma ShownPastPrefix(k: Key, out: Key)
    requires Le(out.lower, k.lower) && Le(k.lower, k.upper) && IsPrefix(k.upper, out.upper)
    requires |k.upper| >= PrefixLength(k) + 2
    ensures |k.upper| >= PrefixLength(out) + 2
  {
    CommonPrefixAgrees(k.lower, k.upper);
    CommonPrefixAgreement(k, out.upper);
    PrefixLe(k.upper, out.upper);
    LeTransitive(k.lower, k.upper, out.upper);
    CommonPrefixMonotone(out.lower, k.lower, out.upper);
  }

  /** Nothing that extends p lies above p followed by bytes 255 without extending that too. */
  lemma BelowAllOnes(p: Bytes, u: Bytes, v: Bytes)
    requires IsPrefix(p, u) && IsPrefix(p, v)
    requires forall j :: |p| <= j < |u| ==> u[j] == 255
    ensures Le(v, u) || IsPrefix(u, v)
  {
    var k := CommonPrefix(v, u);
    CommonPrefixAgrees(v, u);
    CommonPrefixAt(v, u, |p|);
    if k == |u| {
      assert u[..k] == u;
    }
  }

  /** The witness: the entry's upper bound continued past the half's upper bound. */
  lemma LostValue(k: Key, out: Key, cut: nat) returns (v: Bytes)
    requires Le(k.lower, k.upper) && Overshot(k, out.upper, cut)
    ensures Covers(k, v) && !Spans(NodeTruncate(out, cut), v)
  {
    var j :| |k.upper| <= j < |out.upper| && j <= cut && out.upper[j] < 255;
    var u := Cut(out.upper, cut + 1);
    v := u[..j] + [255];
    assert u[..j] == out.upper[..j] && u[j] == out.upper[j];
    assert v[..|k.upper|] == out.upper[..|k.upper|];
    PrefixLe(k.upper, v);
    LeTransitive(k.lower, k.upper, v);
    assert v[..j] == u[..j];
    CommonPrefixAt(v, u, j);
    assert v[..|v|] == v;
  }

  /** No entry of a half is overshot when the cut is the half's own, so only the half with the
      shorter common prefix can lose values. */
  lemma OwnCutIsSafe(half: seq<Key>, cut: nat)
    requires half != [] && forall k :: k in half ==> Le(k.lower, k.upper)
    requires cut == PrefixLength(Bounds(half)) + 1
    ensures forall k :: k in half ==> !Overshot(k, Bounds(half).upper, cut)
  {
    forall k | k in half && |k.upper| >= PrefixLength(k) + 2 && IsPrefix(k.upper, Bounds(half).upper)
      ensures |k.upper| > cut
    {
      var i :| 0 <= i < |half| && half[i] == k;
      BoundsEnclose(half, i);
      ShownPastPrefix(k, Bounds(half));
    }
  }

  /** A leaf entry is never overshot. */
  lemma LeafNotOvershot(v: Bytes, upper: Bytes, cut: nat)
    ensures !Overshot(LeafKey(v), upper, cut)
  {
    assert v[..|v|] == v;
    CommonPrefixAt(v, v, |v|);
  }

  // ----- The two halves as subtrees -----

  /** A half under its cut key is a sound subtree, if none of its entries is overshot. */
  lemma HalfSound(half: seq<KeyTree>, cut: nat)
    requires half != [] && SoundPage(half, Ordered, Covers)
    requires cut >= PrefixLength(Bounds(Keys(half))) + 1
    requires forall k :: k in Keys(half) ==> !Overshot(k, Bounds(Keys(half)).upper, cut)
    ensures Sound(Inner(NodeTruncate(Bounds(Keys(half)), cut), half), Ordered, Covers)
  {
    var ks := Keys(half);
    var out := Bounds(ks);
    forall k | k in ks
      ensures Le(k.lower, k.upper)
    {
      var i :| 0 <= i < |ks| && ks[i] == k;
      SoundPageAt(half, i, Ordered, Covers);
      CompareReflexive(k.lower);
    }
    BoundsOrdered(ks);
    TruncateOrdered(out, cut);
    forall v | v in PageValues(half)
      ensures Covers(NodeTruncate(out, cut), v)
    {
      var i := PageValueFrom(half, v);
      SoundPageAt(half, i, Ordered, Covers);
      KeyCoversValues(half[i], v);
      BoundsEnclose(ks, i);
      CoversUnlessOvershot(ks[i], out, cut, v);
    }
  }

  /** A half is sound under its key if none of its entries is overshot, which is so for its own
      cut, and for leaves. */
  ghost predicate HalfIsSound(half: seq<KeyTree>, key: Key, cut: nat)
    requires half != []
  {
    && (Safe(half, cut) ==> Sound(Inner(key, half), Ordered, Covers))
    && (cut == PrefixLength(Bounds(Keys(half))) + 1 ==> Safe(half, cut))
    && (AllLeaves(half) ==> Safe(half, cut))
  }

  /** A page splits into two subtrees under the keys of the split.  Each is sound if none of its
      entries is overshot; that is so for the half with the longer common prefix, whose cut is its
      own, and for both halves of a page of leaves. */
  lemma PicksplitSound(page: seq<KeyTree>, v: SplitVec, h: nat)
    requires |page| >= 2 && SoundPage(page, Ordered, Covers) && HasSplitKeys(v, Keys(page)) && h == |page| / 2
    ensures var l, r := Bounds(Keys(page[..h])), Bounds(Keys(page[h..]));
      HalfIsSound(page[..h], v.leftKey, SplitCut(l, r)) && HalfIsSound(page[h..], v.rightKey, SplitCut(l, r))
    ensures AllLeaves(page) ==> AllLeaves(page[..h]) && AllLeaves(page[h..])
  {
    HalvesSound(page, page[..h], page[h..], v);
  }

  lemma HalvesSound(page: seq<KeyTree>, left: seq<KeyTree>, right: seq<KeyTree>, v: SplitVec)
    requires |page| >= 2 && SoundPage(page, Ordered, Covers) && HasSplitKeys(v, Keys(page))
    requires left == page[..|page| / 2] && right == page[|page| / 2..]
    ensures HalfIsSound(left, v.leftKey, SplitCut(Bounds(Keys(left)), Bounds(Keys(right))))
    ensures HalfIsSound(right, v.rightKey, SplitCut(Bounds(Keys(left)), Bounds(Keys(right))))
  {
    var cut := SplitCut(Bounds(Keys(left)), Bounds(Keys(right)));
    PageHalves(page, left, right);
    SplitKeys(Keys(page), Keys(left), Keys(right), v, cut);
    HalfCases(left, v.leftKey, cut);
    HalfCases(right, v.rightKey, cut);
  }

  lemma PageHalves(page: seq<KeyTree>, left: seq<KeyTree>, right: seq<KeyTree>)
    requires SoundPage(page, Ordered, Covers) && left == page[..|page| / 2] && right == page[|page| / 2..]
    ensures SoundPage(left, Ordered, Covers) && SoundPage(right, Ordered, Covers)
    ensures Keys(left) == Keys(page)[..|Keys(page)| / 2] && Keys(right) == Keys(page)[|Keys(page)| / 2..]
  {
    KeysOfHalves(page, left, right);
    assert page == left + right;
    SoundPageAppend(left, right, Ordered, Covers);
  }

  lemma SplitKeys(ks: seq<Key>, left: seq<Key>, right: seq<Key>, v: SplitVec, cut: nat)
    requires |ks| >= 2 && HasSplitKeys(v, ks) && left == ks[..|ks| / 2] && right == ks[|ks| / 2..]
    requires cut == SplitCut(Bounds(left), Bounds(right))
    ensures v.leftKey == NodeTruncate(Bounds(left), cut) && v.rightKey == NodeTruncate(Bounds(right), cut)
    ensures cut >= PrefixLength(Bounds(left)) + 1 && cut >= PrefixLength(Bounds(right)) + 1
  {
  }

  lemma KeysOfHalves(page: seq<KeyTree>, left: seq<KeyTree>, right: seq<KeyTree>)
    requires left == page[..|page| / 2] && right == page[|page| / 2..]
    ensures Keys(page)[..|Keys(page)| / 2] == Keys(left) && Keys(page)[|Keys(page)| / 2..] == Keys(right)
  {
  }

  /** However the sort reorders the entries, the two halves hold exactly the values of the page,
      and what is sound stays so. */
  lemma PicksplitKeepsValues(page: seq<KeyTree>, sorted: seq<KeyTree>, h: nat)
    requires multiset(sorted) == multiset(page) && h <= |sorted|
    ensures multiset(PageValues(sorted[..h])) + multiset(PageValues(sorted[h..])) == multiset(PageValues(page))
    ensures SoundPage(page, Ordered, Covers) <==> SoundPage(sorted, Ordered, Covers)
  {
    PageReordered(page, sorted, Ordered, Covers);
    assert sorted == sorted[..h] + sorted[h..];
    PageValuesAppend(sorted[..h], sorted[h..]);
  }

  /** No entry of a half is overshot. */
  predicate Safe(half: seq<KeyTree>, cut: nat)
    requires half != []
  {
    forall k :: k in Keys(half) ==> !Overshot(k, Bounds(Keys(half)).upper, cut)
  }

  predicate AllLeaves(page: seq<KeyTree>) {
    forall t :: t in page ==> t.Leaf?
  }

  lemma HalfCases(half: seq<KeyTree>, key: Key, cut: nat)
    requires half != [] && SoundPage(half, Ordered, Covers)
    requires key == NodeTruncate(Bounds(Keys(half)), cut) && cut >= PrefixLength(Bounds(Keys(half))) + 1
    ensures HalfIsSound(half, key, cut)
  {
    var ks := Keys(half);
    forall i | 0 <= i < |ks|
      ensures Le(ks[i].lower, ks[i].upper)
      ensures AllLeaves(half) ==> !Overshot(ks[i], Bounds(ks).upper, cut)
    {
      SoundPageAt(half, i, Ordered, Covers);
      CompareReflexive(ks[i].lower);
      assert half[i] in half;
      if half[i].Leaf? {
        LeafNotOvershot(half[i].v, Bounds(ks).upper, cut);
      }
    }
    if cut == PrefixLength(Bounds(ks)) + 1 {
      OwnCutIsSafe(ks, cut);
    }
    if Safe(half, cut) {
      HalfSound(half, cut);
    }
  }

  /** Four entries, each the union of leaf keys, for which the split loses a row: the value
      'abcz' is under the first entry, but an equality search for it stops at the key of the half
      that receives that entry. */
  lemma PicksplitLosesRow()
    ensures var page := LossyPage();
      var l, r := Bounds(page[..2]), Bounds(page[2..]);
      && VsrtLe(page[0], page[1]) && VsrtLe(page[1], page[2]) && VsrtLe(page[2], page[3])
      && Covers(page[0], [97, 98, 99, 122])
      && !Consistent(NodeTruncate(l, SplitCut(l, r)), [97, 98, 99, 122], Equal, false)
  {
    var page := LossyPage();
    LossyLeft();
    LossyRight();
    CommonPrefixAt(page[0].lower, page[1].lower, 1);
    CommonPrefixAt(page[1].lower, page[2].lower, 0);
    CommonPrefixAt(page[2].lower, page[3].lower, 4);
    CommonPrefixAt(page[0].lower, page[0].upper, 1);
    CommonPrefixAt(page[0].lower, [97, 98, 99, 122], 1);
    CommonPrefixAt([97, 98, 99, 122], page[1].upper, 3);
  }

  lemma LossyFirst()
    ensures UnionKey([LeafKey([97, 97]), LeafKey([97, 98, 99, 122])]) == Key([97, 97], [97, 98, 99])
  {
    UnionOfLeaves([97, 97], [97, 98, 99, 122], 1);
  }

  lemma LossySecond()
    ensures UnionKey([LeafKey([97, 98, 99, 97]), LeafKey([97, 98, 99, 100])]) == Key([97, 98, 99, 97], [97, 98, 99, 100])
  {
    UnionOfLeaves([97, 98, 99, 97], [97, 98, 99, 100], 3);
  }

  /** They are unions of leaf keys, the first one with the value that is lost. */
  lemma LossyPageIsReal()
    ensures LossyPage()[0] == UnionKey([LeafKey([97, 97]), LeafKey([97, 98, 99, 122])])
    ensures LossyPage()[1] == UnionKey([LeafKey([97, 98, 99, 97]), LeafKey([97, 98, 99, 100])])
    ensures LossyPage()[2] == UnionKey([LeafKey([98, 48, 48, 48, 48])])
    ensures LossyPage()[3] == UnionKey([LeafKey([98, 48, 48, 48, 49])])
  {
    LossyFirst();
    LossySecond();
    UnionOfLeaf([98, 48, 48, 48, 48]);
    UnionOfLeaf([98, 48, 48, 48, 49]);
  }

  lemma UnionOfLeaves(a: Bytes, b: Bytes, p: nat)
    requires p < |a| && p < |b| && a[..p] == b[..p] && a[p] < b[p]
    ensures UnionKey([LeafKey(a), LeafKey(b)]) == Key(Cut(a, p + 2), Cut(b, p + 2))
  {
    TwoBounds(LeafKey(a), LeafKey(b));
    CommonPrefixAt(a, b, p);
    CompareSwap(a, b);
  }

  lemma UnionOfLeaf(a: Bytes)
    ensures UnionKey([LeafKey(a)]) == LeafKey(a)
  {
    CommonPrefixAt(a, a, |a|);
  }

  function LossyPage(): seq<Key> {
    [Key([97, 97], [97, 98, 99]), Key([97, 98, 99, 97], [97, 98, 99, 100]),
     Key([98, 48, 48, 48, 48], [98, 48, 48, 48, 48]), Key([98, 48, 48, 48, 49], [98, 48, 48, 48, 49])]
  }

  lemma LossyLeft()
    ensures var l := Bounds(LossyPage()[..2]);
      l == Key([97, 97], [97, 98, 99, 100]) && PrefixLength(l) == 1
  {
    var page := LossyPage();
    TwoBounds(page[0], page[1]);
    assert page[..2] == [page[0], page[1]];
    CommonPrefixAt(page[0].lower, page[1].lower, 1);
    CommonPrefixAt(page[0].upper, page[1].upper, 3);
    CommonPrefixAt(page[0].lower, page[1].upper, 1);
  }

  lemma LossyRight()
    ensures var r := Bounds(LossyPage()[2..]);
      r == Key([98, 48, 48, 48, 48], [98, 48, 48, 48, 49]) && PrefixLength(r) == 4
  {
    var page := LossyPage();
    TwoBounds(page[2], page[3]);
    assert page[2..] == [page[2], page[3]];
    CommonPrefixAt(page[2].lower, page[3].lower, 4);
  }

  lemma TwoBounds(a: Key, b: Key)
    ensures Bounds([a, b]) == BinUnion(a, b)
  {
    assert [a, b][..1] == [a];
  }
}
