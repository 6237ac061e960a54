/** btree_gist/btree_utils_var.c, bytea instance: inner keys are (lower, upper) pairs cut
    two bytes past their common prefix, and the consistency test makes up for the cut. */
module VarKey {
  import opened Bytes
  import opened IndexScan

  /** A readable key; a leaf key has lower == upper. */
  datatype Key = Key(lower: Bytes, upper: Bytes)

  function LeafKey(v: Bytes): Key {
    Key(v, v)
  }

  function PrefixLength(k: Key): nat {
    CommonPrefix(k.lower, k.upper)
  }

  // ----- Operations -----

  /** Common prefix length of a key (single-byte encoding). */
  method NodeCpLen(node: Key) returns (i: nat)
    ensures i == PrefixLength(node)
  {
    var ml := if |node.lower| < |node.upper| then |node.lower| else |node.upper|;
    i := 0;
    while i < ml
      invariant i <= ml && node.lower[..i] == node.upper[..i]
    {
      if node.lower[i] != node.upper[i] {
        CommonPrefixAt(node.lower, node.upper, i);
        return;
      }
      i := i + 1;
    }
    CommonPrefixAt(node.lower, node.upper, i);
  }

  predicate PfMatch(pf: Bytes, query: Bytes) {
    |pf| <= |query| && query[..|pf|] == pf
  }

  predicate NodePfMatch(node: Key, query: Bytes) {
    PfMatch(node.lower, query) || PfMatch(node.upper, query)
  }

  function Cut(b: Bytes, n: nat): Bytes {
    if |b| <= n then b else b[..n]
  }

  /** Keeps cpfLength + 1 bytes of each bound. */
  function NodeTruncate(node: Key, cpfLength: nat): Key {
    Key(Cut(node.lower, cpfLength + 1), Cut(node.upper, cpfLength + 1))
  }

  function BinUnion(u: Key, e: Key): Key {
    Key(if Compare(u.lower, e.lower) > 0 then e.lower else u.lower,
        if Compare(u.upper, e.upper) < 0 then e.upper else u.upper)
  }

  /** Least lower and greatest upper bound of a page of entries. */
  function Bounds(entries: seq<Key>): Key
    requires entries != []
  {
    if |entries| == 1 then entries[0]
    else BinUnion(Bounds(entries[..|entries| - 1]), entries[|entries| - 1])
  }

  function UnionKey(entries: seq<Key>): Key
    requires entries != []
  {
    var out := Bounds(entries);
    NodeTruncate(out, PrefixLength(out) + 1)
  }

  method VarUnion(entries: seq<Key>) returns (out: Key)
    requires entries != []
    ensures out == UnionKey(entries)
  {
    out := entries[0];
    var i := 1;
    while i < |entries|
      invariant 1 <= i <= |entries|
      invariant out == Bounds(entries[..i])
    {
      assert entries[..i + 1][..i] == entries[..i];
      out := BinUnion(out, entries[i]);
      i := i + 1;
    }
    assert entries[..i] == entries;
    var plen := NodeCpLen(out);
    out := NodeTruncate(out, plen + 1);
  }

  datatype Strategy = Less | LessEqual | Equal | GreaterEqual | Greater | NotEqual

  /** What an indexed value has to satisfy. */
  predicate Satisfies(v: Bytes, strategy: Strategy, query: Bytes) {
    match strategy
    case Less => Compare(v, query) < 0
    case LessEqual => Compare(v, query) <= 0
    case Equal => v == query
    case GreaterEqual => Compare(v, query) >= 0
    case Greater => Compare(v, query) > 0
    case NotEqual => v != query
  }

  /** The operators in terms of the first position where the strings differ. */
  lemma SatisfiesMeaning(v: Bytes, query: Bytes)
    ensures Satisfies(v, Less, query) <==> Smaller(v, query)
    ensures Satisfies(v, LessEqual, query) <==> Smaller(v, query) || v == query
    ensures Satisfies(v, GreaterEqual, query) <==> Smaller(query, v) || v == query
    ensures Satisfies(v, Greater, query) <==> Smaller(query, v)
  {
    CompareIsOrder(v, query);
    CompareSwap(v, query);
  }

  predicate Consistent(key: Key, query: Bytes, strategy: Strategy, isLeaf: bool) {
    match strategy
    case LessEqual =>
      if isLeaf then Compare(query, key.lower) >= 0
      else Compare(query, key.lower) >= 0 || NodePfMatch(key, query)
    case Less =>
      if isLeaf then Compare(query, key.lower) > 0
      else Compare(query, key.lower) >= 0 || NodePfMatch(key, query)
    case Equal =>
      if isLeaf then query == key.lower
      else (Compare(key.lower, query) <= 0 && Compare(query, key.upper) <= 0) || NodePfMatch(key, query)
    case Greater =>
      if isLeaf then Compare(query, key.upper) < 0
      else Compare(query, key.upper) <= 0 || NodePfMatch(key, query)
    case GreaterEqual =>
      if isLeaf then Compare(query, key.upper) <= 0
      else Compare(query, key.upper) <= 0 || NodePfMatch(key, query)
    case NotEqual =>
      !(query == key.lower && query == key.upper)
  }

  // ----- What a key promises about a value beneath it -----

  /** Between the bounds, counting every extension of the upper bound as inside. */
  predicate Spans(k: Key, v: Bytes) {
    Le(k.lower, v) && (Le(v, k.upper) || IsPrefix(k.upper, v))
  }

  /** Spans, where a value that is inside only by extending the upper bound extends one
      that still shows at least two bytes beyond the common prefix. */
  predicate Covers(k: Key, v: Bytes) {
    && Le(k.lower, v)
    && (Le(v, k.upper) || (IsPrefix(k.upper, v) && |k.upper| >= PrefixLength(k) + 2))
  }

  lemma CutIsPrefix(b: Bytes, n: nat)
    ensures IsPrefix(Cut(b, n), b) && Le(Cut(b, n), b)
  {
    PrefixLe(Cut(b, n), b);
  }

  /** A cut beyond the common prefix does not change it. */
  lemma TruncateKeepsPrefixLength(k: Key, n: nat)
    requires n >= PrefixLength(k)
    ensures PrefixLength(NodeTruncate(k, n)) == PrefixLength(k)
  {
    CommonPrefixAgrees(k.lower, k.upper);
    var t, p := NodeTruncate(k, n), PrefixLength(k);
    assert t.lower[..p] == k.lower[..p] && t.upper[..p] == k.upper[..p];
    CommonPrefixAt(t.lower, t.upper, p);
  }

  /** Any cut keeps a value spanned; one at least two bytes past the common prefix keeps
      it covered. */
  lemma TruncateSpans(k: Key, n: nat, v: Bytes)
    requires Le(k.lower, v) && Le(v, k.upper)
    ensures Spans(NodeTruncate(k, n), v)
    ensures n >= PrefixLength(k) + 1 ==> Covers(NodeTruncate(k, n), v)
  {
    CutIsPrefix(k.lower, n + 1);
    CutIsPrefix(k.upper, n + 1);
    LeTransitive(Cut(k.lower, n + 1), k.lower, v);
    BelowPrefix(v, k.upper, Cut(k.upper, n + 1));
    if n >= PrefixLength(k) + 1 {
      TruncateKeepsPrefixLength(k, n);
    }
  }

  lemma CompareReflexive(a: Bytes)
    ensures Le(a, a)
  {
    CompareSwap(a, a);
  }

  /** The page bounds enclose each entry's bounds. */
  lemma {:induction false} BoundsEnclose(entries: seq<Key>, i: nat)
    requires i < |entries|
    ensures Le(Bounds(entries).lower, entries[i].lower)
    ensures Le(entries[i].upper, Bounds(entries).upper)
  {
    CompareReflexive(entries[i].lower);
    CompareReflexive(entries[i].upper);
    var n := |entries| - 1;
    if n > 0 {
      var u, e := Bounds(entries[..n]), entries[n];
      CompareSwap(u.lower, e.lower);
      CompareSwap(u.upper, e.upper);
      if i < n {
        BoundsEnclose(entries[..n], i);
        if Compare(u.lower, e.lower) > 0 {
          LeTransitive(e.lower, u.lower, entries[i].lower);
        }
        if Compare(u.upper, e.upper) < 0 {
          LeTransitive(entries[i].upper, u.upper, e.upper);
        }
      }
    }
  }

  /** A value covered by an entry stays covered by any wider pair of bounds, once that pair
      has been cut two bytes past its own common prefix. */
  lemma WidenAndCut(k: Key, out: Key, v: Bytes)
    requires Covers(k, v)
    requires Le(out.lower, k.lower) && Le(k.upper, out.upper) && Le(k.lower, k.upper)
    ensures Covers(NodeTruncate(out, PrefixLength(out) + 1), v)
  {
    LeTransitive(out.lower, k.lower, v);
    if Le(v, k.upper) {
      LeTransitive(v, k.upper, out.upper);
      TruncateSpans(out, PrefixLength(out) + 1, v);
    } else if !IsPrefix(k.upper, out.upper) {
      ExtensionBelow(v, k.upper, out.upper);
      TruncateSpans(out, PrefixLength(out) + 1, v);
    } else {
      CutExtendsPrefix(k, out, v);
    }
  }

  /** The delicate case: the wider upper bound extends the entry's, and the value may lie
      beyond it.  The common prefix cannot have grown, so the cut falls inside the part of
      the new upper bound that the value still extends. */
  lemma CutExtendsPrefix(k: Key, out: Key, v: Bytes)
    requires Le(out.lower, k.lower) && Le(k.lower, k.upper) && Le(k.lower, v)
    requires IsPrefix(k.upper, out.upper) && IsPrefix(k.upper, v)
    requires |k.upper| >= PrefixLength(k) + 2
    ensures Covers(NodeTruncate(out, PrefixLength(out) + 1), v)
  {
    var p, c := PrefixLength(out), Cut(out.upper, PrefixLength(out) + 2);
    CommonPrefixAgrees(k.lower, k.upper);
    CommonPrefixAgreement(k, out.upper);
    PrefixLe(k.upper, out.upper);
    LeTransitive(k.lower, k.upper, out.upper);
    CommonPrefixMonotone(out.lower, k.lower, out.upper);
    assert p + 2 <= |k.upper|;
    CutIsPrefix(out.upper, p + 2);
    PrefixesNest(c, k.upper, out.upper);
    PrefixTransitive(c, k.upper, v);
    TruncateKeepsPrefixLength(out, p + 1);
    CutIsPrefix(out.lower, p + 2);
    LeTransitive(Cut(out.lower, p + 2), out.lower, k.lower);
    LeTransitive(Cut(out.lower, p + 2), k.lower, v);
  }

  lemma CommonPrefixAgreement(k: Key, u: Bytes)
    requires IsPrefix(k.upper, u) && PrefixLength(k) < |k.upper|
    ensures CommonPrefix(k.lower, u) == PrefixLength(k)
  {
    var p := PrefixLength(k);
    CommonPrefixAgrees(k.lower, k.upper);
    assert u[..p] == u[..|k.upper|][..p] && u[p] == u[..|k.upper|][p];
    CommonPrefixAt(k.lower, u, p);
  }

  /** Union never loses a row. */
  lemma UnionCovers(entries: seq<Key>, i: nat, v: Bytes)
    requires i < |entries|
    requires Le(entries[i].lower, entries[i].upper) && Covers(entries[i], v)
    ensures Covers(UnionKey(entries), v)
  {
    BoundsEnclose(entries, i);
    WidenAndCut(entries[i], Bounds(entries), v);
  }

  lemma BoundsOrdered(entries: seq<Key>)
    requires entries != [] && forall k :: k in entries ==> Le(k.lower, k.upper)
    ensures Le(Bounds(entries).lower, Bounds(entries).upper)
  {
    var out := Bounds(entries);
    BoundsEnclose(entries, 0);
    LeTransitive(out.lower, entries[0].lower, entries[0].upper);
    LeTransitive(out.lower, entries[0].upper, out.upper);
  }

  /** A cut past the common prefix keeps the bounds in order. */
  lemma TruncateOrdered(k: Key, n: nat)
    requires Le(k.lower, k.upper) && n >= PrefixLength(k) + 1
    ensures Le(NodeTruncate(k, n).lower, NodeTruncate(k, n).upper)
  {
    CutIsPrefix(k.lower, n + 1);
    CutIsPrefix(k.upper, n + 1);
    TruncateKeepsPrefixLength(k, n);
    CommonPrefixAgrees(k.lower, k.upper);
  }

  lemma UnionOrdered(entries: seq<Key>)
    requires entries != [] && forall k :: k in entries ==> Le(k.lower, k.upper)
    ensures Le(UnionKey(entries).lower, UnionKey(entries).upper)
  {
    BoundsOrdered(entries);
    TruncateOrdered(Bounds(entries), PrefixLength(Bounds(entries)) + 1);
  }

  /** The inner test is true whenever some covered value satisfies the operator; the leaf
      test is exact. */
  lemma ConsistentInner(key: Key, query: Bytes, strategy: Strategy, v: Bytes)
    requires Covers(key, v) && Satisfies(v, strategy, query)
    ensures Consistent(key, query, strategy, false)
  {
    CompareSwap(v, query);
    CompareSwap(key.lower, query);
    CompareSwap(key.upper, query);
    CompareSwap(v, key.upper);
    match strategy {
      case Less => LeTransitive(key.lower, v, query);
      case LessEqual => LeTransitive(key.lower, v, query);
      case Equal =>
      case GreaterEqual => AboveQuery(key, query, v);
      case Greater => AboveQuery(key, query, v);
      case NotEqual =>
        if query == key.lower == key.upper {
          PrefixLe(query, query);
          CompareSwap(v, query);
        }
    }
  }

  lemma AboveQuery(key: Key, query: Bytes, v: Bytes)
    requires Covers(key, v) && Le(query, v)
    ensures Le(query, key.upper) || IsPrefix(key.upper, query)
  {
    if Le(v, key.upper) {
      LeTransitive(query, v, key.upper);
    } else {
      BelowPrefix(query, v, key.upper);
    }
  }

  /** At most as large as the query. */
  predicate UpTo(v: Bytes, query: Bytes) {
    Smaller(v, query) || v == query
  }

  /** An inner key is accepted for `<` and `<=` if and only if it spans some value up to the query,
      and for `>` and `>=` if it spans one from the query on; for these and `=` it is enough that
      the query extends the lower bound. */
  lemma InnerAccepts(key: Key, query: Bytes)
    requires Ordered(key)
    ensures Consistent(key, query, LessEqual, false) <==> exists v :: Spans(key, v) && UpTo(v, query)
    ensures Consistent(key, query, GreaterEqual, false) <==> IsPrefix(key.lower, query) || exists v :: Spans(key, v) && UpTo(query, v)
    ensures Consistent(key, query, Equal, false) <==> IsPrefix(key.lower, query) || Spans(key, query)
    ensures Consistent(key, query, Less, false) == Consistent(key, query, LessEqual, false)
    ensures Consistent(key, query, Greater, false) == Consistent(key, query, GreaterEqual, false)
  {
    SpannedBelow(key, query);
    SpannedAbove(key, query);
    CompareSwap(key.lower, query);
    CompareSwap(key.upper, query);
    if IsPrefix(key.upper, query) {
      PrefixLe(key.upper, query);
      LeTransitive(key.lower, key.upper, query);
    }
    if IsPrefix(key.lower, query) {
      PrefixLe(key.lower, query);
    }
  }

  lemma UpToIsLe(v: Bytes, query: Bytes)
    ensures UpTo(v, query) <==> Le(v, query)
  {
    CompareIsOrder(v, query);
    CompareSwap(v, query);
  }

  lemma SpannedBelow(key: Key, query: Bytes)
    requires Ordered(key)
    ensures Le(key.lower, query) <==> exists v :: Spans(key, v) && UpTo(v, query)
  {
    if Le(key.lower, query) {
      CompareReflexive(key.lower);
      UpToIsLe(key.lower, query);
      assert Spans(key, key.lower);
    }
    if v :| Spans(key, v) && UpTo(v, query) {
      UpToIsLe(v, query);
      LeTransitive(key.lower, v, query);
    }
  }

  lemma SpannedAbove(key: Key, query: Bytes)
    requires Ordered(key)
    ensures Le(query, key.upper) || IsPrefix(key.upper, query) <==> exists v :: Spans(key, v) && UpTo(query, v)
  {
    if Le(query, key.upper) {
      CompareReflexive(key.upper);
      UpToIsLe(query, key.upper);
      assert Spans(key, key.upper);
    } else if IsPrefix(key.upper, query) {
      PrefixLe(key.upper, query);
      LeTransitive(key.lower, key.upper, query);
      assert Spans(key, query) && UpTo(query, query);
    }
    if v :| Spans(key, v) && UpTo(query, v) {
      UpToIsLe(query, v);
      if Le(v, key.upper) {
        LeTransitive(query, v, key.upper);
      } else {
        BelowPrefix(query, v, key.upper);
      }
    }
  }

  lemma ConsistentLeaf(query: Bytes, strategy: Strategy, v: Bytes)
    ensures Consistent(LeafKey(v), query, strategy, true) <==> Satisfies(v, strategy, query)
  {
    CompareSwap(v, query);
  }

  // ----- Trees -----

  type KeyTree = Tree<Key, Bytes>

  predicate Ordered(k: Key) {
    Le(k.lower, k.upper)
  }

  function KeyOf(t: KeyTree): Key {
    match t
    case Leaf(v) => LeafKey(v)
    case Inner(key, _) => key
  }

  function Keys(page: seq<KeyTree>): (ks: seq<Key>)
    ensures |ks| == |page| && forall i :: 0 <= i < |page| ==> ks[i] == KeyOf(page[i])
  {
    seq(|page|, i requires 0 <= i < |page| => KeyOf(page[i]))
  }

  lemma KeyCoversValues(t: KeyTree, v: Bytes)
    requires Sound(t, Ordered, Covers) && v in Values(t)
    ensures Ordered(KeyOf(t)) && Covers(KeyOf(t), v)
  {
    CompareReflexive(v);
  }

  /** A page put under the union of its entries' keys is sound. */
  lemma UnionSound(page: seq<KeyTree>)
    requires page != [] && SoundPage(page, Ordered, Covers)
    ensures Sound(Inner(UnionKey(Keys(page)), page), Ordered, Covers)
  {
    var ks := Keys(page);
    forall k | k in ks
      ensures Le(k.lower, k.upper)
    {
      var i :| 0 <= i < |ks| && ks[i] == k;
      SoundPageAt(page, i, Ordered, Covers);
      CompareReflexive(k.lower);
    }
    UnionOrdered(ks);
    forall v | v in PageValues(page)
      ensures Covers(UnionKey(ks), v)
    {
      var i := PageValueFrom(page, v);
      SoundPageAt(page, i, Ordered, Covers);
      KeyCoversValues(page[i], v);
      UnionCovers(ks, i, v);
    }
  }

  /** Inserting a value: at each level some entry is chosen to receive it, and the keys on
      the way are replaced by the union of the old key and the new value's key. */
  function Insert(t: KeyTree, v: Bytes, choose: (Key, seq<KeyTree>) -> int): KeyTree
    requires t.Inner?
    decreases t
  {
    var key := UnionKey([t.key, LeafKey(v)]);
    var i := choose(t.key, t.page);
    if 0 <= i < |t.page| && t.page[i].Inner? then
      Inner(key, t.page[i := Insert(t.page[i], v, choose)])
    else
      Inner(key, t.page + [Leaf(v)])
  }

  /** The key an insertion leaves behind covers the old values and the new one. */
  lemma GrownKeyCovers(key: Key, v: Bytes, w: Bytes)
    requires Le(key.lower, key.upper)
    requires w == v || Covers(key, w)
    ensures Covers(UnionKey([key, LeafKey(v)]), w)
    ensures Ordered(UnionKey([key, LeafKey(v)]))
  {
    var ks := [key, LeafKey(v)];
    CompareReflexive(v);
    UnionOrdered(ks);
    if w == v {
      UnionCovers(ks, 1, w);
    } else {
      UnionCovers(ks, 0, w);
    }
  }

  lemma GrownSound(t: KeyTree, v: Bytes, page: seq<KeyTree>)
    requires t.Inner? && Sound(t, Ordered, Covers) && SoundPage(page, Ordered, Covers)
    requires multiset(PageValues(page)) == multiset(Values(t)) + multiset{v}
    ensures Sound(Inner(UnionKey([t.key, LeafKey(v)]), page), Ordered, Covers)
  {
    GrownKeyCovers(t.key, v, v);
    forall w | w in PageValues(page)
      ensures Covers(UnionKey([t.key, LeafKey(v)]), w)
    {
      assert w in multiset(PageValues(page));
      assert w != v ==> w in multiset(Values(t));
      GrownKeyCovers(t.key, v, w);
    }
  }

  /** Whatever the penalty function chooses, insertion adds exactly the value and keeps the
      tree sound. */
  lemma {:induction false} InsertSound(t: KeyTree, v: Bytes, choose: (Key, seq<KeyTree>) -> int)
    requires t.Inner? && Sound(t, Ordered, Covers)
    ensures Sound(Insert(t, v, choose), Ordered, Covers)
    ensures multiset(Values(Insert(t, v, choose))) == multiset(Values(t)) + multiset{v}
    decreases t
  {
    var i, r := choose(t.key, t.page), Insert(t, v, choose);
    if 0 <= i < |t.page| && t.page[i].Inner? {
      SoundPageAt(t.page, i, Ordered, Covers);
      InsertSound(t.page[i], v, choose);
      PageValuesUpdate(t.page, i, Insert(t.page[i], v, choose), Ordered, Covers);
    } else {
      PageValuesAppend(t.page, [Leaf(v)]);
      SoundPageAppend(t.page, [Leaf(v)], Ordered, Covers);
      PageOfOne(Leaf(v), Ordered, Covers);
    }
    GrownSound(t, v, r.page);
  }

  /** An index scan descends into every entry whose key is consistent with the query. */
  function Search(t: KeyTree, strategy: Strategy, query: Bytes): seq<Bytes> {
    Scan(t, v => Consistent(LeafKey(v), query, strategy, true), k => Consistent(k, query, strategy, false))
  }

  /** An index scan of a sound tree returns exactly the matching rows, in order. */
  lemma SearchExact(t: KeyTree, strategy: Strategy, query: Bytes)
    requires Sound(t, Ordered, Covers)
    ensures Search(t, strategy, query) == Filter(Values(t), v => Satisfies(v, strategy, query))
  {
    var matches := v => Satisfies(v, strategy, query);
    var leaf := v => Consistent(LeafKey(v), query, strategy, true);
    var inner := k => Consistent(k, query, strategy, false);
    forall v | v in Values(t)
      ensures leaf(v) == matches(v)
    {
      ConsistentLeaf(query, strategy, v);
    }
    forall k, v | v in Values(t) && Ordered(k) && Covers(k, v) && matches(v)
      ensures inner(k)
    {
      ConsistentInner(k, query, strategy, v);
    }
    ScanExact(t, Ordered, Covers, matches, leaf, inner);
  }
}
