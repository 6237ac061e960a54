/** Trees of index entries as the GiST access method keeps them, and index scans: what a scan
    finds depends only on what the keys cover and on the consistency tests. */
module IndexScan {
  import opened Sequences

  /** A leaf entry holds a value; an inner entry holds a key for the page below it. */
  datatype Tree<K, V> = Leaf(v: V) | Inner(key: K, page: seq<Tree<K, V>>)

  /** The values of a tree, in order. */
  function Values<K, V>(t: Tree<K, V>): seq<V>
    decreases t, 0
  {
    match t
    case Leaf(v) => [v]
    case Inner(_, page) => PageValues(page)
  }

  function PageValues<K, V>(page: seq<Tree<K, V>>): seq<V>
    decreases page, 1
  {
    if page == [] then [] else Values(page[0]) + PageValues(page[1..])
  }

  /** Every key is well formed and covers every value below it. */
  ghost predicate Sound<K, V>(t: Tree<K, V>, formed: K -> bool, covers: (K, V) -> bool)
    decreases t, 0
  {
    match t
    case Leaf(_) => true
    case Inner(key, page) =>
      formed(key) && (forall v :: v in PageValues(page) ==> covers(key, v)) && SoundPage(page, formed, covers)
  }

  ghost predicate SoundPage<K, V>(page: seq<Tree<K, V>>, formed: K -> bool, covers: (K, V) -> bool)
    decreases page, 1
  {
    page == [] || (Sound(page[0], formed, covers) && SoundPage(page[1..], formed, covers))
  }

  lemma {:induction false} SoundPageAt<K, V>(page: seq<Tree<K, V>>, i: nat, formed: K -> bool, covers: (K, V) -> bool)
    requires i < |page|
    ensures SoundPage(page, formed, covers) ==> Sound(page[i], formed, covers)
    ensures forall v :: v in Values(page[i]) ==> v in PageValues(page)
  {
    if i > 0 {
      SoundPageAt(page[1..], i - 1, formed, covers);
      assert page[1..][i - 1] == page[i];
    }
  }

  lemma {:induction false} PageValueFrom<K, V>(page: seq<Tree<K, V>>, v: V) returns (i: nat)
    requires v in PageValues(page)
    ensures i < |page| && v in Values(page[i])
  {
    if v in Values(page[0]) {
      i := 0;
    } else {
      var j := PageValueFrom(page[1..], v);
      i := j + 1;
    }
  }

  /** A tree is sound for any weaker idea of what a key covers. */
  lemma {:induction false} SoundWeaker<K(!new), V(!new)>(t: Tree<K, V>, formed: K -> bool, covers: (K, V) -> bool,
                                                        weaker: (K, V) -> bool)
    requires Sound(t, formed, covers) && forall k, v :: formed(k) && covers(k, v) ==> weaker(k, v)
    ensures Sound(t, formed, weaker)
    decreases t, 0
  {
    if t.Inner? {
      SoundPageWeaker(t.page, formed, covers, weaker);
    }
  }

  lemma {:induction false} SoundPageWeaker<K(!new), V(!new)>(page: seq<Tree<K, V>>, formed: K -> bool, covers: (K, V) -> bool,
                                                            weaker: (K, V) -> bool)
    requires SoundPage(page, formed, covers) && forall k, v :: formed(k) && covers(k, v) ==> weaker(k, v)
    ensures SoundPage(page, formed, weaker)
    decreases page, 1
  {
    if page != [] {
      SoundWeaker(page[0], formed, covers, weaker);
      SoundPageWeaker(page[1..], formed, covers, weaker);
    }
  }

  // ----- Changing a page -----

  lemma {:induction false} PageValuesAppend<K, V>(a: seq<Tree<K, V>>, b: seq<Tree<K, V>>)
    ensures PageValues(a + b) == PageValues(a) + PageValues(b)
  {
    if a == [] {
      assert a + b == b;
    } else {
      PageValuesAppend(a[1..], b);
      assert (a + b)[0] == a[0] && (a + b)[1..] == a[1..] + b;
      Assoc(Values(a[0]), PageValues(a[1..]), PageValues(b));
    }
  }

  lemma {:induction false} SoundPageAppend<K, V>(a: seq<Tree<K, V>>, b: seq<Tree<K, V>>,
                                                formed: K -> bool, covers: (K, V) -> bool)
    ensures SoundPage(a + b, formed, covers) <==> SoundPage(a, formed, covers) && SoundPage(b, formed, covers)
  {
    if a == [] {
      assert a + b == b;
    } else {
      SoundPageAppend(a[1..], b, formed, covers);
      assert (a + b)[0] == a[0] && (a + b)[1..] == a[1..] + b;
    }
  }

  lemma PageOfOne<K, V>(t: Tree<K, V>, formed: K -> bool, covers: (K, V) -> bool)
    ensures PageValues([t]) == Values(t)
    ensures SoundPage([t], formed, covers) <==> Sound(t, formed, covers)
  {
    assert [t][1..] == [];
  }

  lemma PageValuesUpdate<K, V>(page: seq<Tree<K, V>>, i: nat, t: Tree<K, V>, formed: K -> bool, covers: (K, V) -> bool)
    requires i < |page|
    ensures PageValues(page) == PageValues(page[..i]) + Values(page[i]) + PageValues(page[i + 1..])
    ensures PageValues(page[i := t]) == PageValues(page[..i]) + Values(t) + PageValues(page[i + 1..])
    ensures Sound(t, formed, covers) && SoundPage(page, formed, covers) ==> SoundPage(page[i := t], formed, covers)
  {
    var l, r := page[..i], page[i + 1..];
    PageOfOne(t, formed, covers);
    PageOfOne(page[i], formed, covers);
    assert page == l + [page[i]] + r && page[i := t] == l + [t] + r;
    PageValuesAppend(l + [page[i]], r);
    PageValuesAppend(l, [page[i]]);
    PageValuesAppend(l + [t], r);
    PageValuesAppend(l, [t]);
    SoundPageAppend(l + [page[i]], r, formed, covers);
    SoundPageAppend(l, [page[i]], formed, covers);
    SoundPageAppend(l + [t], r, formed, covers);
    SoundPageAppend(l, [t], formed, covers);
  }

  lemma PageValuesInsert<K, V>(l: seq<Tree<K, V>>, x: Tree<K, V>, r: seq<Tree<K, V>>, formed: K -> bool, covers: (K, V) -> bool)
    ensures multiset(PageValues(l + [x] + r)) == multiset(PageValues(l + r)) + multiset(Values(x))
    ensures SoundPage(l + [x] + r, formed, covers) <==> SoundPage(l + r, formed, covers) && Sound(x, formed, covers)
  {
    PageOfOne(x, formed, covers);
    PageValuesAppend(l + [x], r);
    PageValuesAppend(l, [x]);
    PageValuesAppend(l, r);
    SoundPageAppend(l + [x], r, formed, covers);
    SoundPageAppend(l, [x], formed, covers);
    SoundPageAppend(l, r, formed, covers);
  }

  /** Reordering the entries of a page reorders its values and keeps it sound. */
  lemma {:induction false} PageReordered<K, V>(a: seq<Tree<K, V>>, b: seq<Tree<K, V>>, formed: K -> bool, covers: (K, V) -> bool)
    requires multiset(a) == multiset(b)
    ensures multiset(PageValues(a)) == multiset(PageValues(b))
    ensures SoundPage(a, formed, covers) <==> SoundPage(b, formed, covers)
    decreases |a|
  {
    if a == [] {
      assert |multiset(b)| == |b| == 0;
    } else {
      var x, rest := a[0], a[1..];
      var l, r := SplitOff(b, x);
      assert a == [x] + rest && [] + [x] + rest == a && [] + rest == rest;
      TakenOut(a, rest, b, l, x, r);
      PageReordered(rest, l + r, formed, covers);
      PageValuesInsert([], x, rest, formed, covers);
      PageValuesInsert(l, x, r, formed, covers);
    }
  }

  // ----- Scans -----

  /** An index scan: descend into every entry whose key is consistent with the search. */
  function Scan<K, V>(t: Tree<K, V>, leaf: V -> bool, inner: K -> bool): seq<V>
    decreases t, 0
  {
    match t
    case Leaf(v) => if leaf(v) then [v] else []
    case Inner(key, page) => if inner(key) then ScanPage(page, leaf, inner) else []
  }

  function ScanPage<K, V>(page: seq<Tree<K, V>>, leaf: V -> bool, inner: K -> bool): seq<V>
    decreases page, 1
  {
    if page == [] then [] else Scan(page[0], leaf, inner) + ScanPage(page[1..], leaf, inner)
  }

  /** The sequential scan an index scan has to agree with. */
  function Filter<V>(vs: seq<V>, matches: V -> bool): seq<V> {
    if vs == [] then [] else (if matches(vs[0]) then [vs[0]] else []) + Filter(vs[1..], matches)
  }

  lemma {:induction false} FilterAppend<V>(a: seq<V>, b: seq<V>, matches: V -> bool)
    ensures Filter(a + b, matches) == Filter(a, matches) + Filter(b, matches)
  {
    if a == [] {
      assert a + b == b;
    } else {
      FilterAppend(a[1..], b, matches);
      assert (a + b)[0] == a[0] && (a + b)[1..] == a[1..] + b;
      Assoc(if matches(a[0]) then [a[0]] else [], Filter(a[1..], matches), Filter(b, matches));
    }
  }

  lemma {:induction false} FilterEmpty<V>(vs: seq<V>, matches: V -> bool)
    requires forall v :: v in vs ==> !matches(v)
    ensures Filter(vs, matches) == []
  {
    if vs != [] {
      FilterEmpty(vs[1..], matches);
    }
  }

  /** The tests never miss: leaf tests are exact for the values of the tree, and a key that
      covers a matching value is consistent. */
  ghost predicate NeverMiss<K(!new), V>(vs: seq<V>, formed: K -> bool, covers: (K, V) -> bool,
                                             matches: V -> bool, leaf: V -> bool, inner: K -> bool) {
    && (forall v :: v in vs ==> leaf(v) == matches(v))
    && (forall k, v :: v in vs && formed(k) && covers(k, v) && matches(v) ==> inner(k))
  }

  /** Then an index scan of a sound tree finds exactly what a sequential scan finds. */
  lemma {:induction false} ScanExact<K(!new), V>(t: Tree<K, V>, formed: K -> bool, covers: (K, V) -> bool,
                                          matches: V -> bool, leaf: V -> bool, inner: K -> bool)
    requires Sound(t, formed, covers) && NeverMiss(Values(t), formed, covers, matches, leaf, inner)
    ensures Scan(t, leaf, inner) == Filter(Values(t), matches)
    decreases t, 0
  {
    match t {
      case Leaf(v) =>
        assert v in Values(t);
        assert [v][1..] == [];
      case Inner(key, page) =>
        if inner(key) {
          ScanPageExact(page, formed, covers, matches, leaf, inner);
        } else {
          FilterEmpty(PageValues(page), matches);
        }
    }
  }

  lemma {:induction false} ScanPageExact<K(!new), V>(page: seq<Tree<K, V>>, formed: K -> bool, covers: (K, V) -> bool,
                                              matches: V -> bool, leaf: V -> bool, inner: K -> bool)
    requires SoundPage(page, formed, covers) && NeverMiss(PageValues(page), formed, covers, matches, leaf, inner)
    ensures ScanPage(page, leaf, inner) == Filter(PageValues(page), matches)
    decreases page, 1
  {
    if page != [] {
      ScanExact(page[0], formed, covers, matches, leaf, inner);
      ScanPageExact(page[1..], formed, covers, matches, leaf, inner);
      FilterAppend(Values(page[0]), PageValues(page[1..]), matches);
    }
  }
}
