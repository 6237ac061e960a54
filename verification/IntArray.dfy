/** intarray/_int_tool.c and the binary search of _int_bool.c: sorting, removing duplicates
    and merging arrays of int4. */
module IntArray {
  import opened Wrappers
  import opened Sequences
  import opened Ints
  import opened IntRoom

  predicate Sorted(s: seq<Int4>) {
    forall i, j :: 0 <= i < j < |s| ==> s[i] <= s[j]
  }

  /** Sorted without duplicates. */
  predicate Ascending(s: seq<Int4>) {
    forall i, j :: 0 <= i < j < |s| ==> s[i] < s[j]
  }

  function Elements(s: seq<Int4>): (r: set<Int4>)
    ensures forall x :: x in r <==> x in s
  {
    set x | x in s
  }

  lemma ElementsAppend(s: seq<Int4>, t: seq<Int4>)
    ensures Elements(s + t) == Elements(s) + Elements(t)
  {
  }

  // ----- Insertion sort -----

  /** Put x behind the last element that does not exceed it. */
  function Insert(s: seq<Int4>, x: Int4): (r: seq<Int4>)
    ensures |r| == |s| + 1
  {
    var n := |s|;
    if n == 0 || s[n - 1] <= x then s + [x] else Insert(s[..n - 1], x) + [s[n - 1]]
  }

  /** The first n elements sorted by insertion. */
  function SortTo(s: seq<Int4>, n: nat): (r: seq<Int4>)
    requires n <= |s|
    ensures |r| == n
  {
    if n == 0 then [] else Insert(SortTo(s, n - 1), s[n - 1])
  }

  function InsertionSort(s: seq<Int4>): seq<Int4> {
    SortTo(s, |s|)
  }

  /** The scan from the end stops at p. */
  predicate StopsAt(s: seq<Int4>, x: Int4, p: nat) {
    p <= |s| && (p == 0 || s[p - 1] <= x) && forall k :: p <= k < |s| ==> s[k] > x
  }

  function Placed(s: seq<Int4>, x: Int4, p: nat): (r: seq<Int4>)
    requires p <= |s|
    ensures |r| == |s| + 1
  {
    s[..p] + [x] + s[p..]
  }

  lemma {:induction false} InsertAt(s: seq<Int4>, x: Int4, p: nat)
    requires StopsAt(s, x, p)
    ensures Insert(s, x) == Placed(s, x, p)
  {
    var n := |s|;
    if p < n {
      var t := s[..n - 1];
      InsertAt(t, x, p);
      assert s[p..] == t[p..] + [s[n - 1]] && t[..p] == s[..p];
      Assoc(s[..p] + [x], t[p..], [s[n - 1]]);
    } else {
      assert s[..p] == s && s[p..] == [];
    }
  }

  /** Two sorted pieces that meet in order. */
  lemma SortedConcat(a: seq<Int4>, b: seq<Int4>)
    requires Sorted(a) && Sorted(b) && (a == [] || b == [] || a[|a| - 1] <= b[0])
    ensures Sorted(a + b)
  {
    var r := a + b;
    forall i, j | 0 <= i < j < |r|
      ensures r[i] <= r[j]
    {
      if i < |a| <= j {
        assert a[i] <= a[|a| - 1] && b[0] <= b[j - |a|];
      }
    }
  }

  lemma AscendingConcat(a: seq<Int4>, b: seq<Int4>)
    requires a == [] || b == [] || a[|a| - 1] < b[0]
    requires Ascending(a) && Ascending(b)
    ensures Ascending(a + b)
  {
    var r := a + b;
    forall i, j | 0 <= i < j < |r|
      ensures r[i] < r[j]
    {
      if i < |a| <= j {
        assert a[i] <= a[|a| - 1] && b[0] <= b[j - |a|];
      }
    }
  }

  lemma AscendingSplit(a: seq<Int4>, b: seq<Int4>)
    requires Ascending(a + b)
    ensures Ascending(a) && Ascending(b)
    ensures a == [] || b == [] || a[|a| - 1] < b[0]
  {
    var r := a + b;
    assert forall i :: 0 <= i < |a| ==> a[i] == r[i];
    assert forall i :: 0 <= i < |b| ==> b[i] == r[|a| + i];
  }

  /** Inserting keeps a sorted sequence sorted; a duplicate shows where the scan stops. */
  lemma InsertSorted(s: seq<Int4>, x: Int4, p: nat)
    requires Sorted(s) && StopsAt(s, x, p)
    ensures Sorted(Placed(s, x, p))
    ensures Ascending(Placed(s, x, p)) <==> Ascending(s) && (p == 0 || s[p - 1] != x)
  {
    var l, r := s[..p], s[p..];
    assert s == l + r;
    SortedConcat(l, [x]);
    SortedConcat(l + [x], r);
    InsertAscending(l, x, r);
  }

  lemma InsertAscending(l: seq<Int4>, x: Int4, r: seq<Int4>)
    requires (l == [] || l[|l| - 1] <= x) && (r == [] || x < r[0])
    ensures Ascending(l + [x] + r) <==> Ascending(l + r) && (l == [] || l[|l| - 1] != x)
  {
    if Ascending(l + r) && (l == [] || l[|l| - 1] != x) {
      AscendingSplit(l, r);
      AscendingConcat(l, [x]);
      AscendingConcat(l + [x], r);
    }
    if Ascending(l + [x] + r) {
      AscendingSplit(l + [x], r);
      AscendingSplit(l, [x]);
      AscendingConcat(l, r);
    }
  }

  lemma {:induction false} SortToSorts(s: seq<Int4>, n: nat)
    requires n <= |s|
    ensures Sorted(SortTo(s, n))
  {
    if n > 0 {
      SortToSorts(s, n - 1);
      InsertKeepsSorted(SortTo(s, n - 1), s[n - 1]);
    }
  }

  lemma {:induction false} SortToPermutes(s: seq<Int4>, n: nat)
    requires n <= |s|
    ensures multiset(SortTo(s, n)) == multiset(s[..n])
  {
    if n > 0 {
      SortToPermutes(s, n - 1);
      InsertIsPermutation(SortTo(s, n - 1), s[n - 1]);
      MultisetAppend(s, n - 1);
    }
  }

  lemma MultisetAppend(s: seq<Int4>, n: nat)
    requires n < |s|
    ensures multiset(s[..n + 1]) == multiset(s[..n]) + multiset{s[n]}
  {
    assert s[..n + 1] == s[..n] + [s[n]];
  }

  lemma InsertionSortIsSort(s: seq<Int4>)
    ensures Sorted(InsertionSort(s)) && multiset(InsertionSort(s)) == multiset(s)
  {
    SortToSorts(s, |s|);
    SortToPermutes(s, |s|);
    assert s[..|s|] == s;
  }

  lemma {:induction false} InsertIsPermutation(s: seq<Int4>, x: Int4)
    ensures multiset(Insert(s, x)) == multiset(s) + multiset{x}
  {
    if s != [] && s[|s| - 1] > x {
      InsertIsPermutation(s[..|s| - 1], x);
      assert s == s[..|s| - 1] + [s[|s| - 1]];
    }
  }

  lemma InsertKeepsSorted(s: seq<Int4>, x: Int4)
    requires Sorted(s)
    ensures Sorted(Insert(s, x))
  {
    var p := StopAt(s, x);
    InsertAt(s, x, p);
    InsertSorted(s, x, p);
  }

  lemma {:induction false} StopAt(s: seq<Int4>, x: Int4) returns (p: nat)
    requires Sorted(s)
    ensures StopsAt(s, x, p)
  {
    p := |s|;
    if p > 0 && s[p - 1] > x {
      p := StopAt(s[..p - 1], x);
    }
  }

  /** Move a[pcur] down to its place among the elements before it; p is that place. */
  method InsertCurrent(a: array<Int4>, pcur: int) returns (dup: bool, ghost p: nat)
    requires 0 < pcur < a.Length
    modifies a
    ensures StopsAt(old(a[..pcur]), old(a[pcur]), p)
    ensures a[..pcur + 1] == Placed(old(a[..pcur]), old(a[pcur]), p)
    ensures forall k :: pcur < k < a.Length ==> a[k] == old(a[k])
    ensures dup <==> p > 0 && old(a[p - 1]) == old(a[pcur])
  {
    var cur := a[pcur];
    var pprev := pcur - 1;
    dup := false;
    while pprev >= 0
      invariant -1 <= pprev < pcur
      invariant forall k :: 0 <= k <= pprev ==> a[k] == old(a[k])
      invariant forall k :: pprev < k < pcur ==> old(a[k]) > cur
      invariant forall k :: pprev + 1 < k <= pcur ==> a[k] == old(a[k - 1])
      invariant forall k :: pcur < k < a.Length ==> a[k] == old(a[k])
      invariant !dup
    {
      var prev := a[pprev];
      if prev <= cur {
        dup := prev == cur;
        break;
      }
      a[pprev + 1] := prev;
      pprev := pprev - 1;
    }
    a[pprev + 1] := cur;
    p := pprev + 1;
  }

  lemma IsortStep(was: seq<Int4>, n: nat, s: seq<Int4>, p: nat)
    requires n < |was| && s == SortTo(was, n) && Sorted(s)
    requires StopsAt(s, was[n], p)
    ensures var t := Placed(s, was[n], p);
      && t == SortTo(was, n + 1)
      && Sorted(t) && (Ascending(t) <==> Ascending(s) && (p == 0 || s[p - 1] != was[n]))
  {
    InsertAt(s, was[n], p);
    InsertSorted(s, was[n], p);
  }

  /** Insertion sort in place; the result tells whether there were duplicates. */
  method Isort(a: array<Int4>) returns (r: bool)
    requires a.Length >= 2
    modifies a
    ensures a[..] == InsertionSort(old(a[..]))
    ensures r <==> !Ascending(a[..])
  {
    ghost var was := a[..];
    r := false;
    var pcur := 1;
    assert a[..1] == SortTo(was, 1) by { assert SortTo(was, 0) == []; }
    while pcur < a.Length
      invariant 1 <= pcur <= a.Length
      invariant a[..pcur] == SortTo(was, pcur)
      invariant forall k :: pcur <= k < a.Length ==> a[k] == was[k]
      invariant Sorted(a[..pcur]) && (r <==> !Ascending(a[..pcur]))
    {
      ghost var s := a[..pcur];
      var dup, p := InsertCurrent(a, pcur);
      r := r || dup;
      IsortStep(was, pcur, s, p);
      pcur := pcur + 1;
    }
    assert a[..pcur] == a[..];
  }

  // ----- Removing duplicates -----

  /** Of the first n elements, those that differ from the last one kept before them. */
  function DedupTo(s: seq<Int4>, n: nat): (r: seq<Int4>)
    requires n <= |s|
    ensures n > 0 ==> r != [] && r[|r| - 1] == s[n - 1]
    ensures |r| <= n
  {
    if n == 0 then []
    else
      var r := DedupTo(s, n - 1);
      if r != [] && r[|r| - 1] == s[n - 1] then r else r + [s[n - 1]]
  }

  function Dedup(s: seq<Int4>): seq<Int4> {
    DedupTo(s, |s|)
  }

  lemma {:induction false} DedupToAscending(s: seq<Int4>, n: nat)
    requires Sorted(s) && n <= |s|
    ensures Ascending(DedupTo(s, n)) && Elements(DedupTo(s, n)) == Elements(s[..n])
  {
    if n > 0 {
      var r := DedupTo(s, n - 1);
      DedupToAscending(s, n - 1);
      assert s[..n] == s[..n - 1] + [s[n - 1]];
      ElementsAppend(s[..n - 1], [s[n - 1]]);
      ElementsAppend(r, [s[n - 1]]);
      if r == [] || r[|r| - 1] != s[n - 1] {
        AscendingConcat(r, [s[n - 1]]);
      } else {
        assert s[n - 1] in r;
      }
    }
  }

  lemma DedupAscending(s: seq<Int4>)
    requires Sorted(s)
    ensures Ascending(Dedup(s)) && Elements(Dedup(s)) == Elements(s)
  {
    DedupToAscending(s, |s|);
    assert s[..|s|] == s;
  }

  lemma {:induction false} DedupToIdentity(s: seq<Int4>, n: nat)
    requires Ascending(s) && n <= |s|
    ensures DedupTo(s, n) == s[..n]
  {
    if n > 0 {
      DedupToIdentity(s, n - 1);
    }
  }

  /** Nothing to remove from an ascending array. */
  lemma DedupIdentity(s: seq<Int4>)
    requires Ascending(s)
    ensures Dedup(s) == s
  {
    DedupToIdentity(s, |s|);
  }

  /** Remove duplicates among the first num elements in place; the first r are the result. */
  method IntUnique(a: array<Int4>, num: nat) returns (r: nat)
    requires num <= a.Length
    modifies a
    ensures r <= num && a[..r] == Dedup(old(a[..num]))
  {
    ghost var was := a[..num];
    if num < 2 {
      DedupIdentity(was);
      return num;
    }
    var tmp: nat, dr: nat := 0, 0;
    assert forall k :: 0 <= k < num ==> a[k] == was[k];
    while tmp < num
      invariant tmp <= num && Kept(a[..], was, tmp, dr)
    {
      dr := KeepNew(a, was, tmp, tmp + 1, dr);
      tmp := tmp + 1;
    }
    r := dr + 1;
  }

  /** Of the first tmp elements those before position dr + 1 remain; before the first step that
      is the first element. */
  ghost predicate Kept(a: seq<Int4>, was: seq<Int4>, tmp: nat, dr: nat) {
    && tmp <= |was| <= |a| && 0 < |was| && (dr < tmp || tmp == dr == 0)
    && (forall k :: tmp <= k < |was| ==> a[k] == was[k])
    && if tmp > 0 then a[..dr + 1] == DedupTo(was, tmp) else a[dr] == was[0]
  }

  method KeepNew(a: array<Int4>, ghost was: seq<Int4>, tmp: nat, tmp': nat, dr: nat) returns (dr': nat)
    requires tmp < |was| && tmp' == tmp + 1 && Kept(a[..], was, tmp, dr)
    modifies a
    ensures Kept(a[..], was, tmp', dr')
  {
    dr' := dr;
    ghost var kept := a[..dr + 1];
    assert kept[dr] == a[dr];
    if a[tmp] != a[dr] {
      dr' := dr + 1;
      a[dr'] := a[tmp];
      assert a[..dr' + 1] == kept + [was[tmp]];
    }
  }

  /** A sorted copy without duplicates. */
  function Prepared(s: seq<Int4>): seq<Int4> {
    Dedup(InsertionSort(s))
  }

  lemma PreparedIsSet(s: seq<Int4>)
    ensures Ascending(Prepared(s)) && Elements(Prepared(s)) == Elements(s)
  {
    var t := InsertionSort(s);
    InsertionSortIsSort(s);
    DedupAscending(t);
    assert forall x :: x in t <==> x in multiset(t);
    assert forall x :: x in s <==> x in multiset(s);
  }

  lemma NoElements(s: seq<Int4>)
    ensures Elements(s) == {} <==> s == []
  {
    assert s != [] ==> s[0] in Elements(s);
  }

  lemma {:induction false} SameSetSameArray(s: seq<Int4>, t: seq<Int4>)
    requires Ascending(s) && Ascending(t) && Elements(s) == Elements(t)
    ensures s == t
  {
    NoElements(s);
    NoElements(t);
    if s != [] && t != [] {
      var m, n := |s| - 1, |t| - 1;
      assert s[m] in t && t[n] in s;
      assert s[m] == t[n];
      forall x
        ensures x in s[..m] <==> x in t[..n]
      {
        assert x in s[..m] <==> x in s && x != s[m];
        assert x in t[..n] <==> x in t && x != t[n];
      }
      SameSetSameArray(s[..m], t[..n]);
      assert s == s[..m] + [s[m]] && t == t[..n] + [t[n]];
    }
  }

  method PrepareArr(a: array<Int4>) returns (r: seq<Int4>)
    modifies a
    ensures r == Prepared(old(a[..]))
  {
    if a.Length > 1 {
      InsertionSortIsSort(a[..]);
      var dup := Isort(a);
      assert a[..a.Length] == a[..];
      if dup {
        var n := IntUnique(a, a.Length);
        return a[..n];
      }
    } else {
      assert a[..] != [] ==> a[..][..0] == [] && a[..] == [a[0]];
    }
    DedupIdentity(a[..]);
    return a[..];
  }

  // ----- Searching and merging -----

  /** Binary search in a sorted array. */
  method CheckconditionArr(arr: seq<Int4>, val: Int4) returns (found: bool)
    requires Sorted(arr)
    ensures found <==> val in arr
  {
    var stopLow, stopHigh := 0, |arr|;
    while stopLow < stopHigh
      invariant 0 <= stopLow <= stopHigh <= |arr|
      invariant forall k :: 0 <= k < stopLow ==> arr[k] < val
      invariant forall k :: stopHigh <= k < |arr| ==> val < arr[k]
    {
      var stopMiddle := stopLow + (stopHigh - stopLow) / 2;
      if arr[stopMiddle] == val {
        return true;
      } else if arr[stopMiddle] < val {
        stopLow := stopMiddle + 1;
      } else {
        stopHigh := stopMiddle;
      }
    }
    return false;
  }

  /** Whether a holds every element of b. */
  method InnerIntContains(da: seq<Int4>, db: seq<Int4>) returns (r: bool)
    requires Ascending(da) && Ascending(db)
    ensures r <==> Elements(db) <= Elements(da)
  {
    var na, nb := |da|, |db|;
    var i, j, n := 0, 0, 0;
    while i < na && j < nb
      invariant 0 <= i <= na && 0 <= j <= nb && n == j
      invariant forall k :: 0 <= k < j ==> db[k] in da
      invariant forall k :: 0 <= k < i && j < nb ==> da[k] < db[j]
    {
      if da[i] < db[j] {
        i := i + 1;
      } else if da[i] == db[j] {
        n, i, j := n + 1, i + 1, j + 1;
      } else {
        assert db[j] !in da;
        break;
      }
    }
    assert n < nb ==> db[j] !in da && db[j] in Elements(db);
    r := n == nb;
  }

  /** Whether two sorted arrays have an element in common. */
  method InnerIntOverlap(da: seq<Int4>, db: seq<Int4>) returns (r: bool)
    requires Sorted(da) && Sorted(db)
    ensures r <==> Elements(da) * Elements(db) != {}
  {
    var na, nb := |da|, |db|;
    var i, j := 0, 0;
    while i < na && j < nb
      invariant 0 <= i <= na && 0 <= j <= nb
      invariant forall k :: 0 <= k < i ==> da[k] !in db
      invariant forall k :: 0 <= k < j ==> db[k] !in da
    {
      if da[i] < db[j] {
        assert da[i] !in db by {
          assert forall k :: j <= k < nb ==> db[j] <= db[k];
        }
        i := i + 1;
      } else if da[i] == db[j] {
        assert da[i] in Elements(da) * Elements(db);
        return true;
      } else {
        assert db[j] !in da by {
          assert forall k :: i <= k < na ==> da[i] <= da[k];
        }
        j := j + 1;
      }
    }
    return false;
  }

  /** What the union loop writes next at positions i and j, and the positions after it. */
  function MergeStep(a: seq<Int4>, i: nat, b: seq<Int4>, j: nat): (r: (Int4, nat, nat))
    requires i <= |a| && j <= |b| && (i < |a| || j < |b|)
    ensures i <= r.1 <= |a| && j <= r.2 <= |b| && i + j < r.1 + r.2
  {
    if i < |a| && j < |b| && a[i] == b[j] then (a[i], i + 1, j + 1)
    else if i < |a| && (j == |b| || a[i] < b[j]) then (a[i], i + 1, j)
    else (b[j], i, j + 1)
  }

  /** What it writes from there on. */
  function Merge(a: seq<Int4>, i: nat, b: seq<Int4>, j: nat): (r: seq<Int4>)
    requires i <= |a| && j <= |b|
    ensures |r| <= |a| - i + |b| - j
    decreases |a| - i + |b| - j
  {
    if i == |a| && j == |b| then []
    else
      var (x, i', j') := MergeStep(a, i, b, j);
      [x] + Merge(a, i', b, j')
  }

  lemma {:induction false} MergeElements(a: seq<Int4>, i: nat, b: seq<Int4>, j: nat, x: Int4)
    requires i <= |a| && j <= |b|
    ensures x in Merge(a, i, b, j) <==> x in a[i..] || x in b[j..]
    decreases |a| - i + |b| - j
  {
    assert i < |a| ==> a[i..] == [a[i]] + a[i + 1..];
    assert j < |b| ==> b[j..] == [b[j]] + b[j + 1..];
    if i < |a| || j < |b| {
      var (y, i', j') := MergeStep(a, i, b, j);
      MergeElements(a, i', b, j', x);
    }
  }

  lemma {:induction false} MergeSorted(a: seq<Int4>, i: nat, b: seq<Int4>, j: nat)
    requires Sorted(a) && Sorted(b) && i <= |a| && j <= |b|
    ensures Sorted(Merge(a, i, b, j))
    decreases |a| - i + |b| - j
  {
    if i < |a| || j < |b| {
      var (x, i', j') := MergeStep(a, i, b, j);
      MergeSorted(a, i', b, j');
      SortedConcat([x], Merge(a, i', b, j'));
    }
  }

  function Union(a: seq<Int4>, b: seq<Int4>): seq<Int4> {
    Dedup(Merge(a, 0, b, 0))
  }

  lemma UnionIsUnion(a: seq<Int4>, b: seq<Int4>)
    requires Sorted(a) && Sorted(b)
    ensures Ascending(Union(a, b)) && Elements(Union(a, b)) == Elements(a) + Elements(b)
  {
    MergeSorted(a, 0, b, 0);
    DedupAscending(Merge(a, 0, b, 0));
    forall x
      ensures x in Merge(a, 0, b, 0) <==> x in a || x in b
    {
      MergeElements(a, 0, b, 0, x);
      assert a[0..] == a && b[0..] == b;
    }
  }

  lemma {:induction false} MergeAlone(a: seq<Int4>, i: nat, b: seq<Int4>)
    requires i <= |a|
    ensures Merge(a, i, b, |b|) == a[i..] && Merge(b, |b|, a, i) == a[i..]
    decreases |a| - i
  {
    if i < |a| {
      MergeAlone(a, i + 1, b);
    }
  }

  /** Write a[i..] behind the first k elements of dr. */
  method AppendRest(dr: array<Int4>, k: nat, a: seq<Int4>, i: nat) returns (k': nat)
    requires i <= |a| && k + |a| - i <= dr.Length
    modifies dr
    ensures k' == k + |a| - i && dr[..k'] == old(dr[..k]) + a[i..]
  {
    k' := k;
    var i' := i;
    while i' < |a|
      invariant i <= i' <= |a| && k' == k + i' - i
      invariant dr[..k'] == old(dr[..k]) + a[i..i']
    {
      dr[k'] := a[i'];
      k', i' := k' + 1, i' + 1;
    }
    assert a[i..i'] == a[i..];
  }

  method MergeInto(dr: array<Int4>, da: seq<Int4>, db: seq<Int4>) returns (k: nat)
    requires dr.Length == |da| + |db|
    modifies dr
    ensures k <= dr.Length && dr[..k] == Merge(da, 0, db, 0)
  {
    var na, nb := |da|, |db|;
    var i, j := 0, 0;
    k := 0;
    while i < na && j < nb
      invariant 0 <= i <= na && 0 <= j <= nb && k <= i + j
      invariant dr[..k] + Merge(da, i, db, j) == Merge(da, 0, db, 0)
    {
      ghost var done, i0, j0 := dr[..k], i, j;
      if da[i] == db[j] {
        dr[k] := da[i];
        k, i, j := k + 1, i + 1, j + 1;
      } else if da[i] < db[j] {
        dr[k] := da[i];
        k, i := k + 1, i + 1;
      } else {
        dr[k] := db[j];
        k, j := k + 1, j + 1;
      }
      assert (dr[k - 1], i, j) == MergeStep(da, i0, db, j0);
      Assoc(done, [dr[k - 1]], Merge(da, i, db, j));
      assert dr[..k] == done + [dr[k - 1]];
    }
    MergeAlone(da, i, db);
    MergeAlone(db, j, da);
    k := AppendRest(dr, k, da, i);
    k := AppendRest(dr, k, db, j);
  }

  /** The merge of two non-empty arrays needs room for both. */
  predicate NoRoom(da: seq<Int4>, db: seq<Int4>) {
    da != [] && db != [] && |da| + |db| > MAX_ELEMENTS
  }

  method InnerIntUnion(da: seq<Int4>, db: seq<Int4>) returns (r: Result<seq<Int4>, ArrayError>)
    requires |da| <= MAX_ELEMENTS && |db| <= MAX_ELEMENTS
    ensures r == if NoRoom(da, db) then Failure(Refused) else Success(Union(da, db))
  {
    var na, nb := |da|, |db|;
    TwoArrays(na, nb);
    RoomExact(na + nb);
    var ok, dr := NewIntArrayType(Wrap32(na + nb));
    if !ok {
      return Failure(Refused);
    }
    var k := MergeOrCopy(dr, da, db);
    if k > 1 {
      k := IntUnique(dr, k);
    } else {
      DedupIdentity(dr[..k]);
    }
    r := Success(dr[..k]);
  }

  method MergeOrCopy(dr: array<Int4>, da: seq<Int4>, db: seq<Int4>) returns (k: nat)
    requires dr.Length == |da| + |db|
    modifies dr
    ensures k <= dr.Length && dr[..k] == Merge(da, 0, db, 0)
  {
    if |db| == 0 {
      MergeAlone(da, 0, db);
      k := AppendRest(dr, 0, da, 0);
    } else if |da| == 0 {
      MergeAlone(db, 0, da);
      k := AppendRest(dr, 0, db, 0);
    } else {
      k := MergeInto(dr, da, db);
    }
  }

  lemma OnlyBefore(s: seq<Int4>, n: nat, x: Int4)
    requires Sorted(s) && n < |s| && x < s[n]
    ensures x in s ==> x in s[..n]
  {
  }

  /** c is what a and b have in common as far as positions i and j. */
  ghost predicate CommonTo(c: seq<Int4>, a: seq<Int4>, i: nat, b: seq<Int4>, j: nat) {
    && i <= |a| && j <= |b|
    && Ascending(c)
    && (forall x :: x in c ==> x in a[..i] && x in b[..j])
    && (forall x :: x in a[..i] && x in b ==> x in c)
    && (forall x :: x in b[..j] && x in a ==> x in c)
  }

  lemma CommonSkip(c: seq<Int4>, a: seq<Int4>, i: nat, b: seq<Int4>, j: nat)
    requires Sorted(b) && i < |a| && j < |b| && a[i] < b[j] && CommonTo(c, a, i, b, j)
    ensures CommonTo(c, a, i + 1, b, j)
  {
    OnlyBefore(b, j, a[i]);
    assert a[..i + 1] == a[..i] + [a[i]];
    assert a[i] in a;
  }

  lemma CommonSwap(c: seq<Int4>, a: seq<Int4>, i: nat, b: seq<Int4>, j: nat)
    requires CommonTo(c, a, i, b, j)
    ensures CommonTo(c, b, j, a, i)
  {
  }

  /** c with x, unless x is its last element. */
  function AppendNew(c: seq<Int4>, x: Int4): seq<Int4> {
    if c == [] || c[|c| - 1] != x then c + [x] else c
  }

  lemma AppendNewAscending(c: seq<Int4>, x: Int4)
    requires Ascending(c) && (c == [] || c[|c| - 1] <= x)
    ensures Ascending(AppendNew(c, x))
    ensures forall y :: y in AppendNew(c, x) <==> y in c || y == x
  {
    if c == [] || c[|c| - 1] != x {
      AscendingConcat(c, [x]);
    } else {
      assert x in c;
    }
  }

  lemma CommonTake(c: seq<Int4>, a: seq<Int4>, i: nat, b: seq<Int4>, j: nat)
    requires Sorted(a) && i < |a| && j < |b| && a[i] == b[j] && CommonTo(c, a, i, b, j)
    ensures CommonTo(AppendNew(c, b[j]), a, i + 1, b, j + 1)
  {
    assert a[..i + 1] == a[..i] + [a[i]] && b[..j + 1] == b[..j] + [b[j]];
    if c != [] {
      assert c[|c| - 1] in c;
      assert c[|c| - 1] in a[..i];
    }
    AppendNewAscending(c, b[j]);
  }

  /** The common elements of two sorted arrays. */
  method InnerIntInter(da: seq<Int4>, db: seq<Int4>) returns (r: seq<Int4>)
    requires Sorted(da) && Sorted(db)
    ensures Ascending(r) && Elements(r) == Elements(da) * Elements(db)
  {
    var na, nb := |da|, |db|;
    if na == 0 || nb == 0 {
      return [];
    }
    var dr := new Int4[Min(na, nb)](_ => 0);
    var i, j, k := 0, 0, 0;
    while i < na && j < nb
      invariant 0 <= i <= na && 0 <= j <= nb && 0 <= k <= Min(i, j)
      invariant CommonTo(dr[..k], da, i, db, j)
    {
      ghost var c := dr[..k];
      if da[i] < db[j] {
        CommonSkip(c, da, i, db, j);
        i := i + 1;
      } else if da[i] == db[j] {
        if k == 0 || dr[k - 1] != db[j] {
          dr[k] := db[j];
          k := k + 1;
        }
        assert dr[..k] == AppendNew(c, db[j]);
        CommonTake(c, da, i, db, j);
        i, j := i + 1, j + 1;
      } else {
        CommonSwap(c, da, i, db, j);
        CommonSkip(c, db, j, da, i);
        CommonSwap(c, db, j + 1, da, i);
        j := j + 1;
      }
    }
    assert da[..na] == da && db[..nb] == db;
    r := dr[..k];
  }
}
