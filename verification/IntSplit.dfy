/** g_int_picksplit of intarray/_int_gist.c: splitting a page of array keys. */
module IntSplit {
  import opened Wrappers
  import opened Ints
  import opened Sequences
  import opened IntRoom
  import opened IntArray
  import opened RangeKey
  import opened IndexScan
  import opened IntGist

  /** The entry with a given number; numbers start at 1. */
  function Entry(entries: seq<seq<Int4>>, i: nat): seq<Int4>
    requires 1 <= i <= |entries|
  {
    entries[i - 1]
  }

  predicate SortedEntries(entries: seq<seq<Int4>>) {
    forall i :: 1 <= i <= |entries| ==> Ascending(Entry(entries, i))
  }

  /** C's arithmetic on `float` and `double`, as far as it rounds: a size as a float, the
      difference of two floats, and the result of an operation in double. */
  datatype Floats = Floats(size: int -> real, minus: (real, real) -> real, double: real -> real)

  /** The integers a `float` holds without rounding. */
  const FLOAT_EXACT: int := 0x100_0000

  predicate Small(n: int) {
    -FLOAT_EXACT <= n <= FLOAT_EXACT
  }

  function Real(n: int): real {
    n as real
  }

  /** As far as that, nothing is rounded. */
  ghost predicate ExactSmall(f: Floats) {
    && (forall n :: 0 <= n <= FLOAT_EXACT ==> f.size(n) == Real(n))
    && (forall m, n :: Small(m) && Small(n) && Small(m - n) ==> f.minus(Real(m), Real(n)) == Real(m - n))
  }

  /** Arithmetic that never rounds. */
  ghost predicate Exact(f: Floats) {
    && (forall n :: f.size(n) == Real(n))
    && (forall x, y :: f.minus(x, y) == x - y)
    && (forall x :: f.double(x) == x)
  }

  /** What a page holding both entries would hold beyond what they share, as computed. */
  function Waste(f: Floats, entries: seq<seq<Int4>>, i: nat, j: nat): real
    requires 1 <= i <= |entries| && 1 <= j <= |entries|
  {
    var a, b := Elements(Entry(entries, i)), Elements(Entry(entries, j));
    f.minus(f.size(|a + b|), f.size(|a * b|))
  }

  /** The same without rounding. */
  function ElementsWasted(entries: seq<seq<Int4>>, i: nat, j: nat): int
    requires 1 <= i <= |entries| && 1 <= j <= |entries|
  {
    var a, b := Elements(Entry(entries, i)), Elements(Entry(entries, j));
    |a + b| - |a * b|
  }

  lemma SubsetSize<T>(a: set<T>, b: set<T>)
    requires a <= b
    ensures |a| <= |b|
  {
    assert b == a + (b - a);
  }

  /** The waste is exact for entries that together have at most 2^24 elements. */
  lemma WasteExact(f: Floats, entries: seq<seq<Int4>>, i: nat, j: nat)
    requires ExactSmall(f) && 1 <= i <= |entries| && 1 <= j <= |entries|
    requires |Elements(Entry(entries, i)) + Elements(Entry(entries, j))| <= FLOAT_EXACT
    ensures Waste(f, entries, i, j) == Real(ElementsWasted(entries, i, j))
  {
    var a, b := Elements(Entry(entries, i)), Elements(Entry(entries, j));
    SubsetSize(a * b, a + b);
  }

  lemma {:induction false} AscendingSize(s: seq<Int4>)
    requires Ascending(s)
    ensures |Elements(s)| == |s|
  {
    if s != [] {
      var n := |s| - 1;
      AscendingSize(s[..n]);
      assert s == s[..n] + [s[n]];
      ElementsAppend(s[..n], [s[n]]);
      assert s[n] !in s[..n];
      assert Elements([s[n]]) == {s[n]};
    }
  }

  // ----- Room for the unions -----

  /** An array holds each entry. */
  predicate Held(entries: seq<seq<Int4>>) {
    forall i :: 1 <= i <= |entries| ==> |Entry(entries, i)| <= MAX_ELEMENTS
  }

  /** All elements of the page. */
  function AllElements(entries: seq<seq<Int4>>): set<Int4> {
    Gathered(entries, Numbers(|entries|))
  }

  /** The page has more than half as many different elements as an array can hold. */
  predicate Crowded(entries: seq<seq<Int4>>) {
    2 * |AllElements(entries)| > MAX_ELEMENTS
  }

  /** Only then can a union of parts of it be refused. */
  lemma RefusedIfCrowded(entries: seq<seq<Int4>>, a: seq<Int4>, b: seq<Int4>)
    requires Ascending(a) && Ascending(b) && NoRoom(a, b)
    requires Elements(a) <= AllElements(entries) && Elements(b) <= AllElements(entries)
    ensures Crowded(entries)
  {
    AscendingSize(a);
    AscendingSize(b);
    SubsetSize(Elements(a), AllElements(entries));
    SubsetSize(Elements(b), AllElements(entries));
  }

  lemma EntryInPage(entries: seq<seq<Int4>>, i: nat)
    requires 1 <= i <= |entries|
    ensures Elements(Entry(entries, i)) <= AllElements(entries)
  {
    assert Numbers(|entries|)[i - 1] == i;
    GatheredMember(entries, Numbers(|entries|), i);
  }

  // ----- The seeds -----

  method SizeWaste(f: Floats, entries: seq<seq<Int4>>, i: nat, j: nat) returns (w: Result<real, ArrayError>)
    requires SortedEntries(entries) && Held(entries) && 1 <= i <= |entries| && 1 <= j <= |entries|
    ensures w.Success? ==> w.value == Waste(f, entries, i, j)
    ensures w.Failure? ==> w.error == Refused && Crowded(entries)
  {
    var a, b := Entry(entries, i), Entry(entries, j);
    EntryInPage(entries, i);
    EntryInPage(entries, j);
    if NoRoom(a, b) {
      RefusedIfCrowded(entries, a, b);
    }
    var union :- InnerIntUnion(a, b);
    var inter := InnerIntInter(a, b);
    UnionIsUnion(a, b);
    AscendingSize(union);
    AscendingSize(inter);
    w := Success(f.minus(f.size(|union|), f.size(|inter|)));
  }

  /** The best pair so far; firsttime until there is one. */
  datatype Seeds = Seeds(seed1: nat, seed2: nat, waste: real, firsttime: bool)

  /** s is the most wasteful of the pairs before (i, j), among the first maxoff entries. */
  ghost predicate Best(f: Floats, entries: seq<seq<Int4>>, maxoff: nat, s: Seeds, i: nat, j: nat)
    requires maxoff <= |entries|
  {
    && (!s.firsttime ==> 1 <= s.seed1 < s.seed2 <= maxoff && s.waste == Waste(f, entries, s.seed1, s.seed2))
    && forall k, l :: 1 <= k < l <= maxoff && (k < i || (k == i && l < j)) ==>
         !s.firsttime && Waste(f, entries, k, l) <= s.waste
  }

  lemma BestNext(f: Floats, entries: seq<seq<Int4>>, maxoff: nat, s: Seeds, i: nat, j: nat, w: real, r: Seeds)
    requires 1 <= i < j <= maxoff <= |entries| && Best(f, entries, maxoff, s, i, j) && w == Waste(f, entries, i, j)
    requires r == if w > s.waste || s.firsttime then Seeds(i, j, w, false) else s
    ensures Best(f, entries, maxoff, r, i, j + 1)
  {
  }

  method SeedRow(f: Floats, entries: seq<seq<Int4>>, maxoff: nat, i: nat, s: Seeds) returns (res: Result<Seeds, ArrayError>)
    requires SortedEntries(entries) && Held(entries) && 1 <= i < maxoff <= |entries| && Best(f, entries, maxoff, s, i, i + 1)
    ensures res.Success? ==> !res.value.firsttime && Best(f, entries, maxoff, res.value, i + 1, i + 2)
    ensures res.Failure? ==> res.error == Refused && Crowded(entries)
  {
    var r := s;
    var j := i + 1;
    while j <= maxoff
      invariant i < j <= maxoff + 1
      invariant Best(f, entries, maxoff, r, i, j)
    {
      var sizeWaste :- SizeWaste(f, entries, i, j);
      ghost var before := r;
      if sizeWaste > r.waste || r.firsttime {
        r := Seeds(i, j, sizeWaste, false);
      }
      BestNext(f, entries, maxoff, before, i, j, sizeWaste, r);
      j := j + 1;
    }
    assert Waste(f, entries, i, i + 1) <= r.waste;
    res := Success(r);
  }

  /** No two entries other than the last one waste more than these two, as computed. */
  ghost predicate WasteMost(f: Floats, entries: seq<seq<Int4>>, seed1: nat, seed2: nat) {
    && 1 <= seed1 < seed2 <= |entries|
    && forall i, j :: 1 <= i < j < |entries| ==> Waste(f, entries, i, j) <= Waste(f, entries, seed1, seed2)
  }

  /** If no two entries have more than 2^24 elements together, they waste most indeed. */
  lemma WasteMostExact(f: Floats, entries: seq<seq<Int4>>, seed1: nat, seed2: nat)
    requires ExactSmall(f) && WasteMost(f, entries, seed1, seed2)
    requires forall i, j :: 1 <= i <= |entries| && 1 <= j <= |entries| ==>
      |Elements(Entry(entries, i)) + Elements(Entry(entries, j))| <= FLOAT_EXACT
    ensures forall i, j :: 1 <= i < j < |entries| ==> ElementsWasted(entries, i, j) <= ElementsWasted(entries, seed1, seed2)
  {
    WasteExact(f, entries, seed1, seed2);
    forall i, j | 1 <= i < j < |entries|
      ensures ElementsWasted(entries, i, j) <= ElementsWasted(entries, seed1, seed2)
    {
      WasteExact(f, entries, i, j);
    }
  }

  /** The two entries that waste most, among all but the last one. */
  method PickSeeds(f: Floats, entries: seq<seq<Int4>>) returns (r: Result<(nat, nat), ArrayError>)
    requires SortedEntries(entries) && Held(entries) && |entries| >= 2
    ensures r.Success? ==> WasteMost(f, entries, r.value.0, r.value.1)
    ensures r.Failure? ==> r.error == Refused && Crowded(entries)
  {
    var maxoff := |entries| - 1;
    var s := Seeds(0, 0, 0.0, true);
    var i := 1;
    while i < maxoff
      invariant 1 <= i <= maxoff
      invariant i == 1 ==> s == Seeds(0, 0, 0.0, true)
      invariant i > 1 ==> !s.firsttime
      invariant Best(f, entries, maxoff, s, i, i + 1)
    {
      s :- SeedRow(f, entries, maxoff, i, s);
      i := i + 1;
    }
    var seed1, seed2 := s.seed1, s.seed2;
    if seed1 == 0 || seed2 == 0 {
      seed1, seed2 := 1, 2;
    }
    r := Success((seed1, seed2));
  }

  datatype SplitCost = SplitCost(pos: nat, cost: real)

  function Cube(x: int): int {
    x * x * x
  }

  /** The double nearest to 0.01. */
  const CENT: real := 5764607523034235.0 / 576460752303423488.0

  function Wish(f: Floats, a: nat, b: nat): real {
    f.double(-(Cube(a - b) as real) * CENT)
  }

  function EntryElements(entries: seq<seq<Int4>>, i: nat): set<Int4> {
    if 1 <= i <= |entries| then Elements(Entry(entries, i)) else {}
  }

  /** All elements of the numbered entries. */
  function Gathered(entries: seq<seq<Int4>>, numbers: seq<nat>): set<Int4> {
    if numbers == [] then {}
    else Gathered(entries, numbers[..|numbers| - 1]) + EntryElements(entries, numbers[|numbers| - 1])
  }

  lemma GatheredAppend(entries: seq<seq<Int4>>, numbers: seq<nat>, i: nat)
    ensures Gathered(entries, numbers + [i]) == Gathered(entries, numbers) + EntryElements(entries, i)
  {
    assert (numbers + [i])[..|numbers|] == numbers;
  }

  lemma {:induction false} GatheredMember(entries: seq<seq<Int4>>, numbers: seq<nat>, i: nat)
    requires i in numbers
    ensures EntryElements(entries, i) <= Gathered(entries, numbers)
  {
    if i != numbers[|numbers| - 1] {
      GatheredMember(entries, numbers[..|numbers| - 1], i);
    }
  }

  datatype SplitVec = SplitVec(left: seq<nat>, right: seq<nat>, ldatum: seq<Int4>, rdatum: seq<Int4>)

  /** 1, 2, ... up to n. */
  function Numbers(n: nat): seq<nat> {
    seq(n, k => k + 1)
  }

  /** How much a key grows when it takes in an entry, as computed. */
  function Enlargement(f: Floats, key: set<Int4>, entry: set<Int4>): real {
    f.minus(f.size(|key + entry|), f.size(|key|))
  }

  lemma EnlargementExact(f: Floats, key: set<Int4>, entry: set<Int4>)
    requires ExactSmall(f) && |key + entry| <= FLOAT_EXACT
    ensures Enlargement(f, key, entry) == Real(|key + entry| - |key|)
  {
    SubsetSize(key, key + entry);
  }

  function Abs(x: real): real {
    if x < 0.0 then -x else x
  }

  /** A key grown by an entry, and the growth. */
  ghost predicate Grown(f: Floats, k: set<Int4>, e: set<Int4>, r: (seq<Int4>, real)) {
    && Ascending(r.0) && |r.0| <= MAX_ELEMENTS && Elements(r.0) == k + e
    && r.1 == Enlargement(f, k, e)
  }

  method UnionGrowth(f: Floats, key: seq<Int4>, entry: seq<Int4>, ghost k: set<Int4>, ghost e: set<Int4>,
                     ghost entries: seq<seq<Int4>>) returns (r: Result<(seq<Int4>, real), ArrayError>)
    requires Ascending(key) && Ascending(entry) && |key| <= MAX_ELEMENTS && |entry| <= MAX_ELEMENTS
    requires k == Elements(key) <= AllElements(entries) && e == Elements(entry) <= AllElements(entries)
    ensures r.Success? ==> Grown(f, k, e, r.value)
    ensures r.Failure? ==> r.error == Refused && Crowded(entries)
  {
    if NoRoom(key, entry) {
      RefusedIfCrowded(entries, key, entry);
    }
    var union :- InnerIntUnion(key, entry);
    UnionIsUnion(key, entry);
    UnionFits(key, entry);
    AscendingSize(union);
    AscendingSize(key);
    r := Success((union, f.minus(f.size(|union|), f.size(|key|))));
  }

  /** The growth of both sides by an entry. */
  method BothGrowths(f: Floats, l: seq<Int4>, r: seq<Int4>, entry: seq<Int4>, ghost e: set<Int4>, ghost entries: seq<seq<Int4>>)
      returns (res: Result<((seq<Int4>, real), (seq<Int4>, real)), ArrayError>)
    requires Ascending(l) && |l| <= MAX_ELEMENTS && Elements(l) <= AllElements(entries)
    requires Ascending(r) && |r| <= MAX_ELEMENTS && Elements(r) <= AllElements(entries)
    requires Ascending(entry) && |entry| <= MAX_ELEMENTS && e == Elements(entry) <= AllElements(entries)
    ensures res.Success? ==> Grown(f, Elements(l), e, res.value.0) && Grown(f, Elements(r), e, res.value.1)
    ensures res.Failure? ==> res.error == Refused && Crowded(entries)
  {
    var left :- UnionGrowth(f, l, entry, Elements(l), e, entries);
    var right :- UnionGrowth(f, r, entry, Elements(r), e, entries);
    res := Success((left, right));
  }

  lemma UnionFits(a: seq<Int4>, b: seq<Int4>)
    requires Ascending(a) && Ascending(b) && !NoRoom(a, b) && |a| <= MAX_ELEMENTS && |b| <= MAX_ELEMENTS
    ensures |Union(a, b)| <= MAX_ELEMENTS
  {
    UnionIsUnion(a, b);
    AscendingSize(Union(a, b));
    AscendingSize(a);
    AscendingSize(b);
    assert Elements(a) + Elements(b) == Elements(a) + (Elements(b) - Elements(a));
  }

  /** The cost of an entry: how differently the two seeds would grow by it. */
  function CostOf(f: Floats, entries: seq<seq<Int4>>, l: seq<Int4>, r: seq<Int4>, i: nat): real {
    var e := EntryElements(entries, i);
    Abs(f.minus(Enlargement(f, Elements(l), e), Enlargement(f, Elements(r), e)))
  }

  /** The cost is exact for seeds and entries that together have at most 2^24 elements. */
  lemma CostExact(f: Floats, entries: seq<seq<Int4>>, l: seq<Int4>, r: seq<Int4>, i: nat)
    requires ExactSmall(f)
    requires |Elements(l) + EntryElements(entries, i)| <= FLOAT_EXACT && |Elements(r) + EntryElements(entries, i)| <= FLOAT_EXACT
    ensures var e, x, y := EntryElements(entries, i), Elements(l), Elements(r);
      CostOf(f, entries, l, r, i) == Abs(Real((|x + e| - |x|) - (|y + e| - |y|)))
  {
    var e, x, y := EntryElements(entries, i), Elements(l), Elements(r);
    EnlargementExact(f, x, e);
    EnlargementExact(f, y, e);
    SubsetSize(x, x + e);
    SubsetSize(y, y + e);
  }

  method EntryCost(f: Floats, entries: seq<seq<Int4>>, l: seq<Int4>, r: seq<Int4>, i: nat) returns (res: Result<SplitCost, ArrayError>)
    requires SortedEntries(entries) && Held(entries) && 1 <= i <= |entries|
    requires Ascending(l) && |l| <= MAX_ELEMENTS && Elements(l) <= AllElements(entries)
    requires Ascending(r) && |r| <= MAX_ELEMENTS && Elements(r) <= AllElements(entries)
    ensures res.Success? ==> res.value == SplitCost(i, CostOf(f, entries, l, r, i))
    ensures res.Failure? ==> res.error == Refused && Crowded(entries)
  {
    EntryInPage(entries, i);
    var both :- BothGrowths(f, l, r, Entry(entries, i), EntryElements(entries, i), entries);
    res := Success(SplitCost(i, Abs(f.minus(both.0.1, both.1.1))));
  }

  method Costs(f: Floats, entries: seq<seq<Int4>>, l: seq<Int4>, r: seq<Int4>) returns (res: Result<seq<SplitCost>, ArrayError>)
    requires SortedEntries(entries) && Held(entries)
    requires Ascending(l) && |l| <= MAX_ELEMENTS && Elements(l) <= AllElements(entries)
    requires Ascending(r) && |r| <= MAX_ELEMENTS && Elements(r) <= AllElements(entries)
    ensures res.Success? ==> |res.value| == |entries|
    ensures res.Success? ==> forall k :: 0 <= k < |entries| ==> res.value[k] == SplitCost(k + 1, CostOf(f, entries, l, r, k + 1))
    ensures res.Failure? ==> res.error == Refused && Crowded(entries)
  {
    var a := new SplitCost[|entries|](_ => SplitCost(0, 0.0));
    var i := 1;
    while i <= |entries|
      invariant 1 <= i <= |entries| + 1
      invariant forall k :: 0 <= k < i - 1 ==> a[k] == SplitCost(k + 1, CostOf(f, entries, l, r, k + 1))
    {
      a[i - 1] :- EntryCost(f, entries, l, r, i);
      i := i + 1;
    }
    res := Success(a[..]);
  }

  /** What `qsort` may leave of the cost vector: any reordering. */
  ghost predicate Reorders(qsort: seq<SplitCost> -> seq<SplitCost>) {
    forall s :: multiset(qsort(s)) == multiset(s)
  }

  function Positions(costs: seq<SplitCost>): seq<nat> {
    Mapped((c: SplitCost) => c.pos, costs)
  }

  /** The entries dealt out so far; the data of both sides gather their entries and seeds. */
  ghost predicate Dealt(entries: seq<seq<Int4>>, seed1: nat, seed2: nat, dealt: seq<nat>, v: SplitVec) {
    && multiset(v.left) + multiset(v.right) == multiset(dealt)
    && Ascending(v.ldatum) && Elements(v.ldatum) == EntryElements(entries, seed1) + Gathered(entries, v.left)
    && Ascending(v.rdatum) && Elements(v.rdatum) == EntryElements(entries, seed2) + Gathered(entries, v.right)
    && |v.ldatum| <= MAX_ELEMENTS && |v.rdatum| <= MAX_ELEMENTS
    && (seed1 in dealt ==> seed1 in v.left) && (seed2 in dealt ==> seed2 in v.right)
  }

  lemma DealLeft(entries: seq<seq<Int4>>, seed1: nat, seed2: nat, dealt: seq<nat>, v: SplitVec, i: nat, v': SplitVec)
    requires Dealt(entries, seed1, seed2, dealt, v) && i != seed2
    requires v' == v.(left := v.left + [i], ldatum := v'.ldatum)
    requires Ascending(v'.ldatum) && |v'.ldatum| <= MAX_ELEMENTS && Elements(v'.ldatum) == Elements(v.ldatum) + EntryElements(entries, i)
    ensures Dealt(entries, seed1, seed2, dealt + [i], v')
  {
    GatheredAppend(entries, v.left, i);
  }

  lemma DealRight(entries: seq<seq<Int4>>, seed1: nat, seed2: nat, dealt: seq<nat>, v: SplitVec, i: nat, v': SplitVec)
    requires Dealt(entries, seed1, seed2, dealt, v) && i != seed1
    requires v' == v.(right := v.right + [i], rdatum := v'.rdatum)
    requires Ascending(v'.rdatum) && |v'.rdatum| <= MAX_ELEMENTS && Elements(v'.rdatum) == Elements(v.rdatum) + EntryElements(entries, i)
    ensures Dealt(entries, seed1, seed2, dealt + [i], v')
  {
    GatheredAppend(entries, v.right, i);
  }

  lemma {:induction false} GatheredInPage(entries: seq<seq<Int4>>, numbers: seq<nat>)
    ensures Gathered(entries, numbers) <= AllElements(entries)
  {
    if numbers != [] {
      var i := numbers[|numbers| - 1];
      GatheredInPage(entries, numbers[..|numbers| - 1]);
      if 1 <= i <= |entries| {
        EntryInPage(entries, i);
      }
    }
  }

  /** The data hold elements of the page only. */
  lemma DataInPage(entries: seq<seq<Int4>>, seed1: nat, seed2: nat, dealt: seq<nat>, v: SplitVec)
    requires Dealt(entries, seed1, seed2, dealt, v)
    ensures Elements(v.ldatum) <= AllElements(entries) && Elements(v.rdatum) <= AllElements(entries)
  {
    GatheredInPage(entries, v.left);
    GatheredInPage(entries, v.right);
    GatheredInPage(entries, [seed1]);
    GatheredInPage(entries, [seed2]);
    GatheredMember(entries, [seed1], seed1);
    GatheredMember(entries, [seed2], seed2);
  }

  /** Whether entry i goes left: a seed stays on its own side, another entry goes where the
      key grows less, with a handicap for the fuller side. */
  predicate GoesLeft(f: Floats, entries: seq<seq<Int4>>, seed1: nat, seed2: nat, v: SplitVec, i: nat) {
    var e := EntryElements(entries, i);
    i == seed1 || (i != seed2
      && Enlargement(f, Elements(v.ldatum), e)
         < f.double(Enlargement(f, Elements(v.rdatum), e) + Wish(f, |v.left|, |v.right|)))
  }

  /** By how many elements a key grows. */
  function Growth(key: seq<Int4>, e: set<Int4>): int {
    |Elements(key) + e| - |Elements(key)|
  }

  /** Without rounding, an entry that lets the left key grow by d elements more than the right one
      goes left if 100 d is less than the cube of what the right side has more entries; the constant
      for 0.01 is a little larger, which decides the tie. */
  predicate Fewer(d: int, left: nat, right: nat) {
    var c := (right - left) * (right - left) * (right - left);
    100 * d < c || (100 * d == c && c > 0)
  }

  lemma CentRule(d: int, c: int)
    requires -300_000_000_000_000 <= c <= 300_000_000_000_000
    ensures Real(d) < Real(c) * CENT <==> 100 * d < c || (100 * d == c && c > 0)
  {
    assert Real(c) * CENT == Real(c) * 5764607523034235.0 / 576460752303423488.0;
    assert Real(d) < Real(c) * CENT <==> 576460752303423488 * d < 5764607523034235 * c;
    assert 576460752303423488 * d < 5764607523034235 * c <==> 576460752303423488 * (100 * d - c) < 12 * c;
  }

  lemma Times(a: nat, b: nat, m: nat, n: nat)
    requires a <= m && b <= n
    ensures 0 <= a * b <= m * n
  {
    assert m * n - a * b == (m - a) * n + a * (n - b);
  }

  lemma CubeOfNat(x: nat)
    requires x <= 65535
    ensures 0 <= x * x * x <= 300_000_000_000_000 && (x > 0 ==> x * x * x > 0)
  {
    Times(x, x, 65535, 65535);
    Times(x * x, x, 4294836225, 65535);
    if x > 0 {
      Times(1, 1, x, x);
      Times(1, 1, x * x, x);
    }
  }

  lemma CubeBound(x: int)
    requires -65535 <= x <= 65535
    ensures -300_000_000_000_000 <= x * x * x <= 300_000_000_000_000
    ensures x > 0 ==> x * x * x > 0
    ensures x < 0 ==> x * x * x < 0
  {
    if x >= 0 {
      CubeOfNat(x);
    } else {
      CubeOfNat(-x);
      NegatedCube(x);
    }
  }

  lemma NegatedCube(x: int)
    ensures -x * -x * -x == -(x * x * x)
  {
  }

  lemma CubeSwap(a: int, b: int)
    ensures -Cube(a - b) == (b - a) * (b - a) * (b - a)
  {
  }

  lemma SideRule(f: Floats, gl: int, gr: int, left: nat, right: nat)
    requires Exact(f) && left <= 65535 && right <= 65535
    ensures Real(gl) < f.double(Real(gr) + Wish(f, left, right)) <==> Fewer(gl - gr, left, right)
  {
    var c := (right - left) * (right - left) * (right - left);
    CubeBound(right - left);
    CubeSwap(left, right);
    assert Wish(f, left, right) == Real(c) * CENT;
    CentRule(gl - gr, c);
  }

  /** An entry with equal growth goes to the side with fewer entries. */
  lemma EqualGrowth(left: nat, right: nat)
    requires left <= 65535 && right <= 65535
    ensures Fewer(0, left, right) <==> left < right
  {
    CubeBound(right - left);
  }

  /** Entry i goes where it has to. */
  predicate DealtTo(left: bool, v: SplitVec, i: nat, v': SplitVec) {
    if left then v'.left == v.left + [i] && v'.right == v.right else v'.left == v.left && v'.right == v.right + [i]
  }

  /** A seed goes to its own side; any other entry, without rounding, to the left if and only if
      that is due by what both keys would grow and by how many entries both sides have. */
  ghost predicate Step(f: Floats, entries: seq<seq<Int4>>, seed1: nat, seed2: nat, v: SplitVec, i: nat, v': SplitVec) {
    if i == seed1 then DealtTo(true, v, i, v')
    else if i == seed2 then DealtTo(false, v, i, v')
    else
      var d := Growth(v.ldatum, EntryElements(entries, i)) - Growth(v.rdatum, EntryElements(entries, i));
      Exact(f) && |v.left| <= 65535 && |v.right| <= 65535 ==> DealtTo(Fewer(d, |v.left|, |v.right|), v, i, v')
  }

  /** The entries are dealt out one after the other, each by such a step. */
  ghost predicate Run(f: Floats, entries: seq<seq<Int4>>, seed1: nat, seed2: nat, order: seq<nat>, steps: seq<SplitVec>)
    requires 1 <= seed1 <= |entries| && 1 <= seed2 <= |entries|
  {
    && |steps| == |order| + 1
    && steps[0] == SplitVec([], [], Entry(entries, seed1), Entry(entries, seed2))
    && forall k :: 0 <= k < |order| ==> RunStep(f, entries, seed1, seed2, order[..k], steps[k], order[k], steps[k + 1])
  }

  /** A step when these entries have been dealt out. */
  ghost predicate RunStep(f: Floats, entries: seq<seq<Int4>>, seed1: nat, seed2: nat, dealt: seq<nat>, v: SplitVec, i: nat, v': SplitVec) {
    Dealt(entries, seed1, seed2, dealt, v) && Step(f, entries, seed1, seed2, v, i, v')
  }

  /** Put entry i on one of the sides. */
  method Deal(f: Floats, entries: seq<seq<Int4>>, seed1: nat, seed2: nat, ghost dealt: seq<nat>, v: SplitVec, i: nat)
      returns (r: Result<SplitVec, ArrayError>)
    requires SortedEntries(entries) && Held(entries) && 1 <= i <= |entries| && seed1 != seed2
    requires Dealt(entries, seed1, seed2, dealt, v)
    ensures r.Success? ==> Dealt(entries, seed1, seed2, dealt + [i], r.value)
    ensures r.Success? ==> DealtTo(GoesLeft(f, entries, seed1, seed2, v, i), v, i, r.value)
    ensures r.Success? ==> Step(f, entries, seed1, seed2, v, i, r.value)
    ensures r.Failure? ==> r.error == Refused && Crowded(entries)
  {
    if i == seed1 {
      var v' := v.(left := v.left + [i]);
      DealLeft(entries, seed1, seed2, dealt, v, i, v');
      return Success(v');
    } else if i == seed2 {
      var v' := v.(right := v.right + [i]);
      DealRight(entries, seed1, seed2, dealt, v, i, v');
      return Success(v');
    }
    r := DealOther(f, entries, seed1, seed2, dealt, v, i);
    if r.Success? {
      SideOfEntry(f, entries, seed1, seed2, v, i, r.value);
    }
  }

  lemma SideOfEntry(f: Floats, entries: seq<seq<Int4>>, seed1: nat, seed2: nat, v: SplitVec, i: nat, v': SplitVec)
    requires i != seed1 && i != seed2 && DealtTo(GoesLeft(f, entries, seed1, seed2, v, i), v, i, v')
    ensures Step(f, entries, seed1, seed2, v, i, v')
  {
    if Exact(f) && |v.left| <= 65535 && |v.right| <= 65535 {
      var e := EntryElements(entries, i);
      SideRule(f, Growth(v.ldatum, e), Growth(v.rdatum, e), |v.left|, |v.right|);
    }
  }

  /** Where an entry other than the seeds goes, and both keys grown by it. */
  method Choose(f: Floats, entries: seq<seq<Int4>>, seed1: nat, seed2: nat, v: SplitVec, i: nat)
      returns (r: Result<(bool, seq<Int4>, seq<Int4>), ArrayError>)
    requires SortedEntries(entries) && Held(entries) && 1 <= i <= |entries| && i != seed1 && i != seed2
    requires Ascending(v.ldatum) && |v.ldatum| <= MAX_ELEMENTS && Elements(v.ldatum) <= AllElements(entries)
    requires Ascending(v.rdatum) && |v.rdatum| <= MAX_ELEMENTS && Elements(v.rdatum) <= AllElements(entries)
    ensures r.Success? ==> r.value.0 == GoesLeft(f, entries, seed1, seed2, v, i)
    ensures r.Success? ==> TakesIn(v.ldatum, EntryElements(entries, i), r.value.1)
    ensures r.Success? ==> TakesIn(v.rdatum, EntryElements(entries, i), r.value.2)
    ensures r.Failure? ==> r.error == Refused && Crowded(entries)
  {
    EntryInPage(entries, i);
    var both :- BothGrowths(f, v.ldatum, v.rdatum, Entry(entries, i), EntryElements(entries, i), entries);
    r := Success((both.0.1 < f.double(both.1.1 + Wish(f, |v.left|, |v.right|)), both.0.0, both.1.0));
  }

  /** An array of a key's and an entry's elements. */
  ghost predicate TakesIn(key: seq<Int4>, e: set<Int4>, r: seq<Int4>) {
    Ascending(r) && |r| <= MAX_ELEMENTS && Elements(r) == Elements(key) + e
  }

  method DealOther(f: Floats, entries: seq<seq<Int4>>, seed1: nat, seed2: nat, ghost dealt: seq<nat>, v: SplitVec, i: nat)
      returns (r: Result<SplitVec, ArrayError>)
    requires SortedEntries(entries) && Held(entries) && 1 <= i <= |entries| && i != seed1 && i != seed2
    requires Dealt(entries, seed1, seed2, dealt, v)
    ensures r.Success? ==> Dealt(entries, seed1, seed2, dealt + [i], r.value)
    ensures r.Success? ==> DealtTo(GoesLeft(f, entries, seed1, seed2, v, i), v, i, r.value)
    ensures r.Failure? ==> r.error == Refused && Crowded(entries)
  {
    DataInPage(entries, seed1, seed2, dealt, v);
    var c :- Choose(f, entries, seed1, seed2, v, i);
    var v' := if c.0 then v.(left := v.left + [i], ldatum := c.1) else v.(right := v.right + [i], rdatum := c.2);
    OtherDealt(entries, seed1, seed2, dealt, v, i, c.0, c.1, c.2, v');
    r := Success(v');
  }

  lemma OtherDealt(entries: seq<seq<Int4>>, seed1: nat, seed2: nat, dealt: seq<nat>, v: SplitVec, i: nat, goes: bool,
                   l: seq<Int4>, d: seq<Int4>, v': SplitVec)
    requires Dealt(entries, seed1, seed2, dealt, v) && i != seed1 && i != seed2
    requires TakesIn(v.ldatum, EntryElements(entries, i), l) && TakesIn(v.rdatum, EntryElements(entries, i), d)
    requires v' == if goes then v.(left := v.left + [i], ldatum := l) else v.(right := v.right + [i], rdatum := d)
    ensures Dealt(entries, seed1, seed2, dealt + [i], v') && DealtTo(goes, v, i, v')
  {
    if goes {
      DealLeft(entries, seed1, seed2, dealt, v, i, v');
    } else {
      DealRight(entries, seed1, seed2, dealt, v, i, v');
    }
  }

  /** The entry numbers in the order the sort leaves them. */
  ghost predicate AllNumbers(order: seq<nat>, n: nat) {
    forall k :: 0 <= k < |order| ==> 1 <= order[k] <= n
  }

  method DealAll(f: Floats, entries: seq<seq<Int4>>, seed1: nat, seed2: nat, order: seq<nat>, start: SplitVec)
      returns (r: Result<SplitVec, ArrayError>, ghost steps: seq<SplitVec>)
    requires SortedEntries(entries) && Held(entries) && seed1 != seed2 && AllNumbers(order, |entries|)
    requires 1 <= seed1 <= |entries| && 1 <= seed2 <= |entries| && Dealt(entries, seed1, seed2, [], start)
    requires start == SplitVec([], [], Entry(entries, seed1), Entry(entries, seed2))
    ensures r.Success? ==> Sofar(f, entries, seed1, seed2, order, steps, r.value)
    ensures r.Failure? ==> r.error == Refused && Crowded(entries)
  {
    var v := start;
    steps := [start];
    var j := 0;
    while j < |order|
      invariant 0 <= j <= |order| && Sofar(f, entries, seed1, seed2, order[..j], steps, v)
    {
      ghost var dealt, before := order[..j], v;
      v :- Deal(f, entries, seed1, seed2, dealt, v, order[j]);
      RunOn(f, entries, seed1, seed2, dealt, order[j], steps, before, v);
      TakeNext(order, j);
      steps := steps + [v];
      j := j + 1;
    }
    assert order[..j] == order;
    r := Success(v);
  }

  /** What has been dealt out, and how. */
  ghost predicate Sofar(f: Floats, entries: seq<seq<Int4>>, seed1: nat, seed2: nat, dealt: seq<nat>, steps: seq<SplitVec>, v: SplitVec)
    requires 1 <= seed1 <= |entries| && 1 <= seed2 <= |entries|
  {
    Dealt(entries, seed1, seed2, dealt, v) && Run(f, entries, seed1, seed2, dealt, steps) && v == steps[|dealt|]
  }

  lemma RunOn(f: Floats, entries: seq<seq<Int4>>, seed1: nat, seed2: nat, order: seq<nat>, i: nat, steps: seq<SplitVec>, v: SplitVec,
              v': SplitVec)
    requires 1 <= seed1 <= |entries| && 1 <= seed2 <= |entries|
    requires Sofar(f, entries, seed1, seed2, order, steps, v)
    requires Dealt(entries, seed1, seed2, order + [i], v') && Step(f, entries, seed1, seed2, v, i, v')
    ensures Sofar(f, entries, seed1, seed2, order + [i], steps + [v'], v')
  {
    var order', steps' := order + [i], steps + [v'];
    forall k | 0 <= k <= |order|
      ensures RunStep(f, entries, seed1, seed2, order'[..k], steps'[k], order'[k], steps'[k + 1])
    {
      assert order'[..k] == order[..k];
      if k < |order| {
        assert steps'[k] == steps[k] && steps'[k + 1] == steps[k + 1] && order'[k] == order[k];
      } else {
        assert order[..k] == order && steps'[k] == steps[k] && steps'[k + 1] == v';
      }
    }
  }

  /** Every entry goes to exactly one side, and each key holds exactly the elements of the
      entries on its side. */
  ghost predicate Splits(v: SplitVec, entries: seq<seq<Int4>>) {
    && multiset(v.left) + multiset(v.right) == multiset(Numbers(|entries|))
    && Ascending(v.ldatum) && Elements(v.ldatum) == Gathered(entries, v.left)
    && Ascending(v.rdatum) && Elements(v.rdatum) == Gathered(entries, v.right)
  }

  /** The sort puts smaller costs first. */
  ghost predicate SortsCosts(qsort: seq<SplitCost> -> seq<SplitCost>) {
    forall s, i, j :: 0 <= i < j < |qsort(s)| ==> qsort(s)[i].cost <= qsort(s)[j].cost
  }

  /** The order of dealing: all entries, those first for which it matters less. */
  ghost predicate ByCost(f: Floats, entries: seq<seq<Int4>>, seed1: nat, seed2: nat, order: seq<nat>)
    requires 1 <= seed1 <= |entries| && 1 <= seed2 <= |entries|
  {
    && multiset(order) == multiset(Numbers(|entries|))
    && forall i, j :: 0 <= i < j < |order| ==>
         CostOf(f, entries, Entry(entries, seed1), Entry(entries, seed2), order[i])
           <= CostOf(f, entries, Entry(entries, seed1), Entry(entries, seed2), order[j])
  }

  /** A split that comes from dealing out all entries step by step, from seeds that waste most. */
  ghost predicate ByRule(f: Floats, entries: seq<seq<Int4>>, v: SplitVec, sorts: bool) {
    exists seed1, seed2, order, steps ::
      && WasteMost(f, entries, seed1, seed2) && (sorts ==> ByCost(f, entries, seed1, seed2, order))
      && Run(f, entries, seed1, seed2, order, steps) && v == steps[|order|]
  }

  /** Split a page, whatever the costs, their rounding and the sort decide; two entries that
      waste most go to different sides.  Only a crowded page can be refused. */
  method GIntPicksplit(f: Floats, entries: seq<seq<Int4>>, qsort: seq<SplitCost> -> seq<SplitCost>)
      returns (r: Result<SplitVec, ArrayError>)
    requires SortedEntries(entries) && Held(entries) && |entries| >= 2 && Reorders(qsort)
    ensures r.Success? ==> Splits(r.value, entries)
    ensures r.Success? ==> exists seed1, seed2 :: seed1 in r.value.left && seed2 in r.value.right && WasteMost(f, entries, seed1, seed2)
    ensures r.Success? ==> ByRule(f, entries, r.value, SortsCosts(qsort))
    ensures r.Failure? ==> r.error == Refused && Crowded(entries)
  {
    var seeds :- PickSeeds(f, entries);
    r := DealFrom(f, entries, qsort, seeds.0, seeds.1);
  }

  method DealFrom(f: Floats, entries: seq<seq<Int4>>, qsort: seq<SplitCost> -> seq<SplitCost>, seed1: nat, seed2: nat)
      returns (r: Result<SplitVec, ArrayError>)
    requires SortedEntries(entries) && Held(entries) && Reorders(qsort) && WasteMost(f, entries, seed1, seed2)
    ensures r.Success? ==> Splits(r.value, entries) && seed1 in r.value.left && seed2 in r.value.right
    ensures r.Success? ==> ByRule(f, entries, r.value, SortsCosts(qsort))
    ensures r.Failure? ==> r.error == Refused && Crowded(entries)
  {
    EntryInPage(entries, seed1);
    EntryInPage(entries, seed2);
    var start := SplitVec([], [], Entry(entries, seed1), Entry(entries, seed2));
    var costvector :- Costs(f, entries, start.ldatum, start.rdatum);
    var order := SortedOrder(entries, costvector, qsort);
    ghost var steps;
    r, steps := DealAll(f, entries, seed1, seed2, order, start);
    if r.Success? {
      SeedsDealt(entries, seed1, seed2, order, r.value);
      RuleFollowed(f, entries, qsort, seed1, seed2, costvector, order, steps, r.value);
    }
  }

  lemma RuleFollowed(f: Floats, entries: seq<seq<Int4>>, qsort: seq<SplitCost> -> seq<SplitCost>, seed1: nat, seed2: nat,
                     costvector: seq<SplitCost>, order: seq<nat>, steps: seq<SplitVec>, v: SplitVec)
    requires WasteMost(f, entries, seed1, seed2) && Reorders(qsort) && order == Positions(qsort(costvector))
    requires forall k :: 0 <= k < |costvector| ==>
      costvector[k].cost == CostOf(f, entries, Entry(entries, seed1), Entry(entries, seed2), costvector[k].pos)
    requires multiset(order) == multiset(Numbers(|entries|))
    requires Run(f, entries, seed1, seed2, order, steps) && v == steps[|order|]
    ensures ByRule(f, entries, v, SortsCosts(qsort))
  {
    OrderByCost(f, entries, seed1, seed2, costvector, qsort, order);
  }

  /** The order in which the entries are dealt out. */
  method SortedOrder(entries: seq<seq<Int4>>, costvector: seq<SplitCost>, qsort: seq<SplitCost> -> seq<SplitCost>)
      returns (order: seq<nat>)
    requires |costvector| == |entries| && forall k :: 0 <= k < |entries| ==> costvector[k].pos == k + 1
    requires Reorders(qsort)
    ensures multiset(order) == multiset(Numbers(|entries|)) && AllNumbers(order, |entries|)
    ensures forall i :: 1 <= i <= |entries| ==> i in order
    ensures order == Positions(qsort(costvector))
  {
    var sorted := qsort(costvector);
    order := Positions(sorted);
    assert Positions(costvector) == Numbers(|entries|);
    MappedReordered((c: SplitCost) => c.pos, costvector, sorted);
    NumbersReordered(|entries|, order);
  }

  lemma OrderByCost(f: Floats, entries: seq<seq<Int4>>, seed1: nat, seed2: nat, costvector: seq<SplitCost>,
                    qsort: seq<SplitCost> -> seq<SplitCost>, order: seq<nat>)
    requires 1 <= seed1 <= |entries| && 1 <= seed2 <= |entries| && Reorders(qsort) && order == Positions(qsort(costvector))
    requires forall k :: 0 <= k < |costvector| ==>
      costvector[k].cost == CostOf(f, entries, Entry(entries, seed1), Entry(entries, seed2), costvector[k].pos)
    requires multiset(order) == multiset(Numbers(|entries|))
    ensures SortsCosts(qsort) ==> ByCost(f, entries, seed1, seed2, order)
  {
    var sorted := qsort(costvector);
    forall k | 0 <= k < |sorted|
      ensures sorted[k].cost == CostOf(f, entries, Entry(entries, seed1), Entry(entries, seed2), order[k])
    {
      assert sorted[k] in multiset(sorted);
      assert sorted[k] in costvector;
    }
  }

  lemma NumbersReordered(n: nat, order: seq<nat>)
    requires multiset(order) == multiset(Numbers(n))
    ensures AllNumbers(order, n) && forall i :: 1 <= i <= n ==> i in order
  {
    forall k | 0 <= k < |order|
      ensures 1 <= order[k] <= n
    {
      assert order[k] in multiset(order);
      NumbersMember(n, order[k]);
    }
    forall i | 1 <= i <= n
      ensures i in order
    {
      NumbersMember(n, i);
      assert i in multiset(order);
    }
  }

  /** Once the seeds are dealt out, the data gather nothing but what their sides hold. */
  lemma SeedsDealt(entries: seq<seq<Int4>>, seed1: nat, seed2: nat, order: seq<nat>, v: SplitVec)
    requires Dealt(entries, seed1, seed2, order, v) && seed1 in order && seed2 in order
    ensures seed1 in v.left && Elements(v.ldatum) == Gathered(entries, v.left)
    ensures seed2 in v.right && Elements(v.rdatum) == Gathered(entries, v.right)
  {
    GatheredMember(entries, v.left, seed1);
    GatheredMember(entries, v.right, seed2);
  }

  lemma NumbersMember(n: nat, i: nat)
    ensures i in multiset(Numbers(n)) <==> 1 <= i <= n
  {
    if 1 <= i <= n {
      assert Numbers(n)[i - 1] == i;
    }
  }

  // ----- The halves as subtrees -----

  /** The entries with these numbers. */
  function Half(page: seq<IntTree>, numbers: seq<nat>): seq<IntTree>
    requires page != []
  {
    Mapped((i: nat) => Numbered(page, i), numbers)
  }

  function Numbered(page: seq<IntTree>, i: nat): IntTree
    requires page != []
  {
    if 1 <= i <= |page| then page[i - 1] else page[0]
  }

  /** The two sides together are a reordering of the page. */
  lemma HalvesReorder(page: seq<IntTree>, left: seq<nat>, right: seq<nat>)
    requires page != [] && multiset(left) + multiset(right) == multiset(Numbers(|page|))
    ensures multiset(Half(page, left) + Half(page, right)) == multiset(page)
  {
    assert multiset(left + right) == multiset(left) + multiset(right);
    MappedReordered((i: nat) => Numbered(page, i), left + right, Numbers(|page|));
    assert Half(page, left + right) == Half(page, left) + Half(page, right);
    assert Half(page, Numbers(|page|)) == page;
  }

  lemma SideSound(page: seq<IntTree>, numbers: seq<nat>, datum: seq<Int4>)
    requires page != [] && AllNumbers(numbers, |page|) && SoundPage(page, Readable, Encloses)
    requires SoundPage(Half(page, numbers), Readable, Encloses)
    requires Ascending(datum) && Elements(datum) == Gathered(SeenKeys(page), numbers)
    ensures Restored(datum).Success? ==> Sound(Inner(Compressed(datum), Half(page, numbers)), Readable, Encloses)
  {
    if Restored(datum).Success? {
      RestoredIsSuperset(datum);
      forall row | row in PageValues(Half(page, numbers))
        ensures Encloses(Compressed(datum), row)
      {
        var k := PageValueFrom(Half(page, numbers), row);
        SideCovers(page, numbers, k, row);
      }
    }
  }

  lemma SideCovers(page: seq<IntTree>, numbers: seq<nat>, k: nat, row: seq<Int4>)
    requires AllNumbers(numbers, |page|) && SoundPage(page, Readable, Encloses)
    requires k < |numbers| && page != [] && row in Values(Half(page, numbers)[k])
    ensures Elements(row) <= Gathered(SeenKeys(page), numbers)
  {
    var i := numbers[k];
    SoundPageAt(page, i - 1, Readable, Encloses);
    SeenKeyEncloses(page[i - 1], row);
    GatheredMember(SeenKeys(page), numbers, i);
  }

  /** A page splits into two subtrees under the compressed keys of the split.  Together they
      hold the values of the page, and each is sound whenever its key can be read back. */
  lemma PicksplitSound(page: seq<IntTree>, v: SplitVec)
    requires page != [] && SoundPage(page, Readable, Encloses) && Splits(v, SeenKeys(page))
    ensures var left, right := Half(page, v.left), Half(page, v.right);
      && multiset(PageValues(left)) + multiset(PageValues(right)) == multiset(PageValues(page))
      && (Restored(v.ldatum).Success? ==> Sound(Inner(Compressed(v.ldatum), left), Readable, Encloses))
      && (Restored(v.rdatum).Success? ==> Sound(Inner(Compressed(v.rdatum), right), Readable, Encloses))
  {
    var left, right := Half(page, v.left), Half(page, v.right);
    HalvesReorder(page, v.left, v.right);
    PageReordered(left + right, page, Readable, Encloses);
    PageValuesAppend(left, right);
    SoundPageAppend(left, right, Readable, Encloses);
    SidesNumbered(|page|, v.left, v.right);
    SideSound(page, v.left, v.ldatum);
    SideSound(page, v.right, v.rdatum);
  }

  lemma SidesNumbered(n: nat, left: seq<nat>, right: seq<nat>)
    requires multiset(left) + multiset(right) == multiset(Numbers(n))
    ensures AllNumbers(left, n) && AllNumbers(right, n)
  {
    assert multiset(left + right) == multiset(left) + multiset(right);
    NumbersReordered(n, left + right);
    forall k | 0 <= k < |left|
      ensures 1 <= left[k] <= n
    {
      assert (left + right)[k] == left[k];
    }
    forall k | 0 <= k < |right|
      ensures 1 <= right[k] <= n
    {
      assert (left + right)[|left| + k] == right[k];
    }
  }
}
