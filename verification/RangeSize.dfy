/** intarray/_int_gist.c: how many integers a compressed key stands for, told from the key. */
module RangeSize {
  import opened Wrappers
  import opened Ints
  import opened IntRoom
  import opened Sequences
  import opened IntArray
  import opened RangeKey

  // ----- The gaps of a list of ranges -----

  /** All gaps, as the subtraction computes them. */
  function Gaps(d: seq<Int4>): (r: seq<Int4>)
    requires |d| % 2 == 0 && |d| >= 2
    ensures |r| == |d| / 2 - 1
  {
    seq(|d| / 2 - 1, m requires 0 <= m < |d| / 2 - 1 => Gap(d, 2 * m + 2))
  }

  function Sum(s: seq<Int4>): int {
    if s == [] then 0 else Sum(s[..|s| - 1]) + s[|s| - 1]
  }

  /** r is d without the two ends of the gap before i. */
  ghost predicate IsJoined(d: seq<Int4>, i: nat, r: seq<Int4>) {
    && |d| % 2 == 0 && i % 2 == 0 && 2 <= i < |d| && |r| == |d| - 2
    && (forall k {:trigger r[k]} :: 0 <= k < i - 1 ==> r[k] == d[k])
    && (forall k {:trigger r[k]} :: i - 1 <= k < |r| ==> r[k] == d[k + 2])
  }

  lemma JoinAtIsJoined(d: seq<Int4>, i: nat)
    requires |d| % 2 == 0 && i % 2 == 0 && 2 <= i < |d|
    ensures IsJoined(d, i, JoinAt(d, i))
  {
  }

  lemma GapAt(d: seq<Int4>, j: nat, r: seq<Int4>, m: nat)
    requires IsJoined(d, 2 * j + 2, r) && m < |r| / 2 - 1
    ensures Gap(r, 2 * m + 2) == Gap(d, if m < j then 2 * m + 2 else 2 * m + 4)
  {
  }

  /** Joining across a gap takes that gap away. */
  lemma GapsWithout(d: seq<Int4>, j: nat, r: seq<Int4>)
    requires IsJoined(d, 2 * j + 2, r)
    ensures Gaps(r) == Gaps(d)[..j] + Gaps(d)[j + 1..]
  {
    forall m | 0 <= m < |Gaps(r)|
      ensures Gaps(r)[m] == Gaps(d)[if m < j then m else m + 1]
    {
      GapAt(d, j, r, m);
    }
  }

  // ----- The gaps that stay open -----

  /** All gaps in ascending order. */
  function SortedGaps(d: seq<Int4>): seq<Int4>
    requires |d| % 2 == 0 && |d| >= 2
  {
    InsertionSort(Gaps(d))
  }

  lemma SortedFirst(s: seq<Int4>, x: Int4)
    requires Sorted(s) && x in multiset(s)
    ensures s != [] && s[0] <= x
  {
    var k :| 0 <= k < |s| && s[k] == x;
  }

  lemma SameFirst(s: seq<Int4>, t: seq<Int4>)
    requires Sorted(s) && Sorted(t) && multiset(s) == multiset(t) && s != []
    ensures t != [] && s[0] == t[0]
  {
    assert s[0] in multiset(s);
    SortedFirst(t, s[0]);
    assert t[0] in multiset(t);
    SortedFirst(s, t[0]);
  }

  lemma {:induction false} SortedUnique(s: seq<Int4>, t: seq<Int4>)
    requires Sorted(s) && Sorted(t) && multiset(s) == multiset(t)
    ensures s == t
  {
    if s == [] {
      assert |multiset(t)| == |t|;
    } else {
      SameFirst(s, t);
      TakeHead(s);
      TakeHead(t);
      Cancel(multiset(s[1..]), multiset(t[1..]), multiset{s[0]});
      SortedUnique(s[1..], t[1..]);
    }
  }

  /** Without a smallest element a sequence sorts to the same without the first one. */
  lemma SortWithout(s: seq<Int4>, t: seq<Int4>, x: Int4)
    requires Sorted(s) && Sorted(t) && multiset(s) == multiset(t) + multiset{x} && forall y :: y in multiset(s) ==> x <= y
    ensures s != [] && t == s[1..]
  {
    assert x in multiset(s);
    SortedFirst(s, x);
    assert s[0] in multiset(s);
    assert s[0] == x;
    TakeHead(s);
    Cancel(multiset(s[1..]), multiset(t), multiset{x});
    SortedUnique(s[1..], t);
  }

  lemma SortTaken(g: seq<Int4>, j: nat, h: seq<Int4>)
    requires j < |g| && h == g[..j] + g[j + 1..] && forall m :: 0 <= m < |g| ==> g[j] <= g[m]
    ensures InsertionSort(g) != [] && InsertionSort(h) == InsertionSort(g)[1..]
  {
    InsertionSortIsSort(g);
    InsertionSortIsSort(h);
    TakeAt(g, j);
    SortWithout(InsertionSort(g), InsertionSort(h), g[j]);
  }

  lemma SmallestIsLeast(d: seq<Int4>, j: nat)
    requires |d| % 2 == 0 && 2 * j + 2 == Smallest(d, |d|).1
    ensures forall m :: 0 <= m < |Gaps(d)| ==> Gaps(d)[j] <= Gaps(d)[m]
  {
    forall m | 0 <= m < |Gaps(d)|
      ensures Gaps(d)[j] <= Gaps(d)[m]
    {
      SmallestBelow(d, 2 * j + 2, 2 * m + 2);
    }
  }

  /** Closing the smallest gap leaves the sorted gaps without the first one. */
  lemma CloseSmallest(d: seq<Int4>, i: nat, r: seq<Int4>)
    requires IsJoined(d, i, r) && i == Smallest(d, |d|).1
    ensures SortedGaps(d) != [] && SortedGaps(r) == SortedGaps(d)[1..]
  {
    var j := i / 2 - 1;
    GapsWithout(d, j, r);
    SmallestIsLeast(d, j);
    SortTaken(Gaps(d), j, Gaps(r));
  }

  /** The gaps between as many ranges as a stored key has. */
  const OPEN_GAPS: nat := MAXNUMRANGE - 1

  function TakeLast(s: seq<Int4>, n: nat): seq<Int4>
    requires n <= |s|
  {
    s[|s| - n..]
  }

  lemma SortedGapsLength(d: seq<Int4>)
    requires |d| % 2 == 0 && |d| >= 2
    ensures |SortedGaps(d)| == |d| / 2 - 1
  {
    InsertionSortIsSort(Gaps(d));
    assert |multiset(SortedGaps(d))| == |SortedGaps(d)|;
    assert |multiset(Gaps(d))| == |Gaps(d)|;
  }

  /** After all joins the largest gaps are left. */
  lemma {:induction false} SqueezeGaps(d: seq<Int4>)
    requires Ranges(d) && |d| >= 2 * MAXNUMRANGE
    ensures OPEN_GAPS <= |SortedGaps(d)| && SortedGaps(Squeeze(d)) == TakeLast(SortedGaps(d), OPEN_GAPS)
    decreases |d|
  {
    SortedGapsLength(d);
    if |d| > 2 * MAXNUMRANGE {
      var i, r := FirstJoin(d);
      SqueezeGaps(r);
    }
  }

  /** One round of the joins. */
  lemma FirstJoin(d: seq<Int4>) returns (i: nat, r: seq<Int4>)
    requires Ranges(d) && |d| > 2 * MAXNUMRANGE
    ensures i == Smallest(d, |d|).1 && IsJoined(d, i, r) && Ranges(r) && Squeeze(r) == Squeeze(d)
    ensures SortedGaps(d) != [] && SortedGaps(r) == SortedGaps(d)[1..]
  {
    SmallGapExists(d);
    i := Smallest(d, |d|).1;
    r := JoinAt(d, i);
    SqueezeStep(d, i, r);
    JoinAtIsJoined(d, i);
    CloseSmallest(d, i, r);
  }

  // ----- No gap that stays open overflows -----

  /** The gap the first join closes is the only one that can be wider than the largest int. */
  lemma JoinNotWide(d: seq<Int4>, i: nat, r: seq<Int4>)
    requires Ranges(d) && |d| >= 8 && i == Smallest(d, |d|).1 && IsJoined(d, i, r)
    ensures NoWideGap(r)
  {
    forall k | 2 <= k < |r| && k % 2 == 0
      ensures Width(r, k) <= INT_MAX
    {
      JoinedWidth(d, i, r, k, if k < i then k else k + 2);
    }
  }

  lemma JoinedWidth(d: seq<Int4>, i: nat, r: seq<Int4>, k: nat, j: nat)
    requires Ranges(d) && IsJoined(d, i, r) && 2 <= k < |r| && k % 2 == 0 && j == if k < i then k else k + 2
    requires i == Smallest(d, |d|).1
    ensures Width(r, k) <= INT_MAX
  {
    SmallestBelow(d, i, j);
    GapKept(d, i, r, k, j);
  }

  lemma SmallestBelow(d: seq<Int4>, i: nat, j: nat)
    requires |d| % 2 == 0 && i == Smallest(d, |d|).1 > 1 && 2 <= j < |d| && j % 2 == 0
    ensures Gap(d, i) <= Gap(d, j)
  {
    SmallestIsSmallest(d, |d|);
  }

  lemma GapKept(d: seq<Int4>, i: nat, r: seq<Int4>, k: nat, j: nat)
    requires Ranges(d) && IsJoined(d, i, r) && 2 <= k < |r| && k % 2 == 0 && j == if k < i then k else k + 2
    requires Gap(d, i) <= Gap(d, j)
    ensures Width(r, k) <= INT_MAX
  {
    OtherNotWide(d, i, j);
    assert r[k] == d[j] && r[k - 1] == d[j - 1];
  }

  lemma OtherNotWide(d: seq<Int4>, i: nat, j: nat)
    requires Ranges(d) && |d| % 2 == 0 && 2 <= i < |d| && i % 2 == 0 && 2 <= j < |d| && j % 2 == 0 && i != j
    requires Gap(d, i) <= Gap(d, j)
    ensures Width(d, j) <= INT_MAX
  {
    assert Width(d, i) > 0;
    OneWideGap(d, if i < j then i else j, if i < j then j else i);
  }

  lemma {:induction false} SqueezeNotWide(d: seq<Int4>)
    requires Ranges(d) && |d| > 2 * MAXNUMRANGE
    ensures NoWideGap(Squeeze(d)) && Squeeze(d) != [] && Squeeze(d)[0] == d[0]
    decreases |d|
  {
    var i, r := FirstJoin(d);
    if |r| > 2 * MAXNUMRANGE {
      SqueezeNotWide(r);
    } else {
      JoinNotWide(d, i, r);
    }
  }

  // ----- The sum of the gaps -----

  lemma SumAppend(s: seq<Int4>, x: Int4)
    ensures Sum(s + [x]) == Sum(s) + x
  {
    assert (s + [x])[..|s|] == s;
  }

  lemma {:induction false} SumInsert(s: seq<Int4>, x: Int4)
    ensures Sum(Insert(s, x)) == Sum(s) + x
  {
    var n := |s|;
    if n == 0 || s[n - 1] <= x {
      SumAppend(s, x);
    } else {
      SumInsert(s[..n - 1], x);
      SumAppend(Insert(s[..n - 1], x), s[n - 1]);
    }
  }

  lemma {:induction false} SumSortTo(s: seq<Int4>, n: nat)
    requires n <= |s|
    ensures Sum(SortTo(s, n)) == Sum(s[..n])
  {
    if n > 0 {
      SumSortTo(s, n - 1);
      SumInsert(SortTo(s, n - 1), s[n - 1]);
      TakeNext(s, n - 1);
      SumAppend(s[..n - 1], s[n - 1]);
    }
  }

  lemma SumSorted(s: seq<Int4>)
    ensures Sum(InsertionSort(s)) == Sum(s)
  {
    SumSortTo(s, |s|);
    assert s[..|s|] == s;
  }

  lemma SpanStep(d: seq<Int4>, m: nat)
    requires Ranges(d) && 0 < m < |d| / 2
    ensures |Expand(d, 2 * m + 2)| == |Expand(d, 2 * m)| + d[2 * m + 1] as int - d[2 * m] as int + 1
  {
  }

  lemma SumStep(d: seq<Int4>, m: nat)
    requires Ranges(d) && 0 < m < |d| / 2 && Width(d, 2 * m) <= INT_MAX
    ensures Sum(Gaps(d)[..m]) == Sum(Gaps(d)[..m - 1]) + d[2 * m] as int - d[2 * m - 1] as int
  {
    TakeNext(Gaps(d), m - 1);
    SumAppend(Gaps(d)[..m - 1], Gap(d, 2 * m));
    assert d[2 * m - 1] < d[2 * m];
  }

  lemma CountFirst(d: seq<Int4>)
    requires Ranges(d) && |d| >= 2
    ensures |Expand(d, 2)| == d[1] as int - d[0] as int + 1 && Gaps(d)[..0] == []
  {
    assert Expand(d, 0) == [];
  }

  /** What lies between the first and the last integer and in no gap. */
  lemma {:induction false} ExpandCount(d: seq<Int4>, m: nat)
    requires Ranges(d) && NoWideGap(d) && m < |d| / 2
    ensures |Expand(d, 2 * m + 2)| == d[2 * m + 1] as int - d[0] as int + 1 - Sum(Gaps(d)[..m]) + m
  {
    if m == 0 {
      CountFirst(d);
    } else {
      ExpandCount(d, m - 1);
      GapNotWide(d, m);
      SpanStep(d, m);
      SumStep(d, m);
    }
  }

  lemma GapNotWide(d: seq<Int4>, m: nat)
    requires NoWideGap(d) && 0 < m < |d| / 2
    ensures Width(d, 2 * m) <= INT_MAX
  {
    assert (2 * m) % 2 == 0;
  }

  // ----- The size of a restored key, told from the key -----

  /** The distances between neighbours in a key, as the subtraction computes them. */
  function Steps(key: seq<Int4>): (r: seq<Int4>)
    requires key != []
    ensures |r| == |key| - 1
  {
    seq(|key| - 1, k requires 0 <= k < |key| - 1 => Wrap32(key[k + 1] as int - key[k] as int))
  }

  lemma StepIsGap(key: seq<Int4>, k: nat)
    requires k + 1 < |key|
    ensures Gap(Doubled(key), 2 * k + 2) == Wrap32(key[k + 1] as int - key[k] as int) == Steps(key)[k]
  {
    DoubledAt(key, k);
    DoubledAt(key, k + 1);
  }

  lemma GapsAt(d: seq<Int4>, k: nat)
    requires |d| % 2 == 0 && |d| >= 2 && k < |d| / 2 - 1
    ensures Gaps(d)[k] == Gap(d, 2 * k + 2)
  {
  }

  lemma StepsAreGaps(key: seq<Int4>, d: seq<Int4>)
    requires key != [] && d == Doubled(key)
    ensures Gaps(d) == Steps(key)
  {
    forall k | 0 <= k < |key| - 1
      ensures Gaps(d)[k] == Steps(key)[k]
    {
      GapsAt(d, k);
      StepIsGap(key, k);
    }
  }

  /** All integers from the first to the last, but those inside the 99 widest gaps. */
  function SizeBetween(first: Int4, last: Int4, gaps: seq<Int4>): int
    requires |gaps| >= OPEN_GAPS
  {
    last as int - first as int + 1 - Sum(TakeLast(InsertionSort(gaps), OPEN_GAPS)) + OPEN_GAPS
  }

  /** What a key of 200 elements or more reads back as. */
  function RestoredSize(key: seq<Int4>): int
    requires |key| >= 2 * MAXNUMRANGE
  {
    SizeBetween(key[0], key[|key| - 1], Steps(key))
  }

  lemma CountSorted(c: seq<Int4>)
    requires Ranges(c) && NoWideGap(c) && |c| == 2 * MAXNUMRANGE
    ensures |Expand(c, |c|)| == c[|c| - 1] as int - c[0] as int + 1 - Sum(SortedGaps(c)) + OPEN_GAPS
  {
    ExpandCount(c, OPEN_GAPS);
    assert Gaps(c)[..OPEN_GAPS] == Gaps(c);
    SumSorted(Gaps(c));
  }

  lemma SizeOfRestored(key: seq<Int4>)
    requires Ascending(key) && |key| >= 2 * MAXNUMRANGE
    ensures |Expand(Compressed(key), |Compressed(key)|)| == RestoredSize(key)
  {
    var d := Doubled(key);
    DoubledRanges(key);
    StepsAreGaps(key, d);
    DoubledEnds(key, d);
    SizeOfSqueezed(d);
  }

  lemma DoubledEnds(key: seq<Int4>, d: seq<Int4>)
    requires key != [] && d == Doubled(key)
    ensures d[0] == key[0] && d[|d| - 1] == key[|key| - 1]
  {
    DoubledAt(key, 0);
    DoubledAt(key, |key| - 1);
  }

  lemma SizeOfSqueezed(d: seq<Int4>)
    requires Ranges(d) && |d| > 2 * MAXNUMRANGE
    ensures |Expand(Squeeze(d), |Squeeze(d)|)| == SizeBetween(d[0], d[|d| - 1], Gaps(d))
  {
    SqueezeGaps(d);
    SqueezeNotWide(d);
    CountSorted(Squeeze(d));
  }

  lemma ReadingFails(c: seq<Int4>, size: int)
    requires Ranges(c) && |c| == 2 * MAXNUMRANGE && size == |Expand(c, |c|)|
    ensures Decompressed(c) == Failure(Refused) <==> SizeRefused(size)
    ensures Decompressed(c) == Failure(Overrun) <==> !SizeRefused(size) && (size > MAX_ELEMENTS || c[|c| - 1] == INT_MAX)
  {
    ExpandBounds(c, |c|);
    RoomExact(size);
  }

  /** When and how an internal key does not survive being stored and read back. */
  lemma RestoredFails(key: seq<Int4>)
    requires Ascending(key)
    ensures |key| < 2 * MAXNUMRANGE ==> Restored(key).Success?
    ensures |key| >= 2 * MAXNUMRANGE ==>
      (Restored(key) == Failure(Refused) <==> TooManyToDouble(|key|) || SizeRefused(RestoredSize(key)))
    ensures |key| >= 2 * MAXNUMRANGE && Restored(key) != Failure(Refused) ==>
      (Restored(key) == Failure(Overrun) <==> RestoredSize(key) > MAX_ELEMENTS || key[|key| - 1] == INT_MAX)
  {
    if |key| >= 2 * MAXNUMRANGE {
      SizeOfRestored(key);
      ReadingFails(Compressed(key), RestoredSize(key));
    }
  }

  // ----- Keys that fail -----

  /** n multiples of a distance. */
  function Spaced(n: nat, step: nat): (r: seq<Int4>)
    requires n * step <= INT_MAX as int
    ensures |r| == n
  {
    seq(n, k requires 0 <= k < n => Multiple(k, step, n))
  }

  function Multiple(k: nat, step: nat, n: nat): (r: Int4)
    requires k < n && n * step <= INT_MAX as int
    ensures r as int == k * step
  {
    assert k * step <= n * step;
    k * step
  }

  lemma SpacedAscending(n: nat, step: nat)
    requires 0 < step && n * step <= INT_MAX as int
    ensures Ascending(Spaced(n, step))
  {
    forall i, j | 0 <= i < j < n
      ensures i * step < j * step
    {
      assert (j - i) * step > 0;
    }
  }

  lemma {:induction false} SumOfSame(s: seq<Int4>, x: Int4)
    requires forall k :: 0 <= k < |s| ==> s[k] == x
    ensures Sum(s) == |s| * x as int
  {
    if s != [] {
      SumOfSame(s[..|s| - 1], x);
    }
  }

  lemma SpacedStep(n: nat, step: Int4, key: seq<Int4>, k: nat)
    requires k + 1 < n && 0 < step && n * step <= INT_MAX as int && key == Spaced(n, step)
    ensures key[k + 1] as int - key[k] as int == step as int
  {
    assert (k + 1) * step - k * step == step;
  }

  lemma StepAt(key: seq<Int4>, k: nat, step: Int4)
    requires k + 1 < |key| && key[k + 1] as int - key[k] as int == step as int
    ensures Steps(key)[k] == step
  {
  }

  lemma SpacedSteps(n: nat, step: Int4, key: seq<Int4>)
    requires 0 < n && 0 < step && n * step <= INT_MAX as int && key == Spaced(n, step)
    ensures forall y :: y in Steps(key) ==> y == step
  {
    forall k | 0 <= k < n - 1
      ensures Steps(key)[k] == step
    {
      SpacedStep(n, step, key, k);
      StepAt(key, k, step);
    }
  }

  lemma SortOfSame(s: seq<Int4>, x: Int4)
    requires forall y :: y in s ==> y == x
    ensures forall k :: 0 <= k < |s| ==> InsertionSort(s)[k] == x
  {
    InsertionSortIsSort(s);
    assert |multiset(InsertionSort(s))| == |s|;
    forall k | 0 <= k < |s|
      ensures InsertionSort(s)[k] == x
    {
      assert InsertionSort(s)[k] in multiset(s);
      assert InsertionSort(s)[k] in s;
    }
  }

  lemma SumOfWidest(s: seq<Int4>, x: Int4)
    requires |s| >= OPEN_GAPS && forall y :: y in s ==> y == x
    ensures Sum(TakeLast(InsertionSort(s), OPEN_GAPS)) == OPEN_GAPS * x as int
  {
    SortOfSame(s, x);
    SumOfSame(TakeLast(InsertionSort(s), OPEN_GAPS), x);
  }

  lemma SpacedSize(n: nat, step: Int4, key: seq<Int4>)
    requires n >= 2 * MAXNUMRANGE && step > 0 && n * step <= INT_MAX as int && key == Spaced(n, step)
    ensures RestoredSize(key) == (n - 1) * step + 1 - OPEN_GAPS * step + OPEN_GAPS
    ensures key[n - 1] < INT_MAX
  {
    SpacedSteps(n, step, key);
    SumOfWidest(Steps(key), step);
    assert (n - 1) * step < n * step;
  }

  lemma TooWideFails(key: seq<Int4>, size: int)
    requires Ascending(key) && |key| >= 2 * MAXNUMRANGE && !TooManyToDouble(|key|)
    requires size == RestoredSize(key) > MAX_ELEMENTS
    ensures Restored(key) == Failure(if SizeRefused(size) then Refused else Overrun)
  {
    SizeOfRestored(key);
    ReadingFails(Compressed(key), size);
  }

  lemma SpacedFails(n: nat, step: Int4, key: seq<Int4>, size: int)
    requires n >= 2 * MAXNUMRANGE && step > 0 && n * step <= INT_MAX as int && key == Spaced(n, step)
    requires size == (n - 1) * step + 1 - OPEN_GAPS * step + OPEN_GAPS > MAX_ELEMENTS && !TooManyToDouble(n)
    ensures Ascending(key)
    ensures Restored(key) == Failure(if SizeRefused(size) then Refused else Overrun)
  {
    SpacedAscending(n, step);
    SpacedSize(n, step, key);
    TooWideFails(key, size);
  }

  /** 400 elements a million apart cannot be read back. */
  lemma SpacedKeyRefused(n: nat, step: Int4, key: seq<Int4>)
    requires n == 400 && step == 1_000_000 && key == Spaced(n, step)
    ensures Ascending(key) && Restored(key) == Failure(Refused)
  {
    assert SizeRefused(300_000_100);
    SpacedFails(n, step, key, 300_000_100);
  }

  /** 3,600,000 apart, the size wraps around to an array that is too short. */
  lemma SpacedKeyOverruns(n: nat, step: Int4, key: seq<Int4>)
    requires n == 400 && step == 3_600_000 && key == Spaced(n, step)
    ensures Ascending(key) && Restored(key) == Failure(Overrun)
  {
    assert !SizeRefused(1_080_000_100);
    SpacedFails(n, step, key, 1_080_000_100);
  }
}
