/** intarray/_int_gist.c and _int_tool.c: internal index keys stored as at most 100 ranges of
    int4, and their expansion. */
module RangeKey {
  import opened Wrappers
  import opened Ints
  import opened Memory
  import opened IntRoom
  import opened IntArray

  const MAXNUMRANGE: nat := 100
  const INT_MAX: Int4 := 0x7fff_ffff

  /** Ranges d[0]..d[1], d[2]..d[3], ... in ascending order without overlap. */
  predicate Ranges(d: seq<Int4>) {
    && |d| % 2 == 0
    && forall i, j :: 0 <= i < j < |d| ==> d[i] < d[j] || (d[i] == d[j] && j == i + 1 && i % 2 == 0)
  }

  /** x lies in the range that starts at i. */
  predicate InRange(d: seq<Int4>, i: int, x: Int4)
    requires |d| % 2 == 0
  {
    0 <= i < |d| && i % 2 == 0 && d[i] <= x <= d[i + 1]
  }

  /** x lies in one of the ranges. */
  ghost predicate Covers(d: seq<Int4>, x: Int4)
    requires |d| % 2 == 0
  {
    exists i :: InRange(d, i, x)
  }

  // ----- Compression -----

  /** Each element as a range of its own. */
  function Doubled(s: seq<Int4>): (r: seq<Int4>)
    ensures |r| == 2 * |s|
  {
    seq(2 * |s|, k requires 0 <= k < 2 * |s| => s[k / 2])
  }

  lemma DoubledRanges(s: seq<Int4>)
    requires Ascending(s)
    ensures Ranges(Doubled(s))
  {
    var d := Doubled(s);
    forall i, j | 0 <= i < j < |d|
      ensures d[i] < d[j] || (d[i] == d[j] && j == i + 1 && i % 2 == 0)
    {
      assert i / 2 <= j / 2;
    }
  }

  lemma DoubledAt(s: seq<Int4>, i: nat)
    requires i < |s|
    ensures Doubled(s)[2 * i] == s[i] == Doubled(s)[2 * i + 1]
  {
    assert (2 * i) / 2 == i == (2 * i + 1) / 2;
  }

  lemma DoubledCovers(s: seq<Int4>, x: Int4)
    ensures Covers(Doubled(s), x) <==> x in s
  {
    if x in s {
      var k :| 0 <= k < |s| && s[k] == x;
      assert InRange(Doubled(s), 2 * k, x);
    }
  }

  /** The gap before the range that starts at i, as the subtraction computes it. */
  function Gap(d: seq<Int4>, i: nat): Int4
    requires 0 < i < |d|
  {
    Wrap32(d[i] as int - d[i - 1] as int)
  }

  /** The scan for the smallest gap before position n: that gap, and where the range behind it
      starts; 1 stands for none. */
  function Smallest(d: seq<Int4>, n: nat): (r: (Int4, nat))
    requires n % 2 == 0 && n <= |d|
    ensures r.1 == 1 || (r.1 % 2 == 0 && 2 <= r.1 < n)
    decreases n
  {
    if n <= 2 then (INT_MAX, 1)
    else
      var (min, cand) := Smallest(d, n - 2);
      if min > Gap(d, n - 2) then (Gap(d, n - 2), n - 2) else (min, cand)
  }

  /** min is the smallest gap before position n and cand the first place where it stands; 1 if
      no gap is below the largest int. */
  ghost predicate IsSmallest(d: seq<Int4>, n: nat, min: Int4, cand: nat)
    requires n <= |d|
  {
    && (cand == 1 ==> min == INT_MAX) && (cand > 1 ==> cand < n && min == Gap(d, cand) < INT_MAX)
    && (forall i :: 2 <= i < n && i % 2 == 0 ==> min <= Gap(d, i) && (i < cand ==> min < Gap(d, i)))
  }

  /** What the scan finds is the first of the smallest gaps. */
  lemma {:induction false} SmallestIsSmallest(d: seq<Int4>, n: nat)
    requires n % 2 == 0 && n <= |d|
    ensures IsSmallest(d, n, Smallest(d, n).0, Smallest(d, n).1)
  {
    if n > 2 {
      SmallestIsSmallest(d, n - 2);
      NextSmallest(d, n, Smallest(d, n - 2).0, Smallest(d, n - 2).1);
    }
  }

  lemma NextSmallest(d: seq<Int4>, n: nat, min: Int4, cand: nat)
    requires 2 < n <= |d| && n % 2 == 0 && IsSmallest(d, n - 2, min, cand)
    ensures if min > Gap(d, n - 2) then IsSmallest(d, n, Gap(d, n - 2), n - 2) else IsSmallest(d, n, min, cand)
  {
  }

  /** Four ranges cannot lie so far apart that each gap is INT_MAX or more. */
  lemma SmallGapExists(d: seq<Int4>)
    requires Ranges(d) && |d| >= 8
    ensures Smallest(d, |d|).1 > 1
  {
    SmallestIsSmallest(d, |d|);
    assert d[1] < d[2] <= d[3] < d[4] <= d[5] < d[6];
    assert Gap(d, 2) < INT_MAX || Gap(d, 4) < INT_MAX || Gap(d, 6) < INT_MAX;
  }

  /** The width of the gap before the range that starts at i. */
  function Width(d: seq<Int4>, i: nat): int
    requires 0 < i < |d|
  {
    d[i] as int - d[i - 1] as int
  }

  /** Every gap is at most as wide as the largest int. */
  ghost predicate NoWideGap(d: seq<Int4>) {
    forall i :: 2 <= i < |d| && i % 2 == 0 ==> Width(d, i) <= INT_MAX
  }

  /** The gap before i is as narrow as any. */
  ghost predicate Narrowest(d: seq<Int4>, i: nat)
    requires 0 < i < |d|
  {
    forall j :: 2 <= j < |d| && j % 2 == 0 ==> Width(d, i) <= Width(d, j)
  }

  /** Two gaps wider than the largest int do not fit. */
  lemma OneWideGap(d: seq<Int4>, i: nat, j: nat)
    requires Ranges(d) && 2 <= i < j < |d| && i % 2 == 0 && j % 2 == 0
    ensures Width(d, i) <= INT_MAX || Width(d, j) <= INT_MAX
  {
    assert d[i] <= d[j - 1];
  }

  /** The scan picks a narrowest gap if and only if no gap is wider than the largest int; such a
      gap overflows the subtraction and is closed first. */
  lemma CandidateIsNarrowest(d: seq<Int4>)
    requires Ranges(d) && |d| >= 8
    ensures Smallest(d, |d|).1 > 1 && (Narrowest(d, Smallest(d, |d|).1) <==> NoWideGap(d))
  {
    SmallGapExists(d);
    SmallestIsSmallest(d, |d|);
    var cand := Smallest(d, |d|).1;
    forall i | 2 <= i < |d| && i % 2 == 0
      ensures Width(d, i) > 0 && (Width(d, i) <= INT_MAX ==> Gap(d, i) == Width(d, i))
      ensures Width(d, i) > INT_MAX ==> Gap(d, i) < 0
    {
      assert d[i - 1] < d[i];
    }
    if !NoWideGap(d) {
      var other := if cand == 2 then 4 else 2;
      OneWideGap(d, if cand == 2 then 2 else other, if cand == 2 then other else cand);
    }
  }

  /** The ranges on both sides of the gap before i become one. */
  function JoinAt(d: seq<Int4>, i: nat): (r: seq<Int4>)
    requires 0 < i < |d|
    ensures |r| == |d| - 2
  {
    d[..i - 1] + d[i + 1..]
  }

  lemma JoinRanges(d: seq<Int4>, i: nat)
    requires Ranges(d) && 2 <= i < |d| && i % 2 == 0
    ensures Ranges(JoinAt(d, i))
  {
    var r := JoinAt(d, i);
    assert forall k :: 0 <= k < |r| ==> r[k] == d[if k < i - 1 then k else k + 2];
  }

  lemma JoinKeeps(d: seq<Int4>, i: nat, x: Int4)
    requires Ranges(d) && 2 <= i < |d| && i % 2 == 0 && (Covers(d, x) || d[i - 1] < x < d[i])
    ensures Covers(JoinAt(d, i), x)
  {
    var r := JoinAt(d, i);
    assert r[i - 2] == d[i - 2] && r[i - 1] == d[i + 1];
    assert d[i - 2] <= d[i - 1] && d[i] <= d[i + 1];
    if d[i - 2] <= x <= d[i + 1] {
      assert InRange(r, i - 2, x);
    } else {
      var k :| InRange(d, k, x);
      var k' := if k < i then k else k - 2;
      assert r[k'] == d[k] && r[k' + 1] == d[k + 1];
      assert InRange(r, k', x);
    }
  }

  lemma JoinAdds(d: seq<Int4>, i: nat, x: Int4)
    requires |d| % 2 == 0 && 2 <= i < |d| && i % 2 == 0 && Covers(JoinAt(d, i), x)
    ensures Covers(d, x) || d[i - 1] < x < d[i]
  {
    var r := JoinAt(d, i);
    var k :| InRange(r, k, x);
    if k < i - 2 {
      assert r[k] == d[k] && r[k + 1] == d[k + 1];
      assert InRange(d, k, x);
    } else if k >= i {
      assert r[k] == d[k + 2] && r[k + 1] == d[k + 3];
      assert InRange(d, k + 2, x);
    } else {
      assert k == i - 2 && r[k] == d[i - 2] && r[k + 1] == d[i + 1];
      assert x <= d[i - 1] ==> InRange(d, i - 2, x);
      assert d[i] <= x ==> InRange(d, i, x);
    }
  }

  /** Joining adds exactly what lies in the gap. */
  lemma JoinCovers(d: seq<Int4>, i: nat, x: Int4)
    requires Ranges(d) && 2 <= i < |d| && i % 2 == 0
    ensures Ranges(JoinAt(d, i))
    ensures Covers(JoinAt(d, i), x) <==> Covers(d, x) || d[i - 1] < x < d[i]
  {
    JoinRanges(d, i);
    if Covers(d, x) || d[i - 1] < x < d[i] {
      JoinKeeps(d, i, x);
    }
    if Covers(JoinAt(d, i), x) {
      JoinAdds(d, i, x);
    }
  }

  /** Join across the smallest gap until at most 100 ranges are left. */
  function Squeeze(d: seq<Int4>): (r: seq<Int4>)
    requires Ranges(d)
    ensures Ranges(r) && |r| == Min(|d|, 2 * MAXNUMRANGE)
    ensures d != [] ==> r[|r| - 1] == d[|d| - 1]
    decreases |d|
  {
    if |d| <= 2 * MAXNUMRANGE then d
    else
      SmallGapExists(d);
      var cand := Smallest(d, |d|).1;
      JoinRanges(d, cand);
      Squeeze(JoinAt(d, cand))
  }

  lemma SqueezeStep(d: seq<Int4>, cand: nat, d': seq<Int4>)
    requires Ranges(d) && |d| > 2 * MAXNUMRANGE && cand == Smallest(d, |d|).1 > 1 && d' == JoinAt(d, cand)
    ensures Ranges(d') && Squeeze(d') == Squeeze(d)
  {
    SmallGapExists(d);
    JoinRanges(d, cand);
  }

  lemma {:induction false} SqueezeCovers(d: seq<Int4>, x: Int4)
    requires Ranges(d)
    ensures Covers(d, x) ==> Covers(Squeeze(d), x)
    decreases |d|
  {
    if |d| > 2 * MAXNUMRANGE {
      SmallGapExists(d);
      var cand := Smallest(d, |d|).1;
      JoinCovers(d, cand, x);
      SqueezeCovers(JoinAt(d, cand), x);
    }
  }

  /** The stored form of an internal key. */
  function Compressed(key: seq<Int4>): (r: seq<Int4>)
    requires Ascending(key)
    ensures |key| >= 2 * MAXNUMRANGE ==> Ranges(r) && |r| == 2 * MAXNUMRANGE && r[|r| - 1] == key[|key| - 1]
  {
    if |key| < 2 * MAXNUMRANGE then key
    else
      DoubledRanges(key);
      Squeeze(Doubled(key))
  }

  /** Write the elements twice, from the back, over the first half of the array. */
  method Duplicate(dr: array<Int4>, len: nat)
    requires dr.Length == 2 * len
    modifies dr
    ensures dr[..] == Doubled(old(dr[..len]))
  {
    ghost var s := dr[..len];
    var i := len - 1;
    while i >= 0
      invariant -1 <= i < len
      invariant HalfDoubled(dr[..], s, i + 1)
    {
      DuplicateOne(dr, i, s);
      i := i - 1;
    }
  }

  /** The elements from n on are doubled, the others still in place. */
  ghost predicate HalfDoubled(t: seq<Int4>, s: seq<Int4>, n: nat) {
    && n <= |s| && |t| == 2 * |s|
    && (forall k :: 0 <= k < n ==> t[k] == s[k])
    && (forall k :: 2 * n <= k < |t| ==> t[k] == Doubled(s)[k])
  }

  method DuplicateOne(dr: array<Int4>, i: nat, ghost s: seq<Int4>)
    requires HalfDoubled(dr[..], s, i + 1)
    modifies dr
    ensures HalfDoubled(dr[..], s, i)
  {
    dr[2 * i + 1] := dr[i];
    dr[2 * i] := dr[2 * i + 1];
    DoubledAt(s, i);
  }

  method CloseGap(dr: array<Int4>, len: nat, cand: nat)
    requires 0 < cand < len <= dr.Length
    modifies dr
    ensures dr[..len - 2] == JoinAt(old(dr[..len]), cand)
  {
    MoveDown(dr, cand - 1, cand + 1, len - cand - 1);
  }

  /** Scan for the smallest gap. */
  method FindCandidate(dr: array<Int4>, len: nat, cand: nat) returns (cand': nat)
    requires 2 <= len <= dr.Length && len % 2 == 0
    ensures var best := Smallest(dr[..len], len).1;
      cand' == if best > 1 then best else cand
  {
    ghost var d := dr[..len];
    var min := INT_MAX;
    cand' := cand;
    var i := 2;
    while i < len
      invariant 2 <= i <= len && i % 2 == 0
      invariant min == Smallest(d, i).0
      invariant cand' == if Smallest(d, i).1 > 1 then Smallest(d, i).1 else cand
    {
      assert Gap(d, i) == Wrap32(dr[i] as int - dr[i - 1] as int);
      if min > Wrap32(dr[i] as int - dr[i - 1] as int) {
        min := Wrap32(dr[i] as int - dr[i - 1] as int);
        cand' := i;
      }
      i := i + 2;
    }
  }

  /** Twice as many elements do not fit an array. */
  predicate TooManyToDouble(len: nat) {
    ARRAY_HEADER + 4 * (2 * len) > MAX_ALLOC
  }

  /** Compress an internal key: up to 199 elements are stored as they are, more as exactly
      100 ranges. */
  method GIntCompress(r: seq<Int4>) returns (stored: Result<seq<Int4>, ArrayError>)
    requires Ascending(r) && |r| <= MAX_ELEMENTS
    ensures stored == if |r| >= 2 * MAXNUMRANGE && TooManyToDouble(|r|) then Failure(Refused) else Success(Compressed(r))
  {
    var len := |r|;
    if len < 2 * MAXNUMRANGE {
      return Success(r);
    }
    var nbytes := Wrap32(ARRAY_HEADER + 4 * (2 * len));
    if !(0 <= nbytes <= MAX_ALLOC) {
      return Failure(Refused);
    }
    var dr := new Int4[2 * len](k => if 0 <= k < |r| then r[k] else 0);
    assert dr[..len] == r;
    Duplicate(dr, len);
    DoubledRanges(r);
    assert dr[..2 * len] == dr[..];
    len := Join(dr);
    stored := Success(dr[..len]);
  }

  /** The merge loop: the first len elements are the result. */
  method Join(dr: array<Int4>) returns (len: nat)
    requires Ranges(dr[..])
    modifies dr
    ensures len <= dr.Length && dr[..len] == Squeeze(old(dr[..]))
  {
    ghost var want := Squeeze(dr[..]);
    len := dr.Length;
    assert dr[..len] == dr[..];
    var cand := 1;
    while len > 2 * MAXNUMRANGE
      invariant len <= dr.Length
      invariant Ranges(dr[..len]) && Squeeze(dr[..len]) == want
    {
      ghost var d := dr[..len];
      SmallGapExists(d);
      cand := FindCandidate(dr, len, cand);
      CloseGap(dr, len, cand);
      len := len - 2;
      SqueezeStep(d, cand, dr[..len]);
    }
  }

  // ----- Expansion -----

  /** lo, lo + 1, ... below end. */
  function Span(lo: int, end: int): (r: seq<Int4>)
    requires -0x8000_0000 <= lo <= end <= 0x8000_0000
    ensures |r| == end - lo
  {
    seq(end - lo, k requires 0 <= k < end - lo => lo + k)
  }

  /** The ranges before position n written out. */
  function Expand(d: seq<Int4>, n: nat): seq<Int4>
    requires Ranges(d) && n <= |d| && n % 2 == 0
  {
    if n == 0 then [] else Expand(d, n - 2) + Span(d[n - 2], d[n - 1] as int + 1)
  }

  lemma SpanMember(lo: int, end: int, x: Int4)
    requires -0x8000_0000 <= lo <= end <= 0x8000_0000
    ensures x in Span(lo, end) <==> lo <= x < end
  {
    if lo <= x < end {
      assert Span(lo, end)[x - lo] == x;
    }
  }

  lemma {:induction false} ExpandAscending(d: seq<Int4>, n: nat)
    requires Ranges(d) && n <= |d| && n % 2 == 0
    ensures Ascending(Expand(d, n))
    ensures n > 0 ==> Expand(d, n) != [] && Expand(d, n)[|Expand(d, n)| - 1] == d[n - 1]
  {
    if n > 0 {
      ExpandAscending(d, n - 2);
      AscendingConcat(Expand(d, n - 2), Span(d[n - 2], d[n - 1] as int + 1));
    }
  }

  lemma {:induction false} ExpandMember(d: seq<Int4>, n: nat, x: Int4)
    requires Ranges(d) && n <= |d| && n % 2 == 0
    ensures x in Expand(d, n) <==> exists i :: i < n && InRange(d, i, x)
  {
    if n > 0 {
      ExpandMember(d, n - 2, x);
      SpanMember(d[n - 2], d[n - 1] as int + 1, x);
      assert d[n - 2] <= x <= d[n - 1] <==> InRange(d, n - 2, x);
      assert !InRange(d, n - 1, x);
    }
  }

  lemma {:induction false} ExpandLength(d: seq<Int4>, i: nat, n: nat)
    requires Ranges(d) && i < n <= |d| && i % 2 == 0 && n % 2 == 0
    ensures |Expand(d, i)| + d[i + 1] as int - d[i] as int + 1 <= |Expand(d, n)|
  {
    if i < n - 2 {
      ExpandLength(d, i, n - 2);
    }
  }

  /** The number of integers in the ranges, in int arithmetic. */
  method InternalSize(a: seq<Int4>) returns (size: Int4)
    requires Ranges(a)
    ensures size == Wrap32(|Expand(a, |a|)|)
  {
    size := 0;
    var i := 0;
    while i < |a|
      invariant 0 <= i <= |a| && i % 2 == 0
      invariant size == Wrap32(|Expand(a, i)|)
    {
      if i == 0 || a[i] != a[i - 1] {
        ghost var before := |Expand(a, i)|;
        WrapAdd(before, a[i + 1] as int - a[i] as int + 1);
        size := Wrap32(size as int + a[i + 1] as int - a[i] as int + 1);
      }
      i := i + 2;
    }
  }

  // ----- Reading back -----

  /** The key a stored key stands for. */
  function Decompressed(key: seq<Int4>): Result<seq<Int4>, ArrayError>
    requires |key| >= 2 * MAXNUMRANGE ==> Ranges(key)
  {
    if |key| < 2 * MAXNUMRANGE then Success(key)
    else
      var total := |Expand(key, |key|)|;
      if SizeRefused(total) then Failure(Refused)
      else if total > MAX_ELEMENTS || key[|key| - 1] == INT_MAX then Failure(Overrun)
      else Success(Expand(key, |key|))
  }

  /** The loop variable of a range after n increments. */
  function Counter(lo: Int4, n: nat): Int4 {
    Wrap32(lo as int + n)
  }

  /** Counting up to hi ends exactly when hi is not the largest int. */
  lemma RangeLoopEnds(lo: Int4, hi: Int4)
    requires lo <= hi
    ensures (exists n: nat :: Counter(lo, n) > hi) <==> hi < INT_MAX
  {
    if hi < INT_MAX {
      var n: nat := hi as int - lo as int + 1;
      assert Counter(lo, n) > hi;
    }
  }

  lemma {:induction false} ExpandBounds(d: seq<Int4>, n: nat)
    requires Ranges(d) && 0 < n <= |d| && n % 2 == 0
    ensures n / 2 <= |Expand(d, n)| <= d[n - 1] as int - d[0] as int + 1
  {
    if n > 2 {
      ExpandBounds(d, n - 2);
    } else {
      assert Expand(d, 0) == [];
    }
  }

  lemma SpanNext(done: seq<Int4>, lo: int, j: Int4)
    requires -0x8000_0000 <= lo <= j
    ensures done + Span(lo, j as int + 1) == done + Span(lo, j) + [j]
  {
  }

  lemma CounterMoves(lo: Int4, n: nat)
    ensures Counter(lo, n + 1) == Wrap32(Counter(lo, n) as int + 1) != Counter(lo, n)
  {
    WrapAdd(lo as int + n, 1);
  }

  /** Write one range behind the k elements already there, which end below it; inside tells
      whether it ended within the array. */
  method WriteRange(dr: array<Int4>, k: nat, first: bool, lo: Int4, hi: Int4) returns (k': nat, inside: bool)
    requires lo <= hi && k <= dr.Length
    requires first <==> k == 0
    requires k > 0 ==> dr[k - 1] < lo
    modifies dr
    ensures inside <==> hi < INT_MAX && k + (hi as int - lo as int + 1) <= dr.Length
    ensures inside ==> k' == k + (hi as int - lo as int + 1) && dr[..k'] == old(dr[..k]) + Span(lo, hi as int + 1)
  {
    k' := k;
    var j := lo;
    ghost var n: nat := 0;
    while j <= hi
      invariant k' == k + n <= dr.Length && j == Counter(lo, n)
      invariant k' > 0 ==> dr[k' - 1] != j
      invariant hi < INT_MAX ==> lo as int + n <= hi as int + 1 && dr[..k'] == old(dr[..k]) + Span(lo, lo as int + n)
      decreases dr.Length - k'
    {
      if first || dr[k' - 1] != j {
        if k' == dr.Length {
          return k', false;
        }
        ghost var done := dr[..k'];
        dr[k'] := j;
        k' := k' + 1;
        assert dr[..k'] == done + [j];
      }
      CounterMoves(lo, n);
      if hi < INT_MAX {
        SpanNext(old(dr[..k]), lo, j);
      }
      j := Wrap32(j as int + 1);
      n := n + 1;
    }
    inside := true;
  }

  method GIntDecompress(din: seq<Int4>) returns (r: Result<seq<Int4>, ArrayError>)
    requires |din| >= 2 * MAXNUMRANGE ==> Ranges(din)
    ensures r == Decompressed(din)
  {
    var lenin := |din|;
    if lenin < 2 * MAXNUMRANGE {
      return Success(din);
    }
    var lenr := InternalSize(din);
    ExpandBounds(din, lenin);
    RoomExact(|Expand(din, lenin)|);
    var ok, dr := NewIntArrayType(lenr);
    if !ok {
      return Failure(Refused);
    }
    r := ExpandInto(dr, din);
  }

  method ExpandInto(dr: array<Int4>, din: seq<Int4>) returns (r: Result<seq<Int4>, ArrayError>)
    requires Ranges(din) && din != []
    modifies dr
    ensures r == if |Expand(din, |din|)| > dr.Length || din[|din| - 1] == INT_MAX then Failure(Overrun)
                 else Success(Expand(din, |din|))
  {
    var lenin := |din|;
    var i, k := 0, 0;
    while i < lenin
      invariant 0 <= i <= lenin && i % 2 == 0
      invariant i == 0 || din[i - 1] < INT_MAX
      invariant 0 <= k <= dr.Length && dr[..k] == Expand(din, i)
    {
      var inside;
      k, inside := WriteNext(dr, k, din, i);
      if !inside {
        return Failure(Overrun);
      }
      i := i + 2;
    }
    r := Success(dr[..k]);
  }

  method WriteNext(dr: array<Int4>, k: nat, din: seq<Int4>, i: nat) returns (k': nat, inside: bool)
    requires Ranges(din) && i + 1 < |din| && i % 2 == 0
    requires k <= dr.Length && dr[..k] == Expand(din, i)
    modifies dr
    ensures inside ==> k' <= dr.Length && dr[..k'] == Expand(din, i + 2) && din[i + 1] < INT_MAX
    ensures !inside ==> |Expand(din, |din|)| > dr.Length || din[|din| - 1] == INT_MAX
  {
    ghost var done := dr[..k];
    EndsBelow(din, i, done);
    k', inside := WriteRange(dr, k, i == 0, din[i], din[i + 1]);
    NextRange(din, i, done);
  }

  /** What is written out of the first ranges ends below the next one. */
  lemma EndsBelow(din: seq<Int4>, i: nat, done: seq<Int4>)
    requires Ranges(din) && i + 1 < |din| && i % 2 == 0 && done == Expand(din, i)
    ensures (i == 0 <==> done == []) && (done != [] ==> done[|done| - 1] < din[i]) && din[i] <= din[i + 1]
  {
    ExpandAscending(din, i);
  }

  lemma NextRange(din: seq<Int4>, i: nat, done: seq<Int4>)
    requires Ranges(din) && i + 1 < |din| && i % 2 == 0 && done == Expand(din, i)
    ensures Expand(din, i + 2) == done + Span(din[i], din[i + 1] as int + 1)
    ensures |done| + din[i + 1] as int - din[i] as int + 1 <= |Expand(din, |din|)|
    ensures din[i + 1] == INT_MAX ==> din[|din| - 1] == INT_MAX
  {
    ExpandLength(din, i, |din|);
    assert i + 1 < |din| - 1 ==> din[i + 1] <= din[|din| - 1];
  }

  // ----- The stored key stands for at least the key -----

  /** What compressing an internal key and reading it back makes of it. */
  function Restored(key: seq<Int4>): Result<seq<Int4>, ArrayError>
    requires Ascending(key)
  {
    if |key| >= 2 * MAXNUMRANGE && TooManyToDouble(|key|) then Failure(Refused) else Decompressed(Compressed(key))
  }

  /** The key read back is strictly ascending and holds every element of the key. */
  lemma RestoredIsSuperset(key: seq<Int4>)
    requires Ascending(key) && Restored(key).Success?
    ensures var r := Restored(key).value;
      Ascending(r) && Elements(key) <= Elements(r)
  {
    var d := Compressed(key);
    if |key| >= 2 * MAXNUMRANGE {
      DoubledRanges(key);
      ExpandAscending(d, |d|);
      forall x | x in key
        ensures x in Expand(d, |d|)
      {
        DoubledCovers(key, x);
        SqueezeCovers(Doubled(key), x);
        ExpandMember(d, |d|, x);
      }
    }
  }
}
