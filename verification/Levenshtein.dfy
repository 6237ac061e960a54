/** fuzzystrmatch/levenshtein.c: the two compilations of one dynamic program, the full
    two-row form and the one that keeps a moving band of columns. */
module Levenshtein {
  import opened Wrappers
  import opened Edit

  const MAX_LEVENSHTEIN_STRLEN := 255

  datatype Error = ArgumentTooLong

  /** Both variants refuse long arguments, but only once neither string is empty. */
  predicate TooLong(s: string, t: string) {
    s != [] && t != [] && (|s| > MAX_LEVENSHTEIN_STRLEN || |t| > MAX_LEVENSHTEIN_STRLEN)
  }

  // ----- One row -----

  function RowCell(above: int, left: int, corner: int, x: char, y: char, c: Costs): int {
    Min(Min(above + c.ins, left + c.del), corner + SubPrice(x, y, c))
  }

  /** The innermost loop: fill curr[from..stop] from prev and from the cell to its left.
      xData is the position in s of the character for column from. */
  method FillRow(prev: array<int>, curr: array<int>, s: string, xData: nat, y: char, from: nat, stop: nat, c: Costs)
    requires prev != curr && prev.Length == curr.Length == |s| + 1
    requires from == xData + 1 && from <= stop <= |s| + 1
    modifies curr
    ensures forall i :: from <= i < stop ==>
      curr[i] == RowCell(prev[i], curr[i - 1], prev[i - 1], s[i - 1], y, c)
    ensures forall i :: 0 <= i < curr.Length && !(from <= i < stop) ==> curr[i] == old(curr[i])
  {
    var i, x := from, xData;
    while i < stop
      invariant from <= i <= stop && x == i - 1
      invariant forall k :: from <= k < i ==>
        curr[k] == RowCell(prev[k], curr[k - 1], prev[k - 1], s[k - 1], y, c)
      invariant forall k :: 0 <= k < curr.Length && !(from <= k < i) ==> curr[k] == old(curr[k])
    {
      var ins := prev[i] + c.ins;
      var del := curr[i - 1] + c.del;
      var sub := prev[i - 1] + if s[x] == y then 0 else c.sub;
      curr[i] := Min(ins, del);
      curr[i] := Min(curr[i], sub);
      x := x + 1;
      i := i + 1;
    }
  }

  /** row[i] is the true value of cell (i, j), for every column. */
  ghost predicate ExactRow(row: seq<int>, s: string, t: string, j: nat, c: Costs) {
    |row| == |s| + 1 && j <= |t| && forall i :: 0 <= i <= |s| ==> row[i] == Cell(s, t, i, j, c)
  }

  /** curr[from..stop] was filled from prev. */
  ghost predicate Filled(prev: seq<int>, curr: seq<int>, s: string, y: char, from: int, stop: int, c: Costs) {
    |prev| == |curr| == |s| + 1 && 1 <= from && stop <= |s| + 1 &&
    forall i :: from <= i < stop ==> curr[i] == RowCell(prev[i], curr[i - 1], prev[i - 1], s[i - 1], y, c)
  }

  lemma {:induction false} ExactUpTo(prev: seq<int>, curr: seq<int>, s: string, t: string, j: nat, c: Costs, k: nat)
    requires 1 <= j <= |t| && k <= |s|
    requires ExactRow(prev, s, t, j - 1, c)
    requires Filled(prev, curr, s, t[j - 1], 1, |s| + 1, c)
    requires curr[0] == j * c.ins
    ensures forall i :: 0 <= i <= k ==> curr[i] == Cell(s, t, i, j, c)
  {
    CellBorder(s, t, 0, j, c);
    if k > 0 {
      ExactUpTo(prev, curr, s, t, j, c, k - 1);
    }
  }

  /** The first row holds the deletions alone. */
  lemma FirstRow(row: seq<int>, s: string, t: string, c: Costs, stop: nat)
    requires stop <= |row| == |s| + 1
    requires forall k :: 0 <= k < stop ==> row[k] == k * c.del
    ensures forall i :: 0 <= i < stop ==> row[i] == Cell(s, t, i, 0, c)
  {
    forall i | 0 <= i < stop
      ensures row[i] == Cell(s, t, i, 0, c)
    {
      CellBorder(s, t, i, 0, c);
    }
  }

  // ----- The unbounded variant -----

  method LevenshteinInternal(s: string, t: string, c: Costs) returns (r: Result<int, Error>)
    ensures r == if TooLong(s, t) then Failure(ArgumentTooLong) else Success(Distance(s, t, c))
    ensures r.Failure? <==> s != "" && t != "" && (|s| > 255 || |t| > 255)
  {
    var m, n := |s|, |t|;
    CellBorder(s, t, m, n, c);
    if m == 0 {
      return Success(n * c.ins);
    }
    if n == 0 {
      return Success(m * c.del);
    }
    if m > MAX_LEVENSHTEIN_STRLEN || n > MAX_LEVENSHTEIN_STRLEN {
      return Failure(ArgumentTooLong);
    }
    var prev, curr := new int[m + 1], new int[m + 1];
    for i := 0 to m + 1
      invariant forall k :: 0 <= k < i ==> prev[k] == k * c.del
    {
      prev[i] := i * c.del;
    }
    FirstRow(prev[..], s, t, c, m + 1);
    var j := 1;
    while j <= n
      invariant 1 <= j <= n + 1
      invariant prev != curr && prev.Length == curr.Length == m + 1
      invariant fresh(prev) && fresh(curr)
      invariant ExactRow(prev[..], s, t, j - 1, c)
    {
      curr[0] := j * c.ins;
      FillRow(prev, curr, s, 0, t[j - 1], 1, m + 1, c);
      ExactUpTo(prev[..], curr[..], s, t, j, c, m);
      prev, curr := curr, prev;
      j := j + 1;
    }
    return Success(prev[m]);
  }

  // ----- The band -----

  /** Cheapest conceivable total through cell (i, j): its value plus the minimum residual
      distance from it to the last column of the final row. */
  ghost function Best(s: string, t: string, i: nat, j: nat, c: Costs): int
    requires i <= |s| && j <= |t|
  {
    Cell(s, t, i, j, c) + Gap(i - j + |t| - |s|, c)
  }

  /** What a stored value may be: exact if the cell can still matter, and otherwise
      something that is itself recognisably over the bound. */
  ghost predicate Usable(v: int, s: string, t: string, i: nat, j: nat, c: Costs, maxD: int)
    requires i <= |s| && j <= |t|
  {
    if Best(s, t, i, j, c) <= maxD then v == Cell(s, t, i, j, c)
    else v + Gap(i - j + |t| - |s|, c) > maxD
  }

  /** Every cell of row j that can matter lies in [start, stop) and is exact there. */
  ghost predicate Band(row: seq<int>, s: string, t: string, j: nat, c: Costs, maxD: int, start: nat, stop: nat) {
    |row| == |s| + 1 && j <= |t| && stop <= |s| + 1 &&
    (forall i: nat :: i <= |s| && !(start <= i < stop) ==> Best(s, t, i, j, c) > maxD) &&
    (forall i: nat :: start <= i < stop ==> Usable(row[i], s, t, i, j, c, maxD))
  }

  /** A sentinel is usable in any cell that cannot matter. */
  lemma SentinelUsable(s: string, t: string, i: nat, j: nat, c: Costs, maxD: int)
    requires i <= |s| && j <= |t| && c.NonNegative()
    requires Best(s, t, i, j, c) > maxD
    ensures Usable(maxD + 1, s, t, i, j, c, maxD)
  {
    GapNonNegative(i - j + |t| - |s|, c);
  }

  /** The cell a value came from is no worse than the cell itself. */
  lemma BestPredecessor(s: string, t: string, i: nat, j: nat, c: Costs) returns (p: Step)
    requires i <= |s| && j <= |t| && i + j > 0 && c.NonNegative()
    ensures StepInto(p, s, t, i, j)
    ensures Best(s, t, FromColumn(p, i), FromRow(p, j), c) <= Best(s, t, i, j, c)
  {
    p := CellPredecessor(s, t, i, j, c);
    GapAlongStep(i - j + |t| - |s|, c, p);
  }

  /** Cells left of the band stay hopeless in the next row. */
  lemma {:induction false} LeftHopeless(s: string, t: string, i: nat, j: nat, c: Costs, maxD: int, start: nat)
    requires i < start <= |s| + 1 && j < |t| && c.NonNegative()
    requires forall k: nat :: k < start ==> Best(s, t, k, j, c) > maxD
    ensures Best(s, t, i, j + 1, c) > maxD
  {
    var p := BestPredecessor(s, t, i, j + 1, c);
    if p.Delete? {
      LeftHopeless(s, t, i - 1, j, c, maxD, start);
    } else {
      assert Best(s, t, FromColumn(p, i), j, c) > maxD;
    }
  }

  /** Cells right of the shifted band stay hopeless: values do not fall along a diagonal. */
  lemma RightHopeless(s: string, t: string, i: nat, j: nat, c: Costs, maxD: int)
    requires 1 <= i <= |s| && 1 <= j <= |t| && c.NonNegative()
    requires Best(s, t, i - 1, j - 1, c) > maxD
    ensures Best(s, t, i, j, c) > maxD
  {
    CellDiagonal(s, t, i - 1, j - 1, c);
  }

  /** A usable neighbour offers its true candidate for cell (i, j), or one that is over the
      bound together with it. */
  lemma CandidateUsable(s: string, t: string, i: nat, j: nat, c: Costs, maxD: int, p: Step, v: int, i': nat, j': nat, price: int)
    requires i <= |s| && j <= |t| && c.NonNegative() && StepInto(p, s, t, i, j)
    requires i' == FromColumn(p, i) && j' == FromRow(p, j) && price == p.Price(c)
    requires Usable(v, s, t, i', j', c, maxD)
    ensures EqualOrOver(v + price, Cell(s, t, i', j', c) + price, Gap(i - j + |t| - |s|, c), maxD)
  {
    GapAlongStep(i - j + |t| - |s|, c, p);
  }

  /** Two values are the same, or both are over the bound with what is still to come. */
  predicate EqualOrOver(v: int, w: int, residual: int, maxD: int) {
    v == w || (v + residual > maxD && w + residual > maxD)
  }

  /** Three candidates that are right or hopeless give a minimum that is right or hopeless. */
  lemma MinUsable(above: int, left: int, corner: int, a: int, l: int, k: int, residual: int, maxD: int)
    requires EqualOrOver(above, a, residual, maxD) && EqualOrOver(left, l, residual, maxD)
    requires EqualOrOver(corner, k, residual, maxD)
    ensures EqualOrOver(Min(Min(above, left), corner), Min(Min(a, l), k), residual, maxD)
  {
  }

  /** One cell of the inner loop, computed from three usable neighbours, is usable. */
  lemma CellUsable(s: string, t: string, i: nat, j: nat, c: Costs, maxD: int, above: int, left: int, corner: int)
    requires 1 <= i <= |s| && 1 <= j <= |t| && c.NonNegative()
    requires Usable(above, s, t, i, j - 1, c, maxD)
    requires Usable(left, s, t, i - 1, j, c, maxD)
    requires Usable(corner, s, t, i - 1, j - 1, c, maxD)
    ensures Usable(RowCell(above, left, corner, s[i - 1], t[j - 1], c), s, t, i, j, c, maxD)
  {
    var a, l, k := Cell(s, t, i, j - 1, c), Cell(s, t, i - 1, j, c), Cell(s, t, i - 1, j - 1, c);
    var sub, residual := SubPrice(s[i - 1], t[j - 1], c), Gap(i - j + |t| - |s|, c);
    CandidateUsable(s, t, i, j, c, maxD, Insert(t[j - 1]), above, i, j - 1, c.ins);
    CandidateUsable(s, t, i, j, c, maxD, Delete(s[i - 1]), left, i - 1, j, c.del);
    CandidateUsable(s, t, i, j, c, maxD, Replace(s[i - 1], t[j - 1]), corner, i - 1, j - 1, sub);
    MinUsable(above + c.ins, left + c.del, corner + sub, a + c.ins, l + c.del, k + sub, residual, maxD);
    CellIsRowCell(s, t, i, j, c, a, l, k);
  }

  lemma CellIsRowCell(s: string, t: string, i: nat, j: nat, c: Costs, a: int, l: int, k: int)
    requires 1 <= i <= |s| && 1 <= j <= |t|
    requires a == Cell(s, t, i, j - 1, c) && l == Cell(s, t, i - 1, j, c) && k == Cell(s, t, i - 1, j - 1, c)
    ensures Cell(s, t, i, j, c) == RowCell(a, l, k, s[i - 1], t[j - 1], c)
  {
  }

  lemma {:induction false} BandFill(prev: seq<int>, curr: seq<int>, s: string, t: string, j: nat, c: Costs, maxD: int,
                                    start: nat, stop: nat, k: nat)
    requires 1 <= j <= |t| && start <= stop <= |s| + 1 && c.NonNegative()
    requires |prev| == |curr| == |s| + 1
    requires forall i: nat :: start <= i < stop ==> Usable(prev[i], s, t, i, j - 1, c, maxD)
    requires start > 0 ==> Usable(prev[start - 1], s, t, start - 1, j - 1, c, maxD)
    requires start > 0 ==> Usable(curr[start - 1], s, t, start - 1, j, c, maxD)
    requires start == 0 ==> curr[0] == Cell(s, t, 0, j, c)
    requires Filled(prev, curr, s, t[j - 1], Max(start, 1), stop, c)
    requires start <= k < stop
    ensures Usable(curr[k], s, t, k, j, c, maxD)
  {
    if k == 0 {
    } else {
      if k > start {
        BandFill(prev, curr, s, t, j, c, maxD, start, stop, k - 1);
      }
      CellUsable(s, t, k, j, c, maxD, prev[k], curr[k - 1], prev[k - 1]);
    }
  }

  /** Outside the band moved one column right, the next row cannot matter either. */
  lemma OutsideHopeless(prev: seq<int>, s: string, t: string, j: nat, c: Costs, maxD: int,
                        start: nat, oldStop: nat, i: nat)
    requires 1 <= j <= |t| && start < oldStop && c.NonNegative()
    requires Band(prev, s, t, j - 1, c, maxD, start, oldStop)
    requires i <= |s| && !(start <= i < Min(oldStop + 1, |s| + 1))
    ensures Best(s, t, i, j, c) > maxD
  {
    if i < start {
      LeftHopeless(s, t, i, j - 1, c, maxD, start);
    } else {
      RightHopeless(s, t, i, j, c, maxD);
    }
  }

  /** The row before, with the sentinel behind it, is usable in the band of the next row. */
  lemma RowBefore(prev: seq<int>, s: string, t: string, j: nat, c: Costs, maxD: int, start: nat, oldStop: nat, i: nat)
    requires j <= |t| && oldStop <= |s| + 1 && c.NonNegative()
    requires Band(prev, s, t, j, c, maxD, start, oldStop)
    requires oldStop <= |s| ==> prev[oldStop] == maxD + 1
    requires start <= i < Min(oldStop + 1, |s| + 1)
    ensures Usable(prev[i], s, t, i, j, c, maxD)
  {
    if i == oldStop {
      SentinelUsable(s, t, i, j, c, maxD);
    }
  }

  /** The sentinels left of the band are usable in both rows. */
  lemma SentinelsBefore(prev: seq<int>, s: string, t: string, j: nat, c: Costs, maxD: int, start: nat, oldStop: nat)
    requires 1 <= j <= |t| && 0 < start < oldStop <= |s| + 1 && c.NonNegative()
    requires Band(prev, s, t, j - 1, c, maxD, start, oldStop)
    ensures Usable(maxD + 1, s, t, start - 1, j - 1, c, maxD) && Usable(maxD + 1, s, t, start - 1, j, c, maxD)
  {
    OutsideHopeless(prev, s, t, j, c, maxD, start, oldStop, start - 1);
    SentinelUsable(s, t, start - 1, j - 1, c, maxD);
    SentinelUsable(s, t, start - 1, j, c, maxD);
  }

  /** A whole row: the band moves one column right, and keeps its promise. */
  lemma BandStep(prev: seq<int>, curr: seq<int>, s: string, t: string, j: nat, c: Costs, maxD: int,
                 start: nat, oldStop: nat, stop: nat)
    requires 1 <= j <= |t| && start < oldStop <= |s| + 1 && c.NonNegative()
    requires stop == Min(oldStop + 1, |s| + 1)
    requires Band(prev, s, t, j - 1, c, maxD, start, oldStop)
    requires oldStop <= |s| ==> prev[oldStop] == maxD + 1
    requires |curr| == |s| + 1
    requires start > 0 ==> prev[start - 1] == maxD + 1 && curr[start - 1] == maxD + 1
    requires start == 0 ==> curr[0] == j * c.ins
    requires Filled(prev, curr, s, t[j - 1], Max(start, 1), stop, c)
    ensures Band(curr, s, t, j, c, maxD, start, stop)
  {
    forall i: nat | i <= |s| && !(start <= i < stop)
      ensures Best(s, t, i, j, c) > maxD
    {
      OutsideHopeless(prev, s, t, j, c, maxD, start, oldStop, i);
    }
    forall i: nat | start <= i < stop
      ensures Usable(curr[i], s, t, i, j, c, maxD)
    {
      BandCell(prev, curr, s, t, j, c, maxD, start, oldStop, stop, i);
    }
  }

  lemma BandCell(prev: seq<int>, curr: seq<int>, s: string, t: string, j: nat, c: Costs, maxD: int,
                 start: nat, oldStop: nat, stop: nat, k: nat)
    requires 1 <= j <= |t| && start < oldStop <= |s| + 1 && c.NonNegative()
    requires stop == Min(oldStop + 1, |s| + 1)
    requires Band(prev, s, t, j - 1, c, maxD, start, oldStop)
    requires oldStop <= |s| ==> prev[oldStop] == maxD + 1
    requires |curr| == |s| + 1
    requires start > 0 ==> prev[start - 1] == maxD + 1 && curr[start - 1] == maxD + 1
    requires start == 0 ==> curr[0] == j * c.ins
    requires Filled(prev, curr, s, t[j - 1], Max(start, 1), stop, c)
    requires start <= k < stop
    ensures Usable(curr[k], s, t, k, j, c, maxD)
  {
    CellBorder(s, t, 0, j, c);
    forall i: nat | start <= i < stop
      ensures Usable(prev[i], s, t, i, j - 1, c, maxD)
    {
      RowBefore(prev, s, t, j - 1, c, maxD, start, oldStop, i);
    }
    if start > 0 {
      SentinelsBefore(prev, s, t, j, c, maxD, start, oldStop);
    }
    BandFill(prev, curr, s, t, j, c, maxD, start, stop, k);
  }

  /** The initial stop column leaves out exactly cells that cannot matter. */
  lemma InitialStop(s: string, t: string, c: Costs, maxD: int, minTheo: int, best: nat, stop: nat, i: nat)
    requires c.NonNegative() && c.ins + c.del > 0
    requires minTheo == Gap(|t| - |s|, c) <= maxD
    requires best == Max(|s| - |t|, 0)
    requires stop == best + (maxD - minTheo) / (c.ins + c.del) + 1
    requires stop <= i <= |s|
    ensures Best(s, t, i, 0, c) > maxD
  {
    SlackSpent(maxD - minTheo, c.ins + c.del, i - best);
    CellBorder(s, t, i, 0, c);
    FirstRowTotal(best, |t| - |s|, i - best, c);
  }

  lemma SlackSpent(slack: nat, step: nat, k: nat)
    requires step > 0 && k >= slack / step + 1
    ensures k * step > slack
  {
    assert (slack / step + 1) * step == (slack / step) * step + step;
    MulMonotone(slack / step + 1, k, step);
  }

  /** Moving k columns right of the best one costs k deletions and k insertions more. */
  lemma FirstRowTotal(best: nat, d: int, k: nat, c: Costs)
    requires best == Max(-d, 0)
    ensures (best + k) * c.del + Gap(best + k + d, c) == Gap(d, c) + k * (c.ins + c.del)
  {
    assert (best + k) * c.del == best * c.del + k * c.del;
    GapProduct(best + k + d, c);
    GapProduct(d, c);
    assert (best + d + k) * c.ins == (best + d) * c.ins + k * c.ins;
    assert k * (c.ins + c.del) == k * c.ins + k * c.del;
  }

  lemma MulMonotone(a: int, b: int, x: int)
    requires a <= b && x >= 0
    ensures a * x <= b * x
  {
  }

  /** If no cell of row j can matter, the distance is over the bound. */
  lemma {:induction false} HopelessRow(s: string, t: string, j: nat, c: Costs, maxD: int, i: nat, j': nat)
    requires c.NonNegative() && j <= j' <= |t| && i <= |s|
    requires forall k: nat :: k <= |s| ==> Best(s, t, k, j, c) > maxD
    ensures Best(s, t, i, j', c) > maxD
    decreases i + j'
  {
    if j < j' {
      var p := BestPredecessor(s, t, i, j', c);
      HopelessRow(s, t, j, c, maxD, FromColumn(p, i), FromRow(p, j'));
    }
  }

  /** In the last row, a cell that can matter makes the final cell matter. */
  lemma {:induction false} LastRow(s: string, t: string, c: Costs, maxD: int, i: nat)
    requires c.NonNegative() && i <= |s|
    requires Best(s, t, i, |t|, c) <= maxD
    ensures Best(s, t, |s|, |t|, c) <= maxD
    decreases |s| - i
  {
    if i < |s| {
      GapStep(i - |s|, c);
      CellBelowStep(s, t, i + 1, |t|, c, Delete(s[i]));
      LastRow(s, t, c, maxD, i + 1);
    }
  }

  // ----- The bounded variant -----

  /** Slide the stop column left over cells whose stored value shows they cannot matter. */
  method SlideStop(row: array<int>, s: string, t: string, j: nat, c: Costs, maxD: int, start: nat, stop: nat)
      returns (stop': nat)
    requires row.Length == |s| + 1 && 1 <= j <= |t| && stop <= |s| + 1
    ensures stop' <= stop
    ensures Band(row[..], s, t, j, c, maxD, start, stop) ==> Band(row[..], s, t, j, c, maxD, start, stop')
    ensures stop' > 0 ==> row[stop' - 1] + Gap(stop' - 1 - j + |t| - |s|, c) <= maxD
  {
    stop' := stop;
    var zp := j - (|t| - |s|);
    while stop' > 0
      invariant stop' <= stop
      invariant Band(row[..], s, t, j, c, maxD, start, stop) ==> Band(row[..], s, t, j, c, maxD, start, stop')
    {
      var ii := stop' - 1;
      var netInserts := ii - zp;
      GapProduct(netInserts, c);
      if row[ii] + (if netInserts > 0 then netInserts * c.ins else -netInserts * c.del) <= maxD {
        break;
      }
      stop' := stop' - 1;
    }
  }

  /** Slide the start column right, leaving sentinels in both rows behind it. */
  method SlideStart(row: array<int>, other: array<int>, s: string, t: string, j: nat, c: Costs, maxD: int,
                    start: nat, stop: nat, sData: nat)
      returns (start': nat, sData': nat)
    requires row != other && row.Length == other.Length == |s| + 1 && 1 <= j <= |t| && stop <= |s| + 1
    requires sData == Max(start - 1, 0)
    modifies row, other
    ensures start <= start' && (start' == start || start' <= stop)
    ensures sData' == Max(start' - 1, 0)
    ensures old(Band(row[..], s, t, j, c, maxD, start, stop)) ==> Band(row[..], s, t, j, c, maxD, start', stop)
    ensures start' < stop ==> row[start'] + Gap(start' - j + |t| - |s|, c) <= maxD
    ensures start' > start ==> row[start' - 1] == other[start' - 1] == maxD + 1
    ensures start' == start ==> row[..] == old(row[..]) && other[..] == old(other[..])
  {
    start', sData' := start, sData;
    var zp := j - (|t| - |s|);
    while start' < stop
      invariant start <= start' && (start' == start || start' <= stop)
      invariant sData' == Max(start' - 1, 0)
      invariant old(Band(row[..], s, t, j, c, maxD, start, stop)) ==> Band(row[..], s, t, j, c, maxD, start', stop)
      invariant start' > start ==> row[start' - 1] == other[start' - 1] == maxD + 1
      invariant start' == start ==> row[..] == old(row[..]) && other[..] == old(other[..])
    {
      var netInserts := start' - zp;
      GapProduct(netInserts, c);
      if row[start'] + (if netInserts > 0 then netInserts * c.ins else -netInserts * c.del) <= maxD {
        break;
      }
      row[start'] := maxD + 1;
      other[start'] := maxD + 1;
      if start' != 0 {
        sData' := sData' + 1;
      }
      start' := start' + 1;
    }
  }

  /** How much of the first row needs filling in. */
  method InitialStopColumn(s: string, t: string, c: Costs, maxD: int, minTheo: int) returns (stop: nat)
    requires c.ins + c.del > 0
    requires minTheo == Gap(|t| - |s|, c) <= maxD
    ensures 1 <= stop <= |s| + 1
    ensures c.NonNegative() ==> forall i: nat :: stop <= i <= |s| ==> Best(s, t, i, 0, c) > maxD
  {
    var slack := maxD - minTheo;
    var netInserts := |t| - |s|;
    var best := if netInserts < 0 then -netInserts else 0;
    stop := best + slack / (c.ins + c.del) + 1;
    if stop > |s| {
      stop := |s| + 1;
    } else if c.NonNegative() {
      forall i: nat | stop <= i <= |s|
        ensures Best(s, t, i, 0, c) > maxD
      {
        InitialStop(s, t, c, maxD, minTheo, best, stop, i);
      }
    }
  }

  /** The band at the start of the run: start column, stop column, and the bound in force
      (-1 once the bound is too loose to prune anything). */
  method InitialBand(s: string, t: string, c: Costs, maxD: int)
      returns (done: bool, c': Costs, maxD': int, stop: nat)
    requires s != [] && t != []
    ensures 1 <= stop <= |s| + 1
    ensures maxD < 0 ==> !done && maxD' == maxD && c' == c && stop == |s| + 1
    ensures maxD >= 0 ==> maxD' == maxD || maxD' == -1
    ensures maxD' < 0 ==> stop == |s| + 1
    ensures maxD >= 0 && c.NonNegative() ==>
      && (done ==> Distance(s, t, c) > maxD)
      && c'.NonNegative() && Distance(s, t, c') == Distance(s, t, c)
      && (maxD' < 0 ==> Distance(s, t, c) <= maxD)
      && forall i: nat :: stop <= i <= |s| ==> Best(s, t, i, 0, c') > maxD'
  {
    var m, n := |s|, |t|;
    done, c', maxD', stop := false, c, maxD, m + 1;
    if maxD >= 0 {
      var netInserts := n - m;
      GapProduct(netInserts, c);
      var minTheo := if netInserts < 0 then -netInserts * c.del else netInserts * c.ins;
      if c.NonNegative() {
        DistanceBounds(s, t, c);
      }
      assert minTheo == Gap(n - m, c);
      if minTheo > maxD {
        done := true;
        return;
      }
      if c.ins + c.del < c.sub {
        c' := c.(sub := c.ins + c.del);
        if c.NonNegative() {
          CellSubCapped(s, t, m, n, c);
        }
      }
      GapProduct(netInserts, c');
      if c'.NonNegative() {
        DistanceBounds(s, t, c');
      }
      var maxTheo := minTheo + c'.sub * Min(m, n);
      if maxD >= maxTheo {
        maxD' := -1;
      } else if c.ins + c.del > 0 {
        stop := InitialStopColumn(s, t, c', maxD, minTheo);
      }
    }
  }

  lemma DistanceBounds(s: string, t: string, c: Costs)
    requires c.NonNegative()
    ensures Gap(|t| - |s|, c) <= Distance(s, t, c) <= Gap(|t| - |s|, c) + c.sub * Min(|s|, |t|)
  {
    CellAtLeastGap(s, t, |s|, |t|, c);
    CellAtMostGap(s, t, |s|, |t|, c);
  }

  /** Fill row j from row j - 1, after planting the sentinel the inner loop will read. */
  method NextRow(prev: array<int>, curr: array<int>, s: string, t: string, j: nat, c: Costs, bound: int,
                 start: nat, stop: nat, sData: nat, ghost banded: bool)
      returns (stop': nat)
    requires prev != curr && prev.Length == curr.Length == |s| + 1
    requires 1 <= j <= |t| && start < stop <= |s| + 1 && sData == Max(start - 1, 0)
    requires bound < 0 ==> !banded && start == 0 && stop == |s| + 1 && ExactRow(prev[..], s, t, j - 1, c)
    requires banded ==> c.NonNegative() && Band(prev[..], s, t, j - 1, c, bound, start, stop)
    requires banded && start > 0 ==> prev[start - 1] == curr[start - 1] == bound + 1
    modifies prev, curr
    ensures stop' == Min(stop + 1, |s| + 1)
    ensures bound < 0 ==> ExactRow(curr[..], s, t, j, c)
    ensures banded ==> Band(curr[..], s, t, j, c, bound, start, stop')
    ensures start > 0 ==> prev[start - 1] == old(prev[start - 1]) && curr[start - 1] == old(curr[start - 1])
  {
    stop' := stop;
    if stop < |s| + 1 {
      prev[stop] := bound + 1;
      stop' := stop + 1;
      assert banded ==> Band(prev[..], s, t, j - 1, c, bound, start, stop);
    }
    var i := start;
    if start == 0 {
      curr[0] := j * c.ins;
      i := 1;
    }
    FillRow(prev, curr, s, sData, t[j - 1], i, stop', c);
    if bound < 0 {
      ExactUpTo(prev[..], curr[..], s, t, j, c, |s|);
    }
    if banded {
      BandStep(prev[..], curr[..], s, t, j, c, bound, start, stop, stop');
    }
  }

  /** The main loop, from the first row to the last. */
  method BandedRows(s: string, t: string, c: Costs, bound: int, initialStop: nat, ghost banded: bool)
      returns (d: int)
    requires s != [] && t != []
    requires 1 <= initialStop <= |s| + 1
    requires bound < 0 ==> !banded && initialStop == |s| + 1
    requires banded ==> c.NonNegative()
    requires banded ==> forall i: nat :: initialStop <= i <= |s| ==> Best(s, t, i, 0, c) > bound
    ensures bound < 0 ==> d == Distance(s, t, c)
    ensures banded ==> d == Min(Distance(s, t, c), bound + 1)
  {
    var m, n := |s|, |t|;
    var start, stop, sData := 0, initialStop, 0;
    var prev, curr := new int[m + 1], new int[m + 1];
    for i := start to stop
      invariant forall k :: start <= k < i ==> prev[k] == k * c.del
    {
      prev[i] := i * c.del;
    }
    FirstRow(prev[..], s, t, c, stop);
    var j := 1;
    while j <= n
      invariant 1 <= j <= n + 1
      invariant prev != curr && prev.Length == curr.Length == m + 1
      invariant fresh(prev) && fresh(curr)
      invariant start < stop <= m + 1 && sData == Max(start - 1, 0)
      invariant bound < 0 ==> start == 0 && stop == m + 1 && ExactRow(prev[..], s, t, j - 1, c)
      invariant banded ==> Band(prev[..], s, t, j - 1, c, bound, start, stop)
      invariant banded && start > 0 ==> prev[start - 1] == curr[start - 1] == bound + 1
      invariant banded && j > 1 ==> Best(s, t, start, j - 1, c) <= bound
    {
      stop := NextRow(prev, curr, s, t, j, c, bound, start, stop, sData, banded);
      prev, curr := curr, prev;
      if bound >= 0 {
        stop := SlideStop(prev, s, t, j, c, bound, start, stop);
        start, sData := SlideStart(prev, curr, s, t, j, c, bound, start, stop, sData);
        if start >= stop {
          if banded {
            HopelessRow(s, t, j, c, bound, m, n);
          }
          return bound + 1;
        }
      }
      j := j + 1;
    }
    if banded {
      LastRow(s, t, c, bound, start);
    }
    return prev[m];
  }

  /** The bounded distance is the distance, except that everything over the bound is
      reported as bound + 1.  An empty string is measured exactly whatever the bound. */
  method LevenshteinLessEqualInternal(s: string, t: string, c: Costs, maxD: int) returns (r: Result<int, Error>)
    ensures r.Failure? <==> TooLong(s, t)
    ensures r.Failure? <==> s != "" && t != "" && (|s| > 255 || |t| > 255)
    ensures !TooLong(s, t) && (s == [] || t == [] || maxD < 0) ==> r == Success(Distance(s, t, c))
    ensures !TooLong(s, t) && s != [] && t != [] && maxD >= 0 && c.NonNegative() ==>
      r == Success(Min(Distance(s, t, c), maxD + 1))
  {
    var m, n := |s|, |t|;
    CellBorder(s, t, m, n, c);
    if m == 0 {
      return Success(n * c.ins);
    }
    if n == 0 {
      return Success(m * c.del);
    }
    if m > MAX_LEVENSHTEIN_STRLEN || n > MAX_LEVENSHTEIN_STRLEN {
      return Failure(ArgumentTooLong);
    }
    var done, c', bound, stop := InitialBand(s, t, c, maxD);
    if done {
      return Success(maxD + 1);
    }
    var d := BandedRows(s, t, c', bound, stop, bound >= 0 && c.NonNegative());
    return Success(d);
  }
}
