/** Weighted edit distance: what a cell of the notional matrix of
    fuzzystrmatch/levenshtein.c stands for, and what it is worth. */
module Edit {
  import opened Wrappers

  /** Penalties of one insertion, deletion and substitution. */
  datatype Costs = Costs(ins: int, del: int, sub: int)
  {
    predicate NonNegative() {
      ins >= 0 && del >= 0 && sub >= 0
    }
  }

  // ----- Alignments: the independent meaning of "distance" -----

  /** One editing step.  Replacing a character by itself is free. */
  datatype Step = Insert(y: char) | Delete(x: char) | Replace(x: char, y: char)
  {
    function Reads(): string {
      if Insert? then [] else [x]
    }

    function Writes(): string {
      if Delete? then [] else [y]
    }

    function Price(c: Costs): int {
      match this
      case Insert(_) => c.ins
      case Delete(_) => c.del
      case Replace(x, y) => if x == y then 0 else c.sub
    }
  }

  function Last(a: seq<Step>): Step
    requires a != []
  {
    a[|a| - 1]
  }

  function Front(a: seq<Step>): seq<Step>
    requires a != []
  {
    a[..|a| - 1]
  }

  /** The string an alignment consumes. */
  function Source(a: seq<Step>): string {
    if a == [] then [] else Source(Front(a)) + Last(a).Reads()
  }

  /** The string an alignment produces. */
  function Target(a: seq<Step>): string {
    if a == [] then [] else Target(Front(a)) + Last(a).Writes()
  }

  function Cost(a: seq<Step>, c: Costs): int {
    if a == [] then 0 else Cost(Front(a), c) + Last(a).Price(c)
  }

  predicate Aligns(a: seq<Step>, s: string, t: string) {
    Source(a) == s && Target(a) == t
  }

  // ----- The recurrence -----

  function SubPrice(x: char, y: char, c: Costs): int {
    if x == y then 0 else c.sub
  }

  /** Cell (i, j): cost of turning the first i characters of s into the first j of t. */
  function Cell(s: string, t: string, i: nat, j: nat, c: Costs): int
    requires i <= |s| && j <= |t|
    decreases i + j
  {
    if i == 0 && j == 0 then 0
    else if j == 0 then Cell(s, t, i - 1, 0, c) + c.del
    else if i == 0 then Cell(s, t, 0, j - 1, c) + c.ins
    else Min(Min(Cell(s, t, i, j - 1, c) + c.ins, Cell(s, t, i - 1, j, c) + c.del),
             Cell(s, t, i - 1, j - 1, c) + SubPrice(s[i - 1], t[j - 1], c))
  }

  function Distance(s: string, t: string, c: Costs): int {
    Cell(s, t, |s|, |t|, c)
  }

  // ----- The recurrence computes the minimum over all alignments -----

  lemma Extend(a: seq<Step>, p: Step, c: Costs)
    ensures Source(a + [p]) == Source(a) + p.Reads()
    ensures Target(a + [p]) == Target(a) + p.Writes()
    ensures Cost(a + [p], c) == Cost(a, c) + p.Price(c)
  {
    assert Front(a + [p]) == a;
  }

  /** Column and row a step into cell (i, j) comes from. */
  function FromColumn(p: Step, i: int): int {
    if p.Insert? then i else i - 1
  }

  function FromRow(p: Step, j: int): int {
    if p.Delete? then j else j - 1
  }

  /** The step can be the last one into cell (i, j). */
  predicate StepInto(p: Step, s: string, t: string, i: nat, j: nat)
    requires i <= |s| && j <= |t|
  {
    (!p.Insert? ==> i > 0 && p.x == s[i - 1]) && (!p.Delete? ==> j > 0 && p.y == t[j - 1])
  }

  lemma Grow(b: seq<Step>, p: Step, s: string, t: string, i: nat, j: nat)
    requires i <= |s| && j <= |t| && StepInto(p, s, t, i, j)
    requires Aligns(b, s[..FromColumn(p, i)], t[..FromRow(p, j)])
    ensures Aligns(b + [p], s[..i], t[..j])
  {
    Extend(b, p, Costs(0, 0, 0));
  }

  /** Every cell but the first is reached by a step, at that step's price. */
  lemma CellPredecessor(s: string, t: string, i: nat, j: nat, c: Costs) returns (p: Step)
    requires i <= |s| && j <= |t| && i + j > 0
    ensures StepInto(p, s, t, i, j)
    ensures Cell(s, t, i, j, c) == Cell(s, t, FromColumn(p, i), FromRow(p, j), c) + p.Price(c)
  {
    if j > 0 && Cell(s, t, i, j, c) == Cell(s, t, i, j - 1, c) + c.ins {
      p := Insert(t[j - 1]);
    } else if i > 0 && Cell(s, t, i, j, c) == Cell(s, t, i - 1, j, c) + c.del {
      p := Delete(s[i - 1]);
    } else {
      p := Replace(s[i - 1], t[j - 1]);
    }
  }

  /** No step into a cell undercuts it. */
  lemma CellBelowStep(s: string, t: string, i: nat, j: nat, c: Costs, p: Step)
    requires i <= |s| && j <= |t| && StepInto(p, s, t, i, j)
    ensures Cell(s, t, i, j, c) <= Cell(s, t, FromColumn(p, i), FromRow(p, j), c) + p.Price(c)
  {
  }

  /** Some alignment attains the cell. */
  lemma {:induction false} CellAttained(s: string, t: string, i: nat, j: nat, c: Costs) returns (a: seq<Step>)
    requires i <= |s| && j <= |t|
    ensures Aligns(a, s[..i], t[..j])
    ensures Cost(a, c) == Cell(s, t, i, j, c)
    decreases i + j
  {
    if i + j == 0 {
      a := [];
    } else {
      var p := CellPredecessor(s, t, i, j, c);
      var b := CellAttained(s, t, FromColumn(p, i), FromRow(p, j), c);
      Extend(b, p, c);
      Grow(b, p, s, t, i, j);
      a := b + [p];
    }
  }

  /** What is left of an alignment once its last step is taken off. */
  lemma Shrink(a: seq<Step>, s: string, t: string, i: nat, j: nat)
    requires i <= |s| && j <= |t| && a != []
    requires Aligns(a, s[..i], t[..j])
    ensures StepInto(Last(a), s, t, i, j)
    ensures Aligns(Front(a), s[..FromColumn(Last(a), i)], t[..FromRow(Last(a), j)])
  {
    var p, b := Last(a), Front(a);
    assert s[..i] == Source(b) + p.Reads() && t[..j] == Target(b) + p.Writes();
    if !p.Insert? {
      assert s[..i][i - 1] == p.x && s[..i - 1] == s[..i][..i - 1] == Source(b);
    }
    if !p.Delete? {
      assert t[..j][j - 1] == p.y && t[..j - 1] == t[..j][..j - 1] == Target(b);
    }
  }

  /** No alignment is cheaper than the cell. */
  lemma {:induction false} CellMinimal(s: string, t: string, i: nat, j: nat, c: Costs, a: seq<Step>)
    requires i <= |s| && j <= |t|
    requires Aligns(a, s[..i], t[..j])
    ensures Cost(a, c) >= Cell(s, t, i, j, c)
    decreases |a|
  {
    if a == [] {
      assert |s[..i]| == 0 && |t[..j]| == 0;
    } else {
      var p := Last(a);
      Shrink(a, s, t, i, j);
      CellMinimal(s, t, FromColumn(p, i), FromRow(p, j), c, Front(a));
      CellBelowStep(s, t, i, j, c, p);
    }
  }

  /** The distance is the minimum cost over all alignments, whatever the sign of the costs. */
  lemma DistanceIsMinimum(s: string, t: string, c: Costs)
    ensures exists a :: Aligns(a, s, t) && Cost(a, c) == Distance(s, t, c)
    ensures forall a :: Aligns(a, s, t) ==> Cost(a, c) >= Distance(s, t, c)
  {
    assert s[..|s|] == s && t[..|t|] == t;
    var w := CellAttained(s, t, |s|, |t|, c);
    assert Aligns(w, s, t);
    forall a | Aligns(a, s, t)
      ensures Cost(a, c) >= Distance(s, t, c)
    {
      CellMinimal(s, t, |s|, |t|, c, a);
    }
  }

  // ----- The distance is a metric -----

  /** Running one alignment after another, fused into a single one that is no dearer. */
  lemma {:induction false} Compose(p: seq<Step>, q: seq<Step>, c: Costs) returns (r: seq<Step>)
    requires c.NonNegative()
    requires Target(p) == Source(q)
    ensures Aligns(r, Source(p), Target(q))
    ensures Cost(r, c) <= Cost(p, c) + Cost(q, c)
    decreases |p| + |q|
  {
    if p != [] && Last(p).Delete? {
      r := Compose(Front(p), q, c);
      Extend(r, Last(p), c);
      r := r + [Last(p)];
    } else if q != [] && Last(q).Insert? {
      r := Compose(p, Front(q), c);
      Extend(r, Last(q), c);
      r := r + [Last(q)];
    } else if p == [] || q == [] {
      r := [];
    } else {
      var f, g := Last(p), Last(q);
      assert Target(p)[..|Target(p)| - 1] == Target(Front(p));
      assert Source(q)[..|Source(q)| - 1] == Source(Front(q));
      assert f.y == Target(p)[|Target(p)| - 1] == g.x;
      var b := Compose(Front(p), Front(q), c);
      if f.Insert? && g.Delete? {
        r := b;
      } else {
        var h := if f.Insert? then Insert(g.y) else if g.Delete? then Delete(f.x) else Replace(f.x, g.y);
        Extend(b, h, c);
        r := b + [h];
      }
    }
  }

  lemma TriangleInequality(x: string, y: string, z: string, c: Costs)
    requires c.NonNegative()
    ensures Distance(x, z, c) <= Distance(x, y, c) + Distance(y, z, c)
  {
    DistanceIsMinimum(x, y, c);
    DistanceIsMinimum(y, z, c);
    DistanceIsMinimum(x, z, c);
    var p :| Aligns(p, x, y) && Cost(p, c) == Distance(x, y, c);
    var q :| Aligns(q, y, z) && Cost(q, c) == Distance(y, z, c);
    var r := Compose(p, q, c);
  }

  function Mirror(c: Costs): Costs {
    Costs(c.del, c.ins, c.sub)
  }

  /** Reading the matrix by columns swaps the roles of insertion and deletion. */
  lemma {:induction false} CellMirror(s: string, t: string, i: nat, j: nat, c: Costs)
    requires i <= |s| && j <= |t|
    ensures Cell(s, t, i, j, c) == Cell(t, s, j, i, Mirror(c))
    decreases i + j
  {
    if j > 0 {
      CellMirror(s, t, i, j - 1, c);
    }
    if i > 0 {
      CellMirror(s, t, i - 1, j, c);
    }
    if i > 0 && j > 0 {
      CellMirror(s, t, i - 1, j - 1, c);
    }
  }

  lemma DistanceSymmetric(s: string, t: string, c: Costs)
    requires c.ins == c.del
    ensures Distance(s, t, c) == Distance(t, s, c)
  {
    CellMirror(s, t, |s|, |t|, c);
  }

  lemma {:induction false} PositiveCostZero(a: seq<Step>, c: Costs)
    requires c.ins > 0 && c.del > 0 && c.sub > 0
    ensures Cost(a, c) >= 0
    ensures Cost(a, c) == 0 ==> Source(a) == Target(a)
  {
    if a != [] {
      PositiveCostZero(Front(a), c);
    }
  }

  lemma {:induction false} Diagonal(s: string, i: nat, c: Costs)
    requires i <= |s|
    requires c.ins > 0 && c.del > 0 && c.sub > 0
    ensures Cell(s, s, i, i, c) <= 0
  {
    if i > 0 {
      Diagonal(s, i - 1, c);
    }
  }

  lemma DistanceZeroIffEqual(s: string, t: string, c: Costs)
    requires c.ins > 0 && c.del > 0 && c.sub > 0
    ensures Distance(s, t, c) == 0 <==> s == t
    ensures Distance(s, t, c) >= 0
  {
    DistanceIsMinimum(s, t, c);
    var a :| Aligns(a, s, t) && Cost(a, c) == Distance(s, t, c);
    PositiveCostZero(a, c);
    if s == t {
      Diagonal(s, |s|, c);
    }
  }

  // ----- Facts the bounded variant prunes by -----

  /** The borders of the matrix in closed form, as the first row and column are filled in. */
  lemma {:induction false} CellBorder(s: string, t: string, i: nat, j: nat, c: Costs)
    requires i <= |s| && j <= |t|
    ensures Cell(s, t, i, 0, c) == i * c.del
    ensures Cell(s, t, 0, j, c) == j * c.ins
    decreases i + j
  {
    if i > 0 {
      CellBorder(s, t, i - 1, 0, c);
      AddOne(c.del, i - 1);
    }
    if j > 0 {
      CellBorder(s, t, 0, j - 1, c);
      AddOne(c.ins, j - 1);
    }
  }

  /** Least cost of bridging a length difference of k characters (k > 0: t is longer). */
  function Gap(k: int, c: Costs): int
    decreases if k > 0 then k else -k
  {
    if k == 0 then 0 else if k > 0 then Gap(k - 1, c) + c.ins else Gap(k + 1, c) + c.del
  }

  lemma {:induction false} GapProduct(k: int, c: Costs)
    ensures Gap(k, c) == if k > 0 then k * c.ins else -k * c.del
    decreases if k > 0 then k else -k
  {
    if k > 0 {
      GapProduct(k - 1, c);
      AddOne(c.ins, k - 1);
    } else if k < 0 {
      GapProduct(k + 1, c);
      AddOne(c.del, -k - 1);
    }
  }

  lemma GapStep(k: int, c: Costs)
    ensures k >= 0 ==> Gap(k + 1, c) == Gap(k, c) + c.ins
    ensures k < 0 ==> Gap(k, c) == Gap(k + 1, c) + c.del
  {
  }

  lemma {:induction false} GapNonNegative(k: int, c: Costs)
    requires c.NonNegative()
    ensures Gap(k, c) >= 0
    decreases if k > 0 then k else -k
  {
    if k > 0 {
      GapNonNegative(k - 1, c);
    } else if k < 0 {
      GapNonNegative(k + 1, c);
    }
  }

  /** One step changes what remains to be bridged by no more than its price. */
  lemma GapAlongStep(k: int, c: Costs, p: Step)
    requires c.NonNegative()
    ensures Gap(k + FromColumn(p, 0) - FromRow(p, 0), c) <= Gap(k, c) + p.Price(c)
    ensures Gap(k, c) <= Gap(k + FromRow(p, 0) - FromColumn(p, 0), c) + p.Price(c)
  {
    GapStep(k, c);
    GapStep(k - 1, c);
  }

  /** A cell costs at least the gap between the two prefix lengths ... */
  lemma {:induction false} CellAtLeastGap(s: string, t: string, i: nat, j: nat, c: Costs)
    requires i <= |s| && j <= |t|
    requires c.NonNegative()
    ensures Cell(s, t, i, j, c) >= Gap(j - i, c)
    decreases i + j
  {
    if i + j > 0 {
      var p := CellPredecessor(s, t, i, j, c);
      CellAtLeastGap(s, t, FromColumn(p, i), FromRow(p, j), c);
      GapAlongStep(j - i, c, p);
    }
  }

  /** ... and at most that plus one substitution for each character of the shorter prefix. */
  lemma {:induction false} CellAtMostGap(s: string, t: string, i: nat, j: nat, c: Costs)
    requires i <= |s| && j <= |t|
    requires c.NonNegative()
    ensures Cell(s, t, i, j, c) <= Gap(j - i, c) + c.sub * Min(i, j)
    decreases i + j
  {
    if i > 0 && j > 0 {
      CellAtMostGap(s, t, i - 1, j - 1, c);
      AddOne(c.sub, Min(i - 1, j - 1));
      assert Cell(s, t, i, j, c) <= Cell(s, t, i - 1, j - 1, c) + c.sub;
    } else {
      CellBorder(s, t, i, j, c);
      GapProduct(j - i, c);
      assert c.sub * Min(i, j) == 0;
    }
  }

  lemma AddOne(x: int, n: int)
    ensures x * (n + 1) == x * n + x
  {
  }

  /** One more source character saves at most one insertion. */
  lemma {:induction false} CellDropSource(s: string, t: string, i: nat, j: nat, c: Costs)
    requires i < |s| && j <= |t|
    requires c.NonNegative()
    ensures Cell(s, t, i, j, c) <= Cell(s, t, i + 1, j, c) + c.ins
    decreases j
  {
    if j > 0 {
      CellDropSource(s, t, i, j - 1, c);
    }
  }

  /** One more target character saves at most one deletion. */
  lemma {:induction false} CellDropTarget(s: string, t: string, i: nat, j: nat, c: Costs)
    requires i <= |s| && j < |t|
    requires c.NonNegative()
    ensures Cell(s, t, i, j, c) <= Cell(s, t, i, j + 1, c) + c.del
    decreases i
  {
    if i > 0 {
      CellDropTarget(s, t, i - 1, j, c);
    }
  }

  /** Values never fall along a diagonal. */
  lemma CellDiagonal(s: string, t: string, i: nat, j: nat, c: Costs)
    requires i < |s| && j < |t|
    requires c.NonNegative()
    ensures Cell(s, t, i, j, c) <= Cell(s, t, i + 1, j + 1, c)
  {
    CellDropSource(s, t, i, j, c);
    CellDropTarget(s, t, i, j, c);
  }

  /** A substitution dearer than deleting and inserting is never used. */
  lemma {:induction false} CellSubCapped(s: string, t: string, i: nat, j: nat, c: Costs)
    requires i <= |s| && j <= |t|
    requires c.NonNegative() && c.ins + c.del < c.sub
    ensures Cell(s, t, i, j, c) == Cell(s, t, i, j, c.(sub := c.ins + c.del))
    decreases i + j
  {
    if j > 0 {
      CellSubCapped(s, t, i, j - 1, c);
    }
    if i > 0 {
      CellSubCapped(s, t, i - 1, j, c);
    }
    if i > 0 && j > 0 {
      CellSubCapped(s, t, i - 1, j - 1, c);
    }
  }
}
