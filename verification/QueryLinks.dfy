/** intarray/_int_bool.c: when the 16-bit back links of compiled items lead where they should. */
module QueryLinks {
  import opened Wrappers
  import opened Ints
  import opened Query
  import opened QueryCompiler
  import opened QueryItems

  // ----- Evaluation stays inside an expression -----

  /** No item from lo up to hi leads below lo. */
  ghost predicate Closed(items: seq<Item>, lo: nat, hi: nat) {
    && hi <= |items|
    && forall j :: lo <= j < hi && items[j].node.OprNode? ==>
         lo < j && (items[j].node.op != '!' && items[j].left < 0 ==> lo <= j + items[j].left)
  }

  /** A link stored for a distance never leads further than that, and less far if the distance
      does not fit. */
  lemma StoredLink(d: int)
    requires d > 0
    ensures Wrap16(-d) < 0 ==> -d <= Wrap16(-d)
    ensures Wrap16(-d) < 0 && d > 0x8000 ==> -d < Wrap16(-d)
    ensures d <= 0x8000 ==> Wrap16(-d) == -d
  {
  }

  /** So the items of an expression never lead out of it to the left. */
  lemma {:induction false} ItemsClosed(items: seq<Item>, lo: nat, e: Expr)
    requires ItemsAt(items, lo, e)
    ensures Closed(items, lo, lo + Size(e))
    decreases e
  {
    match e {
      case Val(_) =>
      case Not(x) =>
        ItemsClosed(items, lo, x);
      case Bin(_, a, b) =>
        ItemsClosed(items, lo, a);
        ItemsClosed(items, lo + Size(a), b);
        StoredLink(Size(b) + 1);
    }
  }

  /** Two checks agree from lo up to hi. */
  ghost predicate Agree(chk: int -> bool, chk': int -> bool, lo: int, hi: int) {
    forall k :: lo <= k < hi ==> chk(k) == chk'(k)
  }

  /** Evaluation inside a closed stretch depends only on the checks there. */
  lemma {:induction false} ExecuteLocal(items: seq<Item>, lo: nat, hi: nat, j: nat, chk: int -> bool, chk': int -> bool)
    requires Closed(items, lo, hi) && lo <= j < hi && Agree(chk, chk', lo, hi)
    ensures Execute(items, j, true, chk) == Execute(items, j, true, chk')
    decreases j
  {
    if items[j].node.OprNode? {
      ExecuteLocal(items, lo, hi, j - 1, chk, chk');
      if items[j].node.op != '!' && items[j].left < 0 {
        ExecuteLocal(items, lo, hi, j + items[j].left, chk, chk');
      }
    }
  }

  lemma {:induction false} EvalLocal(e: Expr, lo: int, chk: int -> bool, chk': int -> bool)
    requires Agree(chk, chk', lo, lo + Size(e))
    ensures EvalAt(e, lo, true, chk) == EvalAt(e, lo, true, chk')
  {
    match e {
      case Val(_) =>
      case Not(x) => EvalLocal(x, lo, chk, chk');
      case Bin(_, a, b) =>
        EvalLocal(a, lo, chk, chk');
        EvalLocal(b, lo + Size(a), chk, chk');
    }
  }

  // ----- Independent operands -----

  /** chk below mid, chk' from there on. */
  function Joined(chk: int -> bool, chk': int -> bool, mid: int): int -> bool {
    k => if k < mid then chk(k) else chk'(k)
  }

  /** Checked by position, every expression can be made true and made false. */
  lemma {:induction false} CanBe(e: Expr, lo: int, t: bool) returns (chk: int -> bool)
    ensures EvalAt(e, lo, true, chk) == t
  {
    match e {
      case Val(_) =>
        chk := _ => t;
      case Not(x) =>
        chk := CanBe(x, lo, !t);
      case Bin(_, a, b) =>
        var x := CanBe(a, lo, t);
        var y := CanBe(b, lo + Size(a), t);
        chk := Joined(x, y, lo + Size(a));
        EvalLocal(a, lo, chk, x);
        EvalLocal(b, lo + Size(a), chk, y);
    }
  }

  /** The evaluator gives something else than the value of the expression. */
  ghost predicate Wrong(items: seq<Item>, lo: nat, e: Expr, chk: int -> bool) {
    Execute(items, lo + Size(e) - 1, true, chk) != Some(EvalAt(e, lo, true, chk))
  }

  /** With joined checks each operand is evaluated as with its own. */
  lemma JoinedOperands(items: seq<Item>, lo: nat, e: Expr, x: int -> bool, y: int -> bool)
    requires ItemsAt(items, lo, e) && e.Bin?
    ensures var mid, chk := lo + Size(e.a), Joined(x, y, lo + Size(e.a));
      && EvalAt(e, lo, true, chk) == e.op.Apply(EvalAt(e.a, lo, true, x), EvalAt(e.b, mid, true, y))
      && Execute(items, mid - 1, true, chk) == Execute(items, mid - 1, true, x)
      && Execute(items, mid + Size(e.b) - 1, true, chk) == Execute(items, mid + Size(e.b) - 1, true, y)
  {
    var mid, chk := lo + Size(e.a), Joined(x, y, lo + Size(e.a));
    EvalLocal(e.a, lo, chk, x);
    EvalLocal(e.b, mid, chk, y);
    LocalItems(items, lo, mid, e.a, chk, x);
    LocalItems(items, mid, mid + Size(e.b), e.b, chk, y);
  }

  lemma LocalItems(items: seq<Item>, lo: nat, hi: nat, e: Expr, chk: int -> bool, chk': int -> bool)
    requires ItemsAt(items, lo, e) && hi == lo + Size(e) && Agree(chk, chk', lo, hi)
    ensures Execute(items, hi - 1, true, chk) == Execute(items, hi - 1, true, chk')
  {
    ItemsClosed(items, lo, e);
    ExecuteLocal(items, lo, hi, hi - 1, chk, chk');
  }

  // ----- A link that does not fit -----

  /** Its operator never looks at its left operand. */
  lemma WrappedLink(items: seq<Item>, lo: nat, e: Expr, x: int -> bool, x': int -> bool, y: int -> bool)
    requires ItemsAt(items, lo, e) && e.Bin? && Size(e.b) + 1 > 0x8000
    ensures var mid := lo + Size(e.a);
      Execute(items, lo + Size(e) - 1, true, Joined(x, y, mid)) == Execute(items, lo + Size(e) - 1, true, Joined(x', y, mid))
  {
    var mid, k := lo + Size(e.a), lo + Size(e) - 1;
    var chk, chk' := Joined(x, y, mid), Joined(x', y, mid);
    StoredLink(Size(e.b) + 1);
    ItemsClosed(items, mid, e.b);
    ExecuteLocal(items, mid, k, k - 1, chk, chk');
    if items[k].left < 0 {
      ExecuteLocal(items, mid, k, k + items[k].left, chk, chk');
    }
  }

  lemma WrappedIsWrong(items: seq<Item>, lo: nat, e: Expr) returns (chk: int -> bool)
    requires ItemsAt(items, lo, e) && e.Bin? && Size(e.b) + 1 > 0x8000
    ensures Wrong(items, lo, e, chk)
  {
    var mid := lo + Size(e.a);
    var x := CanBe(e.a, lo, true);
    var x' := CanBe(e.a, lo, false);
    var y := CanBe(e.b, mid, e.op.AND?);
    JoinedOperands(items, lo, e, x, y);
    JoinedOperands(items, lo, e, x', y);
    WrappedLink(items, lo, e, x, x', y);
    chk := Joined(x, y, mid);
    if !Wrong(items, lo, e, chk) {
      chk := Joined(x', y, mid);
    }
  }

  /** One step of the evaluator at an operator whose link is right. */
  lemma FittingStep(items: seq<Item>, lo: nat, e: Expr, chk: int -> bool)
    requires ItemsAt(items, lo, e) && e.Bin? && Size(e.b) + 1 <= 0x8000
    ensures var x := Execute(items, lo + Size(e.a) - 1, true, chk);
      var y := Execute(items, lo + Size(e.a) + Size(e.b) - 1, true, chk);
      Execute(items, lo + Size(e) - 1, true, chk)
      == if x.None? then None else if x.value == e.op.AND? then y else x
  {
    StoredLink(Size(e.b) + 1);
  }

  /** A wrong operand makes its operator wrong: the other operand can be chosen so that all
      depends on it. */
  lemma OperandIsWrong(items: seq<Item>, lo: nat, e: Expr, x: int -> bool, y: int -> bool)
      returns (chk: int -> bool)
    requires ItemsAt(items, lo, e) && e.Bin? && Size(e.b) + 1 <= 0x8000
    requires Wrong(items, lo, e.a, x) || Wrong(items, lo + Size(e.a), e.b, y)
    ensures Wrong(items, lo, e, chk)
  {
    var mid := lo + Size(e.a);
    var x1 := CanBe(e.a, lo, e.op.AND?);
    var y1 := CanBe(e.b, mid, e.op.AND?);
    chk := TryJoined(items, lo, e, x, y1);
    if !Wrong(items, lo, e, chk) {
      chk := TryJoined(items, lo, e, x1, y1);
      if !Wrong(items, lo, e, chk) {
        chk := TryJoined(items, lo, e, x1, y);
      }
    }
  }

  lemma TryJoined(items: seq<Item>, lo: nat, e: Expr, x: int -> bool, y: int -> bool) returns (chk: int -> bool)
    requires ItemsAt(items, lo, e) && e.Bin? && Size(e.b) + 1 <= 0x8000
    ensures var mid := lo + Size(e.a);
      var r, s := Execute(items, mid - 1, true, x), Execute(items, mid + Size(e.b) - 1, true, y);
      Wrong(items, lo, e, chk)
      <==> (if r.None? then None else if r.value == e.op.AND? then s else r)
           != Some(e.op.Apply(EvalAt(e.a, lo, true, x), EvalAt(e.b, mid, true, y)))
  {
    chk := Joined(x, y, lo + Size(e.a));
    JoinedOperands(items, lo, e, x, y);
    FittingStep(items, lo, e, chk);
  }

  lemma {:induction false} UnfitIsWrong(items: seq<Item>, lo: nat, e: Expr) returns (chk: int -> bool)
    requires ItemsAt(items, lo, e) && !Fits(e)
    ensures Wrong(items, lo, e, chk)
    decreases e
  {
    match e {
      case Not(x) =>
        chk := UnfitIsWrong(items, lo, x);
        NotIsWrong(items, lo, e, chk);
      case Bin(_, a, b) =>
        var mid := lo + Size(a);
        if Size(b) + 1 > 0x8000 {
          chk := WrappedIsWrong(items, lo, e);
        } else if !Fits(a) {
          var x := UnfitIsWrong(items, lo, a);
          chk := OperandIsWrong(items, lo, e, x, x);
        } else {
          var y := UnfitIsWrong(items, mid, b);
          chk := OperandIsWrong(items, lo, e, y, y);
        }
    }
  }

  lemma NotIsWrong(items: seq<Item>, lo: nat, e: Expr, chk: int -> bool)
    requires ItemsAt(items, lo, e) && e.Not? && Wrong(items, lo, e.e, chk)
    ensures Wrong(items, lo, e, chk)
  {
  }

  /** The compiled query means what the expression means, on every outcome of its primitive
      cases, if and only if every right operand has fewer than 2^15 items. */
  lemma MeaningExactIffFits(items: seq<Item>, e: Expr)
    requires ItemsAt(items, 0, e)
    ensures (forall chk: int -> bool :: Execute(items, Size(e) - 1, true, chk) == Some(EvalAt(e, 0, true, chk))) <==> Fits(e)
  {
    if Fits(e) {
      forall chk: int -> bool
        ensures Execute(items, Size(e) - 1, true, chk) == Some(EvalAt(e, 0, true, chk))
      {
        ExecuteIsEval(items, 0, e, true, chk);
      }
    } else {
      var chk := UnfitIsWrong(items, 0, e);
      assert Execute(items, Size(e) - 1, true, chk) != Some(EvalAt(e, 0, true, chk));
    }
  }

  /** A right operand whose size is a multiple of 2^16 makes the link lead to that operand: the
      left operand is ignored without notice. */
  lemma LeftIgnored(items: seq<Item>, e: Expr, chk: int -> bool)
    requires ItemsAt(items, 0, e) && e.Bin? && Size(e.b) % 0x1_0000 == 0
    ensures Execute(items, Size(e) - 1, true, chk) == Execute(items, Size(e) - 2, true, chk)
  {
  }

  /** A right operand of 2^15 to 2^16 - 1 items makes it lead forward, out of the operands. */
  lemma LinkLeavesQuery(items: seq<Item>, e: Expr, chk: int -> bool)
    requires ItemsAt(items, 0, e) && e.Bin? && 0x8000 <= Size(e.b) < 0x1_0000
    ensures Execute(items, Size(e) - 1, true, chk) == None
  {
  }

  // ----- Real texts -----

  lemma {:induction false} FitsIfSmall(e: Expr)
    requires Size(e) <= 0x8000
    ensures Fits(e)
  {
    match e {
      case Val(_) =>
      case Not(x) => FitsIfSmall(x);
      case Bin(_, a, b) => FitsIfSmall(a); FitsIfSmall(b);
    }
  }

  lemma {:induction false} OperandSize(buf: string, p: nat, depth: int, pending: nat)
    ensures var r := Operand(buf, p, depth, pending);
      r.Success? ==> Size(r.value.0) <= r.value.1 - p
    decreases |buf| - p, 0
  {
    var l := LexOperand(buf, p, depth);
    match l.tok {
      case OPR(_) =>
        if pending < STACKDEPTH {
          OperandSize(buf, l.next, depth, pending + 1);
        }
      case OPEN =>
        OrExprSize(buf, l.next, l.depth);
      case _ =>
    }
  }

  lemma {:induction false} AndRestSize(buf: string, left: Expr, p: nat, depth: int, pending: nat)
    requires p <= |buf|
    ensures var r := AndRest(buf, left, p, depth, pending);
      r.Success? ==> Size(r.value.0) <= Size(left) + r.value.1 - p
    decreases |buf| - p, 1
  {
    var l := LexOperator(buf, p, depth);
    if l.tok == OPR('&') {
      OperandSize(buf, l.next, depth, pending + 1);
      var x := Operand(buf, l.next, depth, pending + 1);
      if x.Success? {
        AndRestSize(buf, Bin(AND, left, x.value.0), x.value.1, depth, pending);
      }
    }
  }

  lemma {:induction false} AndExprSize(buf: string, p: nat, depth: int, pending: nat)
    ensures var r := AndExpr(buf, p, depth, pending);
      r.Success? ==> Size(r.value.0) <= r.value.1 - p
    decreases |buf| - p, 2
  {
    OperandSize(buf, p, depth, pending);
    var x := Operand(buf, p, depth, pending);
    if x.Success? {
      AndRestSize(buf, x.value.0, x.value.1, depth, pending);
    }
  }

  lemma {:induction false} OrRestSize(buf: string, left: Expr, p: nat, depth: int)
    requires p <= |buf|
    ensures var r := OrRest(buf, left, p, depth);
      r.Success? ==> Size(r.value.0) <= Size(left) + r.value.1 - p
    decreases |buf| - p, 3
  {
    var l := LexOperator(buf, p, depth);
    if l.tok == OPR('|') {
      AndExprSize(buf, l.next, depth, 1);
      var x := AndExpr(buf, l.next, depth, 1);
      if x.Success? {
        OrRestSize(buf, Bin(OR, left, x.value.0), x.value.1, depth);
      }
    }
  }

  lemma {:induction false} OrExprSize(buf: string, p: nat, depth: int)
    ensures var r := OrExpr(buf, p, depth);
      r.Success? ==> Size(r.value.0) <= r.value.1 - p
    decreases |buf| - p, 4
  {
    AndExprSize(buf, p, depth, 0);
    var x := AndExpr(buf, p, depth, 0);
    if x.Success? {
      OrRestSize(buf, x.value.0, x.value.1, depth);
    }
  }

  /** A query text of at most 2^15 characters is compiled faithfully: on every array the program's
      answer is the text's meaning. */
  lemma ShortTextExact(text: string, chk: int -> bool, has: int -> bool)
    requires |text| <= 0x8000 && Meaning(text).Success?
    requires LooksUp(Linked(Meaning(text).value), chk, has)
    ensures var e := Meaning(text).value;
      Execute(Linked(e), Size(e) - 1, true, chk) == Some(Eval(e, has))
  {
    var e := Meaning(text).value;
    OrExprSize(text, 0, 0);
    FitsIfSmall(e);
    WholeItems(e);
    CompiledMeaning(Linked(e), e, chk, has);
  }
}
