/** Query texts whose compiled form does not mean what they say, because a right operand is too
    wide for a 16-bit link. */
module QueryWide {
  import opened Wrappers
  import opened Query
  import opened QueryCompiler
  import opened QueryItems
  import opened QueryLinks
  import opened QueryPrinter

  /** 1 | 1 | ... with n operators. */
  function Wide(n: nat): Expr {
    if n == 0 then Val(1) else Bin(OR, Wide(n - 1), Val(1))
  }

  lemma {:induction false} WideFacts(n: nat)
    ensures Size(Wide(n)) == 2 * n + 1 && Fits(Wide(n)) && AllInt32(Wide(n))
  {
    if n > 0 {
      WideFacts(n - 1);
    }
  }

  lemma {:induction false} WideEval(n: nat, has: int -> bool)
    ensures Eval(Wide(n), has) == has(1)
  {
    if n > 0 {
      WideEval(n - 1, has);
    }
  }

  lemma {:induction false} WideWhole(n: nat)
    ensures Whole(Wide(n)) == Wide(n)
  {
    if n > 0 {
      WideWhole(n - 1);
      OrOfWhole(Wide(n - 1), Val(1));
    }
  }

  lemma OrOfWhole(a: Expr, b: Expr)
    requires Whole(a) == a && Whole(b) == b
    ensures Whole(Bin(OR, a, b)) == Bin(OR, a, b)
  {
    assert Chain(None, a) == a && Chain(None, b) == b;
    assert Atom(Bin(OR, a, b)) == Bin(OR, a, b);
  }

  /** `7 & ( 1 | 1 | ... )` with 16384 to 32767 inner operators is accepted with its obvious
      meaning, but the evaluator follows its outer link out of the query. */
  lemma WideTextLeaves(n: nat, chk: int -> bool)
    requires 16384 <= n <= 32767
    ensures var e := Bin(AND, Val(7), Wide(n));
      Meaning(Text(e, true)) == Success(e) && Execute(Linked(e), Size(e) - 1, true, chk) == None
  {
    var b, e := Wide(n), Bin(AND, Val(7), Wide(n));
    WideFacts(n);
    WideWhole(n);
    WholeAnd(b);
    ReadBack(e);
    WholeItems(e);
    LinkLeavesQuery(Linked(e), e, chk);
  }

  lemma WholeAnd(b: Expr)
    requires !(b.Bin? && b.op.AND?)
    ensures Whole(Bin(AND, Val(7), b)) == Bin(AND, Val(7), Whole(b))
  {
    assert Chain(None, Val(7)) == Val(7);
    assert Chain(Some(Val(7)), b) == JoinAnd(Some(Val(7)), Atom(b));
    assert Whole(b) == Atom(b);
  }

  /** `7 & !( 1 | 1 | ... )` with 32767 inner operators is false of every array without 7, but
      true for the program if 1 is missing too: it ignores the 7. */
  lemma WideTextIgnoresLeft(n: nat, b: Expr, e: Expr, chk: int -> bool, has: int -> bool)
    requires n == 32767 && b == Not(Wide(n)) && e == Bin(AND, Val(7), b)
    requires !has(7) && !has(1) && LooksUp(Linked(e), chk, has)
    ensures Meaning(Text(e, true)) == Success(e) && !Eval(e, has)
    ensures Execute(Linked(e), Size(e) - 1, true, chk) == Some(true)
  {
    NotWideFacts(n, b, has);
    WholeAnd(b);
    ReadBack(e);
    WholeItems(e);
    RightOperandAlone(Linked(e), e, chk, has);
  }

  lemma NotWideFacts(n: nat, b: Expr, has: int -> bool)
    requires n > 0 && b == Not(Wide(n))
    ensures Size(b) == 2 * n + 2 && Fits(b) && AllInt32(b) && !b.Bin? && Whole(b) == b
    ensures Eval(b, has) == !has(1)
  {
    WideFacts(n);
    WideEval(n, has);
    WideWhole(n);
    assert Atom(b) == b;
  }

  lemma RightOperandAlone(items: seq<Item>, e: Expr, chk: int -> bool, has: int -> bool)
    requires ItemsAt(items, 0, e) && e.Bin? && Size(e.b) % 0x1_0000 == 0 && Fits(e.b) && LooksUp(items, chk, has)
    ensures Execute(items, Size(e) - 1, true, chk) == Some(Eval(e.b, has))
  {
    LeftIgnored(items, e, chk);
    ExecuteIsEval(items, Size(e.a), e.b, true, chk);
    EvalAtIsEval(items, Size(e.a), e.b, chk, has);
  }
}
