/** intarray/_int_bool.c: the compiled query, items in postfix order with 16-bit back links
    to left operands, and its evaluator. */
module QueryItems {
  import opened Wrappers
  import opened Ints
  import opened Query
  import opened QueryCompiler

  /** One item; left is the distance, as an int2, from an operator to its left operand. */
  datatype Item = Item(node: Node, left: int)

  /** The items of an expression with every back link stored as an int2. */
  function Linked(e: Expr): (r: seq<Item>)
    ensures |r| == Size(e)
  {
    match e
    case Val(v) => [Item(ValNode(v), 0)]
    case Not(x) => Linked(x) + [Item(OprNode('!'), -1)]
    case Bin(op, a, b) => Linked(a) + Linked(b) + [Item(OprNode(op.Symbol()), Wrap16(-Size(b) - 1))]
  }

  // ----- Linking -----

  /** ptr[lo..lo + Size(e)] holds the nodes of e. */
  ghost predicate HoldsNodes(ptr: array<Item>, lo: int, e: Expr)
    reads ptr
  {
    0 <= lo && lo + Size(e) <= ptr.Length &&
    forall k :: 0 <= k < Size(e) ==> ptr[lo + k].node == Postfix(e)[k]
  }

  /** Link the expression that ends at pos; returns the position before it. */
  method FindOprnd(ptr: array<Item>, pos: int, ghost e: Expr) returns (pos': int)
    requires HoldsNodes(ptr, pos + 1 - Size(e), e)
    modifies ptr
    ensures pos' == pos - Size(e)
    ensures ptr[pos' + 1..pos + 1] == Linked(e)
    ensures forall k :: 0 <= k < ptr.Length && !(pos' < k <= pos) ==> ptr[k] == old(ptr[k])
    decreases e
  {
    ghost var lo := pos + 1 - Size(e);
    assert ptr[lo + (Size(e) - 1)].node == Postfix(e)[Size(e) - 1];
    match ptr[pos].node
    case ValNode(v) =>
      ptr[pos] := ptr[pos].(left := 0);
      pos' := pos - 1;
    case OprNode(op) =>
      if op == '!' {
        ptr[pos] := ptr[pos].(left := -1);
        assert forall k :: 0 <= k < Size(e.e) ==> Postfix(e.e)[k] == Postfix(e)[k];
        assert HoldsNodes(ptr, lo, e.e);
        pos' := FindOprnd(ptr, pos - 1, e.e);
        assert ptr[lo..pos + 1] == ptr[lo..pos] + [ptr[pos]];
      } else {
        pos' := LinkBinary(ptr, pos, e);
      }
  }

  method LinkBinary(ptr: array<Item>, pos: int, ghost e: Expr) returns (pos': int)
    requires e.Bin? && HoldsNodes(ptr, pos + 1 - Size(e), e)
    modifies ptr
    ensures pos' == pos - Size(e)
    ensures ptr[pos' + 1..pos + 1] == Linked(e)
    ensures forall k :: 0 <= k < ptr.Length && !(pos' < k <= pos) ==> ptr[k] == old(ptr[k])
    decreases e, 1
  {
    ghost var lo, mid := pos + 1 - Size(e), pos - Size(e.b);
    var middle := LinkRight(ptr, pos, lo, e);
    ghost var right := ptr[mid..pos];
    label before:
    pos' := FindOprnd(ptr, middle, e.a);
    assert forall k :: mid <= k <= pos ==> ptr[k] == old@before(ptr[k]);
    assert ptr[mid..pos] == right;
    Stretch(ptr, lo, mid, pos);
  }

  /** The right operand of the operator at pos, and the operator's own link. */
  method LinkRight(ptr: array<Item>, pos: int, ghost lo: int, ghost e: Expr) returns (middle: int)
    requires e.Bin? && lo == pos + 1 - Size(e) && HoldsNodes(ptr, lo, e)
    modifies ptr
    ensures middle == pos - 1 - Size(e.b) && HoldsNodes(ptr, lo, e.a) && lo + Size(e.a) == middle + 1
    ensures ptr[middle + 1..pos] == Linked(e.b)
    ensures ptr[pos] == Item(OprNode(e.op.Symbol()), Wrap16(-Size(e.b) - 1))
    ensures forall k :: 0 <= k < ptr.Length && !(middle < k <= pos) ==> ptr[k] == old(ptr[k])
    decreases e, 0
  {
    OperandsHeld(ptr, lo, e);
    middle := FindOprnd(ptr, pos - 1, e.b);
    ghost var right := ptr[middle + 1..pos];
    ptr[pos] := ptr[pos].(left := Wrap16(middle - pos));
    assert ptr[middle + 1..pos] == right;
  }

  lemma Stretch(ptr: array<Item>, lo: int, mid: int, pos: int)
    requires 0 <= lo <= mid <= pos < ptr.Length
    ensures ptr[lo..pos + 1] == ptr[lo..mid] + ptr[mid..pos] + [ptr[pos]]
  {
  }

  lemma OperandsHeld(ptr: array<Item>, lo: int, e: Expr)
    requires e.Bin? && HoldsNodes(ptr, lo, e)
    ensures Size(e) == Size(e.a) + Size(e.b) + 1
    ensures HoldsNodes(ptr, lo, e.a) && HoldsNodes(ptr, lo + Size(e.a), e.b)
    ensures ptr[lo + Size(e) - 1].node == OprNode(e.op.Symbol())
  {
    var m, n, post := Size(e.a), Size(e.b), Postfix(e);
    assert post == Postfix(e.a) + Postfix(e.b) + [OprNode(e.op.Symbol())];
    forall k | 0 <= k < m
      ensures ptr[lo + k].node == Postfix(e.a)[k]
    {
      assert ptr[lo + k].node == post[k];
    }
    forall k | 0 <= k < n
      ensures ptr[lo + m + k].node == Postfix(e.b)[k]
    {
      assert ptr[lo + (m + k)].node == post[m + k];
    }
    assert ptr[lo + (m + n)].node == post[m + n];
  }

  /** Copy the nodes out, last one first, and link them. */
  method LinkAll(str: seq<Node>, ghost e: Expr) returns (items: seq<Item>)
    requires str == Postfix(e)
    ensures items == Linked(e)
  {
    var ptr := CopyOut(str);
    var pos := FindOprnd(ptr, |str| - 1, e);
    items := ptr[0..ptr.Length];
  }

  method CopyOut(str: seq<Node>) returns (ptr: array<Item>)
    ensures fresh(ptr) && ptr.Length == |str|
    ensures forall k :: 0 <= k < |str| ==> ptr[k].node == str[k]
  {
    ptr := new Item[|str|](_ => Item(ValNode(0), 0));
    var i := |str| - 1;
    while i >= 0
      invariant -1 <= i < |str|
      invariant forall k :: i < k < |str| ==> ptr[k].node == str[k]
    {
      ptr[i] := Item(str[i], 0);
      i := i - 1;
    }
  }

  /** Input of a query: compile, copy out in order, link. */
  method BqarrIn(text: string) returns (r: Result<seq<Item>, Error>)
    ensures Meaning(text).Failure? ==> r == Failure(Meaning(text).error)
    ensures Meaning(text).Success? ==> r == Success(Linked(Meaning(text).value))
  {
    var state := new WorkState(text);
    ghost var level := Level(text, 0, 0);
    TopLevel(text, level);
    var pol := state.MakePol();
    if pol.Failure? {
      return Failure(pol.error);
    }
    var items := LinkAll(state.str, level.value.0);
    return Success(items);
  }

  /** At depth 0 a level ends where the text does. */
  lemma TopLevel(text: string, level: Result<(Expr, nat, int), Error>)
    requires level == Level(text, 0, 0)
    ensures Meaning(text) == if level.Success? then Success(level.value.0) else Failure(level.error)
  {
  }

  // ----- Evaluation -----

  /** `execute` from item k.  None stands for following a link that does not lead back to an
      earlier item: the program would read something else, or not return. */
  function Execute(items: seq<Item>, k: int, calcnot: bool, chk: int -> bool): Option<bool>
    decreases if k >= 0 then k + 1 else 0
  {
    if !(0 <= k < |items|) then None
    else match items[k].node
    case ValNode(_) => Some(chk(k))
    case OprNode(op) =>
      if op == '!' then
        if !calcnot then Some(true)
        else
          var x := Execute(items, k - 1, calcnot, chk);
          if x.None? then None else Some(!x.value)
      else if items[k].left >= 0 then None
      else
        var x := Execute(items, k + items[k].left, calcnot, chk);
        if x.None? then None
        else if op == '&' then (if x.value then Execute(items, k - 1, calcnot, chk) else Some(false))
        else (if x.value then Some(true) else Execute(items, k - 1, calcnot, chk))
  }

  /** Truth of an expression whose items start at position lo, with primitive cases decided
      by position; calcnot false counts every negation as true. */
  predicate EvalAt(e: Expr, lo: int, calcnot: bool, chk: int -> bool) {
    match e
    case Val(_) => chk(lo)
    case Not(x) => !calcnot || !EvalAt(x, lo, calcnot, chk)
    case Bin(op, a, b) => op.Apply(EvalAt(a, lo, calcnot, chk), EvalAt(b, lo + Size(a), calcnot, chk))
  }

  /** Every back link fits an int2. */
  predicate Fits(e: Expr) {
    match e
    case Val(_) => true
    case Not(x) => Fits(x)
    case Bin(_, a, b) => Size(b) + 1 <= 0x8000 && Fits(a) && Fits(b)
  }

  /** Distances as they should be. */
  function ExactLinks(e: Expr): (r: seq<Item>)
    ensures |r| == Size(e)
  {
    match e
    case Val(v) => [Item(ValNode(v), 0)]
    case Not(x) => ExactLinks(x) + [Item(OprNode('!'), -1)]
    case Bin(op, a, b) => ExactLinks(a) + ExactLinks(b) + [Item(OprNode(op.Symbol()), -Size(b) - 1)]
  }

  lemma SplitEqual(a: seq<Item>, b: seq<Item>, x: Item, a': seq<Item>, b': seq<Item>, x': Item)
    requires |a| == |a'| && |b| == |b'|
    ensures a + b + [x] == a' + b' + [x'] <==> a == a' && b == b' && x == x'
  {
    var s, s' := a + b + [x], a' + b' + [x'];
    assert a == s[..|a|] && b == s[|a|..|a| + |b|] && x == s[|a| + |b|];
    assert a' == s'[..|a|] && b' == s'[|a|..|a| + |b|] && x' == s'[|a| + |b|];
  }

  /** The stored links are the true distances exactly when each right operand has fewer than
      2^15 items. */
  lemma {:induction false} LinksExactIffFits(e: Expr)
    ensures Linked(e) == ExactLinks(e) <==> Fits(e)
  {
    match e {
      case Val(_) =>
      case Not(x) =>
        LinksExactIffFits(x);
        SplitEqual(Linked(x), [], Item(OprNode('!'), -1), ExactLinks(x), [], Item(OprNode('!'), -1));
        assert Linked(x) + [] == Linked(x) && ExactLinks(x) + [] == ExactLinks(x);
      case Bin(op, a, b) =>
        LinksExactIffFits(a);
        LinksExactIffFits(b);
        var opr := OprNode(op.Symbol());
        SplitEqual(Linked(a), Linked(b), Item(opr, Wrap16(-Size(b) - 1)), ExactLinks(a), ExactLinks(b), Item(opr, -Size(b) - 1));
    }
  }

  /** The linked items of e stand at position lo. */
  predicate ItemsAt(items: seq<Item>, lo: nat, e: Expr)
    ensures ItemsAt(items, lo, e) ==> lo + Size(e) <= |items|
    decreases e
  {
    match e
    case Val(v) => lo < |items| && items[lo] == Item(ValNode(v), 0)
    case Not(x) =>
      && ItemsAt(items, lo, x)
      && lo + Size(x) < |items| && items[lo + Size(x)] == Item(OprNode('!'), -1)
    case Bin(op, a, b) =>
      var k := lo + Size(a) + Size(b);
      && ItemsAt(items, lo, a) && ItemsAt(items, lo + Size(a), b)
      && k < |items| && items[k] == Item(OprNode(op.Symbol()), Wrap16(-Size(b) - 1))
  }

  /** The linked items of e, one by one. */
  ghost predicate HoldsItems(items: seq<Item>, lo: nat, s: seq<Item>) {
    lo + |s| <= |items| && forall k :: 0 <= k < |s| ==> s[k] == items[lo + k]
  }

  lemma SplitItems(items: seq<Item>, lo: nat, a: seq<Item>, b: seq<Item>)
    requires HoldsItems(items, lo, a + b)
    ensures HoldsItems(items, lo, a) && HoldsItems(items, lo + |a|, b)
  {
    var s := a + b;
    forall k | 0 <= k < |a|
      ensures a[k] == items[lo + k]
    {
      assert s[k] == a[k];
    }
    forall k | 0 <= k < |b|
      ensures b[k] == items[lo + |a| + k]
    {
      assert s[|a| + k] == b[k];
    }
  }

  lemma {:induction false} LinkedAt(items: seq<Item>, lo: nat, e: Expr)
    requires HoldsItems(items, lo, Linked(e))
    ensures ItemsAt(items, lo, e)
    decreases e
  {
    match e {
      case Val(v) =>
        assert Linked(e)[0] == items[lo];
      case Not(x) =>
        var last := [Item(OprNode('!'), -1)];
        SplitItems(items, lo, Linked(x), last);
        assert last[0] == items[lo + Size(x) + 0];
        LinkedAt(items, lo, x);
      case Bin(op, a, b) =>
        var last := [Item(OprNode(op.Symbol()), Wrap16(-Size(b) - 1))];
        SplitItems(items, lo, Linked(a) + Linked(b), last);
        SplitItems(items, lo, Linked(a), Linked(b));
        assert last[0] == items[lo + (Size(a) + Size(b)) + 0];
        LinkedAt(items, lo, a);
        LinkedAt(items, lo + Size(a), b);
    }
  }

  /** One step of the evaluator at a binary operator whose link leads to item m. */
  lemma ExecuteBinary(items: seq<Item>, k: int, m: int, op: BinOp, calcnot: bool, chk: int -> bool, x: bool, y: bool)
    requires 0 <= m < k < |items| && items[k] == Item(OprNode(op.Symbol()), m - k)
    requires Execute(items, m, calcnot, chk) == Some(x)
    requires Execute(items, k - 1, calcnot, chk) == Some(y)
    ensures Execute(items, k, calcnot, chk) == Some(op.Apply(x, y))
  {
  }

  lemma ExecuteNot(items: seq<Item>, k: int, calcnot: bool, chk: int -> bool, x: bool)
    requires 0 <= k < |items| && items[k].node == OprNode('!')
    requires Execute(items, k - 1, calcnot, chk) == Some(x)
    ensures Execute(items, k, calcnot, chk) == Some(!calcnot || !x)
  {
  }

  lemma ExecuteBin(items: seq<Item>, lo: nat, e: Expr, calcnot: bool, chk: int -> bool)
    requires ItemsAt(items, lo, e) && Fits(e) && e.Bin?
    requires Execute(items, lo + Size(e.a) - 1, calcnot, chk) == Some(EvalAt(e.a, lo, calcnot, chk))
    requires Execute(items, lo + Size(e.a) + Size(e.b) - 1, calcnot, chk)
          == Some(EvalAt(e.b, lo + Size(e.a), calcnot, chk))
    ensures Execute(items, lo + Size(e) - 1, calcnot, chk) == Some(EvalAt(e, lo, calcnot, chk))
  {
    var m, n := Size(e.a), Size(e.b);
    ExecuteBinary(items, lo + m + n, lo + m - 1, e.op, calcnot, chk,
                  EvalAt(e.a, lo, calcnot, chk), EvalAt(e.b, lo + m, calcnot, chk));
  }

  lemma ExecuteNegation(items: seq<Item>, lo: nat, e: Expr, calcnot: bool, chk: int -> bool)
    requires ItemsAt(items, lo, e) && e.Not?
    requires Execute(items, lo + Size(e.e) - 1, calcnot, chk) == Some(EvalAt(e.e, lo, calcnot, chk))
    ensures Execute(items, lo + Size(e) - 1, calcnot, chk) == Some(EvalAt(e, lo, calcnot, chk))
  {
    ExecuteNot(items, lo + Size(e.e), calcnot, chk, EvalAt(e.e, lo, calcnot, chk));
  }

  /** Running the evaluator over linked items gives the value of the expression. */
  lemma {:induction false} ExecuteIsEval(items: seq<Item>, lo: nat, e: Expr, calcnot: bool, chk: int -> bool)
    requires ItemsAt(items, lo, e) && Fits(e)
    ensures Execute(items, lo + Size(e) - 1, calcnot, chk) == Some(EvalAt(e, lo, calcnot, chk))
    decreases e
  {
    if e.Not? {
      ExecuteIsEval(items, lo, e.e, calcnot, chk);
      ExecuteNegation(items, lo, e, calcnot, chk);
    } else if e.Bin? {
      ExecuteIsEval(items, lo, e.a, calcnot, chk);
      ExecuteIsEval(items, lo + Size(e.a), e.b, calcnot, chk);
      ExecuteBin(items, lo, e, calcnot, chk);
    }
  }

  /** The primitive cases look up each item's value. */
  predicate LooksUp(items: seq<Item>, chk: int -> bool, has: int -> bool) {
    forall k :: 0 <= k < |items| && items[k].node.ValNode? ==> chk(k) == has(items[k].node.val)
  }

  lemma {:induction false} EvalAtIsEval(items: seq<Item>, lo: nat, e: Expr, chk: int -> bool, has: int -> bool)
    requires ItemsAt(items, lo, e) && LooksUp(items, chk, has)
    ensures EvalAt(e, lo, true, chk) == Eval(e, has)
    decreases e
  {
    match e {
      case Val(_) =>
      case Not(x) =>
        EvalAtIsEval(items, lo, x, chk, has);
      case Bin(_, a, b) =>
        EvalAtIsEval(items, lo, a, chk, has);
        EvalAtIsEval(items, lo + Size(a), b, chk, has);
    }
  }

  /** The compiled query means what the text means. */
  lemma CompiledMeaning(items: seq<Item>, e: Expr, chk: int -> bool, has: int -> bool)
    requires ItemsAt(items, 0, e) && Fits(e) && LooksUp(items, chk, has)
    ensures Execute(items, Size(e) - 1, true, chk) == Some(Eval(e, has))
  {
    ExecuteIsEval(items, 0, e, true, chk);
    EvalAtIsEval(items, 0, e, chk, has);
  }

  lemma WholeItems(e: Expr)
    ensures ItemsAt(Linked(e), 0, e)
  {
    LinkedAt(Linked(e), 0, e);
  }
}
