/** intarray/_int_gin.c and the index-side evaluators of _int_bool.c: answering a compiled
    query from an index. */
module QueryIndex {
  import opened Wrappers
  import opened Query
  import opened QueryCompiler
  import opened QueryItems

  // ----- Entries of a query -----

  /** The values of the first n items, in order. */
  function ValuesTo(items: seq<Item>, n: nat): (r: seq<int>)
    requires n <= |items|
    ensures |r| <= n
  {
    if n == 0 then []
    else if items[n - 1].node.ValNode? then ValuesTo(items, n - 1) + [items[n - 1].node.val]
    else ValuesTo(items, n - 1)
  }

  lemma {:induction false} ValuesToPrefix(items: seq<Item>, k: nat, n: nat)
    requires k < n <= |items| && items[k].node.ValNode?
    ensures var j := |ValuesTo(items, k)|;
      j < |ValuesTo(items, n)| && ValuesTo(items, n)[j] == items[k].node.val
  {
    if k < n - 1 {
      ValuesToPrefix(items, k, n - 1);
    }
  }

  datatype SearchMode = DEFAULT | ALL

  /** `contains_required_value` from item k; None as in Execute. */
  function ContainsRequiredValue(items: seq<Item>, k: int): Option<bool>
    decreases if k >= 0 then k + 1 else 0
  {
    if !(0 <= k < |items|) then None
    else match items[k].node
    case ValNode(_) => Some(true)
    case OprNode(op) =>
      if op == '!' then Some(false)
      else if items[k].left >= 0 then None
      else
        var x := ContainsRequiredValue(items, k + items[k].left);
        if x.None? then None
        else if op == '&' then (if x.value then Some(true) else ContainsRequiredValue(items, k - 1))
        else (if x.value then ContainsRequiredValue(items, k - 1) else Some(false))
  }

  /** Whether some value must be present for the query to hold, counting negations as true. */
  predicate Required(e: Expr) {
    match e
    case Val(_) => true
    case Not(_) => false
    case Bin(AND, a, b) => Required(a) || Required(b)
    case Bin(OR, a, b) => Required(a) && Required(b)
  }

  lemma RequiredBinary(items: seq<Item>, k: int, m: int, op: BinOp, x: bool, y: bool)
    requires 0 <= m < k < |items| && items[k] == Item(OprNode(op.Symbol()), m - k)
    requires ContainsRequiredValue(items, m) == Some(x)
    requires ContainsRequiredValue(items, k - 1) == Some(y)
    ensures ContainsRequiredValue(items, k) == Some(if op.AND? then x || y else x && y)
  {
  }

  lemma {:induction false} ContainsRequiredIsRequired(items: seq<Item>, lo: nat, e: Expr)
    requires ItemsAt(items, lo, e) && Fits(e)
    ensures ContainsRequiredValue(items, lo + Size(e) - 1) == Some(Required(e))
    decreases e
  {
    if e.Bin? {
      var m, n := Size(e.a), Size(e.b);
      ContainsRequiredIsRequired(items, lo, e.a);
      ContainsRequiredIsRequired(items, lo + m, e.b);
      RequiredBinary(items, lo + m + n, lo + m - 1, e.op, Required(e.a), Required(e.b));
    }
  }

  /** A query has required values exactly when it fails on the empty array with negations
      counted as true. */
  lemma {:induction false} RequiredIffFalseOnEmpty(e: Expr, lo: int)
    ensures Required(e) <==> !EvalAt(e, lo, false, _ => false)
  {
    if e.Bin? {
      RequiredIffFalseOnEmpty(e.a, lo);
      RequiredIffFalseOnEmpty(e.b, lo + Size(e.a));
    }
  }

  /** The entries to look up, and whether looking them up is enough. */
  method GinQueryExtract(items: seq<Item>) returns (entries: seq<int>, mode: Option<SearchMode>)
    ensures entries == ValuesTo(items, |items|)
    ensures items != [] ==>
      var required := ContainsRequiredValue(items, |items| - 1);
      mode == if required.None? then None else Some(if required.value then DEFAULT else ALL)
  {
    if |items| <= 0 {
      return [], Some(DEFAULT);
    }
    var required := ContainsRequiredValue(items, |items| - 1);
    mode := if required.None? then None else Some(if required.value then DEFAULT else ALL);
    var res := new int[|items|](_ => 0);
    var nentries: nat := 0;
    var i := 0;
    while i < |items|
      invariant 0 <= i <= |items| && nentries <= i
      invariant res[..nentries] == ValuesTo(items, i)
    {
      if items[i].node.ValNode? {
        res[nentries] := items[i].node.val;
        nentries := nentries + 1;
      }
      i := i + 1;
    }
    entries := res[..nentries];
  }

  /** check[j] tells whether the j-th entry is present. */
  predicate Checks(items: seq<Item>, check: seq<bool>, has: int -> bool) {
    var entries := ValuesTo(items, |items|);
    |check| == |entries| && forall j :: 0 <= j < |check| ==> check[j] == has(entries[j])
  }

  /** The first n items have their values' checks under their own position. */
  ghost predicate Mapped(items: seq<Item>, check: seq<bool>, m: seq<bool>, n: nat)
    requires n <= |items| == |m|
  {
    forall k :: 0 <= k < n && items[k].node.ValNode? ==>
      |ValuesTo(items, k)| < |check| && m[k] == check[|ValuesTo(items, k)|]
  }

  /** Spread the check vector over the items. */
  method MapChecks(items: seq<Item>, check: seq<bool>) returns (m: seq<bool>)
    requires |check| == |ValuesTo(items, |items|)|
    ensures |m| == |items| && Mapped(items, check, m, |items|)
  {
    var mapped := new bool[|items|](_ => false);
    var i, j := 0, 0;
    while i < |items|
      invariant 0 <= i <= |items| && j == |ValuesTo(items, i)|
      invariant Mapped(items, check, mapped[..], i)
    {
      if items[i].node.ValNode? {
        ValuesToPrefix(items, i, |items|);
        mapped[i] := check[j];
        j := j + 1;
      }
      i := i + 1;
    }
    m := mapped[..];
  }

  lemma MappedMeaning(items: seq<Item>, e: Expr, check: seq<bool>, m: seq<bool>, chk: int -> bool, has: int -> bool)
    requires ItemsAt(items, 0, e) && Fits(e) && Checks(items, check, has)
    requires |m| == |items| && Mapped(items, check, m, |items|)
    requires forall k :: 0 <= k < |m| ==> chk(k) == m[k]
    ensures Execute(items, Size(e) - 1, true, chk) == Some(Eval(e, has))
  {
    forall k | 0 <= k < |items| && items[k].node.ValNode?
      ensures chk(k) == has(items[k].node.val)
    {
      ValuesToPrefix(items, k, |items|);
    }
    CompiledMeaning(items, e, chk, has);
  }

  /** Evaluate a query on the check vector. */
  method GinBoolConsistent(items: seq<Item>, check: seq<bool>) returns (r: Option<bool>)
    requires |check| == |ValuesTo(items, |items|)|
    ensures items == [] ==> r == Some(false)
    ensures forall e, has :: items == Linked(e) && Fits(e) && Checks(items, check, has) ==> r == Some(Eval(e, has))
  {
    if |items| <= 0 {
      return Some(false);
    }
    var m := MapChecks(items, check);
    var chk := k => 0 <= k < |m| && m[k];
    r := Execute(items, |items| - 1, true, chk);
    forall e, has | items == Linked(e) && Fits(e) && Checks(items, check, has)
      ensures r == Some(Eval(e, has))
    {
      WholeItems(e);
      MappedMeaning(items, e, check, m, chk, has);
    }
  }

  // ----- Over-approximation -----

  /** chk is true of every item whose value is present. */
  predicate Approximates(items: seq<Item>, chk: int -> bool, has: int -> bool) {
    forall k :: 0 <= k < |items| && items[k].node.ValNode? && has(items[k].node.val) ==> chk(k)
  }

  /** With negations counted as true, a query that holds exactly also holds of anything that
      approximates the values present. */
  lemma {:induction false} Approximation(items: seq<Item>, lo: nat, e: Expr, chk: int -> bool, has: int -> bool)
    requires ItemsAt(items, lo, e) && Approximates(items, chk, has) && Eval(e, has)
    ensures EvalAt(e, lo, false, chk)
    decreases e
  {
    match e {
      case Val(v) =>
        assert items[lo].node == ValNode(v);
      case Not(x) =>
      case Bin(op, a, b) =>
        if Eval(a, has) {
          Approximation(items, lo, a, chk, has);
        }
        if Eval(b, has) {
          Approximation(items, lo + Size(a), b, chk, has);
        }
    }
  }

  /** It is monotone: what holds of fewer values holds of more. */
  lemma {:induction false} MonotoneInValues(e: Expr, lo: int, chk: int -> bool, chk': int -> bool)
    requires EvalAt(e, lo, false, chk) && forall k :: chk(k) ==> chk'(k)
    ensures EvalAt(e, lo, false, chk')
  {
    match e {
      case Val(_) =>
      case Not(_) =>
      case Bin(_, a, b) =>
        if EvalAt(a, lo, false, chk) {
          MonotoneInValues(a, lo, chk, chk');
        }
        if EvalAt(b, lo + Size(a), false, chk) {
          MonotoneInValues(b, lo + Size(a), chk, chk');
        }
    }
  }

  /** The evaluator accepts every approximation of a satisfying array. */
  lemma ExecuteApproximates(items: seq<Item>, e: Expr, chk: int -> bool, has: int -> bool)
    requires ItemsAt(items, 0, e) && Fits(e) && Approximates(items, chk, has) && Eval(e, has)
    ensures Execute(items, Size(e) - 1, false, chk) == Some(true)
  {
    Approximation(items, 0, e, chk, has);
    ExecuteIsEval(items, 0, e, false, chk);
  }

  // ----- Searching a GIN index -----

  /** Some entry of the query is present. */
  ghost predicate AnyPresent(entries: seq<int>, has: int -> bool) {
    exists j :: 0 <= j < |entries| && has(entries[j])
  }

  /** A query with required values holds of no array without any of its values. */
  lemma RequiredValuePresent(items: seq<Item>, e: Expr, has: int -> bool)
    requires ItemsAt(items, 0, e) && Required(e) && Eval(e, has)
    ensures AnyPresent(ValuesTo(items, |items|), has)
  {
    var none := _ => false;
    if !AnyPresent(ValuesTo(items, |items|), has) {
      forall k | 0 <= k < |items| && items[k].node.ValNode?
        ensures !has(items[k].node.val)
      {
        ValuesToPrefix(items, k, |items|);
      }
      Approximation(items, 0, e, none, has);
      RequiredIffFalseOnEmpty(e, 0);
    }
  }

  /** Which rows the index offers for checking. */
  ghost predicate Offered(mode: SearchMode, entries: seq<int>, has: int -> bool) {
    mode == ALL || AnyPresent(entries, has)
  }

  /** With the mode and the entries of GinQueryExtract, the index offers every row of which the
      query holds. */
  lemma GinOffersMatches(items: seq<Item>, e: Expr, mode: SearchMode, has: int -> bool)
    requires ItemsAt(items, 0, e) && |items| == Size(e) && Fits(e)
    requires ContainsRequiredValue(items, |items| - 1) == Some(mode == DEFAULT)
    requires Eval(e, has)
    ensures Offered(mode, ValuesTo(items, |items|), has)
  {
    ContainsRequiredIsRequired(items, 0, e);
    if Required(e) {
      RequiredValuePresent(items, e, has);
    }
  }
}
