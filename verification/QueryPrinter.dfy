/** intarray/_int_bool.c: printing a compiled query with as few parentheses as it takes, and
    what reading the text back gives. */
module QueryPrinter {
  import opened Wrappers
  import opened Query
  import opened QueryCompiler

  // ----- Numbers -----

  function Digit(d: int): char
    requires 0 <= d < 10
  {
    ('0' as int + d) as char
  }

  function Digits(n: nat): (r: string)
    ensures r != [] && forall k :: 0 <= k < |r| ==> IsDigit(r[k])
  {
    if n < 10 then [Digit(n)] else Digits(n / 10) + [Digit(n % 10)]
  }

  /** `sprintf("%d")`. */
  function NumberText(v: int): string {
    if v < 0 then ['-'] + Digits(-v) else Digits(v)
  }

  lemma {:induction false} DecimalOfDigits(n: nat)
    ensures Decimal(Digits(n)) == n
    ensures n > 0 ==> Digits(n)[0] != '0'
  {
    var s := Digits(n);
    if n < 10 {
      assert s[..|s| - 1] == [];
      assert Decimal([]) == 0;
    } else {
      DecimalOfDigits(n / 10);
      assert s[..|s| - 1] == Digits(n / 10);
    }
  }

  function Pow10(k: nat): nat {
    if k == 0 then 1 else 10 * Pow10(k - 1)
  }

  lemma {:induction false} DigitsLength(n: nat, k: nat)
    requires k >= 1 && n < Pow10(k)
    ensures |Digits(n)| <= k
  {
    if n >= 10 {
      assert k > 1;
      DigitsLength(n / 10, k - 1);
    }
  }

  lemma Pow10Ten()
    ensures Pow10(10) == 10_000_000_000
  {
    assert Pow10(3) == 1000;
    assert Pow10(6) == 1_000_000;
    assert Pow10(9) == 1_000_000_000;
  }

  /** A printed number reads back as itself and fits the tokenizer's buffer. */
  lemma NumberRoundTrip(v: int)
    requires IsInt32(v)
    ensures Strtol(NumberText(v)) == v && |NumberText(v)| < NUMBER_BUFFER
    ensures NumberText(v)[0] == '-' || IsDigit(NumberText(v)[0])
    ensures forall k :: 1 <= k < |NumberText(v)| ==> IsDigit(NumberText(v)[k])
  {
    var n := if v < 0 then -v else v;
    Pow10Ten();
    DigitsLength(n, 10);
    DecimalOfDigits(n);
    if n == 0 {
      assert Digits(0)[1..] == [];
    }
    if v < 0 {
      assert NumberText(v)[1..] == Digits(n);
    }
  }

  // ----- Printing -----

  /** The text of an expression; first says that an outer pair of parentheses, or the end of
      the text, already encloses it. */
  function Text(e: Expr, first: bool): string {
    match e
    case Val(v) => NumberText(v)
    case Not(x) => if x.Val? then "!" + Text(x, false) else "!( " + Text(x, true) + " )"
    case Bin(op, a, b) =>
      var body := Text(a, false) + [' ', op.Symbol(), ' '] + Text(b, false);
      if op.OR? && !first then "( " + body + " )" else body
  }

  predicate HoldsPostfix(items: seq<Node>, end: int, e: Expr) {
    0 <= end + 1 - |Postfix(e)| && end < |items| && items[end + 1 - |Postfix(e)|..end + 1] == Postfix(e)
  }

  lemma HoldsLast(items: seq<Node>, end: int, e: Expr)
    requires HoldsPostfix(items, end, e)
    ensures 0 <= end && items[end] == match e case Val(v) => ValNode(v) case Not(_) => OprNode('!') case Bin(op, _, _) => OprNode(op.Symbol())
  {
    var n, s := |Postfix(e)|, items[end + 1 - |Postfix(e)|..end + 1];
    assert items[end] == s[n - 1];
  }

  lemma HoldsNot(items: seq<Node>, end: int, e: Expr)
    requires HoldsPostfix(items, end, e) && e.Not?
    ensures HoldsPostfix(items, end - 1, e.e) && |Postfix(e)| == |Postfix(e.e)| + 1
  {
    var n, s := |Postfix(e.e)|, items[end - |Postfix(e.e)|..end + 1];
    assert items[end - n..end] == s[..n];
  }

  lemma HoldsBin(items: seq<Node>, end: int, e: Expr)
    requires HoldsPostfix(items, end, e) && e.Bin?
    ensures HoldsPostfix(items, end - 1, e.b) && HoldsPostfix(items, end - 1 - |Postfix(e.b)|, e.a)
    ensures |Postfix(e)| == |Postfix(e.a)| + |Postfix(e.b)| + 1
  {
    var m, k := |Postfix(e.a)|, |Postfix(e.b)|;
    var lo, s := end - m - k, Postfix(e);
    SliceParts(items, lo, s, m, k);
    assert s[..m] == Postfix(e.a) && s[m..m + k] == Postfix(e.b);
  }

  lemma SliceParts(items: seq<Node>, lo: nat, s: seq<Node>, m: nat, k: nat)
    requires lo + |s| <= |items| && items[lo..lo + |s|] == s && m + k <= |s|
    ensures items[lo..lo + m] == s[..m] && items[lo + m..lo + m + k] == s[m..m + k]
  {
    forall i | 0 <= i < |s|
      ensures items[lo + i] == s[i]
    {
      assert items[lo..lo + |s|][i] == items[lo + i];
    }
    var u := items[lo + m..lo + m + k];
    assert forall i :: 0 <= i < k ==> u[i] == items[lo + (m + i)];
  }

  /** Walk the postfix items backwards from curpol, writing infix into a buffer. */
  method Infix(items: seq<Node>, curpol: int, buf: string, first: bool, ghost e: Expr)
      returns (curpol': int, buf': string)
    requires HoldsPostfix(items, curpol, e)
    ensures curpol' == curpol - |Postfix(e)|
    ensures buf' == buf + Text(e, first)
    decreases e
  {
    HoldsLast(items, curpol, e);
    curpol', buf' := curpol, buf;
    match items[curpol']
    case ValNode(v) =>
      buf' := buf' + NumberText(v);
      curpol' := curpol' - 1;
    case OprNode(op) =>
      if op == '!' {
        curpol', buf' := InfixNot(items, curpol, buf, e);
      } else {
        curpol', buf' := InfixBinary(items, curpol, buf, first, e);
      }
  }

  method InfixNot(items: seq<Node>, curpol: int, buf: string, ghost e: Expr) returns (curpol': int, buf': string)
    requires HoldsPostfix(items, curpol, e) && e.Not?
    ensures curpol' == curpol - |Postfix(e)|
    ensures buf' == buf + Text(e, true) == buf + Text(e, false)
    decreases e, 0
  {
    HoldsNot(items, curpol, e);
    HoldsLast(items, curpol - 1, e.e);
    buf' := buf + ['!'];
    curpol' := curpol - 1;
    var isopr := items[curpol'].OprNode?;
    if isopr {
      buf' := buf' + "( ";
    }
    curpol', buf' := Infix(items, curpol', buf', isopr, e.e);
    if isopr {
      buf' := buf' + " )";
    }
    NotText(buf, e.e);
  }

  lemma NotText(buf: string, x: Expr)
    ensures x.Val? ==> buf + ['!'] + Text(x, false) == buf + Text(Not(x), true)
    ensures !x.Val? ==> buf + ['!'] + "( " + Text(x, true) + " )" == buf + Text(Not(x), true)
    ensures Text(Not(x), true) == Text(Not(x), false)
  {
  }

  method InfixBinary(items: seq<Node>, curpol: int, buf: string, first: bool, ghost e: Expr)
      returns (curpol': int, buf': string)
    requires HoldsPostfix(items, curpol, e) && e.Bin?
    ensures curpol' == curpol - |Postfix(e)|
    ensures buf' == buf + Text(e, first)
    decreases e, 0
  {
    HoldsLast(items, curpol, e);
    HoldsBin(items, curpol, e);
    var op := items[curpol].op;
    curpol', buf' := curpol - 1, buf;
    if op == '|' && !first {
      buf' := buf' + "( ";
    }
    // the right operand stands nearer to the operator, but its text comes last
    var nrmCurpol, nrmBuf := Infix(items, curpol', "", false, e.b);
    curpol', buf' := Infix(items, nrmCurpol, buf', false, e.a);
    buf' := buf' + [' ', op, ' '] + nrmBuf;
    if op == '|' && !first {
      buf' := buf' + " )";
    }
  }

  // ----- What the text reads back as -----

  /** `&` chains are read grouped to the left: e continues the chain left, if there is one. */
  function Chain(left: Option<Expr>, e: Expr): Expr
    decreases e, 1
  {
    if e.Bin? && e.op.AND? then Chain(Some(Chain(left, e.a)), e.b) else JoinAnd(left, Atom(e))
  }

  /** A single operand. */
  function Atom(e: Expr): Expr
    requires !(e.Bin? && e.op.AND?)
    decreases e, 0
  {
    match e
    case Val(_) => e
    case Not(x) => Not(if x.Val? then x else Whole(x))
    case Bin(_, a, b) => Bin(OR, Chain(None, a), Chain(None, b))
  }

  /** A whole query, or the inside of a pair of parentheses. */
  function Whole(e: Expr): Expr
    decreases e, 2
  {
    Chain(None, e)
  }

  predicate AllInt32(e: Expr) {
    match e
    case Val(v) => IsInt32(v)
    case Not(x) => AllInt32(x)
    case Bin(_, a, b) => AllInt32(a) && AllInt32(b)
  }

  /** s stands at position p of the text. */
  predicate StandsAt(buf: string, p: nat, s: string) {
    p + |s| <= |buf| && buf[p..p + |s|] == s
  }

  lemma StandsSplit(buf: string, p: nat, a: string, b: string)
    requires StandsAt(buf, p, a + b)
    ensures StandsAt(buf, p, a) && StandsAt(buf, p + |a|, b)
  {
    var s := buf[p..p + |a| + |b|];
    assert s[..|a|] == a && s[|a|..] == b;
    assert buf[p..p + |a|] == s[..|a|] && buf[p + |a|..p + |a| + |b|] == s[|a|..];
  }

  lemma StandsChar(buf: string, p: nat, s: string, k: nat)
    requires StandsAt(buf, p, s) && k < |s|
    ensures At(buf, p + k) == s[k]
  {
    assert buf[p..p + |s|][k] == buf[p + k];
  }

  /** An operand may end here: at a space, or at the end of a text with no open parenthesis. */
  predicate Stops(buf: string, q: nat, depth: int) {
    (q < |buf| && buf[q] == ' ') || (q == |buf| && depth == 0)
  }

  lemma {:induction false} SkipDigitsTo(buf: string, p: nat, q: nat)
    requires p <= q <= |buf| && !IsDigit(At(buf, q))
    requires forall k :: p <= k < q ==> IsDigit(buf[k])
    ensures SkipDigits(buf, p) == q
    decreases q - p
  {
    if p < q {
      SkipDigitsTo(buf, p + 1, q);
    }
  }

  lemma LexPrintedNumber(buf: string, p: nat, v: int, depth: int)
    requires IsInt32(v) && StandsAt(buf, p, NumberText(v)) && Stops(buf, p + |NumberText(v)|, depth)
    ensures LexOperand(buf, p, depth) == Lexeme(VAL(v), p + |NumberText(v)|, depth)
  {
    var s := NumberText(v);
    NumberRoundTrip(v);
    StandsChar(buf, p, s, 0);
    forall k | p + 1 <= k < p + |s|
      ensures IsDigit(buf[k])
    {
      StandsChar(buf, p, s, k - p);
    }
    SkipDigitsTo(buf, p + 1, p + |s|);
  }

  /** A space before an operand or an operator is skipped. */
  lemma LexSpace(buf: string, p: nat, depth: int)
    requires At(buf, p) == ' '
    ensures LexOperand(buf, p, depth) == LexOperand(buf, p + 1, depth)
    ensures LexOperator(buf, p, depth) == LexOperator(buf, p + 1, depth)
  {
  }

  lemma OperandSpace(buf: string, p: nat, depth: int, pending: nat)
    requires At(buf, p) == ' '
    ensures Operand(buf, p, depth, pending) == Operand(buf, p + 1, depth, pending)
  {
    LexSpace(buf, p, depth);
  }

  lemma OrExprSpace(buf: string, p: nat, depth: int)
    requires At(buf, p) == ' '
    ensures OrExpr(buf, p, depth) == OrExpr(buf, p + 1, depth)
  {
    OperandSpace(buf, p, depth, 0);
  }

  /** Reading on from p, where an operand continues the chain left. */
  function AndFrom(buf: string, left: Option<Expr>, p: nat, depth: int, pending: nat): Parsed {
    var x :- Operand(buf, p, depth, if left.Some? then pending + 1 else pending);
    AndRest(buf, JoinAnd(left, x.0), x.1, depth, pending)
  }

  /** A printed binary operator, between its printed operands. */
  lemma LexPrintedOperator(buf: string, p: nat, op: BinOp, depth: int)
    requires StandsAt(buf, p, [' ', op.Symbol(), ' '])
    ensures LexOperator(buf, p, depth) == Lexeme(OPR(op.Symbol()), p + 2, depth)
    ensures At(buf, p + 2) == ' ' && Stops(buf, p, depth)
  {
    var s := [' ', op.Symbol(), ' '];
    StandsChar(buf, p, s, 0);
    StandsChar(buf, p, s, 1);
    StandsChar(buf, p, s, 2);
    LexSpace(buf, p, depth);
  }

  /** Where the parts of a printed binary expression stand. */
  lemma StandsBody(buf: string, p: nat, a: string, op: BinOp, b: string)
    requires StandsAt(buf, p, a + [' ', op.Symbol(), ' '] + b)
    ensures StandsAt(buf, p, a) && StandsAt(buf, p + |a|, [' ', op.Symbol(), ' ']) && StandsAt(buf, p + |a| + 3, b)
  {
    StandsSplit(buf, p, a + [' ', op.Symbol(), ' '], b);
    StandsSplit(buf, p, a, [' ', op.Symbol(), ' ']);
  }

  /** The characters around a printed parenthesised text. */
  predicate Enclosed(buf: string, p: nat, n: nat) {
    At(buf, p) == '(' && At(buf, p + 1) == ' ' && At(buf, p + 2 + n) == ' ' && At(buf, p + 3 + n) == ')'
  }

  lemma StandsEnclosed(buf: string, p: nat, body: string)
    requires StandsAt(buf, p, "( " + body + " )")
    ensures Enclosed(buf, p, |body|) && StandsAt(buf, p + 2, body)
  {
    var s := "( " + body + " )";
    StandsChar(buf, p, s, 0);
    StandsChar(buf, p, s, 1);
    StandsChar(buf, p, s, |body| + 2);
    StandsChar(buf, p, s, |body| + 3);
    StandsSplit(buf, p, "( " + body, " )");
    StandsSplit(buf, p, "( ", body);
  }

  /** The closing parenthesis ends what stands before it. */
  lemma EnclosedStops(buf: string, p: nat, n: nat, end: nat, depth: int)
    requires Enclosed(buf, p, n) && end == p + 2 + n
    ensures Stops(buf, end, depth)
    ensures LexOperator(buf, end, depth) == Lexeme(if depth - 1 < 0 then ERR else CLOSE, end + 2, depth - 1)
  {
    LexSpace(buf, end, depth);
  }

  /** A pair of printed parentheses around text that reads as x. */
  lemma ReadEnclosed(buf: string, p: nat, n: nat, end: nat, x: Expr, depth: int, pending: nat)
    requires depth >= 0 && Enclosed(buf, p, n) && end == p + 2 + n
    requires OrExpr(buf, p + 2, depth + 1) == Success((x, end))
    ensures Operand(buf, p, depth, pending) == Success((x, end + 2))
  {
    OrExprSpace(buf, p + 1, depth + 1);
    EnclosedStops(buf, p, n, end, depth + 1);
  }

  /** A printed operand reads back as that operand. */
  lemma {:induction false} AtomParses(buf: string, p: nat, e: Expr, s: string, depth: int, pending: nat)
    requires !(e.Bin? && e.op.AND?) && AllInt32(e) && depth >= 0 && pending <= 2
    requires s == Text(e, false) && StandsAt(buf, p, s) && Stops(buf, p + |s|, depth)
    ensures Operand(buf, p, depth, pending) == Success((Atom(e), p + |s|))
    decreases e, 2, 0
  {
    if e.Val? {
      ValueParses(buf, p, e, s, depth, pending);
    } else if e.Not? {
      TextOfNot(e.e);
      if e.e.Val? {
        NotValueParses(buf, p, e.e.v, s, depth, pending);
      } else {
        NotOperand(buf, p, e.e, s, depth, pending);
      }
    } else {
      OrOperand(buf, p, e, s, depth, pending);
    }
  }

  lemma ValueParses(buf: string, p: nat, e: Expr, s: string, depth: int, pending: nat)
    requires e.Val? && IsInt32(e.v)
    requires s == NumberText(e.v) && StandsAt(buf, p, s) && Stops(buf, p + |s|, depth)
    ensures Operand(buf, p, depth, pending) == Success((e, p + |s|))
  {
    LexPrintedNumber(buf, p, e.v, depth);
  }

  lemma TextOfNot(x: Expr)
    ensures x.Val? ==> Text(Not(x), false) == "!" + NumberText(x.v)
    ensures !x.Val? ==> Text(Not(x), false) == "!" + ("( " + Text(x, true) + " )")
  {
  }

  lemma TextOfOr(e: Expr)
    requires e.Bin? && e.op.OR?
    ensures Text(e, false) == "( " + Text(e, true) + " )"
    ensures Text(e, true) == Text(e.a, false) + [' ', OR.Symbol(), ' '] + Text(e.b, false)
  {
  }

  lemma {:induction false} OrOperand(buf: string, p: nat, e: Expr, s: string, depth: int, pending: nat)
    requires e.Bin? && e.op.OR? && AllInt32(e) && depth >= 0
    requires s == Text(e, false) && StandsAt(buf, p, s)
    ensures Operand(buf, p, depth, pending) == Success((Atom(e), p + |s|))
    decreases e, 1, 1
  {
    var body := Text(e, true);
    TextOfOr(e);
    StandsEnclosed(buf, p, body);
    OrParenthesised(buf, p, e, body, p + 2 + |body|, Atom(e), depth, pending);
  }

  lemma {:induction false} OrParenthesised(buf: string, p: nat, e: Expr, body: string, end: nat, x: Expr, depth: int, pending: nat)
    requires e.Bin? && e.op.OR? && AllInt32(e) && depth >= 0 && end == p + 2 + |body|
    requires body == Text(e, true) && x == Atom(e) && StandsAt(buf, p + 2, body) && Enclosed(buf, p, |body|)
    ensures Operand(buf, p, depth, pending) == Success((x, end + 2))
    decreases e, 1, 0
  {
    EnclosedStops(buf, p, |body|, end, depth + 1);
    OrParses(buf, p + 2, e, body, end, x, depth + 1);
    ReadEnclosed(buf, p, |body|, end, x, depth, pending);
  }

  lemma StandsNegated(buf: string, p: nat, s: string)
    requires StandsAt(buf, p, "!" + s)
    ensures At(buf, p) == '!' && StandsAt(buf, p + 1, s)
  {
    StandsChar(buf, p, "!" + s, 0);
    StandsSplit(buf, p, "!", s);
  }

  lemma NotValueParses(buf: string, p: nat, v: int, s: string, depth: int, pending: nat)
    requires IsInt32(v) && pending <= 2
    requires s == "!" + NumberText(v) && StandsAt(buf, p, s) && Stops(buf, p + |s|, depth)
    ensures Operand(buf, p, depth, pending) == Success((Not(Val(v)), p + |s|))
  {
    var t, end := NumberText(v), p + |s|;
    StandsNegated(buf, p, t);
    assert end == p + 1 + |t|;
    ValueParses(buf, p + 1, Val(v), t, depth, pending + 1);
    OperandNot(buf, p, depth, pending, Val(v), end);
  }

  /** A negated parenthesised text, character by character. */
  lemma StandsNegatedEnclosed(buf: string, p: nat, s: string, body: string)
    requires s == "!" + ("( " + body + " )") && StandsAt(buf, p, s)
    ensures |s| == |body| + 5 && At(buf, p) == '!' && Enclosed(buf, p + 1, |body|) && StandsAt(buf, p + 3, body)
  {
    StandsNegated(buf, p, "( " + body + " )");
    StandsEnclosed(buf, p + 1, body);
  }

  lemma {:induction false} NotOperand(buf: string, p: nat, e: Expr, s: string, depth: int, pending: nat)
    requires !e.Val? && AllInt32(e) && depth >= 0 && pending <= 2
    requires s == "!" + ("( " + Text(e, true) + " )") && StandsAt(buf, p, s)
    ensures Operand(buf, p, depth, pending) == Success((Not(Whole(e)), p + |s|))
    decreases e, 6
  {
    var body := Text(e, true);
    StandsNegatedEnclosed(buf, p, s, body);
    NotParses(buf, p, e, body, p + 3 + |body|, Whole(e), depth, pending);
  }

  lemma {:induction false} NotParses(buf: string, p: nat, e: Expr, body: string, end: nat, x: Expr, depth: int, pending: nat)
    requires AllInt32(e) && depth >= 0 && pending <= 2 && end == p + 3 + |body|
    requires body == Text(e, true) && x == Whole(e) && StandsAt(buf, p + 3, body)
    requires At(buf, p) == '!' && Enclosed(buf, p + 1, |body|)
    ensures Operand(buf, p, depth, pending) == Success((Not(x), end + 2))
    decreases e, 5
  {
    EnclosedStops(buf, p + 1, |body|, end, depth + 1);
    WholeParses(buf, p + 3, e, body, end, x, depth + 1);
    NegatedReads(buf, p, |body|, end, x, depth, pending);
  }

  lemma NegatedReads(buf: string, p: nat, n: nat, end: nat, x: Expr, depth: int, pending: nat)
    requires depth >= 0 && pending <= 2 && At(buf, p) == '!' && Enclosed(buf, p + 1, n) && end == p + 3 + n
    requires OrExpr(buf, p + 3, depth + 1) == Success((x, end))
    ensures Operand(buf, p, depth, pending) == Success((Not(x), end + 2))
  {
    ReadEnclosed(buf, p + 1, n, end, x, depth, pending + 1);
    OperandNot(buf, p, depth, pending, x, end + 2);
  }

  lemma OperandNot(buf: string, p: nat, depth: int, pending: nat, x: Expr, q: nat)
    requires At(buf, p) == '!' && pending < STACKDEPTH
    requires Operand(buf, p + 1, depth, pending + 1) == Success((x, q))
    ensures Operand(buf, p, depth, pending) == Success((Not(x), q))
  {
  }

  /** A printed chain reads on as that chain: rest is what comes of it after its end. */
  lemma {:induction false} ChainParses(buf: string, p: nat, left: Option<Expr>, e: Expr, s: string, depth: int, pending: nat,
                                       end: nat, c: Expr, rest: Parsed)
    requires AllInt32(e) && depth >= 0 && pending <= 1 && end == p + |s|
    requires s == Text(e, false) && StandsAt(buf, p, s) && Stops(buf, end, depth)
    requires c == Chain(left, e) && rest == AndRest(buf, c, end, depth, pending)
    ensures AndFrom(buf, left, p, depth, pending) == rest
    decreases e, 3
  {
    if e.Bin? && e.op.AND? {
      AndChain(buf, p, left, e, s, depth, pending, end, Chain(left, e.a), c, rest);
    } else {
      AtomChain(buf, p, left, e, s, depth, pending, end, Atom(e), c, rest);
    }
  }

  lemma {:induction false} AtomChain(buf: string, p: nat, left: Option<Expr>, e: Expr, s: string, depth: int, pending: nat,
                                     end: nat, x: Expr, c: Expr, rest: Parsed)
    requires !(e.Bin? && e.op.AND?) && AllInt32(e) && depth >= 0 && pending <= 1 && end == p + |s|
    requires s == Text(e, false) && StandsAt(buf, p, s) && Stops(buf, end, depth)
    requires x == Atom(e) && c == JoinAnd(left, x) && rest == AndRest(buf, c, end, depth, pending)
    ensures AndFrom(buf, left, p, depth, pending) == rest
    decreases e, 2, 1
  {
    AtomParses(buf, p, e, s, depth, if left.Some? then pending + 1 else pending);
    AndFromOperand(buf, left, p, x, end, depth, pending);
  }

  lemma AndFromOperand(buf: string, left: Option<Expr>, p: nat, x: Expr, q: nat, depth: int, pending: nat)
    requires q <= |buf|
    requires Operand(buf, p, depth, if left.Some? then pending + 1 else pending) == Success((x, q))
    ensures AndFrom(buf, left, p, depth, pending) == AndRest(buf, JoinAnd(left, x), q, depth, pending)
  {
  }

  lemma {:induction false} AndChain(buf: string, p: nat, left: Option<Expr>, e: Expr, s: string, depth: int, pending: nat,
                                    end: nat, l: Expr, c: Expr, rest: Parsed)
    requires e.Bin? && e.op.AND? && AllInt32(e) && depth >= 0 && pending <= 1 && end == p + |s|
    requires s == Text(e, false) && StandsAt(buf, p, s) && Stops(buf, end, depth)
    requires l == Chain(left, e.a) && c == Chain(Some(l), e.b) && rest == AndRest(buf, c, end, depth, pending)
    ensures AndFrom(buf, left, p, depth, pending) == rest
    decreases e, 2, 1
  {
    var a, b := Text(e.a, false), Text(e.b, false);
    TextOfAnd(e);
    StandsBody(buf, p, a, AND, b);
    LexPrintedOperator(buf, p + |a|, AND, depth);
    AndParses(buf, p, left, e, a, b, p + |a|, end, depth, pending, l, c, rest);
  }

  lemma TextOfAnd(e: Expr)
    requires e.Bin? && e.op.AND?
    ensures Text(e, false) == Text(e.a, false) + [' ', AND.Symbol(), ' '] + Text(e.b, false)
  {
  }

  lemma {:induction false} AndParses(buf: string, p: nat, left: Option<Expr>, e: Expr, a: string, b: string, q: nat, end: nat,
                                     depth: int, pending: nat, l: Expr, c: Expr, rest: Parsed)
    requires e.Bin? && e.op.AND? && AllInt32(e) && depth >= 0 && pending <= 1
    requires q == p + |a| && end == q + 3 + |b|
    requires a == Text(e.a, false) && StandsAt(buf, p, a) && Stops(buf, q, depth)
    requires b == Text(e.b, false) && StandsAt(buf, q + 3, b) && Stops(buf, end, depth)
    requires LexOperator(buf, q, depth) == Lexeme(OPR('&'), q + 2, depth) && At(buf, q + 2) == ' '
    requires l == Chain(left, e.a) && c == Chain(Some(l), e.b) && rest == AndRest(buf, c, end, depth, pending)
    ensures AndFrom(buf, left, p, depth, pending) == rest
    decreases e, 2, 0
  {
    ChainParses(buf, q + 3, Some(l), e.b, b, depth, pending, end, c, rest);
    AndReads(buf, l, q, depth, pending);
    ChainParses(buf, p, left, e.a, a, depth, pending, q, l, rest);
  }

  /** A chain read up to a printed `&` goes on after it. */
  lemma AndReads(buf: string, l: Expr, q: nat, depth: int, pending: nat)
    requires q <= |buf|
    requires LexOperator(buf, q, depth) == Lexeme(OPR('&'), q + 2, depth) && At(buf, q + 2) == ' '
    ensures AndRest(buf, l, q, depth, pending) == AndFrom(buf, Some(l), q + 3, depth, pending)
  {
    OperandSpace(buf, q + 2, depth, pending + 1);
  }

  /** A printed `|` without its parentheses reads back as such. */
  lemma {:induction false} OrParses(buf: string, p: nat, e: Expr, body: string, end: nat, x: Expr, depth: int)
    requires e.Bin? && e.op.OR? && AllInt32(e) && depth >= 0 && end == p + |body|
    requires body == Text(e, true) && x == Atom(e) && StandsAt(buf, p, body) && Stops(buf, end, depth)
    requires !LexOperator(buf, end, depth).tok.OPR?
    ensures OrExpr(buf, p, depth) == Success((x, end))
    decreases e, 0, 1
  {
    var a, b := Text(e.a, false), Text(e.b, false);
    TextOfOr(e);
    StandsBody(buf, p, a, OR, b);
    LexPrintedOperator(buf, p + |a|, OR, depth);
    OrPartsParse(buf, p, e, a, b, p + |a|, end, Chain(None, e.a), Chain(None, e.b), depth);
  }

  lemma {:induction false} OrPartsParse(buf: string, p: nat, e: Expr, a: string, b: string, q: nat, end: nat, x: Expr, y: Expr,
                                        depth: int)
    requires e.Bin? && e.op.OR? && AllInt32(e) && depth >= 0
    requires q == p + |a| && end == q + 3 + |b|
    requires a == Text(e.a, false) && StandsAt(buf, p, a) && Stops(buf, q, depth) && x == Chain(None, e.a)
    requires b == Text(e.b, false) && StandsAt(buf, q + 3, b) && Stops(buf, end, depth) && y == Chain(None, e.b)
    requires LexOperator(buf, q, depth) == Lexeme(OPR('|'), q + 2, depth) && At(buf, q + 2) == ' '
    requires !LexOperator(buf, end, depth).tok.OPR?
    ensures OrExpr(buf, p, depth) == Success((Bin(OR, x, y), end))
    decreases e, 0, 0
  {
    AndStops(buf, x, q, depth, 0);
    AndStops(buf, y, end, depth, 1);
    ChainParses(buf, p, None, e.a, a, depth, 0, q, x, Success((x, q)));
    ChainParses(buf, q + 3, None, e.b, b, depth, 1, end, y, Success((y, end)));
    OrReads(buf, p, q, end, depth, x, y);
  }

  lemma AndStops(buf: string, x: Expr, q: nat, depth: int, pending: nat)
    requires q <= |buf| && LexOperator(buf, q, depth).tok != OPR('&')
    ensures AndRest(buf, x, q, depth, pending) == Success((x, q))
  {
  }

  lemma OrStops(buf: string, x: Expr, q: nat, depth: int)
    requires q <= |buf| && !LexOperator(buf, q, depth).tok.OPR?
    ensures OrRest(buf, x, q, depth) == Success((x, q))
  {
  }

  /** Two chains around a `|`, read as one level. */
  lemma OrReads(buf: string, p: nat, q: nat, end: nat, depth: int, x: Expr, y: Expr)
    requires q <= end <= |buf|
    requires AndFrom(buf, None, p, depth, 0) == Success((x, q))
    requires LexOperator(buf, q, depth) == Lexeme(OPR('|'), q + 2, depth) && At(buf, q + 2) == ' '
    requires AndFrom(buf, None, q + 3, depth, 1) == Success((y, end))
    requires !LexOperator(buf, end, depth).tok.OPR?
    ensures OrExpr(buf, p, depth) == Success((Bin(OR, x, y), end))
  {
    OperandSpace(buf, q + 2, depth, 1);
    AndExprFrom(buf, p, depth, 0);
    AndExprFrom(buf, q + 2, depth, 1);
    OrJoins(buf, q, end, depth, x, y);
    OrExprFrom(buf, p, q, depth, x);
  }

  lemma OrJoins(buf: string, q: nat, end: nat, depth: int, x: Expr, y: Expr)
    requires q <= end <= |buf|
    requires LexOperator(buf, q, depth) == Lexeme(OPR('|'), q + 2, depth)
    requires AndExpr(buf, q + 2, depth, 1) == Success((y, end))
    requires !LexOperator(buf, end, depth).tok.OPR?
    ensures OrRest(buf, x, q, depth) == Success((Bin(OR, x, y), end))
  {
    OrStops(buf, Bin(OR, x, y), end, depth);
  }

  lemma OrExprFrom(buf: string, p: nat, q: nat, depth: int, x: Expr)
    requires q <= |buf| && AndExpr(buf, p, depth, 0) == Success((x, q))
    ensures OrExpr(buf, p, depth) == OrRest(buf, x, q, depth)
  {
  }

  /** A whole printed query reads back. */
  lemma {:induction false} WholeParses(buf: string, p: nat, e: Expr, body: string, end: nat, x: Expr, depth: int)
    requires AllInt32(e) && depth >= 0 && end == p + |body|
    requires body == Text(e, true) && x == Whole(e) && StandsAt(buf, p, body) && Stops(buf, end, depth)
    requires !LexOperator(buf, end, depth).tok.OPR?
    ensures OrExpr(buf, p, depth) == Success((x, end))
    decreases e, 4
  {
    if e.Bin? && e.op.OR? {
      OrParses(buf, p, e, body, end, x, depth);
    } else {
      assert body == Text(e, false);
      AndStops(buf, x, end, depth, 0);
      ChainParses(buf, p, None, e, body, depth, 0, end, x, Success((x, end)));
      ChainReads(buf, p, end, depth, x);
    }
  }

  lemma AndExprFrom(buf: string, p: nat, depth: int, pending: nat)
    ensures AndExpr(buf, p, depth, pending) == AndFrom(buf, None, p, depth, pending)
  {
  }

  /** A single chain, read as one level. */
  lemma ChainReads(buf: string, p: nat, end: nat, depth: int, x: Expr)
    requires end <= |buf|
    requires AndFrom(buf, None, p, depth, 0) == Success((x, end))
    requires !LexOperator(buf, end, depth).tok.OPR?
    ensures OrExpr(buf, p, depth) == Success((x, end))
  {
    AndExprFrom(buf, p, depth, 0);
  }

  // ----- The round trip -----

  lemma {:induction false} ChainEval(left: Option<Expr>, e: Expr, has: int -> bool)
    ensures Eval(Chain(left, e), has) == ((left.Some? ==> Eval(left.value, has)) && Eval(e, has))
    decreases e, 1
  {
    if e.Bin? && e.op.AND? {
      ChainEval(left, e.a, has);
      ChainEval(Some(Chain(left, e.a)), e.b, has);
    } else {
      AtomEval(e, has);
    }
  }

  lemma {:induction false} AtomEval(e: Expr, has: int -> bool)
    requires !(e.Bin? && e.op.AND?)
    ensures Eval(Atom(e), has) == Eval(e, has)
    decreases e, 0
  {
    match e {
      case Val(_) =>
      case Not(x) => ChainEval(None, x, has);
      case Bin(_, a, b) => ChainEval(None, a, has); ChainEval(None, b, has);
    }
  }

  lemma {:induction false} ChainText(left: Option<Expr>, e: Expr)
    ensures Text(Chain(left, e), false) == (if left.Some? then Text(left.value, false) + " & " else "") + Text(e, false)
    ensures left.None? ==> Text(Chain(left, e), true) == Text(e, true)
    decreases e, 1
  {
    if e.Bin? && e.op.AND? {
      ChainText(left, e.a);
      ChainText(Some(Chain(left, e.a)), e.b);
      ChainSome(Chain(left, e.a), e.b);
    } else {
      AtomText(e);
    }
  }

  lemma {:induction false} AtomText(e: Expr)
    requires !(e.Bin? && e.op.AND?)
    ensures Text(Atom(e), false) == Text(e, false) && Text(Atom(e), true) == Text(e, true)
    decreases e, 0
  {
    match e {
      case Val(_) =>
      case Not(x) =>
        ChainText(None, x);
        ChainVal(x);
      case Bin(_, a, b) =>
        ChainText(None, a);
        ChainText(None, b);
    }
  }

  lemma ChainVal(x: Expr)
    ensures !x.Val? ==> !Whole(x).Val?
  {
    if x.Bin? && x.op.AND? {
      ChainSome(Chain(None, x.a), x.b);
      assert Whole(x) == Chain(Some(Chain(None, x.a)), x.b);
    } else {
      assert Whole(x) == Atom(x);
    }
  }

  lemma {:induction false} ChainSome(left: Expr, e: Expr)
    ensures Chain(Some(left), e).Bin? && Chain(Some(left), e).op.AND?
    decreases e
  {
    if e.Bin? && e.op.AND? {
      ChainSome(Chain(Some(left), e.a), e.b);
    }
  }

  /** What a printed query is read back as. */
  lemma ReadBack(e: Expr)
    requires AllInt32(e)
    ensures Meaning(Text(e, true)) == Success(Whole(e))
  {
    var buf := Text(e, true);
    assert buf[0..0 + |buf|] == buf;
    assert LexOperator(buf, |buf|, 0).tok == END;
    WholeParses(buf, 0, e, buf, |buf|, Whole(e), 0);
  }

  /** Printing a query and reading the text back is accepted, never runs out of operator
      stack, keeps the value on every array, and prints as the same text again. */
  lemma PrintParse(e: Expr, has: int -> bool)
    requires AllInt32(e)
    ensures Meaning(Text(e, true)).Success?
    ensures var e' := Meaning(Text(e, true)).value;
      Eval(e', has) == Eval(e, has) && Text(e', true) == Text(e, true)
  {
    ReadBack(e);
    ChainEval(None, e, has);
    ChainText(None, e);
  }
}
