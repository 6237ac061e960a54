/** intarray/_int_bool.c: the operator-precedence compiler from query text to postfix items
    with back links, and the evaluator over those items. */
module QueryCompiler {
  import opened Wrappers
  import opened Query

  /** An item of the polish notation under construction. */
  datatype Node = ValNode(val: int) | OprNode(op: char)

  // ----- Postfix -----

  /** The number of values and operators. */
  function Size(e: Expr): (n: int)
    ensures n > 0
  {
    match e
    case Val(_) => 1
    case Not(x) => Size(x) + 1
    case Bin(_, a, b) => Size(a) + Size(b) + 1
  }

  function Postfix(e: Expr): (r: seq<Node>)
    ensures |r| == Size(e)
  {
    match e
    case Val(v) => [ValNode(v)]
    case Not(x) => Postfix(x) + [OprNode('!')]
    case Bin(op, a, b) => Postfix(a) + Postfix(b) + [OprNode(op.Symbol())]
  }

  // ----- The tokenizer -----

  datatype LexState = WAITOPERAND | WAITENDOPERAND | WAITOPERATOR

  class WorkState {
    const buf: string
    var pos: nat
    var state: LexState
    var count: int
    // the nodes pushed so far, oldest first
    var str: seq<Node>

    constructor (text: string)
      ensures buf == text && pos == 0 && state == WAITOPERAND && count == 0 && str == []
    {
      buf := text;
      pos, state, count, str := 0, WAITOPERAND, 0, [];
    }

    /** Get one token.  After an error nothing is read again. */
    method GetToken() returns (tok: Token)
      requires state != WAITENDOPERAND
      modifies `pos, `state, `count
      ensures var l := if old(state) == WAITOPERAND then LexOperand(buf, old(pos), old(count))
                       else LexOperator(buf, old(pos), old(count));
        tok == l.tok && (tok != ERR ==> pos == l.next && count == l.depth)
      ensures tok.OPR? || tok == OPEN ==> state == WAITOPERAND
      ensures tok.VAL? || tok == CLOSE || tok == END ==> state == WAITOPERATOR
    {
      if state == WAITOPERAND {
        tok := GetOperand();
      } else {
        tok := GetOperator();
      }
    }

    method GetOperand() returns (tok: Token)
      requires state == WAITOPERAND
      modifies `pos, `state, `count
      ensures var l := LexOperand(buf, old(pos), old(count));
        tok == l.tok && (tok != ERR ==> pos == l.next && count == l.depth)
      ensures tok != ERR ==> state == if tok.VAL? then WAITOPERATOR else WAITOPERAND
    {
      while At(buf, pos) == ' '
        invariant SkipSpaces(buf, pos) == SkipSpaces(buf, old(pos))
        invariant count == old(count) && state == WAITOPERAND
        decreases |buf| - pos
      {
        pos := pos + 1;
      }
      if IsDigit(At(buf, pos)) || At(buf, pos) == '-' {
        state := WAITENDOPERAND;
        tok := GetNumber();
      } else if At(buf, pos) == '!' {
        pos := pos + 1;
        tok := OPR('!');
      } else if At(buf, pos) == '(' {
        count := count + 1;
        pos := pos + 1;
        tok := OPEN;
      } else {
        tok := ERR;
      }
    }

    /** Collect the digits of a number, whose first character is at pos. */
    method GetNumber() returns (tok: Token)
      requires state == WAITENDOPERAND && pos < |buf|
      modifies `pos, `state
      ensures var l := LexNumber(buf, old(pos), count);
        tok == l.tok && (tok != ERR ==> pos == l.next)
      ensures tok != ERR ==> state == WAITOPERATOR
    {
      ghost var start := pos;
      var nnn := [buf[pos]];
      pos := pos + 1;
      while |nnn| < NUMBER_BUFFER && IsDigit(At(buf, pos))
        invariant start < pos <= |buf| && nnn == buf[start..pos] && |nnn| <= NUMBER_BUFFER
        invariant SkipDigits(buf, pos) == SkipDigits(buf, start + 1)
        decreases |buf| - pos
      {
        nnn := nnn + [buf[pos]];
        pos := pos + 1;
      }
      if |nnn| >= NUMBER_BUFFER {
        return ERR;
      }
      var lval := Strtol(nnn);
      if !IsInt32(lval) {
        return ERR;
      }
      state := WAITOPERATOR;
      tok := if count != 0 && At(buf, pos) == '\0' then ERR else VAL(lval);
    }

    method GetOperator() returns (tok: Token)
      requires state == WAITOPERATOR
      modifies `pos, `state, `count
      ensures var l := LexOperator(buf, old(pos), old(count));
        tok == l.tok && (tok != ERR ==> pos == l.next && count == l.depth)
      ensures state == if tok.OPR? then WAITOPERAND else WAITOPERATOR
    {
      while At(buf, pos) == ' '
        invariant SkipSpaces(buf, pos) == SkipSpaces(buf, old(pos))
        invariant count == old(count) && state == WAITOPERATOR
        decreases |buf| - pos
      {
        pos := pos + 1;
      }
      var c := At(buf, pos);
      if c == '&' || c == '|' {
        state := WAITOPERAND;
        pos := pos + 1;
        tok := OPR(c);
      } else if c == ')' {
        pos := pos + 1;
        count := count - 1;
        tok := if count < 0 then ERR else CLOSE;
      } else if c == '\0' {
        tok := if count != 0 then ERR else END;
      } else {
        tok := ERR;
      }
    }

    /** Push one more node of the polish notation. */
    method PushQuery(n: Node)
      modifies `str
      ensures str == old(str) + [n]
    {
      str := str + [n];
    }

    /** Pop and push the operators that bind the operand just completed. */
    method PopTight(stack: array<char>, lenstack: nat, ghost orPending: bool, ghost andPending: bool, ghost nots: nat)
        returns (left: nat)
      requires lenstack <= stack.Length && stack[..lenstack] == StackOf(orPending, andPending, nots)
      modifies `str
      ensures left == (if orPending then 1 else 0)
      ensures str == old(str) + Bangs(nots) + (if andPending then [OprNode('&')] else [])
    {
      left := lenstack;
      ghost var n: nat, a: bool := nots, andPending;
      StackShape(orPending, a, n);
      while left > 0 && (stack[left - 1] == '&' || stack[left - 1] == '!')
        invariant left <= lenstack && stack[..left] == StackOf(orPending, a, n)
        invariant n <= nots && (a == andPending || (andPending && n == 0))
        invariant str == old(str) + Bangs(nots - n) + (if andPending && !a then [OprNode('&')] else [])
        decreases left
      {
        StackShape(orPending, a, n);
        assert stack[left - 1] == stack[..left][left - 1];
        left := left - 1;
        PushQuery(OprNode(stack[left]));
        assert stack[..left] == stack[..left + 1][..left];
        if n > 0 {
          n := n - 1;
        } else {
          a := false;
        }
      }
      StackShape(orPending, a, n);
      assert left > 0 ==> stack[left - 1] == stack[..left][left - 1];
    }

    /** A level between two tokens: what it has set aside, the `&` chain completed so far if
        an operator is due, and the result it is bound for. */
    ghost predicate Between(left: Pending, cur: Option<Expr>, goal: Parsed, depth: int, before: seq<Node>)
      reads this
    {
      && state == (if cur.None? then WAITOPERAND else WAITOPERATOR)
      && count == depth && pos <= |buf|
      && goal == Rest(buf, left, cur, pos, depth)
      && str == before + left.Pushed() + CurPushed(cur)
      && (cur.Some? ==> left.andLeft == None && left.nots == 0)
    }

    /** The same level just after reading tok at position p. */
    ghost predicate Read(tok: Token, p: nat, left: Pending, cur: Option<Expr>, goal: Parsed, depth: int, before: seq<Node>)
      reads this
    {
      && p <= |buf| && goal == Rest(buf, left, cur, p, depth)
      && str == before + left.Pushed() + CurPushed(cur)
      && (cur.Some? ==> left.andLeft == None && left.nots == 0)
      && (if cur.None? then LexOperand(buf, p, depth) else LexOperator(buf, p, depth)).tok == tok
      && (tok != ERR ==>
            (if cur.None? then LexOperand(buf, p, depth) else LexOperator(buf, p, depth)) == Lexeme(tok, pos, count))
      && (tok.OPR? || tok == OPEN ==> state == WAITOPERAND)
      && (tok.VAL? || tok == CLOSE || tok == END ==> state == WAITOPERATOR)
    }

    /** An operand is complete: release the operators that bind it. */
    method OperandDone(stack: array<char>, lenstack: nat, ghost p: nat, ghost left: Pending, ghost e: Expr,
                       ghost goal: Parsed, ghost depth: int, ghost before: seq<Node>)
        returns (lenstack': nat, ghost left': Pending, ghost cur: Option<Expr>)
      requires lenstack <= stack.Length && stack[..lenstack] == left.Stack()
      requires state == WAITOPERATOR && count == depth && pos <= |buf|
      requires Operand(buf, p, depth, |left.Stack()|) == Success((e, pos))
      requires goal == RestOperand(buf, left, p, depth)
      requires str == before + left.Pushed() + Postfix(e)
      modifies `str
      ensures cur.Some? && Between(left', cur, goal, depth, before)
      ensures lenstack' <= lenstack && stack[..lenstack'] == left'.Stack()
    {
      StepOperand(buf, left, p, depth, e, pos);
      cur := Some(JoinAnd(left.andLeft, Negate(left.nots, e)));
      left' := Pending(left.orLeft, None, 0);
      PostfixJoin(left, e);
      lenstack' := PopTight(stack, lenstack, left.orLeft.Some?, left.andLeft.Some?, left.nots);
      StackShape(left.orLeft.Some?, left.andLeft.Some?, left.nots);
      assert stack[..lenstack'] == stack[..lenstack][..lenstack'];
      Regroup(before, left.Pushed(), Postfix(e), Bangs(left.nots), if left.andLeft.Some? then [OprNode('&')] else []);
      Regroup(before, left'.Pushed(), Postfix(cur.value), [], []);
    }

    method OnValue(v: int, stack: array<char>, lenstack: nat, ghost p: nat, ghost left: Pending, ghost cur: Option<Expr>,
                   ghost goal: Parsed, ghost depth: int, ghost before: seq<Node>)
        returns (lenstack': nat, ghost left': Pending, ghost cur': Option<Expr>)
      requires Read(VAL(v), p, left, cur, goal, depth, before)
      requires lenstack <= stack.Length && stack[..lenstack] == left.Stack()
      modifies `str
      ensures Between(left', cur', goal, depth, before) && p < pos
      ensures lenstack' <= lenstack && stack[..lenstack'] == left'.Stack()
    {
      TokenBounds(buf, p, depth);
      PushQuery(ValNode(v));
      lenstack', left', cur' := OperandDone(stack, lenstack, p, left, Val(v), goal, depth, before);
    }

    /** An operator arrives: `|` over a pending `|` is pushed at once, anything else waits on
        the stack, if it fits. */
    method PushOperator(c: char, stack: array<char>, lenstack: nat)
        returns (r: Result<nat, Error>)
      requires stack.Length == STACKDEPTH && lenstack <= STACKDEPTH
      modifies `str, stack
      ensures var atOnce := lenstack > 0 && c == '|';
        && str == old(str) + (if atOnce then [OprNode(c)] else [])
        && (r.Failure? <==> !atOnce && lenstack == STACKDEPTH)
        && (r.Failure? ==> r.error == TooComplex)
        && (r.Success? ==> r.value <= STACKDEPTH)
        && (r.Success? ==> stack[..r.value] == old(stack[..lenstack]) + (if atOnce then [] else [c]))
    {
      if lenstack > 0 && c == '|' {
        PushQuery(OprNode(c));
        return Success(lenstack);
      }
      if lenstack == STACKDEPTH {
        return Failure(TooComplex);
      }
      stack[lenstack] := c;
      return Success(lenstack + 1);
    }

    method OnOperator(c: char, stack: array<char>, lenstack: nat, ghost p: nat, ghost left: Pending,
                      ghost cur: Option<Expr>, ghost goal: Parsed, ghost depth: int, ghost before: seq<Node>)
        returns (r: Result<nat, Error>, ghost left': Pending)
      requires Read(OPR(c), p, left, cur, goal, depth, before)
      requires stack.Length == STACKDEPTH && lenstack <= STACKDEPTH && stack[..lenstack] == left.Stack()
      modifies `str, stack
      ensures r.Failure? ==> goal == Failure(r.error)
      ensures r.Success? ==> r.value <= STACKDEPTH && stack[..r.value] == left'.Stack()
      ensures r.Success? ==> Between(left', None, goal, depth, before) && p < pos
    {
      OperatorEffect(buf, left, cur, c, p, depth, pos, before);
      left' := After(left, cur, c);
      r := PushOperator(c, stack, lenstack);
    }

    /** The level ends: push what is left on the stack. */
    method PopAll(stack: array<char>, lenstack: nat, ghost orLeft: Option<Expr>, ghost cur: Expr, ghost before: seq<Node>)
      requires lenstack <= stack.Length && stack[..lenstack] == StackOf(orLeft.Some?, false, 0)
      requires str == before + Pending(orLeft, None, 0).Pushed() + Postfix(cur)
      modifies `str
      ensures str == before + Postfix(JoinOr(orLeft, cur))
    {
      StackShape(orLeft.Some?, false, 0);
      PushedJoinOr(orLeft, cur);
      ghost var pushed, bar := Pending(orLeft, None, 0).Pushed(), if orLeft.Some? then [OprNode('|')] else [];
      var n: nat := lenstack;
      while n > 0
        invariant n <= lenstack
        invariant str == old(str) + if n < lenstack then [OprNode('|')] else []
      {
        n := n - 1;
        assert stack[n] == stack[..lenstack][n];
        PushQuery(OprNode(stack[n]));
      }
      Regroup(before, pushed, Postfix(cur), bar, []);
    }

    method OnEnd(stack: array<char>, lenstack: nat, ghost tok: Token, ghost p: nat, ghost left: Pending, ghost cur: Option<Expr>,
                 ghost goal: Parsed, ghost depth: int, ghost before: seq<Node>)
      requires tok == CLOSE || tok == END
      requires Read(tok, p, left, cur, goal, depth, before)
      requires lenstack <= stack.Length && stack[..lenstack] == left.Stack()
      modifies `str
      ensures goal.Success? && goal.value.1 == p && str == before + Postfix(goal.value.0)
      ensures LexOperator(buf, p, depth) == Lexeme(tok, pos, count) && state == WAITOPERATOR
      ensures p <= pos <= |buf|
    {
      TokenBounds(buf, p, depth);
      StepStop(buf, left.orLeft, cur.value, p, depth);
      PopAll(stack, lenstack, left.orLeft, cur.value, before);
    }

    /** A parenthesis was opened: compile the level inside it, which is one operand. */
    method Parenthesised(stack: array<char>, lenstack: nat, ghost p: nat, ghost left: Pending, ghost cur: Option<Expr>,
                         ghost goal: Parsed, ghost depth: int, ghost before: seq<Node>)
        returns (r: Result<nat, Error>, ghost left': Pending, ghost cur': Option<Expr>)
      requires depth >= 0 && Read(OPEN, p, left, cur, goal, depth, before)
      requires stack.Length == STACKDEPTH && lenstack <= STACKDEPTH && stack[..lenstack] == left.Stack()
      modifies `pos, `state, `count, `str
      ensures r.Failure? ==> goal == Failure(r.error)
      ensures r.Success? ==> r.value <= STACKDEPTH && stack[..r.value] == left'.Stack()
      ensures r.Success? ==> Between(left', cur', goal, depth, before) && old(pos) <= pos
      decreases |buf| - p, 0
    {
      left', cur' := left, cur;
      TokenBounds(buf, p, depth);
      ghost var level := Level(buf, pos, count);
      StepOpen(buf, p, depth, |left.Stack()|, level);
      var inner := MakePol();
      if inner.Failure? {
        return Failure(inner.error), left', cur';
      }
      var n;
      n, left', cur' := OperandDone(stack, lenstack, p, left, level.value.0, goal, depth, before);
      r := Success(n);
    }

    /** Make the polish notation of one parser level: up to the end of the text, or up to
        the parenthesis that closes the level. */
    method MakePol() returns (r: Result<(), Error>)
      requires state == WAITOPERAND && count >= 0 && pos <= |buf|
      modifies `pos, `state, `count, `str
      ensures var level := Level(buf, old(pos), old(count));
        && (level.Failure? ==> r == Failure(level.error))
        && (level.Success? ==> r == Success(()) && Compiled(level.value, old(str)) && old(pos) <= pos)
      decreases |buf| - pos, 1
    {
      var stack := new char[STACKDEPTH];
      var lenstack: nat := 0;
      ghost var depth, before := count, str;
      ghost var goal := OrExpr(buf, pos, depth);
      ghost var left, cur: Option<Expr> := Pending(None, None, 0), None;
      StartLevel(buf, pos, depth);
      while true
        invariant old(pos) <= pos
        invariant lenstack <= STACKDEPTH && stack[..lenstack] == left.Stack()
        invariant Between(left, cur, goal, depth, before)
        decreases |buf| - pos
      {
        ghost var p := pos;
        TokenBounds(buf, p, depth);
        var tok := GetToken();
        assert Read(tok, p, left, cur, goal, depth, before);
        match tok
        case VAL(v) =>
          lenstack, left, cur := OnValue(v, stack, lenstack, p, left, cur, goal, depth, before);
        case OPR(c) =>
          var pushed;
          pushed, left := OnOperator(c, stack, lenstack, p, left, cur, goal, depth, before);
          if pushed.Failure? {
            return Failure(pushed.error);
          }
          lenstack, cur := pushed.value, None;
        case OPEN =>
          var inner;
          inner, left, cur := Parenthesised(stack, lenstack, p, left, cur, goal, depth, before);
          if inner.Failure? {
            return Failure(inner.error);
          }
          lenstack := inner.value;
        case CLOSE =>
          OnEnd(stack, lenstack, tok, p, left, cur, goal, depth, before);
          return Success(());
        case END =>
          OnEnd(stack, lenstack, tok, p, left, cur, goal, depth, before);
          return Success(());
        case ERR =>
          StepError(buf, left, cur, p, depth);
          return Failure(SyntaxError);
      }
    }

    /** A finished level has pushed its expression and stands after its last token. */
    ghost predicate Compiled(level: (Expr, nat, int), before: seq<Node>)
      reads this
    {
      && str == before + Postfix(level.0)
      && pos == level.1 <= |buf| && count == level.2 && state == WAITOPERATOR
    }
  }

  function CurPushed(cur: Option<Expr>): seq<Node> {
    if cur.Some? then Postfix(cur.value) else []
  }

  // ----- The operator stack -----

  /** What a parser level's stack holds while an operand is awaited: at most one `|`, then at
      most one `&`, then the negations. */
  function StackOf(orPending: bool, andPending: bool, nots: nat): seq<char> {
    (if orPending then ['|'] else []) + (if andPending then ['&'] else []) + seq(nots, _ => '!')
  }

  function Bangs(n: nat): seq<Node> {
    seq(n, _ => OprNode('!'))
  }

  lemma StackShape(orPending: bool, andPending: bool, nots: nat)
    ensures var s := StackOf(orPending, andPending, nots);
      && |s| == (if orPending then 1 else 0) + (if andPending then 1 else 0) + nots
      && (nots > 0 ==> s[|s| - 1] == '!' && s[..|s| - 1] == StackOf(orPending, andPending, nots - 1))
      && (nots == 0 && andPending ==> s[|s| - 1] == '&' && s[..|s| - 1] == StackOf(orPending, false, 0))
      && (nots == 0 && !andPending && orPending ==> s == ['|'])
  {
  }

  // ----- One parser level against the recursive descent -----

  /** A level's expression, the position after it, and the depth there. */
  function Level(buf: string, p: nat, depth: int): Result<(Expr, nat, int), Error> {
    var x :- OrExpr(buf, p, depth);
    var k := LexOperator(buf, x.1, depth);
    if k.tok == CLOSE || k.tok == END then Success((x.0, k.next, k.depth)) else Failure(SyntaxError)
  }

  /** What a level has completed and set aside while it waits for an operand: the left side
      of a pending `|`, the left side of a pending `&`, and a number of negations. */
  datatype Pending = Pending(orLeft: Option<Expr>, andLeft: Option<Expr>, nots: nat)
  {
    function Stack(): seq<char> {
      StackOf(orLeft.Some?, andLeft.Some?, nots)
    }

    /** Nodes already pushed. */
    function Pushed(): seq<Node> {
      (if orLeft.Some? then Postfix(orLeft.value) else []) + (if andLeft.Some? then Postfix(andLeft.value) else [])
    }
  }

  function Negate(n: nat, e: Expr): Expr {
    if n == 0 then e else Not(Negate(n - 1, e))
  }

  function JoinAnd(left: Option<Expr>, e: Expr): Expr {
    if left.Some? then Bin(AND, left.value, e) else e
  }

  function JoinOr(left: Option<Expr>, e: Expr): Expr {
    if left.Some? then Bin(OR, left.value, e) else e
  }

  /** The rest of a level, from a point where an operator is expected. */
  function RestOperator(buf: string, orLeft: Option<Expr>, cur: Expr, p: nat, depth: int): Parsed
    requires p <= |buf|
  {
    var x :- AndRest(buf, cur, p, depth, if orLeft.Some? then 1 else 0);
    OrRest(buf, JoinOr(orLeft, x.0), x.1, depth)
  }

  /** The rest of a level, from a point where an operand is expected. */
  function RestOperand(buf: string, left: Pending, p: nat, depth: int): Parsed {
    var x :- Operand(buf, p, depth, |left.Stack()|);
    RestOperator(buf, left.orLeft, JoinAnd(left.andLeft, Negate(left.nots, x.0)), x.1, depth)
  }

  /** The rest of a level, wherever it stands. */
  function Rest(buf: string, left: Pending, cur: Option<Expr>, p: nat, depth: int): Parsed
    requires p <= |buf|
  {
    if cur.None? then RestOperand(buf, left, p, depth) else RestOperator(buf, left.orLeft, cur.value, p, depth)
  }

  /** A bad token fails the level. */
  lemma StepError(buf: string, left: Pending, cur: Option<Expr>, p: nat, depth: int)
    requires p <= |buf|
    requires (if cur.None? then LexOperand(buf, p, depth) else LexOperator(buf, p, depth)).tok == ERR
    ensures var rest := Rest(buf, left, cur, p, depth);
      if cur.None? then rest == Failure(SyntaxError)
      else rest == Success((JoinOr(left.orLeft, cur.value), p))
  {
    if cur.Some? {
      StepStop(buf, left.orLeft, cur.value, p, depth);
    }
  }

  lemma StartLevel(buf: string, p: nat, depth: int)
    ensures OrExpr(buf, p, depth) == RestOperand(buf, Pending(None, None, 0), p, depth)
  {
    StackShape(false, false, 0);
  }

  lemma NegateInner(n: nat, e: Expr)
    ensures Negate(n, Not(e)) == Negate(n + 1, e)
  {
    if n > 0 {
      NegateInner(n - 1, e);
    }
  }

  /** A negation is pushed on the stack, if it fits. */
  lemma StepNot(buf: string, left: Pending, p: nat, depth: int)
    requires LexOperand(buf, p, depth).tok.OPR?
    ensures |left.Stack()| >= STACKDEPTH ==> RestOperand(buf, left, p, depth) == Failure(TooComplex)
    ensures |left.Stack()| < STACKDEPTH ==>
      RestOperand(buf, left, p, depth)
      == RestOperand(buf, left.(nots := left.nots + 1), LexOperand(buf, p, depth).next, depth)
  {
    StackShape(left.orLeft.Some?, left.andLeft.Some?, left.nots);
    StackShape(left.orLeft.Some?, left.andLeft.Some?, left.nots + 1);
    var n, next := |left.Stack()|, LexOperand(buf, p, depth).next;
    if n < STACKDEPTH {
      var x, y := Operand(buf, next, depth, n + 1), Operand(buf, p, depth, n);
      assert y == if x.Failure? then x else Success((Not(x.value.0), x.value.1));
      if x.Success? {
        NegateInner(left.nots, x.value.0);
      }
    }
  }

  lemma StepAnd(buf: string, orLeft: Option<Expr>, cur: Expr, p: nat, depth: int)
    requires p <= |buf| && LexOperator(buf, p, depth).tok == OPR('&')
    ensures RestOperator(buf, orLeft, cur, p, depth)
         == RestOperand(buf, Pending(orLeft, Some(cur), 0), LexOperator(buf, p, depth).next, depth)
  {
    StackShape(orLeft.Some?, true, 0);
  }

  lemma StepOr(buf: string, orLeft: Option<Expr>, cur: Expr, p: nat, depth: int)
    requires p <= |buf| && LexOperator(buf, p, depth).tok == OPR('|')
    ensures RestOperator(buf, orLeft, cur, p, depth)
         == RestOperand(buf, Pending(Some(JoinOr(orLeft, cur)), None, 0), LexOperator(buf, p, depth).next, depth)
  {
    StackShape(true, false, 0);
    var next := LexOperator(buf, p, depth).next;
    var left := JoinOr(orLeft, cur);
    assert RestOperator(buf, orLeft, cur, p, depth) == OrRest(buf, left, p, depth);
    var x, y := AndExpr(buf, next, depth, 1), Operand(buf, next, depth, 1);
    assert RestOperand(buf, Pending(Some(left), None, 0), next, depth) ==
      if y.Failure? then y else RestOperator(buf, Some(left), y.value.0, y.value.1, depth);
    assert OrRest(buf, left, p, depth) ==
      if x.Failure? then x else OrRest(buf, Bin(OR, left, x.value.0), x.value.1, depth);
  }

  /** A value, or a parenthesised query, completes the operand. */
  lemma StepOperand(buf: string, left: Pending, p: nat, depth: int, e: Expr, next: nat)
    requires Operand(buf, p, depth, |left.Stack()|) == Success((e, next))
    ensures RestOperand(buf, left, p, depth)
         == RestOperator(buf, left.orLeft, JoinAnd(left.andLeft, Negate(left.nots, e)), next, depth)
  {
  }

  /** A parenthesis opens a level of its own. */
  lemma StepOpen(buf: string, p: nat, depth: int, pending: nat, level: Result<(Expr, nat, int), Error>)
    requires depth >= 0 && LexOperand(buf, p, depth).tok == OPEN
    requires level == Level(buf, LexOperand(buf, p, depth).next, depth + 1)
    ensures level.Failure? ==> Operand(buf, p, depth, pending) == Failure(level.error)
    ensures level.Success? ==> Operand(buf, p, depth, pending) == Success((level.value.0, level.value.1))
    ensures level.Success? ==> level.value.2 == depth
  {
  }

  /** Tokens lie inside the text, and all but the last take up room. */
  lemma TokenBounds(buf: string, p: nat, depth: int)
    requires p <= |buf|
    ensures var l := LexOperand(buf, p, depth); l.tok != ERR ==> p < l.next <= |buf| && l.tok != CLOSE && l.tok != END
    ensures var l := LexOperator(buf, p, depth);
      l.tok != ERR ==> p <= l.next <= |buf| && (l.tok != END ==> p < l.next) && l.tok != OPEN && !l.tok.VAL?
  {
    var q := SkipSpaces(buf, p);
    assert q > |buf| ==> At(buf, |buf|) == ' ';
  }

  /** What is set aside after an operator. */
  function After(left: Pending, cur: Option<Expr>, c: char): Pending {
    if cur.None? then left.(nots := left.nots + 1)
    else if c == '|' then Pending(Some(JoinOr(left.orLeft, cur.value)), None, 0)
    else Pending(left.orLeft, cur, 0)
  }

  predicate AtOnce(left: Pending, c: char) {
    |left.Stack()| > 0 && c == '|'
  }

  lemma AfterStack(left: Pending, cur: Option<Expr>, c: char)
    requires cur.None? ==> c == '!'
    requires cur.Some? ==> left.andLeft == None && left.nots == 0 && (c == '&' || c == '|')
    ensures After(left, cur, c).Stack() == left.Stack() + (if AtOnce(left, c) then [] else [c])
  {
    StackShape(left.orLeft.Some?, left.andLeft.Some?, left.nots);
    StackShape(left.orLeft.Some?, left.andLeft.Some?, left.nots + 1);
  }

  lemma AfterPushed(left: Pending, cur: Option<Expr>, c: char, before: seq<Node>)
    requires cur.None? ==> c == '!'
    requires cur.Some? ==> left.andLeft == None && left.nots == 0 && (c == '&' || c == '|')
    ensures before + left.Pushed() + CurPushed(cur) + (if AtOnce(left, c) then [OprNode(c)] else [])
         == before + After(left, cur, c).Pushed() + CurPushed(None)
  {
    StackShape(left.orLeft.Some?, left.andLeft.Some?, left.nots);
    var bar := if AtOnce(left, c) then [OprNode(c)] else [];
    if cur.Some? && left.orLeft.Some? && c == '|' {
      assert Postfix(Bin(OR, left.orLeft.value, cur.value)) == Postfix(left.orLeft.value) + Postfix(cur.value) + [OprNode('|')];
    }
    assert After(left, cur, c).Pushed() == left.Pushed() + CurPushed(cur) + bar;
    Regroup(before, left.Pushed(), CurPushed(cur), bar, []);
  }

  /** Any operator: it is too much for the stack, or the level carries on from there. */
  lemma OperatorStep(buf: string, left: Pending, cur: Option<Expr>, c: char, p: nat, depth: int, next: nat)
    requires p <= |buf| && next <= |buf|
    requires cur.None? ==> LexOperand(buf, p, depth) == Lexeme(OPR(c), next, depth)
    requires cur.Some? ==> left.andLeft == None && left.nots == 0
    requires cur.Some? ==> LexOperator(buf, p, depth) == Lexeme(OPR(c), next, depth)
    ensures if !AtOnce(left, c) && |left.Stack()| >= STACKDEPTH then Rest(buf, left, cur, p, depth) == Failure(TooComplex)
      else Rest(buf, left, cur, p, depth) == Rest(buf, After(left, cur, c), None, next, depth)
  {
    if cur.None? {
      StepNot(buf, left, p, depth);
    } else {
      StackShape(left.orLeft.Some?, false, 0);
      if c == '|' {
        StepOr(buf, left.orLeft, cur.value, p, depth);
      } else {
        StepAnd(buf, left.orLeft, cur.value, p, depth);
      }
    }
  }

  lemma OperatorEffect(buf: string, left: Pending, cur: Option<Expr>, c: char, p: nat, depth: int, next: nat, before: seq<Node>)
    requires p <= |buf|
    requires cur.None? ==> LexOperand(buf, p, depth) == Lexeme(OPR(c), next, depth)
    requires cur.Some? ==> left.andLeft == None && left.nots == 0
    requires cur.Some? ==> LexOperator(buf, p, depth) == Lexeme(OPR(c), next, depth)
    ensures p < next <= |buf|
    ensures if !AtOnce(left, c) && |left.Stack()| >= STACKDEPTH then Rest(buf, left, cur, p, depth) == Failure(TooComplex)
      else Rest(buf, left, cur, p, depth) == Rest(buf, After(left, cur, c), None, next, depth)
    ensures After(left, cur, c).Stack() == left.Stack() + (if AtOnce(left, c) then [] else [c])
    ensures before + left.Pushed() + CurPushed(cur) + (if AtOnce(left, c) then [OprNode(c)] else [])
         == before + After(left, cur, c).Pushed() + CurPushed(None)
  {
    TokenBounds(buf, p, depth);
    OperatorStep(buf, left, cur, c, p, depth, next);
    AfterStack(left, cur, c);
    AfterPushed(left, cur, c, before);
  }

  /** Concatenation, regrouped once and for all. */
  lemma Regroup(a: seq<Node>, b: seq<Node>, c: seq<Node>, d: seq<Node>, e: seq<Node>)
    ensures a + b + c + d + e == a + (b + c + d + e)
    ensures e == [] ==> a + b + c + d == a + (b + c + d)
    ensures e == [] && d == [] ==> a + b + c == a + (b + c)
  {
  }

  lemma PushedJoinOr(orLeft: Option<Expr>, cur: Expr)
    ensures Postfix(JoinOr(orLeft, cur))
         == Pending(orLeft, None, 0).Pushed() + Postfix(cur) + if orLeft.Some? then [OprNode('|')] else []
  {
  }

  lemma StepStop(buf: string, orLeft: Option<Expr>, cur: Expr, p: nat, depth: int)
    requires p <= |buf| && !LexOperator(buf, p, depth).tok.OPR?
    ensures RestOperator(buf, orLeft, cur, p, depth) == Success((JoinOr(orLeft, cur), p))
  {
  }

  /** Nodes pushed for a completed operand together with the operators it releases. */
  lemma {:induction false} PostfixNegate(n: nat, e: Expr)
    ensures Postfix(Negate(n, e)) == Postfix(e) + Bangs(n)
  {
    if n > 0 {
      PostfixNegate(n - 1, e);
      assert Bangs(n) == Bangs(n - 1) + [OprNode('!')];
    }
  }

  lemma PostfixJoin(left: Pending, e: Expr)
    ensures var cur := JoinAnd(left.andLeft, Negate(left.nots, e));
      left.Pushed() + Postfix(e) + Bangs(left.nots) + (if left.andLeft.Some? then [OprNode('&')] else [])
      == left.(andLeft := None).Pushed() + Postfix(cur)
  {
    PostfixNegate(left.nots, e);
  }
}
