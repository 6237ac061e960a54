/** intarray query texts as a grammar with a meaning of its own, and that the compiler accepts
    exactly these texts. */
module QueryGrammar {
  import opened Wrappers
  import opened Query

  // ----- Numbers -----

  /** A number as it is written. */
  datatype Number = Number(minus: bool, digits: string)

  predicate Digits(s: string) {
    forall k :: 0 <= k < |s| ==> '0' <= s[k] <= '9'
  }

  function Power(base: nat, n: nat): nat {
    if n == 0 then 1 else base * Power(base, n - 1)
  }

  /** The first digit counts for as many powers of the base as digits follow it, and so on. */
  function Positional(s: string, base: nat): int {
    if s == [] then 0 else (s[0] as int - 48) * Power(base, |s| - 1) + Positional(s[1..], base)
  }

  /** The digits before the first 8 or 9. */
  function OctalDigits(s: string): (n: nat)
    ensures n <= |s|
  {
    if s == [] || s[0] == '8' || s[0] == '9' then 0 else 1 + OctalDigits(s[1..])
  }

  /** What a number is worth: digits that start with 0 are octal, and count as far as they can be
      octal; no digits are worth 0. */
  function Worth(n: Number): int {
    var s := n.digits;
    var m := if s != [] && s[0] == '0' then Positional(s[..OctalDigits(s)], 8) else Positional(s, 10);
    if n.minus then -m else m
  }

  function NumberText(n: Number): string {
    if n.minus then "-" + n.digits else n.digits
  }

  /** At most 15 characters, and an int4. */
  predicate FormedNumber(n: Number) {
    && Digits(n.digits) && 0 < |NumberText(n)| <= 15
    && -2147483648 <= Worth(n) <= 2147483647
  }

  // ----- Queries -----

  /** A query as it is written, with the number of blanks before each sign. */
  datatype Syntax =
    | Num(blanks: nat, n: Number)
    | Neg(blanks: nat, x: Syntax)
    | Par(blanks: nat, x: Syntax, close: nat)
    | Join(op: BinOp, left: Syntax, blanks: nat, right: Syntax)

  function Spaces(n: nat): (s: string)
    ensures |s| == n && forall k :: 0 <= k < n ==> s[k] == ' '
  {
    seq(n, _ => ' ')
  }

  function Sign(op: BinOp): char {
    if op.AND? then '&' else '|'
  }

  /** The text of a query, followed by rest. */
  function Write(x: Syntax, rest: string): string {
    match x
    case Num(b, n) => Spaces(b) + (NumberText(n) + rest)
    case Neg(b, y) => Spaces(b) + (['!'] + Write(y, rest))
    case Par(b, y, c) => Spaces(b) + (['('] + Write(y, Spaces(c) + ([')'] + rest)))
    case Join(op, l, b, r) => Write(l, Spaces(b) + ([Sign(op)] + Write(r, rest)))
  }

  /** `!` applies to one operand, `&` joins operands and `|` joins what `&` has joined, both from
      the left. */
  predicate Formed(x: Syntax) {
    match x
    case Num(_, n) => FormedNumber(n)
    case Neg(_, y) => !y.Join? && Formed(y)
    case Par(_, y, _) => Formed(y)
    case Join(op, l, _, r) => Formed(l) && Formed(r) && !(r.Join? && (op.AND? || r.op.OR?)) && !(op.AND? && l.Join? && l.op.OR?)
  }

  function Value(x: Syntax): Expr {
    match x
    case Num(_, n) => Expr.Val(Worth(n))
    case Neg(_, y) => Expr.Not(Value(y))
    case Par(_, y, _) => Value(y)
    case Join(op, l, _, r) => Bin(op, Value(l), Value(r))
  }

  /** With k operators waiting for x, never more than 16 wait: each `!` waits for its operand, `&`
      and `|` for their right one; parentheses start anew. */
  predicate Room(x: Syntax, k: nat) {
    match x
    case Num(_, _) => true
    case Neg(_, y) => k < 16 && Room(y, k + 1)
    case Par(_, y, _) => Room(y, 0)
    case Join(_, l, _, r) => Room(l, k) && k < 16 && Room(r, k + 1)
  }

  // ----- What digits are worth -----

  lemma PowerStep(base: nat, n: nat)
    requires n > 0
    ensures Power(base, n) == base * Power(base, n - 1)
  {
  }

  lemma Distribute(d: int, base: nat, p: int, q: int, rest: int, e: int)
    requires q == base * p && rest == base * e
    ensures d * q + rest == base * (d * p + e)
  {
    assert d * q == base * (d * p);
  }

  lemma {:induction false} PositionalAppend(s: string, c: char, base: nat)
    ensures Positional(s + [c], base) == base * Positional(s, base) + (c as int - 48)
  {
    if s == [] {
      assert ([] + [c])[1..] == [] && Power(base, 0) == 1;
    } else {
      PositionalAppend(s[1..], c, base);
      assert (s + [c])[1..] == s[1..] + [c];
      PowerStep(base, |s|);
      Distribute(s[0] as int - 48, base, Power(base, |s| - 1), Power(base, |s|), base * Positional(s[1..], base), Positional(s[1..], base));
    }
  }

  lemma {:induction false} DecimalIsPositional(s: string)
    ensures Decimal(s) == Positional(s, 10)
  {
    if s != [] {
      var t, c := s[..|s| - 1], s[|s| - 1];
      DecimalIsPositional(t);
      PositionalAppend(t, c, 10);
      assert s == t + [c];
    }
  }

  lemma {:induction false} OctalIsPositional(s: string, acc: int)
    requires Digits(s)
    ensures OctalPrefix(s, acc) == acc * Power(8, OctalDigits(s)) + Positional(s[..OctalDigits(s)], 8)
  {
    if s == [] || s[0] == '8' || s[0] == '9' {
      assert s[..0] == [] && Power(8, 0) == 1;
    } else {
      var n, d := OctalDigits(s[1..]), s[0] as int - 48;
      OctalIsPositional(s[1..], 8 * acc + d);
      assert s[..n + 1][0] == s[0] && s[..n + 1][1..] == s[1..][..n];
      OctalStep(acc, d, Power(8, n), Positional(s[1..][..n], 8));
    }
  }

  lemma OctalStep(acc: int, d: int, p: int, rest: int)
    ensures (8 * acc + d) * p + rest == acc * (8 * p) + (d * p + rest)
  {
  }

  lemma StrtolIsWorth(n: Number)
    requires Digits(n.digits)
    ensures Strtol(NumberText(n)) == Worth(n)
  {
    var s := n.digits;
    if n.minus {
      assert NumberText(n)[1..] == s;
    }
    DecimalIsPositional(s);
    OctalIsPositional(s, 0);
  }

  // ----- Texts of the grammar are read as what they stand for -----

  /** rest is what stands at position p. */
  predicate Ahead(buf: string, p: int, rest: string) {
    0 <= p <= |buf| && buf[p..] == rest
  }

  /** Where rest begins at the end of the text. */
  function Back(buf: string, rest: string): int {
    |buf| - |rest|
  }

  lemma AheadSplit(buf: string, p: nat, a: string, rest: string)
    requires Ahead(buf, p, a + rest)
    ensures Ahead(buf, p + |a|, rest) && p + |a| == Back(buf, rest)
    ensures forall k :: 0 <= k < |a| ==> At(buf, p + k) == a[k]
  {
    forall k | 0 <= k < |a|
      ensures At(buf, p + k) == a[k]
    {
      assert buf[p..][k] == (a + rest)[k];
    }
    assert buf[p + |a|..] == buf[p..][|a|..];
  }

  lemma {:induction false} SkipSpacesTo(buf: string, p: nat, q: nat)
    requires p <= q && At(buf, q) != ' ' && forall k :: p <= k < q ==> At(buf, k) == ' '
    ensures SkipSpaces(buf, p) == q
    decreases q - p
  {
    if p < q {
      SkipSpacesTo(buf, p + 1, q);
    }
  }

  lemma {:induction false} SkipDigitsAll(buf: string, p: nat, q: nat)
    requires p <= q <= |buf| && !IsDigit(At(buf, q)) && forall k :: p <= k < q ==> IsDigit(At(buf, k))
    ensures SkipDigits(buf, p) == q
    decreases q - p
  {
    if p < q {
      SkipDigitsAll(buf, p + 1, q);
    }
  }

  /** Blanks, and behind them a sign. */
  lemma BlanksThen(buf: string, p: nat, b: nat, rest: string)
    requires Ahead(buf, p, Spaces(b) + rest) && First(rest) != ' '
    ensures SkipSpaces(buf, p) == p + b == Back(buf, rest) && Ahead(buf, p + b, rest) && At(buf, p + b) == First(rest)
  {
    AheadSplit(buf, p, Spaces(b), rest);
    forall k | p <= k < p + b
      ensures At(buf, k) == ' '
    {
      assert At(buf, p + (k - p)) == Spaces(b)[k - p];
    }
    assert rest != [] ==> buf[p + b..][0] == rest[0];
    SkipSpacesTo(buf, p, p + b);
  }

  function First(rest: string): char {
    if rest == [] then '\0' else rest[0]
  }

  /** What may follow an operand. */
  predicate Follows(rest: string, depth: int) {
    var c := First(rest);
    c == ' ' || c == '&' || c == '|' || c == ')' || (c == '\0' && depth == 0)
  }

  lemma NumRead(buf: string, p: nat, b: nat, n: Number, rest: string, end: nat, depth: int, k: nat)
    requires Ahead(buf, p, Write(Num(b, n), rest)) && FormedNumber(n) && Follows(rest, depth) && Ahead(buf, end, rest)
    ensures Operand(buf, p, depth, k) == Success((Expr.Val(Worth(n)), end))
  {
    var s := NumberText(n);
    NumParts(buf, p, b, s, rest);
    LexNumRead(buf, p + b, end, n, s, rest, depth);
    NumToken(buf, p, p + b, Worth(n), end, depth, k);
  }

  lemma NumParts(buf: string, p: nat, b: nat, s: string, rest: string)
    requires Ahead(buf, p, Spaces(b) + (s + rest)) && s != [] && s[0] != ' '
    ensures SkipSpaces(buf, p) == p + b && Ahead(buf, p + b, s + rest) && p + b + |s| == Back(buf, rest)
  {
    assert First(s + rest) == s[0];
    BlanksThen(buf, p, b, s + rest);
  }

  lemma NumToken(buf: string, p: nat, q: nat, v: int, end: nat, depth: int, k: nat)
    requires SkipSpaces(buf, p) == q < |buf| && (At(buf, q) == '-' || IsDigit(At(buf, q)))
    requires LexNumber(buf, q, depth) == Lexeme(VAL(v), end, depth)
    ensures Operand(buf, p, depth, k) == Success((Expr.Val(v), end))
  {
  }

  lemma LexNumRead(buf: string, q: nat, r: nat, n: Number, s: string, rest: string, depth: int)
    requires s == NumberText(n) && FormedNumber(n) && Follows(rest, depth) && r == q + |s|
    requires Ahead(buf, q, s + rest) && Ahead(buf, r, rest)
    ensures q < |buf| && LexNumber(buf, q, depth) == Lexeme(VAL(Worth(n)), r, depth)
    ensures At(buf, q) == s[0] && (s[0] == '-' || IsDigit(s[0]))
  {
    NumberEnds(buf, q, s, rest);
    SkipDigitsAll(buf, q + 1, r);
    NumberStands(buf, q, s, rest);
    StrtolIsWorth(n);
  }

  lemma NumberStands(buf: string, q: nat, s: string, rest: string)
    requires s != [] && Ahead(buf, q, s + rest)
    ensures q + |s| <= |buf| && buf[q..q + |s|] == s && At(buf, q) == s[0]
  {
    AheadSplit(buf, q, s, rest);
    assert At(buf, q + 0) == s[0];
    assert buf[q..q + |s|] == buf[q..][..|s|];
  }

  /** After its first character a number is digits, and what follows is none. */
  lemma NumberEnds(buf: string, q: nat, s: string, rest: string)
    requires s != [] && Ahead(buf, q, s + rest) && Ahead(buf, q + |s|, rest)
    requires forall k :: 1 <= k < |s| ==> '0' <= s[k] <= '9'
    requires !('0' <= First(rest) <= '9')
    ensures !IsDigit(At(buf, q + |s|)) && At(buf, q + |s|) == First(rest)
    ensures forall k :: q + 1 <= k < q + |s| ==> IsDigit(At(buf, k))
  {
    AheadSplit(buf, q, s, rest);
    assert rest != [] ==> buf[q + |s|..][0] == rest[0];
    forall k | q + 1 <= k < q + |s|
      ensures IsDigit(At(buf, k))
    {
      assert At(buf, q + (k - q)) == s[k - q];
    }
  }

  /** A sign where an operand is due. */
  lemma OperandSign(buf: string, p: nat, b: nat, c: char, rest: string, depth: int)
    requires Ahead(buf, p, Spaces(b) + ([c] + rest)) && (c == '!' || c == '(')
    ensures LexOperand(buf, p, depth) == Lexeme(if c == '!' then OPR('!') else OPEN, Back(buf, rest), if c == '!' then depth else depth + 1)
    ensures Ahead(buf, Back(buf, rest), rest)
  {
    BlanksThen(buf, p, b, [c] + rest);
    AheadSplit(buf, p + b, [c], rest);
  }

  /** A sign where an operator is due. */
  lemma OperatorSign(buf: string, p: nat, b: nat, c: char, rest: string, depth: int)
    requires Ahead(buf, p, Spaces(b) + ([c] + rest)) && (c == '&' || c == '|' || (c == ')' && depth > 0))
    ensures LexOperator(buf, p, depth) == Lexeme(if c == ')' then CLOSE else OPR(c), Back(buf, rest), if c == ')' then depth - 1 else depth)
    ensures Ahead(buf, Back(buf, rest), rest)
  {
    BlanksThen(buf, p, b, [c] + rest);
    AheadSplit(buf, p + b, [c], rest);
  }

  lemma FollowsSign(b: nat, c: char, rest: string, depth: int)
    requires c == '&' || c == '|' || c == ')'
    ensures Follows(Spaces(b) + ([c] + rest), depth)
  {
    if b == 0 {
      assert Spaces(0) + ([c] + rest) == [c] + rest;
    }
  }

  // ----- Where a written query ends -----

  predicate EndsWith(s: string, rest: string) {
    |rest| <= |s| && s[|s| - |rest|..] == rest
  }

  lemma EndsAppend(a: string, s: string, rest: string)
    requires EndsWith(s, rest)
    ensures EndsWith(a + s, rest)
  {
    assert (a + s)[|a| + |s| - |rest|..] == s[|s| - |rest|..];
  }

  lemma EndsTransitive(s: string, t: string, rest: string)
    requires EndsWith(s, t) && EndsWith(t, rest)
    ensures EndsWith(s, rest)
  {
    assert s[|s| - |rest|..] == s[|s| - |t|..][|t| - |rest|..];
  }

  lemma EndsSigned(b: nat, c: string, rest: string)
    ensures EndsWith(Spaces(b) + (c + rest), rest)
  {
    EndsAppend(c, rest, rest);
    EndsAppend(Spaces(b), c + rest, rest);
  }

  /** A written query is followed by rest indeed. */
  lemma {:induction false} WriteEnds(x: Syntax, rest: string)
    ensures EndsWith(Write(x, rest), rest)
  {
    match x
    case Num(b, n) =>
      EndsSigned(b, NumberText(n), rest);
    case Neg(b, y) =>
      WriteEnds(y, rest);
      EndsSigned(b, ['!'], Write(y, rest));
      EndsTransitive(Write(x, rest), Write(y, rest), rest);
    case Par(b, y, c) =>
      var close := Spaces(c) + ([')'] + rest);
      EndsSigned(c, [')'], rest);
      WriteEnds(y, close);
      EndsSigned(b, ['('], Write(y, close));
      EndsTransitive(Write(x, rest), Write(y, close), close);
      EndsTransitive(Write(x, rest), close, rest);
    case Join(op, l, b, r) =>
      var right := Spaces(b) + ([Sign(op)] + Write(r, rest));
      WriteEnds(r, rest);
      EndsSigned(b, [Sign(op)], Write(r, rest));
      EndsTransitive(right, Write(r, rest), rest);
      WriteEnds(l, right);
      EndsTransitive(Write(x, rest), right, rest);
  }

  lemma AheadEnd(buf: string, p: nat, s: string, rest: string)
    requires Ahead(buf, p, s) && EndsWith(s, rest)
    ensures Ahead(buf, Back(buf, rest), rest)
  {
    assert buf[Back(buf, rest)..] == buf[p..][|s| - |rest|..];
  }

  // ----- Reading is what it should be -----

  /** What reading an operand, or a chain, of the grammar should give. */
  function Expected(x: Syntax, k: nat, q: nat): Parsed {
    if Room(x, k) then Success((Value(x), q)) else Failure(TooComplex)
  }

  lemma NegRead(buf: string, p: nat, x: Syntax, q: nat, end: nat, depth: int, k: nat)
    requires x.Neg? && q <= |buf| && LexOperand(buf, p, depth) == Lexeme(OPR('!'), q, depth)
    requires k < 16 ==> Operand(buf, q, depth, k + 1) == Expected(x.x, k + 1, end)
    ensures Operand(buf, p, depth, k) == Expected(x, k, end)
  {
  }

  lemma ParRead(buf: string, p: nat, x: Syntax, q: nat, r: nat, end: nat, depth: int, k: nat)
    requires x.Par? && q <= |buf| && LexOperand(buf, p, depth) == Lexeme(OPEN, q, depth + 1)
    requires LexOperator(buf, r, depth + 1) == Lexeme(CLOSE, end, depth)
    requires OrExpr(buf, q, depth + 1) == Expected(x.x, 0, r)
    ensures Operand(buf, p, depth, k) == Expected(x, k, end)
  {
  }

  /** What a chain should lead on to, at the level of `&`. */
  function AndOn(buf: string, x: Syntax, q: nat, depth: int, k: nat): Parsed
    requires q <= |buf|
  {
    if Room(x, k) then AndRest(buf, Value(x), q, depth, k) else Failure(TooComplex)
  }

  /** The same at the level of `|`. */
  function OrOn(buf: string, x: Syntax, q: nat, depth: int): Parsed
    requires q <= |buf|
  {
    if Room(x, 0) then OrRest(buf, Value(x), q, depth) else Failure(TooComplex)
  }

  lemma AndJoinRead(buf: string, p: nat, x: Syntax, m: nat, q: nat, end: nat, depth: int, k: nat)
    requires x.Join? && x.op.AND? && k < 16 && m <= |buf| && end <= |buf|
    requires LexOperator(buf, m, depth) == Lexeme(OPR('&'), q, depth)
    requires AndExpr(buf, p, depth, k) == AndOn(buf, x.left, m, depth, k)
    requires Operand(buf, q, depth, k + 1) == Expected(x.right, k + 1, end)
    ensures AndExpr(buf, p, depth, k) == AndOn(buf, x, end, depth, k)
  {
    if Room(x.left, k) {
      AndRestStep(buf, Value(x.left), m, q, Operand(buf, q, depth, k + 1), depth, k);
    }
  }

  lemma AndRestStep(buf: string, left: Expr, m: nat, q: nat, r: Parsed, depth: int, k: nat)
    requires m <= |buf| && LexOperator(buf, m, depth) == Lexeme(OPR('&'), q, depth) && r == Operand(buf, q, depth, k + 1)
    ensures AndRest(buf, left, m, depth, k)
         == if r.Success? then AndRest(buf, Bin(AND, left, r.value.0), r.value.1, depth, k) else Failure(r.error)
  {
  }

  lemma OrJoinRead(buf: string, p: nat, x: Syntax, m: nat, q: nat, end: nat, depth: int)
    requires x.Join? && x.op.OR? && m <= |buf| && end <= |buf|
    requires LexOperator(buf, m, depth) == Lexeme(OPR('|'), q, depth)
    requires OrExpr(buf, p, depth) == OrOn(buf, x.left, m, depth)
    requires AndExpr(buf, q, depth, 1) == Expected(x.right, 1, end)
    ensures OrExpr(buf, p, depth) == OrOn(buf, x, end, depth)
  {
    if Room(x.left, 0) {
      OrRestStep(buf, Value(x.left), m, q, AndExpr(buf, q, depth, 1), depth);
    }
  }

  lemma OrRestStep(buf: string, left: Expr, m: nat, q: nat, r: Parsed, depth: int)
    requires m <= |buf| && LexOperator(buf, m, depth) == Lexeme(OPR('|'), q, depth) && r == AndExpr(buf, q, depth, 1)
    ensures OrRest(buf, left, m, depth)
         == if r.Success? then OrRest(buf, Bin(OR, left, r.value.0), r.value.1, depth) else Failure(r.error)
  {
  }

  /** No further `&` follows. */
  predicate NoAnd(buf: string, q: nat, depth: int) {
    LexOperator(buf, q, depth).tok != OPR('&')
  }

  predicate NoOperator(buf: string, q: nat, depth: int) {
    !LexOperator(buf, q, depth).tok.OPR?
  }

  /** A whole chain of `&`. */
  lemma AndWhole(buf: string, p: nat, x: Syntax, end: nat, depth: int, k: nat)
    requires end <= |buf| && AndExpr(buf, p, depth, k) == AndOn(buf, x, end, depth, k) && NoAnd(buf, end, depth)
    ensures AndExpr(buf, p, depth, k) == Expected(x, k, end)
  {
  }

  lemma OrWhole(buf: string, p: nat, x: Syntax, end: nat, depth: int)
    requires end <= |buf| && OrExpr(buf, p, depth) == OrOn(buf, x, end, depth) && NoOperator(buf, end, depth)
    ensures OrExpr(buf, p, depth) == Expected(x, 0, end)
  {
  }

  lemma {:induction false} OperandReads(buf: string, p: nat, x: Syntax, rest: string, end: nat, depth: int, k: nat)
    requires Formed(x) && !x.Join? && Ahead(buf, p, Write(x, rest)) && Ahead(buf, end, rest)
    requires Follows(rest, depth) && depth >= 0
    ensures Operand(buf, p, depth, k) == Expected(x, k, end)
    decreases x, 2
  {
    match x
    case Num(b, n) =>
      NumRead(buf, p, b, n, rest, end, depth, k);
    case Neg(b, y) =>
      NegParts(buf, p, x, rest);
      if k < 16 {
        OperandReads(buf, Back(buf, Write(y, rest)), y, rest, end, depth, k + 1);
      }
      OperandSign(buf, p, b, '!', Write(y, rest), depth);
      NegRead(buf, p, x, Back(buf, Write(y, rest)), end, depth, k);
    case Par(b, y, c) =>
      ParReads(buf, p, x, Spaces(c) + ([')'] + rest), rest, end, depth, k);
  }

  lemma {:induction false} ParReads(buf: string, p: nat, x: Syntax, close: string, rest: string, end: nat, depth: int, k: nat)
    requires Formed(x) && x.Par? && Ahead(buf, p, Write(x, rest)) && Ahead(buf, end, rest)
    requires close == Spaces(x.close) + ([')'] + rest) && depth >= 0
    ensures Operand(buf, p, depth, k) == Expected(x, k, end)
    decreases x, 1
  {
    var inside, r := Write(x.x, close), Back(buf, close);
    ParParts(buf, p, x, inside, close, rest);
    InsideReads(buf, Back(buf, inside), x.x, x.close, close, rest, r, depth + 1);
    OperandSign(buf, p, x.blanks, '(', inside, depth);
    OperatorSign(buf, r, x.close, ')', rest, depth + 1);
    ParRead(buf, p, x, Back(buf, inside), r, end, depth, k);
  }

  lemma {:induction false} InsideReads(buf: string, q: nat, y: Syntax, c: nat, close: string, rest: string, r: nat, depth: int)
    requires Formed(y) && Ahead(buf, q, Write(y, close)) && Ahead(buf, r, close) && close == Spaces(c) + ([')'] + rest) && depth > 0
    ensures OrExpr(buf, q, depth) == Expected(y, 0, r)
    decreases y, 5
  {
    FollowsSign(c, ')', rest, depth);
    ParEnds(buf, r, c, close, rest, depth);
    OrReads(buf, q, y, close, r, depth);
    OrWhole(buf, q, y, r, depth);
  }

  lemma NegParts(buf: string, p: nat, x: Syntax, rest: string)
    requires x.Neg? && Ahead(buf, p, Write(x, rest))
    ensures Ahead(buf, Back(buf, Write(x.x, rest)), Write(x.x, rest))
  {
    EndsSigned(x.blanks, ['!'], Write(x.x, rest));
    AheadEnd(buf, p, Write(x, rest), Write(x.x, rest));
  }

  lemma ParParts(buf: string, p: nat, x: Syntax, inside: string, close: string, rest: string)
    requires x.Par? && Ahead(buf, p, Write(x, rest)) && close == Spaces(x.close) + ([')'] + rest) && inside == Write(x.x, close)
    ensures Ahead(buf, Back(buf, inside), inside) && Ahead(buf, Back(buf, close), close)
  {
    EndsSigned(x.blanks, ['('], inside);
    AheadEnd(buf, p, Write(x, rest), inside);
    WriteEnds(x.x, close);
    AheadEnd(buf, Back(buf, inside), inside, close);
  }

  lemma ParEnds(buf: string, r: nat, c: nat, close: string, rest: string, depth: int)
    requires Ahead(buf, r, close) && close == Spaces(c) + ([')'] + rest) && depth > 0
    ensures NoOperator(buf, r, depth)
  {
    OperatorSign(buf, r, c, ')', rest, depth);
  }

  lemma {:induction false} AndReads(buf: string, p: nat, x: Syntax, rest: string, end: nat, depth: int, k: nat)
    requires Formed(x) && !(x.Join? && x.op.OR?) && Ahead(buf, p, Write(x, rest)) && Ahead(buf, end, rest)
    requires Follows(rest, depth) && depth >= 0 && k <= 1
    ensures AndExpr(buf, p, depth, k) == AndOn(buf, x, end, depth, k)
    decreases x, 3
  {
    if x.Join? {
      var right := Spaces(x.blanks) + (['&'] + Write(x.right, rest));
      JoinParts(buf, p, x, right, rest);
      FollowsSign(x.blanks, '&', Write(x.right, rest), depth);
      AndReads(buf, p, x.left, right, Back(buf, right), depth, k);
      OperandReads(buf, Back(buf, Write(x.right, rest)), x.right, rest, end, depth, k + 1);
      OperatorSign(buf, Back(buf, right), x.blanks, '&', Write(x.right, rest), depth);
      AndJoinRead(buf, p, x, Back(buf, right), Back(buf, Write(x.right, rest)), end, depth, k);
    } else {
      OperandReads(buf, p, x, rest, end, depth, k);
    }
  }

  lemma JoinParts(buf: string, p: nat, x: Syntax, right: string, rest: string)
    requires x.Join? && Ahead(buf, p, Write(x, rest)) && right == Spaces(x.blanks) + ([Sign(x.op)] + Write(x.right, rest))
    ensures Ahead(buf, Back(buf, right), right) && Ahead(buf, Back(buf, Write(x.right, rest)), Write(x.right, rest))
  {
    WriteEnds(x.left, right);
    AheadEnd(buf, p, Write(x, rest), right);
    EndsSigned(x.blanks, [Sign(x.op)], Write(x.right, rest));
    AheadEnd(buf, Back(buf, right), right, Write(x.right, rest));
  }

  lemma {:induction false} OrReads(buf: string, p: nat, x: Syntax, rest: string, end: nat, depth: int)
    requires Formed(x) && Ahead(buf, p, Write(x, rest)) && Ahead(buf, end, rest)
    requires Follows(rest, depth) && depth >= 0 && NoAnd(buf, end, depth)
    ensures OrExpr(buf, p, depth) == OrOn(buf, x, end, depth)
    decreases x, 4
  {
    if x.Join? && x.op.OR? {
      var right := Spaces(x.blanks) + (['|'] + Write(x.right, rest));
      JoinParts(buf, p, x, right, rest);
      FollowsSign(x.blanks, '|', Write(x.right, rest), depth);
      OperatorSign(buf, Back(buf, right), x.blanks, '|', Write(x.right, rest), depth);
      OrReads(buf, p, x.left, right, Back(buf, right), depth);
      AndReads(buf, Back(buf, Write(x.right, rest)), x.right, rest, end, depth, 1);
      AndWhole(buf, Back(buf, Write(x.right, rest)), x.right, end, depth, 1);
      OrJoinRead(buf, p, x, Back(buf, right), Back(buf, Write(x.right, rest)), end, depth);
    } else {
      AndReads(buf, p, x, rest, end, depth, 0);
      AndWhole(buf, p, x, end, depth, 0);
    }
  }

  /** What a written query, blanks and the end of the text behind it mean. */
  lemma WholeReads(buf: string, x: Syntax, n: nat, tail: string)
    requires Formed(x) && buf == Write(x, Spaces(n) + tail) && First(tail) == '\0'
    ensures Meaning(buf) == if Room(x, 0) then Success(Value(x)) else Failure(TooComplex)
  {
    var rest := Spaces(n) + tail;
    WriteEnds(x, rest);
    assert buf[0..] == buf;
    AheadEnd(buf, 0, buf, rest);
    TextEnds(buf, Back(buf, rest), n, tail);
    OrReads(buf, 0, x, rest, Back(buf, rest), 0);
    OrWhole(buf, 0, x, Back(buf, rest), 0);
  }

  lemma TextEnds(buf: string, p: nat, n: nat, tail: string)
    requires Ahead(buf, p, Spaces(n) + tail) && First(tail) == '\0'
    ensures LexOperator(buf, p, 0).tok == END && Follows(Spaces(n) + tail, 0)
  {
    BlanksThen(buf, p, n, tail);
    if n == 0 {
      assert Spaces(0) + tail == tail;
    }
  }

  // ----- What is read is a text of the grammar -----

  lemma {:induction false} SpacesWithin(buf: string, p: nat)
    requires p <= |buf|
    ensures SkipSpaces(buf, p) <= |buf|
    decreases |buf| - p
  {
    if At(buf, p) == ' ' {
      SpacesWithin(buf, p + 1);
    }
  }

  lemma SpacesFrom(buf: string, p: nat, q: nat)
    requires p <= |buf| && q == SkipSpaces(buf, p)
    ensures q <= |buf| && buf[p..] == Spaces(q - p) + buf[q..]
  {
    SpacesWithin(buf, p);
    var s := buf[p..q];
    forall k | 0 <= k < q - p
      ensures s[k] == ' '
    {
      assert At(buf, p + k) == ' ';
    }
    assert s == Spaces(q - p);
    assert buf[p..] == s + buf[q..];
  }

  /** Blanks and a sign. */
  lemma SignFrom(buf: string, p: nat, q: nat)
    requires p <= |buf| && q == SkipSpaces(buf, p) && At(buf, q) != '\0'
    ensures q < |buf| && buf[p..] == Spaces(q - p) + ([At(buf, q)] + buf[q + 1..])
  {
    SpacesFrom(buf, p, q);
    assert buf[q..] == [buf[q]] + buf[q + 1..];
  }

  /** What a number token was read from. */
  lemma NumberToken(buf: string, q: nat, depth: int, v: int, r: nat)
    requires q < |buf| && LexNumber(buf, q, depth) == Lexeme(VAL(v), r, depth)
    ensures q < r <= |buf| && r - q <= 15 && v == Strtol(buf[q..r]) && -2147483648 <= v <= 2147483647
    ensures forall k :: q + 1 <= k < r ==> '0' <= buf[k] <= '9'
  {
  }

  lemma NumFrom(buf: string, q: nat, depth: int, v: int, r: nat) returns (n: Number)
    requires q < |buf| && (IsDigit(buf[q]) || buf[q] == '-') && LexNumber(buf, q, depth) == Lexeme(VAL(v), r, depth)
    ensures FormedNumber(n) && Worth(n) == v && r <= |buf| && buf[q..] == NumberText(n) + buf[r..]
  {
    NumberToken(buf, q, depth, v, r);
    n := NumberOf(buf[q..r]);
    StrtolIsWorth(n);
    assert buf[q..] == buf[q..r] + buf[r..];
  }

  lemma NumberOf(s: string) returns (n: Number)
    requires s != [] && (s[0] == '-' || '0' <= s[0] <= '9') && forall k :: 1 <= k < |s| ==> '0' <= s[k] <= '9'
    ensures Digits(n.digits) && NumberText(n) == s
  {
    n := if s[0] == '-' then Number(true, s[1..]) else Number(false, s);
  }

  /** x is written from p up to q, stands for e, and has room above k waiting operators. */
  ghost predicate IsWritten(buf: string, p: nat, x: Syntax, k: nat, e: Expr, q: nat) {
    p <= |buf| && q <= |buf| && Formed(x) && Room(x, k) && Value(x) == e && buf[p..] == Write(x, buf[q..])
  }

  /** The token where an operand was read. */
  lemma OperandToken(buf: string, p: nat, depth: int, k: nat, e: Expr, q: nat, m: nat, l: Lexeme)
    requires p <= |buf| && Operand(buf, p, depth, k) == Success((e, q)) && m == SkipSpaces(buf, p) && l == LexOperand(buf, p, depth)
    ensures At(buf, m) != '\0' && (l.tok.VAL? || l == Lexeme(OPR('!'), m + 1, depth) || l == Lexeme(OPEN, m + 1, depth + 1))
    ensures l.tok.VAL? ==> m < |buf| && (IsDigit(buf[m]) || buf[m] == '-') && l == LexNumber(buf, m, depth)
    ensures l.tok.OPR? ==> At(buf, m) == '!' && l.tok.c == '!'
    ensures l.tok == OPEN ==> At(buf, m) == '('
  {
  }

  lemma OperandInverse(buf: string, p: nat, depth: int, k: nat, e: Expr, q: nat, l: Lexeme)
    requires Operand(buf, p, depth, k) == Success((e, q)) && l == LexOperand(buf, p, depth)
    ensures l.tok.VAL? ==> e == Expr.Val(l.tok.v) && q == l.next
    ensures l.tok.OPR? ==> k < 16 && e.Not? && Operand(buf, l.next, depth, k + 1) == Success((e.e, q))
    ensures l.tok == OPEN ==> OrExpr(buf, l.next, l.depth).Success? && OrExpr(buf, l.next, l.depth).value.0 == e
    ensures l.tok == OPEN ==> ClosesAt(buf, OrExpr(buf, l.next, l.depth).value.1, l.depth, q)
  {
  }

  predicate ClosesAt(buf: string, r: nat, depth: int, q: nat) {
    LexOperator(buf, r, depth).tok == CLOSE && LexOperator(buf, r, depth).next == q
  }

  lemma {:induction false} OperandFrom(buf: string, p: nat, depth: int, k: nat, e: Expr, q: nat) returns (x: Syntax)
    requires p <= |buf| && Operand(buf, p, depth, k) == Success((e, q))
    ensures IsWritten(buf, p, x, k, e, q) && !x.Join?
    decreases |buf| - p, 0
  {
    var l, m := LexOperand(buf, p, depth), SkipSpaces(buf, p);
    OperandToken(buf, p, depth, k, e, q, m, l);
    OperandInverse(buf, p, depth, k, e, q, l);
    SignFrom(buf, p, m);
    if l.tok.VAL? {
      x := NumWritten(buf, p, m, depth, k, l.tok.v, q);
    } else if l.tok.OPR? {
      x := NegFrom(buf, p, m, depth, k, e, q);
    } else {
      x := ParFrom(buf, p, m, OrExpr(buf, m + 1, depth + 1).value.1, depth + 1, k, e, q);
    }
  }

  lemma {:induction false} NegFrom(buf: string, p: nat, m: nat, depth: int, k: nat, e: Expr, q: nat) returns (x: Syntax)
    requires p <= m < |buf| && buf[p..] == Spaces(m - p) + (['!'] + buf[m + 1..]) && k < 16 && e.Not?
    requires Operand(buf, m + 1, depth, k + 1) == Success((e.e, q))
    ensures IsWritten(buf, p, x, k, e, q) && !x.Join?
    decreases |buf| - m - 1, 5
  {
    var y := OperandFrom(buf, m + 1, depth, k + 1, e.e, q);
    x := NegWritten(buf, p, m, y, k, e, q);
  }

  lemma {:induction false} ParFrom(buf: string, p: nat, m: nat, r: nat, depth: int, k: nat, e: Expr, q: nat) returns (x: Syntax)
    requires p <= m < |buf| && buf[p..] == Spaces(m - p) + (['('] + buf[m + 1..])
    requires OrExpr(buf, m + 1, depth) == Success((e, r)) && ClosesAt(buf, r, depth, q)
    ensures IsWritten(buf, p, x, k, e, q) && !x.Join?
    decreases |buf| - m - 1, 5
  {
    var y := OrFrom(buf, m + 1, depth, e, r);
    x := ParWritten(buf, p, m, y, r, depth, k, e, q);
  }

  lemma NumWritten(buf: string, p: nat, m: nat, depth: int, k: nat, v: int, q: nat) returns (x: Syntax)
    requires p <= m < |buf| && m == SkipSpaces(buf, p) && (IsDigit(buf[m]) || buf[m] == '-')
    requires LexNumber(buf, m, depth) == Lexeme(VAL(v), q, depth)
    ensures IsWritten(buf, p, x, k, Expr.Val(v), q) && !x.Join?
  {
    SpacesFrom(buf, p, m);
    var n := NumFrom(buf, m, depth, v, q);
    x := Num(m - p, n);
  }

  lemma NegWritten(buf: string, p: nat, m: nat, y: Syntax, k: nat, e: Expr, q: nat) returns (x: Syntax)
    requires p <= m < |buf| && buf[p..] == Spaces(m - p) + (['!'] + buf[m + 1..]) && k < 16
    requires e.Not? && IsWritten(buf, m + 1, y, k + 1, e.e, q) && !y.Join?
    ensures IsWritten(buf, p, x, k, e, q) && !x.Join?
  {
    x := Neg(m - p, y);
  }

  lemma CloseFrom(buf: string, r: nat, c: nat, depth: int, q: nat)
    requires r <= |buf| && c == SkipSpaces(buf, r) && ClosesAt(buf, r, depth, q)
    ensures q == c + 1 <= |buf| && buf[r..] == Spaces(c - r) + ([')'] + buf[q..])
  {
    SignFrom(buf, r, c);
  }

  lemma ParWritten(buf: string, p: nat, m: nat, y: Syntax, r: nat, depth: int, k: nat, e: Expr, q: nat) returns (x: Syntax)
    requires p <= m < |buf| && buf[p..] == Spaces(m - p) + (['('] + buf[m + 1..])
    requires IsWritten(buf, m + 1, y, 0, e, r) && ClosesAt(buf, r, depth, q)
    ensures IsWritten(buf, p, x, k, e, q) && !x.Join?
  {
    var c := SkipSpaces(buf, r);
    CloseFrom(buf, r, c, depth, q);
    x := Par(m - p, y, c - r);
  }

  /** A sign was read there. */
  lemma OperatorFrom(buf: string, p: nat, m: nat, depth: int, c: char)
    requires p <= |buf| && m == SkipSpaces(buf, p) && LexOperator(buf, p, depth).tok == OPR(c)
    ensures m < |buf| && LexOperator(buf, p, depth) == Lexeme(OPR(c), m + 1, depth)
    ensures buf[p..] == Spaces(m - p) + ([c] + buf[m + 1..])
  {
    SignFrom(buf, p, m);
  }

  lemma AndRestInverse(buf: string, left: Expr, p: nat, m: nat, depth: int, k: nat, e: Expr, q: nat) returns (o: (Expr, nat))
    requires p <= |buf| && AndRest(buf, left, p, depth, k) == Success((e, q)) && LexOperator(buf, p, depth) == Lexeme(OPR('&'), m + 1, depth)
    ensures Operand(buf, m + 1, depth, k + 1) == Success(o) && m + 1 < o.1 <= |buf|
    ensures AndRest(buf, Bin(AND, left, o.0), o.1, depth, k) == Success((e, q))
  {
    AndRestStep(buf, left, p, m + 1, Operand(buf, m + 1, depth, k + 1), depth, k);
    o := Operand(buf, m + 1, depth, k + 1).value;
  }

  lemma OrRestInverse(buf: string, left: Expr, p: nat, m: nat, depth: int, e: Expr, q: nat) returns (o: (Expr, nat))
    requires p <= |buf| && OrRest(buf, left, p, depth) == Success((e, q)) && LexOperator(buf, p, depth) == Lexeme(OPR('|'), m + 1, depth)
    ensures AndExpr(buf, m + 1, depth, 1) == Success(o) && m + 1 < o.1 <= |buf|
    ensures OrRest(buf, Bin(OR, left, o.0), o.1, depth) == Success((e, q))
  {
    OrRestStep(buf, left, p, m + 1, AndExpr(buf, m + 1, depth, 1), depth);
    o := AndExpr(buf, m + 1, depth, 1).value;
  }

  /** A chain of `&`, of which lx has been read. */
  lemma {:induction false} AndRestFrom(buf: string, start: nat, lx: Syntax, left: Expr, p: nat, depth: int, k: nat, e: Expr, q: nat)
      returns (x: Syntax)
    requires IsWritten(buf, start, lx, k, left, p) && !(lx.Join? && lx.op.OR?) && k <= 1
    requires AndRest(buf, left, p, depth, k) == Success((e, q))
    ensures IsWritten(buf, start, x, k, e, q) && !(x.Join? && x.op.OR?)
    decreases |buf| - p, 1
  {
    if LexOperator(buf, p, depth).tok == OPR('&') {
      var m := SkipSpaces(buf, p);
      OperatorFrom(buf, p, m, depth, '&');
      var o := AndRestInverse(buf, left, p, m, depth, k, e, q);
      var j := AndNextFrom(buf, start, lx, left, p, m, o, depth, k);
      x := AndRestFrom(buf, start, j, Bin(AND, left, o.0), o.1, depth, k, e, q);
    } else {
      AndStopsHere(buf, left, p, depth, k, e, q);
      x := lx;
    }
  }

  lemma {:induction false} AndNextFrom(buf: string, start: nat, lx: Syntax, left: Expr, p: nat, m: nat, o: (Expr, nat), depth: int, k: nat)
      returns (j: Syntax)
    requires IsWritten(buf, start, lx, k, left, p) && !(lx.Join? && lx.op.OR?) && k <= 1
    requires p <= m < |buf| && buf[p..] == Spaces(m - p) + (['&'] + buf[m + 1..])
    requires Operand(buf, m + 1, depth, k + 1) == Success(o)
    ensures IsWritten(buf, start, j, k, Bin(AND, left, o.0), o.1) && j.Join? && j.op.AND?
    decreases |buf| - m - 1, 1
  {
    var y := OperandFrom(buf, m + 1, depth, k + 1, o.0, o.1);
    j := JoinWritten(buf, start, lx, left, p, m, AND, y, o.0, o.1, k);
  }

  lemma {:induction false} OrNextFrom(buf: string, start: nat, lx: Syntax, left: Expr, p: nat, m: nat, o: (Expr, nat), depth: int)
      returns (j: Syntax)
    requires IsWritten(buf, start, lx, 0, left, p)
    requires p <= m < |buf| && buf[p..] == Spaces(m - p) + (['|'] + buf[m + 1..])
    requires AndExpr(buf, m + 1, depth, 1) == Success(o)
    ensures IsWritten(buf, start, j, 0, Bin(OR, left, o.0), o.1)
    decreases |buf| - m - 1, 3
  {
    var y := AndFrom(buf, m + 1, depth, 1, o.0, o.1);
    j := JoinWritten(buf, start, lx, left, p, m, OR, y, o.0, o.1, 0);
  }

  lemma AndStopsHere(buf: string, left: Expr, p: nat, depth: int, k: nat, e: Expr, q: nat)
    requires p <= |buf| && AndRest(buf, left, p, depth, k) == Success((e, q)) && LexOperator(buf, p, depth).tok != OPR('&')
    ensures e == left && q == p
  {
  }

  lemma OrStopsHere(buf: string, left: Expr, p: nat, depth: int, e: Expr, q: nat)
    requires p <= |buf| && OrRest(buf, left, p, depth) == Success((e, q)) && LexOperator(buf, p, depth).tok != OPR('|')
    ensures e == left && q == p
  {
  }

  lemma JoinWritten(buf: string, start: nat, lx: Syntax, left: Expr, p: nat, m: nat, op: BinOp, y: Syntax, right: Expr, q: nat, k: nat)
      returns (x: Syntax)
    requires IsWritten(buf, start, lx, k, left, p) && p <= m < |buf| && k < 16
    requires buf[p..] == Spaces(m - p) + ([Sign(op)] + buf[m + 1..])
    requires IsWritten(buf, m + 1, y, k + 1, right, q)
    requires !(y.Join? && (op.AND? || y.op.OR?)) && !(op.AND? && lx.Join? && lx.op.OR?)
    ensures IsWritten(buf, start, x, k, Bin(op, left, right), q) && x.Join? && x.op == op
  {
    x := Join(op, lx, m - p, y);
  }

  lemma {:induction false} AndFrom(buf: string, p: nat, depth: int, k: nat, e: Expr, q: nat) returns (x: Syntax)
    requires p <= |buf| && k <= 1 && AndExpr(buf, p, depth, k) == Success((e, q))
    ensures IsWritten(buf, p, x, k, e, q) && !(x.Join? && x.op.OR?)
    decreases |buf| - p, 2
  {
    var o := Operand(buf, p, depth, k).value;
    var y := OperandFrom(buf, p, depth, k, o.0, o.1);
    x := AndRestFrom(buf, p, y, o.0, o.1, depth, k, e, q);
  }

  lemma {:induction false} OrRestFrom(buf: string, start: nat, lx: Syntax, left: Expr, p: nat, depth: int, e: Expr, q: nat) returns (x: Syntax)
    requires IsWritten(buf, start, lx, 0, left, p) && OrRest(buf, left, p, depth) == Success((e, q))
    ensures IsWritten(buf, start, x, 0, e, q)
    decreases |buf| - p, 3
  {
    if LexOperator(buf, p, depth).tok == OPR('|') {
      var m := SkipSpaces(buf, p);
      OperatorFrom(buf, p, m, depth, '|');
      var o := OrRestInverse(buf, left, p, m, depth, e, q);
      var j := OrNextFrom(buf, start, lx, left, p, m, o, depth);
      x := OrRestFrom(buf, start, j, Bin(OR, left, o.0), o.1, depth, e, q);
    } else {
      OrStopsHere(buf, left, p, depth, e, q);
      x := lx;
    }
  }

  lemma {:induction false} OrFrom(buf: string, p: nat, depth: int, e: Expr, q: nat) returns (x: Syntax)
    requires p <= |buf| && OrExpr(buf, p, depth) == Success((e, q))
    ensures IsWritten(buf, p, x, 0, e, q)
    decreases |buf| - p, 4
  {
    var o := AndExpr(buf, p, depth, 0).value;
    var y := AndFrom(buf, p, depth, 0, o.0, o.1);
    x := OrRestFrom(buf, p, y, o.0, o.1, depth, e, q);
  }

  lemma WholeFrom(buf: string, e: Expr) returns (x: Syntax, n: nat, tail: string)
    requires Meaning(buf) == Success(e)
    ensures Formed(x) && Room(x, 0) && Value(x) == e && buf == Write(x, Spaces(n) + tail) && First(tail) == '\0'
  {
    var q := OrExpr(buf, 0, 0).value.1;
    x := OrFrom(buf, 0, 0, e, q);
    var r := SkipSpaces(buf, q);
    SpacesFrom(buf, q, r);
    n, tail := r - q, buf[r..];
    assert buf[0..] == buf;
    assert tail != [] ==> tail[0] == At(buf, r);
  }

  // ----- The main results -----

  /** The text is a query of the grammar, blanks, and its end. */
  ghost predicate IsText(text: string, x: Syntax) {
    Formed(x) && exists n: nat, tail :: text == Write(x, Spaces(n) + tail) && First(tail) == '\0'
  }

  /** A text means an expression if and only if it is a query of the grammar that stands for it
      and never makes more than 16 operators wait. */
  lemma MeaningExactly(text: string, e: Expr)
    ensures Meaning(text) == Success(e) <==> exists x :: IsText(text, x) && Room(x, 0) && Value(x) == e
  {
    if Meaning(text) == Success(e) {
      var x, n, tail := WholeFrom(text, e);
      assert IsText(text, x);
    }
    if x :| IsText(text, x) && Room(x, 0) && Value(x) == e {
      var n: nat, tail :| text == Write(x, Spaces(n) + tail) && First(tail) == '\0';
      WholeReads(text, x, n, tail);
    }
  }

  /** A query of the grammar that makes more operators wait is too complex. */
  lemma CrowdedText(text: string, x: Syntax)
    requires IsText(text, x) && !Room(x, 0)
    ensures Meaning(text) == Failure(TooComplex)
  {
    var n: nat, tail :| text == Write(x, Spaces(n) + tail) && First(tail) == '\0';
    WholeReads(text, x, n, tail);
  }

  /** However a text is taken apart, it stands for the same expression. */
  lemma Unambiguous(text: string, x: Syntax, y: Syntax)
    requires IsText(text, x) && IsText(text, y) && Room(x, 0)
    ensures Room(y, 0) && Value(x) == Value(y)
  {
    MeaningExactly(text, Value(x));
    if !Room(y, 0) {
      CrowdedText(text, y);
    }
    MeaningExactly(text, Value(y));
  }

  /** Octal, and what is not. */
  lemma SomeNumbers()
    ensures Worth(Number(false, "010")) == 8 && Worth(Number(false, "10")) == 10
    ensures Worth(Number(false, "08")) == 0 && Worth(Number(true, "017")) == -15 && Worth(Number(true, "")) == 0
  {
    assert "010"[..3] == "010" && "010"[1..] == "10" && "10"[1..] == "0" && "0"[1..] == "";
    assert "08"[1..] == "8" && "08"[..1] == "0";
    assert "017"[..3] == "017" && "017"[1..] == "17" && "17"[1..] == "7" && "7"[1..] == "";
    assert Power(8, 2) == 64 && Power(8, 1) == 8 && Power(8, 0) == 1;
    assert Power(10, 1) == 10 && Power(10, 0) == 1;
  }
}
