/** intarray query texts: their lexical structure, and the meaning a reader gives them, a
    recursive-descent reading in which `!` binds tighter than `&` and `&` tighter than `|`. */
module Query {
  import opened Wrappers

  datatype BinOp = AND | OR
  {
    function Symbol(): char {
      if AND? then '&' else '|'
    }

    predicate Apply(x: bool, y: bool) {
      if AND? then x && y else x || y
    }
  }

  datatype Expr = Val(v: int) | Not(e: Expr) | Bin(op: BinOp, a: Expr, b: Expr)

  /** Truth of a query, given which values are present. */
  predicate Eval(e: Expr, has: int -> bool) {
    match e
    case Val(v) => has(v)
    case Not(x) => !Eval(x, has)
    case Bin(op, a, b) => op.Apply(Eval(a, has), Eval(b, has))
  }

  datatype Error = SyntaxError | TooComplex

  const STACKDEPTH := 16

  // ----- Tokens -----

  datatype Token = VAL(v: int) | OPR(c: char) | OPEN | CLOSE | END | ERR

  /** A token, the position after it and the parenthesis depth there. */
  datatype Lexeme = Lexeme(tok: Token, next: nat, depth: int)

  /** The character at a position of a NUL-terminated text. */
  function At(buf: string, p: nat): char {
    if p < |buf| then buf[p] else '\0'
  }

  predicate IsDigit(c: char) {
    '0' <= c <= '9'
  }

  function SkipSpaces(buf: string, p: nat): (q: nat)
    ensures p <= q && At(buf, q) != ' '
    ensures forall k :: p <= k < q ==> At(buf, k) == ' '
    decreases |buf| - p
  {
    if At(buf, p) == ' ' then SkipSpaces(buf, p + 1) else p
  }

  function SkipDigits(buf: string, p: nat): (q: nat)
    requires p <= |buf|
    ensures p <= q <= |buf| && !IsDigit(At(buf, q))
    ensures forall k :: p <= k < q ==> IsDigit(buf[k])
    decreases |buf| - p
  {
    if IsDigit(At(buf, p)) then SkipDigits(buf, p + 1) else p
  }

  function DigitValue(c: char): int {
    c as int - '0' as int
  }

  function Decimal(s: string): int {
    if s == [] then 0 else 10 * Decimal(s[..|s| - 1]) + DigitValue(s[|s| - 1])
  }

  /** Leading octal digits only, as `strtol` reads them. */
  function OctalPrefix(s: string, acc: int): int {
    if s != [] && '0' <= s[0] <= '7' then OctalPrefix(s[1..], 8 * acc + DigitValue(s[0])) else acc
  }

  /** `strtol(s, NULL, 0)` for an optional minus sign and digits: a leading zero means octal,
      and no digits at all means 0. */
  function Strtol(s: string): int {
    if s != [] && s[0] == '-' then -Magnitude(s[1..]) else Magnitude(s)
  }

  function Magnitude(s: string): int {
    if s != [] && s[0] == '0' then OctalPrefix(s, 0) else Decimal(s)
  }

  predicate IsInt32(v: int) {
    -0x8000_0000 <= v < 0x8000_0000
  }

  const NUMBER_BUFFER := 16

  /** The token where an operand is expected. */
  function LexOperand(buf: string, p: nat, depth: int): Lexeme {
    var q := SkipSpaces(buf, p);
    var c := At(buf, q);
    if IsDigit(c) || c == '-' then
      LexNumber(buf, q, depth)
    else if c == '!' then Lexeme(OPR('!'), q + 1, depth)
    else if c == '(' then Lexeme(OPEN, q + 1, depth + 1)
    else Lexeme(ERR, q, depth)
  }

  function LexNumber(buf: string, q: nat, depth: int): Lexeme
    requires q < |buf|
  {
    var r := SkipDigits(buf, q + 1);
    var v := Strtol(buf[q..r]);
    if r - q >= NUMBER_BUFFER || !IsInt32(v) || (depth != 0 && At(buf, r) == '\0') then Lexeme(ERR, r, depth)
    else Lexeme(VAL(v), r, depth)
  }

  /** The token where an operator is expected. */
  function LexOperator(buf: string, p: nat, depth: int): Lexeme {
    var q := SkipSpaces(buf, p);
    var c := At(buf, q);
    if c == '&' || c == '|' then Lexeme(OPR(c), q + 1, depth)
    else if c == ')' then Lexeme(if depth - 1 < 0 then ERR else CLOSE, q + 1, depth - 1)
    else if c == '\0' then Lexeme(if depth != 0 then ERR else END, q, depth)
    else Lexeme(ERR, q, depth)
  }

  // ----- Recursive descent -----

  /** An expression and the position after it. */
  type Parsed = Result<(Expr, nat), Error>

  /** An operand: a value, a negated operand or a parenthesised query.  Pending counts the
      operators still waiting for this operand; there is room for 16 of them. */
  function Operand(buf: string, p: nat, depth: int, pending: nat): (r: Parsed)
    ensures r.Success? ==> p < r.value.1 <= |buf|
    decreases |buf| - p, 0
  {
    var l := LexOperand(buf, p, depth);
    match l.tok
    case VAL(v) => Success((Val(v), l.next))
    case OPR(_) =>
      if pending >= STACKDEPTH then Failure(TooComplex)
      else
        var x :- Operand(buf, l.next, depth, pending + 1);
        Success((Not(x.0), x.1))
    case OPEN =>
      var x :- OrExpr(buf, l.next, l.depth);
      var k := LexOperator(buf, x.1, l.depth);
      if k.tok == CLOSE then Success((x.0, k.next)) else Failure(SyntaxError)
    case _ => Failure(SyntaxError)
  }

  /** Further operands joined by `&`, grouped to the left. */
  function AndRest(buf: string, left: Expr, p: nat, depth: int, pending: nat): (r: Parsed)
    requires p <= |buf|
    ensures r.Success? ==> p <= r.value.1 <= |buf|
    decreases |buf| - p, 1
  {
    var l := LexOperator(buf, p, depth);
    if l.tok == OPR('&') then
      var x :- Operand(buf, l.next, depth, pending + 1);
      AndRest(buf, Bin(AND, left, x.0), x.1, depth, pending)
    else Success((left, p))
  }

  function AndExpr(buf: string, p: nat, depth: int, pending: nat): (r: Parsed)
    ensures r.Success? ==> p < r.value.1 <= |buf|
    decreases |buf| - p, 2
  {
    var x :- Operand(buf, p, depth, pending);
    AndRest(buf, x.0, x.1, depth, pending)
  }

  /** Further `&` chains joined by `|`, grouped to the left. */
  function OrRest(buf: string, left: Expr, p: nat, depth: int): (r: Parsed)
    requires p <= |buf|
    ensures r.Success? ==> p <= r.value.1 <= |buf|
    decreases |buf| - p, 3
  {
    var l := LexOperator(buf, p, depth);
    if l.tok == OPR('|') then
      var x :- AndExpr(buf, l.next, depth, 1);
      OrRest(buf, Bin(OR, left, x.0), x.1, depth)
    else Success((left, p))
  }

  function OrExpr(buf: string, p: nat, depth: int): (r: Parsed)
    ensures r.Success? ==> p < r.value.1 <= |buf|
    decreases |buf| - p, 4
  {
    var x :- AndExpr(buf, p, depth, 0);
    OrRest(buf, x.0, x.1, depth)
  }

  /** What a whole text means. */
  function Meaning(buf: string): Result<Expr, Error> {
    var x :- OrExpr(buf, 0, 0);
    if LexOperator(buf, x.1, 0).tok == END then Success(x.0) else Failure(SyntaxError)
  }
}
