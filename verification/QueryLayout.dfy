/** intarray queries from text to answer and back, in terms of the grammar of the texts: what a
    text asks of an array, and which text a query is printed as. */
module QueryLayout {
  import opened Wrappers
  import opened Query
  import opened QueryItems
  import opened QueryLinks
  import QueryPrinter
  import opened QueryGrammar

  // ----- What a text asks -----

  /** The truth of a query as it is written. */
  predicate Holds(x: Syntax, has: int -> bool) {
    match x
    case Num(_, n) => has(Worth(n))
    case Neg(_, y) => !Holds(y, has)
    case Par(_, y, _) => Holds(y, has)
    case Join(AND, l, _, r) => Holds(l, has) && Holds(r, has)
    case Join(OR, l, _, r) => Holds(l, has) || Holds(r, has)
  }

  lemma {:induction false} EvalIsHolds(x: Syntax, has: int -> bool)
    ensures Eval(Value(x), has) == Holds(x, has)
  {
    match x
    case Num(_, _) =>
    case Neg(_, y) => EvalIsHolds(y, has);
    case Par(_, y, _) => EvalIsHolds(y, has);
    case Join(_, l, _, r) =>
      EvalIsHolds(l, has);
      EvalIsHolds(r, has);
  }

  /** The values of an array. */
  function Member(a: seq<int>): int -> bool {
    v => v in a
  }

  /** `checkcondition_arr` for each item. */
  function Lookup(items: seq<Item>, a: seq<int>): int -> bool {
    k => 0 <= k < |items| && items[k].node.ValNode? && items[k].node.val in a
  }

  /** The program's answer for an array. */
  function Answer(items: seq<Item>, a: seq<int>): Option<bool> {
    Execute(items, |items| - 1, true, Lookup(items, a))
  }

  /** A query text of at most 2^15 characters, compiled and evaluated on an array, answers what it
      asks. */
  lemma TextAnswers(text: string, x: Syntax, a: seq<int>)
    requires |text| <= 0x8000 && IsText(text, x) && Room(x, 0)
    ensures Meaning(text) == Success(Value(x))
    ensures Answer(Linked(Value(x)), a) == Some(Holds(x, Member(a)))
  {
    MeaningExactly(text, Value(x));
    EvalIsHolds(x, Member(a));
    ShortAnswer(text, Value(x), a);
  }

  lemma ShortAnswer(text: string, e: Expr, a: seq<int>)
    requires |text| <= 0x8000 && Meaning(text) == Success(e)
    ensures Answer(Linked(e), a) == Some(Eval(e, Member(a)))
  {
    var items := Linked(e);
    ShortTextExact(text, Lookup(items, a), Member(a));
  }

  // ----- Printing -----

  /** A value in decimal. */
  function Plain(v: int): Number {
    Number(v < 0, QueryPrinter.Digits(if v < 0 then -v else v))
  }

  /** A query as it is printed, lead blanks before it: `!` stands right before a value or before
      `( … )`, one blank stands around `&` and `|`, and operands of `&` and `|` that are themselves
      an `|` stand in `( … )`. */
  function Printed(e: Expr, operand: bool, lead: nat): Syntax {
    match e
    case Val(v) => Num(lead, Plain(v))
    case Not(x) => Neg(lead, if x.Val? then Printed(x, false, 0) else Par(0, Printed(x, false, 1), 1))
    case Bin(AND, a, b) => Join(AND, Printed(a, true, lead), 1, Printed(b, true, 1))
    case Bin(OR, a, b) =>
      if operand then Par(lead, Join(OR, Printed(a, true, 1), 1, Printed(b, true, 1)), 1)
      else Join(OR, Printed(a, true, lead), 1, Printed(b, true, 1))
  }

  /** Plain numbers have no spare zero and are worth their value. */
  lemma PlainIsWorth(v: int)
    ensures Worth(Plain(v)) == v && NumberText(Plain(v)) == QueryPrinter.NumberText(v)
    ensures v != 0 ==> Plain(v).digits[0] != '0'
    ensures v == 0 ==> Plain(v).digits == "0"
  {
    var n, s := if v < 0 then -v else v, Plain(v).digits;
    QueryPrinter.DecimalOfDigits(n);
    DecimalIsPositional(s);
    if v == 0 {
      assert s == "0" && s[1..] == [] && OctalDigits(s) == 1 && s[..1] == s;
      assert Positional(s, 8) == 0;
    }
  }

  /** The printed text is the text of the printed query. */
  lemma {:induction false} TextIsPrinted(e: Expr, operand: bool, lead: nat, rest: string)
    ensures Write(Printed(e, operand, lead), rest) == Spaces(lead) + (QueryPrinter.Text(e, !operand) + rest)
    decreases e, 1
  {
    match e
    case Val(v) => PlainIsWorth(v);
    case Not(x) => PrintedNot(x, operand, lead, rest);
    case Bin(op, a, b) =>
      if op.OR? && operand {
        var tail := Spaces(1) + ([')'] + rest);
        PrintedJoin(op, a, b, 1, tail);
        Enclosed(lead, Spaces(1), Joined(op, a, b), tail, rest);
      } else {
        PrintedJoin(op, a, b, lead, rest);
      }
  }

  function Joined(op: BinOp, a: Expr, b: Expr): string {
    QueryPrinter.Text(a, false) + [' ', op.Symbol(), ' '] + QueryPrinter.Text(b, false)
  }

  lemma {:induction false} PrintedJoin(op: BinOp, a: Expr, b: Expr, lead: nat, rest: string)
    ensures Write(Join(op, Printed(a, true, lead), 1, Printed(b, true, 1)), rest) == Spaces(lead) + (Joined(op, a, b) + rest)
    decreases Bin(op, a, b), 0
  {
    var right := Write(Printed(b, true, 1), rest);
    TextIsPrinted(b, true, 1, rest);
    TextIsPrinted(a, true, lead, Spaces(1) + ([Sign(op)] + right));
    assert Spaces(1) == [' '];
    Gather(QueryPrinter.Text(a, false), Sign(op), QueryPrinter.Text(b, false), rest);
  }

  lemma Gather(a: string, sign: char, b: string, rest: string)
    ensures a + ([' '] + ([sign] + ([' '] + (b + rest)))) == (a + [' ', sign, ' '] + b) + rest
  {
  }

  lemma Enclosed(lead: nat, blank: string, body: string, tail: string, rest: string)
    requires blank == Spaces(1) && tail == blank + ([')'] + rest)
    ensures Spaces(lead) + (['('] + (blank + (body + tail))) == Spaces(lead) + (("( " + body + " )") + rest)
  {
    assert blank == [' '];
  }

  lemma {:induction false} PrintedNot(x: Expr, operand: bool, lead: nat, rest: string)
    ensures Write(Printed(Not(x), operand, lead), rest) == Spaces(lead) + (QueryPrinter.Text(Not(x), !operand) + rest)
    decreases Not(x), 0
  {
    if x.Val? {
      TextIsPrinted(x, false, 0, rest);
      PlainIsWorth(x.v);
      assert Spaces(0) == [];
    } else {
      PrintedEnclosed(x, Spaces(1) + ([')'] + rest), rest);
    }
  }

  lemma {:induction false} PrintedEnclosed(x: Expr, tail: string, rest: string)
    requires tail == Spaces(1) + ([')'] + rest)
    ensures Spaces(0) + (['('] + Write(Printed(x, false, 1), tail)) == ("( " + QueryPrinter.Text(x, true) + " )") + rest
    decreases x, 2
  {
    TextIsPrinted(x, false, 1, tail);
    Enclosed(0, Spaces(1), QueryPrinter.Text(x, true), tail, rest);
  }
}
