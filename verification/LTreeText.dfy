/** ltree/ltxtquery_op.c: boolean combinations of words, and their evaluation. */
module LTreeText {
  import opened LTreeWord

  datatype TextQuery = Val(word: Word) | Not(q: TextQuery) | And(a: TextQuery, b: TextQuery) | Or(a: TextQuery, b: TextQuery)

  /** `ltree_execute`: unless calcnot holds, a negation counts as true. */
  predicate Execute(q: TextQuery, calcnot: bool, chkcond: Word -> bool) {
    match q
    case Val(word) => chkcond(word)
    case Not(x) => calcnot ==> !Execute(x, calcnot, chkcond)
    case And(a, b) => Execute(a, calcnot, chkcond) && Execute(b, calcnot, chkcond)
    case Or(a, b) => Execute(a, calcnot, chkcond) || Execute(b, calcnot, chkcond)
  }

  function Words(q: TextQuery): set<Word> {
    match q
    case Val(word) => {word}
    case Not(x) => Words(x)
    case And(a, b) => Words(a) + Words(b)
    case Or(a, b) => Words(a) + Words(b)
  }

  /** A check that accepts each word of a query that an exact check accepts, with negations taken
      as true, accepts the query if the exact evaluation does. */
  lemma {:induction false} ExecuteKeeps(q: TextQuery, exact: Word -> bool, loose: Word -> bool)
    requires forall w :: w in Words(q) && exact(w) ==> loose(w)
    ensures Execute(q, true, exact) ==> Execute(q, false, loose)
  {
    match q
    case Val(_) =>
    case Not(_) =>
    case And(a, b) =>
      ExecuteKeeps(a, exact, loose);
      ExecuteKeeps(b, exact, loose);
    case Or(a, b) =>
      ExecuteKeeps(a, exact, loose);
      ExecuteKeeps(b, exact, loose);
  }

  /** With negations taken as true, accepting more words accepts more queries. */
  lemma {:induction false} ExecuteMonotone(q: TextQuery, less: Word -> bool, more: Word -> bool)
    requires forall w :: w in Words(q) && less(w) ==> more(w)
    ensures Execute(q, false, less) ==> Execute(q, false, more)
  {
    match q
    case Val(_) =>
    case Not(_) =>
    case And(a, b) =>
      ExecuteMonotone(a, less, more);
      ExecuteMonotone(b, less, more);
    case Or(a, b) =>
      ExecuteMonotone(a, less, more);
      ExecuteMonotone(b, less, more);
  }
}
