/** intarray/_int_gist.c: index keys as sets of int4, their unions, and searches that descend
    a tree of such keys. */
module IntGist {
  import opened Wrappers
  import opened Ints
  import opened IntRoom
  import opened IntArray
  import opened RangeKey
  import opened Query
  import opened QueryCompiler
  import opened QueryItems
  import opened QueryIndex
  import opened IndexScan

  // ----- Union of the keys of a page -----

  function Flatten(entries: seq<seq<Int4>>): seq<Int4> {
    if entries == [] then [] else entries[0] + Flatten(entries[1..])
  }

  lemma {:induction false} FlattenMember(entries: seq<seq<Int4>>, x: Int4)
    ensures x in Flatten(entries) <==> exists i :: 0 <= i < |entries| && x in entries[i]
  {
    if entries != [] {
      FlattenMember(entries[1..], x);
      if x in Flatten(entries[1..]) {
        var i :| 0 <= i < |entries[1..]| && x in entries[1..][i];
        assert x in entries[i + 1];
      }
      if i :| 0 <= i < |entries| && x in entries[i] && x !in entries[0] {
        assert x in entries[1..][i - 1];
      }
    }
  }

  function KeyUnion(entries: seq<seq<Int4>>): seq<Int4> {
    Prepared(Flatten(entries))
  }

  lemma KeyUnionIsUnion(entries: seq<seq<Int4>>, i: nat)
    requires i < |entries|
    ensures Ascending(KeyUnion(entries)) && Elements(entries[i]) <= Elements(KeyUnion(entries))
  {
    PreparedIsSet(Flatten(entries));
    forall x | x in entries[i]
      ensures x in Flatten(entries)
    {
      FlattenMember(entries, x);
    }
  }

  lemma FlattenStep(entries: seq<seq<Int4>>, i: nat)
    requires i < |entries|
    ensures Flatten(entries[i..]) == entries[i] + Flatten(entries[i + 1..])
  {
    assert entries[i..] == [entries[i]] + entries[i + 1..];
  }

  /** The union of a page of keys, if an array has room for all their elements. */
  function PageUnion(entries: seq<seq<Int4>>): Result<seq<Int4>, ArrayError> {
    Stored(|Flatten(entries)|, KeyUnion(entries))
  }

  method GIntUnion(entries: seq<seq<Int4>>) returns (res: Result<seq<Int4>, ArrayError>)
    ensures res == PageUnion(entries)
  {
    var totlen: Int4, i := 0, 0;
    ghost var total := 0;
    while i < |entries|
      invariant 0 <= i <= |entries| && totlen == Wrap32(total) && total + |Flatten(entries[i..])| == |Flatten(entries)|
    {
      FlattenStep(entries, i);
      WrapAdd(total, |entries[i]|);
      totlen := Wrap32(totlen as int + |entries[i]|);
      total := total + |entries[i]|;
      i := i + 1;
    }
    RoomExact(total);
    var ok, a := NewIntArrayType(totlen);
    if !ok {
      return Failure(Refused);
    }
    var inside := CopyAll(a, entries);
    if !inside {
      return Failure(Overrun);
    }
    var r := PrepareArr(a);
    res := Success(r);
  }

  /** Copy all elements, if they stay inside the array. */
  method CopyAll(a: array<Int4>, entries: seq<seq<Int4>>) returns (inside: bool)
    modifies a
    ensures inside <==> |Flatten(entries)| <= a.Length
    ensures |Flatten(entries)| == a.Length ==> a[..] == Flatten(entries)
  {
    var ptr: nat, i := 0, 0;
    while i < |entries|
      invariant 0 <= i <= |entries| && ptr <= a.Length
      invariant a[..ptr] + Flatten(entries[i..]) == Flatten(entries)
    {
      FlattenStep(entries, i);
      if ptr + |entries[i]| > a.Length {
        return false;
      }
      ptr := CopyOne(a, ptr, entries[i], Flatten(entries[i + 1..]));
      i := i + 1;
    }
    inside := true;
  }

  method CopyOne(a: array<Int4>, ptr: nat, entry: seq<Int4>, ghost rest: seq<Int4>) returns (ptr': nat)
    requires ptr + |entry| <= a.Length
    modifies a
    ensures ptr' == ptr + |entry| && a[..ptr'] + rest == old(a[..ptr]) + (entry + rest)
  {
    ptr' := AppendRest(a, ptr, entry, 0);
    assert entry[0..] == entry;
  }

  // ----- Consistency of an entry with a search -----

  /** What a search asks of an array, by the operator that uses the index. */
  datatype Question =
    | OVERLAP(query: seq<Int4>)
    | SAME(query: seq<Int4>)
    | CONTAINS(query: seq<Int4>)
    | CONTAINEDBY(query: seq<Int4>)
    | BOOLEAN(e: Expr)

  function Has(s: set<Int4>): int -> bool {
    v => IsInt32(v) && v in s
  }

  /** Whether an array with these elements answers the question. */
  predicate Matches(q: Question, row: set<Int4>) {
    match q
    case OVERLAP(query) => row * Elements(query) != {}
    case SAME(query) => row == Elements(query)
    case CONTAINS(query) => Elements(query) <= row
    case CONTAINEDBY(query) => row <= Elements(query)
    case BOOLEAN(e) => Eval(e, Has(row))
  }

  /** The primitive cases of a query, on the elements of a key. */
  function Lookup(items: seq<Item>, key: set<Int4>): int -> bool {
    k => 0 <= k < |items| && items[k].node.ValNode? && Has(key)(items[k].node.val)
  }

  /** Consistency of an inner key. */
  predicate ConsistentInner(q: Question, key: set<Int4>) {
    match q
    case OVERLAP(query) => key * Elements(query) != {}
    case SAME(query) => Elements(query) <= key
    case CONTAINS(query) => Elements(query) <= key
    case CONTAINEDBY(query) => key * Elements(query) != {}
    case BOOLEAN(e) => Execute(Linked(e), Size(e) - 1, false, Lookup(Linked(e), key)) == Some(true)
  }

  predicate Answerable(q: Question) {
    q.BOOLEAN? ==> Fits(q.e)
  }

  lemma LeafExecute(e: Expr, row: set<Int4>)
    requires Fits(e)
    ensures Execute(Linked(e), Size(e) - 1, true, Lookup(Linked(e), row)) == Some(Eval(e, Has(row)))
  {
    WholeItems(e);
    CompiledMeaning(Linked(e), e, Lookup(Linked(e), row), Has(row));
  }

  /** An entry's consistency: exact on leaves, by ConsistentInner on inner keys. */
  method GIntConsistent(key: seq<Int4>, leaf: bool, q: Question) returns (retval: bool)
    requires Ascending(key) && Answerable(q)
    ensures retval == if leaf then Matches(q, Elements(key)) else ConsistentInner(q, Elements(key))
  {
    if q.BOOLEAN? {
      var items := Linked(q.e);
      LeafExecute(q.e, Elements(key));
      var r := Execute(items, |items| - 1, leaf, Lookup(items, Elements(key)));
      return r == Some(true);
    }
    var a := new Int4[|q.query|](k requires 0 <= k < |q.query| => q.query[k]);
    assert a[..] == q.query;
    var query := PrepareArr(a);
    PreparedIsSet(q.query);
    match q
    case OVERLAP(_) =>
      retval := InnerIntOverlap(key, query);
    case SAME(_) =>
      if leaf {
        retval := GIntSame(key, query);
      } else {
        retval := InnerIntContains(key, query);
      }
    case CONTAINS(_) =>
      retval := InnerIntContains(key, query);
    case CONTAINEDBY(_) =>
      if leaf {
        retval := InnerIntContains(query, key);
      } else {
        retval := InnerIntOverlap(key, query);
      }
  }

  /** Equality of arrays, which for ascending arrays is equality of their sets. */
  method GIntSame(a: seq<Int4>, b: seq<Int4>) returns (result: bool)
    requires Ascending(a) && Ascending(b)
    ensures result <==> Elements(a) == Elements(b)
  {
    if Elements(a) == Elements(b) {
      SameSetSameArray(a, b);
    }
    var n := |a|;
    if n != |b| {
      return false;
    }
    var k := 0;
    while k < n
      invariant 0 <= k <= n && a[..k] == b[..k]
    {
      if a[k] != b[k] {
        return false;
      }
      k := k + 1;
    }
    assert a == a[..n] == b[..n] == b;
    return true;
  }

  /** An inner key rejects no array below it that answers the question, except for one kind of
      question: an empty array is contained in anything, but found only where the key has
      something in common with the query. */
  lemma InnerExact(q: Question, key: set<Int4>)
    requires Answerable(q)
    ensures (forall row: set<Int4> :: row <= key && Matches(q, row) ==> ConsistentInner(q, key))
       <==> !(q.CONTAINEDBY? && key * Elements(q.query) == {})
  {
    forall row: set<Int4> | row <= key && Matches(q, row) && !(q.CONTAINEDBY? && key * Elements(q.query) == {})
      ensures ConsistentInner(q, key)
    {
      InnerKeeps(q, key, row);
    }
    var empty: set<Int4> := {};
    assert q.CONTAINEDBY? ==> Matches(q, empty);
  }

  lemma LookupApproximates(items: seq<Item>, key: set<Int4>, row: set<Int4>)
    requires row <= key
    ensures Approximates(items, Lookup(items, key), Has(row))
  {
    forall k | 0 <= k < |items| && items[k].node.ValNode? && Has(row)(items[k].node.val)
      ensures Lookup(items, key)(k)
    {
      var v := items[k].node.val;
      assert v in row && v in key;
      assert Has(key)(v);
    }
  }

  lemma InnerKeeps(q: Question, key: set<Int4>, row: set<Int4>)
    requires Answerable(q) && row <= key && Matches(q, row)
    ensures ConsistentInner(q, key) || (q.CONTAINEDBY? && row == {})
  {
    match q {
      case OVERLAP(query) =>
        var x :| x in row * Elements(query);
        assert x in key * Elements(query);
      case CONTAINEDBY(query) =>
        if x :| x in row {
          assert x in key * Elements(query);
        }
      case BOOLEAN(e) =>
        WholeItems(e);
        LookupApproximates(Linked(e), key, row);
        ExecuteApproximates(Linked(e), e, Lookup(Linked(e), key), Has(row));
      case _ =>
    }
  }

  /** Whether a query holds if every negation counts as true. */
  predicate NegationsTrue(e: Expr, has: int -> bool) {
    match e
    case Val(v) => has(v)
    case Not(_) => true
    case Bin(op, a, b) =>
      if op.AND? then NegationsTrue(a, has) && NegationsTrue(b, has) else NegationsTrue(a, has) || NegationsTrue(b, has)
  }

  /** An inner key is accepted if and only if some array within it answers the question; for the
      contained-by operator some array that is not empty, and for queries if they hold of the
      key itself with negations counted as true. */
  lemma InnerAccepts(q: Question, key: set<Int4>)
    requires Answerable(q)
    ensures q.OVERLAP? || q.SAME? || q.CONTAINS? ==>
      (ConsistentInner(q, key) <==> exists row: set<Int4> :: row <= key && Matches(q, row))
    ensures q.CONTAINEDBY? ==> (ConsistentInner(q, key) <==> exists row: set<Int4> :: row <= key && row != {} && Matches(q, row))
    ensures q.BOOLEAN? ==> (ConsistentInner(q, key) <==> NegationsTrue(q.e, Has(key)))
  {
    forall row: set<Int4> | row <= key && Matches(q, row) && !(q.CONTAINEDBY? && row == {})
      ensures ConsistentInner(q, key)
    {
      InnerKeeps(q, key, row);
    }
    if q.BOOLEAN? {
      WholeItems(q.e);
      ExecuteIsEval(Linked(q.e), 0, q.e, false, Lookup(Linked(q.e), key));
      OptimisticEval(Linked(q.e), 0, q.e, key);
    } else if ConsistentInner(q, key) {
      var row := AnswerWithin(q, key);
    }
  }

  lemma AnswerWithin(q: Question, key: set<Int4>) returns (row: set<Int4>)
    requires !q.BOOLEAN? && ConsistentInner(q, key)
    ensures row <= key && Matches(q, row) && (q.CONTAINEDBY? ==> row != {})
  {
    if q.OVERLAP? || q.CONTAINEDBY? {
      var x :| x in key * Elements(q.query);
      row := {x};
      assert x in row * Elements(q.query);
    } else {
      row := Elements(q.query);
    }
  }

  lemma {:induction false} OptimisticEval(items: seq<Item>, lo: nat, e: Expr, key: set<Int4>)
    requires ItemsAt(items, lo, e)
    ensures EvalAt(e, lo, false, Lookup(items, key)) <==> NegationsTrue(e, Has(key))
    decreases e
  {
    match e
    case Val(_) =>
    case Not(_) =>
    case Bin(_, a, b) =>
      OptimisticEval(items, lo, a, key);
      OptimisticEval(items, lo + Size(a), b, key);
  }

  // ----- Searching a tree -----

  /** Leaf entries hold arrays, inner entries stored keys. */
  type IntTree = Tree<seq<Int4>, seq<Int4>>

  /** A stored key can be read back, as an ascending array. */
  predicate Readable(key: seq<Int4>) {
    && (|key| >= 2 * MAXNUMRANGE ==> Ranges(key))
    && Decompressed(key).Success? && Ascending(Decompressed(key).value)
  }

  /** The elements of a stored key as the consistency check sees them. */
  function KeyElements(key: seq<Int4>): set<Int4> {
    if Readable(key) then Elements(Decompressed(key).value) else {}
  }

  predicate Encloses(key: seq<Int4>, row: seq<Int4>) {
    Elements(row) <= KeyElements(key)
  }

  /** The key of an entry as g_int_union receives it. */
  function SeenKey(t: IntTree): seq<Int4> {
    match t
    case Leaf(row) => row
    case Inner(key, _) => if Readable(key) then Decompressed(key).value else []
  }

  function SeenKeys(page: seq<IntTree>): (r: seq<seq<Int4>>)
    ensures |r| == |page| && forall i :: 0 <= i < |page| ==> r[i] == SeenKey(page[i])
  {
    seq(|page|, i requires 0 <= i < |page| => SeenKey(page[i]))
  }

  lemma SeenKeyEncloses(t: IntTree, row: seq<Int4>)
    requires Sound(t, Readable, Encloses) && row in Values(t)
    ensures Elements(row) <= Elements(SeenKey(t))
  {
  }

  /** An entry whose key is the compressed union of the keys on its page is sound, whenever
      there is room for the union and the key can be read back. */
  lemma UnionSound(page: seq<IntTree>)
    requires SoundPage(page, Readable, Encloses)
    ensures var union := PageUnion(SeenKeys(page));
      union.Success? ==> Ascending(union.value)
    ensures var union := PageUnion(SeenKeys(page));
      union.Success? && Restored(union.value).Success? ==> Sound(Inner(Compressed(union.value), page), Readable, Encloses)
  {
    var keys := SeenKeys(page);
    var union := KeyUnion(keys);
    PreparedIsSet(Flatten(keys));
    if Restored(union).Success? {
      RestoredIsSuperset(union);
      forall row | row in PageValues(page)
        ensures Encloses(Compressed(union), row)
      {
        var i := PageValueFrom(page, row);
        SoundPageAt(page, i, Readable, Encloses);
        SeenKeyEncloses(page[i], row);
        KeyUnionIsUnion(keys, i);
      }
    }
  }

  function MatchesRow(q: Question): seq<Int4> -> bool {
    row => Matches(q, Elements(row))
  }

  function ConsistentKey(q: Question): seq<Int4> -> bool {
    key => ConsistentInner(q, KeyElements(key))
  }

  function Search(t: IntTree, q: Question): seq<seq<Int4>> {
    Scan(t, MatchesRow(q), ConsistentKey(q))
  }

  /** A search finds exactly the arrays that answer the question, in order; for the
      contained-by operator, if no array of the tree is empty. */
  lemma SearchExact(t: IntTree, q: Question)
    requires Sound(t, Readable, Encloses) && Answerable(q)
    requires q.CONTAINEDBY? ==> [] !in Values(t)
    ensures Search(t, q) == Filter(Values(t), MatchesRow(q))
  {
    forall key, row | row in Values(t) && Readable(key) && Encloses(key, row) && MatchesRow(q)(row)
      ensures ConsistentKey(q)(key)
    {
      InnerKeeps(q, KeyElements(key), Elements(row));
      NoElements(row);
    }
    ScanExact(t, Readable, Encloses, MatchesRow(q), MatchesRow(q), ConsistentKey(q));
  }

  /** A tree in which a search for the arrays contained in {2} misses the empty array. */
  lemma EmptyArrayMissed()
    ensures var t := Inner([1], [Leaf([]), Leaf([1])]);
      && Sound(t, Readable, Encloses)
      && Search(t, CONTAINEDBY([2])) == []
      && [] in Filter(Values(t), MatchesRow(CONTAINEDBY([2])))
  {
    var empty: IntTree, one: IntTree := Leaf([]), Leaf([1]);
    var t: IntTree, q := Inner([1], [empty, one]), CONTAINEDBY([2]);
    TwoLeaves(empty, one);
    assert KeyElements([1]) == {1} && MatchesRow(q)([]);
  }

  lemma TwoLeaves(a: IntTree, b: IntTree)
    requires a.Leaf? && b.Leaf?
    ensures PageValues([a, b]) == [a.v, b.v] && SoundPage([a, b], Readable, Encloses)
  {
    PageOfOne(b, Readable, Encloses);
    assert [a, b][1..] == [b];
    assert Values(a) + Values(b) == [a.v, b.v];
  }

  // ----- Signatures -----

  const SIGLENBIT := 2016

  /** The bit an element sets in the signature of a large-array index key. */
  function HashVal(v: int): int {
    (v % 0x1_0000_0000) % SIGLENBIT
  }

  function Signature(row: set<Int4>): set<int> {
    set v | v in row :: HashVal(v)
  }

  function SignLookup(items: seq<Item>, sign: set<int>): int -> bool {
    k => 0 <= k < |items| && items[k].node.ValNode? && HashVal(items[k].node.val) in sign
  }

  /** A signature that holds the bits of a satisfying array is accepted, on leaves as above. */
  lemma SignatureKeeps(e: Expr, sign: set<int>, row: set<Int4>)
    requires Fits(e) && Signature(row) <= sign && Eval(e, Has(row))
    ensures Execute(Linked(e), Size(e) - 1, false, SignLookup(Linked(e), sign)) == Some(true)
  {
    var items := Linked(e);
    WholeItems(e);
    forall k | 0 <= k < |items| && items[k].node.ValNode? && Has(row)(items[k].node.val)
      ensures SignLookup(items, sign)(k)
    {
      assert HashVal(items[k].node.val) in Signature(row);
    }
    ExecuteApproximates(items, e, SignLookup(items, sign), Has(row));
  }
}
