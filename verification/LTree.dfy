/** ltree/ltree_op.c and ltree_gist.c: the order of label paths, and index keys that bound
    the paths below them. */
module LTree {
  import opened Wrappers
  import opened Ints
  import opened Bytes
  import opened LTreeWord
  import opened LTreeText
  import opened IndexScan

  /** A path is the sequence of its level names. */
  type Path = seq<Bytes>

  // ----- The order -----

  /** What the comparison returns, over unbounded integers; a level differs as bytes do, and
      the distance from the end scales the result. */
  function PathCompare(a: Path, b: Path): int {
    if a == [] || b == [] then (|a| - |b|) * 10 * (|a| + 1)
    else
      var res := Compare(a[0], b[0]);
      if res != 0 then res * 10 * (|a| + 1) else PathCompare(a[1..], b[1..])
  }

  method LtreeCompare(a: Path, b: Path) returns (r: int)
    ensures r == PathCompare(a, b)
  {
    var an, bn := |a|, |b|;
    var i := 0;
    while an > 0 && bn > 0
      invariant 0 <= i && an == |a| - i >= 0 && bn == |b| - i >= 0
      invariant PathCompare(a[i..], b[i..]) == PathCompare(a, b)
    {
      var res := Compare(a[i], b[i]);
      if res != 0 {
        return res * 10 * (an + 1);
      }
      an, bn, i := an - 1, bn - 1, i + 1;
    }
    return (|a| - |b|) * 10 * (an + 1);
  }

  predicate PathLe(a: Path, b: Path) {
    PathCompare(a, b) <= 0
  }

  predicate IsAncestor(p: Path, c: Path) {
    |p| <= |c| && c[..|p|] == p
  }

  predicate SameSign(x: int, y: int) {
    (x < 0 <==> y < 0) && (x == 0 <==> y == 0)
  }

  lemma ScaledSign(x: int, n: nat)
    ensures x * 10 * (n + 1) < 0 <==> x < 0
    ensures x * 10 * (n + 1) == 0 <==> x == 0
  {
    if x < 0 {
      assert x * 10 * (n + 1) <= -1 * (n + 1);
    } else if x > 0 {
      assert x * 10 * (n + 1) >= n + 1;
    }
  }

  lemma {:induction false} PathCompareSwap(a: Path, b: Path)
    ensures SameSign(PathCompare(a, b), -PathCompare(b, a))
    ensures PathCompare(a, b) == 0 <==> a == b
  {
    if a == [] || b == [] {
      ScaledSign(|a| - |b|, |a|);
      ScaledSign(|b| - |a|, |b|);
    } else {
      CompareSwap(a[0], b[0]);
      ScaledSign(Compare(a[0], b[0]), |a|);
      ScaledSign(Compare(b[0], a[0]), |b|);
      PathCompareSwap(a[1..], b[1..]);
      assert a == [a[0]] + a[1..] && b == [b[0]] + b[1..];
    }
  }

  /** One level decides, or the rest does. */
  lemma HeadDecides(a: Path, b: Path)
    requires a != [] && b != []
    ensures Compare(a[0], b[0]) < 0 ==> PathCompare(a, b) < 0
    ensures Compare(a[0], b[0]) > 0 ==> PathCompare(a, b) > 0
    ensures a[0] == b[0] ==> PathCompare(a, b) == PathCompare(a[1..], b[1..])
  {
    CompareSwap(a[0], b[0]);
    ScaledSign(Compare(a[0], b[0]), |a|);
  }

  lemma EmptyFirst(a: Path)
    ensures PathLe([], a) && (PathLe(a, []) ==> a == [])
  {
    ScaledSign(|a|, |a|);
  }

  /** a has a smaller name where the paths first differ, or ends there. */
  predicate PathBefore(a: Path, b: Path) {
    exists k :: 0 <= k <= |a| && k < |b| && a[..k] == b[..k] && (k == |a| || Smaller(a[k], b[k]))
  }

  lemma {:induction false} BeforeAt(a: Path, b: Path, k: nat)
    requires k <= |a| && k < |b| && a[..k] == b[..k] && (k == |a| || Smaller(a[k], b[k]))
    ensures PathCompare(a, b) < 0
  {
    if k == 0 {
      if a == [] {
        EmptyFirst(b);
        PathCompareSwap(a, b);
      } else {
        CompareIsOrder(a[0], b[0]);
        HeadDecides(a, b);
      }
    } else {
      assert a[0] == a[..k][0] == b[..k][0] == b[0];
      assert a[1..][..k - 1] == a[..k][1..] && b[1..][..k - 1] == b[..k][1..];
      HeadDecides(a, b);
      BeforeAt(a[1..], b[1..], k - 1);
    }
  }

  lemma {:induction false} BeforeFrom(a: Path, b: Path) returns (k: nat)
    requires PathCompare(a, b) < 0
    ensures k <= |a| && k < |b| && a[..k] == b[..k] && (k == |a| || Smaller(a[k], b[k]))
  {
    EmptyFirst(a);
    if a == [] || b == [] || a[0] != b[0] {
      k := 0;
      if a != [] && b != [] {
        HeadDecides(a, b);
        CompareSwap(a[0], b[0]);
        CompareIsOrder(a[0], b[0]);
      }
    } else {
      HeadDecides(a, b);
      k := BeforeFrom(a[1..], b[1..]);
      assert a[..k + 1] == [a[0]] + a[1..][..k] && b[..k + 1] == [b[0]] + b[1..][..k];
      k := k + 1;
    }
  }

  /** The comparison has the direction it should have. */
  lemma PathOrder(a: Path, b: Path)
    ensures PathCompare(a, b) < 0 <==> PathBefore(a, b)
    ensures PathLe(a, b) <==> a == b || PathBefore(a, b)
  {
    PathCompareSwap(a, b);
    if PathCompare(a, b) < 0 {
      var k := BeforeFrom(a, b);
    }
    if k :| 0 <= k <= |a| && k < |b| && a[..k] == b[..k] && (k == |a| || Smaller(a[k], b[k])) {
      BeforeAt(a, b, k);
    }
  }

  lemma {:induction false} PathLeTransitive(a: Path, b: Path, c: Path)
    requires PathLe(a, b) && PathLe(b, c)
    ensures PathLe(a, c)
    decreases |b|
  {
    EmptyFirst(a);
    EmptyFirst(b);
    EmptyFirst(c);
    if a != [] && b != [] && c != [] {
      HeadDecides(a, b);
      HeadDecides(b, c);
      HeadDecides(a, c);
      CompareSwap(a[0], b[0]);
      CompareSwap(b[0], c[0]);
      LeTransitive(a[0], b[0], c[0]);
      if a[0] == b[0] == c[0] {
        PathLeTransitive(a[1..], b[1..], c[1..]);
      }
    }
  }

  lemma PathLeTotal(a: Path, b: Path)
    ensures PathLe(a, b) || PathLe(b, a)
  {
    PathCompareSwap(a, b);
  }

  function Truncated(a: Path, n: nat): (r: Path)
    ensures IsAncestor(r, a)
  {
    if n < |a| then a[..n] else a
  }

  /** Cutting both paths to n levels keeps their order. */
  lemma {:induction false} TruncateMonotone(a: Path, b: Path, n: nat)
    requires PathLe(a, b)
    ensures PathLe(Truncated(a, n), Truncated(b, n))
    decreases n
  {
    EmptyFirst(Truncated(b, n));
    EmptyFirst(a);
    if n > 0 && a != [] && b != [] {
      HeadDecides(a, b);
      HeadDecides(Truncated(a, n), Truncated(b, n));
      if a[0] == b[0] {
        TruncateMonotone(a[1..], b[1..], n - 1);
        assert Truncated(a, n)[1..] == Truncated(a[1..], n - 1);
        assert Truncated(b, n)[1..] == Truncated(b[1..], n - 1);
      } else {
        CompareSwap(a[0], b[0]);
      }
    }
  }

  /** Whether p is c or an ancestor of it. */
  method InnerIsparent(c: Path, p: Path) returns (r: bool)
    ensures r <==> IsAncestor(p, c)
  {
    var pn := |p|;
    if pn > |c| {
      return false;
    }
    while pn > 0
      invariant 0 <= pn <= |p| && p[..|p| - pn] == c[..|p| - pn]
    {
      var i := |p| - pn;
      if c[i] != p[i] {
        assert c[i] == c[..|p|][i];
        return false;
      }
      pn := pn - 1;
    }
    assert p[..|p|] == p;
    return true;
  }

  // ----- The order in int arithmetic -----

  /** Names have at most 255 characters of up to 4 bytes, paths at most 65535 levels. */
  ghost predicate Storable(a: Path) {
    |a| <= 0xffff && forall k :: 0 <= k < |a| ==> |a[k]| <= 1020
  }

  lemma MulLe(x: int, y: int, m: nat)
    requires x <= y
    ensures x * m <= y * m
  {
  }

  lemma ScaledBound(x: int, n: nat)
    requires -1020 <= x <= 1020 && n <= 0xffff
    ensures -668_467_200 <= x * 10 * (n + 1) <= 668_467_200
  {
    MulLe(x * 10, 10_200, n + 1);
    MulLe(-10_200, x * 10, n + 1);
  }

  /** Only the comparison of a path with an ancestor of it gives a large result. */
  lemma {:induction false} PathCompareRange(a: Path, b: Path)
    requires Storable(a) && Storable(b)
    ensures IsAncestor(b, a) ==> PathCompare(a, b) == (|a| - |b|) * 10 * (|a| - |b| + 1)
    ensures !IsAncestor(b, a) ==> -668_467_200 <= PathCompare(a, b) <= 668_467_200
  {
    if a != [] && b != [] {
      CompareSwap(a[0], b[0]);
      ScaledBound(Compare(a[0], b[0]), |a|);
      PathCompareRange(a[1..], b[1..]);
      if a[0] == b[0] {
        HeadDecides(a, b);
        assert IsAncestor(b[1..], a[1..]) ==> b == [b[0]] + b[1..] == [a[0]] + a[1..][..|b| - 1] == a[..|b|];
      } else if |b| <= |a| {
        assert b[0] != a[..|b|][0];
      }
      assert IsAncestor(b, a) ==> a[1..][..|b| - 1] == a[..|b|][1..];
    }
  }

  /** The int result orders two storable paths as it should, except exactly when the second
      is an ancestor of the first so many levels up that the result wraps.  This takes the C
      library's `memcmp` to return the difference of two bytes; the standard only fixes its
      sign, and a larger result would be multiplied, and could wrap, too. */
  lemma IntCompareExact(a: Path, b: Path)
    requires Storable(a) && Storable(b)
    ensures SameSign(Wrap32(PathCompare(a, b)), PathCompare(a, b))
       <==> !(IsAncestor(b, a) && Depth(a, b) > 0 && Wrap32(Depth(a, b) * 10 * (Depth(a, b) + 1)) <= 0)
  {
    PathCompareRange(a, b);
    if IsAncestor(b, a) {
      ScaledSign(Depth(a, b), Depth(a, b));
    }
  }

  /** The number of levels from an ancestor down. */
  function Depth(a: Path, b: Path): int {
    |a| - |b|
  }

  lemma DepthFits(d: nat)
    requires d <= 14653
    ensures d * 10 * (d + 1) <= 2_147_250_620
  {
    MulLe(d + 1, 14654, d * 10);
  }

  /** That takes at least 14654 levels. */
  lemma IntCompareShallow(a: Path, b: Path)
    requires Storable(a) && Storable(b) && Depth(a, b) <= 14653
    ensures Wrap32(PathCompare(a, b)) == PathCompare(a, b)
  {
    PathCompareRange(a, b);
    if IsAncestor(b, a) {
      DepthFits(Depth(a, b));
    }
  }

  /** With exactly so many levels between them, either path comes out less than the other. */
  lemma IntCompareDeep(a: Path, b: Path)
    requires Storable(a) && Storable(b) && IsAncestor(b, a) && Depth(a, b) == 14654
    ensures Wrap32(PathCompare(a, b)) < 0 && Wrap32(PathCompare(b, a)) < 0
  {
    PathCompareRange(a, b);
    AncestorBelow(b, a);
    assert PathCompare(a, b) == 2_147_543_700;
  }

  lemma {:induction false} AncestorBelow(p: Path, c: Path)
    requires IsAncestor(p, c)
    ensures PathCompare(p, c) == (|p| - |c|) * 10
  {
    if p != [] {
      assert p[0] == c[..|p|][0];
      HeadDecides(p, c);
      assert c[1..][..|p| - 1] == c[..|p|][1..];
      AncestorBelow(p[1..], c[1..]);
    }
  }

  // ----- Index keys -----

  const SIGLENBIT := 64

  /** All paths below an entry lie between left and right, and their names set only bits of the
      signature; None stands for a signature with all bits set. */
  datatype Key = Key(left: Path, right: Path, sign: Option<set<int>>)

  /** What a page holds: single paths or keys. */
  datatype Entry = OneNode(node: Path) | Span(key: Key)

  function LeftNode(e: Entry): Path {
    if e.OneNode? then e.node else e.key.left
  }

  function RightNode(e: Entry): Path {
    if e.OneNode? then e.node else e.key.right
  }

  function HashVal(crc: int): int {
    (crc % 0x1_0000_0000) % SIGLENBIT
  }

  /** The bits the names of a path set. */
  function Hashing(crc: Bytes -> int, t: Path): set<int> {
    set name | name in t :: HashVal(crc(name))
  }

  function SignOf(crc: Bytes -> int, e: Entry): Option<set<int>> {
    if e.OneNode? then Some(Hashing(crc, e.node)) else e.key.sign
  }

  predicate SignIncludes(sign: Option<set<int>>, bits: set<int>) {
    sign.None? || bits <= sign.value
  }

  /** A path lies between the bounds, and its names set bits of the signature. */
  predicate Covers(crc: Bytes -> int, key: Key, p: Path) {
    PathLe(key.left, p) && PathLe(p, key.right) && SignIncludes(key.sign, Hashing(crc, p))
  }

  function KeyCovers(crc: Bytes -> int): (Key, Path) -> bool {
    (key: Key, p: Path) => Covers(crc, key, p)
  }

  /** The paths an entry may stand for. */
  predicate EntryCovers(crc: Bytes -> int, e: Entry, p: Path) {
    if e.OneNode? then p == e.node else Covers(crc, e.key, p)
  }

  function Join(a: Option<set<int>>, b: Option<set<int>>): Option<set<int>> {
    if a.None? || b.None? then None else Some(a.value + b.value)
  }

  function JoinedSign(crc: Bytes -> int, entries: seq<Entry>, n: nat): Option<set<int>>
    requires n <= |entries|
  {
    if n == 0 then Some({}) else Join(JoinedSign(crc, entries, n - 1), SignOf(crc, entries[n - 1]))
  }

  function BitsBelow(n: nat): set<int> {
    if n == 0 then {} else BitsBelow(n - 1) + {n - 1}
  }

  function AllBits(): set<int> {
    BitsBelow(SIGLENBIT)
  }

  /** The left node of the union is the least left node of the entries, its right node the
      greatest right node, its signature the union of theirs. */
  ghost predicate IsUnion(crc: Bytes -> int, entries: seq<Entry>, key: Key) {
    && (exists i :: 0 <= i < |entries| && key.left == LeftNode(entries[i]))
    && (exists i :: 0 <= i < |entries| && key.right == RightNode(entries[i]))
    && (forall i :: 0 <= i < |entries| ==> PathLe(key.left, LeftNode(entries[i])) && PathLe(RightNode(entries[i]), key.right))
    && var joined := JoinedSign(crc, entries, |entries|);
       key.sign == if joined == Some(AllBits()) then None else joined
  }

  function Lesser(a: Path, b: Path): Path {
    if PathCompare(a, b) > 0 then b else a
  }

  function Greater(a: Path, b: Path): Path {
    if PathCompare(a, b) < 0 then b else a
  }

  /** The least left node and the greatest right node of the first n entries. */
  ghost predicate Extremes(entries: seq<Entry>, n: nat, left: Path, right: Path) {
    && n <= |entries|
    && (exists i :: 0 <= i < n && left == LeftNode(entries[i]))
    && (exists i :: 0 <= i < n && right == RightNode(entries[i]))
    && (forall i :: 0 <= i < n ==> PathLe(left, LeftNode(entries[i])) && PathLe(RightNode(entries[i]), right))
  }

  lemma ExtremesStep(entries: seq<Entry>, n: nat, left: Path, right: Path)
    requires n < |entries| && Extremes(entries, n, left, right)
    ensures Extremes(entries, n + 1, Lesser(left, LeftNode(entries[n])), Greater(right, RightNode(entries[n])))
  {
    var left', right' := Lesser(left, LeftNode(entries[n])), Greater(right, RightNode(entries[n]));
    PathCompareSwap(left, LeftNode(entries[n]));
    PathCompareSwap(right, RightNode(entries[n]));
    PathCompareSwap(left, left);
    PathCompareSwap(right, right);
    forall i | 0 <= i < n + 1
      ensures PathLe(left', LeftNode(entries[i])) && PathLe(RightNode(entries[i]), right')
    {
      if i < n {
        PathLeTransitive(left', left, LeftNode(entries[i]));
        PathLeTransitive(RightNode(entries[i]), right, right');
      } else {
        PathCompareSwap(left', LeftNode(entries[n]));
        PathCompareSwap(RightNode(entries[n]), right');
      }
    }
  }

  /** Add the bits of one entry. */
  method AddSign(crc: Bytes -> int, base: set<int>, isalltrue: bool, cur: Entry) returns (base': set<int>, isalltrue': bool)
    ensures (if isalltrue' then None else Some(base')) == Join(if isalltrue then None else Some(base), SignOf(crc, cur))
  {
    base', isalltrue' := base, isalltrue;
    if cur.OneNode? {
      base' := base + Hashing(crc, cur.node);
    } else if isalltrue || cur.key.sign.None? {
      isalltrue' := true;
    } else {
      base' := base + cur.key.sign.value;
    }
  }

  /** Let the bounds, if there are any yet, take in one entry. */
  method Widen(left: Option<Path>, right: Option<Path>, cur: Entry) returns (left': Option<Path>, right': Option<Path>)
    ensures left' == Some(if left.None? then LeftNode(cur) else Lesser(left.value, LeftNode(cur)))
    ensures right' == Some(if right.None? then RightNode(cur) else Greater(right.value, RightNode(cur)))
  {
    left', right' := left, right;
    if left.None? || PathCompare(left.value, LeftNode(cur)) > 0 {
      left' := Some(LeftNode(cur));
    }
    if right.None? || PathCompare(right.value, RightNode(cur)) < 0 {
      right' := Some(RightNode(cur));
    }
  }

  lemma ExtremesFirst(entries: seq<Entry>)
    requires entries != []
    ensures Extremes(entries, 1, LeftNode(entries[0]), RightNode(entries[0]))
  {
    PathCompareSwap(LeftNode(entries[0]), LeftNode(entries[0]));
    PathCompareSwap(RightNode(entries[0]), RightNode(entries[0]));
  }

  method LtreeUnion(crc: Bytes -> int, entries: seq<Entry>) returns (result: Key)
    requires entries != []
    ensures IsUnion(crc, entries, result)
  {
    var base: set<int> := {};
    var isalltrue := false;
    var left: Option<Path>, right: Option<Path> := None, None;
    var j := 0;
    ExtremesFirst(entries);
    while j < |entries|
      invariant 0 <= j <= |entries|
      invariant j == 0 ==> left == right == None
      invariant j > 0 ==> left.Some? && right.Some? && Extremes(entries, j, left.value, right.value)
      invariant JoinedSign(crc, entries, j) == if isalltrue then None else Some(base)
    {
      if j > 0 {
        ExtremesStep(entries, j, left.value, right.value);
      }
      base, isalltrue := AddSign(crc, base, isalltrue, entries[j]);
      left, right := Widen(left, right, entries[j]);
      j := j + 1;
    }
    if !isalltrue {
      isalltrue := base == AllBits();
    }
    result := Key(left.value, right.value, if isalltrue then None else Some(base));
  }

  lemma {:induction false} JoinedIncludes(crc: Bytes -> int, entries: seq<Entry>, n: nat, i: nat, bits: set<int>)
    requires i < n <= |entries| && SignIncludes(SignOf(crc, entries[i]), bits)
    ensures SignIncludes(JoinedSign(crc, entries, n), bits)
  {
    if i < n - 1 {
      JoinedIncludes(crc, entries, n - 1, i, bits);
    }
  }

  /** The union covers every path any of its entries covers. */
  lemma UnionCovers(crc: Bytes -> int, entries: seq<Entry>, key: Key, i: nat, p: Path)
    requires IsUnion(crc, entries, key) && i < |entries| && EntryCovers(crc, entries[i], p)
    ensures Covers(crc, key, p)
  {
    PathCompareSwap(p, p);
    PathLeTransitive(key.left, LeftNode(entries[i]), p);
    PathLeTransitive(p, RightNode(entries[i]), key.right);
    JoinedIncludes(crc, entries, |entries|, i, Hashing(crc, p));
  }

  // ----- Pruning tests -----

  /** A path whose number of levels can be cut back for a while. */
  class LevelBuffer {
    var numlevel: nat
    const levels: Path

    predicate Valid()
      reads this
    {
      numlevel <= |levels|
    }

    constructor (p: Path)
      ensures Valid() && Value() == p
    {
      numlevel, levels := |p|, p;
    }

    function Value(): Path
      reads this
      requires Valid()
    {
      levels[..numlevel]
    }
  }

  predicate Between(key: Key, p: Path) {
    PathLe(key.left, p) && PathLe(p, key.right)
  }

  /** Whether the query or some ancestor of it lies between the bounds. */
  predicate AncestorBetween(key: Key, query: Path) {
    exists i :: 0 <= i <= |query| && Between(key, query[..i])
  }

  /** The query's levels are cut back one by one, and restored. */
  method GistIsparent(key: Key, query: LevelBuffer) returns (r: bool)
    requires query.Valid()
    modifies query
    ensures query.Valid() && query.Value() == old(query.Value())
    ensures r <==> AncestorBetween(key, query.Value())
  {
    var numlevel := query.numlevel;
    ghost var q := query.Value();
    var i: int := numlevel;
    while i >= 0
      invariant -1 <= i <= numlevel <= |query.levels| && q == query.levels[..numlevel]
      invariant forall k :: i < k <= numlevel ==> !Between(key, q[..k])
    {
      query.numlevel := i;
      assert q[..i] == query.Value();
      PathCompareSwap(query.Value(), key.left);
      if PathCompare(query.Value(), key.left) >= 0 && PathCompare(query.Value(), key.right) <= 0 {
        query.numlevel := numlevel;
        assert Between(key, q[..i]);
        return true;
      }
      i := i - 1;
    }
    query.numlevel := numlevel;
    return false;
  }

  /** Whether the query lies between the bounds cut to its number of levels. */
  predicate DescendantBetween(key: Key, query: Path) {
    PathLe(Truncated(key.left, |query|), query) && PathLe(query, Truncated(key.right, |query|))
  }

  method GistIschild(key: Key, query: Path) returns (res: bool)
    ensures res <==> DescendantBetween(key, query)
  {
    var left, right := key.left, key.right;
    res := true;
    if |left| > |query| {
      left := left[..|query|];
    }
    assert left == Truncated(key.left, |query|);
    PathCompareSwap(left, query);
    if PathCompare(query, left) < 0 {
      res := false;
    }
    if |right| > |query| {
      right := right[..|query|];
    }
    assert right == Truncated(key.right, |query|);
    if res && PathCompare(query, right) > 0 {
      res := false;
    }
  }

  /** A level of a pattern: its words, none for a star, and whether it is negated. */
  datatype QueryLevel = QueryLevel(variants: seq<Word>, not: bool)

  /** A pattern and the paths it matches. */
  datatype LQuery = LQuery(levels: seq<QueryLevel>, matching: Path -> bool)

  /** A level that is one word without modifiers. */
  predicate Literal(v: QueryLevel) {
    |v.variants| == 1 && !v.not && Plain(v.variants[0])
  }

  /** The number of literal levels a pattern starts with. */
  function FirstGood(levels: seq<QueryLevel>): (n: nat)
    ensures n <= |levels|
  {
    if levels == [] || !Literal(levels[0]) then 0 else 1 + FirstGood(levels[1..])
  }

  lemma {:induction false} FirstGoodAt(levels: seq<QueryLevel>, i: nat)
    requires i < FirstGood(levels)
    ensures Literal(levels[i])
  {
    if i > 0 {
      FirstGoodAt(levels[1..], i - 1);
      assert levels[1..][i - 1] == levels[i];
    }
  }

  function FirstVariant(q: LQuery, i: int): Bytes {
    if 0 <= i < |q.levels| && q.levels[i].variants != [] then q.levels[i].variants[0].name else []
  }

  /** The names of the literal levels. */
  function Literals(q: LQuery): (r: Path)
    ensures |r| == FirstGood(q.levels)
  {
    seq(FirstGood(q.levels), i => FirstVariant(q, i))
  }

  /** Whether the signature is asked about a level: it is neither a star nor negated, and no word
      of it forbids that. */
  predicate CanLookLevel(v: QueryLevel) {
    v.variants != [] && !v.not && forall w :: w in v.variants ==> CanLookSign(w)
  }

  predicate LevelPresent(fold: Bytes -> Bytes, v: QueryLevel, p: Path) {
    exists w, name :: w in v.variants && name in p && NameMatches(fold, w, name)
  }

  /** A path that matches starts with the literal levels and has, for each level that is neither
      a star nor negated, a name that matches one of its words. */
  ghost predicate WellFormed(fold: Bytes -> Bytes, q: LQuery) {
    forall p :: q.matching(p) ==>
      && IsAncestor(Literals(q), p)
      && forall v :: v in q.levels && v.variants != [] && !v.not ==> LevelPresent(fold, v, p)
  }

  predicate LevelInSign(crc: Bytes -> int, v: QueryLevel, sign: set<int>) {
    CanLookLevel(v) ==> exists w :: w in v.variants && HashVal(crc(w.name)) in sign
  }

  method GistQe(crc: Bytes -> int, key: Key, q: LQuery) returns (r: bool)
    ensures r <==> key.sign.None? || forall v :: v in q.levels ==> LevelInSign(crc, v, key.sign.value)
  {
    if key.sign.None? {
      return true;
    }
    var i := 0;
    while i < |q.levels|
      invariant 0 <= i <= |q.levels|
      invariant forall k :: 0 <= k < i ==> LevelInSign(crc, q.levels[k], key.sign.value)
    {
      var curq := q.levels[i];
      if CanLookLevel(curq) {
        var isexist := false;
        var k := 0;
        while k < |curq.variants|
          invariant 0 <= k <= |curq.variants|
          invariant !isexist
          invariant forall j :: 0 <= j < k ==> HashVal(crc(curq.variants[j].name)) !in key.sign.value
        {
          if HashVal(crc(curq.variants[k].name)) in key.sign.value {
            isexist := true;
            break;
          }
          k := k + 1;
        }
        if !isexist {
          assert curq in q.levels;
          return false;
        }
        assert curq.variants[k] in curq.variants;
      }
      i := i + 1;
    }
    return true;
  }

  /** A path against a literal prefix, level by level. */
  function TqCompare(t: Path, good: Path): int {
    if t == [] || good == [] then Min(|t|, |good|) - |good|
    else
      var res := Compare(t[0], good[0]);
      if res != 0 then res else TqCompare(t[1..], good[1..])
  }

  method GistTqcmp(t: Path, q: LQuery) returns (r: int)
    ensures r == TqCompare(t, Literals(q))
  {
    ghost var good := Literals(q);
    var an, bn := |t|, FirstGood(q.levels);
    var i := 0;
    while an > 0 && bn > 0
      invariant 0 <= i && an == |t| - i >= 0 && bn == |good| - i >= 0
      invariant TqCompare(t[i..], good[i..]) == TqCompare(t, good)
    {
      FirstGoodAt(q.levels, i);
      var bl := q.levels[i].variants[0].name;
      assert bl == good[i..][0];
      var res := Compare(t[i], bl);
      if res != 0 {
        return res;
      }
      an, bn, i := an - 1, bn - 1, i + 1;
    }
    return Min(|t|, FirstGood(q.levels)) - FirstGood(q.levels);
  }

  /** It compares the path cut to as many levels. */
  lemma {:induction false} TqCompareIsTruncated(t: Path, good: Path)
    ensures SameSign(TqCompare(t, good), PathCompare(Truncated(t, |good|), good))
  {
    var c := Truncated(t, |good|);
    if t == [] || good == [] {
      ScaledSign(|c| - |good|, |c|);
    } else {
      HeadDecides(c, good);
      CompareSwap(t[0], good[0]);
      if t[0] == good[0] {
        TqCompareIsTruncated(t[1..], good[1..]);
        assert c[1..] == Truncated(t[1..], |good| - 1);
      }
    }
  }

  /** The two comparisons of a prefix test. */
  lemma TqCompareBounds(key: Key, good: Path)
    ensures DescendantBetween(key, good) <==> TqCompare(key.left, good) <= 0 <= TqCompare(key.right, good)
    ensures good == [] ==> DescendantBetween(key, good)
  {
    TqCompareIsTruncated(key.left, good);
    TqCompareIsTruncated(key.right, good);
    PathCompareSwap(good, Truncated(key.right, |good|));
  }

  method GistBetween(key: Key, q: LQuery) returns (r: bool)
    ensures r <==> DescendantBetween(key, Literals(q))
  {
    ghost var good := Literals(q);
    TqCompareBounds(key, good);
    if FirstGood(q.levels) == 0 {
      return true;
    }
    var l := GistTqcmp(key.left, q);
    if l > 0 {
      return false;
    }
    var u := GistTqcmp(key.right, q);
    r := u >= 0;
  }

  /** Whether some level name of the path matches a word of a text query. */
  function Present(fold: Bytes -> Bytes, p: Path): Word -> bool {
    (w: Word) => exists name :: name in p && NameMatches(fold, w, name)
  }

  /** Whether the signature leaves room for a word. */
  function Signed(crc: Bytes -> int, sign: set<int>): Word -> bool {
    (w: Word) => CanLookSign(w) ==> HashVal(crc(w.name)) in sign
  }

  /** The signature is asked about a word without `*` and `%`: by the 64 bits that checksums fall
      into. */
  lemma SignedExactly(crc: Bytes -> int, sign: set<int>, w: Word)
    ensures Signed(crc, sign)(w) <==> w.anyend || w.subword || ((crc(w.name) % 4294967296) % 64) in sign
  {
  }

  method GistQtxt(crc: Bytes -> int, key: Key, q: TextQuery) returns (r: bool)
    ensures r <==> key.sign.None? || Execute(q, false, Signed(crc, key.sign.value))
  {
    if key.sign.None? {
      return true;
    }
    return Execute(q, false, Signed(crc, key.sign.value));
  }

  /** The pruning tests for one pattern. */
  predicate PatternConsistent(crc: Bytes -> int, key: Key, q: LQuery) {
    && (key.sign.None? || forall v :: v in q.levels ==> LevelInSign(crc, v, key.sign.value))
    && DescendantBetween(key, Literals(q))
  }

  /** Whether any of several patterns passes its tests. */
  method ArrqCons(crc: Bytes -> int, key: Key, patterns: seq<LQuery>) returns (r: bool)
    ensures r <==> exists i :: 0 <= i < |patterns| && PatternConsistent(crc, key, patterns[i])
  {
    var i := 0;
    while i < |patterns|
      invariant 0 <= i <= |patterns|
      invariant forall k :: 0 <= k < i ==> !PatternConsistent(crc, key, patterns[k])
    {
      var q := patterns[i];
      var qe := GistQe(crc, key, q);
      var between := GistBetween(key, q);
      if qe && between {
        return true;
      }
      i := i + 1;
    }
    return false;
  }

  // ----- Consistency and scans -----

  datatype Strategy =
    | LESS(query: Path)
    | LESSEQUAL(query: Path)
    | EQUAL(query: Path)
    | GREATEREQUAL(query: Path)
    | GREATER(query: Path)
    | ANCESTORS(query: Path)
    | DESCENDANTS(query: Path)
    | PATTERN(pattern: LQuery)
    | TEXT(text: TextQuery)
    | PATTERNS(patterns: seq<LQuery>)

  predicate Satisfies(fold: Bytes -> Bytes, p: Path, s: Strategy) {
    match s
    case LESS(query) => PathLe(p, query) && p != query
    case LESSEQUAL(query) => PathLe(p, query)
    case EQUAL(query) => p == query
    case GREATEREQUAL(query) => PathLe(query, p)
    case GREATER(query) => PathLe(query, p) && p != query
    case ANCESTORS(query) => IsAncestor(p, query)
    case DESCENDANTS(query) => IsAncestor(query, p)
    case PATTERN(pattern) => pattern.matching(p)
    case TEXT(text) => Execute(text, true, Present(fold, p))
    case PATTERNS(patterns) => exists i :: 0 <= i < |patterns| && patterns[i].matching(p)
  }

  /** What the operators on paths ask for. */
  lemma OperatorsMean(fold: Bytes -> Bytes, p: Path, q: Path)
    ensures Satisfies(fold, p, LESS(q)) <==> PathBefore(p, q)
    ensures Satisfies(fold, p, LESSEQUAL(q)) <==> PathBefore(p, q) || p == q
    ensures Satisfies(fold, p, EQUAL(q)) <==> p == q
    ensures Satisfies(fold, p, GREATEREQUAL(q)) <==> PathBefore(q, p) || p == q
    ensures Satisfies(fold, p, GREATER(q)) <==> PathBefore(q, p)
    ensures Satisfies(fold, p, ANCESTORS(q)) <==> exists n :: 0 <= n <= |q| && p == q[..n]
    ensures Satisfies(fold, p, DESCENDANTS(q)) <==> exists n :: 0 <= n <= |p| && q == p[..n]
  {
    PathOrder(p, q);
    PathOrder(q, p);
    PathCompareSwap(p, q);
    assert IsAncestor(p, q) ==> p == q[..|p|];
    assert IsAncestor(q, p) ==> q == p[..|q|];
  }

  /** A text query holds of a path as its signs say. */
  lemma TextMeans(fold: Bytes -> Bytes, p: Path, w: Word, x: TextQuery, y: TextQuery)
    ensures Satisfies(fold, p, TEXT(Val(w))) <==> exists name :: name in p && NameMatches(fold, w, name)
    ensures Satisfies(fold, p, TEXT(Not(x))) <==> !Satisfies(fold, p, TEXT(x))
    ensures Satisfies(fold, p, TEXT(And(x, y))) <==> Satisfies(fold, p, TEXT(x)) && Satisfies(fold, p, TEXT(y))
    ensures Satisfies(fold, p, TEXT(Or(x, y))) <==> Satisfies(fold, p, TEXT(x)) || Satisfies(fold, p, TEXT(y))
  {
  }

  ghost predicate Usable(fold: Bytes -> Bytes, s: Strategy) {
    && (s.PATTERN? ==> WellFormed(fold, s.pattern))
    && (s.PATTERNS? ==> forall i :: 0 <= i < |s.patterns| ==> WellFormed(fold, s.patterns[i]))
  }

  /** Every name that matches a word sets the bit that is asked for. */
  ghost predicate Alike(crc: Bytes -> int, fold: Bytes -> Bytes, w: Word) {
    CanLookSign(w) ==> forall name :: NameMatches(fold, w, name) ==> HashVal(crc(name)) == HashVal(crc(w.name))
  }

  ghost predicate LevelsAlike(crc: Bytes -> int, fold: Bytes -> Bytes, q: LQuery) {
    forall v, w :: v in q.levels && CanLookLevel(v) && w in v.variants ==> Alike(crc, fold, w)
  }

  /** So it is for each word the signature is asked about. */
  ghost predicate WordsAlike(crc: Bytes -> int, fold: Bytes -> Bytes, s: Strategy) {
    && (s.PATTERN? ==> LevelsAlike(crc, fold, s.pattern))
    && (s.PATTERNS? ==> forall i :: 0 <= i < |s.patterns| ==> LevelsAlike(crc, fold, s.patterns[i]))
    && (s.TEXT? ==> forall w :: w in Words(s.text) ==> Alike(crc, fold, w))
  }

  /** Consistency of an inner key. */
  predicate Consistent(crc: Bytes -> int, key: Key, s: Strategy) {
    match s
    case LESS(query) => PathLe(key.left, query)
    case LESSEQUAL(query) => PathLe(key.left, query)
    case EQUAL(query) => Between(key, query)
    case GREATEREQUAL(query) => PathLe(query, key.right)
    case GREATER(query) => PathLe(query, key.right)
    case ANCESTORS(query) => AncestorBetween(key, query)
    case DESCENDANTS(query) => DescendantBetween(key, query)
    case PATTERN(q) => PatternConsistent(crc, key, q)
    case TEXT(q) => key.sign.None? || Execute(q, false, Signed(crc, key.sign.value))
    case PATTERNS(patterns) => exists i :: 0 <= i < |patterns| && PatternConsistent(crc, key, patterns[i])
  }

  /** The strategies that take a query of their own language, on inner keys. */
  method QueryConsistent(crc: Bytes -> int, key: Key, s: Strategy) returns (res: bool)
    requires (s.PATTERN? || s.TEXT? || s.PATTERNS?)
    ensures res <==> Consistent(crc, key, s)
  {
    match s
    case PATTERN(q) =>
      res := GistQe(crc, key, q);
      if res {
        res := GistBetween(key, q);
      }
    case TEXT(q) =>
      res := GistQtxt(crc, key, q);
    case PATTERNS(patterns) =>
      res := ArrqCons(crc, key, patterns);
  }

  /** `ltxtq_exec`: evaluate a text query on a path. */
  method LtxtqExec(fold: Bytes -> Bytes, p: Path, q: TextQuery) returns (r: bool)
    ensures r <==> Execute(q, true, Present(fold, p))
    decreases q
  {
    match q
    case Val(w) =>
      r := CheckconditionStr(fold, w, p);
    case Not(x) =>
      r := LtxtqExec(fold, p, x);
      r := !r;
    case And(a, b) =>
      r := LtxtqExec(fold, p, a);
      if r {
        r := LtxtqExec(fold, p, b);
      }
    case Or(a, b) =>
      r := LtxtqExec(fold, p, a);
      if !r {
        r := LtxtqExec(fold, p, b);
      }
  }

  /** `lt_q_regex`: whether any of the patterns matches. */
  method LtQRegex(p: Path, patterns: seq<LQuery>) returns (r: bool)
    ensures r <==> exists i :: 0 <= i < |patterns| && patterns[i].matching(p)
  {
    var i := 0;
    while i < |patterns|
      invariant 0 <= i <= |patterns|
      invariant forall k :: 0 <= k < i ==> !patterns[k].matching(p)
    {
      if patterns[i].matching(p) {
        return true;
      }
      i := i + 1;
    }
    return false;
  }

  /** The strategies that take a query of their own language, on leaves. */
  method LeafQuery(fold: Bytes -> Bytes, p: Path, s: Strategy) returns (res: bool)
    requires s.PATTERN? || s.TEXT? || s.PATTERNS?
    ensures res <==> Satisfies(fold, p, s)
  {
    match s
    case PATTERN(q) =>
      res := q.matching(p);
    case TEXT(q) =>
      res := LtxtqExec(fold, p, q);
    case PATTERNS(patterns) =>
      res := LtQRegex(p, patterns);
  }

  /** Exact on leaf entries, by the pruning tests on inner ones. */
  method LtreeConsistent(crc: Bytes -> int, fold: Bytes -> Bytes, e: Entry, s: Strategy) returns (res: bool)
    ensures res <==> if e.OneNode? then Satisfies(fold, e.node, s) else Consistent(crc, e.key, s)
  {
    if s.PATTERN? || s.TEXT? || s.PATTERNS? {
      if e.OneNode? {
        res := LeafQuery(fold, e.node, s);
        return;
      }
      res := QueryConsistent(crc, e.key, s);
      return;
    }
    var query, left, right := s.query, LeftNode(e), RightNode(e);
    PathCompareSwap(query, left);
    match s
    case LESS(_) =>
      res := if e.OneNode? then PathCompare(query, left) > 0 else PathCompare(query, left) >= 0;
    case LESSEQUAL(_) =>
      res := PathCompare(query, left) >= 0;
    case EQUAL(_) =>
      res := if e.OneNode? then PathCompare(query, left) == 0
             else PathCompare(query, left) >= 0 && PathCompare(query, right) <= 0;
    case GREATEREQUAL(_) =>
      res := PathCompare(query, right) <= 0;
    case GREATER(_) =>
      res := if e.OneNode? then PathCompare(query, right) < 0 else PathCompare(query, right) <= 0;
    case ANCESTORS(_) =>
      if e.OneNode? {
        res := InnerIsparent(query, left);
      } else {
        var buffer := new LevelBuffer(query);
        res := GistIsparent(e.key, buffer);
      }
    case DESCENDANTS(_) =>
      if e.OneNode? {
        res := InnerIsparent(left, query);
      } else {
        res := GistIschild(e.key, query);
      }
  }

  /** No test rejects a key that covers a path satisfying the operator, if the names that match
      the words the signature is asked about hash like them. */
  lemma ConsistentKeeps(crc: Bytes -> int, fold: Bytes -> Bytes, key: Key, s: Strategy, p: Path)
    requires Usable(fold, s) && WordsAlike(crc, fold, s) && Covers(crc, key, p) && Satisfies(fold, p, s)
    ensures Consistent(crc, key, s)
  {
    match s {
      case LESS(query) => PathLeTransitive(key.left, p, query);
      case LESSEQUAL(query) => PathLeTransitive(key.left, p, query);
      case EQUAL(_) =>
      case GREATEREQUAL(query) => PathLeTransitive(query, p, key.right);
      case GREATER(query) => PathLeTransitive(query, p, key.right);
      case ANCESTORS(query) => assert Between(key, query[..|p|]);
      case DESCENDANTS(query) => PrefixBetween(key, p, query);
      case PATTERN(q) => PatternKeeps(crc, fold, key, q, p);
      case TEXT(q) =>
        if key.sign.Some? {
          PresentSigned(crc, fold, key.sign.value, q, p);
          ExecuteKeeps(q, Present(fold, p), Signed(crc, key.sign.value));
        }
      case PATTERNS(patterns) =>
        var i :| 0 <= i < |patterns| && patterns[i].matching(p);
        PatternKeeps(crc, fold, key, patterns[i], p);
    }
  }

  lemma PatternKeeps(crc: Bytes -> int, fold: Bytes -> Bytes, key: Key, q: LQuery, p: Path)
    requires WellFormed(fold, q) && LevelsAlike(crc, fold, q) && Covers(crc, key, p) && q.matching(p)
    ensures PatternConsistent(crc, key, q)
  {
    PrefixBetween(key, p, Literals(q));
    if key.sign.Some? {
      forall v | v in q.levels
        ensures LevelInSign(crc, v, key.sign.value)
      {
        if CanLookLevel(v) {
          assert LevelPresent(fold, v, p);
          var w, name :| w in v.variants && name in p && NameMatches(fold, w, name);
          NameSigned(crc, fold, key.sign.value, p, w, name);
        }
      }
    }
  }

  lemma NameSigned(crc: Bytes -> int, fold: Bytes -> Bytes, sign: set<int>, p: Path, w: Word, name: Bytes)
    requires Hashing(crc, p) <= sign && name in p && NameMatches(fold, w, name) && Alike(crc, fold, w) && CanLookSign(w)
    ensures HashVal(crc(w.name)) in sign
  {
    assert HashVal(crc(name)) in Hashing(crc, p);
  }

  lemma PresentSigned(crc: Bytes -> int, fold: Bytes -> Bytes, sign: set<int>, q: TextQuery, p: Path)
    requires Hashing(crc, p) <= sign && forall w :: w in Words(q) ==> Alike(crc, fold, w)
    ensures forall w :: w in Words(q) && Present(fold, p)(w) ==> Signed(crc, sign)(w)
  {
    forall w | w in Words(q) && Present(fold, p)(w) && CanLookSign(w)
      ensures Signed(crc, sign)(w)
    {
      var name :| name in p && NameMatches(fold, w, name);
      NameSigned(crc, fold, sign, p, w, name);
    }
  }

  /** A path between the bounds has each of its ancestors between the bounds cut to the
      ancestor's number of levels. */
  lemma PrefixBetween(key: Key, p: Path, good: Path)
    requires Between(key, p) && IsAncestor(good, p)
    ensures DescendantBetween(key, good)
  {
    assert Truncated(p, |good|) == good;
    TruncateMonotone(key.left, p, |good|);
    TruncateMonotone(p, key.right, |good|);
  }

  type PathTree = Tree<Key, Path>

  predicate AnyKey(key: Key) {
    true
  }

  function EntryOf(t: PathTree): Entry {
    match t
    case Leaf(v) => OneNode(v)
    case Inner(key, _) => Span(key)
  }

  function Entries(page: seq<PathTree>): (r: seq<Entry>)
    ensures |r| == |page| && forall i :: 0 <= i < |page| ==> r[i] == EntryOf(page[i])
  {
    seq(|page|, i requires 0 <= i < |page| => EntryOf(page[i]))
  }

  /** A page under the union of its entries is sound. */
  lemma UnionSound(crc: Bytes -> int, page: seq<PathTree>, key: Key)
    requires SoundPage(page, AnyKey, KeyCovers(crc)) && IsUnion(crc, Entries(page), key)
    ensures Sound(Inner(key, page), AnyKey, KeyCovers(crc))
  {
    forall p | p in PageValues(page)
      ensures KeyCovers(crc)(key, p)
    {
      var i := PageValueFrom(page, p);
      SoundPageAt(page, i, AnyKey, KeyCovers(crc));
      UnionCovers(crc, Entries(page), key, i, p);
    }
  }

  function Search(crc: Bytes -> int, fold: Bytes -> Bytes, t: PathTree, s: Strategy): seq<Path> {
    Scan(t, (p: Path) => Satisfies(fold, p, s), (key: Key) => Consistent(crc, key, s))
  }

  /** A search of a tree finds exactly the paths that satisfy the operator, in order. */
  ghost predicate Exact(crc: Bytes -> int, fold: Bytes -> Bytes, t: PathTree, s: Strategy) {
    Search(crc, fold, t, s) == Filter(Values(t), (p: Path) => Satisfies(fold, p, s))
  }

  /** So does every search by well-formed queries whose words hash like the names they match. */
  lemma SearchExact(crc: Bytes -> int, fold: Bytes -> Bytes, t: PathTree, s: Strategy)
    requires Usable(fold, s) && WordsAlike(crc, fold, s) && Sound(t, AnyKey, KeyCovers(crc))
    ensures Exact(crc, fold, t, s)
  {
    forall key, p | p in Values(t) && Covers(crc, key, p) && Satisfies(fold, p, s)
      ensures Consistent(crc, key, s)
    {
      ConsistentKeeps(crc, fold, key, s, p);
    }
    KeepingIsExact(crc, fold, t, s);
  }

  lemma KeepingIsExact(crc: Bytes -> int, fold: Bytes -> Bytes, t: PathTree, s: Strategy)
    requires Sound(t, AnyKey, KeyCovers(crc))
    requires forall key, p :: p in Values(t) && Covers(crc, key, p) && Satisfies(fold, p, s) ==> Consistent(crc, key, s)
    ensures Exact(crc, fold, t, s)
  {
    var matches, inner := (p: Path) => Satisfies(fold, p, s), (key: Key) => Consistent(crc, key, s);
    ScanExact(t, AnyKey, KeyCovers(crc), matches, matches, inner);
  }
}
