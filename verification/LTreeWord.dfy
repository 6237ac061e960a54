/** ltree/lquery_op.c and crc32.c: words of queries, the level names they match, and the checksum
    of a name. */
module LTreeWord {
  import opened Wrappers
  import opened Bytes

  const UNDERSCORE: Byte := 95

  /** A word of a query with its modifiers: `@` ignores case, `*` matches any name that starts so,
      `%` compares the pieces between underscores. */
  datatype Word = Word(name: Bytes, incase: bool, anyend: bool, subword: bool)

  /** No modifier at all. */
  predicate Plain(w: Word) {
    !w.incase && !w.anyend && !w.subword
  }

  /** Index signatures are asked for a word: the build lowers names before it hashes them, so
      that `@` does not prevent it. */
  predicate CanLookSign(w: Word) {
    !w.anyend && !w.subword
  }

  function Front(s: Bytes, n: nat): Bytes {
    if n < |s| then s[..n] else s
  }

  /** Equality of q and of as many bytes of a name, as they are or after folding to lower case;
      fold is what the locale does to a string, which can change its length. */
  predicate SameText(fold: Bytes -> Bytes, incase: bool, q: Bytes, t: Bytes) {
    if incase then Front(fold(q), |q|) == Front(fold(t), |q|) else q == t
  }

  predicate PieceMatches(fold: Bytes -> Bytes, w: Word, q: Bytes, t: Bytes) {
    (|t| == |q| || (|t| > |q| && w.anyend)) && SameText(fold, w.incase, q, Front(t, |q|))
  }

  /** The first underscore from p on, or the end. */
  function PieceEnd(s: Bytes, p: nat): (e: nat)
    requires p <= |s|
    ensures p <= e <= |s| && (e == |s| || s[e] == UNDERSCORE)
    ensures forall k :: p <= k < e ==> s[k] != UNDERSCORE
    decreases |s| - p
  {
    if p == |s| || s[p] == UNDERSCORE then p else PieceEnd(s, p + 1)
  }

  /** Whether a level name matches a word. */
  predicate NameMatches(fold: Bytes -> Bytes, w: Word, name: Bytes) {
    if w.subword then AllHave(fold, w, 0, name) else PieceMatches(fold, w, w.name, name)
  }

  /** Each piece of the word from p on has a piece of the name that matches it. */
  predicate AllHave(fold: Bytes -> Bytes, w: Word, p: nat, name: Bytes)
    requires p <= |w.name|
    decreases |w.name| - p
  {
    if p == |w.name| then true
    else if w.name[p] == UNDERSCORE then AllHave(fold, w, p + 1, name)
    else
      var e := PieceEnd(w.name, p);
      Has(fold, w, w.name[p..e], name, 0) && AllHave(fold, w, e, name)
  }

  /** Some piece of the name from p on matches q. */
  predicate Has(fold: Bytes -> Bytes, w: Word, q: Bytes, name: Bytes, p: nat)
    requires p <= |name|
    decreases |name| - p
  {
    if p == |name| then false
    else if name[p] == UNDERSCORE then Has(fold, w, q, name, p + 1)
    else
      var e := PieceEnd(name, p);
      PieceMatches(fold, w, q, name[p..e]) || Has(fold, w, q, name, e)
  }

  /** Without modifiers that is equality. */
  lemma PlainMatches(fold: Bytes -> Bytes, w: Word, name: Bytes)
    requires Plain(w)
    ensures NameMatches(fold, w, name) <==> name == w.name
  {
  }

  /** With `*` alone a word matches exactly the names it is a prefix of. */
  lemma StarMatches(fold: Bytes -> Bytes, w: Word, name: Bytes)
    requires w.anyend && !w.incase && !w.subword
    ensures NameMatches(fold, w, name) <==> |w.name| <= |name| && name[..|w.name|] == w.name
  {
    assert |name| == |w.name| ==> name[..|w.name|] == name;
  }

  /** With `@` alone it matches exactly the names of its length that begin the same after folding. */
  lemma AtMatches(fold: Bytes -> Bytes, w: Word, name: Bytes)
    requires w.incase && !w.anyend && !w.subword
    ensures NameMatches(fold, w, name) <==> |name| == |w.name| && SameStart(fold(w.name), fold(name), |w.name|)
  {
    StartIsFront(fold(w.name), fold(name), |w.name|);
  }

  /** With both it matches exactly the names of which as long a start does. */
  lemma AtStarMatches(fold: Bytes -> Bytes, w: Word, name: Bytes)
    requires w.incase && w.anyend && !w.subword
    ensures NameMatches(fold, w, name)
       <==> |w.name| <= |name| && SameStart(fold(w.name), fold(name[..|w.name|]), |w.name|)
  {
    assert |name| == |w.name| ==> name[..|w.name|] == name;
    if |w.name| <= |name| {
      StartIsFront(fold(w.name), fold(name[..|w.name|]), |w.name|);
    }
  }

  /** The first n bytes are the same, or both strings are the same and shorter. */
  predicate SameStart(a: Bytes, b: Bytes, n: nat) {
    if n <= |a| && n <= |b| then a[..n] == b[..n] else a == b
  }

  lemma StartIsFront(a: Bytes, b: Bytes, n: nat)
    ensures SameStart(a, b, n) <==> Front(a, n) == Front(b, n)
  {
    assert n == |a| ==> a[..n] == a;
    assert n == |b| ==> b[..n] == b;
  }

  /** q stands in s between underscores or the ends, and has none itself. */
  ghost predicate IsPiece(s: Bytes, q: Bytes) {
    exists i, j :: PieceAt(s, 0, i, j) && s[i..j] == q
  }

  /** A piece from p on. */
  predicate PieceAt(s: Bytes, p: nat, i: int, j: int) {
    && p <= i < j <= |s| && (i == p || s[i - 1] == 95) && (j == |s| || s[j] == 95)
    && forall k :: i <= k < j ==> s[k] != 95
  }

  /** The first piece, and those behind it. */
  lemma PieceFirst(s: Bytes, p: nat, e: nat, i: int, j: int)
    requires p < |s| && s[p] != 95 && e == PieceEnd(s, p)
    ensures PieceAt(s, p, i, j) <==> (i == p && j == e) || PieceAt(s, e, i, j)
  {
  }

  lemma PieceBlank(s: Bytes, p: nat, i: int, j: int)
    requires p < |s| && s[p] == 95
    ensures PieceAt(s, p, i, j) <==> PieceAt(s, p + 1, i, j)
  {
  }

  lemma {:induction false} HasIs(fold: Bytes -> Bytes, w: Word, q: Bytes, name: Bytes, p: nat)
    requires p <= |name|
    ensures Has(fold, w, q, name, p) <==> exists i, j :: PieceAt(name, p, i, j) && PieceMatches(fold, w, q, name[i..j])
    decreases |name| - p
  {
    if p < |name| && name[p] == 95 {
      HasIs(fold, w, q, name, p + 1);
      forall i, j
        ensures PieceAt(name, p, i, j) <==> PieceAt(name, p + 1, i, j)
      {
        PieceBlank(name, p, i, j);
      }
    } else if p < |name| {
      var e := PieceEnd(name, p);
      HasIs(fold, w, q, name, e);
      forall i, j
        ensures PieceAt(name, p, i, j) <==> (i == p && j == e) || PieceAt(name, e, i, j)
      {
        PieceFirst(name, p, e, i, j);
      }
      assert PieceAt(name, p, p, e);
    }
  }

  lemma {:induction false} AllHaveIs(fold: Bytes -> Bytes, w: Word, p: nat, name: Bytes)
    requires p <= |w.name|
    ensures AllHave(fold, w, p, name) <==> forall i, j :: PieceAt(w.name, p, i, j) ==> Has(fold, w, w.name[i..j], name, 0)
    decreases |w.name| - p
  {
    if p < |w.name| && w.name[p] == 95 {
      AllHaveIs(fold, w, p + 1, name);
      forall i, j
        ensures PieceAt(w.name, p, i, j) <==> PieceAt(w.name, p + 1, i, j)
      {
        PieceBlank(w.name, p, i, j);
      }
    } else if p < |w.name| {
      var e := PieceEnd(w.name, p);
      AllHaveIs(fold, w, e, name);
      forall i, j
        ensures PieceAt(w.name, p, i, j) <==> (i == p && j == e) || PieceAt(w.name, e, i, j)
      {
        PieceFirst(w.name, p, e, i, j);
      }
      assert PieceAt(w.name, p, p, e);
    }
  }

  /** The piece t is q or, with `*`, starts with it; with `@` after folding. */
  predicate StartsWith(fold: Bytes -> Bytes, w: Word, q: Bytes, t: Bytes) {
    && |q| <= |t| && (|q| < |t| ==> w.anyend)
    && if w.incase then SameStart(fold(q), fold(t[..|q|]), |q|) else t[..|q|] == q
  }

  /** With `%` each piece of the word has such a piece of the name. */
  lemma PercentMatches(fold: Bytes -> Bytes, w: Word, name: Bytes)
    requires w.subword
    ensures NameMatches(fold, w, name)
       <==> forall q :: IsPiece(w.name, q) ==> exists t :: IsPiece(name, t) && StartsWith(fold, w, q, t)
  {
    AllHaveIs(fold, w, 0, name);
    forall q
      ensures Has(fold, w, q, name, 0) <==> exists t :: IsPiece(name, t) && StartsWith(fold, w, q, t)
    {
      PieceFor(fold, w, name, q);
    }
    assert forall i, j :: PieceAt(w.name, 0, i, j) ==> IsPiece(w.name, w.name[i..j]);
  }

  lemma PieceFor(fold: Bytes -> Bytes, w: Word, name: Bytes, q: Bytes)
    ensures Has(fold, w, q, name, 0) <==> exists t :: IsPiece(name, t) && StartsWith(fold, w, q, t)
  {
    HasIs(fold, w, q, name, 0);
    forall t
      ensures PieceMatches(fold, w, q, t) <==> StartsWith(fold, w, q, t)
    {
      if |t| >= |q| {
        assert Front(t, |q|) == t[..|q|];
        StartIsFront(fold(q), fold(t[..|q|]), |q|);
      }
    }
    assert forall i, j :: PieceAt(name, 0, i, j) ==> IsPiece(name, name[i..j]);
  }

  // ----- The loops -----

  /** Underscores from p up to q. */
  predicate Skipped(s: Bytes, p: nat, q: nat) {
    p <= q <= |s| && forall k :: p <= k < q ==> s[k] == UNDERSCORE
  }

  function Reached(s: Bytes, ptr: Option<nat>): nat {
    if ptr.Some? then ptr.value else |s|
  }

  /** A piece found, if there is one. */
  predicate Found(s: Bytes, ptr: Option<nat>, len: nat) {
    ptr.Some? ==> ptr.value < |s| && s[ptr.value] != UNDERSCORE && 0 < len && ptr.value + len == PieceEnd(s, ptr.value)
  }

  /** `getlexeme`: the next piece from a position on. */
  method Getlexeme(s: Bytes, start: nat) returns (ptr: Option<nat>, len: nat)
    requires start <= |s|
    ensures Skipped(s, start, Reached(s, ptr)) && Found(s, ptr, len)
  {
    var p := start;
    while p < |s| && s[p] == UNDERSCORE
      invariant Skipped(s, start, p)
    {
      p := p + 1;
    }
    if p == |s| {
      return None, 0;
    }
    var e := p;
    while e < |s| && s[e] != UNDERSCORE
      invariant p <= e <= |s| && PieceEnd(s, p) == PieceEnd(s, e)
    {
      e := e + 1;
    }
    ptr, len := Some(p), e - p;
  }

  lemma {:induction false} HasSkipped(fold: Bytes -> Bytes, w: Word, q: Bytes, name: Bytes, p: nat, p': nat)
    requires Skipped(name, p, p')
    ensures Has(fold, w, q, name, p) == Has(fold, w, q, name, p')
    decreases p' - p
  {
    if p < p' {
      HasSkipped(fold, w, q, name, p + 1, p');
    }
  }

  lemma {:induction false} AllHaveSkipped(fold: Bytes -> Bytes, w: Word, p: nat, p': nat, name: Bytes)
    requires Skipped(w.name, p, p')
    ensures AllHave(fold, w, p, name) == AllHave(fold, w, p', name)
    decreases p' - p
  {
    if p < p' {
      AllHaveSkipped(fold, w, p + 1, p', name);
    }
  }

  /** The inner loop of `compare_subnode`: a piece of the name that matches. */
  method HasPiece(fold: Bytes -> Bytes, w: Word, q: Bytes, name: Bytes) returns (isok: bool)
    ensures isok <==> Has(fold, w, q, name, 0)
  {
    var tn, lent := Getlexeme(name, 0);
    HasSkipped(fold, w, q, name, 0, Reached(name, tn));
    while tn.Some?
      invariant Reached(name, tn) <= |name| && Found(name, tn, lent)
      invariant Has(fold, w, q, name, 0) == Has(fold, w, q, name, Reached(name, tn))
      decreases |name| - Reached(name, tn), tn.Some?
    {
      var next := tn.value + lent;
      if PieceMatches(fold, w, q, name[tn.value..next]) {
        return true;
      }
      tn, lent := Getlexeme(name, next);
      HasSkipped(fold, w, q, name, next, Reached(name, tn));
    }
    return false;
  }

  /** `compare_subnode`. */
  method CompareSubnode(fold: Bytes -> Bytes, w: Word, name: Bytes) returns (r: bool)
    requires w.subword
    ensures r <==> NameMatches(fold, w, name)
  {
    var qn, lenq := Getlexeme(w.name, 0);
    AllHaveSkipped(fold, w, 0, Reached(w.name, qn), name);
    while qn.Some?
      invariant Reached(w.name, qn) <= |w.name| && Found(w.name, qn, lenq)
      invariant AllHave(fold, w, 0, name) == AllHave(fold, w, Reached(w.name, qn), name)
      decreases |w.name| - Reached(w.name, qn), qn.Some?
    {
      var next := qn.value + lenq;
      var isok := HasPiece(fold, w, w.name[qn.value..next], name);
      if !isok {
        return false;
      }
      qn, lenq := Getlexeme(w.name, next);
      AllHaveSkipped(fold, w, next, Reached(w.name, qn), name);
    }
    return true;
  }

  /** `checkcondition_str`: whether some level name matches. */
  method CheckconditionStr(fold: Bytes -> Bytes, w: Word, path: seq<Bytes>) returns (r: bool)
    ensures r <==> exists name :: name in path && NameMatches(fold, w, name)
  {
    var i := 0;
    while i < |path|
      invariant 0 <= i <= |path|
      invariant forall k :: 0 <= k < i ==> !NameMatches(fold, w, path[k])
    {
      var level, ok := path[i], false;
      if w.subword {
        ok := CompareSubnode(fold, w, level);
      } else if |level| == |w.name| || (|level| > |w.name| && w.anyend) {
        ok := SameText(fold, w.incase, w.name, Front(level, |w.name|));
      }
      assert ok <==> NameMatches(fold, w, path[i]);
      if ok {
        return true;
      }
      i := i + 1;
    }
    return false;
  }

  // ----- Checksums -----

  /** Each byte in lower case. */
  function Lowered(lower: Byte -> Byte, s: Bytes): (r: Bytes)
    ensures |r| == |s|
  {
    seq(|s|, k requires 0 <= k < |s| => lower(s[k]))
  }

  /** The lower case of a byte where only ASCII letters have one, as in a UTF-8 locale. */
  function AsciiLower(): Byte -> Byte {
    (b: Byte) => if 65 <= b <= 90 then b + 32 else b
  }

  /** One bit of the checksum's polynomial division. */
  function CrcBit(c: bv32): bv32 {
    if c & 1 == 1 then (c >> 1) ^ 0xedb8_8320 else c >> 1
  }

  /** An entry of the checksum's table. */
  function CrcTable(i: bv32): bv32 {
    CrcBit(CrcBit(CrcBit(CrcBit(CrcBit(CrcBit(CrcBit(CrcBit(i))))))))
  }

  function CrcStep(c: bv32, b: Byte): bv32 {
    (c >> 8) ^ CrcTable((c ^ (b as bv32)) & 0xff)
  }

  function CrcOf(s: Bytes): bv32 {
    if s == [] then 0xffff_ffff else CrcStep(CrcOf(s[..|s| - 1]), s[|s| - 1])
  }

  /** `ltree_crc32_sz`: the checksum of the lowered name. */
  function Crc32(lower: Byte -> Byte): Bytes -> int {
    (s: Bytes) => (!CrcOf(Lowered(lower, s))) as int
  }

  lemma CrcOfTwo(a: Byte, b: Byte)
    ensures CrcOf([a, b]) == CrcStep(CrcStep(0xffff_ffff, a), b)
  {
    var s: Bytes, t: Bytes := [a, b], [a];
    assert s[..1] == t && t[..0] == [];
    assert CrcOf(t) == CrcStep(CrcOf([]), a);
  }

  /** The two spellings of the letter e with an acute accent, in UTF-8. */
  lemma AcuteChecksums()
    ensures Crc32(AsciiLower())([195, 137]) == 0x356a_adf6
    ensures Crc32(AsciiLower())([195, 169]) == 0x0e04_8d3e
  {
    var upper, small: Bytes := [195, 137], [195, 169];
    assert Lowered(AsciiLower(), upper) == upper && Lowered(AsciiLower(), small) == small;
    CrcOfTwo(195, 137);
    CrcOfTwo(195, 169);
    assert CrcStep(0xffff_ffff, 195) == 0x2f90_8378;
  }
}
