/** hstore/hstore_compat.c: which stores have the old format, told from the pairs they hold. */
module HStoreOld {
  import opened Wrappers
  import opened Bytes
  import opened HStoreFormat
  import opened HStoreMap
  import opened HStoreOps
  import opened HStoreCompat

  /** Where the strings of pair n start: those of the pairs before it come first. */
  function Start(ps: seq<Pair>, n: nat): nat
    requires n <= |ps|
  {
    if n == 0 then 0 else Start(ps, n - 1) + |ps[n - 1].key| + if ps[n - 1].val.None? then 0 else |ps[n - 1].val.value|
  }

  /** The two words of pair i: 16 bits for the length of the key below 16 bits for that of the value,
      which can be anything for a NULL; then 1 for a NULL and twice the start of the strings. */
  predicate ItemWords(es: seq<Word>, ps: seq<Pair>, junk: seq<nat>, i: nat)
    requires i < |ps| && |es| == 2 * |ps| && |junk| == |ps|
  {
    var klen, vlen := |ps[i].key|, if ps[i].val.None? then junk[i] else |ps[i].val.value|;
    && klen < 65536 && vlen < 65536
    && es[2 * i] == klen + 65536 * vlen
    && es[2 * i + 1] == 2 * Start(ps, i) + if ps[i].val.None? then 1 else 0
  }

  /** The strings of pair i stand where it starts, the key first. */
  predicate ItemStrings(str: Bytes, ps: seq<Pair>, i: nat)
    requires i < |ps|
  {
    var at, klen := Start(ps, i), |ps[i].key|;
    && at + klen <= |str| && str[at..at + klen] == ps[i].key
    && (ps[i].val.Some? ==> at + klen + |ps[i].val.value| <= |str|
                            && str[at + klen..at + klen + |ps[i].val.value|] == ps[i].val.value)
  }

  /** The old layout of pairs. */
  ghost predicate OldLaid(es: seq<Word>, str: Bytes, ps: seq<Pair>, junk: seq<nat>) {
    && |es| == 2 * |ps| && |junk| == |ps|
    && forall i :: 0 <= i < |ps| ==> ItemWords(es, ps, junk, i) && ItemStrings(str, ps, i)
  }

  /** No key is shorter than the one before it. */
  predicate NoneShorter(ps: seq<Pair>) {
    forall i :: 0 < i < |ps| ==> |ps[i - 1].key| <= |ps[i].key|
  }

  // ----- The layout has the fields it should have -----

  lemma WordFields(es: seq<Word>, ps: seq<Pair>, junk: seq<nat>, i: nat)
    requires i < |ps| && |es| == 2 * |ps| && |junk| == |ps| && ItemWords(es, ps, junk, i)
    ensures OldKeyLen(es[2 * i]) == |ps[i].key|
    ensures OldValLen(es[2 * i]) == if ps[i].val.None? then junk[i] else |ps[i].val.value|
    ensures (OldIsNull(es[2 * i + 1]) <==> ps[i].val.None?) && OldPos(es[2 * i + 1]) == Start(ps, i)
  {
  }

  lemma {:induction false} OldEndIsStart(es: seq<Word>, str: Bytes, ps: seq<Pair>, junk: seq<nat>, n: nat)
    requires OldLaid(es, str, ps, junk) && n <= |ps|
    ensures OldEnd(es, n) == Start(ps, n)
  {
    if n > 0 {
      OldEndIsStart(es, str, ps, junk, n - 1);
      assert ItemWords(es, ps, junk, n - 1);
      WordFields(es, ps, junk, n - 1);
    }
  }

  /** The items mean the pairs again. */
  lemma LaidPairs(es: seq<Word>, str: Bytes, ps: seq<Pair>, junk: seq<nat>)
    requires OldLaid(es, str, ps, junk)
    ensures OldPairs(es, str) == ps
  {
    forall i | 0 <= i < |ps|
      ensures OldPairAt(es, str, i) == ps[i]
    {
      assert ItemWords(es, ps, junk, i) && ItemStrings(str, ps, i);
      WordFields(es, ps, junk, i);
    }
  }

  lemma LaidAt(es: seq<Word>, str: Bytes, ps: seq<Pair>, junk: seq<nat>, i: nat)
    requires OldLaid(es, str, ps, junk) && i < |ps|
    ensures OldPos(es[2 * i + 1]) == OldEnd(es, i) && OldKeyLen(es[2 * i]) == |ps[i].key|
  {
    assert ItemWords(es, ps, junk, i);
    WordFields(es, ps, junk, i);
    OldEndIsStart(es, str, ps, junk, i);
  }

  lemma LaidContiguous(es: seq<Word>, str: Bytes, ps: seq<Pair>, junk: seq<nat>)
    requires OldLaid(es, str, ps, junk)
    ensures OldContiguous(es, |ps|)
  {
    forall i | 0 <= i < |ps|
      ensures OldPos(es[2 * i + 1]) == OldEnd(es, i)
    {
      LaidAt(es, str, ps, junk, i);
    }
  }

  lemma LaidOrdered(es: seq<Word>, str: Bytes, ps: seq<Pair>, junk: seq<nat>)
    requires OldLaid(es, str, ps, junk) && NoneShorter(ps)
    ensures OldKeysOrdered(es, |ps|)
  {
    forall i | 0 < i < |ps|
      ensures OldKeyLen(es[2 * i - 2]) <= OldKeyLen(es[2 * i])
    {
      LaidAt(es, str, ps, junk, i);
      LaidAt(es, str, ps, junk, i - 1);
      assert 2 * (i - 1) == 2 * i - 2;
    }
  }

  lemma LaidIsValid(es: seq<Word>, str: Bytes, ps: seq<Pair>, junk: seq<nat>)
    requires OldLaid(es, str, ps, junk) && NoneShorter(ps)
    ensures OldKeysOrdered(es, |ps|) && OldContiguous(es, |ps|) && OldEnd(es, |ps|) == Start(ps, |ps|)
  {
    OldEndIsStart(es, str, ps, junk, |ps|);
    LaidContiguous(es, str, ps, junk);
    LaidOrdered(es, str, ps, junk);
  }

  // ----- What passes the checks is a layout -----

  /** What the words hold for the length of each value. */
  function Lengths(es: seq<Word>, n: nat): (r: seq<nat>)
    requires 2 * n <= |es|
    ensures |r| == n
  {
    seq(n, i requires 0 <= i < n => OldValLen(es[2 * i]))
  }

  lemma WordsOf(w0: Word, w1: Word)
    ensures w0 == OldKeyLen(w0) + 65536 * OldValLen(w0) && OldKeyLen(w0) < 65536 && OldValLen(w0) < 65536
    ensures w1 == 2 * OldPos(w1) + if OldIsNull(w1) then 1 else 0
  {
  }

  lemma {:induction false} StartIsOldEnd(es: seq<Word>, str: Bytes, ps: seq<Pair>, n: nat)
    requires |es| == 2 * |ps| && n <= |ps| && OldItems(es, str, ps, |ps|)
    ensures Start(ps, n) == OldEnd(es, n)
  {
    if n > 0 {
      StartIsOldEnd(es, str, ps, n - 1);
      assert OldItem(es, str, ps, n - 1);
    }
  }

  lemma ItemIsLaid(es: seq<Word>, str: Bytes, ps: seq<Pair>, junk: seq<nat>, i: nat)
    requires |es| == 2 * |ps| && i < |ps| && junk == Lengths(es, |ps|) && OldItems(es, str, ps, |ps|)
    ensures ItemWords(es, ps, junk, i) && ItemStrings(str, ps, i)
  {
    StartIsOldEnd(es, str, ps, i);
    WordsOf(es[2 * i], es[2 * i + 1]);
    assert OldItem(es, str, ps, i);
    var at, k, v := Start(ps, i), |ps[i].key|, ValueBytes(ps[i]);
    var s := str[at..OldEnd(es, i + 1)];
    assert s == ps[i].key + v;
    assert str[at..at + k] == s[..k] == ps[i].key;
    assert str[at + k..at + k + |v|] == s[k..] == v;
  }

  lemma ItemsNoneShorter(es: seq<Word>, str: Bytes, ps: seq<Pair>, n: nat)
    requires |es| == 2 * n && n == |ps| && OldItems(es, str, ps, n) && OldKeysOrdered(es, n)
    ensures NoneShorter(ps)
  {
    forall i | 0 < i < n
      ensures |ps[i - 1].key| <= |ps[i].key|
    {
      assert OldItem(es, str, ps, i) && OldItem(es, str, ps, i - 1);
      assert 2 * (i - 1) == 2 * i - 2;
    }
  }

  lemma ValidIsLaid(es: seq<Word>, str: Bytes, n: nat, ps: seq<Pair>, junk: seq<nat>)
    requires |es| == 2 * n && OldContiguous(es, n) && OldEnd(es, n) <= |str| && OldKeysOrdered(es, n)
    requires ps == OldPairs(es, str) && junk == Lengths(es, n)
    ensures OldLaid(es, str, ps, junk) && NoneShorter(ps) && Start(ps, n) == OldEnd(es, n)
  {
    OldPairsAreItems(es, str, n, ps);
    StartIsOldEnd(es, str, ps, n);
    ItemsNoneShorter(es, str, ps, n);
    forall i | 0 <= i < n
      ensures ItemWords(es, ps, junk, i) && ItemStrings(str, ps, i)
    {
      ItemIsLaid(es, str, ps, junk, i);
    }
  }

  // ----- The main results -----

  /** Some pairs with none shorter than the one before have this layout, and entries and strings
      fit the size. */
  ghost predicate HoldsOld(es: seq<Word>, str: Bytes, n: nat, varsize: nat, ps: seq<Pair>, junk: seq<nat>) {
    |ps| == n && OldLaid(es, str, ps, junk) && NoneShorter(ps) && 8 + 8 * n + Start(ps, n) <= varsize
  }

  /** A store with items is a valid old one if and only if it is the old layout of some pairs with
      key lengths that do not decrease. */
  lemma ValidOldExactly(s: RawStore)
    requires s.Shaped() && s.size > 0
    ensures s.ValidOld() <==> s.size <= 0xfff_ffff && exists ps, junk :: HoldsOld(s.entries[..], s.str, s.size, s.varsize, ps, junk)
  {
    var es := s.entries[..];
    if s.ValidOld() {
      OldFitsString(s);
      ValidIsLaid(es, s.str, s.size, OldPairs(es, s.str), Lengths(es, s.size));
      assert HoldsOld(es, s.str, s.size, s.varsize, OldPairs(es, s.str), Lengths(es, s.size));
    }
    if ps, junk :| s.size <= 0xfff_ffff && HoldsOld(es, s.str, s.size, s.varsize, ps, junk) {
      LaidIsValid(es, s.str, ps, junk);
    }
  }

  lemma OldFitsString(s: RawStore)
    requires s.Shaped() && s.size > 0 && s.ValidOld()
    ensures s.entries.Length == 2 * s.size && OldEnd(s.entries[..], s.size) <= |s.str|
  {
  }

  /** On the old layout of pairs with keys in order the answer is 2 without slack and 1 with it. */
  method ValidOfLayout(s: RawStore, ghost ps: seq<Pair>, ghost junk: seq<nat>) returns (v: int)
    requires s.Shaped() && 0 < s.size == |ps| && s.size <= 0xfff_ffff && InOrder(ps)
    requires OldLaid(s.entries[..], s.str, ps, junk) && 8 + 8 * |ps| + Start(ps, |ps|) <= s.varsize
    ensures v == if 8 + 8 * |ps| + Start(ps, |ps|) == s.varsize then 2 else 1
  {
    LaidIsValid(s.entries[..], s.str, ps, junk);
    assert HoldsOld(s.entries[..], s.str, s.size, s.varsize, ps, junk);
    ValidOldExactly(s);
    v := s.HstoreValidOldFormat();
  }
}
