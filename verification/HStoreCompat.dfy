/** hstore/hstore_compat.c: recognising stores of the old format and converting them in place. */
module HStoreCompat {
  import opened Wrappers
  import opened Bytes
  import opened Memory
  import opened HStoreFormat
  import opened HStoreMap
  import opened HStoreOps

  const HS_FLAG_NEWVERSION := 0x8000_0000

  // ----- Old entries -----

  // Two words for each item: the lengths of key and value in 16 bits each, then the NULL flag
  // in the lowest bit and the position above it.

  function OldKeyLen(w0: Word): nat {
    w0 % 0x1_0000
  }

  function OldValLen(w0: Word): nat {
    w0 / 0x1_0000
  }

  predicate OldIsNull(w1: Word) {
    w1 % 2 == 1
  }

  function OldPos(w1: Word): nat {
    w1 / 2
  }

  /** The length of item i, where a NULL value counts as empty. */
  function OldLen(es: seq<Word>, i: nat): nat
    requires 2 * i + 1 < |es|
  {
    OldKeyLen(es[2 * i]) + if OldIsNull(es[2 * i + 1]) then 0 else OldValLen(es[2 * i])
  }

  function OldEnd(es: seq<Word>, n: nat): nat
    requires 2 * n <= |es|
  {
    if n == 0 then 0 else OldEnd(es, n - 1) + OldLen(es, n - 1)
  }

  lemma {:induction false} OldEndMonotone(es: seq<Word>, m: nat, n: nat)
    requires m <= n && 2 * n <= |es|
    ensures OldEnd(es, m) <= OldEnd(es, n)
  {
    if m < n {
      OldEndMonotone(es, m, n - 1);
    }
  }

  /** An item as the old format means it. */
  function OldPairAt(es: seq<Word>, str: Bytes, i: nat): Pair
    requires 2 * i + 1 < |es|
  {
    var pos, klen, vlen := OldPos(es[2 * i + 1]), OldKeyLen(es[2 * i]), OldValLen(es[2 * i]);
    Pair(Slice(str, pos, pos + klen),
         if OldIsNull(es[2 * i + 1]) then None else Some(Slice(str, pos + klen, pos + klen + vlen)))
  }

  function OldPairs(es: seq<Word>, str: Bytes): (r: seq<Pair>)
    requires |es| % 2 == 0
    ensures |r| == |es| / 2
  {
    seq(|es| / 2, i requires 0 <= i < |es| / 2 => OldPairAt(es, str, i))
  }

  // ----- Validity -----

  /** Key lengths do not decrease. */
  predicate OldKeysOrdered(es: seq<Word>, n: nat)
    requires 2 * n <= |es|
  {
    forall i :: 0 < i < n ==> OldKeyLen(es[2 * i - 2]) <= OldKeyLen(es[2 * i])
  }

  /** Items follow each other without gaps. */
  predicate OldContiguous(es: seq<Word>, n: nat)
    requires 2 * n <= |es|
  {
    forall i :: 0 <= i < n ==> OldPos(es[2 * i + 1]) == OldEnd(es, i)
  }

  /** A store as it is found: the size word may be a plain count or carry the version flag. */
  class RawStore {
    var size: Word
    var varsize: nat
    const entries: array<Word>
    const str: Bytes

    constructor (size: Word, varsize: nat, entries: array<Word>, str: Bytes)
      ensures this.size == size && this.varsize == varsize && this.entries == entries && this.str == str
    {
      this.size, this.varsize, this.entries, this.str := size, varsize, entries, str;
    }

    /** The entries and strings take up the size of the whole, if the entries fit at all. */
    ghost predicate Shaped()
      reads this
    {
      && varsize <= MAX_ALLOC
      && (CalcDataSize(size, 0) <= varsize ==> entries.Length == 2 * size && CalcDataSize(size, |str|) == varsize)
    }

    /** A store of the old format. */
    predicate ValidOld()
      reads this, entries
      requires Shaped()
    {
      && size < HS_FLAG_NEWVERSION
      && (size == 0
        || (size <= 0xfff_ffff && CalcDataSize(size, 0) <= varsize
            && OldKeysOrdered(entries[..], size) && OldContiguous(entries[..], size)
            && CalcDataSize(size, OldEnd(entries[..], size)) <= varsize))
    }

    /** 0 when not valid, 1 when valid but longer than needed, 2 when exactly valid. */
    method HstoreValidOldFormat() returns (v: int)
      requires Shaped()
      ensures v != 0 <==> ValidOld()
      ensures v == 2 <==> ValidOld() && (size == 0 || CalcDataSize(size, OldEnd(entries[..], size)) == varsize)
      ensures 0 <= v <= 2
    {
      var count := size;
      if size >= HS_FLAG_NEWVERSION {
        return 0;
      }
      if count == 0 {
        return 2;
      }
      if count > 0xfff_ffff {
        return 0;
      }
      if CalcDataSize(count, 0) > varsize {
        return 0;
      }
      ghost var es := entries[..];
      if OldPos(entries[1]) != 0 {
        assert OldPos(es[2 * 0 + 1]) != OldEnd(es, 0);
        return 0;
      }
      var i := 1;
      while i < count
        invariant 1 <= i <= count && OldKeysOrdered(es, i)
      {
        if OldKeyLen(entries[2 * i]) < OldKeyLen(entries[2 * i - 2]) {
          return 0;
        }
        i := i + 1;
      }
      var lastpos := 0;
      i := 0;
      while i < count
        invariant 0 <= i <= count && OldContiguous(es, i) && lastpos == OldEnd(es, i)
      {
        if OldPos(entries[2 * i + 1]) != lastpos {
          return 0;
        }
        lastpos := lastpos + OldKeyLen(entries[2 * i]) + if OldIsNull(entries[2 * i + 1]) then 0 else OldValLen(entries[2 * i]);
        i := i + 1;
      }
      var vsize := CalcDataSize(count, lastpos);
      if vsize > varsize {
        return 0;
      }
      v := if vsize != varsize then 1 else 2;
    }
  
    /** Overwrite the entries in place, flag the store as new and fix its size. */
    method UpgradeInPlace() returns (s: Store)
      requires Shaped() && ValidOld() && size > 0
      modifies `size, `varsize, entries
      ensures size == old(size) + HS_FLAG_NEWVERSION && varsize == s.varsize
      ensures s.entries == entries[..] && |s.str| <= |str| && s.str == str[..|s.str|]
      ensures s == Encode(OldPairs(old(entries[..]), str))
    {
      var count := size;
      ghost var es := entries[..];
      RewriteAll(count);
      ghost var now, ps := entries[..], OldPairs(es, str);
      FirstNotFlagged(es, now, count);
      entries[0] := entries[0] + HENTRY_ISFIRST;
      NewEncoding(es, str, count, ps, now, entries[..]);
      size := count + HS_FLAG_NEWVERSION;
      varsize := CalcDataSize(count, EndPos(entries[2 * count - 1]));
      s := Store(count, varsize, entries[..], str[..EndPos(entries[2 * count - 1])]);
    }

    /** Replace the words of all items, one after the other. */
    method RewriteAll(count: nat)
      requires entries.Length == 2 * count
      modifies entries
      ensures Rewritten(old(entries[..]), entries[..], count)
    {
      ghost var es := entries[..];
      var i := 0;
      while i < count
        invariant 0 <= i <= count
        invariant forall k :: 2 * i <= k < 2 * count ==> entries[k] == es[k]
        invariant Rewritten(es, entries[..], i)
      {
        RewriteOne(i, es);
        i := i + 1;
      }
    }

    /** Replace the two words of item i. */
    method RewriteOne(i: nat, ghost es: seq<Word>)
      requires 2 * i + 1 < entries.Length == |es|
      requires forall k :: 2 * i <= k < entries.Length ==> entries[k] == es[k]
      requires Rewritten(es, entries[..], i)
      modifies entries
      ensures forall k :: 2 * i + 2 <= k < entries.Length ==> entries[k] == es[k]
      ensures Rewritten(es, entries[..], i + 1)
    {
      var pos, keylen, vallen := OldPos(entries[2 * i + 1]), OldKeyLen(entries[2 * i]), OldValLen(entries[2 * i]);
      var isnull := OldIsNull(entries[2 * i + 1]);
      if isnull {
        vallen := 0;
      }
      entries[2 * i] := (pos + keylen) % HENTRY_ISNULL;
      entries[2 * i + 1] := (pos + keylen + vallen) % HENTRY_ISNULL + if isnull then HENTRY_ISNULL else 0;
    }
  }

  /** The first n items have their new entries, still without the flag of the first. */
  ghost predicate Rewritten(es: seq<Word>, now: seq<Word>, n: nat) {
    && 2 * n <= |es| == |now|
    && forall i :: 0 <= i < n ==>
         var pos := OldPos(es[2 * i + 1]);
         && now[2 * i] == MakeEntry(pos + OldKeyLen(es[2 * i]), false, false)
         && now[2 * i + 1] == MakeEntry(pos + OldLen(es, i), false, OldIsNull(es[2 * i + 1]))
  }

  /** Pair i has the lengths and strings of item i, which follows the items before it. */
  ghost predicate OldItem(es: seq<Word>, str: Bytes, ps: seq<Pair>, i: nat)
    requires 2 * i + 1 < |es| && i < |ps|
  {
    && |ps[i].key| == OldKeyLen(es[2 * i]) && |ps[i].key| + |ValueBytes(ps[i])| == OldLen(es, i)
    && (ps[i].val.None? <==> OldIsNull(es[2 * i + 1])) && OldPos(es[2 * i + 1]) == OldEnd(es, i)
    && OldEnd(es, i) <= OldEnd(es, i + 1) <= |str|
    && ps[i].key + ValueBytes(ps[i]) == str[OldEnd(es, i)..OldEnd(es, i + 1)]
  }

  ghost predicate OldItems(es: seq<Word>, str: Bytes, ps: seq<Pair>, n: nat) {
    n <= |ps| && 2 * n <= |es| && forall i :: 0 <= i < n ==> OldItem(es, str, ps, i)
  }

  lemma OldPairIsItem(es: seq<Word>, str: Bytes, ps: seq<Pair>, n: nat, i: nat)
    requires i < n == |ps| && 2 * n == |es| && OldContiguous(es, n) && OldEnd(es, n) <= |str|
    requires ps[i] == OldPairAt(es, str, i)
    ensures OldItem(es, str, ps, i)
  {
    OldEndMonotone(es, i + 1, n);
    assert OldPos(es[2 * i + 1]) == OldEnd(es, i);
    var at, k := OldEnd(es, i), OldKeyLen(es[2 * i]);
    assert str[at..OldEnd(es, i + 1)] == str[at..at + k] + str[at + k..OldEnd(es, i + 1)];
  }

  lemma OldPairsAreItems(es: seq<Word>, str: Bytes, n: nat, ps: seq<Pair>)
    requires 2 * n == |es| && OldContiguous(es, n) && OldEnd(es, n) <= |str| && ps == OldPairs(es, str)
    ensures |ps| == n && OldItems(es, str, ps, n)
  {
    forall i | 0 <= i < n
      ensures OldItem(es, str, ps, i)
    {
      OldPairIsItem(es, str, ps, n, i);
    }
  }

  /** The strings of contiguous old items, laid out as new ones, are where they were. */
  lemma {:induction false} OldFlat(es: seq<Word>, str: Bytes, ps: seq<Pair>, n: nat)
    requires OldItems(es, str, ps, n) && OldEnd(es, n) <= |str|
    ensures End(ps, n) == OldEnd(es, n) && Flat(ps, n) == str[..OldEnd(es, n)]
  {
    if n > 0 {
      assert OldItem(es, str, ps, n - 1);
      OldFlat(es, str, ps, n - 1);
      FlatStep(ps, n);
    }
  }

  lemma FlatStep(ps: seq<Pair>, n: nat)
    requires 0 < n <= |ps|
    ensures Flat(ps, n) == Flat(ps, n - 1) + (ps[n - 1].key + ValueBytes(ps[n - 1]))
  {
  }

  /** The two rewritten words of an item. */
  lemma NewWords(es: seq<Word>, str: Bytes, ps: seq<Pair>, n: nat, now: seq<Word>, i: nat)
    requires i < n == |ps| && OldItems(es, str, ps, n) && Rewritten(es, now, n)
    ensures EntriesOf(ps, n)[2 * i] == now[2 * i] + (if i == 0 then HENTRY_ISFIRST else 0)
    ensures EntriesOf(ps, n)[2 * i + 1] == now[2 * i + 1] == MakeEntry(End(ps, i + 1), false, ps[i].val.None?)
  {
    EntriesAt(ps, n, i);
    assert OldItem(es, str, ps, i);
    OldFlat(es, str, ps, i);
  }

  lemma NewWordAt(es: seq<Word>, str: Bytes, n: nat, ps: seq<Pair>, now: seq<Word>, k: nat)
    requires k < 2 * n && n == |ps| && OldItems(es, str, ps, n) && Rewritten(es, now, n)
    ensures EntriesOf(ps, n)[k] == now[k] + if k == 0 then HENTRY_ISFIRST else 0
  {
    var i := k / 2;
    assert k == 2 * i || k == 2 * i + 1;
    NewWords(es, str, ps, n, now, i);
  }

  /** The rewritten words, with the first one flagged, are the layout of the old pairs. */
  lemma NewLayout(es: seq<Word>, str: Bytes, n: nat, ps: seq<Pair>, now: seq<Word>, flagged: seq<Word>)
    requires 0 < n == |ps| && OldItems(es, str, ps, n) && Rewritten(es, now, n)
    requires |flagged| == |now| == 2 * n && flagged[0] == now[0] + HENTRY_ISFIRST
    requires forall k :: 0 < k < 2 * n ==> flagged[k] == now[k]
    ensures flagged == EntriesOf(ps, n)
  {
    forall k | 0 <= k < 2 * n
      ensures flagged[k] == EntriesOf(ps, n)[k]
    {
      NewWordAt(es, str, n, ps, now, k);
    }
  }

  lemma FirstNotFlagged(es: seq<Word>, now: seq<Word>, n: nat)
    requires 0 < n && Rewritten(es, now, n)
    ensures now[0] < HENTRY_ISFIRST
  {
    assert now[2 * 0] == MakeEntry(OldPos(es[2 * 0 + 1]) + OldKeyLen(es[2 * 0]), false, false);
  }

  /** Entries and strings together are the new store. */
  lemma NewEncoding(es: seq<Word>, str: Bytes, n: nat, ps: seq<Pair>, now: seq<Word>, flagged: seq<Word>)
    requires 0 < n && 2 * n == |es| && OldContiguous(es, n) && ps == OldPairs(es, str) && Rewritten(es, now, n)
    requires OldEnd(es, n) <= |str| < HENTRY_ISNULL
    requires |flagged| == |now| == 2 * n && flagged[0] == now[0] + HENTRY_ISFIRST
    requires forall k :: 0 < k < 2 * n ==> flagged[k] == now[k]
    ensures var end := EndPos(flagged[2 * n - 1]);
      end == OldEnd(es, n) && Encode(ps) == Store(n, CalcDataSize(n, end), flagged, str[..end])
  {
    OldPairsAreItems(es, str, n, ps);
    OldFlat(es, str, ps, n);
    NewLayout(es, str, n, ps, now, flagged);
    LastEnd(ps, flagged);
  }

  lemma LastEnd(ps: seq<Pair>, es: seq<Word>)
    requires ps != [] && es == EntriesOf(ps, |ps|) && End(ps, |ps|) < HENTRY_ISNULL
    ensures EndPos(es[2 * |ps| - 1]) == End(ps, |ps|)
  {
    var i := |ps| - 1;
    EntriesAt(ps, |ps|, i);
    EntryFields(es[2 * i + 1], End(ps, |ps|), false, ps[i].val.None?);
  }

  /** What was converted is a proper store whenever the old keys were strictly sorted. */
  lemma UpgradedIsWellFormed(ps: seq<Pair>)
    requires Fits(ps)
    ensures PairsOf(Encode(ps)) == ps
    ensures WellFormed(Encode(ps)) <==> SortedPairs(ps)
  {
    DecodeEncode(ps);
  }

  /** A short store whose first word has its top bit set is returned as it is.  That happens to
      a store of the old format exactly when its first value is NULL with 32768 or more stored
      as its length. */
  lemma FastPathTakesOld(es: seq<Word>, n: nat, varsize: nat)
    requires 0 < n && |es| == 2 * n && CalcDataSize(n, OldEnd(es, n)) <= varsize < 32768
    ensures IsFirst(es[0]) <==> OldIsNull(es[1]) && OldValLen(es[0]) >= 32768
  {
    OldEndMonotone(es, 1, n);
    assert OldEnd(es, 1) == OldEnd(es, 0) + OldLen(es, 0);
  }

  /** Such a store is misread: its first value, which is NULL, reads as a string. */
  lemma FastPathMisreads(s: Store)
    requires 0 < s.count && |s.entries| == 2 * s.count
    requires CalcDataSize(s.count, OldEnd(s.entries, s.count)) <= s.varsize < 32768
    requires OldContiguous(s.entries, s.count) && IsFirst(s.entries[0])
    ensures OldPairs(s.entries, s.str)[0].val == None && PairsOf(s)[0].val.Some?
  {
    FastPathTakesOld(s.entries, s.count, s.varsize);
    assert OldPos(s.entries[2 * 0 + 1]) == OldEnd(s.entries, 0);
  }
}
