/** hstore/hstore.h: the packed layout of key/value stores. */
module HStoreFormat {
  import opened Wrappers
  import opened Bytes
  import opened Memory

  // ----- Entries -----

  const HENTRY_ISFIRST := 0x8000_0000
  const HENTRY_ISNULL := 0x4000_0000

  /** A uint32 with the end position in its low 30 bits and two flags above. */
  type Word = w: int | 0 <= w < 0x1_0000_0000 witness 0

  predicate IsFirst(w: Word) {
    w >= HENTRY_ISFIRST
  }

  /** The word without its top bit. */
  function WithoutFirst(w: Word): int {
    if IsFirst(w) then w - HENTRY_ISFIRST else w
  }

  predicate IsNull(w: Word) {
    WithoutFirst(w) >= HENTRY_ISNULL
  }

  function EndPos(w: Word): nat {
    if IsNull(w) then WithoutFirst(w) - HENTRY_ISNULL else WithoutFirst(w)
  }

  function MakeEntry(pos: nat, first: bool, isnull: bool): Word {
    pos % HENTRY_ISNULL + (if first then HENTRY_ISFIRST else 0) + (if isnull then HENTRY_ISNULL else 0)
  }

  lemma EntryFields(w: Word, pos: nat, first: bool, isnull: bool)
    requires w == MakeEntry(pos, first, isnull) && pos < HENTRY_ISNULL
    ensures IsFirst(w) == first && IsNull(w) == isnull && EndPos(w) == pos
  {
  }

  /** The words are determined by their fields. */
  lemma EntryFromFields(w: Word)
    ensures w == MakeEntry(EndPos(w), IsFirst(w), IsNull(w))
  {
  }

  // ----- Stores -----

  /** A key with its value; None stands for NULL. */
  datatype Pair = Pair(key: Bytes, val: Option<Bytes>)

  function ValueBytes(p: Pair): Bytes {
    if p.val.Some? then p.val.value else []
  }

  /** A finished store: item count, total size, entries, and the string buffer. */
  datatype Store = Store(count: nat, varsize: nat, entries: seq<Word>, str: Bytes)

  const HSHRDSIZE := 8

  function CalcDataSize(count: nat, len: nat): nat {
    count * 2 * 4 + HSHRDSIZE + len
  }

  /** Where the strings of the first n pairs end. */
  function End(ps: seq<Pair>, n: nat): nat
    requires n <= |ps|
  {
    if n == 0 then 0 else End(ps, n - 1) + |ps[n - 1].key| + |ValueBytes(ps[n - 1])|
  }

  /** The strings of the first n pairs, one after the other. */
  function Flat(ps: seq<Pair>, n: nat): (r: Bytes)
    requires n <= |ps|
    ensures |r| == End(ps, n)
  {
    if n == 0 then [] else Flat(ps, n - 1) + ps[n - 1].key + ValueBytes(ps[n - 1])
  }

  /** The entries of the first n pairs: two each, with the position where the key and the value
      end. */
  function EntriesOf(ps: seq<Pair>, n: nat): (r: seq<Word>)
    requires n <= |ps|
    ensures |r| == 2 * n
  {
    if n == 0 then []
    else EntriesOf(ps, n - 1) + ItemEntries(End(ps, n - 1), ps[n - 1], n == 1)
  }

  /** The two entries of a pair whose key starts at pos. */
  function ItemEntries(pos: nat, p: Pair, first: bool): (r: seq<Word>)
    ensures |r| == 2
  {
    var k := pos + |p.key|;
    [MakeEntry(k, first, false), MakeEntry(k + |ValueBytes(p)|, false, p.val.None?)]
  }

  /** The layout of a sequence of pairs. */
  function Encode(ps: seq<Pair>): Store {
    var str := Flat(ps, |ps|);
    Store(|ps|, CalcDataSize(|ps|, |str|), EntriesOf(ps, |ps|), str)
  }

  // ----- Reading a store -----

  function Slice(s: Bytes, from: int, to: int): Bytes {
    if 0 <= from <= to <= |s| then s[from..to] else []
  }

  function Off(entries: seq<Word>, i: nat): nat
    requires i < |entries|
  {
    if IsFirst(entries[i]) || i == 0 then 0 else EndPos(entries[i - 1])
  }

  function Len(entries: seq<Word>, i: nat): int
    requires i < |entries|
  {
    EndPos(entries[i]) - Off(entries, i)
  }

  function KeyLen(s: Store, i: nat): int
    requires 2 * i < |s.entries|
  {
    Len(s.entries, 2 * i)
  }

  function Key(s: Store, i: nat): Bytes
    requires 2 * i < |s.entries|
  {
    Slice(s.str, Off(s.entries, 2 * i), EndPos(s.entries[2 * i]))
  }

  predicate ValIsNull(s: Store, i: nat)
    requires 2 * i + 1 < |s.entries|
  {
    IsNull(s.entries[2 * i + 1])
  }

  function ValLen(s: Store, i: nat): int
    requires 2 * i + 1 < |s.entries|
  {
    Len(s.entries, 2 * i + 1)
  }

  function Val(s: Store, i: nat): Bytes
    requires 2 * i + 1 < |s.entries|
  {
    Slice(s.str, Off(s.entries, 2 * i + 1), EndPos(s.entries[2 * i + 1]))
  }

  function PairAt(s: Store, i: nat): Pair
    requires 2 * i + 1 < |s.entries|
  {
    Pair(Key(s, i), if ValIsNull(s, i) then None else Some(Val(s, i)))
  }

  /** The pairs a store holds. */
  function PairsOf(s: Store): (r: seq<Pair>)
    requires |s.entries| == 2 * s.count
    ensures |r| == s.count
  {
    seq(s.count, i requires 0 <= i < s.count => PairAt(s, i))
  }

  // ----- Reading what was laid out -----

  predicate Fits(ps: seq<Pair>) {
    CalcDataSize(|ps|, End(ps, |ps|)) <= MAX_ALLOC
  }

  lemma {:induction false} EndMonotone(ps: seq<Pair>, m: nat, n: nat)
    requires m <= n <= |ps|
    ensures End(ps, m) <= End(ps, n)
  {
    if m < n {
      EndMonotone(ps, m, n - 1);
    }
  }

  lemma {:induction false} FlatPrefix(ps: seq<Pair>, m: nat, n: nat)
    requires m <= n <= |ps|
    ensures End(ps, m) <= End(ps, n) && Flat(ps, n)[..End(ps, m)] == Flat(ps, m)
  {
    if m < n {
      FlatPrefix(ps, m, n - 1);
    }
  }

  lemma {:induction false} EntriesPrefix(ps: seq<Pair>, m: nat, n: nat)
    requires m <= n <= |ps|
    ensures EntriesOf(ps, n)[..2 * m] == EntriesOf(ps, m)
  {
    if m < n {
      EntriesPrefix(ps, m, n - 1);
    }
  }

  /** The two words of pair i in the layout. */
  lemma EntriesAt(ps: seq<Pair>, n: nat, i: nat)
    requires i < n <= |ps|
    ensures EntriesOf(ps, n)[2 * i] == MakeEntry(End(ps, i) + |ps[i].key|, i == 0, false)
    ensures EntriesOf(ps, n)[2 * i + 1] == MakeEntry(End(ps, i + 1), false, ps[i].val.None?)
  {
    EntriesPrefix(ps, i + 1, n);
    var r := EntriesOf(ps, n);
    assert r[2 * i] == r[..2 * (i + 1)][2 * i] && r[2 * i + 1] == r[..2 * (i + 1)][2 * i + 1];
  }

  /** Where the strings of pair i are. */
  lemma FlatAt(ps: seq<Pair>, n: nat, i: nat)
    requires i < n <= |ps|
    ensures var at, k, v := End(ps, i), |ps[i].key|, |ValueBytes(ps[i])|;
      && at + k + v == End(ps, i + 1) <= End(ps, n)
      && Flat(ps, n)[at..at + k] == ps[i].key
      && Flat(ps, n)[at + k..at + k + v] == ValueBytes(ps[i])
  {
    FlatPrefix(ps, i + 1, n);
    Ending(Flat(ps, n), Flat(ps, i), ps[i].key, ValueBytes(ps[i]));
  }

  lemma Ending(s: Bytes, before: Bytes, key: Bytes, val: Bytes)
    requires |before| + |key| + |val| <= |s| && s[..|before| + |key| + |val|] == before + key + val
    ensures s[|before|..|before| + |key|] == key
    ensures s[|before| + |key|..|before| + |key| + |val|] == val
  {
    var n, t := |before|, before + key + val;
    assert t[n..n + |key|] == key && t[n + |key|..] == val;
    assert s[n..n + |key|] == t[n..n + |key|] && s[n + |key|..|t|] == t[n + |key|..];
  }

  /** They are contiguous. */
  lemma ItemAt(ps: seq<Pair>, n: nat, i: nat)
    requires i < n <= |ps|
    ensures End(ps, i) <= End(ps, i + 1) <= End(ps, n)
    ensures Flat(ps, n)[End(ps, i)..End(ps, i + 1)] == ps[i].key + ValueBytes(ps[i])
  {
    FlatPrefix(ps, i + 1, n);
    var s, t := Flat(ps, n), Flat(ps, i + 1);
    assert s[End(ps, i)..End(ps, i + 1)] == t[End(ps, i)..];
  }

  /** The fields of the two entries of pair i. */
  ghost predicate EntryFits(ps: seq<Pair>, es: seq<Word>, i: nat)
    requires i < |ps| && |es| == 2 * |ps|
  {
    var k, v := es[2 * i], es[2 * i + 1];
    && EndPos(k) == End(ps, i) + |ps[i].key| && IsFirst(k) == (i == 0) && !IsNull(k)
    && EndPos(v) == End(ps, i + 1) && !IsFirst(v) && IsNull(v) == ps[i].val.None?
  }

  ghost predicate EntriesFit(ps: seq<Pair>, es: seq<Word>) {
    |es| == 2 * |ps| && forall i :: 0 <= i < |ps| ==> EntryFits(ps, es, i)
  }

  lemma EntryFitsAt(ps: seq<Pair>, es: seq<Word>, i: nat)
    requires i < |ps| && |es| == 2 * |ps| && End(ps, i) + |ps[i].key| <= End(ps, i + 1) < HENTRY_ISNULL
    requires es[2 * i] == MakeEntry(End(ps, i) + |ps[i].key|, i == 0, false)
    requires es[2 * i + 1] == MakeEntry(End(ps, i + 1), false, ps[i].val.None?)
    ensures EntryFits(ps, es, i)
  {
    EntryFields(es[2 * i], End(ps, i) + |ps[i].key|, i == 0, false);
    EntryFields(es[2 * i + 1], End(ps, i + 1), false, ps[i].val.None?);
  }

  lemma EndFits(ps: seq<Pair>, i: nat)
    requires Fits(ps) && i < |ps|
    ensures End(ps, i) + |ps[i].key| <= End(ps, i + 1) < HENTRY_ISNULL
  {
    EndMonotone(ps, i + 1, |ps|);
  }

  lemma EntryOfFits(ps: seq<Pair>, es: seq<Word>, i: nat)
    requires Fits(ps) && es == EntriesOf(ps, |ps|) && i < |ps|
    ensures EntryFits(ps, es, i)
  {
    EndFits(ps, i);
    EntriesAt(ps, |ps|, i);
    EntryFitsAt(ps, es, i);
  }

  lemma EntriesOfFit(ps: seq<Pair>, es: seq<Word>)
    requires Fits(ps) && es == EntriesOf(ps, |ps|)
    ensures EntriesFit(ps, es)
  {
    forall i | 0 <= i < |ps|
      ensures EntryFits(ps, es, i)
    {
      EntryOfFits(ps, es, i);
    }
  }

  /** Where a pair's strings start. */
  lemma OffAt(ps: seq<Pair>, es: seq<Word>, i: nat)
    requires i < |ps| && EntriesFit(ps, es)
    ensures Off(es, 2 * i) == End(ps, i)
    ensures Off(es, 2 * i + 1) == End(ps, i) + |ps[i].key|
  {
    assert EntryFits(ps, es, i);
    if i > 0 {
      assert EntryFits(ps, es, i - 1);
    }
  }

  lemma KeyFrom(ps: seq<Pair>, s: Store, i: nat)
    requires i < |ps| && EntriesFit(ps, s.entries) && s.str == Flat(ps, |ps|)
    ensures Key(s, i) == ps[i].key && KeyLen(s, i) == |ps[i].key|
  {
    OffAt(ps, s.entries, i);
    FlatAt(ps, |ps|, i);
    assert EntryFits(ps, s.entries, i);
  }

  lemma ValFrom(ps: seq<Pair>, s: Store, i: nat)
    requires i < |ps| && EntriesFit(ps, s.entries) && s.str == Flat(ps, |ps|)
    ensures Val(s, i) == ValueBytes(ps[i]) && ValLen(s, i) == |ValueBytes(ps[i])| && ValIsNull(s, i) == ps[i].val.None?
  {
    OffAt(ps, s.entries, i);
    FlatAt(ps, |ps|, i);
    assert EntryFits(ps, s.entries, i);
  }

  /** The accessors give back what was laid out. */
  lemma EncodeAt(ps: seq<Pair>, i: nat)
    requires i < |ps| && Fits(ps)
    ensures PairAt(Encode(ps), i) == ps[i]
    ensures KeyLen(Encode(ps), i) == |ps[i].key| && ValLen(Encode(ps), i) == |ValueBytes(ps[i])|
  {
    EntriesOfFit(ps, Encode(ps).entries);
    KeyFrom(ps, Encode(ps), i);
    ValFrom(ps, Encode(ps), i);
  }

  /** Laying out pairs loses nothing. */
  lemma DecodeEncode(ps: seq<Pair>)
    requires Fits(ps)
    ensures PairsOf(Encode(ps)) == ps
  {
    forall i | 0 <= i < |ps|
      ensures PairAt(Encode(ps), i) == ps[i]
    {
      EncodeAt(ps, i);
    }
  }

  // ----- One more pair -----

  lemma {:induction false} FlatExtend(ps: seq<Pair>, p: Pair, n: nat)
    requires n <= |ps|
    ensures Flat(ps + [p], n) == Flat(ps, n)
  {
    if n > 0 {
      FlatExtend(ps, p, n - 1);
    }
  }

  lemma {:induction false} EntriesExtend(ps: seq<Pair>, p: Pair, n: nat)
    requires n <= |ps|
    ensures EntriesOf(ps + [p], n) == EntriesOf(ps, n)
  {
    if n > 0 {
      EntriesExtend(ps, p, n - 1);
      FlatExtend(ps, p, n - 1);
      assert |Flat(ps + [p], n - 1)| == |Flat(ps, n - 1)|;
    }
  }

  /** What one more pair adds to the layout. */
  lemma EncodeExtend(ps: seq<Pair>, p: Pair)
    ensures var n := |ps|;
      && Flat(ps + [p], n + 1) == Flat(ps, n) + p.key + ValueBytes(p)
      && EntriesOf(ps + [p], n + 1) == EntriesOf(ps, n) + ItemEntries(|Flat(ps, n)|, p, n == 0)
  {
    FlatExtend(ps, p, |ps|);
    EntriesExtend(ps, p, |ps|);
  }

  /** The entries so far; the flag of the first one comes last. */
  ghost predicate EntriesBuilt(cells: seq<int>, es: seq<Word>) {
    && |cells| == |es|
    && (es != [] ==> cells[0] + HENTRY_ISFIRST == es[0])
    && forall k :: 0 < k < |es| ==> cells[k] == es[k]
  }

  lemma BuiltExtend(cells: seq<int>, es: seq<Word>, pos: nat, p: Pair, cells': seq<int>)
    requires EntriesBuilt(cells, es) && |cells'| == |cells| + 2 && cells'[..|cells|] == cells
    requires cells'[|cells|] == (pos + |p.key|) % HENTRY_ISNULL
    requires cells'[|cells| + 1] == (pos + |p.key| + |ValueBytes(p)|) % HENTRY_ISNULL + if p.val.None? then HENTRY_ISNULL else 0
    ensures EntriesBuilt(cells', es + ItemEntries(pos, p, es == []))
  {
    var e := ItemEntries(pos, p, es == []);
    forall k | 0 < k < |es| + 2
      ensures cells'[k] == (es + e)[k]
    {
      if k < |es| {
        assert cells'[..|cells|][k] == cells[k];
      }
    }
    assert |es| > 0 ==> cells'[..|cells|][0] == cells[0];
  }

  // ----- The layout, word by word -----

  /** Where the strings of pair n start: those of the pairs before it come first. */
  function StringsBefore(ps: seq<Pair>, n: nat): nat
    requires n <= |ps|
  {
    if n == 0 then 0
    else StringsBefore(ps, n - 1) + |ps[n - 1].key| + if ps[n - 1].val.None? then 0 else |ps[n - 1].val.value|
  }

  /** The first word of a pair is where its key ends, with the top bit in the first pair; the second
      one is where its value ends, with the bit below for a NULL. */
  lemma LayoutWords(ps: seq<Pair>, es: seq<Word>, i: nat, at: nat, end: nat)
    requires Fits(ps) && i < |ps| && es == Encode(ps).entries && at == StringsBefore(ps, i) && end == StringsBefore(ps, i + 1)
    ensures |es| == 2 * |ps|
    ensures es[2 * i] == at + |ps[i].key| + (if i == 0 then 2147483648 else 0)
    ensures es[2 * i + 1] == end + (if ps[i].val.None? then 1073741824 else 0)
  {
    BeforeIsEnd(ps, i);
    BeforeIsEnd(ps, i + 1);
    EndFits(ps, i);
    EntriesAt(ps, |ps|, i);
    EntryValue(at + |ps[i].key|, i == 0, false, es[2 * i]);
    EntryValue(end, false, ps[i].val.None?, es[2 * i + 1]);
  }

  lemma EntryValue(pos: nat, first: bool, isnull: bool, w: Word)
    requires pos < HENTRY_ISNULL && w == MakeEntry(pos, first, isnull)
    ensures w == pos + (if first then 2147483648 else 0) + (if isnull then 1073741824 else 0)
  {
  }

  /** The strings stand there, and the size is that of a header of 8 bytes, 8 bytes for each pair,
      and the strings. */
  lemma LayoutStrings(ps: seq<Pair>, s: Store, i: nat, at: nat, end: nat)
    requires i < |ps| && s == Encode(ps) && at == StringsBefore(ps, i) && end == StringsBefore(ps, i + 1)
    ensures s.count == |ps| && s.varsize == 8 + 8 * |ps| + |s.str| && |s.str| == StringsBefore(ps, |ps|)
    ensures at + |ps[i].key| <= end <= |s.str| && s.str[at..at + |ps[i].key|] == ps[i].key
    ensures ps[i].val.Some? ==> s.str[at + |ps[i].key|..end] == ps[i].val.value
  {
    BeforeIsEnd(ps, i);
    BeforeIsEnd(ps, i + 1);
    BeforeIsEnd(ps, |ps|);
    FlatAt(ps, |ps|, i);
  }

  lemma {:induction false} BeforeIsEnd(ps: seq<Pair>, n: nat)
    requires n <= |ps|
    ensures StringsBefore(ps, n) == End(ps, n)
  {
    if n > 0 {
      BeforeIsEnd(ps, n - 1);
    }
  }
}
