/** hstore/hstore.h: building a store in one block of memory.  An entry or a character is one
    cell; the strings are written behind the room reserved for entries and moved up against the
    entries in the end. */
module HStoreBuilder {
  import opened Wrappers
  import opened Bytes
  import opened Memory
  import opened HStoreFormat

  class Builder {
    const mem: array<int>
    const dbuf: nat
    var count: nat
    var varsize: nat
    var dent: nat
    var dptr: nat

    /** The entries es and the characters str have been written. */
    ghost predicate Written(es: seq<Word>, str: Bytes)
      reads this, mem
    {
      && dbuf == 2 * count && dent == |es| <= dbuf
      && dptr == dbuf + |str| <= mem.Length
      && EntriesBuilt(mem[..dent], es)
      && mem[dbuf..dptr] == str
    }

    /** The pairs written so far are ps. */
    ghost predicate Holds(ps: seq<Pair>)
      reads this, mem
    {
      Written(EntriesOf(ps, |ps|), Flat(ps, |ps|))
    }

    /** Room for a number of items and a number of characters. */
    constructor (count: nat, chars: nat)
      ensures Holds([]) && fresh(mem) && this.count == count && mem.Length == 2 * count + chars
    {
      this.count, varsize := count, CalcDataSize(count, chars);
      mem, dbuf := new int[2 * count + chars](_ => 0), 2 * count;
      dent, dptr := 0, 2 * count;
    }

    /** `memcpy` to the current position. */
    method Copy(s: Bytes)
      requires dptr + |s| <= mem.Length
      modifies this`dptr, mem
      ensures dptr == old(dptr) + |s|
      ensures mem[old(dptr)..dptr] == s
      ensures forall k :: 0 <= k < old(dptr) ==> mem[k] == old(mem[k])
    {
      forall k | 0 <= k < |s| {
        mem[dptr + k] := s[k];
      }
      dptr := dptr + |s|;
    }

    /** Write an entry. */
    method SetEntry(pos: nat, isnull: bool)
      requires dent < dbuf <= mem.Length
      modifies this`dent, mem
      ensures dent == old(dent) + 1 && mem[..dent] == old(mem[..dent]) + [pos % HENTRY_ISNULL + if isnull then HENTRY_ISNULL else 0]
      ensures forall k :: dbuf <= k < mem.Length ==> mem[k] == old(mem[k])
    {
      mem[dent] := pos % HENTRY_ISNULL + if isnull then HENTRY_ISNULL else 0;
      dent := dent + 1;
    }

    /** HS_COPYITEM: an item whose key and value are contiguous in another store. */
    method CopyItem(src: Bytes, klen: nat, vlen: nat, vnull: bool, ghost es: seq<Word>, ghost str: Bytes, ghost p: Pair)
      requires Written(es, str) && dent + 2 <= dbuf && dptr + klen + vlen <= mem.Length
      requires src == p.key + ValueBytes(p) && klen == |p.key| && vlen == |ValueBytes(p)| && vnull == p.val.None?
      modifies this`dent, this`dptr, mem
      ensures Written(es + ItemEntries(|str|, p, es == []), str + p.key + ValueBytes(p))
    {
      ghost var cells := mem[..dent];
      Copy(src);
      assert mem[..dent] == cells && mem[dbuf..dptr] == str + src;
      SetEntry(dptr - dbuf - vlen, false);
      SetEntry(dptr - dbuf, vnull);
      assert mem[dbuf..dptr] == str + src == str + p.key + ValueBytes(p);
      BuiltExtend(cells, es, |str|, p, mem[..dent]);
    }

    /** HS_ADDITEM: an item from its separate key and value. */
    method AddItem(key: Bytes, val: Bytes, isnull: bool, ghost es: seq<Word>, ghost str: Bytes, ghost p: Pair)
      requires Written(es, str) && dent + 2 <= dbuf && dptr + |p.key| + |ValueBytes(p)| <= mem.Length
      requires key == p.key && isnull == p.val.None? && (!isnull ==> val == p.val.value)
      modifies this`dent, this`dptr, mem
      ensures Written(es + ItemEntries(|str|, p, es == []), str + p.key + ValueBytes(p))
    {
      ghost var cells := mem[..dent];
      Copy(key);
      assert mem[..dent] == cells && mem[dbuf..dptr] == str + key;
      SetEntry(dptr - dbuf, false);
      assert mem[dbuf..dptr] == str + key;
      AddValue(val, isnull);
      assert mem[dbuf..dptr] == str + key + ValueBytes(p);
      BuiltExtend(cells, es, |str|, p, mem[..dent]);
    }

    /** The value's characters, unless it is NULL, and its entry. */
    method AddValue(val: Bytes, isnull: bool)
      requires dent < dbuf <= dptr <= mem.Length && (!isnull ==> dptr + |val| <= mem.Length)
      modifies this`dent, this`dptr, mem
      ensures dent == old(dent) + 1 && dptr == old(dptr) + if isnull then 0 else |val|
      ensures mem[..dent] == old(mem[..dent]) + [(dptr - dbuf) % HENTRY_ISNULL + if isnull then HENTRY_ISNULL else 0]
      ensures mem[dbuf..dptr] == old(mem[dbuf..dptr]) + if isnull then [] else val
    {
      if !isnull {
        Copy(val);
      }
      SetEntry(dptr - dbuf, isnull);
    }

    /** HS_FINALIZE: flag the first entry; when fewer items were written than room was made
        for, record that and close the gap between entries and strings. */
    method Finalize(n: nat, ghost es: seq<Word>, ghost str: Bytes) returns (s: Store)
      requires Written(es, str) && |es| == 2 * n
      modifies this`count, this`varsize, mem
      ensures s == Store(n, CalcDataSize(n, |str|), es, str)
    {
      var buflen: nat := dptr - dbuf;
      if n > 0 {
        mem[0] := mem[0] + HENTRY_ISFIRST;
      }
      assert mem[..2 * n] == es;
      assert mem[dbuf..dptr] == str;
      if n != count {
        count := n;
        CloseGap(2 * n, buflen);
      }
      varsize := CalcDataSize(n, buflen);
      s := Store(n, varsize, mem[..2 * n], mem[2 * n..2 * n + buflen]);
    }

    method CloseGap(to: nat, buflen: nat)
      requires to <= dbuf && dbuf + buflen <= mem.Length
      modifies mem
      ensures mem[..to] == old(mem[..to]) && mem[to..to + buflen] == old(mem[dbuf..dbuf + buflen])
    {
      MoveDown(mem, to, dbuf, buflen);
    }
  }
}
