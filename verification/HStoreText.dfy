/** hstore/hstore_io.c: the text form of stores. */
module HStoreText {
  import opened Wrappers
  import opened Sequences
  import opened Bytes
  import opened Memory
  import opened HStoreFormat
  import opened HStoreMap
  import opened HStorePairs
  import opened HStoreOps

  const QUOTE: Byte := 34
  const COMMA: Byte := 44
  const EQUALS: Byte := 61
  const GREATER: Byte := 62
  const BACKSLASH: Byte := 92
  const SPACE: Byte := 32

  /** `isspace` in the C locale. */
  predicate IsSpace(c: Byte) {
    c == SPACE || 9 <= c <= 13
  }

  /** The character a NUL-terminated text starts with. */
  function Head(t: Bytes): Byte {
    if t == [] then 0 else t[0]
  }

  // ----- One word -----

  datatype GvState = WAITVAL | INVAL | INESCVAL | WAITESCIN | WAITESCESCIN

  /** A word, whether it began with a quote, and the text behind it. */
  datatype Found = Found(word: Bytes, escaped: bool, rest: Bytes)

  /** `get_val` in state st with part of the word read and t ahead; None when there is no word. */
  function GetVal(t: Bytes, st: GvState, word: Bytes, escaped: bool, ignoreeq: bool): (r: Result<Option<Found>, Error>)
    ensures r.Success? && r.value.Some? && st == WAITVAL ==> |r.value.value.rest| < |t|
    ensures r.Success? && r.value.Some? ==> |r.value.value.rest| <= |t|
  {
    var c := Head(t);
    match st
    case WAITVAL =>
      if c == QUOTE then GetVal(t[1..], INESCVAL, word, true, ignoreeq)
      else if c == 0 then Success(None)
      else if c == EQUALS && !ignoreeq then Failure(SyntaxError)
      else if c == BACKSLASH then GetVal(t[1..], WAITESCIN, word, escaped, ignoreeq)
      else if !IsSpace(c) then GetVal(t[1..], INVAL, word + [c], escaped, ignoreeq)
      else GetVal(t[1..], WAITVAL, word, escaped, ignoreeq)
    case INVAL =>
      if c == BACKSLASH then GetVal(t[1..], WAITESCIN, word, escaped, ignoreeq)
      else if c == EQUALS && !ignoreeq then Success(Some(Found(word, escaped, t)))
      else if c == COMMA && ignoreeq then Success(Some(Found(word, escaped, t)))
      else if IsSpace(c) then Success(Some(Found(word, escaped, t[1..])))
      else if c == 0 then Success(Some(Found(word, escaped, t)))
      else GetVal(t[1..], INVAL, word + [c], escaped, ignoreeq)
    case INESCVAL =>
      if c == BACKSLASH then GetVal(t[1..], WAITESCESCIN, word, escaped, ignoreeq)
      else if c == QUOTE then Success(Some(Found(word, escaped, t[1..])))
      else if c == 0 then Failure(UnexpectedEnd)
      else GetVal(t[1..], INESCVAL, word + [c], escaped, ignoreeq)
    case WAITESCIN =>
      if c == 0 then Failure(UnexpectedEnd) else GetVal(t[1..], INVAL, word + [c], escaped, ignoreeq)
    case WAITESCESCIN =>
      if c == 0 then Failure(UnexpectedEnd) else GetVal(t[1..], INESCVAL, word + [c], escaped, ignoreeq)
  }

  // ----- All pairs -----

  datatype State = WKEY | WVAL | WEQ | WGT | WDEL

  function Lower(c: Byte): Byte {
    if 65 <= c <= 90 then c + 32 else c
  }

  /** "null" in any case, and not quoted. */
  predicate IsNullWord(w: Found) {
    && |w.word| == 4 && !w.escaped
    && Lower(w.word[0]) == 110 && Lower(w.word[1]) == 117 && Lower(w.word[2]) == 108 && Lower(w.word[3]) == 108
  }

  const MAX_LEN := 0x3fff_ffff

  /** `parse_hstore` in state st with some pairs read and t ahead; key is that of the pair
      being read. */
  function Parse(t: Bytes, st: State, pairs: seq<RawPair>, key: Bytes): Result<seq<RawPair>, Error>
    decreases |t|, if st == WKEY || st == WVAL then 1 else 0
  {
    var c := Head(t);
    match st
    case WKEY =>
      var w :- GetVal(t, WAITVAL, [], false, false);
      if w.None? then Success(pairs)
      else if |w.value.word| > MAX_LEN then Failure(TooLong)
      else Parse(w.value.rest, WEQ, pairs, w.value.word)
    case WEQ =>
      if c == EQUALS then Parse(t[1..], WGT, pairs, key)
      else if c == 0 then Failure(UnexpectedEnd)
      else if !IsSpace(c) then Failure(SyntaxError)
      else Parse(t[1..], WEQ, pairs, key)
    case WGT =>
      if c == GREATER then Parse(t[1..], WVAL, pairs, key)
      else if c == 0 then Failure(UnexpectedEnd)
      else Failure(SyntaxError)
    case WVAL =>
      var w :- GetVal(t, WAITVAL, [], false, true);
      if w.None? then Failure(UnexpectedEnd)
      else if |w.value.word| > MAX_LEN then Failure(TooLong)
      else Parse(w.value.rest, WDEL, pairs + [RawPair(key, w.value.word, IsNullWord(w.value), true)], key)
    case WDEL =>
      if c == COMMA then Parse(t[1..], WKEY, pairs, key)
      else if c == 0 then Success(pairs)
      else if !IsSpace(c) then Failure(SyntaxError)
      else Parse(t[1..], WDEL, pairs, key)
  }

  /** Input of a store: parse, drop duplicate keys, pack. */
  function Input(text: Bytes, qsort: seq<RawPair> -> seq<RawPair>): Result<Store, Error> {
    var raw :- Parse(text, WKEY, [], []);
    var ps := PairsFrom(Unique(raw, qsort));
    if Fits(ps) then Success(Encode(ps)) else Failure(TooLarge)
  }

  // ----- The parser as it moves through the text -----

  class HSParser {
    const begin: Bytes
    var ptr: nat
    var word: Bytes
    var pairs: seq<RawPair>

    constructor (text: Bytes)
      ensures begin == text && ptr == 0 && pairs == []
    {
      begin, ptr, word, pairs := text, 0, [], [];
    }

    function Char(): Byte
      reads this
    {
      if ptr < |begin| then begin[ptr] else 0
    }

    /** What is ahead. */
    ghost function Ahead(): Bytes
      reads this
    {
      if ptr <= |begin| then begin[ptr..] else []
    }

    /** One character in a quoted word, or behind a backslash. */
    method StepQuoted(st: GvState, ghost escaped: bool, ghost ignoreeq: bool) returns (done: Option<Result<bool, Error>>, st': GvState)
      requires ptr <= |begin| && !st.WAITVAL? && !st.INVAL?
      modifies `ptr, `word
      ensures Stepped(old(Ahead()), st, old(word), escaped, ignoreeq, done, st', escaped)
    {
      var c := Char();
      st', done := st, None;
      if c == 0 {
        return Some(Failure(UnexpectedEnd)), st;
      } else if st == WAITESCIN {
        word, st' := word + [c], INVAL;
      } else if st == WAITESCESCIN {
        word, st' := word + [c], INESCVAL;
      } else if c == BACKSLASH {
        st' := WAITESCESCIN;
      } else if c == QUOTE {
        done := Some(Success(true));
      } else {
        word := word + [c];
      }
      ptr := ptr + 1;
    }

    /** One character of an unquoted word. */
    method StepUnquoted(ghost escaped: bool, ignoreeq: bool) returns (done: Option<Result<bool, Error>>, st': GvState)
      requires ptr <= |begin|
      modifies `ptr, `word
      ensures Stepped(old(Ahead()), INVAL, old(word), escaped, ignoreeq, done, st', escaped)
    {
      var c := Char();
      st', done := INVAL, None;
      if c == BACKSLASH {
        st' := WAITESCIN;
      } else if (c == EQUALS && !ignoreeq) || (c == COMMA && ignoreeq) || c == 0 {
        return Some(Success(true)), INVAL;
      } else if IsSpace(c) {
        done := Some(Success(true));
      } else {
        word := word + [c];
      }
      ptr := ptr + 1;
    }

    /** One character before a word. */
    method StepBefore(escaped: bool, ignoreeq: bool) returns (done: Option<Result<bool, Error>>, st': GvState, escaped': bool)
      requires ptr <= |begin|
      modifies `ptr, `word
      ensures Stepped(old(Ahead()), WAITVAL, old(word), escaped, ignoreeq, done, st', escaped')
    {
      var c := Char();
      st', done, escaped' := WAITVAL, None, escaped;
      if c == QUOTE {
        escaped', st' := true, INESCVAL;
      } else if c == 0 {
        return Some(Success(false)), WAITVAL, escaped;
      } else if c == EQUALS && !ignoreeq {
        return Some(Failure(SyntaxError)), WAITVAL, escaped;
      } else if c == BACKSLASH {
        st' := WAITESCIN;
      } else if !IsSpace(c) {
        word, st' := word + [c], INVAL;
      }
      ptr := ptr + 1;
    }

    /** The parser answers what GetVal answers at t, or what it still has to read leads to the
        same answer. */
    ghost predicate Stepped(t: Bytes, st: GvState, w: Bytes, escaped: bool, ignoreeq: bool,
                            done: Option<Result<bool, Error>>, st': GvState, escaped': bool)
      reads this
    {
      var r := GetVal(t, st, w, escaped, ignoreeq);
      && ptr <= |begin|
      && match done
         case None => |Ahead()| < |t| && r == GetVal(Ahead(), st', word, escaped', ignoreeq)
         case Some(Failure(e)) => r == Failure(e)
         case Some(Success(false)) => r == Success(None)
         case Some(Success(true)) => r == Success(Some(Found(word, escaped', Ahead())))
    }

    /** Reads one word; afterwards ptr is behind it. */
    method GetWord(ignoreeq: bool) returns (r: Result<bool, Error>, escaped: bool)
      requires ptr <= |begin|
      modifies `ptr, `word
      ensures ptr <= |begin|
      ensures var w := GetVal(old(Ahead()), WAITVAL, [], false, ignoreeq);
        match w
        case Failure(e) => r == Failure(e)
        case Success(None) => r == Success(false)
        case Success(Some(v)) => r == Success(true) && v == Found(word, escaped, Ahead())
    {
      var st := WAITVAL;
      word, escaped := [], false;
      ghost var want := GetVal(Ahead(), WAITVAL, [], false, ignoreeq);
      var done: Option<Result<bool, Error>> := None;
      while true
        invariant ptr <= |begin| && want == GetVal(Ahead(), st, word, escaped, ignoreeq)
        decreases |Ahead()|
      {
        match st {
          case WAITVAL => done, st, escaped := StepBefore(escaped, ignoreeq);
          case INVAL => done, st := StepUnquoted(escaped, ignoreeq);
          case _ => done, st := StepQuoted(st, escaped, ignoreeq);
        }
        if done.Some? {
          return done.value, escaped;
        }
      }
    }

    /** Reads all pairs. */
    method ParseHstore() returns (r: Result<(), Error>)
      requires ptr == 0 && pairs == []
      modifies this
      ensures var p := Parse(begin, State.WKEY, [], []);
        r == (if p.Success? then Success(()) else Failure(p.error)) && (p.Success? ==> p.value == pairs)
    {
      var st := State.WKEY;
      var key: Bytes := [];
      ghost var want := Parse(begin, State.WKEY, [], []);
      assert Ahead() == begin;
      while true
        invariant ptr <= |begin| && want == Parse(Ahead(), st, pairs, key)
        decreases |begin| - ptr, if st == WKEY || st == WVAL then 1 else 0
      {
        var c := Char();
        match st
        case WKEY =>
          var w, escaped := GetWord(false);
          if w.Failure? {
            return Failure(w.error);
          } else if !w.value {
            return Success(());
          } else if |word| > MAX_LEN {
            return Failure(TooLong);
          }
          key, st := word, WEQ;
        case WEQ =>
          if c == EQUALS {
            st := WGT;
          } else if c == 0 {
            return Failure(UnexpectedEnd);
          } else if !IsSpace(c) {
            return Failure(SyntaxError);
          }
          ptr := ptr + 1;
        case WGT =>
          if c == GREATER {
            st := WVAL;
          } else if c == 0 {
            return Failure(UnexpectedEnd);
          } else {
            return Failure(SyntaxError);
          }
          ptr := ptr + 1;
        case WVAL =>
          var w, escaped := GetWord(true);
          if w.Failure? {
            return Failure(w.error);
          } else if !w.value {
            return Failure(UnexpectedEnd);
          } else if |word| > MAX_LEN {
            return Failure(TooLong);
          }
          pairs, st := pairs + [RawPair(key, word, IsNullWord(Found(word, escaped, [])), true)], WDEL;
        case WDEL =>
          if c == COMMA {
            st := WKEY;
          } else if c == 0 {
            return Success(());
          } else if !IsSpace(c) {
            return Failure(SyntaxError);
          }
          ptr := ptr + 1;
      }
    }
  }

  /** The store holds pairs that were read, in order. */
  lemma InputHolds(text: Bytes, qsort: seq<RawPair> -> seq<RawPair>, s: Store, raws: seq<RawPair>)
    requires Sorts(qsort) && Input(text, qsort) == Success(s) && Parse(text, State.WKEY, [], []) == Success(raws)
    ensures WellFormed(s) && InOrder(PairsOf(s)) && PairsOf(s) == PairsFrom(Unique(raws, qsort))
    ensures forall p :: p in PairsOf(s) ==> exists raw :: raw in raws && PairOf(raw) == p
  {
    var u := Unique(raws, qsort);
    UniqueSorted(raws, qsort);
    EncodeWellFormed(PairsFrom(u));
    UniqueKeeps(raws, qsort, []);
    forall p | p in PairsFrom(u)
      ensures exists raw :: raw in raws && PairOf(raw) == p
    {
      var i :| 0 <= i < |u| && PairsFrom(u)[i] == p;
      assert u[i] in raws;
    }
  }

  /** It holds one for each key that was read. */
  lemma InputComplete(text: Bytes, qsort: seq<RawPair> -> seq<RawPair>, s: Store, raws: seq<RawPair>, raw: RawPair)
    requires Sorts(qsort) && Input(text, qsort) == Success(s) && Parse(text, State.WKEY, [], []) == Success(raws) && raw in raws
    ensures exists p :: p in PairsOf(s) && p.key == raw.key
  {
    InputHolds(text, qsort, s, raws);
    var u := Unique(raws, qsort);
    UniqueKeeps(raws, qsort, raw.key);
    var x :| x in u && x.key == raw.key;
    var i :| 0 <= i < |u| && u[i] == x;
    assert PairsFrom(u)[i] == PairOf(x);
  }

  method HstoreIn(text: Bytes, qsort: seq<RawPair> -> seq<RawPair>) returns (r: Result<Store, Error>)
    requires Sorts(qsort)
    ensures r == Input(text, qsort)
    ensures r.Success? ==> WellFormed(r.value) && InOrder(PairsOf(r.value))
  {
    var state := new HSParser(text);
    var parsed := state.ParseHstore();
    if parsed.Failure? {
      return Failure(parsed.error);
    }
    var raw := state.pairs;
    var a := new RawPair[|raw|](k requires 0 <= k < |raw| => raw[k]);
    assert a[..|raw|] == raw;
    var pcur, buflen := HstoreUniquePairs(a, |raw|, qsort);
    RoomIsEnd(a[..pcur], pcur);
    r := HstorePairs(a[..pcur], buflen);
    if r.Success? {
      InputHolds(text, qsort, r.value, raw);
    }
  }

  // ----- Output -----

  predicate Special(c: Byte) {
    c == QUOTE || c == BACKSLASH
  }

  /** Every quote and backslash behind a backslash. */
  function Escape(s: Bytes): (r: Bytes)
    ensures |r| <= 2 * |s|
  {
    if s == [] then [] else (if Special(s[0]) then [BACKSLASH, s[0]] else [s[0]]) + Escape(s[1..])
  }

  const NULL_WORD: Bytes := [78, 85, 76, 76]

  function ValueText(v: Option<Bytes>): Bytes {
    if v.None? then NULL_WORD else [QUOTE] + Escape(v.value) + [QUOTE]
  }

  function ItemText(p: Pair): Bytes {
    [QUOTE] + Escape(p.key) + [QUOTE, EQUALS, GREATER] + ValueText(p.val)
  }

  /** The text of pairs. */
  function Text(ps: seq<Pair>): Bytes {
    if ps == [] then []
    else ItemText(ps[0]) + if |ps| > 1 then [COMMA, SPACE] + Text(ps[1..]) else []
  }

  predicate NulFree(s: Bytes) {
    forall k :: 0 <= k < |s| ==> s[k] != 0
  }

  /** No character of the pair is NUL. */
  predicate PairNulFree(p: Pair) {
    NulFree(p.key) && NulFree(ValueBytes(p))
  }

  // ----- Reading what was written -----

  /** An escaped string up to the closing quote is read back; a NUL in it ends the text too
      early. */
  lemma {:induction false} EscapeReads(s: Bytes, rest: Bytes, word: Bytes, ignoreeq: bool)
    ensures GetVal(Escape(s) + [QUOTE] + rest, INESCVAL, word, true, ignoreeq)
         == if NulFree(s) then Success(Some(Found(word + s, true, rest))) else Failure(UnexpectedEnd)
    decreases s
  {
    var t := Escape(s) + [QUOTE] + rest;
    if s == [] {
      assert t == [QUOTE] + rest && t[1..] == rest && word + s == word;
    } else {
      var c, tail := s[0], Escape(s[1..]) + [QUOTE] + rest;
      EscapeReads(s[1..], rest, word + [c], ignoreeq);
      assert word + [c] + s[1..] == word + s;
      assert NulFree(s) <==> c != 0 && NulFree(s[1..]);
      if Special(c) {
        assert t == [BACKSLASH, c] + tail;
        assert t[1..] == [c] + tail && ([c] + tail)[1..] == tail;
      } else {
        assert t == [c] + tail && t[1..] == tail;
      }
    }
  }

  /** A quoted string. */
  lemma QuotedReads(s: Bytes, rest: Bytes, ignoreeq: bool)
    ensures GetVal([QUOTE] + Escape(s) + [QUOTE] + rest, WAITVAL, [], false, ignoreeq)
         == if NulFree(s) then Success(Some(Found(s, true, rest))) else Failure(UnexpectedEnd)
  {
    var t := [QUOTE] + Escape(s) + [QUOTE] + rest;
    assert t[1..] == Escape(s) + [QUOTE] + rest;
    EscapeReads(s, rest, [], ignoreeq);
    assert [] + s == s;
  }

  /** One more letter of an unquoted word. */
  lemma LetterReads(c: Byte, tail: Bytes, word: Bytes)
    requires 65 <= c <= 90
    ensures GetVal([c] + tail, INVAL, word, false, true) == GetVal(tail, INVAL, word + [c], false, true)
    ensures GetVal([c] + tail, WAITVAL, word, false, true) == GetVal(tail, INVAL, word + [c], false, true)
  {
    assert ([c] + tail)[1..] == tail;
  }

  /** The unquoted word for a missing value, at the end or before a comma. */
  lemma NullReads(rest: Bytes)
    requires rest == [] || rest[0] == COMMA
    ensures GetVal(NULL_WORD + rest, WAITVAL, [], false, true) == Success(Some(Found(NULL_WORD, false, rest)))
  {
    var t3 := [76] + rest;
    var t2 := [76] + t3;
    var t1 := [85] + t2;
    assert NULL_WORD + rest == [78] + t1;
    LetterReads(78, t1, []);
    LetterReads(85, t2, [] + [78]);
    LetterReads(76, t3, [] + [78] + [85]);
    LetterReads(76, rest, [] + [78] + [85] + [76]);
    assert [] + [78] + [85] + [76] + [76] == NULL_WORD;
  }

  /** What the parser makes of a pair. */
  function RawOf(p: Pair): RawPair {
    RawPair(p.key, if p.val.None? then NULL_WORD else p.val.value, p.val.None?, true)
  }

  /** A value is read back, and a quoted one is never taken for a missing one. */
  lemma ValueReads(v: Option<Bytes>, rest: Bytes, pairs: seq<RawPair>, key: Bytes)
    requires rest == [] || rest[0] == COMMA
    requires v.Some? ==> |v.value| <= MAX_LEN
    ensures Parse(ValueText(v) + rest, State.WVAL, pairs, key)
         == if v.Some? && !NulFree(v.value) then Failure(UnexpectedEnd)
            else Parse(rest, WDEL, pairs + [RawOf(Pair(key, v))], key)
  {
    if v.None? {
      NullReads(rest);
    } else {
      QuotedReads(v.value, rest, true);
    }
  }

  lemma ArrowReads(tail: Bytes, pairs: seq<RawPair>, key: Bytes)
    ensures Parse([EQUALS, GREATER] + tail, WEQ, pairs, key) == Parse(tail, State.WVAL, pairs, key)
  {
    assert ([EQUALS, GREATER] + tail)[1..] == [GREATER] + tail && ([GREATER] + tail)[1..] == tail;
  }

  /** An item is read back. */
  lemma ItemReads(p: Pair, rest: Bytes, pairs: seq<RawPair>, key: Bytes)
    requires (rest == [] || rest[0] == COMMA) && |p.key| <= MAX_LEN && |ValueBytes(p)| <= MAX_LEN
    ensures var r := Parse(ItemText(p) + rest, State.WKEY, pairs, key);
      if PairNulFree(p) then r == Parse(rest, WDEL, pairs + [RawOf(p)], p.key) else r == Failure(UnexpectedEnd)
  {
    var tail := ValueText(p.val) + rest;
    var arrow := [EQUALS, GREATER] + tail;
    assert ItemText(p) + rest == [QUOTE] + Escape(p.key) + [QUOTE] + arrow;
    QuotedReads(p.key, arrow, false);
    if NulFree(p.key) {
      assert Parse(ItemText(p) + rest, State.WKEY, pairs, key) == Parse(arrow, WEQ, pairs, p.key);
      ArrowReads(tail, pairs, p.key);
      ValueReads(p.val, rest, pairs, p.key);
    }
  }

  function RawsOf(ps: seq<Pair>): (r: seq<RawPair>)
    ensures |r| == |ps| && forall i :: 0 <= i < |ps| ==> r[i] == RawOf(ps[i])
  {
    seq(|ps|, i requires 0 <= i < |ps| => RawOf(ps[i]))
  }

  /** Strings short enough for a store. */
  ghost predicate Short(ps: seq<Pair>) {
    forall p :: p in ps ==> |p.key| <= MAX_LEN && |ValueBytes(p)| <= MAX_LEN
  }

  /** The blank after a separating comma is skipped. */
  lemma CommaReads(tail: Bytes, pairs: seq<RawPair>, key: Bytes)
    ensures Parse([COMMA, SPACE] + tail, WDEL, pairs, key) == Parse(tail, State.WKEY, pairs, key)
  {
    assert ([COMMA, SPACE] + tail)[1..] == [SPACE] + tail && ([SPACE] + tail)[1..] == tail;
    assert GetVal([SPACE] + tail, WAITVAL, [], false, false) == GetVal(tail, WAITVAL, [], false, false);
  }

  ghost predicate AllNulFree(ps: seq<Pair>) {
    forall p :: p in ps ==> PairNulFree(p)
  }

  /** The text from an item on, given what happens behind it. */
  lemma ItemThenRest(p: Pair, more: bool, tail: Bytes, pairs: seq<RawPair>, key: Bytes)
    requires |p.key| <= MAX_LEN && |ValueBytes(p)| <= MAX_LEN
    ensures var t := ItemText(p) + if more then [COMMA, SPACE] + tail else [];
      Parse(t, State.WKEY, pairs, key)
      == if !PairNulFree(p) then Failure(UnexpectedEnd)
         else if more then Parse(tail, State.WKEY, pairs + [RawOf(p)], p.key)
         else Success(pairs + [RawOf(p)])
  {
    var rest := if more then [COMMA, SPACE] + tail else [];
    ItemReads(p, rest, pairs, key);
    if more {
      CommaReads(tail, pairs + [RawOf(p)], p.key);
    }
  }

  lemma RawsOfCons(ps: seq<Pair>, pairs: seq<RawPair>)
    requires ps != []
    ensures pairs + [RawOf(ps[0])] + RawsOf(ps[1..]) == pairs + RawsOf(ps)
  {
    assert RawsOf(ps) == [RawOf(ps[0])] + RawsOf(ps[1..]);
  }

  lemma FirstAndRest(ps: seq<Pair>)
    requires ps != []
    ensures AllNulFree(ps) <==> PairNulFree(ps[0]) && AllNulFree(ps[1..])
    ensures Short(ps) ==> Short(ps[1..])
  {
    assert forall p :: p in ps <==> p == ps[0] || p in ps[1..];
  }

  /** A text of pairs is read back, or rejected if it has a NUL. */
  lemma {:induction false} TextReads(ps: seq<Pair>, pairs: seq<RawPair>, key: Bytes)
    requires Short(ps)
    ensures Parse(Text(ps), State.WKEY, pairs, key)
         == if AllNulFree(ps) then Success(pairs + RawsOf(ps)) else Failure(UnexpectedEnd)
  {
    if ps == [] {
      assert pairs + RawsOf(ps) == pairs;
    } else {
      RawsOfCons(ps, pairs);
      FirstAndRest(ps);
      ItemThenRest(ps[0], |ps| > 1, Text(ps[1..]), pairs, key);
      if |ps| > 1 {
        TextReads(ps[1..], pairs + [RawOf(ps[0])], ps[0].key);
      } else {
        assert pairs + [RawOf(ps[0])] + [] == pairs + [RawOf(ps[0])];
      }
    }
  }

  lemma ShortIfFits(ps: seq<Pair>)
    requires Fits(ps)
    ensures Short(ps)
  {
    forall p | p in ps
      ensures |p.key| <= MAX_LEN && |ValueBytes(p)| <= MAX_LEN
    {
      var i :| 0 <= i < |ps| && ps[i] == p;
      EndMonotone(ps, i + 1, |ps|);
    }
  }

  lemma RawsRestore(ps: seq<Pair>, qsort: seq<RawPair> -> seq<RawPair>)
    requires SortedPairs(ps) && Sorts(qsort)
    ensures PairsFrom(Unique(RawsOf(ps), qsort)) == ps
  {
    UniqueOfDistinct(RawsOf(ps), qsort);
  }

  /** Reading the text of a store gives back the identical store, exactly when none of its keys
      and values has a NUL; otherwise the text is rejected. */
  lemma PrintParse(s: Store, qsort: seq<RawPair> -> seq<RawPair>)
    requires WellFormed(s) && Sorts(qsort)
    ensures Input(Text(PairsOf(s)), qsort) == if AllNulFree(PairsOf(s)) then Success(s) else Failure(UnexpectedEnd)
  {
    var ps := PairsOf(s);
    ShortIfFits(ps);
    TextReads(ps, [], []);
    assert [] + RawsOf(ps) == RawsOf(ps);
    RawsRestore(ps, qsort);
  }

  // ----- Writing the text -----

  /** What is reserved for an item: quotes, an arrow, a comma and a blank, and twice its
      characters. */
  function ItemRoom(p: Pair): nat {
    6 + 2 * |p.key| + 2 + if p.val.None? then 2 else 2 * |p.val.value|
  }

  function TextRoom(ps: seq<Pair>, n: nat): nat
    requires n <= |ps|
  {
    if n == 0 then 0 else TextRoom(ps, n - 1) + ItemRoom(ps[n - 1])
  }

  lemma {:induction false} TextRoomMonotone(ps: seq<Pair>, m: nat, n: nat)
    requires m <= n <= |ps|
    ensures TextRoom(ps, m) <= TextRoom(ps, n)
  {
    if m < n {
      TextRoomMonotone(ps, m, n - 1);
    }
  }

  /** The text of the items from position i on. */
  lemma TextStep(ps: seq<Pair>, i: nat)
    requires i < |ps|
    ensures Text(ps[i..]) == ItemText(ps[i]) + (if i + 1 < |ps| then [COMMA, SPACE] else []) + Text(ps[i + 1..])
  {
    assert ps[i..][1..] == ps[i + 1..];
  }

  /** Characters written one after the other. */
  method Put(out: array<Byte>, ptr: nat, s: Bytes) returns (ptr': nat)
    requires ptr + |s| <= out.Length
    modifies out
    ensures ptr' == ptr + |s| && out[..ptr'] == old(out[..ptr]) + s
  {
    forall k | 0 <= k < |s| {
      out[ptr + k] := s[k];
    }
    ptr' := ptr + |s|;
  }

  /** Copy a string, escaping. */
  method Cpw(dst: array<Byte>, ptr: nat, src: Bytes) returns (ptr': nat)
    requires ptr + 2 * |src| <= dst.Length
    modifies dst
    ensures ptr <= ptr' <= ptr + 2 * |src| && dst[..ptr'] == old(dst[..ptr]) + Escape(src)
  {
    ghost var before := dst[..ptr];
    ptr' := ptr;
    var i := 0;
    while i < |src|
      invariant 0 <= i <= |src| && ptr <= ptr' <= ptr + 2 * i
      invariant dst[..ptr'] + Escape(src[i..]) == before + Escape(src)
    {
      ghost var done := dst[..ptr'];
      EscapeStep(done, src, i);
      if src[i] == QUOTE || src[i] == BACKSLASH {
        ptr' := Put(dst, ptr', [BACKSLASH]);
      }
      ptr' := Put(dst, ptr', [src[i]]);
      i := i + 1;
    }
    assert src[i..] == [];
  }

  lemma EscapeStep(done: Bytes, s: Bytes, i: nat)
    requires i < |s|
    ensures done + Escape(s[i..]) == (if Special(s[i]) then done + [BACKSLASH] + [s[i]] else done + [s[i]]) + Escape(s[i + 1..])
  {
    assert s[i..][1..] == s[i + 1..];
    assert [BACKSLASH, s[i]] == [BACKSLASH] + [s[i]];
  }

  method WriteValue(out: array<Byte>, ptr: nat, val: Bytes, isnull: bool, ghost v: Option<Bytes>) returns (ptr': nat)
    requires isnull == v.None? && (v.Some? ==> val == v.value)
    requires ptr + 2 + (if isnull then 2 else 2 * |val|) <= out.Length
    modifies out
    ensures ptr <= ptr' <= ptr + 2 + if isnull then 2 else 2 * |val|
    ensures out[..ptr'] == old(out[..ptr]) + ValueText(v)
  {
    if isnull {
      ptr' := Put(out, ptr, NULL_WORD);
    } else {
      ghost var before := out[..ptr];
      ptr' := Put(out, ptr, [QUOTE]);
      ptr' := Cpw(out, ptr', val);
      ptr' := Put(out, ptr', [QUOTE]);
      assert before + [QUOTE] + Escape(val) + [QUOTE] == before + ([QUOTE] + Escape(val) + [QUOTE]);
    }
  }

  lemma ItemJoin(before: Bytes, p: Pair)
    ensures before + [QUOTE] + Escape(p.key) + [QUOTE, EQUALS, GREATER] + ValueText(p.val) == before + ItemText(p)
  {
  }

  method WriteItem(out: array<Byte>, ptr: nat, key: Bytes, val: Bytes, isnull: bool, ghost p: Pair) returns (ptr': nat)
    requires p.key == key && isnull == p.val.None? && (p.val.Some? ==> val == p.val.value)
    requires ptr + ItemRoom(p) <= out.Length + 2
    modifies out
    ensures ptr <= ptr' <= ptr + ItemRoom(p) - 2 && out[..ptr'] == old(out[..ptr]) + ItemText(p)
  {
    ghost var before := out[..ptr];
    ptr' := Put(out, ptr, [QUOTE]);
    ptr' := Cpw(out, ptr', key);
    ptr' := Put(out, ptr', [QUOTE, EQUALS, GREATER]);
    ptr' := WriteValue(out, ptr', val, isnull, p.val);
    ItemJoin(before, p);
  }

  /** Item i and, unless it is the last, a comma and a blank. */
  method WriteOne(out: array<Byte>, ptr: nat, s: Store, i: nat, ghost ps: seq<Pair>) returns (ptr': nat)
    requires Laid(s, ps) && i < |ps| && ptr + ItemRoom(ps[i]) <= out.Length
    requires out[..ptr] + Text(ps[i..]) == Text(ps)
    modifies out
    ensures ptr <= ptr' <= ptr + ItemRoom(ps[i]) - if i + 1 == |ps| then 2 else 0
    ensures out[..ptr'] + Text(ps[i + 1..]) == Text(ps)
  {
    ReadAt(s, ps, i);
    TextStep(ps, i);
    ghost var before := out[..ptr];
    ptr' := WriteItem(out, ptr, Key(s, i), Val(s, i), ValIsNull(s, i), ps[i]);
    if i + 1 != s.count {
      ptr' := Put(out, ptr', [COMMA, SPACE]);
      AssocInner(before, ItemText(ps[i]), [COMMA, SPACE], Text(ps[i + 1..]));
    } else {
      AssocInner(before, ItemText(ps[i]), [], Text(ps[i + 1..]));
      assert before + ItemText(ps[i]) + [] == before + ItemText(ps[i]);
    }
  }

  /** What is reserved for a store is less than 2^31 bytes: the counter does not wrap. */
  lemma RoomIsInt(ps: seq<Pair>)
    requires Fits(ps)
    ensures TextRoom(ps, |ps|) < 0x8000_0000
  {
    RoomBelowSize(ps, |ps|);
  }

  lemma {:induction false} RoomBelowSize(ps: seq<Pair>, n: nat)
    requires n <= |ps|
    ensures TextRoom(ps, n) <= 10 * n + 2 * End(ps, n)
  {
    if n > 0 {
      RoomBelowSize(ps, n - 1);
    }
  }

  /** Output of a store; fails exactly when the bound of the text's length is more than can be
      allocated, and otherwise the text and its NUL fit what is reserved. */
  method HstoreOut(s: Store) returns (r: Result<Bytes, Error>)
    requires WellFormed(s)
    ensures r == if TextRoom(PairsOf(s), s.count) > MAX_ALLOC then Failure(TooLarge) else Success(Text(PairsOf(s)))
    ensures r.Success? && s.count > 0 ==> |r.value| < TextRoom(PairsOf(s), s.count)
  {
    if s.count == 0 {
      return Success([]);
    }
    ghost var ps := PairsOf(s);
    r := WriteAll(s, ps);
  }

  method WriteAll(s: Store, ghost ps: seq<Pair>) returns (r: Result<Bytes, Error>)
    requires Laid(s, ps) && ps != []
    ensures r == if TextRoom(ps, |ps|) > MAX_ALLOC then Failure(TooLarge) else Success(Text(ps))
    ensures r.Success? ==> |r.value| < TextRoom(ps, |ps|)
  {
    var buflen := BufferLength(s, ps);
    if buflen > MAX_ALLOC {
      return Failure(TooLarge);
    }
    var out := new Byte[buflen](_ => 0);
    var ptr := WriteItems(out, s, ps);
    out[ptr] := 0;
    r := Success(out[..ptr]);
  }

  /** An upper bound of the text's length. */
  method BufferLength(s: Store, ghost ps: seq<Pair>) returns (buflen: nat)
    requires Laid(s, ps)
    ensures buflen == TextRoom(ps, |ps|) < 0x8000_0000
  {
    RoomIsInt(ps);
    buflen := 0;
    var i := 0;
    while i < s.count
      invariant 0 <= i <= s.count && buflen == TextRoom(ps, i)
    {
      ReadAt(s, ps, i);
      buflen := buflen + 6 + 2 * KeyLen(s, i);
      buflen := buflen + 2 + if ValIsNull(s, i) then 2 else 2 * ValLen(s, i);
      i := i + 1;
    }
  }

  /** The items before position i are written out. */
  ghost predicate Written(out: seq<Byte>, ps: seq<Pair>, i: nat, ptr: nat) {
    && i <= |ps| && ptr <= |out| && ptr <= TextRoom(ps, i) - (if i == |ps| then 2 else 0)
    && out[..ptr] + Text(ps[i..]) == Text(ps)
  }

  lemma RoomLeft(ps: seq<Pair>, i: nat)
    requires i < |ps|
    ensures TextRoom(ps, i) + ItemRoom(ps[i]) == TextRoom(ps, i + 1) <= TextRoom(ps, |ps|)
  {
    TextRoomMonotone(ps, i + 1, |ps|);
  }

  method WriteNext(out: array<Byte>, ptr: nat, s: Store, i: nat, i': nat, ghost ps: seq<Pair>) returns (ptr': nat)
    requires Laid(s, ps) && i < |ps| && i' == i + 1 && out.Length == TextRoom(ps, |ps|) && Written(out[..], ps, i, ptr)
    modifies out
    ensures Written(out[..], ps, i', ptr')
  {
    RoomLeft(ps, i);
    ptr' := WriteOne(out, ptr, s, i, ps);
  }

  method WriteItems(out: array<Byte>, s: Store, ghost ps: seq<Pair>) returns (ptr: nat)
    requires Laid(s, ps) && ps != [] && out.Length == TextRoom(ps, |ps|)
    modifies out
    ensures ptr < out.Length && out[..ptr] == Text(ps)
  {
    ptr := 0;
    var i := 0;
    assert ps[0..] == ps;
    while i < s.count
      invariant 0 <= i <= s.count && Written(out[..], ps, i, ptr)
    {
      ptr := WriteNext(out, ptr, s, i, i + 1, ps);
      i := i + 1;
    }
    AllWritten(out[..], ps, ptr);
  }

  lemma AllWritten(out: seq<Byte>, ps: seq<Pair>, ptr: nat)
    requires Written(out, ps, |ps|, ptr)
    ensures out[..ptr] == Text(ps)
  {
    assert ps[|ps|..] == [];
  }
}
