/** hstore/hstore_io.c: which texts are read as stores, as a grammar with a meaning of its own,
    and that the parser accepts exactly these texts. */
module HStoreGrammar {
  import opened Wrappers
  import opened Bytes
  import opened HStoreFormat
  import opened HStorePairs
  import opened HStoreOps
  import opened HStoreText

  // ----- Words -----

  /** A character of a word, as it is or behind a backslash. */
  datatype Char = Plain(c: Byte) | Escaped(c: Byte)

  datatype Word = Quoted(chars: seq<Char>) | Bare(chars: seq<Char>)

  /** Tab, line feed, vertical tab, form feed, carriage return or blank. */
  predicate White(c: Byte) {
    c == 9 || c == 10 || c == 11 || c == 12 || c == 13 || c == 32
  }

  /** What a word stands for. */
  function Value(s: seq<Char>): (r: Bytes)
    ensures |r| == |s|
  {
    if s == [] then [] else [s[0].c] + Value(s[1..])
  }

  /** The text of characters, followed by rest. */
  function CharsText(s: seq<Char>, rest: Bytes): Bytes {
    if s == [] then rest
    else (if s[0].Escaped? then [92, s[0].c] else [s[0].c]) + CharsText(s[1..], rest)
  }

  /** The text of a word, followed by rest. */
  function WordText(w: Word, rest: Bytes): Bytes {
    match w
    case Quoted(s) => [34] + CharsText(s, [34] + rest)
    case Bare(s) => CharsText(s, rest)
  }

  predicate QuotedChar(x: Char) {
    x.c != 0 && (x.Plain? ==> x.c != 34 && x.c != 92)
  }

  /** What ends a bare word besides white space: an equals sign ends a key, a comma a value. */
  function Stop(isValue: bool): Byte {
    if isValue then 44 else 61
  }

  predicate BareChar(x: Char, isValue: bool) {
    x.c != 0 && (x.Plain? ==> x.c != 92 && x.c != Stop(isValue) && !White(x.c))
  }

  /** A bare word does not start with a quote; a bare value may start with any stop. */
  predicate FirstChar(x: Char, isValue: bool) {
    x.c != 0 && (x.Plain? ==> x.c != 92 && x.c != 34 && !White(x.c) && (x.c == 61 ==> isValue))
  }

  predicate FormedWord(w: Word, isValue: bool) {
    && |w.chars| <= 0x3fff_ffff
    && match w
       case Quoted(s) => forall x :: x in s ==> QuotedChar(x)
       case Bare(s) => s != [] && FirstChar(s[0], isValue) && forall x :: x in s[1..] ==> BareChar(x, isValue)
  }

  /** The unquoted word null in any case, with or without backslashes. */
  predicate IsMissing(w: Word) {
    && w.Bare? && |w.chars| == 4
    && Letter(w.chars[0].c, 78) && Letter(w.chars[1].c, 85) && Letter(w.chars[2].c, 76) && Letter(w.chars[3].c, 76)
  }

  /** The capital letter or its small one. */
  predicate Letter(c: Byte, capital: Byte) {
    c == capital || c == capital as int + 32
  }

  // ----- Pairs and texts -----

  predicate Blanks(s: Bytes) {
    forall k :: 0 <= k < |s| ==> White(s[k])
  }

  /** One pair, and the white space around its parts. */
  datatype Entry = Entry(lead: Bytes, key: Word, gap: Bytes, mid: Bytes, val: Word, tail: Bytes)

  /** The text of an entry, followed by rest. */
  function EntryText(e: Entry, rest: Bytes): Bytes {
    e.lead + WordText(e.key, e.gap + ([61, 62] + (e.mid + WordText(e.val, e.tail + rest))))
  }

  predicate FormedEntry(e: Entry) {
    && Blanks(e.lead) && FormedWord(e.key, false) && Blanks(e.gap)
    && Blanks(e.mid) && FormedWord(e.val, true) && Blanks(e.tail)
  }

  function RawEntry(e: Entry): RawPair {
    RawPair(Value(e.key.chars), Value(e.val.chars), IsMissing(e.val), true)
  }

  /** Entries with commas between them; one more comma may stand at the end. */
  datatype Syntax = End(blanks: Bytes) | Last(entry: Entry) | More(entry: Entry, rest: Syntax)

  /** The text that is written so, followed by rest. */
  function Render(g: Syntax, rest: Bytes): Bytes {
    match g
    case End(blanks) => blanks + rest
    case Last(e) => EntryText(e, rest)
    case More(e, h) => EntryText(e, [44] + Render(h, rest))
  }

  predicate Formed(g: Syntax) {
    match g
    case End(blanks) => Blanks(blanks)
    case Last(e) => FormedEntry(e)
    case More(e, h) => FormedEntry(e) && Formed(h)
  }

  /** The pairs it stands for. */
  function Raws(g: Syntax): seq<RawPair> {
    match g
    case End(_) => []
    case Last(e) => [RawEntry(e)]
    case More(e, h) => [RawEntry(e)] + Raws(h)
  }

  /** A NUL or the end of the text. */
  predicate Ends(rest: Bytes) {
    rest == [] || rest[0] == 0
  }

  // ----- Texts of the grammar are read as what they stand for -----

  lemma {:induction false} QuotedCharsRead(s: seq<Char>, rest: Bytes, word: Bytes, ignoreeq: bool)
    requires forall x :: x in s ==> QuotedChar(x)
    ensures GetVal(CharsText(s, [QUOTE] + rest), INESCVAL, word, true, ignoreeq) == Success(Some(Found(word + Value(s), true, rest)))
  {
    if s == [] {
      assert ([QUOTE] + rest)[1..] == rest && word + Value(s) == word;
    } else {
      var c := s[0].c;
      QuotedCharsRead(s[1..], rest, word + [c], ignoreeq);
      assert word + [c] + Value(s[1..]) == word + Value(s);
      QuotedCharRead(s[0], CharsText(s[1..], [QUOTE] + rest), word, ignoreeq);
    }
  }

  lemma QuotedCharRead(x: Char, tail: Bytes, word: Bytes, ignoreeq: bool)
    requires QuotedChar(x)
    ensures GetVal((if x.Escaped? then [BACKSLASH, x.c] else [x.c]) + tail, INESCVAL, word, true, ignoreeq)
         == GetVal(tail, INESCVAL, word + [x.c], true, ignoreeq)
  {
    if x.Escaped? {
      assert ([BACKSLASH, x.c] + tail)[1..] == [x.c] + tail && ([x.c] + tail)[1..] == tail;
    } else {
      assert ([x.c] + tail)[1..] == tail;
    }
  }

  /** A bare word ends here. */
  predicate Stops(rest: Bytes, isValue: bool) {
    Head(rest) == 0 || IsSpace(Head(rest)) || Head(rest) == Stop(isValue)
  }

  /** Where the parser goes on after a bare word: white space that ends it is consumed. */
  function Behind(rest: Bytes): Bytes {
    if IsSpace(Head(rest)) then rest[1..] else rest
  }

  lemma {:induction false} BareCharsRead(s: seq<Char>, rest: Bytes, word: Bytes, ignoreeq: bool)
    requires (forall x :: x in s ==> BareChar(x, ignoreeq)) && Stops(rest, ignoreeq)
    ensures GetVal(CharsText(s, rest), INVAL, word, false, ignoreeq) == Success(Some(Found(word + Value(s), false, Behind(rest))))
  {
    if s == [] {
      BareEnds(rest, word, ignoreeq);
      assert word + Value(s) == word;
    } else {
      BareCharsStep(s, CharsText(s[1..], rest), CharsText(s, rest), word, ignoreeq);
      BareCharsRead(s[1..], rest, word + [s[0].c], ignoreeq);
    }
  }

  lemma BareCharsStep(s: seq<Char>, tail: Bytes, text: Bytes, word: Bytes, ignoreeq: bool)
    requires s != [] && BareChar(s[0], ignoreeq) && text == (if s[0].Escaped? then [BACKSLASH, s[0].c] else [s[0].c]) + tail
    ensures GetVal(text, INVAL, word, false, ignoreeq) == GetVal(tail, INVAL, word + [s[0].c], false, ignoreeq)
    ensures word + [s[0].c] + Value(s[1..]) == word + Value(s)
  {
    BareCharRead(s[0], tail, word, ignoreeq);
  }

  lemma BareEnds(rest: Bytes, word: Bytes, ignoreeq: bool)
    requires Stops(rest, ignoreeq)
    ensures GetVal(rest, INVAL, word, false, ignoreeq) == Success(Some(Found(word, false, Behind(rest))))
  {
  }

  lemma BareCharRead(x: Char, tail: Bytes, word: Bytes, ignoreeq: bool)
    requires BareChar(x, ignoreeq)
    ensures GetVal((if x.Escaped? then [BACKSLASH, x.c] else [x.c]) + tail, INVAL, word, false, ignoreeq)
         == GetVal(tail, INVAL, word + [x.c], false, ignoreeq)
  {
    if x.Escaped? {
      assert ([BACKSLASH, x.c] + tail)[1..] == [x.c] + tail && ([x.c] + tail)[1..] == tail;
    } else {
      assert ([x.c] + tail)[1..] == tail;
    }
  }

  lemma FirstCharRead(x: Char, tail: Bytes, ignoreeq: bool)
    requires FirstChar(x, ignoreeq)
    ensures GetVal((if x.Escaped? then [BACKSLASH, x.c] else [x.c]) + tail, WAITVAL, [], false, ignoreeq)
         == GetVal(tail, INVAL, [x.c], false, ignoreeq)
  {
    assert [] + [x.c] == [x.c];
    if x.Escaped? {
      assert ([BACKSLASH, x.c] + tail)[1..] == [x.c] + tail && ([x.c] + tail)[1..] == tail;
    } else {
      assert ([x.c] + tail)[1..] == tail;
    }
  }

  lemma WordRead(w: Word, rest: Bytes, ignoreeq: bool)
    requires FormedWord(w, ignoreeq) && (w.Bare? ==> Stops(rest, ignoreeq))
    ensures GetVal(WordText(w, rest), WAITVAL, [], false, ignoreeq)
         == Success(Some(Found(Value(w.chars), w.Quoted?, if w.Quoted? then rest else Behind(rest))))
  {
    var s := w.chars;
    if w.Quoted? {
      QuotedCharsRead(s, rest, [], ignoreeq);
      assert WordText(w, rest)[1..] == CharsText(s, [QUOTE] + rest) && [] + Value(s) == Value(s);
    } else {
      FirstCharRead(s[0], CharsText(s[1..], rest), ignoreeq);
      BareCharsRead(s[1..], rest, [s[0].c], ignoreeq);
    }
  }

  lemma {:induction false} WordBlanks(b: Bytes, rest: Bytes, ignoreeq: bool)
    requires Blanks(b)
    ensures GetVal(b + rest, WAITVAL, [], false, ignoreeq) == GetVal(rest, WAITVAL, [], false, ignoreeq)
  {
    if b == [] {
      assert b + rest == rest;
    } else {
      WordBlanks(b[1..], rest, ignoreeq);
      assert (b + rest)[1..] == b[1..] + rest;
    }
  }

  /** States in which white space is skipped before the next mark. */
  lemma {:induction false} MarkBlanks(b: Bytes, rest: Bytes, st: State, pairs: seq<RawPair>, key: Bytes)
    requires Blanks(b) && (st == WEQ || st == WDEL)
    ensures Parse(b + rest, st, pairs, key) == Parse(rest, st, pairs, key)
  {
    if b == [] {
      assert b + rest == rest;
    } else {
      MarkBlanks(b[1..], rest, st, pairs, key);
      assert (b + rest)[1..] == b[1..] + rest;
    }
  }

  /** The same after a word, which may have consumed one blank. */
  lemma MarkAfterWord(w: Word, b: Bytes, rest: Bytes, st: State, pairs: seq<RawPair>, key: Bytes)
    requires Blanks(b) && (st == WEQ || st == WDEL) && !IsSpace(Head(rest))
    ensures Parse(if w.Quoted? then b + rest else Behind(b + rest), st, pairs, key) == Parse(rest, st, pairs, key)
  {
    MarkBlanks(b, rest, st, pairs, key);
    if b != [] {
      MarkBlanks(b[1..], rest, st, pairs, key);
      assert (b + rest)[1..] == b[1..] + rest;
    } else {
      assert b + rest == rest;
    }
  }

  lemma StopsAfter(b: Bytes, rest: Bytes, isValue: bool)
    requires Blanks(b) && Stops(rest, isValue)
    ensures Stops(b + rest, isValue)
  {
    assert b == [] ==> b + rest == rest;
  }

  lemma KeyRead(e: Entry, rest: Bytes, pairs: seq<RawPair>, key: Bytes)
    requires FormedEntry(e)
    ensures Parse(e.lead + WordText(e.key, e.gap + ([EQUALS, GREATER] + rest)), State.WKEY, pairs, key)
         == Parse(rest, State.WVAL, pairs, Value(e.key.chars))
  {
    var arrow, k := [EQUALS, GREATER] + rest, Value(e.key.chars);
    WordBlanks(e.lead, WordText(e.key, e.gap + arrow), false);
    StopsAfter(e.gap, arrow, false);
    WordRead(e.key, e.gap + arrow, false);
    MarkAfterWord(e.key, e.gap, arrow, WEQ, pairs, k);
    ArrowReads(rest, pairs, k);
  }

  lemma MissingWord(w: Word, rest: Bytes)
    ensures IsNullWord(Found(Value(w.chars), w.Quoted?, rest)) <==> IsMissing(w)
  {
    ValueAt(w.chars);
  }

  lemma {:induction false} ValueAt(s: seq<Char>)
    ensures forall k :: 0 <= k < |s| ==> Value(s)[k] == s[k].c
  {
    if s != [] {
      ValueAt(s[1..]);
    }
  }

  lemma ValRead(e: Entry, rest: Bytes, pairs: seq<RawPair>, key: Bytes)
    requires FormedEntry(e) && (Ends(rest) || Head(rest) == COMMA) && key == Value(e.key.chars)
    ensures Parse(e.mid + WordText(e.val, e.tail + rest), State.WVAL, pairs, key)
         == Parse(rest, WDEL, pairs + [RawEntry(e)], key)
  {
    WordBlanks(e.mid, WordText(e.val, e.tail + rest), true);
    StopsAfter(e.tail, rest, true);
    WordRead(e.val, e.tail + rest, true);
    MissingWord(e.val, if e.val.Quoted? then e.tail + rest else Behind(e.tail + rest));
    MarkAfterWord(e.val, e.tail, rest, WDEL, pairs + [RawEntry(e)], key);
  }

  lemma EntryRead(e: Entry, rest: Bytes, pairs: seq<RawPair>, key: Bytes)
    requires FormedEntry(e) && (Ends(rest) || Head(rest) == COMMA)
    ensures Parse(EntryText(e, rest), State.WKEY, pairs, key) == Parse(rest, WDEL, pairs + [RawEntry(e)], Value(e.key.chars))
  {
    KeyRead(e, e.mid + WordText(e.val, e.tail + rest), pairs, key);
    ValRead(e, rest, pairs, Value(e.key.chars));
  }

  lemma {:induction false} SyntaxRead(g: Syntax, rest: Bytes, pairs: seq<RawPair>, key: Bytes)
    requires Formed(g) && Ends(rest)
    ensures Parse(Render(g, rest), State.WKEY, pairs, key) == Success(pairs + Raws(g))
    decreases g
  {
    match g
    case End(blanks) =>
      WordBlanks(blanks, rest, false);
      assert pairs + [] == pairs;
    case Last(e) =>
      EntryRead(e, rest, pairs, key);
    case More(e, h) =>
      MoreRead(e, Render(h, rest), pairs, key);
      SyntaxRead(h, rest, pairs + [RawEntry(e)], Value(e.key.chars));
      MoreRaws(pairs, RawEntry(e), Raws(h));
  }

  lemma MoreRead(e: Entry, tail: Bytes, pairs: seq<RawPair>, key: Bytes)
    requires FormedEntry(e)
    ensures Parse(EntryText(e, [COMMA] + tail), State.WKEY, pairs, key)
         == Parse(tail, State.WKEY, pairs + [RawEntry(e)], Value(e.key.chars))
  {
    EntryRead(e, [COMMA] + tail, pairs, key);
    assert ([COMMA] + tail)[1..] == tail;
  }

  // ----- What is read is a text of the grammar -----

  /** One more character in front. */
  lemma Prepend(x: Char, more: seq<Char>, tail: Bytes, word: Bytes)
    ensures CharsText([x] + more, tail) == (if x.Escaped? then [BACKSLASH, x.c] else [x.c]) + CharsText(more, tail)
    ensures word + Value([x] + more) == word + [x.c] + Value(more)
  {
    assert ([x] + more)[1..] == more;
  }

  lemma {:induction false} QuotedCharsFrom(t: Bytes, word: Bytes, ignoreeq: bool, f: Found) returns (s: seq<Char>)
    requires GetVal(t, INESCVAL, word, true, ignoreeq) == Success(Some(f))
    ensures (forall x :: x in s ==> QuotedChar(x)) && t == CharsText(s, [QUOTE] + f.rest)
    ensures f.word == word + Value(s) && f.escaped
    decreases |t|
  {
    var c := Head(t);
    if c == QUOTE {
      s := [];
      assert t == [QUOTE] + t[1..] && word + Value(s) == word;
    } else {
      var x, tail := if c == BACKSLASH then Escaped(t[1]) else Plain(c), if c == BACKSLASH then t[1..][1..] else t[1..];
      var more := QuotedCharsFrom(tail, word + [x.c], ignoreeq, f);
      Prepend(x, more, [QUOTE] + f.rest, word);
      assert t == (if x.Escaped? then [BACKSLASH, x.c] else [x.c]) + tail;
      s := [x] + more;
    }
  }

  lemma {:induction false} BareCharsFrom(t: Bytes, word: Bytes, ignoreeq: bool, f: Found) returns (s: seq<Char>, rest: Bytes)
    requires GetVal(t, INVAL, word, false, ignoreeq) == Success(Some(f))
    ensures (forall x :: x in s ==> BareChar(x, ignoreeq)) && t == CharsText(s, rest) && Stops(rest, ignoreeq)
    ensures f == Found(word + Value(s), false, Behind(rest))
    decreases |t|
  {
    var c := Head(t);
    if c != BACKSLASH && Stops(t, ignoreeq) {
      s, rest := [], t;
      assert word + Value(s) == word;
    } else {
      var x, tail := if c == BACKSLASH then Escaped(t[1]) else Plain(c), if c == BACKSLASH then t[1..][1..] else t[1..];
      var more;
      more, rest := BareCharsFrom(tail, word + [x.c], ignoreeq, f);
      Prepend(x, more, rest, word);
      assert t == (if x.Escaped? then [BACKSLASH, x.c] else [x.c]) + tail;
      s := [x] + more;
    }
  }

  /** A word and the white space before it. */
  lemma {:induction false} WordFrom(t: Bytes, ignoreeq: bool, f: Found) returns (lead: Bytes, w: Word, rest: Bytes)
    requires GetVal(t, WAITVAL, [], false, ignoreeq) == Success(Some(f)) && |f.word| <= MAX_LEN
    ensures Blanks(lead) && FormedWord(w, ignoreeq) && t == lead + WordText(w, rest)
    ensures f == Found(Value(w.chars), w.Quoted?, if w.Quoted? then rest else Behind(rest))
    ensures w.Bare? ==> Stops(rest, ignoreeq)
    decreases |t|
  {
    var c := Head(t);
    if IsSpace(c) {
      lead, w, rest := WordFrom(t[1..], ignoreeq, f);
      FirstBlank(t, lead, WordText(w, rest));
      lead := [c] + lead;
    } else {
      if c == QUOTE {
        w, rest := QuotedFrom(t, ignoreeq, f);
      } else {
        w, rest := BareFrom(t, ignoreeq, f);
      }
      lead := [];
      assert [] + WordText(w, rest) == WordText(w, rest);
    }
  }

  lemma FirstBlank(t: Bytes, lead: Bytes, rest: Bytes)
    requires t != [] && t[1..] == lead + rest && IsSpace(t[0]) && Blanks(lead)
    ensures t == [t[0]] + lead + rest && Blanks([t[0]] + lead)
  {
    assert t == [t[0]] + t[1..];
  }

  lemma QuotedFrom(t: Bytes, ignoreeq: bool, f: Found) returns (w: Word, rest: Bytes)
    requires GetVal(t, WAITVAL, [], false, ignoreeq) == Success(Some(f)) && |f.word| <= MAX_LEN && Head(t) == QUOTE
    ensures w.Quoted? && FormedWord(w, ignoreeq) && t == WordText(w, rest)
    ensures f == Found(Value(w.chars), true, rest)
  {
    var s := QuotedCharsFrom(t[1..], [], ignoreeq, f);
    w, rest := Quoted(s), f.rest;
    assert t == [QUOTE] + t[1..] && [] + Value(s) == Value(s);
  }

  lemma BareFrom(t: Bytes, ignoreeq: bool, f: Found) returns (w: Word, rest: Bytes)
    requires GetVal(t, WAITVAL, [], false, ignoreeq) == Success(Some(f)) && |f.word| <= MAX_LEN
    requires !IsSpace(Head(t)) && Head(t) != QUOTE
    ensures w.Bare? && FormedWord(w, ignoreeq) && t == WordText(w, rest) && Stops(rest, ignoreeq)
    ensures f == Found(Value(w.chars), false, Behind(rest))
  {
    var c := Head(t);
    var x, tail := if c == BACKSLASH then Escaped(t[1]) else Plain(c), if c == BACKSLASH then t[1..][1..] else t[1..];
    assert [] + [x.c] == [x.c];
    var more;
    more, rest := BareCharsFrom(tail, [x.c], ignoreeq, f);
    w := Bare([x] + more);
    assert w.chars[1..] == more;
    assert t == (if x.Escaped? then [BACKSLASH, x.c] else [x.c]) + tail;
  }

  lemma {:induction false} NoWordFrom(t: Bytes, ignoreeq: bool) returns (blanks: Bytes, rest: Bytes)
    requires GetVal(t, WAITVAL, [], false, ignoreeq) == Success(None)
    ensures Blanks(blanks) && Ends(rest) && t == blanks + rest
    decreases |t|
  {
    if IsSpace(Head(t)) {
      blanks, rest := NoWordFrom(t[1..], ignoreeq);
      blanks := [t[0]] + blanks;
    } else {
      NoWordHere(t, ignoreeq);
      blanks, rest := [], t;
    }
  }

  lemma NoWordHere(t: Bytes, ignoreeq: bool)
    requires GetVal(t, WAITVAL, [], false, ignoreeq) == Success(None) && !IsSpace(Head(t))
    ensures Ends(t)
  {
    if Head(t) != 0 {
      SomeWord(t[1..], if Head(t) == QUOTE then INESCVAL else if Head(t) == BACKSLASH then WAITESCIN else INVAL,
               if Head(t) == QUOTE || Head(t) == BACKSLASH then [] else [] + [Head(t)], Head(t) == QUOTE, ignoreeq);
    }
  }

  lemma {:induction false} SomeWord(t: Bytes, st: GvState, word: Bytes, escaped: bool, ignoreeq: bool)
    requires st != WAITVAL
    ensures GetVal(t, st, word, escaped, ignoreeq) != Success(None)
    decreases |t|
  {
    if Head(t) != 0 {
      SomeWord(t[1..], INVAL, word, escaped, ignoreeq);
      forall st', word' | st' != WAITVAL
        ensures GetVal(t[1..], st', word', escaped, ignoreeq) != Success(None)
      {
        SomeWord(t[1..], st', word', escaped, ignoreeq);
      }
    }
  }

  /** What stands between a key and its arrow. */
  lemma {:induction false} ArrowFrom(t: Bytes, pairs: seq<RawPair>, key: Bytes) returns (gap: Bytes, rest: Bytes)
    requires Parse(t, WEQ, pairs, key).Success?
    ensures Blanks(gap) && t == gap + ([EQUALS, GREATER] + rest)
    ensures Parse(t, WEQ, pairs, key) == Parse(rest, State.WVAL, pairs, key)
    decreases |t|
  {
    if Head(t) == EQUALS {
      gap, rest := [], t[1..][1..];
      assert t == [EQUALS, GREATER] + rest;
    } else {
      gap, rest := ArrowFrom(t[1..], pairs, key);
      gap := [t[0]] + gap;
    }
  }

  /** What stands between a value and the comma or the end. */
  lemma {:induction false} CommaFrom(t: Bytes, pairs: seq<RawPair>, key: Bytes) returns (tail: Bytes, rest: Bytes)
    requires Parse(t, WDEL, pairs, key).Success?
    ensures Blanks(tail) && t == tail + rest && (Ends(rest) || Head(rest) == COMMA)
    ensures Parse(t, WDEL, pairs, key) == if Ends(rest) then Success(pairs) else Parse(rest[1..], State.WKEY, pairs, key)
    decreases |t|
  {
    if Head(t) == COMMA || Head(t) == 0 {
      tail, rest := [], t;
    } else {
      tail, rest := CommaFrom(t[1..], pairs, key);
      tail := [t[0]] + tail;
    }
  }

  /** The blanks behind a word, with the one it consumed. */
  lemma BlanksBehind(w: Word, rest: Bytes, b: Bytes, tail: Bytes) returns (b': Bytes)
    requires Blanks(b) && (if w.Quoted? then rest else Behind(rest)) == b + tail
    ensures Blanks(b') && rest == b' + tail
  {
    if w.Bare? && IsSpace(Head(rest)) {
      b' := [rest[0]] + b;
      assert rest == [rest[0]] + rest[1..];
      assert b' + tail == [rest[0]] + (b + tail);
    } else {
      b' := b;
    }
  }

  lemma KeyFrom(t: Bytes, pairs: seq<RawPair>, key: Bytes, f: Found) returns (lead: Bytes, w: Word, gap: Bytes, rest: Bytes)
    requires Parse(t, State.WKEY, pairs, key).Success? && GetVal(t, WAITVAL, [], false, false) == Success(Some(f))
    ensures Blanks(lead) && FormedWord(w, false) && Blanks(gap) && f.word == Value(w.chars)
    ensures t == lead + WordText(w, gap + ([EQUALS, GREATER] + rest))
    ensures Parse(t, State.WKEY, pairs, key) == Parse(rest, State.WVAL, pairs, f.word)
  {
    var behind, b;
    lead, w, behind := WordFrom(t, false, f);
    b, rest := ArrowFrom(f.rest, pairs, f.word);
    gap := BlanksBehind(w, behind, b, [EQUALS, GREATER] + rest);
  }

  lemma ValFrom(t: Bytes, pairs: seq<RawPair>, key: Bytes) returns (mid: Bytes, w: Word, tail: Bytes, rest: Bytes, raw: RawPair)
    requires Parse(t, State.WVAL, pairs, key).Success?
    ensures Blanks(mid) && FormedWord(w, true) && Blanks(tail) && raw == RawPair(key, Value(w.chars), IsMissing(w), true)
    ensures t == mid + WordText(w, tail + rest) && (Ends(rest) || Head(rest) == COMMA)
    ensures Parse(t, State.WVAL, pairs, key)
         == if Ends(rest) then Success(pairs + [raw]) else Parse(rest[1..], State.WKEY, pairs + [raw], key)
  {
    var f := GetVal(t, WAITVAL, [], false, true).value.value;
    var behind, b;
    mid, w, behind := WordFrom(t, true, f);
    MissingWord(w, f.rest);
    raw := RawPair(key, f.word, IsNullWord(f), true);
    b, rest := CommaFrom(f.rest, pairs + [raw], key);
    tail := BlanksBehind(w, behind, b, rest);
  }

  /** An entry and what is read behind it. */
  lemma EntryFrom(t: Bytes, pairs: seq<RawPair>, key: Bytes, f: Found) returns (e: Entry, rest: Bytes)
    requires Parse(t, State.WKEY, pairs, key).Success? && GetVal(t, WAITVAL, [], false, false) == Success(Some(f))
    ensures FormedEntry(e) && t == EntryText(e, rest) && (Ends(rest) || Head(rest) == COMMA)
    ensures Parse(t, State.WKEY, pairs, key)
         == if Ends(rest) then Success(pairs + [RawEntry(e)]) else Parse(rest[1..], State.WKEY, pairs + [RawEntry(e)], f.word)
  {
    var lead, k, gap, behind := KeyFrom(t, pairs, key, f);
    var mid, v, tail, end, raw := ValFrom(behind, pairs, f.word);
    e, rest := Entry(lead, k, gap, mid, v, tail), end;
  }

  lemma {:induction false} SyntaxFrom(t: Bytes, pairs: seq<RawPair>, key: Bytes, raws: seq<RawPair>) returns (g: Syntax, rest: Bytes)
    requires Parse(t, State.WKEY, pairs, key) == Success(raws)
    ensures Formed(g) && t == Render(g, rest) && Ends(rest) && raws == pairs + Raws(g)
    decreases |t|
  {
    var w := GetVal(t, WAITVAL, [], false, false).value;
    if w.None? {
      var blanks;
      blanks, rest := NoWordFrom(t, false);
      g := End(blanks);
      assert pairs + [] == pairs;
    } else {
      var e, end := EntryFrom(t, pairs, key, w.value);
      var raw := RawEntry(e);
      if Ends(end) {
        g, rest := Last(e), end;
      } else {
        EntryLonger(e, end);
        var h;
        h, rest := SyntaxFrom(end[1..], pairs + [raw], w.value.word, raws);
        g := More(e, h);
        assert end == [COMMA] + end[1..];
        MoreRaws(pairs, raw, Raws(h));
      }
    }
  }

  lemma MoreRaws(pairs: seq<RawPair>, raw: RawPair, raws: seq<RawPair>)
    ensures pairs + [raw] + raws == pairs + ([raw] + raws)
  {
  }

  lemma {:induction false} CharsLonger(s: seq<Char>, rest: Bytes)
    ensures |CharsText(s, rest)| >= |rest|
  {
    if s != [] {
      CharsLonger(s[1..], rest);
    }
  }

  lemma EntryLonger(e: Entry, rest: Bytes)
    ensures |EntryText(e, rest)| >= |rest|
  {
    CharsLonger(e.val.chars, if e.val.Quoted? then [QUOTE] + (e.tail + rest) else e.tail + rest);
    var behind := e.gap + ([EQUALS, GREATER] + (e.mid + WordText(e.val, e.tail + rest)));
    CharsLonger(e.key.chars, if e.key.Quoted? then [QUOTE] + behind else behind);
  }

  // ----- The main results -----

  /** The text is written so, up to its end or a NUL. */
  predicate IsText(t: Bytes, g: Syntax, rest: Bytes) {
    Formed(g) && Ends(rest) && t == Render(g, rest)
  }

  lemma ReadIsText(t: Bytes, raws: seq<RawPair>)
    requires Parse(t, State.WKEY, [], []) == Success(raws)
    ensures exists g, rest :: IsText(t, g, rest) && raws == Raws(g)
  {
    var g, rest := SyntaxFrom(t, [], [], raws);
    assert [] + Raws(g) == Raws(g);
    assert IsText(t, g, rest);
  }

  lemma TextIsRead(t: Bytes, g: Syntax, rest: Bytes)
    requires IsText(t, g, rest)
    ensures Parse(t, State.WKEY, [], []) == Success(Raws(g))
  {
    SyntaxRead(g, rest, [], []);
    assert [] + Raws(g) == Raws(g);
  }

  /** The parser accepts exactly the texts of the grammar, and reads them as what they stand for. */
  lemma AcceptedExactly(t: Bytes, raws: seq<RawPair>)
    ensures Parse(t, State.WKEY, [], []) == Success(raws)
       <==> exists g, rest :: IsText(t, g, rest) && raws == Raws(g)
  {
    if Parse(t, State.WKEY, [], []) == Success(raws) {
      ReadIsText(t, raws);
    }
    if g, rest :| IsText(t, g, rest) && raws == Raws(g) {
      TextIsRead(t, g, rest);
    }
  }

  /** However a text is taken apart, it stands for the same pairs. */
  lemma Unambiguous(g: Syntax, rest: Bytes, h: Syntax, rest': Bytes)
    requires Formed(g) && Ends(rest) && Formed(h) && Ends(rest') && Render(g, rest) == Render(h, rest')
    ensures Raws(g) == Raws(h)
  {
    SyntaxRead(g, rest, [], []);
    SyntaxRead(h, rest', [], []);
    assert [] + Raws(g) == Raws(g) && [] + Raws(h) == Raws(h);
  }

  predicate RawNulFree(p: RawPair) {
    NulFree(p.key) && NulFree(p.val)
  }

  lemma WordNulFree(w: Word, isValue: bool)
    requires FormedWord(w, isValue)
    ensures NulFree(Value(w.chars))
  {
    ValueAt(w.chars);
    forall k | 0 <= k < |w.chars|
      ensures w.chars[k].c != 0
    {
      assert w.chars[k] in w.chars;
      if w.Bare? && k > 0 {
        assert w.chars[1..][k - 1] in w.chars[1..];
      }
    }
  }

  lemma {:induction false} RawsNulFree(g: Syntax)
    requires Formed(g)
    ensures forall p :: p in Raws(g) ==> RawNulFree(p)
    decreases g
  {
    if !g.End? {
      WordNulFree(g.entry.key, false);
      WordNulFree(g.entry.val, true);
      if g.More? {
        RawsNulFree(g.rest);
      }
    }
  }

  /** A store that was read from any text is read again, identical, from its own text. */
  lemma ReprintFixed(t: Bytes, s: Store, qsort: seq<RawPair> -> seq<RawPair>)
    requires Sorts(qsort) && Input(t, qsort) == Success(s)
    ensures WellFormed(s) && Input(Text(PairsOf(s)), qsort) == Success(s)
  {
    var raws := Parse(t, State.WKEY, [], []).value;
    var ps := PairsFrom(Unique(raws, qsort));
    UniqueSorted(raws, qsort);
    EncodeWellFormed(ps);
    var g, rest := SyntaxFrom(t, [], [], raws);
    assert [] + Raws(g) == Raws(g);
    RawsNulFree(g);
    PairsNulFree(raws, qsort);
    PrintParse(s, qsort);
  }

  lemma PairsNulFree(raws: seq<RawPair>, qsort: seq<RawPair> -> seq<RawPair>)
    requires Sorts(qsort) && forall p :: p in raws ==> RawNulFree(p)
    ensures AllNulFree(PairsFrom(Unique(raws, qsort)))
  {
    UniqueKeeps(raws, qsort, []);
    var u := Unique(raws, qsort);
    forall p | p in PairsFrom(u)
      ensures PairNulFree(p)
    {
      var i :| 0 <= i < |u| && PairsFrom(u)[i] == p;
      assert u[i] in raws;
    }
  }

  // ----- What is printed -----

  /** A string with each quote and each backslash escaped, and nothing else. */
  function Marked(s: Bytes): seq<Char> {
    if s == [] then [] else [if s[0] == 34 || s[0] == 92 then Escaped(s[0]) else Plain(s[0])] + Marked(s[1..])
  }

  /** Keys and values in quotes, NULL in capital letters. */
  function PrintedEntry(p: Pair, lead: Bytes): Entry {
    Entry(lead, Quoted(Marked(p.key)), [], [],
          if p.val.None? then Bare([Plain(78), Plain(85), Plain(76), Plain(76)]) else Quoted(Marked(p.val.value)), [])
  }

  /** One blank after each comma. */
  function Printed(ps: seq<Pair>, lead: Bytes): Syntax {
    if ps == [] then End([])
    else if |ps| == 1 then Last(PrintedEntry(ps[0], lead))
    else More(PrintedEntry(ps[0], lead), Printed(ps[1..], [32]))
  }

  lemma {:induction false} MarkedText(s: Bytes, rest: Bytes)
    ensures CharsText(Marked(s), rest) == Escape(s) + rest
  {
    if s == [] {
      assert Escape(s) + rest == rest;
    } else {
      var c := if Special(s[0]) then [BACKSLASH, s[0]] else [s[0]];
      MarkedText(s[1..], rest);
      assert Marked(s)[1..] == Marked(s[1..]);
      assert c + (Escape(s[1..]) + rest) == (c + Escape(s[1..])) + rest;
    }
  }

  lemma NullText(rest: Bytes)
    ensures CharsText([Plain(78), Plain(85), Plain(76), Plain(76)], rest) == NULL_WORD + rest
  {
    var a, b, c: seq<Char> := [Plain(85), Plain(76), Plain(76)], [Plain(76), Plain(76)], [Plain(76)];
    var s: seq<Char> := [Plain(78)] + a;
    assert s == [Plain(78), Plain(85), Plain(76), Plain(76)];
    assert s[1..] == a && a[1..] == b && b[1..] == c && c[1..] == [];
    assert CharsText(c, rest) == [76] + rest;
    assert CharsText(b, rest) == [76] + ([76] + rest);
    assert CharsText(a, rest) == [85] + ([76] + ([76] + rest));
  }

  lemma PrintedItem(p: Pair, lead: Bytes, rest: Bytes)
    ensures EntryText(PrintedEntry(p, lead), rest) == lead + (ItemText(p) + rest)
  {
    var v := WordText(PrintedEntry(p, lead).val, [] + rest);
    var arrow := [61, 62] + ([] + v);
    PrintedValue(p, lead, rest);
    MarkedText(p.key, [34] + ([] + arrow));
    assert [] + v == v && [] + arrow == arrow;
    QuotedKey(Escape(p.key), ValueText(p.val), rest);
  }

  lemma QuotedKey(k: Bytes, v: Bytes, rest: Bytes)
    ensures [34] + (k + ([34] + ([61, 62] + (v + rest)))) == ([QUOTE] + k + [QUOTE, EQUALS, GREATER] + v) + rest
  {
  }

  lemma QuotedValue(v: Bytes, rest: Bytes)
    ensures [34] + (v + ([34] + rest)) == ([QUOTE] + v + [QUOTE]) + rest
  {
  }

  lemma PrintedValue(p: Pair, lead: Bytes, rest: Bytes)
    ensures WordText(PrintedEntry(p, lead).val, [] + rest) == ValueText(p.val) + rest
  {
    assert [] + rest == rest;
    if p.val.None? {
      NullText(rest);
    } else {
      MarkedText(p.val.value, [34] + rest);
      QuotedValue(Escape(p.val.value), rest);
    }
  }

  /** The text of pairs is exactly this text of the grammar. */
  lemma {:induction false} TextIsPrinted(ps: seq<Pair>, lead: Bytes)
    requires ps == [] ==> lead == []
    ensures lead + Text(ps) == Render(Printed(ps, lead), [])
    decreases |ps|
  {
    if |ps| == 1 {
      PrintedItem(ps[0], lead, []);
      assert ItemText(ps[0]) + [] == Text(ps);
    } else if |ps| > 1 {
      TextIsPrinted(ps[1..], [32]);
      MorePrinted(ps, lead, Text(ps[1..]), Render(Printed(ps[1..], [32]), []));
    }
  }

  lemma MorePrinted(ps: seq<Pair>, lead: Bytes, more: Bytes, printed: Bytes)
    requires |ps| > 1 && more == Text(ps[1..]) && printed == Render(Printed(ps[1..], [32]), []) && [32] + more == printed
    ensures lead + Text(ps) == Render(Printed(ps, lead), [])
  {
    PrintedItem(ps[0], lead, [44] + printed);
    CommaBlank(more, printed);
    assert Text(ps) == ItemText(ps[0]) + ([44] + printed);
  }

  lemma CommaBlank(more: Bytes, printed: Bytes)
    requires [32] + more == printed
    ensures [COMMA, SPACE] + more == [44] + printed
  {
    assert [COMMA, SPACE] + more == [44] + ([32] + more);
  }

  /** An escaped string is longer by its quotes and backslashes. */
  lemma {:induction false} EscapedLength(s: Bytes)
    ensures |Escape(s)| == |s| + multiset(s)[34] + multiset(s)[92]
  {
    if s != [] {
      EscapedLength(s[1..]);
      assert s == [s[0]] + s[1..];
    }
  }
}
