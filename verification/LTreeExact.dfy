/** ltree/ltree_gist.c: exactly when an index search finds every path, for any operator and locale. */
module LTreeExact {
  import opened Wrappers
  import opened Bytes
  import opened LTreeWord
  import opened LTreeText
  import opened IndexScan
  import opened LTree

  /** The narrowest key that covers a path. */
  function OwnKey(crc: Bytes -> int, p: Path): (key: Key)
    ensures Covers(crc, key, p)
  {
    PathCompareSwap(p, p);
    Key(p, p, Some(Hashing(crc, p)))
  }

  /** A test that keeps a path's own key keeps every key that covers the path. */
  lemma OwnKeyLeast(crc: Bytes -> int, key: Key, p: Path, s: Strategy)
    requires Covers(crc, key, p) && Consistent(crc, OwnKey(crc, p), s)
    ensures Consistent(crc, key, s)
  {
    match s {
      case ANCESTORS(query) => OwnAncestor(key, p, query);
      case DESCENDANTS(query) => OwnDescendant(key, p, query);
      case PATTERN(q) => OwnPattern(crc, key, p, q);
      case TEXT(q) =>
        if key.sign.Some? {
          ExecuteMonotone(q, Signed(crc, Hashing(crc, p)), Signed(crc, key.sign.value));
        }
      case PATTERNS(patterns) =>
        var i :| 0 <= i < |patterns| && PatternConsistent(crc, OwnKey(crc, p), patterns[i]);
        OwnPattern(crc, key, p, patterns[i]);
      case _ => OwnOrder(key, p, s.query);
    }
  }

  lemma OwnOrder(key: Key, p: Path, query: Path)
    requires Between(key, p)
    ensures PathLe(p, query) ==> PathLe(key.left, query)
    ensures PathLe(query, p) ==> PathLe(query, key.right)
  {
    if PathLe(p, query) {
      PathLeTransitive(key.left, p, query);
    }
    if PathLe(query, p) {
      PathLeTransitive(query, p, key.right);
    }
  }

  lemma OwnAncestor(key: Key, p: Path, query: Path)
    requires Between(key, p) && AncestorBetween(Key(p, p, key.sign), query)
    ensures AncestorBetween(key, query)
  {
    var i :| 0 <= i <= |query| && Between(Key(p, p, key.sign), query[..i]);
    PathCompareSwap(p, query[..i]);
    assert Between(key, query[..i]);
  }

  lemma OwnDescendant(key: Key, p: Path, good: Path)
    requires Between(key, p) && PathLe(Truncated(p, |good|), good) && PathLe(good, Truncated(p, |good|))
    ensures DescendantBetween(key, good)
  {
    PathCompareSwap(Truncated(p, |good|), good);
    PrefixBetween(key, p, good);
  }

  lemma OwnPattern(crc: Bytes -> int, key: Key, p: Path, q: LQuery)
    requires Covers(crc, key, p) && PatternConsistent(crc, OwnKey(crc, p), q)
    ensures PatternConsistent(crc, key, q)
  {
    OwnDescendant(key, p, Literals(q));
    if key.sign.Some? {
      forall v | v in q.levels
        ensures LevelInSign(crc, v, key.sign.value)
      {
        assert LevelInSign(crc, v, Hashing(crc, p));
      }
    }
  }

  /** A tree of one path under its own key. */
  function OwnTree(crc: Bytes -> int, p: Path): PathTree {
    Inner(OwnKey(crc, p), [Leaf(p)])
  }

  /** If the test rejects the path's own key, the search of that tree misses the path. */
  lemma OwnTreeSearch(crc: Bytes -> int, fold: Bytes -> Bytes, p: Path, s: Strategy)
    requires Satisfies(fold, p, s) && !Consistent(crc, OwnKey(crc, p), s)
    ensures Sound(OwnTree(crc, p), AnyKey, KeyCovers(crc)) && !Exact(crc, fold, OwnTree(crc, p), s)
  {
    var leaf: PathTree := Leaf(p);
    PageOfOne(leaf, AnyKey, KeyCovers(crc));
    assert Values(OwnTree(crc, p)) == [p];
    assert Filter([p], (p: Path) => Satisfies(fold, p, s)) == [p] by {
      assert [p][1..] == [];
    }
  }

  /** Searches by an operator are exact on all sound trees if and only if no path that satisfies
      it has its own key rejected; whatever the operator, the pattern and the locale. */
  lemma SearchExactIff(crc: Bytes -> int, fold: Bytes -> Bytes, s: Strategy)
    ensures (forall t :: Sound(t, AnyKey, KeyCovers(crc)) ==> Exact(crc, fold, t, s))
       <==> (forall p :: Satisfies(fold, p, s) ==> Consistent(crc, OwnKey(crc, p), s))
  {
    forall p | Satisfies(fold, p, s) && !Consistent(crc, OwnKey(crc, p), s)
      ensures exists t :: Sound(t, AnyKey, KeyCovers(crc)) && !Exact(crc, fold, t, s)
    {
      OwnTreeSearch(crc, fold, p, s);
    }
    if forall p :: Satisfies(fold, p, s) ==> Consistent(crc, OwnKey(crc, p), s) {
      forall t | Sound(t, AnyKey, KeyCovers(crc))
        ensures Exact(crc, fold, t, s)
      {
        KeptByOwnKeys(crc, fold, t, s);
      }
    }
  }

  lemma KeptByOwnKeys(crc: Bytes -> int, fold: Bytes -> Bytes, t: PathTree, s: Strategy)
    requires Sound(t, AnyKey, KeyCovers(crc))
    requires forall p :: Satisfies(fold, p, s) ==> Consistent(crc, OwnKey(crc, p), s)
    ensures Exact(crc, fold, t, s)
  {
    forall key, p | p in Values(t) && Covers(crc, key, p) && Satisfies(fold, p, s)
      ensures Consistent(crc, key, s)
    {
      OwnKeyLeast(crc, key, p, s);
    }
    KeepingIsExact(crc, fold, t, s);
  }

  // ----- Words -----

  /** A search for the word in a tree that holds one path, the name alone, does not find it
      although it satisfies the query. */
  ghost predicate Missed(crc: Bytes -> int, fold: Bytes -> Bytes, w: Word, name: Bytes) {
    && Satisfies(fold, [name], TEXT(Val(w)))
    && Sound(OwnTree(crc, [name]), AnyKey, KeyCovers(crc)) && !Exact(crc, fold, OwnTree(crc, [name]), TEXT(Val(w)))
  }

  /** No key that covers a path with a name matching a word is rejected for the word if and only
      if all names that match it hash like it. */
  lemma WordKeptIff(crc: Bytes -> int, fold: Bytes -> Bytes, w: Word)
    ensures (forall key, p :: Covers(crc, key, p) && Present(fold, p)(w) ==> Consistent(crc, key, TEXT(Val(w))))
       <==> Alike(crc, fold, w)
  {
    if Alike(crc, fold, w) {
      forall key, p | Covers(crc, key, p) && Present(fold, p)(w)
        ensures Consistent(crc, key, TEXT(Val(w)))
      {
        ConsistentKeeps(crc, fold, key, TEXT(Val(w)), p);
      }
    } else {
      var name := Unlike(crc, fold, w);
      assert Covers(crc, OwnKey(crc, [name]), [name]) && Present(fold, [name])(w);
      assert !Consistent(crc, OwnKey(crc, [name]), TEXT(Val(w)));
    }
  }

  lemma Unlike(crc: Bytes -> int, fold: Bytes -> Bytes, w: Word) returns (name: Bytes)
    requires !Alike(crc, fold, w)
    ensures CanLookSign(w) && NameMatches(fold, w, name) && name in [name] && Present(fold, [name])(w)
    ensures HashVal(crc(w.name)) !in Hashing(crc, [name])
  {
    name :| NameMatches(fold, w, name) && HashVal(crc(name)) != HashVal(crc(w.name));
    assert name in [name];
  }

  /** A search for a word misses a path of one name that matches it but hashes differently. */
  lemma UnlikeMissed(crc: Bytes -> int, fold: Bytes -> Bytes, w: Word, name: Bytes)
    requires CanLookSign(w) && NameMatches(fold, w, name) && HashVal(crc(name)) != HashVal(crc(w.name))
    ensures Missed(crc, fold, w, name)
  {
    assert name in [name];
    assert Present(fold, [name])(w);
    OwnTreeSearch(crc, fold, [name], TEXT(Val(w)));
  }

  /** Searches for a word are exact on all sound trees under the same condition. */
  lemma WordSearchExactIff(crc: Bytes -> int, fold: Bytes -> Bytes, w: Word)
    ensures (forall t :: Sound(t, AnyKey, KeyCovers(crc)) ==> Exact(crc, fold, t, TEXT(Val(w)))) <==> Alike(crc, fold, w)
  {
    if Alike(crc, fold, w) {
      forall t | Sound(t, AnyKey, KeyCovers(crc))
        ensures Exact(crc, fold, t, TEXT(Val(w)))
      {
        SearchExact(crc, fold, t, TEXT(Val(w)));
      }
    } else {
      var name :| NameMatches(fold, w, name) && HashVal(crc(name)) != HashVal(crc(w.name));
      UnlikeMissed(crc, fold, w, name);
    }
  }

  /** The pattern that is one word. */
  ghost predicate IsOneWord(fold: Bytes -> Bytes, q: LQuery, w: Word) {
    q.levels == [QueryLevel([w], false)] && forall p :: q.matching(p) <==> |p| == 1 && NameMatches(fold, w, p[0])
  }

  lemma OneWordFormed(fold: Bytes -> Bytes, q: LQuery, w: Word)
    requires IsOneWord(fold, q, w)
    ensures WellFormed(fold, q)
  {
    assert q.levels[1..] == [];
    forall p | q.matching(p)
      ensures IsAncestor(Literals(q), p) && LevelPresent(fold, q.levels[0], p)
    {
      assert w in q.levels[0].variants && p[0] in p;
    }
  }

  /** Searches by it are exact under the same condition, too. */
  lemma PatternSearchExactIff(crc: Bytes -> int, fold: Bytes -> Bytes, q: LQuery, w: Word)
    requires IsOneWord(fold, q, w)
    ensures (forall t :: Sound(t, AnyKey, KeyCovers(crc)) ==> Exact(crc, fold, t, PATTERN(q))) <==> Alike(crc, fold, w)
  {
    if Alike(crc, fold, w) {
      OneWordFormed(fold, q, w);
      forall t | Sound(t, AnyKey, KeyCovers(crc))
        ensures Exact(crc, fold, t, PATTERN(q))
      {
        SearchExact(crc, fold, t, PATTERN(q));
      }
    } else {
      var name := Unlike(crc, fold, w);
      assert !LevelInSign(crc, q.levels[0], Hashing(crc, [name]));
      OwnTreeSearch(crc, fold, [name], PATTERN(q));
    }
  }

  /** A word without modifiers always does. */
  lemma PlainAlike(crc: Bytes -> int, fold: Bytes -> Bytes, w: Word)
    requires Plain(w)
    ensures Alike(crc, fold, w)
  {
  }

  /** Where a string folds byte by byte, as the checksum does, every word does. */
  lemma ByteFoldingAlike(lower: Byte -> Byte, fold: Bytes -> Bytes, w: Word)
    requires forall x :: fold(x) == Lowered(lower, x)
    ensures Alike(Crc32(lower), fold, w)
  {
    if CanLookSign(w) {
      forall name | NameMatches(fold, w, name)
        ensures Crc32(lower)(name) == Crc32(lower)(w.name)
      {
        assert Front(name, |w.name|) == name;
        assert Front(Lowered(lower, name), |name|) == Lowered(lower, name);
        assert Front(Lowered(lower, w.name), |w.name|) == Lowered(lower, w.name);
        if w.incase {
          assert Lowered(lower, name) == Lowered(lower, w.name);
        }
      }
    }
  }

  /** There every search by well-formed queries is exact. */
  lemma ByteFoldingExact(lower: Byte -> Byte, fold: Bytes -> Bytes, t: PathTree, s: Strategy)
    requires forall x :: fold(x) == Lowered(lower, x)
    requires Usable(fold, s) && Sound(t, AnyKey, KeyCovers(Crc32(lower)))
    ensures Exact(Crc32(lower), fold, t, s)
  {
    forall w: Word
      ensures Alike(Crc32(lower), fold, w)
    {
      ByteFoldingAlike(lower, fold, w);
    }
    SearchExact(Crc32(lower), fold, t, s);
  }

  lemma AcuteMatches(fold: Bytes -> Bytes, w: Word, upper: Bytes)
    requires w == Word([195, 169], true, false, false) && upper == [195, 137] && fold(upper) == fold(w.name)
    ensures CanLookSign(w) && NameMatches(fold, w, upper)
  {
    assert Front(upper, 2) == upper;
  }

  lemma ChecksumsMissed(crc: Bytes -> int, fold: Bytes -> Bytes, w: Word, upper: Bytes)
    requires w == Word([195, 169], true, false, false) && upper == [195, 137] && fold(upper) == fold(w.name)
    requires crc(upper) == 0x356a_adf6 && crc(w.name) == 0x0e04_8d3e
    ensures Missed(crc, fold, w, upper)
  {
    AcuteMatches(fold, w, upper);
    UnlikeMissed(crc, fold, w, upper);
  }

  /** In a UTF-8 locale a search for a word with `@` misses a path that has the word in upper
      case: folding knows the letter e with an acute accent, the checksum does not. */
  lemma AcuteMissed(fold: Bytes -> Bytes, w: Word, upper: Bytes)
    requires w == Word([195, 169], true, false, false) && upper == [195, 137] && fold(upper) == fold(w.name)
    ensures Missed(Crc32(AsciiLower()), fold, w, upper)
  {
    AcuteChecksums();
    ChecksumsMissed(Crc32(AsciiLower()), fold, w, upper);
  }
}
