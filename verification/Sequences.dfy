/** Facts about sequences and their multisets that several proofs need. */
module Sequences {

  lemma Assoc<T>(a: seq<T>, b: seq<T>, c: seq<T>)
    ensures a + (b + c) == a + b + c
  {
  }

  lemma AssocInner<T>(a: seq<T>, b: seq<T>, c: seq<T>, d: seq<T>)
    ensures a + (b + c + d) == a + b + c + d
  {
  }

  lemma TakeNext<T>(s: seq<T>, j: nat)
    requires j < |s|
    ensures s[..j + 1] == s[..j] + [s[j]]
  {
  }

  /** An element and what stands before and behind it. */
  lemma SplitOff<T>(s: seq<T>, x: T) returns (l: seq<T>, r: seq<T>)
    requires x in multiset(s)
    ensures s == l + [x] + r
  {
    var k :| 0 <= k < |s| && s[k] == x;
    l, r := s[..k], s[k + 1..];
  }

  /** Two reorderings of each other without a common element. */
  lemma TakenOut<T>(a: seq<T>, rest: seq<T>, b: seq<T>, l: seq<T>, x: T, r: seq<T>)
    requires multiset(a) == multiset(b) && a == [x] + rest && b == l + [x] + r
    ensures multiset(rest) == multiset(l + r)
  {
    assert multiset(b) == multiset(l) + multiset{x} + multiset(r);
    assert multiset(rest) == multiset(a) - multiset{x};
    assert multiset(l + r) == multiset(b) - multiset{x};
  }

  lemma TakeHead<T>(s: seq<T>)
    requires s != []
    ensures multiset(s) == multiset(s[1..]) + multiset{s[0]}
  {
    assert s == [s[0]] + s[1..];
  }

  lemma TakeAt<T>(s: seq<T>, j: nat)
    requires j < |s|
    ensures multiset(s) == multiset(s[..j] + s[j + 1..]) + multiset{s[j]}
  {
    assert s == s[..j] + [s[j]] + s[j + 1..];
  }

  lemma Cancel<T>(a: multiset<T>, b: multiset<T>, c: multiset<T>)
    requires a + c == b + c
    ensures a == b
  {
    forall x: T
      ensures a[x] == b[x]
    {
      assert (a + c)[x] == (b + c)[x];
    }
  }

  function Mapped<A, B>(f: A -> B, s: seq<A>): (r: seq<B>)
    ensures |r| == |s| && forall k :: 0 <= k < |s| ==> r[k] == f(s[k])
  {
    seq(|s|, k requires 0 <= k < |s| => f(s[k]))
  }

  lemma MappedAround<A, B>(f: A -> B, l: seq<A>, x: A, r: seq<A>)
    ensures Mapped(f, l + [x] + r) == Mapped(f, l) + [f(x)] + Mapped(f, r)
    ensures Mapped(f, l + r) == Mapped(f, l) + Mapped(f, r)
  {
  }

  lemma TakenAround<T>(l: seq<T>, x: T, r: seq<T>)
    ensures multiset(l + [x] + r) == multiset(l + r) + multiset{x}
  {
  }

  /** Mapping a reordering reorders the results. */
  lemma {:induction false} MappedReordered<A, B>(f: A -> B, a: seq<A>, b: seq<A>)
    requires multiset(a) == multiset(b)
    ensures multiset(Mapped(f, a)) == multiset(Mapped(f, b))
    decreases |a|
  {
    if a == [] {
      assert |multiset(b)| == |b| == 0;
    } else {
      var x, rest := a[0], a[1..];
      var l, r := SplitOff(b, x);
      assert a == [x] + rest;
      TakenOut(a, rest, b, l, x, r);
      MappedReordered(f, rest, l + r);
      MappedTakenOut(f, a, rest, b, l, x, r);
    }
  }

  lemma MappedTakenOut<A, B>(f: A -> B, a: seq<A>, rest: seq<A>, b: seq<A>, l: seq<A>, x: A, r: seq<A>)
    requires a == [x] + rest && b == l + [x] + r
    requires multiset(Mapped(f, rest)) == multiset(Mapped(f, l + r))
    ensures multiset(Mapped(f, a)) == multiset(Mapped(f, b))
  {
    MappedAround(f, l, x, r);
    TakenAround(Mapped(f, l), f(x), Mapped(f, r));
    assert Mapped(f, a) == [f(x)] + Mapped(f, rest);
  }
}
