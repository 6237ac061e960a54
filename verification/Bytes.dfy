/** Byte strings under the order of `memcmp` over the common length, then length. */
module Bytes {

  type Byte = b: int | 0 <= b < 256 witness 0

  type Bytes = seq<Byte>

  /** Length of the longest common prefix. */
  function CommonPrefix(a: Bytes, b: Bytes): (k: nat)
    ensures k <= |a| && k <= |b|
  {
    if a == [] || b == [] || a[0] != b[0] then 0 else 1 + CommonPrefix(a[1..], b[1..])
  }

  /** Negative, zero or positive as a comes before, equals or comes after b. */
  function Compare(a: Bytes, b: Bytes): int {
    var k := CommonPrefix(a, b);
    if k < |a| && k < |b| then a[k] - b[k] else |a| - |b|
  }

  /** a is smaller where they first differ, or ends there. */
  predicate Smaller(a: Bytes, b: Bytes) {
    exists k :: 0 <= k <= |a| && k < |b| && a[..k] == b[..k] && (k == |a| || a[k] < b[k])
  }

  lemma SmallerAt(a: Bytes, b: Bytes, k: nat)
    requires k <= |a| && k < |b| && a[..k] == b[..k] && (k == |a| || a[k] < b[k])
    ensures Compare(a, b) < 0
  {
    CommonPrefixAt(a, b, k);
  }

  /** The comparison has the direction it should have. */
  lemma CompareIsOrder(a: Bytes, b: Bytes)
    ensures Compare(a, b) < 0 <==> Smaller(a, b)
    ensures Compare(a, b) > 0 <==> Smaller(b, a)
  {
    CompareSwap(a, b);
    CommonPrefixAgrees(a, b);
    CommonPrefixAgrees(b, a);
    if k :| 0 <= k <= |a| && k < |b| && a[..k] == b[..k] && (k == |a| || a[k] < b[k]) {
      SmallerAt(a, b, k);
    }
    if k :| 0 <= k <= |b| && k < |a| && b[..k] == a[..k] && (k == |b| || b[k] < a[k]) {
      SmallerAt(b, a, k);
    }
    var k := CommonPrefix(a, b);
    assert a[..k] == b[..k];
    assert Compare(a, b) < 0 ==> k < |b| && (k == |a| || a[k] < b[k]);
    assert Compare(a, b) > 0 ==> k < |a| && (k == |b| || b[k] < a[k]);
  }

  predicate Le(a: Bytes, b: Bytes) {
    Compare(a, b) <= 0
  }

  predicate IsPrefix(p: Bytes, b: Bytes) {
    |p| <= |b| && b[..|p|] == p
  }

  lemma {:induction false} CommonPrefixAgrees(a: Bytes, b: Bytes)
    ensures var k := CommonPrefix(a, b);
      a[..k] == b[..k] && (k == |a| || k == |b| || a[k] != b[k])
  {
    if a != [] && b != [] && a[0] == b[0] {
      CommonPrefixAgrees(a[1..], b[1..]);
      var k := CommonPrefix(a[1..], b[1..]);
      assert a[..k + 1] == [a[0]] + a[1..][..k] && b[..k + 1] == [b[0]] + b[1..][..k];
    }
  }

  /** The first disagreement determines the common prefix. */
  lemma {:induction false} CommonPrefixAt(a: Bytes, b: Bytes, k: nat)
    requires k <= |a| && k <= |b| && a[..k] == b[..k]
    ensures CommonPrefix(a, b) >= k
    ensures k == |a| || k == |b| || a[k] != b[k] ==> CommonPrefix(a, b) == k
  {
    if k > 0 {
      assert a[0] == a[..k][0] == b[..k][0] == b[0];
      assert a[1..][..k - 1] == a[..k][1..] && b[1..][..k - 1] == b[..k][1..];
      CommonPrefixAt(a[1..], b[1..], k - 1);
    }
  }

  /** Agreement up to k, element by element. */
  lemma TakeEqual(a: Bytes, b: Bytes, k: nat, i: nat)
    requires i < k <= |a| && k <= |b| && a[..k] == b[..k]
    ensures a[i] == b[i]
  {
    assert a[..k][i] == b[..k][i];
  }

  lemma TakeShorter(a: Bytes, b: Bytes, k: nat, i: nat)
    requires i <= k <= |a| && k <= |b| && a[..k] == b[..k]
    ensures a[..i] == b[..i]
  {
    assert a[..i] == a[..k][..i] && b[..i] == b[..k][..i];
  }

  lemma CompareSwap(a: Bytes, b: Bytes)
    ensures Compare(a, b) == -Compare(b, a)
    ensures Compare(a, b) == 0 <==> a == b
  {
    CommonPrefixAgrees(a, b);
    CommonPrefixAt(b, a, CommonPrefix(a, b));
    assert a[..|a|] == a && b[..|b|] == b;
  }

  lemma LeTransitive(a: Bytes, b: Bytes, c: Bytes)
    requires Le(a, b) && Le(b, c)
    ensures Le(a, c)
    ensures Compare(a, b) < 0 || Compare(b, c) < 0 ==> Compare(a, c) < 0
  {
    var i, j := CommonPrefix(a, b), CommonPrefix(b, c);
    CommonPrefixAgrees(a, b);
    CommonPrefixAgrees(b, c);
    var k := if i < j then i else j;
    TakeShorter(a, b, i, k);
    TakeShorter(b, c, j, k);
    if i < j {
      TakeEqual(b, c, j, i);
    }
    if j < i {
      TakeEqual(a, b, i, j);
    }
    CommonPrefixAt(a, c, k);
  }

  lemma PrefixLe(p: Bytes, b: Bytes)
    requires IsPrefix(p, b)
    ensures Le(p, b) && CommonPrefix(p, b) == |p|
  {
    assert p[..|p|] == p;
    CommonPrefixAt(p, b, |p|);
  }

  lemma PrefixTransitive(p: Bytes, q: Bytes, b: Bytes)
    requires IsPrefix(p, q) && IsPrefix(q, b)
    ensures IsPrefix(p, b)
  {
    assert b[..|p|] == b[..|q|][..|p|];
  }

  /** Of two prefixes of one string, the shorter is a prefix of the longer. */
  lemma PrefixesNest(p: Bytes, q: Bytes, b: Bytes)
    requires IsPrefix(p, b) && IsPrefix(q, b) && |p| <= |q|
    ensures IsPrefix(p, q)
  {
    assert b[..|p|] == b[..|q|][..|p|];
  }

  /** Below a string, either below its prefix or an extension of that prefix. */
  lemma BelowPrefix(v: Bytes, u: Bytes, p: Bytes)
    requires Le(v, u) && IsPrefix(p, u)
    ensures Le(v, p) || IsPrefix(p, v)
  {
    var k := CommonPrefix(v, u);
    CommonPrefixAgrees(v, u);
    if k >= |p| {
      TakeShorter(v, u, k, |p|);
    } else {
      assert u[..k] == u[..|p|][..k] && p[..k] == u[..k];
      assert p[k] == u[..|p|][k] == u[k];
      CommonPrefixAt(v, p, k);
    }
  }

  /** An extension of p is below any u above p that does not itself extend p. */
  lemma ExtensionBelow(v: Bytes, p: Bytes, u: Bytes)
    requires IsPrefix(p, v) && Le(p, u) && !IsPrefix(p, u)
    ensures Compare(v, u) < 0
  {
    var k := CommonPrefix(p, u);
    CommonPrefixAgrees(p, u);
    if k < |p| {
      assert v[..k] == v[..|p|][..k] == u[..k];
      assert v[k] == v[..|p|][k] == p[k];
      CommonPrefixAt(v, u, k);
    }
  }

  /** Lowering the lower of two strings can only shorten what they share. */
  lemma CommonPrefixMonotone(lo: Bytes, l: Bytes, u: Bytes)
    requires Le(lo, l) && Le(l, u)
    ensures CommonPrefix(lo, u) <= CommonPrefix(l, u)
  {
    var k, i := CommonPrefix(lo, u), CommonPrefix(l, u);
    CommonPrefixAgrees(lo, u);
    CommonPrefixAgrees(l, u);
    if i < k {
      TakeShorter(lo, u, k, i);
      TakeEqual(lo, u, k, i);
      CommonPrefixAt(lo, l, i);
    }
  }
}
