/** Allocation and block moves. */
module Memory {

  /** The largest number of bytes that can be allocated at once. */
  const MAX_ALLOC: nat := 0x3fff_ffff

  /** `memmove` of n elements to a lower position. */
  method MoveDown<T>(a: array<T>, to: nat, from: nat, n: nat)
    requires to <= from && from + n <= a.Length
    modifies a
    ensures forall k :: 0 <= k < a.Length ==>
      a[k] == if to <= k < to + n then old(a[k + (from - to)]) else old(a[k])
  {
    var k := 0;
    while k < n
      invariant 0 <= k <= n
      invariant forall j :: 0 <= j < a.Length ==>
        a[j] == if to <= j < to + k then old(a[j + (from - to)]) else old(a[j])
    {
      a[to + k] := a[from + k];
      k := k + 1;
    }
  }
}
