/** new_intArrayType of intarray/_int_tool.c: the room of a new array, sized in int arithmetic. */
module IntRoom {
  import opened Wrappers
  import opened Ints
  import opened Memory

  /** An array needs a header and 4 bytes for each element; the largest allocation bounds the
      number of elements. */
  const ARRAY_HEADER: nat := 24
  const MAX_ELEMENTS: nat := (MAX_ALLOC - ARRAY_HEADER) / 4

  /** Refused: the allocator rejects the size.  Overrun: the program writes behind the end of an
      array, and what happens then is not modelled. */
  datatype ArrayError = Refused | Overrun

  lemma WrapAdd(x: int, y: int)
    ensures Wrap32(Wrap32(x) as int + y) == Wrap32(x + y)
  {
    var k := (x + 0x8000_0000) / 0x1_0000_0000;
    assert Wrap32(x) == x - k * 0x1_0000_0000;
    WrapShift(x + y, k);
  }

  lemma WrapShift(x: int, k: int)
    ensures Wrap32(x - k * 0x1_0000_0000) == Wrap32(x)
  {
  }

  /** The byte count of a new array, in int arithmetic. */
  function ArrayBytes(num: Int4): Int4 {
    Wrap32(ARRAY_HEADER + 4 * num as int)
  }

  predicate Allocated(num: Int4) {
    0 <= ArrayBytes(num) <= MAX_ALLOC
  }

  /** The elements an allocated array has room for. */
  function Room(num: Int4): nat {
    if ArrayBytes(num) < ARRAY_HEADER then 0 else (ArrayBytes(num) - ARRAY_HEADER) / 4
  }

  /** Sized for the wrapped number of elements, the array is refused, has room for all of them,
      or is too small; which one depends on the number as follows. */
  lemma RoomExact(total: nat)
    ensures Allocated(Wrap32(total)) <==> !SizeRefused(total)
    ensures Allocated(Wrap32(total)) ==> (total <= Room(Wrap32(total)) <==> total <= MAX_ELEMENTS)
    ensures total <= MAX_ELEMENTS ==> Allocated(Wrap32(total)) && Room(Wrap32(total)) == total
  {
    var k := (total + 0x8000_0000) / 0x1_0000_0000;
    assert Wrap32(total) == total - k * 0x1_0000_0000;
    var x := ARRAY_HEADER + 4 * total;
    assert ARRAY_HEADER + 4 * Wrap32(total) as int == x - 4 * k * 0x1_0000_0000;
    WrapShift(x, 4 * k);
    assert ArrayBytes(Wrap32(total)) == Wrap32(x);
    var q := x / 0x1_0000_0000;
    assert x == q * 0x1_0000_0000 + x % 0x1_0000_0000;
    WrapShift(x, q);
    assert Wrap32(x) == Wrap32(x % 0x1_0000_0000);
  }

  /** The byte count for so many integers, in the allocator's unsigned reading of an int. */
  predicate SizeRefused(size: int) {
    (ARRAY_HEADER + 4 * size) % 0x1_0000_0000 > MAX_ALLOC
  }

  method NewIntArrayType(num: Int4) returns (ok: bool, r: array<Int4>)
    ensures ok <==> Allocated(num)
    ensures fresh(r) && (ok ==> r.Length == Room(num))
  {
    var nbytes := Wrap32(ARRAY_HEADER + 4 * num as int);
    ok := 0 <= nbytes <= MAX_ALLOC;
    r := new Int4[if ok && nbytes >= ARRAY_HEADER then (nbytes - ARRAY_HEADER) / 4 else 0](_ => 0);
  }

  /** What becomes of so many integers that are written to a new array of their wrapped number. */
  function Stored<T>(total: nat, value: T): Result<T, ArrayError> {
    if SizeRefused(total) then Failure(Refused) else if total > MAX_ELEMENTS then Failure(Overrun) else Success(value)
  }

  /** Two arrays together never wrap. */
  lemma TwoArrays(m: nat, n: nat)
    requires m <= MAX_ELEMENTS && n <= MAX_ELEMENTS
    ensures SizeRefused(m + n) <==> m + n > MAX_ELEMENTS
  {
  }
}
