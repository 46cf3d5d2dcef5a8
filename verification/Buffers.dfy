/** Clearing and comparing byte arrays. */
module Buffers {
  import opened Basics
  import opened Bitwise

  ghost predicate ZeroBytes(a: array<byte>)
    reads a
  {
    forall i :: 0 <= i < a.Length ==> a[i] == 0
  }

  /** An array of this length that has been cleared. */
  ghost predicate Cleared(a: array?<byte>, length: nat)
    reads a
  {
    a != null && a.Length == length && ZeroBytes(a)
  }

  method ClearBytes(a: array<byte>)
    modifies a
    ensures ZeroBytes(a)
  {
    for i := 0 to a.Length
      invariant forall j :: 0 <= j < i ==> a[j] == 0
    {
      a[i] := 0;
    }
  }

  method ClearFour(a: array<byte>, b: array<byte>, c: array<byte>, d: array<byte>)
    modifies a, b, c, d
    ensures ZeroBytes(a) && ZeroBytes(b) && ZeroBytes(c) && ZeroBytes(d)
  {
    ClearBytes(a);
    ClearBytes(b);
    ClearBytes(c);
    ClearBytes(d);
  }

  /** A new array with the given contents. */
  method NewBytes(bytes: Bytes) returns (copy: array<byte>)
    ensures fresh(copy) && copy[..] == bytes
  {
    copy := new byte[|bytes|];
    for i := 0 to |bytes|
      invariant forall j :: 0 <= j < i ==> copy[j] == bytes[j]
    {
      copy[i] := bytes[i];
    }
  }

  /** Copies `source` into the array at `offset`. */
  method SetBytes(target: array<byte>, source: Bytes, offset: nat)
    requires offset + |source| <= target.Length
    modifies target
    ensures target[..offset + |source|] == old(target[..offset]) + source
    ensures target[offset + |source|..] == old(target[offset + |source|..])
  {
    for i := 0 to |source|
      invariant target[..offset] == old(target[..offset])
      invariant forall j :: 0 <= j < i ==> target[offset + j] == source[j]
      invariant target[offset + |source|..] == old(target[offset + |source|..])
    {
      target[offset + i] := source[i];
    }
  }

  /** Compares in a time that depends on the lengths alone; equal means the same bytes. */
  method ConstantTimeEquals(left: Bytes, right: Bytes) returns (equal: bool)
    ensures equal <==> left == right
  {
    if |left| != |right| {
      return false;
    }
    var result: byte := 0;
    for index := 0 to |left|
      invariant result == 0 <==> left[..index] == right[..index]
    {
      OrXorByte(result, left[index], right[index]);
      assert left[..index + 1] == left[..index] + [left[index]];
      assert right[..index + 1] == right[..index] + [right[index]];
      result := OrByte(result, XorByte(left[index], right[index]));
    }
    assert left[..|left|] == left && right[..|right|] == right;
    return result == 0;
  }
}
