/** The growable byte vector both directions write to. */
module Vectors {
  import opened Bits

  class UcVector {
    var data: array<Byte>
    var size: nat

    ghost predicate Valid()
      reads this
    {
      size <= data.Length
    }

    ghost function Contents(): (r: seq<Byte>)
      requires Valid()
      reads this, data
      ensures |r| == size
    {
      data[..size]
    }

    constructor (buffer: seq<Byte>)
      ensures Valid() && fresh(data) && Contents() == buffer
    {
      data := new Byte[|buffer|](i requires 0 <= i < |buffer| => buffer[i]);
      size := |buffer|;
    }

    /** Makes room for n bytes; the used ones stay as they are. */
    method Reserve(n: nat)
      requires Valid()
      modifies this`data
      ensures Valid() && Contents() == old(Contents()) && data.Length >= n
      ensures data == old(data) || fresh(data)
    {
      if n > data.Length {
        var newsize := n + data.Length / 2;
        var bigger := new Byte[newsize];
        for i := 0 to size
          invariant data == old(data) && size <= data.Length && Contents() == old(Contents())
          invariant bigger[..i] == data[..i]
        {
          bigger[i] := data[i];
        }
        data := bigger;
      }
    }

    /** Sets the used size, reserving room first; bytes that stay in use keep their values. */
    method Resize(n: nat)
      requires Valid()
      modifies this
      ensures Valid() && size == n && forall k :: 0 <= k < n && k < old(size) ==> Contents()[k] == old(Contents())[k]
      ensures old(size) <= n ==> Contents()[..old(size)] == old(Contents())
      ensures data == old(data) || fresh(data)
    {
      Reserve(n);
      ghost var before := data[..size];
      size := n;
      if |before| <= n { assert data[..n][..|before|] == before; }
    }

    method PushBack(c: Byte)
      requires Valid() && size < data.Length
      modifies this`size, data
      ensures Valid() && Contents() == old(Contents()) + [c]
    {
      data[size] := c;
      size := size + 1;
    }

    /** Appends a byte, growing the vector when it is full. */
    method Append(c: Byte)
      requires Valid()
      modifies this, data
      ensures Valid() && Contents() == old(Contents()) + [c]
      ensures data == old(data) || fresh(data)
    {
      Resize(size + 1);
      data[size - 1] := c;
      assert Contents()[..size - 1] == old(Contents());
    }

    method SetLast(c: Byte)
      requires Valid() && size > 0
      modifies data
      ensures Contents() == old(Contents())[size - 1 := c]
    {
      data[size - 1] := c;
    }

    /** memcpy of n bytes of src to the end of the used part. */
    method CopyToEnd(src: seq<Byte>, n: nat)
      requires Valid() && n == |src| && n <= size
      modifies data
      ensures Contents() == old(Contents())[..size - n] + src
    {
      var start := size - n;
      for i := 0 to n
        invariant data[..start] == old(data[..start])
        invariant data[start..start + i] == src[..i]
      {
        data[start + i] := src[i];
      }
      assert Contents() == data[..start] + data[start..start + n];
    }
  }
}
