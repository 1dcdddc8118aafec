/** The reading side of Go's `bytes.Buffer`, as far as the decoder uses it: a byte
    slice `buf` of which the prefix `buf[..off]` has already been read. */
module ByteBuffer {
  import opened Numerics

  function Min(a: int, b: int): int {
    if a < b then a else b
  }

  class Buffer {
    var buf: seq<byte>
    var off: nat

    ghost predicate Valid()
      reads this
    {
      off <= |buf|
    }

    /** `Bytes()`: the unread portion. */
    function Bytes(): seq<byte>
      reads this
      requires Valid()
    {
      buf[off..]
    }

    /** `Len()`: the number of unread bytes. */
    function Len(): (n: nat)
      reads this
      requires Valid()
      ensures n == |Bytes()|
    {
      |buf| - off
    }

    /** A zero `bytes.Buffer` followed by `Write(data)`. */
    constructor (data: seq<byte>)
      ensures Valid() && Bytes() == data
    {
      buf, off := data, 0;
    }

    /** `ReadByte()`: on an empty buffer it resets the buffer and reports EOF. */
    method ReadByte() returns (b: byte, ok: bool)
      requires Valid()
      modifies this
      ensures Valid()
      ensures ok == (old(Bytes()) != [])
      ensures ok ==> b == old(Bytes())[0] && Bytes() == old(Bytes())[1..]
      ensures !ok ==> Bytes() == []
    {
      if off == |buf| {
        buf, off := [], 0;
        return 0, false;
      }
      b := buf[off];
      off := off + 1;
      ok := true;
    }

    /** `Next(n)` for a non-negative `n`: the next `min(n, Len())` bytes. */
    method Next(n: nat) returns (data: seq<byte>)
      requires Valid()
      modifies this
      ensures Valid()
      ensures data == old(Bytes())[..Min(n, old(Len()))]
      ensures Bytes() == old(Bytes())[Min(n, old(Len()))..]
    {
      var m := Min(n, |buf| - off);
      data := buf[off..off + m];
      off := off + m;
    }
  }
}
