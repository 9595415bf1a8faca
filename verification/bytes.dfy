/**
 * The in-memory byte buffer `Bytes` (src/lib.rs:11-78): a growable vector of
 * octets and a read cursor. Writing appends to the vector; reading copies the
 * bytes from the cursor onward and advances the cursor.
 */
module ByteBuffer {
  import opened Wrappers

  /** An octet (`u8`). */
  type byte = b: int | 0 <= b < 256

  /**
   * The `std::io::Error` kinds this buffer can give rise to. The only one the
   * in-memory buffer ever produces is the end-of-data error of `read_exact`.
   */
  datatype IoError = UnexpectedEof

  function Min(a: int, b: int): int {
    if a <= b then a else b
  }

  class Bytes {
    var data: seq<byte>
    var current: nat

    /** The cursor never passes the end of the data. */
    ghost predicate Valid()
      reads this
    {
      current <= |data|
    }

    /** The bytes a sequential reader has not consumed yet. */
    function Remaining(): (s: seq<byte>)
      reads this
      requires Valid()
      ensures |s| == |data| - current
    {
      data[current..]
    }

    /** `Bytes::new`: no data, cursor at the start. */
    constructor ()
      ensures Valid() && data == [] && current == 0
    {
      data := [];
      current := 0;
    }

    /** `From<Vec<u8>>` and `From<&[u8]>`: takes the bytes, cursor at the start. */
    constructor FromSeq(value: seq<byte>)
      ensures Valid() && data == value && current == 0
    {
      data := value;
      current := 0;
    }

    /**
     * `Bytes::len`: the number of bytes held, wherever the cursor is: those
     * already read and those still to read.
     */
    function Len(): (n: nat)
      reads this
      ensures Valid() ==> n == current + |Remaining()|
    {
      |data|
    }

    /** `Bytes::reset`: rewinds the cursor and keeps the data. */
    method Reset()
      modifies this
      ensures Valid() && data == old(data) && current == 0
    {
      current := 0;
    }

    /** `Bytes::push`: appends one byte; the cursor does not move. */
    method Push(b: byte)
      requires Valid()
      modifies this
      ensures Valid()
      ensures data == old(data) + [b] && current == old(current)
    {
      data := data + [b];
    }

    /**
     * `Write::write`: appends every byte of `buf`, in order, and reports that
     * all of them were written. It never fails and never moves the cursor.
     */
    method Write(buf: seq<byte>) returns (r: Result<nat, IoError>)
      requires Valid()
      modifies this
      ensures Valid()
      ensures r == Ok(|buf|)
      ensures data == old(data) + buf && current == old(current)
    {
      var i := 0;
      while i < |buf|
        invariant 0 <= i <= |buf|
        invariant data == old(data) + buf[..i] && current == old(current)
      {
        Push(buf[i]);
        i := i + 1;
      }
      return Ok(|buf|);
    }

    /**
     * `Read::read`: copies the bytes from the cursor onward into `buf`, as many
     * as fit and as remain, advances the cursor by that count and returns it.
     * The data and the part of `buf` beyond the count are left alone.
     */
    method Read(buf: array<byte>) returns (r: Result<nat, IoError>)
      requires Valid()
      modifies this, buf
      ensures Valid() && data == old(data)
      ensures r.Ok? && r.value == Min(buf.Length, |data| - old(current))
      ensures current == old(current) + r.value
      ensures buf[..r.value] == data[old(current)..current]
      ensures buf[r.value..] == old(buf[r.value..])
    {
      var i := 0;
      while i < buf.Length
        invariant 0 <= i <= buf.Length
        invariant data == old(data) && current == old(current) + i <= |data|
        invariant buf[..i] == data[old(current)..current]
        invariant buf[i..] == old(buf[i..])
      {
        if current >= |data| {
          return Ok(i);
        }
        buf[i] := data[current];
        current := current + 1;
        i := i + 1;
      }
      return Ok(buf.Length);
    }

    /**
     * `Read::read_exact` on this reader: fills `buf` completely or fails with
     * `UnexpectedEof`. On failure every remaining byte has been consumed.
     */
    method ReadExact(buf: array<byte>) returns (r: Result<(), IoError>)
      requires Valid()
      modifies this, buf
      ensures Valid() && data == old(data)
      ensures r.Ok? <==> buf.Length <= |data| - old(current)
      ensures r.Ok? ==> current == old(current) + buf.Length && buf[..] == data[old(current)..current]
      ensures r.Err? ==> r.error == UnexpectedEof && current == |data|
    {
      var n := Read(buf);
      if n.value < buf.Length {
        // A second `read` would copy nothing: every byte is consumed already.
        return Err(UnexpectedEof);
      }
      assert buf[..] == buf[..n.value];
      return Ok(());
    }
  }
}
