/** The fixed-size log buffer of base/LogStream.h. */
module LogStream {
  import opened Bytes

  /** What `FixedBuffer<size>::append` leaves in a buffer that holds `held`: the line, or nothing of it. */
  function Appended(size: nat, held: seq<byte>, line: seq<byte>): seq<byte> {
    if size - |held| > |line| then held + line else held
  }

  class FixedBuffer {
    const data: array<byte>
    var cur: nat

    ghost predicate Valid()
      reads this
    {
      cur <= data.Length
    }

    ghost function Contents(): seq<byte>
      requires Valid()
      reads this, data
    {
      data[..cur]
    }

    constructor (size: nat)
      ensures Valid() && Contents() == [] && data.Length == size && fresh(data)
    {
      data := new byte[size];
      cur := 0;
    }

    method Append(buf: seq<byte>)
      requires Valid()
      modifies this`cur, data
      ensures Valid() && Contents() == Appended(data.Length, old(Contents()), buf)
    {
      if data.Length - cur > |buf| {
        ghost var held := Contents();
        var i := 0;
        while i < |buf|
          invariant 0 <= i <= |buf| && cur == old(cur)
          invariant data[..cur + i] == held + buf[..i]
        {
          data[cur + i] := buf[i];
          i := i + 1;
        }
        cur := cur + |buf|;
      }
    }

    method Reset()
      requires Valid()
      modifies this`cur
      ensures Valid() && Contents() == []
    {
      cur := 0;
    }
  }
}
