/** The reader's mutable position over a fixed buffer, and the writer's growing one. */
module Cursors {
  import opened Wire

  class Cursor {
    const buf: Bytes
    var pos: nat

    ghost predicate Valid()
      reads this
    {
      pos <= |buf|
    }

    /** The outcome and the new position are the ones the decoding function gives. */
    ghost predicate Follows<T>(r: Result<T>, spec: Parsed<T>)
      reads this
    {
      && Valid()
      && match spec
         case Ok(v, end) => r == Success(v) && pos == end
         case Err(e) => r == Failure(e)
    }

    constructor (buf: Bytes)
      ensures Valid() && this.buf == buf && pos == 0
    {
      this.buf := buf;
      this.pos := 0;
    }

    /** The constructor with a position. */
    static method Open(buf: Bytes, pos: int) returns (r: Result<Cursor>)
      ensures r.Success? <==> 0 <= pos <= |buf|
      ensures r.Success? ==> fresh(r.value) && r.value.Valid() && r.value.buf == buf && r.value.pos == pos
      ensures r.Failure? ==> r.error == Truncated
    {
      if pos < 0 || pos > |buf| {
        return Failure(Truncated);
      }
      var c := new Cursor(buf);
      c.pos := pos;
      return Success(c);
    }

    function RemainingLen(): int
      reads this
    {
      |buf| - pos
    }

    method Read(n: int) returns (r: Result<Bytes>)
      requires Valid()
      modifies this
      ensures Follows(r, Wire.Read(buf, old(pos), n))
      ensures r.Failure? ==> pos == old(pos)
    {
      if n < 0 {
        return Failure(Corrupt);
      }
      var end := pos + n;
      if end > |buf| {
        return Failure(Truncated);
      }
      var chunk := buf[pos..end];
      pos := end;
      return Success(chunk);
    }

    method ReadU8() returns (r: Result<int>)
      requires Valid()
      modifies this
      ensures Follows(r, ReadInt(buf, old(pos), 1))
    {
      var b :- Read(1);
      assert b[1..] == [];
      return Success(b[0]);
    }

    method ReadU16Le() returns (r: Result<int>)
      requires Valid()
      modifies this
      ensures Follows(r, ReadInt(buf, old(pos), 2))
    {
      var b :- Read(2);
      return Success(FromLe(b));
    }

    method ReadU32Le() returns (r: Result<int>)
      requires Valid()
      modifies this
      ensures Follows(r, ReadInt(buf, old(pos), 4))
    {
      var b :- Read(4);
      return Success(FromLe(b));
    }

    method ReadU64Le() returns (r: Result<int>)
      requires Valid()
      modifies this
      ensures Follows(r, ReadInt(buf, old(pos), 8))
    {
      var b :- Read(8);
      return Success(FromLe(b));
    }
  }

  /** The `bytearray` the encoders append to. */
  class Buffer {
    var data: Bytes

    constructor ()
      ensures data == []
    {
      data := [];
    }

    method Extend(b: Bytes)
      modifies this
      ensures data == old(data) + b
    {
      data := data + b;
    }

    /** `out += pack("<..", n)`: refuses what the format's integer cannot hold. */
    method Pack(n: int, width: nat) returns (ok: bool)
      modifies this
      ensures ok <==> Fits(n, width)
      ensures data == if ok then old(data) + Le(n, width) else old(data)
    {
      ok := Fits(n, width);
      if ok {
        data := data + Le(n, width);
      }
    }
  }
}
