/**
 * The input side of the decoder: a `MemoryStream` over the compressed bytes
 * read through a `BinaryReader`. Only the reads the decoder uses are modelled:
 * single bytes and little-endian 16- and 32-bit unsigned words. A read past the
 * end fails (the source's `EndOfStreamException`) and leaves the stream
 * exhausted.
 */
module Reader {
  import opened Bits

  /** A value, or the error that stopped its computation; `:-` passes a failure on to the caller. */
  datatype Result<T, E> = Success(value: T) | Failure(error: E) {
    predicate IsFailure() {
      Failure?
    }

    function PropagateFailure<U>(): Result<U, E>
      requires Failure?
    {
      Failure(error)
    }

    function Extract(): T
      requires Success?
    {
      value
    }
  }

  /** The one way a read fails: fewer bytes are left than it needs. */
  datatype StreamError = EndOfStream

  class BinaryReader {
    const data: seq<byte>
    var pos: nat

    ghost predicate Valid()
      reads this
    {
      pos <= |data|
    }

    /** `new BinaryReader(new MemoryStream(data))`: positioned at the first byte. */
    constructor (data: seq<byte>)
      ensures Valid() && this.data == data && pos == 0
    {
      this.data := data;
      pos := 0;
    }

    /** The bytes not read yet. */
    function Rest(): (rest: seq<byte>)
      reads this
      requires Valid()
    {
      data[pos..]
    }

    method ReadByte() returns (r: Result<byte, StreamError>)
      requires Valid()
      modifies this
      ensures Valid()
      ensures old(pos) < |data| ==> r == Success(data[old(pos)]) && pos == old(pos) + 1
      ensures old(pos) >= |data| ==> r == Failure(EndOfStream) && pos == |data|
    {
      if pos < |data| {
        r := Success(data[pos]);
        pos := pos + 1;
      } else {
        r := Failure(EndOfStream);
      }
    }

    method ReadUInt16() returns (r: Result<u16, StreamError>)
      requires Valid()
      modifies this
      ensures Valid()
      ensures old(pos) + 2 <= |data| ==>
                r == Success(U16At(data, old(pos))) && pos == old(pos) + 2
      ensures old(pos) + 2 > |data| ==> r == Failure(EndOfStream) && pos == |data|
    {
      if pos + 2 <= |data| {
        r := Success(U16At(data, pos));
        pos := pos + 2;
      } else {
        r := Failure(EndOfStream);
        pos := |data|;
      }
    }

    method ReadUInt32() returns (r: Result<u32, StreamError>)
      requires Valid()
      modifies this
      ensures Valid()
      ensures old(pos) + 4 <= |data| ==>
                r == Success(U32At(data, old(pos))) && pos == old(pos) + 4
      ensures old(pos) + 4 > |data| ==> r == Failure(EndOfStream) && pos == |data|
    {
      if pos + 4 <= |data| {
        r := Success(U32At(data, pos));
        pos := pos + 4;
      } else {
        r := Failure(EndOfStream);
        pos := |data|;
      }
    }
  }
}
