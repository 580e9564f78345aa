/**
 * The part of ByteBuffer and AmqpBitConverter the symbol codec uses: writes
 * append to the written bytes, reads consume from the read cursor, and a read
 * past the written bytes fails with a buffer underrun.
 */
module ByteBuffers {
  import opened Wrappers
  import opened Bytes

  /** The exceptions the codec lets through to its caller. */
  datatype Error = BufferUnderrun | InvalidFormatCode

  class ByteBuffer {
    /** Every byte written so far. */
    var bytes: seq<byte>
    /** Read cursor: where the next read starts. */
    var offset: nat

    ghost predicate Valid()
      reads this
    {
      offset <= |bytes|
    }

    constructor (init: seq<byte>)
      ensures Valid()
      ensures bytes == init && offset == 0
    {
      bytes := init;
      offset := 0;
    }

    /** How many written bytes are still unread. */
    function Length(): (n: nat)
      reads this
      requires Valid()
      ensures offset + n == |bytes|
    {
      |bytes| - offset
    }

    method WriteUByte(b: byte)
      requires Valid()
      modifies this`bytes
      ensures Valid()
      ensures bytes == old(bytes) + [b]
    {
      bytes := bytes + [b];
    }

    /** Writes `n` as four bytes, most significant first. */
    method WriteUInt(n: nat)
      requires n < UInt32Limit
      requires Valid()
      modifies this`bytes
      ensures Valid()
      ensures bytes == old(bytes) + UIntBytes(n)
    {
      bytes := bytes + UIntBytes(n);
    }

    method WriteBytes(data: array<byte>, start: nat, count: nat)
      requires start + count <= data.Length
      requires Valid()
      modifies this`bytes
      ensures Valid()
      ensures bytes == old(bytes) + data[start..start + count]
    {
      bytes := bytes + data[start..start + count];
    }

    method ReadUByte() returns (r: Result<byte, Error>)
      requires Valid()
      modifies this`offset
      ensures Valid()
      ensures old(offset) < |bytes| ==> r == Ok(bytes[old(offset)]) && offset == old(offset) + 1
      ensures old(offset) == |bytes| ==> r == Err(BufferUnderrun) && offset == old(offset)
    {
      if offset < |bytes| {
        r := Ok(bytes[offset]);
        offset := offset + 1;
      } else {
        r := Err(BufferUnderrun);
      }
    }

    method ReadUInt() returns (r: Result<nat, Error>)
      requires Valid()
      modifies this`offset
      ensures Valid()
      ensures old(offset) + 4 <= |bytes| ==>
        r == Ok(UIntAt(bytes, old(offset))) && offset == old(offset) + 4
      ensures old(offset) + 4 > |bytes| ==> r == Err(BufferUnderrun) && offset == old(offset)
    {
      if offset + 4 <= |bytes| {
        r := Ok(UIntAt(bytes, offset));
        offset := offset + 4;
      } else {
        r := Err(BufferUnderrun);
      }
    }

    /** Marks `n` more bytes as read. */
    method Complete(n: nat) returns (r: Result<(), Error>)
      requires Valid()
      modifies this`offset
      ensures Valid()
      ensures n <= old(Length()) ==> r == Ok(()) && offset == old(offset) + n
      ensures n > old(Length()) ==> r == Err(BufferUnderrun) && offset == old(offset)
    {
      if n <= Length() {
        offset := offset + n;
        r := Ok(());
      } else {
        r := Err(BufferUnderrun);
      }
    }
  }
}
