/**
 * Format codes, fixed widths and the AmqpEncoding helpers the symbol codec
 * calls, each with the behaviour the codec relies on (AMQP 1.0, Part 1,
 * sections 1.6.1 and 1.6.21).
 */
module AmqpEncoding {
  import opened Wrappers
  import opened Bytes
  import opened ByteBuffers

  /** A one-byte format code; 0 means "not read yet". */
  type FormatCode = byte

  const NullCode: FormatCode := 0x40
  const Symbol8: FormatCode := 0xa3
  const Symbol32: FormatCode := 0xb3

  /** FixedWidth constants: the width of a null's payload, of a format code, of a whole null, of a ubyte and of a uint. */
  const NullWidth: nat := 0
  const FormatCodeWidth: nat := 1
  const NullEncoded: nat := FormatCodeWidth + NullWidth
  const UByteWidth: nat := 1
  const UIntWidth: nat := 4

  /** The width of the length prefix for `size` content bytes: a ubyte up to 255, a uint beyond. */
  function GetEncodeWidthBySize(size: nat): (w: nat)
    ensures w == UByteWidth <==> size <= 0xff
    ensures w == UByteWidth || w == UIntWidth
  {
    if size <= 0xff then UByteWidth else UIntWidth
  }

  /** The width of the count under `code`: a ubyte under the short code `code8`, a uint otherwise. */
  function CountWidth(code: FormatCode, code8: FormatCode): (w: nat)
    ensures w == UByteWidth <==> code == code8
    ensures w == UByteWidth || w == UIntWidth
  {
    if code == code8 then UByteWidth else UIntWidth
  }

  /** A count read from the bytes and the offset just past it. */
  datatype Count = Count(count: nat, next: nat)

  /**
   * What ReadCount takes from `bytes` at `offset`: a ubyte under the short
   * code, a big-endian uint under the long code, and an invalid-format-code
   * failure under any other code.
   */
  function CountAt(bytes: seq<byte>, offset: nat, code: FormatCode, code8: FormatCode, code32: FormatCode): (r: Result<Count, Error>)
    requires offset <= |bytes|
    ensures r == Err(InvalidFormatCode) <==> code != code8 && code != code32
    ensures r.Ok? ==> r.value.next == offset + CountWidth(code, code8) <= |bytes|
    ensures r.Ok? && code == code8 ==> r.value.count < 0x100
  {
    if code == code8 then
      if offset + 1 <= |bytes| then Ok(Count(bytes[offset], offset + 1)) else Err(BufferUnderrun)
    else if code == code32 then
      if offset + 4 <= |bytes| then Ok(Count(UIntAt(bytes, offset), offset + 4)) else Err(BufferUnderrun)
    else
      Err(InvalidFormatCode)
  }

  /** ReadFormatCode: consumes one byte, the format code. */
  method ReadFormatCode(buffer: ByteBuffer) returns (r: Result<FormatCode, Error>)
    requires buffer.Valid()
    modifies buffer`offset
    ensures buffer.Valid()
    ensures old(buffer.offset) < |buffer.bytes| ==>
      r == Ok(buffer.bytes[old(buffer.offset)]) && buffer.offset == old(buffer.offset) + 1
    ensures old(buffer.offset) == |buffer.bytes| ==> r == Err(BufferUnderrun)
  {
    r := buffer.ReadUByte();
  }

  /** ReadCount: reads the count `CountAt` describes and moves the cursor past it. */
  method ReadCount(buffer: ByteBuffer, code: FormatCode, code8: FormatCode, code32: FormatCode) returns (r: Result<nat, Error>)
    requires buffer.Valid()
    modifies buffer`offset
    ensures buffer.Valid()
    ensures match CountAt(buffer.bytes, old(buffer.offset), code, code8, code32)
      case Ok(c) => r == Ok(c.count) && buffer.offset == c.next
      case Err(e) => r == Err(e)
  {
    if code == code8 {
      r := buffer.ReadUByte();
    } else if code == code32 {
      r := buffer.ReadUInt();
    } else {
      r := Err(InvalidFormatCode);
    }
  }

  /** EncodeNull: writes the null format code alone. */
  method EncodeNull(buffer: ByteBuffer)
    requires buffer.Valid()
    modifies buffer`bytes
    ensures buffer.Valid()
    ensures buffer.bytes == old(buffer.bytes) + [NullCode]
  {
    buffer.WriteUByte(NullCode);
  }
}
