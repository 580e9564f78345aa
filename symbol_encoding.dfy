/**
 * The AMQP 1.0 symbol codec (Part 1, section 1.6.21): sizes, scalar encode
 * and decode, and the array forms in which every element carries a four-byte
 * length and no format code of its own.
 *
 * Each buffer operation is a method proved against a function on byte
 * sequences (Encoded, DecodeAt, ArrayEncoded, DecodeArrayAt); the lemmas at
 * the end relate those functions to each other.
 */
module SymbolEncoding {
  import opened Wrappers
  import opened Bytes
  import opened Ascii
  import opened ByteBuffers
  import opened AmqpEncoding

  /** A symbol: null, or a string of ASCII characters. Null and "" are different symbols. */
  datatype AmqpSymbol = AmqpSymbol(value: Option<string>)

  /** One more than the largest value of a .NET int. */
  const IntLimit: nat := 0x8000_0000

  /** The format code the codec registers itself under, and so the element code of its arrays. */
  const ArrayFormatCode: FormatCode := Symbol32

  /** A symbol Encode accepts: null, or ASCII text whose length fits an int. */
  predicate Encodable(v: AmqpSymbol) {
    match v.value
    case None => true
    case Some(s) => IsAscii(s) && |s| < IntLimit
  }

  /** A symbol the array operations accept: not null, and otherwise encodable. */
  predicate ArrayElement(v: AmqpSymbol) {
    v.value.Some? && Encodable(v)
  }

  predicate AllArrayElements(list: seq<AmqpSymbol>) {
    forall i :: 0 <= i < |list| ==> ArrayElement(list[i])
  }

  // ---------------------------------------------------------------------
  // Sizes

  /** GetValueSize: the number of content bytes, or FixedWidth.Null for the null symbol. */
  function GetValueSize(v: AmqpSymbol): (n: nat)
    requires Encodable(v)
    ensures v.value.Some? ==> n == |v.value.value|
    ensures v.value.None? ==> n == NullWidth
  {
    match v.value
    case None => NullWidth
    case Some(s) => |GetBytes(s)|
  }

  /** GetEncodeSize: format code, length prefix and content; a lone format code for null. */
  function GetEncodeSize(v: AmqpSymbol): (n: nat)
    requires Encodable(v)
    ensures v.value.None? ==> n == 1
    ensures v.value.Some? ==> n == 1 + (if |v.value.value| <= 0xff then 1 else 4) + |v.value.value|
  {
    if v.value.None? then NullEncoded
    else FormatCodeWidth + GetEncodeWidthBySize(GetValueSize(v)) + GetValueSize(v)
  }

  /** GetObjectEncodeSize: in array mode a four-byte length and the content, else GetEncodeSize. */
  function GetObjectEncodeSize(v: AmqpSymbol, arrayEncoding: bool): (n: nat)
    requires if arrayEncoding then ArrayElement(v) else Encodable(v)
    ensures arrayEncoding ==> n == 4 + |v.value.value|
    ensures !arrayEncoding ==> n == GetEncodeSize(v)
  {
    if arrayEncoding then UIntWidth + |GetBytes(v.value.value)| else GetEncodeSize(v)
  }

  /** The content lengths of the elements, added up: the array size the code reports. */
  function ArraySize(list: seq<AmqpSymbol>): (n: nat)
    requires AllArrayElements(list)
    ensures forall i :: 0 <= i < |list| ==> |GetBytes(list[i].value.value)| <= n
  {
    if list == [] then 0
    else ArraySize(list[..|list| - 1]) + |GetBytes(list[|list| - 1].value.value)|
  }

  // ---------------------------------------------------------------------
  // Wire images

  /**
   * What the private Encode helpers write for `data` and `width`: a one-byte
   * length (the int cast to byte) when the width is one, a four-byte length
   * otherwise, then the data.
   */
  function LengthPrefixed(data: seq<byte>, width: nat): (r: seq<byte>)
    requires |data| < IntLimit
    ensures |r| == (if width == UByteWidth then UByteWidth else UIntWidth) + |data|
    ensures r[|r| - |data|..] == data
  {
    (if width == UByteWidth then [|data| % 0x100] else UIntBytes(|data|)) + data
  }

  /** The bytes Encode writes for `v`. */
  function Encoded(v: AmqpSymbol): (r: seq<byte>)
    requires Encodable(v)
    ensures |r| == GetEncodeSize(v)
  {
    match v.value
    case None => [NullCode]
    case Some(s) =>
      var data := GetBytes(s);
      var width := GetEncodeWidthBySize(|data|);
      [if width == UByteWidth then Symbol8 else Symbol32] + LengthPrefixed(data, width)
  }

  /** The bytes EncodeObject writes: in array mode a four-byte length and the content, else Encoded. */
  function ObjectEncoded(v: AmqpSymbol, arrayEncoding: bool): (r: seq<byte>)
    requires if arrayEncoding then ArrayElement(v) else Encodable(v)
    ensures |r| == GetObjectEncodeSize(v, arrayEncoding)
  {
    if arrayEncoding then LengthPrefixed(GetBytes(v.value.value), UIntWidth) else Encoded(v)
  }

  /** The bytes EncodeArray writes: each element in array mode, in order. */
  function ArrayEncoded(list: seq<AmqpSymbol>): (r: seq<byte>)
    requires AllArrayElements(list)
    ensures |r| == ArraySize(list) + 4 * |list|
  {
    if list == [] then []
    else ArrayEncoded(list[..|list| - 1]) + ObjectEncoded(list[|list| - 1], true)
  }

  // ---------------------------------------------------------------------
  // Decoding on byte sequences

  /** A decoded symbol and the offset just past the bytes it took. */
  datatype Decoded = Decoded(symbol: AmqpSymbol, next: nat)

  /** A decoded array and the offset just past the bytes it took. */
  datatype DecodedArray = DecodedArray(symbols: seq<AmqpSymbol>, next: nat)

  /** A count under the code, then that many bytes of content; no format code and no null check. */
  function DecodeBody(bytes: seq<byte>, offset: nat, code: FormatCode): (r: Result<Decoded, Error>)
    requires offset <= |bytes|
    ensures r == Err(InvalidFormatCode) <==> code != Symbol8 && code != Symbol32
    ensures r.Ok? ==>
      r.value.symbol.value.Some?
      && r.value.next == offset + CountWidth(code, Symbol8) + |r.value.symbol.value.value| <= |bytes|
  {
    match CountAt(bytes, offset, code, Symbol8, Symbol32)
    case Err(e) => Err(e)
    case Ok(c) =>
      if c.count > |bytes| - c.next then Err(BufferUnderrun)
      else Ok(Decoded(AmqpSymbol(Some(GetString(bytes, c.next, c.count))), c.next + c.count))
  }

  /**
   * What Decode does at `offset`: with code 0 it first reads the format code
   * and returns null for the null code; then it decodes the body under the
   * code it has.
   */
  function DecodeAt(bytes: seq<byte>, offset: nat, formatCode: FormatCode): (r: Result<Decoded, Error>)
    requires offset <= |bytes|
    ensures r.Ok? ==> offset < r.value.next <= |bytes|
    ensures r.Ok? && formatCode != 0 ==> r.value.symbol.value.Some?
    ensures r.Ok? && r.value.symbol.value.Some? ==> IsAscii(r.value.symbol.value.value)
  {
    if formatCode == 0 then
      if offset == |bytes| then Err(BufferUnderrun)
      else if bytes[offset] == NullCode then Ok(Decoded(AmqpSymbol(None), offset + 1))
      else DecodeBody(bytes, offset + 1, bytes[offset])
    else DecodeBody(bytes, offset, formatCode)
  }

  /** What DecodeArray does: `count` scalar decodes under one code, each where the previous stopped. */
  function DecodeArrayAt(bytes: seq<byte>, offset: nat, count: nat, formatCode: FormatCode): (r: Result<DecodedArray, Error>)
    requires offset <= |bytes|
    ensures r.Ok? ==> |r.value.symbols| == count && offset <= r.value.next <= |bytes|
  {
    if count == 0 then Ok(DecodedArray([], offset))
    else
      match DecodeArrayAt(bytes, offset, count - 1, formatCode)
      case Err(e) => Err(e)
      case Ok(d) =>
        match DecodeAt(bytes, d.next, formatCode)
        case Err(e) => Err(e)
        case Ok(x) => Ok(DecodedArray(d.symbols + [x.symbol], x.next))
  }

  // ---------------------------------------------------------------------
  // Operations on a ByteBuffer

  /** Encode(AmqpSymbol, ByteBuffer): appends the symbol's wire image. */
  method Encode(value: AmqpSymbol, buffer: ByteBuffer)
    requires Encodable(value)
    requires buffer.Valid()
    modifies buffer`bytes
    ensures buffer.Valid()
    ensures buffer.bytes == old(buffer.bytes) + Encoded(value)
  {
    if value.value.None? {
      EncodeNull(buffer);
    } else {
      var bytes := GetBytes(value.value.value);
      var encodedData := ToArray(bytes);
      var encodeWidth := GetEncodeWidthBySize(encodedData.Length);
      var code := if encodeWidth == UByteWidth then Symbol8 else Symbol32;
      buffer.WriteUByte(code);
      WriteLengthPrefixed(encodedData, encodeWidth, buffer);
      assert Encoded(value) == [code] + LengthPrefixed(bytes, encodeWidth);
      assert buffer.bytes == old(buffer.bytes) + [code] + LengthPrefixed(bytes, encodeWidth);
    }
  }

  /** A fresh array holding `bytes`, as Encoding.ASCII.GetBytes returns its result. */
  method ToArray(bytes: seq<byte>) returns (a: array<byte>)
    ensures fresh(a) && a[..] == bytes
  {
    a := new byte[|bytes|](i requires 0 <= i < |bytes| => bytes[i]);
  }

  /** Encode(byte[], int, ByteBuffer): the whole array with its length prefix. */
  method WriteLengthPrefixed(encodedData: array<byte>, width: nat, buffer: ByteBuffer)
    requires encodedData.Length < IntLimit
    requires buffer.Valid()
    modifies buffer`bytes
    ensures buffer.Valid()
    ensures buffer.bytes == old(buffer.bytes) + LengthPrefixed(encodedData[..], width)
  {
    WriteLengthPrefixedRange(encodedData, encodedData.Length, width, buffer);
  }

  /** Encode(byte[], int, int, ByteBuffer): the first `encodedDataLength` bytes with their length prefix. */
  method WriteLengthPrefixedRange(encodedData: array<byte>, encodedDataLength: nat, width: nat, buffer: ByteBuffer)
    requires encodedDataLength <= encodedData.Length
    requires encodedDataLength < IntLimit
    requires buffer.Valid()
    modifies buffer`bytes
    ensures buffer.Valid()
    ensures buffer.bytes == old(buffer.bytes) + LengthPrefixed(encodedData[..encodedDataLength], width)
  {
    if width == UByteWidth {
      buffer.WriteUByte(encodedDataLength % 0x100);
    } else {
      buffer.WriteUInt(encodedDataLength);
    }
    buffer.WriteBytes(encodedData, 0, encodedDataLength);
  }

  /** Decode(ByteBuffer, FormatCode): the symbol at the read cursor; the cursor moves past it. */
  method Decode(buffer: ByteBuffer, formatCode: FormatCode) returns (r: Result<AmqpSymbol, Error>)
    requires buffer.Valid()
    modifies buffer`offset
    ensures buffer.Valid()
    ensures match DecodeAt(buffer.bytes, old(buffer.offset), formatCode)
      case Ok(d) => r == Ok(d.symbol) && buffer.offset == d.next
      case Err(e) => r == Err(e)
  {
    var code := formatCode;
    if code == 0 {
      var read := ReadFormatCode(buffer);
      if read.Err? {
        return Err(read.error);
      }
      code := read.value;
      if code == NullCode {
        return Ok(AmqpSymbol(None));
      }
    }
    var count := ReadCount(buffer, code, Symbol8, Symbol32);
    if count.Err? {
      return Err(count.error);
    }
    var start := buffer.offset;
    var done := buffer.Complete(count.value);
    if done.Err? {
      return Err(done.error);
    }
    r := Ok(AmqpSymbol(Some(GetString(buffer.bytes, start, count.value))));
  }

  /** EncodeObject: the array-mode element form, or the scalar form. */
  method EncodeObject(value: AmqpSymbol, arrayEncoding: bool, buffer: ByteBuffer)
    requires if arrayEncoding then ArrayElement(value) else Encodable(value)
    requires buffer.Valid()
    modifies buffer`bytes
    ensures buffer.Valid()
    ensures buffer.bytes == old(buffer.bytes) + ObjectEncoded(value, arrayEncoding)
  {
    if arrayEncoding {
      var bytes := GetBytes(value.value.value);
      var encodedData := ToArray(bytes);
      WriteLengthPrefixed(encodedData, UIntWidth, buffer);
    } else {
      Encode(value, buffer);
    }
  }

  /** DecodeObject: Decode. */
  method DecodeObject(buffer: ByteBuffer, formatCode: FormatCode) returns (r: Result<AmqpSymbol, Error>)
    requires buffer.Valid()
    modifies buffer`offset
    ensures buffer.Valid()
    ensures match DecodeAt(buffer.bytes, old(buffer.offset), formatCode)
      case Ok(d) => r == Ok(d.symbol) && buffer.offset == d.next
      case Err(e) => r == Err(e)
  {
    r := Decode(buffer, formatCode);
  }

  /** GetArrayEncodeSize: adds up the content lengths of the elements. */
  method GetArrayEncodeSize(list: seq<AmqpSymbol>) returns (size: nat)
    requires AllArrayElements(list)
    ensures size == ArraySize(list)
  {
    size := 0;
    for i := 0 to |list|
      invariant size == ArraySize(list[..i])
    {
      assert list[..i + 1][..i] == list[..i];
      size := size + |GetBytes(list[i].value.value)|;
    }
    assert list[..|list|] == list;
  }

  /**
   * EncodeArray: each element's four-byte length and content, through one
   * scratch array that is replaced only when an element does not fit.
   */
  method EncodeArray(list: seq<AmqpSymbol>, buffer: ByteBuffer)
    requires AllArrayElements(list)
    requires buffer.Valid()
    modifies buffer`bytes
    ensures buffer.Valid()
    ensures buffer.bytes == old(buffer.bytes) + ArrayEncoded(list)
  {
    var tempBuffer: array?<byte> := null;
    for i := 0 to |list|
      invariant buffer.Valid()
      invariant buffer.bytes == old(buffer.bytes) + ArrayEncoded(list[..i])
      invariant tempBuffer != null ==> fresh(tempBuffer)
    {
      var s := list[i].value.value;
      var byteCount := |GetBytes(s)|;
      if tempBuffer == null || tempBuffer.Length < byteCount {
        tempBuffer := new byte[byteCount];
      }
      var encodedByteCount := GetBytesInto(s, tempBuffer);
      WriteLengthPrefixedRange(tempBuffer, encodedByteCount, UIntWidth, buffer);
      ArrayEncodedStep(old(buffer.bytes), list, i);
    }
    assert list[..|list|] == list;
  }

  /** DecodeArray: `count` symbols decoded one after another under the shared format code. */
  method DecodeArray(buffer: ByteBuffer, count: nat, formatCode: FormatCode) returns (r: Result<array<AmqpSymbol>, Error>)
    requires buffer.Valid()
    modifies buffer`offset
    ensures buffer.Valid()
    ensures match DecodeArrayAt(buffer.bytes, old(buffer.offset), count, formatCode)
      case Ok(d) => r.Ok? && fresh(r.value) && r.value[..] == d.symbols && buffer.offset == d.next
      case Err(e) => r == Err(e)
  {
    var symbolArray := new AmqpSymbol[count](_ => AmqpSymbol(None));
    for i := 0 to count
      invariant buffer.Valid()
      invariant DecodeArrayAt(buffer.bytes, old(buffer.offset), i, formatCode).Ok?
      invariant symbolArray[..i] == DecodeArrayAt(buffer.bytes, old(buffer.offset), i, formatCode).value.symbols
      invariant buffer.offset == DecodeArrayAt(buffer.bytes, old(buffer.offset), i, formatCode).value.next
    {
      var item := Decode(buffer, formatCode);
      if item.Err? {
        DecodeArrayErrPersists(buffer.bytes, old(buffer.offset), i + 1, count, formatCode);
        return Err(item.error);
      }
      symbolArray[i] := item.value;
      assert symbolArray[..i + 1] == symbolArray[..i] + [item.value];
    }
    assert symbolArray[..count] == symbolArray[..];
    r := Ok(symbolArray);
  }

  // ---------------------------------------------------------------------
  // Properties

  /** Encoding one more element appends its four-byte length and its content. */
  lemma ArrayEncodedStep(written: seq<byte>, list: seq<AmqpSymbol>, i: nat)
    requires AllArrayElements(list)
    requires i < |list|
    ensures written + ArrayEncoded(list[..i + 1])
         == written + ArrayEncoded(list[..i]) + LengthPrefixed(GetBytes(list[i].value.value), UIntWidth)
  {
    assert list[..i + 1][..i] == list[..i];
  }

  /** A failure after `n` elements is the failure of any longer array decode too. */
  lemma {:induction false} DecodeArrayErrPersists(bytes: seq<byte>, offset: nat, n: nat, m: nat, formatCode: FormatCode)
    requires offset <= |bytes|
    requires n <= m
    requires DecodeArrayAt(bytes, offset, n, formatCode).Err?
    ensures DecodeArrayAt(bytes, offset, m, formatCode) == DecodeArrayAt(bytes, offset, n, formatCode)
    decreases m - n
  {
    if n < m {
      DecodeArrayErrPersists(bytes, offset, n, m - 1, formatCode);
    }
  }

  /**
   * A length prefix of width `width` followed by the content decodes, under
   * the matching code, to the content, and stops right after it.
   */
  lemma LengthPrefixedRoundTrip(bytes: seq<byte>, offset: nat, s: string, width: nat)
    requires IsAscii(s) && |s| < IntLimit
    requires width == UByteWidth || width == UIntWidth
    requires width == UByteWidth ==> |s| <= 0xff
    requires HoldsAt(bytes, offset, LengthPrefixed(GetBytes(s), width))
    ensures DecodeBody(bytes, offset, if width == UByteWidth then Symbol8 else Symbol32)
         == Ok(Decoded(AmqpSymbol(Some(s)), offset + width + |s|))
  {
    var data := GetBytes(s);
    var prefix := if width == UByteWidth then [|data| % 0x100] else UIntBytes(|data|);
    HoldsAtSplit(bytes, offset, prefix, data);
    if width == UByteWidth {
      assert bytes[offset + 0] == prefix[0];
    } else {
      UIntAtUIntBytes(bytes, offset, |s|);
    }
    GetStringOfGetBytes(bytes, offset + width, s);
  }

  /** Scalar round trip: decoding Encode's bytes with no code read yet gives the symbol back and stops right after it. */
  lemma DecodeEncoded(bytes: seq<byte>, offset: nat, v: AmqpSymbol)
    requires Encodable(v)
    requires HoldsAt(bytes, offset, Encoded(v))
    ensures DecodeAt(bytes, offset, 0) == Ok(Decoded(v, offset + GetEncodeSize(v)))
  {
    match v.value
    case None =>
      assert bytes[offset + 0] == Encoded(v)[0];
    case Some(s) =>
      var data := GetBytes(s);
      var width := GetEncodeWidthBySize(|data|);
      var code: FormatCode := if width == UByteWidth then Symbol8 else Symbol32;
      assert Encoded(v) == [code] + LengthPrefixed(data, width);
      HoldsAtSplit(bytes, offset, [code], LengthPrefixed(data, width));
      assert bytes[offset + 0] == [code][0];
      LengthPrefixedRoundTrip(bytes, offset + 1, s, width);
  }

  /** One array element decodes, under the array's element code, to itself and stops right after its content. */
  lemma DecodeArrayElement(bytes: seq<byte>, offset: nat, x: AmqpSymbol)
    requires ArrayElement(x)
    requires HoldsAt(bytes, offset, ObjectEncoded(x, true))
    ensures DecodeAt(bytes, offset, ArrayFormatCode) == Ok(Decoded(x, offset + |ObjectEncoded(x, true)|))
  {
    LengthPrefixedRoundTrip(bytes, offset, x.value.value, UIntWidth);
  }

  /** Decoding one more element extends a successful array decode by that element. */
  lemma DecodeArrayStep(bytes: seq<byte>, offset: nat, formatCode: FormatCode, list: seq<AmqpSymbol>, mid: nat, next: nat)
    requires offset <= mid <= |bytes|
    requires list != []
    ensures DecodeArrayAt(bytes, offset, |list| - 1, formatCode) == Ok(DecodedArray(list[..|list| - 1], mid)) &&
            DecodeAt(bytes, mid, formatCode) == Ok(Decoded(list[|list| - 1], next))
        ==> DecodeArrayAt(bytes, offset, |list|, formatCode) == Ok(DecodedArray(list, next))
  {
    assert list[..|list| - 1] + [list[|list| - 1]] == list;
  }

  /**
   * DecodeArray is `|list|` scalar decodes in a row: if element `i` decodes at
   * `ends[i]` and stops at `ends[i + 1]`, the array decodes to `list` and
   * stops at the last end.
   */
  lemma {:induction false} DecodeSequential(bytes: seq<byte>, formatCode: FormatCode, list: seq<AmqpSymbol>, ends: seq<nat>)
    requires |ends| == |list| + 1 && ends[0] <= |bytes|
    requires forall i :: 0 <= i < |list| ==>
      ends[i] <= |bytes| && DecodeAt(bytes, ends[i], formatCode) == Ok(Decoded(list[i], ends[i + 1]))
    ensures DecodeArrayAt(bytes, ends[0], |list|, formatCode) == Ok(DecodedArray(list, ends[|list|]))
    decreases |list|
  {
    if list != [] {
      var n := |list| - 1;
      DecodeSequential(bytes, formatCode, list[..n], ends[..n + 1]);
      DecodeArrayStep(bytes, ends[0], formatCode, list, ends[n], ends[n + 1]);
    }
  }

  /** The image EncodeObject writes for each element in array mode, in order. */
  function ElementImages(list: seq<AmqpSymbol>): (images: seq<seq<byte>>)
    requires AllArrayElements(list)
    ensures |images| == |list|
    ensures forall i :: 0 <= i < |list| ==> images[i] == ObjectEncoded(list[i], true)
  {
    seq(|list|, i requires 0 <= i < |list| => ObjectEncoded(list[i], true))
  }

  /** EncodeArray's bytes are the element images one after another. */
  lemma {:induction false} ArrayEncodedConcat(list: seq<AmqpSymbol>)
    requires AllArrayElements(list)
    ensures ArrayEncoded(list) == Concat(ElementImages(list))
    decreases |list|
  {
    if list != [] {
      var init := list[..|list| - 1];
      assert AllArrayElements(init);
      ArrayEncodedConcat(init);
      var images := ElementImages(list);
      assert images[..|images| - 1] == ElementImages(init);
    }
  }

  /** Element images laid out one after another from `offset` to `end` decode, in order, to their elements. */
  lemma DecodeElements(bytes: seq<byte>, offset: nat, end: nat, list: seq<AmqpSymbol>, images: seq<seq<byte>>, ends: seq<nat>)
    requires AllArrayElements(list) && |images| == |list| && |ends| == |list| + 1
    requires ends[0] == offset <= |bytes| && ends[|list|] == end
    requires forall i :: 0 <= i < |list| ==> images[i] == ObjectEncoded(list[i], true)
    requires forall i {:trigger images[i]} :: 0 <= i < |images| ==>
      HoldsAt(bytes, ends[i], images[i]) && ends[i + 1] == ends[i] + |images[i]|
    ensures DecodeArrayAt(bytes, offset, |list|, ArrayFormatCode) == Ok(DecodedArray(list, end))
  {
    forall i | 0 <= i < |list|
      ensures ends[i] <= |bytes| && DecodeAt(bytes, ends[i], ArrayFormatCode) == Ok(Decoded(list[i], ends[i + 1]))
    {
      assert HoldsAt(bytes, ends[i], images[i]);
      DecodeArrayElement(bytes, ends[i], list[i]);
    }
    DecodeSequential(bytes, ArrayFormatCode, list, ends);
  }

  /**
   * Array round trip: decoding EncodeArray's bytes under the array's element
   * code gives the elements back in order and stops at `end`, the first byte
   * after them.
   */
  lemma DecodeArrayEncoded(bytes: seq<byte>, offset: nat, list: seq<AmqpSymbol>, end: nat)
    requires AllArrayElements(list)
    requires HoldsAt(bytes, offset, ArrayEncoded(list))
    requires end == offset + |ArrayEncoded(list)|
    ensures DecodeArrayAt(bytes, offset, |list|, ArrayFormatCode) == Ok(DecodedArray(list, end))
  {
    var images := ElementImages(list);
    ArrayEncodedConcat(list);
    ConcatLayout(bytes, offset, images);
    DecodeElements(bytes, offset, end, list, images, Starts(offset, images));
  }

  /** Encode into an empty buffer, then Decode with format code 0: the symbol comes back and the cursor sits after all GetEncodeSize bytes. */
  method EncodeDecodeRoundTrip(v: AmqpSymbol) returns (r: Result<AmqpSymbol, Error>, consumed: nat)
    requires Encodable(v)
    ensures r == Ok(v) && consumed == GetEncodeSize(v)
  {
    var buffer := new ByteBuffer([]);
    Encode(v, buffer);
    assert buffer.bytes == Encoded(v);
    DecodeEncoded(buffer.bytes, 0, v);
    r := Decode(buffer, 0);
    consumed := buffer.offset;
  }

  /**
   * EncodeArray into an empty buffer, then DecodeArray of as many elements
   * under the array's element code: the elements come back in order and the
   * cursor sits after their content and one four-byte length each.
   */
  method ArrayRoundTrip(list: seq<AmqpSymbol>) returns (r: Result<seq<AmqpSymbol>, Error>, consumed: nat)
    requires AllArrayElements(list)
    ensures r == Ok(list) && consumed == ArraySize(list) + UIntWidth * |list|
  {
    var buffer := new ByteBuffer([]);
    EncodeArray(list, buffer);
    assert buffer.bytes == ArrayEncoded(list);
    DecodeArrayEncoded(buffer.bytes, 0, list, |ArrayEncoded(list)|);
    var decoded := DecodeArray(buffer, |list|, ArrayFormatCode);
    assert decoded.Ok?;
    r := Ok(decoded.value[..]);
    consumed := buffer.offset;
  }

  /** Encode's layout: the short code exactly when the content is at most 255 bytes, a prefix holding the content length, then the content. */
  lemma EncodedLayout(s: string)
    requires IsAscii(s) && |s| < IntLimit
    ensures var r := Encoded(AmqpSymbol(Some(s)));
      (r[0] == Symbol8 <==> |s| <= 0xff) && (r[0] == Symbol8 || r[0] == Symbol32)
      && (|s| <= 0xff ==> r[1] == |s| && r[2..] == GetBytes(s))
      && (|s| > 0xff ==> UIntAt(r, 1) == |s| && r[5..] == GetBytes(s))
  {
    var r := Encoded(AmqpSymbol(Some(s)));
    var data := GetBytes(s);
    if |s| <= 0xff {
      assert r == [Symbol8] + ([|s|] + data);
      assert r[2..] == data;
    } else {
      assert r == [Symbol32] + (UIntBytes(|s|) + data);
      assert r[1..5] == UIntBytes(|s|);
      assert r[5..] == data;
    }
  }

  /** Sizes at the edges: null is one byte, "" two, 255 bytes of content the short form in 257 bytes, 256 the long form in 261. */
  lemma EncodeSizeBoundary(s: string)
    requires IsAscii(s) && |s| < IntLimit
    ensures GetEncodeSize(AmqpSymbol(None)) == 1 && Encoded(AmqpSymbol(None)) == [NullCode]
    ensures |s| == 0 ==> GetEncodeSize(AmqpSymbol(Some(s))) == 2
    ensures |s| == 255 ==> GetEncodeSize(AmqpSymbol(Some(s))) == 257 && Encoded(AmqpSymbol(Some(s)))[0] == Symbol8
    ensures |s| == 256 ==> GetEncodeSize(AmqpSymbol(Some(s))) == 261 && Encoded(AmqpSymbol(Some(s)))[0] == Symbol32
  {
  }

  /**
   * With a known code Decode reads no format code and does no null check: it
   * fails with an invalid format code exactly when the code is neither symbol
   * code, and otherwise takes the count and exactly that many content bytes.
   */
  lemma DecodeKnownCode(bytes: seq<byte>, offset: nat, code: FormatCode)
    requires offset <= |bytes|
    requires code != 0
    ensures DecodeAt(bytes, offset, code) == Err(InvalidFormatCode) <==> code != Symbol8 && code != Symbol32
    ensures match DecodeAt(bytes, offset, code)
      case Ok(d) =>
        d.symbol.value.Some?
        && d.next == offset + CountWidth(code, Symbol8) + |d.symbol.value.value|
        && d.symbol.value.value == GetString(bytes, offset + CountWidth(code, Symbol8), |d.symbol.value.value|)
        && |d.symbol.value.value| == (if code == Symbol8 then bytes[offset] as nat else UIntAt(bytes, offset))
      case Err(_) => true
    ensures (code == Symbol8 || code == Symbol32) && offset + CountWidth(code, Symbol8) > |bytes| ==>
      DecodeAt(bytes, offset, code) == Err(BufferUnderrun)
    ensures (code == Symbol8 || code == Symbol32) && offset + CountWidth(code, Symbol8) <= |bytes| ==>
      var count := if code == Symbol8 then bytes[offset] as nat else UIntAt(bytes, offset);
      (DecodeAt(bytes, offset, code) == Err(BufferUnderrun) <==> count > |bytes| - offset - CountWidth(code, Symbol8))
  {
  }

  /** With code 0 Decode reads the code byte first; any code but null then decodes as if it had been given. */
  lemma DecodeReadsFormatCode(bytes: seq<byte>, offset: nat)
    requires offset < |bytes|
    requires bytes[offset] != 0
    ensures bytes[offset] == NullCode ==> DecodeAt(bytes, offset, 0) == Ok(Decoded(AmqpSymbol(None), offset + 1))
    ensures bytes[offset] != NullCode ==> DecodeAt(bytes, offset, 0) == DecodeAt(bytes, offset + 1, bytes[offset])
  {
  }

  /** A code that is neither null nor a symbol code is rejected, whether read from the bytes or given. */
  lemma InvalidCodeRejected(bytes: seq<byte>, offset: nat, code: FormatCode)
    requires offset <= |bytes|
    requires code != NullCode && code != Symbol8 && code != Symbol32
    ensures code != 0 ==> DecodeAt(bytes, offset, code) == Err(InvalidFormatCode)
    ensures offset < |bytes| && bytes[offset] == code ==> DecodeAt(bytes, offset, 0) == Err(InvalidFormatCode)
  {
  }

  /** The symbol "amqp.annotation.x-opt", 21 characters, goes out as the short code 0xa3, the length 0x15 and its bytes: 23 in all. */
  lemma AnnotationSymbolExample()
    ensures var v := AmqpSymbol(Some("amqp.annotation.x-opt"));
      Encodable(v)
      && GetEncodeSize(v) == 23
      && Encoded(v) == [0xa3, 0x15] + GetBytes("amqp.annotation.x-opt")
  {
    assert IsAscii("amqp.annotation.x-opt");
  }

  /** Decoding those 23 bytes from offset 0, with the format code read from the stream, gives the symbol back and stops at 23. */
  lemma AnnotationSymbolDecodeExample()
    ensures var v := AmqpSymbol(Some("amqp.annotation.x-opt"));
      Encodable(v) && DecodeAt(Encoded(v), 0, 0) == Ok(Decoded(v, 23))
  {
    var v := AmqpSymbol(Some("amqp.annotation.x-opt"));
    AnnotationSymbolExample();
    DecodeEncoded(Encoded(v), 0, v);
  }
}
