/**
 * The two conversions of .NET's Encoding.ASCII that the symbol codec uses:
 * text to bytes (one byte per character) and bytes to text (a byte above
 * 0x7F becomes '?').
 */
module Ascii {
  import opened Bytes

  /** Every character is in the 7-bit range. */
  predicate IsAscii(s: string) {
    forall i :: 0 <= i < |s| ==> s[i] as int < 0x80
  }

  /** Encoding.ASCII.GetBytes on ASCII text. GetByteCount is the length of this. */
  function GetBytes(s: string): (r: seq<byte>)
    requires IsAscii(s)
    ensures |r| == |s|
    ensures forall i :: 0 <= i < |s| ==> r[i] < 0x80
  {
    seq(|s|, i requires 0 <= i < |s| => s[i] as int)
  }

  /**
   * Encoding.ASCII.GetString(bytes, index, count): each of the `count` bytes
   * from `index` becomes one character, '?' for a byte above 0x7F.
   */
  function GetString(b: seq<byte>, index: nat, count: nat): (s: string)
    requires index + count <= |b|
    ensures |s| == count
    ensures IsAscii(s)
  {
    if count == 0 then []
    else
      var c := b[index + count - 1];
      GetString(b, index, count - 1) + [if c < 0x80 then c as char else '?']
  }

  /** Decoding the bytes of ASCII text, wherever they sit, gives the text back. */
  lemma {:induction false} GetStringOfGetBytes(b: seq<byte>, index: nat, s: string)
    requires IsAscii(s)
    requires HoldsAt(b, index, GetBytes(s))
    ensures GetString(b, index, |s|) == s
  {
    if s != [] {
      var init := s[..|s| - 1];
      assert GetBytes(init) == GetBytes(s)[..|s| - 1];
      GetStringOfGetBytes(b, index, init);
      assert b[index + |s| - 1] == GetBytes(s)[|s| - 1];
      assert init + [s[|s| - 1]] == s;
    }
  }

  /**
   * Encoding.ASCII.GetBytes(s, 0, s.Length, dest, 0): writes the bytes of `s`
   * at the front of `dest`, leaves the rest of `dest` alone and returns how
   * many bytes it wrote.
   */
  method GetBytesInto(s: string, dest: array<byte>) returns (count: nat)
    requires IsAscii(s)
    requires |s| <= dest.Length
    modifies dest
    ensures count == |s|
    ensures dest[..count] == GetBytes(s)
    ensures dest[count..] == old(dest[count..])
  {
    for i := 0 to |s|
      invariant dest[..i] == GetBytes(s)[..i]
      invariant dest[i..] == old(dest[i..])
    {
      dest[i] := s[i] as int;
      assert dest[..i + 1] == dest[..i] + [dest[i]];
    }
    count := |s|;
  }
}
