/** Bytes and the big-endian 32-bit layout that AmqpBitConverter writes and reads. */
module Bytes {

  type byte = b: int | 0 <= b < 0x100

  /** One more than the largest unsigned 32-bit value. */
  const UInt32Limit: int := 0x1_0000_0000

  /** `bytes` holds `image` starting at `offset`. */
  predicate HoldsAt(bytes: seq<byte>, offset: nat, image: seq<byte>) {
    offset + |image| <= |bytes| && forall i :: 0 <= i < |image| ==> bytes[offset + i] == image[i]
  }

  /** Where `a + b` sits, `a` sits, and `b` right after it. */
  lemma HoldsAtSplit(bytes: seq<byte>, offset: nat, a: seq<byte>, b: seq<byte>)
    requires HoldsAt(bytes, offset, a + b)
    ensures HoldsAt(bytes, offset, a) && HoldsAt(bytes, offset + |a|, b)
  {
    forall i | 0 <= i < |a| ensures bytes[offset + i] == a[i] {
      assert (a + b)[i] == a[i];
    }
    forall i | 0 <= i < |b| ensures bytes[offset + |a| + i] == b[i] {
      assert (a + b)[|a| + i] == b[i];
    }
  }

  /** A prefix of a prefix is a prefix. */
  lemma TakeTake<T>(s: seq<T>, m: nat, n: nat)
    requires m <= n <= |s|
    ensures s[..n][..m] == s[..m]
  {
  }

  /** A prefix of `a + b` no longer than `a` is a prefix of `a`. */
  lemma TakeAppend<T>(a: seq<T>, b: seq<T>, k: nat)
    requires k <= |a|
    ensures (a + b)[..k] == a[..k]
  {
  }

  /** Where `image` sits, so does each of its prefixes. */
  lemma HoldsAtPrefix(bytes: seq<byte>, offset: nat, image: seq<byte>, k: nat)
    requires HoldsAt(bytes, offset, image) && k <= |image|
    ensures HoldsAt(bytes, offset, image[..k])
  {
    forall i | 0 <= i < k ensures bytes[offset + i] == image[..k][i] {
      assert image[..k][i] == image[i];
    }
  }

  /** The images one after another, in order. */
  function Concat(images: seq<seq<byte>>): (r: seq<byte>)
  {
    if images == [] then [] else Concat(images[..|images| - 1]) + images[|images| - 1]
  }

  /** Where each image of `images` starts when they sit one after another from `offset`, and (last) where they end. */
  function Starts(offset: nat, images: seq<seq<byte>>): (ends: seq<nat>)
    ensures |ends| == |images| + 1 && ends[0] == offset && ends[|images|] == offset + |Concat(images)|
  {
    assert images[..|images|] == images;
    assert images[..0] == [];
    seq(|images| + 1, i requires 0 <= i <= |images| => offset + |Concat(images[..i])|)
  }

  /** The concatenation of the first `j` images is a prefix of the concatenation of all of them. */
  lemma {:induction false} ConcatPrefix(images: seq<seq<byte>>, j: nat)
    requires j <= |images|
    ensures |Concat(images[..j])| <= |Concat(images)|
    ensures Concat(images)[..|Concat(images[..j])|] == Concat(images[..j])
    decreases |images|
  {
    if j == |images| {
      assert images[..j] == images;
    } else {
      var init := images[..|images| - 1];
      ConcatPrefix(init, j);
      TakeTake(images, j, |images| - 1);
      TakeAppend(Concat(init), images[|images| - 1], |Concat(images[..j])|);
    }
  }

  /** Where the concatenation sits, image `i` sits at `pos`, right after the images before it. */
  lemma ConcatElementAt(bytes: seq<byte>, offset: nat, images: seq<seq<byte>>, i: nat, pos: nat)
    requires i < |images| && HoldsAt(bytes, offset, Concat(images))
    requires pos == offset + |Concat(images[..i])|
    ensures HoldsAt(bytes, pos, images[i])
    ensures |Concat(images[..i + 1])| == |Concat(images[..i])| + |images[i]|
  {
    ConcatPrefix(images, i + 1);
    var upTo := images[..i + 1];
    TakeTake(images, i, i + 1);
    assert upTo[..|upTo| - 1] == images[..i];
    HoldsAtPrefix(bytes, offset, Concat(images), |Concat(upTo)|);
    HoldsAtSplit(bytes, offset, Concat(images[..i]), images[i]);
  }

  /** Where the concatenation sits, every image sits at its start, and the next one starts right after it. */
  lemma ConcatLayout(bytes: seq<byte>, offset: nat, images: seq<seq<byte>>)
    requires HoldsAt(bytes, offset, Concat(images))
    ensures var ends := Starts(offset, images);
      forall i {:trigger images[i]} :: 0 <= i < |images| ==>
        HoldsAt(bytes, ends[i], images[i]) && ends[i + 1] == ends[i] + |images[i]|
  {
    var ends := Starts(offset, images);
    forall i | 0 <= i < |images|
      ensures HoldsAt(bytes, ends[i], images[i])
      ensures ends[i + 1] == ends[i] + |images[i]|
    {
      ConcatElementAt(bytes, offset, images, i, ends[i]);
    }
  }

  /** The four bytes WriteUInt appends for `n`, most significant first. */
  function UIntBytes(n: nat): (r: seq<byte>)
    requires n < UInt32Limit
    ensures |r| == 4
    ensures UIntAt(r, 0) == n
  {
    var q1 := n / 0x100;
    var q2 := q1 / 0x100;
    assert q2 / 0x100 < 0x100;
    [q2 / 0x100, q2 % 0x100, q1 % 0x100, n % 0x100]
  }

  /** The unsigned value ReadUInt takes from the four bytes at `offset`, most significant first. */
  function UIntAt(b: seq<byte>, offset: nat): (n: nat)
    requires offset + 4 <= |b|
    ensures n < UInt32Limit
  {
    var b0, b1, b2, b3: int := b[offset], b[offset + 1], b[offset + 2], b[offset + 3];
    ((b0 * 0x100 + b1) * 0x100 + b2) * 0x100 + b3
  }

  /** Reading four bytes where WriteUInt's bytes for `n` sit gives `n` back. */
  lemma UIntAtUIntBytes(b: seq<byte>, offset: nat, n: nat)
    requires n < UInt32Limit
    requires HoldsAt(b, offset, UIntBytes(n))
    ensures UIntAt(b, offset) == n
  {
    var r := UIntBytes(n);
    assert b[offset] == r[0] && b[offset + 1] == r[1] && b[offset + 2] == r[2] && b[offset + 3] == r[3];
  }
}
