/** The inverse of the packed-bitmap decoder: packs a black-and-white image
    into padded rows of bytes, least-significant bit first. The clock never
    encodes at run time (its assets are compiled in); this is the reference
    against which the decoder's bit order and padding are checked. */
module Encoder {
  import opened Colour
  import opened PackedBitmap
  import opened Arith

  /** Packs up to eight pixel bits into one byte, the first in bit 0 and any
      bits beyond them clear. */
  function PackByte(bs: seq<bool>): Byte
    requires |bs| <= 8
    decreases |bs|
  {
    if |bs| == 0 then 0
    else (PackByte(bs[1..]) << 1) | (if bs[0] then 1 else 0)
  }

  /** Shifting a byte left by one and putting a bit in position 0 moves every
      bit up one place. */
  lemma ShiftInBit(x: Byte, bit: bool, n: nat)
    requires n < 8
    ensures BitSet((x << 1) | (if bit then 1 else 0), n) == if n == 0 then bit else BitSet(x, n - 1)
  {
  }

  /** Bit `n` of a packed byte is the `n`-th pixel bit, and clear past the last one. */
  lemma {:induction false} PackByteBits(bs: seq<bool>, n: nat)
    requires |bs| <= 8 && n < 8
    ensures BitSet(PackByte(bs), n) == (n < |bs| && bs[n])
    decreases |bs|
  {
    if |bs| == 0 {
    } else {
      ShiftInBit(PackByte(bs[1..]), bs[0], n);
      if n > 0 {
        PackByteBits(bs[1..], n - 1);
      }
    }
  }

  /** Whether flat pixel `k` of `img` is black; pixels past the end count as white. */
  function IsBlackAt(img: seq<Rgb>, k: int): bool
  {
    0 <= k < |img| && img[k] == BLACK
  }

  /** The pixel bits that byte `j` of row `r` holds: eight, fewer in a row's
      last byte, none past the row's end. */
  function ByteBits(img: seq<Rgb>, width: nat, r: nat, j: nat): (bs: seq<bool>)
    ensures |bs| <= 8
    ensures 8 * j + 8 <= width ==> |bs| == 8
    ensures 8 * j < width ==> |bs| == if 8 * j + 8 <= width then 8 else width - 8 * j
    ensures forall t :: 0 <= t < |bs| ==> bs[t] == IsBlackAt(img, r * width + 8 * j + t)
  {
    var n := if 8 * j + 8 <= width then 8 else if 8 * j < width then width - 8 * j else 0;
    seq(n, t => IsBlackAt(img, r * width + 8 * j + t))
  }

  /** Packs a row-major image `width` pixels wide into `height` padded rows,
      a set bit for each black pixel and every padding bit clear. */
  function Encode(img: seq<Rgb>, width: nat, height: nat): (bits: seq<Byte>)
    ensures |bits| == RowBytes(width) * height
  {
    var n := RowBytes(width);
    seq(n * height, i requires 0 <= i => if n == 0 then 0 else PackByte(ByteBits(img, width, i / n, i % n)))
  }

  /** Which row and byte-within-row a pixel's byte index names. */
  lemma ByteOfPixel(width: nat, height: nat, r: nat, c: nat)
    requires r < height && c < width
    ensures ByteIndex(width, r, c) < RowBytes(width) * height
    ensures ByteIndex(width, r, c) / RowBytes(width) == r
    ensures ByteIndex(width, r, c) % RowBytes(width) == c / 8
  {
    RowBound(width, height, r, c);
    DivModUnique(ByteIndex(width, r, c), RowBytes(width), r, c / 8);
  }

  /** The encoder's layout: the bit for pixel (r, c) sits at bit `c % 8` of
      the byte holding it, set exactly when the pixel is black. */
  lemma EncodeLayout(img: seq<Rgb>, width: nat, height: nat, r: nat, c: nat)
    requires |img| == width * height && r < height && c < width
    ensures ByteIndex(width, r, c) < |Encode(img, width, height)|
    ensures PixelIndex(width, r, c) < |img|
    ensures BitSet(Encode(img, width, height)[ByteIndex(width, r, c)], c % 8)
        <==> img[PixelIndex(width, r, c)] == BLACK
  {
    ByteOfPixel(width, height, r, c);
    RowBound(width, height, r, c);
    var bs := ByteBits(img, width, r, c / 8);
    assert Encode(img, width, height)[ByteIndex(width, r, c)] == PackByte(bs);
    assert r * width + 8 * (c / 8) + c % 8 == PixelIndex(width, r, c);
    PackByteBits(bs, c % 8);
  }

  /** Decoding an encoded black-and-white image gives the image back. */
  lemma DecodeEncode(img: seq<Rgb>, width: nat, height: nat)
    requires width > 0 && |img| == width * height
    requires forall k :: 0 <= k < |img| ==> img[k] == BLACK || img[k] == WHITE
    ensures BitsToBytes(Encode(img, width, height), width) == img
  {
    var bits := Encode(img, width, height);
    var out := UnpackFrom(bits, width, 0);
    assert |out| == width * height && DecodesLayout(out, bits, width, height) by {
      UnpackRows(bits, width, height);
    }
    forall k | 0 <= k < |img|
      ensures out[k] == img[k]
    {
      IndexDecompose(width, height, k);
      var r: nat, c: nat := k / width, k % width;
      var i := ByteIndex(width, r, c);
      assert i < |bits| && (BitSet(bits[i], c % 8) <==> img[k] == BLACK) by {
        EncodeLayout(img, width, height, r, c);
      }
      assert out[k] == PixelOf(bits[i], c % 8);
    }
  }

  /** Every padding bit of every row is clear, as `Encode` leaves them. */
  predicate PaddingClear(bits: seq<Byte>, width: nat)
  {
    forall i, n :: 0 <= i < |bits| && 0 <= n < 8 && RowBytes(width) > 0 && 8 * (i % RowBytes(width)) + n >= width ==>
      !BitSet(bits[i], n)
  }

  /** A byte is determined by its eight bits. */
  lemma ByteFromBits(a: Byte, b: Byte)
    requires forall n :: 0 <= n < 8 ==> BitSet(a, n) == BitSet(b, n)
    ensures a == b
  {
    assert (a >> 0) & 1 == (b >> 0) & 1 by {
      assert BitSet(a, 0) == BitSet(b, 0);
    }
    assert (a >> 1) & 1 == (b >> 1) & 1 by {
      assert BitSet(a, 1) == BitSet(b, 1);
    }
    assert (a >> 2) & 1 == (b >> 2) & 1 by {
      assert BitSet(a, 2) == BitSet(b, 2);
    }
    assert (a >> 3) & 1 == (b >> 3) & 1 by {
      assert BitSet(a, 3) == BitSet(b, 3);
    }
    assert (a >> 4) & 1 == (b >> 4) & 1 by {
      assert BitSet(a, 4) == BitSet(b, 4);
    }
    assert (a >> 5) & 1 == (b >> 5) & 1 by {
      assert BitSet(a, 5) == BitSet(b, 5);
    }
    assert (a >> 6) & 1 == (b >> 6) & 1 by {
      assert BitSet(a, 6) == BitSet(b, 6);
    }
    assert (a >> 7) & 1 == (b >> 7) & 1 by {
      assert BitSet(a, 7) == BitSet(b, 7);
    }
    SameShiftMasks(a, b);
  }

  /** A byte is determined by its eight shift-and-mask bits. */
  lemma SameShiftMasks(a: Byte, b: Byte)
    requires (a >> 0) & 1 == (b >> 0) & 1 && (a >> 1) & 1 == (b >> 1) & 1
    requires (a >> 2) & 1 == (b >> 2) & 1 && (a >> 3) & 1 == (b >> 3) & 1
    requires (a >> 4) & 1 == (b >> 4) & 1 && (a >> 5) & 1 == (b >> 5) & 1
    requires (a >> 6) & 1 == (b >> 6) & 1 && (a >> 7) & 1 == (b >> 7) & 1
    ensures a == b
  {
  }

  /** Encoding sets no padding bit. */
  lemma EncodePaddingClear(img: seq<Rgb>, width: nat, height: nat)
    ensures PaddingClear(Encode(img, width, height), width)
  {
    var bits := Encode(img, width, height);
    var m := RowBytes(width);
    forall i, n | 0 <= i < |bits| && 0 <= n < 8 && m > 0 && 8 * (i % m) + n >= width
      ensures !BitSet(bits[i], n)
    {
      DivBelow(i, m, height);
      var bs := ByteBits(img, width, i / m, i % m);
      assert bits[i] == PackByte(bs);
      assert 8 * (i % m) < width;
      PackByteBits(bs, n);
    }
  }

  /** Encoding the decoding of a well-formed bitmap whose padding is clear
      gives the bitmap back: together with `DecodeEncode`, the decoder is a
      bijection between such bitmaps and black-and-white images. */
  lemma EncodeDecode(bits: seq<Byte>, width: nat, height: nat)
    requires width > 0 && |bits| == RowBytes(width) * height
    requires PaddingClear(bits, width)
    ensures Encode(BitsToBytes(bits, width), width, height) == bits
  {
    var img := BitsToBytes(bits, width);
    assert |img| == width * height && DecodesLayout(img, bits, width, height) by {
      UnpackRows(bits, width, height);
    }
    var bits' := Encode(img, width, height);
    forall i | 0 <= i < |bits|
      ensures bits'[i] == bits[i]
    {
      EncodedByte(img, bits, width, height, i);
    }
  }

  /** One byte of `EncodeDecode`: each of its eight bits comes back. */
  lemma EncodedByte(img: seq<Rgb>, bits: seq<Byte>, width: nat, height: nat, i: nat)
    requires width > 0 && |bits| == RowBytes(width) * height && i < |bits|
    requires |img| == width * height && DecodesLayout(img, bits, width, height)
    requires PaddingClear(bits, width)
    ensures Encode(img, width, height)[i] == bits[i]
  {
    var m := RowBytes(width);
    var r, j := i / m, i % m;
    assert i == r * m + j && r < height && j < m by {
      DivBelow(i, m, height);
    }
    var bs := ByteBits(img, width, r, j);
    assert Encode(img, width, height)[i] == PackByte(bs);
    forall n | 0 <= n < 8
      ensures BitSet(PackByte(bs), n) == BitSet(bits[i], n)
    {
      var c := 8 * j + n;
      if c < width {
        assert PixelIndex(width, r, c) < |img| && img[PixelIndex(width, r, c)] == PixelOf(bits[i], n) by {
          DivModUnique(c, 8, j, n);
          assert ByteIndex(width, r, c) == i;
        }
      } else {
        assert !BitSet(bits[i], n) by {
          assert 8 * (i % m) + n >= width;
        }
      }
      EncodedBit(img, bits[i], width, r, j, n);
    }
    ByteFromBits(PackByte(bs), bits[i]);
  }

  /** One bit of `EncodedByte`: a visible bit is re-encoded from the pixel it
      decoded to, and a padding bit is clear on both sides. */
  lemma EncodedBit(img: seq<Rgb>, b: Byte, width: nat, r: nat, j: nat, n: nat)
    requires n < 8
    requires 8 * j + n < width ==>
               PixelIndex(width, r, 8 * j + n) < |img| && img[PixelIndex(width, r, 8 * j + n)] == PixelOf(b, n)
    requires 8 * j + n >= width ==> !BitSet(b, n)
    ensures BitSet(PackByte(ByteBits(img, width, r, j)), n) == BitSet(b, n)
  {
    var bs := ByteBits(img, width, r, j);
    PackByteBits(bs, n);
    if 8 * j + n < width {
      assert bs[n] == IsBlackAt(img, PixelIndex(width, r, 8 * j + n));
    }
  }
}
