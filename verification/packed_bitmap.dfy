/** One-bit-per-pixel bitmaps as the clock's compiled-in assets store them:
    rows in order, each row padded to a whole number of bytes, and the pixels
    of a byte read least-significant bit first. Decoding turns such a bitmap
    into a flat, row-major sequence of frame-buffer colours. */
module PackedBitmap {
  import opened Colour
  import opened Arith

  type Byte = bv8

  /** A packed asset and where it is placed on the canvas. */
  datatype Bitmap = Bitmap(bits: seq<Byte>, width: nat, height: nat, xOffset: nat, yOffset: nat)
  {
    /** The byte count matches the padded row layout. */
    predicate WellFormed()
    {
      |bits| == RowBytes(width) * height
    }
  }

  /** Number of bytes one packed row of `width` pixels occupies. */
  function RowBytes(width: nat): (n: nat)
    ensures n * 8 >= width && n * 8 < width + 8
    ensures n == 0 <==> width == 0
  {
    width / 8 + if width % 8 > 0 then 1 else 0
  }

  /** Bit `n` of `b`, read as the lowest bit of `b` rotated right by `n`.
      Rotating right by `n < 8` brings bit `n` to position 0, so the test is
      the usual shift-and-mask. */
  function BitSet(b: Byte, n: nat): (on: bool)
    requires n < 8
    ensures on <==> (b >> n) & 1 == 1
  {
    b.RotateRight(n) & 1 > 0
  }

  /** The colour a pixel decodes to: black for a set bit, white for a clear one. */
  function PixelOf(b: Byte, n: nat): (p: Rgb)
    requires n < 8
    ensures p == BLACK || p == WHITE
    ensures p == BLACK <==> (b >> n) & 1 == 1
  {
    if BitSet(b, n) then BLACK else WHITE
  }

  /** The pixels the inner loop pushes for bits `n..7` of one byte, entered
      with the running column counter `count`. The loop stops early once the
      counter reaches `width`, which skips the padding bits at the end of a row.
      The bits are pushed in order, `n` first: at most the remaining ones. */
  function BytePixels(b: Byte, width: nat, count: nat, n: nat): (px: seq<Rgb>)
    requires n <= 8
    ensures |px| <= 8 - n
    ensures forall j :: 0 <= j < |px| ==> n + j < 8 && px[j] == PixelOf(b, n + j)
    decreases 8 - n
  {
    if n == 8 then []
    else if count + 1 == width then [PixelOf(b, n)]
    else [PixelOf(b, n)] + BytePixels(b, width, count + 1, n + 1)
  }

  /** The column counter after the inner loop: it counts up per pixel and is
      reset to 0 when it reaches `width`. It does not depend on the bits. */
  function ByteCount(width: nat, count: nat, n: nat): (c: nat)
    requires n <= 8
    requires width == 0 || count < width
    ensures width == 0 || c < width
    decreases 8 - n
  {
    if n == 8 then count
    else if count + 1 == width then 0
    else ByteCount(width, count + 1, n + 1)
  }

  /** When the row does not end inside the rest of the byte, all of its
      remaining bits are pushed and the counter advances past them. */
  lemma {:induction false} ByteWithinRow(b: Byte, width: nat, count: nat, n: nat)
    requires n <= 8
    requires width == 0 || count + (8 - n) < width
    ensures |BytePixels(b, width, count, n)| == 8 - n
    ensures ByteCount(width, count, n) == count + (8 - n)
    decreases 8 - n
  {
    if n < 8 {
      ByteWithinRow(b, width, count + 1, n + 1);
    }
  }

  /** When the row ends inside the rest of the byte, exactly the row's
      remaining `width - count` pixels are pushed, the padding bits after them
      are skipped, and the counter is reset to 0. */
  lemma {:induction false} ByteEndsRow(b: Byte, width: nat, count: nat, n: nat)
    requires n <= 8
    requires count < width <= count + (8 - n)
    ensures |BytePixels(b, width, count, n)| == width - count
    ensures ByteCount(width, count, n) == 0
    decreases 8 - n
  {
    if count + 1 != width {
      ByteEndsRow(b, width, count + 1, n + 1);
    }
  }

  /** The outer loop over the remaining bytes, with the column counter carried
      from one byte to the next. Every pixel it pushes is black or white, at
      most eight per byte. */
  function UnpackFrom(bits: seq<Byte>, width: nat, count: nat): (out: seq<Rgb>)
    requires width == 0 || count < width
    ensures |out| <= 8 * |bits|
    ensures forall k :: 0 <= k < |out| ==> out[k] == BLACK || out[k] == WHITE
  {
    if |bits| == 0 then []
    else BytePixels(bits[0], width, count, 0) + UnpackFrom(bits[1..], width, ByteCount(width, count, 0))
  }

  /** The column counter after the outer loop has consumed `bits`. */
  function CountAfter(bits: seq<Byte>, width: nat, count: nat): (c: nat)
    requires width == 0 || count < width
    ensures width == 0 || c < width
  {
    if |bits| == 0 then count
    else CountAfter(bits[1..], width, ByteCount(width, count, 0))
  }

  /** Decodes packed bits of a `width`-pixel-wide bitmap, starting at column 0.
      Every pixel emitted is black or white, at most eight per byte; with
      `width == 0` the counter never matches and every bit is emitted. */
  function BitsToBytes(bits: seq<Byte>, width: nat): (out: seq<Rgb>)
    ensures forall k :: 0 <= k < |out| ==> out[k] == BLACK || out[k] == WHITE
    ensures |out| <= 8 * |bits|
    ensures width == 0 ==> |out| == 8 * |bits|
  {
    assert width == 0 ==> |UnpackFrom(bits, width, 0)| == 8 * |bits| by {
      if width == 0 {
        UnpackAllBits(bits, width, 0);
      }
    }
    UnpackFrom(bits, width, 0)
  }

  /** Flat index of pixel (`row`, `col`) in a row-major image `width` pixels wide. */
  function PixelIndex(width: nat, row: nat, col: nat): nat
  {
    row * width + col
  }

  /** Index of the byte that holds pixel (`row`, `col`) of a packed bitmap. */
  function ByteIndex(width: nat, row: nat, col: nat): nat
  {
    row * RowBytes(width) + col / 8
  }

  /** Decodes a well-formed asset into a colour per pixel: exactly
      `width * height` pixels, pixel (r, c) black iff bit `c % 8` of the byte
      holding it is set. */
  function Decode(bm: Bitmap): (img: seq<Rgb>)
    requires bm.WellFormed() && bm.width > 0
    ensures |img| == bm.width * bm.height
    ensures forall r, c :: 0 <= r < bm.height && 0 <= c < bm.width ==>
              && PixelIndex(bm.width, r, c) < |img|
              && ByteIndex(bm.width, r, c) < |bm.bits|
              && (img[PixelIndex(bm.width, r, c)] == BLACK <==> BitSet(bm.bits[ByteIndex(bm.width, r, c)], c % 8))
  {
    UnpackRows(bm.bits, bm.width, bm.height);
    BitsToBytes(bm.bits, bm.width)
  }

  // ---------------------------------------------------------------------------
  // Layout theorem

  /** With width 0 the counter never matches, so all eight bits of every byte are pushed. */
  lemma {:induction false} UnpackAllBits(bits: seq<Byte>, width: nat, count: nat)
    requires width == 0
    ensures |UnpackFrom(bits, width, count)| == 8 * |bits|
  {
    if |bits| > 0 {
      ByteWithinRow(bits[0], width, count, 0);
      UnpackAllBits(bits[1..], width, ByteCount(width, count, 0));
    }
  }

  /** The column counter after a concatenation is the counter after the
      second part, entered with the counter the first part left behind. */
  lemma {:induction false} CountAfterConcat(a: seq<Byte>, b: seq<Byte>, width: nat, count: nat)
    requires width == 0 || count < width
    ensures CountAfter(a + b, width, count) == CountAfter(b, width, CountAfter(a, width, count))
  {
    if |a| == 0 {
      assert a + b == b;
    } else {
      assert (a + b)[1..] == a[1..] + b;
      CountAfterConcat(a[1..], b, width, ByteCount(width, count, 0));
    }
  }

  /** Decoding a concatenation is decoding the first part, then the second
      part from the counter the first part left behind. */
  lemma {:induction false} UnpackConcat(a: seq<Byte>, b: seq<Byte>, width: nat, count: nat)
    requires width == 0 || count < width
    ensures UnpackFrom(a + b, width, count)
         == UnpackFrom(a, width, count) + UnpackFrom(b, width, CountAfter(a, width, count))
  {
    if |a| == 0 {
      assert a + b == b;
    } else {
      var next := ByteCount(width, count, 0);
      var px := BytePixels(a[0], width, count, 0);
      assert (a + b)[0] == a[0];
      assert (a + b)[1..] == a[1..] + b;
      var x, y := UnpackFrom(a[1..], width, next), UnpackFrom(b, width, CountAfter(a, width, count));
      UnpackConcat(a[1..], b, width, next);
      assert UnpackFrom(a + b, width, count) == px + (x + y);
      AppendAssoc(px, x, y);
    }
  }

  lemma AppendAssoc<T>(p: seq<T>, x: seq<T>, y: seq<T>)
    ensures p + (x + y) == (p + x) + y
  {
  }

  lemma Shift8(k: nat)
    requires k >= 8
    ensures (k - 8) / 8 == k / 8 - 1 && (k - 8) % 8 == k % 8
  {
  }

  /** `out` holds the pixels of `bytes` in order, eight per byte. */
  ghost predicate PixelsOfBytes(out: seq<Rgb>, bytes: seq<Byte>)
  {
    forall k :: 0 <= k < |out| ==> k / 8 < |bytes| && out[k] == PixelOf(bytes[k / 8], k % 8)
  }

  /** Eight pixels of one byte followed by the pixels of the next bytes are
      the pixels of all of them. */
  lemma PrependBytePixels(px: seq<Rgb>, rest: seq<Rgb>, bytes: seq<Byte>)
    requires |bytes| > 0 && |px| == 8
    requires forall k :: 0 <= k < 8 ==> px[k] == PixelOf(bytes[0], k)
    requires PixelsOfBytes(rest, bytes[1..])
    ensures PixelsOfBytes(px + rest, bytes)
  {
    forall k | 0 <= k < |px + rest|
      ensures k / 8 < |bytes| && (px + rest)[k] == PixelOf(bytes[k / 8], k % 8)
    {
      if k >= 8 {
        Shift8(k);
        assert (px + rest)[k] == rest[k - 8];
      }
    }
  }

  /** The last bytes of a row, entered with the counter at `count`, decode to
      the row's remaining `width - count` columns, and the counter is back at 0
      afterwards: the row ends inside the last of these bytes. */
  lemma {:induction false} UnpackRowTail(bytes: seq<Byte>, width: nat, count: nat)
    requires count < width
    requires 8 * (|bytes| - 1) < width - count <= 8 * |bytes|
    ensures CountAfter(bytes, width, count) == 0
    ensures |UnpackFrom(bytes, width, count)| == width - count
    ensures PixelsOfBytes(UnpackFrom(bytes, width, count), bytes)
  {
    var px, next := BytePixels(bytes[0], width, count, 0), ByteCount(width, count, 0);
    var rest := UnpackFrom(bytes[1..], width, next);
    assert UnpackFrom(bytes, width, count) == px + rest;
    if width - count <= 8 {
      ByteEndsRow(bytes[0], width, count, 0);
      assert bytes[1..] == [];
    } else {
      ByteWithinRow(bytes[0], width, count, 0);
      UnpackRowTail(bytes[1..], width, next);
      PrependBytePixels(px, rest, bytes);
    }
  }

  lemma RowStep(width: nat, r: nat, c: nat)
    requires r > 0
    ensures PixelIndex(width, r, c) == PixelIndex(width, r - 1, c) + width
    ensures ByteIndex(width, r, c) == ByteIndex(width, r - 1, c) + RowBytes(width)
  {
    assert r * width == (r - 1) * width + width;
    assert r * RowBytes(width) == (r - 1) * RowBytes(width) + RowBytes(width);
  }

  /** Pixel (`r`, `c`) of a `width` by `height` image, and the byte holding it, are in range. */
  lemma RowBound(width: nat, height: nat, r: nat, c: nat)
    requires r < height && c < width
    ensures PixelIndex(width, r, c) < width * height
    ensures ByteIndex(width, r, c) < RowBytes(width) * height
  {
    assert r * width + width <= height * width by {
      assert (r + 1) * width <= height * width;
    }
    var n := RowBytes(width);
    assert r * n + n <= height * n by {
      assert (r + 1) * n <= height * n;
    }
  }

  /** `out` is the row-major decoding of the padded rows in `bits`: pixel
      (r, c) exists and comes from bit `c % 8` of the byte holding it. */
  ghost predicate DecodesLayout(out: seq<Rgb>, bits: seq<Byte>, width: nat, height: nat)
  {
    forall r, c :: 0 <= r < height && 0 <= c < width ==>
      && PixelIndex(width, r, c) < |out|
      && ByteIndex(width, r, c) < |bits|
      && out[PixelIndex(width, r, c)] == PixelOf(bits[ByteIndex(width, r, c)], c % 8)
  }

  /** One decoded row in front of the decoding of the rows below it. */
  lemma PrependRow(first: seq<Rgb>, rest: seq<Rgb>, row: seq<Byte>, more: seq<Byte>, width: nat, height: nat)
    requires height > 0 && |first| == width && |row| == RowBytes(width)
    requires PixelsOfBytes(first, row)
    requires |rest| == width * (height - 1) && DecodesLayout(rest, more, width, height - 1)
    ensures |first + rest| == width * height
    ensures DecodesLayout(first + rest, row + more, width, height)
  {
    MulPred(width, height);
    var out, bits := first + rest, row + more;
    forall r, c | 0 <= r < height && 0 <= c < width
      ensures && PixelIndex(width, r, c) < |out|
              && ByteIndex(width, r, c) < |bits|
              && out[PixelIndex(width, r, c)] == PixelOf(bits[ByteIndex(width, r, c)], c % 8)
    {
      if r == 0 {
        assert out[PixelIndex(width, r, c)] == first[c];
        assert bits[ByteIndex(width, r, c)] == row[c / 8];
      } else {
        RowStep(width, r, c);
        assert out[PixelIndex(width, r, c)] == rest[PixelIndex(width, r - 1, c)];
        assert bits[ByteIndex(width, r, c)] == more[ByteIndex(width, r - 1, c)];
      }
    }
  }

  /** The layout theorem: `height` padded rows decode, from column 0, to
      exactly `width * height` pixels laid out row by row, and the counter
      ends at 0. */
  lemma {:induction false} UnpackRows(bits: seq<Byte>, width: nat, height: nat)
    requires width > 0 && |bits| == RowBytes(width) * height
    ensures CountAfter(bits, width, 0) == 0
    ensures |UnpackFrom(bits, width, 0)| == width * height
    ensures DecodesLayout(UnpackFrom(bits, width, 0), bits, width, height)
  {
    var n := RowBytes(width);
    if height == 0 {
      assert bits == [];
    } else {
      var row, more := bits[..n], bits[n..];
      assert bits == row + more;
      assert |more| == n * (height - 1) by {
        MulPred(n, height);
      }
      var first, rest := UnpackFrom(row, width, 0), UnpackFrom(more, width, 0);
      assert CountAfter(row, width, 0) == 0 && |first| == width && PixelsOfBytes(first, row) by {
        UnpackRowTail(row, width, 0);
      }
      UnpackRows(more, width, height - 1);
      assert UnpackFrom(bits, width, 0) == first + rest by {
        UnpackConcat(row, more, width, 0);
      }
      assert CountAfter(bits, width, 0) == 0 by {
        CountAfterConcat(row, more, width, 0);
      }
      PrependRow(first, rest, row, more, width, height);
    }
  }

  lemma IndexDecompose(width: nat, height: nat, k: nat)
    requires width > 0 && k < width * height
    ensures 0 <= k / width < height && 0 <= k % width < width
    ensures PixelIndex(width, k / width, k % width) == k
  {
  }

  /** Two well-formed bitmaps of the same shape that agree on every visible
      pixel's bit. */
  predicate SameVisibleBits(bits: seq<Byte>, bits': seq<Byte>, width: nat, height: nat)
  {
    forall r, c :: 0 <= r < height && 0 <= c < width ==>
      && ByteIndex(width, r, c) < |bits|
      && ByteIndex(width, r, c) < |bits'|
      && (BitSet(bits[ByteIndex(width, r, c)], c % 8) <==> BitSet(bits'[ByteIndex(width, r, c)], c % 8))
  }

  /** Padding bits after column `width - 1` of a row never reach the output:
      bitmaps that differ only there decode identically. */
  lemma PaddingIgnored(bits: seq<Byte>, bits': seq<Byte>, width: nat, height: nat)
    requires width > 0
    requires |bits| == RowBytes(width) * height && |bits'| == |bits|
    requires SameVisibleBits(bits, bits', width, height)
    ensures BitsToBytes(bits, width) == BitsToBytes(bits', width)
  {
    var out, out' := UnpackFrom(bits, width, 0), UnpackFrom(bits', width, 0);
    assert |out| == width * height && DecodesLayout(out, bits, width, height) by {
      UnpackRows(bits, width, height);
    }
    assert |out'| == width * height && DecodesLayout(out', bits', width, height) by {
      UnpackRows(bits', width, height);
    }
    SameLayoutSameImage(out, out', bits, bits', width, height);
  }

  /** Two images laid out from bitmaps that agree on every visible bit are equal. */
  lemma SameLayoutSameImage(out: seq<Rgb>, out': seq<Rgb>, bits: seq<Byte>, bits': seq<Byte>, width: nat, height: nat)
    requires width > 0 && |out| == width * height && |out'| == width * height
    requires DecodesLayout(out, bits, width, height) && DecodesLayout(out', bits', width, height)
    requires SameVisibleBits(bits, bits', width, height)
    ensures out == out'
  {
    forall k | 0 <= k < |out|
      ensures out[k] == out'[k]
    {
      IndexDecompose(width, height, k);
      var r, c := k / width, k % width;
      var i := ByteIndex(width, r, c);
      assert out[PixelIndex(width, r, c)] == PixelOf(bits[i], c % 8);
      assert out'[PixelIndex(width, r, c)] == PixelOf(bits'[i], c % 8);
      assert BitSet(bits[i], c % 8) <==> BitSet(bits'[i], c % 8);
    }
  }
}
