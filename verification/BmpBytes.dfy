/** The BMP files that are written, byte by byte, and the limits of those that are loaded. */
module BmpBytes {
  import opened Bmp

  lemma {:induction false} BgrAt(s: seq<int>, i: nat, c: nat)
    requires |s| % 3 == 0 && 3 * i + 2 < |s| && c < 3
    ensures |Bgr(s)| == |s| && Bgr(s)[3 * i + c] == s[3 * i + 2 - c]
    decreases |s|
  {
    var rest := s[3..];
    BgrTwice(s);
    assert Bgr(s) == [s[2], s[1], s[0]] + Bgr(rest);
    if i > 0 {
      BgrAt(rest, i - 1, c);
    }
  }

  /** The length of a row in the file: whole words. */
  lemma StrideIs(w: nat)
    ensures 3 * w + Pad(w) == (3 * w + 3) / 4 * 4
  {
  }

  lemma {:induction false} RowAt(s: seq<int>, stride: nat, j: nat, h: nat, k: nat, at: nat)
    requires j < h && k < stride && |s| == RowStart(stride, h) && at == stride * j + k
    ensures at < |s| && |Row(s, stride, j)| == stride && Row(s, stride, j)[k] == s[at]
  {
    RowInside(stride, j, h);
    RowStartIs(stride, j);
  }

  /** Where every byte of the image and of the padding is in the file: rows bottom-up behind 54
      header bytes, each a whole number of words, blue before green before red. */
  lemma {:induction false} ByteInFile(w: nat, h: nat, data: seq<int>, j: nat, k: nat, stride: nat, m: nat, at: nat, from: nat)
    requires IsImage(w, h, data) && stride == (3 * w + 3) / 4 * 4 && j < h && m == h - 1 - j && k < stride
    requires at == stride * m + k && from == 3 * w * j
    ensures 54 + at < |BmpFile(w, h, data)|
    ensures BmpFile(w, h, data)[54 + at] == if k < 3 * w then PixelByte(data, from, k) else 0
  {
    StrideIs(w);
    RowsDownLength(data, w, h);
    RowInFile(data, w, h, m, stride);
    RowAt(RowsDown(data, w, h), stride, m, h, k, at);
    RowBytes(w, h, data, j, k, stride, from);
    BehindHeader(Header(w, h), RowsDown(data, w, h), at);
  }

  lemma BehindHeader(header: seq<int>, rows: seq<int>, at: nat)
    requires |header| == 54 && at < |rows|
    ensures (header + rows)[54 + at] == rows[at]
  {
  }

  /** The byte at place k of a row: within its pixel, the colours change places. */
  function PixelByte(data: seq<int>, from: nat, k: nat): int {
    var source := from + k - k % 3 + 2 - k % 3;
    if source < |data| then data[source] else 0
  }

  lemma {:induction false} ColourAt(row: seq<int>, w: nat, k: nat, pad: seq<int>)
    requires |row| == 3 * w && k < 3 * w
    ensures |Bgr(row)| == 3 * w && (Bgr(row) + pad)[k] == row[k - k % 3 + 2 - k % 3]
  {
    BgrAt(row, k / 3, k % 3);
  }

  lemma {:induction false} RowColour(w: nat, width: nat, h: nat, data: seq<int>, j: nat, k: nat, from: nat, row: seq<int>)
    requires |data| == RowStart(width, h) && width == 3 * w && j < h && k < width && from == width * j && row == Row(data, width, j)
    ensures |row| == width && |Bgr(row)| == width && (Bgr(row) + Zeros(Pad(w)))[k] == PixelByte(data, from, k)
  {
    var source := k - k % 3 + 2 - k % 3;
    RowAt(data, width, j, h, source, from + source);
    ColourAt(row, w, k, Zeros(Pad(w)));
  }

  lemma {:induction false} RowBytes(w: nat, h: nat, data: seq<int>, j: nat, k: nat, stride: nat, from: nat)
    requires IsImage(w, h, data) && j < h && stride == 3 * w + Pad(w) && k < stride && from == 3 * w * j
    ensures |FileRow(data, w, j)| == stride
    ensures FileRow(data, w, j)[k] == if k < 3 * w then PixelByte(data, from, k) else 0
  {
    var width := 3 * w;
    var row := Row(data, width, j);
    RowInside(width, j, h);
    FileRowLength(data, w, j);
    if k < width {
      RowColour(w, width, h, data, j, k, from, row);
    } else {
      BgrTwice(row);
      PadAt(Bgr(row), width, Pad(w), k);
    }
  }

  lemma PadAt(row: seq<int>, width: nat, pad: nat, k: nat)
    requires |row| == width <= k < width + pad
    ensures (row + Zeros(pad))[k] == 0
  {
  }

  /** The headers: the size of the file, where the pixels begin, width, height and 24 bits, each
      with its low byte first. */
  lemma HeaderIs(w: nat, h: nat, stride: nat, size: nat)
    requires stride == (3 * w + 3) / 4 * 4 && size == 54 + stride * h
    ensures Header(w, h) ==
      [0x42, 0x4D, size % 256, size / 256 % 256, size / 0x1_0000 % 256, size / 0x100_0000 % 256, 0, 0, 0, 0, 54, 0, 0, 0]
      + [40, 0, 0, 0, w % 256, w / 256 % 256, w / 0x1_0000 % 256, w / 0x100_0000 % 256,
         h % 256, h / 256 % 256, h / 0x1_0000 % 256, h / 0x100_0000 % 256, 1, 0, 24, 0]
      + [0, 0, 0, 0, 0, 0, 0, 0, 0, 0, 0, 0, 0, 0, 0, 0, 0, 0, 0, 0, 0, 0, 0, 0]
  {
    StrideIs(w);
    RowStartIs(stride, h);
    FileHeaderIs(w, h, size);
    BitmapHeaderIs(FileHeader(w, h), w, h);
    assert Le32(0) + Le32(0) + Le32(0) + Le32(0) + Le32(0) + Le32(0)
        == [0, 0, 0, 0, 0, 0, 0, 0, 0, 0, 0, 0, 0, 0, 0, 0, 0, 0, 0, 0, 0, 0, 0, 0];
    SixMore(BitmapStart(w, h), Le32(0));
  }

  lemma SixMore(a: seq<int>, z: seq<int>)
    ensures a + z + z + z + z + z + z == a + (z + z + z + z + z + z)
  {
  }

  lemma BitmapHeaderIs(start: seq<int>, w: nat, h: nat)
    ensures start + Le32(40) + Le32(w) + Le32(h) + Le16(1) + Le16(24) ==
      start + [40, 0, 0, 0, w % 256, w / 256 % 256, w / 0x1_0000 % 256, w / 0x100_0000 % 256,
               h % 256, h / 256 % 256, h / 0x1_0000 % 256, h / 0x100_0000 % 256, 1, 0, 24, 0]
  {
    assert Le32(40) == [40, 0, 0, 0] && Le16(1) == [1, 0] && Le16(24) == [24, 0];
  }

  lemma FileHeaderIs(w: nat, h: nat, size: nat)
    requires size == 54 + RowStart(3 * w + Pad(w), h)
    ensures FileHeader(w, h) ==
      [0x42, 0x4D, size % 256, size / 256 % 256, size / 0x1_0000 % 256, size / 0x100_0000 % 256, 0, 0, 0, 0, 54, 0, 0, 0]
  {
    assert Le16(0) == [0, 0] && Le32(14 + 40) == [54, 0, 0, 0];
  }

  lemma {:induction false} Mul2ValidIs(a: nat, b: nat)
    ensures Mul2Valid(a, b) <==> a * b <= 0x7fff_ffff
  {
    if b > 0 {
      var q := INT_MAX / b;
      assert q * b <= INT_MAX < q * b + b;
      if a <= q { MulAtMost(a, q, b); } else { MulAtMost(q + 1, a, b); }
    }
  }

  lemma MulAtMost(x: nat, y: nat, b: nat)
    requires x <= y
    ensures x * b <= y * b
  {
  }

  /** A picture is loaded only if its pixels take less than two gigabytes. */
  lemma {:induction false} SizesValidIs(x: nat, y: nat)
    ensures SizesValid(x, y) <==> 3 * x <= 0x7fff_ffff && 3 * x * y <= 0x7fff_ffff
  {
    Mul2ValidIs(3, x);
    Mul2ValidIs(3 * x, y);
  }
}
