/** Saving an RGB888 image as a 24-bit BMP file through a bounded sink, and loading it back. */
module Bmp {
  import opened Arrays
  import opened Bits

  const HEADER_SIZE: nat := 54
  const WRITE_BUFFER: nat := 64
  const SINK_SLACK: nat := 512
  const MAX_DIMENSIONS: nat := 0x100_0000
  const INT_MAX: nat := 0x7fff_ffff
  const EXTRA_DATA_LIMIT: nat := 1024

  predicate IsBytes(s: seq<int>) {
    forall i :: 0 <= i < |s| ==> 0 <= s[i] < 256
  }

  // ---------- rows ----------

  /** Where row j begins when every row takes stride bytes. */
  function RowStart(stride: nat, j: nat): nat {
    if j == 0 then 0 else RowStart(stride, j - 1) + stride
  }

  lemma {:induction false} RowStartIs(stride: nat, j: nat)
    ensures RowStart(stride, j) == stride * j
  {
    if j > 0 {
      RowStartIs(stride, j - 1);
      assert stride * (j - 1) + stride == stride * j;
    }
  }

  lemma {:induction false} RowInside(stride: nat, j: nat, h: nat)
    requires j < h
    ensures RowStart(stride, j) + stride == RowStart(stride, j + 1) <= RowStart(stride, h)
    decreases h - j
  {
    if j + 1 < h { RowInside(stride, j + 1, h); }
  }

  lemma {:induction false} RowsApart(stride: nat, j: nat, k: nat)
    requires j < k
    ensures RowStart(stride, j) + stride <= RowStart(stride, k)
  {
    RowInside(stride, j, k);
  }

  function Row(s: seq<int>, stride: nat, j: nat): (row: seq<int>)
    ensures |row| == stride || row == []
  {
    if RowStart(stride, j) + stride <= |s| then s[RowStart(stride, j)..RowStart(stride, j) + stride] else []
  }

  /** Pictures with the same rows are the same. */
  lemma {:induction false} SameRows(a: seq<int>, b: seq<int>, stride: nat, h: nat)
    requires |a| == |b| == RowStart(stride, h)
    requires forall j: nat :: j < h ==> Row(a, stride, j) == Row(b, stride, j)
    ensures a == b
    decreases h
  {
    if h > 0 {
      var cut := RowStart(stride, h - 1);
      forall j: nat | j < h - 1 ensures Row(a[..cut], stride, j) == Row(b[..cut], stride, j) {
        RowInside(stride, j, h - 1);
        assert Row(a, stride, j) == Row(b, stride, j);
        assert Row(a[..cut], stride, j) == Row(a, stride, j);
        assert Row(b[..cut], stride, j) == Row(b, stride, j);
      }
      SameRows(a[..cut], b[..cut], stride, h - 1);
      assert a == a[..cut] + Row(a, stride, h - 1);
      assert b == b[..cut] + Row(b, stride, h - 1);
    }
  }

  /** Red and blue change places in every pixel. */
  function Bgr(s: seq<int>): (t: seq<int>)
    decreases |s|
  {
    if |s| < 3 then [] else [s[2], s[1], s[0]] + Bgr(s[3..])
  }

  lemma {:induction false} BgrTwice(s: seq<int>)
    requires |s| % 3 == 0
    ensures |Bgr(s)| == |s| && Bgr(Bgr(s)) == s
    decreases |s|
  {
    if |s| >= 3 {
      var rest := s[3..];
      BgrTwice(rest);
      assert Bgr(s)[3..] == Bgr(rest);
      assert s == [s[0], s[1], s[2]] + rest;
    }
  }

  lemma {:induction false} BgrNext(s: seq<int>, a: int, b: int, c: int)
    requires |s| % 3 == 0
    ensures Bgr(s + [a, b, c]) == Bgr(s) + [c, b, a]
    decreases |s|
  {
    if |s| < 3 {
      assert s + [a, b, c] == [a, b, c];
      assert [a, b, c][3..] == [];
    } else {
      var rest := s[3..];
      assert (s + [a, b, c])[3..] == rest + [a, b, c];
      BgrNext(rest, a, b, c);
    }
  }

  // ---------- the file ----------

  /** The bytes that fill a row up to whole words. */
  function Pad(w: nat): (pad: nat)
    ensures pad < 4 && (3 * w + pad) % 4 == 0
  {
    (4 - 3 * w % 4) % 4
  }

  function Zeros(n: nat): (z: seq<int>)
    ensures |z| == n
  {
    seq(n, _ => 0)
  }

  function Le16(x: int): (b: seq<int>)
    ensures |b| == 2 && IsBytes(b)
  {
    [x % 256, x / 256 % 256]
  }

  function Le32(x: int): (b: seq<int>)
    ensures |b| == 4 && IsBytes(b)
  {
    [x % 256, x / 256 % 256, x / 0x1_0000 % 256, x / 0x100_0000 % 256]
  }

  function FileHeader(w: nat, h: nat): (b: seq<int>)
    ensures |b| == 14
  {
    [66] + [77] + Le32(14 + 40 + RowStart(3 * w + Pad(w), h)) + Le16(0) + Le16(0) + Le32(14 + 40)
  }

  function BitmapStart(w: nat, h: nat): (b: seq<int>)
    ensures |b| == 30
  {
    FileHeader(w, h) + Le32(40) + Le32(w) + Le32(h) + Le16(1) + Le16(24)
  }

  /** The file header and the bitmap header. */
  function Header(w: nat, h: nat): (b: seq<int>)
    ensures |b| == HEADER_SIZE
  {
    BitmapStart(w, h) + Le32(0) + Le32(0) + Le32(0) + Le32(0) + Le32(0) + Le32(0)
  }

  function FileRow(data: seq<int>, w: nat, j: nat): seq<int> {
    Bgr(Row(data, 3 * w, j)) + Zeros(Pad(w))
  }

  /** Rows n - 1 down to 0. */
  function RowsDown(data: seq<int>, w: nat, n: nat): seq<int> {
    if n == 0 then [] else FileRow(data, w, n - 1) + RowsDown(data, w, n - 1)
  }

  /** The BMP file of an image. */
  function BmpFile(w: nat, h: nat, data: seq<int>): seq<int> {
    Header(w, h) + RowsDown(data, w, h)
  }

  predicate IsImage(w: nat, h: nat, data: seq<int>) {
    |data| == RowStart(3 * w, h) && IsBytes(data)
  }

  lemma {:induction false} FileRowLength(data: seq<int>, w: nat, j: nat)
    requires RowStart(3 * w, j) + 3 * w <= |data|
    ensures |FileRow(data, w, j)| == 3 * w + Pad(w)
  {
    BgrTwice(Row(data, 3 * w, j));
  }

  lemma {:induction false} RowsDownLength(data: seq<int>, w: nat, n: nat)
    requires RowStart(3 * w, n) <= |data|
    ensures |RowsDown(data, w, n)| == RowStart(3 * w + Pad(w), n)
  {
    if n > 0 {
      FileRowLength(data, w, n - 1);
      RowsDownLength(data, w, n - 1);
    }
  }

  /** The m-th row behind the headers is row n - 1 - m of the image. */
  lemma {:induction false} RowInFile(data: seq<int>, w: nat, n: nat, m: nat, stride: nat)
    requires RowStart(3 * w, n) <= |data| && m < n && stride == 3 * w + Pad(w)
    ensures Row(RowsDown(data, w, n), stride, m) == FileRow(data, w, n - 1 - m)
    decreases n
  {
    var last := n - 1;
    var first, rest := FileRow(data, w, last), RowsDown(data, w, last);
    FileRowLength(data, w, last);
    RowsDownLength(data, w, last);
    if m == 0 {
      RowFirst(first, rest, stride, m);
    } else {
      var k := m - 1;
      RowInFile(data, w, last, k, stride);
      RowInside(stride, k, last);
      RowDrop(first, rest, stride, m, k);
    }
  }

  lemma RowFirst(first: seq<int>, rest: seq<int>, stride: nat, m: nat)
    requires |first| == stride && m == 0
    ensures Row(first + rest, stride, m) == first
  {
  }

  lemma RowDrop(first: seq<int>, rest: seq<int>, stride: nat, m: nat, k: nat)
    requires |first| == stride && m == k + 1 && RowStart(stride, k) + stride <= |rest|
    ensures Row(first + rest, stride, m) == Row(rest, stride, k)
  {
    var at := RowStart(stride, k);
    assert (first + rest)[at + stride..at + stride + stride] == rest[at..at + stride];
  }

  // ---------- writing ----------

  /** The sink of save_bmp: a buffer that refuses whatever would not fit. */
  class Sink {
    const buffer: array<int>
    var offset: nat
    /** All bytes offered. */
    ghost var offered: seq<int>

    /** While everything offered fits, everything is there. */
    ghost predicate Valid()
      reads this, buffer
    {
      && offset <= buffer.Length && offset <= |offered|
      && (|offered| <= buffer.Length ==> offset == |offered| && buffer[..offset] == offered)
    }

    constructor (size: nat)
      ensures Valid() && offered == [] && fresh(buffer) && buffer.Length == size
    {
      buffer := new int[size](_ => 0);
      offset, offered := 0, [];
    }

    method Write(data: seq<int>)
      requires Valid()
      modifies `offset, `offered, buffer
      ensures Valid() && offered == old(offered) + data
    {
      offered := offered + data;
      if data == [] {
        assert offered == old(offered);
        return;
      }
      if offset + |data| > buffer.Length {
        return;
      }
      CopyInto(buffer, offset, data);
      offset := offset + |data|;
      assert buffer[..offset] == old(buffer[..offset]) + data;
    }
  }

  /** The write context with its small buffer. */
  class Writer {
    const sink: Sink
    const buffer: array<int>
    var used: nat
    /** Everything written: offered to the sink, or waiting in the buffer. */
    ghost var stream: seq<int>

    ghost predicate Valid()
      reads this, buffer, sink, sink.buffer
    {
      && sink.Valid() && buffer.Length == WRITE_BUFFER && used <= WRITE_BUFFER && buffer != sink.buffer
      && stream == sink.offered + buffer[..used]
    }

    constructor (size: nat)
      ensures Valid() && stream == [] && used == 0 && fresh(sink) && fresh(buffer) && fresh(sink.buffer)
      ensures sink.buffer.Length == size
    {
      sink := new Sink(size);
      buffer := new int[WRITE_BUFFER](_ => 0);
      used, stream := 0, [];
    }

    method Flush()
      requires Valid()
      modifies `used, sink, sink.buffer
      ensures Valid() && used == 0
    {
      if used != 0 {
        ghost var was := sink.offered;
        sink.Write(buffer[..used]);
        used := 0;
        NoneAfter(sink.offered);
      }
    }

    /** Hands bytes to the sink past the buffer, which is empty. */
    method Direct(data: seq<int>)
      requires Valid() && used == 0
      modifies `stream, sink, sink.buffer
      ensures Valid() && stream == old(stream) + data
    {
      sink.Write(data);
      stream := stream + data;
      NoneAfter(sink.offered);
      NoneAfter(old(sink.offered));
    }

    method Write3(a: int, b: int, c: int)
      requires Valid()
      modifies `used, `stream, buffer, sink, sink.buffer
      ensures Valid() && stream == old(stream) + [a, b, c]
    {
      if used + 3 > WRITE_BUFFER {
        Flush();
      }
      Store(a, b, c);
    }

    method Store(a: int, b: int, c: int)
      requires Valid() && used + 3 <= WRITE_BUFFER
      modifies `used, `stream, buffer
      ensures Valid() && stream == old(stream) + [a, b, c]
    {
      ghost var waiting := buffer[..used];
      var n := used;
      used := n + 3;
      buffer[n], buffer[n + 1], buffer[n + 2] := a, b, c;
      assert buffer[..used] == waiting + [a, b, c];
      Assoc(sink.offered, waiting, [a, b, c]);
      stream := stream + [a, b, c];
    }

    /** The pixels of one row, their colours in file order, and the padding behind them. */
    method WriteRow(w: nat, data: seq<int>, j: nat, ghost row: seq<int>)
      requires Valid() && RowStart(3 * w, j) + 3 * w <= |data| && row == Row(data, 3 * w, j)
      modifies this, buffer, sink, sink.buffer
      ensures Valid() && used == 0 && stream == old(stream) + FileRow(data, w, j)
    {
      RowStartIs(3 * w, j);
      PixelPlace(w, j);
      ghost var before := stream;
      var i := 0;
      assert row[..0] == [];
      NoneAfter(before);
      while i < w
        invariant 0 <= i <= w && Valid() && stream == before + Bgr(row[..3 * i])
      {
        var at := (j * w + i) * 3;
        assert at == RowStart(3 * w, j) + 3 * i;
        assert row[..3 * (i + 1)] == row[..3 * i] + [data[at], data[at + 1], data[at + 2]];
        BgrNext(row[..3 * i], data[at], data[at + 1], data[at + 2]);
        Assoc(before, Bgr(row[..3 * i]), [data[at + 2], data[at + 1], data[at]]);
        Write3(data[at + 2], data[at + 1], data[at]);
        i := i + 1;
      }
      assert row[..3 * w] == row;
      Flush();
      Direct(Zeros(Pad(w)));
      Assoc(before, Bgr(row), Zeros(Pad(w)));
    }

    /** The rows from the last to the first. */
    method WritePixels(w: nat, h: nat, data: seq<int>)
      requires Valid() && used == 0 && RowStart(3 * w, h) <= |data|
      modifies this, buffer, sink, sink.buffer
      ensures Valid() && used == 0 && stream == old(stream) + RowsDown(data, w, h)
    {
      ghost var before, goal := stream, stream + RowsDown(data, w, h);
      var j := h;
      while j > 0
        invariant 0 <= j <= h && Valid() && used == 0 && stream + RowsDown(data, w, j) == goal
      {
        RowInside(3 * w, j - 1, h);
        Assoc(stream, FileRow(data, w, j - 1), RowsDown(data, w, j - 1));
        WriteRow(w, data, j - 1, Row(data, 3 * w, j - 1));
        j := j - 1;
      }
      NoneAfter(stream);
    }

    /** What the sink has collected: everything exactly when it fits. */
    method Collected() returns (bytes: seq<int>)
      requires Valid() && used == 0
      ensures bytes == stream <==> |stream| <= sink.buffer.Length
    {
      NoneAfter(sink.offered);
      bytes := sink.buffer[..sink.offset];
    }

    /** The headers, field by field. */
    method WriteHeader(w: nat, h: nat)
      requires Valid() && used == 0 && stream == []
      modifies `stream, sink, sink.buffer
      ensures Valid() && stream == Header(w, h)
    {
      WriteFileHeader(w, h);
      Direct(Le32(40));
      Direct(Le32(w));
      Direct(Le32(h));
      Direct(Le16(1));
      Direct(Le16(24));
      WriteNothings(BitmapStart(w, h));
    }

    method WriteFileHeader(w: nat, h: nat)
      requires Valid() && used == 0 && stream == []
      modifies `stream, sink, sink.buffer
      ensures Valid() && stream == FileHeader(w, h)
    {
      Direct([66]);
      assert stream == [66];
      Direct([77]);
      RowStartIs(3 * w + Pad(w), h);
      assert (w * 3 + Pad(w)) * h == RowStart(3 * w + Pad(w), h);
      Direct(Le32(14 + 40 + (w * 3 + Pad(w)) * h));
      Direct(Le16(0));
      Direct(Le16(0));
      Direct(Le32(14 + 40));
    }

    method WriteNothings(ghost before: seq<int>)
      requires Valid() && used == 0 && stream == before
      modifies `stream, sink, sink.buffer
      ensures Valid() && stream == before + Le32(0) + Le32(0) + Le32(0) + Le32(0) + Le32(0) + Le32(0)
    {
      Direct(Le32(0));
      Direct(Le32(0));
      Direct(Le32(0));
      Direct(Le32(0));
      Direct(Le32(0));
      Direct(Le32(0));
    }
  }

  lemma PixelPlace(w: nat, j: nat)
    ensures forall i :: (j * w + i) * 3 == (3 * w) * j + 3 * i
  {
  }

  /** What save_bmp collects: all of the file exactly when the padding of all rows fits what
      the sink has to spare beside the headers. */
  method Save(w: nat, h: nat, data: seq<int>) returns (file: seq<int>)
    requires IsImage(w, h, data)
    ensures file == BmpFile(w, h, data) <==> RowStart(Pad(w), h) <= SINK_SLACK - HEADER_SIZE
  {
    SinkSize(w, h);
    var size := w * h * 3 + SINK_SLACK;
    FileFits(w, h, data, size);
    file := Collect(w, h, data, size);
  }

  lemma SinkSize(w: nat, h: nat)
    ensures w * h * 3 == RowStart(3 * w, h)
  {
    RowStartIs(3 * w, h);
  }

  method Collect(w: nat, h: nat, data: seq<int>, size: nat) returns (file: seq<int>)
    requires RowStart(3 * w, h) <= |data|
    ensures file == BmpFile(w, h, data) <==> |BmpFile(w, h, data)| <= size
  {
    var writer := new Writer(size);
    writer.WriteHeader(w, h);
    writer.WritePixels(w, h, data);
    file := writer.Collected();
  }

  lemma {:induction false} FileFits(w: nat, h: nat, data: seq<int>, size: nat)
    requires IsImage(w, h, data) && size == RowStart(3 * w, h) + SINK_SLACK
    ensures |BmpFile(w, h, data)| <= size <==> RowStart(Pad(w), h) <= SINK_SLACK - HEADER_SIZE
  {
    FileLength(w, h, data);
  }

  /** An image whose padding does not fit: one pixel wide and 459 high. */
  lemma OverfullExists() returns (w: nat, h: nat, data: seq<int>)
    ensures IsImage(w, h, data) && SizesValid(w, h)
    ensures RowStart(Pad(w), h) > SINK_SLACK - HEADER_SIZE
    ensures |BmpFile(w, h, data)| > w * h * 3 + SINK_SLACK
  {
    w, h := 1, 459;
    var row := 3 * w;
    data := seq(RowStart(row, h), _ => 0);
    RowStartIs(Pad(w), h);
    SinkSize(w, h);
    FileFits(w, h, data, w * h * 3 + SINK_SLACK);
    assert Mul2Valid(3, h);
  }

  lemma {:induction false} FileLength(w: nat, h: nat, data: seq<int>)
    requires IsImage(w, h, data)
    ensures |BmpFile(w, h, data)| == HEADER_SIZE + RowStart(3 * w, h) + RowStart(Pad(w), h)
  {
    RowsDownLength(data, w, h);
    RowStartSum(3 * w, Pad(w), h);
  }

  lemma {:induction false} RowStartSum(a: nat, b: nat, j: nat)
    ensures RowStart(a + b, j) == RowStart(a, j) + RowStart(b, j)
  {
    if j > 0 { RowStartSum(a, b, j - 1); }
  }

  // ---------- loading ----------

  /** The byte at a place; zeros follow the end of the file. */
  function At(file: seq<int>, k: nat): int {
    if k < |file| then file[k] else 0
  }

  function At16(file: seq<int>, k: nat): int {
    At(file, k) + 256 * At(file, k + 1)
  }

  function At32(file: seq<int>, k: nat): int {
    At16(file, k) + 0x1_0000 * At16(file, k + 2)
  }

  /** A 32-bit number as a signed one. */
  function Signed(x: int): int {
    if x < 0x8000_0000 then x else x - 0x1_0000_0000
  }

  /** n bytes from a place on. */
  function Bytes(file: seq<int>, k: nat, n: nat): (b: seq<int>)
    ensures |b| == n
  {
    seq(n, i requires 0 <= i < n => At(file, k + i))
  }

  predicate Mul2Valid(a: nat, b: nat) {
    b == 0 || a <= INT_MAX / b
  }

  predicate SizesValid(x: nat, y: nat) {
    Mul2Valid(3, x) && Mul2Valid(3 * x, y)
  }

  function Height(file: seq<int>): nat {
    var y := Signed(At32(file, 22));
    if y < 0 then -y else y
  }

  /** How much of the headers there is. */
  function HeaderRead(file: seq<int>): nat {
    if |file| < HEADER_SIZE then |file| else HEADER_SIZE
  }

  /** What the loader accepts of 24-bit files with a 40-byte bitmap header. */
  predicate Loadable(file: seq<int>) {
    var offset, x, y, header := Signed(At32(file, 10)), At32(file, 18), Height(file), HeaderRead(file);
    && HeaderOk(file)
    && 0 <= x <= MAX_DIMENSIONS && y <= MAX_DIMENSIONS
    && 0 < header <= offset <= header + EXTRA_DATA_LIMIT
    && SizesValid(x, y)
  }

  /** Uncompressed 24-bit pixels behind a 40-byte bitmap header; the compression is signed. */
  predicate HeaderOk(file: seq<int>) {
    && At(file, 0) == 66 && At(file, 1) == 77 && Signed(At32(file, 10)) >= 0 && Signed(At32(file, 14)) == 40
    && BitmapHeaderOk(file)
  }

  predicate BitmapHeaderOk(file: seq<int>) {
    var compress := Signed(At32(file, 30));
    && At16(file, 26) == 1 && At16(file, 28) == 24
    && compress < 4 && compress != 1 && compress != 2 && compress != 3
  }

  /** Where the pixels are read: the gap behind the headers is skipped twice. */
  function PixelStart(file: seq<int>): nat
    requires Loadable(file)
  {
    PixelPlaceOf(file, Signed(At32(file, 10)))
  }

  function PixelPlaceOf(file: seq<int>, offset: nat): int {
    HEADER_SIZE + (offset - HeaderRead(file)) + if offset > HEADER_SIZE then offset - HEADER_SIZE else 0
  }

  /** The pixels hold the h rows that begin at a place of the file, their colours changed
      back, from the last to the first when they are flipped. */
  ghost predicate Holds(pixels: seq<int>, file: seq<int>, from: nat, w: nat, h: nat, flip: bool) {
    && |pixels| == RowStart(3 * w, h)
    && forall j: nat :: j < h ==> Row(pixels, 3 * w, j) == PixelRow(file, from, w, if flip then h - 1 - j else j)
  }

  function PixelRow(file: seq<int>, from: nat, w: nat, j: nat): seq<int> {
    Bgr(Bytes(file, from + RowStart(3 * w + Pad(w), j), 3 * w))
  }

  /** The picture in a file: bottom-up for a positive height. */
  ghost predicate IsPicture(file: seq<int>, pixels: seq<int>)
    requires Loadable(file)
  {
    Holds(pixels, file, PixelStart(file), At32(file, 18), Height(file), Signed(At32(file, 22)) > 0)
  }

  datatype Loaded = Image(w: nat, h: nat, pixels: seq<int>) | Failed | Unmodelled

  /** Reads a file from memory. */
  class Reader {
    const file: seq<int>
    var pos: nat
    /** How many bytes have been asked for. */
    ghost var asked: nat

    ghost predicate Valid()
      reads this
    {
      IsBytes(file) && if asked < |file| then pos == asked else pos >= |file|
    }

    constructor (file: seq<int>)
      requires IsBytes(file)
      ensures Valid() && this.file == file && asked == 0 && pos == 0
    {
      this.file, pos, asked := file, 0, 0;
    }

    method Get8() returns (b: int)
      requires Valid()
      modifies this
      ensures Valid() && b == At(file, old(asked)) && 0 <= b < 256 && asked == old(asked) + 1
      ensures old(pos) <= |file| ==> pos <= |file|
    {
      asked := asked + 1;
      if pos < |file| {
        b := file[pos];
        pos := pos + 1;
      } else {
        b := 0;
      }
    }

    method Get16() returns (x: int)
      requires Valid()
      modifies this
      ensures Valid() && x == At16(file, old(asked)) && 0 <= x < 0x1_0000 && asked == old(asked) + 2
      ensures old(pos) <= |file| ==> pos <= |file|
    {
      var lo := Get8();
      var hi := Get8();
      x := lo + 256 * hi;
    }

    method Get32() returns (x: int)
      requires Valid()
      modifies this
      ensures Valid() && x == At32(file, old(asked)) && 0 <= x < 0x1_0000_0000 && asked == old(asked) + 4
      ensures old(pos) <= |file| ==> pos <= |file|
    {
      var lo := Get16();
      var hi := Get16();
      x := lo + 0x1_0000 * hi;
    }

    /** Passes over bytes; a negative count goes to the end of the file. */
    method Skip(n: int)
      requires Valid()
      modifies this
      ensures Valid() && asked == if n < 0 && old(asked) < |file| then |file| else if n < 0 then old(asked) else old(asked) + n
      ensures n == 0 ==> pos == old(pos)
    {
      if n == 0 {
        return;
      }
      if n < 0 {
        pos := |file|;
        asked := if asked < |file| then |file| else asked;
        return;
      }
      pos := pos + n;
      asked := asked + n;
    }

    method Discard(fields: nat)
      requires Valid()
      modifies this
      ensures Valid() && asked == old(asked) + 4 * fields
      ensures old(pos) <= |file| ==> pos <= |file|
    {
      var k := 0;
      while k < fields
        invariant 0 <= k <= fields && Valid() && asked == old(asked) + 4 * k && (old(pos) <= |file| ==> pos <= |file|)
      {
        var _ := Get32();
        k := k + 1;
      }
    }

    /** One row of pixels into the picture, and the padding behind it. */
    method ReadRow(out: array<int>, w: nat, z: nat)
      requires Valid() && z + 3 * w <= out.Length
      modifies this, out
      ensures Valid() && asked == old(asked) + 3 * w
      ensures out[..] == old(out[..z]) + Bgr(Bytes(file, old(asked), 3 * w)) + old(out[z + 3 * w..])
    {
      ghost var front, from, was := out[..z], asked, out[..];
      ghost var row: seq<int> := [];
      var i := 0;
      assert out[..z] == front + row;
      while i < w
        invariant 0 <= i <= w && Valid() && asked == from + 3 * i && |row| == 3 * i
        invariant row == Bgr(Bytes(file, from, 3 * i)) && out[..z + 3 * i] == front + row
        invariant out[z + 3 * i..] == was[z + 3 * i..]
      {
        var b := Get8();
        var g := Get8();
        var r := Get8();
        PixelRead(file, from, 3 * i, 3 * i + 3);
        ghost var longer := row + [r, g, b];
        PutPixel(out, z + 3 * i, r, g, b, front + row, was);
        Assoc(front, row, [r, g, b]);
        row := longer;
        i := i + 1;
      }
      assert out[..] == out[..z + 3 * i] + out[z + 3 * i..];
    }
  }

  method PutPixel(out: array<int>, z: nat, r: int, g: int, b: int, ghost front: seq<int>, ghost was: seq<int>)
    requires z + 3 <= out.Length == |was| && out[..z] == front && out[z..] == was[z..]
    modifies out
    ensures out[..z + 3] == front + [r, g, b] && out[z + 3..] == was[z + 3..]
  {
    out[z + 2] := b;
    out[z + 1] := g;
    out[z] := r;
    forall k | z + 3 <= k < out.Length ensures out[k] == was[k] {
      assert old(out[z..])[k - z] == was[z..][k - z];
    }
  }

  lemma {:induction false} PixelRead(file: seq<int>, from: nat, n: nat, next: nat)
    requires n % 3 == 0 && next == n + 3
    ensures Bgr(Bytes(file, from, next)) == Bgr(Bytes(file, from, n)) + [At(file, from + n + 2), At(file, from + n + 1), At(file, from + n)]
  {
    var a, b, c := At(file, from + n), At(file, from + n + 1), At(file, from + n + 2);
    assert Bytes(file, from, next) == Bytes(file, from, n) + [a, b, c];
    BgrNext(Bytes(file, from, n), a, b, c);
  }

  // ---------- flipping ----------

  /** Swaps two rows of the picture. */
  method SwapRows(out: array<int>, p1: nat, p2: nat, stride: nat)
    requires p1 + stride <= p2 && p2 + stride <= out.Length
    modifies out
    ensures out[p1..p1 + stride] == old(out[p2..p2 + stride]) && out[p2..p2 + stride] == old(out[p1..p1 + stride])
    ensures forall k :: 0 <= k < out.Length && !(p1 <= k < p1 + stride) && !(p2 <= k < p2 + stride) ==> out[k] == old(out[k])
  {
    var i := 0;
    while i < stride
      invariant 0 <= i <= stride
      invariant forall k :: 0 <= k < out.Length ==>
        out[k] == if p1 <= k < p1 + i then old(out[k - p1 + p2]) else if p2 <= k < p2 + i then old(out[k - p2 + p1]) else old(out[k])
    {
      var t := out[p1 + i];
      out[p1 + i] := out[p2 + i];
      out[p2 + i] := t;
      i := i + 1;
    }
  }

  predicate InRow(stride: nat, j: nat, i: int) {
    RowStart(stride, j) <= i < RowStart(stride, j) + stride
  }

  /** Nothing but rows a and b differs. */
  ghost predicate OnlyRows(was: seq<int>, now: seq<int>, stride: nat, a: nat, b: nat) {
    && |was| == |now|
    && forall i :: 0 <= i < |now| && !InRow(stride, a, i) && !InRow(stride, b, i) ==> now[i] == was[i]
  }

  /** A row beside two that were changed. */
  lemma {:induction false} RowKept(was: seq<int>, now: seq<int>, stride: nat, h: nat, k: nat, a: nat, b: nat)
    requires |was| == RowStart(stride, h) && OnlyRows(was, now, stride, a, b)
    requires k < h && a < h && b < h && k != a && k != b
    ensures Row(now, stride, k) == Row(was, stride, k)
  {
    RowInside(stride, k, h);
    if a < k { RowsApart(stride, a, k); } else { RowsApart(stride, k, a); }
    if b < k { RowsApart(stride, b, k); } else { RowsApart(stride, k, b); }
    var at := RowStart(stride, k);
    forall i | at <= i < at + stride ensures now[i] == was[i] {
      assert !InRow(stride, a, i) && !InRow(stride, b, i);
    }
    assert now[at..at + stride] == was[at..at + stride];
  }

  /** The row that row k is exchanged with, once the first j pairs have been exchanged. */
  function Mirror(h: nat, j: nat, k: nat): nat
    requires k < h
  {
    if k < j || h - 1 - k < j then h - 1 - k else k
  }

  ghost predicate PartlyFlipped(was: seq<int>, now: seq<int>, stride: nat, h: nat, j: nat) {
    && |now| == |was| == RowStart(stride, h)
    && forall k: nat :: k < h ==> Row(now, stride, k) == Row(was, stride, Mirror(h, j, k))
  }

  lemma {:induction false} FlipNext(was: seq<int>, mid: seq<int>, now: seq<int>, stride: nat, h: nat, j: nat, next: nat, m: nat)
    requires PartlyFlipped(was, mid, stride, h, j) && m == h - 1 - j && j < m && next == j + 1
    requires Row(now, stride, j) == Row(mid, stride, m) && Row(now, stride, m) == Row(mid, stride, j)
    requires OnlyRows(mid, now, stride, j, m)
    ensures PartlyFlipped(was, now, stride, h, next)
  {
    forall k: nat | k < h ensures Row(now, stride, k) == Row(was, stride, Mirror(h, next, k)) {
      if k != j && k != m { RowKept(mid, now, stride, h, k, j, m); }
    }
  }

  /** Exchanges row j with its mirror image. */
  method FlipPair(out: array<int>, stride: nat, h: nat, j: nat, m: nat, ghost was: seq<int>)
    requires m == h - 1 - j && j < m && PartlyFlipped(was, out[..], stride, h, j)
    modifies out
    ensures PartlyFlipped(was, out[..], stride, h, j + 1)
  {
    ghost var mid := out[..];
    RowStartIs(stride, j);
    RowStartIs(stride, m);
    RowInside(stride, m, h);
    RowsApart(stride, j, m);
    var p1, p2 := j * stride, m * stride;
    assert p1 == RowStart(stride, j) && p2 == RowStart(stride, m);
    SwapRows(out, p1, p2, stride);
    assert Row(out[..], stride, j) == Row(mid, stride, m) && Row(out[..], stride, m) == Row(mid, stride, j);
    FlipNext(was, mid, out[..], stride, h, j, j + 1, m);
  }

  /** Turns the picture upside down in place. */
  method Flip(out: array<int>, stride: nat, h: nat)
    requires out.Length == RowStart(stride, h)
    modifies out
    ensures forall k: nat :: k < h ==> Row(out[..], stride, k) == Row(old(out[..]), stride, h - 1 - k)
  {
    ghost var was := out[..];
    var j := 0;
    while j < h / 2
      invariant 0 <= j <= h / 2 && PartlyFlipped(was, out[..], stride, h, j)
    {
      FlipPair(out, stride, h, j, h - 1 - j, was);
      j := j + 1;
    }
    AllFlipped(was, out[..], stride, h, j);
  }

  lemma {:induction false} AllFlipped(was: seq<int>, now: seq<int>, stride: nat, h: nat, j: nat)
    requires PartlyFlipped(was, now, stride, h, j) && j == h / 2
    ensures forall k: nat :: k < h ==> Row(now, stride, k) == Row(was, stride, h - 1 - k)
  {
    forall k: nat | k < h ensures Row(now, stride, k) == Row(was, stride, h - 1 - k) {
      assert Mirror(h, j, k) == h - 1 - k;
    }
  }

  // ---------- the loader ----------

  datatype Info = Bad | Other | Info(offset: nat, x: nat, y: int)

  /** Parses the headers; other kinds of BMP files than 24-bit ones with a 40-byte bitmap
      header are not part of this model. */
  method ParseHeader(s: Reader) returns (info: Info)
    requires s.Valid() && s.asked == 0 && s.pos == 0
    modifies s
    ensures s.Valid() && s.pos <= |s.file|
    ensures info.Info? ==>
      && s.asked == HEADER_SIZE
      && info == Info(At32(s.file, 10), At32(s.file, 18), Signed(At32(s.file, 22)))
    ensures info.Info? <==> HeaderOk(s.file)
  {
    info := Bad;
    var b := s.Get8();
    if b != 66 {
      return;
    }
    b := s.Get8();
    if b != 77 {
      return;
    }
    s.Discard(2);  // the file size and two reserved fields
    var offset := s.Get32();
    var hsz := s.Get32();
    if Signed(offset) < 0 {
      return;
    }
    if Signed(hsz) != 40 {
      return if Signed(hsz) in {12, 56, 108, 124} then Other else Bad;
    }
    info := ParseBitmapHeader(s, offset);
  }

  method ParseBitmapHeader(s: Reader, offset: nat) returns (info: Info)
    requires s.Valid() && s.asked == 18 && s.pos <= |s.file|
    modifies s
    ensures s.Valid() && s.pos <= |s.file|
    ensures info.Info? ==> s.asked == HEADER_SIZE && info == Info(offset, At32(s.file, 18), Signed(At32(s.file, 22)))
    ensures info.Info? <==> BitmapHeaderOk(s.file)
  {
    info := Bad;
    var x := s.Get32();
    var y := s.Get32();
    var planes := s.Get16();
    if planes != 1 {
      return;
    }
    var bpp := s.Get16();
    var compress := s.Get32();
    if Signed(compress) == 1 || Signed(compress) == 2 || Signed(compress) >= 4 {
      return;
    }
    if Signed(compress) == 3 && bpp != 16 && bpp != 32 {
      return;
    }
    s.Discard(5);
    info := if bpp == 24 then Info(offset, x, Signed(y)) else Other;
  }

  lemma RowBefore(was: seq<int>, now: seq<int>, stride: nat, k: nat, z: nat)
    requires RowStart(stride, k) + stride <= z <= |was| && |now| == |was| && now[..z] == was[..z]
    ensures Row(now, stride, k) == Row(was, stride, k)
  {
    var a := RowStart(stride, k);
    forall i | a <= i < a + stride ensures now[i] == was[i] {
      assert now[..z][i] == was[..z][i];
    }
    assert now[a..a + stride] == was[a..a + stride];
  }

  lemma Spliced(was: seq<int>, row: seq<int>, z: nat, stride: nat, now: seq<int>)
    requires z + stride <= |was| && |row| == stride && now == was[..z] + row + was[z + stride..]
    ensures |now| == |was| && now[..z] == was[..z] && now[z..z + stride] == row
  {
  }

  lemma {:induction false} RowRead(was: seq<int>, now: seq<int>, stride: nat, j: nat, row: seq<int>, z: nat)
    requires z == RowStart(stride, j) && |row| == stride && z + stride <= |was|
    requires now == was[..z] + row + was[z + stride..]
    ensures Row(now, stride, j) == row && forall k: nat :: k < j ==> Row(now, stride, k) == Row(was, stride, k)
  {
    Spliced(was, row, z, stride, now);
    forall k: nat | k < j ensures Row(now, stride, k) == Row(was, stride, k) {
      RowsApart(stride, k, j);
      RowBefore(was, now, stride, k, z);
    }
  }

  ghost predicate RowsRead(out: seq<int>, file: seq<int>, from: nat, w: nat, n: nat) {
    forall k: nat :: k < n ==> Row(out, 3 * w, k) == PixelRow(file, from, w, k)
  }

  lemma {:induction false} RowsReadNext(was: seq<int>, now: seq<int>, file: seq<int>, from: nat, w: nat, j: nat,
                                        z: nat, row: seq<int>)
    requires RowsRead(was, file, from, w, j) && z + 3 * w <= |was|
    requires row == PixelRow(file, from, w, j) && z == RowStart(3 * w, j)
    requires now == was[..z] + row + was[z + 3 * w..]
    ensures RowsRead(now, file, from, w, j + 1)
  {
    BgrTwice(Bytes(file, from + RowStart(3 * w + Pad(w), j), 3 * w));
    RowRead(was, now, 3 * w, j, row, z);
  }

  /** Reads a row and the padding behind it. */
  method ReadNext(s: Reader, out: array<int>, w: nat, h: nat, j: nat, z: nat, pad: nat, ghost from: nat)
    requires s.Valid() && j < h && out.Length == RowStart(3 * w, h) && z == RowStart(3 * w, j) && pad == Pad(w)
    requires s.asked == from + RowStart(3 * w + pad, j) && RowsRead(out[..], s.file, from, w, j)
    modifies s, out
    ensures s.Valid() && s.asked == from + RowStart(3 * w + pad, j + 1) && RowsRead(out[..], s.file, from, w, j + 1)
  {
    ghost var was, row := out[..], PixelRow(s.file, from, w, j);
    RowInside(3 * w, j, h);
    s.ReadRow(out, w, z);
    RowsReadNext(was, out[..], s.file, from, w, j, z, row);
    s.Skip(pad);
  }

  /** Reads the rows, and turns them upside down if the file is bottom-up. */
  method ReadPicture(s: Reader, w: nat, h: nat, flip: bool) returns (pixels: seq<int>)
    requires s.Valid()
    modifies s
    ensures Holds(pixels, s.file, old(s.asked), w, h, flip)
  {
    RowStartIs(3 * w, h);
    var out := new int[3 * w * h](_ => 0);
    ghost var from := s.asked;
    var j := 0;
    while j < h
      invariant 0 <= j <= h && s.Valid() && s.asked == from + RowStart(3 * w + Pad(w), j)
      invariant RowsRead(out[..], s.file, from, w, j)
    {
      RowStartIs(3 * w, j);
      ReadNext(s, out, w, h, j, 3 * w * j, Pad(w), from);
      j := j + 1;
    }
    if flip {
      Flip(out, 3 * w, h);
    }
    pixels := out[..];
  }

  /** Loads a BMP file held in memory as RGB888. */
  method Load(file: seq<int>, memory: bool) returns (r: Loaded)
    requires IsBytes(file)
    ensures r.Image? <==> memory && Loadable(file)
    ensures r.Image? ==> r.w == At32(file, 18) && r.h == Height(file) && IsPicture(file, r.pixels)
  {
    var s := new Reader(file);
    var info := ParseHeader(s);
    if !info.Info? {
      return if info == Bad then Failed else Unmodelled;
    }
    LimitsAre(file, info);
    r := LoadKnown(s, info, memory);
  }

  /** Loads a file whose headers have been parsed. */
  method LoadKnown(s: Reader, info: Info, memory: bool) returns (r: Loaded)
    requires s.Valid() && s.asked == HEADER_SIZE && s.pos <= |s.file| && info.Info?
    modifies s
    ensures r.Image? || r == Failed
    ensures var h := if info.y < 0 then -info.y else info.y;
      && (r.Image? <==>
            && memory && info.x <= MAX_DIMENSIONS && h <= MAX_DIMENSIONS
            && 0 < HeaderRead(s.file) <= info.offset <= HeaderRead(s.file) + EXTRA_DATA_LIMIT && SizesValid(info.x, h))
      && (r.Image? ==>
            && r.w == info.x && r.h == h
            && PixelPlaceOf(s.file, info.offset) >= 0
            && Holds(r.pixels, s.file, PixelPlaceOf(s.file, info.offset), info.x, h, info.y > 0))
  {
    var flip := info.y > 0;
    var w, h: nat := info.x, if info.y < 0 then -info.y else info.y;
    if h > MAX_DIMENSIONS || w > MAX_DIMENSIONS {
      return Failed;
    }
    r := LoadPixels(s, info.offset, w, h, flip, memory);
  }

  /** What the limits say about a file whose headers have been parsed. */
  lemma LimitsAre(file: seq<int>, info: Info)
    requires IsBytes(file) && HeaderOk(file) && info.Info?
    requires info.offset == At32(file, 10) && info.x == At32(file, 18) && info.y == Signed(At32(file, 22))
    ensures info.offset == Signed(At32(file, 10)) && Height(file) == if info.y < 0 then -info.y else info.y
    ensures Loadable(file) <==>
      && info.x <= MAX_DIMENSIONS && Height(file) <= MAX_DIMENSIONS
      && 0 < HeaderRead(file) <= info.offset <= HeaderRead(file) + EXTRA_DATA_LIMIT && SizesValid(info.x, Height(file))
    ensures Loadable(file) ==> PixelStart(file) == PixelPlaceOf(file, info.offset)
  {
  }

  /** Loads the pixels behind the headers. */
  method LoadPixels(s: Reader, offset: nat, w: nat, h: nat, flip: bool, memory: bool) returns (r: Loaded)
    requires s.Valid() && s.asked == HEADER_SIZE && s.pos <= |s.file|
    modifies s
    ensures r.Image? || r == Failed
    ensures r.Image? <==>
      && memory && 0 < HeaderRead(s.file) <= offset <= HeaderRead(s.file) + EXTRA_DATA_LIMIT && SizesValid(w, h)
    ensures r.Image? ==>
      && r.w == w && r.h == h
      && PixelPlaceOf(s.file, offset) >= 0
      && Holds(r.pixels, s.file, PixelPlaceOf(s.file, offset), w, h, flip)
  {
    var ok := SkipGap(s, offset);
    if !ok || !SizesValid(w, h) || !memory {
      return Failed;
    }
    SkipAgain(s, offset - 14 - 40);
    var pixels := ReadPicture(s, w, h, flip);
    r := Image(w, h, pixels);
  }

  method SkipAgain(s: Reader, n: int)
    requires s.Valid() && (n < 0 ==> s.asked >= |s.file|)
    modifies s
    ensures s.Valid() && s.asked == old(s.asked) + if n > 0 then n else 0
  {
    s.Skip(n);
  }

  /** Skips what the offset says is between the headers and the pixels, within limits. */
  method SkipGap(s: Reader, offset: nat) returns (ok: bool)
    requires s.Valid() && s.asked == HEADER_SIZE && s.pos <= |s.file|
    modifies s
    ensures s.Valid() && (ok <==> 0 < HeaderRead(s.file) <= offset <= HeaderRead(s.file) + EXTRA_DATA_LIMIT)
    ensures ok ==> s.asked == HEADER_SIZE + (offset - HeaderRead(s.file))
  {
    var read := s.pos;
    assert read == HeaderRead(s.file);
    if read <= 0 || read > 1024 || offset < read || offset - read > EXTRA_DATA_LIMIT {
      return false;
    }
    s.Skip(offset - read);
    ok := true;
  }

  /** The pixels are read where the header says that they are only when nothing is between. */
  lemma PixelsAtOffset(file: seq<int>)
    requires Loadable(file) && |file| >= HEADER_SIZE
    ensures PixelStart(file) == Signed(At32(file, 10)) <==> Signed(At32(file, 10)) == HEADER_SIZE
  {
  }

  function GapByte(i: nat): int {
    match i
    case 0 => 66
    case 1 => 77
    case 10 => 56
    case 14 => 40
    case 28 => 24
    case _ => if i == 18 || i == 22 || i == 26 then 1 else 0
  }

  /** A file that is loaded although two bytes are between its headers and its pixels: they
      are at 56, and read from 58. */
  lemma GapExists() returns (file: seq<int>)
    ensures IsBytes(file) && |file| >= HEADER_SIZE && Loadable(file)
    ensures Signed(At32(file, 10)) == 56 && PixelStart(file) == 58
  {
    file := seq(60, i requires i >= 0 => GapByte(i));
    assert At(file, 0) == 66 && At(file, 1) == 77;
    assert At(file, 10) == 56 && At(file, 11) == At(file, 12) == At(file, 13) == 0;
    assert At(file, 14) == 40 && At(file, 15) == At(file, 16) == At(file, 17) == 0;
    assert At(file, 18) == 1 && At(file, 19) == At(file, 20) == At(file, 21) == 0;
    assert At(file, 22) == 1 && At(file, 23) == At(file, 24) == At(file, 25) == 0;
    assert At(file, 26) == 1 && At(file, 27) == 0 && At(file, 28) == 24 && At(file, 29) == 0;
    assert At(file, 30) == At(file, 31) == At(file, 32) == At(file, 33) == 0;
    assert Mul2Valid(3, 1);
  }

  // ---------- the round trip ----------

  lemma FieldAt(prefix: seq<int>, field: seq<int>, all: seq<int>, k: nat)
    requires |prefix| == k && prefix + field <= all
    ensures forall i: nat :: i < |field| ==> At(all, k + i) == field[i]
  {
    forall i: nat | i < |field| ensures At(all, k + i) == field[i] {
      assert (prefix + field)[k + i] == field[i];
    }
  }

  lemma Field32(prefix: seq<int>, x: int, all: seq<int>, k: nat)
    requires |prefix| == k && prefix + Le32(x) <= all && 0 <= x < 0x1_0000_0000
    ensures At32(all, k) == x
  {
    FieldAt(prefix, Le32(x), all, k);
    assert At(all, k + 0) == x % 256 && At(all, k + 1) == x / 256 % 256;
    assert At(all, k + 2) == x / 0x1_0000 % 256 && At(all, k + 3) == x / 0x100_0000 % 256;
    var a := x / 256;
    var b := a / 256;
    assert b == x / 0x1_0000 && b / 256 == x / 0x100_0000;
  }

  lemma Field16(prefix: seq<int>, x: int, all: seq<int>, k: nat)
    requires |prefix| == k && prefix + Le16(x) <= all && 0 <= x < 0x1_0000
    ensures At16(all, k) == x
  {
    FieldAt(prefix, Le16(x), all, k);
    assert At(all, k + 0) == x % 256 && At(all, k + 1) == x / 256 % 256;
  }

  /** The fields of the file header are read as they were written. */
  lemma FileFields(w: nat, h: nat, all: seq<int>)
    requires FileHeader(w, h) <= all
    ensures At(all, 0) == 66 && At(all, 1) == 77 && At32(all, 10) == HEADER_SIZE
  {
    var size := Le32(14 + 40 + RowStart(3 * w + Pad(w), h));
    var p := [66] + [77] + size + Le16(0) + Le16(0);
    assert p[0] == 66 && p[1] == 77;
    Field32(p, 14 + 40, all, 10);
    assert all[0] == p[0] && all[1] == p[1];
  }

  lemma BitmapFields(w: nat, h: nat, p: seq<int>, all: seq<int>)
    requires w <= MAX_DIMENSIONS && h <= MAX_DIMENSIONS && |p| == 14
    requires p + Le32(40) + Le32(w) + Le32(h) + Le16(1) + Le16(24) + Le32(0) <= all
    ensures At32(all, 14) == 40 && At32(all, 18) == w && At32(all, 22) == h
    ensures At16(all, 26) == 1 && At16(all, 28) == 24 && At32(all, 30) == 0
  {
    var p1 := p + Le32(40);
    var p2 := p1 + Le32(w);
    var p3 := p2 + Le32(h);
    var p4 := p3 + Le16(1);
    var p5 := p4 + Le16(24);
    Field32(p5, 0, all, 30);
    Shorter(p5, Le32(0), all);
    Field16(p4, 24, all, 28);
    Shorter(p4, Le16(24), all);
    Field16(p3, 1, all, 26);
    Shorter(p3, Le16(1), all);
    Field32(p2, h, all, 22);
    Shorter(p2, Le32(h), all);
    Field32(p1, w, all, 18);
    Shorter(p1, Le32(w), all);
    Field32(p, 40, all, 14);
  }

  lemma Shorter(a: seq<int>, b: seq<int>, all: seq<int>)
    requires a + b <= all
    ensures a <= all
  {
    assert (a + b)[..|a|] == a;
  }

  lemma HeaderFields(w: nat, h: nat, rest: seq<int>)
    requires w <= MAX_DIMENSIONS && h <= MAX_DIMENSIONS
    ensures var all := Header(w, h) + rest;
      && At(all, 0) == 66 && At(all, 1) == 77 && At32(all, 10) == HEADER_SIZE && At32(all, 14) == 40
      && At32(all, 18) == w && At32(all, 22) == h && At16(all, 26) == 1 && At16(all, 28) == 24 && At32(all, 30) == 0
  {
    var all, start := Header(w, h) + rest, BitmapStart(w, h);
    HeaderPrefix(start, rest, all);
    BitmapFields(w, h, FileHeader(w, h), all);
    var p := FileHeader(w, h);
    Shorter5(p, Le32(40), Le32(w), Le32(h), Le16(1), Le16(24), start, all);
    FileFields(w, h, all);
  }

  lemma HeaderPrefix(start: seq<int>, rest: seq<int>, all: seq<int>)
    requires all == start + Le32(0) + Le32(0) + Le32(0) + Le32(0) + Le32(0) + Le32(0) + rest
    ensures start + Le32(0) <= all && start <= all
  {
    var p := start + Le32(0);
    assert all[..|p|] == p;
    Shorter(start, Le32(0), all);
  }

  lemma Shorter5(p: seq<int>, a: seq<int>, b: seq<int>, c: seq<int>, d: seq<int>, e: seq<int>, start: seq<int>, all: seq<int>)
    requires start == p + a + b + c + d + e && start <= all
    ensures p <= all
  {
    Shorter(p + a + b + c + d, e, all);
    Shorter(p + a + b + c, d, all);
    Shorter(p + a + b, c, all);
    Shorter(p + a, b, all);
    Shorter(p, a, all);
  }

  lemma {:induction false} BgrBytes(s: seq<int>)
    requires IsBytes(s)
    ensures IsBytes(Bgr(s))
    decreases |s|
  {
    if |s| >= 3 { BgrBytes(s[3..]); }
  }

  lemma {:induction false} RowsBytes(data: seq<int>, w: nat, n: nat)
    requires IsBytes(data)
    ensures IsBytes(RowsDown(data, w, n))
  {
    if n > 0 {
      BgrBytes(Row(data, 3 * w, n - 1));
      RowsBytes(data, w, n - 1);
    }
  }

  /** A row of the file is read where it was written. */
  lemma {:induction false} RowBack(w: nat, h: nat, data: seq<int>, header: seq<int>, rows: seq<int>, j: nat, m: nat)
    requires IsImage(w, h, data) && j < h && m == h - 1 - j && |header| == HEADER_SIZE && rows == RowsDown(data, w, h)
    ensures PixelRow(header + rows, HEADER_SIZE, w, m) == Row(data, 3 * w, j)
  {
    var row := Row(data, 3 * w, j);
    var at, stride := RowWritten(w, h, data, rows, row, j, m);
    BgrTwice(row);
    PixelsRead(header, rows, at, stride, row, w, m);
  }

  /** Where a row of the image is among the rows of the file. */
  lemma {:induction false} RowWritten(w: nat, h: nat, data: seq<int>, rows: seq<int>, row: seq<int>, j: nat, m: nat)
    returns (at: nat, stride: nat)
    requires IsImage(w, h, data) && j < h && m == h - 1 - j && rows == RowsDown(data, w, h) && row == Row(data, 3 * w, j)
    ensures at == RowStart(3 * w + Pad(w), m) && at + stride <= |rows| && |row| == 3 * w
    ensures rows[at..at + stride] == Bgr(row) + Zeros(Pad(w))
  {
    stride := 3 * w + Pad(w);
    at := RowStart(stride, m);
    RowInFile(data, w, h, m, stride);
    RowsDownLength(data, w, h);
    RowInside(stride, m, h);
    RowInside(3 * w, j, h);
  }

  lemma PixelsRead(header: seq<int>, rows: seq<int>, at: nat, stride: nat, row: seq<int>, w: nat, m: nat)
    requires |header| == HEADER_SIZE && at + stride <= |rows| && rows[at..at + stride] == Bgr(row) + Zeros(Pad(w))
    requires at == RowStart(3 * w + Pad(w), m) && |Bgr(row)| == 3 * w && Bgr(Bgr(row)) == row
    ensures PixelRow(header + rows, HEADER_SIZE, w, m) == row
  {
    PartRead(header, rows, at, stride, Bgr(row), Zeros(Pad(w)), 3 * w);
  }

  lemma PartRead(header: seq<int>, rows: seq<int>, at: nat, stride: nat, part: seq<int>, pad: seq<int>, n: nat)
    requires |header| == HEADER_SIZE && at + stride <= |rows| && rows[at..at + stride] == part + pad && n == |part|
    ensures Bgr(Bytes(header + rows, HEADER_SIZE + at, n)) == Bgr(part)
  {
    BytesBehind(header, rows, at, stride, part, pad);
  }

  lemma BytesBehind(header: seq<int>, rows: seq<int>, at: nat, stride: nat, part: seq<int>, pad: seq<int>)
    requires |header| == HEADER_SIZE && at + stride <= |rows| && rows[at..at + stride] == part + pad
    ensures Bytes(header + rows, HEADER_SIZE + at, |part|) == part
  {
    forall i | 0 <= i < |part| ensures At(header + rows, HEADER_SIZE + at + i) == part[i] {
      assert rows[at..at + stride][i] == part[i];
    }
  }

  /** The file of an image within the loader's limits is accepted. */
  lemma {:induction false} FileLoadable(w: nat, h: nat, data: seq<int>)
    requires 0 < w <= MAX_DIMENSIONS && 0 < h <= MAX_DIMENSIONS && IsImage(w, h, data) && SizesValid(w, h)
    ensures var file := BmpFile(w, h, data);
      && IsBytes(file) && Loadable(file) && At32(file, 18) == w && Signed(At32(file, 22)) == h && PixelStart(file) == HEADER_SIZE
  {
    HeaderFields(w, h, RowsDown(data, w, h));
    HeaderBytes(w, h);
    RowsBytes(data, w, h);
  }

  lemma HeaderBytes(w: nat, h: nat)
    ensures IsBytes(Header(w, h))
  {
  }

  /** What is loaded from the file of an image is the image. */
  lemma {:induction false} PictureBack(w: nat, h: nat, data: seq<int>, header: seq<int>, pixels: seq<int>)
    requires IsImage(w, h, data) && |header| == HEADER_SIZE
    requires Holds(pixels, header + RowsDown(data, w, h), HEADER_SIZE, w, h, true)
    ensures pixels == data
  {
    forall j: nat | j < h ensures Row(pixels, 3 * w, j) == Row(data, 3 * w, j) {
      RowBack(w, h, data, header, RowsDown(data, w, h), j, h - 1 - j);
    }
    SameRows(pixels, data, 3 * w, h);
  }

  /** Saving an image and loading what was collected gives back the image, when the padding of
      its rows fits the sink and its size the loader. */
  method RoundTrip(w: nat, h: nat, data: seq<int>, memory: bool) returns (r: Loaded)
    requires 0 < w <= MAX_DIMENSIONS && 0 < h <= MAX_DIMENSIONS && IsImage(w, h, data) && SizesValid(w, h)
    requires Pad(w) * h <= SINK_SLACK - HEADER_SIZE
    ensures if memory then r == Image(w, h, data) else !r.Image?
  {
    RowStartIs(Pad(w), h);
    var file := Save(w, h, data);
    FileLoadable(w, h, data);
    r := Load(file, memory);
    if r.Image? {
      PictureBack(w, h, data, Header(w, h), r.pixels);
    }
  }
}
