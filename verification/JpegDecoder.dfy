/** The baseline entropy decoder of stb_image.h: a 32-bit bit buffer over stuffed bytes,
    Huffman lookup, receive-and-extend, and one block with its fast path for small ACs. */
module JpegDecoder {
  import opened Bits
  import opened Canonical
  import opened JpegHuffman
  import opened JpegFormat

  // ---------- the code book of a table ----------

  /** The first of the first n places that holds x; n if none does. */
  function FindIn(values: seq<int>, n: nat, x: int): (k: nat)
    requires n <= |values|
    ensures k <= n && (k < n ==> values[k] == x)
  {
    if n == 0 then 0
    else
      var k := FindIn(values, n - 1, x);
      if k < n - 1 || values[n - 1] == x then k else n
  }

  /** A Huffman table as it is written to the file, the code counts and the symbols, and the
      code words that these lists define. */
  datatype Coding = Coding(count: seq<nat>, values: seq<int>, book: Book)

  ghost predicate Defines(count: seq<nat>, values: seq<int>, sym: int, word: seq<bool>)
    requires |count| == 16 && Total(count, 16) <= |values|
  {
    var k := FindIn(values, Total(count, 16), sym);
    k < Total(count, 16) && word == Word(count, k)
  }

  /** The decoder's table is built from the coding's lists. */
  ghost predicate Decodes(h: Huffman, c: Coding) {
    && Built(h, c.count) && h.values == c.values && Bytes(c.values)
    && Total(c.count, FAST_BITS) < 256
    && forall sym :: 0 <= sym < |c.book| && c.book[sym] != [] ==> Defines(c.count, c.values, sym, c.book[sym])
  }

  // ---------- the combined table for small AC values ----------

  /** A fast entry below the flag is the symbol whose code the window starts with. */
  lemma {:induction false} FastEntry(h: Huffman, count: seq<nat>, x: nat)
    requires Built(h, count) && x < 512 && h.fast[x] < 255
    ensures var k := h.fast[x];
      && 0 <= k < Total(count, FAST_BITS) <= Total(count, 16)
      && SizeAt(count, k) <= FAST_BITS
      && Start(count, k, FAST_BITS) <= x < Start(count, k + 1, FAST_BITS)
  {
    TotalMono(count, FAST_BITS, 16);
    if x < CodeAfter(count, FAST_BITS) {
      var k := Covered(count, x, FAST_BITS, Total(count, FAST_BITS));
      assert h.fast[x] == k;
      Before(count, k, FAST_BITS);
    }
  }

  /** The value the table builder forms for window i: a magnitude followed by its bits. */
  ghost function FastAc(h: Huffman, count: seq<nat>, i: nat): int
    requires Built(h, count) && i < 512
  {
    var fast := h.fast[i];
    if fast >= 255 then 0
    else
      FastEntry(h, count, i);
      var rs := h.values[fast];
      var magbits := rs % 16;
      var len := SizeAt(count, fast);
      if magbits == 0 || len + magbits > FAST_BITS then 0
      else
        var k := Extend(Low(Shr(i, FAST_BITS - len - magbits), magbits), magbits);
        if -128 <= k <= 127 then 256 * k + 16 * (rs / 16 % 16) + (len + magbits) else 0
  }

  ghost predicate IsFastAc(fac: seq<int>, h: Huffman, count: seq<nat>)
    requires Built(h, count)
  {
    |fac| == 512 && forall i :: 0 <= i < 512 ==> fac[i] == FastAc(h, count, i)
  }

  method BuildFastAc(h: Huffman, ghost count: seq<nat>) returns (fac: seq<int>)
    requires Built(h, count) && Bytes(h.values)
    ensures IsFastAc(fac, h, count)
  {
    var fast_ac := new int[512];
    var i := 0;
    while i < 512
      invariant 0 <= i <= 512
      invariant forall m :: 0 <= m < i ==> fast_ac[m] == FastAc(h, count, m)
    {
      fast_ac[i] := FastAcEntry(h, i, count);
      i := i + 1;
    }
    fac := fast_ac[..];
  }

  method FastAcEntry(h: Huffman, i: nat, ghost count: seq<nat>) returns (entry: int)
    requires Built(h, count) && Bytes(h.values) && i < 512
    ensures entry == FastAc(h, count, i)
  {
    var fast := h.fast[i];
    entry := 0;
    if fast < 255 {
      FastEntry(h, count, i);
      var rs := h.values[fast];
      var run := rs / 16 % 16;
      var magbits := rs % 16;
      var len := h.size[fast];
      if magbits != 0 && len + magbits <= FAST_BITS {
        var k := Shr(Low(Shl(i, len), FAST_BITS), FAST_BITS - magbits);
        var m := Pow2(magbits - 1);
        FastField(i, len, magbits);
        if k < m {
          k := k + (-Pow2(magbits) + 1);
        }
        if -128 <= k <= 127 {
          entry := k * 256 + run * 16 + (len + magbits);
        }
      }
    }
  }

  /** Shifting the code out and keeping the top bits leaves the field behind the code. */
  lemma {:induction false} FastField(i: int, len: nat, mag: nat)
    requires len + mag <= FAST_BITS
    ensures Shr(Low(Shl(i, len), FAST_BITS), FAST_BITS - mag) == Low(Shr(i, FAST_BITS - len - mag), mag)
  {
    var rest: nat := FAST_BITS - len;
    LowShl(i, len, rest);
    ShrShr(Shl(Low(i, rest), len), len, rest - mag);
    ShrShl(Low(i, rest), len);
    ShrLow(i, rest - mag, mag);
    assert len + (rest - mag) == FAST_BITS - mag && rest - mag + mag == rest;
  }

  /** A nonzero entry is what decoding the symbol and then receiving and extending its bits
      gives: the run, the value and the bits used. */
  lemma {:induction false} FastAcDecodes(h: Huffman, count: seq<nat>, buf: nat) returns (k: nat)
    requires Built(h, count) && buf < 0x1_0000_0000
    requires 0 <= Shr(buf, 23) < 512 && FastAc(h, count, Shr(buf, 23)) != 0
    ensures Matches(count, k, buf)
    ensures
      var rs, len := h.values[k], SizeAt(count, k);
      var size, r := rs % 16, FastAc(h, count, Shr(buf, 23));
      && 1 <= size && len + size <= FAST_BITS
      && r / 16 % 16 == rs / 16 % 16 && r % 16 == len + size
      && r / 256 == Extend(Low(Shr(buf, 32 - len - size), size), size)
  {
    var x := Shr(buf, 23);
    FastEntry(h, count, x);
    k := h.fast[x];
    MatchesInterval(count, k, buf, FAST_BITS);
    var len, size := SizeAt(count, k), h.values[k] % 16;
    ShrShr(buf, 23, FAST_BITS - len - size);
    assert 23 + (FAST_BITS - len - size) == 32 - len - size;
    var v := Extend(Low(Shr(x, FAST_BITS - len - size), size), size);
    Unpack(v, h.values[k] / 16 % 16, len + size);
  }

  lemma {:induction false} LastBits(a: seq<bool>, b: seq<bool>, x: int)
    requires x == Value(a + b)
    ensures Low(x, |b|) == Value(b)
  {
    ValueConcat(a, b);
    ValueBound(b);
    Split(x, |b|, Value(a), Value(b));
  }

  lemma Unpack(v: int, run: int, n: int)
    requires 0 <= run < 16 && 0 <= n < 16
    ensures (256 * v + 16 * run + n) / 16 % 16 == run
    ensures (256 * v + 16 * run + n) % 16 == n
    ensures (256 * v + 16 * run + n) / 256 == v
  {
  }

  // ---------- the bit buffer ----------

  /** The first n valid bits of the buffer are its top n bits, and shifting them out leaves
      the others at the top. */
  lemma {:induction false} Peel(avail: seq<bool>, n: nat)
    requires n <= |avail| <= 32
    ensures var buf := Shl(Value(avail), 32 - |avail|);
      && 0 <= buf < 0x1_0000_0000
      && Shr(buf, 32 - n) == Value(avail[..n])
      && Low(Shl(buf, n), 32) == Shl(Value(avail[n..]), 32 - |avail| + n)
  {
    var d := 32 - |avail|;
    var buf := Shl(Value(avail), d);
    var first, rest := avail[..n], avail[n..];
    assert avail == first + rest;
    ValueConcat(first, rest);
    ShlPlus(Shl(Value(first), |rest|), Value(rest), d);
    ShlShl(Value(first), |rest|, d);
    assert |rest| + d == 32 - n;
    assert buf == Shl(Value(first), 32 - n) + Shl(Value(rest), d);
    Small(rest, d);
    Split(buf, 32 - n, Value(first), Shl(Value(rest), d));
    ShlPlus(Shl(Value(first), 32 - n), Shl(Value(rest), d), n);
    ShlShl(Value(first), 32 - n, n);
    ShlShl(Value(rest), d, n);
    Small(rest, d + n);
    Split(Shl(buf, n), 32, Value(first), Shl(Value(rest), d + n));
    Small(avail, d);
    Pow2Values();
  }

  /** A code word at the front of the valid bits is what the buffer's top bits match. */
  lemma {:induction false} WordMatches(count: seq<nat>, k: nat, avail: seq<bool>)
    requires Accepted(count) && k < Total(count, 16)
    requires Word(count, k) <= avail && |avail| <= 32
    ensures Matches(count, k, Shl(Value(avail), 32 - |avail|))
  {
    var s := SizeAt(count, k);
    Peel(avail, s);
    assert avail[..s] == Word(count, k);
    CodeAfterFits(count, s);
    ValueMsb(CodeAt(count, k), s);
  }

  function ToShort(x: int): int {
    (x + 0x8000) % 0x1_0000 - 0x8000
  }

  /** The stuffed bytes of a nonempty run start with its first byte, and a zero if that is 0xFF. */
  lemma {:induction false} StuffHead(data: seq<nat>, tail: seq<int>)
    requires data != []
    ensures var s := Stuff(data) + tail;
      && |s| >= 1 && s[0] == data[0]
      && (data[0] == 255 ==> |s| >= 2 && s[1] == 0)
      && s[if data[0] == 255 then 2 else 1..] == Stuff(data[1..]) + tail
  {
    var s := Stuff(data) + tail;
    var rest := Stuff(data[1..]) + tail;
    assert s == StuffByte(data[0]) + rest;
  }

  /** Lookup when the buffer is known to start with the k-th code. */
  method LookupWord(h: Huffman, buf: nat, bits: int, ghost c: Coding, ghost k: nat) returns (v: int, len: nat)
    requires Decodes(h, c) && buf < 0x1_0000_0000 && 0 <= bits <= 32
    requires Matches(c.count, k, buf) && SizeAt(c.count, k) <= bits
    ensures v == c.values[k] && len == SizeAt(c.count, k)
  {
    v, len := Lookup(h, buf, bits, c.count);
    forall m: nat | Matches(c.count, m, buf) ensures m == k { PrefixFree(c.count, m, k, buf); }
  }

  predicate IsInt(x: int) {
    -0x8000_0000 <= x < 0x8000_0000
  }

  predicate AddIntsValid(a: int, b: int) {
    if (a >= 0) != (b >= 0) then true
    else if a < 0 && b < 0 then a >= -0x8000_0000 - b
    else a <= 0x7fff_ffff - b
  }

  /** Division that truncates toward zero. */
  function Quotient(a: int, b: int): int
    requires b != 0
  {
    if a >= 0 then a / b else -(-a / b)
  }

  predicate Mul2ShortsValid(a: int, b: int) {
    if b == 0 || b == -1 then true
    else if (a >= 0) == (b >= 0) then a <= Quotient(0x7fff, b)
    else if b < 0 then a <= Quotient(-0x8000, b)
    else a >= Quotient(-0x8000, b)
  }

  lemma TimesAtMost(a: int, b: int, c: int)
    requires b > 0
    ensures a <= c / b <==> a * b <= c
  {
    var q := c / b;
    assert q * b <= c < (q + 1) * b;
    if a <= q { MulLe(a, q, b); } else { MulLe(q + 1, a, b); }
  }

  lemma MulLe(x: int, y: int, b: int)
    requires x <= y && b > 0
    ensures x * b <= y * b
  {
  }

  /** For a positive second factor, the check is exact: the product fits a short. */
  lemma Mul2ShortsExact(a: int, b: int)
    requires -0x8000 <= a < 0x8000 && 1 <= b < 0x8000
    ensures Mul2ShortsValid(a, b) <==> -0x8000 <= a * b < 0x8000
  {
    TimesAtMost(a, b, 0x7fff);
    TimesAtMost(-a, b, 0x8000);
    assert a >= 0 ==> a * b >= 0;
    assert a < 0 ==> (-a) * b == -(a * b) && a * b <= 0;
  }

  /** The block holds every coefficient, dequantised, in its place. */
  ghost predicate IsBlock(order: seq<nat>, block: seq<int>, q: seq<int>, dequant: seq<int>)
    requires |q| == 64 && |dequant| == 64 && ScanOrder(order)
  {
    |block| == 64 && forall m :: 0 <= m < 64 ==> block[order[m]] == ToShort(q[m] * dequant[order[m]])
  }

  /** A nonzero table entry describes the bits that come next: they are a run and a value,
      and the entry holds the run, the value and their length. */
  lemma {:induction false} FastAcStep(hac: Huffman, ac: Coding, item: AcItem, rest: seq<bool>,
                                      avail: seq<bool>, unread: seq<bool>)
    requires |avail| <= 32 && (|avail| >= 16 || unread == [])
    requires Decodes(hac, ac) && IsItem(item) && WordOf(ac.book, ItemSymbol(item)) != []
    requires WordOf(ac.book, ItemSymbol(item)) + (ItemBits(item) + rest) <= avail + unread
    requires 0 <= Shr(Buffer(avail), 23) < 512 && FastAc(hac, ac.count, Shr(Buffer(avail), 23)) != 0
    ensures
      var r := FastAc(hac, ac.count, Shr(Buffer(avail), 23));
      && item == RunValue(r / 16 % 16, r / 256)
      && 0 <= r % 16 <= |avail| && rest <= (avail + unread)[r % 16..]
  {
    var word := WordOf(ac.book, ItemSymbol(item));
    SymbolKind(item);
    PrefixDrop(word, ItemBits(item) + rest, avail + unread);
    FastSymbol(hac, ac, ItemSymbol(item), avail, unread);
    FastValue(word, ItemBits(item), rest, avail, unread);
    ExtendMagnitude(item.value);
    var r := FastAc(hac, ac.count, Shr(Buffer(avail), 23));
    assert r / 16 % 16 == item.run && r % 16 == |word| + |ItemBits(item)|;
    assert r / 256 == item.value;
  }

  lemma {:induction false} FastIndex(avail: seq<bool>)
    requires |avail| <= 32
    ensures 0 <= Shr(Buffer(avail), 23) < 512
  {
    Peel(avail, 0);
    Pow2Values();
    ShrRange(Buffer(avail), 23, 9);
  }

  function Buffer(avail: seq<bool>): int
    requires |avail| <= 32
  {
    Shl(Value(avail), 32 - |avail|)
  }

  /** The bits of a short word and the magnitude behind it, at the top of the buffer. */
  lemma {:induction false} FastValue(word: seq<bool>, mag: seq<bool>, rest: seq<bool>, avail: seq<bool>, unread: seq<bool>)
    requires |avail| <= 32 && (|avail| >= 16 || unread == []) && |word| + |mag| <= FAST_BITS
    requires word + (mag + rest) <= avail + unread
    ensures |word| + |mag| <= |avail| && rest <= (avail + unread)[|word| + |mag|..]
    ensures Low(Shr(Buffer(avail), 32 - |word| - |mag|), |mag|) == Value(mag)
  {
    Assoc(word, mag, rest);
    PrefixDrop(word + mag, rest, avail + unread);
    Top(word + mag, avail, unread);
    LastBits(word, mag, Shr(Buffer(avail), 32 - |word| - |mag|));
  }

  /** The symbol that comes next is the one a nonzero entry was made from. */
  lemma {:induction false} FastSymbol(hac: Huffman, ac: Coding, sym: int, avail: seq<bool>, unread: seq<bool>)
    requires |avail| <= 32 && (|avail| >= 16 || unread == [])
    requires Decodes(hac, ac) && WordOf(ac.book, sym) != [] && WordOf(ac.book, sym) <= avail + unread
    requires 0 <= Shr(Buffer(avail), 23) < 512 && FastAc(hac, ac.count, Shr(Buffer(avail), 23)) != 0
    ensures
      var size, len, r := sym % 16, |WordOf(ac.book, sym)|, FastAc(hac, ac.count, Shr(Buffer(avail), 23));
      && 1 <= size && len + size <= FAST_BITS
      && r / 16 % 16 == sym / 16 % 16 && r % 16 == len + size
      && r / 256 == Extend(Low(Shr(Buffer(avail), 32 - len - size), size), size)
  {
    var i := SymbolMatches(hac, ac, sym, avail, unread);
    var m := FastAcDecodes(hac, ac.count, Buffer(avail));
    PrefixFree(ac.count, i, m, Buffer(avail));
  }

  lemma {:induction false} SymbolMatches(h: Huffman, c: Coding, sym: int, avail: seq<bool>, unread: seq<bool>) returns (i: nat)
    requires |avail| <= 32 && (|avail| >= 16 || unread == [])
    requires Decodes(h, c) && WordOf(c.book, sym) != [] && WordOf(c.book, sym) <= avail + unread
    ensures i < Total(c.count, 16) && c.values[i] == sym && |WordOf(c.book, sym)| == SizeAt(c.count, i) <= |avail|
    ensures 0 <= Buffer(avail) < 0x1_0000_0000 && Matches(c.count, i, Buffer(avail))
  {
    i := FindIn(c.values, Total(c.count, 16), sym);
    Top(WordOf(c.book, sym), avail, unread);
    WordMatches(c.count, i, avail);
    Peel(avail, 0);
  }

  /** Promised bits that are short enough are the top bits of the buffer. */
  lemma {:induction false} Top(b: seq<bool>, avail: seq<bool>, unread: seq<bool>)
    requires |avail| <= 32 && b <= avail + unread && (|b| <= |avail| || unread == [])
    ensures |b| <= |avail| && b <= avail && Shr(Buffer(avail), 32 - |b|) == Value(b)
  {
    Peel(avail, |b|);
    assert avail[..|b|] == b;
  }

  /** Positions below k hold the dequantised coefficients, the others zero. */
  ghost predicate Dequantised(order: seq<nat>, data: seq<int>, q: seq<int>, dequant: seq<int>, k: nat)
    requires |q| == 64 && |dequant| == 64 && ScanOrder(order)
  {
    && |data| == 64
    && (forall m :: 1 <= m < k && m < 64 ==> data[order[m]] == ToShort(q[m] * dequant[order[m]]))
    && (forall m :: 1 <= m < 64 && k <= m ==> data[order[m]] == 0)
  }

  lemma {:induction false} BlockStart(order: seq<nat>, block: seq<int>, q: seq<int>, dequant: seq<int>)
    requires |q| == 64 && |dequant| == 64 && ScanOrder(order)
    requires |block| == 64 && forall i :: 1 <= i < 64 ==> block[i] == 0
    ensures Dequantised(order, block, q, dequant, 1)
  {
  }

  lemma {:induction false} BlockDone(order: seq<nat>, block: seq<int>, q: seq<int>, dequant: seq<int>)
    requires |q| == 64 && |dequant| == 64 && ScanOrder(order) && Dequantised(order, block, q, dequant, 64)
    requires block[0] == ToShort(q[0] * dequant[0])
    ensures IsBlock(order, block, q, dequant)
  {
  }

  /** The position an item leads to, and its entry in the block. */
  function ItemEnd(k: nat, item: AcItem): int {
    match item
    case EndOfBlock => 64
    case SixteenZeros => k + 16
    case RunValue(run, _) => k + run + 1
  }

  function PutItem(order: seq<nat>, block: seq<int>, dequant: seq<int>, k: nat, item: AcItem): seq<int>
    requires |block| == 64 && |dequant| == 64 && forall i :: 0 <= i < |order| ==> order[i] < 64
    requires item.RunValue? ==> 0 <= k + item.run < |order|
  {
    if item.RunValue? then
      var zig := order[k + item.run];
      block[zig := ToShort(item.value * dequant[zig])]
    else block
  }

  /** Entering the item at k makes the block right up to where the item leads. */
  lemma {:induction false} DequantiseItem(order: seq<nat>, block: seq<int>, q: seq<int>, dequant: seq<int>,
                                          k: nat, after: nat)
    requires |q| == 64 && |dequant| == 64 && ScanOrder(order) && Dequantised(order, block, q, dequant, k)
    requires 1 <= k < 64 && after == AfterItem(q, k)
    ensures ItemAt(q, k).RunValue? ==> 0 <= k + ItemAt(q, k).run < 64
    ensures ItemEnd(k, ItemAt(q, k)) == after
    ensures Dequantised(order, PutItem(order, block, dequant, k, ItemAt(q, k)), q, dequant, after)
    ensures PutItem(order, block, dequant, k, ItemAt(q, k))[0] == block[0]
  {
    NextFound(q, k);
    if ItemAt(q, k).RunValue? {
      DequantiseNext(order, block, q, dequant, k, NextNonzero(q, k));
    }
  }

  lemma {:induction false} DequantiseNext(order: seq<nat>, data: seq<int>, q: seq<int>, dequant: seq<int>, k: nat, j: nat)
    requires |q| == 64 && |dequant| == 64 && ScanOrder(order) && Dequantised(order, data, q, dequant, k)
    requires 1 <= k <= j < 64 && forall m :: k <= m < j ==> q[m] == 0
    ensures Dequantised(order, data[order[j] := ToShort(q[j] * dequant[order[j]])], q, dequant, j + 1)
    ensures order[j] != 0
  {
  }

  /** The first of n bits tells which half of the range the number lies in. */
  lemma {:induction false} SignBit(b: seq<bool>)
    requires b != []
    ensures Value(b[..1]) == if Value(b) < Pow2(|b| - 1) then 0 else 1
  {
    assert b == b[..1] + b[1..];
    ValueConcat(b[..1], b[1..]);
    ValueBound(b[1..]);
    ShlZero(|b| - 1);
    assert b[..1][..0] == [];
    assert Value(b[..1]) == if b[0] then 1 else 0;
  }

  /** Or-ing a byte in below the valid bits. */
  lemma {:induction false} AppendBits(avail: seq<bool>, b: nat)
    requires |avail| <= 24 && b < 256
    ensures 0 <= Buffer(avail) && 0 <= Shl(b, 24 - |avail|)
    ensures Or(Buffer(avail), Shl(b, 24 - |avail|)) == Buffer(avail + Msb(b, 8))
  {
    Pow2Values();
    ValueMsb(b, 8);
    ValueConcat(avail, Msb(b, 8));
    var d: nat := 24 - |avail|;
    ShlPlus(Shl(Value(avail), 8), b, d);
    ShlShl(Value(avail), 8, d);
    ShlZero(d);
    ShlMono(0, b, d);
    ShlStrict(b, 256, d);
    ShlShl(1, 8, d);
    Peel(avail, 0);
    OrDisjoint(Value(avail), Shl(b, d), 8 + d);
  }

  /** Nothing promised is lost when a byte moves from the unread data, or when a zero byte
      is made up behind the last one. */
  lemma {:induction false} GrowStep(avail: seq<bool>, unread: seq<nat>, data: seq<nat>, b: nat)
    requires if unread == [] then data == [] else data == unread[1..] && b == unread[0]
    ensures avail + ByteBits(unread) <= (avail + Msb(b, 8)) + ByteBits(data)
  {
    if unread != [] { Assoc(avail, Msb(b, 8), ByteBits(data)); }
  }

  class Jpeg {
    const input: seq<int>
    var pos: nat
    var code_buffer: nat
    var code_bits: int
    var marker: int
    var nomore: bool
    /** The valid bits of the buffer, and the unread data bytes before the next marker. */
    ghost var avail: seq<bool>
    ghost var data: seq<nat>
    ghost const tail: seq<int>
    /** The DC prediction of each of the four components. */
    const dc_pred: array<int>

    ghost predicate Valid()
      reads this
    {
      && dc_pred.Length == 4
      && code_bits == |avail| <= 32
      && code_buffer == Shl(Value(avail), 32 - |avail|)
      && pos <= |input|
      && (nomore ==> data == [])
      && (!nomore ==> input[pos..] == Stuff(data) + tail)
      && Bytes(data)
      && Marker(tail)
    }

    /** Every bit still to be decoded. */
    ghost function Stream(): seq<bool>
      reads this
    {
      avail + ByteBits(data)
    }

    constructor (input: seq<int>, ghost data: seq<nat>, ghost tail: seq<int>)
      requires input == Stuff(data) + tail && Bytes(data)
      requires Marker(tail)
      ensures Valid() && fresh(dc_pred) && Stream() == ByteBits(data)
      ensures forall b :: 0 <= b < 4 ==> dc_pred[b] == 0
    {
      this.input := input;
      this.tail := tail;
      this.data := data;
      dc_pred := new int[4](_ => 0);
      pos, code_buffer, code_bits, marker, nomore, avail := 0, 0, 0, 0xff, false, [];
      new;
      ShlZero(32);
    }

    method Get8() returns (b: int)
      modifies `pos
      ensures if old(pos) < |input| then b == input[old(pos)] && pos == old(pos) + 1 else b == 0 && pos == old(pos)
    {
      if pos < |input| {
        b := input[pos];
        pos := pos + 1;
      } else {
        b := 0;
      }
    }

    /** The byte after 0xFF, past any fill bytes. */
    method SkipFill() returns (c: int)
      requires pos <= |input|
      modifies `pos
      ensures pos <= |input|
      ensures old(MarkerCode(input[pos..])) ==> c != 0
      ensures old(pos) < |input| && input[old(pos)] == 0 ==> c == 0 && pos == old(pos) + 1
    {
      c := Get8();
      assert old(pos) < |input| ==> [c] + input[pos..] == input[old(pos)..];
      while c == 0xff
        invariant old(pos) <= pos <= |input|
        invariant old(MarkerCode(input[pos..])) ==> MarkerCode([c] + input[pos..])
        invariant old(pos) < |input| && input[old(pos)] == 0 ==> c == 0 && pos == old(pos) + 1
        decreases |input| - pos, c
      {
        assert ([c] + input[pos..])[1..] == input[pos..];
        ghost var p := pos;
        c := Get8();
        assert p < |input| ==> [c] + input[pos..] == input[p..];
      }
    }

    /** The next byte of data, unstuffed; zero once a marker has been seen; or stop, at the
        marker itself. */
    method NextByte() returns (stop: bool, b: nat)
      requires Valid()
      modifies `pos, `marker, `nomore, `data
      ensures Valid()
      ensures stop ==> data == old(data) == []
      ensures !stop && old(data) == [] ==> data == [] && b == 0
      ensures !stop && old(data) != [] ==> data == old(data)[1..] && b == old(data)[0]
    {
      if nomore {
        return false, 0;
      }
      ghost var last := data == [];
      if !last { StuffHead(data, tail); }
      b := 0;
      var x := Get8();
      if x == 0xff {
        assert last ==> input[pos..] == tail[1..];
        assert !last ==> input[pos..] == [0] + (Stuff(data[1..]) + tail);
        var c := SkipFill();
        if c != 0 {
          marker := c;
          nomore := true;
          return true, 0;
        }
      }
      data := data[1..];
      return false, x;
    }

    /** Refills the buffer. Nothing already promised is lost, and afterwards either more
        than 24 bits are valid or no data byte is left unread. */
    method GrowBuffer()
      requires Valid() && code_bits <= 24
      modifies this
      ensures Valid() && old(Stream()) <= Stream()
      ensures code_bits >= old(code_bits)
      ensures code_bits > 24 || data == []
    {
      while code_bits <= 24
        invariant Valid()
        invariant old(Stream()) <= Stream() && code_bits >= old(code_bits)
        decreases 32 - code_bits
      {
        ghost var before, unread := avail, data;
        var stop, b := NextByte();
        if stop {
          return;
        }
        Append(b);
        GrowStep(before, unread, data, b);
      }
    }

    /** Enters byte b below the valid bits. */
    method Append(b: nat)
      requires code_bits == |avail| <= 24 && code_buffer == Shl(Value(avail), 32 - |avail|) && b < 256
      modifies `code_buffer, `code_bits, `avail
      ensures code_bits == old(code_bits) + 8 && avail == old(avail) + Msb(b, 8)
      ensures code_buffer == Shl(Value(avail), 32 - |avail|)
    {
      AppendBits(avail, b);
      code_buffer := Or(code_buffer, Shl(b, 24 - code_bits));
      code_bits := code_bits + 8;
      avail := avail + Msb(b, 8);
    }
  
    /** Drops the first n valid bits. */
    method Drop(n: nat)
      requires Valid() && n <= code_bits
      modifies `code_buffer, `code_bits, `avail
      ensures Valid() && avail == old(avail)[n..] && Stream() == old(Stream())[n..]
    {
      Peel(avail, n);
      LowRange(Shl(code_buffer, n), 32);
      code_buffer := Low(Shl(code_buffer, n), 32);
      code_bits := code_bits - n;
      avail := avail[n..];
    }

    /** Fills the buffer below need bits; the bits b that come next, at most need or 16 of
        them, are then the top bits of the buffer. */
    method Prefetch(need: nat, ghost b: seq<bool>, ghost rest: seq<bool>)
      requires Valid() && need <= 16 && |b| <= need && b + rest <= Stream()
      modifies this
      ensures Valid() && |b| <= code_bits && code_buffer < 0x1_0000_0000
      ensures b <= avail && Shr(code_buffer, 32 - |b|) == Value(b)
      ensures |avail| >= need || data == []
      ensures rest <= Stream()[|b|..]
    {
      if code_bits < need {
        GrowBuffer();
      }
      PrefixDrop(b, rest, Stream());
      Top(b, avail, ByteBits(data));
      Peel(avail, 0);
    }

    /** Decodes one symbol: the one whose code word comes next. */
    method HuffDecode(h: Huffman, ghost c: Coding, ghost sym: int, ghost rest: seq<bool>) returns (v: int)
      requires Valid() && Decodes(h, c)
      requires WordOf(c.book, sym) != [] && WordOf(c.book, sym) + rest <= Stream()
      modifies this
      ensures Valid() && v == sym && rest <= Stream()
    {
      Prefetch(16, WordOf(c.book, sym), rest);
      ghost var k := SymbolMatches(h, c, sym, avail, ByteBits(data));
      var len;
      v, len := LookupWord(h, code_buffer, code_bits, c, k);
      Drop(len);
    }

    /** Reads n bits and extends their sign. */
    method ExtendReceive(n: nat, ghost b: seq<bool>, ghost rest: seq<bool>) returns (v: int)
      requires Valid() && 1 <= n <= 15 && |b| == n && b + rest <= Stream()
      modifies this
      ensures Valid() && v == Extend(Value(b), n) && rest <= Stream()
    {
      Prefetch(n, b, rest);
      if code_bits < n {
        assert false;  // the early return of the source cannot be reached
      }
      Peel(avail, 1);
      SignBit(b);
      assert avail[..1] == b[..1];
      var sgn := Shr(code_buffer, 31);
      var k := Shr(code_buffer, 32 - n);
      Drop(n);
      v := k + (if sgn == 0 then -Pow2(n) + 1 else 0);
    }

    /** What comes next in the AC code: an end of block, sixteen zeros, or a run of zeros
        and a value, the last through the combined table when it is short. */
    method NextAc(hac: Huffman, fac: seq<int>, ghost ac: Coding, ghost next: AcItem, ghost rest: seq<bool>)
      returns (item: AcItem)
      requires Valid() && Decodes(hac, ac) && IsFastAc(fac, hac, ac.count)
      requires IsItem(next) && WordOf(ac.book, ItemSymbol(next)) != []
      requires WordOf(ac.book, ItemSymbol(next)) + (ItemBits(next) + rest) <= Stream()
      modifies this
      ensures Valid() && item == next && rest <= Stream()
    {
      if code_bits < 16 {
        GrowBuffer();
      }
      FastIndex(avail);
      var r := fac[Shr(code_buffer, 23)];
      if r != 0 {
        item := TakeFast(r, hac, ac, next, rest);
      } else {
        item := SlowAc(hac, ac, next, rest);
      }
    }

    /** Unpacks a nonzero entry r of the combined table. */
    method TakeFast(r: int, ghost hac: Huffman, ghost ac: Coding, ghost next: AcItem, ghost rest: seq<bool>)
      returns (item: AcItem)
      requires Valid() && (code_bits >= 16 || data == []) && Decodes(hac, ac)
      requires IsItem(next) && WordOf(ac.book, ItemSymbol(next)) != []
      requires WordOf(ac.book, ItemSymbol(next)) + (ItemBits(next) + rest) <= Stream()
      requires 0 <= Shr(Buffer(avail), 23) < 512 && r == FastAc(hac, ac.count, Shr(Buffer(avail), 23)) != 0
      modifies this
      ensures Valid() && item == next && rest <= Stream()
    {
      FastAcStep(hac, ac, next, rest, avail, ByteBits(data));
      var s := r % 16;
      if s > code_bits {
        assert false;  // the error return of the source cannot be reached
      }
      Drop(s);
      item := RunValue(r / 16 % 16, r / 256);
    }

    /** The same by Huffman decoding and then reading the value's bits. */
    method SlowAc(hac: Huffman, ghost ac: Coding, ghost next: AcItem, ghost rest: seq<bool>)
      returns (item: AcItem)
      requires Valid() && Decodes(hac, ac)
      requires IsItem(next) && WordOf(ac.book, ItemSymbol(next)) != []
      requires WordOf(ac.book, ItemSymbol(next)) + (ItemBits(next) + rest) <= Stream()
      modifies this
      ensures Valid() && item == next && rest <= Stream()
    {
      SymbolKind(next);
      var rs := HuffDecode(hac, ac, ItemSymbol(next), ItemBits(next) + rest);
      var s := rs % 16;
      if s == 0 {
        return if rs != 0xf0 then EndOfBlock else SixteenZeros;
      }
      ExtendMagnitude(next.value);
      var v := ExtendReceive(s, ItemBits(next), rest);
      item := RunValue(rs / 16, v);
    }

    /** Decodes one block: stores the dequantised coefficients in row-major order and moves
        the component's DC prediction on. It fails only if the dequantised DC value does not
        fit a short. */
    method DecodeBlock(hdc: Huffman, hac: Huffman, fac: seq<int>, b: nat, order: seq<nat>, dequant: seq<int>,
                       ghost dc: Coding, ghost ac: Coding, ghost q: seq<int>, ghost rest: seq<bool>)
      returns (ok: bool, block: seq<int>)
      requires Valid() && b < 4 && ScanOrder(order) && |dequant| == 64
      requires Decodes(hdc, dc) && CoversDc(dc.book) && Decodes(hac, ac) && CoversAc(ac.book) && IsFastAc(fac, hac, ac.count)
      requires AcRange(q) && DcRange(q[0] - dc_pred[b]) && IsInt(dc_pred[b]) && IsInt(q[0])
      requires BlockBits(dc.book, ac.book, q, dc_pred[b]) + rest <= Stream()
      modifies this, dc_pred
      ensures Valid() && dc_pred[..] == old(dc_pred[..])[b := q[0]]
      ensures ok <==> Mul2ShortsValid(ToShort(q[0]), ToShort(dequant[0]))
      ensures ok ==> rest <= Stream() && IsBlock(order, block, q, dequant)
    {
      block := [];
      ghost var diff := q[0] - dc_pred[b];
      BlockUnfold(dc.book, ac.book, q, dc_pred[b], diff, rest);
      var dcValue := ReadDc(hdc, b, dc, q[0], diff, AcBits(ac.book, q, 1) + rest);
      ok := Mul2ShortsValid(ToShort(dcValue), ToShort(dequant[0]));
      if ok {
        block := DecodeAcs(hac, fac, order, dequant, ToShort(dcValue * dequant[0]), ac, q, rest);
      }
    }

    /** Reads the DC difference and moves the component's prediction on. */
    method ReadDc(hdc: Huffman, b: nat, ghost dc: Coding, ghost value: int, ghost diff: int, ghost rest: seq<bool>)
      returns (dcValue: int)
      requires Valid() && b < 4 && Decodes(hdc, dc) && CoversDc(dc.book)
      requires DcRange(diff) && diff == value - dc_pred[b] && IsInt(dc_pred[b]) && IsInt(value)
      requires DcBits(dc.book, diff) + rest <= Stream()
      modifies this, dc_pred
      ensures Valid() && dcValue == value && dc_pred[..] == old(dc_pred[..])[b := value]
      ensures rest <= Stream()
    {
      var d := ReadDiff(hdc, dc, diff, rest);
      if !AddIntsValid(dc_pred[b], d) {
        assert false;  // the error return of the source cannot be reached
      }
      dcValue := dc_pred[b] + d;
      dc_pred[b] := dcValue;
    }

    /** The DC difference. */
    method ReadDiff(hdc: Huffman, ghost dc: Coding, ghost diff: int, ghost rest: seq<bool>) returns (d: int)
      requires Valid() && Decodes(hdc, dc) && CoversDc(dc.book) && DcRange(diff)
      requires DcBits(dc.book, diff) + rest <= Stream()
      modifies this
      ensures Valid() && d == diff && rest <= Stream()
    {
      DcSize(diff);
      Assoc(WordOf(dc.book, BitLen(Abs(diff))), MagnitudeBits(diff), rest);
      ExtendMagnitude(diff);
      var t := HuffDecode(hdc, dc, BitLen(Abs(diff)), MagnitudeBits(diff) + rest);
      if t < 0 || t > 15 {
        assert false;  // the error return of the source cannot be reached
      }
      d := 0;
      if t != 0 {
        d := ExtendReceive(t, MagnitudeBits(diff), rest);
      }
    }

    method DecodeAcs(hac: Huffman, fac: seq<int>, order: seq<nat>, dequant: seq<int>, first: int,
                     ghost ac: Coding, ghost q: seq<int>, ghost rest: seq<bool>)
      returns (block: seq<int>)
      requires Valid() && ScanOrder(order) && |dequant| == 64
      requires Decodes(hac, ac) && CoversAc(ac.book) && IsFastAc(fac, hac, ac.count) && AcRange(q)
      requires AcBits(ac.book, q, 1) + rest <= Stream() && first == ToShort(q[0] * dequant[0])
      modifies this
      ensures Valid() && rest <= Stream() && IsBlock(order, block, q, dequant)
    {
      block := seq(64, _ => 0)[0 := first];
      BlockStart(order, block, q, dequant);
      var k := 1;
      while k < 64
        invariant Valid() && 1 <= k <= 64 && AcBits(ac.book, q, k) + rest <= Stream()
        invariant Dequantised(order, block, q, dequant, k) && block[0] == first
        decreases 64 - k
      {
        ghost var next, after := ItemAt(q, k), AfterItem(q, k);
        AcUnfold(ac.book, q, k, after, rest);
        ItemsFit(q, k);
        ItemCoded(ac.book, next);
        var item := NextAc(hac, fac, ac, next, AcBits(ac.book, q, after) + rest);
        DequantiseItem(order, block, q, dequant, k, after);
        k, block := ItemEnd(k, item), PutItem(order, block, dequant, k, item);
      }
      assert [] + rest == rest;
      BlockDone(order, block, q, dequant);
    }
  }
}
