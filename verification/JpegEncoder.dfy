/** The entropy half of the JPEG encoder: a bit accumulator with byte stuffing over a fixed
    output buffer, magnitude bits, and the run-length coding of one quantised block. */
module JpegEncoder {
  import opened Bits
  import opened Canonical
  import opened JpegHuffman
  import opened JpegFormat

  /** An entry of the encoder's Huffman tables: the code and its length. */
  datatype Code = Code(bits: nat, len: nat)

  predicate Fits(c: Code) {
    c.len <= 16 && c.bits < Pow2(c.len)
  }

  ghost predicate IsTable(ht: seq<Code>, n: nat) {
    |ht| == n && forall sym :: 0 <= sym < n ==> Fits(ht[sym])
  }

  function CodeBits(c: Code): seq<bool> {
    Msb(c.bits, c.len)
  }

  /** The bits of codes written one after the other. */
  function Flatten(log: seq<Code>): seq<bool> {
    FlattenTo(log, |log|)
  }

  function FlattenTo(log: seq<Code>, n: nat): seq<bool>
    requires n <= |log|
  {
    if n == 0 then [] else FlattenTo(log, n - 1) + CodeBits(log[n - 1])
  }

  lemma {:induction false} FlattenPrefix(a: seq<Code>, b: seq<Code>, n: nat)
    requires n <= |a|
    ensures FlattenTo(a + b, n) == FlattenTo(a, n)
  {
    if n > 0 { FlattenPrefix(a, b, n - 1); }
  }

  lemma {:induction false} FlattenNext(log: seq<Code>, c: Code)
    ensures Flatten(log + [c]) == Flatten(log) + CodeBits(c)
  {
    FlattenPrefix(log, [c], |log|);
  }

  lemma {:induction false} FlattenConcat(a: seq<Code>, b: seq<Code>)
    ensures Flatten(a + b) == Flatten(a) + Flatten(b)
  {
    FlattenBehind(a, b, |b|);
  }

  lemma {:induction false} FlattenBehind(a: seq<Code>, b: seq<Code>, n: nat)
    requires n <= |b|
    ensures FlattenTo(a + b, |a| + n) == Flatten(a) + FlattenTo(b, n)
  {
    if n == 0 {
      FlattenPrefix(a, b, |a|);
    } else {
      FlattenBehind(a, b, n - 1);
      Assoc(Flatten(a), FlattenTo(b, n - 1), CodeBits(b[n - 1]));
    }
  }

  function MagnitudeCode(v: int): Code {
    MagnitudeFits(v);
    Code(Magnitude(v), BitLen(Abs(v)))
  }

  /** The size of a value and the bits sent for it. */
  method CalcBits(val: int) returns (bits: Code)
    ensures bits == MagnitudeCode(val) && bits.bits < Pow2(bits.len)
  {
    var t1, v := val, val;
    if val < 0 {
      t1 := -val;
      v := val - 1;
    }
    var n := BitLen(t1);
    MagnitudeFits(val);
    ShlMinus(0, 1, n);
    ShlZero(n);
    Split(v, n, if val < 0 then -1 else 0, Magnitude(val));
    bits := Code(Low(v, n), n);
  }

  /** A 32-bit accumulator whose 24-bit window starts with the pending bits. */
  predicate Windowed(bitb: nat, pending: seq<bool>) {
    && bitb < 0x1_0000_0000 && |pending| <= 24
    && Low(bitb, 24) == Shl(Value(pending), 24 - |pending|)
  }

  lemma {:induction false} OrBelow(bitb: nat, pending: seq<bool>, x: nat)
    requires Windowed(bitb, pending) && x < Pow2(24 - |pending|)
    ensures Or(bitb, x) == bitb + x
  {
    var high, e := Shr(bitb, 24), 24 - |pending|;
    LowRange(bitb, 24);
    ShlShl(high, |pending|, e);
    ShlPlus(Shl(high, |pending|), Value(pending), e);
    Pow2Values();
    ShrRange(bitb, 24, 8);
    ShlZero(|pending|);
    ShlMono(0, high, |pending|);
    OrDisjoint(Shl(high, |pending|) + Value(pending), x, e);
  }

  /** Or-ing a code in behind the pending bits. */
  lemma {:induction false} AddBits(bitb: nat, pending: seq<bool>, code: nat, n: nat)
    requires Windowed(bitb, pending) && |pending| + n <= 24 && code < Pow2(n)
    ensures var d := 24 - |pending| - n;
      0 <= Shl(code, d) && Windowed(Or(bitb, Shl(code, d)), pending + Msb(code, n))
  {
    var d := 24 - |pending| - n;
    var high, next := Shr(bitb, 24), pending + Msb(code, n);
    ValueMsb(code, n);
    Small(Msb(code, n), d);
    OrBelow(bitb, pending, Shl(code, d));
    LowRange(bitb, 24);
    Pow2Values();
    ShrRange(bitb, 24, 8);
    ValueConcat(pending, Msb(code, n));
    ShlPlus(Shl(Value(pending), n), code, d);
    ShlShl(Value(pending), n, d);
    Small(next, d);
    Split(Or(bitb, Shl(code, d)), 24, high, Shl(Value(next), d));
    JoinBound(high, Shl(Value(next), d), 8, 24);
  }

  /** Taking the first eight pending bits out of the window. */
  lemma {:induction false} TakeByte(bitb: nat, pending: seq<bool>)
    requires Windowed(bitb, pending) && 8 <= |pending|
    ensures Low(Shr(bitb, 16), 8) == Value(pending[..8]) < 256
    ensures 0 <= Low(Shl(bitb, 8), 32) && Windowed(Low(Shl(bitb, 8), 32), pending[8..])
  {
    var first, rest := pending[..8], pending[8..];
    var d := 24 - |pending|;
    assert pending == first + rest;
    ValueConcat(first, rest);
    ShlPlus(Shl(Value(first), |rest|), Value(rest), d);
    ShlShl(Value(first), |rest|, d);
    assert |rest| + d == 16;
    ValueBound(first);
    Small(rest, d);
    Small(rest, d + 8);
    Split(Low(bitb, 24), 16, Value(first), Shl(Value(rest), d));
    ShrLow(bitb, 16, 8);
    LowRange(Shl(bitb, 8), 32);
    Pow2Values();
    LowShl(bitb, 8, 24);
    ShlPlus(Shl(Value(first), 16), Shl(Value(rest), d), 8);
    ShlShl(Value(first), 16, 8);
    ShlShl(Value(rest), d, 8);
    Split(Low(Shl(bitb, 8), 32), 24, Value(first), Shl(Value(rest), d + 8));
  }


  class JpegBuf {
    const buf: array<int>
    var idx: nat
    var bitb: nat
    var bitc: nat
    var overflow: bool
    /** Where the entropy-coded segment starts, its data bytes, and the bits not yet out. */
    ghost var start: nat
    ghost var bytes: seq<nat>
    ghost var pending: seq<bool>
    /** The codes written since the start of the segment. */
    ghost var log: seq<Code>

    ghost predicate Valid()
      reads this, buf
    {
      && start <= idx <= buf.Length
      && bitc == |pending| <= 7 && Windowed(bitb, pending)
      && Bytes(bytes)
      && Flatten(log) == ByteBits(bytes) + pending
      && (!overflow ==> buf[start..idx] == Stuff(bytes))
      && (overflow ==> NearlyFull())
    }

    /** So few bytes are left that no further block is started. */
    predicate NearlyFull()
      reads this
    {
      idx + 1 >= buf.Length - 256
    }

    /** An empty segment behind whatever headers have been written. */
    constructor (buf: array<int>, idx: nat)
      requires idx <= buf.Length
      ensures Valid() && this.buf == buf && this.idx == idx == start && !overflow && log == []
    {
      this.buf, this.idx, bitb, bitc, overflow := buf, idx, 0, 0, false;
      start, bytes, pending, log := idx, [], [], [];
      new;
      ShlZero(24);
      Pow2Values();
      LowSmall(0, 24);
    }

    /** True, with the overflow mark set, when fewer than 256 bytes are left. */
    method CheckHighwater() returns (full: bool)
      modifies `overflow
      ensures full == (idx + 257 >= buf.Length)
      ensures overflow == (full || old(overflow))
    {
      full := idx + 1 >= buf.Length - 256;
      if full {
        overflow := true;
      }
    }

    method PutChar(c: int)
      requires idx <= buf.Length
      modifies `idx, `overflow, buf
      ensures old(idx) <= idx <= buf.Length && (old(overflow) ==> overflow)
      ensures overflow ==> old(overflow) || NearlyFull()
      ensures !overflow ==> idx == old(idx) + 1 && buf[..idx] == old(buf[..idx]) + [c]
    {
      if idx + 1 >= buf.Length {
        overflow := true;
        return;
      }
      buf[idx] := c;
      idx := idx + 1;
    }

    /** Emits one data byte, with the stuffing zero after 0xFF. */
    method PutStuffed(c: nat)
      requires start <= idx <= buf.Length && c < 256 && Bytes(bytes)
      requires !overflow ==> buf[start..idx] == Stuff(bytes)
      modifies `idx, `overflow, `bytes, buf
      ensures start <= idx <= buf.Length && Bytes(bytes) && (old(overflow) ==> overflow)
      ensures old(idx) <= idx && (overflow ==> old(overflow) || NearlyFull())
      ensures bytes == old(bytes) + [c]
      ensures !overflow ==> buf[start..idx] == Stuff(bytes)
    {
      ghost var out := buf[..idx];
      PutChar(c);
      ghost var mid := buf[..idx];
      if c == 255 {
        PutChar(0);
      }
      StuffConcat(bytes, [c]);
      assert Stuff([c]) == StuffByte(c);
      bytes := bytes + [c];
      assert !overflow ==> buf[start..idx] == out[start..] + StuffByte(c);
    }

    /** Appends a code to the segment. */
    method WriteBits(bs: Code)
      requires Valid() && Fits(bs)
      modifies this, buf
      ensures Valid() && start == old(start) && (old(overflow) ==> overflow)
      ensures log == old(log) + [bs]
    {
      AddBits(bitb, pending, bs.bits, bs.len);
      Assoc(ByteBits(bytes), pending, CodeBits(bs));
      FlattenNext(log, bs);
      bitc := bitc + bs.len;
      bitb := Or(bitb, Shl(bs.bits, 24 - bitc));
      pending := pending + CodeBits(bs);
      log := log + [bs];
      while bitc > 7
        invariant start == old(start) <= idx <= buf.Length && (old(overflow) ==> overflow)
        invariant bitc == |pending| <= 24 && Windowed(bitb, pending) && Bytes(bytes)
        invariant !overflow ==> buf[start..idx] == Stuff(bytes)
        invariant overflow ==> NearlyFull()
        invariant log == old(log) + [bs] && Flatten(log) == ByteBits(bytes) + pending
      {
        TakeByte(bitb, pending);
        var c := Low(Shr(bitb, 16), 8);
        NextByteBits(bytes, pending, c);
        PutStuffed(c);
        bitb := Low(Shl(bitb, 8), 32);
        bitc := bitc - 8;
        pending := pending[8..];
      }
    }

    method WriteZeros(lng: nat, m16zeroes: Code)
      requires Valid() && Fits(m16zeroes)
      modifies this, buf
      ensures Valid() && start == old(start) && (old(overflow) ==> overflow)
      ensures log == old(log) + Repeat(m16zeroes, lng)
    {
      var nrmarker := 1;
      while nrmarker <= lng
        invariant 1 <= nrmarker <= lng + 1
        invariant Valid() && start == old(start) && (old(overflow) ==> overflow)
        invariant log == old(log) + Repeat(m16zeroes, nrmarker - 1)
      {
        WriteBits(m16zeroes);
        nrmarker := nrmarker + 1;
      }
    }

    /** Codes a run of any length and the value that ends it. */
    method WriteRun(run: nat, v: int, htac: seq<Code>)
      requires Valid() && IsTable(htac, 256) && BitLen(Abs(v)) <= 10
      modifies this, buf
      ensures Valid() && start == old(start) && (old(overflow) ==> overflow)
      ensures log == old(log) + RunLog(htac, run, v)
    {
      var nrzeroes := run;
      if nrzeroes >= 16 {
        var lng := nrzeroes / 16;
        WriteZeros(lng, htac[0xF0]);
        nrzeroes := nrzeroes % 16;
      }
      var bits := CalcBits(v);
      WriteBits(htac[nrzeroes * 16 + bits.len]);
      WriteBits(bits);
    }

    /** Codes the runs up to the last nonzero coefficient. */
    method WriteRuns(q: seq<int>, end0pos: nat, htac: seq<Code>)
      requires Valid() && IsTable(htac, 256) && AcRange(q) && IsLast(q, end0pos)
      modifies this, buf
      ensures Valid() && start == old(start) && (old(overflow) ==> overflow)
      ensures log == old(log) + RunsLog(htac, RunsOf(q, 1))
    {
      ghost var runs := [];
      var i := 1;
      while i <= end0pos
        invariant 1 <= i <= end0pos + 1
        invariant Valid() && start == old(start) && (old(overflow) ==> overflow)
        invariant runs + RunsOf(q, i) == RunsOf(q, 1)
        invariant log == old(log) + RunsLog(htac, runs)
      {
        ghost var s := i;
        i := WriteNext(q, i, end0pos, htac);
        runs := NextRun(htac, q, runs, s, i, old(log));
      }
      AllRuns(q, runs, i, end0pos);
    }

    /** Codes the next run and returns the position behind it. */
    method WriteNext(q: seq<int>, startpos: nat, end0pos: nat, htac: seq<Code>) returns (i: nat)
      requires Valid() && IsTable(htac, 256) && AcRange(q) && IsLast(q, end0pos) && 1 <= startpos <= end0pos
      modifies this, buf
      ensures Valid() && start == old(start) && (old(overflow) ==> overflow)
      ensures startpos < i <= end0pos + 1 && NextNonzero(q, startpos) == i - 1
      ensures log == old(log) + RunLog(htac, i - 1 - startpos, q[i - 1])
    {
      i := SkipZeros(q, startpos, end0pos);
      AcSize(q[i]);
      WriteRun(i - startpos, q[i], htac);
      i := i + 1;
    }

    /** Codes all AC coefficients; end0pos is the last nonzero one, 0 if there is none. */
    method WriteAcs(q: seq<int>, end0pos: nat, htac: seq<Code>)
      requires Valid() && IsTable(htac, 256) && AcRange(q) && IsLast(q, end0pos)
      modifies this, buf
      ensures Valid() && start == old(start) && (old(overflow) ==> overflow)
      ensures log == old(log) + RunsLog(htac, RunsOf(q, 1)) + EndLog(htac, end0pos)
    {
      if end0pos == 0 {
        NoRuns(q, 1, end0pos);
        WriteBits(htac[0x00]);
        return;
      }
      WriteRuns(q, end0pos, htac);
      if end0pos != 63 {
        WriteBits(htac[0x00]);
      }
    }

    method WriteDc(diff: int, htdc: seq<Code>)
      requires Valid() && IsTable(htdc, 12) && DcRange(diff)
      modifies this, buf
      ensures Valid() && start == old(start) && (old(overflow) ==> overflow)
      ensures log == old(log) + DcLog(htdc, diff)
    {
      DcSize(diff);
      if diff == 0 {
        WriteBits(htdc[0]);
      } else {
        var bits := CalcBits(diff);
        WriteBits(htdc[bits.len]);
        WriteBits(bits);
      }
    }

    /** Codes one block, given its quantised coefficients in zigzag order and the previous
        DC value of its component; returns the new one. When the buffer is nearly full it
        writes nothing and leaves the overflow mark set. */
    method WriteBlock(q: seq<int>, end0pos: nat, pred: int, htdc: seq<Code>, htac: seq<Code>) returns (last: int)
      requires Valid() && IsTable(htdc, 12) && IsTable(htac, 256)
      requires AcRange(q) && IsLast(q, end0pos) && (!overflow ==> DcRange(q[0] - pred))
      modifies this, buf
      ensures Valid() && start == old(start) && (old(overflow) ==> overflow)
      ensures !overflow ==> last == q[0] && log == BlockLog(htdc, htac, q, end0pos, pred, old(log))
    {
      var full := CheckHighwater();
      if full {
        return 0;
      }
      WriteCodes(q, end0pos, pred, htdc, htac);
      last := q[0];
    }

    method WriteCodes(q: seq<int>, end0pos: nat, pred: int, htdc: seq<Code>, htac: seq<Code>)
      requires Valid() && IsTable(htdc, 12) && IsTable(htac, 256)
      requires AcRange(q) && IsLast(q, end0pos) && DcRange(q[0] - pred)
      modifies this, buf
      ensures Valid() && start == old(start) && (old(overflow) ==> overflow)
      ensures log == BlockLog(htdc, htac, q, end0pos, pred, old(log))
    {
      ghost var before := log;
      WriteDc(q[0] - pred, htdc);
      ghost var mid := log;
      WriteAcs(q, end0pos, htac);
      BlockLogIs(htdc, htac, q, end0pos, pred, before, mid, log);
    }
  }

  /** The first position from i on, up to last, that is not zero. */
  method SkipZeros(q: seq<int>, i0: nat, last: nat) returns (i: nat)
    requires |q| == 64 && 1 <= i0 <= last < 64 && q[last] != 0
    ensures i0 <= i <= last && i == NextNonzero(q, i0)
  {
    i := i0;
    while i <= last && q[i] == 0
      invariant i0 <= i <= last && forall m :: i0 <= m < i ==> q[m] == 0
    {
      i := i + 1;
    }
    NextIs(q, i0, i);
  }

  /** The last position with a nonzero AC coefficient; 0 if there is none. */
  predicate IsLast(q: seq<int>, p: nat) {
    && |q| == 64 && p < 64 && (p > 0 ==> q[p] != 0)
    && forall m :: p < m < 64 ==> q[m] == 0
  }

  lemma {:induction false} NextIs(q: seq<int>, s: nat, i: nat)
    requires |q| == 64 && s <= i <= 64 && (i < 64 ==> q[i] != 0) && forall m :: s <= m < i ==> q[m] == 0
    ensures NextNonzero(q, s) == i
  {
    var j := NextNonzero(q, s);
    NextFound(q, s);
    if j < i { assert false; }
  }

  function Repeat(c: Code, n: nat): (r: seq<Code>) {
    if n == 0 then [] else Repeat(c, n - 1) + [c]
  }

  function At(ht: seq<Code>, sym: int): Code {
    if 0 <= sym < |ht| then ht[sym] else Code(0, 0)
  }

  /** The codes of a run and the value that ends it. */
  function RunLog(ht: seq<Code>, run: nat, v: int): seq<Code> {
    Repeat(At(ht, 0xF0), run / 16) + [At(ht, run % 16 * 16 + BitLen(Abs(v))), MagnitudeCode(v)]
  }

  /** A nonzero value and the number of zeros before it. */
  datatype Run = Run(zeros: nat, value: int)

  function RunsOf(q: seq<int>, i: nat): seq<Run>
    requires |q| == 64 && i <= 64
    decreases 64 - i
  {
    var j := NextNonzero(q, i);
    if j == 64 then [] else [Run(j - i, q[j])] + RunsOf(q, j + 1)
  }

  function RunsLog(ht: seq<Code>, runs: seq<Run>): seq<Code> {
    if runs == [] then []
    else
      var last := runs[|runs| - 1];
      RunsLog(ht, runs[..|runs| - 1]) + RunLog(ht, last.zeros, last.value)
  }

  lemma {:induction false} RunsLogNext(ht: seq<Code>, runs: seq<Run>, r: Run, before: seq<Code>)
    ensures before + RunsLog(ht, runs + [r]) == before + RunsLog(ht, runs) + RunLog(ht, r.zeros, r.value)
  {
    assert (runs + [r])[..|runs|] == runs;
    Assoc(before, RunsLog(ht, runs), RunLog(ht, r.zeros, r.value));
  }

  /** The end of block, left out behind a nonzero last coefficient. */
  function EndLog(ht: seq<Code>, end0pos: nat): seq<Code> {
    if end0pos == 63 then [] else [At(ht, 0x00)]
  }

  function DcLog(ht: seq<Code>, diff: int): seq<Code> {
    [At(ht, BitLen(Abs(diff)))] + if diff == 0 then [] else [MagnitudeCode(diff)]
  }

  /** The codes of a block, appended to those before it. */
  function BlockLog(htdc: seq<Code>, htac: seq<Code>, q: seq<int>, end0pos: nat, pred: int, before: seq<Code>): seq<Code>
    requires |q| == 64
  {
    before + DcLog(htdc, q[0] - pred) + RunsLog(htac, RunsOf(q, 1)) + EndLog(htac, end0pos)
  }

  lemma {:induction false} BlockLogIs(htdc: seq<Code>, htac: seq<Code>, q: seq<int>, end0pos: nat, pred: int,
                                      before: seq<Code>, mid: seq<Code>, after: seq<Code>)
    requires |q| == 64 && mid == before + DcLog(htdc, q[0] - pred)
    requires after == mid + RunsLog(htac, RunsOf(q, 1)) + EndLog(htac, end0pos)
    ensures after == BlockLog(htdc, htac, q, end0pos, pred, before)
  {
  }

  lemma {:induction false} RunsNext(q: seq<int>, runs: seq<Run>, s: nat, i: nat)
    requires |q| == 64 && s < i <= 64 && i - 1 == NextNonzero(q, s)
    ensures runs + RunsOf(q, s) == (runs + [Run(i - 1 - s, q[i - 1])]) + RunsOf(q, i)
  {
    Assoc(runs, [Run(i - 1 - s, q[i - 1])], RunsOf(q, i));
  }

  lemma {:induction false} NextRun(ht: seq<Code>, q: seq<int>, runs: seq<Run>, s: nat, i: nat, before: seq<Code>) returns (next: seq<Run>)
    requires |q| == 64 && s < i <= 64 && i - 1 == NextNonzero(q, s)
    ensures next + RunsOf(q, i) == runs + RunsOf(q, s)
    ensures before + RunsLog(ht, next) == before + RunsLog(ht, runs) + RunLog(ht, i - 1 - s, q[i - 1])
  {
    RunsNext(q, runs, s, i);
    RunsLogNext(ht, runs, Run(i - 1 - s, q[i - 1]), before);
    next := runs + [Run(i - 1 - s, q[i - 1])];
  }

  lemma {:induction false} NoRuns(q: seq<int>, i: nat, p: nat)
    requires IsLast(q, p) && p < i <= 64
    ensures RunsOf(q, i) == [] && NextNonzero(q, i) == 64
  {
    NextIs(q, i, 64);
  }

  /** Moving eight pending bits into a byte keeps the bits written. */
  lemma {:induction false} NextByteBits(bytes: seq<nat>, pending: seq<bool>, c: nat)
    requires 8 <= |pending| && c == Value(pending[..8])
    ensures ByteBits(bytes + [c]) + pending[8..] == ByteBits(bytes) + pending
  {
    ByteBitsConcat(bytes, [c]);
    MsbValue(pending[..8]);
    assert ByteBits([c]) == Msb(c, 8);
    assert pending == pending[..8] + pending[8..];
  }

  // ---------- the codes written are the code of the block ----------

  function BookOf(ht: seq<Code>): (book: Book)
    ensures |book| == |ht| && forall sym :: 0 <= sym < |ht| ==> book[sym] == CodeBits(ht[sym])
  {
    seq(|ht|, sym requires 0 <= sym < |ht| => CodeBits(ht[sym]))
  }

  lemma {:induction false} WordIs(ht: seq<Code>, sym: int)
    ensures WordOf(BookOf(ht), sym) == CodeBits(At(ht, sym)) == Flatten([At(ht, sym)])
  {
    NoneBefore<Code>([At(ht, sym)]);
    FlattenNext([], At(ht, sym));
    NoneBefore(CodeBits(At(ht, sym)));
  }

  lemma {:induction false} AllRuns(q: seq<int>, runs: seq<Run>, i: nat, p: nat)
    requires IsLast(q, p) && i == p + 1 && runs + RunsOf(q, i) == RunsOf(q, 1)
    ensures runs == RunsOf(q, 1)
  {
    NoRuns(q, i, p);
  }

  function Times(word: seq<bool>, n: nat): seq<bool> {
    if n == 0 then [] else Times(word, n - 1) + word
  }

  lemma NoTimes(word: seq<bool>, n: nat, rest: seq<bool>)
    requires n == 0
    ensures rest == Times(word, n) + rest
  {
  }

  lemma {:induction false} FlattenRepeat(c: Code, n: nat)
    ensures Flatten(Repeat(c, n)) == Times(CodeBits(c), n)
  {
    if n > 0 {
      FlattenRepeat(c, n - 1);
      FlattenNext(Repeat(c, n - 1), c);
    }
  }

  lemma {:induction false} NoSixteens(book: Book, word: seq<bool>, q: seq<int>, at: nat, n: nat, all: seq<bool>)
    requires |q| == 64 && 1 <= at <= 64 && n == 0 && all == AcBits(book, q, at)
    ensures all == Times(word, n) + AcBits(book, q, at)
  {
    NoTimes(word, n, all);
  }

  /** Sixteen-zero codes lead that much further on. */
  lemma {:induction false} SixteensCode(ht: seq<Code>, q: seq<int>, s: nat, n: nat, i: nat, at: nat)
    requires |q| == 64 && 1 <= s && at == s + 16 * n <= i < 64 && i == NextNonzero(q, s)
    ensures AcBits(BookOf(ht), q, s) == Flatten(Repeat(At(ht, 0xF0), n)) + AcBits(BookOf(ht), q, at)
  {
    FlattenRepeat(At(ht, 0xF0), n);
    WordIs(ht, 0xF0);
    SixteensBits(BookOf(ht), CodeBits(At(ht, 0xF0)), q, s, n, i, at, AcBits(BookOf(ht), q, s));
  }

  lemma {:induction false} SixteensBits(book: Book, word: seq<bool>, q: seq<int>, s: nat, n: nat, i: nat, at: nat, all: seq<bool>)
    requires |q| == 64 && 1 <= s && at == s + 16 * n <= i < 64 && i == NextNonzero(q, s)
    requires all == AcBits(book, q, s) && word == WordOf(book, 0xF0)
    ensures all == Times(word, n) + AcBits(book, q, at)
  {
    if n == 0 {
      assert at == s;
      NoSixteens(book, word, q, at, n, all);
    } else {
      var last, m := at - 16, n - 1;
      SixteensBits(book, word, q, s, m, i, last, all);
      NextLater(q, s, last, i);
      SixteensNext(book, word, q, last, at, all, Times(word, m));
    }
  }

  lemma {:induction false} SixteensNext(book: Book, word: seq<bool>, q: seq<int>, last: nat, at: nat, all: seq<bool>, front: seq<bool>)
    requires |q| == 64 && 1 <= last < 64 && at == last + 16 <= NextNonzero(q, last) < 64
    requires all == front + AcBits(book, q, last) && word == WordOf(book, 0xF0)
    ensures all == (front + word) + AcBits(book, q, at)
  {
    SixteenCode(book, word, q, last, at);
    Assoc(front, word, AcBits(book, q, at));
  }

  lemma {:induction false} NextLater(q: seq<int>, s: nat, last: nat, i: nat)
    requires |q| == 64 && s <= last <= i < 64 && i == NextNonzero(q, s)
    ensures NextNonzero(q, last) == i
  {
    NextFound(q, s);
    NextIs(q, last, i);
  }

  lemma {:induction false} ItemIs(q: seq<int>, s: nat, i: nat)
    requires |q| == 64 && s < 64 && i == NextNonzero(q, s) < 64
    ensures i - s >= 16 ==> ItemAt(q, s) == SixteenZeros && AfterItem(q, s) == s + 16
    ensures i - s < 16 ==> ItemAt(q, s) == RunValue(i - s, q[i]) && AfterItem(q, s) == i + 1
  {
  }

  lemma {:induction false} AcStep(ac: Book, q: seq<int>, s: nat, item: AcItem, next: nat)
    requires |q| == 64 && 1 <= s < 64 && item == ItemAt(q, s) && next == AfterItem(q, s)
    ensures AcBits(ac, q, s) == WordOf(ac, ItemSymbol(item)) + (ItemBits(item) + AcBits(ac, q, next))
  {
  }

  lemma {:induction false} SixteenCode(book: Book, word: seq<bool>, q: seq<int>, s: nat, at: nat)
    requires |q| == 64 && 1 <= s < 64 && at == s + 16 <= NextNonzero(q, s) < 64 && word == WordOf(book, 0xF0)
    ensures AcBits(book, q, s) == word + AcBits(book, q, at)
  {
    ItemIs(q, s, NextNonzero(q, s));
    AcStep(book, q, s, SixteenZeros, at);
    NoneBefore(AcBits(book, q, at));
  }

  lemma {:induction false} RunLogBits(ht: seq<Code>, run: nat, v: int, n: nat, k: nat)
    requires n == run / 16 && k == run % 16
    ensures Flatten(RunLog(ht, run, v))
      == (Flatten(Repeat(At(ht, 0xF0), n)) + CodeBits(At(ht, ItemSymbol(RunValue(k, v))))) + MagnitudeBits(v)
  {
    var zeros, word := Repeat(At(ht, 0xF0), n), At(ht, ItemSymbol(RunValue(k, v)));
    FlattenNext(zeros, word);
    FlattenNext(zeros + [word], MagnitudeCode(v));
    assert zeros + [word] + [MagnitudeCode(v)] == RunLog(ht, run, v);
  }

  /** The code of fewer than sixteen zeros and the value behind them. */
  lemma {:induction false} ShortRunCode(ht: seq<Code>, q: seq<int>, at: nat, i: nat, k: nat, next: nat)
    requires AcRange(q) && 1 <= at <= i < 64 && i == NextNonzero(q, at) && next == i + 1 && i - at == k < 16
    ensures AcBits(BookOf(ht), q, at)
      == CodeBits(At(ht, ItemSymbol(RunValue(k, q[i])))) + (MagnitudeBits(q[i]) + AcBits(BookOf(ht), q, next))
  {
    ItemIs(q, at, i);
    var item := RunValue(k, q[i]);
    AcStep(BookOf(ht), q, at, item, next);
    WordIs(ht, ItemSymbol(item));
  }

  lemma {:induction false} RunCode(ht: seq<Code>, q: seq<int>, s: nat, i: nat, next: nat)
    requires AcRange(q) && 1 <= s <= i < 64 && i == NextNonzero(q, s) && next == i + 1
    ensures AcBits(BookOf(ht), q, s) == Flatten(RunLog(ht, i - s, q[i])) + AcBits(BookOf(ht), q, next)
  {
    var n, k := (i - s) / 16, (i - s) % 16;
    var at := s + 16 * n;
    SixteensCode(ht, q, s, n, i, at);
    NextFound(q, s);
    NextIs(q, at, i);
    ShortRunCode(ht, q, at, i, k, next);
    RunLogBits(ht, i - s, q[i], n, k);
    Assoc4(Flatten(Repeat(At(ht, 0xF0), n)), CodeBits(At(ht, ItemSymbol(RunValue(k, q[i])))), MagnitudeBits(q[i]),
           AcBits(BookOf(ht), q, next));
  }

  lemma {:induction false} RunsLogSnoc(ht: seq<Code>, runs: seq<Run>, r: Run)
    ensures RunsLog(ht, runs + [r]) == RunsLog(ht, runs) + RunLog(ht, r.zeros, r.value)
  {
    assert (runs + [r])[..|runs|] == runs;
  }

  lemma {:induction false} RunsLogCons(ht: seq<Code>, r: Run, runs: seq<Run>)
    ensures RunsLog(ht, [r] + runs) == RunLog(ht, r.zeros, r.value) + RunsLog(ht, runs)
  {
    if runs == [] {
      NoneAfter([r]);
      NoneBefore([r]);
      RunsLogSnoc(ht, [], r);
      NoneBefore(RunLog(ht, r.zeros, r.value));
      NoneAfter(RunLog(ht, r.zeros, r.value));
    } else {
      var front, last := runs[..|runs| - 1], runs[|runs| - 1];
      assert runs == front + [last];
      RunsLogCons(ht, r, front);
      Assoc([r], front, [last]);
      RunsLogSnoc(ht, [r] + front, last);
      RunsLogSnoc(ht, front, last);
      Assoc(RunLog(ht, r.zeros, r.value), RunsLog(ht, front), RunLog(ht, last.zeros, last.value));
    }
  }

  lemma {:induction false} EndCode(ht: seq<Code>, q: seq<int>, p: nat)
    requires IsLast(q, p)
    ensures AcBits(BookOf(ht), q, p + 1) == Flatten(EndLog(ht, p))
  {
    NoRuns(q, p + 1, p);
    if p < 63 {
      WordIs(ht, 0x00);
      NoneAfter<bool>([]);
      NoneAfter(CodeBits(At(ht, 0x00)));
    }
  }

  /** The runs of a block and its end are its AC code. */
  lemma {:induction false} RunsCode(ht: seq<Code>, q: seq<int>, i: nat, p: nat)
    requires AcRange(q) && IsLast(q, p) && 1 <= i <= p + 1
    ensures AcBits(BookOf(ht), q, i) == Flatten(RunsLog(ht, RunsOf(q, i))) + Flatten(EndLog(ht, p))
    decreases 64 - i
  {
    if i == p + 1 {
      NoRuns(q, i, p);
      EndCode(ht, q, p);
      assert [] + Flatten(EndLog(ht, p)) == Flatten(EndLog(ht, p));
    } else {
      var j := NextNonzero(q, i);
      NextFound(q, i);
      assert j <= p;
      var next := j + 1;
      RunCode(ht, q, i, j, next);
      RunsCode(ht, q, next, p);
      RunsFirst(ht, q, i, j, next);
      Assoc(Flatten(RunLog(ht, j - i, q[j])), Flatten(RunsLog(ht, RunsOf(q, next))), Flatten(EndLog(ht, p)));
    }
  }

  lemma {:induction false} RunsFirst(ht: seq<Code>, q: seq<int>, i: nat, j: nat, next: nat)
    requires |q| == 64 && i <= 64 && j == NextNonzero(q, i) < 64 && next == j + 1
    ensures Flatten(RunsLog(ht, RunsOf(q, i)))
         == Flatten(RunLog(ht, j - i, q[j])) + Flatten(RunsLog(ht, RunsOf(q, next)))
  {
    var r, runs := Run(j - i, q[j]), RunsOf(q, next);
    assert RunsOf(q, i) == [r] + runs;
    RunsLogFirst(ht, r, runs);
  }

  lemma {:induction false} RunsLogFirst(ht: seq<Code>, r: Run, runs: seq<Run>)
    ensures Flatten(RunsLog(ht, [r] + runs)) == Flatten(RunLog(ht, r.zeros, r.value)) + Flatten(RunsLog(ht, runs))
  {
    RunsLogCons(ht, r, runs);
    FlattenConcat(RunLog(ht, r.zeros, r.value), RunsLog(ht, runs));
  }

  /** Writing the codes of a block appends its code. */
  lemma {:induction false} BlockCode(htdc: seq<Code>, htac: seq<Code>, q: seq<int>, p: nat, pred: int, before: seq<Code>)
    requires AcRange(q) && IsLast(q, p)
    ensures Flatten(BlockLog(htdc, htac, q, p, pred, before))
         == Flatten(before) + BlockBits(BookOf(htdc), BookOf(htac), q, pred)
  {
    DcCode(htdc, q[0] - pred);
    BlockTail(htac, q, p, before, DcLog(htdc, q[0] - pred), DcBits(BookOf(htdc), q[0] - pred));
  }

  lemma {:induction false} BlockTail(ht: seq<Code>, q: seq<int>, p: nat, before: seq<Code>, dc: seq<Code>, dcBits: seq<bool>)
    requires AcRange(q) && IsLast(q, p) && Flatten(dc) == dcBits
    ensures Flatten(before + dc + RunsLog(ht, RunsOf(q, 1)) + EndLog(ht, p)) == Flatten(before) + (dcBits + AcBits(BookOf(ht), q, 1))
  {
    RunsCode(ht, q, 1, p);
    BlockFlat(before, dc, RunsLog(ht, RunsOf(q, 1)), EndLog(ht, p), dcBits, AcBits(BookOf(ht), q, 1));
  }

  lemma BlockFlat(before: seq<Code>, dc: seq<Code>, runs: seq<Code>, end: seq<Code>, dcBits: seq<bool>, acBits: seq<bool>)
    requires Flatten(dc) == dcBits && acBits == Flatten(runs) + Flatten(end)
    ensures Flatten(before + dc + runs + end) == Flatten(before) + (dcBits + acBits)
  {
    Flatten4(before, dc, runs, end);
  }

  lemma {:induction false} Flatten4(a: seq<Code>, b: seq<Code>, c: seq<Code>, d: seq<Code>)
    ensures Flatten(a + b + c + d) == Flatten(a) + (Flatten(b) + (Flatten(c) + Flatten(d)))
  {
    FlattenConcat(a + b + c, d);
    FlattenConcat(a + b, c);
    FlattenConcat(a, b);
    Assoc4(Flatten(a), Flatten(b), Flatten(c), Flatten(d));
  }

  lemma {:induction false} DcCode(ht: seq<Code>, diff: int)
    ensures Flatten(DcLog(ht, diff)) == DcBits(BookOf(ht), diff)
  {
    var size := At(ht, BitLen(Abs(diff)));
    WordIs(ht, BitLen(Abs(diff)));
    if diff == 0 {
      assert DcLog(ht, diff) == [size];
      assert CodeBits(size) + MagnitudeBits(diff) == CodeBits(size);
    } else {
      FlattenNext([size], MagnitudeCode(diff));
      assert DcLog(ht, diff) == [size] + [MagnitudeCode(diff)];
    }
  }
}
