/** The decoder tables that stb_image.h derives from a JPEG Huffman table, and the symbol
    lookup through them. */
module JpegHuffman {
  import opened Bits
  import opened Canonical

  /** What the builder accepts: at most 256 codes, and no length runs out of codes. */
  predicate Accepted(count: seq<nat>) {
    NotOverfull(count) && Total(count, 16) <= 256
  }

  /** With 256 codes of at most FAST_BITS bits, the last symbol's number is the flag that
      marks a fast entry as empty. */
  predicate Shadowed(count: seq<nat>, buf: nat) {
    |count| == 16 && Total(count, FAST_BITS) == 256 && Matches(count, 255, buf)
  }

  // ---------- the tables ----------

  datatype Huffman = Huffman(
    fast: seq<int>, code: seq<int>, values: seq<int>, size: seq<int>, maxcode: seq<int>, delta: seq<int>)

  /** The tables hold the canonical code of the counts. */
  ghost predicate Built(h: Huffman, count: seq<nat>) {
    && Accepted(count)
    && |h.fast| == 512 && |h.code| == 256 && |h.values| == 256
    && |h.size| == 257 && |h.maxcode| == 18 && |h.delta| == 17
    && (forall k :: 0 <= k < Total(count, 16) ==> h.size[k] == SizeAt(count, k) && h.code[k] == CodeAt(count, k))
    && Tabulated(count, h.maxcode, h.delta, 17)
    && h.maxcode[17] == 0xffffffff
    && FastUpTo(count, h.fast, Total(count, 16))
  }

  /** The size list: the length of every code in order, then 0; at most 256 codes. */
  method SizeList(count: seq<nat>) returns (ok: bool, sizes: seq<int>, k: nat)
    requires |count| == 16
    ensures ok <==> Total(count, 16) <= 256
    ensures ok ==> k == Total(count, 16) && Sized(count, sizes)
  {
    ok, sizes, k := false, [], 0;
    var size := new int[257];
    var i := 0;
    while i < 16
      invariant 0 <= i <= 16 && k == Total(count, i) <= 256 && k <= Total(count, 16)
      invariant forall m :: 0 <= m < k ==> size[m] == SizeAt(count, m)
    {
      var j := 0;
      while j < count[i]
        invariant 0 <= j <= count[i] && k == Total(count, i) + j <= 256 && k <= Total(count, 16)
        invariant forall m :: 0 <= m < k ==> size[m] == SizeAt(count, m)
      {
        SizeUnique(count, k, i + 1);
        size[k] := i + 1;
        k := k + 1;
        if k >= 257 {
          return;
        }
        j := j + 1;
      }
      i := i + 1;
    }
    size[k] := 0;
    ok, sizes := true, size[..];
  }

  /** maxcode and delta are right for the lengths below j. */
  ghost predicate Tabulated(count: seq<nat>, maxcode: seq<int>, delta: seq<int>, j: nat)
    requires |count| == 16 && j <= 17
  {
    && |maxcode| == 18 && |delta| == 17
    && forall m :: 1 <= m < j ==> maxcode[m] == MaxCode(count, m) && delta[m] == Delta(count, m)
  }

  lemma {:induction false} TabulateNext(count: seq<nat>, maxcode: seq<int>, delta: seq<int>, j: nat, mc: seq<int>, dl: seq<int>)
    requires |count| == 16 && 1 <= j <= 16 && Tabulated(count, maxcode, delta, j)
    requires mc == maxcode[j := MaxCode(count, j)] && dl == delta[j := Delta(count, j)]
    ensures Tabulated(count, mc, dl, j + 1)
  {
  }

  ghost predicate Sized(count: seq<nat>, size: seq<int>) {
    && |count| == 16 && |size| == 257 && Total(count, 16) <= 256
    && size[Total(count, 16)] == 0
    && forall m :: 0 <= m < Total(count, 16) ==> size[m] == SizeAt(count, m)
  }

  /** A symbol has length j exactly when it lies past the shorter codes and not past the
      codes of length j. */
  lemma {:induction false} SizeTest(count: seq<nat>, size: seq<int>, j: nat, k: nat)
    requires Sized(count, size) && 1 <= j <= 16 && Total(count, j - 1) <= k <= Total(count, 16)
    ensures size[k] == j <==> k < Total(count, j)
  {
    TotalMono(count, j, 16);
    if k < Total(count, j) { SizeUnique(count, k, j); }
  }

  /** Assigns consecutive codes to the symbols of length j. */
  method AssignLength(count: seq<nat>, size: seq<int>, code: array<int>, j: nat, k0: nat, c0: nat)
    returns (k: nat, c: nat)
    requires Sized(count, size) && code.Length == 256 && 1 <= j <= 16
    requires k0 == Total(count, j - 1) <= Total(count, 16) && c0 == 2 * CodeAfter(count, j - 1)
    requires forall m :: 0 <= m < k0 ==> code[m] == CodeAt(count, m)
    modifies code
    ensures k == Total(count, j) <= Total(count, 16) && c == CodeAfter(count, j)
    ensures c <= 0x10000 ==> forall m :: 0 <= m < k ==> code[m] == CodeAt(count, m)
  {
    k, c := k0, c0;
    SizeTest(count, size, j, k);
    TotalMono(count, j, 16);
    while size[k] == j
      invariant Total(count, j - 1) <= k <= Total(count, j)
      invariant size[k] == j <==> k < Total(count, j)
      invariant c == 2 * CodeAfter(count, j - 1) + (k - Total(count, j - 1))
      invariant c <= 0x10000 ==> forall m :: 0 <= m < k ==> code[m] == CodeAt(count, m)
      decreases Total(count, j) - k
    {
      SizeUnique(count, k, j);
      code[k] := c % 0x10000;
      k, c := k + 1, c + 1;
      SizeTest(count, size, j, k);
    }
  }

  lemma {:induction false} ShortCode(count: seq<nat>, j: nat)
    requires |count| == 16 && 1 <= j <= 16
    requires forall m :: 1 <= m <= j && count[m - 1] > 0 ==> CodeAfter(count, m) <= Pow2(m)
    ensures CodeAfter(count, j) <= Pow2(j) <= 0x10000
  {
    CodeAfterFits(count, j);
    Pow2Mono(j, 16);
    Pow2Values();
  }

  /** Building succeeds exactly on the accepted counts and fills in the canonical code. */
  method BuildHuffman(count: seq<nat>, values: seq<int>) returns (ok: bool, h: Huffman)
    requires |count| == 16 && |values| == 256
    ensures ok <==> Accepted(count)
    ensures ok ==> Built(h, count) && h.values == values
  {
    h := Huffman([], [], values, [], [], []);
    var size, total;
    ok, size, total := SizeList(count);
    if !ok {
      return;
    }
    ok := false;
    var code := new int[256];
    var maxcode := new int[18];
    var delta := new int[17];
    var k, c := 0, 0;
    var j := 1;
    while j <= 16
      invariant 1 <= j <= 17
      invariant k == Total(count, j - 1) <= Total(count, 16) && c == 2 * CodeAfter(count, j - 1)
      invariant forall m :: 1 <= m < j && count[m - 1] > 0 ==> CodeAfter(count, m) <= Pow2(m)
      invariant forall m :: 0 <= m < k ==> code[m] == CodeAt(count, m)
      invariant Tabulated(count, maxcode[..], delta[..], j)
    {
      ghost var mc, dl := maxcode[..], delta[..];
      delta[j] := k - c;
      SizeTest(count, size, j, k);
      if size[k] == j {
        k, c := AssignLength(count, size, code, j, k, c);
        if c - 1 >= Pow2(j) {
          return;
        }
      }
      ShortCode(count, j);
      maxcode[j] := Shl(c, 16 - j);
      TabulateNext(count, mc, dl, j, maxcode[..], delta[..]);
      c := 2 * c;
      j := j + 1;
    }
    maxcode[j] := 0xffffffff;
    var fast := BuildFast(count, k, size, code[..]);
    ok := true;
    h := Huffman(fast, code[..], values, size, maxcode[..], delta[..]);
  }

  /** What the fast table holds once the symbols before i have been entered. */
  ghost predicate FastUpTo(count: seq<nat>, fast: seq<int>, i: nat)
    requires |count| == 16
  {
    && |fast| == 512
    && (forall x, m: nat ::
          (0 <= x < 512 && m < i && m < Total(count, FAST_BITS)
           && Start(count, m, FAST_BITS) <= x < Start(count, m + 1, FAST_BITS))
          ==> fast[x] == m)
    && (forall x ::
          (0 <= x < 512 && CodeAfter(count, FAST_BITS) <= x) ==> fast[x] == 255)
  }

  lemma {:induction false} FastStep(count: seq<nat>, before: seq<int>, after: seq<int>, i: nat)
    requires Accepted(count) && i < Total(count, FAST_BITS)
    requires FastUpTo(count, before, i) && |after| == 512
    requires forall x :: 0 <= x < 512 ==>
      after[x] == if Start(count, i, FAST_BITS) <= x < Start(count, i + 1, FAST_BITS) then i else before[x]
    ensures FastUpTo(count, after, i + 1)
  {
    forall x, m: nat | 0 <= x < 512 && m < i + 1 && Start(count, m, FAST_BITS) <= x < Start(count, m + 1, FAST_BITS)
      ensures after[x] == m
    {
      if m < i { StartMono(count, m + 1, i, FAST_BITS); }
    }
    StartMono(count, i + 1, Total(count, FAST_BITS), FAST_BITS);
  }

  /** The acceleration table, filled by the last loop of the builder. */
  method BuildFast(count: seq<nat>, k: nat, size: seq<int>, code: seq<int>) returns (table: seq<int>)
    requires Accepted(count) && k == Total(count, 16) && |size| == 257 && |code| == 256
    requires forall m :: 0 <= m < k ==> size[m] == SizeAt(count, m) && code[m] == CodeAt(count, m)
    ensures FastUpTo(count, table, k)
  {
    var fast := new int[512](_ => 255);
    var i := 0;
    while i < k
      invariant 0 <= i <= k
      invariant FastUpTo(count, fast[..], i)
    {
      var s := size[i];
      if s <= FAST_BITS {
        InFast(count, i);
        var c := Shl(code[i], FAST_BITS - s);
        var m := Pow2(FAST_BITS - s);
        Pow2Positive(FAST_BITS - s);
        ghost var before := fast[..];
        var j := 0;
        while j < m
          invariant 0 <= j <= m
          invariant forall x :: 0 <= x < 512 ==> fast[x] == if c <= x < c + j then i else before[x]
        {
          fast[c + j] := i;
          j := j + 1;
        }
        FastStep(count, before, fast[..], i);
      } else if i < Total(count, FAST_BITS) {
        Before(count, i, FAST_BITS);
        assert false;
      }
      i := i + 1;
    }
    table := fast[..];
  }

  // ---------- looking a code up ----------

  /** The fast table answers exactly for the codes of at most FAST_BITS bits. */
  lemma {:induction false} FastLookup(h: Huffman, count: seq<nat>, buf: nat)
    requires Built(h, count) && !Shadowed(count, buf) && buf < 0x1_0000_0000
    ensures 0 <= Shr(buf, 23) < 512
    ensures var k := h.fast[Shr(buf, 23)];
      if k < 255 then 0 <= k < Total(count, 16) && Matches(count, k, buf) && SizeAt(count, k) <= FAST_BITS
      else Shr(buf, 16) >= MaxCode(count, FAST_BITS)
  {
    Pow2Values();
    var x := Shr(buf, 23);
    ShrRange(buf, 23, 9);
    TotalMono(count, FAST_BITS, 16);
    if x < CodeAfter(count, FAST_BITS) {
      var k := Covered(count, x, FAST_BITS, Total(count, FAST_BITS));
      assert h.fast[x] == k;
      MatchesInterval(count, k, buf, FAST_BITS);
      StartNext(count, k, FAST_BITS);
    } else {
      ShrShr(buf, 16, 7);
      ShrIs(Shr(buf, 16), 7, x);
      ShlMono(CodeAfter(count, FAST_BITS), x, 7);
    }
  }

  ghost predicate Bytes(values: seq<int>) {
    forall i :: 0 <= i < |values| ==> 0 <= values[i] < 256
  }

  /** A shadowed buffer sends the search to a length that no code has. */
  lemma {:induction false} ShadowedLookup(h: Huffman, count: seq<nat>, buf: nat)
    requires Built(h, count) && Shadowed(count, buf) && buf < 0x1_0000_0000
    ensures 0 <= Shr(buf, 23) < 512 && h.fast[Shr(buf, 23)] == 255
    ensures SizeAt(count, 255) <= FAST_BITS && Shr(buf, 16) < h.maxcode[FAST_BITS + 1]
  {
    Pow2Values();
    ShrRange(buf, 23, 9);
    Before(count, 255, FAST_BITS);
    MatchesInterval(count, 255, buf, FAST_BITS);
    MatchesInterval(count, 255, buf, 16);
    TotalMono(count, FAST_BITS, FAST_BITS + 1);
    TotalMono(count, FAST_BITS + 1, 16);
    StartAtTotal(count, FAST_BITS + 1, 16);
    StartMono(count, 256, Total(count, 10), 16);
  }

  /** The symbol lookup of the decoder: through the fast table, or by searching the code
      bounds. It finds the one symbol whose code the valid bits of the buffer start with,
      and fails if and only if there is none, unless the buffer is shadowed; a shadowed
      buffer is never decoded as its symbol. */
  method Lookup(h: Huffman, buf: nat, bits: int, ghost count: seq<nat>) returns (v: int, len: nat)
    requires Built(h, count) && Bytes(h.values)
    requires buf < 0x1_0000_0000 && 0 <= bits <= 32
    ensures !Shadowed(count, buf) ==>
      (v >= 0 <==> exists k: nat :: Matches(count, k, buf) && SizeAt(count, k) <= bits)
    ensures !Shadowed(count, buf) && v >= 0 ==>
      exists k: nat :: Matches(count, k, buf) && v == h.values[k] && len == SizeAt(count, k) <= bits
    ensures Shadowed(count, buf) ==> v < 0 || len != SizeAt(count, 255)
    ensures v < 0 ==> v == -1
    ensures v < 256
  {
    if Shadowed(count, buf) { ShadowedLookup(h, count, buf); } else { FastLookup(h, count, buf); }
    var k: int := h.fast[Shr(buf, 23)];
    if k < 255 {
      var s := h.size[k];
      forall m: nat | Matches(count, m, buf) ensures m == k { PrefixFree(count, k, m, buf); }
      if s > bits {
        return -1, 0;
      }
      return h.values[k], s;
    }
    var temp := Shr(buf, 16);
    Pow2Values();
    ShrRange(buf, 16, 16);
    k := FAST_BITS + 1;
    while temp >= h.maxcode[k]
      invariant FAST_BITS < k <= 17
      invariant Shadowed(count, buf) ==> k == FAST_BITS + 1
      invariant !Shadowed(count, buf) ==> MaxCode(count, k - 1) <= temp
      decreases 17 - k
    {
      k := k + 1;
    }
    if k == 17 {
      forall m: nat ensures !Matches(count, m, buf) { NoCode(count, buf, m); }
      return -1, 16;
    }
    if !Shadowed(count, buf) {
      ghost var sym := SlowLookup(count, buf, k);
      forall m: nat | Matches(count, m, buf) ensures m == sym { PrefixFree(count, sym, m, buf); }
      LowSmall(Shr(buf, 32 - k), k);
    }
    if k > bits {
      return -1, 0;
    }
    var c: int := Low(Shr(buf, 32 - k), k) + h.delta[k];
    if c < 0 || c >= 256 {
      return -1, 0;
    }
    return h.values[c], k;
  }

  /** The counts of a table with 255 codes of eight bits and one of nine. */
  const FULL_TABLE: seq<nat> := [0, 0, 0, 0, 0, 0, 0, 255, 1, 0, 0, 0, 0, 0, 0, 0]

  lemma FullTotals()
    ensures Total(FULL_TABLE, 7) == 0 == CodeAfter(FULL_TABLE, 7)
    ensures Total(FULL_TABLE, 8) == 255 == CodeAfter(FULL_TABLE, 8)
    ensures Total(FULL_TABLE, 9) == 256 == Total(FULL_TABLE, 16) && CodeAfter(FULL_TABLE, 9) == 511
  {
    assert Total(FULL_TABLE, 2) == 0 == CodeAfter(FULL_TABLE, 2);
    assert Total(FULL_TABLE, 4) == 0 == CodeAfter(FULL_TABLE, 4);
    assert Total(FULL_TABLE, 6) == 0 == CodeAfter(FULL_TABLE, 6);
    assert Total(FULL_TABLE, 11) == 256;
    assert Total(FULL_TABLE, 13) == 256;
    assert Total(FULL_TABLE, 15) == 256;
  }

  /** There is a table that the builder accepts and a buffer that is its last code word, yet
      is never decoded as that symbol. */
  lemma ShadowedExists()
    ensures Accepted(FULL_TABLE) && Shadowed(FULL_TABLE, 0xFF00_0000)
  {
    FullTotals();
    Pow2Values();
    forall j | 1 <= j <= 16 && FULL_TABLE[j - 1] > 0 ensures CodeAfter(FULL_TABLE, j) <= Pow2(j) {
      assert j == 8 || j == 9;
    }
    SizeUnique(FULL_TABLE, 255, 9);
    ShlTimes(510, 23);
    ShlTimes(511, 23);
    ShrIs(0xFF00_0000, 23, 510);
  }
}
