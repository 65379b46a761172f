/** The inflater's Huffman tables: built from a list of code lengths (section 3.2.2 of
    RFC 1951), looked up through bit-reversed fast entries or by searching the code bounds. */
module ZHuffman {
  import opened Bits
  import opened LsbBits
  import opened Canonical

  // ---------- codes of symbols ----------

  /** The code length of every symbol; 0 for a symbol without a code. */
  predicate IsSizes(sizes: seq<nat>) {
    |sizes| <= 288 && forall i :: 0 <= i < |sizes| ==> sizes[i] <= 15
  }

  /** How many of the first i symbols have length s. */
  function CountOf(sizes: seq<nat>, i: nat, s: nat): (n: nat)
    requires i <= |sizes|
    ensures n <= i
  {
    if i == 0 then 0 else CountOf(sizes, i - 1, s) + if sizes[i - 1] == s then 1 else 0
  }

  function Counts(sizes: seq<nat>): (count: seq<nat>)
    ensures |count| == 16 && forall s :: 1 <= s <= 16 ==> count[s - 1] == CountOf(sizes, |sizes|, s)
  {
    seq(16, s requires 0 <= s < 16 => CountOf(sizes, |sizes|, s + 1))
  }

  /** A symbol's place in the canonical order: by length, then by number. */
  function Rank(sizes: seq<nat>, i: nat): nat
    requires i < |sizes| && 1 <= sizes[i] <= 16
  {
    Total(Counts(sizes), sizes[i] - 1) + CountOf(sizes, i, sizes[i])
  }

  lemma {:induction false} CountMono(sizes: seq<nat>, i: nat, j: nat, s: nat)
    requires i <= j <= |sizes|
    ensures CountOf(sizes, i, s) <= CountOf(sizes, j, s)
    ensures i < j && sizes[i] == s ==> CountOf(sizes, i, s) < CountOf(sizes, j, s)
    decreases j - i
  {
    if i < j { CountMono(sizes, i + 1, j, s); }
  }

  lemma {:induction false} RankRange(sizes: seq<nat>, i: nat)
    requires IsSizes(sizes) && i < |sizes| && sizes[i] > 0
    ensures var count, s, k := Counts(sizes), sizes[i], Rank(sizes, i);
      && Total(count, s - 1) <= k < Total(count, s) <= Total(count, 16)
      && SizeAt(count, k) == s
      && CodeAt(count, k) == 2 * CodeAfter(count, s - 1) + CountOf(sizes, i, s)
  {
    CountMono(sizes, i, |sizes|, sizes[i]);
    SizeUnique(Counts(sizes), Rank(sizes, i), sizes[i]);
    TotalMono(Counts(sizes), sizes[i], 16);
  }

  /** Different symbols have different ranks. */
  lemma {:induction false} RankInjective(sizes: seq<nat>, i: nat, j: nat)
    requires IsSizes(sizes) && i < |sizes| && j < |sizes| && sizes[i] > 0 && sizes[j] > 0
    requires Rank(sizes, i) == Rank(sizes, j)
    ensures i == j
  {
    RankRange(sizes, i);
    RankRange(sizes, j);
    if i < j { CountMono(sizes, i, j, sizes[i]); }
    if j < i { CountMono(sizes, j, i, sizes[i]); }
  }

  /** Every rank is some symbol's. */
  lemma {:induction false} RankOnto(sizes: seq<nat>, k: nat) returns (i: nat)
    requires IsSizes(sizes) && k < Total(Counts(sizes), 16)
    ensures i < |sizes| && sizes[i] > 0 && Rank(sizes, i) == k
  {
    var s := SizeAt(Counts(sizes), k);
    i := NthOf(sizes, |sizes|, s, k - Total(Counts(sizes), s - 1));
  }

  lemma {:induction false} NthOf(sizes: seq<nat>, n: nat, s: nat, r: nat) returns (i: nat)
    requires n <= |sizes| && r < CountOf(sizes, n, s)
    ensures i < n && sizes[i] == s && CountOf(sizes, i, s) == r
  {
    if sizes[n - 1] == s && r == CountOf(sizes, n - 1, s) {
      i := n - 1;
    } else {
      i := NthOf(sizes, n - 1, s, r);
    }
  }

  /** The code word of a symbol, in transmission order. */
  function SymbolWord(sizes: seq<nat>, i: nat): seq<bool>
    requires IsSizes(sizes) && i < |sizes| && sizes[i] > 0
  {
    RankRange(sizes, i);
    Word(Counts(sizes), Rank(sizes, i))
  }

  function SymbolCode(sizes: seq<nat>, i: nat): nat
    requires IsSizes(sizes) && i < |sizes| && sizes[i] > 0
  {
    RankRange(sizes, i);
    CodeAt(Counts(sizes), Rank(sizes, i))
  }

  lemma {:induction false} CodeBound(sizes: seq<nat>, i: nat)
    requires IsSizes(sizes) && NotOverfull(Counts(sizes)) && i < |sizes| && sizes[i] > 0
    ensures SymbolWord(sizes, i) == Msb(SymbolCode(sizes, i), sizes[i])
    ensures SymbolCode(sizes, i) < Pow2(sizes[i])
  {
    RankRange(sizes, i);
    CodeAfterFits(Counts(sizes), sizes[i]);
  }

  /** The low 16 bits of the buffer start with the code of symbol i. */
  predicate Coded(sizes: seq<nat>, i: int, buf: nat) {
    IsSizes(sizes) && 0 <= i < |sizes| && sizes[i] > 0 && SymbolWord(sizes, i) <= Lsb(buf, 16)
  }

  // ---------- bit reversal ----------

  function Reverse(b: seq<bool>): (r: seq<bool>)
    ensures |r| == |b|
  {
    if b == [] then [] else Reverse(b[1..]) + [b[0]]
  }

  lemma {:induction false} ReverseValue(b: seq<bool>)
    ensures Value(Reverse(b)) == LsbValue(b)
  {
    if b != [] {
      ReverseValue(b[1..]);
      assert Reverse(b)[..|b| - 1] == Reverse(b[1..]);
    }
  }

  lemma {:induction false} ReverseSnoc(b: seq<bool>, x: bool)
    ensures Reverse(b + [x]) == [x] + Reverse(b)
  {
    if b == [] {
      assert [] + [x] == [x];
    } else {
      ReverseSnoc(b[1..], x);
      assert (b + [x])[1..] == b[1..] + [x];
    }
  }

  lemma {:induction false} MsbReversed(v: nat, n: nat)
    ensures Reverse(Msb(v, n)) == Lsb(v, n)
  {
    if n != 0 {
      MsbReversed(v / 2, n - 1);
      ReverseSnoc(Msb(v / 2, n - 1), v % 2 == 1);
    }
  }

  /** The n low bits of v in reverse order, as a number. */
  function Reversed(v: nat, n: nat): nat {
    Value(Lsb(v, n))
  }

  lemma {:induction false} ReversedTwice(v: nat, n: nat)
    requires v < Pow2(n)
    ensures Reversed(v, n) < Pow2(n) && Reversed(Reversed(v, n), n) == v
  {
    var b := Lsb(v, n);
    ValueBound(b);
    MsbValue(b);
    MsbReversed(Value(b), n);
    ReverseValue(b);
    LsbRoundTrip(v, n);
  }

  /** The first s bits of a string, as a number. */
  lemma {:induction false} FirstBits(b: seq<bool>, s: nat)
    requires s <= |b|
    ensures Shr(Value(b), |b| - s) == Value(b[..s])
  {
    assert b == b[..s] + b[s..];
    ValueConcat(b[..s], b[s..]);
    ValueBound(b[s..]);
    Split(Value(b), |b| - s, Value(b[..s]), Value(b[s..]));
  }

  /** Reversing 16 bits and shifting the rest away reverses the low bits. */
  function BitReverse(v: nat, bits: nat): int
    requires bits <= 16
  {
    Shr(Reversed(v, 16), 16 - bits)
  }

  lemma {:induction false} BitReverseIs(v: nat, bits: nat)
    requires bits <= 16
    ensures BitReverse(v, bits) == Reversed(v, bits)
  {
    FirstBits(Lsb(v, 16), bits);
    LsbPrefix(v, 16, bits);
  }

  lemma {:induction false} LsbOfLow(v: nat, n: nat)
    ensures 0 <= Low(v, n) && Lsb(Low(v, n), n) == Lsb(v, n)
  {
    LowRange(v, n);
    if n != 0 {
      LsbOfLow(v / 2, n - 1);
      ShrHalf(v, n - 1);
    }
  }

  lemma {:induction false} ShrHalf(v: int, k: nat)
    ensures Shr(v, k + 1) == Shr(v / 2, k)
  {
    ShrShr(v, 1, k);
    assert Shr(v, 1) == v / 2;
  }

  // ---------- the tables ----------

  datatype ZTable = ZTable(
    fast: seq<nat>, firstcode: seq<int>, maxcode: seq<int>, firstsymbol: seq<int>, size: seq<nat>, value: seq<nat>)

  /** The nine-bit window x, read in transmission order, starts with the code of symbol i. */
  predicate InWindow(sizes: seq<nat>, i: nat, x: nat)
    requires IsSizes(sizes)
  {
    && i < |sizes| && 1 <= sizes[i] <= FAST_BITS
    && SymbolWord(sizes, i) <= Lsb(x, FAST_BITS)
  }

  /** The fast entry of window x once the symbols before n have been entered: the length
      and the number of the last symbol whose code the window starts with; 0 for none. */
  function FastAt(sizes: seq<nat>, n: nat, x: nat): nat
    requires IsSizes(sizes) && n <= |sizes|
  {
    if n == 0 then 0
    else if InWindow(sizes, n - 1, x) then 512 * sizes[n - 1] + (n - 1)
    else FastAt(sizes, n - 1, x)
  }

  ghost predicate FastUpTo(sizes: seq<nat>, fast: seq<nat>, n: nat)
    requires IsSizes(sizes) && n <= |sizes|
  {
    |fast| == 512 && forall x: nat :: x < 512 ==> fast[x] == FastAt(sizes, n, x)
  }

  lemma {:induction false} FastAtFinds(sizes: seq<nat>, n: nat, x: nat) returns (i: nat)
    requires IsSizes(sizes) && n <= |sizes|
    ensures FastAt(sizes, n, x) != 0 ==> i < n && InWindow(sizes, i, x) && FastAt(sizes, n, x) == 512 * sizes[i] + i
  {
    i := 0;
    if n > 0 {
      i := FastAtFinds(sizes, n - 1, x);
      if InWindow(sizes, n - 1, x) { i := n - 1; }
    }
  }

  lemma {:induction false} FastAtNone(sizes: seq<nat>, n: nat, x: nat, i: nat)
    requires IsSizes(sizes) && i < n <= |sizes| && FastAt(sizes, n, x) == 0
    ensures !InWindow(sizes, i, x)
  {
    if i < n - 1 { FastAtNone(sizes, n - 1, x, i); }
  }

  /** The bounds are right for the lengths below n. */
  ghost predicate BoundsUpTo(count: seq<nat>, firstcode: seq<int>, maxcode: seq<int>, firstsymbol: seq<int>, n: nat)
    requires |count| == 16 && n <= 16
  {
    && |firstcode| == 16 && |maxcode| == 17 && |firstsymbol| == 16
    && forall s :: 1 <= s < n ==>
         && firstcode[s] == 2 * CodeAfter(count, s - 1)
         && maxcode[s] == MaxCode(count, s)
         && firstsymbol[s] == Total(count, s - 1)
  }

  lemma {:induction false} BoundsNext(count: seq<nat>, firstcode: seq<int>, maxcode: seq<int>, firstsymbol: seq<int>, n: nat)
    requires |count| == 16 && 1 <= n < 16 && BoundsUpTo(count, firstcode, maxcode, firstsymbol, n)
    ensures BoundsUpTo(count, firstcode[n := 2 * CodeAfter(count, n - 1)], maxcode[n := MaxCode(count, n)],
                       firstsymbol[n := Total(count, n - 1)], n + 1)
  {
  }

  /** Every symbol before n with a code is entered at its rank. */
  ghost predicate Entered(sizes: seq<nat>, size: seq<nat>, value: seq<nat>, n: nat)
    requires IsSizes(sizes)
  {
    && |size| == 288 && |value| == 288
    && forall i: nat :: i < n && i < |sizes| && sizes[i] > 0 && Rank(sizes, i) < 288 ==>
         size[Rank(sizes, i)] == sizes[i] && value[Rank(sizes, i)] == i
  }

  ghost predicate ZBuilt(z: ZTable, sizes: seq<nat>) {
    && IsSizes(sizes) && NotOverfull(Counts(sizes))
    && BoundsUpTo(Counts(sizes), z.firstcode, z.maxcode, z.firstsymbol, 16) && z.maxcode[16] == 0x10000
    && Entered(sizes, z.size, z.value, |sizes|)
    && FastUpTo(sizes, z.fast, |sizes|)
  }

  /** The tables that building from a list of lengths may give. */
  ghost function Tables(sizes: seq<nat>): iset<ZTable> {
    iset z: ZTable | ZBuilt(z, sizes)
  }

  /** The lengths of all symbols: how many there are of each. */
  method CountSizes(sizelist: seq<nat>) returns (sizes: seq<nat>)
    requires IsSizes(sizelist)
    ensures |sizes| == 17 && sizes[0] == 0 && forall s :: 1 <= s <= 16 ==> sizes[s] == Counts(sizelist)[s - 1]
  {
    var a := new nat[17](_ => 0);
    var i := 0;
    while i < |sizelist|
      invariant 0 <= i <= |sizelist|
      invariant forall s :: 0 <= s < 17 ==> a[s] == CountOf(sizelist, i, s)
    {
      a[sizelist[i]] := a[sizelist[i]] + 1;
      i := i + 1;
    }
    a[0] := 0;
    sizes := a[..];
  }

  lemma {:induction false} TotalCounts(sizes: seq<nat>, n: nat)
    requires IsSizes(sizes) && n <= 16
    ensures Total(Counts(sizes), n) <= |sizes|
  {
    TotalIs(sizes, n, |sizes|);
    TotalBelow(sizes, n, |sizes|);
  }

  /** Symbols of the lengths 1 to n among the first i. */
  function CountUpTo(sizes: seq<nat>, i: nat, n: nat): nat
    requires i <= |sizes|
  {
    if n == 0 then 0 else CountUpTo(sizes, i, n - 1) + CountOf(sizes, i, n)
  }

  lemma {:induction false} TotalIs(sizes: seq<nat>, n: nat, i: nat)
    requires IsSizes(sizes) && n <= 16 && i == |sizes|
    ensures Total(Counts(sizes), n) == CountUpTo(sizes, i, n)
  {
    if n > 0 { TotalIs(sizes, n - 1, i); }
  }

  lemma {:induction false} TotalBelow(sizes: seq<nat>, n: nat, i: nat)
    requires i <= |sizes|
    ensures CountUpTo(sizes, i, n) <= i
  {
    if i == 0 {
      CountNone(sizes, n);
    } else {
      TotalBelow(sizes, n, i - 1);
      CountStep(sizes, i, n);
    }
  }

  lemma {:induction false} CountNone(sizes: seq<nat>, n: nat)
    ensures CountUpTo(sizes, 0, n) == 0
  {
    if n > 0 { CountNone(sizes, n - 1); }
  }

  lemma {:induction false} CountStep(sizes: seq<nat>, i: nat, n: nat)
    requires 1 <= i <= |sizes|
    ensures CountUpTo(sizes, i, n) == CountUpTo(sizes, i - 1, n) + if 1 <= sizes[i - 1] <= n then 1 else 0
  {
    if n > 0 { CountStep(sizes, i, n - 1); }
  }

  lemma {:induction false} NoSixteen(sizes: seq<nat>, i: nat)
    requires IsSizes(sizes) && i <= |sizes|
    ensures CountOf(sizes, i, 16) == 0
  {
    if i > 0 { NoSixteen(sizes, i - 1); }
  }

  /** The lengths below n have no more symbols than codes are left. */
  ghost predicate FitUpTo(count: seq<nat>, n: nat)
    requires |count| == 16 && n <= 16
  {
    forall s :: 1 <= s < n && count[s - 1] > 0 ==> CodeAfter(count, s) <= Pow2(s)
  }

  lemma TooMany(count: seq<nat>, i: nat)
    requires |count| == 16 && 1 <= i <= 16 && count[i - 1] > 0 && CodeAfter(count, i) > Pow2(i)
    ensures !NotOverfull(count)
  {
  }

  lemma FitNext(count: seq<nat>, i: nat)
    requires |count| == 16 && 1 <= i < 16 && FitUpTo(count, i) && (count[i - 1] > 0 ==> CodeAfter(count, i) <= Pow2(i))
    ensures FitUpTo(count, i + 1)
  {
  }

  lemma AllFit(count: seq<nat>)
    requires |count| == 16 && FitUpTo(count, 16) && count[15] == 0
    ensures NotOverfull(count)
  {
  }

  /** No length has more symbols than there are codes of it. */
  method CountsFit(sizes: seq<nat>, ghost sizelist: seq<nat>) returns (ok: bool)
    requires IsSizes(sizelist)
    requires |sizes| == 17 && forall s :: 1 <= s <= 16 ==> sizes[s] == Counts(sizelist)[s - 1]
    ensures !ok ==> !NotOverfull(Counts(sizelist))
  {
    ghost var count := Counts(sizelist);
    var i := 1;
    while i < 16
      invariant 1 <= i <= 16
    {
      if sizes[i] > Pow2(i) {
        Pow2Positive(i);
        TooMany(count, i);
        return false;
      }
      i := i + 1;
    }
    ok := true;
  }

  /** The code bounds and first symbols of every length; fails exactly when some length has
      more symbols than codes are left. */
  method BuildBounds(sizes: seq<nat>, ghost sizelist: seq<nat>)
    returns (ok: bool, firstcode: seq<int>, maxcode: seq<int>, firstsymbol: seq<int>)
    requires IsSizes(sizelist)
    requires |sizes| == 17 && forall s :: 1 <= s <= 16 ==> sizes[s] == Counts(sizelist)[s - 1]
    ensures ok <==> NotOverfull(Counts(sizelist))
    ensures ok ==> BoundsUpTo(Counts(sizelist), firstcode, maxcode, firstsymbol, 16) && maxcode[16] == 0x10000
  {
    ghost var count := Counts(sizelist);
    NoSixteen(sizelist, |sizelist|);
    ok, firstcode, maxcode, firstsymbol := false, [], [], [];
    var plausible := CountsFit(sizes, sizelist);
    if !plausible {
      return;
    }
    var i := 1;
    var first, max, symbol := new int[16], new int[17], new int[16];
    ghost var f, m, y := first[..], max[..], symbol[..];
    var code, k := 0, 0;
    while i < 16
      invariant 1 <= i <= 16 && code == 2 * CodeAfter(count, i - 1) && k == Total(count, i - 1)
      invariant FitUpTo(count, i)
      invariant first[..] == f && max[..] == m && symbol[..] == y && BoundsUpTo(count, f, m, y, i)
    {
      BoundsNext(count, f, m, y, i);
      first[i] := code;
      symbol[i] := k;
      code := code + sizes[i];
      if sizes[i] > 0 && code - 1 >= Pow2(i) {
        TooMany(count, i);
        return;
      }
      FitNext(count, i);
      max[i] := Shl(code, 16 - i);
      f, m, y := f[i := 2 * CodeAfter(count, i - 1)], m[i := MaxCode(count, i)], y[i := Total(count, i - 1)];
      code := 2 * code;
      k := k + sizes[i];
      i := i + 1;
    }
    max[16] := 0x10000;
    AllFit(count);
    ok, firstcode, maxcode, firstsymbol := true, first[..], max[..], symbol[..];
  }

  /** A window starts with a symbol's code exactly when its low bits are the reversed code. */
  lemma {:induction false} WindowIs(sizes: seq<nat>, i: nat, x: nat)
    requires IsSizes(sizes) && NotOverfull(Counts(sizes)) && i < |sizes| && 1 <= sizes[i] <= FAST_BITS
    ensures InWindow(sizes, i, x) <==> Low(x, sizes[i]) == Reversed(SymbolCode(sizes, i), sizes[i])
  {
    CodeBound(sizes, i);
    LsbPrefix(x, FAST_BITS, sizes[i]);
    StartsWith(SymbolCode(sizes, i), sizes[i], x);
    var w := Msb(SymbolCode(sizes, i), sizes[i]);
    assert w <= Lsb(x, FAST_BITS) <==> w == Lsb(x, FAST_BITS)[..sizes[i]];
  }

  lemma {:induction false} StartsWith(code: nat, s: nat, x: nat)
    requires code < Pow2(s)
    ensures Lsb(x, s) == Msb(code, s) <==> Low(x, s) == Reversed(code, s)
  {
    LsbOfLow(x, s);
    LowRange(x, s);
    ValueMsb(code, s);
    ReversedTwice(Low(x, s), s);
    ReversedTwice(code, s);
    if Value(Lsb(x, s)) == code { ValueInjective(Lsb(x, s), Msb(code, s)); }
  }

  /** Two numbers with the same s low bits are at least 2^s apart. */
  lemma {:induction false} LowApart(x: int, y: int, s: nat)
    requires Low(x, s) == Low(y, s) && x < y
    ensures x + Pow2(s) <= y
  {
    LowRange(x, s);
    LowRange(y, s);
    if Shr(x, s) < Shr(y, s) {
      ShlStrict(Shr(x, s), Shr(y, s), s);
    } else {
      ShlMono(Shr(y, s), Shr(x, s), s);
    }
  }

  lemma {:induction false} LowNext(x: int, s: nat)
    ensures Low(x + Pow2(s), s) == Low(x, s)
  {
    LowRange(x, s);
    ShlPlus(Shr(x, s), 1, s);
    Split(x + Pow2(s), s, Shr(x, s) + 1, Low(x, s));
  }

  /** Enters value at every index whose s low bits are those of start. */
  method FillStride(fast: array<nat>, start: nat, s: nat, value: nat)
    requires fast.Length == 512 && s <= FAST_BITS && start < Pow2(s)
    modifies fast
    ensures forall x: nat :: x < 512 ==> fast[x] == if Low(x, s) == start then value else old(fast[x])
  {
    Pow2Mono(s, FAST_BITS);
    Pow2Values();
    LowSmall(start, s);
    forall x: nat | x < start ensures Low(x, s) != start { LowSmall(x, s); }
    var j := start;
    while j < 512
      invariant 0 <= j && Low(j, s) == start
      invariant forall x: nat :: x < 512 ==> fast[x] == if x < j && Low(x, s) == start then value else old(fast[x])
      decreases 512 - j
    {
      fast[j] := value;
      LowNext(j, s);
      forall x: nat | x < 512 && Low(x, s) == start && x != j ensures x < j || j + Pow2(s) <= x {
        if x > j { LowApart(j, x, s); }
      }
      j := j + Pow2(s);
    }
  }

  lemma {:induction false} EnterNext(sizes: seq<nat>, size: seq<nat>, value: seq<nat>, n: nat, c: nat)
    requires IsSizes(sizes) && n < |sizes| && Entered(sizes, size, value, n)
    requires sizes[n] > 0 && c == Rank(sizes, n) < 288
    ensures Entered(sizes, size[c := sizes[n]], value[c := n], n + 1)
  {
    var size', value' := size[c := sizes[n]], value[c := n];
    forall i: nat | i < n + 1 && i < |sizes| && sizes[i] > 0 && Rank(sizes, i) < 288
      ensures size'[Rank(sizes, i)] == sizes[i] && value'[Rank(sizes, i)] == i
    {
      EnteredAt(sizes, size, value, n, c, i);
    }
  }

  lemma EnteredAt(sizes: seq<nat>, size: seq<nat>, value: seq<nat>, n: nat, c: nat, i: nat)
    requires IsSizes(sizes) && i <= n < |sizes| && Entered(sizes, size, value, n) && sizes[n] > 0 && c == Rank(sizes, n) < 288
    requires sizes[i] > 0 && Rank(sizes, i) < 288
    ensures size[c := sizes[n]][Rank(sizes, i)] == sizes[i] && value[c := n][Rank(sizes, i)] == i
  {
    if i < n { RankDiffers(sizes, i, n, c); }
  }

  lemma RankDiffers(sizes: seq<nat>, i: nat, n: nat, c: nat)
    requires IsSizes(sizes) && i < n < |sizes| && sizes[i] > 0 && sizes[n] > 0 && c == Rank(sizes, n)
    ensures Rank(sizes, i) != c
  {
    if Rank(sizes, i) == c { RankInjective(sizes, i, n); }
  }

  lemma {:induction false} FastNext(sizes: seq<nat>, before: seq<nat>, after: seq<nat>, n: nat)
    requires IsSizes(sizes) && NotOverfull(Counts(sizes)) && n < |sizes| && FastUpTo(sizes, before, n) && |after| == 512
    requires 1 <= sizes[n] <= FAST_BITS
    requires forall x: nat :: x < 512 ==>
      after[x] == if Low(x, sizes[n]) == Reversed(SymbolCode(sizes, n), sizes[n]) then 512 * sizes[n] + n else before[x]
    ensures FastUpTo(sizes, after, n + 1)
  {
    forall x: nat | x < 512 ensures after[x] == FastAt(sizes, n + 1, x) {
      WindowIs(sizes, n, x);
    }
  }

  /** The number whose top 16 bits are the buffer's low 16 bits in transmission order. */
  function TopBuffer(buf: nat): (b: nat)
  {
    ValueBound(Lsb(buf, 16));
    ShlZero(16);
    ShlMono(0, Value(Lsb(buf, 16)), 16);
    Shl(Value(Lsb(buf, 16)), 16)
  }

  /** A buffer starts with a symbol's code when the canonical code of its rank matches. */
  lemma {:induction false} CodedMatches(sizes: seq<nat>, i: nat, buf: nat)
    requires IsSizes(sizes) && NotOverfull(Counts(sizes)) && i < |sizes| && sizes[i] > 0
    ensures Coded(sizes, i, buf) <==> Matches(Counts(sizes), Rank(sizes, i), TopBuffer(buf))
  {
    var b, s := Lsb(buf, 16), sizes[i];
    RankRange(sizes, i);
    CodeBound(sizes, i);
    TopShift(buf, s);
    ValueMsb(SymbolCode(sizes, i), s);
    if Value(b[..s]) == SymbolCode(sizes, i) { ValueInjective(b[..s], SymbolWord(sizes, i)); }
    assert SymbolWord(sizes, i) <= b <==> b[..s] == SymbolWord(sizes, i);
  }

  lemma {:induction false} TopShift(buf: nat, s: nat)
    requires s <= 16
    ensures Shr(TopBuffer(buf), 32 - s) == Value(Lsb(buf, 16)[..s])
  {
    ShrShl(Value(Lsb(buf, 16)), 16);
    ShrShr(TopBuffer(buf), 16, 16 - s);
    FirstBits(Lsb(buf, 16), s);
  }

  /** The codes are prefix free: no buffer starts with two of them. */
  lemma {:induction false} OneCoded(sizes: seq<nat>, i: nat, j: nat, buf: nat)
    requires NotOverfull(Counts(sizes)) && Coded(sizes, i, buf) && Coded(sizes, j, buf)
    ensures i == j
  {
    CodedMatches(sizes, i, buf);
    CodedMatches(sizes, j, buf);
    PrefixFree(Counts(sizes), Rank(sizes, i), Rank(sizes, j), TopBuffer(buf));
    RankInjective(sizes, i, j);
  }

  lemma {:induction false} CodesOfLength(sizes: seq<nat>, i: nat)
    requires IsSizes(sizes) && NotOverfull(Counts(sizes)) && i < |sizes| && sizes[i] > 0
    ensures var s := sizes[i]; var next := 2 * CodeAfter(Counts(sizes), s - 1) + CountOf(sizes, i, s);
      && SymbolCode(sizes, i) == next < Pow2(s) && Reversed(next, s) < Pow2(s)
      && Rank(sizes, i) == Total(Counts(sizes), s - 1) + CountOf(sizes, i, s) < 288
  {
    RankRange(sizes, i);
    CodeBound(sizes, i);
    TotalCounts(sizes, 16);
    ReversedTwice(SymbolCode(sizes, i), sizes[i]);
  }

  /** The next code of every length, once the symbols before i have been given theirs. */
  ghost predicate NextCodes(sizes: seq<nat>, nextCode: seq<int>, i: nat)
    requires i <= |sizes|
  {
    && |nextCode| == 16
    && forall s :: 1 <= s <= 15 ==> nextCode[s] == 2 * CodeAfter(Counts(sizes), s - 1) + CountOf(sizes, i, s)
  }

  lemma {:induction false} NextCodesStep(sizes: seq<nat>, nextCode: seq<int>, i: nat, s: nat)
    requires IsSizes(sizes) && i < |sizes| && NextCodes(sizes, nextCode, i) && s == sizes[i]
    ensures s == 0 ==> NextCodes(sizes, nextCode, i + 1)
    ensures s > 0 ==> NextCodes(sizes, nextCode[s := nextCode[s] + 1], i + 1)
  {
  }

  /** The next code of a symbol's length is its code, and leads to its rank. */
  lemma {:induction false} NextCodeIs(sizes: seq<nat>, i: nat, s: nat, nextCode: seq<int>,
                                      firstcode: seq<int>, maxcode: seq<int>, firstsymbol: seq<int>)
    requires IsSizes(sizes) && NotOverfull(Counts(sizes)) && i < |sizes| && s == sizes[i] > 0
    requires BoundsUpTo(Counts(sizes), firstcode, maxcode, firstsymbol, 16) && NextCodes(sizes, nextCode, i)
    ensures nextCode[s] == SymbolCode(sizes, i) && nextCode[s] - firstcode[s] + firstsymbol[s] == Rank(sizes, i) < 288
  {
    CodesOfLength(sizes, i);
  }

  /** Enters symbol i at every window that starts with its code. */
  method EnterFast(fast: array<nat>, sizelist: seq<nat>, i: nat, code: nat)
    requires IsSizes(sizelist) && NotOverfull(Counts(sizelist)) && i < |sizelist|
    requires sizelist[i] > 0 ==> code == SymbolCode(sizelist, i)
    requires FastUpTo(sizelist, fast[..], i)
    modifies fast
    ensures FastUpTo(sizelist, fast[..], i + 1)
  {
    var s := sizelist[i];
    ghost var before := fast[..];
    if 0 < s <= FAST_BITS {
      CodesOfLength(sizelist, i);
      BitReverseIs(code, s);
      FillStride(fast, BitReverse(code, s), s, 512 * s + i);
      FastNext(sizelist, before, fast[..], i);
    } else {
      FastSkip(sizelist, before, i);
    }
  }

  /** Gives symbol i, when it has a code, the next code of its length and its place. */
  method EnterCode(sizelist: seq<nat>, i: nat, nextCode: seq<int>, size: seq<nat>, value: seq<nat>,
                   firstcode: seq<int>, firstsymbol: seq<int>, ghost maxcode: seq<int>)
    returns (code: nat, nextCode': seq<int>, size': seq<nat>, value': seq<nat>)
    requires IsSizes(sizelist) && NotOverfull(Counts(sizelist)) && i < |sizelist|
    requires BoundsUpTo(Counts(sizelist), firstcode, maxcode, firstsymbol, 16)
    requires NextCodes(sizelist, nextCode, i) && Entered(sizelist, size, value, i)
    ensures NextCodes(sizelist, nextCode', i + 1) && Entered(sizelist, size', value', i + 1)
    ensures sizelist[i] > 0 ==> code == SymbolCode(sizelist, i)
  {
    var s := sizelist[i];
    code, nextCode', size', value' := 0, nextCode, size, value;
    NextCodesStep(sizelist, nextCode, i, s);
    if s > 0 {
      NextCodeIs(sizelist, i, s, nextCode, firstcode, maxcode, firstsymbol);
      code := nextCode[s];
      var c := code - firstcode[s] + firstsymbol[s];
      EnterNext(sizelist, size, value, i, c);
      size', value', nextCode' := size[c := s], value[c := i], nextCode[s := code + 1];
    }
  }

  /** Enters every symbol with a code, in the order of the symbols. */
  method EnterSymbols(sizelist: seq<nat>, firstcode: seq<int>, firstsymbol: seq<int>, ghost maxcode: seq<int>)
    returns (fast: seq<nat>, size: seq<nat>, value: seq<nat>)
    requires IsSizes(sizelist) && NotOverfull(Counts(sizelist))
    requires BoundsUpTo(Counts(sizelist), firstcode, maxcode, firstsymbol, 16)
    ensures FastUpTo(sizelist, fast, |sizelist|) && Entered(sizelist, size, value, |sizelist|)
  {
    var fasts := new nat[512](_ => 0);
    var nextCode := firstcode;
    size, value := seq(288, _ => 0), seq(288, _ => 0);
    var i := 0;
    while i < |sizelist|
      invariant 0 <= i <= |sizelist|
      invariant NextCodes(sizelist, nextCode, i)
      invariant Entered(sizelist, size, value, i)
      invariant FastUpTo(sizelist, fasts[..], i)
    {
      var code;
      code, nextCode, size, value := EnterCode(sizelist, i, nextCode, size, value, firstcode, firstsymbol, maxcode);
      EnterFast(fasts, sizelist, i, code);
      i := i + 1;
    }
    fast := fasts[..];
  }

  lemma {:induction false} FastSkip(sizes: seq<nat>, fast: seq<nat>, n: nat)
    requires IsSizes(sizes) && n < |sizes| && FastUpTo(sizes, fast, n) && (sizes[n] == 0 || sizes[n] > FAST_BITS)
    ensures FastUpTo(sizes, fast, n + 1)
  {
    forall x: nat | x < 512 ensures fast[x] == FastAt(sizes, n + 1, x) {
    }
  }

  /** Building succeeds exactly when no length runs out of codes. */
  method ZBuildHuffman(sizelist: seq<nat>) returns (ok: bool, z: ZTable)
    requires IsSizes(sizelist)
    ensures ok <==> NotOverfull(Counts(sizelist))
    ensures ok ==> z in Tables(sizelist)
  {
    z := ZTable([], [], [], [], [], []);
    var sizes := CountSizes(sizelist);
    var firstcode, maxcode, firstsymbol;
    ok, firstcode, maxcode, firstsymbol := BuildBounds(sizes, sizelist);
    if ok {
      var fast, size, value := EnterSymbols(sizelist, firstcode, firstsymbol, maxcode);
      z := ZTable(fast, firstcode, maxcode, firstsymbol, size, value);
    }
  }

  // ---------- looking a code up ----------

  /** The window of a buffer that starts with a short code. */
  lemma {:induction false} CodedWindow(sizes: seq<nat>, i: nat, buf: nat)
    requires IsSizes(sizes) && i < |sizes| && 1 <= sizes[i] <= FAST_BITS
    ensures 0 <= Low(buf, FAST_BITS) < 512 && (Coded(sizes, i, buf) <==> InWindow(sizes, i, Low(buf, FAST_BITS)))
  {
    LowRange(buf, FAST_BITS);
    Pow2Values();
    LsbOfLow(buf, FAST_BITS);
    LsbPrefix(buf, 16, FAST_BITS);
    RankRange(sizes, i);
    var w, b := SymbolWord(sizes, i), Lsb(buf, 16);
    assert b[..FAST_BITS] <= b;
    if w <= b { assert w == b[..FAST_BITS][..|w|]; }
  }

  /** A nonzero fast entry holds the symbol whose code the buffer starts with. */
  lemma {:induction false} FastHit(sizes: seq<nat>, buf: nat, b: nat)
    requires IsSizes(sizes) && 0 <= Low(buf, FAST_BITS) && b == FastAt(sizes, |sizes|, Low(buf, FAST_BITS)) != 0
    ensures Low(b, 9) < |sizes| && Coded(sizes, Low(b, 9), buf) && Shr(b, 9) == sizes[Low(b, 9)]
  {
    var i := FastAtFinds(sizes, |sizes|, Low(buf, FAST_BITS));
    CodedWindow(sizes, i, buf);
    Unpacked(sizes[i], i);
  }

  /** A zero entry means that the buffer starts with no code of at most FAST_BITS bits. */
  lemma {:induction false} FastMiss(sizes: seq<nat>, buf: nat)
    requires IsSizes(sizes) && 0 <= Low(buf, FAST_BITS) && FastAt(sizes, |sizes|, Low(buf, FAST_BITS)) == 0
    ensures forall i: nat :: Coded(sizes, i, buf) ==> sizes[i] > FAST_BITS
  {
    forall i: nat | Coded(sizes, i, buf) ensures sizes[i] > FAST_BITS {
      if sizes[i] <= FAST_BITS {
        CodedWindow(sizes, i, buf);
        FastAtNone(sizes, |sizes|, Low(buf, FAST_BITS), i);
      }
    }
  }

  lemma {:induction false} Unpacked(s: nat, i: nat)
    requires i < 512
    ensures Shr(512 * s + i, 9) == s && Low(512 * s + i, 9) == i
  {
    Pow2Values();
    ShlTimes(s, 9);
    Split(512 * s + i, 9, s, i);
  }

  lemma {:induction false} TopOfBuffer(buf: nat)
    ensures TopBuffer(buf) < 0x1_0000_0000 && Shr(TopBuffer(buf), 16) == Reversed(buf, 16)
  {
    ShrShl(Reversed(buf, 16), 16);
    ValueBound(Lsb(buf, 16));
    JoinBound(Value(Lsb(buf, 16)), 0, 16, 16);
    Pow2Values();
  }

  /** The symbol whose length is the first above FAST_BITS with a bound beyond the buffer. */
  lemma {:induction false} ZSlowLookup(z: ZTable, sizes: seq<nat>, buf: nat, s: nat) returns (i: nat)
    requires ZBuilt(z, sizes) && FAST_BITS < s <= 15
    requires MaxCode(Counts(sizes), s - 1) <= Reversed(buf, 16) < MaxCode(Counts(sizes), s)
    ensures Coded(sizes, i, buf) && sizes[i] == s
    ensures 0 <= Shr(Reversed(buf, 16), 16 - s) - z.firstcode[s] + z.firstsymbol[s] == Rank(sizes, i) < 288
  {
    var count := Counts(sizes);
    TopOfBuffer(buf);
    var k := SlowLookup(count, TopBuffer(buf), s);
    i := RankOnto(sizes, k);
    CodedMatches(sizes, i, buf);
    RankRange(sizes, i);
    TotalCounts(sizes, 16);
    ShrShr(TopBuffer(buf), 16, 16 - s);
  }

  lemma {:induction false} ZNoCode(z: ZTable, sizes: seq<nat>, buf: nat, i: nat)
    requires ZBuilt(z, sizes) && MaxCode(Counts(sizes), 15) <= Reversed(buf, 16)
    ensures !Coded(sizes, i, buf)
  {
    NoSixteen(sizes, |sizes|);
    var count := Counts(sizes);
    TopOfBuffer(buf);
    assert count[15] == 0 && CodeAfter(count, 16) == 2 * CodeAfter(count, 15);
    assert Shl(CodeAfter(count, 15), 1) == 2 * CodeAfter(count, 15);
    if Coded(sizes, i, buf) {
      CodedMatches(sizes, i, buf);
      NoCode(count, TopBuffer(buf), Rank(sizes, i));
    }
  }

  /** No code of at most FAST_BITS bits means that the buffer is beyond their bound. */
  lemma {:induction false} BeyondFast(sizes: seq<nat>, buf: nat)
    requires IsSizes(sizes) && NotOverfull(Counts(sizes))
    requires forall i: nat :: Coded(sizes, i, buf) ==> sizes[i] > FAST_BITS
    ensures MaxCode(Counts(sizes), FAST_BITS) <= Reversed(buf, 16)
  {
    var count := Counts(sizes);
    if Reversed(buf, 16) < MaxCode(count, FAST_BITS) {
      StartAtTotal(count, FAST_BITS, 16);
      var k := Covered(count, Reversed(buf, 16), 16, Total(count, FAST_BITS));
      TotalMono(count, FAST_BITS, 16);
      ShrShl(Reversed(buf, 16), 16);
      MatchesInterval(count, k, TopBuffer(buf), 16);
      var i := RankOnto(sizes, k);
      CodedMatches(sizes, i, buf);
      RankRange(sizes, i);
      Canonical.Before(count, k, FAST_BITS);
      assert false;
    }
  }

  /** The buffer starts with some symbol's code. */
  ghost predicate AnyCoded(sizes: seq<nat>, buf: nat) {
    exists i: nat :: Coded(sizes, i, buf)
  }

  /** The symbol lookup of the inflater, through the fast table or by searching the bounds:
      it finds the one symbol whose code the buffer starts with, and fails if and only if
      there is none. */
  method ZLookup(z: ZTable, buf: nat, ghost sizes: seq<nat>) returns (v: int, len: nat)
    requires ZBuilt(z, sizes)
    ensures v >= 0 <==> AnyCoded(sizes, buf)
    ensures v >= 0 ==> Coded(sizes, v, buf) && len == sizes[v]
    ensures v < 0 ==> v == -1
  {
    LowRange(buf, FAST_BITS);
    Pow2Values();
    var b := z.fast[Low(buf, FAST_BITS)];
    if b != 0 {
      FastHit(sizes, buf, b);
      v, len := Low(b, 9), Shr(b, 9);
    } else {
      FastMiss(sizes, buf);
      v, len := ZLookupSlow(z, buf, sizes);
    }
  }

  /** The search of the bounds for the codes of more than FAST_BITS bits. */
  method ZLookupSlow(z: ZTable, buf: nat, ghost sizes: seq<nat>) returns (v: int, len: nat)
    requires ZBuilt(z, sizes)
    requires forall i: nat :: Coded(sizes, i, buf) ==> sizes[i] > FAST_BITS
    ensures v >= 0 <==> AnyCoded(sizes, buf)
    ensures v >= 0 ==> Coded(sizes, v, buf) && len == sizes[v]
    ensures v < 0 ==> v == -1
  {
    BeyondFast(sizes, buf);
    BitReverseIs(buf, 16);
    var k := BitReverse(buf, 16);
    var s := FAST_BITS + 1;
    while k >= z.maxcode[s]
      invariant FAST_BITS < s <= 16
      invariant MaxCode(Counts(sizes), s - 1) <= k
      decreases 16 - s
    {
      SentinelStops(buf);
      s := s + 1;
    }
    if s >= 16 {
      forall i: nat ensures !Coded(sizes, i, buf) { ZNoCode(z, sizes, buf, i); }
      return -1, 0;
    }
    ghost var i := ZSlowLookup(z, sizes, buf, s);
    var c := Shr(k, 16 - s) - z.firstcode[s] + z.firstsymbol[s];
    if c >= 288 || z.size[c] != s {
      assert false;  // the error returns of the source cannot be reached
    }
    v, len := z.value[c], s;
  }

  lemma {:induction false} SentinelStops(buf: nat)
    ensures Reversed(buf, 16) < 0x10000
  {
    ValueBound(Lsb(buf, 16));
    Pow2Values();
  }
}
