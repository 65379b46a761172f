/** Canonical Huffman codes: consecutive codes within a length, lengths in increasing order
    (Annex C of ITU-T T.81, section 3.2.2 of RFC 1951). Code words are intervals of 16-bit
    numbers, which is what makes them prefix free and what both decoders search. */
module Canonical {
  import opened Bits

  /** The index width of both decoders' fast tables. */
  const FAST_BITS: nat := 9

  // ---------- the canonical code, as the standard defines it ----------

  /** How many codes have length at most n; count[i] codes have length i + 1. */
  function Total(count: seq<nat>, n: nat): nat
    requires n <= |count|
  {
    if n == 0 then 0 else Total(count, n - 1) + count[n - 1]
  }

  /** One more than the last code of length n or less, as an n-bit number. */
  function CodeAfter(count: seq<nat>, n: nat): nat
    requires n <= |count|
  {
    if n == 0 then 0 else 2 * CodeAfter(count, n - 1) + count[n - 1]
  }

  lemma {:induction false} TotalMono(count: seq<nat>, m: nat, n: nat)
    requires m <= n <= |count|
    ensures Total(count, m) <= Total(count, n)
    decreases n - m
  {
    if m < n { TotalMono(count, m + 1, n); }
  }

  function SizeUpTo(count: seq<nat>, k: nat, n: nat): (s: nat)
    requires n <= |count| && k < Total(count, n)
    ensures 1 <= s <= n && Total(count, s - 1) <= k < Total(count, s)
  {
    if k >= Total(count, n - 1) then n else SizeUpTo(count, k, n - 1)
  }

  /** The length of the k-th code. */
  function SizeAt(count: seq<nat>, k: nat): nat
    requires k < Total(count, |count|)
  {
    SizeUpTo(count, k, |count|)
  }

  /** The k-th code. */
  function CodeAt(count: seq<nat>, k: nat): nat
    requires k < Total(count, |count|)
  {
    var s := SizeAt(count, k);
    2 * CodeAfter(count, s - 1) + (k - Total(count, s - 1))
  }

  /** The k-th code word. */
  function Word(count: seq<nat>, k: nat): seq<bool>
    requires k < Total(count, |count|)
  {
    Msb(CodeAt(count, k), SizeAt(count, k))
  }

  /** At most sixteen lengths, and no length runs out of codes. */
  predicate NotOverfull(count: seq<nat>) {
    && |count| == 16
    && forall j :: 1 <= j <= 16 && count[j - 1] > 0 ==> CodeAfter(count, j) <= Pow2(j)
  }

  lemma {:induction false} SizeUnique(count: seq<nat>, k: nat, j: nat)
    requires 1 <= j <= |count| && Total(count, j - 1) <= k < Total(count, j)
    ensures k < Total(count, |count|) && SizeAt(count, k) == j
  {
    TotalMono(count, j, |count|);
    var s := SizeAt(count, k);
    if s < j { TotalMono(count, s, j - 1); }
    if j < s { TotalMono(count, j, s - 1); }
  }

  lemma {:induction false} CodeAfterFits(count: seq<nat>, n: nat)
    requires n <= |count|
    requires forall j :: 1 <= j <= n && count[j - 1] > 0 ==> CodeAfter(count, j) <= Pow2(j)
    ensures CodeAfter(count, n) <= Pow2(n)
  {
    if n != 0 { CodeAfterFits(count, n - 1); }
  }

  // ---------- code words as intervals of l-bit numbers ----------

  /** The first l-bit number that the k-th code word prefixes; for k one past the last
      code of at most l bits, the first number that no such word prefixes. */
  function Start(count: seq<nat>, k: nat, l: nat): int
    requires l <= |count| && k <= Total(count, l)
  {
    if k == Total(count, l) then CodeAfter(count, l)
    else
      TotalMono(count, l, |count|);
      Before(count, k, l);
      Shl(CodeAt(count, k), l - SizeAt(count, k))
  }

  lemma {:induction false} Before(count: seq<nat>, k: nat, l: nat)
    requires l <= |count| && k < Total(count, l)
    ensures k < Total(count, |count|) && SizeAt(count, k) <= l
  {
    TotalMono(count, l, |count|);
    if SizeAt(count, k) > l { TotalMono(count, l, SizeAt(count, k) - 1); }
  }

  /** Doubling before a shift is a longer shift. */
  lemma {:induction false} ShiftTwice(c: nat, d: nat)
    requires d > 0
    ensures Shl(2 * c, d - 1) == Shl(c, d)
  {
    ShlShl(c, 1, d - 1);
    assert Shl(c, 1) == 2 * Shl(c, 0);
  }

  lemma {:induction false} StartAtTotal(count: seq<nat>, s: nat, l: nat)
    requires s <= l <= |count|
    ensures Total(count, s) <= Total(count, l)
    ensures Start(count, Total(count, s), l) == Shl(CodeAfter(count, s), l - s)
    decreases l - s
  {
    TotalMono(count, s, l);
    if s < l {
      ShiftTwice(CodeAfter(count, s), l - s);
      if count[s] > 0 {
        TotalMono(count, s + 1, l);
        SizeUnique(count, Total(count, s), s + 1);
      } else {
        StartAtTotal(count, s + 1, l);
      }
    }
  }

  /** Consecutive code words cover adjacent intervals. */
  lemma {:induction false} StartNext(count: seq<nat>, k: nat, l: nat)
    requires l <= |count| && k < Total(count, l)
    ensures k < Total(count, |count|) && SizeAt(count, k) <= l
    ensures Start(count, k, l) == Shl(CodeAt(count, k), l - SizeAt(count, k))
    ensures Start(count, k + 1, l) == Shl(CodeAt(count, k) + 1, l - SizeAt(count, k))
    ensures Start(count, k, l) < Start(count, k + 1, l)
  {
    Before(count, k, l);
    var s := SizeAt(count, k);
    if k + 1 < Total(count, s) {
      TotalMono(count, s, l);
      SizeUnique(count, k + 1, s);
    } else {
      StartAtTotal(count, s, l);
    }
    ShlStrict(CodeAt(count, k), CodeAt(count, k) + 1, l - s);
  }

  lemma {:induction false} StartMono(count: seq<nat>, a: nat, b: nat, l: nat)
    requires l <= |count| && a <= b <= Total(count, l)
    ensures Start(count, a, l) <= Start(count, b, l)
    decreases b - a
  {
    if a < b {
      StartNext(count, a, l);
      StartMono(count, a + 1, b, l);
    }
  }

  /** Every l-bit number below the end of the code is covered by exactly one interval. */
  lemma {:induction false} Covered(count: seq<nat>, x: nat, l: nat, n: nat) returns (k: nat)
    requires l <= |count| && n <= Total(count, l) && x < Start(count, n, l)
    ensures k < n && Start(count, k, l) <= x < Start(count, k + 1, l)
  {
    if n == 0 {
      StartAtTotal(count, 0, l);
      ShlZero(l);
      assert false;
    } else if x < Start(count, n - 1, l) {
      k := Covered(count, x, l, n - 1);
    } else {
      k := n - 1;
    }
  }

  /** The k-th code is what the top bits of the 32-bit buffer spell. */
  predicate Matches(count: seq<nat>, k: nat, buf: int) {
    && |count| == 16
    && k < Total(count, 16)
    && Shr(buf, 32 - SizeAt(count, k)) == CodeAt(count, k)
  }

  /** A code matches the buffer exactly when the buffer's top l bits lie in its interval. */
  lemma {:induction false} MatchesInterval(count: seq<nat>, k: nat, buf: nat, l: nat)
    requires |count| == 16 && l <= 16 && k < Total(count, l)
    ensures Matches(count, k, buf) <==> Start(count, k, l) <= Shr(buf, 32 - l) < Start(count, k + 1, l)
  {
    StartNext(count, k, l);
    TotalMono(count, l, 16);
    var s := SizeAt(count, k);
    TopBits(buf, s, l, CodeAt(count, k));
  }

  /** The top s bits of a 32-bit number spell c exactly when its top l bits start with c. */
  lemma {:induction false} TopBits(buf: nat, s: nat, l: nat, c: nat)
    requires s <= l <= 32
    ensures Shr(buf, 32 - s) == c
      <==> Shl(c, l - s) <= Shr(buf, 32 - l) < Shl(c + 1, l - s)
  {
    ShrShr(buf, 32 - l, l - s);
    assert 32 - l + (l - s) == 32 - s;
    ShrIs(Shr(buf, 32 - l), l - s, c);
  }

  /** The codes are prefix free: no buffer starts with two of them. */
  lemma {:induction false} PrefixFree(count: seq<nat>, k: nat, m: nat, buf: nat)
    requires Matches(count, k, buf) && Matches(count, m, buf)
    ensures k == m
  {
    MatchesInterval(count, k, buf, 16);
    MatchesInterval(count, m, buf, 16);
    if k < m { StartMono(count, k + 1, m, 16); }
    if m < k { StartMono(count, m + 1, k, 16); }
  }

  function MaxCode(count: seq<nat>, j: nat): int
    requires j <= 16 && j <= |count|
  {
    Shl(CodeAfter(count, j), 16 - j)
  }

  function Delta(count: seq<nat>, j: nat): int
    requires 1 <= j <= |count|
  {
    Total(count, j - 1) - 2 * CodeAfter(count, j - 1)
  }

  lemma {:induction false} InFast(count: seq<nat>, i: nat)
    requires NotOverfull(count) && i < Total(count, 16) && SizeAt(count, i) <= FAST_BITS
    ensures i < Total(count, FAST_BITS)
    ensures Start(count, i, FAST_BITS) == Shl(CodeAt(count, i), FAST_BITS - SizeAt(count, i))
    ensures Start(count, i + 1, FAST_BITS)
         == Shl(CodeAt(count, i), FAST_BITS - SizeAt(count, i)) + Pow2(FAST_BITS - SizeAt(count, i))
    ensures 0 <= Start(count, i, FAST_BITS) && Start(count, i + 1, FAST_BITS) <= 512
  {
    TotalMono(count, SizeAt(count, i), FAST_BITS);
    StartNext(count, i, FAST_BITS);
    ShlPlus(CodeAt(count, i), 1, FAST_BITS - SizeAt(count, i));
    ShlZero(FAST_BITS - SizeAt(count, i));
    ShlMono(0, CodeAt(count, i), FAST_BITS - SizeAt(count, i));
    StartMono(count, i + 1, Total(count, FAST_BITS), FAST_BITS);
    CodeAfterFits(count, FAST_BITS);
    Pow2Values();
  }

  lemma {:induction false} CoveredBetween(count: seq<nat>, t: nat, j: nat) returns (k: nat)
    requires |count| == 16 && 1 <= j <= 16
    requires MaxCode(count, j - 1) <= t < MaxCode(count, j)
    ensures k < Total(count, 16) && SizeAt(count, k) == j
    ensures Start(count, k, 16) <= t < Start(count, k + 1, 16)
  {
    StartAtTotal(count, j, 16);
    k := Covered(count, t, 16, Total(count, j));
    StartAtTotal(count, j - 1, 16);
    if k < Total(count, j - 1) {
      StartMono(count, k + 1, Total(count, j - 1), 16);
      assert false;
    }
    SizeUnique(count, k, j);
  }

  /** The first length above FAST_BITS whose bound exceeds the buffer's top 16 bits is the
      length of the code the buffer starts with. */
  lemma {:induction false} SlowLookup(count: seq<nat>, buf: nat, j: nat) returns (k: nat)
    requires NotOverfull(count) && buf < 0x1_0000_0000 && 1 <= j <= 16
    requires MaxCode(count, j - 1) <= Shr(buf, 16) < MaxCode(count, j)
    ensures k < Total(count, 16) && Matches(count, k, buf) && SizeAt(count, k) == j
    ensures Shr(buf, 32 - j) + Delta(count, j) == k
    ensures 0 <= Shr(buf, 32 - j) < Pow2(j)
  {
    Pow2Values();
    ShrRange(buf, 16, 16);
    k := CoveredBetween(count, Shr(buf, 16), j);
    MatchesInterval(count, k, buf, 16);
    ShrRange(buf, 32 - j, j);
  }

  lemma {:induction false} NoCode(count: seq<nat>, buf: nat, k: nat)
    requires NotOverfull(count) && buf < 0x1_0000_0000
    requires MaxCode(count, 16) <= Shr(buf, 16)
    ensures !Matches(count, k, buf)
  {
    if Matches(count, k, buf) {
      MatchesInterval(count, k, buf, 16);
      StartAtTotal(count, 16, 16);
      StartMono(count, k + 1, Total(count, 16), 16);
    }
  }
}
