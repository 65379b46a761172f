/** The Adler-32 checksum of RFC 1950, as the compressor computes it: sums reduced once per
    run of 5552 bytes, which is as long as they stay within 32 bits. */
module Adler {
  const BASE: nat := 65521
  const RUN: nat := 5552

  /** One plus the sum of the first n bytes, modulo BASE. */
  function Sum1(data: seq<nat>, n: nat): nat
    requires n <= |data|
  {
    if n == 0 then 1 else (Sum1(data, n - 1) + data[n - 1]) % BASE
  }

  /** The sum of all the values that the first sum goes through, modulo BASE. */
  function Sum2(data: seq<nat>, n: nat): nat
    requires n <= |data|
  {
    if n == 0 then 0 else (Sum2(data, n - 1) + Sum1(data, n)) % BASE
  }

  /** The most that the second sum can reach n bytes after a reduction. */
  function Most(n: nat): nat {
    if n == 0 then BASE - 1 else Most(n - 1) + (BASE - 1) + 255 * n
  }

  lemma {:induction false} MostIs(n: nat)
    ensures 2 * Most(n) == 2 * (BASE - 1) * (n + 1) + 255 * (n * (n + 1))
  {
    if n > 0 {
      MostIs(n - 1);
      assert n * (n + 1) == (n - 1) * n + 2 * n;
    }
  }

  lemma {:induction false} MostMono(m: nat, n: nat)
    requires m <= n
    ensures Most(m) <= Most(n)
  {
    if m < n { MostMono(m, n - 1); }
  }

  /** A run ends before the second sum can overflow, and one more byte could overflow it. */
  lemma {:induction false} RunFits()
    ensures Most(RUN) < 0x1_0000_0000 <= Most(RUN + 1)
  {
    MostIs(RUN);
    MostIs(RUN + 1);
  }

  lemma AddMod(x: nat, y: nat)
    ensures (x + y) % BASE == (x % BASE + y) % BASE == (x % BASE + y % BASE) % BASE
  {
  }

  lemma {:induction false} SumsSmall(data: seq<nat>, n: nat)
    requires n <= |data|
    ensures Sum1(data, n) < BASE && Sum2(data, n) < BASE
  {
  }

  /** Reducing later gives the same sums. */
  lemma {:induction false} SumsStep(data: seq<nat>, n: nat, next: nat, s1: nat, s2: nat)
    requires n < |data| && next == n + 1 && s1 % BASE == Sum1(data, n) && s2 % BASE == Sum2(data, n)
    ensures (s1 + data[n]) % BASE == Sum1(data, next)
    ensures (s2 + (s1 + data[n])) % BASE == Sum2(data, next)
  {
    AddMod(s1, data[n]);
    AddMod(s2, s1 + data[n]);
  }

  /** Both sums over the next bytes, without overflow of an unsigned 32-bit integer. */
  method AddRun(data: seq<nat>, j: nat, blocklen: nat, a: nat, b: nat) returns (s1: nat, s2: nat)
    requires j + blocklen <= |data| && blocklen <= RUN && forall i :: 0 <= i < |data| ==> data[i] < 256
    requires a == Sum1(data, j) && b == Sum2(data, j)
    ensures s1 % BASE == Sum1(data, j + blocklen) && s2 % BASE == Sum2(data, j + blocklen)
    ensures s1 < 0x1_0000_0000 && s2 < 0x1_0000_0000
  {
    s1, s2 := a, b;
    SumsSmall(data, j);
    var i := 0;
    while i < blocklen
      invariant 0 <= i <= blocklen
      invariant s1 % BASE == Sum1(data, j + i) && s2 % BASE == Sum2(data, j + i)
      invariant s1 <= BASE - 1 + 255 * i && s2 <= Most(i)
    {
      SumsStep(data, j + i, j + i + 1, s1, s2);
      s1 := s1 + data[j + i];
      s2 := s2 + s1;
      i := i + 1;
    }
    RunFits();
    MostMono(blocklen, RUN);
  }

  // ---------- the checksum ----------

  /** The sum of the first n bytes. */
  function Total(data: seq<nat>, n: nat): nat
    requires n <= |data|
  {
    if n == 0 then 0 else Total(data, n - 1) + data[n - 1]
  }

  /** The sum of the first n bytes, each as often as its place from the end tells: data[i] is
      taken count - i times. */
  function Weighted(data: seq<nat>, n: nat, count: nat): nat
    requires n <= |data| && n <= count
  {
    if n == 0 then 0 else Weighted(data, n - 1, count) + (count - (n - 1)) * data[n - 1]
  }

  lemma {:induction false} WeightedMore(data: seq<nat>, n: nat, count: nat, more: nat)
    requires n <= |data| && n <= count && more == count + 1
    ensures Weighted(data, n, more) == Weighted(data, n, count) + Total(data, n)
  {
    if n > 0 {
      WeightedMore(data, n - 1, count, more);
      var times := count - (n - 1);
      assert (times + 1) * data[n - 1] == times * data[n - 1] + data[n - 1];
    }
  }

  /** The sums as plain sums of the bytes, reduced once (section 2.2 of RFC 1950). */
  lemma {:induction false} SumsAre(data: seq<nat>, n: nat)
    requires n <= |data|
    ensures Sum1(data, n) == (1 + Total(data, n)) % 65521
    ensures Sum2(data, n) == (n + Weighted(data, n, n)) % 65521
  {
    if n > 0 {
      var m, byte := n - 1, data[n - 1];
      SumsAre(data, m);
      AddMod(1 + Total(data, m), byte);
      WeightedMore(data, m, m, n);
      AddMod(1 + Total(data, n), m + Weighted(data, m, m));
      assert Weighted(data, n, n) == Weighted(data, m, n) + 1 * byte;
    }
  }

  /** The four bytes of the checksum: the weighted sum, then the plain one, each with its high
      byte first. */
  function AdlerBytes(data: seq<nat>): seq<nat> {
    var n := |data|;
    var s1, s2 := (1 + Total(data, n)) % 65521, (n + Weighted(data, n, n)) % 65521;
    [s2 / 256, s2 % 256, s1 / 256, s1 % 256]
  }

  /** Checksums that are known: of nothing, and of the letters a to c. */
  lemma KnownChecksums()
    ensures AdlerBytes([]) == [0, 0, 0, 1]
    ensures AdlerBytes([0x61]) == [0x00, 0x62, 0x00, 0x62]
    ensures AdlerBytes([0x61, 0x62, 0x63]) == [0x02, 0x4d, 0x01, 0x27]
  {
    var abc := [0x61, 0x62, 0x63];
    assert Total(abc, 1) == 0x61 && Total(abc, 2) == 0xc3;
    assert Weighted(abc, 1, 3) == 3 * 0x61 && Weighted(abc, 2, 3) == 3 * 0x61 + 2 * 0x62;
    assert Total([0x61], 1) == 0x61 && Weighted([0x61], 1, 1) == 0x61;
  }

  lemma {:induction false} TrailerIs(data: seq<nat>, s1: nat, s2: nat)
    requires s1 == Sum1(data, |data|) && s2 == Sum2(data, |data|)
    ensures [s2 / 256 % 256, s2 % 256, s1 / 256 % 256, s1 % 256] == AdlerBytes(data)
  {
    SumsSmall(data, |data|);
    SumsAre(data, |data|);
  }

  method ComputeAdler(data: seq<nat>) returns (trailer: seq<nat>)
    requires forall i :: 0 <= i < |data| ==> data[i] < 256
    ensures trailer == AdlerBytes(data) && |trailer| == 4 && forall i :: 0 <= i < 4 ==> trailer[i] < 256
  {
    var s1, s2 := 1, 0;
    var blocklen: nat := |data| % RUN;
    ghost var runs := |data| / RUN;
    var j := 0;
    while j < |data|
      invariant 0 <= j <= |data| && blocklen <= RUN
      invariant j < |data| ==> |data| - j == blocklen + RUN * runs
      invariant s1 == Sum1(data, j) && s2 == Sum2(data, j)
      decreases if j < |data| then runs + 1 else 0
    {
      s1, s2 := AddRun(data, j, blocklen, s1, s2);
      s1, s2 := s1 % BASE, s2 % BASE;
      j := j + blocklen;
      blocklen := RUN;
      if runs > 0 { runs := runs - 1; }
    }
    TrailerIs(data, s1, s2);
    trailer := [s2 / 256 % 256, s2 % 256, s1 / 256 % 256, s1 % 256];
  }
}
