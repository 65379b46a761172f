/** Bounded random numbers by multiplying and rejecting: every result comes from the same
    number of draws. */
module Random {
  import opened Arithmetic

  /** The number of 32-bit draws. */
  const DRAWS: nat := 0x1_0000_0000
  /** The number of 64-bit words. */
  const WORDS: nat := 0x1_0000_0000_0000_0000
  const LONG_MAX: int := 0x7fff_ffff_ffff_ffff

  predicate IsLong(x: int) {
    -LONG_MAX - 1 <= x <= LONG_MAX
  }

  // ---------- arithmetic ----------

  function Ceiling(a: nat, h: nat): nat
    requires h > 0
  {
    (a + h - 1) / h
  }

  lemma {:induction false} CeilingIs(a: nat, h: nat, x: nat)
    requires h > 0
    ensures x * h >= a <==> x >= Ceiling(a, h)
  {
    var c := Ceiling(a, h);
    QuotientIs(a + h - 1, h, c);
    MulMono(c, x, h);
    MulMono(x, c, h);
  }

  lemma {:induction false} CeilingStep(a: nat, h: nat, q: nat)
    requires h > 0
    ensures Ceiling(a + q * h, h) == Ceiling(a, h) + q
  {
    var c := Ceiling(a, h);
    QuotientIs(a + h - 1, h, c);
    assert (c + q) * h == c * h + q * h;
    QuotientIs(a + q * h + h - 1, h, c + q);
  }

  // ---------- which draws are accepted ----------

  /** The draws below this remainder are rejected. */
  function Threshold(m: nat, h: nat): nat
    requires h > 0
  {
    m % h
  }

  /** The plain rejection test, for draws below m and results below h. */
  predicate Accepted(m: nat, h: nat, x: nat)
    requires h > 0 && m > 0
  {
    x * h % m >= Threshold(m, h)
  }

  function Result(m: nat, h: nat, x: nat): nat
    requires m > 0
  {
    x * h / m
  }

  /** The first draw that gives r. */
  function First(m: nat, h: nat, r: nat): nat
    requires h > 0
  {
    Ceiling(r * m + Threshold(m, h), h)
  }

  /** The accepted draws that give r are m / h consecutive ones. */
  lemma {:induction false} ResultInterval(m: nat, h: nat, r: nat, x: nat)
    requires 0 < h <= m
    ensures Accepted(m, h, x) && Result(m, h, x) == r <==> First(m, h, r) <= x < First(m, h, r) + m / h
  {
    var t, q, a := Threshold(m, h), m / h, x * h;
    QuotientIs(a, m, r);
    assert m == q * h + t;
    CeilingIs(r * m + t, h, x);
    CeilingIs(r * m + m, h, x);
    CeilingStep(r * m + t, h, q);
    if Result(m, h, x) == r { assert a % m == a - r * m; }
    assert r * m + t + q * h == r * m + m;
  }

  /** The intervals of the results follow each other, within the draws. */
  lemma {:induction false} IntervalsFollow(m: nat, h: nat, r: nat)
    requires 0 < h <= m
    ensures First(m, h, r) + m / h <= First(m, h, r + 1)
    ensures r < h ==> First(m, h, r) + m / h <= m
  {
    var t, q := Threshold(m, h), m / h;
    assert m == q * h + t && (r + 1) * m == r * m + m;
    CeilingStep(r * m + t, h, q);
    assert r * m + t + q * h == r * m + m;
    CeilingMono(r * m + m, (r + 1) * m + t, h);
    if r < h {
      MulMono(r, h, m);
      CeilingMono(r * m + m, h * m, h);
      QuotientIs(h * m + h - 1, h, m);
      assert m * h == h * m;
    }
  }

  lemma {:induction false} CeilingMono(a: nat, b: nat, h: nat)
    requires h > 0 && a <= b
    ensures Ceiling(a, h) <= Ceiling(b, h)
  {
    CeilingIs(a, h, Ceiling(b, h));
    CeilingIs(b, h, Ceiling(b, h));
  }

  /** How many draws below n are accepted. */
  function AcceptedBelow(m: nat, h: nat, n: nat): nat
    requires 0 < h <= m
  {
    if n == 0 then 0 else AcceptedBelow(m, h, n - 1) + if Accepted(m, h, n - 1) then 1 else 0
  }

  /** How many draws below n are accepted and give r. */
  function GivingBelow(m: nat, h: nat, r: nat, n: nat): nat
    requires 0 < h <= m
  {
    if n == 0 then 0
    else GivingBelow(m, h, r, n - 1) + if Accepted(m, h, n - 1) && Result(m, h, n - 1) == r then 1 else 0
  }

  lemma {:induction false} GivingCount(m: nat, h: nat, r: nat, n: nat)
    requires 0 < h <= m
    ensures var lo := First(m, h, r);
      GivingBelow(m, h, r, n) == if n <= lo then 0 else if n <= lo + m / h then n - lo else m / h
  {
    if n > 0 {
      GivingCount(m, h, r, n - 1);
      ResultInterval(m, h, r, n - 1);
    }
  }

  /** No bias: every result below h comes from exactly the quotient of m by h accepted draws. */
  lemma {:induction false} Unbiased(m: nat, h: nat, r: nat)
    requires 0 < h <= m && r < h
    ensures GivingBelow(m, h, r, m) == m / h
  {
    GivingCount(m, h, r, m);
    IntervalEnds(m, h, r);
  }

  lemma {:induction false} IntervalEnds(m: nat, h: nat, r: nat)
    requires 0 < h <= m && r < h
    ensures First(m, h, r) + m / h <= m
  {
    IntervalsFollow(m, h, r);
  }

  /** An accepted draw gives a result below h. */
  lemma {:induction false} ResultBelow(m: nat, h: nat, x: nat)
    requires 0 < h <= m && x < m
    ensures Result(m, h, x) < h
  {
    var r := Result(m, h, x);
    QuotientIs(x * h, m, r);
    MulMono(x, m, h);
    assert m * h == h * m;
    MulMono(h, r, m);
  }

  lemma MulStep(r: nat, q: nat)
    requires r > 0
    ensures (r - 1) * q + q == r * q
  {
  }

  /** Below the first draw of result r + 1 the accepted draws are the intervals up to r. */
  lemma {:induction false} AcceptedCount(m: nat, h: nat, r: nat, n: nat, q: nat)
    requires 0 < h <= m && r < h && q == m / h && First(m, h, r) <= n <= First(m, h, r + 1)
    ensures AcceptedBelow(m, h, n) == r * q + if n <= First(m, h, r) + q then n - First(m, h, r) else q
    decreases n, r
  {
    if n > First(m, h, r) {
      AcceptedCount(m, h, r, n - 1, q);
      AcceptedInside(m, h, r, n - 1);
    } else if r > 0 {
      IntervalsFollow(m, h, r - 1);
      AcceptedCount(m, h, r - 1, n, q);
      MulStep(r, q);
    } else {
      NoneBefore(m, h, n);
    }
  }

  /** Between the first draws of two results, the accepted ones are the interval of the first. */
  lemma {:induction false} AcceptedInside(m: nat, h: nat, r: nat, x: nat)
    requires 0 < h <= m && First(m, h, r) <= x < First(m, h, r + 1)
    ensures Accepted(m, h, x) <==> x < First(m, h, r) + m / h
  {
    ResultInterval(m, h, r, x);
    var s := Result(m, h, x);
    ResultInterval(m, h, s, x);
    if Accepted(m, h, x) && s != r {
      if s < r {
        FirstMono(m, h, s + 1, r);
        IntervalsFollow(m, h, s);
      } else {
        FirstMono(m, h, r + 1, s);
      }
    }
  }

  lemma {:induction false} FirstMono(m: nat, h: nat, a: nat, b: nat)
    requires 0 < h <= m && a <= b
    ensures First(m, h, a) <= First(m, h, b)
  {
    MulMono(a, b, m);
    CeilingMono(a * m + Threshold(m, h), b * m + Threshold(m, h), h);
  }

  lemma {:induction false} NoneBefore(m: nat, h: nat, n: nat)
    requires 0 < h <= m && n <= First(m, h, 0)
    ensures AcceptedBelow(m, h, n) == 0
  {
    if n > 0 {
      NoneBefore(m, h, n - 1);
      var s := Result(m, h, n - 1);
      ResultInterval(m, h, s, n - 1);
      FirstMono(m, h, 0, s);
    }
  }

  lemma {:induction false} AcceptedAll(m: nat, h: nat, q: nat, last: nat)
    requires 0 < h <= m && q == m / h && last == h - 1
    ensures AcceptedBelow(m, h, m) == h * q
  {
    IntervalEnds(m, h, last);
    LastFirst(m, h);
    AcceptedCount(m, h, last, m, q);
    MulStep(h, q);
  }

  lemma Remainder(m: nat, h: nat)
    requires h > 0
    ensures m - h * (m / h) == m % h
  {
  }

  /** Exactly the remainder of m by h is rejected. */
  lemma {:induction false} RejectedCount(m: nat, h: nat)
    requires 0 < h <= m
    ensures m - AcceptedBelow(m, h, m) == m % h
  {
    AcceptedAll(m, h, m / h, h - 1);
    Remainder(m, h);
  }

  /** The first draw beyond the last result is not below m. */
  lemma {:induction false} LastFirst(m: nat, h: nat)
    requires 0 < h <= m
    ensures First(m, h, h) >= m
  {
    CeilingIs(h * m + Threshold(m, h), h, First(m, h, h));
    var c := First(m, h, h);
    MulMono(c, m, h);
    assert h * m == m * h;
  }

  // ---------- any bound ----------

  /** The product of a draw and a bound as a 64-bit word. */
  function Product(x: nat, h: int): (m: nat)
    ensures m < WORDS
  {
    x * (h % WORDS) % WORDS
  }

  /** The negated bound as a 32-bit word. */
  function Negated(h: int): (n: nat)
    ensures n < DRAWS
  {
    -h % DRAWS
  }

  /** Low halves of products below this are rejected: the remainder of the number of draws, or
      its negated bound alone when that is beyond the number of draws. */
  function Limit(h: nat): nat
    requires h > 0
  {
    if h <= DRAWS then Threshold(DRAWS, h) else Negated(h)
  }

  predicate Rejected(h: int, x: nat) {
    h > 0 && Product(x, h) % DRAWS < Limit(h)
  }

  function Drawn(h: int, x: nat): (r: nat)
    ensures r < DRAWS
  {
    Product(x, h) / DRAWS
  }

  /** The product is that of the integers, modulo 2^64; the result is its high half. */
  lemma {:induction false} DrawnIs(h: int, x: nat)
    ensures Product(x, h) == x * h % 0x1_0000_0000_0000_0000
    ensures Drawn(h, x) == x * h % 0x1_0000_0000_0000_0000 / 0x1_0000_0000
  {
    var q, r := h / WORDS, h % WORDS;
    assert h == WORDS * q + r;
    assert x * h == x * r + WORDS * (x * q) by { assert x * (WORDS * q + r) == x * (WORDS * q) + x * r; }
    ModuloMore(x * r, x * q);
  }

  lemma {:induction false} ModuloMore(a: int, k: int)
    ensures (a + WORDS * k) % WORDS == a % WORDS
  {
  }

  /** Above 2^32 the limit is the number that makes the bound a multiple of 2^32. */
  lemma LimitAbove(h: nat)
    requires h > 0x1_0000_0000
    ensures Limit(h) < 0x1_0000_0000 && (Limit(h) + h) % 0x1_0000_0000 == 0
  {
  }

  /** Up to the number of draws the product fits a word, so the test is the plain one. */
  lemma {:induction false} ProductFits(h: nat, x: nat)
    requires 0 < h <= DRAWS && x < DRAWS
    ensures Product(x, h) == x * h
    ensures Rejected(h, x) <==> !Accepted(DRAWS, h, x)
    ensures Drawn(h, x) == Result(DRAWS, h, x) < h
  {
    MulMono(x, DRAWS, h);
    assert h % WORDS == h;
    assert 0 <= x * h < WORDS;
    ResultBelow(DRAWS, h, x);
  }

  ghost predicate Reached(h: int, r: nat) {
    exists x: nat :: x < DRAWS && !Rejected(h, x) && Drawn(h, x) == r
  }

  /** Every number below a positive bound is the result of some accepted draw exactly when the
      bound is not beyond the number of draws. */
  lemma {:induction false} EveryResult(h: nat)
    requires 0 < h
    ensures (forall r: nat :: r < h ==> Reached(h, r)) <==> h <= DRAWS
    ensures h > DRAWS ==> !Reached(h, DRAWS)
  {
    if h <= DRAWS {
      forall r: nat | r < h ensures Reached(h, r) {
        var x := SomeDraw(h, r);
      }
    } else {
      assert !Reached(h, DRAWS);
    }
  }

  lemma {:induction false} SomeDraw(h: nat, r: nat) returns (x: nat)
    requires r < h <= DRAWS
    ensures x < DRAWS && !Rejected(h, x) && Drawn(h, x) == r
  {
    x := First(DRAWS, h, r);
    QuotientIs(DRAWS, h, DRAWS / h);
    assert DRAWS / h > 0;
    IntervalEnds(DRAWS, h, r);
    ResultInterval(DRAWS, h, r, x);
    ProductFits(h, x);
  }

  /** The threshold as the source computes it: the negated bound in modular arithmetic, reduced. */
  method ComputeThreshold(h: nat) returns (t: nat)
    requires 0 < h
    ensures t == Limit(h)
  {
    t := Negated(h);
    if t >= h {
      NegatedBound(h);
      SubtractBound(t, h);
      t := t - h;
      if t >= h {
        t := t % h;
      }
      SmallMod(t, h);
    } else if h <= DRAWS {
      NegatedBound(h);
      SmallMod(t, h);
    }
  }

  lemma {:induction false} NegatedBound(h: nat)
    requires 0 < h <= DRAWS
    ensures Negated(h) == DRAWS - h && (DRAWS - h) % h == Threshold(DRAWS, h)
  {
    SubtractBound(DRAWS, h);
  }

  lemma {:induction false} SubtractBound(t: nat, h: nat)
    requires 0 < h <= t
    ensures (t - h) % h == t % h
  {
    var q := (t - h) / h;
    assert t - h == q * h + (t - h) % h;
    assert t == (q + 1) * h + (t - h) % h;
    QuotientIs(t, h, q + 1);
  }

  lemma SmallMod(t: nat, h: nat)
    requires h > 0
    ensures t < h ==> t % h == t
  {
  }

  datatype Outcome = NoMoreDraws | Value(value: int, used: nat)

  /** The first draw that is not rejected gives the result. */
  ghost predicate Gives(h: int, draws: seq<nat>, r: Outcome) {
    match r
    case NoMoreDraws => forall i :: 0 <= i < |draws| ==> Rejected(h, draws[i])
    case Value(value, used) =>
      && 0 < used <= |draws| && !Rejected(h, draws[used - 1])
      && (forall i :: 0 <= i < used - 1 ==> Rejected(h, draws[i]))
      && value == Drawn(h, draws[used - 1])
  }

  /** A random number below h from a supply of draws: the result of the first draw that the
      plain test accepts, although the threshold is computed only when it may matter. */
  method Random(h: int, draws: seq<nat>) returns (r: Outcome)
    requires IsLong(h) && forall i :: 0 <= i < |draws| ==> draws[i] < DRAWS
    ensures Gives(h, draws, r)
    ensures h == 0 && draws != [] ==> r == Value(0, 1)
    ensures h > 0 && r.Value? ==> 0 <= r.value < h
  {
    if draws == [] {
      return NoMoreDraws;
    }
    var n := 1;
    var m := Product(draws[0], h);
    var l := m % DRAWS;
    if l < h {
      var t := ComputeThreshold(h);
      while l < t
        invariant 0 < n <= |draws| && m == Product(draws[n - 1], h) && l == m % DRAWS
        invariant forall i :: 0 <= i < n - 1 ==> Rejected(h, draws[i])
        decreases |draws| - n
      {
        if n == |draws| {
          return NoMoreDraws;
        }
        m := Product(draws[n], h);
        l := m % DRAWS;
        n := n + 1;
      }
    }
    if 0 < h <= DRAWS { ProductFits(h, draws[n - 1]); }
    r := Value(m / DRAWS, n);
  }

  /** A random number from small up to and not including big; small itself if that is empty. */
  method RandomBetween(small: int, big: int, draws: seq<nat>) returns (r: Outcome)
    requires IsLong(small) && IsLong(big) && (small < big ==> IsLong(big - small))
    requires forall i :: 0 <= i < |draws| ==> draws[i] < DRAWS
    ensures small >= big ==> r == Value(small, 0)
    ensures small < big ==> Gives(big - small, draws, if r.Value? then Value(r.value - small, r.used) else r)
    ensures small < big && r.Value? ==> small <= r.value < big
  {
    if small >= big {
      return Value(small, 0);
    }
    r := Random(big - small, draws);
    if r.Value? {
      r := Value(r.value + small, r.used);
    }
  }
}
