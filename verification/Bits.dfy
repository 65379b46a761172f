/** Bit strings and the shift and mask operators of the C sources, on unbounded integers.
    Both shifts are defined by doubling and halving; Low keeps the k low bits, which is
    what a mask of k ones or an assignment to a k-bit variable does. */
module Bits {

  function Shl(x: int, k: nat): int {
    if k == 0 then x else 2 * Shl(x, k - 1)
  }

  function Shr(x: int, k: nat): int {
    if k == 0 then x else Shr(x, k - 1) / 2
  }

  function Pow2(k: nat): int {
    Shl(1, k)
  }

  function Low(x: int, k: nat): int {
    x - Shl(Shr(x, k), k)
  }

  lemma {:induction false} ShlPlus(x: int, y: int, k: nat)
    ensures Shl(x + y, k) == Shl(x, k) + Shl(y, k)
  {
    if k != 0 { ShlPlus(x, y, k - 1); }
  }

  lemma {:induction false} ShlZero(k: nat)
    ensures Shl(0, k) == 0
  {
    if k != 0 { ShlZero(k - 1); }
  }

  lemma {:induction false} ShlMinus(x: int, y: int, k: nat)
    ensures Shl(x - y, k) == Shl(x, k) - Shl(y, k)
  {
    ShlPlus(x - y, y, k);
  }

  lemma {:induction false} ShlShl(x: int, a: nat, b: nat)
    ensures Shl(Shl(x, a), b) == Shl(x, a + b)
  {
    if b != 0 { ShlShl(x, a, b - 1); }
  }

  lemma {:induction false} ShlTimes(x: int, k: nat)
    ensures Shl(x, k) == x * Pow2(k)
  {
    if k != 0 {
      ShlTimes(x, k - 1);
      assert x * (2 * Pow2(k - 1)) == 2 * (x * Pow2(k - 1));
    }
  }

  lemma {:induction false} ShlMono(x: int, y: int, k: nat)
    requires x <= y
    ensures Shl(x, k) <= Shl(y, k)
  {
    if k != 0 { ShlMono(x, y, k - 1); }
  }

  lemma {:induction false} ShlStrict(x: int, y: int, k: nat)
    requires x < y
    ensures Shl(x, k) + Pow2(k) <= Shl(y, k) && Pow2(k) >= 1
  {
    ShlMono(x + 1, y, k);
    ShlPlus(x, 1, k);
    Pow2Positive(k);
  }

  lemma {:induction false} Pow2Positive(k: nat)
    ensures Pow2(k) >= 1
  {
    if k != 0 { Pow2Positive(k - 1); }
  }

  lemma {:induction false} Pow2Mono(a: nat, b: nat)
    requires a <= b
    ensures 1 <= Pow2(a) <= Pow2(b)
  {
    Pow2Positive(a);
    if a < b { Pow2Mono(a, b - 1); Pow2Positive(b - 1); }
  }

  lemma {:induction false} ShrShr(x: int, a: nat, b: nat)
    ensures Shr(Shr(x, a), b) == Shr(x, a + b)
  {
    if b != 0 { ShrShr(x, a, b - 1); }
  }

  /** A right shift is the quotient by the power of two. */
  lemma {:induction false} ShrIs(x: int, k: nat, c: int)
    ensures Shr(x, k) == c <==> Shl(c, k) <= x < Shl(c + 1, k)
    decreases k
  {
    if k != 0 {
      ShrIs(x, k - 1, 2 * c);
      ShrIs(x, k - 1, 2 * c + 1);
      ShlPlus(c, c, k - 1);
      ShlPlus(2 * c, 1, k - 1);
      ShlPlus(2 * c + 1, 1, k - 1);
      ShlPlus(c, 1, k - 1);
      ShlMono(2 * c, 2 * c + 1, k - 1);
      ShlMono(2 * c + 1, 2 * c + 2, k - 1);
    }
  }

  lemma {:induction false} LowRange(x: int, k: nat)
    ensures x == Shl(Shr(x, k), k) + Low(x, k) && 0 <= Low(x, k) < Pow2(k)
  {
    ShrIs(x, k, Shr(x, k));
    ShlPlus(Shr(x, k), 1, k);
  }

  /** Quotient and remainder by a power of two are the only ones. */
  lemma {:induction false} Split(x: int, k: nat, q: int, r: int)
    requires x == Shl(q, k) + r && 0 <= r < Pow2(k)
    ensures Shr(x, k) == q && Low(x, k) == r
  {
    ShlPlus(q, 1, k);
    ShrIs(x, k, q);
  }

  lemma {:induction false} LowSmall(x: int, k: nat)
    requires 0 <= x < Pow2(k)
    ensures Low(x, k) == x && Shr(x, k) == 0
  {
    ShlZero(k);
    Split(x, k, 0, x);
  }

  lemma {:induction false} ShrShl(x: int, k: nat)
    ensures Shr(Shl(x, k), k) == x && Low(Shl(x, k), k) == 0
  {
    Pow2Positive(k);
    Split(Shl(x, k), k, x, 0);
  }

  /** The high part of an (a + n)-bit number is an n-bit number. */
  lemma {:induction false} ShrRange(x: int, a: nat, n: nat)
    requires 0 <= x < Pow2(a + n)
    ensures 0 <= Shr(x, a) < Pow2(n)
  {
    LowSmall(x, a + n);
    ShrShr(x, a, n);
    ShrIs(Shr(x, a), n, 0);
    ShlZero(n);
  }

  lemma {:induction false} LowShl(x: int, a: nat, b: nat)
    ensures Low(Shl(x, a), a + b) == Shl(Low(x, b), a)
  {
    LowRange(x, b);
    ShlPlus(Shl(Shr(x, b), b), Low(x, b), a);
    ShlShl(Shr(x, b), b, a);
    ShlZero(a);
    ShlMono(0, Low(x, b), a);
    ShlStrict(Low(x, b), Pow2(b), a);
    ShlShl(1, b, a);
    Split(Shl(x, a), a + b, Shr(x, b), Shl(Low(x, b), a));
  }

  lemma {:induction false} ShrLow(x: int, a: nat, b: nat)
    ensures Shr(Low(x, a + b), a) == Low(Shr(x, a), b)
  {
    LowRange(x, a + b);
    var q, r := Shr(x, a + b), Low(x, a + b);
    LowRange(r, a);
    ShrRange(r, a, b);
    ShlShl(q, b, a);
    ShlPlus(Shl(q, b), Shr(r, a), a);
    Split(x, a, Shl(q, b) + Shr(r, a), Low(r, a));
    Split(Shr(x, a), b, q, Shr(r, a));
  }

  lemma Pow2Values()
    ensures Pow2(0) == 1 && Pow2(1) == 2 && Pow2(2) == 4 && Pow2(3) == 8 && Pow2(4) == 16
    ensures Pow2(5) == 32 && Pow2(6) == 64 && Pow2(7) == 128 && Pow2(8) == 256 && Pow2(9) == 512
    ensures Pow2(10) == 1024 && Pow2(11) == 2048 && Pow2(12) == 4096 && Pow2(13) == 8192 && Pow2(14) == 16384
    ensures Pow2(15) == 32768 && Pow2(16) == 0x1_0000 && Pow2(23) == 0x80_0000 && Pow2(24) == 0x100_0000
    ensures Pow2(32) == 0x1_0000_0000
  {
  }

  /** The number denoted by a bit string, most significant bit first. */
  function Value(b: seq<bool>): nat {
    if b == [] then 0 else 2 * Value(b[..|b| - 1]) + (if b[|b| - 1] then 1 else 0)
  }

  /** The n low bits of v, most significant first. */
  function Msb(v: nat, n: nat): (b: seq<bool>)
    ensures |b| == n
  {
    if n == 0 then [] else Msb(v / 2, n - 1) + [v % 2 == 1]
  }

  lemma {:induction false} ValueBound(b: seq<bool>)
    ensures Value(b) < Pow2(|b|)
  {
    if b != [] { ValueBound(b[..|b| - 1]); }
  }

  lemma {:induction false} ValueConcat(a: seq<bool>, b: seq<bool>)
    ensures Value(a + b) == Shl(Value(a), |b|) + Value(b)
  {
    if b == [] {
      assert a + b == a;
    } else {
      ValueConcat(a, b[..|b| - 1]);
      assert (a + b)[..|a + b| - 1] == a + b[..|b| - 1];
    }
  }

  lemma {:induction false} ValueMsb(v: nat, n: nat)
    requires v < Pow2(n)
    ensures Value(Msb(v, n)) == v
  {
    if n != 0 {
      ValueMsb(v / 2, n - 1);
      assert Msb(v, n)[..n - 1] == Msb(v / 2, n - 1);
    }
  }

  lemma {:induction false} MsbValue(b: seq<bool>)
    ensures Msb(Value(b), |b|) == b
  {
    if b != [] {
      MsbValue(b[..|b| - 1]);
      assert b == b[..|b| - 1] + [b[|b| - 1]];
    }
  }

  lemma {:induction false} ValueInjective(a: seq<bool>, b: seq<bool>)
    requires |a| == |b| && Value(a) == Value(b)
    ensures a == b
  {
    MsbValue(a);
    MsbValue(b);
  }

  lemma PrefixDrop<T>(a: seq<T>, b: seq<T>, s: seq<T>)
    requires a + b <= s
    ensures a <= s && b <= s[|a|..]
  {
    assert (a + b)[..|a|] == a && (a + b)[|a|..] == b;
  }

  lemma Assoc4<T>(a: seq<T>, b: seq<T>, c: seq<T>, d: seq<T>)
    ensures ((a + b) + c) + d == a + (b + (c + d))
  {
  }

  lemma NoneBefore<T>(a: seq<T>)
    ensures [] + a == a
  {
  }

  lemma NoneAfter<T>(a: seq<T>)
    ensures a + [] == a
  {
  }

  lemma Assoc<T>(a: seq<T>, b: seq<T>, c: seq<T>)
    ensures (a + b) + c == a + (b + c)
  {
  }

  /** Bitwise or. */
  function Or(a: nat, b: nat): nat
    decreases a + b
  {
    if a == 0 && b == 0 then 0
    else (if a % 2 == 1 || b % 2 == 1 then 1 else 0) + 2 * Or(a / 2, b / 2)
  }

  lemma {:induction false} OrZero(a: nat)
    ensures Or(a, 0) == a
  {
    if a != 0 { OrZero(a / 2); }
  }

  /** Or of numbers that share no bit is their sum. */
  lemma {:induction false} OrDisjoint(h: nat, b: nat, k: nat)
    requires b < Pow2(k)
    ensures Shl(h, k) >= 0 && Or(Shl(h, k), b) == Shl(h, k) + b
    decreases k
  {
    ShlZero(k);
    ShlMono(0, h, k);
    if k == 0 {
      OrZero(h);
    } else {
      OrDisjoint(h, b / 2, k - 1);
    }
  }

  lemma {:induction false} JoinBound(h: int, x: int, a: nat, b: nat)
    requires 0 <= h < Pow2(a) && 0 <= x < Pow2(b)
    ensures 0 <= Shl(h, b) && Shl(h, b) + x < Pow2(a + b)
  {
    ShlZero(b);
    ShlMono(0, h, b);
    ShlStrict(h, Pow2(a), b);
    ShlShl(1, a, b);
  }

  /** A bit string shifted left by d is a number of |b| + d bits. */
  lemma {:induction false} Small(b: seq<bool>, d: nat)
    ensures 0 <= Shl(Value(b), d) < Pow2(|b| + d)
  {
    ValueBound(b);
    ShlZero(d);
    ShlMono(0, Value(b), d);
    ShlStrict(Value(b), Pow2(|b|), d);
    ShlShl(1, |b|, d);
  }
}
