/** Bit strings in the order DEFLATE packs them (section 3.1.1 of RFC 1951): the first bit
    is the least significant one. */
module LsbBits {
  import opened Bits

  /** The n low bits of v, least significant first. */
  function Lsb(v: nat, n: nat): (b: seq<bool>)
    ensures |b| == n
  {
    if n == 0 then [] else [v % 2 == 1] + Lsb(v / 2, n - 1)
  }

  /** The number denoted by a bit string, least significant bit first. */
  function LsbValue(b: seq<bool>): nat {
    if b == [] then 0 else (if b[0] then 1 else 0) + 2 * LsbValue(b[1..])
  }

  lemma {:induction false} LsbBound(b: seq<bool>)
    ensures LsbValue(b) < Pow2(|b|)
  {
    if b != [] { LsbBound(b[1..]); }
  }

  lemma {:induction false} LsbRoundTrip(v: nat, n: nat)
    requires v < Pow2(n)
    ensures LsbValue(Lsb(v, n)) == v
  {
    if n != 0 {
      LsbRoundTrip(v / 2, n - 1);
      assert Lsb(v, n)[1..] == Lsb(v / 2, n - 1);
    }
  }

  lemma {:induction false} LsbOfValue(b: seq<bool>)
    ensures Lsb(LsbValue(b), |b|) == b
  {
    if b != [] {
      LsbOfValue(b[1..]);
      assert b == [b[0]] + b[1..];
    }
  }

  /** Later bits weigh more. */
  lemma {:induction false} LsbConcat(a: seq<bool>, b: seq<bool>)
    ensures LsbValue(a + b) == LsbValue(a) + Shl(LsbValue(b), |a|)
  {
    if a == [] {
      NoneBefore(b);
    } else {
      LsbConcat(a[1..], b);
      assert (a + b)[1..] == a[1..] + b && (a + b)[0] == a[0];
    }
  }

  /** Shifting right drops the first bits, masking keeps them. */
  lemma {:induction false} LsbSplit(b: seq<bool>, n: nat)
    requires n <= |b|
    ensures Shr(LsbValue(b), n) == LsbValue(b[n..])
    ensures Low(LsbValue(b), n) == LsbValue(b[..n]) < Pow2(n)
  {
    assert b == b[..n] + b[n..];
    LsbConcat(b[..n], b[n..]);
    LsbBound(b[..n]);
    Split(LsbValue(b), n, LsbValue(b[n..]), LsbValue(b[..n]));
  }

  /** Or-ing a number in above the bits already there appends its bits. */
  lemma {:induction false} LsbAppend(a: seq<bool>, v: nat, n: nat)
    requires v < Pow2(n)
    ensures 0 <= Shl(v, |a|) && Or(LsbValue(a), Shl(v, |a|)) == LsbValue(a + Lsb(v, n))
  {
    LsbRoundTrip(v, n);
    LsbConcat(a, Lsb(v, n));
    LsbBound(a);
    OrDisjoint(v, LsbValue(a), |a|);
    OrCommutes(LsbValue(a), Shl(v, |a|));
  }

  lemma {:induction false} OrCommutes(a: nat, b: nat)
    ensures Or(a, b) == Or(b, a)
    decreases a + b
  {
    if a != 0 || b != 0 { OrCommutes(a / 2, b / 2); }
  }

  /** The first bits of a number's bits. */
  lemma {:induction false} LsbPrefix(v: nat, n: nat, k: nat)
    requires k <= n
    ensures Lsb(v, n)[..k] == Lsb(v, k)
  {
    if k != 0 {
      LsbPrefix(v / 2, n - 1, k - 1);
      assert Lsb(v, n)[..k] == [v % 2 == 1] + Lsb(v / 2, n - 1)[..k - 1];
    }
  }

  /** The bits of bytes in transmission order. */
  function BitsOf(bytes: seq<nat>): (b: seq<bool>)
    ensures |b| == 8 * |bytes|
  {
    if bytes == [] then [] else Lsb(bytes[0], 8) + BitsOf(bytes[1..])
  }

  lemma {:induction false} BitsOfConcat(a: seq<nat>, b: seq<nat>)
    ensures BitsOf(a + b) == BitsOf(a) + BitsOf(b)
  {
    if a == [] {
      NoneBefore(b);
      NoneBefore(BitsOf(b));
    } else {
      BitsOfConcat(a[1..], b);
      assert (a + b)[1..] == a[1..] + b && (a + b)[0] == a[0];
      Assoc(Lsb(a[0], 8), BitsOf(a[1..]), BitsOf(b));
    }
  }

  predicate IsBytes(s: seq<nat>) {
    forall i :: 0 <= i < |s| ==> s[i] < 256
  }
}
