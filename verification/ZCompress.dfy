/** The DEFLATE compressor of stb_image_write.h: hashed lists of earlier positions, greedy
    matching with one step of laziness, the fixed Huffman code, and stored blocks when the
    coded form is longer. */
module ZCompress {
  import opened Bits
  import opened LsbBits
  import opened ZHuffman
  import opened ZFormat
  import opened Adler

  const ZHASH: nat := 16384

  /** The hash of three bytes, in 32-bit arithmetic. */
  function Zhash(a: nat, b: nat, c: nat): bv32
    requires a < 256 && b < 256 && c < 256
  {
    var h0: bv32 := (a as bv32) + ((b as bv32) << 8) + ((c as bv32) << 16);
    var h1 := h0 ^ (h0 << 3);
    var h2 := h1 + (h1 >> 5);
    var h3 := h2 ^ (h2 << 4);
    var h4 := h3 + (h3 >> 17);
    var h5 := h4 ^ (h4 << 25);
    h5 + (h5 >> 6)
  }

  /** The list that position i belongs to; the mask keeps the low 14 bits. */
  function HashAt(data: seq<nat>, i: nat): (h: nat)
    requires IsBytes(data) && i + 2 < |data|
    ensures h < ZHASH
  {
    (Zhash(data[i], data[i + 1], data[i + 2]) as nat) % ZHASH
  }

  // ---------- matching ----------

  /** How many bytes from k on agree at p and q, up to limit and 258 in all. */
  function Agreement(data: seq<nat>, p: nat, q: nat, limit: nat, k: nat): (n: nat)
    requires p <= q && q + limit <= |data| && k <= limit
    ensures k <= n <= limit
    decreases limit - k
  {
    if k < limit && k < 258 && data[p + k] == data[q + k] then Agreement(data, p, q, limit, k + 1) else k
  }

  lemma {:induction false} AgreementAgrees(data: seq<nat>, p: nat, q: nat, limit: nat, k: nat, m: nat)
    requires p <= q && q + limit <= |data| && k <= limit && k <= m < Agreement(data, p, q, limit, k)
    ensures data[p + m] == data[q + m]
    decreases limit - k
  {
    if k < m { AgreementAgrees(data, p, q, limit, k + 1, m); }
  }

  lemma {:induction false} AgreementBound(data: seq<nat>, p: nat, q: nat, limit: nat, k: nat)
    requires p <= q && q + limit <= |data| && k <= limit && k <= 258
    ensures Agreement(data, p, q, limit, k) <= 258
    decreases limit - k
  {
    if k < limit && k < 258 && data[p + k] == data[q + k] { AgreementBound(data, p, q, limit, k + 1); }
  }

  /** The length of the match of q with an earlier position p. */
  function MatchLength(data: seq<nat>, p: nat, q: nat): (n: nat)
    requires p <= q <= |data|
    ensures n <= 258 && q + n <= |data|
  {
    AgreementBound(data, p, q, |data| - q, 0);
    Agreement(data, p, q, |data| - q, 0)
  }

  /** As many bytes agree as there are: the match ends with the data, at 258 bytes, or where
      the bytes differ. */
  lemma {:induction false} MatchLengthIs(data: seq<nat>, p: nat, q: nat)
    requires p <= q <= |data|
    ensures var n := MatchLength(data, p, q);
      && n <= 258 && q + n <= |data| && data[p..p + n] == data[q..q + n]
      && (n < 258 && q + n < |data| ==> data[p + n] != data[q + n])
  {
    var limit, n := |data| - q, MatchLength(data, p, q);
    assert n == Agreement(data, p, q, limit, 0);
    AgreementEnds(data, p, q, limit, 0);
    var at, from := data[p..p + n], data[q..q + n];
    forall m | 0 <= m < n ensures at[m] == from[m] { AgreementAgrees(data, p, q, limit, 0, m); }
  }

  lemma {:induction false} AgreementEnds(data: seq<nat>, p: nat, q: nat, limit: nat, k: nat)
    requires p <= q && q + limit <= |data| && k <= limit
    ensures var n := Agreement(data, p, q, limit, k); n < limit && n < 258 ==> data[p + n] != data[q + n]
    decreases limit - k
  {
    if k < limit && k < 258 && data[p + k] == data[q + k] { AgreementEnds(data, p, q, limit, k + 1); }
  }

  method Countm(data: seq<nat>, p: nat, q: nat, limit: nat) returns (n: nat)
    requires p <= q <= |data| && limit == |data| - q
    ensures n == MatchLength(data, p, q)
  {
    n := 0;
    while n < limit && n < 258 && data[p + n] == data[q + n]
      invariant 0 <= n <= limit && Agreement(data, p, q, limit, n) == Agreement(data, p, q, limit, 0)
    {
      n := n + 1;
    }
  }

  /** Positions that may be matched against position i. */
  predicate Earlier(list: seq<nat>, i: nat) {
    forall j :: 0 <= j < |list| ==> list[j] < i
  }

  /** Among the first n of the list within the window, the longest match of i is that of p, the
      last of its length; no match of three bytes when p is negative. */
  ghost predicate Best(data: seq<nat>, list: seq<nat>, i: nat, n: nat, best: nat, p: int)
    requires i <= |data| && n <= |list| && Earlier(list, i)
  {
    if p < 0 then
      p == -1 && best == 3 && forall j :: 0 <= j < n && list[j] > i - 32768 ==> MatchLength(data, list[j], i) < 3
    else
      && i - 32768 < p < i && best == MatchLength(data, p, i) >= 3
      && exists m :: LastBest(data, list, i, n, best, p, m)
  }

  ghost predicate LastBest(data: seq<nat>, list: seq<nat>, i: nat, n: nat, best: nat, p: int, m: int)
    requires i <= |data| && n <= |list| && Earlier(list, i)
  {
    && 0 <= m < n && list[m] == p
    && (forall j :: 0 <= j < m && list[j] > i - 32768 ==> MatchLength(data, list[j], i) <= best)
    && (forall j :: m < j < n && list[j] > i - 32768 ==> MatchLength(data, list[j], i) < best)
  }

  /** Searches a list for the longest match of at least three bytes within the window. */
  method FindBest(data: seq<nat>, list: seq<nat>, i: nat) returns (best: nat, bestloc: int)
    requires i <= |data| && Earlier(list, i)
    ensures Best(data, list, i, |list|, best, bestloc)
  {
    best, bestloc := 3, -1;
    ghost var m := 0;
    var j := 0;
    while j < |list|
      invariant 0 <= j <= |list|
      invariant bestloc < 0 ==>
        bestloc == -1 && best == 3 && forall k :: 0 <= k < j && list[k] > i - 32768 ==> MatchLength(data, list[k], i) < 3
      invariant bestloc >= 0 ==>
        && i - 32768 < bestloc < i && best == MatchLength(data, bestloc, i) >= 3
        && LastBest(data, list, i, j, best, bestloc, m)
    {
      if list[j] > i - 32768 {
        var d := Countm(data, list[j], i, |data| - i);
        if d >= best {
          best, bestloc, m := d, list[j], j;
        }
      }
      j := j + 1;
    }
  }

  /** The next position has a match longer than best. */
  ghost predicate Longer(data: seq<nat>, list: seq<nat>, i: nat, best: nat)
    requires i + 1 <= |data| && Earlier(list, i + 1)
  {
    exists j :: 0 <= j < |list| && list[j] > i - 32767 && MatchLength(data, list[j], i + 1) > best
  }

  /** Whether the next position has a longer match than best. */
  method BetterNext(data: seq<nat>, list: seq<nat>, i: nat, best: nat) returns (better: bool)
    requires i + 1 <= |data| && Earlier(list, i + 1)
    ensures better <==> Longer(data, list, i, best)
  {
    var j := 0;
    while j < |list|
      invariant 0 <= j <= |list|
      invariant forall k :: 0 <= k < j && list[k] > i - 32767 ==> MatchLength(data, list[k], i + 1) <= best
    {
      if list[j] > i - 32767 {
        var e := Countm(data, list[j], i + 1, |data| - i - 1);
        if e > best {
          return true;
        }
      }
      j := j + 1;
    }
    better := false;
  }

  // ---------- writing bits ----------

  lemma {:induction false} LsbSnoc(v: nat, k: nat)
    ensures Lsb(v, k + 1) == Lsb(v, k) + [Shr(v, k) % 2 == 1]
  {
    if k == 0 {
      assert Lsb(v / 2, 0) == [];
    } else {
      LsbSnoc(v / 2, k - 1);
      ShrHalf(v, k - 1);
      Assoc([v % 2 == 1], Lsb(v / 2, k - 1), [Shr(v, k) % 2 == 1]);
    }
  }

  lemma {:induction false} ReversedNext(v: nat, k: nat)
    ensures Reversed(v, k + 1) == 2 * Reversed(v, k) + if Shr(v, k) % 2 == 1 then 1 else 0
  {
    LsbSnoc(v, k);
    assert Lsb(v, k + 1)[..k] == Lsb(v, k);
  }

  lemma {:induction false} OrBit(x: nat, b: nat)
    requires b <= 1
    ensures Or(2 * x, b) == 2 * x + b
  {
    OrDisjoint(x, b, 1);
    assert Shl(x, 1) == 2 * x && Pow2(1) == 2;
  }

  /** Reverses the low bits of a code. */
  method Bitrev(code0: nat, codebits0: nat) returns (res: nat)
    ensures res == Reversed(code0, codebits0)
  {
    res := 0;
    var code, codebits := code0, codebits0;
    ghost var k := 0;
    while codebits > 0
      invariant k + codebits == codebits0
      invariant code == Shr(code0, k) && res == Reversed(code0, k)
    {
      OrBit(res, code % 2);
      ReversedNext(code0, k);
      res := Or(2 * res, code % 2);
      code := code / 2;
      codebits, k := codebits - 1, k + 1;
    }
  }

  lemma {:induction false} ReverseReverse(b: seq<bool>)
    ensures Reverse(Reverse(b)) == b
  {
    if b != [] {
      ReverseReverse(b[1..]);
      ReverseSnoc(Reverse(b[1..]), b[0]);
      assert b == [b[0]] + b[1..];
    }
  }

  /** A reversed code, least significant bit first, is the code word. */
  lemma {:induction false} ReversedWord(code: nat, n: nat)
    requires code < Pow2(n)
    ensures Reversed(code, n) < Pow2(n) && Lsb(Reversed(code, n), n) == Msb(code, n)
  {
    ReversedTwice(code, n);
    var b := Lsb(code, n);
    MsbValue(b);
    MsbReversed(Value(b), n);
    MsbReversed(code, n);
    ReverseReverse(Msb(code, n));
  }

  class BitWriter {
    var out: seq<nat>
    var bitbuf: nat
    var bitcount: nat
    /** What was written before the first bit, all bits so far, and those not yet in out. */
    ghost const head: seq<nat>
    ghost var stream: seq<bool>
    ghost var pending: seq<bool>

    ghost predicate Valid()
      reads this
    {
      && IsBytes(out) && bitcount == |pending| <= 7 && bitbuf == LsbValue(pending)
      && |head| <= |out| && out[..|head|] == head
      && BitsOf(out[|head|..]) + pending == stream
    }

    constructor (head: seq<nat>)
      requires IsBytes(head)
      ensures Valid() && this.head == head && out == head && stream == []
    {
      out, this.head := head, head;
      bitbuf, bitcount, stream, pending := 0, 0, [], [];
      new;
      assert out[|head|..] == [];
    }

    /** Moves whole bytes out of the bit buffer. */
    method Flush()
      requires IsBytes(out) && bitcount == |pending| <= 32 && bitbuf == LsbValue(pending)
      requires |head| <= |out| && out[..|head|] == head && BitsOf(out[|head|..]) + pending == stream
      modifies `out, `bitbuf, `bitcount, `pending
      ensures Valid() && |pending| == old(|pending|) % 8
    {
      while bitcount >= 8
        invariant IsBytes(out) && bitcount == |pending| <= 32 && bitbuf == LsbValue(pending)
        invariant |pending| % 8 == old(|pending|) % 8
        invariant |head| <= |out| && out[..|head|] == head && BitsOf(out[|head|..]) + pending == stream
        decreases bitcount
      {
        Emit();
      }
    }

    /** Moves one byte out of the bit buffer. */
    method Emit()
      requires IsBytes(out) && 8 <= bitcount == |pending| <= 32 && bitbuf == LsbValue(pending)
      requires |head| <= |out| && out[..|head|] == head && BitsOf(out[|head|..]) + pending == stream
      modifies `out, `bitbuf, `bitcount, `pending
      ensures IsBytes(out) && bitcount == |pending| && bitbuf == LsbValue(pending) && pending == old(pending)[8..]
      ensures |head| <= |out| && out[..|head|] == head && BitsOf(out[|head|..]) + pending == stream
    {
      MoveByte(out, |head|, pending);
      out := out + [Low(bitbuf, 8)];
      bitbuf := Shr(bitbuf, 8);
      bitcount := bitcount - 8;
      pending := pending[8..];
    }

    /** Writes the low bits of a number, least significant first. */
    method Add(code: nat, codebits: nat)
      requires Valid() && codebits <= 16 && code < Pow2(codebits)
      modifies this
      ensures Valid() && stream == old(stream) + Lsb(code, codebits)
      ensures |pending| == (old(|pending|) + codebits) % 8
    {
      LsbAppend(pending, code, codebits);
      Assoc(BitsOf(out[|head|..]), pending, Lsb(code, codebits));
      bitbuf := Or(bitbuf, Shl(code, bitcount));
      bitcount := bitcount + codebits;
      pending := pending + Lsb(code, codebits);
      stream := stream + Lsb(code, codebits);
      Flush();
    }

    /** Writes a Huffman code, most significant bit first. */
    method Huffa(code: nat, codebits: nat)
      requires Valid() && codebits <= 16 && code < Pow2(codebits)
      modifies this
      ensures Valid() && stream == old(stream) + Msb(code, codebits)
    {
      ReversedWord(code, codebits);
      var r := Bitrev(code, codebits);
      Add(r, codebits);
    }

    /** Writes a literal or length symbol. */
    method Huff(n: nat)
      requires Valid() && n < 288
      modifies this
      ensures Valid() && stream == old(stream) + LitWord(n)
    {
      Pow2Values();
      if n <= 143 {
        Huffa(0x30 + n, FixedLength(n));
      } else if n <= 255 {
        Huffa(0x190 + n - 144, FixedLength(n));
      } else if n <= 279 {
        Huffa(n - 256, FixedLength(n));
      } else {
        Huffa(0xC0 + n - 280, FixedLength(n));
      }
    }

    method PadBit(ghost before: seq<bool>, ghost pad: seq<bool>)
      requires Valid() && stream == before + pad
      modifies this
      ensures Valid() && stream == before + (pad + Lsb(0, 1)) && |pending| == (old(|pending|) + 1) % 8
    {
      Pow2Values();
      Assoc(before, pad, Lsb(0, 1));
      Add(0, 1);
    }

    /** Fills the last byte with zero bits. */
    method Pad() returns (ghost pad: seq<bool>)
      requires Valid()
      modifies this
      ensures Valid() && pending == [] && stream == old(stream) + pad
    {
      pad := [];
      NoneAfter(stream);
      while bitcount != 0
        invariant Valid() && stream == old(stream) + pad
        decreases (8 - bitcount) % 8
      {
        PadBit(old(stream), pad);
        pad := pad + Lsb(0, 1);
      }
    }

    /** Writes a back-reference. */
    method EmitMatch(best: nat, d: nat)
      requires Valid() && 3 <= best <= 258 && 1 <= d <= 32767
      modifies this
      ensures Valid() && stream == old(stream) + MatchBits(best, d)
    {
      CodesInRange(best, d);
      ghost var s0 := stream;
      var j := SearchCode(LENGTH_BASE, best);
      Huff(j + 257);
      AddLengthBits(j, best);
      j := SearchCode(DIST_BASE, d);
      AddDistCode(j);
      AddDistBits(j, d);
      MatchBitsAre(s0, best, d);
    }

    method EmitToken(t: Token)
      requires Valid() && IsToken(t, 32767)
      modifies this
      ensures Valid() && stream == old(stream) + TokenBits(t)
    {
      match t
      case Literal(b) => Huff(b);
      case Match(best, d) => EmitMatch(best, d);
    }

    method AddLengthBits(j: nat, best: nat)
      requires Valid() && 3 <= best <= 258 && j == LengthCode(best)
      modifies this
      ensures Valid() && stream == old(stream) + LengthBits(best)
    {
      LengthFits(best);
      if LENGTH_EXTRA[j] != 0 {
        Add(best - LENGTH_BASE[j], LENGTH_EXTRA[j]);
      } else {
        NoneAfter(stream);
      }
    }

    method AddDistCode(j: nat)
      requires Valid() && j < 30
      modifies this
      ensures Valid() && stream == old(stream) + DistWord(j)
    {
      Pow2Values();
      ReversedWord(j, DistLength(j));
      var r := Bitrev(j, DistLength(j));
      Add(r, DistLength(j));
    }

    method AddDistBits(j: nat, d: nat)
      requires Valid() && 1 <= d <= 32767 && j == DistCode(d)
      modifies this
      ensures Valid() && stream == old(stream) + DistBits(d)
    {
      DistFits(d);
      if DIST_EXTRA[j] != 0 {
        Add(d - DIST_BASE[j], DIST_EXTRA[j]);
      } else {
        NoneAfter(stream);
      }
    }
  }

  /** Moving eight pending bits into a byte keeps the bits written. */
  lemma {:induction false} MoveByte(out: seq<nat>, n: nat, pending: seq<bool>)
    requires n <= |out| && |pending| >= 8
    ensures 0 <= Low(LsbValue(pending), 8) < 256 && Shr(LsbValue(pending), 8) == LsbValue(pending[8..])
    ensures var next := out + [Low(LsbValue(pending), 8) as nat];
      next[..n] == out[..n] && BitsOf(next[n..]) + pending[8..] == BitsOf(out[n..]) + pending
  {
    Pow2Values();
    LsbSplit(pending, 8);
    var b: nat := Low(LsbValue(pending), 8);
    LsbOfValue(pending[..8]);
    BitsOfConcat(out[n..], [b]);
    assert (out + [b])[n..] == out[n..] + [b];
    assert [b][1..] == [] && BitsOf([b]) == Lsb(b, 8);
    assert pending == pending[..8] + pending[8..];
    Assoc(BitsOf(out[n..]), pending[..8], pending[8..]);
  }

  /** The first interval whose end is beyond x. */
  method SearchCode(base: seq<nat>, x: nat) returns (j: nat)
    requires |base| >= 2 && x < base[|base| - 1]
    ensures j == FindCode(base, x, 0)
  {
    j := 0;
    while x > (base[j + 1] as int) - 1
      invariant j + 1 < |base| && FindCode(base, x, j) == FindCode(base, x, 0)
      decreases |base| - j
    {
      j := j + 1;
    }
  }

  lemma {:induction false} MatchBitsAre(s0: seq<bool>, len: nat, dist: nat)
    requires 3 <= len <= 258 && 1 <= dist <= 32767
    ensures LengthCode(len) < 29 && DistCode(dist) < 30
    ensures ((s0 + LitWord(LengthCode(len) + 257) + LengthBits(len)) + DistWord(DistCode(dist))) + DistBits(dist)
         == s0 + MatchBits(len, dist)
  {
    CodesInRange(len, dist);
    var a, b, c, d := LitWord(LengthCode(len) + 257), LengthBits(len), DistWord(DistCode(dist)), DistBits(dist);
    Assoc4(a, b, c, d);
    Assoc(s0 + a + b, c, d);
    Assoc(s0 + a, b, c + d);
    Assoc(s0, a, b + (c + d));
  }

  // ---------- compressing ----------

  /** All listed positions come before i. */
  ghost predicate TableOk(table: seq<seq<nat>>, i: nat) {
    |table| == ZHASH && forall h :: 0 <= h < ZHASH ==> Earlier(table[h], i)
  }

  lemma {:induction false} TableNext(table: seq<seq<nat>>, h: nat, list: seq<nat>, i: nat)
    requires TableOk(table, i) && h < ZHASH && Earlier(list, i)
    ensures TableOk(table[h := list + [i]], i + 1)
  {
    var longer := table[h := list + [i]];
    forall g | 0 <= g < ZHASH ensures Earlier(longer[g], i + 1) {
      assert Earlier(table[g], i);
    }
  }

  lemma {:induction false} TableLater(table: seq<seq<nat>>, i: nat, j: nat)
    requires TableOk(table, i) && i <= j
    ensures TableOk(table, j)
  {
    forall g | 0 <= g < ZHASH ensures Earlier(table[g], j) {
      assert Earlier(table[g], i);
    }
  }

  /** What the stream holds: the block header and tokens for the first i bytes. */
  ghost predicate Coded(stream: seq<bool>, tokens: seq<Token>, data: seq<nat>, i: nat) {
    && i <= |data| && AreTokens(tokens) && Expand(tokens) == data[..i]
    && stream == (Lsb(1, 1) + Lsb(1, 2)) + TokensBits(tokens)
  }

  /** A token for the bytes from i up to j. */
  ghost predicate StandsFor(t: Token, data: seq<nat>, i: nat, j: nat) {
    i <= j <= |data| && IsToken(t, i) && Apply(data[..i], t) == data[..j]
  }

  lemma {:induction false} CodedNext(stream: seq<bool>, tokens: seq<Token>, data: seq<nat>, i: nat, t: Token, j: nat)
    requires Coded(stream, tokens, data, i) && StandsFor(t, data, i, j)
    ensures Coded(stream + TokenBits(t), tokens + [t], data, j)
  {
    ExpandNext(tokens, t);
    TokensBitsNext(tokens, t);
    Assoc(Lsb(1, 1) + Lsb(1, 2), TokensBits(tokens), TokenBits(t));
  }

  lemma {:induction false} LiteralStands(data: seq<nat>, i: nat)
    requires i < |data| && IsBytes(data)
    ensures StandsFor(Literal(data[i]), data, i, i + 1)
  {
  }

  /** A match within the window stands for the bytes it matches. */
  lemma {:induction false} MatchStands(data: seq<nat>, p: nat, i: nat, best: nat)
    requires i - 32768 < p < i <= |data| && best == MatchLength(data, p, i) >= 3
    ensures StandsFor(Match(best, i - p), data, i, i + best)
  {
    forall k | i <= k < i + best ensures data[k - (i - p)] == data[k] {
      AgreementAgrees(data, p, i, |data| - i, 0, k - i);
    }
    CopyRepeats(data, i, i - p, best);
  }

  /** The list of a hash once position i has been entered: a full list loses its older half. */
  function Entered(list: seq<nat>, quality: nat, i: nat): seq<nat> {
    (if |list| == 2 * quality then list[quality..] else list) + [i]
  }

  /** Finds the longest match of position i and enters i into the table; the match is given
      up when the next position has a longer one. */
  method ChooseMatch(table: array<seq<nat>>, data: seq<nat>, quality: nat, i: nat)
    returns (best: nat, bestloc: int, ghost longest: int)
    requires TableOk(table[..], i) && IsBytes(data) && i + 3 < |data| && quality >= 5
    modifies table
    ensures var h := HashAt(data, i);
      && table[..] == old(table[..])[h := Entered(old(table[h]), quality, i)] && TableOk(table[..], i + 1)
      && Earlier(old(table[h]), i) && Best(data, old(table[h]), i, |old(table[h])|, best, longest)
    ensures var h := HashAt(data, i + 1);
      && Earlier(table[h], i + 1)
      && bestloc == if longest >= 0 && !Longer(data, table[h], i, best) then longest else -1
  {
    var h := HashAt(data, i);
    var list := table[h];
    assert Earlier(table[..][h], i);
    best, bestloc := FindBest(data, list, i);
    longest := bestloc;
    TableNext(table[..], h, if |list| == 2 * quality then list[quality..] else list, i);
    ghost var was := table[..];
    if |table[h]| == 2 * quality {
      table[h] := table[h][quality..];
    }
    table[h] := table[h] + [i];
    assert table[..] == was[h := Entered(list, quality, i)];
    h := HashAt(data, i + 1);
    assert Earlier(table[..][h], i + 1);
    if bestloc >= 0 {
      var better := BetterNext(data, table[h], i, best);
      if better {
        bestloc := -1;
      }
    }
  }

  /** The token for the bytes from i on: the chosen match, or a literal. */
  method NextToken(table: array<seq<nat>>, data: seq<nat>, quality: nat, i: nat) returns (t: Token, next: nat)
    requires TableOk(table[..], i) && IsBytes(data) && i + 3 < |data| && quality >= 5
    modifies table
    ensures StandsFor(t, data, i, next) && i < next && TableOk(table[..], next)
  {
    ghost var longest;
    var best, bestloc;
    best, bestloc, longest := ChooseMatch(table, data, quality, i);
    if bestloc >= 0 {
      MatchStands(data, bestloc, i, best);
      t, next := Match(best, i - bestloc), i + best;
    } else {
      LiteralStands(data, i);
      t, next := Literal(data[i]), i + 1;
    }
    TableLater(table[..], i + 1, next);
  }

  /** One turn of the compressor's loop: writes a match or a literal for the bytes from i on. */
  method CompressStep(w: BitWriter, table: array<seq<nat>>, data: seq<nat>, quality: nat, i: nat, ghost tokens: seq<Token>)
    returns (next: nat, ghost longer: seq<Token>)
    requires w.Valid() && TableOk(table[..], i) && IsBytes(data) && i + 3 < |data| && quality >= 5
    requires Coded(w.stream, tokens, data, i)
    modifies w, table
    ensures w.Valid() && TableOk(table[..], next) && i < next <= |data|
    ensures Coded(w.stream, longer, data, next)
  {
    var t;
    t, next := NextToken(table, data, quality, i);
    CodedNext(w.stream, tokens, data, i, t, next);
    w.EmitToken(t);
    longer := tokens + [t];
  }

  /** Writes the data as one block under the fixed code, up to its padding. */
  method CompressFixed(data: seq<nat>, quality0: int, w: BitWriter) returns (ghost tokens: seq<Token>, ghost pad: seq<bool>)
    requires w.Valid() && w.stream == [] && w.pending == [] && IsBytes(data)
    modifies w
    ensures w.Valid() && w.pending == [] && AreTokens(tokens) && Expand(tokens) == data
    ensures w.stream == (((Lsb(1, 1) + Lsb(1, 2)) + TokensBits(tokens)) + LitWord(256)) + pad
  {
    var quality: nat := if quality0 < 5 then 5 else quality0;
    var table := new seq<nat>[ZHASH](_ => []);
    Pow2Values();
    NoneBefore(Lsb(1, 1));
    w.Add(1, 1);
    w.Add(1, 2);
    tokens := [];
    NoneAfter(w.stream);
    var i := 0;
    while i + 3 < |data|
      invariant w.Valid() && i <= |data| && TableOk(table[..], i) && fresh(table)
      invariant Coded(w.stream, tokens, data, i)
    {
      i, tokens := CompressStep(w, table, data, quality, i, tokens);
    }
    while i < |data|
      invariant w.Valid() && i <= |data|
      invariant Coded(w.stream, tokens, data, i)
    {
      LiteralStands(data, i);
      CodedNext(w.stream, tokens, data, i, Literal(data[i]), i + 1);
      w.Huff(data[i]);
      tokens := tokens + [Literal(data[i])];
      i := i + 1;
    }
    w.Huff(256);
    pad := w.Pad();
  }

  /** Data of n bytes takes this many in stored blocks. */
  function StoredLength(n: nat): nat {
    n + (n + 32766) / 32767 * 5
  }

  lemma {:induction false} StoredTakes(data: seq<nat>)
    requires data != []
    ensures |StoredBlocks(data)| == StoredLength(|data|)
  {
    if |data| > STORED_MAX {
      StoredTakes(data[STORED_MAX..]);
      assert (|data| + 32766) / 32767 == (|data| - 32767 + 32766) / 32767 + 1;
    }
  }

  /** Appends one stored block. */
  method PushBlock(data: seq<nat>, j: nat, blocklen: nat, out0: seq<nat>) returns (out: seq<nat>)
    requires j + blocklen <= |data| && blocklen <= STORED_MAX && IsBytes(data) && IsBytes(out0)
    ensures out == out0 + StoredBlock(data[j..j + blocklen], if |data| - j == blocklen then 1 else 0) && IsBytes(out)
  {
    var head := [if |data| - j == blocklen then 1 else 0, blocklen % 256, blocklen / 256,
                 (65535 - blocklen) % 256, (65535 - blocklen) / 256];
    out := out0 + head + data[j..j + blocklen];
    Assoc(out0, head, data[j..j + blocklen]);
  }

  /** Appends the data in stored blocks. */
  method Store(data: seq<nat>, out0: seq<nat>) returns (out: seq<nat>)
    requires data != [] && IsBytes(data) && IsBytes(out0)
    ensures out == out0 + StoredBlocks(data) && IsBytes(out)
    ensures |out| == |out0| + StoredLength(|data|)
  {
    out := out0;
    var j := 0;
    StoredTakes(data);
    while j < |data|
      invariant 0 <= j <= |data| && IsBytes(out)
      invariant out + StoredRest(data, j) == out0 + StoredBlocks(data)
    {
      var blocklen := |data| - j;
      if blocklen > 32767 {
        blocklen := 32767;
      }
      StoredStep(data, j, blocklen, out);
      out := PushBlock(data, j, blocklen, out);
      j := j + blocklen;
    }
    NoneAfter(out);
  }

  /** The stored blocks of the data from j on, none at its end. */
  ghost function StoredRest(data: seq<nat>, j: nat): seq<nat>
    requires j <= |data|
  {
    if j == |data| then [] else StoredBlocks(data[j..])
  }

  lemma {:induction false} StoredStep(data: seq<nat>, j: nat, n: nat, out: seq<nat>)
    requires j < |data| && n == if |data| - j <= STORED_MAX then |data| - j else STORED_MAX
    ensures (out + StoredBlock(data[j..j + n], if |data| - j == n then 1 else 0)) + StoredRest(data, j + n)
         == out + StoredRest(data, j)
  {
    var block := StoredBlock(data[j..j + n], if |data| - j == n then 1 else 0);
    assert data[j..][..n] == data[j..j + n] && data[j..][n..] == data[j + n..];
    if |data| - j <= STORED_MAX {
      assert data[j..] == data[j..j + n];
      NoneAfter(block);
    }
    Assoc(out, block, StoredRest(data, j + n));
  }

  /** A coded block and the checksum behind it describe the tokens. */
  lemma {:induction false} FixedDescribes(bytes: seq<nat>, tokens: seq<Token>, pad: seq<bool>, trailer: seq<nat>)
    requires AreTokens(tokens) && |trailer| == 4
    requires BitsOf(bytes) == (((Lsb(1, 1) + Lsb(1, 2)) + TokensBits(tokens)) + LitWord(256)) + pad
    ensures Describes(Fixed(tokens), bytes + trailer, pad, trailer)
  {
    var a, b, c, d := Lsb(1, 1), Lsb(1, 2), TokensBits(tokens), LitWord(256);
    BitsOfConcat(bytes, trailer);
    Assoc(((a + b) + c) + d, pad, BitsOf(trailer));
    Assoc((a + b) + c, d, pad + BitsOf(trailer));
    Assoc(a + b, c, d + (pad + BitsOf(trailer)));
    Assoc(a, b, c + (d + (pad + BitsOf(trailer))));
  }

  /** The two header bytes, the body, and the checksum. */
  ghost predicate IsStream(out: seq<nat>, body: Body, pad: seq<bool>, trailer: seq<nat>) {
    IsBytes(out) && |out| >= 2 && out[..2] == [0x78, 0x5e] && Describes(body, out[2..], pad, trailer)
  }

  lemma {:induction false} StreamIs(head: seq<nat>, bytes: seq<nat>, out: seq<nat>, body: Body, pad: seq<bool>, trailer: seq<nat>)
    requires head == [0x78, 0x5e] && out == (head + bytes) + trailer && IsBytes(out)
    requires Describes(body, bytes + trailer, pad, trailer)
    ensures IsStream(out, body, pad, trailer)
  {
    assert out == head + (bytes + trailer);
    assert out[..2] == head && out[2..] == bytes + trailer;
  }

  /** Compresses data into a zlib stream, a body that stands for the data and its checksum,
      which is never longer than with the data stored. */
  method Compress(data: seq<nat>, quality: int)
    returns (out: seq<nat>, ghost body: Body, ghost pad: seq<bool>)
    requires data != [] && IsBytes(data)
    ensures IsStream(out, body, pad, AdlerBytes(data)) && Contents(body) == data
    ensures |out| <= 2 + StoredLength(|data|) + 4
  {
    ghost var bytes;
    out, body, pad, bytes := Code(data, quality);
    if |out| > 2 + StoredLength(|data|) {
      out := Store(data, out[..2]);
      body, bytes := Stored(data), StoredBlocks(data);
    }
    var trailer := ComputeAdler(data);
    if body.Fixed? { FixedDescribes(bytes, body.tokens, pad, trailer); }
    ghost var front := out;
    out := out + trailer;
    StreamIs([0x78, 0x5e], bytes, out, body, pad, trailer);
  }

  /** The header bytes and the block under the fixed code. */
  method Code(data: seq<nat>, quality: int)
    returns (out: seq<nat>, ghost body: Body, ghost pad: seq<bool>, ghost bytes: seq<nat>)
    requires IsBytes(data)
    ensures body.Fixed? && AreTokens(body.tokens) && Contents(body) == data
    ensures IsBytes(out) && out == [0x78, 0x5e] + bytes && out[..2] == [0x78, 0x5e]
    ensures BitsOf(bytes) == (((Lsb(1, 1) + Lsb(1, 2)) + TokensBits(body.tokens)) + LitWord(256)) + pad
  {
    var w := new BitWriter([0x78, 0x5e]);
    ghost var tokens;
    tokens, pad := CompressFixed(data, quality, w);
    out := w.out;
    body := Fixed(tokens);
    bytes := out[2..];
    NoneAfter(BitsOf(bytes));
  }
}
