/** The DEFLATE format of RFC 1951 as far as the compressor writes it: literals and
    back-references, the fixed Huffman code of section 3.2.6, and stored blocks. */
module ZFormat {
  import opened Bits
  import opened LsbBits
  import opened Canonical
  import opened ZHuffman

  // ---------- tokens ----------

  datatype Token = Literal(byte: nat) | Match(len: nat, dist: nat)

  /** One more byte, the one dist back. */
  function CopyByte(out: seq<nat>, dist: nat): seq<nat> {
    if 1 <= dist <= |out| then out + [out[|out| - dist]] else out
  }

  /** A back-reference copies byte by byte, so it may reach into its own output. */
  function Copy(out: seq<nat>, dist: nat, len: nat): seq<nat>
    decreases len
  {
    if len == 0 then out else Copy(CopyByte(out, dist), dist, len - 1)
  }

  function Apply(out: seq<nat>, t: Token): seq<nat> {
    match t
    case Literal(b) => out + [b]
    case Match(len, dist) => Copy(out, dist, len)
  }

  /** The bytes that tokens stand for. */
  function Expand(tokens: seq<Token>): seq<nat> {
    if tokens == [] then [] else Apply(Expand(tokens[..|tokens| - 1]), tokens[|tokens| - 1])
  }

  /** A token that may follow have bytes of output. */
  predicate IsToken(t: Token, have: nat) {
    match t
    case Literal(b) => b < 256
    case Match(len, dist) => 3 <= len <= 258 && 1 <= dist <= 32767 && dist <= have
  }

  predicate AreTokens(tokens: seq<Token>) {
    forall k :: 0 <= k < |tokens| ==> IsToken(tokens[k], |Expand(tokens[..k])|)
  }

  lemma {:induction false} ExpandNext(tokens: seq<Token>, t: Token)
    ensures Expand(tokens + [t]) == Apply(Expand(tokens), t)
    ensures AreTokens(tokens) && IsToken(t, |Expand(tokens)|) ==> AreTokens(tokens + [t])
  {
    assert (tokens + [t])[..|tokens|] == tokens;
    forall k | 0 <= k < |tokens| ensures (tokens + [t])[..k] == tokens[..k] {
    }
  }

  /** Copying from d back reproduces data that repeats at distance d. */
  lemma {:induction false} CopyRepeats(data: seq<nat>, i: nat, d: nat, len: nat)
    requires 1 <= d <= i && i + len <= |data|
    requires forall k :: i <= k < i + len ==> data[k - d] == data[k]
    ensures Copy(data[..i], d, len) == data[..i + len]
    decreases len
  {
    if len > 0 {
      assert data[i - d] == data[i];
      assert CopyByte(data[..i], d) == data[..i + 1];
      CopyRepeats(data, i + 1, d, len - 1);
    }
  }

  // ---------- length and distance codes ----------

  const LENGTH_BASE: seq<nat> :=
    [3, 4, 5, 6, 7, 8, 9, 10, 11, 13, 15, 17, 19, 23, 27, 31, 35, 43, 51, 59, 67, 83, 99, 115, 131, 163, 195, 227, 258, 259]

  const LENGTH_EXTRA: seq<nat> :=
    [0, 0, 0, 0, 0, 0, 0, 0, 1, 1, 1, 1, 2, 2, 2, 2, 3, 3, 3, 3, 4, 4, 4, 4, 5, 5, 5, 5, 0]

  const DIST_BASE: seq<nat> :=
    [1, 2, 3, 4, 5, 7, 9, 13, 17, 25, 33, 49, 65, 97, 129, 193, 257, 385, 513, 769, 1025, 1537, 2049, 3073, 4097, 6145,
     8193, 12289, 16385, 24577, 32768]

  const DIST_EXTRA: seq<nat> :=
    [0, 0, 0, 0, 1, 1, 2, 2, 3, 3, 4, 4, 5, 5, 6, 6, 7, 7, 8, 8, 9, 9, 10, 10, 11, 11, 12, 12, 13, 13]

  /** The first interval from j on whose end is beyond x. */
  function FindCode(base: seq<nat>, x: nat, j: nat): (k: nat)
    requires j + 1 < |base|
    ensures j <= k && k + 1 < |base|
    decreases |base| - j
  {
    if j + 2 == |base| || x < base[j + 1] then j else FindCode(base, x, j + 1)
  }

  lemma {:induction false} FindCodeIs(base: seq<nat>, x: nat, j: nat)
    requires j + 1 < |base| && base[j] <= x < base[|base| - 1]
    ensures base[FindCode(base, x, j)] <= x < base[FindCode(base, x, j) + 1]
    decreases |base| - j
  {
    if j + 2 < |base| && x >= base[j + 1] { FindCodeIs(base, x, j + 1); }
  }

  function LengthCode(len: nat): nat {
    FindCode(LENGTH_BASE, len, 0)
  }

  function DistCode(dist: nat): nat {
    FindCode(DIST_BASE, dist, 0)
  }

  lemma LengthWidths(j: nat)
    requires j < 29
    ensures LENGTH_BASE[j + 1] - LENGTH_BASE[j] <= Pow2(LENGTH_EXTRA[j]) && LENGTH_EXTRA[j] <= 5
  {
    Pow2Values();
  }

  lemma DistWidths(j: nat)
    requires j < 30
    ensures DIST_BASE[j + 1] - DIST_BASE[j] <= Pow2(DIST_EXTRA[j]) && DIST_EXTRA[j] <= 13
  {
    Pow2Values();
  }

  lemma {:induction false} LengthFits(len: nat)
    requires 3 <= len <= 258
    ensures var j := LengthCode(len);
      j < 29 && LENGTH_BASE[j] <= len < LENGTH_BASE[j + 1] && len - LENGTH_BASE[j] < Pow2(LENGTH_EXTRA[j]) && LENGTH_EXTRA[j] <= 5
  {
    FindCodeIs(LENGTH_BASE, len, 0);
    LengthWidths(LengthCode(len));
  }

  lemma {:induction false} DistFits(dist: nat)
    requires 1 <= dist <= 32767
    ensures var j := DistCode(dist);
      j < 30 && DIST_BASE[j] <= dist < DIST_BASE[j + 1] && dist - DIST_BASE[j] < Pow2(DIST_EXTRA[j]) && DIST_EXTRA[j] <= 13
  {
    FindCodeIs(DIST_BASE, dist, 0);
    DistWidths(DistCode(dist));
  }

  lemma {:induction false} CodesInRange(len: nat, dist: nat)
    requires 3 <= len <= 258 && 1 <= dist <= 32767
    ensures LengthCode(len) < 29 && DistCode(dist) < 30
  {
    LengthFits(len);
    DistFits(dist);
  }

  // ---------- the fixed code ----------

  function FixedLength(n: nat): nat {
    if n <= 143 then 8 else if n <= 255 then 9 else if n <= 279 then 7 else 8
  }

  function FixedCode(n: nat): nat {
    if n <= 143 then 0x30 + n else if n <= 255 then 0x190 + n - 144 else if n <= 279 then n - 256 else 0xC0 + n - 280
  }

  /** The fixed code word of a literal or length symbol. */
  function LitWord(n: nat): seq<bool> {
    Msb(FixedCode(n), FixedLength(n))
  }

  /** Every distance code has five bits. */
  function DistLength(j: nat): nat {
    5
  }

  function DistWord(j: nat): seq<bool> {
    Msb(j, DistLength(j))
  }

  function LengthBits(len: nat): seq<bool>
    requires 3 <= len <= 258
  {
    LengthFits(len);
    Lsb(len - LENGTH_BASE[LengthCode(len)], LENGTH_EXTRA[LengthCode(len)])
  }

  function DistBits(dist: nat): seq<bool>
    requires 1 <= dist <= 32767
  {
    DistFits(dist);
    Lsb(dist - DIST_BASE[DistCode(dist)], DIST_EXTRA[DistCode(dist)])
  }

  function MatchBits(len: nat, dist: nat): seq<bool>
    requires 3 <= len <= 258 && 1 <= dist <= 32767
  {
    LitWord(257 + LengthCode(len)) + (LengthBits(len) + (DistWord(DistCode(dist)) + DistBits(dist)))
  }

  function TokenBits(t: Token): seq<bool> {
    match t
    case Literal(b) => LitWord(b)
    case Match(len, dist) => if 3 <= len <= 258 && 1 <= dist <= 32767 then MatchBits(len, dist) else []
  }

  function TokensBits(tokens: seq<Token>): seq<bool> {
    if tokens == [] then [] else TokenBits(tokens[0]) + TokensBits(tokens[1..])
  }

  lemma {:induction false} TokensBitsNext(tokens: seq<Token>, t: Token)
    ensures TokensBits(tokens + [t]) == TokensBits(tokens) + TokenBits(t)
  {
    if tokens == [] {
      assert [] + [t] == [t];
      NoneAfter(TokenBits(t));
      NoneBefore(TokenBits(t));
    } else {
      TokensBitsNext(tokens[1..], t);
      assert (tokens + [t])[1..] == tokens[1..] + [t] && (tokens + [t])[0] == tokens[0];
      Assoc(TokenBits(tokens[0]), TokensBits(tokens[1..]), TokenBits(t));
    }
  }

  function FixedLengths(): (sizes: seq<nat>)
    ensures |sizes| == 288 && forall n :: 0 <= n < 288 ==> sizes[n] == FixedLength(n)
  {
    seq(288, (n: nat) => FixedLength(n))
  }

  function FixedDistances(): (sizes: seq<nat>)
    ensures |sizes| == 32 && forall n :: 0 <= n < 32 ==> sizes[n] == 5
  {
    seq(32, (n: nat) => 5)
  }

  function Clamp(x: int, n: nat): nat {
    if x < 0 then 0 else if x > n then n else x
  }

  /** How many of the first i symbols of the fixed code have length s. */
  function FixedCount(i: nat, s: nat): nat {
    if s == 7 then Clamp(i - 256, 24)
    else if s == 8 then Clamp(i, 144) + Clamp(i - 280, 8)
    else if s == 9 then Clamp(i - 144, 112)
    else 0
  }

  lemma {:induction false} FixedCounts(i: nat, s: nat)
    requires i <= 288
    ensures CountOf(FixedLengths(), i, s) == FixedCount(i, s)
  {
    if i > 0 { FixedCounts(i - 1, s); }
  }

  lemma {:induction false} DistanceCounts(i: nat, s: nat)
    requires i <= 32
    ensures CountOf(FixedDistances(), i, s) == if s == 5 then i else 0
  {
    if i > 0 { DistanceCounts(i - 1, s); }
  }

  lemma {:induction false} NoShortCodes(c: seq<nat>, n: nat)
    requires n <= |c| && forall k :: 0 <= k < n ==> c[k] == 0
    ensures Total(c, n) == 0 && CodeAfter(c, n) == 0
  {
    if n > 0 { NoShortCodes(c, n - 1); }
  }

  /** How many codes of each length there are, and the totals and bounds up to it. */
  lemma {:induction false} FixedTotals()
    ensures var c := Counts(FixedLengths());
      && c[6] == 24 && c[7] == 152 && c[8] == 112 && forall k :: 0 <= k < 16 && k != 6 && k != 7 && k != 8 ==> c[k] == 0
    ensures var c := Counts(FixedLengths());
      && Total(c, 6) == 0 && Total(c, 7) == 24 && Total(c, 8) == 176
      && CodeAfter(c, 6) == 0 && CodeAfter(c, 7) == 24 && CodeAfter(c, 8) == 200 && CodeAfter(c, 9) == 512
  {
    var c := Counts(FixedLengths());
    forall k | 0 <= k < 16 ensures c[k] == FixedCount(288, k + 1) { FixedCounts(288, k + 1); }
    NoShortCodes(c, 6);
  }

  lemma {:induction false} DistanceTotals()
    ensures var c := Counts(FixedDistances());
      && c[4] == 32 && forall k :: 0 <= k < 16 && k != 4 ==> c[k] == 0
    ensures var c := Counts(FixedDistances());
      && Total(c, 4) == 0 && CodeAfter(c, 4) == 0 && CodeAfter(c, 5) == 32
  {
    var c := Counts(FixedDistances());
    forall k | 0 <= k < 16 ensures c[k] == if k == 4 then 32 else 0 { DistanceCounts(32, k + 1); }
    NoShortCodes(c, 4);
  }

  lemma {:induction false} FixedSymbolCode(n: nat)
    requires n < 288
    ensures IsSizes(FixedLengths()) && SymbolCode(FixedLengths(), n) == FixedCode(n)
  {
    RankRange(FixedLengths(), n);
    FixedCounts(n, FixedLength(n));
    FixedTotals();
  }

  /** The fixed code words are the canonical code of the fixed lengths. */
  lemma {:induction false} FixedWord(n: nat)
    requires n < 288
    ensures IsSizes(FixedLengths()) && SymbolWord(FixedLengths(), n) == LitWord(n)
  {
    FixedNotOverfull();
    CodeBound(FixedLengths(), n);
    FixedSymbolCode(n);
  }

  lemma {:induction false} DistanceCode(n: nat)
    requires n < 32
    ensures IsSizes(FixedDistances()) && SymbolCode(FixedDistances(), n) == n
  {
    RankRange(FixedDistances(), n);
    DistanceCounts(n, 5);
    DistanceTotals();
  }

  lemma {:induction false} DistanceWord(n: nat)
    requires n < 32
    ensures IsSizes(FixedDistances()) && SymbolWord(FixedDistances(), n) == DistWord(n)
  {
    FixedNotOverfull();
    CodeBound(FixedDistances(), n);
    DistanceCode(n);
  }

  /** Neither fixed code runs out of codes. */
  lemma {:induction false} FixedNotOverfull()
    ensures IsSizes(FixedLengths()) && NotOverfull(Counts(FixedLengths()))
    ensures IsSizes(FixedDistances()) && NotOverfull(Counts(FixedDistances()))
  {
    FixedTotals();
    DistanceTotals();
    Pow2Values();
  }

  // ---------- stored blocks ----------

  /** A stored block of at most 65535 bytes: its header byte, the length, the length's
      complement, and the bytes. */
  function StoredBlock(chunk: seq<nat>, final: nat): seq<nat>
    requires |chunk| <= 65535
  {
    var len := |chunk|;
    [final, len % 256, len / 256, (65535 - len) % 256, (65535 - len) / 256] + chunk
  }

  const STORED_MAX: nat := 32767

  /** Data in stored blocks of at most STORED_MAX bytes, the last one marked final. */
  function StoredBlocks(data: seq<nat>): seq<nat> {
    if |data| <= STORED_MAX then StoredBlock(data, 1)
    else StoredBlock(data[..STORED_MAX], 0) + StoredBlocks(data[STORED_MAX..])
  }

  // ---------- streams ----------

  /** What follows the two header bytes of a stream: one block under the fixed code, or
      stored blocks; then the four bytes of the checksum. */
  datatype Body = Fixed(tokens: seq<Token>) | Stored(data: seq<nat>)

  function Contents(body: Body): seq<nat> {
    match body
    case Fixed(tokens) => Expand(tokens)
    case Stored(data) => data
  }

  ghost predicate Describes(body: Body, bytes: seq<nat>, pad: seq<bool>, trailer: seq<nat>) {
    && |trailer| == 4
    && match body
       case Fixed(tokens) =>
         AreTokens(tokens) && BitsOf(bytes) == FixedBits(tokens, pad + BitsOf(trailer))
       case Stored(data) =>
         data != [] && bytes == StoredBlocks(data) + trailer
  }

  /** A final block under the fixed code, and what follows it. */
  function FixedBits(tokens: seq<Token>, rest: seq<bool>): seq<bool> {
    Lsb(1, 1) + (Lsb(1, 2) + (TokensBits(tokens) + (LitWord(256) + rest)))
  }
}
