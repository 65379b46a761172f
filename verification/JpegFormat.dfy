/** The entropy-coded segment as ITU-T T.81 defines it: byte stuffing, magnitude bits
    (F.1.2.1), and the run-length coding of one block (F.1.2), over any canonical code. */
module JpegFormat {
  import opened Bits

  // ---------- bytes ----------

  /** A zero byte follows every data byte 0xFF. */
  function StuffByte(b: int): seq<int> {
    if b == 255 then [255, 0] else [b]
  }

  function Stuff(bytes: seq<int>): seq<int> {
    if bytes == [] then [] else StuffByte(bytes[0]) + Stuff(bytes[1..])
  }

  lemma {:induction false} StuffConcat(a: seq<int>, b: seq<int>)
    ensures Stuff(a + b) == Stuff(a) + Stuff(b)
  {
    if a == [] {
      assert a + b == b;
    } else {
      StuffConcat(a[1..], b);
      var rest := a[1..];
      assert a + b == [a[0]] + (rest + b);
      assert (a + b)[1..] == rest + b;
      Assoc(StuffByte(a[0]), Stuff(rest), Stuff(b));
    }
  }

  /** The rest of a marker after its first 0xFF: fill bytes, then a marker code. */
  predicate MarkerCode(t: seq<int>) {
    t != [] && if t[0] == 255 then MarkerCode(t[1..]) else t[0] != 0
  }

  predicate Marker(t: seq<int>) {
    t != [] && t[0] == 255 && MarkerCode(t[1..])
  }

  function ByteBits(bytes: seq<nat>): seq<bool> {
    if bytes == [] then [] else Msb(bytes[0], 8) + ByteBits(bytes[1..])
  }

  lemma {:induction false} ByteBitsConcat(a: seq<nat>, b: seq<nat>)
    ensures ByteBits(a + b) == ByteBits(a) + ByteBits(b)
  {
    if a == [] {
      assert a + b == b;
    } else {
      ByteBitsConcat(a[1..], b);
      assert (a + b)[1..] == a[1..] + b;
    }
  }

  // ---------- magnitudes ----------

  function Abs(v: int): nat {
    if v < 0 then -v else v
  }

  /** The number of significant bits of t. */
  function BitLen(t: nat): nat {
    if t == 0 then 0 else BitLen(t / 2) + 1
  }

  lemma {:induction false} BitLenBound(t: nat)
    ensures t < Pow2(BitLen(t))
    ensures t > 0 ==> BitLen(t) > 0 && Pow2(BitLen(t) - 1) <= t
  {
    if t != 0 {
      BitLenBound(t / 2);
    }
  }

  lemma {:induction false} BitLenAtMost(t: nat, n: nat)
    requires t < Pow2(n)
    ensures BitLen(t) <= n
  {
    BitLenBound(t);
    if BitLen(t) > n { Pow2Mono(n, BitLen(t) - 1); }
  }

  /** The number whose BitLen(Abs(v)) low bits are sent for v. */
  function Magnitude(v: int): int {
    if v < 0 then v - 1 + Pow2(BitLen(Abs(v))) else v
  }

  lemma {:induction false} MagnitudeFits(v: int)
    ensures 0 <= Magnitude(v) < Pow2(BitLen(Abs(v)))
  {
    BitLenBound(Abs(v));
    if v < 0 { Pow2Mono(BitLen(Abs(v)) - 1, BitLen(Abs(v))); }
  }

  function MagnitudeBits(v: int): seq<bool> {
    MagnitudeFits(v);
    Msb(Magnitude(v), BitLen(Abs(v)))
  }

  /** The EXTEND procedure of F.2.2.1. */
  function Extend(m: int, n: nat): int {
    if n == 0 then m else if m < Pow2(n - 1) then m - Pow2(n) + 1 else m
  }

  lemma {:induction false} ExtendMagnitude(v: int)
    ensures Extend(Value(MagnitudeBits(v)), BitLen(Abs(v))) == v
  {
    MagnitudeFits(v);
    ValueMsb(Magnitude(v), BitLen(Abs(v)));
    BitLenBound(Abs(v));
  }

  // ---------- one block ----------

  /** A code word for every symbol; empty for the symbols without a code. */
  type Book = seq<seq<bool>>

  function WordOf(book: Book, sym: int): seq<bool> {
    if 0 <= sym < |book| then book[sym] else []
  }

  /** Every symbol of a difference of at most 11 bits has a code. */
  predicate CoversDc(book: Book) {
    forall s :: 0 <= s <= 11 ==> WordOf(book, s) != []
  }

  predicate CoversRun(book: Book, run: int, size: int) {
    WordOf(book, 16 * run + size) != []
  }

  /** End of block, sixteen zeros, and every run and size of an AC value of at most 10 bits
      have a code. */
  predicate CoversAc(book: Book) {
    && WordOf(book, 0x00) != [] && WordOf(book, 0xF0) != []
    && forall run, s :: 0 <= run <= 15 && 1 <= s <= 10 ==> CoversRun(book, run, s)
  }

  predicate AcRange(q: seq<int>) {
    |q| == 64 && forall i :: 1 <= i < 64 ==> -1023 <= q[i] <= 1023
  }

  /** The first non-zero coefficient at or after i; 64 if there is none. */
  function NextNonzero(q: seq<int>, i: nat): (j: nat)
    requires |q| == 64 && i <= 64
    ensures i <= j <= 64
    decreases 64 - i
  {
    if i == 64 || q[i] != 0 then i else NextNonzero(q, i + 1)
  }

  lemma {:induction false} NextFound(q: seq<int>, i: nat)
    requires |q| == 64 && i <= 64
    ensures forall m :: i <= m < NextNonzero(q, i) ==> q[m] == 0
    ensures NextNonzero(q, i) < 64 ==> q[NextNonzero(q, i)] != 0
    decreases 64 - i
  {
    if i < 64 && q[i] == 0 { NextFound(q, i + 1); }
  }

  lemma {:induction false} AcSize(v: int)
    requires -1023 <= v <= 1023
    ensures BitLen(Abs(v)) <= 10 && (v != 0 ==> 1 <= BitLen(Abs(v)))
  {
    BitLenBound(Abs(v));
    assert Pow2(10) == 1024;
    BitLenAtMost(Abs(v), 10);
  }

  /** One step of the AC code: an end of block, sixteen zeros, or at most fifteen zeros and
      the value that ends them. */
  datatype AcItem = EndOfBlock | SixteenZeros | RunValue(run: int, value: int)

  /** What the AC code of q has at position k, and the position it leads to. */
  function ItemAt(q: seq<int>, k: nat): AcItem
    requires |q| == 64 && k < 64
  {
    var j := NextNonzero(q, k);
    if j == 64 then EndOfBlock else if j - k >= 16 then SixteenZeros else RunValue(j - k, q[j])
  }

  function AfterItem(q: seq<int>, k: nat): (next: nat)
    requires |q| == 64 && k < 64
    ensures k < next <= 64
  {
    match ItemAt(q, k)
    case EndOfBlock => 64
    case SixteenZeros => k + 16
    case RunValue(run, _) => k + run + 1
  }

  /** The symbol of an item, and the magnitude bits behind it. */
  function ItemSymbol(item: AcItem): int {
    match item
    case EndOfBlock => 0x00
    case SixteenZeros => 0xF0
    case RunValue(run, value) => 16 * run + BitLen(Abs(value))
  }

  function ItemBits(item: AcItem): seq<bool> {
    if item.RunValue? then MagnitudeBits(item.value) else []
  }

  /** The code of the AC coefficients from position i on. */
  function AcBits(ac: Book, q: seq<int>, i: nat): seq<bool>
    requires |q| == 64 && 1 <= i <= 64
    decreases 64 - i
  {
    if i == 64 then []
    else
      var item := ItemAt(q, i);
      WordOf(ac, ItemSymbol(item)) + (ItemBits(item) + AcBits(ac, q, AfterItem(q, i)))
  }

  lemma {:induction false} AcUnfold(ac: Book, q: seq<int>, k: nat, next: nat, rest: seq<bool>)
    requires |q| == 64 && 1 <= k < 64 && next == AfterItem(q, k)
    ensures var item := ItemAt(q, k);
      AcBits(ac, q, k) + rest == WordOf(ac, ItemSymbol(item)) + (ItemBits(item) + (AcBits(ac, q, next) + rest))
  {
    var item := ItemAt(q, k);
    Assoc(ItemBits(item), AcBits(ac, q, next), rest);
    Assoc(WordOf(ac, ItemSymbol(item)), ItemBits(item) + AcBits(ac, q, next), rest);
  }

  /** An item whose run and size fit the symbol byte. */
  predicate IsItem(item: AcItem) {
    item.RunValue? ==> 0 <= item.run <= 15 && 1 <= BitLen(Abs(item.value)) <= 10
  }

  lemma {:induction false} ItemsFit(q: seq<int>, k: nat)
    requires AcRange(q) && 1 <= k < 64
    ensures IsItem(ItemAt(q, k))
  {
    NextFound(q, k);
    if ItemAt(q, k).RunValue? { AcSize(ItemAt(q, k).value); }
  }

  lemma {:induction false} ItemCoded(ac: Book, item: AcItem)
    requires CoversAc(ac) && IsItem(item)
    ensures WordOf(ac, ItemSymbol(item)) != []
  {
    if item.RunValue? { assert CoversRun(ac, item.run, BitLen(Abs(item.value))); }
  }

  lemma RunSize(run: int, size: int)
    requires 0 <= run < 16 && 0 <= size < 16
    ensures (16 * run + size) % 16 == size && (16 * run + size) / 16 == run && (16 * run + size) / 16 % 16 == run
  {
  }

  /** The symbol read back: the run and the size of a value, or one of the two without. */
  lemma {:induction false} SymbolKind(item: AcItem)
    requires IsItem(item)
    ensures var sym := ItemSymbol(item);
      match item
      case EndOfBlock => sym == 0x00 && sym % 16 == 0
      case SixteenZeros => sym == 0xF0 && sym % 16 == 0
      case RunValue(run, value) =>
        1 <= sym % 16 == BitLen(Abs(value)) == |MagnitudeBits(value)| <= 10 && sym / 16 == sym / 16 % 16 == run
  {
    if item.RunValue? { RunSize(item.run, BitLen(Abs(item.value))); }
  }

  predicate DcRange(diff: int) {
    -2047 <= diff <= 2047
  }

  lemma {:induction false} DcSize(diff: int)
    requires DcRange(diff)
    ensures BitLen(Abs(diff)) <= 11
  {
    assert Pow2(11) == 2048;
    BitLenAtMost(Abs(diff), 11);
  }

  function DcBits(dc: Book, diff: int): seq<bool>
  {
    WordOf(dc, BitLen(Abs(diff))) + MagnitudeBits(diff)
  }

  /** The code of a block of quantised coefficients in zigzag order, given the DC value of
      the component's previous block. */
  function BlockBits(dc: Book, ac: Book, q: seq<int>, pred: int): seq<bool>
    requires |q| == 64
  {
    DcBits(dc, q[0] - pred) + AcBits(ac, q, 1)
  }

  lemma {:induction false} BlockUnfold(dc: Book, ac: Book, q: seq<int>, pred: int, diff: int, rest: seq<bool>)
    requires |q| == 64 && diff == q[0] - pred
    ensures BlockBits(dc, ac, q, pred) + rest == DcBits(dc, diff) + (AcBits(ac, q, 1) + rest)
  {
    Assoc(DcBits(dc, diff), AcBits(ac, q, 1), rest);
  }

  // ---------- zigzag order ----------

  /** The zigzag position of the coefficient at row-major place i. */
  function Zigzag(i: nat): (z: nat)
    ensures z < 64
  {
    match i
    case 0 => 0 case 1 => 1 case 2 => 5 case 3 => 6 case 4 => 14 case 5 => 15 case 6 => 27 case 7 => 28
    case 8 => 2 case 9 => 4 case 10 => 7 case 11 => 13 case 12 => 16 case 13 => 26 case 14 => 29 case 15 => 42
    case 16 => 3 case 17 => 8 case 18 => 12 case 19 => 17 case 20 => 25 case 21 => 30 case 22 => 41 case 23 => 43
    case 24 => 9 case 25 => 11 case 26 => 18 case 27 => 24 case 28 => 31 case 29 => 40 case 30 => 44 case 31 => 53
    case 32 => 10 case 33 => 19 case 34 => 23 case 35 => 32 case 36 => 39 case 37 => 45 case 38 => 52 case 39 => 54
    case 40 => 20 case 41 => 22 case 42 => 33 case 43 => 38 case 44 => 46 case 45 => 51 case 46 => 55 case 47 => 60
    case 48 => 21 case 49 => 34 case 50 => 37 case 51 => 47 case 52 => 50 case 53 => 56 case 54 => 59 case 55 => 61
    case 56 => 35 case 57 => 36 case 58 => 48 case 59 => 49 case 60 => 57 case 61 => 58 case 62 => 62 case 63 => 63
    case _ => 63
  }

  /** How many places lie on the diagonals before diagonal d, which joins the places whose row
      and column add up to d. */
  function DiagonalStart(d: nat): int {
    if d == 0 then 0 else DiagonalStart(d - 1) + if d <= 8 then d else 16 - d
  }

  lemma DiagonalStarts()
    ensures forall d :: 0 <= d < 15 ==>
      DiagonalStart(d) == [0, 1, 3, 6, 10, 15, 21, 28, 36, 43, 49, 54, 58, 61, 63][d]
  {
    assert DiagonalStart(2) == 3;
    assert DiagonalStart(4) == 10;
    assert DiagonalStart(6) == 21;
    assert DiagonalStart(8) == 36;
    assert DiagonalStart(10) == 49;
    assert DiagonalStart(12) == 58;
    assert DiagonalStart(14) == 63;
  }

  /** Where the walk along the diagonals, the odd ones downwards and the even ones upwards, comes
      to a row and column. */
  function Walk(row: nat, column: nat): int {
    var d := row + column;
    var first := if d < 8 then 0 else d - 7;
    DiagonalStart(d) + if d % 2 == 1 then row - first else column - first
  }

  lemma ZigzagWalksFirst(row: nat, column: nat)
    requires 0 <= row < 2 && column < 8
    ensures Zigzag(8 * row + column) == Walk(row, column)
  {
    DiagonalStarts();
  }

  lemma ZigzagWalksSecond(row: nat, column: nat)
    requires 2 <= row < 4 && column < 8
    ensures Zigzag(8 * row + column) == Walk(row, column)
  {
    DiagonalStarts();
  }

  lemma ZigzagWalksThird(row: nat, column: nat)
    requires 4 <= row < 6 && column < 8
    ensures Zigzag(8 * row + column) == Walk(row, column)
  {
    DiagonalStarts();
  }

  lemma ZigzagWalksLast(row: nat, column: nat)
    requires 6 <= row < 8 && column < 8
    ensures Zigzag(8 * row + column) == Walk(row, column)
  {
    DiagonalStarts();
  }

  /** The table is the zigzag of figure A.6 of T.81. */
  lemma {:induction false} ZigzagWalks(row: nat, column: nat)
    requires row < 8 && column < 8
    ensures Zigzag(8 * row + column) == Walk(row, column)
  {
    if row < 2 { ZigzagWalksFirst(row, column); }
    else if row < 4 { ZigzagWalksSecond(row, column); }
    else if row < 6 { ZigzagWalksThird(row, column); }
    else { ZigzagWalksLast(row, column); }
  }

  /** The row-major place of zigzag position i; past the end, corrupt input lands on the last. */
  function Dezigzag(i: nat): (z: nat)
    ensures z < 64
  {
    match i
    case 0 => 0 case 1 => 1 case 2 => 8 case 3 => 16 case 4 => 9 case 5 => 2 case 6 => 3 case 7 => 10
    case 8 => 17 case 9 => 24 case 10 => 32 case 11 => 25 case 12 => 18 case 13 => 11 case 14 => 4 case 15 => 5
    case 16 => 12 case 17 => 19 case 18 => 26 case 19 => 33 case 20 => 40 case 21 => 48 case 22 => 41 case 23 => 34
    case 24 => 27 case 25 => 20 case 26 => 13 case 27 => 6 case 28 => 7 case 29 => 14 case 30 => 21 case 31 => 28
    case 32 => 35 case 33 => 42 case 34 => 49 case 35 => 56 case 36 => 57 case 37 => 50 case 38 => 43 case 39 => 36
    case 40 => 29 case 41 => 22 case 42 => 15 case 43 => 23 case 44 => 30 case 45 => 37 case 46 => 44 case 47 => 51
    case 48 => 58 case 49 => 59 case 50 => 52 case 51 => 45 case 52 => 38 case 53 => 31 case 54 => 39 case 55 => 46
    case 56 => 53 case 57 => 60 case 58 => 61 case 59 => 54 case 60 => 47 case 61 => 55 case 62 => 62 case 63 => 63
    case _ => 63
  }

  lemma ZigzagOfDezigzag(m: nat)
    requires m < 64
    ensures Zigzag(Dezigzag(m)) == m
  {
  }

  lemma DezigzagOfZigzagLow(m: nat)
    requires m < 32
    ensures Dezigzag(Zigzag(m)) == m
  {
  }

  lemma DezigzagOfZigzagHigh(m: nat)
    requires 32 <= m < 64
    ensures Dezigzag(Zigzag(m)) == m
  {
  }

  /** A scan order: position 0 first, and every position in a place of its own. */
  ghost predicate ScanOrder(order: seq<nat>) {
    && |order| >= 64 && order[0] == 0
    && (forall i :: 0 <= i < |order| ==> order[i] < 64)
    && (forall i, j :: 0 <= i < j < 64 ==> order[i] != order[j])
  }

  /** The decoder's order, as a table of 64 + 15 entries. */
  function DezigzagTable(): (order: seq<nat>)
    ensures |order| == 79 && forall i :: 0 <= i < 79 ==> order[i] == Dezigzag(i)
  {
    seq(79, (i: nat) => Dezigzag(i))
  }

  lemma {:induction false} DezigzagIsOrder()
    ensures ScanOrder(DezigzagTable())
  {
    var order := DezigzagTable();
    assert Dezigzag(0) == 0;
    forall i, j | 0 <= i < j < 64 ensures order[i] != order[j] {
      ZigzagOfDezigzag(i);
      ZigzagOfDezigzag(j);
    }
  }
}
