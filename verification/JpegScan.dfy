/** Whole scans: the blocks of an image coded one after the other with a DC prediction for
    each component, and the round trip from quantised blocks through the encoder's bytes and
    the decoder back to the blocks. */
module JpegScan {
  import opened Bits
  import opened JpegHuffman
  import opened JpegFormat
  import opened JpegEncoder
  import opened JpegDecoder
  import opened JpegCoding

  /** A block to be coded: its component and its quantised coefficients in row-major order. */
  datatype Unit = Unit(component: nat, du: seq<int>)

  /** The encoder's tables for a component, and what is written to the file for them. */
  datatype Tables = Tables(htdc: seq<Code>, htac: seq<Code>, dc: Coding, ac: Coding)

  ghost predicate TablesOk(t: Tables) {
    && |t.htdc| == 12 && |t.htac| == 256
    && GoodTable(t.dc.count, t.dc.values, t.htdc) && t.dc.book == BookOf(t.htdc) && CoversDc(t.dc.book)
    && GoodTable(t.ac.count, t.ac.values, t.htac) && t.ac.book == BookOf(t.htac) && CoversAc(t.ac.book)
  }

  // ---------- zigzag ----------

  /** order lists the row-major places in zigzag order, place the zigzag positions. */
  ghost predicate Inverse(order: seq<nat>, place: seq<nat>) {
    && ScanOrder(order) && |place| == 64
    && forall i :: 0 <= i < 64 ==> place[i] < 64 && order[place[i]] == i
  }

  function ToZigzag(du: seq<int>, order: seq<nat>): (q: seq<int>)
    requires |du| == 64 && ScanOrder(order)
    ensures |q| == 64 && forall m :: 0 <= m < 64 ==> q[m] == du[order[m]]
  {
    seq(64, m requires 0 <= m < 64 => du[order[m]])
  }

  function ZigzagTable(): (place: seq<nat>)
    ensures |place| == 64 && forall i :: 0 <= i < 64 ==> place[i] == Zigzag(i)
  {
    seq(64, (i: nat) => Zigzag(i))
  }

  lemma {:induction false} OwnOrders()
    ensures Inverse(DezigzagTable(), ZigzagTable())
  {
    DezigzagIsOrder();
    forall i | 0 <= i < 64 ensures DezigzagTable()[ZigzagTable()[i]] == i {
      if i < 32 { DezigzagOfZigzagLow(i); } else { DezigzagOfZigzagHigh(i); }
    }
  }

  lemma {:induction false} PlaceOfOrder(order: seq<nat>, place: seq<nat>, m: nat)
    requires Inverse(order, place) && m < 64
    ensures place[order[m]] == m
  {
    var p := place[order[m]];
    assert order[p] == order[m];
  }

  lemma PlacesDiffer(order: seq<nat>, place: seq<nat>, i: nat)
    requires Inverse(order, place) && i < 64
    ensures forall m :: 0 <= m < i ==> place[m] != place[i]
  {
    forall m | 0 <= m < i ensures place[m] != place[i] {
      assert order[place[m]] == m;
    }
  }

  /** The last loop of the quantisation: coefficients go to their zigzag positions, and the
      last position with a nonzero one is kept. */
  method Scatter(du: seq<int>, place: seq<nat>, ghost order: seq<nat>) returns (duq: seq<int>, end0pos: nat)
    requires |du| == 64 && Inverse(order, place)
    ensures duq == ToZigzag(du, order) && IsLast(duq, end0pos)
  {
    var out := new int[64];
    end0pos := 0;
    var i := 0;
    while i < 64
      invariant 0 <= i <= 64 && end0pos < 64
      invariant forall m :: 0 <= m < i ==> out[place[m]] == du[m]
      invariant end0pos > 0 ==> order[end0pos] < i && du[order[end0pos]] != 0
      invariant forall m :: 0 <= m < i && place[m] > end0pos ==> du[m] == 0
    {
      PlacesDiffer(order, place, i);
      out[place[i]] := du[i];
      if place[i] > end0pos && out[place[i]] != 0 {
        end0pos := place[i];
      }
      i := i + 1;
    }
    duq := out[..];
    forall m: nat | m < 64 ensures duq[m] == du[order[m]] {
      PlaceOfOrder(order, place, m);
    }
    forall m: nat | end0pos < m < 64 ensures duq[m] == 0 {
      PlaceOfOrder(order, place, m);
    }
  }

  // ---------- the code of a scan ----------

  /** The values that the encoder codes: AC values of at most 10 bits. */
  predicate UnitOk(u: Unit) {
    u.component < 3 && |u.du| == 64 && IsInt(u.du[0]) && forall i :: 1 <= i < 64 ==> -1023 <= u.du[i] <= 1023
  }

  /** Blocks that the encoder can code, given the DC predictions of the three components:
      every DC difference has at most 11 bits. */
  predicate Codable(units: seq<Unit>, preds: seq<int>) {
    && |preds| == 3 && (forall c :: 0 <= c < 3 ==> IsInt(preds[c]))
    && (units != [] ==>
          var u := units[0];
          && UnitOk(u) && DcRange(u.du[0] - preds[u.component])
          && Codable(units[1..], preds[u.component := u.du[0]]))
  }

  lemma {:induction false} CodableEach(units: seq<Unit>, preds: seq<int>, n: nat)
    requires Codable(units, preds) && n < |units|
    ensures UnitOk(units[n])
  {
    if n > 0 { CodableEach(units[1..], preds[units[0].component := units[0].du[0]], n - 1); }
  }

  lemma {:induction false} ZigzagRange(u: Unit, order: seq<nat>)
    requires UnitOk(u) && ScanOrder(order)
    ensures AcRange(ToZigzag(u.du, order)) && ToZigzag(u.du, order)[0] == u.du[0]
  {
  }

  ghost function UnitBits(u: Unit, pred: int, tables: seq<Tables>, order: seq<nat>): seq<bool>
    requires ScanOrder(order) && UnitOk(u) && |tables| == 3
  {
    BlockBits(tables[u.component].dc.book, tables[u.component].ac.book, ToZigzag(u.du, order), pred)
  }

  /** The code of the blocks, given the DC predictions of the three components. */
  ghost function ScanBits(units: seq<Unit>, preds: seq<int>, tables: seq<Tables>, order: seq<nat>): seq<bool>
    requires ScanOrder(order) && Codable(units, preds) && |tables| == 3
  {
    if units == [] then []
    else
      var u := units[0];
      UnitBits(u, preds[u.component], tables, order)
      + ScanBits(units[1..], preds[u.component := u.du[0]], tables, order)
  }

  // ---------- encoding ----------

  ghost predicate AllTablesOk(tables: seq<Tables>) {
    |tables| == 3 && forall c :: 0 <= c < 3 ==> TablesOk(tables[c])
  }

  /** Codes the blocks into buf behind the headers, which end at from. When the overflow mark
      is clear at the end, what was written is the stuffed bytes of the scan and the end
      marker; the bits of the scan come first in those bytes. */
  method EncodeScan(units: seq<Unit>, tables: seq<Tables>, place: seq<nat>, buf: array<int>, from: nat, ghost order: seq<nat>)
    returns (overflow: bool, end: nat, ghost bytes: seq<nat>)
    requires Inverse(order, place) && AllTablesOk(tables) && from <= buf.Length
    requires Codable(units, [0, 0, 0])
    modifies buf
    ensures !overflow ==>
      && from <= end <= buf.Length && Bytes(bytes)
      && buf[from..end] == Stuff(bytes) + [0xFF, 0xD9]
      && ScanBits(units, [0, 0, 0], tables, order) <= ByteBits(bytes)
    ensures overflow ==> end + 257 >= buf.Length
  {
    var jb := new JpegBuf(buf, from);
    var preds := [0, 0, 0];
    ghost var goal := ScanBits(units, preds, tables, order);
    ghost var left := units;
    var n := 0;
    while n < |units|
      invariant 0 <= n <= |units| && |preds| == 3 && left == units[n..]
      invariant jb.Valid() && fresh(jb) && jb.buf == buf && jb.start == from
      invariant !jb.overflow ==> Codable(left, preds)
      invariant !jb.overflow ==> Flatten(jb.log) + ScanBits(left, preds, tables, order) == goal
    {
      CodableEach(units, [0, 0, 0], n);
      preds := EncodeUnit(jb, units[n], left, tables, place, preds, order);
      left := left[1..];
      n := n + 1;
    }
    NoneAfter(Flatten(jb.log));
    bytes := Finish(jb, goal);
    overflow, end := jb.overflow, jb.idx;
  }

  /** One turn of the encoder's loop over the blocks. */
  method EncodeUnit(jb: JpegBuf, u: Unit, ghost units: seq<Unit>, tables: seq<Tables>, place: seq<nat>, preds: seq<int>, ghost order: seq<nat>)
    returns (next: seq<int>)
    requires Inverse(order, place) && AllTablesOk(tables) && units != [] && UnitOk(units[0]) && u == units[0] && |preds| == 3
    requires jb.Valid() && (!jb.overflow ==> Codable(units, preds))
    modifies jb, jb.buf
    ensures jb.Valid() && jb.start == old(jb.start) && |next| == 3 && (old(jb.overflow) ==> jb.overflow)
    ensures !jb.overflow ==> Codable(units[1..], next)
    ensures !jb.overflow ==>
      Flatten(jb.log) + ScanBits(units[1..], next, tables, order)
      == old(Flatten(jb.log)) + ScanBits(units, preds, tables, order)
  {
    var t := tables[u.component];
    ZigzagRange(u, order);
    var duq, end0pos := Scatter(u.du, place, order);
    TablesUsable(t);
    ghost var log := jb.log;
    var last := jb.WriteBlock(duq, end0pos, preds[u.component], t.htdc, t.htac);
    next := preds[u.component := last];
    BlockCode(t.htdc, t.htac, duq, end0pos, preds[u.component], log);
    if !jb.overflow {
      Assoc(Flatten(log), UnitBits(u, preds[u.component], tables, order), ScanBits(units[1..], next, tables, order));
    }
  }

  lemma {:induction false} TablesUsable(t: Tables)
    requires TablesOk(t)
    ensures IsTable(t.htdc, 12) && IsTable(t.htac, 256)
  {
    forall sym: nat | sym < 12 ensures Fits(t.htdc[sym]) { GoodCode(t.dc.count, t.dc.values, t.htdc, sym); }
    forall sym: nat | sym < 256 ensures Fits(t.htac[sym]) { GoodCode(t.ac.count, t.ac.values, t.htac, sym); }
  }

  /** Fills the last byte with ones and writes the end marker. */
  method Finish(jb: JpegBuf, ghost goal: seq<bool>) returns (ghost bytes: seq<nat>)
    requires jb.Valid() && (!jb.overflow ==> Flatten(jb.log) == goal)
    modifies jb, jb.buf
    ensures !jb.overflow ==>
      && old(jb.start) <= jb.idx <= jb.buf.Length && Bytes(bytes)
      && jb.buf[old(jb.start)..jb.idx] == Stuff(bytes) + [0xFF, 0xD9]
      && goal <= ByteBits(bytes)
    ensures jb.overflow ==> jb.idx + 257 >= jb.buf.Length
  {
    var fill := Code(0x7F, 7);
    Pow2Values();
    FlattenNext(jb.log, fill);
    jb.WriteBits(fill);
    bytes := jb.bytes;
    ghost var start, out := jb.start, jb.buf[..jb.idx];
    assert !jb.overflow ==> goal + CodeBits(fill) == ByteBits(bytes) + jb.pending;
    if !jb.overflow { FrontOf(goal, CodeBits(fill), ByteBits(bytes), jb.pending); }
    jb.PutChar(0xFF);
    jb.PutChar(0xD9);
    assert !jb.overflow ==> jb.buf[..jb.idx] == out + [0xFF] + [0xD9];
    assert !jb.overflow ==> jb.buf[start..jb.idx] == out[start..] + [0xFF, 0xD9];
  }

  lemma {:induction false} FrontOf(a: seq<bool>, fill: seq<bool>, b: seq<bool>, pending: seq<bool>)
    requires a + fill == b + pending && |pending| <= |fill|
    ensures a <= b
  {
    assert a == (a + fill)[..|a|];
    assert (b + pending)[..|a|] == b[..|a|];
  }

  // ---------- decoding ----------

  /** A component's decoder tables. */
  datatype Decoders = Decoders(hdc: Huffman, hac: Huffman, fac: seq<int>)

  ghost predicate DecodersOk(d: Decoders, t: Tables) {
    && TablesOk(t)
    && Decodes(d.hdc, t.dc) && Decodes(d.hac, t.ac) && IsFastAc(d.fac, d.hac, t.ac.count)
  }

  /** Builds a component's decoder tables from the lists in the file. */
  method BuildDecoders(t: Tables) returns (d: Decoders)
    requires TablesOk(t)
    ensures DecodersOk(d, t)
  {
    var ok, hdc := BuildHuffman(t.dc.count, t.dc.values);
    var ok', hac := BuildHuffman(t.ac.count, t.ac.values);
    GoodTables(t.dc.count, t.dc.values, t.htdc, hdc);
    GoodTables(t.ac.count, t.ac.values, t.htac, hac);
    var fac := BuildFastAc(hac, t.ac.count);
    d := Decoders(hdc, hac, fac);
  }

  /** The dequantised DC value fits a short. */
  predicate DcFits(u: Unit, dequants: seq<seq<int>>)
    requires |dequants| == 3 && u.component < 3 && |u.du| == 64 && forall c :: 0 <= c < 3 ==> |dequants[c]| == 64
  {
    Mul2ShortsValid(ToShort(u.du[0]), ToShort(dequants[u.component][0]))
  }

  ghost predicate Decoded(block: seq<int>, u: Unit, dequants: seq<seq<int>>)
    requires |dequants| == 3 && u.component < 3 && |u.du| == 64 && forall c :: 0 <= c < 3 ==> |dequants[c]| == 64
  {
    |block| == 64 && forall i :: 0 <= i < 64 ==> block[i] == ToShort(u.du[i] * dequants[u.component][i])
  }

  lemma {:induction false} BlockInOrder(block: seq<int>, u: Unit, order: seq<nat>, place: seq<nat>, dequants: seq<seq<int>>)
    requires Inverse(order, place) && UnitOk(u)
    requires |dequants| == 3 && forall c :: 0 <= c < 3 ==> |dequants[c]| == 64
    requires IsBlock(order, block, ToZigzag(u.du, order), dequants[u.component])
    ensures Decoded(block, u, dequants)
  {
    forall i | 0 <= i < 64 ensures block[i] == ToShort(u.du[i] * dequants[u.component][i]) {
      assert order[place[i]] == i;
      assert ToZigzag(u.du, order)[place[i]] == u.du[i];
    }
  }

  /** What the decoder holds for component c: tables built from what the file says about the
      encoder's tables, and 64 dequantisation factors. */
  ghost predicate ComponentOk(s: Setting, c: nat)
    requires c < |s.decoders| && c < |s.tables| && c < |s.dequants|
  {
    DecodersOk(s.decoders[c], s.tables[c]) && |s.dequants[c]| == 64 && Inverse(s.order, s.place)
  }

  /** What stays the same during a scan. */
  datatype Setting = Setting(decoders: seq<Decoders>, tables: seq<Tables>, order: seq<nat>, place: seq<nat>, dequants: seq<seq<int>>)

  ghost predicate SettingOk(s: Setting) {
    |s.decoders| == |s.tables| == |s.dequants| == 3 && forall c :: 0 <= c < 3 ==> ComponentOk(s, c)
  }

  /** Block n of the scan, dequantised and in its place; the DC product fits. */
  ghost predicate UnitDecoded(block: seq<int>, u: Unit, dequants: seq<seq<int>>) {
    && UnitOk(u) && |dequants| == 3 && (forall c :: 0 <= c < 3 ==> |dequants[c]| == 64)
    && DcFits(u, dequants) && Decoded(block, u, dequants)
  }

  ghost predicate UnitsDecoded(blocks: seq<seq<int>>, units: seq<Unit>, dequants: seq<seq<int>>) {
    |blocks| <= |units| && forall n :: 0 <= n < |blocks| ==> UnitDecoded(blocks[n], units[n], dequants)
  }

  lemma {:induction false} AnotherDecoded(blocks: seq<seq<int>>, block: seq<int>, units: seq<Unit>, dequants: seq<seq<int>>)
    requires UnitsDecoded(blocks, units, dequants) && |blocks| < |units| && UnitDecoded(block, units[|blocks|], dequants)
    ensures UnitsDecoded(blocks + [block], units, dequants)
  {
  }

  /** The stream starts with the code of the blocks that are left. */
  ghost predicate Ahead(left: seq<Unit>, preds: seq<int>, s: Setting, stream: seq<bool>) {
    && |s.tables| == 3 && ScanOrder(s.order) && Codable(left, preds)
    && ScanBits(left, preds, s.tables, s.order) <= stream
  }

  /** Decodes the blocks of a scan. */
  method DecodeScan(input: seq<int>, components: seq<nat>, s: Setting, ghost units: seq<Unit>, ghost bytes: seq<nat>)
    returns (ok: bool, blocks: seq<seq<int>>)
    requires SettingOk(s) && |components| == |units| && (forall n :: 0 <= n < |units| ==> components[n] == units[n].component)
    requires Bytes(bytes) && input == Stuff(bytes) + [0xFF, 0xD9]
    requires Ahead(units, [0, 0, 0], s, ByteBits(bytes))
    ensures ok ==> |blocks| == |units| && UnitsDecoded(blocks, units, s.dequants)
    ensures !ok ==> exists n :: 0 <= n < |units| && Misfit(units[n], s.dequants)
  {
    var z := new Jpeg(input, bytes, [0xFF, 0xD9]);
    ok, blocks := DecodeUnits(z, components, s, units);
  }

  /** The decoder's loop over the blocks of a scan. */
  method DecodeUnits(z: Jpeg, components: seq<nat>, s: Setting, ghost units: seq<Unit>) returns (ok: bool, blocks: seq<seq<int>>)
    requires SettingOk(s) && |components| == |units| && (forall n :: 0 <= n < |units| ==> components[n] == units[n].component)
    requires z.Valid() && Predicts(z.dc_pred[..], [0, 0, 0]) && Ahead(units, [0, 0, 0], s, z.Stream())
    modifies z, z.dc_pred
    ensures ok ==> |blocks| == |units| && UnitsDecoded(blocks, units, s.dequants)
    ensures !ok ==> exists n :: 0 <= n < |units| && Misfit(units[n], s.dequants)
  {
    blocks := [];
    ghost var preds, left := [0, 0, 0], units;
    var n := 0;
    while n < |components|
      invariant 0 <= n <= |units| && |blocks| == n && |left| == |units| - n && left == units[n..]
      invariant z.Valid() && Predicts(z.dc_pred[..], preds)
      invariant Ahead(left, preds, s, z.Stream())
      invariant UnitsDecoded(blocks, units, s.dequants)
    {
      ghost var u := left[0];
      var fits, block := DecodeUnit(z, components[n], s, left, preds);
      if !fits {
        return false, [];
      }
      preds, left := preds[u.component := u.du[0]], left[1..];
      AnotherDecoded(blocks, block, units, s.dequants);
      blocks := blocks + [block];
      n := n + 1;
    }
    ok := true;
  }

  ghost predicate Predicts(dcPred: seq<int>, preds: seq<int>) {
    |dcPred| == 4 && |preds| == 3 && forall c :: 0 <= c < 3 ==> dcPred[c] == preds[c]
  }

  /** The block's dequantised DC value does not fit a short. */
  ghost predicate Misfit(u: Unit, dequants: seq<seq<int>>) {
    && UnitOk(u) && |dequants| == 3 && (forall c :: 0 <= c < 3 ==> |dequants[c]| == 64)
    && !DcFits(u, dequants)
  }

  lemma {:induction false} AheadUnfold(left: seq<Unit>, preds: seq<int>, s: Setting, stream: seq<bool>)
    requires SettingOk(s) && left != [] && Ahead(left, preds, s, stream)
    ensures var u := left[0]; var q := ToZigzag(u.du, s.order);
      && UnitOk(u) && AcRange(q) && q[0] == u.du[0] && IsInt(q[0]) && IsInt(preds[u.component])
      && DcRange(q[0] - preds[u.component])
      && ScanBits(left, preds, s.tables, s.order) ==
         BlockBits(s.tables[u.component].dc.book, s.tables[u.component].ac.book, q, preds[u.component])
         + ScanBits(left[1..], preds[u.component := u.du[0]], s.tables, s.order)
  {
    ZigzagRange(left[0], s.order);
  }

  lemma {:induction false} AheadNext(left: seq<Unit>, preds: seq<int>, s: Setting, stream: seq<bool>, next: seq<bool>)
    requires left != [] && Ahead(left, preds, s, stream)
    requires ScanBits(left[1..], preds[left[0].component := left[0].du[0]], s.tables, s.order) <= next
    ensures Ahead(left[1..], preds[left[0].component := left[0].du[0]], s, next)
  {
  }

  /** What decoding a block of component c says about it. */
  lemma {:induction false} UnitResult(fits: bool, block: seq<int>, s: Setting, c: nat, u: Unit, q: seq<int>)
    requires SettingOk(s) && UnitOk(u) && c == u.component && ComponentOk(s, c) && q == ToZigzag(u.du, s.order)
    requires fits == Mul2ShortsValid(ToShort(q[0]), ToShort(s.dequants[c][0]))
    requires fits ==> IsBlock(s.order, block, q, s.dequants[c])
    ensures if fits then UnitDecoded(block, u, s.dequants) else Misfit(u, s.dequants)
  {
    ZigzagRange(u, s.order);
    forall i | 0 <= i < 3 ensures |s.dequants[i]| == 64 { assert ComponentOk(s, i); }
    assert q[0] == u.du[0];
    if fits { BlockInOrder(block, u, s.order, s.place, s.dequants); }
  }

  /** One turn of the decoder's loop over the blocks. */
  method DecodeUnit(z: Jpeg, c: nat, s: Setting, ghost units: seq<Unit>, ghost preds: seq<int>)
    returns (fits: bool, block: seq<int>)
    requires SettingOk(s) && units != [] && Ahead(units, preds, s, z.Stream())
    requires c == units[0].component && z.Valid() && Predicts(z.dc_pred[..], preds)
    modifies z, z.dc_pred
    ensures z.Valid() && Predicts(z.dc_pred[..], preds[units[0].component := units[0].du[0]])
    ensures !fits ==> Misfit(units[0], s.dequants)
    ensures fits ==> UnitDecoded(block, units[0], s.dequants)
    ensures fits ==> Ahead(units[1..], preds[units[0].component := units[0].du[0]], s, z.Stream())
  {
    ghost var stream, preds' := z.Stream(), preds[c := units[0].du[0]];
    ghost var rest := ScanBits(units[1..], preds', s.tables, s.order);
    AheadUnfold(units, preds, s, stream);
    ghost var q := ToZigzag(units[0].du, s.order);
    assert ComponentOk(s, c);
    fits, block := DecodeOne(z, c, s.decoders[c], s.order, s.dequants[c], s.tables[c], q, preds, rest);
    UnitResult(fits, block, s, c, units[0], q);
    if fits {
      AheadNext(units, preds, s, stream, z.Stream());
    }
  }

  lemma PredictsNext(dcPred: seq<int>, preds: seq<int>, c: nat, value: int)
    requires Predicts(dcPred, preds) && c < 3
    ensures Predicts(dcPred[c := value], preds[c := value])
  {
  }

  /** Decodes the block that comes next. */
  method DecodeOne(z: Jpeg, c: nat, d: Decoders, order: seq<nat>, dequant: seq<int>, ghost t: Tables,
                   ghost q: seq<int>, ghost preds: seq<int>, ghost rest: seq<bool>)
    returns (fits: bool, block: seq<int>)
    requires DecodersOk(d, t) && ScanOrder(order) && |dequant| == 64 && c < 3
    requires z.Valid() && Predicts(z.dc_pred[..], preds)
    requires AcRange(q) && IsInt(q[0]) && IsInt(preds[c]) && DcRange(q[0] - preds[c])
    requires BlockBits(t.dc.book, t.ac.book, q, preds[c]) + rest <= z.Stream()
    modifies z, z.dc_pred
    ensures z.Valid() && Predicts(z.dc_pred[..], preds[c := q[0]])
    ensures fits <==> Mul2ShortsValid(ToShort(q[0]), ToShort(dequant[0]))
    ensures fits ==> rest <= z.Stream() && IsBlock(order, block, q, dequant)
  {
    assert z.dc_pred[c] == z.dc_pred[..][c];
    PredictsNext(z.dc_pred[..], preds, c, q[0]);
    fits, block := z.DecodeBlock(d.hdc, d.hac, d.fac, c, order, dequant, t.dc, t.ac, q, rest);
  }

  /** Builds the decoder tables of the three components. */
  method BuildAllDecoders(tables: seq<Tables>, order: seq<nat>, place: seq<nat>, dequants: seq<seq<int>>) returns (s: Setting)
    requires AllTablesOk(tables) && Inverse(order, place)
    requires |dequants| == 3 && forall c :: 0 <= c < 3 ==> |dequants[c]| == 64
    ensures SettingOk(s) && s.tables == tables && s.order == order && s.place == place && s.dequants == dequants
  {
    var decoders: seq<Decoders> := [];
    var c := 0;
    while c < 3
      invariant 0 <= c <= 3 && |decoders| == c
      invariant forall i :: 0 <= i < c ==> DecodersOk(decoders[i], tables[i])
    {
      var d := BuildDecoders(tables[c]);
      decoders := decoders + [d];
      c := c + 1;
    }
    s := Setting(decoders, tables, order, place, dequants);
  }
}
