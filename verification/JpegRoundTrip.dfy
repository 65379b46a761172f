/** The round trip from quantised blocks through the encoder's own tables and bytes and the
    decoder back to the blocks. */
module JpegRoundTrip {
  import opened JpegFormat
  import opened JpegEncoder
  import opened JpegDecoder
  import opened JpegTables
  import opened JpegCoding
  import opened JpegScan

  function LumaTables(): Tables {
    Tables(LumaDcTable(), LumaAcTable(),
           Coding(LUMA_DC_COUNT, LumaDcValues(), BookOf(LumaDcTable())),
           Coding(LUMA_AC_COUNT, LumaAcValues(), BookOf(LumaAcTable())))
  }

  function ChromaTables(): Tables {
    Tables(ChromaDcTable(), ChromaAcTable(),
           Coding(CHROMA_DC_COUNT, ChromaDcValues(), BookOf(ChromaDcTable())),
           Coding(CHROMA_AC_COUNT, ChromaAcValues(), BookOf(ChromaAcTable())))
  }

  /** The encoder's own tables are good ones. */
  lemma {:induction false} OwnTablesOk()
    ensures TablesOk(LumaTables()) && TablesOk(ChromaTables())
  {
    LumaDcGood();
    LumaAcGood();
    LumaDcCovers();
    LumaAcCovers();
    ChromaDcGood();
    ChromaAcGood();
    ChromaDcCovers();
    ChromaAcCovers();
  }

  lemma AllOk(luma: Tables, chroma: Tables)
    requires TablesOk(luma) && TablesOk(chroma)
    ensures AllTablesOk([luma, chroma, chroma])
  {
  }

  /** The tables and scan orders that the encoder and the decoder are compiled with. */
  method OwnTables() returns (tables: seq<Tables>, order: seq<nat>, place: seq<nat>)
    ensures AllTablesOk(tables) && Inverse(order, place)
  {
    OwnOrders();
    tables := [LumaTables(), ChromaTables(), ChromaTables()];
    OwnTablesOk();
    AllOk(LumaTables(), ChromaTables());
    order, place := DezigzagTable(), ZigzagTable();
  }

  function Components(units: seq<Unit>): (c: seq<nat>)
    ensures |c| == |units| && forall n :: 0 <= n < |units| ==> c[n] == units[n].component
  {
    seq(|units|, n requires 0 <= n < |units| => units[n].component)
  }

  /** The DC value of a block, or its product with the dequantisation factor, is not a short. */
  ghost predicate DcTooWide(u: Unit, dequants: seq<seq<int>>) {
    && u.component < |dequants| && |dequants[u.component]| == 64 && |u.du| == 64
    && !(-0x8000 <= u.du[0] < 0x8000 && -0x8000 <= u.du[0] * dequants[u.component][0] < 0x8000)
  }

  /** For factors that a table in the file can hold, decoding fails only on such a block. */
  lemma {:induction false} MisfitIs(u: Unit, dequants: seq<seq<int>>)
    requires Misfit(u, dequants) && 1 <= dequants[u.component][0] < 0x8000
    ensures DcTooWide(u, dequants)
  {
    var dc := u.du[0];
    if -0x8000 <= dc < 0x8000 {
      Mul2ShortsExact(dc, dequants[u.component][0]);
    }
  }

  /** The short that is left of an integer: the only one that differs by a multiple of 2^16. */
  lemma ToShortIs(x: int, y: int)
    requires -0x8000 <= y < 0x8000
    ensures -0x8000 <= ToShort(x) < 0x8000
    ensures ToShort(x) == y <==> (x - y) % 0x1_0000 == 0
  {
  }

  lemma {:induction false} SomeTooWide(units: seq<Unit>, dequants: seq<seq<int>>)
    requires |dequants| == 3 && forall c :: 0 <= c < 3 ==> |dequants[c]| == 64 && 1 <= dequants[c][0] < 0x8000
    requires exists n :: 0 <= n < |units| && Misfit(units[n], dequants)
    ensures exists n :: 0 <= n < |units| && DcTooWide(units[n], dequants)
  {
    var n :| 0 <= n < |units| && Misfit(units[n], dequants);
    MisfitIs(units[n], dequants);
  }

  /** Encoding blocks and decoding the bytes gives back every coefficient times its
      dequantisation factor, as a short, unless the output buffer ran full. Decoding fails
      only on a DC product that does not fit a short. */
  method RoundTrip(units: seq<Unit>, buf: array<int>, from: nat, dequants: seq<seq<int>>)
    returns (overflow: bool, end: nat, ok: bool, blocks: seq<seq<int>>)
    requires from <= buf.Length && Codable(units, [0, 0, 0])
    requires |dequants| == 3 && forall c :: 0 <= c < 3 ==> |dequants[c]| == 64
    modifies buf
    ensures overflow ==> end + 257 >= buf.Length
    ensures !overflow && !ok ==> exists n :: 0 <= n < |units| && Misfit(units[n], dequants)
    ensures !overflow && !ok && (forall c :: 0 <= c < 3 ==> 1 <= dequants[c][0] < 0x8000) ==>
      exists n :: 0 <= n < |units| && DcTooWide(units[n], dequants)
    ensures !overflow && ok ==> |blocks| == |units| && UnitsDecoded(blocks, units, dequants)
  {
    var tables, order, place := OwnTables();
    ok, blocks := false, [];
    ghost var bytes;
    overflow, end, bytes := EncodeScan(units, tables, place, buf, from, order);
    if overflow {
      return;
    }
    var s := BuildAllDecoders(tables, order, place, dequants);
    ok, blocks := DecodeScan(buf[from..end], Components(units), s, units, bytes);
    if !ok && forall c :: 0 <= c < 3 ==> 1 <= dequants[c][0] < 0x8000 {
      SomeTooWide(units, dequants);
    }
  }
}
