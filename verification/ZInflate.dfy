/** The inflater of stb_image.h on the streams that the compressor writes: an LSB-first bit
    buffer, Huffman blocks under the fixed code, and stored blocks. */
module ZInflate {
  import opened Bits
  import opened LsbBits
  import opened Canonical
  import opened ZHuffman
  import opened ZFormat

  // ---------- the bits of a stream ----------

  /** One more byte of the input at the end of the buffer. */
  lemma {:induction false} BitsStep(input: seq<nat>, p: nat)
    requires p < |input|
    ensures BitsOf(input[p..]) == Lsb(input[p], 8) + BitsOf(input[p + 1..])
  {
    assert input[p..][1..] == input[p + 1..];
  }

  lemma {:induction false} BitsUpTo(input: seq<nat>, p: nat, q: nat)
    requires p <= q < |input|
    ensures BitsOf(input[p..q + 1]) == BitsOf(input[p..q]) + Lsb(input[q], 8)
  {
    assert input[p..q + 1] == input[p..q] + [input[q]];
    BitsOfConcat(input[p..q], [input[q]]);
    assert [input[q]][1..] == [];
    NoneAfter(Lsb(input[q], 8));
  }

  /** Promised bits that the buffer already holds are its low bits. */
  lemma {:induction false} LowBits(b: seq<bool>, rest: seq<bool>, avail: seq<bool>, unread: seq<bool>)
    requires b + rest <= avail + unread && |b| <= |avail|
    ensures Low(LsbValue(avail), |b|) == LsbValue(b) && Shr(LsbValue(avail), |b|) == LsbValue(avail[|b|..])
    ensures rest <= avail[|b|..] + unread
  {
    LsbSplit(avail, |b|);
    PrefixDrop(b, rest, avail + unread);
    assert avail[..|b|] == b;
    assert (avail + unread)[|b|..] == avail[|b|..] + unread;
  }

  lemma NothingLeft(input: seq<nat>, p: nat)
    requires p == |input|
    ensures BitsOf(input[p..]) == []
  {
  }

  /** The buffer starts with the code word that comes next. */
  lemma {:induction false} NextCoded(sizes: seq<nat>, sym: nat, rest: seq<bool>, avail: seq<bool>, unread: seq<bool>)
    requires IsSizes(sizes) && sym < |sizes| && sizes[sym] > 0 && |avail| >= 16
    requires SymbolWord(sizes, sym) + rest <= avail + unread
    ensures |SymbolWord(sizes, sym)| == sizes[sym] && Coded(sizes, sym, LsbValue(avail))
  {
    RankRange(sizes, sym);
    var w := SymbolWord(sizes, sym);
    PrefixDrop(w, rest, avail + unread);
    LsbOfValue(avail);
    LsbPrefix(LsbValue(avail), |avail|, 16);
    assert w == (avail + unread)[..|w|] == avail[..16][..|w|];
  }

  class Zbuf {
    const input: seq<nat>
    var zbuffer: nat
    var num_bits: nat
    var code_buffer: nat
    var zout: seq<nat>
    var z_length: ZTable
    var z_distance: ZTable
    /** The bits in the buffer, first bit first. */
    ghost var avail: seq<bool>

    ghost predicate Valid()
      reads `zbuffer, `num_bits, `code_buffer, `avail
    {
      && zbuffer <= |input| && IsBytes(input)
      && num_bits == |avail| <= 32 && code_buffer == LsbValue(avail)
    }

    /** Every bit still to be decoded. */
    ghost function Stream(): seq<bool>
      requires zbuffer <= |input|
      reads `zbuffer, `avail
    {
      avail + BitsOf(input[zbuffer..])
    }

    constructor (input: seq<nat>)
      requires IsBytes(input)
      ensures Valid() && this.input == input && zbuffer == 0 && avail == [] && zout == []
    {
      this.input := input;
      zbuffer, num_bits, code_buffer, zout, avail := 0, 0, 0, [], [];
      z_length, z_distance := ZTable([], [], [], [], [], []), ZTable([], [], [], [], [], []);
    }

    predicate Zeof()
      reads `zbuffer
    {
      zbuffer >= |input|
    }

    method Zget8() returns (b: nat)
      requires zbuffer <= |input|
      modifies `zbuffer
      ensures if old(zbuffer) < |input| then b == input[old(zbuffer)] && zbuffer == old(zbuffer) + 1
              else b == 0 && zbuffer == old(zbuffer)
    {
      if Zeof() {
        return 0;
      }
      b := input[zbuffer];
      zbuffer := zbuffer + 1;
    }

    /** Enters byte b above the bits in the buffer. */
    method Append(b: nat)
      requires Valid() && num_bits <= 24 && b < 256
      modifies `num_bits, `code_buffer, `avail
      ensures Valid() && avail == old(avail) + Lsb(b, 8)
    {
      Pow2Values();
      LsbAppend(avail, b, 8);
      code_buffer := Or(code_buffer, Shl(b, num_bits));
      num_bits := num_bits + 8;
      avail := avail + Lsb(b, 8);
    }

    /** Reads bytes until more than 24 bits are in the buffer; zeros are made up behind the
        end. Nothing already promised is lost, and with four bytes left nothing is made up. */
    method FillBits()
      requires Valid() && num_bits <= 24
      modifies `zbuffer, `num_bits, `code_buffer, `avail
      ensures Valid() && num_bits > 24 && old(Stream()) <= Stream()
      ensures old(zbuffer) + 4 <= |input| && old(num_bits) == 0 ==>
        zbuffer == old(zbuffer) + 4 && avail == BitsOf(input[old(zbuffer)..zbuffer])
    {
      ghost var start := zbuffer;
      ghost var exact := zbuffer + 4 <= |input| && num_bits == 0;
      assert exact ==> avail == BitsOf(input[start..zbuffer]);
      while num_bits <= 24
        invariant Valid() && old(Stream()) <= Stream()
        invariant exact ==> start <= zbuffer && num_bits == 8 * (zbuffer - start) && avail == BitsOf(input[start..zbuffer])
        decreases 32 - num_bits
      {
        LsbBound(avail);
        if code_buffer >= Pow2(num_bits) {
          assert false;  // the buffer never holds more than its bits
        }
        ghost var before, p := avail, zbuffer;
        if exact { BitsUpTo(input, start, p); }
        var b := Zget8();
        Append(b);
        GrowStep(before, input, p, zbuffer, b);
      }
    }

    /** Takes n bits: those that come next. */
    method Zreceive(n: nat, ghost b: seq<bool>, ghost rest: seq<bool>) returns (k: nat)
      requires Valid() && n <= 16 && |b| == n && b + rest <= Stream()
      modifies `zbuffer, `num_bits, `code_buffer, `avail
      ensures Valid() && k == LsbValue(b) && rest <= Stream()
      ensures n <= old(num_bits) ==> avail == old(avail)[n..] && zbuffer == old(zbuffer)
      ensures n > 0 && old(num_bits) == 0 && old(zbuffer) + 4 <= |input| ==>
        zbuffer == old(zbuffer) + 4 && avail == BitsOf(input[old(zbuffer)..zbuffer])[n..]
    {
      if num_bits < n {
        FillBits();
      }
      LowBits(b, rest, avail, BitsOf(input[zbuffer..]));
      k := Low(code_buffer, n);
      code_buffer := Shr(code_buffer, n);
      num_bits := num_bits - n;
      avail := avail[n..];
    }

    /** Decodes one symbol: the one whose code word comes next. Sixteen bits still to come
        are enough to keep the end-of-data check from firing. */
    method ZhuffmanDecode(t: ZTable, ghost sizes: seq<nat>, ghost sym: nat, ghost rest: seq<bool>) returns (v: int)
      requires Valid() && t in Tables(sizes) && sym < |sizes| && sizes[sym] > 0
      requires SymbolWord(sizes, sym) + rest <= Stream() && |SymbolWord(sizes, sym) + rest| >= 16
      modifies `zbuffer, `num_bits, `code_buffer, `avail
      ensures Valid() && v == sym && rest <= Stream()
    {
      if num_bits < 16 {
        if Zeof() {
          NothingLeft(input, zbuffer);
          assert false;  // the end-of-data error cannot be reached
        }
        FillBits();
      }
      ghost var unread := BitsOf(input[zbuffer..]);
      NextCoded(sizes, sym, rest, avail, unread);
      assert AnyCoded(sizes, code_buffer);
      var s;
      v, s := ZLookup(t, code_buffer, sizes);
      OneCoded(sizes, v, sym, code_buffer);
      LowBits(SymbolWord(sizes, sym), rest, avail, unread);
      code_buffer := Shr(code_buffer, s);
      num_bits := num_bits - s;
      avail := avail[s..];
    }

    /** Reads the length of a back-reference behind its symbol j: the base and extra bits. */
    method ReadLength(j: nat, ghost len: nat, ghost rest: seq<bool>) returns (length: nat)
      requires Valid() && 3 <= len <= 258 && j == LengthCode(len) < 29
      requires LengthBits(len) + rest <= Stream()
      modifies `zbuffer, `num_bits, `code_buffer, `avail
      ensures Valid() && length == len && rest <= Stream()
    {
      LengthFits(len);
      length := ZLENGTH_BASE[j];
      LsbRoundTrip(len - LENGTH_BASE[j], LENGTH_EXTRA[j]);
      if ZLENGTH_EXTRA[j] != 0 {
        var k := Zreceive(ZLENGTH_EXTRA[j], LengthBits(len), rest);
        length := length + k;
      } else {
        NoneBefore(rest);
      }
    }

    /** Reads the distance of a back-reference behind its symbol j. */
    method ReadDistance(j: nat, ghost dist: nat, ghost rest: seq<bool>) returns (distance: nat)
      requires Valid() && 1 <= dist <= 32767 && j == DistCode(dist) < 30
      requires DistBits(dist) + rest <= Stream()
      modifies `zbuffer, `num_bits, `code_buffer, `avail
      ensures Valid() && distance == dist && rest <= Stream()
    {
      DistFits(dist);
      distance := ZDIST_BASE[j];
      LsbRoundTrip(dist - DIST_BASE[j], DIST_EXTRA[j]);
      if ZDIST_EXTRA[j] != 0 {
        var k := Zreceive(ZDIST_EXTRA[j], DistBits(dist), rest);
        distance := distance + k;
      } else {
        NoneBefore(rest);
      }
    }

    /** Appends len bytes, each the one dist back. */
    method CopyBack(dist: nat, len: nat)
      requires 1 <= dist <= |zout|
      modifies `zout
      ensures zout == Copy(old(zout), dist, len)
    {
      ghost var start := zout;
      var n := len;
      if dist == 1 {
        var v := zout[|zout| - dist];
        while n > 0
          invariant 0 <= n <= len && |zout| >= 1 && zout[|zout| - 1] == v
          invariant Copy(zout, 1, n) == Copy(start, dist, len)
        {
          zout := zout + [v];
          n := n - 1;
        }
      } else {
        var p := |zout| - dist;
        while n > 0
          invariant 0 <= n <= len && p == |zout| - dist && 0 <= p
          invariant Copy(zout, dist, n) == Copy(start, dist, len)
        {
          zout := zout + [zout[p]];
          p := p + 1;
          n := n - 1;
        }
      }
    }

    /** The rest of a back-reference behind the symbol z of its length. */
    method ReadMatch(z: nat, ghost len: nat, ghost dist: nat, ghost rest: seq<bool>) returns (length: nat, distance: nat)
      requires Valid() && z_distance in Tables(FixedDistances())
      requires IsToken(Match(len, dist), 32767) && z == 257 + LengthCode(len) && |rest| >= 32
      requires MatchTail(len, dist) + rest <= Stream()
      modifies `zbuffer, `num_bits, `code_buffer, `avail
      ensures Valid() && rest <= Stream() && length == len && distance == dist
    {
      CodesInRange(len, dist);
      if z >= 286 {
        assert false;  // the error return of the source cannot be reached
      }
      ghost var k, far := DistCode(dist), DistBits(dist) + rest;
      TailUnfold(len, dist, rest);
      length := ReadLength(z - 257, len, DistWord(k) + far);
      DistanceWord(k);
      var d := ZhuffmanDecode(z_distance, FixedDistances(), k, far);
      if d < 0 || d >= 30 {
        assert false;  // the error return of the source cannot be reached
      }
      distance := ReadDistance(d, dist, rest);
    }

    /** Decodes a literal, a length or the end of the block. */
    method ReadSymbol(ghost sym: nat, ghost rest: seq<bool>) returns (z: int)
      requires Valid() && z_length in Tables(FixedLengths()) && sym < 286
      requires |rest| >= 32 && LitWord(sym) + rest <= Stream()
      modifies `zbuffer, `num_bits, `code_buffer, `avail
      ensures Valid() && z == sym && rest <= Stream()
    {
      FixedWord(sym);
      z := ZhuffmanDecode(z_length, FixedLengths(), sym, rest);
    }

    /** Decodes one symbol and what belongs to it: the item that comes next. */
    method ReadItem(ghost next: Item, ghost rest: seq<bool>) returns (item: Item)
      requires Valid() && z_length in Tables(FixedLengths()) && z_distance in Tables(FixedDistances())
      requires |rest| >= 32 && IsItem(next) && ItemBits(next) + rest <= Stream()
      modifies `zbuffer, `num_bits, `code_buffer, `avail
      ensures Valid() && rest <= Stream() && item == next
    {
      ItemUnfold(next, rest);
      var z := ReadSymbol(ItemSymbol(next), ItemTail(next) + rest);
      item := FinishItem(z, next, rest);
    }

    /** What belongs to a decoded symbol. */
    method FinishItem(z: int, ghost next: Item, ghost rest: seq<bool>) returns (item: Item)
      requires Valid() && z_distance in Tables(FixedDistances())
      requires |rest| >= 32 && IsItem(next) && z == ItemSymbol(next) && ItemTail(next) + rest <= Stream()
      modifies `zbuffer, `num_bits, `code_buffer, `avail
      ensures Valid() && rest <= Stream() && item == next
    {
      ItemUnfold(next, rest);
      if z < 256 {
        if z < 0 {
          assert false;  // the error return of the source cannot be reached
        }
        return Tok(Literal(z));
      }
      if z == 256 {
        return EndOfBlock;
      }
      var length, distance := ReadMatch(z, next.token.len, next.token.dist, rest);
      item := Tok(Match(length, distance));
    }

    /** Appends what a token stands for. */
    method Output(t: Token)
      requires IsToken(t, 32767) && (t.Match? ==> t.dist <= |zout|)
      modifies `zout
      ensures zout == Apply(old(zout), t)
    {
      match t
      case Literal(b) =>
        zout := zout + [b];
      case Match(len, dist) =>
        CopyBack(dist, len);
    }

    /** One turn of the block's loop: decodes an item and appends what it stands for. */
    method ParseItem(ghost tokens: seq<Token>, ghost k: nat, ghost rest: seq<bool>) returns (done: bool)
      requires Valid() && z_length in Tables(FixedLengths()) && z_distance in Tables(FixedDistances())
      requires k <= |tokens| && AreTokens(tokens) && |rest| >= 32
      requires zout == Expand(tokens[..k]) && BlockTail(tokens, k, rest) <= Stream()
      modifies `zbuffer, `num_bits, `code_buffer, `avail, `zout
      ensures Valid() && done == (k == |tokens|)
      ensures if done then zout == old(zout) && rest <= Stream()
              else zout == Expand(tokens[..k + 1]) && BlockTail(tokens, k + 1, rest) <= Stream()
    {
      BlockUnfold(tokens, k, rest);
      ghost var behind := Behind(tokens, k, rest);
      var item := ReadItem(ItemAt(tokens, k), behind);
      if item == EndOfBlock {
        return true;
      }
      if item.token.Match? && |zout| < item.token.dist {
        assert false;  // the error return of the source cannot be reached
      }
      ExpandOne(tokens, k);
      Output(item.token);
      done := false;
    }

    /** Decodes the tokens of a block and its end. */
    method ParseHuffmanBlock(ghost tokens: seq<Token>, ghost rest: seq<bool>)
      requires Valid() && z_length in Tables(FixedLengths()) && z_distance in Tables(FixedDistances())
      requires zout == [] && AreTokens(tokens) && |rest| >= 32
      requires TokensBits(tokens) + (LitWord(256) + rest) <= Stream()
      modifies `zbuffer, `num_bits, `code_buffer, `avail, `zout
      ensures Valid() && zout == Expand(tokens) && rest <= Stream()
    {
      ghost var k := 0;
      BlockStart(tokens, rest);
      assert tokens[..|tokens|] == tokens;
      while true
        invariant 0 <= k <= |tokens| && Valid() && zout == Expand(tokens[..k])
        invariant BlockTail(tokens, k, rest) <= Stream()
        decreases |tokens| - k
      {
        var done := ParseItem(tokens, k, rest);
        if done {
          return;
        }
        k := k + 1;
      }
    }

    /** Copies a stored block. Behind its three header bits the buffer holds the rest of the
        four bytes read with them; the block is taken exactly when the length agrees with its
        complement and that many bytes are left. */
    method ParseUncompressedBlock() returns (ok: bool)
      requires Valid() && 4 <= zbuffer < |input| && avail == BitsOf(input[zbuffer - 4..zbuffer])[3..]
      modifies `zbuffer, `num_bits, `code_buffer, `avail, `zout
      ensures var q := old(zbuffer) - 4; var len := 256 * input[q + 2] + input[q + 1];
        && (ok <==> 256 * input[q + 4] + input[q + 3] == 65535 - len && q + 5 + len <= |input|)
        && (ok ==> Valid() && avail == [] && zbuffer == q + 5 + len && zout == old(zout) + input[q + 5..q + 5 + len])
    {
      ghost var h := input[zbuffer - 4..zbuffer];
      ok := false;
      HeaderBits(h);
      var header := new nat[4];
      if num_bits % 8 != 0 {
        var _ := Zreceive(num_bits % 8, avail[..5], avail[5..]);
      }
      var k := 0;
      while num_bits > 0
        invariant 0 <= k <= 3 && num_bits == 8 * (3 - k) && Valid() && zbuffer == old(zbuffer) && zout == old(zout)
        invariant avail == BitsOf(h[1 + k..])
        invariant forall i :: 0 <= i < k ==> header[i] == h[1 + i]
        decreases num_bits
      {
        header[k] := DrainByte(h[1 + k..]);
        assert h[1 + k..][1..] == h[1 + (k + 1)..];
        k := k + 1;
      }
      assert h[4..] == [];
      header[k] := Zget8();
      var len := header[1] * 256 + header[0];
      var nlen := header[3] * 256 + header[2];
      if nlen != 65535 - len {  // the complement of a 16-bit number
        return;
      }
      if zbuffer + len > |input| {
        return;
      }
      zout := zout + input[zbuffer..zbuffer + len];
      zbuffer := zbuffer + len;
      ok := true;
    }

    /** Takes the first byte out of the buffer. */
    method DrainByte(ghost h: seq<nat>) returns (b: nat)
      requires Valid() && h != [] && IsBytes(h) && avail == BitsOf(h)
      modifies `num_bits, `code_buffer, `avail
      ensures Valid() && b == h[0] && avail == BitsOf(h[1..])
    {
      LsbSplit(avail, 8);
      Pow2Values();
      LsbRoundTrip(h[0], 8);
      assert avail[..8] == Lsb(h[0], 8) && avail[8..] == BitsOf(h[1..]);
      b := Low(code_buffer, 8);
      code_buffer := Shr(code_buffer, 8);
      num_bits := num_bits - 8;
      avail := avail[8..];
    }

    /** The two bytes before the first block: a valid check sum, no preset dictionary, and
        the DEFLATE method. */
    method ParseZlibHeader() returns (ok: bool)
      requires Valid() && avail == [] && zbuffer == 0
      modifies `zbuffer
      ensures Valid()
      ensures ok <==> |input| > 2 && (input[0] * 256 + input[1]) % 31 == 0 && input[1] / 32 % 2 == 0 && input[0] % 16 == 8
      ensures ok ==> zbuffer == 2
    {
      var cmf := Zget8();
      var cm := cmf % 16;
      var flg := Zget8();
      if Zeof() {
        return false;
      }
      if (cmf * 256 + flg) % 31 != 0 {
        return false;
      }
      if flg / 32 % 2 != 0 {
        return false;
      }
      if cm != 8 {
        return false;
      }
      ok := true;
    }

    /** The buffer is empty and the input left to read holds the rest of the body. */
    ghost predicate Ahead(body: Body, left: seq<nat>, pad: seq<bool>, trailer: seq<nat>)
      requires zbuffer <= |input|
      reads `zbuffer, `avail, `zout
    {
      avail == [] && LeftOf(body, left, pad, trailer, zout, input[zbuffer..])
    }

    /** Reads the three header bits of a block. */
    method BlockHeader(ghost b: seq<bool>, ghost c: seq<bool>, ghost rest: seq<bool>) returns (final: nat, kind: nat)
      requires Valid() && avail == [] && zbuffer + 4 <= |input| && |b| == 1 && |c| == 2 && b + (c + rest) <= Stream()
      modifies `zbuffer, `num_bits, `code_buffer, `avail
      ensures Valid() && final == LsbValue(b) && kind == LsbValue(c) && rest <= Stream()
      ensures zbuffer == old(zbuffer) + 4 && avail == BitsOf(input[old(zbuffer)..zbuffer])[3..]
    {
      final := Zreceive(1, b, c + rest);
      assert |avail| == 31;
      kind := Zreceive(2, c, rest);
      ghost var h := BitsOf(input[old(zbuffer)..zbuffer]);
      assert h[1..][2..] == h[3..];
    }

    /** Builds the tables of the fixed code. */
    method BuildFixed()
      modifies `z_length, `z_distance
      ensures z_length in Tables(FixedLengths()) && z_distance in Tables(FixedDistances())
    {
      FixedNotOverfull();
      var ok, table := ZBuildHuffman(FixedLengths());
      z_length := table;
      ok, table := ZBuildHuffman(FixedDistances());
      z_distance := table;
    }

    /** Copies the stored block whose header bits have been read. */
    method NextStored(ghost body: Body, ghost left: seq<nat>, ghost pad: seq<bool>, ghost trailer: seq<nat>)
      returns (ok: bool, ghost left': seq<nat>)
      requires Valid() && body.Stored? && 4 <= zbuffer && LeftOf(body, left, pad, trailer, zout, input[zbuffer - 4..])
      requires avail == BitsOf(input[zbuffer - 4..zbuffer])[3..]
      modifies `zbuffer, `num_bits, `code_buffer, `avail, `zout
      ensures ok && Valid()
      ensures if |left| <= STORED_MAX then zout == body.data
              else Ahead(body, left', pad, trailer) && |left'| < |left|
    {
      ghost var n := StoredUnfold(input, zbuffer - 4, left, trailer);
      ok := ParseUncompressedBlock();
      StoredNext(old(zout), left, n, body.data, zout);
      left' := left[n..];
    }

    /** Decodes the block under the fixed code whose header bits have been read. */
    method NextFixed(ghost tokens: seq<Token>, ghost rest: seq<bool>)
      requires Valid() && zout == [] && AreTokens(tokens) && |rest| >= 32
      requires TokensBits(tokens) + (LitWord(256) + rest) <= Stream()
      modifies this
      ensures Valid() && zout == Expand(tokens)
    {
      BuildFixed();
      ParseHuffmanBlock(tokens, rest);
    }

    /** Decodes a block, of whichever kind comes next, and tells whether it was the last. */
    method ParseBlock(ghost body: Body, ghost left: seq<nat>, ghost pad: seq<bool>, ghost trailer: seq<nat>)
      returns (ok: bool, final: nat, ghost left': seq<nat>)
      requires Valid() && Ahead(body, left, pad, trailer)
      modifies this
      ensures ok && Valid()
      ensures final != 0 ==> zout == Contents(body)
      ensures final == 0 ==> Ahead(body, left', pad, trailer) && |left'| < |left|
    {
      ghost var b, c, rest := HeaderOf(input, zbuffer, zout, body, left, pad, trailer);
      NoneBefore(BitsOf(input[zbuffer..]));
      var kind;
      final, kind := BlockHeader(b, c, rest);
      ok := true;
      left' := left;
      if kind == 0 {
        ok, left' := NextStored(body, left, pad, trailer);
      } else if kind == 1 {
        NextFixed(body.tokens, pad + BitsOf(trailer));
      } else {
        assert false;  // the compressor writes no other kind
      }
    }

    /** Decodes all blocks. */
    method ParseZlib(ghost body: Body, ghost pad: seq<bool>, ghost trailer: seq<nat>) returns (ok: bool)
      requires Valid() && zbuffer == 0 && avail == [] && zout == []
      requires 2 <= |input| && input[..2] == [0x78, 0x5e] && Describes(body, input[2..], pad, trailer)
      modifies this
      ensures ok && zout == Contents(body)
    {
      ghost var left := if body.Stored? then body.data else [];
      ok := ParseZlibHeader();
      num_bits, code_buffer := 0, 0;
      var final := 0;
      while final == 0
        invariant ok && Valid() && (if final == 0 then Ahead(body, left, pad, trailer) else zout == Contents(body))
        decreases if final == 0 then 1 else 0, |left|
      {
        ok, final, left := ParseBlock(body, left, pad, trailer);
      }
    }
  }

  /** What is left to decode: a block under the fixed code from its start, or stored blocks
      that hold the data left. */
  ghost predicate LeftOf(body: Body, left: seq<nat>, pad: seq<bool>, trailer: seq<nat>, zout: seq<nat>, bytes: seq<nat>) {
    && |trailer| == 4
    && match body
       case Fixed(tokens) =>
         AreTokens(tokens) && zout == [] && left == [] && BitsOf(bytes) == FixedBits(tokens, pad + BitsOf(trailer))
       case Stored(data) =>
         left != [] && zout + left == data && bytes == StoredBlocks(left) + trailer
  }

  /** The header bits of the next block, and what follows them. */
  lemma {:induction false} HeaderOf(input: seq<nat>, p: nat, zout: seq<nat>, body: Body, left: seq<nat>, pad: seq<bool>, trailer: seq<nat>)
    returns (b: seq<bool>, c: seq<bool>, rest: seq<bool>)
    requires p <= |input| && LeftOf(body, left, pad, trailer, zout, input[p..])
    ensures p + 4 < |input| && |b| == 1 && |c| == 2 && b + (c + rest) == BitsOf(input[p..])
    ensures LsbValue(b) == (if body.Fixed? || |left| <= STORED_MAX then 1 else 0)
    ensures LsbValue(c) == (if body.Fixed? then 1 else 0)
    ensures body.Fixed? ==> rest == TokensBits(body.tokens) + (LitWord(256) + (pad + BitsOf(trailer)))
    ensures |pad + BitsOf(trailer)| >= 32
  {
    if body.Fixed? {
      Pow2Values();
      LsbRoundTrip(1, 1);
      LsbRoundTrip(1, 2);
      b, c, rest := Lsb(1, 1), Lsb(1, 2), TokensBits(body.tokens) + (LitWord(256) + (pad + BitsOf(trailer)));
    } else {
      var n := StoredUnfold(input, p, left, trailer);
      StoredHeader(input, p, input[p]);
      b, c, rest := Lsb(input[p], 1), Lsb(0, 2), BitsOf(input[p..])[3..];
    }
  }

  lemma {:induction false} StoredNext(before: seq<nat>, left: seq<nat>, n: nat, data: seq<nat>, after: seq<nat>)
    requires n <= |left| && before + left == data && after == before + left[..n]
    ensures after + left[n..] == data && (n == |left| ==> after == data)
  {
    assert left == left[..n] + left[n..];
    Assoc(before, left[..n], left[n..]);
  }

  datatype Item = EndOfBlock | Tok(token: Token)

  predicate IsItem(item: Item) {
    item.Tok? ==> IsToken(item.token, 32767)
  }

  ghost function ItemBits(item: Item): seq<bool> {
    match item
    case EndOfBlock => LitWord(256)
    case Tok(t) => TokenBits(t)
  }

  /** The symbol of an item, and the bits behind it. */
  ghost function ItemSymbol(item: Item): nat {
    match item
    case EndOfBlock => 256
    case Tok(Literal(b)) => b
    case Tok(Match(len, _)) => 257 + LengthCode(len)
  }

  ghost function ItemTail(item: Item): seq<bool> {
    if item.Tok? && item.token.Match? && IsItem(item) then MatchTail(item.token.len, item.token.dist) else []
  }

  lemma {:induction false} ItemUnfold(item: Item, rest: seq<bool>)
    requires IsItem(item)
    ensures ItemSymbol(item) < 286 && (ItemSymbol(item) <= 256 <==> !(item.Tok? && item.token.Match?))
    ensures ItemSymbol(item) <= 256 ==> ItemTail(item) + rest == rest
    ensures ItemSymbol(item) > 256 ==> ItemTail(item) == MatchTail(item.token.len, item.token.dist)
    ensures ItemBits(item) + rest == LitWord(ItemSymbol(item)) + (ItemTail(item) + rest)
  {
    NoneBefore(rest);
    if item.Tok? && item.token.Match? {
      CodesInRange(item.token.len, item.token.dist);
      Assoc(LitWord(ItemSymbol(item)), ItemTail(item), rest);
    }
  }

  ghost function ItemAt(tokens: seq<Token>, k: nat): Item {
    if k < |tokens| then Tok(tokens[k]) else EndOfBlock
  }

  ghost function Behind(tokens: seq<Token>, k: nat, rest: seq<bool>): seq<bool> {
    if k < |tokens| then BlockTail(tokens, k + 1, rest) else rest
  }

  lemma {:induction false} ExpandOne(tokens: seq<Token>, k: nat)
    requires k < |tokens|
    ensures Expand(tokens[..k + 1]) == Apply(Expand(tokens[..k]), tokens[k])
  {
    assert tokens[..k + 1][..k] == tokens[..k];
  }

  /** The bits of a block from token k on. */
  ghost function BlockTail(tokens: seq<Token>, k: nat, rest: seq<bool>): seq<bool>
    requires k <= |tokens|
  {
    TokensBits(tokens[k..]) + (LitWord(256) + rest)
  }

  /** The inflater's own copies of the length and distance tables, padded. */
  const ZLENGTH_BASE: seq<nat> :=
    [3, 4, 5, 6, 7, 8, 9, 10, 11, 13, 15, 17, 19, 23, 27, 31, 35, 43, 51, 59, 67, 83, 99, 115, 131, 163, 195, 227, 258, 0, 0]

  const ZLENGTH_EXTRA: seq<nat> :=
    [0, 0, 0, 0, 0, 0, 0, 0, 1, 1, 1, 1, 2, 2, 2, 2, 3, 3, 3, 3, 4, 4, 4, 4, 5, 5, 5, 5, 0, 0, 0]

  const ZDIST_BASE: seq<nat> :=
    [1, 2, 3, 4, 5, 7, 9, 13, 17, 25, 33, 49, 65, 97, 129, 193, 257, 385, 513, 769, 1025, 1537, 2049, 3073, 4097, 6145,
     8193, 12289, 16385, 24577, 0, 0]

  const ZDIST_EXTRA: seq<nat> :=
    [0, 0, 0, 0, 1, 1, 2, 2, 3, 3, 4, 4, 5, 5, 6, 6, 7, 7, 8, 8, 9, 9, 10, 10, 11, 11, 12, 12, 13, 13, 0, 0]

  /** The bits of a back-reference behind its first symbol. */
  ghost function MatchTail(len: nat, dist: nat): seq<bool>
    requires 3 <= len <= 258 && 1 <= dist <= 32767
  {
    LengthBits(len) + (DistWord(DistCode(dist)) + DistBits(dist))
  }

  lemma {:induction false} TailUnfold(len: nat, dist: nat, rest: seq<bool>)
    requires 3 <= len <= 258 && 1 <= dist <= 32767
    ensures MatchTail(len, dist) + rest == LengthBits(len) + (DistWord(DistCode(dist)) + (DistBits(dist) + rest))
  {
    var a, w, d := LengthBits(len), DistWord(DistCode(dist)), DistBits(dist);
    Assoc(w, d, rest);
    Assoc(a, w + d, rest);
  }

  lemma {:induction false} BlockStart(tokens: seq<Token>, rest: seq<bool>)
    ensures BlockTail(tokens, 0, rest) == TokensBits(tokens) + (LitWord(256) + rest)
    ensures tokens[..0] == []
  {
    assert tokens[0..] == tokens;
  }

  /** The next item, and what comes behind it. */
  lemma {:induction false} BlockUnfold(tokens: seq<Token>, k: nat, rest: seq<bool>)
    requires k <= |tokens| && AreTokens(tokens)
    ensures IsItem(ItemAt(tokens, k)) && |Behind(tokens, k, rest)| >= |rest|
    ensures k < |tokens| ==> IsToken(tokens[k], |Expand(tokens[..k])|)
    ensures BlockTail(tokens, k, rest) == ItemBits(ItemAt(tokens, k)) + Behind(tokens, k, rest)
  {
    if k == |tokens| {
      NoneBefore(LitWord(256) + rest);
    } else {
      assert tokens[k..][1..] == tokens[k + 1..];
      assert IsToken(tokens[k], |Expand(tokens[..k])|);
      Assoc(TokenBits(tokens[k]), TokensBits(tokens[k + 1..]), LitWord(256) + rest);
    }
  }

  /** Moving a byte into the buffer keeps the stream; making one up extends it. */
  lemma {:induction false} GrowStep(avail: seq<bool>, input: seq<nat>, p: nat, q: nat, b: nat)
    requires p <= |input|
    requires if p < |input| then q == p + 1 && b == input[p] else q == p
    ensures avail + BitsOf(input[p..]) <= (avail + Lsb(b, 8)) + BitsOf(input[q..])
  {
    if p < |input| {
      BitsStep(input, p);
      Assoc(avail, Lsb(b, 8), BitsOf(input[q..]));
    } else {
      assert input[p..] == [];
    }
  }

  lemma {:induction false} HeaderBits(h: seq<nat>)
    requires |h| == 4
    ensures |BitsOf(h)| == 32 && BitsOf(h)[3..][5..] == BitsOf(h[1..])
  {
    assert BitsOf(h)[3..][5..] == BitsOf(h)[8..];
  }

  /** The first stored block of data, and what follows it. */
  lemma {:induction false} StoredUnfold(input: seq<nat>, p: nat, left: seq<nat>, trailer: seq<nat>) returns (n: nat)
    requires p <= |input| && left != [] && |trailer| == 4 && input[p..] == StoredBlocks(left) + trailer
    ensures n == if |left| <= STORED_MAX then |left| else STORED_MAX
    ensures p + 5 + n + 4 <= |input|
    ensures input[p] == if n == |left| then 1 else 0
    ensures 256 * input[p + 2] + input[p + 1] == n && 256 * input[p + 4] + input[p + 3] == 65535 - n
    ensures input[p + 5..p + 5 + n] == left[..n]
    ensures n < |left| ==> input[p + 5 + n..] == StoredBlocks(left[n..]) + trailer
  {
    n := if |left| <= STORED_MAX then |left| else STORED_MAX;
    var block := StoredBlock(left[..n], if n == |left| then 1 else 0);
    var more := if n == |left| then [] else StoredBlocks(left[n..]);
    assert left[..|left|] == left;
    Assoc(block, more, trailer);
    StoredFront(input, p, block, more + trailer);
    assert block[5..] == left[..n];
  }

  lemma {:induction false} StoredFront(input: seq<nat>, p: nat, block: seq<nat>, more: seq<nat>)
    requires p <= |input| && input[p..] == block + more && |block| >= 5
    ensures p + |block| <= |input| && input[p + |block|..] == more
    ensures forall i :: 0 <= i < 5 ==> input[p + i] == block[i]
    ensures input[p + 5..p + |block|] == block[5..]
  {
    var s := input[p..];
    assert input[p + |block|..] == s[|block|..];
    assert input[p + 5..p + |block|] == s[5..|block|];
    forall i | 0 <= i < 5 ensures input[p + i] == block[i] { assert input[p + i] == s[i]; }
  }

  lemma ThreeBits(final: nat)
    requires final <= 1
    ensures Lsb(final, 3) == Lsb(final, 1) + Lsb(0, 2)
    ensures LsbValue(Lsb(final, 1)) == final && LsbValue(Lsb(0, 2)) == 0
  {
    Pow2Values();
    LsbRoundTrip(final, 1);
    LsbRoundTrip(0, 2);
  }

  /** The header bits of a stored block: final or not, type 0. */
  lemma {:induction false} StoredHeader(input: seq<nat>, p: nat, final: nat)
    requires p < |input| && input[p] == final <= 1
    ensures Lsb(final, 1) + (Lsb(0, 2) + BitsOf(input[p..])[3..]) == BitsOf(input[p..])
    ensures LsbValue(Lsb(final, 1)) == final && LsbValue(Lsb(0, 2)) == 0
  {
    BitsStep(input, p);
    ThreeBits(final);
    FirstBitsOf(final, 8, 3, BitsOf(input[p + 1..]));
    Assoc(Lsb(final, 1), Lsb(0, 2), BitsOf(input[p..])[3..]);
  }

  lemma {:induction false} FirstBitsOf(v: nat, n: nat, k: nat, more: seq<bool>)
    requires k <= n
    ensures Lsb(v, k) + (Lsb(v, n) + more)[k..] == Lsb(v, n) + more
  {
    LsbPrefix(v, n, k);
    var s := Lsb(v, n) + more;
    assert s[..k] == Lsb(v, n)[..k];
    assert s == s[..k] + s[k..];
  }
}
