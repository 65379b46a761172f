/** An encoder table beside the code counts and symbol list written for it: when it is the
    canonical code of those lists, the decoder's table reads it back. */
module JpegCoding {
  import opened Bits
  import opened Canonical
  import opened JpegHuffman
  import opened JpegEncoder
  import opened JpegDecoder

  /** The code is the k-th canonical one. */
  predicate Placed(count: seq<nat>, k: nat, c: Code) {
    && |count| == 16 && 1 <= c.len <= 16
    && Total(count, c.len - 1) <= k < Total(count, c.len)
    && c.bits == 2 * CodeAfter(count, c.len - 1) + (k - Total(count, c.len - 1))
  }

  predicate PlacedAt(count: seq<nat>, values: seq<int>, ht: seq<Code>, k: nat) {
    k < |values| && 0 <= values[k] < |ht| && Placed(count, k, ht[values[k]])
  }

  lemma {:induction false} PlacedCode(count: seq<nat>, k: nat, c: Code)
    requires Placed(count, k, c)
    ensures k < Total(count, 16) && c == Code(CodeAt(count, k), SizeAt(count, k))
  {
    SizeUnique(count, k, c.len);
  }

  /** An encoder table that is the canonical code of the lists: every listed symbol has its
      canonical code, and no other symbol has one. */
  ghost predicate GoodTable(count: seq<nat>, values: seq<int>, ht: seq<Code>) {
    && Accepted(count) && |values| == 256 && Bytes(values)
    && Total(count, FAST_BITS) < 256
    && (forall k: nat :: k < Total(count, 16) ==> PlacedAt(count, values, ht, k))
    && (forall sym :: 0 <= sym < |ht| && ht[sym].len > 0 ==> exists k: nat :: k < Total(count, 16) && values[k] == sym)
    && (forall sym :: 0 <= sym < |ht| && ht[sym].len == 0 ==> ht[sym].bits == 0)
  }

  lemma {:induction false} GoodCode(count: seq<nat>, values: seq<int>, ht: seq<Code>, sym: nat)
    requires GoodTable(count, values, ht) && sym < |ht|
    ensures Fits(ht[sym])
    ensures ht[sym].len > 0 ==> Defines(count, values, sym, CodeBits(ht[sym]))
  {
    Pow2Values();
    if ht[sym].len > 0 {
      var k0: nat :| k0 < Total(count, 16) && values[k0] == sym;
      FindInFinds(values, Total(count, 16), sym, k0);
      var k := FindIn(values, Total(count, 16), sym);
      assert PlacedAt(count, values, ht, k);
      PlacedCode(count, k, ht[sym]);
      CodeAfterFits(count, ht[sym].len);
    }
  }

  /** What a good table is good for: the encoder can write its codes, and a decoder built
      from the lists decodes them. */
  lemma {:induction false} GoodTables(count: seq<nat>, values: seq<int>, ht: seq<Code>, h: Huffman)
    requires GoodTable(count, values, ht) && Built(h, count) && h.values == values
    ensures IsTable(ht, |ht|) && Decodes(h, Coding(count, values, BookOf(ht)))
  {
    forall sym: nat | sym < |ht| ensures Fits(ht[sym]) {
      GoodCode(count, values, ht, sym);
    }
    var book := BookOf(ht);
    forall sym: nat | sym < |book| && book[sym] != [] ensures Defines(count, values, sym, book[sym]) {
      GoodCode(count, values, ht, sym);
    }
  }

  lemma {:induction false} FindInFinds(values: seq<int>, n: nat, x: int, k: nat)
    requires k < n <= |values| && values[k] == x
    ensures FindIn(values, n, x) < n
  {
    if k < n - 1 { FindInFinds(values, n - 1, x, k); }
  }
}
