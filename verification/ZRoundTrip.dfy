/** Compressing and inflating gives the data back. */
module ZRoundTrip {
  import opened LsbBits
  import opened Adler
  import opened ZCompress
  import opened ZInflate

  /** For every non-empty data and every quality, the inflater accepts what the compressor
      writes and gives the data back. */
  method RoundTrip(data: seq<nat>, quality: int) returns (ok: bool, result: seq<nat>)
    requires data != [] && IsBytes(data)
    ensures ok && result == data
  {
    var out;
    ghost var body, pad;
    out, body, pad := Compress(data, quality);
    var a := new Zbuf(out);
    ok := a.ParseZlib(body, pad, AdlerBytes(data));
    result := a.zout;
  }
}
