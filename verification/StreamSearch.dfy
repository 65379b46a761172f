/** Searching a stream for several patterns at once. Each pattern remembers how much of it the
    bytes consumed so far end with; on a mismatch it falls back to the longest border. */
module StreamSearch {

  /** A search pattern: its bytes, or a null pointer with a length. */
  datatype Pattern = Null(len: nat) | Text(bytes: seq<int>)

  function Length(p: Pattern): nat {
    match p
    case Null(len) => len
    case Text(bytes) => |bytes|
  }

  predicate EndsWith(t: seq<int>, u: seq<int>) {
    |u| <= |t| && t[|t| - |u|..] == u
  }

  /** k is the length of the longest prefix of p that t ends with. */
  ghost predicate Longest(p: seq<int>, t: seq<int>, k: nat) {
    && k <= |p| && EndsWith(t, p[..k])
    && forall m :: k < m <= |p| ==> !EndsWith(t, p[..m])
  }

  /** A longer text ends with a longer prefix by its last byte. */
  lemma {:induction false} EndsWithNext(p: seq<int>, t: seq<int>, v: int, m: nat)
    requires 0 < m <= |p|
    ensures EndsWith(t + [v], p[..m]) <==> EndsWith(t, p[..m - 1]) && p[m - 1] == v
  {
    var s := t + [v];
    assert p[..m] == p[..m - 1] + [p[m - 1]];
    if EndsWith(s, p[..m]) {
      assert s[|s| - m..][..m - 1] == p[..m - 1];
      assert t[|t| - (m - 1)..] == s[|s| - m..][..m - 1];
      assert s[|s| - m..][m - 1] == v;
    }
    if EndsWith(t, p[..m - 1]) && p[m - 1] == v {
      assert s[|s| - m..] == t[|t| - (m - 1)..] + [v];
    }
  }

  /** Within a suffix, shorter suffixes are the same. */
  lemma {:induction false} EndsWithin(t: seq<int>, u: seq<int>, w: seq<int>)
    requires EndsWith(t, u) && |w| <= |u|
    ensures EndsWith(t, w) <==> EndsWith(u, w)
  {
    assert t[|t| - |w|..] == t[|t| - |u|..][|u| - |w|..];
  }

  /** The longest border of the first k bytes: the longest shorter prefix that they end with. */
  method LongestBorder(p: seq<int>, k: nat) returns (prefix: nat)
    requires 0 < k <= |p|
    ensures prefix < k && EndsWith(p[..k], p[..prefix])
    ensures forall m :: prefix < m < k ==> !EndsWith(p[..k], p[..m])
  {
    prefix := k - 1;
    while prefix > 0 && p[..prefix] != p[k - prefix..k]
      invariant 0 <= prefix < k
      invariant forall m :: prefix < m < k ==> !EndsWith(p[..k], p[..m])
    {
      assert p[..k][k - prefix..] == p[k - prefix..k];
      prefix := prefix - 1;
    }
    assert p[..k][k - prefix..] == p[k - prefix..k];
  }

  /** Takes in one byte: the new longest prefix. */
  method Advance(p: seq<int>, index: nat, value: int, ghost t: seq<int>) returns (k: nat)
    requires index < |p| && Longest(p, t, index)
    ensures Longest(p, t + [value], k)
  {
    k := index;
    while k > 0 && p[k] != value
      invariant k < |p| && EndsWith(t, p[..k])
      invariant forall m :: k < m < |p| && EndsWith(t, p[..m]) ==> p[m] != value
    {
      var prefix := LongestBorder(p, k);
      FallBack(p, t, k, prefix, value);
      k := prefix;
    }
    ghost var was := k;
    if p[k] == value {
      k := k + 1;
    }
    forall m: nat | 0 < m <= |p| ensures EndsWith(t + [value], p[..m]) <==> EndsWith(t, p[..m - 1]) && p[m - 1] == value {
      EndsWithNext(p, t, value, m);
    }
    forall m: nat | k < m <= |p| ensures !EndsWith(t + [value], p[..m]) {
      assert m - 1 > was ==> (EndsWith(t, p[..m - 1]) ==> p[m - 1] != value);
    }
  }

  lemma {:induction false} FallBack(p: seq<int>, t: seq<int>, k: nat, prefix: nat, value: int)
    requires prefix < k < |p| && EndsWith(t, p[..k]) && p[k] != value
    requires EndsWith(p[..k], p[..prefix]) && forall m :: prefix < m < k ==> !EndsWith(p[..k], p[..m])
    requires forall m :: k < m < |p| && EndsWith(t, p[..m]) ==> p[m] != value
    ensures EndsWith(t, p[..prefix])
    ensures forall m :: prefix < m < |p| && EndsWith(t, p[..m]) ==> p[m] != value
  {
    forall m: nat | m <= k ensures EndsWith(t, p[..m]) <==> EndsWith(p[..k], p[..m]) {
      EndsWithin(t, p[..k], p[..m]);
    }
  }

  // ---------- several patterns ----------

  /** All patterns can be searched for. */
  predicate Searchable(patterns: seq<Pattern>) {
    forall i :: 0 <= i < |patterns| ==> patterns[i].Text? && patterns[i].bytes != []
  }

  /** The first pattern that is empty or null decides at once. */
  predicate Degenerate(patterns: seq<Pattern>, i: nat) {
    i < |patterns| && Searchable(patterns[..i]) && (Length(patterns[i]) == 0 || patterns[i].Null?)
  }

  /** The text ends with pattern i. */
  ghost predicate Hits(patterns: seq<Pattern>, i: nat, t: seq<int>) {
    i < |patterns| && patterns[i].Text? && EndsWith(t, patterns[i].bytes)
  }

  /** No pattern occurs in the text. */
  ghost predicate NoHit(patterns: seq<Pattern>, t: seq<int>) {
    forall i: nat, m: nat :: m <= |t| ==> !Hits(patterns, i, t[..m])
  }

  /** Pattern i has taken in the text and has not been hit. */
  ghost predicate Tracks(p: Pattern, t: seq<int>, k: nat) {
    p.Text? && k < |p.bytes| && Longest(p.bytes, t, k)
  }

  /** Searches the input, as far as it comes in time, and tells how much was consumed. An
      empty pattern is found at once and a null one not at all. Otherwise the result is the
      least pattern that the shortest part of the input with any pattern at its end ends with,
      consumed is that part, and -1 means that no pattern occurs in all of the input. */
  method FindMulti(patterns: seq<Pattern>, input: seq<int>) returns (result: int, consumed: nat)
    ensures forall i: nat :: Degenerate(patterns, i) ==>
      consumed == 0 && result == if Length(patterns[i]) == 0 then i else -1
    ensures patterns == [] ==> result == -1 && consumed == 0
    ensures Searchable(patterns) && patterns != [] ==>
      && consumed <= |input|
      && (result < 0 ==> result == -1 && consumed == |input| && NoHit(patterns, input))
      && (result >= 0 ==>
            && consumed > 0 && Hits(patterns, result, input[..consumed])
            && (forall i: nat :: i < result ==> !Hits(patterns, i, input[..consumed]))
            && NoHit(patterns, input[..consumed - 1]))
  {
    result, consumed := -1, 0;
    if patterns == [] {
      return;
    }
    var i := FirstDegenerate(patterns);
    if i < |patterns| {
      OneDegenerate(patterns, i);
      return if Length(patterns[i]) == 0 then i else -1, 0;
    }
    var index := new nat[|patterns|](_ => 0);
    assert input[..0] == [];
    NothingConsumed(patterns, index[..]);
    while consumed < |input|
      invariant 0 <= consumed <= |input|
      invariant AllTrack(patterns, input[..consumed], index[..])
      invariant NoHit(patterns, input[..consumed])
    {
      ghost var t := input[..consumed];
      i := TakeByte(patterns, index, input[consumed], t);
      assert input[..consumed + 1] == t + [input[consumed]];
      if i < |patterns| {
        return i, consumed + 1;
      }
      NoHitNext(patterns, t, input[consumed]);
      consumed := consumed + 1;
    }
    assert input[..consumed] == input;
  }

  /** The first pattern that is empty or null. */
  method FirstDegenerate(patterns: seq<Pattern>) returns (i: nat)
    ensures i <= |patterns| && (if i < |patterns| then Degenerate(patterns, i) else Searchable(patterns))
  {
    i := 0;
    while i < |patterns| && Length(patterns[i]) != 0 && !patterns[i].Null?
      invariant 0 <= i <= |patterns| && Searchable(patterns[..i])
    {
      i := i + 1;
    }
    assert patterns[..|patterns|] == patterns;
  }

  ghost predicate AllTrack(patterns: seq<Pattern>, t: seq<int>, index: seq<nat>) {
    |index| == |patterns| && forall j :: 0 <= j < |patterns| ==> Tracks(patterns[j], t, index[j])
  }

  /** Gives one byte to the patterns in turn, up to the first one that is complete. */
  method TakeByte(patterns: seq<Pattern>, index: array<nat>, value: int, ghost t: seq<int>) returns (i: nat)
    requires AllTrack(patterns, t, index[..])
    modifies index
    ensures i <= |patterns| && forall j: nat :: j < i ==> !Hits(patterns, j, t + [value])
    ensures if i < |patterns| then Hits(patterns, i, t + [value]) else AllTrack(patterns, t + [value], index[..])
  {
    i := 0;
    while i < |patterns|
      invariant 0 <= i <= |patterns| && Partly(patterns, t, t + [value], index[..], i)
    {
      ghost var was := index[..];
      index[i] := Advance(patterns[i].bytes, index[i], value, t);
      assert index[..] == was[i := index[i]];
      PartlyNext(patterns, t, t + [value], was, i, index[i]);
      if index[i] == |patterns[i].bytes| {
        return;
      }
      i := i + 1;
    }
  }

  /** The patterns before i have taken in the longer text, the others the shorter one. */
  ghost predicate Partly(patterns: seq<Pattern>, t: seq<int>, longer: seq<int>, index: seq<nat>, i: nat) {
    && |index| == |patterns|
    && forall j: nat :: j < |patterns| ==>
         if j < i then Tracks(patterns[j], longer, index[j]) && !Hits(patterns, j, longer) else Tracks(patterns[j], t, index[j])
  }

  lemma {:induction false} PartlyNext(patterns: seq<Pattern>, t: seq<int>, longer: seq<int>, index: seq<nat>, i: nat, k: nat)
    requires i < |patterns| && Partly(patterns, t, longer, index, i) && Longest(patterns[i].bytes, longer, k)
    requires patterns[i].Text?
    ensures if k == |patterns[i].bytes| then Hits(patterns, i, longer) else Partly(patterns, t, longer, index[i := k], i + 1)
  {
    Complete(patterns, i, longer, k);
  }

  /** A pattern is at the end of the text exactly when all of it is its longest prefix there. */
  lemma {:induction false} Complete(patterns: seq<Pattern>, i: nat, t: seq<int>, k: nat)
    requires i < |patterns| && patterns[i].Text? && Longest(patterns[i].bytes, t, k)
    ensures k == |patterns[i].bytes| <==> Hits(patterns, i, t)
    ensures k < |patterns[i].bytes| ==> Tracks(patterns[i], t, k)
  {
    assert patterns[i].bytes[..|patterns[i].bytes|] == patterns[i].bytes;
  }

  lemma {:induction false} OneDegenerate(patterns: seq<Pattern>, i: nat)
    requires Degenerate(patterns, i)
    ensures !Searchable(patterns) && forall j: nat :: Degenerate(patterns, j) ==> j == i
  {
    forall j: nat | j < i ensures !Degenerate(patterns, j) {
      assert patterns[..i][j] == patterns[j];
    }
    forall j: nat | i < j < |patterns| ensures !Degenerate(patterns, j) {
      assert patterns[..j][i] == patterns[i];
    }
  }

  lemma {:induction false} NothingConsumed(patterns: seq<Pattern>, index: seq<nat>)
    requires Searchable(patterns) && |index| == |patterns| && forall j :: 0 <= j < |index| ==> index[j] == 0
    ensures NoHit(patterns, []) && AllTrack(patterns, [], index)
  {
    forall j | 0 <= j < |patterns| ensures Tracks(patterns[j], [], index[j]) {
      assert patterns[j].bytes[..0] == [];
    }
  }

  lemma {:induction false} NoHitNext(patterns: seq<Pattern>, t: seq<int>, value: int)
    requires NoHit(patterns, t) && forall j: nat :: j < |patterns| ==> !Hits(patterns, j, t + [value])
    ensures NoHit(patterns, t + [value])
  {
    forall i: nat, m: nat | m <= |t| + 1 ensures !Hits(patterns, i, (t + [value])[..m]) {
      if m <= |t| {
        assert (t + [value])[..m] == t[..m];
      } else {
        assert (t + [value])[..m] == t + [value];
      }
    }
  }

  /** Searches for a pattern up to a stop pattern, if there is one that is not empty. */
  method FindUntil(pattern: Pattern, stop: Pattern, input: seq<int>) returns (found: bool, consumed: nat)
    ensures pattern.Null? || (stop.Null? && stop.len > 0) ==> !found && consumed == 0
    ensures pattern == Text([]) && !(stop.Null? && stop.len > 0) ==> found && consumed == 0
    ensures pattern.Text? && pattern.bytes != [] && Length(stop) == 0 ==>
      && consumed <= |input|
      && (if found then consumed > 0 && EndsWith(input[..consumed], pattern.bytes) && NoHit([pattern], input[..consumed - 1])
          else consumed == |input| && NoHit([pattern], input))
    ensures pattern.Text? && pattern.bytes != [] && stop.Text? && stop.bytes != [] ==>
      && consumed <= |input|
      && (found ==> consumed > 0 && EndsWith(input[..consumed], pattern.bytes) && NoHit([pattern, stop], input[..consumed - 1]))
      && (!found ==>
            || (consumed == |input| && NoHit([pattern, stop], input))
            || (consumed > 0 && EndsWith(input[..consumed], stop.bytes) && !EndsWith(input[..consumed], pattern.bytes)
                && NoHit([pattern, stop], input[..consumed - 1])))
  {
    if pattern.Null? || (stop.Null? && stop.len > 0) {
      return false, 0;
    }
    var patterns := if Length(stop) > 0 then [pattern, stop] else [pattern];
    var result;
    result, consumed := FindMulti(patterns, input);
    found := result == 0;
    if pattern.bytes == [] {
      assert patterns[..0] == [];
      assert Degenerate(patterns, 0);
    } else {
      assert Searchable(patterns);
      if result == 0 { assert Hits(patterns, 0, input[..consumed]); }
      if result == 1 {
        assert Hits(patterns, 1, input[..consumed]) && !Hits(patterns, 0, input[..consumed]);
      }
    }
  }
}
