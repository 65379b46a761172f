/** Finding a character in a text, and splitting and joining texts at one. */
module Texts {
  /** Where the first c is; the length of s if there is none. */
  function Find(s: string, c: char): (n: nat)
    ensures n <= |s| && (n < |s| ==> s[n] == c) && forall i :: 0 <= i < n ==> s[i] != c
  {
    if s == [] || s[0] == c then 0 else 1 + Find(s[1..], c)
  }

  function Before(s: string, c: char): string {
    s[..Find(s, c)]
  }

  /** What follows the first c; empty if there is none. */
  function After(s: string, c: char): string {
    if Find(s, c) < |s| then s[Find(s, c) + 1..] else []
  }

  function Split(s: string, c: char): (parts: seq<string>)
    ensures parts != []
    decreases |s|
  {
    var n := Find(s, c);
    if n == |s| then [s] else [s[..n]] + Split(s[n + 1..], c)
  }

  lemma {:induction false} SplitInside(s: string, c: char)
    ensures forall part <- Split(s, c) :: forall x <- part :: x in s
    decreases |s|
  {
    var n := Find(s, c);
    if n < |s| { SplitInside(s[n + 1..], c); }
  }

  lemma {:induction false} FindBehind(a: string, b: string, c: char)
    requires c !in a && b != [] && b[0] == c
    ensures Find(a + b, c) == |a| && Before(a + b, c) == a && After(a + b, c) == b[1..]
  {
    forall i | 0 <= i < |a| ensures (a + b)[i] != c {
      assert (a + b)[i] == a[i];
    }
    assert (a + b)[|a|] == c;
    assert (a + b)[..|a|] == a && (a + b)[|a| + 1..] == b[1..];
  }

  lemma FindNone(a: string, c: char)
    requires c !in a
    ensures Find(a, c) == |a| && Before(a, c) == a && After(a, c) == []
  {
  }

  /** Parts with a character between them. */
  function Joined(parts: seq<string>, c: char): string {
    if parts == [] then []
    else if |parts| == 1 then parts[0]
    else parts[0] + ([c] + Joined(parts[1..], c))
  }

  /** Splitting gives the parts that were joined. */
  lemma {:induction false} SplitJoined(parts: seq<string>, c: char)
    requires parts != [] && forall i :: 0 <= i < |parts| ==> c !in parts[i]
    ensures Split(Joined(parts, c), c) == parts
    decreases |parts|
  {
    if |parts| == 1 {
      FindNone(parts[0], c);
    } else {
      var rest := parts[1..];
      SplitJoined(rest, c);
      SplitFirst(parts[0], Joined(rest, c), c);
      assert parts == [parts[0]] + rest;
    }
  }

  lemma {:induction false} SplitFirst(part: string, rest: string, c: char)
    requires c !in part
    ensures Split(part + ([c] + rest), c) == [part] + Split(rest, c)
  {
    var s := part + ([c] + rest);
    FindBehind(part, [c] + rest, c);
    assert s[..|part|] == part && s[|part| + 1..] == rest;
  }

  lemma {:induction false} JoinedFree(parts: seq<string>, c: char, x: char)
    requires x != c && forall i :: 0 <= i < |parts| ==> x !in parts[i]
    ensures x !in Joined(parts, c)
    decreases |parts|
  {
    if |parts| > 1 { JoinedFree(parts[1..], c, x); }
  }
}
