/** Integers as text in any radix, and the parser that reads decimal text back, saturating at
    the range of a long. */
module IntegerText {
  import opened Arithmetic
  import opened Bits

  // ---------- digits ----------

  const ZERO: int := 48
  const MINUS: int := 45

  /** The character of a digit: 0 to 9, then A to Z. */
  function Digit(d: nat): int {
    if d < 10 then 48 + d else 65 + d - 10
  }

  function DigitValue(c: int): int {
    if c < 65 then c - 48 else c - 65 + 10
  }

  /** The number that digits denote. */
  function Denotes(text: seq<int>, radix: nat): int {
    if text == [] then 0 else radix * Denotes(text[..|text| - 1], radix) + DigitValue(text[|text| - 1])
  }

  /** The shortest text of a number. */
  function Text(m: nat, radix: nat): seq<int>
    requires radix >= 2
    decreases m
  {
    if m < radix then [Digit(m)] else Text(m / radix, radix) + [Digit(m % radix)]
  }

  /** The text denotes the number. */
  lemma {:induction false} TextDenotes(m: nat, radix: nat)
    requires 2 <= radix <= 36
    ensures Denotes(Text(m, radix), radix) == m
    decreases m
  {
    if m < radix {
      assert Text(m, radix)[..0] == [];
    } else {
      TextDenotes(m / radix, radix);
      assert Text(m, radix)[..|Text(m, radix)| - 1] == Text(m / radix, radix);
      Recompose(m, radix);
    }
  }

  lemma Recompose(m: nat, radix: nat)
    requires radix > 0
    ensures radix * (m / radix) + m % radix == m
  {
  }

  /** No leading zero, and every character a digit of the radix. */
  lemma {:induction false} TextCanonical(m: nat, radix: nat)
    requires 2 <= radix <= 36
    ensures Text(m, radix) != [] && (m > 0 ==> Text(m, radix)[0] != ZERO)
    ensures forall i :: 0 <= i < |Text(m, radix)| ==> IsDigitOf(Text(m, radix)[i], radix)
    decreases m
  {
    if m < radix {
      DigitOf(m, radix);
    } else {
      Shrinks(m, radix);
      TextCanonical(m / radix, radix);
      DigitOf(m % radix, radix);
    }
  }

  predicate IsDigitOf(c: int, radix: nat) {
    exists d: nat :: d < radix && c == Digit(d)
  }

  lemma {:induction false} DigitOf(d: nat, radix: nat)
    requires d < radix
    ensures IsDigitOf(Digit(d), radix)
  {
  }

  lemma Shrinks(m: nat, radix: nat)
    requires 2 <= radix <= m
    ensures 0 < m / radix <= m / 2
  {
    assert radix * (m / radix) <= m;
    assert m / radix >= 1;
    assert (radix - 2) * (m / radix) >= 0;
  }

  const DIGITS: string := "0123456789ABCDEFGHIJKLMNOPQRSTUVWXYZ"

  function Power(radix: nat, k: nat): nat {
    if k == 0 then 1 else radix * Power(radix, k - 1)
  }

  lemma {:induction false} PowerPositive(radix: nat, k: nat)
    requires radix > 0
    ensures Power(radix, k) > 0
  {
    if k > 0 { PowerPositive(radix, k - 1); }
  }

  /** The character at each place: the digit that the number has there, from the most
      significant on; the first is not zero unless the number is. */
  lemma {:induction false} TextPlaces(m: nat, radix: nat, i: nat)
    requires 2 <= radix <= 36 && i < |Text(m, radix)|
    ensures var power := Power(radix, |Text(m, radix)| - 1 - i);
      power > 0 && m / power % radix < |DIGITS| && Text(m, radix)[i] == DIGITS[m / power % radix] as int
    decreases m
  {
    var text, d := Text(m, radix), m % radix;
    if i == |text| - 1 {
      LastDigit(m, radix);
      DigitListed(d);
    } else {
      Shrinks(m, radix);
      var q, k := m / radix, |text| - 2 - i;
      TextPlaces(q, radix, i);
      PowerPositive(radix, k);
      QuotientOfQuotient(m, radix, Power(radix, k));
    }
  }

  lemma DigitListed(d: nat)
    requires d < 36
    ensures Digit(d) == DIGITS[d] as int
  {
  }

  /** A number of k bits has at most k digits. */
  lemma {:induction false} TextLength(m: nat, radix: nat, k: nat)
    requires 2 <= radix && m < Pow2(k) && k > 0
    ensures |Text(m, radix)| <= k
  {
    if m >= radix {
      Shrinks(m, radix);
      if k == 1 { assert false; }
      TextLength(m / radix, radix, k - 1);
    }
  }

  // ---------- writing ----------

  /** The range of an integer type of that many bits. */
  predicate InRange(bits: nat, signed: bool, value: int)
    requires bits > 0
  {
    if signed then 0 - Pow2(bits - 1) <= value < Pow2(bits - 1) else 0 <= value < Pow2(bits)
  }

  /** The value in the unsigned type of the same width. */
  function AsUnsigned(bits: nat, value: int): int {
    if value < 0 then value + Pow2(bits) else value
  }

  function RadixOf(radix: nat): nat {
    if radix < 2 || radix > 36 then 10 else radix
  }

  /** The text that is written: a sign only for negative numbers in radix 10; in any other
      radix a negative number is written as its bits. */
  function Written(bits: nat, signed: bool, value: int, radix: nat): seq<int>
    requires bits > 0 && InRange(bits, signed, value)
  {
    PowerStep(bits);
    var r := RadixOf(radix);
    if signed && value < 0 && r == 10 then [MINUS] + Text(-value, r) else Text(AsUnsigned(bits, value), r)
  }

  lemma {:induction false} PowerStep(bits: nat)
    requires bits > 0
    ensures Pow2(bits) == 2 * Pow2(bits - 1) && Pow2(bits - 1) >= 1
  {
    Pow2Positive(bits - 1);
  }

  /** What is written denotes the value in decimal, with its sign, and in any other radix the
      value modulo the size of its type; a radix out of range is ten. */
  lemma {:induction false} WrittenDenotes(bits: nat, signed: bool, value: int, radix: nat)
    requires bits > 0 && InRange(bits, signed, value)
    ensures var text := Written(bits, signed, value, radix);
      if value >= 0 then Denotes(text, if 2 <= radix <= 36 then radix else 10) == value
      else if radix == 10 || radix < 2 || radix > 36 then
        text != [] && text[0] == 45 && Denotes(text[1..], 10) == -value
      else Denotes(text, radix) == value + Pow2(bits)
  {
    PowerStep(bits);
    var r := RadixOf(radix);
    TextDenotes(if value >= 0 then value else if r == 10 then -value else value + Pow2(bits), r);
    if value < 0 && r == 10 { assert Written(bits, signed, value, radix)[1..] == Text(-value, r); }
  }

  /** Writes the text of an integer of at most 64 bits, which fits the 66 bytes that the caller
      supplies with its terminator. */
  method WriteInteger(output: array<int>, bits: nat, signed: bool, value: int, radix0: nat) returns (length: nat)
    requires output.Length >= 66 && 0 < bits <= 64 && InRange(bits, signed, value)
    modifies output
    ensures length < 66 && output[length] == 0 && output[..length] == Written(bits, signed, value, radix0)
  {
    PowerStep(bits);
    var radix := radix0;
    if radix < 2 || radix > 36 {
      radix := 10;
    }
    var negative := signed && value < 0 && radix == 10;
    var magnitude := if value < 0 then value + Pow2(bits) else value;
    if negative {
      magnitude := Pow2(bits) - magnitude;
    }
    ghost var all := Text(magnitude, radix);
    TextLength(magnitude, radix, bits);
    var reversed := new int[bits];
    var count := Collect(reversed, magnitude, radix);
    length := 0;
    if negative {
      output[length] := MINUS;
      length := length + 1;
    }
    ghost var sign := output[..length];
    length := CopyReversed(output, length, reversed, count, all);
    output[length] := 0;
    assert output[..length] == sign + all;
    if !negative { assert sign + all == all; }
  }

  /** Collects the digits, least significant first. */
  method Collect(reversed: array<int>, magnitude0: nat, radix: nat) returns (count: nat)
    requires 2 <= radix && |Text(magnitude0, radix)| <= reversed.Length
    modifies reversed
    ensures count == |Text(magnitude0, radix)|
    ensures forall i :: 0 <= i < count ==> reversed[i] == Text(magnitude0, radix)[count - 1 - i]
  {
    ghost var all := Text(magnitude0, radix);
    var magnitude: nat := magnitude0;
    count := 0;
    var more := true;
    while more
      invariant 0 <= count <= |all|
      invariant more ==> Text(magnitude, radix) == all[..|all| - count]
      invariant !more ==> count == |all|
      invariant forall i :: 0 <= i < count ==> reversed[i] == all[|all| - 1 - i]
      decreases more, magnitude
    {
      ghost var text := Text(magnitude, radix);
      assert text[|text| - 1] == Digit(magnitude % radix) by { LastDigit(magnitude, radix); }
      assert |text| == |all| - count && text[|text| - 1] == all[|all| - 1 - count];
      reversed[count] := Digit(magnitude % radix);
      count := count + 1;
      LastDigit(magnitude, radix);
      magnitude := magnitude / radix;
      more := magnitude != 0;
    }
  }

  lemma {:induction false} LastDigit(m: nat, radix: nat)
    requires 2 <= radix
    ensures Text(m, radix) != [] && Text(m, radix)[|Text(m, radix)| - 1] == Digit(m % radix)
    ensures m / radix != 0 ==> Text(m / radix, radix) == Text(m, radix)[..|Text(m, radix)| - 1] && m / radix < m
    ensures m / radix == 0 ==> |Text(m, radix)| == 1
  {
    if m >= radix {
      Shrinks(m, radix);
    } else {
      Small(m, radix);
    }
  }

  lemma Small(m: nat, radix: nat)
    requires m < radix
    ensures m / radix == 0 && m % radix == m
  {
  }

  /** Appends the digits in reverse. */
  method CopyReversed(output: array<int>, at: nat, reversed: array<int>, count0: nat, ghost all: seq<int>) returns (length: nat)
    requires count0 == |all| <= reversed.Length && at + count0 <= output.Length && output != reversed
    requires forall i :: 0 <= i < count0 ==> reversed[i] == all[count0 - 1 - i]
    modifies output
    ensures length == at + count0 && output[..length] == old(output[..at]) + all
  {
    length := at;
    var count := count0;
    while count > 0
      invariant 0 <= count <= count0 && length + count == at + count0
      invariant output[..length] == old(output[..at]) + all[..count0 - count]
    {
      count := count - 1;
      output[length] := reversed[count];
      length := length + 1;
    }
    assert all[..count0] == all;
  }

  // ---------- parsing ----------

  const LONG_MAX: int := 0x7fff_ffff_ffff_ffff
  const LONG_MIN: int := -0x8000_0000_0000_0000

  datatype Lookahead = SkipAll | SkipNone | SkipWhitespace

  predicate IsDigit(c: int) {
    48 <= c <= 57
  }

  predicate IsSpace(c: int) {
    c == 32 || 9 <= c <= 13
  }

  predicate Starts(c: int) {
    IsDigit(c) || c == MINUS
  }

  predicate MaySkip(mode: Lookahead, c: int) {
    match mode
    case SkipAll => true
    case SkipNone => false
    case SkipWhitespace => IsSpace(c)
  }

  /** How many characters are skipped before a number may start. */
  function Skipped(input: seq<int>, mode: Lookahead): (n: nat)
    ensures n <= |input|
  {
    if input == [] || Starts(input[0]) || !MaySkip(mode, input[0]) then 0 else 1 + Skipped(input[1..], mode)
  }

  /** How many characters belong to the digits of a number: digits and ignored characters. */
  function DigitRun(input: seq<int>, ignore: int): (n: nat)
    ensures n <= |input|
  {
    if input != [] && (IsDigit(input[0]) || input[0] == ignore) then 1 + DigitRun(input[1..], ignore) else 0
  }

  /** The number that the digits among the characters denote. */
  function Number(chars: seq<int>): nat {
    if chars == [] then 0
    else
      var front, last := Number(chars[..|chars| - 1]), chars[|chars| - 1];
      if IsDigit(last) then 10 * front + (last - 48) else front
  }

  function Clamp(v: int): int {
    if v > LONG_MAX then LONG_MAX else if v < LONG_MIN then LONG_MIN else v
  }

  /** The value that parsing gives, and how many characters it consumes. */
  function Parsed(input: seq<int>, mode: Lookahead, ignore: int): (r: (int, nat)) {
    var n := Skipped(input, mode);
    if n == |input| || !Starts(input[n]) then (0, n)
    else
      var start := if input[n] == MINUS then n + 1 else n;
      var run := DigitRun(input[start..], ignore);
      var v := Number(input[start..start + run]);
      (Clamp(if input[n] == MINUS then 0 - v else v), start + run)
  }

  /** Text that arrives one character at a time; -1 when none comes in time. */
  class Stream {
    const input: seq<int>
    var pos: nat

    ghost predicate Valid()
      reads this
    {
      pos <= |input| && forall i :: 0 <= i < |input| ==> 0 <= input[i] < 256
    }

    ghost function Left(): seq<int>
      requires pos <= |input|
      reads this
    {
      input[pos..]
    }

    constructor (input: seq<int>)
      requires forall i :: 0 <= i < |input| ==> 0 <= input[i] < 256
      ensures Valid() && this.input == input && pos == 0
    {
      this.input, pos := input, 0;
    }

    function Peek(): (c: int)
      requires Valid()
      reads this
      ensures c == if Left() == [] then -1 else Left()[0]
    {
      if pos == |input| then -1 else input[pos]
    }

    method Read()
      requires Valid() && pos < |input|
      modifies this
      ensures Valid() && pos == old(pos) + 1 && Left() == old(Left())[1..]
    {
      pos := pos + 1;
    }

    /** Skips what may be skipped; the character that starts a number, or -1. */
    method PeekNextDigit(mode: Lookahead) returns (value: int)
      requires Valid()
      modifies this
      ensures Valid() && pos == old(pos) + Skipped(old(Left()), mode)
      ensures value == if Left() != [] && Starts(Left()[0]) then Left()[0] else -1
    {
      ghost var all := Left();
      while true
        invariant Valid() && old(pos) <= pos
        invariant Skipped(all, mode) == pos - old(pos) + Skipped(Left(), mode)
        decreases |input| - pos
      {
        value := Peek();
        if value < 0 || Starts(value) {
          return;
        }
        if !MaySkip(mode, value) {
          return -1;
        }
        Read();
      }
    }

    /** Parses a decimal integer: the value of the digits consumed, clamped to a long. */
    method ParseInt(mode: Lookahead, ignore: int) returns (value: int)
      requires Valid() && 0 <= ignore < 256
      modifies this
      ensures Valid() && (value, pos - old(pos)) == Parsed(old(Left()), mode, ignore)
    {
      ghost var all, n := Left(), Skipped(Left(), mode);
      var first := PeekNextDigit(mode);
      assert Left() == all[n..];
      if first < 0 {
        return 0;
      }
      value := ParseSigned(ignore, all, mode, n);
    }

    /** Parses the number that starts here, with its sign. */
    method ParseSigned(ignore: int, ghost all: seq<int>, ghost mode: Lookahead, ghost n: nat) returns (value: int)
      requires Valid() && 0 <= ignore < 256
      requires n == Skipped(all, mode) < |all| && Starts(all[n]) && Left() == all[n..]
      modifies this
      ensures Valid() && (value, n + (pos - old(pos))) == Parsed(all, mode, ignore)
    {
      var negative := Peek() == MINUS;
      ghost var start := if negative then n + 1 else n;
      if negative {
        Read();
      }
      assert Left() == all[start..];
      var result;
      result, value := ParseMagnitude(negative, ignore);
      ParsedIs(all, mode, ignore, n, start, DigitRun(all[start..], ignore), result, value);
    }

    /** Parses the digits behind the sign. */
    method ParseMagnitude(negative: bool, ignore: int) returns (result: nat, value: int)
      requires Valid() && 0 <= ignore < 256
      modifies this
      ensures Valid() && pos == old(pos) + DigitRun(old(Left()), ignore)
      ensures result == AtMost(Number(old(Left())[..DigitRun(old(Left()), ignore)]), if negative then LONG_MAX + 1 else LONG_MAX)
      ensures value == if negative then -(result as int) else result
    {
      var limit: nat := if negative then LONG_MAX + 1 else LONG_MAX;
      result := ParseDigits(limit, ignore);
      if negative && result == LONG_MAX + 1 {
        value := LONG_MIN;
      } else {
        value := if negative then -(result as int) else result;
      }
    }

    /** Reads the digits of a number and adds them up, no further than the limit. */
    method ParseDigits(limit: nat, ignore: int) returns (result: nat)
      requires Valid() && 0 <= ignore < 256 && limit >= 9
      modifies this
      ensures Valid() && pos == old(pos) + DigitRun(old(Left()), ignore)
      ensures result == AtMost(Number(old(Left())[..DigitRun(old(Left()), ignore)]), limit)
    {
      ghost var digits, n := Left(), 0;
      result := 0;
      assert digits[..0] == [] && digits[0..] == digits;
      while true
        invariant Valid() && pos == old(pos) + n && n <= |digits| && Left() == digits[n..]
        invariant DigitRun(digits, ignore) == n + DigitRun(Left(), ignore)
        invariant result == AtMost(Number(digits[..n]), limit)
        decreases |input| - pos
      {
        var c := Peek();
        if c >= 48 && c <= 57 {
          Saturate(Number(digits[..n]), result, c - 48, limit);
          result := if result > (limit - (c - 48)) / 10 then limit else result * 10 + (c - 48);
        } else if c < 0 || c != ignore {
          break;
        }
        NumberNext(digits, n);
        assert digits[n..][1..] == digits[n + 1..];
        Read();
        n := n + 1;
      }
    }
  }

  lemma {:induction false} ParsedIs(all: seq<int>, mode: Lookahead, ignore: int, n: nat, start: nat, run: nat, result: nat, value: int)
    requires n == Skipped(all, mode) < |all| && Starts(all[n])
    requires start == (if all[n] == MINUS then n + 1 else n) && run == DigitRun(all[start..], ignore)
    requires result == AtMost(Number(all[start..][..run]), if all[n] == MINUS then LONG_MAX + 1 else LONG_MAX)
    requires value == if all[n] == MINUS then -(result as int) else result
    ensures Parsed(all, mode, ignore) == (value, start + run)
  {
    assert all[start..][..run] == all[start..start + run];
  }

  function AtMost(v: nat, limit: nat): nat {
    if v > limit then limit else v
  }

  /** The overflow test before a digit is appended is exact. */
  lemma Saturate(v: nat, result: nat, digit: nat, limit: nat)
    requires result == AtMost(v, limit) && digit <= 9 && limit >= 9
    ensures (if result > (limit - digit) / 10 then limit else result * 10 + digit) == AtMost(10 * v + digit, limit)
  {
  }

  lemma {:induction false} NumberNext(chars: seq<int>, n: nat)
    requires n < |chars|
    ensures Number(chars[..n + 1])
         == if IsDigit(chars[n]) then 10 * Number(chars[..n]) + (chars[n] - 48) else Number(chars[..n])
  {
    assert chars[..n + 1][..n] == chars[..n];
  }

  // ---------- what parsing reads ----------

  /** The digits among the characters. */
  function DigitsOf(chars: seq<int>): (digits: seq<int>)
    ensures forall d <- digits :: 48 <= d <= 57
  {
    if chars == [] then []
    else (if 48 <= chars[0] <= 57 then [chars[0]] else []) + DigitsOf(chars[1..])
  }

  /** Ten to the k. */
  function Ten(k: nat): nat {
    if k == 0 then 1 else 10 * Ten(k - 1)
  }

  /** The value of decimal digits: each times its power of ten. */
  function PlaceValue(digits: seq<int>): int {
    if digits == [] then 0 else (digits[0] - 48) * Ten(|digits| - 1) + PlaceValue(digits[1..])
  }

  lemma {:induction false} PlaceNext(digits: seq<int>, d: int)
    ensures PlaceValue(digits + [d]) == 10 * PlaceValue(digits) + (d - 48)
  {
    if digits == [] {
      assert ([] + [d])[1..] == [];
    } else {
      var rest, first, power := digits[1..], digits[0] - 48, Ten(|digits| - 1);
      assert (digits + [d])[1..] == rest + [d] && (digits + [d])[0] == digits[0];
      PlaceNext(rest, d);
      assert first * (10 * power) == 10 * (first * power);
    }
  }

  lemma {:induction false} DigitsNext(chars: seq<int>, c: int)
    ensures DigitsOf(chars + [c]) == DigitsOf(chars) + if 48 <= c <= 57 then [c] else []
  {
    if chars == [] {
      assert ([] + [c])[1..] == [];
    } else {
      assert (chars + [c])[1..] == chars[1..] + [c] && (chars + [c])[0] == chars[0];
      DigitsNext(chars[1..], c);
      Assoc(if 48 <= chars[0] <= 57 then [chars[0]] else [], DigitsOf(chars[1..]), if 48 <= c <= 57 then [c] else []);
    }
  }

  /** Characters between the digits do not count. */
  lemma {:induction false} NumberIs(chars: seq<int>)
    ensures Number(chars) == PlaceValue(DigitsOf(chars))
  {
    if chars != [] {
      var front, last := chars[..|chars| - 1], chars[|chars| - 1];
      NumberIs(front);
      DigitsNext(front, last);
      PlaceNext(DigitsOf(front), last);
      assert chars == front + [last];
      if !(48 <= last <= 57) { NoneAfter(DigitsOf(front)); }
    }
  }

  /** Characters that the mode lets pass: none, spaces, or all but digits and the minus. */
  predicate Passed(mode: Lookahead, c: int) {
    && !(48 <= c <= 57) && c != 45
    && match mode
       case SkipNone => false
       case SkipWhitespace => c == 32 || c == 9 || c == 10 || c == 11 || c == 12 || c == 13
       case SkipAll => true
  }

  lemma {:induction false} SkippedIs(front: seq<int>, rest: seq<int>, mode: Lookahead)
    requires forall i :: 0 <= i < |front| ==> Passed(mode, front[i])
    requires rest != [] ==> !Passed(mode, rest[0])
    ensures Skipped(front + rest, mode) == |front| && (front + rest)[|front|..] == rest
  {
    if front == [] {
      assert front + rest == rest;
    } else {
      assert (front + rest)[1..] == front[1..] + rest && (front + rest)[0] == front[0];
      SkippedIs(front[1..], rest, mode);
    }
  }

  lemma {:induction false} DigitRunIs(body: seq<int>, tail: seq<int>, ignore: int)
    requires forall i :: 0 <= i < |body| ==> 48 <= body[i] <= 57 || body[i] == ignore
    requires tail != [] ==> !(48 <= tail[0] <= 57) && tail[0] != ignore
    ensures DigitRun(body + tail, ignore) == |body| && (body + tail)[..|body|] == body
  {
    if body == [] {
      assert body + tail == tail;
    } else {
      assert (body + tail)[1..] == body[1..] + tail && (body + tail)[0] == body[0];
      DigitRunIs(body[1..], tail, ignore);
    }
  }

  /** A number behind characters that the mode lets pass: its digits, among which the ignored
      character may stand, up to the first other character. */
  lemma {:induction false} NumberFound(front: seq<int>, negative: bool, body: seq<int>, tail: seq<int>, mode: Lookahead, ignore: int)
    requires forall i :: 0 <= i < |front| ==> Passed(mode, front[i])
    requires negative || (body != [] && 48 <= body[0] <= 57)
    requires forall i :: 0 <= i < |body| ==> 48 <= body[i] <= 57 || body[i] == ignore
    requires tail != [] ==> !(48 <= tail[0] <= 57) && tail[0] != ignore
    ensures var sign := if negative then [45] else [];
      Parsed(front + (sign + (body + tail)), mode, ignore)
        == (Clamp(if negative then -PlaceValue(DigitsOf(body)) else PlaceValue(DigitsOf(body))), |front| + |sign| + |body|)
  {
    var sign := if negative then [45] else [];
    var behind, rest := body + tail, sign + (body + tail);
    assert rest != [] && rest[0] == if negative then 45 else body[0];
    assert rest[|sign|..] == behind;
    SkippedIs(front, rest, mode);
    DigitRunIs(body, tail, ignore);
    NumberIs(body);
    var all, n, start := front + rest, |front|, |front| + |sign|;
    Behind(all, n, start, rest, behind);
    NumberRun(all, mode, ignore, n, start, behind, body, |body|);
  }

  lemma Behind(all: seq<int>, n: nat, start: nat, rest: seq<int>, behind: seq<int>)
    requires n < |all| && n <= start <= |all| && all[n..] == rest && rest[start - n..] == behind
    ensures all[n] == rest[0] && all[start..] == behind
  {
  }

  /** What parsing makes of the number that starts at n, with its digits from start on. */
  lemma NumberRun(all: seq<int>, mode: Lookahead, ignore: int, n: nat, start: nat, behind: seq<int>, body: seq<int>, run: nat)
    requires n == Skipped(all, mode) < |all| && Starts(all[n]) && n <= start <= |all|
    requires start == if all[n] == 45 then n + 1 else n
    requires all[start..] == behind && DigitRun(behind, ignore) == run == |body| && behind[..run] == body
    ensures Parsed(all, mode, ignore) == (Clamp(if all[n] == 45 then -(Number(body) as int) else Number(body)), start + run)
  {
    assert all[start..start + run] == body by { assert all[start..start + run] == behind[..run]; }
  }

  /** No number: the text ends, or a character stands there that neither passes nor starts one. */
  lemma {:induction false} NoNumber(front: seq<int>, rest: seq<int>, mode: Lookahead, ignore: int)
    requires forall i :: 0 <= i < |front| ==> Passed(mode, front[i])
    requires rest != [] ==> !Passed(mode, rest[0]) && !(48 <= rest[0] <= 57) && rest[0] != 45
    ensures Parsed(front + rest, mode, ignore) == (0, |front|)
  {
    SkippedIs(front, rest, mode);
    if rest != [] { assert (front + rest)[|front|] == rest[0]; }
  }

  // ---------- round trip ----------

  lemma {:induction false} DecimalIs(text: seq<int>)
    requires forall i :: 0 <= i < |text| ==> IsDigit(text[i])
    ensures Number(text) == Denotes(text, 10)
  {
    if text != [] { DecimalIs(text[..|text| - 1]); }
  }

  lemma {:induction false} RunOfDigits(text: seq<int>, ignore: int)
    requires forall i :: 0 <= i < |text| ==> IsDigit(text[i])
    ensures DigitRun(text, ignore) == |text|
  {
    if text != [] { RunOfDigits(text[1..], ignore); }
  }

  lemma {:induction false} DecimalDigits(m: nat)
    ensures Text(m, 10) != [] && forall i :: 0 <= i < |Text(m, 10)| ==> IsDigit(Text(m, 10)[i])
    decreases m
  {
    if m >= 10 { DecimalDigits(m / 10); }
  }

  lemma LongRange()
    ensures Pow2(63) == LONG_MAX + 1
  {
    assert Pow2(3) == 8;
    Sixteenfold(3);
    Sixteenfold(7);
    Sixteenfold(11);
    Sixteenfold(15);
    Sixteenfold(19);
    Sixteenfold(23);
    Sixteenfold(27);
    Sixteenfold(31);
    Sixteenfold(35);
    Sixteenfold(39);
    Sixteenfold(43);
    Sixteenfold(47);
    Sixteenfold(51);
    Sixteenfold(55);
    Sixteenfold(59);
  }

  lemma Sixteenfold(k: nat)
    ensures Pow2(k + 4) == 16 * Pow2(k)
  {
    assert Pow2(k + 1) == 2 * Pow2(k);
    assert Pow2(k + 2) == 4 * Pow2(k);
    assert Pow2(k + 3) == 8 * Pow2(k);
  }

  /** Parsing digits, behind a sign or not, gives what they denote. */
  lemma {:induction false} ParsedDigits(digits: seq<int>, mode: Lookahead, ignore: int)
    requires digits != [] && forall i :: 0 <= i < |digits| ==> IsDigit(digits[i])
    ensures Parsed(digits, mode, ignore) == (Clamp(Number(digits)), |digits|)
    ensures Parsed([MINUS] + digits, mode, ignore) == (Clamp(-(Number(digits) as int)), 1 + |digits|)
  {
    RunOfDigits(digits, ignore);
    assert digits[0..] == digits && digits[0..|digits|] == digits && digits[0] != MINUS;
    var text := [MINUS] + digits;
    assert text[1..] == digits && text[1..1 + |digits|] == digits;
  }

  /** Every long is parsed back from its decimal text, in any mode, and all of it is consumed. */
  lemma {:induction false} LongRoundTrip(value: int, mode: Lookahead, ignore: int)
    requires LONG_MIN <= value <= LONG_MAX
    ensures InRange(64, true, value)
    ensures Parsed(Written(64, true, value, 10), mode, ignore) == (value, |Written(64, true, value, 10)|)
  {
    LongRange();
    var m := if value < 0 then -value else value;
    DecimalDigits(m);
    TextDenotes(m, 10);
    DecimalIs(Text(m, 10));
    ParsedDigits(Text(m, 10), mode, ignore);
  }
}
