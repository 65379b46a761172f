/** IP addresses and their text. A text is a C string, given by its characters before the
    terminator. */
module IPAddress {
  import opened Arrays
  import opened Bits
  import opened Wrappers

  datatype Family = IPv4 | IPv6

  /** The length of the print buffer. */
  const BUFFER_SIZE: nat := 48

  predicate IsWord(w: nat) {
    w < 0x1_0000
  }

  predicate IsByte(b: nat) {
    b < 256
  }

  // ---------- digits ----------

  function HexValue(ch: char): int {
    if '0' <= ch <= '9' then ch as int - 48
    else if 'a' <= ch <= 'f' then ch as int - 87
    else if 'A' <= ch <= 'F' then ch as int - 55
    else -1
  }

  predicate IsDigit(ch: char) {
    '0' <= ch <= '9'
  }

  /** The digits of %u and %x: decimal ones, then lower-case letters. */
  function Digit(d: nat): (ch: char)
    requires d < 16
    ensures HexValue(ch) == d && ch != ':' && ch != '.' && !('A' <= ch <= 'F')
    ensures d < 10 ==> IsDigit(ch) && ch as int - 48 == d
  {
    if d < 10 then (48 + d) as char else (87 + d) as char
  }

  /** A number below 65536 in hexadecimal. */
  function Hex(n: nat): string {
    if n < 16 then [Digit(n)] else Hex(n / 16) + [Digit(n % 16)]
  }

  /** A number in decimal. */
  function Dec(n: nat): string {
    if n < 10 then [Digit(n)] else Dec(n / 10) + [Digit(n % 10)]
  }

  function HexNumber(s: string): int {
    if s == [] then 0 else 16 * HexNumber(s[..|s| - 1]) + HexValue(s[|s| - 1])
  }

  function DecNumber(s: string): int {
    if s == [] then 0 else 10 * DecNumber(s[..|s| - 1]) + (s[|s| - 1] as int - 48)
  }

  lemma {:induction false} HexNext(s: string, ch: char)
    ensures HexNumber(s + [ch]) == 16 * HexNumber(s) + HexValue(ch)
  {
    assert (s + [ch])[..|s|] == s;
  }

  lemma {:induction false} DecNext(s: string, ch: char)
    ensures DecNumber(s + [ch]) == 10 * DecNumber(s) + (ch as int - 48)
  {
    assert (s + [ch])[..|s|] == s;
  }

  predicate AllHex(s: string) {
    forall i :: 0 <= i < |s| ==> HexValue(s[i]) >= 0
  }

  predicate AllDigits(s: string) {
    forall i :: 0 <= i < |s| ==> IsDigit(s[i])
  }

  /** Hexadecimal text is lower case, has no leading zero, and denotes the number. */
  lemma {:induction false} HexText(n: nat)
    ensures Hex(n) != [] && AllHex(Hex(n)) && HexNumber(Hex(n)) == n
    ensures forall i :: 0 <= i < |Hex(n)| ==> !('A' <= Hex(n)[i] <= 'F')
    ensures Hex(n)[0] == '0' ==> n == 0 && |Hex(n)| == 1
    decreases n
  {
    if n < 16 {
      HexNext([], Digit(n));
    } else {
      HexText(n / 16);
      HexNext(Hex(n / 16), Digit(n % 16));
    }
  }

  lemma {:induction false} HexLength(n: nat)
    requires IsWord(n)
    ensures |Hex(n)| <= 4
  {
    var a := n / 16;
    var b := a / 16;
    var c := b / 16;
    assert |Hex(c)| == 1;
    assert |Hex(b)| <= 2;
    assert |Hex(a)| <= 3;
  }

  lemma {:induction false} DecText(n: nat)
    ensures Dec(n) != [] && AllDigits(Dec(n)) && DecNumber(Dec(n)) == n
    decreases n
  {
    if n < 10 {
      DecNext([], Digit(n));
    } else {
      DecText(n / 10);
      DecNext(Dec(n / 10), Digit(n % 10));
    }
  }

  lemma {:induction false} DecLength(n: nat)
    requires IsByte(n)
    ensures |Dec(n)| <= 3
  {
    var a := n / 10;
    assert |Dec(a / 10)| == 1;
    assert |Dec(a)| <= 2;
  }

  // ---------- what the parsers accept ----------

  /** How many hexadecimal digits a text starts with. */
  function HexRun(t: string): (n: nat)
    ensures n <= |t| && (forall i :: 0 <= i < n ==> HexValue(t[i]) >= 0) && (n < |t| ==> HexValue(t[n]) < 0)
  {
    if t != [] && HexValue(t[0]) >= 0 then 1 + HexRun(t[1..]) else 0
  }

  function DigitRun(t: string): (n: nat)
    ensures n <= |t| && (forall i :: 0 <= i < n ==> IsDigit(t[i])) && (n < |t| ==> !IsDigit(t[n]))
  {
    if t != [] && IsDigit(t[0]) then 1 + DigitRun(t[1..]) else 0
  }

  /** An octet: one to three digits, and no more than 255. */
  predicate IsOctet(digits: string) {
    1 <= |digits| <= 3 && 0 <= DecNumber(digits) <= 255
  }

  function Behind(front: seq<nat>, rest: Option<seq<nat>>): Option<seq<nat>> {
    match rest
    case None => None
    case Some(more) => Some(front + more)
  }

  /** Dotted octets: n of them, and nothing behind them. */
  function Octets(t: string, n: nat): Option<seq<nat>>
    decreases n
  {
    var digits := t[..DigitRun(t)];
    if n == 0 then if t == [] then Some([]) else None
    else if !IsOctet(digits) then None
    else if n == 1 then Behind([DecNumber(digits)], Octets(t[|digits|..], 0))
    else if |digits| < |t| && t[|digits|] == '.' then Behind([DecNumber(digits)], Octets(t[|digits| + 1..], n - 1))
    else None
  }

  /** Four octets as the last two words. */
  function TwoMore(words: seq<nat>, octets: Option<seq<nat>>, hole: int): Option<(seq<nat>, int)> {
    match octets
    case None => None
    case Some(b) => if |b| == 4 then Some((words + [256 * b[0] + b[1], 256 * b[2] + b[3]], hole)) else None
  }

  /** Groups of hexadecimal digits between colons, behind the words read before; hole is where
      a double colon stood, -1 if there was none. The last group may be dotted octets. */
  function Groups(t: string, words: seq<nat>, hole: int): Option<(seq<nat>, int)>
    decreases |t|
  {
    var run := HexRun(t);
    if t == [] then Some((words, hole))
    else if |words| >= 8 || run > 4 then None
    else if run < |t| && t[run] == '.' then
      if |words| > 6 then None else TwoMore(words, Octets(t, 4), hole)
    else if run == 0 || HexNumber(t[..run]) < 0 then None
    else Separated(t[run..], words + [HexNumber(t[..run])], hole)
  }

  /** What may follow a group: nothing, or a colon and another group, or one double colon. */
  function Separated(t: string, words: seq<nat>, hole: int): Option<(seq<nat>, int)>
    decreases |t|
  {
    if t == [] then Some((words, hole))
    else if t[0] != ':' || |t| == 1 then None
    else if t[1] == ':' then if hole >= 0 then None else Groups(t[2..], words, |words|)
    else Groups(t[1..], words, hole)
  }

  /** The eight words: zeros fill the hole, which must stand for at least one. */
  function Filled(words: seq<nat>, hole: int): Option<seq<nat>> {
    if hole < 0 then if |words| == 8 then Some(words) else None
    else if |words| >= 8 || hole > |words| then None
    else Some(words[..hole] + seq(8 - |words|, _ => 0) + words[hole..])
  }

  function Parsed6(t: string): Option<seq<nat>> {
    if t == [] || (t[0] == ':' && (|t| == 1 || t[1] != ':')) then None
    else
      match if t[0] == ':' then Groups(t[2..], [], 0) else Groups(t, [], -1)
      case None => None
      case Some(r) => Filled(r.0, r.1)
  }

  /** An address: four bytes or eight words. */
  datatype Value = V4(octets: seq<nat>) | V6(words: seq<nat>)

  predicate IsAddress(v: Value) {
    match v
    case V4(octets) => |octets| == 4 && forall i :: 0 <= i < 4 ==> IsByte(octets[i])
    case V6(words) => |words| == 8 && forall i :: 0 <= i < 8 ==> IsWord(words[i])
  }

  function Parsed(t: string): Option<Value> {
    if ':' in t then
      match Parsed6(t)
      case None => None
      case Some(words) => Some(V6(words))
    else
      match Octets(t, 4)
      case None => None
      case Some(octets) => Some(V4(octets))
  }

  // ---------- the text of an address ----------

  /** Octets in decimal with dots between them. */
  function Dotted(octets: seq<nat>): string {
    if octets == [] then []
    else if |octets| == 1 then Dec(octets[0])
    else Dec(octets[0]) + ("." + Dotted(octets[1..]))
  }

  /** Words in hexadecimal with colons between them. */
  function Joined(words: seq<nat>): string {
    if words == [] then []
    else if |words| == 1 then Hex(words[0])
    else Hex(words[0]) + ([':'] + Joined(words[1..]))
  }

  predicate ZeroRun(words: seq<nat>, at: nat, n: nat) {
    at + n <= |words| && forall i :: at <= i < at + n ==> words[i] == 0
  }

  /** The first longest run of at least two zero words, or none: place 8 and length 0. */
  ghost predicate IsBest(words: seq<nat>, best: nat, n: nat) {
    && |words| == 8
    && (if n == 0 then best == 8 else n >= 2 && ZeroRun(words, best, n))
    && forall j: nat, m: nat :: m >= 2 && ZeroRun(words, j, m) ==> m < n || (m == n && best <= j)
  }

  /** The text with a run of words shortened to a double colon. */
  function Text6(words: seq<nat>, best: nat, n: nat): string {
    if best + n > |words| || n == 0 then Joined(words)
    else Joined(words[..best]) + ("::" + Joined(words[best + n..]))
  }

  /** Canonical text, as section 4 of RFC 5952 asks for it. */
  ghost predicate Canonical(v: Value, text: string) {
    match v
    case V4(octets) => |octets| == 4 && text == Dotted(octets)
    case V6(words) => exists best, n :: IsBest(words, best, n) && text == Text6(words, best, n)
  }

  // ---------- parsing back ----------

  lemma {:induction false} HexRunIs(s: string, t: string)
    requires AllHex(s) && (t == [] || HexValue(t[0]) < 0)
    ensures HexRun(s + t) == |s| && (s + t)[..|s|] == s && (s + t)[|s|..] == t
  {
    forall i | 0 <= i < |s| ensures HexValue((s + t)[i]) >= 0 {
      assert (s + t)[i] == s[i];
    }
    if t != [] { assert (s + t)[|s|] == t[0]; }
  }

  lemma {:induction false} DigitRunIs(s: string, t: string)
    requires AllDigits(s) && (t == [] || !IsDigit(t[0]))
    ensures DigitRun(s + t) == |s| && (s + t)[..|s|] == s && (s + t)[|s|..] == t
  {
    forall i | 0 <= i < |s| ensures IsDigit((s + t)[i]) {
      assert (s + t)[i] == s[i];
    }
    if t != [] { assert (s + t)[|s|] == t[0]; }
  }

  /** What the octets parser does once the digits at the start are known. */
  lemma OctetsUnfold(text: string, digits: string, t: string, value: nat, n: nat, m: nat)
    requires DigitRun(text) == |digits| && text[..|digits|] == digits && IsOctet(digits) && value == DecNumber(digits)
    requires n == m + 1 && text[|digits|..] == if m == 0 then t else "." + t
    ensures Octets(text, n) == Behind([value], Octets(t, m))
  {
    if m > 0 { assert text[|digits| + 1..] == text[|digits|..][1..]; }
  }

  /** One octet in front of what follows. */
  lemma {:induction false} OctetFirst(b: nat, t: string, text: string, n: nat, m: nat)
    requires IsByte(b) && n == m + 1 && text == Dec(b) + if m == 0 then t else "." + t
    requires m == 0 ==> t == []
    ensures Octets(text, n) == Behind([b], Octets(t, m))
  {
    DecText(b);
    DecLength(b);
    DigitRunIs(Dec(b), if m == 0 then t else "." + t);
    OctetsUnfold(text, Dec(b), t, b, n, m);
  }

  /** The text of octets is parsed back. */
  lemma {:induction false} OctetsBack(b: seq<nat>, n: nat, text: string)
    requires |b| == n > 0 && text == Dotted(b) && forall i :: 0 <= i < |b| ==> IsByte(b[i])
    ensures Octets(text, n) == Some(b)
    decreases n
  {
    var rest, m := b[1..], n - 1;
    var t := Dotted(rest);
    if m == 0 {
      NoneAfter(Dec(b[0]));
    } else {
      OctetsBack(rest, m, t);
    }
    OctetFirst(b[0], t, text, n, m);
    assert b == [b[0]] + rest;
  }

  lemma {:induction false} DottedPlain(b: seq<nat>)
    requires b != [] && forall i :: 0 <= i < |b| ==> IsByte(b[i])
    ensures |Dotted(b)| <= 4 * |b| - 1 && ':' !in Dotted(b)
    decreases |b|
  {
    DecText(b[0]);
    DecLength(b[0]);
    if |b| > 1 { DottedPlain(b[1..]); }
  }

  /** A group in front of what follows it. */
  lemma {:induction false} GroupFirst(w: nat, t: string, words: seq<nat>, hole: int)
    requires IsWord(w) && |words| < 8 && (t == [] || t[0] == ':')
    ensures Groups(Hex(w) + t, words, hole) == Separated(t, words + [w], hole)
  {
    HexText(w);
    HexLength(w);
    HexRunIs(Hex(w), t);
  }

  predicate AreWords(words: seq<nat>) {
    forall i :: 0 <= i < |words| ==> IsWord(words[i])
  }

  lemma {:induction false} JoinedStart(words: seq<nat>)
    requires words != []
    ensures Joined(words) != [] && HexValue(Joined(words)[0]) >= 0
  {
    HexText(words[0]);
  }

  /** Words joined by colons are read one after the other. */
  lemma {:induction false} JoinedRead(more: seq<nat>, words: seq<nat>, hole: int)
    requires AreWords(more) && |words| + |more| <= 8
    ensures Groups(Joined(more), words, hole) == Some((words + more, hole))
    decreases |more|, 0
  {
    if more == [] {
      assert words + more == words;
    } else {
      var rest := more[1..];
      if rest == [] {
        assert more == [more[0]];
        GroupFirst(more[0], [], words, hole);
        assert Hex(more[0]) + [] == Hex(more[0]);
      } else {
        GroupFirst(more[0], [':'] + Joined(rest), words, hole);
        ColonRead(rest, words + [more[0]], hole);
        assert more == [more[0]] + rest;
        Assoc(words, [more[0]], rest);
      }
    }
  }

  lemma {:induction false} ColonRead(rest: seq<nat>, words: seq<nat>, hole: int)
    requires rest != [] && AreWords(rest) && |words| + |rest| <= 8
    ensures Separated([':'] + Joined(rest), words, hole) == Some((words + rest, hole))
    decreases |rest|, 1
  {
    JoinedStart(rest);
    assert ([':'] + Joined(rest))[1..] == Joined(rest);
    JoinedRead(rest, words, hole);
  }

  /** Words before a double colon are read, and then what is behind it. */
  lemma {:induction false} HeadRead(head: seq<nat>, words: seq<nat>, t: string)
    requires head != [] && AreWords(head) && |words| + |head| <= 8
    ensures Groups(Joined(head) + ("::" + t), words, -1) == Groups(t, words + head, |words + head|)
    decreases |head|
  {
    var rest := head[1..];
    if rest == [] {
      assert head == [head[0]];
      GroupFirst(head[0], "::" + t, words, -1);
      assert ("::" + t)[2..] == t;
    } else {
      var behind := Joined(rest) + ("::" + t);
      JoinedStart(rest);
      Assoc4(Hex(head[0]), [':'], Joined(rest), "::" + t);
      assert Joined(head) + ("::" + t) == Hex(head[0]) + ([':'] + behind);
      GroupFirst(head[0], [':'] + behind, words, -1);
      assert ([':'] + behind)[1..] == behind;
      HeadRead(rest, words + [head[0]], t);
      assert head == [head[0]] + rest;
      Assoc(words, [head[0]], rest);
    }
  }

  /** Text with any run of zeros shortened is parsed back. */
  lemma {:induction false} WordsBack(words: seq<nat>, best: nat, n: nat)
    requires IsAddress(V6(words)) && (n == 0 || ZeroRun(words, best, n))
    ensures Parsed6(Text6(words, best, n)) == Some(words)
  {
    if n == 0 {
      JoinedStart(words);
      JoinedRead(words, [], -1);
      NoneBefore(words);
    } else {
      FilledBack(words, best, n);
      if best == 0 {
        HeadlessBack(words[n..]);
        assert words[..0] == [];
        NoneBefore(words[n..]);
        NoneBefore("::" + Joined(words[n..]));
      } else {
        HeadedBack(words[..best], words[best + n..]);
      }
    }
  }

  lemma {:induction false} HeadlessBack(tail: seq<nat>)
    requires AreWords(tail) && |tail| < 8
    ensures Parsed6("::" + Joined(tail)) == Filled(tail, 0)
  {
    JoinedRead(tail, [], 0);
    NoneBefore(tail);
    assert ("::" + Joined(tail))[2..] == Joined(tail);
  }

  lemma {:induction false} HeadedBack(head: seq<nat>, tail: seq<nat>)
    requires head != [] && AreWords(head) && AreWords(tail) && |head| + |tail| < 8
    ensures Parsed6(Joined(head) + ("::" + Joined(tail))) == Filled(head + tail, |head|)
  {
    JoinedStart(head);
    assert (Joined(head) + ("::" + Joined(tail)))[0] == Joined(head)[0];
    HeadRead(head, [], Joined(tail));
    NoneBefore(head);
    JoinedRead(tail, head, |head|);
  }

  lemma {:induction false} FilledBack(words: seq<nat>, best: nat, n: nat)
    requires |words| == 8 && n > 0 && ZeroRun(words, best, n)
    ensures Filled(words[..best] + words[best + n..], best) == Some(words)
  {
    var kept := words[..best] + words[best + n..];
    assert kept[..best] == words[..best] && kept[best..] == words[best + n..];
    assert words == words[..best] + words[best..best + n] + words[best + n..];
    assert words[best..best + n] == seq(8 - |kept|, _ => 0);
  }

  // ---------- canonical text ----------

  predicate DoubleColon(t: string, k: nat) {
    k + 1 < |t| && t[k] == ':' && t[k + 1] == ':'
  }

  predicate LowerCase(t: string) {
    forall i :: 0 <= i < |t| ==> t[i] == ':' || (HexValue(t[i]) >= 0 && !('A' <= t[i] <= 'F'))
  }

  /** Joined words have no double colon, are lower case, and do not end in a colon. */
  lemma {:induction false} JoinedPlain(words: seq<nat>)
    requires AreWords(words)
    ensures LowerCase(Joined(words)) && forall k: nat :: !DoubleColon(Joined(words), k)
    ensures |Joined(words)| <= if words == [] then 0 else 5 * |words| - 1
    ensures words != [] ==> Joined(words) != [] && HexValue(Joined(words)[0]) >= 0 && HexValue(Joined(words)[|Joined(words)| - 1]) >= 0
    decreases |words|
  {
    if words != [] {
      HexText(words[0]);
      HexLength(words[0]);
      if |words| > 1 {
        var first, rest := Hex(words[0]), Joined(words[1..]);
        JoinedPlain(words[1..]);
        var all := first + ([':'] + rest);
        forall k: nat ensures !DoubleColon(all, k) {
          if k > |first| && k + 1 < |all| { assert !DoubleColon(rest, k - |first| - 1); }
        }
      }
    }
  }

  /** Canonical text of eight words is lower case and at most 39 characters long, and it has a
      double colon exactly when two words in a row are zero. */
  lemma {:induction false} CanonicalForm(words: seq<nat>, best: nat, n: nat)
    requires IsAddress(V6(words)) && IsBest(words, best, n)
    ensures var text := Text6(words, best, n);
      && LowerCase(text) && |text| <= 39 && ':' in text
      && ((exists k: nat :: DoubleColon(text, k)) <==> exists j: nat :: ZeroRun(words, j, 2))
  {
    var text := Text6(words, best, n);
    if n == 0 {
      JoinedPlain(words);
      HexText(words[0]);
      assert text[|Hex(words[0])|] == ':';
    } else {
      var head := Joined(words[..best]);
      JoinedPlain(words[..best]);
      JoinedPlain(words[best + n..]);
      assert DoubleColon(text, |head|);
      assert ZeroRun(words, best, 2);
    }
  }

  lemma {:induction false} BestUnique(words: seq<nat>, best: nat, n: nat, best': nat, n': nat)
    requires IsBest(words, best, n) && IsBest(words, best', n')
    ensures best == best' && n == n'
  {
  }

  /** An address has only one canonical text. */
  lemma {:induction false} OneCanonical(v: Value, text: string, text': string)
    requires Canonical(v, text) && Canonical(v, text')
    ensures text == text'
  {
    if v.V6? {
      var best, n :| IsBest(v.words, best, n) && text == Text6(v.words, best, n);
      var best', n' :| IsBest(v.words, best', n') && text' == Text6(v.words, best', n');
      BestUnique(v.words, best, n, best', n');
    }
  }

  /** The canonical text of every address is parsed back to that address. */
  lemma {:induction false} RoundTrip(v: Value, text: string)
    requires IsAddress(v) && Canonical(v, text)
    ensures Parsed(text) == Some(v) && |text| < BUFFER_SIZE
  {
    match v
    case V4(octets) =>
      OctetsBack(octets, 4, text);
      DottedPlain(octets);
    case V6(words) =>
      var best, n :| IsBest(words, best, n) && text == Text6(words, best, n);
      WordsBack(words, best, n);
      CanonicalForm(words, best, n);
  }

  // ---------- parsing ----------

  lemma {:induction false} DigitsGrow(s: string, k: nat)
    requires AllDigits(s) && k <= |s|
    ensures 0 <= DecNumber(s[..k]) <= DecNumber(s)
    decreases |s|
  {
    if s == [] {
    } else if k == |s| {
      assert s[..k] == s;
      DigitsGrow(s[..k - 1], k - 1);
      assert s[..k - 1][..k - 1] == s[..k - 1];
    } else {
      DigitsGrow(s[..|s| - 1], k);
      assert s[..|s| - 1][..k] == s[..k];
    }
  }

  /** The digits at the cursor, as a group of words: no more than four. */
  method ReadHex(text: string, start: nat) returns (ok: bool, value: nat, cursor: nat)
    requires start <= |text|
    ensures ok <==> HexRun(text[start..]) <= 4
    ensures ok ==> cursor == start + HexRun(text[start..]) && value == HexNumber(text[start..cursor])
  {
    ghost var t := text[start..];
    var digits := 0;
    ok, value, cursor := true, 0, start;
    assert text[start..cursor] == [];
    while cursor < |text| && HexValue(text[cursor]) >= 0
      invariant cursor == start + digits <= |text| && digits <= 4 && digits <= HexRun(t)
      invariant value == HexNumber(text[start..cursor])
      decreases |text| - cursor
    {
      assert t[digits] == text[cursor];
      digits := digits + 1;
      if digits > 4 {
        return false, value, cursor;
      }
      HexAt(text, start, cursor);
      value := value * 16 + HexValue(text[cursor]);
      cursor := cursor + 1;
    }
    if cursor < |text| { assert t[digits] == text[cursor]; }
  }

  lemma HexAt(text: string, start: nat, k: nat)
    requires start <= k < |text|
    ensures HexNumber(text[start..k + 1]) == 16 * HexNumber(text[start..k]) + HexValue(text[k])
  {
    HexNext(text[start..k], text[k]);
    assert text[start..k + 1] == text[start..k] + [text[k]];
  }

  /** The octet at the cursor. */
  method ReadOctet(text: string, start: nat) returns (ok: bool, value: nat, cursor: nat)
    requires start <= |text|
    ensures var digits := text[start..][..DigitRun(text[start..])];
      && (ok <==> IsOctet(digits))
      && (ok ==> cursor == start + |digits| && value == DecNumber(digits))
  {
    ghost var t := text[start..];
    ghost var all := t[..DigitRun(t)];
    var digits := 0;
    ok, value, cursor := false, 0, start;
    while cursor < |text| && IsDigit(text[cursor])
      invariant cursor == start + digits <= |text| && digits <= 3 && digits <= |all| && value <= 255
      invariant value == DecNumber(all[..digits])
      decreases |text| - cursor
    {
      assert t[digits] == text[cursor];
      DecNext(all[..digits], text[cursor]);
      assert all[..digits + 1] == all[..digits] + [text[cursor]];
      value := value * 10 + (text[cursor] as int - 48);
      cursor := cursor + 1;
      digits := digits + 1;
      if digits > 3 || value > 255 {
        DigitsGrow(all, digits);
        return;
      }
    }
    if cursor < |text| { assert t[digits] == text[cursor]; }
    assert all[..digits] == all;
    ok := digits != 0;
  }

  /** What has been read, and what the rest must give, is unchanged by reading an octet. */
  lemma BehindMore(front: seq<nat>, value: nat, rest: Option<seq<nat>>)
    ensures Behind(front, Behind([value], rest)) == Behind(front + [value], rest)
  {
    if rest.Some? { Assoc(front, [value], rest.value); }
  }

  lemma BehindNothing(rest: Option<seq<nat>>)
    ensures Behind([], rest) == rest
  {
    if rest.Some? { NoneBefore(rest.value); }
  }

  /** An octet and the dot behind it, unless it is the last. */
  method NextOctet(text: string, start: nat, last: bool, ghost left: nat) returns (ok: bool, value: nat, cursor: nat)
    requires start <= |text| && left > 0 && last == (left == 1)
    ensures ok ==> cursor <= |text| && Octets(text[start..], left) == Behind([value], Octets(text[cursor..], left - 1))
    ensures !ok ==> Octets(text[start..], left) == None
  {
    ghost var t := text[start..];
    ok, value, cursor := ReadOctet(text, start);
    if !ok {
      return;
    }
    assert t[cursor - start..] == text[cursor..];
    if !last {
      if cursor == |text| || text[cursor] != '.' {
        return false, value, cursor;
      }
      assert t[cursor - start + 1..] == text[cursor + 1..];
      cursor := cursor + 1;
    }
  }

  /** Four octets up to the end of the text. */
  method ParseV4(text: string, start: nat) returns (ok: bool, output: seq<nat>)
    requires start <= |text|
    ensures if ok then Octets(text[start..], 4) == Some(output) && |output| == 4 else Octets(text[start..], 4) == None
  {
    ghost var left: nat := 4;
    ghost var goal := Octets(text[start..], left);
    var cursor, octet := start, 0;
    ok, output := false, [];
    BehindNothing(goal);
    while octet < 4
      invariant 0 <= octet <= 4 && |output| == octet && cursor <= |text| && left == 4 - octet
      invariant Behind(output, Octets(text[cursor..], left)) == goal
    {
      var fits, value, next := NextOctet(text, cursor, octet == 3, left);
      if !fits {
        return;
      }
      BehindMore(output, value, Octets(text[next..], left - 1));
      output, cursor, octet, left := output + [value], next, octet + 1, left - 1;
    }
    ok := cursor == |text|;
    NoneAfter(output);
  }

  /** The words and the hole that a text has, read group by group. */
  method ReadGroups(text: string, start: nat, hole0: int) returns (ok: bool, words: array<nat>, count: nat, hole: int)
    requires start <= |text| && -1 <= hole0 <= 0
    ensures fresh(words) && words.Length == 8 && count <= 8 && -1 <= hole <= count
    ensures Groups(text[start..], [], hole0) == if ok then Some((words[..count], hole)) else None
  {
    ghost var goal := Groups(text[start..], [], hole0);
    words := new nat[8](_ => 0);
    var cursor := start;
    ok, count, hole := false, 0, hole0;
    while cursor < |text|
      invariant cursor <= |text| && count <= 8 && -1 <= hole <= count && fresh(words) && words.Length == 8
      invariant Groups(text[cursor..], words[..count], hole) == goal
      decreases |text| - cursor
    {
      if count == 8 {
        return;
      }
      ghost var before := words[..count];
      var fits;
      fits, cursor, count, hole := ReadGroup(text, cursor, words, count, hole, before);
      if !fits {
        return;
      }
    }
    ok := true;
  }

  lemma GroupDotted(t: string, words: seq<nat>, hole: int, run: nat)
    requires |words| < 8 && run == HexRun(t) <= 4 && run < |t| && t[run] == '.'
    ensures Groups(t, words, hole) == if |words| > 6 then None else TwoMore(words, Octets(t, 4), hole)
  {
  }

  lemma GroupPlain(t: string, words: seq<nat>, hole: int, run: nat, value: nat, rest: string)
    requires |words| < 8 && run == HexRun(t) <= 4 && 0 < run && !(run < |t| && t[run] == '.')
    requires value == HexNumber(t[..run]) && rest == t[run..]
    ensures Groups(t, words, hole) == Separated(rest, words + [value], hole)
  {
  }

  /** One turn of the loop over the groups. */
  method ReadGroup(text: string, start: nat, words: array<nat>, count0: nat, hole0: int, ghost before: seq<nat>)
    returns (ok: bool, cursor: nat, count: nat, hole: int)
    requires start < |text| && words.Length == 8 && count0 < 8 && -1 <= hole0 <= count0 && words[..count0] == before
    modifies words
    ensures count <= 8 && -1 <= hole <= count && (ok ==> start < cursor <= |text|)
    ensures Groups(text[start..], before, hole0) == if ok then Groups(text[cursor..], words[..count], hole) else None
  {
    ghost var t := text[start..];
    count, hole := count0, hole0;
    var value;
    ok, value, cursor := ReadHex(text, start);
    if !ok {
      return;
    }
    ghost var run := HexRun(t);
    assert cursor < |text| ==> t[run] == text[cursor];
    if cursor < |text| && text[cursor] == '.' {
      ok, count := ReadDotted(text, start, words, count, hole, before);
      cursor := |text|;
      assert text[cursor..] == [];
    } else if cursor == start {
      ok := false;
    } else {
      ok, cursor, count, hole := ReadPlain(text, start, cursor, value, words, count, hole, before);
    }
  }

  /** A group of digits and what stands behind it. */
  method ReadPlain(text: string, start: nat, end: nat, value: nat, words: array<nat>, count0: nat, hole0: int,
                   ghost before: seq<nat>)
    returns (ok: bool, cursor: nat, count: nat, hole: int)
    requires words.Length == 8 && count0 < 8 && -1 <= hole0 <= count0 && words[..count0] == before
    requires start < end <= |text| && end - start == HexRun(text[start..]) <= 4 && !(end < |text| && text[end] == '.')
    requires value == HexNumber(text[start..end])
    modifies words
    ensures count <= 8 && -1 <= hole <= count && end <= cursor <= |text|
    ensures Groups(text[start..], before, hole0) == if ok then Groups(text[cursor..], words[..count], hole) else None
  {
    ghost var t, run, rest, longer := text[start..], end - start, text[end..], before + [value];
    assert t[..run] == text[start..end] && t[run..] == rest;
    GroupPlain(t, before, hole0, run, value, rest);
    AddWord(words, count0, value, longer);
    count := count0 + 1;
    ok, cursor, hole := ReadSeparator(text, end, count, hole0, longer);
  }

  method AddWord(words: array<nat>, count: nat, value: nat, ghost longer: seq<nat>)
    requires count < words.Length && longer == words[..count] + [value]
    modifies words
    ensures words[..count + 1] == longer
  {
    words[count] := value;
  }

  /** Dotted octets at the end, as two words. */
  method ReadDotted(text: string, start: nat, words: array<nat>, count0: nat, ghost hole: int, ghost before: seq<nat>)
    returns (ok: bool, count: nat)
    requires start < |text| && words.Length == 8 && count0 < 8 && words[..count0] == before
    requires var t := text[start..]; var run := HexRun(t); run <= 4 && run < |t| && t[run] == '.'
    modifies words
    ensures count0 <= count <= 8
    ensures Groups(text[start..], before, hole) == if ok then Some((words[..count], hole)) else None
  {
    GroupDotted(text[start..], before, hole, HexRun(text[start..]));
    ok, count := false, count0;
    if count > 6 {
      return;
    }
    var v4;
    ok, v4 := ParseV4(text, start);
    if ok {
      AddWord(words, count, v4[0] * 256 + v4[1], before + [256 * v4[0] + v4[1]]);
      AddWord(words, count + 1, v4[2] * 256 + v4[3], before + [256 * v4[0] + v4[1]] + [256 * v4[2] + v4[3]]);
      TwoMoreIs(before, v4, hole);
      count := count + 2;
    }
  }

  lemma TwoMoreIs(words: seq<nat>, b: seq<nat>, hole: int)
    requires |b| == 4
    ensures TwoMore(words, Some(b), hole) == Some((words + [256 * b[0] + b[1]] + [256 * b[2] + b[3]], hole))
  {
    var x, y := 256 * b[0] + b[1], 256 * b[2] + b[3];
    assert words + [x, y] == words + [x] + [y];
  }

  /** What stands between two groups. */
  method ReadSeparator(text: string, start: nat, count: nat, hole0: int, ghost words: seq<nat>)
    returns (ok: bool, cursor: nat, hole: int)
    requires start <= |text| && -1 <= hole0 <= count == |words|
    ensures -1 <= hole <= count && start <= cursor <= |text|
    ensures Separated(text[start..], words, hole0) == if ok then Groups(text[cursor..], words, hole) else None
  {
    ok, cursor, hole := true, start, hole0;
    ghost var t := text[start..];
    if cursor == |text| {
      return;
    }
    ok := false;
    if text[cursor] != ':' {
      return;
    }
    cursor := cursor + 1;
    assert t[1..] == text[cursor..];
    if cursor < |text| && text[cursor] == ':' {
      if hole >= 0 {
        return;
      }
      hole := count;
      cursor := cursor + 1;
      assert t[2..] == text[cursor..];
    } else if cursor == |text| {
      return;
    }
    ok := true;
  }

  // ---------- printing ----------

  /** The words of sixteen bytes. */
  function WordsOf(bytes: seq<nat>): (words: seq<nat>)
    requires |bytes| == 16
    ensures |words| == 8
  {
    seq(8, i requires 0 <= i < 8 => 256 * bytes[2 * i] + bytes[2 * i + 1])
  }

  function BytesOf(words: seq<nat>): (bytes: seq<nat>)
    requires |words| == 8
    ensures |bytes| == 16
  {
    seq(16, i requires 0 <= i < 16 => if i % 2 == 0 then words[i / 2] / 256 else words[i / 2] % 256)
  }

  lemma {:induction false} WordsOfBytes(words: seq<nat>)
    requires |words| == 8 && AreWords(words)
    ensures WordsOf(BytesOf(words)) == words && forall i :: 0 <= i < 16 ==> IsByte(BytesOf(words)[i])
  {
    forall i | 0 <= i < 8 ensures WordsOf(BytesOf(words))[i] == words[i] {
      assert (2 * i) / 2 == i && (2 * i + 1) / 2 == i && (2 * i) % 2 == 0 && (2 * i + 1) % 2 == 1;
    }
  }

  /** The best run among those that start before i. */
  ghost predicate BestBefore(words: seq<nat>, i: nat, best: nat, n: nat) {
    && |words| == 8
    && (if n == 0 then best == 8 else n >= 2 && best < i && ZeroRun(words, best, n))
    && forall j: nat, m: nat :: j < i && m >= 2 && ZeroRun(words, j, m) ==> m < n || (m == n && best <= j)
  }

  /** Runs that start in a stretch of zeros with a nonzero word, or the end, behind it. */
  lemma {:induction false} BestNext(words: seq<nat>, i: nat, end: nat, best: nat, n: nat)
    requires BestBefore(words, i, best, n) && i < end <= 8
    requires (forall k :: i <= k < end ==> words[k] == 0) && (end < 8 ==> words[end] != 0)
    ensures var longer := end - i > n && end - i >= 2;
      BestBefore(words, end, if longer then i else best, if longer then end - i else n)
  {
    forall j: nat, m: nat | i <= j < end && m >= 2 && ZeroRun(words, j, m) ensures j + m <= end {
      if end < 8 && j + m > end { assert false; }
    }
  }

  /** Finds the first longest run of at least two zero words. */
  method FindBest(words: seq<nat>) returns (best: nat, bestLength: nat)
    requires |words| == 8
    ensures IsBest(words, best, bestLength)
  {
    best, bestLength := 8, 0;
    var i := 0;
    while i < 8
      invariant i <= 8 && BestBefore(words, i, best, bestLength)
    {
      if words[i] != 0 {
        i := i + 1;
        continue;
      }
      var end := i;
      while end < 8 && words[end] == 0
        invariant i <= end <= 8 && forall k :: i <= k < end ==> words[k] == 0
      {
        end := end + 1;
      }
      BestNext(words, i, end, best, bestLength);
      if end - i > bestLength && end - i >= 2 {
        best := i;
        bestLength := end - i;
      }
      i := end;
    }
  }

  lemma {:induction false} JoinedNext(words: seq<nat>, w: nat, longer: seq<nat>)
    requires words != [] && longer == words + [w]
    ensures Joined(longer) == Joined(words) + ([':'] + Hex(w))
    decreases |words|
  {
    var rest, more := words[1..], longer[1..];
    if rest == [] {
      assert more == [w];
    } else {
      assert more == rest + [w];
      JoinedNext(rest, w, more);
      Rejoin(Hex(words[0]), [':'], Joined(rest), [':'] + Hex(w));
    }
  }

  lemma Rejoin(a: string, b: string, c: string, d: string)
    ensures a + (b + (c + d)) == (a + (b + c)) + d
  {
  }

  function Separator(t: string): string {
    if t != [] && t[|t| - 1] != ':' then [':'] else []
  }

  /** One more word behind those joined. */
  lemma {:induction false} JoinedMore(words: seq<nat>, w: nat, longer: seq<nat>)
    requires AreWords(words) && longer == words + [w]
    ensures Joined(longer) == Joined(words) + (Separator(Joined(words)) + Hex(w))
  {
    if words == [] {
      NoneBefore(Hex(w));
      assert longer == [w];
    } else {
      JoinedNext(words, w, longer);
      JoinedPlain(words);
    }
  }

  /** One more word behind the double colon and those joined behind it. */
  lemma {:induction false} ShortenedMore(head: string, tail: seq<nat>, w: nat, longer: seq<nat>, t: string)
    requires AreWords(tail) && longer == tail + [w] && t == head + ("::" + Joined(tail))
    ensures head + ("::" + Joined(longer)) == t + (Separator(t) + Hex(w))
  {
    JoinedMore(tail, w, longer);
    JoinedPlain(tail);
    assert Separator(t) == Separator(Joined(tail));
    Rejoin(head, "::", Joined(tail), Separator(t) + Hex(w));
  }

  /** The text of the first i words, with the run shortened once it has been passed. */
  function Printed(words: seq<nat>, best: nat, n: nat, i: nat): string
    requires i <= |words|
  {
    if n == 0 || i <= best || best + n > i then Joined(words[..i])
    else Joined(words[..best]) + ("::" + Joined(words[best + n..i]))
  }

  /** Where the loop of printing may stand: not inside the run. */
  predicate Outside(best: nat, n: nat, i: nat) {
    i <= best || best + n <= i
  }

  /** Printing one more word: a colon before it unless it starts the text or follows a colon. */
  lemma {:induction false} PrintedNext(words: seq<nat>, best: nat, n: nat, i: nat, next: nat)
    requires AreWords(words) && i < |words| && next == i + 1 && Outside(best, n, i) && (n > 0 ==> i != best)
    ensures var t := Printed(words, best, n, i);
      Printed(words, best, n, next) == t + (Separator(t) + Hex(words[i]))
  {
    if n == 0 || next <= best {
      JoinedMore(words[..i], words[i], words[..next]);
    } else {
      var from := best + n;
      var tail, longer := words[from..i], words[from..next];
      assert longer == tail + [words[i]];
      ShortenedMore(Joined(words[..best]), tail, words[i], longer, Printed(words, best, n, i));
    }
  }

  lemma {:induction false} PrintedLength(words: seq<nat>, best: nat, n: nat, i: nat)
    requires AreWords(words) && |words| == 8 && i <= 8 && (n > 0 ==> n >= 2 && best + n <= 8)
    ensures |Printed(words, best, n, i)| <= 5 * i && (n > 0 && i == best ==> |Printed(words, best, n, i)| <= 30)
  {
    JoinedPlain(words[..i]);
    if !(n == 0 || i <= best || best + n > i) {
      JoinedPlain(words[..best]);
      JoinedPlain(words[best + n..i]);
    }
  }

  /** Writes text into the buffer behind the first length characters. */
  method Put(text: array<char>, length0: nat, part: string, ghost before: string) returns (length: nat)
    requires length0 + |part| <= text.Length && text[..length0] == before
    modifies text
    ensures length == length0 + |part| && text[..length] == before + part
  {
    CopyInto(text, length0, part);
    length := length0 + |part|;
    assert text[..][..length] == before + part;
  }

  // ---------- what is parsed is an address ----------

  lemma {:induction false} HexSmall(s: string)
    requires AllHex(s) && |s| <= 4
    ensures 0 <= HexNumber(s) && (|s| <= 1 ==> HexNumber(s) < 16) && (|s| <= 2 ==> HexNumber(s) < 256)
    ensures (|s| <= 3 ==> HexNumber(s) < 4096) && HexNumber(s) < 0x1_0000
    decreases |s|
  {
    if s != [] { HexSmall(s[..|s| - 1]); }
  }

  lemma {:induction false} OctetsBytes(t: string, n: nat)
    ensures Octets(t, n).Some? ==> |Octets(t, n).value| == n && forall i :: 0 <= i < n ==> IsByte(Octets(t, n).value[i])
    decreases n
  {
    var digits := t[..DigitRun(t)];
    if n == 1 && IsOctet(digits) {
      OctetsBytes(t[|digits|..], 0);
    } else if n > 1 && |digits| < |t| {
      OctetsBytes(t[|digits| + 1..], n - 1);
    }
  }

  lemma {:induction false} GroupsWords(t: string, words: seq<nat>, hole: int)
    requires AreWords(words)
    ensures Groups(t, words, hole).Some? ==> AreWords(Groups(t, words, hole).value.0)
    decreases |t|, 1
  {
    var run := HexRun(t);
    if t != [] && |words| < 8 && run <= 4 {
      if run < |t| && t[run] == '.' {
        OctetsBytes(t, 4);
      } else if run != 0 {
        HexSmall(t[..run]);
        SeparatedWords(t[run..], words + [HexNumber(t[..run])], hole);
      }
    }
  }

  lemma {:induction false} SeparatedWords(t: string, words: seq<nat>, hole: int)
    requires AreWords(words)
    ensures Separated(t, words, hole).Some? ==> AreWords(Separated(t, words, hole).value.0)
    decreases |t|, 0
  {
    if |t| > 1 && t[0] == ':' {
      if t[1] == ':' { GroupsWords(t[2..], words, |words|); } else { GroupsWords(t[1..], words, hole); }
    }
  }

  /** Whatever is parsed is an address. */
  lemma {:induction false} ParsedIsAddress(t: string)
    ensures Parsed(t).Some? ==> IsAddress(Parsed(t).value)
  {
    if ':' in t {
      if |t| > 1 && t[0] == ':' { GroupsWords(t[2..], [], 0); } else { GroupsWords(t, [], -1); }
    } else {
      OctetsBytes(t, 4);
    }
  }

  lemma {:induction false} SameWords(a: seq<nat>, b: seq<nat>)
    requires |a| == |b| == 16 && forall i :: 0 <= i < 16 ==> IsByte(a[i]) && IsByte(b[i])
    ensures WordsOf(a) == WordsOf(b) ==> a == b
  {
    if WordsOf(a) == WordsOf(b) {
      forall k | 0 <= k < 16 ensures a[k] == b[k] {
        var i := k / 2;
        assert WordsOf(a)[i] == WordsOf(b)[i];
        assert k == 2 * i || k == 2 * i + 1;
      }
    }
  }

  /** Moves the words behind the hole to the end and fills the hole with zeros. */
  method FillHole(words: array<nat>, count: nat, hole: nat, ghost read: seq<nat>)
    requires words.Length == 8 && hole <= count < 8 && read == words[..count]
    modifies words
    ensures Filled(read, hole) == Some(words[..])
  {
    var tail := count - hole;
    CopyInto(words, 8 - tail, words[hole..count]);
    assert words[..hole] == read[..hole] && words[8 - tail..] == read[hole..];
    CopyInto(words, hole, seq(8 - count, _ => 0));
    assert words[..] == read[..hole] + seq(8 - count, _ => 0) + read[hole..];
  }

  /** The high and low bytes of the words. */
  method SplitWords(words: seq<nat>) returns (bytes: seq<nat>)
    requires |words| == 8
    ensures bytes == BytesOf(words)
  {
    var parsed := new nat[16](_ => 0);
    var i := 0;
    while i < 8
      invariant 0 <= i <= 8
      invariant forall k :: 0 <= k < 2 * i ==> parsed[k] == BytesOf(words)[k]
    {
      parsed[2 * i] := words[i] / 256;
      parsed[2 * i + 1] := words[i] % 256;
      i := i + 1;
    }
    bytes := parsed[..];
  }

  class IPAddress {
    var bytes: seq<nat>
    var family: Family

    ghost predicate Valid()
      reads this
    {
      && |bytes| == 16 && (forall i :: 0 <= i < 16 ==> IsByte(bytes[i]))
      && (family == IPv4 ==> forall i :: 0 <= i < 12 ==> bytes[i] == 0)
    }

    /** The address. */
    ghost function Contents(): Value
      requires |bytes| == 16
      reads this
    {
      if family == IPv4 then V4(bytes[12..]) else V6(WordsOf(bytes))
    }

    constructor (family: Family)
      ensures Valid() && this.family == family && bytes == seq(16, _ => 0)
    {
      this.family, this.bytes := family, seq(16, _ => 0);
    }

    /** Equal addresses are those with equal values: the bytes that are not used are zero. */
    predicate Equals(other: IPAddress)
      requires Valid() && other.Valid()
      reads this, other
      ensures Equals(other) <==> Contents() == other.Contents()
    {
      SameWords(bytes, other.bytes);
      assert bytes == bytes[..12] + bytes[12..] && other.bytes == other.bytes[..12] + other.bytes[12..];
      family == other.family && bytes == other.bytes
    }

    /** The bytes hold the address in network order: words with the high byte first, octets in
        the last four. */
    ghost predicate HoldsBytes(v: Value)
      reads this
    {
      |bytes| == 16
      && match v
         case V4(octets) => |octets| == 4 && forall i :: 0 <= i < 4 ==> bytes[12 + i] == octets[i]
         case V6(words) =>
           |words| == 8 && forall i :: 0 <= i < 8 ==> bytes[2 * i] == words[i] / 256 && bytes[2 * i + 1] == words[i] % 256
    }

    /** Sets the address to the one that the text denotes; leaves it alone if there is none. */
    method FromString(text: string) returns (ok: bool)
      requires Valid()
      modifies this
      ensures Valid() && (ok <==> Parsed(text).Some?)
      ensures ok ==> HoldsBytes(Parsed(text).value)
      ensures if ok then Contents() == Parsed(text).value else bytes == old(bytes) && family == old(family)
    {
      if ':' in text {
        ok := FromString6(text);
      } else {
        ok := FromString4(text);
      }
    }

    method FromString4(text: string) returns (ok: bool)
      requires Valid() && ':' !in text
      modifies this
      ensures Valid() && (ok <==> Parsed(text).Some?)
      ensures ok ==> HoldsBytes(Parsed(text).value)
      ensures if ok then Contents() == Parsed(text).value else bytes == old(bytes) && family == old(family)
    {
      assert text[0..] == text;
      var octets;
      ok, octets := ParseV4(text, 0);
      if ok {
        ParsedIsAddress(text);
        bytes, family := seq(12, _ => 0) + octets, IPv4;
        assert bytes[12..] == octets;
      }
    }

    method FromString6(text: string) returns (ok: bool)
      requires Valid() && ':' in text
      modifies this
      ensures Valid() && (ok <==> Parsed(text).Some?)
      ensures ok ==> HoldsBytes(Parsed(text).value)
      ensures if ok then Contents() == Parsed(text).value else bytes == old(bytes) && family == old(family)
    {
      var words;
      ok, words := ReadWords(text);
      if ok {
        ParsedIsAddress(text);
        WordsOfBytes(words);
        var parsed := SplitWords(words);
        bytes, family := parsed, IPv6;
      }
    }

    /** The text of the address, built in a buffer of 48 characters. */
    method PrintTo() returns (text: string)
      requires Valid()
      ensures Canonical(Contents(), text) && Parsed(text) == Some(Contents()) && |text| < BUFFER_SIZE
    {
      if family == IPv4 {
        text := Dec(bytes[12]) + ("." + (Dec(bytes[13]) + ("." + (Dec(bytes[14]) + ("." + Dec(bytes[15]))))));
        DottedFour(bytes[12..]);
      } else {
        text := PrintWords(WordsOf(bytes));
      }
      RoundTrip(Contents(), text);
    }
  }

  lemma DottedFour(b: seq<nat>)
    requires |b| == 4
    ensures Dotted(b) == Dec(b[0]) + ("." + (Dec(b[1]) + ("." + (Dec(b[2]) + ("." + Dec(b[3]))))))
  {
    var b1, b2, b3 := b[1..], b[2..], b[3..];
    assert b1[1..] == b2 && b2[1..] == b3;
    assert Dotted(b3) == Dec(b[3]);
    assert Dotted(b2) == Dec(b[2]) + ("." + Dotted(b3));
    assert Dotted(b1) == Dec(b[1]) + ("." + Dotted(b2));
  }

  /** The eight words that a text denotes. */
  method ReadWords(text: string) returns (ok: bool, parsed: seq<nat>)
    ensures if ok then Parsed6(text) == Some(parsed) && |parsed| == 8 else Parsed6(text) == None
  {
    ok, parsed := false, [];
    if text == [] {
      return;
    }
    var cursor, hole := 0, -1;
    if text[0] == ':' {
      if |text| == 1 || text[1] != ':' {
        return;
      }
      hole := 0;
      cursor := 2;
    }
    assert text[0..] == text;
    var read, words, count;
    read, words, count, hole := ReadGroups(text, cursor, hole);
    if !read || (hole < 0 && count != 8) {
      return;
    }
    if hole >= 0 {
      if count >= 8 {
        return;
      }
      FillHole(words, count, hole, words[..count]);
    }
    ok, parsed := true, words[..];
    assert hole < 0 ==> words[..count] == parsed;
  }

  /** The text of eight words. */
  method PrintWords(words: seq<nat>) returns (result: string)
    requires |words| == 8 && AreWords(words)
    ensures exists best, n :: IsBest(words, best, n) && result == Text6(words, best, n)
  {
    var best, bestLength := FindBest(words);
    result := PrintAround(words, best, bestLength);
  }

  /** The text of eight words with a run of them shortened. */
  method PrintAround(words: seq<nat>, best: nat, bestLength: nat) returns (result: string)
    requires |words| == 8 && AreWords(words) && if bestLength == 0 then best == 8 else bestLength >= 2 && best + bestLength <= 8
    ensures result == Text6(words, best, bestLength)
  {
    var text := new char[BUFFER_SIZE](_ => '\0');
    var length, i := 0, 0;
    ghost var t: string := [];
    while i < 8
      invariant 0 <= i <= 8 && length == |t| <= BUFFER_SIZE && text[..length] == t
      invariant t == Printed(words, best, bestLength, i) && Outside(best, bestLength, i)
      decreases 8 - i
    {
      PrintedLength(words, best, bestLength, i);
      if i == best {
        PrintedRun(words, best, bestLength);
        length := Put(text, length, "::", t);
        t := t + "::";
        i := i + bestLength;
        continue;
      }
      PrintedNext(words, best, bestLength, i, i + 1);
      HexLength(words[i]);
      length := PutWord(text, length, words[i], t);
      t := t + (Separator(t) + Hex(words[i]));
      i := i + 1;
    }
    result := text[..length];
    assert words[..8] == words;
  }

  /** Writes a word into the buffer, behind a colon unless there is one or nothing. */
  method PutWord(text: array<char>, length0: nat, word: nat, ghost t: string) returns (length: nat)
    requires IsWord(word) && length0 + 5 <= text.Length && text[..length0] == t && |Hex(word)| <= 4
    modifies text
    ensures length == |t| + |Separator(t) + Hex(word)| <= text.Length && text[..length] == t + (Separator(t) + Hex(word))
  {
    length := length0;
    ghost var sep := Separator(t);
    if length != 0 && text[length - 1] != ':' {
      length := Put(text, length, ":", t);
    }
    length := Put(text, length, Hex(word), t + sep);
    Assoc(t, sep, Hex(word));
  }

  lemma {:induction false} PrintedRun(words: seq<nat>, best: nat, n: nat)
    requires |words| == 8 && n > 0 && best + n <= 8
    ensures Printed(words, best, n, best + n) == Printed(words, best, n, best) + "::"
  {
    assert words[best + n..best + n] == [];
    NoneAfter("::");
  }
}
