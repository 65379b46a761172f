/** What the text of an address denotes, in words of its own: which texts the parser accepts, in
    whatever case and with whatever zeros, and which address each stands for. */
module IPAddressNotation {
  import opened Bits
  import opened IPAddress
  import opened Wrappers
  import Texts

  // ---------- digits ----------

  /** The value of a hexadecimal digit; 16 for any other character. */
  function DigitOf(c: char): nat {
    match c
    case '0' => 0 case '1' => 1 case '2' => 2 case '3' => 3 case '4' => 4
    case '5' => 5 case '6' => 6 case '7' => 7 case '8' => 8 case '9' => 9
    case 'a' => 10 case 'b' => 11 case 'c' => 12 case 'd' => 13 case 'e' => 14 case 'f' => 15
    case 'A' => 10 case 'B' => 11 case 'C' => 12 case 'D' => 13 case 'E' => 14 case 'F' => 15
    case _ => 16
  }

  lemma DigitOfIs(c: char)
    ensures HexValue(c) == if DigitOf(c) < 16 then DigitOf(c) else -1
    ensures IsDigit(c) <==> DigitOf(c) <= 9
    ensures IsDigit(c) ==> c as int - 48 == DigitOf(c)
  {
  }

  function Power(base: nat, k: nat): nat {
    if k == 0 then 1 else base * Power(base, k - 1)
  }

  /** The number that digits denote: each times a power of the base. */
  function PlaceValue(digits: string, base: nat): nat {
    if digits == [] then 0 else DigitOf(digits[0]) * Power(base, |digits| - 1) + PlaceValue(digits[1..], base)
  }

  lemma {:induction false} PlaceNext(digits: string, c: char, base: nat)
    ensures PlaceValue(digits + [c], base) == base * PlaceValue(digits, base) + DigitOf(c)
  {
    if digits == [] {
      assert ([] + [c])[1..] == [];
    } else {
      var rest, d, power := digits[1..], DigitOf(digits[0]), Power(base, |digits| - 1);
      assert (digits + [c])[1..] == rest + [c] && (digits + [c])[0] == digits[0];
      PlaceNext(rest, c, base);
      Distribute(base, d, power, PlaceValue(rest, base));
    }
  }

  lemma Distribute(base: int, d: int, power: int, rest: int)
    ensures base * (d * power + rest) == d * (base * power) + base * rest
  {
    assert base * (d * power) == d * (base * power);
  }

  lemma {:induction false} HexIs(digits: string)
    requires forall i :: 0 <= i < |digits| ==> DigitOf(digits[i]) < 16
    ensures HexNumber(digits) == PlaceValue(digits, 16)
  {
    if digits != [] {
      var front, last := digits[..|digits| - 1], digits[|digits| - 1];
      HexIs(front);
      DigitOfIs(last);
      PlaceNext(front, last, 16);
      assert digits == front + [last];
    }
  }

  lemma {:induction false} DecIs(digits: string)
    requires forall i :: 0 <= i < |digits| ==> '0' <= digits[i] <= '9'
    ensures DecNumber(digits) == PlaceValue(digits, 10)
  {
    if digits != [] {
      var front, last := digits[..|digits| - 1], digits[|digits| - 1];
      DecIs(front);
      DigitOfIs(last);
      PlaceNext(front, last, 10);
      assert digits == front + [last];
    }
  }

  // ---------- notation ----------

  /** One to four hexadecimal digits, of either case. */
  predicate IsGroup(group: string) {
    1 <= |group| <= 4 && forall i :: 0 <= i < |group| ==> DigitOf(group[i]) < 16
  }

  /** One to three decimal digits, no more than 255. */
  predicate IsOctetText(octet: string) {
    && 1 <= |octet| <= 3 && (forall i :: 0 <= i < |octet| ==> '0' <= octet[i] <= '9')
    && PlaceValue(octet, 10) <= 255
  }

  predicate AreGroups(groups: seq<string>) {
    forall i :: 0 <= i < |groups| ==> IsGroup(groups[i])
  }

  predicate AreOctets(octets: seq<string>) {
    forall i :: 0 <= i < |octets| ==> IsOctetText(octets[i])
  }

  function Values(parts: seq<string>, base: nat): (values: seq<nat>)
    ensures |values| == |parts|
  {
    if parts == [] then [] else [PlaceValue(parts[0], base)] + Values(parts[1..], base)
  }

  /** An address in text: groups with colons between them, where a double colon may stand for
      zeros, and the last two words may be four octets with dots. */
  datatype Notation = Notation(head: seq<string>, gap: bool, tail: seq<string>, quad: seq<string>)

  predicate WellFormed(n: Notation) {
    && AreGroups(n.head) && AreGroups(n.tail) && AreOctets(n.quad) && (n.quad == [] || |n.quad| == 4)
    && (!n.gap ==> n.tail == [])
  }

  /** How many words are written out. */
  function Count(n: Notation): nat {
    |n.head| + |n.tail| + if n.quad == [] then 0 else 2
  }

  /** Eight words, or at most seven and a double colon. */
  predicate IsNotation(n: Notation) {
    WellFormed(n) && if n.gap then Count(n) < 8 else Count(n) == 8
  }

  function WithQuad(groups: seq<string>, quad: seq<string>): seq<string> {
    if quad == [] then groups else groups + [Texts.Joined(quad, '.')]
  }

  function TextOf(n: Notation): string {
    if n.gap then Texts.Joined(n.head, ':') + ("::" + Texts.Joined(WithQuad(n.tail, n.quad), ':'))
    else Texts.Joined(WithQuad(n.head, n.quad), ':')
  }

  /** The words of four octets. */
  function PairOf(b: seq<nat>): (pair: seq<nat>)
    requires |b| == 4
    ensures |pair| == 2
  {
    [256 * b[0] + b[1], 256 * b[2] + b[3]]
  }

  function QuadWords(quad: seq<string>): seq<nat> {
    if |quad| == 4 then PairOf(Values(quad, 10)) else []
  }

  /** The words before and behind a double colon, with zeros for it. */
  function Spread(gap: bool, front: seq<nat>, back: seq<nat>): seq<nat> {
    if gap && |front| + |back| <= 8 then front + (seq(8 - |front| - |back|, _ => 0) + back) else front + back
  }

  /** The words that a notation stands for. */
  function WordsOfNotation(n: Notation): seq<nat> {
    Spread(n.gap, Values(n.head, 16), Values(n.tail, 16) + QuadWords(n.quad))
  }

  // ---------- octets ----------

  lemma {:induction false} OctetValue(octet: string)
    requires IsOctetText(octet)
    ensures DecNumber(octet) == PlaceValue(octet, 10) && IsOctet(octet) && AllDigits(octet)
  {
    DecIs(octet);
    DigitsGrow(octet, 0);
    assert octet[..0] == [];
  }

  /** Octets with dots between them are read one after the other. */
  lemma {:induction false} OctetsRead(quad: seq<string>, n: nat)
    requires AreOctets(quad) && |quad| == n > 0
    ensures Octets(Texts.Joined(quad, '.'), n) == Some(Values(quad, 10))
    decreases n
  {
    var octet, rest, m := quad[0], quad[1..], n - 1;
    var t, text := Texts.Joined(rest, '.'), Texts.Joined(quad, '.');
    OctetValue(octet);
    if m == 0 {
      NoneAfter(octet);
    } else {
      OctetsRead(rest, m);
    }
    DigitRunIs(octet, if m == 0 then t else "." + t);
    OctetsUnfold(text, octet, t, PlaceValue(octet, 10), n, m);
  }

  /** What a text that is read as octets starts with. */
  lemma {:induction false} OctetFrom(t: string, n: nat, m: nat) returns (octet: string, rest: string)
    requires n == m + 1 && Octets(t, n).Some?
    ensures IsOctetText(octet) && Octets(rest, m).Some? && |Octets(rest, m).value| == m
    ensures Octets(t, n).value == [PlaceValue(octet, 10)] + Octets(rest, m).value
    ensures t == if m == 0 then octet else octet + (['.'] + rest)
  {
    var k := DigitRun(t);
    octet := t[..k];
    OctetUnfold(t, octet, n, m);
    DecIs(octet);
    rest := if m == 0 then t[k..] else t[k + 1..];
    OctetsBytes(rest, m);
    if m > 0 { CutAt(t, k, '.'); } else { assert Octets(rest, 0).Some? ==> rest == []; }
  }

  lemma CutAt(t: string, k: nat, c: char)
    requires k < |t| && t[k] == c
    ensures t == t[..k] + ([c] + t[k + 1..])
  {
  }

  lemma OctetUnfold(t: string, octet: string, n: nat, m: nat)
    requires n == m + 1 && octet == t[..DigitRun(t)] && Octets(t, n).Some?
    ensures IsOctet(octet) && (m > 0 ==> |octet| < |t| && t[|octet|] == '.')
    ensures var rest := Octets(if m == 0 then t[|octet|..] else t[|octet| + 1..], m);
      rest.Some? && Octets(t, n).value == [DecNumber(octet)] + rest.value
  {
  }

  /** Whatever is read as octets is octets with dots between them. */
  lemma {:induction false} OctetsFrom(t: string, n: nat, m: nat) returns (quad: seq<string>)
    requires n == m + 1 && Octets(t, n).Some?
    ensures AreOctets(quad) && |quad| == n && t == Texts.Joined(quad, '.') && Octets(t, n).value == Values(quad, 10)
    decreases n
  {
    var octet, rest := OctetFrom(t, n, m);
    if m == 0 {
      quad := [octet];
      assert [octet][1..] == [] && Values([], 10) == [];
    } else {
      var more := OctetsFrom(rest, m, m - 1);
      quad := [octet] + more;
      assert quad[1..] == more;
    }
  }

  // ---------- groups ----------

  lemma {:induction false} GroupValue(group: string)
    requires IsGroup(group)
    ensures HexNumber(group) == PlaceValue(group, 16) && AllHex(group)
  {
    HexIs(group);
    forall i | 0 <= i < |group| ensures HexValue(group[i]) >= 0 { DigitOfIs(group[i]); }
  }

  /** A group in front of what follows it. */
  lemma {:induction false} GroupRead(group: string, t: string, words: seq<nat>, hole: int)
    requires IsGroup(group) && |words| < 8 && (t == [] || t[0] == ':')
    ensures Groups(group + t, words, hole) == Separated(t, words + [PlaceValue(group, 16)], hole)
  {
    GroupValue(group);
    HexRunIs(group, t);
  }

  lemma {:induction false} GroupsStart(groups: seq<string>, t: string)
    requires groups != [] && IsGroup(groups[0])
    ensures Texts.Joined(groups, ':') != [] && (Texts.Joined(groups, ':') + t)[0] != ':'
  {
  }

  /** Groups with colons between them are read one after the other. */
  lemma {:induction false} GroupsRead(groups: seq<string>, t: string, words: seq<nat>, hole: int)
    requires groups != [] && AreGroups(groups) && |words| + |groups| <= 8 && (t == [] || t[0] == ':')
    ensures Groups(Texts.Joined(groups, ':') + t, words, hole) == Separated(t, words + Values(groups, 16), hole)
    decreases |groups|
  {
    var group, rest, value := groups[0], groups[1..], PlaceValue(groups[0], 16);
    assert Values(groups, 16) == [value] + Values(rest, 16);
    if rest == [] {
      GroupRead(group, t, words, hole);
      NoneAfter([value]);
    } else {
      var behind := Texts.Joined(rest, ':') + t;
      Assoc4(group, [':'], Texts.Joined(rest, ':'), t);
      Assoc(group, [':'] + Texts.Joined(rest, ':'), t);
      Assoc([':'], Texts.Joined(rest, ':'), t);
      GroupRead(group, [':'] + behind, words, hole);
      GroupsStart(rest, t);
      NextGroup(behind, words + [value], hole);
      GroupsRead(rest, t, words + [value], hole);
      Assoc(words, [value], Values(rest, 16));
    }
  }

  lemma NextGroup(t: string, words: seq<nat>, hole: int)
    requires t != [] && t[0] != ':'
    ensures Separated([':'] + t, words, hole) == Groups(t, words, hole)
  {
    assert ([':'] + t)[1..] == t;
  }

  lemma {:induction false} QuadStart(quad: seq<string>)
    requires AreOctets(quad) && |quad| == 4
    ensures var text := Texts.Joined(quad, '.');
      HexRun(text) == |quad[0]| < |text| && text[|quad[0]|] == '.' && text[0] != ':'
  {
    var octet, rest := quad[0], Texts.Joined(quad[1..], '.');
    OctetValue(octet);
    forall i | 0 <= i < |octet| ensures HexValue(octet[i]) >= 0 { assert IsDigit(octet[i]); }
    HexRunIs(octet, ['.'] + rest);
    assert IsDigit(octet[0]);
  }

  /** Four octets at the end are two words. */
  lemma {:induction false} QuadRead(quad: seq<string>, text: string, words: seq<nat>, hole: int)
    requires AreOctets(quad) && |quad| == 4 && |words| <= 6 && text == Texts.Joined(quad, '.')
    ensures Groups(text, words, hole) == Some((words + QuadWords(quad), hole))
    ensures text != [] && text[0] != ':'
  {
    var b, run := Values(quad, 10), |quad[0]|;
    assert Octets(text, 4) == Some(b) by { OctetsRead(quad, 4); }
    QuadStart(quad);
    QuadGroups(text, run, b, words, hole);
  }

  lemma QuadGroups(text: string, run: nat, b: seq<nat>, words: seq<nat>, hole: int)
    requires HexRun(text) == run <= 4 && run < |text| && text[run] == '.' && |words| <= 6
    requires Octets(text, 4) == Some(b) && |b| == 4
    ensures Groups(text, words, hole) == Some((words + PairOf(b), hole))
  {
    GroupDotted(text, words, hole, run);
  }

  /** Groups, and perhaps four octets, up to the end of the text. */
  lemma {:induction false} PartsRead(groups: seq<string>, quad: seq<string>, words: seq<nat>, hole: int)
    requires AreGroups(groups) && AreOctets(quad) && (quad == [] || |quad| == 4)
    requires |words| + |groups| + (if quad == [] then 0 else 2) <= 8
    ensures Groups(Texts.Joined(WithQuad(groups, quad), ':'), words, hole)
         == Some((words + (Values(groups, 16) + QuadWords(quad)), hole))
  {
    var values, last := Values(groups, 16), Texts.Joined(quad, '.');
    if quad != [] { QuadRead(quad, last, words + values, hole); }
    Assoc(words, values, QuadWords(quad));
    if groups == [] {
      NoneAfter(words);
      NoneBefore(QuadWords(quad));
      if quad == [] { NoneAfter(words); } else { assert WithQuad(groups, quad) == [last]; }
    } else {
      var t := if quad == [] then [] else [':'] + last;
      JoinedMore(groups, last);
      NoneAfter(Texts.Joined(groups, ':'));
      NoneAfter(values);
      NoneAfter(words + values);
      GroupsRead(groups, t, words, hole);
      if quad != [] { NextGroup(last, words + values, hole); }
    }
  }

  lemma {:induction false} JoinedMore(groups: seq<string>, last: string)
    requires groups != []
    ensures Texts.Joined(groups + [last], ':') == Texts.Joined(groups, ':') + ([':'] + last)
    decreases |groups|
  {
    var all := groups + [last];
    assert all[1..] == groups[1..] + [last] && all[0] == groups[0];
    if |groups| == 1 {
      assert all[1..] == [last];
    } else {
      JoinedMore(groups[1..], last);
      Assoc4(groups[0], [':'], Texts.Joined(groups[1..], ':'), [':'] + last);
      Assoc(groups[0], [':'] + Texts.Joined(groups[1..], ':'), [':'] + last);
    }
  }

  // ---------- what a notation denotes ----------

  lemma WordsKept(n: Notation)
    requires IsNotation(n)
    ensures Filled(Values(n.head, 16) + (Values(n.tail, 16) + QuadWords(n.quad)), if n.gap then |n.head| else -1)
         == Some(WordsOfNotation(n))
  {
    var front, back := Values(n.head, 16), Values(n.tail, 16) + QuadWords(n.quad);
    var kept := front + back;
    if n.gap {
      assert kept[..|front|] == front && kept[|front|..] == back;
      Assoc(front, seq(8 - |kept|, _ => 0), back);
    }
  }

  /** The text of a notation without a double colon. */
  lemma {:induction false} PlainRead(n: Notation)
    requires IsNotation(n) && !n.gap
    ensures Parsed6(TextOf(n)) == Some(WordsOfNotation(n)) && ':' in TextOf(n)
  {
    var values, pair := Values(n.head, 16), QuadWords(n.quad);
    PartsRead(n.head, n.quad, [], -1);
    GroupsStart(n.head, "");
    PartsStart(n.head, n.quad);
    NoneBefore(values + pair);
    NoneBefore(pair);
    WordsKept(n);
  }

  lemma {:induction false} PartsStart(groups: seq<string>, quad: seq<string>)
    requires |groups| >= 2 && AreGroups(groups)
    ensures var text := Texts.Joined(WithQuad(groups, quad), ':');
      text != [] && text[0] != ':' && ':' in text
  {
    var parts := WithQuad(groups, quad);
    assert parts[0] == groups[0];
    assert Texts.Joined(parts, ':')[|groups[0]|] == ':';
  }

  lemma {:induction false} GapRead(n: Notation)
    requires IsNotation(n) && n.gap
    ensures Parsed6(TextOf(n)) == Some(WordsOfNotation(n)) && ':' in TextOf(n)
  {
    var front, back, t := Values(n.head, 16), Values(n.tail, 16) + QuadWords(n.quad), Texts.Joined(WithQuad(n.tail, n.quad), ':');
    PartsRead(n.tail, n.quad, front, |front|);
    WordsKept(n);
    assert ("::" + t)[2..] == t;
    var text := TextOf(n);
    assert text[|Texts.Joined(n.head, ':')|] == ':';
    if n.head == [] {
      NoneBefore("::" + t);
    } else {
      GroupsRead(n.head, "::" + t, [], -1);
      NoneBefore(front);
      GroupsStart(n.head, "::" + t);
    }
  }

  /** The text of every notation is read as the words that it stands for. */
  lemma {:induction false} NotationRead(n: Notation)
    requires IsNotation(n)
    ensures Parsed(TextOf(n)) == Some(V6(WordsOfNotation(n)))
  {
    if n.gap { GapRead(n); } else { PlainRead(n); }
  }

  // ---------- which texts are read ----------

  /** What was read of groups: before a double colon if one was met, and behind it. */
  ghost predicate Describes(n: Notation, t: string, words: seq<nat>, hole: int, r: (seq<nat>, int)) {
    && WellFormed(n) && t == TextOf(n) && (n.gap ==> hole < 0 && n.head != [])
    && r.0 == words + (Values(n.head, 16) + (Values(n.tail, 16) + QuadWords(n.quad)))
    && r.1 == if n.gap then |words| + |n.head| else hole
  }

  /** The notation with one more group in front. */
  function Prepend(group: string, n: Notation): Notation {
    n.(head := [group] + n.head)
  }

  lemma {:induction false} PrependText(group: string, n: Notation)
    requires TextOf(n) != [] && (n.gap ==> n.head != [])
    ensures TextOf(Prepend(group, n)) == group + ([':'] + TextOf(n))
  {
    var all := [group] + n.head;
    assert all[1..] == n.head;
    if n.gap {
      var behind := "::" + Texts.Joined(WithQuad(n.tail, n.quad), ':');
      Assoc(group, [':'] + Texts.Joined(n.head, ':'), behind);
      Assoc([':'], Texts.Joined(n.head, ':'), behind);
    } else {
      var parts := WithQuad(n.head, n.quad);
      assert WithQuad(all, n.quad) == [group] + parts;
      assert ([group] + parts)[1..] == parts;
    }
  }

  lemma {:induction false} PrependWords(group: string, n: Notation, words: seq<nat>)
    ensures var back := Values(n.tail, 16) + QuadWords(n.quad);
      (words + [PlaceValue(group, 16)]) + (Values(n.head, 16) + back)
        == words + (Values(Prepend(group, n).head, 16) + back)
  {
    var back, value := Values(n.tail, 16) + QuadWords(n.quad), PlaceValue(group, 16);
    assert ([group] + n.head)[1..] == n.head;
    Assoc([value], Values(n.head, 16), back);
    Assoc(words, [value], Values(n.head, 16) + back);
  }

  lemma {:induction false} Prepended(group: string, n: Notation, u: string, words: seq<nat>, longer: seq<nat>, hole: int, r: (seq<nat>, int))
    requires IsGroup(group) && u != [] && longer == words + [PlaceValue(group, 16)] && Describes(n, u, longer, hole, r)
    ensures Describes(Prepend(group, n), group + ([':'] + u), words, hole, r)
  {
    PrependText(group, n);
    PrependWords(group, n, words);
    forall i | 0 <= i < |n.head| + 1 ensures IsGroup(Prepend(group, n).head[i]) {
      if i > 0 { assert Prepend(group, n).head[i] == n.head[i - 1]; }
    }
  }

  /** A group, a double colon, and what was read behind it. */
  lemma {:induction false} Gapped(group: string, n: Notation, u: string, words: seq<nat>, longer: seq<nat>, r: (seq<nat>, int))
    requires IsGroup(group) && longer == words + [PlaceValue(group, 16)] && Describes(n, u, longer, |longer|, r)
    ensures Describes(Notation([group], true, n.head, n.quad), group + ("::" + u), words, -1, r)
  {
    var value, back := PlaceValue(group, 16), Values(n.head, 16) + QuadWords(n.quad);
    assert n.tail == [];
    assert [group][1..] == [];
    assert Values([group], 16) == [value];
    NoneBefore(QuadWords(n.quad));
    Assoc(words, [value], back);
    assert WellFormed(Notation([group], true, n.head, n.quad));
  }

  lemma {:induction false} Alone(group: string, words: seq<nat>, hole: int)
    requires IsGroup(group)
    ensures Describes(Notation([group], false, [], []), group, words, hole, (words + [PlaceValue(group, 16)], hole))
  {
    assert [group][1..] == [];
    var value := PlaceValue(group, 16);
    assert Values([group], 16) == [value];
    NoneAfter([value]);
  }

  lemma {:induction false} QuadAlone(quad: seq<string>, words: seq<nat>, hole: int)
    requires AreOctets(quad) && |quad| == 4
    ensures Describes(Notation([], false, [], quad), Texts.Joined(quad, '.'), words, hole, (words + QuadWords(quad), hole))
  {
    NoneBefore(QuadWords(quad));
    assert WithQuad([], quad) == [Texts.Joined(quad, '.')];
  }

  lemma Nothing(words: seq<nat>, hole: int)
    ensures Describes(Notation([], false, [], []), [], words, hole, (words, hole))
  {
    assert words + ([] + ([] + [])) == words;
  }

  /** What a text that is read as groups starts with, unless it is octets. */
  lemma {:induction false} GroupFrom(t: string, words: seq<nat>, hole: int) returns (group: string, rest: string)
    requires Groups(t, words, hole).Some? && t != [] && !(HexRun(t) < |t| && t[HexRun(t)] == '.')
    ensures IsGroup(group) && t == group + rest
    ensures Separated(rest, words + [PlaceValue(group, 16)], hole) == Groups(t, words, hole)
  {
    var run := HexRun(t);
    group, rest := t[..run], t[run..];
    forall i | 0 <= i < |group| ensures DigitOf(group[i]) < 16 { DigitOfIs(t[i]); }
    GroupPlain(t, words, hole, run, HexNumber(group), rest);
    GroupValue(group);
  }

  lemma QuadFrom(t: string, words: seq<nat>, hole: int) returns (quad: seq<string>)
    requires Groups(t, words, hole).Some? && HexRun(t) < |t| && t[HexRun(t)] == '.'
    ensures AreOctets(quad) && |quad| == 4 && t == Texts.Joined(quad, '.')
    ensures Groups(t, words, hole).value == (words + QuadWords(quad), hole)
  {
    var run := HexRun(t);
    GroupDotted(t, words, hole, run);
    quad := OctetsFrom(t, 4, 3);
    QuadGroups(t, run, Values(quad, 10), words, hole);
  }

  /** What follows a group. */
  lemma SeparatorFrom(t: string, words: seq<nat>, hole: int) returns (u: string)
    requires Separated(t, words, hole).Some? && t != []
    ensures
      || (u != [] && u[0] != ':' && t == [':'] + u && Separated(t, words, hole) == Groups(u, words, hole))
      || (hole < 0 && t == "::" + u && Separated(t, words, hole) == Groups(u, words, |words|))
  {
    u := if t[1] == ':' then t[2..] else t[1..];
  }

  /** Whatever is read as groups is the text of some notation. */
  lemma {:induction false} GroupsFrom(t: string, words: seq<nat>, hole: int) returns (n: Notation)
    requires Groups(t, words, hole).Some? && hole >= -1
    ensures Describes(n, t, words, hole, Groups(t, words, hole).value)
    decreases |t|
  {
    if t == [] {
      n := Notation([], false, [], []);
      Nothing(words, hole);
    } else if HexRun(t) < |t| && t[HexRun(t)] == '.' {
      var quad := QuadFrom(t, words, hole);
      n := Notation([], false, [], quad);
      QuadAlone(quad, words, hole);
    } else {
      var group, rest := GroupFrom(t, words, hole);
      n := RestFrom(t, group, rest, words, words + [PlaceValue(group, 16)], hole);
    }
  }

  lemma {:induction false} RestFrom(t: string, group: string, rest: string, words: seq<nat>, longer: seq<nat>, hole: int)
    returns (n: Notation)
    requires IsGroup(group) && t == group + rest && longer == words + [PlaceValue(group, 16)] && hole >= -1
    requires Separated(rest, longer, hole).Some?
    ensures Describes(n, t, words, hole, Separated(rest, longer, hole).value)
    decreases |rest|
  {
    if rest == [] {
      n := Notation([group], false, [], []);
      NoneAfter(group);
      Alone(group, words, hole);
    } else {
      var u := SeparatorFrom(rest, longer, hole);
      if u != [] && u[0] != ':' && rest == [':'] + u {
        var m := GroupsFrom(u, longer, hole);
        Prepended(group, m, u, words, longer, hole, Groups(u, longer, hole).value);
        n := Prepend(group, m);
      } else {
        var m := GroupsFrom(u, longer, |longer|);
        Gapped(group, m, u, words, longer, Groups(u, longer, |longer|).value);
        n := Notation([group], true, m.head, m.quad);
      }
    }
  }

  lemma FilledFrom(n: Notation, words: seq<nat>, hole: int)
    requires WellFormed(n) && Filled(words, hole).Some? && hole == if n.gap then |n.head| else -1
    requires words == Values(n.head, 16) + (Values(n.tail, 16) + QuadWords(n.quad))
    ensures IsNotation(n) && Filled(words, hole) == Some(WordsOfNotation(n))
  {
    assert |words| == Count(n);
    WordsKept(n);
  }

  /** A double colon at the very start. */
  lemma {:induction false} LeadingGap(u: string, m: Notation, r: (seq<nat>, int)) returns (n: Notation)
    requires Describes(m, u, [], 0, r)
    ensures WellFormed(n) && n.gap && n.head == [] && "::" + u == TextOf(n) && r.1 == 0
    ensures r.0 == Values(n.head, 16) + (Values(n.tail, 16) + QuadWords(n.quad))
  {
    n := Notation([], true, m.head, m.quad);
    var back := Values(m.head, 16) + QuadWords(m.quad);
    NoneBefore("::" + u);
    NoneBefore(QuadWords(m.quad));
    NoneBefore(back);
  }

  /** Whatever is read as eight words is the text of some notation of them. */
  lemma {:induction false} NotationFrom(t: string) returns (n: Notation)
    requires Parsed6(t).Some?
    ensures IsNotation(n) && t == TextOf(n) && Parsed6(t) == Some(WordsOfNotation(n))
  {
    if t[0] == ':' {
      var u := t[2..];
      assert t == "::" + u;
      var m := GroupsFrom(u, [], 0);
      n := LeadingGap(u, m, Groups(u, [], 0).value);
      FilledFrom(n, Groups(u, [], 0).value.0, 0);
    } else {
      n := GroupsFrom(t, [], -1);
      var r := Groups(t, [], -1).value;
      NoneBefore(Values(n.head, 16) + (Values(n.tail, 16) + QuadWords(n.quad)));
      FilledFrom(n, r.0, r.1);
    }
  }

  ghost predicate Notes(n: Notation, t: string, words: seq<nat>) {
    IsNotation(n) && t == TextOf(n) && words == WordsOfNotation(n)
  }

  ghost predicate NotesQuad(quad: seq<string>, t: string, octets: seq<nat>) {
    |quad| == 4 && AreOctets(quad) && t == Texts.Joined(quad, '.') && octets == Values(quad, 10)
  }

  /** Exactly what is read: the notations of eight words, and four octets with dots. */
  lemma {:induction false} TextDenotes(t: string, v: Value)
    ensures Parsed(t) == Some(v) <==>
      match v
      case V6(words) => exists n :: Notes(n, t, words)
      case V4(octets) => exists quad :: NotesQuad(quad, t, octets)
  {
    match v
    case V6(words) =>
      if Parsed(t) == Some(v) {
        var n := NotationFrom(t);
        assert Notes(n, t, words);
      }
      if exists n :: Notes(n, t, words) {
        var n :| Notes(n, t, words);
        NotationRead(n);
      }
    case V4(octets) =>
      if Parsed(t) == Some(v) {
        var quad := OctetsFrom(t, 4, 3);
        assert NotesQuad(quad, t, octets);
      }
      if exists quad :: NotesQuad(quad, t, octets) {
        var quad :| NotesQuad(quad, t, octets);
        OctetsRead(quad, 4);
        forall i | 0 <= i < 4 ensures ':' !in quad[i] { }
        Texts.JoinedFree(quad, '.', ':');
      }
  }

  // ---------- texts that denote the same ----------

  function Lower(c: char): char {
    match c
    case 'A' => 'a' case 'B' => 'b' case 'C' => 'c' case 'D' => 'd' case 'E' => 'e' case 'F' => 'f'
    case _ => c
  }

  /** The text with its letters A to F in lower case. */
  function Lowered(t: string): (l: string)
    ensures |l| == |t| && forall i :: 0 <= i < |t| ==> l[i] == Lower(t[i])
  {
    seq(|t|, i requires 0 <= i < |t| => Lower(t[i]))
  }

  lemma LowerSame(c: char)
    ensures HexValue(Lower(c)) == HexValue(c) && IsDigit(Lower(c)) == IsDigit(c)
    ensures IsDigit(c) || c == ':' || c == '.' ==> Lower(c) == c
    ensures Lower(c) == ':' ==> c == ':'
    ensures Lower(c) == '.' ==> c == '.'
  {
  }

  lemma LoweredCut(t: string, k: nat)
    requires k <= |t|
    ensures Lowered(t)[..k] == Lowered(t[..k]) && Lowered(t)[k..] == Lowered(t[k..])
  {
  }

  lemma {:induction false} HexRunLower(t: string)
    ensures HexRun(Lowered(t)) == HexRun(t)
  {
    if t != [] {
      LowerSame(t[0]);
      LoweredCut(t, 1);
      HexRunLower(t[1..]);
    }
  }

  lemma {:induction false} HexNumberLower(s: string)
    ensures HexNumber(Lowered(s)) == HexNumber(s)
  {
    if s != [] {
      LowerSame(s[|s| - 1]);
      LoweredCut(s, |s| - 1);
      HexNumberLower(s[..|s| - 1]);
    }
  }

  lemma {:induction false} DigitRunLower(t: string)
    ensures DigitRun(Lowered(t)) == DigitRun(t) && Lowered(t)[..DigitRun(t)] == t[..DigitRun(t)]
  {
    if t != [] {
      LowerSame(t[0]);
      LoweredCut(t, 1);
      DigitRunLower(t[1..]);
      if IsDigit(t[0]) {
        var k, l := DigitRun(t[1..]), Lowered(t);
        assert l[..1 + k] == [l[0]] + l[1..][..k] && t[..1 + k] == [t[0]] + t[1..][..k];
      }
    }
  }

  lemma {:induction false} OctetsLower(t: string, n: nat)
    ensures Octets(Lowered(t), n) == Octets(t, n)
    decreases n
  {
    if n > 0 {
      var k, m := DigitRun(t), n - 1;
      DigitRunLower(t);
      LoweredCut(t, k);
      if m == 0 {
        OctetsLower(t[k..], m);
        LastSame(t, Lowered(t), k);
      } else {
        if k < |t| {
          LowerSame(t[k]);
          LoweredCut(t, k + 1);
          OctetsLower(t[k + 1..], m);
        }
        NextSame(t, Lowered(t), k, n, m);
      }
    }
  }

  lemma LastSame(t: string, l: string, k: nat)
    requires |t| == |l| && DigitRun(t) == DigitRun(l) == k && t[..k] == l[..k] && Octets(t[k..], 0) == Octets(l[k..], 0)
    ensures Octets(t, 1) == Octets(l, 1)
  {
  }

  lemma NextSame(t: string, l: string, k: nat, n: nat, m: nat)
    requires |t| == |l| && DigitRun(t) == DigitRun(l) == k && t[..k] == l[..k] && n == m + 1 && m > 0
    requires k < |t| ==> (t[k] == '.' <==> l[k] == '.') && Octets(t[k + 1..], m) == Octets(l[k + 1..], m)
    ensures Octets(t, n) == Octets(l, n)
  {
  }

  lemma {:induction false} GroupsLower(t: string, words: seq<nat>, hole: int)
    ensures Groups(Lowered(t), words, hole) == Groups(t, words, hole)
    decreases |t|, 1
  {
    if t != [] {
      var run := HexRun(t);
      HexRunLower(t);
      LoweredCut(t, run);
      HexNumberLower(t[..run]);
      OctetsLower(t, 4);
      if run < |t| { LowerSame(t[run]); }
      if run > 0 && HexNumber(t[..run]) >= 0 {
        SeparatedLower(t[run..], words + [HexNumber(t[..run])], hole);
      }
    }
  }

  lemma {:induction false} SeparatedLower(t: string, words: seq<nat>, hole: int)
    ensures Separated(Lowered(t), words, hole) == Separated(t, words, hole)
    decreases |t|, 0
  {
    if t != [] { LowerSame(t[0]); }
    if |t| > 1 {
      LowerSame(t[1]);
      LoweredCut(t, 2);
      LoweredCut(t, 1);
      GroupsLower(t[2..], words, |words|);
      GroupsLower(t[1..], words, hole);
    }
  }

  /** The case of the letters does not matter, in any text. */
  lemma {:induction false} CaseSame(t: string)
    ensures Parsed(Lowered(t)) == Parsed(t)
  {
    assert ':' in Lowered(t) <==> ':' in t by {
      forall i | 0 <= i < |t| ensures Lowered(t)[i] == ':' <==> t[i] == ':' { LowerSame(t[i]); }
      if ':' in t {
        var i :| 0 <= i < |t| && t[i] == ':';
        assert Lowered(t)[i] == ':';
      }
    }
    OctetsLower(t, 4);
    GroupsLower(t, [], -1);
    if t != [] { LowerSame(t[0]); }
    if |t| > 1 {
      LowerSame(t[1]);
      LoweredCut(t, 2);
      GroupsLower(t[2..], [], 0);
    }
  }

  lemma {:induction false} ValuesUpdate(parts: seq<string>, i: nat, part: string, base: nat)
    requires i < |parts| && PlaceValue(part, base) == PlaceValue(parts[i], base)
    ensures Values(parts[i := part], base) == Values(parts, base)
  {
    var all := parts[i := part];
    if i == 0 {
      assert all[1..] == parts[1..];
    } else {
      assert all[1..] == parts[1..][i - 1 := part] && all[0] == parts[0];
      ValuesUpdate(parts[1..], i - 1, part, base);
    }
  }

  /** A zero before a group of less than four digits does not matter. */
  lemma {:induction false} ZeroSame(n: Notation, i: nat)
    requires IsNotation(n) && i < |n.head| && |n.head[i]| < 4
    ensures Parsed(TextOf(n.(head := n.head[i := "0" + n.head[i]]))) == Parsed(TextOf(n))
  {
    var group := "0" + n.head[i];
    ZeroGroup(n.head[i]);
    ValuesUpdate(n.head, i, group, 16);
    NotationRead(n);
    NotationRead(n.(head := n.head[i := group]));
  }

  lemma ZeroGroup(group: string)
    requires IsGroup(group) && |group| < 4
    ensures IsGroup("0" + group) && PlaceValue("0" + group, 16) == PlaceValue(group, 16)
  {
    assert ("0" + group)[1..] == group;
  }

  lemma {:induction false} ValuesConcat(a: seq<string>, b: seq<string>, base: nat)
    ensures Values(a + b, base) == Values(a, base) + Values(b, base)
  {
    if a == [] {
      assert a + b == b;
      NoneBefore(Values(b, base));
    } else {
      assert (a + b)[1..] == a[1..] + b && (a + b)[0] == a[0];
      ValuesConcat(a[1..], b, base);
      Assoc([PlaceValue(a[0], base)], Values(a[1..], base), Values(b, base));
    }
  }

  lemma {:induction false} HexGroup(w: nat)
    requires IsWord(w)
    ensures IsGroup(Hex(w)) && PlaceValue(Hex(w), 16) == w
  {
    HexText(w);
    HexLength(w);
    forall i | 0 <= i < |Hex(w)| ensures DigitOf(Hex(w)[i]) < 16 { DigitOfIs(Hex(w)[i]); }
    HexIs(Hex(w));
  }

  /** The notation with its four octets written as two groups. */
  function WithoutQuad(n: Notation): Notation
    requires |n.quad| == 4
  {
    var pair := QuadWords(n.quad);
    var groups := [Hex(pair[0]), Hex(pair[1])];
    if n.gap then Notation(n.head, true, n.tail + groups, []) else Notation(n.head + groups, false, [], [])
  }

  lemma {:induction false} PairGroups(quad: seq<string>)
    requires AreOctets(quad) && |quad| == 4
    ensures var pair := QuadWords(quad); var groups := [Hex(pair[0]), Hex(pair[1])];
      AreGroups(groups) && Values(groups, 16) == pair
  {
    var b, pair := Values(quad, 10), QuadWords(quad);
    ValuesSmall(quad);
    HexGroup(pair[0]);
    HexGroup(pair[1]);
    var groups := [Hex(pair[0]), Hex(pair[1])];
    assert groups[1..] == [Hex(pair[1])] && groups[1..][1..] == [];
    assert Values(groups[1..], 16) == [pair[1]];
  }

  lemma {:induction false} ValuesSmall(octets: seq<string>)
    requires AreOctets(octets)
    ensures forall i :: 0 <= i < |octets| ==> Values(octets, 10)[i] <= 255
  {
    if octets != [] { ValuesSmall(octets[1..]); }
  }

  lemma {:induction false} WithoutQuadWords(n: Notation)
    requires IsNotation(n) && n.quad != []
    ensures IsNotation(WithoutQuad(n)) && WordsOfNotation(WithoutQuad(n)) == WordsOfNotation(n)
  {
    var pair := QuadWords(n.quad);
    var groups := [Hex(pair[0]), Hex(pair[1])];
    PairGroups(n.quad);
    if n.gap {
      ValuesConcat(n.tail, groups, 16);
      NoneAfter(Values(n.tail, 16) + pair);
    } else {
      ValuesConcat(n.head, groups, 16);
      NoneAfter(Values(n.head, 16) + pair);
      NoneBefore(pair);
    }
  }

  /** Four octets at the end denote what the two words in hexadecimal do. */
  lemma {:induction false} QuadSame(n: Notation)
    requires IsNotation(n) && n.quad != []
    ensures IsNotation(WithoutQuad(n)) && Parsed(TextOf(WithoutQuad(n))) == Parsed(TextOf(n))
  {
    WithoutQuadWords(n);
    NotationRead(n);
    NotationRead(WithoutQuad(n));
  }
}
