/** Version strings and their order (section 11 of SemVer 2.0.0), as the index merge sorts
    by it. */
module Versions {
  import opened Texts
  import opened Wrappers

  // ---------- text ----------

  predicate IsDigits(s: string) {
    s != [] && forall i :: 0 <= i < |s| ==> '0' <= s[i] <= '9'
  }

  function Decimal(s: string): nat
    requires forall i :: 0 <= i < |s| ==> '0' <= s[i] <= '9'
  {
    if s == [] then 0 else 10 * Decimal(s[..|s| - 1]) + (s[|s| - 1] - '0') as nat
  }

  predicate IsSpace(c: char) {
    c == ' ' || '\t' <= c <= '\r'
  }

  /** The text without spaces at either end. */
  function Stripped(s: string): (t: string)
    ensures t == [] || (!IsSpace(t[0]) && !IsSpace(t[|t| - 1]))
    decreases |s|
  {
    if s == [] then []
    else if IsSpace(s[0]) then Stripped(s[1..])
    else if IsSpace(s[|s| - 1]) then Stripped(s[..|s| - 1])
    else s
  }

  /** Digits with single underscores between them. */
  predicate IsGrouped(s: string) {
    && s != [] && s[0] != '_' && s[|s| - 1] != '_'
    && (forall i :: 0 <= i < |s| ==> '0' <= s[i] <= '9' || s[i] == '_')
    && (forall i :: 0 < i < |s| ==> s[i] != '_' || s[i - 1] != '_')
  }

  function Ungrouped(s: string): (t: string)
    requires forall i :: 0 <= i < |s| ==> '0' <= s[i] <= '9' || s[i] == '_'
    ensures forall i :: 0 <= i < |t| ==> '0' <= t[i] <= '9'
  {
    if s == [] then [] else (if s[0] == '_' then [] else [s[0]]) + Ungrouped(s[1..])
  }

  /** What int makes of a text without a sign: spaces around it are skipped, and single
      underscores between the digits. */
  function Integer(s: string): Option<nat> {
    var t := Stripped(s);
    if IsGrouped(t) then Some(Decimal(Ungrouped(t))) else None
  }

  // ---------- keys ----------

  datatype Identifier = Number(value: nat) | Text(text: string)

  /** A version's place in the order: its numbers, whether it is a release, and the
      identifiers of its suffix. */
  datatype VersionKey = VersionKey(numbers: seq<nat>, release: bool, identifiers: seq<Identifier>)

  function Numbers(parts: seq<string>): Option<seq<nat>> {
    if parts == [] then Some([])
    else
      match (Integer(parts[0]), Numbers(parts[1..]))
      case (Some(number), Some(rest)) => Some([number] + rest)
      case _ => None
  }

  function Identifiers(parts: seq<string>): seq<Identifier> {
    if parts == [] then []
    else [if IsDigits(parts[0]) then Number(Decimal(parts[0])) else Text(parts[0])] + Identifiers(parts[1..])
  }

  function RemovePrefix(s: string): string {
    if s != [] && s[0] == 'v' then s[1..] else s
  }

  /** The parts of a version that must be numbers. */
  function Base(version: string): seq<string> {
    Split(Before(Before(RemovePrefix(version), '+'), '-'), '.')
  }

  /** The key of a version; none when a number does not parse. */
  function KeyOf(version: string): Option<VersionKey> {
    var suffix := After(Before(RemovePrefix(version), '+'), '-');
    match Numbers(Base(version))
    case None => None
    case Some(numbers) => Some(VersionKey(numbers, suffix == [], Identifiers(Split(suffix, '.'))))
  }

  /** Numbers come without a sign, because a sign ends what is taken for numbers. */
  lemma BaseUnsigned(version: string)
    ensures forall part <- Base(version) :: '+' !in part && '-' !in part
  {
    var value := Before(RemovePrefix(version), '+');
    SplitInside(Before(value, '-'), '.');
  }

  // ---------- order ----------

  function Sign(a: int, b: int): int {
    if a < b then -1 else if a > b then 1 else 0
  }

  function CompareText(a: string, b: string): int {
    if a == [] || b == [] then Sign(|a|, |b|)
    else if a[0] != b[0] then Sign(a[0] as int, b[0] as int)
    else CompareText(a[1..], b[1..])
  }

  function CompareNumbers(a: seq<nat>, b: seq<nat>): int {
    if a == [] || b == [] then Sign(|a|, |b|)
    else if a[0] != b[0] then Sign(a[0], b[0])
    else CompareNumbers(a[1..], b[1..])
  }

  /** Numeric identifiers rank below all others. */
  function CompareIdentifier(a: Identifier, b: Identifier): int {
    match (a, b)
    case (Number(x), Number(y)) => Sign(x, y)
    case (Number(_), Text(_)) => -1
    case (Text(_), Number(_)) => 1
    case (Text(x), Text(y)) => CompareText(x, y)
  }

  function CompareIdentifiers(a: seq<Identifier>, b: seq<Identifier>): int {
    if a == [] || b == [] then Sign(|a|, |b|)
    else if a[0] != b[0] then CompareIdentifier(a[0], b[0])
    else CompareIdentifiers(a[1..], b[1..])
  }

  function Compare(a: VersionKey, b: VersionKey): int {
    if a.numbers != b.numbers then CompareNumbers(a.numbers, b.numbers)
    else if a.release != b.release then if b.release then -1 else 1
    else CompareIdentifiers(a.identifiers, b.identifiers)
  }

  lemma {:induction false} TextOrder(a: string, b: string)
    ensures CompareText(a, b) == -CompareText(b, a)
    ensures CompareText(a, b) == 0 <==> a == b
    ensures -1 <= CompareText(a, b) <= 1
  {
    if a != [] && b != [] && a[0] == b[0] {
      TextOrder(a[1..], b[1..]);
      assert a == [a[0]] + a[1..] && b == [b[0]] + b[1..];
    }
  }

  lemma {:induction false} TextTransitive(a: string, b: string, c: string)
    requires CompareText(a, b) <= 0 && CompareText(b, c) <= 0
    ensures CompareText(a, c) <= 0
  {
    if a != [] && b != [] && c != [] && a[0] == b[0] && b[0] == c[0] {
      TextTransitive(a[1..], b[1..], c[1..]);
    }
  }

  lemma {:induction false} NumbersOrder(a: seq<nat>, b: seq<nat>)
    ensures CompareNumbers(a, b) == -CompareNumbers(b, a)
    ensures CompareNumbers(a, b) == 0 <==> a == b
  {
    if a != [] && b != [] && a[0] == b[0] {
      NumbersOrder(a[1..], b[1..]);
      assert a == [a[0]] + a[1..] && b == [b[0]] + b[1..];
    }
  }

  lemma {:induction false} NumbersTransitive(a: seq<nat>, b: seq<nat>, c: seq<nat>)
    requires CompareNumbers(a, b) <= 0 && CompareNumbers(b, c) <= 0
    ensures CompareNumbers(a, c) <= 0
  {
    if a != [] && b != [] && c != [] && a[0] == b[0] && b[0] == c[0] {
      NumbersTransitive(a[1..], b[1..], c[1..]);
    }
  }

  lemma {:induction false} IdentifierOrder(a: Identifier, b: Identifier)
    ensures CompareIdentifier(a, b) == -CompareIdentifier(b, a)
    ensures CompareIdentifier(a, b) == 0 <==> a == b
  {
    if a.Text? && b.Text? { TextOrder(a.text, b.text); }
  }

  lemma {:induction false} IdentifierTransitive(a: Identifier, b: Identifier, c: Identifier)
    requires CompareIdentifier(a, b) <= 0 && CompareIdentifier(b, c) <= 0
    ensures CompareIdentifier(a, c) <= 0
  {
    if a.Text? && b.Text? && c.Text? { TextTransitive(a.text, b.text, c.text); }
  }

  lemma {:induction false} IdentifiersOrder(a: seq<Identifier>, b: seq<Identifier>)
    ensures CompareIdentifiers(a, b) == -CompareIdentifiers(b, a)
    ensures CompareIdentifiers(a, b) == 0 <==> a == b
  {
    if a != [] && b != [] {
      IdentifierOrder(a[0], b[0]);
      if a[0] == b[0] {
        IdentifiersOrder(a[1..], b[1..]);
        assert a == [a[0]] + a[1..] && b == [b[0]] + b[1..];
      }
    }
  }

  lemma {:induction false} IdentifiersTransitive(a: seq<Identifier>, b: seq<Identifier>, c: seq<Identifier>)
    requires CompareIdentifiers(a, b) <= 0 && CompareIdentifiers(b, c) <= 0
    ensures CompareIdentifiers(a, c) <= 0
  {
    if a != [] && b != [] && c != [] {
      IdentifierOrder(a[0], b[0]);
      IdentifierOrder(b[0], c[0]);
      IdentifierOrder(a[0], c[0]);
      if a[0] == b[0] && b[0] == c[0] {
        IdentifiersTransitive(a[1..], b[1..], c[1..]);
      } else if a[0] != b[0] && b[0] != c[0] {
        IdentifierTransitive(a[0], b[0], c[0]);
      }
    }
  }

  /** The order is total: exactly one of less, equal and greater, equal only for equal keys. */
  lemma {:induction false} CompareTotal(a: VersionKey, b: VersionKey)
    ensures Compare(a, b) == -Compare(b, a)
    ensures Compare(a, b) == 0 <==> a == b
  {
    NumbersOrder(a.numbers, b.numbers);
    IdentifiersOrder(a.identifiers, b.identifiers);
  }

  lemma {:induction false} CompareTransitive(a: VersionKey, b: VersionKey, c: VersionKey)
    requires Compare(a, b) <= 0 && Compare(b, c) <= 0
    ensures Compare(a, c) <= 0
  {
    NumbersOrder(a.numbers, b.numbers);
    NumbersOrder(b.numbers, c.numbers);
    if a.numbers == b.numbers && b.numbers == c.numbers {
      if a.release == b.release && b.release == c.release {
        IdentifiersTransitive(a.identifiers, b.identifiers, c.identifiers);
      }
    } else {
      NumbersTransitive(a.numbers, b.numbers, c.numbers);
      if a.numbers == c.numbers {
        NumbersOrder(c.numbers, b.numbers);
      }
    }
  }

  // ---------- the order of SemVer ----------

  /** The texts first differ at k: a ends there, or has the smaller character. */
  predicate TextDiffers(a: string, b: string, k: nat) {
    k <= |a| && k < |b| && a[..k] == b[..k] && (k < |a| ==> a[k] < b[k])
  }

  /** a is before b: by the first character that differs, or as a proper prefix. */
  ghost predicate TextBelow(a: string, b: string) {
    exists k: nat :: TextDiffers(a, b, k)
  }

  predicate NumbersDiffer(a: seq<nat>, b: seq<nat>, k: nat) {
    k <= |a| && k < |b| && a[..k] == b[..k] && (k < |a| ==> a[k] < b[k])
  }

  ghost predicate NumbersBelow(a: seq<nat>, b: seq<nat>) {
    exists k: nat :: NumbersDiffer(a, b, k)
  }

  /** Numbers by value, numbers below texts, texts by their characters. */
  ghost predicate IdentifierBelow(a: Identifier, b: Identifier) {
    if a.Number? then b.Number? ==> a.value < b.value else b.Text? && TextBelow(a.text, b.text)
  }

  ghost predicate IdentifiersDiffer(a: seq<Identifier>, b: seq<Identifier>, k: nat) {
    k <= |a| && k < |b| && a[..k] == b[..k] && (k < |a| ==> IdentifierBelow(a[k], b[k]))
  }

  ghost predicate IdentifiersBelow(a: seq<Identifier>, b: seq<Identifier>) {
    exists k: nat :: IdentifiersDiffer(a, b, k)
  }

  /** Precedence of section 11 of SemVer 2.0.0: the numbers decide; with equal numbers a
      prerelease is below its release; among prereleases the identifiers decide. */
  ghost predicate VersionBelow(a: VersionKey, b: VersionKey) {
    if a.numbers != b.numbers then NumbersBelow(a.numbers, b.numbers)
    else if a.release != b.release then b.release
    else IdentifiersBelow(a.identifiers, b.identifiers)
  }

  lemma {:induction false} TextBelowCases(a: string, b: string)
    ensures TextBelow(a, b) <==>
      b != [] && (a == [] || a[0] < b[0] || (a[0] == b[0] && TextBelow(a[1..], b[1..])))
  {
    if TextBelow(a, b) {
      var k: nat :| TextDiffers(a, b, k);
      if k > 0 {
        assert a[0] == a[..k][0] && b[0] == b[..k][0];
        assert a[1..][..k - 1] == a[..k][1..] && b[1..][..k - 1] == b[..k][1..];
        assert TextDiffers(a[1..], b[1..], k - 1);
      }
    }
    if b != [] && (a == [] || a[0] < b[0]) { assert TextDiffers(a, b, 0); }
    if a != [] && b != [] && a[0] == b[0] && TextBelow(a[1..], b[1..]) {
      var k: nat :| TextDiffers(a[1..], b[1..], k);
      assert a[..k + 1] == [a[0]] + a[1..][..k] && b[..k + 1] == [b[0]] + b[1..][..k];
      assert TextDiffers(a, b, k + 1);
    }
  }

  lemma {:induction false} CompareTextIs(a: string, b: string)
    ensures CompareText(a, b) < 0 <==> TextBelow(a, b)
  {
    TextBelowCases(a, b);
    if a != [] && b != [] && a[0] == b[0] { CompareTextIs(a[1..], b[1..]); }
  }

  lemma {:induction false} NumbersBelowCases(a: seq<nat>, b: seq<nat>)
    ensures NumbersBelow(a, b) <==>
      b != [] && (a == [] || a[0] < b[0] || (a[0] == b[0] && NumbersBelow(a[1..], b[1..])))
  {
    if NumbersBelow(a, b) {
      var k: nat :| NumbersDiffer(a, b, k);
      if k > 0 {
        assert a[0] == a[..k][0] && b[0] == b[..k][0];
        assert a[1..][..k - 1] == a[..k][1..] && b[1..][..k - 1] == b[..k][1..];
        assert NumbersDiffer(a[1..], b[1..], k - 1);
      }
    }
    if b != [] && (a == [] || a[0] < b[0]) { assert NumbersDiffer(a, b, 0); }
    if a != [] && b != [] && a[0] == b[0] && NumbersBelow(a[1..], b[1..]) {
      var k: nat :| NumbersDiffer(a[1..], b[1..], k);
      assert a[..k + 1] == [a[0]] + a[1..][..k] && b[..k + 1] == [b[0]] + b[1..][..k];
      assert NumbersDiffer(a, b, k + 1);
    }
  }

  lemma {:induction false} CompareNumbersIs(a: seq<nat>, b: seq<nat>)
    ensures CompareNumbers(a, b) < 0 <==> NumbersBelow(a, b)
  {
    NumbersBelowCases(a, b);
    if a != [] && b != [] && a[0] == b[0] { CompareNumbersIs(a[1..], b[1..]); }
  }

  lemma {:induction false} CompareIdentifierIs(a: Identifier, b: Identifier)
    ensures CompareIdentifier(a, b) < 0 <==> IdentifierBelow(a, b)
  {
    if a.Text? && b.Text? { CompareTextIs(a.text, b.text); }
  }

  lemma {:induction false} IdentifiersBelowCases(a: seq<Identifier>, b: seq<Identifier>)
    ensures IdentifiersBelow(a, b) <==>
      b != [] && (a == [] || IdentifierBelow(a[0], b[0]) || (a[0] == b[0] && IdentifiersBelow(a[1..], b[1..])))
  {
    if IdentifiersBelow(a, b) {
      var k: nat :| IdentifiersDiffer(a, b, k);
      if k > 0 {
        assert a[0] == a[..k][0] && b[0] == b[..k][0];
        assert a[1..][..k - 1] == a[..k][1..] && b[1..][..k - 1] == b[..k][1..];
        assert IdentifiersDiffer(a[1..], b[1..], k - 1);
      }
    }
    if b != [] && (a == [] || IdentifierBelow(a[0], b[0])) { assert IdentifiersDiffer(a, b, 0); }
    if a != [] && b != [] && a[0] == b[0] && IdentifiersBelow(a[1..], b[1..]) {
      var k: nat :| IdentifiersDiffer(a[1..], b[1..], k);
      assert a[..k + 1] == [a[0]] + a[1..][..k] && b[..k + 1] == [b[0]] + b[1..][..k];
      assert IdentifiersDiffer(a, b, k + 1);
    }
  }

  lemma {:induction false} CompareIdentifiersIs(a: seq<Identifier>, b: seq<Identifier>)
    ensures CompareIdentifiers(a, b) < 0 <==> IdentifiersBelow(a, b)
  {
    IdentifiersBelowCases(a, b);
    if a != [] && b != [] {
      CompareIdentifierIs(a[0], b[0]);
      if a[0] == b[0] {
        IdentifierOrder(a[0], b[0]);
        CompareIdentifiersIs(a[1..], b[1..]);
      }
    }
  }

  /** Comparing keys is the precedence of SemVer. */
  lemma {:induction false} CompareIs(a: VersionKey, b: VersionKey)
    ensures Compare(a, b) < 0 <==> VersionBelow(a, b)
  {
    CompareNumbersIs(a.numbers, b.numbers);
    CompareIdentifiersIs(a.identifiers, b.identifiers);
  }

  // ---------- what a version reads as ----------

  predicate IsBlank(c: char) {
    c in [' ', '\t', '\n', 11 as char, 12 as char, '\r']
  }

  /** Groups of digits. */
  predicate AreGroups(parts: seq<string>) {
    forall i :: 0 <= i < |parts| ==> parts[i] != [] && forall k :: 0 <= k < |parts[i]| ==> '0' <= parts[i][k] <= '9'
  }

  function Flat(parts: seq<string>): (s: string)
    requires AreGroups(parts)
    ensures forall k :: 0 <= k < |s| ==> '0' <= s[k] <= '9'
  {
    if parts == [] then [] else parts[0] + Flat(parts[1..])
  }

  lemma {:induction false} UngroupedDigits(s: string)
    requires forall i :: 0 <= i < |s| ==> '0' <= s[i] <= '9'
    ensures Ungrouped(s) == s
  {
    if s != [] {
      UngroupedDigits(s[1..]);
      assert s == [s[0]] + s[1..];
    }
  }

  /** A group and what follows it behind an underscore. */
  lemma {:induction false} GroupedStep(group: string, rest: string)
    requires '_' !in group
    ensures IsGrouped(group + (['_'] + rest)) <==> AreGroups([group]) && IsGrouped(rest)
  {
    var s, n := group + (['_'] + rest), |group|;
    assert s[n] == '_' && [group][0] == group;
    assert forall k :: 0 <= k < n ==> s[k] == group[k];
    assert forall k :: 0 <= k < |rest| ==> s[n + 1 + k] == rest[k];
    if IsGrouped(s) {
      GroupedParts(group, rest, s, n);
    }
    if AreGroups([group]) && IsGrouped(rest) {
      forall k | 0 <= k < |s| ensures '0' <= s[k] <= '9' || s[k] == '_' {
        assert s[k] == if k < n then group[k] else if k == n then '_' else rest[k - n - 1];
      }
    }
  }

  lemma {:induction false} GroupedParts(group: string, rest: string, s: string, n: nat)
    requires n == |group| && |s| == n + 1 + |rest| && IsGrouped(s) && '_' !in group && s[n] == '_'
    requires forall k :: 0 <= k < n ==> s[k] == group[k]
    requires forall k :: 0 <= k < |rest| ==> s[n + 1 + k] == rest[k]
    ensures AreGroups([group]) && IsGrouped(rest)
  {
    assert n > 0;
    assert rest != [] && rest[0] == s[n + 1] && rest[|rest| - 1] == s[|s| - 1];
    forall k | 0 < k < |rest| ensures rest[k] != '_' || rest[k - 1] != '_' {
      assert rest[k] == s[n + 1 + k] && rest[k - 1] == s[n + 1 + (k - 1)];
    }
  }

  lemma {:induction false} UngroupedStep(group: string, rest: string)
    requires forall i :: 0 <= i < |group| ==> '0' <= group[i] <= '9'
    requires forall i :: 0 <= i < |rest| ==> '0' <= rest[i] <= '9' || rest[i] == '_'
    ensures Ungrouped(group + (['_'] + rest)) == group + Ungrouped(rest)
  {
    var s := group + (['_'] + rest);
    if group == [] {
      assert s[1..] == rest;
    } else {
      assert s[1..] == group[1..] + (['_'] + rest);
      UngroupedStep(group[1..], rest);
      assert group == [group[0]] + group[1..];
    }
  }

  /** Underscores separate groups of digits. */
  lemma {:induction false} GroupedIs(s: string)
    ensures IsGrouped(s) <==> AreGroups(Split(s, '_'))
    ensures IsGrouped(s) ==> Ungrouped(s) == Flat(Split(s, '_'))
    decreases |s|
  {
    var n := Find(s, '_');
    if n == |s| {
      OneGroup(s);
    } else {
      var group, rest := s[..n], s[n + 1..];
      assert s == group + (['_'] + rest);
      GroupedIs(rest);
      MoreGroups(group, rest, s, Split(rest, '_'), Split(s, '_'));
    }
  }

  lemma MoreGroups(group: string, rest: string, s: string, parts: seq<string>, all: seq<string>)
    requires '_' !in group && s == group + (['_'] + rest) && all == [group] + parts
    requires IsGrouped(rest) <==> AreGroups(parts)
    requires IsGrouped(rest) ==> Ungrouped(rest) == Flat(parts)
    ensures IsGrouped(s) <==> AreGroups(all)
    ensures IsGrouped(s) ==> Ungrouped(s) == Flat(all)
  {
    GroupedStep(group, rest);
    SomeGroups(group, parts);
    if IsGrouped(s) {
      assert [group][0] == group;
      UngroupedStep(group, rest);
    }
  }

  lemma OneGroup(s: string)
    requires '_' !in s
    ensures IsGrouped(s) <==> AreGroups([s])
    ensures IsGrouped(s) ==> Ungrouped(s) == Flat([s])
  {
    assert [s][0] == s;
    if IsGrouped(s) {
      UngroupedDigits(s);
      FlatOne(s);
    }
  }

  lemma FlatOne(s: string)
    requires AreGroups([s])
    ensures Flat([s]) == s
  {
    assert [s][1..] == [];
  }

  lemma SomeGroups(group: string, rest: seq<string>)
    ensures AreGroups([group] + rest) <==> AreGroups([group]) && AreGroups(rest)
    ensures AreGroups([group] + rest) ==> Flat([group] + rest) == group + Flat(rest)
  {
    var all := [group] + rest;
    assert all[1..] == rest && all[0] == group && [group][0] == group;
    if AreGroups(all) {
      forall i | 0 <= i < |rest| ensures rest[i] == all[i + 1] { }
    }
  }

  lemma {:induction false} StrippedBlank(s: string)
    requires forall i :: 0 <= i < |s| ==> IsBlank(s[i])
    ensures Stripped(s) == []
  {
    if s != [] { StrippedBlank(s[1..]); }
  }

  lemma {:induction false} StrippedEnd(s: string, after: string)
    requires forall i :: 0 <= i < |after| ==> IsBlank(after[i])
    requires s != [] && !IsBlank(s[0]) && !IsBlank(s[|s| - 1])
    ensures Stripped(s + after) == s
    decreases |after|
  {
    if after == [] {
      NothingBehind(s);
    } else {
      var all, less := s + after, after[..|after| - 1];
      assert all[..|all| - 1] == s + less && all[|all| - 1] == after[|after| - 1] && all[0] == s[0];
      StrippedEnd(s, less);
    }
  }

  lemma NothingBehind(s: string)
    ensures s + [] == s
  {
  }

  lemma {:induction false} StrippedIs(before: string, s: string, after: string)
    requires forall i :: 0 <= i < |before| ==> IsBlank(before[i])
    requires forall i :: 0 <= i < |after| ==> IsBlank(after[i])
    requires s == [] || (!IsBlank(s[0]) && !IsBlank(s[|s| - 1]))
    ensures Stripped(before + (s + after)) == s
  {
    if before != [] {
      var all := before + (s + after);
      assert all[1..] == before[1..] + (s + after) && all[0] == before[0];
      StrippedIs(before[1..], s, after);
    } else {
      assert before + (s + after) == s + after;
      if s == [] {
        assert s + after == after;
        StrippedBlank(after);
      } else {
        StrippedEnd(s, after);
      }
    }
  }

  /** Where a number may stand: blanks around it do not count, and it is groups of digits with
      single underscores between them; nothing else is one. */
  lemma {:induction false} IntegerIs(before: string, s: string, after: string)
    requires forall i :: 0 <= i < |before| ==> IsBlank(before[i])
    requires forall i :: 0 <= i < |after| ==> IsBlank(after[i])
    requires s == [] || (!IsBlank(s[0]) && !IsBlank(s[|s| - 1]))
    ensures var groups := Split(s, '_');
      Integer(before + (s + after)) == if AreGroups(groups) then Some(Decimal(Flat(groups))) else None
  {
    StrippedIs(before, s, after);
    GroupedIs(s);
  }

  /** A number in decimal. */
  function DecimalText(n: nat): (s: string)
    ensures s != [] && forall i :: 0 <= i < |s| ==> '0' <= s[i] <= '9'
  {
    if n < 10 then ["0123456789"[n]] else DecimalText(n / 10) + ["0123456789"[n % 10]]
  }

  lemma {:induction false} DecimalBack(n: nat)
    ensures Decimal(DecimalText(n)) == n
    decreases n
  {
    var s := DecimalText(n);
    if n < 10 {
      assert s[..0] == [] && Decimal([]) == 0;
    } else {
      DecimalBack(n / 10);
      assert s[..|s| - 1] == DecimalText(n / 10);
    }
  }

  lemma {:induction false} IntegerBack(n: nat)
    ensures Integer(DecimalText(n)) == Some(n)
  {
    UngroupedDigits(DecimalText(n));
    DecimalBack(n);
  }

  function DecimalTexts(numbers: seq<nat>): (parts: seq<string>)
    ensures |parts| == |numbers|
  {
    if numbers == [] then [] else [DecimalText(numbers[0])] + DecimalTexts(numbers[1..])
  }

  lemma {:induction false} DecimalTextsAt(numbers: seq<nat>, i: nat)
    requires i < |numbers|
    ensures DecimalTexts(numbers)[i] == DecimalText(numbers[i])
  {
    if i > 0 { DecimalTextsAt(numbers[1..], i - 1); }
  }

  lemma {:induction false} NumbersFail(parts: seq<string>)
    ensures Numbers(parts).None? <==> exists i :: 0 <= i < |parts| && Integer(parts[i]).None?
  {
    if parts != [] {
      var rest := parts[1..];
      NumbersFail(rest);
      if i :| 0 <= i < |rest| && Integer(rest[i]).None? { assert parts[i + 1] == rest[i]; }
      if i :| 0 <= i < |parts| && Integer(parts[i]).None? && i > 0 { assert rest[i - 1] == parts[i]; }
    }
  }

  /** A version has no key exactly when some part between the dots before its suffix is no number. */
  lemma {:induction false} KeyFails(version: string)
    ensures KeyOf(version).None? <==> exists i :: 0 <= i < |Base(version)| && Integer(Base(version)[i]).None?
  {
    NumbersFail(Base(version));
  }

  lemma NumbersStep(part: string, rest: seq<string>, number: nat, numbers: seq<nat>)
    requires Integer(part) == Some(number) && Numbers(rest) == Some(numbers)
    ensures Numbers([part] + rest) == Some([number] + numbers)
  {
    assert ([part] + rest)[1..] == rest;
  }

  lemma {:induction false} NumbersBack(numbers: seq<nat>)
    ensures Numbers(DecimalTexts(numbers)) == Some(numbers)
  {
    if numbers != [] {
      var first, rest := numbers[0], numbers[1..];
      IntegerBack(first);
      NumbersBack(rest);
      NumbersStep(DecimalText(first), DecimalTexts(rest), first, rest);
      assert numbers == [first] + rest;
    }
  }

  function IdentifierText(x: Identifier): string {
    match x
    case Number(value) => DecimalText(value)
    case Text(text) => text
  }

  function IdentifierTexts(ids: seq<Identifier>): (parts: seq<string>)
    ensures |parts| == |ids|
  {
    if ids == [] then [] else [IdentifierText(ids[0])] + IdentifierTexts(ids[1..])
  }

  /** A textual identifier is not all digits, and holds no character that would end it. */
  predicate IsIdentifier(x: Identifier) {
    x.Text? ==>
      '.' !in x.text && '+' !in x.text && (x.text == [] || exists i :: 0 <= i < |x.text| && !('0' <= x.text[i] <= '9'))
  }

  lemma {:induction false} IdentifierTextsAt(ids: seq<Identifier>, i: nat)
    requires i < |ids|
    ensures IdentifierTexts(ids)[i] == IdentifierText(ids[i])
  {
    if i > 0 { IdentifierTextsAt(ids[1..], i - 1); }
  }

  lemma IdentifierBack(id: Identifier)
    requires IsIdentifier(id)
    ensures Identifiers([IdentifierText(id)]) == [id] && '.' !in IdentifierText(id) && '+' !in IdentifierText(id)
  {
    if id.Number? { DecimalBack(id.value); }
    assert [IdentifierText(id)][1..] == [];
  }

  lemma IdentifiersStep(part: string, rest: seq<string>)
    ensures Identifiers([part] + rest) == Identifiers([part]) + Identifiers(rest)
  {
    assert ([part] + rest)[1..] == rest && [part][1..] == [];
  }

  lemma {:induction false} IdentifiersBack(ids: seq<Identifier>)
    requires forall i :: 0 <= i < |ids| ==> IsIdentifier(ids[i])
    ensures Identifiers(IdentifierTexts(ids)) == ids
  {
    if ids != [] {
      var first, rest := ids[0], ids[1..];
      IdentifierBack(first);
      IdentifiersBack(rest);
      IdentifiersStep(IdentifierText(first), IdentifierTexts(rest));
      assert ids == [first] + rest;
    }
  }

  lemma IdentifierTextsFree(ids: seq<Identifier>)
    requires forall i :: 0 <= i < |ids| ==> IsIdentifier(ids[i])
    ensures forall i :: 0 <= i < |ids| ==> '.' !in IdentifierTexts(ids)[i] && '+' !in IdentifierTexts(ids)[i]
  {
    forall i | 0 <= i < |ids| ensures '.' !in IdentifierTexts(ids)[i] && '+' !in IdentifierTexts(ids)[i] {
      IdentifierTextsAt(ids, i);
      IdentifierBack(ids[i]);
    }
  }

  /** What stands behind the numbers for identifiers. */
  function SuffixText(suffix: Option<seq<Identifier>>): string {
    match suffix
    case None => []
    case Some(ids) => ['-'] + Joined(IdentifierTexts(ids), '.')
  }

  predicate IsSuffix(suffix: Option<seq<Identifier>>) {
    suffix.Some? ==>
      Joined(IdentifierTexts(suffix.value), '.') != [] && forall i :: 0 <= i < |suffix.value| ==> IsIdentifier(suffix.value[i])
  }

  lemma {:induction false} SuffixBack(suffix: Option<seq<Identifier>>)
    requires IsSuffix(suffix)
    ensures var tail := SuffixText(suffix);
      && '+' !in tail && (tail == [] || tail[0] == '-')
      && var text := if tail == [] then [] else tail[1..];
         && (text == [] <==> suffix.None?)
         && Identifiers(Split(text, '.')) == if suffix.Some? then suffix.value else [Text("")]
  {
    match suffix
    case None =>
      assert Split("", '.') == [""] && [""][1..] == [];
    case Some(ids) =>
      var parts := IdentifierTexts(ids);
      IdentifiersBack(ids);
      IdentifierTextsFree(ids);
      JoinedFree(parts, '.', '+');
      SplitJoined(parts, '.');
      assert SuffixText(suffix)[1..] == Joined(parts, '.');
  }

  /** The text of a version: numbers with dots, perhaps a v before them, identifiers behind a
      hyphen, and anything behind a plus. */
  function VersionText(v: bool, numbers: seq<nat>, suffix: Option<seq<Identifier>>, build: Option<string>): string {
    (if v then "v" else "")
    + (Joined(DecimalTexts(numbers), '.')
       + (SuffixText(suffix) + (match build case None => [] case Some(text) => ['+'] + text)))
  }

  /** The key of a version's text is what the text was made from. */
  lemma {:induction false} KeyReads(v: bool, numbers: seq<nat>, suffix: Option<seq<Identifier>>, build: Option<string>)
    requires numbers != [] && IsSuffix(suffix)
    ensures KeyOf(VersionText(v, numbers, suffix, build))
         == Some(VersionKey(numbers, suffix.None?, if suffix.Some? then suffix.value else [Text("")]))
  {
    var rest := match build case None => [] case Some(text) => ['+'] + text;
    NumbersJoined(numbers);
    SuffixBack(suffix);
    KeyParts(v, Joined(DecimalTexts(numbers), '.'), SuffixText(suffix), rest);
    NumbersBack(numbers);
  }

  lemma {:induction false} NumbersJoined(numbers: seq<nat>)
    requires numbers != []
    ensures var base := Joined(DecimalTexts(numbers), '.');
      base != [] && base[0] != 'v' && '+' !in base && '-' !in base && Split(base, '.') == DecimalTexts(numbers)
  {
    var parts := DecimalTexts(numbers);
    forall i | 0 <= i < |parts| ensures '+' !in parts[i] && '-' !in parts[i] && '.' !in parts[i] {
      DecimalTextsAt(numbers, i);
    }
    JoinedFree(parts, '.', '+');
    JoinedFree(parts, '.', '-');
    SplitJoined(parts, '.');
    BaseFirst(parts);
  }

  lemma BaseFirst(parts: seq<string>)
    requires parts != [] && parts[0] != [] && '0' <= parts[0][0] <= '9'
    ensures Joined(parts, '.') != [] && Joined(parts, '.')[0] == parts[0][0]
  {
  }

  /** Where a version's text is cut. */
  lemma {:induction false} KeyParts(v: bool, base: string, tail: string, rest: string)
    requires base != [] && base[0] != 'v' && '+' !in base && '-' !in base && '+' !in tail
    requires (tail == [] || tail[0] == '-') && (rest == [] || rest[0] == '+')
    ensures var version := (if v then "v" else "") + (base + (tail + rest));
      && Base(version) == Split(base, '.')
      && After(Before(RemovePrefix(version), '+'), '-') == if tail == [] then [] else tail[1..]
  {
    var body := base + (tail + rest);
    var version := (if v then "v" else "") + body;
    assert RemovePrefix(version) == body by {
      if v { assert version[1..] == body; } else { assert version == body; }
    }
    var main := base + tail;
    assert body == main + rest;
    if rest == [] {
      assert body == main;
      FindNone(main, '+');
    } else {
      FindBehind(main, rest, '+');
    }
    if tail == [] {
      assert main == base;
      FindNone(base, '-');
    } else {
      FindBehind(base, tail, '-');
    }
  }
}
