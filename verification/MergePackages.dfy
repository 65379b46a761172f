/** The merge of Arduino package indexes: the first index wins duplicate versions, and the
    platforms of a package are sorted with the newest version first. */
module MergePackages {
  import opened Bits
  import opened Versions
  import opened Wrappers

  datatype Platform = Platform(architecture: string, version: string, checksum: string, url: string)

  datatype Tool = Tool(name: string, version: string, systems: string)

  datatype Package = Package(name: string, platforms: seq<Platform>, tools: seq<Tool>)

  type Index = seq<Package>

  type Identity = (string, string)

  function PlatformId(p: Platform): Identity {
    (p.architecture, p.version)
  }

  function ToolId(t: Tool): Identity {
    (t.name, t.version)
  }

  // ---------- appending what is missing ----------

  predicate HasId<T>(items: seq<T>, id: T -> Identity, key: Identity) {
    exists i :: 0 <= i < |items| && id(items[i]) == key
  }

  function AddItem<T>(have: seq<T>, item: T, id: T -> Identity): seq<T> {
    if HasId(have, id, id(item)) then have else have + [item]
  }

  /** The items, and those of incoming whose identity was not there yet. */
  function AddMissing<T>(have: seq<T>, incoming: seq<T>, id: T -> Identity): seq<T> {
    if incoming == [] then have
    else AddItem(AddMissing(have, incoming[..|incoming| - 1], id), incoming[|incoming| - 1], id)
  }

  /** The items already there stay in front, and every identity of either list is there. */
  lemma {:induction false} AddMissingKeeps<T>(have: seq<T>, incoming: seq<T>, id: T -> Identity)
    ensures have <= AddMissing(have, incoming, id)
    ensures forall i :: 0 <= i < |incoming| ==> HasId(AddMissing(have, incoming, id), id, id(incoming[i]))
  {
    if incoming != [] {
      var front := AddMissing(have, incoming[..|incoming| - 1], id);
      var item := incoming[|incoming| - 1];
      AddMissingKeeps(have, incoming[..|incoming| - 1], id);
      AddItemKeeps(front, item, id);
      forall i | 0 <= i < |incoming| ensures HasId(AddItem(front, item, id), id, id(incoming[i])) {
        if i < |incoming| - 1 {
          var k :| 0 <= k < |front| && id(front[k]) == id(incoming[..|incoming| - 1][i]);
          assert AddItem(front, item, id)[k] == front[k];
        }
      }
    }
  }

  lemma {:induction false} AddItemKeeps<T>(have: seq<T>, item: T, id: T -> Identity)
    ensures have <= AddItem(have, item, id) && HasId(AddItem(have, item, id), id, id(item))
  {
    if !HasId(have, id, id(item)) {
      assert id((have + [item])[|have|]) == id(item);
    }
  }

  /** What is added comes from incoming, under an identity of its own. */
  lemma {:induction false} AddMissingAdds<T>(have: seq<T>, incoming: seq<T>, id: T -> Identity, k: nat)
    requires |have| <= k < |AddMissing(have, incoming, id)|
    ensures AddMissing(have, incoming, id)[k] in incoming
    ensures forall m :: 0 <= m < k ==> id(AddMissing(have, incoming, id)[m]) != id(AddMissing(have, incoming, id)[k])
  {
    if incoming != [] {
      var rest, item := incoming[..|incoming| - 1], incoming[|incoming| - 1];
      var front := AddMissing(have, rest, id);
      if k < |front| {
        AddMissingAdds(have, rest, id, k);
      }
    }
  }

  // ---------- merging packages ----------

  function MergePackage(p: Package, incoming: Package): Package {
    Package(p.name, AddMissing(p.platforms, incoming.platforms, PlatformId), AddMissing(p.tools, incoming.tools, ToolId))
  }

  /** The place of the package of that name; the length if there is none. */
  function Place(packages: seq<Package>, name: string): (k: nat)
    ensures k <= |packages| && (k < |packages| ==> packages[k].name == name)
    ensures forall i :: 0 <= i < k ==> packages[i].name != name
  {
    if packages == [] || packages[0].name == name then 0 else 1 + Place(packages[1..], name)
  }

  function AddPackage(packages: seq<Package>, incoming: Package): seq<Package> {
    var k := Place(packages, incoming.name);
    if k == |packages| then packages + [incoming] else packages[k := MergePackage(packages[k], incoming)]
  }

  /** The packages of a list, each name once. */
  function Collect(incoming: seq<Package>): seq<Package> {
    if incoming == [] then [] else AddPackage(Collect(incoming[..|incoming| - 1]), incoming[|incoming| - 1])
  }

  function Flatten(indexes: seq<Index>): seq<Package> {
    if indexes == [] then [] else indexes[0] + Flatten(indexes[1..])
  }

  // ---------- sorting ----------

  predicate Sortable(s: seq<Platform>) {
    forall i :: 0 <= i < |s| ==> KeyOf(s[i].version).Some?
  }

  function Rank(p: Platform): VersionKey {
    match KeyOf(p.version)
    case Some(key) => key
    case None => VersionKey([], false, [])
  }

  /** The version of p is not older than that of q. */
  predicate NotOlder(p: Platform, q: Platform) {
    Compare(Rank(q), Rank(p)) <= 0
  }

  /** Puts x behind all that may stay before it. */
  function Insert<T>(x: T, s: seq<T>, before: (T, T) -> bool): seq<T> {
    if s == [] then [x]
    else if before(s[0], x) then [s[0]] + Insert(x, s[1..], before)
    else [x] + s
  }

  /** The stable insertion sort. */
  function Sort<T>(s: seq<T>, before: (T, T) -> bool): seq<T> {
    if s == [] then [] else Insert(s[|s| - 1], Sort(s[..|s| - 1], before), before)
  }

  /** Any two compare, and comparing is transitive. */
  ghost predicate Ordered<T(!new)>(before: (T, T) -> bool) {
    && (forall a, b :: before(a, b) || before(b, a))
    && (forall a, b, c :: before(a, b) && before(b, c) ==> before(a, c))
  }

  lemma {:induction false} InsertKeeps<T>(x: T, s: seq<T>, before: (T, T) -> bool)
    ensures multiset(Insert(x, s, before)) == multiset(s) + multiset{x}
  {
    if s != [] && before(s[0], x) {
      InsertKeeps(x, s[1..], before);
      assert s == [s[0]] + s[1..];
    }
  }

  /** Sorting keeps every item. */
  lemma {:induction false} SortKeeps<T>(s: seq<T>, before: (T, T) -> bool)
    ensures multiset(Sort(s, before)) == multiset(s)
  {
    if s != [] {
      SortKeeps(s[..|s| - 1], before);
      InsertKeeps(s[|s| - 1], Sort(s[..|s| - 1], before), before);
      assert s == s[..|s| - 1] + [s[|s| - 1]];
    }
  }

  predicate Stepwise<T>(s: seq<T>, before: (T, T) -> bool) {
    forall i :: 0 < i < |s| ==> before(s[i - 1], s[i])
  }

  lemma {:induction false} InsertStepwise<T(!new)>(x: T, s: seq<T>, before: (T, T) -> bool)
    requires Ordered(before) && Stepwise(s, before)
    ensures Stepwise(Insert(x, s, before), before)
  {
    if s != [] && before(s[0], x) {
      assert forall i :: 0 < i < |s[1..]| ==> s[1..][i - 1] == s[i] && s[1..][i] == s[i + 1];
      InsertStepwise(x, s[1..], before);
    }
  }

  lemma {:induction false} SortStepwise<T(!new)>(s: seq<T>, before: (T, T) -> bool)
    requires Ordered(before)
    ensures Stepwise(Sort(s, before), before)
  {
    if s != [] {
      SortStepwise(s[..|s| - 1], before);
      InsertStepwise(s[|s| - 1], Sort(s[..|s| - 1], before), before);
    }
  }

  lemma {:induction false} StepwiseOrder<T(!new)>(s: seq<T>, before: (T, T) -> bool, i: nat, j: nat)
    requires Ordered(before) && Stepwise(s, before) && i < j < |s|
    ensures before(s[i], s[j])
  {
    if i < j - 1 { StepwiseOrder(s, before, i, j - 1); }
  }

  function SortPlatforms(s: seq<Platform>): seq<Platform> {
    Sort(s, NotOlder)
  }

  lemma {:induction false} NotOlderOrdered()
    ensures Ordered(NotOlder)
  {
    forall a, b ensures NotOlder(a, b) || NotOlder(b, a) { CompareTotal(Rank(a), Rank(b)); }
    forall a, b, c | NotOlder(a, b) && NotOlder(b, c) ensures NotOlder(a, c) {
      CompareTransitive(Rank(c), Rank(b), Rank(a));
    }
  }

  /** The platforms come newest version first: none is below a later one in SemVer's order. */
  lemma {:induction false} SortDescending(s: seq<Platform>, i: nat, j: nat)
    requires i < j < |SortPlatforms(s)|
    ensures NotOlder(SortPlatforms(s)[i], SortPlatforms(s)[j])
    ensures !VersionBelow(Rank(SortPlatforms(s)[i]), Rank(SortPlatforms(s)[j]))
  {
    CompareIs(Rank(SortPlatforms(s)[i]), Rank(SortPlatforms(s)[j]));
    CompareTotal(Rank(SortPlatforms(s)[i]), Rank(SortPlatforms(s)[j]));
    NotOlderOrdered();
    SortStepwise(s, NotOlder);
    StepwiseOrder(SortPlatforms(s), NotOlder, i, j);
  }

  /** The platforms of one rank, in order. */
  function OfRank(s: seq<Platform>, key: VersionKey): seq<Platform> {
    if s == [] then [] else (if Rank(s[0]) == key then [s[0]] else []) + OfRank(s[1..], key)
  }

  lemma {:induction false} OfRankNext(s: seq<Platform>, x: Platform, key: VersionKey)
    ensures OfRank(s + [x], key) == OfRank(s, key) + if Rank(x) == key then [x] else []
  {
    if s == [] {
      assert ([] + [x])[1..] == [];
    } else {
      assert (s + [x])[1..] == s[1..] + [x] && (s + [x])[0] == s[0];
      OfRankNext(s[1..], x, key);
      Assoc(if Rank(s[0]) == key then [s[0]] else [], OfRank(s[1..], key), if Rank(x) == key then [x] else []);
    }
  }

  lemma OfRankFirst(x: Platform, rest: seq<Platform>, key: VersionKey)
    ensures OfRank([x] + rest, key) == OfRank([x], key) + OfRank(rest, key)
  {
    assert ([x] + rest)[1..] == rest && [x][1..] == [];
  }

  lemma OfRankBoth(first: Platform, rest: seq<Platform>, longer: seq<Platform>, more: seq<Platform>, key: VersionKey)
    requires OfRank(longer, key) == OfRank(rest, key) + more
    ensures OfRank([first] + longer, key) == OfRank([first] + rest, key) + more
  {
    OfRankFirst(first, rest, key);
    OfRankFirst(first, longer, key);
    Assoc(OfRank([first], key), OfRank(rest, key), more);
  }

  lemma StepwiseRest(s: seq<Platform>)
    requires s != [] && Stepwise(s, NotOlder)
    ensures Stepwise(s[1..], NotOlder)
  {
    var rest := s[1..];
    assert forall i :: 0 < i < |rest| ==> rest[i - 1] == s[i] && rest[i] == s[i + 1];
  }

  /** A platform put in front of older ones. */
  lemma InsertFront(x: Platform, s: seq<Platform>, key: VersionKey)
    requires Rank(x) == key ==> OfRank(s, key) == []
    ensures OfRank([x] + s, key) == OfRank(s, key) + if Rank(x) == key then [x] else []
  {
    OfRankFirst(x, s, key);
    assert [x][1..] == [];
    if Rank(x) == key { NoneAfter([x]); } else { NoneAfter(OfRank(s, key)); }
  }

  /** A platform is put behind those of its own rank. */
  lemma {:induction false} InsertLast(x: Platform, s: seq<Platform>, key: VersionKey)
    requires Stepwise(s, NotOlder)
    ensures OfRank(Insert(x, s, NotOlder), key) == OfRank(s, key) + if Rank(x) == key then [x] else []
  {
    if s == [] {
      NoneAfter([x]);
      InsertFront(x, s, key);
    } else if NotOlder(s[0], x) {
      var first, rest := s[0], s[1..];
      StepwiseRest(s);
      InsertLast(x, rest, key);
      assert s == [first] + rest;
      OfRankBoth(first, rest, Insert(x, rest, NotOlder), if Rank(x) == key then [x] else [], key);
    } else {
      NoneOfRank(s, x);
      InsertFront(x, s, key);
    }
  }

  /** Below a platform that is older than x, none has the rank of x. */
  lemma {:induction false} NoneOfRank(s: seq<Platform>, x: Platform)
    requires s != [] && Stepwise(s, NotOlder) && !NotOlder(s[0], x)
    ensures OfRank(s, Rank(x)) == []
  {
    CompareTotal(Rank(x), Rank(s[0]));
    if |s| > 1 {
      var rest := s[1..];
      StepwiseRest(s);
      assert NotOlder(s[0], s[1]);
      if NotOlder(s[1], x) { CompareTransitive(Rank(x), Rank(s[1]), Rank(s[0])); }
      NoneOfRank(rest, x);
    } else {
      assert s[1..] == [];
    }
  }

  lemma SortUnfold(s: seq<Platform>) returns (front: seq<Platform>, last: Platform)
    requires s != []
    ensures s == front + [last] && |front| < |s| && SortPlatforms(s) == Insert(last, SortPlatforms(front), NotOlder)
  {
    front, last := s[..|s| - 1], s[|s| - 1];
  }

  /** Platforms of equal rank keep their order. */
  lemma {:induction false} SortStable(s: seq<Platform>, key: VersionKey)
    ensures OfRank(SortPlatforms(s), key) == OfRank(s, key)
  {
    if s != [] {
      var front, last := SortUnfold(s);
      SortStable(front, key);
      SortedSteps(front);
      StableStep(front, last, SortPlatforms(front), s, SortPlatforms(s), key);
    }
  }

  lemma StableStep(front: seq<Platform>, last: Platform, sorted: seq<Platform>, s: seq<Platform>, r: seq<Platform>, key: VersionKey)
    requires Stepwise(sorted, NotOlder) && OfRank(sorted, key) == OfRank(front, key) && s == front + [last]
    requires r == Insert(last, sorted, NotOlder)
    ensures OfRank(r, key) == OfRank(s, key)
  {
    InsertLast(last, sorted, key);
    OfRankNext(front, last, key);
  }

  lemma SortedSteps(s: seq<Platform>)
    ensures Stepwise(SortPlatforms(s), NotOlder)
  {
    NotOlderOrdered();
    SortStepwise(s, NotOlder);
  }

  lemma {:induction false} SortMembers(s: seq<Platform>, p: Platform)
    ensures p in SortPlatforms(s) <==> p in s
  {
    SortKeeps(s, NotOlder);
    assert p in SortPlatforms(s) <==> p in multiset(SortPlatforms(s));
  }

  // ---------- the merge ----------

  function SortPackage(p: Package): Package {
    Package(p.name, SortPlatforms(p.platforms), p.tools)
  }

  function SortAll(packages: seq<Package>): seq<Package> {
    if packages == [] then [] else SortAll(packages[..|packages| - 1]) + [SortPackage(packages[|packages| - 1])]
  }

  lemma {:induction false} SortAllAt(packages: seq<Package>, k: nat)
    requires k < |packages|
    ensures |SortAll(packages)| == |packages| && SortAll(packages)[k] == SortPackage(packages[k])
    decreases |packages|
  {
    if k < |packages| - 1 {
      SortAllAt(packages[..|packages| - 1], k);
    } else if k > 0 {
      SortAllAt(packages[..|packages| - 1], k - 1);
    }
  }

  function Merged(indexes: seq<Index>): Index {
    SortAll(Collect(Flatten(indexes)))
  }

  predicate AllSortable(packages: seq<Package>) {
    packages != [] ==>
      AllSortable(packages[..|packages| - 1]) && Sortable(packages[|packages| - 1].platforms)
  }

  lemma {:induction false} AllSortableIs(packages: seq<Package>)
    ensures AllSortable(packages) <==>
      forall k, i :: 0 <= k < |packages| && 0 <= i < |packages[k].platforms| ==> KeyOf(packages[k].platforms[i].version).Some?
  {
    if packages != [] {
      var front, last := packages[..|packages| - 1], packages[|packages| - 1];
      AllSortableIs(front);
      assert forall k :: 0 <= k < |front| ==> front[k] == packages[k];
      assert Sortable(last.platforms) <==> forall i :: 0 <= i < |last.platforms| ==> KeyOf(last.platforms[i].version).Some?;
    }
  }

  /** Appends the items whose identity is not there yet. */
  method AppendMissing<T>(have: seq<T>, incoming: seq<T>, id: T -> Identity) returns (r: seq<T>)
    ensures r == AddMissing(have, incoming, id)
  {
    r := have;
    var existing := set i | 0 <= i < |have| :: id(have[i]);
    var i := 0;
    while i < |incoming|
      invariant 0 <= i <= |incoming| && r == AddMissing(have, incoming[..i], id)
      invariant forall key :: key in existing <==> HasId(r, id, key)
    {
      var item := incoming[i];
      assert incoming[..i + 1][..i] == incoming[..i];
      if id(item) !in existing {
        HasIdNext(r, item, id);
        r := r + [item];
        existing := existing + {id(item)};
      }
      i := i + 1;
    }
    assert incoming[..i] == incoming;
  }

  lemma {:induction false} HasIdNext<T>(have: seq<T>, item: T, id: T -> Identity)
    ensures forall key :: HasId(have + [item], id, key) <==> HasId(have, id, key) || key == id(item)
  {
    forall key ensures HasId(have + [item], id, key) <==> HasId(have, id, key) || key == id(item) {
      if HasId(have, id, key) {
        var i :| 0 <= i < |have| && id(have[i]) == key;
        assert id((have + [item])[i]) == key;
      }
      if key == id(item) { assert id((have + [item])[|have|]) == key; }
    }
  }

  /** Merges one package into the packages collected so far. */
  method MergeOne(packages: seq<Package>, incoming: Package) returns (r: seq<Package>)
    ensures r == AddPackage(packages, incoming)
  {
    var k := Place(packages, incoming.name);
    if k == |packages| {
      return packages + [incoming];
    }
    var platforms := AppendMissing(packages[k].platforms, incoming.platforms, PlatformId);
    var tools := AppendMissing(packages[k].tools, incoming.tools, ToolId);
    r := packages[k := Package(packages[k].name, platforms, tools)];
  }

  /** Merges the packages of one index into those collected before. */
  method MergeIndex(packages: seq<Package>, index: Index, ghost before: seq<Package>) returns (r: seq<Package>)
    requires packages == Collect(before)
    ensures r == Collect(before + index)
  {
    r := packages;
    NoneAfter(before);
    var j := 0;
    while j < |index|
      invariant 0 <= j <= |index| && r == Collect(before + index[..j])
    {
      CollectOneMore(before, index, j, j + 1);
      r := MergeOne(r, index[j]);
      j := j + 1;
    }
    assert index[..j] == index;
  }

  /** Sorts the platforms of every package; fails on a version that does not parse. */
  method SortPackages(packages: seq<Package>) returns (ok: bool, merged: Index)
    ensures ok <==> AllSortable(packages)
    ensures ok ==> merged == SortAll(packages)
  {
    ok, merged := true, [];
    var k := 0;
    while k < |packages|
      invariant 0 <= k <= |packages|
      invariant ok <==> AllSortable(packages[..k])
      invariant merged == SortAll(packages[..k])
    {
      assert packages[..k + 1][..k] == packages[..k];
      ok := ok && Sortable(packages[k].platforms);
      merged := merged + [SortPackage(packages[k])];
      k := k + 1;
    }
    assert packages[..k] == packages;
  }

  /** Merges the indexes, the first one winning; fails on a version that does not parse. */
  method MergeIndexes(indexes: seq<Index>) returns (ok: bool, merged: Index)
    ensures ok <==> AllSortable(Collect(Flatten(indexes)))
    ensures ok ==> merged == Merged(indexes)
  {
    var packages: seq<Package> := [];
    assert indexes[..0] == [];
    var i := 0;
    while i < |indexes|
      invariant 0 <= i <= |indexes| && packages == Collect(Flatten(indexes[..i]))
    {
      packages := MergeIndex(packages, indexes[i], Flatten(indexes[..i]));
      FlattenNext(indexes, i);
      i := i + 1;
    }
    assert indexes[..i] == indexes;
    ok, merged := SortPackages(packages);
  }

  lemma CollectOneMore(before: seq<Package>, index: Index, j: nat, next: nat)
    requires j < |index| && next == j + 1
    ensures Collect(before + index[..next]) == AddPackage(Collect(before + index[..j]), index[j])
  {
    CollectNext(before + index[..j], index[j]);
    assert before + index[..j] + [index[j]] == before + index[..next];
  }

  lemma {:induction false} CollectNext(incoming: seq<Package>, p: Package)
    ensures Collect(incoming + [p]) == AddPackage(Collect(incoming), p)
  {
    assert (incoming + [p])[..|incoming|] == incoming;
  }

  lemma {:induction false} FlattenNext(indexes: seq<Index>, i: nat)
    requires i < |indexes|
    ensures Flatten(indexes[..i + 1]) == Flatten(indexes[..i]) + indexes[i]
  {
    assert indexes[..i + 1] == indexes[..i] + [indexes[i]];
    FlattenConcat(indexes[..i], [indexes[i]]);
    assert [indexes[i]][1..] == [];
    assert Flatten([indexes[i]]) == indexes[i] + [];
  }

  lemma {:induction false} FlattenConcat(a: seq<Index>, b: seq<Index>)
    ensures Flatten(a + b) == Flatten(a) + Flatten(b)
  {
    if a == [] {
      assert a + b == b;
    } else {
      FlattenConcat(a[1..], b);
      assert (a + b)[1..] == a[1..] + b && (a + b)[0] == a[0];
    }
  }

  // ---------- what a merge lists ----------

  /** The index lists platform p under the package of that name. */
  ghost predicate Lists(index: Index, name: string, p: Platform) {
    exists k :: 0 <= k < |index| && index[k].name == name && p in index[k].platforms
  }

  /** The index lists some platform of that identity under the package of that name. */
  ghost predicate ListsId(index: Index, name: string, key: Identity) {
    exists k, i :: 0 <= k < |index| && index[k].name == name
      && 0 <= i < |index[k].platforms| && PlatformId(index[k].platforms[i]) == key
  }

  lemma {:induction false} ListsHasId(index: Index, name: string, p: Platform)
    requires Lists(index, name, p)
    ensures ListsId(index, name, PlatformId(p))
  {
    var k :| 0 <= k < |index| && index[k].name == name && p in index[k].platforms;
    var i :| 0 <= i < |index[k].platforms| && index[k].platforms[i] == p;
    assert PlatformId(index[k].platforms[i]) == PlatformId(p);
  }

  lemma {:induction false} ListsWithId(index: Index, name: string, key: Identity) returns (p: Platform)
    requires ListsId(index, name, key)
    ensures Lists(index, name, p) && PlatformId(p) == key
  {
    var k, i :| 0 <= k < |index| && index[k].name == name
      && 0 <= i < |index[k].platforms| && PlatformId(index[k].platforms[i]) == key;
    p := index[k].platforms[i];
  }

  /** Every name once. */
  predicate UniqueNames(packages: seq<Package>) {
    forall i, j :: 0 <= i < j < |packages| ==> packages[i].name != packages[j].name
  }

  lemma {:induction false} PlaceUnique(packages: seq<Package>, k: nat)
    requires UniqueNames(packages) && k < |packages|
    ensures Place(packages, packages[k].name) == k
  {
    forall j | 0 <= j < k ensures packages[j].name != packages[k].name {
    }
  }

  lemma {:induction false} AddUnique(packages: seq<Package>, q: Package)
    requires UniqueNames(packages)
    ensures UniqueNames(AddPackage(packages, q))
  {
  }

  /** What was listed stays listed. */
  lemma {:induction false} AddKeeps(packages: seq<Package>, q: Package, name: string, p: Platform)
    requires Lists(packages, name, p)
    ensures Lists(AddPackage(packages, q), name, p)
  {
    var k :| 0 <= k < |packages| && packages[k].name == name && p in packages[k].platforms;
    var r := AddPackage(packages, q);
    AddMissingKeeps(packages[k].platforms, q.platforms, PlatformId);
    var i :| 0 <= i < |packages[k].platforms| && packages[k].platforms[i] == p;
    assert r[k].name == name && r[k].platforms[i] == p;
  }

  /** An identity listed under a name is one of the only package of that name. */
  lemma {:induction false} IdInPlace(packages: seq<Package>, name: string, key: Identity, k: nat)
    requires UniqueNames(packages) && k < |packages| && packages[k].name == name && ListsId(packages, name, key)
    ensures exists i :: 0 <= i < |packages[k].platforms| && PlatformId(packages[k].platforms[i]) == key
  {
    var k', i :| 0 <= k' < |packages| && packages[k'].name == name
      && 0 <= i < |packages[k'].platforms| && PlatformId(packages[k'].platforms[i]) == key;
    PlaceUnique(packages, k);
    PlaceUnique(packages, k');
  }

  lemma {:induction false} NoIdInPlace(packages: seq<Package>, name: string, key: Identity, k: nat)
    requires UniqueNames(packages) && k < |packages| && packages[k].name == name
    requires forall i :: 0 <= i < |packages[k].platforms| ==> PlatformId(packages[k].platforms[i]) != key
    ensures !ListsId(packages, name, key)
  {
    if ListsId(packages, name, key) { IdInPlace(packages, name, key, k); }
  }

  /** What is new comes from the package added, under an identity of its own. */
  lemma {:induction false} AddAdds(packages: seq<Package>, q: Package, name: string, p: Platform)
    requires UniqueNames(packages) && Lists(AddPackage(packages, q), name, p) && !Lists(packages, name, p)
    ensures name == q.name && p in q.platforms && !ListsId(packages, name, PlatformId(p))
  {
    var r := AddPackage(packages, q);
    var k :| 0 <= k < |r| && r[k].name == name && p in r[k].platforms;
    if k < |packages| {
      assert k == Place(packages, q.name);
      var have := packages[k].platforms;
      var i :| 0 <= i < |r[k].platforms| && r[k].platforms[i] == p;
      AddMissingKeeps(have, q.platforms, PlatformId);
      AddMissingAdds(have, q.platforms, PlatformId, i);
      assert forall m :: 0 <= m < |have| ==> r[k].platforms[m] == have[m];
      NoIdInPlace(packages, name, PlatformId(p), k);
    }
  }

  /** Every identity of the package added is listed. */
  lemma {:induction false} AddCovers(packages: seq<Package>, q: Package, p: Platform)
    requires p in q.platforms
    ensures ListsId(AddPackage(packages, q), q.name, PlatformId(p))
  {
    var k := Place(packages, q.name);
    var r := AddPackage(packages, q);
    var i :| 0 <= i < |q.platforms| && q.platforms[i] == p;
    if k == |packages| {
      assert r[k] == q && PlatformId(r[k].platforms[i]) == PlatformId(p);
    } else {
      AddMissingKeeps(packages[k].platforms, q.platforms, PlatformId);
      assert HasId(r[k].platforms, PlatformId, PlatformId(q.platforms[i]));
    }
  }

  lemma {:induction false} CollectUnique(incoming: seq<Package>)
    ensures UniqueNames(Collect(incoming))
  {
    if incoming != [] {
      CollectUnique(incoming[..|incoming| - 1]);
      AddUnique(Collect(incoming[..|incoming| - 1]), incoming[|incoming| - 1]);
    }
  }

  /** The first index wins: what the packages before list stays as it is, and what comes
      after adds only identities that were not listed. */
  lemma {:induction false} CollectFirstWins(a: seq<Package>, b: seq<Package>, name: string, p: Platform)
    ensures Lists(Collect(a), name, p) ==> Lists(Collect(a + b), name, p)
    ensures Lists(Collect(a + b), name, p) && !Lists(Collect(a), name, p) ==>
      Lists(b, name, p) && !ListsId(Collect(a), name, PlatformId(p))
  {
    if b == [] {
      assert a + b == a;
    } else {
      var b', q := b[..|b| - 1], b[|b| - 1];
      CollectFirstWins(a, b', name, p);
      assert a + b == (a + b') + [q];
      CollectNext(a + b', q);
      CollectUnique(a + b');
      var before := Collect(a + b');
      if Lists(before, name, p) {
        AddKeeps(before, q, name, p);
        ListsPrefix(b, name, p);
      } else if Lists(Collect(a + b), name, p) {
        AddAdds(before, q, name, p);
        assert q == b[|b| - 1];
        if ListsId(Collect(a), name, PlatformId(p)) {
          var p' := ListsWithId(Collect(a), name, PlatformId(p));
          CollectFirstWins(a, b', name, p');
          ListsHasId(before, name, p');
        }
      }
    }
  }

  lemma {:induction false} ListsPrefix(b: seq<Package>, name: string, p: Platform)
    requires b != []
    ensures Lists(b[..|b| - 1], name, p) ==> Lists(b, name, p)
  {
    if Lists(b[..|b| - 1], name, p) {
      var k :| 0 <= k < |b| - 1 && b[..|b| - 1][k].name == name && p in b[..|b| - 1][k].platforms;
      assert b[k].name == name;
    }
  }

  /** Every identity of every index is listed. */
  lemma {:induction false} CollectCovers(incoming: seq<Package>, name: string, p: Platform)
    requires Lists(incoming, name, p)
    ensures ListsId(Collect(incoming), name, PlatformId(p))
  {
    var front, q := incoming[..|incoming| - 1], incoming[|incoming| - 1];
    var k :| 0 <= k < |incoming| && incoming[k].name == name && p in incoming[k].platforms;
    if k == |incoming| - 1 {
      AddCovers(Collect(front), q, p);
    } else {
      assert front[k] == incoming[k];
      CollectCovers(front, name, p);
      var p' := ListsWithId(Collect(front), name, PlatformId(p));
      AddKeeps(Collect(front), q, name, p');
      ListsHasId(Collect(incoming), name, p');
    }
  }

  /** Sorting lists the same platforms. */
  lemma {:induction false} SortAllLists(packages: seq<Package>, name: string, p: Platform)
    ensures Lists(SortAll(packages), name, p) <==> Lists(packages, name, p)
  {
    forall k | 0 <= k < |packages|
      ensures |SortAll(packages)| == |packages| && SortAll(packages)[k] == SortPackage(packages[k])
      ensures p in SortAll(packages)[k].platforms <==> p in packages[k].platforms
    {
      SortAllAt(packages, k);
      SortMembers(packages[k].platforms, p);
    }
    if packages == [] { assert SortAll(packages) == []; }
  }

  // ---------- the merge in plain terms ----------

  lemma {:induction false} CollectOfUnique(a: Index)
    requires UniqueNames(a)
    ensures Collect(a) == a
  {
    if a != [] {
      CollectOfUnique(a[..|a| - 1]);
      assert a == a[..|a| - 1] + [a[|a| - 1]];
    }
  }

  /** Some index lists the platform. */
  ghost predicate SomeLists(indexes: seq<Index>, name: string, p: Platform) {
    exists i :: 0 <= i < |indexes| && Lists(indexes[i], name, p)
  }

  lemma {:induction false} FlattenLists(indexes: seq<Index>, name: string, p: Platform)
    ensures Lists(Flatten(indexes), name, p) <==> SomeLists(indexes, name, p)
  {
    if indexes != [] {
      var a, b := indexes[0], indexes[1..];
      FlattenLists(b, name, p);
      ListsConcat(a, Flatten(b), name, p);
      if SomeLists(b, name, p) {
        var i :| 0 <= i < |b| && Lists(b[i], name, p);
        assert indexes[i + 1] == b[i];
      }
      if SomeLists(indexes, name, p) && !Lists(a, name, p) {
        var i :| 0 <= i < |indexes| && Lists(indexes[i], name, p);
        assert b[i - 1] == indexes[i];
      }
    }
  }

  lemma {:induction false} ListsConcat(a: Index, b: Index, name: string, p: Platform)
    ensures Lists(a + b, name, p) <==> Lists(a, name, p) || Lists(b, name, p)
  {
    if Lists(a, name, p) {
      var k :| 0 <= k < |a| && a[k].name == name && p in a[k].platforms;
      assert (a + b)[k] == a[k];
    }
    if Lists(b, name, p) {
      var k :| 0 <= k < |b| && b[k].name == name && p in b[k].platforms;
      assert (a + b)[|a| + k] == b[k];
    }
  }

  /** The first index wins: all it lists stays, and what comes from the others has another
      architecture or version than everything it lists under that name. */
  lemma {:induction false} FirstIndexWins(a: Index, others: seq<Index>, name: string, p: Platform)
    requires UniqueNames(a)
    ensures Lists(a, name, p) ==> Lists(Merged([a] + others), name, p)
    ensures Lists(Merged([a] + others), name, p) && !Lists(a, name, p) ==>
      && SomeLists(others, name, p)
      && forall q :: Lists(a, name, q) ==> q.architecture != p.architecture || q.version != p.version
  {
    var b := Flatten(others);
    assert ([a] + others)[1..] == others;
    CollectOfUnique(a);
    CollectFirstWins(a, b, name, p);
    SortAllLists(Collect(a + b), name, p);
    FlattenLists(others, name, p);
    if Lists(Merged([a] + others), name, p) && !Lists(a, name, p) {
      forall q | Lists(a, name, q) ensures q.architecture != p.architecture || q.version != p.version {
        ListsHasId(a, name, q);
      }
    }
  }

  /** Whatever some index lists is listed, perhaps with the bytes of another of the same
      architecture and version; and nothing else is. */
  lemma {:induction false} MergedCovers(indexes: seq<Index>, name: string, p: Platform)
    ensures SomeLists(indexes, name, p) ==>
      exists q :: Lists(Merged(indexes), name, q) && q.architecture == p.architecture && q.version == p.version
    ensures Lists(Merged(indexes), name, p) ==> SomeLists(indexes, name, p)
  {
    var all := Flatten(indexes);
    FlattenLists(indexes, name, p);
    if SomeLists(indexes, name, p) {
      CollectCovers(all, name, p);
      var q := ListsWithId(Collect(all), name, PlatformId(p));
      SortAllLists(Collect(all), name, q);
    }
    SortAllLists(Collect(all), name, p);
    assert all == [] + all;
    CollectFirstWins([], all, name, p);
  }

  /** Each name once, and platforms that no later one is above. */
  lemma {:induction false} MergedSorted(indexes: seq<Index>, k: nat, i: nat, j: nat)
    requires k < |Merged(indexes)| && i < j < |Merged(indexes)[k].platforms|
    ensures !VersionBelow(Rank(Merged(indexes)[k].platforms[i]), Rank(Merged(indexes)[k].platforms[j]))
    ensures forall m :: 0 <= m < |Merged(indexes)| && m != k ==> Merged(indexes)[m].name != Merged(indexes)[k].name
  {
    var packages := Collect(Flatten(indexes));
    CollectUnique(Flatten(indexes));
    SortAllAt(packages, 0);
    SortAllAt(packages, k);
    SortDescending(packages[k].platforms, i, j);
    forall m | 0 <= m < |Merged(indexes)| && m != k ensures Merged(indexes)[m].name != Merged(indexes)[k].name {
      SortAllAt(packages, m);
    }
  }

  /** Tools are merged like platforms: those there stay, each of the others is there by name and
      version, and only those are added whose name and version were not there. */
  lemma {:induction false} ToolsMerged(p: Package, incoming: Package, t: Tool)
    ensures p.tools <= MergePackage(p, incoming).tools
    ensures t in incoming.tools ==>
      exists u :: u in MergePackage(p, incoming).tools && u.name == t.name && u.version == t.version
    ensures t in MergePackage(p, incoming).tools && t !in p.tools ==>
      t in incoming.tools && forall u :: u in p.tools ==> u.name != t.name || u.version != t.version
  {
    var r := AddMissing(p.tools, incoming.tools, ToolId);
    AddMissingKeeps(p.tools, incoming.tools, ToolId);
    if t in incoming.tools {
      var i :| 0 <= i < |incoming.tools| && incoming.tools[i] == t;
      assert HasId(r, ToolId, ToolId(incoming.tools[i]));
      var m :| 0 <= m < |r| && ToolId(r[m]) == ToolId(t);
      assert r[m] in r;
    }
    if t in r && t !in p.tools {
      var k :| 0 <= k < |r| && r[k] == t;
      assert forall m :: 0 <= m < |p.tools| ==> r[m] == p.tools[m] && r[m] in p.tools;
      AddMissingAdds(p.tools, incoming.tools, ToolId, k);
      forall u | u in p.tools ensures u.name != t.name || u.version != t.version {
        var m :| 0 <= m < |p.tools| && p.tools[m] == u;
        assert r[m] == u;
      }
    }
  }
}
