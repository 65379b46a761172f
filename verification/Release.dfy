/** The pure parts of publishing: release tags and download addresses, pruning a merged
    index to the newest development snapshot, and the indexes that a publisher computes. */
module Release {
  import opened Texts
  import opened Versions
  import opened MergePackages
  import opened Wrappers

  // ---------- tags ----------

  predicate IsHex(c: char) {
    '0' <= c <= '9' || 'a' <= c <= 'f'
  }

  /** The tag of a development snapshot: dev-, fourteen digits, a hyphen, twelve hex digits. */
  predicate DevTag(tag: string) {
    && |tag| == 31 && tag[..4] == "dev-" && tag[18] == '-'
    && (forall i :: 4 <= i < 18 ==> '0' <= tag[i] <= '9')
    && (forall i :: 19 <= i < 31 ==> IsHex(tag[i]))
  }

  ghost predicate TagParts(tag: string, date: string, commit: string) {
    && tag == "dev-" + (date + ("-" + commit)) && |date| == 14 && |commit| == 12
    && (forall i :: 0 <= i < 14 ==> date[i] in "0123456789")
    && (forall i :: 0 <= i < 12 ==> commit[i] in "0123456789abcdef")
  }

  lemma DigitsListed(c: char)
    ensures c in "0123456789" <==> '0' <= c <= '9'
    ensures c in "0123456789abcdef" <==> IsHex(c)
  {
    if '0' <= c <= '9' { assert c == "0123456789"[c as int - 48]; }
    if IsHex(c) { assert c == "0123456789abcdef"[if c <= '9' then c as int - 48 else c as int - 87]; }
  }

  /** Exactly the tags of snapshots: their parts are a date and a commit. */
  lemma {:induction false} DevTagIs(tag: string)
    ensures DevTag(tag) <==> exists date, commit :: TagParts(tag, date, commit)
  {
    forall c ensures (c in "0123456789" <==> '0' <= c <= '9') && (c in "0123456789abcdef" <==> IsHex(c)) { DigitsListed(c); }
    if DevTag(tag) {
      var date, commit := tag[4..18], tag[19..];
      assert tag == tag[..4] + (date + ([tag[18]] + commit));
      assert TagParts(tag, date, commit);
    }
    if exists date, commit :: TagParts(tag, date, commit) {
      var date, commit :| TagParts(tag, date, commit);
      assert forall i :: 4 <= i < 18 ==> tag[i] == date[i - 4];
      assert forall i :: 19 <= i < 31 ==> tag[i] == commit[i - 19];
    }
  }

  predicate Less(a: string, b: string) {
    CompareText(a, b) < 0
  }

  lemma LessIs(a: string, b: string)
    ensures Less(a, b) <==> TextBelow(a, b)
  {
    CompareTextIs(a, b);
  }

  lemma {:induction false} LessOrder(a: string, b: string, c: string)
    ensures !Less(a, a) && (Less(a, b) ==> !Less(b, a)) && (Less(a, b) || Less(b, a) || a == b)
    ensures Less(a, b) && Less(b, c) ==> Less(a, c)
    ensures Less(a, b) && !Less(c, b) ==> Less(a, c)
    ensures !Less(b, a) && !Less(c, b) ==> !Less(c, a)
  {
    TextOrder(a, a);
    TextOrder(a, b);
    TextOrder(b, c);
    TextOrder(a, c);
    if CompareText(a, b) <= 0 && CompareText(b, c) <= 0 {
      TextTransitive(a, b, c);
      if a == c { TextOrder(b, a); }
    }
  }

  // ---------- this repository ----------

  /** The repository's download address, and the package and architecture that it builds. */
  datatype Site = Site(prefix: string, name: string, architecture: string)

  /** The release tag of a download address in this repository; empty for any other. */
  function DownloadTag(site: Site, url: string): string {
    if site.prefix <= url then Before(url[|site.prefix|..], '/') else ""
  }

  function TagOf(site: Site, p: Platform): string {
    DownloadTag(site, p.url)
  }

  function Url(site: Site, tag: string, version: string): string {
    site.prefix + tag + "/" + "k210-" + version + ".zip"
  }

  /** The tag of an address is the one it was made from. */
  lemma {:induction false} DownloadTagOfUrl(site: Site, tag: string, version: string)
    requires '/' !in tag
    ensures DownloadTag(site, Url(site, tag, version)) == tag
  {
    var rest := "/" + "k210-" + version + ".zip";
    assert Url(site, tag, version) == site.prefix + (tag + rest);
    assert Url(site, tag, version)[|site.prefix|..] == tag + rest;
    FindBehind(tag, rest, '/');
  }

  datatype Channel = Development | Prerelease | Stable

  /** What a publisher releases: a tag, its version, and the checksum of the archive. */
  datatype Build = Build(tag: string, version: string, channel: Channel, checksum: string, tools: seq<Tool>)

  function EntryOf(site: Site, b: Build): Platform {
    Platform(site.architecture, b.version, b.checksum, Url(site, b.tag, b.version))
  }

  function OwnIndex(site: Site, b: Build): Index {
    [Package(site.name, [EntryOf(site, b)], b.tools)]
  }

  /** Builds that may run: the channel tells the tag's form, versions have no leading v, a
      tag has one version, and equal archives have equal tags, which they embed. */
  ghost predicate BuildsOk(builds: set<Build>) {
    && (forall b :: b in builds ==>
          '/' !in b.tag && (b.channel == Development <==> DevTag(b.tag)) && RemovePrefix(b.version) == b.version)
    && (forall a, b :: a in builds && b in builds && a.tag == b.tag ==> a.version == b.version)
    && (forall a, b :: a in builds && b in builds && a.checksum == b.checksum ==> a.tag == b.tag)
  }

  // ---------- keeping the newest snapshot ----------

  predicate IsSnapshot(site: Site, p: Platform) {
    p.architecture == site.architecture && DevTag(TagOf(site, p))
  }

  /** The newest snapshot's tag. */
  function LatestDev(site: Site, platforms: seq<Platform>): Option<string> {
    if platforms == [] then None
    else
      var latest, last := LatestDev(site, platforms[..|platforms| - 1]), platforms[|platforms| - 1];
      if IsSnapshot(site, last) && (latest.None? || Less(latest.value, TagOf(site, last))) then Some(TagOf(site, last))
      else latest
  }

  lemma {:induction false} LatestIs(site: Site, platforms: seq<Platform>)
    ensures var latest := LatestDev(site, platforms);
      && (latest.Some? ==> exists i :: 0 <= i < |platforms| && IsSnapshot(site, platforms[i]) && TagOf(site, platforms[i]) == latest.value)
      && forall i :: 0 <= i < |platforms| && IsSnapshot(site, platforms[i]) ==>
           latest.Some? && !Less(latest.value, TagOf(site, platforms[i]))
  {
    if platforms != [] {
      var front, last := platforms[..|platforms| - 1], platforms[|platforms| - 1];
      LatestIs(site, front);
      var before, latest := LatestDev(site, front), LatestDev(site, platforms);
      if latest.Some? {
        if before.Some? && latest == before {
          var i :| 0 <= i < |front| && IsSnapshot(site, front[i]) && TagOf(site, front[i]) == latest.value;
          assert platforms[i] == front[i];
        }
      }
      forall i | 0 <= i < |platforms| && IsSnapshot(site, platforms[i])
        ensures latest.Some? && !Less(latest.value, TagOf(site, platforms[i]))
      {
        if i < |front| {
          assert front[i] == platforms[i];
          LessOrder(before.value, latest.value, TagOf(site, platforms[i]));
        } else {
          LessOrder(TagOf(site, last), TagOf(site, last), TagOf(site, last));
        }
      }
    }
  }

  /** A snapshot of this package and architecture other than the newest. */
  predicate Superseded(site: Site, latest: Option<string>, p: Platform) {
    IsSnapshot(site, p) && Some(TagOf(site, p)) != latest
  }

  function Keep(site: Site, latest: Option<string>, platforms: seq<Platform>): seq<Platform> {
    if platforms == [] then []
    else
      var front, last := Keep(site, latest, platforms[..|platforms| - 1]), platforms[|platforms| - 1];
      if Superseded(site, latest, last) then front else front + [last]
  }

  lemma {:induction false} KeepMembers(site: Site, latest: Option<string>, platforms: seq<Platform>, p: Platform)
    ensures p in Keep(site, latest, platforms) <==> p in platforms && !Superseded(site, latest, p)
  {
    if platforms != [] {
      KeepMembers(site, latest, platforms[..|platforms| - 1], p);
      assert platforms == platforms[..|platforms| - 1] + [platforms[|platforms| - 1]];
    }
  }

  function LatestIn(site: Site, index: Index): Option<string> {
    var k := Place(index, site.name);
    if k < |index| then LatestDev(site, index[k].platforms) else None
  }

  /** The index with only the newest snapshot of this package and architecture. */
  function Retained(site: Site, index: Index): Index {
    var k := Place(index, site.name);
    if k < |index| then
      index[k := Package(index[k].name, Keep(site, LatestIn(site, index), index[k].platforms), index[k].tools)]
    else index
  }

  /** Drops all snapshots but the newest, and returns the newest one's tag. */
  method RetainLatestDev(site: Site, index: Index) returns (r: Index, latest: Option<string>)
    requires Place(index, site.name) < |index|
    ensures r == Retained(site, index) && latest == LatestIn(site, index)
  {
    var k := Place(index, site.name);
    var platforms := index[k].platforms;
    latest := None;
    var i := 0;
    while i < |platforms|
      invariant 0 <= i <= |platforms| && latest == LatestDev(site, platforms[..i])
    {
      assert platforms[..i + 1][..i] == platforms[..i];
      var tag := TagOf(site, platforms[i]);
      if IsSnapshot(site, platforms[i]) && (latest == None || Less(latest.value, tag)) {
        latest := Some(tag);
      }
      i := i + 1;
    }
    assert platforms[..i] == platforms;
    var kept: seq<Platform> := [];
    i := 0;
    while i < |platforms|
      invariant 0 <= i <= |platforms| && kept == Keep(site, latest, platforms[..i])
    {
      assert platforms[..i + 1][..i] == platforms[..i];
      if !Superseded(site, latest, platforms[i]) {
        kept := kept + [platforms[i]];
      }
      i := i + 1;
    }
    assert platforms[..i] == platforms;
    r := index[k := Package(index[k].name, kept, index[k].tools)];
  }

  // ---------- the indexes of a publisher ----------

  /** The stable and the development index of a commit. */
  datatype Pages = Pages(stable: Index, dev: Index)

  /** An advertised platform of that version has other bytes. */
  ghost predicate Conflicts(site: Site, b: Build, index: Index) {
    exists p :: Own(site, index, p) && RemovePrefix(p.version) == b.version && p.checksum != b.checksum
  }

  /** The index lists p for this package and architecture. */
  ghost predicate Own(site: Site, index: Index, p: Platform) {
    p.architecture == site.architecture && Lists(index, site.name, p)
  }

  /** The merged development index before pruning. */
  function MergedDev(site: Site, b: Build, was: Pages): Index {
    Merged([OwnIndex(site, b), was.dev, was.stable])
  }

  function NewDev(site: Site, b: Build, was: Pages): Index {
    Retained(site, MergedDev(site, b, was))
  }

  function NewStable(site: Site, b: Build, was: Pages): Index {
    Merged([OwnIndex(site, b), was.stable])
  }

  /** The newest snapshot of the merged index. */
  function NewLatest(site: Site, b: Build, was: Pages): Option<string> {
    LatestIn(site, MergedDev(site, b, was))
  }

  /** One checksum for every version. */
  ghost predicate Consistent(index: Index) {
    forall name, p, q :: Lists(index, name, p) && Lists(index, name, q) && PlatformId(p) == PlatformId(q) ==>
      p.checksum == q.checksum
  }

  /** The entries for this package and architecture are those of builds. */
  ghost predicate FromBuilds(site: Site, builds: set<Build>, index: Index) {
    forall p :: Own(site, index, p) ==> exists b :: b in builds && p == EntryOf(site, b)
  }

  ghost predicate IndexOk(site: Site, builds: set<Build>, index: Index) {
    Consistent(index) && FromBuilds(site, builds, index)
  }

  ghost predicate PagesOk(site: Site, builds: set<Build>, pages: Pages) {
    IndexOk(site, builds, pages.dev) && IndexOk(site, builds, pages.stable)
  }

  lemma {:induction false} FlattenThree(a: Index, b: Index, c: Index)
    ensures Flatten([a, b]) == a + b && Flatten([a, b, c]) == (a + b) + c
  {
    assert [a, b, c][1..] == [b, c] && [b, c][1..] == [c] && [c][1..] == [] && [a, b][1..] == [b] && [b][1..] == [];
    assert Flatten([c]) == c + [] == c && Flatten([b]) == b + [] == b;
    assert Flatten([b, c]) == b + c;
    assert a + (b + c) == (a + b) + c;
  }

  // ---------- consistency ----------

  lemma {:induction false} ConsistentStep(a: seq<Package>, b: seq<Package>)
    requires Consistent(Collect(a)) && Consistent(b)
    ensures Consistent(Collect(a + b))
  {
    forall name, p, q | Lists(Collect(a + b), name, p) && Lists(Collect(a + b), name, q) && PlatformId(p) == PlatformId(q)
      ensures p.checksum == q.checksum
    {
      CollectFirstWins(a, b, name, p);
      CollectFirstWins(a, b, name, q);
      if Lists(Collect(a), name, p) { ListsHasId(Collect(a), name, p); }
      if Lists(Collect(a), name, q) { ListsHasId(Collect(a), name, q); }
    }
  }

  /** The publisher's own index lists its entry and nothing else. */
  lemma {:induction false} OwnCollected(site: Site, b: Build, name: string, p: Platform)
    ensures Lists(Collect(OwnIndex(site, b)), name, p) <==> name == site.name && p == EntryOf(site, b)
  {
    var own := OwnIndex(site, b);
    assert own[..0] == [] && Collect([]) == [];
    assert Collect(own) == [] + [own[0]];
    if name == site.name && p == EntryOf(site, b) { assert Collect(own)[0].name == name; }
  }

  /** What the first n of the three indexes list together. */
  lemma {:induction false} MergedConsistent(site: Site, b: Build, was: Pages)
    requires Consistent(was.dev) && Consistent(was.stable)
    ensures Consistent(Collect(OwnIndex(site, b) + was.dev))
    ensures Consistent(Merged([OwnIndex(site, b), was.dev, was.stable]))
    ensures Consistent(Merged([OwnIndex(site, b), was.stable]))
  {
    var own := OwnIndex(site, b);
    forall name, p ensures Lists(Collect(own), name, p) <==> name == site.name && p == EntryOf(site, b) {
      OwnCollected(site, b, name, p);
    }
    ConsistentStep(own, was.dev);
    ConsistentStep(own + was.dev, was.stable);
    ConsistentStep(own, was.stable);
    FlattenThree(own, was.dev, was.stable);
    FlattenThree(own, was.stable, []);
    SortConsistent(Collect((own + was.dev) + was.stable));
    SortConsistent(Collect(own + was.stable));
  }

  lemma {:induction false} SortConsistent(packages: seq<Package>)
    requires Consistent(packages)
    ensures Consistent(SortAll(packages))
  {
    forall name, p ensures Lists(SortAll(packages), name, p) <==> Lists(packages, name, p) {
      SortAllLists(packages, name, p);
    }
  }

  // ---------- what the new indexes list ----------

  lemma NotListed(index: Index, name: string, p: Platform)
    requires Place(index, name) == |index|
    ensures !Lists(index, name, p)
  {
  }

  lemma {:induction false} RetainedLists(site: Site, index: Index, name: string, p: Platform)
    requires UniqueNames(index)
    ensures Lists(Retained(site, index), name, p) <==>
      Lists(index, name, p) && !(name == site.name && Superseded(site, LatestIn(site, index), p))
  {
    var k, r := Place(index, site.name), Retained(site, index);
    if k < |index| {
      KeepMembers(site, LatestIn(site, index), index[k].platforms, p);
      if Lists(r, name, p) {
        var m :| 0 <= m < |r| && r[m].name == name && p in r[m].platforms;
        assert index[m].name == name && p in index[m].platforms;
        if name == site.name { PlaceUnique(index, m); }
      }
      if Lists(index, name, p) && !(name == site.name && Superseded(site, LatestIn(site, index), p)) {
        var m :| 0 <= m < |index| && index[m].name == name && p in index[m].platforms;
        assert r[m].name == name;
        if name == site.name { PlaceUnique(index, m); }
        assert p in r[m].platforms;
      }
    } else {
      assert r == index;
      NotListed(index, site.name, p);
    }
  }

  /** A later snapshot of this package and architecture is listed. */
  ghost predicate LaterListed(site: Site, index: Index, p: Platform) {
    exists q :: Lists(index, site.name, q) && q.architecture == site.architecture && DevTag(TagOf(site, q))
      && TextBelow(TagOf(site, p), TagOf(site, q))
  }

  /** Exactly the snapshots of this package and architecture go of which a later one is listed. */
  lemma {:induction false} RetainedIs(site: Site, index: Index, name: string, p: Platform)
    requires UniqueNames(index)
    ensures Lists(Retained(site, index), name, p) <==>
      Lists(index, name, p)
      && !(name == site.name && p.architecture == site.architecture && DevTag(TagOf(site, p)) && LaterListed(site, index, p))
  {
    RetainedLists(site, index, name, p);
    var latest := LatestIn(site, index);
    if Lists(index, name, p) && name == site.name && IsSnapshot(site, p) {
      LatestOfAll(site, index, p);
      var k := Place(index, name);
      LatestIs(site, index[k].platforms);
      var i :| 0 <= i < |index[k].platforms| && IsSnapshot(site, index[k].platforms[i]) && TagOf(site, index[k].platforms[i]) == latest.value;
      var q := index[k].platforms[i];
      assert Lists(index, site.name, q);
      LessOrder(TagOf(site, p), latest.value, "");
      LessIs(TagOf(site, p), latest.value);
      if LaterListed(site, index, p) {
        var r :| Lists(index, site.name, r) && r.architecture == site.architecture && DevTag(TagOf(site, r))
          && TextBelow(TagOf(site, p), TagOf(site, r));
        LessIs(TagOf(site, p), TagOf(site, r));
        LatestOfAll(site, index, r);
      }
    }
  }

  lemma {:induction false} SortUnique(packages: seq<Package>)
    requires UniqueNames(packages)
    ensures UniqueNames(SortAll(packages))
  {
    forall k | 0 <= k < |packages| ensures |SortAll(packages)| == |packages| && SortAll(packages)[k] == SortPackage(packages[k]) {
      SortAllAt(packages, k);
    }
    if packages == [] { assert SortAll(packages) == []; }
  }

  lemma {:induction false} MergedUnique(site: Site, b: Build, was: Pages)
    ensures UniqueNames(MergedDev(site, b, was))
  {
    var all := Flatten([OwnIndex(site, b), was.dev, was.stable]);
    CollectUnique(all);
    SortUnique(Collect(all));
  }

  /** The own entry comes first, and every other comes from the two indexes merged, under an
      identity that is not the own entry's. */
  lemma {:induction false} MergedFrom(site: Site, b: Build, was: Pages, name: string, p: Platform)
    ensures name == site.name && p == EntryOf(site, b) ==> Lists(MergedDev(site, b, was), name, p)
    ensures Lists(MergedDev(site, b, was), name, p) ==>
      (name == site.name && p == EntryOf(site, b)) || Lists(was.dev, name, p) || Lists(was.stable, name, p)
  {
    var own := OwnIndex(site, b);
    OwnCollected(site, b, name, p);
    CollectFirstWins(own, was.dev, name, p);
    CollectFirstWins(own + was.dev, was.stable, name, p);
    FlattenThree(own, was.dev, was.stable);
    SortAllLists(Collect((own + was.dev) + was.stable), name, p);
  }

  /** Every entry of the old development index is listed with its checksum. */
  lemma {:induction false} MergedKeeps(site: Site, b: Build, was: Pages, name: string, p: Platform) returns (q: Platform)
    requires Consistent(was.dev) && !Conflicts(site, b, was.dev) && RemovePrefix(b.version) == b.version
    requires Lists(was.dev, name, p)
    ensures Lists(MergedDev(site, b, was), name, q) && PlatformId(q) == PlatformId(p) && q.checksum == p.checksum
    ensures q == EntryOf(site, b) || Lists(was.dev, name, q)
  {
    var own := OwnIndex(site, b);
    ListsBehind(own, was.dev, name, p);
    CollectCovers(own + was.dev, name, p);
    q := ListsWithId(Collect(own + was.dev), name, PlatformId(p));
    OwnCollected(site, b, name, q);
    CollectFirstWins(own, was.dev, name, q);
    CollectFirstWins(own + was.dev, was.stable, name, q);
    FlattenThree(own, was.dev, was.stable);
    SortAllLists(Collect((own + was.dev) + was.stable), name, q);
    if Lists(Collect(own), name, q) {
      assert Own(site, was.dev, p);
    }
  }

  lemma {:induction false} ListsBehind(a: Index, b: Index, name: string, p: Platform)
    requires Lists(b, name, p)
    ensures Lists(a + b, name, p)
  {
    var k :| 0 <= k < |b| && b[k].name == name && p in b[k].platforms;
    assert (a + b)[|a| + k] == b[k];
  }

  // ---------- what the publisher's indexes keep ----------

  /** An entry of this package and architecture has the tag of the build it is from. */
  lemma {:induction false} EntryTag(site: Site, builds: set<Build>, b: Build)
    requires BuildsOk(builds) && b in builds
    ensures TagOf(site, EntryOf(site, b)) == b.tag
  {
    DownloadTagOfUrl(site, b.tag, b.version);
  }

  /** Entries of this package and architecture with equal checksums have equal tags. */
  lemma {:induction false} SameTag(site: Site, builds: set<Build>, p: Platform, q: Platform)
    requires BuildsOk(builds) && p.checksum == q.checksum
    requires exists a :: a in builds && p == EntryOf(site, a)
    requires exists b :: b in builds && q == EntryOf(site, b)
    ensures TagOf(site, p) == TagOf(site, q)
  {
    var a :| a in builds && p == EntryOf(site, a);
    var b :| b in builds && q == EntryOf(site, b);
    EntryTag(site, builds, a);
    EntryTag(site, builds, b);
  }

  lemma {:induction false} NewDevLists(site: Site, b: Build, was: Pages, name: string, p: Platform)
    ensures Lists(NewDev(site, b, was), name, p) <==>
      Lists(MergedDev(site, b, was), name, p) && !(name == site.name && Superseded(site, NewLatest(site, b, was), p))
  {
    MergedUnique(site, b, was);
    RetainedLists(site, MergedDev(site, b, was), name, p);
  }

  /** Nothing but the own entry is new. */
  lemma {:induction false} NewDevFrom(site: Site, b: Build, was: Pages, name: string, p: Platform)
    requires Lists(NewDev(site, b, was), name, p)
    ensures (name == site.name && p == EntryOf(site, b)) || Lists(was.dev, name, p) || Lists(was.stable, name, p)
  {
    NewDevLists(site, b, was, name, p);
    MergedFrom(site, b, was, name, p);
  }

  /** The newest snapshot of the merged index is kept, and none of the old index is newer. */
  lemma {:induction false} NewLatestIs(site: Site, builds: set<Build>, b: Build, was: Pages, p: Platform)
    requires BuildsOk(builds) && b in builds && PagesOk(site, builds, was) && !Conflicts(site, b, was.dev)
    requires Own(site, was.dev, p) && IsSnapshot(site, p)
    ensures var latest := NewLatest(site, b, was); latest.Some? && !Less(latest.value, TagOf(site, p))
  {
    var q := MergedKeeps(site, b, was, site.name, p);
    assert q.architecture == site.architecture;
    if q != EntryOf(site, b) { assert Own(site, was.dev, q); }
    SameTag(site, builds, p, q);
    MergedUnique(site, b, was);
    LatestOfAll(site, MergedDev(site, b, was), q);
  }

  lemma {:induction false} LatestOfAll(site: Site, index: Index, q: Platform)
    requires Lists(index, site.name, q) && IsSnapshot(site, q) && UniqueNames(index)
    ensures LatestIn(site, index).Some? && !Less(LatestIn(site, index).value, TagOf(site, q))
  {
    var k :| 0 <= k < |index| && index[k].name == site.name && q in index[k].platforms;
    PlaceUnique(index, k);
    LatestIs(site, index[k].platforms);
    var i :| 0 <= i < |index[k].platforms| && index[k].platforms[i] == q;
  }

  /** The newest snapshot's entry is listed. */
  lemma {:induction false} LatestListed(site: Site, b: Build, was: Pages) returns (q: Platform)
    requires NewLatest(site, b, was).Some?
    ensures Own(site, NewDev(site, b, was), q) && IsSnapshot(site, q) && TagOf(site, q) == NewLatest(site, b, was).value
  {
    var index := MergedDev(site, b, was);
    var k := Place(index, site.name);
    LatestIs(site, index[k].platforms);
    var i :| 0 <= i < |index[k].platforms| && IsSnapshot(site, index[k].platforms[i])
      && TagOf(site, index[k].platforms[i]) == NewLatest(site, b, was).value;
    q := index[k].platforms[i];
    assert Lists(index, site.name, q);
    NewDevLists(site, b, was, site.name, q);
  }

  /** The own entry is listed unless it is an older snapshot. */
  lemma {:induction false} NewDevOwn(site: Site, builds: set<Build>, b: Build, was: Pages)
    requires BuildsOk(builds) && b in builds
    requires b.channel == Development ==> NewLatest(site, b, was) == Some(b.tag)
    ensures Own(site, NewDev(site, b, was), EntryOf(site, b))
  {
    EntryTag(site, builds, b);
    MergedFrom(site, b, was, site.name, EntryOf(site, b));
    NewDevLists(site, b, was, site.name, EntryOf(site, b));
  }

  /** The index lists that version with that checksum. */
  ghost predicate Advertised(index: Index, name: string, p: Platform) {
    exists q :: Lists(index, name, q) && PlatformId(q) == PlatformId(p) && q.checksum == p.checksum
  }

  /** Every version that was advertised stays, with its checksum, except older snapshots. */
  lemma {:induction false} NewDevKeeps(site: Site, builds: set<Build>, b: Build, was: Pages, name: string, p: Platform)
    requires BuildsOk(builds) && b in builds && PagesOk(site, builds, was) && !Conflicts(site, b, was.dev)
    requires Lists(was.dev, name, p)
    ensures Advertised(NewDev(site, b, was), name, p)
         || (name == site.name && IsSnapshot(site, p)
             && NewLatest(site, b, was).Some? && Less(TagOf(site, p), NewLatest(site, b, was).value))
  {
    var q := MergedKeeps(site, b, was, name, p);
    NewDevLists(site, b, was, name, q);
    if !Lists(NewDev(site, b, was), name, q) {
      assert q.architecture == p.architecture;
      if q != EntryOf(site, b) { assert Own(site, was.dev, q); }
      assert Own(site, was.dev, p);
      SameTag(site, builds, p, q);
      NewLatestIs(site, builds, b, was, p);
      LessOrder(TagOf(site, p), NewLatest(site, b, was).value, "");
    }
  }

  /** The new development index is as good as the old ones. */
  lemma {:induction false} NewDevOk(site: Site, builds: set<Build>, b: Build, was: Pages)
    requires BuildsOk(builds) && b in builds && PagesOk(site, builds, was)
    ensures IndexOk(site, builds, NewDev(site, b, was))
  {
    var r := NewDev(site, b, was);
    MergedConsistent(site, b, was);
    forall name, p, q | Lists(r, name, p) && Lists(r, name, q) && PlatformId(p) == PlatformId(q)
      ensures p.checksum == q.checksum
    {
      NewDevLists(site, b, was, name, p);
      NewDevLists(site, b, was, name, q);
    }
    forall p | Own(site, r, p) ensures exists a :: a in builds && p == EntryOf(site, a) {
      NewDevFrom(site, b, was, site.name, p);
      if p != EntryOf(site, b) { assert Own(site, was.dev, p) || Own(site, was.stable, p); }
    }
  }

  // ---------- the stable index ----------

  lemma {:induction false} NewStableFrom(site: Site, b: Build, was: Pages, name: string, p: Platform)
    ensures name == site.name && p == EntryOf(site, b) ==> Lists(NewStable(site, b, was), name, p)
    ensures Lists(NewStable(site, b, was), name, p) ==>
      (name == site.name && p == EntryOf(site, b)) || Lists(was.stable, name, p)
  {
    var own := OwnIndex(site, b);
    OwnCollected(site, b, name, p);
    CollectFirstWins(own, was.stable, name, p);
    FlattenThree(own, was.stable, []);
    SortAllLists(Collect(own + was.stable), name, p);
  }

  /** The new stable index keeps every version with its checksum. */
  lemma {:induction false} NewStableKeeps(site: Site, builds: set<Build>, b: Build, was: Pages, name: string, p: Platform)
    requires BuildsOk(builds) && b in builds && PagesOk(site, builds, was) && !Conflicts(site, b, was.stable)
    requires Lists(was.stable, name, p)
    ensures Advertised(NewStable(site, b, was), name, p)
  {
    var own := OwnIndex(site, b);
    ListsBehind(own, was.stable, name, p);
    CollectCovers(own + was.stable, name, p);
    var q := ListsWithId(Collect(own + was.stable), name, PlatformId(p));
    OwnCollected(site, b, name, q);
    CollectFirstWins(own, was.stable, name, q);
    FlattenThree(own, was.stable, []);
    SortAllLists(Collect(own + was.stable), name, q);
    if Lists(Collect(own), name, q) { assert Own(site, was.stable, p); }
  }

  lemma {:induction false} NewStableOk(site: Site, builds: set<Build>, b: Build, was: Pages)
    requires BuildsOk(builds) && b in builds && PagesOk(site, builds, was)
    ensures IndexOk(site, builds, NewStable(site, b, was))
  {
    var r := NewStable(site, b, was);
    MergedConsistent(site, b, was);
    forall p | Own(site, r, p) ensures exists a :: a in builds && p == EntryOf(site, a) {
      NewStableFrom(site, b, was, site.name, p);
      if p != EntryOf(site, b) { assert Own(site, was.stable, p); }
    }
  }
}
