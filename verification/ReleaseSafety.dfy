/** What publishing keeps in every reachable state: what the live indexes name is there, no
    pruning removes it, and no update is lost. */
module ReleaseSafety {
  import opened Versions
  import opened MergePackages
  import opened Release
  import opened ReleaseProtocol
  import opened Wrappers

  // ---------- the invariant ----------

  /** A published release has the archive, with that checksum, and its tag exists. */
  ghost predicate Backed(site: Site, hub: Hub, p: Platform) {
    exists id :: id in hub.releases && hub.releases[id].tag == TagOf(site, p) && !hub.releases[id].draft
      && hub.releases[id].archive == Uploaded(p.checksum) && TagOf(site, p) in hub.tags
  }

  /** The index has a snapshot that is not older than tag. */
  ghost predicate AtLeast(site: Site, index: Index, tag: string) {
    exists p :: Own(site, index, p) && IsSnapshot(site, p) && !Less(TagOf(site, p), tag)
  }

  ghost predicate Newer(site: Site, index: Index, tag: string) {
    exists p :: Own(site, index, p) && IsSnapshot(site, p) && Less(tag, TagOf(site, p))
  }

  function Live(hub: Hub): Pages
    requires hub.head < |hub.commits|
  {
    hub.commits[hub.head]
  }

  /** A newer snapshot is live, so this one may be pruned. */
  ghost predicate Stale(site: Site, dev: Index, tag: string) {
    DevTag(tag) && Newer(site, dev, tag)
  }

  /** Since these pages the newest snapshot has not gone backwards, and every snapshot that
      was named later is at least as new as theirs. */
  ghost predicate Since(site: Site, then_: Pages, now: Pages) {
    && (forall p :: Own(site, then_.dev, p) && IsSnapshot(site, p) ==> AtLeast(site, now.dev, TagOf(site, p)))
    && (forall x :: Named(site, now, x) && DevTag(x) ==> Named(site, then_, x) || NotBefore(site, then_.dev, x))
  }

  ghost predicate NotBefore(site: Site, index: Index, x: string) {
    forall p :: Own(site, index, p) && IsSnapshot(site, p) ==> !Less(x, TagOf(site, p))
  }

  /** The entries of this package and architecture in the live indexes are backed. */
  ghost predicate LiveBacked(site: Site, hub: Hub)
    requires hub.head < |hub.commits|
  {
    forall p :: Own(site, Live(hub).dev, p) || Own(site, Live(hub).stable, p) ==> Backed(site, hub, p)
  }

  ghost predicate HubOk(site: Site, builds: set<Build>, hub: Hub) {
    && hub.head + 1 == |hub.commits|
    && (forall c :: 0 <= c < |hub.commits| ==> PagesOk(site, builds, hub.commits[c]))
    && (forall c :: 0 <= c < |hub.commits| ==> Since(site, hub.commits[c], Live(hub)))
    && (forall id :: id in hub.releases ==> id < hub.nextId && (hub.releases[id].draft || hub.releases[id].tag in hub.tags))
    && LiveBacked(site, hub)
  }

  ghost predicate ItemOk(hub: Hub, item: Item) {
    item.id < hub.nextId && (item.id in hub.releases ==> hub.releases[item.id].tag == item.release.tag)
  }

  /** A release that was published still is, unless it may have been pruned. */
  ghost predicate StillPublic(site: Site, hub: Hub, dev: Index, id: nat, draft: bool, tag: string) {
    draft || Stale(site, dev, tag) || (id in hub.releases && !hub.releases[id].draft)
  }

  ghost predicate ReadItem(site: Site, hub: Hub, dev: Index, item: Item) {
    ItemOk(hub, item) && StillPublic(site, hub, dev, item.id, item.release.draft, item.release.tag)
  }

  ghost predicate ItemsOk(site: Site, hub: Hub, dev: Index, list: seq<Item>) {
    forall item :: item in list ==> ReadItem(site, hub, dev, item)
  }

  ghost predicate FoundOk(site: Site, hub: Hub, dev: Index, found: Option<Item>, tag: string) {
    found.Some? ==> found.value.release.tag == tag && ReadItem(site, hub, dev, found.value)
  }

  /** The indexes at the parent admit the build. */
  ghost predicate ParentOk(site: Site, commits: seq<Pages>, b: Build, parent: nat, prerelease: bool) {
    && parent < |commits|
    && !Conflicts(site, b, commits[parent].dev) && !Conflicts(site, b, commits[parent].stable)
    && (b.channel != Stable ==> prerelease)
    && (b.channel == Development ==> NewLatest(site, b, commits[parent]) == Some(b.tag))
  }

  ghost predicate HasRelease(site: Site, hub: Hub, dev: Index, tag: string, id: nat, draft: bool) {
    && id < hub.nextId && (id in hub.releases ==> hub.releases[id].tag == tag)
    && StillPublic(site, hub, dev, id, draft, tag)
  }

  ghost predicate HasArchive(site: Site, hub: Hub, dev: Index, tag: string, id: nat, checksum: string) {
    Stale(site, dev, tag) || (id in hub.releases && hub.releases[id].archive == Uploaded(checksum))
  }

  ghost predicate IsPublic(site: Site, hub: Hub, dev: Index, b: Build) {
    Stale(site, dev, b.tag) || Backed(site, hub, EntryOf(site, b))
  }

  /** The computed indexes are those of commit base, which lists the build. */
  ghost predicate BaseOk(site: Site, commits: seq<Pages>, b: Build, parent: nat, base: nat) {
    && parent < |commits| && base < |commits| && b.channel == Development
    && commits[base].dev == NewDev(site, b, commits[parent])
    && commits[base].stable == commits[parent].stable
    && Own(site, commits[base].dev, EntryOf(site, b))
  }

  /** What a publisher knows of the releases. */
  ghost predicate PhaseOk(site: Site, hub: Hub, dev: Index, p: Publisher) {
    match p
    case Looking(b, found, list) => FoundOk(site, hub, dev, found, b.tag)
    case Ready(b, found, list, parent, prerelease) => FoundOk(site, hub, dev, found, b.tag)
    case Preparing(b, list, parent, prerelease, id, draft) => HasRelease(site, hub, dev, b.tag, id, draft)
    case Complete(b, list, parent, prerelease, id, draft) =>
      HasRelease(site, hub, dev, b.tag, id, draft) && HasArchive(site, hub, dev, b.tag, id, b.checksum)
    case Public(b, list, parent, prerelease) => IsPublic(site, hub, dev, b)
    case Pruning(b, list, parent, base) => true
  }

  /** What a publisher knows of the commits. */
  ghost predicate CommitsOk(site: Site, commits: seq<Pages>, p: Publisher) {
    match p
    case Looking(b, found, list) => true
    case Pruning(b, list, parent, base) => BaseOk(site, commits, b, parent, base)
    case _ => ParentOk(site, commits, p.b, p.parent, p.prerelease)
  }

  ghost predicate PublisherOk(site: Site, builds: set<Build>, hub: Hub, dev: Index, t: string, p: Publisher) {
    && p.b in builds && p.b.tag == t && CommitsOk(site, hub.commits, p)
    && ItemsOk(site, hub, dev, p.list) && PhaseOk(site, hub, dev, p)
  }

  ghost predicate Inv(site: Site, builds: set<Build>, s: State) {
    && BuildsOk(builds) && HubOk(site, builds, s.hub)
    && forall t :: t in s.publishers ==> PublisherOk(site, builds, s.hub, Live(s.hub).dev, t, s.publishers[t])
  }

  // ---------- releases that grow ----------

  /** Releases only gain: none goes away, no finished archive changes, none becomes a draft. */
  ghost predicate Grows(hub: Hub, next: Hub) {
    && next.commits == hub.commits && next.head == hub.head && hub.nextId <= next.nextId && hub.tags <= next.tags
    && (forall id :: id in hub.releases ==>
          && id in next.releases && next.releases[id].tag == hub.releases[id].tag
          && (hub.releases[id].archive.Uploaded? ==> next.releases[id].archive == hub.releases[id].archive)
          && (!hub.releases[id].draft ==> !next.releases[id].draft))
    && (forall id :: id in next.releases ==>
          && id < next.nextId && (id in hub.releases || id >= hub.nextId)
          && (next.releases[id].draft || next.releases[id].tag in next.tags))
  }

  lemma {:induction false} GrowBacked(site: Site, hub: Hub, next: Hub, p: Platform)
    requires Grows(hub, next) && Backed(site, hub, p)
    ensures Backed(site, next, p)
  {
    var id :| id in hub.releases && hub.releases[id].tag == TagOf(site, p) && !hub.releases[id].draft
      && hub.releases[id].archive == Uploaded(p.checksum) && TagOf(site, p) in hub.tags;
    assert id in next.releases;
  }

  lemma {:induction false} GrowHub(site: Site, builds: set<Build>, hub: Hub, next: Hub)
    requires HubOk(site, builds, hub) && Grows(hub, next)
    ensures HubOk(site, builds, next)
  {
    forall p | Own(site, Live(next).dev, p) || Own(site, Live(next).stable, p) ensures Backed(site, next, p) {
      GrowBacked(site, hub, next, p);
    }
  }

  lemma {:induction false} GrowPublisher(site: Site, builds: set<Build>, hub: Hub, next: Hub, dev: Index, t: string, p: Publisher)
    requires Grows(hub, next) && PublisherOk(site, builds, hub, dev, t, p)
    ensures PublisherOk(site, builds, next, dev, t, p)
  {
    GrowItems(site, hub, next, dev, p.list);
    GrowPhase(site, hub, next, dev, p);
  }

  lemma {:induction false} GrowItems(site: Site, hub: Hub, next: Hub, dev: Index, list: seq<Item>)
    requires Grows(hub, next) && ItemsOk(site, hub, dev, list)
    ensures ItemsOk(site, next, dev, list)
  {
  }

  lemma {:induction false} GrowPhase(site: Site, hub: Hub, next: Hub, dev: Index, p: Publisher)
    requires Grows(hub, next) && PhaseOk(site, hub, dev, p)
    ensures PhaseOk(site, next, dev, p)
  {
    if p.Public? && Backed(site, hub, EntryOf(site, p.b)) { GrowBacked(site, hub, next, EntryOf(site, p.b)); }
  }

  // ---------- pruning ----------

  /** Only releases of tag x go away or become drafts, and only tag x goes away. */
  ghost predicate Shrinks(hub: Hub, next: Hub, x: string) {
    && next.commits == hub.commits && next.head == hub.head && next.nextId == hub.nextId && hub.tags - {x} <= next.tags
    && (forall id :: id in hub.releases && hub.releases[id].tag != x ==>
          id in next.releases && next.releases[id] == hub.releases[id])
    && (forall id :: id in next.releases ==>
          && id in hub.releases && next.releases[id].tag == hub.releases[id].tag
          && (next.releases[id].draft || next.releases[id].tag in next.tags))
  }

  /** What a publisher prunes is not named by the live indexes, and a newer snapshot is live. */
  lemma {:induction false} PruneSafe(site: Site, builds: set<Build>, hub: Hub, p: Publisher, x: string)
    requires BuildsOk(builds) && HubOk(site, builds, hub) && p.b in builds
    requires p.Pruning? && BaseOk(site, hub.commits, p.b, p.parent, p.base)
    requires Obsolete(site, p, hub.commits[p.parent], x)
    ensures !Named(site, Live(hub), x) && Stale(site, Live(hub).dev, x)
  {
    EntryTag(site, builds, p.b);
    NotNamed(site, hub.commits[p.base], Live(hub), EntryOf(site, p.b), p.b.tag, x);
  }

  /** A snapshot older than a listed one, and not named then, is stale and not named now. */
  lemma {:induction false} NotNamed(site: Site, base: Pages, now: Pages, e: Platform, tag: string, x: string)
    requires Since(site, base, now) && Own(site, base.dev, e) && TagOf(site, e) == tag && DevTag(tag)
    requires DevTag(x) && Less(x, tag) && !Named(site, base, x)
    ensures !Named(site, now, x) && Stale(site, now.dev, x)
  {
    assert IsSnapshot(site, e);
    var q :| Own(site, now.dev, q) && IsSnapshot(site, q) && !Less(TagOf(site, q), tag);
    LessOrder(x, tag, TagOf(site, q));
  }

  lemma {:induction false} ShrinkBacked(site: Site, hub: Hub, next: Hub, x: string, p: Platform)
    requires Shrinks(hub, next, x) && Backed(site, hub, p) && TagOf(site, p) != x
    ensures Backed(site, next, p)
  {
    var id :| id in hub.releases && hub.releases[id].tag == TagOf(site, p) && !hub.releases[id].draft
      && hub.releases[id].archive == Uploaded(p.checksum) && TagOf(site, p) in hub.tags;
    assert id in next.releases;
  }

  lemma {:induction false} ShrinkHub(site: Site, builds: set<Build>, hub: Hub, next: Hub, x: string)
    requires HubOk(site, builds, hub) && Shrinks(hub, next, x) && !Named(site, Live(hub), x)
    ensures HubOk(site, builds, next)
  {
    forall p | Own(site, Live(next).dev, p) || Own(site, Live(next).stable, p) ensures Backed(site, next, p) {
      assert Named(site, Live(hub), TagOf(site, p));
      ShrinkBacked(site, hub, next, x, p);
    }
  }

  lemma {:induction false} ShrinkPublisher(site: Site, builds: set<Build>, hub: Hub, next: Hub, x: string, dev: Index, t: string, p: Publisher)
    requires BuildsOk(builds) && Shrinks(hub, next, x) && Stale(site, dev, x) && PublisherOk(site, builds, hub, dev, t, p)
    ensures PublisherOk(site, builds, next, dev, t, p)
  {
    ShrinkItems(site, hub, next, x, dev, p.list);
    EntryTag(site, builds, p.b);
    ShrinkPhase(site, hub, next, x, dev, p);
  }

  lemma {:induction false} ShrinkItems(site: Site, hub: Hub, next: Hub, x: string, dev: Index, list: seq<Item>)
    requires Shrinks(hub, next, x) && Stale(site, dev, x) && ItemsOk(site, hub, dev, list)
    ensures ItemsOk(site, next, dev, list)
  {
    forall item | item in list ensures ReadItem(site, next, dev, item) {
      assert ReadItem(site, hub, dev, item);
    }
  }

  lemma {:induction false} ShrinkPhase(site: Site, hub: Hub, next: Hub, x: string, dev: Index, p: Publisher)
    requires Shrinks(hub, next, x) && Stale(site, dev, x) && PhaseOk(site, hub, dev, p)
    requires TagOf(site, EntryOf(site, p.b)) == p.b.tag
    ensures PhaseOk(site, next, dev, p)
  {
    if p.Public? && Backed(site, hub, EntryOf(site, p.b)) && p.b.tag != x {
      ShrinkBacked(site, hub, next, x, EntryOf(site, p.b));
    }
  }

  // ---------- updating the indexes ----------

  /** The head moves to the pages of a build that the old head admits. */
  ghost predicate Commits(site: Site, builds: set<Build>, hub: Hub, next: Hub, b: Build, prerelease: bool) {
    && hub.head < |hub.commits| && BuildsOk(builds) && b in builds && PagesOk(site, builds, Live(hub))
    && ParentOk(site, hub.commits, b, hub.head, prerelease)
    && next == hub.(commits := hub.commits + [NewPages(site, b, Live(hub), prerelease)], head := |hub.commits|)
  }

  lemma {:induction false} NewIsLive(site: Site, builds: set<Build>, hub: Hub, next: Hub, b: Build, prerelease: bool)
    requires Commits(site, builds, hub, next, b, prerelease)
    ensures next.head < |next.commits| && Live(next) == NewPages(site, b, Live(hub), prerelease)
  {
  }

  /** The newest snapshot does not go backwards. */
  lemma {:induction false} NewAtLeast(site: Site, builds: set<Build>, hub: Hub, b: Build, prerelease: bool, x: string)
    requires hub.head < |hub.commits| && BuildsOk(builds) && b in builds && PagesOk(site, builds, Live(hub))
    requires ParentOk(site, hub.commits, b, hub.head, prerelease)
    requires AtLeast(site, Live(hub).dev, x)
    ensures AtLeast(site, NewDev(site, b, Live(hub)), x)
  {
    var was := Live(hub);
    var p :| Own(site, was.dev, p) && IsSnapshot(site, p) && !Less(TagOf(site, p), x);
    NewLatestIs(site, builds, b, was, p);
    var q := LatestListed(site, b, was);
    LessOrder(x, TagOf(site, p), TagOf(site, q));
  }

  lemma {:induction false} NewStale(site: Site, builds: set<Build>, hub: Hub, b: Build, prerelease: bool, x: string)
    requires hub.head < |hub.commits| && BuildsOk(builds) && b in builds && PagesOk(site, builds, Live(hub))
    requires ParentOk(site, hub.commits, b, hub.head, prerelease)
    requires Stale(site, Live(hub).dev, x)
    ensures Stale(site, NewDev(site, b, Live(hub)), x)
  {
    var was := Live(hub);
    var p :| Own(site, was.dev, p) && IsSnapshot(site, p) && Less(x, TagOf(site, p));
    NewLatestIs(site, builds, b, was, p);
    var q := LatestListed(site, b, was);
    LessOrder(x, TagOf(site, p), TagOf(site, q));
  }

  /** The build that the head admits is not stale. */
  lemma {:induction false} NotStale(site: Site, builds: set<Build>, hub: Hub, b: Build, prerelease: bool)
    requires hub.head < |hub.commits| && BuildsOk(builds) && b in builds && PagesOk(site, builds, Live(hub))
    requires ParentOk(site, hub.commits, b, hub.head, prerelease)
    ensures !Stale(site, Live(hub).dev, b.tag)
  {
    if Stale(site, Live(hub).dev, b.tag) {
      var p :| Own(site, Live(hub).dev, p) && IsSnapshot(site, p) && Less(b.tag, TagOf(site, p));
      NewLatestIs(site, builds, b, Live(hub), p);
    }
  }

  /** The new pages name nothing new but the build's tag. */
  lemma {:induction false} NewNames(site: Site, builds: set<Build>, was: Pages, b: Build, prerelease: bool, x: string)
    requires BuildsOk(builds) && b in builds && Named(site, NewPages(site, b, was, prerelease), x)
    ensures Named(site, was, x) || x == b.tag
  {
    var now := NewPages(site, b, was, prerelease);
    var name, p :| (Lists(now.dev, name, p) || Lists(now.stable, name, p)) && TagOf(site, p) == x;
    EntryTag(site, builds, b);
    if Lists(now.dev, name, p) { NewDevFrom(site, b, was, name, p); }
    if Lists(now.stable, name, p) { NewStableFrom(site, b, was, name, p); }
  }

  lemma {:induction false} SinceNext(site: Site, builds: set<Build>, hub: Hub, b: Build, prerelease: bool, then_: Pages)
    requires hub.head < |hub.commits| && BuildsOk(builds) && b in builds && PagesOk(site, builds, Live(hub))
    requires ParentOk(site, hub.commits, b, hub.head, prerelease)
    requires Since(site, then_, Live(hub))
    ensures Since(site, then_, NewPages(site, b, Live(hub), prerelease))
  {
    var was := Live(hub);
    forall p | Own(site, then_.dev, p) && IsSnapshot(site, p) ensures AtLeast(site, NewDev(site, b, was), TagOf(site, p)) {
      NewAtLeast(site, builds, hub, b, prerelease, TagOf(site, p));
    }
    forall x | Named(site, NewPages(site, b, was, prerelease), x) && DevTag(x)
      ensures Named(site, then_, x) || NotBefore(site, then_.dev, x)
    {
      NewNames(site, builds, was, b, prerelease, x);
      if !Named(site, was, x) {
        forall p | Own(site, then_.dev, p) && IsSnapshot(site, p) ensures !Less(x, TagOf(site, p)) {
          var q :| Own(site, was.dev, q) && IsSnapshot(site, q) && !Less(TagOf(site, q), TagOf(site, p));
          NewLatestIs(site, builds, b, was, q);
          LessOrder(TagOf(site, p), TagOf(site, q), x);
        }
      }
    }
  }

  lemma {:induction false} SinceSelf(site: Site, pages: Pages)
    ensures Since(site, pages, pages)
  {
    forall p | Own(site, pages.dev, p) && IsSnapshot(site, p) ensures AtLeast(site, pages.dev, TagOf(site, p)) {
      LessOrder(TagOf(site, p), "", "");
    }
  }

  lemma {:induction false} CommitHub(site: Site, builds: set<Build>, hub: Hub, next: Hub, b: Build, prerelease: bool)
    requires HubOk(site, builds, hub) && Commits(site, builds, hub, next, b, prerelease)
    requires Backed(site, hub, EntryOf(site, b))
    ensures HubOk(site, builds, next)
  {
    var was, now := Live(hub), NewPages(site, b, Live(hub), prerelease);
    NewIsLive(site, builds, hub, next, b, prerelease);
    NewDevOk(site, builds, b, was);
    NewStableOk(site, builds, b, was);
    SinceSelf(site, now);
    forall c | 0 <= c < |next.commits| ensures Since(site, next.commits[c], now) {
      if c < |hub.commits| { SinceNext(site, builds, hub, b, prerelease, hub.commits[c]); }
    }
    forall p | Own(site, now.dev, p) || Own(site, now.stable, p) ensures Backed(site, next, p) {
      OldOrOwn(site, b, was, prerelease, p);
      assert p != EntryOf(site, b) ==> Backed(site, hub, p);
      SameReleases(site, hub, next, p);
    }
  }

  lemma {:induction false} OldOrOwn(site: Site, b: Build, was: Pages, prerelease: bool, p: Platform)
    requires var now := NewPages(site, b, was, prerelease); Own(site, now.dev, p) || Own(site, now.stable, p)
    ensures p == EntryOf(site, b) || Own(site, was.dev, p) || Own(site, was.stable, p)
  {
    if Own(site, NewDev(site, b, was), p) { NewDevFrom(site, b, was, site.name, p); }
    if Own(site, NewStable(site, b, was), p) { NewStableFrom(site, b, was, site.name, p); }
  }

  lemma {:induction false} SameReleases(site: Site, hub: Hub, next: Hub, p: Platform)
    requires next.releases == hub.releases && next.tags == hub.tags && Backed(site, hub, p)
    ensures Backed(site, next, p)
  {
  }

  lemma {:induction false} CommitPublisher(site: Site, builds: set<Build>, hub: Hub, next: Hub, b: Build, prerelease: bool,
                                           t: string, p: Publisher)
    requires Commits(site, builds, hub, next, b, prerelease) && PublisherOk(site, builds, hub, Live(hub).dev, t, p)
    ensures PublisherOk(site, builds, next, NewDev(site, b, Live(hub)), t, p)
  {
    var was, now := Live(hub).dev, NewDev(site, b, Live(hub));
    forall x | Stale(site, was, x) ensures Stale(site, now, x) { NewStale(site, builds, hub, b, prerelease, x); }
    CommitItems(site, hub, next, was, now, p.list);
    CommitPhase(site, hub, next, was, now, p);
    CommitsPrefix(site, hub.commits, next.commits, p);
  }

  lemma {:induction false} CommitsPrefix(site: Site, commits: seq<Pages>, next: seq<Pages>, p: Publisher)
    requires commits <= next && CommitsOk(site, commits, p)
    ensures CommitsOk(site, next, p)
  {
  }

  lemma {:induction false} CommitItems(site: Site, hub: Hub, next: Hub, was: Index, now: Index, list: seq<Item>)
    requires next.releases == hub.releases && next.nextId == hub.nextId
    requires (forall x :: Stale(site, was, x) ==> Stale(site, now, x)) && ItemsOk(site, hub, was, list)
    ensures ItemsOk(site, next, now, list)
  {
    forall item | item in list ensures ReadItem(site, next, now, item) {
      assert ReadItem(site, hub, was, item);
    }
  }

  lemma {:induction false} CommitPhase(site: Site, hub: Hub, next: Hub, was: Index, now: Index, p: Publisher)
    requires next.releases == hub.releases && next.nextId == hub.nextId && next.tags == hub.tags
    requires (forall x :: Stale(site, was, x) ==> Stale(site, now, x)) && PhaseOk(site, hub, was, p)
    ensures PhaseOk(site, next, now, p)
  {
    if p.Public? && Backed(site, hub, EntryOf(site, p.b)) { SameReleases(site, hub, next, EntryOf(site, p.b)); }
  }

  // ---------- every step keeps the invariant ----------

  function After(s: State, hub: Hub, t: string, p: Option<Publisher>): State {
    match p
    case Some(publisher) => With(s, hub, t, publisher)
    case None => Leave(s, hub, t)
  }

  ghost predicate OneOk(site: Site, builds: set<Build>, hub: Hub, t: string, p: Option<Publisher>)
    requires hub.head < |hub.commits|
  {
    p.Some? ==> PublisherOk(site, builds, hub, Live(hub).dev, t, p.value)
  }

  lemma {:induction false} GrowKeeps(site: Site, builds: set<Build>, s: State, next: Hub, t: string, p: Option<Publisher>)
    requires Inv(site, builds, s) && Grows(s.hub, next) && OneOk(site, builds, next, t, p)
    ensures Inv(site, builds, After(s, next, t, p))
  {
    GrowHub(site, builds, s.hub, next);
    var s' := After(s, next, t, p);
    forall u | u in s'.publishers ensures PublisherOk(site, builds, next, Live(next).dev, u, s'.publishers[u]) {
      if u != t { GrowPublisher(site, builds, s.hub, next, Live(next).dev, u, s.publishers[u]); }
    }
  }

  lemma {:induction false} SameGrows(site: Site, builds: set<Build>, hub: Hub)
    requires HubOk(site, builds, hub)
    ensures Grows(hub, hub)
  {
  }

  lemma {:induction false} ShrinkKeeps(site: Site, builds: set<Build>, s: State, next: Hub, x: string)
    requires Inv(site, builds, s)
    requires !Named(site, Live(s.hub), x) && Stale(site, Live(s.hub).dev, x) && Shrinks(s.hub, next, x)
    ensures Inv(site, builds, State(next, s.publishers))
  {
    ShrinkHub(site, builds, s.hub, next, x);
    forall u | u in s.publishers ensures PublisherOk(site, builds, next, Live(next).dev, u, s.publishers[u]) {
      ShrinkPublisher(site, builds, s.hub, next, x, Live(next).dev, u, s.publishers[u]);
    }
  }

  lemma {:induction false} CommitKeeps(site: Site, builds: set<Build>, s: State, next: Hub, t: string, p: Publisher, q: Option<Publisher>)
    requires Inv(site, builds, s) && t in s.publishers && p == s.publishers[t] && p.Public?
    requires Commits(site, builds, s.hub, next, p.b, p.prerelease)
    requires q.Some? ==> q == Some(Pruning(p.b, p.list, p.parent, next.head)) && p.parent == s.hub.head && p.b.channel == Development
    ensures Inv(site, builds, After(s, next, t, q))
  {
    var b, pre, dev := p.b, p.prerelease, NewDev(site, p.b, Live(s.hub));
    NotStale(site, builds, s.hub, b, pre);
    CommitHub(site, builds, s.hub, next, b, pre);
    NewIsLive(site, builds, s.hub, next, b, pre);
    var s' := After(s, next, t, q);
    forall u | u in s'.publishers ensures PublisherOk(site, builds, next, Live(next).dev, u, s'.publishers[u]) {
      CommitPublisher(site, builds, s.hub, next, b, pre, u, s.publishers[u]);
      if u == t { NewDevOwn(site, builds, b, Live(s.hub)); }
    }
  }

  lemma {:induction false} StartKeeps(site: Site, builds: set<Build>, s: State, t: string, b: Build, id: Option<nat>)
    requires Inv(site, builds, s) && Start(builds, s, t, b, id).Some?
    ensures Inv(site, builds, Start(builds, s, t, b, id).value)
  {
    SameGrows(site, builds, s.hub);
    var p := Start(builds, s, t, b, id).value.publishers[t];
    GrowKeeps(site, builds, s, s.hub, t, Some(p));
  }

  lemma {:induction false} ListKeeps(site: Site, builds: set<Build>, s: State, t: string, ids: seq<nat>)
    requires Inv(site, builds, s) && t in s.publishers && ListMore(s, t, s.publishers[t], ids).Some?
    ensures Inv(site, builds, ListMore(s, t, s.publishers[t], ids).value)
  {
    SameGrows(site, builds, s.hub);
    var p, q := s.publishers[t], ListMore(s, t, s.publishers[t], ids).value.publishers[t];
    assert PublisherOk(site, builds, s.hub, Live(s.hub).dev, t, p);
    forall item | item in q.list ensures ReadItem(site, s.hub, Live(s.hub).dev, item) {
      if item !in p.list {
        assert item.id in s.hub.releases && item.release == s.hub.releases[item.id];
      }
    }
    GrowKeeps(site, builds, s, s.hub, t, Some(q));
  }

  /** A snapshot that sees no newer one is the newest of its merged index. */
  lemma {:induction false} NewestSeen(site: Site, builds: set<Build>, b: Build, list: seq<Item>, was: Pages)
    requires BuildsOk(builds) && b in builds && b.channel == Development && !NewerSeen(site, b, list, was)
    ensures NewLatest(site, b, was) == Some(b.tag)
  {
    var e := EntryOf(site, b);
    EntryTag(site, builds, b);
    MergedFrom(site, b, was, site.name, e);
    MergedUnique(site, b, was);
    LatestOfAll(site, MergedDev(site, b, was), e);
    LessOrder(b.tag, NewLatest(site, b, was).value, "");
  }

  lemma {:induction false} DecideKeeps(site: Site, builds: set<Build>, s: State, t: string)
    requires Inv(site, builds, s) && t in s.publishers && s.publishers[t].Looking?
    ensures Inv(site, builds, Decide(site, s, t, s.publishers[t]))
  {
    SameGrows(site, builds, s.hub);
    var p, dev := s.publishers[t], Live(s.hub).dev;
    var s' := Decide(site, s, t, p);
    assert PublisherOk(site, builds, s.hub, dev, t, p);
    if t in s'.publishers {
      if p.b.channel == Development { NewestSeen(site, builds, p.b, p.list, Live(s.hub)); }
      assert FoundOk(site, s.hub, dev, Target(p), p.b.tag);
      GrowKeeps(site, builds, s, s.hub, t, Some(s'.publishers[t]));
    } else {
      GrowKeeps(site, builds, s, s.hub, t, None);
    }
  }

  lemma {:induction false} TakeKeeps(site: Site, builds: set<Build>, s: State, t: string)
    requires Inv(site, builds, s) && t in s.publishers && s.publishers[t].Ready?
    ensures Inv(site, builds, Take(s, t, s.publishers[t]))
  {
    SameGrows(site, builds, s.hub);
    var p, s' := s.publishers[t], Take(s, t, s.publishers[t]);
    assert PublisherOk(site, builds, s.hub, Live(s.hub).dev, t, p);
    GrowItems(site, s.hub, s'.hub, Live(s.hub).dev, p.list);
    GrowKeeps(site, builds, s, s'.hub, t, Some(s'.publishers[t]));
  }

  lemma {:induction false} CheckKeeps(site: Site, builds: set<Build>, s: State, t: string)
    requires Inv(site, builds, s) && t in s.publishers && s.publishers[t].Preparing?
    ensures Inv(site, builds, Check(s, t, s.publishers[t]))
  {
    SameGrows(site, builds, s.hub);
    var p, s' := s.publishers[t], Check(s, t, s.publishers[t]);
    assert PublisherOk(site, builds, s.hub, Live(s.hub).dev, t, p);
    if s' != s {
      GrowKeeps(site, builds, s, s.hub, t, if t in s'.publishers then Some(s'.publishers[t]) else None);
    }
  }

  lemma {:induction false} ArchiveGrows(site: Site, builds: set<Build>, hub: Hub, id: nat, archive: Asset)
    requires HubOk(site, builds, hub) && id in hub.releases && !hub.releases[id].archive.Uploaded?
    ensures Grows(hub, SetArchive(hub, id, archive))
  {
  }

  /** Replacing an unfinished archive, and what the publisher goes on as. */
  lemma {:induction false} ArchiveKeeps(site: Site, builds: set<Build>, s: State, t: string, archive: Asset, q: Option<Publisher>)
    requires Inv(site, builds, s) && t in s.publishers && s.publishers[t].Preparing?
    requires var id := s.publishers[t].id; id in s.hub.releases && !s.hub.releases[id].archive.Uploaded?
    requires var p := s.publishers[t];
      q == None || q == Some(p)
      || (archive == Uploaded(p.b.checksum) && q == Some(Complete(p.b, p.list, p.parent, p.prerelease, p.id, p.draft)))
    ensures Inv(site, builds, After(s, SetArchive(s.hub, s.publishers[t].id, archive), t, q))
  {
    var p := s.publishers[t];
    var next := SetArchive(s.hub, p.id, archive);
    ArchiveGrows(site, builds, s.hub, p.id, archive);
    ArchiveOne(site, builds, s, t, archive, q);
    GrowKeeps(site, builds, s, next, t, q);
  }

  lemma {:induction false} ArchiveOne(site: Site, builds: set<Build>, s: State, t: string, archive: Asset, q: Option<Publisher>)
    requires Inv(site, builds, s) && t in s.publishers && s.publishers[t].Preparing?
    requires var id := s.publishers[t].id; id in s.hub.releases && !s.hub.releases[id].archive.Uploaded?
    requires var p := s.publishers[t];
      q == None || q == Some(p)
      || (archive == Uploaded(p.b.checksum) && q == Some(Complete(p.b, p.list, p.parent, p.prerelease, p.id, p.draft)))
    ensures OneOk(site, builds, SetArchive(s.hub, s.publishers[t].id, archive), t, q)
  {
    var p := s.publishers[t];
    var next, dev := SetArchive(s.hub, p.id, archive), Live(s.hub).dev;
    assert PublisherOk(site, builds, s.hub, dev, t, p);
    ArchiveGrows(site, builds, s.hub, p.id, archive);
    GrowPublisher(site, builds, s.hub, next, dev, t, p);
  }

  lemma {:induction false} PublicGrows(site: Site, builds: set<Build>, s: State, t: string)
    requires Inv(site, builds, s) && t in s.publishers && s.publishers[t].Complete?
    ensures Grows(s.hub, MakePublic(s, t, s.publishers[t]).hub)
  {
    assert PublisherOk(site, builds, s.hub, Live(s.hub).dev, t, s.publishers[t]);
  }

  lemma {:induction false} PublicKeeps(site: Site, builds: set<Build>, s: State, t: string)
    requires Inv(site, builds, s) && t in s.publishers && s.publishers[t].Complete?
    ensures Inv(site, builds, MakePublic(s, t, s.publishers[t]))
  {
    SameGrows(site, builds, s.hub);
    var p, s', dev := s.publishers[t], MakePublic(s, t, s.publishers[t]), Live(s.hub).dev;
    assert PublisherOk(site, builds, s.hub, dev, t, p);
    if t in s'.publishers {
      PublicGrows(site, builds, s, t);
      GrowItems(site, s.hub, s'.hub, dev, p.list);
      PublicBacked(site, builds, s, t);
      GrowKeeps(site, builds, s, s'.hub, t, Some(s'.publishers[t]));
    } else {
      GrowKeeps(site, builds, s, s.hub, t, None);
    }
  }

  /** What has been made public backs the entry of the build, unless its tag may be pruned. */
  lemma {:induction false} PublicBacked(site: Site, builds: set<Build>, s: State, t: string)
    requires Inv(site, builds, s) && t in s.publishers && s.publishers[t].Complete?
    requires t in MakePublic(s, t, s.publishers[t]).publishers
    ensures !Stale(site, Live(s.hub).dev, t) ==>
      Backed(site, MakePublic(s, t, s.publishers[t]).hub, EntryOf(site, s.publishers[t].b))
  {
    var p, s', dev := s.publishers[t], MakePublic(s, t, s.publishers[t]), Live(s.hub).dev;
    assert PublisherOk(site, builds, s.hub, dev, t, p);
    EntryTag(site, builds, p.b);
    if !Stale(site, dev, t) {
      assert s'.hub.releases[p.id].archive == Uploaded(p.b.checksum) && !s'.hub.releases[p.id].draft;
    }
  }

  lemma {:induction false} UpdateKeeps(site: Site, builds: set<Build>, s: State, t: string)
    requires Inv(site, builds, s) && t in s.publishers && s.publishers[t].Public? && s.publishers[t].parent < |s.hub.commits|
    ensures Inv(site, builds, UpdateIndexes(site, s, t, s.publishers[t]))
  {
    SameGrows(site, builds, s.hub);
    var p, s', dev := s.publishers[t], UpdateIndexes(site, s, t, s.publishers[t]), Live(s.hub).dev;
    assert PublisherOk(site, builds, s.hub, dev, t, p);
    var q := if t in s'.publishers then Some(s'.publishers[t]) else None;
    if s'.hub != s.hub {
      CommitKeeps(site, builds, s, s'.hub, t, p, q);
    } else {
      if q.Some? { UnchangedBase(site, builds, s, t, p); }
      GrowKeeps(site, builds, s, s.hub, t, q);
    }
  }

  /** When the indexes do not change, they are those of the parent and list the build. */
  lemma {:induction false} UnchangedBase(site: Site, builds: set<Build>, s: State, t: string, p: Publisher)
    requires BuildsOk(builds) && p.Public? && p.b in builds && ParentOk(site, s.hub.commits, p.b, p.parent, p.prerelease)
    requires p.b.channel == Development
    requires NewPages(site, p.b, s.hub.commits[p.parent], p.prerelease) == s.hub.commits[p.parent]
    ensures BaseOk(site, s.hub.commits, p.b, p.parent, p.parent)
  {
    NewDevOwn(site, builds, p.b, s.hub.commits[p.parent]);
  }
}
