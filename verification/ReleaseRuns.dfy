/** What holds along every run of any publishers: safety of what is live and the history of
    the indexes. */
module ReleaseRuns {
  import opened Versions
  import opened MergePackages
  import opened Release
  import opened ReleaseProtocol
  import opened ReleaseSafety
  import opened Wrappers

  /** Every step keeps the invariant. */
  lemma {:induction false} StepKeeps(site: Site, builds: set<Build>, s: State, t: string, a: Action)
    requires Inv(site, builds, s) && Perform(site, builds, s, t, a).Some?
    ensures Inv(site, builds, Perform(site, builds, s, t, a).value)
  {
    match a
    case Begin(b, id) => StartKeeps(site, builds, s, t, b, id);
    case ListPage(ids) => ListKeeps(site, builds, s, t, ids);
    case ReadHead => DecideKeeps(site, builds, s, t);
    case Create => TakeKeeps(site, builds, s, t);
    case CheckAsset => CheckKeeps(site, builds, s, t);
    case DeleteStarter => ArchiveKeeps(site, builds, s, t, NoAsset, Some(s.publishers[t]));
    case Upload(succeeds) => UploadKeeps(site, builds, s, t);
    case Undraft => PublicKeeps(site, builds, s, t);
    case Update => UpdateKeeps(site, builds, s, t);
    case DeleteRelease(k) => DeleteReleaseKeeps(site, builds, s, t, k);
    case DeleteTag(x) => DeleteTagKeeps(site, builds, s, t, x);
    case Stop =>
      SameGrows(site, builds, s.hub);
      GrowKeeps(site, builds, s, s.hub, t, None);
  }

  lemma {:induction false} UploadKeeps(site: Site, builds: set<Build>, s: State, t: string)
    requires Inv(site, builds, s) && t in s.publishers && s.publishers[t].Preparing?
    requires var id := s.publishers[t].id; id in s.hub.releases && !s.hub.releases[id].archive.Uploaded?
    ensures Inv(site, builds, UploadWhole(s, t, s.publishers[t]))
    ensures Inv(site, builds, Leave(s, SetArchive(s.hub, s.publishers[t].id, Starter), t))
  {
    var p := s.publishers[t];
    ArchiveKeeps(site, builds, s, t, Uploaded(p.b.checksum), Some(Complete(p.b, p.list, p.parent, p.prerelease, p.id, p.draft)));
    ArchiveKeeps(site, builds, s, t, Starter, None);
  }

  /** The publisher of tag t may prune tag x. */
  ghost predicate MayPrune(site: Site, s: State, t: string, x: string) {
    && t in s.publishers && s.publishers[t].Pruning? && s.publishers[t].parent < |s.hub.commits|
    && Obsolete(site, s.publishers[t], s.hub.commits[s.publishers[t].parent], x)
  }

  lemma {:induction false} PruneStep(site: Site, builds: set<Build>, s: State, t: string, x: string)
    requires Inv(site, builds, s) && MayPrune(site, s, t, x)
    ensures !Named(site, Live(s.hub), x) && Stale(site, Live(s.hub).dev, x)
  {
    assert PublisherOk(site, builds, s.hub, Live(s.hub).dev, t, s.publishers[t]);
    PruneSafe(site, builds, s.hub, s.publishers[t], x);
  }

  lemma {:induction false} DropShrinks(site: Site, builds: set<Build>, hub: Hub, x: string)
    requires HubOk(site, builds, hub)
    ensures Shrinks(hub, DropTag(hub, x), x)
  {
  }

  lemma {:induction false} DeleteShrinks(site: Site, builds: set<Build>, s: State, t: string, k: nat)
    requires Inv(site, builds, s) && t in s.publishers && k < |s.publishers[t].list|
    ensures var item := s.publishers[t].list[k];
      Shrinks(s.hub, s.hub.(releases := s.hub.releases - {item.id}), item.release.tag)
  {
    var item := s.publishers[t].list[k];
    assert PublisherOk(site, builds, s.hub, Live(s.hub).dev, t, s.publishers[t]);
    assert item in s.publishers[t].list;
    ItemShrinks(site, builds, s.hub, Live(s.hub).dev, item);
  }

  lemma {:induction false} ItemShrinks(site: Site, builds: set<Build>, hub: Hub, dev: Index, item: Item)
    requires HubOk(site, builds, hub) && ReadItem(site, hub, dev, item)
    ensures Shrinks(hub, hub.(releases := hub.releases - {item.id}), item.release.tag)
  {
  }

  lemma {:induction false} DeleteReleaseKeeps(site: Site, builds: set<Build>, s: State, t: string, k: nat)
    requires Inv(site, builds, s) && t in s.publishers && k < |s.publishers[t].list|
    requires MayPrune(site, s, t, s.publishers[t].list[k].release.tag)
    ensures var p := s.publishers[t];
      Inv(site, builds, State(s.hub.(releases := s.hub.releases - {p.list[k].id}), s.publishers))
  {
    var item := s.publishers[t].list[k];
    PruneStep(site, builds, s, t, item.release.tag);
    DeleteShrinks(site, builds, s, t, k);
    ShrinkKeeps(site, builds, s, s.hub.(releases := s.hub.releases - {item.id}), item.release.tag);
  }

  lemma {:induction false} DeleteTagKeeps(site: Site, builds: set<Build>, s: State, t: string, x: string)
    requires Inv(site, builds, s) && MayPrune(site, s, t, x)
    ensures Inv(site, builds, State(DropTag(s.hub, x), s.publishers))
  {
    PruneStep(site, builds, s, t, x);
    DropShrinks(site, builds, s.hub, x);
    ShrinkKeeps(site, builds, s, DropTag(s.hub, x), x);
  }

  // ---------- what a step changes ----------

  /** How a step changes the repository. */
  datatype Change = Grow | Shrink(tag: string) | Commit(b: Build, prerelease: bool)

  ghost predicate Changes(site: Site, builds: set<Build>, hub: Hub, next: Hub, c: Change) {
    && hub.head < |hub.commits|
    && match c
       case Grow => Grows(hub, next)
       case Shrink(x) => Shrinks(hub, next, x) && !Named(site, Live(hub), x)
       case Commit(b, prerelease) => Commits(site, builds, hub, next, b, prerelease)
  }

  lemma {:induction false} StepChange(site: Site, builds: set<Build>, s: State, t: string, a: Action) returns (c: Change)
    requires Inv(site, builds, s) && Perform(site, builds, s, t, a).Some?
    ensures Changes(site, builds, s.hub, Perform(site, builds, s, t, a).value.hub, c)
  {
    match a
    case Update => c := UpdateChange(site, builds, s, t);
    case DeleteRelease(k) =>
      c := Shrink(s.publishers[t].list[k].release.tag);
      PruneStep(site, builds, s, t, c.tag);
      DeleteShrinks(site, builds, s, t, k);
    case DeleteTag(x) =>
      c := Shrink(x);
      PruneStep(site, builds, s, t, x);
      DropShrinks(site, builds, s.hub, x);
    case _ =>
      c := Grow;
      StepGrows(site, builds, s, t, a);
  }

  /** All but pruning and updating the indexes only adds to the repository. */
  lemma {:induction false} StepGrows(site: Site, builds: set<Build>, s: State, t: string, a: Action)
    requires Inv(site, builds, s) && Perform(site, builds, s, t, a).Some?
    requires !a.Update? && !a.DeleteRelease? && !a.DeleteTag?
    ensures Grows(s.hub, Perform(site, builds, s, t, a).value.hub)
  {
    match a
    case Create => TakeGrows(site, builds, s, t);
    case DeleteStarter => ArchiveGrows(site, builds, s.hub, s.publishers[t].id, NoAsset);
    case Upload(succeeds) =>
      ArchiveGrows(site, builds, s.hub, s.publishers[t].id, if succeeds then Uploaded(s.publishers[t].b.checksum) else Starter);
    case Undraft => PublicGrows(site, builds, s, t);
    case _ =>
      SameHub(site, builds, s, t, a);
      SameGrows(site, builds, s.hub);
  }

  lemma {:induction false} SameHub(site: Site, builds: set<Build>, s: State, t: string, a: Action)
    requires s.hub.head < |s.hub.commits| && Perform(site, builds, s, t, a).Some?
    requires a.Begin? || a.ListPage? || a.ReadHead? || a.CheckAsset? || a.Stop?
    ensures Perform(site, builds, s, t, a).value.hub == s.hub
  {
  }

  lemma {:induction false} TakeGrows(site: Site, builds: set<Build>, s: State, t: string)
    requires Inv(site, builds, s) && t in s.publishers && s.publishers[t].Ready?
    ensures Grows(s.hub, Take(s, t, s.publishers[t]).hub)
  {
  }

  lemma {:induction false} UpdateChange(site: Site, builds: set<Build>, s: State, t: string) returns (c: Change)
    requires Inv(site, builds, s) && t in s.publishers && s.publishers[t].Public? && s.publishers[t].parent < |s.hub.commits|
    ensures Changes(site, builds, s.hub, UpdateIndexes(site, s, t, s.publishers[t]).hub, c)
  {
    SameGrows(site, builds, s.hub);
    var p := s.publishers[t];
    assert PublisherOk(site, builds, s.hub, Live(s.hub).dev, t, p);
    c := if UpdateIndexes(site, s, t, p).hub == s.hub then Grow else Commit(p.b, p.prerelease);
  }

  // ---------- runs ----------

  datatype Move = Move(tag: string, action: Action)

  /** The state that a run leads to; none when one of its moves cannot be made. */
  ghost function RunFrom(site: Site, builds: set<Build>, s: State, moves: seq<Move>): Option<State>
    requires Inv(site, builds, s)
    decreases |moves|
  {
    if moves == [] then Some(s)
    else
      match Perform(site, builds, s, moves[0].tag, moves[0].action)
      case None => None
      case Some(next) =>
        StepKeeps(site, builds, s, moves[0].tag, moves[0].action);
        RunFrom(site, builds, next, moves[1..])
  }

  /** A repository without releases or indexes, and no publisher at work. */
  function Empty(): State {
    State(Hub(map[], 0, {}, [Pages([], [])], 0), map[])
  }

  lemma {:induction false} EmptyOk(site: Site, builds: set<Build>)
    requires BuildsOk(builds)
    ensures Inv(site, builds, Empty())
  {
    SinceSelf(site, Pages([], []));
  }

  /** The invariant holds after every run. */
  lemma {:induction false} RunKeeps(site: Site, builds: set<Build>, s: State, moves: seq<Move>)
    requires Inv(site, builds, s) && RunFrom(site, builds, s, moves).Some?
    ensures Inv(site, builds, RunFrom(site, builds, s, moves).value)
    decreases |moves|
  {
    if moves != [] {
      StepKeeps(site, builds, s, moves[0].tag, moves[0].action);
      RunKeeps(site, builds, Perform(site, builds, s, moves[0].tag, moves[0].action).value, moves[1..]);
    }
  }

  /** After every run from an empty repository, every entry for this package and architecture
      in a live index names a published release that holds the archive advertised. */
  lemma {:induction false} LiveEntriesBacked(site: Site, builds: set<Build>, moves: seq<Move>, p: Platform)
    requires BuildsOk(builds)
    ensures Inv(site, builds, Empty())
    ensures RunFrom(site, builds, Empty(), moves).Some? ==>
      var hub := RunFrom(site, builds, Empty(), moves).value.hub;
      hub.head < |hub.commits| && (Own(site, Live(hub).dev, p) || Own(site, Live(hub).stable, p) ==> Backed(site, hub, p))
  {
    EmptyOk(site, builds);
    if RunFrom(site, builds, Empty(), moves).Some? { RunKeeps(site, builds, Empty(), moves); }
  }

  /** No step takes away a release or tag that a live index names, for any package, or
      unpublishes it, or changes its archive. */
  lemma {:induction false} NamedStays(site: Site, builds: set<Build>, s: State, t: string, a: Action, x: string)
    requires Inv(site, builds, s) && Perform(site, builds, s, t, a).Some? && Named(site, Live(s.hub), x)
    ensures TagStays(s.hub, Perform(site, builds, s, t, a).value.hub, x)
  {
    var c := StepChange(site, builds, s, t, a);
  }

  /** The tag and its releases are still there, as public and as complete as before. */
  ghost predicate TagStays(hub: Hub, next: Hub, x: string) {
    && (x in hub.tags ==> x in next.tags)
    && forall id :: id in hub.releases && hub.releases[id].tag == x ==>
         && id in next.releases && next.releases[id].tag == x
         && (!hub.releases[id].draft ==> !next.releases[id].draft)
         && (hub.releases[id].archive.Uploaded? ==> next.releases[id].archive == hub.releases[id].archive)
  }

  /** Commits are only added. */
  lemma {:induction false} StepCommits(site: Site, builds: set<Build>, s: State, t: string, a: Action)
    requires Inv(site, builds, s) && Perform(site, builds, s, t, a).Some?
    ensures s.hub.commits <= Perform(site, builds, s, t, a).value.hub.commits
  {
    var c := StepChange(site, builds, s, t, a);
  }

  lemma {:induction false} RunCommits(site: Site, builds: set<Build>, s: State, moves: seq<Move>)
    requires Inv(site, builds, s) && RunFrom(site, builds, s, moves).Some?
    ensures s.hub.commits <= RunFrom(site, builds, s, moves).value.hub.commits
    decreases |moves|
  {
    if moves != [] {
      StepKeeps(site, builds, s, moves[0].tag, moves[0].action);
      StepCommits(site, builds, s, moves[0].tag, moves[0].action);
      RunCommits(site, builds, Perform(site, builds, s, moves[0].tag, moves[0].action).value, moves[1..]);
    }
  }

  /** Along every run the newest live snapshot never goes backwards. */
  lemma {:induction false} NeverBackwards(site: Site, builds: set<Build>, s: State, moves: seq<Move>, x: string)
    requires Inv(site, builds, s) && RunFrom(site, builds, s, moves).Some?
    requires AtLeast(site, Live(s.hub).dev, x)
    ensures var end := RunFrom(site, builds, s, moves).value.hub;
      end.head < |end.commits| && AtLeast(site, Live(end).dev, x)
  {
    RunKeeps(site, builds, s, moves);
    RunCommits(site, builds, s, moves);
    var end := RunFrom(site, builds, s, moves).value.hub;
    assert end.commits[s.hub.head] == Live(s.hub);
    assert Since(site, Live(s.hub), Live(end));
    var p :| Own(site, Live(s.hub).dev, p) && IsSnapshot(site, p) && !Less(TagOf(site, p), x);
    var q :| Own(site, Live(end).dev, q) && IsSnapshot(site, q) && !Less(TagOf(site, q), TagOf(site, p));
    LessOrder(x, TagOf(site, p), TagOf(site, q));
  }

  // ---------- no lost updates ----------

  /** The version is still advertised with its checksum, or it is a snapshot of this package
      and architecture with a newer one in the index. */
  ghost predicate Kept(site: Site, index: Index, name: string, p: Platform) {
    || Advertised(index, name, p)
    || (name == site.name && IsSnapshot(site, p) && Newer(site, index, TagOf(site, p)))
  }

  /** p is for another package or architecture, or an entry of a build. */
  ghost predicate Known(site: Site, builds: set<Build>, name: string, p: Platform) {
    name == site.name && p.architecture == site.architecture ==> exists b :: b in builds && p == EntryOf(site, b)
  }

  lemma {:induction false} UpdateKept(site: Site, builds: set<Build>, hub: Hub, b: Build, prerelease: bool, name: string, p: Platform)
    requires BuildsOk(builds) && hub.head < |hub.commits| && b in builds && PagesOk(site, builds, Live(hub))
    requires ParentOk(site, hub.commits, b, hub.head, prerelease)
    requires Known(site, builds, name, p) && Kept(site, Live(hub).dev, name, p)
    ensures Kept(site, NewDev(site, b, Live(hub)), name, p)
  {
    var was, now := Live(hub), NewDev(site, b, Live(hub));
    if Advertised(was.dev, name, p) {
      var q :| Lists(was.dev, name, q) && PlatformId(q) == PlatformId(p) && q.checksum == p.checksum;
      NewDevKeeps(site, builds, b, was, name, q);
      if Advertised(now, name, q) {
        AdvertisedSame(now, name, p, q);
      } else {
        assert Own(site, was.dev, q);
        SameTag(site, builds, p, q);
        var r := LatestListed(site, b, was);
      }
    } else {
      var r :| Own(site, was.dev, r) && IsSnapshot(site, r) && Less(TagOf(site, p), TagOf(site, r));
      NewLatestIs(site, builds, b, was, r);
      var q := LatestListed(site, b, was);
      LessOrder(TagOf(site, p), TagOf(site, r), TagOf(site, q));
    }
  }

  lemma {:induction false} AdvertisedSame(index: Index, name: string, p: Platform, q: Platform)
    requires Advertised(index, name, q) && PlatformId(q) == PlatformId(p) && q.checksum == p.checksum
    ensures Advertised(index, name, p)
  {
    var r :| Lists(index, name, r) && PlatformId(r) == PlatformId(q) && r.checksum == q.checksum;
    assert PlatformId(r) == PlatformId(p);
  }

  lemma {:induction false} UpdateKeptStable(site: Site, builds: set<Build>, hub: Hub, b: Build, prerelease: bool, name: string, p: Platform)
    requires BuildsOk(builds) && hub.head < |hub.commits| && b in builds && PagesOk(site, builds, Live(hub))
    requires ParentOk(site, hub.commits, b, hub.head, prerelease)
    requires Advertised(Live(hub).stable, name, p)
    ensures Advertised(NewPages(site, b, Live(hub), prerelease).stable, name, p)
  {
    if !prerelease {
      var q :| Lists(Live(hub).stable, name, q) && PlatformId(q) == PlatformId(p) && q.checksum == p.checksum;
      NewStableKeeps(site, builds, b, Live(hub), name, q);
      AdvertisedSame(NewStable(site, b, Live(hub)), name, p, q);
    }
  }

  lemma {:induction false} StepKept(site: Site, builds: set<Build>, s: State, t: string, a: Action, name: string, p: Platform)
    requires Inv(site, builds, s) && Perform(site, builds, s, t, a).Some? && Known(site, builds, name, p)
    ensures var next := Perform(site, builds, s, t, a).value.hub;
      && next.head < |next.commits|
      && (Kept(site, Live(s.hub).dev, name, p) ==> Kept(site, Live(next).dev, name, p))
      && (Advertised(Live(s.hub).stable, name, p) ==> Advertised(Live(next).stable, name, p))
  {
    StepKeeps(site, builds, s, t, a);
    var c := StepChange(site, builds, s, t, a);
    var next := Perform(site, builds, s, t, a).value.hub;
    if c.Commit? {
      NewIsLive(site, builds, s.hub, next, c.b, c.prerelease);
      if Kept(site, Live(s.hub).dev, name, p) { UpdateKept(site, builds, s.hub, c.b, c.prerelease, name, p); }
      if Advertised(Live(s.hub).stable, name, p) { UpdateKeptStable(site, builds, s.hub, c.b, c.prerelease, name, p); }
    }
  }

  /** Along every run, whatever the publishers do, each version once advertised stays, with
      its checksum, unless it is a snapshot that a newer one has superseded. */
  lemma {:induction false} NothingLost(site: Site, builds: set<Build>, s: State, moves: seq<Move>, name: string, p: Platform)
    requires Inv(site, builds, s) && RunFrom(site, builds, s, moves).Some? && Known(site, builds, name, p)
    ensures var end := RunFrom(site, builds, s, moves).value.hub;
      && end.head < |end.commits|
      && (Kept(site, Live(s.hub).dev, name, p) ==> Kept(site, Live(end).dev, name, p))
      && (Advertised(Live(s.hub).stable, name, p) ==> Advertised(Live(end).stable, name, p))
    decreases |moves|
  {
    if moves != [] {
      StepKeeps(site, builds, s, moves[0].tag, moves[0].action);
      StepKept(site, builds, s, moves[0].tag, moves[0].action, name, p);
      NothingLost(site, builds, Perform(site, builds, s, moves[0].tag, moves[0].action).value, moves[1..], name, p);
    }
  }
}
