/** What publishing achieves: an update that moves the head lists the build, and a publisher that
    nobody disturbs has a run that ends with the build released and listed. */
module ReleaseProgress {
  import opened Versions
  import opened MergePackages
  import opened Release
  import opened ReleaseProtocol
  import opened ReleaseSafety
  import opened ReleaseRuns
  import opened Wrappers

  // ---------- the update ----------

  /** The build is listed: in the development index, and in the stable one unless it is a
      prerelease. */
  ghost predicate Listed(site: Site, pages: Pages, b: Build, prerelease: bool) {
    var entry := Platform(site.architecture, b.version, b.checksum, site.prefix + b.tag + "/" + "k210-" + b.version + ".zip");
    Own(site, pages.dev, entry) && (!prerelease ==> Own(site, pages.stable, entry))
  }

  lemma {:induction false} NewPagesList(site: Site, builds: set<Build>, commits: seq<Pages>, b: Build, parent: nat, prerelease: bool)
    requires BuildsOk(builds) && b in builds && ParentOk(site, commits, b, parent, prerelease)
    ensures Listed(site, NewPages(site, b, commits[parent], prerelease), b, prerelease)
    ensures prerelease ==> NewPages(site, b, commits[parent], prerelease).stable == commits[parent].stable
  {
    NewDevOwn(site, builds, b, commits[parent]);
    NewStableFrom(site, b, commits[parent], site.name, EntryOf(site, b));
  }

  /** An update that moves the head lists the build in the live development index, and in the
      live stable index exactly when the build is no prerelease; a build of another channel than
      stable always is one. */
  lemma {:induction false} UpdateLists(site: Site, builds: set<Build>, s: State, t: string)
    requires Inv(site, builds, s) && t in s.publishers && s.publishers[t].Public? && s.publishers[t].parent < |s.hub.commits|
    requires UpdateIndexes(site, s, t, s.publishers[t]).hub.head != s.hub.head
    ensures var p := s.publishers[t];
      var next := UpdateIndexes(site, s, t, p).hub;
      && next.head < |next.commits| && Listed(site, Live(next), p.b, p.prerelease)
      && (p.prerelease ==> Live(next).stable == Live(s.hub).stable)
      && (p.b.channel != Stable ==> p.prerelease)
  {
    var p := s.publishers[t];
    assert PublisherOk(site, builds, s.hub, Live(s.hub).dev, t, p);
    NewPagesList(site, builds, s.hub.commits, p.b, p.parent, p.prerelease);
  }

  // ---------- when publishing can succeed ----------

  /** The release that a publisher works on when it lists all of them in the order of ids: the
      published one of the tag, else the first draft. */
  ghost predicate WorksOn(hub: Hub, ids: seq<nat>, tag: string, target: Option<nat>) {
    match target
    case None => forall id :: id in hub.releases ==> hub.releases[id].tag != tag
    case Some(id) =>
      && id in hub.releases && hub.releases[id].tag == tag
      && (hub.releases[id].draft ==>
            && (forall i :: i in hub.releases && hub.releases[i].tag == tag ==> hub.releases[i].draft)
            && exists k: nat :: FirstOf(hub, ids, tag, k) && ids[k] == id)
  }

  ghost predicate FirstOf(hub: Hub, ids: seq<nat>, tag: string, k: nat) {
    && k < |ids| && (forall j :: 0 <= j <= k ==> ids[j] in hub.releases)
    && hub.releases[ids[k]].tag == tag && forall j :: 0 <= j < k ==> hub.releases[ids[j]].tag != tag
  }

  ghost predicate ListsAll(hub: Hub, ids: seq<nat>) {
    forall id :: id in ids <==> id in hub.releases
  }

  /** No live entry advertises that version, with a leading v or not, with other bytes. */
  ghost predicate NoConflict(site: Site, pages: Pages, b: Build) {
    forall p :: (Own(site, pages.dev, p) || Own(site, pages.stable, p)) && (p.version == b.version || p.version == "v" + b.version)
      ==> p.checksum == b.checksum
  }

  /** No live entry and no published prerelease is a later snapshot. */
  ghost predicate NoneNewer(site: Site, hub: Hub, pages: Pages, b: Build) {
    && (forall p :: (Own(site, pages.dev, p) || Own(site, pages.stable, p)) && DevTag(TagOf(site, p)) ==> !TextBelow(b.tag, TagOf(site, p)))
    && (forall id :: id in hub.releases && !hub.releases[id].draft && hub.releases[id].prerelease && DevTag(hub.releases[id].tag) ==>
          !TextBelow(b.tag, hub.releases[id].tag))
  }

  /** The release worked on has no other archive, and is not a full release for a build that is
      a prerelease. */
  ghost predicate Fitting(hub: Hub, b: Build, target: Option<nat>) {
    target.Some? && target.value in hub.releases ==>
      var r := hub.releases[target.value];
      && (r.archive.Uploaded? ==> r.archive.checksum == b.checksum)
      && (!r.draft && !r.prerelease ==> b.channel == Stable)
  }

  ghost predicate CanPublish(site: Site, hub: Hub, b: Build, ids: seq<nat>, target: Option<nat>) {
    && hub.head < |hub.commits| && ListsAll(hub, ids) && WorksOn(hub, ids, b.tag, target) && Fitting(hub, b, target)
    && NoConflict(site, Live(hub), b) && (b.channel == Development ==> NoneNewer(site, hub, Live(hub), b))
  }

  /** Whether the build is published as a prerelease: by its channel, or because its release
      was marked so. */
  ghost predicate AsPrerelease(hub: Hub, b: Build, target: Option<nat>) {
    b.channel != Stable || (target.Some? && target.value in hub.releases && hub.releases[target.value].prerelease)
  }

  /** The release is public, with its tag, its archive and its classification. */
  ghost predicate Released(hub: Hub, b: Build, prerelease: bool) {
    b.tag in hub.tags
    && exists id :: id in hub.releases
         && hub.releases[id] == Published(b.tag, false, prerelease, Uploaded(b.checksum))
  }

  lemma {:induction false} NoConflictIs(site: Site, pages: Pages, b: Build)
    requires NoConflict(site, pages, b)
    ensures !Conflicts(site, b, pages.dev) && !Conflicts(site, b, pages.stable)
  {
    forall p: Platform | RemovePrefix(p.version) == b.version ensures p.version == b.version || p.version == "v" + b.version {
      if p.version != [] && p.version[0] == 'v' { assert p.version == "v" + p.version[1..]; }
    }
  }

  function ItemsOf(hub: Hub, ids: seq<nat>): (items: seq<Item>)
    requires forall i :: 0 <= i < |ids| ==> ids[i] in hub.releases
    ensures |items| == |ids| && forall i :: 0 <= i < |ids| ==> items[i] == Item(ids[i], hub.releases[ids[i]])
  {
    seq(|ids|, i requires 0 <= i < |ids| => Item(ids[i], hub.releases[ids[i]]))
  }

  /** The newest snapshot of the merged index is the build's own or one that was listed. */
  lemma {:induction false} NotSkipped(site: Site, builds: set<Build>, hub: Hub, b: Build, list: seq<Item>)
    requires BuildsOk(builds) && b in builds && hub.head < |hub.commits| && NoneNewer(site, hub, Live(hub), b)
    requires forall i :: 0 <= i < |list| ==> list[i].id in hub.releases && list[i].release == hub.releases[list[i].id]
    ensures !NewerSeen(site, b, list, Live(hub))
  {
    var was := Live(hub);
    var latest := NewLatest(site, b, was);
    if latest.Some? {
      var p := LatestMerged(site, b, was);
      EntryTag(site, builds, b);
      LessIs(b.tag, TagOf(site, p));
      LessOrder(b.tag, b.tag, b.tag);
      assert p != EntryOf(site, b) ==> Own(site, was.dev, p) || Own(site, was.stable, p);
    }
    forall i | 0 <= i < |list| ensures
      var r := list[i].release;
      !(!r.draft && r.prerelease && DevTag(r.tag) && Less(b.tag, r.tag))
    {
      LessIs(b.tag, list[i].release.tag);
    }
  }

  lemma {:induction false} LatestMerged(site: Site, b: Build, was: Pages) returns (p: Platform)
    requires NewLatest(site, b, was).Some?
    ensures TagOf(site, p) == NewLatest(site, b, was).value && IsSnapshot(site, p)
    ensures p == EntryOf(site, b) || Lists(was.dev, site.name, p) || Lists(was.stable, site.name, p)
  {
    p := LatestListed(site, b, was);
    NewDevFrom(site, b, was, site.name, p);
  }

  // ---------- the steps ----------

  lemma {:induction false} OneMove(site: Site, builds: set<Build>, s: State, moves: seq<Move>, mid: State, move: Move, end: State)
    requires Inv(site, builds, s) && RunFrom(site, builds, s, moves) == Some(mid)
    requires mid.hub.head < |mid.hub.commits| && Perform(site, builds, mid, move.tag, move.action) == Some(end)
    ensures RunFrom(site, builds, s, moves + [move]) == Some(end)
    decreases |moves|
  {
    var all := moves + [move];
    if moves == [] {
      assert all[0] == move && all[1..] == [];
      StepKeeps(site, builds, s, move.tag, move.action);
    } else {
      var first := moves[0];
      var next := Perform(site, builds, s, first.tag, first.action).value;
      StepKeeps(site, builds, s, first.tag, first.action);
      assert all[0] == first && all[1..] == moves[1..] + [move];
      OneMove(site, builds, next, moves[1..], mid, move, end);
    }
  }

  lemma WithTwice(s: State, hub: Hub, t: string, p: Publisher, hub': Hub, q: Publisher)
    ensures With(With(s, hub, t, p), hub', t, q) == With(s, hub', t, q)
  {
  }

  lemma {:induction false} FirstFound(list: seq<Item>, tag: string, k: nat)
    requires k < |list| && list[k].release.tag == tag && forall j :: 0 <= j < k ==> list[j].release.tag != tag
    ensures FindItem(list, tag) == Some(list[k])
  {
    if k > 0 { FirstFound(list[1..], tag, k - 1); }
  }

  lemma {:induction false} NotFound(list: seq<Item>, tag: string)
    requires forall j :: 0 <= j < |list| ==> list[j].release.tag != tag
    ensures FindItem(list, tag) == None
  {
    if list != [] { NotFound(list[1..], tag); }
  }

  /** What the publisher finds out about the release that it is to work on. */
  function ItemOf(hub: Hub, target: Option<nat>): Option<Item> {
    match target
    case None => None
    case Some(id) => if id in hub.releases then Some(Item(id, hub.releases[id])) else None
  }

  function FoundOf(hub: Hub, target: Option<nat>): Option<Item> {
    match ItemOf(hub, target)
    case None => None
    case Some(item) => if item.release.draft then None else Some(item)
  }

  lemma {:induction false} TargetIs(hub: Hub, b: Build, ids: seq<nat>, target: Option<nat>)
    requires ListsAll(hub, ids) && WorksOn(hub, ids, b.tag, target)
    ensures forall i :: 0 <= i < |ids| ==> ids[i] in hub.releases
    ensures FoundOf(hub, target).None? ==> Target(Looking(b, None, ItemsOf(hub, ids))) == ItemOf(hub, target)
    ensures FoundOf(hub, target).Some? ==> FoundOf(hub, target) == ItemOf(hub, target)
  {
    if FoundOf(hub, target).None? {
      var list := ItemsOf(hub, ids);
      if target.None? {
        NotFound(list, b.tag);
      } else {
        var k: nat :| FirstOf(hub, ids, b.tag, k) && ids[k] == target.value;
        FirstFound(list, b.tag, k);
      }
    }
  }

  /** The publisher asks for the release of its tag. */
  lemma {:induction false} Begins(site: Site, builds: set<Build>, s: State, b: Build, ids: seq<nat>, target: Option<nat>)
    returns (move: Move)
    requires s.hub.head < |s.hub.commits| && b in builds && b.tag !in s.publishers
    requires ListsAll(s.hub, ids) && WorksOn(s.hub, ids, b.tag, target)
    ensures Perform(site, builds, s, move.tag, move.action) == Some(With(s, s.hub, b.tag, Looking(b, FoundOf(s.hub, target), [])))
  {
    move := Move(b.tag, Begin(b, if FoundOf(s.hub, target).Some? then target else None));
  }

  /** It lists the releases. */
  lemma {:induction false} ListsReleases(site: Site, builds: set<Build>, s: State, b: Build, ids: seq<nat>, found: Option<Item>)
    requires s.hub.head < |s.hub.commits| && (found.None? || b.channel == Development)
    requires forall i :: 0 <= i < |ids| ==> ids[i] in s.hub.releases
    ensures Perform(site, builds, With(s, s.hub, b.tag, Looking(b, found, [])), b.tag, ListPage(ids))
         == Some(With(s, s.hub, b.tag, Looking(b, found, ItemsOf(s.hub, ids))))
  {
    var list := ItemsOf(s.hub, ids);
    assert [] + list == list;
    assert list == seq(|ids|, i requires 0 <= i < |ids| => Item(ids[i], s.hub.releases[ids[i]]));
    WithTwice(s, s.hub, b.tag, Looking(b, found, []), s.hub, Looking(b, found, list));
  }

  /** It reads the head and goes on. */
  lemma {:induction false} Reads(site: Site, builds: set<Build>, s: State, b: Build, found: Option<Item>, list: seq<Item>,
                                 item: Option<Item>, prerelease: bool)
    requires s.hub.head < |s.hub.commits| && Target(Looking(b, found, list)) == item
    requires !Misclassified(b, item) && !Conflicts(site, b, Live(s.hub).stable) && !Conflicts(site, b, Live(s.hub).dev)
    requires b.channel == Development ==> !NewerSeen(site, b, list, Live(s.hub))
    requires prerelease == IsPrerelease(b, item)
    ensures Perform(site, builds, With(s, s.hub, b.tag, Looking(b, found, list)), b.tag, ReadHead)
         == Some(With(s, s.hub, b.tag, Ready(b, item, list, s.hub.head, prerelease)))
  {
    WithTwice(s, s.hub, b.tag, Looking(b, found, list), s.hub, Ready(b, item, list, s.hub.head, prerelease));
  }

  /** The publisher asks for its release, and lists all releases unless it needs no list. */
  lemma {:induction false} Looks(site: Site, builds: set<Build>, s: State, b: Build, ids: seq<nat>, target: Option<nat>)
    returns (moves: seq<Move>, list: seq<Item>)
    requires Inv(site, builds, s) && b in builds && b.tag !in s.publishers
    requires ListsAll(s.hub, ids) && WorksOn(s.hub, ids, b.tag, target) && forall i :: 0 <= i < |ids| ==> ids[i] in s.hub.releases
    ensures var found := FoundOf(s.hub, target);
      && RunFrom(site, builds, s, moves) == Some(With(s, s.hub, b.tag, Looking(b, found, list)))
      && list == if found.None? || b.channel == Development then ItemsOf(s.hub, ids) else []
  {
    var found := FoundOf(s.hub, target);
    var looking := With(s, s.hub, b.tag, Looking(b, found, []));
    var first := Begins(site, builds, s, b, ids, target);
    OneMove(site, builds, s, [], s, first, looking);
    moves, list := [] + [first], [];
    if found.None? || b.channel == Development {
      list := ItemsOf(s.hub, ids);
      ListsReleases(site, builds, s, b, ids, found);
      OneMove(site, builds, s, moves, looking, Move(b.tag, ListPage(ids)), With(s, s.hub, b.tag, Looking(b, found, list)));
      moves := moves + [Move(b.tag, ListPage(ids))];
    }
  }

  /** From the start until the publisher has decided to go on. */
  lemma {:induction false} GoesOn(site: Site, builds: set<Build>, s: State, b: Build, ids: seq<nat>, target: Option<nat>, pre: bool)
    returns (moves: seq<Move>, list: seq<Item>)
    requires Inv(site, builds, s) && b in builds && b.tag !in s.publishers && CanPublish(site, s.hub, b, ids, target)
    requires pre == AsPrerelease(s.hub, b, target)
    ensures RunFrom(site, builds, s, moves) == Some(With(s, s.hub, b.tag, Ready(b, ItemOf(s.hub, target), list, s.hub.head, pre)))
    ensures b.channel == Development ==> ListsAll(s.hub, ids) && forall i :: 0 <= i < |ids| ==> ids[i] in s.hub.releases
    ensures b.channel == Development ==> list == ItemsOf(s.hub, ids)
  {
    TargetIs(s.hub, b, ids, target);
    moves, list := Looks(site, builds, s, b, ids, target);
    var found, item := FoundOf(s.hub, target), ItemOf(s.hub, target);
    NoConflictIs(site, Live(s.hub), b);
    if b.channel == Development { NotSkipped(site, builds, s.hub, b, list); }
    Reads(site, builds, s, b, found, list, item, pre);
    OneMove(site, builds, s, moves, With(s, s.hub, b.tag, Looking(b, found, list)), Move(b.tag, ReadHead),
            With(s, s.hub, b.tag, Ready(b, item, list, s.hub.head, pre)));
    moves := moves + [Move(b.tag, ReadHead)];
  }

  /** No release has gone away or changed its tag, and a new one has the build's tag. */
  ghost predicate SameTags(hub: Hub, next: Hub, b: Build) {
    && (forall id :: id in hub.releases ==> id in next.releases && next.releases[id].tag == hub.releases[id].tag)
    && (forall id :: id in next.releases ==> id in hub.releases || next.releases[id].tag == b.tag)
  }

  /** The release that the publisher prepares. */
  ghost predicate Prepares(hub: Hub, next: Hub, b: Build, prerelease: bool, id: nat, draft: bool) {
    && next.commits == hub.commits && next.head == hub.head && next.tags == hub.tags && SameTags(hub, next, b)
    && id in next.releases && next.releases[id].tag == b.tag && next.releases[id].draft == draft
    && (!draft ==> next.releases[id].prerelease == prerelease && b.tag in next.tags)
  }

  /** It takes the release that it has found. */
  lemma {:induction false} TakesFound(site: Site, builds: set<Build>, s: State, b: Build, list: seq<Item>, item: Item, pre: bool)
    requires s.hub.head < |s.hub.commits|
    ensures Perform(site, builds, With(s, s.hub, b.tag, Ready(b, Some(item), list, s.hub.head, pre)), b.tag, Create)
         == Some(With(s, s.hub, b.tag, Preparing(b, list, s.hub.head, pre, item.id, item.release.draft)))
  {
    WithTwice(s, s.hub, b.tag, Ready(b, Some(item), list, s.hub.head, pre), s.hub,
              Preparing(b, list, s.hub.head, pre, item.id, item.release.draft));
  }

  /** It creates a draft. */
  lemma {:induction false} TakesNew(site: Site, builds: set<Build>, s: State, b: Build, list: seq<Item>, pre: bool, next: Hub, id: nat)
    requires s.hub.head < |s.hub.commits| && id == s.hub.nextId
    requires next == s.hub.(releases := s.hub.releases[id := Published(b.tag, true, pre, NoAsset)], nextId := id + 1)
    ensures Perform(site, builds, With(s, s.hub, b.tag, Ready(b, None, list, s.hub.head, pre)), b.tag, Create)
         == Some(With(s, next, b.tag, Preparing(b, list, s.hub.head, pre, id, true)))
  {
    var mid := With(s, s.hub, b.tag, Ready(b, None, list, s.hub.head, pre));
    assert mid.hub == s.hub && mid.publishers[b.tag] == Ready(b, None, list, s.hub.head, pre);
    WithTwice(s, s.hub, b.tag, Ready(b, None, list, s.hub.head, pre), next, Preparing(b, list, s.hub.head, pre, id, true));
  }

  /** It takes the release, or creates a draft. */
  lemma {:induction false} Takes(site: Site, builds: set<Build>, s: State, b: Build, list: seq<Item>, ids: seq<nat>, target: Option<nat>,
                                 pre: bool)
    returns (next: Hub, id: nat, draft: bool)
    requires Inv(site, builds, s) && CanPublish(site, s.hub, b, ids, target) && pre == AsPrerelease(s.hub, b, target)
    ensures Perform(site, builds, With(s, s.hub, b.tag, Ready(b, ItemOf(s.hub, target), list, s.hub.head, pre)), b.tag, Create)
         == Some(With(s, next, b.tag, Preparing(b, list, s.hub.head, pre, id, draft)))
    ensures Prepares(s.hub, next, b, pre, id, draft)
    ensures next.releases[id].archive.Uploaded? ==> next.releases[id].archive.checksum == b.checksum
  {
    next := s.hub;
    match ItemOf(s.hub, target)
    case Some(found) =>
      id, draft := found.id, found.release.draft;
      TakesFound(site, builds, s, b, list, found, pre);
    case None =>
      id, draft := s.hub.nextId, true;
      next := s.hub.(releases := s.hub.releases[id := Published(b.tag, true, pre, NoAsset)], nextId := id + 1);
      TakesNew(site, builds, s, b, list, pre, next, id);
  }

  /** It sees to it that the release has the archive. */
  lemma {:induction false} Fills(site: Site, builds: set<Build>, s: State, start: State, before: seq<Move>, hub: Hub, b: Build,
                                 list: seq<Item>, parent: nat, pre: bool, id: nat, draft: bool)
    returns (moves: seq<Move>)
    requires Inv(site, builds, start) && hub.head < |hub.commits| && id in hub.releases
    requires hub.releases[id].archive.Uploaded? ==> hub.releases[id].archive.checksum == b.checksum
    requires RunFrom(site, builds, start, before) == Some(With(s, hub, b.tag, Preparing(b, list, parent, pre, id, draft)))
    ensures RunFrom(site, builds, start, moves)
         == Some(With(s, SetArchive(hub, id, Uploaded(b.checksum)), b.tag, Complete(b, list, parent, pre, id, draft)))
  {
    var p, q := Preparing(b, list, parent, pre, id, draft), Complete(b, list, parent, pre, id, draft);
    var full := SetArchive(hub, id, Uploaded(b.checksum));
    match hub.releases[id].archive
    case Uploaded(_) =>
      assert full == hub by { assert hub.releases[id := hub.releases[id].(archive := Uploaded(b.checksum))] == hub.releases; }
      WithTwice(s, hub, b.tag, p, hub, q);
      OneMove(site, builds, start, before, With(s, hub, b.tag, p), Move(b.tag, CheckAsset), With(s, full, b.tag, q));
      moves := before + [Move(b.tag, CheckAsset)];
    case NoAsset =>
      Uploads(site, builds, s, hub, b, list, parent, pre, id, draft);
      OneMove(site, builds, start, before, With(s, hub, b.tag, p), Move(b.tag, Upload(true)), With(s, full, b.tag, q));
      moves := before + [Move(b.tag, Upload(true))];
    case Starter =>
      var empty := SetArchive(hub, id, NoAsset);
      WithTwice(s, hub, b.tag, p, empty, p);
      OneMove(site, builds, start, before, With(s, hub, b.tag, p), Move(b.tag, DeleteStarter), With(s, empty, b.tag, p));
      moves := before + [Move(b.tag, DeleteStarter)];
      Uploads(site, builds, s, empty, b, list, parent, pre, id, draft);
      SetTwice(hub, id, NoAsset, Uploaded(b.checksum));
      OneMove(site, builds, start, moves, With(s, empty, b.tag, p), Move(b.tag, Upload(true)), With(s, full, b.tag, q));
      moves := moves + [Move(b.tag, Upload(true))];
  }

  lemma SetTwice(hub: Hub, id: nat, a: Asset, c: Asset)
    requires id in hub.releases
    ensures SetArchive(SetArchive(hub, id, a), id, c) == SetArchive(hub, id, c)
  {
    var r := hub.releases[id];
    assert hub.releases[id := r.(archive := a)][id := r.(archive := c)] == hub.releases[id := r.(archive := c)];
  }

  lemma {:induction false} Uploads(site: Site, builds: set<Build>, s: State, hub: Hub, b: Build, list: seq<Item>, parent: nat, pre: bool,
                                   id: nat, draft: bool)
    requires hub.head < |hub.commits| && id in hub.releases && hub.releases[id].archive == NoAsset
    ensures Perform(site, builds, With(s, hub, b.tag, Preparing(b, list, parent, pre, id, draft)), b.tag, Upload(true))
         == Some(With(s, SetArchive(hub, id, Uploaded(b.checksum)), b.tag, Complete(b, list, parent, pre, id, draft)))
  {
    WithTwice(s, hub, b.tag, Preparing(b, list, parent, pre, id, draft), SetArchive(hub, id, Uploaded(b.checksum)),
              Complete(b, list, parent, pre, id, draft));
  }

  /** It makes the release public. */
  lemma {:induction false} Undrafts(site: Site, builds: set<Build>, s: State, was: Hub, hub: Hub, b: Build, list: seq<Item>, parent: nat,
                                    pre: bool, id: nat, draft: bool)
    returns (next: Hub)
    requires hub.head < |hub.commits| && Prepares(was, hub, b, pre, id, draft) && hub.releases[id].archive == Uploaded(b.checksum)
    ensures Perform(site, builds, With(s, hub, b.tag, Complete(b, list, parent, pre, id, draft)), b.tag, Undraft)
         == Some(With(s, next, b.tag, Public(b, list, parent, pre)))
    ensures Released(next, b, pre) && next.commits == hub.commits && next.head == hub.head && SameTags(hub, next, b)
  {
    var p, q := Complete(b, list, parent, pre, id, draft), Public(b, list, parent, pre);
    var r := hub.releases[id];
    next := if draft then
      hub.(releases := hub.releases[id := r.(draft := false, prerelease := pre)], tags := hub.tags + {b.tag})
    else hub;
    assert next.releases[id] == Published(b.tag, false, pre, Uploaded(b.checksum));
    WithTwice(s, hub, b.tag, p, next, q);
  }

  lemma {:induction false} UpdateResult(site: Site, s: State, t: string, p: Publisher)
    requires p.Public? && p.parent == s.hub.head < |s.hub.commits|
    ensures var end := UpdateIndexes(site, s, t, p);
      && end.hub.head < |end.hub.commits| && Live(end.hub) == NewPages(site, p.b, Live(s.hub), p.prerelease)
      && end.hub.releases == s.hub.releases && end.hub.tags == s.hub.tags && s.hub.commits <= end.hub.commits
      && if p.b.channel == Development then end == With(s, end.hub, t, Pruning(p.b, p.list, p.parent, end.hub.head))
         else t !in end.publishers
  {
  }

  /** It updates the indexes; nobody has moved the head, so that works. */
  lemma {:induction false} Updates(site: Site, builds: set<Build>, s: State, hub: Hub, b: Build, list: seq<Item>, pre: bool)
    returns (end: State)
    requires hub.head < |hub.commits|
    ensures Perform(site, builds, With(s, hub, b.tag, Public(b, list, hub.head, pre)), b.tag, Update) == Some(end)
    ensures end.hub.head < |end.hub.commits| && Live(end.hub) == NewPages(site, b, Live(hub), pre)
    ensures end.hub.releases == hub.releases && end.hub.tags == hub.tags && hub.commits <= end.hub.commits
    ensures if b.channel == Development then
              end == With(s, end.hub, b.tag, Pruning(b, list, hub.head, end.hub.head))
            else b.tag !in end.publishers
  {
    var p := Public(b, list, hub.head, pre);
    var mid := With(s, hub, b.tag, p);
    end := UpdateIndexes(site, mid, b.tag, p);
    UpdateMove(site, builds, mid, b.tag, p);
    UpdateResult(site, mid, b.tag, p);
    WithTwice(s, hub, b.tag, p, end.hub, Pruning(b, list, hub.head, end.hub.head));
  }

  lemma UpdateMove(site: Site, builds: set<Build>, s: State, t: string, p: Publisher)
    requires s.hub.head < |s.hub.commits| && t in s.publishers && s.publishers[t] == p && p.Public? && p.parent < |s.hub.commits|
    ensures Perform(site, builds, s, t, Update) == Some(UpdateIndexes(site, s, t, p))
  {
  }

  lemma SameRelease(hub: Hub, next: Hub, b: Build, pre: bool)
    requires Released(hub, b, pre) && next.releases == hub.releases && next.tags == hub.tags
    ensures Released(next, b, pre)
  {
  }

  /** The publisher of a snapshot goes on to prune: it has listed all releases, and all of them
      are still there. */
  ghost predicate Prunes(site: Site, s: State, end: State, b: Build, ids: seq<nat>) {
    && s.hub.head < |s.hub.commits| && end.hub.head < |end.hub.commits| && b.tag in end.publishers
    && (forall i :: 0 <= i < |ids| ==> ids[i] in s.hub.releases)
    && end.publishers[b.tag] == Pruning(b, ItemsOf(s.hub, ids), s.hub.head, end.hub.head)
    && s.hub.commits <= end.hub.commits && Live(end.hub) == Pages(Live(s.hub).stable, NewDev(site, b, Live(s.hub)))
    && SameTags(s.hub, end.hub, b)
  }

  /** A publisher that nobody disturbs has a run that ends with the build released, with its tag,
      archive and classification, and listed in the live indexes; from any reachable state in
      which nothing speaks against it. */
  lemma {:induction false} Publishes(site: Site, builds: set<Build>, s: State, b: Build, ids: seq<nat>, target: Option<nat>)
    returns (moves: seq<Move>, end: State)
    requires Inv(site, builds, s) && b in builds && b.tag !in s.publishers && CanPublish(site, s.hub, b, ids, target)
    ensures RunFrom(site, builds, s, moves) == Some(end)
    ensures var pre := AsPrerelease(s.hub, b, target);
      && end.hub.head < |end.hub.commits| && Released(end.hub, b, pre) && Listed(site, Live(end.hub), b, pre)
      && (pre ==> Live(end.hub).stable == Live(s.hub).stable)
    ensures if b.channel == Development then Prunes(site, s, end, b, ids) else b.tag !in end.publishers
  {
    var pre, parent, list := AsPrerelease(s.hub, b, target), s.hub.head, [];
    moves, list := GoesOn(site, builds, s, b, ids, target, pre);
    var ready := With(s, s.hub, b.tag, Ready(b, ItemOf(s.hub, target), list, parent, pre));
    var taken, id, draft := Takes(site, builds, s, b, list, ids, target, pre);
    OneMove(site, builds, s, moves, ready, Move(b.tag, Create), With(s, taken, b.tag, Preparing(b, list, parent, pre, id, draft)));
    moves := moves + [Move(b.tag, Create)];
    moves := Fills(site, builds, s, s, moves, taken, b, list, parent, pre, id, draft);
    var full := SetArchive(taken, id, Uploaded(b.checksum));
    assert SameTags(s.hub, full, b);
    var public := Undrafts(site, builds, s, s.hub, full, b, list, parent, pre, id, draft);
    OneMove(site, builds, s, moves, With(s, full, b.tag, Complete(b, list, parent, pre, id, draft)), Move(b.tag, Undraft),
            With(s, public, b.tag, Public(b, list, parent, pre)));
    moves := moves + [Move(b.tag, Undraft)];
    Admitted(site, builds, s, b, ids, target);
    end := Updates(site, builds, s, public, b, list, pre);
    OneMove(site, builds, s, moves, With(s, public, b.tag, Public(b, list, parent, pre)), Move(b.tag, Update), end);
    moves := moves + [Move(b.tag, Update)];
    NewPagesList(site, builds, public.commits, b, parent, pre);
    SameRelease(public, end.hub, b, pre);
  }

  /** The live indexes admit the build. */
  lemma {:induction false} Admitted(site: Site, builds: set<Build>, s: State, b: Build, ids: seq<nat>, target: Option<nat>)
    requires Inv(site, builds, s) && b in builds && CanPublish(site, s.hub, b, ids, target)
    ensures ParentOk(site, s.hub.commits, b, s.hub.head, AsPrerelease(s.hub, b, target))
  {
    NoConflictIs(site, Live(s.hub), b);
    if b.channel == Development {
      NotSkipped(site, builds, s.hub, b, []);
      NewestSeen(site, builds, b, [], Live(s.hub));
    }
  }

  // ---------- pruning ----------

  /** A tag of an older snapshot that the live indexes do not name, and no full release had
      when the publisher listed them. */
  ghost predicate Superfluous(site: Site, was: Hub, pages: Pages, b: Build, tag: string) {
    && DevTag(tag) && TextBelow(tag, b.tag) && !Named(site, pages, tag)
    && forall id :: id in was.releases && was.releases[id].tag == tag ==> was.releases[id].prerelease
  }

  lemma {:induction false} ObsoleteIs(site: Site, was: Hub, p: Publisher, pages: Pages, now: Pages, ids: seq<nat>, tag: string)
    requires p.Pruning? && ListsAll(was, ids) && (forall i :: 0 <= i < |ids| ==> ids[i] in was.releases) && p.list == ItemsOf(was, ids)
    requires now == Pages(pages.stable, NewDev(site, p.b, pages))
    ensures Obsolete(site, p, pages, tag) <==> Superfluous(site, was, now, p.b, tag)
  {
    LessIs(tag, p.b.tag);
    LessOrder(tag, tag, tag);
    if exists id :: id in was.releases && was.releases[id].tag == tag && !was.releases[id].prerelease {
      var id :| id in was.releases && was.releases[id].tag == tag && !was.releases[id].prerelease;
      var i :| 0 <= i < |ids| && ids[i] == id;
      assert p.list[i].release == was.releases[id];
    }
  }

  /** The releases without those of the first n listed that are obsolete. */
  ghost function Remaining(site: Site, releases: map<nat, Published>, p: Publisher, pages: Pages, n: nat): map<nat, Published>
    requires p.Pruning? && n <= |p.list|
  {
    if n == 0 then releases
    else
      var before, item := Remaining(site, releases, p, pages, n - 1), p.list[n - 1];
      if Obsolete(site, p, pages, item.release.tag) then before - {item.id} else before
  }

  lemma {:induction false} RemainingIs(site: Site, releases: map<nat, Published>, p: Publisher, pages: Pages, n: nat)
    requires p.Pruning? && n <= |p.list|
    ensures var rest := Remaining(site, releases, p, pages, n);
      && (forall id :: id in rest ==> id in releases && rest[id] == releases[id])
      && (forall id :: id in releases && id !in rest ==>
            exists k :: 0 <= k < n && p.list[k].id == id && Obsolete(site, p, pages, p.list[k].release.tag))
      && (forall k :: 0 <= k < n && Obsolete(site, p, pages, p.list[k].release.tag) ==> p.list[k].id !in rest)
  {
    if n > 0 {
      var m := n - 1;
      RemainingIs(site, releases, p, pages, m);
      RemainingNext(site, releases, p, pages, m, n, Remaining(site, releases, p, pages, m), Remaining(site, releases, p, pages, n));
    }
  }

  lemma RemainingNext(site: Site, releases: map<nat, Published>, p: Publisher, pages: Pages, m: nat, n: nat,
                      before: map<nat, Published>, rest: map<nat, Published>)
    requires p.Pruning? && n == m + 1 <= |p.list|
    requires rest == if Obsolete(site, p, pages, p.list[m].release.tag) then before - {p.list[m].id} else before
    requires forall id :: id in releases && id !in before ==>
      exists k :: 0 <= k < m && p.list[k].id == id && Obsolete(site, p, pages, p.list[k].release.tag)
    ensures forall id :: id in releases && id !in rest ==>
      exists k :: 0 <= k < n && p.list[k].id == id && Obsolete(site, p, pages, p.list[k].release.tag)
  {
    forall id | id in releases && id !in rest
      ensures exists k :: 0 <= k < n && p.list[k].id == id && Obsolete(site, p, pages, p.list[k].release.tag)
    {
      if id in before { assert p.list[m].id == id; }
    }
  }

  lemma DeletesRelease(site: Site, builds: set<Build>, s: State, t: string, p: Publisher, k: nat, rest: map<nat, Published>)
    returns (mid: State, end: State)
    requires s.hub.head < |s.hub.commits| && t in s.publishers && s.publishers[t] == p && p.Pruning? && p.parent < |s.hub.commits|
    requires k < |p.list| && Obsolete(site, p, s.hub.commits[p.parent], p.list[k].release.tag)
    ensures mid == State(s.hub.(releases := rest), s.publishers)
    ensures end == State(s.hub.(releases := rest - {p.list[k].id}), s.publishers)
    ensures mid.hub.head < |mid.hub.commits| && Perform(site, builds, mid, t, DeleteRelease(k)) == Some(end)
  {
    mid, end := State(s.hub.(releases := rest), s.publishers), State(s.hub.(releases := rest - {p.list[k].id}), s.publishers);
  }

  /** It deletes the obsolete releases one after the other. */
  lemma {:induction false} PrunesReleases(site: Site, builds: set<Build>, start: State, before: seq<Move>, s: State, t: string, p: Publisher, n: nat)
    returns (moves: seq<Move>)
    requires Inv(site, builds, start) && RunFrom(site, builds, start, before) == Some(s) && s.hub.head < |s.hub.commits|
    requires t in s.publishers && s.publishers[t] == p && p.Pruning? && p.parent < |s.hub.commits| && n <= |p.list|
    ensures RunFrom(site, builds, start, moves)
         == Some(State(s.hub.(releases := Remaining(site, s.hub.releases, p, s.hub.commits[p.parent], n)), s.publishers))
  {
    var pages := s.hub.commits[p.parent];
    if n == 0 {
      moves := before;
      RemainingAll(site, s, p, pages);
    } else {
      var m := n - 1;
      moves := PrunesReleases(site, builds, start, before, s, t, p, m);
      var rest, rest' := RemainingStep(site, s.hub.releases, p, pages, m, n);
      moves := PrunesOne(site, builds, start, moves, s, t, p, m, rest, rest');
    }
  }

  lemma RemainingAll(site: Site, s: State, p: Publisher, pages: Pages)
    requires p.Pruning?
    ensures State(s.hub.(releases := Remaining(site, s.hub.releases, p, pages, 0)), s.publishers) == s
  {
  }

  lemma RemainingStep(site: Site, releases: map<nat, Published>, p: Publisher, pages: Pages, m: nat, n: nat)
    returns (rest: map<nat, Published>, rest': map<nat, Published>)
    requires p.Pruning? && n == m + 1 <= |p.list|
    ensures rest == Remaining(site, releases, p, pages, m) && rest' == Remaining(site, releases, p, pages, n)
    ensures rest' == if Obsolete(site, p, pages, p.list[m].release.tag) then rest - {p.list[m].id} else rest
  {
    rest, rest' := Remaining(site, releases, p, pages, m), Remaining(site, releases, p, pages, n);
  }

  lemma {:induction false} PrunesOne(site: Site, builds: set<Build>, start: State, before: seq<Move>, s: State, t: string, p: Publisher, k: nat,
                                     rest: map<nat, Published>, rest': map<nat, Published>)
    returns (moves: seq<Move>)
    requires s.hub.head < |s.hub.commits| && t in s.publishers && s.publishers[t] == p && p.Pruning? && p.parent < |s.hub.commits|
    requires Inv(site, builds, start) && RunFrom(site, builds, start, before) == Some(State(s.hub.(releases := rest), s.publishers))
    requires k < |p.list|
    requires rest' == if Obsolete(site, p, s.hub.commits[p.parent], p.list[k].release.tag) then rest - {p.list[k].id} else rest
    ensures RunFrom(site, builds, start, moves) == Some(State(s.hub.(releases := rest'), s.publishers))
  {
    moves := before;
    if Obsolete(site, p, s.hub.commits[p.parent], p.list[k].release.tag) {
      var mid, end := DeletesRelease(site, builds, s, t, p, k, rest);
      OneMove(site, builds, start, before, mid, Move(t, DeleteRelease(k)), end);
      moves := before + [Move(t, DeleteRelease(k))];
    }
  }

  lemma DeletesTag(site: Site, builds: set<Build>, s: State, t: string, p: Publisher, x: string) returns (next: State)
    requires s.hub.head < |s.hub.commits| && t in s.publishers && s.publishers[t] == p && p.Pruning? && p.parent < |s.hub.commits|
    requires Obsolete(site, p, s.hub.commits[p.parent], x)
    ensures Perform(site, builds, s, t, DeleteTag(x)) == Some(next)
    ensures next.hub.commits == s.hub.commits && next.hub.head == s.hub.head && next.publishers == s.publishers
    ensures next.hub.tags == s.hub.tags - {x} && next.hub.releases.Keys == s.hub.releases.Keys
    ensures forall id :: id in s.hub.releases ==>
      if s.hub.releases[id].tag == x then next.hub.releases[id].tag == x else next.hub.releases[id] == s.hub.releases[id]
  {
    next := State(DropTag(s.hub, x), s.publishers);
  }

  /** It deletes the obsolete tags that are left. */
  lemma {:induction false} PrunesTags(site: Site, builds: set<Build>, start: State, before: seq<Move>, s: State, t: string, p: Publisher,
                                      left: set<string>)
    returns (moves: seq<Move>, end: State)
    requires Inv(site, builds, start) && RunFrom(site, builds, start, before) == Some(s) && s.hub.head < |s.hub.commits|
    requires t in s.publishers && s.publishers[t] == p && p.Pruning? && p.parent < |s.hub.commits|
    requires forall x :: x in left <==> x in s.hub.tags && Obsolete(site, p, s.hub.commits[p.parent], x)
    ensures RunFrom(site, builds, start, moves) == Some(end)
    ensures end.hub.commits == s.hub.commits && end.hub.head == s.hub.head && end.publishers == s.publishers
    ensures end.hub.tags == s.hub.tags - left
    ensures forall id :: id in end.hub.releases <==> id in s.hub.releases
    ensures forall id :: id in s.hub.releases ==>
      if s.hub.releases[id].tag in left then end.hub.releases[id].tag == s.hub.releases[id].tag
      else end.hub.releases[id] == s.hub.releases[id]
    decreases |left|
  {
    if left == {} {
      moves, end := before, s;
    } else {
      var x :| x in left;
      var next := DeletesTag(site, builds, s, t, p, x);
      OneMove(site, builds, start, before, s, Move(t, DeleteTag(x)), next);
      moves, end := PrunesTags(site, builds, start, before + [Move(t, DeleteTag(x))], next, t, p, left - {x});
    }
  }

  /** No superfluous release or tag is left. */
  ghost predicate Pruned(site: Site, was: Hub, now: Hub, b: Build)
    requires now.head < |now.commits|
  {
    && (forall id :: id in now.releases ==> !Superfluous(site, was, Live(now), b, now.releases[id].tag))
    && (forall x :: x in now.tags ==> !Superfluous(site, was, Live(now), b, x))
  }

  /** The publisher of a snapshot that nobody disturbs has a run that releases and lists it, and
      then deletes every release and tag of an older snapshot that is no longer named. */
  lemma {:induction false} PublishesSnapshot(site: Site, builds: set<Build>, s: State, b: Build, ids: seq<nat>, target: Option<nat>)
    returns (moves: seq<Move>, end: State)
    requires Inv(site, builds, s) && b in builds && b.tag !in s.publishers && CanPublish(site, s.hub, b, ids, target)
    requires b.channel == Development
    ensures RunFrom(site, builds, s, moves) == Some(end) && end.hub.head < |end.hub.commits|
    ensures Released(end.hub, b, true) && Listed(site, Live(end.hub), b, true) && Live(end.hub).stable == Live(s.hub).stable
    ensures Pruned(site, s.hub, end.hub, b)
  {
    var mid;
    moves, mid := Publishes(site, builds, s, b, ids, target);
    var p, pages := mid.publishers[b.tag], Live(s.hub);
    assert mid.hub.commits[s.hub.head] == pages;
    moves := PrunesReleases(site, builds, s, moves, mid, b.tag, p, |p.list|);
    var less := State(mid.hub.(releases := Remaining(site, mid.hub.releases, p, pages, |p.list|)), mid.publishers);
    var left := set x | x in less.hub.tags && Obsolete(site, p, pages, x);
    moves, end := PrunesTags(site, builds, s, moves, less, b.tag, p, left);
    PrunedIs(site, s, mid, end, b, ids, p, less.hub.releases, left);
  }

  lemma {:induction false} PrunedIs(site: Site, s: State, mid: State, end: State, b: Build, ids: seq<nat>, p: Publisher,
                                    rest: map<nat, Published>, left: set<string>)
    requires Prunes(site, s, mid, b, ids) && ListsAll(s.hub, ids) && p == mid.publishers[b.tag] && Released(mid.hub, b, true)
    requires rest == Remaining(site, mid.hub.releases, p, Live(s.hub), |p.list|)
    requires forall x :: x in left <==> x in mid.hub.tags && Obsolete(site, p, Live(s.hub), x)
    requires end.hub.commits == mid.hub.commits && end.hub.head == mid.hub.head && end.hub.tags == mid.hub.tags - left
    requires forall id :: id in end.hub.releases <==> id in rest
    requires forall id :: id in rest ==>
      if rest[id].tag in left then end.hub.releases[id].tag == rest[id].tag else end.hub.releases[id] == rest[id]
    ensures Pruned(site, s.hub, end.hub, b) && Released(end.hub, b, true)
  {
    var pages, now := Live(s.hub), Live(mid.hub);
    RemainingIs(site, mid.hub.releases, p, pages, |p.list|);
    forall x ensures Obsolete(site, p, pages, x) <==> Superfluous(site, s.hub, now, b, x) {
      ObsoleteIs(site, s.hub, p, pages, now, ids, x);
    }
    forall id | id in end.hub.releases ensures !Superfluous(site, s.hub, now, b, end.hub.releases[id].tag) {
      if id in s.hub.releases {
        var k :| 0 <= k < |ids| && ids[k] == id;
        assert p.list[k] == Item(id, s.hub.releases[id]);
      }
    }
    var id :| id in mid.hub.releases && mid.hub.releases[id] == Published(b.tag, false, true, Uploaded(b.checksum));
    assert !Obsolete(site, p, pages, b.tag);
    assert id in rest;
    assert end.hub.releases[id] == mid.hub.releases[id];
  }
}
