/** Publishing as a protocol: publishers, at most one for each tag, work on the releases,
    tags and index branch of one repository in atomic steps. They may interleave and stop
    between any two steps. */
module ReleaseProtocol {
  import opened MergePackages
  import opened Release
  import opened Wrappers

  // ---------- the repository ----------

  /** The archive of a release: missing, an unfinished upload, or its bytes' checksum. */
  datatype Asset = NoAsset | Starter | Uploaded(checksum: string)

  datatype Published = Published(tag: string, draft: bool, prerelease: bool, archive: Asset)

  /** Releases by number, the tags, and the commits of the index branch; head is the newest.
      The first commit stands for the branch before it exists. */
  datatype Hub = Hub(releases: map<nat, Published>, nextId: nat, tags: set<string>, commits: seq<Pages>, head: nat)

  /** A release as it was when it was read. */
  datatype Item = Item(id: nat, release: Published)

  // ---------- publishers ----------

  datatype Publisher =
    | Looking(b: Build, found: Option<Item>, list: seq<Item>)
    | Ready(b: Build, found: Option<Item>, list: seq<Item>, parent: nat, prerelease: bool)
    | Preparing(b: Build, list: seq<Item>, parent: nat, prerelease: bool, id: nat, draft: bool)
    | Complete(b: Build, list: seq<Item>, parent: nat, prerelease: bool, id: nat, draft: bool)
    | Public(b: Build, list: seq<Item>, parent: nat, prerelease: bool)
    | Pruning(b: Build, list: seq<Item>, parent: nat, base: nat)

  /** The publishers that are at work, by tag. */
  datatype State = State(hub: Hub, publishers: map<string, Publisher>)

  datatype Action =
    | Begin(b: Build, id: Option<nat>)
    | ListPage(ids: seq<nat>)
    | ReadHead
    | Create
    | CheckAsset
    | DeleteStarter
    | Upload(succeeds: bool)
    | Undraft
    | Update
    | DeleteRelease(k: nat)
    | DeleteTag(tag: string)
    | Stop

  function With(s: State, hub: Hub, t: string, p: Publisher): State {
    State(hub, s.publishers[t := p])
  }

  /** The publisher is done, or it has failed. */
  function Leave(s: State, hub: Hub, t: string): State {
    State(hub, s.publishers - {t})
  }

  function FindItem(list: seq<Item>, tag: string): (r: Option<Item>)
    ensures r.Some? ==> r.value in list && r.value.release.tag == tag
  {
    if list == [] then None
    else if list[0].release.tag == tag then Some(list[0])
    else FindItem(list[1..], tag)
  }

  /** The release to work on: the published one, else a listed draft. */
  function Target(p: Publisher): Option<Item>
    requires p.Looking?
  {
    if p.found.Some? then p.found else FindItem(p.list, p.b.tag)
  }

  function IsPrerelease(b: Build, target: Option<Item>): bool {
    b.channel != Stable || (target.Some? && target.value.release.prerelease)
  }

  /** A published release cannot become a prerelease by being built as one. */
  predicate Misclassified(b: Build, target: Option<Item>) {
    target.Some? && !target.value.release.prerelease && !target.value.release.draft && b.channel != Stable
  }

  /** A newer snapshot is in the index or among the releases listed. */
  ghost predicate NewerSeen(site: Site, b: Build, list: seq<Item>, was: Pages) {
    var latest := NewLatest(site, b, was);
    || (latest.Some? && Less(b.tag, latest.value))
    || exists i :: 0 <= i < |list| && var r := list[i].release;
         !r.draft && r.prerelease && DevTag(r.tag) && Less(b.tag, r.tag)
  }

  /** The pages that a publisher wants; the stable index changes only for a stable release. */
  function NewPages(site: Site, b: Build, was: Pages, prerelease: bool): Pages {
    Pages(if prerelease then was.stable else NewStable(site, b, was), NewDev(site, b, was))
  }

  ghost predicate Named(site: Site, pages: Pages, tag: string) {
    exists name, p :: (Lists(pages.dev, name, p) || Lists(pages.stable, name, p)) && TagOf(site, p) == tag
  }

  /** An older snapshot that neither the indexes nor a full release holds. */
  ghost predicate Obsolete(site: Site, p: Publisher, was: Pages, tag: string)
    requires p.Pruning?
  {
    && DevTag(tag) && Less(tag, p.b.tag) && tag != p.b.tag
    && !Named(site, Pages(was.stable, NewDev(site, p.b, was)), tag)
    && !exists i :: 0 <= i < |p.list| && !p.list[i].release.prerelease && p.list[i].release.tag == tag
  }

  /** Without its tag a published release is a draft again. */
  function DropTag(hub: Hub, tag: string): Hub {
    hub.(tags := hub.tags - {tag},
         releases := map id | id in hub.releases ::
           if hub.releases[id].tag == tag then hub.releases[id].(draft := true) else hub.releases[id])
  }

  // ---------- steps ----------

  /** What one step of the publisher of tag t makes of the state; none if it cannot be taken. */
  ghost function Perform(site: Site, builds: set<Build>, s: State, t: string, a: Action): Option<State>
    requires s.hub.head < |s.hub.commits|
  {
    var hub := s.hub;
    if a.Begin? then Start(builds, s, t, a.b, a.id)
    else if t !in s.publishers then None
    else
      var p := s.publishers[t];
      match a
      case Stop => Some(Leave(s, hub, t))
      case ListPage(ids) => ListMore(s, t, p, ids)
      case ReadHead => if p.Looking? then Some(Decide(site, s, t, p)) else None
      case Create => if p.Ready? then Some(Take(s, t, p)) else None
      case CheckAsset => if p.Preparing? then Some(Check(s, t, p)) else None
      case DeleteStarter =>
        if p.Preparing? && p.id in hub.releases && hub.releases[p.id].archive == Starter then
          Some(With(s, SetArchive(hub, p.id, NoAsset), t, p))
        else None
      case Upload(succeeds) =>
        if p.Preparing? && p.id in hub.releases && hub.releases[p.id].archive == NoAsset then
          Some(if succeeds then UploadWhole(s, t, p) else Leave(s, SetArchive(hub, p.id, Starter), t))
        else None
      case Undraft => if p.Complete? then Some(MakePublic(s, t, p)) else None
      case Update => if p.Public? && p.parent < |hub.commits| then Some(UpdateIndexes(site, s, t, p)) else None
      case DeleteRelease(k) =>
        if p.Pruning? && p.parent < |hub.commits| && k < |p.list|
           && Obsolete(site, p, hub.commits[p.parent], p.list[k].release.tag) then
          Some(State(hub.(releases := hub.releases - {p.list[k].id}), s.publishers))
        else None
      case DeleteTag(tag) =>
        if p.Pruning? && p.parent < |hub.commits| && Obsolete(site, p, hub.commits[p.parent], tag) then
          Some(State(DropTag(hub, tag), s.publishers))
        else None
  }

  function UploadWhole(s: State, t: string, p: Publisher): State
    requires p.Preparing? && p.id in s.hub.releases
  {
    With(s, SetArchive(s.hub, p.id, Uploaded(p.b.checksum)), t, Complete(p.b, p.list, p.parent, p.prerelease, p.id, p.draft))
  }

  function SetArchive(hub: Hub, id: nat, archive: Asset): Hub
    requires id in hub.releases
  {
    hub.(releases := hub.releases[id := hub.releases[id].(archive := archive)])
  }

  /** Starts publishing a build, by asking for the published release of its tag. */
  ghost function Start(builds: set<Build>, s: State, t: string, b: Build, id: Option<nat>): Option<State> {
    if t in s.publishers || b !in builds || b.tag != t then None
    else
      match id
      case None =>
        if exists i :: i in s.hub.releases && s.hub.releases[i].tag == t && !s.hub.releases[i].draft then None
        else Some(With(s, s.hub, t, Looking(b, None, [])))
      case Some(i) =>
        if i in s.hub.releases && s.hub.releases[i].tag == t && !s.hub.releases[i].draft then
          Some(With(s, s.hub, t, Looking(b, Some(Item(i, s.hub.releases[i])), [])))
        else None
  }

  /** Reads another page of the list of releases. */
  function ListMore(s: State, t: string, p: Publisher, ids: seq<nat>): Option<State> {
    if p.Looking? && (p.found.None? || p.b.channel == Development)
       && forall i :: 0 <= i < |ids| ==> ids[i] in s.hub.releases then
      var page := seq(|ids|, i requires 0 <= i < |ids| => Item(ids[i], s.hub.releases[ids[i]]));
      Some(With(s, s.hub, t, Looking(p.b, p.found, p.list + page)))
    else None
  }

  /** Reads the head and its indexes, and goes on, gives up, or skips an older snapshot. */
  ghost function Decide(site: Site, s: State, t: string, p: Publisher): State
    requires p.Looking? && s.hub.head < |s.hub.commits|
  {
    var was := s.hub.commits[s.hub.head];
    if Misclassified(p.b, Target(p)) || Conflicts(site, p.b, was.stable) || Conflicts(site, p.b, was.dev)
       || (p.b.channel == Development && NewerSeen(site, p.b, p.list, was))
    then Leave(s, s.hub, t)
    else With(s, s.hub, t, Ready(p.b, Target(p), p.list, s.hub.head, IsPrerelease(p.b, Target(p))))
  }

  /** Creates a draft unless there is a release already. */
  function Take(s: State, t: string, p: Publisher): State
    requires p.Ready?
  {
    match p.found
    case Some(item) =>
      With(s, s.hub, t, Preparing(p.b, p.list, p.parent, p.prerelease, item.id, item.release.draft))
    case None =>
      var id := s.hub.nextId;
      With(s, s.hub.(releases := s.hub.releases[id := Published(t, true, p.prerelease, NoAsset)], nextId := id + 1), t,
           Preparing(p.b, p.list, p.parent, p.prerelease, id, true))
  }

  /** Accepts an archive with the same bytes; refuses any other. */
  function Check(s: State, t: string, p: Publisher): State
    requires p.Preparing?
  {
    if p.id !in s.hub.releases then Leave(s, s.hub, t)
    else
      match s.hub.releases[p.id].archive
      case Uploaded(checksum) =>
        if checksum == p.b.checksum then
          With(s, s.hub, t, Complete(p.b, p.list, p.parent, p.prerelease, p.id, p.draft))
        else Leave(s, s.hub, t)
      case _ => s
  }

  /** Publishes a draft, which creates its tag. */
  function MakePublic(s: State, t: string, p: Publisher): State
    requires p.Complete?
  {
    var next := Public(p.b, p.list, p.parent, p.prerelease);
    if !p.draft then With(s, s.hub, t, next)
    else if p.id !in s.hub.releases then Leave(s, s.hub, t)
    else
      var r := s.hub.releases[p.id];
      With(s, s.hub.(releases := s.hub.releases[p.id := r.(draft := false, prerelease := p.prerelease)],
                     tags := s.hub.tags + {t}), t, next)
  }

  /** Moves the branch head from the commit that was read to a new one; fails when the head
      has moved. Nothing is done when the indexes do not change. */
  function UpdateIndexes(site: Site, s: State, t: string, p: Publisher): State
    requires p.Public? && p.parent < |s.hub.commits|
  {
    var hub := s.hub;
    var pages := NewPages(site, p.b, hub.commits[p.parent], p.prerelease);
    if pages == hub.commits[p.parent] then AfterUpdate(s, hub, t, p, p.parent)
    else if hub.head != p.parent then Leave(s, hub, t)
    else AfterUpdate(s, hub.(commits := hub.commits + [pages], head := |hub.commits|), t, p, |hub.commits|)
  }

  function AfterUpdate(s: State, hub: Hub, t: string, p: Publisher, base: nat): State
    requires p.Public?
  {
    if p.b.channel == Development then With(s, hub, t, Pruning(p.b, p.list, p.parent, base)) else Leave(s, hub, t)
  }
}
