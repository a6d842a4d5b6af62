/**
 The listing endpoints join several services by hand: they collect ids, drop duplicates through a
 set, fetch in slices, build dictionaries and enrich each result. Here they are proved equal to a
 lookup of each result in the whole inventory, whatever the set order, the slice size and the order
 in which the services answer.
 */
module Joins {
  import opened Common

  datatype ImageMeta = ImageMeta(imageId: Option<string>, imageName: Option<string>, osDistro: Option<string>)

  /** `imageMeta` is `None` when the volume has no image metadata or an empty record of it. */
  datatype Volume = Volume(
    id: string, name: string, host: Option<string>, snapshotId: Option<string>,
    attachedTo: seq<string>, imageMeta: Option<ImageMeta>)

  datatype Image = Image(id: string, name: string, osDistro: Option<string>)

  datatype Project = Project(id: string, name: string)

  /** What a service filters by. */
  datatype Field = VolumeId | SourceSnapshot | ImageId

  datatype Item = AsVolume(volume: Volume) | AsImage(image: Image)

  function Key(field: Field, item: Item): Option<string> {
    match (field, item)
    case (VolumeId, AsVolume(v)) => Some(v.id)
    case (SourceSnapshot, AsVolume(v)) => v.snapshotId
    case (ImageId, AsImage(i)) => Some(i.id)
    case _ => None
  }

  predicate Matches(field: Field, ids: seq<string>, item: Item) {
    Key(field, item).Some? && Key(field, item).value in ids
  }

  /** What a service may answer to a filter by ids: exactly the matches, each once, in any order. */
  ghost predicate Answers(inventory: set<Item>, field: Field, ids: seq<string>, found: seq<Item>) {
    NoDuplicates(found) && forall item :: item in found <==> item in inventory && Matches(field, ids, item)
  }

  /** The assumption about Cinder and Glance. */
  method List(inventory: set<Item>, field: Field, ids: seq<string>) returns (found: seq<Item>)
    ensures Answers(inventory, field, ids, found)
  {
    found := [];
    var rest := inventory;
    while rest != {}
      invariant rest <= inventory && NoDuplicates(found)
      invariant forall item :: item in found <==> item in inventory - rest && Matches(field, ids, item)
      decreases rest
    {
      var item :| item in rest;
      rest := rest - {item};
      if Matches(field, ids, item) {
        found := found + [item];
      }
    }
  }

  /** `all` is one answer after the other for slices of `step` ids each. */
  ghost predicate Sliced(inventory: set<Item>, field: Field, ids: seq<string>, step: nat, all: seq<Item>)
    requires step > 0
    decreases |ids|
  {
    if ids == [] then all == []
    else
      var end := if step < |ids| then step else |ids|;
      exists n :: 0 <= n <= |all| && Answers(inventory, field, ids[..end], all[..n]) && Sliced(inventory, field, ids[end..], step, all[n..])
  }

  lemma OneMoreSlice(inventory: set<Item>, field: Field, ids: seq<string>, step: nat, batch: seq<Item>, rest: seq<Item>)
    requires step > 0 && ids != []
    requires var end := if step < |ids| then step else |ids|;
             Answers(inventory, field, ids[..end], batch) && Sliced(inventory, field, ids[end..], step, rest)
    ensures Sliced(inventory, field, ids, step, batch + rest)
  {
    assert (batch + rest)[..|batch|] == batch && (batch + rest)[|batch|..] == rest;
  }

  lemma MatchesParts(field: Field, ids: seq<string>, end: nat, item: Item)
    requires end <= |ids|
    ensures Matches(field, ids, item) <==> Matches(field, ids[..end], item) || Matches(field, ids[end..], item)
    ensures NoDuplicates(ids) ==> !(Matches(field, ids[..end], item) && Matches(field, ids[end..], item))
  {
    assert ids == ids[..end] + ids[end..];
  }

  /** `all` holds exactly the matches, each once when the ids are distinct. */
  ghost predicate Exact(inventory: set<Item>, field: Field, ids: seq<string>, all: seq<Item>) {
    && (forall item :: item in all <==> item in inventory && Matches(field, ids, item))
    && (NoDuplicates(ids) ==> NoDuplicates(all))
  }

  lemma ExactParts(inventory: set<Item>, field: Field, ids: seq<string>, end: nat, batch: seq<Item>, rest: seq<Item>)
    requires end <= |ids| && Answers(inventory, field, ids[..end], batch) && Exact(inventory, field, ids[end..], rest)
    ensures Exact(inventory, field, ids, batch + rest)
  {
    forall item ensures item in batch + rest <==> item in inventory && Matches(field, ids, item) {
      MatchesParts(field, ids, end, item);
    }
    if NoDuplicates(ids) {
      forall item | item in batch ensures item !in rest {
        MatchesParts(field, ids, end, item);
      }
      NoDuplicatesConcat(batch, rest);
    }
  }

  lemma NothingIsExact(inventory: set<Item>, field: Field)
    ensures Exact(inventory, field, [], [])
  {
  }

  lemma FirstSlice(inventory: set<Item>, field: Field, ids: seq<string>, step: nat, all: seq<Item>)
    returns (end: nat, batch: seq<Item>, rest: seq<Item>)
    requires step > 0 && ids != [] && Sliced(inventory, field, ids, step, all)
    ensures 0 < end <= |ids| && all == batch + rest
    ensures Answers(inventory, field, ids[..end], batch) && Sliced(inventory, field, ids[end..], step, rest)
  {
    end := if step < |ids| then step else |ids|;
    var n :| 0 <= n <= |all| && Answers(inventory, field, ids[..end], all[..n]) && Sliced(inventory, field, ids[end..], step, all[n..]);
    batch, rest := all[..n], all[n..];
  }

  /** So it is whatever the slices and the orders. */
  lemma {:induction false} SlicedIsExact(inventory: set<Item>, field: Field, ids: seq<string>, step: nat, all: seq<Item>)
    requires step > 0 && Sliced(inventory, field, ids, step, all)
    ensures Exact(inventory, field, ids, all)
    decreases |ids|
  {
    if ids == [] {
      NothingIsExact(inventory, field);
    } else {
      var end, batch, rest := FirstSlice(inventory, field, ids, step, all);
      SlicedIsExact(inventory, field, ids[end..], step, rest);
      ExactParts(inventory, field, ids, end, batch, rest);
    }
  }

  /** After the first `i` ids, any slices of the rest complete `all`. */
  ghost predicate Completable(inventory: set<Item>, field: Field, ids: seq<string>, i: nat, step: nat, all: seq<Item>)
    requires step > 0 && i <= |ids|
  {
    forall rest :: Sliced(inventory, field, ids[i..], step, rest) ==> Sliced(inventory, field, ids, step, all + rest)
  }

  lemma NothingFetched(inventory: set<Item>, field: Field, ids: seq<string>, step: nat)
    requires step > 0
    ensures Completable(inventory, field, ids, 0, step, [])
  {
    assert ids[0..] == ids;
    forall rest | Sliced(inventory, field, ids[0..], step, rest) ensures Sliced(inventory, field, ids, step, [] + rest) {
      assert [] + rest == rest;
    }
  }

  lemma SliceFetched(inventory: set<Item>, field: Field, ids: seq<string>, i: nat, end: nat, step: nat, all: seq<Item>, batch: seq<Item>)
    requires step > 0 && i < |ids| && end == (if i + step < |ids| then i + step else |ids|)
    requires Completable(inventory, field, ids, i, step, all) && Answers(inventory, field, ids[i..end], batch)
    ensures Completable(inventory, field, ids, end, step, all + batch)
  {
    var here := ids[i..];
    assert here[..end - i] == ids[i..end] && here[end - i..] == ids[end..];
    forall rest | Sliced(inventory, field, ids[end..], step, rest) ensures Sliced(inventory, field, ids, step, all + batch + rest) {
      OneMoreSlice(inventory, field, here, step, batch, rest);
      assert all + (batch + rest) == all + batch + rest;
    }
  }

  lemma EverythingFetched(inventory: set<Item>, field: Field, ids: seq<string>, step: nat, all: seq<Item>)
    requires step > 0 && Completable(inventory, field, ids, |ids|, step, all)
    ensures Sliced(inventory, field, ids, step, all)
  {
    assert Sliced(inventory, field, ids[|ids|..], step, []) && all + [] == all;
  }

  /** The loop `for i in range(0, len(ids), STEP)` with its `extend`. */
  method FetchInSlices(inventory: set<Item>, field: Field, ids: seq<string>, step: nat) returns (all: seq<Item>)
    requires step > 0
    ensures Sliced(inventory, field, ids, step, all)
    ensures forall item :: item in all <==> item in inventory && Matches(field, ids, item)
    ensures NoDuplicates(ids) ==> NoDuplicates(all)
  {
    all := [];
    var i := 0;
    NothingFetched(inventory, field, ids, step);
    while i < |ids|
      invariant 0 <= i
      invariant Completable(inventory, field, ids, if i < |ids| then i else |ids|, step, all)
    {
      var end := if i + step < |ids| then i + step else |ids|;
      var batch := List(inventory, field, ids[i..end]);
      SliceFetched(inventory, field, ids, i, end, step, all, batch);
      all := all + batch;
      i := i + step;
    }
    EverythingFetched(inventory, field, ids, step, all);
    SlicedIsExact(inventory, field, ids, step, all);
  }

  /** `list(set(ids))`, in whatever order. */
  method Distinct(ids: seq<string>) returns (out: seq<string>)
    ensures NoDuplicates(out)
    ensures forall x :: x in out <==> x in ids
  {
    var rest := set x | x in ids;
    out := [];
    while rest != {}
      invariant NoDuplicates(out)
      invariant forall x :: x in ids <==> x in out || x in rest
      invariant forall x :: x in out ==> x !in rest
      decreases rest
    {
      var x :| x in rest;
      rest := rest - {x};
      out := out + [x];
    }
  }

  /** `{project.id: project.name for project in projects}`: the last entry for an id counts. */
  function NameOf(projects: seq<Project>, id: string): Option<string> {
    if projects == [] then None
    else if projects[|projects| - 1].id == id then Some(projects[|projects| - 1].name)
    else NameOf(projects[..|projects| - 1], id)
  }

  /** Project `i` is the last one with this id. */
  predicate LastWithId(projects: seq<Project>, i: int, id: string) {
    0 <= i < |projects| && projects[i].id == id && forall j :: i < j < |projects| ==> projects[j].id != id
  }

  /** The name is that of the last listed project with this id, and there is none when no project has it. */
  lemma {:induction false} NameOfIsListed(projects: seq<Project>, id: string)
    ensures forall i :: LastWithId(projects, i, id) ==> NameOf(projects, id) == Some(projects[i].name)
    ensures NameOf(projects, id).None? <==> forall i :: 0 <= i < |projects| ==> projects[i].id != id
  {
    if projects != [] {
      var n := |projects| - 1;
      var front := projects[..n];
      NameOfIsListed(front, id);
      if projects[n].id != id {
        assert projects == front + [projects[n]];
        forall i | LastWithId(projects, i, id) ensures LastWithId(front, i, id) {}
      }
    }
  }

  method ProjectNames(projects: seq<Project>) returns (names: map<string, string>)
    ensures forall id :: NameOf(projects, id) == if id in names then Some(names[id]) else None
  {
    names := map[];
    for i := 0 to |projects|
      invariant forall id :: NameOf(projects[..i], id) == if id in names then Some(names[id]) else None
    {
      assert projects[..i + 1][..i] == projects[..i];
      names := names[projects[i].id := projects[i].name];
    }
    assert projects[..|projects|] == projects;
  }

  ghost predicate UniqueIds(inventory: set<Item>) {
    && (forall a, b :: a in inventory && b in inventory && a.AsVolume? && b.AsVolume? && a.volume.id == b.volume.id ==> a == b)
    && (forall a, b :: a in inventory && b in inventory && a.AsImage? && b.AsImage? && a.image.id == b.image.id ==> a == b)
  }

  // ---- Volume snapshots ----

  /** A snapshot as Cinder lists it. */
  datatype Snapshot = Snapshot(id: string, projectId: string, volumeId: string, volumeName: Option<string>)

  datatype Child = Child(volumeId: string, volumeName: string)

  datatype SnapshotView = SnapshotView(
    snapshot: Snapshot, projectName: Option<string>, volumeName: Option<string>, host: Option<string>, children: seq<Child>)

  /** Exactly the volumes created from the snapshot, each once. */
  ghost predicate AreChildren(inventory: set<Item>, snapshotId: string, children: seq<Child>) {
    && NoDuplicates(children)
    && (forall c :: c in children <==>
          exists v :: AsVolume(v) in inventory && v.snapshotId == Some(snapshotId) && c == Child(v.id, v.name))
  }

  /** The name, and for an administrator the host, of the volume the snapshot was taken of, if it still exists. */
  ghost predicate DescribesVolume(inventory: set<Item>, allProjects: bool, s: Snapshot, view: SnapshotView) {
    && (forall v :: AsVolume(v) in inventory && v.id == s.volumeId ==>
          view.volumeName == Some(v.name) && view.host == if allProjects then v.host else None)
    && ((forall v :: AsVolume(v) in inventory ==> v.id != s.volumeId) ==> view.volumeName == s.volumeName && view.host == None)
  }

  /** What the view of a snapshot must be, said by a lookup in the whole inventory. */
  ghost predicate Describes(inventory: set<Item>, projects: seq<Project>, allProjects: bool, s: Snapshot, view: SnapshotView) {
    && view.snapshot == s
    && view.projectName == (if allProjects then NameOf(projects, s.projectId) else None)
    && DescribesVolume(inventory, allProjects, s, view)
    && AreChildren(inventory, s.id, view.children)
  }

  function ChildrenIn(volumes: seq<Item>, snapshotId: Option<string>): seq<Child> {
    if volumes == [] then []
    else
      var front, last := volumes[..|volumes| - 1], volumes[|volumes| - 1];
      ChildrenIn(front, snapshotId)
      + (if last.AsVolume? && last.volume.snapshotId == snapshotId then [Child(last.volume.id, last.volume.name)] else [])
  }

  lemma {:induction false} ChildrenOnce(volumes: seq<Item>, snapshotId: Option<string>)
    requires NoDuplicates(volumes) && UniqueIds(set item | item in volumes)
    ensures NoDuplicates(ChildrenIn(volumes, snapshotId))
    ensures forall c :: c in ChildrenIn(volumes, snapshotId) <==>
              exists v :: AsVolume(v) in volumes && v.snapshotId == snapshotId && c == Child(v.id, v.name)
  {
    if volumes != [] {
      var front, last := volumes[..|volumes| - 1], volumes[|volumes| - 1];
      assert volumes == front + [last];
      ChildrenOnce(front, snapshotId);
      if last.AsVolume? && last.volume.snapshotId == snapshotId {
        assert Child(last.volume.id, last.volume.name) !in ChildrenIn(front, snapshotId);
      }
    }
  }

  /** The children keep the order in which their volumes were fetched. */
  lemma {:induction false} ChildrenInOrder(first: seq<Item>, second: seq<Item>, snapshotId: Option<string>)
    ensures ChildrenIn(first + second, snapshotId) == ChildrenIn(first, snapshotId) + ChildrenIn(second, snapshotId)
  {
    if second == [] {
      assert first + second == first;
    } else {
      var n := |second| - 1;
      assert (first + second)[..|first| + n] == first + second[..n];
      ChildrenInOrder(first, second[..n], snapshotId);
    }
  }

  lemma OneChild(v: Volume, snapshotId: Option<string>)
    ensures ChildrenIn([AsVolume(v)], snapshotId) == if v.snapshotId == snapshotId then [Child(v.id, v.name)] else []
  {
    assert [AsVolume(v)][..0] == [];
  }

  type VolumeIndex = map<string, (string, Option<string>)>

  type ChildIndex = map<Option<string>, seq<Child>>

  method GroupBySnapshot(volumes: seq<Item>) returns (children: ChildIndex)
    ensures forall sid :: (if sid in children then children[sid] else []) == ChildrenIn(volumes, sid)
  {
    children := map[];
    for i := 0 to |volumes|
      invariant forall sid :: (if sid in children then children[sid] else []) == ChildrenIn(volumes[..i], sid)
    {
      assert volumes[..i + 1][..i] == volumes[..i];
      if volumes[i].AsVolume? {
        var v := volumes[i].volume;
        if v.snapshotId !in children {
          children := children[v.snapshotId := []];
        }
        children := children[v.snapshotId := children[v.snapshotId] + [Child(v.id, v.name)]];
      }
    }
    assert volumes[..|volumes|] == volumes;
  }

  method IndexVolumes(volumes: seq<Item>) returns (index: VolumeIndex)
    requires UniqueIds(set item | item in volumes)
    ensures forall v :: AsVolume(v) in volumes ==> v.id in index && index[v.id] == (v.name, v.host)
    ensures forall id :: id in index ==> exists v :: AsVolume(v) in volumes && v.id == id
  {
    index := map[];
    for i := 0 to |volumes|
      invariant forall v :: AsVolume(v) in volumes[..i] ==> v.id in index && index[v.id] == (v.name, v.host)
      invariant forall id :: id in index ==> exists v :: AsVolume(v) in volumes[..i] && v.id == id
    {
      assert volumes[i] in volumes && volumes[..i + 1] == volumes[..i] + [volumes[i]];
      if volumes[i].AsVolume? {
        var v := volumes[i].volume;
        index := index[v.id := (v.name, v.host)];
      }
    }
    assert volumes[..|volumes|] == volumes;
  }

  /** The body of the last loop of `list_volume_snapshots`. */
  method EnrichSnapshot(s: Snapshot, names: map<string, string>, index: VolumeIndex, children: ChildIndex, allProjects: bool)
    returns (view: SnapshotView)
    ensures view.snapshot == s
    ensures view.projectName == if s.projectId in names then Some(names[s.projectId]) else None
    ensures s.volumeId in index ==>
              view.volumeName == Some(index[s.volumeId].0) && view.host == if allProjects then index[s.volumeId].1 else None
    ensures s.volumeId !in index ==> view.volumeName == s.volumeName && view.host == None
    ensures view.children == if Some(s.id) in children then children[Some(s.id)] else []
  {
    view := SnapshotView(s, if s.projectId in names then Some(names[s.projectId]) else None, s.volumeName, None, []);
    if s.volumeId in index {
      view := view.(volumeName := Some(index[s.volumeId].0), host := if allProjects then index[s.volumeId].1 else None);
    }
    view := view.(children := if Some(s.id) in children then children[Some(s.id)] else []);
  }

  lemma ChildrenFromSlices(inventory: set<Item>, descendants: seq<Item>, snapshotIds: seq<string>, sid: string)
    requires UniqueIds(inventory) && NoDuplicates(descendants) && sid in snapshotIds
    requires forall item :: item in descendants <==> item in inventory && Matches(SourceSnapshot, snapshotIds, item)
    ensures AreChildren(inventory, sid, ChildrenIn(descendants, Some(sid)))
  {
    ChildrenOnce(descendants, Some(sid));
    forall v | AsVolume(v) in inventory && v.snapshotId == Some(sid) ensures AsVolume(v) in descendants {
      assert Matches(SourceSnapshot, snapshotIds, AsVolume(v));
    }
  }

  /** The index answers for this volume id what the whole inventory would. */
  ghost predicate Knows(inventory: set<Item>, index: VolumeIndex, id: string) {
    && (forall v :: AsVolume(v) in inventory && v.id == id ==> id in index && index[id] == (v.name, v.host))
    && (id in index ==> exists v :: AsVolume(v) in inventory && v.id == id)
  }

  method IndexVolumesOf(inventory: set<Item>, snapshots: seq<Snapshot>, step: nat) returns (index: VolumeIndex)
    requires step > 0 && UniqueIds(inventory)
    ensures forall s :: s in snapshots ==> Knows(inventory, index, s.volumeId)
  {
    var volumeIds := seq(|snapshots|, i requires 0 <= i < |snapshots| => snapshots[i].volumeId);
    var distinctIds := Distinct(volumeIds);
    var volumes := FetchInSlices(inventory, VolumeId, distinctIds, step);
    index := IndexVolumes(volumes);
    forall s | s in snapshots ensures Knows(inventory, index, s.volumeId) {
      var i :| 0 <= i < |snapshots| && snapshots[i] == s;
      assert volumeIds[i] in distinctIds;
      forall v | AsVolume(v) in inventory && v.id == s.volumeId ensures AsVolume(v) in volumes {
        assert Matches(VolumeId, distinctIds, AsVolume(v));
      }
    }
  }

  method IndexChildrenOf(inventory: set<Item>, snapshots: seq<Snapshot>, step: nat) returns (children: ChildIndex)
    requires step > 0 && UniqueIds(inventory)
    requires forall i, j :: 0 <= i < j < |snapshots| ==> snapshots[i].id != snapshots[j].id
    ensures forall s :: s in snapshots ==> AreChildren(inventory, s.id, if Some(s.id) in children then children[Some(s.id)] else [])
  {
    var snapshotIds := seq(|snapshots|, i requires 0 <= i < |snapshots| => snapshots[i].id);
    var descendants := FetchInSlices(inventory, SourceSnapshot, snapshotIds, step);
    children := GroupBySnapshot(descendants);
    forall s | s in snapshots ensures AreChildren(inventory, s.id, ChildrenIn(descendants, Some(s.id))) {
      var i :| 0 <= i < |snapshots| && snapshots[i] == s;
      assert snapshotIds[i] in snapshotIds;
      ChildrenFromSlices(inventory, descendants, snapshotIds, s.id);
    }
  }

  /** The enrichment half of `list_volume_snapshots`. */
  method ListVolumeSnapshots(
    inventory: set<Item>, snapshots: seq<Snapshot>, projects: seq<Project>, allProjects: bool, step: nat)
    returns (views: seq<SnapshotView>)
    requires step > 0 && UniqueIds(inventory)
    requires forall i, j :: 0 <= i < j < |snapshots| ==> snapshots[i].id != snapshots[j].id
    ensures |views| == |snapshots|
    ensures forall i :: 0 <= i < |snapshots| ==> Describes(inventory, projects, allProjects, snapshots[i], views[i])
  {
    var index := IndexVolumesOf(inventory, snapshots, step);
    var children := IndexChildrenOf(inventory, snapshots, step);
    var names: map<string, string> := map[];
    if allProjects {
      names := ProjectNames(projects);
    }
    views := [];
    for i := 0 to |snapshots|
      invariant |views| == i
      invariant forall j :: 0 <= j < i ==> Describes(inventory, projects, allProjects, snapshots[j], views[j])
    {
      assert snapshots[i] in snapshots;
      var view := EnrichSnapshot(snapshots[i], names, index, children, allProjects);
      views := views + [view];
    }
  }

  lemma {:induction false} CountOne<T>(s: seq<T>, x: T)
    requires NoDuplicates(s)
    ensures multiset(s)[x] == if x in s then 1 else 0
  {
    if s != [] {
      assert s == s[..|s| - 1] + [s[|s| - 1]];
      CountOne(s[..|s| - 1], x);
    }
  }

  lemma NoDuplicatesSameElements<T>(a: seq<T>, b: seq<T>)
    requires NoDuplicates(a) && NoDuplicates(b)
    requires forall x :: x in a <==> x in b
    ensures multiset(a) == multiset(b)
  {
    forall x | x in multiset(a) + multiset(b) ensures multiset(a)[x] == multiset(b)[x] {
      CountOne(a, x);
      CountOne(b, x);
    }
  }

  /** The description leaves nothing open but the order of the children. */
  lemma SnapshotViewIsUnique(inventory: set<Item>, projects: seq<Project>, allProjects: bool, s: Snapshot, a: SnapshotView, b: SnapshotView)
    requires Describes(inventory, projects, allProjects, s, a) && Describes(inventory, projects, allProjects, s, b)
    ensures a.(children := []) == b.(children := []) && multiset(a.children) == multiset(b.children)
  {
    NoDuplicatesSameElements(a.children, b.children);
  }

  // ---- Servers ----

  /** A server as Nova lists it. `image` is `None` for a server booted from a volume. */
  datatype Server = Server(id: string, projectId: string, host: Option<string>, image: Option<string>, volumesAttached: seq<string>)

  datatype ServerView = ServerView(
    server: Server, host: Option<string>, projectName: Option<string>,
    image: Option<string>, imageName: Option<string>, imageOsDistro: Option<string>)

  predicate HasImage(s: Server) {
    s.image.Some? && s.image.value != ""
  }

  /** The ids that the first loop of `list_servers` collects. */
  ghost function WantedVolumes(servers: seq<Server>): set<string> {
    set i, x | 0 <= i < |servers| && x in servers[i].volumesAttached :: x
  }

  ghost function WantedImages(servers: seq<Server>): set<string> {
    set i | 0 <= i < |servers| && HasImage(servers[i]) :: servers[i].image.value
  }

  /** A volume whose image metadata speaks for the server: fetched, described, and attached to it. */
  ghost predicate SpeaksFor(inventory: set<Item>, servers: seq<Server>, v: Volume, serverId: string) {
    && AsVolume(v) in inventory && v.imageMeta.Some? && serverId in v.attachedTo
    && exists s :: s in servers && v.id in s.volumesAttached
  }

  ghost predicate ImageFromVolume(view: ServerView, meta: ImageMeta) {
    view.image == meta.imageId && view.imageName == meta.imageName && view.imageOsDistro == meta.osDistro
  }

  /** Volume metadata first, then the image of the server, then nothing. */
  ghost predicate DescribesServer(inventory: set<Item>, servers: seq<Server>, allProjects: bool, s: Server, view: ServerView) {
    && view.server == s
    && view.host == (if allProjects then s.host else None)
    && ((exists v :: SpeaksFor(inventory, servers, v, s.id)) ==>
          exists v :: SpeaksFor(inventory, servers, v, s.id) && ImageFromVolume(view, v.imageMeta.value))
    && ((forall v :: !SpeaksFor(inventory, servers, v, s.id)) ==>
          if s.image.Some? && |s.image.value| > 0 then
            && view.image == s.image
            && (forall i :: AsImage(i) in inventory && i.id == s.image.value ==>
                  view.imageName == Some(i.name) && view.imageOsDistro == i.osDistro)
            && ((forall i :: AsImage(i) in inventory ==> i.id != s.image.value) ==>
                  view.imageName == Some("") && view.imageOsDistro == Some(""))
          else
            view.image == s.image && view.imageName == None && view.imageOsDistro == None)
  }

  type MetaIndex = map<string, ImageMeta>

  /** The metadata that the volumes hold for a server: that of the last attached volume with some. */
  function MetaFor(volumes: seq<Item>, serverId: string): Option<ImageMeta> {
    if volumes == [] then None
    else
      var front, last := volumes[..|volumes| - 1], volumes[|volumes| - 1];
      if last.AsVolume? && last.volume.imageMeta.Some? && serverId in last.volume.attachedTo then last.volume.imageMeta
      else MetaFor(front, serverId)
  }

  /** The image of this id, as name and distribution; among several the last counts. */
  function ImageFor(images: seq<Item>, id: string): Option<(string, Option<string>)> {
    if images == [] then None
    else
      var front, last := images[..|images| - 1], images[|images| - 1];
      if last.AsImage? && last.image.id == id then Some((last.image.name, last.image.osDistro)) else ImageFor(front, id)
  }

  /** The view of a server as the fetched volumes and images make it; the project name comes later. */
  function ServerViewOf(volumes: seq<Item>, images: seq<Item>, allProjects: bool, s: Server): ServerView {
    var host := if allProjects then s.host else None;
    match MetaFor(volumes, s.id)
    case Some(meta) => ServerView(s, host, None, meta.imageId, meta.imageName, meta.osDistro)
    case None =>
      if !HasImage(s) then ServerView(s, host, None, s.image, None, None)
      else match ImageFor(images, s.image.value)
        case Some((name, distro)) => ServerView(s, host, None, s.image, Some(name), distro)
        case None => ServerView(s, host, None, s.image, Some(""), Some(""))
  }

  method AddAttachments(v: Volume, before: MetaIndex) returns (index: MetaIndex)
    ensures forall sid :: v.imageMeta.Some? && sid in v.attachedTo ==> sid in index && index[sid] == v.imageMeta.value
    ensures forall sid :: v.imageMeta.None? || sid !in v.attachedTo ==> (sid in index <==> sid in before)
    ensures forall sid :: (v.imageMeta.None? || sid !in v.attachedTo) && sid in before ==> sid in index && index[sid] == before[sid]
  {
    index := before;
    for j := 0 to |v.attachedTo|
      invariant forall sid :: v.imageMeta.Some? && sid in v.attachedTo[..j] ==> sid in index && index[sid] == v.imageMeta.value
      invariant forall sid :: v.imageMeta.None? || sid !in v.attachedTo[..j] ==> (sid in index <==> sid in before)
      invariant forall sid :: (v.imageMeta.None? || sid !in v.attachedTo[..j]) && sid in before ==> sid in index && index[sid] == before[sid]
    {
      assert v.attachedTo[..j + 1] == v.attachedTo[..j] + [v.attachedTo[j]];
      if v.imageMeta.Some? {
        index := index[v.attachedTo[j] := v.imageMeta.value];
      }
    }
    assert v.attachedTo[..|v.attachedTo|] == v.attachedTo;
  }

  /** The dictionary `ser_image_mappings`: later volumes overwrite earlier ones. */
  method IndexImageMetadata(volumes: seq<Item>) returns (index: MetaIndex)
    ensures forall sid :: MetaFor(volumes, sid) == if sid in index then Some(index[sid]) else None
  {
    index := map[];
    for i := 0 to |volumes|
      invariant forall sid :: MetaFor(volumes[..i], sid) == if sid in index then Some(index[sid]) else None
    {
      assert volumes[..i + 1][..i] == volumes[..i];
      if volumes[i].AsVolume? {
        index := AddAttachments(volumes[i].volume, index);
      }
    }
    assert volumes[..|volumes|] == volumes;
  }

  type ImageIndex = map<string, (string, Option<string>)>

  method IndexImages(images: seq<Item>) returns (index: ImageIndex)
    ensures forall id :: ImageFor(images, id) == if id in index then Some(index[id]) else None
  {
    index := map[];
    for k := 0 to |images|
      invariant forall id :: ImageFor(images[..k], id) == if id in index then Some(index[id]) else None
    {
      assert images[..k + 1][..k] == images[..k];
      if images[k].AsImage? {
        index := index[images[k].image.id := (images[k].image.name, images[k].image.osDistro)];
      }
    }
    assert images[..|images|] == images;
  }

  /** The ids the first loop of `list_servers` collects. */
  method CollectIds(servers: seq<Server>) returns (imageIds: seq<string>, volumeIds: seq<string>)
    ensures forall x :: x in imageIds <==> x in WantedImages(servers)
    ensures forall x :: x in volumeIds <==> x in WantedVolumes(servers)
  {
    imageIds, volumeIds := [], [];
    for k := 0 to |servers|
      invariant forall x :: x in imageIds <==> exists i :: 0 <= i < k && HasImage(servers[i]) && servers[i].image.value == x
      invariant forall x :: x in volumeIds <==> exists i :: 0 <= i < k && x in servers[i].volumesAttached
    {
      if HasImage(servers[k]) {
        imageIds := imageIds + [servers[k].image.value];
      }
      volumeIds := volumeIds + servers[k].volumesAttached;
    }
  }

  /** The body of the enrichment loop of `list_servers`. */
  method EnrichServer(s: Server, metas: MetaIndex, images: ImageIndex, allProjects: bool) returns (view: ServerView)
    ensures view.server == s && view.host == (if allProjects then s.host else None) && view.projectName == None
    ensures s.id in metas ==> ImageFromVolume(view, metas[s.id])
    ensures s.id !in metas ==> view.image == s.image
    ensures s.id !in metas && !HasImage(s) ==> view.imageName == None && view.imageOsDistro == None
    ensures s.id !in metas && HasImage(s) && s.image.value in images ==>
              view.imageName == Some(images[s.image.value].0) && view.imageOsDistro == images[s.image.value].1
    ensures s.id !in metas && HasImage(s) && s.image.value !in images ==> view.imageName == Some("") && view.imageOsDistro == Some("")
  {
    view := ServerView(s, if allProjects then s.host else None, None, s.image, None, None);
    if s.id in metas {
      var meta := metas[s.id];
      view := view.(image := meta.imageId, imageName := meta.imageName, imageOsDistro := meta.osDistro);
    } else if HasImage(s) {
      if s.image.value in images {
        view := view.(imageName := Some(images[s.image.value].0), imageOsDistro := images[s.image.value].1);
      } else {
        view := view.(imageName := Some(""), imageOsDistro := Some(""));
      }
    }
  }

  /** What the endpoint may have fetched for a set of ids: in any order of the set, slice by slice, in any answer order. */
  ghost predicate Fetched(inventory: set<Item>, field: Field, wanted: set<string>, step: nat, all: seq<Item>)
    requires step > 0
  {
    exists ids :: NoDuplicates(ids) && (forall x :: x in ids <==> x in wanted) && Sliced(inventory, field, ids, step, all)
  }

  ghost predicate FetchedFor(inventory: set<Item>, servers: seq<Server>, step: nat, volumes: seq<Item>, images: seq<Item>)
    requires step > 0
  {
    && Fetched(inventory, VolumeId, WantedVolumes(servers), step, volumes)
    && Fetched(inventory, ImageId, WantedImages(servers), step, images)
  }

  method FetchWanted(inventory: set<Item>, field: Field, collected: seq<string>, step: nat, ghost wanted: set<string>)
    returns (all: seq<Item>)
    requires step > 0 && forall x :: x in collected <==> x in wanted
    ensures Fetched(inventory, field, wanted, step, all)
  {
    var ids := Distinct(collected);
    all := FetchInSlices(inventory, field, ids, step);
  }

  method EnrichServers(inventory: set<Item>, servers: seq<Server>, allProjects: bool, step: nat)
    returns (views: seq<ServerView>, ghost volumes: seq<Item>, ghost images: seq<Item>)
    requires step > 0
    ensures FetchedFor(inventory, servers, step, volumes, images)
    ensures |views| == |servers|
    ensures forall i :: 0 <= i < |servers| ==> views[i] == ServerViewOf(volumes, images, allProjects, servers[i])
  {
    var imageIds, volumeIds := CollectIds(servers);
    var fetchedImages := FetchWanted(inventory, ImageId, imageIds, step, WantedImages(servers));
    var imageIndex := IndexImages(fetchedImages);
    var fetchedVolumes := FetchWanted(inventory, VolumeId, volumeIds, step, WantedVolumes(servers));
    var metas := IndexImageMetadata(fetchedVolumes);
    volumes, images := fetchedVolumes, fetchedImages;
    views := [];
    for i := 0 to |servers|
      invariant |views| == i
      invariant forall j :: 0 <= j < i ==> views[j] == ServerViewOf(volumes, images, allProjects, servers[j])
    {
      var view := EnrichServer(servers[i], metas, imageIndex, allProjects);
      views := views + [view];
    }
  }

  // What the fetched volumes and images say is what the whole inventory says.

  lemma {:induction false} MetaForSpec(volumes: seq<Item>, sid: string)
    ensures MetaFor(volumes, sid).Some? ==>
              exists v :: AsVolume(v) in volumes && sid in v.attachedTo && v.imageMeta == MetaFor(volumes, sid)
    ensures MetaFor(volumes, sid).None? ==> forall v :: AsVolume(v) in volumes && sid in v.attachedTo ==> v.imageMeta.None?
  {
    if volumes != [] {
      var front, last := volumes[..|volumes| - 1], volumes[|volumes| - 1];
      assert volumes == front + [last];
      MetaForSpec(front, sid);
      if last.AsVolume? && last.volume.imageMeta.Some? && sid in last.volume.attachedTo {
        assert AsVolume(last.volume) in volumes;
      }
    }
  }

  lemma {:induction false} ImageForSpec(images: seq<Item>, id: string)
    ensures ImageFor(images, id).Some? ==>
              exists i :: AsImage(i) in images && i.id == id && ImageFor(images, id) == Some((i.name, i.osDistro))
    ensures ImageFor(images, id).None? ==> forall i :: AsImage(i) in images ==> i.id != id
  {
    if images != [] {
      var front, last := images[..|images| - 1], images[|images| - 1];
      assert images == front + [last];
      ImageForSpec(front, id);
      if last.AsImage? && last.image.id == id {
        assert AsImage(last.image) in images;
      }
    }
  }

  lemma FetchedIsExact(inventory: set<Item>, field: Field, wanted: set<string>, step: nat, all: seq<Item>)
    requires step > 0 && Fetched(inventory, field, wanted, step, all)
    ensures forall item :: item in all <==> item in inventory && Key(field, item).Some? && Key(field, item).value in wanted
  {
    var ids :| NoDuplicates(ids) && (forall x :: x in ids <==> x in wanted) && Sliced(inventory, field, ids, step, all);
    SlicedIsExact(inventory, field, ids, step, all);
  }

  lemma MetaFromInventory(inventory: set<Item>, servers: seq<Server>, step: nat, volumes: seq<Item>, sid: string)
    requires step > 0 && Fetched(inventory, VolumeId, WantedVolumes(servers), step, volumes)
    ensures MetaFor(volumes, sid).Some? ==> exists v :: SpeaksFor(inventory, servers, v, sid) && v.imageMeta == MetaFor(volumes, sid)
    ensures MetaFor(volumes, sid).None? ==> forall v :: !SpeaksFor(inventory, servers, v, sid)
  {
    FetchedIsExact(inventory, VolumeId, WantedVolumes(servers), step, volumes);
    MetaForSpec(volumes, sid);
    if MetaFor(volumes, sid).Some? {
      var v :| AsVolume(v) in volumes && sid in v.attachedTo && v.imageMeta == MetaFor(volumes, sid);
      assert Key(VolumeId, AsVolume(v)) == Some(v.id);
      assert SpeaksFor(inventory, servers, v, sid);
    }
    forall v | SpeaksFor(inventory, servers, v, sid) ensures AsVolume(v) in volumes {
      assert Key(VolumeId, AsVolume(v)) == Some(v.id);
    }
  }

  lemma ImageFromInventory(inventory: set<Item>, servers: seq<Server>, step: nat, images: seq<Item>, s: Server)
    requires step > 0 && UniqueIds(inventory) && Fetched(inventory, ImageId, WantedImages(servers), step, images)
    requires s in servers && HasImage(s)
    ensures forall i :: AsImage(i) in inventory && i.id == s.image.value ==>
              ImageFor(images, s.image.value) == Some((i.name, i.osDistro))
    ensures (forall i :: AsImage(i) in inventory ==> i.id != s.image.value) ==> ImageFor(images, s.image.value).None?
  {
    FetchedIsExact(inventory, ImageId, WantedImages(servers), step, images);
    ImageForSpec(images, s.image.value);
    forall i | AsImage(i) in inventory && i.id == s.image.value ensures AsImage(i) in images {
      assert Key(ImageId, AsImage(i)) == Some(i.id);
    }
  }

  /** Whatever was fetched, in whatever order, the view of a server is one that the inventory describes. */
  lemma ServerViewIsDescribed(
    inventory: set<Item>, servers: seq<Server>, allProjects: bool, step: nat, volumes: seq<Item>, images: seq<Item>, s: Server)
    requires step > 0 && UniqueIds(inventory) && FetchedFor(inventory, servers, step, volumes, images) && s in servers
    ensures DescribesServer(inventory, servers, allProjects, s, ServerViewOf(volumes, images, allProjects, s))
  {
    MetaFromInventory(inventory, servers, step, volumes, s.id);
    if HasImage(s) {
      ImageFromInventory(inventory, servers, step, images, s);
    }
  }

  /** The enrichment half of `list_servers`; `None` stands for the KeyError of an unknown project. */
  method ListServers(inventory: set<Item>, servers: seq<Server>, projects: seq<Project>, allProjects: bool, step: nat)
    returns (result: Option<seq<ServerView>>, ghost volumes: seq<Item>, ghost images: seq<Item>)
    requires step > 0 && UniqueIds(inventory)
    ensures FetchedFor(inventory, servers, step, volumes, images)
    ensures result.None? <==> allProjects && exists i :: 0 <= i < |servers| && NameOf(projects, servers[i].projectId).None?
    ensures result.Some? ==> |result.value| == |servers|
    ensures result.Some? ==> forall i :: 0 <= i < |servers| ==>
              && result.value[i].(projectName := None) == ServerViewOf(volumes, images, allProjects, servers[i])
              && result.value[i].projectName == (if allProjects then NameOf(projects, servers[i].projectId) else None)
              && DescribesServer(inventory, servers, allProjects, servers[i], result.value[i])
  {
    var views;
    views, volumes, images := EnrichServers(inventory, servers, allProjects, step);
    forall i | 0 <= i < |servers| ensures DescribesServer(inventory, servers, allProjects, servers[i], views[i]) {
      assert servers[i] in servers;
      ServerViewIsDescribed(inventory, servers, allProjects, step, volumes, images, servers[i]);
    }
    if allProjects {
      var names := ProjectNames(projects);
      ghost var plain := views;
      for i := 0 to |servers|
        invariant |views| == |servers|
        invariant forall j :: 0 <= j < i ==>
          views[j] == plain[j].(projectName := NameOf(projects, servers[j].projectId)) && views[j].projectName.Some?
        invariant forall j :: i <= j < |servers| ==> views[j] == plain[j]
      {
        if servers[i].projectId !in names {
          result := None;
          return;
        }
        views := views[i := views[i].(projectName := Some(names[servers[i].projectId]))];
      }
    }
    result := Some(views);
  }

  // ---- When the order shows ----

  /** No set order, slicing or answer order changes what the endpoint makes of the server. */
  ghost predicate OrderIsUnobservable(inventory: set<Item>, servers: seq<Server>, allProjects: bool, step: nat, s: Server)
    requires step > 0
  {
    forall volumes, images, otherVolumes, otherImages ::
      FetchedFor(inventory, servers, step, volumes, images) && FetchedFor(inventory, servers, step, otherVolumes, otherImages)
      ==> ServerViewOf(volumes, images, allProjects, s) == ServerViewOf(otherVolumes, otherImages, allProjects, s)
  }

  lemma SomeAnswer(inventory: set<Item>, field: Field, ids: seq<string>) returns (found: seq<Item>)
    ensures Answers(inventory, field, ids, found)
    decreases inventory
  {
    found := [];
    if inventory != {} {
      var item :| item in inventory;
      found := SomeAnswer(inventory - {item}, field, ids);
      if Matches(field, ids, item) {
        found := found + [item];
      }
    }
  }

  lemma SomeSlices(inventory: set<Item>, field: Field, ids: seq<string>, step: nat) returns (all: seq<Item>)
    requires step > 0
    ensures Sliced(inventory, field, ids, step, all)
    decreases |ids|
  {
    all := [];
    if ids != [] {
      var end := if step < |ids| then step else |ids|;
      var batch := SomeAnswer(inventory, field, ids[..end]);
      var rest := SomeSlices(inventory, field, ids[end..], step);
      OneMoreSlice(inventory, field, ids, step, batch, rest);
      all := batch + rest;
    }
  }

  /** A service may answer the last slice with the item of the last id at the end. */
  lemma SlicesEndingWith(inventory: set<Item>, field: Field, ids: seq<string>, step: nat, item: Item) returns (all: seq<Item>)
    requires step > 0 && item in inventory && ids != [] && Key(field, item) == Some(ids[|ids| - 1])
    ensures Sliced(inventory, field, ids, step, all) && all != [] && all[|all| - 1] == item
    decreases |ids|
  {
    var end := if step < |ids| then step else |ids|;
    var batch, rest;
    if end == |ids| {
      var others := SomeAnswer(inventory - {item}, field, ids);
      batch, rest := others + [item], [];
      assert ids[..end] == ids && ids[|ids| - 1] in ids;
    } else {
      batch := SomeAnswer(inventory, field, ids[..end]);
      rest := SlicesEndingWith(inventory, field, ids[end..], step, item);
    }
    OneMoreSlice(inventory, field, ids, step, batch, rest);
    all := batch + rest;
  }

  lemma SomeOrder(wanted: set<string>) returns (ids: seq<string>)
    ensures NoDuplicates(ids) && forall x :: x in ids <==> x in wanted
  {
    ids := [];
    if wanted != {} {
      var x :| x in wanted;
      ids := SomeOrder(wanted - {x});
      ids := ids + [x];
    }
  }

  lemma FetchEndingWith(inventory: set<Item>, servers: seq<Server>, step: nat, v: Volume) returns (volumes: seq<Item>)
    requires step > 0 && AsVolume(v) in inventory && v.id in WantedVolumes(servers)
    ensures Fetched(inventory, VolumeId, WantedVolumes(servers), step, volumes)
    ensures volumes != [] && volumes[|volumes| - 1] == AsVolume(v)
  {
    var ids := SomeOrder(WantedVolumes(servers) - {v.id});
    volumes := SlicesEndingWith(inventory, VolumeId, ids + [v.id], step, AsVolume(v));
    assert NoDuplicates(ids + [v.id]) && forall x :: x in ids + [v.id] <==> x in WantedVolumes(servers);
  }

  /** If two volumes speak differently for the server, two answer orders make two different views of it. */
  lemma TwoOrdersTwoViews(
    inventory: set<Item>, servers: seq<Server>, allProjects: bool, step: nat, s: Server, v: Volume, w: Volume)
    returns (volumes: seq<Item>, otherVolumes: seq<Item>, images: seq<Item>)
    requires step > 0 && SpeaksFor(inventory, servers, v, s.id) && SpeaksFor(inventory, servers, w, s.id) && v.imageMeta != w.imageMeta
    ensures FetchedFor(inventory, servers, step, volumes, images) && FetchedFor(inventory, servers, step, otherVolumes, images)
    ensures ServerViewOf(volumes, images, allProjects, s) != ServerViewOf(otherVolumes, images, allProjects, s)
  {
    volumes := FetchEndingWith(inventory, servers, step, v);
    otherVolumes := FetchEndingWith(inventory, servers, step, w);
    var ids := SomeOrder(WantedImages(servers));
    images := SomeSlices(inventory, ImageId, ids, step);
    assert MetaFor(volumes, s.id) == v.imageMeta && MetaFor(otherVolumes, s.id) == w.imageMeta;
  }

  lemma AgreementHidesOrder(
    inventory: set<Item>, servers: seq<Server>, allProjects: bool, step: nat, s: Server,
    volumes: seq<Item>, images: seq<Item>, otherVolumes: seq<Item>, otherImages: seq<Item>)
    requires step > 0 && UniqueIds(inventory) && s in servers
    requires forall v, w :: SpeaksFor(inventory, servers, v, s.id) && SpeaksFor(inventory, servers, w, s.id) ==> v.imageMeta == w.imageMeta
    requires FetchedFor(inventory, servers, step, volumes, images) && FetchedFor(inventory, servers, step, otherVolumes, otherImages)
    ensures ServerViewOf(volumes, images, allProjects, s) == ServerViewOf(otherVolumes, otherImages, allProjects, s)
  {
    MetaFromInventory(inventory, servers, step, volumes, s.id);
    MetaFromInventory(inventory, servers, step, otherVolumes, s.id);
    if HasImage(s) {
      ImageFromInventory(inventory, servers, step, images, s);
      ImageFromInventory(inventory, servers, step, otherImages, s);
    }
  }

  /**
   What the endpoint makes of a server is independent of set order, slicing and answer order exactly
   when all the volumes that speak for the server carry the same metadata.
   */
  lemma ServerViewIsDeterminedIff(inventory: set<Item>, servers: seq<Server>, allProjects: bool, step: nat, s: Server)
    requires step > 0 && UniqueIds(inventory) && s in servers
    ensures OrderIsUnobservable(inventory, servers, allProjects, step, s) <==>
            forall v, w :: SpeaksFor(inventory, servers, v, s.id) && SpeaksFor(inventory, servers, w, s.id) ==> v.imageMeta == w.imageMeta
  {
    if v, w :| SpeaksFor(inventory, servers, v, s.id) && SpeaksFor(inventory, servers, w, s.id) && v.imageMeta != w.imageMeta {
      var volumes, otherVolumes, images := TwoOrdersTwoViews(inventory, servers, allProjects, step, s, v, w);
    } else {
      forall volumes, images, otherVolumes, otherImages |
        FetchedFor(inventory, servers, step, volumes, images) && FetchedFor(inventory, servers, step, otherVolumes, otherImages)
        ensures ServerViewOf(volumes, images, allProjects, s) == ServerViewOf(otherVolumes, otherImages, allProjects, s)
      {
        AgreementHidesOrder(inventory, servers, allProjects, step, s, volumes, images, otherVolumes, otherImages);
      }
    }
  }
}
