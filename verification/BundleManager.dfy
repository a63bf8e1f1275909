/** The bundle manager: `backup` and `restore` as the source performs them, with
    their dictionaries and loops, proved against modules Bundles and RoundTrip. */
module BundleManagers {
  import opened Forest
  import opened Layout
  import opened Layers
  import opened Store
  import opened Names
  import opened DiskStores
  import opened Bundles
  import opened RoundTrip
  import opened RestoreLaws

  // ---- the ancestor walk ------------------------------------------------------------

  /** A snapshot's chain is the snapshot and its parent's chain. */
  lemma IncludedUnfolds(fs: Files, vm: string, disk: string, n: string)
    requires IsForest(TreeOf(fs, vm, disk)) && Snap(vm, disk, n) in fs
    ensures var parent := ParentName(fs, vm, disk, n);
            if parent.Some? && Snap(vm, disk, parent.value) in fs then
              && Included(fs, vm, disk, Some(n)) == {n} + Included(fs, vm, disk, parent)
              && |Lineage(TreeOf(fs, vm, disk), parent.value)| < |Lineage(TreeOf(fs, vm, disk), n)|
            else Included(fs, vm, disk, Some(n)) == {n}
  {
    Unfold(TreeOf(fs, vm, disk), n);
  }

  /** The rows of a listing, as a dictionary by name. */
  ghost predicate RowsOf(fs: Files, vm: string, disk: string, snaps: map<string, Snapshot>) {
    && (forall n :: n in snaps <==> Snap(vm, disk, n) in fs)
    && (forall n :: n in snaps ==> snaps[n].path == Snap(vm, disk, n) && snaps[n].parent == ParentName(fs, vm, disk, n))
  }

  lemma AllIncluded(fs: Files, vm: string, disk: string, snaps: map<string, Snapshot>)
    requires RowsOf(fs, vm, disk, snaps)
    ensures snaps.Keys == Included(fs, vm, disk, None)
  {
  }

  /** What collecting one disk comes to. */
  ghost predicate Collected(h: Probe, fs: Files, vm: string, disk: string, snapshot: Option<string>,
                            sources: map<Arc, Path>, images: map<string, Path>,
                            r: Result<(Section, map<Arc, Path>, map<string, Path>)>)
    requires Active(vm, disk) in fs
  {
    match Gather(fs, LayersOf(fs, vm, disk, snapshot), images)
    case None => r == Failure(InvalidState)
    case Some(all) =>
      r == Success((SectionOf(h, fs, vm, disk, snapshot), AddSources(sources, LayersOf(fs, vm, disk, snapshot)), all))
  }

  predicate RecIs(h: Probe, fs: Files, vm: string, disk: string, n: string, r: SnapRec) {
    Snap(vm, disk, n) in fs && r == SnapRec(n, Rec(h, fs, Snap(vm, disk, n)), RefOf(fs, vm, disk, Snap(vm, disk, n)))
  }

  lemma CollectedIs(h: Probe, fs: Files, vm: string, disk: string, snapshot: Option<string>,
                    sources: map<Arc, Path>, images: map<string, Path>,
                    r: Result<(Section, map<Arc, Path>, map<string, Path>)>)
    requires Active(vm, disk) in fs && r.Success?
    requires Gather(fs, LayersOf(fs, vm, disk, snapshot), images) == Some(r.value.2)
    requires AddSources(sources, LayersOf(fs, vm, disk, snapshot)) == r.value.1
    requires var s, names := r.value.0, Sorted(Included(fs, vm, disk, snapshot), "");
             && s.active == (if snapshot.None? then Some(ActiveRec(Rec(h, fs, Active(vm, disk)), RefOf(fs, vm, disk, Active(vm, disk)))) else None)
             && s.current == (if snapshot.None? then NameFor(vm, disk, fs[Active(vm, disk)].backing) else snapshot)
             && |s.snapshots| == |names|
             && forall j :: 0 <= j < |names| ==> RecIs(h, fs, vm, disk, names[j], s.snapshots[j])
    ensures Collected(h, fs, vm, disk, snapshot, sources, images, r)
  {
    hide Gather, AddSources, Rec, RefOf, Sorted, LayersOf, Included;
    assert r.value.0.snapshots == SectionOf(h, fs, vm, disk, snapshot).snapshots;
  }

  lemma GatherUnfolds(fs: Files, ls: seq<Path>, i: nat, images: map<string, Path>, sources: map<Arc, Path>)
    requires i < |ls|
    ensures AddSources(sources, ls[i..]) == AddSources(sources[ArcOf(ls[i]) := ls[i]], ls[i + 1..])
    ensures match BaseOf(fs, ls[i])
            case None => Gather(fs, ls[i..], images) == Gather(fs, ls[i + 1..], images)
            case Some(b) =>
              if FileName(b) in images && images[FileName(b)] != b then Gather(fs, ls[i..], images) == None
              else Gather(fs, ls[i..], images) == Gather(fs, ls[i + 1..], images[FileName(b) := b])
  {
    assert ls[i..][0] == ls[i] && ls[i..][1..] == ls[i + 1..];
  }

  lemma ChosenIs(fs: Files, vm: string, snapshot: Option<string>)
    ensures Chosen(fs, vm, snapshot) == AllLayers(fs, vm, Sorted(DiskNames(fs, vm), ""), snapshot)
  {
  }

  lemma GatherEnds(fs: Files, vm: string, snapshot: Option<string>, images: map<string, Path>, sources: map<Arc, Path>)
    ensures AllLayers(fs, vm, [], snapshot) == []
    ensures Gather(fs, [], images) == Some(images) && AddSources(sources, []) == sources
  {
  }

  lemma BackupFails(h: Probe, fs: Files, vm: string, snapshot: Option<string>)
    ensures Gather(fs, Chosen(fs, vm, snapshot), map[]) == None ==> BackupOf(h, fs, vm, snapshot) == None
  {
  }

  lemma BackupSucceeds(h: Probe, fs: Files, vm: string, snapshot: Option<string>, sources: map<Arc, Path>, images: map<string, Path>)
    requires Gather(fs, Chosen(fs, vm, snapshot), map[]) == Some(images)
    requires AddSources(map[], Chosen(fs, vm, snapshot)) == sources
    ensures BackupOf(h, fs, vm, snapshot) ==
            Some(Bundle(Manifest(vm, map d | d in DiskNames(fs, vm) :: SectionOf(h, fs, vm, d, snapshot), ImageRecs(h, fs, images)),
                        Packed(fs, sources + ImageSources(images))))
  {
    hide Gather, AddSources, Chosen, SectionOf, ImageRecs, Packed, ImageSources;
  }

  /** Where every chain is complete, no chosen layer sits on a snapshot left out. */
  lemma ClosedRef(fs: Files, vm: string, disk: string, snapshot: Option<string>, p: Path)
    requires IsForest(Links(fs)) && p in fs && p.OfDisk(vm, disk)
    requires p.Snap? ==> p.name in Included(fs, vm, disk, snapshot)
    requires p.Active? ==> snapshot.None?
    ensures NameFor(vm, disk, fs[p].backing).Some? ==>
              NameFor(vm, disk, fs[p].backing).value in Included(fs, vm, disk, snapshot)
  {
    if fs[p].backing.Some? { IncludedClosed(fs, vm, disk, snapshot, p); }
  }

  /** Collecting disk `i` moves the whole collection one disk on. */
  lemma StepLayers(h: Probe, fs: Files, vm: string, snapshot: Option<string>, disks: seq<string>, i: nat,
                   sources: map<Arc, Path>, images: map<string, Path>,
                   r: Result<(Section, map<Arc, Path>, map<string, Path>)>)
    requires i < |disks| && Active(vm, disks[i]) in fs
    requires Collected(h, fs, vm, disks[i], snapshot, sources, images, r)
    ensures r.Failure? ==> r == Failure(InvalidState) && Gather(fs, AllLayers(fs, vm, disks[i..], snapshot), images) == None
    ensures r.Success? ==>
              && r.value.0 == SectionOf(h, fs, vm, disks[i], snapshot)
              && Gather(fs, AllLayers(fs, vm, disks[i..], snapshot), images) == Gather(fs, AllLayers(fs, vm, disks[i + 1..], snapshot), r.value.2)
              && AddSources(sources, AllLayers(fs, vm, disks[i..], snapshot)) == AddSources(r.value.1, AllLayers(fs, vm, disks[i + 1..], snapshot))
  {
    hide SectionOf, LayersOf, Gather, AddSources;
    var here, rest := LayersOf(fs, vm, disks[i], snapshot), AllLayers(fs, vm, disks[i + 1..], snapshot);
    assert disks[i..][1..] == disks[i + 1..];
    assert AllLayers(fs, vm, disks[i..], snapshot) == here + rest;
    GatherSplits(fs, here, rest, images, sources);
  }

  lemma {:induction false} GatherSplits(fs: Files, a: seq<Path>, b: seq<Path>, images: map<string, Path>, sources: map<Arc, Path>)
    ensures Gather(fs, a + b, images) == match Gather(fs, a, images) case None => None case Some(all) => Gather(fs, b, all)
    ensures AddSources(sources, a + b) == AddSources(AddSources(sources, a), b)
    decreases |a|
  {
    if a == [] {
      assert a + b == b;
    } else {
      assert (a + b)[1..] == a[1..] + b;
      var sources' := sources[ArcOf(a[0]) := a[0]];
      match BaseOf(fs, a[0])
      case None => GatherSplits(fs, a[1..], b, images, sources');
      case Some(x) => GatherSplits(fs, a[1..], b, images[FileName(x) := x], sources');
    }
  }

  function Tried(e: Option<Error>, w: Work): Try {
    match e
    case None => Done(w)
    case Some(err) => Stopped(w, err)
  }

  class BundleManager {
    const store: DiskStore

    constructor (s: DiskStore)
      ensures store == s
    {
      store := s;
    }

    /** The chosen snapshot and its ancestors; the walk ends because every step
        goes one layer down. */
    method WantedChain(vm: string, disk: string, snaps: map<string, Snapshot>, snapshot: string) returns (included: set<string>)
      requires IsForest(TreeOf(store.fs, vm, disk)) && RowsOf(store.fs, vm, disk, snaps) && snapshot in snaps
      ensures included == Included(store.fs, vm, disk, Some(snapshot))
    {
      hide IsForest, Included, TreeOf;
      ghost var fs := store.fs;
      var wanted: seq<string> := [];
      var cursor := Some(snapshot);
      while cursor.Some?
        invariant cursor.Some? ==> cursor.value in snaps
        invariant Included(fs, vm, disk, Some(snapshot)) ==
                  (set n | n in wanted) + if cursor.Some? then Included(fs, vm, disk, cursor) else {}
        decreases if cursor.Some? then 1 + |Lineage(TreeOf(fs, vm, disk), cursor.value)| else 0
      {
        IncludedUnfolds(fs, vm, disk, cursor.value);
        wanted := wanted + [cursor.value];
        cursor := snaps[cursor.value].parent;
        if cursor.Some? && cursor.value !in snaps { break; }
      }
      included := set n | n in wanted;
    }

    /** A layer's logical parent. A snapshot outside `only` is refused, and so are
        two base images with one file name. The first never happens in a backup:
        see ClosedRef. */
    method BackingRef(path: Path, vm: string, disk: string, rows: seq<Snapshot>, images: map<string, Path>, only: set<string>)
      returns (r: Result<(Ref, map<string, Path>)>)
      requires IsForest(Links(store.fs)) && path in store.fs && path.OfDisk(vm, disk) && Active(vm, disk) in store.fs
      requires rows == Listing(store.fs, vm, disk)
      ensures match BaseOf(store.fs, path)
              case None =>
                var parent := NameFor(vm, disk, store.fs[path].backing);
                if parent.Some? && parent.value !in only then r == Failure(InvalidState)
                else r == Success((RefOf(store.fs, vm, disk, path), images))
              case Some(b) =>
                if FileName(b) in images && images[FileName(b)] != b then r == Failure(InvalidState)
                else r == Success((RefOf(store.fs, vm, disk, path), images[FileName(b) := b]))
    {
      hide IsForest, ChildrenIn, Sorted;
      var backing := store.fs[path].backing;
      if backing.None? { return Success((NoParent, images)); }
      ghost var names := Sorted(SnapNames(store.fs, vm, disk), EXT);
      for i := 0 to |rows|
        invariant forall j :: 0 <= j < i ==> backing.value != Snap(vm, disk, names[j])
      {
        if rows[i].path == backing.value {
          if rows[i].name !in only { return Failure(InvalidState); }
          return Success((ToSnapshot(rows[i].name), images));
        }
      }
      ForestRanksDown(Links(store.fs));
      var image := FileName(backing.value);
      if image in images && images[image] != backing.value { return Failure(InvalidState); }
      return Success((ToImage(ArcImage(image)), images[image := backing.value]));
    }

    /** The name of the row marked current, if there is one. */
    method CurrentRow(vm: string, disk: string, rows: seq<Snapshot>) returns (current: Option<string>)
      requires IsForest(Links(store.fs)) && Active(vm, disk) in store.fs && rows == Listing(store.fs, vm, disk)
      ensures current == NameFor(vm, disk, store.fs[Active(vm, disk)].backing)
    {
      hide IsForest, ChildrenIn, Sorted;
      ghost var names := Sorted(SnapNames(store.fs, vm, disk), EXT);
      for i := 0 to |rows|
        invariant forall j :: 0 <= j < i ==> store.fs[Active(vm, disk)].backing != Some(Snap(vm, disk, names[j]))
      {
        if rows[i].current { return Some(rows[i].name); }
      }
      if store.fs[Active(vm, disk)].backing.Some? { ForestRanksDown(Links(store.fs)); }
      return None;
    }

    /** One disk: its section of the manifest, with the archive sources and base
        images it adds. */
    method CollectDisk(h: Probe, vm: string, disk: string, snapshot: Option<string>,
                       sources0: map<Arc, Path>, images0: map<string, Path>)
      returns (r: Result<(Section, map<Arc, Path>, map<string, Path>)>)
      requires IsForest(Links(store.fs)) && WellNamed(store.fs) && Active(vm, disk) in store.fs
      ensures snapshot.Some? && Snap(vm, disk, snapshot.value) !in store.fs ==> r == Failure(NotFound)
      ensures snapshot.Some? ==> Snap(vm, disk, snapshot.value) !in store.fs || Collected(h, store.fs, vm, disk, snapshot, sources0, images0, r)
      ensures snapshot.None? ==> Collected(h, store.fs, vm, disk, snapshot, sources0, images0, r)
    {
      hide IsForest, Sorted, Listing, Gather, AddSources, SectionOf, RefOf, Rec, BaseOf, Row, Collected, TreeOf, Lineage, ValidName, Included, LayersOf;
      TreeOfIsForest(store.fs, vm, disk);
      assert GoodName(Active(vm, disk));
      var list := store.SnapshotList(vm, disk, true);
      var rows := list.value;
      var snaps := ByName(vm, disk, rows);
      var included, current := snaps.Keys, snapshot;
      if snapshot.Some? {
        if snapshot.value !in snaps { return Failure(NotFound); }
        included := WantedChain(vm, disk, snaps, snapshot.value);
      } else {
        current := CurrentRow(vm, disk, rows);
      }
      if snapshot.None? { AllIncluded(store.fs, vm, disk, snaps); }
      r := CollectLayers(h, vm, disk, snapshot, rows, included, current, sources0, images0);
    }

    method ByName(vm: string, disk: string, rows: seq<Snapshot>) returns (snaps: map<string, Snapshot>)
      requires Active(vm, disk) in store.fs && rows == Listing(store.fs, vm, disk)
      ensures RowsOf(store.fs, vm, disk, snaps)
    {
      hide ChildrenIn, Sorted;
      ghost var names := Sorted(SnapNames(store.fs, vm, disk), EXT);
      snaps := map[];
      for i := 0 to |rows|
        invariant forall n :: n in snaps <==> n in names[..i]
        invariant forall n :: n in snaps ==> Snap(vm, disk, n) in store.fs
        invariant forall n :: n in snaps ==>
                    snaps[n].path == Snap(vm, disk, n) && snaps[n].parent == ParentName(store.fs, vm, disk, n)
      {
        assert rows[i].name == names[i];
        snaps := snaps[rows[i].name := rows[i]];
      }
      assert names[..|rows|] == names;
    }

    /** The layers of one disk in name order, then the active overlay. */
    method CollectLayers(h: Probe, vm: string, disk: string, snapshot: Option<string>, rows: seq<Snapshot>,
                         included: set<string>, current: Option<string>,
                         sources0: map<Arc, Path>, images0: map<string, Path>)
      returns (r: Result<(Section, map<Arc, Path>, map<string, Path>)>)
      requires IsForest(Links(store.fs)) && Active(vm, disk) in store.fs && rows == Listing(store.fs, vm, disk)
      requires included == Included(store.fs, vm, disk, snapshot)
      requires current == if snapshot.None? then NameFor(vm, disk, store.fs[Active(vm, disk)].backing) else snapshot
      ensures Collected(h, store.fs, vm, disk, snapshot, sources0, images0, r)
    {
      hide IsForest, Sorted, Listing, Gather, AddSources, RefOf, Rec, BaseOf, Included;
      ghost var fs := store.fs;
      ghost var ls := LayersOf(fs, vm, disk, snapshot);
      var names := Sorted(included, "");
      var sources, images, recs := sources0, images0, [];
      IncludedInFiles(fs, vm, disk, snapshot);
      for i := 0 to |names|
        invariant Gather(fs, ls, images0) == Gather(fs, ls[i..], images)
        invariant AddSources(sources0, ls) == AddSources(sources, ls[i..])
        invariant |recs| == i
        invariant forall j :: 0 <= j < i ==> RecIs(h, fs, vm, disk, names[j], recs[j])
      {
        var path := Snap(vm, disk, names[i]);
        assert names[i] in names && ls[i] == path;
        GatherUnfolds(fs, ls, i, images, sources);
        ClosedRef(fs, vm, disk, snapshot, path);
        sources := sources[ArcOf(path) := path];
        var ref := BackingRef(path, vm, disk, rows, images, included);
        if ref.Failure? { return Failure(ref.error); }
        images := ref.value.1;
        recs := recs + [SnapRec(names[i], Rec(h, store.fs, path), ref.value.0)];
      }
      var active: Option<ActiveRec> := None;
      if snapshot.None? {
        var path := Active(vm, disk);
        assert ls[|names|] == path && ls[|names|..][1..] == [];
        GatherUnfolds(fs, ls, |names|, images, sources);
        ClosedRef(fs, vm, disk, snapshot, path);
        sources := sources[ArcOf(path) := path];
        var ref := BackingRef(path, vm, disk, rows, images, included);
        if ref.Failure? { return Failure(ref.error); }
        images := ref.value.1;
        active := Some(ActiveRec(Rec(h, store.fs, path), ref.value.0));
      }
      GatherEnds(fs, vm, snapshot, images, sources);
      r := Success((Section(active, current, recs), sources, images));
      CollectedIs(h, fs, vm, disk, snapshot, sources0, images0, r);
    }

    /** `backup`. On success the bundle is the one of Bundles.BackupOf, so all
        that RoundTrip proves of it holds. The VM's files do not change. */
    method Backup(h: Probe, vm: string, snapshot: Option<string>, bundleExists: bool) returns (r: Result<Bundle>)
      requires IsForest(Links(store.fs)) && WellNamed(store.fs)
      ensures r == if !ValidName(vm) then Failure(InvalidConfig)
                   else if !VmExists(store.fs, vm) then Failure(NotFound)
                   else if bundleExists then Failure(AlreadyExists)
                   else if DiskNames(store.fs, vm) == {} then Failure(NotFound)
                   else if snapshot.Some? && |DiskNames(store.fs, vm)| > 1 then Failure(InvalidState)
                   else if snapshot.Some? && exists d :: d in DiskNames(store.fs, vm) && Snap(vm, d, snapshot.value) !in store.fs
                   then Failure(NotFound)
                   else match BackupOf(h, store.fs, vm, snapshot)
                     case None => Failure(InvalidState)
                     case Some(b) => Success(b)
    {
      hide IsForest, WellNamed, Sorted, Gather, AddSources, SectionOf, LayersOf, Packed, ImageRecs, ValidName, Collected, ImageSources, AllLayers, Chosen, BackupOf;
      if !ValidName(vm) { return Failure(InvalidConfig); }
      if !VmExists(store.fs, vm) { return Failure(NotFound); }
      if bundleExists { return Failure(AlreadyExists); }
      var disks := Sorted(DiskNames(store.fs, vm), "");
      if |disks| == 0 { assert DiskNames(store.fs, vm) == {}; return Failure(NotFound); }
      assert disks[0] in DiskNames(store.fs, vm);
      if snapshot.Some? && |disks| > 1 { return Failure(InvalidState); }
      ghost var fs := store.fs;
      var all := CollectDisks(h, vm, disks, snapshot);
      ChosenIs(fs, vm, snapshot);
      if all.Failure? {
        BackupFails(h, fs, vm, snapshot);
        return Failure(all.error);
      }
      var (sections, sources, images) := all.value;
      BackupSucceeds(h, fs, vm, snapshot, sources, images);
      assert sections == map d | d in DiskNames(fs, vm) :: SectionOf(h, fs, vm, d, snapshot);
      r := Success(Bundle(Manifest(vm, sections, ImageRecs(h, store.fs, images)),
                          Packed(store.fs, sources + ImageSources(images))));
    }

    /** The loop of `backup` over the disks: what has been collected so far stands
        for the layers of the disks done. */
    method CollectDisks(h: Probe, vm: string, disks: seq<string>, snapshot: Option<string>)
      returns (r: Result<(map<string, Section>, map<Arc, Path>, map<string, Path>)>)
      requires IsForest(Links(store.fs)) && WellNamed(store.fs)
      requires forall d :: d in disks ==> Active(vm, d) in store.fs
      requires snapshot.Some? ==> |disks| <= 1
      ensures r.Success? ==>
                && (forall d :: d in r.value.0 <==> d in disks)
                && (forall d :: d in disks ==> r.value.0[d] == SectionOf(h, store.fs, vm, d, snapshot))
                && (snapshot.Some? ==> forall d :: d in disks ==> Snap(vm, d, snapshot.value) in store.fs)
                && AddSources(map[], AllLayers(store.fs, vm, disks, snapshot)) == r.value.1
                && Gather(store.fs, AllLayers(store.fs, vm, disks, snapshot), map[]) == Some(r.value.2)
      ensures r.Failure? ==>
                if snapshot.Some? && exists d :: d in disks && Snap(vm, d, snapshot.value) !in store.fs
                then r.error == NotFound
                else r.error == InvalidState && Gather(store.fs, AllLayers(store.fs, vm, disks, snapshot), map[]) == None
    {
      hide IsForest, WellNamed, Gather, AddSources, SectionOf, LayersOf, Collected, AllLayers;
      ghost var fs := store.fs;
      var sections, sources, images := map[], map[], map[];
      assert disks[0..] == disks;
      for i := 0 to |disks|
        invariant forall d :: d in sections <==> d in disks[..i]
        invariant forall d :: d in sections ==> d in disks && sections[d] == SectionOf(h, fs, vm, d, snapshot)
        invariant snapshot.Some? ==> forall d :: d in disks[..i] ==> Snap(vm, d, snapshot.value) in fs
        invariant Gather(fs, AllLayers(fs, vm, disks, snapshot), map[]) == Gather(fs, AllLayers(fs, vm, disks[i..], snapshot), images)
        invariant AddSources(map[], AllLayers(fs, vm, disks, snapshot)) == AddSources(sources, AllLayers(fs, vm, disks[i..], snapshot))
      {
        var d := disks[i];
        assert d in disks;
        var one := CollectDisk(h, vm, d, snapshot, sources, images);
        if snapshot.None? || Snap(vm, d, snapshot.value) in fs {
          StepLayers(h, fs, vm, snapshot, disks, i, sources, images, one);
        }
        if one.Failure? { return Failure(one.error); }
        var (section, src, imgs) := one.value;
        sections, sources, images := sections[d := section], src, imgs;
      }
      assert disks[..|disks|] == disks && disks[|disks|..] == [];
      GatherEnds(fs, vm, snapshot, images, sources);
      r := Success((sections, sources, images));
    }

    /** Stage every file of the manifest, checking size and digest as it is
        written; the first mismatch stops. */
    method ExtractVerified(h: Probe, b: Bundle) returns (r: Result<map<Arc, Layer>>)
      ensures r == if AllVerified(h, b) then Success(Staged(b, ManifestFiles(b.manifest))) else Failure(InvalidState)
    {
      hide ManifestFiles;
      var files := ManifestFiles(b.manifest);
      var staging: map<Arc, Layer> := map[];
      for i := 0 to |files|
        invariant forall j :: 0 <= j < i ==> RecordOk(h, b, files[j])
        invariant staging == Staged(b, files[..i])
      {
        var arc := files[i].arc;
        assert files[i] in files;
        if !Safe(arc) || arc !in b.tar { return Failure(InvalidState); }
        staging := staging[arc := b.tar[arc]];
        if h.bytes(b.tar[arc]) != files[i].size || h.sha(b.tar[arc]) != files[i].digest { return Failure(InvalidState); }
        assert files[..i + 1] == files[..i] + [files[i]];
      }
      assert files[..|files|] == files;
      return Success(staging);
    }

    method PlaceImages(h: Probe, rs: seq<FileRec>, staged: map<Arc, Layer>) returns (e: Option<Error>, staging: map<Arc, Layer>)
      modifies store
      ensures Tried(e, Work(store.fs, staging)) == PlaceAll(h, Work(old(store.fs), staged), rs)
      ensures e.None? ==> forall r :: r in rs ==>
                && Image(BaseName(r.arc)) in store.fs
                && (Image(BaseName(r.arc)) in old(store.fs) ==> h.sha(Bytes(old(store.fs)[Image(BaseName(r.arc))])) == r.digest)
    {
      ghost var start := Work(store.fs, staged);
      staging := staged;
      for i := 0 to |rs|
        invariant PlaceAll(h, Work(old(store.fs), staged), rs) == PlaceAll(h, Work(store.fs, staging), rs[i..])
      {
        assert rs[i..][0] == rs[i] && rs[i..][1..] == rs[i + 1..];
        var arc := rs[i].arc;
        var dst := Image(BaseName(arc));
        if dst in store.fs {
          if h.sha(Bytes(store.fs[dst])) != rs[i].digest { return Some(InvalidState), staging; }
        } else {
          if arc !in staging { return Some(ToolFailed), staging; }
          store.fs := store.fs[dst := staging[arc]];
          staging := staging - {arc};
        }
      }
      PlacedAndCompared(h, start, rs);
      return None, staging;
    }

    /** Move the snapshots of one disk into place, then re-point and freeze them. */
    method PlaceSnapshots(vm: string, disk: string, ss: seq<SnapRec>, staged: map<Arc, Layer>, faults: Faults)
      returns (e: Option<Error>, staging: map<Arc, Layer>)
      modifies store
      ensures Tried(e, Work(store.fs, staging)) ==
              match MoveSnaps(Work(old(store.fs), staged), vm, disk, ss)
              case Stopped(w, err) => Stopped(w, err)
              case Done(w) => RepointSnaps(w, vm, disk, ss, faults)
    {
      staging := staged;
      for i := 0 to |ss|
        invariant MoveSnaps(Work(old(store.fs), staged), vm, disk, ss) == MoveSnaps(Work(store.fs, staging), vm, disk, ss[i..])
      {
        assert ss[i..][0] == ss[i] && ss[i..][1..] == ss[i + 1..];
        if !ValidName(ss[i].name) { return Some(InvalidConfig), staging; }
        var dst, arc := Snap(vm, disk, ss[i].name), ss[i].file.arc;
        if arc !in staging { return Some(ToolFailed), staging; }
        store.fs := store.fs[dst := staging[arc]];
        staging := staging - {arc};
      }
      ghost var moved := store.fs;
      for i := 0 to |ss|
        invariant MoveSnaps(Work(old(store.fs), staged), vm, disk, ss) == Done(Work(moved, staging))
        invariant RepointSnaps(Work(moved, staging), vm, disk, ss, faults) == RepointSnaps(Work(store.fs, staging), vm, disk, ss[i..], faults)
      {
        assert ss[i..][0] == ss[i] && ss[i..][1..] == ss[i + 1..];
        var dst := Snap(vm, disk, ss[i].name);
        var parent := Resolve(vm, disk, ss[i].parent);
        if parent.Failure? { return Some(parent.error), staging; }
        if dst !in store.fs || dst in faults.tool { return Some(ToolFailed), staging; }
        ghost var before := store.fs;
        store.fs := store.fs[dst := store.fs[dst].(backing := parent.value)];   // rebase -u
        store.fs := store.fs[dst := store.fs[dst].(readonly := true)];          // chmod 0444
        assert store.fs == before[dst := before[dst].(backing := parent.value, readonly := true)];
      }
      return None, staging;
    }

    method PlaceActive(vm: string, disk: string, s: Section, staged: map<Arc, Layer>, faults: Faults)
      returns (e: Option<Error>, staging: map<Arc, Layer>)
      modifies store
      ensures Tried(e, Work(store.fs, staging)) == PutActive(Work(old(store.fs), staged), vm, disk, s, faults)
    {
      hide View;
      staging := staged;
      var active := Active(vm, disk);
      if s.active.Some? {
        var arc := s.active.value.file.arc;
        if arc !in staging { return Some(ToolFailed), staging; }
        store.fs := store.fs[active := staging[arc]];
        staging := staging - {arc};
        var parent := Resolve(vm, disk, s.active.value.parent);
        if parent.Failure? { return Some(parent.error), staging; }
        if active in faults.tool { return Some(ToolFailed), staging; }
        store.fs := store.fs[active := store.fs[active].(backing := parent.value)];
      } else {
        if s.current.None? { return Some(InvalidState), staging; }
        if !ValidName(s.current.value) { return Some(InvalidConfig), staging; }
        var base := Snap(vm, disk, s.current.value);
        if base !in store.fs || active in faults.tool { return Some(ToolFailed), staging; }
        store.fs := store.fs[active := NewOverlay(store.fs, base, None)];
      }
      return None, staging;
    }

    method AssembleVm(vm: string, m: Manifest, staged: map<Arc, Layer>, faults: Faults) returns (e: Option<Error>, staging: map<Arc, Layer>)
      modifies store
      ensures Tried(e, Work(store.fs, staging)) ==
              AssembleAll(Work(old(store.fs), staged), vm, m, Sorted(m.disks.Keys, ""), faults)
    {
      hide Sorted, MoveSnaps, RepointSnaps, PutActive, ValidName;
      staging := staged;
      var disks := Sorted(m.disks.Keys, "");
      for i := 0 to |disks|
        invariant AssembleAll(Work(old(store.fs), staged), vm, m, disks, faults) ==
                  AssembleAll(Work(store.fs, staging), vm, m, disks[i..], faults)
      {
        assert disks[i..][0] == disks[i] && disks[i..][1..] == disks[i + 1..];
        var disk := disks[i];
        assert disk in disks;
        var s := m.disks[disk];
        if !ValidName(disk) { return Some(InvalidConfig), staging; }
        e, staging := PlaceSnapshots(vm, disk, s.snapshots, staging, faults);
        if e.Some? { return; }
        e, staging := PlaceActive(vm, disk, s, staging, faults);
        if e.Some? { return; }
      }
      return None, staging;
    }

    /** `restore`, on any bundle. What its result means: Bundles.RestoreSafety and
        RestoreLaws.RestoredMeans for every bundle, RoundTrip.BackupRestore for a
        fresh backup. */
    method RestoreBundle(h: Probe, b: Bundle, asVm: Option<string>, force: bool, faults: Faults) returns (r: Result<string>)
      modifies store
      ensures var (fs', o) := Restore(h, old(store.fs), b, asVm, force, faults);
              store.fs == fs' && Agrees(r, o)
      ensures r.Success? ==> RestoredAs(b, asVm, r.value) && Vouched(h, old(store.fs), b)
    {
      hide Vouched, AllVerified, Staged, ManifestFiles, PlaceAll, AssembleAll, Sorted, ValidName;
      NormalReturnVouches(h, store.fs, b, asVm, force, faults);
      var vm := if asVm.Some? && asVm.value != "" then asVm.value else b.manifest.vm;
      if !ValidName(vm) { return Failure(InvalidConfig); }
      if VmExists(store.fs, vm) && !force { return Failure(AlreadyExists); }
      var e: Option<Error>, staging := None, map[];
      var extracted := ExtractVerified(h, b);
      if extracted.Failure? {
        e := Some(extracted.error);
      } else {
        e, staging := PlaceImages(h, b.manifest.images, extracted.value);
        if e.None? {
          store.fs := Wipe(store.fs, vm);
          e, staging := AssembleVm(vm, b.manifest, staging, faults);
          if e.None? && b.manifest.disks.Keys * faults.unhealthy != {} { e := Some(InvalidState); }
        }
      }
      if e.Some? {
        store.fs := Wipe(store.fs, vm);
        return Failure(e.value);
      }
      return Success(vm);
    }
  }
}
