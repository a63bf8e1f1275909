/** Whole-VM bundles (storage/vmforge_storage/bundle.py): what `backup` puts in a
    bundle, and what `restore` does with any bundle, step by step. */
module Bundles {
  import opened Forest
  import opened Layout
  import opened Layers
  import opened Store
  import opened Names
  import opened DiskStores

  /** Paths inside the archive. `ArcOther` is any path a hand-made manifest may
      name: whether it is safe, and its last component. */
  datatype Arc =
    | ArcDisk(disk: string)                  // disks/<disk>.qcow2
    | ArcSnap(disk: string, name: string)    // snapshots/<disk>/<name>.qcow2
    | ArcImage(file: string)                 // images/<file>
    | ArcOther(text: string, safe: bool, base: string)

  predicate Safe(a: Arc) { a.ArcOther? ==> a.safe }

  function BaseName(a: Arc): string {
    match a
    case ArcDisk(d) => d + EXT
    case ArcSnap(_, n) => n + EXT
    case ArcImage(f) => f
    case ArcOther(_, _, base) => base
  }

  function FileName(p: Path): string {
    match p
    case Image(f) => f
    case External(_, f) => f
    case Active(_, d) => d + EXT
    case Snap(_, _, n) => n + EXT
    case Reverting(_, d) => d + EXT + ".reverting"
  }

  /** A layer's logical parent in the manifest. */
  datatype Ref = NoParent | ToSnapshot(name: string) | ToImage(image: Arc) | Unrecognized

  datatype FileRec = FileRec(arc: Arc, size: nat, digest: nat)
  datatype SnapRec = SnapRec(name: string, file: FileRec, parent: Ref)
  datatype ActiveRec = ActiveRec(file: FileRec, parent: Ref)
  datatype Section = Section(active: Option<ActiveRec>, current: Option<string>, snapshots: seq<SnapRec>)
  datatype Manifest = Manifest(vm: string, disks: map<string, Section>, images: seq<FileRec>)
  datatype Bundle = Bundle(manifest: Manifest, tar: map<Arc, Layer>)

  /** Size and SHA-256 of a file, as functions of its bytes. */
  datatype Probe = Probe(bytes: Layer -> nat, sha: Layer -> nat)

  /** The bytes of a file; its mode is not among them. */
  function Bytes(l: Layer): Layer { l.(readonly := false) }

  // ---- backup ---------------------------------------------------------------------

  function DiskNames(fs: Files, vm: string): (ds: set<string>)
    ensures forall d :: d in ds <==> Active(vm, d) in fs
  {
    set p | p in fs && p.Active? && p.vm == vm :: p.disk
  }

  /** Which snapshots go in: all, or the chosen one and its ancestors. */
  function Included(fs: Files, vm: string, disk: string, snapshot: Option<string>): set<string> {
    match snapshot
    case None => SnapNames(fs, vm, disk)
    case Some(s) => set n | n in Lineage(TreeOf(fs, vm, disk), s)
  }

  function ArcOf(p: Path): Arc {
    match p
    case Active(_, d) => ArcDisk(d)
    case Snap(_, d, n) => ArcSnap(d, n)
    case _ => ArcImage(FileName(p))
  }

  function RefOf(fs: Files, vm: string, disk: string, p: Path): Ref
    requires p in fs
  {
    match fs[p].backing
    case None => NoParent
    case Some(b) =>
      if NameFor(vm, disk, fs[p].backing).Some? then ToSnapshot(b.name) else ToImage(ArcImage(FileName(b)))
  }

  function Rec(h: Probe, fs: Files, p: Path): FileRec
    requires p in fs
  {
    FileRec(ArcOf(p), h.bytes(Bytes(fs[p])), h.sha(Bytes(fs[p])))
  }

  function SnapPaths(vm: string, disk: string, names: seq<string>): (ps: seq<Path>)
    ensures |ps| == |names| && forall i :: 0 <= i < |ps| ==> ps[i] == Snap(vm, disk, names[i])
  {
    seq(|names|, i requires 0 <= i < |names| => Snap(vm, disk, names[i]))
  }

  /** The layers of one disk that go in, in the order they are visited. */
  function LayersOf(fs: Files, vm: string, disk: string, snapshot: Option<string>): seq<Path> {
    SnapPaths(vm, disk, Sorted(Included(fs, vm, disk, snapshot), "")) +
    if snapshot.None? then [Active(vm, disk)] else []
  }

  function AllLayers(fs: Files, vm: string, disks: seq<string>, snapshot: Option<string>): seq<Path> {
    if disks == [] then [] else LayersOf(fs, vm, disks[0], snapshot) + AllLayers(fs, vm, disks[1..], snapshot)
  }

  /** The base image a layer sits on directly, if it does. */
  function BaseOf(fs: Files, p: Path): Option<Path> {
    if p !in fs || !(p.Active? || p.Snap?) || NameFor(p.vm, p.disk, fs[p].backing).Some? then None
    else fs[p].backing
  }

  /** Collect base images by file name; `None` when two of them share one. */
  function Gather(fs: Files, ls: seq<Path>, images: map<string, Path>): Option<map<string, Path>>
    decreases |ls|
  {
    if ls == [] then Some(images) else
    match BaseOf(fs, ls[0])
    case None => Gather(fs, ls[1..], images)
    case Some(b) =>
      if FileName(b) in images && images[FileName(b)] != b then None
      else Gather(fs, ls[1..], images[FileName(b) := b])
  }

  function SnapRecs(h: Probe, fs: Files, vm: string, disk: string, names: seq<string>): (rs: seq<SnapRec>)
    requires forall n :: n in names ==> Snap(vm, disk, n) in fs
    ensures |rs| == |names|
    ensures forall i :: 0 <= i < |rs| ==>
      rs[i] == SnapRec(names[i], Rec(h, fs, Snap(vm, disk, names[i])), RefOf(fs, vm, disk, Snap(vm, disk, names[i])))
  {
    seq(|names|, i requires 0 <= i < |names| =>
      assert names[i] in names;
      SnapRec(names[i], Rec(h, fs, Snap(vm, disk, names[i])), RefOf(fs, vm, disk, Snap(vm, disk, names[i]))))
  }

  lemma ChainInFiles(fs: Files, vm: string, disk: string, s: string)
    ensures forall n :: n in Lineage(TreeOf(fs, vm, disk), s) ==> Snap(vm, disk, n) in fs
  {
    LineageDistinct(TreeOf(fs, vm, disk), s);
  }

  function SectionOf(h: Probe, fs: Files, vm: string, disk: string, snapshot: Option<string>): Section
    requires Active(vm, disk) in fs
  {
    var names := Sorted(Included(fs, vm, disk, snapshot), "");
    assert forall n :: n in names ==> Snap(vm, disk, n) in fs by {
      if snapshot.Some? { ChainInFiles(fs, vm, disk, snapshot.value); }
    }
    Section(
      if snapshot.None? then Some(ActiveRec(Rec(h, fs, Active(vm, disk)), RefOf(fs, vm, disk, Active(vm, disk)))) else None,
      if snapshot.None? then NameFor(vm, disk, fs[Active(vm, disk)].backing) else snapshot,
      SnapRecs(h, fs, vm, disk, names))
  }

  /** Where each archive member comes from. */
  function AddSources(sources: map<Arc, Path>, ls: seq<Path>): map<Arc, Path>
    decreases |ls|
  {
    if ls == [] then sources else AddSources(sources[ArcOf(ls[0]) := ls[0]], ls[1..])
  }

  function ImageRec(h: Probe, fs: Files, images: map<string, Path>, f: string): FileRec {
    if f in images && images[f] in fs
    then FileRec(ArcImage(f), h.bytes(Bytes(fs[images[f]])), h.sha(Bytes(fs[images[f]])))
    else FileRec(ArcImage(f), 0, 0)
  }

  function ImageRecs(h: Probe, fs: Files, images: map<string, Path>): (rs: seq<FileRec>)
    ensures |rs| == |images|
  {
    var names := Sorted(images.Keys, "");
    seq(|names|, i requires 0 <= i < |names| => ImageRec(h, fs, images, names[i]))
  }

  function Packed(fs: Files, sources: map<Arc, Path>): map<Arc, Layer> {
    map a | a in sources && sources[a] in fs :: Bytes(fs[sources[a]])
  }

  lemma {:induction false} LayersInFiles(fs: Files, vm: string, disks: seq<string>, snapshot: Option<string>)
    requires forall d :: d in disks ==> Active(vm, d) in fs
    ensures forall p :: p in AllLayers(fs, vm, disks, snapshot) ==> p in fs && (p.Active? || p.Snap?) && p.vm == vm
    decreases |disks|
  {
    if disks != [] {
      var d, ls := disks[0], LayersOf(fs, vm, disks[0], snapshot);
      LayersInFiles(fs, vm, disks[1..], snapshot);
      forall p | p in ls ensures p in fs && (p.Active? || p.Snap?) && p.vm == vm {
        if snapshot.Some? { ChainInFiles(fs, vm, d, snapshot.value); }
        if p.Snap? { assert p.name in Included(fs, vm, d, snapshot); }
      }
    }
  }

  lemma BaseIsBase(fs: Files, p: Path)
    requires WellFormed(fs) && BaseOf(fs, p).Some?
    ensures BaseOf(fs, p).value in fs && BaseOf(fs, p).value.IsBase()
  {
    BackingOk(fs, p);
  }

  /** Collected images are kept, are among the files and are filed under their
      own names; and every layer's base image is collected. */
  lemma {:induction false} GatherCollects(fs: Files, ls: seq<Path>, images: map<string, Path>)
    requires WellFormed(fs) && forall p :: p in ls ==> p in fs && (p.Active? || p.Snap?)
    requires forall f :: f in images ==> images[f] in fs && images[f].IsBase() && FileName(images[f]) == f
    ensures Gather(fs, ls, images).Some? ==>
              var all := Gather(fs, ls, images).value;
              && (forall f :: f in images ==> f in all && all[f] == images[f])
              && (forall f :: f in all ==> all[f] in fs && all[f].IsBase() && FileName(all[f]) == f)
              && (forall p :: p in ls && BaseOf(fs, p).Some? ==>
                   FileName(BaseOf(fs, p).value) in all && all[FileName(BaseOf(fs, p).value)] == BaseOf(fs, p).value)
              && (forall f :: f in all && f !in images ==> exists p :: p in ls && BaseOf(fs, p) == Some(all[f]))
    decreases |ls|
  {
    hide WellFormed, BaseOf, FileName;
    if ls != [] {
      var rest := ls[1..];
      assert forall p :: p in ls <==> p == ls[0] || p in rest;
      match BaseOf(fs, ls[0]) {
        case None => GatherCollects(fs, rest, images);
        case Some(b) =>
          BaseIsBase(fs, ls[0]);
          if FileName(b) !in images || images[FileName(b)] == b {
            GatherCollects(fs, rest, images[FileName(b) := b]);
          }
      }
    }
  }

  function ImageSources(images: map<string, Path>): map<Arc, Path> {
    map f | f in images :: ArcImage(f) := images[f]
  }

  function MakeBundle(h: Probe, fs: Files, vm: string, snapshot: Option<string>,
                      sources: map<Arc, Path>, images: map<string, Path>): Bundle
  {
    Bundle(
      Manifest(vm, map d | d in DiskNames(fs, vm) :: SectionOf(h, fs, vm, d, snapshot), ImageRecs(h, fs, images)),
      Packed(fs, sources + ImageSources(images)))
  }

  /** All the layers that go in. */
  function Chosen(fs: Files, vm: string, snapshot: Option<string>): seq<Path> {
    AllLayers(fs, vm, Sorted(DiskNames(fs, vm), ""), snapshot)
  }

  /** The bundle `backup` makes, or `None` when two distinct base images share a
      file name. */
  function BackupOf(h: Probe, fs: Files, vm: string, snapshot: Option<string>): Option<Bundle> {
    var ls := Chosen(fs, vm, snapshot);
    match Gather(fs, ls, map[])
    case None => None
    case Some(images) => Some(MakeBundle(h, fs, vm, snapshot, AddSources(map[], ls), images))
  }

  lemma {:induction false} SourcesInFiles(fs: Files, sources: map<Arc, Path>, ls: seq<Path>)
    requires forall a :: a in sources ==> sources[a] in fs && ArcOf(sources[a]) == a
    requires forall p :: p in ls ==> p in fs
    ensures var all := AddSources(sources, ls);
            forall a :: a in all ==> all[a] in fs && ArcOf(all[a]) == a
    decreases |ls|
  {
    if ls != [] {
      var next := sources[ArcOf(ls[0]) := ls[0]];
      assert forall p :: p in ls[1..] ==> p in ls;
      SourcesInFiles(fs, next, ls[1..]);
      assert AddSources(sources, ls) == AddSources(next, ls[1..]);
    }
  }

  /** Layers of one VM have distinct archive paths, so each is packed as itself. */
  lemma {:induction false} SourcesFind(sources: map<Arc, Path>, ls: seq<Path>, vm: string, p: Path)
    requires forall q :: q in ls ==> (q.Active? || q.Snap?) && q.vm == vm
    requires (p.Active? || p.Snap?) && p.vm == vm
    requires p in ls || (ArcOf(p) in sources && sources[ArcOf(p)] == p)
    ensures ArcOf(p) in AddSources(sources, ls) && AddSources(sources, ls)[ArcOf(p)] == p
    decreases |ls|
  {
    if ls != [] {
      assert p in ls ==> p == ls[0] || p in ls[1..];
      SourcesFind(sources[ArcOf(ls[0]) := ls[0]], ls[1..], vm, p);
    }
  }

  // ---- restore --------------------------------------------------------------------

  /** Which later tool runs fail: qemu-img on these files, and the health check
      of these disks. */
  datatype Faults = Faults(tool: set<Path>, unhealthy: set<string>)

  /** The home and the staging directory while a restore is under way. */
  datatype Work = Work(fs: Files, staging: map<Arc, Layer>)

  datatype Try = Done(w: Work) | Stopped(w: Work, error: Error)

  function SnapFiles(ss: seq<SnapRec>): (r: seq<FileRec>)
    ensures |r| == |ss| && forall i :: 0 <= i < |r| ==> r[i] == ss[i].file
  {
    seq(|ss|, i requires 0 <= i < |ss| => ss[i].file)
  }

  function SectionFiles(s: Section): seq<FileRec> {
    (if s.active.Some? then [s.active.value.file] else []) + SnapFiles(s.snapshots)
  }

  function DiskFiles(m: Manifest, disks: seq<string>): seq<FileRec>
    requires forall d :: d in disks ==> d in m.disks
  {
    if disks == [] then [] else SectionFiles(m.disks[disks[0]]) + DiskFiles(m, disks[1..])
  }

  /** `_manifest_files`. */
  function ManifestFiles(m: Manifest): seq<FileRec> {
    DiskFiles(m, Sorted(m.disks.Keys, "")) + m.images
  }

  predicate RecordOk(h: Probe, b: Bundle, r: FileRec) {
    Safe(r.arc) && r.arc in b.tar && h.bytes(b.tar[r.arc]) == r.size && h.sha(b.tar[r.arc]) == r.digest
  }

  /** Every file the manifest names is in the archive with the recorded size
      and digest. */
  predicate AllVerified(h: Probe, b: Bundle) {
    forall r :: r in ManifestFiles(b.manifest) ==> RecordOk(h, b, r)
  }

  function Staged(b: Bundle, rs: seq<FileRec>): map<Arc, Layer> {
    map a | a in b.tar && a in (set r | r in rs :: r.arc) :: b.tar[a]
  }

  function Move(w: Work, from: Arc, to: Path): Try {
    if from in w.staging
    then Done(Work(w.fs[to := w.staging[from]], w.staging - {from}))
    else Stopped(w, ToolFailed)
  }

  /** One shared image: kept if present with the same digest, refused if present
      with another, moved in if absent. */
  function PlaceOne(h: Probe, w: Work, r: FileRec): Try {
    var dst := Image(BaseName(r.arc));
    if dst !in w.fs then Move(w, r.arc, dst)
    else if h.sha(Bytes(w.fs[dst])) != r.digest then Stopped(w, InvalidState)
    else Done(w)
  }

  function PlaceAll(h: Probe, w: Work, rs: seq<FileRec>): Try
    decreases |rs|
  {
    if rs == [] then Done(w) else
    match PlaceOne(h, w, rs[0])
    case Stopped(w', e) => Stopped(w', e)
    case Done(w') => PlaceAll(h, w', rs[1..])
  }

  /** `_resolve_parent`. */
  function Resolve(vm: string, disk: string, ref: Ref): Result<Option<Path>> {
    match ref
    case NoParent => Success(None)
    case ToSnapshot(n) => if ValidName(n) then Success(Some(Snap(vm, disk, n))) else Failure(InvalidConfig)
    case ToImage(a) => Success(Some(Image(BaseName(a))))
    case Unrecognized => Failure(InvalidState)
  }

  function MoveSnaps(w: Work, vm: string, disk: string, ss: seq<SnapRec>): Try
    decreases |ss|
  {
    if ss == [] then Done(w) else
    if !ValidName(ss[0].name) then Stopped(w, InvalidConfig) else
    match Move(w, ss[0].file.arc, Snap(vm, disk, ss[0].name))
    case Stopped(w', e) => Stopped(w', e)
    case Done(w') => MoveSnaps(w', vm, disk, ss[1..])
  }

  /** `qemu-img rebase -u`: only the backing link changes; frozen layers are
      made read-only. */
  function Repoint(w: Work, vm: string, disk: string, p: Path, ref: Ref, freeze: bool, faults: Faults): Try {
    match Resolve(vm, disk, ref)
    case Failure(e) => Stopped(w, e)
    case Success(backing) =>
      if p !in w.fs || p in faults.tool then Stopped(w, ToolFailed)
      else Done(w.(fs := w.fs[p := w.fs[p].(backing := backing, readonly := freeze || w.fs[p].readonly)]))
  }

  function RepointSnaps(w: Work, vm: string, disk: string, ss: seq<SnapRec>, faults: Faults): Try
    decreases |ss|
  {
    if ss == [] then Done(w) else
    match Repoint(w, vm, disk, Snap(vm, disk, ss[0].name), ss[0].parent, true, faults)
    case Stopped(w', e) => Stopped(w', e)
    case Done(w') => RepointSnaps(w', vm, disk, ss[1..], faults)
  }

  /** The active overlay: the bundled one, or a fresh one on the current snapshot. */
  function PutActive(w: Work, vm: string, disk: string, s: Section, faults: Faults): Try {
    var p := Active(vm, disk);
    if s.active.Some? then
      match Move(w, s.active.value.file.arc, p)
      case Stopped(w', e) => Stopped(w', e)
      case Done(w') => Repoint(w', vm, disk, p, s.active.value.parent, false, faults)
    else if s.current.None? then Stopped(w, InvalidState)
    else if !ValidName(s.current.value) then Stopped(w, InvalidConfig)
    else if Snap(vm, disk, s.current.value) !in w.fs || p in faults.tool then Stopped(w, ToolFailed)
    else Done(w.(fs := w.fs[p := NewOverlay(w.fs, Snap(vm, disk, s.current.value), None)]))
  }

  function AssembleDisk(w: Work, vm: string, disk: string, s: Section, faults: Faults): Try {
    if !ValidName(disk) then Stopped(w, InvalidConfig) else
    match MoveSnaps(w, vm, disk, s.snapshots)
    case Stopped(w', e) => Stopped(w', e)
    case Done(w1) =>
      match RepointSnaps(w1, vm, disk, s.snapshots, faults)
      case Stopped(w', e) => Stopped(w', e)
      case Done(w2) => PutActive(w2, vm, disk, s, faults)
  }

  function AssembleAll(w: Work, vm: string, m: Manifest, disks: seq<string>, faults: Faults): Try
    requires forall d :: d in disks ==> d in m.disks
    decreases |disks|
  {
    if disks == [] then Done(w) else
    match AssembleDisk(w, vm, disks[0], m.disks[disks[0]], faults)
    case Stopped(w', e) => Stopped(w', e)
    case Done(w') => AssembleAll(w', vm, m, disks[1..], faults)
  }

  /** `shutil.rmtree(vm_dir)`. */
  function Wipe(fs: Files, vm: string): (r: Files)
    ensures forall p :: p in r <==> p in fs && !p.InVm(vm)
  {
    map p | p in fs && !p.InVm(vm) :: fs[p]
  }

  predicate VmExists(fs: Files, vm: string) {
    exists p :: p in fs && p.InVm(vm)
  }

  function Target(b: Bundle, asVm: Option<string>): string {
    if asVm.Some? && asVm.value != "" then asVm.value else b.manifest.vm
  }

  /** Everything after the refusals: stage and verify, place the images, remove
      the old VM, assemble the new one, check it. */
  function Unpack(h: Probe, fs: Files, b: Bundle, vm: string, faults: Faults): Try {
    if !AllVerified(h, b) then Stopped(Work(fs, map[]), InvalidState) else
    match PlaceAll(h, Work(fs, Staged(b, ManifestFiles(b.manifest))), b.manifest.images)
    case Stopped(w, e) => Stopped(w, e)
    case Done(w1) =>
      match AssembleAll(Work(Wipe(w1.fs, vm), w1.staging), vm, b.manifest, Sorted(b.manifest.disks.Keys, ""), faults)
      case Stopped(w, e) => Stopped(w, e)
      case Done(w2) =>
        if b.manifest.disks.Keys * faults.unhealthy != {} then Stopped(w2, InvalidState) else Done(w2)
  }

  function Refusal(fs: Files, b: Bundle, vm: string, force: bool): Outcome {
    if !ValidName(vm) then Err(InvalidConfig)
    else if VmExists(fs, vm) && !force then Err(AlreadyExists)
    else Ok
  }

  /** `restore` on any bundle: the files it leaves and what it returns. */
  function Restore(h: Probe, fs: Files, b: Bundle, asVm: Option<string>, force: bool, faults: Faults): (Files, Outcome) {
    var vm := Target(b, asVm);
    if Refusal(fs, b, vm, force).Err? then (fs, Refusal(fs, b, vm, force)) else
    match Unpack(h, fs, b, vm, faults)
    case Done(w) => (w.fs, Ok)
    case Stopped(w, e) => (Wipe(w.fs, vm), Err(e))
  }

  // ---- what restore never does ------------------------------------------------------

  /** Files outside the VM are as before, except that shared images may have
      been added, each the verified file of an image record. */
  ghost predicate Frame(h: Probe, b: Bundle, fs: Files, fs': Files, vm: string) {
    && (forall p :: p in fs && !p.InVm(vm) ==> p in fs' && fs'[p] == fs[p])
    && (forall p :: p in fs' && !p.InVm(vm) && p !in fs ==> p.Image? && Recorded(h, b, p.file, fs'[p]))
  }

  ghost predicate Recorded(h: Probe, b: Bundle, file: string, l: Layer) {
    exists r :: r in b.manifest.images && RecordOk(h, b, r) && BaseName(r.arc) == file && l == b.tar[r.arc]
  }

  ghost predicate Less(s: map<Arc, Layer>, s0: map<Arc, Layer>) {
    forall a :: a in s ==> a in s0 && s[a] == s0[a]
  }

  lemma {:induction false} PlaceAllFrame(h: Probe, b: Bundle, fs: Files, w: Work, rs: seq<FileRec>, vm: string)
    requires Frame(h, b, fs, w.fs, vm) && Less(w.staging, b.tar)
    requires forall r :: r in rs ==> r in b.manifest.images && RecordOk(h, b, r)
    ensures Frame(h, b, fs, PlaceAll(h, w, rs).w.fs, vm)
    decreases |rs|
  {
    hide RecordOk;
    if rs != [] {
      var t := PlaceOne(h, w, rs[0]);
      PlaceOneFrame(h, b, fs, w, rs[0], vm);
      if t.Done? { PlaceAllFrame(h, b, fs, t.w, rs[1..], vm); }
    }
  }

  lemma PlaceOneFrame(h: Probe, b: Bundle, fs: Files, w: Work, r: FileRec, vm: string)
    requires Frame(h, b, fs, w.fs, vm) && Less(w.staging, b.tar) && r in b.manifest.images && RecordOk(h, b, r)
    ensures Frame(h, b, fs, PlaceOne(h, w, r).w.fs, vm) && Less(PlaceOne(h, w, r).w.staging, b.tar)
  {
    hide RecordOk, Recorded;
    if r.arc in w.staging { RecordedHere(h, b, r); }
  }

  lemma RecordedHere(h: Probe, b: Bundle, r: FileRec)
    requires r in b.manifest.images && RecordOk(h, b, r)
    ensures r.arc in b.tar && Recorded(h, b, BaseName(r.arc), b.tar[r.arc])
  {
  }

  /** Only files of the VM differ. */
  ghost predicate OnlyVm(fs: Files, fs': Files, vm: string) {
    Wipe(fs, vm) == Wipe(fs', vm)
  }

  lemma OnlyVmUpdate(fs: Files, vm: string, p: Path, l: Layer)
    requires p.InVm(vm)
    ensures OnlyVm(fs, fs[p := l], vm)
  {
  }

  lemma {:induction false} MoveSnapsOnlyVm(w: Work, vm: string, disk: string, ss: seq<SnapRec>)
    ensures OnlyVm(w.fs, MoveSnaps(w, vm, disk, ss).w.fs, vm)
    decreases |ss|
  {
    if ss != [] && ValidName(ss[0].name) && ss[0].file.arc in w.staging {
      var p := Snap(vm, disk, ss[0].name);
      OnlyVmUpdate(w.fs, vm, p, w.staging[ss[0].file.arc]);
      MoveSnapsOnlyVm(Move(w, ss[0].file.arc, p).w, vm, disk, ss[1..]);
    }
  }

  lemma RepointOnlyVm(w: Work, vm: string, disk: string, p: Path, ref: Ref, freeze: bool, faults: Faults)
    requires p.InVm(vm)
    ensures OnlyVm(w.fs, Repoint(w, vm, disk, p, ref, freeze, faults).w.fs, vm)
  {
    var t := Repoint(w, vm, disk, p, ref, freeze, faults);
    if t.Done? { OnlyVmUpdate(w.fs, vm, p, t.w.fs[p]); }
  }

  lemma {:induction false} RepointSnapsOnlyVm(w: Work, vm: string, disk: string, ss: seq<SnapRec>, faults: Faults)
    ensures OnlyVm(w.fs, RepointSnaps(w, vm, disk, ss, faults).w.fs, vm)
    decreases |ss|
  {
    if ss != [] {
      var p := Snap(vm, disk, ss[0].name);
      RepointOnlyVm(w, vm, disk, p, ss[0].parent, true, faults);
      var t := Repoint(w, vm, disk, p, ss[0].parent, true, faults);
      if t.Done? { RepointSnapsOnlyVm(t.w, vm, disk, ss[1..], faults); }
    }
  }

  lemma PutActiveOnlyVm(w: Work, vm: string, disk: string, s: Section, faults: Faults)
    ensures OnlyVm(w.fs, PutActive(w, vm, disk, s, faults).w.fs, vm)
  {
    hide View;
    var p := Active(vm, disk);
    var t := PutActive(w, vm, disk, s, faults);
    if s.active.Some? && s.active.value.file.arc in w.staging {
      var m := Move(w, s.active.value.file.arc, p);
      OnlyVmUpdate(w.fs, vm, p, m.w.fs[p]);
      RepointOnlyVm(m.w, vm, disk, p, s.active.value.parent, false, faults);
    } else if t.Done? {
      OnlyVmUpdate(w.fs, vm, p, t.w.fs[p]);
    }
  }

  lemma {:induction false} AssembleAllOnlyVm(w: Work, vm: string, m: Manifest, disks: seq<string>, faults: Faults)
    requires forall d :: d in disks ==> d in m.disks
    ensures OnlyVm(w.fs, AssembleAll(w, vm, m, disks, faults).w.fs, vm)
    decreases |disks|
  {
    if disks != [] && ValidName(disks[0]) {
      var d, s := disks[0], m.disks[disks[0]];
      var t1 := MoveSnaps(w, vm, d, s.snapshots);
      MoveSnapsOnlyVm(w, vm, d, s.snapshots);
      if t1.Done? {
        var t2 := RepointSnaps(t1.w, vm, d, s.snapshots, faults);
        RepointSnapsOnlyVm(t1.w, vm, d, s.snapshots, faults);
        if t2.Done? {
          PutActiveOnlyVm(t2.w, vm, d, s, faults);
          var t3 := PutActive(t2.w, vm, d, s, faults);
          if t3.Done? { AssembleAllOnlyVm(t3.w, vm, m, disks[1..], faults); }
        }
      }
    }
  }

  lemma UnpackFrame(h: Probe, fs: Files, b: Bundle, vm: string, faults: Faults)
    ensures Frame(h, b, fs, Unpack(h, fs, b, vm, faults).w.fs, vm)
    ensures Unpack(h, fs, b, vm, faults).Done? ==> AllVerified(h, b)
  {
    hide RecordOk, Recorded;
    if AllVerified(h, b) {
      var w0 := Work(fs, Staged(b, ManifestFiles(b.manifest)));
      assert forall r :: r in b.manifest.images ==> r in ManifestFiles(b.manifest);
      PlaceAllFrame(h, b, fs, w0, b.manifest.images, vm);
      var t := PlaceAll(h, w0, b.manifest.images);
      if t.Done? {
        var w1 := Work(Wipe(t.w.fs, vm), t.w.staging);
        var disks := Sorted(b.manifest.disks.Keys, "");
        AssembleAllOnlyVm(w1, vm, b.manifest, disks, faults);
        FrameThrough(h, b, fs, t.w.fs, AssembleAll(w1, vm, b.manifest, disks, faults).w.fs, vm);
      }
    }
  }

  lemma FrameThrough(h: Probe, b: Bundle, fs: Files, fs1: Files, fs2: Files, vm: string)
    requires Frame(h, b, fs, fs1, vm) && OnlyVm(Wipe(fs1, vm), fs2, vm)
    ensures Frame(h, b, fs, fs2, vm)
  {
    hide Recorded;
    var r1, r2 := Wipe(fs1, vm), Wipe(fs2, vm);
    assert Wipe(r1, vm) == r1 == r2;
    forall p: Path | !p.InVm(vm) ensures (p in fs1 <==> p in fs2) && (p in fs1 ==> fs1[p] == fs2[p]) {
      assert p in fs1 <==> p in r1;
      assert p in fs2 <==> p in r2;
      if p in fs1 { assert fs1[p] == r1[p] == r2[p] == fs2[p]; }
    }
  }

  /** For every bundle, however made: restore returns normally only when every
      file matched its record; existing files outside the VM, shared images
      among them, are never touched, and an image added is the verified file of
      its record; a refusal changes nothing; any later failure leaves no file of
      the VM behind. So a call that fails keeps a VM that was there exactly when
      it was refused. */
  lemma RestoreSafety(h: Probe, fs: Files, b: Bundle, asVm: Option<string>, force: bool, faults: Faults)
    ensures var (fs', r) := Restore(h, fs, b, asVm, force, faults); var vm := Target(b, asVm);
            && (r.Ok? ==> AllVerified(h, b))
            && Frame(h, b, fs, fs', vm)
            && (Refusal(fs, b, vm, force).Err? ==> fs' == fs)
            && (r.Err? && Refusal(fs, b, vm, force).Ok? ==> !VmExists(fs', vm))
            && (r.Err? && VmExists(fs, vm) ==> (KeepsVm(fs, fs', vm) <==> Refusal(fs, b, vm, force).Err?))
  {
    hide Frame, Unpack, AllVerified, Wipe, KeepsVm;
    var vm := Target(b, asVm);
    UnpackFrame(h, fs, b, vm, faults);
    var w := Unpack(h, fs, b, vm, faults).w;
    WipedFrame(h, b, fs, w.fs, vm);
    KeptUnlessWiped(fs, w.fs, vm);
    UntouchedFrame(h, b, fs, vm);
  }

  lemma WipedFrame(h: Probe, b: Bundle, fs: Files, fs': Files, vm: string)
    requires Frame(h, b, fs, fs', vm)
    ensures Frame(h, b, fs, Wipe(fs', vm), vm) && !VmExists(Wipe(fs', vm), vm)
  {
    hide Recorded;
  }

  lemma KeptUnlessWiped(fs: Files, fs': Files, vm: string)
    ensures KeepsVm(fs, fs, vm) && (VmExists(fs, vm) ==> !KeepsVm(fs, Wipe(fs', vm), vm))
  {
  }

  lemma UntouchedFrame(h: Probe, b: Bundle, fs: Files, vm: string)
    ensures Frame(h, b, fs, fs, vm)
  {
  }

  ghost predicate KeepsVm(fs: Files, fs': Files, vm: string) {
    forall p :: p in fs && p.InVm(vm) ==> p in fs' && fs'[p] == fs[p]
  }

  /** A forced restore of a bundle with a file missing, over a VM with one disk. */
  lemma FailedForcedRestoreLosesVm(h: Probe)
    ensures var fs := map[Active("a", "d") := Layer(map[], 1, None, false)];
            var b := Bundle(Manifest("a", map[], [FileRec(ArcImage("x"), 0, 0)]), map[]);
            Restore(h, fs, b, None, true, Faults({}, {})) == (map[], Err(InvalidState))
  {
    hide Sorted;
    var p := Active("a", "d");
    var fs: Files := map[p := Layer(map[], 1, None, false)];
    var b := Bundle(Manifest("a", map[], [FileRec(ArcImage("x"), 0, 0)]), map[]);
    assert NameChars("a") && p in fs && p.InVm("a");
    var r := FileRec(ArcImage("x"), 0, 0);
    var files := ManifestFiles(b.manifest);
    assert files[|files| - 1] == r && !RecordOk(h, b, r);
    assert Wipe(fs, "a") == map[];
  }

  // ---- when a backup is refused ---------------------------------------------------------

  /** Two of the layers sit on distinct base images with one file name. */
  ghost predicate Clash(fs: Files, ls: seq<Path>) {
    exists p, q :: p in ls && q in ls && BaseOf(fs, p).Some? && BaseOf(fs, q).Some?
                   && BaseOf(fs, p) != BaseOf(fs, q)
                   && FileName(BaseOf(fs, p).value) == FileName(BaseOf(fs, q).value)
  }

  /** Collecting fails exactly on a clash, among the layers or with an image
      collected before. */
  lemma {:induction false} GatherFailsExactly(fs: Files, ls: seq<Path>, images: map<string, Path>)
    requires forall f :: f in images ==> FileName(images[f]) == f
    ensures Gather(fs, ls, images).None? <==>
            || Clash(fs, ls)
            || exists p :: p in ls && BaseOf(fs, p).Some? && FileName(BaseOf(fs, p).value) in images
                           && images[FileName(BaseOf(fs, p).value)] != BaseOf(fs, p).value
    decreases |ls|
  {
    hide FileName, BaseOf;
    if ls != [] {
      var rest := ls[1..];
      assert forall p :: p in ls <==> p == ls[0] || p in rest;
      match BaseOf(fs, ls[0])
      case None => GatherFailsExactly(fs, rest, images);
      case Some(b) =>
        if FileName(b) in images && images[FileName(b)] != b {
        } else {
          GatherFailsExactly(fs, rest, images[FileName(b) := b]);
        }
    }
  }

  lemma BackupFailsExactly(h: Probe, fs: Files, vm: string, snapshot: Option<string>)
    ensures BackupOf(h, fs, vm, snapshot).None? <==> Clash(fs, Chosen(fs, vm, snapshot))
  {
    GatherFailsExactly(fs, Chosen(fs, vm, snapshot), map[]);
  }
}
