/** Backup followed by restore. */
module RoundTrip {
  import opened Forest
  import opened Layout
  import opened Layers
  import opened Store
  import opened Names
  import opened DiskStores
  import opened Bundles

  const NO_FAULTS := Faults({}, {})

  // ---- the steps of a restore that goes well ------------------------------------

  predicate DistinctNames(ss: seq<SnapRec>) {
    forall i, j :: 0 <= i < j < |ss| ==> ss[i].name != ss[j].name
  }

  /** Records as `backup` writes them, with their files at hand. */
  predicate Movable(staging: map<Arc, Layer>, disk: string, ss: seq<SnapRec>) {
    forall i :: 0 <= i < |ss| ==>
      ValidName(ss[i].name) && ss[i].file.arc == ArcSnap(disk, ss[i].name) && ss[i].file.arc in staging
  }

  predicate Resolves(vm: string, disk: string, ss: seq<SnapRec>) {
    forall i :: 0 <= i < |ss| ==> Resolve(vm, disk, ss[i].parent).Success?
  }

  predicate NoSnapOf(p: Path, vm: string, disk: string, ss: seq<SnapRec>) {
    forall i :: 0 <= i < |ss| ==> p != Snap(vm, disk, ss[i].name)
  }

  lemma MoveSnapsStep(w: Work, vm: string, disk: string, ss: seq<SnapRec>)
    requires ss != [] && Movable(w.staging, disk, ss)
    ensures var a := ss[0].file.arc;
            && a in w.staging
            && MoveSnaps(w, vm, disk, ss) ==
               MoveSnaps(Work(w.fs[Snap(vm, disk, ss[0].name) := w.staging[a]], w.staging - {a}), vm, disk, ss[1..])
  {
    hide ValidName;
  }

  lemma NothingToMove(w: Work, vm: string, disk: string)
    ensures MoveSnaps(w, vm, disk, []) == Done(w)
  {
  }

  lemma {:induction false} MoveSnapsResult(w: Work, vm: string, disk: string, ss: seq<SnapRec>)
    requires DistinctNames(ss) && Movable(w.staging, disk, ss)
    ensures var t := MoveSnaps(w, vm, disk, ss);
            && t.Done?
            && (forall i :: 0 <= i < |ss| ==>
                 Snap(vm, disk, ss[i].name) in t.w.fs && t.w.fs[Snap(vm, disk, ss[i].name)] == w.staging[ss[i].file.arc])
            && (forall p :: NoSnapOf(p, vm, disk, ss) ==>
                 (p in t.w.fs <==> p in w.fs) && (p in w.fs ==> t.w.fs[p] == w.fs[p]))
            && (forall a :: a in w.staging && !(a.ArcSnap? && a.disk == disk) ==>
                 a in t.w.staging && t.w.staging[a] == w.staging[a])
    decreases |ss|
  {
    hide MoveSnaps, ValidName;
    if ss == [] {
      NothingToMove(w, vm, disk);
    } else {
      MoveSnapsStep(w, vm, disk, ss);
      var p, a, rest := Snap(vm, disk, ss[0].name), ss[0].file.arc, ss[1..];
      var w1 := Work(w.fs[p := w.staging[a]], w.staging - {a});
      assert Movable(w1.staging, disk, rest) by {
        forall i | 0 <= i < |rest| ensures rest[i].file.arc in w1.staging {
          assert rest[i] == ss[i + 1];
        }
      }
      MoveSnapsResult(w1, vm, disk, rest);
      var t := MoveSnaps(w, vm, disk, ss);
      assert NoSnapOf(p, vm, disk, rest);
      forall i | 0 <= i < |ss|
        ensures Snap(vm, disk, ss[i].name) in t.w.fs && t.w.fs[Snap(vm, disk, ss[i].name)] == w.staging[ss[i].file.arc]
      {
        if i > 0 { assert ss[i] == rest[i - 1]; }
      }
      forall q | NoSnapOf(q, vm, disk, ss)
        ensures (q in t.w.fs <==> q in w.fs) && (q in w.fs ==> t.w.fs[q] == w.fs[q])
      {
        assert q != Snap(vm, disk, ss[0].name);
        assert NoSnapOf(q, vm, disk, rest);
      }
    }
  }

  lemma {:induction false} RepointSnapsResult(w: Work, vm: string, disk: string, ss: seq<SnapRec>)
    requires DistinctNames(ss) && Resolves(vm, disk, ss)
    requires forall i :: 0 <= i < |ss| ==> Snap(vm, disk, ss[i].name) in w.fs
    ensures var t := RepointSnaps(w, vm, disk, ss, NO_FAULTS);
            && t.Done? && t.w.staging == w.staging
            && (forall i :: 0 <= i < |ss| ==>
                 && Snap(vm, disk, ss[i].name) in t.w.fs
                 && t.w.fs[Snap(vm, disk, ss[i].name)] ==
                    w.fs[Snap(vm, disk, ss[i].name)].(backing := Resolve(vm, disk, ss[i].parent).value, readonly := true))
            && (forall p :: NoSnapOf(p, vm, disk, ss) ==>
                 (p in t.w.fs <==> p in w.fs) && (p in w.fs ==> t.w.fs[p] == w.fs[p]))
    decreases |ss|
  {
    if ss != [] {
      var p, rest := Snap(vm, disk, ss[0].name), ss[1..];
      var w1 := Repoint(w, vm, disk, p, ss[0].parent, true, NO_FAULTS).w;
      RepointSnapsResult(w1, vm, disk, rest);
      var t := RepointSnaps(w, vm, disk, ss, NO_FAULTS);
      assert t == RepointSnaps(w1, vm, disk, rest, NO_FAULTS);
      assert NoSnapOf(p, vm, disk, rest);
      forall i | 0 <= i < |ss|
        ensures Snap(vm, disk, ss[i].name) in t.w.fs
        ensures t.w.fs[Snap(vm, disk, ss[i].name)] ==
                w.fs[Snap(vm, disk, ss[i].name)].(backing := Resolve(vm, disk, ss[i].parent).value, readonly := true)
      {
        if i > 0 { assert ss[i] == rest[i - 1]; }
      }
      forall q | NoSnapOf(q, vm, disk, ss)
        ensures (q in t.w.fs <==> q in w.fs) && (q in w.fs ==> t.w.fs[q] == w.fs[q])
      {
        assert q != Snap(vm, disk, ss[0].name);
        assert NoSnapOf(q, vm, disk, rest);
      }
    }
  }

  /** A section whose records are as `backup` writes them. */
  predicate Ready(staging: map<Arc, Layer>, vm: string, disk: string, s: Section) {
    && ValidName(disk) && DistinctNames(s.snapshots)
    && Movable(staging, disk, s.snapshots) && Resolves(vm, disk, s.snapshots)
    && match s.active
       case Some(a) => a.file.arc == ArcDisk(disk) && a.file.arc in staging && Resolve(vm, disk, a.parent).Success?
       case None => s.current.Some? && exists i :: 0 <= i < |s.snapshots| && s.snapshots[i].name == s.current.value
  }

  /** The layers of the section are in place. */
  predicate Landed(fs: Files, staging: map<Arc, Layer>, vm: string, disk: string, s: Section)
    requires Ready(staging, vm, disk, s)
  {
    && (forall i :: 0 <= i < |s.snapshots| ==>
         && Snap(vm, disk, s.snapshots[i].name) in fs
         && fs[Snap(vm, disk, s.snapshots[i].name)] ==
            staging[s.snapshots[i].file.arc].(backing := Resolve(vm, disk, s.snapshots[i].parent).value, readonly := true))
    && Active(vm, disk) in fs
    && match s.active
       case Some(a) => fs[Active(vm, disk)] == staging[a.file.arc].(backing := Resolve(vm, disk, a.parent).value)
       case None =>
         && Snap(vm, disk, s.current.value) in fs
         && fs[Active(vm, disk)] == Layer(map[], fs[Snap(vm, disk, s.current.value)].size, Some(Snap(vm, disk, s.current.value)), false)
  }

  predicate Elsewhere(p: Path, vm: string, disk: string, s: Section) {
    p != Active(vm, disk) && NoSnapOf(p, vm, disk, s.snapshots)
  }

  lemma PutActiveResult(w: Work, vm: string, disk: string, s: Section)
    requires match s.active
             case Some(a) => a.file.arc == ArcDisk(disk) && a.file.arc in w.staging && Resolve(vm, disk, a.parent).Success?
             case None => s.current.Some? && ValidName(s.current.value) && Snap(vm, disk, s.current.value) in w.fs
    ensures var t := PutActive(w, vm, disk, s, NO_FAULTS);
            && t.Done?
            && t.w.fs == w.fs[Active(vm, disk) :=
                 match s.active
                 case Some(a) => w.staging[a.file.arc].(backing := Resolve(vm, disk, a.parent).value)
                 case None => Layer(map[], w.fs[Snap(vm, disk, s.current.value)].size, Some(Snap(vm, disk, s.current.value)), false)]
            && (forall a :: a in w.staging && a != ArcDisk(disk) ==> a in t.w.staging && t.w.staging[a] == w.staging[a])
  {
    hide View;
    if s.active.None? { ViewSize(w.fs, Snap(vm, disk, s.current.value)); }
  }

  lemma CurrentIsValid(staging: map<Arc, Layer>, vm: string, disk: string, s: Section)
    requires Ready(staging, vm, disk, s)
    ensures s.active.None? ==> ValidName(s.current.value)
  {
    hide ValidName, Resolve;
  }

  lemma AssembleDiskResult(w: Work, vm: string, disk: string, s: Section)
    requires Ready(w.staging, vm, disk, s)
    ensures var t := AssembleDisk(w, vm, disk, s, NO_FAULTS);
            && t.Done? && Landed(t.w.fs, w.staging, vm, disk, s)
            && (forall p :: Elsewhere(p, vm, disk, s) ==>
                 (p in t.w.fs <==> p in w.fs) && (p in w.fs ==> t.w.fs[p] == w.fs[p]))
            && (forall a :: a in w.staging && (a.ArcDisk? || a.ArcSnap?) && a.disk != disk ==>
                 a in t.w.staging && t.w.staging[a] == w.staging[a])
  {
    hide View, Resolve, MoveSnaps, RepointSnaps, PutActive, ValidName, Movable, Resolves, DistinctNames, Landed;
    var ss := s.snapshots;
    CurrentIsValid(w.staging, vm, disk, s);
    MoveSnapsResult(w, vm, disk, ss);
    var w1 := MoveSnaps(w, vm, disk, ss).w;
    RepointSnapsResult(w1, vm, disk, ss);
    var w2 := RepointSnaps(w1, vm, disk, ss, NO_FAULTS).w;
    PutActiveResult(w2, vm, disk, s);
    var t := PutActive(w2, vm, disk, s, NO_FAULTS);
    LandedFrom(w.staging, vm, disk, s, w1.fs, w2.fs, t.w.fs);
  }

  lemma LandedFrom(staging: map<Arc, Layer>, vm: string, disk: string, s: Section, fs1: Files, fs2: Files, fs3: Files)
    requires Ready(staging, vm, disk, s)
    requires forall i :: 0 <= i < |s.snapshots| ==>
               Snap(vm, disk, s.snapshots[i].name) in fs1 && fs1[Snap(vm, disk, s.snapshots[i].name)] == staging[s.snapshots[i].file.arc]
    requires forall i :: 0 <= i < |s.snapshots| ==>
               && Snap(vm, disk, s.snapshots[i].name) in fs2
               && fs2[Snap(vm, disk, s.snapshots[i].name)] ==
                  fs1[Snap(vm, disk, s.snapshots[i].name)].(backing := Resolve(vm, disk, s.snapshots[i].parent).value, readonly := true)
    requires s.active.None? ==> Snap(vm, disk, s.current.value) in fs2
    requires fs3 == fs2[Active(vm, disk) :=
               match s.active
               case Some(a) => staging[a.file.arc].(backing := Resolve(vm, disk, a.parent).value)
               case None => Layer(map[], fs2[Snap(vm, disk, s.current.value)].size, Some(Snap(vm, disk, s.current.value)), false)]
    ensures Landed(fs3, staging, vm, disk, s)
  {
    hide Resolve, ValidName;
  }

  predicate Distinct(disks: seq<string>) {
    forall i, j :: 0 <= i < j < |disks| ==> disks[i] != disks[j]
  }

  predicate OtherDisks(p: Path, vm: string, m: Manifest, disks: seq<string>)
    requires forall d :: d in disks ==> d in m.disks
  {
    forall d :: d in disks ==> Elsewhere(p, vm, d, m.disks[d])
  }

  lemma LandedStays(fs: Files, fs': Files, staging: map<Arc, Layer>, vm: string, disk: string, s: Section)
    requires Ready(staging, vm, disk, s) && Landed(fs, staging, vm, disk, s)
    requires forall p :: p in fs && p.OfDisk(vm, disk) ==> p in fs' && fs'[p] == fs[p]
    ensures Landed(fs', staging, vm, disk, s)
  {
  }

  lemma ReadyStays(s1: map<Arc, Layer>, s2: map<Arc, Layer>, vm: string, disk: string, s: Section, fs: Files)
    requires Ready(s1, vm, disk, s)
    requires forall a :: a in s1 && (a.ArcDisk? || a.ArcSnap?) && a.disk == disk ==> a in s2 && s2[a] == s1[a]
    ensures Ready(s2, vm, disk, s)
    ensures Landed(fs, s2, vm, disk, s) <==> Landed(fs, s1, vm, disk, s)
  {
  }

  lemma {:induction false} AssembleAllResult(w: Work, vm: string, m: Manifest, disks: seq<string>)
    requires Distinct(disks)
    requires forall d :: d in disks ==> d in m.disks && Ready(w.staging, vm, d, m.disks[d])
    ensures var t := AssembleAll(w, vm, m, disks, NO_FAULTS);
            && t.Done?
            && (forall d :: d in disks ==> Landed(t.w.fs, w.staging, vm, d, m.disks[d]))
            && (forall p :: OtherDisks(p, vm, m, disks) ==>
                 (p in t.w.fs <==> p in w.fs) && (p in w.fs ==> t.w.fs[p] == w.fs[p]))
    decreases |disks|
  {
    if disks != [] {
      var d, rest := disks[0], disks[1..];
      var s := m.disks[d];
      assert d in disks;
      AssembleDiskResult(w, vm, d, s);
      var w1 := AssembleDisk(w, vm, d, s, NO_FAULTS).w;
      forall e | e in rest ensures e != d && e in m.disks && Ready(w1.staging, vm, e, m.disks[e]) {
        assert e in disks;
        ReadyStays(w.staging, w1.staging, vm, e, m.disks[e], w1.fs);
      }
      AssembleAllResult(w1, vm, m, rest);
      var t := AssembleAll(w, vm, m, disks, NO_FAULTS);
      assert t == AssembleAll(w1, vm, m, rest, NO_FAULTS);
      forall e | e in disks ensures Landed(t.w.fs, w.staging, vm, e, m.disks[e]) {
        if e in rest {
          ReadyStays(w.staging, w1.staging, vm, e, m.disks[e], t.w.fs);
        } else {
          forall p: Path | p.OfDisk(vm, d) ensures OtherDisks(p, vm, m, rest) {
            forall f | f in rest ensures Elsewhere(p, vm, f, m.disks[f]) { assert f != d; }
          }
          LandedStays(w1.fs, t.w.fs, w.staging, vm, d, s);
        }
      }
      forall p | OtherDisks(p, vm, m, disks)
        ensures (p in t.w.fs <==> p in w.fs) && (p in w.fs ==> t.w.fs[p] == w.fs[p])
      {
        assert Elsewhere(p, vm, d, s);
        assert OtherDisks(p, vm, m, rest);
      }
    }
  }

  /** An image record as `backup` writes it, in a home that lacks the image or
      has the same one. */
  predicate Placeable(h: Probe, w: Work, r: FileRec, content: map<Path, Layer>) {
    && r.arc.ArcImage? && Dst(r) in content && r.digest == h.sha(content[Dst(r)]) && !content[Dst(r)].readonly
    && if Dst(r) in w.fs
       then Bytes(w.fs[Dst(r)]) == content[Dst(r)]
       else r.arc in w.staging && w.staging[r.arc] == content[Dst(r)]
  }

  /** Where `_place_images` puts the file of a record. */
  function Dst(r: FileRec): Path { Image(BaseName(r.arc)) }

  predicate Placed(fs: Files, r: FileRec, content: map<Path, Layer>) {
    Dst(r) in content && Dst(r) in fs && Bytes(fs[Dst(r)]) == content[Dst(r)]
  }

  /** Files only come in, at the destinations of `rs`. */
  ghost predicate Added(fs: Files, fs': Files, rs: seq<FileRec>) {
    && (forall p :: p in fs ==> p in fs' && fs'[p] == fs[p])
    && (forall p :: p in fs' && p !in fs ==> exists i :: 0 <= i < |rs| && p == Dst(rs[i]))
  }

  ghost predicate KeepsLayers(s: map<Arc, Layer>, s': map<Arc, Layer>) {
    forall a :: a in s && !a.ArcImage? ==> a in s' && s'[a] == s[a]
  }

  lemma PlaceOneResult(h: Probe, w: Work, r: FileRec, content: map<Path, Layer>)
    requires Placeable(h, w, r, content)
    ensures var t := PlaceOne(h, w, r);
            && t.Done? && Placed(t.w.fs, r, content) && Added(w.fs, t.w.fs, [r]) && KeepsLayers(w.staging, t.w.staging)
            && forall q: FileRec :: q.arc != r.arc && Placeable(h, w, q, content) ==> Placeable(h, t.w, q, content)
  {
    var t := PlaceOne(h, w, r);
    forall p | p in t.w.fs && p !in w.fs ensures exists i :: 0 <= i < |[r]| && p == Dst([r][i]) {
      assert p == Dst([r][0]);
    }
  }

  lemma {:induction false} PlaceAllResult(h: Probe, w: Work, rs: seq<FileRec>, content: map<Path, Layer>)
    requires forall i, j :: 0 <= i < j < |rs| ==> rs[i].arc != rs[j].arc
    requires forall i :: 0 <= i < |rs| ==> Placeable(h, w, rs[i], content)
    ensures var t := PlaceAll(h, w, rs);
            && t.Done? && Added(w.fs, t.w.fs, rs) && KeepsLayers(w.staging, t.w.staging)
            && forall i :: 0 <= i < |rs| ==> Placed(t.w.fs, rs[i], content)
    decreases |rs|
  {
    hide PlaceOne, Placeable, BaseName, Dst;
    if rs != [] {
      var rest := rs[1..];
      PlaceOneResult(h, w, rs[0], content);
      var w1 := PlaceOne(h, w, rs[0]).w;
      assert forall i :: 0 <= i < |rest| ==> rest[i] == rs[i + 1];
      PlaceAllResult(h, w1, rest, content);
      var t := PlaceAll(h, w, rs);
      assert t == PlaceAll(h, w1, rest);
      AddedBoth(w.fs, w1.fs, t.w.fs, rs);
      forall i | 0 <= i < |rs| ensures Placed(t.w.fs, rs[i], content) {
        if i > 0 { assert rs[i] == rest[i - 1]; }
      }
    }
  }

  lemma AddedBoth(fs: Files, fs1: Files, fs2: Files, rs: seq<FileRec>)
    requires rs != [] && Added(fs, fs1, [rs[0]]) && Added(fs1, fs2, rs[1..])
    ensures Added(fs, fs2, rs)
  {
    hide Dst;
    forall p | p in fs2 && p !in fs ensures exists i :: 0 <= i < |rs| && p == Dst(rs[i]) {
      if p in fs1 {
        assert p == Dst(rs[0]);
      } else {
        var i :| 0 <= i < |rs[1..]| && p == Dst(rs[1..][i]);
        assert p == Dst(rs[i + 1]);
      }
    }
  }

  // ---- what a backup holds --------------------------------------------------------

  lemma {:induction false} AllLayersHas(fs: Files, vm: string, disks: seq<string>, snapshot: Option<string>, d: string, p: Path)
    requires d in disks && p in LayersOf(fs, vm, d, snapshot)
    ensures p in AllLayers(fs, vm, disks, snapshot)
    decreases |disks|
  {
    if d != disks[0] { AllLayersHas(fs, vm, disks[1..], snapshot, d, p); }
  }

  lemma ChosenHas(fs: Files, vm: string, snapshot: Option<string>, d: string)
    requires Active(vm, d) in fs
    ensures forall n :: n in Included(fs, vm, d, snapshot) ==> Snap(vm, d, n) in Chosen(fs, vm, snapshot)
    ensures snapshot.None? ==> Active(vm, d) in Chosen(fs, vm, snapshot)
  {
    var disks := Sorted(DiskNames(fs, vm), "");
    var names := Sorted(Included(fs, vm, d, snapshot), "");
    var ls := LayersOf(fs, vm, d, snapshot);
    forall n | n in names ensures Snap(vm, d, n) in Chosen(fs, vm, snapshot) {
      var i :| 0 <= i < |names| && names[i] == n;
      assert ls[i] == Snap(vm, d, n);
      AllLayersHas(fs, vm, disks, snapshot, d, Snap(vm, d, n));
    }
    if snapshot.None? {
      assert ls[|ls| - 1] == Active(vm, d);
      AllLayersHas(fs, vm, disks, snapshot, d, Active(vm, d));
    }
  }

  lemma ChosenInFiles(fs: Files, vm: string, snapshot: Option<string>)
    ensures forall p :: p in Chosen(fs, vm, snapshot) ==> p in fs && (p.Active? || p.Snap?) && p.vm == vm
  {
    LayersInFiles(fs, vm, Sorted(DiskNames(fs, vm), ""), snapshot);
  }

  /** The archive holds every chosen layer and every collected image, as they are. */
  lemma TarHolds(fs: Files, vm: string, ls: seq<Path>, images: map<string, Path>)
    requires forall p :: p in ls ==> p in fs && (p.Active? || p.Snap?) && p.vm == vm
    requires forall f :: f in images ==> images[f] in fs
    ensures var tar := Packed(fs, AddSources(map[], ls) + ImageSources(images));
            && (forall p :: p in ls ==> ArcOf(p) in tar && tar[ArcOf(p)] == Bytes(fs[p]))
            && (forall f :: f in images ==> ArcImage(f) in tar && tar[ArcImage(f)] == Bytes(fs[images[f]]))
  {
    forall p | p in ls ensures ArcOf(p) in AddSources(map[], ls) && AddSources(map[], ls)[ArcOf(p)] == p {
      SourcesFind(map[], ls, vm, p);
    }
  }

  /** What `backup` needs of a VM: layers with valid names, standalone base
      images, and the chosen snapshot, if one is named, on every disk. */
  ghost predicate Exportable(fs: Files, vm: string, snapshot: Option<string>) {
    && WellFormed(fs) && WellNamed(fs) && DiskNames(fs, vm) != {}
    && (snapshot.Some? ==> forall d :: Active(vm, d) in fs ==> Snap(vm, d, snapshot.value) in fs)
    && (forall p, b :: p in Chosen(fs, vm, snapshot) && BaseOf(fs, p) == Some(b) && b in fs ==> fs[b].backing == None)
  }

  lemma IncludedInFiles(fs: Files, vm: string, d: string, snapshot: Option<string>)
    ensures forall n :: n in Included(fs, vm, d, snapshot) ==> Snap(vm, d, n) in fs
    ensures snapshot.Some? && Snap(vm, d, snapshot.value) in fs ==> snapshot.value in Included(fs, vm, d, snapshot)
  {
    if snapshot.Some? {
      ChainInFiles(fs, vm, d, snapshot.value);
      LineageDistinct(TreeOf(fs, vm, d), snapshot.value);
    }
  }

  lemma RefResolves(fs: Files, vm: string, d: string, p: Path, vm2: string)
    requires WellFormed(fs) && WellNamed(fs) && p in fs && p.OfDisk(vm, d)
    ensures Resolve(vm2, d, RefOf(fs, vm, d, p)) == Success(Moved(vm2, fs[p].backing))
  {
    if fs[p].backing.Some? {
      BackingOk(fs, p);
      assert GoodName(fs[p].backing.value);
    }
  }

  /** A backing link after the move to another VM and home. */
  function Moved(vm2: string, backing: Option<Path>): Option<Path> {
    match backing
    case None => None
    case Some(b) => Some(To(vm2, b))
  }

  /** Where a layer or a base image ends up. */
  function To(vm2: string, p: Path): Path {
    match p
    case Active(_, d) => Active(vm2, d)
    case Snap(_, d, n) => Snap(vm2, d, n)
    case _ => Image(FileName(p))
  }

  lemma SectionReady(h: Probe, fs: Files, vm: string, snapshot: Option<string>, d: string, staging: map<Arc, Layer>, vm2: string)
    requires WellFormed(fs) && WellNamed(fs) && Active(vm, d) in fs
    requires snapshot.Some? ==> Snap(vm, d, snapshot.value) in fs
    requires forall n :: n in Included(fs, vm, d, snapshot) ==> ArcSnap(d, n) in staging
    requires snapshot.None? ==> ArcDisk(d) in staging
    ensures Ready(staging, vm2, d, SectionOf(h, fs, vm, d, snapshot))
  {
    hide Resolve, RefOf, ValidName, Sorted;
    var s := SectionOf(h, fs, vm, d, snapshot);
    var names := Sorted(Included(fs, vm, d, snapshot), "");
    IncludedInFiles(fs, vm, d, snapshot);
    SortedInOrder(Included(fs, vm, d, snapshot), "");
    forall i | 0 <= i < |s.snapshots|
      ensures ValidName(s.snapshots[i].name) && s.snapshots[i].file.arc == ArcSnap(d, names[i])
      ensures s.snapshots[i].name == names[i] && names[i] in Included(fs, vm, d, snapshot)
      ensures Resolve(vm2, d, s.snapshots[i].parent).Success?
    {
      assert names[i] in names;
      assert GoodName(Snap(vm, d, names[i]));
      RefResolves(fs, vm, d, Snap(vm, d, names[i]), vm2);
    }
    assert GoodName(Active(vm, d));
    RefResolves(fs, vm, d, Active(vm, d), vm2);
    if snapshot.Some? {
      var i :| 0 <= i < |names| && names[i] == snapshot.value;
      assert s.snapshots[i].name == s.current.value;
    }
  }

  lemma {:induction false} DiskFilesFrom(m: Manifest, disks: seq<string>, r: FileRec)
    requires forall d :: d in disks ==> d in m.disks
    requires r in DiskFiles(m, disks)
    ensures exists d :: d in disks && r in SectionFiles(m.disks[d])
    decreases |disks|
  {
    if r in SectionFiles(m.disks[disks[0]]) {
      assert disks[0] in disks;
    } else {
      DiskFilesFrom(m, disks[1..], r);
      var d :| d in disks[1..] && r in SectionFiles(m.disks[d]);
      assert d in disks;
    }
  }

  lemma SectionVerified(h: Probe, fs: Files, b: Bundle, vm: string, snapshot: Option<string>, d: string, r: FileRec)
    requires Active(vm, d) in fs && r in SectionFiles(SectionOf(h, fs, vm, d, snapshot))
    requires forall p :: p in Chosen(fs, vm, snapshot) ==> p in fs && ArcOf(p) in b.tar && b.tar[ArcOf(p)] == Bytes(fs[p])
    ensures RecordOk(h, b, r)
  {
    hide Included, Chosen, LayersOf, Sorted;
    ChosenHas(fs, vm, snapshot, d);
    var s := SectionOf(h, fs, vm, d, snapshot);
    var names := Sorted(Included(fs, vm, d, snapshot), "");
    if s.active.Some? && r == s.active.value.file {
      assert r == Rec(h, fs, Active(vm, d));
    } else {
      var i :| 0 <= i < |s.snapshots| && r == SnapFiles(s.snapshots)[i];
      assert names[i] in names;
      assert r == Rec(h, fs, Snap(vm, d, names[i]));
    }
  }

  /** Every record of a fresh backup checks out. */
  lemma BackupVerifies(h: Probe, fs: Files, vm: string, snapshot: Option<string>, images: map<string, Path>, b: Bundle)
    requires WellFormed(fs) && Gather(fs, Chosen(fs, vm, snapshot), map[]) == Some(images)
    requires b == MakeBundle(h, fs, vm, snapshot, AddSources(map[], Chosen(fs, vm, snapshot)), images)
    ensures AllVerified(h, b)
  {
    hide Chosen, SectionOf, DiskFiles, SectionFiles, AddSources, Packed, Sorted;
    BundleHolds(h, fs, vm, snapshot, images, b);
    forall r | r in ManifestFiles(b.manifest) ensures RecordOk(h, b, r) {
      var disks := Sorted(b.manifest.disks.Keys, "");
      if r in DiskFiles(b.manifest, disks) {
        DiskFilesFrom(b.manifest, disks, r);
        var d :| d in disks && r in SectionFiles(b.manifest.disks[d]);
        assert d in b.manifest.disks;
        SectionVerified(h, fs, b, vm, snapshot, d, r);
      } else {
        var i :| 0 <= i < |b.manifest.images| && r == b.manifest.images[i];
        ImageRecsAre(h, fs, images, i);
      }
    }
  }

  lemma ImageRecsAre(h: Probe, fs: Files, images: map<string, Path>, i: nat)
    requires i < |ImageRecs(h, fs, images)|
    ensures exists f :: f in images && ImageRecs(h, fs, images)[i] == ImageRec(h, fs, images, f)
  {
    var names := Sorted(images.Keys, "");
    assert names[i] in names;
    assert ImageRecs(h, fs, images)[i] == ImageRec(h, fs, images, names[i]);
  }

  /** The contents of a backup, layer by layer and image by image. */
  lemma BundleHolds(h: Probe, fs: Files, vm: string, snapshot: Option<string>, images: map<string, Path>, b: Bundle)
    requires WellFormed(fs) && Gather(fs, Chosen(fs, vm, snapshot), map[]) == Some(images)
    requires b == MakeBundle(h, fs, vm, snapshot, AddSources(map[], Chosen(fs, vm, snapshot)), images)
    ensures forall p :: p in Chosen(fs, vm, snapshot) ==>
              p in fs && (p.Active? || p.Snap?) && p.vm == vm && ArcOf(p) in b.tar && b.tar[ArcOf(p)] == Bytes(fs[p])
    ensures forall f :: f in images ==>
              && images[f] in fs && images[f].IsBase() && FileName(images[f]) == f
              && ArcImage(f) in b.tar && b.tar[ArcImage(f)] == Bytes(fs[images[f]])
    ensures forall p :: p in Chosen(fs, vm, snapshot) && BaseOf(fs, p).Some? ==>
              FileName(BaseOf(fs, p).value) in images && images[FileName(BaseOf(fs, p).value)] == BaseOf(fs, p).value
    ensures forall f :: f in images ==> exists p :: p in Chosen(fs, vm, snapshot) && BaseOf(fs, p) == Some(images[f])
  {
    hide Chosen, SectionOf, AddSources, Packed, Gather, BaseOf, ArcOf, ImageRecs, DiskNames, FileName, WellFormed, ImageSources;
    var ls := Chosen(fs, vm, snapshot);
    ChosenInFiles(fs, vm, snapshot);
    GatherCollects(fs, ls, map[]);
    TarHolds(fs, vm, ls, images);
  }

  // ---- restoring a backup -----------------------------------------------------------

  lemma {:induction false} DiskFilesHas(m: Manifest, disks: seq<string>, d: string, r: FileRec)
    requires forall e :: e in disks ==> e in m.disks
    requires d in disks && r in SectionFiles(m.disks[d])
    ensures r in DiskFiles(m, disks)
    decreases |disks|
  {
    if d != disks[0] { DiskFilesHas(m, disks[1..], d, r); }
  }

  lemma StagedHas(h: Probe, b: Bundle, r: FileRec)
    requires AllVerified(h, b) && r in ManifestFiles(b.manifest)
    ensures var st := Staged(b, ManifestFiles(b.manifest)); r.arc in b.tar && r.arc in st && st[r.arc] == b.tar[r.arc]
  {
    assert RecordOk(h, b, r);
  }

  /** The files of each section are staged. */
  lemma SectionStaged(h: Probe, fs: Files, b: Bundle, vm: string, snapshot: Option<string>, d: string)
    requires AllVerified(h, b) && Active(vm, d) in fs
    requires d in b.manifest.disks && b.manifest.disks[d] == SectionOf(h, fs, vm, d, snapshot)
    ensures var st := Staged(b, ManifestFiles(b.manifest));
            && (forall n :: n in Included(fs, vm, d, snapshot) ==>
                 ArcSnap(d, n) in b.tar && ArcSnap(d, n) in st && st[ArcSnap(d, n)] == b.tar[ArcSnap(d, n)])
            && (snapshot.None? ==> ArcDisk(d) in b.tar && ArcDisk(d) in st && st[ArcDisk(d)] == b.tar[ArcDisk(d)])
  {
    hide Included, Staged, DiskFiles, AllVerified, Sorted;
    var m, s := b.manifest, SectionOf(h, fs, vm, d, snapshot);
    var disks, names := Sorted(m.disks.Keys, ""), Sorted(Included(fs, vm, d, snapshot), "");
    forall n | n in Included(fs, vm, d, snapshot)
      ensures var st := Staged(b, ManifestFiles(m));
              ArcSnap(d, n) in b.tar && ArcSnap(d, n) in st && st[ArcSnap(d, n)] == b.tar[ArcSnap(d, n)]
    {
      var i :| 0 <= i < |names| && names[i] == n;
      var r := s.snapshots[i].file;
      assert SnapFiles(s.snapshots)[i] == r && r.arc == ArcSnap(d, n);
      assert r in SectionFiles(s);
      DiskFilesHas(m, disks, d, r);
      StagedHas(h, b, r);
    }
    if snapshot.None? {
      var r := s.active.value.file;
      assert SectionFiles(s)[0] == r && r.arc == ArcDisk(d);
      assert r in SectionFiles(s);
      DiskFilesHas(m, disks, d, r);
      StagedHas(h, b, r);
    }
  }

  /** The target home lacks each bundled image or has the same one. */
  ghost predicate Compatible(fs: Files, fs2: Files, images: map<string, Path>) {
    forall f :: f in images ==> images[f] in fs && (Image(f) in fs2 ==> Bytes(fs2[Image(f)]) == Bytes(fs[images[f]]))
  }

  function ImageContents(fs: Files, images: map<string, Path>): map<Path, Layer> {
    map f | f in images && images[f] in fs :: Image(f) := Bytes(fs[images[f]])
  }

  lemma ImagePlaceable(h: Probe, fs: Files, fs2: Files, images: map<string, Path>, b: Bundle, i: nat)
    requires Compatible(fs, fs2, images) && AllVerified(h, b) && b.manifest.images == ImageRecs(h, fs, images)
    requires forall f :: f in images ==> ArcImage(f) in b.tar && b.tar[ArcImage(f)] == Bytes(fs[images[f]])
    requires i < |b.manifest.images|
    ensures var f := Sorted(images.Keys, "")[i]; f in images && b.manifest.images[i].arc == ArcImage(f)
    ensures Placeable(h, Work(fs2, Staged(b, ManifestFiles(b.manifest))), b.manifest.images[i], ImageContents(fs, images))
  {
    hide Staged, ManifestFiles, AllVerified, Sorted;
    var names := Sorted(images.Keys, "");
    assert names[i] in names;
    ImageStaged(h, b, b.manifest.images[i]);
  }

  lemma PlacedIs(fs: Files, fs': Files, images: map<string, Path>, r: FileRec, f: string)
    requires f in images && images[f] in fs && r.arc == ArcImage(f) && Placed(fs', r, ImageContents(fs, images))
    ensures Image(f) in fs' && Bytes(fs'[Image(f)]) == Bytes(fs[images[f]])
  {
  }

  lemma ImagesPlace(h: Probe, fs: Files, fs2: Files, images: map<string, Path>, b: Bundle)
    requires Compatible(fs, fs2, images) && AllVerified(h, b) && b.manifest.images == ImageRecs(h, fs, images)
    requires forall f :: f in images ==> ArcImage(f) in b.tar && b.tar[ArcImage(f)] == Bytes(fs[images[f]])
    ensures var st := Staged(b, ManifestFiles(b.manifest)); var t := PlaceAll(h, Work(fs2, st), b.manifest.images);
            && t.Done? && KeepsLayers(st, t.w.staging)
            && (forall f :: f in images ==> Image(f) in t.w.fs && Bytes(t.w.fs[Image(f)]) == Bytes(fs[images[f]]))
            && (forall p :: p in fs2 ==> p in t.w.fs && t.w.fs[p] == fs2[p])
            && (forall p :: p in t.w.fs && p !in fs2 ==> p.Image? && p.file in images)
  {
    hide Staged, ManifestFiles, AllVerified, PlaceAll, Placeable, Placed, Bytes, ImageRecs, ImageContents, KeepsLayers, Added, Sorted;
    var st, rs, names := Staged(b, ManifestFiles(b.manifest)), b.manifest.images, Sorted(images.Keys, "");
    forall i | 0 <= i < |rs| ensures Placeable(h, Work(fs2, st), rs[i], ImageContents(fs, images)) {
      ImagePlaceable(h, fs, fs2, images, b, i);
    }
    ImageArcsDistinct(h, fs, images);
    PlaceAllResult(h, Work(fs2, st), rs, ImageContents(fs, images));
    var t := PlaceAll(h, Work(fs2, st), rs);
    forall f | f in images ensures Image(f) in t.w.fs && Bytes(t.w.fs[Image(f)]) == Bytes(fs[images[f]]) {
      var i :| 0 <= i < |names| && names[i] == f;
      ImagePlaceable(h, fs, fs2, images, b, i);
      PlacedIs(fs, t.w.fs, images, rs[i], f);
    }
    AddedIs(h, fs, images, fs2, t.w.fs);
  }

  lemma ImageArcsDistinct(h: Probe, fs: Files, images: map<string, Path>)
    ensures var rs := ImageRecs(h, fs, images); forall i, j :: 0 <= i < j < |rs| ==> rs[i].arc != rs[j].arc
  {
    hide FileLe;
    SortedInOrder(images.Keys, "");
    var rs, names := ImageRecs(h, fs, images), Sorted(images.Keys, "");
    forall i | 0 <= i < |rs| ensures rs[i].arc == ArcImage(names[i]) { }
  }

  lemma AddedIs(h: Probe, fs: Files, images: map<string, Path>, fs2: Files, fs': Files)
    requires Added(fs2, fs', ImageRecs(h, fs, images))
    ensures forall p :: p in fs2 ==> p in fs' && fs'[p] == fs2[p]
    ensures forall p :: p in fs' && p !in fs2 ==> p.Image? && p.file in images
  {
    hide Sorted;
    var rs, names := ImageRecs(h, fs, images), Sorted(images.Keys, "");
    forall p | p in fs' && p !in fs2 ensures p.Image? && p.file in images {
      var i :| 0 <= i < |rs| && p == Dst(rs[i]);
      assert names[i] in names && rs[i].arc == ArcImage(names[i]);
    }
  }

  lemma ImageStaged(h: Probe, b: Bundle, r: FileRec)
    requires AllVerified(h, b) && r in b.manifest.images
    ensures var st := Staged(b, ManifestFiles(b.manifest)); r.arc in b.tar && r.arc in st && st[r.arc] == b.tar[r.arc]
  {
    assert r in ManifestFiles(b.manifest);
    StagedHas(h, b, r);
  }

  /** The home after restoring a backup, file by file: the layers, the other
      files, and nothing else in the VM. */
  ghost predicate LayersArrived(h: Probe, fs: Files, vm: string, snapshot: Option<string>, tar: map<Arc, Layer>, vm2: string, fs': Files) {
    forall d :: d in DiskNames(fs, vm) ==>
      && Ready(tar, vm2, d, SectionOf(h, fs, vm, d, snapshot))
      && Landed(fs', tar, vm2, d, SectionOf(h, fs, vm, d, snapshot))
  }

  ghost predicate OthersKept(fs: Files, images: map<string, Path>, fs2: Files, vm2: string, fs': Files) {
    && (forall f :: f in images ==> images[f] in fs && Image(f) in fs' && Bytes(fs'[Image(f)]) == Bytes(fs[images[f]]))
    && (forall p :: p in fs2 && !p.InVm(vm2) ==> p in fs' && fs'[p] == fs2[p])
    && (forall p :: p in fs' && !p.InVm(vm2) ==> p in fs2 || (p.Image? && p.file in images))
  }

  ghost predicate OnlyLayers(h: Probe, fs: Files, vm: string, snapshot: Option<string>, vm2: string, fs': Files) {
    forall p :: p in fs' && p.InVm(vm2) ==>
      exists d :: d in DiskNames(fs, vm) && !Elsewhere(p, vm2, d, SectionOf(h, fs, vm, d, snapshot))
  }

  ghost predicate SectionsAre(h: Probe, fs: Files, vm: string, snapshot: Option<string>, m: Manifest) {
    m.disks.Keys == DiskNames(fs, vm) && forall d :: d in DiskNames(fs, vm) ==> m.disks[d] == SectionOf(h, fs, vm, d, snapshot)
  }

  /** The sections of a backup are ready, once staged and also after the images
      have been moved out. */
  lemma SectionsReady(h: Probe, fs: Files, vm: string, snapshot: Option<string>, b: Bundle, vm2: string, st': map<Arc, Layer>, d: string, fs': Files)
    requires Exportable(fs, vm, snapshot) && AllVerified(h, b) && d in DiskNames(fs, vm)
    requires d in b.manifest.disks && b.manifest.disks[d] == SectionOf(h, fs, vm, d, snapshot)
    requires KeepsLayers(Staged(b, ManifestFiles(b.manifest)), st')
    ensures var s := SectionOf(h, fs, vm, d, snapshot);
            && Ready(st', vm2, d, s) && Ready(b.tar, vm2, d, s)
            && (Landed(fs', st', vm2, d, s) ==> Landed(fs', b.tar, vm2, d, s))
  {
    hide Staged, ManifestFiles, AllVerified, SectionOf, Included, Ready, Landed, Chosen;
    var s, st := SectionOf(h, fs, vm, d, snapshot), Staged(b, ManifestFiles(b.manifest));
    SectionStaged(h, fs, b, vm, snapshot, d);
    SectionReady(h, fs, vm, snapshot, d, b.tar, vm2);
    SectionReady(h, fs, vm, snapshot, d, st', vm2);
    LandedSame(h, fs, vm, snapshot, d, st', b.tar, vm2, fs');
  }

  lemma LandedSame(h: Probe, fs: Files, vm: string, snapshot: Option<string>, d: string,
                   s1: map<Arc, Layer>, s2: map<Arc, Layer>, vm2: string, fs': Files)
    requires Active(vm, d) in fs
    requires var s := SectionOf(h, fs, vm, d, snapshot); Ready(s1, vm2, d, s) && Ready(s2, vm2, d, s)
    requires forall n :: n in Included(fs, vm, d, snapshot) ==> ArcSnap(d, n) in s1 && ArcSnap(d, n) in s2 && s1[ArcSnap(d, n)] == s2[ArcSnap(d, n)]
    requires snapshot.None? ==> ArcDisk(d) in s1 && ArcDisk(d) in s2 && s1[ArcDisk(d)] == s2[ArcDisk(d)]
    ensures var s := SectionOf(h, fs, vm, d, snapshot); Landed(fs', s1, vm2, d, s) ==> Landed(fs', s2, vm2, d, s)
  {
    hide Resolve, Included, RefOf, Sorted;
    var s, names := SectionOf(h, fs, vm, d, snapshot), Sorted(Included(fs, vm, d, snapshot), "");
    forall i | 0 <= i < |s.snapshots| ensures s1[s.snapshots[i].file.arc] == s2[s.snapshots[i].file.arc] {
      assert names[i] in names;
      assert s.snapshots[i].file.arc == ArcSnap(d, names[i]);
    }
  }

  /** Up to the assembly: verified, images placed, the old VM gone. */
  lemma RestoreReachesAssembly(h: Probe, fs: Files, vm: string, snapshot: Option<string>, images: map<string, Path>, b: Bundle,
                               fs2: Files, vm2: string) returns (w: Work)
    requires WellFormed(fs) && Gather(fs, Chosen(fs, vm, snapshot), map[]) == Some(images)
    requires b == MakeBundle(h, fs, vm, snapshot, AddSources(map[], Chosen(fs, vm, snapshot)), images)
    requires Compatible(fs, fs2, images)
    ensures AllVerified(h, b) && KeepsLayers(Staged(b, ManifestFiles(b.manifest)), w.staging)
    ensures var t := AssembleAll(w, vm2, b.manifest, Sorted(b.manifest.disks.Keys, ""), NO_FAULTS);
            t.Done? ==> Unpack(h, fs2, b, vm2, NO_FAULTS) == t
    ensures OthersKept(fs, images, fs2, vm2, w.fs) && forall p :: p in w.fs ==> !p.InVm(vm2)
  {
    hide Gather, Chosen, AddSources, MakeBundle, AllVerified, Staged, ManifestFiles, PlaceAll, AssembleAll, Unpack, KeepsLayers, WellFormed, ImageRecs, Bytes, FileName, ArcOf, BaseOf, Sorted, OthersKept, Wipe;
    BackupVerifies(h, fs, vm, snapshot, images, b);
    BundleHolds(h, fs, vm, snapshot, images, b);
    BundleImages(h, fs, vm, snapshot, AddSources(map[], Chosen(fs, vm, snapshot)), images);
    ImagesPlace(h, fs, fs2, images, b);
    var w1 := PlaceAll(h, Work(fs2, Staged(b, ManifestFiles(b.manifest))), b.manifest.images).w;
    w := Work(Wipe(w1.fs, vm2), w1.staging);
    UnpackIs(h, fs2, b, vm2, w1);
    WipedKeeps(fs, images, fs2, vm2, w1.fs);
  }

  lemma WipedKeeps(fs: Files, images: map<string, Path>, fs2: Files, vm2: string, fs1: Files)
    requires forall f :: f in images ==> images[f] in fs && Image(f) in fs1 && Bytes(fs1[Image(f)]) == Bytes(fs[images[f]])
    requires forall p :: p in fs2 ==> p in fs1 && fs1[p] == fs2[p]
    requires forall p :: p in fs1 && p !in fs2 ==> p.Image? && p.file in images
    ensures OthersKept(fs, images, fs2, vm2, Wipe(fs1, vm2)) && forall p :: p in Wipe(fs1, vm2) ==> !p.InVm(vm2)
  {
    hide Bytes;
    var w := Wipe(fs1, vm2);
    assert forall p :: p in w ==> w[p] == fs1[p];
  }

  lemma BundleImages(h: Probe, fs: Files, vm: string, snapshot: Option<string>, sources: map<Arc, Path>, images: map<string, Path>)
    ensures MakeBundle(h, fs, vm, snapshot, sources, images).manifest.images == ImageRecs(h, fs, images)
  {
    hide SectionOf, Packed, ImageRecs;
  }

  lemma UnpackIs(h: Probe, fs2: Files, b: Bundle, vm2: string, w1: Work)
    requires AllVerified(h, b)
    requires PlaceAll(h, Work(fs2, Staged(b, ManifestFiles(b.manifest))), b.manifest.images) == Done(w1)
    ensures var t := AssembleAll(Work(Wipe(w1.fs, vm2), w1.staging), vm2, b.manifest, Sorted(b.manifest.disks.Keys, ""), NO_FAULTS);
            t.Done? ==> Unpack(h, fs2, b, vm2, NO_FAULTS) == t
  {
    hide AllVerified, Staged, ManifestFiles, PlaceAll, AssembleAll, Sorted;
    assert b.manifest.disks.Keys * NO_FAULTS.unhealthy == {};
  }

  /** The assembly from `w` goes through, the layers arrive and all else stays. */
  ghost predicate Assembled(h: Probe, fs: Files, vm: string, snapshot: Option<string>, b: Bundle, vm2: string, w: Work) {
    var t := AssembleAll(w, vm2, b.manifest, Sorted(b.manifest.disks.Keys, ""), NO_FAULTS);
    && t.Done? && LayersArrived(h, fs, vm, snapshot, b.tar, vm2, t.w.fs)
    && forall p :: OtherDisks(p, vm2, b.manifest, Sorted(b.manifest.disks.Keys, "")) ==>
         (p in t.w.fs <==> p in w.fs) && (p in w.fs ==> t.w.fs[p] == w.fs[p])
  }

  /** The assembly: no step of it stops. */
  lemma AssemblyRuns(h: Probe, fs: Files, vm: string, snapshot: Option<string>, b: Bundle, vm2: string, w: Work)
    requires Exportable(fs, vm, snapshot) && AllVerified(h, b) && SectionsAre(h, fs, vm, snapshot, b.manifest)
    requires KeepsLayers(Staged(b, ManifestFiles(b.manifest)), w.staging)
    ensures Assembled(h, fs, vm, snapshot, b, vm2, w)
  {
    hide Chosen, SectionOf, Ready, Landed, AllVerified, Staged, ManifestFiles, AssembleAll, KeepsLayers, Exportable, Elsewhere, OtherDisks, DiskNames, Distinct;
    var m, disks := b.manifest, Sorted(b.manifest.disks.Keys, "");
    forall d | d in disks ensures d in m.disks && d in DiskNames(fs, vm) && Ready(w.staging, vm2, d, m.disks[d]) {
      SectionsReady(h, fs, vm, snapshot, b, vm2, w.staging, d, w.fs);
    }
    DisksDistinct(m.disks.Keys);
    AssembleAllResult(w, vm2, m, disks);
    var fs' := AssembleAll(w, vm2, m, disks, NO_FAULTS).w.fs;
    forall d | d in DiskNames(fs, vm)
      ensures Ready(b.tar, vm2, d, SectionOf(h, fs, vm, d, snapshot)) && Landed(fs', b.tar, vm2, d, SectionOf(h, fs, vm, d, snapshot))
    {
      assert d in disks;
      SectionsReady(h, fs, vm, snapshot, b, vm2, w.staging, d, fs');
    }
  }

  lemma AssemblyKeepsOthers(h: Probe, fs: Files, vm: string, snapshot: Option<string>, images: map<string, Path>, m: Manifest,
                            fs2: Files, vm2: string, fs1: Files, fs': Files)
    requires SectionsAre(h, fs, vm, snapshot, m)
    requires OthersKept(fs, images, fs2, vm2, fs1) && forall p :: p in fs1 ==> !p.InVm(vm2)
    requires forall p :: OtherDisks(p, vm2, m, Sorted(m.disks.Keys, "")) ==>
                 (p in fs' <==> p in fs1) && (p in fs1 ==> fs'[p] == fs1[p])
    ensures OthersKept(fs, images, fs2, vm2, fs') && OnlyLayers(h, fs, vm, snapshot, vm2, fs')
  {
    hide SectionOf, DiskNames, Elsewhere, Bytes;
    var disks := Sorted(m.disks.Keys, "");
    forall p: Path | !p.InVm(vm2) ensures (p in fs' <==> p in fs1) && (p in fs1 ==> fs'[p] == fs1[p]) {
      OutsideVm(p, vm2, m, disks);
    }
    forall p | p in fs' && p.InVm(vm2)
      ensures exists d :: d in DiskNames(fs, vm) && !Elsewhere(p, vm2, d, SectionOf(h, fs, vm, d, snapshot))
    {
      assert !OtherDisks(p, vm2, m, disks);
      var d :| d in disks && !Elsewhere(p, vm2, d, m.disks[d]);
    }
  }

  lemma BundleSections(h: Probe, fs: Files, vm: string, snapshot: Option<string>, sources: map<Arc, Path>, images: map<string, Path>)
    ensures SectionsAre(h, fs, vm, snapshot, MakeBundle(h, fs, vm, snapshot, sources, images).manifest)
  {
    hide SectionOf, Packed, ImageRecs;
  }

  /** A backup restores without a stop wherever the target home allows it. */
  lemma RestoreArrives(h: Probe, fs: Files, vm: string, snapshot: Option<string>, images: map<string, Path>, b: Bundle,
                       fs2: Files, asVm: Option<string>, force: bool)
    requires Exportable(fs, vm, snapshot) && Gather(fs, Chosen(fs, vm, snapshot), map[]) == Some(images)
    requires b == MakeBundle(h, fs, vm, snapshot, AddSources(map[], Chosen(fs, vm, snapshot)), images)
    requires Compatible(fs, fs2, images) && Refusal(fs2, b, Target(b, asVm), force).Ok?
    ensures var (fs', r) := Restore(h, fs2, b, asVm, force, NO_FAULTS); var vm2 := Target(b, asVm);
            && r.Ok? && LayersArrived(h, fs, vm, snapshot, b.tar, vm2, fs')
            && OthersKept(fs, images, fs2, vm2, fs') && OnlyLayers(h, fs, vm, snapshot, vm2, fs')
  {
    hide Gather, Chosen, AddSources, MakeBundle, SectionsAre, AllVerified, Staged, ManifestFiles, AssembleAll, Unpack, KeepsLayers, WellFormed, Refusal, Compatible, LayersArrived, OthersKept, OnlyLayers, OtherDisks;
    var vm2 := Target(b, asVm);
    BundleSections(h, fs, vm, snapshot, AddSources(map[], Chosen(fs, vm, snapshot)), images);
    var w := RestoreReachesAssembly(h, fs, vm, snapshot, images, b, fs2, vm2);
    AssemblyRuns(h, fs, vm, snapshot, b, vm2, w);
    var t := AssembleAll(w, vm2, b.manifest, Sorted(b.manifest.disks.Keys, ""), NO_FAULTS);
    AssemblyKeepsOthers(h, fs, vm, snapshot, images, b.manifest, fs2, vm2, w.fs, t.w.fs);
  }

  lemma DisksDistinct(ds: set<string>)
    ensures Distinct(Sorted(ds, ""))
  {
    SortedInOrder(ds, "");
  }

  lemma OutsideVm(p: Path, vm2: string, m: Manifest, disks: seq<string>)
    requires !p.InVm(vm2) && forall d :: d in disks ==> d in m.disks
    ensures OtherDisks(p, vm2, m, disks)
  {
  }

  // ---- the copy shows what the original showed -----------------------------------------

  predicate IsCopy(fs: Files, fs': Files, vm2: string, p: Path)
    requires p in fs
  {
    && To(vm2, p) in fs'
    && fs'[To(vm2, p)].data == fs[p].data && fs'[To(vm2, p)].size == fs[p].size
    && fs'[To(vm2, p)].backing == Moved(vm2, fs[p].backing)
    && (p.Snap? ==> fs'[To(vm2, p)].readonly)
  }

  function FreshOn(fs: Files, p: Path): Layer
    requires p in fs
  {
    Layer(map[], fs[p].size, Some(p), false)
  }

  ghost predicate Copy(fs: Files, vm: string, snapshot: Option<string>, vm2: string, fs': Files) {
    && (forall d, n :: d in DiskNames(fs, vm) && n in Included(fs, vm, d, snapshot) ==>
         Snap(vm, d, n) in fs && IsCopy(fs, fs', vm2, Snap(vm, d, n)))
    && (forall d :: d in DiskNames(fs, vm) ==>
         && Active(vm2, d) in fs'
         && match snapshot
            case None => IsCopy(fs, fs', vm2, Active(vm, d))
            case Some(s) => Snap(vm2, d, s) in fs' && fs'[Active(vm2, d)] == FreshOn(fs', Snap(vm2, d, s)))
    && (forall p :: p in fs' && p.InVm(vm2) ==>
         p.disk in DiskNames(fs, vm) && (p.Active? || (p.Snap? && p.name in Included(fs, vm, p.disk, snapshot))))
  }

  lemma DiskCopied(h: Probe, fs: Files, vm: string, snapshot: Option<string>, d: string, tar: map<Arc, Layer>, vm2: string, fs': Files)
    requires Exportable(fs, vm, snapshot) && Active(vm, d) in fs
    requires var s := SectionOf(h, fs, vm, d, snapshot); Ready(tar, vm2, d, s) && Landed(fs', tar, vm2, d, s)
    requires forall p :: p in Chosen(fs, vm, snapshot) ==> p in fs && ArcOf(p) in tar && tar[ArcOf(p)] == Bytes(fs[p])
    ensures forall n :: n in Included(fs, vm, d, snapshot) ==> Snap(vm, d, n) in fs && IsCopy(fs, fs', vm2, Snap(vm, d, n))
    ensures Active(vm2, d) in fs'
    ensures snapshot.None? ==> IsCopy(fs, fs', vm2, Active(vm, d))
    ensures snapshot.Some? ==> Snap(vm2, d, snapshot.value) in fs' && fs'[Active(vm2, d)] == FreshOn(fs', Snap(vm2, d, snapshot.value))
  {
    hide Resolve, RefOf, Included, Chosen, WellFormed, ValidName, Sorted;
    var s, names := SectionOf(h, fs, vm, d, snapshot), Sorted(Included(fs, vm, d, snapshot), "");
    ChosenHas(fs, vm, snapshot, d);
    forall n | n in Included(fs, vm, d, snapshot) ensures Snap(vm, d, n) in fs && IsCopy(fs, fs', vm2, Snap(vm, d, n)) {
      var i :| 0 <= i < |names| && names[i] == n;
      RefResolves(fs, vm, d, Snap(vm, d, n), vm2);
      assert s.snapshots[i].name == n && s.snapshots[i].file.arc == ArcSnap(d, n);
    }
    RefResolves(fs, vm, d, Active(vm, d), vm2);
  }

  lemma OnlyLayersAre(h: Probe, fs: Files, vm: string, snapshot: Option<string>, vm2: string, fs': Files, p: Path)
    requires OnlyLayers(h, fs, vm, snapshot, vm2, fs') && p in fs' && p.InVm(vm2)
    ensures p.disk in DiskNames(fs, vm) && (p.Active? || (p.Snap? && p.name in Included(fs, vm, p.disk, snapshot)))
  {
    hide Included, Sorted;
    var d :| d in DiskNames(fs, vm) && !Elsewhere(p, vm2, d, SectionOf(h, fs, vm, d, snapshot));
    if p != Active(vm2, d) {
      var s, names := SectionOf(h, fs, vm, d, snapshot), Sorted(Included(fs, vm, d, snapshot), "");
      var i :| 0 <= i < |s.snapshots| && p == Snap(vm2, d, s.snapshots[i].name);
      assert names[i] in names && s.snapshots[i].name == names[i];
    }
  }

  lemma ArrivedIsCopy(h: Probe, fs: Files, vm: string, snapshot: Option<string>, tar: map<Arc, Layer>, vm2: string, fs': Files)
    requires Exportable(fs, vm, snapshot) && LayersArrived(h, fs, vm, snapshot, tar, vm2, fs')
    requires OnlyLayers(h, fs, vm, snapshot, vm2, fs')
    requires forall p :: p in Chosen(fs, vm, snapshot) ==> p in fs && ArcOf(p) in tar && tar[ArcOf(p)] == Bytes(fs[p])
    ensures Copy(fs, vm, snapshot, vm2, fs')
  {
    hide SectionOf, Ready, Landed, Exportable, Chosen, Included, IsCopy, OnlyLayers;
    forall d | d in DiskNames(fs, vm)
      ensures forall n :: n in Included(fs, vm, d, snapshot) ==> Snap(vm, d, n) in fs && IsCopy(fs, fs', vm2, Snap(vm, d, n))
      ensures Active(vm2, d) in fs'
      ensures snapshot.None? ==> IsCopy(fs, fs', vm2, Active(vm, d))
      ensures snapshot.Some? ==> Snap(vm2, d, snapshot.value) in fs' && fs'[Active(vm2, d)] == FreshOn(fs', Snap(vm2, d, snapshot.value))
    {
      DiskCopied(h, fs, vm, snapshot, d, tar, vm2, fs');
    }
    forall p | p in fs' && p.InVm(vm2)
      ensures p.disk in DiskNames(fs, vm) && (p.Active? || (p.Snap? && p.name in Included(fs, vm, p.disk, snapshot)))
    {
      OnlyLayersAre(h, fs, vm, snapshot, vm2, fs', p);
    }
  }

  /** What a chosen layer sits on is chosen too, or is a collected image. */
  lemma IncludedClosed(fs: Files, vm: string, d: string, snapshot: Option<string>, p: Path)
    requires IsForest(Links(fs)) && p in fs && p.OfDisk(vm, d) && fs[p].backing.Some?
    requires p.Snap? ==> p.name in Included(fs, vm, d, snapshot)
    requires p.Active? ==> snapshot.None?
    ensures var b := fs[p].backing.value; b in fs && (b.Snap? && b.vm == vm && b.disk == d ==> b.name in Included(fs, vm, d, snapshot))
    ensures WellFormed(fs) && !fs[p].backing.value.IsBase() ==> fs[p].backing.value.Snap? && fs[p].backing.value.OfDisk(vm, d)
  {
    hide Lineage, IsForest;
    ForestRanksDown(Links(fs));
    var b := fs[p].backing.value;
    if snapshot.Some? && b.Snap? && b.vm == vm && b.disk == d {
      TreeOfIsForest(fs, vm, d);
      assert TreeOf(fs, vm, d)[p.name] == Some(b.name);
      ParentOnTheWay(TreeOf(fs, vm, d), snapshot.value, p.name);
    }
  }

  lemma ParentOnTheWay(par: Tree, s: string, n: string)
    requires IsForest(par) && n in Lineage(par, s) && n in par && par[n].Some?
    ensures par[n].value in Lineage(par, s)
  {
    LineageDistinct(par, s);
    var l := Lineage(par, s);
    var i :| 0 <= i < |l| && l[i] == n;
    LineageSuffix(par, s, i);
    Unfold(par, n);
    LineageDistinct(par, par[n].value);
    assert l[i..][1] == par[n].value;
    assert l[i + 1] == par[n].value;
  }

  /** The layers and base images that travel. */
  ghost function Travel(fs: Files, vm: string, snapshot: Option<string>, images: map<string, Path>): set<Path> {
    (set p | p in fs && p.Snap? && p.vm == vm && p.disk in DiskNames(fs, vm) && p.name in Included(fs, vm, p.disk, snapshot)) +
    (set p | p in fs && p.Active? && p.vm == vm && snapshot.None?) +
    (set f | f in images :: images[f])
  }

  ghost predicate GoodImages(fs: Files, vm: string, snapshot: Option<string>, images: map<string, Path>) {
    && (forall f :: f in images ==>
         images[f] in fs && images[f].IsBase() && FileName(images[f]) == f && fs[images[f]].backing == None)
    && (forall p :: p in Chosen(fs, vm, snapshot) && BaseOf(fs, p).Some? ==>
         FileName(BaseOf(fs, p).value) in images && images[FileName(BaseOf(fs, p).value)] == BaseOf(fs, p).value)
  }

  /** A link that travels ends at something that travels. */
  lemma TravelClosed(fs: Files, vm: string, snapshot: Option<string>, images: map<string, Path>, p: Path)
    requires WellFormed(fs) && GoodImages(fs, vm, snapshot, images)
    requires p in Travel(fs, vm, snapshot, images) && fs[p].backing.Some?
    ensures p.OfDisk(vm, p.disk) && p.disk in DiskNames(fs, vm)
    ensures fs[p].backing.value in Travel(fs, vm, snapshot, images)
    ensures fs[p].backing.value.IsBase() ==>
              FileName(fs[p].backing.value) in images && images[FileName(fs[p].backing.value)] == fs[p].backing.value
  {
    hide Included, Chosen;
    var d := p.disk;
    IncludedClosed(fs, vm, d, snapshot, p);
    ChosenHas(fs, vm, snapshot, d);
    assert p in Chosen(fs, vm, snapshot);
  }

  ghost function CopyRank(fs': Files, vm: string, vm2: string, snapshot: Option<string>,
                          rank: map<Path, nat>, rank2: map<Path, nat>): (r: map<Path, nat>)
    ensures r.Keys == Links(fs').Keys
  {
    map p | p in Links(fs') ::
      if fs'[p].backing.None? then 0
      else if p.InVm(vm2) then
        var q := if p.Active? && snapshot.Some? then Snap(vm, p.disk, snapshot.value) else To(vm, p);
        (if q in rank then rank[q] else 0) + if p.Active? then 2 else 1
      else (if p in rank2 then rank2[p] else 0) + 1
  }

  /** One link of the restored home: it exists, goes down in rank, and is of a
      kind that is allowed. */
  lemma CopyLink(fs: Files, vm: string, snapshot: Option<string>, images: map<string, Path>, fs2: Files, vm2: string, fs': Files,
                 rank: map<Path, nat>, rank2: map<Path, nat>, p: Path)
    requires WellFormed(fs) && WellFormed(fs2) && GoodImages(fs, vm, snapshot, images)
    requires RanksDown(Links(fs), rank) && RanksDown(Links(fs2), rank2)
    requires Copy(fs, vm, snapshot, vm2, fs') && OthersKept(fs, images, fs2, vm2, fs')
    requires p in Links(fs') && fs'[p].backing.Some?
    ensures var r := CopyRank(fs', vm, vm2, snapshot, rank, rank2); var b := fs'[p].backing.value;
            b in Links(fs') && r[b] < r[p] && MayBack(p, b)
  {
    hide Included, Chosen, WellFormed;
    if p.InVm(vm2) {
      CopyLinkInVm(fs, vm, snapshot, images, fs2, vm2, fs', rank, rank2, p);
    } else {
      CopyLinkOutside(fs, vm, snapshot, images, fs2, vm2, fs', rank, rank2, p);
    }
  }

  lemma CopyLinkOutside(fs: Files, vm: string, snapshot: Option<string>, images: map<string, Path>, fs2: Files, vm2: string, fs': Files,
                        rank: map<Path, nat>, rank2: map<Path, nat>, p: Path)
    requires WellFormed(fs2) && GoodImages(fs, vm, snapshot, images) && RanksDown(Links(fs2), rank2)
    requires OthersKept(fs, images, fs2, vm2, fs')
    requires p in Links(fs') && fs'[p].backing.Some? && !p.InVm(vm2)
    ensures var r := CopyRank(fs', vm, vm2, snapshot, rank, rank2); var b := fs'[p].backing.value;
            b in Links(fs') && r[b] < r[p] && MayBack(p, b)
  {
    hide Included, Chosen, To;
    if p !in fs2 || (p.Image? && p.file in images) {
      assert Bytes(fs'[p]) == Bytes(fs[images[p.file]]);
      assert false;
    }
    BackingOk(fs2, p);
    assert fs'[p] == fs2[p] && !fs2[p].backing.value.InVm(vm2);
  }

  lemma CopyLinkInVm(fs: Files, vm: string, snapshot: Option<string>, images: map<string, Path>, fs2: Files, vm2: string, fs': Files,
                     rank: map<Path, nat>, rank2: map<Path, nat>, p: Path)
    requires WellFormed(fs) && GoodImages(fs, vm, snapshot, images) && RanksDown(Links(fs), rank)
    requires Copy(fs, vm, snapshot, vm2, fs') && OthersKept(fs, images, fs2, vm2, fs')
    requires p in Links(fs') && fs'[p].backing.Some? && p.InVm(vm2)
    ensures var r := CopyRank(fs', vm, vm2, snapshot, rank, rank2); var b := fs'[p].backing.value;
            b in Links(fs') && r[b] < r[p] && MayBack(p, b)
  {
    hide Included, Chosen, WellFormed, Copy, Travel, FileName;
    if p.Active? && snapshot.Some? {
      FreshIsThere(fs, vm, snapshot, vm2, fs', p);
    } else {
      var q := To(vm, p);
      Original(fs, vm, snapshot, images, vm2, fs', p);
      TravelClosed(fs, vm, snapshot, images, q);
      var b := fs[q].backing.value;
      BackingOk(fs, q);
      if b.IsBase() {
        assert Bytes(fs'[Image(FileName(b))]) == Bytes(fs[b]);
      } else {
        TravelIsCopied(fs, vm, snapshot, images, vm2, fs', b);
      }
    }
  }

  /** Each layer of the copy, except a fresh active overlay, has an original. */
  lemma Original(fs: Files, vm: string, snapshot: Option<string>, images: map<string, Path>, vm2: string, fs': Files, p: Path)
    requires Copy(fs, vm, snapshot, vm2, fs') && p in fs' && p.InVm(vm2) && !p.Reverting? && !(p.Active? && snapshot.Some?)
    ensures To(vm, p) in fs && To(vm2, To(vm, p)) == p && IsCopy(fs, fs', vm2, To(vm, p))
    ensures To(vm, p) in Travel(fs, vm, snapshot, images)
  {
    hide Included, IsCopy;
  }

  lemma TravelIsCopied(fs: Files, vm: string, snapshot: Option<string>, images: map<string, Path>, vm2: string, fs': Files, p: Path)
    requires Copy(fs, vm, snapshot, vm2, fs') && GoodImages(fs, vm, snapshot, images)
    requires p in Travel(fs, vm, snapshot, images) && !p.IsBase()
    ensures p in fs && (p.Active? || p.Snap?) && p.vm == vm && IsCopy(fs, fs', vm2, p)
  {
    hide Included, IsCopy, Chosen;
  }

  lemma FreshIsThere(fs: Files, vm: string, snapshot: Option<string>, vm2: string, fs': Files, p: Path)
    requires Copy(fs, vm, snapshot, vm2, fs') && p in fs' && p.InVm(vm2) && p.Active? && snapshot.Some?
    ensures Snap(vm2, p.disk, snapshot.value) in fs' && fs'[p] == FreshOn(fs', Snap(vm2, p.disk, snapshot.value))
  {
    hide Included, IsCopy;
  }

  lemma CopyWellFormed(fs: Files, vm: string, snapshot: Option<string>, images: map<string, Path>, fs2: Files, vm2: string, fs': Files)
    requires WellFormed(fs) && WellFormed(fs2) && GoodImages(fs, vm, snapshot, images)
    requires Copy(fs, vm, snapshot, vm2, fs') && OthersKept(fs, images, fs2, vm2, fs')
    ensures WellFormed(fs')
  {
    hide Copy, OthersKept, GoodImages, CopyRank;
    var rank := RankOf(fs);
    var rank2 := RankOf(fs2);
    var r := CopyRank(fs', vm, vm2, snapshot, rank, rank2);
    forall p | p in Links(fs') && fs'[p].backing.Some?
      ensures var b := fs'[p].backing.value; b in Links(fs') && r[b] < r[p] && MayBack(p, b)
    {
      CopyLink(fs, vm, snapshot, images, fs2, vm2, fs', rank, rank2, p);
    }
    StaysForest(fs, fs', r);
  }

  lemma TravelCarried(fs: Files, vm: string, snapshot: Option<string>, images: map<string, Path>, fs2: Files, vm2: string, fs': Files,
                      loc: map<Path, Path>, p: Path)
    requires WellFormed(fs) && GoodImages(fs, vm, snapshot, images)
    requires Copy(fs, vm, snapshot, vm2, fs') && OthersKept(fs, images, fs2, vm2, fs')
    requires loc == map q | q in Travel(fs, vm, snapshot, images) :: To(vm2, q)
    requires p in Travel(fs, vm, snapshot, images)
    ensures p in fs && Carried(fs, fs', loc, p)
  {
    hide Included, Chosen, WellFormed, Travel, GoodImages, Copy, OthersKept, FileName;
    TravelLive(fs, vm, snapshot, images, p);
    if p.IsBase() {
      TravelImage(fs, vm, snapshot, images, fs2, vm2, fs', p);
    } else {
      TravelIsCopied(fs, vm, snapshot, images, vm2, fs', p);
      if fs[p].backing.Some? {
        TravelClosed(fs, vm, snapshot, images, p);
        assert loc[fs[p].backing.value] == To(vm2, fs[p].backing.value);
      }
    }
  }

  lemma TravelImage(fs: Files, vm: string, snapshot: Option<string>, images: map<string, Path>, fs2: Files, vm2: string, fs': Files, p: Path)
    requires GoodImages(fs, vm, snapshot, images) && OthersKept(fs, images, fs2, vm2, fs')
    requires p in Travel(fs, vm, snapshot, images) && p.IsBase()
    ensures p in fs && fs[p].backing == None && Image(FileName(p)) in fs'
    ensures var l := fs'[Image(FileName(p))]; l.data == fs[p].data && l.size == fs[p].size && l.backing == None
  {
    hide Included, Chosen, BaseOf;
    assert Bytes(fs'[Image(FileName(p))]) == Bytes(fs[p]);
  }

  /** Every layer that travelled shows what it showed at home. */
  lemma CopyViews(fs: Files, vm: string, snapshot: Option<string>, images: map<string, Path>, fs2: Files, vm2: string, fs': Files, p: Path)
    requires WellFormed(fs) && WellFormed(fs2) && GoodImages(fs, vm, snapshot, images)
    requires Copy(fs, vm, snapshot, vm2, fs') && OthersKept(fs, images, fs2, vm2, fs')
    requires p in Travel(fs, vm, snapshot, images)
    ensures WellFormed(fs') && View(fs', To(vm2, p)) == View(fs, p)
  {
    hide View, Copy, OthersKept, GoodImages, Travel, Carried;
    CopyWellFormed(fs, vm, snapshot, images, fs2, vm2, fs');
    var loc := map q | q in Travel(fs, vm, snapshot, images) :: To(vm2, q);
    forall q | q in loc ensures q in fs && Carried(fs, fs', loc, q) {
      TravelCarried(fs, vm, snapshot, images, fs2, vm2, fs', loc, q);
    }
    TravelCarried(fs, vm, snapshot, images, fs2, vm2, fs', loc, p);
    TravelLive(fs, vm, snapshot, images, p);
    Relocation(fs, fs', loc, p);
  }

  lemma TravelLive(fs: Files, vm: string, snapshot: Option<string>, images: map<string, Path>, p: Path)
    requires GoodImages(fs, vm, snapshot, images) && p in Travel(fs, vm, snapshot, images)
    ensures p in Links(fs)
  {
    hide Included, Chosen;
  }

  lemma FreshShows(fs: Files, p: Path, q: Path)
    requires WellFormed(fs) && p in Links(fs) && q in Links(fs) && fs[p] == FreshOn(fs, q)
    ensures View(fs, p) == View(fs, q)
  {
    ViewUnfolds(fs, p);
    ViewSize(fs, q);
    assert Stack(map[], fs[q].size, View(fs, q)) == View(fs, q);
  }

  /** Two VMs look the same: the disks, the snapshots with their parents and
      contents, the current snapshot and the content of the active disk. With a
      snapshot named, the second has that snapshot and its ancestors only, and
      its disk is as the snapshot was. */
  ghost predicate SameVm(fs: Files, vm: string, snapshot: Option<string>, fs': Files, vm2: string) {
    && DiskNames(fs', vm2) == DiskNames(fs, vm)
    && forall d :: d in DiskNames(fs, vm) ==> SameDisk(fs, vm, snapshot, fs', vm2, d)
  }

  ghost predicate SameDisk(fs: Files, vm: string, snapshot: Option<string>, fs': Files, vm2: string, d: string) {
    && Active(vm, d) in fs && Active(vm2, d) in fs'
    && SnapNames(fs', vm2, d) == Included(fs, vm, d, snapshot)
    && (forall n :: n in SnapNames(fs', vm2, d) ==>
         && Snap(vm, d, n) in fs
         && View(fs', Snap(vm2, d, n)) == View(fs, Snap(vm, d, n))
         && ParentName(fs', vm2, d, n) == ParentName(fs, vm, d, n))
    && match snapshot
       case None =>
         && View(fs', Active(vm2, d)) == View(fs, Active(vm, d))
         && NameFor(vm2, d, fs'[Active(vm2, d)].backing) == NameFor(vm, d, fs[Active(vm, d)].backing)
       case Some(s) =>
         && View(fs', Active(vm2, d)) == View(fs, Snap(vm, d, s))
         && NameFor(vm2, d, fs'[Active(vm2, d)].backing) == Some(s)
  }

  lemma CopySameNames(fs: Files, vm: string, snapshot: Option<string>, vm2: string, fs': Files, d: string)
    requires WellFormed(fs) && Copy(fs, vm, snapshot, vm2, fs') && d in DiskNames(fs, vm)
    ensures SnapNames(fs', vm2, d) == Included(fs, vm, d, snapshot)
    ensures forall n :: n in SnapNames(fs', vm2, d) ==>
              Snap(vm, d, n) in fs && ParentName(fs', vm2, d, n) == ParentName(fs, vm, d, n)
    ensures snapshot.None? ==> NameFor(vm2, d, fs'[Active(vm2, d)].backing) == NameFor(vm, d, fs[Active(vm, d)].backing)
    ensures snapshot.Some? ==> NameFor(vm2, d, fs'[Active(vm2, d)].backing) == Some(snapshot.value)
  {
    hide Included;
    forall n | n in SnapNames(fs', vm2, d) ensures n in Included(fs, vm, d, snapshot) {
      assert Snap(vm2, d, n) in fs';
    }
    forall n | n in Included(fs, vm, d, snapshot) ensures ParentName(fs', vm2, d, n) == ParentName(fs, vm, d, n) {
      assert IsCopy(fs, fs', vm2, Snap(vm, d, n));
      if fs[Snap(vm, d, n)].backing.Some? { BackingOk(fs, Snap(vm, d, n)); }
    }
    if fs[Active(vm, d)].backing.Some? { BackingOk(fs, Active(vm, d)); }
  }

  lemma CopySameDisk(fs: Files, vm: string, snapshot: Option<string>, images: map<string, Path>, fs2: Files, vm2: string, fs': Files, d: string)
    requires Exportable(fs, vm, snapshot) && WellFormed(fs2) && GoodImages(fs, vm, snapshot, images)
    requires Copy(fs, vm, snapshot, vm2, fs') && OthersKept(fs, images, fs2, vm2, fs') && d in DiskNames(fs, vm)
    ensures SameDisk(fs, vm, snapshot, fs', vm2, d)
  {
    hide Included, Chosen, View, OthersKept, GoodImages, WellNamed, NameFor, ParentName;
    CopySameNames(fs, vm, snapshot, vm2, fs', d);
    forall n | n in Included(fs, vm, d, snapshot) ensures View(fs', Snap(vm2, d, n)) == View(fs, Snap(vm, d, n)) {
      CopyViews(fs, vm, snapshot, images, fs2, vm2, fs', Snap(vm, d, n));
    }
    if snapshot.None? {
      CopyViews(fs, vm, snapshot, images, fs2, vm2, fs', Active(vm, d));
    } else {
      IncludedInFiles(fs, vm, d, snapshot);
      CopyWellFormed(fs, vm, snapshot, images, fs2, vm2, fs');
      FreshShows(fs', Active(vm2, d), Snap(vm2, d, snapshot.value));
    }
  }

  /** What restoring a backup leaves: a copy of the VM next to the files that
      were there, on standalone images. */
  lemma RestoredCopy(h: Probe, fs: Files, vm: string, snapshot: Option<string>, images: map<string, Path>, b: Bundle,
                     fs2: Files, asVm: Option<string>, force: bool)
    requires Exportable(fs, vm, snapshot) && BackupOf(h, fs, vm, snapshot) == Some(b)
    requires Gather(fs, Chosen(fs, vm, snapshot), map[]) == Some(images)
    requires WellFormed(fs2) && Compatible(fs, fs2, images)
    requires Refusal(fs2, b, Target(b, asVm), force).Ok?
    ensures var (fs', r) := Restore(h, fs2, b, asVm, force, NO_FAULTS); var vm2 := Target(b, asVm);
            && r.Ok? && WellFormed(fs') && GoodImages(fs, vm, snapshot, images)
            && Copy(fs, vm, snapshot, vm2, fs') && OthersKept(fs, images, fs2, vm2, fs')
  {
    hide Gather, Chosen, AddSources, MakeBundle, WellFormed, Refusal, Compatible, Restore, LayersArrived, OthersKept, OnlyLayers, Copy, WellNamed, BaseOf, ArcOf, Bytes, FileName;
    var fs', vm2 := Restore(h, fs2, b, asVm, force, NO_FAULTS).0, Target(b, asVm);
    RestoreArrives(h, fs, vm, snapshot, images, b, fs2, asVm, force);
    BundleHolds(h, fs, vm, snapshot, images, b);
    assert GoodImages(fs, vm, snapshot, images);
    ArrivedIsCopy(h, fs, vm, snapshot, b.tar, vm2, fs');
    CopyWellFormed(fs, vm, snapshot, images, fs2, vm2, fs');
  }

  /** The round trip. A backup, of a whole VM or of one snapshot's chain,
      restored in any home that lacks the bundled images or has the same ones,
      under any name, succeeds and gives back the same VM. */
  lemma BackupRestore(h: Probe, fs: Files, vm: string, snapshot: Option<string>, b: Bundle,
                      fs2: Files, asVm: Option<string>, force: bool)
    requires Exportable(fs, vm, snapshot) && BackupOf(h, fs, vm, snapshot) == Some(b)
    requires WellFormed(fs2) && Compatible(fs, fs2, Gather(fs, Chosen(fs, vm, snapshot), map[]).value)
    requires Refusal(fs2, b, Target(b, asVm), force).Ok?
    ensures var (fs', r) := Restore(h, fs2, b, asVm, force, NO_FAULTS);
            && r.Ok? && WellFormed(fs') && SameVm(fs, vm, snapshot, fs', Target(b, asVm))
            && forall p :: p in fs' && p.Snap? && p.vm == Target(b, asVm) ==> fs'[p].readonly
  {
    hide Gather, Chosen, MakeBundle, WellFormed, Refusal, Compatible, Restore, OthersKept, Copy, SameDisk, GoodImages, Exportable;
    var images := Gather(fs, Chosen(fs, vm, snapshot), map[]).value;
    var fs', vm2 := Restore(h, fs2, b, asVm, force, NO_FAULTS).0, Target(b, asVm);
    RestoredCopy(h, fs, vm, snapshot, images, b, fs2, asVm, force);
    CopySameDisks(fs, vm, snapshot, vm2, fs');
    CopyFrozen(fs, vm, snapshot, vm2, fs');
    forall d | d in DiskNames(fs, vm) ensures SameDisk(fs, vm, snapshot, fs', vm2, d) {
      CopySameDisk(fs, vm, snapshot, images, fs2, vm2, fs', d);
    }
  }

  lemma CopyFrozen(fs: Files, vm: string, snapshot: Option<string>, vm2: string, fs': Files)
    requires Copy(fs, vm, snapshot, vm2, fs')
    ensures forall p :: p in fs' && p.Snap? && p.vm == vm2 ==> fs'[p].readonly
  {
    hide Included;
    forall p | p in fs' && p.Snap? && p.vm == vm2 ensures fs'[p].readonly {
      assert IsCopy(fs, fs', vm2, Snap(vm, p.disk, p.name));
    }
  }

  lemma CopySameDisks(fs: Files, vm: string, snapshot: Option<string>, vm2: string, fs': Files)
    requires Copy(fs, vm, snapshot, vm2, fs')
    ensures DiskNames(fs', vm2) == DiskNames(fs, vm)
  {
    hide Included;
    forall d | d in DiskNames(fs', vm2) ensures d in DiskNames(fs, vm) {
      assert Active(vm2, d) in fs';
    }
  }
}
