/** What a restore that returns normally has checked and left, for every bundle,
    however made: told from the manifest, the archive and the files. */
module RestoreLaws {
  import opened Forest
  import opened Layout
  import opened Layers
  import opened Store
  import opened Names
  import opened DiskStores
  import opened Bundles
  import opened RoundTrip

  // ---- shared images ------------------------------------------------------------------------

  /** Images that were there have been compared, and all are there now. */
  lemma {:induction false} PlacedAndCompared(h: Probe, w: Work, rs: seq<FileRec>)
    requires PlaceAll(h, w, rs).Done?
    ensures var t := PlaceAll(h, w, rs);
            && (forall p :: p in w.fs ==> p in t.w.fs && t.w.fs[p] == w.fs[p])
            && forall r :: r in rs ==>
                 && Image(BaseName(r.arc)) in t.w.fs
                 && (Image(BaseName(r.arc)) in w.fs ==> h.sha(Bytes(w.fs[Image(BaseName(r.arc))])) == r.digest)
    decreases |rs|
  {
    hide BaseName, Bytes;
    if rs != [] {
      var w1 := PlaceOne(h, w, rs[0]).w;
      PlacedAndCompared(h, w1, rs[1..]);
    }
  }

  // ---- the files of the VM ------------------------------------------------------------------

  /** Files only come in, and those of other disks stay as they are. */
  ghost predicate OnlyDisk(fs: Files, fs': Files, vm: string, disk: string) {
    && (forall p :: p in fs ==> p in fs')
    && (forall p :: p in fs' && !p.OfDisk(vm, disk) ==> p in fs && fs'[p] == fs[p])
  }

  predicate Listed(p: Path, vm: string, disk: string, s: Section) {
    p == Active(vm, disk) || exists i :: 0 <= i < |s.snapshots| && p == Snap(vm, disk, s.snapshots[i].name)
  }

  /** Record `i` is the last with its name. */
  predicate Final(ss: seq<SnapRec>, i: nat) {
    i < |ss| && forall j :: i < j < |ss| ==> ss[j].name != ss[i].name
  }

  predicate Named(ss: seq<SnapRec>, vm: string, disk: string, p: Path) {
    exists i :: 0 <= i < |ss| && p == Snap(vm, disk, ss[i].name)
  }

  lemma NamedTail(ss: seq<SnapRec>, vm: string, disk: string, p: Path)
    requires ss != []
    ensures Named(ss, vm, disk, p) <==> p == Snap(vm, disk, ss[0].name) || Named(ss[1..], vm, disk, p)
  {
    if Named(ss[1..], vm, disk, p) {
      var i :| 0 <= i < |ss[1..]| && p == Snap(vm, disk, ss[1..][i].name);
      assert p == Snap(vm, disk, ss[i + 1].name);
    }
    if Named(ss, vm, disk, p) {
      var i :| 0 <= i < |ss| && p == Snap(vm, disk, ss[i].name);
      if i > 0 { assert p == Snap(vm, disk, ss[1..][i - 1].name); }
    }
  }

  lemma FinalTail(ss: seq<SnapRec>, vm: string, disk: string, i: nat)
    requires ss != [] && Final(ss, i)
    ensures i > 0 ==> Final(ss[1..], i - 1) && ss[1..][i - 1] == ss[i]
    ensures i == 0 ==> !Named(ss[1..], vm, disk, Snap(vm, disk, ss[0].name))
  {
    if i == 0 {
      forall j | 0 <= j < |ss[1..]| ensures ss[1..][j].name != ss[0].name { assert ss[1..][j] == ss[j + 1]; }
    }
  }

  /** What moving the snapshots of a disk in comes to. */
  ghost predicate MovedTo(fs: Files, staging: map<Arc, Layer>, vm: string, disk: string, ss: seq<SnapRec>, fs': Files) {
    && (forall p :: p in fs' <==> p in fs || Named(ss, vm, disk, p))
    && (forall p :: p in fs && !Named(ss, vm, disk, p) ==> fs'[p] == fs[p])
    && (forall i :: 0 <= i < |ss| ==> ValidName(ss[i].name))
    && (forall i :: 0 <= i < |ss| && Final(ss, i) ==>
         && ss[i].file.arc in staging && Named(ss, vm, disk, Snap(vm, disk, ss[i].name))
         && fs'[Snap(vm, disk, ss[i].name)] == staging[ss[i].file.arc])
  }

  lemma {:induction false} MovedIn(w: Work, vm: string, disk: string, ss: seq<SnapRec>)
    requires MoveSnaps(w, vm, disk, ss).Done?
    ensures MovedTo(w.fs, w.staging, vm, disk, ss, MoveSnaps(w, vm, disk, ss).w.fs)
    ensures Less(MoveSnaps(w, vm, disk, ss).w.staging, w.staging)
    decreases |ss|
  {
    hide ValidName, Named, Final;
    if ss == [] {
      NoneNamed(vm, disk);
    } else {
      var w1 := Move(w, ss[0].file.arc, Snap(vm, disk, ss[0].name)).w;
      MovedIn(w1, vm, disk, ss[1..]);
      MovedCons(w, w1, vm, disk, ss, MoveSnaps(w, vm, disk, ss).w.fs);
    }
  }

  lemma NoneNamed(vm: string, disk: string)
    ensures forall p :: !Named([], vm, disk, p)
  {
  }

  lemma MovedCons(w: Work, w1: Work, vm: string, disk: string, ss: seq<SnapRec>, fs': Files)
    requires ss != [] && ValidName(ss[0].name) && ss[0].file.arc in w.staging
    requires w1.fs == w.fs[Snap(vm, disk, ss[0].name) := w.staging[ss[0].file.arc]] && Less(w1.staging, w.staging)
    requires MovedTo(w1.fs, w1.staging, vm, disk, ss[1..], fs')
    ensures MovedTo(w.fs, w.staging, vm, disk, ss, fs')
  {
    hide ValidName, Named, Final;
    var rest := ss[1..];
    forall p ensures Named(ss, vm, disk, p) <==> p == Snap(vm, disk, ss[0].name) || Named(rest, vm, disk, p) { NamedTail(ss, vm, disk, p); }
    forall i | 0 <= i < |ss| ensures ValidName(ss[i].name) { assert i > 0 ==> ss[i] == rest[i - 1]; }
    forall i | 0 <= i < |ss| && Final(ss, i)
      ensures ss[i].file.arc in w.staging && Named(ss, vm, disk, Snap(vm, disk, ss[i].name))
      ensures fs'[Snap(vm, disk, ss[i].name)] == w.staging[ss[i].file.arc]
    {
      FinalTail(ss, vm, disk, i);
    }
  }

  /** Where a layer is linked by its manifest record. */
  function LinkOf(vm: string, disk: string, ref: Ref): Option<Path> {
    match ref
    case ToSnapshot(n) => Some(Snap(vm, disk, n))
    case ToImage(a) => Some(Image(BaseName(a)))
    case _ => None
  }

  predicate Recognized(ref: Ref) { ref != Unrecognized && (ref.ToSnapshot? ==> ValidName(ref.name)) }

  lemma ResolvesExactly(vm: string, disk: string, ref: Ref)
    ensures Resolve(vm, disk, ref).Success? <==> Recognized(ref)
    ensures Recognized(ref) ==> Resolve(vm, disk, ref).value == LinkOf(vm, disk, ref)
  {
  }

  /** What re-pointing the snapshots of a disk comes to. */
  ghost predicate LinkedTo(fs: Files, vm: string, disk: string, ss: seq<SnapRec>, fs': Files) {
    && fs'.Keys == fs.Keys
    && (forall p :: p in fs ==> fs'[p].data == fs[p].data && fs'[p].size == fs[p].size)
    && (forall p :: p in fs && !Named(ss, vm, disk, p) ==> fs'[p] == fs[p])
    && (forall p :: p in fs && (fs[p].readonly || Named(ss, vm, disk, p)) ==> fs'[p].readonly)
    && (forall i :: 0 <= i < |ss| ==> Recognized(ss[i].parent))
    && (forall i :: 0 <= i < |ss| && Final(ss, i) ==>
         Snap(vm, disk, ss[i].name) in fs && fs'[Snap(vm, disk, ss[i].name)].backing == LinkOf(vm, disk, ss[i].parent))
  }

  lemma {:induction false} RepointedAll(w: Work, vm: string, disk: string, ss: seq<SnapRec>, faults: Faults)
    requires RepointSnaps(w, vm, disk, ss, faults).Done?
    ensures LinkedTo(w.fs, vm, disk, ss, RepointSnaps(w, vm, disk, ss, faults).w.fs)
    ensures RepointSnaps(w, vm, disk, ss, faults).w.staging == w.staging
    decreases |ss|
  {
    hide Resolve, Named, Final, LinkOf, Recognized;
    if ss == [] {
      NoneNamed(vm, disk);
    } else {
      var p := Snap(vm, disk, ss[0].name);
      ResolvesExactly(vm, disk, ss[0].parent);
      var w1 := Repoint(w, vm, disk, p, ss[0].parent, true, faults).w;
      RepointedAll(w1, vm, disk, ss[1..], faults);
      LinkedCons(w.fs, w1.fs, vm, disk, ss, RepointSnaps(w, vm, disk, ss, faults).w.fs);
    }
  }

  lemma LinkedCons(fs: Files, fs1: Files, vm: string, disk: string, ss: seq<SnapRec>, fs': Files)
    requires ss != [] && Snap(vm, disk, ss[0].name) in fs && Recognized(ss[0].parent)
    requires var p := Snap(vm, disk, ss[0].name); fs1 == fs[p := fs[p].(backing := LinkOf(vm, disk, ss[0].parent), readonly := true)]
    requires LinkedTo(fs1, vm, disk, ss[1..], fs')
    ensures LinkedTo(fs, vm, disk, ss, fs')
  {
    hide Named, Final, LinkOf, Recognized;
    var rest := ss[1..];
    assert fs1.Keys == fs.Keys;
    forall p ensures Named(ss, vm, disk, p) <==> p == Snap(vm, disk, ss[0].name) || Named(rest, vm, disk, p) { NamedTail(ss, vm, disk, p); }
    forall i | 0 <= i < |ss| ensures Recognized(ss[i].parent) { assert i > 0 ==> ss[i] == rest[i - 1]; }
    forall i | 0 <= i < |ss| && Final(ss, i)
      ensures Snap(vm, disk, ss[i].name) in fs && fs'[Snap(vm, disk, ss[i].name)].backing == LinkOf(vm, disk, ss[i].parent)
    {
      FinalTail(ss, vm, disk, i);
    }
  }

  /** The active overlay: the bundled one, linked as recorded, or a fresh and empty
      one on the current snapshot. */
  ghost predicate ActiveIs(fs: Files, tar: map<Arc, Layer>, vm: string, disk: string, s: Section) {
    && Active(vm, disk) in fs
    && var l := fs[Active(vm, disk)];
       match s.active
       case Some(a) =>
         && Recognized(a.parent) && l.backing == LinkOf(vm, disk, a.parent)
         && a.file.arc in tar && l.data == tar[a.file.arc].data && l.size == tar[a.file.arc].size
       case None =>
         && s.current.Some? && ValidName(s.current.value) && l.backing == Some(Snap(vm, disk, s.current.value)) && l.data == map[]
         && Snap(vm, disk, s.current.value) in fs && l.size == fs[Snap(vm, disk, s.current.value)].size
  }

  lemma ActivePut(w: Work, tar: map<Arc, Layer>, vm: string, disk: string, s: Section, faults: Faults)
    requires PutActive(w, vm, disk, s, faults).Done? && Less(w.staging, tar)
    ensures var t := PutActive(w, vm, disk, s, faults); var a := Active(vm, disk);
            && t.w.fs.Keys == w.fs.Keys + {a} && (forall p :: p in w.fs && p != a ==> t.w.fs[p] == w.fs[p])
            && ActiveIs(t.w.fs, tar, vm, disk, s) && Less(t.w.staging, tar)
  {
    hide View, Resolve, ValidName, LinkOf, Recognized;
    if s.active.Some? {
      ResolvesExactly(vm, disk, s.active.value.parent);
    } else {
      ViewSize(w.fs, Snap(vm, disk, s.current.value));
    }
  }

  /** A disk is there as the manifest has it: its active overlay, and its snapshots
      read-only, with the content of their files and linked as recorded. */
  ghost predicate Present(fs: Files, tar: map<Arc, Layer>, vm: string, disk: string, s: Section) {
    && ValidName(disk) && ActiveIs(fs, tar, vm, disk, s)
    && (forall i :: 0 <= i < |s.snapshots| ==>
         && ValidName(s.snapshots[i].name) && Recognized(s.snapshots[i].parent)
         && Snap(vm, disk, s.snapshots[i].name) in fs && fs[Snap(vm, disk, s.snapshots[i].name)].readonly)
    && (forall i :: 0 <= i < |s.snapshots| && Final(s.snapshots, i) ==> SnapIs(fs, tar, vm, disk, s.snapshots[i]))
  }

  ghost predicate SnapIs(fs: Files, tar: map<Arc, Layer>, vm: string, disk: string, r: SnapRec) {
    && Snap(vm, disk, r.name) in fs && r.file.arc in tar
    && var l := fs[Snap(vm, disk, r.name)];
       l.data == tar[r.file.arc].data && l.size == tar[r.file.arc].size && l.backing == LinkOf(vm, disk, r.parent)
  }

  lemma DiskAssembled(w: Work, tar: map<Arc, Layer>, vm: string, disk: string, s: Section, faults: Faults)
    requires AssembleDisk(w, vm, disk, s, faults).Done? && Less(w.staging, tar)
    ensures var t := AssembleDisk(w, vm, disk, s, faults);
            && OnlyDisk(w.fs, t.w.fs, vm, disk) && Present(t.w.fs, tar, vm, disk, s) && Less(t.w.staging, tar)
            && forall p :: p in t.w.fs ==> p in w.fs || Listed(p, vm, disk, s)
  {
    hide MoveSnaps, RepointSnaps, PutActive, ValidName, Final, LinkOf, Recognized, ActiveIs;
    var ss := s.snapshots;
    MovedIn(w, vm, disk, ss);
    var w1 := MoveSnaps(w, vm, disk, ss).w;
    RepointedAll(w1, vm, disk, ss, faults);
    var w2 := RepointSnaps(w1, vm, disk, ss, faults).w;
    ActivePut(w2, tar, vm, disk, s, faults);
    DiskIsPresent(w, tar, vm, disk, s, w1.fs, w2.fs, PutActive(w2, vm, disk, s, faults).w.fs);
  }

  lemma DiskIsPresent(w: Work, tar: map<Arc, Layer>, vm: string, disk: string, s: Section, fs1: Files, fs2: Files, fs3: Files)
    requires ValidName(disk) && Less(w.staging, tar) && MovedTo(w.fs, w.staging, vm, disk, s.snapshots, fs1)
    requires LinkedTo(fs1, vm, disk, s.snapshots, fs2) && ActiveIs(fs3, tar, vm, disk, s)
    requires fs3.Keys == fs2.Keys + {Active(vm, disk)} && forall p :: p in fs2 && p != Active(vm, disk) ==> fs3[p] == fs2[p]
    ensures OnlyDisk(w.fs, fs3, vm, disk) && Present(fs3, tar, vm, disk, s)
    ensures forall p :: p in fs3 ==> p in w.fs || Listed(p, vm, disk, s)
  {
    hide ValidName, Final, LinkOf, Recognized, ActiveIs, SnapIs, Named;
    NamedAreSnaps(s.snapshots, vm, disk);
    forall p | p in fs3 ensures p in w.fs || Listed(p, vm, disk, s) {
      if p != Active(vm, disk) && p !in w.fs { NamedIsListed(p, vm, disk, s); }
    }
    forall i | 0 <= i < |s.snapshots| && Final(s.snapshots, i) ensures SnapIs(fs3, tar, vm, disk, s.snapshots[i]) {
      OneSnapIs(w, tar, vm, disk, s.snapshots, i, fs1, fs2, fs3);
    }
  }

  lemma NamedAreSnaps(ss: seq<SnapRec>, vm: string, disk: string)
    ensures forall p :: Named(ss, vm, disk, p) ==> p.Snap? && p.OfDisk(vm, disk)
    ensures forall i :: 0 <= i < |ss| ==> Named(ss, vm, disk, Snap(vm, disk, ss[i].name))
  {
  }

  lemma NamedIsListed(p: Path, vm: string, disk: string, s: Section)
    requires Named(s.snapshots, vm, disk, p)
    ensures Listed(p, vm, disk, s)
  {
  }

  lemma OneSnapIs(w: Work, tar: map<Arc, Layer>, vm: string, disk: string, ss: seq<SnapRec>, i: nat, fs1: Files, fs2: Files, fs3: Files)
    requires Less(w.staging, tar) && MovedTo(w.fs, w.staging, vm, disk, ss, fs1) && LinkedTo(fs1, vm, disk, ss, fs2)
    requires fs3.Keys == fs2.Keys + {Active(vm, disk)} && forall p :: p in fs2 && p != Active(vm, disk) ==> fs3[p] == fs2[p]
    requires i < |ss| && Final(ss, i)
    ensures SnapIs(fs3, tar, vm, disk, ss[i])
  {
    hide ValidName, Final, LinkOf, Recognized, Named;
    var p := Snap(vm, disk, ss[i].name);
    assert p in fs1 && fs1[p] == w.staging[ss[i].file.arc];
    assert fs3[p] == fs2[p];
  }

  lemma {:induction false} AllAssembled(w: Work, tar: map<Arc, Layer>, vm: string, m: Manifest, disks: seq<string>, faults: Faults)
    requires Distinct(disks) && forall d :: d in disks ==> d in m.disks
    requires AssembleAll(w, vm, m, disks, faults).Done? && Less(w.staging, tar)
    ensures var fs' := AssembleAll(w, vm, m, disks, faults).w.fs;
            && (forall p :: p in w.fs ==> p in fs')
            && (forall p :: p in fs' && (forall d :: d in disks ==> !p.OfDisk(vm, d)) ==> p in w.fs && fs'[p] == w.fs[p])
            && (forall d :: d in disks ==> Present(fs', tar, vm, d, m.disks[d]))
            && (forall p :: p in fs' ==> p in w.fs || exists d :: d in disks && Listed(p, vm, d, m.disks[d]))
    decreases |disks|
  {
    hide AssembleDisk, ValidName, Listed, Present;
    if disks != [] {
      var d, rest := disks[0], disks[1..];
      assert d in disks;
      var w1 := AssembleDisk(w, vm, d, m.disks[d], faults).w;
      DiskAssembled(w, tar, vm, d, m.disks[d], faults);
      AllAssembled(w1, tar, vm, m, rest, faults);
      var fs' := AssembleAll(w, vm, m, disks, faults).w.fs;
      forall e | e in disks ensures Present(fs', tar, vm, e, m.disks[e]) {
        if e == d { StaysPresent(w1.fs, fs', tar, vm, d, m.disks[d], rest); }
      }
      forall p | p in fs' && p !in w.fs ensures exists e :: e in disks && Listed(p, vm, e, m.disks[e]) {
        if p in w1.fs {
          assert Listed(p, vm, d, m.disks[d]);
        } else {
          var e :| e in rest && Listed(p, vm, e, m.disks[e]);
          assert e in disks;
        }
      }
    }
  }

  lemma StaysPresent(fs: Files, fs': Files, tar: map<Arc, Layer>, vm: string, d: string, s: Section, others: seq<string>)
    requires Present(fs, tar, vm, d, s) && d !in others
    requires forall p :: p in fs ==> p in fs'
    requires forall p :: p in fs' && (forall e :: e in others ==> !p.OfDisk(vm, e)) ==> p in fs && fs'[p] == fs[p]
    ensures Present(fs', tar, vm, d, s)
  {
    hide ValidName, Final, LinkOf, Recognized;
  }

  // ---- what a manifest says --------------------------------------------------------------------

  /** A base image is bundled under its own file name. */
  lemma FileNameIs(home: seq<string>, p: Path)
    ensures var file := Locate(home, p); file != [] && file[|file| - 1] == FileName(p)
  {
  }

  /** A parent record and a backing link say the same. */
  predicate Says(vm: string, disk: string, ref: Ref, backing: Option<Path>) {
    match ref
    case NoParent => backing == None
    case ToSnapshot(n) => backing == Some(Snap(vm, disk, n))
    case ToImage(a) => backing.Some? && !(backing.value.Snap? && backing.value.OfDisk(vm, disk)) && a == ArcImage(FileName(backing.value))
    case Unrecognized => false
  }

  /** The manifest of a backup: one section for each disk, with the snapshots that
      go in by name, each linked as it is; the active overlay unless one snapshot
      was chosen; and the current snapshot, which is the chosen one then. */
  lemma ManifestTells(h: Probe, fs: Files, vm: string, snapshot: Option<string>, b: Bundle)
    requires BackupOf(h, fs, vm, snapshot) == Some(b)
    ensures b.manifest.vm == vm && forall d :: d in b.manifest.disks <==> Active(vm, d) in fs
    ensures forall d :: d in b.manifest.disks ==> SectionTells(fs, vm, snapshot, d, b.manifest.disks[d])
  {
    hide Gather, Chosen, AddSources, SectionOf, Packed, ImageRecs, SectionTells;
    forall d | d in DiskNames(fs, vm) ensures SectionTells(fs, vm, snapshot, d, SectionOf(h, fs, vm, d, snapshot)) {
      SectionIsTold(h, fs, vm, snapshot, d);
    }
  }

  ghost predicate SectionTells(fs: Files, vm: string, snapshot: Option<string>, d: string, s: Section) {
    && Active(vm, d) in fs
    && (s.active.Some? <==> snapshot.None?) && (s.active.Some? ==> Says(vm, d, s.active.value.parent, fs[Active(vm, d)].backing))
    && (forall n :: s.current == Some(n) <==> snapshot == Some(n) || (snapshot == None && fs[Active(vm, d)].backing == Some(Snap(vm, d, n))))
    && (forall i, j :: 0 <= i < j < |s.snapshots| ==> s.snapshots[i].name != s.snapshots[j].name && FileLe(s.snapshots[i].name, s.snapshots[j].name, ""))
    && (forall n :: n in Included(fs, vm, d, snapshot) <==> exists i :: 0 <= i < |s.snapshots| && s.snapshots[i].name == n)
    && (forall i :: 0 <= i < |s.snapshots| ==>
         var p := Snap(vm, d, s.snapshots[i].name);
         p in fs && s.snapshots[i].file.arc == ArcSnap(d, s.snapshots[i].name) && Says(vm, d, s.snapshots[i].parent, fs[p].backing))
  }

  lemma RefSays(fs: Files, vm: string, d: string, p: Path)
    requires p in fs
    ensures Says(vm, d, RefOf(fs, vm, d, p), fs[p].backing)
  {
  }

  lemma SectionIsTold(h: Probe, fs: Files, vm: string, snapshot: Option<string>, d: string)
    requires Active(vm, d) in fs
    ensures SectionTells(fs, vm, snapshot, d, SectionOf(h, fs, vm, d, snapshot))
  {
    hide Sorted, Included, RefOf, Says, FileLe;
    var s, names := SectionOf(h, fs, vm, d, snapshot), Sorted(Included(fs, vm, d, snapshot), "");
    SortedInOrder(Included(fs, vm, d, snapshot), "");
    RefSays(fs, vm, d, Active(vm, d));
    IncludedInFiles(fs, vm, d, snapshot);
    forall i | 0 <= i < |s.snapshots|
      ensures s.snapshots[i].name == names[i] && Snap(vm, d, names[i]) in fs && Says(vm, d, s.snapshots[i].parent, fs[Snap(vm, d, names[i])].backing)
    {
      assert names[i] in names;
      RefSays(fs, vm, d, Snap(vm, d, names[i]));
    }
    forall n | n in Included(fs, vm, d, snapshot) ensures exists i :: 0 <= i < |s.snapshots| && s.snapshots[i].name == n {
      var i :| 0 <= i < |names| && names[i] == n;
      assert s.snapshots[i].name == n;
    }
    forall i | 0 <= i < |s.snapshots| ensures s.snapshots[i].name in Included(fs, vm, d, snapshot) { assert names[i] in names; }
  }

  // ---- the whole restore ------------------------------------------------------------------------

  lemma RecordsOk(h: Probe, b: Bundle)
    requires AllVerified(h, b)
    ensures forall r :: r in b.manifest.images ==> RecordOk(h, b, r)
    ensures forall d :: d in b.manifest.disks ==>
              && (b.manifest.disks[d].active.Some? ==> RecordOk(h, b, b.manifest.disks[d].active.value.file))
              && forall i :: 0 <= i < |b.manifest.disks[d].snapshots| ==> RecordOk(h, b, b.manifest.disks[d].snapshots[i].file)
  {
    hide RecordOk, Sorted, DiskFiles;
    var m := b.manifest;
    var disks := Sorted(m.disks.Keys, "");
    assert forall r :: r in m.images ==> r in ManifestFiles(m);
    forall d | d in m.disks
      ensures m.disks[d].active.Some? ==> RecordOk(h, b, m.disks[d].active.value.file)
      ensures forall i :: 0 <= i < |m.disks[d].snapshots| ==> RecordOk(h, b, m.disks[d].snapshots[i].file)
    {
      var s := m.disks[d];
      if s.active.Some? {
        assert SectionFiles(s)[0] == s.active.value.file;
        DiskFilesHas(m, disks, d, s.active.value.file);
      }
      forall i | 0 <= i < |s.snapshots| ensures RecordOk(h, b, s.snapshots[i].file) {
        assert SnapFiles(s.snapshots)[i] == s.snapshots[i].file;
        assert SectionFiles(s)[|SectionFiles(s)| - |s.snapshots| + i] == s.snapshots[i].file;
        DiskFilesHas(m, disks, d, s.snapshots[i].file);
      }
    }
  }

  /** The archive holds the file of a record at a safe path, with the size and the
      digest recorded. */
  ghost predicate Genuine(h: Probe, b: Bundle, r: FileRec) {
    r.arc in b.tar && h.bytes(b.tar[r.arc]) == r.size && h.sha(b.tar[r.arc]) == r.digest && !(r.arc.ArcOther? && !r.arc.safe)
  }

  /** The name a bundle is restored under. */
  predicate RestoredAs(b: Bundle, asVm: Option<string>, vm: string) {
    if asVm == None || asVm == Some("") then vm == b.manifest.vm else asVm == Some(vm)
  }

  /** A restore returns normally only if: the name is valid and free or the call
      forced; every file of the manifest is genuine; no shared image that was there
      has another digest; and no disk fails its check. Then every shared image of
      the manifest is there; the VM has exactly the disks and snapshots of the
      manifest, with the content of their files, linked as recorded, its snapshots
      read-only; and no other file has changed. */
  lemma RestoredMeans(h: Probe, fs: Files, b: Bundle, asVm: Option<string>, force: bool, faults: Faults, vm: string)
    requires RestoredAs(b, asVm, vm) && Restore(h, fs, b, asVm, force, faults).1.Ok?
    ensures ValidName(vm) && (force || forall p :: p in fs ==> !p.InVm(vm))
    ensures forall r :: r in b.manifest.images ==> Genuine(h, b, r)
    ensures forall d :: d in b.manifest.disks ==>
              && (b.manifest.disks[d].active.Some? ==> Genuine(h, b, b.manifest.disks[d].active.value.file))
              && (forall i :: 0 <= i < |b.manifest.disks[d].snapshots| ==> Genuine(h, b, b.manifest.disks[d].snapshots[i].file))
              && d !in faults.unhealthy
    ensures var fs' := Restore(h, fs, b, asVm, force, faults).0;
            && (forall r :: r in b.manifest.images ==>
                 && Image(BaseName(r.arc)) in fs'
                 && (Image(BaseName(r.arc)) in fs ==> h.sha(Bytes(fs[Image(BaseName(r.arc))])) == r.digest))
            && (forall d :: d in b.manifest.disks ==> Present(fs', b.tar, vm, d, b.manifest.disks[d]))
            && (forall p :: p in fs' && p.InVm(vm) ==> exists d :: d in b.manifest.disks && Listed(p, vm, d, b.manifest.disks[d]))
            && (forall p :: p in fs && !p.InVm(vm) ==> p in fs' && fs'[p] == fs[p])
  {
    hide PlaceAll, AssembleAll, AllVerified, Sorted, Staged, ManifestFiles, Present, Listed, ValidName, BaseName, Frame, Bytes, RecordOk, Genuine;
    var m := b.manifest;
    assert Target(b, asVm) == vm;
    UnpackFrame(h, fs, b, vm, faults);
    RecordsOk(h, b);
    forall r | RecordOk(h, b, r) ensures Genuine(h, b, r) { RecordIsGenuine(h, b, r); }
    var w0 := Work(fs, Staged(b, ManifestFiles(m)));
    PlacedAndCompared(h, w0, m.images);
    var w1 := PlaceAll(h, w0, m.images).w;
    var disks := Sorted(m.disks.Keys, "");
    DisksDistinct(m.disks.Keys);
    var w2 := Work(Wipe(w1.fs, vm), w1.staging);
    StagedLess(h, b, w0, m.images);
    AllAssembled(w2, b.tar, vm, m, disks, faults);
    FrameKeeps(h, b, fs, Restore(h, fs, b, asVm, force, faults).0, vm);
    forall d | d in m.disks ensures d !in faults.unhealthy { assert d in faults.unhealthy ==> d in m.disks.Keys * faults.unhealthy; }
  }

  lemma StagedLess(h: Probe, b: Bundle, w: Work, rs: seq<FileRec>)
    requires w.staging == Staged(b, ManifestFiles(b.manifest))
    ensures Less(PlaceAll(h, w, rs).w.staging, b.tar)
  {
    hide ManifestFiles, PlaceAll;
    PlacedLess(h, w, rs, b.tar);
  }

  lemma {:induction false} PlacedLess(h: Probe, w: Work, rs: seq<FileRec>, tar: map<Arc, Layer>)
    requires Less(w.staging, tar)
    ensures Less(PlaceAll(h, w, rs).w.staging, tar)
    decreases |rs|
  {
    if rs != [] {
      var t := PlaceOne(h, w, rs[0]);
      if t.Done? { PlacedLess(h, t.w, rs[1..], tar); }
    }
  }

  lemma FrameKeeps(h: Probe, b: Bundle, fs: Files, fs': Files, vm: string)
    requires Frame(h, b, fs, fs', vm)
    ensures forall p :: p in fs && !p.InVm(vm) ==> p in fs' && fs'[p] == fs[p]
  {
    hide Recorded;
  }

  lemma RecordIsGenuine(h: Probe, b: Bundle, r: FileRec)
    requires RecordOk(h, b, r)
    ensures Genuine(h, b, r)
  {
  }

  /** All that a normal return vouches for: the files of the manifest are genuine,
      and no shared image that was there is another one. */
  ghost predicate Vouched(h: Probe, fs: Files, b: Bundle) {
    && (forall r :: r in b.manifest.images ==>
         Genuine(h, b, r) && (Image(BaseName(r.arc)) in fs ==> h.sha(Bytes(fs[Image(BaseName(r.arc))])) == r.digest))
    && forall d :: d in b.manifest.disks ==>
         && (b.manifest.disks[d].active.Some? ==> Genuine(h, b, b.manifest.disks[d].active.value.file))
         && forall i :: 0 <= i < |b.manifest.disks[d].snapshots| ==> Genuine(h, b, b.manifest.disks[d].snapshots[i].file)
  }

  lemma NormalReturnVouches(h: Probe, fs: Files, b: Bundle, asVm: Option<string>, force: bool, faults: Faults)
    ensures Restore(h, fs, b, asVm, force, faults).1.Ok? ==> Vouched(h, fs, b)
  {
    hide Restore, Genuine, Bytes, BaseName, Present, Listed, ValidName;
    if Restore(h, fs, b, asVm, force, faults).1.Ok? { RestoredMeans(h, fs, b, asVm, force, faults, Target(b, asVm)); }
  }

  /** A shared image with another digest is never taken for the bundled one: the
      restore fails and the image stays. */
  lemma DifferentImageIsKept(h: Probe, fs: Files, b: Bundle, asVm: Option<string>, force: bool, faults: Faults, r: FileRec)
    requires r in b.manifest.images && Image(BaseName(r.arc)) in fs && h.sha(Bytes(fs[Image(BaseName(r.arc))])) != r.digest
    ensures var (fs', o) := Restore(h, fs, b, asVm, force, faults); var p := Image(BaseName(r.arc));
            o.Err? && p in fs' && fs'[p] == fs[p]
  {
    hide Restore, BaseName, Bytes, Frame;
    var vm := Target(b, asVm);
    RestoreSafety(h, fs, b, asVm, force, faults);
    FrameKeeps(h, b, fs, Restore(h, fs, b, asVm, force, faults).0, vm);
    if Restore(h, fs, b, asVm, force, faults).1.Ok? { RestoredMeans(h, fs, b, asVm, force, faults, vm); }
  }

  /** A name that is not valid, or taken and not to be overwritten, is refused and
      nothing changes. */
  lemma RefusedNames(h: Probe, fs: Files, b: Bundle, asVm: Option<string>, force: bool, faults: Faults, vm: string)
    requires RestoredAs(b, asVm, vm)
    ensures !ValidName(vm) ==> Restore(h, fs, b, asVm, force, faults) == (fs, Err(InvalidConfig))
    ensures ValidName(vm) && !force && (exists p :: p in fs && p.InVm(vm)) ==>
              Restore(h, fs, b, asVm, force, faults) == (fs, Err(AlreadyExists))
  {
    hide Unpack, ValidName;
    assert Target(b, asVm) == vm;
  }
}
