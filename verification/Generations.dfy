/** Backups of restored VMs: one round trip after another. */
module Generations {
  import opened Forest
  import opened Layout
  import opened Layers
  import opened Store
  import opened Names
  import opened DiskStores
  import opened Bundles
  import opened RoundTrip

  /** In a restored VM a base image is a standalone file of `images/`. */
  lemma BaseIsImage(fs: Files, vm: string, snapshot: Option<string>, images: map<string, Path>, fs2: Files, vm2: string, fs': Files, p: Path)
    requires WellFormed(fs) && GoodImages(fs, vm, snapshot, images)
    requires Copy(fs, vm, snapshot, vm2, fs') && OthersKept(fs, images, fs2, vm2, fs')
    requires p in fs' && (p.Active? || p.Snap?) && p.vm == vm2 && BaseOf(fs', p).Some?
    ensures var b := BaseOf(fs', p).value; b.Image? && b in fs' && fs'[b].backing == None
  {
    hide Included, Chosen, WellFormed, Copy, Travel, FileName, GoodImages;
    if p.Active? && snapshot.Some? {
      FreshIsThere(fs, vm, snapshot, vm2, fs', p);
      assert false;
    }
    var q := To(vm, p);
    Original(fs, vm, snapshot, images, vm2, fs', p);
    TravelClosed(fs, vm, snapshot, images, q);
    BackingOk(fs, q);
    StandaloneImage(fs, vm, snapshot, images, fs2, vm2, fs', fs[q].backing.value);
  }

  lemma StandaloneImage(fs: Files, vm: string, snapshot: Option<string>, images: map<string, Path>, fs2: Files, vm2: string, fs': Files, b: Path)
    requires GoodImages(fs, vm, snapshot, images) && OthersKept(fs, images, fs2, vm2, fs')
    requires FileName(b) in images && images[FileName(b)] == b
    ensures Image(FileName(b)) in fs' && fs'[Image(FileName(b))].backing == None
  {
    hide Chosen, BaseOf;
    assert Bytes(fs'[Image(FileName(b))]) == Bytes(fs[b]);
  }

  lemma CopyWellNamed(fs: Files, vm: string, snapshot: Option<string>, images: map<string, Path>, fs2: Files, vm2: string, fs': Files)
    requires WellNamed(fs) && WellNamed(fs2) && ValidName(vm2)
    requires Copy(fs, vm, snapshot, vm2, fs') && OthersKept(fs, images, fs2, vm2, fs')
    ensures WellNamed(fs')
  {
    hide Included, IsCopy, ValidName, Bytes;
    forall p | p in fs' ensures GoodName(p) {
      if p.InVm(vm2) {
        assert GoodName(Active(vm, p.disk));
        if p.Snap? { assert GoodName(Snap(vm, p.disk, p.name)); }
      } else if p in fs2 {
        assert GoodName(p);
      }
    }
  }

  /** A restored VM can be exported again, and its images never clash. */
  lemma CopyExportable(fs: Files, vm: string, snapshot: Option<string>, images: map<string, Path>, fs2: Files, vm2: string, fs': Files)
    requires Exportable(fs, vm, snapshot) && GoodImages(fs, vm, snapshot, images)
    requires WellNamed(fs2) && ValidName(vm2) && WellFormed(fs')
    requires Copy(fs, vm, snapshot, vm2, fs') && OthersKept(fs, images, fs2, vm2, fs')
    ensures Exportable(fs', vm2, None) && !Clash(fs', Chosen(fs', vm2, None))
  {
    hide Included, Chosen, WellFormed, Copy, OthersKept, GoodImages, BaseOf, WellNamed, ValidName;
    CopyWellNamed(fs, vm, snapshot, images, fs2, vm2, fs');
    CopySameDisks(fs, vm, snapshot, vm2, fs');
    ChosenInFiles(fs', vm2, None);
    forall p | p in Chosen(fs', vm2, None) && BaseOf(fs', p).Some?
      ensures var b := BaseOf(fs', p).value; b.Image? && b in fs' && fs'[b].backing == None
    {
      BaseIsImage(fs, vm, snapshot, images, fs2, vm2, fs', p);
    }
  }

  /** Looking the same carries over. */
  lemma SameVmChains(fs: Files, vm: string, snapshot: Option<string>, fs1: Files, vm1: string, fs2: Files, vm2: string)
    requires SameVm(fs, vm, snapshot, fs1, vm1) && SameVm(fs1, vm1, None, fs2, vm2)
    ensures SameVm(fs, vm, snapshot, fs2, vm2)
  {
    hide View, NameFor, SameDisk;
    forall d | d in DiskNames(fs, vm) ensures SameDisk(fs, vm, snapshot, fs2, vm2, d) {
      SameDiskChains(fs, vm, snapshot, fs1, vm1, fs2, vm2, d);
    }
  }

  lemma SameDiskChains(fs: Files, vm: string, snapshot: Option<string>, fs1: Files, vm1: string, fs2: Files, vm2: string, d: string)
    requires SameDisk(fs, vm, snapshot, fs1, vm1, d) && SameDisk(fs1, vm1, None, fs2, vm2, d)
    ensures SameDisk(fs, vm, snapshot, fs2, vm2, d)
  {
    hide View, NameFor;
    assert Included(fs1, vm1, d, None) == SnapNames(fs1, vm1, d);
  }

  /** A backup exists and restores as the same VM into an empty home, whenever
      no two of its base images share a file name. */
  lemma Migrates(h: Probe, fs: Files, vm: string, snapshot: Option<string>)
    requires Exportable(fs, vm, snapshot) && !Clash(fs, Chosen(fs, vm, snapshot))
    ensures BackupOf(h, fs, vm, snapshot).Some?
    ensures var b := BackupOf(h, fs, vm, snapshot).value; var (fs', r) := Restore(h, map[], b, None, false, NO_FAULTS);
            r.Ok? && SameVm(fs, vm, snapshot, fs', vm)
  {
    hide Chosen, Gather, Clash, Restore, SameVm, ValidName, MakeBundle;
    BackupFailsExactly(h, fs, vm, snapshot);
    var b := BackupOf(h, fs, vm, snapshot).value;
    EmptyHome(h, fs, vm, snapshot, b);
    BackupRestore(h, fs, vm, snapshot, b, map[], None, false);
  }

  lemma EmptyHome(h: Probe, fs: Files, vm: string, snapshot: Option<string>, b: Bundle)
    requires Exportable(fs, vm, snapshot) && BackupOf(h, fs, vm, snapshot) == Some(b)
    ensures WellFormed(map[]) && Compatible(fs, map[], Gather(fs, Chosen(fs, vm, snapshot), map[]).value)
    ensures Target(b, None) == vm && Refusal(map[], b, vm, false).Ok?
  {
    hide Chosen, Gather, Included, ValidName, SectionOf, Packed, ImageRecs, AddSources, WellFormed, BaseOf, ArcOf, FileName, Bytes, WellNamed;
    var images := Gather(fs, Chosen(fs, vm, snapshot), map[]).value;
    BundleHolds(h, fs, vm, snapshot, images, b);
    NothingIsWellFormed();
    VmNameValid(fs, vm);
  }

  lemma NothingIsWellFormed()
    ensures WellFormed(map[])
  {
    RankedIsForest(Links(map[]), map[]);
  }

  lemma VmNameValid(fs: Files, vm: string)
    requires WellNamed(fs) && DiskNames(fs, vm) != {}
    ensures ValidName(vm)
  {
    hide ValidName;
    var d :| d in DiskNames(fs, vm);
    assert GoodName(Active(vm, d));
  }

  /** For one: a disk with two snapshots, exported whole or up to the first. */
  lemma ChainMigrates(h: Probe, snapshot: Option<string>)
    requires snapshot == None || snapshot == Some("s")
    ensures Exportable(CHAIN, "a", snapshot) && !Clash(CHAIN, Chosen(CHAIN, "a", snapshot))
    ensures BackupOf(h, CHAIN, "a", snapshot).Some?
    ensures var (fs', r) := Restore(h, map[], BackupOf(h, CHAIN, "a", snapshot).value, None, false, NO_FAULTS);
            r.Ok? && SameVm(CHAIN, "a", snapshot, fs', "a")
  {
    hide Chosen, WellFormed, BackupOf, Restore, SameVm, BaseOf, Exportable, Clash;
    ChainIsFine();
    ChainWellNamed();
    forall p ensures BaseOf(CHAIN, p) == None { ChainHasNoBase(p); }
    ExportableWithoutBases(CHAIN, "a", snapshot);
    Migrates(h, CHAIN, "a", snapshot);
  }

  lemma ChainHasNoBase(p: Path)
    ensures BaseOf(CHAIN, p) == None
  {
  }

  lemma ChainWellNamed()
    ensures WellNamed(CHAIN) && DiskNames(CHAIN, "a") == {"d"} && Snap("a", "d", "s") in CHAIN
  {
    assert NameChars("a") && NameChars("d") && NameChars("s") && NameChars("t");
    assert Active("a", "d") in CHAIN;
  }

  lemma ExportableWithoutBases(fs: Files, vm: string, snapshot: Option<string>)
    requires WellFormed(fs) && WellNamed(fs) && DiskNames(fs, vm) != {} && forall p :: BaseOf(fs, p) == None
    requires snapshot.Some? ==> forall d :: d in DiskNames(fs, vm) ==> Snap(vm, d, snapshot.value) in fs
    ensures Exportable(fs, vm, snapshot) && !Clash(fs, Chosen(fs, vm, snapshot))
  {
    hide Chosen, BaseOf, WellFormed, WellNamed;
  }

  /** The second generation. A restored VM can always be backed up, and the copy
      restored from that backup is the first VM still: same names, parents,
      current snapshot and contents. */
  lemma SecondGeneration(h: Probe, fs: Files, vm: string, snapshot: Option<string>, b: Bundle, fs2: Files, asVm: Option<string>, force: bool,
                         fs3: Files, asVm3: Option<string>, force3: bool)
    requires Exportable(fs, vm, snapshot) && BackupOf(h, fs, vm, snapshot) == Some(b)
    requires WellFormed(fs2) && WellNamed(fs2) && Compatible(fs, fs2, Gather(fs, Chosen(fs, vm, snapshot), map[]).value)
    requires Refusal(fs2, b, Target(b, asVm), force).Ok?
    ensures var vm1 := Target(b, asVm); var fs1 := Restore(h, fs2, b, asVm, force, NO_FAULTS).0;
            && Exportable(fs1, vm1, None)
            && BackupOf(h, fs1, vm1, None).Some?
            && var b1 := BackupOf(h, fs1, vm1, None).value;
               WellFormed(fs3) && Compatible(fs1, fs3, Gather(fs1, Chosen(fs1, vm1, None), map[]).value)
               && Refusal(fs3, b1, Target(b1, asVm3), force3).Ok? ==>
                 var (fs', r) := Restore(h, fs3, b1, asVm3, force3, NO_FAULTS);
                 r.Ok? && WellFormed(fs') && SameVm(fs, vm, snapshot, fs', Target(b1, asVm3))
  {
    hide Chosen, Gather, Clash, Restore, SameVm, MakeBundle, BackupOf, Exportable, WellFormed, WellNamed, Copy, OthersKept, GoodImages, Compatible;
    BackupGathers(h, fs, vm, snapshot);
    var images := Gather(fs, Chosen(fs, vm, snapshot), map[]).value;
    var vm1, fs1 := Target(b, asVm), Restore(h, fs2, b, asVm, force, NO_FAULTS).0;
    RestoredCopy(h, fs, vm, snapshot, images, b, fs2, asVm, force);
    CopyExportable(fs, vm, snapshot, images, fs2, vm1, fs1);
    BackupFailsExactly(h, fs1, vm1, None);
    BackupGathers(h, fs1, vm1, None);
    BackupRestore(h, fs, vm, snapshot, b, fs2, asVm, force);
    var b1 := BackupOf(h, fs1, vm1, None).value;
    if WellFormed(fs3) && Compatible(fs1, fs3, Gather(fs1, Chosen(fs1, vm1, None), map[]).value)
       && Refusal(fs3, b1, Target(b1, asVm3), force3).Ok? {
      BackupRestore(h, fs1, vm1, None, b1, fs3, asVm3, force3);
      SameVmChains(fs, vm, snapshot, fs1, vm1, Restore(h, fs3, b1, asVm3, force3, NO_FAULTS).0, Target(b1, asVm3));
    }
  }

  lemma BackupGathers(h: Probe, fs: Files, vm: string, snapshot: Option<string>)
    ensures BackupOf(h, fs, vm, snapshot).Some? <==> Gather(fs, Chosen(fs, vm, snapshot), map[]).Some?
  {
    hide Chosen, Gather;
  }

  // ---- any number of generations ------------------------------------------------------------

  /** A home the next copy is restored in, under which name, and whether forced. */
  datatype Hop = Hop(home: Files, asVm: Option<string>, force: bool)

  /** Where a VM ends up when it is backed up and restored from home to home. */
  ghost function Travelled(h: Probe, fs: Files, vm: string, snapshot: Option<string>, hops: seq<Hop>): (Files, string)
    decreases |hops|
  {
    if hops == [] || BackupOf(h, fs, vm, snapshot).None? then (fs, vm)
    else
      var b := BackupOf(h, fs, vm, snapshot).value;
      Travelled(h, Restore(h, hops[0].home, b, hops[0].asVm, hops[0].force, NO_FAULTS).0, Target(b, hops[0].asVm), None, hops[1..])
  }

  /** Every home on the way is in order, does not refuse the copy, and lacks its
      images or has the same ones. */
  ghost predicate Open(h: Probe, fs: Files, vm: string, snapshot: Option<string>, hops: seq<Hop>)
    decreases |hops|
  {
    hops != [] && BackupOf(h, fs, vm, snapshot).Some? ==>
      var b, hop := BackupOf(h, fs, vm, snapshot).value, hops[0];
      && WellFormed(hop.home) && WellNamed(hop.home)
      && Compatible(fs, hop.home, Gather(fs, Chosen(fs, vm, snapshot), map[]).value)
      && Refusal(hop.home, b, Target(b, hop.asVm), hop.force).Ok?
      && Open(h, Restore(h, hop.home, b, hop.asVm, hop.force, NO_FAULTS).0, Target(b, hop.asVm), None, hops[1..])
  }

  lemma OneHop(h: Probe, fs: Files, vm: string, snapshot: Option<string>, b: Bundle, hop: Hop)
    requires Exportable(fs, vm, snapshot) && BackupOf(h, fs, vm, snapshot) == Some(b)
    requires WellFormed(hop.home) && WellNamed(hop.home)
    requires Compatible(fs, hop.home, Gather(fs, Chosen(fs, vm, snapshot), map[]).value)
    requires Refusal(hop.home, b, Target(b, hop.asVm), hop.force).Ok?
    ensures var fs1, vm1 := Restore(h, hop.home, b, hop.asVm, hop.force, NO_FAULTS).0, Target(b, hop.asVm);
            Exportable(fs1, vm1, None) && BackupOf(h, fs1, vm1, None).Some? && SameVm(fs, vm, snapshot, fs1, vm1)
  {
    hide Chosen, Gather, Restore, SameVm, MakeBundle, BackupOf, Exportable, WellFormed, WellNamed, Compatible, Refusal;
    BackupGathers(h, fs, vm, snapshot);
    SecondGeneration(h, fs, vm, snapshot, b, hop.home, hop.asVm, hop.force, map[], None, false);
    BackupRestore(h, fs, vm, snapshot, b, hop.home, hop.asVm, hop.force);
  }

  /** However many times it is backed up and restored, the VM is still the first
      one, and can be exported once more. */
  lemma {:induction false} EveryGeneration(h: Probe, fs: Files, vm: string, snapshot: Option<string>, hops: seq<Hop>)
    requires Exportable(fs, vm, snapshot) && BackupOf(h, fs, vm, snapshot).Some? && Open(h, fs, vm, snapshot, hops) && hops != []
    ensures var (fs', vm') := Travelled(h, fs, vm, snapshot, hops);
            Exportable(fs', vm', None) && BackupOf(h, fs', vm', None).Some? && SameVm(fs, vm, snapshot, fs', vm')
    decreases |hops|
  {
    hide Chosen, Gather, Restore, SameVm, MakeBundle, BackupOf, Exportable, WellFormed, WellNamed, Compatible, Refusal, Target;
    var b, hop := BackupOf(h, fs, vm, snapshot).value, hops[0];
    var fs1, vm1 := Restore(h, hop.home, b, hop.asVm, hop.force, NO_FAULTS).0, Target(b, hop.asVm);
    BackupGathers(h, fs, vm, snapshot);
    OneHop(h, fs, vm, snapshot, b, hop);
    if |hops| > 1 {
      EveryGeneration(h, fs1, vm1, None, hops[1..]);
      var (fs', vm') := Travelled(h, fs1, vm1, None, hops[1..]);
      SameVmChains(fs, vm, snapshot, fs1, vm1, fs', vm');
    }
  }
}
