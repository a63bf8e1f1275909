/** The HVF backend (crates/vmforge-backend-hvf/src/lib.rs): the calls of a
    `Hypervisor` over a table of VM entries, with every engine call allowed to
    fail. How the engine behaves is part of the call. */
module Hvf {
  import opened Forest
  import opened Lifecycle
  import opened LayerNames

  datatype Config = Config(name: string, aarch64: bool, disks: seq<string>)

  /** The frozen layers and saved state behind one snapshot. */
  datatype Artifacts = Artifacts(diskBases: seq<string>, stateFile: string, parent: Option<string>)

  /** `runtime`: whether the entry owns a QEMU process. */
  datatype Entry = Entry(config: Config, state: VmState, runtime: bool, dir: string, counter: nat,
                         activeDisks: seq<string>, snapshots: map<string, Artifacts>)

  type Vms = map<string, Entry>

  datatype HvError = Engine | Io | Unsupported | VmNotFound | SnapshotNotFound | BadTransition
  datatype Reply = Done | NewSnapshot(id: string) | Failed(error: HvError)

  /** Where a restore stops, if it does. */
  datatype RestoreRun = QuitFails | OverlayFails(at: nat) | EngineFails | Restored

  datatype Call =
    | CallCreate(config: Config, dir: string, dirWorks: bool)
    | CallBoot(vm: string, works: bool)
    | CallPause(vm: string, works: bool)
    | CallResume(vm: string, works: bool)
    | CallStop(vm: string, works: bool)
    | CallSnapshot(vm: string, parent: Option<string>, captured: Option<string>)   // the id, if the capture works
    | CallRestore(vm: string, snapshot: string, run: RestoreRun)
    | CallDelete(vm: string)

  function NewLayers(dir: string, k: Kind, n: nat, count: nat): (r: seq<string>)
    ensures |r| == count && forall i :: 0 <= i < count ==> r[i] == Overlay(dir, k, n, i)
  {
    seq(count, i requires 0 <= i < count => Overlay(dir, k, n, i))
  }

  predicate Allowed(e: Entry, op: VmOp) { Transition(e.state, op).Next? }

  // ---- one call on one entry -------------------------------------------------------------

  function Booted(e: Entry, works: bool): (Entry, Reply) {
    if !Allowed(e, Boot) then (e, Failed(BadTransition))
    else if !works then (e, Failed(Engine))
    else (e.(runtime := true, state := Running), Done)
  }

  function PausedBy(e: Entry, works: bool): (Entry, Reply) {
    if !Allowed(e, Pause) then (e, Failed(BadTransition))
    else if !e.runtime || !works then (e, Failed(Engine))
    else (e.(state := Paused), Done)
  }

  function ResumedBy(e: Entry, works: bool): (Entry, Reply) {
    if !Allowed(e, Resume) then (e, Failed(BadTransition))
    else if !e.runtime || !works then (e, Failed(Engine))
    else (e.(state := Running), Done)
  }

  /** The handle is taken out before QEMU is asked to quit. */
  function StoppedBy(e: Entry, works: bool): (Entry, Reply) {
    if !Allowed(e, Stop) then (e, Failed(BadTransition))
    else if e.runtime && !works then (e.(runtime := false), Failed(Io))
    else (e.(runtime := false, state := Stopped), Done)
  }

  function Captured(e: Entry, parent: Option<string>, captured: Option<string>): (Entry, Reply) {
    if parent.Some? && parent.value !in e.snapshots then (e, Failed(SnapshotNotFound))
    else if !Allowed(e, SnapshotBegin) then (e, Failed(BadTransition))
    else
      var n := e.counter + 1;
      if !e.runtime || captured.None? then (e.(counter := n), Failed(Engine))
      else
        (e.(counter := n,
            activeDisks := NewLayers(e.dir, Snap, n, |e.config.disks|),
            snapshots := e.snapshots[captured.value := Artifacts(e.activeDisks, StateFile(e.dir, n), parent)]),
         NewSnapshot(captured.value))
  }

  function StateFile(dir: string, n: nat): string { dir + "/snap" + Dec(n) + "-state.bin" }

  function RestoredBy(e: Entry, s: string, run: RestoreRun): (Entry, Reply) {
    if !Allowed(e, Lifecycle.Restore) then (e, Failed(BadTransition))
    else if s !in e.snapshots then (e, Failed(SnapshotNotFound))
    else if e.runtime && run.QuitFails? then (e.(runtime := false), Failed(Io))
    else
      var n := e.counter + 1;
      var count := |e.snapshots[s].diskBases|;
      if run.OverlayFails? && run.at < count then (e.(runtime := false, counter := n), Failed(Engine))
      else
        var e' := e.(runtime := false, counter := n, activeDisks := NewLayers(e.dir, Branch, n, count));
        if run.EngineFails? then (e', Failed(Engine))
        else (e'.(runtime := true, state := Running), Done)
  }

  function Target(c: Call): string {
    if c.CallCreate? then c.config.name else c.vm
  }

  function OnEntry(e: Entry, c: Call): (Entry, Reply)
    requires !c.CallCreate? && !c.CallDelete?
  {
    match c
    case CallBoot(_, works) => Booted(e, works)
    case CallPause(_, works) => PausedBy(e, works)
    case CallResume(_, works) => ResumedBy(e, works)
    case CallStop(_, works) => StoppedBy(e, works)
    case CallSnapshot(_, parent, captured) => Captured(e, parent, captured)
    case CallRestore(_, s, run) => RestoredBy(e, s, run)
  }

  function Step(vms: Vms, c: Call): (Vms, Reply) {
    if c.CallCreate? then
      if c.config.name in vms then (vms, Failed(Engine))
      else if !c.dirWorks then (vms, Failed(Io))
      else if !c.config.aarch64 then (vms, Failed(Unsupported))
      else (vms[c.config.name := Entry(c.config, Defined, false, c.dir, 0, c.config.disks, map[])], Done)
    else if c.vm !in vms then (vms, Failed(VmNotFound))
    else if c.CallDelete? then
      if Allowed(vms[c.vm], Delete) then (vms - {c.vm}, Done) else (vms, Failed(BadTransition))
    else
      var (e, r) := OnEntry(vms[c.vm], c);
      (vms[c.vm := e], r)
  }

  function Run(vms: Vms, calls: seq<Call>): Vms
    decreases |calls|
  {
    if calls == [] then vms else Run(Step(vms, calls[0]).0, calls[1..])
  }

  // ---- invariants ---------------------------------------------------------------------------

  /** A path the entry may have used so far: configured, or generated with a
      number already handed out. */
  ghost predicate Known(e: Entry, p: string) {
    p in e.config.disks || exists k: Kind, n: nat, i: nat :: n <= e.counter && p == Overlay(e.dir, k, n, i)
  }

  /** Configured disk paths are not of the generated form. */
  ghost predicate CleanConfig(c: Config, dir: string) {
    forall k: Kind, n: nat, i: nat :: Overlay(dir, k, n, i) !in c.disks
  }

  ghost predicate Frozen(e: Entry, p: string) {
    exists s :: s in e.snapshots && p in e.snapshots[s].diskBases
  }

  ghost predicate GoodEntry(e: Entry) {
    && CleanConfig(e.config, e.dir)
    && !e.state.Snapshotting?
    && (e.runtime ==> Live(e.state))
    && |e.activeDisks| == |e.config.disks|
    && (forall s :: s in e.snapshots ==> |e.snapshots[s].diskBases| == |e.config.disks|)
    && (forall p :: p in e.activeDisks ==> Known(e, p) && !Frozen(e, p))
    && (forall p :: Frozen(e, p) ==> Known(e, p))
  }

  ghost predicate Good(vms: Vms) {
    forall v :: v in vms ==> GoodEntry(vms[v])
  }

  /** A number not handed out yet gives a name not used yet. */
  lemma FreshName(e: Entry, k: Kind, i: nat)
    requires CleanConfig(e.config, e.dir)
    ensures !Known(e, Overlay(e.dir, k, e.counter + 1, i))
  {
    hide Overlay;
    var p := Overlay(e.dir, k, e.counter + 1, i);
    forall k': Kind, n': nat, i': nat | n' <= e.counter ensures p != Overlay(e.dir, k', n', i') {
      if p == Overlay(e.dir, k', n', i') { OverlayInjective(e.dir, k, e.counter + 1, i, k', n', i'); }
    }
  }

  lemma KnownGrows(e: Entry, e': Entry, p: string)
    requires Known(e, p) && e'.config == e.config && e'.dir == e.dir && e'.counter >= e.counter
    ensures Known(e', p)
  {
    hide Overlay;
    if p !in e.config.disks {
      var k: Kind, n: nat, i: nat :| n <= e.counter && p == Overlay(e.dir, k, n, i);
    }
  }

  /** The layers of a new generation are known afterwards and were not before. */
  lemma NewGeneration(e: Entry, e': Entry, k: Kind, count: nat)
    requires CleanConfig(e.config, e.dir) && e'.config == e.config && e'.dir == e.dir && e'.counter == e.counter + 1
    ensures forall p :: p in NewLayers(e.dir, k, e.counter + 1, count) ==> Known(e', p) && !Known(e, p)
  {
    hide Overlay;
    var ls := NewLayers(e.dir, k, e.counter + 1, count);
    forall p | p in ls ensures Known(e', p) && !Known(e, p) {
      var i :| 0 <= i < |ls| && ls[i] == p;
      FreshName(e, k, i);
    }
  }

  lemma CapturedGood(e: Entry, parent: Option<string>, captured: Option<string>)
    requires GoodEntry(e)
    ensures GoodEntry(Captured(e, parent, captured).0)
  {
    hide Overlay, Known, CleanConfig;
    var e' := Captured(e, parent, captured).0;
    forall p | Known(e, p) ensures Known(e', p) { KnownGrows(e, e', p); }
    if e'.counter > e.counter { NewGeneration(e, e', Snap, |e.config.disks|); }
    forall p | Frozen(e', p) ensures Frozen(e, p) || p in e.activeDisks {
      var s :| s in e'.snapshots && p in e'.snapshots[s].diskBases;
    }
  }

  lemma RestoredGood(e: Entry, s: string, run: RestoreRun)
    requires GoodEntry(e)
    ensures GoodEntry(RestoredBy(e, s, run).0)
  {
    hide Overlay, Known, CleanConfig;
    var e' := RestoredBy(e, s, run).0;
    forall p | Known(e, p) ensures Known(e', p) { KnownGrows(e, e', p); }
    if e'.counter > e.counter { NewGeneration(e, e', Branch, |e.snapshots[s].diskBases|); }
    assert e'.snapshots == e.snapshots;
    assert forall p :: Frozen(e', p) <==> Frozen(e, p);
  }

  lemma OnEntryGood(e: Entry, c: Call)
    requires GoodEntry(e) && !c.CallCreate? && !c.CallDelete?
    ensures GoodEntry(OnEntry(e, c).0)
  {
    if c.CallSnapshot? {
      CapturedGood(e, c.parent, c.captured);
    } else if c.CallRestore? {
      RestoredGood(e, c.snapshot, c.run);
    } else {
      hide Overlay, CleanConfig;
      var e' := OnEntry(e, c).0;
      forall p | Known(e, p) ensures Known(e', p) { KnownGrows(e, e', p); }
      assert forall p :: Frozen(e', p) <==> Frozen(e, p);
    }
  }

  /** New VMs are configured with paths that are not of the generated form. */
  ghost predicate Admissible(c: Call) {
    c.CallCreate? ==> CleanConfig(c.config, c.dir)
  }

  lemma StepGood(vms: Vms, c: Call)
    requires Good(vms) && Admissible(c)
    ensures Good(Step(vms, c).0)
  {
    hide Overlay, CleanConfig;
    if !c.CallCreate? && !c.CallDelete? && c.vm in vms { OnEntryGood(vms[c.vm], c); }
  }

  /** Over every run, whatever fails: no VM is left in `Snapshotting`, a QEMU
      handle means `Running` or `Paused`, the disk counts stay, and no active
      layer is a layer of a recorded snapshot. */
  lemma {:induction false} RunGood(vms: Vms, calls: seq<Call>)
    requires Good(vms) && forall i :: 0 <= i < |calls| ==> Admissible(calls[i])
    ensures Good(Run(vms, calls))
    decreases |calls|
  {
    hide CleanConfig;
    if calls != [] {
      StepGood(vms, calls[0]);
      RunGood(Step(vms, calls[0]).0, calls[1..]);
    }
  }

  /** So a deleted entry never owns a process. */
  lemma DeleteOwnsNothing(vms: Vms, calls: seq<Call>, vm: string)
    requires Good(vms) && forall i :: 0 <= i < |calls| ==> Admissible(calls[i])
    requires var now := Run(vms, calls); vm in now && Step(now, CallDelete(vm)).1.Done?
    ensures !Run(vms, calls)[vm].runtime
  {
    hide CleanConfig;
    RunGood(vms, calls);
  }

  // ---- frozen layers stay frozen ----------------------------------------------------------

  /** The files QEMU is started on, and may write, if a call starts it. */
  function Opened(vms: Vms, c: Call): seq<string> {
    if c.CallCreate? || c.CallDelete? || c.vm !in vms then [] else
    var e := vms[c.vm];
    match c
    case CallBoot(_, _) => if Allowed(e, Boot) then e.activeDisks else []
    case CallRestore(_, s, run) =>
      if Allowed(e, Lifecycle.Restore) && s in e.snapshots && !(e.runtime && run.QuitFails?)
         && !(run.OverlayFails? && run.at < |e.snapshots[s].diskBases|)
      then NewLayers(e.dir, Branch, e.counter + 1, |e.snapshots[s].diskBases|) else []
    case _ => []
  }

  /** The entry has used `p` and does not write to it. */
  ghost predicate Retired(e: Entry, p: string) {
    Known(e, p) && p !in e.activeDisks
  }

  lemma FrozenIsRetired(e: Entry, p: string)
    requires GoodEntry(e) && Frozen(e, p)
    ensures Retired(e, p)
  {
  }

  lemma OnEntryRetired(e: Entry, c: Call, p: string)
    requires GoodEntry(e) && !c.CallCreate? && !c.CallDelete? && Retired(e, p)
    ensures Retired(OnEntry(e, c).0, p)
  {
    hide Overlay, Known, CleanConfig;
    var e' := OnEntry(e, c).0;
    KnownGrows(e, e', p);
    if e'.counter > e.counter {
      NewGeneration(e, e', Snap, |e.config.disks|);
      if c.CallRestore? { NewGeneration(e, e', Branch, |e.snapshots[c.snapshot].diskBases|); }
    }
  }

  lemma RetiredNotOpened(vms: Vms, c: Call, p: string)
    requires Good(vms) && !c.CallCreate? && c.vm in vms && Retired(vms[c.vm], p)
    ensures p !in Opened(vms, c)
  {
    hide Overlay, Known, CleanConfig;
    var e := vms[c.vm];
    if c.CallRestore? && c.snapshot in e.snapshots {
      NewGeneration(e, e.(counter := e.counter + 1), Branch, |e.snapshots[c.snapshot].diskBases|);
    }
  }

  /** A layer that a snapshot froze is never again started on for writing, by any
      later boot or restore, as long as the VM exists: not even after the
      snapshot's record has been replaced. */
  lemma {:induction false} FrozenForever(vms: Vms, calls: seq<Call>, vm: string, p: string)
    requires Good(vms) && forall i :: 0 <= i < |calls| ==> Admissible(calls[i])
    requires forall i :: 0 <= i < |calls| ==> calls[i] != CallDelete(vm)
    requires vm in vms && Retired(vms[vm], p)
    ensures vm in Run(vms, calls) && Retired(Run(vms, calls)[vm], p)
    ensures forall i :: 0 <= i < |calls| && Target(calls[i]) == vm ==> p !in Opened(Run(vms, calls[..i]), calls[i])
    decreases |calls|
  {
    hide Overlay, Known, CleanConfig, Retired, GoodEntry, Opened, OnEntry;
    if calls != [] {
      var c, rest := calls[0], calls[1..];
      var next := Step(vms, c).0;
      StepGood(vms, c);
      if !c.CallCreate? && !c.CallDelete? && c.vm == vm { OnEntryRetired(vms[vm], c, p); }
      assert vm in next && Retired(next[vm], p);
      FrozenForever(next, rest, vm, p);
      forall i | 0 <= i < |calls| && Target(calls[i]) == vm ensures p !in Opened(Run(vms, calls[..i]), calls[i]) {
        if i == 0 {
          assert Run(vms, calls[..0]) == vms;
          if c.CallCreate? { CreateOpensNothing(vms, c); } else { RetiredNotOpened(vms, c, p); }
        } else {
          assert calls[..i][0] == c && calls[..i][1..] == rest[..i - 1] && calls[i] == rest[i - 1];
        }
      }
    }
  }

  lemma CreateOpensNothing(vms: Vms, c: Call)
    requires c.CallCreate?
    ensures Opened(vms, c) == []
  {
  }

  // ---- who owns a process ------------------------------------------------------------------

  ghost predicate Exact(vms: Vms) {
    forall v :: v in vms ==> (vms[v].runtime <==> Live(vms[v].state)) && !vms[v].state.Snapshotting?
  }

  /** The call will take QEMU's handle out and not put one back: a stop whose quit
      fails, or a restore of a paused VM that stops on its way. */
  predicate Loses(e: Entry, c: Call) {
    && e.runtime
    && match c
       case CallStop(_, works) => Allowed(e, Stop) && !works
       case CallRestore(_, s, run) =>
         && Allowed(e, Lifecycle.Restore) && s in e.snapshots
         && (run.QuitFails? || run.EngineFails? || (run.OverlayFails? && run.at < |e.snapshots[s].diskBases|))
       case _ => false
  }

  predicate LosesIn(vms: Vms, c: Call) {
    !c.CallCreate? && c.vm in vms && Loses(vms[c.vm], c)
  }

  /** A VM owns a process exactly while it is `Running` or `Paused`, and a call
      keeps it so exactly when it is none of those. */
  lemma StepExact(vms: Vms, c: Call)
    requires Exact(vms)
    ensures Exact(Step(vms, c).0) <==> !LosesIn(vms, c)
  {
    hide NewLayers, StateFile;
    if !c.CallCreate? && !c.CallDelete? && c.vm in vms { assert c.vm in Step(vms, c).0; }
  }

  lemma {:induction false} RunSnoc(vms: Vms, calls: seq<Call>, i: nat)
    requires i < |calls|
    ensures Run(vms, calls[..i + 1]) == Step(Run(vms, calls[..i]), calls[i]).0
    decreases i
  {
    hide Step;
    var first := Step(vms, calls[0]).0;
    assert calls[..i + 1][1..] == calls[1..][..i];
    if i > 0 {
      assert calls[..i][1..] == calls[1..][..i - 1];
      RunSnoc(first, calls[1..], i - 1);
    }
  }

  /** Over a whole run: it is so all along exactly when no call loses a handle. */
  lemma ExactRun(vms: Vms, calls: seq<Call>)
    requires Exact(vms)
    ensures (forall i :: 0 <= i <= |calls| ==> Exact(Run(vms, calls[..i]))) <==>
            (forall i :: 0 <= i < |calls| ==> !LosesIn(Run(vms, calls[..i]), calls[i]))
  {
    hide Step, Exact, LosesIn;
    if forall i :: 0 <= i <= |calls| ==> Exact(Run(vms, calls[..i])) {
      forall i | 0 <= i < |calls| ensures !LosesIn(Run(vms, calls[..i]), calls[i]) {
        RunSnoc(vms, calls, i);
        assert Exact(Run(vms, calls[..i + 1]));
        StepExact(Run(vms, calls[..i]), calls[i]);
      }
    }
    if forall i :: 0 <= i < |calls| ==> !LosesIn(Run(vms, calls[..i]), calls[i]) {
      forall i | 0 <= i <= |calls| ensures Exact(Run(vms, calls[..i])) { ExactUpTo(vms, calls, i); }
    }
  }

  lemma {:induction false} ExactUpTo(vms: Vms, calls: seq<Call>, i: nat)
    requires Exact(vms) && i <= |calls|
    requires forall j :: 0 <= j < i ==> !LosesIn(Run(vms, calls[..j]), calls[j])
    ensures Exact(Run(vms, calls[..i]))
    decreases i
  {
    hide Step, Exact, LosesIn;
    if i == 0 {
      assert calls[..0] == [];
    } else {
      ExactUpTo(vms, calls, i - 1);
      RunSnoc(vms, calls, i - 1);
      StepExact(Run(vms, calls[..i - 1]), calls[i - 1]);
    }
  }

  const PLAIN := Config("vm", true, [])

  const BOOTED: seq<Call> := [CallCreate(PLAIN, "d", true), CallBoot("vm", true)]
  const PAUSED_AFTER_SNAPSHOT: seq<Call> := BOOTED + [CallSnapshot("vm", None, Some("s")), CallPause("vm", true)]

  /** Both kinds happen: from nothing, a failed quit leaves `Running` without a
      process, and a failed restore leaves `Paused` without one. */
  lemma HandlesAreLost()
    ensures var e := Run(map[], BOOTED + [CallStop("vm", false)]);
            "vm" in e && e["vm"].state.Running? && !e["vm"].runtime
    ensures var e := Run(map[], PAUSED_AFTER_SNAPSHOT + [CallRestore("vm", "s", EngineFails)]);
            "vm" in e && e["vm"].state.Paused? && !e["vm"].runtime
  {
    hide NewLayers, StateFile, Run, Step;
    var stopped, restored := BOOTED + [CallStop("vm", false)], PAUSED_AFTER_SNAPSHOT + [CallRestore("vm", "s", EngineFails)];
    BootedIs(stopped);
    BootedIs(restored);
    RunSnoc(map[], stopped, 2);
    RunSnoc(map[], restored, 2);
    RunSnoc(map[], restored, 3);
    RunSnoc(map[], restored, 4);
    assert stopped[..3] == stopped && restored[..5] == restored;
    StepIs(Run(map[], stopped[..2]), stopped[2]);
    StepIs(Run(map[], restored[..2]), restored[2]);
    StepIs(Run(map[], restored[..3]), restored[3]);
    StepIs(Run(map[], restored[..4]), restored[4]);
  }

  lemma BootedIs(calls: seq<Call>)
    requires |calls| >= 2 && calls[..2] == BOOTED
    ensures Run(map[], calls[..2]) == map["vm" := Entry(PLAIN, Running, true, "d", 0, [], map[])]
  {
    hide Run;
    RunSnoc(map[], calls, 0);
    RunSnoc(map[], calls, 1);
    assert calls[..0] == [] && calls[0] == calls[..2][0] && calls[1] == calls[..2][1];
    RunNothing(map[]);
  }

  lemma RunNothing(vms: Vms)
    ensures Run(vms, []) == vms
  {
  }

  lemma StepIs(vms: Vms, c: Call)
    requires !c.CallCreate? && !c.CallDelete? && c.vm in vms
    ensures Step(vms, c).0 == vms[c.vm := OnEntry(vms[c.vm], c).0]
  {
  }
}

/** The backend object. */
module HvfBackends {
  import opened Forest
  import opened Lifecycle
  import opened LayerNames
  import opened Hvf

  lemma StepOnEntry(vms: Vms, c: Call)
    requires !c.CallCreate? && !c.CallDelete?
    ensures Hvf.Step(vms, c) ==
            if c.vm in vms then (vms[c.vm := OnEntry(vms[c.vm], c).0], OnEntry(vms[c.vm], c).1) else (vms, Failed(VmNotFound))
  {
  }

  class HvfBackend {
    var vms: Vms

    constructor ()
      ensures vms == map[]
    {
      vms := map[];
    }

    method Create(config: Config, dir: string, dirWorks: bool) returns (r: Reply)
      modifies this
      ensures (vms, r) == Hvf.Step(old(vms), CallCreate(config, dir, dirWorks))
    {
      if config.name in vms { return Failed(Engine); }
      if !dirWorks { return Failed(Io); }
      if !config.aarch64 { return Failed(Unsupported); }
      vms := vms[config.name := Entry(config, Defined, false, dir, 0, config.disks, map[])];
      return Done;
    }

    /** `transition`: validate, then move. */
    method Transit(vm: string, op: VmOp) returns (ok: bool)
      requires vm in vms && op != VmOp.Delete
      modifies this
      ensures ok <==> Permitted(old(vms)[vm].state, op)
      ensures vms == if ok then old(vms)[vm := old(vms)[vm].(state := Goal(op).value)] else old(vms)
    {
      var next := Transition(vms[vm].state, op);
      if next.InvalidTransition? { return false; }
      if next.state.Some? { vms := vms[vm := vms[vm].(state := next.state.value)]; }
      return true;
    }

    method Boot(vm: string, works: bool) returns (r: Reply)
      modifies this
      ensures (vms, r) == Hvf.Step(old(vms), CallBoot(vm, works))
    {
      if vm !in vms { return Failed(VmNotFound); }
      assert vms == vms[vm := vms[vm]];
      if !Allowed(vms[vm], VmOp.Boot) { return Failed(BadTransition); }
      if !works { return Failed(Engine); }
      vms := vms[vm := vms[vm].(runtime := true)];
      var _ := Transit(vm, VmOp.Boot);
      assert vms == old(vms)[vm := old(vms)[vm].(runtime := true, state := Running)];
      return Done;
    }

    method Pause(vm: string, works: bool) returns (r: Reply)
      modifies this
      ensures (vms, r) == Hvf.Step(old(vms), CallPause(vm, works))
    {
      if vm !in vms { return Failed(VmNotFound); }
      assert vms == vms[vm := vms[vm]];
      if !Allowed(vms[vm], VmOp.Pause) { return Failed(BadTransition); }
      if !vms[vm].runtime || !works { return Failed(Engine); }
      var _ := Transit(vm, VmOp.Pause);
      return Done;
    }

    method Resume(vm: string, works: bool) returns (r: Reply)
      modifies this
      ensures (vms, r) == Hvf.Step(old(vms), CallResume(vm, works))
    {
      if vm !in vms { return Failed(VmNotFound); }
      assert vms == vms[vm := vms[vm]];
      if !Allowed(vms[vm], VmOp.Resume) { return Failed(BadTransition); }
      if !vms[vm].runtime || !works { return Failed(Engine); }
      var _ := Transit(vm, VmOp.Resume);
      return Done;
    }

    method Stop(vm: string, works: bool) returns (r: Reply)
      modifies this
      ensures (vms, r) == Hvf.Step(old(vms), CallStop(vm, works))
    {
      if vm !in vms { return Failed(VmNotFound); }
      assert vms == vms[vm := vms[vm]];
      if !Allowed(vms[vm], VmOp.Stop) { return Failed(BadTransition); }
      var had := vms[vm].runtime;
      vms := vms[vm := vms[vm].(runtime := false)];             // runtime.take()
      if had && !works { return Failed(Io); }
      var _ := Transit(vm, VmOp.Stop);
      assert vms == old(vms)[vm := old(vms)[vm].(runtime := false, state := Stopped)];
      return Done;
    }

    method Snapshot(vm: string, parent: Option<string>, captured: Option<string>) returns (r: Reply)
      modifies this
      ensures (vms, r) == Hvf.Step(old(vms), CallSnapshot(vm, parent, captured))
    {
      hide StateFile;
      if vm !in vms { return Failed(VmNotFound); }
      assert vms == vms[vm := vms[vm]];
      if parent.Some? && parent.value !in vms[vm].snapshots { return Failed(SnapshotNotFound); }
      var prior := vms[vm].state;
      var begun := Transit(vm, SnapshotBegin);
      if !begun { return Failed(BadTransition); }
      var n := vms[vm].counter + 1;
      vms := vms[vm := vms[vm].(counter := n)];
      var bases, had := vms[vm].activeDisks, vms[vm].runtime;
      var ended := Transit(vm, SnapshotEnd(prior));
      if !had || captured.None? {
        assert vms == old(vms)[vm := old(vms)[vm].(counter := n)];
        return Failed(Engine);
      }
      var e := vms[vm];
      vms := vms[vm := e.(activeDisks := NewLayers(e.dir, Snap, n, |e.config.disks|))];
      vms := vms[vm := vms[vm].(snapshots := e.snapshots[captured.value := Artifacts(bases, StateFile(e.dir, n), parent)])];
      assert vms == Hvf.Step(old(vms), CallSnapshot(vm, parent, captured)).0;
      return NewSnapshot(captured.value);
    }

    /** Fresh overlays, one on each frozen layer, in order. */
    method CreateOverlays(dir: string, n: nat, bases: seq<string>, run: RestoreRun) returns (overlays: Option<seq<string>>)
      ensures overlays == if run.OverlayFails? && run.at < |bases| then None else Some(NewLayers(dir, Branch, n, |bases|))
    {
      hide Overlay;
      var out: seq<string> := [];
      for i := 0 to |bases|
        invariant run.OverlayFails? ==> i <= run.at
        invariant out == NewLayers(dir, Branch, n, i)
      {
        if run.OverlayFails? && run.at == i { return None; }
        out := out + [Overlay(dir, Branch, n, i)];
      }
      return Some(out);
    }

    method Restore(vm: string, snapshot: string, run: RestoreRun) returns (r: Reply)
      modifies this
      ensures (vms, r) == Hvf.Step(old(vms), CallRestore(vm, snapshot, run))
    {
      hide NewLayers, Hvf.Step, Permitted;
      StepOnEntry(vms, CallRestore(vm, snapshot, run));
      if vm in vms { MovesExactly(vms[vm].state, VmOp.Restore); }
      if vm !in vms { return Failed(VmNotFound); }
      assert vms == vms[vm := vms[vm]];
      if !Allowed(vms[vm], VmOp.Restore) { return Failed(BadTransition); }
      if snapshot !in vms[vm].snapshots { return Failed(SnapshotNotFound); }
      var had := vms[vm].runtime;
      vms := vms[vm := vms[vm].(runtime := false)];
      if had && run.QuitFails? { return Failed(Io); }
      var n := vms[vm].counter + 1;
      vms := vms[vm := vms[vm].(counter := n)];
      var overlays := CreateOverlays(vms[vm].dir, n, vms[vm].snapshots[snapshot].diskBases, run);
      if overlays.None? {
        assert vms == old(vms)[vm := old(vms)[vm].(runtime := false, counter := n)];
        return Failed(Engine);
      }
      r := Relaunch(vm, overlays.value, !run.EngineFails?);
      assert vms == old(vms)[vm := RestoredBy(old(vms)[vm], snapshot, run).0];
    }

    /** The end of a restore: QEMU is started on the overlays with the saved state. */
    method Relaunch(vm: string, overlays: seq<string>, works: bool) returns (r: Reply)
      requires vm in vms && Permitted(vms[vm].state, VmOp.Restore)
      modifies this
      ensures r == if works then Done else Failed(Engine)
      ensures vms == old(vms)[vm := if works then old(vms)[vm].(activeDisks := overlays, runtime := true, state := Running)
                                    else old(vms)[vm].(activeDisks := overlays)]
    {
      vms := vms[vm := vms[vm].(activeDisks := overlays)];
      if !works { return Failed(Engine); }
      vms := vms[vm := vms[vm].(runtime := true)];
      var _ := Transit(vm, VmOp.Restore);
      return Done;
    }

    method Delete(vm: string) returns (r: Reply)
      modifies this
      ensures (vms, r) == Hvf.Step(old(vms), CallDelete(vm))
    {
      if vm !in vms { return Failed(VmNotFound); }
      assert vms == vms[vm := vms[vm]];
      if !Allowed(vms[vm], VmOp.Delete) { return Failed(BadTransition); }
      vms := vms - {vm};
      return Done;
    }
  }
}
