/** When each call of the HVF backend succeeds and what it does then, told from the
    state of the VM; which calls undo one another; and that no VM gets stuck. */
module HvfLaws {
  import opened Forest
  import opened Lifecycle
  import opened LayerNames
  import opened Hvf

  // ---- availability ------------------------------------------------------------------------

  /** A VM boots exactly if it is `Defined` or `Stopped` and QEMU starts; it then
      runs and owns a process. Otherwise nothing changes. */
  lemma BootExactly(vms: Vms, vm: string, works: bool)
    requires vm in vms
    ensures var (vms', r) := Step(vms, CallBoot(vm, works)); var e := vms[vm];
            && (r.Done? <==> works && (e.state == Defined || e.state == Stopped))
            && (r == Failed(BadTransition) <==> e.state != Defined && e.state != Stopped)
            && (r.Done? || r == Failed(BadTransition) || r == Failed(Engine))
            && vms' == if r.Done? then vms[vm := e.(state := Running, runtime := true)] else vms
  {
    assert vms == vms[vm := vms[vm]];
  }

  lemma PauseExactly(vms: Vms, vm: string, works: bool)
    requires vm in vms
    ensures var (vms', r) := Step(vms, CallPause(vm, works)); var e := vms[vm];
            && (r.Done? <==> works && e.state == Running && e.runtime)
            && (r == Failed(BadTransition) <==> e.state != Running)
            && (r.Done? || r == Failed(BadTransition) || r == Failed(Engine))
            && vms' == if r.Done? then vms[vm := e.(state := Paused)] else vms
  {
    assert vms == vms[vm := vms[vm]];
  }

  lemma ResumeExactly(vms: Vms, vm: string, works: bool)
    requires vm in vms
    ensures var (vms', r) := Step(vms, CallResume(vm, works)); var e := vms[vm];
            && (r.Done? <==> works && e.state == Paused && e.runtime)
            && (r == Failed(BadTransition) <==> e.state != Paused)
            && (r.Done? || r == Failed(BadTransition) || r == Failed(Engine))
            && vms' == if r.Done? then vms[vm := e.(state := Running)] else vms
  {
    assert vms == vms[vm := vms[vm]];
  }

  /** A stop succeeds exactly on a `Running` or `Paused` VM whose process, if it has
      one, quits. A process that does not quit is let go all the same. */
  lemma StopExactly(vms: Vms, vm: string, works: bool)
    requires vm in vms
    ensures var (vms', r) := Step(vms, CallStop(vm, works)); var e := vms[vm];
            && (r.Done? <==> (e.state == Running || e.state == Paused) && (e.runtime ==> works))
            && (r == Failed(BadTransition) <==> e.state != Running && e.state != Paused)
            && (r.Done? || r == Failed(BadTransition) || r == Failed(Io))
            && vms' == if r.Done? then vms[vm := e.(state := Stopped, runtime := false)]
                       else if e.state == Running || e.state == Paused then vms[vm := e.(runtime := false)] else vms
  {
    assert vms == vms[vm := vms[vm]];
  }

  /** A snapshot is taken exactly of a `Running` or `Paused` VM with a process, on
      no parent or a known one, when the capture works. It records the layers that
      were active and its own state file, and the VM goes on on new layers. Once
      begun it uses up a number, even if it fails. */
  lemma SnapshotExactly(vms: Vms, vm: string, parent: Option<string>, captured: Option<string>)
    requires vm in vms
    ensures var (vms', r) := Step(vms, CallSnapshot(vm, parent, captured)); var e := vms[vm];
            && (forall id :: r == NewSnapshot(id) <==>
                 && captured == Some(id) && (e.state == Running || e.state == Paused) && e.runtime
                 && (parent == None || parent.value in e.snapshots))
            && (r.NewSnapshot? || r.Failed?) && vm in vms'
            && (r == Failed(SnapshotNotFound) <==> parent != None && parent.value !in e.snapshots)
            && (r == Failed(BadTransition) <==> (parent == None || parent.value in e.snapshots) && e.state != Running && e.state != Paused)
            && (r.Failed? ==> r.error == SnapshotNotFound || r.error == BadTransition || r.error == Engine)
            && vms'[vm].state == e.state && vms'[vm].runtime == e.runtime
            && (r.NewSnapshot? ==>
                 && vms'[vm].snapshots == e.snapshots[r.id := Artifacts(e.activeDisks, StateFile(e.dir, e.counter + 1), parent)]
                 && vms'[vm].activeDisks == NewLayers(e.dir, Snap, e.counter + 1, |e.config.disks|))
            && (r.Failed? ==> vms'[vm].snapshots == e.snapshots && vms'[vm].activeDisks == e.activeDisks)
            && vms'[vm].counter == e.counter +
                 (if (e.state == Running || e.state == Paused) && (parent == None || parent.value in e.snapshots) then 1 else 0)
            && vms' == vms[vm := vms'[vm]]
  {
    hide NewLayers, StateFile;
  }

  /** The restore gets to the end: the old process quits, and every overlay and
      QEMU come up. */
  predicate Runs(e: Entry, s: string, run: RestoreRun)
    requires s in e.snapshots
  {
    match run
    case QuitFails => !e.runtime
    case OverlayFails(at) => at >= |e.snapshots[s].diskBases|
    case EngineFails => false
    case Restored => true
  }

  /** What a restore that does not get to the end leaves: once begun the process is
      gone, a number is used up unless the process would not quit, and the new
      layers count as active if they were all made. */
  function AfterFailure(e: Entry, s: string, run: RestoreRun): Entry {
    if e.state == Running || s !in e.snapshots then e
    else if e.runtime && run == QuitFails then e.(runtime := false)
    else if run == EngineFails then
      e.(runtime := false, counter := e.counter + 1, activeDisks := NewLayers(e.dir, Branch, e.counter + 1, |e.snapshots[s].diskBases|))
    else e.(runtime := false, counter := e.counter + 1)
  }

  /** A known snapshot is restored exactly on a VM that is not `Running`, when the
      restore runs through; the VM then runs on new layers and owns a process. */
  lemma RestoreExactly(vms: Vms, vm: string, s: string, run: RestoreRun)
    requires vm in vms && !vms[vm].state.Snapshotting?
    ensures var (vms', r) := Step(vms, CallRestore(vm, s, run)); var e := vms[vm];
            && (r.Done? <==> e.state != Running && s in e.snapshots && Runs(e, s, run))
            && (r == Failed(BadTransition) <==> e.state == Running)
            && (r == Failed(SnapshotNotFound) <==> e.state != Running && s !in e.snapshots)
            && (r == Failed(Io) <==> e.state != Running && s in e.snapshots && e.runtime && run == QuitFails)
            && (r.Done? || (r.Failed? && (r.error == BadTransition || r.error == SnapshotNotFound || r.error == Io || r.error == Engine)))
            && (r.Done? ==>
                 vms' == vms[vm := e.(state := Running, runtime := true, counter := e.counter + 1,
                                      activeDisks := NewLayers(e.dir, Branch, e.counter + 1, |e.snapshots[s].diskBases|))])
            && (!r.Done? ==> vms' == vms[vm := AfterFailure(e, s, run)])
  {
    hide NewLayers;
  }

  lemma DeleteExactly(vms: Vms, vm: string)
    requires vm in vms
    ensures var (vms', r) := Step(vms, CallDelete(vm)); var e := vms[vm];
            && (r.Done? <==> e.state == Defined || e.state == Stopped) && (r.Done? || r == Failed(BadTransition))
            && vms' == if r.Done? then vms - {vm} else vms
  {
  }

  lemma CreateExactly(vms: Vms, config: Config, dir: string, dirWorks: bool)
    ensures var (vms', r) := Step(vms, CallCreate(config, dir, dirWorks));
            && (r.Done? <==> config.name !in vms && dirWorks && config.aarch64)
            && (r == Failed(Engine) <==> config.name in vms)
            && (r == Failed(Io) <==> config.name !in vms && !dirWorks)
            && (r == Failed(Unsupported) <==> config.name !in vms && dirWorks && !config.aarch64)
            && vms' == if r.Done? then vms[config.name := Entry(config, Defined, false, dir, 0, config.disks, map[])] else vms
  {
  }

  /** On a VM that is not there every call fails and changes nothing. */
  lemma UnknownVm(vms: Vms, c: Call)
    requires !c.CallCreate? && c.vm !in vms
    ensures Step(vms, c) == (vms, Failed(VmNotFound))
  {
  }

  // ---- calls that undo one another ---------------------------------------------------------

  /** Pausing a running VM and resuming it gives everything back. */
  lemma PauseThenResume(vms: Vms, vm: string)
    requires vm in vms && vms[vm].state == Running && vms[vm].runtime
    ensures Run(vms, [CallPause(vm, true), CallResume(vm, true)]) == vms
  {
    hide Step;
    TwoCalls(vms, CallPause(vm, true), CallResume(vm, true));
    PauseExactly(vms, vm, true);
    ResumeExactly(Step(vms, CallPause(vm, true)).0, vm, true);
    assert vms[vm := vms[vm].(state := Paused)][vm := vms[vm].(state := Running)] == vms;
  }

  /** Stopping a stopped VM that was booted gives everything back. */
  lemma BootThenStop(vms: Vms, vm: string)
    requires vm in vms && vms[vm].state == Stopped && !vms[vm].runtime
    ensures Run(vms, [CallBoot(vm, true), CallStop(vm, true)]) == vms
  {
    hide Step;
    TwoCalls(vms, CallBoot(vm, true), CallStop(vm, true));
    BootExactly(vms, vm, true);
    StopExactly(Step(vms, CallBoot(vm, true)).0, vm, true);
    assert vms[vm := vms[vm].(state := Stopped, runtime := false)] == vms;
  }

  /** Deleting a VM just created gives everything back. */
  lemma CreateThenDelete(vms: Vms, config: Config, dir: string)
    requires config.name !in vms && config.aarch64
    ensures Run(vms, [CallCreate(config, dir, true), CallDelete(config.name)]) == vms
  {
    hide Step;
    TwoCalls(vms, CallCreate(config, dir, true), CallDelete(config.name));
    CreateExactly(vms, config, dir, true);
    DeleteExactly(Step(vms, CallCreate(config, dir, true)).0, config.name);
  }

  lemma TwoCalls(vms: Vms, a: Call, b: Call)
    ensures Run(vms, [a, b]) == Step(Step(vms, a).0, b).0
  {
    hide Step;
    assert [a, b][1..] == [b];
    assert Run(vms, [a, b]) == Run(Step(vms, a).0, [b]);
    OneCall(Step(vms, a).0, b);
  }

  /** No VM gets stuck: after any run, whatever has failed, one stop and one delete
      that work remove it, or the delete alone does. */
  lemma AlwaysRemovable(vms: Vms, calls: seq<Call>, vm: string)
    requires Good(vms) && forall i :: 0 <= i < |calls| ==> Admissible(calls[i])
    ensures var now := Run(vms, calls);
            vm in now ==>
              if now[vm].state == Running || now[vm].state == Paused
              then Run(now, [CallStop(vm, true), CallDelete(vm)]) == now - {vm}
              else Run(now, [CallDelete(vm)]) == now - {vm} && Step(now, CallBoot(vm, true)).1.Done?
  {
    hide Step, Run, CleanConfig;
    RunGood(vms, calls);
    var now := Run(vms, calls);
    if vm in now {
      assert GoodEntry(now[vm]);
      if now[vm].state == Running || now[vm].state == Paused {
        TwoCalls(now, CallStop(vm, true), CallDelete(vm));
        StopExactly(now, vm, true);
        DeleteExactly(Step(now, CallStop(vm, true)).0, vm);
        assert now[vm := now[vm].(state := Stopped, runtime := false)] - {vm} == now - {vm};
      } else {
        OneCall(now, CallDelete(vm));
        DeleteExactly(now, vm);
        BootExactly(now, vm, true);
      }
    }
  }

  lemma OneCall(vms: Vms, a: Call)
    ensures Run(vms, [a]) == Step(vms, a).0
  {
    hide Step;
    assert [a][1..] == [];
  }

  // ---- records and state files ----------------------------------------------------------------

  /** A record stays as it was made, until its VM goes or another capture comes to
      the same id: so a later restore finds its own layers and state file. */
  lemma {:induction false} RecordKept(vms: Vms, calls: seq<Call>, vm: string, id: string)
    requires vm in vms && id in vms[vm].snapshots
    requires forall i :: 0 <= i < |calls| ==>
               calls[i] != CallDelete(vm) && !(calls[i].CallSnapshot? && calls[i].vm == vm && calls[i].captured == Some(id))
    ensures var now := Run(vms, calls); vm in now && id in now[vm].snapshots && now[vm].snapshots[id] == vms[vm].snapshots[id]
    decreases |calls|
  {
    hide NewLayers, StateFile;
    if calls != [] {
      assert calls[0] != CallDelete(vm) && !(calls[0].CallSnapshot? && calls[0].vm == vm && calls[0].captured == Some(id));
      RecordKept(Step(vms, calls[0]).0, calls[1..], vm, id);
    }
  }

  /** The state file QEMU loads when a restore starts it. */
  function Loaded(vms: Vms, c: Call): Option<string> {
    if c.CallRestore? && c.vm in vms && c.snapshot in vms[c.vm].snapshots && Opens(vms, c)
    then Some(vms[c.vm].snapshots[c.snapshot].stateFile) else None
  }

  predicate Opens(vms: Vms, c: Call)
    requires c.CallRestore? && c.vm in vms && c.snapshot in vms[c.vm].snapshots
  {
    var e := vms[c.vm];
    Allowed(e, Lifecycle.Restore) && !(e.runtime && c.run.QuitFails?) && !(c.run.OverlayFails? && c.run.at < |e.snapshots[c.snapshot].diskBases|)
  }

  /** A snapshot taken, any calls later, restored: QEMU loads the very state file
      that was written for it. */
  lemma RestoreLoadsOwnState(vms: Vms, vm: string, parent: Option<string>, id: string, calls: seq<Call>, run: RestoreRun)
    requires vm in vms && Step(vms, CallSnapshot(vm, parent, Some(id))).1 == NewSnapshot(id)
    requires forall i :: 0 <= i < |calls| ==>
               calls[i] != CallDelete(vm) && !(calls[i].CallSnapshot? && calls[i].vm == vm && calls[i].captured == Some(id))
    ensures var now := Run(Step(vms, CallSnapshot(vm, parent, Some(id))).0, calls);
            var file := Loaded(now, CallRestore(vm, id, run));
            && (file == None || file == Some(StateFile(vms[vm].dir, vms[vm].counter + 1)))
            && (Step(now, CallRestore(vm, id, run)).1.Done? ==> file.Some?)
  {
    hide Run, NewLayers, StateFile, Step, Opens;
    SnapshotExactly(vms, vm, parent, Some(id));
    var taken := Step(vms, CallSnapshot(vm, parent, Some(id))).0;
    RecordKept(taken, calls, vm, id);
    var now, restore := Run(taken, calls), CallRestore(vm, id, run);
    if Step(now, restore).1.Done? { RestoredLoads(now, restore); }
  }

  lemma RestoredLoads(vms: Vms, c: Call)
    requires c.CallRestore? && Step(vms, c).1.Done?
    ensures Loaded(vms, c).Some?
  {
    hide NewLayers;
  }

  lemma StateFileInjective(dir: string, m: nat, n: nat)
    requires StateFile(dir, m) == StateFile(dir, n)
    ensures m == n
  {
    hide Dec;
    var a, b := dir + "/snap", "-state.bin";
    assert StateFile(dir, m) == a + Dec(m) + b && StateFile(dir, n) == a + Dec(n) + b;
    Cancel(a, Dec(m), Dec(n), b);
    if m != n { DecInjective(m, n); }
  }

  /** Every recorded state file is one of the numbers handed out, and no two
      snapshots share one. */
  ghost predicate StatesApart(e: Entry) {
    && (forall s :: s in e.snapshots ==> Numbered(e, e.snapshots[s].stateFile))
    && (forall s, t :: s in e.snapshots && t in e.snapshots && s != t ==> e.snapshots[s].stateFile != e.snapshots[t].stateFile)
  }

  ghost predicate Numbered(e: Entry, file: string) {
    exists n: nat :: n <= e.counter && file == StateFile(e.dir, n)
  }

  lemma NumberedStays(e: Entry, e': Entry, file: string)
    requires Numbered(e, file) && e'.dir == e.dir && e'.counter >= e.counter
    ensures Numbered(e', file)
  {
  }

  lemma NextIsNew(e: Entry)
    ensures !Numbered(e, StateFile(e.dir, e.counter + 1))
  {
    hide StateFile;
    if Numbered(e, StateFile(e.dir, e.counter + 1)) {
      var n: nat :| n <= e.counter && StateFile(e.dir, e.counter + 1) == StateFile(e.dir, n);
      StateFileInjective(e.dir, e.counter + 1, n);
    }
  }

  lemma OnEntryStates(e: Entry, c: Call)
    requires StatesApart(e) && !c.CallCreate? && !c.CallDelete?
    ensures StatesApart(OnEntry(e, c).0)
  {
    hide StateFile, NewLayers, Numbered;
    var e' := OnEntry(e, c).0;
    forall f | Numbered(e, f) ensures Numbered(e', f) { NumberedStays(e, e', f); }
    NextIsNew(e);
    if e'.counter == e.counter + 1 { NumberedNow(e'); }
  }

  lemma NumberedNow(e: Entry)
    ensures Numbered(e, StateFile(e.dir, e.counter))
  {
  }

  ghost predicate AllApart(vms: Vms) { forall v :: v in vms ==> StatesApart(vms[v]) }

  lemma StepStatesApart(vms: Vms, c: Call)
    requires AllApart(vms)
    ensures AllApart(Step(vms, c).0)
  {
    hide OnEntry, StatesApart;
    if !c.CallCreate? && !c.CallDelete? && c.vm in vms { OnEntryStates(vms[c.vm], c); }
    if c.CallCreate? { NoneApart(c.config, c.dir); }
  }

  /** Over every run no two snapshots of a VM share a state file. */
  lemma {:induction false} RunStatesApart(vms: Vms, calls: seq<Call>)
    requires AllApart(vms)
    ensures AllApart(Run(vms, calls))
    decreases |calls|
  {
    hide Step, AllApart;
    if calls != [] {
      StepStatesApart(vms, calls[0]);
      RunStatesApart(Step(vms, calls[0]).0, calls[1..]);
    }
  }

  lemma NoneApart(config: Config, dir: string)
    ensures StatesApart(Entry(config, Defined, false, dir, 0, config.disks, map[]))
  {
  }
}
