/** A live snapshot as a whole: the backend's bookkeeping (crates/vmforge-backend-
    hvf/src/lib.rs, `snapshot`) around the capture over QMP (crates/vmforge-engine-
    qemu/src/vm.rs, `QemuVm::snapshot`). */
module LiveSnapshots {
  import opened Forest
  import Lifecycle
  import Hvf
  import Captures
  import LayerNames

  /** The backend gets as far as asking QEMU. */
  predicate Reaches(e: Hvf.Entry, parent: Option<string>) {
    (parent.Some? ==> parent.value in e.snapshots) && Hvf.Allowed(e, Lifecycle.SnapshotBegin) && e.runtime
  }

  /** Entry and machine after the call; `id` is the hash a capture that works
      comes to. */
  function Step(e: Hvf.Entry, m: Captures.Machine, parent: Option<string>, w: Captures.World, more: nat, readable: bool, id: string)
    : (Hvf.Entry, Captures.Machine, Hvf.Reply)
  {
    if !Reaches(e, parent) then
      var (e', r) := Hvf.Captured(e, parent, None); (e', m, r)
    else
      var (m', o) := Captures.Capture(m.(layers := [], ram := None), w, |e.config.disks|, more, readable);
      var (e', r) := Hvf.Captured(e, parent, if o.Success? then Some(id) else None);
      (e', m', r)
  }

  /** The lifecycle state tells whether the guest runs. */
  predicate Truthful(e: Hvf.Entry, m: Captures.Machine) {
    e.runtime ==> (e.state.Running? <==> m.running)
  }

  /** After a live snapshot, succeed or fail, the lifecycle state is what it was;
      and it still tells the truth exactly when the capture did not leave the
      vCPUs halted. Then `Running` is claimed of a guest that stands still. */
  lemma TruthKeptExactly(e: Hvf.Entry, m: Captures.Machine, parent: Option<string>, w: Captures.World, more: nat, readable: bool, id: string)
    requires !e.state.Snapshotting? && Truthful(e, m)
    ensures var (e', m', r) := Step(e, m, parent, w, more, readable, id);
            && e'.state == e.state && e'.runtime == e.runtime
            && (Truthful(e', m') <==> !(Reaches(e, parent) && Captures.StaysHalted(m, w, |e.config.disks|, more)))
            && (!Truthful(e', m') ==> e'.state.Running? && !m'.running && r.Failed?)
  {
    hide Captures.Capture, Hvf.NewLayers, Hvf.StateFile;
    var m0 := m.(layers := [], ram := None);
    if Reaches(e, parent) {
      Captures.StatusKeptExactly(m0, w, |e.config.disks|, more, readable);
      SameCommands(m, m0, w, |e.config.disks|, more);
      Captures.CaptureIsOneInstant(m0, w, |e.config.disks|, more, readable);
    }
  }

  lemma SameCommands(m: Captures.Machine, m0: Captures.Machine, w: Captures.World, nodes: nat, more: nat)
    requires m0 == m.(layers := [], ram := None)
    ensures Captures.StaysHalted(m, w, nodes, more) <==> Captures.StaysHalted(m0, w, nodes, more)
  {
  }

  /** A snapshot is recorded exactly when the capture succeeds. Then the layers
      it freezes, one for each disk, and its RAM are of one guest instant within
      the call, and the guest goes on as before on layers never used before. */
  lemma RecordedIsOneInstant(e: Hvf.Entry, m: Captures.Machine, parent: Option<string>, w: Captures.World, more: nat, readable: bool, id: string)
    requires Hvf.GoodEntry(e)
    ensures var (e', m', r) := Step(e, m, parent, w, more, readable, id);
            if r.NewSnapshot? then
              && id in e'.snapshots && e'.snapshots[id].diskBases == e.activeDisks && e'.snapshots[id].parent == parent
              && m'.ram.Some? && m.instant <= m'.ram.value <= m'.instant && m'.running == m.running
              && |m'.layers| == |e.activeDisks| && (forall i :: 0 <= i < |m'.layers| ==> m'.layers[i] == m'.ram.value)
              && (forall p :: p in e'.activeDisks ==> !Hvf.Known(e, p))
            else r.Failed? && e'.snapshots == e.snapshots && e'.activeDisks == e.activeDisks
  {
    hide Captures.Capture, Hvf.NewLayers, Hvf.StateFile, Hvf.Known, Hvf.CleanConfig;
    if Reaches(e, parent) {
      Captures.CaptureIsOneInstant(m.(layers := [], ram := None), w, |e.config.disks|, more, readable);
      Hvf.NewGeneration(e, e.(counter := e.counter + 1), LayerNames.Snap, |e.config.disks|);
    }
  }
}
