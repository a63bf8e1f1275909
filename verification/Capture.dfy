/** Capturing a live snapshot over QMP (crates/vmforge-engine-qemu/src/vm.rs,
    `QemuVm::snapshot`). The guest runs on its own between any two commands as
    long as its vCPUs do; `instant` counts what it has executed. */
module Captures {
  import opened Forest

  /** What a migration poll answers. */
  datatype Poll = Completed | Broken | StillActive

  /** Around one QMP command: how far the guest gets before it if it runs,
      whether the command succeeds, and what a poll answers. */
  datatype Beat = Beat(steps: nat, ok: bool, poll: Poll)

  /** `layers`: the guest instant each disk was switched to its new overlay.
      `ram`: the guest instant of the saved RAM. `sent`: commands so far. */
  datatype Machine = Machine(running: bool, instant: nat, layers: seq<nat>, ram: Option<nat>, sent: nat)

  datatype Stage = AtStatus | AtStop | AtOverlay | AtMigrate | AtWait | AtCont | AtRead
  datatype Outcome = Success | FailedAt(stage: Stage)

  type World = nat -> Beat

  /** Up to the moment a command takes effect. */
  function Next(m: Machine, w: World): Machine {
    m.(instant := m.instant + if m.running then w(m.sent).steps else 0, sent := m.sent + 1)
  }

  predicate Works(m: Machine, w: World) { w(m.sent).ok }

  /** `blockdev-snapshot-sync` for each remaining node. */
  function Switch(m: Machine, w: World, nodes: nat): (Machine, bool)
    decreases nodes
  {
    if nodes == 0 then (m, true)
    else if !Works(m, w) then (Next(m, w), false)
    else var m' := Next(m, w); Switch(m'.(layers := m'.layers + [m'.instant]), w, nodes - 1)
  }

  /** `wait_migration`, with `more` further polls before the deadline. RAM is
      what it is when the migration completes. */
  function Wait(m: Machine, w: World, more: nat): (Machine, bool)
    decreases more
  {
    var m' := Next(m, w);
    if !Works(m, w) then (m', false) else
    match w(m.sent).poll
    case Completed => (m'.(ram := Some(m'.instant)), true)
    case Broken => (m', false)
    case StillActive => if more == 0 then (m', false) else Wait(m', w, more - 1)
  }

  /** `QemuVm::snapshot`. */
  function Capture(m: Machine, w: World, nodes: nat, more: nat, readable: bool): (Machine, Outcome) {
    if !Works(m, w) then (Next(m, w), FailedAt(AtStatus)) else
    var was, m1 := m.running, Next(m, w);
    if was && !Works(m1, w) then (Next(m1, w), FailedAt(AtStop)) else
    var m2 := if was then Next(m1, w).(running := false) else m1;
    Paused(m2, was, w, nodes, more, readable)
  }

  /** The part that runs with the vCPUs halted. */
  function Paused(m: Machine, was: bool, w: World, nodes: nat, more: nat, readable: bool): (Machine, Outcome) {
    var (m3, switched) := Switch(m, w, nodes);
    if !switched then (m3, FailedAt(AtOverlay))
    else if !Works(m3, w) then (Next(m3, w), FailedAt(AtMigrate))
    else
      var (m4, migrated) := Wait(Next(m3, w), w, more);
      if !migrated then (m4, FailedAt(AtWait))
      else if was && !Works(m4, w) then (Next(m4, w), FailedAt(AtCont))
      else
        var m5 := if was then Next(m4, w).(running := true) else m4;
        if readable then (m5, Success) else (m5, FailedAt(AtRead))
  }

  lemma {:induction false} SwitchHalted(m: Machine, w: World, nodes: nat)
    requires !m.running
    ensures var (m', ok) := Switch(m, w, nodes);
            && !m'.running && m'.instant == m.instant && m'.ram == m.ram
            && m.layers <= m'.layers && (ok ==> |m'.layers| == |m.layers| + nodes)
            && forall i :: |m.layers| <= i < |m'.layers| ==> m'.layers[i] == m.instant
    decreases nodes
  {
    if nodes > 0 && Works(m, w) {
      var m1 := Next(m, w);
      SwitchHalted(m1.(layers := m1.layers + [m1.instant]), w, nodes - 1);
    }
  }

  lemma {:induction false} WaitHalted(m: Machine, w: World, more: nat)
    requires !m.running
    ensures var (m', ok) := Wait(m, w, more);
            && !m'.running && m'.instant == m.instant && m'.layers == m.layers
            && (ok ==> m'.ram == Some(m.instant)) && (!ok ==> m'.ram == m.ram)
    decreases more
  {
    if Works(m, w) && w(m.sent).poll.StillActive? && more > 0 { WaitHalted(Next(m, w), w, more - 1); }
  }

  /** A capture that succeeds, of any number of disks and however the guest runs
      between commands, holds one guest instant: every disk layer and the RAM
      were taken at it, and it lies within the call. The vCPUs are left running
      or halted as they were. */
  lemma CaptureIsOneInstant(m: Machine, w: World, nodes: nat, more: nat, readable: bool)
    requires m.layers == []
    ensures var (m', o) := Capture(m, w, nodes, more, readable);
            o.Success? ==>
              && m'.running == m.running
              && |m'.layers| == nodes && m'.ram.Some?
              && m.instant <= m'.ram.value <= m'.instant
              && forall i :: 0 <= i < nodes ==> m'.layers[i] == m'.ram.value
  {
    var m1 := Next(m, w);
    var m2 := if m.running then Next(m1, w).(running := false) else m1;
    SwitchHalted(m2, w, nodes);
    var m3 := Switch(m2, w, nodes).0;
    WaitHalted(Next(m3, w), w, more);
  }

  // ---- when the vCPUs are left halted ----------------------------------------------------------

  /** Commands `from`, ..., `from + count - 1` of the connection all succeed. */
  ghost predicate AllWork(w: World, from: nat, count: nat) {
    forall i: nat :: from <= i < from + count ==> w(i).ok
  }

  /** Of at most `more + 1` polls from command `from` on, poll `k` finds the
      migration completed. */
  ghost predicate CompletesAt(w: World, from: nat, more: nat, k: nat) {
    k <= more && AllWork(w, from, k + 1) && w(from + k).poll.Completed?
    && forall i: nat :: from <= i < from + k ==> w(i).poll.StillActive?
  }

  lemma {:induction false} SwitchExactly(m: Machine, w: World, nodes: nat)
    ensures var (m', ok) := Switch(m, w, nodes);
            && m'.running == m.running
            && (ok <==> AllWork(w, m.sent, nodes)) && (ok ==> m'.sent == m.sent + nodes)
    decreases nodes
  {
    if nodes > 0 {
      var m' := Next(m, w);
      SwitchExactly(m'.(layers := m'.layers + [m'.instant]), w, nodes - 1);
      assert AllWork(w, m.sent, nodes) <==> w(m.sent).ok && AllWork(w, m.sent + 1, nodes - 1);
    }
  }

  ghost predicate Completes(w: World, from: nat, more: nat) {
    exists k: nat :: CompletesAt(w, from, more, k)
  }

  lemma CompletesUnfolds(w: World, from: nat, more: nat)
    ensures Completes(w, from, more) <==>
            w(from).ok && (w(from).poll.Completed? || (w(from).poll.StillActive? && more > 0 && Completes(w, from + 1, more - 1)))
  {
    var next := from + 1;
    if w(from).ok && w(from).poll.Completed? { assert CompletesAt(w, from, more, 0); }
    if w(from).ok && w(from).poll.StillActive? && more > 0 && Completes(w, next, more - 1) {
      var k: nat :| CompletesAt(w, next, more - 1, k);
      ShiftPolls(w, from, more, k + 1);
    }
    if Completes(w, from, more) {
      var k: nat :| CompletesAt(w, from, more, k);
      if k > 0 { ShiftPolls(w, from, more, k); }
    }
  }

  lemma {:induction false} WaitExactly(m: Machine, w: World, more: nat)
    ensures var (m', ok) := Wait(m, w, more);
            && m'.running == m.running
            && (ok <==> Completes(w, m.sent, more))
            && (ok ==> m'.sent > m.sent && CompletesAt(w, m.sent, more, m'.sent - m.sent - 1))
    decreases more
  {
    hide Completes, CompletesAt;
    CompletesUnfolds(w, m.sent, more);
    if w(m.sent).ok && w(m.sent).poll.StillActive? && more > 0 {
      WaitExactly(Next(m, w), w, more - 1);
      var (m', ok) := Wait(m, w, more);
      if ok { ShiftPolls(w, m.sent, more, m'.sent - m.sent - 1); }
    } else if w(m.sent).ok && w(m.sent).poll.Completed? {
      FirstPoll(w, m.sent, more);
    }
  }

  lemma FirstPoll(w: World, from: nat, more: nat)
    requires w(from).ok && w(from).poll.Completed?
    ensures CompletesAt(w, from, more, 0)
  {
  }

  lemma ShiftPolls(w: World, from: nat, more: nat, k: nat)
    requires w(from).ok && w(from).poll.StillActive? && more > 0 && k > 0
    ensures CompletesAt(w, from, more, k) <==> CompletesAt(w, from + 1, more - 1, k - 1)
  {
    assert AllWork(w, from, k + 1) <==> AllWork(w, from + 1, k);
  }

  /** The migration completes within its polls, and the command after the poll
      that says so succeeds. */
  ghost predicate WaitsAndContinues(w: World, from: nat, more: nat) {
    exists k: nat :: CompletesAt(w, from, more, k) && w(from + k + 1).ok
  }

  /** Told from how the commands will end: the guest runs, it is found running and
      halted, and not every later command up to the one that lets it go succeeds. */
  ghost predicate StaysHalted(m: Machine, w: World, nodes: nat, more: nat) {
    && m.running && AllWork(w, m.sent, 2)
    && !(AllWork(w, m.sent + 2, nodes + 1) && WaitsAndContinues(w, m.sent + 3 + nodes, more))
  }

  lemma OnePoll(w: World, from: nat, more: nat, k: nat, k': nat)
    requires CompletesAt(w, from, more, k) && CompletesAt(w, from, more, k')
    ensures k == k'
  {
  }

  /** A capture leaves the vCPUs as they were, succeed or fail, exactly when they
      do not stay halted in this sense. */
  lemma StatusKeptExactly(m: Machine, w: World, nodes: nat, more: nat, readable: bool)
    ensures Capture(m, w, nodes, more, readable).0.running == m.running <==> !StaysHalted(m, w, nodes, more)
  {
    hide Switch, Wait, CompletesAt;
    var m1 := Next(m, w);
    var m2 := if m.running then Next(m1, w).(running := false) else m1;
    if Works(m, w) && (m.running ==> Works(m1, w)) {
      assert m.running ==> AllWork(w, m.sent, 2);
      SwitchExactly(m2, w, nodes);
      var (m3, switched) := Switch(m2, w, nodes);
      assert switched && Works(m3, w) <==> AllWork(w, m2.sent, nodes + 1);
      if switched && Works(m3, w) {
        WaitExactly(Next(m3, w), w, more);
        var (m4, migrated) := Wait(Next(m3, w), w, more);
        if migrated && m.running {
          var from := m3.sent + 1;
          forall k: nat | CompletesAt(w, from, more, k) ensures from + k + 1 == m4.sent {
            OnePoll(w, from, more, k, m4.sent - from - 1);
          }
          assert WaitsAndContinues(w, from, more) <==> Works(m4, w);
        }
      }
    }
  }

  /** A capture succeeds exactly when every command does, the migration completes
      within its polls, and the state file can be read. */
  lemma SucceedsExactly(m: Machine, w: World, nodes: nat, more: nat, readable: bool)
    ensures var from := m.sent + 1 + if m.running then 1 else 0;
            Capture(m, w, nodes, more, readable).1.Success? <==>
            && AllWork(w, m.sent, from - m.sent) && AllWork(w, from, nodes + 1)
            && (if m.running then WaitsAndContinues(w, from + nodes + 1, more) else Completes(w, from + nodes + 1, more))
            && readable
  {
    hide Switch, Wait, CompletesAt;
    var m1 := Next(m, w);
    var m2 := if m.running then Next(m1, w).(running := false) else m1;
    assert AllWork(w, m.sent, m2.sent - m.sent) <==> Works(m, w) && (m.running ==> Works(m1, w));
    if Works(m, w) && (m.running ==> Works(m1, w)) {
      SwitchExactly(m2, w, nodes);
      var (m3, switched) := Switch(m2, w, nodes);
      assert switched && Works(m3, w) <==> AllWork(w, m2.sent, nodes + 1);
      if switched && Works(m3, w) {
        WaitExactly(Next(m3, w), w, more);
        var (m4, migrated) := Wait(Next(m3, w), w, more);
        var from := m3.sent + 1;
        if migrated {
          forall k: nat | CompletesAt(w, from, more, k) ensures from + k + 1 == m4.sent {
            OnePoll(w, from, more, k, m4.sent - from - 1);
          }
          assert WaitsAndContinues(w, from, more) <==> Works(m4, w);
        } else {
          assert !Completes(w, from, more) && !WaitsAndContinues(w, from, more);
        }
      }
    }
  }

  /** It does happen: the first overlay of a running VM is refused. */
  lemma FailedOverlayHaltsGuest()
    ensures var w: World := n => Beat(0, n != 2, Completed); var m := Machine(true, 0, [], None, 0);
            StaysHalted(m, w, 1, 0) && Capture(m, w, 1, 0, true) == (m.(running := false, sent := 3), FailedAt(AtOverlay))
  {
    var w: World := n => Beat(0, n != 2, Completed);
    assert !w(2).ok;
  }

  class QemuVm {
    var m: Machine

    constructor (machine: Machine)
      ensures m == machine
    {
      m := machine;
    }

    /** One QMP command: the guest runs up to it; `ok` tells how it ended. */
    method Execute(w: World) returns (ok: bool)
      modifies this
      ensures m == Next(old(m), w) && ok == Works(old(m), w)
    {
      ok := w(m.sent).ok;
      m := Next(m, w);
    }

    method WaitMigration(w: World, more: nat) returns (ok: bool)
      modifies this
      ensures (m, ok) == Wait(old(m), w, more)
    {
      var left: nat := more;
      while true
        invariant left <= more && Wait(old(m), w, more) == Wait(m, w, left)
        decreases left
      {
        var poll := w(m.sent).poll;
        var answered := Execute(w);
        if !answered { return false; }
        if poll.Completed? {
          m := m.(ram := Some(m.instant));
          return true;
        }
        if poll.Broken? || left == 0 { return false; }
        left := left - 1;
      }
    }

    method Snapshot(w: World, nodes: nat, more: nat, readable: bool) returns (o: Outcome)
      modifies this
      ensures (m, o) == Capture(old(m), w, nodes, more, readable)
    {
      var wasRunning := m.running;
      var ok := Execute(w);
      if !ok { return FailedAt(AtStatus); }
      if wasRunning {
        ok := Execute(w);
        if !ok { return FailedAt(AtStop); }
        m := m.(running := false);
      }
      ghost var halted := m;
      for i := 0 to nodes
        invariant Switch(halted, w, nodes) == Switch(m, w, nodes - i)
      {
        ok := Execute(w);
        if !ok { return FailedAt(AtOverlay); }
        m := m.(layers := m.layers + [m.instant]);
      }
      ok := Execute(w);
      if !ok { return FailedAt(AtMigrate); }
      ok := WaitMigration(w, more);
      if !ok { return FailedAt(AtWait); }
      if wasRunning {
        ok := Execute(w);
        if !ok { return FailedAt(AtCont); }
        m := m.(running := true);
      }
      if !readable { return FailedAt(AtRead); }
      return Success;
    }
  }
}
