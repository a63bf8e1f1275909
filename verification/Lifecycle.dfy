/** The VM lifecycle relation (crates/vmforge-core/src/state.rs). */
module Lifecycle {
  import opened Forest

  datatype VmState = Defined | Running | Paused | Stopped | Snapshotting

  datatype VmOp = Boot | Pause | Resume | Stop | SnapshotBegin | SnapshotEnd(prior: VmState) | Restore | Delete

  datatype Move = Next(state: Option<VmState>) | InvalidTransition

  predicate Live(s: VmState) { s.Running? || s.Paused? }
  predicate Idle(s: VmState) { s.Defined? || s.Stopped? }

  /** `VmState::transition`. */
  function Transition(s: VmState, op: VmOp): Move {
    match op
    case Boot => if Idle(s) then Next(Some(Running)) else InvalidTransition
    case Pause => if s.Running? then Next(Some(Paused)) else InvalidTransition
    case Resume => if s.Paused? then Next(Some(Running)) else InvalidTransition
    case Stop => if Live(s) then Next(Some(Stopped)) else InvalidTransition
    case SnapshotBegin => if Live(s) then Next(Some(Snapshotting)) else InvalidTransition
    case SnapshotEnd(prior) => if s.Snapshotting? && Live(prior) then Next(Some(prior)) else InvalidTransition
    case Restore => if Idle(s) || s.Paused? then Next(Some(Running)) else InvalidTransition
    case Delete => if Idle(s) then Next(None) else InvalidTransition
  }

  /** From where an operation may start. */
  predicate Permitted(s: VmState, op: VmOp) {
    || ((op == Boot || op == Delete) && (s == Defined || s == Stopped))
    || (op == Pause && s == Running)
    || (op == Resume && s == Paused)
    || ((op == Stop || op == SnapshotBegin) && (s == Running || s == Paused))
    || (op.SnapshotEnd? && s == Snapshotting && (op.prior == Running || op.prior == Paused))
    || (op == Restore && (s == Defined || s == Stopped || s == Paused))
  }

  /** Where it leads. */
  function Goal(op: VmOp): Option<VmState> {
    match op
    case Pause => Some(Paused)
    case Stop => Some(Stopped)
    case SnapshotBegin => Some(Snapshotting)
    case SnapshotEnd(prior) => Some(prior)
    case Delete => None
    case _ => Some(Running)
  }

  /** The relation, by where operations start and lead. */
  lemma MovesExactly(s: VmState, op: VmOp)
    ensures Transition(s, op) == if Permitted(s, op) then Next(Goal(op)) else InvalidTransition
  {
  }

  /** A snapshot begun ends where it began, and nothing else is possible meanwhile. */
  lemma SnapshotReturns(s: VmState, op: VmOp)
    requires Permitted(s, SnapshotBegin)
    ensures Transition(Snapshotting, SnapshotEnd(s)) == Next(Some(s))
    ensures !op.SnapshotEnd? ==> Transition(Snapshotting, op) == InvalidTransition
  {
  }
}

/** Names of generated overlay files. */
module LayerNames {

  predicate Digit(c: char) { '0' <= c <= '9' }

  /** Decimal, as `format!("{n}")` writes it. */
  function Dec(n: nat): (s: string)
    ensures s != [] && forall i :: 0 <= i < |s| ==> Digit(s[i])
  {
    if n < 10 then [('0' as int + n) as char] else Dec(n / 10) + [('0' as int + n % 10) as char]
  }

  lemma {:induction false} DecInjective(m: nat, n: nat)
    requires m != n
    ensures Dec(m) != Dec(n)
    decreases m
  {
    var s, t := Dec(m), Dec(n);
    assert s[|s| - 1] as int - '0' as int == m % 10 && t[|t| - 1] as int - '0' as int == n % 10;
    if m >= 10 && n >= 10 {
      assert Dec(m / 10) == s[..|s| - 1] && Dec(n / 10) == t[..|t| - 1];
      if m / 10 != n / 10 { DecInjective(m / 10, n / 10); }
    }
  }

  datatype Kind = Snap | Branch

  function KindText(k: Kind): string { if k.Snap? then "snap" else "branch" }

  /** `{dir}/snap{n}-disk{i}.qcow2` and `{dir}/branch{n}-disk{i}.qcow2`. */
  function Overlay(dir: string, k: Kind, n: nat, i: nat): string {
    dir + "/" + (KindText(k) + Dec(n) + ("-disk" + Dec(i) + ".qcow2"))
  }

  /** The digits up to the first dash are the number. */
  lemma SplitAtDash(a: string, x: string, b: string, y: string)
    requires (forall i :: 0 <= i < |a| ==> Digit(a[i])) && (forall i :: 0 <= i < |b| ==> Digit(b[i]))
    requires x != [] && x[0] == '-' && y != [] && y[0] == '-' && a + x == b + y
    ensures a == b && x == y
  {
    var s := a + x;
    assert s[|a|] == '-' && s[|b|] == '-';
    assert forall i :: 0 <= i < |a| ==> s[i] == a[i];
    assert forall i :: 0 <= i < |b| ==> s[i] == b[i];
    assert a == s[..|a|] && b == s[..|b|] && x == s[|a|..] && y == s[|b|..];
  }

  lemma Cancel(p: string, a: string, b: string, q: string)
    requires p + a + q == p + b + q
    ensures a == b
  {
    assert |a| == |b|;
    assert a == (p + a + q)[|p|..|p| + |a|] && b == (p + b + q)[|p|..|p| + |b|];
  }

  /** Generated names never collide. */
  lemma OverlayInjective(dir: string, k: Kind, n: nat, i: nat, k': Kind, n': nat, i': nat)
    requires Overlay(dir, k, n, i) == Overlay(dir, k', n', i')
    ensures k == k' && n == n' && i == i'
  {
    hide Dec;
    var x, x' := "-disk" + Dec(i) + ".qcow2", "-disk" + Dec(i') + ".qcow2";
    var y, y' := Dec(n) + x, Dec(n') + x';
    var t, t' := KindText(k) + Dec(n) + x, KindText(k') + Dec(n') + x';
    assert dir + "/" + t + [] == dir + "/" + t' + [];
    Cancel(dir + "/", t, t', []);
    assert t[0] == KindText(k)[0] && t'[0] == KindText(k')[0];
    assert k == k';
    assert t == KindText(k) + y + [] && t' == KindText(k) + y' + [];
    Cancel(KindText(k), y, y', []);
    SplitAtDash(Dec(n), x, Dec(n'), x');
    Cancel("-disk", Dec(i), Dec(i'), ".qcow2");
    if n != n' { DecInjective(n, n'); }
    if i != i' { DecInjective(i, i'); }
  }
}
