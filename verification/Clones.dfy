/** The disk store without any rule on what a disk may be cloned from. A clone may
    then sit on another disk's snapshot or active overlay, and some operations on
    that disk disturb it: exactly which, and when. */
module Clones {
  import opened Forest
  import opened Layout
  import opened Layers
  import opened Store

  // ---- the condition ---------------------------------------------------------------------------

  /** Layer `q` sits directly on `a` and lets through a sector on which the two
      contents of `a` differ. */
  predicate Sees(fs: Files, q: Path, a: Path, before: Content, after: Content)
    requires q in fs
  {
    && fs[q].backing == Some(a)
    && exists i :: 0 <= i < fs[q].size && i !in fs[q].data && At(before, i) != At(after, i)
  }

  /** What the active disk shows after an operation that rewrites it. */
  function NewContent(fs: Files, op: Op): Content
    requires Verdict(Links(fs), op).Ok? && (op.GuestWrite? || op.ResizeDisk? || op.SnapshotRevert?)
  {
    match op
    case GuestWrite(v, d, writes, _) => Overwritten(View(fs, Active(v, d)), writes)
    case ResizeDisk(v, d, size, _) => Sized(View(fs, Active(v, d)), size)
    case SnapshotRevert(v, d, n, _) => View(fs, Snap(v, d, n))
  }

  ghost predicate Watched(fs: Files, a: Path, after: Content) {
    exists q :: q in Links(fs) && q != a && Sees(fs, q, a, View(fs, a), after)
  }

  /** The files that a disk's deletion removes. */
  function DiskFiles(fs: Files, v: string, d: string): set<Path> {
    SnapsOf(Links(fs), v, d) + {Active(v, d)}
  }

  ghost predicate Needed(fs: Files, gone: set<Path>) {
    exists q :: q in Links(fs) && q !in gone && fs[q].backing.Some? && fs[q].backing.value in gone
  }

  /** Told from the files before the call. A deletion removes a file that a
      remaining layer sits on; or the active disk changes where a layer on it
      looks through; or a disk is reverted to a snapshot that itself sits, by way
      of other disks, on that disk's active overlay. All the rest is harmless. */
  ghost predicate Disturbs(fs: Files, op: Op) {
    && Verdict(Links(fs), op).Ok?
    && match op
       case SnapshotDelete(v, d, n, _) => !NoForeignUser(fs, Snap(v, d, n))
       case DeleteDisk(v, d, _) => Needed(fs, DiskFiles(fs, v, d))
       case GuestWrite(v, d, _, _) => Watched(fs, Active(v, d), NewContent(fs, op))
       case ResizeDisk(v, d, _, _) => Watched(fs, Active(v, d), NewContent(fs, op))
       case SnapshotRevert(v, d, n, _) =>
         Active(v, d) in Lineage(Links(fs), Snap(v, d, n)) || Watched(fs, Active(v, d), NewContent(fs, op))
       case _ => false
  }

  /** The operation does to the files what it does to the named contents. */
  ghost predicate Refines(fs: Files, op: Op) {
    IsForest(Links(Step(fs, op))) && Abs(Step(fs, op)) == FlatStep(Abs(fs), op)
  }

  // ---- replacing one layer -----------------------------------------------------------------------

  /** Every layer but `a` is in both, the same; `fs'` may have more. */
  ghost predicate Rest(fs: Files, fs': Files, a: Path) {
    forall q :: q in Links(fs) && q != a ==> q in Links(fs') && fs'[q] == fs[q]
  }

  lemma InChain(fs: Files, p: Path)
    requires IsForest(Links(fs)) && p in Links(fs) && fs[p].backing.Some?
    ensures var b := fs[p].backing.value; b in Links(fs) && p !in Lineage(Links(fs), b) && Lineage(Links(fs), p) == [p] + Lineage(Links(fs), b)
  {
    Unfold(Links(fs), p);
    LineageDistinct(Links(fs), fs[p].backing.value);
    LineageDistinct(Links(fs), p);
    var l := Lineage(Links(fs), fs[p].backing.value);
    assert forall i :: 0 <= i < |l| ==> l[i] == Lineage(Links(fs), p)[i + 1];
  }

  /** A chain that does not go through `a` shows what it showed. */
  lemma {:induction false} ChainKept(fs: Files, fs': Files, a: Path, b: Path)
    requires IsForest(Links(fs)) && IsForest(Links(fs')) && Rest(fs, fs', a)
    requires b in Links(fs) && a !in Lineage(Links(fs), b)
    ensures b in Links(fs') && View(fs', b) == View(fs, b)
    decreases |Lineage(Links(fs), b)|
  {
    hide View;
    LineageDistinct(Links(fs), b);
    ViewUnfolds(fs, b);
    ViewUnfolds(fs', b);
    if fs[b].backing.Some? {
      InChain(fs, b);
      ChainKept(fs, fs', a, fs[b].backing.value);
    }
  }

  /** With `a` rewritten, the other layers show what they showed exactly when
      none that sits directly on `a` sees the difference. */
  lemma KeptExactly(fs: Files, fs': Files, a: Path)
    requires IsForest(Links(fs)) && IsForest(Links(fs')) && Rest(fs, fs', a) && a in Links(fs) && a in Links(fs')
    ensures (forall q :: q in Links(fs) && q != a ==> View(fs', q) == View(fs, q)) <==> !Watched(fs, a, View(fs', a))
  {
    hide View;
    if Watched(fs, a, View(fs', a)) {
      var q :| q in Links(fs) && q != a && Sees(fs, q, a, View(fs, a), View(fs', a));
      SeenChange(fs, fs', a, q);
    } else {
      forall q | q in Links(fs) && q != a ensures View(fs', q) == View(fs, q) { Unwatched(fs, fs', a, q); }
    }
  }

  lemma SeenChange(fs: Files, fs': Files, a: Path, q: Path)
    requires IsForest(Links(fs)) && IsForest(Links(fs')) && Rest(fs, fs', a) && a in Links(fs) && a in Links(fs')
    requires q in Links(fs) && q != a && Sees(fs, q, a, View(fs, a), View(fs', a))
    ensures View(fs', q) != View(fs, q)
  {
    hide View;
    ViewUnfolds(fs, q);
    ViewUnfolds(fs', q);
    var i :| 0 <= i < fs[q].size && i !in fs[q].data && At(View(fs, a), i) != At(View(fs', a), i);
    assert View(fs, q)[i] == At(View(fs, a), i) && View(fs', q)[i] == At(View(fs', a), i);
  }

  lemma {:induction false} Unwatched(fs: Files, fs': Files, a: Path, q: Path)
    requires IsForest(Links(fs)) && IsForest(Links(fs')) && Rest(fs, fs', a) && a in Links(fs) && a in Links(fs')
    requires !Watched(fs, a, View(fs', a)) && q in Links(fs) && q != a
    ensures View(fs', q) == View(fs, q)
    decreases |Lineage(Links(fs), q)|
  {
    hide View;
    ViewUnfolds(fs, q);
    ViewUnfolds(fs', q);
    if fs[q].backing.Some? {
      InChain(fs, q);
      var b := fs[q].backing.value;
      if b == a {
        assert !Sees(fs, q, a, View(fs, a), View(fs', a));
        assert Stack(fs[q].data, fs[q].size, View(fs', a)) == Stack(fs[q].data, fs[q].size, View(fs, a));
      } else {
        Unwatched(fs, fs', a, b);
      }
    }
  }

  /** A layer that was not there before: nothing sits on it. */
  lemma {:induction false} KeptBeside(fs: Files, fs': Files, a: Path, q: Path)
    requires IsForest(Links(fs)) && IsForest(Links(fs')) && Rest(fs, fs', a) && a !in Links(fs) && q in Links(fs)
    ensures q in Links(fs') && View(fs', q) == View(fs, q)
  {
    LineageDistinct(Links(fs), q);
    ChainKept(fs, fs', a, q);
  }

  /** The flat store after `a` is made or rewritten to show `c` on `backing`. */
  lemma AbsWith(fs: Files, fs': Files, a: Path, c: Content)
    requires Rest(fs, fs', a) && a in Links(fs') && (forall q :: q in Links(fs') ==> q in Links(fs) || q == a)
    requires View(fs', a) == c
    ensures Abs(fs') == Abs(fs)[a := Node(c, fs'[a].backing)] <==> (forall q :: q in Links(fs) && q != a ==> View(fs', q) == View(fs, q))
  {
    hide View;
    var flat := Abs(fs)[a := Node(c, fs'[a].backing)];
    if Abs(fs') == flat {
      forall q | q in Links(fs) && q != a ensures View(fs', q) == View(fs, q) {
        assert Abs(fs')[q] == flat[q];
      }
    } else if forall q :: q in Links(fs) && q != a ==> View(fs', q) == View(fs, q) {
      AbsIs(fs', flat);
    }
  }

  // ---- operations that make a disk or an image ------------------------------------------------------

  lemma NewLayer(fs: Files, a: Path, l: Layer)
    requires IsForest(Links(fs)) && !a.Reverting? && a !in fs && (l.backing.Some? ==> l.backing.value in Links(fs))
    ensures var fs' := fs[a := l];
            IsForest(Links(fs')) && Abs(fs') == Abs(fs)[a := Node(Stack(l.data, l.size, Under(fs, l.backing)), l.backing)]
  {
    hide View;
    var fs' := fs[a := l];
    assert Links(fs') == Links(fs)[a := l.backing];
    if l.backing.Some? { LineageDistinct(Links(fs), l.backing.value); }
    InsertKeepsForest(Links(fs), a, l.backing);
    ViewUnfolds(fs', a);
    if l.backing.Some? { KeptBeside(fs, fs', a, l.backing.value); }
    forall q | q in Links(fs) && q != a ensures View(fs', q) == View(fs, q) { KeptBeside(fs, fs', a, q); }
    AbsWith(fs, fs', a, View(fs', a));
  }

  lemma MakesRefine(fs: Files, op: Op)
    requires IsForest(Links(fs)) && Verdict(Links(fs), op).Ok?
    requires op.CreateDisk? || op.ImportImage? || op.ImportDisk? || op.CloneDisk?
    ensures Refines(fs, op)
  {
    hide View, IsForest, ValidName;
    SameGraph(fs);
    match op
    case CreateDisk(v, d, size, _) =>
      NewLayer(fs, Active(v, d), Layer(map[], size, None, false));
      assert Stack(map[], size, []) == Zeros(size);
    case ImportImage(n, c, _) => NewConverted(fs, Image(n + EXT), c);
    case ImportDisk(v, d, c, _) => NewConverted(fs, Active(v, d), c);
    case CloneDisk(b, v, d, size, _) => NewClone(fs, Active(v, d), b, size);
  }

  lemma NewConverted(fs: Files, a: Path, c: Content)
    requires IsForest(Links(fs)) && !a.Reverting? && a !in fs
    ensures IsForest(Links(fs[a := Converted(c)])) && Abs(fs[a := Converted(c)]) == Abs(fs)[a := Node(c, None)]
  {
    hide View, IsForest;
    NewLayer(fs, a, Converted(c));
    assert Stack(Converted(c).data, |c|, []) == c;
  }

  lemma NewClone(fs: Files, a: Path, b: Path, size: Option<nat>)
    requires IsForest(Links(fs)) && !a.Reverting? && a !in fs && b in Links(fs)
    ensures var fs' := fs[a := NewOverlay(fs, b, size)]; var c := View(fs, b);
            IsForest(Links(fs')) && Abs(fs') == Abs(fs)[a := Node(if size.None? then c else Sized(c, size.value), Some(b))]
  {
    hide View, IsForest;
    var l, c := NewOverlay(fs, b, size), View(fs, b);
    NewLayer(fs, a, l);
    assert Stack(map[], l.size, c) == if size.None? then c else Sized(c, size.value);
  }

  // ---- operations that rewrite the active disk ---------------------------------------------------------

  /** The disk as written, resized or reverted. */
  lemma RewriteExactly(fs: Files, fs': Files, a: Path, c: Content)
    requires IsForest(Links(fs)) && IsForest(Links(fs')) && Rest(fs, fs', a) && a in Links(fs)
    requires Links(fs').Keys == Links(fs).Keys && View(fs', a) == c
    ensures Abs(fs') == Abs(fs)[a := Node(c, fs'[a].backing)] <==> !Watched(fs, a, c)
  {
    hide View;
    KeptExactly(fs, fs', a);
    AbsWith(fs, fs', a, c);
  }

  /** In place: the backing link stays, so what lies under the disk does too. */
  lemma InPlace(fs: Files, a: Path, l: Layer)
    requires IsForest(Links(fs)) && a in Links(fs) && l.backing == fs[a].backing
    ensures var fs' := fs[a := l];
            && Links(fs') == Links(fs) && Rest(fs, fs', a)
            && View(fs', a) == Stack(l.data, l.size, Under(fs, fs[a].backing))
  {
    hide View;
    var fs' := fs[a := l];
    assert Links(fs') == Links(fs);
    ViewUnfolds(fs', a);
    if l.backing.Some? {
      InChain(fs, a);
      ChainKept(fs, fs', a, l.backing.value);
    }
  }

  lemma WriteExactly(fs: Files, op: Op)
    requires IsForest(Links(fs)) && Verdict(Links(fs), op).Ok? && op.GuestWrite?
    ensures Refines(fs, op) <==> !Disturbs(fs, op)
  {
    hide View, Watched;
    var a := Active(op.vm, op.disk);
    var under := Under(fs, fs[a].backing);
    var l := Written(fs[a], under, op.writes, op.filled);
    SameGraph(fs);
    InPlace(fs, a, l);
    ViewUnfolds(fs, a);
    WrittenView(fs[a], under, op.writes, op.filled);
    RewriteExactly(fs, fs[a := l], a, NewContent(fs, op));
  }

  lemma ResizeExactly(fs: Files, op: Op)
    requires IsForest(Links(fs)) && Verdict(Links(fs), op).Ok? && op.ResizeDisk?
    ensures Refines(fs, op) <==> !Disturbs(fs, op)
  {
    hide View, Watched;
    var a := Active(op.vm, op.disk);
    var l := Resized(fs[a], op.size);
    SameGraph(fs);
    InPlace(fs, a, l);
    ViewUnfolds(fs, a);
    ResizedView(fs[a], op.size, Under(fs, fs[a].backing));
    RewriteExactly(fs, fs[a := l], a, NewContent(fs, op));
  }

  lemma RevertExactly(fs: Files, op: Op)
    requires IsForest(Links(fs)) && Verdict(Links(fs), op).Ok? && op.SnapshotRevert?
    ensures Refines(fs, op) <==> !Disturbs(fs, op)
  {
    hide View, Watched, IsForest;
    var a, s := Active(op.vm, op.disk), Snap(op.vm, op.disk, op.name);
    var l := NewOverlay(fs, s, None);
    var fs' := (fs - {Reverting(op.vm, op.disk)})[a := l];
    assert Step(fs, op) == fs' && Links(fs') == Links(fs)[a := Some(s)];
    SameGraph(fs);
    if a in Lineage(Links(fs), s) {
      InsertMakesCycle(Links(fs), a, s);
    } else {
      InsertKeepsForest(Links(fs), a, Some(s));
      RevertedView(fs, fs', a, s);
      RewriteExactly(fs, fs', a, View(fs, s));
    }
  }

  lemma RevertedView(fs: Files, fs': Files, a: Path, s: Path)
    requires IsForest(Links(fs)) && IsForest(Links(fs')) && Rest(fs, fs', a) && a in Links(fs')
    requires s in Links(fs) && a !in Lineage(Links(fs), s) && fs'[a] == NewOverlay(fs, s, None)
    ensures View(fs', a) == View(fs, s)
  {
    hide View;
    var c := View(fs, s);
    ViewUnfolds(fs', a);
    ChainKept(fs, fs', a, s);
    assert Stack(map[], |c|, c) == c;
  }

  // ---- freezing -------------------------------------------------------------------------------------------

  /** A snapshot is harmless even under a clone of the active disk: the new
      overlay at the same path shows what the old one showed. */
  lemma FreezeForest(fs: Files, v: string, d: string, n: string)
    requires IsForest(Links(fs)) && Active(v, d) in fs && Snap(v, d, n) !in fs
    ensures IsForest(Links(Frozen(fs, v, d, n)))
  {
    hide IsForest, Frozen;
    FrozenGraph(fs, v, d, n);
    InsertBelow(Links(fs), Active(v, d), Snap(v, d, n));
  }

  lemma FrozenGraph(fs: Files, v: string, d: string, n: string)
    requires Active(v, d) in fs
    ensures var par := Links(fs);
            Links(Frozen(fs, v, d, n)) == par[Snap(v, d, n) := par[Active(v, d)]][Active(v, d) := Some(Snap(v, d, n))]
  {
    hide View;
  }

  /** A new node put in below `a`. */
  lemma InsertBelow(par: Graph, a: Path, s: Path)
    requires IsForest(par) && a in par && s !in par
    ensures IsForest(par[s := par[a]][a := Some(s)])
  {
    hide IsForest;
    ForestRanksDown(par);
    var before, par' := Depths(par), par[s := par[a]][a := Some(s)];
    var rank := map x | x in par' :: if x == s then 2 * before[a] else 2 * before[x] + 1;
    RankedIsForest(par', rank);
  }

  lemma FreezeViews(fs: Files, v: string, d: string, n: string)
    requires IsForest(Links(fs)) && Active(v, d) in fs && Snap(v, d, n) !in fs
    ensures var fs' := Frozen(fs, v, d, n); var a := Active(v, d);
            && IsForest(Links(fs')) && Rest(fs, fs', a) && a in Links(fs')
            && View(fs', Snap(v, d, n)) == View(fs, a) && View(fs', a) == View(fs, a)
  {
    hide View;
    var a, s, fs' := Active(v, d), Snap(v, d, n), Frozen(fs, v, d, n);
    FreezeForest(fs, v, d, n);
    ViewUnfolds(fs, a);
    ViewUnfolds(fs', s);
    ViewUnfolds(fs', a);
    assert fs'[s] == fs[a].(readonly := true);
    if fs[a].backing.Some? {
      InChain(fs, a);
      ChainKept(fs, fs', a, fs[a].backing.value);
    }
    var moved := (fs - {a})[s := fs[a].(readonly := true)];
    ViewSize(moved, s);
    var c := View(fs, a);
    assert |c| == fs[a].size && Stack(map[], |c|, c) == c;
  }

  lemma FreezesRefine(fs: Files, op: Op)
    requires IsForest(Links(fs)) && Verdict(Links(fs), op).Ok? && op.SnapshotCreate?
    ensures Refines(fs, op)
  {
    hide View, IsForest;
    var a, s := Active(op.vm, op.disk), Snap(op.vm, op.disk, op.name);
    var fs' := Frozen(fs, op.vm, op.disk, op.name);
    SameGraph(fs);
    FreezeViews(fs, op.vm, op.disk, op.name);
    KeptExactly(fs, fs', a);
    assert !Watched(fs, a, View(fs', a));
    FrozenLinks(fs, fs', a, s);
  }

  // ---- deleting --------------------------------------------------------------------------------------------

  lemma DeleteDiskExactly(fs: Files, op: Op)
    requires IsForest(Links(fs)) && Verdict(Links(fs), op).Ok? && op.DeleteDisk?
    ensures Refines(fs, op) <==> !Disturbs(fs, op)
  {
    hide View, IsForest;
    var gone := DiskFiles(fs, op.vm, op.disk);
    var fs' := fs - gone;
    SameGraph(fs);
    if Needed(fs, gone) {
      var q :| q in Links(fs) && q !in gone && fs[q].backing.Some? && fs[q].backing.value in gone;
      Dangles(fs', q);
    } else {
      DropKeepsViews(fs, gone);
      AbsIs(fs', Abs(fs) - gone);
    }
  }

  lemma Dangles(fs: Files, q: Path)
    requires q in Links(fs) && fs[q].backing.Some? && fs[q].backing.value !in Links(fs)
    ensures !IsForest(Links(fs))
  {
    assert IsForest(Links(fs)) ==> Rooted(Links(fs), q);
    var rest := Links(fs) - {q};
    assert !Rooted(rest, fs[q].backing.value);
  }

  lemma SnapshotDeleteExactly(fs: Files, op: Op)
    requires IsForest(Links(fs)) && Verdict(Links(fs), op).Ok? && op.SnapshotDelete?
    ensures Refines(fs, op) <==> !Disturbs(fs, op)
  {
    hide View, IsForest;
    var s := Snap(op.vm, op.disk, op.name);
    SameGraph(fs);
    if !NoForeignUser(fs, s) {
      var q :| q in Links(fs) && fs[q].backing == Some(s) && q !in Kids(Links(fs), s);
      ForeignUserBreaks(fs, op, q);
      assert !Opens(Step(fs, op), q);
      NotOpenNotForest(Step(fs, op), q);
    } else if Kids(Links(fs), s) == {} {
      DropKeepsViews(fs, {s});
      UnparentedIs(Abs(fs), Abs(fs - {s}), s);
    } else {
      var k := OnlyKid(fs, s);
      assert |Kids(Links(fs), s) - {k}| == 0;
      SquashedIs(fs, s, k, op.rebase.others);
    }
  }

  lemma NotOpenNotForest(fs: Files, q: Path)
    requires q in Links(fs) && !Opens(fs, q)
    ensures !IsForest(Links(fs))
  {
  }

  lemma SquashedIs(fs: Files, s: Path, k: Path, others: set<nat>)
    requires IsForest(Links(fs)) && s.Snap? && s in fs && k in Kids(Links(fs), s)
    requires forall q :: q in Links(fs) && q != k ==> fs[q].backing != Some(s)
    ensures var fs' := fs[k := SafeRebase(fs, k, TreeParent(Links(fs), s), others).(readonly := true)] - {s};
            IsForest(Links(fs')) && Abs(fs') == Unparented(Abs(fs), s)
  {
    hide View, IsForest;
    var l := SafeRebase(fs, k, TreeParent(Links(fs), s), others).(readonly := true);
    SquashKeepsViews(fs, s, k, others);
    InChain(fs, k);
    LineageDistinct(Links(fs), s);
    SquashLinks(fs, fs[k := l] - {s}, s, k, l);
    SameGraph(fs);
    UnparentedIs(Abs(fs), Abs(fs[k := l] - {s}), s);
  }

  // ---- every operation ----------------------------------------------------------------------------------------

  /** One operation, whatever disks were cloned from: it does to the files what it
      does to the named contents, and leaves every chain complete, exactly when it
      does not disturb a layer that sits where no layer of its disk does. */
  lemma StepExactly(fs: Files, op: Op)
    requires IsForest(Links(fs))
    ensures Refines(fs, op) <==> !Disturbs(fs, op)
  {
    hide View, IsForest, Abs, FlatStep, Effect, Aborted, Verdict, Disturbs, Refines;
    if Verdict(Links(fs), op).Err? {
      RefusedRefine(fs, op);
    } else {
      Harmless(fs, op);
      match op
      case SnapshotDelete(_, _, _, _) => SnapshotDeleteExactly(fs, op);
      case DeleteDisk(_, _, _) => DeleteDiskExactly(fs, op);
      case GuestWrite(_, _, _, _) => WriteExactly(fs, op);
      case ResizeDisk(_, _, _, _) => ResizeExactly(fs, op);
      case SnapshotRevert(_, _, _, _) => RevertExactly(fs, op);
      case SnapshotCreate(_, _, _, _) => FreezesRefine(fs, op);
      case _ => MakesRefine(fs, op);
    }
  }

  lemma Harmless(fs: Files, op: Op)
    ensures op.CreateDisk? || op.ImportImage? || op.ImportDisk? || op.CloneDisk? || op.SnapshotCreate? ==> !Disturbs(fs, op)
  {
  }

  lemma RefusedRefine(fs: Files, op: Op)
    requires IsForest(Links(fs)) && Verdict(Links(fs), op).Err?
    ensures Refines(fs, op) && !Disturbs(fs, op)
  {
    hide View, IsForest, Verdict;
    SameGraph(fs);
    if Verdict(Links(fs), op) == Err(ToolFailed) { AbortedKeepsAll(fs, op); }
  }

  /** Whole runs: they follow the flat store all along exactly when no operation
      disturbs another disk's clone. */
  lemma RunExactly(fs: Files, ops: seq<Op>)
    requires IsForest(Links(fs))
    ensures (forall i :: 0 <= i <= |ops| ==> Follows(fs, ops, i)) <==> (forall i :: 0 <= i < |ops| ==> !Disturbs(Run(fs, ops[..i]), ops[i]))
  {
    hide Disturbs, IsForest, Follows;
    if forall i :: 0 <= i <= |ops| ==> Follows(fs, ops, i) {
      forall i | 0 <= i < |ops| ensures !Disturbs(Run(fs, ops[..i]), ops[i]) {
        assert Follows(fs, ops, i + 1);
        FollowsStep(fs, ops, i);
      }
    }
    if forall i :: 0 <= i < |ops| ==> !Disturbs(Run(fs, ops[..i]), ops[i]) {
      forall i | 0 <= i <= |ops| ensures Follows(fs, ops, i) { FollowsUpTo(fs, ops, i); }
    }
  }

  /** After `i` operations the files are what the flat store says. */
  ghost predicate Follows(fs: Files, ops: seq<Op>, i: nat)
    requires i <= |ops|
  {
    IsForest(Links(Run(fs, ops[..i]))) && Abs(Run(fs, ops[..i])) == FlatRun(Abs(fs), ops[..i])
  }

  lemma FollowsStep(fs: Files, ops: seq<Op>, i: nat)
    requires i < |ops| && Follows(fs, ops, i)
    ensures Follows(fs, ops, i + 1) <==> !Disturbs(Run(fs, ops[..i]), ops[i])
  {
    hide Disturbs, IsForest, Step, FlatStep, Abs, Run, FlatRun;
    assert ops[..i + 1] == ops[..i] + [ops[i]];
    RunSnoc(fs, ops[..i], ops[i]);
    FlatRunSnoc(Abs(fs), ops[..i], ops[i]);
    StepExactly(Run(fs, ops[..i]), ops[i]);
  }

  lemma {:induction false} FollowsUpTo(fs: Files, ops: seq<Op>, i: nat)
    requires IsForest(Links(fs)) && i <= |ops| && forall j :: 0 <= j < i ==> !Disturbs(Run(fs, ops[..j]), ops[j])
    ensures Follows(fs, ops, i)
    decreases i
  {
    hide Disturbs, IsForest, Abs;
    if i == 0 {
      assert ops[..0] == [];
    } else {
      FollowsUpTo(fs, ops, i - 1);
      FollowsStep(fs, ops, i - 1);
    }
  }

  lemma {:induction false} RunSnoc(fs: Files, ops: seq<Op>, op: Op)
    ensures Run(fs, ops + [op]) == Step(Run(fs, ops), op)
    decreases |ops|
  {
    hide Step;
    if ops == [] {
      assert ops + [op] == [op] && [op][1..] == [];
    } else {
      assert (ops + [op])[1..] == ops[1..] + [op];
      RunSnoc(Step(fs, ops[0]), ops[1..], op);
    }
  }

  lemma {:induction false} FlatRunSnoc(a: Flat, ops: seq<Op>, op: Op)
    ensures FlatRun(a, ops + [op]) == FlatStep(FlatRun(a, ops), op)
    decreases |ops|
  {
    hide FlatStep;
    if ops == [] {
      assert ops + [op] == [op] && [op][1..] == [];
    } else {
      assert (ops + [op])[1..] == ops[1..] + [op];
      FlatRunSnoc(FlatStep(a, ops[0]), ops[1..], op);
    }
  }

  /** Where disks are cloned from base images only, no operation ever disturbs
      anything: the rule of Store.RunRefines is enough. */
  lemma RuleSuffices(fs: Files, op: Op)
    requires WellFormed(fs)
    ensures !Disturbs(fs, op)
  {
    hide View;
    if Verdict(Links(fs), op).Ok? {
      match op
      case SnapshotDelete(v, d, n, _) => OnlyKidsOn(fs, Snap(v, d, n));
      case DeleteDisk(v, d, _) =>
        forall q | q in Links(fs) && fs[q].backing.Some? ensures MayBack(q, fs[q].backing.value) { }
      case GuestWrite(v, d, _, _) => NewOrActiveIsLeaf(fs, Active(v, d));
      case ResizeDisk(v, d, _, _) => NewOrActiveIsLeaf(fs, Active(v, d));
      case SnapshotRevert(v, d, n, _) =>
        NewOrActiveIsLeaf(fs, Active(v, d));
        NotAbove(fs, Active(v, d), Snap(v, d, n));
      case _ =>
    }
  }

  /** Disk `b/d` cloned from the active overlay of `a/d`. */
  const OVERLAID: Files := map[
    Active("a", "d") := Layer(map[], 1, None, false),
    Active("b", "d") := Layer(map[], 1, Some(Active("a", "d")), false)]

  const OVERLAID_LINKS: Graph := map[Active("a", "d") := None, Active("b", "d") := Some(Active("a", "d"))]

  lemma OverlaidLinksAre()
    ensures Links(OVERLAID) == OVERLAID_LINKS
  {
  }

  lemma OverlaidIsForest()
    ensures IsForest(OVERLAID_LINKS)
  {
    hide IsForest;
    RankedIsForest(OVERLAID_LINKS, map[Active("a", "d") := 0, Active("b", "d") := 1]);
  }

  /** Both kinds happen without any snapshot: a guest write on `a/d` shows through
      in `b/d`, and deleting `a/d` takes `b/d` with it. */
  lemma ClonesAreDisturbed()
    ensures var write := GuestWrite("a", "d", map[0 := 5], {}); var delete := DeleteDisk("a", "d", false);
            && Disturbs(OVERLAID, write) && !Refines(OVERLAID, write)
            && Disturbs(OVERLAID, delete) && !Refines(OVERLAID, delete)
  {
    hide IsForest, View, Refines, Links;
    var a, b := Active("a", "d"), Active("b", "d");
    var write, delete := GuestWrite("a", "d", map[0 := 5], {}), DeleteDisk("a", "d", false);
    OverlaidLinksAre();
    OverlaidIsForest();
    ViewUnfolds(OVERLAID, a);
    assert View(OVERLAID, a) == [0];
    assert At(View(OVERLAID, a), 0) != At(NewContent(OVERLAID, write), 0);
    assert Sees(OVERLAID, b, a, View(OVERLAID, a), NewContent(OVERLAID, write));
    StepExactly(OVERLAID, write);
    OverlaidDeletes();
    assert Needed(OVERLAID, DiskFiles(OVERLAID, "a", "d"));
    StepExactly(OVERLAID, delete);
  }

  lemma OverlaidDeletes()
    ensures Verdict(OVERLAID_LINKS, DeleteDisk("a", "d", false)).Ok? && SnapsOf(OVERLAID_LINKS, "a", "d") == {}
  {
    assert NameChars("a") && NameChars("d");
  }

  lemma {:induction false} NotAbove(fs: Files, a: Path, p: Path)
    requires IsForest(Links(fs)) && p in Links(fs) && p != a && forall q :: q in Links(fs) ==> fs[q].backing != Some(a)
    ensures a !in Lineage(Links(fs), p)
    decreases |Lineage(Links(fs), p)|
  {
    Unfold(Links(fs), p);
    if fs[p].backing.Some? {
      InChain(fs, p);
      NotAbove(fs, a, fs[p].backing.value);
    }
  }
}
