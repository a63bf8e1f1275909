/** The disk store's operations as transitions on files (storage/vmforge_storage/
    store.py), the flat store they implement, and the refinement between the
    two. qemu-img runs may fail at any call; how a run ends is part of the
    operation. */
module Store {
  import opened Forest
  import opened Layout
  import opened Layers

  datatype Error = NotFound | AlreadyExists | InvalidConfig | InvalidState | ToolFailed
  datatype Outcome = Ok | Err(error: Error)

  /** How the qemu-img calls of an operation that makes an overlay end. When
      `create` fails, `leftover` is what it leaves at its target. */
  datatype CreateRun = Created | InfoFails | CreateFails(leftover: Option<Layer>)

  /** How the qemu-img calls of a deletion end. A rebase copies the `others` it
      does not need to along with those it must; one that stops half way has
      pulled some sectors up and not yet re-pointed the layer. */
  datatype RebaseRun = Rebased(others: set<nat>) | ListFails | RebaseStops(pulled: set<nat>)

  datatype Op =
    | CreateDisk(vm: string, disk: string, size: nat, works: bool)
    | ImportImage(image: string, content: Content, works: bool)
    | ImportDisk(vm: string, disk: string, content: Content, works: bool)
    | CloneDisk(base: Path, vm: string, disk: string, newSize: Option<nat>, works: bool)
    | DeleteDisk(vm: string, disk: string, force: bool)
    | ResizeDisk(vm: string, disk: string, size: nat, works: bool)
    | SnapshotCreate(vm: string, disk: string, name: string, create: CreateRun)
    | SnapshotRevert(vm: string, disk: string, name: string, create: CreateRun)
    | SnapshotDelete(vm: string, disk: string, name: string, rebase: RebaseRun)
    // The guest writes some sectors of its disk; qcow2 first fills the rest of
    // each touched cluster from what the disk shows.
    | GuestWrite(vm: string, disk: string, writes: map<nat, Sector>, filled: set<nat>)

  type Graph = map<Path, Option<Path>>

  // ---- guards ---------------------------------------------------------------

  /** Snapshots of the same disk that sit directly on snapshot `s`. */
  function Kids(par: Graph, s: Path): (kids: set<Path>)
    requires s.Snap?
    ensures forall k :: k in kids <==> k in par && k.Snap? && k.vm == s.vm && k.disk == s.disk && par[k] == Some(s)
  {
    set k | k in par && k.Snap? && k.vm == s.vm && k.disk == s.disk && par[k] == Some(s)
  }

  function SnapsOf(par: Graph, vm: string, disk: string): set<Path> {
    set k | k in par && k.Snap? && k.vm == vm && k.disk == disk
  }

  /** The parent as the snapshot tree sees it: base images do not count. */
  function TreeParent(par: Graph, s: Path): Option<Path>
    requires s in par && s.Snap?
  {
    if par[s].Some? && par[s].value.Snap? && par[s].value.vm == s.vm && par[s].value.disk == s.disk
    then par[s] else None
  }

  /** Whether an operation is refused, and why. It depends on which files exist
      and on their backing links, never on their data. */
  function Verdict(par: Graph, op: Op): Outcome {
    match op
    case CreateDisk(v, d, _, works) =>
      if !ValidName(v) || !ValidName(d) then Err(InvalidConfig)
      else if Active(v, d) in par then Err(AlreadyExists)
      else if !works then Err(ToolFailed) else Ok
    case ImportImage(n, _, works) =>
      if !ValidName(n) then Err(InvalidConfig)
      else if Image(n + EXT) in par then Err(AlreadyExists)
      else if !works then Err(ToolFailed) else Ok
    case ImportDisk(v, d, _, works) =>
      if !ValidName(v) || !ValidName(d) then Err(InvalidConfig)
      else if Active(v, d) in par then Err(AlreadyExists)
      else if !works then Err(ToolFailed) else Ok
    case CloneDisk(b, v, d, _, works) =>
      if b !in par then Err(NotFound)
      else if !works then Err(ToolFailed)
      else if !ValidName(v) || !ValidName(d) then Err(InvalidConfig)
      else if Active(v, d) in par then Err(AlreadyExists)
      else Ok
    case DeleteDisk(v, d, force) =>
      if !ValidName(v) || !ValidName(d) then Err(InvalidConfig)
      else if Active(v, d) !in par then Err(NotFound)
      else if SnapsOf(par, v, d) != {} && !force then Err(InvalidState)
      else Ok
    case ResizeDisk(v, d, _, works) =>
      if !ValidName(v) || !ValidName(d) then Err(InvalidConfig)
      else if Active(v, d) !in par then Err(NotFound)
      else if !works then Err(ToolFailed) else Ok
    case SnapshotCreate(v, d, n, run) =>
      if !ValidName(v) || !ValidName(d) then Err(InvalidConfig)
      else if Active(v, d) !in par then Err(NotFound)
      else if !ValidName(n) then Err(InvalidConfig)
      else if Snap(v, d, n) in par then Err(AlreadyExists)
      else if !run.Created? then Err(ToolFailed) else Ok
    case SnapshotRevert(v, d, n, run) =>
      if !ValidName(v) || !ValidName(d) then Err(InvalidConfig)
      else if Active(v, d) !in par then Err(NotFound)
      else if run.InfoFails? then Err(ToolFailed)
      else if Snap(v, d, n) !in par then Err(NotFound)
      else if !run.Created? then Err(ToolFailed) else Ok
    case SnapshotDelete(v, d, n, run) =>
      if !ValidName(v) || !ValidName(d) then Err(InvalidConfig)
      else if Active(v, d) !in par then Err(NotFound)
      else if run.ListFails? then Err(ToolFailed)
      else if Snap(v, d, n) !in par then Err(NotFound)
      else if par[Active(v, d)] == Some(Snap(v, d, n)) || |Kids(par, Snap(v, d, n))| > 1 then Err(InvalidState)
      else if Kids(par, Snap(v, d, n)) == {} then Ok
      else if TreeParent(par, Snap(v, d, n)).Some? && TreeParent(par, Snap(v, d, n)).value !in par then Err(NotFound)
      else if run.RebaseStops? then Err(ToolFailed) else Ok
    case GuestWrite(v, d, _, _) =>
      if Active(v, d) in par then Ok else Err(NotFound)
  }

  // ---- effects on the files ---------------------------------------------------

  /** A file made by `qemu-img convert`: everything written out, no backing. */
  function Converted(c: Content): Layer {
    Layer(map i | 0 <= i < |c| :: c[i], |c|, None, false)
  }

  /** `qemu-img resize`: cut off, or extended with sectors that read as zero
      whatever the backing file holds there. */
  function Resized(l: Layer, size: nat): Layer {
    l.(data := map i | 0 <= i < size && (i in l.data || l.size <= i) :: if i < l.size then l.data[i] else 0,
       size := size)
  }

  /** A guest write of `writes`, after filling the rest of the clusters. */
  function Written(l: Layer, under: Content, writes: map<nat, Sector>, filled: set<nat>): Layer {
    var l' := Pull(l, filled, under);
    l'.(data := l'.data + map i | i in writes && i < l.size :: writes[i])
  }

  function PutFile(fs: Files, p: Path, l: Option<Layer>): Files {
    match l
    case None => fs - {p}
    case Some(f) => fs[p := f]
  }

  /** The files after an operation that is not refused and whose tools work. */
  ghost function Effect(fs: Files, op: Op): Files
    requires Verdict(Links(fs), op).Ok?
  {
    match op
    case CreateDisk(v, d, size, _) => fs[Active(v, d) := Layer(map[], size, None, false)]
    case ImportImage(n, c, _) => fs[Image(n + EXT) := Converted(c)]
    case ImportDisk(v, d, c, _) => fs[Active(v, d) := Converted(c)]
    case CloneDisk(b, v, d, size, _) => fs[Active(v, d) := NewOverlay(fs, b, size)]
    case DeleteDisk(v, d, _) => fs - (SnapsOf(Links(fs), v, d) + {Active(v, d)})
    case ResizeDisk(v, d, size, _) => fs[Active(v, d) := Resized(fs[Active(v, d)], size)]
    case SnapshotCreate(v, d, n, _) => Frozen(fs, v, d, n)
    case SnapshotRevert(v, d, n, _) =>
      (fs - {Reverting(v, d)})[Active(v, d) := NewOverlay(fs, Snap(v, d, n), None)]
    case SnapshotDelete(v, d, n, run) =>
      var s := Snap(v, d, n);
      if Kids(Links(fs), s) == {} then fs - {s}
      else fs[OnlyKid(fs, s) := Squashed(fs, s, run.others)] - {s}
    case GuestWrite(v, d, writes, filled) =>
      var l := fs[Active(v, d)];
      fs[Active(v, d) := Written(l, Under(fs, l.backing), writes, filled)]
  }

  /** The active overlay under a snapshot's name, and a fresh overlay on it. */
  function Frozen(fs: Files, v: string, d: string, n: string): Files
    requires Active(v, d) in fs
  {
    var moved := (fs - {Active(v, d)})[Snap(v, d, n) := fs[Active(v, d)].(readonly := true)];
    moved[Active(v, d) := NewOverlay(moved, Snap(v, d, n), None)]
  }

  ghost function OnlyKid(fs: Files, s: Path): (k: Path)
    requires s.Snap? && Kids(Links(fs), s) != {}
    ensures k in Kids(Links(fs), s)
  {
    var k :| k in Kids(Links(fs), s); k
  }

  ghost function Squashed(fs: Files, s: Path, others: set<nat>): Layer
    requires s.Snap? && s in fs && Kids(Links(fs), s) != {}
  {
    SafeRebase(fs, OnlyKid(fs, s), TreeParent(Links(fs), s), others).(readonly := true)
  }

  /** The files after an operation in which a tool failed. */
  ghost function Aborted(fs: Files, op: Op): Files
    requires Verdict(Links(fs), op) == Err(ToolFailed)
  {
    if op.SnapshotCreate? && op.create.CreateFails? then
      // renamed, made read-only, then both undone
      fs[Active(op.vm, op.disk) := fs[Active(op.vm, op.disk)].(readonly := false)]
    else if op.SnapshotRevert? && op.create.CreateFails? then
      PutFile(fs, Reverting(op.vm, op.disk), op.create.leftover)
    else if op.SnapshotDelete? && op.rebase.RebaseStops? then
      var kid := OnlyKid(fs, Snap(op.vm, op.disk, op.name));
      fs[kid := Pull(fs[kid], op.rebase.pulled, Under(fs, fs[kid].backing)).(readonly := false)]
    else fs
  }

  ghost function Step(fs: Files, op: Op): Files {
    match Verdict(Links(fs), op)
    case Ok => Effect(fs, op)
    case Err(e) => if e == ToolFailed then Aborted(fs, op) else fs
  }

  // ---- the flat store ---------------------------------------------------------

  /** What a user sees of one layer: its content and what it was based on. */
  datatype Node = Node(content: Content, parent: Option<Path>)
  type Flat = map<Path, Node>

  function Parents(a: Flat): Graph {
    map p | p in a :: a[p].parent
  }

  function Abs(fs: Files): Flat {
    map p | p in Links(fs) :: Node(View(fs, p), fs[p].backing)
  }

  function Zeros(n: nat): Content { seq(n, i => 0) }

  function Sized(c: Content, size: nat): Content {
    if size <= |c| then c[..size] else c + Zeros(size - |c|)
  }

  function Overwritten(c: Content, writes: map<nat, Sector>): Content {
    seq(|c|, i requires 0 <= i < |c| => if i in writes then writes[i] else c[i])
  }

  /** A snapshot gone; its children now count as its parent's. */
  function Unparented(a: Flat, s: Path): Flat
    requires s in a && s.Snap?
  {
    var grand := TreeParent(Parents(a), s);
    map p | p in a && p != s :: if a[p].parent == Some(s) then a[p].(parent := grand) else a[p]
  }

  /** The same operations on named contents: no overlays, no copying, and no
      trace of a failure. */
  ghost function FlatStep(a: Flat, op: Op): Flat {
    if Verdict(Parents(a), op).Err? then a else
    match op
    case CreateDisk(v, d, size, _) => a[Active(v, d) := Node(Zeros(size), None)]
    case ImportImage(n, c, _) => a[Image(n + EXT) := Node(c, None)]
    case ImportDisk(v, d, c, _) => a[Active(v, d) := Node(c, None)]
    case CloneDisk(b, v, d, size, _) =>
      a[Active(v, d) := Node(if size.None? then a[b].content else Sized(a[b].content, size.value), Some(b))]
    case DeleteDisk(v, d, _) => a - (SnapsOf(Parents(a), v, d) + {Active(v, d)})
    case ResizeDisk(v, d, size, _) => a[Active(v, d) := a[Active(v, d)].(content := Sized(a[Active(v, d)].content, size))]
    case SnapshotCreate(v, d, n, _) =>
      a[Snap(v, d, n) := a[Active(v, d)]]
       [Active(v, d) := Node(a[Active(v, d)].content, Some(Snap(v, d, n)))]
    case SnapshotRevert(v, d, n, _) =>
      a[Active(v, d) := Node(a[Snap(v, d, n)].content, Some(Snap(v, d, n)))]
    case SnapshotDelete(v, d, n, _) => Unparented(a, Snap(v, d, n))
    case GuestWrite(v, d, writes, _) =>
      a[Active(v, d) := a[Active(v, d)].(content := Overwritten(a[Active(v, d)].content, writes))]
  }

  lemma SameGraph(fs: Files)
    ensures Parents(Abs(fs)) == Links(fs)
  {
  }

  lemma AbsIs(fs: Files, a: Flat)
    requires a.Keys == Links(fs).Keys
    requires forall q :: q in a ==> a[q] == Node(View(fs, q), fs[q].backing)
    ensures Abs(fs) == a
  {
  }

  // ---- one step ---------------------------------------------------------------

  /** Clones are made of images, not of another disk's layers. */
  predicate Admissible(op: Op) {
    op.CloneDisk? ==> op.base.IsBase()
  }

  lemma RankOf(fs: Files) returns (rank: map<Path, nat>)
    requires IsForest(Links(fs))
    ensures RanksDown(Links(fs), rank)
  {
    rank := Depths(Links(fs));
    ForestRanksDown(Links(fs));
  }

  /** The graph after some links change stays a forest as long as ranks go down. */
  lemma StaysForest(fs: Files, fs': Files, rank: map<Path, nat>)
    requires RanksDown(Links(fs'), rank)
    requires forall p :: p in Links(fs') && fs'[p].backing.Some? ==> MayBack(p, fs'[p].backing.value)
    ensures WellFormed(fs')
  {
    RankedIsForest(Links(fs'), rank);
  }

  /** `fs'` is `fs` with layer `p`, on which nothing sits, made or replaced. */
  ghost predicate LeafChange(fs: Files, fs': Files, p: Path) {
    && !p.Reverting? && p in fs'
    && Links(fs') == Links(fs)[p := fs'[p].backing]
    && (forall q :: q in Links(fs) && q != p ==> fs'[q] == fs[q] && fs[q].backing != Some(p))
    && (fs'[p].backing.Some? ==>
         var b := fs'[p].backing.value; b in Links(fs) && b != p && MayBack(p, b))
  }

  lemma LeafChangeWellFormed(fs: Files, fs': Files, p: Path)
    requires WellFormed(fs) && LeafChange(fs, fs', p)
    ensures WellFormed(fs')
  {
    var before := RankOf(fs);
    var backing := fs'[p].backing;
    var rank := before[p := if backing.Some? then before[backing.value] + 1 else 0];
    assert RanksDown(Links(fs'), rank);
    StaysForest(fs, fs', rank);
  }

  /** All the other layers show what they showed. */
  lemma LeafChangeViews(fs: Files, fs': Files, p: Path)
    requires WellFormed(fs) && LeafChange(fs, fs', p)
    ensures WellFormed(fs')
    ensures forall q :: q in Links(fs) && q != p ==> View(fs', q) == View(fs, q)
  {
    LeafChangeWellFormed(fs, fs', p);
    var kept := Links(fs).Keys - {p};
    forall q | q in Links(fs) && q != p ensures View(fs', q) == View(fs, q) {
      forall r | r in kept && fs[r].backing.Some? ensures fs[r].backing.value in kept {
        Unfold(Links(fs), r);
      }
      Untouched(fs, fs', kept, q);
    }
  }

  /** Replacing such a layer changes one entry of the flat store. */
  lemma LeafChangeAbs(fs: Files, fs': Files, p: Path)
    requires WellFormed(fs) && LeafChange(fs, fs', p)
    ensures WellFormed(fs')
    ensures Abs(fs') == Abs(fs)[p := Node(Stack(fs'[p].data, fs'[p].size, Under(fs, fs'[p].backing)), fs'[p].backing)]
  {
    hide View;
    LeafChangeViews(fs, fs', p);
    ViewUnfolds(fs', p);
    var c := Stack(fs'[p].data, fs'[p].size, Under(fs, fs'[p].backing));
    assert View(fs', p) == c;
    AbsIs(fs', Abs(fs)[p := Node(c, fs'[p].backing)]);
  }

  lemma NewOrActiveIsLeaf(fs: Files, p: Path)
    requires WellFormed(fs) && (p.Active? || p !in Links(fs))
    ensures forall q :: q in Links(fs) ==> fs[q].backing != Some(p)
  {
    ForestRanksDown(Links(fs));
  }

  lemma BackingOk(fs: Files, p: Path)
    requires WellFormed(fs) && p in Links(fs) && fs[p].backing.Some?
    ensures fs[p].backing.value in Links(fs) && fs[p].backing.value != p && MayBack(p, fs[p].backing.value)
  {
    ForestRanksDown(Links(fs));
  }

  // For each operation: the files it makes, against the flat store.

  lemma CreateDiskRefines(fs: Files, p: Path, size: nat)
    requires WellFormed(fs) && p.Active?
    ensures var fs' := fs[p := Layer(map[], size, None, false)];
            WellFormed(fs') && Abs(fs') == Abs(fs)[p := Node(Zeros(size), None)]
  {
    hide View;
    NewOrActiveIsLeaf(fs, p);
    LeafChangeAbs(fs, fs[p := Layer(map[], size, None, false)], p);
    assert Stack(map[], size, []) == Zeros(size);
  }

  lemma ImportRefines(fs: Files, p: Path, c: Content)
    requires WellFormed(fs) && (p.Active? || p.Image?) && p !in fs
    ensures var fs' := fs[p := Converted(c)];
            WellFormed(fs') && Abs(fs') == Abs(fs)[p := Node(c, None)]
  {
    hide View;
    NewOrActiveIsLeaf(fs, p);
    LeafChangeAbs(fs, fs[p := Converted(c)], p);
    assert Stack(Converted(c).data, |c|, []) == c;
  }

  lemma CloneRefines(fs: Files, p: Path, base: Path, size: Option<nat>)
    requires WellFormed(fs) && p.Active? && base in fs && base.IsBase()
    ensures var fs' := fs[p := NewOverlay(fs, base, size)]; var c := View(fs, base);
            WellFormed(fs') && Abs(fs') == Abs(fs)[p := Node(if size.None? then c else Sized(c, size.value), Some(base))]
  {
    hide View;
    NewOrActiveIsLeaf(fs, p);
    var l, c := NewOverlay(fs, base, size), View(fs, base);
    LeafChangeAbs(fs, fs[p := l], p);
    assert Stack(map[], l.size, c) == if size.None? then c else Sized(c, size.value);
  }

  lemma ResizeRefines(fs: Files, p: Path, size: nat)
    requires WellFormed(fs) && p.Active? && p in fs
    ensures var fs' := fs[p := Resized(fs[p], size)];
            WellFormed(fs') && Abs(fs') == Abs(fs)[p := Node(Sized(View(fs, p), size), fs[p].backing)]
  {
    hide View;
    NewOrActiveIsLeaf(fs, p);
    if fs[p].backing.Some? { BackingOk(fs, p); }
    LeafChangeAbs(fs, fs[p := Resized(fs[p], size)], p);
    ViewUnfolds(fs, p);
    ResizedView(fs[p], size, Under(fs, fs[p].backing));
  }

  lemma ResizedView(l: Layer, size: nat, under: Content)
    ensures Stack(Resized(l, size).data, size, under) == Sized(Stack(l.data, l.size, under), size)
  {
  }

  lemma WrittenView(l: Layer, under: Content, writes: map<nat, Sector>, filled: set<nat>)
    ensures Stack(Written(l, under, writes, filled).data, l.size, under) ==
            Overwritten(Stack(l.data, l.size, under), writes)
  {
  }

  lemma WriteRefines(fs: Files, p: Path, writes: map<nat, Sector>, filled: set<nat>)
    requires WellFormed(fs) && p.Active? && p in fs
    ensures var fs' := fs[p := Written(fs[p], Under(fs, fs[p].backing), writes, filled)];
            WellFormed(fs') && Abs(fs') == Abs(fs)[p := Node(Overwritten(View(fs, p), writes), fs[p].backing)]
  {
    hide View;
    NewOrActiveIsLeaf(fs, p);
    if fs[p].backing.Some? { BackingOk(fs, p); }
    var under := Under(fs, fs[p].backing);
    LeafChangeAbs(fs, fs[p := Written(fs[p], under, writes, filled)], p);
    ViewUnfolds(fs, p);
    WrittenView(fs[p], under, writes, filled);
  }

  lemma RevertRefines(fs: Files, p: Path, s: Path)
    requires WellFormed(fs) && p.Active? && s.Snap? && p.OfDisk(s.vm, s.disk) && s in fs
    ensures var fs' := (fs - {Reverting(p.vm, p.disk)})[p := NewOverlay(fs, s, None)];
            WellFormed(fs') && Abs(fs') == Abs(fs)[p := Node(View(fs, s), Some(s))]
  {
    hide View;
    NewOrActiveIsLeaf(fs, p);
    var c := View(fs, s);
    LeafChangeAbs(fs, (fs - {Reverting(p.vm, p.disk)})[p := NewOverlay(fs, s, None)], p);
    assert Stack(map[], |c|, c) == c;
  }

  /** Files that no remaining layer sits on can go. */
  lemma DropForest(fs: Files, gone: set<Path>)
    requires IsForest(Links(fs))
    requires forall q :: q in Links(fs) && q !in gone && fs[q].backing.Some? ==> fs[q].backing.value !in gone
    ensures IsForest(Links(fs - gone))
  {
    var rank := RankOf(fs);
    RankedIsForest(Links(fs - gone), rank);
  }

  lemma DropKeepsViews(fs: Files, gone: set<Path>)
    requires IsForest(Links(fs))
    requires forall q :: q in Links(fs) && q !in gone && fs[q].backing.Some? ==> fs[q].backing.value !in gone
    ensures IsForest(Links(fs - gone))
    ensures forall q :: q in Links(fs - gone) ==> View(fs - gone, q) == View(fs, q)
  {
    DropForest(fs, gone);
    var rank := RankOf(fs);
    var kept := Links(fs).Keys - gone;
    forall q | q in kept ensures View(fs - gone, q) == View(fs, q) {
      Untouched(fs, fs - gone, kept, q);
    }
  }

  lemma DropRefines(fs: Files, gone: set<Path>)
    requires WellFormed(fs)
    requires forall q :: q in Links(fs) && q !in gone && fs[q].backing.Some? ==> fs[q].backing.value !in gone
    ensures WellFormed(fs - gone) && Abs(fs - gone) == Abs(fs) - gone
  {
    hide View;
    DropKeepsViews(fs, gone);
  }

  lemma DeleteDiskRefines(fs: Files, v: string, d: string)
    requires WellFormed(fs)
    ensures var gone := SnapsOf(Links(fs), v, d) + {Active(v, d)};
            WellFormed(fs - gone) && Abs(fs - gone) == Abs(fs) - gone
  {
    hide View;
    var gone := SnapsOf(Links(fs), v, d) + {Active(v, d)};
    forall q | q in Links(fs) && q !in gone && fs[q].backing.Some? ensures fs[q].backing.value !in gone {
      BackingOk(fs, q);
    }
    DropRefines(fs, gone);
  }

  // Freezing: the active overlay moves to the snapshot's path and a new, empty
  // overlay takes its place.

  lemma FrozenWellFormed(fs: Files, v: string, d: string, n: string)
    requires WellFormed(fs) && Active(v, d) in fs && Snap(v, d, n) !in fs
    ensures WellFormed(Frozen(fs, v, d, n))
  {
    hide View;
    var a, s, fs' := Active(v, d), Snap(v, d, n), Frozen(fs, v, d, n);
    NewOrActiveIsLeaf(fs, a);
    var before := RankOf(fs);
    var rank := before[s := before[a]][a := before[a] + 1];
    var par, par' := Links(fs), Links(fs');
    assert par' == par[s := par[a]][a := Some(s)];
    forall x | x in par' && par'[x].Some? ensures par'[x].value in par' && rank[par'[x].value] < rank[x] {
      if x != a && x != s { assert par'[x] == par[x] == fs[x].backing; }
    }
    StaysForest(fs, fs', rank);
  }

  lemma FrozenViews(fs: Files, v: string, d: string, n: string)
    requires WellFormed(fs) && Active(v, d) in fs && Snap(v, d, n) !in fs
    ensures var fs' := Frozen(fs, v, d, n);
            && WellFormed(fs')
            && (forall q :: q in Links(fs) && q != Active(v, d) ==> View(fs', q) == View(fs, q))
            && View(fs', Snap(v, d, n)) == View(fs, Active(v, d))
  {
    hide View;
    var a, s, fs' := Active(v, d), Snap(v, d, n), Frozen(fs, v, d, n);
    FrozenWellFormed(fs, v, d, n);
    NewOrActiveIsLeaf(fs, a);
    var loc := map q | q in Links(fs) :: if q == a then s else q;
    forall q | q in loc ensures q in fs && Carried(fs, fs', loc, q) {
      if fs[q].backing.Some? { BackingOk(fs, q); }
    }
    forall q | q in loc ensures View(fs', loc[q]) == View(fs, q) {
      Relocation(fs, fs', loc, q);
    }
  }

  lemma FreezeRefines(fs: Files, v: string, d: string, n: string)
    requires WellFormed(fs) && Active(v, d) in fs && Snap(v, d, n) !in fs
    ensures var fs' := Frozen(fs, v, d, n); var c := View(fs, Active(v, d));
            && WellFormed(fs')
            && Abs(fs') == Abs(fs)[Snap(v, d, n) := Node(c, fs[Active(v, d)].backing)]
                                  [Active(v, d) := Node(c, Some(Snap(v, d, n)))]
  {
    hide View;
    FrozenViews(fs, v, d, n);
    FreshOverlay(fs, v, d, n);
    FrozenLinks(fs, Frozen(fs, v, d, n), Active(v, d), Snap(v, d, n));
  }

  lemma FrozenLinks(fs: Files, fs': Files, a: Path, s: Path)
    requires a in Links(fs) && !s.Reverting? && a != s
    requires forall q :: q in Links(fs') <==> q in Links(fs) || q == s
    requires forall q :: q in Links(fs) && q != a && q != s ==> fs'[q].backing == fs[q].backing && View(fs', q) == View(fs, q)
    requires fs'[s].backing == fs[a].backing && View(fs', s) == View(fs, a)
    requires fs'[a].backing == Some(s) && View(fs', a) == View(fs, a)
    ensures Abs(fs') == Abs(fs)[s := Node(View(fs, a), fs[a].backing)][a := Node(View(fs, a), Some(s))]
  {
    hide View;
    var c, f := View(fs, a), Abs(fs);
    AbsIs(fs', f[s := Node(c, fs[a].backing)][a := Node(c, Some(s))]);
  }

  lemma FreshOverlay(fs: Files, v: string, d: string, n: string)
    requires WellFormed(fs) && Active(v, d) in fs && Snap(v, d, n) !in fs
    ensures var fs' := Frozen(fs, v, d, n); View(fs', Active(v, d)) == View(fs', Snap(v, d, n))
  {
    var a, s, fs' := Active(v, d), Snap(v, d, n), Frozen(fs, v, d, n);
    FrozenWellFormed(fs, v, d, n);
    ViewUnfolds(fs', a);
    ViewUnfolds(fs', s);
    var moved := (fs - {a})[s := fs[a].(readonly := true)];
    var c := View(fs', s);
    assert |View(moved, s)| == fs[a].size;
    assert Stack(map[], |c|, c) == c;
  }

  // Deleting: nothing but the only child sits on the snapshot, and the child
  // has pulled up whatever would change under it.

  /** Of all layers, only the listed children sit on a snapshot that is not
      current. */
  lemma OnlyKidsOn(fs: Files, s: Path)
    requires WellFormed(fs) && s.Snap?
    requires Active(s.vm, s.disk) in fs ==> fs[Active(s.vm, s.disk)].backing != Some(s)
    ensures forall q :: q in Links(fs) && fs[q].backing == Some(s) ==> q in Kids(Links(fs), s)
  {
    forall q | q in Links(fs) && fs[q].backing == Some(s) ensures q in Kids(Links(fs), s) {
      BackingOk(fs, q);
    }
  }

  lemma SquashForest(fs: Files, s: Path, k: Path, l: Layer)
    requires IsForest(Links(fs)) && s.Snap? && s in fs && k in Kids(Links(fs), s)
    requires forall q :: q in Links(fs) && q != k ==> fs[q].backing != Some(s)
    requires l.backing == TreeParent(Links(fs), s)
    ensures IsForest(Links(fs[k := l] - {s}))
  {
    var rank := RankOf(fs);
    var fs' := fs[k := l] - {s};
    assert RanksDown(Links(fs'), rank);
    RankedIsForest(Links(fs'), rank);
  }

  /** Squashing keeps every remaining layer, the child's descendants included,
      and also when the snapshot sat on a base image and its child ends up on
      nothing. */
  lemma SquashKeepsViews(fs: Files, s: Path, k: Path, others: set<nat>)
    requires IsForest(Links(fs)) && s.Snap? && s in fs && k in Kids(Links(fs), s)
    requires forall q :: q in Links(fs) && q != k ==> fs[q].backing != Some(s)
    ensures var fs' := fs[k := SafeRebase(fs, k, TreeParent(Links(fs), s), others).(readonly := true)] - {s};
            && IsForest(Links(fs'))
            && forall q :: q in Links(fs') ==> View(fs', q) == View(fs, q)
  {
    var l := SafeRebase(fs, k, TreeParent(Links(fs), s), others).(readonly := true);
    var fs' := fs[k := l] - {s};
    SquashForest(fs, s, k, l);
    forall q | q in Links(fs')
      ensures Stack(fs'[q].data, fs'[q].size, Under(fs, fs'[q].backing)) == View(fs, q)
    {
      ViewUnfolds(fs, q);
      SafeRebaseKeepsView(fs, k, TreeParent(Links(fs), s), others);
    }
    forall q | q in Links(fs') ensures View(fs', q) == View(fs, q) {
      LocalRewrite(fs, fs', q);
    }
  }

  lemma SquashRefines(fs: Files, s: Path, k: Path, others: set<nat>)
    requires WellFormed(fs) && s.Snap? && s in fs && k in Kids(Links(fs), s)
    requires forall q :: q in Links(fs) && q != k ==> fs[q].backing != Some(s)
    ensures var fs' := fs[k := SafeRebase(fs, k, TreeParent(Links(fs), s), others).(readonly := true)] - {s};
            WellFormed(fs') && Abs(fs') == Unparented(Abs(fs), s)
  {
    hide View;
    var grand := TreeParent(Links(fs), s);
    var l := SafeRebase(fs, k, grand, others).(readonly := true);
    SquashKeepsViews(fs, s, k, others);
    BackingOk(fs, k);
    SquashLinks(fs, fs[k := l] - {s}, s, k, l);
    SameGraph(fs);
    UnparentedIs(Abs(fs), Abs(fs[k := l] - {s}), s);
  }

  lemma SquashLinks(fs: Files, fs': Files, s: Path, k: Path, l: Layer)
    requires s.Snap? && s in fs && k in Kids(Links(fs), s) && k != s
    requires fs' == fs[k := l] - {s} && l.backing == TreeParent(Links(fs), s)
    requires forall q :: q in Links(fs) && q != k ==> fs[q].backing != Some(s)
    ensures forall q :: q in Links(fs') <==> q in Links(fs) && q != s
    ensures forall q :: q in Links(fs') ==>
      fs'[q].backing == if fs[q].backing == Some(s) then TreeParent(Links(fs), s) else fs[q].backing
  {
  }

  lemma UnparentedIs(a: Flat, a': Flat, s: Path)
    requires s.Snap? && s in a
    requires forall q :: q in a' <==> q in a && q != s
    requires forall q :: q in a' ==> a'[q].content == a[q].content
    requires forall q :: q in a' ==>
      a'[q].parent == if a[q].parent == Some(s) then TreeParent(Parents(a), s) else a[q].parent
    ensures a' == Unparented(a, s)
  {
  }

  lemma LeafDeleteRefines(fs: Files, s: Path)
    requires WellFormed(fs) && s.Snap? && s in fs && Kids(Links(fs), s) == {}
    requires Active(s.vm, s.disk) in fs ==> fs[Active(s.vm, s.disk)].backing != Some(s)
    ensures WellFormed(fs - {s}) && Abs(fs - {s}) == Unparented(Abs(fs), s)
  {
    hide View;
    OnlyKidsOn(fs, s);
    DropRefines(fs, {s});
    SameGraph(fs);
  }

  lemma OnlyChild(fs: Files, s: Path, k: Path)
    requires s.Snap? && k in Kids(Links(fs), s) && |Kids(Links(fs), s)| == 1
    ensures OnlyKid(fs, s) == k
  {
    var kids := Kids(Links(fs), s);
    assert |kids - {k}| == 0;
    assert OnlyKid(fs, s) in kids;
  }

  // Failures.

  predicate SameThrough(l: Layer, l': Layer, under: Content) {
    l'.size == l.size && Stack(l'.data, l.size, under) == Stack(l.data, l.size, under)
  }

  /** A step that changes no link and no view of any layer. */
  lemma Unchanged(fs: Files, fs': Files)
    requires IsForest(Links(fs)) && Links(fs') == Links(fs)
    requires forall q :: q in Links(fs) ==> SameThrough(fs[q], fs'[q], Under(fs, fs[q].backing))
    ensures Abs(fs') == Abs(fs)
  {
    forall q | q in Links(fs')
      ensures Stack(fs'[q].data, fs'[q].size, Under(fs, fs'[q].backing)) == View(fs, q)
    {
      ViewUnfolds(fs, q);
      assert Links(fs')[q] == Links(fs)[q];
    }
    forall q | q in Links(fs') ensures View(fs', q) == View(fs, q) {
      LocalRewrite(fs, fs', q);
    }
  }

  lemma ThawKeepsAll(fs: Files, p: Path)
    requires IsForest(Links(fs)) && p in fs && !p.Reverting?
    ensures var fs' := fs[p := fs[p].(readonly := false)]; Links(fs') == Links(fs) && Abs(fs') == Abs(fs)
  {
    Unchanged(fs, fs[p := fs[p].(readonly := false)]);
  }

  lemma JunkKeepsAll(fs: Files, v: string, d: string, junk: Option<Layer>)
    requires IsForest(Links(fs))
    ensures var fs' := PutFile(fs, Reverting(v, d), junk); Links(fs') == Links(fs) && Abs(fs') == Abs(fs)
  {
    Unchanged(fs, PutFile(fs, Reverting(v, d), junk));
  }

  lemma StoppedRebaseKeepsAll(fs: Files, k: Path, pulled: set<nat>)
    requires IsForest(Links(fs)) && k in fs && !k.Reverting?
    ensures var fs' := fs[k := Pull(fs[k], pulled, Under(fs, fs[k].backing)).(readonly := false)];
            Links(fs') == Links(fs) && Abs(fs') == Abs(fs)
  {
    PullKeepsView(fs[k], pulled, Under(fs, fs[k].backing));
    Unchanged(fs, fs[k := Pull(fs[k], pulled, Under(fs, fs[k].backing)).(readonly := false)]);
  }

  /** Whichever tool call fails, every layer shows what it showed before and sits
      on what it sat on. */
  lemma AbortedKeepsAll(fs: Files, op: Op)
    requires IsForest(Links(fs)) && Verdict(Links(fs), op) == Err(ToolFailed)
    ensures Links(Aborted(fs, op)) == Links(fs) && Abs(Aborted(fs, op)) == Abs(fs)
  {
    hide View;
    if op.SnapshotCreate? && op.create.CreateFails? {
      ThawKeepsAll(fs, Active(op.vm, op.disk));
    } else if op.SnapshotRevert? && op.create.CreateFails? {
      JunkKeepsAll(fs, op.vm, op.disk, op.create.leftover);
    } else if op.SnapshotDelete? && op.rebase.RebaseStops? {
      StoppedRebaseKeepsAll(fs, OnlyKid(fs, Snap(op.vm, op.disk, op.name)), op.rebase.pulled);
    }
  }

  lemma SameLinksWellFormed(fs: Files, fs': Files)
    requires WellFormed(fs) && Links(fs') == Links(fs)
    ensures WellFormed(fs')
  {
    forall p | p in Links(fs') && fs'[p].backing.Some? ensures MayBack(p, fs'[p].backing.value) {
      assert Links(fs')[p] == Links(fs)[p];
    }
  }

  lemma DeleteRefines(fs: Files, op: Op)
    requires WellFormed(fs) && op.SnapshotDelete? && Verdict(Links(fs), op).Ok?
    ensures WellFormed(Effect(fs, op)) && Abs(Effect(fs, op)) == Unparented(Abs(fs), Snap(op.vm, op.disk, op.name))
  {
    hide View;
    var s := Snap(op.vm, op.disk, op.name);
    if Kids(Links(fs), s) == {} {
      LeafDeleteRefines(fs, s);
    } else {
      var k := OnlyKid(fs, s);
      OnlyKidsOn(fs, s);
      assert |Kids(Links(fs), s) - {k}| == 0;
      SquashRefines(fs, s, k, op.rebase.others);
    }
  }

  lemma DiskOpRefines(fs: Files, op: Op)
    requires WellFormed(fs) && Admissible(op) && Verdict(Links(fs), op).Ok?
    requires op.CreateDisk? || op.ImportImage? || op.ImportDisk? || op.CloneDisk? || op.DeleteDisk?
    ensures WellFormed(Effect(fs, op)) && Abs(Effect(fs, op)) == FlatStep(Abs(fs), op)
  {
    hide View;
    SameGraph(fs);
    match op
    case CreateDisk(v, d, size, _) => CreateDiskRefines(fs, Active(v, d), size);
    case ImportImage(n, c, _) => ImportRefines(fs, Image(n + EXT), c);
    case ImportDisk(v, d, c, _) => ImportRefines(fs, Active(v, d), c);
    case CloneDisk(b, v, d, size, _) => CloneRefines(fs, Active(v, d), b, size);
    case DeleteDisk(v, d, _) => DeleteDiskRefines(fs, v, d);
  }

  lemma LayerOpRefines(fs: Files, op: Op)
    requires WellFormed(fs) && Verdict(Links(fs), op).Ok?
    requires op.ResizeDisk? || op.GuestWrite? || op.SnapshotCreate? || op.SnapshotRevert? || op.SnapshotDelete?
    ensures WellFormed(Effect(fs, op)) && Abs(Effect(fs, op)) == FlatStep(Abs(fs), op)
  {
    hide View;
    SameGraph(fs);
    match op
    case ResizeDisk(v, d, size, _) => ResizeRefines(fs, Active(v, d), size);
    case SnapshotCreate(v, d, n, _) => FreezeRefines(fs, v, d, n);
    case SnapshotRevert(v, d, n, _) => RevertRefines(fs, Active(v, d), Snap(v, d, n));
    case SnapshotDelete(v, d, n, _) => DeleteRefines(fs, op);
    case GuestWrite(v, d, writes, filled) => WriteRefines(fs, Active(v, d), writes, filled);
  }

  /** One operation on files is the same operation on named contents. */
  lemma StepRefines(fs: Files, op: Op)
    requires WellFormed(fs) && Admissible(op)
    ensures WellFormed(Step(fs, op))
    ensures Abs(Step(fs, op)) == FlatStep(Abs(fs), op)
  {
    hide View;
    if Verdict(Links(fs), op).Err? {
      SameGraph(fs);
      if Verdict(Links(fs), op) == Err(ToolFailed) {
        AbortedKeepsAll(fs, op);
        SameLinksWellFormed(fs, Aborted(fs, op));
      }
    } else if op.CreateDisk? || op.ImportImage? || op.ImportDisk? || op.CloneDisk? || op.DeleteDisk? {
      DiskOpRefines(fs, op);
    } else {
      LayerOpRefines(fs, op);
    }
  }

  // ---- whole runs ---------------------------------------------------------------

  ghost function Run(fs: Files, ops: seq<Op>): Files
    decreases |ops|
  {
    if ops == [] then fs else Run(Step(fs, ops[0]), ops[1..])
  }

  ghost function FlatRun(a: Flat, ops: seq<Op>): Flat
    decreases |ops|
  {
    if ops == [] then a else FlatRun(FlatStep(a, ops[0]), ops[1..])
  }

  /** Every run of the store, with tools failing anywhere and the guest writing
      in between, is a run of the flat store. In every state it passes through,
      the links form a forest, none dangles, and no layer sits on an active
      overlay. */
  lemma {:induction false} RunRefines(fs: Files, ops: seq<Op>)
    requires WellFormed(fs) && forall i :: 0 <= i < |ops| ==> Admissible(ops[i])
    ensures WellFormed(Run(fs, ops))
    ensures Abs(Run(fs, ops)) == FlatRun(Abs(fs), ops)
    decreases |ops|
  {
    hide View;
    if ops != [] {
      StepRefines(fs, ops[0]);
      RunRefines(Step(fs, ops[0]), ops[1..]);
    }
  }

  /** Layers carry valid names: no operation makes others. */
  ghost predicate WellNamed(fs: Files) {
    forall p :: p in fs ==> GoodName(p)
  }

  predicate GoodName(p: Path) {
    (p.Active? || p.Snap?) ==> ValidName(p.vm) && ValidName(p.disk) && (p.Snap? ==> ValidName(p.name))
  }

  lemma EffectWellNamed(fs: Files, op: Op)
    requires Verdict(Links(fs), op).Ok?
    ensures forall p :: p in Effect(fs, op) && p !in fs ==> GoodName(p)
  {
    hide View, Kids, NewOverlay;
    match op
    case SnapshotCreate(v, d, n, _) => assert Effect(fs, op).Keys <= fs.Keys + {Snap(v, d, n), Active(v, d)};
    case SnapshotDelete(v, d, n, _) => assert Effect(fs, op).Keys <= fs.Keys;
    case _ =>
  }

  lemma StepWellNamed(fs: Files, op: Op)
    requires WellNamed(fs)
    ensures WellNamed(Step(fs, op))
  {
    hide View, Kids, Effect, ValidName;
    if Verdict(Links(fs), op).Ok? { EffectWellNamed(fs, op); }
  }

  lemma {:induction false} RunWellNamed(fs: Files, ops: seq<Op>)
    requires WellNamed(fs)
    ensures WellNamed(Run(fs, ops))
    decreases |ops|
  {
    if ops != [] {
      StepWellNamed(fs, ops[0]);
      RunWellNamed(Step(fs, ops[0]), ops[1..]);
    }
  }

  // ---- read-only snapshot files ---------------------------------------------------

  ghost predicate SnapshotsFrozen(fs: Files) {
    forall p :: p in fs && p.Snap? ==> fs[p].readonly
  }

  predicate RebaseStopped(fs: Files, op: Op) {
    op.SnapshotDelete? && op.rebase.RebaseStops? && Verdict(Links(fs), op) == Err(ToolFailed)
  }

  /** Snapshot files stay read-only, with one exact exception: a deletion whose
      rebase stops leaves the child writable. */
  lemma FrozenUnlessStopped(fs: Files, op: Op)
    requires SnapshotsFrozen(fs)
    ensures SnapshotsFrozen(Step(fs, op)) <==> !RebaseStopped(fs, op)
  {
    hide View;
    if RebaseStopped(fs, op) {
      var k := OnlyKid(fs, Snap(op.vm, op.disk, op.name));
      assert k in Step(fs, op) && !Step(fs, op)[k].readonly;
    }
  }

  lemma {:induction false} RunStaysFrozen(fs: Files, ops: seq<Op>)
    requires SnapshotsFrozen(fs)
    requires forall i :: 0 <= i < |ops| ==> !(ops[i].SnapshotDelete? && ops[i].rebase.RebaseStops?)
    ensures SnapshotsFrozen(Run(fs, ops))
    decreases |ops|
  {
    if ops != [] {
      FrozenUnlessStopped(fs, ops[0]);
      RunStaysFrozen(Step(fs, ops[0]), ops[1..]);
    }
  }

  /** Deleting again after such a stop goes through, freezes the child again and
      leaves what an undisturbed deletion would have left. */
  lemma RetryAfterStop(fs: Files, op: Op, others: set<nat>)
    requires WellFormed(fs) && SnapshotsFrozen(fs) && RebaseStopped(fs, op)
    ensures var fs' := Step(fs, op); var again := op.(rebase := Rebased(others));
            && Verdict(Links(fs'), again).Ok?
            && SnapshotsFrozen(Step(fs', again))
            && Abs(Step(fs', again)) == Unparented(Abs(fs), Snap(op.vm, op.disk, op.name))
  {
    hide View;
    var fs', again := Step(fs, op), op.(rebase := Rebased(others));
    AbortedKeepsAll(fs, op);
    SameLinksWellFormed(fs, fs');
    DeleteRefines(fs', again);
    RetryRefreezes(fs, op, again);
  }

  lemma RetryRefreezes(fs: Files, op: Op, again: Op)
    requires SnapshotsFrozen(fs) && RebaseStopped(fs, op)
    requires Links(Aborted(fs, op)) == Links(fs)
    requires again.SnapshotDelete? && again.rebase.Rebased? && again == op.(rebase := again.rebase)
    requires Verdict(Links(Aborted(fs, op)), again).Ok?
    ensures SnapshotsFrozen(Effect(Aborted(fs, op), again))
  {
    hide View;
    var s := Snap(op.vm, op.disk, op.name);
    var k, k' := OnlyKid(fs, s), OnlyKid(Aborted(fs, op), s);
    assert |Kids(Links(fs), s) - {k}| == 0;
    assert k == k';
  }

  /** Disk `a/d` with snapshot `s`, snapshot `t` on it, and the active overlay. */
  const CHAIN: Files := map[
    Snap("a", "d", "s") := Layer(map[], 1, None, true),
    Snap("a", "d", "t") := Layer(map[], 1, Some(Snap("a", "d", "s")), true),
    Active("a", "d") := Layer(map[], 1, Some(Snap("a", "d", "t")), false)]

  const CHAIN_LINKS: Graph := map[
    Snap("a", "d", "s") := None, Snap("a", "d", "t") := Some(Snap("a", "d", "s")), Active("a", "d") := Some(Snap("a", "d", "t"))]

  const STOPPED := SnapshotDelete("a", "d", "s", RebaseStops({}))

  lemma ChainIsFine()
    ensures WellFormed(CHAIN) && SnapshotsFrozen(CHAIN) && Links(CHAIN) == CHAIN_LINKS
  {
    hide IsForest;
    ChainLinksAre();
    ChainIsForest();
  }

  lemma ChainLinksAre()
    ensures Links(CHAIN) == CHAIN_LINKS
  {
  }

  lemma ChainIsForest()
    ensures IsForest(CHAIN_LINKS)
  {
    hide IsForest;
    RankedIsForest(CHAIN_LINKS, map[Snap("a", "d", "s") := 0, Snap("a", "d", "t") := 1, Active("a", "d") := 2]);
  }

  lemma ChainStops()
    ensures Verdict(CHAIN_LINKS, STOPPED) == Err(ToolFailed)
  {
    assert Kids(CHAIN_LINKS, Snap("a", "d", "s")) == {Snap("a", "d", "t")};
    assert NameChars("a") && NameChars("d");
  }

  /** It does happen: deleting `s` with a rebase that stops leaves `t` writable;
      deleting `s` again freezes it. */
  lemma StoppedRebaseThaws()
    ensures WellFormed(CHAIN) && SnapshotsFrozen(CHAIN) && RebaseStopped(CHAIN, STOPPED)
    ensures !SnapshotsFrozen(Step(CHAIN, STOPPED))
    ensures SnapshotsFrozen(Step(Step(CHAIN, STOPPED), STOPPED.(rebase := Rebased({}))))
  {
    hide View, WellFormed, SnapshotsFrozen, Step, Verdict, Links;
    ChainIsFine();
    ChainStops();
    FrozenUnlessStopped(CHAIN, STOPPED);
    RetryAfterStop(CHAIN, STOPPED, {});
  }

  // ---- clones of another disk's snapshots ---------------------------------------

  /** Nothing but the snapshot tree's own children sits on snapshot `s`. */
  ghost predicate NoForeignUser(fs: Files, s: Path)
    requires s.Snap?
  {
    forall q :: q in Links(fs) && fs[q].backing == Some(s) ==> q in Kids(Links(fs), s)
  }

  /** Without the rule on clone bases: a deletion that goes through leaves every
      remaining layer readable, and as it was, exactly when no other disk was
      cloned from the deleted snapshot. */
  lemma DeleteSafeExactly(fs: Files, op: Op)
    requires IsForest(Links(fs)) && op.SnapshotDelete? && Verdict(Links(fs), op).Ok?
    ensures var fs' := Effect(fs, op);
            (forall q :: q in Links(fs') ==> Opens(fs', q) && View(fs', q) == View(fs, q))
            <==> NoForeignUser(fs, Snap(op.vm, op.disk, op.name))
  {
    var s, fs' := Snap(op.vm, op.disk, op.name), Effect(fs, op);
    if NoForeignUser(fs, s) {
      if Kids(Links(fs), s) == {} {
        DropKeepsViews(fs, {s});
      } else {
        assert |Kids(Links(fs), s) - {OnlyKid(fs, s)}| == 0;
        SquashKeepsViews(fs, s, OnlyKid(fs, s), op.rebase.others);
      }
    } else {
      var q :| q in Links(fs) && fs[q].backing == Some(s) && q !in Kids(Links(fs), s);
      ForeignUserBreaks(fs, op, q);
    }
  }

  lemma ForeignUserBreaks(fs: Files, op: Op, q: Path)
    requires IsForest(Links(fs)) && op.SnapshotDelete? && Verdict(Links(fs), op).Ok?
    requires var s := Snap(op.vm, op.disk, op.name);
             q in Links(fs) && fs[q].backing == Some(s) && q !in Kids(Links(fs), s)
    ensures q in Links(Effect(fs, op)) && !Opens(Effect(fs, op), q)
  {
    var s, fs' := Snap(op.vm, op.disk, op.name), Effect(fs, op);
    var rank := RankOf(fs);
    assert q != s && fs'[q] == fs[q];
    assert Links(fs')[q] == Some(s) && s !in Links(fs') - {q};
    assert !Rooted(Links(fs') - {q}, s);
  }

  /** Disk `b/d` cloned from snapshot `s` of disk `a/d`. */
  const CLONED: Files := map[
    Active("a", "d") := Layer(map[], 1, None, false),
    Snap("a", "d", "s") := Layer(map[], 1, None, true),
    Active("b", "d") := Layer(map[], 1, Some(Snap("a", "d", "s")), false)]

  const DELETION := SnapshotDelete("a", "d", "s", Rebased({}))

  lemma ClonedIsForest()
    ensures IsForest(Links(CLONED)) && Verdict(Links(CLONED), DELETION).Ok?
  {
    ClonedLinksAre();
    RankedIsForest(CLONED_LINKS, map[Active("a", "d") := 0, Snap("a", "d", "s") := 0, Active("b", "d") := 1]);
    ClonedDeletes();
  }

  const CLONED_LINKS: Graph := map[
    Active("a", "d") := None, Snap("a", "d", "s") := None, Active("b", "d") := Some(Snap("a", "d", "s"))]

  lemma ClonedLinksAre()
    ensures Links(CLONED) == CLONED_LINKS
  {
  }

  lemma ClonedDeletes()
    ensures Verdict(CLONED_LINKS, DELETION).Ok?
  {
    assert Kids(CLONED_LINKS, Snap("a", "d", "s")) == {};
    assert NameChars("a") && NameChars("d");
  }

  /** The rule is needed: a clone of a snapshot does not survive its deletion. */
  lemma CloneOfSnapshotBreaks()
    ensures IsForest(Links(CLONED)) && Verdict(Links(CLONED), DELETION).Ok?
    ensures Active("b", "d") in Effect(CLONED, DELETION) && !Opens(Effect(CLONED, DELETION), Active("b", "d"))
  {
    ClonedIsForest();
    ForeignUserBreaks(CLONED, DELETION, Active("b", "d"));
  }
}
