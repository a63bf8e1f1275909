/** The disk store itself: each operation as the source performs it, file by
    file, proved against the transitions of module Store. */
module DiskStores {
  import opened Forest
  import opened Layout
  import opened Layers
  import opened Store
  import opened Names
  import opened Guards

  datatype Result<+T> = Success(value: T) | Failure(error: Error)

  predicate Agrees<T>(r: Result<T>, o: Outcome) {
    match o
    case Ok => r.Success?
    case Err(e) => r == Failure(e)
  }

  function Told<T>(r: Result<T>): Outcome {
    match r
    case Success(_) => Ok
    case Failure(e) => Err(e)
  }

  /** One row of `snapshot_list`. */
  datatype Snapshot = Snapshot(name: string, path: Path, parent: Option<string>,
                               children: seq<string>, current: bool, size: nat)

  // ---- what a listing says ------------------------------------------------------

  /** `_snapshot_name_for`, on structured paths (see Layout.SnapshotNameForInverts). */
  function NameFor(vm: string, disk: string, backing: Option<Path>): Option<string> {
    if backing.Some? && backing.value.Snap? && backing.value.vm == vm && backing.value.disk == disk
    then Some(backing.value.name) else None
  }

  function SnapNames(fs: Files, vm: string, disk: string): (names: set<string>)
    ensures forall n :: n in names <==> Snap(vm, disk, n) in fs
  {
    set p | p in fs && p.Snap? && p.vm == vm && p.disk == disk :: p.name
  }

  function ParentName(fs: Files, vm: string, disk: string, name: string): Option<string>
    requires Snap(vm, disk, name) in fs
  {
    NameFor(vm, disk, fs[Snap(vm, disk, name)].backing)
  }

  type Tree = map<string, Option<string>>

  /** The parents as the snapshot tree has them: names of this disk, or none. */
  function TreeOf(fs: Files, vm: string, disk: string): (par: Tree)
    ensures par.Keys == SnapNames(fs, vm, disk)
  {
    map n | n in SnapNames(fs, vm, disk) ::
      var p := ParentName(fs, vm, disk, n);
      if p.Some? && p.value in SnapNames(fs, vm, disk) then p else None
  }

  lemma TreeOfIsForest(fs: Files, vm: string, disk: string)
    requires IsForest(Links(fs))
    ensures IsForest(TreeOf(fs, vm, disk))
  {
    hide IsForest;
    var r := RankOfNames(fs, vm, disk);
    RankedIsForest(TreeOf(fs, vm, disk), r);
  }

  lemma RankOfNames(fs: Files, vm: string, disk: string) returns (r: map<string, nat>)
    requires IsForest(Links(fs))
    ensures RanksDown(TreeOf(fs, vm, disk), r)
  {
    var rank := RankOf(fs);
    r := map n | n in SnapNames(fs, vm, disk) :: rank[Snap(vm, disk, n)];
  }

  /** Of `names`, in order, those whose parent is `name`. */
  function ChildrenIn(fs: Files, vm: string, disk: string, names: seq<string>, name: string): (r: seq<string>)
    requires forall n :: n in names ==> Snap(vm, disk, n) in fs
    ensures forall n :: n in r <==> n in names && ParentName(fs, vm, disk, n) == Some(name)
  {
    if names == [] then [] else
    var last := names[|names| - 1];
    ChildrenIn(fs, vm, disk, names[..|names| - 1], name) +
    if ParentName(fs, vm, disk, last) == Some(name) then [last] else []
  }

  function Row(fs: Files, vm: string, disk: string, names: seq<string>, name: string): Snapshot
    requires Snap(vm, disk, name) in fs && Active(vm, disk) in fs
    requires forall n :: n in names ==> Snap(vm, disk, n) in fs
  {
    Snapshot(name, Snap(vm, disk, name), ParentName(fs, vm, disk, name),
             ChildrenIn(fs, vm, disk, names, name),
             fs[Active(vm, disk)].backing == Some(Snap(vm, disk, name)),
             fs[Snap(vm, disk, name)].size)
  }

  /** The snapshots of a disk in file-name order. */
  function Listing(fs: Files, vm: string, disk: string): (rows: seq<Snapshot>)
    requires Active(vm, disk) in fs
    ensures |rows| == |SnapNames(fs, vm, disk)|
  {
    var names := Sorted(SnapNames(fs, vm, disk), EXT);
    seq(|names|, i requires 0 <= i < |names| => Row(fs, vm, disk, names, names[i]))
  }

  lemma ChildrenSnoc(fs: Files, vm: string, disk: string, names: seq<string>, last: string, name: string)
    requires Snap(vm, disk, last) in fs && forall n :: n in names ==> Snap(vm, disk, n) in fs
    ensures ChildrenIn(fs, vm, disk, names + [last], name) ==
            ChildrenIn(fs, vm, disk, names, name) + if ParentName(fs, vm, disk, last) == Some(name) then [last] else []
  {
    assert (names + [last])[..|names|] == names;
  }

  /** One row per name, with the children found among `done`. */
  ghost predicate RowsAre(fs: Files, vm: string, disk: string, done: seq<string>, names: seq<string>, rows: map<string, Snapshot>) {
    && Active(vm, disk) in fs
    && (forall n :: n in names ==> Snap(vm, disk, n) in fs)
    && (forall n :: n in done ==> n in names)
    && (forall n :: n in rows <==> n in names)
    && (forall n :: n in rows ==> rows[n] == Row(fs, vm, disk, done, n))
  }

  lemma RowsGrow(fs: Files, vm: string, disk: string, done: seq<string>, names: seq<string>, rows: map<string, Snapshot>, n: string)
    requires RowsAre(fs, vm, disk, done, names, rows) && n in names
    ensures var parent := rows[n].parent;
            RowsAre(fs, vm, disk, done + [n], names,
                    if parent.Some? && parent.value in rows
                    then rows[parent.value := rows[parent.value].(children := rows[parent.value].children + [n])]
                    else rows)
  {
    hide ChildrenIn, ParentName;
    var parent := rows[n].parent;
    var rows' := if parent.Some? && parent.value in rows
                 then rows[parent.value := rows[parent.value].(children := rows[parent.value].children + [n])] else rows;
    forall m | m in names ensures rows'[m] == Row(fs, vm, disk, done + [n], m) {
      RowGrows(fs, vm, disk, done, n, m);
    }
  }

  lemma RowGrows(fs: Files, vm: string, disk: string, done: seq<string>, n: string, m: string)
    requires Active(vm, disk) in fs && Snap(vm, disk, n) in fs && Snap(vm, disk, m) in fs && forall k :: k in done ==> Snap(vm, disk, k) in fs
    ensures var row := Row(fs, vm, disk, done, m);
            Row(fs, vm, disk, done + [n], m) ==
            if ParentName(fs, vm, disk, n) == Some(m) then row.(children := row.children + [n]) else row
  {
    hide ChildrenIn, ParentName;
    ChildrenSnoc(fs, vm, disk, done, n, m);
    assert ChildrenIn(fs, vm, disk, done, m) + [] == ChildrenIn(fs, vm, disk, done, m);
  }

  lemma RowsBegin(fs: Files, vm: string, disk: string, names: seq<string>, rows: map<string, Snapshot>)
    requires Active(vm, disk) in fs && (forall n :: n in names ==> Snap(vm, disk, n) in fs) && (forall n :: n in rows <==> n in names)
    requires forall n :: n in rows ==> rows[n] == Row(fs, vm, disk, [], n)
    ensures RowsAre(fs, vm, disk, names[..0], names, rows)
  {
    hide Row;
  }

  lemma RowsNamed(fs: Files, vm: string, disk: string, done: seq<string>, names: seq<string>, rows: map<string, Snapshot>, n: string)
    requires RowsAre(fs, vm, disk, done, names, rows) && n in names
    ensures n in rows && rows[n].name == n
  {
  }

  lemma RowsEnd(fs: Files, vm: string, disk: string, names: seq<string>, rows: map<string, Snapshot>)
    requires RowsAre(fs, vm, disk, names, names, rows)
    ensures Active(vm, disk) in fs && (forall n :: n in names ==> Snap(vm, disk, n) in fs) && (forall n :: n in rows <==> n in names)
    ensures forall n :: n in rows ==> rows[n] == Row(fs, vm, disk, names, n)
  {
    hide Row;
  }

  /** Strictly increasing by file name. */
  predicate InOrder(r: seq<string>) {
    Increasing(r, EXT)
  }

  lemma {:induction false} ChildrenInOrder(fs: Files, vm: string, disk: string, names: seq<string>, name: string)
    requires (forall n :: n in names ==> Snap(vm, disk, n) in fs) && InOrder(names)
    ensures InOrder(ChildrenIn(fs, vm, disk, names, name))
    decreases |names|
  {
    if names != [] {
      var init, last := names[..|names| - 1], names[|names| - 1];
      ChildrenInOrder(fs, vm, disk, init, name);
      var r := ChildrenIn(fs, vm, disk, init, name);
      forall i | 0 <= i < |r| ensures r[i] != last && FileLe(r[i], last, EXT) {
        assert r[i] in init;
        var k :| 0 <= k < |init| && init[k] == r[i];
        assert names[k] == r[i];
      }
    }
  }

  lemma {:induction false} DistinctSize<T>(r: seq<T>, s: set<T>)
    requires forall x :: x in r <==> x in s
    requires forall i, j :: 0 <= i < j < |r| ==> r[i] != r[j]
    ensures |r| == |s|
    decreases |r|
  {
    if r != [] {
      var x, rest := r[|r| - 1], r[..|r| - 1];
      forall y ensures y in rest <==> y in s - {x} {
        assert y in r <==> y in rest || y == x;
      }
      DistinctSize(rest, s - {x});
    } else {
      assert s == {};
    }
  }

  /** The children a row lists are the snapshots whose parent it is: each once,
      in file-name order, and as many as the links say. */
  lemma RowChildren(fs: Files, vm: string, disk: string, name: string)
    requires Active(vm, disk) in fs && Snap(vm, disk, name) in fs
    ensures var kids := ChildrenIn(fs, vm, disk, Sorted(SnapNames(fs, vm, disk), EXT), name);
            && (forall n :: n in kids <==> Snap(vm, disk, n) in Kids(Links(fs), Snap(vm, disk, name)))
            && InOrder(kids)
            && |kids| == |Kids(Links(fs), Snap(vm, disk, name))|
  {
    var names := Sorted(SnapNames(fs, vm, disk), EXT);
    SortedInOrder(SnapNames(fs, vm, disk), EXT);
    ChildrenInOrder(fs, vm, disk, names, name);
    ChildrenAreKids(fs, vm, disk, names, name);
    KidsCounted(vm, disk, ChildrenIn(fs, vm, disk, names, name), Kids(Links(fs), Snap(vm, disk, name)));
  }

  lemma ChildrenAreKids(fs: Files, vm: string, disk: string, names: seq<string>, name: string)
    requires forall n :: n in names <==> Snap(vm, disk, n) in fs
    ensures forall n :: n in ChildrenIn(fs, vm, disk, names, name) <==>
                        Snap(vm, disk, n) in Kids(Links(fs), Snap(vm, disk, name))
  {
  }

  lemma KidsCounted(vm: string, disk: string, kids: seq<string>, paths: set<Path>)
    requires forall p :: p in paths ==> p.Snap? && p.vm == vm && p.disk == disk
    requires forall n :: n in kids <==> Snap(vm, disk, n) in paths
    requires InOrder(kids)
    ensures |kids| == |paths|
  {
    var r := seq(|kids|, i requires 0 <= i < |kids| => Snap(vm, disk, kids[i]));
    forall p ensures p in r <==> p in paths {
      if p in paths {
        var i :| 0 <= i < |kids| && kids[i] == p.name;
        assert r[i] == p;
      }
    }
    DistinctSize(r, paths);
  }

  /** What a listing says, row by row: every snapshot once, in file-name order, its
      parent and children as the backing links have them, the size it shows, and
      the mark at the one the active disk sits on. */
  lemma ListingIs(fs: Files, vm: string, disk: string)
    requires Active(vm, disk) in fs
    ensures var rows := Listing(fs, vm, disk);
            && (forall n :: Snap(vm, disk, n) in fs <==> exists i :: 0 <= i < |rows| && rows[i].name == n)
            && (forall i, j :: 0 <= i < j < |rows| ==> rows[i].name != rows[j].name && FileLe(rows[i].name, rows[j].name, EXT))
            && (forall i :: 0 <= i < |rows| ==> RowIs(fs, vm, disk, rows[i]))
  {
    hide Sorted, Row, RowIs;
    var names, rows := Sorted(SnapNames(fs, vm, disk), EXT), Listing(fs, vm, disk);
    SortedInOrder(SnapNames(fs, vm, disk), EXT);
    forall i | 0 <= i < |rows| ensures rows[i].name == names[i] && RowIs(fs, vm, disk, rows[i]) {
      assert names[i] in names;
      RowIsRight(fs, vm, disk, names[i]);
    }
    forall n | Snap(vm, disk, n) in fs ensures exists i :: 0 <= i < |rows| && rows[i].name == n {
      var i :| 0 <= i < |names| && names[i] == n;
      assert rows[i].name == n;
    }
    forall i | 0 <= i < |rows| ensures Snap(vm, disk, rows[i].name) in fs { assert names[i] in names; }
  }

  ghost predicate RowIs(fs: Files, vm: string, disk: string, row: Snapshot) {
    && Active(vm, disk) in fs && row.path == Snap(vm, disk, row.name) && row.path in fs
    && (forall p :: row.parent == Some(p) <==> TakenOn(fs, vm, disk, row.name, p))
    && (forall k :: k in row.children <==> TakenOn(fs, vm, disk, k, row.name)) && InOrder(row.children)
    && (row.current <==> fs[Active(vm, disk)].backing == Some(row.path))
    && row.size == |View(fs, row.path)|
  }

  lemma RowIsRight(fs: Files, vm: string, disk: string, name: string)
    requires Active(vm, disk) in fs && Snap(vm, disk, name) in fs
    ensures var row := Row(fs, vm, disk, Sorted(SnapNames(fs, vm, disk), EXT), name); row.name == name && RowIs(fs, vm, disk, row)
  {
    hide Sorted, View, ChildrenIn, Kids;
    RowChildren(fs, vm, disk, name);
    ViewSize(fs, Snap(vm, disk, name));
    forall k ensures Snap(vm, disk, k) in Kids(Links(fs), Snap(vm, disk, name)) <==> TakenOn(fs, vm, disk, k, name) {
      KidIsTakenOn(fs, vm, disk, Snap(vm, disk, k), name);
    }
  }

  lemma TreeParentIs(fs: Files, vm: string, disk: string, name: string)
    requires Snap(vm, disk, name) in fs
    ensures TreeParent(Links(fs), Snap(vm, disk, name)) ==
            match ParentName(fs, vm, disk, name) case None => None case Some(m) => Some(Snap(vm, disk, m))
  {
  }

  /** What a clone is made of: the file itself if it exists, and the shared image
      of that name otherwise. */
  function BaseFor(fs: Files, given: Path, text: string): Path {
    if given in fs then given else Image(text + EXT)
  }

  class DiskStore {
    var fs: Files

    constructor (files: Files)
      ensures fs == files
    {
      fs := files;
    }

    method CreateDisk(vm: string, disk: string, size: nat, works: bool) returns (r: Result<Path>)
      modifies this
      ensures fs == Step(old(fs), Op.CreateDisk(vm, disk, size, works))
      ensures Agrees(r, Verdict(Links(old(fs)), Op.CreateDisk(vm, disk, size, works)))
      ensures Answers(old(fs), Op.CreateDisk(vm, disk, size, works), Told(r))
    {
      hide Answers;
      StoreAnswers(fs, Op.CreateDisk(vm, disk, size, works));
      if !ValidName(vm) || !ValidName(disk) { return Failure(InvalidConfig); }
      var path := Active(vm, disk);
      if path in fs { return Failure(AlreadyExists); }
      if !works { return Failure(ToolFailed); }
      fs := fs[path := Layer(map[], size, None, false)];
      return Success(path);
    }

    /** A linked clone of a file, or of a shared image given by its name. `given`
        is the file the text names as a path. */
    method CloneDisk(given: Path, text: string, vm: string, disk: string, size: Option<nat>, works: bool) returns (r: Result<Path>)
      requires !given.Reverting?
      modifies this
      ensures fs == Step(old(fs), Op.CloneDisk(BaseFor(old(fs), given, text), vm, disk, size, works))
      ensures Agrees(r, Verdict(Links(old(fs)), Op.CloneDisk(BaseFor(old(fs), given, text), vm, disk, size, works)))
      ensures Answers(old(fs), Op.CloneDisk(BaseFor(old(fs), given, text), vm, disk, size, works), Told(r))
      ensures r == Failure(NotFound) <==> given !in old(fs) && Image(text + EXT) !in old(fs)
      ensures r.Success? ==> Active(vm, disk) in fs && fs[Active(vm, disk)].backing == Some(if given in old(fs) then given else Image(text + EXT))
    {
      hide Answers;
      StoreAnswers(fs, Op.CloneDisk(BaseFor(fs, given, text), vm, disk, size, works));
      var base := given;
      if base !in fs {
        var candidate := Image(text + EXT);
        if candidate !in fs { return Failure(NotFound); }
        base := candidate;
      }
      if !works { return Failure(ToolFailed); }
      if !ValidName(vm) || !ValidName(disk) { return Failure(InvalidConfig); }
      var dst := Active(vm, disk);
      if dst in fs { return Failure(AlreadyExists); }
      fs := fs[dst := NewOverlay(fs, base, size)];
      return Success(dst);
    }

    method DeleteDisk(vm: string, disk: string, force: bool) returns (r: Result<()>)
      modifies this
      ensures fs == Step(old(fs), Op.DeleteDisk(vm, disk, force))
      ensures Agrees(r, Verdict(Links(old(fs)), Op.DeleteDisk(vm, disk, force)))
      ensures Answers(old(fs), Op.DeleteDisk(vm, disk, force), Told(r))
    {
      hide Answers;
      StoreAnswers(fs, Op.DeleteDisk(vm, disk, force));
      if !ValidName(vm) || !ValidName(disk) { return Failure(InvalidConfig); }
      var path := Active(vm, disk);
      if path !in fs { return Failure(NotFound); }
      var snapDir := SnapsOf(Links(fs), vm, disk);
      if snapDir != {} && !force { return Failure(InvalidState); }
      fs := fs - {path};
      fs := fs - snapDir;
      assert fs == old(fs) - (snapDir + {path});
      return Success(());
    }

    /** Freeze the active overlay as `name` and start a fresh one on it. The
        disk keeps its content, the snapshot has it too, and whichever tool call
        fails the rename is undone. */
    method SnapshotCreate(vm: string, disk: string, name: string, run: CreateRun) returns (r: Result<Snapshot>)
      modifies this
      ensures fs == Step(old(fs), Op.SnapshotCreate(vm, disk, name, run))
      ensures Agrees(r, Verdict(Links(old(fs)), Op.SnapshotCreate(vm, disk, name, run)))
      ensures Answers(old(fs), Op.SnapshotCreate(vm, disk, name, run), Told(r))
      ensures r.Success? ==> r.value == Row(fs, vm, disk, [], name)
    {
      hide View, Answers;
      StoreAnswers(fs, Op.SnapshotCreate(vm, disk, name, run));
      if !ValidName(vm) || !ValidName(disk) { return Failure(InvalidConfig); }
      var active := Active(vm, disk);
      if active !in fs { return Failure(NotFound); }
      if !ValidName(name) { return Failure(InvalidConfig); }
      var snap := Snap(vm, disk, name);
      if snap in fs { return Failure(AlreadyExists); }
      if run.InfoFails? { return Failure(ToolFailed); }
      var info := fs[active];
      fs := (fs - {active})[snap := fs[active]];                // rename
      fs := fs[snap := fs[snap].(readonly := true)];            // chmod 0444
      if run.CreateFails? {
        fs := PutFile(fs, active, run.leftover);
        fs := fs[snap := fs[snap].(readonly := false)];         // chmod 0644
        fs := (fs - {snap})[active := fs[snap]];                // rename over the leftover
        assert fs == old(fs)[active := info.(readonly := false)];
        return Failure(ToolFailed);
      }
      assert fs == (old(fs) - {active})[snap := info.(readonly := true)];
      fs := fs[active := NewOverlay(fs, snap, None)];
      assert fs == Frozen(old(fs), vm, disk, name);
      return Success(Snapshot(name, snap, NameFor(vm, disk, info.backing), [], true, info.size));
    }

    /** Build the snapshot tree from the backing links. */
    method SnapshotList(vm: string, disk: string, infoWorks: bool) returns (r: Result<seq<Snapshot>>)
      ensures Agrees(r, if !ValidName(vm) || !ValidName(disk) then Err(InvalidConfig)
                        else if Active(vm, disk) !in fs then Err(NotFound)
                        else if !infoWorks then Err(ToolFailed) else Ok)
      ensures r.Success? ==> r.value == Listing(fs, vm, disk)
    {
      hide ChildrenIn, SnapNames, Sorted;
      if !ValidName(vm) || !ValidName(disk) { return Failure(InvalidConfig); }
      if Active(vm, disk) !in fs { return Failure(NotFound); }
      if !infoWorks { return Failure(ToolFailed); }
      var names := Sorted(SnapNames(fs, vm, disk), EXT);
      var snapshots := ReadRows(vm, disk, names);
      snapshots := FillChildren(vm, disk, names, snapshots);
      var rows := seq(|names|, i requires 0 <= i < |names| => snapshots[names[i]]);
      ghost var listing := Listing(fs, vm, disk);
      forall i | 0 <= i < |names| ensures rows[i] == listing[i] {
        assert names[i] in names;
      }
      return Success(rows);
    }

    /** The first loop of `snapshot_list`: one row per file, no children yet. */
    method ReadRows(vm: string, disk: string, names: seq<string>) returns (snapshots: map<string, Snapshot>)
      requires Active(vm, disk) in fs && forall n :: n in names ==> Snap(vm, disk, n) in fs
      ensures forall n :: n in snapshots <==> n in names
      ensures forall n :: n in snapshots ==> snapshots[n] == Row(fs, vm, disk, [], n)
    {
      var current := NameFor(vm, disk, fs[Active(vm, disk)].backing);
      snapshots := map[];
      for i := 0 to |names|
        invariant forall n :: n in snapshots <==> n in names[..i]
        invariant forall n :: n in snapshots ==> n in names && snapshots[n] == Row(fs, vm, disk, [], n)
      {
        var n := names[i];
        var path := Snap(vm, disk, n);
        snapshots := snapshots[n := Snapshot(n, path, NameFor(vm, disk, fs[path].backing), [],
                                             current == Some(n), fs[path].size)];
      }
    }

    /** The second loop: every row is appended to its parent's children. */
    method FillChildren(vm: string, disk: string, names: seq<string>, rows: map<string, Snapshot>)
      returns (snapshots: map<string, Snapshot>)
      requires Active(vm, disk) in fs && forall n :: n in names ==> Snap(vm, disk, n) in fs
      requires forall n :: n in rows <==> n in names
      requires forall n :: n in rows ==> rows[n] == Row(fs, vm, disk, [], n)
      ensures forall n :: n in snapshots <==> n in names
      ensures forall n :: n in snapshots ==> snapshots[n] == Row(fs, vm, disk, names, n)
    {
      hide ChildrenIn, Row, RowsAre;
      snapshots := rows;
      RowsBegin(fs, vm, disk, names, rows);
      for i := 0 to |names|
        invariant RowsAre(fs, vm, disk, names[..i], names, snapshots)
      {
        RowsNamed(fs, vm, disk, names[..i], names, snapshots, names[i]);
        var snap := snapshots[names[i]];
        ghost var before := snapshots;
        if snap.parent.Some? && snap.parent.value in snapshots {
          var parent := snapshots[snap.parent.value];
          snapshots := snapshots[snap.parent.value := parent.(children := parent.children + [snap.name])];
        }
        RowsGrow(fs, vm, disk, names[..i], names, before, names[i]);
        assert names[..i + 1] == names[..i] + [names[i]];
      }
      assert names[..|names|] == names;
      RowsEnd(fs, vm, disk, names, snapshots);
    }

    /** `_get_snapshot`. */
    method GetSnapshot(vm: string, disk: string, name: string, infoWorks: bool) returns (r: Result<Snapshot>)
      ensures Agrees(r, if !ValidName(vm) || !ValidName(disk) then Err(InvalidConfig)
                        else if Active(vm, disk) !in fs then Err(NotFound)
                        else if !infoWorks then Err(ToolFailed)
                        else if Snap(vm, disk, name) !in fs then Err(NotFound) else Ok)
      ensures r.Success? ==>
                && r.value.path == Snap(vm, disk, name)
                && r.value.parent == ParentName(fs, vm, disk, name)
                && (r.value.current <==> fs[Active(vm, disk)].backing == Some(r.value.path))
                && |r.value.children| == |Kids(Links(fs), r.value.path)|
                && forall n :: n in r.value.children <==> Snap(vm, disk, n) in Kids(Links(fs), r.value.path)
    {
      hide Sorted;
      hide ChildrenIn;
      var list := SnapshotList(vm, disk, infoWorks);
      if list.Failure? { return Failure(list.error); }
      var rows := list.value;
      ghost var names := Sorted(SnapNames(fs, vm, disk), EXT);
      for i := 0 to |rows|
        invariant name !in names[..i]
      {
        if rows[i].name == name {
          RowChildren(fs, vm, disk, name);
          return Success(rows[i]);
        }
      }
      assert names[..|names|] == names;
      return Failure(NotFound);
    }

    /** Discard the active overlay and branch a fresh one from `name`. */
    method SnapshotRevert(vm: string, disk: string, name: string, run: CreateRun) returns (r: Result<()>)
      modifies this
      ensures fs == Step(old(fs), Op.SnapshotRevert(vm, disk, name, run))
      ensures Agrees(r, Verdict(Links(old(fs)), Op.SnapshotRevert(vm, disk, name, run)))
      ensures Answers(old(fs), Op.SnapshotRevert(vm, disk, name, run), Told(r))
    {
      hide View, Answers;
      StoreAnswers(fs, Op.SnapshotRevert(vm, disk, name, run));
      if !ValidName(vm) || !ValidName(disk) { return Failure(InvalidConfig); }
      var active := Active(vm, disk);
      if active !in fs { return Failure(NotFound); }
      var found := GetSnapshot(vm, disk, name, !run.InfoFails?);
      if found.Failure? { return Failure(found.error); }
      var tmp := Reverting(vm, disk);
      if run.CreateFails? {
        fs := PutFile(fs, tmp, run.leftover);
        return Failure(ToolFailed);
      }
      fs := fs[tmp := NewOverlay(fs, found.value.path, None)];
      fs := (fs - {tmp})[active := fs[tmp]];                    // tmp.replace(active)
      assert fs == (old(fs) - {tmp})[active := NewOverlay(old(fs), Snap(vm, disk, name), None)];
      return Success(());
    }

    /** Thaw the child, rebase it onto the grandparent, freeze it again. */
    method RebaseChild(path: Path, grandparent: Option<Path>, run: RebaseRun) returns (done: bool)
      requires path in fs && !run.ListFails?
      modifies this
      ensures done <==> run.Rebased?
      ensures fs == old(fs)[path := if done then SafeRebase(old(fs), path, grandparent, run.others).(readonly := true)
                            else Pull(old(fs)[path], run.pulled, Under(old(fs), old(fs)[path].backing)).(readonly := false)]
    {
      hide View;
      ModeDoesNotShow(fs, path, fs[path].backing);
      ModeDoesNotShow(fs, path, grandparent);
      fs := fs[path := fs[path].(readonly := false)];           // chmod 0644
      if run.RebaseStops? {
        fs := fs[path := Pull(fs[path], run.pulled, Under(fs, fs[path].backing))];
        return false;
      }
      fs := fs[path := SafeRebase(fs, path, grandparent, run.others)];
      fs := fs[path := fs[path].(readonly := true)];            // chmod 0444
      return true;
    }

    /** Remove a leaf, or squash a snapshot into its only child. */
    method SnapshotDelete(vm: string, disk: string, name: string, run: RebaseRun) returns (r: Result<()>)
      modifies this
      ensures fs == Step(old(fs), Op.SnapshotDelete(vm, disk, name, run))
      ensures Agrees(r, Verdict(Links(old(fs)), Op.SnapshotDelete(vm, disk, name, run)))
      ensures Answers(old(fs), Op.SnapshotDelete(vm, disk, name, run), Told(r))
    {
      hide View, ValidName, SafeRebase, Pull, Under, Kids, ParentName, TreeParent, Answers;
      StoreAnswers(fs, Op.SnapshotDelete(vm, disk, name, run));
      var found := GetSnapshot(vm, disk, name, !run.ListFails?);
      if found.Failure? { return Failure(found.error); }
      var snap := found.value;
      if snap.current { return Failure(InvalidState); }
      if |snap.children| > 0 {
        if |snap.children| > 1 { return Failure(InvalidState); }
        var child := GetSnapshot(vm, disk, snap.children[0], true);
        ghost var kids := Kids(Links(fs), snap.path);
        assert snap.children[0] in snap.children;
        OnlyChild(fs, snap.path, child.value.path);
        TreeParentIs(fs, vm, disk, name);
        var grandparent: Option<Path> := None;
        if snap.parent.Some? {
          var g := GetSnapshot(vm, disk, snap.parent.value, true);
          if g.Failure? { return Failure(g.error); }
          grandparent := Some(g.value.path);
        }
        assert grandparent == TreeParent(Links(fs), snap.path);
        var done := RebaseChild(child.value.path, grandparent, run);
        if !done { return Failure(ToolFailed); }
      }
      fs := fs - {snap.path};
      return Success(());
    }
  }
}
