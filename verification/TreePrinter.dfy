/** `snapshot_tree` itself: the recursive walk and the two loops, and what the
    text they make says. */
module TreePrinters {
  import opened Forest
  import opened Layout
  import opened Layers
  import opened Store
  import opened Names
  import opened DiskStores
  import opened SnapshotTrees
  import opened TreeTexts

  /** The rows hold the tree: `s.parent not in snaps` marks the roots, and the
      children a row lists are the tree's. */
  ghost predicate Holds(par: Tree, cur: Option<string>, snaps: map<string, Snapshot>) {
    && snaps.Keys == par.Keys
    && (forall n :: n in snaps ==> (snaps[n].current <==> cur == Some(n)))
    && (forall n :: n in snaps ==> (set k | k in snaps[n].children) == ChildSet(par, n))
    && (set n | n in snaps && (snaps[n].parent.None? || snaps[n].parent.value !in snaps)) == RootSet(par)
  }

  lemma KidLinesUnfold(par: Tree, cur: Option<string>, n: string, kids: seq<string>, i: nat, prefix: string)
    requires IsForest(par) && n in par && i < |kids| && forall k :: k in kids ==> k in ChildSet(par, n)
    ensures kids[i] in par && Room(par, kids[i]) < Room(par, n)
    ensures var last := i == |kids| - 1;
            KidLines(par, cur, n, kids[i..], prefix) ==
            [Line(prefix + if last then LAST else FORK, kids[i], cur == Some(kids[i]))] +
            LinesBelow(par, cur, kids[i], prefix + if last then "    " else "|   ") +
            KidLines(par, cur, n, kids[i + 1..], prefix)
  {
    assert kids[i] in kids;
    ChildHasLessRoom(par, n, kids[i]);
    assert kids[i..][0] == kids[i] && kids[i..][1..] == kids[i + 1..];
  }

  lemma KidLinesEnd(par: Tree, cur: Option<string>, n: string, kids: seq<string>, prefix: string)
    requires IsForest(par) && n in par
    ensures KidLines(par, cur, n, kids[|kids|..], prefix) == []
  {
  }

  lemma BelowIsKids(par: Tree, cur: Option<string>, n: string, prefix: string)
    requires IsForest(par) && n in par
    ensures LinesBelow(par, cur, n, prefix) == KidLines(par, cur, n, Sorted(ChildSet(par, n), "")[0..], prefix)
  {
    var kids := Sorted(ChildSet(par, n), "");
    assert kids[0..] == kids;
  }

  lemma RootLinesUnfold(par: Tree, cur: Option<string>, roots: seq<string>, i: nat)
    requires IsForest(par) && i < |roots| && forall r :: r in roots ==> r in par
    ensures roots[i] in par
    ensures RootLines(par, cur, roots[i..]) ==
            [Line("", roots[i], cur == Some(roots[i]))] + LinesBelow(par, cur, roots[i], "") + RootLines(par, cur, roots[i + 1..])
  {
    assert roots[i] in roots;
    assert roots[i..][0] == roots[i] && roots[i..][1..] == roots[i + 1..];
  }

  lemma RootLinesEnd(par: Tree, cur: Option<string>, roots: seq<string>)
    requires IsForest(par)
    ensures RootLines(par, cur, roots[|roots|..]) == []
  {
  }

  ghost predicate RowHolds(fs: Files, vm: string, disk: string, n: string, row: Snapshot) {
    && Active(vm, disk) in fs && Snap(vm, disk, n) in fs && row.name == n
    && row.parent == ParentName(fs, vm, disk, n)
    && (row.current <==> NameFor(vm, disk, fs[Active(vm, disk)].backing) == Some(n))
    && (set k | k in row.children) == ChildSet(TreeOf(fs, vm, disk), n)
  }

  lemma ListingHolds(fs: Files, vm: string, disk: string, i: nat)
    requires Active(vm, disk) in fs && i < |Listing(fs, vm, disk)|
    ensures var row := Listing(fs, vm, disk)[i]; var names := Sorted(SnapNames(fs, vm, disk), EXT);
            i < |names| && row.name == names[i] && RowHolds(fs, vm, disk, names[i], row)
  {
    hide Sorted;
    var names := Sorted(SnapNames(fs, vm, disk), EXT);
    assert names[i] in names;
  }

  lemma RowsHold(fs: Files, vm: string, disk: string, snaps: map<string, Snapshot>)
    requires Active(vm, disk) in fs && snaps.Keys == SnapNames(fs, vm, disk)
    requires forall n :: n in snaps ==> RowHolds(fs, vm, disk, n, snaps[n])
    ensures Holds(TreeOf(fs, vm, disk), NameFor(vm, disk, fs[Active(vm, disk)].backing), snaps)
  {
    hide NameFor, ParentName;
  }

  lemma Regroup(a: seq<Line>, b: seq<Line>, c: seq<Line>, d: seq<Line>)
    ensures a + (b + c + d) == a + b + c + d
  {
  }

  class TreePrinter {
    var lines: seq<Line>

    constructor ()
      ensures lines == []
    {
      lines := [];
    }

    /** The inner `walk`: appends the lines below `name`. */
    method Walk(snaps: map<string, Snapshot>, name: string, prefix: string, ghost par: Tree, ghost cur: Option<string>)
      requires IsForest(par) && Holds(par, cur, snaps) && name in snaps
      modifies this
      ensures lines == old(lines) + LinesBelow(par, cur, name, prefix)
      decreases Room(par, name)
    {
      hide Sorted, KidLines, LinesBelow, IsForest, Room;
      BelowIsKids(par, cur, name, prefix);
      var children := Sorted(set k | k in snaps[name].children, "");
      ghost var all := old(lines) + LinesBelow(par, cur, name, prefix);
      for i := 0 to |children|
        invariant all == lines + KidLines(par, cur, name, children[i..], prefix)
      {
        KidLinesUnfold(par, cur, name, children, i, prefix);
        var last := i == |children| - 1;
        var child := children[i];
        var line, deeper := Line(prefix + if last then LAST else FORK, child, snaps[child].current), prefix + if last then "    " else "|   ";
        Regroup(lines, [line], LinesBelow(par, cur, child, deeper), KidLines(par, cur, name, children[i + 1..], prefix));
        lines := lines + [line];
        Walk(snaps, child, deeper, par, cur);
      }
      KidLinesEnd(par, cur, name, children, prefix);
    }

    method PrintRoots(snaps: map<string, Snapshot>, ghost par: Tree, ghost cur: Option<string>)
      requires IsForest(par) && Holds(par, cur, snaps) && lines == []
      modifies this
      ensures lines == TreeLines(par, cur)
    {
      hide Sorted, LinesBelow, IsForest, RootLines;
      var roots := Sorted(set n | n in snaps && (snaps[n].parent.None? || snaps[n].parent.value !in snaps), "");
      assert roots[0..] == roots;
      ghost var all := TreeLines(par, cur);
      for i := 0 to |roots|
        invariant all == lines + RootLines(par, cur, roots[i..])
      {
        RootLinesUnfold(par, cur, roots, i);
        var line := Line("", roots[i], snaps[roots[i]].current);
        Regroup(lines, [line], LinesBelow(par, cur, roots[i], ""), RootLines(par, cur, roots[i + 1..]));
        lines := lines + [line];
        Walk(snaps, roots[i], "", par, cur);
      }
      RootLinesEnd(par, cur, roots);
    }

    /** `snapshot_tree`: the roots in name order, each with its tree. It ends
        because no chain of the disk's snapshots is a cycle. */
    method SnapshotTree(store: DiskStore, vm: string, disk: string) returns (r: Result<string>)
      requires IsForest(TreeOf(store.fs, vm, disk)) && lines == []
      modifies this
      ensures Agrees(r, if !ValidName(vm) || !ValidName(disk) then Err(InvalidConfig)
                        else if Active(vm, disk) !in store.fs then Err(NotFound) else Ok)
      ensures r.Success? ==>
                && Active(vm, disk) in store.fs
                && lines == TreeLines(TreeOf(store.fs, vm, disk), NameFor(vm, disk, store.fs[Active(vm, disk)].backing))
                && Shows(TreeOf(store.fs, vm, disk), NameFor(vm, disk, store.fs[Active(vm, disk)].backing), r.value)
    {
      hide Sorted, TreeOf, NameFor, ParentName, Listing, ValidName, IsForest, Shows, Rendered;
      var list := store.SnapshotList(vm, disk, true);
      if list.Failure? { return Failure(list.error); }
      var rows := list.value;
      var snaps: map<string, Snapshot> := map[];
      ghost var fs, names := store.fs, Sorted(SnapNames(store.fs, vm, disk), EXT);
      for i := 0 to |rows|
        invariant lines == [] && fs == store.fs
        invariant forall n :: n in snaps <==> n in names[..i]
        invariant forall n :: n in snaps ==> RowHolds(fs, vm, disk, n, snaps[n])
      {
        ListingHolds(fs, vm, disk, i);
        snaps := snaps[rows[i].name := rows[i]];
      }
      assert names[..|rows|] == names;
      RowsHold(fs, vm, disk, snaps);
      PrintRoots(snaps, TreeOf(fs, vm, disk), NameFor(vm, disk, fs[Active(vm, disk)].backing));
      TextShows(TreeOf(fs, vm, disk), NameFor(vm, disk, fs[Active(vm, disk)].backing));
      return Success(Rendered(lines));
    }
  }
}
