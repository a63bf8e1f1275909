/** `snapshot_tree`: the snapshot forest of one disk as indented text. */
module SnapshotTrees {
  import opened Forest
  import opened Layout
  import opened Layers
  import opened Store
  import opened Names
  import opened DiskStores
  import opened Splitting

  /** One line: what is drawn before the name, the name, and whether it is the
      base of the active disk. */
  datatype Line = Line(prefix: string, name: string, current: bool)

  function Text(l: Line): string {
    l.prefix + l.name + if l.current then " *" else ""
  }

  function Texts(ls: seq<Line>): (ts: seq<string>)
    ensures |ts| == |ls| && forall i :: 0 <= i < |ts| ==> ts[i] == Text(ls[i])
  {
    seq(|ls|, i requires 0 <= i < |ls| => Text(ls[i]))
  }

  /** What `snapshot_tree` returns for its list of lines. */
  function Rendered(ls: seq<Line>): string {
    if ls == [] then "(no snapshots)" else Joined(Texts(ls), '\n')
  }

  function ChildSet(par: Tree, n: string): (s: set<string>)
    ensures forall m :: m in s <==> m in par && par[m] == Some(n)
  {
    set m | m in par && par[m] == Some(n)
  }

  function RootSet(par: Tree): (s: set<string>)
    ensures forall m :: m in s <==> m in par && par[m] == None
  {
    set m | m in par && par[m] == None
  }

  ghost function Room(par: Tree, n: string): nat {
    if |Lineage(par, n)| <= |par| then |par| - |Lineage(par, n)| else 0
  }

  lemma ChildHasLessRoom(par: Tree, n: string, k: string)
    requires IsForest(par) && k in ChildSet(par, n)
    ensures n in par && Room(par, k) < Room(par, n)
    ensures Lineage(par, k) == [k] + Lineage(par, n)
  {
    Unfold(par, k);
    LineageEndsAtRoot(par, k);
    LineageEndsAtRoot(par, n);
  }

  const FORK := "|-- "
  const LAST := "`-- "

  /** Everything below `n`, in pre-order, children in name order. */
  ghost function LinesBelow(par: Tree, cur: Option<string>, n: string, prefix: string): seq<Line>
    requires IsForest(par) && n in par
    decreases Room(par, n), 1, 0
  {
    KidLines(par, cur, n, Sorted(ChildSet(par, n), ""), prefix)
  }

  ghost function KidLines(par: Tree, cur: Option<string>, n: string, kids: seq<string>, prefix: string): seq<Line>
    requires IsForest(par) && n in par && forall k :: k in kids ==> k in ChildSet(par, n)
    decreases Room(par, n), 0, |kids|
  {
    if kids == [] then [] else
    assert kids[0] in kids;
    ChildHasLessRoom(par, n, kids[0]);
    [Line(prefix + if |kids| == 1 then LAST else FORK, kids[0], cur == Some(kids[0]))] +
    LinesBelow(par, cur, kids[0], prefix + if |kids| == 1 then "    " else "|   ") +
    KidLines(par, cur, n, kids[1..], prefix)
  }

  ghost function RootLines(par: Tree, cur: Option<string>, roots: seq<string>): seq<Line>
    requires IsForest(par) && forall r :: r in roots ==> r in par
  {
    if roots == [] then [] else
    assert roots[0] in roots;
    [Line("", roots[0], cur == Some(roots[0]))] + LinesBelow(par, cur, roots[0], "") + RootLines(par, cur, roots[1..])
  }

  ghost function TreeLines(par: Tree, cur: Option<string>): seq<Line>
    requires IsForest(par)
  {
    RootLines(par, cur, Sorted(RootSet(par), ""))
  }

  // ---- every snapshot exactly once ------------------------------------------------------

  ghost function Count(ls: seq<Line>, m: string): nat {
    if ls == [] then 0 else (if ls[0].name == m then 1 else 0) + Count(ls[1..], m)
  }

  lemma {:induction false} CountAppend(a: seq<Line>, b: seq<Line>, m: string)
    ensures Count(a + b, m) == Count(a, m) + Count(b, m)
    decreases |a|
  {
    if a == [] {
      assert a + b == b;
    } else {
      assert (a + b)[1..] == a[1..] + b;
      CountAppend(a[1..], b, m);
    }
  }

  /** How many of `kids` are `m` or an ancestor of `m`. */
  ghost function Above(par: Tree, kids: seq<string>, m: string): nat {
    if kids == [] then 0 else (if kids[0] in Lineage(par, m) then 1 else 0) + Above(par, kids[1..], m)
  }

  lemma {:induction false} CountBelow(par: Tree, cur: Option<string>, n: string, prefix: string, m: string)
    requires IsForest(par) && n in par && m in par
    ensures Count(LinesBelow(par, cur, n, prefix), m) == if m != n && n in Lineage(par, m) then 1 else 0
    decreases Room(par, n), 1, 0
  {
    var kids := Sorted(ChildSet(par, n), "");
    CountKids(par, cur, n, kids, prefix, m);
    DistinctSorted(ChildSet(par, n));
    OneKidAbove(par, n, kids, m);
  }

  lemma {:induction false} CountKids(par: Tree, cur: Option<string>, n: string, kids: seq<string>, prefix: string, m: string)
    requires IsForest(par) && n in par && m in par && forall k :: k in kids ==> k in ChildSet(par, n)
    ensures Count(KidLines(par, cur, n, kids, prefix), m) == Above(par, kids, m)
    decreases Room(par, n), 0, |kids|
  {
    if kids != [] {
      var k := kids[0];
      assert k in kids;
      ChildHasLessRoom(par, n, k);
      var deeper := prefix + if |kids| == 1 then "    " else "|   ";
      var head, below, rest :=
        [Line(prefix + if |kids| == 1 then LAST else FORK, k, cur == Some(k))],
        LinesBelow(par, cur, k, deeper), KidLines(par, cur, n, kids[1..], prefix);
      CountBelow(par, cur, k, deeper, m);
      CountKids(par, cur, n, kids[1..], prefix, m);
      CountAppend(head + below, rest, m);
      CountAppend(head, below, m);
      LineageDistinct(par, m);
    }
  }

  ghost predicate Distinct(s: seq<string>) {
    forall i, j :: 0 <= i < j < |s| ==> s[i] != s[j]
  }

  lemma DistinctSorted(s: set<string>)
    ensures Distinct(Sorted(s, ""))
  {
    SortedInOrder(s, "");
  }

  /** At most one child of `n` is on the way up from `m`: the node just before
      `n`, and there is one exactly when `n` is a proper ancestor. */
  lemma OneKidAbove(par: Tree, n: string, kids: seq<string>, m: string)
    requires IsForest(par) && m in par && n in par && Distinct(kids)
    requires forall k :: k in kids <==> k in ChildSet(par, n)
    ensures Above(par, kids, m) == if m != n && n in Lineage(par, m) then 1 else 0
  {
    hide Sorted;
    var l := Lineage(par, m);
    LineageDistinct(par, m);
    if m != n && n in l {
      var i :| 0 <= i < |l| && l[i] == n;
      StepUp(par, m, i - 1);
      var k := l[i - 1];
      forall x | x in kids && x in l ensures x == k { KidIsBefore(par, n, m, x, i); }
      CountOne(par, kids, m, k);
    } else {
      forall x | x in kids ensures x !in l {
        if x in l { ParentAbove(par, n, m, x); }
      }
      CountNone(par, kids, m);
    }
  }

  /** Above a node on the way up comes its parent. */
  lemma ParentAbove(par: Tree, n: string, m: string, x: string)
    requires IsForest(par) && m in par && n in par && x in ChildSet(par, n) && x in Lineage(par, m)
    ensures n in Lineage(par, m) && m != n
  {
    var l := Lineage(par, m);
    var j :| 0 <= j < |l| && l[j] == x;
    LineageSuffix(par, m, j);
    Unfold(par, x);
    LineageDistinct(par, n);
    LineageDistinct(par, m);
    assert l[j..][1] == n;
    assert l[j + 1] == n && l[0] == m;
  }

  /** Consecutive nodes of a lineage are child and parent. */
  lemma StepUp(par: Tree, m: string, i: nat)
    requires IsForest(par) && m in par && i + 1 < |Lineage(par, m)|
    ensures Lineage(par, m)[i] in ChildSet(par, Lineage(par, m)[i + 1])
  {
    var l := Lineage(par, m);
    LineageDistinct(par, m);
    LineageSuffix(par, m, i);
    Unfold(par, l[i]);
    assert l[i..][1] == l[i + 1];
    if par[l[i]].Some? { LineageDistinct(par, par[l[i]].value); }
  }

  lemma KidIsBefore(par: Tree, n: string, m: string, x: string, i: nat)
    requires IsForest(par) && m in par && x in ChildSet(par, n) && x in Lineage(par, m)
    requires 0 < i < |Lineage(par, m)| && Lineage(par, m)[i] == n
    ensures x == Lineage(par, m)[i - 1]
  {
    var l := Lineage(par, m);
    LineageDistinct(par, m);
    var j :| 0 <= j < |l| && l[j] == x;
    LineageSuffix(par, m, j);
    Unfold(par, x);
    LineageDistinct(par, n);
    assert l[j..][1] == n;
    assert l[j + 1] == n;
  }

  lemma {:induction false} CountNone(par: Tree, kids: seq<string>, m: string)
    requires forall x :: x in kids ==> x !in Lineage(par, m)
    ensures Above(par, kids, m) == 0
    decreases |kids|
  {
    if kids != [] { assert kids[0] in kids; CountNone(par, kids[1..], m); }
  }

  lemma {:induction false} CountOne(par: Tree, kids: seq<string>, m: string, k: string)
    requires Distinct(kids) && k in kids && k in Lineage(par, m)
    requires forall x :: x in kids && x in Lineage(par, m) ==> x == k
    ensures Above(par, kids, m) == 1
    decreases |kids|
  {
    var rest := kids[1..];
    if kids[0] == k {
      forall x | x in rest ensures x !in Lineage(par, m) {
        var j :| 0 <= j < |rest| && rest[j] == x;
        assert kids[j + 1] == x && kids[j + 1] != kids[0];
        assert x in kids;
      }
      CountNone(par, rest, m);
    } else {
      assert kids[0] in kids && k in rest;
      assert Distinct(rest) by {
        forall i, j | 0 <= i < j < |rest| ensures rest[i] != rest[j] { assert kids[i + 1] != kids[j + 1]; }
      }
      CountOne(par, rest, m, k);
    }
  }

  lemma {:induction false} CountRoots(par: Tree, cur: Option<string>, roots: seq<string>, m: string)
    requires IsForest(par) && m in par && forall r :: r in roots ==> r in par
    ensures Count(RootLines(par, cur, roots), m) == Above(par, roots, m)
    decreases |roots|
  {
    if roots != [] {
      var r := roots[0];
      assert r in roots;
      var head, below, rest := [Line("", r, cur == Some(r))], LinesBelow(par, cur, r, ""), RootLines(par, cur, roots[1..]);
      CountBelow(par, cur, r, "", m);
      CountRoots(par, cur, roots[1..], m);
      CountAppend(head + below, rest, m);
      CountAppend(head, below, m);
      LineageDistinct(par, m);
    }
  }

  /** The text has one line for every snapshot. */
  lemma EverySnapshotOnce(par: Tree, cur: Option<string>, m: string)
    requires IsForest(par) && m in par
    ensures Count(TreeLines(par, cur), m) == 1
  {
    hide Sorted;
    var roots, l := Sorted(RootSet(par), ""), Lineage(par, m);
    CountRoots(par, cur, roots, m);
    DistinctSorted(RootSet(par));
    LineageEndsAtRoot(par, m);
    var r := l[|l| - 1];
    assert r in RootSet(par);
    forall x | x in roots && x in l ensures x == r {
      var j :| 0 <= j < |l| && l[j] == x;
      LineageSuffix(par, m, j);
      Unfold(par, x);
      assert |l[j..]| == 1;
    }
    CountOne(par, roots, m, r);
  }

  // ---- each at its depth, under its parent ------------------------------------------------

  ghost function Depth(par: Tree, n: string): nat { |Lineage(par, n)| }

  /** The line of `p` is the nearest line above line `j` that is indented less. */
  ghost predicate StandsUnder(par: Tree, ls: seq<Line>, j: nat, p: string) {
    exists i :: 0 <= i < j && j < |ls| && ls[i].name == p
                && forall k :: i < k < j ==> Depth(par, ls[k].name) >= Depth(par, ls[j].name)
  }

  /** A line names a snapshot, is indented by its depth and starred if current. */
  ghost predicate GoodLine(par: Tree, cur: Option<string>, l: Line) {
    l.name in par && |l.prefix| == 4 * (Depth(par, l.name) - 1) && (l.current <==> cur == Some(l.name))
  }

  /** Lines below `n`: good, deeper than `n`, and each either a child of `n` or
      right under its parent. */
  ghost predicate PlacedUnder(par: Tree, cur: Option<string>, n: string, ls: seq<Line>) {
    forall j :: 0 <= j < |ls| ==>
      && GoodLine(par, cur, ls[j]) && Depth(par, ls[j].name) > Depth(par, n)
      && par[ls[j].name].Some?
      && (par[ls[j].name].value == n || StandsUnder(par, ls, j, par[ls[j].name].value))
  }

  lemma UnderShifts(par: Tree, a: seq<Line>, ls: seq<Line>, b: seq<Line>, j: nat, p: string)
    requires StandsUnder(par, ls, j, p)
    ensures StandsUnder(par, a + ls + b, |a| + j, p)
  {
    var i :| 0 <= i < j && j < |ls| && ls[i].name == p
             && forall k :: i < k < j ==> Depth(par, ls[k].name) >= Depth(par, ls[j].name);
    var all := a + ls + b;
    assert all[|a| + i] == ls[i] && all[|a| + j] == ls[j];
    forall k | |a| + i < k < |a| + j ensures Depth(par, all[k].name) >= Depth(par, all[|a| + j].name) {
      assert all[k] == ls[k - |a|];
    }
  }

  /** In the block of one node and what is below it, every line but the first
      stands under its parent. */
  lemma BlockUnder(par: Tree, cur: Option<string>, head: Line, below: seq<Line>, j: nat)
    requires IsForest(par) && head.name in par && PlacedUnder(par, cur, head.name, below) && 0 < j <= |below|
    ensures StandsUnder(par, [head] + below, j, par[below[j - 1].name].value)
  {
    hide Lineage, Depth;
    var all, p := [head] + below, par[below[j - 1].name].value;
    if p == head.name {
      KidDepth(par, p, below[j - 1].name);
      forall k | 0 < k < j ensures Depth(par, all[k].name) >= Depth(par, all[j].name) {
        assert all[k] == below[k - 1];
      }
      assert all[0].name == p;
    } else {
      UnderShifts(par, [head], below, [], j - 1, p);
      assert [head] + below + [] == all;
    }
  }

  lemma KidDepth(par: Tree, n: string, k: string)
    requires IsForest(par) && k in ChildSet(par, n)
    ensures Depth(par, k) == Depth(par, n) + 1
  {
    ChildHasLessRoom(par, n, k);
  }

  /** One child's block put before the blocks of its later siblings. */
  lemma PlacedCons(par: Tree, cur: Option<string>, n: string, head: Line, below: seq<Line>, rest: seq<Line>)
    requires IsForest(par) && head.name in ChildSet(par, n) && GoodLine(par, cur, head)
    requires PlacedUnder(par, cur, head.name, below) && PlacedUnder(par, cur, n, rest)
    ensures PlacedUnder(par, cur, n, [head] + below + rest)
  {
    hide Lineage, Depth, StandsUnder;
    var block, all := [head] + below, [head] + below + rest;
    KidDepth(par, n, head.name);
    forall j | 0 <= j < |all|
      ensures GoodLine(par, cur, all[j]) && Depth(par, all[j].name) > Depth(par, n) && par[all[j].name].Some?
      ensures par[all[j].name].value == n || StandsUnder(par, all, j, par[all[j].name].value)
    {
      if 0 < j <= |below| {
        assert all[j] == below[j - 1];
        BlockUnder(par, cur, head, below, j);
        UnderShifts(par, [], block, rest, j, par[all[j].name].value);
        assert [] + block + rest == all;
      } else if j > |below| {
        assert all[j] == rest[j - |block|];
        if par[all[j].name].value != n {
          UnderShifts(par, block, rest, [], j - |block|, par[all[j].name].value);
          assert block + rest + [] == all;
        }
      }
    }
  }

  lemma {:induction false} BelowPlaced(par: Tree, cur: Option<string>, n: string, prefix: string)
    requires IsForest(par) && n in par && |prefix| == 4 * (Depth(par, n) - 1)
    ensures PlacedUnder(par, cur, n, LinesBelow(par, cur, n, prefix))
    decreases Room(par, n), 1, 0
  {
    KidsPlaced(par, cur, n, Sorted(ChildSet(par, n), ""), prefix);
  }

  lemma {:induction false} KidsPlaced(par: Tree, cur: Option<string>, n: string, kids: seq<string>, prefix: string)
    requires IsForest(par) && n in par && |prefix| == 4 * (Depth(par, n) - 1)
    requires forall k :: k in kids ==> k in ChildSet(par, n)
    ensures PlacedUnder(par, cur, n, KidLines(par, cur, n, kids, prefix))
    decreases Room(par, n), 0, |kids|
  {
    hide PlacedUnder;
    if kids == [] {
      NonePlaced(par, cur, n);
    } else {
      var k := kids[0];
      assert k in kids;
      ChildHasLessRoom(par, n, k);
      var head := Line(prefix + if |kids| == 1 then LAST else FORK, k, cur == Some(k));
      var deeper := prefix + if |kids| == 1 then "    " else "|   ";
      BelowPlaced(par, cur, k, deeper);
      KidsPlaced(par, cur, n, kids[1..], prefix);
      PlacedCons(par, cur, n, head, LinesBelow(par, cur, k, deeper), KidLines(par, cur, n, kids[1..], prefix));
    }
  }

  lemma NonePlaced(par: Tree, cur: Option<string>, n: string)
    ensures PlacedUnder(par, cur, n, [])
  {
  }

  ghost predicate TreePlaced(par: Tree, cur: Option<string>, ls: seq<Line>) {
    forall j :: 0 <= j < |ls| ==>
      GoodLine(par, cur, ls[j]) && (par[ls[j].name].Some? ==> StandsUnder(par, ls, j, par[ls[j].name].value))
  }

  lemma {:induction false} RootsPlaced(par: Tree, cur: Option<string>, roots: seq<string>)
    requires IsForest(par) && forall r :: r in roots ==> r in par && r in RootSet(par)
    ensures TreePlaced(par, cur, RootLines(par, cur, roots))
    decreases |roots|
  {
    if roots != [] {
      var r := roots[0];
      assert r in roots;
      Unfold(par, r);
      BelowPlaced(par, cur, r, "");
      RootsPlaced(par, cur, roots[1..]);
      RootPlacedCons(par, cur, Line("", r, cur == Some(r)), LinesBelow(par, cur, r, ""), RootLines(par, cur, roots[1..]));
    }
  }

  lemma RootPlacedCons(par: Tree, cur: Option<string>, head: Line, below: seq<Line>, rest: seq<Line>)
    requires IsForest(par) && head.name in RootSet(par) && GoodLine(par, cur, head)
    requires PlacedUnder(par, cur, head.name, below) && TreePlaced(par, cur, rest)
    ensures TreePlaced(par, cur, [head] + below + rest)
  {
    hide Lineage, Depth, StandsUnder;
    var block, all := [head] + below, [head] + below + rest;
    forall j | 0 <= j < |all|
      ensures GoodLine(par, cur, all[j]) && (par[all[j].name].Some? ==> StandsUnder(par, all, j, par[all[j].name].value))
    {
      if 0 < j <= |below| {
        assert all[j] == below[j - 1];
        BlockUnder(par, cur, head, below, j);
        UnderShifts(par, [], block, rest, j, par[all[j].name].value);
        assert [] + block + rest == all;
      } else if j > |below| && par[all[j].name].Some? {
        assert all[j] == rest[j - |block|];
        UnderShifts(par, block, rest, [], j - |block|, par[all[j].name].value);
        assert block + rest + [] == all;
      }
    }
  }

  /** Every line is indented by its snapshot's depth, starred exactly if it is
      the current one, and stands under its parent: the nearest line above that
      is indented less is the parent's. */
  lemma TreeIsDrawn(par: Tree, cur: Option<string>)
    requires IsForest(par)
    ensures TreePlaced(par, cur, TreeLines(par, cur))
  {
    RootsPlaced(par, cur, Sorted(RootSet(par), ""));
  }
}
