/** More on the text of a snapshot tree: the order of its lines, and that nothing
    of the tree is lost in it. */
module TreeOrders {
  import opened Forest
  import opened Names
  import opened SnapshotTrees
  import opened DiskStores

  // ---- siblings in name order ---------------------------------------------------------------

  /** Snapshots with the same parent, and roots, appear in name order. */
  ghost predicate InTurn(par: Tree, ls: seq<Line>) {
    forall i, j :: 0 <= i < j < |ls| && ls[i].name in par && ls[j].name in par && par[ls[i].name] == par[ls[j].name] ==>
      FileLe(ls[i].name, ls[j].name, "")
  }

  /** Each name is, or is below, one of `tops`. */
  ghost predicate Under(par: Tree, tops: seq<string>, ls: seq<Line>) {
    forall l :: l in ls ==> l.name in par && IsUnder(par, tops, l.name)
  }

  ghost predicate IsUnder(par: Tree, tops: seq<string>, n: string) {
    exists k :: k in tops && k in Lineage(par, n)
  }

  lemma {:induction false} BelowUnder(par: Tree, cur: Option<string>, n: string, prefix: string)
    requires IsForest(par) && n in par
    ensures forall l :: l in LinesBelow(par, cur, n, prefix) ==> l.name in par && n in Lineage(par, l.name) && l.name != n
    decreases Room(par, n), 1, 0
  {
    hide Sorted;
    var kids := Sorted(ChildSet(par, n), "");
    KidsUnder(par, cur, n, kids, prefix);
    forall l | l in LinesBelow(par, cur, n, prefix) ensures l.name in par && n in Lineage(par, l.name) && l.name != n {
      var k :| k in kids && k in Lineage(par, l.name);
      ParentAbove(par, n, l.name, k);
    }
  }

  lemma {:induction false} KidsUnder(par: Tree, cur: Option<string>, n: string, kids: seq<string>, prefix: string)
    requires IsForest(par) && n in par && forall k :: k in kids ==> k in ChildSet(par, n)
    ensures Under(par, kids, KidLines(par, cur, n, kids, prefix))
    decreases Room(par, n), 0, |kids|
  {
    if kids != [] {
      var k := kids[0];
      assert k in kids;
      ChildHasLessRoom(par, n, k);
      var deeper := prefix + if |kids| == 1 then "    " else "|   ";
      BelowUnder(par, cur, k, deeper);
      KidsUnder(par, cur, n, kids[1..], prefix);
      UnderCons(par, kids, Line(prefix + if |kids| == 1 then LAST else FORK, k, cur == Some(k)),
                LinesBelow(par, cur, k, deeper), KidLines(par, cur, n, kids[1..], prefix));
    }
  }

  lemma UnderCons(par: Tree, tops: seq<string>, head: Line, below: seq<Line>, rest: seq<Line>)
    requires tops != [] && head.name == tops[0] && head.name in par
    requires forall l :: l in below ==> l.name in par && head.name in Lineage(par, l.name)
    requires Under(par, tops[1..], rest)
    ensures Under(par, tops, [head] + below + rest)
  {
    hide Lineage;
    var all := [head] + below + rest;
    assert tops[0] in tops;
    forall l | l in all ensures l.name in par && IsUnder(par, tops, l.name) {
      if l == head {
        LineageDistinct(par, l.name);
        assert tops[0] in Lineage(par, l.name);
      } else if l in below {
        assert tops[0] in Lineage(par, l.name);
      } else {
        var k :| k in tops[1..] && k in Lineage(par, l.name);
        assert k in tops;
      }
    }
  }

  lemma {:induction false} RootsUnder(par: Tree, cur: Option<string>, roots: seq<string>)
    requires IsForest(par) && forall r :: r in roots ==> r in par
    ensures Under(par, roots, RootLines(par, cur, roots))
    decreases |roots|
  {
    if roots != [] {
      var r := roots[0];
      assert r in roots;
      BelowUnder(par, cur, r, "");
      RootsUnder(par, cur, roots[1..]);
      UnderCons(par, roots, Line("", r, cur == Some(r)), LinesBelow(par, cur, r, ""), RootLines(par, cur, roots[1..]));
    }
  }

  /** On one way up there are no two nodes with the same parent. */
  lemma SameLevel(par: Tree, m: string, a: string, b: string)
    requires IsForest(par) && m in par && a in Lineage(par, m) && b in Lineage(par, m)
    requires a in par && b in par && par[a] == par[b]
    ensures a == b
  {
    var l := Lineage(par, m);
    var i :| 0 <= i < |l| && l[i] == a;
    var j :| 0 <= j < |l| && l[j] == b;
    LineageSuffix(par, m, i);
    LineageSuffix(par, m, j);
    Unfold(par, a);
    Unfold(par, b);
  }

  /** The way up from a node goes through its parent. */
  lemma UpFrom(par: Tree, m: string, a: string)
    requires IsForest(par) && m in par && a in Lineage(par, m) && a != m
    ensures par[m].Some? && par[m].value in par && a in Lineage(par, par[m].value)
  {
    Unfold(par, m);
    if par[m].Some? { LineageDistinct(par, par[m].value); }
  }

  /** One node's block before the blocks of its later siblings. */
  lemma TurnCons(par: Tree, tops: seq<string>, head: Line, below: seq<Line>, rest: seq<Line>)
    requires IsForest(par) && tops != [] && head.name == tops[0] && Increasing(tops, "")
    requires tops[0] in par && forall k :: k in tops ==> k in par && par[k] == par[tops[0]]
    requires forall l :: l in below ==> l.name in par && head.name in Lineage(par, l.name) && l.name != head.name
    requires Under(par, tops[1..], rest) && InTurn(par, below) && InTurn(par, rest)
    ensures InTurn(par, [head] + below + rest)
  {
    hide Lineage, IsForest;
    var all, k0 := [head] + below + rest, head.name;
    forall i, j | 0 <= i < j < |all| && all[i].name in par && all[j].name in par && par[all[i].name] == par[all[j].name]
      ensures FileLe(all[i].name, all[j].name, "")
    {
      var a, b := all[i].name, all[j].name;
      if j <= |below| {
        assert all[j] == below[j - 1];
        if i > 0 {
          assert all[i] == below[i - 1];
        } else {
          LineageDistinct(par, b);
          SameLevel(par, b, k0, b);
        }
      } else {
        assert all[j] == rest[j - |below| - 1] && all[j] in rest;
        if i > |below| {
          assert all[i] == rest[i - |below| - 1];
        } else {
          assert i > 0 ==> all[i] == below[i - 1] && all[i] in below;
          HeadFirst(par, tops, i == 0, a, b);
        }
      }
    }
  }

  lemma HeadFirst(par: Tree, tops: seq<string>, isHead: bool, a: string, b: string)
    requires IsForest(par) && tops != [] && Increasing(tops, "") && a in par && b in par && par[a] == par[b]
    requires tops[0] in par && forall k :: k in tops ==> k in par && par[k] == par[tops[0]]
    requires if isHead then a == tops[0] else a != tops[0] && tops[0] in Lineage(par, a)
    requires IsUnder(par, tops[1..], b)
    ensures isHead && FileLe(a, b, "")
  {
    hide Lineage, IsForest;
    var k :| k in tops[1..] && k in Lineage(par, b);
    var x :| 0 <= x < |tops| - 1 && tops[1..][x] == k;
    assert tops[x + 1] == k && k in tops && tops[0] in tops;
    LineageDistinct(par, a);
    LineageDistinct(par, b);
    if isHead {
      SameLevel(par, b, k, b);
    } else {
      NotBoth(par, tops[0], k, a, b);
    }
  }

  lemma NotBoth(par: Tree, k0: string, k: string, a: string, b: string)
    requires IsForest(par) && k0 in par && k in par && par[k0] == par[k] && a in par && b in par && par[a] == par[b]
    requires a != k0 && k0 in Lineage(par, a) && k in Lineage(par, b)
    ensures k == k0
  {
    hide Lineage, IsForest;
    UpFrom(par, a, k0);
    LineageDistinct(par, a);
    if b == k {
      SameLevel(par, a, k0, a);
    } else {
      UpFrom(par, b, k);
      SameLevel(par, par[a].value, k0, k);
    }
  }

  lemma {:induction false} BelowInTurn(par: Tree, cur: Option<string>, n: string, prefix: string)
    requires IsForest(par) && n in par
    ensures InTurn(par, LinesBelow(par, cur, n, prefix))
    decreases Room(par, n), 1, 0
  {
    hide Sorted;
    SortedInOrder(ChildSet(par, n), "");
    KidsInTurn(par, cur, n, Sorted(ChildSet(par, n), ""), prefix);
  }

  lemma {:induction false} KidsInTurn(par: Tree, cur: Option<string>, n: string, kids: seq<string>, prefix: string)
    requires IsForest(par) && n in par && (forall k :: k in kids ==> k in ChildSet(par, n)) && Increasing(kids, "")
    ensures InTurn(par, KidLines(par, cur, n, kids, prefix))
    decreases Room(par, n), 0, |kids|
  {
    if kids != [] {
      var k, later := kids[0], kids[1..];
      assert k in kids && forall i :: 0 <= i < |later| ==> later[i] == kids[i + 1];
      ChildHasLessRoom(par, n, k);
      var deeper := prefix + if |kids| == 1 then "    " else "|   ";
      BelowUnder(par, cur, k, deeper);
      BelowInTurn(par, cur, k, deeper);
      KidsUnder(par, cur, n, later, prefix);
      KidsInTurn(par, cur, n, later, prefix);
      TurnCons(par, kids, Line(prefix + if |kids| == 1 then LAST else FORK, k, cur == Some(k)),
               LinesBelow(par, cur, k, deeper), KidLines(par, cur, n, later, prefix));
    }
  }

  lemma {:induction false} RootsInTurn(par: Tree, cur: Option<string>, roots: seq<string>)
    requires IsForest(par) && (forall r :: r in roots ==> r in par && r in RootSet(par)) && Increasing(roots, "")
    ensures InTurn(par, RootLines(par, cur, roots))
    decreases |roots|
  {
    if roots != [] {
      var r, later := roots[0], roots[1..];
      assert r in roots && forall i :: 0 <= i < |later| ==> later[i] == roots[i + 1];
      BelowUnder(par, cur, r, "");
      BelowInTurn(par, cur, r, "");
      RootsUnder(par, cur, later);
      RootsInTurn(par, cur, later);
      TurnCons(par, roots, Line("", r, cur == Some(r)), LinesBelow(par, cur, r, ""), RootLines(par, cur, later));
    }
  }

  /** In the whole text, siblings and roots appear in name order. Together with
      TreeIsDrawn: the lines are in sorted pre-order. */
  lemma SiblingsInOrder(par: Tree, cur: Option<string>)
    requires IsForest(par)
    ensures InTurn(par, TreeLines(par, cur))
  {
    hide Sorted;
    SortedInOrder(RootSet(par), "");
    RootsInTurn(par, cur, Sorted(RootSet(par), ""));
  }

  // ---- nothing is lost --------------------------------------------------------------------

  lemma {:induction false} Counted(ls: seq<Line>, m: string) returns (j: nat)
    requires Count(ls, m) > 0
    ensures j < |ls| && ls[j].name == m
    decreases |ls|
  {
    if ls[0].name == m {
      j := 0;
    } else {
      var i := Counted(ls[1..], m);
      j := i + 1;
    }
  }

  lemma DepthFromParent(par: Tree, n: string)
    requires IsForest(par) && n in par
    ensures if par[n].None? then Depth(par, n) == 1
            else par[n].value in par && Depth(par, n) == Depth(par, par[n].value) + 1 && Depth(par, n) > 1
  {
    Unfold(par, n);
    if par[n].Some? { LineageDistinct(par, par[n].value); }
  }

  lemma SameName(par: Tree, cur: Option<string>, par2: Tree, cur2: Option<string>, n: string)
    requires IsForest(par) && IsForest(par2) && TreeLines(par, cur) == TreeLines(par2, cur2) && n in par
    ensures n in par2 && par[n] == par2[n] && (cur == Some(n) <==> cur2 == Some(n))
  {
    hide Lineage, Depth, TreeLines, IsForest;
    var ls := TreeLines(par, cur);
    EverySnapshotOnce(par, cur, n);
    TreeIsDrawn(par, cur);
    TreeIsDrawn(par2, cur2);
    var j := Counted(ls, n);
    assert GoodLine(par, cur, ls[j]) && GoodLine(par2, cur2, ls[j]);
    forall i | 0 <= i < |ls| ensures ls[i].name in par && ls[i].name in par2 && Depth(par, ls[i].name) == Depth(par2, ls[i].name) {
      assert GoodLine(par, cur, ls[i]) && GoodLine(par2, cur2, ls[i]);
    }
    DepthFromParent(par, n);
    DepthFromParent(par2, n);
    if par[n].Some? {
      SameParent(par, par2, ls, j, par[n].value, par2[n].value);
    }
  }

  /** Two readings of the same lines find the same parent. */
  lemma SameParent(par: Tree, par2: Tree, ls: seq<Line>, j: nat, p: string, p2: string)
    requires forall i :: 0 <= i < |ls| ==> Depth(par, ls[i].name) == Depth(par2, ls[i].name)
    requires j < |ls| && StandsUnder(par, ls, j, p) && StandsUnder(par2, ls, j, p2)
    requires Depth(par, p) < Depth(par, ls[j].name) && Depth(par2, p2) < Depth(par2, ls[j].name)
    ensures p == p2
  {
    hide Lineage, Depth;
    var i :| 0 <= i < j && ls[i].name == p && forall k :: i < k < j ==> Depth(par, ls[k].name) >= Depth(par, ls[j].name);
    var i2 :| 0 <= i2 < j && ls[i2].name == p2 && forall k :: i2 < k < j ==> Depth(par2, ls[k].name) >= Depth(par2, ls[j].name);
    assert i == i2;
  }

  /** The lines determine the tree and its current snapshot. */
  lemma LinesDetermineTree(par: Tree, cur: Option<string>, par2: Tree, cur2: Option<string>)
    requires IsForest(par) && IsForest(par2) && TreeLines(par, cur) == TreeLines(par2, cur2)
    ensures par == par2 && forall n :: n in par ==> (cur == Some(n) <==> cur2 == Some(n))
  {
    hide TreeLines, IsForest;
    forall n | n in par ensures n in par2 && par[n] == par2[n] && (cur == Some(n) <==> cur2 == Some(n)) {
      SameName(par, cur, par2, cur2, n);
    }
    forall n | n in par2 ensures n in par { SameName(par2, cur2, par, cur, n); }
  }
}
