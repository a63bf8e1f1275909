/** The text of a snapshot tree, down to the characters: which connector stands
    where, where the star is, and that the tree can be read off the text. */
module TreeTexts {
  import opened Forest
  import opened Layout
  import opened Names
  import opened DiskStores
  import opened Splitting
  import opened SnapshotTrees
  import opened TreeOrders

  // ---- what is drawn before a name ---------------------------------------------------------

  /** No snapshot with the same parent comes after `k` by name. */
  ghost predicate Youngest(par: Tree, k: string)
    requires k in par
  {
    forall m :: m in par && par[m] == par[k] ==> FileLe(m, k, "")
  }

  /** What is drawn before the children of `n`: a bar below every ancestor that has
      younger siblings, a blank below the others. */
  ghost function Indent(par: Tree, n: string): string
    requires IsForest(par) && n in par
    decreases |Lineage(par, n)|
  {
    if par[n].None? then "" else
    Unfold(par, n);
    LineageDistinct(par, par[n].value);
    Indent(par, par[n].value) + if Youngest(par, n) then "    " else "|   "
  }

  /** What is drawn before `n` itself: nothing before a root, the last connector
      before the youngest child, and a fork before any other. */
  ghost function Drawn(par: Tree, n: string): string
    requires IsForest(par) && n in par
  {
    if par[n].None? then "" else
    Unfold(par, n);
    LineageDistinct(par, par[n].value);
    Indent(par, par[n].value) + if Youngest(par, n) then "`-- " else "|-- "
  }

  ghost predicate AllDrawn(par: Tree, ls: seq<Line>)
    requires IsForest(par)
  {
    forall l :: l in ls ==> l.name in par && l.prefix == Drawn(par, l.name)
  }

  /** In name order only the last is the youngest. */
  lemma YoungestIsLast(par: Tree, all: seq<string>, i: nat)
    requires Increasing(all, "") && i < |all| && all[i] in par
    requires forall m :: m in all <==> m in par && par[m] == par[all[i]]
    ensures Youngest(par, all[i]) <==> i == |all| - 1
  {
    if i == |all| - 1 {
      forall m | m in par && par[m] == par[all[i]] ensures FileLe(m, all[i], "") {
        var j :| 0 <= j < |all| && all[j] == m;
        FileLeReflexive(m);
      }
    } else {
      assert all[i + 1] in all && all[i] != all[i + 1];
      if FileLe(all[i + 1], all[i], "") { NotBothWays(all[i], all[i + 1]); }
    }
  }

  lemma NotBothWays(a: string, b: string)
    requires FileLe(a, b, "") && FileLe(b, a, "")
    ensures a == b
  {
    LeAntisymmetric(a + "", b + "");
    assert a + "" == a && b + "" == b;
  }

  lemma {:induction false} FileLeReflexive(m: string)
    ensures FileLe(m, m, "")
  {
    LeTotal(m + "", m + "");
  }

  lemma {:induction false} BelowDrawn(par: Tree, cur: Option<string>, n: string)
    requires IsForest(par) && n in par
    ensures AllDrawn(par, LinesBelow(par, cur, n, Indent(par, n)))
    decreases Room(par, n), 1, 0
  {
    hide Sorted, IsForest, Indent, Drawn;
    var all := Sorted(ChildSet(par, n), "");
    SortedInOrder(ChildSet(par, n), "");
    assert all[0..] == all;
    KidsDrawn(par, cur, n, all, 0);
  }

  lemma {:induction false} KidsDrawn(par: Tree, cur: Option<string>, n: string, all: seq<string>, i: nat)
    requires IsForest(par) && n in par && i <= |all| && Increasing(all, "") && forall k :: k in all <==> k in ChildSet(par, n)
    ensures AllDrawn(par, KidLines(par, cur, n, all[i..], Indent(par, n)))
    decreases Room(par, n), 0, |all| - i
  {
    hide IsForest;
    if i < |all| {
      var k, last := all[i], i == |all| - 1;
      assert k in all && all[i..][1..] == all[i + 1..];
      ChildHasLessRoom(par, n, k);
      YoungestIsLast(par, all, i);
      var prefix := Indent(par, n);
      BelowDrawn(par, cur, k);
      KidsDrawn(par, cur, n, all, i + 1);
      DrawnCons(par, Line(prefix + if last then LAST else FORK, k, cur == Some(k)),
                LinesBelow(par, cur, k, Indent(par, k)), KidLines(par, cur, n, all[i + 1..], prefix));
    }
  }

  lemma DrawnCons(par: Tree, head: Line, below: seq<Line>, rest: seq<Line>)
    requires IsForest(par) && head.name in par && head.prefix == Drawn(par, head.name) && AllDrawn(par, below) && AllDrawn(par, rest)
    ensures AllDrawn(par, [head] + below + rest)
  {
    hide IsForest, Drawn;
  }

  lemma {:induction false} RootsDrawn(par: Tree, cur: Option<string>, roots: seq<string>)
    requires IsForest(par) && forall r :: r in roots ==> r in par && par[r].None?
    ensures AllDrawn(par, RootLines(par, cur, roots))
    decreases |roots|
  {
    hide IsForest;
    if roots != [] {
      var r := roots[0];
      assert r in roots;
      BelowDrawn(par, cur, r);
      RootsDrawn(par, cur, roots[1..]);
      DrawnCons(par, Line("", r, cur == Some(r)), LinesBelow(par, cur, r, ""), RootLines(par, cur, roots[1..]));
    }
  }

  lemma LinesDrawn(par: Tree, cur: Option<string>)
    requires IsForest(par)
    ensures AllDrawn(par, TreeLines(par, cur))
  {
    hide Sorted, IsForest, Drawn;
    RootsDrawn(par, cur, Sorted(RootSet(par), ""));
  }

  // ---- the text ---------------------------------------------------------------------------------

  /** The line of `n`. */
  ghost function Piece(par: Tree, cur: Option<string>, n: string): string
    requires IsForest(par) && n in par
  {
    Drawn(par, n) + n + if cur == Some(n) then " *" else ""
  }

  ghost function Pieces(par: Tree, cur: Option<string>, names: seq<string>): (ps: seq<string>)
    requires IsForest(par) && forall n :: n in names ==> n in par
    ensures |ps| == |names| && forall i :: 0 <= i < |ps| ==> ps[i] == Piece(par, cur, names[i])
  {
    seq(|names|, i requires 0 <= i < |names| => assert names[i] in names; Piece(par, cur, names[i]))
  }

  /** Every snapshot once, siblings and roots by name, and each under its parent:
      the nearest one before it that is not as deep. */
  ghost predicate PreOrder(par: Tree, names: seq<string>) {
    && |names| == |par| && (forall n :: n in names <==> n in par)
    && (forall i, j :: 0 <= i < j < |names| && names[i] in par && names[j] in par && par[names[i]] == par[names[j]] ==>
         FileLe(names[i], names[j], ""))
    && (forall j :: 0 <= j < |names| && names[j] in par && par[names[j]].Some? ==> UnderParent(par, names, j))
  }

  ghost predicate UnderParent(par: Tree, names: seq<string>, j: nat)
    requires j < |names| && names[j] in par && par[names[j]].Some?
  {
    exists i :: 0 <= i < j && names[i] == par[names[j]].value
                && forall k :: i < k < j ==> Depth(par, names[k]) >= Depth(par, names[j])
  }

  /** What the text must be for a tree and its current snapshot. */
  ghost predicate Shows(par: Tree, cur: Option<string>, text: string)
    requires IsForest(par)
  {
    if par == map[] then text == "(no snapshots)"
    else exists names :: PreOrder(par, names) && text == Joined(Pieces(par, cur, names), '\n')
  }

  function NamesOf(ls: seq<Line>): (ns: seq<string>)
    ensures |ns| == |ls| && forall i :: 0 <= i < |ns| ==> ns[i] == ls[i].name
  {
    seq(|ls|, i requires 0 <= i < |ls| => ls[i].name)
  }

  lemma {:induction false} CountedTwice(ls: seq<Line>, i: nat, j: nat)
    requires i < j < |ls| && ls[i].name == ls[j].name
    ensures Count(ls, ls[i].name) >= 2
    decreases |ls|
  {
    var m := ls[i].name;
    if i > 0 {
      CountedTwice(ls[1..], i - 1, j - 1);
    } else {
      CountedOnce(ls[1..], j - 1);
    }
  }

  lemma {:induction false} CountedOnce(ls: seq<Line>, j: nat)
    requires j < |ls|
    ensures Count(ls, ls[j].name) >= 1
    decreases |ls|
  {
    if j > 0 { CountedOnce(ls[1..], j - 1); }
  }

  lemma LinesAsMany(par: Tree, cur: Option<string>)
    requires IsForest(par)
    ensures var ls := TreeLines(par, cur); |ls| == |par| && forall n :: n in NamesOf(ls) <==> n in par
  {
    hide TreeLines, IsForest, Count;
    var ls := TreeLines(par, cur);
    var names := NamesOf(ls);
    TreeIsDrawn(par, cur);
    forall n | n in names ensures n in par {
      var i :| 0 <= i < |names| && names[i] == n;
      assert GoodLine(par, cur, ls[i]);
    }
    forall n | n in par ensures n in names {
      EverySnapshotOnce(par, cur, n);
      var j := Counted(ls, n);
      assert names[j] == n;
    }
    forall i, j | 0 <= i < j < |names| ensures names[i] != names[j] {
      if names[i] == names[j] {
        assert names[i] in names;
        EverySnapshotOnce(par, cur, names[i]);
        CountedTwice(ls, i, j);
      }
    }
    DistinctSize(names, par.Keys);
  }

  lemma LinesInPreOrder(par: Tree, cur: Option<string>)
    requires IsForest(par)
    ensures PreOrder(par, NamesOf(TreeLines(par, cur)))
  {
    hide TreeLines, IsForest, Depth, UnderParent, StandsUnder, InTurn;
    var ls := TreeLines(par, cur);
    var names := NamesOf(ls);
    LinesAsMany(par, cur);
    TreeIsDrawn(par, cur);
    SiblingsInOrder(par, cur);
    NamesInTurn(par, ls);
    forall j | 0 <= j < |names| && par[names[j]].Some? ensures UnderParent(par, names, j) { NameUnderParent(par, ls, j); }
  }

  lemma NamesInTurn(par: Tree, ls: seq<Line>)
    requires InTurn(par, ls)
    ensures var names := NamesOf(ls);
            forall i, j :: 0 <= i < j < |names| && names[i] in par && names[j] in par && par[names[i]] == par[names[j]] ==>
              FileLe(names[i], names[j], "")
  {
    hide FileLe;
  }

  lemma NameUnderParent(par: Tree, ls: seq<Line>, j: nat)
    requires j < |ls| && ls[j].name in par && par[ls[j].name].Some? && StandsUnder(par, ls, j, par[ls[j].name].value)
    ensures UnderParent(par, NamesOf(ls), j)
  {
    hide Depth;
    var names := NamesOf(ls);
    var i :| 0 <= i < j && ls[i].name == par[ls[j].name].value
             && forall k :: i < k < j ==> Depth(par, ls[k].name) >= Depth(par, ls[j].name);
    assert names[i] == par[names[j]].value;
    forall k | i < k < j ensures Depth(par, names[k]) >= Depth(par, names[j]) { assert names[k] == ls[k].name; }
  }

  lemma TextsAre(par: Tree, cur: Option<string>)
    requires IsForest(par)
    ensures var ls := TreeLines(par, cur);
            (forall n :: n in NamesOf(ls) ==> n in par) && Texts(ls) == Pieces(par, cur, NamesOf(ls))
  {
    hide TreeLines, IsForest, Drawn, Depth;
    var ls := TreeLines(par, cur);
    LinesAsMany(par, cur);
    LinesDrawn(par, cur);
    TreeIsDrawn(par, cur);
    forall i | 0 <= i < |ls| ensures Texts(ls)[i] == Pieces(par, cur, NamesOf(ls))[i] {
      assert ls[i] in ls && GoodLine(par, cur, ls[i]);
    }
  }

  /** The text returned shows the tree. */
  lemma TextShows(par: Tree, cur: Option<string>)
    requires IsForest(par)
    ensures Shows(par, cur, Rendered(TreeLines(par, cur)))
  {
    hide TreeLines, IsForest, PreOrder, Pieces, Joined;
    LinesAsMany(par, cur);
    LinesInPreOrder(par, cur);
    TextsAre(par, cur);
    if par != map[] { assert |par| > 0; }
  }

  // ---- reading the text ------------------------------------------------------------------------

  /** Names that follow the documented pattern. */
  ghost predicate Plain(par: Tree) { forall n :: n in par ==> NameChars(n) }

  predicate Drawing(s: string) { forall i :: 0 <= i < |s| ==> s[i] == ' ' || s[i] == '|' || s[i] == '`' || s[i] == '-' }

  lemma {:induction false} IndentDraws(par: Tree, n: string)
    requires IsForest(par) && n in par
    ensures Drawing(Indent(par, n))
    decreases |Lineage(par, n)|
  {
    if par[n].Some? {
      Unfold(par, n);
      LineageDistinct(par, par[n].value);
      IndentDraws(par, par[n].value);
    }
  }

  lemma DrawnDraws(par: Tree, n: string)
    requires IsForest(par) && n in par
    ensures Drawing(Drawn(par, n))
  {
    if par[n].Some? {
      Unfold(par, n);
      LineageDistinct(par, par[n].value);
      IndentDraws(par, par[n].value);
    }
  }

  function Star(on: bool): string { if on then " *" else "" }

  /** A name starts at the first letter or digit. */
  lemma NameStarts(p: string, n: string, rest: string)
    requires Drawing(p) && NameChars(n)
    ensures var t := p + n + rest; |p| < |t| && Alnum(t[|p|]) && forall i :: 0 <= i < |p| ==> !Alnum(t[i])
  {
    var t := p + n + rest;
    assert t[|p|] == n[0];
    forall i | 0 <= i < |p| ensures !Alnum(t[i]) { assert t[i] == p[i]; }
  }

  /** Drawing, name and star can be told apart. */
  lemma PieceReads(p: string, n: string, on: bool, p2: string, n2: string, on2: bool)
    requires Drawing(p) && Drawing(p2) && NameChars(n) && NameChars(n2) && p + n + Star(on) == p2 + n2 + Star(on2)
    ensures p == p2 && n == n2 && on == on2
  {
    var t := p + n + Star(on);
    NameStarts(p, n, Star(on));
    NameStarts(p2, n2, Star(on2));
    assert |p| == |p2|;
    assert p == t[..|p|] == p2;
    var u := n + Star(on);
    assert u == t[|p|..] == n2 + Star(on2);
    assert on ==> u[|u| - 1] == '*';
    assert on2 ==> u[|u| - 1] == '*';
    assert !on ==> u[|u| - 1] == n[|n| - 1];
    assert !on2 ==> u[|u| - 1] == n2[|n2| - 1];
    assert on == on2;
    assert n == u[..|u| - |Star(on)|] == n2;
  }

  lemma PieceHasNoNewline(par: Tree, cur: Option<string>, n: string)
    requires IsForest(par) && n in par
    ensures '\n' in Piece(par, cur, n) <==> '\n' in n
  {
    hide IsForest, Drawn;
    DrawnDraws(par, n);
    var d := Drawn(par, n);
    if '\n' in n {
      var i :| 0 <= i < |n| && n[i] == '\n';
      assert Piece(par, cur, n)[|d| + i] == '\n';
    }
  }

  /** The text has one line for each snapshot exactly if no name holds a newline. */
  lemma LinesCounted(par: Tree, cur: Option<string>)
    requires IsForest(par) && par != map[]
    ensures |Split(Rendered(TreeLines(par, cur)), '\n')| == |par| <==> forall n :: n in par ==> '\n' !in n
  {
    hide TreeLines, IsForest, Split, Joined, Piece;
    var ls := TreeLines(par, cur);
    var names := NamesOf(ls);
    LinesAsMany(par, cur);
    TextsAre(par, cur);
    assert |par| > 0;
    PiecesCounted(Texts(ls), '\n');
    forall i | 0 <= i < |names| ensures '\n' in Texts(ls)[i] <==> '\n' in names[i] {
      assert names[i] in names;
      PieceHasNoNewline(par, cur, names[i]);
    }
    if exists n :: n in par && '\n' in n {
      var n :| n in par && '\n' in n;
      var i :| 0 <= i < |names| && names[i] == n;
      assert '\n' in Texts(ls)[i];
    }
    forall i | 0 <= i < |names| && '\n' in Texts(ls)[i] ensures names[i] in par && '\n' in names[i] { assert names[i] in names; }
  }

  /** "(no snapshots)" is said exactly of a disk without any. */
  lemma NoneIsSaidOfNone(par: Tree, cur: Option<string>)
    requires IsForest(par) && Plain(par)
    ensures Rendered(TreeLines(par, cur)) == "(no snapshots)" <==> par == map[]
  {
    hide TreeLines, IsForest, Piece, Drawn;
    LinesAsMany(par, cur);
    if par != map[] {
      assert |par| > 0;
      FirstIsRoot(par, cur);
      var ls := TreeLines(par, cur);
      JoinedStarts(Texts(ls), '\n');
      assert Texts(ls)[0][0] == ls[0].name[0];
      assert NameChars(ls[0].name);
    }
  }

  lemma JoinedStarts(ws: seq<string>, sep: char)
    requires ws != [] && ws[0] != []
    ensures Joined(ws, sep) != [] && Joined(ws, sep)[0] == ws[0][0]
  {
  }

  lemma FirstIsRoot(par: Tree, cur: Option<string>)
    requires IsForest(par) && |TreeLines(par, cur)| > 0
    ensures var l := TreeLines(par, cur)[0]; l.name in par && l.prefix == ""
  {
    hide TreeLines, IsForest, Depth;
    var ls := TreeLines(par, cur);
    TreeIsDrawn(par, cur);
    LinesDrawn(par, cur);
    assert ls[0] in ls && GoodLine(par, cur, ls[0]);
  }

  /** The text determines the tree and its current snapshot. */
  lemma TextDeterminesTree(par: Tree, cur: Option<string>, par2: Tree, cur2: Option<string>)
    requires IsForest(par) && IsForest(par2) && Plain(par) && Plain(par2)
    requires Rendered(TreeLines(par, cur)) == Rendered(TreeLines(par2, cur2))
    ensures par == par2 && forall n :: n in par ==> (cur == Some(n) <==> cur2 == Some(n))
  {
    hide TreeLines, IsForest, Plain, Texts, Joined, Split;
    NoneIsSaidOfNone(par, cur);
    NoneIsSaidOfNone(par2, cur2);
    if par != map[] && par2 != map[] {
      var ls, ls2 := TreeLines(par, cur), TreeLines(par2, cur2);
      LinesAsMany(par, cur);
      LinesAsMany(par2, cur2);
      NoNewlines(par, cur);
      NoNewlines(par2, cur2);
      SplitOfJoined(Texts(ls), '\n');
      SplitOfJoined(Texts(ls2), '\n');
      LinesReadBack(par, cur, par2, cur2);
      LinesDetermineTree(par, cur, par2, cur2);
    }
  }

  lemma NoNewlines(par: Tree, cur: Option<string>)
    requires IsForest(par) && Plain(par)
    ensures var ts := Texts(TreeLines(par, cur)); forall i :: 0 <= i < |ts| ==> '\n' !in ts[i]
  {
    hide TreeLines, IsForest, Piece;
    var ls := TreeLines(par, cur);
    var names := NamesOf(ls);
    LinesAsMany(par, cur);
    TextsAre(par, cur);
    forall i | 0 <= i < |ls| ensures '\n' !in Texts(ls)[i] {
      assert names[i] in names && NameChars(names[i]);
      PieceHasNoNewline(par, cur, names[i]);
    }
  }

  lemma LinesReadBack(par: Tree, cur: Option<string>, par2: Tree, cur2: Option<string>)
    requires IsForest(par) && IsForest(par2) && Plain(par) && Plain(par2)
    requires Texts(TreeLines(par, cur)) == Texts(TreeLines(par2, cur2))
    ensures TreeLines(par, cur) == TreeLines(par2, cur2)
  {
    hide TreeLines, IsForest, Drawn, Drawing, NameChars;
    var ls, ls2 := TreeLines(par, cur), TreeLines(par2, cur2);
    LinesDrawn(par, cur);
    LinesDrawn(par2, cur2);
    assert |ls| == |Texts(ls)| == |Texts(ls2)| == |ls2|;
    forall i | 0 <= i < |ls| ensures ls[i] == ls2[i] {
      assert ls[i] in ls && ls2[i] in ls2;
      DrawnDraws(par, ls[i].name);
      DrawnDraws(par2, ls2[i].name);
      assert Texts(ls)[i] == Texts(ls2)[i];
      PieceReads(ls[i].prefix, ls[i].name, ls[i].current, ls2[i].prefix, ls2[i].name, ls2[i].current);
    }
  }
}
