/** Parent-pointer graphs. Three parts of the system walk such a graph: qcow2
    backing files, the snapshots of one disk, and the in-memory snapshot DAG.
    A walk that meets a missing node or comes back to a node it has passed is
    not `Rooted`; a graph whose every walk is rooted is a `Forest`. */
module Forest {

  datatype Option<+T> = None | Some(value: T)

  /** The nodes met when following parents from `x`, newest first. Each node is
      taken out of the graph when it is passed, so the walk always ends. */
  function Lineage<T>(par: map<T, Option<T>>, x: T): seq<T>
    decreases par.Keys
  {
    if x !in par then [] else
    match par[x]
    case None => [x]
    case Some(p) => [x] + Lineage(par - {x}, p)
  }

  /** A walk stays inside the graph and meets no node twice. */
  lemma {:induction false} LineageDistinct<T>(par: map<T, Option<T>>, x: T)
    ensures Lineage(par, x) != [] <==> x in par
    ensures x in par ==> Lineage(par, x)[0] == x
    ensures forall i :: 0 <= i < |Lineage(par, x)| ==> Lineage(par, x)[i] in par
    ensures forall i, j :: 0 <= i < j < |Lineage(par, x)| ==> Lineage(par, x)[i] != Lineage(par, x)[j]
    decreases par.Keys
  {
    if x in par && par[x].Some? {
      LineageDistinct(par - {x}, par[x].value);
    }
  }

  /** The walk from `x` ends at a node without a parent. */
  predicate Rooted<T>(par: map<T, Option<T>>, x: T)
    decreases par.Keys
  {
    x in par && (par[x].Some? ==> Rooted(par - {x}, par[x].value))
  }

  ghost predicate IsForest<T(!new)>(par: map<T, Option<T>>) {
    forall x :: x in par ==> Rooted(par, x)
  }

  /** Nodes that a rooted walk does not need can come back. */
  lemma {:induction false} Widen<T>(par: map<T, Option<T>>, gone: set<T>, x: T)
    requires Rooted(par - gone, x)
    ensures Rooted(par, x) && Lineage(par, x) == Lineage(par - gone, x)
    decreases par.Keys
  {
    if par[x].Some? {
      assert (par - gone) - {x} == (par - {x}) - gone;
      Widen(par - {x}, gone, par[x].value);
    }
  }

  /** On a rooted walk the clipped recursion of `Lineage` is the plain one: a
      node followed by its parent's lineage. */
  lemma Unfold<T>(par: map<T, Option<T>>, x: T)
    requires Rooted(par, x)
    ensures par[x].None? ==> Lineage(par, x) == [x]
    ensures par[x].Some? ==>
              && Rooted(par, par[x].value)
              && Lineage(par, x) == [x] + Lineage(par, par[x].value)
  {
    if par[x].Some? {
      Widen(par, {x}, par[x].value);
    }
  }

  /** Every node of a rooted walk is rooted, and its own lineage is the rest of
      the walk. */
  lemma {:induction false} LineageSuffix<T>(par: map<T, Option<T>>, x: T, i: nat)
    requires Rooted(par, x) && i < |Lineage(par, x)|
    ensures Rooted(par, Lineage(par, x)[i])
    ensures Lineage(par, Lineage(par, x)[i]) == Lineage(par, x)[i..]
    decreases i
  {
    Unfold(par, x);
    if i > 0 {
      LineageSuffix(par, par[x].value, i - 1);
    }
  }

  /** A rooted walk ends at a root and takes at most one step per node. */
  lemma {:induction false} LineageEndsAtRoot<T>(par: map<T, Option<T>>, x: T)
    requires Rooted(par, x)
    ensures 0 < |Lineage(par, x)| <= |par|
    ensures Lineage(par, x)[|Lineage(par, x)| - 1] in par
    ensures par[Lineage(par, x)[|Lineage(par, x)| - 1]] == None
    decreases par.Keys
  {
    LineageDistinct(par, x);
    if par[x].Some? {
      LineageEndsAtRoot(par - {x}, par[x].value);
      assert (par - {x}).Keys == par.Keys - {x};
    }
  }

  /** Parents that exist and have a smaller rank make a forest. */
  ghost predicate RanksDown<T(!new)>(par: map<T, Option<T>>, rank: map<T, nat>) {
    && par.Keys <= rank.Keys
    && forall x :: x in par && par[x].Some? ==>
      par[x].value in par && rank[par[x].value] < rank[x]
  }

  lemma RankedIsForest<T(!new)>(par: map<T, Option<T>>, rank: map<T, nat>)
    requires RanksDown(par, rank)
    ensures IsForest(par)
  {
    forall x | x in par ensures Rooted(par, x) {
      RankedRooted(par, rank, {}, x);
      assert par - {} == par;
    }
  }

  lemma {:induction false} RankedRooted<T(!new)>(par: map<T, Option<T>>, rank: map<T, nat>, gone: set<T>, x: T)
    requires RanksDown(par, rank) && x in par
    requires forall y :: y in gone ==> y in rank && rank[x] < rank[y]
    ensures Rooted(par - gone, x)
    decreases rank[x]
  {
    if par[x].Some? {
      RankedRooted(par, rank, gone + {x}, par[x].value);
      assert (par - gone) - {x} == par - (gone + {x});
    }
  }

  /** Distance to the root, counted in nodes: the rank every forest has. */
  ghost function Depths<T>(par: map<T, Option<T>>): (rank: map<T, nat>)
    ensures rank.Keys == par.Keys
  {
    map x | x in par :: |Lineage(par, x)|
  }

  lemma ForestRanksDown<T(!new)>(par: map<T, Option<T>>)
    requires IsForest(par)
    ensures RanksDown(par, Depths(par))
  {
    forall x | x in par && par[x].Some?
      ensures par[x].value in par && Depths(par)[par[x].value] < Depths(par)[x]
    {
      Unfold(par, x);
    }
  }

  // ---- filing a node under a parent ----------------------------------------------------------

  /** Position of `x` in `l`. */
  function IndexOf<T(==)>(l: seq<T>, x: T): (i: nat)
    requires x in l
    ensures i < |l| && l[i] == x && x !in l[..i]
  {
    if l[0] == x then 0 else
    var i := IndexOf(l[1..], x);
    assert l[..i + 1] == [l[0]] + l[1..][..i];
    1 + i
  }

  lemma {:induction false} IndexBehind<T>(h: T, t: seq<T>, x: T)
    requires x in t && h != x
    ensures x in [h] + t && IndexOf([h] + t, x) == 1 + IndexOf(t, x)
  {
    assert ([h] + t)[1..] == t;
  }

  /** Depth after re-filing `id` under `p`: the way to `id`, if it lies on the
      way, and then the way from `p`. */
  ghost function NewDepth<T>(par: map<T, Option<T>>, id: T, p: T, x: T): nat {
    if x == id then 1 + |Lineage(par, p)|
    else if id in Lineage(par, x) then IndexOf(Lineage(par, x), id) + 1 + |Lineage(par, p)|
    else |Lineage(par, x)|
  }

  lemma NewDepthDescends<T(!new)>(par: map<T, Option<T>>, id: T, p: T, x: T)
    requires IsForest(par) && p in par && id !in Lineage(par, p)
    requires x == id || (x in par && par[x].Some?)
    ensures var y := if x == id then p else par[x].value; y in par && NewDepth(par, id, p, y) < NewDepth(par, id, p, x)
  {
    LineageDistinct(par, p);
    if x != id {
      var y := par[x].value;
      Unfold(par, x);
      LineageDistinct(par, y);
      if id in Lineage(par, y) { IndexBehind(x, Lineage(par, y), id); }
      if y == id { assert Lineage(par, x)[1] == id; IndexBehind(x, Lineage(par, y), id); }
    }
  }

  lemma InsertKeepsForest<T(!new)>(par: map<T, Option<T>>, id: T, parent: Option<T>)
    requires IsForest(par) && (parent.Some? ==> parent.value in par && id !in Lineage(par, parent.value))
    ensures IsForest(par[id := parent])
  {
    var par' := par[id := parent];
    if parent.Some? {
      var p := parent.value;
      var rank := map x | x in par' :: NewDepth(par, id, p, x);
      forall x | x in par' && par'[x].Some? ensures par'[x].value in par' && rank[par'[x].value] < rank[x] {
        NewDepthDescends(par, id, p, x);
      }
      RankedIsForest(par', rank);
    } else {
      var rank := map x | x in par' :: if x == id then 0 else |Lineage(par, x)|;
      forall x | x in par' && par'[x].Some? ensures par'[x].value in par' && rank[par'[x].value] < rank[x] {
        Unfold(par, x);
        LineageDistinct(par, x);
      }
      RankedIsForest(par', rank);
    }
  }

  /** If `id` is an ancestor of its new parent, the two are on a cycle. */
  lemma InsertMakesCycle<T(!new)>(par: map<T, Option<T>>, id: T, p: T)
    requires IsForest(par) && p in par && id in Lineage(par, p)
    ensures !IsForest(par[id := Some(p)])
  {
    var par' := par[id := Some(p)];
    if IsForest(par') {
      var rank := Depths(par');
      ForestRanksDown(par');
      var n := IndexOf(Lineage(par, p), id);
      assert rank[p] < rank[id];
      DownTheChain(par, par', id, p, rank, n);
    }
  }

  lemma {:induction false} DownTheChain<T(!new)>(par: map<T, Option<T>>, par': map<T, Option<T>>, id: T, p: T, rank: map<T, nat>, i: nat)
    requires IsForest(par) && p in par && par' == par[id := Some(p)] && RanksDown(par', rank)
    requires i < |Lineage(par, p)| && id !in Lineage(par, p)[..i]
    ensures Lineage(par, p)[i] in par' && rank[Lineage(par, p)[i]] <= rank[p]
    decreases i
  {
    var l := Lineage(par, p);
    LineageDistinct(par, p);
    if i > 0 {
      assert l[..i][i - 1] == l[i - 1] && l[i - 1] in l[..i];
      assert forall x :: x in l[..i - 1] ==> x in l[..i];
      DownTheChain(par, par', id, p, rank, i - 1);
      LineageSuffix(par, p, i - 1);
      Unfold(par, l[i - 1]);
      assert l[i - 1..][1] == l[i];
      if par[l[i - 1]].Some? { LineageDistinct(par, par[l[i - 1]].value); }
    }
  }
}
