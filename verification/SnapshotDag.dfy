/** The in-memory snapshot DAG (crates/vmforge-core/src/snapshot.rs). */
module SnapshotDag {
  import opened Forest

  datatype Meta = Meta(id: string, parent: Option<string>, tag: Option<string>, created: nat)
  type Nodes = map<string, Meta>

  datatype Answer<+T> = Found(value: T) | SnapshotNotFound(id: string)

  function Parents(nodes: Nodes): (par: map<string, Option<string>>)
    ensures par.Keys == nodes.Keys
  {
    map i | i in nodes :: nodes[i].parent
  }

  /** Every node is filed under its own id. */
  ghost predicate Keyed(nodes: Nodes) {
    forall i :: i in nodes ==> nodes[i].id == i
  }

  predicate Accepts(nodes: Nodes, meta: Meta) {
    meta.parent.Some? ==> meta.parent.value in nodes
  }

  function Inserted(nodes: Nodes, meta: Meta): Nodes {
    if Accepts(nodes, meta) then nodes[meta.id := meta] else nodes
  }

  // ---- when inserting keeps the forest ---------------------------------------------------

  /** An accepted insertion keeps the forest exactly when the id is not among
      the new parent and its ancestors. An id that is new never is. */
  lemma InsertExactly(nodes: Nodes, meta: Meta)
    requires IsForest(Parents(nodes)) && Accepts(nodes, meta)
    ensures IsForest(Parents(Inserted(nodes, meta))) <==>
            (meta.parent.Some? ==> meta.id !in Lineage(Parents(nodes), meta.parent.value))
    ensures meta.id !in nodes ==> IsForest(Parents(Inserted(nodes, meta)))
  {
    var par := Parents(nodes);
    assert Parents(Inserted(nodes, meta)) == par[meta.id := meta.parent];
    if meta.parent.Some? && meta.id in Lineage(par, meta.parent.value) {
      InsertMakesCycle(par, meta.id, meta.parent.value);
      LineageDistinct(par, meta.parent.value);
    } else {
      InsertKeepsForest(par, meta.id, meta.parent);
    }
    if meta.parent.Some? { LineageDistinct(par, meta.parent.value); }
  }

  ghost function InsertAll(nodes: Nodes, ms: seq<Meta>): Nodes
    decreases |ms|
  {
    if ms == [] then nodes else InsertAll(Inserted(nodes, ms[0]), ms[1..])
  }

  lemma {:induction false} InsertAllSnoc(nodes: Nodes, ms: seq<Meta>, m: Meta)
    ensures InsertAll(nodes, ms + [m]) == Inserted(InsertAll(nodes, ms), m)
    decreases |ms|
  {
    if ms == [] {
      assert [m][1..] == [];
      assert ms + [m] == [m];
    } else {
      assert (ms + [m])[1..] == ms[1..] + [m];
      InsertAllSnoc(Inserted(nodes, ms[0]), ms[1..], m);
    }
  }

  /** Insertion `i` is accepted and carries `id`. */
  ghost predicate Files(ms: seq<Meta>, i: nat, id: string) {
    i < |ms| && ms[i].id == id && Accepts(InsertAll(map[], ms[..i]), ms[i])
  }

  /** What `get` finds after any insertions: the last accepted one with the id,
      and nothing exactly if there was none. */
  lemma {:induction false} FoundIsLastAccepted(ms: seq<Meta>, id: string)
    ensures id in InsertAll(map[], ms) <==> exists i: nat :: Files(ms, i, id)
    ensures forall i: nat :: Files(ms, i, id) && (forall j: nat :: i < j ==> !Files(ms, j, id)) ==> InsertAll(map[], ms)[id] == ms[i]
    decreases |ms|
  {
    hide Accepts;
    if ms != [] {
      var n, init, last := |ms| - 1, ms[..|ms| - 1], ms[|ms| - 1];
      assert ms == init + [last];
      InsertAllSnoc(map[], init, last);
      FoundIsLastAccepted(init, id);
      forall i: nat | i < n ensures Files(ms, i, id) <==> Files(init, i, id) { assert ms[..i] == init[..i]; }
      assert Files(ms, n, id) <==> last.id == id && Accepts(InsertAll(map[], init), last);
      if exists i: nat :: Files(init, i, id) {
        var i: nat :| Files(init, i, id);
        assert Files(ms, i, id);
      }
    }
  }

  /** As long as ids are new, any sequence of insertions leaves a forest. */
  lemma {:induction false} FreshRunIsForest(nodes: Nodes, ms: seq<Meta>)
    requires IsForest(Parents(nodes)) && Keyed(nodes)
    requires forall i :: 0 <= i < |ms| ==> ms[i].id !in nodes
    requires forall i, j :: 0 <= i < j < |ms| ==> ms[i].id != ms[j].id
    ensures IsForest(Parents(InsertAll(nodes, ms))) && Keyed(InsertAll(nodes, ms))
    decreases |ms|
  {
    if ms != [] {
      if Accepts(nodes, ms[0]) { InsertExactly(nodes, ms[0]); }
      assert forall i :: 0 <= i < |ms[1..]| ==> ms[1..][i] == ms[i + 1];
      FreshRunIsForest(Inserted(nodes, ms[0]), ms[1..]);
    }
  }

  /** Without that, re-inserting a root under its own child loops. */
  lemma ReinsertedRootLoops()
    ensures var r, c := Meta("r", None, None, 0), Meta("c", Some("r"), None, 1);
            !IsForest(Parents(InsertAll(map[], [r, c, Meta("r", Some("c"), None, 2)])))
  {
    var r, c, again := Meta("r", None, None, 0), Meta("c", Some("r"), None, 1), Meta("r", Some("c"), None, 2);
    var two: Nodes := map["r" := r, "c" := c];
    assert [r, c, again][1..] == [c, again] && [c, again][1..] == [again] && [again][1..] == [];
    assert InsertAll(map[], [r, c, again]) == InsertAll(map["r" := r], [c, again]) == InsertAll(two, [again]);
    assert InsertAll(two, [again]) == InsertAll(Inserted(two, again), []) == Inserted(two, again);
    var par := Parents(two);
    RankedIsForest(par, map["r" := 0, "c" := 1]);
    Unfold(par, "c");
    LineageDistinct(par, "r");
    assert Lineage(par, "c")[1] == "r";
    InsertExactly(two, again);
  }

  class SnapshotStore {
    var nodes: Nodes

    constructor ()
      ensures nodes == map[]
    {
      nodes := map[];
    }

    method Insert(meta: Meta) returns (r: Answer<()>)
      modifies this
      ensures nodes == Inserted(old(nodes), meta)
      ensures r == if Accepts(old(nodes), meta) then Found(()) else SnapshotNotFound(meta.parent.value)
      ensures old(Keyed(nodes)) ==> Keyed(nodes)
    {
      if meta.parent.Some? && meta.parent.value !in nodes { return SnapshotNotFound(meta.parent.value); }
      nodes := nodes[meta.id := meta];
      return Found(());
    }

    /** See FoundIsLastAccepted. */
    method Get(id: string) returns (r: Option<Meta>)
      ensures r == if id in nodes then Some(nodes[id]) else None
    {
      if id in nodes { return Some(nodes[id]); }
      return None;
    }

    /** The branches at `id`: exactly the nodes whose parent it is, each once. */
    method Children(id: string) returns (out: seq<Meta>)
      requires Keyed(nodes)
      ensures forall m :: m in out <==> m.id in nodes && nodes[m.id] == m && m.parent == Some(id)
      ensures forall i, j :: 0 <= i < j < |out| ==> out[i].id != out[j].id
    {
      out := [];
      var todo := nodes.Keys;
      while todo != {}
        invariant todo <= nodes.Keys
        invariant forall m :: m in out <==> m.id in nodes && m.id !in todo && nodes[m.id] == m && m.parent == Some(id)
        invariant forall i, j :: 0 <= i < j < |out| ==> out[i].id != out[j].id
        decreases |todo|
      {
        var k :| k in todo;
        todo := todo - {k};
        assert forall i :: 0 <= i < |out| ==> out[i] in out;
        if nodes[k].parent == Some(id) { out := out + [nodes[k]]; }
      }
    }

    /** From `id` back to its root, newest first: on a forest the loop ends, and
        only an unknown `id` is reported missing. */
    method LineageOf(id: string) returns (r: Answer<seq<Meta>>)
      requires IsForest(Parents(nodes))
      ensures id !in nodes ==> r == SnapshotNotFound(id)
      ensures id in nodes ==>
                && r.Found? && |r.value| == |Lineage(Parents(nodes), id)|
                && forall i :: 0 <= i < |r.value| ==>
                     Lineage(Parents(nodes), id)[i] in nodes && r.value[i] == nodes[Lineage(Parents(nodes), id)[i]]
    {
      ghost var par := Parents(nodes);
      ghost var l := Lineage(par, id);
      var out: seq<Meta> := [];
      var cur := Some(id);
      LineageDistinct(par, id);
      while cur.Some?
        invariant id in nodes ==> |out| <= |l| && cur == (if |out| < |l| then Some(l[|out|]) else None)
        invariant id !in nodes ==> out == [] && cur == Some(id)
        invariant forall i :: 0 <= i < |out| ==> i < |l| && l[i] in nodes && out[i] == nodes[l[i]]
        decreases if id in nodes then |l| - |out| else 1
      {
        if cur.value !in nodes { return SnapshotNotFound(cur.value); }
        var node := nodes[cur.value];
        LineageSuffix(par, id, |out|);
        Unfold(par, cur.value);
        assert l[|out|..] == [cur.value] + l[|out| + 1..];
        if node.parent.Some? {
          LineageDistinct(par, node.parent.value);
          assert l[|out|..][1] == l[|out| + 1];
        }
        cur := node.parent;
        out := out + [node];
      }
      return Found(out);
    }
  }
}
