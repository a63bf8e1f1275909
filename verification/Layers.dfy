/** qcow2 layers and the qemu-img primitives of qemu_img.py, by their documented
    effect. Addresses are sectors; a cluster is a group of sectors, so an
    allocated set of sectors covers every cluster size. */
module Layers {
  import opened Forest
  import opened Layout

  /** The data of one sector; 0 is the all-zero sector. */
  type Sector = nat
  type Content = seq<Sector>

  datatype Layer = Layer(data: map<nat, Sector>, size: nat, backing: Option<Path>, readonly: bool)

  /** The files of a home directory and of the base images it refers to. */
  type Files = map<Path, Layer>

  /** Reads past the end of a backing file, or with no backing file, give zero. */
  function At(c: Content, i: nat): Sector {
    if i < |c| then c[i] else 0
  }

  /** What an overlay shows: its own sectors, and through the holes what lies
      under it. */
  function Stack(data: map<nat, Sector>, size: nat, under: Content): (c: Content)
    ensures |c| == size
    ensures forall i :: 0 <= i < size ==> c[i] == if i in data then data[i] else At(under, i)
  {
    seq(size, i requires 0 <= i < size => if i in data then data[i] else At(under, i))
  }

  /** Backing links. A half-made `.reverting` file is not a layer of any disk. */
  function Links(fs: Files): (par: map<Path, Option<Path>>)
    ensures forall p :: p in par <==> p in fs && !p.Reverting?
  {
    map p | p in fs && !p.Reverting? :: fs[p].backing
  }

  function Compose(fs: Files, chain: seq<Path>): Content {
    if chain == [] || chain[0] !in fs then [] else
    Stack(fs[chain[0]].data, fs[chain[0]].size, Compose(fs, chain[1..]))
  }

  /** The visible content of a layer, its virtual size included. */
  function View(fs: Files, p: Path): Content {
    Compose(fs, Lineage(Links(fs), p))
  }

  function Under(fs: Files, backing: Option<Path>): Content {
    match backing
    case None => []
    case Some(b) => View(fs, b)
  }

  /** qemu can open the layer: the chain of backing files is complete and free
      of cycles. */
  predicate Opens(fs: Files, p: Path) {
    Rooted(Links(fs), p)
  }

  lemma ViewUnfolds(fs: Files, p: Path)
    requires Opens(fs, p)
    ensures fs[p].backing.Some? ==> Opens(fs, fs[p].backing.value)
    ensures View(fs, p) == Stack(fs[p].data, fs[p].size, Under(fs, fs[p].backing))
  {
    Unfold(Links(fs), p);
    var chain := Lineage(Links(fs), p);
    assert chain[1..] == if fs[p].backing.None? then [] else Lineage(Links(fs), fs[p].backing.value);
    assert chain[0] == p && Compose(fs, chain) == Stack(fs[p].data, fs[p].size, Compose(fs, chain[1..]));
  }

  /** A layer shows its own virtual size, whatever it sits on. */
  lemma ViewSize(fs: Files, p: Path)
    requires p in Links(fs)
    ensures |View(fs, p)| == fs[p].size
  {
    LineageDistinct(Links(fs), p);
  }

  /** Who may back whom: a layer of a disk sits on a snapshot of the same disk
      or on a base image, and a base image on nothing inside `vms/`. */
  predicate MayBack(p: Path, b: Path) {
    b.IsBase() || (b.Snap? && p.OfDisk(b.vm, b.disk))
  }

  ghost predicate WellFormed(fs: Files) {
    && IsForest(Links(fs))
    && forall p :: p in Links(fs) && fs[p].backing.Some? ==> MayBack(p, fs[p].backing.value)
  }

  // ---- qemu-img -----------------------------------------------------------

  /** `qemu-img create -b <backing>`: an empty overlay, by default of the size
      the backing file shows. */
  function NewOverlay(fs: Files, backing: Path, size: Option<nat>): Layer {
    Layer(map[], if size.Some? then size.value else |View(fs, backing)|, Some(backing), false)
  }

  /** Copy the sectors of `which` that the layer does not hold up from below. */
  function Pull(l: Layer, which: set<nat>, under: Content): Layer {
    l.(data := (map i | i in which && i < l.size :: At(under, i)) + l.data)
  }

  function Differing(size: nat, before: Content, after: Content): set<nat> {
    set i | 0 <= i < size && At(before, i) != At(after, i)
  }

  /** Safe `qemu-img rebase`: pull up every sector on which the two backing
      files differ, and any others (a cluster is copied whole), then re-point. */
  function SafeRebase(fs: Files, p: Path, backing: Option<Path>, others: set<nat>): Layer
    requires p in fs
  {
    var before, after := Under(fs, fs[p].backing), Under(fs, backing);
    Pull(fs[p], others + Differing(fs[p].size, before, after), before).(backing := backing)
  }

  // ---- laws ---------------------------------------------------------------

  lemma PullKeepsView(l: Layer, which: set<nat>, under: Content)
    ensures Stack(Pull(l, which, under).data, l.size, under) == Stack(l.data, l.size, under)
  {
  }

  lemma SafeRebaseKeepsView(fs: Files, p: Path, backing: Option<Path>, others: set<nat>)
    requires p in fs
    ensures var l := SafeRebase(fs, p, backing, others);
            Stack(l.data, l.size, Under(fs, backing)) == Stack(fs[p].data, fs[p].size, Under(fs, fs[p].backing))
  {
    hide View;
  }

  /** One layer of `fs` is found again, at `there`, in another set of files, and
      what it sits on is found again too. `loc` says where each layer went. */
  predicate Carried(fs: Files, fs': Files, loc: map<Path, Path>, p: Path)
    requires p in fs && p in loc
  {
    var there := loc[p];
    && there in fs' && !there.Reverting?
    && fs'[there].data == fs[p].data && fs'[there].size == fs[p].size
    && match fs[p].backing
       case None => fs'[there].backing == None
       case Some(b) => b in loc && fs'[there].backing == Some(loc[b])
  }

  /** Relocation: layers moved together with what backs them, and re-pointed at
      the new places, show what they showed. Snapshotting, deleting and
      restoring a bundle all rest on this. */
  lemma {:induction false} Relocation(fs: Files, fs': Files, loc: map<Path, Path>, p: Path)
    requires p in loc && Opens(fs, p)
    requires forall q :: q in loc ==> q in fs && Carried(fs, fs', loc, q)
    requires IsForest(Links(fs'))
    ensures View(fs', loc[p]) == View(fs, p)
    decreases |Lineage(Links(fs), p)|
  {
    ViewUnfolds(fs, p);
    ViewUnfolds(fs', loc[p]);
    if fs[p].backing.Some? {
      Unfold(Links(fs), p);
      Relocation(fs, fs', loc, fs[p].backing.value);
    }
  }

  /** Layers that stay put. `kept` is closed under backing links and its members
      are unchanged. */
  lemma Untouched(fs: Files, fs': Files, kept: set<Path>, p: Path)
    requires p in kept && IsForest(Links(fs)) && IsForest(Links(fs'))
    requires forall q :: q in kept ==>
      && q in Links(fs) && q in Links(fs')
      && fs'[q].data == fs[q].data && fs'[q].size == fs[q].size && fs'[q].backing == fs[q].backing
      && (fs[q].backing.Some? ==> fs[q].backing.value in kept)
    ensures View(fs', p) == View(fs, p)
  {
    var loc := map q | q in kept :: q;
    forall q | q in loc ensures q in fs && Carried(fs, fs', loc, q) {
      assert q in kept;
    }
    Relocation(fs, fs', loc, p);
  }

  /** If every layer still shows what it would have shown on top of the same
      things, nothing changes anywhere: the step that lifts a local rewrite of
      one layer to all of its descendants. */
  lemma {:induction false} LocalRewrite(fs: Files, fs': Files, p: Path)
    requires IsForest(Links(fs)) && IsForest(Links(fs'))
    requires p in Links(fs')
    requires forall q :: q in Links(fs') ==> q in Links(fs)
    requires forall q :: q in Links(fs') ==>
      Stack(fs'[q].data, fs'[q].size, Under(fs, fs'[q].backing)) == View(fs, q)
    ensures View(fs', p) == View(fs, p)
    decreases |Lineage(Links(fs'), p)|
  {
    ViewUnfolds(fs', p);
    if fs'[p].backing.Some? {
      Unfold(Links(fs'), p);
      LocalRewrite(fs, fs', fs'[p].backing.value);
    }
  }

  /** A file's mode has no part in what any layer shows. */
  lemma ModeDoesNotShow(fs: Files, p: Path, backing: Option<Path>)
    requires p in fs
    ensures Under(fs[p := fs[p].(readonly := false)], backing) == Under(fs, backing)
  {
    var fs' := fs[p := fs[p].(readonly := false)];
    assert Links(fs') == Links(fs);
    if backing.Some? {
      ComposeSame(fs, fs', Lineage(Links(fs), backing.value));
    }
  }

  lemma {:induction false} ComposeSame(fs: Files, fs': Files, chain: seq<Path>)
    requires fs.Keys == fs'.Keys
    requires forall q :: q in fs ==> fs'[q].data == fs[q].data && fs'[q].size == fs[q].size
    ensures Compose(fs', chain) == Compose(fs, chain)
    decreases |chain|
  {
    if chain != [] && chain[0] in fs {
      ComposeSame(fs, fs', chain[1..]);
    }
  }
}
