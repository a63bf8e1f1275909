/** When each operation of the disk store succeeds, which error each of its guards
    gives, and what is left then: told from the files alone. */
module Guards {
  import opened Forest
  import opened Layout
  import opened Layers
  import opened Store

  predicate NamesOk(v: string, d: string) { ValidName(v) && ValidName(d) }

  ghost predicate HasSnapshots(fs: Files, v: string, d: string) {
    exists n :: Snap(v, d, n) in fs
  }

  /** Snapshot `k` of the disk was taken on snapshot `n`. */
  predicate TakenOn(fs: Files, v: string, d: string, k: string, n: string) {
    Snap(v, d, k) in fs && fs[Snap(v, d, k)].backing == Some(Snap(v, d, n))
  }

  ghost predicate HasChild(fs: Files, v: string, d: string, n: string) {
    exists k :: TakenOn(fs, v, d, k, n)
  }

  ghost predicate HasTwoChildren(fs: Files, v: string, d: string, n: string) {
    exists k, m :: k != m && TakenOn(fs, v, d, k, n) && TakenOn(fs, v, d, m, n)
  }

  /** Its own parent is a snapshot of the disk that is not there. */
  ghost predicate ParentMissing(fs: Files, v: string, d: string, n: string) {
    exists g :: TakenOn(fs, v, d, n, g) && Snap(v, d, g) !in fs
  }

  /** `o` is what the operation must answer on these files. */
  ghost predicate Answers(fs: Files, op: Op, o: Outcome) {
    match op
    case CreateDisk(v, d, _, works) =>
      && (o == Err(InvalidConfig) <==> !NamesOk(v, d))
      && (o == Err(AlreadyExists) <==> NamesOk(v, d) && Active(v, d) in fs)
      && (o == Err(ToolFailed) <==> NamesOk(v, d) && Active(v, d) !in fs && !works)
      && (o == Ok <==> NamesOk(v, d) && Active(v, d) !in fs && works)
    case ImportImage(n, _, works) =>
      && (o == Err(InvalidConfig) <==> !ValidName(n))
      && (o == Err(AlreadyExists) <==> ValidName(n) && Image(n + EXT) in fs)
      && (o == Err(ToolFailed) <==> ValidName(n) && Image(n + EXT) !in fs && !works)
      && (o == Ok <==> ValidName(n) && Image(n + EXT) !in fs && works)
    case ImportDisk(v, d, _, works) =>
      && (o == Err(InvalidConfig) <==> !NamesOk(v, d))
      && (o == Err(AlreadyExists) <==> NamesOk(v, d) && Active(v, d) in fs)
      && (o == Err(ToolFailed) <==> NamesOk(v, d) && Active(v, d) !in fs && !works)
      && (o == Ok <==> NamesOk(v, d) && Active(v, d) !in fs && works)
    case CloneDisk(b, v, d, _, works) =>
      !b.Reverting? ==>
        && (o == Err(NotFound) <==> b !in fs)
        && (o == Err(ToolFailed) <==> b in fs && !works)
        && (o == Err(InvalidConfig) <==> b in fs && works && !NamesOk(v, d))
        && (o == Err(AlreadyExists) <==> b in fs && works && NamesOk(v, d) && Active(v, d) in fs)
        && (o == Ok <==> b in fs && works && NamesOk(v, d) && Active(v, d) !in fs)
    case DeleteDisk(v, d, force) =>
      && (o == Err(InvalidConfig) <==> !NamesOk(v, d))
      && (o == Err(NotFound) <==> NamesOk(v, d) && Active(v, d) !in fs)
      && (o == Err(InvalidState) <==> NamesOk(v, d) && Active(v, d) in fs && !force && HasSnapshots(fs, v, d))
      && (o == Ok <==> NamesOk(v, d) && Active(v, d) in fs && (force || !HasSnapshots(fs, v, d)))
    case ResizeDisk(v, d, _, works) =>
      && (o == Err(InvalidConfig) <==> !NamesOk(v, d))
      && (o == Err(NotFound) <==> NamesOk(v, d) && Active(v, d) !in fs)
      && (o == Err(ToolFailed) <==> NamesOk(v, d) && Active(v, d) in fs && !works)
      && (o == Ok <==> NamesOk(v, d) && Active(v, d) in fs && works)
    case SnapshotCreate(v, d, n, run) =>
      && (o == Err(InvalidConfig) <==> !NamesOk(v, d) || (Active(v, d) in fs && !ValidName(n)))
      && (o == Err(NotFound) <==> NamesOk(v, d) && Active(v, d) !in fs)
      && (o == Err(AlreadyExists) <==> NamesOk(v, d) && Active(v, d) in fs && ValidName(n) && Snap(v, d, n) in fs)
      && (o == Err(ToolFailed) <==> NamesOk(v, d) && Active(v, d) in fs && ValidName(n) && Snap(v, d, n) !in fs && run != Created)
      && (o == Ok <==> NamesOk(v, d) && Active(v, d) in fs && ValidName(n) && Snap(v, d, n) !in fs && run == Created)
    case SnapshotRevert(v, d, n, run) =>
      && (o == Err(InvalidConfig) <==> !NamesOk(v, d))
      && (o == Err(NotFound) <==> NamesOk(v, d) && (Active(v, d) !in fs || (run != InfoFails && Snap(v, d, n) !in fs)))
      && (o == Err(ToolFailed) <==> NamesOk(v, d) && Active(v, d) in fs && (run == InfoFails || (Snap(v, d, n) in fs && run != Created)))
      && (o == Ok <==> NamesOk(v, d) && Active(v, d) in fs && Snap(v, d, n) in fs && run == Created)
    case SnapshotDelete(v, d, n, run) =>
      var found := NamesOk(v, d) && Active(v, d) in fs && !run.ListFails? && Snap(v, d, n) in fs;
      var busy := found && (fs[Active(v, d)].backing == Some(Snap(v, d, n)) || HasTwoChildren(fs, v, d, n));
      var squash := found && !busy && HasChild(fs, v, d, n);
      && (o == Err(InvalidConfig) <==> !NamesOk(v, d))
      && (o == Err(InvalidState) <==> busy)
      && (o == Err(NotFound) <==>
           || (NamesOk(v, d) && (Active(v, d) !in fs || (!run.ListFails? && Snap(v, d, n) !in fs)))
           || (squash && ParentMissing(fs, v, d, n)))
      && (o == Err(ToolFailed) <==>
           || (NamesOk(v, d) && Active(v, d) in fs && run.ListFails?)
           || (squash && !ParentMissing(fs, v, d, n) && run.RebaseStops?))
      && (o == Ok <==> found && !busy && (squash ==> !ParentMissing(fs, v, d, n) && !run.RebaseStops?))
    case GuestWrite(v, d, _, _) =>
      && (o == Err(NotFound) <==> Active(v, d) !in fs)
      && (o == Ok <==> Active(v, d) in fs)
  }

  lemma KidIsTakenOn(fs: Files, v: string, d: string, k: Path, n: string)
    ensures k in Kids(Links(fs), Snap(v, d, n)) <==> k.Snap? && k.vm == v && k.disk == d && TakenOn(fs, v, d, k.name, n)
  {
  }

  /** Children counted and children named. */
  lemma KidsAre(fs: Files, v: string, d: string, n: string)
    ensures Kids(Links(fs), Snap(v, d, n)) != {} <==> HasChild(fs, v, d, n)
    ensures |Kids(Links(fs), Snap(v, d, n))| > 1 <==> HasTwoChildren(fs, v, d, n)
  {
    hide Kids, TakenOn;
    var kids := Kids(Links(fs), Snap(v, d, n));
    forall k: Path ensures k in kids <==> k.Snap? && k.vm == v && k.disk == d && TakenOn(fs, v, d, k.name, n) { KidIsTakenOn(fs, v, d, k, n); }
    if HasChild(fs, v, d, n) {
      var k :| TakenOn(fs, v, d, k, n);
      assert Snap(v, d, k) in kids;
    }
    if kids != {} {
      var k :| k in kids;
      assert TakenOn(fs, v, d, k.name, n);
    }
    if |kids| > 1 {
      var a :| a in kids;
      assert |kids - {a}| > 0;
      var b :| b in kids - {a};
      assert a.name != b.name && TakenOn(fs, v, d, a.name, n) && TakenOn(fs, v, d, b.name, n);
    }
    if HasTwoChildren(fs, v, d, n) {
      var k, m :| k != m && TakenOn(fs, v, d, k, n) && TakenOn(fs, v, d, m, n);
      TwoAreTwo(kids, Snap(v, d, k), Snap(v, d, m));
    }
  }

  lemma TwoAreTwo(s: set<Path>, a: Path, b: Path)
    requires a in s && b in s && a != b
    ensures |s| > 1
  {
    assert |s - {a}| > 0;
  }

  lemma SnapsAre(fs: Files, v: string, d: string)
    ensures SnapsOf(Links(fs), v, d) != {} <==> HasSnapshots(fs, v, d)
  {
    if HasSnapshots(fs, v, d) {
      var n :| Snap(v, d, n) in fs;
      assert Snap(v, d, n) in SnapsOf(Links(fs), v, d);
    }
  }

  lemma ParentIs(fs: Files, v: string, d: string, n: string)
    requires Snap(v, d, n) in fs
    ensures var p := TreeParent(Links(fs), Snap(v, d, n)); (p.Some? && p.value !in Links(fs)) <==> ParentMissing(fs, v, d, n)
  {
    var p := TreeParent(Links(fs), Snap(v, d, n));
    if p.Some? { assert TakenOn(fs, v, d, n, p.value.name); }
  }

  /** The store answers so. */
  lemma StoreAnswers(fs: Files, op: Op)
    ensures Answers(fs, op, Verdict(Links(fs), op))
  {
    hide ValidName, TakenOn, Kids, TreeParent, HasSnapshots, HasChild, HasTwoChildren, ParentMissing, SnapsOf;
    if op.SnapshotDelete? {
      DeletionAnswers(fs, op);
    } else if op.DeleteDisk? {
      SnapsAre(fs, op.vm, op.disk);
    }
  }

  lemma DeletionAnswers(fs: Files, op: Op)
    requires op.SnapshotDelete?
    ensures Answers(fs, op, Verdict(Links(fs), op))
  {
    hide ValidName, TakenOn, Kids, TreeParent, HasChild, HasTwoChildren, ParentMissing;
    KidsAre(fs, op.vm, op.disk, op.name);
    if Snap(op.vm, op.disk, op.name) in fs { ParentIs(fs, op.vm, op.disk, op.name); }
  }

  /** There is one answer to give. */
  lemma OneAnswer(fs: Files, op: Op, o: Outcome, o2: Outcome)
    requires Answers(fs, op, o) && Answers(fs, op, o2) && !(op.CloneDisk? && op.base.Reverting?)
    ensures o == o2
  {
    hide ValidName, TakenOn, HasSnapshots, HasChild, HasTwoChildren, ParentMissing;
  }

  /** A refusal changes nothing. */
  lemma RefusalsKeepFiles(fs: Files, op: Op, e: Error)
    requires Answers(fs, op, Err(e)) && e != ToolFailed && !(op.CloneDisk? && op.base.Reverting?)
    ensures Step(fs, op) == fs
  {
    hide Answers, Verdict, Effect;
    StoreAnswers(fs, op);
    OneAnswer(fs, op, Err(e), Verdict(Links(fs), op));
  }

  // ---- after a deletion -----------------------------------------------------------------------

  /** Without force a disk with snapshots is left alone; otherwise all of it goes
      and nothing else does. */
  lemma DiskDeletion(fs: Files, v: string, d: string, force: bool)
    requires NamesOk(v, d) && Active(v, d) in fs
    ensures var fs' := Step(fs, DeleteDisk(v, d, force));
            if !force && HasSnapshots(fs, v, d) then fs' == fs
            else (forall p :: p in fs' <==> p in fs && !p.OfDisk(v, d)) && forall p :: p in fs' ==> fs'[p] == fs[p]
  {
    hide ValidName;
    SnapsAre(fs, v, d);
  }

  /** A snapshot that is deleted goes alone; its child, if it has one, now sits on
      what the snapshot sat on, or on nothing if that was a base image, is
      read-only again, and every other file is as it was. */
  lemma SnapshotDeletion(fs: Files, v: string, d: string, n: string, run: RebaseRun)
    requires Answers(fs, SnapshotDelete(v, d, n, run), Ok) && !TakenOn(fs, v, d, n, n)
    ensures var fs' := Step(fs, SnapshotDelete(v, d, n, run)); var s := Snap(v, d, n);
            && (forall p :: p in fs' <==> p in fs && p != s)
            && (forall k :: TakenOn(fs, v, d, k, n) ==>
                 && Snap(v, d, k) in fs' && fs'[Snap(v, d, k)].readonly && fs'[Snap(v, d, k)].size == fs[Snap(v, d, k)].size
                 && fs'[Snap(v, d, k)].backing ==
                    if fs[s].backing.Some? && fs[s].backing.value.Snap? && fs[s].backing.value.OfDisk(v, d) then fs[s].backing else None)
            && (forall p :: p in fs' && !(p.Snap? && p.OfDisk(v, d) && TakenOn(fs, v, d, p.name, n)) ==> fs'[p] == fs[p])
  {
    hide ValidName, View, Kids, HasTwoChildren, ParentMissing;
    var op, s := SnapshotDelete(v, d, n, run), Snap(v, d, n);
    VerdictOk(fs, op);
    KidsAre(fs, v, d, n);
    if Kids(Links(fs), s) == {} {
      forall k ensures !TakenOn(fs, v, d, k, n) { assert !HasChild(fs, v, d, n); }
    } else {
      var k := OnlyKid(fs, s);
      KidIsTakenOn(fs, v, d, k, n);
      forall m | TakenOn(fs, v, d, m, n) ensures Snap(v, d, m) == k {
        KidIsTakenOn(fs, v, d, Snap(v, d, m), n);
        OneKid(Kids(Links(fs), s), k, Snap(v, d, m));
      }
    }
  }

  lemma OneKid(s: set<Path>, a: Path, b: Path)
    requires a in s && b in s && |s| <= 1
    ensures a == b
  {
    if a != b { TwoAreTwo(s, a, b); }
  }

  lemma VerdictOk(fs: Files, op: Op)
    requires op.SnapshotDelete? && Answers(fs, op, Ok)
    ensures Verdict(Links(fs), op).Ok? && |Kids(Links(fs), Snap(op.vm, op.disk, op.name))| <= 1
  {
    hide ValidName, TakenOn, Kids, TreeParent, HasChild, HasTwoChildren, ParentMissing;
    StoreAnswers(fs, op);
    KidsAre(fs, op.vm, op.disk, op.name);
  }
}
