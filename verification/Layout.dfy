/** The on-disk layout under one home directory (storage/README.md, "Disk layout
    conventions"). The rest of the model uses the structured `Path`; this module
    shows that nothing is lost: distinct structured paths are distinct file
    names, and the name parsing of `_snapshot_name_for` inverts the layout. */
module Layout {
  import opened Forest

  datatype Path =
    | Image(file: string)                                 // images/<file>
    | External(dir: seq<string>, file: string)            // a base image elsewhere
    | Active(vm: string, disk: string)                    // vms/<vm>/disks/<disk>.qcow2
    | Snap(vm: string, disk: string, name: string)        // vms/<vm>/snapshots/<disk>/<name>.qcow2
    | Reverting(vm: string, disk: string)                 // vms/<vm>/disks/<disk>.qcow2.reverting
  {
    predicate IsBase() { Image? || External? }
    predicate InVm(v: string) { (Active? || Snap? || Reverting?) && vm == v }
    predicate OfDisk(v: string, d: string) { (Active? || Snap?) && vm == v && disk == d }
  }

  const EXT := ".qcow2"

  predicate Alnum(c: char) { 'a' <= c <= 'z' || 'A' <= c <= 'Z' || '0' <= c <= '9' }

  predicate NameChars(s: string) {
    && s != [] && Alnum(s[0])
    && forall i :: 0 <= i < |s| ==> Alnum(s[i]) || s[i] == '.' || s[i] == '_' || s[i] == '-'
  }

  /** `_NAME_RE.match(name)`. The pattern's `$` also matches just before a
      final newline, so one trailing newline is let through. */
  predicate ValidName(s: string) {
    NameChars(s) || (s != [] && s[|s| - 1] == '\n' && NameChars(s[..|s| - 1]))
  }

  /** So a name that is let through follows the documented rule exactly when it
      does not end in a newline. */
  lemma AcceptedNames(s: string)
    ensures NameChars(s) ==> ValidName(s)
    ensures ValidName(s) ==> (NameChars(s) <==> s[|s| - 1] != '\n')
  {
  }

  /** No path traversal: a valid name is one path component, and not a dot name. */
  lemma NoTraversal(s: string)
    requires ValidName(s)
    ensures '/' !in s && s != "" && s[0] != '.' && s != "." && s != ".."
  {
  }

  lemma SomeNames()
    ensures ValidName("vm-1") && ValidName("A.b_9") && ValidName("0")
    ensures !ValidName("") && !ValidName(".a") && !ValidName("-a") && !ValidName("a b") && !ValidName("a/b")
  {
    assert "a b"[1] == ' ' && "a/b"[1] == '/';
    assert "vm-1"[2] == '-' && NameChars("vm-1") && NameChars("A.b_9") && NameChars("0");
  }

  lemma NewlineIsLetThrough()
    ensures ValidName("a\n") && !NameChars("a\n")
  {
    assert "a\n"[..1] == "a" && "a\n"[1] == '\n';
  }

  /** The file name of each structured path, one string per component. */
  function Locate(home: seq<string>, p: Path): seq<string> {
    match p
    case Image(f) => home + ["images", f]
    case External(d, f) => d + [f]
    case Active(v, d) => home + ["vms", v, "disks", d + EXT]
    case Snap(v, d, n) => home + ["vms", v, "snapshots", d, n + EXT]
    case Reverting(v, d) => home + ["vms", v, "disks", d + EXT + ".reverting"]
  }

  /** Base images given by path lie outside the home directory. */
  predicate Placed(home: seq<string>, p: Path) {
    p.External? ==> !(home <= p.dir)
  }

  /** `str.rfind(".")`, with -1 for no dot. */
  function LastDot(s: string): (i: int)
    ensures -1 <= i < |s|
    ensures i >= 0 ==> s[i] == '.'
    ensures forall j :: i < j < |s| ==> s[j] != '.'
  {
    if s == [] then -1
    else if s[|s| - 1] == '.' then |s| - 1
    else LastDot(s[..|s| - 1])
  }

  /** pathlib's `suffix`: from the last dot, unless it is the first or the last
      character. */
  function Suffix(s: string): string {
    if 0 < LastDot(s) < |s| - 1 then s[LastDot(s)..] else ""
  }

  function Stem(s: string): string {
    if 0 < LastDot(s) < |s| - 1 then s[..LastDot(s)] else s
  }

  /** `_snapshot_name_for`. */
  function SnapshotNameFor(home: seq<string>, vm: string, disk: string, file: seq<string>): Option<string> {
    if |file| > 0
       && file[..|file| - 1] == home + ["vms", vm, "snapshots", disk]
       && Suffix(file[|file| - 1]) == EXT
    then Some(Stem(file[|file| - 1]))
    else None
  }

  lemma StemOfLayerFile(name: string)
    requires name != []
    ensures Suffix(name + EXT) == EXT && Stem(name + EXT) == name
  {
    var s := name + EXT;
    assert s[|name|] == '.' && forall j :: |name| < j < |s| ==> s[j] == EXT[j - |name|];
    assert LastDot(s) == |name|;
    assert s[|name|..] == EXT && s[..|name|] == name;
  }

  /** A structured path inside the home: its place below the home. */
  lemma Below(home: seq<string>, p: Path)
    requires !p.External?
    ensures Locate(home, p) == home + Locate([], p)
    ensures home <= Locate(home, p)[..|Locate(home, p)| - 1]
  {
  }

  lemma BelowInjective(p: Path, q: Path)
    requires !p.External? && !q.External? && p != q
    ensures Locate([], p) != Locate([], q)
  {
    var a, b := Locate([], p), Locate([], q);
    var m, n := a[|a| - 1], b[|b| - 1];
    if p.Snap? && q.Snap? {
      assert p.name == m[..|m| - |EXT|] && q.name == n[..|n| - |EXT|];
      assert p.vm == a[1] && q.vm == b[1] && p.disk == a[3] && q.disk == b[3];
    } else if (p.Active? && q.Active?) || (p.Reverting? && q.Reverting?) {
      var k := if p.Active? then |EXT| else |EXT| + |".reverting"|;
      assert p.disk == m[..|m| - k] && q.disk == n[..|n| - k];
      assert p.vm == a[1] && q.vm == b[1];
    } else if p.Image? && q.Image? {
      assert a[1] == p.file && b[1] == q.file;
    } else if |a| == |b| {
      assert (m[|m| - 1] == '2' && n[|n| - 1] == 'g') || (m[|m| - 1] == 'g' && n[|n| - 1] == '2');
    }
  }

  /** Distinct structured paths are distinct files. */
  lemma LocateInjective(home: seq<string>, p: Path, q: Path)
    requires Placed(home, p) && Placed(home, q) && p != q
    ensures Locate(home, p) != Locate(home, q)
  {
    var a, b := Locate(home, p), Locate(home, q);
    if p.External? {
      assert a[..|a| - 1] == p.dir && a[|a| - 1] == p.file;
    }
    if q.External? {
      assert b[..|b| - 1] == q.dir && b[|b| - 1] == q.file;
    }
    if !p.External? { Below(home, p); }
    if !q.External? { Below(home, q); }
    if !p.External? && !q.External? {
      BelowInjective(p, q);
      assert a[|home|..] == Locate([], p) && b[|home|..] == Locate([], q);
    }
  }

  /** Read back from a file name, a layer is a snapshot of the disk exactly when
      it is one, and under its own name. */
  lemma {:induction false} SnapshotNameForInverts(home: seq<string>, vm: string, disk: string, p: Path)
    requires Placed(home, p)
    requires p.Snap? ==> p.name != []
    ensures SnapshotNameFor(home, vm, disk, Locate(home, p)) ==
            if p.Snap? && p.vm == vm && p.disk == disk then Some(p.name) else None
  {
    var file := Locate(home, p);
    var dir := file[..|file| - 1];
    var snapDir := home + ["vms", vm, "snapshots", disk];
    if p.Snap? {
      StemOfLayerFile(p.name);
      assert dir == home + ["vms", p.vm, "snapshots", p.disk];
      if dir == snapDir {
        assert dir[|home|..] == ["vms", p.vm, "snapshots", p.disk];
        assert snapDir[|home|..] == ["vms", vm, "snapshots", disk];
        assert p.vm == dir[|home| + 1] == vm && p.disk == dir[|home| + 3] == disk;
      }
    } else if p.External? {
      assert dir == p.dir;
      assert dir == snapDir ==> home <= dir;
    } else if p.Image? {
      assert |dir| == |home| + 1;
    } else {
      assert |dir| == |home| + 3;
    }
  }
}
