/** Python's `sorted` on strings: code-point order, and the one sequence that
    lists a finite set of names in that order. Paths in one directory sort by
    file name, so the order is taken after appending `ext`. */
module Names {

  predicate Le(a: string, b: string) {
    a == [] || (b != [] && (a[0] < b[0] || (a[0] == b[0] && Le(a[1..], b[1..]))))
  }

  /** Order by the first character that differs; a beginning comes first. */
  lemma {:induction false} LeExactly(a: string, b: string)
    ensures Le(a, b) <==> a <= b || exists i :: DiffersAt(a, b, i) && a[i] < b[i]
    decreases |a|
  {
    if a != [] && b != [] && a[0] == b[0] {
      LeExactly(a[1..], b[1..]);
      assert a == [a[0]] + a[1..] && b == [b[0]] + b[1..];
      if i :| DiffersAt(a[1..], b[1..], i) && a[1..][i] < b[1..][i] {
        assert a[..i + 1] == [a[0]] + a[1..][..i] && b[..i + 1] == [b[0]] + b[1..][..i];
        assert DiffersAt(a, b, i + 1);
      }
      if i :| DiffersAt(a, b, i) && a[i] < b[i] {
        assert a[1..][..i - 1] == a[..i][1..] && b[1..][..i - 1] == b[..i][1..];
        assert DiffersAt(a[1..], b[1..], i - 1);
      }
    } else if a != [] && b != [] {
      assert DiffersAt(a, b, 0);
      forall i | DiffersAt(a, b, i) ensures i == 0 { if i > 0 { FirstsAgree(a, b, i); } }
    }
  }

  lemma FirstsAgree(a: string, b: string, i: int)
    requires DiffersAt(a, b, i) && i > 0
    ensures a[0] == b[0]
  {
    assert a[..i][0] == b[..i][0];
  }

  /** The two agree up to `i` and differ there. */
  predicate DiffersAt(a: string, b: string, i: int) {
    0 <= i < |a| && i < |b| && a[..i] == b[..i] && a[i] != b[i]
  }

  lemma {:induction false} LeTotal(a: string, b: string)
    ensures Le(a, b) || Le(b, a)
    decreases |a|
  {
    if a != [] && b != [] && a[0] == b[0] { LeTotal(a[1..], b[1..]); }
  }

  lemma {:induction false} LeAntisymmetric(a: string, b: string)
    requires Le(a, b) && Le(b, a)
    ensures a == b
    decreases |a|
  {
    if a != [] && b != [] {
      LeAntisymmetric(a[1..], b[1..]);
      assert a == [a[0]] + a[1..] && b == [b[0]] + b[1..];
    }
  }

  lemma {:induction false} LeTransitive(a: string, b: string, c: string)
    requires Le(a, b) && Le(b, c)
    ensures Le(a, c)
    decreases |a|
  {
    if a != [] && a[0] == b[0] == c[0] { LeTransitive(a[1..], b[1..], c[1..]); }
  }

  /** The order of the files `a + ext` and `b + ext`. */
  predicate FileLe(a: string, b: string, ext: string) {
    Le(a + ext, b + ext)
  }

  lemma {:induction false} HasLeast(s: set<string>, ext: string) returns (least: string)
    requires s != {}
    ensures least in s && forall y :: y in s ==> FileLe(least, y, ext)
    decreases |s|
  {
    var x :| x in s;
    LeTotal(x + ext, x + ext);
    if s == {x} {
      least := x;
    } else {
      var m := HasLeast(s - {x}, ext);
      LeTotal(m + ext, x + ext);
      if FileLe(m, x, ext) {
        least := m;
      } else {
        least := x;
        forall y | y in s ensures FileLe(x, y, ext) {
          if y != x {
            assert FileLe(m, y, ext);
            LeTransitive(x + ext, m + ext, y + ext);
          }
        }
      }
    }
  }

  function Least(s: set<string>, ext: string): (least: string)
    requires s != {}
    ensures least in s && forall y :: y in s ==> FileLe(least, y, ext)
  {
    assert exists x :: x in s && forall y :: y in s ==> FileLe(x, y, ext) by {
      var x := HasLeast(s, ext);
    }
    assert forall x, y :: x in s && y in s && FileLe(x, y, ext) && FileLe(y, x, ext) ==> x == y by {
      forall x, y | x in s && y in s && FileLe(x, y, ext) && FileLe(y, x, ext) ensures x == y {
        LeAntisymmetric(x + ext, y + ext);
        assert x == (x + ext)[..|x|] && y == (y + ext)[..|y|];
      }
    }
    var x :| x in s && forall y :: y in s ==> FileLe(x, y, ext); x
  }

  function Sorted(s: set<string>, ext: string): (r: seq<string>)
    ensures |r| == |s|
    ensures forall x :: x in s <==> x in r
    decreases |s|
  {
    if s == {} then [] else
    var x := Least(s, ext);
    [x] + Sorted(s - {x}, ext)
  }

  predicate Increasing(r: seq<string>, ext: string) {
    forall i, j :: 0 <= i < j < |r| ==> r[i] != r[j] && FileLe(r[i], r[j], ext)
  }

  lemma {:induction false} SortedInOrder(s: set<string>, ext: string)
    ensures Increasing(Sorted(s, ext), ext)
    decreases |s|
  {
    if s != {} {
      var x := Least(s, ext);
      SortedInOrder(s - {x}, ext);
      FirstInOrder(x, s, Sorted(s - {x}, ext), ext);
    }
  }

  lemma FirstInOrder(x: string, s: set<string>, rest: seq<string>, ext: string)
    requires forall y :: y in s ==> FileLe(x, y, ext)
    requires (forall y :: y in rest ==> y in s - {x}) && Increasing(rest, ext)
    ensures Increasing([x] + rest, ext)
  {
    hide FileLe;
    var r := [x] + rest;
    forall i, j | 0 <= i < j < |r| ensures r[i] != r[j] && FileLe(r[i], r[j], ext) {
      assert r[j] == rest[j - 1] && rest[j - 1] in s - {x};
      if i > 0 { assert r[i] == rest[i - 1]; }
    }
  }
}
