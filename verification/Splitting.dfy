/** Cutting text at a separator and putting it together again: `split` and `join`
    as Python and Rust have them. */
module Splitting {

  /** The pieces between separators: always at least one. */
  function Split(s: string, sep: char): (ws: seq<string>)
    ensures ws != [] && forall i :: 0 <= i < |ws| ==> sep !in ws[i]
    decreases |s|
  {
    if s == [] then [""]
    else
      var rest := Split(s[1..], sep);
      if s[0] == sep then [""] + rest else [[s[0]] + rest[0]] + rest[1..]
  }

  function Joined(ws: seq<string>, sep: char): string {
    if ws == [] then "" else if |ws| == 1 then ws[0] else ws[0] + [sep] + Joined(ws[1..], sep)
  }

  lemma SplitBlank(s: string, sep: char)
    ensures Split([sep] + s, sep) == [""] + Split(s, sep)
  {
    assert ([sep] + s)[1..] == s;
  }

  lemma SplitGrow(c: char, s: string, sep: char)
    requires c != sep
    ensures Split([c] + s, sep) == [[c] + Split(s, sep)[0]] + Split(s, sep)[1..]
  {
    assert ([c] + s)[1..] == s;
  }

  lemma JoinedBlank(ws: seq<string>, sep: char)
    requires |ws| > 1 && ws[0] == []
    ensures Joined(ws, sep) == [sep] + Joined(ws[1..], sep)
  {
  }

  lemma JoinedEmpty(sep: char)
    ensures Split(Joined([""], sep), sep) == [""]
  {
  }

  lemma JoinedHead(c: char, ws: seq<string>, shorter: seq<string>, sep: char)
    requires ws != [] && ws[0] != [] && c == ws[0][0] && shorter == [ws[0][1..]] + ws[1..]
    ensures Joined(ws, sep) == [c] + Joined(shorter, sep)
  {
    assert ws[0] == [c] + ws[0][1..];
    assert shorter[1..] == ws[1..];
    if |ws| > 1 {
      assert ws[0] + [sep] + Joined(ws[1..], sep) == [c] + (ws[0][1..] + [sep] + Joined(ws[1..], sep));
    }
  }

  /** Pieces without the separator are found again. */
  lemma {:induction false} SplitOfJoined(ws: seq<string>, sep: char)
    requires ws != [] && forall i :: 0 <= i < |ws| ==> sep !in ws[i]
    ensures Split(Joined(ws, sep), sep) == ws
    decreases |ws|, |ws[0]|
  {
    hide Split, Joined;
    if ws[0] != [] {
      var c, shorter := ws[0][0], [ws[0][1..]] + ws[1..];
      assert c in ws[0];
      JoinedHead(c, ws, shorter, sep);
      SplitOfJoined(shorter, sep);
      SplitGrow(c, Joined(shorter, sep), sep);
      assert [c] + shorter[0] == ws[0] && shorter[1..] == ws[1..];
      assert ws == [ws[0]] + ws[1..];
    } else if |ws| == 1 {
      assert ws == [""];
      JoinedEmpty(sep);
    } else {
      JoinedBlank(ws, sep);
      SplitOfJoined(ws[1..], sep);
      SplitBlank(Joined(ws[1..], sep), sep);
      assert ws == [""] + ws[1..];
    }
  }

  lemma {:induction false} JoinedSnoc(ws: seq<string>, w: string, sep: char)
    ensures Joined(ws + [w], sep) == if ws == [] then w else Joined(ws, sep) + [sep] + w
    decreases |ws|
  {
    if ws == [] {
      assert ws + [w] == [w];
    } else {
      assert (ws + [w])[1..] == ws[1..] + [w];
      JoinedSnoc(ws[1..], w, sep);
      if |ws| > 1 {
        assert ws[0] + [sep] + (Joined(ws[1..], sep) + [sep] + w) == ws[0] + [sep] + Joined(ws[1..], sep) + [sep] + w;
      }
    }
  }

  // ---- how many pieces ---------------------------------------------------------------------

  function Occurrences(s: string, c: char): nat {
    if s == [] then 0 else (if s[0] == c then 1 else 0) + Occurrences(s[1..], c)
  }

  lemma {:induction false} OccurrencesAppend(a: string, b: string, c: char)
    ensures Occurrences(a + b, c) == Occurrences(a, c) + Occurrences(b, c)
    decreases |a|
  {
    if a == [] {
      assert a + b == b;
    } else {
      assert (a + b)[1..] == a[1..] + b;
      OccurrencesAppend(a[1..], b, c);
    }
  }

  lemma {:induction false} NoneOccurs(s: string, c: char)
    ensures Occurrences(s, c) == 0 <==> c !in s
    decreases |s|
  {
    if s != [] {
      NoneOccurs(s[1..], c);
      assert c in s <==> s[0] == c || c in s[1..];
    }
  }

  lemma {:induction false} SplitCounts(s: string, sep: char)
    ensures |Split(s, sep)| == 1 + Occurrences(s, sep)
    decreases |s|
  {
    if s != [] { SplitCounts(s[1..], sep); }
  }

  /** There are as many pieces as were joined exactly if none held the separator. */
  lemma PiecesCounted(ws: seq<string>, sep: char)
    requires ws != []
    ensures |Split(Joined(ws, sep), sep)| == |ws| <==> forall i :: 0 <= i < |ws| ==> sep !in ws[i]
  {
    hide Split, Joined;
    SplitCounts(Joined(ws, sep), sep);
    JoinedCounts(ws, sep);
    AllNone(ws, sep);
  }

  function Total(ws: seq<string>, c: char): nat {
    if ws == [] then 0 else Occurrences(ws[0], c) + Total(ws[1..], c)
  }

  lemma {:induction false} JoinedCounts(ws: seq<string>, sep: char)
    requires ws != []
    ensures Occurrences(Joined(ws, sep), sep) == |ws| - 1 + Total(ws, sep)
    decreases |ws|
  {
    if |ws| == 1 {
      assert Total(ws[1..], sep) == 0;
    } else {
      JoinedCounts(ws[1..], sep);
      OccurrencesAppend(ws[0] + [sep], Joined(ws[1..], sep), sep);
      OccurrencesAppend(ws[0], [sep], sep);
      OneOccurrence(sep);
    }
  }

  lemma OneOccurrence(c: char)
    ensures Occurrences([c], c) == 1
  {
    assert [c][1..] == [];
  }

  lemma {:induction false} AllNone(ws: seq<string>, c: char)
    ensures Total(ws, c) == 0 <==> forall i :: 0 <= i < |ws| ==> c !in ws[i]
    decreases |ws|
  {
    if ws != [] {
      AllNone(ws[1..], c);
      NoneOccurs(ws[0], c);
      assert (forall i :: 0 <= i < |ws| ==> c !in ws[i]) <==> c !in ws[0] && forall i :: 0 <= i < |ws[1..]| ==> c !in ws[1..][i] by {
        forall i | 0 < i < |ws| ensures ws[i] == ws[1..][i - 1] { }
        forall i | 0 <= i < |ws[1..]| ensures ws[1..][i] == ws[i + 1] { }
      }
    }
  }
}
