/** Redaction of single lines (crates/vmforge-cli/src/redact.rs): credentials
    after an authorization scheme, and long bare tokens. */
module Redact {
  import opened Forest
  import opened Splitting

  const REDACTED := "[REDACTED]"

  function Lower(c: char): char {
    if 'A' <= c <= 'Z' then (c as int + 32) as char else c
  }

  /** `char::is_whitespace`: the Unicode White_Space characters. */
  predicate White(c: char) {
    var u := c as int;
    || 9 <= u <= 13 || u == 0x20 || u == 0x85 || u == 0xA0 || u == 0x1680
    || 0x2000 <= u <= 0x200A || u == 0x2028 || u == 0x2029 || u == 0x202F || u == 0x205F || u == 0x3000
  }

  /** Length in bytes, as `str::len` counts it. */
  function Utf8Len(s: string): nat {
    if s == [] then 0 else
    (var u := s[0] as int; if u < 0x80 then 1 else if u < 0x800 then 2 else if u < 0x10000 then 3 else 4) + Utf8Len(s[1..])
  }

  // ---- authorization schemes ---------------------------------------------------------------------

  const BEARER := "bearer "
  const BASIC := "basic "

  predicate MatchesAt(s: string, kw: string, j: nat) {
    j + |kw| <= |s| && forall x :: 0 <= x < |kw| ==> Lower(s[j + x]) == kw[x]
  }

  /** `find`, ignoring ASCII case: the first match at or after `from`. */
  function Find(s: string, kw: string, from: nat): (r: Option<nat>)
    ensures r.Some? ==> from <= r.value && MatchesAt(s, kw, r.value) && forall j :: from <= j < r.value ==> !MatchesAt(s, kw, j)
    ensures r.None? ==> forall j :: from <= j ==> !MatchesAt(s, kw, j)
    decreases |s| - from
  {
    if from + |kw| > |s| then None
    else if MatchesAt(s, kw, from) then Some(from)
    else if from == |s| then None
    else Find(s, kw, from + 1)
  }

  datatype Hit = NoHit | Hit(at: nat, len: nat)

  /** The first scheme word in the line. */
  function FirstHit(s: string): (h: Hit)
    ensures h.Hit? ==> h.at + h.len <= |s| && h.len >= 6
  {
    match (Find(s, BEARER, 0), Find(s, BASIC, 0))
    case (None, None) => NoHit
    case (Some(i), None) => Hit(i, |BEARER|)
    case (None, Some(j)) => Hit(j, |BASIC|)
    case (Some(i), Some(j)) => if i < j then Hit(i, |BEARER|) else Hit(j, |BASIC|)
  }

  /** The first whitespace at or after `from`, or the end. */
  function WordEnd(s: string, from: nat): (e: nat)
    requires from <= |s|
    ensures from <= e <= |s| && (e < |s| ==> White(s[e])) && forall i :: from <= i < e ==> !White(s[i])
    decreases |s| - from
  {
    if from == |s| || White(s[from]) then from else WordEnd(s, from + 1)
  }

  /** What replaces a value: credentials have eight bytes or more. */
  function Masked(value: string): string {
    if Utf8Len(value) >= 8 then REDACTED else value
  }

  /** `redact_auth_schemes`. Each round consumes a scheme word at least. */
  function AuthSchemes(s: string): string
    decreases |s|
  {
    match FirstHit(s)
    case NoHit => s
    case Hit(at, len) =>
      var start := at + len;
      var end := WordEnd(s, start);
      s[..start] + Masked(s[start..end]) + AuthSchemes(s[end..])
  }

  predicate IsHit(s: string, at: nat, len: nat) {
    (len == |BEARER| && MatchesAt(s, BEARER, at)) || (len == |BASIC| && MatchesAt(s, BASIC, at))
  }

  function LetterAfter(s: string, at: nat): char {
    if at + 1 < |s| then Lower(s[at + 1]) else ' '
  }

  /** The two words differ in their second letter. */
  lemma SecondLetter(s: string, kw: string, at: nat)
    requires |kw| > 1
    ensures MatchesAt(s, kw, at) ==> LetterAfter(s, at) == kw[1]
  {
    if MatchesAt(s, kw, at) { assert Lower(s[at + 1]) == kw[1]; }
  }

  /** The hit is the leftmost match of either word. */
  lemma FirstHitIs(s: string, at: nat, len: nat)
    requires IsHit(s, at, len)
    requires forall j :: 0 <= j < at ==> !MatchesAt(s, BEARER, j) && !MatchesAt(s, BASIC, j)
    ensures FirstHit(s) == Hit(at, len)
  {
    SecondLetter(s, BEARER, at);
    SecondLetter(s, BASIC, at);
    var f, g := Find(s, BEARER, 0), Find(s, BASIC, 0);
  }

  lemma HitIsLeftmost(s: string)
    requires FirstHit(s).Hit?
    ensures var h := FirstHit(s);
            IsHit(s, h.at, h.len) && forall j :: 0 <= j < h.at ==> !MatchesAt(s, BEARER, j) && !MatchesAt(s, BASIC, j)
  {
  }

  /** A hit depends only on the text up to its end. */
  lemma SameHit(s: string, t: string)
    requires FirstHit(s).Hit?
    requires var n := FirstHit(s).at + FirstHit(s).len; n <= |t| && t[..n] == s[..n]
    ensures FirstHit(t) == FirstHit(s)
  {
    hide FirstHit;
    var h := FirstHit(s);
    var n := h.at + h.len;
    HitIsLeftmost(s);
    forall i | 0 <= i < n ensures t[i] == s[i] { assert t[i] == t[..n][i] && s[i] == s[..n][i]; }
    forall j | 0 <= j < h.at ensures !MatchesAt(t, BEARER, j) && !MatchesAt(t, BASIC, j) {
      NoMatchMoves(s, t, BEARER, j, n);
      NoMatchMoves(s, t, BASIC, j, n);
    }
    FirstHitIs(t, h.at, h.len);
  }

  lemma NoMatchMoves(s: string, t: string, kw: string, j: nat, n: nat)
    requires n <= |s| && n <= |t| && (forall i :: 0 <= i < n ==> t[i] == s[i]) && j + |kw| <= n
    requires !MatchesAt(s, kw, j)
    ensures !MatchesAt(t, kw, j)
  {
    var x :| 0 <= x < |kw| && Lower(s[j + x]) != kw[x];
    assert t[j + x] == s[j + x];
  }

  /** A line that begins with whitespace still does after redaction. */
  lemma KeepsLeadingWhite(s: string)
    requires s != [] && White(s[0])
    ensures AuthSchemes(s) != [] && AuthSchemes(s)[0] == s[0]
  {
    if FirstHit(s).Hit? {
      var h := FirstHit(s);
      assert s[..h.at + h.len][0] == s[0];
    }
  }

  lemma NoWhite(value: string)
    requires forall i :: 0 <= i < |value| ==> !White(value[i])
    ensures forall i :: 0 <= i < |Masked(value)| ==> !White(Masked(value)[i])
  {
  }

  lemma WordEndIs(s: string, from: nat, end: nat)
    requires from <= end <= |s| && (end < |s| ==> White(s[end])) && forall i :: from <= i < end ==> !White(s[i])
    ensures WordEnd(s, from) == end
  {
  }

  /** No scheme word the scan stops at is followed by a value that still looks
      like a credential. */
  predicate Clean(t: string)
    decreases |t|
  {
    match FirstHit(t)
    case NoHit => true
    case Hit(at, len) =>
      var start := at + len;
      var end := WordEnd(t, start);
      (Utf8Len(t[start..end]) < 8 || t[start..end] == REDACTED) && Clean(t[end..])
  }

  lemma MaskedIsClean(value: string)
    ensures Utf8Len(Masked(value)) < 8 || Masked(value) == REDACTED
  {
  }

  /** The scan stops at the same places in its own output. */
  lemma Rescan(s: string, h: Hit, mid: string, tail: string)
    requires FirstHit(s) == h && h.Hit? && forall i :: 0 <= i < |mid| ==> !White(mid[i])
    requires tail != [] ==> White(tail[0])
    ensures var start := h.at + h.len; var out := s[..start] + mid + tail;
            && FirstHit(out) == h && WordEnd(out, start) == start + |mid|
            && out[start..start + |mid|] == mid && out[start + |mid|..] == tail
  {
    hide FirstHit, WordEnd;
    var start := h.at + h.len;
    var out := s[..start] + mid + tail;
    assert out[..start] == s[..start];
    SameHit(s, out);
    forall i | start <= i < start + |mid| ensures !White(out[i]) { assert out[i] == mid[i - start]; }
    TailStarts(s[..start], mid, tail);
    WordEndIs(out, start, start + |mid|);
  }

  /** Every output is clean. */
  lemma {:induction false} AuthClean(s: string)
    ensures Clean(AuthSchemes(s))
    decreases |s|
  {
    hide FirstHit, WordEnd, Utf8Len, Masked, White;
    if FirstHit(s).Hit? {
      var h := FirstHit(s);
      var start := h.at + h.len;
      var end := WordEnd(s, start);
      var value, rest := s[start..end], s[end..];
      AuthClean(rest);
      NoWhite(value);
      MaskedIsClean(value);
      if rest == [] { EmptyStays(); } else { KeepsLeadingWhite(rest); }
      Rescan(s, h, Masked(value), AuthSchemes(rest));
    }
  }

  /** The clean lines are exactly those left as they are. */
  lemma CleanIsFixed(t: string)
    ensures Clean(t) <==> AuthSchemes(t) == t
  {
    AuthClean(t);
    if Clean(t) { CleanStays(t); }
  }

  lemma CleanHead(t: string, start: nat, end: nat)
    requires Clean(t) && FirstHit(t).Hit? && start == FirstHit(t).at + FirstHit(t).len && end == WordEnd(t, start)
    ensures Masked(t[start..end]) == t[start..end] && Clean(t[end..])
  {
    hide FirstHit, WordEnd, Utf8Len;
  }

  lemma {:induction false} CleanStays(t: string)
    requires Clean(t)
    ensures AuthSchemes(t) == t
    decreases |t|
  {
    hide FirstHit, WordEnd, Utf8Len, White, Masked, Clean;
    if FirstHit(t).Hit? {
      var start := FirstHit(t).at + FirstHit(t).len;
      var end := WordEnd(t, start);
      CleanHead(t, start, end);
      CleanStays(t[end..]);
      assert t == t[..start] + t[start..end] + t[end..];
    }
  }

  /** Redacting credentials once is enough. */
  lemma AuthIdempotent(s: string)
    ensures AuthSchemes(AuthSchemes(s)) == AuthSchemes(s)
  {
    AuthClean(s);
    CleanStays(AuthSchemes(s));
  }

  lemma TailStarts(a: string, b: string, c: string)
    ensures (a + b + c)[|a| + |b|..] == c && (c != [] ==> (a + b + c)[|a| + |b|] == c[0])
  {
  }

  lemma EmptyStays()
    ensures AuthSchemes("") == ""
  {
  }

  // ---- scheme words that are values themselves ----------------------------------------------------

  /** The word from `from` on looks like a credential. */
  predicate Loose(t: string, from: nat) {
    from <= |t| && Utf8Len(t[from..WordEnd(t, from)]) >= 8 && t[from..WordEnd(t, from)] != REDACTED
  }

  /** A scheme word at `p` is followed by a credential. */
  predicate ExposedAt(t: string, p: nat) {
    (MatchesAt(t, BEARER, p) && Loose(t, p + |BEARER|)) || (MatchesAt(t, BASIC, p) && Loose(t, p + |BASIC|))
  }

  ghost predicate Exposed(t: string) { exists p: nat :: ExposedAt(t, p) }

  /** The value from `start` to `end` ends in a scheme word, with its space after. */
  predicate EndsIn(t: string, start: nat, end: nat, kw: string) {
    end < |t| && start + |kw| <= end + 1 && MatchesAt(t, kw, end + 1 - |kw|)
  }

  /** Somewhere the scan passes over a short value that ends in a scheme word, and
      the next word looks like a credential. */
  predicate Swallows(t: string)
    decreases |t|
  {
    match FirstHit(t)
    case NoHit => false
    case Hit(at, len) =>
      var start := at + len;
      var end := WordEnd(t, start);
      || (Utf8Len(t[start..end]) < 8 && (EndsIn(t, start, end, BEARER) || EndsIn(t, start, end, BASIC)) && Loose(t, end + 1))
      || Swallows(t[end..])
  }

  predicate Scheme(kw: string) { kw == BEARER || kw == BASIC }

  lemma CharOf(s: string, kw: string, j: nat, x: nat)
    requires MatchesAt(s, kw, j) && x < |kw|
    ensures j + x < |s| && Lower(s[j + x]) == kw[x]
  {
  }

  /** Another scheme word can begin inside a value only, and then ends it. */
  lemma WhereMatches(t: string, at: nat, len: nat, kw: string, p: nat)
    requires FirstHit(t) == Hit(at, len) && Scheme(kw) && MatchesAt(t, kw, p) && p < WordEnd(t, at + len)
    ensures (p == at && |kw| == len) || (at + len <= p && EndsIn(t, at + len, WordEnd(t, at + len), kw) && p + |kw| == WordEnd(t, at + len) + 1)
  {
    hide FirstHit, WordEnd;
    HitIsLeftmost(t);
    var start, end := at + len, WordEnd(t, at + len);
    assert Lower(t[p + 0]) == kw[0] == 'b' && Lower(t[p + (|kw| - 1)]) == kw[|kw| - 1] == ' ';
    SecondLetter(t, BEARER, at);
    SecondLetter(t, BASIC, at);
    if at < p < start {
      InsideWord(t, at, len, p);
    } else if p >= start {
      LettersOnly(t, kw, p, end);
    }
  }

  lemma InsideWord(t: string, at: nat, len: nat, p: nat)
    requires IsHit(t, at, len) && at < p < at + len
    ensures p < |t| && Lower(t[p]) != 'b'
  {
    var kw := if len == |BEARER| then BEARER else BASIC;
    assert MatchesAt(t, kw, at);
    assert Lower(t[at + (p - at)]) == kw[p - at];
  }

  lemma LettersOnly(t: string, kw: string, p: nat, end: nat)
    requires Scheme(kw) && MatchesAt(t, kw, p) && p < end <= |t| && (end < |t| ==> White(t[end])) && forall i :: p <= i < end ==> !White(t[i])
    ensures end < |t| && p + |kw| == end + 1
  {
    CharOf(t, kw, p, |kw| - 1);
    assert White(t[p + (|kw| - 1)]);
    if end < p + |kw| - 1 { CharOf(t, kw, p, end - p); }
  }

  lemma WordEndShifts(t: string, k: nat, from: nat)
    requires k <= from <= |t|
    ensures WordEnd(t, from) == k + WordEnd(t[k..], from - k)
  {
    hide WordEnd;
    var e := WordEnd(t[k..], from - k);
    forall i | from <= i < k + e ensures !White(t[i]) { assert t[i] == t[k..][i - k]; }
    WordEndIs(t, from, k + e);
  }

  lemma LooseShifts(t: string, k: nat, from: nat)
    requires k <= from
    ensures Loose(t, from) <==> k <= |t| && Loose(t[k..], from - k)
  {
    hide WordEnd, Utf8Len;
    if from <= |t| {
      WordEndShifts(t, k, from);
      var e := WordEnd(t, from);
      assert t[k..][from - k..e - k] == t[from..e];
    }
  }

  lemma MatchShifts(t: string, kw: string, k: nat, p: nat)
    requires k <= |t|
    ensures MatchesAt(t, kw, k + p) <==> MatchesAt(t[k..], kw, p)
  {
    if k + p + |kw| <= |t| {
      forall x | 0 <= x < |kw| ensures Lower(t[k..][p + x]) == kw[x] <==> Lower(t[k + p + x]) == kw[x] { }
    }
  }

  lemma ExposedShifts(t: string, k: nat, p: nat)
    requires k <= |t|
    ensures ExposedAt(t, k + p) <==> ExposedAt(t[k..], p)
  {
    hide Loose, MatchesAt;
    MatchShifts(t, BEARER, k, p);
    MatchShifts(t, BASIC, k, p);
    LooseShifts(t, k, k + p + |BEARER|);
    LooseShifts(t, k, k + p + |BASIC|);
  }

  /** In a clean line, a credential follows a scheme word only where one was
      swallowed. */
  lemma {:induction false} CleanExposedExactly(t: string)
    requires Clean(t)
    ensures Exposed(t) <==> Swallows(t)
    decreases |t|
  {
    hide FirstHit, WordEnd, Utf8Len, ExposedAt, White, Loose, EndsIn;
    if FirstHit(t).NoHit? {
      forall p: nat ensures !ExposedAt(t, p) { NothingExposed(t, p); }
    } else {
      var h := FirstHit(t);
      var start := h.at + h.len;
      var end := WordEnd(t, start);
      CleanExposedExactly(t[end..]);
      forall p: nat ensures ExposedAt(t, end + p) <==> ExposedAt(t[end..], p) { ExposedShifts(t, end, p); }
      forall p: nat | p < end && ExposedAt(t, p)
        ensures Utf8Len(t[start..end]) < 8 && (EndsIn(t, start, end, BEARER) || EndsIn(t, start, end, BASIC)) && Loose(t, end + 1)
      {
        ExposedBefore(t, h.at, h.len, p);
      }
      if Exposed(t) {
        var p: nat :| ExposedAt(t, p);
        if p >= end { assert ExposedAt(t[end..], p - end) by { assert ExposedAt(t, end + (p - end)); } }
      }
      if (EndsIn(t, start, end, BEARER) || EndsIn(t, start, end, BASIC)) && Loose(t, end + 1) {
        SwallowedExposes(t, start, end);
      }
      if Exposed(t[end..]) {
        var p: nat :| ExposedAt(t[end..], p);
        assert ExposedAt(t, end + p);
      }
    }
  }

  lemma NothingExposed(t: string, p: nat)
    requires FirstHit(t).NoHit?
    ensures !ExposedAt(t, p)
  {
    hide Loose;
    var f, g := Find(t, BEARER, 0), Find(t, BASIC, 0);
  }

  lemma SwallowedExposes(t: string, start: nat, end: nat)
    requires (EndsIn(t, start, end, BEARER) || EndsIn(t, start, end, BASIC)) && Loose(t, end + 1)
    ensures Exposed(t)
  {
    hide Loose, MatchesAt;
    var kw := if EndsIn(t, start, end, BEARER) then BEARER else BASIC;
    assert ExposedAt(t, end + 1 - |kw|);
  }

  lemma ExposedBefore(t: string, at: nat, len: nat, p: nat)
    requires Clean(t) && FirstHit(t) == Hit(at, len) && p < WordEnd(t, at + len) && ExposedAt(t, p)
    ensures var start := at + len; var end := WordEnd(t, start);
            Utf8Len(t[start..end]) < 8 && (EndsIn(t, start, end, BEARER) || EndsIn(t, start, end, BASIC)) && Loose(t, end + 1)
  {
    hide FirstHit, WordEnd, Utf8Len, White, EndsIn;
    var start := at + len;
    var end := WordEnd(t, start);
    var kw := if MatchesAt(t, BEARER, p) && Loose(t, p + |BEARER|) then BEARER else BASIC;
    WhereMatches(t, at, len, kw, p);
    assert p != at;
    if t[start..end] == REDACTED { MaskEndsNoWord(t, start, end, kw); }
  }

  lemma MaskEndsNoWord(t: string, start: nat, end: nat, kw: string)
    requires Scheme(kw) && start <= end <= |t| && t[start..end] == REDACTED
    ensures !EndsIn(t, start, end, kw)
  {
    assert t[end - 1] == t[start..end][|REDACTED| - 1] == ']';
    if EndsIn(t, start, end, kw) { CharOf(t, kw, end + 1 - |kw|, |kw| - 2); }
  }

  /** The word after a leading blank is not touched. */
  lemma FirstWordKept(rest: string)
    requires rest != [] && White(rest[0])
    ensures var tail := AuthSchemes(rest); Loose(tail, 1) <==> Loose(rest, 1)
  {
    hide FirstHit, Loose, AuthSchemes, White, WordEnd, Masked;
    AuthUnfolds(rest);
    if FirstHit(rest).Hit? {
      var start := FirstHit(rest).at + FirstHit(rest).len;
      var end := WordEnd(rest, start);
      var after := Masked(rest[start..end]) + AuthSchemes(rest[end..]);
      HitEndsBlank(rest);
      Grouped(rest[..start], Masked(rest[start..end]), AuthSchemes(rest[end..]));
      SameFirstWord(rest, after, start);
    }
  }

  lemma AuthUnfolds(s: string)
    ensures match FirstHit(s)
            case NoHit => AuthSchemes(s) == s
            case Hit(at, len) =>
              var start := at + len; var end := WordEnd(s, start);
              AuthSchemes(s) == s[..start] + Masked(s[start..end]) + AuthSchemes(s[end..])
  {
    hide FirstHit, WordEnd, Masked;
  }

  lemma Grouped(a: string, b: string, c: string)
    ensures a + b + c == a + (b + c)
  {
  }

  lemma SameFirstWord(s: string, after: string, start: nat)
    requires 2 <= start <= |s| && White(s[start - 1])
    ensures Loose(s[..start] + after, 1) <==> Loose(s, 1)
  {
    hide WordEnd, Utf8Len;
    var t, e := s[..start] + after, WordEnd(s, 1);
    assert e < start;
    WordEndIs(t, 1, e);
    assert t[1..e] == s[1..e];
  }

  lemma HitEndsBlank(s: string)
    requires FirstHit(s).Hit?
    ensures var n := FirstHit(s).at + FirstHit(s).len; 6 <= n <= |s| && White(s[n - 1])
  {
    hide FirstHit;
    HitIsLeftmost(s);
    var h := FirstHit(s);
    var kw := if h.len == |BEARER| then BEARER else BASIC;
    assert MatchesAt(s, kw, h.at) && Lower(s[h.at + (|kw| - 1)]) == kw[|kw| - 1] == ' ';
  }

  lemma SwallowsUnfolds(t: string, start: nat, end: nat)
    requires FirstHit(t).Hit? && start == FirstHit(t).at + FirstHit(t).len && end == WordEnd(t, start)
    ensures Swallows(t) <==>
            || (Utf8Len(t[start..end]) < 8 && (EndsIn(t, start, end, BEARER) || EndsIn(t, start, end, BASIC)) && Loose(t, end + 1))
            || Swallows(t[end..])
  {
    hide FirstHit, WordEnd, Utf8Len, Loose, EndsIn;
  }

  lemma {:induction false} SwallowsAsBefore(s: string)
    ensures Swallows(AuthSchemes(s)) <==> Swallows(s)
    decreases |s|
  {
    hide FirstHit, WordEnd, Utf8Len, Masked, White, Loose, EndsIn, Swallows;
    if FirstHit(s).NoHit? {
      assert AuthSchemes(s) == s;
    } else {
      var h := FirstHit(s);
      var start := h.at + h.len;
      var end := WordEnd(s, start);
      var value, rest := s[start..end], s[end..];
      SwallowsAsBefore(rest);
      NoWhite(value);
      if rest == [] { EmptyStays(); } else { KeepsLeadingWhite(rest); }
      Rescan(s, h, Masked(value), AuthSchemes(rest));
      SwallowSame(s, start, end);
      SwallowsUnfolds(s, start, end);
      SwallowsUnfolds(AuthSchemes(s), start, start + |Masked(value)|);
    }
  }

  lemma SwallowSame(s: string, start: nat, end: nat)
    requires start <= end <= |s| && (end < |s| ==> White(s[end]))
    ensures var mid, tail := Masked(s[start..end]), AuthSchemes(s[end..]); var out, end' := s[..start] + mid + tail, start + |mid|;
            (Utf8Len(mid) < 8 && (EndsIn(out, start, end', BEARER) || EndsIn(out, start, end', BASIC)) && Loose(out, end' + 1)) <==>
            (Utf8Len(s[start..end]) < 8 && (EndsIn(s, start, end, BEARER) || EndsIn(s, start, end, BASIC)) && Loose(s, end + 1))
  {
    hide WordEnd, Utf8Len, White, Loose, EndsIn, AuthSchemes;
    var value, rest := s[start..end], s[end..];
    if Utf8Len(value) >= 8 {
      MaskIsLong();
    } else {
      var tail := AuthSchemes(rest);
      var out := s[..start] + value + tail;
      assert out[end..] == tail && out[..end] == s[..end];
      if rest == [] { EmptyStays(); } else { KeepsLeadingWhite(rest); FirstWordKept(rest); }
      SameEnds(s, out, start, end, BEARER);
      SameEnds(s, out, start, end, BASIC);
      LooseShifts(s, end, end + 1);
      LooseShifts(out, end, end + 1);
      if rest == [] { TooFar(s, end); TooFar(out, end); }
    }
  }

  lemma TooFar(t: string, end: nat)
    requires end == |t|
    ensures !Loose(t, end + 1)
  {
  }

  lemma MaskIsLong()
    ensures Utf8Len(REDACTED) >= 8
  {
    Utf8LenAscii(REDACTED);
  }

  lemma SameEnds(s: string, t: string, start: nat, end: nat, kw: string)
    requires end <= |s| && end <= |t| && s[..end] == t[..end] && (end < |s| <==> end < |t|) && (end < |s| ==> s[end] == t[end]) && kw != []
    ensures EndsIn(s, start, end, kw) <==> EndsIn(t, start, end, kw)
  {
    forall i | 0 <= i < end ensures s[i] == t[i] { assert s[..end][i] == t[..end][i]; }
    if end < |s| && start + |kw| <= end + 1 {
      var p := end + 1 - |kw|;
      forall x | 0 <= x < |kw| ensures Lower(s[p + x]) == kw[x] <==> Lower(t[p + x]) == kw[x] { assert s[p + x] == t[p + x]; }
    }
  }

  /** The output still has a credential after some scheme word exactly when the
      line swallows one. */
  lemma ExposedExactly(s: string)
    ensures Exposed(AuthSchemes(s)) <==> Swallows(s)
  {
    hide AuthSchemes, Exposed, Swallows, Clean;
    AuthClean(s);
    CleanExposedExactly(AuthSchemes(s));
    SwallowsAsBefore(s);
  }

  const TWICE := "bearer bearer abcdefgh1"

  /** Such a line is left as it is. */
  lemma SwallowedWord()
    ensures AuthSchemes(TWICE) == TWICE && Exposed(TWICE) && Swallows(TWICE)
  {
    hide FirstHit, WordEnd, Utf8Len, MatchesAt, White, Swallows, Loose, AuthSchemes;
    TwiceWords();
    assert TWICE[7..13] == "bearer" && TWICE[13..] == " abcdefgh1";
    Utf8LenAscii("bearer");
    NoSpaceNoHit(" abcdefgh1");
    AuthUnfolds(TWICE);
    AuthUnfolds(" abcdefgh1");
    assert AuthSchemes(TWICE) == TWICE[..7] + "bearer" + " abcdefgh1" == TWICE;
    assert ExposedAt(TWICE, 7);
    ExposedExactly(TWICE);
  }

  lemma TwiceWords()
    ensures FirstHit(TWICE) == Hit(0, 7) && MatchesAt(TWICE, BEARER, 7) && WordEnd(TWICE, 7) == 13 && Loose(TWICE, 14)
  {
    hide FirstHit, WordEnd, Utf8Len;
    assert MatchesAt(TWICE, BEARER, 0);
    FirstHitIs(TWICE, 0, |BEARER|);
    WordEndIs(TWICE, 7, 13);
    WordEndIs(TWICE, 14, 23);
    assert TWICE[14..23] == "abcdefgh1";
    Utf8LenAscii("abcdefgh1");
  }

  lemma NoSpaceNoHit(s: string)
    requires forall i :: 0 < i < |s| ==> s[i] != ' '
    ensures FirstHit(s).NoHit?
  {
    if FirstHit(s).Hit? {
      HitIsLeftmost(s);
      var h := FirstHit(s);
      var kw := if h.len == |BEARER| then BEARER else BASIC;
      CharOf(s, kw, h.at, |kw| - 1);
    }
  }

  // ---- long tokens -------------------------------------------------------------------------------

  predicate Letter(c: char) { 'a' <= c <= 'z' || 'A' <= c <= 'Z' }
  predicate Digit(c: char) { '0' <= c <= '9' }
  predicate Alnum(c: char) { Letter(c) || Digit(c) }

  /** `trim_matches` of everything but ASCII letters and digits. */
  function Core(w: string): (r: string)
    decreases |w|
  {
    if w == [] then []
    else if !Alnum(w[0]) then Core(w[1..])
    else if !Alnum(w[|w| - 1]) then Core(w[..|w| - 1])
    else w
  }

  predicate Tokenish(core: string) {
    && Utf8Len(core) >= 40
    && (forall i :: 0 <= i < |core| ==> Alnum(core[i]) || core[i] == '+' || core[i] == '/' || core[i] == '_' || core[i] == '-')
    && (exists i :: 0 <= i < |core| && Digit(core[i]))
    && (exists i :: 0 <= i < |core| && Letter(core[i]))
  }

  /** `str::replace`: every occurrence, left to right. */
  function Replace(s: string, what: string, mask: string): string
    requires what != []
    decreases |s|
  {
    if |s| < |what| then s
    else if s[..|what|] == what then mask + Replace(s[|what|..], what, mask)
    else [s[0]] + Replace(s[1..], what, mask)
  }

  function FixWord(w: string): string {
    if Tokenish(Core(w)) then Replace(w, Core(w), REDACTED) else w
  }

  predicate NonAlnum(s: string) { forall i :: 0 <= i < |s| ==> !Alnum(s[i]) }

  /** A word is its core between characters that are not letters or digits. */
  lemma {:induction false} CoreSplits(w: string) returns (pre: string, suf: string)
    ensures w == pre + Core(w) + suf && NonAlnum(pre) && NonAlnum(suf)
    ensures Core(w) != [] ==> Alnum(Core(w)[0]) && Alnum(Core(w)[|Core(w)| - 1])
    decreases |w|
  {
    if w == [] {
      pre, suf := [], [];
    } else if !Alnum(w[0]) {
      pre, suf := CoreSplits(w[1..]);
      pre := [w[0]] + pre;
    } else if !Alnum(w[|w| - 1]) {
      pre, suf := CoreSplits(w[..|w| - 1]);
      suf := suf + [w[|w| - 1]];
    } else {
      pre, suf := [], [];
      assert w == [] + w + [];
    }
  }

  lemma {:induction false} CoreOf(pre: string, c: string, suf: string)
    requires NonAlnum(pre) && NonAlnum(suf) && c != [] && Alnum(c[0]) && Alnum(c[|c| - 1])
    ensures Core(pre + c + suf) == c
    decreases |pre| + |suf|
  {
    hide Core;
    var w := pre + c + suf;
    CoreSteps(w);
    if pre != [] {
      assert w[1..] == pre[1..] + c + suf;
      CoreOf(pre[1..], c, suf);
    } else if suf != [] {
      assert w == c + suf && w[0] == c[0] && w[|w| - 1] == suf[|suf| - 1];
      assert w[..|w| - 1] == pre + c + suf[..|suf| - 1];
      CoreOf(pre, c, suf[..|suf| - 1]);
    } else {
      assert w == c;
    }
  }

  lemma CoreSteps(w: string)
    requires w != []
    ensures !Alnum(w[0]) ==> Core(w) == Core(w[1..])
    ensures Alnum(w[0]) && !Alnum(w[|w| - 1]) ==> Core(w) == Core(w[..|w| - 1])
    ensures Alnum(w[0]) && Alnum(w[|w| - 1]) ==> Core(w) == w
  {
  }

  lemma {:induction false} ReplaceNone(s: string, what: string, mask: string)
    requires what != [] && Alnum(what[0]) && NonAlnum(s)
    ensures Replace(s, what, mask) == s
    decreases |s|
  {
    if |s| >= |what| {
      assert s[..|what|][0] == s[0];
      ReplaceNone(s[1..], what, mask);
    }
  }

  /** The core occurs once in its word, so replacing it keeps the rest. */
  lemma {:induction false} ReplaceCore(pre: string, c: string, suf: string, mask: string)
    requires NonAlnum(pre) && NonAlnum(suf) && c != [] && Alnum(c[0])
    ensures Replace(pre + c + suf, c, mask) == pre + mask + suf
    decreases |pre|
  {
    var w := pre + c + suf;
    if pre == [] {
      assert w == c + suf && w[..|c|] == c && w[|c|..] == suf;
      ReplaceNone(suf, c, mask);
      assert pre + mask + suf == mask + suf;
    } else {
      assert w[..|c|][0] == pre[0];
      assert w[1..] == pre[1..] + c + suf;
      ReplaceCore(pre[1..], c, suf, mask);
      assert [w[0]] + (pre[1..] + mask + suf) == pre + mask + suf;
    }
  }

  lemma {:induction false} Utf8LenAscii(s: string)
    requires forall i :: 0 <= i < |s| ==> s[i] as int < 0x80
    ensures Utf8Len(s) == |s|
    decreases |s|
  {
    if s != [] { Utf8LenAscii(s[1..]); }
  }

  /** A treated word is no token any more, and treating it again changes nothing. */
  lemma FixedWord(w: string)
    ensures !Tokenish(Core(FixWord(w))) && FixWord(FixWord(w)) == FixWord(w)
    ensures ' ' !in w ==> ' ' !in FixWord(w)
  {
    hide Core, Replace, Utf8Len;
    if Tokenish(Core(w)) {
      var c := Core(w);
      var pre, suf := CoreSplits(w);
      assert c != [];
      ReplaceCore(pre, c, suf, REDACTED);
      assert pre + REDACTED + suf == (pre + "[") + "REDACTED" + ("]" + suf);
      CoreOf(pre + "[", "REDACTED", "]" + suf);
      Utf8LenAscii("REDACTED");
      if ' ' !in w {
        forall i | 0 <= i < |pre| ensures pre[i] != ' ' { assert w[i] == pre[i]; }
        forall i | 0 <= i < |suf| ensures suf[i] != ' ' { assert w[|pre| + |c| + i] == suf[i]; }
      }
    }
  }

  function FixAll(ws: seq<string>): (r: seq<string>)
    ensures |r| == |ws| && forall i :: 0 <= i < |r| ==> r[i] == FixWord(ws[i])
  {
    seq(|ws|, i requires 0 <= i < |ws| => FixWord(ws[i]))
  }

  /** `redact_long_tokens`. */
  function LongTokens(s: string): string { Joined(FixAll(Split(s, ' ')), ' ') }

  lemma FixedWords(s: string)
    ensures Split(LongTokens(s), ' ') == FixAll(Split(s, ' '))
  {
    hide Split, Joined, FixWord;
    var ws := Split(s, ' ');
    forall i | 0 <= i < |ws| ensures ' ' !in FixAll(ws)[i] { FixedWord(ws[i]); }
    SplitOfJoined(FixAll(ws), ' ');
  }

  /** No word of the result still looks like a token, and a second pass changes
      nothing: whatever the earlier rules left. */
  lemma NoTokenLeft(s: string)
    ensures forall w :: w in Split(LongTokens(s), ' ') ==> !Tokenish(Core(w))
    ensures LongTokens(LongTokens(s)) == LongTokens(s)
  {
    hide Split, Joined, FixWord, Core, Tokenish;
    var ws := Split(s, ' ');
    FixedWords(s);
    forall i | 0 <= i < |ws| ensures !Tokenish(Core(FixAll(ws)[i])) && FixWord(FixAll(ws)[i]) == FixAll(ws)[i] {
      FixedWord(ws[i]);
    }
    assert FixAll(FixAll(ws)) == FixAll(ws);
  }

  // ---- assignments to sensitive keys ---------------------------------------------------------------

  const SENSITIVE: seq<string> := [
    "password", "passwd", "passphrase", "secret", "token", "api_key", "apikey", "api-key",
    "private_key", "private-key", "privatekey", "access_key", "access-key", "accesskey",
    "credential", "authorization", "auth_header", "cookie", "session_id", "session-id",
    "client_secret", "signing_key"]

  function Trim(s: string, drop: char -> bool): string
    decreases |s|
  {
    if s == [] then []
    else if drop(s[0]) then Trim(s[1..], drop)
    else if drop(s[|s| - 1]) then Trim(s[..|s| - 1], drop)
    else s
  }

  /** The text after the last blank, comma or brace. */
  function LastWord(s: string): string {
    if s == [] then []
    else
      var c := s[|s| - 1];
      if White(c) || c == ',' || c == '{' then [] else LastWord(s[..|s| - 1]) + [c]
  }

  predicate Contains(s: string, what: string) {
    exists j :: 0 <= j <= |s| && StandsAt(s, what, j)
  }

  predicate StandsAt(s: string, what: string, j: nat) {
    j + |what| <= |s| && s[j..j + |what|] == what
  }

  predicate Sensitive(before: string) {
    var low := seq(|before|, i requires 0 <= i < |before| => Lower(before[i]));
    var key := Trim(Trim(Trim(low, White), c => c == '"'), c => c == '\'');
    exists k :: 0 <= k < |SENSITIVE| && Contains(LastWord(key), SENSITIVE[k])
  }

  predicate Separator(c: char) { c == '=' || c == ':' }

  /** `i` is the first separator of the line. */
  predicate Splits(line: string, i: nat) {
    i < |line| && Separator(line[i]) && forall j :: 0 <= j < i ==> !Separator(line[j])
  }

  /** What `redact_key_value` promises: only the first separator counts, and a
      sensitive key there loses everything after it. */
  ghost predicate KeyRuled(line: string, out: string) {
    && (forall i: nat :: Splits(line, i) && Sensitive(line[..i]) ==> out == line[..i + 1] + " " + REDACTED)
    && ((forall i: nat :: Splits(line, i) ==> !Sensitive(line[..i])) ==> out == line)
  }

  /** The rule determines the result, and obeying it once is enough. */
  lemma KeyRuleSettles(line: string, out: string, again: string)
    requires KeyRuled(line, out) && KeyRuled(out, again)
    ensures again == out
  {
    hide Sensitive;
    if i: nat :| Splits(line, i) && Sensitive(line[..i]) {
      assert out == line[..i + 1] + " " + REDACTED;
      assert out[..i] == line[..i] && out[i] == line[i];
      forall j | 0 <= j < i ensures out[j] == line[j] { assert out[..i][j] == line[..i][j]; }
      assert Splits(out, i) && out[..i + 1] == line[..i + 1];
    }
  }

  // ---- the loops -----------------------------------------------------------------------------------

  method RedactAuthSchemes(line: string) returns (out: string)
    ensures out == AuthSchemes(line)
  {
    hide FirstHit, WordEnd, Masked;
    out := "";
    var rest := line;
    while true
      invariant out + AuthSchemes(rest) == AuthSchemes(line)
      decreases |rest|
    {
      var hit := FirstHit(rest);
      if hit.NoHit? {
        out := out + rest;
        return;
      }
      var start := hit.at + hit.len;
      var end := WordEnd(rest, start);
      Regroup(out, rest[..start], Masked(rest[start..end]), AuthSchemes(rest[end..]));
      out := out + rest[..start];
      out := out + Masked(rest[start..end]);
      rest := rest[end..];
    }
  }

  lemma Regroup(a: string, b: string, c: string, d: string)
    ensures a + (b + c + d) == a + b + c + d
  {
  }

  method RedactLongTokens(line: string) returns (out: string)
    ensures out == LongTokens(line)
  {
    hide Split, FixWord;
    var words := Split(line, ' ');
    out := "";
    for i := 0 to |words|
      invariant i == 0 ==> out == ""
      invariant i > 0 ==> out == Joined(FixAll(words)[..i], ' ')
    {
      if i > 0 { out := out + " "; }
      JoinedSnoc(FixAll(words)[..i], FixWord(words[i]), ' ');
      assert FixAll(words)[..i + 1] == FixAll(words)[..i] + [FixWord(words[i])];
      out := out + FixWord(words[i]);
    }
    assert FixAll(words)[..|words|] == FixAll(words);
  }

  method RedactKeyValue(line: string) returns (out: string)
    ensures KeyRuled(line, out)
  {
    hide Sensitive;
    for i := 0 to |line|
      invariant forall j :: 0 <= j < i ==> !Separator(line[j])
    {
      if Separator(line[i]) {
        if Sensitive(line[..i]) {
          out := line[..i] + [line[i]] + " " + REDACTED;
          assert line[..i + 1] == line[..i] + [line[i]];
          return;
        }
        break;
      }
    }
    out := line;
  }

  /** The whole line: nothing in it still looks like a token. */
  method RedactLine(line: string) returns (out: string)
    ensures exists keyed :: KeyRuled(line, keyed) && out == LongTokens(AuthSchemes(keyed))
    ensures forall w :: w in Split(out, ' ') ==> !Tokenish(Core(w))
  {
    hide KeyRuled, AuthSchemes, LongTokens, Split, Tokenish, Core;
    var keyed := RedactKeyValue(line);
    var cleared := RedactAuthSchemes(keyed);
    out := RedactLongTokens(cleared);
    NoTokenLeft(cleared);
  }
}
