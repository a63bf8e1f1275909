/** Which words and keys the redactor catches, character by character. */
module RedactLaws {
  import opened Forest
  import opened Splitting
  import opened Redact

  // ---- in upper or lower case ------------------------------------------------------------------

  /** `c` is `k`, or its capital. */
  predicate SameLetter(c: char, k: char) {
    c == k || ('a' <= k <= 'z' && c as int + 32 == k as int)
  }

  lemma LowerExactly(c: char, k: char)
    requires !('A' <= k <= 'Z')
    ensures Lower(c) == k <==> SameLetter(c, k)
  {
  }

  predicate NoCapitals(kw: string) { forall x :: 0 <= x < |kw| ==> !('A' <= kw[x] <= 'Z') }

  /** `kw` stands in `s` at `j`, whatever the case. */
  predicate Found(s: string, kw: string, j: nat) {
    j + |kw| <= |s| && forall x :: 0 <= x < |kw| ==> SameLetter(s[j + x], kw[x])
  }

  lemma FoundExactly(s: string, kw: string, j: nat)
    requires NoCapitals(kw)
    ensures MatchesAt(s, kw, j) <==> Found(s, kw, j)
  {
    if j + |kw| <= |s| {
      forall x | 0 <= x < |kw| ensures Lower(s[j + x]) == kw[x] <==> SameLetter(s[j + x], kw[x]) { LowerExactly(s[j + x], kw[x]); }
    }
  }

  /** The first scheme word in any case: found exactly if there is one, and no
      earlier one is passed over. */
  lemma SchemesInAnyCase(s: string)
    ensures var h := FirstHit(s);
            && (h.NoHit? <==> forall j: nat :: !Found(s, "bearer ", j) && !Found(s, "basic ", j))
            && (h.Hit? ==>
                 && ((Found(s, "bearer ", h.at) && h.len == 7) || (Found(s, "basic ", h.at) && h.len == 6))
                 && forall j: nat :: j < h.at ==> !Found(s, "bearer ", j) && !Found(s, "basic ", j))
  {
    hide Found;
    forall j: nat ensures MatchesAt(s, BEARER, j) <==> Found(s, "bearer ", j) { FoundExactly(s, BEARER, j); }
    forall j: nat ensures MatchesAt(s, BASIC, j) <==> Found(s, "basic ", j) { FoundExactly(s, BASIC, j); }
    var f, g := Find(s, BEARER, 0), Find(s, BASIC, 0);
    if FirstHit(s).Hit? { HitIsLeftmost(s); }
  }

  // ---- long tokens --------------------------------------------------------------------------------

  predicate TokenChar(c: char) { Alnum(c) || c == '+' || c == '/' || c == '_' || c == '-' }

  /** Forty or more characters of the base64 and hex alphabets, a digit and a letter
      among them, between characters that are no letters or digits. */
  ghost predicate IsToken(before: string, core: string, after: string) {
    && (forall i :: 0 <= i < |before| ==> !Alnum(before[i])) && (forall i :: 0 <= i < |after| ==> !Alnum(after[i]))
    && |core| >= 40 && Alnum(core[0]) && Alnum(core[|core| - 1]) && (forall i :: 0 <= i < |core| ==> TokenChar(core[i]))
    && (exists i :: 0 <= i < |core| && Digit(core[i])) && (exists i :: 0 <= i < |core| && Letter(core[i]))
  }

  lemma TokenCaught(before: string, core: string, after: string)
    requires IsToken(before, core, after)
    ensures FixWord(before + core + after) == before + "[REDACTED]" + after
  {
    hide Core, Replace, Utf8Len;
    CoreOf(before, core, after);
    Utf8LenAscii(core);
    ReplaceCore(before, core, after, REDACTED);
  }

  lemma OthersKept(w: string)
    requires forall before, core, after :: w == before + core + after ==> !IsToken(before, core, after)
    ensures FixWord(w) == w
  {
    hide Core, Replace, Utf8Len, IsToken;
    if Tokenish(Core(w)) {
      var before, after := CoreSplits(w);
      TokenishIsToken(before, Core(w), after);
    }
  }

  lemma TokenishIsToken(before: string, core: string, after: string)
    requires Tokenish(core) && NonAlnum(before) && NonAlnum(after)
    requires core != [] ==> Alnum(core[0]) && Alnum(core[|core| - 1])
    ensures IsToken(before, core, after)
  {
    hide Utf8Len;
    Utf8LenAscii(core);
  }

  /** Word by word: a token loses its core to the mask and keeps what is around it,
      and every other word is left as it is. */
  lemma WordsTreated(s: string)
    ensures var ws, out := Split(s, ' '), Split(LongTokens(s), ' ');
            && |out| == |ws|
            && (forall i, before, core, after :: 0 <= i < |ws| && IsToken(before, core, after) && ws[i] == before + core + after ==>
                 out[i] == before + "[REDACTED]" + after)
            && (forall i :: 0 <= i < |ws| && (forall before, core, after :: ws[i] == before + core + after ==> !IsToken(before, core, after)) ==>
                 out[i] == ws[i])
  {
    hide Split, LongTokens, FixWord, IsToken;
    FixedWords(s);
    var ws := Split(s, ' ');
    forall i, before, core, after | 0 <= i < |ws| && IsToken(before, core, after) && ws[i] == before + core + after
      ensures FixWord(ws[i]) == before + "[REDACTED]" + after
    {
      TokenCaught(before, core, after);
    }
    forall i | 0 <= i < |ws| && (forall before, core, after :: ws[i] == before + core + after ==> !IsToken(before, core, after))
      ensures FixWord(ws[i]) == ws[i]
    {
      OthersKept(ws[i]);
    }
  }

  // ---- sensitive keys -------------------------------------------------------------------------------

  predicate Divider(c: char) { White(c) || c == ',' || c == '{' }
  predicate Quote(c: char) { c == '"' || c == '\'' }

  ghost predicate Suffix(x: string, s: string) { exists y: string :: s == y + x }

  /** Trimming leaves the middle, with what was not trimmed at either side. */
  lemma {:induction false} TrimAround(a: string, m: string, b: string, drop: char -> bool) returns (a': string, b': string)
    requires m != [] && !drop(m[0]) && !drop(m[|m| - 1])
    ensures Trim(a + m + b, drop) == a' + m + b' && Suffix(a', a) && b' <= b
    ensures b' != [] ==> !drop(b'[|b'| - 1])
    decreases |a| + |b|
  {
    var s := a + m + b;
    if a != [] && drop(a[0]) {
      assert s[0] == a[0] && s[1..] == a[1..] + m + b;
      a', b' := TrimAround(a[1..], m, b, drop);
      var y :| a[1..] == y + a';
      assert a == ([a[0]] + y) + a';
    } else {
      a', b' := TrimAroundRight(a, m, b, drop);
    }
  }

  lemma {:induction false} TrimAroundRight(a: string, m: string, b: string, drop: char -> bool) returns (a': string, b': string)
    requires m != [] && !drop(m[0]) && !drop(m[|m| - 1]) && (a != [] ==> !drop(a[0]))
    ensures Trim(a + m + b, drop) == a' + m + b' && Suffix(a', a) && b' <= b
    ensures b' != [] ==> !drop(b'[|b'| - 1])
    decreases |b|
  {
    var s := a + m + b;
    assert a == [] + a;
    assert s[0] == if a != [] then a[0] else m[0];
    if b != [] && drop(b[|b| - 1]) {
      assert s[|s| - 1] == b[|b| - 1] && s[..|s| - 1] == a + m + b[..|b| - 1];
      a', b' := TrimAroundRight(a, m, b[..|b| - 1], drop);
      assert b[..|b| - 1] <= b;
    } else {
      assert s[|s| - 1] == if b != [] then b[|b| - 1] else m[|m| - 1];
      a', b' := a, b;
    }
  }

  lemma {:induction false} LastWordIs(d: string, r: string)
    requires (d == [] || Divider(d[|d| - 1])) && forall i :: 0 <= i < |r| ==> !Divider(r[i])
    ensures LastWord(d + r) == r
    decreases |r|
  {
    var s := d + r;
    if r != [] {
      assert s[|s| - 1] == r[|r| - 1] && s[..|s| - 1] == d + r[..|r| - 1];
      LastWordIs(d, r[..|r| - 1]);
      assert r[..|r| - 1] + [r[|r| - 1]] == r;
    } else {
      assert s == d;
    }
  }

  function Lowered(s: string): (t: string)
    ensures |t| == |s| && forall i :: 0 <= i < |t| ==> t[i] == Lower(s[i])
  {
    seq(|s|, i requires 0 <= i < |s| => Lower(s[i]))
  }

  /** What stands before the separator: a beginning that ends at a divider, quotes,
      the key word, quotes, and blanks. */
  predicate KeyText(head: string, open: string, word: string, close: string, blanks: string) {
    && (head == [] || Divider(head[|head| - 1]))
    && (forall i :: 0 <= i < |open| ==> Quote(open[i])) && (forall i :: 0 <= i < |close| ==> Quote(close[i]))
    && word != [] && (forall i :: 0 <= i < |word| ==> !Divider(word[i])) && !Quote(word[0]) && !Quote(word[|word| - 1])
    && (forall i :: 0 <= i < |blanks| ==> White(blanks[i]))
  }

  lemma LoweredParts(a: string, b: string, c: string, d: string, e: string)
    ensures Lowered(a + b + c + d + e) == Lowered(a + b) + Lowered(c) + (Lowered(d) + Lowered(e))
  {
  }

  lemma LowerKeeps(c: char)
    ensures (Divider(Lower(c)) <==> Divider(c)) && (Quote(Lower(c)) <==> Quote(c)) && (White(Lower(c)) <==> White(c))
  {
  }

  /** The last word of the trimmed key: the word itself in lower case, perhaps with
      quotes around it. */
  lemma KeyIs(head: string, open: string, word: string, close: string, blanks: string) returns (q: string, r: string)
    requires KeyText(head, open, word, close, blanks)
    ensures var low := Lowered(head + open + word + close + blanks);
            LastWord(Trim(Trim(Trim(low, White), c => c == '"'), c => c == '\'')) == q + Lowered(word) + r
    ensures (forall i :: 0 <= i < |q| ==> Quote(q[i])) && forall i :: 0 <= i < |r| ==> Quote(r[i])
  {
    hide Trim, LastWord, White;
    var a, m, b := Lowered(head + open), Lowered(word), Lowered(close) + Lowered(blanks);
    LoweredParts(head, open, word, close, blanks);
    LowerKeeps(word[0]);
    LowerKeeps(word[|word| - 1]);
    NotWhite(word);
    var a1, b1 := TrimAround(a, m, b, White);
    var a2, b2 := TrimAround(a1, m, b1, c => c == '"');
    var a3, b3 := TrimAround(a2, m, b2, c => c == '\'');
    SuffixOf(a1, a2, a);
    SuffixOf(a2, a3, a);
    r := b3;
    RightQuotes(close, blanks, b1, b3);
    var d;
    d, q := LeftQuotes(head, open, a3);
    var rest := q + m + r;
    forall i | 0 <= i < |rest| ensures !Divider(rest[i]) { RestNoDivider(word, q, r, i); }
    assert a3 + m + b3 == d + rest;
    LastWordIs(d, rest);
  }

  lemma NotWhite(word: string)
    requires word != [] && forall i :: 0 <= i < |word| ==> !Divider(word[i])
    ensures var m := Lowered(word); !White(m[0]) && !White(m[|m| - 1])
  {
    LowerKeeps(word[0]);
    LowerKeeps(word[|word| - 1]);
  }

  lemma SuffixOf(x: string, y: string, s: string)
    requires Suffix(x, s) && Suffix(y, x)
    ensures Suffix(y, s)
  {
    var u :| s == u + x;
    var v :| x == v + y;
    assert s == (u + v) + y;
  }

  lemma RightQuotes(close: string, blanks: string, b1: string, b3: string)
    requires (forall i :: 0 <= i < |close| ==> Quote(close[i])) && (forall i :: 0 <= i < |blanks| ==> White(blanks[i]))
    requires b1 <= Lowered(close) + Lowered(blanks) && (b1 != [] ==> !White(b1[|b1| - 1])) && b3 <= b1
    ensures forall i :: 0 <= i < |b3| ==> Quote(b3[i])
  {
    var b := Lowered(close) + Lowered(blanks);
    forall k | |close| <= k < |b| ensures White(b[k]) { LowerKeeps(blanks[k - |close|]); }
    assert b1 != [] ==> b1[|b1| - 1] == b[|b1| - 1];
    assert |b1| <= |close|;
    forall i | 0 <= i < |b3| ensures Quote(b3[i]) {
      assert b3[i] == b[i] == Lower(close[i]);
      LowerKeeps(close[i]);
    }
  }

  lemma LeftQuotes(head: string, open: string, a: string) returns (d: string, q: string)
    requires (head == [] || Divider(head[|head| - 1])) && (forall i :: 0 <= i < |open| ==> Quote(open[i]))
    requires Suffix(a, Lowered(head + open))
    ensures a == d + q && (d == [] || Divider(d[|d| - 1])) && forall i :: 0 <= i < |q| ==> Quote(q[i])
  {
    var all := Lowered(head + open);
    var u :| all == u + a;
    var k := if |a| > |open| then |a| - |open| else 0;
    d, q := a[..k], a[k..];
    forall i | 0 <= i < |q| ensures Quote(q[i]) {
      assert q[i] == all[|u| + k + i] == Lower(open[|u| + k + i - |head|]);
      LowerKeeps(open[|u| + k + i - |head|]);
    }
    if d != [] {
      assert d[k - 1] == all[|u| + k - 1] == Lower(head[|head| - 1]);
      LowerKeeps(head[|head| - 1]);
    }
  }

  lemma RestNoDivider(word: string, q: string, r: string, i: nat)
    requires (forall j :: 0 <= j < |q| ==> Quote(q[j])) && (forall j :: 0 <= j < |r| ==> Quote(r[j]))
    requires (forall j :: 0 <= j < |word| ==> !Divider(word[j])) && i < |q| + |word| + |r|
    ensures !Divider((q + Lowered(word) + r)[i])
  {
    if |q| <= i < |q| + |word| { LowerKeeps(word[i - |q|]); }
  }

  /** Quotes around a word hide nothing and add nothing. */
  lemma ContainsWithin(q: string, m: string, r: string, kw: string)
    requires (forall i :: 0 <= i < |q| ==> Quote(q[i])) && (forall i :: 0 <= i < |r| ==> Quote(r[i]))
    requires kw != [] && forall i :: 0 <= i < |kw| ==> !Quote(kw[i])
    ensures Contains(q + m + r, kw) <==> Contains(m, kw)
  {
    var s := q + m + r;
    if Contains(m, kw) {
      var j :| 0 <= j <= |m| && StandsAt(m, kw, j);
      assert s[|q| + j..|q| + j + |kw|] == m[j..j + |kw|];
      assert StandsAt(s, kw, |q| + j);
    }
    if Contains(s, kw) {
      var j :| 0 <= j <= |s| && StandsAt(s, kw, j);
      assert s[j] == kw[0] && s[j + |kw| - 1] == kw[|kw| - 1] by {
        assert s[j..j + |kw|][0] == kw[0] && s[j..j + |kw|][|kw| - 1] == kw[|kw| - 1];
      }
      assert j >= |q| && j + |kw| <= |q| + |m|;
      assert m[j - |q|..j - |q| + |kw|] == s[j..j + |kw|];
      assert StandsAt(m, kw, j - |q|);
    }
  }

  lemma ContainsInAnyCase(word: string, kw: string)
    requires NoCapitals(kw)
    ensures Contains(Lowered(word), kw) <==> exists j: nat :: Found(word, kw, j)
  {
    forall j: nat ensures StandsAt(Lowered(word), kw, j) <==> Found(word, kw, j) { StandsExactly(word, kw, j); }
  }

  lemma StandsExactly(word: string, kw: string, j: nat)
    requires NoCapitals(kw)
    ensures StandsAt(Lowered(word), kw, j) <==> Found(word, kw, j)
  {
    if j + |kw| <= |word| {
      var t := Lowered(word)[j..j + |kw|];
      forall x | 0 <= x < |kw| ensures t[x] == kw[x] <==> SameLetter(word[j + x], kw[x]) { LowerExactly(word[j + x], kw[x]); }
      if Found(word, kw, j) { assert t == kw; }
    }
  }

  /** The key word of an assignment is sensitive exactly if one of the listed keys
      stands in it, in upper or lower case, quoted or not. */
  lemma SensitiveExactly(head: string, open: string, word: string, close: string, blanks: string)
    requires KeyText(head, open, word, close, blanks)
    ensures Sensitive(head + open + word + close + blanks) <==>
            exists k, j: nat :: 0 <= k < |SENSITIVE| && Found(word, SENSITIVE[k], j)
  {
    hide Trim, LastWord, Contains, Found, KeyText;
    var before := head + open + word + close + blanks;
    var q, r := KeyIs(head, open, word, close, blanks);
    var key := LastWord(Trim(Trim(Trim(Lowered(before), White), c => c == '"'), c => c == '\''));
    SensitiveIs(before);
    forall k | 0 <= k < |SENSITIVE| ensures Contains(key, SENSITIVE[k]) <==> exists j: nat :: Found(word, SENSITIVE[k], j) {
      KeysArePlain(k);
      ContainsWithin(q, Lowered(word), r, SENSITIVE[k]);
      ContainsInAnyCase(word, SENSITIVE[k]);
    }
  }

  lemma SensitiveIs(before: string)
    ensures Sensitive(before) <==>
            var key := LastWord(Trim(Trim(Trim(Lowered(before), White), c => c == '"'), c => c == '\''));
            exists k :: 0 <= k < |SENSITIVE| && Contains(key, SENSITIVE[k])
  {
    hide Trim, LastWord, Contains;
    assert Lowered(before) == seq(|before|, i requires 0 <= i < |before| => Lower(before[i]));
  }

  predicate PlainKey(kw: string) {
    kw != [] && NoCapitals(kw) && forall i :: 0 <= i < |kw| ==> !Quote(kw[i])
  }

  lemma KeysArePlain(k: nat)
    requires k < |SENSITIVE|
    ensures PlainKey(SENSITIVE[k])
  {
    hide PlainKey;
    FirstKeys();
    MoreKeys();
    LastKeys();
  }

  lemma FirstKeys()
    ensures PlainKey("password") && PlainKey("passwd") && PlainKey("passphrase") && PlainKey("secret")
    ensures PlainKey("token") && PlainKey("api_key") && PlainKey("apikey") && PlainKey("api-key")
  {
  }

  lemma MoreKeys()
    ensures PlainKey("private_key") && PlainKey("private-key") && PlainKey("privatekey")
    ensures PlainKey("access_key") && PlainKey("access-key") && PlainKey("accesskey") && PlainKey("credential")
  {
  }

  lemma LastKeys()
    ensures PlainKey("authorization") && PlainKey("auth_header") && PlainKey("cookie")
    ensures PlainKey("session_id") && PlainKey("session-id") && PlainKey("client_secret") && PlainKey("signing_key")
  {
  }

  /** The keys the module's documentation names. */
  const DOCUMENTED: seq<string> := [
    "password", "secret", "token", "api_key", "passphrase", "private_key", "access_key", "credential",
    "authorization", "cookie", "session_id"]

  /** A line that assigns to a documented key loses its value. */
  lemma DocumentedKeys(i: nat, sep: char, value: string, out: string)
    requires i < |DOCUMENTED| && Separator(sep) && KeyRuled(DOCUMENTED[i] + [sep] + value, out)
    ensures out == DOCUMENTED[i] + [sep] + " [REDACTED]"
  {
    hide Sensitive, KeyRuled;
    DocumentedIsSensitive(i);
    NoSeparators(i);
    ValueLost(DOCUMENTED[i], sep, value, out);
  }

  lemma DocumentedIsSensitive(i: nat)
    requires i < |DOCUMENTED|
    ensures Sensitive(DOCUMENTED[i])
  {
    hide Sensitive, Found, KeyChars, KeyText;
    var key := DOCUMENTED[i];
    var k := InList(i);
    DocumentedChars(i);
    WholeWord(key);
    FoundItself(key);
    assert Found(key, SENSITIVE[k], 0);
    SensitiveExactly("", "", key, "", "");
    assert "" + "" + key + "" + "" == key;
  }

  lemma ValueLost(key: string, sep: char, value: string, out: string)
    requires Sensitive(key) && Separator(sep) && KeyRuled(key + [sep] + value, out) && forall j :: 0 <= j < |key| ==> !Separator(key[j])
    ensures out == key + [sep] + " [REDACTED]"
  {
    hide Sensitive;
    var line := key + [sep] + value;
    assert line[..|key|] == key && line[|key|] == sep && Splits(line, |key|);
    assert line[..|key| + 1] == key + [sep];
    assert " " + REDACTED == " [REDACTED]";
    assert key + [sep] + " " + REDACTED == key + [sep] + " [REDACTED]";
  }

  lemma FoundItself(key: string)
    ensures Found(key, key, 0)
  {
  }

  lemma InList(i: nat) returns (k: nat)
    requires i < |DOCUMENTED|
    ensures k < |SENSITIVE| && SENSITIVE[k] == DOCUMENTED[i]
  {
    var at: seq<nat> := [0, 3, 4, 5, 2, 8, 11, 14, 15, 17, 18];
    k := at[i];
  }

  predicate KeyChars(s: string) { s != [] && forall j :: 0 <= j < |s| ==> 'a' <= s[j] <= 'z' || s[j] == '_' }

  lemma DocumentedChars(i: nat)
    requires i < |DOCUMENTED|
    ensures KeyChars(DOCUMENTED[i])
  {
    hide KeyChars;
    SomeChars();
    OtherChars();
  }

  lemma SomeChars()
    ensures KeyChars("password") && KeyChars("secret") && KeyChars("token") && KeyChars("api_key") && KeyChars("passphrase")
  {
  }

  lemma OtherChars()
    ensures KeyChars("private_key") && KeyChars("access_key") && KeyChars("credential")
    ensures KeyChars("authorization") && KeyChars("cookie") && KeyChars("session_id")
  {
  }

  lemma WholeWord(key: string)
    requires KeyChars(key)
    ensures KeyText("", "", key, "", "")
  {
  }

  lemma NoSeparators(i: nat)
    requires i < |DOCUMENTED|
    ensures forall j :: 0 <= j < |DOCUMENTED[i]| ==> !Separator(DOCUMENTED[i][j])
  {
    DocumentedChars(i);
  }
}
