/** The guest agent's line protocol (guest-tools/agent/vmforge-ga.py, guest-tools/
    host/vmforgectl.py): newline-terminated JSON over a byte stream that arrives
    in arbitrary pieces. */
module Framing {

  type Byte = b: int | 0 <= b < 256
  type Bytes = seq<Byte>

  const NL: Byte := 10

  predicate White(b: Byte) { b == 32 || 9 <= b <= 13 }

  predicate Blank(s: Bytes) { forall i :: 0 <= i < |s| ==> White(s[i]) }

  /** `bytes.strip()`. */
  function Strip(s: Bytes): (r: Bytes)
    ensures r == [] <==> Blank(s)
  {
    if s == [] then []
    else if White(s[0]) then assert forall i :: 0 < i < |s| ==> s[i] == s[1..][i - 1]; Strip(s[1..])
    else if White(s[|s| - 1]) then
      var r := Strip(s[..|s| - 1]);
      assert s[..|s| - 1][0] == s[0];
      r
    else s
  }

  lemma StripUnfolds(s: Bytes)
    ensures Strip(s) == if s == [] then [] else if White(s[0]) then Strip(s[1..])
                        else if White(s[|s| - 1]) then Strip(s[..|s| - 1]) else s
  {
  }

  /** Blanks go at both ends, and nothing else does. */
  lemma {:induction false} StripExactly(s: Bytes) returns (before: Bytes, after: Bytes)
    ensures s == before + Strip(s) + after && Blank(before) && Blank(after)
    ensures Strip(s) != [] ==> !White(Strip(s)[0]) && !White(Strip(s)[|Strip(s)| - 1])
    decreases |s|
  {
    hide Strip, White;
    StripUnfolds(s);
    if s == [] {
      before, after := [], [];
    } else if White(s[0]) {
      before, after := StripExactly(s[1..]);
      before := [s[0]] + before;
    } else if White(s[|s| - 1]) {
      before, after := StripExactly(s[..|s| - 1]);
      after := after + [s[|s| - 1]];
    } else {
      before, after := [], [];
      assert s == [] + s + [];
    }
  }

  function FirstNewline(s: Bytes): (i: nat)
    ensures i <= |s| && (i < |s| ==> s[i] == NL) && forall k :: 0 <= k < i ==> s[k] != NL
  {
    if s == [] || s[0] == NL then 0 else 1 + FirstNewline(s[1..])
  }

  /** The newline-terminated lines of a byte string; what follows the last
      newline is not a line yet. */
  function Lines(s: Bytes): seq<Bytes>
    decreases |s|
  {
    var i := FirstNewline(s);
    if i == |s| then [] else [s[..i]] + Lines(s[i + 1..])
  }

  /** Ends at a line boundary. */
  predicate AtBoundary(s: Bytes) { s == [] || s[|s| - 1] == NL }

  lemma FirstNewlineUnique(s: Bytes, i: nat)
    requires i < |s| && s[i] == NL && forall k :: 0 <= k < i ==> s[k] != NL
    ensures FirstNewline(s) == i
  {
  }

  lemma LinesUnfold(s: Bytes, i: nat)
    requires i < |s| && FirstNewline(s) == i
    ensures Lines(s) == [s[..i]] + Lines(s[i + 1..])
  {
  }

  /** Cutting at a line boundary cuts the list of lines. */
  lemma {:induction false} LinesSplit(a: Bytes, b: Bytes)
    requires AtBoundary(a)
    ensures Lines(a + b) == Lines(a) + Lines(b)
    decreases |a|
  {
    hide Lines, FirstNewline;
    if a == [] {
      assert a + b == b;
      NoNewlineNoLines(a);
    } else {
      var i := FirstNewline(a);
      assert a[|a| - 1] == NL && i < |a|;
      assert (a + b)[..i] == a[..i] && (a + b)[i] == NL;
      FirstNewlineUnique(a + b, i);
      assert (a + b)[i + 1..] == a[i + 1..] + b;
      LinesUnfold(a, i);
      LinesUnfold(a + b, i);
      LinesSplit(a[i + 1..], b);
    }
  }

  function Concat(chunks: seq<Bytes>): Bytes {
    if chunks == [] then [] else Concat(chunks[..|chunks| - 1]) + chunks[|chunks| - 1]
  }

  /** The requests in a stream: its lines, stripped, without the blank ones. */
  function Requests(ls: seq<Bytes>): seq<Bytes> {
    if ls == [] then []
    else (if Blank(ls[0]) then [] else [Strip(ls[0])]) + Requests(ls[1..])
  }

  lemma {:induction false} RequestsAppend(a: seq<Bytes>, b: seq<Bytes>)
    ensures Requests(a + b) == Requests(a) + Requests(b)
    decreases |a|
  {
    if a == [] {
      assert a + b == b;
    } else {
      assert (a + b)[1..] == a[1..] + b;
      RequestsAppend(a[1..], b);
    }
  }

  /** One more line taken off the buffer. */
  lemma TakeLine(taken: Bytes, buf: Bytes)
    requires AtBoundary(taken) && NL in buf
    ensures var i := FirstNewline(buf);
            && i < |buf| && AtBoundary(taken + buf[..i + 1])
            && Lines(taken + buf[..i + 1]) == Lines(taken) + [buf[..i]]
            && (taken + buf[..i + 1]) + buf[i + 1..] == taken + buf
  {
    hide Lines;
    var i := FirstNewline(buf);
    LinesSplit(taken, buf[..i + 1]);
    OneLine(buf, i);
    Rejoin(taken, buf, i + 1);
  }

  lemma OneLine(buf: Bytes, i: nat)
    requires i < |buf| && buf[i] == NL && forall k :: 0 <= k < i ==> buf[k] != NL
    ensures Lines(buf[..i + 1]) == [buf[..i]]
  {
    var line := buf[..i + 1];
    assert line[..i] == buf[..i];
    FirstNewlineUnique(line, i);
    assert line[i + 1..] == [] && Lines([]) == [];
  }

  lemma Rejoin(taken: Bytes, buf: Bytes, k: nat)
    requires k <= |buf|
    ensures (taken + buf[..k]) + buf[k..] == taken + buf
  {
    assert buf[..k] + buf[k..] == buf;
  }

  lemma NoNewlineNoLines(buf: Bytes)
    requires NL !in buf
    ensures Lines(buf) == []
  {
  }
}

/** The agent. JSON decoding and the command handlers are given as functions. */
module GuestAgent {
  import opened Forest
  import opened Framing

  /** A request as decoded; `id` is absent when missing or null. */
  datatype Decoded = NotJson | NotObject | Request(id: Option<int>, command: Bytes)

  /** How a handler ends: a value, an agent error with its code, a ValueError,
      or any other exception. */
  datatype Handled = Value(v: int) | AgentError(code: int) | ValueError | OtherError

  datatype Body = Return(v: int) | Error(code: int)
  datatype Reply = Reply(id: Option<int>, body: Body)

  const INVALID_REQUEST := 1
  const INTERNAL_ERROR := 2

  type Decoder = Bytes -> Decoded
  type Handler = Bytes -> Handled

  /** `process_line`: one line, one reply, whatever happens. */
  function Process(decode: Decoder, handle: Handler, line: Bytes): Reply {
    match decode(line)
    case NotJson => Reply(None, Error(INVALID_REQUEST))
    case NotObject => Reply(None, Error(INVALID_REQUEST))
    case Request(id, command) =>
      match handle(command)
      case Value(v) => Reply(id, Return(v))
      case AgentError(code) => Reply(id, Error(code))
      case ValueError => Reply(id, Error(INVALID_REQUEST))
      case OtherError => Reply(id, Error(INTERNAL_ERROR))
  }

  /** One reply per line; `act(i)` is how commands end when line `i` is handled. */
  function Replies(decode: Decoder, act: nat -> Handler, lines: seq<Bytes>): (rs: seq<Reply>)
    ensures |rs| == |lines| && forall i :: 0 <= i < |rs| ==> rs[i] == Process(decode, act(i), lines[i])
  {
    seq(|lines|, i requires 0 <= i < |lines| => Process(decode, act(i), lines[i]))
  }

  lemma RepliesFit(decode: Decoder, act: nat -> Handler, lines: seq<Bytes>)
    ensures var rs := Replies(decode, act, lines);
            |rs| == |lines| && forall i :: 0 <= i < |lines| ==> Fits(decode, act(i), lines[i], rs[i])
  {
    hide Process, Fits;
    forall i | 0 <= i < |lines| ensures Fits(decode, act(i), lines[i], Replies(decode, act, lines)[i]) { ProcessFits(decode, act(i), lines[i]); }
  }

  lemma RepliesGrow(decode: Decoder, act: nat -> Handler, lines: seq<Bytes>, line: Bytes)
    ensures Replies(decode, act, lines + [line]) == Replies(decode, act, lines) + [Process(decode, act(|lines|), line)]
  {
    hide Process;
  }

  /** What the reply to a line must be: an object gets its id back and is answered
      as its command ended; anything else is an invalid request without id. */
  ghost predicate Fits(decode: Decoder, handle: Handler, line: Bytes, r: Reply) {
    match decode(line)
    case Request(id, command) =>
      && r.id == id
      && (forall v :: r.body == Return(v) <==> handle(command) == Value(v))
      && (forall c :: r.body == Error(c) <==>
           || handle(command) == AgentError(c)
           || (handle(command) == ValueError && c == INVALID_REQUEST)
           || (handle(command) == OtherError && c == INTERNAL_ERROR))
    case _ => r == Reply(None, Error(INVALID_REQUEST))
  }

  lemma ProcessFits(decode: Decoder, handle: Handler, line: Bytes)
    ensures Fits(decode, handle, line, Process(decode, handle, line))
  {
  }

  /** There is one fitting reply. */
  lemma OneFits(decode: Decoder, handle: Handler, line: Bytes, r: Reply, r2: Reply)
    requires Fits(decode, handle, line, r) && Fits(decode, handle, line, r2)
    ensures r == r2
  {
    if decode(line).Request? {
      if r.body.Return? { assert r2.body == Return(r.body.v); } else { assert r2.body == Error(r.body.code); }
    }
  }

  /** The reading loop of `serve`. `writes(k)` says whether the k-th reply can be
      written; a failed write ends the inner loop until more bytes come. The
      lines handled are the requests of the stream in order, however it was cut:
      all of them if no write fails, a first part otherwise. */
  method Serve(chunks: seq<Bytes>, decode: Decoder, act: nat -> Handler, writes: nat -> bool)
    returns (handled: seq<Bytes>, replies: seq<Reply>, buf: Bytes)
    ensures handled + Requests(Lines(buf)) == Requests(Lines(Concat(chunks)))
    ensures |replies| == |handled| && forall i :: 0 <= i < |handled| ==> Fits(decode, act(i), handled[i], replies[i])
    ensures (forall k :: writes(k)) ==> handled == Requests(Lines(Concat(chunks))) && NL !in buf
  {
    hide Lines, Requests, Strip, FirstNewline, AtBoundary, Blank, Process, Replies, Concat, Fits;
    handled, replies, buf := [], [], [];
    assert chunks[..0] == [];
    ghost var taken: Bytes := [];
    EmptyLines();
    for n := 0 to |chunks|
      invariant AtBoundary(taken) && taken + buf == Concat(chunks[..n])
      invariant handled == Requests(Lines(taken)) && replies == Replies(decode, act, handled)
      invariant (forall k :: writes(k)) ==> NL !in buf
    {
      ConcatStep(chunks, n);
      Reassociate(taken, buf, chunks[n]);
      buf := buf + chunks[n];
      while NL in buf
        invariant AtBoundary(taken) && taken + buf == Concat(chunks[..n + 1])
        invariant handled == Requests(Lines(taken)) && replies == Replies(decode, act, handled)
        decreases |buf|
      {
        var i := FirstNewline(buf);
        TakeRequest(taken, buf);
        var line := Strip(buf[..i]);
        taken, buf := taken + buf[..i + 1], buf[i + 1..];
        if line == [] { continue; }
        var k := |handled|;
        RepliesGrow(decode, act, handled, line);
        handled, replies := handled + [line], replies + [Process(decode, act(k), line)];
        if !writes(k) { break; }
      }
    }
    assert chunks[..|chunks|] == chunks;
    LinesSplit(taken, buf);
    RequestsAppend(Lines(taken), Lines(buf));
    if NL !in buf { NoNewlineNoLines(buf); }
    RepliesFit(decode, act, handled);
  }

  lemma EmptyLines()
    ensures AtBoundary([]) && Lines([]) == [] && Requests([]) == [] && Concat([]) == []
  {
  }

  lemma TakeRequest(taken: Bytes, buf: Bytes)
    requires AtBoundary(taken) && NL in buf
    ensures var i := FirstNewline(buf);
            && i < |buf| && AtBoundary(taken + buf[..i + 1]) && (taken + buf[..i + 1]) + buf[i + 1..] == taken + buf
            && Requests(Lines(taken + buf[..i + 1])) ==
               Requests(Lines(taken)) + if Strip(buf[..i]) == [] then [] else [Strip(buf[..i])]
  {
    hide Lines, Requests, Strip;
    var i := FirstNewline(buf);
    TakeLine(taken, buf);
    RequestsAppend(Lines(taken), [buf[..i]]);
    OneRequest(buf[..i]);
  }

  lemma OneRequest(line: Bytes)
    ensures Requests([line]) == if Blank(line) then [] else [Strip(line)]
  {
    assert [line][1..] == [];
  }

  // ---- the client -----------------------------------------------------------------------------

  /** A reply line as decoded on the host. */
  datatype Heard = Garbled | HeardReply(reply: Reply)

  datatype Result = Answer(body: Body) | Malformed | NoAnswer

  /** What the lines say to a client waiting for `id`: the first reply with that
      id counts, others are skipped, a line that is no reply is an error. */
  function Listen(hear: Bytes -> Heard, id: int, ls: seq<Bytes>): Result {
    if ls == [] then NoAnswer
    else if Blank(ls[0]) then Listen(hear, id, ls[1..])
    else match hear(ls[0])
      case Garbled => Malformed
      case HeardReply(r) => if r.id == Some(id) then Answer(r.body) else Listen(hear, id, ls[1..])
  }

  lemma {:induction false} ListenSplit(hear: Bytes -> Heard, id: int, a: seq<Bytes>, b: seq<Bytes>)
    ensures Listen(hear, id, a + b) == if Listen(hear, id, a).NoAnswer? then Listen(hear, id, b) else Listen(hear, id, a)
    decreases |a|
  {
    if a == [] {
      assert a + b == b;
    } else {
      assert (a + b)[0] == a[0] && (a + b)[1..] == a[1..] + b;
      ListenSplit(hear, id, a[1..], b);
    }
  }

  lemma ListenOne(hear: Bytes -> Heard, id: int, line: Bytes)
    ensures Listen(hear, id, [line]) ==
            if Blank(line) then NoAnswer else
            match hear(line)
            case Garbled => Malformed
            case HeardReply(r) => if r.id == Some(id) then Answer(r.body) else NoAnswer
  {
    assert [line][1..] == [];
  }

  class GuestAgentClient {
    var id: int

    constructor ()
      ensures id == 0
    {
      id := 0;
    }

    /** `execute`, with the pieces received before the timeout or the end of the
        connection. The answer depends on the bytes, not on the pieces. */
    method Execute(hear: Bytes -> Heard, chunks: seq<Bytes>) returns (r: Result)
      modifies this
      ensures id == old(id) + 1
      ensures r == Listen(hear, id, Lines(Concat(chunks)))
    {
      hide Lines, Listen, Strip, Concat, AtBoundary;
      id := id + 1;
      var buf: Bytes := [];
      ghost var taken: Bytes := [];
      EmptyLines();
      ListenNone(hear, id);
      assert chunks[..0] == [];
      for n := 0 to |chunks|
        invariant id == old(id) + 1
        invariant AtBoundary(taken) && taken + buf == Concat(chunks[..n]) && NL !in buf
        invariant Listen(hear, id, Lines(taken)) == NoAnswer
      {
        ConcatStep(chunks, n);
        Reassociate(taken, buf, chunks[n]);
        buf := buf + chunks[n];
        while NL in buf
          invariant AtBoundary(taken) && taken + buf == Concat(chunks[..n + 1]) && id == old(id) + 1
          invariant Listen(hear, id, Lines(taken)) == NoAnswer
          decreases |buf|
        {
          var i := FirstNewline(buf);
          TakeLine(taken, buf);
          ListenSplit(hear, id, Lines(taken), [buf[..i]]);
          ListenOne(hear, id, buf[..i]);
          var line := buf[..i];
          taken, buf := taken + buf[..i + 1], buf[i + 1..];
          if Strip(line) == [] { continue; }
          match hear(line) {
            case Garbled =>
              Decided(hear, id, chunks, n + 1, taken, buf);
              return Malformed;
            case HeardReply(reply) =>
              if reply.id != Some(id) { continue; }   // stale
              Decided(hear, id, chunks, n + 1, taken, buf);
              return Answer(reply.body);
          }
        }
      }
      assert chunks[..|chunks|] == chunks;
      LinesSplit(taken, buf);
      NoNewlineNoLines(buf);
      assert Lines(taken) + [] == Lines(taken);
      return NoAnswer;
    }
  }

  lemma ConcatStep(chunks: seq<Bytes>, n: nat)
    requires n < |chunks|
    ensures Concat(chunks[..n + 1]) == Concat(chunks[..n]) + chunks[n]
  {
    assert chunks[..n + 1][..n] == chunks[..n];
  }

  lemma ListenNone(hear: Bytes -> Heard, id: int)
    ensures Listen(hear, id, []) == NoAnswer
  {
  }

  lemma {:induction false} ConcatSplit(chunks: seq<Bytes>, n: nat)
    requires n <= |chunks|
    ensures exists rest :: Concat(chunks) == Concat(chunks[..n]) + rest
    decreases |chunks|
  {
    if n == |chunks| {
      assert chunks[..n] == chunks;
      assert Concat(chunks) == Concat(chunks[..n]) + [];
    } else {
      var init := chunks[..|chunks| - 1];
      ConcatSplit(init, n);
      assert init[..n] == chunks[..n];
      var rest :| Concat(init) == Concat(chunks[..n]) + rest;
      assert Concat(chunks) == Concat(chunks[..n]) + (rest + chunks[|chunks| - 1]);
    }
  }

  lemma Reassociate(a: Bytes, b: Bytes, c: Bytes)
    ensures (a + b) + c == a + (b + c)
  {
  }

  /** Once the lines so far decide, the rest of the stream changes nothing. */
  lemma Decided(hear: Bytes -> Heard, id: int, chunks: seq<Bytes>, n: nat, taken: Bytes, buf: Bytes)
    requires n <= |chunks| && AtBoundary(taken) && taken + buf == Concat(chunks[..n])
    requires !Listen(hear, id, Lines(taken)).NoAnswer?
    ensures Listen(hear, id, Lines(Concat(chunks))) == Listen(hear, id, Lines(taken))
  {
    hide Lines, Listen, Concat, AtBoundary;
    ConcatSplit(chunks, n);
    var rest :| Concat(chunks) == Concat(chunks[..n]) + rest;
    Reassociate(taken, buf, rest);
    LinesSplit(taken, buf + rest);
    ListenSplit(hear, id, Lines(taken), Lines(buf + rest));
  }
}
