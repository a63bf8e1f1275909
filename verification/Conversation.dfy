/** Clients and the agent on one FIFO channel, byte by byte. Requests are told
    apart by when they were made, not by the id they carry: two requests may
    carry the same id, and then a reply to one can be taken for the other. */
module Conversations {
  import opened Forest
  import opened Framing
  import opened GuestAgent

  /** A request: which call made it, counted over the life of the channel, and
      the id it carries. */
  datatype Asked = Asked(call: nat, id: nat)

  /** What the calls ask, how the agent's commands end each time, and the JSON
      encoding and decoding on both sides. */
  datatype World = World(command: nat -> Bytes, act: nat -> Handler,
                         request: (nat, Bytes) -> Bytes, decode: Decoder,
                         encode: Reply -> Bytes, hear: Bytes -> Heard)

  /** What is asked of the encoding. Requests and replies are single lines that
      read back, and the end of a reply line is not JSON. */
  ghost predicate Codec(w: World) {
    && (forall id: nat, cmd: Bytes :: Whole(w.request(id, cmd)) && w.decode(w.request(id, cmd)) == Request(Some(id), cmd))
    && (forall r: Reply :: Whole(w.encode(r)) && w.hear(w.encode(r)) == HeardReply(r))
    && (forall r: Reply, i: nat :: 0 < i < |w.encode(r)| ==> Broken(w, w.encode(r)[i..]))
  }

  predicate Whole(line: Bytes) { NL !in line && line != [] && Strip(line) == line }

  predicate Broken(w: World, part: Bytes) { !Blank(part) && w.hear(part) == Garbled }

  /** The agent's reply to a request: `process_line` of the line it came in. */
  function ReplyTo(w: World, q: Asked): Reply {
    Process(w.decode, w.act(q.call), w.request(q.id, w.command(q.call)))
  }

  /** The reply to a request, told by how its command ended. */
  ghost predicate Answered(w: World, q: Asked, body: Body) {
    var end := w.act(q.call)(w.command(q.call));
    && (forall v :: body == Return(v) <==> end == Value(v))
    && (forall c :: body == Error(c) <==>
         end == AgentError(c) || (end == ValueError && c == INVALID_REQUEST) || (end == OtherError && c == INTERNAL_ERROR))
  }

  lemma ReplyAnswers(w: World, q: Asked)
    requires Codec(w)
    ensures ReplyTo(w, q).id == Some(q.id) && Answered(w, q, ReplyTo(w, q).body)
  {
    hide Fits;
    var line := w.request(q.id, w.command(q.call));
    assert w.decode(line) == Request(Some(q.id), w.command(q.call));
    ProcessFits(w.decode, w.act(q.call), line);
    FitsAnswers(w, q, ReplyTo(w, q));
  }

  lemma FitsAnswers(w: World, q: Asked, r: Reply)
    requires Codec(w) && Fits(w.decode, w.act(q.call), w.request(q.id, w.command(q.call)), r)
    ensures r.id == Some(q.id) && Answered(w, q, r.body)
  {
    assert w.decode(w.request(q.id, w.command(q.call))) == Request(Some(q.id), w.command(q.call));
  }

  function Line(w: World, q: Asked): Bytes { w.encode(ReplyTo(w, q)) + [NL] }

  /** Replies on their way, as bytes. */
  function Encoded(w: World, qs: seq<Asked>): Bytes {
    if qs == [] then [] else Line(w, qs[0]) + Encoded(w, qs[1..])
  }

  /** `id`: the client's counter. `calls`: calls so far, of any client. `tail`:
      what is unread of a reply line read in part. `wire`: requests whose replies
      are unread. `owed`: requests not answered yet. */
  datatype Channel = Channel(id: nat, calls: nat, tail: Bytes, wire: seq<Asked>, owed: seq<Asked>)

  /** One call: by a new client or by the one that called before; how many of the
      requests it owes the agent answers meanwhile; and how many bytes the client
      reads before it has its answer or gives up. */
  datatype Exchange = Exchange(newClient: bool, answered: nat, read: nat)

  function Min(a: nat, b: nat): nat { if a < b then a else b }

  function NextId(c: Channel, newClient: bool): nat { if newClient then 1 else c.id + 1 }

  function Own(c: Channel, newClient: bool): Asked { Asked(c.calls, NextId(c, newClient)) }

  /** The request is sent and the agent answers some requests, oldest first. */
  function Sent(c: Channel, x: Exchange): Channel {
    var owed := c.owed + [Own(c, x.newClient)];
    var k := Min(x.answered, |owed|);
    Channel(NextId(c, x.newClient), c.calls + 1, c.tail, c.wire + owed[..k], owed[k..])
  }

  function Stream(w: World, c: Channel): Bytes { c.tail + Encoded(w, c.wire) }

  function Received(w: World, c: Channel, x: Exchange): Bytes {
    var s := Stream(w, Sent(c, x));
    s[..Min(x.read, |s|)]
  }

  /** What is left after reading `n` bytes. */
  function Drop(w: World, tail: Bytes, wire: seq<Asked>, n: nat): (Bytes, seq<Asked>)
    decreases |wire|
  {
    if n <= |tail| then (tail[n..], wire)
    else if wire == [] then ([], [])
    else Drop(w, Line(w, wire[0]), wire[1..], n - |tail|)
  }

  function After(w: World, c: Channel, x: Exchange): Channel {
    var s := Sent(c, x);
    var (tail, wire) := Drop(w, s.tail, s.wire, x.read);
    s.(tail := tail, wire := wire)
  }

  /** Of the replies wholly within `n` bytes, the first that carries `id`. */
  function Taken(w: World, wire: seq<Asked>, id: nat, n: nat): (q: Option<Asked>)
    ensures q.Some? ==> q.value in wire && q.value.id == id
    decreases |wire|
  {
    if wire == [] || n < |Line(w, wire[0])| then None
    else if wire[0].id == id then Some(wire[0])
    else Taken(w, wire[1..], id, n - |Line(w, wire[0])|)
  }

  /** The rest of a reply line is in the way. A lone newline is not. */
  predicate Torn(c: Channel) { |c.tail| > 1 }

  /** The request whose reply the call takes for its own. */
  function Origin(w: World, c: Channel, x: Exchange): Option<Asked> {
    var s := Sent(c, x);
    if Torn(c) || x.read < |c.tail| then None else Taken(w, s.wire, s.id, x.read - |c.tail|)
  }

  /** `part` is [] or the end of a reply line, newline included. */
  ghost predicate Rest(w: World, part: Bytes) {
    part == [] || exists r: Reply, i: nat :: 0 < i <= |w.encode(r)| && part == w.encode(r)[i..] + [NL]
  }

  ghost predicate Sound(w: World, c: Channel) {
    Rest(w, c.tail) && forall q :: q in c.wire + c.owed ==> q.call < c.calls
  }

  // ---- bytes -----------------------------------------------------------------------------------

  lemma LineIsOne(w: World, q: Asked)
    requires Codec(w)
    ensures Lines(Line(w, q)) == [w.encode(ReplyTo(w, q))] && AtBoundary(Line(w, q))
    ensures !Blank(w.encode(ReplyTo(w, q))) && w.hear(w.encode(ReplyTo(w, q))) == HeardReply(ReplyTo(w, q))
    ensures ReplyTo(w, q).id == Some(q.id)
  {
    hide Lines, Strip;
    var e := w.encode(ReplyTo(w, q));
    assert Whole(e);
    OneLine(Line(w, q), |e|);
    assert Line(w, q)[..|e| + 1] == Line(w, q) && Line(w, q)[..|e|] == e;
    assert w.decode(w.request(q.id, w.command(q.call))) == Request(Some(q.id), w.command(q.call));
  }

  /** A client that reads the first `n` bytes of some replies. */
  lemma {:induction false} ListenTakes(w: World, wire: seq<Asked>, id: nat, n: nat)
    requires Codec(w) && n <= |Encoded(w, wire)|
    ensures Listen(w.hear, id, Lines(Encoded(w, wire)[..n])) ==
            match Taken(w, wire, id, n) case None => NoAnswer case Some(q) => Answer(ReplyTo(w, q).body)
    decreases |wire|
  {
    hide Lines, Listen, Codec, ReplyTo;
    if wire == [] {
      NothingHeard(w.hear, id, []);
    } else {
      var line, rest := Line(w, wire[0]), Encoded(w, wire[1..]);
      var got := Encoded(w, wire)[..n];
      if n < |line| {
        assert got == w.encode(ReplyTo(w, wire[0]))[..n];
        LineHasNoNewline(w, wire[0]);
        NothingHeard(w.hear, id, got);
      } else {
        var m := n - |line|;
        assert got == line + rest[..m];
        LineIsOne(w, wire[0]);
        LinesSplit(line, rest[..m]);
        ListenSplit(w.hear, id, Lines(line), Lines(rest[..m]));
        ListenOne(w.hear, id, w.encode(ReplyTo(w, wire[0])));
        ListenTakes(w, wire[1..], id, m);
      }
    }
  }

  lemma LineHasNoNewline(w: World, q: Asked)
    requires Codec(w)
    ensures NL !in w.encode(ReplyTo(w, q))
  {
    hide ReplyTo;
    assert Whole(w.encode(ReplyTo(w, q)));
  }

  lemma NothingHeard(hear: Bytes -> Heard, id: int, got: Bytes)
    requires NL !in got
    ensures Listen(hear, id, Lines(got)) == NoAnswer
  {
    NoNewlineNoLines(got);
    ListenNone(hear, id);
  }

  /** What is left of a line is heard as nothing or as an error. */
  lemma TailHeard(w: World, tail: Bytes, id: nat, n: nat)
    requires Codec(w) && Rest(w, tail) && n <= |tail|
    ensures var r := Listen(w.hear, id, Lines(tail[..n]));
            !r.Answer? && (n < |tail| || |tail| <= 1 ==> r == NoAnswer) && (n == |tail| > 1 ==> r == Malformed)
    ensures AtBoundary(tail)
  {
    hide Lines, Listen, Strip;
    if tail == [] {
      NothingHeard(w.hear, id, tail[..n]);
    } else {
      var r: Reply, i: nat :| 0 < i <= |w.encode(r)| && tail == w.encode(r)[i..] + [NL];
      var e := w.encode(r)[i..];
      assert Whole(w.encode(r));
      if n < |tail| {
        assert tail[..n] == e[..n];
        NothingHeard(w.hear, id, tail[..n]);
      } else {
        assert tail[..|e| + 1] == tail && tail[..n] == tail && tail[..|e|] == e;
        OneLine(tail, |e|);
        ListenOne(w.hear, id, e);
        assert i < |w.encode(r)| ==> Broken(w, w.encode(r)[i..]);
      }
    }
  }

  /** The result of a call is the reply to the request it takes for its own. */
  lemma CallHears(w: World, c: Channel, x: Exchange)
    requires Codec(w) && Sound(w, c)
    ensures var r := Listen(w.hear, NextId(c, x.newClient), Lines(Received(w, c, x)));
            match Origin(w, c, x)
            case None => !r.Answer?
            case Some(q) => r == Answer(ReplyTo(w, q).body)
  {
    hide Lines, Listen, Codec, ReplyTo, Rest, Encoded, AtBoundary;
    var s, id := Sent(c, x), NextId(c, x.newClient);
    var all, got := Stream(w, s), Received(w, c, x);
    var rest := Encoded(w, s.wire);
    if |got| < |c.tail| {
      assert got == c.tail[..|got|];
      TailHeard(w, c.tail, id, |got|);
    } else {
      var m := |got| - |c.tail|;
      assert got == c.tail + rest[..m] && c.tail[..|c.tail|] == c.tail;
      TailHeard(w, c.tail, id, |c.tail|);
      LinesSplit(c.tail, rest[..m]);
      ListenSplit(w.hear, id, Lines(c.tail), Lines(rest[..m]));
      ListenTakes(w, s.wire, id, m);
      if x.read >= |c.tail| { TakenWithin(w, s.wire, id, x.read - |c.tail|); }
    }
  }

  /** Reading past the end changes nothing. */
  lemma {:induction false} TakenWithin(w: World, wire: seq<Asked>, id: nat, n: nat)
    ensures Taken(w, wire, id, n) == Taken(w, wire, id, Min(n, |Encoded(w, wire)|))
    decreases |wire|
  {
    hide Line;
    if wire != [] && n >= |Line(w, wire[0])| { TakenWithin(w, wire[1..], id, n - |Line(w, wire[0])|); }
  }

  lemma {:induction false} DropKeeps(w: World, tail: Bytes, wire: seq<Asked>, n: nat)
    requires Rest(w, tail)
    ensures var (tail', wire') := Drop(w, tail, wire, n);
            && Rest(w, tail') && (forall q :: q in wire' ==> q in wire)
            && var s := tail + Encoded(w, wire); tail' + Encoded(w, wire') == s[Min(n, |s|)..]
    decreases |wire|
  {
    hide Rest, Line;
    if n <= |tail| {
      RestOfRest(w, tail, n);
      assert (tail + Encoded(w, wire))[n..] == tail[n..] + Encoded(w, wire);
    } else if wire == [] {
      RestOfRest(w, tail, |tail|);
    } else {
      DropLine(w, wire[0], wire[1..], n - |tail|);
      DropBoth(tail, Encoded(w, wire), n);
    }
  }

  lemma DropBoth(a: Bytes, b: Bytes, n: nat)
    requires n >= |a|
    ensures (a + b)[Min(n, |a + b|)..] == b[Min(n - |a|, |b|)..]
  {
  }

  lemma RestOfRest(w: World, tail: Bytes, n: nat)
    requires Rest(w, tail) && n <= |tail|
    ensures Rest(w, tail[n..])
  {
    if tail[n..] != [] {
      var r: Reply, i: nat :| 0 < i <= |w.encode(r)| && tail == w.encode(r)[i..] + [NL];
      assert tail[n..] == w.encode(r)[i + n..] + [NL];
    }
  }

  /** Dropping at least one byte, from a whole line on. */
  lemma {:induction false} DropLine(w: World, q: Asked, wire: seq<Asked>, n: nat)
    requires n > 0
    ensures var (tail', wire') := Drop(w, Line(w, q), wire, n);
            && Rest(w, tail') && (forall p :: p in wire' ==> p in wire)
            && var s := Line(w, q) + Encoded(w, wire); tail' + Encoded(w, wire') == s[Min(n, |s|)..]
    decreases |wire|
  {
    hide ReplyTo;
    var line, rest := Line(w, q), Encoded(w, wire);
    if n < |line| {
      assert line[n..] == w.encode(ReplyTo(w, q))[n..] + [NL];
    } else if n == |line| {
      assert line[n..] == [];
    } else if wire != [] {
      DropLine(w, wire[0], wire[1..], n - |line|);
      DropBoth(line, rest, n);
    }
  }

  // ---- whose reply ------------------------------------------------------------------------------

  /** Every call leaves the channel sound, and what it leaves unread is exactly
      what it did not receive. */
  lemma CallSound(w: World, c: Channel, x: Exchange)
    requires Sound(w, c)
    ensures Sound(w, After(w, c, x))
    ensures Stream(w, Sent(c, x)) == Received(w, c, x) + Stream(w, After(w, c, x))
    ensures forall q :: q in After(w, c, x).wire + After(w, c, x).owed ==> q in c.wire + c.owed || q == Own(c, x.newClient)
  {
    hide Rest, Encoded, Drop;
    var s := Sent(c, x);
    DropKeeps(w, s.tail, s.wire, x.read);
    SentAre(c, x);
  }

  lemma SentAre(c: Channel, x: Exchange)
    ensures var s := Sent(c, x); forall q :: q in s.wire + s.owed <==> q in c.wire + c.owed || q == Own(c, x.newClient)
  {
    var s := Sent(c, x);
    var owed, k := c.owed + [Own(c, x.newClient)], Min(x.answered, |c.owed| + 1);
    assert owed == owed[..k] + owed[k..];
    assert s.wire + s.owed == c.wire + owed;
  }

  /** An earlier request that carries the id of the coming call is unanswered or
      its reply unread. */
  predicate Ambiguous(c: Channel, newClient: bool) {
    exists q :: q in c.wire + c.owed && q.id == NextId(c, newClient)
  }

  /** However much the agent answers and the client reads, the reply taken is the
      call's own. */
  ghost predicate OnlyOwn(w: World, c: Channel, newClient: bool) {
    forall answered: nat, read: nat ::
      var q := Origin(w, c, Exchange(newClient, answered, read)); q.Some? ==> q.value == Own(c, newClient)
  }

  /** A call is safe from stale replies exactly when no pending request carries
      its id, or the rest of a reply line makes it fail in any case. */
  lemma OwnReplyExactly(w: World, c: Channel, newClient: bool)
    requires Sound(w, c)
    ensures OnlyOwn(w, c, newClient) <==> Torn(c) || !Ambiguous(c, newClient)
  {
    hide Rest, Taken, Encoded, Line;
    forall answered: nat, read: nat | !Ambiguous(c, newClient)
      ensures var q := Origin(w, c, Exchange(newClient, answered, read)); q.Some? ==> q.value == Own(c, newClient)
    {
      SentAre(c, Exchange(newClient, answered, read));
    }
    if Ambiguous(c, newClient) && !Torn(c) {
      var all := c.wire + c.owed;
      var q :| q in all && q.id == NextId(c, newClient);
      var rest := [Own(c, newClient)];
      var n := |Encoded(w, all + rest)|;
      TakenEarlier(w, all, rest, q.id, n);
      var x := Exchange(newClient, |c.owed| + 1, n + |c.tail|);
      assert c.wire + (c.owed + rest)[..|c.owed| + 1] == all + rest;
      assert Origin(w, c, x).Some? && Origin(w, c, x).value in all;
    }
  }

  /** With everything read, the first request that carries the id is taken. */
  lemma {:induction false} TakenEarlier(w: World, early: seq<Asked>, late: seq<Asked>, id: nat, n: nat)
    requires exists q :: q in early && q.id == id
    requires n >= |Encoded(w, early + late)|
    ensures Taken(w, early + late, id, n).Some? && Taken(w, early + late, id, n).value in early
    decreases |early|
  {
    hide Line;
    assert (early + late)[1..] == early[1..] + late;
    if early[0].id != id {
      TakenEarlier(w, early[1..], late, id, n - |Line(w, early[0])|);
    }
  }

  /** Once the agent has caught up and the client reads on, a call that is safe
      does get its reply. */
  lemma OwnReplyComes(w: World, c: Channel, x: Exchange)
    requires Sound(w, c) && !Torn(c) && !Ambiguous(c, x.newClient)
    requires x.answered > |c.owed| && x.read >= |Stream(w, Sent(c, x))|
    ensures Origin(w, c, x) == Some(Own(c, x.newClient))
  {
    hide Taken, Encoded, Line, Rest;
    var s := Sent(c, x);
    assert s.wire == c.wire + c.owed + [Own(c, x.newClient)];
    assert s.wire + [] == s.wire && s.wire[|s.wire| - 1] == Own(c, x.newClient);
    TakenEarlier(w, s.wire, [], s.id, x.read - |c.tail|);
    SentAre(c, x);
  }

  // ---- runs --------------------------------------------------------------------------------------

  const START := Channel(0, 0, [], [], [])

  function RunCalls(w: World, c: Channel, xs: seq<Exchange>): Channel
    decreases |xs|
  {
    if xs == [] then c else RunCalls(w, After(w, c, xs[0]), xs[1..])
  }

  lemma {:induction false} RunSound(w: World, c: Channel, xs: seq<Exchange>)
    requires Sound(w, c)
    ensures Sound(w, RunCalls(w, c, xs))
    decreases |xs|
  {
    hide Rest, Sound;
    if xs != [] {
      CallSound(w, c, xs[0]);
      RunSound(w, After(w, c, xs[0]), xs[1..]);
    }
  }

  /** One client only: its counter has grown with every call, so ids tell its
      calls apart. */
  ghost predicate OneClient(c: Channel) {
    c.id == c.calls && forall q :: q in c.wire + c.owed ==> q.id == q.call + 1 && q.call < c.calls
  }

  lemma {:induction false} RunOneClient(w: World, c: Channel, xs: seq<Exchange>)
    requires Sound(w, c) && OneClient(c) && forall i :: 0 <= i < |xs| ==> !xs[i].newClient
    ensures Sound(w, RunCalls(w, c, xs)) && OneClient(RunCalls(w, c, xs))
    decreases |xs|
  {
    hide Rest;
    if xs != [] {
      CallSound(w, c, xs[0]);
      RunOneClient(w, After(w, c, xs[0]), xs[1..]);
    }
  }

  /** After any history of one client's calls, timed out or not, a call returns
      the reply to its own request or none, whatever earlier replies are still
      unread; and it does return it if nothing is in the way. */
  lemma OwnReplyOrNone(w: World, xs: seq<Exchange>, x: Exchange)
    requires Codec(w) && !x.newClient && forall i :: 0 <= i < |xs| ==> !xs[i].newClient
    ensures var c := RunCalls(w, START, xs); var r := Listen(w.hear, c.id + 1, Lines(Received(w, c, x)));
            && (r.Answer? ==> Answered(w, Asked(c.calls, c.id + 1), r.body))
            && (!Torn(c) && x.answered > |c.owed| && x.read >= |Stream(w, Sent(c, x))| ==> r.Answer?)
  {
    hide Codec, Lines, Listen, ReplyTo, Rest, Answered;
    var c := RunCalls(w, START, xs);
    StartSound(w);
    RunOneClient(w, START, xs);
    CallHears(w, c, x);
    ReplyAnswers(w, Asked(c.calls, c.id + 1));
    OwnReplyExactly(w, c, false);
    assert x == Exchange(false, x.answered, x.read);
    if !Torn(c) && x.answered > |c.owed| && x.read >= |Stream(w, Sent(c, x))| { OwnReplyComes(w, c, x); }
  }

  lemma StartSound(w: World)
    ensures Sound(w, START) && OneClient(START)
  {
  }

  /** A second client starts counting again. If the first gave up before its
      reply came, the second can be given that reply. */
  lemma SecondClientIsFooled(w: World)
    ensures var c := RunCalls(w, START, [Exchange(false, 0, 0)]);
            && Ambiguous(c, true) && !Torn(c) && !OnlyOwn(w, c, true)
            && !Ambiguous(c, false) && OnlyOwn(w, c, false)
  {
    hide OnlyOwn;
    var gaveUp := Exchange(false, 0, 0);
    var c := RunCalls(w, START, [gaveUp]);
    assert [gaveUp][1..] == [] && c == RunCalls(w, After(w, START, gaveUp), []);
    assert Sent(START, gaveUp).owed == [Asked(0, 1)];
    assert c == Channel(1, 1, [], [], [Asked(0, 1)]);
    assert Asked(0, 1) in c.wire + c.owed;
    OwnReplyExactly(w, c, true);
    OwnReplyExactly(w, c, false);
  }

  // ---- with the program's own loops ----------------------------------------------------------------

  /** A call as the client makes it, on any channel the calls before it may have
      left, with what it receives cut in any way. */
  method Ask(client: GuestAgentClient, w: World, c: Channel, x: Exchange, chunks: seq<Bytes>) returns (r: Result, c': Channel)
    requires Codec(w) && Sound(w, c) && client.id == (if x.newClient then 0 else c.id)
    requires Concat(chunks) == Received(w, c, x)
    modifies client
    ensures c' == After(w, c, x) && Sound(w, c') && client.id == c'.id
    ensures match Origin(w, c, x) case None => !r.Answer? case Some(q) => r.Answer? && Answered(w, q, r.body)
    ensures r.Answer? && !Ambiguous(c, x.newClient) ==> Answered(w, Own(c, x.newClient), r.body)
  {
    hide Lines, Listen, ReplyTo, Rest, Taken, Codec, Concat, Encoded, Answered;
    forall q ensures Answered(w, q, ReplyTo(w, q).body) { ReplyAnswers(w, q); }
    r := client.Execute(w.hear, chunks);
    c' := After(w, c, x);
    CallHears(w, c, x);
    CallSound(w, c, x);
    OwnReplyExactly(w, c, x.newClient);
    assert x == Exchange(x.newClient, x.answered, x.read);
  }

  /** Requests as the agent receives them. */
  function Posted(w: World, qs: seq<Asked>): Bytes {
    if qs == [] then [] else w.request(qs[0].id, w.command(qs[0].call)) + [NL] + Posted(w, qs[1..])
  }

  function LinesOf(w: World, qs: seq<Asked>): (ls: seq<Bytes>)
    ensures |ls| == |qs| && forall i :: 0 <= i < |ls| ==> ls[i] == w.request(qs[i].id, w.command(qs[i].call))
  {
    seq(|qs|, i requires 0 <= i < |qs| => w.request(qs[i].id, w.command(qs[i].call)))
  }

  lemma {:induction false} PostedAre(w: World, qs: seq<Asked>)
    requires Codec(w)
    ensures Requests(Lines(Posted(w, qs))) == LinesOf(w, qs)
    decreases |qs|
  {
    hide Lines, Strip, Requests, Codec;
    if qs == [] {
      EmptyLines();
    } else {
      var l, rest := w.request(qs[0].id, w.command(qs[0].call)), Posted(w, qs[1..]);
      RequestIsWhole(w, qs[0]);
      OneLine(l + [NL], |l|);
      assert (l + [NL])[..|l| + 1] == l + [NL] && (l + [NL])[..|l|] == l;
      LinesSplit(l + [NL], rest);
      RequestsAppend([l], Lines(rest));
      OneRequest(l);
      PostedAre(w, qs[1..]);
      assert LinesOf(w, qs) == [l] + LinesOf(w, qs[1..]);
    }
  }

  lemma RequestIsWhole(w: World, q: Asked)
    requires Codec(w)
    ensures Whole(w.request(q.id, w.command(q.call)))
  {
  }

  /** The agent, given the requests in any pieces, writes the very replies the
      channel carries, in the order they were asked. */
  method AnswerAll(w: World, qs: seq<Asked>, chunks: seq<Bytes>) returns (replies: seq<Reply>)
    requires Codec(w) && Concat(chunks) == Posted(w, qs)
    ensures |replies| == |qs|
    ensures forall i :: 0 <= i < |qs| ==>
              replies[i] == ReplyTo(w, qs[i]) && replies[i].id == Some(qs[i].id) && Answered(w, qs[i], replies[i].body)
  {
    hide Lines, Requests, Codec, Concat, Fits, Answered, Process;
    PostedAre(w, qs);
    var handled, buf;
    var act := (i: nat) => if i < |qs| then w.act(qs[i].call) else w.act(0);
    handled, replies, buf := Serve(chunks, w.decode, act, (k: nat) => true);
    forall i | 0 <= i < |qs|
      ensures replies[i] == ReplyTo(w, qs[i]) && replies[i].id == Some(qs[i].id) && Answered(w, qs[i], replies[i].body)
    {
      assert Fits(w.decode, act(i), handled[i], replies[i]);
      ProcessFits(w.decode, w.act(qs[i].call), handled[i]);
      OneFits(w.decode, w.act(qs[i].call), handled[i], replies[i], ReplyTo(w, qs[i]));
      ReplyAnswers(w, qs[i]);
    }
  }
}
