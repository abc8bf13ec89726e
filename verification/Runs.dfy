/** A client and a server over one connection, call by call. */
module Runs {
  import opened Bytes
  import opened Frames
  import opened Messages
  import opened Transport
  import opened Exchanges
  import opened Replies
  import opened EndToEnd
  import opened Client
  import Chaos
  import Proxied

  /** The results for the paths asked for. */
  function Results(asks: seq<Ask>, tree: FileTree): seq<Answered> {
    if asks == [] then [] else [Assigned(tree, asks[0].path).0] + Results(asks[1..], tree)
  }

  /** The bodies of the paths asked for, one after another. */
  function Bodies(asks: seq<Ask>, tree: FileTree): bytes {
    if asks == [] then [] else Assigned(tree, asks[0].path).1 + Bodies(asks[1..], tree)
  }

  /** The bytes a server sends for the requests still to come, and after them. */
  function StillToCome(asks: seq<Ask>, id: nat, tree: FileTree, rest: bytes): bytes
    requires Sound(asks, tree) && 0 < id && id + |asks| <= 0x1_0000_0000
  {
    AnswersAreDeliverable(asks, id, tree);
    Wire(AnswersTo(asks, id, tree)) + rest
  }

  /** What the caller has got and what has been sent for it. */
  datatype Ledger = Ledger(results: seq<Answered>, body: bytes, sent: seq<Frame>)

  function Due(todo: seq<Ask>, id: nat, tree: FileTree): Ledger
    requires 0 < id && id + |todo| <= 0x1_0000_0000
  {
    Ledger(Results(todo, tree), Bodies(todo, tree), RequestFrames(todo, id))
  }

  function Plus(a: Ledger, b: Ledger): Ledger {
    Ledger(a.results + b.results, a.body + b.body, a.sent + b.sent)
  }

  /** The ledger after one more Get. */
  function Entered(have: Ledger, ask: Ask, id: u32, tree: FileTree): Ledger {
    var (result, body) := Assigned(tree, ask.path);
    Ledger(have.results + [result], have.body + body, have.sent + [RequestFrame(ask, id)])
  }

  lemma OneLess(have: Ledger, todo: seq<Ask>, id: nat, tree: FileTree)
    requires todo != [] && 0 < id && id + |todo| <= 0x1_0000_0000
    ensures Plus(have, Due(todo, id, tree))
            == Plus(Entered(have, todo[0], id, tree), Due(todo[1..], id + 1, tree))
  {
    var (result, body) := Assigned(tree, todo[0].path);
    Assoc(have.body, body, Bodies(todo[1..], tree));
    Assoc(have.results, [result], Results(todo[1..], tree));
    Assoc(have.sent, [RequestFrame(todo[0], id)], RequestFrames(todo[1..], id + 1));
  }

  lemma NothingDue(have: Ledger, id: nat, tree: FileTree)
    requires 0 < id <= 0x1_0000_0000
    ensures Plus(have, Due([], id, tree)) == have
  {
  }

  /**
   The stream s, read as r, gives reply by reply what the tree assigns to each path, and leaves the
   bytes `rest`, read as `left`; getting them all turns the ledger `have` into `goal`.
   */
  predicate OnCourse(s: bytes, r: Reading, todo: seq<Ask>, id: nat, tree: FileTree, rest: bytes, left: seq<Frame>,
                     have: Ledger, goal: Ledger)
    requires 0 < id && id + |todo| <= 0x1_0000_0000 && !r.last.Got?
    decreases |todo|
  {
    if todo == [] then s == rest && r.frames == left && have == goal
    else
      var reply := ReadReply(r, id);
      && Gives(reply, tree, todo[0].path)
      && OnCourse(After(s, reply.used), Behind(r, reply.used), todo[1..], id + 1, tree, rest, left,
                  Entered(have, todo[0], id, tree), goal)
  }

  /** A reading without its first n frames. */
  function Behind(r: Reading, n: nat): Reading
    requires n <= |r.frames|
  {
    Reading(r.frames[n..], r.last)
  }

  // ---- the bytes behind what has been read ----

  lemma AfterNone(s: bytes)
    ensures After(s, 0) == s
  {
  }

  lemma {:induction false} AfterAfter(s: bytes, m: nat, n: nat)
    ensures After(After(s, m), n) == After(s, m + n)
    decreases m
  {
    if m > 0 {
      AfterAfter(Next(s, false).1, m - 1, n);
    }
  }

  /** Behind n frames, the rest of the reading is what is left to read. */
  lemma {:induction false} ReadAllAfter(s: bytes, broken: bool, n: nat)
    requires n <= |ReadAll(s, broken).frames|
    ensures ReadAll(After(s, n), broken) == Behind(ReadAll(s, broken), n)
    decreases n
  {
    hide Next;
    var r := ReadAll(s, broken);
    if n == 0 {
      assert r.frames[0..] == r.frames;
    } else {
      NextOfPrefix(s, 0, broken, broken);
      ReadAllStep(s, broken);
      var more := ReadAll(Next(s, broken).1, broken);
      ReadAllAfter(Next(s, broken).1, broken, n - 1);
      assert ([Next(s, broken).0.frame] + more.frames)[n..] == more.frames[n - 1..];
    }
  }

  lemma {:induction false} LeftIsWithin(r: Reading, todo: seq<Ask>, id: nat, tree: FileTree, left: seq<Frame>)
    requires id + |todo| <= 0x1_0000_0000 && !r.last.Got? && HoldsReplies(r, todo, id, tree, left)
    ensures |left| <= |r.frames|
    decreases |todo|
  {
    hide ReadReply, Answer, Assigned;
    if todo != [] {
      LeftIsWithin(Behind(r, ReadReply(r, id).used), todo[1..], id + 1, tree, left);
    }
  }

  /** One more reply in front of a course. */
  lemma CourseBegins(s: bytes, r: Reading, todo: seq<Ask>, id: nat, tree: FileTree, rest: bytes, left: seq<Frame>,
                     have: Ledger, goal: Ledger, n: nat)
    requires todo != [] && 0 < id && id + |todo| <= 0x1_0000_0000 && !r.last.Got?
    requires Gives(ReadReply(r, id), tree, todo[0].path) && n == ReadReply(r, id).used
    requires OnCourse(After(s, n), Behind(r, n), todo[1..], id + 1, tree, rest, left,
                      Entered(have, todo[0], id, tree), goal)
    ensures OnCourse(s, r, todo, id, tree, rest, left, have, goal)
  {
  }

  /** Replies that are as assigned put the caller on course, wherever they were read from. */
  lemma {:induction false} RepliesAreOnCourse(s: bytes, r: Reading, todo: seq<Ask>, id: nat, tree: FileTree,
                                              rest: bytes, left: seq<Frame>, have: Ledger, goal: Ledger)
    requires 0 < id && id + |todo| <= 0x1_0000_0000 && !r.last.Got?
    requires HoldsReplies(r, todo, id, tree, left) && |left| <= |r.frames|
    requires rest == After(s, |r.frames| - |left|) && goal == Plus(have, Due(todo, id, tree))
    ensures OnCourse(s, r, todo, id, tree, rest, left, have, goal)
    decreases |todo|
  {
    hide Answer, ReadReply, Assigned, RequestFrame, After, Results, Bodies, RequestFrames, PrintRequest;
    if todo == [] {
      AfterNone(s);
      NothingDue(have, id, tree);
    } else {
      var n := ReadReply(r, id).used;
      LeftIsWithin(Behind(r, n), todo[1..], id + 1, tree, left);
      AfterAfter(s, n, |r.frames| - n - |left|);
      OneLess(have, todo, id, tree);
      RepliesAreOnCourse(After(s, n), Behind(r, n), todo[1..], id + 1, tree, rest, left,
                         Entered(have, todo[0], id, tree), goal);
      CourseBegins(s, r, todo, id, tree, rest, left, have, goal, n);
    }
  }

  // ---- successive Gets ----

  /** What a Get that succeeds leaves: the bytes behind its reply, and the reading of them. */
  method GetOne(c: Client, ask: Ask, body: Sink, ghost r: Reading) returns (result: Result<Answered, ClientError>)
    requires c.Valid() && !c.broken && !c.exhausted && body != c.sink && !body.failed
    requires r == ReadAll(c.src.pending, c.src.end == Broken) && ReadReply(r, c.next).result.Ok?
    modifies c, c.src`pending, c.sink, body
    ensures c.Valid() && c.Limit() == old(c.Limit()) + 1
    ensures var reply := ReadReply(r, old(c.next));
            result.Ok? ==>
              && !c.broken && !body.failed && c.src.pending == After(old(c.src.pending), reply.used)
              && ReadAll(c.src.pending, c.src.end == Broken) == Behind(r, reply.used)
              && result.value == reply.result.value && body.out == old(body.out) + reply.body
              && c.sent == old(c.sent) + [RequestFrame(ask, old(c.next))]
    ensures result.Err? ==> c.sink.failed || body.failed
  {
    assert Request(METHOD_GET, ask.path, ask.headers) == ask;
    ReadAllAfter(c.src.pending, c.src.end == Broken, ReadReply(r, c.next).used);
    result := c.Get(ask.path, ask.headers, body);
    if result.Ok? {
      assert c.sent == old(c.sent) + [RequestFrame(ask, old(c.next))];
    }
  }

  /** The caller's place in a run: what is read next, and what it has got. */
  ghost predicate Standing(c: Client, body: Sink, r: Reading)
    reads c, c.src, c.sink, body
  {
    && c.Valid() && !c.broken && body != c.sink && !body.failed
    && r == ReadAll(c.src.pending, c.src.end == Broken)
  }

  /** One Get, on a connection where the replies that lie ahead are known. */
  method Fetch(c: Client, todo: seq<Ask>, body: Sink, results: seq<Answered>,
               ghost tree: FileTree, ghost r: Reading, ghost rest: bytes, ghost left: seq<Frame>, ghost goal: Ledger)
    returns (more: seq<Answered>, ok: bool, ghost next: Reading)
    requires Standing(c, body, r) && todo != [] && c.Limit() + |todo| <= 0x1_0000_0000
    requires OnCourse(c.src.pending, r, todo, c.Limit(), tree, rest, left, Ledger(results, body.out, c.sent), goal)
    modifies c, c.src`pending, c.sink, body
    ensures c.Valid() && c.Limit() == old(c.Limit()) + 1
    ensures ok ==>
              && Standing(c, body, next) && next.last == r.last
              && OnCourse(c.src.pending, next, todo[1..], c.Limit(), tree, rest, left,
                          Ledger(more, body.out, c.sent), goal)
    ensures !ok ==> c.sink.failed || body.failed
  {
    next := Behind(r, ReadReply(r, c.next).used);
    var got := GetOne(c, todo[0], body, r);
    if got.Err? {
      return results, false, next;
    }
    return results + [got.value], true, next;
  }

  /** The loop, one Get a path. */
  method FetchEach(c: Client, asks: seq<Ask>, body: Sink, ghost tree: FileTree, ghost start: Reading,
                   ghost rest: bytes, ghost left: seq<Frame>, ghost goal: Ledger)
    returns (results: seq<Answered>, ok: bool)
    requires Standing(c, body, start) && c.Limit() + |asks| <= 0x1_0000_0000
    requires OnCourse(c.src.pending, start, asks, c.Limit(), tree, rest, left, Ledger([], body.out, c.sent), goal)
    modifies c, c.src`pending, c.sink, body
    ensures c.Valid()
    ensures ok ==>
              && Standing(c, body, Reading(left, start.last)) && c.src.pending == rest
              && Ledger(results, body.out, c.sent) == goal && c.Limit() == old(c.Limit()) + |asks|
    ensures !ok ==> c.sink.failed || body.failed
  {
    var todo := asks;
    ghost var r := start;
    results := [];
    while todo != []
      invariant Standing(c, body, r) && r.last == start.last && c.Limit() + |todo| == old(c.Limit()) + |asks|
      invariant OnCourse(c.src.pending, r, todo, c.Limit(), tree, rest, left, Ledger(results, body.out, c.sent), goal)
      decreases |todo|
    {
      results, ok, r := Fetch(c, todo, body, results, tree, r, rest, left, goal);
      if !ok {
        return;
      }
      todo := todo[1..];
    }
    ok := true;
  }

  /** What the server writes for the requests, and what it makes of the ledger. */
  lemma AnswersAreOnCourse(s: bytes, asks: seq<Ask>, id: nat, tree: FileTree, left: seq<Frame>, last: ReadResult,
                           have: Ledger)
    requires Sound(asks, tree) && 0 < id && id + |asks| <= 0x1_0000_0000 && !last.Got?
    ensures var fs := AnswersTo(asks, id, tree);
            OnCourse(s, Reading(fs + left, last), asks, id, tree, After(s, |fs|), left,
                     have, Plus(have, Due(asks, id, tree)))
  {
    hide ReadReply, OnCourse, HoldsReplies, After, Due, AnswersTo;
    var fs := AnswersTo(asks, id, tree);
    AnswersAreRead(asks, id, tree, left, last);
    RepliesAreOnCourse(s, Reading(fs + left, last), asks, id, tree, After(s, |fs|), left,
                       have, Plus(have, Due(asks, id, tree)));
  }

  /**
   Successive Gets on one connection, whose incoming bytes are what the server wrote for the
   requests. Unless the connection's writer or the body writer fails, they return in order exactly
   the status and body the tree assigns to each path; the client is not broken, and no byte beyond
   the answers is read. What it has sent is the very requests the answers are for.
   */
  method FetchAll(c: Client, asks: seq<Ask>, body: Sink, ghost tree: FileTree, ghost rest: bytes)
    returns (results: seq<Answered>, ok: bool)
    requires c.Valid() && !c.broken && body != c.sink && !body.failed
    requires Sound(asks, tree) && c.Limit() + |asks| <= 0x1_0000_0000
    requires c.src.pending == StillToCome(asks, c.Limit(), tree, rest)
    modifies c, c.src`pending, c.sink, body
    ensures c.Valid()
    ensures ok ==>
              && !c.broken && c.src.pending == rest
              && results == Results(asks, tree) && body.out == old(body.out) + Bodies(asks, tree)
              && c.sent == old(c.sent) + RequestFrames(asks, old(c.Limit()))
    ensures !ok ==> c.sink.failed || body.failed
  {
    ghost var left := ReadAll(rest, c.src.end == Broken);
    ghost var fs, have := AnswersTo(asks, c.Limit(), tree), Ledger([], body.out, c.sent);
    AnswersAreDeliverable(asks, c.Limit(), tree);
    WireIsReadFirst(fs, rest, c.src.end == Broken, left);
    AnswersAreOnCourse(c.src.pending, asks, c.Limit(), tree, left.frames, left.last, have);
    results, ok := FetchEach(c, asks, body, tree, Reading(fs + left.frames, left.last), rest, left.frames,
                             Plus(have, Due(asks, c.Limit(), tree)));
  }

  /**
   The loop closes: a server that is sent those requests, and then the end of the connection, writes
   exactly the bytes the client was taken to receive.
   */
  lemma ServerWritesThat(asks: seq<Ask>, id: nat, tree: FileTree)
    requires Sound(asks, tree) && 0 < id && id + |asks| <= 0x1_0000_0000
    ensures var output := Serve(Wire(RequestFrames(asks, id)), false, tree);
            Sendable(output) && StillToCome(asks, id, tree, []) == Wire(output)
  {
    AnsweredAlone(asks, id, tree);
    AnswersAreDeliverable(asks, id, tree);
    assert Wire(AnswersTo(asks, id, tree)) + [] == Wire(AnswersTo(asks, id, tree));
  }

  // ---- through the proxy ----

  /**
   Successive Gets through the chaos proxy, whatever noise it injects: the same statuses and bodies,
   and nothing but noise is left to read.
   */
  method FetchThroughPump(c: Client, asks: seq<Ask>, body: Sink, ghost tree: FileTree, ghost ps: seq<Chaos.Piece>)
    returns (results: seq<Answered>, ok: bool)
    requires c.Valid() && !c.broken && body != c.sink && !body.failed && c.src.end.Finished?
    requires Sound(asks, tree) && c.Limit() + |asks| <= 0x1_0000_0000
    requires Chaos.LegalPieces(ps) && Chaos.Relayed(ps) == Chop(StillToCome(asks, c.Limit(), tree, [])).frames
    requires c.src.pending == Chaos.Output(ps, StillToCome(asks, c.Limit(), tree, []))
    modifies c, c.src`pending, c.sink, body
    ensures c.Valid()
    ensures ok ==>
              && !c.broken && ReadAll(c.src.pending, false) == Reading([], EndOfStream)
              && results == Results(asks, tree) && body.out == old(body.out) + Bodies(asks, tree)
              && c.sent == old(c.sent) + RequestFrames(asks, old(c.Limit()))
    ensures !ok ==> c.sink.failed || body.failed
  {
    ghost var fs, have := AnswersTo(asks, c.Limit(), tree), Ledger([], body.out, c.sent);
    NoisyAnswers(asks, c.Limit(), tree, ps);
    AnswersAreOnCourse(c.src.pending, asks, c.Limit(), tree, [], EndOfStream, have);
    assert fs + [] == fs;
    results, ok := FetchEach(c, asks, body, tree, Reading(fs, EndOfStream), After(c.src.pending, |fs|), [],
                             Plus(have, Due(asks, c.Limit(), tree)));
  }

  /** The server's answers are read through noise as without it. */
  lemma NoisyAnswers(asks: seq<Ask>, id: nat, tree: FileTree, ps: seq<Chaos.Piece>)
    requires Sound(asks, tree) && 0 < id && id + |asks| <= 0x1_0000_0000
    requires Chaos.LegalPieces(ps) && Chaos.Relayed(ps) == Chop(StillToCome(asks, id, tree, [])).frames
    ensures ReadAll(Chaos.Output(ps, StillToCome(asks, id, tree, [])), false)
            == Reading(AnswersTo(asks, id, tree), EndOfStream)
  {
    var fs := AnswersTo(asks, id, tree);
    AnswersAreDeliverable(asks, id, tree);
    WireIsRead(fs);
    assert Wire(fs) + [] == Wire(fs);
    Proxied.CleanStreamSurvives(Wire(fs), ps);
  }

  // ---- a run that meets a short file ----

  /** The file a path leads to holds fewer bytes than its size announces. */
  predicate ComesUpShort(tree: FileTree, path: bytes) {
    tree(path).Found? && |tree(path).content| < tree(path).size
  }

  function CutShort(): Frame {
    FaultFrame(PROTOCOL_ERROR, CUT_SHORT_TEXT)
  }

  /** The next reply is the server's error 3, with at most a prefix of the file before it. */
  predicate ShortNext(r: Reading, bad: Ask, id: u32, tree: FileTree)
    requires !r.last.Got?
  {
    var reply := ReadReply(r, id);
    && ComesUpShort(tree, bad.path)
    && reply.result == Err(Refusal(Remote(ConnError(PROTOCOL_ERROR, CUT_SHORT_TEXT)), None))
    && reply.body <= tree(bad.path).content
  }

  /** The answer to a request for a short file: its exchange is cut, and the ERROR follows. */
  lemma ShortAnswer(a: Ask, id: u32, tree: FileTree, rest: seq<Frame>, last: ReadResult)
    requires id != 0 && ComesUpShort(tree, a.path) && !last.Got?
    ensures var x := Answer(RequestFrame(a, id), tree);
            !x.complete && Deliverable(x.frames) && ShortNext(Reading(x.frames + ([CutShort()] + rest), last), a, id, tree)
  {
    hide ParseRequest, PrintRequest, ReadReply;
    var found := tree(a.path);
    RequestRoundTrip(a);
    AnswerShape(RequestFrame(a, id), tree);
    FileShape(id, found.size, found.mime, found.content);
    ShortFileIsReported(id, found.size, found.mime, found.content, rest, last);
  }

  /** What the server writes for the request that meets the short file, and then nothing more. */
  function ShortEnding(bad: Ask, id: u32, tree: FileTree): seq<Frame> {
    Answer(RequestFrame(bad, id), tree).frames + [CutShort()]
  }

  lemma ShortEndingIsServed(bad: Ask, later: seq<Frame>, id: u32, tree: FileTree)
    requires id != 0 && ComesUpShort(tree, bad.path) && Sendable([RequestFrame(bad, id)] + later)
    ensures Serve(Wire([RequestFrame(bad, id)] + later), false, tree) == ShortEnding(bad, id, tree)
  {
    var f := RequestFrame(bad, id);
    Halves([f], later);
    NextIsFirst(f, Wire(later), false);
    ShortAnswer(bad, id, tree, [], EndOfStream);
  }

  lemma ShortEndingIsRead(bad: Ask, id: u32, tree: FileTree)
    requires id != 0 && ComesUpShort(tree, bad.path)
    ensures Deliverable(ShortEnding(bad, id, tree))
    ensures ShortNext(Reading(ShortEnding(bad, id, tree), EndOfStream), bad, id, tree)
  {
    ShortAnswer(bad, id, tree, [], EndOfStream);
    assert [CutShort()] + [] == [CutShort()];
    DeliverableAppend(Answer(RequestFrame(bad, id), tree).frames, [CutShort()]);
  }

  lemma FirstRequest(bad: Ask, later: seq<Ask>, id: nat)
    requires 0 < id && id + 1 + |later| <= 0x1_0000_0000
    ensures RequestFrames([bad] + later, id) == [RequestFrame(bad, id)] + RequestFrames(later, id + 1)
  {
    Halves([bad], later);
  }

  /** Requests that are answered, and whatever is served behind them. */
  lemma ServedThen(asks: seq<Ask>, id: nat, tree: FileTree, behind: seq<Frame>, output: seq<Frame>)
    requires Sound(asks, tree) && 0 < id && id + |asks| <= 0x1_0000_0000
    requires Sendable(behind) && Serve(Wire(behind), false, tree) == output
    ensures Sendable(RequestFrames(asks, id) + behind)
    ensures Serve(Wire(RequestFrames(asks, id) + behind), false, tree) == AnswersTo(asks, id, tree) + output
  {
    hide Answer;
    WireAppend(RequestFrames(asks, id), behind);
    RequestsAreAnswered(asks, id, Wire(behind), false, tree);
  }

  lemma AllRequests(asks: seq<Ask>, bad: Ask, later: seq<Ask>, id: nat)
    requires 0 < id && id + |asks| + 1 + |later| <= 0x1_0000_0000
    ensures var n := id + |asks|;
            RequestFrames(asks + ([bad] + later), id)
            == RequestFrames(asks, id) + ([RequestFrame(bad, n)] + RequestFrames(later, n + 1))
  {
    RequestFramesAppend(asks, [bad] + later, id);
    FirstRequest(bad, later, id + |asks|);
  }

  /**
   The server's output for requests of which one meets a short file: the answers up to it, the cut
   exchange, the ERROR, and nothing for the requests behind it.
   */
  lemma ServeUpToShort(asks: seq<Ask>, bad: Ask, later: seq<Ask>, id: nat, tree: FileTree)
    requires Sound(asks, tree) && ComesUpShort(tree, bad.path)
    requires 0 < id && id + |asks| + 1 + |later| <= 0x1_0000_0000
    ensures Serve(Wire(RequestFrames(asks + ([bad] + later), id)), false, tree)
            == AnswersTo(asks, id, tree) + ShortEnding(bad, id + |asks|, tree)
  {
    hide Answer, Serve, ShortEnding, Wire, RequestFrames, AnswersTo, PrintRequest;
    var n := id + |asks|;
    var behind := [RequestFrame(bad, n)] + RequestFrames(later, n + 1);
    AllRequests(asks, bad, later, id);
    ShortEndingIsServed(bad, RequestFrames(later, n + 1), n, tree);
    ServedThen(asks, id, tree, behind, ShortEnding(bad, n, tree));
  }

  lemma TwoPartsAreRead(a: seq<Frame>, b: seq<Frame>)
    requires Deliverable(a) && Deliverable(b)
    ensures Sendable(a + b) && ReadAll(Wire(a + b), false) == Reading(a + b, EndOfStream)
  {
    DeliverableAppend(a, b);
    WireIsRead(a + b);
  }

  /** A stream that is read as the answers and then the server's error, and the caller's way through it. */
  predicate ShortAhead(s: bytes, start: Reading, asks: seq<Ask>, bad: Ask, id: nat, tree: FileTree,
                       rest: bytes, left: seq<Frame>, have: Ledger, goal: Ledger)
    requires 0 < id && id + |asks| + 1 <= 0x1_0000_0000 && !start.last.Got?
  {
    && OnCourse(s, start, asks, id, tree, rest, left, have, goal)
    && ShortNext(Reading(left, start.last), bad, id + |asks|, tree)
  }

  /** What the server wrote up to the short file is such a stream. */
  lemma ShortRunIsRead(asks: seq<Ask>, bad: Ask, id: nat, tree: FileTree, have: Ledger)
    requires Sound(asks, tree) && ComesUpShort(tree, bad.path) && 0 < id && id + |asks| + 1 <= 0x1_0000_0000
    ensures var fs, ending := AnswersTo(asks, id, tree), ShortEnding(bad, id + |asks|, tree);
            && Sendable(fs + ending)
            && ReadAll(Wire(fs + ending), false) == Reading(fs + ending, EndOfStream)
            && ShortAhead(Wire(fs + ending), Reading(fs + ending, EndOfStream), asks, bad, id, tree,
                          After(Wire(fs + ending), |fs|), ending, have, Plus(have, Due(asks, id, tree)))
  {
    hide Answer;
    AnswersAreDeliverable(asks, id, tree);
    ShortEndingIsRead(bad, id + |asks|, tree);
    TwoPartsAreRead(AnswersTo(asks, id, tree), ShortEnding(bad, id + |asks|, tree));
    AnswersAreOnCourse(Wire(AnswersTo(asks, id, tree) + ShortEnding(bad, id + |asks|, tree)), asks, id, tree,
                       ShortEnding(bad, id + |asks|, tree), EndOfStream, have);
  }

  /**
   Successive Gets of which the last meets a short file, fed with what the server wrote: the answers
   up to it are as assigned; then the server's error 3 is reported, at most a prefix of the file is
   written, the client is broken, and nothing is sent in return.
   */
  method FetchUpToShort(c: Client, asks: seq<Ask>, bad: Ask, body: Sink, ghost tree: FileTree)
    returns (results: seq<Answered>, last: Result<Answered, ClientError>, ok: bool)
    requires c.Valid() && !c.broken && body != c.sink && !body.failed && c.src.end.Finished?
    requires Sound(asks, tree) && ComesUpShort(tree, bad.path) && c.Limit() + |asks| + 1 <= 0x1_0000_0000
    requires var output := AnswersTo(asks, c.Limit(), tree) + ShortEnding(bad, c.Limit() + |asks|, tree);
             Sendable(output) && c.src.pending == Wire(output)
    modifies c, c.src`pending, c.sink, body
    ensures c.Valid()
    ensures ok ==>
              && results == Results(asks, tree)
              && last == Err(Remote(ConnError(PROTOCOL_ERROR, CUT_SHORT_TEXT))) && c.broken
              && old(body.out) + Bodies(asks, tree) <= body.out
              && body.out <= old(body.out) + Bodies(asks, tree) + tree(bad.path).content
              && c.sent == old(c.sent) + RequestFrames(asks, old(c.Limit()))
                           + [RequestFrame(bad, old(c.Limit()) + |asks|)]
    ensures !ok ==> c.sink.failed || body.failed
  {
    hide Answer, AnswersTo, RequestFrames, ReadAll, Wire, ShortEnding, OnCourse, ReadReply, After, Results, Bodies;
    ghost var id, have := c.Limit(), Ledger([], body.out, c.sent);
    ghost var fs, ending := AnswersTo(asks, id, tree), ShortEnding(bad, id + |asks|, tree);
    ShortRunIsRead(asks, bad, id, tree, have);
    results, last, ok := FetchThenShort(c, asks, bad, body, tree, Reading(fs + ending, EndOfStream),
                                        After(c.src.pending, |fs|), ending, Plus(have, Due(asks, id, tree)));
  }

  /** The Gets up to the short file, and the one that meets it. */
  method FetchThenShort(c: Client, asks: seq<Ask>, bad: Ask, body: Sink, ghost tree: FileTree, ghost start: Reading,
                        ghost rest: bytes, ghost left: seq<Frame>, ghost goal: Ledger)
    returns (results: seq<Answered>, last: Result<Answered, ClientError>, ok: bool)
    requires Standing(c, body, start) && c.Limit() + |asks| + 1 <= 0x1_0000_0000
    requires ShortAhead(c.src.pending, start, asks, bad, c.Limit(), tree, rest, left,
                        Ledger([], body.out, c.sent), goal)
    modifies c, c.src`pending, c.sink, body
    ensures c.Valid()
    ensures ok ==>
              && results == goal.results
              && last == Err(Remote(ConnError(PROTOCOL_ERROR, CUT_SHORT_TEXT))) && c.broken
              && goal.body <= body.out <= goal.body + tree(bad.path).content
              && c.sent == goal.sent + [RequestFrame(bad, old(c.Limit()) + |asks|)]
    ensures !ok ==> c.sink.failed || body.failed
  {
    results, ok := FetchEach(c, asks, body, tree, start, rest, left, goal);
    last := Err(AlreadyBroken);
    if ok {
      last, ok := GetShort(c, bad, body, tree, Reading(left, start.last));
    }
  }

  /** The Get that meets the short file. */
  method GetShort(c: Client, bad: Ask, body: Sink, ghost tree: FileTree, ghost r: Reading)
    returns (result: Result<Answered, ClientError>, ok: bool)
    requires Standing(c, body, r) && !c.exhausted && ShortNext(r, bad, c.next, tree)
    modifies c, c.src`pending, c.sink, body
    ensures c.Valid()
    ensures ok ==>
              && result == Err(Remote(ConnError(PROTOCOL_ERROR, CUT_SHORT_TEXT))) && c.broken
              && old(body.out) <= body.out <= old(body.out) + tree(bad.path).content
              && c.sent == old(c.sent) + [RequestFrame(bad, old(c.next))]
    ensures !ok ==> c.sink.failed || body.failed
  {
    assert Request(METHOD_GET, bad.path, bad.headers) == bad;
    result := c.Get(bad.path, bad.headers, body);
    ok := result != Err(SendFailed) && result != Err(BodyWriteFailed);
    if ok {
      assert c.sent == old(c.sent) + [RequestFrame(bad, old(c.next))];
    }
  }
}
