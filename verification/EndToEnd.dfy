/** Client and server together, over the bytes between them. */
module EndToEnd {
  import opened Bytes
  import opened Frames
  import opened Headers
  import opened Messages
  import opened Lengths
  import opened Paths
  import opened Resolver
  import opened Exchanges
  import opened Replies
  import Utf8

  // ---- one exchange, read by a client ----

  lemma StatusHeadersAgree()
    ensures LengthsAgree(StatusHeaders(), 0)
  {
    var zero := Ascii("0");
    assert zero[..0] == [];
    assert Value(zero) == Value(zero[..0]) * 10 + (zero[0] - '0' as int);
    ServerNamesAreInTable();
  }

  lemma FileHeadersAgree(size: int63, mime: MimeType)
    ensures LengthsAgree(FileHeaders(size, mime), size)
  {
    NineteenDigitsIsTight(size);
    DecimalDenotes(size);
    ServerNamesAreInTable();
  }

  /** A response frame at the front, as readResponse takes it. */
  lemma ResponseIsRead(stream: u32, resp: Response, end: bool, rest: seq<Frame>, last: ReadResult)
    requires stream != 0 && ResponseBuildable(resp) && !last.Got?
    ensures ReadReply(Reading([ResponseFrame(stream, resp, end)] + rest, last), stream) ==
              if end then Reply(Judged(resp, 0), [], 1)
              else
                var body := ReadBody(rest, last, stream, resp, 0);
                Reply(body.result, body.body, 1 + body.used)
  {
    ResponseRoundTrip(resp);
    Halves([ResponseFrame(stream, resp, end)], rest);
  }

  lemma StatusIsRead(stream: u32, status: int, rest: seq<Frame>, last: ReadResult)
    requires stream != 0 && ValidStatus(status) && !last.Got?
    ensures ReadReply(Reading(StatusExchange(stream, status).frames + rest, last), stream)
            == Reply(Ok(Answered(status, StatusHeaders(), 0)), [], 1)
  {
    StatusBuilds(status);
    StatusHeadersAgree();
    ResponseIsRead(stream, Response(status, StatusHeaders()), true, rest, last);
  }

  lemma {:induction false} FullBodyIsRead(stream: u32, content: bytes, remaining: nat, resp: Response, got: nat,
                                          rest: seq<Frame>, last: ReadResult)
    requires stream != 0 && 0 < remaining <= |content| && !last.Got?
    ensures var frames := Body(stream, content, remaining).frames;
            ReadBody(frames + rest, last, stream, resp, got)
            == Reply(Judged(resp, got + remaining), content[..remaining], |frames|)
    decreases remaining
  {
    var n := Min(MAX_PAYLOAD, remaining);
    var f := Frame(DATA, Flag(n == remaining), stream, content[..n]);
    var more := Body(stream, content[n..], remaining - n).frames;
    Assoc([f], more, rest);
    Halves([f], more + rest);
    if n < remaining {
      FullBodyIsRead(stream, content[n..], remaining - n, resp, got + n, rest, last);
      Prefixes(content, n, remaining);
    }
  }

  lemma Prefixes(content: bytes, n: nat, m: nat)
    requires n <= m <= |content|
    ensures content[..n] + content[n..][..m - n] == content[..m]
  {
  }

  lemma OneChunkLess(n: nat)
    requires n >= MAX_PAYLOAD
    ensures MAX_PAYLOAD + (n - MAX_PAYLOAD) / MAX_PAYLOAD * MAX_PAYLOAD == n / MAX_PAYLOAD * MAX_PAYLOAD <= n
  {
  }

  /** The frames of a body that comes up short: whole chunks, as long as there are any. */
  lemma ShortBodyFrames(stream: u32, content: bytes, remaining: nat)
    requires |content| < remaining
    ensures Body(stream, content, remaining).frames
            == if |content| < MAX_PAYLOAD then []
               else [Frame(DATA, Flag(false), stream, content[..MAX_PAYLOAD])]
                    + Body(stream, content[MAX_PAYLOAD..], remaining - MAX_PAYLOAD).frames
  {
  }

  lemma FaultEndsBody(fault: Frame, rest: seq<Frame>, last: ReadResult, id: u32, resp: Response, got: nat)
    requires fault.typ == ERROR && !last.Got?
    ensures ReadBody([fault] + rest, last, id, resp, got) == Reply(Err(Refusal(RemoteError(fault), None)), [], 1)
  {
    Halves([fault], rest);
  }

  /** A body too short for its size, then the ERROR that ends the connection. */
  lemma {:induction false} ShortBodyIsRead(stream: u32, content: bytes, remaining: nat, resp: Response, got: nat,
                                           fault: Frame, rest: seq<Frame>, last: ReadResult)
    requires stream != 0 && |content| < remaining && !last.Got?
    requires fault.typ == ERROR
    ensures var r := ReadBody(Body(stream, content, remaining).frames + ([fault] + rest), last, stream, resp, got);
            && r.result == Err(Refusal(RemoteError(fault), None))
            && r.body == content[..|content| / MAX_PAYLOAD * MAX_PAYLOAD]
    decreases remaining
  {
    hide Body, ReadBody, RemoteError;
    var tail := [fault] + rest;
    ShortBodyFrames(stream, content, remaining);
    if |content| < MAX_PAYLOAD {
      assert [] + tail == tail;
      FaultEndsBody(fault, rest, last, stream, resp, got);
    } else {
      var chunk, behind := content[..MAX_PAYLOAD], content[MAX_PAYLOAD..];
      var f := Frame(DATA, Flag(false), stream, chunk);
      var more := Body(stream, behind, remaining - MAX_PAYLOAD).frames;
      Assoc([f], more, tail);
      ShortBodyIsRead(stream, behind, remaining - MAX_PAYLOAD, resp, got + MAX_PAYLOAD, fault, rest, last);
      OneMoreData(f, more + tail, last, stream, resp, got);
      OneChunkLess(|content|);
      Prefixes(content, MAX_PAYLOAD, |content| / MAX_PAYLOAD * MAX_PAYLOAD);
    }
  }

  /** A DATA frame that does not end the stream, in front of what is read behind it. */
  lemma OneMoreData(f: Frame, more: seq<Frame>, last: ReadResult, id: u32, resp: Response, got: nat)
    requires f.typ == DATA && f.stream == id && !EndsStream(f.flags) && !last.Got?
    ensures var r := ReadBody(more, last, id, resp, got + |f.payload|);
            ReadBody([f] + more, last, id, resp, got) == Reply(r.result, f.payload + r.body, 1 + r.used)
  {
    Halves([f], more);
  }

  /** A whole file arrives as its size and its bytes, from all the frames sent for it. */
  lemma FileIsRead(stream: u32, size: int63, mime: MimeType, content: bytes, rest: seq<Frame>, last: ReadResult)
    requires stream != 0 && size <= |content| && !last.Got?
    ensures var frames := FileExchange(stream, size, mime, content).frames;
            ReadReply(Reading(frames + rest, last), stream)
            == Reply(Ok(Answered(200, FileHeaders(size, mime), size)), content[..size], |frames|)
  {
    var resp, body := Response(200, FileHeaders(size, mime)), Body(stream, content, size).frames;
    FileBuilds(size, mime);
    FileHeadersAgree(size, mime);
    Assoc([ResponseFrame(stream, resp, size == 0)], body, rest);
    ResponseIsRead(stream, resp, size == 0, body + rest, last);
    if size > 0 {
      FullBodyIsRead(stream, content, size, resp, 0, rest, last);
    }
  }

  /** A file that comes up short is reported as the server's error 3, never as a result. */
  lemma ShortFileIsReported(stream: u32, size: int63, mime: MimeType, content: bytes, rest: seq<Frame>, last: ReadResult)
    requires stream != 0 && |content| < size && !last.Got?
    ensures var x := FileExchange(stream, size, mime, content);
            var fault := FaultFrame(PROTOCOL_ERROR, CUT_SHORT_TEXT);
            && (forall i :: 0 <= i < |x.frames| ==> !EndsStream(x.frames[i].flags))
            && var r := ReadReply(Reading(x.frames + ([fault] + rest), last), stream);
               && r.result == Err(Refusal(Remote(ConnError(PROTOCOL_ERROR, CUT_SHORT_TEXT)), None))
               && r.body <= content
  {
    var resp, body := Response(200, FileHeaders(size, mime)), Body(stream, content, size).frames;
    var fault := FaultFrame(PROTOCOL_ERROR, CUT_SHORT_TEXT);
    FileBuilds(size, mime);
    FileShape(stream, size, mime, content);
    Assoc([ResponseFrame(stream, resp, false)], body, [fault] + rest);
    ResponseIsRead(stream, resp, false, body + ([fault] + rest), last);
    ShortBodyIsRead(stream, content, size, resp, 0, fault, rest, last);
    ErrorRoundTrip(ConnError(PROTOCOL_ERROR, CUT_SHORT_TEXT));
  }

  // ---- what a path is worth ----

  /** The status and body the file tree assigns to a path, with the headers that go with them. */
  function Assigned(tree: FileTree, path: bytes): (Answered, bytes) {
    match tree(path)
    case BadPath => (Answered(400, StatusHeaders(), 0), [])
    case NotFound => (Answered(404, StatusHeaders(), 0), [])
    case Failure => (Answered(500, StatusHeaders(), 0), [])
    case Found(size, mime, content) =>
      (Answered(200, FileHeaders(size, mime), size), if size <= |content| then content[..size] else content)
  }

  /** The tree keeps its promise for a path: the file, if any, holds the bytes its size announces. */
  predicate KeepsSize(tree: FileTree, path: bytes) {
    var found := tree(path);
    found.Found? ==> found.size <= |found.content|
  }

  function SmallestRequest(): (r: Request)
    ensures Buildable(r)
  {
    SmallestBuilds();
    Request(METHOD_GET, [SLASH], [])
  }

  lemma SmallestBuilds()
    ensures Buildable(Request(METHOD_GET, [SLASH], []))
  {
    var path: bytes := [SLASH];
    var none: seq<Header> := [];
    assert Utf8.CharLength(path) == 1 && path[1..] == [];
    assert GoodPath(path);
    assert PrintableAll(none) && ToRaws(none) == [];
    assert |PrintBlock(none)| == 1;
  }

  /** A request the encoder accepts. */
  type Ask = r: Request | Buildable(r) witness SmallestRequest()

  function RequestFrame(a: Ask, id: u32): (f: Frame)
    ensures f.typ == REQUEST && f.stream == id
    ensures id != 0 ==> Encodable(f)
  {
    Frame(REQUEST, END_STREAM, id, PrintRequest(a))
  }

  lemma AnswerToRequest(a: Ask, id: u32, tree: FileTree, rest: seq<Frame>, last: ReadResult)
    requires id != 0 && KeepsSize(tree, a.path) && !last.Got?
    ensures var x := Answer(RequestFrame(a, id), tree);
            && x.complete && Shaped(x, id)
            && var (result, body) := Assigned(tree, a.path);
               ReadReply(Reading(x.frames + rest, last), id) == Reply(Ok(result), body, |x.frames|)
  {
    RequestRoundTrip(a);
    AnswerShape(RequestFrame(a, id), tree);
    match tree(a.path)
    case BadPath => StatusIsRead(id, 400, rest, last);
    case NotFound => StatusIsRead(id, 404, rest, last);
    case Failure => StatusIsRead(id, 500, rest, last);
    case Found(size, mime, content) =>
      FileShape(id, size, mime, content);
      FileIsRead(id, size, mime, content, rest, last);
  }

  lemma FirstIsRead(f: Frame, fs: seq<Frame>, rest: bytes, broken: bool, more: Reading)
    requires Known(f.typ) && Encodable(f)
    requires ReadAll(rest, broken) == Reading(fs + more.frames, more.last)
    ensures ReadAll(Image(f) + rest, broken) == Reading([f] + fs + more.frames, more.last)
    ensures After(Image(f) + rest, |fs| + 1) == After(rest, |fs|)
  {
    NextIsFirst(f, rest, broken);
    NextIsFirst(f, rest, false);
    ReadAllStep(Image(f) + rest, broken);
    Assoc([f], fs, more.frames);
  }

  /** Frames sent ahead of other bytes are read first, and leave those bytes. */
  lemma {:induction false} WireIsReadFirst(fs: seq<Frame>, rest: bytes, broken: bool, more: Reading)
    requires Deliverable(fs) && more == ReadAll(rest, broken)
    ensures ReadAll(Wire(fs) + rest, broken) == Reading(fs + more.frames, more.last)
    ensures After(Wire(fs) + rest, |fs|) == rest
  {
    if fs == [] {
      assert Wire(fs) + rest == rest && fs + more.frames == more.frames;
    } else {
      var tail := fs[1..];
      WireIsReadFirst(tail, rest, broken, more);
      Assoc(Image(fs[0]), Wire(tail), rest);
      FirstIsRead(fs[0], tail, Wire(tail) + rest, broken, more);
      assert [fs[0]] + tail == fs;
    }
  }

  /** What a server leaves on the wire is what the other end reads. */
  lemma WireIsRead(fs: seq<Frame>)
    requires Deliverable(fs)
    ensures ReadAll(Wire(fs), false) == Reading(fs, EndOfStream)
    ensures After(Wire(fs), |fs|) == []
  {
    WireIsReadFirst(fs, [], false, Reading([], EndOfStream));
    assert Wire(fs) + [] == Wire(fs) && fs + [] == fs;
  }

  /**
   Cut the wire bytes of one exchange anywhere short of its end, and the client reports that the
   connection ended, with no more than a prefix of the file written.
   */
  lemma CutExchangeFails(stream: u32, size: int63, mime: MimeType, content: bytes, k: nat, brokenThere: bool)
    requires stream != 0 && size <= |content|
    ensures var x := FileExchange(stream, size, mime, content).frames;
            && Sendable(x)
            && (k < |Wire(x)| ==>
                  EndedEarly(ReadReply(ReadAll(Wire(x)[..k], brokenThere), stream), content[..size]))
  {
    var x := FileExchange(stream, size, mime, content).frames;
    FileShape(stream, size, mime, content);
    FileIsRead(stream, size, mime, content, [], EndOfStream);
    assert x + [] == x;
    WireIsRead(x);
    if k < |Wire(x)| {
      TruncatedReplyFails(Wire(x), k, false, brokenThere, stream);
    }
  }

  // ---- whole runs ----

  function RequestFrames(asks: seq<Ask>, id: nat): (fs: seq<Frame>)
    requires 0 < id && id + |asks| <= 0x1_0000_0000
    ensures |fs| == |asks| && Sendable(fs)
  {
    if asks == [] then [] else [RequestFrame(asks[0], id)] + RequestFrames(asks[1..], id + 1)
  }

  /** What the server writes for the requests, without reference to the bytes they came in. */
  function AnswersTo(asks: seq<Ask>, id: nat, tree: FileTree): seq<Frame>
    requires 0 < id && id + |asks| <= 0x1_0000_0000
  {
    if asks == [] then []
    else Answer(RequestFrame(asks[0], id), tree).frames + AnswersTo(asks[1..], id + 1, tree)
  }

  /** Successive readings of n replies on successive streams, and the frames left, until one fails. */
  function Session(r: Reading, id: nat, n: nat): (seq<Reply>, seq<Frame>)
    requires id + n <= 0x1_0000_0000 && !r.last.Got?
    decreases n
  {
    if n == 0 then ([], r.frames)
    else
      var reply := ReadReply(r, id);
      var left := r.frames[reply.used..];
      if reply.result.Err? then ([reply], left)
      else
        var more := Session(Reading(left, r.last), id + 1, n - 1);
        ([reply] + more.0, more.1)
  }

  predicate Sound(asks: seq<Ask>, tree: FileTree) {
    forall i :: 0 <= i < |asks| ==> KeepsSize(tree, asks[i].path)
  }

  /** The server answers the requests one after another, whatever follows them on the wire. */
  lemma {:induction false} RequestsAreAnswered(asks: seq<Ask>, id: nat, rest: bytes, broken: bool,
                                               tree: FileTree)
    requires Sound(asks, tree) && 0 < id && id + |asks| <= 0x1_0000_0000
    ensures Serve(Wire(RequestFrames(asks, id)) + rest, broken, tree)
            == AnswersTo(asks, id, tree) + Serve(rest, broken, tree)
    decreases |asks|
  {
    hide Answer;
    if asks == [] {
      assert Wire(RequestFrames(asks, id)) + rest == rest;
      assert [] + Serve(rest, broken, tree) == Serve(rest, broken, tree);
    } else {
      var f, more := RequestFrame(asks[0], id), RequestFrames(asks[1..], id + 1);
      RequestsAreAnswered(asks[1..], id + 1, rest, broken, tree);
      AnswerToRequest(asks[0], id, tree, [], EndOfStream);
      assert RequestFrames(asks, id)[1..] == more;
      Assoc(Image(f), Wire(more), rest);
      NextIsFirst(f, Wire(more) + rest, broken);
      Assoc(Answer(f, tree).frames, AnswersTo(asks[1..], id + 1, tree), Serve(rest, broken, tree));
    }
  }

  /** A reply is the status and body the tree assigns to a path. */
  predicate Gives(reply: Reply, tree: FileTree, path: bytes) {
    var (result, body) := Assigned(tree, path);
    reply.result == Ok(result) && reply.body == body
  }

  predicate AsAssigned(replies: seq<Reply>, asks: seq<Ask>, tree: FileTree) {
    |replies| == |asks| && forall i :: 0 <= i < |asks| ==> Gives(replies[i], tree, asks[i].path)
  }

  /** A reading that gives, reply by reply, what the tree assigns to each path, and then `left`. */
  predicate HoldsReplies(r: Reading, asks: seq<Ask>, id: nat, tree: FileTree, left: seq<Frame>)
    requires id + |asks| <= 0x1_0000_0000 && !r.last.Got?
    decreases |asks|
  {
    if asks == [] then r.frames == left
    else
      var reply := ReadReply(r, id);
      && Gives(reply, tree, asks[0].path)
      && HoldsReplies(Reading(r.frames[reply.used..], r.last), asks[1..], id + 1, tree, left)
  }

  /** One more reply in front. */
  lemma HoldsCons(x: seq<Frame>, rest: seq<Frame>, last: ReadResult, asks: seq<Ask>, id: nat, tree: FileTree,
                  left: seq<Frame>)
    requires asks != [] && id + |asks| <= 0x1_0000_0000 && !last.Got?
    requires var reply := ReadReply(Reading(x + rest, last), id); Gives(reply, tree, asks[0].path) && reply.used == |x|
    requires HoldsReplies(Reading(rest, last), asks[1..], id + 1, tree, left)
    ensures HoldsReplies(Reading(x + rest, last), asks, id, tree, left)
  {
    Halves(x, rest);
  }

  /** The answer to one request, in front of anything else. */
  lemma FirstReply(a: Ask, id: u32, tree: FileTree, rest: seq<Frame>, last: ReadResult)
    requires id != 0 && KeepsSize(tree, a.path) && !last.Got?
    ensures var x := Answer(RequestFrame(a, id), tree).frames;
            var reply := ReadReply(Reading(x + rest, last), id);
            Gives(reply, tree, a.path) && reply.used == |x|
  {
    AnswerToRequest(a, id, tree, rest, last);
  }

  lemma {:induction false} AnswersAreRead(asks: seq<Ask>, id: nat, tree: FileTree, rest: seq<Frame>, last: ReadResult)
    requires Sound(asks, tree) && 0 < id && id + |asks| <= 0x1_0000_0000 && !last.Got?
    ensures HoldsReplies(Reading(AnswersTo(asks, id, tree) + rest, last), asks, id, tree, rest)
    decreases |asks|
  {
    if asks == [] {
      assert AnswersTo(asks, id, tree) + rest == rest;
    } else {
      var x, more := Answer(RequestFrame(asks[0], id), tree).frames, AnswersTo(asks[1..], id + 1, tree);
      AnswersAreRead(asks[1..], id + 1, tree, rest, last);
      FirstReply(asks[0], id, tree, more + rest, last);
      HoldsCons(x, more + rest, last, asks, id, tree, rest);
      Assoc(x, more, rest);
    }
  }

  lemma {:induction false} SessionGives(r: Reading, asks: seq<Ask>, id: nat, tree: FileTree, left: seq<Frame>)
    requires id + |asks| <= 0x1_0000_0000 && !r.last.Got?
    requires HoldsReplies(r, asks, id, tree, left)
    ensures var (replies, over) := Session(r, id, |asks|); AsAssigned(replies, asks, tree) && over == left
    decreases |asks|
  {
    hide Answer, ReadReply, Assigned;
    if asks != [] {
      var reply := ReadReply(r, id);
      var rest := Reading(r.frames[reply.used..], r.last);
      SessionGives(rest, asks[1..], id + 1, tree, left);
      AssignedCons(reply, Session(rest, id + 1, |asks| - 1).0, asks, tree);
    }
  }

  lemma AssignedCons(reply: Reply, replies: seq<Reply>, asks: seq<Ask>, tree: FileTree)
    requires asks != [] && AsAssigned(replies, asks[1..], tree)
    requires Gives(reply, tree, asks[0].path)
    ensures AsAssigned([reply] + replies, asks, tree)
  {
    hide Assigned, Buildable;
    forall i | 0 < i < |asks| ensures Gives(([reply] + replies)[i], tree, asks[i].path) {
      assert Gives(replies[i - 1], tree, asks[1..][i - 1].path);
    }
  }

  /** Frames that can be sent and that a receiver knows. */
  predicate Deliverable(fs: seq<Frame>) {
    Sendable(fs) && forall i :: 0 <= i < |fs| ==> Known(fs[i].typ)
  }

  lemma DeliverableAppend(a: seq<Frame>, b: seq<Frame>)
    requires Deliverable(a) && Deliverable(b)
    ensures Deliverable(a + b)
  {
  }

  lemma {:induction false} AnswersAreDeliverable(asks: seq<Ask>, id: nat, tree: FileTree)
    requires Sound(asks, tree) && 0 < id && id + |asks| <= 0x1_0000_0000
    ensures Deliverable(AnswersTo(asks, id, tree))
    decreases |asks|
  {
    if asks != [] {
      var f := RequestFrame(asks[0], id);
      AnswersAreDeliverable(asks[1..], id + 1, tree);
      AnswerShape(f, tree);
      DeliverableAppend(Answer(f, tree).frames, AnswersTo(asks[1..], id + 1, tree));
    }
  }

  /**
   The whole run. For any requests that can be built, numbered from any id within the id space,
   and any file tree whose files hold the bytes they announce: the server's output, read reply by
   reply, gives exactly the status and body the tree assigns to each path, in order, and leaves
   nothing over.
   */
  lemma WholeRun(asks: seq<Ask>, id: nat, tree: FileTree)
    requires Sound(asks, tree) && 0 < id && id + |asks| <= 0x1_0000_0000
    ensures var output := Serve(Wire(RequestFrames(asks, id)), false, tree);
            && Sendable(output)
            && var received := ReadAll(Wire(output), false);
               && received.last == EndOfStream && After(Wire(output), |received.frames|) == []
               && var (replies, left) := Session(received, id, |asks|);
                  AsAssigned(replies, asks, tree) && left == []
  {
    var output := AnswersTo(asks, id, tree);
    AnsweredAlone(asks, id, tree);
    AnswersAreDeliverable(asks, id, tree);
    WireIsRead(output);
    AnswersAreRead(asks, id, tree, [], EndOfStream);
    assert output + [] == output;
    SessionGives(Reading(output, EndOfStream), asks, id, tree, []);
  }

  /**
   No request waits on a later one: the output for the requests sent so far is a prefix of the
   output for all of them, and it already holds every reply to them.
   */
  lemma AnswersComeAsAsked(asks: seq<Ask>, k: nat, id: nat, tree: FileTree)
    requires Sound(asks, tree) && 0 < id && id + |asks| <= 0x1_0000_0000 && k <= |asks|
    ensures Serve(Wire(RequestFrames(asks[..k], id)), false, tree)
            <= Serve(Wire(RequestFrames(asks, id)), false, tree)
    ensures var early := Serve(Wire(RequestFrames(asks[..k], id)), false, tree);
            && Sendable(early)
            && AsAssigned(Session(ReadAll(Wire(early), false), id, k).0, asks[..k], tree)
  {
    WholeRun(asks[..k], id, tree);
    OutputGrows(asks[..k], asks[k..], id, tree);
    assert asks[..k] + asks[k..] == asks;
  }

  lemma OutputGrows(early: seq<Ask>, later: seq<Ask>, id: nat, tree: FileTree)
    requires Sound(early, tree) && Sound(later, tree) && 0 < id && id + |early| + |later| <= 0x1_0000_0000
    ensures Sound(early + later, tree)
    ensures Serve(Wire(RequestFrames(early, id)), false, tree)
            <= Serve(Wire(RequestFrames(early + later, id)), false, tree)
  {
    var a, b := RequestFrames(early, id), RequestFrames(later, id + |early|);
    RequestFramesAppend(early, later, id);
    WireAppend(a, b);
    RequestsAreAnswered(early, id, Wire(b), false, tree);
    AnsweredAlone(early, id, tree);
  }

  /** With nothing behind them, the requests are all there is to answer. */
  lemma AnsweredAlone(asks: seq<Ask>, id: nat, tree: FileTree)
    requires Sound(asks, tree) && 0 < id && id + |asks| <= 0x1_0000_0000
    ensures Serve(Wire(RequestFrames(asks, id)), false, tree) == AnswersTo(asks, id, tree)
  {
    var input, output := Wire(RequestFrames(asks, id)), AnswersTo(asks, id, tree);
    RequestsAreAnswered(asks, id, [], false, tree);
    assert input + [] == input && output + [] == output;
    assert Serve([], false, tree) == [];
  }

  lemma {:induction false} RequestFramesAppend(a: seq<Ask>, b: seq<Ask>, id: nat)
    requires 0 < id && id + |a| + |b| <= 0x1_0000_0000
    ensures RequestFrames(a + b, id) == RequestFrames(a, id) + RequestFrames(b, id + |a|)
    decreases |a|
  {
    hide Buildable, PrintRequest;
    if a == [] {
      assert a + b == b;
    } else {
      HeadAndTail(a, b);
      RequestFramesAppend(a[1..], b, id + 1);
      Assoc([RequestFrame(a[0], id)], RequestFrames(a[1..], id + 1), RequestFrames(b, id + |a|));
    }
  }
}
