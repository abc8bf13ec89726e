/** Which answers a client behind the chaos pump accepts although they were cut off on the way to it. */
module CutAnswers {
  import opened Bytes
  import opened Frames
  import opened Headers
  import opened Messages
  import opened Lengths
  import opened Resolver
  import opened Exchanges
  import opened Replies
  import opened EndToEnd
  import opened ZeroFill
  import opened Proxied
  import Chaos

  /** A reply as a client is given it when the last bytes of its last field stand as zeros. */
  predicate ZeroedReply(r: Reply, whole: Reply, missing: nat) {
    && whole.result.Ok? && r.used == whole.used
    && if whole.used > 1 then
         missing <= |whole.body| && r == whole.(body := Filled(whole.body, |whole.body| - missing))
       else
         var a := whole.result.value;
         && a.headers != [] && missing <= |a.headers[|a.headers| - 1].value|
         && r == whole.(result := Ok(a.(headers := LastValueFilled(a.headers, missing))))
  }

  // ---- a reply of one frame ----

  /** Responses of the kind a server sends without a body. */
  predicate Bodiless(resp: Response) {
    && ResponseBuildable(resp) && resp.headers != []
    && (forall h | h in resp.headers :: PlainHeader(h))
    && LengthsAgree(resp.headers, 0) && resp.headers[|resp.headers| - 1].value != []
    && resp.headers[|resp.headers| - 1].name != CONTENT_LENGTH
  }

  lemma FilledLengthsAgree(hs: seq<Header>, missing: nat, got: int)
    requires hs != [] && missing <= |hs[|hs| - 1].value| && hs[|hs| - 1].name != CONTENT_LENGTH
    requires LengthsAgree(hs, got)
    ensures LengthsAgree(LastValueFilled(hs, missing), got)
  {
    forall h | h in LastValueFilled(hs, missing) && h.name == CONTENT_LENGTH ensures Promises(h.value, got) {
      assert h in hs;
    }
  }

  /** Read alone, the one frame of a reply that lost its last bytes. */
  lemma CutHeadIsRead(resp: Response, stream: u32, n: nat)
    requires stream != 0 && Bodiless(resp) && n < |PrintResponse(resp)|
    ensures var hs := resp.headers; var missing := |PrintResponse(resp)| - n;
            ReadReply(Reading([Padded(ResponseFrame(stream, resp, true), n)], EndOfStream), stream)
            == if missing <= |hs[|hs| - 1].value|
               then Reply(Ok(Answered(resp.status, LastValueFilled(hs, missing), 0)), [], 1)
               else Reply(Err(Refusal(BadResponse, None)), [], 1)
  {
    hide PrintResponse, ParseResponse, LengthsAgree, PrintableAll;
    var missing := |PrintResponse(resp)| - n;
    CutResponse(resp, n);
    if missing <= |resp.headers[|resp.headers| - 1].value| {
      FilledLengthsAgree(resp.headers, missing, 0);
    }
  }

  lemma OneFrameSize(x: seq<Frame>)
    requires Sendable(x) && |x| == 1
    ensures |Wire(x)| == HEADER_SIZE + |x[0].payload|
  {
    WireOne(x[0]);
    assert x == [x[0]];
  }

  /** What is read behind the pump of one frame cut off. */
  lemma OneFrameBehindPump(x: seq<Frame>, k: nat)
    requires Sendable(x) && |x| == 1 && k < |Wire(x)|
    ensures |Wire(x)| == HEADER_SIZE + |x[0].payload|
    ensures BehindPump(x, k) == if k < HEADER_SIZE then [] else [Padded(x[0], k - HEADER_SIZE)]
  {
    OneFrameSize(x);
    CutChops(x, k);
    assert x[..0] == [];
  }

  lemma NothingFails(id: u32)
    ensures ReadReply(Reading([], EndOfStream), id).result.Err?
  {
  }

  /** The verdict on one frame that lost its last bytes. */
  predicate HeadVerdict(r: Reply, resp: Response, missing: nat)
    requires resp.headers != []
  {
    var hs := resp.headers;
    && (r.result.Ok? <==> missing <= |hs[|hs| - 1].value|)
    && (r.result.Ok? ==> r == Reply(Ok(Answered(resp.status, LastValueFilled(hs, missing), 0)), [], 1))
  }

  lemma CutHeadBehindPump(resp: Response, stream: u32, x: seq<Frame>, k: nat)
    requires stream != 0 && Bodiless(resp) && x == [ResponseFrame(stream, resp, true)]
    requires Sendable(x) && k < |Wire(x)|
    ensures HeadVerdict(ReadReply(Reading(BehindPump(x, k), EndOfStream), stream), resp, |Wire(x)| - k)
  {
    hide ReadReply, Wire, BehindPump, Padded, PrintResponse, PrintableAll, LengthsAgree, PlainHeader;
    OneFrameBehindPump(x, k);
    LastValueFits(resp);
    if k < HEADER_SIZE {
      NothingFails(stream);
    } else {
      CutHeadIsRead(resp, stream, k - HEADER_SIZE);
    }
  }

  // ---- every answer ----

  /** Everything a server sends because of one frame: the answer, and the ERROR behind a body cut short. */
  function Owed(f: Frame, tree: FileTree): (fs: seq<Frame>)
    ensures fs != []
  {
    var x := Answer(f, tree);
    x.frames + if x.complete then [] else [FaultFrame(PROTOCOL_ERROR, CUT_SHORT_TEXT)]
  }

  /** The length of the last field of a whole reply: the server's name, or the last DATA payload. */
  function LastField(x: seq<Frame>): nat
    requires x != []
  {
    if |x| == 1 then |SERVER_NAME| else |x[|x| - 1].payload|
  }

  /** Cut off behind k bytes, x is accepted iff it is whole but for bytes of its last field. */
  ghost predicate Tolerated(x: seq<Frame>, whole: bool, k: nat, stream: u32)
    requires x != [] && Sendable(x) && k < |Wire(x)|
  {
    var missing := |Wire(x)| - k;
    var r := ReadReply(Reading(BehindPump(x, k), EndOfStream), stream);
    && (r.result.Ok? <==> whole && missing <= LastField(x))
    && (r.result.Ok? ==> ZeroedReply(r, ReadReply(Reading(x, EndOfStream), stream), missing))
  }

  lemma HeadIsTolerated(resp: Response, stream: u32, x: seq<Frame>, k: nat)
    requires stream != 0 && Bodiless(resp) && x == [ResponseFrame(stream, resp, true)]
    requires resp.headers[|resp.headers| - 1].value == SERVER_NAME
    requires Sendable(x) && k < |Wire(x)|
    ensures Tolerated(x, true, k, stream)
  {
    hide ReadReply, Wire, BehindPump, PrintResponse, PrintableAll, PlainHeader, LengthsAgree;
    CutHeadBehindPump(resp, stream, x, k);
    HeadIsRead(resp, stream, x);
  }

  lemma HeadIsRead(resp: Response, stream: u32, x: seq<Frame>)
    requires stream != 0 && Bodiless(resp) && x == [ResponseFrame(stream, resp, true)]
    ensures ReadReply(Reading(x, EndOfStream), stream) == Reply(Ok(Answered(resp.status, resp.headers, 0)), [], 1)
  {
    ResponseIsRead(stream, resp, true, [], EndOfStream);
    assert x + [] == x;
  }

  lemma SeveralAreTolerated(x: seq<Frame>, k: nat, stream: u32)
    requires Deliverable(x) && k < |Wire(x)| && |x| > 1 && !EndsStream(x[0].flags)
    requires var r := ReadReply(Reading(x, EndOfStream), stream); r.result.Ok? && r.used == |x|
    ensures Tolerated(x, true, k, stream)
  {
    hide ReadReply, BehindPump, Wire;
    if |Wire(x)| - k <= |x[|x| - 1].payload| {
      CutLateSucceeds(x, k, stream);
    } else {
      CutEarlyFails(x, k, stream);
    }
  }

  predicate NeverEnds(fs: seq<Frame>) {
    forall i :: 0 <= i < |fs| ==> !EndsStream(fs[i].flags)
  }

  lemma {:induction false} BodyNeverEnds(fs: seq<Frame>, last: ReadResult, id: u32, resp: Response, got: nat)
    requires NeverEnds(fs) && !last.Got?
    ensures ReadBody(fs, last, id, resp, got).result.Err?
  {
    if fs != [] {
      BodyNeverEnds(fs[1..], last, id, resp, got + |fs[0].payload|);
    }
  }

  /** Frames among which none ends a stream are no reply. */
  lemma NoEndNoReply(fs: seq<Frame>, last: ReadResult, id: u32)
    requires NeverEnds(fs) && !last.Got?
    ensures ReadReply(Reading(fs, last), id).result.Err?
  {
    if fs != [] && ParseResponse(fs[0].payload).Some? {
      BodyNeverEnds(fs[1..], last, id, ParseResponse(fs[0].payload).value, 0);
    }
  }

  lemma UnendedIsRefused(x: seq<Frame>, k: nat, stream: u32)
    requires x != [] && Sendable(x) && k < |Wire(x)| && NeverEnds(x)
    ensures Tolerated(x, false, k, stream)
  {
    hide ReadReply, Wire, CutFrame;
    CutChops(x, k);
    NoEndNoReply(BehindPump(x, k), EndOfStream, stream);
  }

  lemma StatusIsBodiless(status: int)
    requires ValidStatus(status)
    ensures Bodiless(Response(status, StatusHeaders()))
  {
    StatusBuilds(status);
    StatusHeadersAgree();
    ServerNamesAreInTable();
  }

  lemma EmptyFileIsBodiless(mime: MimeType)
    ensures Bodiless(Response(200, FileHeaders(0, mime)))
  {
    FileBuilds(0, mime);
    FileHeadersAgree(0, mime);
    ServerNamesAreInTable();
  }

  lemma DownloadShape(stream: u32, size: int63, mime: MimeType, content: bytes)
    requires stream != 0 && 0 < size <= |content|
    ensures var x := FileExchange(stream, size, mime, content).frames;
            && |x| > 1 && Deliverable(x) && !EndsStream(x[0].flags)
            && ReadReply(Reading(x, EndOfStream), stream)
               == Reply(Ok(Answered(200, FileHeaders(size, mime), size)), content[..size], |x|)
  {
    var x := FileExchange(stream, size, mime, content).frames;
    FileShape(stream, size, mime, content);
    FileIsRead(stream, size, mime, content, [], EndOfStream);
    assert x + [] == x;
  }

  lemma StatusIsTolerated(stream: u32, status: int, x: seq<Frame>, k: nat)
    requires stream != 0 && ValidStatus(status) && x == StatusExchange(stream, status).frames
    requires Sendable(x) && k < |Wire(x)|
    ensures Tolerated(x, true, k, stream)
  {
    hide Bodiless, Tolerated, Wire;
    StatusIsBodiless(status);
    HeadIsTolerated(Response(status, StatusHeaders()), stream, x, k);
  }

  lemma FileIsTolerated(stream: u32, size: int63, mime: MimeType, content: bytes, x: seq<Frame>, k: nat)
    requires stream != 0 && size <= |content| && x == FileExchange(stream, size, mime, content).frames
    requires Sendable(x) && k < |Wire(x)|
    ensures x != [] && Tolerated(x, true, k, stream)
  {
    hide Bodiless, Tolerated, Wire, ReadReply;
    if size > 0 {
      DownloadShape(stream, size, mime, content);
      SeveralAreTolerated(x, k, stream);
    } else {
      EmptyFileIsBodiless(mime);
      assert x == [ResponseFrame(stream, Response(200, FileHeaders(0, mime)), true)];
      HeadIsTolerated(Response(200, FileHeaders(0, mime)), stream, x, k);
    }
  }

  /** Everything owed to a frame is sent to a client that knows its types. */
  lemma OwedShape(f: Frame, tree: FileTree)
    requires f.stream != 0
    ensures Deliverable(Owed(f, tree))
    ensures !Answer(f, tree).complete ==> NeverEnds(Owed(f, tree))
  {
    hide Answer;
    AnswerShape(f, tree);
  }

  lemma AnswerIsTolerated(f: Frame, tree: FileTree, x: seq<Frame>, k: nat)
    requires f.stream != 0 && x == Owed(f, tree) && Sendable(x) && k < |Wire(x)|
    ensures Tolerated(x, Answer(f, tree).complete, k, f.stream)
  {
    hide Tolerated, Wire, NeverEnds;
    var a := Answer(f, tree);
    assert a.complete ==> x == a.frames;
    if !a.complete {
      OwedShape(f, tree);
      UnendedIsRefused(x, k, f.stream);
    } else if f.typ != REQUEST || !RequestFlagsOk(f.flags) || ParseRequest(f.payload).None? {
      StatusIsTolerated(f.stream, 400, x, k);
    } else {
      match tree(ParseRequest(f.payload).value.path)
      case BadPath => StatusIsTolerated(f.stream, 400, x, k);
      case NotFound => StatusIsTolerated(f.stream, 404, x, k);
      case Failure => StatusIsTolerated(f.stream, 500, x, k);
      case Found(size, mime, content) =>
        FileShape(f.stream, size, mime, content);
        FileIsTolerated(f.stream, size, mime, content, x, k);
    }
  }

  /** What is read of frames cut off, without the pump. */
  lemma CutIsReadAlone(x: seq<Frame>, k: nat)
    requires Deliverable(x) && k < |Wire(x)|
    ensures var j, r := CutFrame(x, k), ReadAll(Wire(x)[..k], false);
            j < |x| && Ended(r.last) && r.frames == x[..j]
  {
    CutChops(x, k);
    ReadAllIsJudge(Wire(x)[..k], false);
    JudgeImages(x[..CutFrame(x, k)], TailVerdict(Chop(Wire(x)[..k]).tail, false));
  }

  /** Without the pump nothing cut off is ever accepted. */
  lemma CutIsRefusedAlone(x: seq<Frame>, k: nat, stream: u32)
    requires Deliverable(x) && k < |Wire(x)|
    requires NeverEnds(x) || (var r := ReadReply(Reading(x, EndOfStream), stream); r.result.Ok? && r.used == |x|)
    ensures ReadReply(ReadAll(Wire(x)[..k], false), stream).result.Err?
  {
    hide ReadReply, Wire, ReadAll, CutFrame;
    CutIsReadAlone(x, k);
    var j, cut := CutFrame(x, k), ReadAll(Wire(x)[..k], false);
    if NeverEnds(x) {
      NoEndNoReply(x[..j], cut.last, stream);
    } else {
      CutFramesFail(Reading(x, EndOfStream), j, cut.last, stream);
    }
  }

  /** A complete answer, left whole, is a reply that uses all its frames. */
  lemma WholeAnswerIsReply(f: Frame, tree: FileTree)
    requires f.stream != 0 && Answer(f, tree).complete
    ensures var x := Answer(f, tree).frames; var r := ReadReply(Reading(x, EndOfStream), f.stream);
            r.result.Ok? && r.used == |x|
  {
    hide ReadReply;
    var x := Answer(f, tree).frames;
    assert x + [] == x;
    if f.typ != REQUEST || !RequestFlagsOk(f.flags) || ParseRequest(f.payload).None? {
      StatusIsRead(f.stream, 400, [], EndOfStream);
    } else {
      match tree(ParseRequest(f.payload).value.path)
      case BadPath => StatusIsRead(f.stream, 400, [], EndOfStream);
      case NotFound => StatusIsRead(f.stream, 404, [], EndOfStream);
      case Failure => StatusIsRead(f.stream, 500, [], EndOfStream);
      case Found(size, mime, content) =>
        FileShape(f.stream, size, mime, content);
        FileIsRead(f.stream, size, mime, content, [], EndOfStream);
    }
  }

  /** What a client makes of a cut stream of frames, behind the pump. */
  function ReplyBehindPump(cut: bytes, ps: seq<Chaos.Piece>, stream: u32): Reply {
    ReadReply(ReadAll(Chaos.Output(ps, cut), false), stream)
  }

  /**
   Whatever a server sends because of a frame, cut off anywhere on the server's side of the pump, with
   any noise. The client accepts it if and only if the answer was complete and the missing bytes all
   belong to its last field: the last DATA payload, or the server's name where there is no body. It is
   then given zeros in their place. Without the pump no cut answer is ever accepted.
   */
  lemma CutAnswerBehindPump(f: Frame, tree: FileTree, x: seq<Frame>, k: nat, ps: seq<Chaos.Piece>)
    requires f.stream != 0 && x == Owed(f, tree) && Sendable(x) && k < |Wire(x)|
    requires Chaos.LegalPieces(ps) && Chaos.Relayed(ps) == Chop(Wire(x)[..k]).frames
    ensures var missing := |Wire(x)| - k; var r := ReplyBehindPump(Wire(x)[..k], ps, f.stream);
            && (r.result.Ok? <==> Answer(f, tree).complete && missing <= LastField(x))
            && (r.result.Ok? ==> ZeroedReply(r, ReadReply(Reading(x, EndOfStream), f.stream), missing))
    ensures ReadReply(ReadAll(Wire(x)[..k], false), f.stream).result.Err?
  {
    hide Answer, ReadReply, Wire, BehindPump, Chop, ReadAll, Chaos.Output, Chaos.Relayed, NeverEnds, ZeroedReply;
    OwedShape(f, tree);
    CutIsRead(x, k, ps);
    AnswerIsTolerated(f, tree, x, k);
    if Answer(f, tree).complete {
      WholeAnswerIsReply(f, tree);
      assert x == Answer(f, tree).frames;
    }
    CutIsRefusedAlone(x, k, f.stream);
  }

  // ---- downloads ----

  /** The same for downloads, with what the client is given spelt out. */
  lemma CutDownloadBehindPump(stream: u32, size: int63, mime: MimeType, content: bytes, x: seq<Frame>, k: nat,
                              ps: seq<Chaos.Piece>)
    requires stream != 0 && size <= |content|
    requires x == FileExchange(stream, size, mime, content).frames && Sendable(x) && k < |Wire(x)|
    requires Chaos.LegalPieces(ps) && Chaos.Relayed(ps) == Chop(Wire(x)[..k]).frames
    ensures |x| == 1 + ChunkCount(size)
    ensures var missing := |Wire(x)| - k; var r := ReplyBehindPump(Wire(x)[..k], ps, stream);
            && (r.result.Ok? <==> missing <= LastField(x))
            && (r.result.Ok? && size > 0 ==>
                  && missing <= size
                  && r == Reply(Ok(Answered(200, FileHeaders(size, mime), size)),
                                Filled(content[..size], size - missing), |x|))
            && (r.result.Ok? && size == 0 ==>
                  r == Reply(Ok(Answered(200, LastValueFilled(FileHeaders(0, mime), missing), 0)), [], 1))
    ensures ReadReply(ReadAll(Wire(x)[..k], false), stream).result.Err?
  {
    hide ReadReply, Wire, BehindPump, Chop, ReadAll, Chaos.Output, Chaos.Relayed;
    FileShape(stream, size, mime, content);
    FullBody(stream, content, size);
    FileIsRead(stream, size, mime, content, [], EndOfStream);
    assert x + [] == x;
    CutIsRead(x, k, ps);
    FileIsTolerated(stream, size, mime, content, x, k);
    CutExchangeFails(stream, size, mime, content, k, false);
  }

  /** Two frames, the second of one byte, cut off by that byte. */
  lemma LastByteCut(x: seq<Frame>)
    requires Sendable(x) && |x| == 2 && |x[1].payload| == 1
    ensures |Wire(x)| > 0
    ensures var ps := [Chaos.Relay(Image(x[0]))];
            Chaos.LegalPieces(ps) && Chaos.Relayed(ps) == Chop(Wire(x)[..|Wire(x)| - 1]).frames
  {
    hide FramesWithin, Wire, Image;
    WireSplits(x, 1);
    assert x[..2] == x;
    CutInLast(x, |Wire(x)| - 1);
    CutChops(x, |Wire(x)| - 1);
    ImageIsFrame(x[0]);
    Chaos.OnePiece(Chaos.Relay(Image(x[0])));
    assert Images(x[..1]) == [Image(x[0])];
  }

  lemma OneByteFrames(stream: u32, size: int63, mime: MimeType, content: bytes)
    requires size == |content| == 1
    ensures var x := FileExchange(stream, size, mime, content).frames; |x| == 2 && |x[1].payload| == 1
  {
    FileBuilds(size, mime);
    FullBody(stream, content, size);
    var body := Body(stream, content, size).frames;
    assert FileExchange(stream, size, mime, content).frames[1] == body[0];
  }

  /** A one-byte file whose byte never came: the client behind the pump is given a zero for it. */
  lemma CutDownloadLooksWhole(stream: u32, size: int63, mime: MimeType, content: bytes, x: seq<Frame>)
    requires stream != 0 && size == |content| == 1 && x == FileExchange(stream, size, mime, content).frames
    ensures Sendable(x) && |Wire(x)| > 0 && x != []
    ensures var r := ReplyBehindPump(Wire(x)[..|Wire(x)| - 1], [Chaos.Relay(Image(x[0]))], stream);
            r.result == Ok(Answered(200, FileHeaders(size, mime), size)) && r.body == [0]
  {
    hide ReadReply, ReadAll, Chop, Wire, Chaos.Relayed, Chaos.Output, Chaos.LegalPieces;
    FileShape(stream, size, mime, content);
    OneByteFrames(stream, size, mime, content);
    LastByteCut(x);
    CutDownloadBehindPump(stream, size, mime, content, x, |Wire(x)| - 1, [Chaos.Relay(Image(x[0]))]);
    assert Filled(content[..size], 0) == [0];
  }

  /** One frame without its last byte. */
  lemma LastByteOfHead(x: seq<Frame>)
    requires Sendable(x) && |x| == 1
    ensures |Wire(x)| > 0 && Chop(Wire(x)[..|Wire(x)| - 1]).frames == []
  {
    OneFrameSize(x);
    CutChops(x, |Wire(x)| - 1);
    assert Images(x[..0]) == [];
  }

  /** A status reply whose last byte never came: the server's name then ends in a zero. */
  lemma CutStatusLooksWhole(stream: u32, status: int, x: seq<Frame>)
    requires stream != 0 && ValidStatus(status) && x == StatusExchange(stream, status).frames
    ensures Sendable(x) && |Wire(x)| > 0
    ensures var r := ReplyBehindPump(Wire(x)[..|Wire(x)| - 1], [], stream);
            r == Reply(Ok(Answered(status, [StatusHeaders()[0], Header(SERVER, SERVER_NAME[..7] + [0])], 0)), [], 1)
  {
    hide ReadReply, Wire, BehindPump, Chop, ReadAll, Chaos.Output, Bodiless;
    StatusIsBodiless(status);
    LastByteOfHead(x);
    CutIsRead(x, |Wire(x)| - 1, []);
    CutHeadBehindPump(Response(status, StatusHeaders()), stream, x, |Wire(x)| - 1);
    assert Zeros(1) == [0];
    assert Filled(SERVER_NAME, 7) == SERVER_NAME[..7] + [0];
    assert LastValueFilled(StatusHeaders(), 1) == [StatusHeaders()[0], Header(SERVER, SERVER_NAME[..7] + [0])];
  }
}
