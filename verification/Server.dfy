/** The server's connection loop and file streaming, as loops over a connection. */
module Server {
  import opened Bytes
  import opened Transport
  import opened Frames
  import opened FrameIO
  import opened Headers
  import opened Messages
  import opened MessageIO
  import opened Resolver
  import opened Exchanges

  /** How an attempt to answer a frame ends. */
  datatype Outcome = Answered | BodyBroken | WriteFailed

  /** The sink took all of w, or failed somewhere inside it. */
  twostate predicate Wrote(sink: Sink, w: bytes, ok: bool)
    reads sink
  {
    if ok then sink.out == old(sink.out) + w && sink.failed == old(sink.failed)
    else sink.failed && old(sink.out) <= sink.out <= old(sink.out) + w
  }

  method SendResponse(sink: Sink, stream: u32, status: int, headers: seq<Header>, endStream: bool)
    returns (ok: bool)
    requires stream != 0 && ResponseBuildable(Response(status, headers))
    modifies sink
    ensures Wrote(sink, Image(ResponseFrame(stream, Response(status, headers), endStream)), ok)
  {
    var payload := EncodeResponse(Response(status, headers));
    var f := Frame(RESPONSE, 0, stream, payload.value);
    if endStream {
      f := f.(flags := END_STREAM);
    }
    ok := Write(sink, f);
  }

  method SendStatus(sink: Sink, stream: u32, status: int) returns (ok: bool)
    requires stream != 0 && ValidStatus(status)
    modifies sink
    ensures Wrote(sink, Wire(StatusExchange(stream, status).frames), ok)
  {
    StatusBuilds(status);
    ok := SendResponse(sink, stream, status, StatusHeaders(), true);
    WireOne(ResponseFrame(stream, Response(status, StatusHeaders()), true));
  }

  /** What an attempt to send an exchange may leave on the wire. */
  twostate predicate Delivered(sink: Sink, x: Exchange, r: Outcome)
    requires Sendable(x.frames)
    reads sink
  {
    match r
    case Answered => x.complete && Wrote(sink, Wire(x.frames), true)
    case BodyBroken => !x.complete && Wrote(sink, Wire(x.frames), true)
    case WriteFailed => Wrote(sink, Wire(x.frames), false)
  }

  /** Streams size bytes from an open file: the response, then the body. */
  method SendFile(sink: Sink, stream: u32, file: Source, size: int63, mime: MimeType) returns (r: Outcome)
    requires stream != 0
    modifies sink, file`pending
    ensures Shaped(FileExchange(stream, size, mime, old(file.pending)), stream)
    ensures Delivered(sink, FileExchange(stream, size, mime, old(file.pending)), r)
  {
    FileShape(stream, size, mime, file.pending);
    FileParts(stream, size, mime, file.pending);
    ghost var head, body := Image(FileExchange(stream, size, mime, file.pending).frames[0]),
                            BodyBytes(stream, file.pending, size);
    Assoc(sink.out, head, body);
    var ok := SendResponse(sink, stream, 200, FileHeaders(size, mime), size == 0);
    if !ok {
      return WriteFailed;
    }
    r := SendBody(sink, stream, file, size);
  }

  /** The loop of sendFile: refills one buffer, and marks the frame that uses up the size. */
  method SendBody(sink: Sink, stream: u32, file: Source, size: nat) returns (r: Outcome)
    requires stream != 0
    modifies sink, file`pending
    ensures r.WriteFailed? || (r.Answered? <==> size <= |old(file.pending)|)
    ensures Wrote(sink, BodyBytes(stream, old(file.pending), size), !r.WriteFailed?)
  {
    hide Image;
    ghost var all := BodyBytes(stream, file.pending, size);
    ghost var sent: bytes := [];
    var remaining := size;
    while remaining > 0
      invariant 0 <= remaining <= size
      invariant size <= |old(file.pending)| <==> remaining <= |file.pending|
      invariant all == sent + BodyBytes(stream, file.pending, remaining)
      invariant sink.out == old(sink.out) + sent && sink.failed == old(sink.failed)
    {
      ghost var content := file.pending;
      var n := Min(MAX_PAYLOAD, remaining);
      var chunk, err := file.ReadFull(n);
      if err != NoError {
        return BodyBroken;
      }
      assert chunk == content[..n] && file.pending == content[n..];
      remaining := remaining - |chunk|;
      var f := Frame(DATA, 0, stream, chunk);
      if remaining == 0 {
        f := f.(flags := END_STREAM);
      }
      ghost var rest := BodyBytes(stream, file.pending, remaining);
      Assoc(sent, Image(f), rest);
      InFront(old(sink.out), sent, Image(f), rest);
      var ok := Write(sink, f);
      if !ok {
        return WriteFailed;
      }
      Assoc(old(sink.out), sent, Image(f));
      sent := sent + Image(f);
    }
    return Answered;
  }

  /** The bytes of a body on the wire. */
  ghost function BodyBytes(stream: u32, content: bytes, remaining: nat): bytes
    requires stream != 0
    decreases remaining
  {
    if remaining == 0 then []
    else
      var n := Min(MAX_PAYLOAD, remaining);
      if |content| < n then []
      else Image(Frame(DATA, Flag(n == remaining), stream, content[..n])) + BodyBytes(stream, content[n..], remaining - n)
  }

  lemma {:induction false} BodyBytesAreWire(stream: u32, content: bytes, remaining: nat)
    requires stream != 0
    ensures Sendable(Body(stream, content, remaining).frames)
    ensures BodyBytes(stream, content, remaining) == Wire(Body(stream, content, remaining).frames)
    decreases remaining
  {
    var n := Min(MAX_PAYLOAD, remaining);
    if remaining > 0 && |content| >= n {
      BodyBytesAreWire(stream, content[n..], remaining - n);
      var rest := Body(stream, content[n..], remaining - n).frames;
      var f := Frame(DATA, Flag(n == remaining), stream, content[..n]);
      Halves([f], rest);
      assert Body(stream, content, remaining).frames == [f] + rest;
    }
  }

  /** Part of a write that failed is part of everything that was to be written. */
  lemma InFront(before: bytes, sent: bytes, now: bytes, rest: bytes)
    ensures before + sent <= before + sent + now <= before + (sent + (now + rest))
    ensures before + (sent + (now + rest)) == before + sent + now + rest
  {
    assert before + (sent + (now + rest)) == before + sent + now + rest;
  }

  lemma FileParts(stream: u32, size: int63, mime: MimeType, content: bytes)
    requires stream != 0
    ensures var x := FileExchange(stream, size, mime, content);
            && Sendable(x.frames)
            && ResponseBuildable(Response(200, FileHeaders(size, mime)))
            && x.frames[0] == ResponseFrame(stream, Response(200, FileHeaders(size, mime)), size == 0)
            && Wire(x.frames) == Image(x.frames[0]) + BodyBytes(stream, content, size)
  {
    FileBuilds(size, mime);
    FileShape(stream, size, mime, content);
    BodyBytesAreWire(stream, content, size);
    var x, body := FileExchange(stream, size, mime, content), Body(stream, content, size);
    assert x.frames[1..] == body.frames;
  }

  /** Answers one REQUEST frame; anything the client did wrong becomes a status. */
  method ServeRequest(sink: Sink, f: Frame, fs: FileSystem, root: Place) returns (r: Outcome)
    requires f.typ == REQUEST && f.stream != 0
    modifies sink
    ensures Shaped(Answer(f, Tree(fs, root)), f.stream)
    ensures Delivered(sink, Answer(f, Tree(fs, root)), r)
  {
    hide ParseRequest, Resolve, Wire;
    AnswerShape(f, Tree(fs, root));
    if f.flags - f.flags % 2 != 0 || !EndsStream(f.flags) {
      r := Reject(sink, f.stream);
      return;
    }
    var req := DecodeRequest(f.payload);
    if req.None? {
      r := Reject(sink, f.stream);
      return;
    }
    var found, _ := Resolver.Open(fs, root, req.value.path);
    match found
    case BadPath =>
      r := Reject(sink, f.stream);
    case NotFound =>
      var ok := SendStatus(sink, f.stream, 404);
      r := if ok then Answered else WriteFailed;
    case Failure =>
      var ok := SendStatus(sink, f.stream, 500);
      r := if ok then Answered else WriteFailed;
    case Found(size, mime, content) =>
      var file := new Source(content, Finished);
      r := SendFile(sink, f.stream, file, size, mime);
  }

  method Reject(sink: Sink, stream: u32) returns (r: Outcome)
    requires stream != 0
    modifies sink
    ensures Delivered(sink, StatusExchange(stream, 400), r)
  {
    var ok := SendStatus(sink, stream, 400);
    r := if ok then Answered else WriteFailed;
  }

  /** Reports a connection-level problem; what happens to the connection next is not modelled. */
  method Fail(sink: Sink, code: u16, text: bytes)
    requires |text| <= 255
    modifies sink
    ensures Emitted(old(sink.out), sink, Wire([FaultFrame(code, text)]), old(sink.failed))
  {
    WireOne(FaultFrame(code, text));
    var payload := EncodeConnError(ConnError(code, text));
    if payload.Err? {
      return;
    }
    var _ := Write(sink, Frame(ERROR, 0, 0, payload.value));
  }

  /** The sink has all of w after `before`, or a prefix of it if some write failed. */
  predicate Emitted(before: bytes, sink: Sink, w: bytes, failedBefore: bool)
    reads sink
  {
    && before <= sink.out <= before + w
    && (!failedBefore && !sink.failed ==> sink.out == before + w)
  }

  method OnReadError(sink: Sink, last: ReadResult)
    requires !last.Got?
    modifies sink
    ensures Emitted(old(sink.out), sink, Wire(Farewell(last)), old(sink.failed))
  {
    match last
    case StreamZero =>
      Fail(sink, INVALID_STREAM_ID, STREAM_ZERO_TEXT);
    case Oversize(t, _) =>
      if t == ERROR {
        return;
      }
      Fail(sink, FRAME_TOO_LARGE, TOO_LARGE_TEXT);
    case EndOfStream =>
    case Truncated =>
    case Failed =>
  }

  /** The switch on a frame's type: answers it, and says whether the connection goes on. */
  method Act(sink: Sink, f: Frame, fs: FileSystem, root: Place) returns (goOn: bool)
    requires f.typ != ERROR && f.stream != 0 && !sink.failed
    modifies sink
    ensures Shaped(Answer(f, Tree(fs, root)), f.stream)
    ensures var x := Answer(f, Tree(fs, root));
            && (goOn ==> x.complete && !sink.failed && sink.out == old(sink.out) + Wire(x.frames))
            && (!goOn && x.complete ==> sink.failed && Emitted(old(sink.out), sink, Wire(x.frames), true))
            && (!goOn && !x.complete ==>
                  Emitted(old(sink.out), sink, Wire(x.frames) + Wire([FaultFrame(PROTOCOL_ERROR, CUT_SHORT_TEXT)]), false))
  {
    AnswerShape(f, Tree(fs, root));
    ghost var x, fault := Wire(Answer(f, Tree(fs, root)).frames), Wire([FaultFrame(PROTOCOL_ERROR, CUT_SHORT_TEXT)]);
    Assoc(sink.out, x, fault);
    var outcome;
    if f.typ == REQUEST {
      outcome := ServeRequest(sink, f, fs, root);
    } else {
      outcome := Reject(sink, f.stream);
    }
    if outcome.BodyBroken? {
      Fail(sink, PROTOCOL_ERROR, CUT_SHORT_TEXT);
    }
    return outcome.Answered?;
  }

  /** The body of the loop in handle: reads one frame and acts on it. */
  method Turn(src: Source, sink: Sink, fs: FileSystem, root: Place) returns (goOn: bool, ghost w: bytes)
    requires !sink.failed
    modifies src`pending, sink
    ensures Sendable(Serve(old(src.pending), src.end == Broken, Tree(fs, root)))
    ensures Sendable(Serve(src.pending, src.end == Broken, Tree(fs, root)))
    ensures goOn ==>
              && |src.pending| < |old(src.pending)|
              && Wire(Serve(old(src.pending), src.end == Broken, Tree(fs, root)))
                 == w + Wire(Serve(src.pending, src.end == Broken, Tree(fs, root)))
              && sink.out == old(sink.out) + w && !sink.failed
    ensures !goOn ==> Emitted(old(sink.out), sink, Wire(Serve(old(src.pending), src.end == Broken, Tree(fs, root))), false)
  {
    ghost var s, broken := src.pending, src.end == Broken;
    ServeParts(s, broken, Tree(fs, root));
    var r := Read(src);
    w := [];
    if !r.Got? {
      OnReadError(sink, r);
      return false, w;
    }
    var f := r.frame;
    if f.typ == ERROR {
      return false, w;
    }
    goOn := Act(sink, f, fs, root);
    w := Wire(Answer(f, Tree(fs, root)).frames);
    Assoc(old(sink.out), w, AfterAnswer(s, broken, Tree(fs, root)));
  }

  /** Output that continues a part already sent. */
  lemma Continued(before: bytes, sent: bytes, w: bytes, sink: Sink)
    requires Emitted(before + sent, sink, w, false)
    ensures Emitted(before, sink, sent + w, false)
  {
    Assoc(before, sent, w);
  }

  /**
   One connection for its whole life. Whatever the pieces the input arrives in, the bytes written
   are those of Serve, all of them if the writer never fails and otherwise a prefix.
   */
  method Handle(src: Source, sink: Sink, fs: FileSystem, root: Place)
    requires !sink.failed
    modifies src`pending, sink
    ensures Sendable(Serve(old(src.pending), src.end == Broken, Tree(fs, root)))
    ensures Emitted(old(sink.out), sink, Wire(Serve(old(src.pending), src.end == Broken, Tree(fs, root))), false)
  {
    ghost var broken := src.end == Broken;
    OutputIsSendable(src.pending, broken, Tree(fs, root));
    ghost var all := Wire(Serve(src.pending, broken, Tree(fs, root)));
    ghost var sent: bytes := [];
    while true
      invariant !sink.failed
      invariant Sendable(Serve(src.pending, broken, Tree(fs, root)))
      invariant all == sent + Wire(Serve(src.pending, broken, Tree(fs, root)))
      invariant sink.out == old(sink.out) + sent
      decreases |src.pending|
    {
      ghost var rest := Wire(Serve(src.pending, broken, Tree(fs, root)));
      var goOn, w := Turn(src, sink, fs, root);
      if !goOn {
        Continued(old(sink.out), sent, rest, sink);
        return;
      }
      Assoc(old(sink.out), sent, w);
      Assoc(sent, w, Wire(Serve(src.pending, broken, Tree(fs, root))));
      sent := sent + w;
    }
  }

  /** What follows the first answer in the output: the rest of the run, or the ERROR for a cut body. */
  ghost function AfterAnswer(s: bytes, broken: bool, tree: FileTree): bytes
    requires Next(s, broken).0.Got?
  {
    OutputIsSendable(Next(s, broken).1, broken, tree);
    if Answer(Next(s, broken).0.frame, tree).complete then Wire(Serve(Next(s, broken).1, broken, tree))
    else Wire([FaultFrame(PROTOCOL_ERROR, CUT_SHORT_TEXT)])
  }

  lemma ServeParts(s: bytes, broken: bool, tree: FileTree)
    ensures Sendable(Serve(s, broken, tree)) && Sendable(Serve(Next(s, broken).1, broken, tree))
    ensures var next := Next(s, broken); var out := Wire(Serve(s, broken, tree));
            && (!next.0.Got? ==> out == Wire(Farewell(next.0)))
            && (next.0.Got? && next.0.frame.typ == ERROR ==> out == [])
            && (next.0.Got? && next.0.frame.typ != ERROR ==>
                  && Shaped(Answer(next.0.frame, tree), next.0.frame.stream)
                  && out == Wire(Answer(next.0.frame, tree).frames) + AfterAnswer(s, broken, tree))
  {
    var next := Next(s, broken);
    OutputIsSendable(s, broken, tree);
    OutputIsSendable(next.1, broken, tree);
    if next.0.Got? && next.0.frame.typ != ERROR {
      var x := Answer(next.0.frame, tree);
      AnswerShape(next.0.frame, tree);
      if x.complete {
        WireAppend(x.frames, Serve(next.1, broken, tree));
      } else {
        WireAppend(x.frames, [FaultFrame(PROTOCOL_ERROR, CUT_SHORT_TEXT)]);
      }
    }
  }
}
