/** The client: stream ids, the flags that end a connection, and the response state machine. */
module Client {
  import opened Bytes
  import opened Transport
  import opened Frames
  import opened FrameIO
  import opened Headers
  import opened Messages
  import opened MessageIO
  import opened Lengths
  import opened Exchanges
  import opened Replies

  const LAST_ID: u32 := 0xFFFF_FFFF

  /** What a refusal makes the client send. */
  function Alarms(r: Refusal): seq<Frame> {
    if r.alarm.Some? then [AlarmFrame(r.alarm.value)] else []
  }

  function Reported(r: Result<Answered, Refusal>): Result<Answered, ClientError> {
    if r.Ok? then Ok(r.value) else Err(r.error.error)
  }

  function AlarmsOf(r: Result<Answered, Refusal>): seq<Frame> {
    if r.Ok? then [] else Alarms(r.error)
  }

  /** What reading the body from here will come to. */
  function BodyAhead(s: bytes, brk: bool, id: u32, resp: Response, got: nat): Reply {
    ReadBody(ReadAll(s, brk).frames, ReadAll(s, brk).last, id, resp, got)
  }

  /** What reading the reply on stream id will come to. */
  function ReplyAhead(s: bytes, brk: bool, id: u32): Reply {
    ReadReply(ReadAll(s, brk), id)
  }

  lemma AfterOne(s: bytes, brk: bool)
    requires Next(s, brk).0.Got?
    ensures After(s, 1) == Next(s, brk).1
    ensures forall n: nat :: After(s, n + 1) == After(Next(s, brk).1, n)
  {
    NextOfPrefix(s, 0, brk, brk);
  }

  /** A DATA frame that does not end the stream: its payload, and then the rest of the body. */
  lemma BodyGoesOn(s: bytes, brk: bool, id: u32, resp: Response, got: nat)
    requires Next(s, brk).0.Got? && Expected(Next(s, brk).0.frame, DATA, id).None?
    requires !EndsStream(Next(s, brk).0.frame.flags)
    ensures var payload, rest := Next(s, brk).0.frame.payload, Next(s, brk).1;
            var more := BodyAhead(rest, brk, id, resp, got + |payload|);
            && BodyAhead(s, brk, id, resp, got) == Reply(more.result, payload + more.body, 1 + more.used)
            && After(s, 1 + more.used) == After(rest, more.used)
  {
    ReadAllStep(s, brk);
    AfterOne(s, brk);
    Halves([Next(s, brk).0.frame], ReadAll(Next(s, brk).1, brk).frames);
  }

  /** Every other way a body ends. */
  lemma BodyEnds(s: bytes, brk: bool, id: u32, resp: Response, got: nat)
    ensures var next, r := Next(s, brk), BodyAhead(s, brk, id, resp, got);
            if !next.0.Got? then r == Reply(Err(ReadRefusal(next.0)), [], 0)
            else
              && r == ReadBody([next.0.frame] + ReadAll(next.1, brk).frames, ReadAll(next.1, brk).last, id, resp, got)
              && After(s, 1) == next.1
  {
    if Next(s, brk).0.Got? {
      ReadAllStep(s, brk);
      AfterOne(s, brk);
    }
  }

  /** What the first frame of a body decides by itself. */
  lemma FrameDecides(f: Frame, more: seq<Frame>, last: ReadResult, id: u32, resp: Response, got: nat)
    requires !last.Got?
    ensures var r := ReadBody([f] + more, last, id, resp, got);
            && (Expected(f, DATA, id).Some? ==> r == Reply(Err(Expected(f, DATA, id).value), [], 1))
            && (Expected(f, DATA, id).None? && EndsStream(f.flags) ==>
                  r == Reply(Judged(resp, got + |f.payload|), f.payload, 1))
  {
    Halves([f], more);
  }

  lemma BodyDecides(s: bytes, brk: bool, id: u32, resp: Response, got: nat)
    ensures var next, r := Next(s, brk), BodyAhead(s, brk, id, resp, got);
            if !next.0.Got? then r == Reply(Err(ReadRefusal(next.0)), [], 0)
            else if Expected(next.0.frame, DATA, id).Some? then
              r == Reply(Err(Expected(next.0.frame, DATA, id).value), [], 1)
            else EndsStream(next.0.frame.flags) ==>
              && r == Reply(Judged(resp, got + |next.0.frame.payload|), next.0.frame.payload, 1)
              && After(s, 1) == next.1
  {
    BodyEnds(s, brk, id, resp, got);
    if Next(s, brk).0.Got? {
      var next, more := Next(s, brk), ReadAll(Next(s, brk).1, brk);
      FrameDecides(next.0.frame, more.frames, more.last, id, resp, got);
    }
  }

  /** The RESPONSE, and then the body. */
  lemma ReplyBegins(s: bytes, brk: bool, id: u32)
    ensures var next, r := Next(s, brk), ReplyAhead(s, brk, id);
            if !next.0.Got? then r == Reply(Err(ReadRefusal(next.0)), [], 0)
            else if Expected(next.0.frame, RESPONSE, id).Some? then
              r == Reply(Err(Expected(next.0.frame, RESPONSE, id).value), [], 1)
            else
              var resp := ParseResponse(next.0.frame.payload);
              if resp.None? then r == Reply(Err(Refusal(BadResponse, None)), [], 1)
              else if EndsStream(next.0.frame.flags) then
                r == Reply(Judged(resp.value, 0), [], 1) && After(s, 1) == next.1
              else
                var body := BodyAhead(next.1, brk, id, resp.value, 0);
                && r == Reply(body.result, body.body, 1 + body.used)
                && After(s, 1 + body.used) == After(next.1, body.used)
  {
    hide Next, ParseResponse, LengthsAgree, Judged;
    if Next(s, brk).0.Got? {
      ReadAllStep(s, brk);
      AfterOne(s, brk);
      Halves([Next(s, brk).0.frame], ReadAll(Next(s, brk).1, brk).frames);
    }
  }

  /**
   How a reply shows outside: the result, the body writer's bytes before and after, whether that
   writer failed, the frames sent meanwhile, and the bytes left unread.
   */
  predicate Shows(reply: Reply, left: bytes, r: Result<Answered, ClientError>,
                  out: bytes, outNow: bytes, failed: bool, said: seq<Frame>, pending: bytes) {
    if failed then
      r == Err(BodyWriteFailed) && said == [] && out <= outNow <= out + reply.body
    else
      && r == Reported(reply.result)
      && said == AlarmsOf(reply.result)
      && outNow == out + reply.body
      && (r.Ok? ==> pending == left)
  }

  /** What shows of a body shows of the whole body that began with `first`. */
  lemma ShowsWhole(more: Reply, reply: Reply, first: bytes, left: bytes, r: Result<Answered, ClientError>,
                   out: bytes, outNow: bytes, failed: bool, said: seq<Frame>, pending: bytes)
    requires Shows(more, left, r, out + first, outNow, failed, said, pending)
    requires reply.result == more.result && reply.body == first + more.body
    ensures Shows(reply, left, r, out, outNow, failed, said, pending)
  {
    Assoc(out, first, more.body);
    assert out <= out + first;
  }

  // ---- the frames sent so far ----

  predicate AskedOn(sent: seq<Frame>, id: int) {
    exists i :: 0 <= i < |sent| && sent[i].typ == REQUEST && sent[i].stream == id
  }

  /** Ids of REQUESTs are positive, strictly increasing and below the limit. */
  predicate IdsIncrease(sent: seq<Frame>, limit: int) {
    && (forall i :: 0 <= i < |sent| && sent[i].typ == REQUEST ==> 0 < sent[i].stream < limit)
    && (forall i, j :: 0 <= i < j < |sent| && sent[i].typ == REQUEST && sent[j].typ == REQUEST ==>
          sent[i].stream < sent[j].stream)
  }

  /** Every id below the limit was sent in a REQUEST or lost to a request that could not be built. */
  predicate GapsExplained(sent: seq<Frame>, burned: set<int>, limit: int) {
    forall id :: 0 < id < limit && id !in burned ==> AskedOn(sent, id)
  }

  /** Only REQUESTs are sent, and at most one ERROR, last, on a connection given up. */
  predicate AtMostOneError(sent: seq<Frame>, broken: bool) {
    && (forall i :: 0 <= i < |sent| ==> sent[i].typ == REQUEST || sent[i].typ == ERROR)
    && (forall i :: 0 <= i < |sent| && sent[i].typ == ERROR ==> i == |sent| - 1 && broken)
  }

  predicate History(sent: seq<Frame>, burned: set<int>, limit: int, broken: bool) {
    IdsIncrease(sent, limit) && GapsExplained(sent, burned, limit) && AtMostOneError(sent, broken)
  }

  /** The new request keeps the ids in order and leaves no gap. */
  lemma HistoryOfRequest(sent: seq<Frame>, burned: set<int>, ask: Frame)
    requires ask.typ == REQUEST && ask.stream > 0 && History(sent, burned, ask.stream, false)
    ensures History(sent + [ask], burned, ask.stream + 1, false)
  {
    forall id | 0 < id < ask.stream + 1 && id !in burned ensures AskedOn(sent + [ask], id) {
      if id == ask.stream {
        assert (sent + [ask])[|sent|] == ask;
      } else {
        assert AskedOn(sent, id);
        var i :| 0 <= i < |sent| && sent[i].typ == REQUEST && sent[i].stream == id;
        assert (sent + [ask])[i] == sent[i];
      }
    }
  }

  lemma HistoryOfOutcome(sent: seq<Frame>, burned: set<int>, limit: int, r: Result<Answered, Refusal>)
    requires History(sent, burned, limit, false)
    ensures History(sent + AlarmsOf(r), burned, limit, r.Err?)
  {
    var more := AlarmsOf(r);
    assert forall i :: 0 <= i < |more| ==> more[i].typ == ERROR;
    forall id | 0 < id < limit && id !in burned ensures AskedOn(sent + more, id) {
      assert AskedOn(sent, id);
      var i :| 0 <= i < |sent| && sent[i].typ == REQUEST && sent[i].stream == id;
      assert (sent + more)[i] == sent[i];
    }
  }

  /** An id lost to a request that could not be built leaves an explained gap. */
  lemma HistoryOfBurn(sent: seq<Frame>, burned: set<int>, limit: int)
    requires History(sent, burned, limit, false)
    ensures History(sent, burned + {limit}, limit + 1, false)
  {
  }

  lemma HistoryOfShown(sent: seq<Frame>, burned: set<int>, limit: int, reply: Reply, left: bytes,
                       r: Result<Answered, ClientError>, out: bytes, outNow: bytes, failed: bool,
                       said: seq<Frame>, pending: bytes)
    requires History(sent, burned, limit, false)
    requires Shows(reply, left, r, out, outNow, failed, said, pending)
    ensures History(sent + said, burned, limit, r.Err?)
  {
    HistoryOfOutcome(sent, burned, limit, if failed then Err(Refusal(BodyWriteFailed, None)) else reply.result);
  }

  class Client {
    const src: Source
    const sink: Sink
    var next: u32
    var exhausted: bool
    var broken: bool

    /** Every frame handed to the connection, in order. */
    ghost var sent: seq<Frame>
    /** The ids of requests that could not be built. */
    ghost var burned: set<int>

    /** The first id not used up yet. */
    ghost function Limit(): int
      reads this
    {
      if exhausted then LAST_ID + 1 else next
    }

    /** The bytes on the wire are those of the frames sent, short only by what a failed write lost. */
    ghost predicate Synced()
      reads this, sink
    {
      && Sendable(sent)
      && sink.out <= Wire(sent)
      && (!sink.failed ==> sink.out == Wire(sent))
    }

    ghost predicate Valid()
      reads this, sink
    {
      && next > 0
      && (exhausted ==> next == LAST_ID)
      && Synced() && History(sent, burned, Limit(), broken)
      && (!broken ==> !sink.failed)
    }

    constructor (src: Source, sink: Sink)
      requires sink.out == [] && !sink.failed
      ensures Valid() && !broken && !exhausted && next == 1
      ensures this.src == src && this.sink == sink && sent == []
    {
      this.src := src;
      this.sink := sink;
      next := 1;
      exhausted := false;
      broken := false;
      sent := [];
      burned := {};
    }

    /** Sends one frame and remembers it. */
    method Send(f: Frame) returns (ok: bool)
      requires Encodable(f) && Synced() && !sink.failed
      modifies sink, `sent
      ensures Synced() && sent == old(sent) + [f] && ok == !sink.failed
    {
      ok := Write(sink, f);
      WireOne(f);
      WireAppend(sent, [f]);
      sent := sent + [f];
    }

    /** Best effort: the connection is about to be dropped anyway. */
    method SendError(a: Alarm)
      requires Synced() && !sink.failed
      modifies sink, `sent
      ensures Synced() && sent == old(sent) + [AlarmFrame(a)]
    {
      var e := match a
        case StreamZeroAlarm => ConnError(INVALID_STREAM_ID, STREAM_ZERO_TEXT)
        case TooLargeAlarm => ConnError(FRAME_TOO_LARGE, TOO_LARGE_TEXT)
        case RequestAlarm => ConnError(PROTOCOL_ERROR, SENT_REQUEST_TEXT);
      var payload := EncodeConnError(e);
      var _ := Send(Frame(ERROR, 0, 0, payload.value));
    }

    method ReadFrame() returns (r: Result<Frame, ClientError>)
      requires Synced() && !sink.failed
      modifies src`pending, sink, `sent
      ensures Synced()
      ensures src.pending == Next(old(src.pending), src.end == Broken).1
      ensures var read := Next(old(src.pending), src.end == Broken).0;
              if read.Got? then r == Ok(read.frame) && sent == old(sent) && !sink.failed
              else r == Err(ReadRefusal(read).error) && sent == old(sent) + Alarms(ReadRefusal(read))
    {
      var f := FrameIO.Read(src);
      match f
      case Got(frame) =>
        return Ok(frame);
      case StreamZero =>
        SendError(StreamZeroAlarm);
        return Err(ServerUsedStreamZero);
      case Oversize(t, _) =>
        if t != ERROR {
          SendError(TooLargeAlarm);
        }
        return Err(ServerFrameTooLarge);
      case EndOfStream =>
        return Err(ClosedEarly);
      case Truncated =>
        return Err(ClosedEarly);
      case Failed =>
        return Err(ReadFailed);
    }

    /** Confirms a frame is of the kind waited for, on the right stream. */
    method Expect(f: Frame, want: byte, id: u32) returns (e: Option<ClientError>)
      requires Synced() && !sink.failed
      modifies sink, `sent
      ensures Synced()
      ensures var no := Expected(f, want, id);
              if no.None? then e == None && sent == old(sent) && !sink.failed
              else e == Some(no.value.error) && sent == old(sent) + Alarms(no.value)
    {
      if f.typ == ERROR {
        var report := DecodeConnError(f.payload);
        return Some(if report.Some? then Remote(report.value) else RemoteUnreadable);
      }
      if f.typ == REQUEST {
        SendError(RequestAlarm);
        return Some(ServerSentRequest);
      }
      if f.typ != want || f.stream != id {
        return Some(UnexpectedFrame);
      }
      return None;
    }

    /** The next frame, if it is the one waited for: readFrame and then expect. */
    method Await(want: byte, id: u32) returns (r: Result<Frame, ClientError>)
      requires Synced() && !sink.failed
      modifies src`pending, sink, `sent
      ensures Synced()
      ensures src.pending == Next(old(src.pending), src.end == Broken).1
      ensures var read := Next(old(src.pending), src.end == Broken).0;
              if !read.Got? then r == Err(ReadRefusal(read).error) && sent == old(sent) + Alarms(ReadRefusal(read))
              else if Expected(read.frame, want, id).Some? then
                var no := Expected(read.frame, want, id).value;
                r == Err(no.error) && sent == old(sent) + Alarms(no)
              else r == Ok(read.frame) && sent == old(sent) && !sink.failed
    {
      var f := ReadFrame();
      if f.Err? {
        return f;
      }
      var e := Expect(f.value, want, id);
      if e.Some? {
        return Err(e.value);
      }
      return f;
    }

    /**
     readResponse: the result, the body, the ERROR sent and the bytes left are those of the reply
     that lies ahead in the stream, whatever pieces it arrives in.
     */
    method ReadResponse(id: u32, body: Sink) returns (r: Result<Answered, ClientError>)
      requires Synced() && !sink.failed && body != sink && !body.failed
      modifies src`pending, sink, `sent, body
      ensures Synced() && (r.Ok? ==> !sink.failed)
      ensures old(sent) <= sent
      ensures var reply := ReplyAhead(old(src.pending), src.end == Broken, id);
              Shows(reply, After(old(src.pending), reply.used), r, old(body.out), body.out, body.failed,
                    sent[|old(sent)|..], src.pending)
    {
      ReplyBegins(src.pending, src.end == Broken, id);
      assert body.out + [] == body.out;
      var f := Await(RESPONSE, id);
      if f.Err? {
        return Err(f.error);
      }
      var resp := DecodeResponse(f.value.payload);
      if resp.None? {
        return Err(BadResponse);
      }
      if EndsStream(f.value.flags) {
        r := Finish(resp.value, 0);
      } else {
        r := ReadBodyFrames(id, resp.value, body);
      }
    }

    /** The last step of readResponse. */
    method Finish(resp: Response, got: nat) returns (r: Result<Answered, ClientError>)
      ensures r == Reported(Judged(resp, got))
      ensures AlarmsOf(Judged(resp, got)) == []
    {
      var ok := CheckLength(resp.headers, got);
      if !ok {
        return Err(BadLength);
      }
      return Ok(Answered(resp.status, resp.headers, got));
    }

    /** The DATA frame that ends the stream goes to the body writer. */
    method TakeLast(f: Frame, resp: Response, got: nat, body: Sink) returns (r: Result<Answered, ClientError>)
      requires !body.failed && body != sink
      modifies body
      ensures var judged := Judged(resp, got + |f.payload|);
              if body.failed then
                r == Err(BodyWriteFailed) && old(body.out) <= body.out <= old(body.out) + f.payload
              else r == Reported(judged) && AlarmsOf(judged) == [] && body.out == old(body.out) + f.payload
    {
      var ok := body.WriteAll(f.payload);
      if !ok {
        return Err(BodyWriteFailed);
      }
      r := Finish(resp, got + |f.payload|);
    }

    /** One turn of the loop in readResponse: a DATA frame goes to the body writer. */
    method ReadBodyFrame(id: u32, resp: Response, got: nat, body: Sink)
      returns (done: Option<Result<Answered, ClientError>>, total: nat)
      requires Synced() && !sink.failed && body != sink && !body.failed
      modifies src`pending, sink, `sent, body
      ensures Synced() && old(sent) <= sent
      ensures var reply := BodyAhead(old(src.pending), src.end == Broken, id, resp, got);
              if done.Some? then
                && (done.value.Ok? ==> !sink.failed)
                && Shows(reply, After(old(src.pending), reply.used), done.value, old(body.out), body.out,
                         body.failed, sent[|old(sent)|..], src.pending)
              else
                && !sink.failed && !body.failed && sent == old(sent)
                && |src.pending| < |old(src.pending)| && total >= got
                && (var more := BodyAhead(src.pending, src.end == Broken, id, resp, total);
                    && reply.result == more.result
                    && old(body.out) + reply.body == body.out + more.body
                    && old(body.out) <= body.out
                    && After(old(src.pending), reply.used) == After(src.pending, more.used))
    {
      hide ReadBody, ReadAll, Next, After, Expected, Wire;
      ghost var brk, s := src.end == Broken, src.pending;
      BodyDecides(s, brk, id, resp, got);
      var d := Await(DATA, id);
      assert old(body.out) + [] == old(body.out);
      if d.Err? {
        return Some(Err(d.error)), got;
      }
      var f := d.value;
      total := got + |f.payload|;
      if EndsStream(f.flags) {
        var r := TakeLast(f, resp, got, body);
        return Some(r), total;
      }
      BodyGoesOn(s, brk, id, resp, got);
      Assoc(body.out, f.payload, BodyAhead(src.pending, brk, id, resp, total).body);
      var ok := body.WriteAll(f.payload);
      if !ok {
        return Some(Err(BodyWriteFailed)), total;
      }
      return None, total;
    }

    /** The loop of readResponse: DATA frames until END_STREAM. */
    method ReadBodyFrames(id: u32, resp: Response, body: Sink) returns (r: Result<Answered, ClientError>)
      requires Synced() && !sink.failed && body != sink && !body.failed
      modifies src`pending, sink, `sent, body
      ensures Synced() && (r.Ok? ==> !sink.failed)
      ensures old(sent) <= sent
      ensures var reply := BodyAhead(old(src.pending), src.end == Broken, id, resp, 0);
              Shows(reply, After(old(src.pending), reply.used), r, old(body.out), body.out, body.failed,
                    sent[|old(sent)|..], src.pending)
    {
      ghost var brk := src.end == Broken;
      ghost var reply := BodyAhead(src.pending, brk, id, resp, 0);
      ghost var left := After(src.pending, reply.used);
      var done: Option<Result<Answered, ClientError>> := None;
      var got: nat := 0;
      while done.None?
        invariant Synced() && old(sent) <= sent
        invariant done.None? ==>
                    && !sink.failed && !body.failed && sent == old(sent) && old(body.out) <= body.out
                    && (var more := BodyAhead(src.pending, brk, id, resp, got);
                        && reply.result == more.result
                        && old(body.out) + reply.body == body.out + more.body
                        && left == After(src.pending, more.used))
        invariant done.Some? ==>
                    && (done.value.Ok? ==> !sink.failed)
                    && Shows(reply, left, done.value, old(body.out), body.out, body.failed,
                             sent[|old(sent)|..], src.pending)
        decreases done.None?, |src.pending|
      {
        ghost var more := BodyAhead(src.pending, brk, id, resp, got);
        ghost var first := body.out[|old(body.out)|..];
        Cut(old(body.out), reply.body, body.out, more.body);
        ghost var before := body.out;
        done, got := ReadBodyFrame(id, resp, got, body);
        if done.Some? {
          ShowsWhole(more, reply, first, left, done.value, old(body.out), body.out, body.failed,
                     sent[|old(sent)|..], src.pending);
        }
      }
      r := done.value;
    }

    /**
     One request on stream id is sent, in one frame; then either the connection's writer failed, or
     what shows is the reply that lay ahead.
     */
    twostate predicate Exchanged(id: u32, payload: bytes, body: Sink, r: Result<Answered, ClientError>)
      reads this, src, sink, body
    {
      var reply := ReplyAhead(old(src.pending), src.end == Broken, id);
      && old(sent) < sent && sent[|old(sent)|] == Frame(REQUEST, END_STREAM, id, payload)
      && (|| (r == Err(SendFailed) && sink.failed && |sent| == |old(sent)| + 1 && body.out == old(body.out))
          || Shows(reply, After(old(src.pending), reply.used), r, old(body.out), body.out, body.failed,
                   sent[|old(sent)| + 1..], src.pending))
    }

    /** Sends the request with the id taken for it, and reads the reply: the second half of Get. */
    method Ask(id: u32, payload: bytes, body: Sink) returns (r: Result<Answered, ClientError>)
      requires id > 0 && |payload| <= MAX_PAYLOAD
      requires Synced() && !sink.failed && !broken && body != sink && !body.failed
      requires History(sent, burned, id, false)
      modifies `broken, `sent, src`pending, sink, body
      ensures Synced() && (!broken ==> !sink.failed) && History(sent, burned, id + 1, broken)
      ensures broken <==> r.Err?
      ensures Exchanged(id, payload, body, r)
    {
      hide ReadAll, ReadReply, After, Image, PrintRequest, LengthsAgree, Wire;
      var ask := Frame(REQUEST, END_STREAM, id, payload);
      var ok := Send(ask);
      ghost var asked := sent;
      HistoryOfRequest(old(sent), burned, ask);
      if !ok {
        broken := true;
        return Err(SendFailed);
      }
      ghost var reply := ReplyAhead(src.pending, src.end == Broken, id);
      ghost var left := After(src.pending, reply.used);
      r := ReadResponse(id, body);
      HistoryOfShown(asked, burned, id + 1, reply, left, r, old(body.out), body.out, body.failed,
                     sent[|asked|..], src.pending);
      assert sent == asked + sent[|asked|..];
      if r.Err? {
        broken := true;
      }
    }

    /** Uses up the next id; the last one leaves the counter where it is. */
    method TakeId() returns (id: u32)
      requires !exhausted && next > 0
      modifies `next, `exhausted
      ensures id == old(Limit()) && Limit() == id + 1
      ensures next > 0 && (exhausted ==> next == LAST_ID)
    {
      id := next;
      if id == LAST_ID {
        exhausted := true;
      } else {
        next := next + 1;
      }
    }

    /** Requests a path and streams the body as it arrives. */
    method Get(path: bytes, headers: seq<Header>, body: Sink) returns (r: Result<Answered, ClientError>)
      requires Valid() && body != sink && !body.failed
      modifies this, src`pending, sink, body
      ensures Valid()
      // broken never clears, and nothing is sent once it is set
      ensures old(broken) ==>
                && broken && r == Err(AlreadyBroken)
                && sent == old(sent) && sink.out == old(sink.out) && Limit() == old(Limit())
      // an id is used up by every attempt, and none is left after the last
      ensures !old(broken) && old(exhausted) ==>
                broken && r == Err(Exhausted) && sent == old(sent) && sink.out == old(sink.out)
      ensures !old(broken) && !old(exhausted) ==> Limit() == old(Limit()) + 1
      // a request that cannot be built costs an id and nothing else
      ensures !old(broken) && !old(exhausted) && !Buildable(Request(METHOD_GET, path, headers)) ==>
                && !broken && r.Err? && r.error.CannotBuild?
                && sent == old(sent) && sink.out == old(sink.out) && src.pending == old(src.pending)
                && body.out == old(body.out) && burned == old(burned) + {old(Limit())}
      // otherwise the request goes out, and the reply on its stream decides
      ensures !old(broken) && !old(exhausted) && Buildable(Request(METHOD_GET, path, headers)) ==>
                && burned == old(burned) && (broken <==> r.Err?)
                && Exchanged(old(Limit()), PrintRequest(Request(METHOD_GET, path, headers)), body, r)
    {
      hide PrintRequest, Wire, ReadAll, ReadReply, After;
      if broken {
        return Err(AlreadyBroken);
      }
      if exhausted {
        broken := true;
        return Err(Exhausted);
      }
      var id := TakeId();
      var payload := EncodeRequest(Request(METHOD_GET, path, headers));
      if payload.Err? {
        HistoryOfBurn(sent, burned, id);
        burned := burned + {id as int};
        return Err(CannotBuild(payload.error));
      }
      r := Ask(id, payload.value, body);
    }
  }

  /** What lies between a prefix and the rest. */
  lemma Cut(a: bytes, whole: bytes, b: bytes, rest: bytes)
    requires a <= b && a + whole == b + rest
    ensures b == a + b[|a|..] && whole == b[|a|..] + rest
  {
    Halves(a, whole);
    Assoc(a, b[|a|..], rest);
    Halves(a, b[|a|..] + rest);
  }
}
