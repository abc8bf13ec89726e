/** What a client makes of the bytes a server sends: the response rules, as a function of the stream. */
module Replies {
  import opened Bytes
  import opened Frames
  import opened Headers
  import opened Messages
  import opened Lengths
  import opened Exchanges

  datatype ClientError =
    | AlreadyBroken | Exhausted | CannotBuild(why: EncodeError) | SendFailed
    | Remote(report: ConnError) | RemoteUnreadable
    | ServerSentRequest | UnexpectedFrame | ServerUsedStreamZero | ServerFrameTooLarge
    | ClosedEarly | ReadFailed
    | BadResponse | BadLength | BodyWriteFailed

  datatype Answered = Answered(status: int, headers: seq<Header>, bodyBytes: nat)

  const SENT_REQUEST_TEXT: bytes := Ascii("unexpected request from server")

  /** The faults a client answers with an ERROR of its own. */
  datatype Alarm = StreamZeroAlarm | TooLargeAlarm | RequestAlarm

  function AlarmFrame(a: Alarm): Frame {
    match a
    case StreamZeroAlarm => FaultFrame(INVALID_STREAM_ID, STREAM_ZERO_TEXT)
    case TooLargeAlarm => FaultFrame(FRAME_TOO_LARGE, TOO_LARGE_TEXT)
    case RequestAlarm => FaultFrame(PROTOCOL_ERROR, SENT_REQUEST_TEXT)
  }

  /** Why there is no result: the error reported to the caller, and the ERROR owed to the server. */
  datatype Refusal = Refusal(error: ClientError, alarm: Option<Alarm>)

  /** readFrame: what stands in the way of a frame. */
  function ReadRefusal(r: ReadResult): Refusal
    requires !r.Got?
  {
    match r
    case StreamZero => Refusal(ServerUsedStreamZero, Some(StreamZeroAlarm))
    case Oversize(t, _) => Refusal(ServerFrameTooLarge, if t == ERROR then None else Some(TooLargeAlarm))
    case EndOfStream => Refusal(ClosedEarly, None)
    case Truncated => Refusal(ClosedEarly, None)
    case Failed => Refusal(ReadFailed, None)
  }

  function RemoteError(f: Frame): ClientError {
    var e := ParseError(f.payload);
    if e.Some? then Remote(e.value) else RemoteUnreadable
  }

  /** expect: whether a frame is of the kind and on the stream waited for. */
  function Expected(f: Frame, want: byte, id: u32): Option<Refusal> {
    if f.typ == ERROR then Some(Refusal(RemoteError(f), None))
    else if f.typ == REQUEST then Some(Refusal(ServerSentRequest, Some(RequestAlarm)))
    else if f.typ != want || f.stream != id then Some(Refusal(UnexpectedFrame, None))
    else None
  }

  /** The outcome of reading one reply: the result or the refusal, the body written, the frames used. */
  datatype Reply = Reply(result: Result<Answered, Refusal>, body: bytes, used: nat)

  /** The last check: every promised length has to be the length that arrived. */
  function Judged(resp: Response, got: nat): Result<Answered, Refusal> {
    if LengthsAgree(resp.headers, got) then Ok(Answered(resp.status, resp.headers, got))
    else Err(Refusal(BadLength, None))
  }

  /** The DATA frames up to END_STREAM; `got` bytes of body have arrived before. */
  function ReadBody(frames: seq<Frame>, last: ReadResult, id: u32, resp: Response, got: nat): (r: Reply)
    requires !last.Got?
    ensures r.used <= |frames|
  {
    if frames == [] then Reply(Err(ReadRefusal(last)), [], 0)
    else
      var f := frames[0];
      var no := Expected(f, DATA, id);
      if no.Some? then Reply(Err(no.value), [], 1)
      else if EndsStream(f.flags) then Reply(Judged(resp, got + |f.payload|), f.payload, 1)
      else
        var more := ReadBody(frames[1..], last, id, resp, got + |f.payload|);
        Reply(more.result, f.payload + more.body, 1 + more.used)
  }

  /** readResponse on stream id, given what reading the connection yields. */
  function ReadReply(r: Reading, id: u32): (reply: Reply)
    requires !r.last.Got?
    ensures reply.used <= |r.frames|
  {
    if r.frames == [] then Reply(Err(ReadRefusal(r.last)), [], 0)
    else
      var f := r.frames[0];
      var no := Expected(f, RESPONSE, id);
      if no.Some? then Reply(Err(no.value), [], 1)
      else
        var resp := ParseResponse(f.payload);
        if resp.None? then Reply(Err(Refusal(BadResponse, None)), [], 1)
        else if EndsStream(f.flags) then Reply(Judged(resp.value, 0), [], 1)
        else
          var body := ReadBody(r.frames[1..], r.last, id, resp.value, 0);
          Reply(body.result, body.body, 1 + body.used)
  }

  // ---- an ERROR is never answered ----

  lemma {:induction false} BodyAlarmMeansNoError(frames: seq<Frame>, last: ReadResult, id: u32, resp: Response, got: nat)
    requires !last.Got?
    ensures var r := ReadBody(frames, last, id, resp, got);
            r.result.Err? && r.result.error.alarm.Some? ==>
              && (forall i :: 0 <= i < r.used ==> frames[i].typ != ERROR)
              && (last.Oversize? && last.typ == ERROR ==> 0 < r.used && frames[r.used - 1].typ == REQUEST)
  {
    if frames != [] {
      BodyAlarmMeansNoError(frames[1..], last, id, resp, got + |frames[0].payload|);
    }
  }

  /** A client that sends an ERROR has received none: the frames it used hold no ERROR. */
  lemma AlarmMeansNoError(r: Reading, id: u32)
    requires !r.last.Got?
    requires var reply := ReadReply(r, id); reply.result.Err? && reply.result.error.alarm.Some?
    ensures var reply := ReadReply(r, id);
            && (forall i :: 0 <= i < reply.used ==> r.frames[i].typ != ERROR)
            && (r.last.Oversize? && r.last.typ == ERROR ==> 0 < reply.used && r.frames[reply.used - 1].typ == REQUEST)
  {
    if r.frames != [] && Expected(r.frames[0], RESPONSE, id).None? {
      BodyAlarmMeansNoError(r.frames[1..], r.last, id, ParseResponse(r.frames[0].payload).value, 0);
    }
  }

  // ---- a reply cut short is never taken for a whole one ----

  /** Reading stopped because the connection did. */
  predicate Ended(last: ReadResult) {
    last in {EndOfStream, Truncated, Failed}
  }

  /** A reply that failed because the connection ended, with no more than `body` written. */
  predicate EndedEarly(r: Reply, body: bytes) {
    && r.result.Err? && r.result.error.error in {ClosedEarly, ReadFailed}
    && r.result.error.alarm.None?
    && r.body <= body
  }

  lemma {:induction false} CutBodyFails(frames: seq<Frame>, last: ReadResult, j: nat, cutLast: ReadResult,
                                        id: u32, resp: Response, got: nat)
    requires !last.Got? && Ended(cutLast)
    requires var whole := ReadBody(frames, last, id, resp, got); whole.result.Ok? && j < whole.used
    ensures EndedEarly(ReadBody(frames[..j], cutLast, id, resp, got), ReadBody(frames, last, id, resp, got).body)
  {
    if j > 0 {
      CutBodyFails(frames[1..], last, j - 1, cutLast, id, resp, got + |frames[0].payload|);
      assert frames[..j][1..] == frames[1..][..j - 1];
    }
  }

  lemma CutFramesFail(r: Reading, j: nat, cutLast: ReadResult, id: u32)
    requires !r.last.Got? && Ended(cutLast)
    requires ReadReply(r, id).result.Ok? && j < ReadReply(r, id).used
    ensures EndedEarly(ReadReply(Reading(r.frames[..j], cutLast), id), ReadReply(r, id).body)
  {
    if j > 0 {
      var resp := ParseResponse(r.frames[0].payload).value;
      CutBodyFails(r.frames[1..], r.last, j - 1, cutLast, id, resp, 0);
      assert r.frames[..j][1..] == r.frames[1..][..j - 1];
    }
  }

  /** What is left of a stream once n frames have been read from it. */
  function After(s: bytes, n: nat): bytes
    decreases n
  {
    if n == 0 then s else After(Next(s, false).1, n - 1)
  }

  /** Inside the first frame nothing but the end is read. */
  lemma ShortOfFirst(s: bytes, k: nat, brokenThere: bool)
    requires StartsWhole(s) && k < FirstLength(s)
    ensures Ended(Next(s[..k], brokenThere).0)
  {
    var raw := s[..FirstLength(s)];
    assert raw[0..4] == s[0..4];
    StrictPrefixIsNoFrame(raw, k);
    assert s[..k] == raw[..k];
  }

  /** A cut behind the first frame leaves it in front. */
  lemma FirstOfPrefix(s: bytes, k: nat)
    requires StartsWhole(s) && FirstLength(s) <= k <= |s|
    ensures var n := FirstLength(s);
            && StartsWhole(s[..k]) && FirstLength(s[..k]) == n
            && s[..k][..n] == s[..n] && s[..k][n..] == s[n..][..k - n]
  {
    assert s[..k][0..4] == s[0..4];
  }

  /** The next frame of a stream cut after k bytes: the same frame, or none because the stream ended. */
  lemma {:induction false} NextOfPrefix(s: bytes, k: nat, broken: bool, brokenThere: bool)
    requires k <= |s| && Next(s, broken).0.Got?
    ensures Next(s, false) == Next(s, broken) && |Next(s, broken).1| <= |s|
    ensures |s| - |Next(s, broken).1| <= k ==>
              Next(s[..k], brokenThere) == (Next(s, broken).0, Next(s, broken).1[..k - (|s| - |Next(s, broken).1|)])
    ensures k < |s| - |Next(s, broken).1| ==> Ended(Next(s[..k], brokenThere).0)
    decreases |s|
  {
    hide Oversized;
    hide StartsWhole, FirstLength, Oversized;
    var n := FirstLength(s);
    var raw := s[..n];
    if k < n {
      ShortOfFirst(s, k, brokenThere);
      if !Known(raw[4]) {
        NextOfPrefix(s[n..], 0, broken, brokenThere);
      }
    } else {
      FirstOfPrefix(s, k);
      if !Known(raw[4]) {
        NextOfPrefix(s[n..], k - n, broken, brokenThere);
      }
    }
  }

  lemma ReadAllStep(s: bytes, broken: bool)
    requires Next(s, broken).0.Got?
    ensures var next := Next(s, broken); var more := ReadAll(next.1, broken);
            ReadAll(s, broken) == Reading([next.0.frame] + more.frames, more.last)
  {
  }

  /** Reading `cut` is reading `whole` stopped short of its n-th frame by the end of the connection. */
  predicate StoppedShort(cut: Reading, whole: Reading, n: nat) {
    |cut.frames| < n && Ended(cut.last) && cut.frames <= whole.frames
  }

  lemma ShortStep(f: Frame, cut: Reading, whole: Reading, n: nat)
    requires StoppedShort(cut, whole, n)
    ensures StoppedShort(Reading([f] + cut.frames, cut.last), Reading([f] + whole.frames, whole.last), n + 1)
  {
  }

  lemma ReadAllStops(s: bytes, broken: bool)
    requires !Next(s, broken).0.Got?
    ensures ReadAll(s, broken) == Reading([], Next(s, broken).0)
  {
  }

  /** A cut inside the first frame: nothing is read before the end. */
  lemma StopsAtOnce(s: bytes, k: nat, broken: bool, brokenThere: bool)
    requires Next(s, broken).0.Got? && k < |s| - |Next(s, broken).1|
    ensures var cut := ReadAll(s[..k], brokenThere); cut.frames == [] && Ended(cut.last)
  {
    NextOfPrefix(s, k, broken, brokenThere);
    ReadAllStops(s[..k], brokenThere);
  }

  /** A cut behind the first frame: that frame is read, and then what a cut of the rest gives. */
  lemma StopsLater(s: bytes, k: nat, n: nat, broken: bool, brokenThere: bool)
    requires Next(s, broken).0.Got? && |s| - |Next(s, broken).1| <= k <= |s| && n > 0
    requires var next := Next(s, broken); var used := |s| - |next.1|;
             && used >= 0
             && StoppedShort(ReadAll(next.1[..k - used], brokenThere), ReadAll(next.1, broken), n - 1)
    ensures StoppedShort(ReadAll(s[..k], brokenThere), ReadAll(s, broken), n)
  {
    var next := Next(s, broken);
    NextOfPrefix(s, k, broken, brokenThere);
    ReadAllStep(s, broken);
    ReadAllStep(s[..k], brokenThere);
    ShortStep(next.0.frame, ReadAll(next.1[..k - (|s| - |next.1|)], brokenThere), ReadAll(next.1, broken), n - 1);
  }

  /** Cut a stream inside its first n frames: fewer than n of them are read, and then the end. */
  lemma {:induction false} ReadingOfPrefix(s: bytes, k: nat, n: nat, broken: bool, brokenThere: bool)
    requires n <= |ReadAll(s, broken).frames| && |After(s, n)| <= |s|
    requires k < |s| - |After(s, n)|
    ensures StoppedShort(ReadAll(s[..k], brokenThere), ReadAll(s, broken), n)
    decreases n
  {
    hide Next;
    var next := Next(s, broken);
    var used := |s| - |next.1|;
    NextOfPrefix(s, 0, broken, brokenThere);
    if k < used {
      StopsAtOnce(s, k, broken, brokenThere);
    } else {
      ReadAllStep(s, broken);
      ReadingOfPrefix(next.1, k - used, n - 1, broken, brokenThere);
      StopsLater(s, k, n, broken, brokenThere);
    }
  }

  lemma {:induction false} AfterIsShorter(s: bytes, n: nat, broken: bool)
    requires n <= |ReadAll(s, broken).frames|
    ensures |After(s, n)| <= |s|
    decreases n
  {
    if n > 0 {
      NextOfPrefix(s, 0, broken, broken);
      AfterIsShorter(Next(s, broken).1, n - 1, broken);
    }
  }

  /**
   A truncated transfer never looks complete: cut the bytes of any accepted reply anywhere and the
   client reports that the connection ended, having written no more than a prefix of the body.
   */
  lemma TruncatedReplyFails(s: bytes, k: nat, broken: bool, brokenThere: bool, id: u32)
    requires var whole := ReadReply(ReadAll(s, broken), id);
             whole.result.Ok? && k < |s| - |After(s, whole.used)|
    ensures EndedEarly(ReadReply(ReadAll(s[..k], brokenThere), id), ReadReply(ReadAll(s, broken), id).body)
  {
    var r := ReadAll(s, broken);
    var whole := ReadReply(r, id);
    AfterIsShorter(s, whole.used, broken);
    var cut := ReadAll(s[..k], brokenThere);
    ReadingOfPrefix(s, k, whole.used, broken, brokenThere);
    assert cut.frames == r.frames[..|cut.frames|];
    CutFramesFail(r, |cut.frames|, cut.last, id);
  }
}
