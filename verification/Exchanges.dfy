/** What a server owes each frame it accepts, and the shape its whole output must have. */
module Exchanges {
  import opened Bytes
  import opened Frames
  import opened Headers
  import opened Messages
  import opened Lengths
  import opened Resolver

  const SERVER_NAME: bytes := Ascii("bserve/1")

  const FRAME_TOO_LARGE: u16 := 1
  const INVALID_STREAM_ID: u16 := 2
  const PROTOCOL_ERROR: u16 := 3

  /** What every request path leads to. */
  type FileTree = bytes -> Lookup

  /** The tree a resolver presents. */
  function Tree(fs: FileSystem, root: Place): FileTree {
    p => Resolve(fs, root, p)
  }

  /** The frames of one exchange; an exchange whose body could not be read is not complete. */
  datatype Exchange = Exchange(frames: seq<Frame>, complete: bool)

  // ---- responses ----

  function StatusHeaders(): seq<Header> {
    [Header(CONTENT_LENGTH, Ascii("0")), Header(SERVER, SERVER_NAME)]
  }

  function FileHeaders(size: nat, mime: bytes): seq<Header> {
    [Header(CONTENT_TYPE, mime), Header(CONTENT_LENGTH, Decimal(size)), Header(SERVER, SERVER_NAME)]
  }

  lemma {:induction false} BlockSize(rs: seq<Raw>)
    requires forall r | r in rs :: WellFormed(r) && r.id != 0 && |r.value| <= 255
    ensures |PutRaws(rs)| <= 258 * |rs|
  {
    if rs != [] {
      BlockSize(rs[1..]);
    }
  }

  lemma TableHeadersPrint(hs: seq<Header>)
    requires |hs| <= 3
    requires forall h | h in hs :: TableId(h.name).Some? && |h.value| <= 255
    ensures PrintableAll(hs) && |PrintBlock(hs)| <= 1 + 258 * |hs|
  {
    ToRawsWellFormed(hs);
    forall r | r in ToRaws(hs) ensures r.id != 0 && |r.value| <= 255 {
      var i :| 0 <= i < |hs| && ToRaws(hs)[i] == r;
      assert hs[i] in hs;
      TableIsBijective(r.id, hs[i].name);
    }
    BlockSize(ToRaws(hs));
  }

  lemma ServerNamesAreInTable()
    ensures TableId(CONTENT_TYPE) == Some(1)
    ensures TableId(CONTENT_LENGTH) == Some(2)
    ensures TableId(SERVER) == Some(3)
  {
    TableIsBijective(1, CONTENT_TYPE);
    TableIsBijective(2, CONTENT_LENGTH);
    TableIsBijective(3, SERVER);
  }

  lemma StatusBuilds(status: int)
    requires ValidStatus(status)
    ensures ResponseBuildable(Response(status, StatusHeaders()))
  {
    ServerNamesAreInTable();
    TableHeadersPrint(StatusHeaders());
  }

  lemma FileBuilds(size: int63, mime: MimeType)
    ensures ResponseBuildable(Response(200, FileHeaders(size, mime)))
  {
    ServerNamesAreInTable();
    NineteenDigitsIsTight(size);
    TableHeadersPrint(FileHeaders(size, mime));
  }

  function Flag(end: bool): byte {
    if end then END_STREAM else 0
  }

  function ResponseFrame(stream: u32, r: Response, end: bool): (f: Frame)
    requires ResponseBuildable(r)
    ensures stream != 0 ==> Encodable(f)
  {
    Frame(RESPONSE, Flag(end), stream, PrintResponse(r))
  }

  function StatusExchange(stream: u32, status: int): Exchange
    requires ValidStatus(status)
  {
    StatusBuilds(status);
    Exchange([ResponseFrame(stream, Response(status, StatusHeaders()), true)], true)
  }

  // ---- bodies ----

  /** DATA frames for the first `remaining` bytes of content, for as long as content can fill them. */
  function Body(stream: u32, content: bytes, remaining: nat): Exchange
    decreases remaining
  {
    if remaining == 0 then Exchange([], true)
    else
      var n := Min(MAX_PAYLOAD, remaining);
      if |content| < n then Exchange([], false)
      else
        var rest := Body(stream, content[n..], remaining - n);
        Exchange([Frame(DATA, Flag(n == remaining), stream, content[..n])] + rest.frames, rest.complete)
  }

  function FileExchange(stream: u32, size: int63, mime: MimeType, content: bytes): Exchange {
    FileBuilds(size, mime);
    var body := Body(stream, content, size);
    Exchange([ResponseFrame(stream, Response(200, FileHeaders(size, mime)), size == 0)] + body.frames, body.complete)
  }

  function Payloads(fs: seq<Frame>): bytes {
    if fs == [] then [] else fs[0].payload + Payloads(fs[1..])
  }

  /** ceil(size / 16384) */
  function ChunkCount(size: nat): nat {
    (size + MAX_PAYLOAD - 1) / MAX_PAYLOAD
  }

  /** A full file goes out in the fewest frames that hold it, each full but the last, END_STREAM last. */
  lemma {:induction false} FullBody(stream: u32, content: bytes, size: nat)
    requires size <= |content|
    ensures var b := Body(stream, content, size);
            && b.complete
            && |b.frames| == ChunkCount(size)
            && Payloads(b.frames) == content[..size]
            && forall i :: 0 <= i < |b.frames| ==>
                 && b.frames[i].typ == DATA && b.frames[i].stream == stream
                 && b.frames[i].flags == Flag(i == |b.frames| - 1)
                 && |b.frames[i].payload| == Min(MAX_PAYLOAD, size - i * MAX_PAYLOAD)
    decreases size
  {
    if size > 0 {
      var n := Min(MAX_PAYLOAD, size);
      var rest := content[n..];
      FullBody(stream, rest, size - n);
      var b, more := Body(stream, content, size), Body(stream, rest, size - n);
      assert b.frames[1..] == more.frames;
      assert content[..size] == content[..n] + rest[..size - n];
      forall i | 0 < i < |b.frames|
        ensures b.frames[i] == more.frames[i - 1]
      {
      }
    }
  }

  /** A file that comes up short never has its stream ended, and only whole chunks of it are sent. */
  lemma {:induction false} ShortBody(stream: u32, content: bytes, size: nat)
    requires |content| < size
    ensures var b := Body(stream, content, size);
            && !b.complete
            && |b.frames| == |content| / MAX_PAYLOAD
            && Payloads(b.frames) == content[..|b.frames| * MAX_PAYLOAD]
            && forall i :: 0 <= i < |b.frames| ==>
                 && b.frames[i].typ == DATA && b.frames[i].stream == stream
                 && b.frames[i].flags == 0
                 && |b.frames[i].payload| == MAX_PAYLOAD
    decreases size
  {
    var n := Min(MAX_PAYLOAD, size);
    if |content| >= n {
      var rest := content[n..];
      ShortBody(stream, rest, size - n);
      var b, more := Body(stream, content, size), Body(stream, rest, size - n);
      assert b.frames[1..] == more.frames;
      var k := |more.frames| * MAX_PAYLOAD;
      assert content[..n + k] == content[..n] + rest[..k];
      forall i | 0 < i < |b.frames|
        ensures b.frames[i] == more.frames[i - 1]
      {
      }
    }
  }

  // ---- the answer to each frame ----

  /** The exchange owed to one REQUEST, RESPONSE or DATA frame. */
  function Answer(f: Frame, tree: FileTree): Exchange {
    if f.typ != REQUEST || !RequestFlagsOk(f.flags) then StatusExchange(f.stream, 400)
    else
      var req := ParseRequest(f.payload);
      if req.None? then StatusExchange(f.stream, 400)
      else
        match tree(req.value.path)
        case BadPath => StatusExchange(f.stream, 400)
        case NotFound => StatusExchange(f.stream, 404)
        case Failure => StatusExchange(f.stream, 500)
        case Found(size, mime, content) => FileExchange(f.stream, size, mime, content)
  }

  function FaultFrame(code: u16, text: bytes): (f: Frame)
    requires |text| <= 255
    ensures Encodable(f)
  {
    Frame(ERROR, 0, 0, PrintError(ConnError(code, text)))
  }

  const STREAM_ZERO_TEXT: bytes := Ascii("stream id 0 is not valid here")
  const TOO_LARGE_TEXT: bytes := Ascii("frame payload is too large")
  const CUT_SHORT_TEXT: bytes := Ascii("could not finish sending the response")

  /** What the server writes when reading stops: at most one ERROR, and none about an ERROR. */
  function Farewell(last: ReadResult): seq<Frame> {
    match last
    case StreamZero => [FaultFrame(INVALID_STREAM_ID, STREAM_ZERO_TEXT)]
    case Oversize(t, _) => if t == ERROR then [] else [FaultFrame(FRAME_TOO_LARGE, TOO_LARGE_TEXT)]
    case _ => []
  }

  /** Everything the server writes for a byte stream that arrives and then stops. */
  function Serve(s: bytes, broken: bool, tree: FileTree): seq<Frame>
    decreases |s|
  {
    var next := Next(s, broken);
    match next.0
    case Got(f) =>
      if f.typ == ERROR then []
      else
        var x := Answer(f, tree);
        if x.complete then x.frames + Serve(next.1, broken, tree)
        else x.frames + [FaultFrame(PROTOCOL_ERROR, CUT_SHORT_TEXT)]
    case other => Farewell(other)
  }

  // ---- the shape of the output ----

  /** One response frame, then data frames, all on the stream asked about. */
  predicate OnStream(x: seq<Frame>, stream: u32) {
    && x != []
    && x[0].typ == RESPONSE
    && (forall i :: 0 < i < |x| ==> x[i].typ == DATA)
    && (forall i :: 0 <= i < |x| ==> x[i].stream == stream)
  }

  predicate WholeExchange(x: seq<Frame>, stream: u32) {
    && OnStream(x, stream)
    && forall i :: 0 <= i < |x| ==> (EndsStream(x[i].flags) <==> i == |x| - 1)
  }

  predicate CutExchange(x: seq<Frame>, stream: u32) {
    && OnStream(x, stream)
    && forall i :: 0 <= i < |x| ==> !EndsStream(x[i].flags)
  }

  predicate IsFault(f: Frame, code: u16) {
    && f.typ == ERROR && f.stream == 0
    && ParseError(f.payload).Some? && ParseError(f.payload).value.code == code
  }

  lemma FaultIsFault(code: u16, text: bytes)
    requires |text| <= 255
    ensures IsFault(FaultFrame(code, text), code)
  {
    ErrorRoundTrip(ConnError(code, text));
  }

  /** Each exchange is whole on its own stream, or cut short with its stream left open. */
  predicate Shaped(x: Exchange, stream: u32) {
    && (x.complete ==> WholeExchange(x.frames, stream))
    && (!x.complete ==> CutExchange(x.frames, stream))
    && Sendable(x.frames)
  }

  lemma StatusShape(stream: u32, status: int)
    requires stream != 0 && ValidStatus(status)
    ensures Shaped(StatusExchange(stream, status), stream)
  {
  }

  lemma FileShape(stream: u32, size: int63, mime: MimeType, content: bytes)
    requires stream != 0
    ensures Shaped(FileExchange(stream, size, mime, content), stream)
    ensures FileExchange(stream, size, mime, content).complete <==> size <= |content|
  {
    hide Payloads, PrintResponse, ResponseBuildable;
    FileBuilds(size, mime);
    if size <= |content| {
      FullBody(stream, content, size);
    } else {
      ShortBody(stream, content, size);
    }
    var body, x := Body(stream, content, size), FileExchange(stream, size, mime, content);
    assert forall i :: 0 < i < |x.frames| ==> x.frames[i] == body.frames[i - 1];
  }

  lemma AnswerShape(f: Frame, tree: FileTree)
    requires f.stream != 0
    ensures Shaped(Answer(f, tree), f.stream)
  {
    StatusShape(f.stream, 400);
    if f.typ == REQUEST && ParseRequest(f.payload).Some? {
      match tree(ParseRequest(f.payload).value.path)
      case BadPath =>
      case NotFound => StatusShape(f.stream, 404);
      case Failure => StatusShape(f.stream, 500);
      case Found(size, mime, content) => FileShape(f.stream, size, mime, content);
    }
  }

  // ---- which status an answer carries ----

  /** The status the first frame of an exchange reports. */
  function FirstStatus(x: Exchange): Option<int> {
    if x.frames == [] || x.frames[0].typ != RESPONSE || ParseResponse(x.frames[0].payload).None? then None
    else Some(ParseResponse(x.frames[0].payload).value.status)
  }

  lemma StatusIsReported(stream: u32, status: int)
    requires ValidStatus(status)
    ensures FirstStatus(StatusExchange(stream, status)) == Some(status)
  {
    StatusBuilds(status);
    ResponseRoundTrip(Response(status, StatusHeaders()));
  }

  lemma FileIsReported(stream: u32, size: int63, mime: MimeType, content: bytes)
    ensures FirstStatus(FileExchange(stream, size, mime, content)) == Some(200)
  {
    FileBuilds(size, mime);
    ResponseRoundTrip(Response(200, FileHeaders(size, mime)));
  }

  /** The status of an answer tells what became of the request. */
  lemma AnswerReports(f: Frame, tree: FileTree)
    requires f.typ == REQUEST && f.stream != 0
    ensures var req := ParseRequest(f.payload); var status := FirstStatus(Answer(f, tree));
            if !RequestFlagsOk(f.flags) || req.None? || tree(req.value.path).BadPath? then status == Some(400)
            else if tree(req.value.path).NotFound? then status == Some(404)
            else if tree(req.value.path).Failure? then status == Some(500)
            else status == Some(200)
  {
    var req := ParseRequest(f.payload);
    if !RequestFlagsOk(f.flags) || req.None? {
      StatusIsReported(f.stream, 400);
    } else {
      match tree(req.value.path)
      case BadPath => StatusIsReported(f.stream, 400);
      case NotFound => StatusIsReported(f.stream, 404);
      case Failure => StatusIsReported(f.stream, 500);
      case Found(size, mime, content) => FileIsReported(f.stream, size, mime, content);
    }
  }

  // ---- discipline ----

  /** The frames before the first ERROR: the ones a server answers. */
  function Asked(frames: seq<Frame>): seq<Frame> {
    if frames == [] || frames[0].typ == ERROR then [] else [frames[0]] + Asked(frames[1..])
  }

  /** The fault a server may report when reading stops; none if an ERROR, of any size, ended it. */
  function Closing(r: Reading): Option<u16> {
    if exists f | f in r.frames :: f.typ == ERROR then None
    else match r.last
         case StreamZero => Some(INVALID_STREAM_ID)
         case Oversize(t, _) => if t == ERROR then None else Some(FRAME_TOO_LARGE)
         case _ => None
  }

  /**
   The discipline every output keeps: one whole exchange per frame asked, in order and never
   interleaved, then at most one ERROR and nothing after it. An exchange whose body could not be
   read is cut short and followed by the ERROR at once.
   */
  ghost predicate Disciplined(asked: seq<Frame>, closing: Option<u16>, out: seq<Frame>)
    decreases |asked|
  {
    if asked == [] then
      match closing
      case None => out == []
      case Some(code) => |out| == 1 && IsFault(out[0], code)
    else
      || (exists n: nat :: n <= |out| && WholeExchange(out[..n], asked[0].stream)
                           && Disciplined(asked[1..], closing, out[n..]))
      || (out != [] && CutExchange(out[..|out| - 1], asked[0].stream) && IsFault(out[|out| - 1], PROTOCOL_ERROR))
  }

  lemma OneMoreExchange(f: Frame, x: seq<Frame>, asked: seq<Frame>, closing: Option<u16>, out: seq<Frame>)
    requires WholeExchange(x, f.stream) && Disciplined(asked, closing, out)
    ensures Disciplined([f] + asked, closing, x + out)
  {
    Halves(x, out);
    Halves([f], asked);
    assert WholeExchange((x + out)[..|x|], f.stream);
  }

  lemma LastExchange(f: Frame, x: seq<Frame>, asked: seq<Frame>, closing: Option<u16>, fault: Frame)
    requires CutExchange(x, f.stream) && IsFault(fault, PROTOCOL_ERROR)
    ensures Disciplined([f] + asked, closing, x + [fault])
  {
    Halves(x, [fault]);
  }

  lemma {:induction false} OutputIsSendable(s: bytes, broken: bool, tree: FileTree)
    ensures Sendable(Serve(s, broken, tree))
    decreases |s|
  {
    var next := Next(s, broken);
    if next.0.Got? && next.0.frame.typ != ERROR {
      AnswerShape(next.0.frame, tree);
      OutputIsSendable(next.1, broken, tree);
    }
  }

  lemma {:induction false} ServerIsDisciplined(s: bytes, broken: bool, tree: FileTree)
    ensures var r := ReadAll(s, broken);
            Disciplined(Asked(r.frames), Closing(r), Serve(s, broken, tree))
    decreases |s|
  {
    hide Answer;
    var r, next := ReadAll(s, broken), Next(s, broken);
    if next.0.Got? {
      var f, more := next.0.frame, ReadAll(next.1, broken);
      Halves([f], more.frames);
      if f.typ == ERROR {
        assert f in r.frames;
      } else {
        var x := Answer(f, tree);
        AnswerShape(f, tree);
        if x.complete {
          ServerIsDisciplined(next.1, broken, tree);
          SameClosing(f, more);
          OneMoreExchange(f, x.frames, Asked(more.frames), Closing(more), Serve(next.1, broken, tree));
        } else {
          FaultIsFault(PROTOCOL_ERROR, CUT_SHORT_TEXT);
          LastExchange(f, x.frames, Asked(more.frames), Closing(r), FaultFrame(PROTOCOL_ERROR, CUT_SHORT_TEXT));
        }
      }
    } else {
      FaultIsFault(INVALID_STREAM_ID, STREAM_ZERO_TEXT);
      FaultIsFault(FRAME_TOO_LARGE, TOO_LARGE_TEXT);
    }
  }

  lemma SameClosing(f: Frame, more: Reading)
    requires f.typ != ERROR
    ensures Closing(Reading([f] + more.frames, more.last)) == Closing(more)
  {
    assert forall g | g in more.frames :: g in [f] + more.frames;
  }

  /** An ERROR is never answered: if one ends the input and no body was cut short, none goes out. */
  lemma {:induction false} ErrorIsNeverAnswered(s: bytes, broken: bool, tree: FileTree)
    requires Closing(ReadAll(s, broken)).None?
    requires forall f | f in Asked(ReadAll(s, broken).frames) :: Answer(f, tree).complete
    ensures forall g | g in Serve(s, broken, tree) :: g.typ != ERROR
    decreases |s|
  {
    var next := Next(s, broken);
    if next.0.Got? && next.0.frame.typ != ERROR {
      var f, more := next.0.frame, ReadAll(next.1, broken);
      assert Asked(ReadAll(s, broken).frames) == [f] + Asked(more.frames);
      SameClosing(f, more);
      assert f in [f] + Asked(more.frames);
      assert forall g | g in Asked(more.frames) :: g in [f] + Asked(more.frames);
      ErrorIsNeverAnswered(next.1, broken, tree);
      AnswerShape(f, tree);
      var x := Answer(f, tree);
      forall g | g in x.frames ensures g.typ != ERROR {
        var i :| 0 <= i < |x.frames| && x.frames[i] == g;
      }
    }
  }
}
