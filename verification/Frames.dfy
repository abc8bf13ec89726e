/**
 The frame layer. `Chop` is the pure split of a byte stream into whole frames plus a tail;
 every reader of frames in the system, blocking or incremental, is measured against it.
 */
module Frames {
  import opened Bytes

  const HEADER_SIZE := 12
  const MAX_PAYLOAD := 16384

  const REQUEST: byte := 1
  const RESPONSE: byte := 2
  const DATA: byte := 3
  const ERROR: byte := 4

  const END_STREAM: byte := 1

  datatype Frame = Frame(typ: byte, flags: byte, stream: u32, payload: bytes)

  predicate Known(t: byte) {
    REQUEST <= t <= ERROR
  }

  /** Only ERROR describes the whole connection, so only ERROR may use stream zero. */
  predicate NeedsStream(t: byte) {
    REQUEST <= t <= DATA
  }

  /** flags & 0x01 == 0x01 */
  predicate EndsStream(flags: byte) {
    flags % 2 == 1
  }

  /** A REQUEST must carry END_STREAM: flags &^ 0x01 == 0 and flags & 0x01 == 0x01. */
  predicate RequestFlagsOk(flags: byte) {
    flags - flags % 2 == 0 && EndsStream(flags)
  }

  predicate Encodable(f: Frame) {
    && |f.payload| <= MAX_PAYLOAD
    && (NeedsStream(f.typ) ==> f.stream != 0)
  }

  /** The frame as it goes on the wire: length, type, flags, two reserved zeros, stream, payload. */
  function Image(f: Frame): (b: bytes)
    requires |f.payload| <= MAX_PAYLOAD
    ensures |b| == HEADER_SIZE + |f.payload|
  {
    PutU32(|f.payload|) + [f.typ, f.flags, 0, 0] + PutU32(f.stream) + f.payload
  }

  function DeclaredLength(s: bytes): u32
    requires |s| >= HEADER_SIZE
  {
    GetU32(s[0..4])
  }

  predicate Oversized(s: bytes) {
    |s| >= HEADER_SIZE && DeclaredLength(s) > MAX_PAYLOAD
  }

  /** Whether s starts with one complete frame of legal length. */
  predicate StartsWhole(s: bytes) {
    && |s| >= HEADER_SIZE
    && DeclaredLength(s) <= MAX_PAYLOAD
    && |s| >= HEADER_SIZE + DeclaredLength(s)
  }

  function FirstLength(s: bytes): (n: nat)
    requires StartsWhole(s)
    ensures HEADER_SIZE <= n <= |s|
  {
    HEADER_SIZE + DeclaredLength(s)
  }

  /** s is exactly one frame, of any type and with any reserved bytes. */
  predicate IsFrame(s: bytes) {
    StartsWhole(s) && |s| == FirstLength(s)
  }

  function TypeOf(raw: bytes): byte
    requires IsFrame(raw)
  {
    raw[4]
  }

  function Parse(raw: bytes): Frame
    requires IsFrame(raw)
  {
    Frame(raw[4], raw[5], GetU32(raw[8..12]), raw[HEADER_SIZE..])
  }

  lemma ImageIsFrame(f: Frame)
    requires |f.payload| <= MAX_PAYLOAD
    ensures IsFrame(Image(f)) && Parse(Image(f)) == f && TypeOf(Image(f)) == f.typ
  {
    var b := Image(f);
    U32RoundTrip(|f.payload|);
    U32RoundTrip(f.stream);
    assert b[0..4] == PutU32(|f.payload|);
    assert b[8..12] == PutU32(f.stream);
    assert b[HEADER_SIZE..] == f.payload;
  }

  datatype Chopped = Chopped(frames: seq<bytes>, tail: bytes)

  /** Splits a stream at its frame boundaries, up to the first place where no whole frame starts. */
  function Chop(s: bytes): (c: Chopped)
    ensures !StartsWhole(c.tail)
    ensures forall raw | raw in c.frames :: IsFrame(raw)
  {
    if StartsWhole(s) then
      var n := FirstLength(s);
      assert s[..n][0..4] == s[0..4];
      var rest := Chop(s[n..]);
      Chopped([s[..n]] + rest.frames, rest.tail)
    else
      Chopped([], s)
  }

  /** The frames and the tail, put together again, are the stream. */
  lemma {:induction false} ChopIsSplit(s: bytes)
    ensures Flatten(Chop(s).frames) + Chop(s).tail == s
  {
    if StartsWhole(s) {
      var n := FirstLength(s);
      var rest := Chop(s[n..]);
      ChopIsSplit(s[n..]);
      HeadAndTail([s[..n]], rest.frames);
      Assoc(s[..n], Flatten(rest.frames), rest.tail);
    } else {
      assert Flatten(Chop(s).frames) + s == s;
    }
  }

  lemma ChopCons(raw: bytes, s: bytes)
    requires IsFrame(raw)
    ensures StartsWhole(raw + s) && FirstLength(raw + s) == |raw|
    ensures Chop(raw + s) == Chopped([raw] + Chop(s).frames, Chop(s).tail)
  {
    assert (raw + s)[0..4] == raw[0..4];
    assert (raw + s)[..|raw|] == raw;
    assert (raw + s)[|raw|..] == s;
  }

  lemma ChopStops(tail: bytes)
    requires !StartsWhole(tail)
    ensures Chop(tail) == Chopped([], tail)
  {
  }

  /** Chopping is determined: whole frames in order, then a tail that starts no frame. */
  lemma {:induction false} ChopFlatten(raws: seq<bytes>, tail: bytes)
    requires forall raw | raw in raws :: IsFrame(raw)
    requires !StartsWhole(tail)
    ensures Chop(Flatten(raws) + tail) == Chopped(raws, tail)
  {
    hide Chop, IsFrame, StartsWhole, FirstLength;
    if raws == [] {
      assert Flatten(raws) + tail == tail;
      ChopStops(tail);
    } else {
      var first, more := raws[0], raws[1..];
      assert first in raws && forall raw | raw in more :: raw in raws;
      ChopFlatten(more, tail);
      ChopCons(first, Flatten(more) + tail);
      Assoc(first, Flatten(more), tail);
      assert [first] + more == raws;
    }
  }

  lemma Regroup(front: bytes, tail: bytes, more: bytes, next: bytes, rest: bytes)
    requires next + rest == tail + more
    ensures (front + next) + rest == (front + tail) + more
  {
    Assoc(front, next, rest);
    Assoc(front, tail, more);
  }

  /** Chopping in two instalments, carrying the tail over, is chopping at once. */
  lemma ChopAppend(a: bytes, b: bytes)
    ensures var first := Chop(a); var second := Chop(first.tail + b);
            Chop(a + b) == Chopped(first.frames + second.frames, second.tail)
  {
    var first := Chop(a);
    var second := Chop(first.tail + b);
    ChopIsSplit(a);
    ChopIsSplit(first.tail + b);
    Regroup(Flatten(first.frames), first.tail, b, Flatten(second.frames), second.tail);
    FlattenAppend(first.frames, second.frames);
    ChopFlatten(first.frames + second.frames, second.tail);
  }

  // ---- what a correct receiver sees ----

  datatype ReadResult =
    | Got(frame: Frame)
    | EndOfStream
    | Truncated
    | Oversize(typ: byte, length: u32)
    | StreamZero
    | Failed

  /** The verdict on a tail; `broken` tells a failed transport from an orderly end. */
  function TailVerdict(tail: bytes, broken: bool): ReadResult
    requires !StartsWhole(tail)
  {
    if Oversized(tail) then Oversize(tail[4], DeclaredLength(tail))
    else if broken then Failed
    else if tail == [] then EndOfStream
    else Truncated
  }

  predicate UsesStreamZero(f: Frame) {
    NeedsStream(f.typ) && f.stream == 0
  }

  /** The next frame of a known type and the bytes left behind it. */
  function Next(s: bytes, broken: bool): (r: (ReadResult, bytes))
    ensures r.0.Got? || r.0.StreamZero? ==> |r.1| < |s|
    ensures r.0.Got? ==> Known(r.0.frame.typ) && Encodable(r.0.frame)
  {
    if !StartsWhole(s) then
      (TailVerdict(s, broken), if Oversized(s) then s[HEADER_SIZE..] else [])
    else
      var n := FirstLength(s);
      assert s[..n][0..4] == s[0..4];
      var f := Parse(s[..n]);
      if !Known(f.typ) then Next(s[n..], broken)
      else if UsesStreamZero(f) then (StreamZero, s[n..])
      else (Got(f), s[n..])
  }

  datatype Reading = Reading(frames: seq<Frame>, last: ReadResult)

  /** Reading until something other than a frame comes back. */
  function ReadAll(s: bytes, broken: bool): (r: Reading)
    ensures !r.last.Got?
    ensures forall f | f in r.frames :: Known(f.typ) && Encodable(f)
    decreases |s|
  {
    var next := Next(s, broken);
    match next.0
    case Got(f) =>
      var rest := ReadAll(next.1, broken);
      Reading([f] + rest.frames, rest.last)
    case other => Reading([], other)
  }

  /** The same reading, computed from the chopped stream. */
  function Judge(raws: seq<bytes>, last: ReadResult): Reading
    requires forall raw | raw in raws :: IsFrame(raw)
  {
    if raws == [] then Reading([], last)
    else if !Known(TypeOf(raws[0])) then Judge(raws[1..], last)
    else if UsesStreamZero(Parse(raws[0])) then Reading([], StreamZero)
    else
      var rest := Judge(raws[1..], last);
      Reading([Parse(raws[0])] + rest.frames, rest.last)
  }

  lemma {:induction false} ReadAllIsJudge(s: bytes, broken: bool)
    ensures ReadAll(s, broken) == Judge(Chop(s).frames, TailVerdict(Chop(s).tail, broken))
    decreases |s|
  {
    if StartsWhole(s) {
      var n := FirstLength(s);
      assert s[..n][0..4] == s[0..4];
      ReadAllIsJudge(s[n..], broken);
      assert Chop(s).frames[1..] == Chop(s[n..]).frames;
    }
  }

  // ---- reader and writer are inverse ----

  /** What may lie on the wire between two peers: a frame someone sent, or a newer peer's frame. */
  datatype Item = Sent(f: Frame) | Foreign(raw: bytes)

  predicate Legal(i: Item) {
    match i
    case Sent(f) => Known(f.typ) && Encodable(f)
    case Foreign(raw) => IsFrame(raw) && !Known(TypeOf(raw))
  }

  function OnWire(i: Item): bytes
    requires Legal(i)
  {
    match i
    case Sent(f) => Image(f)
    case Foreign(raw) => raw
  }

  function Wires(items: seq<Item>): (raws: seq<bytes>)
    requires forall i | i in items :: Legal(i)
    ensures |raws| == |items|
    ensures forall k :: 0 <= k < |items| ==> raws[k] == OnWire(items[k])
  {
    if items == [] then [] else [OnWire(items[0])] + Wires(items[1..])
  }

  function SentFrames(items: seq<Item>): seq<Frame> {
    if items == [] then []
    else (if items[0].Sent? then [items[0].f] else []) + SentFrames(items[1..])
  }

  lemma WiresAreFrames(items: seq<Item>)
    requires forall i | i in items :: Legal(i)
    ensures forall raw | raw in Wires(items) :: IsFrame(raw)
  {
    forall k | 0 <= k < |items| ensures IsFrame(Wires(items)[k]) {
      assert Legal(items[k]);
      if items[k].Sent? {
        ImageIsFrame(items[k].f);
      }
    }
  }

  lemma {:induction false} JudgeItems(items: seq<Item>, last: ReadResult)
    requires forall i | i in items :: Legal(i)
    requires !last.Got?
    ensures forall raw | raw in Wires(items) :: IsFrame(raw)
    ensures Judge(Wires(items), last) == Reading(SentFrames(items), last)
  {
    WiresAreFrames(items);
    if items != [] {
      assert Legal(items[0]);
      JudgeItems(items[1..], last);
      assert Wires(items)[1..] == Wires(items[1..]);
      if items[0].Sent? {
        ImageIsFrame(items[0].f);
      }
    }
  }

  /** Frames written are the frames read, however many unknown frames lie between them. */
  lemma WrittenIsRead(items: seq<Item>)
    requires forall i | i in items :: Legal(i)
    ensures ReadAll(Flatten(Wires(items)), false) == Reading(SentFrames(items), EndOfStream)
  {
    WiresAreFrames(items);
    ChopFlatten(Wires(items), []);
    assert Flatten(Wires(items)) + [] == Flatten(Wires(items));
    ReadAllIsJudge(Flatten(Wires(items)), false);
    JudgeItems(items, EndOfStream);
  }

  // ---- a list of frames on the wire ----

  predicate Sendable(fs: seq<Frame>) {
    forall i :: 0 <= i < |fs| ==> Encodable(fs[i])
  }

  function Wire(fs: seq<Frame>): bytes
    requires Sendable(fs)
  {
    if fs == [] then [] else Image(fs[0]) + Wire(fs[1..])
  }

  lemma {:induction false} WireAppend(a: seq<Frame>, b: seq<Frame>)
    requires Sendable(a) && Sendable(b)
    ensures Sendable(a + b) && Wire(a + b) == Wire(a) + Wire(b)
  {
    if a == [] {
      assert a + b == b;
    } else {
      WireAppend(a[1..], b);
      assert (a + b)[1..] == a[1..] + b;
      Assoc(Image(a[0]), Wire(a[1..]), Wire(b));
    }
  }

  lemma WireOne(f: Frame)
    requires Encodable(f)
    ensures Wire([f]) == Image(f)
  {
    assert [f][1..] == [];
  }

  /** The frame at the front of a stream is the next frame read. */
  lemma NextIsFirst(f: Frame, rest: bytes, broken: bool)
    requires Known(f.typ) && Encodable(f)
    ensures Next(Image(f) + rest, broken) == (Got(f), rest)
  {
    ImageIsFrame(f);
    ChopCons(Image(f), rest);
    Halves(Image(f), rest);
  }

  /** How many of the frames lie wholly within the first k bytes. */
  function FramesWithin(raws: seq<bytes>, k: nat): (j: nat)
    requires k <= |Flatten(raws)|
    ensures j <= |raws|
  {
    if raws == [] || k < |raws[0]| then 0 else 1 + FramesWithin(raws[1..], k - |raws[0]|)
  }

  lemma StrictPrefixIsNoFrame(raw: bytes, k: nat)
    requires IsFrame(raw) && k < |raw|
    ensures !StartsWhole(raw[..k]) && !Oversized(raw[..k])
  {
    if k >= HEADER_SIZE {
      assert raw[..k][0..4] == raw[0..4];
    }
  }

  lemma {:induction false} ChopCut(raws: seq<bytes>, k: nat)
    requires forall raw | raw in raws :: IsFrame(raw)
    requires k <= |Flatten(raws)|
    ensures var j := FramesWithin(raws, k); var c := Chop(Flatten(raws)[..k]);
            && c.frames == raws[..j]
            && (c.tail == [] <==> k == |Flatten(raws[..j])|)
            && !Oversized(c.tail)
  {
    hide FirstLength, GetU32, DeclaredLength, IsFrame;
    var whole := Flatten(raws);
    if raws == [] {
    } else if k < |raws[0]| {
      StrictPrefixIsNoFrame(raws[0], k);
      assert whole[..k] == raws[0][..k];
    } else {
      var rest := Flatten(raws[1..]);
      var m := k - |raws[0]|;
      ChopCut(raws[1..], m);
      ChopCons(raws[0], rest[..m]);
      assert whole[..k] == raws[0] + rest[..m];
      var j := FramesWithin(raws[1..], m);
      assert raws[..1 + j] == [raws[0]] + raws[1..][..j];
    }
  }

  /** A stream cut anywhere yields the frames before the cut, and says whether it fell inside one. */
  lemma CutIsNoticed(items: seq<Item>, k: nat)
    requires forall i | i in items :: Legal(i)
    requires k <= |Flatten(Wires(items))|
    ensures var j := FramesWithin(Wires(items), k);
            ReadAll(Flatten(Wires(items))[..k], false)
            == Reading(SentFrames(items[..j]),
                       if k == |Flatten(Wires(items[..j]))| then EndOfStream else Truncated)
  {
    var raws := Wires(items);
    var j := FramesWithin(raws, k);
    WiresAreFrames(items);
    ChopCut(raws, k);
    ReadAllIsJudge(Flatten(raws)[..k], false);
    assert raws[..j] == Wires(items[..j]);
    JudgeItems(items[..j], TailVerdict(Chop(Flatten(raws)[..k]).tail, false));
  }
}

/** The blocking reader and the writer, as loops over a connection. */
module FrameIO {
  import opened Bytes
  import opened Transport
  import opened Frames

  datatype FrameError = PayloadTooLarge | StreamZeroError

  /** Fills the buffer in place and refuses frames a conforming peer would have to reject. */
  method Encode(f: Frame) returns (r: Result<bytes, FrameError>)
    ensures r.Ok? <==> Encodable(f)
    ensures r.Ok? ==> r.value == Image(f)
    ensures r.Err? ==> r.error == (if |f.payload| > MAX_PAYLOAD then PayloadTooLarge else StreamZeroError)
  {
    if |f.payload| > MAX_PAYLOAD {
      return Err(PayloadTooLarge);
    }
    if NeedsStream(f.typ) && f.stream == 0 {
      return Err(StreamZeroError);
    }
    var b := new byte[HEADER_SIZE + |f.payload|](_ => 0);
    PutAt(b, 0, PutU32(|f.payload|));
    b[4] := f.typ;
    b[5] := f.flags;
    PutAt(b, 8, PutU32(f.stream));
    PutAt(b, HEADER_SIZE, f.payload);
    assert b[0..4] == PutU32(|f.payload|);
    assert b[4..8] == [f.typ, f.flags, 0, 0];
    assert b[8..12] == PutU32(f.stream);
    assert b[..] == b[0..4] + b[4..8] + b[8..12] + b[12..];
    return Ok(b[..]);
  }

  /** copy(dst[at:], src) */
  method PutAt(dst: array<byte>, at: nat, src: bytes)
    requires at + |src| <= dst.Length
    modifies dst
    ensures dst[at..at + |src|] == src
    ensures forall i :: 0 <= i < at ==> dst[i] == old(dst[i])
    ensures forall i :: at + |src| <= i < dst.Length ==> dst[i] == old(dst[i])
  {
    forall i | 0 <= i < |src| {
      dst[at + i] := src[i];
    }
  }

  /** Sends one frame. On failure only a prefix of it went out and the sink knows. */
  method Write(sink: Sink, f: Frame) returns (ok: bool)
    modifies sink
    ensures !Encodable(f) ==> !ok && sink.out == old(sink.out) && sink.failed == old(sink.failed)
    ensures Encodable(f) && ok ==> sink.out == old(sink.out) + Image(f) && sink.failed == old(sink.failed)
    ensures Encodable(f) && !ok ==> sink.failed && old(sink.out) <= sink.out <= old(sink.out) + Image(f)
  {
    var r := Encode(f);
    if r.Err? {
      return false;
    }
    ok := sink.WriteAll(r.value);
  }

  function TruncatedOr(err: ReadError): ReadResult
    requires err != NoError
  {
    if err == EOF || err == UnexpectedEOF then Truncated else Failed
  }

  lemma NextStops(s: bytes, broken: bool)
    requires !StartsWhole(s)
    ensures Next(s, broken) == (TailVerdict(s, broken), if Oversized(s) then s[HEADER_SIZE..] else [])
  {
  }

  lemma NextSkips(s: bytes, broken: bool, n: nat)
    requires StartsWhole(s) && n == FirstLength(s) && !Known(s[4])
    ensures Next(s, broken) == Next(s[n..], broken)
  {
  }

  lemma NextIs(s: bytes, broken: bool, hdr: bytes, payload: bytes)
    requires StartsWhole(s) && |hdr| == HEADER_SIZE && FirstLength(s) == HEADER_SIZE + |payload|
    requires s[..FirstLength(s)] == hdr + payload && Known(hdr[4])
    ensures var f := Frame(hdr[4], hdr[5], GetU32(hdr[8..12]), payload);
            Next(s, broken) == (if UsesStreamZero(f) then StreamZero else Got(f), s[FirstLength(s)..])
  {
    var raw := hdr + payload;
    Halves(hdr, payload);
    assert raw[8..12] == hdr[8..12] && raw[0..4] == s[0..4];
  }

  /** Steps over unknown types and returns the next frame, whatever the piece sizes were. */
  method Read(src: Source) returns (r: ReadResult)
    modifies src`pending
    ensures (r, src.pending) == Next(old(src.pending), src.end == Broken)
  {
    hide Next;
    ghost var start := src.pending;
    while true
      invariant Next(src.pending, src.end == Broken) == Next(start, src.end == Broken)
      decreases |src.pending|
    {
      ghost var s := src.pending;
      if !StartsWhole(s) {
        NextStops(s, src.end == Broken);
      }
      var hdr, err := src.ReadFull(HEADER_SIZE);
      if err != NoError {
        return if err == UnexpectedEOF then Truncated else if err == EOF then EndOfStream else Failed;
      }
      assert s[0..4] == hdr[0..4];
      var length := GetU32(hdr[0..4]);
      var typ := hdr[4];
      if length > MAX_PAYLOAD {
        return Oversize(typ, length);
      }
      if !Known(typ) {
        err := src.Discard(length);
        if err != NoError {
          return TruncatedOr(err);
        }
        assert src.pending == s[HEADER_SIZE + length..];
        NextSkips(s, src.end == Broken, HEADER_SIZE + length);
        continue;
      }
      var payload;
      payload, err := src.ReadFull(length);
      if err != NoError {
        return TruncatedOr(err);
      }
      assert s[..HEADER_SIZE + length] == hdr + payload;
      assert src.pending == s[HEADER_SIZE + length..];
      NextIs(s, src.end == Broken, hdr, payload);
      var f := Frame(typ, hdr[5], GetU32(hdr[8..12]), payload);
      if NeedsStream(typ) && f.stream == 0 {
        return StreamZero;
      }
      return Got(f);
    }
  }
}
