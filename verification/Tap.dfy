/**
 The passive tap: it sees each direction in whatever pieces the connection moved them, and must
 show exactly the frames a blocking reader of the same stream would find.
 */
module Taps {
  import opened Bytes
  import opened Frames
  import opened Transport

  datatype Arrow = SentArrow | ReceivedArrow

  datatype Why = NotAFrame(length: u32) | AfterUnreadable | Incomplete

  /** One item of the tap's output. */
  datatype Event =
    | FrameShown(arrow: Arrow, number: nat, raw: bytes)
    | RawShown(arrow: Arrow, why: Why, piece: bytes)

  // ---- what a log shows of one direction ----

  function FramesOf(log: seq<Event>, arrow: Arrow): seq<bytes> {
    if log == [] then []
    else
      var e := log[|log| - 1];
      FramesOf(log[..|log| - 1], arrow) + if e.FrameShown? && e.arrow == arrow then [e.raw] else []
  }

  function RawOf(log: seq<Event>, arrow: Arrow): bytes {
    if log == [] then []
    else
      var e := log[|log| - 1];
      RawOf(log[..|log| - 1], arrow) + if e.RawShown? && e.arrow == arrow then e.piece else []
  }

  /** The frames of both directions are numbered together, in the order they were shown. */
  predicate Numbered(log: seq<Event>, count: nat) {
    if log == [] then count == 0
    else if log[|log| - 1].FrameShown? then
      count > 0 && log[|log| - 1].number == count && Numbered(log[..|log| - 1], count - 1)
    else Numbered(log[..|log| - 1], count)
  }

  /** Every frame shown is a whole one. */
  predicate WholeFrames(log: seq<Event>) {
    forall i :: 0 <= i < |log| && log[i].FrameShown? ==> IsFrame(log[i].raw)
  }

  /** `now` is `before` with items of one direction added. */
  predicate Grown(before: seq<Event>, now: seq<Event>, arrow: Arrow) {
    before <= now && forall i :: |before| <= i < |now| ==> now[i].arrow == arrow
  }

  lemma OneMore(log: seq<Event>, start: nat, e: Event)
    requires start <= |log|
    ensures var (before, after) := (log[start..], (log + [e])[start..]);
            && FramesOf(after, e.arrow) == FramesOf(before, e.arrow) + (if e.FrameShown? then [e.raw] else [])
            && RawOf(after, e.arrow) == RawOf(before, e.arrow) + (if e.RawShown? then e.piece else [])
    ensures forall n: nat :: Numbered(log, n) ==> Numbered(log + [e], n) || e.FrameShown?
    ensures forall n: nat :: Numbered(log, n) && e.FrameShown? && e.number == n + 1 ==> Numbered(log + [e], n + 1)
  {
    var after := (log + [e])[start..];
    assert after[..|after| - 1] == log[start..] && after[|after| - 1] == e;
    assert (log + [e])[..|log|] == log;
  }

  /** What is added for one direction changes nothing in the other. */
  lemma {:induction false} OtherSideUnmoved(before: seq<Event>, now: seq<Event>, start: nat, arrow: Arrow, other: Arrow)
    requires Grown(before, now, arrow) && start <= |before| && other != arrow
    ensures FramesOf(now[start..], other) == FramesOf(before[start..], other)
    ensures RawOf(now[start..], other) == RawOf(before[start..], other)
    decreases |now|
  {
    if |before| == |now| {
      assert before == now;
    } else {
      var front := now[..|now| - 1];
      OtherSideUnmoved(before, front, start, arrow, other);
      assert now[start..][..|now[start..]| - 1] == front[start..];
    }
  }

  // ---- what a framer has shown and kept, given the bytes fed ----

  /** Everything shown and held back, given the split of the bytes fed. */
  predicate Settled(shown: seq<bytes>, raw: bytes, buf: bytes, broken: bool, all: Chopped) {
    && shown == all.frames
    && (broken <==> Oversized(all.tail))
    && buf == (if broken then [] else all.tail)
    && raw == (if broken then all.tail else [])
  }

  /** Partway through a piece: frames are still in the buffer. */
  predicate Midway(shown: seq<bytes>, raw: bytes, buf: bytes, all: Chopped) {
    all.frames == shown + Chop(buf).frames && all.tail == Chop(buf).tail && raw == []
  }

  lemma FeedBegins(shown: seq<bytes>, raw: bytes, buf: bytes, fed: bytes, piece: bytes)
    requires Settled(shown, raw, buf, false, Chop(fed))
    ensures Midway(shown, raw, buf + piece, Chop(fed + piece))
  {
    ChopAppend(fed, piece);
  }

  /** After an oversized header nothing is a frame any more. */
  lemma FeedBroken(shown: seq<bytes>, raw: bytes, fed: bytes, piece: bytes)
    requires Settled(shown, raw, [], true, Chop(fed))
    ensures Settled(shown, raw + piece, [], true, Chop(fed + piece))
  {
    ChopAppend(fed, piece);
    OversizedStays(raw, piece);
    assert shown + [] == shown;
  }

  lemma OversizedStays(tail: bytes, more: bytes)
    requires Oversized(tail)
    ensures Oversized(tail + more) && Chop(tail + more) == Chopped([], tail + more)
  {
    assert (tail + more)[0..4] == tail[0..4];
  }

  lemma FrameComplete(shown: seq<bytes>, raw: bytes, buf: bytes, all: Chopped, total: nat)
    requires Midway(shown, raw, buf, all) && StartsWhole(buf) && total == FirstLength(buf)
    ensures Midway(shown + [buf[..total]], raw, buf[total..], all)
  {
    Assoc(shown, [buf[..total]], Chop(buf[total..]).frames);
  }

  lemma FeedEnds(shown: seq<bytes>, raw: bytes, buf: bytes, all: Chopped)
    requires Midway(shown, raw, buf, all) && !StartsWhole(buf)
    ensures if Oversized(buf) then Settled(shown, raw + buf, [], true, all) else Settled(shown, raw, buf, false, all)
  {
    assert shown + [] == shown;
  }

  // ---- the tap ----

  class Tap {
    var count: nat
    var log: seq<Event>

    ghost predicate Valid()
      reads this
    {
      Numbered(log, count) && WholeFrames(log)
    }

    constructor ()
      ensures Valid() && log == []
    {
      count := 0;
      log := [];
    }
  }

  class Framer {
    const tap: Tap
    const arrow: Arrow
    var buf: bytes
    var broken: bool

    /** The bytes fed since the beginning, or since leftovers were last flushed. */
    ghost var fed: bytes
    /** How those bytes split into frames. */
    ghost var all: Chopped
    /** Where the log stood then. */
    ghost var start: nat

    /** What the log has shown of this direction since then: whole frames, and raw bytes. */
    ghost var shown: seq<bytes>
    ghost var raw: bytes

    ghost predicate Linked()
      reads this, tap
    {
      && tap.Valid() && start <= |tap.log|
      && shown == FramesOf(tap.log[start..], arrow) && raw == RawOf(tap.log[start..], arrow)
    }

    ghost predicate Valid()
      reads this, tap
    {
      Linked() && all == Chop(fed) && Settled(shown, raw, buf, broken, all)
    }

    constructor (tap: Tap, arrow: Arrow)
      requires tap.Valid()
      ensures Valid() && this.tap == tap && this.arrow == arrow && fed == [] && start == |tap.log|
    {
      this.tap := tap;
      this.arrow := arrow;
      buf := [];
      broken := false;
      fed := [];
      all := Chop([]);
      start := |tap.log|;
      shown := [];
      raw := [];
    }

    method PrintFrame(b: bytes)
      requires Linked() && IsFrame(b)
      modifies `shown, tap
      ensures Linked() && shown == old(shown) + [b]
      ensures tap.log == old(tap.log) + [FrameShown(arrow, old(tap.count) + 1, b)]
    {
      OneMore(tap.log, start, FrameShown(arrow, tap.count + 1, b));
      tap.count := tap.count + 1;
      tap.log := tap.log + [FrameShown(arrow, tap.count, b)];
      shown := shown + [b];
    }

    method PrintRaw(why: Why, b: bytes)
      requires Linked()
      modifies `raw, tap
      ensures Linked() && raw == old(raw) + b
      ensures tap.log == old(tap.log) + [RawShown(arrow, why, b)]
    {
      OneMore(tap.log, start, RawShown(arrow, why, b));
      tap.log := tap.log + [RawShown(arrow, why, b)];
      raw := raw + b;
    }

    /** The header in the buffer declares too much: from here on nothing is a frame. */
    method GiveUp(length: u32)
      requires Linked()
      modifies `buf, `broken, `raw, tap
      ensures Linked() && Grown(old(tap.log), tap.log, arrow)
      ensures broken && buf == [] && raw == old(raw) + old(buf)
    {
      var unreadable := buf;
      broken := true;
      buf := [];
      PrintRaw(NotAFrame(length), unreadable);
    }

    /** One turn of the loop in feed: false when no further frame can be cut off. */
    method Step() returns (more: bool)
      requires Linked() && !broken && Midway(shown, raw, buf, all)
      modifies `buf, `broken, `shown, `raw, tap
      ensures Linked() && Grown(old(tap.log), tap.log, arrow)
      ensures if more then !broken && Midway(shown, raw, buf, all) && |buf| < |old(buf)|
              else Settled(shown, raw, buf, broken, all)
    {
      if |buf| < HEADER_SIZE {
        FeedEnds(shown, raw, buf, all);
        return false;
      }
      var length := GetU32(buf[0..4]);
      if length > MAX_PAYLOAD {
        FeedEnds(shown, raw, buf, all);
        GiveUp(length);
        return false;
      }
      var total := HEADER_SIZE + length;
      if |buf| < total {
        FeedEnds(shown, raw, buf, all);
        return false;
      }
      FrameComplete(shown, raw, buf, all, total);
      var first := buf[..total];
      assert first[0..4] == buf[0..4];
      buf := buf[total..];
      PrintFrame(first);
      return true;
    }

    /**
     Shows the frames the piece completes, keeping what does not yet make one. What is shown and
     kept depends on all the bytes fed, and not on how they were cut into pieces.
     */
    method Feed(piece: bytes)
      requires Valid()
      modifies this, tap
      ensures Valid() && fed == old(fed) + piece && start == old(start)
      ensures Grown(old(tap.log), tap.log, arrow)
    {
      hide Chop, FramesOf, RawOf;
      ghost var total := fed + piece;
      if broken {
        FeedBroken(shown, raw, fed, piece);
        PrintRaw(AfterUnreadable, piece);
      } else {
        FeedBegins(shown, raw, buf, fed, piece);
        buf := buf + piece;
        ScanBuffer(Chop(total));
      }
      fed := total;
      all := Chop(total);
    }

    /** The loop in feed. */
    method ScanBuffer(ghost goal: Chopped)
      requires Linked() && !broken && Midway(shown, raw, buf, goal)
      modifies `buf, `broken, `shown, `raw, `all, tap
      ensures Linked() && Grown(old(tap.log), tap.log, arrow) && Settled(shown, raw, buf, broken, goal)
    {
      all := goal;
      var more := true;
      while more
        invariant Linked() && Grown(old(tap.log), tap.log, arrow) && all == goal
        invariant if more then !broken && Midway(shown, raw, buf, all) else Settled(shown, raw, buf, broken, all)
        decreases more, |buf|
      {
        more := Step();
      }
    }

    /** Reports what never made a whole frame; that is the case iff the stream ended inside one. */
    method Flush()
      requires Valid()
      modifies this, tap
      ensures Valid() && broken == old(broken)
      ensures var leftover := ReadOn(old(fed), false).last.Truncated?;
              && tap.log == old(tap.log) + (if leftover then [RawShown(arrow, Incomplete, Chop(old(fed)).tail)] else [])
              && fed == (if leftover then [] else old(fed))
    {
      ShownIsRead(fed, false);
      if |buf| > 0 {
        PrintRaw(Incomplete, buf);
        buf := [];
        fed, all := [], Chop([]);
        start := |tap.log|;
        shown, raw := [], [];
      }
    }
  }

  /** A tapped connection: one framer a direction, one tap. */
  class TappedConn {
    const src: Source
    const sink: Sink
    const sent: Framer
    const received: Framer

    ghost predicate Valid()
      reads this, sent, received, sent.tap
    {
      && sent.tap == received.tap && sent != received && sent.arrow != received.arrow
      && sent.Valid() && received.Valid()
    }

    constructor (src: Source, sink: Sink)
      ensures Valid() && fresh(sent) && fresh(received) && fresh(sent.tap)
      ensures this.src == src && this.sink == sink && sent.fed == [] && received.fed == []
    {
      var tap := new Tap();
      this.src := src;
      this.sink := sink;
      sent := new Framer(tap, SentArrow);
      received := new Framer(tap, ReceivedArrow);
    }

    /** The reader gets exactly the bytes the connection gave, and the tap saw exactly those. */
    method Read(max: nat) returns (piece: bytes)
      requires Valid() && max > 0
      modifies src`pending, received, sent.tap
      ensures Valid()
      ensures old(src.pending) == piece + src.pending && |piece| <= max
      ensures received.fed == old(received.fed) + piece && sent.fed == old(sent.fed)
    {
      piece := src.Read(max);
      if |piece| > 0 {
        ghost var before := sent.tap.log;
        received.Feed(piece);
        OtherSideUnmoved(before, sent.tap.log, sent.start, received.arrow, sent.arrow);
      } else {
        assert received.fed + [] == received.fed;
      }
    }

    method Write(b: bytes) returns (n: nat, ok: bool)
      requires Valid()
      modifies sink, sent, sent.tap
      ensures Valid()
      ensures n <= |b| && sink.out == old(sink.out) + b[..n]
      ensures sent.fed == old(sent.fed) + b[..n] && received.fed == old(received.fed)
    {
      n, ok := sink.Write(b);
      if n > 0 {
        ghost var before := sent.tap.log;
        sent.Feed(b[..n]);
        OtherSideUnmoved(before, sent.tap.log, received.start, sent.arrow, received.arrow);
      } else {
        assert sent.fed + [] == sent.fed;
      }
    }
  }

  /** Nothing is lost and nothing invented: what is shown and held back is what was fed, in order. */
  lemma NothingIsLost(f: Framer)
    requires f.Valid()
    ensures Flatten(FramesOf(f.tap.log[f.start..], f.arrow)) + RawOf(f.tap.log[f.start..], f.arrow) + f.buf == f.fed
  {
    var c := Chop(f.fed);
    ChopIsSplit(f.fed);
    assert Flatten(c.frames) + c.tail + [] == Flatten(c.frames) + [] + c.tail == f.fed;
  }

  // ---- agreement with the blocking reader ----

  /** Reading to the end, resuming after frames refused for using stream zero. */
  function ReadOn(s: bytes, brk: bool): (r: Reading)
    ensures !r.last.Got? && !r.last.StreamZero?
    decreases |s|
  {
    var next := Next(s, brk);
    if next.0.StreamZero? then ReadOn(next.1, brk)
    else if next.0.Got? then
      var rest := ReadOn(next.1, brk);
      Reading([next.0.frame] + rest.frames, rest.last)
    else Reading([], next.0)
  }

  /** Of the frames the tap shows, those a reader accepts. */
  function Accepted(raws: seq<bytes>): seq<Frame>
    requires forall raw | raw in raws :: IsFrame(raw)
  {
    if raws == [] then []
    else
      var f := Parse(raws[0]);
      (if Known(f.typ) && !UsesStreamZero(f) then [f] else []) + Accepted(raws[1..])
  }

  /**
   The reader and the tap agree on every stream: the reader yields the acceptable ones among the
   frames shown; it meets an oversized header exactly when the tap gives up, and a truncation
   exactly when the tap is left with an incomplete frame.
   */
  lemma {:induction false} ShownIsRead(s: bytes, brk: bool)
    ensures ReadOn(s, brk) == Reading(Accepted(Chop(s).frames), TailVerdict(Chop(s).tail, brk))
    decreases |s|
  {
    if StartsWhole(s) {
      var n := FirstLength(s);
      var raw, rest := s[..n], s[n..];
      assert raw[0..4] == s[0..4];
      ShownIsRead(rest, brk);
      assert Chop(s).frames[0] == raw && Chop(s).frames[1..] == Chop(rest).frames;
      if !Known(Parse(raw).typ) {
        ReadOnSkips(s, brk);
      }
    }
  }

  lemma ReadOnSkips(s: bytes, brk: bool)
    requires StartsWhole(s) && !Known(s[4])
    ensures ReadOn(s, brk) == ReadOn(s[FirstLength(s)..], brk)
  {
  }

  /** The same, for what a framer has shown by now. */
  lemma TapAgreesWithReader(f: Framer, brk: bool)
    requires f.Valid()
    ensures var shown := FramesOf(f.tap.log[f.start..], f.arrow); var read := ReadOn(f.fed, brk);
            && (forall raw | raw in shown :: IsFrame(raw))
            && read.frames == Accepted(shown)
            && (f.broken <==> read.last.Oversize?)
            && (!f.broken && !brk ==> read.last == if f.buf == [] then EndOfStream else Truncated)
  {
    ShownIsRead(f.fed, brk);
  }
}
