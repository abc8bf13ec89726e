/** What a client behind the chaos pump makes of a server's stream, whole or cut off. */
module Proxied {
  import opened Bytes
  import opened Frames
  import opened Messages
  import opened Exchanges
  import opened Replies
  import opened EndToEnd
  import opened ZeroFill
  import Chaos

  // ---- a list of frames cut off somewhere ----

  function Images(fs: seq<Frame>): (raws: seq<bytes>)
    requires Sendable(fs)
    ensures |raws| == |fs| && forall i :: 0 <= i < |fs| ==> raws[i] == Image(fs[i])
  {
    seq(|fs|, i requires 0 <= i < |fs| => Image(fs[i]))
  }

  lemma ImagesAreFrames(fs: seq<Frame>)
    requires Sendable(fs)
    ensures Chaos.AllFrames(Images(fs))
  {
    forall i | 0 <= i < |fs| ensures IsFrame(Images(fs)[i]) {
      ImageIsFrame(fs[i]);
    }
  }

  lemma {:induction false} ImagesFlatten(fs: seq<Frame>)
    requires Sendable(fs)
    ensures Flatten(Images(fs)) == Wire(fs)
  {
    if fs != [] {
      ImagesFlatten(fs[1..]);
      assert Images(fs)[1..] == Images(fs[1..]);
    }
  }

  lemma {:induction false} JudgeImages(fs: seq<Frame>, last: ReadResult)
    requires Deliverable(fs)
    ensures Chaos.AllFrames(Images(fs)) && Judge(Images(fs), last) == Reading(fs, last)
  {
    ImagesAreFrames(fs);
    if fs != [] {
      ImageIsFrame(fs[0]);
      JudgeImages(fs[1..], last);
      assert Images(fs)[1..] == Images(fs[1..]);
      assert [fs[0]] + fs[1..] == fs;
    }
  }

  /** Where a cut falls: the frames before it, and how much of the next one. */
  lemma {:induction false} CutFalls(raws: seq<bytes>, k: nat)
    requires Chaos.AllFrames(raws) && k < |Flatten(raws)|
    ensures var j := FramesWithin(raws, k);
            && j < |raws|
            && var at := |Flatten(raws[..j])|;
               at <= k < at + |raws[j]| && Flatten(raws)[..k] == Flatten(raws[..j]) + raws[j][..k - at]
  {
    var whole := Flatten(raws);
    if k < |raws[0]| {
      assert whole[..k] == raws[0][..k] && raws[..0] == [];
      assert [] + raws[0][..k] == raws[0][..k];
    } else {
      var more, m := raws[1..], k - |raws[0]|;
      CutFalls(more, m);
      var j := FramesWithin(more, m);
      assert raws[..1 + j] == [raws[0]] + more[..j];
      HeadAndTail([raws[0]], more[..j]);
      assert whole[..k] == raws[0] + Flatten(more)[..m];
      Assoc(raws[0], Flatten(more[..j]), more[j][..m - |Flatten(more[..j])|]);
    }
  }

  /** The frame a cut falls into, and how many of its bytes come before the cut. */
  function CutFrame(fs: seq<Frame>, k: nat): nat
    requires Sendable(fs) && k <= |Wire(fs)|
  {
    ImagesFlatten(fs);
    FramesWithin(Images(fs), k)
  }

  lemma CutChops(fs: seq<Frame>, k: nat)
    requires Sendable(fs) && k < |Wire(fs)|
    ensures var j := CutFrame(fs, k);
            && j < |fs| && |Wire(fs[..j])| <= k < |Wire(fs[..j])| + |Image(fs[j])|
            && Chop(Wire(fs)[..k]) == Chopped(Images(fs[..j]), Image(fs[j])[..k - |Wire(fs[..j])|])
            && !StartsWhole(Image(fs[j])[..k - |Wire(fs[..j])|]) && !Oversized(Image(fs[j])[..k - |Wire(fs[..j])|])
  {
    var raws, j := Images(fs), CutFrame(fs, k);
    ImagesAreFrames(fs);
    ImagesFlatten(fs);
    CutFalls(raws, k);
    assert raws[..j] == Images(fs[..j]);
    ImagesAreFrames(fs[..j]);
    ImagesFlatten(fs[..j]);
    ImageIsFrame(fs[j]);
    StrictPrefixIsNoFrame(raws[j], k - |Wire(fs[..j])|);
    ChopFlatten(Images(fs[..j]), raws[j][..k - |Wire(fs[..j])|]);
  }

  /** A frame of which only n payload bytes arrived, filled up with zeros. */
  function Padded(f: Frame, n: nat): (g: Frame)
    requires n <= |f.payload|
    ensures |g.payload| == |f.payload|
  {
    f.(payload := Filled(f.payload, n))
  }

  lemma TailIsPadded(f: Frame, m: nat)
    requires Encodable(f) && HEADER_SIZE <= m < |Image(f)|
    requires !StartsWhole(Image(f)[..m]) && !Oversized(Image(f)[..m])
    ensures Chaos.TailSent(Image(f)[..m]) == Image(Padded(f, m - HEADER_SIZE))
  {
    var tail, n := Image(f)[..m], m - HEADER_SIZE;
    U32RoundTrip(|f.payload|);
    assert tail[0..4] == PutU32(|f.payload|);
    var head := PutU32(|f.payload|) + [f.typ, f.flags, 0, 0] + PutU32(f.stream);
    assert tail == head + f.payload[..n];
    Assoc(head, f.payload[..n], Zeros(|f.payload| - n));
  }

  /** What is read behind the pump when a list of frames is cut off. */
  function BehindPump(fs: seq<Frame>, k: nat): seq<Frame>
    requires Sendable(fs) && k < |Wire(fs)|
  {
    CutChops(fs, k);
    var j := CutFrame(fs, k);
    var m := k - |Wire(fs[..j])|;
    if m < HEADER_SIZE then fs[..j] else fs[..j] + [Padded(fs[j], m - HEADER_SIZE)]
  }

  /** Frames cut off inside a header lose that header; cut off inside a body they look whole. */
  lemma CutIsRead(fs: seq<Frame>, k: nat, ps: seq<Chaos.Piece>)
    requires Deliverable(fs) && k < |Wire(fs)|
    requires Chaos.LegalPieces(ps) && Chaos.Relayed(ps) == Chop(Wire(fs)[..k]).frames
    ensures ReadAll(Chaos.Output(ps, Wire(fs)[..k]), false) == Reading(BehindPump(fs, k), EndOfStream)
  {
    hide ReadAll, Wire, Judge, Chop;
    CutChops(fs, k);
    var j := CutFrame(fs, k);
    var m := k - |Wire(fs[..j])|;
    if m < HEADER_SIZE {
      Chaos.PassedOn(ps, Wire(fs)[..k]);
      JudgeImages(fs[..j], EndOfStream);
    } else {
      CutIsFilled(fs, k, j, m, ps);
    }
  }

  /** Pieces that relay some frames are read as those frames. */
  lemma PiecesAreRead(ps: seq<Chaos.Piece>, fs: seq<Frame>)
    requires Deliverable(fs) && Chaos.LegalPieces(ps) && Chaos.Relayed(ps) == Images(fs)
    ensures Chaos.AllFrames(Chaos.Raws(ps)) && Judge(Chaos.Raws(ps), EndOfStream) == Reading(fs, EndOfStream)
  {
    Chaos.NoiseIsSkipped(ps, EndOfStream);
    JudgeImages(fs, EndOfStream);
  }

  lemma ImagesSnoc(front: seq<Frame>, g: Frame)
    requires Sendable(front) && Encodable(g)
    ensures Images(front + [g]) == Images(front) + [Image(g)]
  {
  }

  /** Pieces that relay some frames, and one more frame behind them. */
  lemma OneMoreFrame(ps: seq<Chaos.Piece>, front: seq<Frame>, g: Frame)
    requires Deliverable(front) && Known(g.typ) && Encodable(g)
    requires Chaos.LegalPieces(ps) && Chaos.Relayed(ps) == Images(front)
    ensures var raws := Chaos.Raws(ps) + [Image(g)];
            Chaos.AllFrames(raws) && Judge(raws, EndOfStream) == Reading(front + [g], EndOfStream)
  {
    var p := Chaos.Relay(Image(g));
    ImageIsFrame(g);
    Chaos.PieceAdded(ps, p);
    ImagesSnoc(front, g);
    PiecesAreRead(ps + [p], front + [g]);
    assert Chaos.Raws(ps + [p]) == Chaos.Raws(ps) + [Image(g)];
  }

  lemma CutIsFilled(fs: seq<Frame>, k: nat, j: nat, m: nat, ps: seq<Chaos.Piece>)
    requires Deliverable(fs) && k < |Wire(fs)| && j < |fs| && HEADER_SIZE <= m < |Image(fs[j])|
    requires !StartsWhole(Image(fs[j])[..m]) && !Oversized(Image(fs[j])[..m])
    requires Chop(Wire(fs)[..k]) == Chopped(Images(fs[..j]), Image(fs[j])[..m])
    requires Chaos.LegalPieces(ps) && Chaos.Relayed(ps) == Images(fs[..j])
    ensures ReadAll(Chaos.Output(ps, Wire(fs)[..k]), false)
            == Reading(fs[..j] + [Padded(fs[j], m - HEADER_SIZE)], EndOfStream)
  {
    TailIsPadded(fs[j], m);
    Chaos.FilledUp(ps, Wire(fs)[..k]);
    OneMoreFrame(ps, fs[..j], Padded(fs[j], m - HEADER_SIZE));
  }

  // ---- a client checks lengths, not contents ----

  predicate SameShape(f: Frame, g: Frame) {
    f.typ == g.typ && f.flags == g.flags && f.stream == g.stream && |f.payload| == |g.payload|
  }

  predicate SameShapes(fs: seq<Frame>, gs: seq<Frame>) {
    |fs| == |gs| && forall i :: 0 <= i < |fs| ==> SameShape(fs[i], gs[i])
  }

  lemma PayloadsOne(f: Frame)
    ensures Payloads([f]) == f.payload
  {
    assert [f][1..] == [];
  }

  lemma PayloadsPrefix(gs: seq<Frame>, n: nat)
    requires n < |gs|
    ensures Payloads(gs[..1 + n]) == gs[0].payload + Payloads(gs[1..][..n])
  {
    assert gs[..1 + n][0] == gs[0] && gs[..1 + n][1..] == gs[1..][..n];
  }

  /** An accepted body stays accepted whatever its bytes are turned into, and those bytes are written. */
  lemma {:induction false} SameLengthsSameVerdict(fs: seq<Frame>, gs: seq<Frame>, last: ReadResult, id: u32,
                                                  resp: Response, got: nat)
    requires SameShapes(fs, gs) && !last.Got?
    requires ReadBody(fs, last, id, resp, got).result.Ok?
    ensures var r, q := ReadBody(fs, last, id, resp, got), ReadBody(gs, last, id, resp, got);
            q.result == r.result && q.used == r.used && q.body == Payloads(gs[..r.used])
  {
    hide Payloads, Judged;
    var f, g := fs[0], gs[0];
    assert SameShape(f, g);
    if EndsStream(f.flags) {
      assert gs[..1] == [g];
      PayloadsOne(g);
    } else {
      var n := got + |f.payload|;
      assert SameShapes(fs[1..], gs[1..]);
      SameLengthsSameVerdict(fs[1..], gs[1..], last, id, resp, n);
      var used := ReadBody(fs[1..], last, id, resp, n).used;
      PayloadsPrefix(gs, used);
    }
  }

  /** The same for a whole reply of several frames, whose RESPONSE is kept. */
  lemma SameReply(fs: seq<Frame>, gs: seq<Frame>, last: ReadResult, id: u32)
    requires |fs| > 1 && SameShapes(fs, gs) && gs[0] == fs[0] && !last.Got?
    requires var r := ReadReply(Reading(fs, last), id); r.result.Ok? && r.used == |fs|
    ensures var r := ReadReply(Reading(fs, last), id);
            ReadReply(Reading(gs, last), id) == Reply(r.result, Payloads(gs[1..]), |gs|)
  {
    var resp := ParseResponse(fs[0].payload).value;
    assert forall i :: 0 <= i < |fs[1..]| ==> fs[1..][i] == fs[i + 1] && gs[1..][i] == gs[i + 1];
    SameLengthsSameVerdict(fs[1..], gs[1..], last, id, resp, 0);
    assert gs[1..][..|gs| - 1] == gs[1..];
  }

  /** A RESPONSE that promises a body, and then nothing. */
  lemma ResponseAloneFails(g: Frame, id: u32)
    requires !EndsStream(g.flags)
    ensures ReadReply(Reading([g], EndOfStream), id).result.Err?
  {
    assert [g][1..] == [];
  }

  lemma {:induction false} PayloadsAppend(a: seq<Frame>, b: seq<Frame>)
    ensures Payloads(a + b) == Payloads(a) + Payloads(b)
  {
    if a == [] {
      assert a + b == b;
    } else {
      HeadAndTail(a, b);
      PayloadsAppend(a[1..], b);
      Assoc(a[0].payload, Payloads(a[1..]), Payloads(b));
    }
  }

  // ---- a download cut off behind the pump ----

  lemma WireSplits(fs: seq<Frame>, j: nat)
    requires Sendable(fs) && j < |fs|
    ensures |Wire(fs[..j])| + |Image(fs[j])| == |Wire(fs[..j + 1])|
  {
    WireOne(fs[j]);
    WireAppend(fs[..j], [fs[j]]);
    assert fs[..j] + [fs[j]] == fs[..j + 1];
  }

  lemma WireGrows(fs: seq<Frame>, i: nat, j: nat)
    requires Sendable(fs) && i <= j <= |fs|
    ensures |Wire(fs[..i])| <= |Wire(fs[..j])|
  {
    WireAppend(fs[..i], fs[i..j]);
    assert fs[..i] + fs[i..j] == fs[..j];
  }

  /** Where a cut falls, told from the end of the last header. */
  lemma CutInLast(fs: seq<Frame>, k: nat)
    requires Sendable(fs) && k < |Wire(fs)|
    ensures var j, last, missing := CutFrame(fs, k), |fs| - 1, |Wire(fs)| - k;
            && 0 <= last && |Wire(fs[..last])| + |Image(fs[last])| == |Wire(fs)|
            && j <= last && |Wire(fs[..j])| <= k
            && (missing <= |fs[last].payload| <==> j == last && k - |Wire(fs[..j])| >= HEADER_SIZE)
  {
    var j, last := CutFrame(fs, k), |fs| - 1;
    CutChops(fs, k);
    WireSplits(fs, last);
    assert fs[..last + 1] == fs;
    WireSplits(fs, j);
    if j < last {
      WireGrows(fs, j + 1, last);
    }
  }

  /** Cut off inside an earlier DATA frame: that frame is filled up, and then the stream ends. */
  lemma FilledTooEarly(x: seq<Frame>, j: nat, n: nat, stream: u32)
    requires 0 < j && j + 1 < |x| && n <= |x[j].payload|
    requires var r := ReadReply(Reading(x, EndOfStream), stream); r.result.Ok? && r.used == |x|
    ensures ReadReply(Reading(x[..j] + [Padded(x[j], n)], EndOfStream), stream).result.Err?
  {
    var y := x[j := Padded(x[j], n)];
    SameReply(x, y, EndOfStream, stream);
    CutFramesFail(Reading(y, EndOfStream), j + 1, EndOfStream, stream);
    assert x[..j] + [Padded(x[j], n)] == y[..j + 1];
  }

  /** An accepted reply of several frames, cut off: the frames read behind the pump are not enough. */
  lemma CutEarlyFails(x: seq<Frame>, k: nat, stream: u32)
    requires Deliverable(x) && k < |Wire(x)| && |x| > 1 && !EndsStream(x[0].flags)
    requires var r := ReadReply(Reading(x, EndOfStream), stream); r.result.Ok? && r.used == |x|
    requires |Wire(x)| - k > |x[|x| - 1].payload|
    ensures ReadReply(Reading(BehindPump(x, k), EndOfStream), stream).result.Err?
  {
    CutInLast(x, k);
    CutChops(x, k);
    var j := CutFrame(x, k);
    var m := k - |Wire(x[..j])|;
    if m < HEADER_SIZE {
      CutFramesFail(Reading(x, EndOfStream), j, EndOfStream, stream);
    } else if j == 0 {
      assert BehindPump(x, k) == [Padded(x[0], m - HEADER_SIZE)];
      ResponseAloneFails(Padded(x[0], m - HEADER_SIZE), stream);
    } else {
      FilledTooEarly(x, j, m - HEADER_SIZE, stream);
    }
  }

  /** Cut off inside the last payload, every frame is still read, the last one filled up. */
  lemma LateCutIsRead(x: seq<Frame>, k: nat)
    requires Sendable(x) && k < |Wire(x)| && |Wire(x)| - k <= |x[|x| - 1].payload|
    ensures var last, missing := |x| - 1, |Wire(x)| - k;
            BehindPump(x, k) == x[..last] + [Padded(x[last], |x[last].payload| - missing)]
  {
    CutInLast(x, k);
  }

  /** A reply whose last frame is filled up with zeros. */
  lemma FilledReply(front: seq<Frame>, f: Frame, missing: nat, stream: u32)
    requires front != [] && missing <= |f.payload|
    requires var r := ReadReply(Reading(front + [f], EndOfStream), stream); r.result.Ok? && r.used == |front| + 1
    ensures var r := ReadReply(Reading(front + [f], EndOfStream), stream);
            && missing <= |r.body|
            && ReadReply(Reading(front + [Padded(f, |f.payload| - missing)], EndOfStream), stream)
               == Reply(r.result, Filled(r.body, |r.body| - missing), |front| + 1)
  {
    var g := Padded(f, |f.payload| - missing);
    SameReply(front + [f], front + [f], EndOfStream, stream);
    SameReply(front + [f], front + [g], EndOfStream, stream);
    HeadAndTail(front, [f]);
    HeadAndTail(front, [g]);
    PayloadsAppend(front[1..], [f]);
    PayloadsAppend(front[1..], [g]);
    PayloadsOne(f);
    PayloadsOne(g);
    FilledBehind(Payloads(front[1..]), f.payload, missing);
  }

  /** Cut off inside the last payload, it is accepted, with zeros for what is missing. */
  lemma CutLateSucceeds(x: seq<Frame>, k: nat, stream: u32)
    requires Deliverable(x) && k < |Wire(x)| && |x| > 1
    requires var r := ReadReply(Reading(x, EndOfStream), stream); r.result.Ok? && r.used == |x|
    requires |Wire(x)| - k <= |x[|x| - 1].payload|
    ensures var r := ReadReply(Reading(x, EndOfStream), stream); var missing := |Wire(x)| - k;
            && missing <= |r.body|
            && ReadReply(Reading(BehindPump(x, k), EndOfStream), stream)
               == Reply(r.result, Filled(r.body, |r.body| - missing), |x|)
  {
    hide ReadReply, Padded;
    var last := |x| - 1;
    LateCutIsRead(x, k);
    assert x == x[..last] + [x[last]];
    FilledReply(x[..last], x[last], |Wire(x)| - k, stream);
  }

  lemma FilledBehind(front: bytes, p: bytes, missing: nat)
    requires missing <= |p|
    ensures front + Filled(p, |p| - missing) == Filled(front + p, |front + p| - missing)
  {
    assert (front + p)[..|front + p| - missing] == front + p[..|p| - missing];
    Assoc(front, p[..|p| - missing], Zeros(missing));
  }

  /** Any accepted reply of several frames, cut off on the server's side of the pump. */
  lemma CutReplyBehindPump(x: seq<Frame>, k: nat, stream: u32, ps: seq<Chaos.Piece>)
    requires Deliverable(x) && k < |Wire(x)| && |x| > 1 && !EndsStream(x[0].flags)
    requires var r := ReadReply(Reading(x, EndOfStream), stream); r.result.Ok? && r.used == |x|
    requires Chaos.LegalPieces(ps) && Chaos.Relayed(ps) == Chop(Wire(x)[..k]).frames
    ensures var whole := ReadReply(Reading(x, EndOfStream), stream); var missing := |Wire(x)| - k;
            var r := ReadReply(ReadAll(Chaos.Output(ps, Wire(x)[..k]), false), stream);
            && (r.result.Ok? <==> missing <= |x[|x| - 1].payload|)
            && (r.result.Ok? ==>
                  && missing <= |whole.body|
                  && r == Reply(whole.result, Filled(whole.body, |whole.body| - missing), |x|))
  {
    CutIsRead(x, k, ps);
    if |Wire(x)| - k <= |x[|x| - 1].payload| {
      CutLateSucceeds(x, k, stream);
    } else {
      CutEarlyFails(x, k, stream);
    }
  }

  // ---- a whole run through the pump ----

  /** A stream that ends between frames is read behind the pump as it is without it. */
  lemma CleanStreamSurvives(s: bytes, ps: seq<Chaos.Piece>)
    requires ReadAll(s, false).last == EndOfStream
    requires Chaos.LegalPieces(ps) && Chaos.Relayed(ps) == Chop(s).frames
    ensures ReadAll(Chaos.Output(ps, s), false) == ReadAll(s, false)
  {
    var c := Chop(s);
    ReadAllIsJudge(s, false);
    Chaos.JudgedEnd(c.frames, TailVerdict(c.tail, false));
    assert c.tail == [];
    Chaos.PumpIsInvisible(ps, s, false);
  }

  /**
   The whole run through the proxy: whatever noise it injects into the server's output, the replies
   read behind it are the statuses and bodies the tree assigns, in order, with nothing left over.
   */
  lemma WholeRunThroughPump(asks: seq<Ask>, id: nat, tree: FileTree, ps: seq<Chaos.Piece>)
    requires Sound(asks, tree) && 0 < id && id + |asks| <= 0x1_0000_0000
    requires var output := Serve(Wire(RequestFrames(asks, id)), false, tree);
             Sendable(output) && Chaos.LegalPieces(ps) && Chaos.Relayed(ps) == Chop(Wire(output)).frames
    ensures var output := Serve(Wire(RequestFrames(asks, id)), false, tree);
            var received := ReadAll(Chaos.Output(ps, Wire(output)), false);
            && received.last == EndOfStream
            && var (replies, left) := Session(received, id, |asks|);
               AsAssigned(replies, asks, tree) && left == []
  {
    var output := Serve(Wire(RequestFrames(asks, id)), false, tree);
    WholeRun(asks, id, tree);
    CleanStreamSurvives(Wire(output), ps);
  }
}
