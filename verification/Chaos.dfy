/**
 The chaos pump: it cuts the server's stream into pieces of random size and slips frames of unknown
 types between the real ones. A correct reader must not be able to tell.
 */
module Chaos {
  import opened Bytes
  import opened Frames
  import opened Transport

  /** The types no version of the protocol has assigned. */
  const UNKNOWN_TYPES: seq<byte> := [0x05, 0x06, 0x0A, 0x7E, 0x80, 0xFE, 0xFF]

  /** What the pump sends: a frame of the server's, or one of its own. */
  datatype Piece = Relay(raw: bytes) | Noise(raw: bytes)

  predicate LegalPiece(p: Piece) {
    IsFrame(p.raw) && (p.Noise? ==> !Known(TypeOf(p.raw)))
  }

  predicate LegalPieces(ps: seq<Piece>) {
    forall i :: 0 <= i < |ps| ==> LegalPiece(ps[i])
  }

  function Raws(ps: seq<Piece>): (raws: seq<bytes>)
    ensures |raws| == |ps| && forall i :: 0 <= i < |ps| ==> raws[i] == ps[i].raw
  {
    seq(|ps|, i requires 0 <= i < |ps| => ps[i].raw)
  }

  function Relayed(ps: seq<Piece>): seq<bytes> {
    if ps == [] then [] else (if ps[0].Relay? then [ps[0].raw] else []) + Relayed(ps[1..])
  }

  function Injections(ps: seq<Piece>): nat {
    if ps == [] then 0 else (if ps[0].Noise? then 1 else 0) + Injections(ps[1..])
  }

  lemma {:induction false} PiecesAppend(a: seq<Piece>, b: seq<Piece>)
    ensures Relayed(a + b) == Relayed(a) + Relayed(b)
    ensures Injections(a + b) == Injections(a) + Injections(b)
  {
    if a == [] {
      assert a + b == b;
    } else {
      HeadAndTail(a, b);
      PiecesAppend(a[1..], b);
      Assoc(if a[0].Relay? then [a[0].raw] else [], Relayed(a[1..]), Relayed(b));
    }
  }

  lemma OnePiece(p: Piece)
    ensures Relayed([p]) == if p.Relay? then [p.raw] else []
    ensures Injections([p]) == if p.Noise? then 1 else 0
  {
    assert [p][1..] == [];
  }

  predicate Ends(raw: bytes) {
    |raw| >= HEADER_SIZE && EndsStream(raw[5])
  }

  // ---- where the noise goes ----

  /** How many pieces carry one of the server's frames and the noise around it. */
  function BurstSize(raw: bytes, noise: bool): nat {
    if !noise then 1 else if Ends(raw) then 3 else 2
  }

  /** One frame of noise before the frame, and one behind it if it ends a stream. */
  predicate IsBurst(b: seq<Piece>, raw: bytes, noise: bool) {
    && |b| == BurstSize(raw, noise)
    && if !noise then b[0] == Relay(raw)
       else b[0].Noise? && b[1] == Relay(raw) && (Ends(raw) ==> b[2].Noise?)
  }

  /** The pieces are the frames in order, each with its noise around it, and nothing else. */
  predicate Placed(ps: seq<Piece>, frames: seq<bytes>, noise: bool) {
    if frames == [] then ps == []
    else
      var n := BurstSize(frames[0], noise);
      n <= |ps| && IsBurst(ps[..n], frames[0], noise) && Placed(ps[n..], frames[1..], noise)
  }

  lemma {:induction false} PlacedSnoc(ps: seq<Piece>, frames: seq<bytes>, burst: seq<Piece>, raw: bytes, noise: bool)
    requires Placed(ps, frames, noise) && IsBurst(burst, raw, noise)
    ensures Placed(ps + burst, frames + [raw], noise)
  {
    hide Ends, BurstSize;
    if frames == [] {
      assert ps + burst == burst && frames + [raw] == [raw];
      assert burst[..|burst|] == burst && burst[|burst|..] == [] && [raw][1..] == [];
    } else {
      var n := BurstSize(frames[0], noise);
      HeadAndTail(frames, [raw]);
      PlacedSnoc(ps[n..], frames[1..], burst, raw, noise);
      assert (ps + burst)[..n] == ps[..n] && (ps + burst)[n..] == ps[n..] + burst;
    }
  }

  /** One frame of noise before every frame, and one more behind each that ends a stream. */
  function NoiseFor(frames: seq<bytes>): nat {
    if frames == [] then 0 else (if Ends(frames[0]) then 2 else 1) + NoiseFor(frames[1..])
  }

  lemma BurstMeans(b: seq<Piece>, raw: bytes, noise: bool)
    requires IsBurst(b, raw, noise)
    ensures Relayed(b) == [raw] && Injections(b) == BurstSize(raw, noise) - 1
  {
    OnePiece(b[0]);
    if noise {
      OnePiece(b[1]);
      PiecesAppend([b[0]], [b[1]]);
      assert [b[0]] + [b[1]] == b[..2];
      if Ends(raw) {
        OnePiece(b[2]);
        PiecesAppend(b[..2], [b[2]]);
        assert b[..2] + [b[2]] == b;
      } else {
        assert b[..2] == b;
      }
    } else {
      assert b == [b[0]];
    }
  }

  /** Placed pieces relay exactly the frames and hold exactly the noise they call for. */
  lemma {:induction false} PlacedMeans(ps: seq<Piece>, frames: seq<bytes>, noise: bool)
    requires Placed(ps, frames, noise)
    ensures Relayed(ps) == frames
    ensures Injections(ps) == if noise then NoiseFor(frames) else 0
  {
    if frames != [] {
      var n := BurstSize(frames[0], noise);
      BurstMeans(ps[..n], frames[0], noise);
      PlacedMeans(ps[n..], frames[1..], noise);
      PiecesAppend(ps[..n], ps[n..]);
      assert ps[..n] + ps[n..] == ps;
      assert [frames[0]] + frames[1..] == frames;
    }
  }

  /** What is made of the bytes behind the last whole frame. */
  function TailSent(tail: bytes): bytes
    requires !StartsWhole(tail)
  {
    if |tail| < HEADER_SIZE then []                                    // a partial header is dropped
    else if Oversized(tail) then tail                                  // passed on as it comes
    else tail + Zeros(HEADER_SIZE + DeclaredLength(tail) - |tail|)     // a partial body is filled up
  }

  lemma PieceAdded(ps: seq<Piece>, p: Piece)
    ensures Relayed(ps + [p]) == Relayed(ps) + (if p.Relay? then [p.raw] else [])
    ensures Injections(ps + [p]) == Injections(ps) + (if p.Noise? then 1 else 0)
    ensures Flatten(Raws(ps + [p])) == Flatten(Raws(ps)) + p.raw
    ensures LegalPieces(ps) && LegalPiece(p) ==> LegalPieces(ps + [p])
  {
    PiecesAppend(ps, [p]);
    OnePiece(p);
    assert Raws(ps + [p]) == Raws(ps) + [p.raw];
    FlattenSnoc(Raws(ps), p.raw);
  }

  /** What the pump finds next in the server's stream. */
  datatype Taken = Whole(raw: bytes) | Unframed(hdr: bytes) | Partial(fill: bytes)

  /** Reads a header and then a body; a body cut short keeps its full length, filled with zeros. */
  method Take(src: Source) returns (t: Taken)
    modifies src`pending
    ensures var s := old(src.pending);
            if StartsWhole(s) then t == Whole(s[..FirstLength(s)]) && src.pending == s[FirstLength(s)..]
            else if Oversized(s) then t.Unframed? && s == t.hdr + src.pending
            else t == Partial(TailSent(s))
    ensures t.Whole? ==> IsFrame(t.raw)
  {
    ghost var s := src.pending;
    var hdr, err := src.ReadFull(HEADER_SIZE);
    if err != NoError {
      return Partial([]);
    }
    assert s[0..4] == hdr[0..4];
    var length := GetU32(hdr[0..4]);
    if length > MAX_PAYLOAD {
      return Unframed(hdr);
    }
    var body;
    body, err := src.ReadFull(length);
    if err != NoError {
      assert s == hdr + body;
      Assoc(hdr, body, Zeros(length - |body|));
      return Partial(hdr + (body + Zeros(length - |body|)));
    }
    assert s[..HEADER_SIZE + length] == hdr + body;
    assert src.pending == s[HEADER_SIZE + length..];
    assert (hdr + body)[0..4] == hdr[0..4];
    return Whole(hdr + body);
  }

  /** How one turn of the pump's loop comes out. */
  datatype Turn = On | AtEnd | Lost

  class Pump {
    const out: Sink
    const noise: bool
    const chunk: int
    var frames: nat
    var injected: nat
    var writes: nat

    /** What the sink held at the start, the pieces handed to it since, and the raw bytes after them. */
    ghost var origin: bytes
    ghost var pieces: seq<Piece>
    ghost var rest: bytes

    /** The sink has what was handed to it, short only by what a failed write lost. */
    ghost predicate Synced()
      reads this, out
    {
      && LegalPieces(pieces)
      && out.out <= origin + Flatten(Raws(pieces)) + rest
      && (!out.failed ==> out.out == origin + Flatten(Raws(pieces)) + rest)
    }

    ghost predicate Counted()
      reads this
    {
      && frames == |Relayed(pieces)| && injected == Injections(pieces)
      && (!noise ==> injected == 0)
    }

    constructor (out: Sink, noise: bool, chunk: int)
      requires !out.failed
      ensures Synced() && Counted() && this.out == out && this.noise == noise && this.chunk == chunk
      ensures origin == out.out && pieces == [] && rest == []
    {
      this.out := out;
      this.noise := noise;
      this.chunk := chunk;
      frames, injected, writes := 0, 0, 0;
      origin := out.out;
      pieces, rest := [], [];
      new;
      assert origin + [] + [] == origin;
    }

    /**
     Writes b in pieces of random size, each at most `chunk` if that is positive; `cuts` are the
     pieces written in full.
     */
    method WriteChunked(b: bytes) returns (ok: bool, ghost cuts: seq<bytes>)
      modifies out, `writes
      ensures ok ==> Flatten(cuts) == b && out.out == old(out.out) + b && out.failed == old(out.failed)
      ensures !ok ==> out.failed && old(out.out) <= out.out <= old(out.out) + b
      ensures Flatten(cuts) <= b && writes == old(writes) + |cuts|
      ensures forall i :: 0 <= i < |cuts| ==> 1 <= |cuts[i]| && (chunk > 0 ==> |cuts[i]| <= chunk)
      ensures ok && chunk <= 0 ==> cuts == if b == [] then [] else [b]
    {
      var left := b;
      cuts := [];
      assert [] + b == b && out.out + [] == out.out;
      while |left| > 0
        invariant b == Flatten(cuts) + left
        invariant out.out == old(out.out) + Flatten(cuts) && out.failed == old(out.failed)
        invariant writes == old(writes) + |cuts|
        invariant forall i :: 0 <= i < |cuts| ==> 1 <= |cuts[i]| && (chunk > 0 ==> |cuts[i]| <= chunk)
        invariant chunk <= 0 ==> (cuts == [] && left == b) || (cuts == [b] && left == [] && b != [])
        decreases |left|
      {
        var n := |left|;
        if chunk > 0 {
          var some: int := *;
          n := Min(n, if 1 <= some <= chunk then some else 1);
        }
        var piece, more := left[..n], left[n..];
        CutOff(old(out.out), cuts, left, n);
        var sent := out.WriteAll(piece);
        if !sent {
          return false, cuts;
        }
        writes := writes + 1;
        cuts := cuts + [piece];
        left := more;
      }
      assert Flatten(cuts) + [] == Flatten(cuts);
      ok := true;
    }

    /** Sends one frame, the server's or the pump's own. */
    method SendPiece(p: Piece) returns (ok: bool)
      requires Synced() && !out.failed && rest == [] && LegalPiece(p)
      modifies out, `writes, `pieces
      ensures Synced() && pieces == old(pieces) + [p] && ok == !out.failed
    {
      PieceAdded(pieces, p);
      PieceOnWire(origin, Flatten(Raws(pieces)), p.raw);
      pieces := pieces + [p];
      ghost var cuts;
      ok, cuts := WriteChunked(p.raw);
    }

    /** Sends bytes that are no frame. */
    method SendRest(b: bytes) returns (ok: bool)
      requires Synced() && !out.failed
      modifies out, `writes, `rest
      ensures Synced() && rest == old(rest) + b && ok == !out.failed
    {
      Assoc(origin + Flatten(Raws(pieces)), rest, b);
      rest := rest + b;
      ghost var cuts;
      ok, cuts := WriteChunked(b);
    }

    /** One frame of an unknown type; all else in it is arbitrary. */
    method Inject() returns (ok: bool, ghost p: Piece)
      requires Synced() && Counted() && !out.failed && rest == [] && noise
      modifies out, `writes, `injected, `pieces
      ensures Synced() && Counted() && ok == !out.failed
      ensures p.Noise? && pieces == old(pieces) + [p] && injected == old(injected) + 1
      ensures Relayed(pieces) == old(Relayed(pieces))
    {
      var raw := RandomNoise();
      p := Noise(raw);
      PieceAdded(pieces, p);
      injected := injected + 1;
      ok := SendPiece(Noise(raw));
    }

    /** The server's own frame. */
    method Relaying(raw: bytes) returns (ok: bool)
      requires Synced() && Counted() && !out.failed && rest == [] && IsFrame(raw)
      modifies out, `writes, `frames, `pieces
      ensures Synced() && Counted() && ok == !out.failed
      ensures pieces == old(pieces) + [Relay(raw)] && Relayed(pieces) == old(Relayed(pieces)) + [raw]
    {
      PieceAdded(pieces, Relay(raw));
      frames := frames + 1;
      ok := SendPiece(Relay(raw));
    }

    /** One whole frame of the server's, and the noise around it. */
    method RelayFrame(raw: bytes) returns (ok: bool, ghost burst: seq<Piece>)
      requires Synced() && Counted() && !out.failed && rest == [] && IsFrame(raw)
      modifies out, `writes, `frames, `injected, `pieces
      ensures Synced() && Counted() && ok == !out.failed
      ensures pieces == old(pieces) + burst && (ok ==> IsBurst(burst, raw, noise))
      ensures !ok ==> Relayed(pieces) == old(Relayed(pieces)) || Relayed(pieces) == old(Relayed(pieces)) + [raw]
    {
      hide Relayed, Injections, Flatten, Raws;
      burst := [];
      ghost var p;
      if noise {
        ok, p := Inject();
        burst := [p];
        if !ok {
          return;
        }
      }
      assert pieces == old(pieces) + burst;
      ok := Relaying(raw);
      burst := burst + [Relay(raw)];
      if !ok {
        return;
      }
      if noise && EndsStream(raw[5]) {
        ok, p := Inject();
        burst := burst + [p];
      }
    }

    /** A header declaring too much, and everything behind it. */
    method PassOn(hdr: bytes, src: Source)
      requires Synced() && !out.failed && rest == []
      modifies src`pending, out, `writes, `rest
      ensures Synced() && rest <= hdr + old(src.pending)
      ensures !out.failed ==> rest == hdr + old(src.pending)
    {
      assert [] + hdr == hdr;
      var ok := SendRest(hdr);
      if ok {
        CopyRaw(src);
      }
    }

    /** The last turn: what is no whole frame is passed on, filled up or dropped. */
    method EndWith(taken: Taken, src: Source) returns (turn: Turn)
      requires Synced() && !out.failed && rest == [] && !taken.Whole?
      modifies src`pending, out, `writes, `rest
      ensures Synced() && !turn.On? && (turn.Lost? <==> out.failed)
      ensures var tail := if taken.Partial? then taken.fill else taken.hdr + old(src.pending);
              if turn.AtEnd? then rest == tail else rest <= tail
    {
      if taken.Unframed? {
        PassOn(taken.hdr, src);
        return if out.failed then Lost else AtEnd;
      }
      if taken.fill != [] {
        var sent := SendRest(taken.fill);
        return if sent then AtEnd else Lost;
      }
      return AtEnd;
    }

    /** One turn of the loop in run. */
    method Step(src: Source) returns (turn: Turn, ghost burst: seq<Piece>)
      requires Synced() && Counted() && !out.failed && rest == []
      modifies src`pending, out, `writes, `frames, `injected, `pieces, `rest
      ensures Synced() && Counted() && (turn.Lost? <==> out.failed) && pieces == old(pieces) + burst
      ensures turn.On? ==>
                var s := old(src.pending);
                && StartsWhole(s) && src.pending == s[FirstLength(s)..] && rest == []
                && IsBurst(burst, s[..FirstLength(s)], noise)
      ensures turn.AtEnd? ==>
                !StartsWhole(old(src.pending)) && rest == TailSent(old(src.pending)) && burst == []
      ensures turn.Lost? ==>
                var s := old(src.pending);
                if StartsWhole(s) then
                  && rest == []
                  && (|| Relayed(pieces) == old(Relayed(pieces))
                      || Relayed(pieces) == old(Relayed(pieces)) + [s[..FirstLength(s)]])
                else burst == [] && rest <= TailSent(s)
    {
      var taken := Take(src);
      if !taken.Whole? {
        burst := [];
        turn := EndWith(taken, src);
        return;
      }
      var ok;
      ok, burst := RelayFrame(taken.raw);
      turn := if ok then On else Lost;
    }

    /**
     Relays the server's stream to the client until it ends or the client is gone. All that goes
     out is the server's whole frames, in order, each with its noise around it, and what is made of
     the bytes behind the last whole frame.
     */
    method Run(src: Source)
      requires Synced() && Counted() && !out.failed && pieces == [] && rest == []
      modifies src`pending, out, `writes, `frames, `injected, `pieces, `rest
      ensures Synced() && Counted()
      ensures var all := Chop(old(src.pending));
              if out.failed then Relayed(pieces) <= all.frames && rest <= TailSent(all.tail)
              else
                && Placed(pieces, all.frames, noise) && rest == TailSent(all.tail)
                && Relayed(pieces) == all.frames
                && injected == if noise then NoiseFor(all.frames) else 0
    {
      hide Relayed, TailSent, Injections, NoiseFor, Raws, Flatten, Chop;
      ghost var all := Chop(src.pending);
      ghost var done: seq<bytes> := [];
      var turn := On;
      assert [] + all.frames == all.frames;
      while turn.On?
        invariant Synced() && Counted()
        invariant turn.On? ==>
                    && !out.failed && rest == [] && Placed(pieces, done, noise)
                    && all.frames == done + Chop(src.pending).frames && all.tail == Chop(src.pending).tail
        invariant turn.AtEnd? ==> !out.failed && Placed(pieces, all.frames, noise) && rest == TailSent(all.tail)
        invariant turn.Lost? ==> out.failed && Relayed(pieces) <= all.frames && rest <= TailSent(all.tail)
        decreases turn.On?, |src.pending|
      {
        ghost var s, before := src.pending, pieces;
        ghost var burst;
        PlacedMeans(pieces, done, noise);
        NextFrame(done, s);
        turn, burst := Step(src);
        if turn.On? {
          PlacedSnoc(before, done, burst, s[..FirstLength(s)], noise);
          done := done + [s[..FirstLength(s)]];
        } else {
          assert before + [] == before;
        }
      }
      if turn.AtEnd? {
        PlacedMeans(pieces, all.frames, noise);
      }
    }

    /** Passes everything through as it comes. */
    method CopyRaw(src: Source)
      requires Synced() && !out.failed
      modifies src`pending, out, `writes, `rest
      ensures Synced() && old(rest) <= rest <= old(rest) + old(src.pending)
      ensures !out.failed ==> rest == old(rest) + old(src.pending)
    {
      while true
        invariant Synced() && !out.failed && old(rest) <= rest
        invariant rest + src.pending == old(rest) + old(src.pending)
        decreases |src.pending|
      {
        ghost var before := src.pending;
        var buf := src.Read(4096);
        Assoc(rest, buf, src.pending);
        if buf == [] {
          assert rest + [] == rest;
          return;
        }
        var ok := SendRest(buf);
        if !ok {
          return;
        }
      }
    }
  }

  method RandomBytes(max: nat) returns (b: bytes)
    ensures |b| <= max
  {
    b := [];
    var n: int := *;
    while |b| < n && |b| < max
      invariant |b| <= max
      decreases max - |b|
    {
      var x: int := *;
      b := b + [if 0 <= x < 0x100 then x else 0];
    }
  }

  /** A frame of an unknown type with an arbitrary payload, flags, reserved bytes and stream. */
  method RandomNoise() returns (raw: bytes)
    ensures LegalPiece(Noise(raw))
  {
    var payload := RandomBytes(64);
    var which: int := *;
    var typ := UNKNOWN_TYPES[if 0 <= which < |UNKNOWN_TYPES| then which else 0];
    var odd := RandomBytes(7);
    odd := if |odd| == 7 then odd else [0, 0, 0, 0, 0, 0, 2];
    NoiseIsFrame(typ, odd, payload);
    raw := PutU32(|payload|) + ([typ] + odd) + payload;
  }

  /** The frames behind those already done, with the next one told apart. */
  lemma NextFrame(done: seq<bytes>, s: bytes)
    ensures StartsWhole(s) ==>
              var n := FirstLength(s);
              && done + Chop(s).frames == (done + [s[..n]]) + Chop(s[n..]).frames
              && Chop(s).tail == Chop(s[n..]).tail
    ensures !StartsWhole(s) ==> done + Chop(s).frames == done && Chop(s).tail == s
  {
    if StartsWhole(s) {
      Assoc(done, [s[..FirstLength(s)]], Chop(s[FirstLength(s)..]).frames);
    } else {
      assert done + [] == done;
    }
  }

  /** One more piece cut off what is left to write. */
  lemma CutOff(before: bytes, cuts: seq<bytes>, left: bytes, n: nat)
    requires n <= |left|
    ensures Flatten(cuts + [left[..n]]) + left[n..] == Flatten(cuts) + left
    ensures before + Flatten(cuts + [left[..n]]) == (before + Flatten(cuts)) + left[..n]
    ensures before <= (before + Flatten(cuts)) + left[..n] <= before + (Flatten(cuts) + left)
    ensures Flatten(cuts) <= Flatten(cuts) + left
    ensures cuts == [] && n == |left| ==> cuts + [left[..n]] == [left]
  {
    var piece, more := left[..n], left[n..];
    FlattenSnoc(cuts, piece);
    assert piece + more == left;
    Assoc(Flatten(cuts), piece, more);
    Assoc(before, Flatten(cuts), piece);
    Assoc(before, Flatten(cuts) + piece, more);
    Extends(before, Flatten(cuts) + piece);
    Extends(before + (Flatten(cuts) + piece), more);
    Extends(Flatten(cuts), left);
    if cuts == [] && n == |left| {
      assert piece == left && [] + [left] == [left];
    }
  }

  lemma Extends(a: bytes, b: bytes)
    ensures a <= a + b
  {
  }

  lemma PieceOnWire(origin: bytes, sent: bytes, raw: bytes)
    ensures origin + (sent + raw) + [] == (origin + sent + []) + raw
  {
    Assoc(origin, sent, raw);
  }

  lemma NoiseIsFrame(typ: byte, odd: bytes, payload: bytes)
    requires typ in UNKNOWN_TYPES && |odd| == 7 && |payload| <= 64
    ensures LegalPiece(Noise(PutU32(|payload|) + ([typ] + odd) + payload))
  {
    var raw := PutU32(|payload|) + ([typ] + odd) + payload;
    U32RoundTrip(|payload|);
    assert raw[0..4] == PutU32(|payload|);
    assert raw[4] == typ;
  }

  // ---- what a correct reader sees ----

  predicate AllFrames(raws: seq<bytes>) {
    forall raw | raw in raws :: IsFrame(raw)
  }

  /** Reading would stop at a frame that uses stream zero. */
  predicate MeetsStreamZero(raws: seq<bytes>)
    requires AllFrames(raws)
  {
    exists i :: 0 <= i < |raws| && OnStreamZero(raws[i])
  }

  lemma LegalRaws(ps: seq<Piece>)
    requires LegalPieces(ps)
    ensures AllFrames(Raws(ps))
  {
    forall i | 0 <= i < |ps| ensures IsFrame(Raws(ps)[i]) {
      assert LegalPiece(ps[i]);
    }
  }

  /** Unknown frames between the real ones change nothing. */
  lemma {:induction false} NoiseIsSkipped(ps: seq<Piece>, last: ReadResult)
    requires LegalPieces(ps)
    ensures AllFrames(Raws(ps)) && AllFrames(Relayed(ps))
    ensures Judge(Raws(ps), last) == Judge(Relayed(ps), last)
  {
    LegalRaws(ps);
    if ps != [] {
      NoiseIsSkipped(ps[1..], last);
      assert LegalPiece(ps[0]);
      assert Raws(ps)[1..] == Raws(ps[1..]);
      if ps[0].Relay? {
        Halves([ps[0].raw], Relayed(ps[1..]));
      } else {
        assert [] + Relayed(ps[1..]) == Relayed(ps[1..]);
      }
    }
  }

  predicate OnStreamZero(raw: bytes)
    requires IsFrame(raw)
  {
    Known(Parse(raw).typ) && UsesStreamZero(Parse(raw))
  }

  lemma StreamZeroStep(raws: seq<bytes>)
    requires AllFrames(raws) && raws != []
    ensures MeetsStreamZero(raws) <==> OnStreamZero(raws[0]) || MeetsStreamZero(raws[1..])
  {
    assert forall i :: 1 <= i < |raws| ==> raws[1..][i - 1] == raws[i];
    assert forall i :: 0 <= i < |raws[1..]| ==> raws[i + 1] == raws[1..][i];
  }

  /** The end of a reading is the end of the stream, unless a frame on stream zero came first. */
  lemma {:induction false} JudgedEnd(raws: seq<bytes>, last: ReadResult)
    requires AllFrames(raws)
    ensures Judge(raws, last).last == if MeetsStreamZero(raws) then StreamZero else last
  {
    if raws != [] {
      JudgedEnd(raws[1..], last);
      StreamZeroStep(raws);
    }
  }

  /** Behind a frame on stream zero nothing is read. */
  lemma {:induction false} NothingBehindStreamZero(raws: seq<bytes>, more: seq<bytes>, last: ReadResult, other: ReadResult)
    requires AllFrames(raws) && AllFrames(more) && MeetsStreamZero(raws)
    ensures AllFrames(raws + more) && Judge(raws + more, last) == Judge(raws, other)
  {
    HeadAndTail(raws, more);
    StreamZeroStep(raws);
    if !OnStreamZero(raws[0]) {
      NothingBehindStreamZero(raws[1..], more, last, other);
    }
  }

  /** What the pump sends for a server stream, given its pieces. */
  function Output(ps: seq<Piece>, s: bytes): bytes {
    Flatten(Raws(ps)) + TailSent(Chop(s).tail)
  }

  /**
   The streams that survive the pump: those that end between frames, in an orderly way, those with
   an oversized header, and those a reader gives up on earlier because of stream zero.
   */
  predicate Survives(s: bytes, brk: bool) {
    var c := Chop(s);
    Oversized(c.tail) || (c.tail == [] && !brk) || MeetsStreamZero(c.frames)
  }

  lemma PaddedIsFrame(tail: bytes)
    requires !StartsWhole(tail) && |tail| >= HEADER_SIZE && !Oversized(tail)
    ensures IsFrame(TailSent(tail))
  {
    assert TailSent(tail)[0..4] == tail[0..4];
  }

  /** A tail passed on or dropped: what remains is read as frames and that tail. */
  lemma PassedOn(ps: seq<Piece>, s: bytes)
    requires LegalPieces(ps) && Relayed(ps) == Chop(s).frames
    requires var tail := Chop(s).tail; |tail| < HEADER_SIZE || Oversized(tail)
    ensures ReadAll(Output(ps, s), false) == Judge(Chop(s).frames, TailVerdict(TailSent(Chop(s).tail), false))
  {
    var sent := TailSent(Chop(s).tail);
    LegalRaws(ps);
    ChopFlatten(Raws(ps), sent);
    ReadAllIsJudge(Output(ps, s), false);
    NoiseIsSkipped(ps, TailVerdict(sent, false));
  }

  /** A tail filled up: it is read as one frame more. */
  lemma FilledUp(ps: seq<Piece>, s: bytes)
    requires LegalPieces(ps) && Relayed(ps) == Chop(s).frames
    requires var tail := Chop(s).tail; |tail| >= HEADER_SIZE && !Oversized(tail)
    ensures AllFrames(Raws(ps) + [TailSent(Chop(s).tail)])
    ensures ReadAll(Output(ps, s), false) == Judge(Raws(ps) + [TailSent(Chop(s).tail)], EndOfStream)
  {
    var sent := TailSent(Chop(s).tail);
    PaddedIsFrame(Chop(s).tail);
    LegalRaws(ps);
    FlattenSnoc(Raws(ps), sent);
    ChopFlatten(Raws(ps) + [sent], []);
    assert Output(ps, s) + [] == Output(ps, s);
    ReadAllIsJudge(Output(ps, s), false);
  }

  lemma StreamZeroInPieces(ps: seq<Piece>)
    requires LegalPieces(ps)
    ensures AllFrames(Raws(ps)) && AllFrames(Relayed(ps))
    ensures MeetsStreamZero(Raws(ps)) <==> MeetsStreamZero(Relayed(ps))
  {
    NoiseIsSkipped(ps, EndOfStream);
    JudgedEnd(Raws(ps), EndOfStream);
    JudgedEnd(Relayed(ps), EndOfStream);
  }

  /**
   The pump is invisible exactly when the stream survives it: for any noise between the frames, the
   reader behind the pump gets the same frames and the same end as a reader of the stream itself.
   */
  lemma PumpIsInvisible(ps: seq<Piece>, s: bytes, brk: bool)
    requires LegalPieces(ps) && Relayed(ps) == Chop(s).frames
    ensures ReadAll(Output(ps, s), false) == ReadAll(s, brk) <==> Survives(s, brk)
  {
    var c := Chop(s);
    ReadAllIsJudge(s, brk);
    JudgedEnd(c.frames, TailVerdict(c.tail, brk));
    StreamZeroInPieces(ps);
    if |c.tail| < HEADER_SIZE || Oversized(c.tail) {
      PassedOn(ps, s);
      JudgedEnd(c.frames, TailVerdict(TailSent(c.tail), false));
      if MeetsStreamZero(c.frames) {
        NothingBehindStreamZero(c.frames, [], TailVerdict(TailSent(c.tail), false), TailVerdict(c.tail, brk));
        assert c.frames + [] == c.frames;
      }
    } else {
      FilledUp(ps, s);
      var raws, padded := Raws(ps), TailSent(c.tail);
      JudgedEnd(raws + [padded], EndOfStream);
      if MeetsStreamZero(c.frames) {
        PaddedIsFrame(c.tail);
        NothingBehindStreamZero(raws, [padded], EndOfStream, TailVerdict(c.tail, brk));
        NoiseIsSkipped(ps, TailVerdict(c.tail, brk));
      }
    }
  }

  /** A frame cut off reads as truncated, but behind the pump as a whole frame and a clean end. */
  lemma CutFrameLooksWhole()
    ensures var cut: bytes := [0, 0, 0, 1, DATA, 0, 0, 0, 0, 0, 0, 1];
            && ReadAll(cut, false) == Reading([], Truncated)
            && ReadAll(Output([], cut), false) == Reading([Frame(DATA, 0, 1, [0])], EndOfStream)
  {
    var cut: bytes := [0, 0, 0, 1, DATA, 0, 0, 0, 0, 0, 0, 1];
    assert DeclaredLength(cut) == 1;
    var sent := TailSent(cut);
    assert sent == cut + [0];
    assert Output([], cut) == sent;
    PaddedIsFrame(cut);
    assert GetU32(sent[8..12]) == 1 && sent[HEADER_SIZE..] == [0];
    assert sent == sent + [];
    ChopCons(sent, []);
    ReadAllIsJudge(sent, false);
    ReadAllIsJudge(cut, false);
  }
}
