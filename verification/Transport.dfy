/**
 The two ends of a connection as the protocol sees them: a byte stream that arrives in
 pieces of arbitrary size, and a writer that may accept less than it is given or fail.
 */
module Transport {
  import opened Bytes

  /** How a byte stream stops once its bytes are used up. */
  datatype End = Finished | Broken

  /** What io.ReadFull and io.CopyN report. */
  datatype ReadError = NoError | EOF | UnexpectedEOF | OtherError

  class Source {
    var pending: bytes
    const end: End

    constructor (data: bytes, end: End)
      ensures pending == data && this.end == end
    {
      pending := data;
      this.end := end;
    }

    /** One read: at least one byte while any are left, and never more than asked for. */
    method Read(max: nat) returns (piece: bytes)
      requires max > 0
      modifies this`pending
      ensures old(pending) == piece + pending
      ensures |piece| <= max
      ensures piece == [] <==> old(pending) == []
    {
      if pending == [] {
        return [];
      }
      var n: int :| 1 <= n <= max && n <= |pending|;
      piece := pending[..n];
      pending := pending[n..];
    }

    /** io.ReadFull: keeps reading until n bytes have arrived or the stream stops. */
    method ReadFull(n: nat) returns (got: bytes, err: ReadError)
      modifies this`pending
      ensures old(pending) == got + pending
      ensures err == NoError <==> |old(pending)| >= n
      ensures err == NoError ==> |got| == n
      ensures err != NoError ==> got == old(pending)
      ensures err == OtherError <==> |old(pending)| < n && end == Broken
      ensures err == EOF <==> |old(pending)| < n && end == Finished && got == []
    {
      got := [];
      while |got| < n
        invariant |got| <= n
        invariant old(pending) == got + pending
      {
        var piece := Read(n - |got|);
        if piece == [] {
          err := if end == Broken then OtherError else if got == [] then EOF else UnexpectedEOF;
          return;
        }
        got := got + piece;
      }
      err := NoError;
    }

    /** io.CopyN to io.Discard: drops n bytes; running out is reported as EOF. */
    method Discard(n: nat) returns (err: ReadError)
      modifies this`pending
      ensures |old(pending)| >= n ==> err == NoError && pending == old(pending)[n..]
      ensures |old(pending)| < n ==> pending == []
      ensures |old(pending)| < n ==> err == (if end == Broken then OtherError else EOF)
    {
      var left := n;
      while left > 0
        invariant 0 <= left <= n
        invariant n - left <= |old(pending)| && pending == old(pending)[n - left..]
      {
        var piece := Read(left);
        if piece == [] {
          err := if end == Broken then OtherError else EOF;
          return;
        }
        left := left - |piece|;
      }
      err := NoError;
    }
  }

  class Sink {
    /** Every byte the writer has accepted. */
    var out: bytes
    /** Whether some write has failed or made no progress. */
    var failed: bool

    constructor ()
      ensures out == [] && !failed
    {
      out := [];
      failed := false;
    }

    /** One write: any part of b may be accepted, with or without an error. */
    method Write(b: bytes) returns (n: nat, ok: bool)
      modifies this
      ensures n <= |b| && out == old(out) + b[..n]
      ensures failed == (old(failed) || !ok || (n == 0 && b != []))
    {
      var some: int := *;
      n := if 0 <= some <= |b| then some else |b|;
      ok := *;
      out := out + b[..n];
      failed := failed || !ok || (n == 0 && b != []);
    }

    /** Retries short writes until b is out, the writer fails, or it stops making progress. */
    method WriteAll(b: bytes) returns (ok: bool)
      modifies this
      ensures ok ==> out == old(out) + b && failed == old(failed)
      ensures !ok ==> failed && old(out) <= out <= old(out) + b
    {
      var rest := b;
      while |rest| > 0
        invariant |rest| <= |b| && rest == b[|b| - |rest|..]
        invariant out == old(out) + b[..|b| - |rest|]
        invariant failed == old(failed)
      {
        ghost var done := |b| - |rest|;
        var n, accepted := Write(rest);
        assert b[..done] + rest[..n] == b[..done + n];
        if !accepted {
          return false;
        }
        if n <= 0 {
          return false;
        }
        rest := rest[n..];
      }
      assert b[..|b|] == b;
      ok := true;
    }
  }
}
