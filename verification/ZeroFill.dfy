/** Header blocks and responses whose last bytes never came and stand as zeros. */
module ZeroFill {
  import opened Bytes
  import opened Headers
  import opened Messages

  /** b, of which only the first n bytes came. */
  function Filled(b: bytes, n: nat): (z: bytes)
    requires n <= |b|
    ensures |z| == |b|
  {
    b[..n] + Zeros(|b| - n)
  }

  /** Zeros are no header: a custom name of length zero is refused. */
  lemma ZerosAreNoHeaders(m: nat, count: nat, rules: Rules)
    requires count > 0
    ensures ParseEach(Zeros(m), count, rules).None?
  {
    if TakeRaw(Zeros(m)).Some? {
      assert TakeRaw(Zeros(m)).value.0.name == [];
    }
  }

  /** A header in front of others is taken first. */
  lemma HeaderInFront(r: Raw, z: bytes, count: nat, rules: Rules)
    requires WellFormed(r) && r.id != 0
    ensures ParseEach(PutRaw(r) + z, 1 + count, rules) == WithPrefix(Returned(r), ParseEach(z, count, rules))
  {
    TakeRawOf(r, z);
    Halves(PutRaw(r), z);
  }

  /** A table header, then zeros. */
  lemma HeaderThenZeros(r: Raw, m: nat, count: nat, rules: Rules)
    requires WellFormed(r) && r.id != 0 && count > 0
    ensures var parsed := ParseEach(PutRaw(r) + Zeros(m), count, rules);
            if count == 1 then parsed == Some((Returned(r), Zeros(m))) else parsed.None?
  {
    HeaderInFront(r, Zeros(m), count - 1, rules);
    assert Returned(r) + [] == Returned(r);
    if count > 1 {
      ZerosAreNoHeaders(m, count - 1, rules);
    }
  }

  /** A raw header of the kind a server sends. */
  predicate Plain(r: Raw) {
    WellFormed(r) && r.id != 0 && |r.value| <= 255
  }

  predicate AllPlain(rs: seq<Raw>) {
    forall r | r in rs :: WellFormed(r) && r.id != 0 && |r.value| <= 255
  }

  /** The last header of a list, with the bytes that never came as zeros. */
  function LastFilled(rs: seq<Raw>, missing: nat): (zs: seq<Raw>)
    requires rs != [] && missing <= |rs[|rs| - 1].value|
    ensures |zs| == |rs|
  {
    var last := rs[|rs| - 1];
    rs[..|rs| - 1] + [last.(value := Filled(last.value, |last.value| - missing))]
  }

  lemma {:induction false} LastFits(rs: seq<Raw>)
    requires rs != [] && forall r | r in rs :: WellFormed(r)
    ensures |PutRaws(rs)| > |rs[|rs| - 1].value|
  {
    if |rs| > 1 {
      LastFits(rs[1..]);
    }
  }

  /** The header a cut in the first one leaves: all of it, none of its value, or part of its value. */
  lemma CutInFirst(r: Raw, n: nat, m: nat)
    requires Plain(r) && 0 < n < |PutRaw(r)|
    ensures Filled(PutRaw(r), n) + Zeros(m)
            == if n < 3 then PutRaw(r.(value := [])) + Zeros(|r.value| + m)
               else PutRaw(r.(value := Filled(r.value, n - 3))) + Zeros(m)
  {
    assert PutRaw(r) == [r.id, 0, |r.value|] + r.value;
    if n >= 3 {
      assert PutRaw(r)[..n] == [r.id, 0, |r.value|] + r.value[..n - 3];
    } else {
      assert PutRaw(r)[..n] + Zeros(3 - n) == [r.id, 0, 0];
    }
  }

  /** What a block that lost its last bytes parses to. */
  predicate CutVerdict(parsed: Parsed, whole: seq<Raw>, missing: nat)
    requires whole != []
  {
    if missing <= |whole[|whole| - 1].value| then parsed == Some((Meanings(LastFilled(whole, missing)), []))
    else parsed.None? || parsed.value.1 != []
  }

  lemma CutInOnly(r: Raw, n: nat, rules: Rules)
    requires Plain(r) && r.value != [] && n < |PutRaw(r)|
    ensures CutVerdict(ParseEach(Filled(PutRaw(r), n), 1, rules), [r], |PutRaw(r)| - n)
  {
    hide ParseEach;
    var z := Filled(PutRaw(r), n);
    if n == 0 {
      assert z == Zeros(|PutRaw(r)|);
      ZerosAreNoHeaders(|PutRaw(r)|, 1, rules);
    } else {
      CutInFirst(r, n, 0);
      assert z + Zeros(0) == z;
      if n < 3 {
        HeaderThenZeros(r.(value := []), |r.value|, 1, rules);
      } else {
        var f := r.(value := Filled(r.value, n - 3));
        HeaderThenZeros(f, 0, 1, rules);
        assert Zeros(0) == [];
        assert LastFilled([r], |PutRaw(r)| - n) == [f];
        MeaningsCons(f, []);
        assert [f] + [] == [f] && Returned(f) + [] == Returned(f);
      }
    }
  }

  /** Cut in the first of several headers: the ones behind it are zeros, and refused. */
  lemma CutBeforeLast(r: Raw, more: seq<Raw>, n: nat, rules: Rules)
    requires Plain(r) && n < |PutRaw(r)| && more != [] && AllPlain(more)
    ensures var b := PutRaw(r) + PutRaws(more); ParseEach(Filled(b, n), 1 + |more|, rules).None?
  {
    hide ParseEach, PutRaw, PutRaws;
    var m := |PutRaws(more)|;
    var b := PutRaw(r) + PutRaws(more);
    assert Filled(b, n) == Filled(PutRaw(r), n) + Zeros(m);
    if n == 0 {
      assert Filled(b, n) == Zeros(|b|);
      ZerosAreNoHeaders(|b|, 1 + |more|, rules);
    } else {
      CutInFirst(r, n, m);
      if n < 3 {
        HeaderThenZeros(r.(value := []), |r.value| + m, 1 + |more|, rules);
      } else {
        HeaderThenZeros(r.(value := Filled(r.value, n - 3)), m, 1 + |more|, rules);
      }
    }
  }

  lemma MoreThanLast(r: Raw, more: seq<Raw>, n: nat, rules: Rules)
    requires Plain(r) && n < |PutRaw(r)| && more != [] && AllPlain(more)
    ensures var b := PutRaw(r) + PutRaws(more);
            CutVerdict(ParseEach(Filled(b, n), 1 + |more|, rules), [r] + more, |b| - n)
  {
    hide ParseEach, Filled, PutRaw, PutRaws;
    CutBeforeLast(r, more, n, rules);
    LastFits(more);
  }

  /** A whole header in front of a block that lost its last bytes. */
  lemma CutBehindFirst(r: Raw, more: seq<Raw>, n: nat, rules: Rules)
    requires Plain(r) && more != [] && AllPlain(more) && n < |PutRaws(more)|
    requires CutVerdict(ParseEach(Filled(PutRaws(more), n), |more|, rules), more, |PutRaws(more)| - n)
    ensures var b := PutRaw(r) + PutRaws(more);
            CutVerdict(ParseEach(Filled(b, |PutRaw(r)| + n), 1 + |more|, rules), [r] + more, |PutRaws(more)| - n)
  {
    hide ParseEach, PutRaw, PutRaws, Meanings;
    var b, z, missing := PutRaw(r) + PutRaws(more), Filled(PutRaws(more), n), |PutRaws(more)| - n;
    assert Filled(b, |PutRaw(r)| + n) == PutRaw(r) + z;
    HeaderInFront(r, z, |more|, rules);
    if missing <= |more[|more| - 1].value| {
      assert LastFilled([r] + more, missing) == [r] + LastFilled(more, missing);
      MeaningsCons(r, LastFilled(more, missing));
    }
  }

  lemma PutRawsCons(r: Raw, more: seq<Raw>)
    requires WellFormed(r) && forall x | x in more :: WellFormed(x)
    ensures (forall x | x in [r] + more :: WellFormed(x)) && PutRaws([r] + more) == PutRaw(r) + PutRaws(more)
    ensures PutRaws([]) == []
  {
    HeadAndTail([r], more);
  }

  /**
   A list of headers that lost its last bytes is accepted to its end if and only if they all belong to
   the last value, which is then filled up with zeros.
   */
  lemma {:induction false} CutHeaders(rs: seq<Raw>, n: nat, rules: Rules)
    requires rs != [] && AllPlain(rs) && rs[|rs| - 1].value != [] && n < |PutRaws(rs)|
    ensures CutVerdict(ParseEach(Filled(PutRaws(rs), n), |rs|, rules), rs, |PutRaws(rs)| - n)
  {
    hide CutVerdict, ParseEach, PutRaw, PutRaws, Filled;
    var r, more := rs[0], rs[1..];
    assert rs == [r] + more && r in rs;
    PutRawsCons(r, more);
    if more == [] {
      assert rs == [r] && PutRaw(r) + [] == PutRaw(r);
      CutInOnly(r, n, rules);
    } else if n < |PutRaw(r)| {
      MoreThanLast(r, more, n, rules);
    } else {
      CutHeaders(more, n - |PutRaw(r)|, rules);
      CutBehindFirst(r, more, n - |PutRaw(r)|, rules);
    }
  }

  // ---- a whole response ----

  /** A header that goes out under a table id, with a short value. */
  predicate PlainHeader(h: Header) {
    TableId(h.name).Some? && |h.value| <= 255
  }

  /** Headers whose last value lost its last bytes. */
  function LastValueFilled(hs: seq<Header>, missing: nat): (zs: seq<Header>)
    requires hs != [] && missing <= |hs[|hs| - 1].value|
    ensures |zs| == |hs|
  {
    var last := hs[|hs| - 1];
    hs[..|hs| - 1] + [last.(value := Filled(last.value, |last.value| - missing))]
  }

  lemma FilledMeaning(hs: seq<Header>, missing: nat)
    requires hs != [] && missing <= |hs[|hs| - 1].value|
    ensures Meanings(LastFilled(ToRaws(hs), missing)) == LastValueFilled(hs, missing)
  {
    var zs := LastValueFilled(hs, missing);
    assert LastFilled(ToRaws(hs), missing) == ToRaws(zs);
    MeaningsOfPrinted(zs);
  }

  lemma PlainRaws(hs: seq<Header>)
    requires forall h | h in hs :: PlainHeader(h)
    ensures AllPlain(ToRaws(hs))
  {
    forall r | r in ToRaws(hs) ensures Plain(r) {
      var i :| 0 <= i < |hs| && ToRaws(hs)[i] == r;
      assert hs[i] in hs;
      TableIsBijective(r.id, hs[i].name);
    }
  }

  lemma LastValueFits(resp: Response)
    requires ResponseBuildable(resp) && resp.headers != []
    ensures |PrintResponse(resp)| > 3 + |resp.headers[|resp.headers| - 1].value|
  {
    hide PutRaws, ToRaw, TableId;
    var hs := resp.headers;
    ToRawsWellFormed(hs);
    LastFits(ToRaws(hs));
    assert ToRaws(hs)[|hs| - 1] == ToRaw(hs[|hs| - 1]);
    SameValue(hs[|hs| - 1]);
  }

  /** Cut in the status or in the count: the count stands as zero, with bytes behind it. */
  lemma CutBeforeHeaders(p: bytes, n: nat)
    requires n < 3 < |p|
    ensures ParseResponse(Filled(p, n)).None?
  {
    var z := Filled(p, n);
    assert z[2] == 0;
    assert TakeRaws(z[2..][1..], 0) == Some(([], z[2..][1..]));
  }

  lemma CutBlock(hs: seq<Header>, n: nat)
    requires PrintableAll(hs) && hs != [] && forall h | h in hs :: PlainHeader(h)
    requires hs[|hs| - 1].value != [] && AllPlain(ToRaws(hs)) && n < |PutRaws(ToRaws(hs))|
    ensures var rs := ToRaws(hs); var missing := |PutRaws(rs)| - n; var last := hs[|hs| - 1].value;
            var block := ParseBlock([|hs|] + Filled(PutRaws(rs), n), Structural);
            if missing <= |last| then block == Some((LastValueFilled(hs, missing), []))
            else block.None? || block.value.1 != []
  {
    hide PutRaws, ParseEach, ParseHeaders, ToRaw, ParseBlock, TableId, Meanings;
    var rs := ToRaws(hs);
    var z, missing := Filled(PutRaws(rs), n), |PutRaws(rs)| - n;
    assert rs[|rs| - 1] == ToRaw(hs[|hs| - 1]);
    SameValue(hs[|hs| - 1]);
    CutHeaders(rs, n, Structural);
    OnePassIsTwo(z, |rs|, Structural);
    CountThenHeaders(|rs|, z, Structural);
    if missing <= |hs[|hs| - 1].value| {
      FilledMeaning(hs, missing);
    }
  }

  lemma SameValue(h: Header)
    ensures ToRaw(h).value == h.value
  {
  }

  /** Behind status and count. */
  lemma CutInHeaders(status: u16, count: byte, b: bytes, n: nat)
    requires ValidStatus(status) && n < |b|
    ensures var block := ParseBlock([count] + Filled(b, n), Structural);
            ParseResponse(Filled(PutU16(status) + ([count] + b), n + 3))
            == if block.None? || block.value.1 != [] then None else Some(Response(status, block.value.0))
  {
    hide ParseBlock;
    var z := [count] + Filled(b, n);
    assert Filled(PutU16(status) + ([count] + b), n + 3) == PutU16(status) + z;
    Halves(PutU16(status), z);
    U16RoundTrip(status);
    assert (PutU16(status) + z)[0] == PutU16(status)[0] && (PutU16(status) + z)[1] == PutU16(status)[1];
  }

  /**
   A response whose payload lost its last bytes is accepted if and only if they all belong to the value
   of its last header, which is then filled up with zeros.
   */
  lemma CutResponse(resp: Response, n: nat)
    requires ResponseBuildable(resp) && resp.headers != [] && forall h | h in resp.headers :: PlainHeader(h)
    requires resp.headers[|resp.headers| - 1].value != [] && n < |PrintResponse(resp)|
    ensures var hs := resp.headers; var missing := |PrintResponse(resp)| - n;
            ParseResponse(Filled(PrintResponse(resp), n))
            == if missing <= |hs[|hs| - 1].value| then Some(Response(resp.status, LastValueFilled(hs, missing)))
               else None
  {
    hide PutRaws, ParseResponse, ParseBlock, ToRaws, ToRaw, TableId;
    var hs, p := resp.headers, PrintResponse(resp);
    var rs := ToRaws(hs);
    ToRawsWellFormed(hs);
    LastValueFits(resp);
    if n < 3 {
      CutBeforeHeaders(p, n);
    } else {
      PlainRaws(hs);
      CutBlock(hs, n - 3);
      CutInHeaders(resp.status, |hs|, PutRaws(rs), n - 3);
    }
  }
}
