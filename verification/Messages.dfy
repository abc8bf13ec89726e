/** Request, response and error payloads: what each encoder prints and each decoder accepts. */
module Messages {
  import opened Bytes
  import opened Headers
  import Utf8

  const METHOD_GET: byte := 1
  const MAX_PATH := 4096
  const MAX_MESSAGE := 16384

  datatype Request = Request(verb: byte, path: bytes, headers: seq<Header>)
  datatype Response = Response(status: int, headers: seq<Header>)
  datatype ConnError = ConnError(code: u16, message: bytes)

  datatype EncodeError =
    | BadMethod | BadPathLength | BadPathText | BadStatus
    | TooManyHeaders | ValueTooLong | BadHeaderName
    | TooLarge

  // ---- requests ----

  predicate GoodPath(path: bytes) {
    1 <= |path| <= MAX_PATH && Utf8.Valid(path)
  }

  function PrintRequest(r: Request): bytes
    requires |r.path| <= MAX_PATH && PrintableAll(r.headers)
  {
    [r.verb] + PutField(r.path) + PrintBlock(r.headers)
  }

  /** When Encode succeeds. */
  predicate Buildable(r: Request) {
    && r.verb == METHOD_GET
    && GoodPath(r.path)
    && PrintableAll(r.headers)
    && |PrintRequest(r)| <= MAX_MESSAGE
  }

  /** None is ErrMalformed. */
  function ParseRequest(p: bytes): Option<Request> {
    if p == [] || p[0] != METHOD_GET then None
    else
      var path := TakeField(p, 1);
      if path.None? || !GoodPath(path.value.0) then None
      else
        var block := ParseBlock(p[path.value.1..], Strict);
        if block.None? || block.value.1 != [] then None
        else Some(Request(METHOD_GET, path.value.0, block.value.0))
  }

  lemma RequestRoundTrip(r: Request)
    requires Buildable(r)
    ensures ParseRequest(PrintRequest(r)) == Some(r)
  {
    var front, block := [r.verb] + PutField(r.path), PrintBlock(r.headers);
    TakeFieldOf([r.verb], r.path, block);
    Halves(front, block);
    PrintedBlockParses(r.headers, [], Strict);
    assert block + [] == block;
  }

  /** The header block of an accepted request payload. */
  function RequestBlock(p: bytes): bytes
    requires ParseRequest(p).Some?
  {
    p[TakeField(p, 1).value.1..]
  }

  /** An accepted payload re-encodes, to the same bytes unless it held unassigned header ids. */
  lemma RequestCanonical(p: bytes)
    requires |p| <= MAX_MESSAGE
    requires ParseRequest(p).Some?
    ensures var r := ParseRequest(p).value;
            && Buildable(r)
            && ParseRequest(PrintRequest(r)) == Some(r)
            && ((forall h | h in BlockRaws(RequestBlock(p)) :: h.id < FIRST_UNKNOWN_ID) ==> PrintRequest(r) == p)
  {
    var r := ParseRequest(p).value;
    var block := RequestBlock(p);
    ParsedBlockReprints(block);
    TakeFieldCanonical(p, 1);
    assert PrintBlock(r.headers) + [] == PrintBlock(r.headers);
    assert p[..1] == [r.verb];
    assert p == [r.verb] + PutField(r.path) + block;
    RequestRoundTrip(r);
  }

  // ---- responses ----

  predicate ValidStatus(s: int) {
    100 <= s <= 599
  }

  function PrintResponse(r: Response): bytes
    requires ValidStatus(r.status) && PrintableAll(r.headers)
  {
    PutU16(r.status) + PrintBlock(r.headers)
  }

  predicate ResponseBuildable(r: Response) {
    && ValidStatus(r.status)
    && PrintableAll(r.headers)
    && |PrintResponse(r)| <= MAX_MESSAGE
  }

  function ParseResponse(p: bytes): Option<Response> {
    if |p| < 2 || !ValidStatus(GetU16(p)) then None
    else
      var block := ParseBlock(p[2..], Structural);
      if block.None? || block.value.1 != [] then None
      else Some(Response(GetU16(p), block.value.0))
  }

  lemma ResponseRoundTrip(r: Response)
    requires ResponseBuildable(r)
    ensures ParseResponse(PrintResponse(r)) == Some(r)
  {
    var block := PrintBlock(r.headers);
    U16RoundTrip(r.status);
    assert PrintResponse(r)[0] == PutU16(r.status)[0] && PrintResponse(r)[1] == PutU16(r.status)[1];
    Halves(PutU16(r.status), block);
    PrintedBlockParses(r.headers, [], Structural);
    assert block + [] == block;
  }

  // ---- connection errors ----

  predicate ErrorBuildable(e: ConnError) {
    4 + |e.message| <= MAX_MESSAGE
  }

  function PrintError(e: ConnError): (b: bytes)
    requires ErrorBuildable(e)
    ensures |b| == 4 + |e.message|
  {
    PutU16(e.code) + PutField(e.message)
  }

  function ParseError(p: bytes): Option<ConnError> {
    if |p| < 2 then None
    else
      var message := TakeField(p, 2);
      if message.None? || message.value.1 != |p| then None
      else Some(ConnError(GetU16(p), message.value.0))
  }

  lemma ErrorRoundTrip(e: ConnError)
    requires ErrorBuildable(e)
    ensures ParseError(PrintError(e)) == Some(e)
  {
    U16RoundTrip(e.code);
    TakeFieldOf(PutU16(e.code), e.message, []);
    assert PrintError(e) + [] == PrintError(e);
    assert PrintError(e)[0] == PutU16(e.code)[0] && PrintError(e)[1] == PutU16(e.code)[1];
  }

  lemma ErrorCanonical(p: bytes)
    requires ParseError(p).Some? && |p| <= MAX_MESSAGE
    ensures ErrorBuildable(ParseError(p).value) && PrintError(ParseError(p).value) == p
  {
    U16Canonical(p);
    TakeFieldCanonical(p, 2);
    assert p[..|p|] == p;
  }
}

/** The same codec as the code runs it: a shrinking cursor, and buffers that grow. */
module MessageIO {
  import opened Bytes
  import opened Headers
  import opened Messages
  import Utf8

  /** Walks a payload and refuses to read past its end. */
  class Cursor {
    var b: bytes

    constructor (b: bytes)
      ensures this.b == b
    {
      this.b := b;
    }

    method Take(n: nat) returns (r: Option<bytes>)
      modifies this
      ensures r.None? <==> n > |old(b)|
      ensures r.None? ==> b == old(b)
      ensures r.Some? ==> |r.value| == n && old(b) == r.value + b
    {
      if n > |b| {
        return None;
      }
      r := Some(b[..n]);
      b := b[n..];
    }

    method U8() returns (r: Option<byte>)
      modifies this
      ensures r.None? <==> old(b) == []
      ensures r.Some? ==> r.value == old(b)[0] && b == old(b)[1..]
    {
      var t := Take(1);
      if t.None? {
        return None;
      }
      r := Some(t.value[0]);
    }

    method U16() returns (r: Option<u16>)
      modifies this
      ensures r.None? <==> |old(b)| < 2
      ensures r.Some? ==> r.value == GetU16(old(b)) && b == old(b)[2..]
    {
      var t := Take(2);
      if t.None? {
        return None;
      }
      r := Some(GetU16(t.value));
    }
  }

  /** The field at position `at` of b, read as u16 and take from the bytes still to come. */
  lemma TakeFieldSteps(b: bytes, at: nat)
    requires at <= |b|
    ensures var s := b[at..];
            if |s| < 2 || GetU16(s) > |s[2..]| then TakeField(b, at).None?
            else TakeField(b, at) == Some((s[2..][..GetU16(s)], at + 2 + GetU16(s)))
                 && s[2..][GetU16(s)..] == b[at + 2 + GetU16(s)..]
  {
    var s := b[at..];
    if |s| >= 2 && GetU16(s) <= |s[2..]| {
      assert s[2..][..GetU16(s)] == b[at + 2..at + 2 + GetU16(s)];
    }
  }

  method IsCustomName(name: bytes) returns (ok: bool)
    ensures ok <==> CustomName(name)
  {
    if |name| == 0 || |name| > MAX_CUSTOM_NAME {
      return false;
    }
    for i := 0 to |name|
      invariant forall k :: 0 <= k < i ==> NameByte(name[k])
    {
      if !NameByte(name[i]) {
        return false;
      }
    }
    return true;
  }

  lemma WithNothing(rest: Option<(seq<Header>, bytes)>)
    ensures WithPrefix([], rest) == rest
  {
    if rest.Some? {
      assert [] + rest.value.0 == rest.value.0;
    }
  }

  lemma PrefixGrows(headers: seq<Header>, more: seq<Header>, rest: Parsed)
    ensures WithPrefix(headers, WithPrefix(more, rest)) == WithPrefix(headers + more, rest)
  {
    if rest.Some? {
      Assoc(headers, more, rest.value.0);
    }
  }

  /** One trip round the loop, when it does not stop. */
  lemma LoopStep(headers: seq<Header>, b: bytes, count: nat, rules: Rules, next: seq<Header>, more: bytes)
    requires count > 0
    requires TakeRaw(b).Some? && !Rejected(TakeRaw(b).value.0, rules)
    requires next == headers + Returned(TakeRaw(b).value.0) && more == b[TakeRaw(b).value.1..]
    ensures WithPrefix(headers, ParseEach(b, count, rules)) == WithPrefix(next, ParseEach(more, count - 1, rules))
  {
    var r := TakeRaw(b).value.0;
    assert ParseEach(b, count, rules) == WithPrefix(Returned(r), ParseEach(more, count - 1, rules));
    PrefixGrows(headers, Returned(r), ParseEach(more, count - 1, rules));
  }

  /** The early count check can only reject blocks the loop would have rejected anyway. */
  lemma EarlyCountCheck(b: bytes, count: nat, rules: Rules)
    requires count * 3 > |b|
    ensures ParseEach(b, count, rules).None?
  {
    OnePassIsTwo(b, count, rules);
  }

  /** Where the name part of the header at the front of b is, if it is whole. */
  function NamePart(b: bytes): Option<(bytes, nat)>
    requires b != []
  {
    if b[0] == 0 then TakeField(b, 1) else Some(([], 1))
  }

  /** The name behind an identifier, and whether the header is one to return. */
  method ReadName(c: Cursor, id: byte, rules: Rules, ghost b: bytes) returns (r: Option<(bytes, bool)>)
    requires b != [] && b[0] == id && c.b == b[1..]
    modifies c
    ensures r.None? <==> NamePart(b).None? || Rejected(Raw(id, NamePart(b).value.0, []), rules)
    ensures r.Some? ==> c.b == b[NamePart(b).value.1..]
    ensures r.Some? && id == 0 ==> r.value.0 == NamePart(b).value.0
    ensures r.Some? && TableKey(id) ==> r.value.0 == TableName(id)
    ensures r.Some? ==> r.value.1 == Kept(Raw(id, NamePart(b).value.0, []))
  {
    if id == 0 {
      TakeFieldSteps(b, 1);
      var nameLen := c.U16();
      if nameLen.None? {
        return None;
      }
      var raw := c.Take(nameLen.value);
      if raw.None? {
        return None;
      }
      var name := raw.value;
      if nameLen.value == 0 || nameLen.value > MAX_CUSTOM_NAME {
        return None;
      }
      var clash := TableId(name).Some?;
      var custom := IsCustomName(name);
      if rules == Strict && !custom {
        return None;
      } else if rules == Strict && clash {
        return None;
      }
      return Some((name, !clash));
    } else if id < FIRST_UNKNOWN_ID {
      return Some((TableName(id), true));
    }
    return Some(([], false));
  }

  /** One header: Some(None) is a header that is consumed but not returned. */
  method ReadHeader(c: Cursor, rules: Rules) returns (r: Option<Option<Header>>)
    modifies c
    ensures r.None? <==> TakeRaw(old(c.b)).None? || Rejected(TakeRaw(old(c.b)).value.0, rules)
    ensures r.Some? ==> c.b == old(c.b)[TakeRaw(old(c.b)).value.1..]
    ensures r.Some? ==> Returned(TakeRaw(old(c.b)).value.0) == if r.value.Some? then [r.value.value] else []
  {
    ghost var b := c.b;
    var id := c.U8();
    if id.None? {
      return None;
    }
    var name := ReadName(c, id.value, rules, b);
    if name.None? {
      return None;
    }
    ghost var at := NamePart(b).value.1;
    TakeFieldSteps(b, at);
    var valueLen := c.U16();
    if valueLen.None? {
      return None;
    }
    var value := c.Take(valueLen.value);
    if value.None? {
      return None;
    }
    return Some(if name.value.1 then Some(Header(name.value.0, value.value)) else None);
  }

  method ReadHeaders(c: Cursor, rules: Rules) returns (r: Option<seq<Header>>)
    modifies c
    ensures r.None? <==> ParseBlock(old(c.b), rules).None?
    ensures r.Some? ==> (r.value, c.b) == ParseBlock(old(c.b), rules).value
  {
    hide ParseEach, ParseHeaders, TakeRaws;
    var count := c.U8();
    if count.None? {
      return None;
    }
    OnePassIsTwo(c.b, count.value, rules);
    if count.value * 3 > |c.b| {
      EarlyCountCheck(c.b, count.value, rules);
      return None;
    }
    r := ReadEach(c, count.value, rules);
  }

  /** The loop of readHeaders. */
  method ReadEach(c: Cursor, count: nat, rules: Rules) returns (r: Option<seq<Header>>)
    modifies c
    ensures r.None? <==> ParseEach(old(c.b), count, rules).None?
    ensures r.Some? ==> (r.value, c.b) == ParseEach(old(c.b), count, rules).value
  {
    ghost var whole := ParseEach(c.b, count, rules);
    var headers: seq<Header> := [];
    WithNothing(whole);
    var i := 0;
    while i < count
      invariant 0 <= i <= count
      invariant whole == WithPrefix(headers, ParseEach(c.b, count - i, rules))
    {
      ghost var b, before := c.b, headers;
      var h := ReadHeader(c, rules);
      if h.None? {
        return None;
      }
      if h.value.Some? {
        headers := headers + [h.value.value];
      }
      LoopStep(before, b, count - i, rules, headers, c.b);
      i := i + 1;
    }
    assert headers + [] == headers;
    return Some(headers);
  }

  /** The path of a request, behind its method byte. */
  method DecodePath(c: Cursor, ghost payload: bytes) returns (r: Option<bytes>)
    requires payload != [] && c.b == payload[1..]
    modifies c
    ensures r.None? <==> TakeField(payload, 1).None? || !GoodPath(TakeField(payload, 1).value.0)
    ensures r.Some? ==> r.value == TakeField(payload, 1).value.0 && c.b == payload[TakeField(payload, 1).value.1..]
  {
    TakeFieldSteps(payload, 1);
    var pathLen := c.U16();
    if pathLen.None? || pathLen.value == 0 || pathLen.value > MAX_PATH {
      return None;
    }
    var path := c.Take(pathLen.value);
    if path.None? || !Utf8.Valid(path.value) {
      return None;
    }
    return path;
  }

  method DecodeRequest(payload: bytes) returns (r: Option<Request>)
    ensures r == ParseRequest(payload)
  {
    var c := new Cursor(payload);
    var verb := c.U8();
    if verb.None? || verb.value != METHOD_GET {
      return None;
    }
    var path := DecodePath(c, payload);
    if path.None? {
      return None;
    }
    var headers := ReadHeaders(c, Strict);
    if headers.None? || c.b != [] {
      return None;
    }
    return Some(Request(METHOD_GET, path.value, headers.value));
  }

  method DecodeResponse(payload: bytes) returns (r: Option<Response>)
    ensures r == ParseResponse(payload)
  {
    var c := new Cursor(payload);
    var status := c.U16();
    if status.None? || !ValidStatus(status.value) {
      return None;
    }
    var headers := ReadHeaders(c, Structural);
    if headers.None? || c.b != [] {
      return None;
    }
    return Some(Response(status.value, headers.value));
  }

  method DecodeConnError(payload: bytes) returns (r: Option<ConnError>)
    ensures r == ParseError(payload)
  {
    var c := new Cursor(payload);
    var code := c.U16();
    if code.None? {
      return None;
    }
    TakeFieldSteps(payload, 2);
    var length := c.U16();
    if length.None? {
      return None;
    }
    var message := c.Take(length.value);
    if message.None? || c.b != [] {
      return None;
    }
    return Some(ConnError(code.value, message.value));
  }

  /** appendHeaders: prints onto dst, or says which header cannot be sent. */
  method AppendHeaders(dst: bytes, headers: seq<Header>) returns (r: Result<bytes, EncodeError>)
    ensures r.Ok? <==> PrintableAll(headers)
    ensures r.Ok? ==> r.value == dst + PrintBlock(headers)
    ensures r.Err? ==> r.error in {TooManyHeaders, ValueTooLong, BadHeaderName}
    ensures r == Err(TooManyHeaders) <==> |headers| > MAX_HEADERS
  {
    if |headers| > MAX_HEADERS {
      return Err(TooManyHeaders);
    }
    var b := dst + [|headers|];
    for i := 0 to |headers|
      invariant PrintableAll(headers[..i])
      invariant b == dst + PrintPrefix(headers, i)
    {
      assert headers[..i + 1] == headers[..i] + [headers[i]];
      r := AppendHeader(b, headers[i]);
      if r.Err? {
        assert !Printable(headers[i]);
        return;
      }
      PrintPrefixStep(headers, i);
      Assoc(dst, PrintPrefix(headers, i), PutRaw(ToRaw(headers[i])));
      b := r.value;
    }
    assert headers[..|headers|] == headers;
    return Ok(b);
  }

  /** The body of the loop in appendHeaders. */
  method AppendHeader(dst: bytes, h: Header) returns (r: Result<bytes, EncodeError>)
    ensures r.Ok? <==> Printable(h)
    ensures r.Ok? ==> r.value == dst + PutRaw(ToRaw(h))
    ensures r.Err? ==> r.error in {ValueTooLong, BadHeaderName}
  {
    if |h.value| > MAX_VALUE {
      return Err(ValueTooLong);
    }
    var b := dst;
    var id := TableId(h.name);
    if id.Some? {
      b := b + [id.value];
    } else {
      var ok := IsCustomName(h.name);
      if !ok {
        return Err(BadHeaderName);
      }
      b := b + [0];
      b := b + PutU16(|h.name|);
      b := b + h.name;
    }
    b := b + PutU16(|h.value|);
    b := b + h.value;
    PrintedPieces(dst, h);
    return Ok(b);
  }

  /** The count of a whole list, then its first i headers. */
  ghost function PrintPrefix(headers: seq<Header>, i: nat): bytes
    requires i <= |headers| <= MAX_HEADERS && PrintableAll(headers[..i])
  {
    ToRawsWellFormed(headers[..i]);
    [|headers|] + PutRaws(ToRaws(headers[..i]))
  }

  lemma PrintedPieces(b: bytes, h: Header)
    requires Printable(h)
    ensures TableId(h.name).Some? ==>
              ((b + [TableId(h.name).value]) + PutU16(|h.value|)) + h.value == b + PutRaw(ToRaw(h))
    ensures TableId(h.name).None? ==>
              ((((b + [0]) + PutU16(|h.name|)) + h.name) + PutU16(|h.value|)) + h.value == b + PutRaw(ToRaw(h))
  {
    var r := ToRaw(h);
    if TableId(h.name).Some? {
      TableIsBijective(r.id, h.name);
      assert PutRaw(r) == [r.id] + PutField(h.value);
    } else {
      assert PutRaw(r) == [0] + PutField(h.name) + PutField(h.value);
    }
  }

  lemma {:induction false} PutRawsSnoc(rs: seq<Raw>, r: Raw)
    requires WellFormed(r) && forall x | x in rs :: WellFormed(x)
    ensures PutRaws(rs + [r]) == PutRaws(rs) + PutRaw(r)
  {
    if rs == [] {
      assert rs + [r] == [r];
      assert PutRaws([r]) == PutRaw(r) + PutRaws([]);
    } else {
      PutRawsSnoc(rs[1..], r);
      assert (rs + [r])[1..] == rs[1..] + [r];
      Assoc(PutRaw(rs[0]), PutRaws(rs[1..]), PutRaw(r));
    }
  }

  lemma PrintPrefixStep(headers: seq<Header>, i: nat)
    requires i < |headers| <= MAX_HEADERS && PrintableAll(headers[..i]) && Printable(headers[i])
    ensures PrintableAll(headers[..i + 1])
    ensures PrintPrefix(headers, i + 1) == PrintPrefix(headers, i) + PutRaw(ToRaw(headers[i]))
  {
    hide PutRaws, ToRaw, TableId;
    assert headers[..i + 1] == headers[..i] + [headers[i]];
    ToRawsWellFormed(headers[..i]);
    assert ToRaws(headers[..i + 1]) == ToRaws(headers[..i]) + [ToRaw(headers[i])];
    PutRawsSnoc(ToRaws(headers[..i]), ToRaw(headers[i]));
  }

  method EncodeRequest(q: Request) returns (r: Result<bytes, EncodeError>)
    ensures r.Ok? <==> Buildable(q)
    ensures r.Ok? ==> r.value == PrintRequest(q)
    ensures r == Err(TooLarge) ==> q.verb == METHOD_GET && GoodPath(q.path) && PrintableAll(q.headers)
  {
    if q.verb != METHOD_GET {
      return Err(BadMethod);
    }
    if |q.path| == 0 || |q.path| > MAX_PATH {
      return Err(BadPathLength);
    }
    if !Utf8.Valid(q.path) {
      return Err(BadPathText);
    }
    var b: bytes := [];
    b := b + [q.verb];
    b := b + PutU16(|q.path|);
    b := b + q.path;
    var all := AppendHeaders(b, q.headers);
    if all.Err? {
      return all;
    }
    assert all.value == PrintRequest(q);
    if |all.value| > MAX_MESSAGE {
      return Err(TooLarge);
    }
    return all;
  }

  method EncodeResponse(p: Response) returns (r: Result<bytes, EncodeError>)
    ensures r.Ok? <==> ResponseBuildable(p)
    ensures r.Ok? ==> r.value == PrintResponse(p)
  {
    if !ValidStatus(p.status) {
      return Err(BadStatus);
    }
    var all := AppendHeaders(PutU16(p.status), p.headers);
    if all.Err? {
      return all;
    }
    if |all.value| > MAX_MESSAGE {
      return Err(TooLarge);
    }
    return all;
  }

  method EncodeConnError(e: ConnError) returns (r: Result<bytes, EncodeError>)
    ensures r.Ok? <==> ErrorBuildable(e)
    ensures r.Ok? ==> r.value == PrintError(e)
  {
    if 4 + |e.message| > MAX_MESSAGE {
      return Err(TooLarge);
    }
    var b: bytes := PutU16(e.code);
    b := b + PutU16(|e.message|);
    b := b + e.message;
    assert b == PrintError(e);
    return Ok(b);
  }
}
