/**
 The second implementation's request parser. It works on absolute positions and on decoded
 text, and it makes its checks in its own order; it is compared with the first at the end.
 */
module PythonServer {
  import opened Bytes
  import opened Headers
  import opened Messages
  import opened Paths
  import Utf8

  const MAX_PATH_PY := 4096

  /** (id, name or None, value), as parse_headers collects them. */
  datatype PyHeader = PyHeader(id: byte, name: Option<bytes>, value: bytes)

  // ---- headers ----

  /** One turn of the loop in parse_headers, from position pos to the next; None is Malformed. */
  function PyHeaderAt(payload: bytes, pos: nat): (r: Option<(PyHeader, nat)>)
    ensures r.Some? ==> pos < r.value.1 <= |payload|
  {
    if pos + 1 > |payload| then None
    else
      var id := payload[pos];
      var name := if id == 0 then PyNameAt(payload, pos + 1) else Some((None, pos + 1));
      if name.None? then None
      else
        var at := name.value.1;
        if at + 2 > |payload| then None
        else
          var size := U16At(payload, at);
          if at + 2 + size > |payload| then None
          else Some((PyHeader(id, name.value.0, payload[at + 2..at + 2 + size]), at + 2 + size))
  }

  /** Only custom-name bytes, and not a name from the table. */
  predicate GoodNamePy(name: bytes) {
    (forall b | b in name :: NameByte(b)) && name !in TABLE
  }

  function PyNameAt(payload: bytes, pos: nat): (r: Option<(Option<bytes>, nat)>)
    ensures r.Some? ==> r.value.0.Some? && pos < r.value.1 <= |payload|
  {
    if pos + 2 > |payload| then None
    else
      var size := U16At(payload, pos);
      if size < 1 || size > 255 || pos + 2 + size > |payload| then None
      else
        var name := payload[pos + 2..pos + 2 + size];
        if !GoodNamePy(name) then None
        else Some((Some(name), pos + 2 + size))
  }

  function PyHeaders(payload: bytes, pos: nat, count: nat): Option<(seq<PyHeader>, nat)>
    decreases count
  {
    if count == 0 then Some(([], pos))
    else
      var first := PyHeaderAt(payload, pos);
      if first.None? then None
      else
        var rest := PyHeaders(payload, first.value.1, count - 1);
        if rest.None? then None else Some(([first.value.0] + rest.value.0, rest.value.1))
  }

  /** The body of the loop in parse_headers. */
  method ParseHeaderPy(payload: bytes, start: nat) returns (r: Option<(PyHeader, nat)>)
    ensures r == PyHeaderAt(payload, start)
  {
    var pos, n := start, |payload|;
    if pos + 1 > n {
      return None;
    }
    var id := payload[pos];
    pos := pos + 1;
    var name := None;
    if id == 0 {
      if pos + 2 > n {
        return None;
      }
      var nl := U16At(payload, pos);
      pos := pos + 2;
      if nl < 1 || nl > 255 || pos + nl > n {
        return None;
      }
      var raw := payload[pos..pos + nl];
      pos := pos + nl;
      if !GoodNamePy(raw) {
        return None;
      }
      name := Some(raw);
    }
    if pos + 2 > n {
      return None;
    }
    var vl := U16At(payload, pos);
    pos := pos + 2;
    if pos + vl > n {
      return None;
    }
    return Some((PyHeader(id, name, payload[pos..pos + vl]), pos + vl));
  }

  method ParseHeadersPy(payload: bytes, start: nat, count: nat) returns (r: Option<(seq<PyHeader>, nat)>)
    ensures r == PyHeaders(payload, start, count)
  {
    var out: seq<PyHeader> := [];
    var pos := start;
    NothingJoined(PyHeaders(payload, start, count));
    for k := 0 to count
      invariant PyHeaders(payload, start, count) == Joined(out, PyHeaders(payload, pos, count - k))
    {
      var h := ParseHeaderPy(payload, pos);
      if h.None? {
        return None;
      }
      JoinedStep(payload, pos, count - k, out);
      out := out + [h.value.0];
      pos := h.value.1;
    }
    assert out + [] == out;
    return Some((out, pos));
  }

  ghost function Joined(out: seq<PyHeader>, rest: Option<(seq<PyHeader>, nat)>): Option<(seq<PyHeader>, nat)> {
    if rest.None? then None else Some((out + rest.value.0, rest.value.1))
  }

  lemma NothingJoined(rest: Option<(seq<PyHeader>, nat)>)
    ensures Joined([], rest) == rest
  {
    if rest.Some? {
      assert [] + rest.value.0 == rest.value.0;
    }
  }

  lemma JoinedStep(payload: bytes, pos: nat, count: nat, out: seq<PyHeader>)
    requires count > 0 && PyHeaderAt(payload, pos).Some?
    ensures var (h, next) := PyHeaderAt(payload, pos).value;
            Joined(out, PyHeaders(payload, pos, count)) == Joined(out + [h], PyHeaders(payload, next, count - 1))
  {
    var (h, next) := PyHeaderAt(payload, pos).value;
    var rest := PyHeaders(payload, next, count - 1);
    if rest.Some? {
      Assoc(out, [h], rest.value.0);
    }
  }

  // ---- paths ----

  predicate PyReserved(name: seq<int>) {
    DeviceName(name)
  }

  predicate PySegmentOk(seg: seq<int>) {
    || seg == []
    || (&& seg != [DOT] && seg != [DOT, DOT]
        && seg[|seg| - 1] != DOT && seg[|seg| - 1] != SPACE
        && !PyReserved(UpperAll(Split(seg, DOT)[0])))
  }

  predicate PyPathOk(raw: bytes) {
    && raw != [] && raw[0] == SLASH
    && (forall b | b in raw :: PlainByte(b))
    && !DoubleSlash(raw)
    && Utf8.Valid(raw)
    && (forall seg | seg in Split(Utf8.Decode(raw), SLASH)[1..] :: PySegmentOk(seg))
  }

  method ValidPath(raw: bytes) returns (ok: bool)
    ensures ok <==> PyPathOk(raw)
  {
    if raw == [] || raw[0] != SLASH {
      return false;
    }
    for i := 0 to |raw|
      invariant forall k :: 0 <= k < i ==> PlainByte(raw[k])
    {
      if !PlainByte(raw[i]) {
        assert raw[i] in raw;
        return false;
      }
    }
    var doubled := HasDoubleSlash(raw);
    if doubled || !Utf8.Valid(raw) {
      return false;
    }
    var segs := Split(Utf8.Decode(raw), SLASH)[1..];
    for i := 0 to |segs|
      invariant forall k :: 0 <= k < i ==> PySegmentOk(segs[k])
    {
      var seg := segs[i];
      assert seg in segs;
      if seg == [] {
        continue;
      }
      if seg == [DOT] || seg == [DOT, DOT] {
        return false;
      }
      if seg[|seg| - 1] == DOT || seg[|seg| - 1] == SPACE {
        return false;
      }
      if PyReserved(UpperAll(Split(seg, DOT)[0])) {
        return false;
      }
    }
    return true;
  }

  // ---- requests ----

  /** flags & 0xFE, as the distance to the value with those bits alone. */
  function OtherFlags(flags: byte): int {
    flags - flags % 2
  }

  /** The payload of a request whose flags are right. */
  function PyBody(payload: bytes): Option<(bytes, seq<PyHeader>)> {
    if |payload| < 5 || payload[0] != METHOD_GET then None
    else
      var pl := U16At(payload, 1);
      if pl == 0 || pl > MAX_PATH_PY || 3 + pl + 1 > |payload| then None
      else
        var path := payload[3..3 + pl];
        var headers := PyHeaders(payload, 4 + pl, payload[3 + pl]);
        if headers.None? || headers.value.1 != |payload| || !PyPathOk(path) then None
        else Some((path, headers.value.0))
  }

  function PyRequest(flags: byte, payload: bytes): Option<(bytes, seq<PyHeader>)> {
    if OtherFlags(flags) != 0 || flags % 2 == 0 then None else PyBody(payload)
  }

  method ParseRequestPy(flags: byte, payload: bytes) returns (r: Option<(bytes, seq<PyHeader>)>)
    ensures r == PyRequest(flags, payload)
  {
    if OtherFlags(flags) != 0 {
      return None;
    }
    if flags % 2 == 0 {
      return None;
    }
    if |payload| < 5 {
      return None;
    }
    if payload[0] != METHOD_GET {
      return None;
    }
    var pl := U16At(payload, 1);
    if pl == 0 || pl > MAX_PATH_PY || 3 + pl + 1 > |payload| {
      return None;
    }
    var path := payload[3..3 + pl];
    var count := payload[3 + pl];
    var headers := ParseHeadersPy(payload, 4 + pl, count);
    if headers.None? || headers.value.1 != |payload| {
      return None;
    }
    var good := ValidPath(path);
    if !good {
      return None;
    }
    return Some((path, headers.value.0));
  }
}

/** Two parsers, one verdict. */
module OneVerdict {
  import opened Bytes
  import opened Frames
  import opened Headers
  import opened Messages
  import opened Paths
  import opened PythonServer
  import Utf8

  /** The Go server answers 400. */
  predicate GoAnswers400(flags: byte, payload: bytes) {
    || !RequestFlagsOk(flags)
    || ParseRequest(payload).None?
    || !PathOk(ParseRequest(payload).value.path)
  }

  lemma InTable(name: bytes)
    ensures name in TABLE <==> TableId(name).Some?
  {
    if name in TABLE {
      var k :| 0 <= k < |TABLE| && TABLE[k] == name;
      TableIsBijective(k + 1, name);
    } else if TableId(name).Some? {
      TableIsBijective(TableId(name).value, name);
    }
  }

  lemma SameField(payload: bytes, pos: nat, at: nat)
    requires pos <= |payload|
    ensures var s := payload[pos..];
            if |payload| < pos + at + 2 || |payload| < pos + at + 2 + U16At(payload, pos + at)
            then TakeField(s, at).None?
            else TakeField(s, at) == Some((payload[pos + at + 2..pos + at + 2 + U16At(payload, pos + at)],
                                           at + 2 + U16At(payload, pos + at)))
  {
    var s := payload[pos..];
    if |payload| >= pos + at + 2 && |payload| >= pos + at + 2 + U16At(payload, pos + at) {
      var n := U16At(payload, pos + at);
      assert s[at + 2..at + 2 + n] == payload[pos + at + 2..pos + at + 2 + n];
    }
  }

  lemma SameVerdictOnName(name: bytes)
    ensures 1 <= |name| <= 255 && GoodNamePy(name) <==> !Rejected(Raw(0, name, []), Strict)
  {
    InTable(name);
  }

  /** The name part of the header at a position: same bytes, same end, same verdict on custom names. */
  lemma SameName(payload: bytes, pos: nat)
    requires pos < |payload| && payload[pos] == 0
    ensures var py := PyNameAt(payload, pos + 1); var go := TakeField(payload[pos..], 1);
            && (py.Some? <==> go.Some? && !Rejected(Raw(0, go.value.0, []), Strict))
            && (py.Some? ==> py.value == (Some(go.value.0), pos + go.value.1))
  {
    hide TableId, CustomName, GoodNamePy, TakeField;
    SameField(payload, pos, 1);
    if TakeField(payload[pos..], 1).Some? {
      SameVerdictOnName(TakeField(payload[pos..], 1).value.0);
    }
  }

  /** Both parsers find the same header at a position, or neither finds one. */
  predicate SameAt(payload: bytes, pos: nat)
    requires pos <= |payload|
  {
    var py, go := PyHeaderAt(payload, pos), TakeRaw(payload[pos..]);
    && (py.Some? <==> go.Some? && !Rejected(go.value.0, Strict))
    && (py.Some? ==> py.value.1 == pos + go.value.1 && py.value.0 == AsPy(go.value.0))
  }

  lemma SameCustom(payload: bytes, pos: nat)
    requires pos < |payload| && payload[pos] == 0
    ensures SameAt(payload, pos)
  {
    var s := payload[pos..];
    SameName(payload, pos);
    if TakeField(s, 1).Some? {
      var end := TakeField(s, 1).value.1;
      SameField(payload, pos, end);
      assert PyNameAt(payload, pos + 1).Some? ==> PyNameAt(payload, pos + 1).value.1 == pos + end;
    }
  }

  lemma SameAssigned(payload: bytes, pos: nat)
    requires pos < |payload| && payload[pos] != 0
    ensures SameAt(payload, pos)
  {
    SameField(payload, pos, 1);
  }

  lemma SameHeader(payload: bytes, pos: nat)
    requires pos <= |payload|
    ensures SameAt(payload, pos)
  {
    if pos < |payload| {
      if payload[pos] == 0 {
        SameCustom(payload, pos);
      } else {
        SameAssigned(payload, pos);
      }
    }
  }

  /** A raw header in the shape Python keeps it. */
  function AsPy(r: Raw): PyHeader {
    PyHeader(r.id, if r.id == 0 then Some(r.name) else None, r.value)
  }

  /** What Python's header list means to the Go server. */
  function PyMeaning(h: PyHeader): seq<Header>
    requires h.id == 0 ==> h.name.Some?
  {
    if h.id == 0 then [Header(h.name.value, h.value)]
    else if TableKey(h.id) then [Header(TableName(h.id), h.value)]
    else []
  }

  function PyMeanings(hs: seq<PyHeader>): seq<Header>
    requires forall h | h in hs && h.id == 0 :: h.name.Some?
  {
    if hs == [] then [] else PyMeaning(hs[0]) + PyMeanings(hs[1..])
  }

  lemma {:induction false} SameHeaders(payload: bytes, pos: nat, count: nat)
    requires pos <= |payload|
    ensures var py := PyHeaders(payload, pos, count); var go := ParseEach(payload[pos..], count, Strict);
            && (py.Some? <==> go.Some?)
            && (py.Some? ==>
                  && pos <= py.value.1 <= |payload|
                  && go.value.1 == payload[py.value.1..]
                  && (forall h | h in py.value.0 && h.id == 0 :: h.name.Some?)
                  && go.value.0 == PyMeanings(py.value.0))
    decreases count
  {
    if count > 0 {
      SameHeader(payload, pos);
      var s, first := payload[pos..], PyHeaderAt(payload, pos);
      if first.Some? {
        var (h, next) := first.value;
        SameHeaders(payload, next, count - 1);
        var (r, end) := TakeRaw(s).value;
        assert s[end..] == payload[next..];
        assert Returned(r) == PyMeaning(h);
        var rest := PyHeaders(payload, next, count - 1);
        if rest.Some? {
          assert ([h] + rest.value.0)[1..] == rest.value.0;
        }
      }
    }
  }

  lemma SameSegment(seg: bytes)
    requires Utf8.Valid(seg)
    ensures PySegmentOk(Utf8.Decode(seg)) <==> SegmentOk(seg)
  {
    AsciiExact(seg, []);
    AsciiExact(seg, [DOT]);
    AsciiExact(seg, [DOT, DOT]);
    if seg != [] {
      LastExact(seg, DOT);
      LastExact(seg, SPACE);
      SameReserved(seg);
    }
  }

  lemma SameReserved(seg: bytes)
    requires Utf8.Valid(seg)
    ensures PyReserved(UpperAll(Split(Utf8.Decode(seg), DOT)[0])) <==> ReservedDeviceName(seg)
  {
    var text := Utf8.Decode(seg);
    var stem := seg[..IndexOf(seg, DOT)];
    IndexInText(seg, DOT);
    assert Split(text, DOT)[0] == text[..IndexOf(text, DOT)] == Utf8.Decode(stem);
    ReservedIsDevice(seg);
    SameDevice(stem);
  }

  lemma SameDevice(stem: bytes)
    requires Utf8.Valid(stem)
    ensures DeviceName(UpperAll(Utf8.Decode(stem))) <==> DeviceName(UpperAll(stem))
  {
    UpperExact(stem, Ascii("CON"));
    UpperExact(stem, Ascii("PRN"));
    UpperExact(stem, Ascii("AUX"));
    UpperExact(stem, Ascii("NUL"));
    forall d | '1' as int <= d <= '9' as int
      ensures UpperAll(Utf8.Decode(stem)) == Ascii("COM") + [d] <==> UpperAll(stem) == Ascii("COM") + [d]
      ensures UpperAll(Utf8.Decode(stem)) == Ascii("LPT") + [d] <==> UpperAll(stem) == Ascii("LPT") + [d]
    {
      UpperExact(stem, Ascii("COM") + [d]);
      UpperExact(stem, Ascii("LPT") + [d]);
    }
  }

  /** Byte-level and text-level path rules agree. */
  lemma SamePaths(p: bytes)
    ensures PyPathOk(p) <==> PathOk(p)
  {
    hide ReservedDeviceName, DeviceName;
    if Utf8.Valid(p) && p != [] && p[0] == SLASH {
      var text, parts := Utf8.Decode(p), SplitBytes(p, SLASH);
      SplitThenDecode(p, SLASH);
      assert IndexOf(p, SLASH) == 0;
      assert parts == [p[..0]] + SplitBytes(p[1..], SLASH);
      var bySegment, byText := Split(p[1..], SLASH), Split(text, SLASH)[1..];
      assert byText == DecodeAll(parts)[1..];
      assert |byText| == |bySegment|;
      forall k | 0 <= k < |bySegment|
        ensures PySegmentOk(byText[k]) <==> SegmentOk(bySegment[k])
      {
        assert parts[k + 1] in parts;
        SameSegment(parts[k + 1]);
      }
      assert (forall k | 0 <= k < |byText| :: PySegmentOk(byText[k]))
         <==> (forall k | 0 <= k < |bySegment| :: SegmentOk(bySegment[k]));
    }
  }

  /** Behind the path: one parser accepts the header block exactly when the other does, to the end. */
  lemma SameBlock(payload: bytes, end: nat)
    requires end < |payload|
    ensures var py := PyHeaders(payload, end + 1, payload[end]); var go := ParseBlock(payload[end..], Strict);
            && (py.Some? && py.value.1 == |payload| <==> go.Some? && go.value.1 == [])
            && (py.Some? ==>
                  && (forall h | h in py.value.0 && h.id == 0 :: h.name.Some?)
                  && go.Some? && go.value.0 == PyMeanings(py.value.0))
  {
    var block := payload[end..];
    assert block[1..] == payload[end + 1..];
    SameHeaders(payload, end + 1, payload[end]);
    OnePassIsTwo(block[1..], block[0], Strict);
  }

  lemma SamePathPart(payload: bytes)
    requires payload != []
    ensures if |payload| < 3 || |payload| < 3 + U16At(payload, 1) then TakeField(payload, 1).None?
            else TakeField(payload, 1) == Some((payload[3..3 + U16At(payload, 1)], 3 + U16At(payload, 1)))
  {
    SameField(payload, 0, 1);
    assert payload[0..] == payload;
  }

  /** Both parsers make the same of a payload, or neither accepts it. */
  predicate SameBody(payload: bytes) {
    var py, go := PyBody(payload), ParseRequest(payload);
    && (py.Some? <==> go.Some? && PathOk(go.value.path))
    && (py.Some? ==>
          var (path, headers) := py.value;
          && (forall h | h in headers && h.id == 0 :: h.name.Some?)
          && go == Some(Request(METHOD_GET, path, PyMeanings(headers))))
  }

  lemma GoBehindPath(payload: bytes, path: bytes, end: nat)
    requires payload != [] && payload[0] == METHOD_GET
    requires TakeField(payload, 1) == Some((path, end)) && end < |payload|
    ensures var block := ParseBlock(payload[end..], Strict);
            ParseRequest(payload)
            == if !GoodPath(path) || block.None? || block.value.1 != [] then None
               else Some(Request(METHOD_GET, path, block.value.0))
  {
    hide ParseBlock, Utf8.Valid;
  }

  lemma PyBehindPath(payload: bytes, path: bytes, end: nat)
    requires payload != [] && payload[0] == METHOD_GET
    requires TakeField(payload, 1) == Some((path, end)) && end < |payload|
    ensures var headers := PyHeaders(payload, end + 1, payload[end]);
            PyBody(payload)
            == if path == [] || |path| > MAX_PATH_PY || headers.None? || headers.value.1 != |payload|
                  || !PyPathOk(path) then None
               else Some((path, headers.value.0))
  {
    hide PyHeaders, PyPathOk;
    SamePathPart(payload);
  }

  /** A payload with a path and something behind it. */
  lemma SameBehindPath(payload: bytes, path: bytes, end: nat)
    requires payload != [] && payload[0] == METHOD_GET
    requires TakeField(payload, 1) == Some((path, end)) && end < |payload|
    ensures SameBody(payload)
  {
    hide PyBody, ParseRequest, PyHeaders, ParseBlock, PyPathOk, TakeField;
    GoBehindPath(payload, path, end);
    PyBehindPath(payload, path, end);
    SamePaths(path);
    SameBlock(payload, end);
  }

  /** A payload that stops within its path or right behind it. */
  lemma NeitherWithoutBlock(payload: bytes)
    requires payload == [] || TakeField(payload, 1).None? || TakeField(payload, 1).value.1 == |payload|
    ensures PyBody(payload).None? && ParseRequest(payload).None?
  {
    if payload != [] {
      SamePathPart(payload);
      if TakeField(payload, 1).Some? {
        assert payload[TakeField(payload, 1).value.1..] == [];
      }
    }
  }

  lemma BodiesAgree(payload: bytes)
    ensures SameBody(payload)
  {
    if payload == [] || TakeField(payload, 1).None? || TakeField(payload, 1).value.1 == |payload| {
      NeitherWithoutBlock(payload);
    } else if payload[0] == METHOD_GET {
      var (path, end) := TakeField(payload, 1).value;
      SameBehindPath(payload, path, end);
    }
  }

  /** For every flags byte and payload, one server answers 400 exactly when the other does. */
  lemma TwoParsersOneVerdict(flags: byte, payload: bytes)
    ensures PyRequest(flags, payload).None? <==> GoAnswers400(flags, payload)
    ensures PyRequest(flags, payload).Some? ==>
              var (path, headers) := PyRequest(flags, payload).value;
              && (forall h | h in headers && h.id == 0 :: h.name.Some?)
              && ParseRequest(payload) == Some(Request(METHOD_GET, path, PyMeanings(headers)))
  {
    BodiesAgree(payload);
  }
}
