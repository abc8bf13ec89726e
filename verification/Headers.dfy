/**
 Header blocks. The wire form is described twice: as raw headers (what the bytes say) and as
 the list a receiver keeps (what the name rules make of them). The parser and the printer are
 loops; both are proved against this description.
 */
module Headers {
  import opened Bytes

  const MAX_HEADERS := 255
  const MAX_CUSTOM_NAME := 255
  const MAX_VALUE := 0xFFFF
  const FIRST_UNKNOWN_ID: byte := 9

  const CONTENT_TYPE: bytes := Ascii("content-type")
  const CONTENT_LENGTH: bytes := Ascii("content-length")
  const SERVER: bytes := Ascii("server")
  const DATE: bytes := Ascii("date")
  const CONNECTION: bytes := Ascii("connection")
  const CONTENT_ENCODING: bytes := Ascii("content-encoding")
  const CACHE_CONTROL: bytes := Ascii("cache-control")
  const LAST_MODIFIED: bytes := Ascii("last-modified")

  datatype Header = Header(name: bytes, value: bytes)

  /** How closely custom names are checked: servers are strict, clients only look at structure. */
  datatype Rules = Strict | Structural

  predicate TableKey(id: byte) {
    1 <= id < FIRST_UNKNOWN_ID
  }

  /** The static table; position k holds the name of identifier k + 1. */
  const TABLE: seq<bytes> := [
    CONTENT_TYPE, CONTENT_LENGTH, SERVER, DATE,
    CONNECTION, CONTENT_ENCODING, CACHE_CONTROL, LAST_MODIFIED
  ]

  function TableName(id: byte): bytes
    requires TableKey(id)
  {
    TABLE[id - 1]
  }

  lemma TableNamesDiffer(a: byte, b: byte)
    requires TableKey(a) && TableKey(b) && TableName(a) == TableName(b)
    ensures a == b
  {
    assert CACHE_CONTROL[0] != LAST_MODIFIED[0];
  }

  /** The identifier of a name, looked for from `from` on. */
  function FindId(name: bytes, from: byte): Option<byte>
    requires 1 <= from <= FIRST_UNKNOWN_ID
    decreases FIRST_UNKNOWN_ID - from
  {
    if from == FIRST_UNKNOWN_ID then None
    else if TableName(from) == name then Some(from)
    else FindId(name, from + 1)
  }

  function TableId(name: bytes): Option<byte> {
    FindId(name, 1)
  }

  lemma {:induction false} FindIdFinds(name: bytes, from: byte)
    requires 1 <= from <= FIRST_UNKNOWN_ID
    ensures var r := FindId(name, from);
            && (r.Some? ==> from <= r.value < FIRST_UNKNOWN_ID && TableName(r.value) == name)
            && (r.None? ==> forall id: byte | from <= id < FIRST_UNKNOWN_ID :: TableName(id) != name)
    decreases FIRST_UNKNOWN_ID - from
  {
    if from < FIRST_UNKNOWN_ID {
      FindIdFinds(name, from + 1);
    }
  }

  /** The static table names every identifier once: identifiers and names are in bijection. */
  lemma TableIsBijective(id: byte, name: bytes)
    ensures TableId(name) == Some(id) <==> TableKey(id) && TableName(id) == name
  {
    FindIdFinds(name, 1);
    if TableKey(id) && TableName(id) == name {
      TableNamesDiffer(id, TableId(name).value);
    }
  }

  lemma TableNamesAreShort(name: bytes)
    requires TableId(name).Some?
    ensures 1 <= |name| <= MAX_CUSTOM_NAME
  {
    FindIdFinds(name, 1);
  }

  predicate NameByte(c: int) {
    || 'a' as int <= c <= 'z' as int
    || '0' as int <= c <= '9' as int
    || c == '-' as int || c == '_' as int || c == '.' as int
  }

  predicate CustomName(name: bytes) {
    && 1 <= |name| <= MAX_CUSTOM_NAME
    && forall c | c in name :: NameByte(c)
  }

  // ---- raw headers: what the bytes say ----

  datatype Raw = Raw(id: byte, name: bytes, value: bytes)

  predicate WellFormed(r: Raw) {
    && |r.name| < 0x1_0000
    && |r.value| <= MAX_VALUE
    && (r.id != 0 ==> r.name == [])
  }

  /** A length-prefixed field. */
  function PutField(f: bytes): bytes
    requires |f| < 0x1_0000
  {
    PutU16(|f|) + f
  }

  function PutRaw(r: Raw): bytes
    requires WellFormed(r)
  {
    (if r.id == 0 then [r.id] + PutField(r.name) else [r.id]) + PutField(r.value)
  }

  /** The length-prefixed field at position `at`, and the position after it. */
  function TakeField(b: bytes, at: nat): (r: Option<(bytes, nat)>)
    ensures r.Some? ==> |r.value.0| < 0x1_0000 && at + 2 + |r.value.0| == r.value.1 <= |b|
  {
    if |b| < at + 2 || |b| < at + 2 + U16At(b, at) then None
    else
      var n := U16At(b, at);
      Some((b[at + 2..at + 2 + n], at + 2 + n))
  }

  lemma TakeFieldOf(front: bytes, field: bytes, rest: bytes)
    requires |field| < 0x1_0000
    ensures TakeField(front + PutField(field) + rest, |front|) == Some((field, |front| + 2 + |field|))
  {
    var b := front + PutField(field) + rest;
    var at := |front|;
    U16RoundTrip(|field|);
    assert b[at] == PutU16(|field|)[0] && b[at + 1] == PutU16(|field|)[1];
    assert b[at + 2..at + 2 + |field|] == field;
  }

  lemma TakeFieldCanonical(b: bytes, at: nat)
    requires TakeField(b, at).Some?
    ensures var (field, end) := TakeField(b, at).value;
            b[at..] == PutField(field) + b[end..] && b[..end] == b[..at] + PutField(field)
  {
    var (field, end) := TakeField(b, at).value;
    U16Canonical(b[at..]);
    assert b[at..end] == PutField(field);
  }

  /** The header b starts with, and the position after it. */
  function TakeRaw(b: bytes): (r: Option<(Raw, nat)>)
    ensures r.Some? ==> 3 <= r.value.1 <= |b|
  {
    if b == [] then None
    else
      var name := if b[0] == 0 then TakeField(b, 1) else Some(([], 1));
      if name.None? then None
      else
        var value := TakeField(b, name.value.1);
        if value.None? then None
        else Some((Raw(b[0], name.value.0, value.value.0), value.value.1))
  }

  lemma TakeRawOf(r: Raw, rest: bytes)
    requires WellFormed(r)
    ensures TakeRaw(PutRaw(r) + rest) == Some((r, |PutRaw(r)|))
  {
    var b := PutRaw(r) + rest;
    if r.id == 0 {
      Assoc([r.id] + PutField(r.name), PutField(r.value), rest);
      TakeFieldOf([r.id], r.name, PutField(r.value) + rest);
      TakeFieldOf([r.id] + PutField(r.name), r.value, rest);
    } else {
      TakeFieldOf([r.id], r.value, rest);
    }
  }

  lemma TakeRawCanonical(b: bytes)
    requires TakeRaw(b).Some?
    ensures var (r, end) := TakeRaw(b).value; WellFormed(r) && b[..end] == PutRaw(r)
  {
    var (r, end) := TakeRaw(b).value;
    assert b[..1] == [r.id];
    if b[0] == 0 {
      TakeFieldCanonical(b, 1);
      TakeFieldCanonical(b, TakeField(b, 1).value.1);
    } else {
      TakeFieldCanonical(b, 1);
    }
  }

  function PutRaws(rs: seq<Raw>): bytes
    requires forall r | r in rs :: WellFormed(r)
  {
    if rs == [] then [] else PutRaw(rs[0]) + PutRaws(rs[1..])
  }

  function TakeRaws(b: bytes, count: nat): (r: Option<(seq<Raw>, bytes)>)
    ensures r.Some? ==> |r.value.0| == count && |b| >= |r.value.1| + 3 * count
  {
    if count == 0 then Some(([], b))
    else
      var first := TakeRaw(b);
      if first.None? then None
      else
        var rest := TakeRaws(b[first.value.1..], count - 1);
        if rest.None? then None
        else Some(([first.value.0] + rest.value.0, rest.value.1))
  }

  lemma {:induction false} TakeRawsOf(rs: seq<Raw>, rest: bytes)
    requires forall r | r in rs :: WellFormed(r)
    ensures TakeRaws(PutRaws(rs) + rest, |rs|) == Some((rs, rest))
  {
    if rs == [] {
      assert PutRaws(rs) + rest == rest;
    } else {
      var first, more := PutRaw(rs[0]), PutRaws(rs[1..]) + rest;
      Assoc(first, PutRaws(rs[1..]), rest);
      TakeRawOf(rs[0], more);
      Halves(first, more);
      TakeRawsOf(rs[1..], rest);
      assert [rs[0]] + rs[1..] == rs;
    }
  }

  lemma {:induction false} TakeRawsCanonical(b: bytes, count: nat)
    requires TakeRaws(b, count).Some?
    ensures var (rs, rest) := TakeRaws(b, count).value;
            (forall r | r in rs :: WellFormed(r)) && b == PutRaws(rs) + rest
  {
    if count == 0 {
      assert PutRaws([]) + b == b;
    } else {
      var (r, end) := TakeRaw(b).value;
      TakeRawCanonical(b);
      TakeRawsCanonical(b[end..], count - 1);
      var (rs, rest) := TakeRaws(b[end..], count - 1).value;
      assert b == b[..end] + b[end..];
      Halves([r], rs);
      Assoc(PutRaw(r), PutRaws(rs), rest);
    }
  }

  // ---- the list a receiver keeps ----

  predicate Rejected(r: Raw, rules: Rules) {
    && r.id == 0
    && (|| r.name == []
        || |r.name| > MAX_CUSTOM_NAME
        || (rules == Strict && (!CustomName(r.name) || TableId(r.name).Some?)))
  }

  predicate AllAccepted(rs: seq<Raw>, rules: Rules) {
    forall r | r in rs :: !Rejected(r, rules)
  }

  predicate Kept(r: Raw) {
    if r.id == 0 then TableId(r.name).None? else TableKey(r.id)
  }

  function Meaning(r: Raw): Header
    requires Kept(r)
  {
    Header(if r.id == 0 then r.name else TableName(r.id), r.value)
  }

  /** What one header adds to the returned list. */
  function Returned(r: Raw): seq<Header> {
    if Kept(r) then [Meaning(r)] else []
  }

  function Meanings(rs: seq<Raw>): seq<Header> {
    if rs == [] then [] else Returned(rs[0]) + Meanings(rs[1..])
  }

  /** count headers starting at b, and the bytes after them; None is a malformed block. */
  function ParseHeaders(b: bytes, count: nat, rules: Rules): Option<(seq<Header>, bytes)> {
    var raws := TakeRaws(b, count);
    if raws.None? || !AllAccepted(raws.value.0, rules) then None
    else Some((Meanings(raws.value.0), raws.value.1))
  }

  type Parsed = Option<(seq<Header>, bytes)>

  /** Headers already in hand, in front of what the rest of the block will give. */
  function WithPrefix(headers: seq<Header>, rest: Parsed): Parsed {
    if rest.None? then None else Some((headers + rest.value.0, rest.value.1))
  }

  /** The same parse in one pass, rejecting at the first header that breaks a rule. */
  function ParseEach(b: bytes, count: nat, rules: Rules): Parsed {
    if count == 0 then Some(([], b))
    else
      var first := TakeRaw(b);
      if first.None? || Rejected(first.value.0, rules) then None
      else WithPrefix(Returned(first.value.0), ParseEach(b[first.value.1..], count - 1, rules))
  }

  lemma MeaningsCons(r: Raw, rs: seq<Raw>)
    ensures Meanings([r] + rs) == Returned(r) + Meanings(rs)
  {
    Halves([r], rs);
  }

  lemma AcceptedCons(r: Raw, rs: seq<Raw>, rules: Rules)
    ensures AllAccepted([r] + rs, rules) <==> !Rejected(r, rules) && AllAccepted(rs, rules)
  {
    assert r in [r] + rs && forall x | x in rs :: x in [r] + rs;
  }

  /** The first header, and what two passes make of the rest. */
  lemma TwoPassStep(b: bytes, count: nat, rules: Rules)
    requires count > 0 && TakeRaw(b).Some?
    ensures var (r, end) := TakeRaw(b).value;
            ParseHeaders(b, count, rules)
            == if Rejected(r, rules) then None else WithPrefix(Returned(r), ParseHeaders(b[end..], count - 1, rules))
  {
    var (r, end) := TakeRaw(b).value;
    var more := b[end..];
    if TakeRaws(more, count - 1).Some? {
      var (rs, rest) := TakeRaws(more, count - 1).value;
      assert TakeRaws(b, count) == Some(([r] + rs, rest));
      AcceptedCons(r, rs, rules);
      MeaningsCons(r, rs);
    } else {
      assert TakeRaws(b, count).None?;
    }
  }

  lemma {:induction false} OnePassIsTwo(b: bytes, count: nat, rules: Rules)
    ensures ParseEach(b, count, rules) == ParseHeaders(b, count, rules)
  {
    if count == 0 {
      assert AllAccepted([], rules);
    } else if TakeRaw(b).Some? {
      TwoPassStep(b, count, rules);
      OnePassIsTwo(b[TakeRaw(b).value.1..], count - 1, rules);
    }
  }

  /** A whole block: the count byte and the headers behind it. */
  function ParseBlock(b: bytes, rules: Rules): Option<(seq<Header>, bytes)> {
    if b == [] then None else ParseHeaders(b[1..], b[0], rules)
  }

  /** The raw headers of a block that parses. */
  function BlockRaws(b: bytes): seq<Raw>
    requires b != [] && TakeRaws(b[1..], b[0]).Some?
  {
    TakeRaws(b[1..], b[0]).value.0
  }

  lemma BlockCanonical(b: bytes, rules: Rules)
    requires ParseBlock(b, rules).Some?
    ensures var rs := BlockRaws(b); var rest := ParseBlock(b, rules).value.1;
            && |rs| == b[0]
            && (forall r | r in rs :: WellFormed(r))
            && b == [b[0]] + PutRaws(rs) + rest
            && (forall r | r in rs :: !Rejected(r, rules))
            && ParseBlock(b, rules).value.0 == Meanings(rs)
  {
    var (rs, rest) := TakeRaws(b[1..], b[0]).value;
    TakeRawsCanonical(b[1..], b[0]);
    Assoc([b[0]], PutRaws(rs), rest);
    Halves([b[0]], b[1..]);
    assert b == [b[0]] + b[1..];
  }

  /** Everything a client accepts that a server would not is a matter of custom names only. */
  lemma ModeInclusion(b: bytes)
    requires ParseBlock(b, Strict).Some?
    ensures ParseBlock(b, Structural) == ParseBlock(b, Strict)
  {
    var raws := BlockRaws(b);
    assert forall r | r in raws :: !Rejected(r, Strict);
    assert forall r | r in raws :: !Rejected(r, Structural);
  }

  /** The difference between the modes is exactly the strict name rules. */
  lemma ModeDifference(b: bytes)
    requires ParseBlock(b, Structural).Some?
    ensures ParseBlock(b, Strict).Some? <==>
            forall r | r in BlockRaws(b) && r.id == 0 :: CustomName(r.name) && TableId(r.name).None?
  {
    var raws := BlockRaws(b);
    assert forall r | r in raws :: !Rejected(r, Structural);
    if ParseBlock(b, Strict).Some? {
      assert forall r | r in raws :: !Rejected(r, Strict);
    } else {
      var r :| r in raws && Rejected(r, Strict);
    }
  }

  // ---- forward compatibility ----

  /** Headers a receiver steps over: unassigned identifiers, and for a client, table names in disguise. */
  predicate Ignorable(r: Raw, rules: Rules) {
    && WellFormed(r)
    && (r.id >= FIRST_UNKNOWN_ID || (rules == Structural && r.id == 0 && TableId(r.name).Some?))
  }

  /** ys is xs with ignorable headers inserted anywhere. */
  ghost predicate Extends(xs: seq<Raw>, ys: seq<Raw>, rules: Rules)
    decreases |ys|
  {
    if ys == [] then xs == []
    else
      || (xs != [] && xs[0] == ys[0] && Extends(xs[1..], ys[1..], rules))
      || (Ignorable(ys[0], rules) && Extends(xs, ys[1..], rules))
  }

  lemma {:induction false} ExtensionsMeanTheSame(xs: seq<Raw>, ys: seq<Raw>, rules: Rules)
    requires Extends(xs, ys, rules)
    requires forall r | r in xs :: WellFormed(r) && !Rejected(r, rules)
    ensures forall r | r in ys :: WellFormed(r) && !Rejected(r, rules)
    ensures Meanings(ys) == Meanings(xs)
    decreases |ys|
  {
    if ys == [] {
    } else if xs != [] && xs[0] == ys[0] && Extends(xs[1..], ys[1..], rules) {
      ExtensionsMeanTheSame(xs[1..], ys[1..], rules);
    } else {
      ExtensionsMeanTheSame(xs, ys[1..], rules);
      if ys[0].id == 0 {
        TableNamesAreShort(ys[0].name);
      }
      assert !Kept(ys[0]) && !Rejected(ys[0], rules);
    }
  }

  lemma BlockOf(rs: seq<Raw>, rest: bytes, rules: Rules)
    requires |rs| <= MAX_HEADERS
    requires forall r | r in rs :: WellFormed(r)
    requires AllAccepted(rs, rules)
    ensures ParseBlock([|rs|] + PutRaws(rs) + rest, rules) == Some((Meanings(rs), rest))
  {
    hide TakeRaws, PutRaws, Meanings, PutRaw;
    HeadersOf(rs, rest, rules);
    Assoc([|rs|], PutRaws(rs), rest);
    CountThenHeaders(|rs|, PutRaws(rs) + rest, rules);
  }

  lemma HeadersOf(rs: seq<Raw>, rest: bytes, rules: Rules)
    requires forall r | r in rs :: WellFormed(r)
    requires AllAccepted(rs, rules)
    ensures ParseHeaders(PutRaws(rs) + rest, |rs|, rules) == Some((Meanings(rs), rest))
  {
    TakeRawsOf(rs, rest);
  }

  lemma CountThenHeaders(n: byte, body: bytes, rules: Rules)
    ensures ParseBlock([n] + body, rules) == ParseHeaders(body, n, rules)
  {
    Halves([n], body);
  }

  /** A newer peer's extra headers change neither the decoded list nor where the block ends. */
  lemma ForwardCompatible(b: bytes, ys: seq<Raw>, rules: Rules)
    requires ParseBlock(b, rules).Some?
    requires Extends(BlockRaws(b), ys, rules)
    requires |ys| <= MAX_HEADERS
    ensures forall r | r in ys :: WellFormed(r)
    ensures ParseBlock([|ys|] + PutRaws(ys) + ParseBlock(b, rules).value.1, rules) == ParseBlock(b, rules)
  {
    BlockCanonical(b, rules);
    ExtensionsMeanTheSame(BlockRaws(b), ys, rules);
    var rest := ParseBlock(b, rules).value.1;
    BlockOf(ys, rest, rules);
  }

  // ---- printing ----

  predicate Printable(h: Header) {
    |h.value| <= MAX_VALUE && (TableId(h.name).Some? || CustomName(h.name))
  }

  predicate PrintableAll(hs: seq<Header>) {
    |hs| <= MAX_HEADERS && forall h | h in hs :: Printable(h)
  }

  /** A sender uses the table identifier whenever there is one. */
  function ToRaw(h: Header): (r: Raw)
    ensures Printable(h) ==> WellFormed(r)
  {
    var id := TableId(h.name);
    if id.Some? then Raw(id.value, [], h.value) else Raw(0, h.name, h.value)
  }

  function ToRaws(hs: seq<Header>): (rs: seq<Raw>)
    ensures |rs| == |hs|
    ensures forall i :: 0 <= i < |hs| ==> rs[i] == ToRaw(hs[i])
  {
    seq(|hs|, i requires 0 <= i < |hs| => ToRaw(hs[i]))
  }

  lemma ToRawsCons(h: Header, more: seq<Header>)
    ensures ToRaws([h] + more) == [ToRaw(h)] + ToRaws(more)
  {
    hide ToRaw, TableId;
  }

  lemma ToRawsWellFormed(hs: seq<Header>)
    requires PrintableAll(hs)
    ensures forall r | r in ToRaws(hs) :: WellFormed(r) && !Rejected(r, Strict)
  {
    forall r | r in ToRaws(hs) ensures WellFormed(r) && !Rejected(r, Strict) {
      var i :| 0 <= i < |hs| && ToRaws(hs)[i] == r;
      assert Printable(hs[i]);
      if r.id != 0 {
        TableIsBijective(r.id, hs[i].name);
      }
    }
  }

  function PrintBlock(hs: seq<Header>): bytes
    requires PrintableAll(hs)
  {
    ToRawsWellFormed(hs);
    [|hs|] + PutRaws(ToRaws(hs))
  }

  lemma ToRawKept(h: Header)
    ensures Kept(ToRaw(h)) && Meaning(ToRaw(h)) == h
  {
    if TableId(h.name).Some? {
      TableIsBijective(TableId(h.name).value, h.name);
    }
  }

  lemma {:induction false} MeaningsOfPrinted(hs: seq<Header>)
    ensures Meanings(ToRaws(hs)) == hs
  {
    if hs != [] {
      ToRawKept(hs[0]);
      assert ToRaws(hs)[1..] == ToRaws(hs[1..]);
      MeaningsOfPrinted(hs[1..]);
    }
  }

  /** Whatever can be printed reads back as itself, in either mode. */
  lemma PrintedBlockParses(hs: seq<Header>, rest: bytes, rules: Rules)
    requires PrintableAll(hs)
    ensures ParseBlock(PrintBlock(hs) + rest, rules) == Some((hs, rest))
  {
    ToRawsWellFormed(hs);
    MeaningsOfPrinted(hs);
    BlockOf(ToRaws(hs), rest, Strict);
    ModeInclusion(PrintBlock(hs) + rest);
  }

  // ---- canonicity ----

  /** The headers of a raw list that carry an assigned identifier. */
  function Assigned(rs: seq<Raw>): (kept: seq<Raw>)
    ensures |kept| <= |rs|
    ensures (forall r | r in rs :: r.id < FIRST_UNKNOWN_ID) ==> kept == rs
  {
    if rs == [] then []
    else (if rs[0].id < FIRST_UNKNOWN_ID then [rs[0]] else []) + Assigned(rs[1..])
  }

  lemma ReprintOne(r: Raw)
    requires WellFormed(r) && !Rejected(r, Strict)
    ensures Kept(r) <==> r.id < FIRST_UNKNOWN_ID
    ensures Kept(r) ==> Printable(Meaning(r)) && ToRaw(Meaning(r)) == r
  {
    if TableKey(r.id) {
      TableIsBijective(r.id, TableName(r.id));
    }
  }

  lemma {:induction false} ReprintStrict(rs: seq<Raw>)
    requires forall r | r in rs :: WellFormed(r)
    requires AllAccepted(rs, Strict)
    ensures ToRaws(Meanings(rs)) == Assigned(rs)
    ensures forall h | h in Meanings(rs) :: Printable(h)
  {
    if rs != [] {
      ReprintStrict(rs[1..]);
      ReprintOne(rs[0]);
      if Kept(rs[0]) {
        ToRawsCons(Meaning(rs[0]), Meanings(rs[1..]));
      }
    }
  }

  lemma {:induction false} AssignedIsSmaller(rs: seq<Raw>)
    requires forall r | r in rs :: WellFormed(r)
    ensures forall r | r in Assigned(rs) :: WellFormed(r)
    ensures |PutRaws(Assigned(rs))| <= |PutRaws(rs)|
  {
    if rs != [] {
      AssignedIsSmaller(rs[1..]);
      var more := Assigned(rs[1..]);
      assert ([rs[0]] + more)[1..] == more && [] + more == more;
    }
  }

  /** Printing what a strict parse kept drops the unassigned headers and nothing else. */
  lemma ParsedBlockReprints(b: bytes)
    requires ParseBlock(b, Strict).Some?
    ensures var (hs, rest) := ParseBlock(b, Strict).value;
            && PrintableAll(hs)
            && |PrintBlock(hs) + rest| <= |b|
            && ((forall r | r in BlockRaws(b) :: r.id < FIRST_UNKNOWN_ID) ==> PrintBlock(hs) + rest == b)
  {
    BlockCanonical(b, Strict);
    ReprintStrict(BlockRaws(b));
    AssignedIsSmaller(BlockRaws(b));
  }
}
