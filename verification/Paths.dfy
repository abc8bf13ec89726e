/** Which request paths a server is willing to look at. */
module Paths {
  import opened Bytes
  import Utf8

  const SLASH: byte := 0x2F
  const DOT: byte := 0x2E
  const SPACE: byte := 0x20

  /** The first position of c in s, or |s|. */
  function IndexOf(s: seq<int>, c: int): (i: nat)
    ensures i <= |s|
    ensures forall k :: 0 <= k < i ==> s[k] != c
    ensures i < |s| ==> s[i] == c
  {
    if s == [] || s[0] == c then 0 else 1 + IndexOf(s[1..], c)
  }

  lemma IndexOfIs(s: seq<int>, c: int, i: nat)
    requires i <= |s| && (forall k :: 0 <= k < i ==> s[k] != c) && (i < |s| ==> s[i] == c)
    ensures IndexOf(s, c) == i
  {
  }

  /** strings.Split with a one-byte separator. */
  function Split(s: seq<int>, sep: int): (parts: seq<seq<int>>)
    ensures parts != []
    ensures forall p | p in parts :: sep !in p
  {
    var i := IndexOf(s, sep);
    if i == |s| then [s] else [s[..i]] + Split(s[i + 1..], sep)
  }

  /** Control bytes and the characters some file system reads specially. */
  predicate PlainByte(c: int) {
    && c >= 0x20 && c != 0x7F
    && c != '\\' as int && c != ':' as int && c != '*' as int && c != '?' as int
    && c != '"' as int && c != '<' as int && c != '>' as int && c != '|' as int
  }

  predicate DoubleSlash(p: seq<int>) {
    exists k :: 0 <= k < |p| - 1 && p[k] == SLASH && p[k + 1] == SLASH
  }

  function Upper(c: int): int {
    if 'a' as int <= c <= 'z' as int then c - 0x20 else c
  }

  function UpperAll(s: seq<int>): (u: seq<int>)
    ensures |u| == |s|
    ensures forall i :: 0 <= i < |s| ==> u[i] == Upper(s[i])
  {
    if s == [] then [] else [Upper(s[0])] + UpperAll(s[1..])
  }

  function Stem(seg: seq<int>): seq<int> {
    seg[..IndexOf(seg, DOT)]
  }

  /** Device names as the specification lists them: CON PRN AUX NUL COM1-COM9 LPT1-LPT9. */
  predicate DeviceName(u: seq<int>) {
    || u == Ascii("CON") || u == Ascii("PRN") || u == Ascii("AUX") || u == Ascii("NUL")
    || exists d :: '1' as int <= d <= '9' as int && (u == Ascii("COM") + [d] || u == Ascii("LPT") + [d])
  }

  /** The same test as the server's code runs it: lengths, prefixes and a digit range. */
  predicate ReservedDeviceName(seg: seq<int>) {
    var stem := UpperAll(Stem(seg));
    if stem == Ascii("CON") || stem == Ascii("PRN") || stem == Ascii("AUX") || stem == Ascii("NUL") then true
    else if |stem| == 4 && (stem[..3] == Ascii("COM") || stem[..3] == Ascii("LPT")) then
      '1' as int <= stem[3] <= '9' as int
    else false
  }

  lemma ReservedIsDevice(seg: seq<int>)
    ensures ReservedDeviceName(seg) <==> DeviceName(UpperAll(Stem(seg)))
  {
    var u := UpperAll(Stem(seg));
    if |u| == 4 {
      assert u == u[..3] + [u[3]];
    }
    forall d: int | '1' as int <= d <= '9' as int && (u == Ascii("COM") + [d] || u == Ascii("LPT") + [d])
      ensures ReservedDeviceName(seg)
    {
      assert |u| == 4 && u[3] == d;
      assert u[..3] == Ascii("COM") || u[..3] == Ascii("LPT");
    }
  }

  /** The empty segment is the root itself or a trailing slash. */
  predicate SegmentOk(seg: seq<int>) {
    || seg == []
    || (&& seg != [DOT] && seg != [DOT, DOT]
        && seg[|seg| - 1] != DOT && seg[|seg| - 1] != SPACE
        && !ReservedDeviceName(seg))
  }

  predicate PathOk(p: bytes) {
    && p != [] && p[0] == SLASH
    && Utf8.Valid(p)
    && !DoubleSlash(p)
    && (forall c | c in p :: PlainByte(c))
    && (forall seg | seg in Split(p[1..], SLASH) :: SegmentOk(seg))
  }

  method HasDoubleSlash(p: seq<int>) returns (found: bool)
    ensures found <==> DoubleSlash(p)
  {
    for k := 0 to |p|
      invariant forall j :: 0 <= j < k && j < |p| - 1 ==> !(p[j] == SLASH && p[j + 1] == SLASH)
    {
      if k + 1 < |p| && p[k] == SLASH && p[k + 1] == SLASH {
        return true;
      }
    }
    return false;
  }

  method CheckPath(p: bytes) returns (ok: bool)
    ensures ok <==> PathOk(p)
  {
    if p == [] || p[0] != SLASH || !Utf8.Valid(p) {
      return false;
    }
    var doubled := HasDoubleSlash(p);
    if doubled {
      return false;
    }
    for i := 0 to |p|
      invariant forall k :: 0 <= k < i ==> PlainByte(p[k])
    {
      if !PlainByte(p[i]) {
        assert p[i] in p;
        return false;
      }
    }
    var segs := Split(p[1..], SLASH);
    for i := 0 to |segs|
      invariant forall k :: 0 <= k < i ==> SegmentOk(segs[k])
    {
      var seg := segs[i];
      assert seg in segs;
      if seg == [] {
        continue;
      }
      if seg == [DOT] || seg == [DOT, DOT] {
        return false;
      }
      var last := seg[|seg| - 1];
      if last == DOT || last == SPACE {
        return false;
      }
      if ReservedDeviceName(seg) {
        return false;
      }
    }
    return true;
  }

  // ---- splitting bytes and splitting text ----

  /** A character's length does not depend on what follows it. */
  lemma LengthIsLocal(b: bytes, i: nat)
    requires 0 < Utf8.CharLength(b) <= i <= |b|
    ensures Utf8.CharLength(b[..i]) == Utf8.CharLength(b)
    ensures Utf8.CodePoint(b[..i]) == Utf8.CodePoint(b)
  {
  }

  lemma TextStep(b: bytes)
    requires b != [] && Utf8.CharLength(b) > 0
    ensures var n := Utf8.CharLength(b);
            && (Utf8.Valid(b) <==> Utf8.Valid(b[n..]))
            && (Utf8.Valid(b) ==> Utf8.Decode(b) == [Utf8.CodePoint(b)] + Utf8.Decode(b[n..]))
  {
  }

  lemma TextBegins(b: bytes)
    requires b != [] && Utf8.Valid(b)
    ensures Utf8.CharLength(b) > 0
  {
  }

  lemma EmptyText()
    ensures Utf8.Valid([]) && Utf8.Decode([]) == []
  {
  }

  lemma SlicesAt(b: bytes, n: nat, i: nat)
    requires n <= i <= |b|
    ensures b[..i][n..] == b[n..][..i - n] && b[n..][i - n..] == b[i..]
  {
  }

  /** An ASCII byte is a character boundary: what precedes it is text on its own, and so is the rest. */
  lemma {:induction false} AsciiSplits(b: bytes, i: nat)
    requires Utf8.Valid(b) && i < |b| && b[i] < 0x80
    ensures Utf8.Valid(b[..i]) && Utf8.Valid(b[i..])
    ensures Utf8.Decode(b) == Utf8.Decode(b[..i]) + Utf8.Decode(b[i..])
  {
    hide Utf8.Valid, Utf8.Decode, Utf8.CodePoint, Utf8.CharLength;
    if i == 0 {
      assert b[..i] == [] && b[i..] == b;
      EmptyText();
    } else {
      var n := Utf8.CharLength(b);
      TextBegins(b);
      InsideIsTail(b, i);
      TextStep(b);
      AsciiSplits(b[n..], i - n);
      LengthIsLocal(b, i);
      SlicesAt(b, n, i);
      TextStep(b[..i]);
      Assoc([Utf8.CodePoint(b)], Utf8.Decode(b[..i][n..]), Utf8.Decode(b[i..]));
    }
  }

  lemma AsciiIsBoundary(b: bytes, i: nat)
    requires Utf8.Valid(b) && i < |b| && b[i] < 0x80
    ensures Utf8.Valid(b[..i]) && Utf8.Valid(b[i + 1..])
    ensures Utf8.Decode(b) == Utf8.Decode(b[..i]) + [b[i]] + Utf8.Decode(b[i + 1..])
  {
    AsciiSplits(b, i);
    assert b[i..][1..] == b[i + 1..];
    assert Utf8.Decode(b[i..]) == [b[i]] + Utf8.Decode(b[i + 1..]);
    Assoc(Utf8.Decode(b[..i]), [b[i]], Utf8.Decode(b[i + 1..]));
  }

  lemma InsideIsTail(b: bytes, i: nat)
    requires Utf8.CharLength(b) > 0 && 0 < i < |b| && b[i] < 0x80
    ensures i >= Utf8.CharLength(b)
  {
  }

  lemma {:induction false} AsciiStaysAbsent(b: bytes, c: int)
    requires Utf8.Valid(b) && 0 <= c < 0x80 && c !in b
    ensures c !in Utf8.Decode(b)
  {
    if b != [] {
      AsciiStaysAbsent(b[Utf8.CharLength(b)..], c);
    }
  }

  function DecodeAll(parts: seq<bytes>): (texts: seq<seq<int>>)
    requires forall p | p in parts :: Utf8.Valid(p)
    ensures |texts| == |parts|
    ensures forall i :: 0 <= i < |parts| ==> texts[i] == Utf8.Decode(parts[i])
  {
    if parts == [] then [] else [Utf8.Decode(parts[0])] + DecodeAll(parts[1..])
  }

  /** Split of a byte string, typed as byte strings. */
  function SplitBytes(b: bytes, sep: int): (parts: seq<bytes>)
    ensures parts == Split(b, sep)
  {
    var i := IndexOf(b, sep);
    if i == |b| then [b] else [b[..i]] + SplitBytes(b[i + 1..], sep)
  }

  /** Where the separator first stands in the text of b. */
  lemma IndexInText(b: bytes, sep: int)
    requires Utf8.Valid(b) && 0 <= sep < 0x80
    ensures var i := IndexOf(b, sep); var text := Utf8.Decode(b);
            && Utf8.Valid(b[..i])
            && IndexOf(text, sep) == |Utf8.Decode(b[..i])|
            && text[..IndexOf(text, sep)] == Utf8.Decode(b[..i])
            && (i == |b| ==> IndexOf(text, sep) == |text|)
            && (i < |b| ==> Utf8.Valid(b[i + 1..]) && IndexOf(text, sep) < |text|
                            && text[IndexOf(text, sep) + 1..] == Utf8.Decode(b[i + 1..]))
  {
    hide Utf8.Decode, Utf8.Valid, IndexOf;
    var i, text := IndexOf(b, sep), Utf8.Decode(b);
    if i == |b| {
      assert b[..i] == b;
      AsciiStaysAbsent(b, sep);
      IndexOfIs(text, sep, |text|);
      assert text[..|text|] == text;
    } else {
      AsciiIsBoundary(b, i);
      var front := Utf8.Decode(b[..i]);
      AsciiStaysAbsent(b[..i], sep);
      assert text == front + [sep] + Utf8.Decode(b[i + 1..]);
      forall k | 0 <= k < |front| ensures text[k] != sep {
        assert text[k] == front[k];
        assert front[k] in front;
      }
      IndexOfIs(text, sep, |front|);
    }
  }

  /** Splitting at an ASCII separator and decoding commute. */
  lemma {:induction false} SplitThenDecode(b: bytes, sep: int)
    requires Utf8.Valid(b) && 0 <= sep < 0x80
    ensures forall p | p in SplitBytes(b, sep) :: Utf8.Valid(p)
    ensures Split(Utf8.Decode(b), sep) == DecodeAll(SplitBytes(b, sep))
    decreases |b|
  {
    hide Utf8.Decode, Utf8.Valid, IndexOf;
    var i, text := IndexOf(b, sep), Utf8.Decode(b);
    IndexInText(b, sep);
    if i == |b| {
      assert SplitBytes(b, sep) == [b];
      assert Split(text, sep) == [text];
    } else {
      var more := SplitBytes(b[i + 1..], sep);
      SplitThenDecode(b[i + 1..], sep);
      assert SplitBytes(b, sep) == [b[..i]] + more;
      assert Split(text, sep) == [Utf8.Decode(b[..i])] + DecodeAll(more);
    }
  }

  /** Text that is ASCII once upper-cased determines its bytes up to case, and back. */
  lemma {:induction false} UpperExact(b: bytes, u: seq<int>)
    requires Utf8.Valid(b) && forall c | c in u :: c < 0x80
    ensures UpperAll(Utf8.Decode(b)) == u <==> UpperAll(b) == u
  {
    hide Utf8.CodePoint;
    if b != [] {
      var n, text := Utf8.CharLength(b), Utf8.Decode(b);
      if u == [] {
      } else {
        assert forall c | c in u[1..] :: c in u;
        UpperExact(b[n..], u[1..]);
        assert u == [u[0]] + u[1..];
        assert text[1..] == Utf8.Decode(b[n..]);
        assert UpperAll(text) == [Upper(text[0])] + UpperAll(text[1..]);
        assert UpperAll(b) == [Upper(b[0])] + UpperAll(b[1..]);
        assert u[0] in u;
        if n > 1 {
          assert Upper(b[0]) >= 0x80 && Upper(text[0]) >= 0x80;
        }
      }
    }
  }

  lemma {:induction false} AsciiExact(b: bytes, t: seq<int>)
    requires Utf8.Valid(b) && forall c | c in t :: c < 0x80
    ensures Utf8.Decode(b) == t <==> b == t
  {
    if b != [] && t != [] {
      var n, text := Utf8.CharLength(b), Utf8.Decode(b);
      assert forall c | c in t[1..] :: c in t;
      AsciiExact(b[n..], t[1..]);
      assert t == [t[0]] + t[1..] && t[0] in t;
      assert text[1..] == Utf8.Decode(b[n..]);
      assert b == [b[0]] + b[1..];
    }
  }

  lemma {:induction false} LastExact(b: bytes, c: int)
    requires Utf8.Valid(b) && b != [] && 0 <= c < 0x80
    ensures Utf8.Decode(b) != []
    ensures Utf8.Decode(b)[|Utf8.Decode(b)| - 1] == c <==> b[|b| - 1] == c
  {
    var n := Utf8.CharLength(b);
    if n < |b| {
      LastExact(b[n..], c);
    } else {
      assert b[n..] == [];
    }
  }
}
