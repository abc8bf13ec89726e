/** The text the tap prints for a frame, and the script that reads captures back into bytes. */
module Hexdump {
  import opened Bytes
  import opened Frames
  import opened Taps

  const ROW := 16
  const INDENT: string := "      "

  // ---- printing ----

  function HexDigit(n: nat): (c: char)
    requires n < 16
    ensures IsHexDigit(c) && DigitValue(c) == n
  {
    if n < 10 then '0' + n as char else 'A' + (n - 10) as char
  }

  predicate IsHexDigit(c: char) {
    '0' <= c <= '9' || 'A' <= c <= 'F'
  }

  function DigitValue(c: char): (n: nat)
    requires IsHexDigit(c)
    ensures n < 16
  {
    if c <= '9' then c as int - '0' as int else c as int - 'A' as int + 10
  }

  /** %02X */
  function Pair(b: byte): (s: string)
    ensures |s| == 2
  {
    [HexDigit(b / 16), HexDigit(b % 16)]
  }

  /** %0nX of a number that fits. */
  function Hex(v: nat, n: nat): (s: string)
    ensures |s| == n && forall c | c in s :: IsHexDigit(c)
  {
    if n == 0 then "" else Hex(v / 16, n - 1) + [HexDigit(v % 16)]
  }

  function Cell(row: bytes, i: nat): string {
    if i < |row| then Pair(row[i]) + " " else "   "
  }

  /** The extra space in the middle of a row. */
  function Gap(i: nat): string {
    if i == 8 then " " else ""
  }

  function Concat(parts: seq<string>): string {
    if parts == [] then "" else parts[0] + Concat(parts[1..])
  }

  /** The sixteen cells of a row, with a gap after eight. */
  function CellTexts(row: bytes): (cells: seq<string>)
    ensures |cells| == ROW && forall i :: 0 <= i < ROW ==> cells[i] == Gap(i) + Cell(row, i)
  {
    seq(ROW, i requires 0 <= i < ROW => Gap(i) + Cell(row, i))
  }

  /** The hex column from cell i on. */
  function Cells(row: bytes, i: nat): string
    requires i <= ROW
  {
    Concat(CellTexts(row)[i..])
  }

  lemma CellsStep(row: bytes, i: nat)
    requires i <= ROW
    ensures Cells(row, i) == if i == ROW then "" else Gap(i) + (Cell(row, i) + Cells(row, i + 1))
  {
    var cells := CellTexts(row);
    if i < ROW {
      assert cells[i..][0] == Gap(i) + Cell(row, i) && cells[i..][1..] == cells[i + 1..];
      Assoc(Gap(i), Cell(row, i), Cells(row, i + 1));
    }
  }

  function Shown(b: byte): (c: char)
    ensures ' ' <= c <= '~'
  {
    if 0x20 <= b < 0x7F then b as char else '.'
  }

  function Text(row: bytes): (s: string)
    ensures |s| == |row|
  {
    seq(|row|, i requires 0 <= i < |row| => Shown(row[i]))
  }

  function Row(off: nat, row: bytes): string {
    INDENT + (Hex(off, 8) + ("  " + (Cells(row, 0) + (" |" + (Text(row) + "|")))))
  }

  function Rows(b: bytes, off: nat): seq<string>
    requires off <= |b|
    decreases |b| - off
  {
    if off == |b| then []
    else
      var end := Min(off + ROW, |b|);
      [Row(off, b[off..end])] + Rows(b, end)
  }

  /** % X */
  function Spaced(b: bytes): string {
    if b == [] then "" else if |b| == 1 then Pair(b[0]) else Pair(b[0]) + (" " + Spaced(b[1..]))
  }

  function Arrows(a: Arrow): string {
    match a
    case SentArrow => "-->"
    case ReceivedArrow => "<--"
  }

  /** %d */
  function Numeral(n: nat): (s: string)
    ensures |s| > 0 && forall c | c in s :: '0' <= c <= '9'
  {
    (if n < 10 then "" else Numeral(n / 10)) + ['0' + (n % 10) as char]
  }

  /** The first line of a frame; `caption` is the rest of it, behind two spaces. */
  function TitleLine(a: Arrow, number: nat, caption: string): string {
    Arrows(a) + (" frame " + (Numeral(number) + ("  " + caption)))
  }

  function HeaderLine(hdr: bytes): string {
    "    header   " + Spaced(hdr)
  }

  function PayloadLines(payload: bytes): seq<string> {
    if payload == [] then [] else ["    payload"] + Rows(payload, 0)
  }

  /** The lines of one frame. */
  function FrameLines(a: Arrow, number: nat, raw: bytes, caption: string): seq<string>
    requires IsFrame(raw)
  {
    [TitleLine(a, number, caption)] + ([HeaderLine(raw[..HEADER_SIZE])] + PayloadLines(raw[HEADER_SIZE..]))
  }

  const RAW_PREVIEW := 256

  /** What is shown of bytes that form no frame. */
  function Preview(piece: bytes): bytes {
    piece[..Min(RAW_PREVIEW, |piece|)]
  }

  function Reason(why: Why): string {
    match why
    case NotAFrame(length) => "not a valid frame (length field says " + (Numeral(length) + " bytes)")
    case AfterUnreadable => "bytes after an unreadable frame"
    case Incomplete => "incomplete frame at end of connection"
  }

  function RawTitle(a: Arrow, why: Why, size: nat): string {
    Arrows(a) + (" " + (Reason(why) + (" (" + (Numeral(size) + " bytes)"))))
  }

  function MoreLine(n: nat): string {
    INDENT + ("... " + (Numeral(n) + " more bytes not shown"))
  }

  /** The lines of bytes that form no frame, cut at the preview. */
  function RawLines(a: Arrow, why: Why, piece: bytes): seq<string> {
    var shown := Preview(piece);
    [RawTitle(a, why, |piece|)]
    + (Rows(shown, 0) + (if |shown| < |piece| then [MoreLine(|piece| - |shown|)] else []))
  }

  function EventLines(e: Event, caption: string): seq<string>
    requires e.FrameShown? ==> IsFrame(e.raw)
  {
    match e
    case FrameShown(a, number, raw) => FrameLines(a, number, raw, caption)
    case RawShown(a, why, piece) => RawLines(a, why, piece)
  }

  /** All the tap prints; the captions of frames are free text. */
  function LogLines(log: seq<Event>, caption: Event -> string): seq<string>
    requires WholeFrames(log)
  {
    if log == [] then [] else EventLines(log[0], caption(log[0])) + LogLines(log[1..], caption)
  }

  /** One cell, and the gap before it. */
  method WriteCell(before: string, row: bytes, i: nat) returns (hex: string)
    ensures hex == before + Gap(i) + Cell(row, i)
  {
    hex := before;
    if i == 8 {
      hex := hex + " ";
    }
    if i < |row| {
      hex := hex + (Pair(row[i]) + " ");
    } else {
      hex := hex + "   ";
    }
  }

  lemma CellAdded(before: string, row: bytes, i: nat)
    requires i < ROW
    ensures (before + Gap(i) + Cell(row, i)) + Cells(row, i + 1) == before + Cells(row, i)
  {
    var gap, cell, rest := Gap(i), Cell(row, i), Cells(row, i + 1);
    CellsStep(row, i);
    Assoc(before, gap, cell);
    Assoc(gap, cell, rest);
    Assoc(before, gap + cell, rest);
  }

  /** The hex column, cell by cell. */
  method WriteCells(row: bytes) returns (hex: string)
    ensures hex == Cells(row, 0)
  {
    hex := "";
    var i := 0;
    assert hex + Cells(row, 0) == Cells(row, 0);
    while i < ROW
      invariant 0 <= i <= ROW
      invariant hex + Cells(row, i) == Cells(row, 0)
    {
      CellAdded(hex, row, i);
      hex := WriteCell(hex, row, i);
      i := i + 1;
    }
    CellsStep(row, ROW);
    assert hex + "" == hex;
  }

  /** The text column, bytes outside the printable range shown as dots. */
  method WriteText(row: bytes) returns (s: string)
    ensures s == Text(row)
  {
    var text := new char[|row|](_ => '.');
    for i := 0 to |row|
      invariant forall k :: 0 <= k < i ==> text[k] == Shown(row[k])
      invariant forall k :: i <= k < |row| ==> text[k] == '.'
    {
      if 0x20 <= row[i] < 0x7F {
        text[i] := row[i] as char;
      }
    }
    s := text[..];
  }

  method WriteRow(off: nat, row: bytes) returns (line: string)
    ensures line == Row(off, row)
  {
    var hex := WriteCells(row);
    var text := WriteText(row);
    line := INDENT + (Hex(off, 8) + ("  " + (hex + (" |" + (text + "|")))));
  }

  method WriteRows(b: bytes) returns (lines: seq<string>)
    ensures lines == Rows(b, 0)
  {
    lines := [];
    var off := 0;
    while off < |b|
      invariant 0 <= off <= |b|
      invariant lines + Rows(b, off) == Rows(b, 0)
    {
      var end := Min(off + ROW, |b|);
      var line := WriteRow(off, b[off..end]);
      Assoc(lines, [line], Rows(b, end));
      lines := lines + [line];
      off := end;
    }
    assert lines + [] == lines;
  }

  // ---- reading back ----

  function Trimmed(s: string): string {
    if s != "" && s[0] == ' ' then Trimmed(s[1..]) else s
  }

  /** Pairs of hex digits, with spaces anywhere between them. */
  function FromHex(s: string): Option<bytes> {
    if s == "" then Some([])
    else if s[0] == ' ' then FromHex(s[1..])
    else if |s| >= 2 && IsHexDigit(s[0]) && IsHexDigit(s[1]) then
      var rest := FromHex(s[2..]);
      if rest.None? then None
      else
        var b: byte := DigitValue(s[0]) * 16 + DigitValue(s[1]);
        Some([b] + rest.value)
    else None
  }

  function UpToBar(s: string): string {
    if s == "" || s[0] == '|' then "" else [s[0]] + UpToBar(s[1..])
  }

  predicate StartsWith(s: string, prefix: string) {
    |s| >= |prefix| && s[..|prefix|] == prefix
  }

  predicate DigitChar(c: char) {
    '0' <= c <= '9'
  }

  function LeadingDigits(s: string): (d: string)
    ensures forall c | c in d :: DigitChar(c)
  {
    if s != "" && DigitChar(s[0]) then [s[0]] + LeadingDigits(s[1..]) else ""
  }

  /** The number a string of digits denotes. */
  function Number(s: string): nat
    requires forall c | c in s :: DigitChar(c)
  {
    if s == "" then 0
    else
      var last := s[|s| - 1];
      assert last in s && DigitChar(last);
      Number(s[..|s| - 1]) * 10 + (last as int - '0' as int)
  }

  /** What a line of a capture is to the reader. */
  datatype Line = Title(arrow: Arrow, number: nat) | Content(data: bytes) | Other

  function ReadTitle(line: string): Option<(Arrow, nat)> {
    if |line| > 10 && DigitChar(line[10]) && line[3..10] == " frame " then
      var number := Number(LeadingDigits(line[10..]));
      if StartsWith(line, "-->") then Some((SentArrow, number))
      else if StartsWith(line, "<--") then Some((ReceivedArrow, number))
      else None
    else None
  }

  function ReadHeader(line: string): Option<bytes> {
    var s := Trimmed(line);
    if s == line || !StartsWith(s, "header ") then None else FromHex(s[6..])
  }

  function ReadRow(line: string): Option<bytes> {
    var s := Trimmed(line);
    if s == line || |s| < 10 || !(forall i :: 0 <= i < 8 ==> IsHexDigit(s[i])) || s[8..10] != "  " then None
    else FromHex(UpToBar(s[10..]))
  }

  function Classify(line: string): Line {
    var title, header, row := ReadTitle(line), ReadHeader(line), ReadRow(line);
    if title.Some? then Title(title.value.0, title.value.1)
    else if header.Some? then Content(header.value)
    else if row.Some? then Content(row.value)
    else Other
  }

  /** The bytes collected up to the next title, and the lines from there. */
  function Collect(lines: seq<string>): (r: (bytes, seq<string>))
    ensures |r.1| <= |lines|
  {
    if lines == [] then ([], [])
    else
      var line := Classify(lines[0]);
      if line.Title? then ([], lines)
      else
        var more := Collect(lines[1..]);
        (if line.Content? then line.data + more.0 else more.0, more.1)
  }

  /** The frames the reader makes of a capture: direction, number and bytes. */
  function ReadBack(lines: seq<string>): seq<Event>
    decreases |lines|
  {
    if lines == [] then []
    else
      var line := Classify(lines[0]);
      if line.Title? then
        var body := Collect(lines[1..]);
        [FrameShown(line.arrow, line.number, body.0)] + ReadBack(body.1)
      else ReadBack(lines[1..])
  }

  // ---- what is printed reads back ----

  lemma PairReads(b: byte, s: string)
    ensures FromHex(Pair(b) + s) == if FromHex(s).None? then None else Some([b] + FromHex(s).value)
  {
    assert (Pair(b) + s)[2..] == s;
  }

  lemma SpaceReads(s: string)
    ensures FromHex(" " + s) == FromHex(s)
  {
    assert (" " + s)[1..] == s;
  }

  /** The bytes of a row from cell i on. */
  function FromCell(row: bytes, i: nat): bytes {
    if i <= |row| then row[i..] else []
  }

  /** The hex column from cell i on holds the bytes of the row from there. */
  lemma {:induction false} CellsRead(row: bytes, i: nat)
    requires i <= ROW && |row| <= ROW
    ensures FromHex(Cells(row, i)) == Some(FromCell(row, i))
    decreases ROW - i
  {
    CellsStep(row, i);
    if i < ROW {
      var rest := Cells(row, i + 1);
      CellsRead(row, i + 1);
      CellReads(row, i, rest);
      SpaceReads(Cell(row, i) + rest);
      assert "" + (Cell(row, i) + rest) == Cell(row, i) + rest;
    } else {
      assert FromCell(row, i) == [];
    }
  }

  lemma CellReads(row: bytes, i: nat, rest: string)
    requires FromHex(rest) == Some(FromCell(row, i + 1))
    ensures FromHex(Cell(row, i) + rest) == Some(FromCell(row, i))
  {
    if i < |row| {
      Assoc(Pair(row[i]), " ", rest);
      SpaceReads(rest);
      PairReads(row[i], " " + rest);
      assert row[i..] == [row[i]] + row[i + 1..];
    } else {
      SpaceReads(rest);
      SpaceReads(" " + rest);
      SpaceReads(" " + (" " + rest));
      assert Cell(row, i) + rest == " " + (" " + (" " + rest));
      assert FromCell(row, i) == FromCell(row, i + 1) == [];
    }
  }

  predicate NoBar(s: string) {
    forall c | c in s :: c != '|'
  }

  lemma {:induction false} CellsHaveNoBar(row: bytes, i: nat)
    requires i <= ROW
    ensures NoBar(Cells(row, i))
    decreases ROW - i
  {
    CellsStep(row, i);
    if i < ROW {
      CellsHaveNoBar(row, i + 1);
      assert NoBar(Cell(row, i)) && NoBar(Gap(i));
    }
  }

  /** The column ends at the first bar, whatever bars the text holds. */
  lemma {:induction false} BarEnds(s: string, t: string)
    requires NoBar(s)
    ensures UpToBar(s + (" |" + t)) == s + " "
  {
    if s == "" {
      assert " |" + t == [' ', '|'] + t;
      assert UpToBar("|" + t) == "";
      assert (" |" + t)[1..] == "|" + t;
      assert s + (" |" + t) == " |" + t;
    } else {
      assert s[0] in s && forall c | c in s[1..] :: c in s;
      BarEnds(s[1..], t);
      assert (s + (" |" + t))[1..] == s[1..] + (" |" + t);
      assert [s[0]] + (s[1..] + " ") == s + " ";
    }
  }

  lemma {:induction false} TrailingSpaceReads(s: string)
    ensures FromHex(s).Some? ==> FromHex(s + " ") == FromHex(s)
  {
    if s == "" {
      assert s + " " == " ";
    } else if s[0] == ' ' {
      TrailingSpaceReads(s[1..]);
      assert (s + " ")[1..] == s[1..] + " ";
    } else if |s| >= 2 {
      TrailingSpaceReads(s[2..]);
      assert (s + " ")[2..] == s[2..] + " ";
    }
  }

  lemma {:induction false} TrimIndent(n: nat, s: string)
    requires s != "" && s[0] != ' '
    ensures Trimmed(seq(n, _ => ' ') + s) == s
  {
    var pad := seq(n, _ => ' ');
    if n == 0 {
      assert pad + s == s;
    } else {
      TrimIndent(n - 1, s);
      assert (pad + s)[1..] == seq(n - 1, _ => ' ') + s;
    }
  }

  /** An indented line is neither a title nor, unless it says so, a header. */
  lemma IndentedIs(line: string, n: nat, s: string)
    requires n > 0 && s != "" && s[0] != ' ' && line == seq(n, _ => ' ') + s
    ensures Trimmed(line) == s && s != line && ReadTitle(line).None?
    ensures s[0] != 'h' ==> ReadHeader(line).None?
  {
    TrimIndent(n, s);
    assert line[0] == ' ';
    assert StartsWith(s, "header ") ==> s[0] == s[..7][0];
  }

  /** The parts of a row, whatever the offset and the text. */
  lemma RowParts(hex: string, cells: string, tail: string, line: string)
    requires |hex| == 8 && (forall c | c in hex :: IsHexDigit(c)) && NoBar(cells)
    requires line == INDENT + (hex + ("  " + (cells + (" |" + tail))))
    ensures ReadTitle(line).None? && ReadHeader(line).None? && ReadRow(line) == FromHex(cells + " ")
  {
    var s := hex + ("  " + (cells + (" |" + tail)));
    assert s[0] in hex;
    assert INDENT == seq(6, _ => ' ');
    IndentedIs(line, 6, s);
    forall i | 0 <= i < 8 ensures IsHexDigit(s[i]) {
      assert s[i] == hex[i] && hex[i] in hex;
    }
    Halves(hex, "  " + (cells + (" |" + tail)));
    assert s[8..10] == "  ";
    assert s[10..] == cells + (" |" + tail);
    BarEnds(cells, tail);
  }

  lemma RowReads(off: nat, row: bytes)
    requires |row| <= ROW
    ensures Classify(Row(off, row)) == Content(row)
  {
    var cells := Cells(row, 0);
    CellsHaveNoBar(row, 0);
    RowParts(Hex(off, 8), cells, Text(row) + "|", Row(off, row));
    CellsRead(row, 0);
    TrailingSpaceReads(cells);
  }

  lemma CollectContent(line: string, data: bytes, more: seq<string>)
    requires Classify(line) == Content(data)
    ensures Collect([line] + more) == (data + Collect(more).0, Collect(more).1)
  {
    Halves([line], more);
  }

  lemma RowThen(off: nat, row: bytes, more: seq<string>)
    requires |row| <= ROW
    ensures Collect([Row(off, row)] + more) == (row + Collect(more).0, Collect(more).1)
  {
    RowReads(off, row);
    CollectContent(Row(off, row), row, more);
  }

  lemma RowsCons(b: bytes, off: nat)
    requires off < |b|
    ensures var end := Min(off + ROW, |b|);
            && off < end <= |b|
            && Rows(b, off) == [Row(off, b[off..end])] + Rows(b, end)
            && b[off..] == b[off..end] + b[end..]
  {
  }

  lemma {:induction false} RowsRead(b: bytes, off: nat, more: seq<string>)
    requires off <= |b|
    ensures Collect(Rows(b, off) + more) == (b[off..] + Collect(more).0, Collect(more).1)
    decreases |b| - off
  {
    var rest := Collect(more);
    if off == |b| {
      assert Rows(b, off) + more == more && b[off..] + rest.0 == rest.0;
    } else {
      var end := Min(off + ROW, |b|);
      var row, lines := b[off..end], Rows(b, end);
      RowsCons(b, off);
      RowsRead(b, end, more);
      Assoc([Row(off, row)], lines, more);
      RowThen(off, row, lines + more);
      Assoc(row, b[end..], rest.0);
    }
  }

  lemma {:induction false} SpacedReads(b: bytes)
    ensures FromHex(Spaced(b)) == Some(b)
  {
    if b == [] {
    } else if |b| == 1 {
      PairReads(b[0], "");
      assert Pair(b[0]) + "" == Pair(b[0]) && [b[0]] + [] == b;
    } else {
      SpacedReads(b[1..]);
      SpaceReads(Spaced(b[1..]));
      PairReads(b[0], " " + Spaced(b[1..]));
      assert [b[0]] + b[1..] == b;
    }
  }

  /** A header line, after its indent. */
  lemma HeaderParts(text: string, line: string)
    requires line == seq(4, _ => ' ') + ("header " + text)
    ensures ReadTitle(line).None? && ReadHeader(line) == FromHex(text)
  {
    var s := "header " + text;
    assert s[0] == 'h';
    IndentedIs(line, 4, s);
    Halves("header ", text);
    assert s[6..] == " " + text;
    SpaceReads(text);
  }

  lemma HeaderReads(hdr: bytes)
    ensures Classify(HeaderLine(hdr)) == Content(hdr)
  {
    var text, line := Spaced(hdr), HeaderLine(hdr);
    var padded := " " + (" " + text);
    assert line == seq(4, _ => ' ') + ("header " + padded);
    HeaderParts(padded, line);
    SpaceReads(" " + text);
    SpaceReads(text);
    SpacedReads(hdr);
  }

  lemma CollectOther(line: string, more: seq<string>)
    requires Classify(line).Other?
    ensures Collect([line] + more) == Collect(more)
  {
    Halves([line], more);
  }

  lemma PayloadMarkIsOther()
    ensures Classify("    payload").Other?
  {
    var line, s := "    payload", "payload";
    assert s[0] == 'p';
    assert line == seq(4, _ => ' ') + s;
    IndentedIs(line, 4, s);
  }

  lemma PayloadReads(payload: bytes, more: seq<string>)
    ensures Collect(PayloadLines(payload) + more) == (payload + Collect(more).0, Collect(more).1)
  {
    if payload == [] {
      assert PayloadLines(payload) + more == more && payload + Collect(more).0 == Collect(more).0;
    } else {
      Assoc(["    payload"], Rows(payload, 0), more);
      PayloadMarkIsOther();
      CollectOther("    payload", Rows(payload, 0) + more);
      RowsRead(payload, 0, more);
      assert payload[0..] == payload;
    }
  }

  /** The lines below a title give the whole frame, header and payload. */
  lemma FrameReads(raw: bytes, more: seq<string>)
    requires IsFrame(raw)
    ensures var below := [HeaderLine(raw[..HEADER_SIZE])] + PayloadLines(raw[HEADER_SIZE..]);
            Collect(below + more) == (raw + Collect(more).0, Collect(more).1)
  {
    var hdr, payload := raw[..HEADER_SIZE], raw[HEADER_SIZE..];
    Assoc([HeaderLine(hdr)], PayloadLines(payload), more);
    HeaderReads(hdr);
    PayloadReads(payload, more);
    CollectContent(HeaderLine(hdr), hdr, PayloadLines(payload) + more);
    Assoc(hdr, payload, Collect(more).0);
    assert hdr + payload == raw;
  }

  lemma NumberSnoc(s: string, c: char)
    requires (forall x | x in s :: DigitChar(x)) && DigitChar(c)
    ensures forall x | x in s + [c] :: DigitChar(x)
    ensures Number(s + [c]) == Number(s) * 10 + (c as int - '0' as int)
  {
    assert (s + [c])[..|s|] == s;
  }

  lemma {:induction false} NumeralReads(n: nat)
    ensures Number(Numeral(n)) == n
  {
    var c := '0' + (n % 10) as char;
    var front := if n < 10 then "" else Numeral(n / 10);
    NumberSnoc(front, c);
    if n >= 10 {
      NumeralReads(n / 10);
    }
  }

  lemma {:induction false} DigitsEnd(d: string, rest: string)
    requires (forall c | c in d :: DigitChar(c)) && (rest == "" || !DigitChar(rest[0]))
    ensures LeadingDigits(d + rest) == d
  {
    if d == "" {
      assert d + rest == rest;
    } else {
      assert d[0] in d && forall c | c in d[1..] :: c in d;
      HeadAndTail(d, rest);
      DigitsEnd(d[1..], rest);
      assert [d[0]] + d[1..] == d;
    }
  }

  /** A title, told apart from everything in it but its digits. */
  lemma TitleParts(a: Arrow, digits: string, behind: string, line: string)
    requires digits != "" && (forall c | c in digits :: DigitChar(c)) && behind != "" && !DigitChar(behind[0])
    requires line == Arrows(a) + (" frame " + (digits + behind))
    ensures ReadTitle(line) == Some((a, Number(digits)))
  {
    hide Number, LeadingDigits;
    var rest := " frame " + (digits + behind);
    assert |Arrows(a)| == 3;
    Halves(Arrows(a), rest);
    Halves(" frame ", digits + behind);
    assert line[10..] == rest[7..];
    assert line[10] == digits[0] && digits[0] in digits;
    assert line[3..10] == " frame ";
    DigitsEnd(digits, behind);
  }

  lemma TitleReads(a: Arrow, number: nat, caption: string)
    ensures Classify(TitleLine(a, number, caption)) == Title(a, number)
  {
    hide Number, Numeral, ReadHeader, ReadRow, ReadTitle;
    var digits, behind := Numeral(number), "  " + caption;
    assert behind[0] == ' ';
    TitleParts(a, digits, behind, TitleLine(a, number, caption));
    NumeralReads(number);
  }

  /** A line that starts with an arrow is a title or nothing. */
  lemma RawTitleIsOther(a: Arrow, why: Why, size: nat)
    ensures Classify(RawTitle(a, why, size)).Other?
  {
    var line := RawTitle(a, why, size);
    assert |Arrows(a)| == 3;
    Halves(Arrows(a), line[3..]);
    assert line[0] == Arrows(a)[0] && line[0] != ' ';
    assert line[4] == Reason(why)[0];
    assert |line| > 10 ==> line[3..10][1] == line[4];
    assert " frame "[1] == 'f';
  }

  lemma MoreLineIsOther(n: nat)
    ensures Classify(MoreLine(n)).Other?
  {
    var s, line := "... " + (Numeral(n) + " more bytes not shown"), MoreLine(n);
    assert s[0] == '.';
    assert INDENT == seq(6, _ => ' ');
    IndentedIs(line, 6, s);
  }

  /** Rows between a line that means nothing and a note that means nothing. */
  lemma RowsBetween(title: string, shown: bytes, note: seq<string>, more: seq<string>)
    requires Classify(title).Other?
    requires note == [] || (|note| == 1 && Classify(note[0]).Other?)
    ensures Collect([title] + (Rows(shown, 0) + note) + more) == (shown + Collect(more).0, Collect(more).1)
  {
    var rows := Rows(shown, 0);
    Assoc([title], rows + note, more);
    Assoc(rows, note, more);
    CollectOther(title, rows + (note + more));
    RowsRead(shown, 0, note + more);
    assert shown[0..] == shown;
    if note == [] {
      assert note + more == more;
    } else {
      CollectOther(note[0], more);
      assert note == [note[0]];
    }
  }

  /** Bytes that form no frame are read as if they belonged to the frame before them. */
  lemma RawReads(a: Arrow, why: Why, piece: bytes, more: seq<string>)
    ensures Collect(RawLines(a, why, piece) + more) == (Preview(piece) + Collect(more).0, Collect(more).1)
  {
    hide Rows, Classify, Collect, Reason;
    var shown := Preview(piece);
    var title := RawTitle(a, why, |piece|);
    var note := if |shown| < |piece| then [MoreLine(|piece| - |shown|)] else [];
    RawTitleIsOther(a, why, |piece|);
    if |shown| < |piece| {
      MoreLineIsOther(|piece| - |shown|);
    }
    RowsBetween(title, shown, note, more);
  }

  // ---- a whole log ----

  /** The raw bytes shown before the next frame. */
  function Trailing(log: seq<Event>): bytes {
    if log == [] || log[0].FrameShown? then [] else Preview(log[0].piece) + Trailing(log[1..])
  }

  function FromFrame(log: seq<Event>): (rest: seq<Event>)
    ensures |rest| <= |log|
    ensures WholeFrames(log) ==> WholeFrames(rest)
  {
    if log == [] || log[0].FrameShown? then log
    else
      assert forall i :: 0 <= i < |log[1..]| ==> log[1..][i] == log[i + 1];
      FromFrame(log[1..])
  }

  /** What the reader makes of a log: each frame with the raw bytes shown behind it. */
  function AsRead(log: seq<Event>): seq<Event> {
    if log == [] then []
    else if log[0].RawShown? then AsRead(log[1..])
    else [log[0].(raw := log[0].raw + Trailing(log[1..]))] + AsRead(log[1..])
  }

  function FramesIn(log: seq<Event>): seq<Event> {
    if log == [] then [] else (if log[0].FrameShown? then [log[0]] else []) + FramesIn(log[1..])
  }

  lemma WholeTail(log: seq<Event>)
    requires WholeFrames(log) && log != []
    ensures WholeFrames(log[1..])
  {
    assert forall i :: 0 <= i < |log[1..]| ==> log[1..][i] == log[i + 1];
  }

  lemma {:induction false} LogCollects(log: seq<Event>, caption: Event -> string)
    requires WholeFrames(log)
    ensures Collect(LogLines(log, caption)) == (Trailing(log), LogLines(FromFrame(log), caption))
  {
    if log != [] {
      WholeTail(log);
      var e, more := log[0], LogLines(log[1..], caption);
      if e.FrameShown? {
        TitleReads(e.arrow, e.number, caption(e));
        assert LogLines(log, caption)[0] == TitleLine(e.arrow, e.number, caption(e));
      } else {
        LogCollects(log[1..], caption);
        RawReads(e.arrow, e.why, e.piece, more);
      }
    }
  }

  lemma {:induction false} AsReadFromFrame(log: seq<Event>)
    ensures AsRead(FromFrame(log)) == AsRead(log)
  {
    if log != [] && log[0].RawShown? {
      AsReadFromFrame(log[1..]);
    }
  }

  /** Lines without a title among them begin no frame. */
  lemma {:induction false} Untitled(lines: seq<string>, more: seq<string>)
    requires forall i :: 0 <= i < |lines| ==> !Classify(lines[i]).Title?
    ensures ReadBack(lines + more) == ReadBack(more)
  {
    if lines == [] {
      assert lines + more == more;
    } else {
      HeadAndTail(lines, more);
      Untitled(lines[1..], more);
    }
  }

  lemma {:induction false} RowsAreUntitled(b: bytes, off: nat)
    requires off <= |b|
    ensures forall i :: 0 <= i < |Rows(b, off)| ==> !Classify(Rows(b, off)[i]).Title?
    decreases |b| - off
  {
    if off < |b| {
      var end := Min(off + ROW, |b|);
      RowsCons(b, off);
      RowReads(off, b[off..end]);
      RowsAreUntitled(b, end);
    }
  }

  lemma RawIsUntitled(a: Arrow, why: Why, piece: bytes)
    ensures forall i :: 0 <= i < |RawLines(a, why, piece)| ==> !Classify(RawLines(a, why, piece)[i]).Title?
  {
    hide Classify, Rows, Reason, Numeral;
    var shown := Preview(piece);
    RawTitleIsOther(a, why, |piece|);
    RowsAreUntitled(shown, 0);
    if |shown| < |piece| {
      MoreLineIsOther(|piece| - |shown|);
    }
  }

  lemma BackOne(title: string, a: Arrow, number: nat, below: seq<string>, raw: bytes, more: seq<string>)
    requires Classify(title) == Title(a, number) && Collect(below) == (raw, more)
    ensures ReadBack([title] + below) == [FrameShown(a, number, raw)] + ReadBack(more)
  {
    Halves([title], below);
  }

  /** Exactly what the reader makes of any log the tap may have printed. */
  lemma {:induction false} LogIsRead(log: seq<Event>, caption: Event -> string)
    requires WholeFrames(log)
    ensures ReadBack(LogLines(log, caption)) == AsRead(log)
    decreases |log|
  {
    if log != [] {
      WholeTail(log);
      var e, rest := log[0], log[1..];
      var more := LogLines(rest, caption);
      if e.RawShown? {
        RawIsUntitled(e.arrow, e.why, e.piece);
        Untitled(EventLines(e, caption(e)), more);
        LogIsRead(rest, caption);
      } else {
        var title := TitleLine(e.arrow, e.number, caption(e));
        var below := [HeaderLine(e.raw[..HEADER_SIZE])] + PayloadLines(e.raw[HEADER_SIZE..]);
        TitleReads(e.arrow, e.number, caption(e));
        FrameReads(e.raw, more);
        LogCollects(rest, caption);
        Assoc([title], below, more);
        BackOne(title, e.arrow, e.number, below + more, e.raw + Trailing(rest), LogLines(FromFrame(rest), caption));
        LogIsRead(FromFrame(rest), caption);
        AsReadFromFrame(rest);
      }
    }
  }

  /** No bytes that form no frame are shown after a frame. */
  predicate NoRawAfterFrame(log: seq<Event>) {
    forall i, j :: 0 <= i < j < |log| && log[i].FrameShown? && log[j].RawShown? ==> log[j].piece == []
  }

  predicate NoRaw(log: seq<Event>) {
    forall j :: 0 <= j < |log| && log[j].RawShown? ==> log[j].piece == []
  }

  lemma NoRawStep(log: seq<Event>)
    requires log != []
    ensures NoRaw(log) <==> (log[0].RawShown? ==> log[0].piece == []) && NoRaw(log[1..])
    ensures NoRawAfterFrame(log) <==> (log[0].FrameShown? ==> NoRaw(log[1..])) && NoRawAfterFrame(log[1..])
  {
    assert forall i :: 1 <= i < |log| ==> log[1..][i - 1] == log[i];
    assert forall i :: 0 <= i < |log[1..]| ==> log[i + 1] == log[1..][i];
  }

  lemma {:induction false} NothingTrails(log: seq<Event>)
    ensures NoRaw(log) <==> Trailing(log) == [] && NoRawAfterFrame(log)
  {
    if log != [] {
      NoRawStep(log);
      NothingTrails(log[1..]);
    }
  }

  lemma {:induction false} CleanIffAsRead(log: seq<Event>)
    ensures AsRead(log) == FramesIn(log) <==> NoRawAfterFrame(log)
  {
    if log != [] {
      var e, rest := log[0], log[1..];
      NoRawStep(log);
      CleanIffAsRead(rest);
      if e.FrameShown? {
        NothingTrails(rest);
        var read := e.(raw := e.raw + Trailing(rest));
        assert Trailing(rest) == [] ==> e.raw + Trailing(rest) == e.raw;
        assert |read.raw| == |e.raw| + |Trailing(rest)|;
        assert AsRead(log)[0] == read && AsRead(log)[1..] == AsRead(rest);
        assert FramesIn(log)[0] == e && FramesIn(log)[1..] == FramesIn(rest);
      } else {
        assert [] + FramesIn(rest) == FramesIn(rest);
      }
    }
  }

  /**
   What a tap has printed reads back to exactly the frames it showed, with their directions, numbers
   and bytes, if and only if no unframed bytes were shown after a frame.
   */
  lemma TapReadsBack(t: Tap, caption: Event -> string)
    requires t.Valid()
    ensures ReadBack(LogLines(t.log, caption)) == FramesIn(t.log) <==> NoRawAfterFrame(t.log)
  {
    LogIsRead(t.log, caption);
    CleanIffAsRead(t.log);
  }

  /** Every capture of whole frames reads back to exactly those frames. */
  lemma CaptureReadsBack(fs: seq<Event>, caption: Event -> string)
    requires WholeFrames(fs) && forall i :: 0 <= i < |fs| ==> fs[i].FrameShown?
    ensures ReadBack(LogLines(fs, caption)) == fs
  {
    LogIsRead(fs, caption);
    CleanIffAsRead(fs);
    AllFrames(fs);
  }

  lemma {:induction false} AllFrames(fs: seq<Event>)
    requires forall i :: 0 <= i < |fs| ==> fs[i].FrameShown?
    ensures FramesIn(fs) == fs
  {
    if fs != [] {
      AllFrames(fs[1..]);
      assert [fs[0]] + fs[1..] == fs;
    }
  }

  lemma TwoItems(frame: Event, leftover: Event)
    requires frame.FrameShown? && leftover.RawShown?
    ensures AsRead([frame, leftover]) == [frame.(raw := frame.raw + Preview(leftover.piece))]
  {
    assert [frame, leftover][1..] == [leftover] && [leftover][1..] == [];
    assert Trailing([leftover]) == Preview(leftover.piece) + [] == Preview(leftover.piece);
    assert AsRead([leftover]) == [];
  }

  /** A frame and then leftovers: the reader takes the leftovers for the end of the frame. */
  lemma LeftoversAreMisread(a: Arrow, raw: bytes, piece: bytes, caption: Event -> string)
    requires IsFrame(raw)
    ensures var log := [FrameShown(a, 1, raw), RawShown(a, Incomplete, piece)];
            && WholeFrames(log)
            && ReadBack(LogLines(log, caption)) == [FrameShown(a, 1, raw + Preview(piece))]
  {
    LogIsRead([FrameShown(a, 1, raw), RawShown(a, Incomplete, piece)], caption);
    TwoItems(FrameShown(a, 1, raw), RawShown(a, Incomplete, piece));
  }
}
