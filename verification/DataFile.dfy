/** The data file of a table: an append-only byte sequence read line by line. */
module DataFile {
  import opened Common
  import opened RowCodec

  /** A row and the byte offset at which its line starts. */
  datatype Entry = Entry(offset: nat, row: Row)

  datatype Line = Eof | Line(text: string, next: nat)

  /** Where the line that contains `pos` ends: at its newline or at the end of the file. */
  function LineEnd(file: string, pos: nat): (end: nat)
    requires pos <= |file|
    ensures pos <= end <= |file|
    ensures end < |file| ==> file[end] == '\n'
    ensures forall i :: pos <= i < end ==> file[i] != '\n'
    decreases |file| - pos
  {
    if pos == |file| || file[pos] == '\n' then pos else LineEnd(file, pos + 1)
  }

  function StripCr(s: string): string {
    if s != [] && s[|s| - 1] == '\r' then s[..|s| - 1] else s
  }

  /** The line that starts at `pos`, without its newline and one carriage return before it. */
  function ReadLine(file: string, pos: nat): (line: Line)
    ensures line.Eof? <==> pos >= |file|
    ensures line.Line? ==> pos < line.next <= |file|
  {
    if pos >= |file| then Eof
    else
      var end := LineEnd(file, pos);
      Line(StripCr(file[pos..end]), if end < |file| then end + 1 else end)
  }

  method ReadLineAt(file: string, pos: nat) returns (line: Line)
    ensures line == ReadLine(file, pos)
  {
    var buffer: string := [];
    var i := pos;
    while i < |file| && file[i] != '\n'
      invariant i == pos + |buffer|
      invariant pos <= |file| ==> i <= |file| && buffer == file[pos..i] && LineEnd(file, pos) == LineEnd(file, i)
      invariant pos > |file| ==> i == pos
    {
      buffer := buffer + [file[i]];
      i := i + 1;
    }
    if i >= |file| && buffer == [] {
      return Eof;
    }
    if |buffer| > 0 && buffer[|buffer| - 1] == '\r' {
      buffer := buffer[..|buffer| - 1];
    }
    line := Line(buffer, if i < |file| then i + 1 else i);
  }

  /** The rows from `pos` to the end of the file, or nothing when one is malformed. */
  function Scan(file: string, pos: nat, count: nat): Option<seq<Entry>>
    decreases |file| - pos
  {
    match ReadLine(file, pos)
    case Eof => Some([])
    case Line(text, next) =>
      var row := ParseLine(text, count);
      if row == None then None else After([Entry(pos, row.value)], Scan(file, next, count))
  }

  /** The row whose line starts at the given offset. */
  function ReadRow(file: string, offset: nat, count: nat): Option<Row> {
    match ReadLine(file, offset)
    case Eof => None
    case Line(text, _) => ParseLine(text, count)
  }

  method ReadRowAt(file: string, offset: int, count: nat) returns (r: Option<Row>)
    ensures r == if offset < 0 then None else ReadRow(file, offset, count)
  {
    if offset < 0 {
      return None;
    }
    var line := ReadLineAt(file, offset);
    if line.Eof? {
      return None;
    }
    r := ParseLineIntoRow(line.text, count);
  }

  /** The file after a row has been written at its end. */
  function Append(file: string, row: Row): string
    requires row != []
  {
    file + Join(row) + ['\n']
  }

  /** Writes the row at the end and returns where it starts. */
  method AppendRow(file: string, row: Row) returns (written: string, offset: nat)
    requires row != []
    ensures offset == |file| && written == Append(file, row)
  {
    hide Escape, Join;
    offset := |file|;
    written := file;
    for i := 0 to |row|
      invariant i == 0 ==> written == file
      invariant i > 0 ==> written == file + Join(row[..i])
    {
      var escaped := EscapeField(row[i]);
      if i > 0 {
        written := written + ['|'];
        JoinSnoc(row[..i], row[i]);
      } else {
        JoinOne(row[0]);
        assert row[..1] == [row[0]];
      }
      assert row[..i + 1] == row[..i] + [row[i]];
      assert i > 0 ==> written + escaped == file + (Join(row[..i]) + ['|'] + escaped);
      written := written + escaped;
    }
    assert row[..|row|] == row;
    written := written + ['\n'];
  }

  lemma {:induction false} JoinSnoc(row: Row, field: string)
    requires row != []
    ensures Join(row + [field]) == Join(row) + ['|'] + Escape(field)
  {
    var longer := row + [field];
    assert longer[1..] == row[1..] + [field];
    if |row| > 1 {
      JoinSnoc(row[1..], field);
    }
  }

  // ----- Appending does not move what is there -----

  /** A file to which a row may be appended without running into an unfinished line. */
  predicate WellEnded(file: string) {
    file == [] || file[|file| - 1] == '\n'
  }

  lemma {:induction false} LineEndKept(file: string, tail: string, pos: nat)
    requires WellEnded(file) && pos < |file|
    ensures LineEnd(file + tail, pos) == LineEnd(file, pos) < |file|
    decreases |file| - pos
  {
    if file[pos] != '\n' {
      LineEndKept(file, tail, pos + 1);
    }
  }

  lemma ReadLineKept(file: string, tail: string, pos: nat)
    requires WellEnded(file) && pos < |file|
    ensures ReadLine(file + tail, pos) == ReadLine(file, pos)
  {
    LineEndKept(file, tail, pos);
    var end := LineEnd(file, pos);
    assert (file + tail)[pos..end] == file[pos..end];
  }

  /** Rows come first from the old part of the file and then from what was appended. */
  lemma {:induction false} ScanAppended(file: string, tail: string, pos: nat, count: nat)
    requires WellEnded(file) && pos <= |file|
    ensures Scan(file + tail, pos, count) == Then(Scan(file, pos, count), Scan(file + tail, |file|, count))
    decreases |file| - pos
  {
    hide ReadLine, ParseLine, Then, After;
    var rest := Scan(file + tail, |file|, count);
    if pos == |file| {
      ThenNothing(rest);
    } else {
      ReadLineKept(file, tail, pos);
      var line := ReadLine(file, pos);
      ScanAppended(file, tail, line.next, count);
      ThenNone(rest);
      if ParseLine(line.text, count).Some? {
        ThenAfter([Entry(pos, ParseLine(line.text, count).value)], Scan(file, line.next, count), rest);
      }
    }
  }

  lemma ThenNothing(rest: Option<seq<Entry>>)
    ensures Then(Some([]), rest) == rest
  {
    AfterNothing(rest);
  }

  lemma ThenNone(rest: Option<seq<Entry>>)
    ensures Then(None, rest) == None
  {
  }

  /** The row as it will be read: a carriage return at the very end of the line is taken for part of
      the line ending. */
  function DropCr(row: Row): (r: Row)
    requires row != []
    ensures |r| == |row|
  {
    row[|row| - 1 := StripCr(row[|row| - 1])]
  }

  lemma {:induction false} StripEscape(s: string)
    ensures StripCr(Escape(s)) == Escape(StripCr(s))
    ensures s != [] ==> Escape(s) != []
  {
    if s != [] {
      var front, last := s[..|s| - 1], s[|s| - 1];
      assert s == front + [last];
      EscapeConcat(front, [last]);
      assert Escape([last]) == EscapeChar(last) + [];
      if last == '\r' {
        assert (Escape(front) + ['\r'])[..|Escape(front)|] == Escape(front);
      }
    }
  }

  lemma StripConcat(a: string, b: string)
    requires b != []
    ensures StripCr(a + b) == a + StripCr(b)
  {
    if b[|b| - 1] == '\r' {
      assert (a + b)[..|a + b| - 1] == a + b[..|b| - 1];
    }
  }

  lemma DropCrCons(field: string, row: Row)
    requires row != []
    ensures DropCr([field] + row) == [field] + DropCr(row)
  {
  }

  lemma JoinCons(field: string, row: Row)
    requires row != []
    ensures Join([field] + row) == (Escape(field) + ['|']) + Join(row)
  {
    assert ([field] + row)[1..] == row;
  }

  lemma {:induction false} StripJoin(row: Row)
    requires row != []
    ensures StripCr(Join(row)) == Join(DropCr(row))
  {
    hide Escape, StripCr;
    if |row| == 1 {
      StripEscape(row[0]);
    } else {
      var a, rest := Escape(row[0]) + ['|'], row[1..];
      assert row == [row[0]] + rest;
      JoinCons(row[0], rest);
      DropCrCons(row[0], rest);
      JoinCons(row[0], DropCr(rest));
      StripJoin(rest);
      if Join(rest) == [] {
        EmptyStrips();
        assert a + [] == a;
        StripBar(Escape(row[0]));
      } else {
        StripConcat(a, Join(rest));
      }
    }
  }

  lemma EmptyStrips()
    ensures StripCr([]) == []
  {
  }

  lemma StripBar(s: string)
    ensures StripCr(s + ['|']) == s + ['|']
  {
  }

  /** A row that has just been appended is read back from its offset, up to that carriage return. */
  lemma AppendedLine(file: string, row: Row)
    requires row != []
    ensures ReadLine(Append(file, row), |file|) == Line(Join(DropCr(row)), |Append(file, row)|)
  {
    var after := Append(file, row);
    var line := Join(row);
    JoinOneLine(row);
    forall i | |file| <= i < |file| + |line|
      ensures after[i] != '\n'
    {
      assert after[i] == line[i - |file|];
    }
    assert after[|file| + |line|] == '\n';
    assert LineEnd(after, |file|) == |file| + |line|;
    assert after[|file|..|file| + |line|] == line;
    StripJoin(row);
  }

  lemma AppendedRow(file: string, row: Row)
    requires row != []
    ensures ReadRow(Append(file, row), |file|, |row|) == Some(DropCr(row))
    ensures Scan(Append(file, row), |file|, |row|) == Some([Entry(|file|, DropCr(row))])
  {
    hide ReadLine, Append, Join, DropCr;
    AppendedLine(file, row);
    SplitJoin(DropCr(row));
    assert Normalize(DropCr(row), |row|) == DropCr(row);
    assert Scan(Append(file, row), |Append(file, row)|, |row|) == Some([]);
    assert [Entry(|file|, DropCr(row))] + [] == [Entry(|file|, DropCr(row))];
  }

  /** A scan that is not empty starts with the line at its position. */
  lemma ScanFirst(file: string, pos: nat, count: nat)
    requires Scan(file, pos, count).Some? && Scan(file, pos, count).value != []
    ensures pos < |file|
    ensures var entries, next := Scan(file, pos, count).value, ReadLine(file, pos).next;
            && entries[0].offset == pos && ReadRow(file, pos, count) == Some(entries[0].row)
            && Scan(file, next, count) == Some(entries[1..])
  {
  }

  /** Every entry of a scan is read back from its own offset. */
  lemma {:induction false} EntryReads(file: string, pos: nat, count: nat, i: nat)
    requires Scan(file, pos, count).Some? && i < |Scan(file, pos, count).value|
    ensures var e := Scan(file, pos, count).value[i];
            pos <= e.offset < |file| && (i > 0 ==> pos < e.offset) && ReadRow(file, e.offset, count) == Some(e.row)
    decreases |file| - pos
  {
    hide Scan, ReadLine;
    ScanFirst(file, pos, count);
    if i > 0 {
      EntryReads(file, ReadLine(file, pos).next, count, i - 1);
    }
  }

  /** Offsets rise along a scan, so they are distinct. */
  lemma {:induction false} OffsetsRise(file: string, pos: nat, count: nat, i: nat, j: nat)
    requires Scan(file, pos, count).Some? && i < j < |Scan(file, pos, count).value|
    ensures Scan(file, pos, count).value[i].offset < Scan(file, pos, count).value[j].offset
    decreases |file| - pos
  {
    hide Scan, ReadLine;
    ScanFirst(file, pos, count);
    if i == 0 {
      EntryReads(file, pos, count, j);
    } else {
      OffsetsRise(file, ReadLine(file, pos).next, count, i - 1, j - 1);
    }
  }

  // ----- A file as lines -----

  /** Of a line that ends in `\r\n` exactly one carriage return is missing from what is read, whatever stands before it. */
  lemma ReadCrLf(before: string, line: string, after: string)
    requires '\n' !in line
    ensures ReadLine(before + line + "\r\n" + after, |before|) == Line(line, |before| + |line| + 2)
  {
    var file := before + line + "\r\n" + after;
    LineEndAt(file, |before|, |before| + |line| + 1);
    assert file[|before|..|before| + |line| + 1] == line + "\r";
  }

  /** Any other line is read as it is. */
  lemma ReadLf(before: string, line: string, after: string)
    requires '\n' !in line && (line == "" || line[|line| - 1] != '\r')
    ensures ReadLine(before + line + "\n" + after, |before|) == Line(line, |before| + |line| + 1)
  {
    hide LineEnd;
    ReadRawLine(before, line, after);
  }

  /** The same for a last line without a newline. */
  lemma ReadLast(before: string, line: string)
    requires '\n' !in line
    ensures ReadLine(before + (line + "\r"), |before|) == Line(line, |before| + |line| + 1)
    ensures line != "" && line[|line| - 1] != '\r' ==> ReadLine(before + line, |before|) == Line(line, |before| + |line|)
  {
    hide LineEnd;
    ReadRawLast(before, line + "\r");
    if line != "" {
      ReadRawLast(before, line);
    }
  }

  lemma ReadRawLast(before: string, line: string)
    requires '\n' !in line && line != ""
    ensures ReadLine(before + line, |before|) == Line(StripCr(line), |before| + |line|)
  {
    hide LineEnd;
    LineEndAt(before + line, |before|, |before| + |line|);
    assert (before + line)[|before|..|before| + |line|] == line;
  }

  lemma {:induction false} LineEndAt(file: string, pos: nat, end: nat)
    requires pos <= end <= |file| && (forall i :: pos <= i < end ==> file[i] != '\n')
    requires end == |file| || file[end] == '\n'
    ensures LineEnd(file, pos) == end
    decreases end - pos
  {
    if pos < end {
      LineEndAt(file, pos + 1, end);
    }
  }

  /** A file made of lines, the last of which may lack its newline. */
  function FileOfLines(lines: seq<string>, last: string): (file: string) {
    if lines == [] then last else lines[0] + "\n" + FileOfLines(lines[1..], last)
  }

  /** The texts of the lines; nothing after the last newline is no line. */
  function AllLines(lines: seq<string>, last: string): (all: seq<string>) {
    if last == "" then lines else lines + [last]
  }

  /** Where line i starts. */
  function StartOf(all: seq<string>, i: nat): (offset: nat)
    requires i <= |all|
    ensures i == 0 ==> offset == 0
  {
    if i == 0 then 0 else StartOf(all, i - 1) + |all[i - 1]| + 1
  }

  ghost predicate OneLineEach(all: seq<string>) {
    forall i :: 0 <= i < |all| ==> '\n' !in all[i]
  }

  /** Entry e is what line i gives. */
  ghost predicate EntryOf(all: seq<string>, count: nat, e: Entry, i: nat, start: nat)
    requires i < |all|
  {
    e.offset == start + StartOf(all, i) && ParseLine(StripCr(all[i]), count) == Some(e.row)
  }

  ghost predicate EntriesOf(all: seq<string>, count: nat, entries: seq<Entry>, start: nat) {
    |entries| == |all| && forall i :: 0 <= i < |all| ==> EntryOf(all, count, entries[i], i, start)
  }

  ghost predicate AllParse(all: seq<string>, count: nat) {
    forall i :: 0 <= i < |all| ==> ParseLine(StripCr(all[i]), count).Some?
  }

  lemma {:induction false} StartShift(line: string, rest: seq<string>, i: nat)
    requires i <= |rest|
    ensures StartOf([line] + rest, i + 1) == |line| + 1 + StartOf(rest, i)
  {
    if i > 0 {
      StartShift(line, rest, i - 1);
      assert ([line] + rest)[i] == rest[i - 1];
    }
  }

  lemma EntryShift(line: string, rest: seq<string>, count: nat, e: Entry, i: nat, start: nat)
    requires i < |rest| && EntryOf(rest, count, e, i, start + |line| + 1)
    ensures EntryOf([line] + rest, count, e, i + 1, start)
  {
    hide ParseLine, StripCr, StartOf;
    StartShift(line, rest, i);
    assert ([line] + rest)[i + 1] == rest[i];
  }

  lemma EntriesCons(line: string, rest: seq<string>, count: nat, e: Entry, entries: seq<Entry>, start: nat)
    requires EntriesOf(rest, count, entries, start + |line| + 1)
    requires EntryOf([line] + rest, count, e, 0, start)
    ensures EntriesOf([line] + rest, count, [e] + entries, start)
  {
    hide EntryOf;
    var all := [line] + rest;
    forall i | 0 <= i < |all| ensures EntryOf(all, count, ([e] + entries)[i], i, start) {
      if i > 0 {
        EntryShift(line, rest, count, entries[i - 1], i - 1, start);
      }
    }
  }

  lemma AllParseCons(line: string, rest: seq<string>, count: nat)
    ensures AllParse([line] + rest, count) <==> ParseLine(StripCr(line), count).Some? && AllParse(rest, count)
  {
    hide ParseLine, StripCr;
    var all := [line] + rest;
    if AllParse(all, count) {
      assert all[0] == line && forall i :: 0 <= i < |rest| ==> rest[i] == all[i + 1];
    }
    if ParseLine(StripCr(line), count).Some? && AllParse(rest, count) {
      assert forall i :: 0 < i < |all| ==> all[i] == rest[i - 1];
    }
  }

  /** Reading a file: a scan succeeds exactly when every line parses, and then gives one row per line, in order, with
      the offset at which the line starts. */
  lemma {:induction false} ScanLines(before: string, lines: seq<string>, last: string, count: nat)
    requires OneLineEach(AllLines(lines, last))
    ensures var all, r := AllLines(lines, last), Scan(before + FileOfLines(lines, last), |before|, count);
            && (r.Some? <==> AllParse(all, count))
            && (r.Some? ==> EntriesOf(all, count, r.value, |before|))
    decreases |lines|
  {
    hide ParseLine, StripCr, ReadLine, LineEnd;
    var file := before + FileOfLines(lines, last);
    if lines == [] {
      ScanLastLine(before, last, count);
    } else {
      var line := lines[0];
      var rest := FileOfLines(lines[1..], last);
      assert AllLines(lines, last) == [line] + AllLines(lines[1..], last) by { AllLinesCons(lines, last); }
      OneLineTail(line, AllLines(lines[1..], last));
      assert file == (before + line + "\n") + rest;
      ReadRawLine(before, line, rest);
      ScanLines(before + line + "\n", lines[1..], last, count);
      AllParseCons(line, AllLines(lines[1..], last), count);
      var r := Scan(file, |before|, count);
      var more := Scan(file, |before| + |line| + 1, count);
      if ParseLine(StripCr(line), count).Some? && more.Some? {
        EntriesCons(line, AllLines(lines[1..], last), count, Entry(|before|, ParseLine(StripCr(line), count).value), more.value, |before|);
      }
    }
  }

  lemma AllLinesCons(lines: seq<string>, last: string)
    requires lines != []
    ensures AllLines(lines, last) == [lines[0]] + AllLines(lines[1..], last)
  {
  }

  lemma OneLineTail(line: string, rest: seq<string>)
    requires OneLineEach([line] + rest)
    ensures '\n' !in line && OneLineEach(rest)
  {
    assert ([line] + rest)[0] == line && forall i :: 0 <= i < |rest| ==> rest[i] == ([line] + rest)[i + 1];
  }

  lemma ReadRawLine(before: string, line: string, after: string)
    requires '\n' !in line
    ensures ReadLine(before + line + "\n" + after, |before|) == Line(StripCr(line), |before| + |line| + 1)
  {
    var file := before + line + "\n" + after;
    LineEndAt(file, |before|, |before| + |line|);
    assert file[|before|..|before| + |line|] == line;
  }

  lemma ScanEnd(file: string, count: nat)
    ensures Scan(file, |file|, count) == Some([])
  {
  }

  lemma ScanLastLine(before: string, last: string, count: nat)
    requires OneLineEach(AllLines([], last))
    ensures var all, r := AllLines([], last), Scan(before + last, |before|, count);
            && (r.Some? <==> AllParse(all, count))
            && (r.Some? ==> EntriesOf(all, count, r.value, |before|))
  {
    hide ParseLine, StripCr, ReadLine;
    if last == "" {
      assert before + last == before;
      ScanEnd(before, count);
    } else {
      assert AllLines([], last) == [last] && [last][0] == last;
      ReadRawLast(before, last);
      ScanEnd(before + last, count);
      LastEntry(last, count, |before|);
    }
  }

  lemma LastEntry(last: string, count: nat, start: nat)
    ensures AllParse([last], count) <==> ParseLine(StripCr(last), count).Some?
    ensures ParseLine(StripCr(last), count).Some? ==>
      var e := Entry(start, ParseLine(StripCr(last), count).value);
      [e] + [] == [e] && EntriesOf([last], count, [e], start)
  {
    hide ParseLine, StripCr;
    assert [last][0] == last;
  }
}
