/** One row of a table as one line of its data file: fields separated by `|`, with backslash,
    `|` and newline escaped. */
module RowCodec {
  import opened Common

  type Row = seq<string>

  // ----- Escaping one field -----

  function EscapeChar(c: char): string {
    if c == '\\' then ['\\', '\\']
    else if c == '|' then ['\\', '|']
    else if c == '\n' then ['\\', 'n']
    else [c]
  }

  function Escape(s: string): string {
    if s == [] then [] else EscapeChar(s[0]) + Escape(s[1..])
  }

  /** The character that a backslash and c stand for. */
  function UnescapeChar(c: char): Option<char> {
    if c == '\\' then Some('\\')
    else if c == '|' then Some('|')
    else if c == 'n' then Some('\n')
    else None
  }

  function Unescape(s: string): Option<string> {
    if s == [] then Some([])
    else if s[0] != '\\' then After([s[0]], Unescape(s[1..]))
    else if |s| < 2 || UnescapeChar(s[1]) == None then None
    else After([UnescapeChar(s[1]).value], Unescape(s[2..]))
  }

  lemma UnescapeFirst(c: char, rest: string)
    ensures Unescape(EscapeChar(c) + rest) == After([c], Unescape(rest))
  {
    var s := EscapeChar(c) + rest;
    assert s[|EscapeChar(c)|..] == rest;
  }

  lemma {:induction false} UnescapeEscape(s: string)
    ensures Unescape(Escape(s)) == Some(s)
  {
    hide Unescape, EscapeChar;
    if s == [] {
      UnescapeNothing();
    } else {
      UnescapeEscape(s[1..]);
      UnescapeFirst(s[0], Escape(s[1..]));
      assert s == [s[0]] + s[1..];
    }
  }

  lemma UnescapeNothing()
    ensures Unescape([]) == Some([])
  {
  }

  lemma {:induction false} EscapeConcat(a: string, b: string)
    ensures Escape(a + b) == Escape(a) + Escape(b)
  {
    if a == [] {
      assert a + b == b;
    } else {
      assert (a + b)[1..] == a[1..] + b;
      EscapeConcat(a[1..], b);
    }
  }

  method EscapeField(value: string) returns (escaped: string)
    ensures escaped == Escape(value)
  {
    escaped := [];
    for i := 0 to |value|
      invariant escaped == Escape(value[..i])
    {
      assert value[..i + 1] == value[..i] + [value[i]];
      EscapeConcat(value[..i], [value[i]]);
      assert Escape([value[i]]) == EscapeChar(value[i]) + [];
      if value[i] == '\\' {
        escaped := escaped + ['\\', '\\'];
      } else if value[i] == '|' {
        escaped := escaped + ['\\', '|'];
      } else if value[i] == '\n' {
        escaped := escaped + ['\\', 'n'];
      } else {
        escaped := escaped + [value[i]];
      }
    }
    assert value[..|value|] == value;
  }

  /** What is known of the whole when `out` has been read and `rest` is to come. */
  function After<T>(out: seq<T>, rest: Option<seq<T>>): Option<seq<T>> {
    if rest == None then None else Some(out + rest.value)
  }

  lemma AfterNothing<T>(rest: Option<seq<T>>)
    ensures After([], rest) == rest
  {
    assert rest.Some? ==> [] + rest.value == rest.value;
  }

  lemma AfterOne<T>(out: seq<T>, x: T, rest: Option<seq<T>>)
    ensures After(out, After([x], rest)) == After(out + [x], rest)
  {
    assert rest.Some? ==> out + ([x] + rest.value) == (out + [x]) + rest.value;
  }

  /** Both parts, one after the other. */
  function Then<T>(first: Option<seq<T>>, rest: Option<seq<T>>): Option<seq<T>> {
    if first == None then None else After(first.value, rest)
  }

  lemma ThenAfter<T>(out: seq<T>, mid: Option<seq<T>>, rest: Option<seq<T>>)
    ensures Then(After(out, mid), rest) == After(out, Then(mid, rest))
  {
    assert mid.Some? && rest.Some? ==> (out + mid.value) + rest.value == out + (mid.value + rest.value);
  }

  method UnescapeField(value: string) returns (r: Option<string>)
    ensures r == Unescape(value)
  {
    var out: string := [];
    var i := 0;
    assert value[0..] == value;
    AfterNothing(Unescape(value));
    while i < |value|
      invariant i <= |value|
      invariant Unescape(value) == After(out, Unescape(value[i..]))
    {
      var c := value[i];
      if c == '\\' {
        if i + 1 >= |value| {
          return None;
        }
        i := i + 1;
        var next := value[i];
        assert value[i - 1..][1] == next && value[i - 1..][2..] == value[i + 1..];
        if next == '\\' {
          c := '\\';
        } else if next == '|' {
          c := '|';
        } else if next == 'n' {
          c := '\n';
        } else {
          return None;
        }
      } else {
        assert value[i..][1..] == value[i + 1..];
      }
      AfterOne(out, c, Unescape(value[i + 1..]));
      out := out + [c];
      i := i + 1;
    }
    assert value[i..] == [] && out + [] == out;
    r := Some(out);
  }

  // ----- Joining and splitting a row -----

  /** The line that a row is written as, without its newline. */
  function Join(row: Row): string
    requires row != []
  {
    if |row| == 1 then Escape(row[0]) else Escape(row[0]) + ['|'] + Join(row[1..])
  }

  /** Splitting what is left of a line, with the raw text of the current field so far and whether
      it ends in an unfinished escape. */
  function SplitFrom(raw: string, pending: bool, rest: string): (fields: Option<Row>)
    ensures fields.Some? ==> fields.value != []
    decreases |rest|
  {
    if rest == [] then
      if pending || Unescape(raw) == None then None else Some([Unescape(raw).value])
    else if pending then SplitFrom(raw + [rest[0]], false, rest[1..])
    else if rest[0] == '\\' then SplitFrom(raw + [rest[0]], true, rest[1..])
    else if rest[0] == '|' then
      var more := SplitFrom([], false, rest[1..]);
      if Unescape(raw) == None then None else After([Unescape(raw).value], more)
    else SplitFrom(raw + [rest[0]], false, rest[1..])
  }

  function Split(line: string): Option<Row> {
    SplitFrom([], false, line)
  }

  method SplitEscapedRow(line: string) returns (r: Option<Row>)
    ensures r == Split(line)
  {
    var fields: Row := [];
    var raw: string, pending := [], false;
    assert line[0..] == line;
    AfterNothing(Split(line));
    for i := 0 to |line|
      invariant Split(line) == After(fields, SplitFrom(raw, pending, line[i..]))
    {
      assert line[i..][1..] == line[i + 1..];
      var c := line[i];
      if pending {
        raw, pending := raw + [c], false;
      } else if c == '\\' {
        raw, pending := raw + [c], true;
      } else if c == '|' {
        var field := UnescapeField(raw);
        if field == None {
          return None;
        }
        AfterOne(fields, field.value, SplitFrom([], false, line[i + 1..]));
        fields, raw := fields + [field.value], [];
      } else {
        raw := raw + [c];
      }
    }
    assert line[|line|..] == [];
    if pending {
      return None;
    }
    var field := UnescapeField(raw);
    if field == None {
      return None;
    }
    r := Some(fields + [field.value]);
  }

  lemma SplitPlainChar(raw: string, c: char, rest: string)
    requires c != '\\' && c != '|'
    ensures SplitFrom(raw, false, [c] + rest) == SplitFrom(raw + [c], false, rest)
  {
    assert ([c] + rest)[1..] == rest;
  }

  lemma SplitEscapedChar(raw: string, c: char, rest: string)
    ensures SplitFrom(raw, false, ['\\', c] + rest) == SplitFrom(raw + ['\\', c], false, rest)
  {
    assert (['\\', c] + rest)[1..] == [c] + rest;
    assert ([c] + rest)[1..] == rest;
    assert raw + ['\\'] + [c] == raw + ['\\', c];
  }

  lemma SplitAtPipe(raw: string, rest: string)
    ensures SplitFrom(raw, false, ['|'] + rest) ==
      var more := SplitFrom([], false, rest);
      if Unescape(raw) == None then None else After([Unescape(raw).value], more)
  {
    assert (['|'] + rest)[1..] == rest;
  }

  lemma SplitPastChar(raw: string, c: char, rest: string)
    ensures SplitFrom(raw, false, EscapeChar(c) + rest) == SplitFrom(raw + EscapeChar(c), false, rest)
  {
    hide SplitFrom;
    var e := EscapeChar(c);
    if |e| == 2 {
      SplitEscapedChar(raw, e[1], rest);
    } else {
      SplitPlainChar(raw, c, rest);
    }
  }

  /** Scanning over an escaped field leaves it in the raw text as it is. */
  lemma {:induction false} SplitPastField(raw: string, field: string, rest: string)
    ensures SplitFrom(raw, false, Escape(field) + rest) == SplitFrom(raw + Escape(field), false, rest)
    decreases |field|
  {
    hide SplitFrom, EscapeChar;
    if field == [] {
      assert Escape(field) + rest == rest && raw + Escape(field) == raw;
    } else {
      var e, more := EscapeChar(field[0]), Escape(field[1..]);
      SplitPastChar(raw, field[0], more + rest);
      SplitPastField(raw + e, field[1..], rest);
      assert Escape(field) + rest == e + (more + rest) && raw + e + more == raw + Escape(field);
    }
  }

  lemma SplitLastField(field: string)
    ensures SplitFrom(Escape(field), false, []) == Some([field])
  {
    UnescapeEscape(field);
  }

  /** Reading a written row gives the row back. */
  lemma {:induction false} SplitJoin(row: Row)
    requires row != []
    ensures Split(Join(row)) == Some(row)
  {
    hide SplitFrom, Unescape, Escape;
    var first := Escape(row[0]);
    assert [] + first == first;
    if |row| == 1 {
      SplitPastField([], row[0], []);
      SplitLastField(row[0]);
      assert first + [] == first;
      assert row == [row[0]];
    } else {
      var rest := ['|'] + Join(row[1..]);
      SplitPastField([], row[0], rest);
      assert Join(row) == first + rest;
      SplitAtPipe(first, Join(row[1..]));
      UnescapeEscape(row[0]);
      SplitJoin(row[1..]);
      assert row == [row[0]] + row[1..];
    }
  }

  // ----- And back: a line that is accepted is the line that would be written -----

  /** The raw text ends in an unfinished escape. */
  predicate Unfinished(raw: string) {
    if raw == [] then false
    else if raw[0] == '\\' then |raw| == 1 || Unfinished(raw[2..])
    else Unfinished(raw[1..])
  }

  /** Every `|` of the raw text is escaped. */
  predicate NoBarePipe(raw: string) {
    if raw == [] then true
    else if raw[0] == '\\' then |raw| == 1 || NoBarePipe(raw[2..])
    else raw[0] != '|' && NoBarePipe(raw[1..])
  }

  lemma {:induction false} RawAppend(raw: string, c: char)
    ensures Unfinished(raw + [c]) == (!Unfinished(raw) && c == '\\')
    ensures NoBarePipe(raw + [c]) == (NoBarePipe(raw) && (c != '|' || Unfinished(raw)))
  {
    if raw == [] {
    } else if raw[0] != '\\' {
      assert (raw + [c])[1..] == raw[1..] + [c];
      RawAppend(raw[1..], c);
    } else if |raw| >= 2 {
      assert (raw + [c])[2..] == raw[2..] + [c];
      RawAppend(raw[2..], c);
    }
  }

  lemma {:induction false} EscapeUnescape(raw: string)
    requires NoBarePipe(raw) && '\n' !in raw && Unescape(raw).Some?
    ensures Escape(Unescape(raw).value) == raw
  {
    if raw != [] {
      var k := if raw[0] == '\\' then 2 else 1;
      assert raw == raw[..k] + raw[k..];
      EscapeUnescape(raw[k..]);
      var f := Unescape(raw).value;
      assert f[1..] == Unescape(raw[k..]).value;
      assert EscapeChar(f[0]) == raw[..k];
    }
  }

  /** One character further in the split. */
  lemma SplitStep(raw: string, pending: bool, rest: string)
    requires rest != []
    ensures SplitFrom(raw, pending, rest) ==
            if !pending && rest[0] == '|' then
              if Unescape(raw) == None then None else After([Unescape(raw).value], SplitFrom([], false, rest[1..]))
            else SplitFrom(raw + [rest[0]], !pending && rest[0] == '\\', rest[1..])
  {
    hide Unescape;
  }

  lemma SplitEnd(raw: string, pending: bool)
    ensures SplitFrom(raw, pending, []) == if pending || Unescape(raw) == None then None else Some([Unescape(raw).value])
  {
    hide Unescape;
  }

  lemma JoinFirst(field: string, fields: Row)
    requires fields != []
    ensures Join([field] + fields) == Escape(field) + ['|'] + Join(fields)
  {
    assert ([field] + fields)[1..] == fields;
  }

  /** A bare pipe ends the field. */
  lemma JoinBar(raw: string, rest: string)
    requires NoBarePipe(raw) && '\n' !in raw && SplitFrom(raw, false, ['|'] + rest).Some?
    ensures SplitFrom([], false, rest).Some?
    ensures Join(SplitFrom([], false, rest).value) == rest ==>
      Join(SplitFrom(raw, false, ['|'] + rest).value) == raw + (['|'] + rest)
  {
    hide Unescape, Escape, NoBarePipe, SplitFrom, Join;
    assert (['|'] + rest)[1..] == rest;
    SplitStep(raw, false, ['|'] + rest);
    EscapeUnescape(raw);
    JoinFirst(Unescape(raw).value, SplitFrom([], false, rest).value);
    assert raw + ['|'] + rest == raw + (['|'] + rest);
  }

  lemma JoinLast(raw: string, pending: bool)
    requires NoBarePipe(raw) && '\n' !in raw && SplitFrom(raw, pending, []).Some?
    ensures Join(SplitFrom(raw, pending, []).value) == raw
  {
    hide Unescape, Escape, NoBarePipe, SplitFrom;
    SplitEnd(raw, pending);
    EscapeUnescape(raw);
  }

  lemma {:induction false} JoinSplitFrom(raw: string, pending: bool, rest: string)
    requires pending == Unfinished(raw) && NoBarePipe(raw) && '\n' !in raw && '\n' !in rest
    requires SplitFrom(raw, pending, rest).Some?
    ensures Join(SplitFrom(raw, pending, rest).value) == raw + rest
    decreases |rest|
  {
    hide Unescape, Escape, Unfinished, NoBarePipe, SplitFrom, Join;
    if rest == [] {
      JoinLast(raw, pending);
      assert raw + rest == raw;
    } else {
      var c := rest[0];
      assert rest == [c] + rest[1..];
      if !pending && c == '|' {
        EmptyRaw();
        JoinBar(raw, rest[1..]);
        JoinSplitFrom([], false, rest[1..]);
        assert [] + rest[1..] == rest[1..];
      } else {
        RawAppend(raw, c);
        SplitStep(raw, pending, rest);
        JoinSplitFrom(raw + [c], !pending && c == '\\', rest[1..]);
        assert raw + [c] + rest[1..] == raw + rest;
      }
    }
  }

  lemma EmptyRaw()
    ensures NoBarePipe([]) && !Unfinished([])
  {
  }

  lemma {:induction false} EscapeOneLine(s: string)
    ensures '\n' !in Escape(s)
  {
    if s != [] {
      EscapeOneLine(s[1..]);
    }
  }

  lemma {:induction false} JoinOneLine(row: Row)
    requires row != []
    ensures '\n' !in Join(row)
  {
    EscapeOneLine(row[0]);
    if |row| > 1 {
      JoinOneLine(row[1..]);
    }
  }

  /** Writing the fields read from a line reproduces it byte for byte exactly when the line has no
      newline in it. */
  lemma JoinSplit(line: string)
    requires Split(line).Some?
    ensures Join(Split(line).value) == line <==> '\n' !in line
  {
    JoinOneLine(Split(line).value);
    if '\n' !in line {
      JoinSplitFrom([], false, line);
      assert [] + line == line;
    }
  }

  /** The lines that split are exactly the written rows, each into the row that was written. */
  lemma SplitExact(line: string, row: Row)
    requires '\n' !in line
    ensures Split(line) == Some(row) <==> row != [] && Join(row) == line
  {
    hide Split, Join;
    if Split(line) == Some(row) {
      SplitNotEmpty(line);
      JoinSplit(line);
    }
    if row != [] && Join(row) == line {
      SplitJoin(row);
    }
  }

  lemma SplitNotEmpty(line: string)
    ensures Split(line).Some? ==> Split(line).value != []
  {
  }

  /** The file format: fields with a pipe between them; a backslash, a pipe and a newline inside a field are written
      with a backslash, everything else as it is. */
  lemma Format(c: char, rest: string, field: string, row: Row)
    requires row != []
    ensures Escape("") == "" && Escape([c] + rest) == Escape([c]) + Escape(rest)
    ensures Escape("\\") == "\\\\" && Escape("|") == "\\|" && Escape("\n") == "\\n"
    ensures c !in "\\|\n" ==> Escape([c]) == [c]
    ensures Join([field]) == Escape(field) && Join([field] + row) == Escape(field) + "|" + Join(row)
  {
    EscapeConcat([c], rest);
    JoinFirst(field, row);
    assert [c][1..] == "" && "\\"[1..] == "" && "|"[1..] == "" && "\n"[1..] == "";
  }

  // ----- Fitting a row to the schema -----

  function Normalize(fields: Row, count: nat): (row: Row)
    ensures |row| == count
    ensures forall i :: 0 <= i < count ==> row[i] == if i < |fields| then fields[i] else ""
  {
    if |fields| >= count then fields[..count] else fields + seq(count - |fields|, _ => "")
  }

  method NormalizeFieldCount(fields: Row, expected: nat) returns (row: Row)
    ensures row == Normalize(fields, expected)
  {
    if |fields| == expected {
      return fields;
    }
    if |fields| > expected {
      return fields[..expected];
    }
    row := fields;
    for i := |fields| to expected
      invariant |row| == i && forall j :: 0 <= j < i ==> row[j] == if j < |fields| then fields[j] else ""
    {
      row := row + [""];
    }
  }

  /** The row that a line stands for in a table with `count` columns, if it is well formed. */
  function ParseLine(line: string, count: nat): (row: Option<Row>)
    ensures row.Some? ==> |row.value| == count
  {
    if Split(line) == None then None else Some(Normalize(Split(line).value, count))
  }

  method ParseLineIntoRow(line: string, count: nat) returns (r: Option<Row>)
    ensures r == ParseLine(line, count)
  {
    var fields := SplitEscapedRow(line);
    if fields == None {
      return None;
    }
    var row := NormalizeFieldCount(fields.value, count);
    r := Some(row);
  }

  /** In every pair of a backslash and the character after it, that character is a backslash, a pipe or an `n`. */
  predicate WellEscaped(line: string)
    decreases |line|
  {
    if line == "" then true
    else if line[0] != '\\' then WellEscaped(line[1..])
    else |line| >= 2 && (line[1] == '\\' || line[1] == '|' || line[1] == 'n') && WellEscaped(line[2..])
  }

  lemma CharWell(c: char, more: string)
    requires WellEscaped(more)
    ensures WellEscaped(EscapeChar(c) + more)
  {
    var e := EscapeChar(c);
    assert (e + more)[|e|..] == more;
  }

  lemma {:induction false} EscapeWell(field: string, rest: string)
    requires WellEscaped(rest)
    ensures WellEscaped(Escape(field) + rest)
    decreases |field|
  {
    hide EscapeChar, WellEscaped;
    if field == "" {
      assert Escape(field) + rest == rest;
    } else {
      EscapeWell(field[1..], rest);
      var more := Escape(field[1..]) + rest;
      CharWell(field[0], more);
      assert Escape(field) + rest == EscapeChar(field[0]) + more;
    }
  }

  lemma {:induction false} JoinWell(row: Row)
    requires row != []
    ensures WellEscaped(Join(row))
  {
    hide Escape;
    if |row| == 1 {
      EscapeWell(row[0], "");
      assert Escape(row[0]) + "" == Escape(row[0]);
    } else {
      JoinWell(row[1..]);
      var more := ['|'] + Join(row[1..]);
      assert more[1..] == Join(row[1..]);
      EscapeWell(row[0], more);
      assert Join(row) == Escape(row[0]) + more;
    }
  }

  lemma EscapeGrown(c: char, field: string)
    ensures Escape([c] + field) == EscapeChar(c) + Escape(field)
  {
    hide EscapeChar;
    assert ([c] + field)[1..] == field;
  }

  /** A row with one character more at its front. */
  lemma JoinGrown(c: char, row: Row)
    requires row != []
    ensures Join([[c] + row[0]] + row[1..]) == EscapeChar(c) + Join(row)
  {
    hide EscapeChar, Escape, Join;
    var first := [c] + row[0];
    EscapeGrown(c, row[0]);
    if |row| == 1 {
      assert [first] + row[1..] == [first] && row == [row[0]];
      JoinOne(first);
      JoinOne(row[0]);
    } else {
      JoinFirst(first, row[1..]);
      JoinFirst(row[0], row[1..]);
      assert row == [row[0]] + row[1..];
      Regroup(EscapeChar(c), Escape(row[0]), ['|'], Join(row[1..]));
    }
  }

  lemma JoinOne(field: string)
    ensures Join([field]) == Escape(field)
  {
  }

  lemma Regroup(a: string, b: string, c: string, d: string)
    ensures a + b + c + d == a + (b + c + d)
  {
  }

  lemma {:induction false} WellEscapedRow(line: string) returns (row: Row)
    requires WellEscaped(line) && '\n' !in line
    ensures row != [] && Join(row) == line
    decreases |line|
  {
    hide Join;
    if line == "" {
      row := [""];
      JoinOne("");
    } else if line[0] == '|' {
      var more := WellEscapedRow(line[1..]);
      row := [""] + more;
      JoinFirst("", more);
      assert line == Escape("") + ['|'] + line[1..];
    } else {
      var k := if line[0] == '\\' then 2 else 1;
      var c := if k == 2 then UnescapeChar(line[1]).value else line[0];
      var more := WellEscapedRow(line[k..]);
      row := [[c] + more[0]] + more[1..];
      JoinGrown(c, more);
      assert EscapeChar(c) == line[..k] && line == line[..k] + line[k..];
    }
  }

  /** The row has `count` fields: those given as far as they go, then empty ones. */
  ghost predicate Fitted(fields: Row, row: Row, count: nat) {
    |row| == count && forall i :: 0 <= i < count ==> row[i] == if i < |fields| then fields[i] else ""
  }

  /** A line can be read exactly when it is well escaped; it then stands for the fields that are written as that line, cut
      off or filled up to the number of columns. */
  lemma ParseExact(line: string, count: nat, row: Row)
    requires '\n' !in line
    ensures ParseLine(line, count).Some? <==> WellEscaped(line)
    ensures ParseLine(line, count) == Some(row) <==>
      exists fields: Row :: fields != [] && Join(fields) == line && Fitted(fields, row, count)
  {
    hide Split, Join, Normalize, WellEscaped;
    if Split(line).Some? {
      var fields := Split(line).value;
      SplitExact(line, fields);
      JoinWell(fields);
      assert Fitted(fields, row, count) <==> row == Normalize(fields, count);
    }
    forall fields: Row | fields != [] && Join(fields) == line ensures Split(line) == Some(fields) {
      SplitExact(line, fields);
    }
    if WellEscaped(line) {
      var fields := WellEscapedRow(line);
    }
  }
}
