/** JSON strings: the writer of src/json_writer.c and the string reader of src/json_parser.c. */
module Json {
  import opened Common

  const NUL: char := 0 as char
  const NEWLINE: char := 10 as char
  const RETURN: char := 13 as char
  const TAB: char := 9 as char
  const QUOTE: char := '"'
  const BACKSLASH: char := '\\'

  // ---- The writer's output ----

  function HexDigit(n: nat): (c: char)
    requires n < 16
  {
    "0123456789abcdef"[n]
  }

  function EscapeChar(c: char): (s: string) {
    if c == QUOTE then [BACKSLASH, QUOTE]
    else if c == BACKSLASH then [BACKSLASH, BACKSLASH]
    else if c == NEWLINE then [BACKSLASH, 'n']
    else if c == RETURN then [BACKSLASH, 'r']
    else if c == TAB then [BACKSLASH, 't']
    else if c < 32 as char then [BACKSLASH, 'u', '0', '0', HexDigit(c as int / 16), HexDigit(c as int % 16)]
    else [c]
  }

  function EscapeBody(text: string): (s: string) {
    if text == "" then "" else EscapeChar(text[0]) + EscapeBody(text[1..])
  }

  function QuoteText(text: string): (s: string) {
    [QUOTE] + EscapeBody(text) + [QUOTE]
  }

  // ---- Strings as section 7 of RFC 8259 defines them ----

  function HexValue(c: char): (r: Option<nat>) {
    if '0' <= c <= '9' then Some(c as int - '0' as int)
    else if 'a' <= c <= 'f' then Some(c as int - 'a' as int + 10)
    else if 'A' <= c <= 'F' then Some(c as int - 'A' as int + 10)
    else None
  }

  /** The two-character escapes. */
  function SimpleEscape(c: char): (r: Option<nat>) {
    match c
    case '"' => Some(0x22)
    case '\\' => Some(0x5C)
    case '/' => Some(0x2F)
    case 'b' => Some(0x08)
    case 'f' => Some(0x0C)
    case 'n' => Some(0x0A)
    case 'r' => Some(0x0D)
    case 't' => Some(0x09)
    case _ => None
  }

  function UnicodeEscape(s: string): (r: Option<nat>)
    requires |s| == 4
  {
    var a, b, c, d := HexValue(s[0]), HexValue(s[1]), HexValue(s[2]), HexValue(s[3]);
    if a.None? || b.None? || c.None? || d.None? then None
    else Some(((a.value * 16 + b.value) * 16 + c.value) * 16 + d.value)
  }

  function ConsCode(n: Option<nat>, r: Option<seq<nat>>): (q: Option<seq<nat>>) {
    if n.None? || r.None? then None else Some([n.value] + r.value)
  }

  /** The characters between the quotes, as code values; `None` if they do not match the grammar. */
  function RfcBody(s: string): (r: Option<seq<nat>>)
    decreases |s|
  {
    if s == "" then Some([])
    else if s[0] == BACKSLASH then
      if |s| < 2 then None
      else if s[1] != 'u' then ConsCode(SimpleEscape(s[1]), RfcBody(s[2..]))
      else if |s| < 6 then None
      else ConsCode(UnicodeEscape(s[2..6]), RfcBody(s[6..]))
    else if s[0] == QUOTE || s[0] < 32 as char then None
    else ConsCode(Some(s[0] as int), RfcBody(s[1..]))
  }

  function RfcString(s: string): (r: Option<seq<nat>>) {
    if |s| >= 2 && s[0] == QUOTE && s[|s| - 1] == QUOTE then RfcBody(s[1..|s| - 1]) else None
  }

  function Codes(text: string): (r: seq<nat>) {
    if text == "" then [] else [text[0] as int] + Codes(text[1..])
  }

  // ---- What the writer writes is valid and means the text ----

  lemma HexDigitValue(n: nat)
    requires n < 16
    ensures HexValue(HexDigit(n)) == Some(n)
  {
  }

  lemma ControlCode(c: char)
    requires c < 32 as char
    ensures UnicodeEscape(['0', '0', HexDigit(c as int / 16), HexDigit(c as int % 16)]) == Some(c as int)
  {
    HexDigitValue(c as int / 16);
    HexDigitValue(c as int % 16);
    hide HexDigit;
    assert HexValue('0') == Some(0);
  }

  lemma RfcChar(c: char, rest: string)
    ensures RfcBody(EscapeChar(c) + rest) == ConsCode(Some(c as int), RfcBody(rest))
  {
    hide HexDigit, UnicodeEscape;
    var s := EscapeChar(c) + rest;
    assert s[|EscapeChar(c)|..] == rest;
    if |EscapeChar(c)| == 6 {
      ControlCode(c);
      assert s[2..6] == ['0', '0', HexDigit(c as int / 16), HexDigit(c as int % 16)];
    }
  }

  lemma {:induction false} RfcEscapeBody(text: string)
    ensures RfcBody(EscapeBody(text)) == Some(Codes(text))
  {
    hide RfcBody, EscapeChar;
    if text == "" {
      RfcEmpty();
    } else {
      RfcEscapeBody(text[1..]);
      RfcChar(text[0], EscapeBody(text[1..]));
    }
  }

  lemma RfcEmpty()
    ensures RfcBody("") == Some([])
  {
  }

  /** For every text the writer emits a valid string that decodes to it. */
  lemma WriterIsValid(text: string)
    ensures RfcString(QuoteText(text)) == Some(Codes(text))
  {
    hide RfcBody, EscapeBody, Codes;
    var s := QuoteText(text);
    assert s[1..|s| - 1] == EscapeBody(text);
    RfcEscapeBody(text);
  }

  /** The writer spells the quote, the backslash, tab, newline and return in two characters, every other
      control character as `\u00` with two lower-case hexadecimal digits, and copies the rest. */
  lemma WriterSpells(c: char)
    ensures var s := EscapeChar(c);
            if c == '"' || c == '\\' then s == ['\\', c]
            else if c as int in [9, 10, 13] then |s| == 2 && s[0] == '\\' && SimpleEscape(s[1]) == Some(c as int)
            else if c as int < 32 then
              && |s| == 6 && s[..4] == "\\u00" && UnicodeEscape(s[2..]) == Some(c as int)
              && forall i :: 4 <= i < 6 ==> !('A' <= s[i] <= 'F')
            else s == [c]
  {
    hide UnicodeEscape;
    if c as int < 32 {
      ControlCode(c);
      var high, low := HexDigit(c as int / 16), HexDigit(c as int % 16);
      HexLower(c as int / 16);
      HexLower(c as int % 16);
      assert [BACKSLASH, 'u', '0', '0', high, low][2..] == ['0', '0', high, low];
    }
  }

  lemma HexLower(n: nat)
    requires n < 16
    ensures !('A' <= HexDigit(n) <= 'F')
  {
  }

  // ---- The repository's reader ----

  datatype ReadText = ReadText(value: string, length: nat)

  function ConsChar(c: char, r: Option<ReadText>, n: nat): (q: Option<ReadText>) {
    if r.None? then None else Some(ReadText([c] + r.value.value, n + r.value.length))
  }

  function ReaderEscape(c: char): (r: Option<char>) {
    if c == QUOTE || c == BACKSLASH then Some(c)
    else if c == 'n' then Some(NEWLINE)
    else if c == 'r' then Some(RETURN)
    else if c == 't' then Some(TAB)
    else None
  }

  /** After the opening quote, up to and including the closing one. */
  function ReadBody(s: string): (r: Option<ReadText>)
    ensures r.Some? ==> 0 < r.value.length <= |s|
    decreases |s|
  {
    if s == "" then None
    else if s[0] == QUOTE then Some(ReadText("", 1))
    else if s[0] < 32 as char then None
    else if s[0] != BACKSLASH then ConsChar(s[0], ReadBody(s[1..]), 1)
    else if |s| < 2 || ReaderEscape(s[1]).None? then None
    else ConsChar(ReaderEscape(s[1]).value, ReadBody(s[2..]), 2)
  }

  function ReadString(s: string): (r: Option<ReadText>) {
    if s == "" || s[0] != QUOTE then None
    else match ReadBody(s[1..])
      case None => None
      case Some(t) => Some(ReadText(t.value, 1 + t.length))
  }

  ghost function Resumed(buffer: string, n: nat, r: Option<ReadText>): (q: Option<ReadText>)
    ensures buffer == "" && n == 0 ==> q == r
    ensures r.None? ==> q.None?
  {
    assert buffer == "" && r.Some? ==> buffer + r.value.value == r.value.value;
    if r.None? then None else Some(ReadText(buffer + r.value.value, n + r.value.length))
  }

  lemma ResumedStep(buffer: string, n: nat, c: char, r: Option<ReadText>, m: nat)
    ensures Resumed(buffer, n, ConsChar(c, r, m)) == Resumed(buffer + [c], n + m, r)
  {
    if r.Some? {
      assert buffer + ([c] + r.value.value) == buffer + [c] + r.value.value;
    }
  }

  /** parse_json_string from `start`; the cursor ends behind the closing quote. */
  method ParseJsonString(s: string, start: nat) returns (text: Option<string>, cursor: nat)
    requires start <= |s|
    ensures match ReadString(s[start..])
            case None => text == None
            case Some(t) => text == Some(t.value) && cursor == start + t.length
  {
    hide ReadBody, ReaderEscape, Resumed;
    cursor := start;
    if cursor == |s| || s[cursor] != QUOTE {
      return None, cursor;
    }
    var buffer := "";
    cursor := cursor + 1;
    assert s[start..][1..] == s[start + 1..];
    while cursor < |s|
      invariant start < cursor <= |s|
      invariant ReadBody(s[start + 1..]) == Resumed(buffer, cursor - start - 1, ReadBody(s[cursor..]))
    {
      var ch := s[cursor];
      var at := cursor;
      ReadBodyFrom(s, at);
      if ch == QUOTE {
        ResumedEnd(buffer, at - start - 1);
        return Some(buffer), cursor + 1;
      }
      if ch < 32 as char {
        return None, cursor;
      }
      if ch == BACKSLASH {
        cursor := cursor + 1;
        if cursor == |s| || ReaderEscape(s[cursor]).None? {
          return None, cursor;
        }
        ch := ReaderEscape(s[cursor]).value;
      }
      ResumedStep(buffer, at - start - 1, ch, ReadBody(s[cursor + 1..]), cursor + 1 - at);
      buffer := buffer + [ch];
      cursor := cursor + 1;
    }
    ReadNothing(s);
    text := None;
  }

  /** One turn of the loop. */
  lemma ReadBodyFrom(s: string, at: nat)
    requires at < |s|
    ensures ReadBody(s[at..]) ==
            if s[at] == QUOTE then Some(ReadText("", 1))
            else if s[at] < 32 as char then None
            else if s[at] != BACKSLASH then ConsChar(s[at], ReadBody(s[at + 1..]), 1)
            else if at + 1 == |s| || ReaderEscape(s[at + 1]).None? then None
            else ConsChar(ReaderEscape(s[at + 1]).value, ReadBody(s[at + 2..]), 2)
  {
    hide ReaderEscape;
    assert s[at..][1..] == s[at + 1..];
    if at + 1 < |s| {
      assert s[at..][2..] == s[at + 2..];
    }
  }

  lemma ReadNothing(s: string)
    ensures ReadBody(s[|s|..]) == None
  {
  }

  lemma ResumedEnd(buffer: string, n: nat)
    ensures Resumed(buffer, n, Some(ReadText("", 1))) == Some(ReadText(buffer, n + 1))
  {
    assert buffer + "" == buffer;
  }

  // ---- Reader against writer ----

  /** The control characters that the reader's escapes cover. */
  predicate Plain(c: char) {
    c >= 32 as char || c == NEWLINE || c == RETURN || c == TAB
  }

  predicate AllPlain(text: string) {
    forall i :: 0 <= i < |text| ==> Plain(text[i])
  }

  lemma ReadChar(c: char, rest: string)
    ensures ReadBody(EscapeChar(c) + rest)
            == if Plain(c) then ConsChar(c, ReadBody(rest), |EscapeChar(c)|) else None
  {
    hide HexDigit;
    var s := EscapeChar(c) + rest;
    assert s[|EscapeChar(c)|..] == rest;
  }

  lemma {:induction false} ReadEscaped(text: string, rest: string)
    ensures ReadBody(EscapeBody(text) + [QUOTE] + rest)
            == if AllPlain(text) then Some(ReadText(text, |EscapeBody(text)| + 1)) else None
  {
    hide ReadBody, EscapeChar, Plain;
    if text == "" {
      assert EscapeBody(text) + [QUOTE] + rest == [QUOTE] + rest;
      ReadEnd(rest);
    } else {
      var tail := EscapeBody(text[1..]) + [QUOTE] + rest;
      assert EscapeBody(text) + [QUOTE] + rest == EscapeChar(text[0]) + tail;
      ReadChar(text[0], tail);
      ReadEscaped(text[1..], rest);
      assert text == [text[0]] + text[1..];
      assert AllPlain(text) <==> Plain(text[0]) && AllPlain(text[1..]) by {
        assert forall i :: 0 < i < |text| ==> text[i] == text[1..][i - 1];
      }
    }
  }

  lemma ReadEnd(rest: string)
    ensures ReadBody([QUOTE] + rest) == Some(ReadText("", 1))
  {
  }

  /** The reader undoes the writer exactly when every control character is newline, return or tab. */
  lemma ReaderInvertsWriter(text: string, rest: string)
    ensures ReadString(QuoteText(text) + rest)
            == if AllPlain(text) then Some(ReadText(text, |QuoteText(text)|)) else None
  {
    hide ReadBody, EscapeBody, AllPlain;
    var s := QuoteText(text) + rest;
    assert s[1..] == EscapeBody(text) + [QUOTE] + rest;
    ReadEscaped(text, rest);
  }

  /** The smallest text on which the round trip fails: a single backspace is written as a unicode escape. */
  lemma ReaderRefusesBackspace()
    ensures QuoteText([8 as char]) == [QUOTE, BACKSLASH, 'u', '0', '0', '0', '8', QUOTE]
    ensures ReadString(QuoteText([8 as char])) == None
  {
    var text := [8 as char];
    assert text[1..] == "";
    assert EscapeBody(text) == EscapeChar(8 as char) + "";
    ReaderInvertsWriter(text, "");
    assert QuoteText(text) + "" == QuoteText(text);
    assert !Plain(text[0]);
  }

  /** Whatever the reader accepts is a valid string with the same meaning. */
  lemma {:induction false} ReaderIsSound(s: string)
    requires ReadBody(s).Some?
    ensures var t := ReadBody(s).value;
            s[t.length - 1] == QUOTE && RfcBody(s[..t.length - 1]) == Some(Codes(t.value))
    decreases |s|
  {
    var t := ReadBody(s).value;
    var body := s[..t.length - 1];
    if s[0] == QUOTE {
      assert body == "";
    } else {
      var m := if s[0] == BACKSLASH then 2 else 1;
      ReaderIsSound(s[m..]);
      var u := ReadBody(s[m..]).value;
      assert body[m..] == s[m..][..u.length - 1];
      assert t.value[1..] == u.value;
    }
  }

  predicate SupportedEscape(c: char) {
    c == '"' || c == '\\' || c == 'n' || c == 'r' || c == 't'
  }

  /** Every backslash escape in the body is one of `\"`, `\\`, `\n`, `\r` and `\t`. */
  predicate Supported(body: string)
    decreases |body|
  {
    if body == "" then true
    else if body[0] != BACKSLASH then Supported(body[1..])
    else |body| >= 2 && SupportedEscape(body[1]) && Supported(body[2..])
  }

  /** Of the valid strings the reader accepts exactly those that use no other escape. */
  lemma {:induction false} ReaderExact(body: string)
    ensures (ReadBody(body + [QUOTE]).Some? && ReadBody(body + [QUOTE]).value.length == |body| + 1)
            <==> RfcBody(body).Some? && Supported(body)
    decreases |body|
  {
    hide UnicodeEscape;
    var s := body + [QUOTE];
    if body == "" {
      assert s == [QUOTE];
    } else if body[0] != BACKSLASH {
      assert s[1..] == body[1..] + [QUOTE];
      ReaderExact(body[1..]);
    } else if |body| >= 2 {
      assert s[2..] == body[2..] + [QUOTE];
      ReaderExact(body[2..]);
    }
  }
}
