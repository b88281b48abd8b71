/** The tokenizer of src/lexer.c. Character classes are those of the C locale. */
module Lexer {
  import opened Common

  datatype Kw = KwInsert | KwInto | KwValues | KwSelect | KwFrom | KwWhere

  /** The text of keywords and symbols is dropped: the parser never reads it. */
  datatype Token =
    | Identifier(name: string)
    | Keyword(kw: Kw)
    | Text(value: string)
    | Number(digits: string)
    | Comma | LParen | RParen | Semicolon | Star | Equal
    | End

  // ---- Characters ----

  predicate IsSpace(c: char) {
    c == ' ' || 9 as char <= c <= 13 as char
  }

  predicate IsAlpha(c: char) {
    'a' <= c <= 'z' || 'A' <= c <= 'Z'
  }

  predicate IsWordChar(c: char) {
    IsAlpha(c) || IsDigit(c) || c == '_'
  }

  function Upper(c: char): (u: char) {
    if 'a' <= c <= 'z' then c - 32 as char else c
  }

  function UpperCase(s: string): (u: string)
    ensures |u| == |s|
    ensures forall i :: 0 <= i < |s| ==> u[i] == Upper(s[i])
  {
    seq(|s|, i requires 0 <= i < |s| => Upper(s[i]))
  }

  function KeywordName(k: Kw): (s: string) {
    match k
    case KwInsert => "INSERT"
    case KwInto => "INTO"
    case KwValues => "VALUES"
    case KwSelect => "SELECT"
    case KwFrom => "FROM"
    case KwWhere => "WHERE"
  }

  /** keyword_type: comparison ignores case. */
  function KeywordOf(text: string): (r: Option<Kw>)
    ensures forall k :: UpperCase(text) == KeywordName(k) <==> r == Some(k)
  {
    var u := UpperCase(text);
    if u == "INSERT" then Some(KwInsert)
    else if u == "INTO" then Some(KwInto)
    else if u == "VALUES" then Some(KwValues)
    else if u == "SELECT" then Some(KwSelect)
    else if u == "FROM" then Some(KwFrom)
    else if u == "WHERE" then Some(KwWhere)
    else None
  }

  // ---- The specification: one token off the front of the remaining text ----

  /** The longest run of letters, digits and underscores. */
  function WordLength(s: string): (n: nat)
    ensures n <= |s|
  {
    if s == "" || !IsWordChar(s[0]) then 0 else 1 + WordLength(s[1..])
  }

  function Longer(o: Option<nat>, n: nat): (r: Option<nat>) {
    if o.None? then None else Some(n + o.value)
  }

  /** Digits with at most one dot; a dot that no digit follows is an error. */
  function NumberLength(s: string, seenDot: bool): (r: Option<nat>)
    ensures r.Some? ==> r.value <= |s|
  {
    if s == "" then Some(0)
    else if IsDigit(s[0]) then Longer(NumberLength(s[1..], seenDot), 1)
    else if s[0] != '.' || seenDot then Some(0)
    else if |s| > 1 && IsDigit(s[1]) then Longer(NumberLength(s[1..], true), 1)
    else None
  }

  datatype Quoted = Quoted(value: string, length: nat)

  function Prefixed(c: char, o: Option<Quoted>, n: nat): (r: Option<Quoted>) {
    if o.None? then None else Some(Quoted([c] + o.value.value, n + o.value.length))
  }

  /** What follows an opening quote, up to the closing one; two quotes stand for one. */
  function Unquote(s: string): (r: Option<Quoted>)
    ensures r.Some? ==> 0 < r.value.length <= |s|
  {
    if s == "" then None
    else if s[0] != '\'' then Prefixed(s[0], Unquote(s[1..]), 1)
    else if |s| > 1 && s[1] == '\'' then Prefixed('\'', Unquote(s[2..]), 2)
    else Some(Quoted("", 1))
  }

  function Symbol(c: char): (r: Option<Token>) {
    match c
    case ',' => Some(Comma)
    case '(' => Some(LParen)
    case ')' => Some(RParen)
    case ';' => Some(Semicolon)
    case '*' => Some(Star)
    case '=' => Some(Equal)
    case _ => None
  }

  datatype Scanned = Scanned(token: Token, length: nat)

  function WordToken(text: string): (t: Token) {
    match KeywordOf(text)
    case Some(k) => Keyword(k)
    case None => Identifier(text)
  }

  predicate StartsNumber(s: string) {
    s != "" && (IsDigit(s[0]) || (s[0] == '-' && |s| > 1 && IsDigit(s[1])))
  }

  function ScanNumber(s: string): (r: Option<Scanned>)
    requires StartsNumber(s)
    ensures r.Some? ==> 0 < r.value.length <= |s|
  {
    var sign := if s[0] == '-' then 1 else 0;
    match NumberLength(s[sign..], false)
    case None => None
    case Some(n) => assert IsDigit(s[sign]) && n > 0; Some(Scanned(Number(s[..sign + n]), sign + n))
  }

  /** One turn of the tokenizer's loop, at a character that is not a space. */
  function Scan(s: string): (r: Option<Scanned>)
    requires s != ""
    ensures r.Some? ==> 0 < r.value.length <= |s| && r.value.token != End
  {
    if IsAlpha(s[0]) || s[0] == '_' then Some(Scanned(WordToken(s[..WordLength(s)]), WordLength(s)))
    else if StartsNumber(s) then ScanNumber(s)
    else if s[0] == '\'' then
      match Unquote(s[1..])
      case None => None
      case Some(q) => Some(Scanned(Text(q.value), 1 + q.length))
    else match Symbol(s[0])
      case None => None
      case Some(t) => Some(Scanned(t, 1))
  }

  function Cons(t: Token, o: Option<seq<Token>>): (r: Option<seq<Token>>) {
    if o.None? then None else Some([t] + o.value)
  }

  /** The token array, ending in `End`, or `None` on a lexical error. */
  function Lex(s: string): (r: Option<seq<Token>>)
    decreases |s|
  {
    if s == "" then Some([End])
    else if IsSpace(s[0]) then Lex(s[1..])
    else match Scan(s)
      case None => None
      case Some(x) => Cons(x.token, Lex(s[x.length..]))
  }

  // ---- The tokenizer ----

  method TokenizeIdentifier(sql: string, start: nat) returns (token: Token, index: nat)
    requires start < |sql|
    ensures index == start + WordLength(sql[start..]) && index <= |sql|
    ensures token == WordToken(sql[start..index])
  {
    index := start;
    while index < |sql| && IsWordChar(sql[index])
      invariant start <= index <= |sql|
      invariant index - start + WordLength(sql[index..]) == WordLength(sql[start..])
    {
      assert sql[index..][1..] == sql[index + 1..];
      index := index + 1;
    }
    token := WordToken(sql[start..index]);
  }

  /** The digit loop of tokenize_number, from after the sign. */
  method DigitLoop(sql: string, first: nat) returns (ok: bool, index: nat)
    requires first <= |sql|
    ensures NumberLength(sql[first..], false) == if ok then Some(index - first) else None
    ensures first <= index <= |sql|
  {
    index := first;
    var seenDot := false;
    while index < |sql| && (IsDigit(sql[index]) || (!seenDot && sql[index] == '.'))
      invariant first <= index <= |sql|
      invariant Longer(NumberLength(sql[index..], seenDot), index - first) == NumberLength(sql[first..], false)
    {
      assert sql[index..][1..] == sql[index + 1..];
      if sql[index] == '.' {
        seenDot := true;
        if index + 1 >= |sql| || !IsDigit(sql[index + 1]) {
          return false, index;
        }
      }
      index := index + 1;
    }
    ok := true;
  }

  lemma SliceOfSlice(s: string, a: nat, b: nat)
    requires a <= b <= |s|
    ensures s[a..][b - a..] == s[b..]
    ensures s[a..][..b - a] == s[a..b]
  {
  }

  lemma ScanNumberIs(s: string, sign: nat, n: Option<nat>)
    requires StartsNumber(s) && sign == (if s[0] == '-' then 1 else 0) && NumberLength(s[sign..], false) == n
    ensures n.Some? ==> sign + n.value <= |s| && ScanNumber(s) == Some(Scanned(Number(s[..sign + n.value]), sign + n.value))
    ensures n.None? ==> ScanNumber(s) == None
  {
    hide NumberLength;
  }

  method TokenizeNumber(sql: string, start: nat) returns (scanned: Option<Token>, index: nat)
    requires start < |sql| && StartsNumber(sql[start..])
    ensures match ScanNumber(sql[start..])
            case None => scanned == None
            case Some(x) => scanned == Some(x.token) && index == start + x.length
  {
    hide NumberLength, ScanNumber, StartsNumber;
    index := start;
    if sql[index] == '-' {
      index := index + 1;
    }
    ghost var sign := index - start;
    SliceOfSlice(sql, start, index);
    var ok;
    ok, index := DigitLoop(sql, index);
    SliceOfSlice(sql, start, index);
    ScanNumberIs(sql[start..], sign, if ok then Some(index - start - sign) else None);
    if !ok {
      return None, index;
    }
    scanned := Some(Number(sql[start..index]));
  }

  method TokenizeString(sql: string, start: nat) returns (scanned: Option<Token>, index: nat)
    requires start < |sql| && sql[start] == '\''
    ensures match Unquote(sql[start + 1..])
            case None => scanned == None
            case Some(q) => scanned == Some(Text(q.value)) && index == start + 1 + q.length
  {
    hide Unquote, Resumed;
    index := start + 1;
    var buffer := "";
    while index < |sql|
      invariant start < index <= |sql|
      invariant Unquote(sql[start + 1..]) == Resumed(buffer, index - start - 1, Unquote(sql[index..]))
    {
      var ch := sql[index];
      UnquoteFrom(sql, index);
      if ch == '\'' {
        if index + 1 < |sql| && sql[index + 1] == '\'' {
          ResumedStep(buffer, index - start - 1, '\'', Unquote(sql[index + 2..]), 2);
          buffer := buffer + ['\''];
          index := index + 2;
          continue;
        }
        ResumedEnd(buffer, index - start - 1);
        index := index + 1;
        return Some(Text(buffer)), index;
      }
      ResumedStep(buffer, index - start - 1, ch, Unquote(sql[index + 1..]), 1);
      buffer := buffer + [ch];
      index := index + 1;
    }
    UnquoteNothing(sql);
    scanned := None;
  }

  lemma ResumedStep(buffer: string, n: nat, c: char, o: Option<Quoted>, m: nat)
    ensures Resumed(buffer, n, Prefixed(c, o, m)) == Resumed(buffer + [c], n + m, o)
  {
    if o.Some? {
      assert buffer + ([c] + o.value.value) == buffer + [c] + o.value.value;
    }
  }

  /** One turn of the string loop. */
  lemma UnquoteFrom(s: string, at: nat)
    requires at < |s|
    ensures Unquote(s[at..]) ==
            if s[at] != '\'' then Prefixed(s[at], Unquote(s[at + 1..]), 1)
            else if at + 1 < |s| && s[at + 1] == '\'' then Prefixed('\'', Unquote(s[at + 2..]), 2)
            else Some(Quoted("", 1))
  {
    assert s[at..][1..] == s[at + 1..];
    if at + 1 < |s| {
      assert s[at..][2..] == s[at + 2..];
    }
  }

  lemma UnquoteNothing(s: string)
    ensures Unquote(s[|s|..]) == None
  {
  }

  lemma ResumedEnd(buffer: string, n: nat)
    ensures Resumed(buffer, n, Some(Quoted("", 1))) == Some(Quoted(buffer, n + 1))
  {
    assert buffer + "" == buffer;
  }

  ghost function Resumed(buffer: string, n: nat, o: Option<Quoted>): (r: Option<Quoted>)
    ensures buffer == "" && n == 0 ==> r == o
    ensures o.None? ==> r.None?
  {
    assert buffer == "" && n == 0 && o.Some? ==> buffer + o.value.value == o.value.value;
    if o.None? then None else Some(Quoted(buffer + o.value.value, n + o.value.length))
  }

  /** tokenize_sql: the index loop computes `Lex`. */
  method TokenizeSql(sql: string) returns (tokens: Option<seq<Token>>)
    ensures tokens == Lex(sql)
  {
    hide Lex, Appended, WordLength, ScanNumber, Unquote, Symbol, WordToken;
    var out: seq<Token> := [];
    var index := 0;
    assert sql[0..] == sql;
    while index < |sql|
      invariant index <= |sql|
      invariant Lex(sql) == Appended(out, Lex(sql[index..]))
    {
      var ch := sql[index];
      LexFrom(sql, index);
      if IsSpace(ch) {
        index := index + 1;
        continue;
      }
      var token: Option<Token>;
      ghost var start := index;
      if IsAlpha(ch) || ch == '_' {
        var t;
        t, index := TokenizeIdentifier(sql, index);
        assert sql[start..][..index - start] == sql[start..index];
        token := Some(t);
      } else if IsDigit(ch) || (ch == '-' && index + 1 < |sql| && IsDigit(sql[index + 1])) {
        token, index := TokenizeNumber(sql, index);
      } else if ch == '\'' {
        assert sql[start..][1..] == sql[start + 1..];
        token, index := TokenizeString(sql, index);
      } else {
        token := Symbol(ch);
        index := index + 1;
      }
      if token == None {
        return None;
      }
      assert Scan(sql[start..]) == Some(Scanned(token.value, index - start));
      AppendedStep(out, token.value, Lex(sql[index..]));
      out := out + [token.value];
    }
    LexEnd(sql, out);
    tokens := Some(out + [End]);
  }

  /** One turn of the tokenizer's loop. */
  lemma LexFrom(s: string, at: nat)
    requires at < |s|
    ensures Lex(s[at..]) ==
            if IsSpace(s[at]) then Lex(s[at + 1..])
            else match Scan(s[at..])
              case None => None
              case Some(x) => Cons(x.token, Lex(s[at + x.length..]))
  {
    hide Scan;
    assert s[at..][1..] == s[at + 1..];
    if Scan(s[at..]).Some? {
      var n := Scan(s[at..]).value.length;
      assert s[at..][n..] == s[at + n..];
    }
  }

  lemma LexEnd(s: string, out: seq<Token>)
    ensures Appended(out, Lex(s[|s|..])) == Some(out + [End])
  {
  }

  ghost function Appended(out: seq<Token>, o: Option<seq<Token>>): (r: Option<seq<Token>>)
    ensures out == [] ==> r == o
    ensures o.None? ==> r.None?
  {
    assert out == [] && o.Some? ==> out + o.value == o.value;
    if o.None? then None else Some(out + o.value)
  }

  lemma AppendedStep(out: seq<Token>, t: Token, o: Option<seq<Token>>)
    ensures Appended(out, Cons(t, o)) == Appended(out + [t], o)
  {
    if o.Some? {
      assert out + ([t] + o.value) == out + [t] + o.value;
    }
  }
}
