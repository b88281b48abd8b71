/** From text to statements: the single-statement gate of src/db_api.c and the script loop of src/main.c. */
module Frontend {
  import opened Common
  import opened Lexer
  import opened LexerFacts
  import opened Ast
  import opened Parser

  /** The token array of a text: `End` is last and nowhere else. */
  ghost predicate Stream(ts: seq<Token>) {
    Ends(ts) && forall i :: 0 <= i < |ts| - 1 ==> ts[i] != End
  }

  lemma {:induction false} LexStream(s: string)
    requires Lex(s).Some?
    ensures Stream(Lex(s).value)
    decreases |s|
  {
    hide Scan;
    if s != "" {
      if IsSpace(s[0]) {
        LexStream(s[1..]);
      } else {
        LexStream(s[Scan(s).value.length..]);
      }
    }
  }

  // ---- Trimming ----

  /** trim_whitespace. */
  method Trim(text: string) returns (r: string, ghost before: string, ghost after: string)
    ensures text == before + r + after && IsGap(before) && IsGap(after)
    ensures r != "" ==> !IsSpace(r[0]) && !IsSpace(r[|r| - 1])
  {
    var start := 0;
    while start < |text| && IsSpace(text[start])
      invariant start <= |text| && IsGap(text[..start])
    {
      start := start + 1;
    }
    before := text[..start];
    if start == |text| {
      return "", before, "";
    }
    var end := |text| - 1;
    while end > start && IsSpace(text[end])
      invariant start <= end < |text| && IsGap(text[end + 1..])
    {
      end := end - 1;
    }
    r, after := text[start..end + 1], text[end + 1..];
  }

  // ---- The gate ----

  datatype Refusal = EmptyQuery | UnsupportedQuery | ParseError | MultipleStatements

  function Gate(ts: seq<Token>): (r: Result<Statement, Refusal>)
    requires Ends(ts)
  {
    var i := Skip(ts, 0);
    if ts[i] == End then Err(EmptyQuery)
    else if ts[i] != Keyword(KwSelect) && ts[i] != Keyword(KwInsert) then Err(UnsupportedQuery)
    else match NextAt(ts, i)
      case None => Err(ParseError)
      case Some(p) => if ts[Skip(ts, p.next)] == End then Ok(p.value) else Err(MultipleStatements)
  }

  ghost function GateText(sql: string): (r: Result<Statement, Refusal>) {
    match Lex(sql)
    case None => Err(ParseError)
    case Some(ts) => LexStream(sql); Gate(ts)
  }

  /** skip_leading_semicolons and skip_trailing_semicolons. */
  method SkipFrom(tokens: seq<Token>, start: nat) returns (cursor: nat)
    requires Ends(tokens) && start < |tokens|
    ensures cursor == Skip(tokens, start)
  {
    cursor := start;
    while cursor < |tokens| && tokens[cursor] == Semicolon
      invariant cursor < |tokens| && Skip(tokens, cursor) == Skip(tokens, start)
    {
      cursor := cursor + 1;
    }
  }

  /** The part of db_api_execute_sql before the engine is reached. */
  method Admit(sql: string) returns (r: Result<Statement, Refusal>)
    ensures r == GateText(sql)
  {
    hide NextAt, Lex, Stream;
    var text, before, after := Trim(sql);
    TrimKeepsLex(before, text, after);
    if text == "" {
      LexNothing();
      return Err(EmptyQuery);
    }
    var tokens := TokenizeSql(text);
    if tokens == None {
      return Err(ParseError);
    }
    LexStream(text);
    var ts := tokens.value;
    StreamEnds(ts);
    var cursor := SkipFrom(ts, 0);
    if ts[cursor] == End {
      return Err(EmptyQuery);
    }
    if ts[cursor] != Keyword(KwSelect) && ts[cursor] != Keyword(KwInsert) {
      return Err(UnsupportedQuery);
    }
    var stmt, next := ParseNextStatement(ts, cursor);
    if stmt == None {
      return Err(ParseError);
    }
    cursor := SkipFrom(ts, next);
    if ts[cursor] != End {
      return Err(MultipleStatements);
    }
    r := Ok(stmt.value);
  }

  /** parse_statement: it accepts exactly what the gate lets through. */
  method ParseStatement(tokens: seq<Token>) returns (stmt: Option<Statement>)
    requires Ends(tokens)
    ensures forall s :: stmt == Some(s) <==> Gate(tokens) == Ok(s)
  {
    var found, next := ParseNextStatement(tokens, 0);
    NextSkips(tokens);
    if found == None {
      return None;
    }
    var cursor := SkipFrom(tokens, next);
    stmt := if tokens[cursor] == End then found else None;
  }

  /** A statement is parsed at the start exactly as after the leading semicolons. */
  lemma NextSkips(ts: seq<Token>)
    requires Ends(ts)
    ensures NextAt(ts, Skip(ts, 0)) == NextAt(ts, 0)
    ensures NextAt(ts, 0).Some? ==>
      ts[Skip(ts, 0)] == Keyword(KwSelect) || ts[Skip(ts, 0)] == Keyword(KwInsert)
  {
    hide InsertAt, SelectAt;
    assert Skip(ts, Skip(ts, 0)) == Skip(ts, 0);
  }

  lemma StreamEnds(ts: seq<Token>)
    requires Stream(ts)
    ensures Ends(ts)
  {
  }

  lemma LexNothing()
    ensures Lex("") == Some([End])
  {
  }

  lemma TrimKeepsLex(before: string, text: string, after: string)
    requires IsGap(before) && IsGap(after)
    ensures Lex(before + text + after) == Lex(text)
  {
    hide Lex;
    LexTrailing(before + text, after);
    LexGap(before, text);
  }

  // ---- Scripts ----

  /** The statements parsed before the end or the first parse error. */
  datatype Script = Script(statements: seq<Statement>, ok: bool)

  function ConsScript(s: Statement, r: Script): (q: Script) {
    Script([s] + r.statements, r.ok)
  }

  function ScriptAt(ts: seq<Token>, i: nat): (r: Script)
    requires Ends(ts) && i < |ts|
    decreases |ts| - i
  {
    var j := Skip(ts, i);
    if ts[j] == End then Script([], true)
    else match NextAt(ts, j)
      case None => Script([], false)
      case Some(p) => ConsScript(p.value, ScriptAt(ts, p.next))
  }

  ghost function AfterScript(done: seq<Statement>, r: Script): (q: Script)
    ensures done == [] ==> q == r
  {
    assert done == [] ==> done + r.statements == r.statements;
    Script(done + r.statements, r.ok)
  }

  lemma AfterConsScript(done: seq<Statement>, s: Statement, r: Script)
    ensures AfterScript(done, ConsScript(s, r)) == AfterScript(done + [s], r)
  {
    assert done + ([s] + r.statements) == done + [s] + r.statements;
  }

  /** The loop of src/main.c; it ends because every statement moves the cursor forward. */
  method ParseScript(tokens: seq<Token>) returns (r: Script)
    requires Ends(tokens)
    ensures r == ScriptAt(tokens, 0)
  {
    hide NextAt;
    var done: seq<Statement> := [];
    var cursor := SkipFrom(tokens, 0);
    SkipTwice(tokens, 0);
    while cursor < |tokens| && tokens[cursor] != End
      invariant cursor < |tokens| && Skip(tokens, cursor) == cursor
      invariant AfterScript(done, ScriptAt(tokens, cursor)) == ScriptAt(tokens, 0)
      decreases |tokens| - cursor
    {
      var stmt, next := ParseNextStatement(tokens, cursor);
      if stmt == None {
        assert done + [] == done;
        return Script(done, false);
      }
      AfterConsScript(done, stmt.value, ScriptAt(tokens, next));
      SkipTwice(tokens, next);
      done := done + [stmt.value];
      cursor := SkipFrom(tokens, next);
    }
    assert done + [] == done;
    r := Script(done, true);
  }

  lemma SkipTwice(ts: seq<Token>, i: nat)
    requires Ends(ts) && i < |ts|
    ensures Skip(ts, Skip(ts, i)) == Skip(ts, i)
    ensures ScriptAt(ts, Skip(ts, i)) == ScriptAt(ts, i)
  {
  }
}
