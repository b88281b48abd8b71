/** Which token lists and which texts the gate and the script loop accept, exactly. */
module FrontendFacts {
  import opened Common
  import opened Lexer
  import opened LexerFacts
  import opened Ast
  import opened Parser
  import opened ParserFacts
  import opened Frontend

  function Semis(n: nat): (ts: seq<Token>)
    ensures |ts| == n && forall i :: 0 <= i < n ==> ts[i] == Semicolon
  {
    seq(n, _ => Semicolon)
  }

  // ---- Semicolons in place ----

  lemma {:induction false} SkipOver(ts: seq<Token>, i: nat, n: nat)
    requires Ends(ts) && At(ts, i, Semis(n)) && i + n < |ts| && ts[i + n] != Semicolon
    ensures Skip(ts, i) == i + n
    decreases n
  {
    if n > 0 {
      assert ts[i] == ts[i..i + n][0];
      assert ts[i + 1..i + 1 + (n - 1)] == ts[i..i + n][1..];
      assert Semis(n)[1..] == Semis(n - 1);
      SkipOver(ts, i + 1, n - 1);
    }
  }

  lemma SkippedAt(ts: seq<Token>, i: nat)
    requires Ends(ts) && i < |ts|
    ensures At(ts, i, Semis(Skip(ts, i) - i))
  {
    assert ts[i..Skip(ts, i)] == Semis(Skip(ts, i) - i);
  }

  // ---- Scripts ----

  /** Statements with any number of semicolons before, between and after them. */
  function Scripted(ss: seq<Statement>, gaps: seq<nat>, last: nat): (ts: seq<Token>)
    requires |gaps| == |ss|
    ensures ts != [] && ts[|ts| - 1] == End
  {
    if ss == [] then Semis(last) + [End]
    else Semis(gaps[0]) + (StatementTokens(ss[0]) + Scripted(ss[1..], gaps[1..], last))
  }

  ghost predicate AllWellFormed(ss: seq<Statement>) {
    forall i :: 0 <= i < |ss| ==> WellFormed(ss[i])
  }

  lemma AtEnd(ts: seq<Token>, i: nat, xs: seq<Token>)
    requires At(ts, i, xs)
    ensures forall k :: i <= k < i + |xs| ==> ts[k] == xs[k - i]
  {
    assert forall k :: i <= k < i + |xs| ==> ts[k] == ts[i..i + |xs|][k - i];
  }

  /** What stands after a statement or after semicolons is never WHERE. */
  lemma ScriptedStart(ts: seq<Token>, i: nat, ss: seq<Statement>, gaps: seq<nat>, last: nat)
    requires |gaps| == |ss| && At(ts, i, Scripted(ss, gaps, last))
    ensures i < |ts| && ts[i] != Keyword(KwWhere)
  {
    hide StatementTokens;
    AtEnd(ts, i, Scripted(ss, gaps, last));
  }

  lemma ScriptStepOne(ts: seq<Token>, i: nat)
    requires Ends(ts) && i < |ts| && ts[i] == Semicolon
    ensures ScriptAt(ts, i + 1) == ScriptAt(ts, i)
  {
  }

  /** One statement off the front of a script. */
  lemma ScriptStep(ts: seq<Token>, i: nat, s: Statement, j: nat)
    requires Ends(ts) && i < |ts| && StatementAt(ts, Skip(ts, i)) == Some(Parsed(s, j))
    ensures ScriptAt(ts, i) == ConsScript(s, ScriptAt(ts, j))
  {
    hide StatementAt, Spelled;
    StatementSound(ts, Skip(ts, i));
    StatementFirst(ts, Skip(ts, i), s, j);
    assert Skip(ts, Skip(ts, i)) == Skip(ts, i);
    if ts[j] == Semicolon {
      ScriptStepOne(ts, j);
    }
  }

  lemma StatementFirst(ts: seq<Token>, i: nat, s: Statement, j: nat)
    requires i < |ts| && Spelled(ts, i, s, j)
    ensures i < j && (ts[i] == Keyword(KwInsert) || ts[i] == Keyword(KwSelect))
  {
    hide StatementTokens;
    AtEnd(ts, i, StatementTokens(s));
  }

  /** The first statement of a script stands where it is looked for. */
  lemma ScriptedFirst(ts: seq<Token>, i: nat, ss: seq<Statement>, gaps: seq<nat>, last: nat)
    requires Ends(ts) && i < |ts| && |gaps| == |ss| && ss != [] && WellFormed(ss[0])
    requires At(ts, i, Scripted(ss, gaps, last)) && i + |Scripted(ss, gaps, last)| == |ts|
    ensures var k := i + gaps[0]; var j := k + |StatementTokens(ss[0])|; var rest := Scripted(ss[1..], gaps[1..], last);
            && k < |ts| && Skip(ts, i) == k && Spelled(ts, k, ss[0], j)
            && At(ts, j, rest) && j + |rest| == |ts|
  {
    hide At, StatementTokens, StatementAt, WellFormed, Open;
    var xs, rest := StatementTokens(ss[0]), Scripted(ss[1..], gaps[1..], last);
    var k := i + gaps[0];
    AtSplit(ts, i, Semis(gaps[0]), xs + rest);
    AtSplit(ts, k, xs, rest);
    ScriptedStart(ts, k + |xs|, ss[1..], gaps[1..], last);
    StatementFirst(ts, k, ss[0], k + |xs|);
    SkipOver(ts, i, gaps[0]);
  }

  lemma ScriptedEnd(ts: seq<Token>, i: nat, last: nat)
    requires Ends(ts) && i < |ts| && At(ts, i, Scripted([], [], last)) && i + |Scripted([], [], last)| == |ts|
    ensures ScriptAt(ts, i) == Script([], true)
  {
    hide At, NextAt;
    AtSplit(ts, i, Semis(last), [End]);
    AtOne(ts, i + last, End);
    SkipOver(ts, i, last);
  }

  lemma {:induction false} ScriptComplete(ts: seq<Token>, i: nat, ss: seq<Statement>, gaps: seq<nat>, last: nat)
    requires Ends(ts) && i < |ts| && |gaps| == |ss| && AllWellFormed(ss)
    requires At(ts, i, Scripted(ss, gaps, last)) && i + |Scripted(ss, gaps, last)| == |ts|
    ensures ScriptAt(ts, i) == Script(ss, true)
    decreases |ss|
  {
    hide At, StatementTokens, StatementAt, WellFormed, Spelled, Scripted, ScriptAt;
    if ss == [] {
      ScriptedEnd(ts, i, last);
    } else {
      var s := ss[0];
      var k := i + gaps[0];
      var j := k + |StatementTokens(s)|;
      assert WellFormed(s);
      ScriptedFirst(ts, i, ss, gaps, last);
      StatementComplete(ts, k, s, j);
      ScriptStep(ts, i, s, j);
      ScriptComplete(ts, j, ss[1..], gaps[1..], last);
      assert ss == [s] + ss[1..];
    }
  }

  lemma ScriptedNone(last: nat)
    ensures Scripted([], [], last) == Semis(last) + [End]
  {
  }

  lemma ScriptedCons(ts: seq<Token>, i: nat, j: nat, s: Statement, ss: seq<Statement>, gs: seq<nat>, last: nat)
    requires i <= j && |gs| == |ss|
    requires At(ts, i, Semis(j - i)) && At(ts, j, StatementTokens(s))
    requires At(ts, j + |StatementTokens(s)|, Scripted(ss, gs, last))
    ensures At(ts, i, Scripted([s] + ss, [j - i] + gs, last))
    ensures i + |Scripted([s] + ss, [j - i] + gs, last)| == j + |StatementTokens(s)| + |Scripted(ss, gs, last)|
  {
    hide At, StatementTokens, Scripted, Semis;
    var xs, rest := StatementTokens(s), Scripted(ss, gs, last);
    AtSplit(ts, j, xs, rest);
    AtSplit(ts, i, Semis(j - i), xs + rest);
    ScriptedFront(s, ss, j - i, gs, last);
  }

  lemma ScriptedFront(s: Statement, ss: seq<Statement>, gap: nat, gs: seq<nat>, last: nat)
    requires |gs| == |ss|
    ensures Scripted([s] + ss, [gap] + gs, last) == Semis(gap) + (StatementTokens(s) + Scripted(ss, gs, last))
  {
    hide StatementTokens, Semis;
    assert ([s] + ss)[1..] == ss && ([gap] + gs)[1..] == gs;
  }

  lemma ScriptOkSplits(ts: seq<Token>, i: nat)
    requires Ends(ts) && i < |ts| && ScriptAt(ts, i).ok
    ensures ts[Skip(ts, i)] == End || StatementAt(ts, Skip(ts, i)).Some?
  {
    hide StatementAt;
    assert Skip(ts, Skip(ts, i)) == Skip(ts, i);
  }

  lemma {:induction false} ScriptSound(ts: seq<Token>, i: nat) returns (gaps: seq<nat>, last: nat)
    requires Stream(ts) && i < |ts| && ScriptAt(ts, i).ok
    ensures var ss := ScriptAt(ts, i).statements;
            |gaps| == |ss| && AllWellFormed(ss) && At(ts, i, Scripted(ss, gaps, last))
            && i + |Scripted(ss, gaps, last)| == |ts|
    decreases |ts| - i
  {
    hide At, StatementTokens, WellFormed, Open, StatementAt, Scripted, ScriptAt;
    var j := Skip(ts, i);
    SkippedAt(ts, i);
    ScriptOkSplits(ts, i);
    LastScript(ts, i);
    if ts[j] == End {
      gaps, last := [], j - i;
      ScriptedNone(last);
      AtOne(ts, j, End);
      AtSplit(ts, i, Semis(last), [End]);
    } else {
      var p := StatementAt(ts, j).value;
      StatementSound(ts, j);
      ScriptStep(ts, i, p.value, p.next);
      var gs;
      gs, last := ScriptSound(ts, p.next);
      gaps := [j - i] + gs;
      ScriptedCons(ts, i, j, p.value, ScriptAt(ts, p.next).statements, gs, last);
    }
  }

  /** The script loop returns `ss` without an error exactly on the statements `ss` with semicolons around them. */
  lemma ScriptExact(ts: seq<Token>, ss: seq<Statement>)
    requires Stream(ts)
    ensures ScriptAt(ts, 0) == Script(ss, true)
            <==> AllWellFormed(ss)
                 && exists gaps: seq<nat>, last: nat :: |gaps| == |ss| && ts == Scripted(ss, gaps, last)
  {
    hide ScriptAt, Scripted, AllWellFormed;
    assert ts[0..0 + |ts|] == ts;
    if ScriptAt(ts, 0) == Script(ss, true) {
      var gaps, last := ScriptSound(ts, 0);
      assert ts == Scripted(ss, gaps, last);
    }
    if AllWellFormed(ss) {
      if gaps: seq<nat>, last: nat :| |gaps| == |ss| && ts == Scripted(ss, gaps, last) {
        ScriptComplete(ts, 0, ss, gaps, last);
      }
    }
  }

  // ---- The gate ----

  /** The gate passes exactly the streams whose script is a single statement. */
  lemma GateIsScript(ts: seq<Token>, s: Statement)
    requires Stream(ts)
    ensures Gate(ts) == Ok(s) <==> ScriptAt(ts, 0) == Script([s], true)
  {
    hide At, StatementTokens, StatementAt, Stream;
    StreamEnds(ts);
    var i := Skip(ts, 0);
    assert Skip(ts, i) == i;
    if StatementAt(ts, i).Some? {
      var p := StatementAt(ts, i).value;
      StatementSound(ts, i);
      StatementFirst(ts, i, p.value, p.next);
      ScriptStep(ts, 0, p.value, p.next);
      SkipTwice(ts, p.next);
      if ts[p.next] == Semicolon {
        assert Skip(ts, p.next + 1) == Skip(ts, p.next);
      }
      LastScript(ts, p.next);
      assert forall r: seq<Statement> :: [p.value] + r == [s] <==> p.value == s && r == [] by {
        forall r: seq<Statement> ensures [p.value] + r == [s] <==> p.value == s && r == [] {
          assert ([p.value] + r)[0] == p.value && |[p.value] + r| == 1 + |r|;
          if p.value == s && r == [] {
            assert [p.value] + r == [s];
          }
        }
      }
    }
  }

  lemma LastScript(ts: seq<Token>, i: nat)
    requires Ends(ts) && i < |ts|
    ensures ScriptAt(ts, i) == Script([], true) <==> ts[Skip(ts, i)] == End
  {
  }

  /** The engine is reached exactly by semicolons, one statement, semicolons. */
  lemma GateExact(ts: seq<Token>, s: Statement)
    requires Stream(ts)
    ensures Gate(ts) == Ok(s)
            <==> WellFormed(s) && exists a: nat, b: nat :: ts == Semis(a) + StatementTokens(s) + Semis(b) + [End]
  {
    hide Gate, ScriptAt, StatementTokens, WellFormed, Stream;
    StreamEnds(ts);
    GateIsScript(ts, s);
    ScriptExact(ts, [s]);
    if Gate(ts) == Ok(s) {
      var gaps: seq<nat>, last: nat :| |gaps| == |[s]| && ts == Scripted([s], gaps, last);
      ScriptedOne(s, gaps, last);
      assert ts == Semis(gaps[0]) + StatementTokens(s) + Semis(last) + [End];
      assert WellFormed([s][0]);
    }
    if WellFormed(s) {
      if a: nat, b: nat :| ts == Semis(a) + StatementTokens(s) + Semis(b) + [End] {
        ScriptedOne(s, [a], b);
        assert ts == Scripted([s], [a], b);
      }
    }
  }

  /** A token after position j is neither a semicolon nor the end. */
  ghost predicate MoreAfter(ts: seq<Token>, j: nat) {
    exists k: nat :: j <= k < |ts| && ts[k] != Semicolon && ts[k] != End
  }

  /** Each refusal has its own cause.  The query is empty when nothing but semicolons comes before the end; unsupported
      when the first other token is neither SELECT nor INSERT; a parse error when no statement stands there; and more
      than one statement when one stands there and something else than semicolons follows it. */
  lemma RefusalExact(ts: seq<Token>, i: nat)
    requires Stream(ts) && i < |ts| && ts[i] != Semicolon && forall k :: 0 <= k < i ==> ts[k] == Semicolon
    ensures var verb := ts[i] == Keyword(KwSelect) || ts[i] == Keyword(KwInsert);
            && (Gate(ts) == Err(EmptyQuery) <==> ts[i] == End)
            && (Gate(ts) == Err(UnsupportedQuery) <==> ts[i] != End && !verb)
            && (Gate(ts) == Err(Refusal.ParseError) <==> verb && !exists s, j :: Spelled(ts, i, s, j))
            && (Gate(ts) == Err(MultipleStatements) <==> exists s, j :: Spelled(ts, i, s, j) && MoreAfter(ts, j))
  {
    hide StatementAt, Spelled, MoreAfter, Gate, NextAt, Skip;
    GateFrom(ts, i);
    forall s, j | Spelled(ts, i, s, j)
      ensures StatementAt(ts, i) == Some(Parsed(s, j)) && (ts[i] == Keyword(KwSelect) || ts[i] == Keyword(KwInsert))
    {
      StatementComplete(ts, i, s, j);
      StatementFirst(ts, i, s, j);
    }
    if StatementAt(ts, i).Some? {
      StatementSound(ts, i);
      MoreExact(ts, StatementAt(ts, i).value.next);
    }
  }

  /** What the gate answers when token i is the first that is not a semicolon. */
  lemma GateFrom(ts: seq<Token>, i: nat)
    requires Stream(ts) && i < |ts| && ts[i] != Semicolon && forall k :: 0 <= k < i ==> ts[k] == Semicolon
    ensures var p := StatementAt(ts, i);
            Gate(ts) ==
              if ts[i] == End then Err(EmptyQuery)
              else if ts[i] != Keyword(KwSelect) && ts[i] != Keyword(KwInsert) then Err(UnsupportedQuery)
              else if p.None? then Err(Refusal.ParseError)
              else if ts[Skip(ts, p.value.next)] == End then Ok(p.value.value)
              else Err(MultipleStatements)
  {
    hide StatementAt;
    assert Skip(ts, 0) == i && Skip(ts, i) == i;
    var p := StatementAt(ts, i);
    if p.Some? && ts[p.value.next] == Semicolon {
      MoreSkips(ts, p.value.next);
    }
  }

  lemma MoreExact(ts: seq<Token>, j: nat)
    requires Stream(ts) && j < |ts|
    ensures MoreAfter(ts, j) <==> ts[Skip(ts, j)] != End
  {
    if k: nat :| j <= k < |ts| && ts[k] != Semicolon && ts[k] != End {
      assert Skip(ts, j) <= k;
    }
  }

  lemma MoreSkips(ts: seq<Token>, j: nat)
    requires Ends(ts) && j < |ts| && ts[j] == Semicolon
    ensures Skip(ts, j + 1) == Skip(ts, j)
  {
  }

  lemma ScriptedOne(s: Statement, gaps: seq<nat>, last: nat)
    requires |gaps| == 1
    ensures Scripted([s], gaps, last) == Semis(gaps[0]) + StatementTokens(s) + Semis(last) + [End]
  {
    hide StatementTokens;
    assert [s][1..] == [] && gaps[1..] == [];
    assert Scripted([s][1..], gaps[1..], last) == Semis(last) + [End];
  }

  // ---- Texts ----

  /** The token has a spelling. */
  ghost predicate LegalToken(t: Token) {
    match t
    case Identifier(name) => IsName(name) && KeywordOf(name) == None
    case Number(d) => IsNumber(d)
    case End => false
    case _ => true
  }

  function Spelling(t: Token): (s: string) {
    match t
    case Identifier(name) => name
    case Keyword(k) => KeywordName(k)
    case Text(v) => "'" + Doubled(v) + "'"
    case Number(d) => d
    case Comma => ","
    case LParen => "("
    case RParen => ")"
    case Semicolon => ";"
    case Star => "*"
    case Equal => "="
    case End => ""
  }

  lemma SpellingSpells(t: Token)
    requires LegalToken(t)
    ensures Spells(Spelling(t), t)
  {
    if t.Keyword? {
      var n := KeywordName(t.kw);
      assert UpperCase(n) == n;
    }
  }

  ghost predicate LegalName(s: string) {
    IsName(s) && KeywordOf(s) == None
  }

  ghost predicate LegalNames(ss: seq<string>) {
    forall i :: 0 <= i < |ss| ==> LegalName(ss[i])
  }

  ghost predicate LegalLiteral(x: Literal) {
    x.NumberLiteral? ==> IsNumber(x.text)
  }

  ghost predicate LegalLiterals(xs: seq<Literal>) {
    forall i :: 0 <= i < |xs| ==> LegalLiteral(xs[i])
  }

  /** Names are identifiers and not keywords, numbers are numbers; strings are unrestricted. */
  ghost predicate LegalStatement(s: Statement) {
    match s
    case Insert(i) => LegalName(i.table) && LegalNames(i.columns) && LegalLiterals(i.values)
    case Select(q) =>
      LegalName(q.table) && (q.all || LegalNames(q.columns))
      && (q.filter.Where? ==> LegalName(q.filter.column) && LegalLiteral(q.filter.value))
  }

  ghost predicate LegalTokens(ts: seq<Token>) {
    forall i :: 0 <= i < |ts| ==> LegalToken(ts[i])
  }

  lemma LegalSplit(xs: seq<Token>, ys: seq<Token>)
    ensures LegalTokens(xs + ys) <==> LegalTokens(xs) && LegalTokens(ys)
  {
    if LegalTokens(xs + ys) {
      assert forall i :: 0 <= i < |xs| ==> xs[i] == (xs + ys)[i];
      assert forall i :: 0 <= i < |ys| ==> ys[i] == (xs + ys)[|xs| + i];
    }
  }

  lemma {:induction false} LegalListed<T(!new)>(xs: seq<T>, spell: T -> Token)
    ensures LegalTokens(Listed(xs, spell)) <==> forall i :: 0 <= i < |xs| ==> LegalToken(spell(xs[i]))
    decreases |xs|
  {
    hide LegalToken;
    if |xs| > 1 {
      LegalListed(xs[1..], spell);
      LegalSplit([spell(xs[0]), Comma], Listed(xs[1..], spell));
      LegalSplit([spell(xs[0])], [Comma]);
      assert [spell(xs[0]), Comma] == [spell(xs[0])] + [Comma];
      CommaLegal();
      assert LegalTokens([spell(xs[0])]) <==> LegalToken(spell(xs[0])) by {
        assert [spell(xs[0])][0] == spell(xs[0]);
      }
      assert LegalTokens([Comma]);
      assert forall i :: 0 < i < |xs| ==> xs[i] == xs[1..][i - 1];
    } else if |xs| == 1 {
      assert Listed(xs, spell)[0] == spell(xs[0]);
    }
  }

  lemma CommaLegal()
    ensures LegalToken(Comma)
  {
  }

  lemma LegalNameList(names: seq<string>)
    ensures LegalTokens(Listed(names, NameToken)) <==> LegalNames(names)
  {
    LegalListed(names, NameToken);
    assert forall i :: 0 <= i < |names| ==> (LegalToken(NameToken(names[i])) <==> LegalName(names[i]));
  }

  lemma LegalLiteralList(xs: seq<Literal>)
    ensures LegalTokens(Listed(xs, LiteralToken)) <==> LegalLiterals(xs)
  {
    LegalListed(xs, LiteralToken);
    assert forall i :: 0 <= i < |xs| ==> (LegalToken(LiteralToken(xs[i])) <==> LegalLiteral(xs[i]));
  }

  lemma LegalInsert(s: InsertStatement)
    ensures LegalTokens(InsertTokens(s)) <==> LegalStatement(Insert(s))
  {
    hide Listed;
    var head := [Keyword(KwInto), Identifier(s.table)];
    var columns, values := Listed(s.columns, NameToken), Listed(s.values, LiteralToken);
    LegalSplit(head + ColumnTokens(s.columns), ValueTokens(s.values));
    LegalSplit(head, ColumnTokens(s.columns));
    LegalTwo(Keyword(KwInto), Identifier(s.table));
    LegalNameList(s.columns);
    LegalSplit([LParen] + columns, [RParen]);
    LegalSplit([LParen], columns);
    LegalLiteralList(s.values);
    LegalSplit([Keyword(KwValues), LParen] + values, [RParen]);
    LegalSplit([Keyword(KwValues), LParen], values);
  }

  lemma LegalTwo(t: Token, u: Token)
    ensures LegalTokens([t, u]) <==> LegalToken(t) && LegalToken(u)
  {
    assert [t, u][0] == t && [t, u][1] == u;
  }

  lemma LegalWhere(w: WhereClause)
    ensures LegalTokens(WhereTokens(w))
            <==> (w.Where? ==> LegalName(w.column) && LegalLiteral(w.value))
  {
    if w.Where? {
      var ts := WhereTokens(w);
      assert ts[1] == Identifier(w.column) && ts[3] == LiteralToken(w.value);
    }
  }

  lemma LegalSelect(s: SelectStatement)
    ensures LegalTokens(SelectTokens(s)) <==> LegalStatement(Select(s))
  {
    hide Listed;
    var middle := [Keyword(KwFrom), Identifier(s.table)];
    LegalSplit(ProjectionTokens(s) + middle, WhereTokens(s.filter));
    LegalSplit(ProjectionTokens(s), middle);
    LegalTwo(Keyword(KwFrom), Identifier(s.table));
    LegalNameList(s.columns);
    LegalWhere(s.filter);
  }

  /** A statement can be spelled exactly when its names and numbers can. */
  lemma LegalTokensExact(s: Statement)
    ensures LegalTokens(StatementTokens(s)) <==> LegalStatement(s)
  {
    hide LegalStatement, InsertTokens, SelectTokens;
    match s {
      case Insert(i) => LegalInsert(i); LegalSplit([Keyword(KwInsert)], InsertTokens(i));
      case Select(q) => LegalSelect(q); LegalSplit([Keyword(KwSelect)], SelectTokens(q));
    }
  }

  // ---- Printing and reading back ----

  /** Tokens spelled in the usual way, one space apart. */
  function Spaced(ts: seq<Token>): (ps: seq<Piece>)
    ensures |ps| == |ts|
    ensures forall i :: 0 <= i < |ts| ==> ps[i] == Piece(if i == 0 then "" else " ", Spelling(ts[i]), ts[i])
  {
    seq(|ts|, i requires 0 <= i < |ts| => Piece(if i == 0 then "" else " ", Spelling(ts[i]), ts[i]))
  }

  function Print(ts: seq<Token>): (s: string) {
    Laid(Spaced(ts), "")
  }

  lemma PrintLexes(ts: seq<Token>)
    requires LegalTokens(ts)
    ensures Lex(Print(ts)) == Some(ts + [End])
  {
    hide Spells, LegalToken, Separate, Lex, Laid;
    var ps := Spaced(ts);
    forall i | 0 <= i < |ps| ensures PieceOk(ps[i]) {
      SpellingSpells(ts[i]);
    }
    assert LayoutOk(ps, "");
    LexLaid(ps, "");
    assert TokensOf(ps) == ts;
  }

  ghost predicate AllLegal(ss: seq<Statement>) {
    forall i :: 0 <= i < |ss| ==> LegalStatement(ss[i])
  }

  /** The tokens of a script without the final `End`. */
  function ScriptTokens(ss: seq<Statement>, gaps: seq<nat>, last: nat): (ts: seq<Token>)
    requires |gaps| == |ss|
    ensures ts + [End] == Scripted(ss, gaps, last)
  {
    var ts := Scripted(ss, gaps, last);
    assert ts == ts[..|ts| - 1] + [ts[|ts| - 1]];
    ts[..|ts| - 1]
  }

  lemma {:induction false} ScriptTokensLegal(ss: seq<Statement>, gaps: seq<nat>, last: nat)
    requires |gaps| == |ss| && AllLegal(ss)
    ensures LegalTokens(ScriptTokens(ss, gaps, last))
    decreases |ss|
  {
    hide StatementTokens, LegalStatement;
    if ss == [] {
      assert ScriptTokens(ss, gaps, last) == Semis(last);
    } else {
      var rest := ScriptTokens(ss[1..], gaps[1..], last);
      ScriptTokensLegal(ss[1..], gaps[1..], last);
      LegalTokensExact(ss[0]);
      LegalSplit(StatementTokens(ss[0]), rest);
      LegalSplit(Semis(gaps[0]), StatementTokens(ss[0]) + rest);
      assert LegalTokens(Semis(gaps[0]));
      ScriptTokensCons(ss, gaps, last);
    }
  }

  lemma ScriptTokensCons(ss: seq<Statement>, gaps: seq<nat>, last: nat)
    requires |gaps| == |ss| && ss != []
    ensures ScriptTokens(ss, gaps, last)
            == Semis(gaps[0]) + (StatementTokens(ss[0]) + ScriptTokens(ss[1..], gaps[1..], last))
  {
    hide StatementTokens;
    var rest := ScriptTokens(ss[1..], gaps[1..], last);
    var ts := Semis(gaps[0]) + (StatementTokens(ss[0]) + rest);
    assert Scripted(ss, gaps, last) == ts + [End];
    assert (ts + [End])[..|ts|] == ts;
  }

  ghost function ReadScript(sql: string): (r: Option<Script>) {
    match Lex(sql)
    case None => None
    case Some(ts) => LexStream(sql); Some(ScriptAt(ts, 0))
  }

  lemma ScriptedReads(ss: seq<Statement>, gaps: seq<nat>, last: nat)
    requires |gaps| == |ss| && AllWellFormed(ss)
    ensures Ends(Scripted(ss, gaps, last)) && ScriptAt(Scripted(ss, gaps, last), 0) == Script(ss, true)
  {
    hide Scripted, ScriptAt, AllWellFormed;
    var ts := Scripted(ss, gaps, last);
    assert ts[0..0 + |ts|] == ts;
    ScriptComplete(ts, 0, ss, gaps, last);
  }

  /** Statements written down in any layout, with any number of semicolons around them, are read back. */
  lemma AnyLayoutReadsBack(ps: seq<Piece>, space: string, ss: seq<Statement>, gaps: seq<nat>, last: nat)
    requires LayoutOk(ps, space) && |gaps| == |ss| && AllWellFormed(ss)
    requires TokensOf(ps) == ScriptTokens(ss, gaps, last)
    ensures ReadScript(Laid(ps, space)) == Some(Script(ss, true))
  {
    hide LayoutOk, Laid, Lex, ScriptAt, Stream, AllWellFormed;
    var text := Laid(ps, space);
    LexLaid(ps, space);
    LexStream(text);
    ScriptedReads(ss, gaps, last);
  }

  /** Printing and reading: a list of legal statements comes back as the same list. */
  lemma ScriptRoundTrip(ss: seq<Statement>, gaps: seq<nat>, last: nat)
    requires |gaps| == |ss| && AllWellFormed(ss) && AllLegal(ss)
    ensures ReadScript(Print(ScriptTokens(ss, gaps, last))) == Some(Script(ss, true))
  {
    hide Print, Lex, ScriptAt, Stream, AllWellFormed, AllLegal;
    var ts := ScriptTokens(ss, gaps, last);
    ScriptTokensLegal(ss, gaps, last);
    PrintLexes(ts);
    LexStream(Print(ts));
    ScriptedReads(ss, gaps, last);
  }

  lemma StatementRoundTrip(s: Statement)
    requires WellFormed(s) && LegalStatement(s)
    ensures GateText(Print(StatementTokens(s))) == Ok(s)
  {
    hide Print, Lex, Gate, Stream, StatementTokens, WellFormed, LegalStatement;
    var ts := StatementTokens(s);
    LegalTokensExact(s);
    PrintLexes(ts);
    LexStream(Print(ts));
    GateExact(ts + [End], s);
    assert ts + [End] == Semis(0) + ts + Semis(0) + [End];
  }

  lemma {:induction false} LexedLegal(s: string)
    requires Lex(s).Some?
    ensures Lex(s).value != [] && LegalTokens(Lex(s).value[..|Lex(s).value| - 1])
    decreases |s|
  {
    LexSound(s, "");
    var ps := Pieces(s, "");
    var ts := Lex(s).value;
    assert ts[..|ts| - 1] == TokensOf(ps);
    forall i | 0 <= i < |ps| ensures LegalToken(ps[i].token) {
      assert PieceOk(ps[i]);
    }
  }

  /** The statements that some request can bring to the engine. */
  lemma AdmissibleExact(s: Statement)
    ensures (exists sql :: GateText(sql) == Ok(s)) <==> WellFormed(s) && LegalStatement(s)
  {
    hide Lex, Gate, Stream, StatementTokens, WellFormed, LegalStatement;
    if sql :| GateText(sql) == Ok(s) {
      var ts := Lex(sql).value;
      LexStream(sql);
      GateExact(ts, s);
      var a: nat, b: nat :| ts == Semis(a) + StatementTokens(s) + Semis(b) + [End];
      LexedLegal(sql);
      assert ts[..|ts| - 1] == Semis(a) + StatementTokens(s) + Semis(b);
      LegalSplit(Semis(a) + StatementTokens(s), Semis(b));
      LegalSplit(Semis(a), StatementTokens(s));
      LegalTokensExact(s);
    }
    if WellFormed(s) && LegalStatement(s) {
      StatementRoundTrip(s);
    }
  }
}
