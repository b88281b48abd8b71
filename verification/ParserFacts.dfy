/** The parser reads exactly the token lists that spell statements. */
module ParserFacts {
  import opened Common
  import opened Lexer
  import opened Ast
  import opened Parser

  // ---- The grammar, written as printing ----

  function NameToken(s: string): (t: Token) {
    Identifier(s)
  }

  function LiteralToken(x: Literal): (t: Token) {
    match x
    case StringLiteral(v) => Text(v)
    case NumberLiteral(d) => Number(d)
  }

  function Listed<T>(xs: seq<T>, spell: T -> Token): (ts: seq<Token>)
    ensures |ts| == if xs == [] then 0 else 2 * |xs| - 1
  {
    if xs == [] then [] else if |xs| == 1 then [spell(xs[0])] else [spell(xs[0]), Comma] + Listed(xs[1..], spell)
  }

  function ColumnTokens(columns: seq<string>): (ts: seq<Token>) {
    if columns == [] then [] else [LParen] + Listed(columns, NameToken) + [RParen]
  }

  function ValueTokens(values: seq<Literal>): (ts: seq<Token>) {
    [Keyword(KwValues), LParen] + Listed(values, LiteralToken) + [RParen]
  }

  function InsertTokens(s: InsertStatement): (ts: seq<Token>) {
    [Keyword(KwInto), Identifier(s.table)] + ColumnTokens(s.columns) + ValueTokens(s.values)
  }

  function ProjectionTokens(s: SelectStatement): (ts: seq<Token>) {
    if s.all then [Star] else Listed(s.columns, NameToken)
  }

  function WhereTokens(w: WhereClause): (ts: seq<Token>) {
    match w
    case NoWhere => []
    case Where(column, value) => [Keyword(KwWhere), Identifier(column), Equal, LiteralToken(value)]
  }

  function SelectTokens(s: SelectStatement): (ts: seq<Token>) {
    ProjectionTokens(s) + [Keyword(KwFrom), Identifier(s.table)] + WhereTokens(s.filter)
  }

  function StatementTokens(s: Statement): (ts: seq<Token>)
    ensures ts != [] && (ts[0] == Keyword(KwInsert) || ts[0] == Keyword(KwSelect))
  {
    match s
    case Insert(i) => [Keyword(KwInsert)] + InsertTokens(i)
    case Select(q) => [Keyword(KwSelect)] + SelectTokens(q)
  }

  /** The statements that have a spelling of their own. */
  predicate WellFormed(s: Statement) {
    match s
    case Insert(i) => i.values != []
    case Select(q) => q.all <==> q.columns == []
  }

  /** The statement could go on with WHERE. */
  predicate Open(s: Statement) {
    s.Select? && s.select.filter.NoWhere?
  }

  // ---- Tokens in place ----

  ghost predicate At(ts: seq<Token>, i: nat, xs: seq<Token>) {
    i + |xs| <= |ts| && ts[i..i + |xs|] == xs
  }

  lemma AtSplit(ts: seq<Token>, i: nat, xs: seq<Token>, ys: seq<Token>)
    ensures At(ts, i, xs + ys) <==> At(ts, i, xs) && At(ts, i + |xs|, ys)
  {
    if At(ts, i, xs + ys) {
      assert ts[i..i + |xs|] == ts[i..i + |xs + ys|][..|xs|];
      assert ts[i + |xs|..i + |xs| + |ys|] == ts[i..i + |xs + ys|][|xs|..];
    }
    if At(ts, i, xs) && At(ts, i + |xs|, ys) {
      assert ts[i..i + |xs + ys|] == ts[i..i + |xs|] + ts[i + |xs|..i + |xs| + |ys|];
    }
  }

  lemma AtOne(ts: seq<Token>, i: nat, t: Token)
    ensures At(ts, i, [t]) <==> i < |ts| && ts[i] == t
  {
    if i < |ts| {
      assert ts[i..i + 1] == [ts[i]];
    }
  }

  lemma AtTwo(ts: seq<Token>, i: nat, t: Token, u: Token)
    ensures At(ts, i, [t, u]) <==> i + 1 < |ts| && ts[i] == t && ts[i + 1] == u
  {
    if i + 1 < |ts| {
      assert ts[i..i + 2] == [ts[i], ts[i + 1]];
    }
  }

  lemma AtNone(ts: seq<Token>, i: nat)
    requires i <= |ts|
    ensures At(ts, i, [])
  {
  }

  // ---- Lists ----

  ghost predicate Inverse<T(!new)>(of: Token -> Option<T>, spell: T -> Token) {
    && (forall t: Token :: of(t).Some? ==> t == spell(of(t).value))
    && (forall x: T :: of(spell(x)) == Some(x))
  }

  lemma ListCons<T>(ts: seq<Token>, i: nat, x: T, xs: seq<T>, spell: T -> Token)
    requires xs != []
    ensures At(ts, i, Listed([x] + xs, spell))
            <==> i + 1 < |ts| && ts[i] == spell(x) && ts[i + 1] == Comma && At(ts, i + 2, Listed(xs, spell))
  {
    assert ([x] + xs)[1..] == xs;
    AtSplit(ts, i, [spell(x), Comma], Listed(xs, spell));
    AtTwo(ts, i, spell(x), Comma);
  }

  lemma {:induction false} ListSound<T(!new)>(ts: seq<Token>, i: nat, of: Token -> Option<T>, spell: T -> Token)
    requires Ends(ts) && i < |ts| && Inverse(of, spell) && of(End) == None && of(Comma) == None
    requires ListAt(ts, i, of).Some?
    ensures var p := ListAt(ts, i, of).value;
            p.value != [] && At(ts, i, Listed(p.value, spell)) && p.next == i + |Listed(p.value, spell)|
            && ts[p.next] != Comma
    decreases |ts| - i
  {
    hide At;
    var x := of(ts[i]).value;
    if ts[i + 1] == Comma {
      ListSound(ts, i + 2, of, spell);
      ListCons(ts, i, x, ListAt(ts, i + 2, of).value.value, spell);
    } else {
      AtOne(ts, i, spell(x));
    }
  }

  lemma {:induction false} ListComplete<T(!new)>(
    ts: seq<Token>, i: nat, xs: seq<T>, of: Token -> Option<T>, spell: T -> Token)
    requires Ends(ts) && i < |ts| && Inverse(of, spell) && of(End) == None && of(Comma) == None
    requires xs != [] && At(ts, i, Listed(xs, spell))
    requires i + |Listed(xs, spell)| < |ts| && ts[i + |Listed(xs, spell)|] != Comma
    ensures ListAt(ts, i, of) == Some(Parsed(xs, i + |Listed(xs, spell)|))
    decreases |xs|
  {
    hide At;
    assert of(spell(xs[0])) == Some(xs[0]);
    if |xs| == 1 {
      AtOne(ts, i, spell(xs[0]));
      assert xs == [xs[0]];
    } else {
      assert xs == [xs[0]] + xs[1..];
      ListCons(ts, i, xs[0], xs[1..], spell);
      ListComplete(ts, i + 2, xs[1..], of, spell);
    }
  }

  lemma NamesInvert()
    ensures Inverse(NameOf, NameToken) && NameOf(End) == None && NameOf(Comma) == None
  {
  }

  lemma LiteralsInvert()
    ensures Inverse(LiteralOf, LiteralToken) && LiteralOf(End) == None && LiteralOf(Comma) == None
  {
  }

  // ---- Parts of a statement: each is read exactly where its tokens stand ----

  lemma ColumnsSound(ts: seq<Token>, i: nat)
    requires Ends(ts) && i < |ts| && ColumnsAt(ts, i).Some?
    ensures var p := ColumnsAt(ts, i).value;
            At(ts, i, ColumnTokens(p.value)) && p.next == i + |ColumnTokens(p.value)|
  {
    hide At, ListAt, Inverse, Listed;
    if ts[i] == LParen {
      NamesInvert();
      ListSound(ts, i + 1, NameOf, NameToken);
      var xs := Listed(ColumnsAt(ts, i).value.value, NameToken);
      AtOne(ts, i, LParen);
      AtSplit(ts, i, [LParen], xs);
      AtOne(ts, i + 1 + |xs|, RParen);
      AtSplit(ts, i, [LParen] + xs, [RParen]);
    } else {
      AtNone(ts, i);
    }
  }

  lemma ColumnsComplete(ts: seq<Token>, i: nat, columns: seq<string>)
    requires Ends(ts) && i < |ts| && At(ts, i, ColumnTokens(columns))
    requires columns == [] ==> ts[i] != LParen
    ensures ColumnsAt(ts, i) == Some(Parsed(columns, i + |ColumnTokens(columns)|))
  {
    hide At, ListAt, Inverse, Listed;
    if columns != [] {
      var xs := Listed(columns, NameToken);
      AtSplit(ts, i, [LParen] + xs, [RParen]);
      AtSplit(ts, i, [LParen], xs);
      AtOne(ts, i, LParen);
      AtOne(ts, i + 1 + |xs|, RParen);
      NamesInvert();
      ListComplete(ts, i + 1, columns, NameOf, NameToken);
    }
  }

  lemma ValuesSound(ts: seq<Token>, i: nat)
    requires Ends(ts) && i < |ts| && ValuesAt(ts, i).Some?
    ensures var p := ValuesAt(ts, i).value;
            p.value != [] && At(ts, i, ValueTokens(p.value)) && p.next == i + |ValueTokens(p.value)|
  {
    hide At, ListAt, Inverse, Listed;
    LiteralsInvert();
    ListSound(ts, i + 2, LiteralOf, LiteralToken);
    var xs := Listed(ValuesAt(ts, i).value.value, LiteralToken);
    var head := [Keyword(KwValues), LParen];
    AtTwo(ts, i, Keyword(KwValues), LParen);
    AtSplit(ts, i, head, xs);
    AtOne(ts, i + 2 + |xs|, RParen);
    AtSplit(ts, i, head + xs, [RParen]);
  }

  lemma ValuesComplete(ts: seq<Token>, i: nat, values: seq<Literal>)
    requires Ends(ts) && i < |ts| && values != [] && At(ts, i, ValueTokens(values))
    ensures ValuesAt(ts, i) == Some(Parsed(values, i + |ValueTokens(values)|))
  {
    hide At, ListAt, Inverse, Listed;
    var xs := Listed(values, LiteralToken);
    var head := [Keyword(KwValues), LParen];
    AtSplit(ts, i, head + xs, [RParen]);
    AtSplit(ts, i, head, xs);
    AtTwo(ts, i, Keyword(KwValues), LParen);
    AtOne(ts, i + 2 + |xs|, RParen);
    LiteralsInvert();
    ListComplete(ts, i + 2, values, LiteralOf, LiteralToken);
  }

  lemma InsertSound(ts: seq<Token>, i: nat)
    requires Ends(ts) && i < |ts| && InsertAt(ts, i).Some?
    ensures var p := InsertAt(ts, i).value;
            p.value.values != [] && At(ts, i, InsertTokens(p.value)) && p.next == i + |InsertTokens(p.value)|
  {
    hide At, ColumnsAt, ValuesAt, ColumnTokens, ValueTokens;
    var s := InsertAt(ts, i).value.value;
    var head := [Keyword(KwInto), Identifier(s.table)];
    ColumnsSound(ts, i + 2);
    ValuesSound(ts, ColumnsAt(ts, i + 2).value.next);
    AtTwo(ts, i, Keyword(KwInto), Identifier(s.table));
    AtSplit(ts, i, head, ColumnTokens(s.columns));
    AtSplit(ts, i, head + ColumnTokens(s.columns), ValueTokens(s.values));
  }

  lemma InsertComplete(ts: seq<Token>, i: nat, s: InsertStatement)
    requires Ends(ts) && i < |ts| && s.values != [] && At(ts, i, InsertTokens(s))
    ensures InsertAt(ts, i) == Some(Parsed(s, i + |InsertTokens(s)|))
  {
    hide At, ColumnsAt, ValuesAt, ColumnTokens, ValueTokens;
    var head := [Keyword(KwInto), Identifier(s.table)];
    var k := i + 2 + |ColumnTokens(s.columns)|;
    AtSplit(ts, i, head + ColumnTokens(s.columns), ValueTokens(s.values));
    AtSplit(ts, i, head, ColumnTokens(s.columns));
    AtTwo(ts, i, Keyword(KwInto), Identifier(s.table));
    ValuesStart(ts, k, s.values);
    ColumnsComplete(ts, i + 2, s.columns) by {
      if s.columns == [] {
        assert ColumnTokens([]) == [] by { NoColumnTokens(); }
      }
    }
    ValuesComplete(ts, k, s.values);
  }

  lemma NoColumnTokens()
    ensures ColumnTokens([]) == []
  {
  }

  lemma ValuesStart(ts: seq<Token>, i: nat, values: seq<Literal>)
    requires At(ts, i, ValueTokens(values))
    ensures i < |ts| && ts[i] == Keyword(KwValues)
  {
    assert ts[i..i + |ValueTokens(values)|][0] == ValueTokens(values)[0];
  }

  lemma ProjectionSound(ts: seq<Token>, i: nat, s: SelectStatement)
    requires Ends(ts) && i < |ts| && ProjectionAt(ts, i).Some?
    requires s.columns == ProjectionAt(ts, i).value.value && s.all == (ts[i] == Star)
    ensures (s.all <==> s.columns == []) && At(ts, i, ProjectionTokens(s))
    ensures ProjectionAt(ts, i).value.next == i + |ProjectionTokens(s)|
  {
    hide At, ListAt, Inverse, Listed;
    if s.all {
      AtOne(ts, i, Star);
    } else {
      NamesInvert();
      ListSound(ts, i, NameOf, NameToken);
    }
  }

  lemma ProjectionComplete(ts: seq<Token>, i: nat, s: SelectStatement)
    requires Ends(ts) && i < |ts| && (s.all <==> s.columns == []) && At(ts, i, ProjectionTokens(s))
    requires i + |ProjectionTokens(s)| < |ts| && ts[i + |ProjectionTokens(s)|] != Comma
    ensures ProjectionAt(ts, i) == Some(Parsed(s.columns, i + |ProjectionTokens(s)|)) && s.all == (ts[i] == Star)
  {
    hide At, ListAt, Inverse;
    if s.all {
      AtOne(ts, i, Star);
    } else {
      NamesInvert();
      ListComplete(ts, i, s.columns, NameOf, NameToken);
      ListStart(ts, i, s.columns);
    }
  }

  lemma ListStart(ts: seq<Token>, i: nat, columns: seq<string>)
    requires columns != [] && At(ts, i, Listed(columns, NameToken))
    ensures i < |ts| && ts[i].Identifier?
  {
    assert ts[i..i + |Listed(columns, NameToken)|][0] == Listed(columns, NameToken)[0];
  }

  lemma WhereSound(ts: seq<Token>, i: nat)
    requires Ends(ts) && i < |ts| && WhereAt(ts, i).Some?
    ensures var p := WhereAt(ts, i).value;
            At(ts, i, WhereTokens(p.value)) && p.next == i + |WhereTokens(p.value)|
            && (p.value.NoWhere? ==> ts[p.next] != Keyword(KwWhere))
  {
    if ts[i] == Keyword(KwWhere) {
      assert ts[i..i + 4] == [ts[i], ts[i + 1], ts[i + 2], ts[i + 3]];
    }
  }

  lemma WhereComplete(ts: seq<Token>, i: nat, w: WhereClause)
    requires Ends(ts) && At(ts, i, WhereTokens(w)) && i + |WhereTokens(w)| < |ts|
    requires w.NoWhere? ==> ts[i] != Keyword(KwWhere)
    ensures WhereAt(ts, i) == Some(Parsed(w, i + |WhereTokens(w)|))
  {
    if w.Where? {
      assert ts[i..i + 4] == [ts[i], ts[i + 1], ts[i + 2], ts[i + 3]];
    }
  }

  lemma SelectSound(ts: seq<Token>, i: nat)
    requires Ends(ts) && i < |ts| && SelectAt(ts, i).Some?
    ensures var p := SelectAt(ts, i).value;
            && (p.value.all <==> p.value.columns == [])
            && At(ts, i, SelectTokens(p.value)) && p.next == i + |SelectTokens(p.value)|
            && (p.value.filter.NoWhere? ==> ts[p.next] != Keyword(KwWhere))
  {
    hide At, ProjectionAt, WhereAt, ProjectionTokens, WhereTokens;
    var s := SelectAt(ts, i).value.value;
    ProjectionSound(ts, i, s);
    var k := i + |ProjectionTokens(s)|;
    var middle := [Keyword(KwFrom), Identifier(s.table)];
    WhereSound(ts, k + 2);
    AtTwo(ts, k, Keyword(KwFrom), Identifier(s.table));
    AtSplit(ts, i, ProjectionTokens(s), middle);
    AtSplit(ts, i, ProjectionTokens(s) + middle, WhereTokens(s.filter));
  }

  lemma SelectComplete(ts: seq<Token>, i: nat, s: SelectStatement)
    requires Ends(ts) && i < |ts| && (s.all <==> s.columns == []) && At(ts, i, SelectTokens(s))
    requires i + |SelectTokens(s)| < |ts|
    requires s.filter.NoWhere? ==> ts[i + |SelectTokens(s)|] != Keyword(KwWhere)
    ensures SelectAt(ts, i) == Some(Parsed(s, i + |SelectTokens(s)|))
  {
    hide At, ProjectionAt, WhereAt, ProjectionTokens;
    var middle := [Keyword(KwFrom), Identifier(s.table)];
    var k := i + |ProjectionTokens(s)|;
    AtSplit(ts, i, ProjectionTokens(s) + middle, WhereTokens(s.filter));
    AtSplit(ts, i, ProjectionTokens(s), middle);
    AtTwo(ts, k, Keyword(KwFrom), Identifier(s.table));
    ProjectionComplete(ts, i, s);
    WhereComplete(ts, k + 2, s.filter);
  }

  // ---- Statements ----

  /** A statement is read from i up to j. */
  ghost predicate Spelled(ts: seq<Token>, i: nat, s: Statement, j: nat) {
    && WellFormed(s) && At(ts, i, StatementTokens(s)) && j == i + |StatementTokens(s)| && j < |ts|
    && (Open(s) ==> ts[j] != Keyword(KwWhere))
  }

  lemma StatementSound(ts: seq<Token>, i: nat)
    requires Ends(ts) && i < |ts| && StatementAt(ts, i).Some?
    ensures Spelled(ts, i, StatementAt(ts, i).value.value, StatementAt(ts, i).value.next)
  {
    hide At, InsertAt, SelectAt, InsertTokens, SelectTokens;
    AtOne(ts, i, ts[i]);
    if ts[i] == Keyword(KwInsert) {
      InsertSound(ts, i + 1);
      AtSplit(ts, i, [ts[i]], InsertTokens(InsertAt(ts, i + 1).value.value));
    } else {
      SelectSound(ts, i + 1);
      AtSplit(ts, i, [ts[i]], SelectTokens(SelectAt(ts, i + 1).value.value));
    }
  }

  lemma StatementComplete(ts: seq<Token>, i: nat, s: Statement, j: nat)
    requires Ends(ts) && i < |ts| && Spelled(ts, i, s, j)
    ensures StatementAt(ts, i) == Some(Parsed(s, j))
  {
    hide At, InsertAt, SelectAt, InsertTokens, SelectTokens;
    match s {
      case Insert(x) =>
        AtSplit(ts, i, [Keyword(KwInsert)], InsertTokens(x));
        AtOne(ts, i, Keyword(KwInsert));
        InsertComplete(ts, i + 1, x);
      case Select(x) =>
        AtSplit(ts, i, [Keyword(KwSelect)], SelectTokens(x));
        AtOne(ts, i, Keyword(KwSelect));
        SelectComplete(ts, i + 1, x);
    }
  }

  /** The parser accepts at i exactly the token lists that spell a statement, and returns that statement. */
  lemma StatementExact(ts: seq<Token>, i: nat, s: Statement, j: nat)
    requires Ends(ts) && i < |ts|
    ensures StatementAt(ts, i) == Some(Parsed(s, j)) <==> Spelled(ts, i, s, j)
  {
    hide Spelled, StatementAt;
    if StatementAt(ts, i) == Some(Parsed(s, j)) {
      StatementSound(ts, i);
    }
    if Spelled(ts, i, s, j) {
      StatementComplete(ts, i, s, j);
    }
  }

  /** Two different statements never have the same spelling. */
  lemma SpellingInjective(s: Statement, t: Statement)
    requires WellFormed(s) && WellFormed(t) && StatementTokens(s) == StatementTokens(t)
    ensures s == t
  {
    hide StatementAt, WellFormed, StatementTokens;
    var xs := StatementTokens(s);
    var ts := xs + [End];
    assert ts[0..0 + |xs|] == xs;
    assert Spelled(ts, 0, s, |xs|) && Spelled(ts, 0, t, |xs|);
    StatementComplete(ts, 0, s, |xs|);
    StatementComplete(ts, 0, t, |xs|);
  }
}
