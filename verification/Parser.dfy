/** The recursive-descent parser of src/parser.c and the two loops that drive it. */
module Parser {
  import opened Common
  import opened Lexer
  import opened Ast

  /** What the tokenizer delivers: the parser stops at `End` and so never leaves the array. */
  predicate Ends(ts: seq<Token>) {
    ts != [] && ts[|ts| - 1] == End
  }

  datatype Parsed<T> = Parsed(value: T, next: nat)

  predicate Within<T>(ts: seq<Token>, i: nat, r: Option<Parsed<T>>) {
    r.Some? ==> i <= r.value.next < |ts|
  }

  // ---- The specification: what is read from position i ----

  function NameOf(t: Token): (r: Option<string>) {
    match t
    case Identifier(name) => Some(name)
    case _ => None
  }

  function LiteralOf(t: Token): (r: Option<Literal>) {
    match t
    case Text(v) => Some(StringLiteral(v))
    case Number(d) => Some(NumberLiteral(d))
    case _ => None
  }

  function ConsParsed<T>(x: T, r: Option<Parsed<seq<T>>>): (s: Option<Parsed<seq<T>>>) {
    if r.None? then None else Some(Parsed([x] + r.value.value, r.value.next))
  }

  /** One or more items separated by commas. */
  function ListAt<T>(ts: seq<Token>, i: nat, of: Token -> Option<T>): (r: Option<Parsed<seq<T>>>)
    requires Ends(ts) && i < |ts| && of(End) == None && of(Comma) == None
    ensures Within(ts, i, r)
    decreases |ts| - i
  {
    match of(ts[i])
    case None => None
    case Some(x) =>
      if ts[i + 1] == Comma then ConsParsed(x, ListAt(ts, i + 2, of)) else Some(Parsed([x], i + 1))
  }

  function ColumnsAt(ts: seq<Token>, i: nat): (r: Option<Parsed<seq<string>>>)
    requires Ends(ts) && i < |ts|
    ensures Within(ts, i, r)
  {
    if ts[i] != LParen then Some(Parsed([], i))
    else match ListAt(ts, i + 1, NameOf)
      case None => None
      case Some(p) => if ts[p.next] == RParen then Some(Parsed(p.value, p.next + 1)) else None
  }

  function ValuesAt(ts: seq<Token>, i: nat): (r: Option<Parsed<seq<Literal>>>)
    requires Ends(ts) && i < |ts|
    ensures Within(ts, i, r)
  {
    if ts[i] != Keyword(KwValues) || ts[i + 1] != LParen then None
    else match ListAt(ts, i + 2, LiteralOf)
      case None => None
      case Some(p) => if ts[p.next] == RParen then Some(Parsed(p.value, p.next + 1)) else None
  }

  /** After the keyword INSERT. */
  function InsertAt(ts: seq<Token>, i: nat): (r: Option<Parsed<InsertStatement>>)
    requires Ends(ts) && i < |ts|
    ensures Within(ts, i, r)
  {
    if ts[i] != Keyword(KwInto) || !ts[i + 1].Identifier? then None
    else match ColumnsAt(ts, i + 2)
      case None => None
      case Some(columns) =>
        match ValuesAt(ts, columns.next)
        case None => None
        case Some(values) =>
          Some(Parsed(InsertStatement(ts[i + 1].name, columns.value, values.value), values.next))
  }

  function ProjectionAt(ts: seq<Token>, i: nat): (r: Option<Parsed<seq<string>>>)
    requires Ends(ts) && i < |ts|
    ensures Within(ts, i, r)
  {
    if ts[i] == Star then Some(Parsed([], i + 1)) else ListAt(ts, i, NameOf)
  }

  function WhereAt(ts: seq<Token>, i: nat): (r: Option<Parsed<WhereClause>>)
    requires Ends(ts) && i < |ts|
    ensures Within(ts, i, r)
  {
    if ts[i] != Keyword(KwWhere) then Some(Parsed(NoWhere, i))
    else if !ts[i + 1].Identifier? || ts[i + 2] != Equal then None
    else match LiteralOf(ts[i + 3])
      case None => None
      case Some(x) => Some(Parsed(Where(ts[i + 1].name, x), i + 4))
  }

  /** After the keyword SELECT. */
  function SelectAt(ts: seq<Token>, i: nat): (r: Option<Parsed<SelectStatement>>)
    requires Ends(ts) && i < |ts|
    ensures Within(ts, i, r)
  {
    match ProjectionAt(ts, i)
    case None => None
    case Some(p) =>
      if ts[p.next] != Keyword(KwFrom) || !ts[p.next + 1].Identifier? then None
      else match WhereAt(ts, p.next + 2)
        case None => None
        case Some(w) =>
          Some(Parsed(SelectStatement(ts[p.next + 1].name, ts[i] == Star, p.value, w.value), w.next))
  }

  function StatementAt(ts: seq<Token>, i: nat): (r: Option<Parsed<Statement>>)
    requires Ends(ts) && i < |ts|
    ensures Within(ts, i + 1, r)
  {
    match ts[i]
    case Keyword(KwInsert) =>
      (match InsertAt(ts, i + 1) case None => None case Some(p) => Some(Parsed(Insert(p.value), p.next)))
    case Keyword(KwSelect) =>
      (match SelectAt(ts, i + 1) case None => None case Some(p) => Some(Parsed(Select(p.value), p.next)))
    case _ => None
  }

  /** The first position from i that is not a semicolon. */
  function Skip(ts: seq<Token>, i: nat): (j: nat)
    requires Ends(ts) && i < |ts|
    ensures i <= j < |ts| && ts[j] != Semicolon
    ensures forall k :: i <= k < j ==> ts[k] == Semicolon
    decreases |ts| - i
  {
    if ts[i] == Semicolon then Skip(ts, i + 1) else i
  }

  /** parse_next_statement: leading semicolons, a statement, at most one semicolon. */
  function NextAt(ts: seq<Token>, i: nat): (r: Option<Parsed<Statement>>)
    requires Ends(ts) && i < |ts|
    ensures Within(ts, i + 1, r)
  {
    match StatementAt(ts, Skip(ts, i))
    case None => None
    case Some(p) => Some(Parsed(p.value, if ts[p.next] == Semicolon then p.next + 1 else p.next))
  }

  // ---- The parser ----

  class Cursor {
    const tokens: seq<Token>
    var current: nat

    ghost predicate Valid()
      reads this
    {
      Ends(tokens) && current < |tokens|
    }

    constructor (ts: seq<Token>, at: nat)
      requires Ends(ts) && at < |ts|
      ensures Valid() && tokens == ts && current == at
    {
      tokens, current := ts, at;
    }

    /** parser_advance: `End` is never passed. */
    method Advance()
      requires Valid()
      modifies this
      ensures Valid()
      ensures current == if tokens[old(current)] == End then old(current) else old(current) + 1
    {
      if tokens[current] != End {
        current := current + 1;
      }
    }

    method Match(t: Token) returns (found: bool)
      requires Valid() && t != End
      modifies this
      ensures Valid()
      ensures found == (tokens[old(current)] == t)
      ensures current == if found then old(current) + 1 else old(current)
    {
      if tokens[current] != t {
        return false;
      }
      Advance();
      found := true;
    }

    method SkipSemicolons()
      requires Valid()
      modifies this
      ensures Valid() && current == Skip(tokens, old(current))
    {
      var more := Match(Semicolon);
      while more
        invariant Valid()
        invariant Skip(tokens, current) == Skip(tokens, old(current))
        invariant !more ==> tokens[current] != Semicolon
        decreases |tokens| - current, more
      {
        more := Match(Semicolon);
      }
    }

    method ParseIdentifier() returns (name: Option<string>)
      requires Valid()
      modifies this
      ensures Valid()
      ensures name == NameOf(tokens[old(current)])
      ensures current == if name.Some? then old(current) + 1 else old(current)
    {
      if !tokens[current].Identifier? {
        return None;
      }
      name := Some(tokens[current].name);
      Advance();
    }

    method ParseLiteral() returns (value: Option<Literal>)
      requires Valid()
      modifies this
      ensures Valid()
      ensures value == LiteralOf(tokens[old(current)])
      ensures current == if value.Some? then old(current) + 1 else old(current)
    {
      match tokens[current] {
        case Text(v) => value := Some(StringLiteral(v)); Advance();
        case Number(d) => value := Some(NumberLiteral(d)); Advance();
        case _ => value := None;
      }
    }

    method ParseIdentifierList() returns (names: Option<seq<string>>)
      requires Valid()
      modifies this
      ensures Valid() && old(current) <= current
      ensures Reads(names, current, ListAt(tokens, old(current), NameOf))
    {
      hide ListAt, Joined;
      var name := ParseIdentifier();
      if name == None {
        ListEnds(tokens, old(current), NameOf);
        return None;
      }
      JoinedStep([], name.value, tokens, old(current), NameOf);
      var items := [name.value];
      assert [] + items == items;
      var more := Match(Comma);
      while more
        invariant Valid() && old(current) <= current
        invariant more ==> ListAt(tokens, old(current), NameOf) == Joined(items, ListAt(tokens, current, NameOf))
        invariant !more ==> ListAt(tokens, old(current), NameOf) == Some(Parsed(items, current))
        decreases |tokens| - current, more
      {
        ghost var at := current;
        name := ParseIdentifier();
        if name == None {
          ListEnds(tokens, at, NameOf);
          return None;
        }
        JoinedStep(items, name.value, tokens, at, NameOf);
        items := items + [name.value];
        more := Match(Comma);
      }
      names := Some(items);
    }

    method ParseLiteralList() returns (values: Option<seq<Literal>>)
      requires Valid()
      modifies this
      ensures Valid() && old(current) <= current
      ensures Reads(values, current, ListAt(tokens, old(current), LiteralOf))
    {
      hide ListAt, Joined;
      var value := ParseLiteral();
      if value == None {
        ListEnds(tokens, old(current), LiteralOf);
        return None;
      }
      JoinedStep([], value.value, tokens, old(current), LiteralOf);
      var items := [value.value];
      assert [] + items == items;
      var more := Match(Comma);
      while more
        invariant Valid() && old(current) <= current
        invariant more ==>
          ListAt(tokens, old(current), LiteralOf) == Joined(items, ListAt(tokens, current, LiteralOf))
        invariant !more ==> ListAt(tokens, old(current), LiteralOf) == Some(Parsed(items, current))
        decreases |tokens| - current, more
      {
        ghost var at := current;
        value := ParseLiteral();
        if value == None {
          ListEnds(tokens, at, LiteralOf);
          return None;
        }
        JoinedStep(items, value.value, tokens, at, LiteralOf);
        items := items + [value.value];
        more := Match(Comma);
      }
      values := Some(items);
    }

    method ParseWhereClause() returns (clause: Option<WhereClause>)
      requires Valid()
      modifies this
      ensures Valid()
      ensures Reads(clause, current, WhereAt(tokens, old(current)))
    {
      var found := Match(Keyword(KwWhere));
      if !found {
        return Some(NoWhere);
      }
      var column := ParseIdentifier();
      if column == None {
        return None;
      }
      found := Match(Equal);
      if !found {
        return None;
      }
      var value := ParseLiteral();
      if value == None {
        return None;
      }
      clause := Some(Where(column.value, value.value));
    }

    /** The optional column list of an INSERT. */
    method ParseColumns() returns (columns: Option<seq<string>>)
      requires Valid()
      modifies this
      ensures Valid()
      ensures Reads(columns, current, ColumnsAt(tokens, old(current)))
    {
      hide ListAt;
      var found := Match(LParen);
      if !found {
        return Some([]);
      }
      columns := ParseIdentifierList();
      if columns == None {
        return None;
      }
      found := Match(RParen);
      if !found {
        return None;
      }
    }

    /** The value list of an INSERT. */
    method ParseValues() returns (values: Option<seq<Literal>>)
      requires Valid()
      modifies this
      ensures Valid()
      ensures Reads(values, current, ValuesAt(tokens, old(current)))
    {
      hide ListAt;
      var found := Match(Keyword(KwValues));
      if !found {
        return None;
      }
      found := Match(LParen);
      if !found {
        return None;
      }
      values := ParseLiteralList();
      if values == None {
        return None;
      }
      found := Match(RParen);
      if !found {
        return None;
      }
    }

    method ParseInsert() returns (stmt: Option<InsertStatement>)
      requires Valid()
      modifies this
      ensures Valid()
      ensures Reads(stmt, current, InsertAt(tokens, old(current)))
    {
      hide ColumnsAt, ValuesAt;
      var found := Match(Keyword(KwInto));
      if !found {
        return None;
      }
      var table := ParseIdentifier();
      if table == None {
        return None;
      }
      var columns := ParseColumns();
      if columns == None {
        return None;
      }
      var values := ParseValues();
      if values == None {
        return None;
      }
      stmt := Some(InsertStatement(table.value, columns.value, values.value));
    }

    method ParseSelect() returns (stmt: Option<SelectStatement>)
      requires Valid()
      modifies this
      ensures Valid()
      ensures Reads(stmt, current, SelectAt(tokens, old(current)))
    {
      hide ListAt, WhereAt;
      var all := Match(Star);
      var columns: seq<string> := [];
      if !all {
        var names := ParseIdentifierList();
        if names == None {
          return None;
        }
        columns := names.value;
      }
      var found := Match(Keyword(KwFrom));
      if !found {
        return None;
      }
      var table := ParseIdentifier();
      if table == None {
        return None;
      }
      var clause := ParseWhereClause();
      if clause == None {
        return None;
      }
      stmt := Some(SelectStatement(table.value, all, columns, clause.value));
    }
  }

  /** A result together with the position reached, against the specification's answer. */
  ghost predicate Reads<T(!new)>(value: Option<T>, current: nat, r: Option<Parsed<T>>) {
    match r
    case None => value == None
    case Some(p) => value == Some(p.value) && current == p.next
  }

  lemma ListEnds<T>(ts: seq<Token>, i: nat, of: Token -> Option<T>)
    requires Ends(ts) && i < |ts| && of(End) == None && of(Comma) == None && of(ts[i]) == None
    ensures ListAt(ts, i, of) == None
  {
  }

  ghost function Joined<T>(items: seq<T>, r: Option<Parsed<seq<T>>>): (s: Option<Parsed<seq<T>>>)
    ensures items == [] ==> s == r
    ensures r.None? ==> s.None?
  {
    assert items == [] && r.Some? ==> items + r.value.value == r.value.value;
    if r.None? then None else Some(Parsed(items + r.value.value, r.value.next))
  }

  lemma JoinedStep<T>(items: seq<T>, x: T, ts: seq<Token>, i: nat, of: Token -> Option<T>)
    requires Ends(ts) && i < |ts| && of(End) == None && of(Comma) == None && of(ts[i]) == Some(x)
    ensures Joined(items, ListAt(ts, i, of)) ==
            if ts[i + 1] == Comma then Joined(items + [x], ListAt(ts, i + 2, of))
            else Some(Parsed(items + [x], i + 1))
  {
    if ts[i + 1] == Comma && ListAt(ts, i + 2, of).Some? {
      var tail := ListAt(ts, i + 2, of).value.value;
      assert items + ([x] + tail) == items + [x] + tail;
    }
  }

  /** A failed call leaves the caller's cursor alone, except that it is moved to `End` if nothing is left. */
  method ParseNextStatement(tokens: seq<Token>, cursor: nat) returns (stmt: Option<Statement>, next: nat)
    requires Ends(tokens)
    ensures cursor >= |tokens| ==> stmt == None && next == cursor
    ensures cursor < |tokens| ==> Reads(stmt, next, NextAt(tokens, cursor))
    ensures cursor < |tokens| && stmt == None ==>
      next == if tokens[Skip(tokens, cursor)] == End then Skip(tokens, cursor) else cursor
  {
    hide InsertAt, SelectAt;
    if cursor >= |tokens| {
      return None, cursor;
    }
    next := cursor;
    var parser := new Cursor(tokens, cursor);
    parser.SkipSemicolons();
    if parser.tokens[parser.current] == End {
      return None, parser.current;
    }
    var insert := parser.Match(Keyword(KwInsert));
    if insert {
      var s := parser.ParseInsert();
      if s == None {
        return None, cursor;
      }
      stmt := Some(Insert(s.value));
    } else {
      var select := parser.Match(Keyword(KwSelect));
      if !select {
        return None, cursor;
      }
      var s := parser.ParseSelect();
      if s == None {
        return None, cursor;
      }
      stmt := Some(Select(s.value));
    }
    var _ := parser.Match(Semicolon);
    next := parser.current;
  }
}
