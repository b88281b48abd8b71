/** The statements of the SQL subset. */
module Ast {
  datatype Literal = StringLiteral(text: string) | NumberLiteral(text: string)

  datatype WhereClause = NoWhere | Where(column: string, value: Literal)

  /** An empty column list means that the values are given by position. */
  datatype InsertStatement = InsertStatement(table: string, columns: seq<string>, values: seq<Literal>)

  datatype SelectStatement = SelectStatement(table: string, all: bool, columns: seq<string>, filter: WhereClause)

  datatype Statement = Insert(insert: InsertStatement) | Select(select: SelectStatement)
}
