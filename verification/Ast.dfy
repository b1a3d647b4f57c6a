// Conditions and statements, as the parser makes them and the planner takes them.
module Ast {
  import opened Bytes
  import opened Results
  import opened Values
  import opened Schema

  datatype Comparison = Equals | NotEquals | LessThan | LessOrEqual | GreaterThan | GreaterOrEqual | IsNull | IsNotNull

  datatype Expression =
    | Compare(column: Name, operation: Comparison, value: Value)
    | And(left: Expression, right: Expression)
    | Or(left: Expression, right: Expression)

  // No columns stands for all of them.
  datatype SelectStatement = SelectStatement(columns: seq<Name>, tableName: Name, condition: Option<Expression>)

  datatype Statement =
    | CreateDatabase(name: Name)
    | UseDatabase(name: Name)
    | CreateTable(name: Name, columns: seq<ColumnSchema>)
    | CreateIndex(name: Name, tableName: Name, columnName: Name)
    | Insert(tableName: Name, values: seq<Value>)
    | Select(select: SelectStatement)
    | Delete(tableName: Name, condition: Option<Expression>)
    | Update(tableName: Name, columnName: Name, value: Value, condition: Option<Expression>)
    | Explain(select: SelectStatement)
}
