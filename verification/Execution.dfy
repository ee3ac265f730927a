/** The query-executor port: what one execution hands back. */
module Execution {
  import opened Text

  datatype ColumnType =
    | TextType
    | IntegerType
    | FloatType
    | NumericType
    | BooleanType
    | TimestampType
    | DateType
    | OtherType

  datatype ColumnInfo = ColumnInfo(name: string, columnType: ColumnType)

  datatype ExecutionStatus = Executed | ConnectionFailure | ExecutionFailure

  /** None is SQL NULL; Some("") is an empty string. */
  type Cell = Option<string>

  type Rows = seq<seq<Cell>>

  datatype ExecutionResult = ExecutionResult(
    status: ExecutionStatus,
    error: string,
    hasResultSet: bool,
    columns: seq<ColumnInfo>,
    rows: Rows,
    rowCount: int,
    affectedRows: int)
}
