/**
  The facts a parser reports about SQL and what the pipeline derives from them:
  the parser port, the analysis model and the policy vocabulary.
 */
module SqlModel {
  datatype StatementType = Select | Insert | Update | Delete | Create | Alter | Drop | Unknown

  datatype StatementClass = SelectClass | DmlClass | DdlClass | UnknownClass

  function ClassOf(t: StatementType): StatementClass {
    match t
    case Select => SelectClass
    case Insert | Update | Delete => DmlClass
    case Create | Alter | Drop => DdlClass
    case Unknown => UnknownClass
  }

  datatype InsertSource = NoSource | ValuesSource | SelectSource

  datatype InsertValueKind =
    | UnsupportedValue
    | PositiveInteger
    | PositiveDecimal
    | NonPositiveNumber

  datatype AnalysisStatus = AnalysisOk | EmptySql | ParseError | ManyStatements

  /** A table as the parser resolved it; schema is empty when the reference is unqualified. */
  datatype TableName = TableName(schema: string, name: string)

  /** Raw syntax facts for one statement. */
  datatype ParsedStatement = ParsedStatement(
    kind: StatementType,
    tables: seq<TableName>,
    projectionColumns: seq<string>,
    hasWildcard: bool,
    hasComputed: bool,
    hasSafeCountStar: bool,
    hasGroupBy: bool,
    affectedColumns: seq<string>,
    insertSource: InsertSource,
    insertValueKinds: seq<InsertValueKind>,
    unsupportedFeatures: seq<string>)

  datatype ParseResult = ParseResult(success: bool, statements: seq<ParsedStatement>)

  datatype SqlAnalysis = SqlAnalysis(
    status: AnalysisStatus,
    kind: StatementType,
    class_: StatementClass,
    statementCount: int,
    tables: seq<string>,
    projectionColumns: seq<string>,
    hasWildcard: bool,
    hasComputed: bool,
    hasSafeCountStar: bool,
    hasGroupBy: bool,
    affectedColumns: seq<string>,
    insertSource: InsertSource,
    insertValueKinds: seq<InsertValueKind>,
    unsupportedFeatures: seq<string>)

  /** The fail-closed default: an unanalyzed, unclassifiable statement. */
  const UNANALYZED: SqlAnalysis := SqlAnalysis(
    ParseError, Unknown, UnknownClass, 0, [], [], false, false, false, false, [], NoSource, [], [])

  datatype RejectReason =
    | NotEvaluated
    | NoReason
    | EmptyInput
    | UnparseableSql
    | MultipleStatements
    | UnsupportedStatementType
    | UnsupportedSqlFeature
    | DdlNotAllowed
    | DmlNotAllowed
    | SystemTableAccess
    | UnattributableProjection
    | InsertTargetNotAllowed
    | UnsupportedInsertShape

  datatype PolicyDecision = PolicyDecision(allowed: bool, reason: RejectReason)
}
