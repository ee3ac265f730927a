/** PolicyEngine: the ordered rules R1 to R11, first match wins. */
module Policy {
  import opened Text
  import opened SqlModel

  /** A reported name split at its first dot; no dot means no schema. */
  function SplitName(entry: string): (string, string) {
    var dot := Find(entry, '.');
    if dot == |entry| then ("", entry) else (entry[..dot], entry[dot + 1..])
  }

  predicate HasPgPrefix(name: string) {
    "pg_" <= name
  }

  predicate IsSystemTable(entry: string) {
    var (schema, table) := SplitName(Lower(entry));
    schema == "pg_catalog" || schema == "information_schema" || HasPgPrefix(table)
  }

  predicate IsAllowedOrderInsert(a: SqlAnalysis) {
    && a.unsupportedFeatures == []
    && a.insertSource == ValuesSource
    && |a.affectedColumns| == 2
    && a.affectedColumns[0] == "customer_id"
    && a.affectedColumns[1] == "amount"
    && |a.insertValueKinds| == 2
    && a.insertValueKinds[0] == PositiveInteger
    && (a.insertValueKinds[1] == PositiveInteger || a.insertValueKinds[1] == PositiveDecimal)
  }

  predicate TargetsInsertTable(a: SqlAnalysis) {
    |a.tables| == 1 && a.tables[0] == "orders"
  }

  function Reject(reason: RejectReason): PolicyDecision {
    PolicyDecision(false, reason)
  }

  const ALLOW := PolicyDecision(true, NoReason)

  /** A finished decision is an allow exactly when it carries no reason, and a parse error is its own reason. */
  function Evaluate(a: SqlAnalysis): (d: PolicyDecision)
    ensures d.allowed <==> d.reason == NoReason
    ensures d.reason != NotEvaluated
    ensures d.reason == UnparseableSql <==> a.status == ParseError
    ensures d.allowed ==> a.status == AnalysisOk && a.statementCount == 1
    ensures d.allowed && a.class_ == ClassOf(a.kind) ==> a.kind == Select || a.kind == Insert
  {
    match a.status
    case EmptySql => Reject(EmptyInput)
    case ParseError => Reject(UnparseableSql)
    case ManyStatements => Reject(MultipleStatements)
    case AnalysisOk =>
      if a.statementCount != 1 then Reject(MultipleStatements)
      else match a.class_
        case UnknownClass => Reject(UnsupportedStatementType)
        case DdlClass => Reject(DdlNotAllowed)
        case DmlClass =>
          if a.kind != Insert then Reject(DmlNotAllowed)
          else if !TargetsInsertTable(a) then Reject(InsertTargetNotAllowed)
          else if !IsAllowedOrderInsert(a) then Reject(UnsupportedInsertShape)
          else ALLOW
        case SelectClass => EvaluateSelect(a)
  }

  function EvaluateSelect(a: SqlAnalysis): PolicyDecision {
    if a.unsupportedFeatures != [] then Reject(UnsupportedSqlFeature)
    else if exists t :: t in a.tables && IsSystemTable(t) then Reject(SystemTableAccess)
    else if a.hasWildcard && a.projectionColumns != [] then Reject(UnattributableProjection)
    else ALLOW
  }

  /** The rules as the engine runs them, with its scan over the reported tables. */
  method EvaluatePolicy(a: SqlAnalysis) returns (d: PolicyDecision)
    ensures d == Evaluate(a)
  {
    match a.status {
      case EmptySql => return Reject(EmptyInput);
      case ParseError => return Reject(UnparseableSql);
      case ManyStatements => return Reject(MultipleStatements);
      case AnalysisOk =>
    }
    if a.statementCount != 1 {
      return Reject(MultipleStatements);
    }
    match a.class_ {
      case UnknownClass => return Reject(UnsupportedStatementType);
      case DdlClass => return Reject(DdlNotAllowed);
      case DmlClass =>
        if a.kind != Insert {
          return Reject(DmlNotAllowed);
        }
        if !TargetsInsertTable(a) {
          return Reject(InsertTargetNotAllowed);
        }
        if !IsAllowedOrderInsert(a) {
          return Reject(UnsupportedInsertShape);
        }
        return ALLOW;
      case SelectClass =>
    }
    if a.unsupportedFeatures != [] {
      return Reject(UnsupportedSqlFeature);
    }
    for i := 0 to |a.tables|
      invariant forall k :: 0 <= k < i ==> !IsSystemTable(a.tables[k])
    {
      if IsSystemTable(a.tables[i]) {
        return Reject(SystemTableAccess);
      }
    }
    if a.hasWildcard && a.projectionColumns != [] {
      return Reject(UnattributableProjection);
    }
    d := ALLOW;
  }
}
