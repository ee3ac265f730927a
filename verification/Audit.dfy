/** AuditRecord: one validated record per request, made only by the per-outcome factories. */
module Audit {
  import opened Text
  import opened SqlModel

  datatype DbFailureCategory = DbConnection | DbExecution

  datatype PiiSummary = PiiSummary(emailColumns: nat, phoneColumns: nat, creditCardColumns: nat)

  datatype Details =
    | SuccessDetails(kind: StatementType, rowCount: nat, columnCount: nat, pii: PiiSummary)
    | WriteSuccessDetails(kind: StatementType, affectedRows: nat)
    | ParsingFailureDetails
    | PolicyRejectedDetails(reason: RejectReason, kind: StatementType, statementCount: nat)
    | DatabaseFailureDetails(category: DbFailureCategory, kind: StatementType)
    | MaskingRefusedDetails(kind: StatementType, columnCount: nat)
    | InternalFailureDetails

  datatype TableMetadata = Absent | Present(tables: seq<string>) | Omitted

  datatype AuditRecord = AuditRecord(timestampMs: int, requestId: nat, tables: TableMetadata, details: Details)

  /** The audit port's answer: Appended only after the record was written and flushed. */
  datatype AppendResult = Appended | OpenFailure | WriteFailure

  // ---- Table names

  const MAX_REFERENCED_TABLES := 8
  const MAX_TABLE_NAME_LENGTH := 63

  predicate StartByte(c: char) {
    'A' <= c <= 'Z' || 'a' <= c <= 'z' || c == '_'
  }

  predicate NameByte(c: char) {
    StartByte(c) || '0' <= c <= '9' || c == '$'
  }

  predicate ValidTableName(name: string) {
    && 1 <= |name| <= MAX_TABLE_NAME_LENGTH
    && StartByte(name[0])
    && forall i :: 1 <= i < |name| ==> NameByte(name[i])
  }

  method IsValidTableName(name: string) returns (ok: bool)
    ensures ok <==> ValidTableName(name)
    ensures ok <==> PlainIdentifier(name)
  {
    ValidNames(name);
    if name == "" || |name| > MAX_TABLE_NAME_LENGTH {
      return false;
    }
    if !StartByte(name[0]) {
      return false;
    }
    for i := 1 to |name|
      invariant forall k :: 1 <= k < i ==> NameByte(name[k])
    {
      if !NameByte(name[i]) {
        return false;
      }
    }
    ok := true;
  }

  /** All or nothing: the whole list when every name is valid, otherwise no name at all. */
  function TablesOf(names: seq<string>): TableMetadata {
    if names == [] then Absent
    else if |names| <= MAX_REFERENCED_TABLES && forall i :: 0 <= i < |names| ==> ValidTableName(names[i])
    then Present(names)
    else Omitted
  }

  /** Letters, digits, underscore and dollar, 1 to 63 of them, the first neither digit nor dollar. */
  predicate PlainIdentifier(name: string) {
    && 1 <= |name| <= 63 && name[0] != '$' && !IsDigit(name[0])
    && forall i :: 0 <= i < |name| ==>
         var c := name[i] as int;
         65 <= c <= 90 || 97 <= c <= 122 || 48 <= c <= 57 || c == 95 || c == 36
  }

  lemma ValidNames(name: string)
    ensures ValidTableName(name) <==> PlainIdentifier(name)
  {
    if ValidTableName(name) {
      forall i | 0 <= i < |name| ensures NameByte(name[i]) {}
    }
  }

  /** No names, the whole list of 1 to 8 plain identifiers, or the mere fact that there were names. */
  predicate Judged(m: TableMetadata, names: seq<string>) {
    && (m == Absent <==> names == [])
    && (m == Present(names) <==> 1 <= |names| <= 8 && forall i :: 0 <= i < |names| ==> PlainIdentifier(names[i]))
    && (m == Absent || m == Present(names) || m == Omitted)
  }

  lemma TablesJudged(names: seq<string>)
    ensures Judged(TablesOf(names), names)
  {
    hide ValidTableName, PlainIdentifier;
    forall i | 0 <= i < |names| ensures ValidTableName(names[i]) <==> PlainIdentifier(names[i]) {
      ValidNames(names[i]);
    }
  }

  method ClassifyTables(names: seq<string>) returns (m: TableMetadata)
    ensures m == TablesOf(names) && Judged(m, names)
  {
    TablesJudged(names);
    if names == [] {
      return Absent;
    }
    if |names| > MAX_REFERENCED_TABLES {
      return Omitted;
    }
    for i := 0 to |names|
      invariant forall k :: 0 <= k < i ==> ValidTableName(names[k])
    {
      var ok := IsValidTableName(names[i]);
      if !ok {
        return Omitted;
      }
    }
    m := Present(names);
  }

  // ---- Factories: a bad combination throws

  predicate LegalDetails(d: Details) {
    match d
    case SuccessDetails(kind, _, _, _) => kind == Select
    case WriteSuccessDetails(kind, _) => kind == Insert
    case ParsingFailureDetails => true
    case PolicyRejectedDetails(reason, _, _) => reason != NoReason && reason != NotEvaluated && reason != UnparseableSql
    case DatabaseFailureDetails(_, kind) => kind == Select || kind == Insert
    case MaskingRefusedDetails(kind, _) => kind == Select
    case InternalFailureDetails => true
  }

  /** Parsing and internal failures carry no table list by construction. */
  predicate CarriesTables(d: Details) {
    !d.ParsingFailureDetails? && !d.InternalFailureDetails?
  }

  function MakeRecord(timestampMs: int, id: nat, d: Details, names: seq<string>): Reply<AuditRecord> {
    if LegalDetails(d)
    then Returned(AuditRecord(timestampMs, id, if CarriesTables(d) then TablesOf(names) else Absent, d))
    else Threw
  }

  /** A combination no request should produce: a kind or a reason that does not go with the outcome. */
  predicate Mismatched(d: Details) {
    || (d.SuccessDetails? && d.kind != Select)
    || (d.WriteSuccessDetails? && d.kind != Insert)
    || (d.MaskingRefusedDetails? && d.kind != Select)
    || (d.DatabaseFailureDetails? && d.kind != Select && d.kind != Insert)
    || (d.PolicyRejectedDetails? && (d.reason == NoReason || d.reason == NotEvaluated || d.reason == UnparseableSql))
  }

  method NewRecord(timestampMs: int, id: nat, d: Details, names: seq<string>) returns (r: Reply<AuditRecord>)
    ensures r == MakeRecord(timestampMs, id, d, names)
    ensures r.Threw? <==> Mismatched(d)
    ensures r.Returned? ==>
      && r.value == AuditRecord(timestampMs, id, r.value.tables, d)
      && if d == ParsingFailureDetails || d == InternalFailureDetails then r.value.tables == Absent
         else Judged(r.value.tables, names)
  {
    if !LegalDetails(d) {
      return Threw;
    }
    var tables := Absent;
    if CarriesTables(d) {
      tables := ClassifyTables(names);
    }
    r := Returned(AuditRecord(timestampMs, id, tables, d));
  }

  /** What every record made by a factory satisfies. */
  predicate WellFormed(r: AuditRecord) {
    && LegalDetails(r.details)
    && (!CarriesTables(r.details) ==> r.tables == Absent)
    && (r.tables.Present? ==>
          && 1 <= |r.tables.tables| <= MAX_REFERENCED_TABLES
          && forall i :: 0 <= i < |r.tables.tables| ==> ValidTableName(r.tables.tables[i]))
  }
}
