/** serialize(): one audit record as a closed-schema JSON object, and how a reader gets it back. */
module AuditJson {
  import opened Text
  import opened SqlModel
  import opened Audit
  import opened OrderedMap
  import opened Json
  import opened Timestamp
  import Decimal
  import Utf8

  // ---- Closed vocabularies

  function KindName(k: StatementType): string {
    match k
    case Select => "SELECT"
    case Insert => "INSERT"
    case Update => "UPDATE"
    case Delete => "DELETE"
    case Create => "CREATE"
    case Alter => "ALTER"
    case Drop => "DROP"
    case Unknown => "UNKNOWN"
  }

  function KindNamed(s: string): Option<StatementType> {
    if s == "SELECT" then Some(Select)
    else if s == "INSERT" then Some(Insert)
    else if s == "UPDATE" then Some(Update)
    else if s == "DELETE" then Some(Delete)
    else if s == "CREATE" then Some(Create)
    else if s == "ALTER" then Some(Alter)
    else if s == "DROP" then Some(Drop)
    else if s == "UNKNOWN" then Some(Unknown)
    else None
  }

  function ReasonName(r: RejectReason): string {
    match r
    case NotEvaluated => "NOT_EVALUATED"
    case NoReason => "NONE"
    case EmptyInput => "EMPTY_INPUT"
    case UnparseableSql => "UNPARSEABLE_SQL"
    case MultipleStatements => "MULTIPLE_STATEMENTS"
    case UnsupportedStatementType => "UNSUPPORTED_STATEMENT_TYPE"
    case UnsupportedSqlFeature => "UNSUPPORTED_SQL_FEATURE"
    case DdlNotAllowed => "DDL_NOT_ALLOWED"
    case DmlNotAllowed => "DML_NOT_ALLOWED"
    case SystemTableAccess => "SYSTEM_TABLE_ACCESS"
    case UnattributableProjection => "UNATTRIBUTABLE_PROJECTION"
    case InsertTargetNotAllowed => "INSERT_TARGET_NOT_ALLOWED"
    case UnsupportedInsertShape => "UNSUPPORTED_INSERT_SHAPE"
  }

  function ReasonNamed(s: string): Option<RejectReason> {
    if s == "NOT_EVALUATED" then Some(NotEvaluated)
    else if s == "NONE" then Some(NoReason)
    else if s == "EMPTY_INPUT" then Some(EmptyInput)
    else if s == "UNPARSEABLE_SQL" then Some(UnparseableSql)
    else if s == "MULTIPLE_STATEMENTS" then Some(MultipleStatements)
    else if s == "UNSUPPORTED_STATEMENT_TYPE" then Some(UnsupportedStatementType)
    else if s == "UNSUPPORTED_SQL_FEATURE" then Some(UnsupportedSqlFeature)
    else if s == "DDL_NOT_ALLOWED" then Some(DdlNotAllowed)
    else if s == "DML_NOT_ALLOWED" then Some(DmlNotAllowed)
    else if s == "SYSTEM_TABLE_ACCESS" then Some(SystemTableAccess)
    else if s == "UNATTRIBUTABLE_PROJECTION" then Some(UnattributableProjection)
    else if s == "INSERT_TARGET_NOT_ALLOWED" then Some(InsertTargetNotAllowed)
    else if s == "UNSUPPORTED_INSERT_SHAPE" then Some(UnsupportedInsertShape)
    else None
  }

  function CategoryName(c: DbFailureCategory): string {
    match c
    case DbConnection => "CONNECTION_FAILURE"
    case DbExecution => "EXECUTION_FAILURE"
  }

  function CategoryNamed(s: string): Option<DbFailureCategory> {
    if s == "CONNECTION_FAILURE" then Some(DbConnection)
    else if s == "EXECUTION_FAILURE" then Some(DbExecution)
    else None
  }

  function OutcomeName(d: Details): string {
    match d
    case SuccessDetails(_, _, _, _) => "SUCCESS"
    case WriteSuccessDetails(_, _) => "SUCCESS"
    case ParsingFailureDetails => "PARSING_FAILURE"
    case PolicyRejectedDetails(_, _, _) => "POLICY_REJECTED"
    case DatabaseFailureDetails(_, _) => "DATABASE_FAILURE"
    case MaskingRefusedDetails(_, _) => "MASKING_REFUSED"
    case InternalFailureDetails => "INTERNAL_FAILURE"
  }

  lemma KindReads(k: StatementType)
    ensures KindNamed(KindName(k)) == Some(k)
  {
  }

  predicate NamesShape(r: RejectReason) {
    || r.UnsupportedStatementType? || r.UnsupportedSqlFeature? || r.UnattributableProjection?
    || r.InsertTargetNotAllowed? || r.UnsupportedInsertShape?
  }

  lemma ShapeReasonReads(r: RejectReason)
    requires NamesShape(r)
    ensures ReasonNamed(ReasonName(r)) == Some(r)
  {
  }

  lemma ReasonReads(r: RejectReason)
    ensures ReasonNamed(ReasonName(r)) == Some(r)
  {
    if NamesShape(r) {
      ShapeReasonReads(r);
    }
  }

  lemma CategoryReads(c: DbFailureCategory)
    ensures CategoryNamed(CategoryName(c)) == Some(c)
  {
  }

  // ---- The closed set of keys

  datatype Key =
    | AffectedRowsKey
    | CategoryKey
    | ColumnCountKey
    | OutcomeKey
    | PiiCreditCardColumnsKey
    | PiiEmailColumnsKey
    | PiiPhoneColumnsKey
    | ReasonKey
    | ReferencedTablesKey
    | ReferencedTablesOmittedKey
    | RequestIdKey
    | RowCountKey
    | StatementCountKey
    | StatementTypeKey
    | TimestampKey

  function KeyName(k: Key): string {
    match k
    case AffectedRowsKey => "affected_rows"
    case CategoryKey => "category"
    case ColumnCountKey => "column_count"
    case OutcomeKey => "outcome"
    case PiiCreditCardColumnsKey => "pii_credit_card_columns"
    case PiiEmailColumnsKey => "pii_email_columns"
    case PiiPhoneColumnsKey => "pii_phone_columns"
    case ReasonKey => "reason"
    case ReferencedTablesKey => "referenced_tables"
    case ReferencedTablesOmittedKey => "referenced_tables_omitted"
    case RequestIdKey => "request_id"
    case RowCountKey => "row_count"
    case StatementCountKey => "statement_count"
    case StatementTypeKey => "statement_type"
    case TimestampKey => "timestamp"
  }

  function KeyNamed(s: string): Option<Key> {
    if s == "affected_rows" then Some(AffectedRowsKey)
    else if s == "category" then Some(CategoryKey)
    else if s == "column_count" then Some(ColumnCountKey)
    else if s == "outcome" then Some(OutcomeKey)
    else if s == "pii_credit_card_columns" then Some(PiiCreditCardColumnsKey)
    else if s == "pii_email_columns" then Some(PiiEmailColumnsKey)
    else if s == "pii_phone_columns" then Some(PiiPhoneColumnsKey)
    else if s == "reason" then Some(ReasonKey)
    else if s == "referenced_tables" then Some(ReferencedTablesKey)
    else if s == "referenced_tables_omitted" then Some(ReferencedTablesOmittedKey)
    else if s == "request_id" then Some(RequestIdKey)
    else if s == "row_count" then Some(RowCountKey)
    else if s == "statement_count" then Some(StatementCountKey)
    else if s == "statement_type" then Some(StatementTypeKey)
    else if s == "timestamp" then Some(TimestampKey)
    else None
  }

  lemma KeyReads(k: Key)
    ensures KeyNamed(KeyName(k)) == Some(k)
  {
  }

  // ---- Objects as the library's ordered map keeps them: ascending by key

  type Fields = seq<(Key, Value)>

  /** Keys compare as the byte strings they are. */
  predicate KeyBefore(a: Key, b: Key) {
    Decimal.LexLess(KeyName(a), KeyName(b))
  }

  /** j[key] = value. */
  function Set(j: Fields, key: Key, value: Value): Fields {
    Put(j, key, value, KeyBefore)
  }

  lemma GetAfterSet(j: Fields, key: Key, value: Value, other: Key)
    ensures Get(Set(j, key, value), other) == if other == key then Some(value) else Get(j, other)
  {
    GetAfterPut(j, key, value, KeyBefore, other);
  }

  /** The object with its keys spelled out. */
  function Spell(j: Fields): Object {
    seq(|j|, i requires 0 <= i < |j| => (KeyName(j[i].0), j[i].1))
  }

  function Unspell(o: Object): Option<Fields> {
    if o == [] then Some([])
    else
      var rest := Unspell(o[..|o| - 1]);
      var key := KeyNamed(o[|o| - 1].0);
      if rest.None? || key.None? then None else Some(rest.value + [(key.value, o[|o| - 1].1)])
  }

  lemma {:induction false} SpelledReads(j: Fields)
    ensures Unspell(Spell(j)) == Some(j)
  {
    if j != [] {
      var front := j[..|j| - 1];
      assert Spell(j)[..|j| - 1] == Spell(front);
      SpelledReads(front);
      KeyReads(j[|j| - 1].0);
      assert j == front + [j[|j| - 1]];
    }
  }

  // ---- serialize(), key by key

  function WithEnvelope(stamp: string, r: AuditRecord): Fields {
    var j := Set([], TimestampKey, Str(stamp));
    var j := Set(j, RequestIdKey, Num(r.requestId));
    Set(j, OutcomeKey, Str(OutcomeName(r.details)))
  }

  function WithTables(j: Fields, t: TableMetadata): Fields {
    match t
    case Present(tables) => Set(j, ReferencedTablesKey, Strs(tables))
    case Omitted => Set(j, ReferencedTablesOmittedKey, Bool(true))
    case Absent => j
  }

  function WithDetails(j: Fields, d: Details): Fields {
    match d
    case WriteSuccessDetails(kind, affected) =>
      var j := Set(j, StatementTypeKey, Str(KindName(kind)));
      Set(j, AffectedRowsKey, Num(affected))
    case SuccessDetails(kind, rows, columns, pii) =>
      var j := Set(j, StatementTypeKey, Str(KindName(kind)));
      var j := Set(j, RowCountKey, Num(rows));
      var j := Set(j, ColumnCountKey, Num(columns));
      var j := Set(j, PiiEmailColumnsKey, Num(pii.emailColumns));
      var j := Set(j, PiiPhoneColumnsKey, Num(pii.phoneColumns));
      Set(j, PiiCreditCardColumnsKey, Num(pii.creditCardColumns))
    case PolicyRejectedDetails(reason, kind, count) =>
      var j := Set(j, ReasonKey, Str(ReasonName(reason)));
      var j := Set(j, StatementTypeKey, Str(KindName(kind)));
      Set(j, StatementCountKey, Num(count))
    case DatabaseFailureDetails(category, kind) =>
      var j := Set(j, CategoryKey, Str(CategoryName(category)));
      Set(j, StatementTypeKey, Str(KindName(kind)))
    case MaskingRefusedDetails(kind, columns) =>
      var j := Set(j, StatementTypeKey, Str(KindName(kind)));
      Set(j, ColumnCountKey, Num(columns))
    case ParsingFailureDetails => j
    case InternalFailureDetails => j
  }

  /** The record's object, for a given rendering of its time. */
  function SerializeAt(stamp: string, r: AuditRecord): Fields {
    WithDetails(WithTables(WithEnvelope(stamp, r), r.tables), r.details)
  }

  function Serialize(r: AuditRecord): Fields {
    SerializeAt(FormatUtc(r.timestampMs), r)
  }

  // ---- The schema: which keys hold what

  function EnvelopeFields(stamp: string, r: AuditRecord): map<Key, Value> {
    map[TimestampKey := Str(stamp), RequestIdKey := Num(r.requestId), OutcomeKey := Str(OutcomeName(r.details))]
  }

  function TableFields(t: TableMetadata): map<Key, Value> {
    match t
    case Present(tables) => map[ReferencedTablesKey := Strs(tables)]
    case Omitted => map[ReferencedTablesOmittedKey := Bool(true)]
    case Absent => map[]
  }

  function DetailFields(d: Details): map<Key, Value> {
    match d
    case WriteSuccessDetails(kind, affected) =>
      map[StatementTypeKey := Str(KindName(kind)), AffectedRowsKey := Num(affected)]
    case SuccessDetails(kind, rows, columns, pii) =>
      map[StatementTypeKey := Str(KindName(kind)), RowCountKey := Num(rows), ColumnCountKey := Num(columns),
          PiiEmailColumnsKey := Num(pii.emailColumns), PiiPhoneColumnsKey := Num(pii.phoneColumns),
          PiiCreditCardColumnsKey := Num(pii.creditCardColumns)]
    case PolicyRejectedDetails(reason, kind, count) =>
      map[ReasonKey := Str(ReasonName(reason)), StatementTypeKey := Str(KindName(kind)),
          StatementCountKey := Num(count)]
    case DatabaseFailureDetails(category, kind) =>
      map[CategoryKey := Str(CategoryName(category)), StatementTypeKey := Str(KindName(kind))]
    case MaskingRefusedDetails(kind, columns) =>
      map[StatementTypeKey := Str(KindName(kind)), ColumnCountKey := Num(columns)]
    case ParsingFailureDetails => map[]
    case InternalFailureDetails => map[]
  }

  function FieldAt<K, V>(m: map<K, V>, k: K): Option<V> {
    if k in m then Some(m[k]) else None
  }

  lemma EnvelopeGet(stamp: string, r: AuditRecord, key: Key)
    ensures Get(WithEnvelope(stamp, r), key) == FieldAt(EnvelopeFields(stamp, r), key)
  {
    var j1 := Set([], TimestampKey, Str(stamp));
    var j2 := Set(j1, RequestIdKey, Num(r.requestId));
    GetAfterSet([], TimestampKey, Str(stamp), key);
    GetAfterSet(j1, RequestIdKey, Num(r.requestId), key);
    GetAfterSet(j2, OutcomeKey, Str(OutcomeName(r.details)), key);
  }

  lemma TablesGet(j: Fields, t: TableMetadata, key: Key)
    ensures Get(WithTables(j, t), key) == if key in TableFields(t) then Some(TableFields(t)[key]) else Get(j, key)
  {
    match t
    case Present(tables) => GetAfterSet(j, ReferencedTablesKey, Strs(tables), key);
    case Omitted => GetAfterSet(j, ReferencedTablesOmittedKey, Bool(true), key);
    case Absent =>
  }

  lemma DetailsGet(j: Fields, d: Details, key: Key)
    ensures Get(WithDetails(j, d), key) == if key in DetailFields(d) then Some(DetailFields(d)[key]) else Get(j, key)
  {
    match d
    case SuccessDetails(kind, rows, columns, pii) =>
      SuccessGet(j, d, key);
    case WriteSuccessDetails(kind, affected) =>
      var j1 := Set(j, StatementTypeKey, Str(KindName(kind)));
      GetAfterSet(j, StatementTypeKey, Str(KindName(kind)), key);
      GetAfterSet(j1, AffectedRowsKey, Num(affected), key);
    case PolicyRejectedDetails(reason, kind, count) =>
      var j1 := Set(j, ReasonKey, Str(ReasonName(reason)));
      var j2 := Set(j1, StatementTypeKey, Str(KindName(kind)));
      GetAfterSet(j, ReasonKey, Str(ReasonName(reason)), key);
      GetAfterSet(j1, StatementTypeKey, Str(KindName(kind)), key);
      GetAfterSet(j2, StatementCountKey, Num(count), key);
    case DatabaseFailureDetails(category, kind) =>
      var j1 := Set(j, CategoryKey, Str(CategoryName(category)));
      GetAfterSet(j, CategoryKey, Str(CategoryName(category)), key);
      GetAfterSet(j1, StatementTypeKey, Str(KindName(kind)), key);
    case MaskingRefusedDetails(kind, columns) =>
      var j1 := Set(j, StatementTypeKey, Str(KindName(kind)));
      GetAfterSet(j, StatementTypeKey, Str(KindName(kind)), key);
      GetAfterSet(j1, ColumnCountKey, Num(columns), key);
    case ParsingFailureDetails =>
    case InternalFailureDetails =>
  }

  lemma SuccessGet(j: Fields, d: Details, key: Key)
    requires d.SuccessDetails?
    ensures Get(WithDetails(j, d), key) == if key in DetailFields(d) then Some(DetailFields(d)[key]) else Get(j, key)
  {
    hide Get, Set, KindName;
    var j1 := Set(j, StatementTypeKey, Str(KindName(d.kind)));
    var j2 := Set(j1, RowCountKey, Num(d.rowCount));
    var j3 := Set(j2, ColumnCountKey, Num(d.columnCount));
    var j4 := Set(j3, PiiEmailColumnsKey, Num(d.pii.emailColumns));
    var j5 := Set(j4, PiiPhoneColumnsKey, Num(d.pii.phoneColumns));
    GetAfterSet(j, StatementTypeKey, Str(KindName(d.kind)), key);
    GetAfterSet(j1, RowCountKey, Num(d.rowCount), key);
    GetAfterSet(j2, ColumnCountKey, Num(d.columnCount), key);
    GetAfterSet(j3, PiiEmailColumnsKey, Num(d.pii.emailColumns), key);
    GetAfterSet(j4, PiiPhoneColumnsKey, Num(d.pii.phoneColumns), key);
    GetAfterSet(j5, PiiCreditCardColumnsKey, Num(d.pii.creditCardColumns), key);
  }

  function Schema(stamp: string, r: AuditRecord): map<Key, Value> {
    EnvelopeFields(stamp, r) + TableFields(r.tables) + DetailFields(r.details)
  }

  /** The object holds exactly the fields of the record's outcome: inapplicable ones are omitted. */
  ghost predicate Holds(j: Fields, stamp: string, r: AuditRecord) {
    forall key :: Get(j, key) == FieldAt(Schema(stamp, r), key)
  }

  lemma SerializedFields(stamp: string, r: AuditRecord)
    ensures Holds(SerializeAt(stamp, r), stamp, r)
  {
    forall key ensures Get(SerializeAt(stamp, r), key) == FieldAt(Schema(stamp, r), key) {
      EnvelopeGet(stamp, r, key);
      TablesGet(WithEnvelope(stamp, r), r.tables, key);
      DetailsGet(WithTables(WithEnvelope(stamp, r), r.tables), r.details, key);
    }
  }

  // ---- Reading a record back

  /** A record as a reader of the trail sees it; the time stays text. */
  datatype Decoded = Decoded(timestamp: string, requestId: nat, tables: TableMetadata, details: Details)

  function TextOf(v: Option<Value>): Option<string> {
    if v.Some? && v.value.Str? then Some(v.value.s) else None
  }

  function NumberOf(v: Option<Value>): Option<nat> {
    if v.Some? && v.value.Num? then Some(v.value.n) else None
  }

  function KindIn(j: Fields): Option<StatementType> {
    var s := TextOf(Get(j, StatementTypeKey));
    if s.Some? then KindNamed(s.value) else None
  }

  function DecodeTables(j: Fields): TableMetadata {
    var listed: Option<Value> := Get(j, ReferencedTablesKey);
    if listed.Some? && listed.value.Strs? then Present(listed.value.items)
    else if Get(j, ReferencedTablesOmittedKey).Some? then Omitted
    else Absent
  }

  function DecodeSuccess(j: Fields, kind: StatementType): Option<Details> {
    var rows, columns := NumberOf(Get(j, RowCountKey)), NumberOf(Get(j, ColumnCountKey));
    var email, phone := NumberOf(Get(j, PiiEmailColumnsKey)), NumberOf(Get(j, PiiPhoneColumnsKey));
    var card, affected := NumberOf(Get(j, PiiCreditCardColumnsKey)), NumberOf(Get(j, AffectedRowsKey));
    if affected.Some? then Some(WriteSuccessDetails(kind, affected.value))
    else if rows.Some? && columns.Some? && email.Some? && phone.Some? && card.Some?
    then Some(SuccessDetails(kind, rows.value, columns.value, PiiSummary(email.value, phone.value, card.value)))
    else None
  }

  function DecodeRejected(j: Fields, kind: StatementType): Option<Details> {
    var reason, count := TextOf(Get(j, ReasonKey)), NumberOf(Get(j, StatementCountKey));
    if reason.Some? && count.Some? && ReasonNamed(reason.value).Some?
    then Some(PolicyRejectedDetails(ReasonNamed(reason.value).value, kind, count.value))
    else None
  }

  function DecodeDatabase(j: Fields, kind: StatementType): Option<Details> {
    var category := TextOf(Get(j, CategoryKey));
    if category.Some? && CategoryNamed(category.value).Some?
    then Some(DatabaseFailureDetails(CategoryNamed(category.value).value, kind))
    else None
  }

  function DecodeRefused(j: Fields, kind: StatementType): Option<Details> {
    var columns := NumberOf(Get(j, ColumnCountKey));
    if columns.Some? then Some(MaskingRefusedDetails(kind, columns.value)) else None
  }

  function DecodeDetails(j: Fields, outcome: string): Option<Details> {
    if outcome == "PARSING_FAILURE" then Some(ParsingFailureDetails)
    else if outcome == "INTERNAL_FAILURE" then Some(InternalFailureDetails)
    else
      var kind := KindIn(j);
      if kind.None? then None
      else if outcome == "SUCCESS" then DecodeSuccess(j, kind.value)
      else if outcome == "POLICY_REJECTED" then DecodeRejected(j, kind.value)
      else if outcome == "DATABASE_FAILURE" then DecodeDatabase(j, kind.value)
      else if outcome == "MASKING_REFUSED" then DecodeRefused(j, kind.value)
      else None
  }

  function Decode(j: Fields): Option<Decoded> {
    var timestamp, outcome := TextOf(Get(j, TimestampKey)), TextOf(Get(j, OutcomeKey));
    var id := NumberOf(Get(j, RequestIdKey));
    if timestamp.None? || id.None? || outcome.None? then None
    else
      var details := DecodeDetails(j, outcome.value);
      if details.None? then None else Some(Decoded(timestamp.value, id.value, DecodeTables(j), details.value))
  }

  function DecodeLine(line: string): Option<Decoded> {
    var o := ReadObject(line);
    if o.None? || Unspell(o.value).None? then None else Decode(Unspell(o.value).value)
  }

  lemma TablesDecode(j: Fields, stamp: string, r: AuditRecord)
    requires Holds(j, stamp, r)
    ensures DecodeTables(j) == r.tables
  {
  }

  lemma KindDecodes(j: Fields, stamp: string, r: AuditRecord)
    requires Holds(j, stamp, r) && CarriesTables(r.details)
    ensures KindIn(j) == Some(r.details.kind)
  {
    KindReads(r.details.kind);
  }

  lemma SuccessDecodes(j: Fields, stamp: string, r: AuditRecord)
    requires Holds(j, stamp, r)
    requires r.details.SuccessDetails? || r.details.WriteSuccessDetails?
    ensures DecodeSuccess(j, r.details.kind) == Some(r.details)
  {
    hide Get, KindName, OutcomeName;
  }

  lemma FailureDecodes(j: Fields, stamp: string, r: AuditRecord)
    requires Holds(j, stamp, r)
    ensures r.details.PolicyRejectedDetails? ==> DecodeRejected(j, r.details.kind) == Some(r.details)
    ensures r.details.DatabaseFailureDetails? ==> DecodeDatabase(j, r.details.kind) == Some(r.details)
    ensures r.details.MaskingRefusedDetails? ==> DecodeRefused(j, r.details.kind) == Some(r.details)
  {
    match r.details
    case PolicyRejectedDetails(reason, _, _) => ReasonReads(reason);
    case DatabaseFailureDetails(category, _) => CategoryReads(category);
    case _ =>
  }

  lemma DetailsDecode(j: Fields, stamp: string, r: AuditRecord)
    requires Holds(j, stamp, r)
    ensures DecodeDetails(j, OutcomeName(r.details)) == Some(r.details)
  {
    if CarriesTables(r.details) {
      KindDecodes(j, stamp, r);
      if r.details.SuccessDetails? || r.details.WriteSuccessDetails? {
        SuccessDecodes(j, stamp, r);
      } else {
        FailureDecodes(j, stamp, r);
      }
    }
  }

  lemma EnvelopeDecodes(j: Fields, stamp: string, r: AuditRecord)
    requires Holds(j, stamp, r)
    ensures Get(j, TimestampKey) == Some(Str(stamp))
    ensures Get(j, RequestIdKey) == Some(Num(r.requestId))
    ensures Get(j, OutcomeKey) == Some(Str(OutcomeName(r.details)))
  {
  }

  lemma PartsDecode(j: Fields, stamp: string, id: nat, outcome: string, details: Details)
    requires Get(j, TimestampKey) == Some(Str(stamp)) && Get(j, RequestIdKey) == Some(Num(id))
    requires Get(j, OutcomeKey) == Some(Str(outcome)) && DecodeDetails(j, outcome) == Some(details)
    ensures Decode(j) == Some(Decoded(stamp, id, DecodeTables(j), details))
  {
  }

  /** Decoding an object with the record's fields gives the record back: alternative, tables and counts. */
  lemma FieldsDecode(j: Fields, stamp: string, r: AuditRecord)
    requires Holds(j, stamp, r)
    ensures Decode(j) == Some(Decoded(stamp, r.requestId, r.tables, r.details))
  {
    TablesDecode(j, stamp, r);
    DetailsDecode(j, stamp, r);
    EnvelopeDecodes(j, stamp, r);
    PartsDecode(j, stamp, r.requestId, OutcomeName(r.details), r.details);
  }

  function Line(r: AuditRecord): string {
    PrintObject(Spell(Serialize(r)))
  }

  /** One line of the trail reads back to its record, and to its instant when that is representable. */
  lemma LineDecodes(r: AuditRecord)
    ensures '\n' !in Line(r)
    ensures DecodeLine(Line(r)) == Some(Decoded(FormatUtc(r.timestampMs), r.requestId, r.tables, r.details))
    ensures Representable(r.timestampMs) ==> ParseUtc(DecodeLine(Line(r)).value.timestamp) == Some(r.timestampMs)
  {
    var o := Spell(Serialize(r));
    ObjectIsOneLine(o);
    ObjectReads(o);
    SpelledReads(Serialize(r));
    SerializedFields(FormatUtc(r.timestampMs), r);
    FieldsDecode(Serialize(r), FormatUtc(r.timestampMs), r);
    ParsesBackExactly(r.timestampMs);
  }

  // ---- Every object the serializer builds is in key order and printable

  /** A whitelisted name needs no escape and is valid UTF-8. */
  lemma WhitelistedNames(name: string)
    requires ValidTableName(name)
    ensures EscapeAll(name) == name && Utf8.Valid(name)
  {
    forall i | 0 <= i < |name| ensures Plain(name[i]) && Utf8.IsAscii(name[i]) {}
    PlainIsUnescaped(name);
    Utf8.AsciiIsValid(name);
  }

  /** Valid UTF-8 that is printed as it is. */
  predicate Clean(s: string) {
    Utf8.Valid(s) && EscapeAll(s) == s
  }

  predicate WordByte(c: char) {
    'A' <= c <= 'Z' || 'a' <= c <= 'z' || c == '_'
  }

  lemma WordIsClean(s: string)
    requires forall c :: c in s ==> WordByte(c)
    ensures Clean(s)
  {
    forall i | 0 <= i < |s| ensures Plain(s[i]) && Utf8.IsAscii(s[i]) { assert s[i] in s; }
    PlainIsUnescaped(s);
    Utf8.AsciiIsValid(s);
  }

  lemma TimestampIsClean(ms: int)
    ensures Clean(FormatUtc(ms))
  {
    hide FormatUtc;
    TimeBytes(ms);
    TimestampEncodes(ms);
    PlainIsUnescaped(FormatUtc(ms));
  }

  lemma KeyIsClean(k: Key)
    ensures Clean(KeyName(k))
  {
    hide Clean;
    WordIsClean(KeyName(k));
  }

  lemma KindIsClean(k: StatementType)
    ensures Clean(KindName(k))
  {
    hide Clean;
    WordIsClean(KindName(k));
  }

  lemma ShapeReasonIsClean(r: RejectReason)
    requires NamesShape(r)
    ensures Clean(ReasonName(r))
  {
    hide Clean;
    WordIsClean(ReasonName(r));
  }

  lemma ReasonIsClean(r: RejectReason)
    ensures Clean(ReasonName(r))
  {
    hide Clean;
    if NamesShape(r) {
      ShapeReasonIsClean(r);
    } else {
      WordIsClean(ReasonName(r));
    }
  }

  lemma CategoryIsClean(c: DbFailureCategory)
    ensures Clean(CategoryName(c))
  {
    hide Clean;
    WordIsClean(CategoryName(c));
  }

  lemma OutcomeIsClean(d: Details)
    ensures Clean(OutcomeName(d))
  {
    hide Clean;
    WordIsClean(OutcomeName(d));
  }

  lemma KeyOrderIsStrict()
    ensures StrictOrder(KeyBefore)
  {
    forall a: Key, b: Key ensures a == b || KeyBefore(a, b) || KeyBefore(b, a) {
      KeyReads(a);
      KeyReads(b);
      Decimal.LexLessTotal(KeyName(a), KeyName(b));
    }
    forall a: Key, b: Key, c: Key | KeyBefore(a, b) && KeyBefore(b, c) ensures KeyBefore(a, c) {
      Decimal.LexLessTransitive(KeyName(a), KeyName(b), KeyName(c));
    }
  }

  predicate CleanValue(v: Value) {
    match v
    case Str(s) => Clean(s)
    case Strs(items) => forall i :: 0 <= i < |items| ==> Clean(items[i])
    case _ => true
  }

  /** Keys strictly ascending in byte order, and every string clean. */
  ghost predicate Printable(j: Fields) {
    Ascending(j, KeyBefore) && forall m :: m in j ==> CleanValue(m.1)
  }

  lemma SetKeepsPrintable(j: Fields, key: Key, value: Value)
    requires Printable(j) && CleanValue(value)
    ensures Printable(Set(j, key, value))
  {
    assert Ascending(Set(j, key, value), KeyBefore) by {
      KeyOrderIsStrict();
      PutKeepsAscending(j, key, value, KeyBefore);
    }
    PutMembers(j, key, value, KeyBefore);
  }

  lemma EnvelopePrintable(stamp: string, r: AuditRecord)
    requires Clean(stamp)
    ensures Printable(WithEnvelope(stamp, r))
  {
    hide Clean, KeyName, OutcomeName;
    OutcomeIsClean(r.details);
    var j1 := Set([], TimestampKey, Str(stamp));
    SetKeepsPrintable([], TimestampKey, Str(stamp));
    SetKeepsPrintable(j1, RequestIdKey, Num(r.requestId));
    SetKeepsPrintable(Set(j1, RequestIdKey, Num(r.requestId)), OutcomeKey, Str(OutcomeName(r.details)));
  }

  lemma TablesPrintable(j: Fields, t: TableMetadata)
    requires Printable(j)
    requires t.Present? ==> forall i :: 0 <= i < |t.tables| ==> ValidTableName(t.tables[i])
    ensures Printable(WithTables(j, t))
  {
    hide KeyName, Utf8.Valid, EscapeAll;
    match t
    case Present(tables) =>
      forall i | 0 <= i < |tables| ensures Clean(tables[i]) { WhitelistedNames(tables[i]); }
      SetKeepsPrintable(j, ReferencedTablesKey, Strs(tables));
    case Omitted =>
      SetKeepsPrintable(j, ReferencedTablesOmittedKey, Bool(true));
    case Absent =>
  }

  lemma DetailsPrintable(j: Fields, d: Details)
    requires Printable(j)
    ensures Printable(WithDetails(j, d))
  {
    hide Clean, KeyName, KindName, ReasonName, CategoryName;
    match d
    case WriteSuccessDetails(kind, affected) =>
      KindIsClean(kind);
      SetKeepsPrintable(j, StatementTypeKey, Str(KindName(kind)));
      SetKeepsPrintable(Set(j, StatementTypeKey, Str(KindName(kind))), AffectedRowsKey, Num(affected));
    case SuccessDetails(_, _, _, _) =>
      SuccessPrintable(j, d);
    case PolicyRejectedDetails(reason, kind, count) =>
      KindIsClean(kind);
      ReasonIsClean(reason);
      SetKeepsPrintable(j, ReasonKey, Str(ReasonName(reason)));
      var j1 := Set(j, ReasonKey, Str(ReasonName(reason)));
      SetKeepsPrintable(j1, StatementTypeKey, Str(KindName(kind)));
      SetKeepsPrintable(Set(j1, StatementTypeKey, Str(KindName(kind))), StatementCountKey, Num(count));
    case DatabaseFailureDetails(category, kind) =>
      KindIsClean(kind);
      CategoryIsClean(category);
      SetKeepsPrintable(j, CategoryKey, Str(CategoryName(category)));
      SetKeepsPrintable(Set(j, CategoryKey, Str(CategoryName(category))), StatementTypeKey, Str(KindName(kind)));
    case MaskingRefusedDetails(kind, columns) =>
      KindIsClean(kind);
      SetKeepsPrintable(j, StatementTypeKey, Str(KindName(kind)));
      SetKeepsPrintable(Set(j, StatementTypeKey, Str(KindName(kind))), ColumnCountKey, Num(columns));
    case ParsingFailureDetails =>
    case InternalFailureDetails =>
  }

  lemma SuccessPrintable(j: Fields, d: Details)
    requires Printable(j) && d.SuccessDetails?
    ensures Printable(WithDetails(j, d))
  {
    hide Clean, KeyName, KindName;
    var j1 := Set(j, StatementTypeKey, Str(KindName(d.kind)));
    var j2 := Set(j1, RowCountKey, Num(d.rowCount));
    var j3 := Set(j2, ColumnCountKey, Num(d.columnCount));
    var j4 := Set(j3, PiiEmailColumnsKey, Num(d.pii.emailColumns));
    var j5 := Set(j4, PiiPhoneColumnsKey, Num(d.pii.phoneColumns));
    KindIsClean(d.kind);
    SetKeepsPrintable(j, StatementTypeKey, Str(KindName(d.kind)));
    SetKeepsPrintable(j1, RowCountKey, Num(d.rowCount));
    SetKeepsPrintable(j2, ColumnCountKey, Num(d.columnCount));
    SetKeepsPrintable(j3, PiiEmailColumnsKey, Num(d.pii.emailColumns));
    SetKeepsPrintable(j4, PiiPhoneColumnsKey, Num(d.pii.phoneColumns));
    SetKeepsPrintable(j5, PiiCreditCardColumnsKey, Num(d.pii.creditCardColumns));
  }

  /** A record made by a factory always serializes, with its members in byte order of their keys. */
  lemma WellFormedDumps(r: AuditRecord)
    requires WellFormed(r)
    ensures Printable(Serialize(r))
    ensures var o := Spell(Serialize(r)); forall i, k :: 0 <= i < k < |o| ==> Decimal.LexLess(o[i].0, o[k].0)
    ensures Dump(Spell(Serialize(r))) == Returned(Line(r))
  {
    hide Utf8.Valid, EscapeAll, KeyName, FormatUtc;
    var stamp := FormatUtc(r.timestampMs);
    TimestampIsClean(r.timestampMs);
    EnvelopePrintable(stamp, r);
    TablesPrintable(WithEnvelope(stamp, r), r.tables);
    DetailsPrintable(WithTables(WithEnvelope(stamp, r), r.tables), r.details);
    var o := Spell(Serialize(r));
    forall i | 0 <= i < |o| ensures Utf8.Valid(o[i].0) && Encodable(o[i].1) {
      assert Serialize(r)[i] in Serialize(r);
      KeyIsClean(Serialize(r)[i].0);
    }
  }
}
