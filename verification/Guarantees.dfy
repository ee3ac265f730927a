/** What holds of every single request, whatever the ports do. */
module Guarantees {
  import opened Text
  import opened SqlModel
  import opened Execution
  import opened HyriseParser
  import opened Analyzer
  import opened Policy
  import opened Authorization
  import opened Classifier
  import opened ResultMasking
  import opened Lineage
  import opened Audit
  import opened Service

  // ---- Records and their table metadata

  /** The table list of a successfully analyzed single statement; empty for any other input. */
  function ReportedTables(sql: string, parser: Reply<ParseResult>): seq<string> {
    if !IsBlank(sql) && parser.Returned? && parser.value.success && |parser.value.statements| == 1
    then FirstSeen(Names(parser.value.statements[0].tables))
    else []
  }

  /** A record as a factory makes it from its details and a list of names. */
  predicate MadeFrom(r: AuditRecord, now: int, id: nat, names: seq<string>) {
    && r.timestampMs == now && r.requestId == id && !Mismatched(r.details)
    && if r.details == ParsingFailureDetails || r.details == InternalFailureDetails then r.tables == Absent
       else Judged(r.tables, names)
  }

  lemma DeniedRecord(a: SqlAnalysis, reason: RejectReason, now: int, id: nat)
    ensures var p := Denied(a, reason, now, id); p.Returned? ==> MadeFrom(p.value.record, now, id, a.tables)
  {
    hide Judged, TablesOf;
    TablesJudged(a.tables);
  }

  lemma CompletedRecord(ix: Index, a: SqlAnalysis, executor: Reply<ExecutionResult>, now: int, id: nat)
    ensures var p := Complete(ix, a, executor, now, id); p.Returned? ==> MadeFrom(p.value.record, now, id, a.tables)
  {
    hide Judged, TablesOf;
    TablesJudged(a.tables);
  }

  lemma AnalysisTables(sql: string, parser: Reply<ParseResult>)
    ensures var r := Analyze(sql, parser); r.Returned? ==> r.value.tables == ReportedTables(sql, parser)
  {
  }

  /**
    Every record carries its own id and the clock's time, and its tables are the whole
    deduplicated list of reported names or nothing, decided by that list alone; parsing and
    internal failures never carry any.
   */
  lemma RecordsComeFromFactories(ix: Index, req: Request, id: nat)
    ensures var r := Handle(ix, req, id).record;
      MadeFrom(r, req.env.now, id, ReportedTables(req.sql, req.env.parser)) && WellFormed(r)
  {
    hide Judged, Evaluate, Denied, Complete, IsBlank, PlainIdentifier, ValidTableName;
    RecordMade(ix, req, id);
    JudgedIsWellFormed(Handle(ix, req, id).record, ReportedTables(req.sql, req.env.parser));
  }

  lemma JudgedIsWellFormed(r: AuditRecord, names: seq<string>)
    requires MadeFrom(r, r.timestampMs, r.requestId, names)
    ensures WellFormed(r)
  {
    hide PlainIdentifier, ValidTableName;
    forall i | 0 <= i < |names| ensures ValidTableName(names[i]) <==> PlainIdentifier(names[i]) {
      ValidNames(names[i]);
    }
  }

  lemma RecordMade(ix: Index, req: Request, id: nat)
    ensures MadeFrom(Handle(ix, req, id).record, req.env.now, id, ReportedTables(req.sql, req.env.parser))
  {
    hide Judged, Evaluate, Denied, Complete, Mismatched;
    InternalMade(req.env.now, id, ReportedTables(req.sql, req.env.parser));
    var env := req.env;
    var analyzed := Analyze(req.sql, env.parser);
    if analyzed.Returned? {
      var a := analyzed.value;
      AnalysisTables(req.sql, env.parser);
      DeniedRecord(a, Evaluate(a).reason, env.now, id);
      CompletedRecord(ix, a, env.executor, env.now, id);
    }
  }

  lemma InternalMade(now: int, id: nat, names: seq<string>)
    ensures MadeFrom(InternalProcessing(now, id).record, now, id, names)
  {
  }

  /** The only analysis with a kind other than its class is the unanalyzed one. */
  lemma KindDecidesClass(sql: string, parser: Reply<ParseResult>)
    ensures var r := Analyze(sql, parser); r.Returned? ==> r.value.class_ == ClassOf(r.value.kind)
  {
  }

  // ---- Exact cause of an internal failure

  /** Something upstream broke its contract. */
  ghost predicate Broken(sql: string, env: Environment) {
    && !IsBlank(sql)
    && (|| env.parser.Threw?
        || (env.parser.value.success && |env.parser.value.statements| > 1 && ToInt32(|env.parser.value.statements|) < 0)
        || (Approved(sql, env.parser) && BrokenExecution(env.parser.value.statements[0].kind, env.executor)))
  }

  ghost predicate BrokenExecution(kind: StatementType, executor: Reply<ExecutionResult>) {
    || executor.Threw?
    || (executor.value.status == Executed &&
        if kind == Insert then executor.value.affectedRows != 1
        else
          || executor.value.rowCount < 0
          || exists i :: 0 <= i < |executor.value.rows| && |executor.value.rows[i]| != |executor.value.columns|)
  }

  /** An approved request comes from exactly one parsed statement, a SELECT or an INSERT. */
  lemma ApprovedIsSingle(sql: string, parser: Reply<ParseResult>)
    requires Approved(sql, parser)
    ensures !IsBlank(sql) && parser.Returned? && parser.value.success && |parser.value.statements| == 1
    ensures var s := parser.value.statements[0];
      && (s.kind == Select || s.kind == Insert)
      && Analyze(sql, parser).value == StatementAnalysis(s, FirstSeen(Names(s.tables)))
  {
    KindDecidesClass(sql, parser);
  }

  lemma ReadNeverInvalid(ix: Index, a: SqlAnalysis, e: ExecutionResult)
    ensures var o := Outcome(e, Classify(ix, a, e.columns));
      && o != Refused(InvalidClassification)
      && (o == Refused(StructuralMismatch) <==> !Rectangular(e.rows, |e.columns|))
  {
    ClassificationConsistent(ix, a, e.columns);
  }

  /**
    A record is an internal failure exactly when a port threw where it was called, reported
    2^31 or more statements that wrap to a negative count, or returned an execution result
    outside its contract.  In particular no record factory ever refuses and no
    classification is ever invalid.
   */
  lemma InternalFailureExactly(ix: Index, req: Request, id: nat)
    ensures Handle(ix, req, id).record.details == InternalFailureDetails <==> Broken(req.sql, req.env)
  {
    if Approved(req.sql, req.env.parser) {
      hide TablesOf, Classify, Outcome, Summary, ToClient, Evaluate;
      ApprovedIsSingle(req.sql, req.env.parser);
      ExecutionBrokenExactly(ix, Analyze(req.sql, req.env.parser).value, req.env.executor, req.env.now, id);
    } else {
      hide Complete, TablesOf;
    }
  }

  /** After approval only the executor can break the contract. */
  lemma ExecutionBrokenExactly(ix: Index, a: SqlAnalysis, executor: Reply<ExecutionResult>, now: int, id: nat)
    requires a.kind == Select || a.kind == Insert
    ensures Caught(Complete(ix, a, executor, now, id), now, id).record.details == InternalFailureDetails
       <==> BrokenExecution(a.kind, executor)
  {
    hide TablesOf, Classify, Outcome, Summary, ToClient;
    if executor.Returned? {
      ReadNeverInvalid(ix, a, executor.value);
    }
  }

  // ---- The release rule

  lemma {:induction false} CountIsCardinality(columns: seq<ColumnClassification>, category: PiiCategory)
    ensures Count(columns, category) == |set j | 0 <= j < |columns| && columns[j] == PiiColumn(category)|
  {
    var all := set j | 0 <= j < |columns| && columns[j] == PiiColumn(category);
    if columns == [] {
      assert all == {};
    } else {
      var front, last := columns[..|columns| - 1], |columns| - 1;
      var before := set j | 0 <= j < |front| && front[j] == PiiColumn(category);
      CountIsCardinality(front, category);
      assert all == before + if columns[last] == PiiColumn(category) then {last} else {};
    }
  }

  /** The columns of one category among the classified result columns. */
  ghost function ColumnsOf(cls: ClassificationResult, category: PiiCategory): set<int> {
    set j | 0 <= j < |cls.columns| && cls.columns[j] == PiiColumn(category)
  }

  /**
    A released result set: its own record was persisted, describes it, and counts exactly the
    columns whose cells were masked; every other column left unchanged.
   */
  ghost predicate ReleasedRead(ix: Index, req: Request, h: Handling) {
    && Approved(req.sql, req.env.parser)
    && req.env.executor.Returned?
    && var e := req.env.executor.value;
       var cls := Classify(ix, Analyze(req.sql, req.env.parser).value, e.columns);
       && e.status == Executed && e.rowCount >= 0
       && h.response.ReadSuccess?
       && |h.response.result.columnNames| == |e.columns|
       && (forall i :: 0 <= i < |e.columns| ==> h.response.result.columnNames[i] == e.columns[i].name)
       && h.record.details == SuccessDetails(Select, e.rowCount, |h.response.result.columnNames|,
            PiiSummary(|ColumnsOf(cls, Email)|, |ColumnsOf(cls, Phone)|, |ColumnsOf(cls, CreditCard)|))
       && |cls.columns| == |e.columns| && Rectangular(e.rows, |e.columns|)
       && h.response.result.rows == MaskRows(cls.columns, e.rows)
       && !AnyUnattributed(cls.columns)
  }

  ghost predicate ReleasedWrite(req: Request, h: Handling) {
    && Approved(req.sql, req.env.parser)
    && req.env.executor.Returned?
    && req.env.executor.value.status == Executed
    && req.env.executor.value.affectedRows == 1
    && h.response == WriteSuccess(1)
    && h.record.details == WriteSuccessDetails(Insert, 1)
  }

  /**
    Nothing leaves unaudited: a success implies that this request's append returned Ok with
    the matching record, and the executor was called once, with the client's own text.
   */
  lemma ReleaseRule(ix: Index, req: Request, id: nat)
    ensures var h := Handle(ix, req, id);
      && (Succeeded(h.response) ==>
            && req.env.audit == Returned(Appended)
            && h.executed == [req.sql]
            && (ReleasedRead(ix, req, h) || ReleasedWrite(req, h)))
      && |h.executed| <= 1
  {
    hide Analyze, Evaluate, Classify, TablesOf, Denied, CompleteRead, Approved;
    var analyzed := Analyze(req.sql, req.env.parser);
    if analyzed.Returned? {
      var a := analyzed.value;
      DeniedNeverReads(a, req, id);
      ApprovedMeans(req);
      if req.env.executor.Returned? {
        ReadReleased(ix, a, req.env.executor.value, req.env.now, id);
      }
    }
  }

  lemma ApprovedMeans(req: Request)
    requires Analyze(req.sql, req.env.parser).Returned?
    ensures Approved(req.sql, req.env.parser) <==> Evaluate(Analyze(req.sql, req.env.parser).value).allowed
    ensures Approved(req.sql, req.env.parser) ==>
      Analyze(req.sql, req.env.parser).value.kind == Select || Analyze(req.sql, req.env.parser).value.kind == Insert
  {
    KindDecidesClass(req.sql, req.env.parser);
  }

  lemma DeniedNeverReads(a: SqlAnalysis, req: Request, id: nat)
    ensures var p := Denied(a, Evaluate(a).reason, req.env.now, id); p.Returned? ==> p.value.result.Failure?
  {
    hide Evaluate, TablesOf;
  }

  /** What a read that succeeds has done with the execution result. */
  lemma ReadReleased(ix: Index, a: SqlAnalysis, e: ExecutionResult, now: int, id: nat)
    ensures var p, cls := CompleteRead(ix, a, e, now, id), Classify(ix, a, e.columns);
      && (p.Returned? ==> !p.value.result.WriteSuccess?)
      && (p.Returned? && p.value.result.ReadSuccess? ==>
            && e.rowCount >= 0
            && p.value.result.result.columnNames == ColumnNames(e.columns)
            && p.value.record.details == SuccessDetails(Select, e.rowCount, |e.columns|,
                 PiiSummary(|ColumnsOf(cls, Email)|, |ColumnsOf(cls, Phone)|, |ColumnsOf(cls, CreditCard)|))
            && |cls.columns| == |e.columns| && Rectangular(e.rows, |e.columns|)
            && p.value.result.result.rows == MaskRows(cls.columns, e.rows)
            && !AnyUnattributed(cls.columns)
            && a.kind == Select)
  {
    hide Classify, TablesOf;
    var cls := Classify(ix, a, e.columns);
    CountIsCardinality(cls.columns, Email);
    CountIsCardinality(cls.columns, Phone);
    CountIsCardinality(cls.columns, CreditCard);
  }

  /** The audit port decides nothing but whether a success may leave. */
  lemma FailuresKeepTheirReason(ix: Index, req: Request, id: nat, audit: Reply<AppendResult>)
    ensures var h := Handle(ix, req, id);
      var h' := Handle(ix, req.(env := req.env.(audit := audit)), id);
      && h'.record == h.record && h'.executed == h.executed
      && (h.response.Failure? && h.appended == Appended ==> h'.response == h.response)
      && (h'.response != h.response ==> Succeeded(h.response) != Succeeded(h'.response))
      && (h'.appended == Appended && h.appended == Appended ==> h'.response == h.response)
  {
  }

  /** The record names the outcome the client would get from a persisting sink. */
  predicate Truthful(p: Processing) {
    && (p.record.details.SuccessDetails? <==> p.result.ReadSuccess?)
    && (p.record.details.WriteSuccessDetails? <==> p.result.WriteSuccess?)
    && (p.record.details.ParsingFailureDetails? <==> p.result == Failure(UnparseableFailure))
    && (p.record.details.InternalFailureDetails? <==> p.result == Failure(InternalError))
    && (p.record.details.MaskingRefusedDetails? <==> p.result == Failure(MaskingRefused))
    && (p.record.details.DatabaseFailureDetails? <==>
          p.result == Failure(DatabaseUnavailable) || p.result == Failure(QueryFailed))
    && (p.record.details.PolicyRejectedDetails? <==>
          p.result == Failure(EmptySqlFailure) || p.result == Failure(PolicyFailure))
    && (p.record.details.PolicyRejectedDetails? ==>
          (p.result == Failure(EmptySqlFailure) <==> p.record.details.reason == EmptyInput))
    && (p.record.details.DatabaseFailureDetails? ==>
          (p.result == Failure(DatabaseUnavailable) <==> p.record.details.category == DbConnection))
  }

  lemma CompletedTruthfully(ix: Index, a: SqlAnalysis, executor: Reply<ExecutionResult>, now: int, id: nat)
    ensures var p := Complete(ix, a, executor, now, id); p.Returned? ==> Truthful(p.value)
  {
  }

  /** With a persisting sink the audit trail and the client are told the same outcome. */
  lemma AuditTellsTheTruth(ix: Index, req: Request, id: nat)
    requires req.env.audit == Returned(Appended)
    ensures var h := Handle(ix, req, id); Truthful(Processing(h.response, h.record))
  {
    var analyzed := Analyze(req.sql, req.env.parser);
    if analyzed.Returned? {
      CompletedTruthfully(ix, analyzed.value, req.env.executor, req.env.now, id);
    }
  }

  // ---- The whole outcome table

  /** The outcome of a request, read off the answers of the ports alone. */
  ghost function ExpectedDetails(ix: Index, req: Request): Details {
    var env := req.env;
    if Broken(req.sql, env) then InternalFailureDetails
    else if IsBlank(req.sql) then PolicyRejectedDetails(EmptyInput, Unknown, 0)
    else if !env.parser.value.success || env.parser.value.statements == [] then ParsingFailureDetails
    else if |env.parser.value.statements| > 1 then
      PolicyRejectedDetails(MultipleStatements, Unknown, ToInt32(|env.parser.value.statements|))
    else
      var s := env.parser.value.statements[0];
      if ReasonOnFacts(s) != NoReason then PolicyRejectedDetails(ReasonOnFacts(s), s.kind, 1)
      else
        ReasonOfFacts(s);
        ExpectedExecution(ix, StatementAnalysis(s, FirstSeen(Names(s.tables))), env.executor.value)
  }

  ghost function ExpectedExecution(ix: Index, a: SqlAnalysis, e: ExecutionResult): Details
    requires !BrokenExecution(a.kind, Returned(e))
  {
    var cls := Classify(ix, a, e.columns);
    match e.status
    case ConnectionFailure => DatabaseFailureDetails(DbConnection, a.kind)
    case ExecutionFailure => DatabaseFailureDetails(DbExecution, a.kind)
    case Executed =>
      if a.kind == Insert then WriteSuccessDetails(Insert, 1)
      else if e.columns != [] && !AnyShape(a, |e.columns|) then MaskingRefusedDetails(Select, |e.columns|)
      else SuccessDetails(Select, e.rowCount, |e.columns|,
             PiiSummary(|ColumnsOf(cls, Email)|, |ColumnsOf(cls, Phone)|, |ColumnsOf(cls, CreditCard)|))
  }

  lemma CompletedAsExpected(ix: Index, a: SqlAnalysis, e: ExecutionResult, now: int, id: nat)
    requires a.kind == Select || a.kind == Insert
    requires !BrokenExecution(a.kind, Returned(e))
    ensures var p := Complete(ix, a, Returned(e), now, id);
      p.Returned? && p.value.record.details == ExpectedExecution(ix, a, e)
  {
    if e.status == Executed && a.kind == Select {
      var cls := Classify(ix, a, e.columns);
      ReadNeverInvalid(ix, a, e);
      RefusedExactly(ix, a, e);
      CountIsCardinality(cls.columns, Email);
      CountIsCardinality(cls.columns, Phone);
      CountIsCardinality(cls.columns, CreditCard);
    }
  }

  lemma RefusedExactly(ix: Index, a: SqlAnalysis, e: ExecutionResult)
    requires Rectangular(e.rows, |e.columns|)
    ensures Outcome(e, Classify(ix, a, e.columns)) == Refused(UnattributedColumn)
       <==> e.columns != [] && !AnyShape(a, |e.columns|)
  {
    ClassificationConsistent(ix, a, e.columns);
    var cls := Classify(ix, a, e.columns);
    if e.columns != [] {
      assert cls.columns[0].dataClass == Unattributed <==> !AnyShape(a, |e.columns|);
    }
  }

  /** Every record, in every case, is the one the outcome table says. */
  lemma OutcomeTable(ix: Index, req: Request, id: nat)
    ensures Handle(ix, req, id).record.details == ExpectedDetails(ix, req)
  {
    InternalFailureExactly(ix, req, id);
    if !Broken(req.sql, req.env) {
      if Approved(req.sql, req.env.parser) {
        ApprovedAsExpected(ix, req, id);
      } else {
        DeniedAsExpected(ix, req, id);
      }
    }
  }

  lemma ApprovedAsExpected(ix: Index, req: Request, id: nat)
    requires Approved(req.sql, req.env.parser) && !Broken(req.sql, req.env)
    ensures Handle(ix, req, id).record.details == ExpectedDetails(ix, req)
  {
    hide Complete, ExpectedExecution, ReasonOnFacts;
    ApprovedIsSingle(req.sql, req.env.parser);
    ReasonOfFacts(req.env.parser.value.statements[0]);
    var a := Analyze(req.sql, req.env.parser).value;
    CompletedAsExpected(ix, a, req.env.executor.value, req.env.now, id);
  }

  lemma DeniedAsExpected(ix: Index, req: Request, id: nat)
    requires !Approved(req.sql, req.env.parser) && !Broken(req.sql, req.env)
    ensures Handle(ix, req, id).record.details == ExpectedDetails(ix, req)
  {
    hide Complete, ExpectedExecution, TablesOf, ReasonOnFacts, Evaluate;
    var env := req.env;
    if !IsBlank(req.sql) && env.parser.value.success && |env.parser.value.statements| == 1 {
      ReasonOfFacts(env.parser.value.statements[0]);
    } else {
      UnfinishedReason(Analyze(req.sql, env.parser).value);
    }
  }

  /** What is not a single analyzed statement is rejected for that alone. */
  lemma UnfinishedReason(a: SqlAnalysis)
    requires a.status != AnalysisOk
    ensures Evaluate(a) == Reject(match a.status
                                  case EmptySql => EmptyInput
                                  case ManyStatements => MultipleStatements
                                  case _ => UnparseableSql)
  {
  }

  // ---- Exactly which requests are answered with data

  /** An execution result the masker accepts for this analysis. */
  predicate Presentable(a: SqlAnalysis, e: ExecutionResult) {
    && e.status == Executed && e.rowCount >= 0 && Rectangular(e.rows, |e.columns|)
    && (e.columns == [] || AnyShape(a, |e.columns|))
  }

  /** Rows leave for an approved SELECT with a presentable result and a persisted record, and for nothing else. */
  lemma ReadLeavesExactly(ix: Index, req: Request, id: nat)
    ensures Handle(ix, req, id).response.ReadSuccess? <==>
      && Approved(req.sql, req.env.parser)
      && req.env.parser.value.statements[0].kind == Select
      && req.env.executor.Returned?
      && Presentable(Analyze(req.sql, req.env.parser).value, req.env.executor.value)
      && req.env.audit == Returned(Appended)
  {
    hide Handle, Analyze, Evaluate, Classify, AnyShape;
    if Approved(req.sql, req.env.parser) {
      ApprovedIsSingle(req.sql, req.env.parser);
    }
    ReleaseRule(ix, req, id);
    if Handle(ix, req, id).response.ReadSuccess? {
      ReadMeansSelect(ix, req, id);
      RefusedExactly(ix, Analyze(req.sql, req.env.parser).value, req.env.executor.value);
      ReadNeverInvalid(ix, Analyze(req.sql, req.env.parser).value, req.env.executor.value);
    } else if req.env.audit == Returned(Appended) {
      OutcomeTable(ix, req, id);
      AuditTellsTheTruth(ix, req, id);
      if Approved(req.sql, req.env.parser) { ReasonOfFacts(req.env.parser.value.statements[0]); }
    }
  }

  // ---- End-to-end masking

  /** What the adapter reports for a single statement is the translation of the one live tree. */
  lemma ReportOfOne(output: Reply<ParserOutput>)
    requires Report(output).success && |Report(output).statements| == 1
    ensures output.Returned? && output.value.valid && |NonNull(output.value.statements)| == 1
    ensures Report(output).statements == [Translate(NonNull(output.value.statements)[0])]
  {
    hide Translate;
  }

  lemma SelectFromSelect(s: Statement)
    requires Translate(s).kind == Select
    ensures s.SelectStatement?
  {
  }

  /** A released result set answers a single SELECT of the parse tree. */
  lemma ReadAnswersSelect(ix: Index, req: Request, id: nat, output: Reply<ParserOutput>)
    requires req.env.parser == Returned(Report(output))
    requires Handle(ix, req, id).response.ReadSuccess?
    ensures output.Returned? && output.value.valid && |NonNull(output.value.statements)| == 1
    ensures var s := NonNull(output.value.statements)[0];
      s.SelectStatement? && Analyze(req.sql, req.env.parser).value == SelectAnalysis(s)
  {
    hide Handle, Translate, Report, Analyze, Approved, ReleasedRead, ReleasedWrite;
    ReadMeansSelect(ix, req, id);
    ApprovedIsSingle(req.sql, req.env.parser);
    ReportOfOne(output);
    SelectFromSelect(NonNull(output.value.statements)[0]);
  }

  lemma ReadMeansSelect(ix: Index, req: Request, id: nat)
    requires Handle(ix, req, id).response.ReadSuccess?
    ensures Approved(req.sql, req.env.parser) && Analyze(req.sql, req.env.parser).value.kind == Select
  {
    hide Analyze, Evaluate, Classify, Outcome, TablesOf, Summary, ToClient, Denied;
    var analyzed := Analyze(req.sql, req.env.parser);
    if analyzed.Returned? { DeniedNeverReads(analyzed.value, req, id); }
  }

  /** What one column of a released result may look like, given where it comes from. */
  ghost predicate ShownByOrigin(config: Config, origin: Origin, raw: Cell, shown: Cell) {
    match origin
    case Elsewhere => false
    case WholeRow => false
    case RowCount => shown == raw
    case FromColumn(name) =>
      '.' !in name ==>
        match Scan(config, name)
        case None => shown == raw
        case Some(category) => shown == MaskCell(PiiColumn(category), raw)
  }

  /** The one live statement of a parser output. */
  function OnlyStatement(output: Reply<ParserOutput>): Statement {
    if output.Returned? && |NonNull(output.value.statements)| == 1 then NonNull(output.value.statements)[0]
    else OtherStatement
  }

  /**
    In every released result of a statement that is not hazardous, whatever aliases, qualifiers
    and casing it uses: a column coming from a dot-free source name that matches a mapping key up
    to case is masked with that key's category, a column matching no key and a row count are
    untouched, and no whole row and no column of unknown origin leaves.  Exposure shows that the
    condition cannot be weakened.
   */
  lemma MaskedByLineage(ix: Index, config: Config, req: Request, id: nat, output: Reply<ParserOutput>,
                        catalogue: Catalogue, origins: seq<Origin>, row: nat, i: nat)
    requires IndexOf(ix, config)
    requires req.env.parser == Returned(Report(output))
    requires Handle(ix, req, id).response.ReadSuccess? && req.env.executor.Returned?
    requires var s := OnlyStatement(output);
      && s.SelectStatement? && !Hazardous(ix, s, catalogue)
      && Produces(ScopeOf(s, catalogue), Entries(s.selectList), origins, req.env.executor.value.columns)
    requires row < |req.env.executor.value.rows| && i < |req.env.executor.value.columns|
    ensures var raw, shown := req.env.executor.value.rows, Handle(ix, req, id).response.result.rows;
      && |shown| == |raw| && |shown[row]| == |raw[row]| == |origins|
      && ShownByOrigin(config, origins[i], raw[row][i], shown[row][i])
  {
    hide Handle, Translate, Report, Analyze, Approved, Hazardous;
    ReadAnswersSelect(ix, req, id, output);
    ReleaseRule(ix, req, id);
    CellByLineage(ix, config, OnlyStatement(output), catalogue, req.env.executor.value, origins, row, i);
  }

  lemma CellByLineage(ix: Index, config: Config, s: Statement, catalogue: Catalogue, e: ExecutionResult,
                      origins: seq<Origin>, row: nat, i: nat)
    requires IndexOf(ix, config) && s.SelectStatement? && !Hazardous(ix, s, catalogue)
    requires Produces(ScopeOf(s, catalogue), Entries(s.selectList), origins, e.columns)
    requires row < |e.rows| && i < |e.columns| && Rectangular(e.rows, |e.columns|)
    requires !AnyUnattributed(Classify(ix, SelectAnalysis(s), e.columns).columns)
    ensures var cls := Classify(ix, SelectAnalysis(s), e.columns);
      ShownByOrigin(config, origins[i], e.rows[row][i], MaskRows(cls.columns, e.rows)[row][i])
  {
    hide Hazardous, Produces;
    var a := SelectAnalysis(s);
    var cls := Classify(ix, a, e.columns);
    assert cls.columns[i] == ColumnClass(ix, a, e.columns, i);
    ProducesWidth(ScopeOf(s, catalogue), Entries(s.selectList), origins, e.columns);
    ClassifiedByLineage(ix, s, catalogue, origins, e.columns, i);
    if origins[i].FromColumn? {
      LookupIsScan(ix, config, origins[i].name);
    }
  }

  lemma ProducesWidth(scope: Scope, entries: seq<Expr>, origins: seq<Origin>, columns: seq<ColumnInfo>)
    requires Produces(scope, entries, origins, columns)
    ensures |origins| == |columns|
  {
  }
}
