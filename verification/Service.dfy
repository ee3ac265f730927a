/**
  ProxyService: analyze, decide, execute, classify, mask, audit once, release.  Every port
  is adversarial: it may return any value or throw.
 */
module Service {
  import opened Text
  import opened SqlModel
  import opened Execution
  import opened Analyzer
  import opened Policy
  import opened Classifier
  import opened ResultMasking
  import opened Audit

  datatype ServiceFailure =
    | EmptySqlFailure
    | UnparseableFailure
    | PolicyFailure
    | DatabaseUnavailable
    | QueryFailed
    | MaskingRefused
    | InternalError

  datatype MaskedQueryResult = MaskedQueryResult(columnNames: seq<string>, rows: Rows)

  /** The only shapes that leave the service. */
  datatype ServiceResult =
    | ReadSuccess(result: MaskedQueryResult)
    | WriteSuccess(affectedRows: nat)
    | Failure(reason: ServiceFailure)

  /** What the clock and the three ports would answer during one request. */
  datatype Environment = Environment(
    now: int,
    parser: Reply<ParseResult>,
    executor: Reply<ExecutionResult>,
    audit: Reply<AppendResult>)

  datatype Request = Request(sql: string, env: Environment)

  datatype Processing = Processing(result: ServiceResult, record: AuditRecord)

  // ---- Small pure steps

  function ClientFailureFor(reason: RejectReason): ServiceFailure {
    if reason == EmptyInput then EmptySqlFailure else PolicyFailure
  }

  function CheckedCount(value: int): Reply<nat> {
    if value < 0 then Threw else Returned(value)
  }

  function Count(columns: seq<ColumnClassification>, category: PiiCategory): nat {
    if columns == [] then 0
    else Count(columns[..|columns| - 1], category) + if columns[|columns| - 1] == PiiColumn(category) then 1 else 0
  }

  function Summary(cls: ClassificationResult): PiiSummary {
    PiiSummary(Count(cls.columns, Email), Count(cls.columns, Phone), Count(cls.columns, CreditCard))
  }

  function ColumnNames(columns: seq<ColumnInfo>): seq<string> {
    seq(|columns|, i requires 0 <= i < |columns| => columns[i].name)
  }

  function ToClient(masked: ExecutionResult): MaskedQueryResult {
    MaskedQueryResult(ColumnNames(masked.columns), masked.rows)
  }

  // ---- process(), split where control leaves for the executor

  /** Before execution a request is settled, or cleared to run with its analysis. */
  datatype Stage = Settled(p: Processing) | Cleared(analysis: SqlAnalysis)

  function Pack(result: ServiceResult, record: Reply<AuditRecord>): Reply<Processing> {
    if record.Threw? then Threw else Returned(Processing(result, record.value))
  }

  function Authorize(sql: string, parser: Reply<ParseResult>, now: int, id: nat): Reply<Stage> {
    var analyzed := Analyze(sql, parser);
    if analyzed.Threw? then Threw
    else
      var a := analyzed.value;
      var decision := Evaluate(a);
      if decision.allowed then Returned(Cleared(a))
      else
        var denied := Denied(a, decision.reason, now, id);
        if denied.Threw? then Threw else Returned(Settled(denied.value))
  }

  function Denied(a: SqlAnalysis, reason: RejectReason, now: int, id: nat): Reply<Processing> {
    if reason == UnparseableSql then
      Pack(Failure(UnparseableFailure), MakeRecord(now, id, ParsingFailureDetails, []))
    else
      var count := CheckedCount(a.statementCount);
      if count.Threw? then Threw
      else Pack(Failure(ClientFailureFor(reason)),
                MakeRecord(now, id, PolicyRejectedDetails(reason, a.kind, count.value), a.tables))
  }

  function Complete(ix: Index, a: SqlAnalysis, executor: Reply<ExecutionResult>, now: int, id: nat): Reply<Processing>
  {
    if executor.Threw? then Threw
    else
      var e := executor.value;
      if e.status != Executed then
        var connection := e.status == ConnectionFailure;
        var category := if connection then DbConnection else DbExecution;
        Pack(Failure(if connection then DatabaseUnavailable else QueryFailed),
             MakeRecord(now, id, DatabaseFailureDetails(category, a.kind), a.tables))
      else if a.kind == Insert then CompleteWrite(a, e, now, id)
      else CompleteRead(ix, a, e, now, id)
  }

  function CompleteWrite(a: SqlAnalysis, e: ExecutionResult, now: int, id: nat): Reply<Processing> {
    var affected := CheckedCount(e.affectedRows);
    if affected.Threw? then Threw
    else if affected.value != 1 then Returned(InternalProcessing(now, id))
    else Pack(WriteSuccess(affected.value), MakeRecord(now, id, WriteSuccessDetails(a.kind, affected.value), a.tables))
  }

  function CompleteRead(ix: Index, a: SqlAnalysis, e: ExecutionResult, now: int, id: nat): Reply<Processing> {
    var rowCount := CheckedCount(e.rowCount);
    if rowCount.Threw? then Threw
    else
      var cls := Classify(ix, a, e.columns);
      match Outcome(e, cls)
      case Refused(UnattributedColumn) =>
        Pack(Failure(MaskingRefused), MakeRecord(now, id, MaskingRefusedDetails(a.kind, |e.columns|), a.tables))
      case Refused(_) => Returned(InternalProcessing(now, id))
      case Masked(masked) =>
        Pack(ReadSuccess(ToClient(masked)),
             MakeRecord(now, id, SuccessDetails(a.kind, rowCount.value, |e.columns|, Summary(cls)), a.tables))
  }

  function InternalProcessing(now: int, id: nat): Processing {
    Processing(Failure(InternalError), AuditRecord(now, id, Absent, InternalFailureDetails))
  }

  /** The one catch around the pipeline. */
  function Caught(p: Reply<Processing>, now: int, id: nat): Processing {
    if p.Threw? then InternalProcessing(now, id) else p.value
  }

  /** The analyzer returned and the policy allowed what it found. */
  predicate Approved(sql: string, parser: Reply<ParseResult>) {
    var analyzed := Analyze(sql, parser);
    analyzed.Returned? && Evaluate(analyzed.value).allowed
  }

  function Process(ix: Index, req: Request, id: nat): Reply<Processing> {
    var env := req.env;
    var stage := Authorize(req.sql, env.parser, env.now, id);
    if stage.Threw? then Threw
    else match stage.value
      case Settled(p) => Returned(p)
      case Cleared(a) => Complete(ix, a, env.executor, env.now, id)
  }

  /** A request's answer and record before the audit append: the pipeline inside its one catch. */
  function Settle(ix: Index, req: Request, id: nat): Processing {
    Caught(Process(ix, req, id), req.env.now, id)
  }

  function AppendSafely(audit: Reply<AppendResult>): AppendResult {
    if audit.Threw? then WriteFailure else audit.value
  }

  predicate Succeeded(r: ServiceResult) {
    !r.Failure?
  }

  /** A success leaves only with a persisted record; a failure always keeps its reason. */
  function Release(p: Processing, appended: AppendResult): ServiceResult {
    if appended != Appended && Succeeded(p.result) then Failure(InternalError) else p.result
  }

  /** Everything observable about one request: executor calls, append attempts, the answer. */
  datatype Handling = Handling(
    executed: seq<string>,
    record: AuditRecord,
    appended: AppendResult,
    response: ServiceResult)

  function Handle(ix: Index, req: Request, id: nat): Handling {
    var p := Settle(ix, req, id);
    var appended := AppendSafely(req.env.audit);
    Handling(if Approved(req.sql, req.env.parser) then [req.sql] else [], p.record, appended, Release(p, appended))
  }

  const ID_SPACE: nat := 0x1_0000_0000_0000_0000

  function NextId(id: nat): nat {
    (id + 1) % ID_SPACE
  }

  // ---- The service object

  method Summarize(cls: ClassificationResult) returns (s: PiiSummary)
    ensures s == Summary(cls)
  {
    var email, phone, card := 0, 0, 0;
    for i := 0 to |cls.columns|
      invariant email == Count(cls.columns[..i], Email)
      invariant phone == Count(cls.columns[..i], Phone)
      invariant card == Count(cls.columns[..i], CreditCard)
    {
      var c := cls.columns[i];
      assert cls.columns[..i + 1][..i] == cls.columns[..i];
      if c.dataClass != Pii || c.category.None? {
        continue;
      }
      match c.category.value {
        case Email => email := email + 1;
        case Phone => phone := phone + 1;
        case CreditCard => card := card + 1;
      }
    }
    assert cls.columns[..|cls.columns|] == cls.columns;
    s := PiiSummary(email, phone, card);
  }

  method ToMaskedResult(masked: ExecutionResult) returns (out: MaskedQueryResult)
    ensures out == ToClient(masked)
  {
    var names: seq<string> := [];
    for i := 0 to |masked.columns|
      invariant names == ColumnNames(masked.columns)[..i]
    {
      names := names + [masked.columns[i].name];
    }
    out := MaskedQueryResult(names, masked.rows);
  }

  class ProxyService {
    const ix: Index
    var nextRequestId: nat
    ghost var executorCalls: seq<string>
    ghost var appendAttempts: seq<AuditRecord>

    constructor (ix: Index)
      ensures this.ix == ix && nextRequestId == 1 && executorCalls == [] && appendAttempts == []
    {
      this.ix := ix;
      nextRequestId := 1;
      executorCalls, appendAttempts := [], [];
    }

    /** The executor port: every call is logged before its reply is known. */
    method CallExecutor(sql: string, reply: Reply<ExecutionResult>) returns (r: Reply<ExecutionResult>)
      modifies this`executorCalls
      ensures r == reply && executorCalls == old(executorCalls) + [sql]
    {
      executorCalls := executorCalls + [sql];
      r := reply;
    }

    /** The audit port. */
    method CallAppend(record: AuditRecord, reply: Reply<AppendResult>) returns (r: AppendResult)
      modifies this`appendAttempts
      ensures r == AppendSafely(reply) && (reply.Threw? ==> r == WriteFailure)
      ensures appendAttempts == old(appendAttempts) + [record]
    {
      appendAttempts := appendAttempts + [record];
      r := if reply.Threw? then WriteFailure else reply.value;
    }

    method FinishRead(a: SqlAnalysis, e: ExecutionResult, now: int, id: nat) returns (r: Reply<Processing>)
      ensures r == CompleteRead(ix, a, e, now, id)
    {
      if e.rowCount < 0 {
        return Threw;
      }
      var rowCount: nat := e.rowCount;
      var columnCount := |e.columns|;
      var cls := ClassifyColumns(ix, a, e.columns);
      var masked := Mask(e, cls);
      if masked.Refused? {
        if masked.reason == UnattributedColumn {
          var refused := NewRecord(now, id, MaskingRefusedDetails(a.kind, columnCount), a.tables);
          return Pack(Failure(MaskingRefused), refused);
        }
        return Returned(InternalProcessing(now, id));
      }
      var summary := Summarize(cls);
      var client := ToMaskedResult(masked.result);
      var record := NewRecord(now, id, SuccessDetails(a.kind, rowCount, columnCount, summary), a.tables);
      r := Pack(ReadSuccess(client), record);
    }

    method Finish(a: SqlAnalysis, executor: Reply<ExecutionResult>, now: int, id: nat) returns (r: Reply<Processing>)
      ensures r == Complete(ix, a, executor, now, id)
    {
      if executor.Threw? {
        return Threw;
      }
      var e := executor.value;
      if e.status != Executed {
        var connection := e.status == ConnectionFailure;
        var category := if connection then DbConnection else DbExecution;
        var failed := NewRecord(now, id, DatabaseFailureDetails(category, a.kind), a.tables);
        return Pack(Failure(if connection then DatabaseUnavailable else QueryFailed), failed);
      }
      if a.kind == Insert {
        if e.affectedRows < 0 {
          return Threw;
        }
        if e.affectedRows != 1 {
          return Returned(InternalProcessing(now, id));
        }
        var written := NewRecord(now, id, WriteSuccessDetails(a.kind, 1), a.tables);
        return Pack(WriteSuccess(1), written);
      }
      r := FinishRead(a, e, now, id);
    }

    method ProcessRequest(req: Request, id: nat) returns (r: Reply<Processing>)
      modifies this`executorCalls
      ensures r == Process(ix, req, id)
      ensures executorCalls == old(executorCalls) + if Approved(req.sql, req.env.parser) then [req.sql] else []
    {
      var now := req.env.now;
      var analyzed := AnalyzeSql(req.sql, req.env.parser);
      if analyzed.Threw? {
        return Threw;
      }
      var a := analyzed.value;
      var decision := EvaluatePolicy(a);
      if !decision.allowed {
        if decision.reason == UnparseableSql {
          var unparsed := NewRecord(now, id, ParsingFailureDetails, []);
          return Pack(Failure(UnparseableFailure), unparsed);
        }
        if a.statementCount < 0 {
          return Threw;
        }
        var denied := NewRecord(now, id, PolicyRejectedDetails(decision.reason, a.kind, a.statementCount), a.tables);
        return Pack(Failure(ClientFailureFor(decision.reason)), denied);
      }
      var execution := CallExecutor(req.sql, req.env.executor);
      r := Finish(a, execution, now, id);
    }

    /** handle() up to its append: one id and one pipeline inside the one catch. */
    method Begin(req: Request) returns (p: Processing)
      modifies this`nextRequestId, this`executorCalls
      ensures p == Settle(ix, req, old(nextRequestId))
      ensures executorCalls == old(executorCalls) + if Approved(req.sql, req.env.parser) then [req.sql] else []
      ensures nextRequestId == NextId(old(nextRequestId))
    {
      var id := nextRequestId;
      nextRequestId := (nextRequestId + 1) % ID_SPACE;
      var processed := ProcessRequest(req, id);
      p := Caught(processed, req.env.now, id);
    }

    /** handle() after its append. */
    method Conclude(p: Processing, appended: AppendResult) returns (response: ServiceResult)
      ensures response == Release(p, appended)
    {
      if appended != Appended {
        if Succeeded(p.result) {
          return Failure(InternalError);
        }
      }
      response := p.result;
    }

    /** handle(): one id, one pipeline, one append attempt, one answer. */
    method HandleRequest(req: Request) returns (response: ServiceResult)
      modifies this
      ensures var h := Handle(ix, req, old(nextRequestId));
        && response == h.response
        && executorCalls == old(executorCalls) + h.executed
        && appendAttempts == old(appendAttempts) + [h.record]
      ensures nextRequestId == NextId(old(nextRequestId))
    {
      var p := Begin(req);
      var appended := CallAppend(p.record, req.env.audit);
      response := Conclude(p, appended);
    }
  }
}
