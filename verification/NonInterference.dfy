/** Two requests that differ in text and cell values only: what the audit trail and the client can tell apart. */
module NonInterference {
  import opened Text
  import opened SqlModel
  import opened Execution
  import opened Analyzer
  import opened Policy
  import opened Classifier
  import opened Maskers
  import opened ResultMasking
  import opened Audit
  import opened Service
  import opened Guarantees
  import opened JsonlSink
  import opened Runs
  import SharedFile

  predicate SameShape(rows: Rows, rows': Rows) {
    |rows| == |rows'| && forall i :: 0 <= i < |rows| ==> |rows[i]| == |rows'[i]|
  }

  /** Equal in everything that is looked at except cell values. */
  predicate ResultsAlike(e: ExecutionResult, e': ExecutionResult) {
    && e.status == e'.status && e.columns == e'.columns && SameShape(e.rows, e'.rows)
    && e.rowCount == e'.rowCount && e.affectedRows == e'.affectedRows
  }

  predicate RepliesAlike(x: Reply<ExecutionResult>, x': Reply<ExecutionResult>) {
    x.Threw? == x'.Threw? && (x.Returned? ==> ResultsAlike(x.value, x'.value))
  }

  /** Any two texts with the same analysis at the same time, and executor replies alike where asked. */
  predicate RequestsAlike(req: Request, req': Request) {
    && Analyze(req.sql, req.env.parser) == Analyze(req'.sql, req'.env.parser)
    && req.env.now == req'.env.now
    && (Approved(req.sql, req.env.parser) ==> RepliesAlike(req.env.executor, req'.env.executor))
  }

  lemma OutcomesAlike(e: ExecutionResult, e': ExecutionResult, cls: ClassificationResult)
    requires ResultsAlike(e, e')
    ensures Outcome(e, cls).Masked? == Outcome(e', cls).Masked?
    ensures Outcome(e, cls).Refused? ==> Outcome(e, cls) == Outcome(e', cls)
  {
    assert Rectangular(e.rows, |e.columns|) <==> Rectangular(e'.rows, |e'.columns|);
  }

  predicate AnswersAlike(r: ServiceResult, r': ServiceResult) {
    r.ReadSuccess? == r'.ReadSuccess? && (!r.ReadSuccess? ==> r == r')
  }

  /** No text and no cell value, PII or not, reaches the audit record or decides the outcome. */
  lemma RecordIgnoresCells(ix: Index, req: Request, req': Request, id: nat)
    requires RequestsAlike(req, req')
    ensures var h, h' := Handle(ix, req, id), Handle(ix, req', id);
      && h.record == h'.record
      && |h.executed| == |h'.executed|
      && (h.appended == h'.appended ==> AnswersAlike(h.response, h'.response))
  {
    hide Analyze, Evaluate, Denied, Complete;
    var analyzed := Analyze(req.sql, req.env.parser);
    if analyzed.Returned? && Evaluate(analyzed.value).allowed {
      CompletedAlike(ix, analyzed.value, req.env.executor, req'.env.executor, req.env.now, id);
    }
  }

  lemma CompletedAlike(ix: Index, a: SqlAnalysis, x: Reply<ExecutionResult>, x': Reply<ExecutionResult>,
                       now: int, id: nat)
    requires RepliesAlike(x, x')
    ensures var p, p' := Complete(ix, a, x, now, id), Complete(ix, a, x', now, id);
      && p.Returned? == p'.Returned?
      && (p.Returned? ==> p.value.record == p'.value.record && AnswersAlike(p.value.result, p'.value.result))
  {
    hide Classify, TablesOf, Summary;
    if x.Returned? {
      OutcomesAlike(x.value, x'.value, Classify(ix, a, x.value.columns));
    }
  }

  /** Same NULL and empty status, and the same retained part otherwise. */
  predicate AlikeTo(category: PiiCategory, x: Cell, y: Cell) {
    || x == y
    || (x.Some? && y.Some? && x.value != "" && y.value != ""
        && RetainedOf(category, x.value) == RetainedOf(category, y.value))
  }

  predicate IndistinguishableCells(c: ColumnClassification, x: Cell, y: Cell) {
    match c.category
    case Some(category) => AlikeTo(category, x, y)
    case None => x == y
  }

  lemma MaskedCellsAlike(c: ColumnClassification, x: Cell, y: Cell)
    requires CategoryMatchesClass(c)
    ensures MaskCell(c, x) == MaskCell(c, y) <==> IndistinguishableCells(c, x, y)
  {
    if c.category.Some? && x.Some? && y.Some? {
      MaskNeverEmpty(c.category.value, x.value);
      MaskNeverEmpty(c.category.value, y.value);
      MaskRevealsRetained(c.category.value, x.value, y.value);
    }
  }

  ghost predicate Indistinguishable(columns: seq<ColumnClassification>, rows: Rows, rows': Rows)
    requires SameShape(rows, rows') && Rectangular(rows, |columns|)
  {
    forall i, j :: 0 <= i < |rows| && 0 <= j < |columns| ==> IndistinguishableCells(columns[j], rows[i][j], rows'[i][j])
  }

  lemma MaskedRowsAlike(columns: seq<ColumnClassification>, rows: Rows, rows': Rows)
    requires SameShape(rows, rows') && Rectangular(rows, |columns|) && Rectangular(rows', |columns|)
    requires forall j :: 0 <= j < |columns| ==> CategoryMatchesClass(columns[j])
    ensures MaskRows(columns, rows) == MaskRows(columns, rows') <==> Indistinguishable(columns, rows, rows')
  {
    var m, m' := MaskRows(columns, rows), MaskRows(columns, rows');
    forall i, j | 0 <= i < |rows| && 0 <= j < |columns|
      ensures m[i][j] == m'[i][j] <==> IndistinguishableCells(columns[j], rows[i][j], rows'[i][j])
    {
      MaskedCellsAlike(columns[j], rows[i][j], rows'[i][j]);
    }
    if Indistinguishable(columns, rows, rows') {
      forall i | 0 <= i < |rows| ensures m[i] == m'[i] {
        forall j | 0 <= j < |columns| ensures m[i][j] == m'[i][j] {
          assert IndistinguishableCells(columns[j], rows[i][j], rows'[i][j]);
        }
      }
    }
  }

  /**
    Two released results of the same shape look the same to their clients exactly when their
    non-PII cells are equal and their PII cells agree on NULL, on emptiness and on the part
    the masking rule retains.
   */
  lemma ClientLearnsRetainedPartsOnly(ix: Index, req: Request, req': Request, id: nat)
    requires RequestsAlike(req, req') && AppendSafely(req'.env.audit) == Appended
    requires Handle(ix, req, id).response.ReadSuccess?
    ensures req.env.executor.Returned? && req'.env.executor.Returned?
    ensures var e, e' := req.env.executor.value, req'.env.executor.value;
      var cls := Classify(ix, Analyze(req.sql, req.env.parser).value, e.columns);
      SameShape(e.rows, e'.rows) && Rectangular(e.rows, |cls.columns|) &&
      (Indistinguishable(cls.columns, e.rows, e'.rows) <==>
        Handle(ix, req', id).response == Handle(ix, req, id).response)
  {
    hide Handle, Analyze, Evaluate, Classify;
    RecordIgnoresCells(ix, req, req', id);
    AppendedAs(ix, req, id);
    AppendedAs(ix, req', id);
    ReleaseRule(ix, req, id);
    ReleaseRule(ix, req', id);
    var e, e' := req.env.executor.value, req'.env.executor.value;
    var a := Analyze(req.sql, req.env.parser).value;
    var cls := Classify(ix, a, e.columns);
    ClassificationConsistent(ix, a, e.columns);
    MaskedRowsAlike(cls.columns, e.rows, e'.rows);
  }

  lemma AppendedAs(ix: Index, req: Request, id: nat)
    ensures Handle(ix, req, id).appended == AppendSafely(req.env.audit)
  {
  }

  // ---- Whole runs

  predicate CallsAlike(c: Call, c': Call) {
    RequestsAlike(AsRequest(c, Threw), AsRequest(c', Threw)) && c.io == c'.io
  }

  predicate HandlingsAlike(h: Handling, h': Handling) {
    h.record == h'.record && h.appended == h'.appended && AnswersAlike(h.response, h'.response)
  }

  lemma ServedAlike(ix: Index, s: Served, s': Served, c: Call, c': Call, id: nat)
    requires s.sink == s'.sink && CallsAlike(c, c')
    ensures var t, t' := ServeOne(ix, s, c, id), ServeOne(ix, s', c', id);
      && t.sink == t'.sink
      && |t.log| == |s.log| + 1 && |t'.log| == |s'.log| + 1
      && t.log[..|s.log|] == s.log && t'.log[..|s'.log|] == s'.log
      && HandlingsAlike(t.log[|s.log|], t'.log[|s'.log|])
  {
    hide Handle, AppendTo, RequestsAlike, AnswersAlike;
    RecordIgnoresCells(ix, AsRequest(c, Threw), AsRequest(c', Threw), id);
    var result := AppendTo(s.sink, RecordFor(ix, c, id), c.io).1;
    RecordIsSettled(ix, c, id, result);
    RecordIsSettled(ix, c', id, result);
    AuditLeavesAlike(c, c', Returned(result));
    RecordIgnoresCells(ix, AsRequest(c, Returned(result)), AsRequest(c', Returned(result)), id);
  }

  lemma AuditLeavesAlike(c: Call, c': Call, audit: Reply<AppendResult>)
    requires RequestsAlike(AsRequest(c, Threw), AsRequest(c', Threw))
    ensures RequestsAlike(AsRequest(c, audit), AsRequest(c', audit))
  {
  }

  /**
    Two runs whose calls are alike one by one and meet the same operating system leave byte for
    byte the same file, with the same records and the same outcomes: neither texts nor cell
    values reach the audit trail.
   */
  lemma {:induction false} FileIgnoresCells(ix: Index, sink: Sink, calls: seq<Call>, calls': seq<Call>)
    requires |calls| == |calls'| && forall i :: 0 <= i < |calls| ==> CallsAlike(calls[i], calls'[i])
    ensures var s, s' := Serve(ix, sink, calls), Serve(ix, sink, calls');
      && s.sink == s'.sink
      && |s.log| == |s'.log| == |calls|
      && forall i :: 0 <= i < |calls| ==> HandlingsAlike(s.log[i], s'.log[i])
  {
    hide ServeOne, CallsAlike, HandlingsAlike;
    if calls != [] {
      var front, front', n := calls[..|calls| - 1], calls'[..|calls| - 1], |calls| - 1;
      var s, s' := Serve(ix, sink, front), Serve(ix, sink, front');
      FileIgnoresCells(ix, sink, front, front');
      ServedAlike(ix, s, s', calls[n], calls'[n], IdAfter(1, n));
      var t, t' := Serve(ix, sink, calls), Serve(ix, sink, calls');
      forall i | 0 <= i < n ensures HandlingsAlike(t.log[i], t'.log[i]) {
        assert t.log[..n][i] == t.log[i] && t'.log[..n][i] == t'.log[i];
      }
    }
  }

  /** The same for threads, however differently the two systems are scheduled. */
  lemma SharedFileIgnoresCells(ix: Index, before: Sink, labels: seq<SharedFile.Label>, labels': seq<SharedFile.Label>)
    requires var w, w' := SharedFile.After(ix, before, labels), SharedFile.After(ix, before, labels');
      var reqs, reqs' := SharedFile.Attempted(w.sys), SharedFile.Attempted(w'.sys);
      && |reqs| == |reqs'| && w.ios == w'.ios
      && forall i :: 0 <= i < |reqs| ==> RequestsAlike(reqs[i], reqs'[i])
    ensures var w, w' := SharedFile.After(ix, before, labels), SharedFile.After(ix, before, labels');
      w.sink == w'.sink && w.sys.attempts == w'.sys.attempts
  {
    hide SharedFile.After, SharedFile.Attempted, Serve, Run, RequestsAlike;
    var w, w' := SharedFile.After(ix, before, labels), SharedFile.After(ix, before, labels');
    SharedFile.InvariantAlways(ix, before, labels);
    SharedFile.InvariantAlways(ix, before, labels');
    var reqs, reqs' := SharedFile.Attempted(w.sys), SharedFile.Attempted(w'.sys);
    var calls, calls' := SharedFile.Calls(reqs, w.ios), SharedFile.Calls(reqs', w'.ios);
    forall i | 0 <= i < |calls| ensures CallsAlike(calls[i], calls'[i]) {
      AnsweredAlike(reqs[i], reqs'[i], w.ios[i]);
    }
    FileIgnoresCells(ix, before, calls, calls');
    SharedFile.AttemptsAreRecords(ix, w.sys);
    SharedFile.AttemptsAreRecords(ix, w'.sys);
    assert forall i :: 0 <= i < |reqs| ==> w.sys.attempts[i] == w'.sys.attempts[i];
  }

  lemma AnsweredAlike(req: Request, req': Request, io: Io)
    requires RequestsAlike(req, req')
    ensures CallsAlike(SharedFile.AsCall(req, io), SharedFile.AsCall(req', io))
  {
  }
}
