/** Whole runs of the service, first against arbitrary ports, then against the JSON Lines file. */
module Runs {
  import opened Text
  import opened SqlModel
  import opened Execution
  import opened Classifier
  import opened Audit
  import opened AuditJson
  import opened JsonlSink
  import opened Timestamp
  import opened Service
  import opened Guarantees

  // ---- Sequential runs

  /** The id a counter that starts at first hands out after n others. */
  function IdAfter(first: nat, n: nat): nat {
    (first + n) % ID_SPACE
  }

  function Run(ix: Index, first: nat, reqs: seq<Request>): (log: seq<Handling>)
    ensures |log| == |reqs|
  {
    if reqs == [] then []
    else
      var front, last := reqs[..|reqs| - 1], reqs[|reqs| - 1];
      Run(ix, first, front) + [Handle(ix, last, IdAfter(first, |front|))]
  }

  lemma {:induction false} RunAt(ix: Index, first: nat, reqs: seq<Request>, i: nat)
    requires i < |reqs|
    ensures Run(ix, first, reqs)[i] == Handle(ix, reqs[i], IdAfter(first, i))
  {
    if i < |reqs| - 1 {
      RunAt(ix, first, reqs[..|reqs| - 1], i);
    }
  }

  function RecordsOf(log: seq<Handling>): seq<AuditRecord> {
    seq(|log|, i requires 0 <= i < |log| => log[i].record)
  }

  function ResponsesOf(log: seq<Handling>): seq<ServiceResult> {
    seq(|log|, i requires 0 <= i < |log| => log[i].response)
  }

  function ExecutedBy(log: seq<Handling>): seq<string> {
    if log == [] then [] else ExecutedBy(log[..|log| - 1]) + log[|log| - 1].executed
  }

  lemma LogSnoc(log: seq<Handling>, h: Handling)
    ensures RecordsOf(log + [h]) == RecordsOf(log) + [h.record]
    ensures ResponsesOf(log + [h]) == ResponsesOf(log) + [h.response]
    ensures ExecutedBy(log + [h]) == ExecutedBy(log) + h.executed
  {
    assert (log + [h])[..|log|] == log;
  }

  lemma EmptyLog()
    ensures RecordsOf([]) == [] && ResponsesOf([]) == [] && ExecutedBy([]) == []
  {
  }

  lemma NextIdAfter(first: nat, n: nat)
    ensures NextId(IdAfter(first, n)) == IdAfter(first, n + 1)
  {
  }

  lemma RunSnoc(ix: Index, first: nat, reqs: seq<Request>, req: Request)
    ensures Run(ix, first, reqs + [req]) == Run(ix, first, reqs) + [Handle(ix, req, IdAfter(first, |reqs|))]
  {
    hide Handle;
    assert (reqs + [req])[..|reqs|] == reqs;
  }

  /** The service object, fed request by request, does what the run says: ids, calls, attempts and answers. */
  method ServeAll(service: ProxyService, reqs: seq<Request>) returns (responses: seq<ServiceResult>)
    requires service.nextRequestId < ID_SPACE
    modifies service
    ensures var log := Run(service.ix, old(service.nextRequestId), reqs);
      && responses == ResponsesOf(log)
      && service.appendAttempts == old(service.appendAttempts) + RecordsOf(log)
      && service.executorCalls == old(service.executorCalls) + ExecutedBy(log)
    ensures service.nextRequestId == IdAfter(old(service.nextRequestId), |reqs|)
  {
    hide Handle, ExecutedBy, RecordsOf, ResponsesOf;
    responses := [];
    ghost var first, calls, attempts := service.nextRequestId, service.executorCalls, service.appendAttempts;
    ghost var log: seq<Handling> := [];
    EmptyLog();
    for i := 0 to |reqs|
      invariant log == Run(service.ix, first, reqs[..i])
      invariant responses == ResponsesOf(log)
      invariant service.appendAttempts == attempts + RecordsOf(log)
      invariant service.executorCalls == calls + ExecutedBy(log)
      invariant service.nextRequestId == IdAfter(first, i)
    {
      hide Run;
      ghost var h := Handle(service.ix, reqs[i], service.nextRequestId);
      RunSnoc(service.ix, first, reqs[..i], reqs[i]);
      assert reqs[..i + 1] == reqs[..i] + [reqs[i]];
      LogSnoc(log, h);
      NextIdAfter(first, i);
      var response := service.HandleRequest(reqs[i]);
      responses := responses + [response];
      log := log + [h];
    }
    assert reqs[..|reqs|] == reqs;
  }

  /** What is promised about one request and its trace. */
  ghost predicate Sound(ix: Index, req: Request, h: Handling, id: nat) {
    && WellFormed(h.record) && h.record.requestId == id
    && |h.executed| <= 1
    && (Succeeded(h.response) ==>
          req.env.audit == Returned(Appended) && (ReleasedRead(ix, req, h) || ReleasedWrite(req, h)))
    && (h.record.details == InternalFailureDetails <==> Broken(req.sql, req.env))
  }

  lemma HandledSoundly(ix: Index, req: Request, id: nat)
    ensures Sound(ix, req, Handle(ix, req, id), id)
  {
    RecordsComeFromFactories(ix, req, id);
    ReleaseRule(ix, req, id);
    InternalFailureExactly(ix, req, id);
  }

  /**
    A whole run against arbitrary ports: the i-th of fewer than 2^64 requests makes exactly one
    append attempt, with id i + 1; it calls the executor at most once; and it answers with a
    success only if that very append returned Ok and the record describes what left.
   */
  lemma EveryRun(ix: Index, reqs: seq<Request>, i: nat)
    requires i < |reqs| < 0x1_0000_0000_0000_0000
    ensures Sound(ix, reqs[i], Run(ix, 1, reqs)[i], i + 1)
  {
    hide Handle;
    RunAt(ix, 1, reqs, i);
    HandledSoundly(ix, reqs[i], i + 1);
  }

  // ---- Runs that audit into the file

  /** One client call; io is what the operating system will do with the audit line. */
  datatype Call = Call(sql: string, now: int, parser: Reply<ParseResult>, executor: Reply<ExecutionResult>, io: Io)

  /** The log so far, the line of each record, and the sink. */
  datatype Served = Served(log: seq<Handling>, lines: seq<string>, sink: Sink)

  function AsRequest(c: Call, audit: Reply<AppendResult>): Request {
    Request(c.sql, Environment(c.now, c.parser, c.executor, audit))
  }

  /** The record of a call does not depend on what the sink will answer. */
  function RecordFor(ix: Index, c: Call, id: nat): AuditRecord {
    Handle(ix, AsRequest(c, Threw), id).record
  }

  function ServeOne(ix: Index, s: Served, c: Call, id: nat): Served {
    var r := RecordFor(ix, c, id);
    var (sink, result) := AppendTo(s.sink, r, c.io);
    Served(s.log + [Handle(ix, AsRequest(c, Returned(result)), id)], s.lines + [Line(r)], sink)
  }

  function Serve(ix: Index, sink: Sink, calls: seq<Call>): Served {
    if calls == [] then Served([], [], sink)
    else ServeOne(ix, Serve(ix, sink, calls[..|calls| - 1]), calls[|calls| - 1], IdAfter(1, |calls| - 1))
  }

  /** How many records of the log were persisted. */
  function OkCount(log: seq<Handling>): nat {
    if log == [] then 0 else OkCount(log[..|log| - 1]) + if log[|log| - 1].appended == Appended then 1 else 0
  }

  /** The first k appends succeeded and the rest failed, without releasing any result. */
  ghost predicate PersistedPrefix(log: seq<Handling>, k: nat) {
    && k <= |log|
    && (forall i :: 0 <= i < |log| ==> (log[i].appended == Appended <==> i < k))
    && (forall i :: k <= i < |log| ==> !Succeeded(log[i].response))
  }

  /** The file is what it was, then the first k lines, then at most a torn piece of the next. */
  ghost predicate Trail(before: string, file: string, lines: seq<string>, k: nat)
    requires k <= |lines|
  {
    var done := before + Added(lines[..k]);
    && done <= file
    && (k == |lines| ==> file == done)
    && (k < |lines| ==> file[|done|..] <= lines[k] + "\n")
  }

  ghost predicate Invariant(before: string, s: Served, n: nat) {
    var k := OkCount(s.log);
    && |s.log| == |s.lines| == n
    && (forall i :: 0 <= i < n ==> s.log[i].record.requestId == IdAfter(1, i))
    && (forall i :: 0 <= i < n ==> '\n' !in s.lines[i])
    && PersistedPrefix(s.log, k)
    && Trail(before, s.sink.file, s.lines, k)
    && (k < n ==> Dead(s.sink))
  }

  /** What one call does, as far as the log and the file can tell. */
  ghost predicate Step(s: Served, s': Served, h: Handling, line: string, n: nat) {
    && s'.log == s.log + [h] && s'.lines == s.lines + [line]
    && h.record.requestId == IdAfter(1, n)
    && '\n' !in line
    && (h.appended != Appended ==> !Succeeded(h.response) && Dead(s'.sink))
    && (h.appended == Appended ==> !Dead(s.sink) && s'.sink.file == s.sink.file + (line + "\n"))
    && (Dead(s.sink) ==> s'.sink == s.sink)
    && (h.appended != Appended ==> exists torn :: torn <= line + "\n" && s'.sink.file == s.sink.file + torn)
  }

  lemma RecordIsSettled(ix: Index, c: Call, id: nat, result: AppendResult)
    ensures var h := Handle(ix, AsRequest(c, Returned(result)), id);
      && h.record == RecordFor(ix, c, id)
      && h.appended == result
      && (result != Appended ==> !Succeeded(h.response))
  {
    FailuresKeepTheirReason(ix, AsRequest(c, Threw), id, Returned(result));
  }

  lemma ServeOneSteps(ix: Index, s: Served, c: Call, n: nat)
    ensures var id := IdAfter(1, n);
      var r := RecordFor(ix, c, id);
      var h := Handle(ix, AsRequest(c, Returned(AppendTo(s.sink, r, c.io).1)), id);
      Step(s, ServeOne(ix, s, c, id), h, Line(r), n)
  {
    hide Handle, AppendTo, Line;
    var id := IdAfter(1, n);
    var r := RecordFor(ix, c, id);
    RecordsComeFromFactories(ix, AsRequest(c, Threw), id);
    RecordIsSettled(ix, c, id, AppendTo(s.sink, r, c.io).1);
    SinkSteps(s.sink, r, c.io);
    LineDecodes(r);
  }

  lemma SinkSteps(sink: Sink, r: AuditRecord, io: Io)
    requires WellFormed(r)
    ensures var (after, result) := AppendTo(sink, r, io);
      && (result == Appended ==> !Dead(sink) && after.file == sink.file + (Line(r) + "\n"))
      && (result != Appended ==> Dead(after))
      && (Dead(sink) ==> after == sink)
      && (result != Appended ==> exists torn :: torn <= Line(r) + "\n" && after.file == sink.file + torn)
  {
    hide Line;
    AppendCases(sink, r, io);
    var (after, result) := AppendTo(sink, r, io);
    var whole := Line(r) + "\n";
    if result != Appended {
      var torn := if Dead(sink) then "" else Prefix(whole, io.written);
      assert torn <= whole && after.file == sink.file + torn;
    }
  }

  lemma OkCountSnoc(log: seq<Handling>, h: Handling)
    ensures OkCount(log + [h]) == OkCount(log) + if h.appended == Appended then 1 else 0
  {
    assert (log + [h])[..|log|] == log;
  }

  lemma PrefixSnoc(log: seq<Handling>, h: Handling, k: nat)
    requires PersistedPrefix(log, k)
    requires h.appended == Appended ==> k == |log|
    requires h.appended != Appended ==> !Succeeded(h.response)
    ensures PersistedPrefix(log + [h], if h.appended == Appended then k + 1 else k)
  {
  }

  lemma TrailGrows(before: string, file: string, lines: seq<string>, line: string)
    requires Trail(before, file, lines, |lines|)
    ensures Trail(before, file + (line + "\n"), lines + [line], |lines| + 1)
  {
    var all := lines + [line];
    assert lines[..|lines|] == lines && all[..|all|] == all && all[..|all| - 1] == lines;
    assert before + Added(lines) + (line + "\n") == before + (Added(lines) + (line + "\n"));
  }

  lemma TrailTears(before: string, file: string, lines: seq<string>, line: string, torn: string)
    requires Trail(before, file, lines, |lines|) && torn <= line + "\n"
    ensures Trail(before, file + torn, lines + [line], |lines|)
  {
    var all := lines + [line];
    assert lines[..|lines|] == lines && all[..|lines|] == lines;
    assert (file + torn)[|file|..] == torn;
  }

  lemma TrailStays(before: string, file: string, lines: seq<string>, line: string, k: nat)
    requires k < |lines| && Trail(before, file, lines, k)
    ensures Trail(before, file, lines + [line], k)
  {
    assert (lines + [line])[..k] == lines[..k];
  }

  lemma InvariantKept(before: string, s: Served, s': Served, h: Handling, line: string, n: nat)
    requires Invariant(before, s, n) && Step(s, s', h, line, n)
    ensures Invariant(before, s', n + 1)
  {
    var k := OkCount(s.log);
    OkCountSnoc(s.log, h);
    PrefixSnoc(s.log, h, k);
    if k < n {
      TrailStays(before, s.sink.file, s.lines, line, k);
    } else if h.appended == Appended {
      TrailGrows(before, s.sink.file, s.lines, line);
    } else {
      var torn :| torn <= line + "\n" && s'.sink.file == s.sink.file + torn;
      TrailTears(before, s.sink.file, s.lines, line, torn);
    }
  }

  lemma {:induction false} InvariantHolds(ix: Index, sink: Sink, calls: seq<Call>)
    ensures Invariant(sink.file, Serve(ix, sink, calls), |calls|)
  {
    hide Handle, AppendTo, Line;
    if calls == [] {
      assert sink.file + "" == sink.file;
    } else {
      var front, c, n := calls[..|calls| - 1], calls[|calls| - 1], |calls| - 1;
      var s := Serve(ix, sink, front);
      InvariantHolds(ix, sink, front);
      ServeOneSteps(ix, s, c, n);
      var r := RecordFor(ix, c, IdAfter(1, n));
      var h := Handle(ix, AsRequest(c, Returned(AppendTo(s.sink, r, c.io).1)), IdAfter(1, n));
      InvariantKept(sink.file, s, Serve(ix, sink, calls), h, Line(r), n);
    }
  }

  ghost predicate Sticky(log: seq<Handling>) {
    forall i, j :: 0 <= i <= j < |log| && log[i].appended != Appended ==>
      log[j].appended != Appended && !Succeeded(log[j].response)
  }

  /**
    Sticky failure: once one append has failed, every later append fails and no later request
    gets a success; so the ids of the persisted records are exactly 1 to k.
   */
  lemma FailureIsSticky(ix: Index, sink: Sink, calls: seq<Call>)
    requires |calls| < 0x1_0000_0000_0000_0000
    ensures var log := Serve(ix, sink, calls).log;
      && |log| == |calls|
      && Sticky(log)
      && (forall i :: 0 <= i < |log| ==> log[i].record.requestId == i + 1)
      && (forall i :: 0 <= i < |log| ==> (log[i].appended == Appended <==> log[i].record.requestId <= OkCount(log)))
  {
    hide Serve;
    InvariantHolds(ix, sink, calls);
    StickyFrom(sink.file, Serve(ix, sink, calls), |calls|);
  }

  lemma StickyFrom(before: string, s: Served, n: nat)
    requires Invariant(before, s, n) && n < ID_SPACE
    ensures |s.log| == n && Sticky(s.log)
    ensures forall i :: 0 <= i < n ==> s.log[i].record.requestId == i + 1
    ensures forall i :: 0 <= i < n ==> (s.log[i].appended == Appended <==> s.log[i].record.requestId <= OkCount(s.log))
  {
  }

  // ---- The service and the repository together

  /** What a call settles on, whatever the sink will answer, is what its handling records and answers. */
  lemma SettledThenReleased(ix: Index, c: Call, id: nat, result: AppendResult)
    ensures var p, h := Settle(ix, AsRequest(c, Threw), id), Handle(ix, AsRequest(c, Returned(result)), id);
      && RecordFor(ix, c, id) == h.record == p.record
      && h.response == Release(p, result)
      && h.executed == if Approved(c.sql, c.parser) then [c.sql] else []
  {
  }

  lemma ServeSnoc(ix: Index, sink: Sink, calls: seq<Call>, c: Call)
    ensures Serve(ix, sink, calls + [c]) == ServeOne(ix, Serve(ix, sink, calls), c, IdAfter(1, |calls|))
  {
    hide ServeOne;
    assert (calls + [c])[..|calls|] == calls;
  }

  /** The service object and the repository object, call by call, perform the run against the file. */
  method ServeCalls(service: ProxyService, repository: JsonlAuditRepository, calls: seq<Call>)
    returns (responses: seq<ServiceResult>)
    requires service.nextRequestId == 1
    modifies service, repository
    ensures var s := Serve(service.ix, old(repository.State()), calls);
      && repository.State() == s.sink
      && responses == ResponsesOf(s.log)
      && service.appendAttempts == old(service.appendAttempts) + RecordsOf(s.log)
      && service.executorCalls == old(service.executorCalls) + ExecutedBy(s.log)
  {
    hide Handle, Settle, Release, Approved, ExecutedBy, RecordsOf, ResponsesOf, AppendTo, Line, RecordFor;
    responses := [];
    ghost var sink, executed, attempts := repository.State(), service.executorCalls, service.appendAttempts;
    ghost var s := Serve(service.ix, sink, []);
    EmptyLog();
    for i := 0 to |calls|
      invariant s == Serve(service.ix, sink, calls[..i])
      invariant repository.State() == s.sink
      invariant responses == ResponsesOf(s.log)
      invariant service.appendAttempts == attempts + RecordsOf(s.log)
      invariant service.executorCalls == executed + ExecutedBy(s.log)
      invariant service.nextRequestId == IdAfter(1, i)
    {
      hide Serve;
      var c := calls[i];
      ServeSnoc(service.ix, sink, calls[..i], c);
      assert calls[..i + 1] == calls[..i] + [c];
      NextIdAfter(1, i);
      ghost var id := service.nextRequestId;
      var p := service.Begin(AsRequest(c, Threw));
      var result := repository.Append(p.record, c.io);
      SettledThenReleased(service.ix, c, id, result);
      LogSnoc(s.log, Handle(service.ix, AsRequest(c, Returned(result)), id));
      var appended := service.CallAppend(p.record, Returned(result));
      var response := service.Conclude(p, appended);
      responses := responses + [response];
      s := ServeOne(service.ix, s, c, id);
    }
    assert calls[..|calls|] == calls;
  }

  // ---- Reading the file

  lemma {:induction false} LineOfRecord(ix: Index, sink: Sink, calls: seq<Call>, i: nat)
    requires i < |calls|
    ensures var s := Serve(ix, sink, calls);
      i < |s.log| == |s.lines| && s.lines[i] == Line(s.log[i].record)
  {
    hide AppendTo, Line;
    var front, c, n := calls[..|calls| - 1], calls[|calls| - 1], |calls| - 1;
    var s := Serve(ix, sink, front);
    InvariantHolds(ix, sink, front);
    if i < n {
      LineOfRecord(ix, sink, front, i);
    } else {
      var r := RecordFor(ix, c, IdAfter(1, n));
      RecordIsSettled(ix, c, IdAfter(1, n), AppendTo(s.sink, r, c.io).1);
    }
  }

  lemma SplitTrail(before: string, lines: seq<string>, torn: string)
    requires LineAligned(before)
    requires forall i :: 0 <= i < |lines| ==> '\n' !in lines[i]
    ensures CompleteLines(before + Added(lines) + torn) == CompleteLines(before) + lines + CompleteLines(torn)
  {
    hide CompleteLines, Added;
    var added := Added(lines);
    assert before + added + torn == before + (added + torn);
    LinesOfConcat(before, added + torn);
    AddedAligned(lines);
    LinesOfConcat(added, torn);
    AddedLines(lines);
  }

  /** The complete lines: the old ones, one per persisted record, at most the unacknowledged next one. */
  ghost predicate Extends(was: seq<string>, now: seq<string>, lines: seq<string>, k: nat)
    requires k <= |lines|
  {
    && |was| + k <= |now| <= |was| + k + (if k < |lines| then 1 else 0)
    && was <= now
    && (forall i :: 0 <= i < k ==> now[|was| + i] == lines[i])
    && (|now| > |was| + k ==> now[|was| + k] == lines[k])
  }

  lemma TrailLines(before: string, file: string, lines: seq<string>, k: nat)
    requires k <= |lines| && Trail(before, file, lines, k) && LineAligned(before)
    requires forall i :: 0 <= i < |lines| ==> '\n' !in lines[i]
    ensures Extends(CompleteLines(before), CompleteLines(file), lines, k)
  {
    hide CompleteLines, Added;
    var done := before + Added(lines[..k]);
    var torn := file[|done|..];
    assert file == done + torn;
    SplitTrail(before, lines[..k], torn);
    if k < |lines| {
      TornLines(lines[k], torn);
    } else {
      NoLine(torn);
    }
  }

  ghost predicate DecodesTo(line: string, r: AuditRecord) {
    DecodeLine(line) == Some(Decoded(FormatUtc(r.timestampMs), r.requestId, r.tables, r.details))
  }

  /**
    The audit file: from a line-aligned file, after any run the complete lines are the old ones,
    then exactly one line per persisted record, then at most the line of the next record, written
    but not acknowledged.
   */
  lemma AuditFileLines(ix: Index, sink: Sink, calls: seq<Call>)
    requires LineAligned(sink.file)
    ensures var s := Serve(ix, sink, calls);
      && OkCount(s.log) <= |s.log| == |s.lines| == |calls|
      && Extends(CompleteLines(sink.file), CompleteLines(s.sink.file), s.lines, OkCount(s.log))
  {
    hide Serve;
    InvariantHolds(ix, sink, calls);
    var s := Serve(ix, sink, calls);
    TrailLines(sink.file, s.sink.file, s.lines, OkCount(s.log));
  }

  /** Line i of what a run added, acknowledged or not, decodes to record i. */
  lemma AuditFileReads(ix: Index, sink: Sink, calls: seq<Call>, i: nat)
    requires LineAligned(sink.file)
    requires |CompleteLines(sink.file)| + i < |CompleteLines(Serve(ix, sink, calls).sink.file)|
    ensures var log, was := Serve(ix, sink, calls).log, CompleteLines(sink.file);
      var now := CompleteLines(Serve(ix, sink, calls).sink.file);
      i < |log| && DecodesTo(now[|was| + i], log[i].record)
  {
    hide Serve, DecodeLine, Line, CompleteLines, OkCount, FormatUtc, Representable, ParseUtc;
    AuditFileLines(ix, sink, calls);
    LineOfRecord(ix, sink, calls, i);
    LineDecodes(Serve(ix, sink, calls).log[i].record);
  }

  /** Each entry of a run against the file is the handling of its call under the answer the sink gave. */
  lemma {:induction false} ServeEntry(ix: Index, sink: Sink, calls: seq<Call>, i: nat)
    requires i < |calls|
    ensures var log := Serve(ix, sink, calls).log;
      i < |log| && log[i] == Handle(ix, AsRequest(calls[i], Returned(log[i].appended)), IdAfter(1, i))
  {
    hide Handle, AppendTo, Line;
    var front, n := calls[..|calls| - 1], |calls| - 1;
    InvariantHolds(ix, sink, front);
    if i < n {
      ServeEntry(ix, sink, front, i);
    } else {
      var r := RecordFor(ix, calls[n], IdAfter(1, n));
      RecordIsSettled(ix, calls[n], IdAfter(1, n), AppendTo(Serve(ix, sink, front).sink, r, calls[n].io).1);
    }
  }
}
