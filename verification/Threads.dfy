/**
  Any number of threads inside handle(), interleaved arbitrarily.  A run is any sequence of
  labels; a label that is not enabled does nothing.  The lock is atomic; the clock and the
  three ports answer whatever the label says.
 */
module Threads {
  import opened Text
  import opened SqlModel
  import opened Execution
  import opened Classifier
  import opened Audit
  import opened Service
  import opened Runs

  /** One call of handle(), from its start to its return. */
  datatype Activation =
    | Waiting(sql: string)
    | Locked(sql: string)
    | Stamped(sql: string, now: int, id: nat)
    | Executing(sql: string, now: int, id: nat, parser: Reply<ParseResult>, analysis: SqlAnalysis)
    | Processed(req: Request, id: nat, p: Processing)
    | Logged(req: Request, id: nat, p: Processing)
    | Done(response: ServiceResult)

  datatype Finished = Finished(thread: nat, req: Request, response: ServiceResult)

  datatype System = System(
    threads: seq<Activation>,
    holder: Option<nat>,
    nextId: nat,
    executed: seq<string>,
    attempts: seq<AuditRecord>,
    history: seq<Finished>)

  datatype Label =
    | Start(sql: string)
    | Acquire(t: nat)
    | ReadClock(t: nat, now: int)
    | ParserAnswers(t: nat, parser: Reply<ParseResult>)
    | ExecutorAnswers(t: nat, executor: Reply<ExecutionResult>)
    | AuditAnswers(t: nat, audit: Reply<AppendResult>)
    | Unlock(t: nat)

  const INITIAL := System([], None, 1, [], [], [])

  /** A request as far as its ports have answered; what was not asked is filled in arbitrarily. */
  function Partial(sql: string, now: int, parser: Reply<ParseResult>, executor: Reply<ExecutionResult>): Request {
    Request(sql, Environment(now, parser, executor, Threw))
  }

  function AfterParser(a: Activation, parser: Reply<ParseResult>): Activation
    requires a.Stamped?
  {
    var req := Partial(a.sql, a.now, parser, Threw);
    match Authorize(a.sql, parser, a.now, a.id)
    case Threw => Processed(req, a.id, InternalProcessing(a.now, a.id))
    case Returned(Settled(p)) => Processed(req, a.id, p)
    case Returned(Cleared(analysis)) => Executing(a.sql, a.now, a.id, parser, analysis)
  }

  function AfterExecutor(ix: Index, a: Activation, executor: Reply<ExecutionResult>): Activation
    requires a.Executing?
  {
    Processed(Partial(a.sql, a.now, a.parser, executor), a.id,
              Caught(Complete(ix, a.analysis, executor, a.now, a.id), a.now, a.id))
  }

  function Answered(req: Request, audit: Reply<AppendResult>): Request {
    req.(env := req.env.(audit := audit))
  }

  predicate Enabled(s: System, l: Label) {
    match l
    case Start(_) => true
    case Acquire(t) => t < |s.threads| && s.threads[t].Waiting? && s.holder == None
    case ReadClock(t, _) => t < |s.threads| && s.threads[t].Locked?
    case ParserAnswers(t, _) => t < |s.threads| && s.threads[t].Stamped?
    case ExecutorAnswers(t, _) => t < |s.threads| && s.threads[t].Executing?
    case AuditAnswers(t, _) => t < |s.threads| && s.threads[t].Processed?
    case Unlock(t) => t < |s.threads| && s.threads[t].Logged?
  }

  function Fire(ix: Index, s: System, l: Label): System
    requires Enabled(s, l)
  {
    match l
    case Start(sql) => s.(threads := s.threads + [Waiting(sql)])
    case Acquire(t) => s.(threads := s.threads[t := Locked(s.threads[t].sql)], holder := Some(t))
    case ReadClock(t, now) =>
      s.(threads := s.threads[t := Stamped(s.threads[t].sql, now, s.nextId)], nextId := NextId(s.nextId))
    case ParserAnswers(t, parser) =>
      var a := AfterParser(s.threads[t], parser);
      s.(threads := s.threads[t := a], executed := s.executed + if a.Executing? then [a.sql] else [])
    case ExecutorAnswers(t, executor) =>
      s.(threads := s.threads[t := AfterExecutor(ix, s.threads[t], executor)])
    case AuditAnswers(t, audit) =>
      var a := s.threads[t];
      s.(threads := s.threads[t := Logged(Answered(a.req, audit), a.id, a.p)], attempts := s.attempts + [a.p.record])
    case Unlock(t) =>
      var a := s.threads[t];
      var response := Release(a.p, AppendSafely(a.req.env.audit));
      s.(threads := s.threads[t := Done(response)], holder := None,
         history := s.history + [Finished(t, a.req, response)])
  }

  function After(ix: Index, labels: seq<Label>): System {
    if labels == [] then INITIAL
    else
      var s := After(ix, labels[..|labels| - 1]);
      var l := labels[|labels| - 1];
      if Enabled(s, l) then Fire(ix, s, l) else s
  }

  // ---- The invariant

  predicate Inside(a: Activation) {
    !a.Waiting? && !a.Done?
  }

  /** At most one thread is between lock and unlock: the holder. */
  ghost predicate Exclusive(s: System) {
    forall t :: 0 <= t < |s.threads| ==> (Inside(s.threads[t]) <==> s.holder == Some(t))
  }

  function Requests(history: seq<Finished>): seq<Request> {
    seq(|history|, i requires 0 <= i < |history| => history[i].req)
  }

  function SequentialLog(ix: Index, s: System): seq<Handling> {
    Run(ix, 1, Requests(s.history))
  }

  /** The activation inside the lock has done what a sequential call would have done so far. */
  ghost predicate OnTrack(ix: Index, a: Activation, id: nat) {
    match a
    case Stamped(_, _, i) => i == id
    case Executing(sql, now, i, parser, analysis) =>
      i == id && Authorize(sql, parser, now, id) == Returned(Cleared(analysis))
    case Processed(req, i, p) => i == id && p == Settle(ix, req, id)
    case Logged(req, i, p) => i == id && p == Settle(ix, req, id)
    case _ => true
  }

  function ExecutedIn(a: Activation): seq<string> {
    match a
    case Executing(sql, _, _, _, _) => [sql]
    case Processed(req, _, _) => if Approved(req.sql, req.env.parser) then [req.sql] else []
    case Logged(req, _, _) => if Approved(req.sql, req.env.parser) then [req.sql] else []
    case _ => []
  }

  function AttemptsIn(a: Activation): seq<AuditRecord> {
    if a.Logged? then [a.p.record] else []
  }

  function IdsTakenIn(a: Activation): nat {
    if a.Waiting? || a.Locked? || a.Done? then 0 else 1
  }

  /** What the thread inside the lock has contributed so far; Waiting stands for nobody. */
  function Current(s: System): Activation {
    if s.holder.Some? && s.holder.value < |s.threads| then s.threads[s.holder.value] else Waiting("")
  }

  /** The logs are those of the sequential run of the finished calls, plus what the current call did. */
  ghost predicate Serial(ix: Index, s: System) {
    var log := SequentialLog(ix, s);
    var n := |s.history|;
    && s.nextId == IdAfter(1, n + IdsTakenIn(Current(s)))
    && s.executed == ExecutedBy(log) + ExecutedIn(Current(s))
    && s.attempts == RecordsOf(log) + AttemptsIn(Current(s))
    && (forall i :: 0 <= i < n ==> s.history[i].response == log[i].response)
    && OnTrack(ix, Current(s), IdAfter(1, n))
  }

  /** Every answered call is in the history, once, with the answer it got. */
  ghost predicate Accounted(s: System) {
    && (forall i :: 0 <= i < |s.history| ==>
          s.history[i].thread < |s.threads| && s.threads[s.history[i].thread] == Done(s.history[i].response))
    && (forall i, j :: 0 <= i < j < |s.history| ==> s.history[i].thread != s.history[j].thread)
    && (forall t :: 0 <= t < |s.threads| && s.threads[t].Done? ==>
          exists i :: 0 <= i < |s.history| && s.history[i].thread == t)
  }

  ghost predicate Invariant(ix: Index, s: System) {
    && (s.holder.Some? ==> s.holder.value < |s.threads|)
    && Exclusive(s) && Serial(ix, s) && Accounted(s)
  }

  // ---- Stage facts about the pipeline

  lemma ParserStage(ix: Index, sql: string, now: int, id: nat, parser: Reply<ParseResult>)
    ensures var stage := Authorize(sql, parser, now, id);
      && (stage.Threw? ==>
            Settle(ix, Partial(sql, now, parser, Threw), id) == InternalProcessing(now, id) && !Approved(sql, parser))
      && (stage.Returned? && stage.value.Settled? ==>
            Settle(ix, Partial(sql, now, parser, Threw), id) == stage.value.p && !Approved(sql, parser))
      && (stage.Returned? && stage.value.Cleared? ==> Approved(sql, parser))
  {
  }

  lemma ExecutorStage(ix: Index, sql: string, now: int, id: nat, parser: Reply<ParseResult>, a: SqlAnalysis,
                      executor: Reply<ExecutionResult>)
    requires Authorize(sql, parser, now, id) == Returned(Cleared(a))
    ensures Approved(sql, parser)
    ensures Settle(ix, Partial(sql, now, parser, executor), id) == Caught(Complete(ix, a, executor, now, id), now, id)
  {
  }

  lemma AuditStage(ix: Index, req: Request, id: nat, audit: Reply<AppendResult>)
    ensures Settle(ix, Answered(req, audit), id) == Settle(ix, req, id)
    ensures Answered(req, audit).sql == req.sql && Answered(req, audit).env.parser == req.env.parser
  {
  }

  lemma UnlockStage(ix: Index, req: Request, id: nat)
    ensures var h := Handle(ix, req, id);
      var p := Settle(ix, req, id);
      && h.record == p.record
      && h.response == Release(p, AppendSafely(req.env.audit))
      && h.executed == if Approved(req.sql, req.env.parser) then [req.sql] else []
  {
  }

  // ---- Each step keeps the invariant

  lemma StartKeeps(ix: Index, s: System, sql: string)
    requires Invariant(ix, s)
    ensures Invariant(ix, Fire(ix, s, Start(sql)))
  {
    hide Run, Settle, Approved, Authorize;
    var s' := Fire(ix, s, Start(sql));
    assert Current(s') == Current(s);
    AccountedElsewhere(s, s');
  }

  /** Changing or adding threads that are not done keeps the books. */
  lemma AccountedElsewhere(s: System, s': System)
    requires Accounted(s) && s'.history == s.history && |s.threads| <= |s'.threads|
    requires forall t :: 0 <= t < |s.threads| && s.threads[t].Done? ==> s'.threads[t] == s.threads[t]
    requires forall t :: 0 <= t < |s'.threads| && s'.threads[t].Done? ==> t < |s.threads| && s.threads[t].Done?
    ensures Accounted(s')
  {
  }

  lemma AcquireKeeps(ix: Index, s: System, t: nat)
    requires Invariant(ix, s) && Enabled(s, Acquire(t))
    ensures Invariant(ix, Fire(ix, s, Acquire(t)))
  {
    hide Run, Settle, Approved, Authorize;
    var s' := Fire(ix, s, Acquire(t));
    assert Current(s') == Locked(s.threads[t].sql);
    AccountedElsewhere(s, s');
  }

  lemma HolderIs(s: System, t: nat)
    requires Exclusive(s) && t < |s.threads| && Inside(s.threads[t])
    ensures s.holder == Some(t) && Current(s) == s.threads[t]
  {
  }

  lemma ClockKeeps(ix: Index, s: System, t: nat, now: int)
    requires Invariant(ix, s) && Enabled(s, ReadClock(t, now))
    ensures Invariant(ix, Fire(ix, s, ReadClock(t, now)))
  {
    hide Run, Settle, Approved, Authorize;
    HolderIs(s, t);
    var s' := Fire(ix, s, ReadClock(t, now));
    NextIdAfter(1, |s.history|);
    assert Current(s') == Stamped(s.threads[t].sql, now, s.nextId);
    AccountedElsewhere(s, s');
  }

  lemma ParserKeeps(ix: Index, s: System, t: nat, parser: Reply<ParseResult>)
    requires Invariant(ix, s) && Enabled(s, ParserAnswers(t, parser))
    ensures Invariant(ix, Fire(ix, s, ParserAnswers(t, parser)))
  {
    hide Run, Settle, Approved, Authorize;
    HolderIs(s, t);
    var a := s.threads[t];
    ParserStage(ix, a.sql, a.now, a.id, parser);
    var s' := Fire(ix, s, ParserAnswers(t, parser));
    assert Current(s') == AfterParser(a, parser);
    AccountedElsewhere(s, s');
  }

  lemma ExecutorKeeps(ix: Index, s: System, t: nat, executor: Reply<ExecutionResult>)
    requires Invariant(ix, s) && Enabled(s, ExecutorAnswers(t, executor))
    ensures Invariant(ix, Fire(ix, s, ExecutorAnswers(t, executor)))
  {
    hide Run, Settle, Approved, Authorize, Complete;
    HolderIs(s, t);
    var a := s.threads[t];
    ExecutorStage(ix, a.sql, a.now, a.id, a.parser, a.analysis, executor);
    var s' := Fire(ix, s, ExecutorAnswers(t, executor));
    assert Current(s') == AfterExecutor(ix, a, executor);
    AccountedElsewhere(s, s');
  }

  lemma AuditKeeps(ix: Index, s: System, t: nat, audit: Reply<AppendResult>)
    requires Invariant(ix, s) && Enabled(s, AuditAnswers(t, audit))
    ensures Invariant(ix, Fire(ix, s, AuditAnswers(t, audit)))
  {
    hide Run, Settle, Approved, Authorize;
    HolderIs(s, t);
    var a := s.threads[t];
    AuditStage(ix, a.req, a.id, audit);
    var s' := Fire(ix, s, AuditAnswers(t, audit));
    assert Current(s') == Logged(Answered(a.req, audit), a.id, a.p);
    AccountedElsewhere(s, s');
  }

  lemma UnlockKeeps(ix: Index, s: System, t: nat)
    requires Invariant(ix, s) && Enabled(s, Unlock(t))
    ensures Invariant(ix, Fire(ix, s, Unlock(t)))
  {
    hide Run, Handle, Settle, Approved, Authorize, Release, Serial;
    HolderIs(s, t);
    var s' := Fire(ix, s, Unlock(t));
    UnlockSerial(ix, s, t);
    UnlockAccounts(s, s', t);
  }

  lemma UnlockSerial(ix: Index, s: System, t: nat)
    requires Invariant(ix, s) && Enabled(s, Unlock(t))
    ensures Serial(ix, Fire(ix, s, Unlock(t)))
  {
    hide Run, Handle, Settle, Approved, Authorize, Release, Accounted, RecordsOf, ResponsesOf, ExecutedBy;
    HolderIs(s, t);
    var a, n := s.threads[t], |s.history|;
    var s' := Fire(ix, s, Unlock(t));
    var log, h := SequentialLog(ix, s), Handle(ix, a.req, IdAfter(1, n));
    UnlockStage(ix, a.req, a.id);
    assert Requests(s'.history) == Requests(s.history) + [a.req];
    RunSnoc(ix, 1, Requests(s.history), a.req);
    assert SequentialLog(ix, s') == log + [h];
    LogSnoc(log, h);
    assert Current(s') == Waiting("");
    assert s'.executed == ExecutedBy(log + [h]) + [];
    assert s'.attempts == RecordsOf(log + [h]) + [];
  }

  lemma UnlockAccounts(s: System, s': System, t: nat)
    requires Accounted(s) && t < |s.threads| && !s.threads[t].Done?
    requires |s'.history| == |s.history| + 1 && s'.history[..|s.history|] == s.history
    requires s'.history[|s.history|].thread == t
    requires s'.threads == s.threads[t := Done(s'.history[|s.history|].response)]
    ensures Accounted(s')
  {
    forall i | 0 <= i < |s.history|
      ensures s'.history[i] == s.history[i]
      ensures s.history[i].thread < |s.threads| && s.history[i].thread != t
    {
      assert s'.history[..|s.history|][i] == s'.history[i];
    }
    forall u | 0 <= u < |s'.threads| && s'.threads[u].Done?
      ensures exists i :: 0 <= i < |s'.history| && s'.history[i].thread == u
    {
      UnlockCovers(s, s', t, u);
    }
  }

  lemma UnlockCovers(s: System, s': System, t: nat, u: nat)
    requires |s'.history| == |s.history| + 1 && s'.history[..|s.history|] == s.history
    requires s'.history[|s.history|].thread == t
    requires u == t || exists i :: 0 <= i < |s.history| && s.history[i].thread == u
    ensures exists i :: 0 <= i < |s'.history| && s'.history[i].thread == u
  {
    if u != t {
      var i :| 0 <= i < |s.history| && s.history[i].thread == u;
      assert s'.history[..|s.history|][i] == s'.history[i];
    }
  }

  lemma FireKeeps(ix: Index, s: System, l: Label)
    requires Invariant(ix, s) && Enabled(s, l)
    ensures Invariant(ix, Fire(ix, s, l))
  {
    hide Invariant, Fire;
    match l
    case Start(sql) => StartKeeps(ix, s, sql);
    case Acquire(t) => AcquireKeeps(ix, s, t);
    case ReadClock(t, now) => ClockKeeps(ix, s, t, now);
    case ParserAnswers(t, parser) => ParserKeeps(ix, s, t, parser);
    case ExecutorAnswers(t, executor) => ExecutorKeeps(ix, s, t, executor);
    case AuditAnswers(t, audit) => AuditKeeps(ix, s, t, audit);
    case Unlock(t) => UnlockKeeps(ix, s, t);
  }

  lemma {:induction false} InvariantAlways(ix: Index, labels: seq<Label>)
    ensures Invariant(ix, After(ix, labels))
  {
    hide Fire;
    if labels == [] {
      assert Requests([]) == [];
    } else {
      var s, l := After(ix, labels[..|labels| - 1]), labels[|labels| - 1];
      InvariantAlways(ix, labels[..|labels| - 1]);
      if Enabled(s, l) { FireKeeps(ix, s, l); }
    }
  }

  // ---- Main results

  /** No two calls are inside the lock at once; in particular no two executor calls overlap. */
  lemma MutualExclusion(ix: Index, labels: seq<Label>, t: nat, u: nat)
    requires t < |After(ix, labels).threads| && u < |After(ix, labels).threads|
    requires Inside(After(ix, labels).threads[t]) && Inside(After(ix, labels).threads[u])
    ensures t == u
  {
    hide After, Serial, Accounted;
    InvariantAlways(ix, labels);
  }

  /** The finished calls in lock order form a sequential run with the same answers. */
  ghost predicate SameAsSequential(ix: Index, s: System) {
    var log := SequentialLog(ix, s);
    && |log| == |s.history|
    && (forall i :: 0 <= i < |log| ==>
          s.history[i].thread < |s.threads| && s.threads[s.history[i].thread] == Done(log[i].response))
    && (s.holder == None ==> s.executed == ExecutedBy(log) && s.attempts == RecordsOf(log))
    && RecordsOf(log) <= s.attempts
    && ExecutedBy(log) <= s.executed
  }

  /**
    Serialisability: after any interleaving every finished call got the answer of the
    sequential run in lock order, and whenever the lock is free the executor calls and the
    append attempts are exactly those of that run.
   */
  lemma Serialisable(ix: Index, labels: seq<Label>)
    ensures Accounted(After(ix, labels)) && SameAsSequential(ix, After(ix, labels))
  {
    hide After, Run, Settle, Approved, Authorize;
    InvariantAlways(ix, labels);
    SerialMeans(ix, After(ix, labels));
  }

  lemma SerialMeans(ix: Index, s: System)
    requires Invariant(ix, s)
    ensures SameAsSequential(ix, s)
  {
    hide Run, Settle, Approved, Authorize;
    assert s.holder == None ==> Current(s) == Waiting("");
  }

  /** The append-attempt log carries the ids 1, 2, 3, ... in order, for fewer than 2^64 attempts. */
  lemma AttemptIdsInOrder(ix: Index, labels: seq<Label>, i: nat)
    requires i < |After(ix, labels).attempts| < 0x1_0000_0000_0000_0000
    ensures After(ix, labels).attempts[i].requestId == i + 1
  {
    hide After, Handle, Settle, Approved, Authorize;
    InvariantAlways(ix, labels);
    var s := After(ix, labels);
    AttemptId(ix, s, i);
  }

  lemma AttemptId(ix: Index, s: System, i: nat)
    requires Invariant(ix, s) && i < |s.attempts| < ID_SPACE
    ensures s.attempts[i].requestId == i + 1
  {
    hide Handle, Settle, Approved, Authorize, Run;
    var reqs, n := Requests(s.history), |s.history|;
    if i < n {
      assert s.attempts[i] == RecordsOf(SequentialLog(ix, s))[i];
      RunAt(ix, 1, reqs, i);
      HandledSoundly(ix, reqs[i], IdAfter(1, i));
    } else {
      var a := Current(s);
      assert a.Logged? && s.attempts[i] == a.p.record && i == n;
      UnlockStage(ix, a.req, IdAfter(1, n));
      HandledSoundly(ix, a.req, IdAfter(1, n));
    }
  }

  lemma FireGrows(ix: Index, s: System, l: Label)
    requires Enabled(s, l)
    ensures s.history <= Fire(ix, s, l).history
    ensures |s.threads| <= |Fire(ix, s, l).threads|
  {
    hide AfterParser, AfterExecutor, Release, Authorize, Complete;
  }

  /** The history only grows at its end, and threads are only added. */
  lemma {:induction false} HistoryGrows(ix: Index, labels: seq<Label>, more: seq<Label>)
    ensures After(ix, labels).history <= After(ix, labels + more).history
    ensures |After(ix, labels).threads| <= |After(ix, labels + more).threads|
  {
    hide Fire, Enabled;
    if more == [] {
      assert labels + more == labels;
    } else {
      var front := more[..|more| - 1];
      assert (labels + more)[..|labels + more| - 1] == labels + front;
      HistoryGrows(ix, labels, front);
      var s, l := After(ix, labels + front), more[|more| - 1];
      if Enabled(s, l) { FireGrows(ix, s, l); }
    }
  }

  /** Real-time order: a call that starts after another has returned is serialised after it. */
  lemma LaterCallsComeLater(ix: Index, labels: seq<Label>, more: seq<Label>, i: nat, j: nat)
    requires i < |After(ix, labels).history| && j < |After(ix, labels + more).history|
    requires After(ix, labels + more).history[j].thread >= |After(ix, labels).threads|
    ensures i < j
  {
    hide After, Exclusive, Serial;
    InvariantAlways(ix, labels);
    HistoryGrows(ix, labels, more);
    var s, s' := After(ix, labels), After(ix, labels + more);
    assert forall k :: 0 <= k < |s.history| ==> s'.history[k] == s.history[k];
  }
}
