/**
  Any number of threads that audit into one JSON Lines file.  The labels are those of Threads,
  except that the audit port no longer answers at will: its answer is what the stream gives.
 */
module SharedFile {
  import opened Text
  import opened Classifier
  import opened Audit
  import opened AuditJson
  import opened JsonlSink
  import opened Service
  import opened Runs
  import Threads

  /** ios remembers what the operating system did with each append so far. */
  datatype World = World(sys: Threads.System, sink: Sink, ios: seq<Io>)

  datatype Label = Local(l: Threads.Label) | Append(t: nat, io: Io)

  predicate Enabled(w: World, l: Label) {
    match l
    case Local(l) => !l.AuditAnswers? && Threads.Enabled(w.sys, l)
    case Append(t, _) => t < |w.sys.threads| && w.sys.threads[t].Processed?
  }

  function Fire(ix: Index, w: World, l: Label): World
    requires Enabled(w, l)
  {
    match l
    case Local(l) => w.(sys := Threads.Fire(ix, w.sys, l))
    case Append(t, io) =>
      var (sink, result) := AppendTo(w.sink, w.sys.threads[t].p.record, io);
      World(Threads.Fire(ix, w.sys, Threads.AuditAnswers(t, Returned(result))), sink, w.ios + [io])
  }

  function After(ix: Index, sink: Sink, labels: seq<Label>): World {
    if labels == [] then World(Threads.INITIAL, sink, [])
    else
      var w := After(ix, sink, labels[..|labels| - 1]);
      var l := labels[|labels| - 1];
      if Enabled(w, l) then Fire(ix, w, l) else w
  }

  // ---- The invariant

  /** The requests whose append has been answered: the finished ones and perhaps the current one. */
  function Attempted(s: Threads.System): seq<Request> {
    var a := Threads.Current(s);
    Threads.Requests(s.history) + if a.Logged? then [a.req] else []
  }

  function AsCall(req: Request, io: Io): Call {
    Call(req.sql, req.env.now, req.env.parser, req.env.executor, io)
  }

  function Calls(reqs: seq<Request>, ios: seq<Io>): seq<Call>
    requires |reqs| == |ios|
  {
    seq(|reqs|, i requires 0 <= i < |reqs| => AsCall(reqs[i], ios[i]))
  }

  /** The stream is where one thread making the same calls would have left it, with the same log. */
  ghost predicate OnFile(ix: Index, before: Sink, reqs: seq<Request>, ios: seq<Io>, sink: Sink) {
    && |reqs| == |ios|
    && var s := Serve(ix, before, Calls(reqs, ios));
       s.sink == sink && s.log == Run(ix, 1, reqs)
  }

  ghost predicate Invariant(ix: Index, before: Sink, w: World) {
    Threads.Invariant(ix, w.sys) && OnFile(ix, before, Attempted(w.sys), w.ios, w.sink)
  }

  /** One more call, answered as the stream answers it. */
  lemma AppendedOnFile(ix: Index, before: Sink, reqs: seq<Request>, ios: seq<Io>, sink: Sink, req: Request, io: Io)
    requires OnFile(ix, before, reqs, ios, sink)
    ensures var id := IdAfter(1, |reqs|);
      var (sink', result) := AppendTo(sink, Settle(ix, req, id).record, io);
      OnFile(ix, before, reqs + [Threads.Answered(req, Returned(result))], ios + [io], sink')
  {
    hide Handle, Settle, AppendTo, Run, Serve, Line;
    var id := IdAfter(1, |reqs|);
    var (sink', result) := AppendTo(sink, Settle(ix, req, id).record, io);
    var req', c := Threads.Answered(req, Returned(result)), AsCall(req, io);
    assert AsRequest(c, Returned(result)) == req';
    assert AsRequest(c, Threw) == Threads.Answered(req, Threw);
    Threads.AuditStage(ix, req, id, Threw);
    SettledThenReleased(ix, c, id, result);
    RunSnoc(ix, 1, reqs, req');
    assert Calls(reqs + [req'], ios + [io]) == Calls(reqs, ios) + [c];
    ServeSnoc(ix, before, Calls(reqs, ios), c);
  }

  /** Only an append changes which requests have been answered. */
  lemma LocalKeepsAttempted(ix: Index, s: Threads.System, l: Threads.Label)
    requires Threads.Exclusive(s) && !l.AuditAnswers? && Threads.Enabled(s, l)
    requires s.holder.Some? ==> s.holder.value < |s.threads|
    ensures Attempted(Threads.Fire(ix, s, l)) == Attempted(s)
  {
    hide Authorize, Complete, Release;
    var s' := Threads.Fire(ix, s, l);
    if l.Unlock? {
      Threads.HolderIs(s, l.t);
      assert Threads.Requests(s'.history) == Threads.Requests(s.history) + [s.threads[l.t].req];
    } else if !l.Start? && !l.Acquire? {
      Threads.HolderIs(s, l.t);
    }
  }

  lemma AppendKeeps(ix: Index, before: Sink, w: World, t: nat, io: Io)
    requires Invariant(ix, before, w) && Enabled(w, Append(t, io))
    ensures Invariant(ix, before, Fire(ix, w, Append(t, io)))
  {
    hide Settle, Run, Authorize, Approved, OnFile, AppendTo, RecordsOf, ExecutedBy, Threads.Accounted;
    var a := w.sys.threads[t];
    Threads.HolderIs(w.sys, t);
    var (sink, result) := AppendTo(w.sink, a.p.record, io);
    Threads.FireKeeps(ix, w.sys, Threads.AuditAnswers(t, Returned(result)));
    var s' := Fire(ix, w, Append(t, io)).sys;
    assert Threads.Current(s').req == Threads.Answered(a.req, Returned(result));
    assert Attempted(s') == Attempted(w.sys) + [Threads.Answered(a.req, Returned(result))];
    AppendedOnFile(ix, before, Attempted(w.sys), w.ios, w.sink, a.req, io);
  }

  lemma {:induction false} InvariantAlways(ix: Index, before: Sink, labels: seq<Label>)
    ensures Invariant(ix, before, After(ix, before, labels))
  {
    hide Threads.Fire, AppendTo;
    if labels == [] {
      Threads.InvariantAlways(ix, []);
      assert Attempted(Threads.INITIAL) == [] && Calls([], []) == [];
    } else {
      var w, l := After(ix, before, labels[..|labels| - 1]), labels[|labels| - 1];
      InvariantAlways(ix, before, labels[..|labels| - 1]);
      if Enabled(w, l) {
        match l
        case Local(l) =>
          Threads.FireKeeps(ix, w.sys, l);
          LocalKeepsAttempted(ix, w.sys, l);
        case Append(t, io) => AppendKeeps(ix, before, w, t, io);
      }
    }
  }

  // ---- Main results

  /** The attempts so far are the records of the sequential run of the answered requests. */
  lemma AttemptsAreRecords(ix: Index, s: Threads.System)
    requires Threads.Invariant(ix, s)
    ensures RecordsOf(Run(ix, 1, Attempted(s))) == s.attempts
  {
    hide Settle, Run, Authorize, Approved, Handle;
    var a := Threads.Current(s);
    if a.Logged? {
      RunSnoc(ix, 1, Threads.Requests(s.history), a.req);
      LogSnoc(Threads.SequentialLog(ix, s), Handle(ix, a.req, IdAfter(1, |s.history|)));
      Threads.UnlockStage(ix, a.req, IdAfter(1, |s.history|));
    } else {
      assert Attempted(s) == Threads.Requests(s.history);
    }
  }

  /** What the appends so far answered. */
  ghost function AnsweredLog(ix: Index, w: World): seq<Handling> {
    Run(ix, 1, Attempted(w.sys))
  }

  /**
    After any interleaving the complete lines of the file are the old ones, one per persisted
    attempt in the order of the attempts, and at most the line of the attempt that failed first;
    each decodes to the record of its attempt.
   */
  lemma SharedFileReads(ix: Index, before: Sink, labels: seq<Label>)
    requires LineAligned(before.file)
    ensures var w := After(ix, before, labels);
      var was, now, k := CompleteLines(before.file), CompleteLines(w.sink.file), OkCount(AnsweredLog(ix, w));
      && was <= now && |was| + k <= |now| <= |was| + k + 1
      && |now| <= |was| + |w.sys.attempts|
      && forall i :: |was| <= i < |now| ==> DecodesTo(now[i], w.sys.attempts[i - |was|])
  {
    hide After, Run, Serve, DecodeLine, Line, CompleteLines, Attempted, Threads.Invariant, DecodesTo, Calls;
    InvariantAlways(ix, before, labels);
    var w := After(ix, before, labels);
    var calls := Calls(Attempted(w.sys), w.ios);
    AttemptsAreRecords(ix, w.sys);
    AuditFileLines(ix, before, calls);
    var was, now := CompleteLines(before.file), CompleteLines(w.sink.file);
    forall i | |was| <= i < |now| ensures DecodesTo(now[i], w.sys.attempts[i - |was|]) {
      AuditFileReads(ix, before, calls, i - |was|);
    }
  }

  /** Sticky failure across threads: once any call's append failed, no call that finishes later succeeds. */
  lemma SharedFailureIsSticky(ix: Index, before: Sink, labels: seq<Label>, i: nat, j: nat)
    requires i <= j < |After(ix, before, labels).sys.history|
    requires After(ix, before, labels).sys.history[i].req.env.audit != Returned(Appended)
    ensures var history := After(ix, before, labels).sys.history;
      history[j].req.env.audit != Returned(Appended) && !Succeeded(history[j].response)
  {
    hide After, Run, Serve, Handle;
    InvariantAlways(ix, before, labels);
    var w := After(ix, before, labels);
    var calls := Calls(Attempted(w.sys), w.ios);
    InvariantHolds(ix, before, calls);
    FinishedEntry(ix, w.sys, i);
    FinishedEntry(ix, w.sys, j);
  }

  /** Entry i of the answered log is the finished call i, with its own append and its own answer. */
  lemma FinishedEntry(ix: Index, s: Threads.System, i: nat)
    requires Threads.Invariant(ix, s) && i < |s.history|
    ensures i < |Attempted(s)|
    ensures var h := Run(ix, 1, Attempted(s))[i];
      && h == Handle(ix, s.history[i].req, IdAfter(1, i))
      && h.appended == AppendSafely(s.history[i].req.env.audit)
      && h.response == s.history[i].response
  {
    hide Run, Settle, Authorize, Approved, Release;
    RunAt(ix, 1, Attempted(s), i);
    RunAt(ix, 1, Threads.Requests(s.history), i);
  }

  /**
    Nothing any thread released is missing from the file: under any interleaving, the call at
    place i of the lock order that got a success has its own record, which describes what left,
    on line i of what was added.
   */
  lemma ReleasedIsOnFile(ix: Index, before: Sink, labels: seq<Label>, i: nat)
    requires LineAligned(before.file) && i < |After(ix, before, labels).sys.history|
    requires Succeeded(After(ix, before, labels).sys.history[i].response)
    ensures var w, was := After(ix, before, labels), CompleteLines(before.file);
      var now, call := CompleteLines(w.sink.file), w.sys.history[i];
      var h := Handle(ix, call.req, IdAfter(1, i));
      && Sound(ix, call.req, h, IdAfter(1, i)) && h.response == call.response
      && |was| + i < |now| && DecodesTo(now[|was| + i], h.record)
  {
    hide After, Run, Serve, Handle, DecodeLine, Line, CompleteLines, Sound;
    InvariantAlways(ix, before, labels);
    var w := After(ix, before, labels);
    var calls := Calls(Attempted(w.sys), w.ios);
    FinishedEntry(ix, w.sys, i);
    HandledSoundly(ix, w.sys.history[i].req, IdAfter(1, i));
    InvariantHolds(ix, before, calls);
    AuditFileLines(ix, before, calls);
    AuditFileReads(ix, before, calls, i);
  }
}
