/**
  What reaches the database, stated on parse trees: for one request, and for the executor log of
  any interleaving of any number of threads.  The parser port is the shipped adapter over an
  arbitrary third-party parser; everything else answers as it likes.
 */
module Admission {
  import opened Text
  import opened SqlModel
  import opened HyriseParser
  import opened Policy
  import opened Analyzer
  import opened Authorization
  import opened Classifier
  import opened Audit
  import opened Service
  import opened Guarantees
  import opened Runs
  import Threads

  /** The answer is the adapter's report of something the third-party parser did. */
  ghost predicate FromAdapter(parser: Reply<ParseResult>) {
    exists output :: parser == Returned(Report(output))
  }

  /** The text was parsed into one admissible tree. */
  ghost predicate Admitted(req: Request) {
    exists output :: req.env.parser == Returned(Report(output)) && AdmissibleText(req.sql, output)
  }

  lemma ApprovedIsAdmitted(req: Request)
    requires FromAdapter(req.env.parser)
    ensures Approved(req.sql, req.env.parser) <==> Admitted(req)
  {
    hide Analyze, Evaluate, AdmissibleText, Report;
    forall output | req.env.parser == Returned(Report(output))
      ensures Approved(req.sql, req.env.parser) <==> AdmissibleText(req.sql, output)
    {
      AllowedExactly(req.sql, output);
    }
  }

  /** A request calls the database with its own text if that is one admissible tree, and not at all otherwise. */
  lemma ExecutedExactly(ix: Index, req: Request, id: nat)
    requires FromAdapter(req.env.parser)
    ensures Handle(ix, req, id).executed == if Admitted(req) then [req.sql] else []
  {
    hide Approved, Admitted, FromAdapter;
    ApprovedIsAdmitted(req);
  }

  /** A rejected tree is audited with its own reason and kind, as one statement, and the database is not called. */
  lemma RejectedOnTree(ix: Index, req: Request, id: nat, output: Reply<ParserOutput>, s: Statement)
    requires req.env.parser == Returned(Report(output)) && !IsBlank(req.sql)
    requires output.Returned? && output.value.valid && NonNull(output.value.statements) == [s]
    requires ReasonOnTree(s) != NoReason
    ensures var h := Handle(ix, req, id);
      && h.record.details == PolicyRejectedDetails(ReasonOnTree(s), Translate(s).kind, 1)
      && h.executed == []
  {
    hide Handle, Translate, ReasonOnTree, ReasonOnFacts, Evaluate, Complete;
    assert Report(output).statements == [Translate(s)];
    DecisionTable(s);
    ReasonOfFacts(Translate(s));
    OutcomeTable(ix, req, id);
    assert FromAdapter(req.env.parser);
    ExecutedExactly(ix, req, id);
    ApprovedIsAdmitted(req);
  }

  // ---- Any interleaving

  ghost function AdmittedTexts(reqs: seq<Request>): seq<string> {
    if reqs == [] then []
    else AdmittedTexts(reqs[..|reqs| - 1]) + if Admitted(reqs[|reqs| - 1]) then [reqs[|reqs| - 1].sql] else []
  }

  lemma AdmittedSnoc(reqs: seq<Request>, req: Request)
    ensures AdmittedTexts(reqs + [req]) == AdmittedTexts(reqs) + if Admitted(req) then [req.sql] else []
  {
    assert (reqs + [req])[..|reqs|] == reqs;
  }

  ghost predicate AllFromAdapter(reqs: seq<Request>) {
    forall i :: 0 <= i < |reqs| ==> FromAdapter(reqs[i].env.parser)
  }

  lemma {:induction false} RunExecutesAdmitted(ix: Index, first: nat, reqs: seq<Request>)
    requires AllFromAdapter(reqs)
    ensures ExecutedBy(Run(ix, first, reqs)) == AdmittedTexts(reqs)
  {
    hide Handle, Admitted, FromAdapter;
    if reqs != [] {
      var front, last := reqs[..|reqs| - 1], reqs[|reqs| - 1];
      RunExecutesAdmitted(ix, first, front);
      ExecutedExactly(ix, last, IdAfter(first, |front|));
      LogSnoc(Run(ix, first, front), Handle(ix, last, IdAfter(first, |front|)));
    }
  }

  /** The request of an activation whose parser has answered. */
  function ParsedIn(a: Threads.Activation): seq<Request> {
    match a
    case Executing(sql, now, _, parser, _) => [Threads.Partial(sql, now, parser, Threw)]
    case Processed(req, _, _) => [req]
    case Logged(req, _, _) => [req]
    case _ => []
  }

  /** All requests whose parser has answered, in lock order. */
  function Parsed(s: Threads.System): seq<Request> {
    Threads.Requests(s.history) + ParsedIn(Threads.Current(s))
  }

  ghost predicate Adapted(s: Threads.System) {
    && AllFromAdapter(Threads.Requests(s.history))
    && forall t :: 0 <= t < |s.threads| ==> AllFromAdapter(ParsedIn(s.threads[t]))
  }

  ghost predicate LabelFromAdapter(l: Threads.Label) {
    l.ParserAnswers? ==> FromAdapter(l.parser)
  }

  lemma FireAdapts(ix: Index, s: Threads.System, l: Threads.Label)
    requires Adapted(s) && Threads.Enabled(s, l) && LabelFromAdapter(l)
    ensures Adapted(Threads.Fire(ix, s, l))
  {
    hide FromAdapter, Authorize, Complete, Release;
    var s' := Threads.Fire(ix, s, l);
    if !l.Start? {
      var a := s.threads[l.t];
      assert ParsedIn(a) != [] ==> FromAdapter(ParsedIn(a)[0].env.parser);
      assert AllFromAdapter(ParsedIn(s'.threads[l.t]));
    }
    forall i | 0 <= i < |s'.history| ensures FromAdapter(Threads.Requests(s'.history)[i].env.parser) {
      assert i < |s.history| ==> FromAdapter(Threads.Requests(s.history)[i].env.parser);
    }
  }

  lemma {:induction false} AlwaysAdapted(ix: Index, labels: seq<Threads.Label>)
    requires forall i :: 0 <= i < |labels| ==> LabelFromAdapter(labels[i])
    ensures Adapted(Threads.After(ix, labels))
  {
    hide Threads.Fire, Threads.Enabled, LabelFromAdapter;
    if labels != [] {
      var s, l := Threads.After(ix, labels[..|labels| - 1]), labels[|labels| - 1];
      AlwaysAdapted(ix, labels[..|labels| - 1]);
      if Threads.Enabled(s, l) { FireAdapts(ix, s, l); }
    }
  }

  lemma CurrentExecutes(ix: Index, a: Threads.Activation, id: nat, reqs: seq<Request>)
    requires Threads.OnTrack(ix, a, id) && AllFromAdapter(ParsedIn(a))
    ensures AdmittedTexts(reqs) + Threads.ExecutedIn(a) == AdmittedTexts(reqs + ParsedIn(a))
  {
    hide Approved, Authorize, Settle, Admitted, FromAdapter;
    if ParsedIn(a) == [] {
      assert reqs + ParsedIn(a) == reqs;
    } else {
      var req := ParsedIn(a)[0];
      AdmittedSnoc(reqs, req);
      ApprovedIsAdmitted(req);
      if a.Executing? {
        Threads.ExecutorStage(ix, a.sql, a.now, a.id, a.parser, a.analysis, Threw);
      }
    }
  }

  /**
    Over the shipped adapter, after any interleaving: the texts the database was called with are
    exactly the texts parsed into one admissible tree, once each, in lock order.
   */
  lemma ExecutorLogExactly(ix: Index, labels: seq<Threads.Label>)
    requires forall i :: 0 <= i < |labels| ==> LabelFromAdapter(labels[i])
    ensures Threads.After(ix, labels).executed == AdmittedTexts(Parsed(Threads.After(ix, labels)))
  {
    hide Threads.After, Run, Settle, Approved, Authorize, FromAdapter, LabelFromAdapter, AdmittedTexts, ExecutedBy;
    AlwaysAdapted(ix, labels);
    Threads.InvariantAlways(ix, labels);
    var s := Threads.After(ix, labels);
    var reqs := Threads.Requests(s.history);
    RunExecutesAdmitted(ix, 1, reqs);
    CurrentExecutes(ix, Threads.Current(s), IdAfter(1, |s.history|), reqs);
  }
}
