/**
  Exactly which requests are masked by lineage.  The masking rules read result names and the
  select list only; the cases where those names lie are the hazardous statements, and for each
  of them some answer of the database leaves the service wrongly masked or not masked at all.
 */
module Exposure {
  import opened Text
  import opened SqlModel
  import opened Execution
  import opened HyriseParser
  import opened Analyzer
  import opened Policy
  import opened Classifier
  import opened Maskers
  import opened ResultMasking
  import opened Lineage
  import opened Audit
  import opened Service
  import opened Guarantees

  /** This cell, if it leaves and the columns may have these origins, leaves as its origin demands. */
  ghost predicate CellSound(ix: Index, config: Config, req: Request, id: nat, s: Statement, catalogue: Catalogue,
                            origins: seq<Origin>, row: nat, i: nat)
    requires s.SelectStatement?
  {
    var h := Handle(ix, req, id);
    && h.response.ReadSuccess? && req.env.executor.Returned?
    && Produces(ScopeOf(s, catalogue), Entries(s.selectList), origins, req.env.executor.value.columns)
    && row < |req.env.executor.value.rows| && i < |req.env.executor.value.columns|
    ==>
      var raw, shown := req.env.executor.value.rows[row], h.response.result.rows;
      && row < |shown| && i < |origins| && i < |raw| && i < |shown[row]|
      && ShownByOrigin(config, origins[i], raw[i], shown[row][i])
  }

  /** However the other ports answer, every cell that leaves for this text and parse is sound. */
  ghost predicate MasksByLineage(ix: Index, config: Config, sql: string, output: Reply<ParserOutput>,
                                 catalogue: Catalogue)
  {
    var s := OnlyStatement(output);
    s.SelectStatement? ==>
      forall req: Request, id: nat, origins, row: nat, i: nat ::
        req.sql == sql && req.env.parser == Returned(Report(output)) ==>
          CellSound(ix, config, req, id, s, catalogue, origins, row, i)
  }

  // ---- A value on which all treatments differ

  const PROBE := "a@1234567"

  lemma ProbeAsAddress()
    ensures MaskEmail(PROBE) == "a***@1234567"
  {
    hide Find;
    assert PROBE[..1] == "a" && PROBE[2..] == "1234567";
    FindAt(PROBE, '@', 1);
    assert Addressable(PROBE);
  }

  lemma ProbeAsNumber()
    ensures MaskPhone(PROBE) == "***4567" && MaskCreditCard(PROBE) == "***"
  {
    hide Digits;
    ProbeDigits();
    assert PROBE[0] in PROBE;
  }

  lemma ProbeDigits()
    ensures Digits(PROBE) == "1234567"
  {
    DigitsOfConcat("a@", "1234567");
    assert "a@" + "1234567" == PROBE;
    assert Digits("a@") == "" by { assert "a@"[..1] == "a" && "a"[..0] == ""; }
    DigitsAreDigits("1234567");
  }

  predicate Attributed(c: ColumnClassification) {
    c == NOT_PII || (c.category.Some? && c == PiiColumn(c.category.value))
  }

  lemma ProbeSeparates(c: ColumnClassification, d: ColumnClassification)
    requires Attributed(c) && Attributed(d) && c != d
    ensures MaskCell(c, Some(PROBE)) != MaskCell(d, Some(PROBE))
  {
    hide MaskEmail, MaskPhone, MaskCreditCard;
    ProbeAsAddress();
    ProbeAsNumber();
  }

  // ---- From a mishandled column to a released cell

  /** The database answers with one row of probes. */
  function ProbeRequest(sql: string, parser: Reply<ParseResult>, columns: seq<ColumnInfo>): Request {
    var rows := [seq(|columns|, _ => Some(PROBE))];
    Request(sql, Environment(0, parser, Returned(ExecutionResult(Executed, "", true, columns, rows, 1, 0)),
                             Returned(Appended)))
  }

  lemma ProbeReleased(ix: Index, sql: string, parser: Reply<ParseResult>, columns: seq<ColumnInfo>)
    requires Approved(sql, parser) && parser.value.statements[0].kind == Select
    requires columns != [] && AnyShape(Analyze(sql, parser).value, |columns|)
    ensures var h := Handle(ix, ProbeRequest(sql, parser, columns), 0);
      h.response.ReadSuccess? && ReleasedRead(ix, ProbeRequest(sql, parser, columns), h)
  {
    hide Handle, Analyze, Approved, Classify, AnyShape;
    ReadLeavesExactly(ix, ProbeRequest(sql, parser, columns), 0);
    ReleaseRule(ix, ProbeRequest(sql, parser, columns), 0);
  }

  lemma MishandledCell(ix: Index, config: Config, c: ColumnClassification, origin: Origin)
    requires IndexOf(ix, config) && Attributed(c) && Mishandled(ix, c, origin)
    ensures !ShownByOrigin(config, origin, Some(PROBE), MaskCell(c, Some(PROBE)))
  {
    match origin
    case FromColumn(name) =>
      LookupIsScan(ix, config, name);
      ProbeSeparates(c, ByName(ix, name));
    case RowCount => ProbeSeparates(c, NOT_PII);
    case WholeRow =>
    case Elsewhere =>
  }

  /** What an approved text with this parse was analyzed as. */
  lemma ApprovedAnalysis(sql: string, output: Reply<ParserOutput>)
    requires Approved(sql, Returned(Report(output))) && OnlyStatement(output).SelectStatement?
    ensures |Report(output).statements| == 1 && Report(output).statements[0].kind == Select
    ensures Analyze(sql, Returned(Report(output))) == Returned(SelectAnalysis(OnlyStatement(output)))
  {
    hide Report, Analyze, Evaluate;
    ApprovedIsSingle(sql, Returned(Report(output)));
    ReportOfOne(output);
  }

  lemma MishandledReleased(ix: Index, config: Config, sql: string, output: Reply<ParserOutput>, catalogue: Catalogue,
                           origins: seq<Origin>, columns: seq<ColumnInfo>, i: nat)
    requires IndexOf(ix, config) && Approved(sql, Returned(Report(output)))
    requires OnlyStatement(output).SelectStatement?
    requires MishandledAt(ix, OnlyStatement(output), catalogue, origins, columns, i)
    ensures var req := ProbeRequest(sql, Returned(Report(output)), columns);
      !CellSound(ix, config, req, 0, OnlyStatement(output), catalogue, origins, 0, i)
  {
    hide Handle, Report, Analyze, Translate, Evaluate, Produces, AnyShape, Mishandled, ShownByOrigin, MaskCell;
    var s, parser := OnlyStatement(output), Returned(Report(output));
    ApprovedAnalysis(sql, output);
    ProbeReleased(ix, sql, parser, columns);
    var c := ColumnClass(ix, SelectAnalysis(s), columns, i);
    MishandledCell(ix, config, c, origins[i]);
  }

  /**
    The exact condition: every cell that can ever leave for a text and its parse is treated as
    its origin demands, unless the request is approved and its statement is hazardous.
   */
  lemma SoundExactly(ix: Index, config: Config, sql: string, output: Reply<ParserOutput>, catalogue: Catalogue)
    requires IndexOf(ix, config)
    ensures var s := OnlyStatement(output);
      MasksByLineage(ix, config, sql, output, catalogue) <==>
        !(Approved(sql, Returned(Report(output))) && s.SelectStatement? && Hazardous(ix, s, catalogue))
  {
    hide Handle, Report, Analyze, Translate, Evaluate, Produces, AnyShape, Hazardous, Approved, MishandledAt;
    var s := OnlyStatement(output);
    if s.SelectStatement? {
      if Approved(sql, Returned(Report(output))) && Hazardous(ix, s, catalogue) {
        MishandledExactly(ix, s, catalogue);
        var origins, columns, i: nat :| MishandledAt(ix, s, catalogue, origins, columns, i);
        MishandledReleased(ix, config, sql, output, catalogue, origins, columns, i);
      } else {
        forall req: Request, id: nat, origins, row: nat, i: nat
          | req.sql == sql && req.env.parser == Returned(Report(output))
          ensures CellSound(ix, config, req, id, s, catalogue, origins, row, i)
        {
          UnhazardousCell(ix, config, req, id, output, catalogue, origins, row, i);
        }
      }
    }
  }

  lemma UnhazardousCell(ix: Index, config: Config, req: Request, id: nat, output: Reply<ParserOutput>,
                        catalogue: Catalogue, origins: seq<Origin>, row: nat, i: nat)
    requires IndexOf(ix, config) && req.env.parser == Returned(Report(output))
    requires var s := OnlyStatement(output);
      s.SelectStatement? && !(Approved(req.sql, req.env.parser) && Hazardous(ix, s, catalogue))
    ensures CellSound(ix, config, req, id, OnlyStatement(output), catalogue, origins, row, i)
  {
    hide Handle, Report, Analyze, Translate, Evaluate, Produces, Hazardous, Approved, ShownByOrigin;
    var s := OnlyStatement(output);
    if Handle(ix, req, id).response.ReadSuccess? {
      ReadMeansSelect(ix, req, id);
      if req.env.executor.Returned?
         && Produces(ScopeOf(s, catalogue), Entries(s.selectList), origins, req.env.executor.value.columns)
         && row < |req.env.executor.value.rows| && i < |req.env.executor.value.columns| {
        MaskedByLineage(ix, config, req, id, output, catalogue, origins, row, i);
        ProducesWidth(ScopeOf(s, catalogue), Entries(s.selectList), origins, req.env.executor.value.columns);
      }
    }
  }
}
