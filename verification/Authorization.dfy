/**
  What the adapter, the analyzer and the policy engine decide together, stated on the
  parse tree: which statements may reach the database at all.
 */
module Authorization {
  import opened Text
  import opened SqlModel
  import opened HyriseParser
  import opened FromTree
  import opened Analyzer
  import opened Policy

  // ---- Names

  /** Split-at-first-dot undoes QualifiedName exactly when the part before the joining dot is dot-free. */
  lemma SplitUndoesQualify(t: TableName)
    ensures SplitName(QualifiedName(t)) == (t.schema, t.name)
       <==> '.' !in (if t.schema == "" then t.name else t.schema)
  {
    var entry := QualifiedName(t);
    var dot := Find(entry, '.');
    if t.schema == "" {
      if '.' in t.name { assert dot < |entry|; }
    } else {
      assert entry[|t.schema|] == '.';
      assert entry[..|t.schema|] == t.schema;
      if '.' !in t.schema {
        FindAt(entry, '.', |t.schema|);
        assert entry[|t.schema| + 1..] == t.name;
      } else {
        var k :| 0 <= k < |t.schema| && t.schema[k] == '.';
        assert entry[k] == '.';
        assert forall i :: 0 <= i < dot ==> entry[i] == entry[..dot][i];
        assert dot < |t.schema|;
      }
    }
  }

  /** s is the lower-case word, letter by letter up to ASCII case. */
  predicate Word(s: string, word: string) {
    |s| == |word| && forall i :: 0 <= i < |s| ==>
      s[i] == word[i] || ('a' <= word[i] <= 'z' && s[i] as int + 32 == word[i] as int)
  }

  predicate CatalogPair(schema: string, table: string) {
    || Word(schema, "pg_catalog")
    || Word(schema, "information_schema")
    || (|table| >= 3 && Word(table[..3], "pg_"))
  }

  lemma LowerIsWord(s: string, word: string)
    requires Lower(word) == word
    ensures Lower(s) == word <==> Word(s, word)
  {
    if |s| == |word| {
      forall i | 0 <= i < |s| ensures Lower(s)[i] == LowerByte(s[i]) && LowerByte(word[i]) == word[i] {
        assert Lower(word)[i] == word[i];
      }
    }
  }

  lemma CatalogWords()
    ensures Lower("pg_catalog") == "pg_catalog" && Lower("information_schema") == "information_schema"
    ensures Lower("pg_") == "pg_"
  {
  }

  lemma LowerPrefix(s: string)
    requires |s| >= 3
    ensures HasPgPrefix(Lower(s)) <==> Lower(s[..3]) == "pg_"
  {
    assert Lower(s)[..3] == Lower(s[..3]);
  }

  /** Lowering the whole entry and splitting it is splitting it and reading the parts up to case. */
  lemma SystemTableByParts(entry: string)
    ensures IsSystemTable(entry) <==> CatalogPair(SplitName(entry).0, SplitName(entry).1)
  {
    hide Lower, Word, HasPgPrefix;
    SplitLowered(entry);
    var (schema, table) := SplitName(entry);
    CatalogWords();
    LowerIsWord(schema, "pg_catalog");
    LowerIsWord(schema, "information_schema");
    if |table| >= 3 {
      LowerPrefix(table);
      LowerIsWord(table[..3], "pg_");
    } else {
      ShortName(table);
    }
  }

  lemma ShortName(table: string)
    requires |table| < 3
    ensures !HasPgPrefix(Lower(table))
  {
  }

  lemma SplitLowered(entry: string)
    ensures var (schema, table) := SplitName(entry); SplitName(Lower(entry)) == (Lower(schema), Lower(table))
  {
    LowerKeepsDots(entry);
    var dot := Find(entry, '.');
    if dot < |entry| {
      assert Lower(entry)[..dot] == Lower(entry[..dot]);
      assert Lower(entry)[dot + 1..] == Lower(entry[dot + 1..]);
    }
  }

  /** The schema and table a leaf is judged as. */
  function JudgedAs(schema: string, name: string): (string, string) {
    SplitName(QualifiedName(TableName(schema, name)))
  }

  // ---- The decision on trees

  /** A table of the catalogs, or whatever its schema and name together look like at the first dot. */
  predicate Catalogued(schema: string, name: string) {
    CatalogPair(JudgedAs(schema, name).0, JudgedAs(schema, name).1)
  }

  /** Some part of the statement is outside what the analysis describes. */
  ghost predicate BeyondAnalysis(s: Statement)
    requires s.SelectStatement?
  {
    || Occurs(s.from, Subquery)
    || (s.withDescriptions.Some? && s.withDescriptions.value > 0)
    || (s.setOperations.Some? && s.setOperations.value > 0)
  }

  ghost predicate ReadsCatalog(s: Statement)
    requires s.SelectStatement?
  {
    exists leaf :: Occurs(s.from, leaf) && leaf.Named? && Catalogued(leaf.schema, leaf.name)
  }

  predicate MixesStar(s: Statement)
    requires s.SelectStatement?
  {
    var entries := Entries(s.selectList);
    (exists e :: e in entries && e.Star?) && exists e :: e in entries && e.ColumnRef?
  }

  ghost predicate AdmissibleSelect(s: Statement)
    requires s.SelectStatement?
  {
    !BeyondAnalysis(s) && !ReadsCatalog(s) && !MixesStar(s)
  }

  predicate PositiveIntegerLiteral(e: Option<Expr>) {
    e.Some? && e.value.IntLiteral? && e.value.ival > 0
  }

  predicate PositiveNumberLiteral(e: Option<Expr>) {
    PositiveIntegerLiteral(e) || (e.Some? && e.value.FloatLiteral? && e.value.fval > 0.0)
  }

  /** A literal one-row insert into orders: a positive customer id, then a positive amount. */
  predicate AdmissibleInsert(s: Statement)
    requires s.InsertStatement?
  {
    IntoOrders(s) && OrderShape(s)
  }

  predicate IntoOrders(s: Statement)
    requires s.InsertStatement?
  {
    (s.schema == None || s.schema == Some("")) && s.table == Some("orders")
  }

  predicate OrderShape(s: Statement)
    requires s.InsertStatement?
  {
    && s.columns == Listed([Some("customer_id"), Some("amount")])
    && !s.fromSelect
    && s.values.Listed? && |s.values.items| == 2
    && PositiveIntegerLiteral(s.values.items[0])
    && PositiveNumberLiteral(s.values.items[1])
  }

  ghost predicate Admissible(s: Statement) {
    (s.SelectStatement? && AdmissibleSelect(s)) || (s.InsertStatement? && AdmissibleInsert(s))
  }

  function DecisionOn(s: Statement): PolicyDecision {
    Evaluate(StatementAnalysis(Translate(s), FirstSeen(Names(Translate(s).tables))))
  }

  /** The policy's scan over reported names sees exactly the tables of the list. */
  lemma ScanSeesTables(tables: seq<TableName>)
    ensures (exists x :: x in FirstSeen(Names(tables)) && IsSystemTable(x))
       <==> (exists t :: t in tables && Catalogued(t.schema, t.name))
  {
    hide IsSystemTable, CatalogPair, SplitName;
    FirstSeenKeepsNames(Names(tables));
    if x :| x in FirstSeen(Names(tables)) && IsSystemTable(x) {
      var i :| 0 <= i < |tables| && Names(tables)[i] == x;
      SystemTableByParts(x);
      assert tables[i] in tables && TableName(tables[i].schema, tables[i].name) == tables[i];
    }
    if t :| t in tables && Catalogued(t.schema, t.name) {
      var i :| 0 <= i < |tables| && tables[i] == t;
      assert Names(tables)[i] == QualifiedName(t) && TableName(t.schema, t.name) == t;
      SystemTableByParts(QualifiedName(t));
    }
  }

  /** And the tables of a FROM tree are those some path ends in. */
  lemma ScanSeesLeaves(s: Statement)
    requires s.SelectStatement?
    ensures (exists t :: t in NamedTables(Leaves(s.from)) && Catalogued(t.schema, t.name)) <==> ReadsCatalog(s)
  {
    hide Catalogued, NamedTables, Leaves, Occurs;
    LeafReports(Leaves(s.from));
    LeavesOccur(s.from);
    var tables := NamedTables(Leaves(s.from));
    if t :| t in tables && Catalogued(t.schema, t.name) {
      var leaf :| leaf in Leaves(s.from) && leaf.Named? && TableName(leaf.schema, leaf.name) == t;
      assert Occurs(s.from, leaf) && Catalogued(leaf.schema, leaf.name);
    }
    if leaf :| Occurs(s.from, leaf) && leaf.Named? && Catalogued(leaf.schema, leaf.name) {
      var t := TableName(leaf.schema, leaf.name);
      assert leaf in Leaves(s.from);
      assert t in tables && Catalogued(t.schema, t.name);
    }
  }

  lemma NotedExactly(s: Statement)
    requires s.SelectStatement?
    ensures SelectNotes(s) != [] <==> BeyondAnalysis(s)
  {
    hide Leaves, Occurs;
    LeafReports(Leaves(s.from));
    LeavesOccur(s.from);
  }

  lemma OnlyOrdersIsOrders(t: TableName)
    ensures QualifiedName(t) == "orders" <==> t == TableName("", "orders")
  {
    if t.schema != "" {
      assert QualifiedName(t)[|t.schema|] == '.';
    }
  }

  // ---- Each reason, exactly

  /** Why the facts of one statement are rejected, kind by kind, or NoReason. */
  function ReasonOnFacts(p: ParsedStatement): RejectReason {
    match p.kind
    case Unknown => UnsupportedStatementType
    case Create | Alter | Drop => DdlNotAllowed
    case Update | Delete => DmlNotAllowed
    case Insert =>
      if p.tables == [] || exists t :: t in p.tables && t != TableName("", "orders") then InsertTargetNotAllowed
      else if !OrderFacts(p) then UnsupportedInsertShape
      else NoReason
    case Select =>
      if p.unsupportedFeatures != [] then UnsupportedSqlFeature
      else if exists t :: t in p.tables && Catalogued(t.schema, t.name) then SystemTableAccess
      else if p.hasWildcard && p.projectionColumns != [] then UnattributableProjection
      else NoReason
  }

  predicate OrderFacts(p: ParsedStatement) {
    && p.unsupportedFeatures == [] && p.insertSource == ValuesSource
    && p.affectedColumns == ["customer_id", "amount"]
    && (p.insertValueKinds == [PositiveInteger, PositiveInteger]
        || p.insertValueKinds == [PositiveInteger, PositiveDecimal])
  }

  function Deciding(reason: RejectReason): PolicyDecision {
    PolicyDecision(reason == NoReason, reason)
  }

  lemma ReasonOfFacts(p: ParsedStatement)
    ensures Evaluate(StatementAnalysis(p, FirstSeen(Names(p.tables)))) == Deciding(ReasonOnFacts(p))
  {
    hide IsSystemTable, Catalogued, FirstSeen, Names;
    ScanSeesTables(p.tables);
    OrdersAfterDeduplication(Names(p.tables));
    AllOrders(p.tables);
    NamesOfNone(p.tables);
    var a := StatementAnalysis(p, FirstSeen(Names(p.tables)));
    assert TargetsInsertTable(a) <==> a.tables == ["orders"];
    assert IsAllowedOrderInsert(a) <==> OrderFacts(p) by {
      if IsAllowedOrderInsert(a) {
        assert p.affectedColumns == [p.affectedColumns[0], p.affectedColumns[1]];
        assert p.insertValueKinds == [p.insertValueKinds[0], p.insertValueKinds[1]];
      }
    }
  }

  lemma NamesOfNone(tables: seq<TableName>)
    ensures Names(tables) == [] <==> tables == []
  {
    assert |Names(tables)| == |tables|;
  }

  /** Why a tree is rejected, or NoReason. */
  ghost function ReasonOnTree(s: Statement): RejectReason {
    match s
    case OtherStatement => UnsupportedStatementType
    case CreateStatement(_, _, _) => DdlNotAllowed
    case AlterStatement(_, _) => DdlNotAllowed
    case DropStatement(_, _, _) => DdlNotAllowed
    case UpdateStatement(_, _) => DmlNotAllowed
    case DeleteStatement(_, _) => DmlNotAllowed
    case InsertStatement(_, _, _, _, _) =>
      if !IntoOrders(s) then InsertTargetNotAllowed else if !OrderShape(s) then UnsupportedInsertShape else NoReason
    case SelectStatement(_, _, _, _, _) =>
      if BeyondAnalysis(s) then UnsupportedSqlFeature
      else if ReadsCatalog(s) then SystemTableAccess
      else if MixesStar(s) then UnattributableProjection
      else NoReason
  }

  lemma SelectReason(s: Statement)
    requires s.SelectStatement?
    ensures ReasonOnFacts(Translate(s)) == ReasonOnTree(s)
  {
    hide Catalogued, Leaves, NamedTables, SelectNotes, BeyondAnalysis, ReadsCatalog;
    NotedExactly(s);
    ScanSeesLeaves(s);
    NoColumnRefs(Entries(s.selectList));
  }

  lemma InsertReason(s: Statement)
    requires s.InsertStatement?
    ensures ReasonOnFacts(Translate(s)) == ReasonOnTree(s)
  {
    hide OrderFacts, OrderShape;
    InsertShape(s);
    assert TableName(CopyOrEmpty(s.schema), CopyOrEmpty(s.table)) in Translate(s).tables;
  }

  lemma InsertShape(s: Statement)
    requires s.InsertStatement?
    ensures OrderFacts(Translate(s)) <==> OrderShape(s)
  {
    hide Copied, ValueKinds;
    if s.columns.Listed? { ColumnPair(s.columns.items); }
    if s.values.Listed? { ValuePair(s.values.items); }
  }

  lemma ColumnPair(names: seq<Option<string>>)
    ensures Copied(names) == ["customer_id", "amount"] <==> names == [Some("customer_id"), Some("amount")]
  {
    if |names| == 2 {
      assert names == [names[0], names[1]];
      assert Copied(names) == [CopyOrEmpty(names[0]), CopyOrEmpty(names[1])];
    }
  }

  lemma ValuePair(values: seq<Option<Expr>>)
    ensures (ValueKinds(values) == [PositiveInteger, PositiveInteger]
             || ValueKinds(values) == [PositiveInteger, PositiveDecimal])
       <==> |values| == 2 && PositiveIntegerLiteral(values[0]) && PositiveNumberLiteral(values[1])
  {
    var kinds := ValueKinds(values);
    if |values| == 2 {
      assert kinds == [kinds[0], kinds[1]];
      ValueKindExactly(values, 0);
      ValueKindExactly(values, 1);
    }
  }

  /** The decision on every tree, with its reason. */
  lemma DecisionTable(s: Statement)
    ensures DecisionOn(s) == Deciding(ReasonOnTree(s))
  {
    hide ReasonOnFacts, ReasonOnTree;
    ReasonOfFacts(Translate(s));
    match s
    case SelectStatement(_, _, _, _, _) => SelectReason(s);
    case InsertStatement(_, _, _, _, _) => InsertReason(s);
    case _ => PlainReason(s);
  }

  lemma PlainReason(s: Statement)
    requires !s.SelectStatement? && !s.InsertStatement?
    ensures ReasonOnFacts(Translate(s)) == ReasonOnTree(s)
  {
  }

  lemma SelectDecision(s: Statement)
    requires s.SelectStatement?
    ensures DecisionOn(s).allowed <==> AdmissibleSelect(s)
  {
    hide BeyondAnalysis, ReadsCatalog, MixesStar;
    DecisionTable(s);
  }

  /** The one permitted write, exactly. */
  lemma InsertDecision(s: Statement)
    requires s.InsertStatement?
    ensures DecisionOn(s).allowed <==> AdmissibleInsert(s)
  {
    hide IntoOrders, OrderShape;
    DecisionTable(s);
  }

  /** A text worth executing: not blank, accepted by the parser, one live statement, and that one admissible. */
  ghost predicate AdmissibleText(sql: string, output: Reply<ParserOutput>) {
    && !IsBlank(sql)
    && output.Returned? && output.value.valid
    && |NonNull(output.value.statements)| == 1
    && Admissible(NonNull(output.value.statements)[0])
  }

  /**
    The policy allows a request exactly when the parser accepted the text, found one
    statement, and that statement is an admissible SELECT or the one permitted INSERT.
   */
  lemma AllowedExactly(sql: string, output: Reply<ParserOutput>)
    ensures var r := Analyze(sql, Returned(Report(output)));
      r.Returned? && (Evaluate(r.value).allowed <==> AdmissibleText(sql, output))
  {
    if !IsBlank(sql) && output.Returned? && output.value.valid && |NonNull(output.value.statements)| == 1 {
      var s := NonNull(output.value.statements)[0];
      assert TranslateAll(output.value.statements) == [Translate(s)];
      assert Evaluate(AnalysisOf(Report(output))) == DecisionOn(s);
      match s
      case SelectStatement(_, _, _, _, _) => SelectDecision(s);
      case InsertStatement(_, _, _, _, _) => InsertDecision(s);
      case _ =>
    }
  }

  /**
    In an allowed SELECT no path of the FROM tree ends in a subquery, and none in a table of the
    catalogs or with the catalogs' prefix, in any casing; for names without dots.
   */
  lemma AllowedSelectAvoidsCatalogs(s: Statement, path: Path)
    requires s.SelectStatement? && DecisionOn(s).allowed
    requires LeafAt(s.from, path).Some?
    ensures var leaf := LeafAt(s.from, path).value;
      && leaf.Named?
      && ('.' !in leaf.schema && '.' !in leaf.name ==>
            && !Word(leaf.schema, "pg_catalog") && !Word(leaf.schema, "information_schema")
            && (|leaf.name| >= 3 ==> !Word(leaf.name[..3], "pg_")))
  {
    hide Word, SplitName;
    SelectDecision(s);
    var leaf := LeafAt(s.from, path).value;
    assert Occurs(s.from, leaf);
    if leaf.Named? { SplitUndoesQualify(TableName(leaf.schema, leaf.name)); }
  }

  /**
    Dropping repeated table names changes the decision exactly for an INSERT that reports
    orders more than once, and nothing but orders.
   */
  lemma DeduplicationChangesDecision(p: ParsedStatement)
    ensures var names := Names(p.tables);
      Evaluate(StatementAnalysis(p, names)) != Evaluate(StatementAnalysis(p, FirstSeen(names))) <==>
        p.kind == Insert && |p.tables| > 1 && forall t :: t in p.tables ==> t == TableName("", "orders")
  {
    var names := Names(p.tables);
    FirstSeenKeepsNames(names);
    if p.kind == Insert {
      OrdersAfterDeduplication(names);
      AllOrders(p.tables);
      assert TargetsInsertTable(StatementAnalysis(p, names)) <==> names == ["orders"];
      assert TargetsInsertTable(StatementAnalysis(p, FirstSeen(names))) <==> FirstSeen(names) == ["orders"];
    }
  }

  lemma AllOrders(tables: seq<TableName>)
    ensures (forall x :: x in Names(tables) ==> x == "orders")
       <==> forall t :: t in tables ==> t == TableName("", "orders")
  {
    forall i | 0 <= i < |tables| ensures Names(tables)[i] == "orders" <==> tables[i] == TableName("", "orders") {
      OnlyOrdersIsOrders(tables[i]);
    }
    assert forall i :: 0 <= i < |tables| ==> Names(tables)[i] in Names(tables);
    assert forall i :: 0 <= i < |tables| ==> tables[i] in tables;
  }

  lemma OrdersAfterDeduplication(names: seq<string>)
    ensures FirstSeen(names) == ["orders"] <==> names != [] && forall x :: x in names ==> x == "orders"
  {
    FirstSeenKeepsNames(names);
    var r := FirstSeen(names);
    assert |r| > 1 ==> r[0] != r[1];
    if names != [] && (forall x :: x in names ==> x == "orders") {
      forall i | 0 <= i < |r| ensures r[i] == "orders" { assert r[i] in r; }
    }
    if r == ["orders"] {
      assert forall x :: x in names ==> x in r;
    }
  }

  /** No statement the adapter produces is in that family. */
  lemma DeduplicationIsHarmless(s: Statement)
    ensures Evaluate(StatementAnalysis(Translate(s), Names(Translate(s).tables))) == DecisionOn(s)
  {
    DeduplicationChangesDecision(Translate(s));
  }
}
