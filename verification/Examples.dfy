/**
  Single requests from the parse tree to the answer: a read that meets every hypothesis of the
  masking theorem, three reads outside it whose data leaves raw, and the permitted write.
 */
module Examples {
  import opened Text
  import opened SqlModel
  import opened Execution
  import opened HyriseParser
  import opened FromTree
  import opened Analyzer
  import opened Policy
  import opened Authorization
  import opened Classifier
  import opened Maskers
  import opened ResultMasking
  import opened Lineage
  import opened Audit
  import opened Service
  import opened Guarantees
  import opened Exposure

  // ---- SELECT items FROM customers, under any alias

  type Items = items: seq<Expr> | items != [] && (AllColumnRefs(items) || AllStars(items)) witness [Star(None)]

  function Present(items: seq<Expr>): seq<Option<Expr>> {
    seq(|items|, i requires 0 <= i < |items| => Some(items[i]))
  }

  function FromCustomers(alias: Option<TableAlias>, items: Items): Statement {
    SelectStatement(Some(NameRef(None, Some("customers"), alias)), Listed(Present(items)), false, None, None)
  }

  function OutputOf(s: Statement): Reply<ParserOutput> {
    Returned(ParserOutput(true, [Some(s)]))
  }

  lemma {:induction false} NonNullPresent(items: seq<Expr>)
    ensures NonNull(Present(items)) == items
  {
    if items != [] {
      var front := items[..|items| - 1];
      assert Present(items)[..|items| - 1] == Present(front);
      NonNullPresent(front);
    }
  }

  lemma OneStatement(s: Statement)
    ensures NonNull(OutputOf(s).value.statements) == [s] && OnlyStatement(OutputOf(s)) == s
  {
    assert NonNull(OutputOf(s).value.statements[..0]) == [];
  }

  lemma NotSystem(name: string)
    requires name != "" && '.' !in name && LowerByte(name[0]) != 'p'
    ensures !IsSystemTable(name)
  {
    LowerKeepsDots(name);
    FindAt(Lower(name), '.', |name|);
    assert Lower(name)[0] != 'p';
  }

  lemma CustomersAdmissible(alias: Option<TableAlias>, items: Items)
    ensures AdmissibleSelect(FromCustomers(alias, items))
  {
    hide IsSystemTable, CatalogPair, SplitName, Lower, Occurs;
    NonNullPresent(items);
    LeavesOccur(FromCustomers(alias, items).from);
    assert Leaves(FromCustomers(alias, items).from) == [Named("", "customers", alias)];
    NotSystem("customers");
    SystemTableByParts("customers");
    assert QualifiedName(TableName("", "customers")) == "customers";
    assert items[0] in items;
  }

  lemma AdmissibleApproved(sql: string, s: Statement)
    requires !IsBlank(sql) && Admissible(s)
    ensures Approved(sql, Returned(Report(OutputOf(s))))
    ensures Report(OutputOf(s)).statements == [Translate(s)]
  {
    hide Report, Analyze, Evaluate, Admissible, Translate;
    OneStatement(s);
    AllowedExactly(sql, OutputOf(s));
    ApprovedIsSingle(sql, Returned(Report(OutputOf(s))));
    ReportOfOne(OutputOf(s));
  }

  function RequestFor(sql: string, s: Statement, e: ExecutionResult): Request {
    Request(sql, Environment(0, Returned(Report(OutputOf(s))), Returned(e), Returned(Appended)))
  }

  function ReadOf(sql: string, alias: Option<TableAlias>, items: Items, columns: seq<ColumnInfo>, rows: Rows): Request {
    RequestFor(sql, FromCustomers(alias, items), ExecutionResult(Executed, "", true, columns, rows, |rows|, 0))
  }

  function ClassesOf(alias: Option<TableAlias>, items: Items, columns: seq<ColumnInfo>): seq<ColumnClassification> {
    Classify(DEFAULT_INDEX, SelectAnalysis(FromCustomers(alias, items)), columns).columns
  }

  /** The result leaves, masked as the classifier says. */
  lemma ReadLeaves(sql: string, alias: Option<TableAlias>, items: Items, columns: seq<ColumnInfo>, rows: Rows, id: nat)
    requires !IsBlank(sql) && Rectangular(rows, |columns|) && columns != []
    requires AllStars(items) || |items| == |columns|
    ensures var h := Handle(DEFAULT_INDEX, ReadOf(sql, alias, items, columns, rows), id);
      var classes := ClassesOf(alias, items, columns);
      && h.response == ReadSuccess(MaskedQueryResult(ColumnNames(columns), MaskRows(classes, rows)))
      && ReleasedRead(DEFAULT_INDEX, ReadOf(sql, alias, items, columns, rows), h)
  {
    hide Handle, Report, Analyze, Approved, Classify, AdmissibleSelect, Translate, SelectAnalysis;
    var s, req := FromCustomers(alias, items), ReadOf(sql, alias, items, columns, rows);
    CustomersAdmissible(alias, items);
    AdmissibleApproved(sql, s);
    OneStatement(s);
    ApprovedAnalysis(sql, OutputOf(s));
    NonNullPresent(items);
    ShapesOfSelect(s, |columns|);
    ReadLeavesExactly(DEFAULT_INDEX, req, id);
    ReleaseRule(DEFAULT_INDEX, req, id);
  }

  /** How a list of references is classified: each by its own name. */
  lemma ReferenceClasses(alias: Option<TableAlias>, items: Items, columns: seq<ColumnInfo>, i: nat)
    requires AllColumnRefs(items) && |items| == |columns| && i < |items|
    requires '.' !in CopyOrEmpty(items[i].name)
    ensures ClassesOf(alias, items, columns)[i] == ByName(DEFAULT_INDEX, CopyOrEmpty(items[i].name))
  {
    hide ByName, StripQualifier;
    NonNullPresent(items);
    ShapesOfSelect(FromCustomers(alias, items), |columns|);
    ColumnsOfRefs(items);
    StripOfSpelled(items[i]);
  }

  // ---- SELECT c.email FROM customers c

  const EMAIL: Items := [ColumnRef(Some("c"), Some("email"))]
  const AS_C: Option<TableAlias> := Some(TableAlias(Some("c"), Null))

  /** The tables of sql/schema.sql. */
  const SCHEMA: Catalogue := Catalogue(
    map[TableName("", "customers") := {"id", "name", "email", "phone", "credit_card"},
        TableName("", "orders") := {"id", "customer_id", "amount", "created_at"}], {})

  lemma EmailClassified(columns: seq<ColumnInfo>)
    requires |columns| == 1
    ensures ClassesOf(AS_C, EMAIL, columns) == [PiiColumn(Email)]
  {
    hide Classify;
    ReferenceClasses(AS_C, EMAIL, columns, 0);
    assert ByName(DEFAULT_INDEX, "email") == PiiColumn(Email) by { assert Lower("email") == "email"; }
    ClassificationConsistent(DEFAULT_INDEX, SelectAnalysis(FromCustomers(AS_C, EMAIL)), columns);
  }

  lemma AddressMasked()
    ensures MaskValue(Email, "ann@b.com") == "a***@b.com"
  {
    hide Find;
    var v := "ann@b.com";
    assert v[..3] == "ann" && v[4..] == "b.com";
    FindAt(v, '@', 3);
    assert Addressable(v);
  }

  const ANN: Rows := [[Some("ann@b.com")], [None]]

  /** Under any result name the address leaves masked, and the record counts one email column. */
  lemma ReadIsReleased(sql: string, shownAs: ColumnInfo, id: nat)
    requires !IsBlank(sql)
    ensures var h := Handle(DEFAULT_INDEX, ReadOf(sql, AS_C, EMAIL, [shownAs], ANN), id);
      && h.response == ReadSuccess(MaskedQueryResult([shownAs.name], [[Some("a***@b.com")], [None]]))
      && h.record.details == SuccessDetails(Select, 2, 1, PiiSummary(1, 0, 0))
  {
    hide Handle, Classify, Report, Approved, Analyze, MaskValue;
    EmailClassified([shownAs]);
    AddressMasked();
    ReadLeaves(sql, AS_C, EMAIL, [shownAs], ANN, id);
    AdmittedAnalysis(sql, AS_C, EMAIL);
    var cls := Classify(DEFAULT_INDEX, SelectAnalysis(FromCustomers(AS_C, EMAIL)), [shownAs]);
    var m := MaskRows(cls.columns, ANN);
    assert m[0] == [Some("a***@b.com")] && m[1] == [None] && m == [m[0], m[1]];
    assert ColumnNames([shownAs]) == [shownAs.name];
    assert ColumnsOf(cls, Email) == {0} && ColumnsOf(cls, Phone) == {} && ColumnsOf(cls, CreditCard) == {};
  }

  lemma AdmittedAnalysis(sql: string, alias: Option<TableAlias>, items: Items)
    requires !IsBlank(sql)
    ensures Analyze(sql, Returned(Report(OutputOf(FromCustomers(alias, items)))))
         == Returned(SelectAnalysis(FromCustomers(alias, items)))
  {
    hide Report, Analyze, Approved, AdmissibleSelect, SelectAnalysis;
    CustomersAdmissible(alias, items);
    AdmissibleApproved(sql, FromCustomers(alias, items));
    OneStatement(FromCustomers(alias, items));
    ApprovedAnalysis(sql, OutputOf(FromCustomers(alias, items)));
  }

  lemma EmailCertain(leaf: Leaf)
    requires leaf == Named("", "customers", AS_C)
    ensures Certain(Scope([leaf], SCHEMA), EMAIL[0])
  {
    hide Stores;
    assert Lower("email") == "email";
    CustomersStore(leaf, "email");
    assert Qualifies("c", leaf);
  }

  lemma EmailHarmless(columns: seq<ColumnInfo>)
    requires |columns| == 1
    ensures var s := FromCustomers(AS_C, EMAIL);
      && !Hazardous(DEFAULT_INDEX, s, SCHEMA)
      && Produces(ScopeOf(s, SCHEMA), Entries(s.selectList), [FromColumn("email")], columns)
  {
    hide Certain, Hazardous, Produces, Admits, CountsRows, SCHEMA;
    NonNullPresent(EMAIL);
    EmailNotHazardous();
    EmailAdmitted();
    EntryByEntry(ScopeOf(FromCustomers(AS_C, EMAIL), SCHEMA), EMAIL, [FromColumn("email")], columns);
  }

  lemma EmailNotHazardous()
    ensures !Hazardous(DEFAULT_INDEX, FromCustomers(AS_C, EMAIL), SCHEMA)
  {
    hide Certain, Maps, Renames, AllColumnRefs;
    NonNullPresent(EMAIL);
    EmailCertain(Named("", "customers", AS_C));
    assert EMAIL[0] in EMAIL && !AllStars(EMAIL);
  }

  lemma EmailAdmitted()
    ensures Admits(ScopeOf(FromCustomers(AS_C, EMAIL), SCHEMA), EMAIL[0], FromColumn("email"))
  {
  }

  lemma ShownEmail(raw: Cell, shown: Cell)
    requires ShownByOrigin(DEFAULT_CONFIG, FromColumn("email"), raw, shown)
    ensures shown == MaskCell(PiiColumn(Email), raw)
  {
    hide MaskCell;
    DefaultConfigIsAccepted();
    LookupIsScan(DEFAULT_INDEX, DEFAULT_CONFIG, "email");
    assert Lower("email") == "email";
  }

  /** The same cell through the masking theorem, whose hypotheses this request meets. */
  lemma ReadFollowsLineage(sql: string, shownAs: ColumnInfo, id: nat)
    requires !IsBlank(sql)
    ensures var h := Handle(DEFAULT_INDEX, ReadOf(sql, AS_C, EMAIL, [shownAs], ANN), id);
      && h.response.ReadSuccess? && |h.response.result.rows| == 2 && |h.response.result.rows[0]| == 1
      && h.response.result.rows[0][0] == MaskCell(PiiColumn(Email), Some("ann@b.com"))
  {
    hide Handle, Report, Hazardous, Produces, ShownByOrigin, MaskCell;
    var req := ReadOf(sql, AS_C, EMAIL, [shownAs], ANN);
    DefaultConfigIsAccepted();
    ReadIsReleased(sql, shownAs, id);
    OneStatement(FromCustomers(AS_C, EMAIL));
    EmailHarmless([shownAs]);
    MaskedByLineage(DEFAULT_INDEX, DEFAULT_CONFIG, req, id, OutputOf(FromCustomers(AS_C, EMAIL)), SCHEMA,
                    [FromColumn("email")], 0, 0);
    ShownEmail(Some("ann@b.com"), Handle(DEFAULT_INDEX, req, id).response.result.rows[0][0]);
  }

  // ---- References that pass for unmapped columns

  predicate Unstored(catalogue: Catalogue, name: string) {
    forall table :: table in catalogue.columns ==> name !in catalogue.columns[table]
  }

  lemma UnstoredUncertain(scope: Scope, name: string)
    requires Unstored(scope.catalogue, name) && Lower(name) == name
    ensures !Certain(scope, ColumnRef(None, Some(name)))
  {
  }

  lemma UnmappedByLength(name: string)
    requires |name| != 5 && |name| != 11
    ensures ByName(DEFAULT_INDEX, name) == NOT_PII
  {
    assert |Lower(name)| == |name|;
  }

  lemma ClassesWidth(alias: Option<TableAlias>, items: Items, columns: seq<ColumnInfo>)
    ensures |ClassesOf(alias, items, columns)| == |columns|
  {
  }

  /** A list of unmapped names leaves as it is, whatever the names stand for. */
  lemma UnmappedLeavesRaw(sql: string, alias: Option<TableAlias>, items: Items, columns: seq<ColumnInfo>, rows: Rows,
                          id: nat)
    requires !IsBlank(sql) && Rectangular(rows, |columns|) && columns != []
    requires AllStars(items) || |items| == |columns|
    requires forall i :: 0 <= i < |columns| ==> ClassesOf(alias, items, columns)[i] == NOT_PII
    ensures Handle(DEFAULT_INDEX, ReadOf(sql, alias, items, columns, rows), id).response
      == ReadSuccess(MaskedQueryResult(ColumnNames(columns), rows))
  {
    hide Handle, Classify, ClassesOf, ReadOf, FromCustomers, ReleasedRead, ColumnNames;
    ReadLeaves(sql, alias, items, columns, rows, id);
    ClassesWidth(alias, items, columns);
    var m := MaskRows(ClassesOf(alias, items, columns), rows);
    forall i | 0 <= i < |rows| ensures m[i] == rows[i] {}
    assert m == rows;
  }

  // ---- SELECT customers FROM customers

  const WHOLE_ROW: Items := [ColumnRef(None, Some("customers"))]

  /** The text of the whole row leaves raw. */
  lemma WholeRowLeavesRaw(sql: string, row: string, catalogue: Catalogue, shownAs: ColumnInfo, id: nat)
    requires !IsBlank(sql) && Unstored(catalogue, "customers")
    ensures Hazardous(DEFAULT_INDEX, FromCustomers(None, WHOLE_ROW), catalogue)
    ensures Handle(DEFAULT_INDEX, ReadOf(sql, None, WHOLE_ROW, [shownAs], [[Some(row)]]), id).response
      == ReadSuccess(MaskedQueryResult([shownAs.name], [[Some(row)]]))
  {
    hide Handle, Classify, Hazardous, Lower, ClassesOf;
    WholeRowHazardous(catalogue);
    UnmappedByLength("customers");
    ReferenceClasses(None, WHOLE_ROW, [shownAs], 0);
    UnmappedLeavesRaw(sql, None, WHOLE_ROW, [shownAs], [[Some(row)]], id);
    assert ColumnNames([shownAs]) == [shownAs.name];
  }

  lemma WholeRowHazardous(catalogue: Catalogue)
    requires Unstored(catalogue, "customers")
    ensures Hazardous(DEFAULT_INDEX, FromCustomers(None, WHOLE_ROW), catalogue)
  {
    hide Certain;
    NonNullPresent(WHOLE_ROW);
    assert Lower("customers") == "customers";
    UnstoredUncertain(ScopeOf(FromCustomers(None, WHOLE_ROW), catalogue), "customers");
  }

  // ---- SELECT current_user, c FROM customers c

  const USER_AND_ROW: Items := [ColumnRef(None, Some("current_user")), ColumnRef(None, Some("c"))]

  /** The role name and the text of the whole row leave raw. */
  lemma UserAndRowLeaveRaw(sql: string, user: string, row: string, catalogue: Catalogue, columns: seq<ColumnInfo>,
                           id: nat)
    requires !IsBlank(sql) && |columns| == 2
    requires Unstored(catalogue, "current_user") || Unstored(catalogue, "c")
    ensures Hazardous(DEFAULT_INDEX, FromCustomers(AS_C, USER_AND_ROW), catalogue)
    ensures Handle(DEFAULT_INDEX, ReadOf(sql, AS_C, USER_AND_ROW, columns, [[Some(user), Some(row)]]), id).response
      == ReadSuccess(MaskedQueryResult(ColumnNames(columns), [[Some(user), Some(row)]]))
  {
    hide Handle, Classify, Hazardous, Lower, ClassesOf;
    UserAndRowHazardous(catalogue);
    UnmappedByLength("current_user");
    UnmappedByLength("c");
    ReferenceClasses(AS_C, USER_AND_ROW, columns, 0);
    ReferenceClasses(AS_C, USER_AND_ROW, columns, 1);
    UnmappedLeavesRaw(sql, AS_C, USER_AND_ROW, columns, [[Some(user), Some(row)]], id);
  }

  lemma UserAndRowHazardous(catalogue: Catalogue)
    requires Unstored(catalogue, "current_user") || Unstored(catalogue, "c")
    ensures Hazardous(DEFAULT_INDEX, FromCustomers(AS_C, USER_AND_ROW), catalogue)
  {
    hide Certain;
    NonNullPresent(USER_AND_ROW);
    assert Lower("current_user") == "current_user" && Lower("c") == "c";
    var scope := ScopeOf(FromCustomers(AS_C, USER_AND_ROW), catalogue);
    UnstoredUncertain(scope, if Unstored(catalogue, "current_user") then "current_user" else "c");
  }

  // ---- SELECT Email, without an alias and under the quoted alias "Email"

  /** Casing alone is harmless; it is not when a quoted reading finds a table of that very name. */
  lemma CasingMatters()
    ensures Certain(Scope([Named("", "customers", None)], SCHEMA), ColumnRef(None, Some("Email")))
    ensures !Certain(Scope([Named("", "customers", Some(TableAlias(Some("Email"), Null)))], SCHEMA),
                     ColumnRef(None, Some("Email")))
  {
    hide Certain;
    UnquotedCertain(Named("", "customers", None));
    QuotedUncertain(Named("", "customers", Some(TableAlias(Some("Email"), Null))));
  }

  lemma CustomersStore(leaf: Leaf, name: string)
    requires leaf.Named? && leaf.schema == "" && leaf.name == "customers"
    ensures Stores(SCHEMA, leaf, name) <==> name in SCHEMA.columns[TableName("", "customers")]
  {
    assert MayBe(leaf, TableName("", "customers"));
    assert !MayBe(leaf, TableName("", "orders")) by { assert |Lower("orders")| != |Lower("customers")|; }
  }

  lemma UnquotedCertain(leaf: Leaf)
    requires leaf == Named("", "customers", None)
    ensures Certain(Scope([leaf], SCHEMA), ColumnRef(None, Some("Email")))
  {
    hide Stores;
    assert Lower("Email") == "email";
    CustomersStore(leaf, "email");
  }

  lemma QuotedUncertain(leaf: Leaf)
    requires leaf == Named("", "customers", Some(TableAlias(Some("Email"), Null)))
    ensures !Certain(Scope([leaf], SCHEMA), ColumnRef(None, Some("Email")))
  {
    hide Stores;
    CustomersStore(leaf, "Email");
    assert "Email" !in SCHEMA.columns[TableName("", "customers")] by {
      assert "Email"[0] != "email"[0] && "Email"[0] != "phone"[0];
    }
  }

  // ---- SELECT * FROM customers AS c(a, b, d, e)

  const EVERYTHING: Items := [Star(None)]
  const AS_C_RENAMED: Option<TableAlias> :=
    Some(TableAlias(Some("c"), Listed([Some("a"), Some("b"), Some("d"), Some("e")])))
  const RENAMED: seq<ColumnInfo> :=
    [ColumnInfo("a", IntegerType), ColumnInfo("b", TextType), ColumnInfo("d", TextType), ColumnInfo("e", TextType)]

  /** The result names are not the source names, and every row leaves raw. */
  lemma RenamedStarLeavesRaw(sql: string, rows: Rows, catalogue: Catalogue, id: nat)
    requires !IsBlank(sql) && Rectangular(rows, 4)
    ensures Hazardous(DEFAULT_INDEX, FromCustomers(AS_C_RENAMED, EVERYTHING), catalogue)
    ensures Handle(DEFAULT_INDEX, ReadOf(sql, AS_C_RENAMED, EVERYTHING, RENAMED, rows), id).response
      == ReadSuccess(MaskedQueryResult(["a", "b", "d", "e"], rows))
  {
    hide Handle, Classify, Hazardous, ClassesOf, ColumnNames, ReadOf, FromCustomers, AllColumnRefs;
    RenamedHazardous(catalogue);
    RenamedClassified();
    RenamedNames();
    assert |RENAMED| == 4 && RENAMED != [];
    UnmappedLeavesRaw(sql, AS_C_RENAMED, EVERYTHING, RENAMED, rows, id);
  }

  lemma RenamedNames()
    ensures ColumnNames(RENAMED) == ["a", "b", "d", "e"]
  {
  }

  lemma RenamedHazardous(catalogue: Catalogue)
    ensures Hazardous(DEFAULT_INDEX, FromCustomers(AS_C_RENAMED, EVERYTHING), catalogue)
  {
    NonNullPresent(EVERYTHING);
    var leaf := Named("", "customers", AS_C_RENAMED);
    assert leaf in Leaves(FromCustomers(AS_C_RENAMED, EVERYTHING).from) && HasColumnList(leaf);
    assert "email" in DEFAULT_INDEX && Lower("email") == "email";
  }

  lemma RenamedClassified()
    ensures |ClassesOf(AS_C_RENAMED, EVERYTHING, RENAMED)| == 4
    ensures forall i :: 0 <= i < 4 ==> ClassesOf(AS_C_RENAMED, EVERYTHING, RENAMED)[i] == NOT_PII
  {
    hide ByName;
    NonNullPresent(EVERYTHING);
    ShapesOfSelect(FromCustomers(AS_C_RENAMED, EVERYTHING), 4);
    forall i | 0 <= i < 4 ensures ClassesOf(AS_C_RENAMED, EVERYTHING, RENAMED)[i] == NOT_PII {
      UnmappedByLength(RENAMED[i].name);
    }
  }

  // ---- INSERT INTO orders (customer_id, amount) VALUES (1, 199.90)

  const WRITE: Statement :=
    InsertStatement(None, Some("orders"), Listed([Some("customer_id"), Some("amount")]), false,
                    Listed([Some(IntLiteral(1)), Some(FloatLiteral(199.90))]))

  /** The one permitted write is released, with its own record. */
  lemma WriteIsReleased(ix: Index, sql: string, id: nat)
    requires !IsBlank(sql)
    ensures var h := Handle(ix, RequestFor(sql, WRITE, ExecutionResult(Executed, "", false, [], [], 0, 1)), id);
      h.response == WriteSuccess(1) && h.record.details == WriteSuccessDetails(Insert, 1)
  {
    hide Handle, Report, Analyze, Evaluate;
    var req := RequestFor(sql, WRITE, ExecutionResult(Executed, "", false, [], [], 0, 1));
    AdmissibleApproved(sql, WRITE);
    ApprovedIsSingle(sql, req.env.parser);
    OutcomeTable(ix, req, id);
    AuditTellsTheTruth(ix, req, id);
    ReleaseRule(ix, req, id);
  }
}
