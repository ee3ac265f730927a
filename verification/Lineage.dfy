/**
  Which source column each result column of a SELECT comes from, and what the classifier
  makes of it.  The database's side is a relation between select lists and origins:

  - a reference that can only be read as a stored column yields that column, up to ASCII case;
  - any other reference may yield anything: a whole row (customers, or c.text), a value keyword
    (current_user), any column;
  - a star yields any number of columns, under their own names unless the FROM clause renames them;
  - COUNT(*) yields a row count, any other expression one column of whatever origin.
 */
module Lineage {
  import opened Text
  import opened SqlModel
  import opened Execution
  import opened HyriseParser
  import opened Analyzer
  import opened Classifier

  datatype Origin = FromColumn(name: string) | WholeRow | RowCount | Elsewhere

  /**
    What is known of the database: the column names of each table as stored, except reserved
    words, which are read as values; and the names holding a capital letter of functions and
    types, which c."F" applies to the row c.
   */
  datatype Catalogue = Catalogue(columns: map<TableName, set<string>>, functions: set<string>)

  datatype Scope = Scope(leaves: seq<Leaf>, catalogue: Catalogue)

  function ScopeOf(s: Statement, catalogue: Catalogue): Scope
    requires s.SelectStatement?
  {
    Scope(Leaves(s.from), catalogue)
  }

  /** The name a leaf is known by: its alias, or its own name without one. */
  function RelationName(leaf: Leaf): string
    requires leaf.Named?
  {
    if leaf.alias.Some? then CopyOrEmpty(leaf.alias.value.name) else leaf.name
  }

  predicate HasColumnList(leaf: Leaf) {
    leaf.Named? && leaf.alias.Some? && leaf.alias.value.columns.Listed? && leaf.alias.value.columns.items != []
  }

  /** Some leaf may show its columns under other names. */
  predicate Renames(scope: Scope) {
    exists leaf :: leaf in scope.leaves && HasColumnList(leaf)
  }

  /** The parse keeps no quotes, so a leaf may be any table of its name up to case. */
  predicate MayBe(leaf: Leaf, table: TableName) {
    leaf.Named? && Lower(table.schema) == Lower(leaf.schema) && Lower(table.name) == Lower(leaf.name)
  }

  /** Every table the leaf may be stores a column of exactly this name. */
  predicate Stores(catalogue: Catalogue, leaf: Leaf, name: string) {
    && (exists table :: table in catalogue.columns && MayBe(leaf, table))
    && (forall table :: table in catalogue.columns && MayBe(leaf, table) ==> name in catalogue.columns[table])
  }

  predicate Qualifies(qualifier: string, leaf: Leaf) {
    leaf.Named? && Lower(qualifier) == Lower(RelationName(leaf))
  }

  /** Read with exactly this name, the reference is to a stored column. */
  predicate ReadsColumn(scope: Scope, qualifier: Option<string>, name: string) {
    match qualifier
    case None => exists leaf :: leaf in scope.leaves && Stores(scope.catalogue, leaf, name)
    case Some(q) =>
      && (exists leaf :: leaf in scope.leaves && Qualifies(q, leaf))
      && (forall leaf :: leaf in scope.leaves && Qualifies(q, leaf) ==> Stores(scope.catalogue, leaf, name))
  }

  /** Read in quotes and not as a column, the reference still has a value made of a whole row. */
  predicate ReadsRow(scope: Scope, qualifier: Option<string>, name: string) {
    match qualifier
    case None => exists leaf :: leaf in scope.leaves && leaf.Named? && RelationName(leaf) == name
    case Some(_) => name in scope.catalogue.functions
  }

  function FoldedName(e: Expr): string
    requires e.ColumnRef?
  {
    Lower(CopyOrEmpty(e.name))
  }

  /** With or without quotes, the reference can only be read as a stored column. */
  predicate Certain(scope: Scope, e: Expr)
    requires e.ColumnRef?
  {
    var name := CopyOrEmpty(e.name);
    && !Renames(scope)
    && ReadsColumn(scope, e.table, Lower(name))
    && (ReadsColumn(scope, e.table, name) || !ReadsRow(scope, e.table, name))
  }

  ghost predicate Admits(scope: Scope, e: Expr, origin: Origin) {
    && (e.ColumnRef? && Certain(scope, e) ==> origin.FromColumn? && Lower(origin.name) == FoldedName(e))
    && (CountsRows(e) ==> origin == RowCount)
  }

  ghost predicate StarColumn(scope: Scope, origin: Origin, column: ColumnInfo) {
    origin.FromColumn? && (Renames(scope) || origin.name == column.name)
  }

  ghost predicate Expands(scope: Scope, e: Expr, origins: seq<Origin>, columns: seq<ColumnInfo>) {
    && |origins| == |columns|
    && if e.Star? then forall i :: 0 <= i < |columns| ==> StarColumn(scope, origins[i], columns[i])
       else |origins| == 1 && Admits(scope, e, origins[0])
  }

  /** The entries, left to right, yield these columns with these origins; result names are otherwise arbitrary. */
  ghost predicate Produces(scope: Scope, entries: seq<Expr>, origins: seq<Origin>, columns: seq<ColumnInfo>) {
    && |origins| == |columns|
    && if entries == [] then columns == []
       else exists k :: 0 <= k <= |columns| && ProducesAt(scope, entries, origins, columns, k)
  }

  /** The last entry yields the columns from k on. */
  ghost predicate ProducesAt(scope: Scope, entries: seq<Expr>, origins: seq<Origin>, columns: seq<ColumnInfo>, k: nat)
    requires entries != [] && k <= |columns| == |origins|
  {
    && Produces(scope, entries[..|entries| - 1], origins[..k], columns[..k])
    && Expands(scope, entries[|entries| - 1], origins[k..], columns[k..])
  }

  lemma LastSplit(scope: Scope, entries: seq<Expr>, origins: seq<Origin>, columns: seq<ColumnInfo>) returns (k: nat)
    requires Produces(scope, entries, origins, columns) && entries != []
    ensures k <= |columns| == |origins| && ProducesAt(scope, entries, origins, columns, k)
  {
    k :| 0 <= k <= |columns| && ProducesAt(scope, entries, origins, columns, k);
  }

  predicate AllColumnRefs(entries: seq<Expr>) { forall e :: e in entries ==> e.ColumnRef? }
  predicate AllStars(entries: seq<Expr>) { forall e :: e in entries ==> e.Star? }
  predicate AllCountStars(entries: seq<Expr>) { forall e :: e in entries ==> CountsRows(e) }

  /** Without stars, entry i yields column i. */
  lemma {:induction false} EntryByEntry(scope: Scope, entries: seq<Expr>, origins: seq<Origin>,
                                        columns: seq<ColumnInfo>)
    requires forall e :: e in entries ==> !e.Star?
    ensures Produces(scope, entries, origins, columns) <==>
      |origins| == |columns| == |entries| && forall i :: 0 <= i < |entries| ==> Admits(scope, entries[i], origins[i])
  {
    hide Admits;
    if entries != [] {
      var front, last := entries[..|entries| - 1], entries[|entries| - 1];
      if Produces(scope, entries, origins, columns) {
        var k := LastSplit(scope, entries, origins, columns);
        EntryByEntry(scope, front, origins[..k], columns[..k]);
        assert origins[k..][0] == origins[k];
        assert forall i :: 0 <= i < |front| ==> origins[i] == origins[..k][i] && front[i] == entries[i];
      }
      if |origins| == |columns| == |entries|
         && forall i :: 0 <= i < |entries| ==> Admits(scope, entries[i], origins[i]) {
        var k := |front|;
        EntryByEntry(scope, front, origins[..k], columns[..k]);
        assert ProducesAt(scope, entries, origins, columns, k);
      }
    }
  }

  lemma {:induction false} StarOrigins(scope: Scope, entries: seq<Expr>, origins: seq<Origin>,
                                       columns: seq<ColumnInfo>, i: nat)
    requires Produces(scope, entries, origins, columns) && AllStars(entries)
    requires i < |columns|
    ensures StarColumn(scope, origins[i], columns[i])
  {
    var k := LastSplit(scope, entries, origins, columns);
    if i < k {
      StarOrigins(scope, entries[..|entries| - 1], origins[..k], columns[..k], i);
    } else {
      assert origins[k..][i - k] == origins[i] && columns[k..][i - k] == columns[i];
    }
  }

  /** The last of several stars may yield everything. */
  lemma {:induction false} LastStarProduces(scope: Scope, entries: seq<Expr>, origins: seq<Origin>,
                                            columns: seq<ColumnInfo>)
    requires AllStars(entries) && |origins| == |columns|
    requires entries == [] ==> columns == []
    requires forall i :: 0 <= i < |columns| ==> StarColumn(scope, origins[i], columns[i])
    ensures Produces(scope, entries, origins, columns)
  {
    if entries != [] {
      LastStarProduces(scope, entries[..|entries| - 1], [], []);
      assert origins[..0] == [] && columns[..0] == [] && origins[0..] == origins && columns[0..] == columns;
      assert ProducesAt(scope, entries, origins, columns, 0);
    }
  }

  // ---- Shapes

  /** The select lists whose every result column can be accounted for, on n result columns. */
  predicate Attributable(entries: seq<Expr>, grouped: bool, n: nat) {
    entries != [] &&
    ((AllColumnRefs(entries) && |entries| == n) || AllStars(entries) || (AllCountStars(entries) && !grouped))
  }

  function SelectAnalysis(s: Statement): SqlAnalysis
    requires s.SelectStatement?
  {
    StatementAnalysis(Translate(s), FirstSeen(Names(Translate(s).tables)))
  }

  lemma {:induction false} ColumnsOfRefs(entries: seq<Expr>)
    requires AllColumnRefs(entries)
    ensures |ColumnsIn(entries)| == |entries|
    ensures forall i :: 0 <= i < |entries| ==> ColumnsIn(entries)[i] == Spelled(entries[i])
  {
    if entries != [] {
      ColumnsOfRefs(entries[..|entries| - 1]);
    }
  }

  /** The three shapes never hold together, for any analysis and any width. */
  lemma ShapesExclude(a: SqlAnalysis, n: nat)
    ensures !(PositionalShape(a, n) && WildcardShape(a))
    ensures !(PositionalShape(a, n) && CountStarShape(a))
    ensures !(WildcardShape(a) && CountStarShape(a))
  {
  }

  /** What the folded flags say about the entries themselves. */
  lemma ShapesOfSelect(s: Statement, n: nat)
    requires s.SelectStatement?
    ensures var a, entries := SelectAnalysis(s), Entries(s.selectList);
      && (PositionalShape(a, n) <==> entries != [] && AllColumnRefs(entries) && |entries| == n)
      && (WildcardShape(a) <==> entries != [] && AllStars(entries))
      && (CountStarShape(a) <==> entries != [] && AllCountStars(entries) && !s.grouped)
  {
    hide IsCountStar, CountsRows;
    var entries := Entries(s.selectList);
    forall e ensures (IsCountStar(e) <==> CountsRows(e)) && (CountsRows(e) ==> e.FunctionRef?) { CountStarForm(e); }
    NoColumnRefs(entries);
    if entries != [] { assert entries[0] in entries; }
    if AllColumnRefs(entries) { ColumnsOfRefs(entries); }
  }

  /** Classification accounts for all columns exactly for an attributable list; otherwise for none. */
  lemma AttributedExactly(ix: Index, s: Statement, columns: seq<ColumnInfo>)
    requires s.SelectStatement? && columns != []
    ensures var r := Classify(ix, SelectAnalysis(s), columns);
      && (r.fullyAttributed <==> Attributable(Entries(s.selectList), s.grouped, |columns|))
      && (!r.fullyAttributed ==> forall i :: 0 <= i < |columns| ==> r.columns[i] == UNATTRIBUTED)
  {
    ShapesOfSelect(s, |columns|);
  }

  // ---- Classification follows lineage

  lemma StripOfSpelled(e: Expr)
    requires e.ColumnRef? && '.' !in CopyOrEmpty(e.name)
    ensures StripQualifier(Spelled(e)) == CopyOrEmpty(e.name)
  {
    var s, name := Spelled(e), CopyOrEmpty(e.name);
    var k := |s| - |name| - 1;
    assert s[k + 1..] == name;
    forall i | k < i < |s| ensures s[i] != '.' { assert s[i] == name[i - k - 1]; }
    assert e.table.Some? ==> s[k] == '.';
    assert RFind(s, '.') <= k;
  }

  lemma ByNameFolds(ix: Index, s: string, t: string)
    requires Lower(s) == Lower(t)
    ensures ByName(ix, s) == ByName(ix, t)
    ensures '.' in s <==> '.' in t
  {
    LowerKeepsDots(s);
    LowerKeepsDots(t);
  }

  /** A column is not treated as the thing it is; names with dots carry no promise. */
  ghost predicate Mishandled(ix: Index, c: ColumnClassification, origin: Origin) {
    match origin
    case FromColumn(name) => '.' !in name && c != ByName(ix, name)
    case RowCount => c != NOT_PII
    case WholeRow => true
    case Elsewhere => true
  }

  /** The index can find something. */
  predicate Maps(ix: Index) {
    exists key :: key in ix && Lower(key) == key
  }

  /**
    Readable off the tree, the catalogue and the index: a list of references of which one is not
    certain or, with something mapped, a list of stars over renamed columns.
   */
  predicate Hazardous(ix: Index, s: Statement, catalogue: Catalogue)
    requires s.SelectStatement?
  {
    var scope, entries := ScopeOf(s, catalogue), Entries(s.selectList);
    || (AllColumnRefs(entries) && exists i :: 0 <= i < |entries| && !Certain(scope, entries[i]))
    || (AllStars(entries) && entries != [] && Renames(scope) && Maps(ix))
  }

  lemma NothingMapped(ix: Index, name: string)
    requires !Maps(ix)
    ensures ByName(ix, name) == NOT_PII
  {
    assert Lower(Lower(name)) == Lower(name);
  }

  /** A certain reference is classified by its column, whatever its qualifier and casing. */
  lemma ReferenceClassified(ix: Index, scope: Scope, e: Expr, origin: Origin)
    requires e.ColumnRef? && Certain(scope, e) && Admits(scope, e, origin)
    ensures !Mishandled(ix, ByName(ix, StripQualifier(Spelled(e))), origin)
  {
    ByNameFolds(ix, CopyOrEmpty(e.name), origin.name);
    if '.' !in origin.name {
      StripOfSpelled(e);
    }
  }

  /**
    Whatever the qualifier, the alias or the casing: unless the statement is hazardous, a column
    of an accounted-for result that comes from a dot-free source name is classified by that name,
    a row count never is PII, and no whole row and nothing of unknown origin is accounted for.
   */
  lemma ClassifiedByLineage(ix: Index, s: Statement, catalogue: Catalogue, origins: seq<Origin>,
                            columns: seq<ColumnInfo>, i: nat)
    requires s.SelectStatement? && !Hazardous(ix, s, catalogue)
    requires Produces(ScopeOf(s, catalogue), Entries(s.selectList), origins, columns)
    requires AnyShape(SelectAnalysis(s), |columns|)
    requires i < |columns|
    ensures !Mishandled(ix, ColumnClass(ix, SelectAnalysis(s), columns, i), origins[i])
  {
    hide ByName, StripQualifier, Certain;
    var a, scope, entries := SelectAnalysis(s), ScopeOf(s, catalogue), Entries(s.selectList);
    ShapesOfSelect(s, |columns|);
    if PositionalShape(a, |columns|) {
      EntryByEntry(scope, entries, origins, columns);
      ColumnsOfRefs(entries);
      ReferenceClassified(ix, scope, entries[i], origins[i]);
    } else if WildcardShape(a) {
      StarOrigins(scope, entries, origins, columns, i);
      if Renames(scope) {
        NothingMapped(ix, origins[i].name);
        NothingMapped(ix, columns[i].name);
      }
    } else {
      EntryByEntry(scope, entries, origins, columns);
      assert entries[i] in entries;
    }
  }

  // ---- The hazard is real: every hazardous statement can be mishandled

  /** Some result the database may give is accounted for and still mishandled. */
  ghost predicate MayMishandle(ix: Index, s: Statement, catalogue: Catalogue)
    requires s.SelectStatement?
  {
    exists origins, columns, i: nat :: MishandledAt(ix, s, catalogue, origins, columns, i)
  }

  ghost predicate MishandledAt(ix: Index, s: Statement, catalogue: Catalogue, origins: seq<Origin>,
                               columns: seq<ColumnInfo>, i: nat)
    requires s.SelectStatement?
  {
    && Produces(ScopeOf(s, catalogue), Entries(s.selectList), origins, columns)
    && i < |columns| == |origins|
    && AnyShape(SelectAnalysis(s), |columns|)
    && Mishandled(ix, ColumnClass(ix, SelectAnalysis(s), columns, i), origins[i])
  }

  lemma {:induction false} LengthBound(names: set<string>) returns (bound: nat)
    ensures forall name :: name in names ==> |name| <= bound
  {
    bound := 0;
    if names != {} {
      var name :| name in names;
      var rest := LengthBound(names - {name});
      bound := if |name| > rest then |name| else rest;
      assert names == (names - {name}) + {name};
    }
  }

  lemma UnmappedName(ix: Index) returns (name: string)
    ensures '.' !in name && ByName(ix, name) == NOT_PII
  {
    var bound := LengthBound(ix.Keys);
    name := seq(bound + 1, _ => 'a');
  }

  /** A star may show an unmapped column under a mapped name. */
  lemma RenamedStarMishandled(ix: Index, s: Statement, catalogue: Catalogue)
    requires s.SelectStatement? && Renames(ScopeOf(s, catalogue)) && Maps(ix)
    requires Entries(s.selectList) != [] && AllStars(Entries(s.selectList))
    ensures MayMishandle(ix, s, catalogue)
  {
    var key :| key in ix && Lower(key) == key;
    var name := UnmappedName(ix);
    var columns, origins := [ColumnInfo(key, TextType)], [FromColumn(name)];
    ShapesOfSelect(s, 1);
    LastStarProduces(ScopeOf(s, catalogue), Entries(s.selectList), origins, columns);
    assert MishandledAt(ix, s, catalogue, origins, columns, 0);
  }

  /** One admissible origin of a reference, something unknown where it can be. */
  function OriginOf(scope: Scope, e: Expr): Origin
    requires e.ColumnRef?
  {
    if Certain(scope, e) then FromColumn(CopyOrEmpty(e.name)) else Elsewhere
  }

  lemma ReferencesProduce(scope: Scope, entries: seq<Expr>, columns: seq<ColumnInfo>) returns (origins: seq<Origin>)
    requires AllColumnRefs(entries) && |columns| == |entries|
    ensures |origins| == |entries| && Produces(scope, entries, origins, columns)
    ensures forall i :: 0 <= i < |entries| && !Certain(scope, entries[i]) ==> origins[i] == Elsewhere
  {
    hide Produces, Certain;
    forall i | 0 <= i < |entries| ensures entries[i].ColumnRef? { assert entries[i] in entries; }
    origins := seq(|entries|, i requires 0 <= i < |entries| => OriginOf(scope, entries[i]));
    EntryByEntry(scope, entries, origins, columns);
  }

  lemma ReferenceMishandled(ix: Index, s: Statement, catalogue: Catalogue)
    requires s.SelectStatement? && Hazardous(ix, s, catalogue) && AllColumnRefs(Entries(s.selectList))
    ensures MayMishandle(ix, s, catalogue)
  {
    hide Produces, Certain, ColumnClass, SelectAnalysis, ScopeOf;
    var scope, entries := ScopeOf(s, catalogue), Entries(s.selectList);
    var columns := seq(|entries|, _ => ColumnInfo("", TextType));
    var origins := ReferencesProduce(scope, entries, columns);
    ShapesOfSelect(s, |entries|);
    var i :| 0 <= i < |entries| && !Certain(scope, entries[i]);
    assert origins[i] == Elsewhere;
    assert MishandledAt(ix, s, catalogue, origins, columns, i);
  }

  /** The condition is exact: some result is mishandled if and only if the statement is hazardous. */
  lemma MishandledExactly(ix: Index, s: Statement, catalogue: Catalogue)
    requires s.SelectStatement?
    ensures MayMishandle(ix, s, catalogue) <==> Hazardous(ix, s, catalogue)
  {
    hide Produces, AnyShape, ColumnClass;
    if Hazardous(ix, s, catalogue) {
      if AllColumnRefs(Entries(s.selectList)) {
        ReferenceMishandled(ix, s, catalogue);
      } else {
        RenamedStarMishandled(ix, s, catalogue);
      }
    } else {
      forall origins, columns, i: nat ensures !MishandledAt(ix, s, catalogue, origins, columns, i) {
        if Produces(ScopeOf(s, catalogue), Entries(s.selectList), origins, columns) && i < |columns|
           && AnyShape(SelectAnalysis(s), |columns|) {
          ClassifiedByLineage(ix, s, catalogue, origins, columns, i);
        }
      }
    }
  }
}
