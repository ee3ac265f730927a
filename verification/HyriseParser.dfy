/**
  The parser adapter: the third-party AST, with every nullable pointer an Option, and its
  translation into port-level facts.  The translating methods fill an out-parameter field
  by field, as the source does; each is tied to a function of the tree alone.
 */
module HyriseParser {
  import opened Text
  import opened SqlModel

  // ---- AST

  datatype TableRef =
    | NameRef(schema: Option<string>, name: Option<string>, alias: Option<TableAlias>)
    | JoinRef(join: Option<JoinDefinition>)
    | CrossProductRef(list: Nullable<Option<TableRef>>)
    | SubqueryRef

  /** AS name (column, ...): the adapter never looks at it. */
  datatype TableAlias = TableAlias(name: Option<string>, columns: Nullable<Option<string>>)

  datatype JoinDefinition = JoinDefinition(left: Option<TableRef>, right: Option<TableRef>)

  datatype Expr =
    | Star(starTable: Option<string>)
    | ColumnRef(table: Option<string>, name: Option<string>)
    | FunctionRef(function_: Option<string>, distinct: bool, windowed: bool, args: Nullable<Option<Expr>>)
    | IntLiteral(ival: int)
    | FloatLiteral(fval: real)
    | OtherExpr

  /** A nullable vector of which only the number of entries is ever looked at. */
  type NullableCount = Option<nat>

  datatype Statement =
    | SelectStatement(from: Option<TableRef>, selectList: Nullable<Option<Expr>>, grouped: bool,
                      withDescriptions: NullableCount, setOperations: NullableCount)
    | InsertStatement(schema: Option<string>, table: Option<string>, columns: Nullable<Option<string>>,
                      fromSelect: bool, values: Nullable<Option<Expr>>)
    | UpdateStatement(target: Option<TableRef>, updates: Nullable<Option<Option<string>>>)
    | DeleteStatement(schema: Option<string>, table: Option<string>)
    | CreateStatement(schema: Option<string>, table: Option<string>, isTable: bool)
    | DropStatement(schema: Option<string>, table: Option<string>, isTable: bool)
    | AlterStatement(schema: Option<string>, table: Option<string>)
    | OtherStatement

  /** What the third-party parser hands back; its statement list may hold null pointers. */
  datatype ParserOutput = ParserOutput(valid: bool, statements: seq<Option<Statement>>)

  function CopyOrEmpty(s: Option<string>): string {
    if s.Some? then s.value else ""
  }

  // ---- FROM trees

  datatype Leaf = Named(schema: string, name: string, alias: Option<TableAlias>) | Subquery

  /** The leaves of a FROM tree from left to right. */
  function Leaves(ref: Option<TableRef>): seq<Leaf>
    decreases ref
  {
    match ref
    case None => []
    case Some(NameRef(schema, name, alias)) => [Named(CopyOrEmpty(schema), CopyOrEmpty(name), alias)]
    case Some(JoinRef(None)) => []
    case Some(JoinRef(Some(JoinDefinition(left, right)))) => Leaves(left) + Leaves(right)
    case Some(CrossProductRef(Null)) => []
    case Some(CrossProductRef(Listed(list))) => LeavesOfAll(list)
    case Some(SubqueryRef) => [Subquery]
  }

  function LeavesOfAll(list: seq<Option<TableRef>>): seq<Leaf>
    decreases list
  {
    if list == [] then [] else LeavesOfAll(list[..|list| - 1]) + Leaves(list[|list| - 1])
  }

  const NOTE_FROM_SUBQUERY := "subquery in FROM"
  const NOTE_WITH_CTE := "WITH/CTE"
  const NOTE_SET_OPERATION := "set operation (UNION/INTERSECT/EXCEPT)"
  const NOTE_INSERT_WITHOUT_COLUMNS := "INSERT without column list"
  const NOTE_NON_TABLE_CREATE := "non-table CREATE"
  const NOTE_NON_TABLE_DROP := "non-table DROP"

  function NamedTables(leaves: seq<Leaf>): seq<TableName> {
    if leaves == [] then []
    else
      var rest := NamedTables(leaves[..|leaves| - 1]);
      match leaves[|leaves| - 1]
      case Named(schema, name, _) => rest + [TableName(schema, name)]
      case Subquery => rest
  }

  function SubqueryNotes(leaves: seq<Leaf>): seq<string> {
    if leaves == [] then []
    else
      var rest := SubqueryNotes(leaves[..|leaves| - 1]);
      if leaves[|leaves| - 1].Subquery? then rest + [NOTE_FROM_SUBQUERY] else rest
  }

  lemma {:induction false} TablesOfConcat(a: seq<Leaf>, b: seq<Leaf>)
    ensures NamedTables(a + b) == NamedTables(a) + NamedTables(b)
    ensures SubqueryNotes(a + b) == SubqueryNotes(a) + SubqueryNotes(b)
  {
    if b == [] {
      assert a + b == a;
    } else {
      assert (a + b)[..|a + b| - 1] == a + b[..|b| - 1];
      TablesOfConcat(a, b[..|b| - 1]);
    }
  }

  /** Reporting a then b onto what is already there is reporting a + b onto it. */
  lemma ReportedInTurn(tables: seq<TableName>, notes: seq<string>, a: seq<Leaf>, b: seq<Leaf>)
    ensures tables + NamedTables(a) + NamedTables(b) == tables + NamedTables(a + b)
    ensures notes + SubqueryNotes(a) + SubqueryNotes(b) == notes + SubqueryNotes(a + b)
  {
    TablesOfConcat(a, b);
  }

  /** Every named leaf is reported, nothing else is; a note appears exactly when some leaf is a subquery. */
  lemma {:induction false} LeafReports(leaves: seq<Leaf>)
    ensures forall t :: t in NamedTables(leaves) <==>
      exists leaf :: leaf in leaves && leaf.Named? && TableName(leaf.schema, leaf.name) == t
    ensures SubqueryNotes(leaves) == [] <==> Subquery !in leaves
  {
    if leaves != [] {
      LeafReports(leaves[..|leaves| - 1]);
      assert leaves == leaves[..|leaves| - 1] + [leaves[|leaves| - 1]];
    }
  }

  function TableOfLeaf(leaf: Leaf): Option<TableName> {
    if leaf.Named? then Some(TableName(leaf.schema, leaf.name)) else None
  }

  /** The reported tables are those of the named leaves, one each, in order. */
  lemma {:induction false} NamedTablesPicked(leaves: seq<Leaf>)
    ensures Picks(leaves, TableOfLeaf, NamedTables(leaves))
  {
    hide Picks;
    if leaves == [] {
      PicksNothing(TableOfLeaf);
    } else {
      var front, last := leaves[..|leaves| - 1], leaves[|leaves| - 1];
      NamedTablesPicked(front);
      PicksSnoc(front, TableOfLeaf, NamedTables(front), last);
      assert front + [last] == leaves;
      assert NamedTables(leaves) == NamedTables(front) + if last.Named? then [TableOfLeaf(last).value] else [];
    }
  }

  // ---- Select lists

  /** The canonical COUNT(*): name COUNT in any casing, no DISTINCT, no window, the one argument a star. */
  predicate IsCountStar(e: Expr) {
    && e.FunctionRef?
    && Lower(CopyOrEmpty(e.function_)) == "count"
    && !e.distinct && !e.windowed
    && e.args.Listed? && |e.args.items| == 1
    && e.args.items[0].Some? && e.args.items[0].value.Star?
  }

  /** c is the lower-case letter, or its capital. */
  predicate Letter(c: char, lower: char) {
    c == lower || c as int + 32 == lower as int
  }

  /** COUNT(*) or COUNT(t.*), in any casing: five letters, one star, nothing more. */
  predicate CountsRows(e: Expr) {
    match e
    case FunctionRef(Some(name), false, false, Listed(args)) =>
      && |name| == 5 && Letter(name[0], 'c') && Letter(name[1], 'o') && Letter(name[2], 'u')
      && Letter(name[3], 'n') && Letter(name[4], 't')
      && |args| == 1 && args[0].Some? && args[0].value.Star?
    case _ => false
  }

  /** The adapter's test finds exactly that form. */
  lemma CountStarForm(e: Expr)
    ensures IsCountStar(e) <==> CountsRows(e)
    ensures CountsRows(e) ==> e.FunctionRef?
  {
    if e.FunctionRef? && e.function_.Some? && |e.function_.value| == 5 {
      var name := e.function_.value;
      var lower := Lower(name);
      assert lower == [lower[0], lower[1], lower[2], lower[3], lower[4]];
      forall i | 0 <= i < 5 ensures lower[i] == "count"[i] <==> Letter(name[i], "count"[i]) {}
    }
  }

  function NonNull<T>(list: seq<Option<T>>): seq<T> {
    if list == [] then []
    else
      var rest := NonNull(list[..|list| - 1]);
      match list[|list| - 1]
      case Some(x) => rest + [x]
      case None => rest
  }

  function Pointee<T>(x: Option<T>): Option<T> { x }

  /** The non-null elements, in order. */
  lemma {:induction false} NonNullPicked<T>(list: seq<Option<T>>)
    ensures Picks(list, Pointee, NonNull(list))
  {
    hide Picks;
    if list == [] {
      PicksNothing<Option<T>, T>(Pointee);
    } else {
      var front, last := list[..|list| - 1], list[|list| - 1];
      NonNullPicked(front);
      PicksSnoc(front, Pointee, NonNull(front), last);
      assert front + [last] == list;
      assert NonNull(list) == NonNull(front) + if last.Some? then [last.value] else [];
    }
  }

  function Entries(list: Nullable<Option<Expr>>): seq<Expr> {
    if list.Listed? then NonNull(list.items) else []
  }

  function Spelled(e: Expr): string
    requires e.ColumnRef?
  {
    (if e.table.Some? then e.table.value + "." else "") + CopyOrEmpty(e.name)
  }

  function ColumnsIn(entries: seq<Expr>): seq<string> {
    if entries == [] then []
    else
      var rest := ColumnsIn(entries[..|entries| - 1]);
      var e := entries[|entries| - 1];
      if e.ColumnRef? then rest + [Spelled(e)] else rest
  }

  lemma {:induction false} NoColumnRefs(entries: seq<Expr>)
    ensures ColumnsIn(entries) == [] <==> forall e :: e in entries ==> !e.ColumnRef?
  {
    if entries != [] {
      NoColumnRefs(entries[..|entries| - 1]);
      assert entries == entries[..|entries| - 1] + [entries[|entries| - 1]];
    }
  }

  predicate IsComputed(e: Expr) {
    !e.Star? && !e.ColumnRef? && !IsCountStar(e)
  }

  predicate AnyStar(entries: seq<Expr>) {
    exists e :: e in entries && e.Star?
  }

  predicate AnyCountStar(entries: seq<Expr>) {
    exists e :: e in entries && IsCountStar(e)
  }

  predicate AnyComputed(entries: seq<Expr>) {
    exists e :: e in entries && IsComputed(e)
  }

  lemma NonNullSnoc<T>(list: seq<Option<T>>, i: nat)
    requires i < |list|
    ensures list[i].Some? ==> NonNull(list[..i + 1]) == NonNull(list[..i]) + [list[i].value]
    ensures list[i].None? ==> NonNull(list[..i + 1]) == NonNull(list[..i])
  {
    assert list[..i + 1][..i] == list[..i];
  }

  lemma ColumnsOfSnoc(seen: seq<Expr>, e: Expr)
    ensures ColumnsIn(seen + [e]) == ColumnsIn(seen) + if e.ColumnRef? then [Spelled(e)] else []
  {
    assert (seen + [e])[..|seen|] == seen;
  }

  lemma NothingSeen()
    ensures ColumnsIn([]) == [] && !AnyStar([]) && !AnyCountStar([]) && !AnyComputed([])
  {
  }

  lemma FlagsOfSnoc(seen: seq<Expr>, e: Expr)
    ensures AnyStar(seen + [e]) <==> AnyStar(seen) || e.Star?
    ensures AnyCountStar(seen + [e]) <==> AnyCountStar(seen) || IsCountStar(e)
    ensures AnyComputed(seen + [e]) <==> AnyComputed(seen) || IsComputed(e)
  {
    forall x ensures x in seen + [e] <==> x in seen || x == e {}
  }

  // ---- Statement translation, as a function of the tree

  const EMPTY_STATEMENT: ParsedStatement :=
    ParsedStatement(Unknown, [], [], false, false, false, false, [], NoSource, [], [])

  function ValueKind(e: Expr): InsertValueKind {
    match e
    case IntLiteral(i) => if i > 0 then PositiveInteger else NonPositiveNumber
    case FloatLiteral(f) => if f > 0.0 then PositiveDecimal else NonPositiveNumber
    case _ => UnsupportedValue
  }

  function ValueKinds(values: seq<Option<Expr>>): seq<InsertValueKind> {
    seq(|values|, i requires 0 <= i < |values| =>
      if values[i].None? then UnsupportedValue else ValueKind(values[i].value))
  }

  function Copied(names: seq<Option<string>>): seq<string> {
    seq(|names|, i requires 0 <= i < |names| => CopyOrEmpty(names[i]))
  }

  predicate NonEmpty(c: NullableCount) {
    c.Some? && c.value > 0
  }

  function SelectNotes(s: Statement): seq<string>
    requires s.SelectStatement?
  {
    SubqueryNotes(Leaves(s.from))
    + (if NonEmpty(s.withDescriptions) then [NOTE_WITH_CTE] else [])
    + (if NonEmpty(s.setOperations) then [NOTE_SET_OPERATION] else [])
  }

  function OneTable(schema: Option<string>, table: Option<string>): seq<TableName> {
    if table.Some? then [TableName(CopyOrEmpty(schema), table.value)] else []
  }

  function Translate(s: Statement): ParsedStatement {
    match s
    case SelectStatement(from, selectList, grouped, _, _) =>
      var entries := Entries(selectList);
      EMPTY_STATEMENT.(
        kind := Select,
        tables := NamedTables(Leaves(from)),
        projectionColumns := ColumnsIn(entries),
        hasWildcard := AnyStar(entries),
        hasComputed := AnyComputed(entries),
        hasSafeCountStar := AnyCountStar(entries),
        hasGroupBy := grouped,
        unsupportedFeatures := SelectNotes(s))
    case InsertStatement(schema, table, columns, fromSelect, values) =>
      EMPTY_STATEMENT.(
        kind := Insert,
        tables := [TableName(CopyOrEmpty(schema), CopyOrEmpty(table))],
        affectedColumns := if columns.Listed? then Copied(columns.items) else [],
        insertSource := if fromSelect then SelectSource else ValuesSource,
        insertValueKinds := if !fromSelect && values.Listed? then ValueKinds(values.items) else [],
        unsupportedFeatures := if columns.Null? then [NOTE_INSERT_WITHOUT_COLUMNS] else [])
    case UpdateStatement(target, updates) =>
      EMPTY_STATEMENT.(
        kind := Update,
        tables := NamedTables(Leaves(target)),
        affectedColumns := if updates.Listed? then Copied(NonNull(updates.items)) else [],
        unsupportedFeatures := SubqueryNotes(Leaves(target)))
    case DeleteStatement(schema, table) =>
      EMPTY_STATEMENT.(kind := Delete, tables := [TableName(CopyOrEmpty(schema), CopyOrEmpty(table))])
    case CreateStatement(schema, table, isTable) =>
      EMPTY_STATEMENT.(
        kind := Create,
        tables := OneTable(schema, table),
        unsupportedFeatures := if isTable then [] else [NOTE_NON_TABLE_CREATE])
    case DropStatement(schema, table, isTable) =>
      EMPTY_STATEMENT.(
        kind := Drop,
        tables := OneTable(schema, table),
        unsupportedFeatures := if isTable then [] else [NOTE_NON_TABLE_DROP])
    case AlterStatement(schema, table) =>
      EMPTY_STATEMENT.(kind := Alter, tables := OneTable(schema, table))
    case OtherStatement => EMPTY_STATEMENT
  }

  function SpelledEntry(e: Expr): Option<string> {
    match e
    case ColumnRef(Some(table), name) => Some(table + "." + if name.Some? then name.value else "")
    case ColumnRef(None, name) => Some(if name.Some? then name.value else "")
    case _ => None
  }

  lemma SpelledAsWritten(e: Expr)
    ensures SpelledEntry(e) == if e.ColumnRef? then Some(Spelled(e)) else None
  {
    if e.ColumnRef? && e.table.None? { assert "" + CopyOrEmpty(e.name) == CopyOrEmpty(e.name); }
  }

  /** The projection lists the column references as written, in order. */
  lemma {:induction false} ColumnsPicked(entries: seq<Expr>)
    ensures Picks(entries, SpelledEntry, ColumnsIn(entries))
  {
    hide Picks, Spelled, SpelledEntry;
    if entries == [] {
      PicksNothing(SpelledEntry);
    } else {
      var front, last := entries[..|entries| - 1], entries[|entries| - 1];
      ColumnsPicked(front);
      PicksSnoc(front, SpelledEntry, ColumnsIn(front), last);
      assert front + [last] == entries;
      SpelledAsWritten(last);
      assert ColumnsIn(entries) == ColumnsIn(front) + if last.ColumnRef? then [SpelledEntry(last).value] else [];
    }
  }

  /** What a VALUES entry is taken for. */
  lemma ValueKindExactly(values: seq<Option<Expr>>, i: nat)
    requires i < |values|
    ensures |ValueKinds(values)| == |values|
    ensures var v, kind := values[i], ValueKinds(values)[i];
      && (kind == PositiveInteger <==> exists n :: n > 0 && v == Some(IntLiteral(n)))
      && (kind == PositiveDecimal <==> exists x :: x > 0.0 && v == Some(FloatLiteral(x)))
      && (kind == NonPositiveNumber <==>
            (exists n :: n <= 0 && v == Some(IntLiteral(n))) || exists x :: x <= 0.0 && v == Some(FloatLiteral(x)))
  {
    var v := values[i];
    if v.Some? && v.value.IntLiteral? { assert v == Some(IntLiteral(v.value.ival)); }
    if v.Some? && v.value.FloatLiteral? { assert v == Some(FloatLiteral(v.value.fval)); }
  }

  /** A clause of an UPDATE that is not null names its column, empty when the name is null. */
  function UpdatedColumn(update: Option<Option<string>>): Option<string> {
    match update
    case Some(Some(name)) => Some(name)
    case Some(None) => Some("")
    case None => None
  }

  lemma {:induction false} UpdatedColumnsPicked(updates: seq<Option<Option<string>>>)
    ensures Picks(updates, UpdatedColumn, Copied(NonNull(updates)))
  {
    hide Picks;
    if updates == [] {
      PicksNothing(UpdatedColumn);
      assert Copied(NonNull(updates)) == [];
    } else {
      var front, last := updates[..|updates| - 1], updates[|updates| - 1];
      UpdatedColumnsPicked(front);
      PicksSnoc(front, UpdatedColumn, Copied(NonNull(front)), last);
      assert front + [last] == updates;
      assert Copied(NonNull(updates))
          == Copied(NonNull(front)) + if UpdatedColumn(last).Some? then [UpdatedColumn(last).value] else [];
    }
  }

  function TextOf(s: Option<string>): string {
    match s
    case Some(text) => text
    case None => ""
  }

  /** The kind, the tables and the written columns each statement is reported with. */
  lemma ReportedFacts(s: Statement)
    ensures var p := Translate(s);
      match s
      case SelectStatement(from, list, grouped, _, _) =>
        && p.kind == Select && (p.hasGroupBy <==> grouped)
        && Picks(Leaves(from), TableOfLeaf, p.tables)
        && (list.Listed? ==> exists entries ::
              Picks(list.items, Pointee, entries) && Picks(entries, SpelledEntry, p.projectionColumns))
      case InsertStatement(schema, table, columns, _, _) =>
        && p.kind == Insert && p.tables == [TableName(TextOf(schema), TextOf(table))]
        && (columns.Listed? ==> |p.affectedColumns| == |columns.items|)
        && (columns.Listed? ==>
              forall i :: 0 <= i < |columns.items| ==> p.affectedColumns[i] == TextOf(columns.items[i]))
      case UpdateStatement(target, updates) =>
        && p.kind == Update && Picks(Leaves(target), TableOfLeaf, p.tables)
        && (updates.Listed? ==> Picks(updates.items, UpdatedColumn, p.affectedColumns))
      case DeleteStatement(schema, table) =>
        p.kind == Delete && p.tables == [TableName(TextOf(schema), TextOf(table))]
      case CreateStatement(schema, table, _) =>
        p.kind == Create && p.tables == if table.Some? then [TableName(TextOf(schema), table.value)] else []
      case DropStatement(schema, table, _) =>
        p.kind == Drop && p.tables == if table.Some? then [TableName(TextOf(schema), table.value)] else []
      case AlterStatement(schema, table) =>
        p.kind == Alter && p.tables == if table.Some? then [TableName(TextOf(schema), table.value)] else []
      case OtherStatement => p.kind == Unknown && p.tables == []
  {
    hide Picks, NamedTables, Leaves, ColumnsIn, NonNull;
    match s
    case SelectStatement(from, list, _, _, _) =>
      NamedTablesPicked(Leaves(from));
      if list.Listed? {
        NonNullPicked(list.items);
        ColumnsPicked(NonNull(list.items));
      }
    case UpdateStatement(target, updates) =>
      NamedTablesPicked(Leaves(target));
      if updates.Listed? { UpdatedColumnsPicked(updates.items); }
    case _ =>
  }

  function TranslateAll(statements: seq<Option<Statement>>): seq<ParsedStatement> {
    var live := NonNull(statements);
    seq(|live|, i requires 0 <= i < |live| => Translate(live[i]))
  }

  /** What the adapter reports: an exception of the third-party parser is a plain parse failure. */
  function Report(output: Reply<ParserOutput>): ParseResult {
    match output
    case Threw => ParseResult(false, [])
    case Returned(ParserOutput(false, _)) => ParseResult(false, [])
    case Returned(ParserOutput(true, statements)) => ParseResult(true, TranslateAll(statements))
  }

  // ---- The same translation as the source performs it: into an out-parameter

  class StatementBuilder {
    var kind: StatementType
    var tables: seq<TableName>
    var projectionColumns: seq<string>
    var hasWildcard: bool
    var hasComputed: bool
    var hasSafeCountStar: bool
    var hasGroupBy: bool
    var affectedColumns: seq<string>
    var insertSource: InsertSource
    var insertValueKinds: seq<InsertValueKind>
    var unsupportedFeatures: seq<string>

    function Value(): ParsedStatement
      reads this
    {
      ParsedStatement(kind, tables, projectionColumns, hasWildcard, hasComputed, hasSafeCountStar, hasGroupBy,
                      affectedColumns, insertSource, insertValueKinds, unsupportedFeatures)
    }

    constructor ()
      ensures Value() == EMPTY_STATEMENT
    {
      kind, tables, projectionColumns := Unknown, [], [];
      hasWildcard, hasComputed, hasSafeCountStar, hasGroupBy := false, false, false, false;
      affectedColumns, insertSource, insertValueKinds, unsupportedFeatures := [], NoSource, [], [];
    }

    method CollectTables(ref: Option<TableRef>)
      modifies this`tables, this`unsupportedFeatures
      ensures tables == old(tables) + NamedTables(Leaves(ref))
      ensures unsupportedFeatures == old(unsupportedFeatures) + SubqueryNotes(Leaves(ref))
      decreases ref
    {
      if ref.None? { return; }
      match ref.value {
        case NameRef(schema, name, _) =>
          tables := tables + [TableName(CopyOrEmpty(schema), CopyOrEmpty(name))];
        case JoinRef(join) =>
          if join.Some? {
            CollectTables(join.value.left);
            CollectTables(join.value.right);
            ReportedInTurn(old(tables), old(unsupportedFeatures), Leaves(join.value.left), Leaves(join.value.right));
          }
        case CrossProductRef(list) =>
          if list.Listed? {
            CollectAll(list.items);
          }
        case SubqueryRef =>
          unsupportedFeatures := unsupportedFeatures + [NOTE_FROM_SUBQUERY];
      }
    }

    method CollectAll(list: seq<Option<TableRef>>)
      modifies this`tables, this`unsupportedFeatures
      ensures tables == old(tables) + NamedTables(LeavesOfAll(list))
      ensures unsupportedFeatures == old(unsupportedFeatures) + SubqueryNotes(LeavesOfAll(list))
      decreases list
    {
      for i := 0 to |list|
        invariant tables == old(tables) + NamedTables(LeavesOfAll(list[..i]))
        invariant unsupportedFeatures == old(unsupportedFeatures) + SubqueryNotes(LeavesOfAll(list[..i]))
      {
        CollectTables(list[i]);
        assert list[..i + 1][..i] == list[..i];
        ReportedInTurn(old(tables), old(unsupportedFeatures), LeavesOfAll(list[..i]), Leaves(list[i]));
      }
      assert list[..|list|] == list;
    }

    /** Exactly one arm fires for one select-list entry. */
    method ClassifyEntry(e: Expr)
      modifies this`projectionColumns, this`hasWildcard, this`hasComputed, this`hasSafeCountStar
      ensures projectionColumns == old(projectionColumns) + if e.ColumnRef? then [Spelled(e)] else []
      ensures hasWildcard <==> old(hasWildcard) || e.Star?
      ensures hasComputed <==> old(hasComputed) || IsComputed(e)
      ensures hasSafeCountStar <==> old(hasSafeCountStar) || IsCountStar(e)
      ensures hasSafeCountStar <==> old(hasSafeCountStar) || CountsRows(e)
      ensures hasComputed <==> old(hasComputed) || !(e.Star? || e.ColumnRef? || CountsRows(e))
    {
      hide CountsRows;
      CountStarForm(e);
      if e.Star? {
        hasWildcard := true;
      } else if e.ColumnRef? {
        var column := "";
        if e.table.Some? {
          column := e.table.value + ".";
        }
        column := column + CopyOrEmpty(e.name);
        projectionColumns := projectionColumns + [column];
      } else if IsCountStar(e) {
        hasSafeCountStar := true;
      } else {
        hasComputed := true;
      }
    }

    method ClassifyProjection(selectList: Nullable<Option<Expr>>)
      modifies this`projectionColumns, this`hasWildcard, this`hasComputed, this`hasSafeCountStar
      ensures projectionColumns == old(projectionColumns) + ColumnsIn(Entries(selectList))
      ensures hasWildcard <==> old(hasWildcard) || AnyStar(Entries(selectList))
      ensures hasComputed <==> old(hasComputed) || AnyComputed(Entries(selectList))
      ensures hasSafeCountStar <==> old(hasSafeCountStar) || AnyCountStar(Entries(selectList))
    {
      hide ColumnsIn, Spelled, AnyStar, AnyComputed, AnyCountStar, IsCountStar, IsComputed;
      NothingSeen();
      if selectList.Null? { return; }
      var list := selectList.items;
      for i := 0 to |list|
        invariant projectionColumns == old(projectionColumns) + ColumnsIn(NonNull(list[..i]))
        invariant hasWildcard <==> old(hasWildcard) || AnyStar(NonNull(list[..i]))
        invariant hasComputed <==> old(hasComputed) || AnyComputed(NonNull(list[..i]))
        invariant hasSafeCountStar <==> old(hasSafeCountStar) || AnyCountStar(NonNull(list[..i]))
      {
        hide NonNull;
        NonNullSnoc(list, i);
        if list[i].None? { continue; }
        var e := list[i].value;
        ColumnsOfSnoc(NonNull(list[..i]), e);
        FlagsOfSnoc(NonNull(list[..i]), e);
        ghost var column := if e.ColumnRef? then [Spelled(e)] else [];
        assert projectionColumns + column == old(projectionColumns) + (ColumnsIn(NonNull(list[..i])) + column);
        ClassifyEntry(e);
      }
      assert list[..|list|] == list;
    }

    method TranslateSelect(s: Statement)
      requires s.SelectStatement? && Value() == EMPTY_STATEMENT
      modifies this
      ensures Value() == Translate(s)
    {
      hide NamedTables, SubqueryNotes, ColumnsIn, AnyStar, AnyComputed, AnyCountStar, SelectNotes, Leaves, Entries;
      kind := Select;
      CollectTables(s.from);
      assert tables == NamedTables(Leaves(s.from));
      assert unsupportedFeatures == SubqueryNotes(Leaves(s.from));
      ClassifyProjection(s.selectList);
      hasGroupBy := s.grouped;
      NoteFeatures(s);
    }

    method NoteFeatures(s: Statement)
      requires s.SelectStatement? && unsupportedFeatures == SubqueryNotes(Leaves(s.from))
      modifies this`unsupportedFeatures
      ensures unsupportedFeatures == SelectNotes(s)
    {
      if s.withDescriptions.Some? && s.withDescriptions.value != 0 {
        unsupportedFeatures := unsupportedFeatures + [NOTE_WITH_CTE];
      }
      if s.setOperations.Some? && s.setOperations.value != 0 {
        unsupportedFeatures := unsupportedFeatures + [NOTE_SET_OPERATION];
      }
    }

    method CopyColumns(names: seq<Option<string>>)
      modifies this`affectedColumns
      ensures affectedColumns == old(affectedColumns) + Copied(names)
    {
      for i := 0 to |names|
        invariant affectedColumns == old(affectedColumns) + Copied(names)[..i]
      {
        affectedColumns := affectedColumns + [CopyOrEmpty(names[i])];
      }
    }

    method TranslateInsert(s: Statement)
      requires s.InsertStatement? && Value() == EMPTY_STATEMENT
      modifies this
      ensures Value() == Translate(s)
    {
      kind := Insert;
      tables := tables + [TableName(CopyOrEmpty(s.schema), CopyOrEmpty(s.table))];
      if s.columns.Listed? {
        CopyColumns(s.columns.items);
      } else {
        unsupportedFeatures := unsupportedFeatures + [NOTE_INSERT_WITHOUT_COLUMNS];
      }
      insertSource := if s.fromSelect then SelectSource else ValuesSource;
      if insertSource == ValuesSource && s.values.Listed? {
        CopyValueKinds(s.values.items);
      }
    }

    method CopyValueKinds(values: seq<Option<Expr>>)
      modifies this`insertValueKinds
      ensures insertValueKinds == old(insertValueKinds) + ValueKinds(values)
    {
      for i := 0 to |values|
        invariant insertValueKinds == old(insertValueKinds) + ValueKinds(values)[..i]
      {
        var k := if values[i].None? then UnsupportedValue else ValueKind(values[i].value);
        insertValueKinds := insertValueKinds + [k];
      }
    }

    method TranslateUpdate(s: Statement)
      requires s.UpdateStatement? && Value() == EMPTY_STATEMENT
      modifies this
      ensures Value() == Translate(s)
    {
      kind := Update;
      CollectTables(s.target);
      if s.updates.Listed? {
        var updates := s.updates.items;
        for i := 0 to |updates|
          invariant Value() == Translate(s).(affectedColumns := affectedColumns)
          invariant affectedColumns == Copied(NonNull(updates[..i]))
        {
          assert updates[..i + 1][..i] == updates[..i];
          if updates[i].Some? {
            affectedColumns := affectedColumns + [CopyOrEmpty(updates[i].value)];
          }
        }
        assert updates[..|updates|] == updates;
      }
    }

    method TranslateOther(s: Statement)
      requires !s.SelectStatement? && !s.InsertStatement? && !s.UpdateStatement?
      requires Value() == EMPTY_STATEMENT
      modifies this
      ensures Value() == Translate(s)
    {
      match s
      case DeleteStatement(schema, table) =>
        kind := Delete;
        tables := tables + [TableName(CopyOrEmpty(schema), CopyOrEmpty(table))];
      case CreateStatement(schema, table, isTable) =>
        kind := Create;
        if table.Some? {
          tables := tables + [TableName(CopyOrEmpty(schema), CopyOrEmpty(table))];
        }
        if !isTable {
          unsupportedFeatures := unsupportedFeatures + [NOTE_NON_TABLE_CREATE];
        }
      case DropStatement(schema, table, isTable) =>
        kind := Drop;
        if table.Some? {
          tables := tables + [TableName(CopyOrEmpty(schema), CopyOrEmpty(table))];
        }
        if !isTable {
          unsupportedFeatures := unsupportedFeatures + [NOTE_NON_TABLE_DROP];
        }
      case AlterStatement(schema, table) =>
        kind := Alter;
        if table.Some? {
          tables := tables + [TableName(CopyOrEmpty(schema), CopyOrEmpty(table))];
        }
      case OtherStatement =>
        kind := Unknown;
    }
  }

  method TranslateStatement(s: Statement) returns (p: ParsedStatement)
    ensures p == Translate(s)
  {
    var out := new StatementBuilder();
    match s {
      case SelectStatement(_, _, _, _, _) => out.TranslateSelect(s);
      case InsertStatement(_, _, _, _, _) => out.TranslateInsert(s);
      case UpdateStatement(_, _) => out.TranslateUpdate(s);
      case _ => out.TranslateOther(s);
    }
    p := out.Value();
  }

  /** The adapter's entry point: null statements are skipped, the others keep their order. */
  method Parse(output: Reply<ParserOutput>) returns (r: ParseResult)
    ensures r == Report(output)
  {
    if output.Threw? || !output.value.valid {
      return ParseResult(false, []);
    }
    var list := output.value.statements;
    var statements: seq<ParsedStatement> := [];
    for i := 0 to |list|
      invariant statements == TranslateAll(list[..i])
    {
      assert list[..i + 1][..i] == list[..i];
      if list[i].Some? {
        var p := TranslateStatement(list[i].value);
        statements := statements + [p];
      }
    }
    assert list[..|list|] == list;
    r := ParseResult(true, statements);
  }
}
