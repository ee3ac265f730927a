/** SqlAnalyzer: from a parse result to the one analysis the rest of the pipeline reads. */
module Analyzer {
  import opened Text
  import opened SqlModel

  const BLANKS: string := " \t\n\r\U{0C}\U{0B}"

  predicate IsBlank(sql: string) {
    forall c :: c in sql ==> c in BLANKS
  }

  /** Blank means nothing but tab, line feed, vertical tab, form feed, carriage return and space. */
  lemma BlankBytes(sql: string)
    ensures IsBlank(sql) <==> forall i :: 0 <= i < |sql| ==> 9 <= sql[i] as int <= 13 || sql[i] as int == 32
  {
    forall c: char ensures c in BLANKS <==> 9 <= c as int <= 13 || c as int == 32 {}
    if IsBlank(sql) {
      forall i | 0 <= i < |sql| ensures 9 <= sql[i] as int <= 13 || sql[i] as int == 32 {
        assert sql[i] in sql;
      }
    }
  }

  function QualifiedName(t: TableName): string {
    if t.schema == "" then t.name else t.schema + "." + t.name
  }

  function Names(tables: seq<TableName>): seq<string> {
    seq(|tables|, i requires 0 <= i < |tables| => QualifiedName(tables[i]))
  }

  /** The list with every repetition after the first occurrence dropped. */
  function FirstSeen(names: seq<string>): seq<string> {
    if names == [] then []
    else
      var rest := FirstSeen(names[..|names| - 1]);
      var last := names[|names| - 1];
      if last in rest then rest else rest + [last]
  }

  lemma FirstSeenSnoc(names: seq<string>, i: nat)
    requires i < |names|
    ensures FirstSeen(names[..i + 1]) ==
      if names[i] in FirstSeen(names[..i]) then FirstSeen(names[..i]) else FirstSeen(names[..i]) + [names[i]]
  {
    assert names[..i + 1][..i] == names[..i];
  }

  method NormalizedTables(tables: seq<TableName>) returns (result: seq<string>)
    ensures result == FirstSeen(Names(tables))
    ensures NoDuplicates(result)
    ensures forall x :: x in result <==> exists i :: 0 <= i < |tables| && QualifiedName(tables[i]) == x
  {
    result := [];
    ghost var names := Names(tables);
    for i := 0 to |tables|
      invariant result == FirstSeen(names[..i])
    {
      hide FirstSeen;
      var name := QualifiedName(tables[i]);
      FirstSeenSnoc(names, i);
      if name !in result {
        result := result + [name];
      }
    }
    assert names[..|tables|] == names;
    FirstSeenKeepsNames(names);
    assert forall i :: 0 <= i < |tables| ==> names[i] == QualifiedName(tables[i]);
  }

  predicate NoDuplicates<T(==)>(s: seq<T>) {
    forall i, j :: 0 <= i < j < |s| ==> s[i] != s[j]
  }

  /** k is where x first occurs in s. */
  ghost predicate FirstAt<T>(s: seq<T>, x: T, k: nat) {
    k < |s| && s[k] == x && x !in s[..k]
  }

  /** The reported table list is duplicate-free, names the same tables, and keeps first-seen order. */
  lemma {:induction false} FirstSeenKeepsNames(names: seq<string>)
    ensures NoDuplicates(FirstSeen(names))
    ensures forall x :: x in FirstSeen(names) <==> x in names
    ensures FirstSeen(names) == [] <==> names == []
  {
    if names != [] {
      FirstSeenKeepsNames(names[..|names| - 1]);
      assert names == names[..|names| - 1] + [names[|names| - 1]];
    }
  }

  lemma {:induction false} FirstSeenKeepsOrder(names: seq<string>, i: nat, j: nat, p: nat, q: nat)
    requires i < j < |FirstSeen(names)|
    requires FirstAt(names, FirstSeen(names)[i], p)
    requires FirstAt(names, FirstSeen(names)[j], q)
    ensures p < q
  {
    var front, last := names[..|names| - 1], names[|names| - 1];
    var rest := FirstSeen(front);
    FirstSeenKeepsNames(front);
    FirstSeenKeepsNames(names);
    assert names == front + [last];
    assert rest[i] in front;
    var x := FirstSeen(names)[i];
    assert x == rest[i];
    var k :| 0 <= k < |front| && front[k] == x;
    assert forall m :: 0 <= m < p ==> names[m] == names[..p][m];
    assert p <= k;
    assert front[..p] == names[..p];
    if q < |front| {
      assert front[..q] == names[..q];
      var y := FirstSeen(names)[j];
      assert front[q] == y;
      assert y in rest;
      assert j < |rest|;
      FirstSeenKeepsOrder(front, i, j, p, q);
    }
  }

  /** Table p is the first reported under the name x. */
  ghost predicate FirstNamed(tables: seq<TableName>, x: string, p: nat) {
    && p < |tables| && QualifiedName(tables[p]) == x
    && forall k :: 0 <= k < p ==> QualifiedName(tables[k]) != x
  }

  /** Names are listed in the order in which the parser first reported their tables. */
  lemma TablesKeepOrder(tables: seq<TableName>, i: nat, j: nat, p: nat, q: nat)
    requires i < j < |FirstSeen(Names(tables))|
    requires FirstNamed(tables, FirstSeen(Names(tables))[i], p) && FirstNamed(tables, FirstSeen(Names(tables))[j], q)
    ensures p < q
  {
    hide FirstSeen;
    FirstSeenKeepsOrder(Names(tables), i, j, p, q);
  }

  /** static_cast<int> of a size. */
  function ToInt32(n: nat): int {
    var m := n % 0x1_0000_0000;
    if m >= 0x8000_0000 then m - 0x1_0000_0000 else m
  }

  /** The narrowed count is the one value of int's range that is congruent to the size modulo 2^32. */
  lemma NarrowedCount(n: nat)
    ensures -0x8000_0000 <= ToInt32(n) < 0x8000_0000 && (n - ToInt32(n)) % 0x1_0000_0000 == 0
    ensures n < 0x8000_0000 ==> ToInt32(n) == n
  {
  }

  function AnalysisOf(p: ParseResult): SqlAnalysis {
    var a := UNANALYZED.(statementCount := ToInt32(|p.statements|));
    if !p.success || p.statements == [] then a.(status := ParseError)
    else if |p.statements| > 1 then a.(status := ManyStatements)
    else StatementAnalysis(p.statements[0], FirstSeen(Names(p.statements[0].tables)))
  }

  /** The analysis of a single statement, given the table names it reports. */
  function StatementAnalysis(s: ParsedStatement, tables: seq<string>): SqlAnalysis {
    SqlAnalysis(AnalysisOk, s.kind, ClassOf(s.kind), 1, tables, s.projectionColumns, s.hasWildcard, s.hasComputed,
                s.hasSafeCountStar, s.hasGroupBy, s.affectedColumns, s.insertSource, s.insertValueKinds,
                s.unsupportedFeatures)
  }

  /** Blank SQL never reaches the parser; an exception of the parser escapes. */
  function Analyze(sql: string, parser: Reply<ParseResult>): Reply<SqlAnalysis> {
    if IsBlank(sql) then Returned(UNANALYZED.(status := EmptySql))
    else if parser.Threw? then Threw
    else Returned(AnalysisOf(parser.value))
  }

  method AnalyzeSql(sql: string, parser: Reply<ParseResult>) returns (r: Reply<SqlAnalysis>)
    ensures r == Analyze(sql, parser)
  {
    var analysis := UNANALYZED;
    if IsBlank(sql) {
      return Returned(analysis.(status := EmptySql));
    }
    if parser.Threw? {
      return Threw;
    }
    var parsed := parser.value;
    analysis := analysis.(statementCount := ToInt32(|parsed.statements|));
    if !parsed.success {
      return Returned(analysis.(status := ParseError));
    }
    if parsed.statements == [] {
      return Returned(analysis.(status := ParseError));
    }
    if |parsed.statements| > 1 {
      return Returned(analysis.(status := ManyStatements));
    }
    var statement := parsed.statements[0];
    analysis := analysis.(status := AnalysisOk, kind := statement.kind, class_ := ClassOf(statement.kind));
    var tables := NormalizedTables(statement.tables);
    analysis := analysis.(
      tables := tables,
      projectionColumns := statement.projectionColumns,
      hasWildcard := statement.hasWildcard,
      hasComputed := statement.hasComputed,
      hasSafeCountStar := statement.hasSafeCountStar,
      hasGroupBy := statement.hasGroupBy,
      affectedColumns := statement.affectedColumns,
      insertSource := statement.insertSource,
      insertValueKinds := statement.insertValueKinds,
      unsupportedFeatures := statement.unsupportedFeatures);
    r := Returned(analysis);
  }
}
