/** DataClassifier: which result columns carry PII, from column names and the analysis alone. */
module Classifier {
  import opened Text
  import opened SqlModel
  import opened Execution

  datatype PiiCategory = Email | Phone | CreditCard

  datatype ColumnDataClass = NotClassifiedAsPii | Pii | Unattributed

  datatype ColumnClassification = ColumnClassification(dataClass: ColumnDataClass, category: Option<PiiCategory>)

  datatype ClassificationResult = ClassificationResult(columns: seq<ColumnClassification>, fullyAttributed: bool)

  type Config = seq<(string, PiiCategory)>
  type Index = map<string, PiiCategory>

  const DEFAULT_CONFIG: Config := [("email", Email), ("phone", Phone), ("credit_card", CreditCard)]

  // ---- Construction: config keys, lowered, into an index

  ghost predicate Collides(config: Config) {
    exists i, j :: 0 <= i < j < |config| && Lower(config[i].0) == Lower(config[j].0)
  }

  /** The first mapping whose key equals the name up to ASCII case. */
  function Scan(config: Config, name: string): Option<PiiCategory> {
    if config == [] then None
    else if Lower(config[0].0) == Lower(name) then Some(config[0].1)
    else Scan(config[1..], name)
  }

  function Lookup(ix: Index, name: string): Option<PiiCategory> {
    if Lower(name) in ix then Some(ix[Lower(name)]) else None
  }

  ghost predicate IndexOf(ix: Index, config: Config) {
    && (forall i :: 0 <= i < |config| ==> Lower(config[i].0) in ix && ix[Lower(config[i].0)] == config[i].1)
    && (forall key :: key in ix ==> exists i :: 0 <= i < |config| && Lower(config[i].0) == key)
  }

  /** Construction is refused exactly when two keys collide after lowering; otherwise every mapping is indexed. */
  method BuildIndex(config: Config) returns (r: Option<Index>)
    ensures r.None? <==> Collides(config)
    ensures r.Some? ==> IndexOf(r.value, config)
  {
    var ix: Index := map[];
    for n := 0 to |config|
      invariant IndexOf(ix, config[..n])
      invariant !Collides(config[..n])
    {
      var key := AsciiLower(config[n].0);
      if key in ix {
        ghost var i :| 0 <= i < n && Lower(config[..n][i].0) == key;
        assert Lower(config[i].0) == Lower(config[n].0);
        return None;
      }
      ghost var before := ix;
      ix := ix[key := config[n].1];
      Extended(before, config[..n], config[n], config[..n + 1], ix);
    }
    assert config[..|config|] == config;
    r := Some(ix);
  }

  lemma Extended(before: Index, front: Config, m: (string, PiiCategory), config: Config, ix: Index)
    requires IndexOf(before, front) && !Collides(front)
    requires Lower(m.0) !in before
    requires config == front + [m] && ix == before[Lower(m.0) := m.1]
    ensures IndexOf(ix, config) && !Collides(config)
  {
    forall key | key in ix ensures exists i :: 0 <= i < |config| && Lower(config[i].0) == key {
      if key == Lower(m.0) {
        assert config[|front|] == m;
      } else {
        var i :| 0 <= i < |front| && Lower(front[i].0) == key;
        assert config[i] == front[i];
      }
    }
    forall i, j | 0 <= i < j < |config| ensures Lower(config[i].0) != Lower(config[j].0) {
      assert config[i] == front[i];
      if j < |front| { assert config[j] == front[j]; }
    }
  }

  /** The index answers every lookup as a case-insensitive search of the mapping list would. */
  lemma {:induction false} LookupIsScan(ix: Index, config: Config, name: string)
    requires IndexOf(ix, config)
    ensures Lookup(ix, name) == Scan(config, name)
  {
    if Lower(name) in ix {
      var i :| 0 <= i < |config| && Lower(config[i].0) == Lower(name);
      ScanFinds(config, name, i, ix[Lower(name)]);
    } else {
      ScanMisses(config, name);
    }
  }

  lemma {:induction false} ScanFinds(config: Config, name: string, i: nat, category: PiiCategory)
    requires i < |config| && Lower(config[i].0) == Lower(name)
    requires forall k :: 0 <= k < |config| && Lower(config[k].0) == Lower(name) ==> config[k].1 == category
    ensures Scan(config, name) == Some(category)
  {
    if Lower(config[0].0) != Lower(name) {
      assert config[i] == config[1..][i - 1];
      ScanFinds(config[1..], name, i - 1, category);
    }
  }

  lemma {:induction false} ScanMisses(config: Config, name: string)
    requires forall k :: 0 <= k < |config| ==> Lower(config[k].0) != Lower(name)
    ensures Scan(config, name) == None
  {
    if config != [] {
      ScanMisses(config[1..], name);
    }
  }

  /** The order of the mappings does not matter. */
  lemma IndexIgnoresOrder(ix: Index, config: Config, ix': Index, config': Config)
    requires IndexOf(ix, config) && IndexOf(ix', config')
    requires forall m :: m in config <==> m in config'
    ensures ix == ix'
  {
    forall key ensures key in ix <==> key in ix' {
      if key in ix {
        var i :| 0 <= i < |config| && Lower(config[i].0) == key;
        assert config[i] in config';
      }
      if key in ix' {
        var i :| 0 <= i < |config'| && Lower(config'[i].0) == key;
        assert config'[i] in config;
      }
    }
    forall key | key in ix ensures ix[key] == ix'[key] {
      var i :| 0 <= i < |config| && Lower(config[i].0) == key;
      assert config[i] in config';
    }
  }

  const DEFAULT_INDEX: Index := map["email" := Email, "phone" := Phone, "credit_card" := CreditCard]

  /** The default configuration is accepted, and this is its index. */
  lemma DefaultConfigIsAccepted()
    ensures !Collides(DEFAULT_CONFIG) && IndexOf(DEFAULT_INDEX, DEFAULT_CONFIG)
  {
    assert Lower("email") == "email" && Lower("phone") == "phone" && Lower("credit_card") == "credit_card";
    var c := DEFAULT_CONFIG;
    assert c[0].0 == "email" && c[1].0 == "phone" && c[2].0 == "credit_card";
  }

  lemma DefaultMappings()
    ensures DEFAULT_INDEX.Keys == {"email", "phone", "credit_card"}
    ensures DEFAULT_INDEX["email"] == Email && DEFAULT_INDEX["phone"] == Phone
    ensures DEFAULT_INDEX["credit_card"] == CreditCard
  {
  }

  // ---- Classification

  function StripQualifier(name: string): string {
    name[RFind(name, '.') + 1..]
  }

  const UNATTRIBUTED := ColumnClassification(Unattributed, None)
  const NOT_PII := ColumnClassification(NotClassifiedAsPii, None)

  function PiiColumn(category: PiiCategory): ColumnClassification {
    ColumnClassification(Pii, Some(category))
  }

  function ByName(ix: Index, source: string): ColumnClassification {
    var found := Lookup(ix, source);
    if found.Some? then PiiColumn(found.value) else NOT_PII
  }

  predicate Analyzable(a: SqlAnalysis) {
    a.status == AnalysisOk && a.class_ == SelectClass
  }

  predicate PositionalShape(a: SqlAnalysis, n: nat) {
    Analyzable(a) && !a.hasWildcard && !a.hasComputed && !a.hasSafeCountStar
    && a.projectionColumns != [] && |a.projectionColumns| == n
  }

  predicate WildcardShape(a: SqlAnalysis) {
    Analyzable(a) && a.hasWildcard && a.projectionColumns == [] && !a.hasComputed && !a.hasSafeCountStar
  }

  predicate CountStarShape(a: SqlAnalysis) {
    Analyzable(a) && a.hasSafeCountStar && !a.hasWildcard && !a.hasComputed && !a.hasGroupBy
    && a.projectionColumns == []
  }

  predicate AnyShape(a: SqlAnalysis, n: nat) {
    PositionalShape(a, n) || WildcardShape(a) || CountStarShape(a)
  }

  function ColumnClass(ix: Index, a: SqlAnalysis, columns: seq<ColumnInfo>, i: nat): ColumnClassification
    requires i < |columns|
  {
    if !AnyShape(a, |columns|) then UNATTRIBUTED
    else if CountStarShape(a) then NOT_PII
    else if PositionalShape(a, |columns|) then ByName(ix, StripQualifier(a.projectionColumns[i]))
    else ByName(ix, columns[i].name)
  }

  function Classify(ix: Index, a: SqlAnalysis, columns: seq<ColumnInfo>): ClassificationResult {
    ClassificationResult(
      seq(|columns|, i requires 0 <= i < |columns| => ColumnClass(ix, a, columns, i)),
      columns == [] || AnyShape(a, |columns|))
  }

  method ClassifyColumns(ix: Index, a: SqlAnalysis, columns: seq<ColumnInfo>) returns (r: ClassificationResult)
    ensures r == Classify(ix, a, columns)
  {
    var result := seq(|columns|, _ => UNATTRIBUTED);
    if columns == [] {
      return ClassificationResult(result, true);
    }
    var positional := PositionalShape(a, |columns|);
    var wildcard := WildcardShape(a);
    var countStar := CountStarShape(a);
    if !positional && !wildcard && !countStar {
      return ClassificationResult(result, false);
    }
    for i := 0 to |columns|
      invariant |result| == |columns|
      invariant forall k :: 0 <= k < i ==> result[k] == ColumnClass(ix, a, columns, k)
    {
      if countStar {
        result := result[i := NOT_PII];
        continue;
      }
      var source := if positional then StripQualifier(a.projectionColumns[i]) else columns[i].name;
      var key := AsciiLower(source);
      result := result[i := if key in ix then PiiColumn(ix[key]) else NOT_PII];
    }
    r := ClassificationResult(result, true);
  }

  lemma ByNameKinds(ix: Index, source: string)
    ensures var c := ByName(ix, source);
      c.dataClass != Unattributed && (c.dataClass == Pii <==> c.category.Some?)
  {
  }

  lemma ColumnClassKinds(ix: Index, a: SqlAnalysis, columns: seq<ColumnInfo>, i: nat)
    requires i < |columns|
    ensures var c := ColumnClass(ix, a, columns, i);
      && (c.dataClass == Pii <==> c.category.Some?)
      && (c.dataClass == Unattributed <==> !AnyShape(a, |columns|))
  {
    hide ByName, StripQualifier;
    ByNameKinds(ix, columns[i].name);
    if PositionalShape(a, |columns|) {
      ByNameKinds(ix, StripQualifier(a.projectionColumns[i]));
    }
  }

  /** The classification is consistent by construction: the masker never finds it invalid. */
  lemma ClassificationConsistent(ix: Index, a: SqlAnalysis, columns: seq<ColumnInfo>)
    ensures var r := Classify(ix, a, columns);
      && |r.columns| == |columns|
      && (forall i :: 0 <= i < |r.columns| ==> (r.columns[i].dataClass == Pii <==> r.columns[i].category.Some?))
      && (r.fullyAttributed <==> forall i :: 0 <= i < |r.columns| ==> r.columns[i].dataClass != Unattributed)
  {
    hide ColumnClass, AnyShape;
    var r := Classify(ix, a, columns);
    forall i | 0 <= i < |columns|
      ensures r.columns[i].dataClass == Pii <==> r.columns[i].category.Some?
      ensures r.columns[i].dataClass == Unattributed <==> !AnyShape(a, |columns|)
    {
      ColumnClassKinds(ix, a, columns, i);
    }
    if columns != [] {
      assert r.columns[0].dataClass == Unattributed <==> !r.fullyAttributed;
    }
  }

  /** Nothing but an analyzed SELECT has attributed columns. */
  lemma OnlySelectsAttributed(ix: Index, a: SqlAnalysis, columns: seq<ColumnInfo>)
    requires a.status != AnalysisOk || a.class_ != SelectClass
    ensures var r := Classify(ix, a, columns);
      && |r.columns| == |columns| && (r.fullyAttributed <==> columns == [])
      && forall i :: 0 <= i < |columns| ==> r.columns[i].dataClass == Unattributed && r.columns[i].category == None
  {
  }

  // ---- Case folding

  lemma {:induction false} LowerKeepsLastDot(s: string)
    ensures RFind(Lower(s), '.') == RFind(s, '.')
  {
    RFindByPositions(Lower(s), s, '.');
  }

  lemma StripFolds(s: string, t: string)
    requires Lower(s) == Lower(t)
    ensures Lower(StripQualifier(s)) == Lower(StripQualifier(t))
  {
    LowerKeepsLastDot(s);
    LowerKeepsLastDot(t);
    var p := RFind(s, '.') + 1;
    assert Lower(s[p..]) == Lower(s)[p..];
    assert Lower(t[p..]) == Lower(t)[p..];
  }

  ghost predicate SameUpToCase(s: seq<string>, t: seq<string>) {
    |s| == |t| && forall i :: 0 <= i < |s| ==> Lower(s[i]) == Lower(t[i])
  }

  /** Changing the case of projected names or of result names changes no classification. */
  lemma ClassifyFoldsCase(ix: Index, a: SqlAnalysis, projection: seq<string>,
                          columns: seq<ColumnInfo>, columns': seq<ColumnInfo>)
    requires SameUpToCase(a.projectionColumns, projection)
    requires |columns| == |columns'|
    requires forall i :: 0 <= i < |columns| ==> Lower(columns[i].name) == Lower(columns'[i].name)
    ensures Classify(ix, a, columns) == Classify(ix, a.(projectionColumns := projection), columns')
  {
    var a' := a.(projectionColumns := projection);
    var r, r' := Classify(ix, a, columns), Classify(ix, a', columns');
    forall i | 0 <= i < |columns| ensures r.columns[i] == r'.columns[i] {
      if PositionalShape(a, |columns|) {
        StripFolds(a.projectionColumns[i], projection[i]);
      }
    }
  }
}
