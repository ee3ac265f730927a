/**
  The bytes of an audit line: compact JSON, members in byte order of their keys, every string
  exactly as it is.  Nothing here goes through the printer.
 */
module AuditText {
  import opened Text
  import opened SqlModel
  import opened Audit
  import opened OrderedMap
  import opened Json
  import opened AuditJson
  import opened Timestamp
  import Decimal

  // ---- The keys in order

  const KEYS: seq<Key> := [
    AffectedRowsKey, CategoryKey, ColumnCountKey, OutcomeKey, PiiCreditCardColumnsKey, PiiEmailColumnsKey,
    PiiPhoneColumnsKey, ReasonKey, ReferencedTablesKey, ReferencedTablesOmittedKey, RequestIdKey, RowCountKey,
    StatementCountKey, StatementTypeKey, TimestampKey]

  const KEY_TEXTS: seq<string> := [
    "affected_rows", "category", "column_count", "outcome", "pii_credit_card_columns", "pii_email_columns",
    "pii_phone_columns", "reason", "referenced_tables", "referenced_tables_omitted", "request_id", "row_count",
    "statement_count", "statement_type", "timestamp"]

  /** Where the text of key i first differs from that of its successor. */
  const DIFFERENCES: seq<nat> := [0, 1, 0, 0, 4, 4, 0, 2, 17, 2, 1, 0, 10, 0]

  lemma KeyTextOf(i: nat)
    requires i < 15
    ensures KeyName(KEYS[i]) == KEY_TEXTS[i]
  {
  }

  lemma DiffersEarly(i: nat)
    requires i < 7
    ensures Decimal.FirstDiffersAt(KEY_TEXTS[i], KEY_TEXTS[i + 1], DIFFERENCES[i])
  {
  }

  lemma DiffersLate(i: nat)
    requires 7 <= i < 14
    ensures Decimal.FirstDiffersAt(KEY_TEXTS[i], KEY_TEXTS[i + 1], DIFFERENCES[i])
  {
  }

  lemma Successor(i: nat)
    requires i + 1 < 15
    ensures Decimal.LexLess(KEY_TEXTS[i], KEY_TEXTS[i + 1])
  {
    hide Decimal.LexLess, Decimal.FirstDiffersAt;
    if i < 7 { DiffersEarly(i); } else { DiffersLate(i); }
    Decimal.LexLessMeans(KEY_TEXTS[i], KEY_TEXTS[i + 1]);
  }

  lemma {:induction false} KeysAscend(i: nat, k: nat)
    requires i < k < 15
    ensures KeyBefore(KEYS[i], KEYS[k])
    decreases k
  {
    hide Decimal.LexLess, KeyName;
    Successor(k - 1);
    KeyTextOf(k - 1);
    KeyTextOf(k);
    if i < k - 1 {
      KeysAscend(i, k - 1);
      Decimal.LexLessTransitive(KeyName(KEYS[i]), KeyName(KEYS[k - 1]), KeyName(KEYS[k]));
    }
  }

  function Place(k: Key): (i: nat)
    ensures i < 15 && KEYS[i] == k
  {
    match k
    case AffectedRowsKey => 0
    case CategoryKey => 1
    case ColumnCountKey => 2
    case OutcomeKey => 3
    case PiiCreditCardColumnsKey => 4
    case PiiEmailColumnsKey => 5
    case PiiPhoneColumnsKey => 6
    case ReasonKey => 7
    case ReferencedTablesKey => 8
    case ReferencedTablesOmittedKey => 9
    case RequestIdKey => 10
    case RowCountKey => 11
    case StatementCountKey => 12
    case StatementTypeKey => 13
    case TimestampKey => 14
  }

  // ---- An object is determined by its fields

  /** The fields of a map among the first n keys, in order. */
  function Sorted(fields: map<Key, Value>, n: nat): Fields
    requires n <= 15
  {
    if n == 0 then []
    else
      var k := KEYS[n - 1];
      Sorted(fields, n - 1) + if k in fields then [(k, fields[k])] else []
  }

  lemma {:induction false} SortedMembers(fields: map<Key, Value>, n: nat)
    requires n <= 15
    ensures forall m :: m in Sorted(fields, n) <==> Place(m.0) < n && m.0 in fields && fields[m.0] == m.1
  {
    if n > 0 {
      SortedMembers(fields, n - 1);
      forall k: Key ensures Place(k) == n - 1 <==> k == KEYS[n - 1] {}
    }
  }

  lemma {:induction false} SortedAscends(fields: map<Key, Value>, n: nat)
    requires n <= 15
    ensures Ascending(Sorted(fields, n), KeyBefore)
  {
    hide KeyBefore;
    if n > 0 {
      var front, j := Sorted(fields, n - 1), Sorted(fields, n);
      SortedAscends(fields, n - 1);
      SortedMembers(fields, n - 1);
      forall i, k | 0 <= i < k < |j| ensures KeyBefore(j[i].0, j[k].0) {
        if k == |front| {
          assert j[i] == front[i] && front[i] in front;
          KeysAscend(Place(front[i].0), n - 1);
        }
      }
    }
  }

  lemma {:induction false} GetFinds(j: Fields, key: Key)
    ensures Get(j, key).Some? ==> (key, Get(j, key).value) in j
    ensures Get(j, key).None? ==> forall m :: m in j ==> m.0 != key
  {
    if j != [] && j[0].0 != key {
      GetFinds(j[1..], key);
      assert j == [j[0]] + j[1..];
    }
  }

  lemma BeforeIsStrict(a: Key, b: Key)
    requires KeyBefore(a, b)
    ensures a != b && !KeyBefore(b, a)
  {
    hide Decimal.LexLess, KeyName;
    LexLessAsymmetric(KeyName(a), KeyName(b));
  }

  /** Ascending lists with the same members are the same. */
  lemma {:induction false} AscendingUnique(a: Fields, b: Fields)
    requires Ascending(a, KeyBefore) && Ascending(b, KeyBefore)
    requires forall m :: m in a <==> m in b
    ensures a == b
  {
    hide KeyBefore;
    if a != [] || b != [] {
      assert a != [] ==> a[0] in b;
      assert b != [] ==> b[0] in a;
      SameHead(a, b);
      SameHead(b, a);
      TailMembers(a);
      TailMembers(b);
      AscendingUnique(a[1..], b[1..]);
      assert a == [a[0]] + a[1..] && b == [b[0]] + b[1..];
    }
  }

  lemma SameHead(a: Fields, b: Fields)
    requires Ascending(a, KeyBefore) && Ascending(b, KeyBefore)
    requires a != [] && b != [] && a[0] in b && b[0] in a
    ensures a[0] == b[0]
  {
    hide KeyBefore;
    var i :| 0 <= i < |b| && b[i] == a[0];
    var k :| 0 <= k < |a| && a[k] == b[0];
    if i > 0 && k > 0 {
      BeforeIsStrict(b[0].0, b[i].0);
    }
  }

  /** The head of an ascending list is not in its tail. */
  lemma TailMembers(a: Fields)
    requires Ascending(a, KeyBefore) && a != []
    ensures Ascending(a[1..], KeyBefore)
    ensures forall m :: m in a[1..] <==> m in a && m != a[0]
  {
    hide KeyBefore;
    forall i | 0 < i < |a| ensures a[i] != a[0] { BeforeIsStrict(a[0].0, a[i].0); }
    assert a == [a[0]] + a[1..];
  }

  /** What the serializer builds is the record's fields in key order. */
  lemma SerializedInOrder(r: AuditRecord)
    requires WellFormed(r)
    ensures Serialize(r) == Sorted(Schema(FormatUtc(r.timestampMs), r), 15)
  {
    hide Serialize, Schema, KeyBefore, FormatUtc, CleanValue;
    var j, fields := Serialize(r), Schema(FormatUtc(r.timestampMs), r);
    WellFormedDumps(r);
    HoldsSchema(r);
    SortedMembers(fields, 15);
    SortedAscends(fields, 15);
    MembersAreFields(j, fields);
    AscendingUnique(j, Sorted(fields, 15));
  }

  lemma HoldsSchema(r: AuditRecord)
    ensures forall key :: Get(Serialize(r), key) == FieldAt(Schema(FormatUtc(r.timestampMs), r), key)
  {
    hide SerializeAt, Schema, FormatUtc;
    SerializedFields(FormatUtc(r.timestampMs), r);
  }

  lemma {:induction false} MemberIsFound(j: Fields, i: nat)
    requires Ascending(j, KeyBefore) && i < |j|
    ensures Get(j, j[i].0) == Some(j[i].1)
  {
    hide KeyBefore;
    if i > 0 {
      BeforeIsStrict(j[0].0, j[i].0);
      TailMembers(j);
      MemberIsFound(j[1..], i - 1);
    }
  }

  lemma MembersAreFields(j: Fields, fields: map<Key, Value>)
    requires Ascending(j, KeyBefore) && forall key :: Get(j, key) == FieldAt(fields, key)
    ensures forall m :: m in j <==> m.0 in fields && fields[m.0] == m.1
  {
    hide KeyBefore;
    forall m ensures m in j <==> m.0 in fields && fields[m.0] == m.1 {
      GetFinds(j, m.0);
      assert Get(j, m.0) == FieldAt(fields, m.0);
      if m in j {
        var i :| 0 <= i < |j| && j[i] == m;
        MemberIsFound(j, i);
      }
    }
  }

  // ---- The text

  function Commas(texts: seq<string>): string {
    if texts == [] then ""
    else if |texts| == 1 then texts[0]
    else texts[0] + "," + Commas(texts[1..])
  }

  function Quoted(s: string): string {
    "\"" + s + "\""
  }

  function ValueText(v: Value): string {
    match v
    case Str(s) => Quoted(s)
    case Num(n) => Decimal.Print(n)
    case Bool(b) => if b then "true" else "false"
    case Strs(items) => "[" + Commas(seq(|items|, i requires 0 <= i < |items| => Quoted(items[i]))) + "]"
  }

  /** One text per field the record has, in the order of the keys. */
  function MemberTexts(fields: map<Key, Value>, n: nat): seq<string>
    requires n <= 15
  {
    if n == 0 then []
    else
      var k := KEYS[n - 1];
      MemberTexts(fields, n - 1) +
      if k in fields then [Quoted(KEY_TEXTS[n - 1]) + ":" + ValueText(fields[k])] else []
  }

  lemma {:induction false} ItemsPrinted(items: seq<string>)
    requires forall i :: 0 <= i < |items| ==> Clean(items[i])
    ensures PrintItems(items) == Commas(seq(|items|, i requires 0 <= i < |items| => Quoted(items[i])))
  {
    hide Clean;
    var quoted := seq(|items|, i requires 0 <= i < |items| => Quoted(items[i]));
    if items != [] {
      CleanQuoted(items[0]);
      ItemsPrinted(items[1..]);
      assert quoted[1..] == seq(|items[1..]|, i requires 0 <= i < |items[1..]| => Quoted(items[1..][i]));
    }
  }

  lemma CleanQuoted(s: string)
    requires Clean(s)
    ensures Quote(s) == Quoted(s)
  {
  }

  lemma ValuePrinted(v: Value)
    requires CleanValue(v)
    ensures PrintValue(v) == ValueText(v)
  {
    hide Clean, Quote, Quoted, PrintItems, Commas;
    match v
    case Str(s) => CleanQuoted(s);
    case Strs(items) => ItemsPrinted(items);
    case _ =>
  }

  /** The text of one member. */
  function MemberText(m: (Key, Value)): string {
    Quoted(KEY_TEXTS[Place(m.0)]) + ":" + ValueText(m.1)
  }

  function Texts(j: Fields): seq<string> {
    seq(|j|, i requires 0 <= i < |j| => MemberText(j[i]))
  }

  lemma MemberPrinted(m: (Key, Value))
    requires CleanValue(m.1)
    ensures PrintMember((KeyName(m.0), m.1)) == MemberText(m)
  {
    hide Clean, Quote, Quoted, PrintValue, ValueText, KeyName, Place;
    KeyIsClean(m.0);
    KeyTextOf(Place(m.0));
    CleanQuoted(KeyName(m.0));
    ValuePrinted(m.1);
  }

  lemma {:induction false} MembersPrinted(j: Fields)
    requires forall m :: m in j ==> CleanValue(m.1)
    ensures PrintMembers(Spell(j)) == Commas(Texts(j))
  {
    hide PrintMember, MemberText, KeyName, CleanValue;
    if j != [] {
      MemberPrinted(j[0]);
      MembersPrinted(j[1..]);
      assert Spell(j)[1..] == Spell(j[1..]) && Texts(j)[1..] == Texts(j[1..]);
    }
  }

  lemma {:induction false} TextsOfSorted(fields: map<Key, Value>, n: nat)
    requires n <= 15
    ensures Texts(Sorted(fields, n)) == MemberTexts(fields, n)
  {
    hide Quoted, ValueText, MemberText;
    if n > 0 {
      TextsOfSorted(fields, n - 1);
      var k := KEYS[n - 1];
      var front := Sorted(fields, n - 1);
      if k in fields {
        TextOfKey(n - 1, fields[k]);
        assert Texts(front + [(k, fields[k])]) == Texts(front) + [MemberText((k, fields[k]))];
      }
    }
  }

  lemma TextOfKey(i: nat, v: Value)
    requires i < 15
    ensures MemberText((KEYS[i], v)) == Quoted(KEY_TEXTS[i]) + ":" + ValueText(v)
  {
    hide Quoted, ValueText;
    assert Place(KEYS[i]) == i;
  }

  /** The line of a record, byte for byte. */
  lemma LineText(r: AuditRecord)
    requires WellFormed(r)
    ensures Line(r) == "{" + Commas(MemberTexts(Schema(FormatUtc(r.timestampMs), r), 15)) + "}"
  {
    hide Serialize, Schema, FormatUtc, PrintMembers, Commas, CleanValue, Sorted, MemberTexts, Texts;
    WellFormedDumps(r);
    SerializedInOrder(r);
    MembersPrinted(Serialize(r));
    TextsOfSorted(Schema(FormatUtc(r.timestampMs), r), 15);
  }

  // ---- The closed vocabularies, spelled out

  lemma KindWords()
    ensures KindName(Select) == "SELECT" && KindName(Insert) == "INSERT" && KindName(Update) == "UPDATE"
    ensures KindName(Delete) == "DELETE" && KindName(Create) == "CREATE" && KindName(Alter) == "ALTER"
    ensures KindName(Drop) == "DROP" && KindName(Unknown) == "UNKNOWN"
    ensures CategoryName(DbConnection) == "CONNECTION_FAILURE" && CategoryName(DbExecution) == "EXECUTION_FAILURE"
  {
  }

  lemma ReasonWords()
    ensures ReasonName(EmptyInput) == "EMPTY_INPUT" && ReasonName(MultipleStatements) == "MULTIPLE_STATEMENTS"
    ensures ReasonName(DdlNotAllowed) == "DDL_NOT_ALLOWED" && ReasonName(DmlNotAllowed) == "DML_NOT_ALLOWED"
    ensures ReasonName(SystemTableAccess) == "SYSTEM_TABLE_ACCESS"
  {
  }

  lemma ShapeReasonWords()
    ensures ReasonName(UnsupportedStatementType) == "UNSUPPORTED_STATEMENT_TYPE"
    ensures ReasonName(UnsupportedSqlFeature) == "UNSUPPORTED_SQL_FEATURE"
    ensures ReasonName(UnattributableProjection) == "UNATTRIBUTABLE_PROJECTION"
    ensures ReasonName(InsertTargetNotAllowed) == "INSERT_TARGET_NOT_ALLOWED"
    ensures ReasonName(UnsupportedInsertShape) == "UNSUPPORTED_INSERT_SHAPE"
  {
  }

  lemma OutcomeWords(d: Details)
    ensures d.SuccessDetails? || d.WriteSuccessDetails? ==> OutcomeName(d) == "SUCCESS"
    ensures d.ParsingFailureDetails? ==> OutcomeName(d) == "PARSING_FAILURE"
    ensures d.PolicyRejectedDetails? ==> OutcomeName(d) == "POLICY_REJECTED"
    ensures d.DatabaseFailureDetails? ==> OutcomeName(d) == "DATABASE_FAILURE"
    ensures d.MaskingRefusedDetails? ==> OutcomeName(d) == "MASKING_REFUSED"
    ensures d.InternalFailureDetails? ==> OutcomeName(d) == "INTERNAL_FAILURE"
  {
  }
}
