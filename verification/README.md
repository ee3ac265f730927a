# SQL proxy service: verified model

A Dafny model of the request pipeline of the SQL proxy service

    analyze -> policy -> execute -> classify -> mask -> audit -> release

and proofs of what the stages guarantee together. `dafny verify dfyconfig.toml` checks everything.

The model has four layers.

- **From parse tree to decision.** `HyriseParser` is the adapter over the third-party AST (every
  nullable pointer is an option), `Analyzer` the analysis, `Policy` the ordered rules R1 to R11.
  `FromTree` says by paths what a FROM tree holds, `Authorization` gives every tree its decision and
  reason, `Admission` says which texts reach the database, in one request and under any
  interleaving.
- **Classification and masking.** `Classifier`, `Maskers`, `ResultMasking`; `Lineage` relates
  select lists to result columns as PostgreSQL reads them, `Exposure` gives the exact condition for
  masking to follow the data, `MaskedText`, `Utf8` and `Unicode` cover encodings, `NonInterference`
  what texts and cell values can influence.
- **Audit trail.** `Audit` holds the record factories, `Calendar`, `Decimal` and `Timestamp` the time
  format, `OrderedMap`, `Json` and `AuditJson` the serializer with a reader for its output,
  `AuditText` the bytes of a line, `JsonlSink` the append-only stream.
- **The service.** `Service` is the orchestrator as an object with its counter and logs,
  `Guarantees` what holds of one request, `Runs` what holds of whole runs, `Threads` what holds of
  any interleaving of any number of threads, `SharedFile` the same threads auditing into one file,
  `Examples` single requests from parse tree to answer.

Conventions. A byte string is a Dafny `string` whose characters stand for bytes. The parser, the
executor, the audit sink and the clock are adversarial: a request carries whatever they answer, and
an answer may be an exception. Code that works step by step is a method proved equal to a function,
and the lemmas are about that function. Machine integers are written out where they matter:
`statement_count` is narrowed to 32 bits and request ids wrap at 2^64.

Where the code and its documentation differ, the model follows the code:

- The classifier's comments say that the names of a star's result columns are the source names
  (`data_classifier.h:36-37`), and the repository's README.md (line 137) that data of undetermined
  source is never taken for safe. Both fail. `SELECT customers FROM customers` names a whole row and
  passes for an unmapped column (`WholeRowLeavesRaw`), so do the value keyword and the whole row of
  `SELECT current_user, c FROM customers c` (`UserAndRowLeaveRaw`), and
  `SELECT * FROM customers AS c(a, b, d, e)` renames the columns in the FROM clause, which the
  adapter does not look at (`RenamedStarLeavesRaw`). `Hazardous` is the exact condition, decidable
  from the parse tree, the column names of the tables and the mappings: a list of references of which
  one need not be read as a stored column, or a star over renamed columns. `MishandledExactly` proves
  it exact for classification, `SoundExactly` for what leaves the service.
- The names the adapter copies from the AST carry no quotes, so `"Email"` and `Email` look alike, while
  the first can name a table of that spelling. `CasingMatters` shows that `Certain` tells the two situations apart.
- The comment on the masker says every non-empty value of a PII column changes. `MaskFixedPoints`
  gives the exact exceptions: `***`, and for addresses `c***@d`.
- The repository's README.md shows audit keys in insertion order. The library's object is an ordered
  map, so the model prints keys in byte order.
- The analyzer's deduplication is not neutral for every parser: an INSERT reported with `orders`
  twice is allowed only because of it. `DeduplicationChangesDecision` says exactly when, and
  `DeduplicationIsHarmless` that the shipped adapter never gets there.
- `format_utc_timestamp` expects non-negative input. `ParsesBackExactly` covers all integers.
- A parser that reports 2^31 statements or more can wrap the count to a negative number, which is
  audited as an internal failure. `InternalFailureExactly` includes that case.

## Model

| member | source | states |
|---|---|---|
| HyriseParser.StatementBuilder.CollectTables | src/parser/hyrise_sql_parser.cpp:87-112 | the walk appends exactly the named leaves of the FROM tree, left to right, and one note per subquery leaf |
| HyriseParser.StatementBuilder.CollectAll | src/parser/hyrise_sql_parser.cpp:101-107 | the same for the children of a cross product |
| HyriseParser.LeafReports | src/parser/hyrise_sql_parser.cpp:87-112 | a table is reported iff it is a named leaf; a note appears iff some leaf is a subquery |
| FromTree.LeavesInOrder | src/parser/hyrise_sql_parser.cpp:87-112 | against paths of child numbers, a join having its left and right side and a cross product its list: the collected leaves are those the paths end in, each once, from left to right |
| FromTree.LeavesOccur | src/parser/hyrise_sql_parser.cpp:87-112 | a leaf is collected iff some path ends in it |
| HyriseParser.CountStarForm | src/parser/hyrise_sql_parser.cpp:60-75 | the count-star test accepts exactly a call named by the five letters of COUNT up to case, not distinct, not windowed, with one star as its argument |
| HyriseParser.StatementBuilder.ClassifyEntry | src/parser/hyrise_sql_parser.cpp:124-142 | exactly one arm fires per select-list entry: star, column reference, that very form of COUNT, or computed |
| HyriseParser.StatementBuilder.ClassifyProjection | src/parser/hyrise_sql_parser.cpp:119-143 | the folded list and flags are those of the non-null entries, whatever the order of entries |
| HyriseParser.StatementBuilder.TranslateSelect | src/parser/hyrise_sql_parser.cpp:145-159 | filling the out-parameter gives the statement facts of the tree |
| HyriseParser.StatementBuilder.TranslateInsert | src/parser/hyrise_sql_parser.cpp:179-203 | the same for INSERT, with null lists, columns and values |
| HyriseParser.StatementBuilder.CopyValueKinds | src/parser/hyrise_sql_parser.cpp:165-202 | one kind per VALUES entry in written order, null entries unsupported |
| HyriseParser.StatementBuilder.TranslateUpdate | src/parser/hyrise_sql_parser.cpp:205-215 | the same for UPDATE, null clauses skipped |
| HyriseParser.StatementBuilder.TranslateOther | src/parser/hyrise_sql_parser.cpp:217-247 | the same for DELETE, CREATE, DROP, ALTER and everything else |
| HyriseParser.TranslateStatement | src/parser/hyrise_sql_parser.cpp:249-280 | every statement kind is translated to its function of the tree |
| HyriseParser.ReportedFacts | src/parser/hyrise_sql_parser.cpp:145-247 | the kind, the tables and the columns each kind of statement is reported with: named leaves, non-null entries and non-null clauses, each once, in order |
| HyriseParser.ValueKindExactly | src/parser/hyrise_sql_parser.cpp:165-177 | which VALUES entries are positive integers, positive decimals, other numbers, or unsupported |
| HyriseParser.Parse | src/parser/hyrise_sql_parser.cpp:293-317 | null statements are skipped, the rest keep order; an exception or an invalid parse is a plain failure |
| Analyzer.NormalizedTables | src/core/sql_analyzer.cpp:27-36 | the loop computes the first-seen list: no name twice, and exactly the qualified names of the tables |
| Analyzer.FirstSeenKeepsNames | src/core/sql_analyzer.cpp:27-36 | the reported list is duplicate-free and has the same set of names |
| Analyzer.FirstSeenKeepsOrder | src/core/sql_analyzer.cpp:27-36 | names appear in the order of their first occurrence |
| Analyzer.TablesKeepOrder | src/core/sql_analyzer.cpp:27-36 | tables are listed in the order in which the parser first reported them |
| Analyzer.BlankBytes | src/core/sql_analyzer.cpp:14-16 | a text is blank iff it holds nothing but bytes 9 to 13 and 32 |
| Analyzer.NarrowedCount | src/core/sql_analyzer.cpp:56-56 | the narrowed statement count is the one 32-bit value congruent to the size, and the size itself below 2^31 |
| Analyzer.AnalyzeSql | src/core/sql_analyzer.cpp:47-90 | the stepwise analysis equals its definition; blank SQL never asks the parser |
| Policy.EvaluatePolicy | src/core/policy_engine.cpp:120-197 | the engine with its table scan equals the ordered rules |
| Policy.Evaluate | src/core/policy_engine.cpp:120-197 | allowed iff no reason; a decision is always finished; a parse error is the only UnparseableSql; only SELECT and INSERT are ever allowed |
| Authorization.SplitUndoesQualify | src/core/sql_analyzer.cpp:20-25 | splitting at the first dot undoes qualification iff the part before the joining dot is dot-free |
| Authorization.SystemTableByParts | src/core/policy_engine.cpp:59-70 | a name is a system table iff its part before the first dot is pg_catalog or information_schema, or the rest starts with pg_, letter by letter up to case |
| Authorization.ScanSeesLeaves | src/core/policy_engine.cpp:173-178 | the scan over the deduplicated list rejects iff some path of the FROM tree ends in a system table |
| Authorization.ReasonOfFacts | src/core/policy_engine.cpp:120-197 | for any parser's facts: the decision with its reason, kind by kind, without the engine's rules |
| Authorization.DecisionTable | src/core/policy_engine.cpp:120-197 | every tree has exactly the reason the rules promise: DML for UPDATE and DELETE, DDL for CREATE, ALTER and DROP, the insert reasons by target and shape, the SELECT reasons by subquery, CTE or set operation, then catalog table, then star next to a column |
| Authorization.SelectDecision | src/core/policy_engine.cpp:165-196 | a SELECT tree is allowed iff no path ends in a subquery or a system table, there is no CTE or set operation, and no star next to a column |
| Authorization.InsertDecision | src/core/policy_engine.cpp:88-160 | an INSERT tree is allowed iff it is the one permitted write, literal by literal |
| Authorization.AllowedExactly | src/core/policy_engine.cpp:120-197 | a request is allowed iff its text is not blank, the parser accepted it with one live statement, and that tree is admissible |
| Authorization.AllowedSelectAvoidsCatalogs | src/core/policy_engine.cpp:165-178 | in an allowed SELECT every path to a leaf ends in a table, and every dot-free one is outside the catalogs and without pg_ prefix in any casing |
| Authorization.DeduplicationChangesDecision | src/core/sql_analyzer.cpp:27-36 | dropping duplicates changes the decision iff the statement is an INSERT naming orders, and only orders, more than once |
| Authorization.DeduplicationIsHarmless | src/core/sql_analyzer.cpp:27-36 | never for a statement the adapter produces |
| Admission.ExecutedExactly | src/core/proxy_service.cpp:142-170 | over the shipped adapter, a request calls the database with its own text iff that was parsed into one admissible tree, and otherwise not at all |
| Admission.RejectedOnTree | src/core/proxy_service.cpp:148-166 | a rejected tree is audited with its own reason and kind, and the database is not called |
| Admission.ExecutorLogExactly | src/core/proxy_service.cpp:142-170 | after any interleaving the executor log is exactly the texts parsed into one admissible tree, once each, in lock order |
| Text.AsciiLower | src/core/data_classifier.cpp:17-24 | the in-place edit adds 32 to the bytes 65 to 90 and changes no other |
| Classifier.BuildIndex | src/core/data_classifier.cpp:59-72 | construction fails iff two keys collide after lowering; otherwise every mapping is indexed and nothing else |
| Classifier.DefaultConfigIsAccepted | src/core/data_classifier.cpp:48-57 | the default mappings do not collide, and their index is the default one |
| Classifier.DefaultMappings | src/core/data_classifier.cpp:48-57 | exactly email, phone and credit_card are mapped, each to its category |
| Classifier.LookupIsScan | src/core/data_classifier.cpp:141-143 | an index lookup equals a case-insensitive search of the mapping list |
| Classifier.IndexIgnoresOrder | src/core/data_classifier.cpp:59-72 | the order of the mappings is irrelevant |
| Classifier.ClassifyColumns | src/core/data_classifier.cpp:74-147 | the overwriting loop equals the pointwise classification |
| Classifier.ClassificationConsistent | src/core/data_classifier.cpp:74-147 | one entry per column, a category iff PII, fully attributed iff no column is unattributed |
| Classifier.OnlySelectsAttributed | src/core/data_classifier.cpp:81-91 | nothing but an analyzed SELECT has attributed columns |
| Classifier.ClassifyFoldsCase | src/core/data_classifier.cpp:131-144 | changing the case of projected or result names changes nothing |
| Lineage.ShapesExclude | src/core/data_classifier.cpp:93-121 | the three shapes are mutually exclusive for every analysis |
| Lineage.ShapesOfSelect | src/core/data_classifier.cpp:98-121 | what each shape means for the non-null select-list entries |
| Lineage.AttributedExactly | src/core/data_classifier.cpp:89-146 | all columns are attributed iff the entries are all columns and as many as the result, all stars, or all of the one form of COUNT(*) ungrouped; otherwise none is |
| Lineage.ClassifiedByLineage | src/core/data_classifier.cpp:131-144 | unless the statement is hazardous, a column is classified by the dot-free name it comes from, whatever qualifier, alias, casing or star; a row count never is PII; no whole row and nothing of unknown origin is attributed |
| Lineage.EntryByEntry | src/core/data_classifier.h:34-35 | without stars, the lineage relation holds iff entry i admits the origin of column i |
| Lineage.MishandledExactly | src/core/data_classifier.h:33-40 | some result the database may give is attributed and yet classified as something it is not, iff the statement is hazardous: some reference need not be read as a stored column, or a star is renamed while something is mapped |
| Maskers.MaskEmailBytes | src/core/pii_masker.cpp:21-40 | the counting scan masks by the single inner at-sign |
| Maskers.MaskPhoneBytes | src/core/pii_masker.cpp:46-57 | the collecting loop keeps the last four of at least seven digits |
| Maskers.MaskCreditCardBytes | src/core/pii_masker.cpp:64-79 | the early-exit loop keeps the last four of at least twelve digits of a card-like value |
| Maskers.MaskBytes | src/core/pii_masker.cpp:81-92 | dispatch by category |
| Maskers.AddressRule | src/core/pii_masker.cpp:21-40 | local@domain keeps its domain and, when ASCII, its first byte |
| Maskers.NotAddressRule | src/core/pii_masker.cpp:21-40 | anything that is not local@domain with one inner at-sign becomes three stars |
| Maskers.NumberRules | src/core/pii_masker.cpp:46-79 | phones keep the last four of at least 7 digits, cards of at least 12 among digits, spaces and hyphens; everything else becomes three stars |
| Maskers.MaskRevealsRetained | src/core/pii_masker.cpp:21-92 | two values mask alike iff their retained parts agree |
| Maskers.MaskFixedPoints | src/core/pii_masker.h:73-78 | a value is returned unchanged iff it is `***` or, as an address, `c***@d` |
| Maskers.MaskSaturates | src/core/pii_masker.h:73-78 | a third application never changes anything |
| Maskers.MaskIdempotentExactly | src/core/pii_masker.h:77-78 | one application is already stable iff nothing is retained or an address starts with an ASCII byte |
| MaskedText.MaskedAddressValidity | src/core/pii_masker.cpp:33-39 | a masked address is valid UTF-8 iff the kept domain is |
| MaskedText.MaskPreservesUtf8 | src/core/pii_masker.cpp:21-92 | valid UTF-8 stays valid in every category |
| Unicode.ValidExactly | src/audit/jsonl_audit_repository.cpp:98-101 | the byte ranges of UTF-8 accept exactly the encodings of sequences of Unicode scalar values |
| ResultMasking.Preflight | src/core/pii_masker.cpp:110-142 | the validation loops find the first violated condition in the documented order |
| ResultMasking.MaskColumn | src/core/pii_masker.cpp:152-160 | one column changes, NULL and empty cells stay |
| ResultMasking.Mask | src/core/pii_masker.cpp:108-163 | the column-major passes equal one application of the rule to every cell, or a refusal |
| ResultMasking.RefusedFor | src/core/pii_masker.cpp:110-142 | the exact condition of each refusal, in the documented order |
| ResultMasking.MaskedExactly | src/core/pii_masker.cpp:108-163 | success iff shapes line up, the classification is consistent and complete; metadata, shape and all other cells are preserved |
| Audit.IsValidTableName | src/core/audit_record.cpp:53-72 | the early-exit loop accepts exactly the identifiers of 1 to 63 ASCII letters, digits, underscores and dollars that start with a letter or underscore |
| Audit.ClassifyTables | src/core/audit_record.cpp:80-99 | no names, the whole list iff it has 1 to 8 names that are all such identifiers, otherwise the mere fact that there were names |
| Audit.NewRecord | src/core/audit_record.cpp:104-211 | a factory throws iff a kind or reason does not go with the outcome; parsing and internal failures carry no tables, all others that judgement of their list |
| Calendar.DateOfDay | src/audit/jsonl_audit_repository.cpp:12-12 | the computed date is a valid Gregorian date with that day number |
| Calendar.DateOrder | src/audit/jsonl_audit_repository.cpp:12-12 | dates are ordered as day numbers, so the date of a day is unique |
| Calendar.CivilCalendar | src/audit/jsonl_audit_repository.cpp:12-12 | the dates are those of the civil month table with leap days, and their numbers those of the closed March-based formula |
| Calendar.DateOfCivilDay | src/audit/jsonl_audit_repository.cpp:12-12 | the date computed for the number of a civil date is that date, for every year |
| Timestamp.ParsesBackExactly | src/audit/jsonl_audit_repository.cpp:8-18 | for every integer: the text parses back to it iff the year has four digits and the milliseconds carry no sign; otherwise it does not parse |
| Timestamp.EpochToYear9999 | src/audit/jsonl_audit_repository.h:14-18 | everything from the epoch to the end of year 9999 is in that range |
| Timestamp.TimestampText | src/audit/jsonl_audit_repository.cpp:8-18 | the bytes of every printable date and time: YYYY-MM-DDTHH:MM:SS.mmmZ, digit by digit |
| Timestamp.TimestampEncodes | src/audit/jsonl_audit_repository.cpp:13-16 | the text of any instant, in or out of that range, is valid UTF-8 |
| Timestamp.FixedWidth | src/audit/jsonl_audit_repository.cpp:13-16 | such texts have exactly 24 bytes |
| Timestamp.SortsChronologically | src/audit/jsonl_audit_repository.h:14-18 | byte order of the texts is time order |
| Json.ObjectReads | src/audit/jsonl_audit_repository.cpp:101-101 | printing and reading an object are inverse, for any strings |
| Json.ObjectIsOneLine | src/audit/jsonl_audit_repository.cpp:101-107 | a printed object contains no newline |
| AuditJson.SerializedFields | src/audit/jsonl_audit_repository.cpp:20-88 | the object holds exactly the fields of its outcome |
| AuditJson.FieldsDecode | src/audit/jsonl_audit_repository.cpp:20-88 | an object with those fields decodes to the record |
| AuditJson.WhitelistedNames | src/core/audit_record.cpp:47-72 | a whitelisted name needs no escape and is valid UTF-8 |
| AuditJson.WellFormedDumps | src/audit/jsonl_audit_repository.cpp:98-101 | a record made by a factory always serializes: every key and string is valid UTF-8 and needs no escape, and the printed keys ascend |
| Decimal.LexLessMeans | src/audit/jsonl_audit_repository.cpp:101-101 | the order of keys is byte order: the first difference decides, and a proper prefix comes first |
| AuditText.SerializedInOrder | src/audit/jsonl_audit_repository.cpp:20-88 | whatever the order of assignments, the object is the record's fields in alphabetical order of their keys |
| AuditText.LineText | src/audit/jsonl_audit_repository.cpp:20-107 | the bytes of the line: braces, quoted literal keys, colons, commas, plain values |
| AuditText.OutcomeWords | src/core/audit_record.cpp:12-28 | the words of the outcomes |
| AuditText.KindWords | src/core/sql_analysis.cpp:23-43 | the words of the statement types and database failures |
| AuditText.ReasonWords | src/core/policy_engine.cpp:9-40 | the words of the reject reasons |
| AuditText.ShapeReasonWords | src/core/policy_engine.cpp:9-40 | the words of the longer reject reasons |
| AuditJson.LineDecodes | src/audit/jsonl_audit_repository.cpp:20-107 | a line decodes to its record, and its time to the instant when representable |
| JsonlSink.JsonlAuditRepository.constructor | src/audit/jsonl_audit_repository.cpp:90-94 | existing contents are kept; a failed open is remembered |
| JsonlSink.JsonlAuditRepository.Append | src/audit/jsonl_audit_repository.cpp:96-117 | write, flush and check as one step on the stream state; a set error bit writes nothing |
| JsonlSink.AppendCases | src/audit/jsonl_audit_repository.cpp:96-117 | a factory-made record is refused iff the stream is dead or breaks, with OpenFailure iff it never opened; a dead stream stays dead |
| JsonlSink.AddedLines | src/audit/jsonl_audit_repository.cpp:107-107 | what successful appends add splits into exactly their lines |
| Service.Summarize | src/core/proxy_service.cpp:92-112 | the counting loop counts the columns of each category |
| Service.ToMaskedResult | src/core/proxy_service.cpp:114-122 | column names in order, duplicates kept, rows as masked |
| Service.ProxyService.FinishRead | src/core/proxy_service.cpp:205-236 | classify, mask, summarize and record, step by step |
| Service.ProxyService.Finish | src/core/proxy_service.cpp:167-203 | database failures and the write path |
| Service.ProxyService.ProcessRequest | src/core/proxy_service.cpp:142-237 | the pipeline, with the executor called iff the request is approved |
| Service.ProxyService.CallAppend | src/core/proxy_service.cpp:239-247 | a throwing sink is a failing sink; every attempt is logged |
| Service.ProxyService.Begin | src/core/proxy_service.cpp:253-266 | one id is taken and the pipeline settles inside its one catch |
| Service.ProxyService.Conclude | src/core/proxy_service.cpp:271-286 | the answer is released or withheld by the append result |
| Service.ProxyService.HandleRequest | src/core/proxy_service.cpp:249-287 | one id, one append attempt, one answer; the counter wraps at 2^64 |
| Guarantees.RecordsComeFromFactories | src/core/proxy_service.cpp:142-237 | every record carries its id and time; parsing and internal failures have no tables, every other one the whole deduplicated list iff that is 1 to 8 plain identifiers, nothing iff it is empty, and otherwise only the mark of an omitted list |
| Guarantees.ApprovedIsSingle | src/core/policy_engine.cpp:120-163 | an approved request is one parsed SELECT or INSERT |
| Guarantees.ReadNeverInvalid | src/core/pii_masker.cpp:116-142 | for a classification of the classifier, InvalidClassification is unreachable and a mismatch means a row of wrong width |
| Guarantees.InternalFailureExactly | src/core/proxy_service.cpp:142-266 | a record is an internal failure iff a port threw where it was called, the statement count wrapped negative, or an execution result broke its contract |
| Guarantees.CountIsCardinality | src/core/proxy_service.cpp:92-112 | a count is the number of columns of that category |
| Guarantees.ReleaseRule | src/core/proxy_service.cpp:268-286 | a success leaves only if its own append returned Ok with a record that matches what left; the executor was called at most once, with the client's text |
| Guarantees.FailuresKeepTheirReason | src/core/proxy_service.cpp:271-284 | the sink's answer changes nothing but whether a success leaves |
| Guarantees.AuditTellsTheTruth | src/core/proxy_service.cpp:142-287 | record and answer name the same outcome; only an empty request is told apart from other rejections |
| Guarantees.OutcomeTable | src/core/proxy_service.cpp:142-266 | the exact details of every record, reject reason included, read off the ports' answers |
| Guarantees.ReadLeavesExactly | src/core/proxy_service.cpp:205-286 | rows leave iff the request is an approved SELECT, its result is well-formed and attributable, and its record was persisted |
| Guarantees.MaskedByLineage | src/core/proxy_service.cpp:205-236 | in every released result of a statement that is not hazardous, a column coming from a mapped dot-free name is masked with its category, an unmapped one and a row count are untouched, and no whole row and nothing of unknown origin leaves |
| Exposure.SoundExactly | src/core/proxy_service.cpp:205-236 | for every text and parse: whatever the other ports answer, each cell that leaves is treated as its origin demands, iff the request is not an approved hazardous SELECT |
| NonInterference.RecordIgnoresCells | src/core/proxy_service.cpp:205-236 | two requests with equal analysis and time whose executor replies differ in cell values and error text only get equal records and the same outcome, whatever their texts |
| NonInterference.ClientLearnsRetainedPartsOnly | src/core/pii_masker.cpp:21-92 | two such released results look alike iff non-PII cells are equal and PII cells agree on NULL, emptiness and retained part |
| NonInterference.FileIgnoresCells | src/audit/jsonl_audit_repository.cpp:20-117 | two runs whose calls are alike one by one, under the same operating system, leave byte for byte the same audit file, the same records and the same outcomes |
| NonInterference.SharedFileIgnoresCells | src/audit/jsonl_audit_repository.cpp:20-117 | the same for threads, however differently the two systems are scheduled |
| Runs.ServeAll | src/core/proxy_service.cpp:249-287 | the service object fed request by request performs the sequential run: ids, calls, attempts, answers |
| Runs.EveryRun | src/core/proxy_service.cpp:142-287 | in every run the i-th request has id i + 1, one attempt, at most one execution, and the release rule holds |
| Runs.ServeCalls | src/core/proxy_service.cpp:249-287 | the service object and the repository object together, call by call, perform the run against the file: stream state, answers, attempts and executor calls |
| Runs.InvariantHolds | src/audit/jsonl_audit_repository.cpp:96-117 | what every step keeps: ids, persisted prefix, file contents |
| Runs.FailureIsSticky | src/audit/jsonl_audit_repository.cpp:103-112 | after a failed append all appends fail and no success leaves; the persisted ids are exactly 1 to k |
| Runs.ServeEntry | src/core/proxy_service.cpp:239-247 | each entry of a run against the file is a handling under the sink's own answer |
| Runs.AuditFileLines | src/audit/jsonl_audit_repository.h:27-38 | old lines, one line per persisted record in order, then at most the line of the next record, unacknowledged |
| Runs.AuditFileReads | src/audit/jsonl_audit_repository.cpp:20-117 | line i of what a run added, acknowledged or not, decodes to record i |
| Examples.ReadIsReleased | src/core/proxy_service.cpp:231-236 | from its parse tree, a SELECT of an aliased email column is released masked, with its record |
| Examples.ReadFollowsLineage | src/core/proxy_service.cpp:205-236 | that request meets every hypothesis of MaskedByLineage, which yields the masked cell |
| Examples.WholeRowLeavesRaw | src/core/data_classifier.cpp:123-144 | a whole-row reference is hazardous, and the text of any row leaves as it is |
| Examples.UserAndRowLeaveRaw | src/core/data_classifier.cpp:123-144 | a value keyword next to a whole row is hazardous, and both leave as they are |
| Examples.RenamedStarLeavesRaw | src/core/data_classifier.cpp:123-144 | a star behind a FROM column list is hazardous, and any rows leave as they are |
| Examples.CasingMatters | src/core/data_classifier.h:14-19 | a reference in other casing is certain, but not when a table of the clause has exactly that spelling |
| Examples.WriteIsReleased | src/core/proxy_service.cpp:187-203 | from its parse tree, the permitted INSERT is released with its record |
| Threads.InvariantAlways | src/core/proxy_service.cpp:249-287 | the locking invariant holds after every interleaving |
| Threads.MutualExclusion | src/core/proxy_service.h:87-90 | no two calls are between lock and unlock, so executor calls never overlap |
| Threads.Serialisable | src/core/proxy_service.h:87-90 | every finished call got the answer of the sequential run in lock order, and with the lock free both port logs are that run's |
| Threads.AttemptIdsInOrder | src/core/proxy_service.cpp:254-269 | append attempts carry ids 1, 2, 3 and so on |
| Threads.HistoryGrows | src/core/proxy_service.cpp:249-251 | the lock order only grows at its end and threads are only added |
| Threads.LaterCallsComeLater | src/core/proxy_service.cpp:249-251 | a call that starts after another has returned has a later place in the lock order |
| SharedFile.InvariantAlways | src/audit/jsonl_audit_repository.cpp:96-117 | after every interleaving the stream is where the sequential run of the answered requests leaves it, with the same log |
| SharedFile.SharedFileReads | src/audit/jsonl_audit_repository.h:27-38 | under any interleaving the file holds the old lines, one per persisted attempt in attempt order, and at most the first failed one; each decodes to its attempt's record |
| SharedFile.SharedFailureIsSticky | src/audit/jsonl_audit_repository.cpp:103-112 | once an append of any thread failed, no call later in the lock order succeeds |
| SharedFile.ReleasedIsOnFile | src/core/proxy_service.cpp:268-286 | every success any thread got has its own record, describing what left, on the line of its place in the lock order |

## Left out

- The SQL grammar, the database driver, the HTTP layer, configuration and logging: foreign code or thin wiring. The AST, execution results and JSON text are modelled as data.
- Table references inside WHERE subqueries: the analyzer does not see them, so table claims cover the FROM tree.
- Error texts (`ParseResult::error`, `SqlAnalysis::error_reason`, `sanitized_error`): nothing downstream reads them.
- Identifiers ending at a NUL byte, and NaN or infinite float literals: names are plain byte strings and float literals are reals.
- `to_string` tables that the audit trail does not print.
- Monotone timestamps: the clock may answer anything, so no order of times is claimed.
- The mutex inside the repository and data still buffered when the stream is destroyed: an append is one atomic step, and a failed one leaves an arbitrary prefix of its line.
- JsonlSink.JsonlAuditRepository.Append: no fsync or crash claim.
- Authorization.AllowedSelectAvoidsCatalogs: names with dots inside their parts are judged by the first dot of the joined name, as the code does, so the clean statement is for dot-free parts.
- Guarantees.MaskedByLineage: source columns whose own name contains a dot carry no promise, since the source does not support such mapping keys.
- Lineage.ClassifiedByLineage: the database is a relation between select lists and origins. What is known of it is a parameter: the column names of each table without reserved words, and the names of functions and types that hold a capital letter. Beyond that the relation errs on the side of hazard: a reference that is not certain may yield anything, and so may a FROM alias with a column list.
- Identifiers over 63 bytes, which PostgreSQL cuts: names are compared whole.
- Lineage.MishandledExactly: a column masked under a category it does not have counts as mishandled, as does one that should have been masked.
