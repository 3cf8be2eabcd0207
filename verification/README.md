# goBloodyEll — a Dafny model of the query pipeline

goBloodyEll runs a fixed catalogue of BloodHound Cypher queries against
Neo4j and writes the results as console text, CSV, JSON or an XLSX
workbook. This project models the sequential, deterministic part of that
pipeline as pure Dafny functions over immutable datatypes, and proves
what each part promises:

- **Admission** (`Admission`, `AdmissionExamples`): the schema check that
  decides whether a query can run. It builds lower-cased presence sets
  from the inventory. It then scans the Cypher text left to right for
  `:ident` label tokens and `[:ident` relationship tokens. The first
  absent label, and after that the first absent relationship type,
  becomes the skip reason.
- **Retry and errors** (`Retry`, `Errors`, `Search`): the bounded retry
  loop of both runner copies. Attempts are an abstract outcome stream,
  and cancellation is an oracle per attempt and per back-off sleep. The
  two-tier transient-error classifier is modelled, and so is the
  hand-written ASCII case-insensitive substring search.
- **Runner** (`Runner`): the option clamping of `Run` and its
  slot-indexed writes. A parameter says how many jobs the pool
  dispatched before a fail-fast stop.
- **Result sets** (`ResultSets`): `ColumnIndex`, the `LIMIT` rewrite,
  and the row-collection loop of `ExecCypher` over abstract records.
- **Catalogue** (`Catalog`, `Display`): `HeaderToKey`,
  `WithResolvedKeys`, `FilterCategoryStrict`, the stable `Order`, and
  the display-mode rewriting.
- **Text and reports** (`Format`, `Report`, `Summary`, `CoreCsv`):
  - `OneLine` and `Value`;
  - sheet-name cleaning, display width and the column-width clamp;
  - the CSV record layout and status rule;
  - the XLSX skip-empty rule;
  - the summary-sheet tally;
  - the four core CSV exports.
- **Command line** (`Cli`, `Legacy`): the query-selection pipeline of
  `cmd/goBloodyEll/main.go`, with job construction and output assembly.
  `Legacy` covers the older single-package program at the repository
  root, mainly by relating its copies to the modules above.

Shared helpers:

- `Ascii`: ASCII case mapping and Go's `TrimSpace`.
- `Lex`: Go's byte-wise string order.
- `Decimal`: `%d` rendering.
- `Wrappers`: `Option` and `Result`.

Strings are `seq<char>`. Driver values are the datatype
`ResultSets.Value`, and `%v` rendering and time formatting are function
parameters.

## Model

| member | source | states |
|---|---|---|
| Admission.PresenceFromSummary | internal/schema/skip.go:19-28 | the presence sets hold exactly the lower-cased inventory names: each name's lower-case form is present, and each present entry came from some name |
| Admission.PresenceLookupIgnoresCase | internal/schema/skip.go:19-28 | looking up `Lower(name)` succeeds iff some inventory label (or relationship type) equals `name` up to ASCII case |
| Admission.IdentEnd | internal/schema/skip.go:10-11 | the end of the maximal `[A-Za-z0-9_]` run starting at a position: every character before it is an identifier character and the one at it is not |
| Admission.Scan | internal/schema/skip.go:32 | the leftmost, non-overlapping scan of `FindAllStringSubmatch`: the submatch of each match, resuming where the match ended; its properties are `ScanSound` and `ScanComplete` |
| Admission.ScanSound | internal/schema/skip.go:10-11 | every scanned token is a non-empty identifier run that follows an occurrence of the pattern prefix at or after the start position |
| Admission.ScanComplete | internal/schema/skip.go:10-11 | every match not overlapped by an earlier match contributes its maximal identifier run to the scan: the scanner misses nothing |
| Admission.LabelTokenComplete | internal/schema/skip.go:10 | every `:` immediately followed by an identifier character yields a label token |
| Admission.RelTokenComplete | internal/schema/skip.go:11 | every `[:` immediately followed by an identifier character yields a relationship token |
| Admission.RelTokensAreLabelTokens | internal/schema/skip.go:10-11 | because the label pattern is a bare colon, every relationship token is also a label token |
| Admission.NoColonNoTokens | internal/schema/skip.go:32-42 | text without a colon yields neither label nor relationship tokens |
| Admission.FirstMissing | internal/schema/skip.go:33-41 | the index of the first token whose lower-case form is non-empty and absent from the known set; every earlier token is present or empty; -1 when none is absent |
| Admission.CanRunCypher | internal/schema/skip.go:30-53 | runnable iff every label token and every relationship token is present (lower-cased); the reason is empty iff runnable; a missing label is reported before any relationship type |
| Admission.MissingIffNotAll | internal/schema/skip.go:33-41 | the loop stops at a missing token iff not all tokens are present |
| Admission.LabelReasonIsFirstAbsent | internal/schema/skip.go:32-41 | the verdict is `(false, "missing label: " + t)` where `t` is the first absent label token, in its original spelling |
| Admission.RelReasonIsFirstAbsent | internal/schema/skip.go:42-51 | with every label present, the verdict is `(false, "missing relationship type: " + t)` for the first absent `[:` token |
| Admission.NoColonIsRunnable | internal/schema/skip.go:30-53 | text with no colon is always `(true, "")` |
| Admission.AdmissionMonotone | internal/schema/skip.go:30-53 | enlarging the presence sets never turns a runnable query into a skipped one |
| Admission.TokensNeverEmpty | internal/schema/skip.go:33-37 | no extracted token lower-cases to the empty string, so the `== ""` guards never fire |
| AdmissionExamples.BracketWithVariableIsNotRelToken | internal/schema/skip.go:11 | `[a:GenericAll` has no relationship token (the `[` must touch the colon) but has the label token `GenericAll` |
| AdmissionExamples.PropertyValueIsLabelToken | internal/queries/registry.go:73 | `(c2:Computer {unconstraineddelegation:true})` yields label tokens `Computer` and `true`, so with only `computer` present the query is skipped for `missing label: true` |
| AdmissionExamples.RelationshipTypeCheckedAsLabel | internal/schema/skip.go:10-11 | in `(u:User)-[:MemberOf]->(g)` the relationship type is checked as a label first, so the reason is `missing label: MemberOf` even when `memberof` is a known relationship type |
| Ascii.ToLowerChar | runner.go:157-162 | only `A`..`Z` change, each to its lower-case letter, which maps back under upper-casing; every other character is unchanged |
| Ascii.Lower | internal/queries/queries.go:30 | same length, each character lower-cased by `ToLowerChar` |
| Ascii.LowerIsLowerCase | internal/queries/queries.go:30 | lower-casing leaves no upper-case letter |
| Ascii.TrimSpace | internal/queries/queries.go:30 | the result is the input without its leading and trailing white space and is empty or starts and ends with a non-space |
| Ascii.TrimSpaceOfTrimmed | internal/queries/queries.go:30 | trimming a trimmed string changes nothing |
| Ascii.BlankIffAllSpace | cmd/goBloodyEll/main.go:255-260 | a string trims to empty iff all its characters are white space |
| Ascii.ReplaceChar | internal/queries/queries.go:57 | same length; each occurrence of one character is replaced and every other character kept |
| Search.IndexFold | runner.go:136-153 | -1, or the smallest position where `sub` matches under ASCII case folding; no earlier position matches |
| Search.StringIndexFold | runner.go:136-153 | the nested loop returns the same smallest case-folded match position, or -1 |
| Search.IndexFoldIsIndexOfLower | runner.go:136-153 | case-folded search equals plain search in the lower-cased strings |
| Search.ContainsIffOccurs | internal/neo4jrunner/exec.go:13 | `Contains` holds iff the substring occurs at some position |
| Search.ReplaceFirst | internal/queries/display.go:90 | without an occurrence the string is unchanged; otherwise only the leftmost occurrence is replaced |
| Search.SplitLines | internal/queries/display.go:86 | at least one line, and no line contains a newline |
| Search.JoinSplitLines | internal/queries/display.go:86-94 | joining the split lines with newlines gives back the original text |
| Errors.LooksTransient | internal/neo4jrunner/runner.go:139-154 | a driver error is transient iff its classification is `TransientError`, whatever its message; any other error iff its lower-cased message contains a lower-cased marker |
| Errors.ContainsAny | runner.go:120-129 | true iff some non-empty marker no longer than the string occurs in it case-insensitively; false for an empty list |
| Errors.LegacyLooksTransient | runner.go:101-118 | the same two tiers using `containsAny` |
| Errors.ContainsAnyIsMarkerHit | runner.go:120-134 | for non-empty markers the hand-written search agrees with lower-case-and-contains |
| Errors.LooksTransientAgree | runner.go:101-118 | the two classifiers agree on every error whose message is ASCII (the model folds case in ASCII only) |
| Errors.DriverClassDecides | internal/neo4jrunner/runner.go:141-146 | a driver error with any other classification is never retried, by either copy |
| Retry.Backoffs | internal/neo4jrunner/runner.go:126-127 | the back-off after attempt `k` is `200*(k+1)` ms |
| Retry.Loop | internal/neo4jrunner/runner.go:114-136 | at most `retries+1` attempts; the final attempt decides the result: success returns it, context done returns the context error, a permanent error returns itself, a transient error backs off and retries or returns the last error |
| Retry.LoopStep | internal/neo4jrunner/runner.go:114-136 | one iteration of the loop: the five outcomes of an attempt and the back-off each one records |
| Retry.ExecWithRetries | internal/neo4jrunner/runner.go:112-137 | a negative retry count makes no attempt and returns the zero result; otherwise 1 to `retries+1` attempts |
| Retry.RunCypherWithRetries | runner.go:74-99 | the root copy: the same attempt bound |
| Retry.RunnersAgree | runner.go:74-99 | the two copies return the same result, attempt count and back-offs for every outcome stream |
| Retry.SuccessReturnedAtOnce | internal/neo4jrunner/runner.go:114-118 | after `j` retried transient failures, a success at attempt `j` is returned at once, after `j+1` attempts |
| Retry.PermanentErrorStops | internal/neo4jrunner/runner.go:123-125 | a non-transient error is returned after the attempt that produced it, with no further attempt |
| Retry.ContextErrorWins | internal/neo4jrunner/runner.go:120-132 | when the context is done after a failed attempt or during the back-off, the context error is returned instead of the exec error |
| Retry.ExhaustedReturnsLastError | internal/neo4jrunner/runner.go:126-136 | when every attempt fails transiently, the last error is returned after `retries+1` attempts, with a back-off after each attempt, the last one included |
| Retry.RetryLoop | internal/neo4jrunner/runner.go:112-137 | the imperative loop computes exactly the recursive loop's result, attempt count and back-offs |
| Runner.Clamp | internal/neo4jrunner/runner.go:46-51 | at least one worker and no negative retry count; values already in range and all other options are kept |
| Runner.ClampIdempotent | internal/neo4jrunner/runner.go:46-51 | clamping in-range options changes nothing, so clamping twice is clamping once |
| Runner.JobResult | internal/neo4jrunner/runner.go:84-88 | a stored result is never skipped; it is exactly the pair the retry loop returned: its error with an empty result set, or its result set, which some attempt within the retry bound produced |
| Runner.Run | internal/neo4jrunner/runner.go:39-110 | one result per job; a dispatched job that shares its `Index` with no other dispatched job has its result there; a slot several dispatched jobs name holds one of their results, without saying which; a slot no dispatched job names keeps the zero value |
| Runner.ClaimsOfNamers | internal/neo4jrunner/runner.go:88 | a slot has a claim iff some dispatched job names it, and every claim is the result of such a job |
| Runner.WrittenShared | internal/neo4jrunner/runner.go:88 | after the writes, every slot that some job names holds one of that slot's claims |
| Runner.WrittenSole | internal/neo4jrunner/runner.go:88 | a job whose slot no other written job names leaves its own result there |
| Runner.WrittenSlots | internal/neo4jrunner/runner.go:88 | for one interleaving, the writes in dispatch order: the last job naming a slot determines it, and unnamed slots stay zero |
| Runner.NoStopDispatchesAll | internal/neo4jrunner/runner.go:89-104 | without fail-fast, or without any failing job, every job is dispatched |
| ResultSets.ColumnIndex | internal/neo4jrunner/types.go:8-14 | the map's keys are exactly the distinct column names (none for no columns) |
| ResultSets.ColumnIndexLast | internal/neo4jrunner/types.go:10-12 | every value is a valid position holding its key, and it is the last such position |
| ResultSets.ColumnIndexOfUnique | internal/neo4jrunner/types.go:10-12 | a column name that occurs once maps to its own position |
| ResultSets.RowOf | internal/neo4jrunner/exec.go:29-33 | one value per record key, in key order, each the value `Get` finds for that key |
| ResultSets.RowOfDistinctKeys | internal/neo4jrunner/exec.go:29-33 | with distinct keys the row is exactly the record's values |
| ResultSets.RewriteLimit | internal/neo4jrunner/exec.go:12-15 | the trimmed query, with `"\nLIMIT " + digits` for `limit` appended only when `limit > 0` and the lower-cased text lacks `limit` |
| ResultSets.RewriteLimitMentionsLimit | internal/neo4jrunner/exec.go:12-15 | with a positive limit, the rewritten text always mentions `limit` |
| ResultSets.RewrittenIsTrimmed | internal/neo4jrunner/exec.go:12-15 | the rewritten text of a non-blank query has no surrounding white space |
| ResultSets.RewriteLimitIdempotent | internal/neo4jrunner/exec.go:12-15 | rewriting a rewritten non-blank query changes nothing |
| ResultSets.Taken | internal/neo4jrunner/exec.go:35-37 | the number of records collected: all of them, or exactly `limit` when the limit is positive and reached |
| ResultSets.FirstKeysFound | internal/neo4jrunner/exec.go:26-28 | the columns are the keys of the first record with keys, and every earlier record has none; no such record gives no columns |
| ResultSets.CollectRows | internal/neo4jrunner/exec.go:22-44 | the loop collects the first `Taken` records' rows and columns and reports whether it ran to the end of the stream |
| ResultSets.ExecCypher | internal/neo4jrunner/exec.go:11-51 | a run error or a stream error seen at the end of the stream is returned with no result; otherwise at most `limit` rows, one per collected record, and the first keys as columns |
| ResultSets.RunCypher | main.go:250-283 | the root copy succeeds exactly when `ExecCypher` does; each row is the record's key/value map, and the row count is the same |
| Format.OneLine | internal/format/format.go:13-18 | no line breaks and no leading, trailing or doubled white space; all non-space characters kept, in order; the same words (`Fields`) as the input, so words stay apart |
| Format.FieldsSame | internal/format/format.go:14-16 | two strings with white space at the same positions and equal characters elsewhere have the same fields |
| Format.FieldsOfReplacedSpace | internal/format/format.go:14-15 | turning a white-space character into a blank leaves the fields unchanged |
| Format.FieldsOfJoin | internal/format/format.go:16 | splitting words joined by single spaces gives back the words |
| Format.OneLineIdempotent | internal/format/format.go:13-18 | collapsing twice is collapsing once |
| Format.CellValue | internal/format/format.go:20-40 | nil gives `""`; a string is returned unchanged; integers and floats under a timestamp key become Unix times; other integers are rendered in decimal; everything else goes to `%v` |
| Format.TimestampKeyTwoMarkers | internal/format/format.go:25 | the third marker `lastlogontimestamp` is subsumed by `lastlogon` |
| Format.CellValueIgnoresKeyCase | internal/format/format.go:24 | the column key's case never changes a cell |
| Catalog.Normal | internal/queries/queries.go:30 | the trimmed, lower-cased header is lower case and has no surrounding white space |
| Catalog.HeaderToKey | internal/queries/queries.go:29-60 | the key is lower case, trimmed and without spaces; an aliased header gives its alias key, and any other header gives the trimmed, lower-cased header with each blank turned into `_` |
| Catalog.HostnameIsComputer | internal/queries/queries.go:32-33 | `Hostname` and `computer` both give `computer` |
| Catalog.PasswordSetIsPwdLastSet | internal/queries/queries.go:48-49 | ` Password Set ` gives `pwdlastset` |
| Catalog.HeaderToKeyNormalizes | internal/queries/queries.go:30 | the key depends only on the trimmed, lower-cased header |
| Catalog.HeaderToKeyIdempotent | internal/queries/queries.go:29-60 | a key maps to itself |
| Catalog.WithResolvedKeys | internal/queries/queries.go:21-27 | one key per header, each `HeaderToKey` of its header; every other field unchanged |
| Catalog.WithResolvedKeysIdempotent | internal/queries/queries.go:21-27 | resolving twice is resolving once, and every resolved key is a fixed point |
| Catalog.SelectCategory | internal/queries/queries.go:71-77 | exactly the queries whose category equals the given one up to ASCII case |
| Catalog.SelectCategoryConcat | internal/queries/queries.go:71-77 | selection distributes over concatenation, so input order is kept |
| Catalog.FilterCategoryStrict | internal/queries/queries.go:62-78 | blank or `all` returns the input; a category other than AD, EntraID or INFO is an error naming the trimmed category; otherwise exactly the matching queries |
| Catalog.FilterCategoryIdempotent | internal/queries/queries.go:62-78 | filtering a filtered list again changes nothing |
| Catalog.CatRank | internal/queries/queries.go:119-130 | AD 10, EntraID 20, INFO 30 (any case), otherwise 99 |
| Catalog.Less | internal/queries/queries.go:94-115 | the `SliceStable` comparator, branch for branch; `LessIsKeyOrder` states what it orders by |
| Catalog.LessIsKeyOrder | internal/queries/queries.go:94-115 | the comparator is the strict order of one numeric key: the pinned rank (1 to 4), else 100 plus the category rank |
| Catalog.Insert | internal/queries/queries.go:94-115 | inserting into a sorted list keeps it sorted and adds exactly one element |
| Catalog.InsertStable | internal/queries/queries.go:94-115 | the inserted element goes in front of every element with its key |
| Catalog.Order | internal/queries/queries.go:86-117 | a permutation, sorted by the key, with no inversion under the comparator, and with the input order kept among equal keys |
| Catalog.PinnedFirst | internal/queries/queries.go:87-106 | a pinned query precedes every unpinned query and every query with a larger pin |
| Catalog.CategoryRankOrder | internal/queries/queries.go:108-114 | among unpinned queries a smaller category rank comes first |
| Display.FirstWhere | internal/queries/display.go:87-93 | the first line satisfying the predicate, or -1 when none does |
| Display.FirstReturnLine | internal/queries/display.go:87-93 | the first line whose trimmed, upper-cased form starts with `RETURN `, or -1 |
| Display.RewriteReturn | internal/queries/display.go:86-94 | same lines, except that the first return line has its first `RETURN ` replaced by the hostname projection |
| Display.LowerCaseReturnNotEdited | internal/queries/display.go:88-90 | a lower-case `return` line is found but left unedited, because the replacement is case-sensitive |
| Display.AdjustComputerColumns | internal/queries/display.go:67-98 | unchanged unless the mode is `both`, no header is `hostname` and the text contains ` AS computer`; otherwise `hostname` is prepended with key `computer`, every other key is resolved again from its header, the Cypher is rewritten, and nothing else changes |
| Display.NoReturnLineKeepsCypher | internal/queries/display.go:86-94 | without a return line the rewrite leaves the Cypher text as it was |
| Display.DisplayQuery | internal/queries/display.go:11-61 | the ID is kept; an unhandled query is unchanged; the computer-column queries go through the column adjustment |
| Display.ApplyDisplayModes | internal/queries/display.go:8-65 | same length, same IDs in order, unhandled queries unchanged |
| Display.UserModes | internal/queries/display.go:13-26 | whatever the host mode, mode `upn` gives sheet `All Users (UPN)`, header `upn` and the UPN Cypher; any other mode gives `All Users`, `samaccountname` and the original Cypher |
| Display.HostModes | internal/queries/display.go:28-47 | whatever the user mode, `hostname` gives header `hostname`, `both` gives `hostname`,`fqdn`, and any other mode only resolves the keys |
| Display.DisplayKeepsKeyCount | internal/queries/display.go:26-95 | one key per header is preserved by every branch |
| Report.ReplaceSheetChars | internal/report/report.go:246-247 | no forbidden sheet character remains, and a clean name is unchanged |
| Report.SafeSheetNameAsWritten | internal/report/report.go:241-252 | at most 31 characters, none of them forbidden; a blank name gives `Sheet`; the blank check runs before the forbidden characters are removed |
| Report.EmptySheetNameFromMarks | internal/report/report.go:241-252 | the non-blank name `??` becomes the empty sheet name |
| Report.SafeSheetName | internal/report/report.go:241-252 | 1 to 31 characters, none forbidden; blank gives `Sheet`; otherwise the name as the source cleans it whenever that is non-empty |
| Report.SafeSheetNameKeepsSafe | internal/report/report.go:241-252 | a trimmed, short, clean name is kept as it is |
| Report.DisplayWidth | internal/report/report.go:279-296 | 0 for `""`; otherwise the count of characters other than `\n`, `\r`, `\t`, capped at 201 |
| Report.ComputeDisplayWidth | internal/report/report.go:279-296 | the early-exit loop computes the same width |
| Report.ClampWidth | internal/report/report.go:261-270 | non-positive widths are left unset; others are clamped to [10, 60], and in-range widths kept |
| Report.ClampWidthMonotone | internal/report/report.go:261-270 | clamping is monotone and idempotent |
| Report.CsvStatus | internal/report/report.go:318-324 | `error` whenever there is an error, even for a skipped output; otherwise `skipped` or `ok` |
| Report.CsvKeys | internal/report/report.go:300-310 | strictly sorted, hence duplicate-free, and exactly the union of all result columns |
| Report.CsvHeader | internal/report/report.go:312 | the four fixed fields followed by the sorted keys |
| Report.KeyCell | internal/report/report.go:338-343 | `""` for a key with no column or a column past the row's end |
| Report.CsvRecordsOf | internal/report/report.go:326-346 | one record per row, or one blank record for no rows; each has `4 + len(keys)` fields, leads with id, title, category and status, and holds each key's cell |
| Report.CsvBodyConcat | internal/report/report.go:317-347 | the body is the outputs' records in output order |
| Report.WriteCsv | internal/report/report.go:298-350 | the header first, then at least one record per output, all as wide as the header |
| Report.ErrorBeatsSkipInCsv | internal/report/report.go:318-324 | every record of an output with an error has status `error` |
| Report.SkipSheet | internal/report/report.go:153 | with skip-empty, an output that is skipped, failed or has no rows gets no sheet |
| Report.KeptOutputs | internal/report/report.go:152-155 | with skip-empty, skipped, failed and row-less outputs are dropped and the rest kept; without it, all are kept |
| Report.KeptOutputsConcat | internal/report/report.go:152-155 | filtering distributes over concatenation, so the kept outputs keep their order |
| Report.SheetsFromFails | internal/report/report.go:152-160 | the sheet loop fails exactly at the first kept output whose cleaned name is empty, and succeeds iff there is none |
| Report.SheetsFromNames | internal/report/report.go:152-160 | without an empty cleaned name, the loop creates one sheet per kept output, in output order |
| Report.XlsxSheets | internal/report/report.go:152-160 | with `safeSheetName` as written: the error of the first kept output whose name cleans to the empty string, as `NewSheet` rejects it, and success iff there is no such output |
| Report.IntendedXlsxSheets | internal/report/report.go:152-160 | with the corrected name: name `k` is the cleaned name of kept output `k`, of 1 to 31 allowed characters |
| Report.XlsxSheetsAgree | internal/report/report.go:152-160 | the code as written creates exactly the intended sheets iff no kept name cleans to the empty string |
| Report.MarksOnlyNameFailsWorkbook | internal/report/report.go:156-160 | a single query named `??` makes the workbook fail, where the intended workbook has a sheet `Sheet` |
| Report.NoSheetsIffAllSkipped | internal/report/report.go:233-236 | no sheet is produced iff every output is skipped by the rule, both as written and as intended |
| Summary.StatusOf | internal/report/summary.go:23-36 | exactly one status per output, with precedence skipped, error, empty, ok |
| Summary.CountsPartition | internal/report/summary.go:20-36 | the four counts add up to the number of outputs |
| Summary.Tally | internal/report/summary.go:20-36 | the loop's counters are the four status counts and the total |
| Summary.BodyRows | internal/report/summary.go:37-44 | row `i` carries order `i+1`, the output's ID and its own fields |
| Summary.HeaderRow | internal/report/summary.go:80-86 | cell A1 holds the warning iff some sheet name is blank; the rest of the header is fixed |
| Summary.WriteSummary | internal/report/summary.go:12-89 | the rows, the totals (which partition the total) and the header together |
| Summary.SkippedErrorDisagrees | internal/report/summary.go:25-30 | a skipped output with an error is `skipped` in the summary but `error` in the CSV |
| CoreCsv.LastById | internal/report/core_csv.go:34-37 | none iff no output has the ID; otherwise the last output with it |
| CoreCsv.ById | internal/report/core_csv.go:34-37 | the map's keys are exactly the IDs present, each mapped to its last output |
| CoreCsv.HeadersAndKeys | internal/report/core_csv.go:64-70 | the query's headers and keys, or the result columns for both when the query has no headers |
| CoreCsv.DataRecords | internal/report/core_csv.go:82-94 | one record per row, one field per key, each the key's cell |
| CoreCsv.SingleCsv | internal/report/core_csv.go:52-97 | the header first; then `SKIPPED` and the reason, else `ERROR` and the message, else the data records |
| CoreCsv.SkipBeatsErrorInCoreCsv | internal/report/core_csv.go:73-80 | a skipped output with an error is written as `SKIPPED`, although the main CSV calls it `error` |
| CoreCsv.CoreFileNamesDistinct | internal/report/core_csv.go:24-32 | the four fixed IDs and file names are distinct |
| CoreCsv.CoreExports | internal/report/core_csv.go:15-50 | a blank directory writes nothing; at most four files, all in the trimmed directory |
| CoreCsv.CoreExportsExact | internal/report/core_csv.go:15-50 | a fixed file is written iff its ID is present, and it holds the last such output's records |
| Cli.DropEntra | cmd/goBloodyEll/main.go:139-147 | exactly the queries not in category EntraID (any case) |
| Cli.DropEntraConcat | cmd/goBloodyEll/main.go:139-147 | the filter distributes over concatenation, so the others keep their order |
| Cli.Collect | cmd/goBloodyEll/main.go:134-147 | findings, then INFO queries only if asked; without EntraID no EntraID query remains |
| Cli.FindQueryById | cmd/goBloodyEll/main.go:262-269 | none iff no query has the ID; otherwise the first query with it |
| Cli.Select | cmd/goBloodyEll/main.go:134-166 | a bad category, an unknown ID or an empty selection is fatal; otherwise the ordered filtered list, or exactly the first query with the ID |
| Cli.SelectDrawsFromInputs | cmd/goBloodyEll/main.go:134-164 | every selected query is a finding or a requested INFO query, and no EntraID query is selected unless asked |
| Cli.BuildJobs | cmd/goBloodyEll/main.go:203-206 | job `i` has index `i` and query `i`'s ID, sheet name and Cypher |
| Cli.BuildJobsOwnSlots | cmd/goBloodyEll/main.go:203-206 | job indexes are in range and pairwise distinct |
| Cli.AssembleOutputs | cmd/goBloodyEll/main.go:210-217 | output `i` pairs query `i` with result `i`; its error text is the error's message, or empty |
| Cli.PlainErrorRecorded | cmd/goBloodyEll/main.go:210-217 | a non-driver error's message is the recorded error text |
| Cli.OutputErrorIff | cmd/goBloodyEll/main.go:210-217 | the error text is non-empty iff the result has an error |
| Cli.RunInOrder | cmd/goBloodyEll/main.go:203-208 | dispatched jobs get their own results, and the rest stay zero |
| Cli.RunSelection | cmd/goBloodyEll/main.go:203-217 | one output per selected query; dispatched queries carry their result sets and their errors' `Error()` text, or `""` without an error; the others are empty and error-free |
| Cli.FirstNonEmpty | cmd/goBloodyEll/main.go:255-260 | `a` unless it is blank, then `b`; the root copy at main.go:596-601 is the same code |
| Cli.FirstNonEmptyBlank | cmd/goBloodyEll/main.go:255-260 | the result is blank iff both arguments are |
| Cli.DefaultVerbose | cmd/goBloodyEll/main.go:130-132 | verbose stays on if set, and is switched on iff no output was requested |
| Cli.SomeOutputChosen | cmd/goBloodyEll/main.go:130-132 | after the default, some output is always chosen |
| Legacy.CollectQueries | main.go:233-248 | the root copy selects exactly what `Cli.Collect` selects |
| Legacy.FilterQueriesStrict | main.go:507-523 | blank or `all` is the identity; the root copy fails, and succeeds with the same queries, exactly as `FilterCategoryStrict` does |
| Legacy.FindQueryById | main.go:525-532 | the root copy finds what `Cli.FindQueryById` finds |
| Legacy.LegacyHeaderToKey | main.go:566-588 | a lower-case, trimmed, space-free key: the smaller alias table's key, or the trimmed, lower-cased header with each blank turned into `_` |
| Legacy.LegacyAgreesWithCatalog | main.go:566-588 | the root copy agrees with `HeaderToKey` except on headers only the larger table aliases |
| Legacy.PasswordSetDiffers | main.go:566-588 | ` Password Set ` gives `password_set` at the root but `pwdlastset` in the catalogue |
| Legacy.LegacyHeaderToKeyIdempotent | main.go:566-588 | a root key maps to itself |
| Legacy.ListOrder | main.go:534-540 | a permutation sorted by category, then ID |
| Legacy.ListOrderByCategory | main.go:535-538 | a query with a smaller category is listed first |
| Legacy.KeepIdent | schema.go:132-138 | only identifier characters remain, and an identifier is kept whole |
| Legacy.QuoteIdent | schema.go:130-143 | never empty, only `[A-Za-z0-9_]`, and a non-empty identifier is returned unchanged |
| Legacy.QuoteIdentIdempotent | schema.go:130-143 | quoting twice is quoting once |
| Legacy.CapSample | schema.go:97-101 | at most 41 entries: 40 or fewer keys are kept, otherwise the first 40 and `…` |
| Legacy.CapSampleIdempotent | schema.go:97-101 | capping twice is capping once |
| Legacy.OutputOf | runner.go:40-57 | the output names its query; on failure the error text and no rows, on success the rows and their count |
| Legacy.RunQueriesParallel | runner.go:14-72 | a negative worker count panics; zero workers leave every slot zero; otherwise slot `i` holds query `i`'s retried outcome |
| Legacy.SlotsBelongToQueries | runner.go:24-58 | slot `i` belongs to query `i`; its error text is non-empty iff the retries failed, then with no rows; and the count is the row count, whatever the positive worker count |
| Decimal.ParseNatToString | internal/neo4jrunner/exec.go:14 | the decimal text of the limit reads back as the limit |
| Lex.LexTotal | internal/report/report.go:310 | byte-wise string order is total on distinct strings |
| Lex.SortedKeys | internal/report/report.go:306-310 | a strictly sorted list holding exactly the given strings |

## Left out

- Goroutines, channels, `sync.Once`, `WaitGroup` and `select` in `Run` and `runQueriesParallel` are concurrency. Only the sequential skeleton is modelled. `Runner.Run` takes the dispatched prefix length as a parameter, constrained to what the pool can produce.
- Timers, deadlines and `context` are not modelled directly. Cancellation is a per-attempt and per-sleep oracle in `Retry.Env`, and back-off is an integer number of milliseconds.
- The Neo4j driver is foreign code and is not modelled:
  - sessions, `ExecuteRead`, `tx.Run` and record iteration;
  - schema discovery and `printSchema` / `schema.Print`.

  Records are sequences of key/value pairs, and a run is a function from query text to a record stream with optional errors.
- Writers and entry-point plumbing are I/O:
  - excelize, `encoding/csv`, JSON, `bufio`, `os` files, `fmt` printing;
  - flag parsing and `os.Exit`.

  The model returns the records or values these would receive. Console and text writers (`WriteConsole`, `writeTextToWriter`) and the root `writeCSV` are left out for the same reason.
- XLSX cell positions, fonts, panes and column-width hints are layout only. Of excelize's sheet-name checks only the blank-name error is modelled; its other checks are not part of this model. The model keeps the skip-empty rule, sheet names, widths, and the summary rows and totals.
- `time.Unix(...).Format(RFC3339)` and `%v` are function parameters of `Format.CellValue`, because they depend on the local time zone and on Go's formatting. Float-to-int conversion is modelled as truncation toward zero.
- `Error()` texts of errors are a function parameter (`message`). A driver error's text is not its `message` field, so the two are kept apart. For other errors `Errors.PlainTextIsMessage` states that they coincide.
- Unicode is not modelled:
  - case mapping is ASCII only;
  - `len` and slicing count characters, not UTF-8 bytes, so `safeSheetName`'s 31-byte cut is modelled as 31 characters.
- internal/queries/registry.go and the root queries.go are static query data. They are used only as concrete inputs (the `:true` token of registry.go:73).
- internal/schema/schema.go is driver I/O and is not part of this model. Its `Summary` is the input of `PresenceFromSummary`.
- `Catalog.Order` specifies the result as the stable sorted permutation, not `sort.SliceStable`'s merge steps. `Legacy.ListOrder` is any permutation sorted by (category, ID), because `sort.Slice` is not stable and its choice among equal elements is not specified.
- `Runner.Run` requires every job index to be a slot of the output, because an index out of range is a panic in the source.
- `Runner.Run` does not say which result a slot holds when several dispatched jobs share its index. With more than one worker the writes race, and the order in which the jobs finish decides. The command line never builds such jobs (`Cli.BuildJobsOwnSlots`).
- `Errors.LooksTransientAgree` holds for ASCII messages only. The newer copy lower-cases with Unicode `strings.ToLower`, and the root copy folds only `A` to `Z`. A message such as `broKen pipe` with U+212A KELVIN SIGN for the `K` is transient to the first and not to the second.
- `Cli.Select` models the `--list` path only up to the ordered list, since `printQueryList` only prints.
- `FilterCategoryStrict`'s error carries the trimmed category, not the `%q`-quoted message text.
- `ResultSets.RewriteLimitIdempotent` and `ResultSets.RewrittenIsTrimmed` require a non-blank query, because a blank query with a positive limit becomes `"\nLIMIT n"`, which trimming changes.
- `Report.SafeSheetName` is the corrected function (see Findings). `Report.XlsxSheets` uses `safeSheetName` as written; `Report.IntendedXlsxSheets` uses the corrected one. It is idempotent only on names that are already clean, as `Report.SafeSheetNameKeepsSafe` states, because cleaning can expose new leading or trailing white space.
- `CanRunCypher` is not called by either entry point, so `Skipped` is never set. The model keeps the skipped paths of the writers, because the data type allows them.

## Findings

| source | as written | input that shows it | evidently intended | confidence | as-written member | corrected member |
|---|---|---|---|---|---|---|
| internal/report/report.go:241-252 | the blank check runs before `?` and `*` are deleted, so a name made only of those characters comes out empty (main.go:546-558 has the same code) | sheet name `??` | every query gets a non-empty sheet name, `Sheet` when nothing usable is left | not executed | Report.EmptySheetNameFromMarks | Report.SafeSheetName |
| internal/report/report.go:156-160 | `WriteXLSX` hands the cleaned name to `NewSheet`, which refuses an empty name, and returns that error: one such query loses the whole workbook | one query with sheet name `??` and skip-empty off | the query gets a sheet called `Sheet` | not executed | Report.MarksOnlyNameFailsWorkbook | Report.IntendedXlsxSheets |
