# pg_reports, modelled in Dafny

pg_reports is a Rails engine that reports on a PostgreSQL database: query statistics, index and table health, connections and schema checks, with a web dashboard. This project models the parts of it that are logic rather than plumbing, as immutable datatypes and pure functions over `seq<char>`, exact `real` and association lists. It proves what those parts promise.

- **Query monitor** (`QueryMonitor`): one explicit state record holds the cache-held `enabled` flag and session id, the subscription, the capture buffer and the log file. `start`, `stop`, `status`, `queries` and `load_from_log` are transitions and queries on it. Capturing a SQL event is a transition taking the event record, with the ordered exclusion rules of `should_skip?` and a bounded FIFO buffer.
- **EXPLAIN ANALYZE analyser** (`ExplainAnalyzer`, with the pattern matchers in `PlanText`): first-match node classification over the ordered `NODE_TYPES` table and optional metric extraction. It covers the five problem detectors with their thresholds, the statistics and the severity summary.
- **SQL comment annotations** (`AnnotationParser`, `QueryAnnotator`, `Enrichment`): parsing, stripping and displaying `/*key:value*/` comments; building and prepending the annotator's comment; and the row enrichment that joins them. The builder and the parser are connected by a proved round trip.
- **Declarative reports** (`Filter`, `ReportDefinition`, `ModuleGenerator`, `Reports`, `Executor`):
  - comparison filters with casts;
  - the filter fold, limit, title interpolation and value resolution of a report definition;
  - the defaults merge of generated report methods;
  - the text and Markdown table layout;
  - `:param` interpolation.
- **Helpers** (`SchemaAnalysis`, `Dashboard`, `ReportsRegistry`):
  - the PostgreSQL array-literal parser and the uniqueness-validation check;
  - the dashboard controller's parameter quoting, `$n` substitution, SELECT guard, LIMIT appending, filter-parameter extraction, migration-name sanitising and report dispatch;
  - the static report registry.

Ruby values are `Values.Value` (nil, booleans, integers, floats as exact reals, strings, arrays). Ruby hashes are insertion-ordered association lists, `Values.Dict`. Exceptions are the `Err` case of `Common.Result`. Regular expressions are written out as explicit matchers whose comments explain the backtracking they reproduce.

The database connection's `quote`, ActiveSupport's `titleize`, I18n lookups and `format("%.2f")` are function parameters. Frames of the call stack, fresh session ids and timestamps are inputs.

## Model

| member | source | states |
|---|---|---|
| Values.MergeGet | lib/pg_reports/modules/queries.rb:38-43 | `Hash#merge`: the right-hand hash wins on shared keys, the left-hand one supplies the rest, and the keys are those of both |
| Values.MergeUnique | lib/pg_reports/modules/queries.rb:38-43 | merging into a hash with distinct keys keeps the keys distinct |
| Values.Compare | lib/pg_reports/filter.rb:9-12 | ordering succeeds exactly for two numbers or two strings, and then gives -1, 0 or 1; any other pair fails as Ruby's comparison does |
| Values.StrToINatText | lib/pg_reports/filter.rb:51 | `to_i` reads back the decimal text of any natural number |
| Values.RubyEqReflexive | lib/pg_reports/filter.rb:7 | every value is `==` to itself |
| Values.ToS | lib/pg_reports/filter.rb:53 | nil prints as "", a string as itself, and an integer as text `to_i` reads back |
| Values.StrToI | lib/pg_reports/filter.rb:51 | text without a leading number reads as 0 |
| Values.StrToF | lib/pg_reports/filter.rb:52 | text without a leading number reads as 0.0 |
| Values.StrToFIntText | lib/pg_reports/filter.rb:52 | `to_f` reads the decimal text of any integer as that number |
| Values.StrToFNegativeExponent | lib/pg_reports/filter.rb:52 | `to_f` reads the exponent form `n` "e-" `k` as n / 10^k |
| Values.Get | lib/pg_reports/filter.rb:29 | a missing key reads as nil |
| Values.GetFirst | lib/pg_reports/filter.rb:29 | a present key reads as the value of its first binding |
| Values.Put | lib/pg_reports/annotation_parser.rb:27 | storing a key makes it read as the new value, leaves every other key alone, and appends the key only when it is new |
| Values.Merge | lib/pg_reports/annotation_parser.rb:27 | a key shared with the right-hand hash reads as its value there, any other as in the left-hand one, and the keys are those of both |
| Values.MergeCons | lib/pg_reports/annotation_parser.rb:27 | merging a hash is storing its pairs one after another |
| Text.GsubLiteral | lib/pg_reports/executor.rb:32 | a `gsub` replacement without a backslash is inserted literally at every occurrence |
| Text.GsubSingle | lib/pg_reports/executor.rb:32 | with a single occurrence the replacement's back-references expand against the match, the text before it and the text after it |
| Text.GsubExpandsMatch | lib/pg_reports/executor.rb:32 | in the replacement `'x\0'` the `\0` becomes the matched text |
| Executor.QuoteValue | lib/pg_reports/executor.rb:36-49 | nil becomes NULL, an integer its decimal text, a float its text, a string and a boolean go through the connection's quoting; an array becomes "()" when empty and otherwise the parenthesised quoted element of a one-element array |
| Executor.QuoteArraySnoc | lib/pg_reports/executor.rb:44-45 | one more element adds ", " and its recursively quoted form before the closing parenthesis |
| Executor.QuoteArrayCons | lib/pg_reports/executor.rb:44-45 | an array is "(", its first element quoted, ", " and the quoted rest: the elements are quoted recursively and joined by ", " in order |
| Executor.InterpolateParams | lib/pg_reports/executor.rb:27-34 | without parameters the SQL is returned as written |
| Executor.SubstituteAppend | lib/pg_reports/executor.rb:30-33 | parameters act one after another: substituting `p1 + p2` is substituting `p1` and then `p2` |
| Executor.Substitute | lib/pg_reports/executor.rb:27-34 | parameters are substituted in order; none, or SQL without a ':', leave the SQL as written |
| Executor.SubstituteOne | lib/pg_reports/executor.rb:31-32 | a single parameter is Ruby's `gsub` of `:key` by its quoted value, back-references in the value included; a value without a backslash replaces every occurrence literally |
| Executor.SubstituteExpandsValue | lib/pg_reports/executor.rb:32 | a quoted value `'x\0'` does not survive literally: `\0` expands to the matched `:key` |
| Executor.SharedPrefixExample | lib/pg_reports/executor.rb:30-33 | insertion order decides between placeholders sharing a prefix: `limit` given before `limit_total` turns ":limit_total" into "5_total" |
| Reports.NewReport | lib/pg_reports/report.rb:11-16 | a report keeps its title and rows; explicit columns win, otherwise the columns are the keys of the first row, or none for empty data (lines 119-123) |
| Reports.DetectColumns | lib/pg_reports/report.rb:119-123 | no rows give no columns; otherwise exactly the keys of the first row, in order |
| Reports.Size | lib/pg_reports/report.rb:103-104 | the size is 0 exactly when there are no rows |
| Reports.SizeCountsTableRows | lib/pg_reports/report.rb:103-104 | the text table has one line per counted row under its header and separator |
| Reports.TruncateQuery | lib/pg_reports/report.rb:221-226 | text no longer than the maximum is returned as is; longer text becomes its own prefix followed by "...", exactly `max` characters long when `max` is at least 3 |
| Reports.TruncateIdempotent | lib/pg_reports/report.rb:221-226 | truncating an already truncated cell changes nothing |
| Reports.FormatCell | lib/pg_reports/report.rb:206-219 | nil renders empty, strings are truncated, integers print their decimal text |
| Reports.Widths | lib/pg_reports/report.rb:199-204 | one width per column, at least the header's length and every formatted cell's length in that column, and equal to one of them |
| Reports.PaddedCells | lib/pg_reports/report.rb:148-152 | every padded cell is exactly its column's width and starts with the formatted cell |
| Reports.TableLines | lib/pg_reports/report.rb:137-155 | the table has a header line, a separator line and one line per row |
| Reports.TableAligned | lib/pg_reports/report.rb:141-154 | header, separator and every row line have the same width, the sum of the column widths plus the separators |
| Reports.TableText | lib/pg_reports/report.rb:137-155 | empty data gives ""; otherwise the table opens with the header and separator lines and closes with the last row's line |
| Reports.ToText | lib/pg_reports/report.rb:37-50 | empty data gives the title, an underline of "=" as long as the title and "No data found." (lines 125-127); otherwise the text opens with the title and its underline and closes with "Total: N rows" |
| Reports.MarkdownLines | lib/pg_reports/report.rb:157-174 | the Markdown table shows the first 50 rows in order, and has a trailing "... and N-50 more rows" line exactly when there are more than 50 |
| Reports.TableMarkdown | lib/pg_reports/report.rb:157-174 | empty data gives ""; otherwise the table opens with the header and separator rows and closes with the "more rows" line past 50 rows, else with the last row |
| ReportDefinition.DefaultParam | lib/pg_reports/report_definition.rb:104-108 | the declared parameter's `default`, or nil when there is no parameters section or the key is not declared |
| ReportDefinition.ResolveValue | lib/pg_reports/report_definition.rb:91-102 | "config" reads the setting, "param" takes the caller's value when truthy and otherwise the declared default, and any other source is an ArgumentError naming it |
| ReportDefinition.FoldFilters | lib/pg_reports/report_definition.rb:60-62 | no filters leave the data alone; a successful fold keeps an order-preserving subsequence of the rows |
| ReportDefinition.FoldFiltersAppend | lib/pg_reports/report_definition.rb:60-62 | filters are a left fold in declared order: running `f1 + f2` is running `f1`, then `f2` on its output |
| ReportDefinition.FoldSingle | lib/pg_reports/report_definition.rb:60-62 | a single filter section is exactly that filter's `apply` |
| ReportDefinition.ApplyFilters | lib/pg_reports/report_definition.rb:57-63 | without a filters section the data is returned untouched; otherwise the result is a subsequence of the data |
| ReportDefinition.EffectiveLimit | lib/pg_reports/report_definition.rb:24 | the caller's limit when truthy, else the declared default (lines 110-114) |
| ReportDefinition.TakeLimit | lib/pg_reports/report_definition.rb:25 | a nil or false limit keeps every row; a non-negative integer keeps the first `min(limit, size)` rows; a negative one raises ArgumentError and a non-numeric one TypeError; the kept rows are always a prefix |
| ReportDefinition.Interpolate | lib/pg_reports/report_definition.rb:83-86 | with no variables the title is unchanged; a failure is the failure of resolving one of the variables |
| ReportDefinition.InterpolateTitle | lib/pg_reports/report_definition.rb:79-89 | without `title_vars` the title is returned as written |
| ReportDefinition.InterpolatePlainTitle | lib/pg_reports/report_definition.rb:83-86 | a title with no "${" comes back unchanged whatever the variables resolve to |
| ReportDefinition.ReplaceSinglePlaceholder | lib/pg_reports/report_definition.rb:85 | a single `${name}` between text without "$" is replaced by the value's text with its back-references expanded, and nothing else changes; a value without a backslash is inserted as it is |
| ReportDefinition.TitleExample | lib/pg_reports/report_definition.rb:79-89 | "Index Sizes (top ${limit})" with a `limit` of 25 interpolates to "Index Sizes (top 25)" |
| ReportDefinition.GenerateReport | lib/pg_reports/report_definition.rb:13-33 | a report is built exactly when filtering, the limit and the title all succeed; the rows are a prefix of the filtered (and, when configured, enriched) data, the first `limit` of them for an Integer limit and all of them without a limit, and, without enrichment, a subsequence of the SQL result; the title is the interpolated one (the written one without `title_vars`); declared columns are kept |
| ReportDefinition.Prepared | lib/pg_reports/report_definition.rb:18-21 | enrichment keeps the number of filtered rows |
| ReportDefinition.DeclaredInfos | lib/pg_reports/report_definition.rb:123-132 | one entry per declared parameter, none of them a threshold, and other entries untouched |
| ReportDefinition.ThresholdType | lib/pg_reports/report_definition.rb:142 | a threshold's type is the filter's cast when it has one, and "integer" otherwise |
| ReportDefinition.ThresholdInfos | lib/pg_reports/report_definition.rb:135-151 | each config-sourced filter adds a "<field>_threshold" entry marked as a threshold, other keys are untouched, and a failure is a failing setting lookup |
| ReportDefinition.ThresholdInfosEntry | lib/pg_reports/report_definition.rb:135-151 | the entry under a threshold name is built from the last config-sourced filter with that name: its type, the current setting as default and current value, the "Override threshold for" description and the titleized label |
| ReportDefinition.FilterParametersThreshold | lib/pg_reports/report_definition.rb:119-154 | likewise for every threshold name in the full parameter table |
| ReportDefinition.FilterParameters | lib/pg_reports/report_definition.rb:119-154 | the keys are exactly the declared parameters and the threshold names; threshold names are marked as thresholds and plain declared ones are not; without filters it cannot fail |
| ReportDefinition.ProblemExplanations | lib/pg_reports/report_definition.rb:157-159 | the declared mapping, or an empty one |
| ModuleGenerator.DefaultsOf | lib/pg_reports/module_generator.rb:31 | the defaults have one key per declared parameter, in declaration order, each mapped to that parameter's `default` (nil when absent) |
| ModuleGenerator.Defaults | lib/pg_reports/module_generator.rb:28-31 | no parameters section gives no defaults; otherwise each key resolves to the same default `get_default_param_value` would find, and the keys are exactly the declared ones |
| ModuleGenerator.MergedParamsGet | lib/pg_reports/module_generator.rb:38-41 | in `defaults.merge(params)` the caller's values override the defaults, declared keys the caller omits keep their defaults, and extra caller keys pass through |
| ModuleGenerator.ResolveAfterMerge | lib/pg_reports/module_generator.rb:39 | merging the defaults in beforehand does not change what any value configuration resolves to |
| ModuleGenerator.LimitAfterMerge | lib/pg_reports/module_generator.rb:39 | nor the effective limit |
| ModuleGenerator.InterpolateAfterMerge | lib/pg_reports/module_generator.rb:39 | nor the interpolated title |
| ModuleGenerator.ReportMethod | lib/pg_reports/module_generator.rb:38-41 | for a definition without filters the generated method produces the same report as calling `generate_report` with the caller's parameters alone |
| ModuleGenerator.MethodsOf | lib/pg_reports/module_generator.rb:11-13 | one method per report of the module, in the loader's order |
| ModuleGenerator.Generate | lib/pg_reports/module_generator.rb:6-15 | a method is defined exactly for each (module, report) pair whose module resolves, and their number is the number of such pairs |
| ModuleGenerator.UnknownModuleSkipped | lib/pg_reports/module_generator.rb:19-25 | a module name that does not resolve gets no method |
| Filter.Setting | lib/pg_reports/filter.rb:38-39 | a configuration lookup succeeds exactly for a known setting and returns its value |
| Filter.OperatorNamed | lib/pg_reports/filter.rb:6-13 | the operator table knows exactly the six names, and an unknown name finds nothing |
| Filter.OperatorNamedName | lib/pg_reports/filter.rb:6-13 | every operator is found under its own name |
| Filter.Holds | lib/pg_reports/filter.rb:7-12 | `eq` and `ne` are Ruby equality and its negation; the orderings compare numbers by value and fail for operands Ruby cannot order |
| Filter.CastName | lib/pg_reports/filter.rb:19 | the cast defaults to "string" |
| Filter.Cast | lib/pg_reports/filter.rb:49-56 | "integer" is `to_i`, "float" is `to_f`, "string" is `to_s`, and any other cast leaves the value alone |
| Filter.CastIdempotent | lib/pg_reports/filter.rb:49-56 | casting twice is casting once |
| Filter.RawThreshold | lib/pg_reports/filter.rb:36-44 | "param" reads the caller's value, "config" the setting, and any other source raises ArgumentError |
| Filter.Select | lib/pg_reports/filter.rb:28-31 | selection succeeds exactly when every row can be compared; the result is the rows that pass, in order and with their multiplicity; a failure is some row's failure |
| Filter.Keep | lib/pg_reports/filter.rb:28-31 | a row's cast field fails as its cast does; `eq` and `ne` are Ruby equality and its negation; the orderings succeed exactly for two numbers or two strings |
| Filter.Apply | lib/pg_reports/filter.rb:22-32 | a failing threshold fails first, then an unknown operator raises ArgumentError; a successful result is a subsequence of the data |
| Filter.ApplyKeeps | lib/pg_reports/filter.rb:28-31 | a row is kept exactly when its cast field stands in the operator's relation to the cast threshold |
| Filter.EqNePartition | lib/pg_reports/filter.rb:7-8 | with the same threshold, `eq` and `ne` split the rows between them |
| Filter.LteExample | lib/pg_reports/filter.rb:22-32 | rows with values 10, 20 and 30 filtered by `lte 20` leave the first two |
| Dashboard.ReplaceQuotes | app/controllers/pg_reports/dashboard_controller.rb:497 | `gsub("'", "''")` doubles every single quote and keeps everything else |
| Dashboard.DoubleQuotes | app/controllers/pg_reports/dashboard_controller.rb:497 | doubling never shortens the text, leaves quote-free text alone and introduces no backslash |
| Dashboard.UndoubleDoubled | app/controllers/pg_reports/dashboard_controller.rb:497 | reading a quote-doubled body back recovers the original text exactly |
| Dashboard.QuoteParamValue | app/controllers/pg_reports/dashboard_controller.rb:485-499 | "null" in any case becomes NULL, and "true" or "false" in any case becomes its lower-case form |
| Dashboard.QuoteParamRoundTrip | app/controllers/pg_reports/dashboard_controller.rb:485-499 | any other value becomes one SQL string literal that reads back as the value's text, so a quote inside it cannot end the literal early |
| Dashboard.SortDesc | app/controllers/pg_reports/dashboard_controller.rb:473 | the parameter numbers sorted in descending order, as a permutation of the input |
| Dashboard.ParamNumbers | app/controllers/pg_reports/dashboard_controller.rb:473 | one number per parameter key, its `to_i` |
| Dashboard.ParamValue | app/controllers/pg_reports/dashboard_controller.rb:474 | the value stored under the number's text when it is truthy, else nil: the keys are strings, so the Integer lookup finds nothing |
| Dashboard.SubstituteParams | app/controllers/pg_reports/dashboard_controller.rb:469-483 | with no parameters the query is returned as written |
| Dashboard.SubstituteNumbers | app/controllers/pg_reports/dashboard_controller.rb:473-480 | with no numbers, or a query without "$", the query is returned as written |
| Dashboard.SubstituteSkipped | app/controllers/pg_reports/dashboard_controller.rb:475 | nil or empty values substitute nothing |
| Dashboard.SubstituteNumbersAppend | app/controllers/pg_reports/dashboard_controller.rb:473-480 | substitution runs number after number in the sorted order |
| Dashboard.SubstituteOneNumber | app/controllers/pg_reports/dashboard_controller.rb:474-479 | a single number replaces every "$n" with the quoted value |
| Dashboard.SubstituteExample | app/controllers/pg_reports/dashboard_controller.rb:472-480 | with $1 = a and $10 = b, "$1 $10" becomes "'a' 'b'": $10 is replaced before $1 can eat its prefix |
| Dashboard.ExplainRejectsBackReference | app/controllers/pg_reports/dashboard_controller.rb:157-163 | a value `x\0` for $1 expands to the matched "$1", so the guard rejects the query as missing parameters |
| Dashboard.ExplainAnalyze | app/controllers/pg_reports/dashboard_controller.rb:137-165 | a blank query (nil, or only Unicode white space) is rejected first; a query runs exactly when its normalised form starts with "select" and no `$<digits>` is left after substitution; it runs as EXPLAIN (ANALYZE, BUFFERS, FORMAT TEXT) of the substituted query |
| Dashboard.NoBreakSpaceQueryRequired | app/controllers/pg_reports/dashboard_controller.rb:188 | a query of one no-break space is blank to `blank?`, so both actions refuse it as missing |
| Dashboard.ExplainWithoutParams | app/controllers/pg_reports/dashboard_controller.rb:153-165 | a SELECT without "$" runs as written, whatever parameters come with it |
| Dashboard.ExecuteQuery | app/controllers/pg_reports/dashboard_controller.rb:184-216 | as for EXPLAIN, but "show" is also allowed and the statement gets a LIMIT of 100 when it lacks one |
| Dashboard.ExecutedQueryLimited | app/controllers/pg_reports/dashboard_controller.rb:212-216 | every statement `execute_query` runs ends in a LIMIT clause |
| Dashboard.AddLimitIfMissing | app/controllers/pg_reports/dashboard_controller.rb:501-511 | a query whose normalised form already ends in "limit N" (optionally "offset M") is unchanged; otherwise " LIMIT n" is appended |
| Dashboard.AddLimitDetected | app/controllers/pg_reports/dashboard_controller.rb:501-511 | the result always ends in a clause the check recognises |
| Dashboard.AddLimitIdempotent | app/controllers/pg_reports/dashboard_controller.rb:501-511 | adding the limit twice is adding it once |
| Dashboard.LimitClauseShape | app/controllers/pg_reports/dashboard_controller.rb:505 | text the LIMIT check recognises ends in a digit or white space and is at least as long as "limit 0" |
| Dashboard.FilterValue | app/controllers/pg_reports/dashboard_controller.rb:435-437 | an allowed filter value becomes an Integer when some line of its text is all digits (Ruby's `^` and `$` match at line breaks), and stays text otherwise |
| Dashboard.DigitsBecomeInteger | app/controllers/pg_reports/dashboard_controller.rb:437 | the decimal text of a number becomes that Integer |
| Dashboard.AllowedValues | app/controllers/pg_reports/dashboard_controller.rb:430-439 | exactly the allowed keys whose values are present are added, each with its converted value, and nothing else changes |
| Dashboard.ThresholdValues | app/controllers/pg_reports/dashboard_controller.rb:442-446 | every present `*_threshold` parameter is added with the Integer its `to_i` gives (the last such parameter of a key wins), other keys keep their values, and a failure is exactly one of them having no `to_i` |
| Dashboard.ExtractFilterParams | app/controllers/pg_reports/dashboard_controller.rb:428-449 | the keys are exactly the present allowed filters and the present threshold overrides |
| Dashboard.ExtractedValues | app/controllers/pg_reports/dashboard_controller.rb:428-449 | an allowed filter holds its converted value and an override the Integer of its `to_i`, the last override of a key winning; extraction fails exactly when some present override has no `to_i` |
| Dashboard.ExtractedKeys | app/controllers/pg_reports/dashboard_controller.rb:428-449 | no other key reaches a report |
| Dashboard.IdeographicSpaceThresholdDropped | app/controllers/pg_reports/dashboard_controller.rb:443 | a threshold given as an ideographic space is not present, so it overrides nothing |
| Dashboard.AllowedFilterValue | app/controllers/pg_reports/dashboard_controller.rb:433-439 | an allowed filter gets its converted value |
| Dashboard.SanitizeFileName | app/controllers/pg_reports/dashboard_controller.rb:266 | the result keeps, in order, exactly the characters in `[a-z0-9_.]`, and a name made only of them is unchanged |
| Dashboard.SanitizeIdempotent | app/controllers/pg_reports/dashboard_controller.rb:266 | sanitising twice is sanitising once |
| Dashboard.MigrationNameIsPlain | app/controllers/pg_reports/dashboard_controller.rb:266-270 | an accepted name has no "/" and its only "." is the one before "rb", so the file stays inside db/migrate |
| Dashboard.CreateMigration | app/controllers/pg_reports/dashboard_controller.rb:247-282 | outside development nothing is written; a file is written exactly when name and code are given, the sanitised name has the migration form and the directory exists; it goes to db/migrate under the sanitised name |
| Dashboard.ModuleFor | app/controllers/pg_reports/dashboard_controller.rb:452-460 | exactly the six categories have a report module |
| Dashboard.ExecuteReport | app/controllers/pg_reports/dashboard_controller.rb:451-467 | an unknown category and a report the module lacks each raise their ArgumentError; otherwise that module's report is called |
| SchemaAnalysis.DeleteBraces | lib/pg_reports/modules/schema_analysis.rb:78 | `gsub(/[{}]/, "")` leaves no brace and changes brace-free text not at all |
| SchemaAnalysis.DeleteBracesAppend | lib/pg_reports/modules/schema_analysis.rb:78 | braces are removed character by character, independently of the surrounding text |
| SchemaAnalysis.ParseArray | lib/pg_reports/modules/schema_analysis.rb:74-79 | nil and "" parse to no columns; otherwise one element per comma-separated piece of the brace-free text, each piece stripped |
| SchemaAnalysis.ParseArrayRoundTrip | lib/pg_reports/modules/schema_analysis.rb:74-79 | the PostgreSQL array literal `{a,b,c}` of plain column names parses back to exactly those names |
| SchemaAnalysis.UniquenessValidators | lib/pg_reports/modules/schema_analysis.rb:106-108 | exactly the model's uniqueness validators |
| SchemaAnalysis.AnyCovers | lib/pg_reports/modules/schema_analysis.rb:117-119 | true exactly when some uniqueness validator lists the column |
| SchemaAnalysis.AnyScoped | lib/pg_reports/modules/schema_analysis.rb:130-134 | true exactly when some uniqueness validator on the first column has a scope holding the remaining columns, order aside |
| SchemaAnalysis.EachCovered | lib/pg_reports/modules/schema_analysis.rb:113-122 | true exactly when every column is covered |
| SchemaAnalysis.CheckUniquenessAsWritten | lib/pg_reports/modules/schema_analysis.rb:102-140 | the check as written: the model has validators, a uniqueness validator exists, every column is covered by one, and a composite index also has a validator on its first column scoped to the rest |
| SchemaAnalysis.CheckUniqueness | lib/pg_reports/modules/schema_analysis.rb:102-140 | the check as its suggestion intends it: a single column needs a validator on it, and a composite index needs a validator on its first column scoped to the others |
| SchemaAnalysis.AsWrittenIsStricter | lib/pg_reports/modules/schema_analysis.rb:113-137 | whatever the check as written accepts, the corrected check accepts too |
| SchemaAnalysis.SuggestedValidator | lib/pg_reports/modules/schema_analysis.rb:143-151 | the suggestion declares a uniqueness validator on the first column, scoped to the other columns exactly when there are several |
| SchemaAnalysis.BuildValidationSuggestion | lib/pg_reports/modules/schema_analysis.rb:143-151 | the suggestion is a `validates :` line, `validates :c, uniqueness: true` for one column |
| SchemaAnalysis.SuggestionDeclares | lib/pg_reports/modules/schema_analysis.rb:143-151 | the suggested text is the declaration of that validator |
| SchemaAnalysis.SuggestionAccepted | lib/pg_reports/modules/schema_analysis.rb:143-151 | adding the suggested validator to a model makes the corrected check pass |
| SchemaAnalysis.SuggestionRejectedAsWritten | lib/pg_reports/modules/schema_analysis.rb:113-122 | with columns user_id, email, adding the suggested scoped validator still fails the check as written |
| SchemaAnalysis.Row | lib/pg_reports/modules/schema_analysis.rb:29-38 | a result row carries the status and the suggestion in the source's key order, with `model_name` only when a model was found (lines 46-56) |
| SchemaAnalysis.NoModelFinding | lib/pg_reports/modules/schema_analysis.rb:28-39 | a table without a model gives a "no_model" finding for the index's columns |
| SchemaAnalysis.MissingFinding | lib/pg_reports/modules/schema_analysis.rb:43-57 | a failing check gives a "missing_validation" finding naming the model and carrying the suggestion for the index's columns |
| SchemaAnalysis.RowsFor | lib/pg_reports/modules/schema_analysis.rb:15-58 | a primary key gives no row; otherwise a missing model gives the "no_model" row, and a model gives a "missing_validation" row exactly when the check fails |
| SchemaAnalysis.MissingRows | lib/pg_reports/modules/schema_analysis.rb:15-58 | at most one finding per index, each "no_model" or "missing_validation" |
| SchemaAnalysis.MissingRowsAppend | lib/pg_reports/modules/schema_analysis.rb:15 | indexes are examined one after the other |
| SchemaAnalysis.NoMissingRows | lib/pg_reports/modules/schema_analysis.rb:15-58 | the report is empty exactly when no index contributes a row |
| SchemaAnalysis.MissingValidations | lib/pg_reports/modules/schema_analysis.rb:60-64 | the report has the fixed title and display columns and one row per finding, in order |
| SchemaAnalysis.FollowingSuggestionClears | lib/pg_reports/modules/schema_analysis.rb:43-57 | once the model declares the suggested validator, the index contributes no row |
| ReportsRegistry.LookupEntry | lib/pg_reports/dashboard/reports_registry.rb:256 | in a table with distinct keys, a key finds a value exactly when that pair is an entry |
| ReportsRegistry.CategoryOf | lib/pg_reports/dashboard/reports_registry.rb:259-261 | an unknown category finds nothing; a known one finds exactly its declared entry |
| ReportsRegistry.Find | lib/pg_reports/dashboard/reports_registry.rb:255-257 | a report is found exactly when the category is declared and lists the report, and the result is the listed entry; an unknown category or report finds nothing |
| ReportsRegistry.ConfigOf | lib/pg_reports/dashboard/reports_registry.rb:9-168 | a report has a configuration exactly when `REPORT_CONFIG` lists it, and it is the listed one |
| ReportsRegistry.Thresholds | lib/pg_reports/dashboard/reports_registry.rb:286-288 | an unconfigured report has no thresholds; a configured one has its declared thresholds |
| ReportsRegistry.ProblemFields | lib/pg_reports/dashboard/reports_registry.rb:291-293 | an unconfigured report has no problem fields; a configured one has its declared fields |
| ReportsRegistry.Documentation | lib/pg_reports/dashboard/reports_registry.rb:264-278 | each text is its translation when there is one; otherwise the title is the titleized report name, `what` and `how` are "" and `nuances` is empty; an unconfigured report falls back to empty thresholds and problem fields, a configured one shows its declared ones |
| ReportsRegistry.DocTexts | lib/pg_reports/dashboard/reports_registry.rb:268-275 | the translated texts, each falling back to its default only when the translation is missing |
| ReportsRegistry.DocumentationAgrees | lib/pg_reports/dashboard/reports_registry.rb:275-276 | the thresholds and problem fields the documentation shows are what `thresholds` and `problem_fields` return |
| ReportsRegistry.CategoryKeysDistinct | lib/pg_reports/dashboard/reports_registry.rb:170-249 | the six category keys are distinct |
| ReportsRegistry.ConfigKeysListed | lib/pg_reports/dashboard/reports_registry.rb:9-168 | `REPORT_CONFIG` has 36 entries under the listed keys, in declaration order |
| ReportsRegistry.ConfigKeysDistinct | lib/pg_reports/dashboard/reports_registry.rb:9-168 | no report is configured twice |
| ReportsRegistry.CategoryReportsDistinct | lib/pg_reports/dashboard/reports_registry.rb:170-249 | no category lists a report twice |
| ReportsRegistry.CategoriesDeclared | lib/pg_reports/dashboard/reports_registry.rb:170-249 | every category declares a name, an icon, a "#rrggbb" colour and at least one report |
| ReportsRegistry.ConfigFollowsReports | lib/pg_reports/dashboard/reports_registry.rb:9-249 | `REPORT_CONFIG` lists the reports of each category in the same order as `REPORTS` |
| ReportsRegistry.EveryReportConfigured | lib/pg_reports/dashboard/reports_registry.rb:9-257 | every report `find` can return has a `REPORT_CONFIG` entry |
| ReportsRegistry.LevelsOrdered | lib/pg_reports/dashboard/reports_registry.rb:9-168 | every configured threshold has its critical value beyond its warning value, below it for the inverted (ratio and scan-count) levels |
| ReportsRegistry.ModulesMatchCategories | lib/pg_reports/dashboard/reports_registry.rb:170-249 | the categories the registry lists are exactly those `execute_report` dispatches to a module (app/controllers/pg_reports/dashboard_controller.rb lines 452-460) |
| QueryMonitor.AppendLog | lib/pg_reports/query_monitor.rb:320-348 | appending to the log changes nothing else; without a configured log file nothing is written (line 350-352); otherwise the lines go after the existing ones, creating the file when absent |
| QueryMonitor.WriteSessionMarker | lib/pg_reports/query_monitor.rb:320-335 | only the log changes; without a log file nothing changes; otherwise exactly one line, the marker of the kind with the session id and timestamp, is appended after the existing lines |
| QueryMonitor.FlushToFile | lib/pg_reports/query_monitor.rb:337-348 | only the log changes; without a log file or with an empty buffer nothing changes; otherwise reading the log gives what it gave before followed by the buffer, and no new line aborts a read |
| QueryMonitor.Records | lib/pg_reports/query_monitor.rb:341-345 | one query record per buffered entry, in buffer order |
| QueryMonitor.Boot | lib/pg_reports/query_monitor.rb:15-20 | a fresh monitor has an empty buffer and is subscribed exactly when the cache says monitoring is on (lines 179-182) |
| QueryMonitor.Start | lib/pg_reports/query_monitor.rb:30-57 | while enabled, "Monitoring already active" and nothing changes; a failed subscription writes `enabled` back to false; on success the reply carries the fresh id, the buffer is emptied, the process is subscribed (once: lines 184-185), the cache holds the new id when there is a cache, and a `session_start` marker is appended exactly when a log file is configured; success happens exactly when not enabled and subscribing does not fail |
| QueryMonitor.Stop | lib/pg_reports/query_monitor.rb:59-89 | while disabled, "Monitoring not active" and nothing changes; otherwise the reply carries the old id, the process unsubscribes, the cache is cleared, the buffer is emptied, and the log gains a `session_end` marker with the old id followed by every buffered entry in order |
| QueryMonitor.GetStatus | lib/pg_reports/query_monitor.rb:91-97 | `enabled` can only be true with a cache (lines 150-156, 174-176), and `query_count` is the buffer's size |
| QueryMonitor.FirstSkipReason | lib/pg_reports/query_monitor.rb:221-249 | the reasons are checked in the source's order and the first that applies is reported; none means no reason applies |
| QueryMonitor.ShouldSkipIff | lib/pg_reports/query_monitor.rb:221-249 | a notification is skipped exactly when its name starts with "PgReports" or "SCHEMA" or is "CACHE", it comes from pg_reports' own modules (lines 251-273), it is cached, or its SQL holds EXPLAIN, CREATE, ALTER or DROP as a whole word in any case |
| QueryMonitor.ShouldSkip | lib/pg_reports/query_monitor.rb:221-249 | a notification is skipped exactly when one of the exclusion rules applies |
| QueryMonitor.FirstAppFrame | lib/pg_reports/query_monitor.rb:284-296 | the first frame outside gems, ruby, railties and pg_reports itself, or none when there is no such frame |
| QueryMonitor.SourceLocationOf | lib/pg_reports/query_monitor.rb:275-308 | the location is that of an application frame among the 50 frames considered, and none exactly when no such frame exists |
| QueryMonitor.AddToBuffer | lib/pg_reports/query_monitor.rb:310-318 | the buffer never exceeds `max_queries`; it is the newest `max_queries` of the old buffer plus the entry, so the entry is last and the oldest entries go first |
| QueryMonitor.HandleSqlEvent | lib/pg_reports/query_monitor.rb:194-219 | only the buffer can change; while disabled or for a skipped notification nothing changes; otherwise the entry with the current session id, the notification's SQL, duration and name, and its source location is added |
| QueryMonitor.Notify | lib/pg_reports/query_monitor.rb:187-189 | an unsubscribed process sees no notification, and a notification changes only the buffer |
| QueryMonitor.SessionFilter | lib/pg_reports/query_monitor.rb:103-105 | the entries of the session, in order, and all of them |
| QueryMonitor.LastOrAll | lib/pg_reports/query_monitor.rb:108-110 | without a limit everything; with one the last `min(limit, size)` entries; a negative limit raises |
| QueryMonitor.Queries | lib/pg_reports/query_monitor.rb:99-113 | a suffix of the session's entries, at most `limit` long, every one of the session and from the buffer; with no arguments the whole buffer |
| QueryMonitor.LoggedQueries | lib/pg_reports/query_monitor.rb:123-134 | at most one entry per line, each of the session |
| QueryMonitor.LoggedQueriesMember | lib/pg_reports/query_monitor.rb:123-134 | an entry is read exactly when it is of the session and some line is its query record: markers and malformed lines are skipped and no query record is lost |
| QueryMonitor.LoadFromLog | lib/pg_reports/query_monitor.rb:115-145 | no log file configured or present gives nothing; otherwise the last `limit` query records of the session, in file order |
| QueryMonitor.LoggedQueriesAppend | lib/pg_reports/query_monitor.rb:123-134 | the log is read line by line, so reading appended lines appends their records |
| QueryMonitor.LoggedQueriesOfRecords | lib/pg_reports/query_monitor.rb:123-134 | the records `flush_to_file` writes read back as exactly the entries written (lines 341-345) |
| QueryMonitor.BootInvariant | lib/pg_reports/query_monitor.rb:15-20 | a fresh monitor satisfies the invariant: the buffer is bounded, empty while disabled, and holds entries of the current session only |
| QueryMonitor.Invariant | lib/pg_reports/query_monitor.rb:91-113 | under the invariant the status count never exceeds `max_queries`, it is 0 while disabled, and `queries` with no arguments returns the whole buffer |
| QueryMonitor.StartInvariant | lib/pg_reports/query_monitor.rb:30-57 | `start` preserves the invariant |
| QueryMonitor.StopInvariant | lib/pg_reports/query_monitor.rb:59-89 | `stop` preserves the invariant |
| QueryMonitor.NotifyInvariant | lib/pg_reports/query_monitor.rb:194-219 | capturing a notification preserves the invariant |
| QueryMonitor.AddToBufferKeepsSession | lib/pg_reports/query_monitor.rb:310-318 | trimming keeps only entries of the one session |
| QueryMonitor.StopThenLoad | lib/pg_reports/query_monitor.rb:59-145 | after `stop`, reading the session back from the log gives what it gave before followed by exactly the entries buffered at stop time, in order; evicted entries never reach the log |
| QueryMonitor.SessionLines | lib/pg_reports/query_monitor.rb:74-77 | the lines `stop` appends contribute exactly the buffered entries and nothing that aborts a read |
| QueryMonitor.WithoutCacheNeverActive | lib/pg_reports/query_monitor.rb:150-176 | without a cache, `start` reports success yet `enabled` stays false, `stop` is always refused and nothing is captured |
| AnnotationParser.CloseFrom | lib/pg_reports/annotation_parser.rb:19 | the first closing `*/` at or after a position that no line feed precedes, or none |
| AnnotationParser.CommentAt | lib/pg_reports/annotation_parser.rb:19 | the lazy pattern `/\*(.+?)\*/` matches at a position exactly when a comment with at least one character, no line feed and no earlier `*/` closes there |
| AnnotationParser.NoCloseNoComments | lib/pg_reports/annotation_parser.rb:19-21 | text without `*/` has no comment |
| AnnotationParser.LeadingComment | lib/pg_reports/annotation_parser.rb:19 | a leading one-line comment is found with exactly its content |
| AnnotationParser.CloseFromFirst | lib/pg_reports/annotation_parser.rb:19 | the closing `*/` found is the first one with no line feed before it, and when none is found every `*/` has a line feed before it |
| AnnotationParser.CommentAtMatch | lib/pg_reports/annotation_parser.rb:19 | the comment found at a position is a match of the lazy pattern there, and none is found exactly when nothing matches |
| AnnotationParser.Comments | lib/pg_reports/annotation_parser.rb:19 | every scanned comment is non-empty and has no line feed |
| AnnotationParser.CommentsEmpty | lib/pg_reports/annotation_parser.rb:19-21 | the scan finds no comment exactly when the pattern matches nowhere |
| AnnotationParser.NormalizeChar | lib/pg_reports/annotation_parser.rb:107-109 | a normalised key character is never "-", white space or an upper-case letter |
| AnnotationParser.NormalizeKey | lib/pg_reports/annotation_parser.rb:107-109 | keys are normalised character by character: lower-cased, with "-" and white space becoming "_" |
| AnnotationParser.NormalizeKeyIdempotent | lib/pg_reports/annotation_parser.rb:107-109 | normalising twice is normalising once |
| AnnotationParser.NormalKeyFixed | lib/pg_reports/annotation_parser.rb:107-109 | an already normal key is unchanged |
| AnnotationParser.QuotedAt | lib/pg_reports/annotation_parser.rb:93 | a match of `(\w+)=q([^q]*)q` has a non-empty word key, "=" and the quote, and a quote-free value up to the closing quote |
| AnnotationParser.QuotedPairs | lib/pg_reports/annotation_parser.rb:93-101 | scanning merges the matches in order into the hash, so a later pair replaces an earlier one, and keeps the keys unique |
| AnnotationParser.QuotedMatches | lib/pg_reports/annotation_parser.rb:93 | every matched value is a string free of the quote character, and text without the quote matches nothing |
| AnnotationParser.QuotedPairsNone | lib/pg_reports/annotation_parser.rb:92-101 | without the quote character the scan adds nothing |
| AnnotationParser.ParseCommentUnique | lib/pg_reports/annotation_parser.rb:75-105 | a parsed comment never holds a key twice |
| AnnotationParser.ColonPairsUnique | lib/pg_reports/annotation_parser.rb:81-89 | nor do its colon pairs |
| AnnotationParser.ColonBinding | lib/pg_reports/annotation_parser.rb:83-87 | a piece binds a key exactly when it contains ":" |
| AnnotationParser.ColonBindingSplit | lib/pg_reports/annotation_parser.rb:83-87 | the key is the normalised, stripped text before the first ":", and the value the stripped rest, later colons included |
| AnnotationParser.ColonBindingsMember | lib/pg_reports/annotation_parser.rb:81-89 | a binding is produced exactly when some piece gives it, so pieces without ":" are ignored |
| AnnotationParser.ColonPairs | lib/pg_reports/annotation_parser.rb:81-89 | the colon bindings are merged in order into the hash, a later one replacing an earlier one |
| AnnotationParser.ParseComment | lib/pg_reports/annotation_parser.rb:75-105 | the keys are those of the colon, single-quoted and double-quoted pairs; a key's value is the double-quoted one when there is one, else the single-quoted one, else the colon one |
| AnnotationParser.ParseCommentColonOnly | lib/pg_reports/annotation_parser.rb:81-102 | a comment with ":" and no quotes is parsed by its colon pairs alone |
| AnnotationParser.Parse | lib/pg_reports/annotation_parser.rb:15-31 | nil, "" and text without a comment parse to the empty hash |
| AnnotationParser.MergeAllLastWins | lib/pg_reports/annotation_parser.rb:25-28 | a key's value is the one the last comment binding it gives |
| AnnotationParser.MergeAllSnoc | lib/pg_reports/annotation_parser.rb:25-28 | each further comment is merged over what the earlier ones gave |
| AnnotationParser.MergeAll | lib/pg_reports/annotation_parser.rb:25-28 | the keys are those of the hash and of every parsed comment |
| AnnotationParser.SpacesEnd | lib/pg_reports/annotation_parser.rb:39 | `\s*` after a comment consumes exactly the following run of white space |
| AnnotationParser.RemoveNothing | lib/pg_reports/annotation_parser.rb:39 | text without a comment loses nothing |
| AnnotationParser.StripAnnotations | lib/pg_reports/annotation_parser.rb:36-40 | nil stays nil; a comment-free query comes back stripped |
| AnnotationParser.StripLeadingComment | lib/pg_reports/annotation_parser.rb:39 | a leading comment and the white space after it are removed, and the rest is stripped |
| AnnotationParser.StripBlocks | lib/pg_reports/annotation_parser.rb:36-40 | for any number of one-line comments after plain text, each comment and the white space after it are removed and the rest is stripped |
| AnnotationParser.ParseBlocks | lib/pg_reports/annotation_parser.rb:15-31 | for any number of such comments, every key gets the value the last comment binding it gives |
| AnnotationParser.RemoveComments | lib/pg_reports/annotation_parser.rb:39 | removing comments never lengthens the text |
| AnnotationParser.FormatForDisplay | lib/pg_reports/annotation_parser.rb:45-71 | nil exactly for the empty hash |
| AnnotationParser.DisplayAllKeys | lib/pg_reports/annotation_parser.rb:45-71 | with every displayed key present the parts come in the order `file:line`, `#method`, `controller#action`, `[app]`, joined by spaces |
| AnnotationParser.DisplayWithoutKnownKeys | lib/pg_reports/annotation_parser.rb:45-71 | a non-empty hash without any displayed key displays as the empty string, not nil |
| QueryAnnotator.Attach | lib/pg_reports/query_annotator.rb:14-22 | attaching sets the flag and puts the adapter patch in place; on an attached switch it does nothing |
| QueryAnnotator.Detach | lib/pg_reports/query_annotator.rb:25-27 | detaching clears the flag and leaves the patch where it was |
| QueryAnnotator.AttachIdempotent | lib/pg_reports/query_annotator.rb:14-31 | attaching twice is attaching once, and detaching after attaching leaves a patched, detached switch |
| QueryAnnotator.Basename | lib/pg_reports/query_annotator.rb:77 | the base name holds no slash (unless it is "/") and is empty only for an empty path |
| QueryAnnotator.TrimSlashes | lib/pg_reports/query_annotator.rb:77 | trailing slashes are removed and nothing else: the result is a prefix that does not end in '/' |
| QueryAnnotator.LastSlashEnd | lib/pg_reports/query_annotator.rb:77 | the returned index follows the last slash before the bound, or is 0 when there is none |
| QueryAnnotator.RelativePath | lib/pg_reports/query_annotator.rb:74-78 | the corrected reading: a path inside the application root is that root, a slash and the result; any other path gives its base name |
| QueryAnnotator.RelativePathAsWritten | lib/pg_reports/query_annotator.rb:74-75 | as written: a path not starting with the root gives its base name; one starting with the root but without "root/" is kept whole; one inside "root/" is that prefix and the result |
| QueryAnnotator.RelativePathAgrees | lib/pg_reports/query_annotator.rb:74-75 | for a path inside the root, the code as written and the corrected reading give the same relative path |
| QueryAnnotator.SiblingDirectoryKeptWhole | lib/pg_reports/query_annotator.rb:74-75 | a sibling directory whose name extends the root's is kept whole as written, but reduces to its base name as intended |
| QueryAnnotator.FindSourceLocation | lib/pg_reports/query_annotator.rb:56-88 | a location is found exactly when some frame is an application frame; it is the first such frame, with its relative path, line and label |
| QueryAnnotator.AnnotationPairs | lib/pg_reports/query_annotator.rb:40-49 | file and line come first; the method follows only when present, the controller only when the hook set one, and the action only with a controller |
| QueryAnnotator.PairTexts | lib/pg_reports/query_annotator.rb:41-48 | each part is its key, a colon and its value, in order |
| QueryAnnotator.BuildAnnotation | lib/pg_reports/query_annotator.rb:34-52 | nil exactly when annotation is switched off or no frame qualifies; otherwise the comma-joined parts wrapped in `/*` and `*/` |
| QueryAnnotator.AnnotateSql | lib/pg_reports/query_annotator.rb:105-116 | the SQL changes exactly when the annotator is attached, an annotation exists and the SQL has no comment delimiters, and then it is the annotation, a space and the SQL |
| QueryAnnotator.AnnotateIdempotent | lib/pg_reports/query_annotator.rb:111-115 | annotating an annotated statement leaves it alone |
| QueryAnnotator.BuiltAnnotationDelimited | lib/pg_reports/query_annotator.rb:51 | a built annotation contains both `/*` and `*/` |
| QueryAnnotator.PairsClean | lib/pg_reports/query_annotator.rb:40-49 | with clean names every part of an annotation is a known key with a value the parser reads back |
| QueryAnnotator.ParseAnnotatedSql | lib/pg_reports/annotation_parser.rb:15-31 | the parser reads back from an annotated statement exactly the pairs the annotator wrote, in order |
| QueryAnnotator.StripAnnotatedSql | lib/pg_reports/annotation_parser.rb:36-40 | stripping the annotations of an annotated statement gives the original statement, stripped |
| QueryAnnotator.AnnotationShape | lib/pg_reports/query_annotator.rb:40-49 | the keys of an annotation are distinct, never "app" or "application", and each optional key appears exactly when its source is present |
| QueryAnnotator.AnnotationGets | lib/pg_reports/query_annotator.rb:40-49 | the parsed annotation maps each key the display reads to the value the annotator wrote, and nil for the absent ones |
| QueryAnnotator.DisplayAnnotation | lib/pg_reports/annotation_parser.rb:45-71 | the display form of an annotation shows `file:line`, then `#method` when present, then the controller with its action |
| QueryAnnotator.AnnotationParts | lib/pg_reports/annotation_parser.rb:45-71 | the display parts of the values an annotation carries join to the expected `file:line #method controller#action` form |
| Enrichment.QueryText | lib/pg_reports/modules/queries.rb:34 | a nil query reads as the empty text and a string query as itself |
| Enrichment.Columns | lib/pg_reports/modules/queries.rb:37-44 | with an annotation the row gains the display source and the stripped query; without one only a nil source |
| Enrichment.EnrichRow | lib/pg_reports/modules/queries.rb:33-45 | every enriched row has a `source` column and keeps distinct keys |
| Enrichment.EnrichKeepsOthers | lib/pg_reports/modules/queries.rb:38-44 | every column other than `source` and `query` keeps its value |
| Enrichment.EnrichUnannotated | lib/pg_reports/modules/queries.rb:42-44 | without annotations the source is nil and the query is untouched |
| Enrichment.EnrichAnnotated | lib/pg_reports/modules/queries.rb:37-41 | with annotations the source is their display form and the query has them stripped |
| Enrichment.Enrich | lib/pg_reports/modules/queries.rb:32-46 | every row is enriched on its own, with count and order kept |
| Enrichment.EnrichNilQuery | lib/pg_reports/modules/queries.rb:34 | a nil query gives a nil source and stays nil |
| Enrichment.EnrichPlainQuery | lib/pg_reports/modules/queries.rb:42-44 | a query without comments is kept as it was, with a nil source |
| Enrichment.EnrichAnnotatedQuery | lib/pg_reports/modules/queries.rb:32-46 | a query the annotator prefixed shows the annotated location as its source and the original statement, stripped, as its query |
| ExplainAnalyzer.FirstNodeType | lib/pg_reports/explain_analyzer.rb:80 | the index found is the first node type, from the given one on, that occurs in the line; none means none occurs |
| ExplainAnalyzer.ExtractNodeType | lib/pg_reports/explain_analyzer.rb:79-81 | the node type is a key of the node table that occurs in the line, and no earlier key does; none exactly when no key occurs |
| ExplainAnalyzer.NodeInfoOf | lib/pg_reports/explain_analyzer.rb:69 | the description found belongs to that node type in the table |
| ExplainAnalyzer.LookupNodeInfo | lib/pg_reports/explain_analyzer.rb:7-26 | a found entry is the table's entry for that name |
| ExplainAnalyzer.BitmapIndexScanIsIndexScan | lib/pg_reports/explain_analyzer.rb:7-26 | because "Index Scan" precedes "Bitmap Index Scan" and is part of it, a bitmap index scan line is classified as an index scan |
| ExplainAnalyzer.GatherMergeIsGather | lib/pg_reports/explain_analyzer.rb:24-25 | because "Gather" precedes "Gather Merge", a gather-merge line is classified as "Gather" |
| ExplainAnalyzer.ExtractMetrics | lib/pg_reports/explain_analyzer.rb:83-125 | start and total cost are read together, exactly when the cost range matches; the estimate is what `rows=` reads and the actual count what the actual-only pattern reads, although the combined pattern overwrites both; start and end time come together |
| ExplainAnalyzer.AnnotateLines | lib/pg_reports/explain_analyzer.rb:60-77 | one entry per line, numbered from 1, carrying the line, its node type, metrics and indentation |
| ExplainAnalyzer.ScanReasons | lib/pg_reports/explain_analyzer.rb:161-181 | the high-cost reason appears exactly when the cost exceeds 1000 and carries it, the many-rows reason exactly when the estimate exceeds 1000 rows, the slow-execution reason exactly when the end time exceeds 100 ms, in that order |
| ExplainAnalyzer.SeqScanAt | lib/pg_reports/explain_analyzer.rb:155-193 | a line is reported exactly when it shows "Seq Scan" and has a reason, with its table name and reasons |
| ExplainAnalyzer.HighCostAt | lib/pg_reports/explain_analyzer.rb:202-218 | a line is reported exactly when its total cost exceeds 10000, with that cost, its node type and its line number |
| ExplainAnalyzer.SortAt | lib/pg_reports/explain_analyzer.rb:222-249 | only sort lines are reported; a spill exactly when the line shows an external sort or "Disk:", else a slow sort exactly when the end time exceeds 1000 ms |
| ExplainAnalyzer.EstimationAt | lib/pg_reports/explain_analyzer.rb:251-279 | a report names the line and both row counts, which must both have been read |
| ExplainAnalyzer.EstimationAtIff | lib/pg_reports/explain_analyzer.rb:254-270 | an estimation error is reported exactly when both counts are read, they are not both below 10, and the larger exceeds ten times the smaller, so 0 against 10 or more is flagged |
| ExplainAnalyzer.LastReading | lib/pg_reports/explain_analyzer.rb:130-136 | a reading comes from some line below the bound; none means no such line has one |
| ExplainAnalyzer.TimesFromIsLast | lib/pg_reports/explain_analyzer.rb:130-136 | the forward loop's overwriting leaves the reading of the last line that has one |
| ExplainAnalyzer.TimesFrom | lib/pg_reports/explain_analyzer.rb:130-136 | a time comes from some line at or after the start, or is the one carried in; with no such line it is the one carried in |
| ExplainAnalyzer.FirstCostLine | lib/pg_reports/explain_analyzer.rb:139 | the first line containing "cost=", if any |
| ExplainAnalyzer.ExtractStats | lib/pg_reports/explain_analyzer.rb:127-150 | planning and execution times come from the last line showing each; total cost and row estimate come from the first line with "cost=", and are absent without one |
| ExplainAnalyzer.TimingProblems | lib/pg_reports/explain_analyzer.rb:282-302 | a slow-query problem exactly when the execution time exceeds 1000 ms and a slow-planning one exactly when the planning time exceeds 100 ms, each carrying its time, slow query first, neither with a line number |
| ExplainAnalyzer.Detect | lib/pg_reports/explain_analyzer.rb:152-279 | every per-line detector reports on the line it was given |
| ExplainAnalyzer.Hits | lib/pg_reports/explain_analyzer.rb:155 | what the detector says about each line, one entry per line |
| ExplainAnalyzer.CollectSpec | lib/pg_reports/explain_analyzer.rb:155-196 | a problem is collected exactly when some line reports it, and the collected problems come in strictly increasing line order |
| ExplainAnalyzer.Collect | lib/pg_reports/explain_analyzer.rb:155-196 | a problem is collected exactly when some line from the start reports it, at most one per line |
| ExplainAnalyzer.HitsNumbered | lib/pg_reports/explain_analyzer.rb:66 | on lines numbered from 1 every hit names its own line |
| ExplainAnalyzer.ScanSpec | lib/pg_reports/explain_analyzer.rb:152-279 | one detector reports exactly what it finds on the individual lines, in strictly increasing line order and within the plan |
| ExplainAnalyzer.SeveritiesPartition | lib/pg_reports/explain_analyzer.rb:306-309 | the critical, warning and info counts add up to the number of problems |
| ExplainAnalyzer.CountPositive | lib/pg_reports/explain_analyzer.rb:307-309 | a severity's count is positive exactly when some problem has it |
| ExplainAnalyzer.Bump | lib/pg_reports/explain_analyzer.rb:328-329 | counting one more problem adds one to the breakdown's total, with at most one new entry |
| ExplainAnalyzer.TallyTotal | lib/pg_reports/explain_analyzer.rb:328-329 | the breakdown's counts add up to the number of problems |
| ExplainAnalyzer.BuildSummary | lib/pg_reports/explain_analyzer.rb:304-330 | the counts partition the problems; the status is "critical" exactly when some problem is critical, "warning" exactly when none is critical but some is a warning, and "good" exactly when all are info |
| ExplainAnalyzer.Analyze | lib/pg_reports/explain_analyzer.rb:30-57 | one annotated entry per line of the output; the problems are those of the detectors in the order `analyze` runs them, and the summary is built from them |
| ExplainAnalyzer.Problems | lib/pg_reports/explain_analyzer.rb:50-57 | the problems are exactly those some detector finds on a line together with the timing problems |
| PlanText.FirstPos | lib/pg_reports/explain_analyzer.rb:87 | the leftmost position from the start where the pattern matches, or none anywhere |
| PlanText.RangeAfter | lib/pg_reports/explain_analyzer.rb:87-90 | a cost or time range is read exactly when the range pattern matches somewhere in the line |
| PlanText.RangeOfPlanText | lib/pg_reports/explain_analyzer.rb:87-90 | on a line where the key is first followed by two decimal numbers joined by "..", those two numbers are read back |
| PlanText.IntAfter | lib/pg_reports/explain_analyzer.rb:93-95 | a count is read exactly when the key followed by a digit occurs |
| PlanText.IntOfPlanText | lib/pg_reports/explain_analyzer.rb:93-95 | on a line where the key is first followed by the digits of `n`, `n` is read back |
| PlanText.EstimatedAndActualRows | lib/pg_reports/explain_analyzer.rb:98-100 | both counts come from a `rows=` that is followed by "actual" and then by another `rows=` |
| PlanText.ActualRowsOnly | lib/pg_reports/explain_analyzer.rb:101-102 | the count comes from a `rows=` that lies past an "actual" |
| PlanText.ActualRowsAgree | lib/pg_reports/explain_analyzer.rb:98-103 | whenever the combined pattern matches, the actual-only pattern reads the same actual count |
| PlanText.TableName | lib/pg_reports/explain_analyzer.rb:332-336 | a name is found exactly when some "on " is followed by a word character; it is the whole word after the first such "on " |
| PlanText.IndentLevel | lib/pg_reports/explain_analyzer.rb:71 | the number of leading spaces, halved and rounded down |

## Left out

- SQL execution: `Executor#execute`, the report modules other than query enrichment, and the COUNT probe of `execute_query` are database round trips. The rows a query returns are an input.
- `connection.quote` is the uninterpreted `quote` parameter of `Executor.QuoteValue`.
- YAML and SQL loading (`ReportLoader`, `SqlLoader`), and the reflection of `ModuleGenerator` (`define_singleton_method`, `const_get`, `public_send`), are left out. Loaded definitions are datatypes, and the modules that resolve are the set `known`.
- `ActiveSupport::Notifications`, `Rails.cache` and the monitor's `Mutex` are left out. The monitor is modelled sequentially, with the cache as two fields of the state record and its availability as a configuration flag. Without a cache, `enabled` always reads false.
- JSON encoding and decoding and file I/O are left out. The log file is `Option<seq<LogLine>>` (None while the file does not exist), and a line is either a parsed entry or malformed.
- `SecureRandom.uuid`, `Time.current` and the `duration_ms` rounding are inputs, and `Rails.logger` output is not modelled.
- The `query_monitor_backtrace_filter` setting is not modelled. Source locations use the built-in application-path test.
- `caller_locations` is an explicit list of frames.
- The thread-local controller and action are the `Context` input of the annotator.
- Rendering, `send_data`, CSV, HTML, `to_markdown` file output, `display` and the Telegram sender are output channels with no logic of their own beyond library escaping.
- I18n lookups are function parameters of `ReportsRegistry.Documentation`. The dashboard's `problem_explanation` helper, a bare I18n lookup, is left out.
- Unicode case folding is not modelled: `downcase` and `upcase` act on ASCII letters only. `String#to_i` does not accept underscores between digits.
- `Float#to_s` is approximated as fixed decimal notation with trailing zeros trimmed, never the exponent form Ruby uses for very large or small values.
- `format("%.2f")` is the `Style.fixed2` parameter, and the Time branch of `format_cell` is left out.
- Ruby distinguishes symbol from string keys. The model has string keys only, so `params[:limit]` and `params["limit"]` are the same lookup.
- The report registry's `all` is the constant `ReportsRegistry.Reports`. Its icons are written as code points.
- `create_migration` does not write the file. `Rails.root` is left out, and whether the migrations directory exists is the input `dirExists`.
- Dashboard.AddLimitIdempotent: stated for limits of 0 or more. A negative limit appends " LIMIT -n", which the `\d+` check does not recognise, so a second call appends again.
- SchemaAnalysis.CheckUniqueness: the validator's scope is compared as a multiset of column names, which is what comparing the two sorted lists decides. Ruby compares symbols, so a scope written as strings never matches there. The suggestion's `inspect` prints the scope that way, as strings. The model does not distinguish symbols from strings.
- SchemaAnalysis.ParseArray: elements are strings. The database column is taken to be text or NULL.
- SchemaAnalysis.RowsFor: `find_model_for_table` (a constant lookup over loaded models) is a function parameter. The row is decided by the corrected check `CheckUniqueness`, not by the check as written (`CheckUniquenessAsWritten`, see Findings). For a composite index whose model has only the scoped validator on the first column, the source reports a missing validation and the model does not.
- SchemaAnalysis.MissingRows: built on `RowsFor`, so it uses the corrected check as well.
- SchemaAnalysis.MissingValidations: built on `MissingRows`, so it uses the corrected check as well.
- QueryAnnotator.FindSourceLocation: the file is the corrected `RelativePath`, not `RelativePathAsWritten` (see Findings). A frame in a sibling directory whose name extends the root's, such as "/srv/app2/app/a.rb" under "/srv/app", is reported by its base name, where the source keeps the whole path.
- ModuleGenerator.ReportMethod: promises agreement with `generate_report` only for definitions without filters. In Ruby the YAML defaults have string keys (report_definition.rb:9, module_generator.rb:31), so `params[:limit]` and `params[key.to_sym]` never see the merged defaults. A param-sourced filter whose parameter the caller omits therefore reads nil in Ruby (filter.rb:41), while the string-keyed model reads the declared default.
- ReportsRegistry.ConfigOf: every threshold level is an exact `real`, so the Integer level 100 and the Float 100.0 are not told apart. An absent `inverted` key and `inverted: false` are the same in the model; Ruby keeps them apart.
- Text.Expand: the named back-reference `\k<name>` is not interpreted; it is kept as written, like any other escaped character.
- Values.StrToF: `String#to_f` is exact: the value is the decimal number written, not its rounding to a double. Underscores between digits are not accepted, and there is no "Infinity" or "NaN" reading, which Ruby does not give `to_f` either.
- Configuration is constants only. `max_queries`, `log_file` and `annotate_queries` are parameters of the model.

## Findings

| source | as written | input that shows it | evidently intended | confidence | as-written member | corrected member |
|---|---|---|---|---|---|---|
| lib/pg_reports/query_annotator.rb:74-75 | the path is checked with `start_with?(Rails.root)` and then `"#{root}/"` is removed; a path in a sibling directory whose name merely extends the root's matches the test but not the removal, so it is kept whole | path "/srv/app2/app/a.rb" with root "/srv/app" is annotated as "/srv/app2/app/a.rb" | paths outside the root fall back to their base name, "a.rb" | not executed | QueryAnnotator.RelativePathAsWritten, QueryAnnotator.SiblingDirectoryKeptWhole | QueryAnnotator.RelativePath, QueryAnnotator.RelativePathAgrees |
| lib/pg_reports/modules/schema_analysis.rb:113-122 | for a composite index every column, the scope columns included, must have a uniqueness validator of its own before the scoped validator is looked for | a unique index on (user_id, email) with only a uniqueness validator on user_id scoped to email, the validator the report itself suggests (printed as `validates :user_id, uniqueness: { scope: ["email"] }`), is still reported as missing | a validator on the first column whose scope is the remaining columns covers the index | not executed | SchemaAnalysis.CheckUniquenessAsWritten, SchemaAnalysis.SuggestionRejectedAsWritten | SchemaAnalysis.CheckUniqueness, SchemaAnalysis.SuggestionAccepted, SchemaAnalysis.FollowingSuggestionClears |
