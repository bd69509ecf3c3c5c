# Autonomous SQL Data Agent: the query pipeline in Dafny

This project models the query pipeline of the Autonomous SQL Data Agent. A question in natural language becomes an SQL statement. The statement is vetted by a keyword deny-list, executed, and repaired by the model when it fails. The result table then gets a chart chosen from its shape.

The Gemini model and the database are parameters of the model: functions supplied by the caller.

| file | module | models |
|---|---|---|
| `Text.dfy` | `Text` | the Python string built-ins the pipeline relies on: `upper`, `strip`, `in`/`find`, `split(sep)[1]`, `replace(pat, "")`, `join`, integer formatting |
| `Tables.dfy` | `Wrappers`, `Tables` | `None`; a pandas DataFrame seen as its column kinds, column names and row count; `df.empty` |
| `Executor.dfy` | `Executor` | `sql_executor.py`: the deny-list gate `is_safe_sql` and the outcome shaping of `execute_sql` |
| `SqlGenerator.dfy` | `SqlGenerator` | `core/sql_generator.py`: schema text rendering, reply clean-up, and the empty-string fallback of `generate_sql` |
| `SmartAgent.dfy` | `SmartAgent` | `core/smart_agent.py`: the generate / execute / repair loop `process_question_with_retry` |
| `Charts.dfy` | `Charts` | `app.py`: the chart choice `auto_visualize` |

The imperative parts of the source are methods with loops: the deny-list walk, the schema line builder and the retry loop. Each method is proved equal to a specification function, and the properties are lemmas about that function.

The retry loop returns its answer together with the attempts it made. Each attempt is a real value: the request sent (fresh, or a repair with the previous statement and error), the statement, and the executor's outcome. That trace makes the call-count and ordering properties statable.

## Model

| member | source | states |
|---|---|---|
| Text.Upper | sql_executor.py:12 | `str.upper` keeps the length and each position, and leaves no lower-case ASCII letter in the result |
| Text.UpperIdempotent | sql_executor.py:12 | upper-casing an upper-cased text changes nothing |
| Text.Find | sql_executor.py:21 | the result is -1 or the position of an occurrence, and no earlier position holds one; -1 means no occurrence at all |
| Text.Contains | sql_executor.py:21 | `keyword in text`, defined as a successful `find`; its meaning is stated by `Text.ContainsIff` |
| Text.ContainsIff | sql_executor.py:21 | `keyword in text` holds exactly when the keyword occurs at some position |
| Text.SplitSecond | sql_executor.py:58 | `split(sep)[1]` never contains `sep` |
| Text.IsSpace | core/sql_generator.py:76 | the characters `str.isspace` accepts: the ASCII white space and separators 9-13 and 28-32, and the Unicode spaces U+0085, U+00A0, U+1680, U+2000-U+200A, U+2028, U+2029, U+202F, U+205F and U+3000 |
| Text.Strip | core/sql_generator.py:76 | `strip()` returns a contiguous slice of its input that has no white space at either end |
| Text.StripDropsOnlySpace | core/sql_generator.py:76 | what `strip()` drops at either end is white space |
| Text.StripStripped | core/sql_generator.py:79 | stripping text without white space at its ends changes nothing |
| Text.OccursInStrip | core/sql_generator.py:79 | stripping never creates a substring that was not there |
| Text.RemoveAll | core/sql_generator.py:79 | `replace(pat, "")` deletes occurrences scanning left to right, never lengthening the text; its content properties are `Text.RemoveAllAbsent`, `SqlGenerator.NoFenceAfterRemoval` and `SqlGenerator.RemoveAllSkipsPlain` |
| Text.RemoveAllAbsent | core/sql_generator.py:79 | `replace(pat, "")` on text without `pat` returns the text unchanged |
| Text.Join | core/sql_generator.py:28-31 | `sep.join(parts)` gives "" for no parts and the part itself for one part; longer lists are laid out by `Text.JoinAppend` |
| Text.JoinAppend | core/sql_generator.py:28-31 | joining one more part appends exactly one separator and that part |
| Text.IntToString | core/smart_agent.py:45 | `f"{n}"` is non-empty, starts with a minus sign exactly for negative `n`, and holds only decimal digits after that |
| Text.NatToStringValue | core/smart_agent.py:45 | the decimal digits of a natural number denote that number |
| Text.IntToStringValue | core/smart_agent.py:45 | `f"{n}"` gives `n` back: its digits denote `n`, or `-n` after the sign |
| Text.IntToStringInjective | core/smart_agent.py:45 | different integers have different texts |
| Executor.Permitted | sql_executor.py:12-25 | the gate's verdict: no deny-list keyword is `in` the upper-cased query; stated with positions by `Executor.PermittedIff` |
| Tables.IsEmpty | sql_executor.py:48 | `df.empty`: no rows or no columns |
| Executor.IsSafeSql | sql_executor.py:6-25 | the loop answers false exactly when some deny-list keyword occurs in the upper-cased query, and true otherwise |
| Executor.PermittedIff | sql_executor.py:12-25 | the gate passes a query iff none of the six keywords occurs at any position of its upper-cased text |
| Executor.GateIgnoresCase | sql_executor.py:12-21 | any spelling of a keyword, in any case and at any position, makes the gate reject |
| Executor.GateRejectsLeadingKeyword | sql_executor.py:12-23 | a query that starts with any spelling of a keyword is rejected |
| Executor.GateAcceptsSelectExample | sql_executor.py:65 | "SELECT * FROM machines LIMIT 2" passes the gate |
| Executor.GateRejectsDropExample | sql_executor.py:72 | "DROP TABLE technicians" is rejected |
| Executor.GateRejectsLowerCaseDrop | sql_executor.py:12-23 | "drop table technicians" gets the same verdict as its upper-case spelling: rejected |
| Executor.GateAcceptsSplitDrop | sql_executor.py:15-21 | the match is on the literal keyword: "DROP\nTABLE technicians", split by a line break, passes |
| Executor.GateAcceptsTabbedUpdate | sql_executor.py:15-21 | "update\tmachines ...", with a tab where the keyword has a space, passes |
| Executor.GateRejectsSpacedUpdate | sql_executor.py:15-23 | any query starting "update " with the space is rejected, whatever follows |
| Executor.NormaliseError | sql_executor.py:53-59 | a text holding the SQLite marker becomes "SQL Error: " followed by text that no longer holds the marker |
| Executor.ExecuteSql | sql_executor.py:27-59 | a table is returned only for a query the gate passed, only the table the read produced, and never an empty one |
| Executor.RejectedNeverReadsDatabase | sql_executor.py:35-36 | a rejected query gets the fixed rejection string whatever the database would do, so the read is never consulted |
| Executor.PermittedOutcomes | sql_executor.py:41-59 | for a permitted query: a non-empty table comes back as is, an empty one gives the no-data string, and an exception gives its normalised text |
| Executor.SplitOnMarker | sql_executor.py:57-58 | splitting on "(sqlite3.OperationalError)" and taking `[1]` gives the text between the first marker and the next one, or the end |
| Executor.SqliteErrorShape | sql_executor.py:55-58 | an exception text holding the SQLite marker becomes "SQL Error: " plus the stripped text between the first marker and the next one (or the end) |
| Executor.MarkerSplitParts | sql_executor.py:57-58 | every text holding the marker is the marker-free text before the first marker, the marker, a marker-free segment, and nothing or the next marker with what follows |
| Executor.MarkerTextSplits | sql_executor.py:55-58 | so every exception text holding the marker becomes "SQL Error: " plus its stripped segment |
| Executor.SystemErrorShape | sql_executor.py:53-59 | any other exception text becomes "System Error: " plus the text verbatim |
| SqlGenerator.ColumnsLine | core/sql_generator.py:26-28 | "Columns: " followed by the "name (TYPE)" descriptions joined with ", "; its order is stated by `SqlGenerator.ColumnsLineOrder` |
| SqlGenerator.SchemaLines | core/sql_generator.py:21-29 | the lines appended table by table; their shape is stated by `SqlGenerator.SchemaLinesShape` |
| SqlGenerator.SchemaText | core/sql_generator.py:31 | the lines joined with "\n"; the text is laid out by `SqlGenerator.SchemaTextSingle` and `SqlGenerator.SchemaTextAppend` |
| SqlGenerator.SchemaTextSingle | core/sql_generator.py:23-31 | one table gives "Table: name", a line break, its columns line, a line break, and an empty last line |
| SqlGenerator.SchemaTextAppend | core/sql_generator.py:23-31 | each further table adds a line break, "Table: name", a line break, its columns line and a line break to the text before it |
| SqlGenerator.SchemaLinesShape | core/sql_generator.py:23-29 | every table gives exactly three lines in inspector order: "Table: name", its columns line, and an empty line |
| SqlGenerator.ColumnsLineOrder | core/sql_generator.py:26-28 | the columns line lists one "name (TYPE)" description per column (`SqlGenerator.ColumnDescriptions`), in declared order, separated by ", " |
| SqlGenerator.GetSchemaString | core/sql_generator.py:16-31 | the loop's result is the three-lines-per-table list joined with "\n"; no tables give the empty string |
| SqlGenerator.CleanSql | core/sql_generator.py:76-79 | the cleaned statement has no white space at either end and contains no "```" |
| SqlGenerator.NoFenceAfterRemoval | core/sql_generator.py:79 | deleting every "```" leaves none behind, even where a deletion brings backticks together |
| SqlGenerator.CleanSqlFixes | core/sql_generator.py:76-79 | text that is already stripped and fence-free is returned unchanged |
| SqlGenerator.CleanSqlIdempotent | core/sql_generator.py:76-79 | cleaning a cleaned statement changes nothing |
| SqlGenerator.RemoveAllSkipsPlain | core/sql_generator.py:79 | deleting a pattern that opens with a backtick leaves a backtick-free prefix in place |
| SqlGenerator.CleanSqlPlain | core/sql_generator.py:76-79 | a reply without backticks is only stripped: its statement survives whole |
| SqlGenerator.NoSqlFenceBeforeClosing | core/sql_generator.py:79 | "```sql" cannot occur in a statement free of "```" followed by the closing fence |
| SqlGenerator.ClosingFenceRemoved | core/sql_generator.py:79 | deleting "```" from a statement free of "```" plus the closing fence gives the statement back, even when it ends in backticks |
| SqlGenerator.FencedReply | core/sql_generator.py:78-79 | a statement wrapped in "```sql" ... "```" comes out as the statement, stripped, for every statement holding no "```" of its own (single backticks quoting names included) |
| SqlGenerator.CleanSqlKeepsPlainText | core/sql_generator.py:76-79 | a reply with no backtick and no surrounding white space is returned as is |
| SqlGenerator.GenerateSql | core/sql_generator.py:72-85 | an exception from the model call gives ""; a reply gives its cleaned text, which is stripped and fence-free |
| SmartAgent.ExhaustedMessage | core/smart_agent.py:45 | the message after the last attempt; what it carries is stated by `SmartAgent.ExhaustedMessageDetermines` |
| SmartAgent.ExhaustedMessageDetermines | core/smart_agent.py:45 | the exhaustion message gives back both `max_retries` and the last error: different values never give the same message |
| SmartAgent.SessionFrom | core/smart_agent.py:14-45 | the loop from a given attempt on, as a definition; its properties are the `SessionFrom*` lemmas |
| SmartAgent.Session | core/smart_agent.py:6-45 | the whole loop for one question, starting from attempt 1 with empty statement and error |
| SmartAgent.EmptyStep | core/smart_agent.py:26-27 | an attempt whose generation is empty ends the run with "Không thể tạo câu lệnh SQL." and executes nothing |
| SmartAgent.FoundStep | core/smart_agent.py:30-37 | an attempt whose statement gives a table ends the run with that table and that statement |
| SmartAgent.FailedStep | core/smart_agent.py:30-42 | an attempt whose statement gives a string is followed by the run whose next repair sees that statement and that string |
| SmartAgent.ExhaustedStep | core/smart_agent.py:45 | past the budget the run ends with the exhaustion message carrying the last error |
| SmartAgent.ProcessQuestionWithRetry | core/smart_agent.py:6-45 | the loop (with its generation step `SmartAgent.Generate`: generator on attempt 1, fixer afterwards) returns the answer and attempts of the specification `Session` |
| SmartAgent.Budget | core/smart_agent.py:14 | the number of attempts `range(1, max_retries + 1)` allows: `max_retries`, or 0 when it is negative |
| SmartAgent.SessionFromBound | core/smart_agent.py:14-24 | from any attempt on, no more attempts than the budget left, and the first one makes that attempt's request |
| SmartAgent.SessionFromFaithful | core/smart_agent.py:18-30 | every recorded attempt is what the generator, fixer and executor give |
| SmartAgent.SessionFromChained | core/smart_agent.py:21-24 | every attempt but the last failed, and each repair sees the previous statement and error |
| SmartAgent.SessionFromConcludes | core/smart_agent.py:26-45 | the answer follows from the last attempt; a failure on the last attempt means the budget was used up |
| SmartAgent.SessionShape | core/smart_agent.py:14-45 | at most `max_retries` attempts; attempt 1 is fresh; attempt k+1 repairs attempt k's statement with attempt k's error; every attempt matches the collaborators; every attempt but the last failed; the answer follows from the last attempt |
| SmartAgent.ExecutionsCount | core/smart_agent.py:18-30 | when every attempt but the last was executed, executions plus one for an abandoned last attempt equal the attempts |
| SmartAgent.CallCounts | core/smart_agent.py:14-30 | generator plus fixer calls equal executor calls, plus one only when the loop ended on an empty statement; both stay within `max_retries` |
| SmartAgent.NoBudgetNoCalls | core/smart_agent.py:14 | with `max_retries <= 0`, nothing is generated or executed and the exhaustion message has an empty last error |
| SmartAgent.FoundIsFirstSuccess | core/smart_agent.py:33-37 | a table is returned only from the last attempt, with the statement that produced it; every earlier attempt failed |
| SmartAgent.ExhaustionCarriesLastError | core/smart_agent.py:38-45 | when the last attempt failed, exactly `max_retries` attempts were made, all failed, and the message embeds the last error |
| SmartAgent.EmptyGenerationStops | core/smart_agent.py:26-27 | an empty statement can only be the last attempt and ends the loop with "Không thể tạo câu lệnh SQL." |
| SmartAgent.WithGateAndExecutor | core/smart_agent.py:30-42 | with the executor of `sql_executor.py`: a rejected statement fails with the rejection string and that string is what the next repair sees; an empty table counts as a failure; a returned table passed the gate and is not empty |
| Charts.AutoVisualize | app.py:56-66 | the chart choice as a definition; it is characterised by `Charts.BarChoice`, `Charts.LineChoice` and `Charts.NoChartIff` |
| Charts.NamesOfKind | app.py:58-60 | the names of one kind are empty exactly when no column has that kind |
| Charts.FirstNameOfKind | app.py:58-60 | the first name of a kind is that of the leftmost column of the kind |
| Charts.BarChoice | app.py:62-63 | two or more rows with a categorical and a numeric column give a bar of the first numeric against the first categorical, titled "<num> by <cat>", whatever date columns there are |
| Charts.LineChoice | app.py:64-65 | without a categorical column, two or more rows with a date and a numeric column give a line of the first numeric against the first date, titled "Trend over Time" |
| Charts.NoChartIff | app.py:57-66 | no chart exactly when the table is empty, has fewer than two rows, lacks a numeric column, or lacks both categorical and date columns |
| Charts.SameKindsSameFirsts | app.py:58-60 | columns with the same kinds in order have the same kinds present and the same leftmost column of each kind |
| Charts.SameSignatureSameChoice | app.py:56-66 | equal row counts and kind signatures (`Charts.Kinds`, the column kinds in order) give the same kind of chart from the same column positions |

## Left out

- The Gemini call and the prompt text (`core/sql_generator.py:14`, 42-74). The model is a function from the schema text and the question to a reply or an exception.
- `fix_sql_query` is not part of this model. It is a function parameter of the retry loop.
- The SQLAlchemy engine, the schema inspector and `pd.read_sql` (`sql_executor.py:39-45`, `core/sql_generator.py:20-24`). The inspector becomes a list of tables with their columns. The read becomes a function giving a table or an exception text.
- `init_db()` runs outside the `try` in both `execute_sql` and `generate_sql`, so a failure there would propagate as an exception. Configuration and connections are not modelled.
- Cell values of a DataFrame. A table is its column names, column kinds and row count, which is all the pipeline inspects.
- SmartAgent.ProcessQuestionWithRetry: the `final_sql` tag the loop writes into `result.attrs` is carried as `Found.finalSql`, not as a change to the table.
- Text.Upper: only ASCII letters are mapped. Python's full Unicode mapping is not modelled. Under that mapping 'ı' becomes 'I' and 'ſ' becomes 'S', so Python also rejects spellings such as "ınsert ınto", which the model lets through. It also maps 'ß' to "SS", which changes the length.
- SmartAgent.ProcessQuestionWithRetry: `not current_sql` is modelled for the empty string only. A fixer returning `None` is outside the model, since the fixer is a function to strings.
- The Streamlit user interface, chat history, CSV upload and download button in `app.py`, and the plot styling arguments (`template`, `color`).
- `core/forecaster.py`, `core/database.py`, `models.py`, `scripts/` and `main.py`: regression on floating point, schema declarations, seeding with random data, and interactive scripts.
- Console output (`print`) throughout.
- The `engine` argument and the default `max_retries=3` of `process_question_with_retry` (`core/smart_agent.py:6`, 20, 24, 30). The engine is only passed through to the collaborators, which are parameters of the model. The budget is always given explicitly.
- No special case for a forecast or history marker column, since `auto_visualize` has none.
- In this version, an empty query result is a message string, not a table. Inside the retry loop it therefore counts as a failure and triggers a repair. The model follows the code.
