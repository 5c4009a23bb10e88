# SainsburysParser: a Dafny model of `process_output`

The parser reads a CSV of records. Each record has one integer column per
weekday (`mon` … `fri`), or one column per range of weekdays (`mon-thu`,
`montuewed`), plus a `description` and any number of other columns. It
turns each record into one dictionary per weekday:

- the day;
- the value;
- the square of the value on Monday to Wednesday, or else its double;
- the description with that number appended.

This project models the four pure stages of `SainsburysParser.process_output`
and proves what each stage promises:

1. **Normaliser** (`_lower_case_df_col_names`, module `Normaliser`). It
   lower-cases every column name in place.
2. **Range expander** (`parse_df_dates`, module `Expander`). It visits the
   column names as they were on entry. A name that contains more than one
   weekday token is copied to every weekday of the canonical span from the
   first matched token to the last. The range column is then dropped.
   Assigning to an existing name overwrites it, so for each weekday the last
   range column in column order that writes it wins.
3. **Reshaper** (`_parse_df_values`, module `Reshaper`). It stacks the
   present weekday columns record-major and merges them back to the
   description on the row index. It then derives `square`, `double`,
   `is_square` and the numbered description, and projects to six columns.
4. **Selector** (`to_dict('records')` and `_keep_square_or_double`, module
   `Selector`). Each row becomes a dictionary. The unused number and the
   flag are then deleted.

Supporting modules:

- `Results`: `Option` and `Result`.
- `Strings`:
  - ASCII lower-casing;
  - the substring test `day in col`;
  - decimal formatting of integers (`astype(str)`).
- `Days`: the `weekdays` constant and the first/last-match slice.
- `Tables`: a data frame as an ordered sequence of named columns. Its
  operations are `df[name]`, `df[name] = cells` (overwrite in place, or
  append) and `df.drop(name, axis=1)`. `View` gives its order-free contents
  as a map.

`Pipeline` composes the stages. The `*_examples` modules replay the
repository's unit tests as lemmas.

Errors are values, not exceptions:

- `Reshaper.Error` covers two cases:
  - `MissingDescription`: the KeyError on `mod_df['description']`.
  - `DescriptionNotText(record)`: the TypeError of adding `' '` to a
    non-text description.
- `Selector.KeyError` covers a missing key: the read `row['is_square']`, or
  a `del` of `double`, `square` or `is_square`.

Each operation has an independent partner definition and a lemma
connecting the two:

| Operation | Partner | Lemma |
|---|---|---|
| Range expander | `Expected`, the last-writer map (`LastWriter`) | `ParseDatesMeetsExpected` |
| Reshaper | `DerivedRow`, the derivation rule | `ParseValuesAt` |
| Merge | `Annotated`, each entry joined to its own record's description | `JoinsAnnotated` |
| Selector | the tagged union `OutputRow` with `Square \| Double` | `KeepSquareOrDoubleOfRows` |
| Normaliser | case-insensitive equality `EqualIgnoringCase` | `LowerCaseNamesIgnoresCase` |
| Decimal formatting | a parser (`ParseInt`) | `ParseIntToString` |

## Model

| member | source | states |
|---|---|---|
| Strings.Lower | Parser/parser.py:28 | `str.lower` on ASCII: same length, lower case throughout, each character lower-cased in place |
| Strings.LowerIdempotent | Parser/parser.py:28 | lower-casing twice equals lower-casing once |
| Strings.LowerEqualIffEqualIgnoringCase | Parser/parser.py:28 | two names lower-case to the same name exactly when they differ only in letter case |
| Strings.LowerUnique | Parser/parser.py:28 | the lower-case form is the only lower-case name equal to the input up to case |
| Strings.ContainsIffOccurs | Parser/parser.py:37 | the left-to-right search behind `day in col` succeeds exactly when the token occurs at some position of the name |
| Strings.MissingCharacter | Parser/parser.py:37 | a token with a letter the name lacks is not in the name |
| Strings.ParseIntToString | Parser/parser.py:77 | `astype(str)` of an integer reads back as that integer: sign and digits lose nothing |
| Strings.IntToStringInjective | Parser/parser.py:77 | different description numbers print differently |
| Days.Token | Parser/parser.py:9 | each weekday's token is recognised as exactly that weekday |
| Days.DayNamed | Parser/parser.py:9 | a name is a weekday exactly when it is one of the five tokens `mon` … `fri` |
| Days.DayNamedToken | Parser/parser.py:9 | reading a name as a weekday and printing it back gives the name; a non-weekday is no token |
| Days.Position | Parser/parser.py:9 | the canonical order of `weekdays`: each weekday sits at its position |
| Days.Matches | Parser/parser.py:36-37 | `day in col` for each weekday, in canonical order: one flag per weekday. The contract gives only the length; `Strings.ContainsIffOccurs` and `Days.SpanMembership` describe the flags |
| Days.IsRange | Parser/parser.py:38 | a range column has more than one weekday token. It is a predicate with no contract; `Days.TokenIsNotRange`, `Days.RangeIsNotToken` and `Days.NoTokenNoRange` describe it |
| Days.FirstTrue | Parser/parser.py:39 | `list.index(True)`: a True position with no True before it |
| Days.SliceEndIsPastLastTrue | Parser/parser.py:40-41 | `len - flags[::-1].index(True)` is one past the last True position, with no True after it |
| Days.SliceEnd | Parser/parser.py:40-41 | `len - flags[::-1].index(True)`. It has no contract of its own; `Days.SliceEndIsPastLastTrue` states its value |
| Days.Span | Parser/parser.py:39-43 | `weekdays[first:last]` for a range column. It has no contract of its own; `Days.SpanOrdered`, `Days.SpanMembership` and `Days.SpanCoversMatches` state its contents |
| Days.SliceBounds | Parser/parser.py:39-43 | for a range name the slice start is below the end, the end is at most 5, and every matched token lies inside the slice |
| Days.SpanOrdered | Parser/parser.py:43 | the expanded days are in canonical order, each once |
| Days.SpanMembership | Parser/parser.py:36-43 | a weekday is expanded exactly when some matched token is at or before it and some matched token at or after it |
| Days.SpanCoversMatches | Parser/parser.py:36-43 | the span has at least two days and contains every weekday whose token the name contains |
| Days.NoDayLetters | Parser/parser.py:36-38 | a name missing a letter of each token is neither a weekday nor a range |
| Days.TokenContainsOnlyItself | Parser/parser.py:37 | a weekday token contains another weekday's token only when they are the same weekday |
| Days.TokenIsNotRange | Parser/parser.py:38 | a plain weekday column matches exactly one token, so it is never expanded |
| Days.NoTokenNoRange | Parser/parser.py:36-38 | a name with no weekday token is neither a weekday nor a range |
| Days.RangeIsNotToken | Parser/parser.py:38 | a range column's name is no weekday's name |
| Days.SpanMonThu | Parser/parser.py:36-43 | `mon-thu` is a range expanding to mon, tue, wed, thu, including the two days it does not name |
| Days.SpanMonTueWed | tests/test_Parser.py:40 | `montuewed` is a range expanding to mon, tue, wed |
| Days.SpanMonTue | tests/test_Parser.py:37-38 | `mon-tue` and `montue` are both ranges expanding to mon, tue |
| Days.SpanThuFri | tests/test_Parser.py:37 | `thu-fri` is a range expanding to thu, fri |
| Tables.IndexOf | Parser/parser.py:46 | column lookup finds the first column with the name |
| Tables.Get | Parser/parser.py:46 | `df[name]`: the cells of the column with that name. It has no contract of its own; `Tables.GetLength` and `Tables.AssignView` describe it |
| Tables.GetLength | Parser/parser.py:46 | a column of a well-formed frame has one cell per record |
| Tables.Assign | Parser/parser.py:46 | `df[day] = cells` adds the name if new and keeps every other name |
| Tables.AssignView | Parser/parser.py:46 | the frame's contents after `df[day] = cells` are the old contents with `day` mapped to the cells, overwriting any old column |
| Tables.Drop | Parser/parser.py:47 | `df.drop(col, axis=1)` keeps every other name |
| Tables.DropView | Parser/parser.py:47 | the frame's contents after the drop are the old contents without `col` |
| Tables.ViewUnique | Parser/parser.py:35 | a well-formed frame's contents are determined by its columns |
| Normaliser.LowerCaseNames | Parser/parser.py:26-29 | same column count, order and cells; each name is lower case and equal to the old one up to case |
| Normaliser.LowerCaseNamesIdempotent | Parser/parser.py:26-29 | normalising twice equals normalising once |
| Normaliser.LowerCaseNamesOfLowerCase | Parser/parser.py:26-29 | a frame with lower-case names is left alone |
| Normaliser.LowerCaseNamesIgnoresCase | Parser/parser.py:26-29 | frames whose names differ only in case normalise to the same frame |
| Normaliser.LowerCaseNamesExample | tests/test_Parser.py:29-32 | `HelLO`, `HeySaiNsBurYz` become `hello`, `heysainsburyz` |
| Expander.AssignDays | Parser/parser.py:45-46 | `for day in indiv_days: df[day] = df[col]`. The contract keeps the record count and every existing name; `Expander.AssignDaysView` states the contents |
| Expander.ExpandColumn | Parser/parser.py:36-47 | one turn of the loop. The contract keeps the record count and every other name; `Expander.ExpandColumnView` states the contents |
| Expander.ExpandEach | Parser/parser.py:35-47 | the loop over the names as they were on entry. The contract keeps the record count; `Expander.ExpandEachMeetsExpected` states the result |
| Expander.ParseDates | Parser/parser.py:32-48 | `parse_df_dates`. The contract keeps the record count; `Expander.ParseDatesMeetsExpected` states the result |
| Expander.AssignDaysView | Parser/parser.py:45-46 | after the copies every span day maps to the range's cells, and all else is unchanged |
| Expander.TokensOf | Parser/parser.py:45 | the names written by a span are exactly its days' tokens |
| Expander.ExpandColumnView | Parser/parser.py:36-47 | a turn on a range column adds its span's days with its cells and removes it; a turn on any other column changes nothing |
| Expander.LastWriter | Parser/parser.py:45-46 | the reference for overwrites: the last range column in column order whose span holds the day, or none |
| Expander.OnlyWriter | Parser/parser.py:45-46 | when exactly one name writes a weekday, it is that weekday's last writer |
| Expander.ExpectedAtWritten | Parser/parser.py:45-46 | in the reference contents a written weekday holds its last writer's cells |
| Expander.ExpectedAtUnwritten | Parser/parser.py:38-47 | in the reference contents a name no range writes is kept exactly when it is present and not a range |
| Expander.ExpectedStep | Parser/parser.py:35-47 | visiting the first name and expecting the rest gives the reference for all names |
| Expander.ExpandEachMeetsExpected | Parser/parser.py:35-47 | the loop over the entry-time names produces exactly the reference contents |
| Expander.ParseDatesMeetsExpected | Parser/parser.py:32-48 | `parse_df_dates` produces exactly the reference contents: every written weekday holds its last writer's cells, ranges are gone, all else kept |
| Expander.ParseDatesWithoutRanges | Parser/parser.py:38 | a frame without range columns comes back unchanged |
| Expander.RangeColumnExpanded | Parser/parser.py:38-47 | a range column is removed, and every day of its span exists; the days it last writes hold its cells |
| Expander.OtherColumnKept | Parser/parser.py:38 | a non-range column survives; it keeps its cells unless it is a weekday some range writes, when it holds the last writer's cells |
| Expander.NoRangeColumnLeft | Parser/parser.py:32-48 | no range column remains, and every output column was an input column or is a weekday some range writes |
| ExpanderExamples.AssignNewDays | Parser/parser.py:45-46 | copying to days with no column yet appends their columns in span order |
| ExpanderExamples.DropAt | Parser/parser.py:47 | dropping removes exactly that column, keeping the others in order |
| ExpanderExamples.ExpandNewRange | Parser/parser.py:36-47 | a range whose days are all new: its column goes and its days are appended at the end |
| ExpanderExamples.ExpandEachStep | Parser/parser.py:35 | the loop is one turn followed by the loop over the remaining entry-time names |
| ExpanderExamples.ExampleFirstTurn | tests/test_Parser.py:49-56 | the `mon-tue` turn leaves `wed`, `thu-fri`, `mon`, `tue` |
| ExpanderExamples.ExampleMiddleTurn | tests/test_Parser.py:49-56 | the `wed` turn changes nothing |
| ExpanderExamples.ExampleLastTurn | tests/test_Parser.py:49-56 | the `thu-fri` turn leaves `wed`, `mon`, `tue`, `thu`, `fri` |
| ExpanderExamples.ParseDatesExample | tests/test_Parser.py:49-56 | `{mon-tue: x, wed: y, thu-fri: z}` becomes `wed: y, mon: x, tue: x, thu: z, fri: z` in this column order |
| ExpanderExamples.DayCovered | Parser/parser.py:35-47 | a weekday gets a column when the frame has it, or has a range that spans it |
| ExpanderExamples.DashedRangesCoverWeek | tests/test_Parser.py:35-46 | `{mon-tue, wed, thu-fri}` ends with all five weekday columns |
| ExpanderExamples.JoinedRangeCoversWeek | tests/test_Parser.py:35-46 | `{montue, wed, thu-fri}` ends with all five weekday columns |
| ExpanderExamples.WideRangeCoversWeek | tests/test_Parser.py:35-46 | `{mon-thu, fri}` ends with all five weekday columns |
| ExpanderExamples.ThreeDayRangeCoversWeek | tests/test_Parser.py:35-46 | `{montuewed, thu, fri}` ends with all five weekday columns |
| Reshaper.PresentFrom | Parser/parser.py:61 | from a position on, the weekdays present as columns, in canonical order |
| Reshaper.PresentDays | Parser/parser.py:61 | `days`: exactly the weekdays with a column, in canonical order, each once |
| Reshaper.Stack | Parser/parser.py:62 | `df[days].stack()`, one record's entries after another. It has no contract of its own; `Reshaper.StackLength`, `Reshaper.StackAt` and `Reshaper.StackFromStart` state its length and entries |
| Reshaper.MetaFrom | Parser/parser.py:66 | `df_without_days.reset_index()`: one row per record with its index and description. It has no contract of its own; `Reshaper.MergeStack` uses it |
| Reshaper.JoinOne | Parser/parser.py:67 | the part of the inner merge for one left row. It has no contract of its own; `Reshaper.JoinOneAppend`, `Reshaper.JoinOneSameRecord` and `Reshaper.JoinOneStack` state its result |
| Reshaper.Merge | Parser/parser.py:67 | `pd.merge(..., on='index')`, left row by left row. It has no contract of its own; `Reshaper.MergeStack` and `Reshaper.JoinsAnnotated` state its result |
| Reshaper.ParseValues | Parser/parser.py:51-80 | `_parse_df_values`. It has no contract of its own; `Reshaper.ParseValuesMissingDescription`, `Reshaper.ParseValuesSucceeds`, `Reshaper.ParseValuesFailure`, `Reshaper.ParseValuesCount` and `Reshaper.ParseValuesAt` state its result |
| Reshaper.StackRecord | Parser/parser.py:62 | one record's stacked entries: one per present weekday in order, holding its cell |
| Reshaper.StackLength | Parser/parser.py:62 | `stack()` yields `|days|` entries per record |
| Reshaper.StackAt | Parser/parser.py:62 | record-major order: entry `(i - from) * |days| + k` is record `i` on `days[k]` |
| Reshaper.StackFromStart | Parser/parser.py:62 | the series has `records * |days|` entries, and entry `i * |days| + k` is record `i` on `days[k]` |
| Reshaper.StackRecordsFrom | Parser/parser.py:62 | entries from record `from` on name records from `from` on |
| Reshaper.WithDescription | Parser/parser.py:67 | each entry joined to one description, in order |
| Reshaper.Annotated | Parser/parser.py:66-67 | the reference for the merge: each entry joined to its own record's description |
| Reshaper.JoinOneAppend | Parser/parser.py:67 | joining one left row distributes over concatenated right rows |
| Reshaper.JoinOneSameRecord | Parser/parser.py:67 | a left row joins all entries of its own record and none of another |
| Reshaper.JoinOneStack | Parser/parser.py:67 | a left row joins exactly its record's stacked entries |
| Reshaper.MergeStack | Parser/parser.py:66-67 | merging the records from `from` on with the series gives the reference merge of the series from `from` on |
| Reshaper.JoinsAnnotated | Parser/parser.py:62-67 | `pd.merge(..., on='index')` equals the reference: every stacked entry, in order, joined to its own description, none lost or repeated |
| Reshaper.JoinsIndex | Parser/parser.py:62-67 | merged row `j` is stacked entry `j` with its record's description |
| Reshaper.JoinsAt | Parser/parser.py:62-67 | merged row `i * |days| + k` is record `i`'s description with its cell on `days[k]` |
| Reshaper.JoinsRow | Parser/parser.py:62-67 | merged row `j` belongs to record `j / |days|` |
| Reshaper.Derive | Parser/parser.py:69-77 | a joined row derives unless its description is not text, and keeps its day and value |
| Reshaper.DeriveAll | Parser/parser.py:69-77 | all rows derive, in order, or the first failing row's error is reported |
| Reshaper.DeriveRow | Parser/parser.py:69-77 | a row with a text description obeys the derivation rule: square, double, flag, numbered description |
| Reshaper.DerivedRowIs | Parser/parser.py:69-79 | the derivation rule fixes the projected row once the number and text are known |
| Reshaper.ParseValuesMissingDescription | Parser/parser.py:77 | the stage fails for a missing description exactly when the frame has no `description` column |
| Reshaper.ParseValuesSucceeds | Parser/parser.py:77 | with a description column, the stage succeeds exactly when no weekday is present or every description is text |
| Reshaper.ParseValuesFailure | Parser/parser.py:77 | a failure names the first record whose description is not text |
| Reshaper.ParseValuesRow | Parser/parser.py:69-77 | on success, reshaped row `j` is merged row `j` with its columns derived |
| Reshaper.ParseValuesCount | Parser/parser.py:61-67 | the reshaped frame has `records * |days|` rows |
| Reshaper.ParseValuesAt | Parser/parser.py:61-79 | row `i * |days| + k` is record `i` on `days[k]`, derived by the rule from its description and value |
| ReshaperExamples.PresentFromAll | Parser/parser.py:61 | when every weekday has a column, the present days are the whole week |
| ReshaperExamples.ValuesExampleSucceeds | tests/test_Parser.py:59-64 | the test frame reshapes without error, with all five days present |
| ReshaperExamples.RowCount | tests/test_Parser.py:59-64 | two records and five days give ten rows |
| ReshaperExamples.FirstRecordRow | Parser/parser.py:61-79 | in a frame with all five days, row `k` is record 0 on `Week[k]`, derived by the rule |
| ReshaperExamples.MondayRule | tests/test_Parser.py:65-71 | the rule on `mon: 3` gives description `first_desc 9`, square 9, double 6, flag true |
| ReshaperExamples.ThursdayRule | tests/test_Parser.py:73-79 | the rule on `thu: 6` gives description `first_desc 12`, square 36, double 12, flag false |
| ReshaperExamples.MondayRow | tests/test_Parser.py:65-71 | row 0 is record 0 on Monday, as the test expects |
| ReshaperExamples.ThursdayRow | tests/test_Parser.py:73-79 | row 3 is record 0 on Thursday, as the test expects |
| ReshaperExamples.ParseValuesExample | tests/test_Parser.py:59-79 | the test frame gives ten rows with rows 0 and 3 as the test expects |
| Selector.KeepOne | Parser/parser.py:85-89 | one turn succeeds exactly when the flag and the discarded number are present. It then leaves exactly the other keys with their values; otherwise it names the missing key |
| Selector.KeepFrom | Parser/parser.py:84-90 | the loop succeeds exactly when every turn does, keeping the row count; otherwise the first failing row is reported |
| Selector.KeepFromAt | Parser/parser.py:84-90 | each output row is its own input row's turn, in input order |
| Selector.KeepSquareOrDouble | Parser/parser.py:83-90 | success exactly when every row's turn succeeds: same count and order, each row its turn's result; otherwise the first failing row and its missing key |
| Selector.ToRecord | Parser/parser.py:98 | one reshaped row as a dictionary with exactly the six projected keys |
| Selector.ToRecords | Parser/parser.py:98 | one dictionary per row, in row order |
| Selector.Select | Parser/parser.py:85-88 | the tagged output keeps day, description and value, with `Square(square)` when flagged and `Double(double)` otherwise |
| Selector.OutputRecord | Parser/parser.py:85-89 | an output dictionary has keys day, description, value and exactly one of square and double |
| Selector.KeepOneOfRow | Parser/parser.py:84-89 | one turn on a reshaped row's dictionary gives the tagged union's dictionary |
| Selector.KeepSquareOrDoubleOfRows | Parser/parser.py:83-90 | the selection never fails on reshaped rows and gives the tagged union of each row, in order |
| Selector.OutputRecordKeys | Parser/parser.py:83-90 | every output row has day, description and value, exactly one of square and double, and no `is_square` |
| Selector.KeepWednesdayExample | tests/test_Parser.py:84-100 | the flagged `wed` record keeps `square` and loses `double` and the flag |
| Selector.KeepThursdayExample | tests/test_Parser.py:90-104 | the unflagged `thu` record keeps `double` and loses `square` and the flag |
| Selector.KeepSquareOrDoubleExample | tests/test_Parser.py:82-107 | the test's two records come back as the test expects |
| Pipeline.NumericAfterDatesIff | Parser/parser.py:45-46 | after expansion every weekday column holds integers exactly when, for each weekday, its last writing range column holds integers, or, with no writer, its own column does if it has one |
| Pipeline.NumericColumn | Parser/parser.py:69-70 | when every weekday and range column holds integers, any one of them does |
| Pipeline.NumericAfterDates | Parser/parser.py:45-46 | a simpler sufficient condition: if every input weekday and range column holds integers, so does every weekday column after expansion |
| Pipeline.DescriptionIsNoDay | Parser/parser.py:36-38 | `description` is neither a weekday nor a range, so expansion keeps it |
| Pipeline.Dated | Parser/parser.py:95-96 | the frame the reshaper gets is well formed, has integer weekday columns and keeps the records |
| Pipeline.ProcessOutput | Parser/parser.py:93-100 | `process_output` fails exactly when the reshaping fails, and then with that error; the selection never fails |
| Pipeline.ProcessOutputRows | Parser/parser.py:93-100 | the output is the reshaped frame row by row, in order, each row its tagged union's dictionary |
| Pipeline.ProcessOutputFailures | Parser/parser.py:93-100 | it fails on a missing description exactly when no input column lower-cases to `description`; otherwise it succeeds exactly when no weekday is present or all descriptions are text |
| Pipeline.ProcessOutputAt | Parser/parser.py:93-100 | output `i * |days| + k` is record `i` on `days[k]`: day, value, square on Monday to Wednesday or double otherwise, description plus one space and that number |
| PipelineExamples.SomeColumnIsNoDay | Parser/parser.py:36-38 | `some_column1` is neither a weekday nor a range |
| PipelineExamples.ValuesExampleDated | Parser/parser.py:95-96 | the reshaping test's frame is admissible and passes the first two stages unchanged |
| PipelineExamples.MondayRecord | Parser/parser.py:85-89 | reshaped Monday row becomes `{day: mon, description: first_desc 9, square: 9, value: 3}` |
| PipelineExamples.ThursdayRecord | Parser/parser.py:85-89 | reshaped Thursday row becomes `{day: thu, description: first_desc 12, double: 12, value: 6}` |
| PipelineExamples.TestFrameRecords | Parser/parser.py:93-100 | when reshaped rows 0 and 3 are those `test_parse_df_values` expects, outputs 0 and 3 are the two dictionaries above |
| PipelineExamples.OverwrittenDayColumn | Parser/parser.py:45-47 | `{mon: ['x'], mon-tue: [1], description: ['d']}` is admissible: its text `mon` column is overwritten by `mon-tue` before it is read |
| PipelineExamples.ProcessOutputExample | tests/test_Parser.py:59-79 | the reshaping test's frame through the whole pipeline: ten outputs, 0 and 3 being the Monday and Thursday dictionaries |

## Left out

- `load_csv`, `display`, the constructor and the `__main__` driver
  (Parser/parser.py:11-23, 102-121, and `__main__.py`). These are file and
  console I/O. The model starts from an already-read frame and returns the
  list.
- Lower-casing is ASCII only. Python's `str.lower` also folds non-ASCII
  letters.
- Pipeline.Admissible covers two things:
  - Column names must be distinct after lower-casing. pandas allows
    duplicate labels, and `df[col]` then yields a frame, not a column.
  - After range expansion, every weekday column must hold integers. These
    are the only columns `** 2` and `* 2` (Parser/parser.py:69-70) read.
    With a string, float or NaN there, pandas raises or changes the dtype.
    A non-integer column that a later range overwrites before the reshaping
    is admitted. `Pipeline.NumericAfterDatesIff` states exactly which input
    columns that condition concerns.

  Both are preconditions, not error paths.
- Missing cells: `stack()` drops NaN, and NaN promotes the column to float,
  so `astype(str)` would print `9.0`. The model has no missing values.
- Integers are unbounded. pandas' int64 `** 2` wraps around for values
  beyond about 3·10⁹; the model does not.
- Only `description` is carried through the merge. Other metadata columns
  are joined and then removed by the projection at Parser/parser.py:79.
  A column literally named `index`, `day` or `value` would clash with
  `reset_index` or the stacked columns; that clash is not modelled.
- Reshaper.ParseValues covers two pandas details:
  - A non-text description fails per row (`DescriptionNotText`). pandas
    decides by the column's dtype, so an all-integer description column
    fails even when no weekday is present, where the model returns no
    rows.
  - With no weekday columns the model returns an empty list: a frame
    without weekday columns is not an error. The exact shape pandas gives an
    empty `stack()` is not modelled.
- Dictionary key order is not modelled: output records are maps.
- `_keep_square_or_double` mutates the list in place. The model returns a
  new list, so changes to the records before a failing row are not
  visible.
- `parse_df_dates` assigns into the caller's frame before its first `drop`.
  That mutation of the argument is not modelled; only the returned frame
  is.
- The values are Python integers in the model. numpy's integer and boolean
  scalar types and their truth values (`if row['is_square']`) are modelled
  by `Selector.Truthy` on three field kinds only.
