# Tutoring ledger: the record store and its console layout helpers

This project models the core of a small tutoring ledger. Each lesson a tutor gives is a
`TeachingRecord`: student, date, duration, hourly rate, income, topic, homework,
performance score and notes. The records live in one CSV file. A `DatabaseManager`
does the following with that file:

- creates the file, or migrates an old one to the current header with its derived
  `month` column;
- appends records, with the income recomputed from duration and rate;
- reads rows back leniently, with per-field defaults, and filters them by name, id,
  topic and month;
- lists the students;
- looks a student's id up by name;
- adds up income, hours and lessons, both overall and per month.

The console front end measures text in screen cells, where wide characters take two.
With that width it pads the cells of its plain tables and sizes their columns. It also
maps a performance score to an emoji and counts each student's lessons.

How the model represents the system:

- The file is a value: `Missing`, `Empty`, or a `Table` made of a header and a sequence
  of rows. Each row maps a column name to its cell text, as `csv.DictReader` yields it.
  `DatabaseManager` is a class whose one field is that file. Its methods scan or rewrite
  the file as the source does, and each is proved against a specification function in
  `Store`.
- Amounts are integer cents and hours are integer hundredths of an hour. Python's
  `round(x, 2)` on floats becomes round-half-up division on exact integers
  (`Numbers.RoundDiv`).
- `int()`, `float()` and `strptime('%Y-%m-%d')` become small parsers that return an
  `Option`. `safe_convert` substitutes the default when they return `None`.
- The clock (`datetime.now().date()`, used as the default date) is a parameter named
  `today`.

Modules:

- `Wrappers`: `Option`.
- `Text`: ASCII strip and lower-casing, substring, and string ordering.
- `Numbers`: digits, integer and two-decimal formatting and parsing, rounding.
- `Dates`: calendar dates, ISO form, the `YYYY-MM` key and date parsing.
- `Models`: the record.
- `Rows`: one CSV row. This covers month derivation, lenient conversion, the row
  `add_record` writes and the migration of one row.
- `Store`: the file and the specification functions of every query and summary.
- `Sorting`: `sorted()` of a set.
- `Database`: the `DatabaseManager` class.
- `Layout`: the console helpers.

Two properties of the summaries are worth knowing, and the model states both as the code
computes them:

- One might expect the monthly totals to add up to `get_financial_summary`'s. They do
  not: the monthly summary skips rows with no month (database_manager.py:258-260), while
  the overall summary counts every row (database_manager.py:236).
  `Store.MonthlyReconciles` proves the exact relation: the months' sums plus the
  month-less rows' sum equal the total.
- The code rounds each month's hours and income separately. `Store.HoursNeedNotReconcile`
  gives two one-minute lessons in different months: each month shows 0.02 hours, yet the
  overall total shows 0.03.

The two name lookups also follow the code:

- `get_student_id_by_name` returns the first matching row, ignoring case.
- `get_all_student_names_ids` keeps the last id written for each exact name.

`Store.FirstMatchAndLastWriteDiffer` proves that the two lookups can disagree.

## Model

| member | source | states |
|---|---|---|
| Dates.DaysInMonth | English/database_manager.py:123 | a month that `strptime` accepts has between 28 and 31 days |
| Dates.IsoFormat | English/database_manager.py:100 | `date.isoformat()` is always ten characters long |
| Dates.YearMonth | English/database_manager.py:27 | `strftime('%Y-%m')` is always seven characters long |
| Dates.YearMonthStartsIsoFormat | English/database_manager.py:27 | a date's month key is the first seven characters of its ISO form |
| Dates.ParseDate | English/database_manager.py:123 | a text that parses as `%Y-%m-%d` is 8 to 10 characters long |
| Dates.ParseIsoFormat | English/database_manager.py:100 | parsing the ISO form `add_record` writes gives back the same date |
| Dates.ParseFixedWidth | English/database_manager.py:123 | four year digits, two month digits and two day digits separated by `-` parse to exactly those numbers when they form a real date, and fail otherwise |
| Rows.DatePart | English/database_manager.py:33 | `date_value[:10]` is a prefix of the text, at most ten characters long |
| Rows.DeriveMonth | English/database_manager.py:23-39 | `_derive_month_str`: a text shorter than 7 characters gives ""; a text whose first ten characters parse as a date gives that date's `YYYY-MM`; any other text gives its first seven characters |
| Rows.DeriveMonthOfIsoDate | English/database_manager.py:26-27 | deriving the month of a date's ISO text gives that date's `strftime('%Y-%m')`, which is also the text's first seven characters |
| Rows.DeriveMonthIdempotent | English/database_manager.py:28-36 | a derived month key derives to itself |
| Rows.RowMonth | English/database_manager.py:153 | defines a row's month as the stored `month` cell when it is non-empty and otherwise the month derived from its `date` cell; `Rows.CoerceRecordRow` and `Rows.CoerceMigrateRow` state what it gives for written and migrated rows |
| Rows.CalculateIncome | English/database_manager.py:84-88 | the income is minutes/60 × rate, rounded to the nearest cent, with halves rounded up |
| Rows.CalculateIncomeExample | English/database_manager.py:84-88 | 90 minutes at 20.00 an hour earn exactly 30.00 |
| Rows.SafeInt | English/database_manager.py:115-119 | `safe_convert(v, int, d)` gives the integer `v` spells, or `d` when `v` spells none |
| Rows.SafeCents | English/database_manager.py:120-121 | `safe_convert(v, float, d)` gives the amount `v` spells, or `d` when `v` spells none |
| Rows.SafeDate | English/database_manager.py:122-123 | `safe_convert(v, date, d)` gives the date `v` spells, or `d` when `v` spells none |
| Rows.CoerceEmptyRow | English/database_manager.py:149-164 | a row with no readable field still converts, to the defaults: today, 0 minutes, rate 0, income 0, score 5, empty texts |
| Rows.CoerceRow | English/database_manager.py:149-164 | defines the lenient conversion of one row, each field by `safe_convert` with the source's default; `Rows.CoerceEmptyRow`, `Rows.CoerceRecordRow` and `Rows.CoerceMigrateRow` state its results |
| Rows.RecordRow | English/database_manager.py:97-110 | defines the row `add_record` writes; `Rows.RecordRowTexts` and `Rows.RecordRowValues` state its cells and `Rows.CoerceRecordRow` that it reads back as the record |
| Rows.RecordRowTexts | English/database_manager.py:97-110 | the row `add_record` writes holds the record's name, id, topic, homework, notes and plan |
| Rows.RecordRowValues | English/database_manager.py:97-110 | the written row holds the ISO date, the derived month and the spelled-out minutes, rate, income and score |
| Rows.CoerceRecordRow | English/database_manager.py:90-164 | a row written by `add_record` reads back, through `query_records`' conversion, as the same record with its date's month |
| Rows.MigrateRow | English/database_manager.py:64-80 | a migrated row has exactly the canonical columns |
| Rows.MigrateRowColumns | English/database_manager.py:64-80 | a migrated row keeps each canonical column's old value, or "" when it was missing, and its month is derived from its date |
| Rows.EmptyTextParsesToNothing | English/database_manager.py:115-127 | an empty cell is no integer, no amount and no date, so it reads as the default |
| Rows.FilledColumnReadsAlike | English/database_manager.py:149-161 | a column that holds the old value, or "" where the column was missing, reads leniently as the old column did |
| Rows.MigrateRowTexts | English/database_manager.py:64-80 | after migration every text column reads as before |
| Rows.MigrateRowNumbers | English/database_manager.py:64-80 | after migration every number column reads leniently as before, defaults included |
| Rows.CoerceMigrateRow | English/database_manager.py:60-80 | a row without a stored month converts to the same record before and after migration |
| Numbers.DigitChar | English/database_manager.py:102-104 | the digit written for a value reads back as that value |
| Numbers.NatDigits | English/database_manager.py:102 | a natural number is spelled with at least one digit and only digits |
| Numbers.NatDigitsValue | English/database_manager.py:102 | the digits spelled for a natural number read back as that number |
| Numbers.IntToString | English/database_manager.py:102 | defines `str(n)` of an integer, a `-` before the digits of a negative one; `Numbers.ParseIntToString` proves `int()` reads it back |
| Numbers.ParseInt | English/database_manager.py:118-119 | defines `int(s)` on text, `None` for what `int()` rejects; `Numbers.ParseIntToString` and `Rows.EmptyTextParsesToNothing` state its results |
| Numbers.SignedSplits | English/database_manager.py:118-121 | a sign followed by a text that begins and ends with a digit strips to itself and splits back into that sign and text |
| Numbers.SeparatorSpoilsNumber | English/database_manager.py:115-121 | a minutes cell `\x1c90` is no integer and a rate cell `\x1f20` is no amount, so `safe_convert` falls back to the default |
| Numbers.ZeroPad | English/main.py:49 | a zero-padded fraction has exactly the requested number of digits |
| Numbers.ZeroPadValue | English/main.py:49 | a zero-padded fraction reads back as its value |
| Numbers.ParseIntToString | English/database_manager.py:102 | `int(str(n)) == n`: a written minute count or score is read back unchanged |
| Numbers.RoundDiv | English/database_manager.py:88 | `round(n/d)` is within half a unit of n/d, with halves rounded up |
| Numbers.RoundDivExact | English/database_manager.py:88 | rounding an exact quotient returns it unchanged |
| Numbers.IndexOf | English/database_manager.py:120-121 | finds the first occurrence of a character, or reports that there is none |
| Numbers.SplitDecimal | English/database_manager.py:120-121 | both parts of a decimal number are all digits |
| Numbers.SplitDecimalOf | English/database_manager.py:120-121 | a written amount splits at its point into its whole and fraction digits |
| Numbers.ParseCents | English/database_manager.py:120-121 | defines `float(s)` of an amount, rounded to cents, `None` for what `float()` rejects; `Numbers.ParseFormatCents` and `Numbers.ParseFormatFixed2` prove it reads back what is written |
| Numbers.ParseCentsOf | English/database_manager.py:120-121 | a text that splits into a sign, whole digits, a point and fraction digits reads as those digits scaled to cents, with that sign |
| Numbers.CentDigits | English/database_manager.py:103-104 | the fraction of `repr` of an amount has one or two digits |
| Numbers.CentDigitsValue | English/database_manager.py:103-104 | the fraction digits read back as the cents, with one digit meaning tens of cents |
| Numbers.FormatCents | English/database_manager.py:103-104 | defines `str(x)` of an amount of whole cents, such as `30.0` or `33.33`; `Numbers.FormatCentsSign` states its shape and `Numbers.ParseFormatCents` that `float()` reads it back |
| Numbers.FormatCentsSign | English/database_manager.py:103-104 | a written amount is its sign followed by `whole.fraction` |
| Numbers.DigitsValueAppendShort | English/database_manager.py:120-121 | appending one or two digits scales the value and adds theirs |
| Numbers.DigitsValueAppendDigit | English/database_manager.py:120-121 | appending one digit multiplies the value by ten and adds the digit |
| Numbers.DigitsValueAppendOne | English/database_manager.py:120-121 | appending a one-digit fraction multiplies the value by ten and adds the fraction |
| Numbers.DigitsValueAppendTwo | English/database_manager.py:120-121 | appending a two-digit fraction multiplies the value by a hundred and adds the fraction |
| Numbers.DecimalDigitsValue | English/database_manager.py:120-121 | whole digits worth the whole units of an amount and fraction digits worth its cents read, rounded to cents, as that amount |
| Numbers.SignedDecimalSplits | English/database_manager.py:120-121 | a signed `whole.fraction` strips to itself and splits into its sign and `whole.fraction` |
| Numbers.DecimalReadsBack | English/database_manager.py:120-121 | a signed `whole.fraction` whose digits round to an amount reads back as that amount with its sign |
| Numbers.CentsFromDigits | English/database_manager.py:120-121 | reading `whole.fraction` back and rounding to cents gives the original cents |
| Numbers.ParseFormatCents | English/database_manager.py:103-104 | `float(str(x)) == x` for every amount in cents: a written rate or income is read back unchanged |
| Numbers.FormatFixed2 | English/main.py:49 | `f"{x:.2f}"` has a point followed by exactly two digits |
| Numbers.FormatFixed2Sign | English/main.py:49 | `f"{x:.2f}"` is its sign followed by `whole.two-digit fraction` |
| Numbers.ParseFormatFixed2 | English/main.py:49 | the two decimals of the monthly table lose nothing: reading them back gives the hours or income printed |
| Text.LeadingSpaces | English/database_manager.py:207 | the leading run of whitespace of the given kind, and nothing beyond it |
| Text.TrailingStart | English/database_manager.py:207 | where the trailing run of whitespace of the given kind starts |
| Text.Strip | English/database_manager.py:207-208 | `str.strip()` is no longer than its input and neither starts nor ends with whitespace |
| Text.StripBlanks | English/database_manager.py:207-208 | a strip is no longer than its input and neither starts nor ends with whitespace of its kind |
| Text.StripIsSlice | English/database_manager.py:207-208 | a strip, of either kind of whitespace, removes only that whitespace, and only from the two ends |
| Text.StripKeeps | English/database_manager.py:207-208 | a text with no surrounding whitespace of a kind is stripped of that kind to itself |
| Text.SeparatorIsNoNumberBlank | English/database_manager.py:118-121 | `str.strip()` removes the separator 0x1C before a digit, while the whitespace `int()` and `float()` skip does not include it |
| Text.StripIdempotent | English/database_manager.py:290-291 | stripping twice is stripping once, for either kind of whitespace |
| Text.Lower | English/database_manager.py:168-172 | `str.lower()` keeps the length and lower-cases every character |
| Text.IsSubstringIff | English/database_manager.py:168-173 | `p in s` holds exactly when `p` occurs at some position of `s` |
| Text.SubstringOccurs | English/database_manager.py:168-173 | when `p in s` holds, the model finds a position of `s` where `p` occurs |
| Text.OccursInSubstring | English/database_manager.py:168-173 | when `p` occurs at some position of `s`, `p in s` holds |
| Text.StrLtIrreflexive | English/database_manager.py:280 | the string order that `sorted` uses is irreflexive |
| Text.StrLtTransitive | English/database_manager.py:280 | the string order is transitive |
| Text.StrLtTotal | English/database_manager.py:280 | any two different strings are ordered |
| Text.StrLtAsymmetric | English/database_manager.py:280 | the string order is asymmetric |
| Text.PairLtIrreflexive | English/database_manager.py:214 | the tuple order is irreflexive |
| Text.PairLtTransitive | English/database_manager.py:214 | the tuple order is transitive |
| Text.PairLtTotal | English/database_manager.py:214 | any two different `(name, id)` pairs are ordered |
| Sorting.LeastExists | English/database_manager.py:280 | every non-empty set of strings has exactly one least member |
| Sorting.SortStrings | English/database_manager.py:280 | `sorted(set)` is strictly ascending, holds exactly the set's members and has the set's size |
| Sorting.LeastPairExists | English/database_manager.py:214 | every non-empty set of pairs has exactly one least member |
| Sorting.SortPairs | English/database_manager.py:214 | `sorted(students)` is strictly ascending by name, then by id, holds exactly the set's members and has the set's size |
| Store.MigrateRows | English/database_manager.py:64-80 | migration rewrites every row, keeps their number and keeps their order |
| Store.Migrated | English/database_manager.py:41-80 | defines the file after `_ensure_schema`: an empty file gets the header, a header without `month` gets the canonical header and migrated rows, any other file is unchanged; `Store.MigratedIdempotent`, `Store.MigrationKeepsRows` and `Store.MigrationKeepsQueries` state its results |
| Store.Initialized | English/database_manager.py:14-21 | after construction the file exists and its header has `month` |
| Store.MigratedIdempotent | English/database_manager.py:56-58 | once the header has `month`, the schema check changes nothing, so migration runs at most once |
| Store.MigrationKeepsRows | English/database_manager.py:60-80 | migrating an old file gives the canonical header; row i holds old row i's columns and the month derived from its date |
| Store.MigrationKeepsQueries | English/database_manager.py:60-153 | migrating a file whose rows had no month leaves the answer to every query unchanged |
| Store.Records | English/database_manager.py:146-164 | every data row is converted, one record per row, in file order |
| Store.QueryOfNoRows | English/database_manager.py:134-144 | a missing or empty file, or one with only a header, answers every query with nothing |
| Store.Selects | English/database_manager.py:166-179 | defines the filter test: name and topic contained ignoring case, id equal, month non-empty and starting with the filter, each only when given; `Store.FilterIsOrderedSubsequence` and `Store.FilterNothing` state its use |
| Store.Filter | English/database_manager.py:166-185 | defines the records that pass the filters, in order; `Store.FilterAppend` and `Store.FilterIsOrderedSubsequence` state what it keeps |
| Store.Query | English/database_manager.py:129-194 | defines `query_records` on a file; `Store.QueryOfNoRows`, `Store.QueryKeepsEveryRow`, `Store.QueryAppend` and `Store.QueryAfterAppend` state its answers |
| Store.FilterAppend | English/database_manager.py:166-185 | one more record adds itself to the answer exactly when it passes the filters |
| Store.FilterIsOrderedSubsequence | English/database_manager.py:146-185 | the answer is exactly the records that pass all given filters, in file order |
| Store.FilterNothing | English/database_manager.py:166-179 | with no filters every record passes |
| Store.QueryKeepsEveryRow | English/database_manager.py:146-189 | lenient conversion drops no row: an unfiltered query returns one record per row, in order |
| Store.RecordsAppend | English/database_manager.py:95-110 | appending a row appends its record to the converted rows |
| Store.QueryAppend | English/database_manager.py:95-185 | after appending a row, a query answers as before, plus that row's record when it passes |
| Store.QueryAfterAppend | English/database_manager.py:90-194 | after `add_record`, a query answers as before, plus the record with its recomputed income and its date's month when it passes |
| Store.StudentOfIsClean | English/database_manager.py:207-210 | a listed student has a non-empty name and id without surrounding whitespace |
| Store.StudentOf | English/database_manager.py:207-210 | defines a row's student: the stripped name and id when both are non-empty; `Store.StudentOfIsClean` and `Store.StudentRow` state its results |
| Store.NameMatches | English/database_manager.py:290-292 | defines the name test of `get_student_id_by_name`: stripped row name equal to the name, ignoring case |
| Store.IdAt | English/database_manager.py:290-293 | defines the stripped id of a row, which `Database.DatabaseManager.GetStudentIdByName` returns for the first matching row |
| Store.IndexOfKey | English/database_manager.py:310 | finds the position of a key in an insertion-ordered dict, or reports that it is absent |
| Store.IndexOfKeyUnique | English/database_manager.py:310 | with distinct keys, a key's position is the one that holds it |
| Store.PutLookup | English/database_manager.py:310 | `d[k] = v` keeps keys distinct, maps `k` to `v` and leaves every other key alone |
| Store.Put | English/database_manager.py:310 | defines `d[k] = v` on an insertion-ordered dict; `Store.PutLookup` states its effect |
| Store.Students | English/database_manager.py:206-210 | one optional `(name, id)` per row, in file order |
| Store.InsertLastWins | English/database_manager.py:306-310 | the name-to-id dict has one entry per name, holding the id of the last row for that name |
| Store.Insert | English/database_manager.py:306-310 | defines the dict built row by row; `Store.InsertLastWins` and `Store.InsertTwo` state its contents |
| Store.NameIds | English/database_manager.py:298-313 | defines `get_all_student_names_ids` on the rows; `Store.NameIdsLastWins` states its contents |
| Store.LastId | English/database_manager.py:306-310 | defines the id of the last row naming a student, the reference `Store.InsertLastWins` compares the dict against |
| Store.NameIdsLastWins | English/database_manager.py:298-313 | `get_all_student_names_ids` maps every name to the id of its last row |
| Store.StudentRow | English/database_manager.py:307-309 | a row whose name and id are already trimmed yields exactly that pair |
| Store.InsertTwo | English/database_manager.py:310 | two ids for one name leave one entry, which holds the second id |
| Store.FirstMatchAndLastWriteDiffer | English/database_manager.py:282-313 | for two rows with one name and two ids, the id lookup finds the first id while the dict holds the second |
| Store.Entries | English/database_manager.py:232-236 | one summary entry per row, in file order |
| Store.LessonsCountRows | English/database_manager.py:236 | every row counts as one lesson, however unreadable its other fields |
| Store.Total | English/database_manager.py:232-236 | defines a measure (lessons, minutes or income) summed over every row; `Store.LessonsCountRows` and `Store.MonthlyReconciles` state its relation to the rows and the months |
| Store.Financial | English/database_manager.py:216-246 | defines `get_financial_summary`: the summed income, the rounded hours and the lesson count; `Database.DatabaseManager.GetFinancialSummary` is proved against it |
| Store.Hours | English/database_manager.py:235-244 | the hours are minutes/60, rounded to hundredths, with halves rounded up |
| Store.MonthsOfAppend | English/database_manager.py:258-264 | one more row lists its month only when that month is non-empty |
| Store.MonthsOfHaveLessons | English/database_manager.py:258-271 | a non-empty month is listed exactly when it has at least one lesson; an unlisted month has no minutes and no income |
| Store.SumMonthsOfNothing | English/database_manager.py:250 | with no rows every month sums to nothing |
| Store.MonthTotal | English/database_manager.py:258-271 | defines a measure summed over the rows of one month; `Store.MonthTotalAppend` and `Store.MonthsOfHaveLessons` state its behaviour |
| Store.MonthsOf | English/database_manager.py:258-264 | defines the months the monthly summary lists, every non-empty row month; `Store.MonthsOfAppend` and `Store.MonthsOfHaveLessons` state which months those are |
| Store.MonthOf | English/database_manager.py:269-279 | defines one month's entry: its lessons, its rounded hours and its income |
| Store.MonthTotalAppend | English/database_manager.py:269-271 | one more row adds to its own month's totals only |
| Store.SumMonthsAppend | English/database_manager.py:269-271 | one more row adds to the months' sum exactly when its month is listed |
| Store.MonthlyReconciles | English/database_manager.py:216-280 | before rounding, the listed months' sums plus the sum of the month-less rows equal the overall total, for lessons, minutes and income |
| Store.HoursNeedNotReconcile | English/database_manager.py:235-278 | two one-minute lessons in two months show 0.02 hours per month, yet 0.03 hours overall |
| Store.RowsWithMonth | English/database_manager.py:258-260 | the number of rows with a month is at most the number of rows |
| Store.MonthlessAndMonthRows | English/database_manager.py:258-260 | every row either has no month or is counted among the rows with a month |
| Store.Keys | English/database_manager.py:280 | the month column of the summary, in order |
| Store.SummaryLessonsAreMonthTotals | English/database_manager.py:269 | the lessons of the summary add up to the sum of the listed months' lessons |
| Store.MonthlyLessonsCountMonthRows | English/database_manager.py:248-280 | the lessons of a complete monthly summary add up to the number of rows that have a month |
| Database.DatabaseManager.constructor | English/database_manager.py:14-21 | the store opens with the file created or migrated, and its header has `month` |
| Database.DatabaseManager.EnsureSchema | English/database_manager.py:41-82 | `_ensure_schema`: an empty file gets the header; a header without `month` has all its rows migrated; otherwise nothing changes |
| Database.DatabaseManager.AddRecord | English/database_manager.py:90-113 | appends exactly the written row of the record with its income recomputed, keeps the header, and returns that record |
| Database.DatabaseManager.QueryRecords | English/database_manager.py:129-194 | the records of the rows that pass the filters, converted leniently and in file order |
| Database.DatabaseManager.GetAllStudents | English/database_manager.py:196-214 | strictly ascending, and a pair is listed exactly when some row names it |
| Database.DatabaseManager.GetFinancialSummary | English/database_manager.py:216-246 | the summed income, the rounded hours and a lesson count equal to the number of rows |
| Database.DatabaseManager.GetMonthlySummary | English/database_manager.py:248-280 | one entry per month that has a row, in ascending order, each holding that month's lessons and rounded hours and income; the lessons add up to the rows with a month |
| Database.DatabaseManager.GetStudentIdByName | English/database_manager.py:282-296 | `None` exactly when no row's stripped name equals the name, ignoring case; otherwise the stripped id of the first such row |
| Database.DatabaseManager.GetAllStudentNamesIds | English/database_manager.py:298-313 | a dict with distinct names, each holding the id of the last row that names it |
| Database.MonthlyTable | English/database_manager.py:276-280 | the rounded per-month totals as a list ascending by month, covering every listed month |
| Database.MonthlySums | English/database_manager.py:256-271 | the accumulated totals: a month has an entry exactly when some row has it, holding its lessons, minutes and cents |
| Database.MonthlyStep | English/database_manager.py:263-271 | one loop step adds the row to its own month's totals only |
| Database.FilterRecords | English/database_manager.py:146-185 | the loop of `query_records`: exactly the records that pass the filters, in file order |
| Database.CollectStudents | English/database_manager.py:203-210 | the loop of `get_all_students`: a pair is collected exactly when some row names it |
| Layout.WidthBounds | English/main.py:14-18 | a text is at least as wide as it is long and at most twice as wide |
| Layout.WidthAppend | English/main.py:14-18 | the widths of two texts add up when they are concatenated |
| Layout.VisualLen | English/main.py:14-18 | `_visual_len` counts two for each wide character and one for any other |
| Layout.IsWide | English/main.py:17 | defines the characters counted as wide, a fixed table of East Asian wide and fullwidth ranges |
| Layout.CharWidth | English/main.py:17 | defines a character's cells, two when wide and one otherwise |
| Layout.Width | English/main.py:14-18 | defines a text's width as the sum of its characters' cells; `Layout.WidthBounds` and `Layout.WidthAppend` state its bounds and additivity |
| Layout.Spaces | English/main.py:23 | `' ' * n` is n spaces |
| Layout.SpacesWidth | English/main.py:23 | n spaces are n cells wide |
| Layout.PadRight | English/main.py:20-23 | `_pad_right` extends the text with spaces only, to exactly the larger of the requested width and its own width |
| Layout.EmojiBands | English/main.py:65-74 | the star is for scores of 9 and up, the thumb for 7-8, the neutral face for 5-6 and the arm for the rest |
| Layout.EmojiMonotone | English/main.py:65-74 | a higher score never gets a lower band |
| Layout.PerformanceEmoji | English/main.py:65-74 | defines the emoji of a score; `Layout.EmojiBands` and `Layout.EmojiMonotone` state its bands and their order |
| Layout.ColumnMaxIsMaximum | English/main.py:31-36 | a column's width is at least that of its header and of every cell, and equals one of them |
| Layout.ColumnMax | English/main.py:31-36 | defines a column's width as the widest of its header and cells; `Layout.ColumnMaxIsMaximum` proves it is their maximum |
| Layout.ColumnWidths | English/main.py:31-56 | the width loops give each column the largest width among its header and its cells |
| Layout.StudentLines | English/main.py:26-28 | one four-column line per student |
| Layout.MonthlyLines | English/main.py:47-49 | one four-column line per month |
| Layout.StudentTableWidths | English/main.py:25-36 | each column of the students table is as wide as its widest text |
| Layout.MonthlyTableWidths | English/main.py:45-56 | each column of the monthly table is as wide as its widest text |
| Layout.CountNamed | English/main.py:261-264 | no name has more lessons than there are records |
| Layout.CountNamedPositive | English/main.py:261-264 | a name has a count exactly when some record carries it |
| Layout.LessonCounts | English/main.py:261-264 | each name's count is the number of records that carry it, and only names that occur are counted |

## Left out

- File I/O, `os.path` checks and CSV quoting: the file is a value, and the cells are already split into rows of column → text.
- A file deleted after construction is not modelled. `Database.DatabaseManager.AddRecord` requires the store's invariant that the file exists with the current header.
- Every `print`, every `except` that prints and carries on, and a row whose conversion raises are left out. With these parsers, conversion never raises.
- Rows with more cells than the header (DictReader's `None` key) and missing trailing cells (`None` values) are not modelled. A missing cell is an absent column.
- `Rows.CalculateIncome`: amounts are exact cents rounded half up. Float arithmetic and the round-half-even of `round()` on binary fractions are not modelled.
- `Store.Hours`: the hours are rounded from exact minutes, not from the sum of float quotients.
- `Database.DatabaseManager.GetFinancialSummary`: the income is an exact sum of cents, and a float rate's sub-cent part is rounded when the cell is read.
- `Numbers.ParseCents` reads an amount rounded to the nearest cent, skipping only C's six whitespace characters around it, as `float()` does for ASCII text. Exponents, `inf`, `nan`, underscores, non-ASCII decimal digits and non-ASCII whitespace, all of which `float()` accepts, are not modelled.
- `Numbers.ParseInt` accepts an optional sign and ASCII digits, surrounded by C's six whitespace characters, as `int()` does for ASCII text. Non-ASCII decimal digits, underscores and non-ASCII whitespace, which `int()` accepts, are not modelled. Nor is the limit of 4300 digits that `int()` enforces from Python 3.11 on: the model reads numbers of any length.
- `Numbers.FormatCents` models `repr` of an amount that holds whole cents. Exponent notation for very large or very small floats is not modelled.
- `Dates.ParseDate` models `strptime('%Y-%m-%d')` with exactly four year digits, without the locale. `strptime` matches its fields with `\d`, which also accepts non-ASCII decimal digits; the model accepts ASCII digits only.
- `Text.Strip` removes the ten ASCII characters that `str.isspace()` accepts: space, tab, line feed, vertical tab, form feed, carriage return and 0x1C to 0x1F. Non-ASCII whitespace such as U+0085 and U+00A0 is not modelled.
- `Text.Lower` lower-cases ASCII letters only. Unicode case mappings are not modelled.
- `Layout.IsWide` is a fixed table of code point ranges, not the full Unicode East Asian Width data that `unicodedata` carries.
- The `rich` table branch of the front end and all input prompts are not modelled; only the plain tables' widths and cells are.
- `AddRecord` writes cells by column name, so the model assumes the header holds the canonical columns. It does not model a header whose order differs from the written row.
- `Database.MonthlySums` and `Database.MonthlyTable` take the rows' entries already converted. The source converts each row inside the loop, with the same result.
- `Database.FilterRecords` takes the rows already converted, and `Database.CollectStudents` takes their stripped `(name, id)` pairs. The source converts or strips each row inside its loop. Conversion has no side effects here, so the result is the same.
- `Database.DatabaseManager.AddRecord` returns the stored record with its recomputed income. The source instead assigns `total_income` on the caller's record object in place (database_manager.py:93), so the caller's object changes. The front end discards that object after the call, so the model does not track the update or the aliasing.
- `Dates.IsoFormat` assumes years 1 to 9999, as `datetime.date` does, and always writes four year digits, as `isoformat()` does.
- `Dates.YearMonth` always writes four year digits. For a year below 1000, glibc's `strftime('%Y')` writes the year without leading zeros, so `date(999, 3, 1).strftime('%Y-%m')` is `999-03` there, while the model gives `0999-03`.
- `Rows.DeriveMonth` inherits this from `Dates.YearMonth`: on a platform whose `%Y` drops leading zeros, the month of a date before year 1000 differs in the same way (database_manager.py:27, 33-34 and 101).
