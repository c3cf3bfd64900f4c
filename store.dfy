/**
 * The ledger file and what the store computes from it. The file is a value:
 * missing, empty (zero bytes), or a header with data rows. Every read
 * operation is a full scan of the data rows; the functions here state what
 * each scan yields, and the lemmas state the promises the store makes.
 */
module Store {
  import opened Wrappers
  import opened Text
  import opened Numbers
  import opened Dates
  import opened Models
  import opened Rows

  datatype File = Missing | Empty | Table(header: seq<string>, rows: seq<Row>)

  /** The data rows a scan sees: none when the file is missing or empty. */
  function DataRows(f: File): seq<Row>
  {
    if f.Table? then f.rows else []
  }

  // ----- Schema and migration -----

  /** Every old row rewritten for the canonical header, in the same order. */
  function MigrateRows(rows: seq<Row>): (out: seq<Row>)
    ensures |out| == |rows|
    ensures forall i :: 0 <= i < |rows| ==> out[i] == MigrateRow(rows[i])
  {
    seq(|rows|, i requires 0 <= i < |rows| => MigrateRow(rows[i]))
  }

  /**
   * `_ensure_schema`: an empty file gets the header; a file whose header
   * already has `month` is left alone; any other file is rewritten with the
   * canonical header and its rows migrated. A missing file makes the size
   * check fail, which is reported and changes nothing.
   */
  function Migrated(f: File): File
  {
    match f
    case Missing => Missing
    case Empty => Table(FieldNames, [])
    case Table(header, rows) => if "month" in header then f else Table(FieldNames, MigrateRows(rows))
  }

  /** The file as the store's constructor leaves it: a missing file is created with the header alone. */
  function Initialized(f: File): (g: File)
    ensures g.Table? && "month" in g.header
  {
    assert FieldNames[3] == "month";
    if f.Missing? then Table(FieldNames, []) else Migrated(f)
  }

  /** Once the header has `month`, the schema check changes nothing: migration runs at most once. */
  lemma MigratedIdempotent(f: File)
    ensures Migrated(Migrated(f)) == Migrated(f)
    ensures Initialized(Initialized(f)) == Initialized(f)
  {
    assert FieldNames[3] == "month";
  }

  /**
   * Migration keeps the number and the order of the rows and every canonical
   * column's value, fills a missing column with "", and gives each row the
   * month derived from its date.
   */
  lemma MigrationKeepsRows(header: seq<string>, rows: seq<Row>, i: int, k: string)
    requires "month" !in header
    requires 0 <= i < |rows| && k in FieldNames
    ensures var g := Migrated(Table(header, rows));
      && g.header == FieldNames
      && |g.rows| == |rows|
      && k in g.rows[i]
      && (k != "month" ==> g.rows[i][k] == Get(rows[i], k, ""))
      && g.rows[i]["month"] == DeriveMonth(Get(rows[i], "date", ""))
  {
    MigrateRowColumns(rows[i], k);
    MigrateRowColumns(rows[i], "month");
  }

  // ----- Query -----

  /** The optional filters of `query_records`. */
  datatype Filters = Filters(name: Option<string>, id: Option<string>, topic: Option<string>, month: Option<string>)

  const NoFilters := Filters(None, None, None, None)

  /** A filter constrains only when it is present and non-empty. */
  predicate Given(filter: Option<string>)
  {
    filter.Some? && filter.value != ""
  }

  /**
   * A record passes the filters when every given one holds: the name and the
   * topic contain the filter text ignoring case, the id equals the filter,
   * and the month is non-empty and starts with the filter.
   */
  predicate Selects(q: Filters, r: StoredRecord)
  {
    && (Given(q.name) ==> IsSubstring(Lower(q.name.value), Lower(r.record.studentName)))
    && (Given(q.id) ==> q.id.value == r.record.studentId)
    && (Given(q.topic) ==> IsSubstring(Lower(q.topic.value), Lower(r.record.topicCovered)))
    && (Given(q.month) ==> r.month != "" && q.month.value <= r.month)
  }

  /** Every data row converted leniently, one record per row. */
  function Records(rows: seq<Row>, today: CalendarDate): (rs: seq<StoredRecord>)
    ensures |rs| == |rows|
    ensures forall i :: 0 <= i < |rows| ==> rs[i] == CoerceRow(rows[i], today)
  {
    seq(|rows|, i requires 0 <= i < |rows| => CoerceRow(rows[i], today))
  }

  /** The records that pass the filters, in file order. */
  function Filter(rs: seq<StoredRecord>, q: Filters): seq<StoredRecord>
    decreases |rs|
  {
    if rs == [] then []
    else
      var init := Filter(rs[..|rs| - 1], q);
      if Selects(q, rs[|rs| - 1]) then init + [rs[|rs| - 1]] else init
  }

  /** `query_records` on a file. */
  function Query(f: File, q: Filters, today: CalendarDate): seq<StoredRecord>
  {
    Filter(Records(DataRows(f), today), q)
  }

  /** A file with no data rows answers every query with nothing. */
  lemma QueryOfNoRows(f: File, q: Filters, today: CalendarDate)
    requires DataRows(f) == []
    ensures Query(f, q, today) == []
  {
  }

  /** Filtering after one more record is the old answer plus that record when it passes. */
  lemma FilterAppend(rs: seq<StoredRecord>, r: StoredRecord, q: Filters)
    ensures Filter(rs + [r], q) == Filter(rs, q) + (if Selects(q, r) then [r] else [])
  {
    assert (rs + [r])[..|rs|] == rs;
  }

  /** The positions `idx` pick an order-preserving subsequence of a sequence of length `n`. */
  predicate PicksInOrder(idx: seq<int>, n: int)
  {
    && (forall k :: 0 <= k < |idx| ==> 0 <= idx[k] < n)
    && (forall k, l :: 0 <= k < l < |idx| ==> idx[k] < idx[l])
  }

  /**
   * The filter's answer is an order-preserving subsequence: each answer is
   * the record at an increasing position and passes the filters, and every
   * record that passes is there.
   */
  lemma {:induction false} FilterIsOrderedSubsequence(rs: seq<StoredRecord>, q: Filters) returns (idx: seq<int>)
    ensures var result := Filter(rs, q);
      && |idx| == |result|
      && PicksInOrder(idx, |rs|)
      && (forall k :: 0 <= k < |idx| ==> result[k] == rs[idx[k]] && Selects(q, result[k]))
      && (forall i :: 0 <= i < |rs| && Selects(q, rs[i]) ==> i in idx)
    decreases |rs|
  {
    if rs == [] {
      idx := [];
    } else {
      var n := |rs| - 1;
      var init := rs[..n];
      var previous := FilterIsOrderedSubsequence(init, q);
      var before := Filter(init, q);
      forall k | 0 <= k < |previous|
        ensures before[k] == rs[previous[k]]
      {
        assert init[previous[k]] == rs[previous[k]];
      }
      if Selects(q, rs[n]) {
        idx := previous + [n];
        assert Filter(rs, q) == before + [rs[n]];
      } else {
        idx := previous;
        assert Filter(rs, q) == before;
      }
      forall i | 0 <= i < |rs| && Selects(q, rs[i])
        ensures i in idx
      {
        if i < n {
          assert rs[i] == init[i];
        }
      }
    }
  }

  /** With no filters nothing is dropped. */
  lemma {:induction false} FilterNothing(rs: seq<StoredRecord>)
    ensures Filter(rs, NoFilters) == rs
    decreases |rs|
  {
    if rs != [] {
      FilterNothing(rs[..|rs| - 1]);
    }
  }

  /** Lenient conversion never drops a row: with no filters every row comes back, in file order. */
  lemma QueryKeepsEveryRow(f: File, today: CalendarDate)
    ensures |Query(f, NoFilters, today)| == |DataRows(f)|
    ensures forall i :: 0 <= i < |DataRows(f)| ==> Query(f, NoFilters, today)[i] == CoerceRow(DataRows(f)[i], today)
  {
    FilterNothing(Records(DataRows(f), today));
  }

  /** Appending a row appends its record to the converted rows. */
  lemma RecordsAppend(rows: seq<Row>, row: Row, today: CalendarDate)
    ensures Records(rows + [row], today) == Records(rows, today) + [CoerceRow(row, today)]
  {
  }

  /** Querying after one more row gives the old answer plus that row's record when it passes. */
  lemma QueryAppend(header: seq<string>, rows: seq<Row>, row: Row, q: Filters, today: CalendarDate)
    ensures var r := CoerceRow(row, today);
      Query(Table(header, rows + [row]), q, today) == Query(Table(header, rows), q, today) + (if Selects(q, r) then [r] else [])
  {
    RecordsAppend(rows, row, today);
    FilterAppend(Records(rows, today), CoerceRow(row, today), q);
  }

  /**
   * A record added with `add_record` comes back from every query that it
   * passes, after all earlier answers, with the income recomputed by the
   * store and the month derived from its date.
   */
  lemma QueryAfterAppend(header: seq<string>, rows: seq<Row>, record: TeachingRecord, q: Filters, today: CalendarDate)
    ensures var stored := record.(totalIncome := CalculateIncome(record.durationMinutes, record.hourlyRate));
      var r := StoredRecord(stored, YearMonth(record.date));
      Query(Table(header, rows + [RecordRow(stored)]), q, today)
        == Query(Table(header, rows), q, today) + (if Selects(q, r) then [r] else [])
  {
    var stored := record.(totalIncome := CalculateIncome(record.durationMinutes, record.hourlyRate));
    CoerceRecordRow(stored, today);
    QueryAppend(header, rows, RecordRow(stored), q, today);
  }

  /**
   * Migration is invisible to queries: when no row has a stored month, every
   * query gives the same answer after the schema check as before it.
   */
  lemma MigrationKeepsQueries(header: seq<string>, rows: seq<Row>, q: Filters, today: CalendarDate)
    requires forall i :: 0 <= i < |rows| ==> Get(rows[i], "month", "") == ""
    ensures Query(Migrated(Table(header, rows)), q, today) == Query(Table(header, rows), q, today)
  {
    if "month" !in header {
      forall i | 0 <= i < |rows|
        ensures Records(MigrateRows(rows), today)[i] == Records(rows, today)[i]
      {
        CoerceMigrateRow(rows[i], today);
      }
      assert Records(MigrateRows(rows), today) == Records(rows, today);
    }
  }

  // ----- Students -----

  /** The `(name, id)` pair of a row, both stripped, when neither is empty. */
  function StudentOf(row: Row): Option<(string, string)>
  {
    var name := Strip(Get(row, "student_name", ""));
    var id := Strip(Get(row, "student_id", ""));
    if name != "" && id != "" then Some((name, id)) else None
  }

  /** A listed student has a non-blank name and id, with no surrounding whitespace. */
  lemma StudentOfIsClean(row: Row)
    ensures StudentOf(row).Some? ==>
      var (name, id) := StudentOf(row).value;
      name != "" && id != "" && Strip(name) == name && Strip(id) == id
  {
    StripIdempotent(Get(row, "student_name", ""), StrBlanks);
    StripIdempotent(Get(row, "student_id", ""), StrBlanks);
  }

  /** The name test of `get_student_id_by_name`: stripped row name and name equal ignoring case. */
  predicate NameMatches(row: Row, name: string)
  {
    Lower(Strip(Get(row, "student_name", ""))) == Lower(name)
  }

  /** Row `i` is the first whose name matches. */
  predicate IsFirstMatch(rows: seq<Row>, name: string, i: int)
  {
    0 <= i < |rows| && NameMatches(rows[i], name) && forall j :: 0 <= j < i ==> !NameMatches(rows[j], name)
  }

  /** The stripped id of row `i`, which may be empty. */
  function IdAt(rows: seq<Row>, i: int): string
    requires 0 <= i < |rows|
  {
    Strip(Get(rows[i], "student_id", ""))
  }

  /** The position of key `k` in an association list (an insertion-ordered dict), if present. */
  function IndexOfKey(assoc: seq<(string, string)>, k: string): (r: Option<nat>)
    ensures r.Some? ==> r.value < |assoc| && assoc[r.value].0 == k
    ensures r.None? ==> forall i :: 0 <= i < |assoc| ==> assoc[i].0 != k
  {
    if assoc == [] then None
    else if assoc[|assoc| - 1].0 == k then Some(|assoc| - 1)
    else IndexOfKey(assoc[..|assoc| - 1], k)
  }

  /** `d[k]` on an insertion-ordered dict. */
  function Lookup(assoc: seq<(string, string)>, k: string): Option<string>
  {
    match IndexOfKey(assoc, k)
    case Some(i) => Some(assoc[i].1)
    case None => None
  }

  /** `d[k] = v` on an insertion-ordered dict: a present key keeps its place, a new key goes last. */
  function Put(assoc: seq<(string, string)>, k: string, v: string): seq<(string, string)>
  {
    match IndexOfKey(assoc, k)
    case Some(i) => assoc[i := (k, v)]
    case None => assoc + [(k, v)]
  }

  predicate DistinctKeys(assoc: seq<(string, string)>)
  {
    forall i, j :: 0 <= i < j < |assoc| ==> assoc[i].0 != assoc[j].0
  }

  /** With distinct keys, the key's position is the one that holds it. */
  lemma IndexOfKeyUnique(assoc: seq<(string, string)>, k: string, j: int)
    requires DistinctKeys(assoc) && 0 <= j < |assoc| && assoc[j].0 == k
    ensures IndexOfKey(assoc, k) == Some(j)
  {
  }

  /** Storing a key keeps the keys distinct; afterwards that key maps to the new value and the others are unchanged. */
  lemma PutLookup(assoc: seq<(string, string)>, k: string, v: string, other: string)
    requires DistinctKeys(assoc)
    ensures DistinctKeys(Put(assoc, k, v))
    ensures Lookup(Put(assoc, k, v), other) == if other == k then Some(v) else Lookup(assoc, other)
  {
    var put := Put(assoc, k, v);
    var at := IndexOfKey(assoc, k);
    var i := if at.Some? then at.value else |assoc|;
    assert |put| == if at.Some? then |assoc| else |assoc| + 1;
    assert put[i] == (k, v);
    assert forall j :: 0 <= j < |assoc| && j != i ==> put[j] == assoc[j];
    IndexOfKeyUnique(put, k, i);
    var was := IndexOfKey(assoc, other);
    if other != k && was.Some? {
      IndexOfKeyUnique(put, other, was.value);
    }
  }

  /** The student each row names, if any, in file order. */
  function Students(rows: seq<Row>): (s: seq<Option<(string, string)>>)
    ensures |s| == |rows|
    ensures forall i :: 0 <= i < |rows| ==> s[i] == StudentOf(rows[i])
  {
    seq(|rows|, i requires 0 <= i < |rows| => StudentOf(rows[i]))
  }

  /** Each named student stored into an insertion-ordered dict, a later id replacing an earlier one. */
  function Insert(students: seq<Option<(string, string)>>): seq<(string, string)>
    decreases |students|
  {
    if students == [] then []
    else
      var init := Insert(students[..|students| - 1]);
      match students[|students| - 1]
      case Some((name, id)) => Put(init, name, id)
      case None => init
  }

  /** `get_all_student_names_ids`. */
  function NameIds(rows: seq<Row>): seq<(string, string)>
  {
    Insert(Students(rows))
  }

  /** The id of the last entry naming the student exactly. */
  function LastId(students: seq<Option<(string, string)>>, name: string): Option<string>
    decreases |students|
  {
    if students == [] then None
    else match students[|students| - 1]
      case Some((n, id)) => if n == name then Some(id) else LastId(students[..|students| - 1], name)
      case None => LastId(students[..|students| - 1], name)
  }

  /** Last write wins: the dict has one entry per name, holding the id of the last entry for that name. */
  lemma {:induction false} InsertLastWins(students: seq<Option<(string, string)>>, name: string)
    ensures DistinctKeys(Insert(students))
    ensures Lookup(Insert(students), name) == LastId(students, name)
    decreases |students|
  {
    if students != [] {
      var init := students[..|students| - 1];
      InsertLastWins(init, name);
      var s := students[|students| - 1];
      if s.Some? {
        PutLookup(Insert(init), s.value.0, s.value.1, name);
      }
    }
  }

  /**
   * `get_all_student_names_ids` maps each name to the id of the last row
   * that names that student (both stripped, neither empty).
   */
  lemma NameIdsLastWins(rows: seq<Row>, name: string)
    ensures DistinctKeys(NameIds(rows))
    ensures Lookup(NameIds(rows), name) == LastId(Students(rows), name)
  {
    InsertLastWins(Students(rows), name);
  }

  /** A row naming a student as written, with no surrounding whitespace. */
  lemma StudentRow(name: string, id: string)
    requires Trimmed(name) && Trimmed(id)
    ensures StudentOf(map["student_name" := name, "student_id" := id]) == Some((name, id))
  {
    StripKeeps(name, StrBlanks);
    StripKeeps(id, StrBlanks);
  }

  /** Two entries for one name: the dict holds one entry, with the second id. */
  lemma InsertTwo(name: string, id1: string, id2: string)
    ensures Insert([Some((name, id1)), Some((name, id2))]) == [(name, id2)]
  {
    var two := [Some((name, id1)), Some((name, id2))];
    var one := [(name, id1)];
    assert two[..1][..0] == [];
    assert Insert(two[..1]) == Put([], name, id1) == one;
    assert IndexOfKey(one, name) == Some(0);
  }

  /** A text with no surrounding whitespace that is not empty. */
  predicate Trimmed(s: string)
  {
    s != "" && !IsSpace(s[0]) && !IsSpace(s[|s| - 1])
  }

  /**
   * The two lookups disagree when a name was written with two ids: the
   * single lookup answers with the first row, the dict keeps the id of the
   * last.
   */
  lemma FirstMatchAndLastWriteDiffer(name: string, id1: string, id2: string)
    requires Trimmed(name) && Trimmed(id1) && Trimmed(id2)
    ensures var rows := [
        map["student_name" := name, "student_id" := id1],
        map["student_name" := name, "student_id" := id2]];
      IsFirstMatch(rows, name, 0) && IdAt(rows, 0) == id1 && Lookup(NameIds(rows), name) == Some(id2)
  {
    var r1 := map["student_name" := name, "student_id" := id1];
    var r2 := map["student_name" := name, "student_id" := id2];
    StudentRow(name, id1);
    StudentRow(name, id2);
    assert Students([r1, r2]) == [Some((name, id1)), Some((name, id2))];
    InsertTwo(name, id1, id2);
  }

  // ----- Summaries -----

  /** What the summaries read from a row: its month, its minutes and its income in cents, read leniently. */
  datatype Entry = Entry(month: string, minutes: int, cents: int)

  function EntryOf(row: Row): Entry
  {
    Entry(RowMonth(row), FieldInt(row, "duration_minutes", 0), FieldCents(row, "total_income", 0))
  }

  /** The entry of every data row, in file order. */
  function Entries(rows: seq<Row>): (es: seq<Entry>)
    ensures |es| == |rows|
    ensures forall i :: 0 <= i < |rows| ==> es[i] == EntryOf(rows[i])
  {
    seq(|rows|, i requires 0 <= i < |rows| => EntryOf(rows[i]))
  }

  /** What a summary adds up per row. */
  datatype Measure = Lessons | Minutes | Income

  /** One row's contribution: one lesson, its minutes, or its income. */
  function Weight(e: Entry, m: Measure): int
  {
    match m
    case Lessons => 1
    case Minutes => e.minutes
    case Income => e.cents
  }

  /** The measure summed over every row. */
  function Total(es: seq<Entry>, m: Measure): int
    decreases |es|
  {
    if es == [] then 0 else Total(es[..|es| - 1], m) + Weight(es[|es| - 1], m)
  }

  /** The measure summed over the rows of one month. */
  function MonthTotal(es: seq<Entry>, month: string, m: Measure): int
    decreases |es|
  {
    if es == [] then 0
    else
      var last := es[|es| - 1];
      MonthTotal(es[..|es| - 1], month, m) + (if last.month == month then Weight(last, m) else 0)
  }

  /** The months the monthly summary lists: every non-empty month of a row. */
  function MonthsOf(es: seq<Entry>): set<string>
  {
    set i | 0 <= i < |es| && es[i].month != "" :: es[i].month
  }

  /** `round(minutes / 60, 2)`, in hundredths of an hour. */
  function Hours(minutes: int): (h: int)
    ensures -60 < 2 * (h * 60 - 100 * minutes) <= 60
  {
    RoundDiv(100 * minutes, 60)
  }

  /** `get_financial_summary`: income in cents, hours in hundredths, and the number of lessons. */
  datatype FinancialSummary = FinancialSummary(totalIncome: int, totalHours: int, totalLessons: int)

  function Financial(f: File): FinancialSummary
  {
    var es := Entries(DataRows(f));
    FinancialSummary(Total(es, Income), Hours(Total(es, Minutes)), Total(es, Lessons))
  }

  /** One month of `get_monthly_summary`. */
  datatype MonthSummary = MonthSummary(lessons: int, hours: int, income: int)

  function MonthOf(es: seq<Entry>, month: string): MonthSummary
  {
    MonthSummary(MonthTotal(es, month, Lessons), Hours(MonthTotal(es, month, Minutes)), MonthTotal(es, month, Income))
  }

  /** Every row is one lesson, whatever else in it is unreadable. */
  lemma {:induction false} LessonsCountRows(es: seq<Entry>)
    ensures Total(es, Lessons) == |es|
    decreases |es|
  {
    if es != [] {
      LessonsCountRows(es[..|es| - 1]);
    }
  }

  lemma MonthsOfAppend(es: seq<Entry>, e: Entry)
    ensures MonthsOf(es + [e]) == MonthsOf(es) + (if e.month != "" then {e.month} else {})
  {
    var all := es + [e];
    forall x | x in MonthsOf(all)
      ensures x in MonthsOf(es) || (e.month != "" && x == e.month)
    {
      var i :| 0 <= i < |all| && all[i].month != "" && x == all[i].month;
      if i < |es| {
        assert all[i] == es[i];
      }
    }
    forall x | x in MonthsOf(es)
      ensures x in MonthsOf(all)
    {
      var i :| 0 <= i < |es| && es[i].month != "" && x == es[i].month;
      assert all[i] == es[i];
    }
    if e.month != "" {
      assert all[|es|] == e;
    }
  }

  /** A month is listed exactly when it has at least one lesson; other months add up to nothing. */
  lemma {:induction false} MonthsOfHaveLessons(es: seq<Entry>, month: string)
    requires month != ""
    ensures MonthTotal(es, month, Lessons) >= 0
    ensures month in MonthsOf(es) <==> MonthTotal(es, month, Lessons) > 0
    ensures month !in MonthsOf(es) ==> MonthTotal(es, month, Minutes) == 0 && MonthTotal(es, month, Income) == 0
    decreases |es|
  {
    if es != [] {
      var n := |es| - 1;
      MonthsOfHaveLessons(es[..n], month);
      assert es == es[..n] + [es[n]];
      MonthsOfAppend(es[..n], es[n]);
    }
  }

  predicate Distinct(ms: seq<string>)
  {
    forall i, j :: 0 <= i < j < |ms| ==> ms[i] != ms[j]
  }

  /** The measure summed over the listed months. */
  function SumMonths(es: seq<Entry>, ms: seq<string>, m: Measure): int
    decreases |ms|
  {
    if ms == [] then 0 else MonthTotal(es, ms[0], m) + SumMonths(es, ms[1..], m)
  }

  /** With no rows every month sums to nothing. */
  lemma {:induction false} SumMonthsOfNothing(ms: seq<string>, m: Measure)
    ensures SumMonths([], ms, m) == 0
    decreases |ms|
  {
    if ms != [] {
      SumMonthsOfNothing(ms[1..], m);
    }
  }

  lemma MonthTotalAppend(es: seq<Entry>, e: Entry, month: string, m: Measure)
    ensures MonthTotal(es + [e], month, m) == MonthTotal(es, month, m) + (if e.month == month then Weight(e, m) else 0)
  {
    assert (es + [e])[..|es|] == es;
  }

  lemma {:induction false} SumMonthsAppend(es: seq<Entry>, e: Entry, ms: seq<string>, m: Measure)
    requires Distinct(ms)
    ensures SumMonths(es + [e], ms, m) == SumMonths(es, ms, m) + (if e.month in ms then Weight(e, m) else 0)
    decreases |ms|
  {
    if ms != [] {
      assert Distinct(ms[1..]);
      SumMonthsAppend(es, e, ms[1..], m);
      MonthTotalAppend(es, e, ms[0], m);
      assert e.month in ms <==> e.month == ms[0] || e.month in ms[1..];
      if e.month == ms[0] {
        assert e.month !in ms[1..];
      }
    }
  }

  /**
   * The monthly summary accounts for every row that has a month: summed over
   * the listed months, each measure plus what the month-less rows carry is
   * the measure over the whole file. Lessons and income reconcile with the
   * financial summary this way; hours are rounded per month and need not.
   */
  lemma {:induction false} MonthlyReconciles(es: seq<Entry>, ms: seq<string>, m: Measure)
    requires Distinct(ms) && "" !in ms
    requires forall month :: month in MonthsOf(es) ==> month in ms
    ensures SumMonths(es, ms, m) + MonthTotal(es, "", m) == Total(es, m)
    decreases |es|
  {
    if es == [] {
      SumMonthsOfNothing(ms, m);
    } else {
      var n := |es| - 1;
      var init := es[..n];
      assert es == init + [es[n]];
      MonthsOfAppend(init, es[n]);
      MonthlyReconciles(init, ms, m);
      SumMonthsAppend(init, es[n], ms, m);
      MonthTotalAppend(init, es[n], "", m);
      assert Total(es, m) == Total(init, m) + Weight(es[n], m);
      if es[n].month != "" {
        assert es[n].month in MonthsOf(es);
      }
    }
  }

  /**
   * Hours need not reconcile: two one-minute lessons in two months are
   * 0.02 hours each in the monthly summary, but 0.03 hours in all.
   */
  lemma HoursNeedNotReconcile(e1: Entry, e2: Entry)
    requires e1.month != e2.month && e1.minutes == 1 && e2.minutes == 1
    ensures MonthOf([e1, e2], e1.month).hours == 2 && MonthOf([e1, e2], e2.month).hours == 2
    ensures Hours(Total([e1, e2], Minutes)) == 3
  {
    var es := [e1, e2];
    assert [] + [e1] == [e1] && [e1] + [e2] == es;
    MonthTotalAppend([], e1, e1.month, Minutes);
    MonthTotalAppend([], e1, e2.month, Minutes);
    MonthTotalAppend([e1], e2, e1.month, Minutes);
    MonthTotalAppend([e1], e2, e2.month, Minutes);
    assert es[..1] == [e1] && [e1][..0] == [];
    assert Total([e1], Minutes) == 1;
    assert Total(es, Minutes) == 2;
    assert RoundDiv(100, 60) == 2 && RoundDiv(200, 60) == 3;
  }

  /** The number of rows whose month is non-empty. */
  function RowsWithMonth(es: seq<Entry>): (n: nat)
    ensures n <= |es|
    decreases |es|
  {
    if es == [] then 0 else RowsWithMonth(es[..|es| - 1]) + (if es[|es| - 1].month != "" then 1 else 0)
  }

  /** Every row is either month-less or counted among the rows with a month. */
  lemma {:induction false} MonthlessAndMonthRows(es: seq<Entry>)
    ensures MonthTotal(es, "", Lessons) + RowsWithMonth(es) == |es|
    decreases |es|
  {
    if es != [] {
      MonthlessAndMonthRows(es[..|es| - 1]);
    }
  }

  /** The month column of a monthly summary. */
  function Keys(summary: seq<(string, MonthSummary)>): (ms: seq<string>)
    ensures |ms| == |summary| && forall j :: 0 <= j < |summary| ==> ms[j] == summary[j].0
  {
    seq(|summary|, j requires 0 <= j < |summary| => summary[j].0)
  }

  /** The lessons of a monthly summary, added up. */
  function SummaryLessons(summary: seq<(string, MonthSummary)>): int
    decreases |summary|
  {
    if summary == [] then 0 else summary[0].1.lessons + SummaryLessons(summary[1..])
  }

  lemma {:induction false} SummaryLessonsAreMonthTotals(es: seq<Entry>, summary: seq<(string, MonthSummary)>)
    requires forall j :: 0 <= j < |summary| ==> summary[j].1 == MonthOf(es, summary[j].0)
    ensures SummaryLessons(summary) == SumMonths(es, Keys(summary), Lessons)
    decreases |summary|
  {
    if summary != [] {
      assert Keys(summary)[1..] == Keys(summary[1..]);
      SummaryLessonsAreMonthTotals(es, summary[1..]);
    }
  }

  /**
   * A monthly summary in ascending month order that lists exactly the
   * non-empty months, each with its totals, has lesson counts that add up to
   * the number of rows with a month.
   */
  lemma MonthlyLessonsCountMonthRows(es: seq<Entry>, summary: seq<(string, MonthSummary)>)
    requires forall j, k :: 0 <= j < k < |summary| ==> StrLt(summary[j].0, summary[k].0)
    requires forall j :: 0 <= j < |summary| ==> summary[j].0 in MonthsOf(es) && summary[j].1 == MonthOf(es, summary[j].0)
    requires forall m :: m in MonthsOf(es) ==> exists j :: 0 <= j < |summary| && summary[j].0 == m
    ensures SummaryLessons(summary) == RowsWithMonth(es)
  {
    var ms := Keys(summary);
    forall j, k | 0 <= j < k < |ms|
      ensures ms[j] != ms[k]
    {
      if ms[j] == ms[k] {
        StrLtIrreflexive(ms[j]);
      }
    }
    forall month | month in MonthsOf(es)
      ensures month in ms
    {
      var j :| 0 <= j < |summary| && summary[j].0 == month;
      assert ms[j] == month;
    }
    SummaryLessonsAreMonthTotals(es, summary);
    MonthlyReconciles(es, ms, Lessons);
    LessonsCountRows(es);
    MonthlessAndMonthRows(es);
  }
}
