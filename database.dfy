/**
 * The store itself: one object holding the ledger file. Its methods scan the
 * file row by row, as the store does, and each is proved to compute the
 * function of the file that the `Store` module specifies.
 */
module Database {
  import opened Wrappers
  import opened Text
  import opened Dates
  import opened Models
  import opened Rows
  import opened Store
  import opened Sorting

  class DatabaseManager {
    /** The ledger file as it stands on disk. */
    var file: File

    /** The file exists and its header has the `month` column. */
    predicate Valid()
      reads this
    {
      file.Table? && "month" in file.header
    }

    /**
     * Opening the store on the file as found: a missing file is created with
     * the header alone, any other file goes through the schema check.
     */
    constructor (existing: File)
      ensures file == Initialized(existing)
      ensures Valid()
    {
      file := existing;
      new;
      if existing.Missing? {
        file := Table(FieldNames, []);
      } else {
        EnsureSchema();
      }
    }

    /** `_ensure_schema`: give an empty file the header, or migrate a file whose header lacks `month`. */
    method EnsureSchema()
      modifies this
      ensures file == Migrated(old(file))
    {
      match file {
        case Missing =>
        case Empty =>
          file := Table(FieldNames, []);
        case Table(header, rows) =>
          if "month" !in header {
            var migrated: seq<Row> := [];
            var i := 0;
            ghost var all := MigrateRows(rows);
            while i < |rows|
              invariant 0 <= i <= |rows|
              invariant migrated == all[..i]
            {
              assert all[..i + 1] == all[..i] + [all[i]];
              migrated := migrated + [MigrateRow(rows[i])];
              i := i + 1;
            }
            assert all[..i] == all;
            file := Table(FieldNames, migrated);
          }
      }
    }

    /**
     * `add_record`: the income is recomputed from the duration and the rate,
     * and the record is appended as one row.
     */
    method AddRecord(record: TeachingRecord) returns (stored: TeachingRecord)
      requires Valid()
      modifies this
      ensures stored == record.(totalIncome := CalculateIncome(record.durationMinutes, record.hourlyRate))
      ensures file == Table(old(file).header, old(file).rows + [RecordRow(stored)])
      ensures Valid()
    {
      stored := record.(totalIncome := CalculateIncome(record.durationMinutes, record.hourlyRate));
      file := Table(file.header, file.rows + [RecordRow(stored)]);
    }

    /** `query_records`: every row converted leniently, kept when it passes the filters. */
    method QueryRecords(q: Filters, today: CalendarDate) returns (records: seq<StoredRecord>)
      ensures records == Query(file, q, today)
    {
      records := FilterRecords(Records(DataRows(file), today), q);
    }

    /** `get_all_students`: the distinct `(name, id)` pairs of the rows, sorted. */
    method GetAllStudents() returns (students: seq<(string, string)>)
      ensures StrictlyAscendingPairs(students)
      ensures forall p :: p in students <==> Some(p) in Students(DataRows(file))
    {
      var seen := CollectStudents(Students(DataRows(file)));
      students := SortPairs(seen);
    }

    /** `get_financial_summary`: income, hours and lessons over every row. */
    method GetFinancialSummary() returns (summary: FinancialSummary)
      ensures summary == Financial(file)
      ensures summary.totalLessons == |DataRows(file)|
    {
      var rows := DataRows(file);
      ghost var es := Entries(rows);
      var income, minutes, lessons := 0, 0, 0;
      var i := 0;
      while i < |rows|
        invariant 0 <= i <= |rows|
        invariant income == Total(es[..i], Income)
        invariant minutes == Total(es[..i], Minutes)
        invariant lessons == Total(es[..i], Lessons)
      {
        assert es[..i + 1][..i] == es[..i];
        income := income + FieldCents(rows[i], "total_income", 0);
        minutes := minutes + FieldInt(rows[i], "duration_minutes", 0);
        lessons := lessons + 1;
        i := i + 1;
      }
      assert es[..i] == es;
      LessonsCountRows(es);
      summary := FinancialSummary(income, Hours(minutes), lessons);
    }

    /**
     * `get_monthly_summary`: lessons, hours and income per non-empty month,
     * ordered by month.
     */
    method GetMonthlySummary() returns (summary: seq<(string, MonthSummary)>)
      ensures forall j, k :: 0 <= j < k < |summary| ==> StrLt(summary[j].0, summary[k].0)
      ensures forall j :: 0 <= j < |summary| ==>
        summary[j].0 in MonthsOf(Entries(DataRows(file))) && summary[j].1 == MonthOf(Entries(DataRows(file)), summary[j].0)
      ensures forall j :: 0 <= j < |summary| ==> summary[j].0 != ""
      ensures SummaryLessons(summary) == RowsWithMonth(Entries(DataRows(file)))
      ensures forall m :: m in MonthsOf(Entries(DataRows(file))) ==> exists j :: 0 <= j < |summary| && summary[j].0 == m
    {
      summary := MonthlyTable(Entries(DataRows(file)));
      MonthlyLessonsCountMonthRows(Entries(DataRows(file)), summary);
    }

    /** `get_student_id_by_name`: the stripped id of the first row whose stripped name matches, ignoring case. */
    method GetStudentIdByName(name: string) returns (id: Option<string>)
      ensures id.None? <==> forall i :: 0 <= i < |DataRows(file)| ==> !NameMatches(DataRows(file)[i], name)
      ensures id.Some? ==> exists i :: IsFirstMatch(DataRows(file), name, i) && id.value == IdAt(DataRows(file), i)
    {
      var rows := DataRows(file);
      var i := 0;
      while i < |rows|
        invariant 0 <= i <= |rows|
        invariant forall k :: 0 <= k < i ==> !NameMatches(rows[k], name)
      {
        if NameMatches(rows[i], name) {
          assert IsFirstMatch(rows, name, i);
          return Some(IdAt(rows, i));
        }
        i := i + 1;
      }
      return None;
    }

    /** `get_all_student_names_ids`: each name mapped to the id of the last row naming it. */
    method GetAllStudentNamesIds() returns (nameIds: seq<(string, string)>)
      ensures nameIds == NameIds(DataRows(file))
      ensures DistinctKeys(nameIds)
      ensures forall name :: Lookup(nameIds, name) == LastId(Students(DataRows(file)), name)
    {
      var rows := DataRows(file);
      ghost var students := Students(rows);
      nameIds := [];
      var i := 0;
      while i < |rows|
        invariant 0 <= i <= |rows|
        invariant nameIds == Insert(students[..i])
      {
        var name := Strip(Get(rows[i], "student_name", ""));
        var id := Strip(Get(rows[i], "student_id", ""));
        assert students[..i + 1][..i] == students[..i];
        if name != "" && id != "" {
          nameIds := Put(nameIds, name, id);
        }
        i := i + 1;
      }
      assert students[..i] == students;
      forall name
        ensures Lookup(nameIds, name) == LastId(students, name)
      {
        InsertLastWins(students, name);
      }
      InsertLastWins(students, "");
    }
  }

  /** The loop of `query_records`: the converted rows that pass the filters, kept in file order. */
  method FilterRecords(all: seq<StoredRecord>, q: Filters) returns (records: seq<StoredRecord>)
    ensures records == Filter(all, q)
  {
    records := [];
    var i := 0;
    while i < |all|
      invariant 0 <= i <= |all|
      invariant records == Filter(all[..i], q)
    {
      assert all[..i + 1] == all[..i] + [all[i]];
      FilterAppend(all[..i], all[i], q);
      if Selects(q, all[i]) {
        records := records + [all[i]];
      }
      i := i + 1;
    }
    assert all[..i] == all;
  }

  /**
   * The loop of `get_all_students` over the rows' stripped `(name, id)`
   * pairs: every pair with a non-empty name and id goes into a set.
   */
  method CollectStudents(named: seq<Option<(string, string)>>) returns (seen: set<(string, string)>)
    ensures forall p :: p in seen <==> Some(p) in named
  {
    seen := {};
    var i := 0;
    while i < |named|
      invariant 0 <= i <= |named|
      invariant forall p :: p in seen <==> Some(p) in named[..i]
    {
      assert named[..i + 1] == named[..i] + [named[i]];
      if named[i].Some? {
        seen := seen + {named[i].value};
      }
      i := i + 1;
    }
    assert named[..i] == named;
  }

  /** The monthly summary of the rows' entries: their totals, rounded, ordered by month. */
  method MonthlyTable(es: seq<Entry>) returns (summary: seq<(string, MonthSummary)>)
    ensures forall j, k :: 0 <= j < k < |summary| ==> StrLt(summary[j].0, summary[k].0)
    ensures forall j :: 0 <= j < |summary| ==> summary[j].0 in MonthsOf(es) && summary[j].1 == MonthOf(es, summary[j].0)
    ensures forall j :: 0 <= j < |summary| ==> summary[j].0 != ""
    ensures forall m :: m in MonthsOf(es) ==> exists j :: 0 <= j < |summary| && summary[j].0 == m
  {
    var sums := MonthlySums(es);
    var months := SortStrings(sums.Keys);
    summary := seq(|months|, j requires 0 <= j < |months| =>
      (months[j], MonthSummary(sums[months[j]].0, Hours(sums[months[j]].1), sums[months[j]].2)));
    assert forall j :: 0 <= j < |months| ==> summary[j].0 == months[j];
  }

  /** The totals of every non-empty month of the rows' entries, accumulated in one pass. */
  method MonthlySums(es: seq<Entry>) returns (sums: map<string, (int, int, int)>)
    ensures forall m :: m in sums <==> m in MonthsOf(es)
    ensures forall m :: m in sums ==> sums[m] == Sums(es, m)
  {
    sums := map[];
    var i := 0;
    while i < |es|
      invariant 0 <= i <= |es|
      invariant forall m :: m in sums <==> m in MonthsOf(es[..i])
      invariant forall m :: m in sums ==> sums[m] == Sums(es[..i], m)
    {
      var e := es[i];
      MonthlyStep(es, i);
      if e.month != "" {
        MonthsOfHaveLessons(es[..i], e.month);
        var (l, h, c) := if e.month in sums then sums[e.month] else (0, 0, 0);
        assert (l, h, c) == Sums(es[..i], e.month);
        sums := sums[e.month := (l + 1, h + e.minutes, c + e.cents)];
      }
      i := i + 1;
    }
    assert es[..i] == es;
  }

  /** The running totals of one month: lessons, minutes and cents. */
  function Sums(es: seq<Entry>, month: string): (int, int, int)
  {
    (MonthTotal(es, month, Lessons), MonthTotal(es, month, Minutes), MonthTotal(es, month, Income))
  }

  /** One more row adds to its own month's totals only, and lists that month if it is non-empty. */
  lemma MonthlyStep(es: seq<Entry>, i: int)
    requires 0 <= i < |es|
    ensures MonthsOf(es[..i + 1]) == MonthsOf(es[..i]) + (if es[i].month != "" then {es[i].month} else {})
    ensures forall m :: m != es[i].month ==> Sums(es[..i + 1], m) == Sums(es[..i], m)
    ensures es[i].month != "" ==>
      var (l, h, c) := Sums(es[..i], es[i].month);
      Sums(es[..i + 1], es[i].month) == (l + 1, h + es[i].minutes, c + es[i].cents)
  {
    assert es[..i + 1] == es[..i] + [es[i]];
    MonthsOfAppend(es[..i], es[i]);
    forall m
      ensures MonthTotal(es[..i + 1], m, Lessons) == MonthTotal(es[..i], m, Lessons) + (if es[i].month == m then 1 else 0)
      ensures MonthTotal(es[..i + 1], m, Minutes) == MonthTotal(es[..i], m, Minutes) + (if es[i].month == m then es[i].minutes else 0)
      ensures MonthTotal(es[..i + 1], m, Income) == MonthTotal(es[..i], m, Income) + (if es[i].month == m then es[i].cents else 0)
    {
      MonthTotalAppend(es[..i], es[i], m, Lessons);
      MonthTotalAppend(es[..i], es[i], m, Minutes);
      MonthTotalAppend(es[..i], es[i], m, Income);
    }
  }
}
