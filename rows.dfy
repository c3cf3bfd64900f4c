/**
 * One line of the ledger file as the CSV reader hands it over (a map from
 * column name to text), and the store's per-row rules: the month key, the
 * income, lenient field conversion, writing a record and the migration of
 * an old row.
 */
module Rows {
  import opened Wrappers
  import opened Text
  import opened Numbers
  import opened Dates
  import opened Models

  /** A data row: column name to cell text. Columns the file lacks are absent. */
  type Row = map<string, string>

  /** The canonical header, in file order. */
  const FieldNames: seq<string> := [
    "student_name", "student_id", "date", "month", "duration_minutes",
    "hourly_rate", "total_income", "topic_covered", "homework_assigned",
    "student_performance", "notes", "next_plan"]

  /** `row.get(key, default)`. */
  function Get(row: Row, key: string, default: string): string
  {
    if key in row then row[key] else default
  }

  /** The part of a date text that is tried as a full date: `s[:10]`. */
  function DatePart(s: string): (t: string)
    ensures t <= s && |t| <= 10
  {
    if |s| <= 10 then s else s[..10]
  }

  /**
   * The month key of a stored date text: the parsed date's "YYYY-MM" when the
   * first ten characters are a date, else the first seven characters as they
   * are; a text shorter than seven characters has no month.
   */
  function DeriveMonth(s: string): (r: string)
    ensures |r| == if |s| >= 7 then 7 else 0
    ensures |s| >= 7 && ParseDate(DatePart(s)).None? ==> r == s[..7]
    ensures |s| >= 7 && ParseDate(DatePart(s)).Some? ==> r == YearMonth(ParseDate(DatePart(s)).value)
  {
    if |s| >= 7 then
      match ParseDate(DatePart(s))
      case Some(d) => YearMonth(d)
      case None => s[..7]
    else ""
  }

  /** The month key of an ISO date text is that date's month key, and its first seven characters. */
  lemma DeriveMonthOfIsoDate(d: CalendarDate)
    ensures DeriveMonth(IsoFormat(d)) == YearMonth(d) == IsoFormat(d)[..7]
  {
    ParseIsoFormat(d);
  }

  /** A month key is its own month key, so a month key given as a date passes through unchanged. */
  lemma DeriveMonthIdempotent(s: string)
    ensures DeriveMonth(DeriveMonth(s)) == DeriveMonth(s)
  {
    var r := DeriveMonth(s);
    if |r| == 7 {
      assert DatePart(r) == r;
      assert r[..7] == r;
    }
  }

  /**
   * `calculate_income`: the income of `minutes` at `rate` cents an hour,
   * `minutes / 60 * rate` rounded to the nearest cent.
   */
  function CalculateIncome(minutes: int, rate: int): (cents: int)
    ensures -60 < 2 * (cents * 60 - minutes * rate) <= 60
  {
    RoundDiv(minutes * rate, 60)
  }

  /** Ninety minutes at 20.00 an hour earn 30.00. */
  lemma CalculateIncomeExample()
    ensures CalculateIncome(90, 2000) == 3000
  {
  }

  /** `safe_convert(value, int, default)`: the integer `value` spells, or `default`. */
  function SafeInt(value: string, default: int): (r: int)
    ensures ParseInt(value).Some? ==> r == ParseInt(value).value
    ensures ParseInt(value).None? ==> r == default
  {
    ParseInt(value).GetOr(default)
  }

  /** `safe_convert(value, float, default)` for an amount: its cents, or `default`. */
  function SafeCents(value: string, default: int): (r: int)
    ensures ParseCents(value).Some? ==> r == ParseCents(value).value
    ensures ParseCents(value).None? ==> r == default
  {
    ParseCents(value).GetOr(default)
  }

  /** `safe_convert(value, date, default)`: the date `value` spells in full, or `default`. */
  function SafeDate(value: string, default: CalendarDate): (r: CalendarDate)
    ensures ParseDate(value).Some? ==> r == ParseDate(value).value
    ensures ParseDate(value).None? ==> r == default
  {
    ParseDate(value).GetOr(default)
  }

  /** An integer column read leniently; a missing column gives the default. */
  function FieldInt(row: Row, key: string, default: int): int
  {
    if key in row then SafeInt(row[key], default) else default
  }

  /** An amount column read leniently; a missing column gives the default. */
  function FieldCents(row: Row, key: string, default: int): int
  {
    if key in row then SafeCents(row[key], default) else default
  }

  /** The row's month: the stored one when it is non-empty, else derived from its date text. */
  function RowMonth(row: Row): string
  {
    var stored := Get(row, "month", "");
    if stored != "" then stored else DeriveMonth(Get(row, "date", ""))
  }

  /** A record as a query returns it: the session and the month attached to it. */
  datatype StoredRecord = StoredRecord(record: TeachingRecord, month: string)

  /**
   * The record a query builds from a row: every field converted leniently,
   * with "" for a missing text, `today` for a bad date, 0 for a bad duration,
   * rate or income and 5 for a bad performance score.
   */
  function CoerceRow(row: Row, today: CalendarDate): StoredRecord
  {
    var record := TeachingRecord(
      Get(row, "student_name", ""),
      Get(row, "student_id", ""),
      SafeDate(Get(row, "date", ""), today),
      FieldInt(row, "duration_minutes", 0),
      FieldCents(row, "hourly_rate", 0),
      FieldCents(row, "total_income", 0),
      Get(row, "topic_covered", ""),
      Get(row, "homework_assigned", ""),
      FieldInt(row, "student_performance", 5),
      Get(row, "notes", ""),
      Get(row, "next_plan", ""));
    StoredRecord(record, RowMonth(row))
  }

  /** A row whose every field is unreadable still gives a record, made of the defaults. */
  lemma CoerceEmptyRow(today: CalendarDate)
    ensures CoerceRow(map[], today)
      == StoredRecord(TeachingRecord("", "", today, 0, 0, 0, "", "", 5, "", ""), "")
  {
  }

  /** The row `add_record` writes for a record, the date in ISO form and the month derived from it. */
  function RecordRow(r: TeachingRecord): Row
  {
    map[
      "student_name" := r.studentName,
      "student_id" := r.studentId,
      "date" := IsoFormat(r.date),
      "month" := YearMonth(r.date),
      "duration_minutes" := IntToString(r.durationMinutes),
      "hourly_rate" := FormatCents(r.hourlyRate),
      "total_income" := FormatCents(r.totalIncome),
      "topic_covered" := r.topicCovered,
      "homework_assigned" := r.homeworkAssigned,
      "student_performance" := IntToString(r.studentPerformance),
      "notes" := r.notes,
      "next_plan" := r.nextPlan]
  }

  /** The text columns of a written record hold the record's texts. */
  lemma RecordRowTexts(r: TeachingRecord)
    ensures Get(RecordRow(r), "student_name", "") == r.studentName
    ensures Get(RecordRow(r), "student_id", "") == r.studentId
    ensures Get(RecordRow(r), "topic_covered", "") == r.topicCovered
    ensures Get(RecordRow(r), "homework_assigned", "") == r.homeworkAssigned
    ensures Get(RecordRow(r), "notes", "") == r.notes
    ensures Get(RecordRow(r), "next_plan", "") == r.nextPlan
  {
  }

  /** The other columns of a written record hold the record's values spelled out. */
  lemma RecordRowValues(r: TeachingRecord)
    ensures Get(RecordRow(r), "date", "") == IsoFormat(r.date)
    ensures Get(RecordRow(r), "month", "") == YearMonth(r.date)
    ensures "duration_minutes" in RecordRow(r) && RecordRow(r)["duration_minutes"] == IntToString(r.durationMinutes)
    ensures "hourly_rate" in RecordRow(r) && RecordRow(r)["hourly_rate"] == FormatCents(r.hourlyRate)
    ensures "total_income" in RecordRow(r) && RecordRow(r)["total_income"] == FormatCents(r.totalIncome)
    ensures "student_performance" in RecordRow(r) && RecordRow(r)["student_performance"] == IntToString(r.studentPerformance)
  {
  }

  /** A written record is read back as itself, with its date's month attached. */
  lemma CoerceRecordRow(r: TeachingRecord, today: CalendarDate)
    ensures CoerceRow(RecordRow(r), today) == StoredRecord(r, YearMonth(r.date))
  {
    var row := RecordRow(r);
    RecordRowTexts(r);
    RecordRowValues(r);
    ParseIsoFormat(r.date);
    ParseIntToString(r.durationMinutes);
    ParseIntToString(r.studentPerformance);
    ParseFormatCents(r.hourlyRate);
    ParseFormatCents(r.totalIncome);
    assert RowMonth(row) == YearMonth(r.date);
  }

  /**
   * The row the migration writes for an old row: every canonical column,
   * the old value or "" where the old row has none, and the month derived
   * from the old date text.
   */
  function MigrateRow(row: Row): (m: Row)
    ensures m.Keys == set k | k in FieldNames
  {
    map k | k in FieldNames :: if k == "month" then DeriveMonth(Get(row, "date", "")) else Get(row, k, "")
  }

  /** The migrated row keeps every canonical column's value, fills in "" and adds the derived month. */
  lemma MigrateRowColumns(row: Row, k: string)
    requires k in FieldNames
    ensures k in MigrateRow(row)
    ensures k != "month" ==> MigrateRow(row)[k] == Get(row, k, "")
    ensures MigrateRow(row)["month"] == DeriveMonth(Get(row, "date", ""))
  {
  }

  /** Empty text is no integer, no amount and no date. */
  lemma EmptyTextParsesToNothing()
    ensures ParseInt("") == None && ParseCents("") == None && ParseDate("") == None
  {
    assert StripBlanks("", NumberBlanks) == "";
    assert IndexOf("", '.') == None;
  }

  /** A column that holds the old value or "" reads, leniently, as the old column did. */
  lemma FilledColumnReadsAlike(m: Row, row: Row, k: string, default: int)
    requires k in m && m[k] == Get(row, k, "")
    ensures Get(m, k, "") == Get(row, k, "")
    ensures FieldInt(m, k, default) == FieldInt(row, k, default)
    ensures FieldCents(m, k, default) == FieldCents(row, k, default)
  {
    EmptyTextParsesToNothing();
  }

  /** After migration the text columns read as before. */
  lemma MigrateRowTexts(row: Row)
    ensures Get(MigrateRow(row), "student_name", "") == Get(row, "student_name", "")
    ensures Get(MigrateRow(row), "student_id", "") == Get(row, "student_id", "")
    ensures Get(MigrateRow(row), "date", "") == Get(row, "date", "")
    ensures Get(MigrateRow(row), "topic_covered", "") == Get(row, "topic_covered", "")
    ensures Get(MigrateRow(row), "homework_assigned", "") == Get(row, "homework_assigned", "")
    ensures Get(MigrateRow(row), "notes", "") == Get(row, "notes", "")
    ensures Get(MigrateRow(row), "next_plan", "") == Get(row, "next_plan", "")
  {
    MigrateRowColumns(row, "student_name");
    MigrateRowColumns(row, "student_id");
    MigrateRowColumns(row, "date");
    MigrateRowColumns(row, "topic_covered");
    MigrateRowColumns(row, "homework_assigned");
    MigrateRowColumns(row, "notes");
    MigrateRowColumns(row, "next_plan");
  }

  /** After migration the number columns read, leniently, as before. */
  lemma MigrateRowNumbers(row: Row)
    ensures FieldInt(MigrateRow(row), "duration_minutes", 0) == FieldInt(row, "duration_minutes", 0)
    ensures FieldCents(MigrateRow(row), "hourly_rate", 0) == FieldCents(row, "hourly_rate", 0)
    ensures FieldCents(MigrateRow(row), "total_income", 0) == FieldCents(row, "total_income", 0)
    ensures FieldInt(MigrateRow(row), "student_performance", 5) == FieldInt(row, "student_performance", 5)
  {
    var m := MigrateRow(row);
    MigrateRowColumns(row, "duration_minutes");
    MigrateRowColumns(row, "hourly_rate");
    MigrateRowColumns(row, "total_income");
    MigrateRowColumns(row, "student_performance");
    FilledColumnReadsAlike(m, row, "duration_minutes", 0);
    FilledColumnReadsAlike(m, row, "hourly_rate", 0);
    FilledColumnReadsAlike(m, row, "total_income", 0);
    FilledColumnReadsAlike(m, row, "student_performance", 5);
  }

  /**
   * Migration is invisible to queries: a row without a stored month reads
   * as the same record, with the same month, after migration as before.
   */
  lemma CoerceMigrateRow(row: Row, today: CalendarDate)
    requires Get(row, "month", "") == ""
    ensures CoerceRow(MigrateRow(row), today) == CoerceRow(row, today)
  {
    MigrateRowTexts(row);
    MigrateRowNumbers(row);
    MigrateRowColumns(row, "month");
  }
}
