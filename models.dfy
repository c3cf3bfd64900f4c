/** The record of one tutoring session. */
module Models {
  import opened Dates

  /**
   * One lesson: who, when, how long, at what rate, what was covered and how
   * the student did. `hourlyRate` and `totalIncome` are amounts in cents;
   * `studentPerformance` is meant to lie between 1 and 10.
   */
  datatype TeachingRecord = TeachingRecord(
    studentName: string,
    studentId: string,
    date: CalendarDate,
    durationMinutes: int,
    hourlyRate: int,
    totalIncome: int,
    topicCovered: string,
    homeworkAssigned: string,
    studentPerformance: int,
    notes: string,
    nextPlan: string)
}
