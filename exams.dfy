/**
 * The exam document that the attempt logic reads. Its own schema and routes are not part
 * of this model; the fields are the ones the attempt routes and the pages consult.
 */
module Exams {
  import opened Base

  /**
   * One multiple-choice question. `correctAnswer` is the index of the right option and
   * may be absent; `marks` is assumed present.
   */
  datatype Question = Question(
    text: string,
    options: seq<string>,
    correctAnswer: Option<int>,
    marks: int)

  /**
   * An exam. The server grades against `passingMarks`; the admin results page reads a
   * `passingScore` field instead. `duration` is in minutes.
   */
  datatype Exam = Exam(
    id: Id,
    title: string,
    questions: seq<Question>,
    passingMarks: Option<int>,
    passingScore: Option<int>,
    isActive: bool,
    duration: int)

  /** The sum of the marks of a list of questions. */
  function TotalMarks(questions: seq<Question>): int {
    if questions == [] then 0 else TotalMarks(questions[..|questions| - 1]) + questions[|questions| - 1].marks
  }
}
