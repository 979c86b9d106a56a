/**
 * Data the browser pages share: an attempt as the attempt listings deliver it, and the
 * browser's key-value storage.
 */
module ClientData {
  import opened Base
  import opened Exams
  import opened AttemptSchema

  /**
   * The `exam` field of a delivered attempt: a populated exam document, a bare exam id,
   * `null` (a populated reference whose exam is gone) or no field at all (an assignment
   * attempt).
   */
  datatype ExamRef = Populated(exam: Exam) | Reference(id: Id) | Null | Missing

  /** One delivered answer entry; both fields may be absent in the delivered JSON. */
  datatype ListedAnswer = ListedAnswer(questionIndex: Option<int>, selectedOption: Option<int>)

  /** A delivered attempt, with the fields the pages read. */
  datatype ListedAttempt = ListedAttempt(
    id: Id,
    exam: ExamRef,
    status: Status,
    startTime: Option<int>,
    endTime: Option<int>,
    answers: seq<ListedAnswer>,
    score: Option<int>,
    timeTaken: Option<int>)

  /** A stored answer as it is delivered. */
  function ListAnswer(a: Answer): (r: ListedAnswer)
    ensures r.questionIndex == Some(a.questionIndex) && r.selectedOption == a.selectedOption
  {
    ListedAnswer(Some(a.questionIndex), a.selectedOption)
  }

  /** A stored attempt as a listing delivers it, with its exam reference resolved as `ref`. */
  function ListAttempt(id: Id, a: Attempt, ref: ExamRef): (r: ListedAttempt)
    ensures r.id == id && r.exam == ref && r.status == a.status && r.score == a.score
    ensures r.startTime == Some(a.startTime) && r.endTime == a.endTime && r.timeTaken == a.timeTaken
    ensures |r.answers| == |a.answers|
    ensures forall i :: 0 <= i < |r.answers| ==> r.answers[i] == ListAnswer(a.answers[i])
  {
    ListedAttempt(id, ref, a.status, Some(a.startTime), a.endTime,
                  seq(|a.answers|, i requires 0 <= i < |a.answers| => ListAnswer(a.answers[i])),
                  a.score, a.timeTaken)
  }

  /** The values the pages keep in browser storage (their JSON encoding is not modelled). */
  datatype Stored =
    | ProgressItem(answers: map<int, int>, currentQuestionIndex: int, timeLeft: int)
    | QuestionsItem(questions: Option<seq<Question>>)
    | SubmittedAnswersItem(submitted: map<int, Option<int>>)
    | TimeTakenItem(seconds: real)

  /** The browser's `localStorage`, shared by every page of the same origin. */
  class LocalStorage {
    var items: map<string, Stored>

    constructor ()
      ensures items == map[]
    {
      items := map[];
    }

    /** `setItem`: overwrites the one key. */
    method SetItem(key: string, value: Stored)
      modifies this
      ensures items == old(items)[key := value]
    {
      items := items[key := value];
    }

    /** `removeItem`: drops the one key, if present. */
    method RemoveItem(key: string)
      modifies this
      ensures items == old(items) - {key}
    {
      items := items - {key};
    }
  }
}
