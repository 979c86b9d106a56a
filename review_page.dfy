/**
 * The review page shown after a submission: the time taken, the completion label, and the
 * per-answer rows of the fetched attempt.
 */
module ReviewPage {
  import opened Base
  import opened AttemptSchema
  import Js

  /** `formatTime`: `Math.floor(seconds / 60)` minutes and `seconds % 60` seconds. */
  datatype MinSec = MinSec(minutes: int, seconds: int)

  function FormatTime(seconds: int): (r: MinSec)
    ensures r.minutes * 60 <= seconds < r.minutes * 60 + 60
    ensures r.seconds == Js.Rem(seconds, 60)
  {
    MinSec(seconds / 60, Js.Rem(seconds, 60))
  }

  /** For a non-negative count the minutes and seconds recombine, and the seconds are below 60. */
  lemma FormatTimeRecombines(s: int)
    requires s >= 0
    ensures FormatTime(s).minutes * 60 + FormatTime(s).seconds == s
    ensures 0 <= FormatTime(s).seconds < 60
  {
  }

  /** A negative count mixes floor and truncation: -30 reads as -1 min -30 sec. */
  lemma FormatTimeNegative()
    ensures FormatTime(-30) == MinSec(-1, -30)
  {
  }

  /**
   * The time line: the count is split by `formatTime` into floor minutes and truncated
   * seconds, and an absent `timeTaken` gives NaN twice.
   */
  function TimeText(timeTaken: Option<int>): (r: string)
    ensures timeTaken.None? ==> r == "NaN min NaN sec"
    ensures timeTaken.Some? ==>
      r == Js.NumberToString(timeTaken.value / 60) + " min " + Js.NumberToString(Js.Rem(timeTaken.value, 60)) + " sec"
  {
    match timeTaken
    case None => "NaN min NaN sec"
    case Some(s) => Js.NumberToString(FormatTime(s).minutes) + " min " + Js.NumberToString(FormatTime(s).seconds) + " sec"
  }

  /** The stored `timeTaken` is in minutes but is read as seconds: 5 minutes show as "0 min 5 sec". */
  lemma TimeTextReadsMinutesAsSeconds()
    ensures TimeText(Some(5)) == "0 min 5 sec"
  {
    assert FormatTime(5) == MinSec(0, 5);
  }

  /** The completion label: "Completed" only for the `completed` status. */
  function StatusLabel(status: Status): (r: string)
    ensures r == "Completed" <==> status == Completed
    ensures r == "Completed" || r == "Incomplete"
  {
    if status == Completed then "Completed" else "Incomplete"
  }

  /** Attempts graded `Pass` or `Fail` by the server read as incomplete. */
  lemma GradedReadsIncomplete(status: Status)
    requires status == Pass || status == Fail
    ensures StatusLabel(status) == "Incomplete"
  {
  }

  /** One answer row: the number, the correctness verdict and the marks line, when shown. */
  datatype Row = Row(number: int, verdict: string, marks: Option<int>)

  /** `answer.isCorrect ? 'Correct' : 'Incorrect'`. */
  function CorrectnessLabel(isCorrect: Option<bool>): (r: string)
    ensures r == "Correct" <==> isCorrect == Some(true)
    ensures r == "Correct" || r == "Incorrect"
  {
    if isCorrect == Some(true) then "Correct" else "Incorrect"
  }

  /** `answer.marksObtained > 0`: the marks line shows only positive marks. */
  function MarksShown(marksObtained: Option<int>): (r: Option<int>)
    ensures r.Some? <==> marksObtained.Some? && marksObtained.value > 0
    ensures r.Some? ==> r == marksObtained
  {
    if marksObtained.Some? && marksObtained.value > 0 then marksObtained else None
  }

  /**
   * One row per stored answer, in order, numbered from 1: it reads "Correct" exactly when the
   * answer is marked correct, and shows the answer's marks exactly when they are positive.
   */
  function Rows(answers: seq<Answer>): (r: seq<Row>)
    ensures |r| == |answers|
    ensures forall i :: 0 <= i < |r| ==>
      && r[i].number == i + 1
      && (r[i].verdict == "Correct" <==> answers[i].isCorrect == Some(true))
      && (r[i].verdict == "Correct" || r[i].verdict == "Incorrect")
      && (r[i].marks.Some? <==> answers[i].marksObtained.Some? && answers[i].marksObtained.value > 0)
      && (r[i].marks.Some? ==> r[i].marks == answers[i].marksObtained)
  {
    seq(|answers|, i requires 0 <= i < |answers| =>
      Row(i + 1, CorrectnessLabel(answers[i].isCorrect), MarksShown(answers[i].marksObtained)))
  }

  /** Answers stored by the server grading carry no correctness, so every row reads "Incorrect" with no marks. */
  lemma UngradedRows(answers: seq<Answer>, i: int)
    requires 0 <= i < |answers| && answers[i].isCorrect.None? && answers[i].marksObtained.None?
    ensures Rows(answers)[i] == Row(i + 1, "Incorrect", None)
  {
  }

  datatype ReviewLoad = ReviewFailed(message: string) | ReviewLoaded(attempt: Attempt)

  const AttemptIdNotFound: string := "Attempt ID not found"
  const AttemptNotFound: string := "Attempt not found"
  /** The `TypeError` message of destructuring a missing navigation state. */
  const NoNavigationState: string := "Cannot destructure property 'attemptId' of 'location.state' as it is null."

  /** `loadAttemptData`, given the navigation state (its `attemptId`) and the fetched attempt. */
  function LoadAttemptData(state: Option<Option<Id>>, response: Option<Attempt>): (r: ReviewLoad)
    ensures state.None? ==> r == ReviewFailed(NoNavigationState)
    ensures state == Some(None) ==> r == ReviewFailed(AttemptIdNotFound)
    ensures state.Some? && state.value.Some? && response.None? ==> r == ReviewFailed(AttemptNotFound)
    ensures r.ReviewLoaded? <==> state.Some? && state.value.Some? && response.Some?
    ensures r.ReviewLoaded? ==> r.attempt == response.value
  {
    if state.None? then ReviewFailed(NoNavigationState)
    else if state.value.None? then ReviewFailed(AttemptIdNotFound)
    else if response.None? then ReviewFailed(AttemptNotFound)
    else ReviewLoaded(response.value)
  }
}
