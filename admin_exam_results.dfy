/**
 * The administrator's results page for one exam: the summary counts, the per-question
 * correct rate and difficulty, the status label of each row, and the removal of a deleted
 * attempt from the list. The page reads the exam's `passingScore` field.
 */
module AdminExamResults {
  import opened Base
  import opened Exams
  import opened AttemptSchema
  import opened ClientData
  import Js

  /** The number of attempts satisfying a condition, as `filter(...).length`. */
  function CountCompletedPassing(attempts: seq<ListedAttempt>, passingScore: Option<int>): nat {
    if attempts == [] then 0
    else CountCompletedPassing(attempts[..|attempts| - 1], passingScore)
         + (if IsPass(attempts[|attempts| - 1], passingScore) then 1 else 0)
  }

  function CountCompletedFailing(attempts: seq<ListedAttempt>, passingScore: Option<int>): nat {
    if attempts == [] then 0
    else CountCompletedFailing(attempts[..|attempts| - 1], passingScore)
         + (if IsFail(attempts[|attempts| - 1], passingScore) then 1 else 0)
  }

  function CountStatus(attempts: seq<ListedAttempt>, status: Status): nat {
    if attempts == [] then 0
    else CountStatus(attempts[..|attempts| - 1], status) + (if attempts[|attempts| - 1].status == status then 1 else 0)
  }

  /** `a.status === 'completed' && a.score >= passingScore`. */
  predicate IsPass(a: ListedAttempt, passingScore: Option<int>) {
    a.status == Completed && Js.Ge(a.score, passingScore)
  }

  /** `a.status === 'completed' && a.score < passingScore`. */
  predicate IsFail(a: ListedAttempt, passingScore: Option<int>) {
    a.status == Completed && Js.Lt(a.score, passingScore)
  }

  datatype Stats = Stats(totalAttempts: nat, passCount: nat, failCount: nat, inProgressCount: nat)

  /**
   * The summary counts; `totalStudents` (read from the exam response and never rendered)
   * is not part of this model.
   */
  function StatsOf(attempts: seq<ListedAttempt>, passingScore: Option<int>): (r: Stats)
    ensures r.totalAttempts == |attempts|
    ensures r.inProgressCount == CountStatus(attempts, InProgress)
    ensures r.passCount == CountCompletedPassing(attempts, passingScore)
    ensures r.failCount == CountCompletedFailing(attempts, passingScore)
  {
    Stats(|attempts|, CountCompletedPassing(attempts, passingScore), CountCompletedFailing(attempts, passingScore),
          CountStatus(attempts, InProgress))
  }

  /**
   * Pass and fail never count the same attempt, so together they count at most the
   * completed attempts; they count every completed attempt when the passing score and
   * every completed score are present.
   */
  lemma {:induction false} PassFailPartition(attempts: seq<ListedAttempt>, passingScore: Option<int>)
    ensures CountCompletedPassing(attempts, passingScore) + CountCompletedFailing(attempts, passingScore)
            <= CountStatus(attempts, Completed)
    ensures passingScore.Some? && (forall a :: a in attempts && a.status == Completed ==> a.score.Some?) ==>
      CountCompletedPassing(attempts, passingScore) + CountCompletedFailing(attempts, passingScore)
      == CountStatus(attempts, Completed)
  {
    if attempts != [] {
      var init := attempts[..|attempts| - 1];
      assert forall a :: a in init ==> a in attempts;
      PassFailPartition(init, passingScore);
      var last := attempts[|attempts| - 1];
      Js.GeLtExclusive(last.score, passingScore);
    }
  }

  /** With no passing score on the exam, nothing counts as passed or failed. */
  lemma {:induction false} NoThresholdNoVerdict(attempts: seq<ListedAttempt>)
    ensures CountCompletedPassing(attempts, None) == 0 && CountCompletedFailing(attempts, None) == 0
  {
    if attempts != [] {
      NoThresholdNoVerdict(attempts[..|attempts| - 1]);
    }
  }

  /** The status counts add up to the list length. */
  lemma {:induction false} StatusCountsSum(attempts: seq<ListedAttempt>)
    ensures CountStatus(attempts, InProgress) + CountStatus(attempts, Completed) + CountStatus(attempts, Abandoned)
      + CountStatus(attempts, Attempted) + CountStatus(attempts, Pass) + CountStatus(attempts, Fail) == |attempts|
  {
    if attempts != [] {
      StatusCountsSum(attempts[..|attempts| - 1]);
    }
  }

  // ---------------------------------------------------------------------------
  // Question insights

  /** `a.answers[index]?.selectedOption`: absent past the end of the answers. */
  function SelectedAt(a: ListedAttempt, index: int): Option<int> {
    if 0 <= index < |a.answers| then a.answers[index].selectedOption else None
  }

  /** The completed attempts whose positional answer matches the question's correct answer. */
  function CorrectCount(completed: seq<ListedAttempt>, index: int, q: Question): (c: nat)
    ensures c <= |completed|
  {
    if completed == [] then 0
    else CorrectCount(completed[..|completed| - 1], index, q)
         + (if SelectedAt(completed[|completed| - 1], index) == q.correctAnswer then 1 else 0)
  }

  /** `Math.round((correct / completed) * 100) || 0` on an exact quotient. */
  function RoundedRate(correct: nat, completed: nat): (r: int)
    ensures completed == 0 ==> r == 0
    ensures completed > 0 ==> 2 * completed * r - completed <= 200 * correct < 2 * completed * r + completed
  {
    if completed == 0 then 0 else Js.Round(100 * correct, completed)
  }

  /** The rate of a subset never exceeds 100. */
  lemma RoundedRateBounds(correct: nat, completed: nat)
    requires correct <= completed
    ensures 0 <= RoundedRate(correct, completed) <= 100
  {
    if completed > 0 {
      var r := RoundedRate(correct, completed);
      if r < 0 {
        MulBelow(2 * completed, r, -1);
      }
      if r > 100 {
        MulBelow(2 * completed, 101, r);
      }
    }
  }

  /** Multiplying by a non-negative factor keeps the order. */
  lemma MulBelow(k: int, a: int, b: int)
    requires k >= 0 && a <= b
    ensures k * a <= k * b
  {
  }

  datatype Difficulty = Easy | Medium | Hard

  /** The bucket of the unrounded rate `100 correct / completed`, compared by cross-multiplication. */
  function DifficultyOf(correct: nat, completed: nat): Difficulty {
    if completed == 0 then Hard
    else if 100 * correct >= 70 * completed then Easy
    else if 100 * correct >= 40 * completed then Medium
    else Hard
  }

  /** For a positive count, the exact rate reaches a threshold exactly when the cross product does. */
  lemma RateAtLeast(num: int, n: int, t: int)
    requires n > 0
    ensures num as real / n as real >= t as real <==> num >= t * n
  {
    var x := num as real / n as real;
    assert x * n as real == num as real;
    if x >= t as real {
      assert x * n as real >= t as real * n as real;
    } else {
      assert x * n as real < t as real * n as real;
    }
  }

  /** Easy from 70 percent, Medium from 40 percent, Hard below, and Hard when nobody completed. */
  lemma DifficultyBuckets(correct: nat, completed: nat)
    requires completed > 0
    ensures DifficultyOf(correct, completed) == Easy <==> (100 * correct) as real / completed as real >= 70.0
    ensures DifficultyOf(correct, completed) == Medium <==>
      (100 * correct) as real / completed as real >= 40.0 && !((100 * correct) as real / completed as real >= 70.0)
    ensures DifficultyOf(correct, completed) == Hard <==> !((100 * correct) as real / completed as real >= 40.0)
  {
    RateAtLeast(100 * correct, completed, 70);
    RateAtLeast(100 * correct, completed, 40);
  }

  datatype Insight = Insight(questionNumber: int, correctRate: int, difficulty: Difficulty)

  /**
   * Exactly one insight per question, in order, numbered from 1, computed over the
   * completed attempts: with c of the n completed attempts answering question i correctly,
   * the rate is 100·c/n rounded (0 when n is 0) and the bucket follows the 70/40 cut-offs.
   */
  function Insights(questions: seq<Question>, attempts: seq<ListedAttempt>): (r: seq<Insight>)
    ensures |r| == |questions|
    ensures forall i :: 0 <= i < |r| ==>
      var c := CorrectCount(Completeds(attempts), i, questions[i]);
      var n := |Completeds(attempts)|;
      && r[i].questionNumber == i + 1
      && (n == 0 ==> r[i].correctRate == 0)
      && (n > 0 ==> 2 * n * r[i].correctRate - n <= 200 * c < 2 * n * r[i].correctRate + n)
      && (r[i].difficulty == Easy <==> n > 0 && 100 * c >= 70 * n)
      && (r[i].difficulty == Medium <==> n > 0 && 40 * n <= 100 * c < 70 * n)
      && (r[i].difficulty == Hard <==> n == 0 || 100 * c < 40 * n)
  {
    var completed := Completeds(attempts);
    seq(|questions|, i requires 0 <= i < |questions| =>
      var c := CorrectCount(completed, i, questions[i]);
      Insight(i + 1, RoundedRate(c, |completed|), DifficultyOf(c, |completed|)))
  }

  /** `attempts.filter(a => a.status === 'completed')`. */
  function Completeds(attempts: seq<ListedAttempt>): (r: seq<ListedAttempt>)
    ensures |r| == CountStatus(attempts, Completed)
    ensures forall a :: a in r <==> a in attempts && a.status == Completed
  {
    if attempts == [] then []
    else
      var init := attempts[..|attempts| - 1];
      var last := attempts[|attempts| - 1];
      assert forall a :: a in attempts <==> a in init || a == last;
      Completeds(init) + (if last.status == Completed then [last] else [])
  }

  /** With no completed attempts every question has rate 0 and is Hard. */
  lemma NoCompletedAllHard(questions: seq<Question>, attempts: seq<ListedAttempt>, i: int)
    requires forall a :: a in attempts ==> a.status != Completed
    requires 0 <= i < |questions|
    ensures Insights(questions, attempts)[i].correctRate == 0
    ensures Insights(questions, attempts)[i].difficulty == Hard
  {
  }

  // ---------------------------------------------------------------------------
  // Rows and deletion

  /** The status badge of a row: only a client-side pass on a `completed` attempt reads "Pass". */
  function RowLabel(a: ListedAttempt, passingScore: Option<int>): (r: string)
    ensures a.status == InProgress <==> r == "In Progress"
    ensures r == "Pass" <==> IsPass(a, passingScore)
    ensures r == "In Progress" || r == "Pass" || r == "Fail"
  {
    if a.status == InProgress then "In Progress"
    else if a.status == Completed && Js.Ge(a.score, passingScore) then "Pass"
    else "Fail"
  }

  /** Attempts the server graded as passed are shown as failed. */
  lemma ServerPassShownAsFail(a: ListedAttempt, passingScore: Option<int>)
    requires a.status == Pass
    ensures RowLabel(a, passingScore) == "Fail"
  {
  }

  /** `attempts.filter(a => a._id !== attemptId)`. */
  function WithoutId(attempts: seq<ListedAttempt>, id: Id): (r: seq<ListedAttempt>)
    ensures forall a :: a in r <==> a in attempts && a.id != id
    ensures |r| <= |attempts|
  {
    if attempts == [] then []
    else (if attempts[0].id != id then [attempts[0]] else []) + WithoutId(attempts[1..], id)
  }

  /** Removing an id keeps the order: it distributes over concatenation. */
  lemma {:induction false} WithoutIdAppend(xs: seq<ListedAttempt>, ys: seq<ListedAttempt>, id: Id)
    ensures WithoutId(xs + ys, id) == WithoutId(xs, id) + WithoutId(ys, id)
  {
    if xs != [] {
      assert (xs + ys)[0] == xs[0];
      assert (xs + ys)[1..] == xs[1..] + ys;
      WithoutIdAppend(xs[1..], ys, id);
    } else {
      assert xs + ys == ys;
    }
  }

  /** An id not in the list leaves it as it is. */
  lemma {:induction false} WithoutAbsentId(attempts: seq<ListedAttempt>, id: Id)
    requires forall a :: a in attempts ==> a.id != id
    ensures WithoutId(attempts, id) == attempts
  {
    if attempts != [] {
      WithoutAbsentId(attempts[1..], id);
    }
  }

  const NoExamIdProvided: string := "No exam ID provided"
  const FetchFailed: string := "Failed to fetch exam results"

  /** The page state: the loaded exam, the attempt list and what was computed from them. */
  class ResultsView {
    var exam: Option<Exam>
    var attempts: seq<ListedAttempt>
    var stats: Stats
    var insights: seq<Insight>
    var error: Option<string>
    var loading: bool

    constructor ()
      ensures exam.None? && attempts == [] && stats == Stats(0, 0, 0, 0) && insights == [] && error.None? && loading
    {
      exam, attempts, stats, insights, error, loading := None, [], Stats(0, 0, 0, 0), [], None, true;
    }

    /**
     * `fetchExamResults`, given the route's exam id and the two responses (absent when a
     * request fails): the list, the counts and the insights.
     */
    method FetchExamResults(examId: Option<Id>, examResponse: Option<Exam>, attemptsResponse: Option<seq<ListedAttempt>>)
      modifies this
      ensures !loading
      ensures examId.None? ==>
        error == Some(NoExamIdProvided) && exam == old(exam) && attempts == old(attempts)
        && stats == old(stats) && insights == old(insights)
      ensures examId.Some? && examResponse.None? ==>
        error == Some(FetchFailed) && exam == old(exam) && attempts == old(attempts)
        && stats == old(stats) && insights == old(insights)
      ensures examId.Some? && examResponse.Some? && attemptsResponse.None? ==>
        error == Some(FetchFailed) && exam == examResponse && attempts == old(attempts)
        && stats == old(stats) && insights == old(insights)
      ensures examId.Some? && examResponse.Some? && attemptsResponse.Some? ==>
        && error == old(error) && exam == examResponse && attempts == attemptsResponse.value
        && stats == StatsOf(attempts, examResponse.value.passingScore)
        && insights == Insights(examResponse.value.questions, attempts)
    {
      if examId.None? {
        error, loading := Some(NoExamIdProvided), false;
        return;
      }
      loading := true;
      if examResponse.None? {
        error, loading := Some(FetchFailed), false;
        return;
      }
      exam := examResponse;
      if attemptsResponse.None? {
        error, loading := Some(FetchFailed), false;
        return;
      }
      attempts := attemptsResponse.value;
      stats := StatsOf(attempts, examResponse.value.passingScore);
      insights := Insights(examResponse.value.questions, attempts);
      loading := false;
    }

    /** `handleDeleteAttempt`: only a confirmed and successful delete removes the rows with that id. */
    method DeleteAttempt(id: Id, confirmed: bool, deleted: bool)
      modifies this
      ensures confirmed && deleted ==> attempts == WithoutId(old(attempts), id)
      ensures !(confirmed && deleted) ==> attempts == old(attempts)
      ensures exam == old(exam) && stats == old(stats) && insights == old(insights) && error == old(error) && loading == old(loading)
    {
      if !confirmed || !deleted {
        return;
      }
      attempts := WithoutId(attempts, id);
    }
  }
}
