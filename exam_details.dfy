/**
 * The exam details page: which of the caller's attempts belong to this exam, which one is
 * in progress and which submission is shown, the one-attempt refusal when starting, the
 * answer map handed to the review page, and the opening-window flags.
 */
module ExamDetails {
  import opened Base
  import opened Exams
  import opened AttemptSchema
  import opened ClientData

  /** The result of evaluating an expression that may throw. */
  datatype Eval<T> = Raised | Done(value: T)

  /**
   * `typeof a.exam === 'object' ? a.exam._id : a.exam`: the id of a populated exam, the
   * bare id itself, nothing for a missing field; `null` is an object too, and reading
   * its `_id` throws.
   */
  function AttemptExamId(ref: ExamRef): (r: Eval<Option<Id>>)
    ensures r.Raised? <==> ref.Null?
    ensures ref.Populated? ==> r == Done(Some(ref.exam.id))
    ensures ref.Reference? ==> r == Done(Some(ref.id))
    ensures ref.Missing? ==> r == Done(None)
  {
    match ref
    case Populated(e) => Done(Some(e.id))
    case Reference(id) => Done(Some(id))
    case Null => Raised
    case Missing => Done(None)
  }

  /** An attempt belongs to the exam when its normalised exam id is the exam's id. */
  predicate BelongsTo(a: ListedAttempt, examId: Id)
  {
    AttemptExamId(a.exam) == Done(Some(examId))
  }

  /** `attempts.filter(...)` on the normalised exam id; it raises when any attempt has a `null` exam. */
  function ExamAttempts(attempts: seq<ListedAttempt>, examId: Id): (r: Eval<seq<ListedAttempt>>)
    ensures r.Raised? <==> exists a :: a in attempts && a.exam.Null?
    ensures r.Done? ==> forall a :: a in r.value <==> a in attempts && BelongsTo(a, examId)
  {
    if attempts == [] then Done([])
    else if attempts[0].exam.Null? then Raised
    else
      match ExamAttempts(attempts[1..], examId)
      case Raised => Raised
      case Done(rest) => Done(if BelongsTo(attempts[0], examId) then [attempts[0]] + rest else rest)
  }

  /** The kept attempts are in their original order: the filter keeps a subsequence. */
  lemma {:induction false} ExamAttemptsOrdered(attempts: seq<ListedAttempt>, examId: Id)
    requires ExamAttempts(attempts, examId).Done?
    ensures |ExamAttempts(attempts, examId).value| <= |attempts|
    ensures ExamAttempts(attempts, examId).value == Kept(attempts, examId)
  {
    if attempts != [] {
      ExamAttemptsOrdered(attempts[1..], examId);
    }
  }

  /** The attempts of `attempts` that belong to the exam, in order, with no exception possible. */
  function Kept(attempts: seq<ListedAttempt>, examId: Id): seq<ListedAttempt> {
    if attempts == [] then []
    else (if BelongsTo(attempts[0], examId) then [attempts[0]] else []) + Kept(attempts[1..], examId)
  }

  /** `examAttempts.find(a => a.status === 'in_progress')`. */
  function FirstInProgress(attempts: seq<ListedAttempt>): (r: Option<ListedAttempt>)
    ensures r.Some? ==> r.value in attempts && r.value.status == InProgress
    ensures r.None? <==> forall a :: a in attempts ==> a.status != InProgress
  {
    if attempts == [] then None
    else if attempts[0].status == InProgress then Some(attempts[0])
    else FirstInProgress(attempts[1..])
  }

  /** The first in-progress attempt comes before every other in-progress one. */
  lemma {:induction false} FirstInProgressIsFirst(attempts: seq<ListedAttempt>, i: nat)
    requires i < |attempts| && attempts[i].status == InProgress
    ensures FirstInProgress(attempts).Some?
    ensures exists j :: 0 <= j <= i && attempts[j] == FirstInProgress(attempts).value
  {
    if attempts[0].status != InProgress {
      FirstInProgressIsFirst(attempts[1..], i - 1);
      var j :| 0 <= j <= i - 1 && attempts[1..][j] == FirstInProgress(attempts[1..]).value;
      assert attempts[j + 1] == FirstInProgress(attempts).value;
    }
  }

  /** The attempts that are no longer in progress, in order. */
  function Finished(attempts: seq<ListedAttempt>): (r: seq<ListedAttempt>)
    ensures forall a :: a in r <==> a in attempts && a.status != InProgress
  {
    if attempts == [] then []
    else (if attempts[0].status != InProgress then [attempts[0]] else []) + Finished(attempts[1..])
  }

  /** The `endTime` order of the descending sort, with a missing end time ranked lowest. */
  predicate EndsBefore(a: ListedAttempt, b: ListedAttempt) {
    b.endTime.Some? && (a.endTime.None? || a.endTime.value < b.endTime.value)
  }

  /**
   * The position of the first element of a stable descending sort on `endTime`: the
   * first attempt with the latest end time.
   */
  function LatestIndex(cs: seq<ListedAttempt>): (k: nat)
    requires |cs| > 0
    ensures k < |cs|
    ensures forall j :: 0 <= j < |cs| ==> !EndsBefore(cs[k], cs[j])
    ensures forall j :: 0 <= j < k ==> EndsBefore(cs[j], cs[k])
  {
    if |cs| == 1 then 0
    else
      var k := LatestIndex(cs[..|cs| - 1]);
      assert forall j :: 0 <= j < |cs| - 1 ==> cs[..|cs| - 1][j] == cs[j];
      if EndsBefore(cs[k], cs[|cs| - 1]) then |cs| - 1 else k
  }

  /** The submission shown: the finished attempt with the latest end time, if any. */
  function LatestSubmission(attempts: seq<ListedAttempt>): (r: Option<ListedAttempt>)
    ensures r.None? <==> forall a :: a in attempts ==> a.status == InProgress
    ensures r.Some? ==> r.value in attempts && r.value.status != InProgress
    ensures r.Some? ==> forall a :: a in attempts && a.status != InProgress ==> !EndsBefore(r.value, a)
  {
    var cs := Finished(attempts);
    if cs == [] then None
    else
      var k := LatestIndex(cs);
      assert forall a :: a in cs ==> exists j :: 0 <= j < |cs| && cs[j] == a;
      Some(cs[k])
  }

  /** `attempts.find(...)` for a finished attempt on the exam: it raises at a `null` exam met before any match. */
  function FindFinished(attempts: seq<ListedAttempt>, examId: Id): (r: Eval<Option<ListedAttempt>>)
    ensures r == Done(None) ==> forall a :: a in attempts ==> !(BelongsTo(a, examId) && a.status != InProgress)
    ensures r.Done? && r.value.Some? ==> r.value.value in attempts && BelongsTo(r.value.value, examId)
                                         && r.value.value.status != InProgress
    ensures (forall a :: a in attempts ==> !a.exam.Null?) ==> r.Done?
  {
    if attempts == [] then Done(None)
    else if attempts[0].exam.Null? then Raised
    else if BelongsTo(attempts[0], examId) && attempts[0].status != InProgress then Done(Some(attempts[0]))
    else FindFinished(attempts[1..], examId)
  }

  /** A finished attempt on the exam listed before any `null` exam is always found. */
  lemma {:induction false} FindFinishedFinds(attempts: seq<ListedAttempt>, examId: Id, i: nat)
    requires i < |attempts| && BelongsTo(attempts[i], examId) && attempts[i].status != InProgress
    requires forall j :: 0 <= j < i ==> !attempts[j].exam.Null?
    ensures FindFinished(attempts, examId).Done? && FindFinished(attempts, examId).value.Some?
  {
    if i > 0 && !(BelongsTo(attempts[0], examId) && attempts[0].status != InProgress) {
      FindFinishedFinds(attempts[1..], examId, i - 1);
    }
  }

  /** `answersObj[answer.questionIndex] = answer.selectedOption` folded over the answers: the last entry wins. */
  function AnswerMap(answers: seq<ListedAnswer>): map<int, Option<int>> {
    if answers == [] then map[]
    else
      var m := AnswerMap(answers[..|answers| - 1]);
      var last := answers[|answers| - 1];
      if last.questionIndex.Some? then m[last.questionIndex.value := last.selectedOption] else m
  }

  /** The map's keys are exactly the defined question indices. */
  lemma {:induction false} AnswerMapKeys(answers: seq<ListedAnswer>)
    ensures forall k :: k in AnswerMap(answers) <==> exists i :: 0 <= i < |answers| && answers[i].questionIndex == Some(k)
  {
    if answers != [] {
      var init := answers[..|answers| - 1];
      AnswerMapKeys(init);
      forall k
        ensures k in AnswerMap(answers) <==> exists i :: 0 <= i < |answers| && answers[i].questionIndex == Some(k)
      {
        if k in AnswerMap(answers) && !(answers[|answers| - 1].questionIndex == Some(k)) {
          var i :| 0 <= i < |init| && init[i].questionIndex == Some(k);
          assert answers[i].questionIndex == Some(k);
        }
        if exists i :: 0 <= i < |answers| && answers[i].questionIndex == Some(k) {
          var i :| 0 <= i < |answers| && answers[i].questionIndex == Some(k);
          if i < |init| {
            assert init[i].questionIndex == Some(k);
          }
        }
      }
    }
  }

  /** Each key holds the selected option of the last entry with that index; later duplicates overwrite earlier ones. */
  lemma {:induction false} AnswerMapLastWins(answers: seq<ListedAnswer>, i: nat)
    requires i < |answers| && answers[i].questionIndex.Some?
    requires forall j :: i < j < |answers| ==> answers[j].questionIndex != answers[i].questionIndex
    ensures answers[i].questionIndex.value in AnswerMap(answers)
    ensures AnswerMap(answers)[answers[i].questionIndex.value] == answers[i].selectedOption
  {
    if i < |answers| - 1 {
      var init := answers[..|answers| - 1];
      AnswerMapLastWins(init, i);
    }
  }

  /** `handleReviewExam`'s loop building `answersObj`. */
  method AnswersObject(answers: seq<ListedAnswer>) returns (answersObj: map<int, Option<int>>)
    ensures answersObj == AnswerMap(answers)
  {
    answersObj := map[];
    var i := 0;
    while i < |answers|
      invariant 0 <= i <= |answers|
      invariant answersObj == AnswerMap(answers[..i])
    {
      var answer := answers[i];
      assert answers[..i + 1][..i] == answers[..i];
      if answer.questionIndex.Some? {
        answersObj := answersObj[answer.questionIndex.value := answer.selectedOption];
      }
      i := i + 1;
    }
    assert answers[..i] == answers;
  }

  /** `(end - start) / 1000`, stored only when both times are present. */
  function TimeTakenSeconds(startTime: Option<int>, endTime: Option<int>): (r: Option<real>)
    ensures r.Some? <==> startTime.Some? && endTime.Some?
    ensures r.Some? ==> r.value * 1000.0 == (endTime.value - startTime.value) as real
  {
    if startTime.Some? && endTime.Some? then Some((endTime.value - startTime.value) as real / 1000.0) else None
  }

  // ---------------------------------------------------------------------------
  // Opening window

  /** `openTime && now < openTime`. */
  predicate NotStarted(openTime: Option<int>, now: int) {
    openTime.Some? && now < openTime.value
  }

  /** `closeTime && now > closeTime`. */
  predicate Closed(closeTime: Option<int>, now: int) {
    closeTime.Some? && now > closeTime.value
  }

  /** What the lower part of the page shows. */
  datatype Panel =
    | ResumePanel
    | SubmissionPanel(resultShown: bool, pendingShown: bool)
    | StartButton
    | NotYetOpen
    | NoLongerAvailable

  /** The page's panel choice: resume before submission, submission before instructions. */
  function PanelFor(inProgress: Option<ListedAttempt>, attempt: Option<ListedAttempt>,
                    openTime: Option<int>, closeTime: Option<int>, now: int): Panel
  {
    if inProgress.Some? then ResumePanel
    else if attempt.Some? then
      SubmissionPanel(closeTime.Some? && now > closeTime.value, closeTime.Some? && now <= closeTime.value)
    else if NotStarted(openTime, now) then NotYetOpen
    else if Closed(closeTime, now) then NoLongerAvailable
    else StartButton
  }

  /** The start button is offered exactly when there is nothing to resume or show and the window is open. */
  lemma StartOffered(inProgress: Option<ListedAttempt>, attempt: Option<ListedAttempt>,
                     openTime: Option<int>, closeTime: Option<int>, now: int)
    ensures PanelFor(inProgress, attempt, openTime, closeTime, now) == StartButton <==>
      inProgress.None? && attempt.None?
      && (openTime.None? || now >= openTime.value) && (closeTime.None? || now <= closeTime.value)
  {
  }

  /** Absent times never block the start. */
  lemma AbsentTimesNeverBlock(now: int)
    ensures PanelFor(None, None, None, None, now) == StartButton
  {
  }

  /** Score and status show only after the close time; without a close time neither they nor the notice show. */
  lemma ResultShownAfterClose(attempt: ListedAttempt, closeTime: Option<int>, openTime: Option<int>, now: int)
    ensures PanelFor(None, Some(attempt), openTime, closeTime, now).resultShown <==> closeTime.Some? && now > closeTime.value
    ensures closeTime.None? ==> PanelFor(None, Some(attempt), openTime, closeTime, now) == SubmissionPanel(false, false)
  {
  }

  // ---------------------------------------------------------------------------
  // The page state

  /** Where a handler navigated. */
  datatype Navigation = ToExam(examId: Id, duration: int, totalQuestions: int) | ToReview

  const AlreadyCompleted: string := "You have already completed this exam. Only one attempt is allowed."
  const NoExamId: string := "No exam ID provided"
  const PleaseLogIn: string := "Please log in to start the exam"
  const ExamNotFound: string := "Exam not found"
  const ExamLoadFailed: string := "Error loading exam details"
  /** The message of the `TypeError` raised on a `null` exam. */
  const NullExamError: string := "Cannot read properties of null (reading '_id')"

  datatype DetailsState = DetailsState(
    exam: Option<Exam>,
    error: Option<string>,
    loading: bool,
    showModal: bool,
    attempt: Option<ListedAttempt>,
    inProgress: Option<ListedAttempt>,
    navigation: Option<Navigation>)

  class ExamDetailsView {
    const examId: Option<Id>
    const storage: LocalStorage
    var exam: Option<Exam>
    var error: Option<string>
    var loading: bool
    var showModal: bool
    var attempt: Option<ListedAttempt>
    var inProgress: Option<ListedAttempt>
    var navigation: Option<Navigation>

    function State(): DetailsState
      reads this
    {
      DetailsState(exam, error, loading, showModal, attempt, inProgress, navigation)
    }

    constructor (examId: Option<Id>, storage: LocalStorage)
      ensures this.examId == examId && this.storage == storage
      ensures State() == DetailsState(None, if examId.None? then Some(NoExamId) else None, false, false, None, None, None)
    {
      this.examId := examId;
      this.storage := storage;
      exam := None;
      error := if examId.None? then Some(NoExamId) else None;
      loading, showModal, attempt, inProgress, navigation := false, false, None, None, None;
    }

    /**
     * `fetchExamDetails`, given the exam the request returns (absent when it fails):
     * nothing without an exam id; otherwise the page's exam, or the loading error.
     */
    method FetchExamDetails(fetched: Option<Exam>)
      modifies this
      ensures examId.None? ==> State() == old(State())
      ensures examId.Some? && fetched.Some? ==> State() == old(State()).(exam := fetched)
      ensures examId.Some? && fetched.None? ==> State() == old(State()).(error := Some(ExamLoadFailed))
    {
      if examId.None? {
        return;
      }
      if fetched.None? {
        error := Some(ExamLoadFailed);
        return;
      }
      exam := fetched;
    }

    /**
     * `checkAttempt`, given whether a user is signed in and the caller's attempts: the
     * in-progress attempt and the latest submission among this exam's attempts; a
     * raised filter is swallowed and changes nothing.
     */
    method CheckAttempt(signedIn: bool, attempts: seq<ListedAttempt>)
      modifies this
      ensures !signedIn || examId.None? || ExamAttempts(attempts, examId.value).Raised? ==> State() == old(State())
      ensures signedIn && examId.Some? && ExamAttempts(attempts, examId.value).Done? ==>
        var mine := ExamAttempts(attempts, examId.value).value;
        State() == old(State()).(
          inProgress := if FirstInProgress(mine).Some? then FirstInProgress(mine) else old(inProgress),
          attempt := if LatestSubmission(mine).Some? then LatestSubmission(mine) else old(attempt))
    {
      if !signedIn || examId.None? {
        return;
      }
      var filtered := ExamAttempts(attempts, examId.value);
      if filtered.Raised? {
        return;
      }
      var examAttempts := filtered.value;
      if |examAttempts| > 0 {
        var found := FirstInProgress(examAttempts);
        if found.Some? {
          inProgress := found;
        }
        var latest := LatestSubmission(examAttempts);
        if latest.Some? {
          attempt := latest;
        }
      }
    }

    /**
     * `handleConfirmStart`, given whether a user is signed in, the caller's attempts and
     * the exam fetched for the page. A finished attempt on this exam refuses the start
     * with no navigation and no storage write; otherwise the questions are stored and the
     * page navigates to the exam.
     */
    method ConfirmStart(signedIn: bool, attempts: seq<ListedAttempt>, fetched: Option<Exam>) returns (navigated: bool)
      modifies this, storage
      ensures loading == false && showModal == false && attempt == old(attempt) && inProgress == old(inProgress)
      ensures exam == old(exam)
      ensures navigated <==>
        examId.Some? && signedIn && FindFinished(attempts, examId.value) == Done(None) && fetched.Some?
      ensures navigated ==>
        && navigation == Some(ToExam(fetched.value.id, fetched.value.duration, |fetched.value.questions|))
        && error.None?
        && storage.items == old(storage.items)["questions" := QuestionsItem(Some(fetched.value.questions))]
      ensures !navigated ==> storage.items == old(storage.items) && navigation == old(navigation) && error.Some?
      ensures examId.Some? && signedIn && FindFinished(attempts, examId.value).Done? ==>
        (FindFinished(attempts, examId.value).value.Some? ==> error == Some(AlreadyCompleted))
    {
      loading, error, navigated := true, None, false;
      if examId.None? {
        error := Some(NoExamId);
      } else if !signedIn {
        error := Some(PleaseLogIn);
      } else {
        var existing := FindFinished(attempts, examId.value);
        if existing.Raised? {
          error := Some(NullExamError);
        } else if existing.value.Some? {
          error := Some(AlreadyCompleted);
        } else if fetched.None? {
          error := Some(ExamNotFound);
        } else {
          storage.SetItem("questions", QuestionsItem(Some(fetched.value.questions)));
          navigation := Some(ToExam(fetched.value.id, fetched.value.duration, |fetched.value.questions|));
          navigated := true;
        }
      }
      loading, showModal := false, false;
    }

    /**
     * `handleReviewExam`: with a submission to show, stores the exam's questions, the
     * answer map and, when both times are known, the seconds taken, then navigates.
     */
    method ReviewExam()
      modifies this, storage
      ensures old(attempt).None? ==> State() == old(State()) && storage.items == old(storage.items)
      ensures old(attempt).Some? ==>
        var a := old(attempt).value;
        var withAnswers := old(storage.items)["questions" := QuestionsItem(if old(exam).Some? then Some(old(exam).value.questions) else None)]
                                             ["submittedAnswers" := SubmittedAnswersItem(AnswerMap(a.answers))];
        && State() == old(State()).(navigation := Some(ToReview))
        && (TimeTakenSeconds(a.startTime, a.endTime).Some? ==>
              storage.items == withAnswers["timeTaken" := TimeTakenItem(TimeTakenSeconds(a.startTime, a.endTime).value)])
        && (TimeTakenSeconds(a.startTime, a.endTime).None? ==> storage.items == withAnswers)
    {
      if attempt.None? {
        return;
      }
      var a := attempt.value;
      storage.SetItem("questions", QuestionsItem(if exam.Some? then Some(exam.value.questions) else None));
      var answersObj := AnswersObject(a.answers);
      storage.SetItem("submittedAnswers", SubmittedAnswersItem(answersObj));
      if a.startTime.Some? && a.endTime.Some? {
        var diff := (a.endTime.value - a.startTime.value) as real / 1000.0;
        storage.SetItem("timeTaken", TimeTakenItem(diff));
      }
      navigation := Some(ToReview);
    }
  }
}
